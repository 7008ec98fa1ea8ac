# KdTree: a 2-d tree point set, modelled in Dafny

The modelled system is the `KdTree` class of `src/KdTree.java`. It stores a set of points of the
unit square in a binary space partition. The root splits on x, its children on y, their children
on x again, and so on. A point whose coordinate on the level's axis is strictly smaller than the
node's goes to the left/bottom subtree. An equal or larger one goes to the right/top subtree.
Every node also keeps the rectangle of the plane routed to it. The root gets the unit square, and
each new node gets its parent's rectangle clipped at the parent's splitting coordinate. The public
operations are the constructor, `isEmpty`, `size`, `insert` and `contains`.

Files:

- `geometry.dfy` (module `Geometry`): `Point` and `Rect` as plain values. They stand for the
  library types `Point2D` and `RectHV`, which are not part of this model.
- `wrappers.dfy` (module `Wrappers`): `Option` for a reference that may be null. `Result` for a
  call that may throw.
- `kdtree.dfy` (module `KdTree`): the node datatype `Tree` (`Nil` is a null link) and the class
  `KdTree` with the fields `root` and `size`.

How the code is modelled:

- `Search` is the private recursive `contains`. `Inserted` is the tree that the private recursive
  `insert` returns. Both follow the source branch for branch.
- `KdTree.KdTree.InsertNode` is the private `insert` as a recursive method. Like the source, it increments
  the `size` field at the null link where the new node is attached. It rebuilds the child link it
  descended into, as the source reassigns `n.lb` or `n.rt`. It is proved equal to `Inserted`.
- The source sets the pending node's `rect` at each level before descending. The model passes it
  down as the parameter `qRect`.
- A null argument is `None`. The `IllegalArgumentException` is `Failure(IllegalArgument(msg))`,
  carrying the source's messages.
- `Valid()` is the object invariant. It holds the routing invariant (`Ordered`) and the rectangle
  invariant (`Framed`, with the unit square at the root). It requires every point to lie in the
  unit square. It requires `size` to equal the node count.

The specification of the system also describes `range` and `nearest` queries. In the source they
are commented-out signatures with no body, so the model follows the code and leaves them out.

## Model

| member | source | states |
|---|---|---|
| `KdTree.KdTree.constructor` | src/KdTree.java:24-27 | The new set has no root, size 0, holds no point, and satisfies the invariant. |
| `KdTree.KdTree.IsEmpty` | src/KdTree.java:30-32 | The set has no root exactly when `size` is 0, and exactly when it holds no point. |
| `KdTree.KdTree.Size` | src/KdTree.java:35-37 | The size counter equals the number of distinct points stored. |
| `KdTree.KdTree.Insert` | src/KdTree.java:40-53 | A null point fails with the source's message and leaves root and size unchanged. Otherwise the invariant is kept and the stored set gains the point. An already stored point leaves root and size unchanged. A new point adds 1 to size and hangs one new leaf at a null link, with every existing node unchanged. On an empty tree the point becomes the root with the unit square as its rectangle. |
| `KdTree.KdTree.InsertNode` | src/KdTree.java:55-85 | The returned subtree is `Inserted(n, q, qRect, isEven)`. `size` grows by 1 exactly when the routed search below `n` does not find `q`, and by 0 otherwise. |
| `KdTree.KdTree.Contains` | src/KdTree.java:88-91 | A null point fails with the source's message. Otherwise the answer is whether the point is in the stored set, which is false on an empty set. |
| `KdTree.SearchFindsMembers` | src/KdTree.java:93-116 | On a tree satisfying the routing invariant, the routed search returns true if and only if the point is stored somewhere in the subtree. |
| `KdTree.CountIsCardinality` | src/KdTree.java:56-61 | On an ordered tree no point is stored twice, so the number of nodes equals the number of distinct points. |
| `KdTree.InsertedPoints` | src/KdTree.java:55-85 | The recursive insert stores exactly the old points plus the inserted one. |
| `KdTree.InsertedOrdered` | src/KdTree.java:63-83 | The recursive insert preserves the routing invariant. Left/bottom is strictly below the split on the level's axis, right/top is at or above it, and the axis alternates x, y, x, ... by depth. |
| `KdTree.InsertedFramed` | src/KdTree.java:63-83 | The recursive insert preserves the rectangle invariant. Each node's rectangle is its parent's, clipped at the parent's split on the side entered (the four cases at lines 67, 70, 77 and 80). |
| `KdTree.InsertedCount` | src/KdTree.java:55-61 | The node count grows by exactly one when the routed search did not find the point, and is unchanged when it did. |
| `KdTree.InsertFoundUnchanged` | src/KdTree.java:59-61 | Inserting a point that the routed search finds returns the identical tree. |
| `KdTree.InsertMissingAddsLeaf` | src/KdTree.java:55-85 | Inserting a point that the search does not find replaces exactly one null link with a new leaf holding the point. Every existing node keeps its point, its rectangle and its other child. |
| `KdTree.SearchAfterInsert` | src/KdTree.java:93-116 | Search routes as insert does. After inserting `q`, a search finds `x` if and only if `x` is `q` or was found before. So an inserted point stays found after later inserts. |
| `KdTree.InsertIdempotent` | src/KdTree.java:59-61 | Inserting the same point a second time returns the tree the first insert produced. |
| `KdTree.FramedIsNested` | src/KdTree.java:63-83 | Take a framed, ordered subtree whose points lie in its region. Every rectangle in it is well formed and holds all points of its subtree, and each child's rectangle lies within its parent's. |
| `KdTree.ValidIsNested` | src/KdTree.java:46 | In a valid set, with the unit square at the root, every node's point lies in its own rectangle and rectangles nest. So the rectangle constructions never receive reversed endpoints. |
| `KdTree.InsertAllPoints` | src/KdTree.java:40-53 | Any sequence of public inserts keeps the tree ordered. It stores exactly the old points plus the distinct inserted ones. |
| `KdTree.CountIsDistinctInserted` | src/KdTree.java:56-61 | Starting from the empty set, in any insertion order and with any duplicates, the node count equals the number of distinct points inserted. |
| `KdTree.UnitTest` | src/KdTree.java:130-140 | The source's `main` scenario gives sizes 0, 1, 1. `contains` is true for the inserted point and for a fresh equal point. |

## Left out

- `range` and `nearest`: commented out in the source, with no body (src/KdTree.java:123-127).
- `draw`: an empty method whose purpose is rendering.
- `main`: its console printing. `UnitTest` returns the printed values instead.
- `Point2D` and `RectHV` are not part of this model. Points and rectangles are plain values with
  value equality.
- `RectHV` validation is not modelled. Its constructor rejects reversed endpoints.
  `ValidIsNested` shows this cannot happen for points of the unit square.
- KdTree.KdTree.Insert: requires the point to lie in the unit square, which the root's rectangle
  assumes. The source does not check this, and points outside it are not modelled.
- Coordinates are reals with a total order. IEEE-754 details are not modelled: NaN, and -0.0
  against +0.0 in `equals` and `<`.
- KdTree.KdTree.Size: `size` is an unbounded integer. The Java `int` overflow after 2^31 - 1
  points is not modelled.
- Node identity and aliasing are not modelled. Nodes are values: the source mutates `n.lb`/`n.rt`
  in place and returns the same node, and the model returns the rebuilt node. The tree is strict,
  with no shared nodes, so no other reference observes the difference.
- KdTree.KdTree.Insert: at the top-level call on a non-empty tree, the source's pending node
  still has a null rectangle. The model passes the unit square there. That value is overwritten
  before the node is attached, so it never reaches the tree.
- Concurrency: the source has no synchronisation, and the model is sequential.
