/**
 * A 2-d tree holding a set of points of the unit square. Levels alternate
 * their splitting axis: x at even depth (the root is depth 0), y at odd depth.
 * A point whose coordinate on the level's axis is strictly smaller than the
 * node's goes to the left/bottom subtree; an equal or larger one goes to the
 * right/top subtree.
 */
module KdTree {
  import opened Wrappers
  import opened Geometry

  /** The exception the public operations throw on a null argument. */
  datatype Error = IllegalArgument(message: string)

  const InsertNullMessage: string := "Calls insert() with a null point"
  const ContainsNullMessage: string := "argument to contains() is null"

  /**
   * A subtree. `Nil` is a null link; a `Node` holds its point, the rectangle
   * of the plane routed to it, and its left/bottom and right/top subtrees.
   */
  datatype Tree = Nil | Node(p: Point, rect: Rect, lb: Tree, rt: Tree)

  /** The coordinate a level splits on: x on even levels, y on odd ones. */
  function Key(q: Point, isEven: bool): real
  {
    if isEven then q.x else q.y
  }

  // ---------------------------------------------------------------------
  // Abstract view and invariants
  // ---------------------------------------------------------------------

  /** The points stored in a subtree. */
  ghost function Points(t: Tree): set<Point>
  {
    match t
    case Nil => {}
    case Node(p, _, lb, rt) => {p} + Points(lb) + Points(rt)
  }

  /** The number of nodes of a subtree. */
  ghost function Count(t: Tree): nat
  {
    match t
    case Nil => 0
    case Node(_, _, lb, rt) => 1 + Count(lb) + Count(rt)
  }

  /**
   * The routing invariant of a subtree whose root is at a level of parity
   * `isEven`: every point on the left/bottom is strictly below the node on
   * the level's axis, every point on the right/top is at or above it, and the
   * node's own point is stored nowhere below it.
   */
  ghost predicate Ordered(t: Tree, isEven: bool)
  {
    match t
    case Nil => true
    case Node(p, _, lb, rt) =>
      && (forall q :: q in Points(lb) ==> Key(q, isEven) < Key(p, isEven))
      && (forall q :: q in Points(rt) ==> Key(p, isEven) <= Key(q, isEven))
      && p !in Points(rt)
      && Ordered(lb, !isEven)
      && Ordered(rt, !isEven)
  }

  /** The part of `r` on the left/bottom side of the splitting line through `p`. */
  function LeftBottom(r: Rect, p: Point, isEven: bool): Rect
  {
    if isEven then r.(xmax := p.x) else r.(ymax := p.y)
  }

  /** The part of `r` on the right/top side of the splitting line through `p`. */
  function RightTop(r: Rect, p: Point, isEven: bool): Rect
  {
    if isEven then r.(xmin := p.x) else r.(ymin := p.y)
  }

  /**
   * The rectangle invariant: the subtree's root holds exactly `region`, and
   * each child holds its parent's rectangle clipped at the parent's splitting
   * coordinate on the side the child hangs from.
   */
  ghost predicate Framed(t: Tree, region: Rect, isEven: bool)
  {
    match t
    case Nil => true
    case Node(p, rect, lb, rt) =>
      && rect == region
      && Framed(lb, LeftBottom(region, p, isEven), !isEven)
      && Framed(rt, RightTop(region, p, isEven), !isEven)
  }

  /**
   * Geometric consistency: every rectangle is well formed, holds every point
   * of its subtree, and contains the rectangles of its children.
   */
  ghost predicate Nested(t: Tree)
  {
    match t
    case Nil => true
    case Node(_, rect, lb, rt) =>
      && WellFormed(rect)
      && (forall q :: q in Points(t) ==> InRect(q, rect))
      && (lb.Node? ==> SubRect(lb.rect, rect))
      && (rt.Node? ==> SubRect(rt.rect, rect))
      && Nested(lb)
      && Nested(rt)
  }

  /**
   * `t'` is `t` with one null link replaced by a new leaf holding `q`; every
   * node of `t` keeps its point, its rectangle and its other child.
   */
  ghost predicate AddsOneLeaf(t: Tree, t': Tree, q: Point)
  {
    match t
    case Nil => t'.Node? && t'.p == q && t'.lb == Nil && t'.rt == Nil
    case Node(p, rect, lb, rt) =>
      && t'.Node? && t'.p == p && t'.rect == rect
      && ((t'.rt == rt && AddsOneLeaf(lb, t'.lb, q)) ||
          (t'.lb == lb && AddsOneLeaf(rt, t'.rt, q)))
  }

  // ---------------------------------------------------------------------
  // The recursive descents
  // ---------------------------------------------------------------------

  /** The private recursive `contains`: follow the routing rule from `n`. */
  function Search(n: Tree, q: Point, isEven: bool): bool
  {
    match n
    case Nil => false
    case Node(p, _, lb, rt) =>
      if p == q then true
      else if isEven then
        if q.x < p.x then Search(lb, q, !isEven) else Search(rt, q, !isEven)
      else
        if q.y < p.y then Search(lb, q, !isEven) else Search(rt, q, !isEven)
  }

  /**
   * The subtree the private recursive `insert` returns. `qRect` is the
   * rectangle the pending node carries when it reaches `n`: each level sets
   * it, before descending, to its own rectangle clipped at its split.
   */
  function Inserted(n: Tree, q: Point, qRect: Rect, isEven: bool): Tree
  {
    match n
    case Nil => Node(q, qRect, Nil, Nil)
    case Node(p, rect, lb, rt) =>
      if p == q then n
      else if isEven then
        if q.x < p.x then
          Node(p, rect, Inserted(lb, q, Rect(rect.xmin, rect.ymin, p.x, rect.ymax), !isEven), rt)
        else
          Node(p, rect, lb, Inserted(rt, q, Rect(p.x, rect.ymin, rect.xmax, rect.ymax), !isEven))
      else
        if q.y < p.y then
          Node(p, rect, Inserted(lb, q, Rect(rect.xmin, rect.ymin, rect.xmax, p.y), !isEven), rt)
        else
          Node(p, rect, lb, Inserted(rt, q, Rect(rect.xmin, p.y, rect.xmax, rect.ymax), !isEven))
  }

  /** The distinct points of a sequence. */
  ghost function ElementsOf(qs: seq<Point>): set<Point>
  {
    set q | q in qs
  }

  /** Public inserts of `qs`, in order, starting from the tree `t`. */
  function InsertAll(t: Tree, qs: seq<Point>): Tree
    decreases qs
  {
    if qs == [] then t else InsertAll(Inserted(t, qs[0], UnitSquare, true), qs[1..])
  }

  // ---------------------------------------------------------------------
  // Lemmas
  // ---------------------------------------------------------------------

  /** On an ordered tree the routed search finds exactly the stored points. */
  lemma {:induction false} SearchFindsMembers(t: Tree, q: Point, isEven: bool)
    requires Ordered(t, isEven)
    ensures Search(t, q, isEven) <==> q in Points(t)
  {
    match t
    case Nil =>
    case Node(p, _, lb, rt) =>
      if p != q {
        SearchFindsMembers(lb, q, !isEven);
        SearchFindsMembers(rt, q, !isEven);
        if Key(q, isEven) < Key(p, isEven) {
          assert q !in Points(rt);
        } else {
          assert q !in Points(lb);
        }
      }
  }

  /** On an ordered tree no point is stored twice: nodes and points are as many. */
  lemma {:induction false} CountIsCardinality(t: Tree, isEven: bool)
    requires Ordered(t, isEven)
    ensures Count(t) == |Points(t)|
  {
    match t
    case Nil =>
    case Node(p, _, lb, rt) =>
      CountIsCardinality(lb, !isEven);
      CountIsCardinality(rt, !isEven);
      assert Points(lb) !! Points(rt) by {
        forall q | q in Points(lb) ensures q !in Points(rt) {
          assert Key(q, isEven) < Key(p, isEven);
        }
      }
      assert p !in Points(lb) + Points(rt);
      assert Points(t) == {p} + (Points(lb) + Points(rt));
  }

  /** Insertion adds the point to the stored set and nothing else. */
  lemma {:induction false} InsertedPoints(t: Tree, q: Point, qRect: Rect, isEven: bool)
    ensures Points(Inserted(t, q, qRect, isEven)) == Points(t) + {q}
  {
    match t
    case Nil =>
    case Node(p, rect, lb, rt) =>
      if p != q {
        if Key(q, isEven) < Key(p, isEven) {
          InsertedPoints(lb, q, LeftBottom(rect, p, isEven), !isEven);
        } else {
          InsertedPoints(rt, q, RightTop(rect, p, isEven), !isEven);
        }
      }
  }

  /** Insertion preserves the routing invariant. */
  lemma {:induction false} InsertedOrdered(t: Tree, q: Point, qRect: Rect, isEven: bool)
    requires Ordered(t, isEven)
    ensures Ordered(Inserted(t, q, qRect, isEven), isEven)
  {
    match t
    case Nil =>
    case Node(p, rect, lb, rt) =>
      if p != q {
        if Key(q, isEven) < Key(p, isEven) {
          InsertedOrdered(lb, q, LeftBottom(rect, p, isEven), !isEven);
          InsertedPoints(lb, q, LeftBottom(rect, p, isEven), !isEven);
        } else {
          InsertedOrdered(rt, q, RightTop(rect, p, isEven), !isEven);
          InsertedPoints(rt, q, RightTop(rect, p, isEven), !isEven);
        }
      }
  }

  /**
   * Insertion preserves the rectangle invariant: the new node receives its
   * parent's rectangle clipped on the entered side (the root's, when the
   * tree was empty, is the rectangle the pending node already carries).
   */
  lemma {:induction false} InsertedFramed(t: Tree, q: Point, qRect: Rect, region: Rect, isEven: bool)
    requires Framed(t, region, isEven)
    requires t == Nil ==> qRect == region
    ensures Framed(Inserted(t, q, qRect, isEven), region, isEven)
  {
    match t
    case Nil =>
    case Node(p, rect, lb, rt) =>
      if p != q {
        if Key(q, isEven) < Key(p, isEven) {
          InsertedFramed(lb, q, LeftBottom(rect, p, isEven), LeftBottom(region, p, isEven), !isEven);
        } else {
          InsertedFramed(rt, q, RightTop(rect, p, isEven), RightTop(region, p, isEven), !isEven);
        }
      }
  }

  /** The node count grows by one exactly when the search did not find the point. */
  lemma {:induction false} InsertedCount(t: Tree, q: Point, qRect: Rect, isEven: bool)
    ensures Count(Inserted(t, q, qRect, isEven)) == Count(t) + (if Search(t, q, isEven) then 0 else 1)
  {
    match t
    case Nil =>
    case Node(p, rect, lb, rt) =>
      if p != q {
        if Key(q, isEven) < Key(p, isEven) {
          InsertedCount(lb, q, LeftBottom(rect, p, isEven), !isEven);
        } else {
          InsertedCount(rt, q, RightTop(rect, p, isEven), !isEven);
        }
      }
  }

  /** Inserting a point the search finds returns the very same tree. */
  lemma {:induction false} InsertFoundUnchanged(t: Tree, q: Point, qRect: Rect, isEven: bool)
    requires Search(t, q, isEven)
    ensures Inserted(t, q, qRect, isEven) == t
  {
    match t
    case Node(p, rect, lb, rt) =>
      if p != q {
        if Key(q, isEven) < Key(p, isEven) {
          InsertFoundUnchanged(lb, q, LeftBottom(rect, p, isEven), !isEven);
        } else {
          InsertFoundUnchanged(rt, q, RightTop(rect, p, isEven), !isEven);
        }
      }
  }

  /**
   * Inserting a point the search does not find hangs one new leaf holding it
   * at a null link and changes no existing node.
   */
  lemma {:induction false} InsertMissingAddsLeaf(t: Tree, q: Point, qRect: Rect, isEven: bool)
    requires !Search(t, q, isEven)
    ensures AddsOneLeaf(t, Inserted(t, q, qRect, isEven), q)
  {
    match t
    case Nil =>
    case Node(p, rect, lb, rt) =>
      if Key(q, isEven) < Key(p, isEven) {
        InsertMissingAddsLeaf(lb, q, LeftBottom(rect, p, isEven), !isEven);
      } else {
        InsertMissingAddsLeaf(rt, q, RightTop(rect, p, isEven), !isEven);
      }
  }

  /**
   * Search and insertion route alike: after inserting `q`, the search finds
   * `x` exactly when `x` is `q` or was found before. This needs no invariant.
   */
  lemma {:induction false} SearchAfterInsert(t: Tree, q: Point, qRect: Rect, isEven: bool, x: Point)
    ensures Search(Inserted(t, q, qRect, isEven), x, isEven) <==> (x == q || Search(t, x, isEven))
  {
    match t
    case Nil =>
      assert Search(Inserted(t, q, qRect, isEven), x, isEven) == (q == x);
    case Node(p, rect, lb, rt) =>
      if p != q && p != x {
        if Key(q, isEven) < Key(p, isEven) {
          SearchAfterInsert(lb, q, LeftBottom(rect, p, isEven), !isEven, x);
        } else {
          SearchAfterInsert(rt, q, RightTop(rect, p, isEven), !isEven, x);
        }
      }
  }

  /** Inserting the same point twice is the same as inserting it once. */
  lemma {:induction false} InsertIdempotent(t: Tree, q: Point, qRect: Rect, qRect': Rect, isEven: bool)
    ensures Inserted(Inserted(t, q, qRect, isEven), q, qRect', isEven) == Inserted(t, q, qRect, isEven)
  {
    SearchAfterInsert(t, q, qRect, isEven, q);
    InsertFoundUnchanged(Inserted(t, q, qRect, isEven), q, qRect', isEven);
  }

  /**
   * A framed, ordered subtree whose points lie in its region has well-formed
   * rectangles, each holding its subtree's points and its children's
   * rectangles.
   */
  lemma {:induction false} FramedIsNested(t: Tree, region: Rect, isEven: bool)
    requires Ordered(t, isEven) && Framed(t, region, isEven)
    requires forall q :: q in Points(t) ==> InRect(q, region)
    ensures Nested(t)
  {
    match t
    case Nil =>
    case Node(p, rect, lb, rt) =>
      assert InRect(p, region);
      forall q | q in Points(lb) ensures InRect(q, LeftBottom(region, p, isEven)) {
        assert InRect(q, region) && Key(q, isEven) < Key(p, isEven);
      }
      forall q | q in Points(rt) ensures InRect(q, RightTop(region, p, isEven)) {
        assert InRect(q, region) && Key(p, isEven) <= Key(q, isEven);
      }
      FramedIsNested(lb, LeftBottom(region, p, isEven), !isEven);
      FramedIsNested(rt, RightTop(region, p, isEven), !isEven);
  }

  /**
   * Public inserts of any sequence of points into an ordered tree keep it
   * ordered and store exactly the old points plus the inserted ones.
   */
  lemma {:induction false} InsertAllPoints(t: Tree, qs: seq<Point>)
    requires Ordered(t, true)
    ensures Ordered(InsertAll(t, qs), true)
    ensures Points(InsertAll(t, qs)) == Points(t) + ElementsOf(qs)
    decreases qs
  {
    if qs != [] {
      InsertedOrdered(t, qs[0], UnitSquare, true);
      InsertedPoints(t, qs[0], UnitSquare, true);
      InsertAllPoints(Inserted(t, qs[0], UnitSquare, true), qs[1..]);
      assert qs == [qs[0]] + qs[1..];
    }
  }

  /**
   * Whatever the order of the inserts and however many duplicates they
   * carry, starting from the empty tree the node count is the number of
   * distinct points inserted.
   */
  lemma CountIsDistinctInserted(qs: seq<Point>)
    ensures Points(InsertAll(Nil, qs)) == ElementsOf(qs)
    ensures Count(InsertAll(Nil, qs)) == |ElementsOf(qs)|
  {
    InsertAllPoints(Nil, qs);
    CountIsCardinality(InsertAll(Nil, qs), true);
  }

  // ---------------------------------------------------------------------
  // The point set
  // ---------------------------------------------------------------------

  /** The point set: the root link and the count of stored points. */
  class KdTree {
    var root: Tree
    var size: int

    /** The points the set holds. */
    ghost function Elements(): set<Point>
      reads this
    {
      Points(root)
    }

    /**
     * The object invariant: routing and rectangle invariants from the root
     * (whose rectangle is the unit square), every point in the unit square,
     * and `size` counting the nodes.
     */
    ghost predicate Valid()
      reads this
    {
      && Ordered(root, true)
      && Framed(root, UnitSquare, true)
      && (forall q :: q in Points(root) ==> InRect(q, UnitSquare))
      && size == Count(root)
    }

    /** An empty set: no root and size 0. */
    constructor ()
      ensures Valid()
      ensures root == Nil && size == 0 && Elements() == {}
    {
      root := Nil;
      size := 0;
    }

    /** The set is empty exactly when it has no root, and then it holds no point. */
    function IsEmpty(): (r: bool)
      reads this
      requires Valid()
      ensures r <==> size == 0
      ensures r <==> Elements() == {}
    {
      root == Nil
    }

    /** The number of distinct points in the set. */
    function Size(): (r: int)
      reads this
      requires Valid()
      ensures r == |Elements()|
    {
      CountIsCardinality(root, true);
      size
    }

    /** Membership; a null point is refused before the tree is looked at. */
    function Contains(p: Option<Point>): (r: Result<bool, Error>)
      reads this
      requires Valid()
      ensures p == None ==> r == Failure(IllegalArgument(ContainsNullMessage))
      ensures p != None ==> r == Success(p.value in Elements())
    {
      if p == None then
        Failure(IllegalArgument(ContainsNullMessage))
      else
        SearchFindsMembers(root, p.value, true);
        Success(Search(root, p.value, true))
    }

    /**
     * Adds a point if it is not already in the set. A null point is refused
     * before the tree is touched. The point must lie in the unit square, the
     * rectangle given to the root.
     */
    method Insert(p: Option<Point>) returns (r: Result<(), Error>)
      requires Valid()
      requires p != None ==> InRect(p.value, UnitSquare)
      modifies this
      ensures Valid()
      ensures p == None ==> r == Failure(IllegalArgument(InsertNullMessage))
      ensures p == None ==> root == old(root) && size == old(size)
      ensures p != None ==> r == Success(())
      ensures p != None ==> root == Inserted(old(root), p.value, UnitSquare, true)
      ensures p != None && old(root) == Nil ==> root == Node(p.value, UnitSquare, Nil, Nil) && size == 1
      ensures p != None ==> Elements() == old(Elements()) + {p.value}
      ensures p != None && p.value in old(Elements()) ==> root == old(root) && size == old(size)
      ensures p != None && p.value !in old(Elements()) ==>
                size == old(size) + 1 && AddsOneLeaf(old(root), root, p.value)
    {
      if p == None {
        return Failure(IllegalArgument(InsertNullMessage));
      }
      var q := p.value;
      ghost var before := root;
      SearchFindsMembers(before, q, true);
      if root == Nil {
        root := Node(q, UnitSquare, Nil, Nil);
        size := size + 1;
      } else {
        // The pending node's rectangle is unset here; as the root is not
        // null, it is overwritten before the node can be attached.
        root := InsertNode(root, q, UnitSquare, true);
      }
      InsertedOrdered(before, q, UnitSquare, true);
      InsertedFramed(before, q, UnitSquare, UnitSquare, true);
      InsertedPoints(before, q, UnitSquare, true);
      InsertedCount(before, q, UnitSquare, true);
      if q in Points(before) {
        InsertFoundUnchanged(before, q, UnitSquare, true);
      } else {
        InsertMissingAddsLeaf(before, q, UnitSquare, true);
      }
      r := Success(());
    }

    /**
     * The private recursive insert below node `n` at a level of parity
     * `isEven`, the pending node carrying `qRect`: returns the new subtree and
     * counts a node attached at a null link.
     */
    method InsertNode(n: Tree, q: Point, qRect: Rect, isEven: bool) returns (r: Tree)
      modifies this`size
      ensures r == Inserted(n, q, qRect, isEven)
      ensures size == old(size) + (if Search(n, q, isEven) then 0 else 1)
      decreases n
    {
      if n == Nil {
        size := size + 1;
        return Node(q, qRect, Nil, Nil);
      } else if n.p == q {
        return n;
      }
      if isEven {
        if q.x < n.p.x {
          var lb := InsertNode(n.lb, q, Rect(n.rect.xmin, n.rect.ymin, n.p.x, n.rect.ymax), !isEven);
          r := n.(lb := lb);
        } else {
          var rt := InsertNode(n.rt, q, Rect(n.p.x, n.rect.ymin, n.rect.xmax, n.rect.ymax), !isEven);
          r := n.(rt := rt);
        }
      } else {
        if q.y < n.p.y {
          var lb := InsertNode(n.lb, q, Rect(n.rect.xmin, n.rect.ymin, n.rect.xmax, n.p.y), !isEven);
          r := n.(lb := lb);
        } else {
          var rt := InsertNode(n.rt, q, Rect(n.rect.xmin, n.p.y, n.rect.xmax, n.rect.ymax), !isEven);
          r := n.(rt := rt);
        }
      }
    }
  }

  /** Every stored point lies in its node's rectangle, and rectangles nest. */
  lemma ValidIsNested(t: KdTree)
    requires t.Valid()
    ensures Nested(t.root)
  {
    FramedIsNested(t.root, UnitSquare, true);
  }

  /**
   * The unit test of the source: the sizes it prints (before the first
   * insert, after it, after re-inserting the same point) and the two
   * membership answers (same object, equal new point).
   */
  method UnitTest() returns (sizes: seq<int>, found: seq<Result<bool, Error>>)
    ensures sizes == [0, 1, 1]
    ensures found == [Success(true), Success(true)]
  {
    var tree := new KdTree();
    var p1 := Point(0.0, 0.1);
    sizes := [tree.Size()];
    var _ := tree.Insert(Some(p1));
    sizes := sizes + [tree.Size()];
    found := [tree.Contains(Some(p1)), tree.Contains(Some(Point(0.0, 0.1)))];
    var _ := tree.Insert(Some(p1));
    sizes := sizes + [tree.Size()];
  }
}
