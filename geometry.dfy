/**
 * The two geometric value types the tree is built from. They stand for the
 * library classes `Point2D` and `RectHV`, of which the tree uses only the
 * coordinates, value equality and construction.
 */
module Geometry {

  /** A point of the plane; two points are equal when both coordinates are. */
  datatype Point = Point(x: real, y: real)

  /** The closed axis-aligned rectangle [xmin, xmax] x [ymin, ymax]. */
  datatype Rect = Rect(xmin: real, ymin: real, xmax: real, ymax: real)

  /** The rectangle given to the root: the unit square [0, 1] x [0, 1]. */
  const UnitSquare: Rect := Rect(0.0, 0.0, 1.0, 1.0)

  /** `q` lies inside `r` or on its boundary. */
  predicate InRect(q: Point, r: Rect)
  {
    r.xmin <= q.x <= r.xmax && r.ymin <= q.y <= r.ymax
  }

  /** The endpoints are in order, as a rectangle's constructor demands. */
  predicate WellFormed(r: Rect)
  {
    r.xmin <= r.xmax && r.ymin <= r.ymax
  }

  /** `inner` is contained in `outer`. */
  predicate SubRect(inner: Rect, outer: Rect)
  {
    outer.xmin <= inner.xmin && inner.xmax <= outer.xmax &&
    outer.ymin <= inner.ymin && inner.ymax <= outer.ymax
  }
}
