/**
 * Axis-aligned rectangles of the spatial index (`Quadrant` and the
 * `_QuadrantMixin` tests of quadtree.py).
 */
module Quadrants {

  /** A rectangle given by its top-left corner and its extents. */
  datatype Quadrant = Quadrant(x: real, y: real, width: real, height: real)

  /** Half-open containment: the left and top edges belong to the rectangle, the right and bottom ones do not. */
  predicate Contains(q: Quadrant, px: real, py: real): (r: bool)
    ensures r ==> q.width > 0.0 && q.height > 0.0
  {
    q.x <= px < q.x + q.width && q.y <= py < q.y + q.height
  }

  /** Strict overlap of `q` with the rectangle (x, y, width, height): touching edges do not intersect. */
  predicate Intersects(q: Quadrant, x: real, y: real, width: real, height: real): (r: bool)
    ensures var px, py := (if q.x < x then x else q.x), (if q.y < y then y else q.y);
      r && q.width > 0.0 && q.height > 0.0 && width > 0.0 && height > 0.0 ==>
        Contains(q, px, py) && Contains(Quadrant(x, y, width, height), px, py)
  {
    q.x < x + width && x < q.x + q.width && q.y < y + height && y < q.y + q.height
  }

  predicate IntersectsQuad(a: Quadrant, b: Quadrant) {
    Intersects(a, b.x, b.y, b.width, b.height)
  }

  /** `Quadrant.pad`: moves the corner up-left by (dx, dy) and grows the extents by the same amounts. */
  function Pad(q: Quadrant, dx: real, dy: real): (r: Quadrant)
    ensures r.x == q.x - dx && r.y == q.y - dy
    ensures r.x + r.width == q.x + q.width && r.y + r.height == q.y + q.height
    ensures dx >= 0.0 && dy >= 0.0 ==>
      forall px, py :: Contains(q, px, py) ==> Contains(r, px, py)
  {
    Quadrant(q.x - dx, q.y - dy, q.width + dx, q.height + dy)
  }

  /** The corner belongs to a non-degenerate rectangle; no point of the far edges does. */
  lemma ContainsIsHalfOpen(q: Quadrant, px: real, py: real)
    ensures Contains(q, q.x, q.y) <==> q.width > 0.0 && q.height > 0.0
    ensures !Contains(q, q.x + q.width, py) && !Contains(q, px, q.y + q.height)
  {
  }

  lemma IntersectsSymmetric(a: Quadrant, b: Quadrant)
    ensures IntersectsQuad(a, b) <==> IntersectsQuad(b, a)
  {
  }

  /** Pruning with the strict test is safe: two rectangles sharing a contained point intersect. */
  lemma SharedPointIntersects(a: Quadrant, b: Quadrant, px: real, py: real)
    requires Contains(a, px, py) && Contains(b, px, py)
    ensures IntersectsQuad(a, b)
  {
  }
}
