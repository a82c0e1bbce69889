/**
 * Geometric value types of point.py: the anchored bounding box `BBox`
 * and the simulated node `VPoint`.
 */
module Points {
  import opened Wrappers
  import opened Quadrants

  datatype Point = Point(x: real, y: real)

  /** A box (xmin, ymin)-(xmax, ymax) carrying the point it is anchored to. */
  datatype BBox = BBox(xmin: real, ymin: real, xmax: real, ymax: real, anchor: Point)

  function Width(b: BBox): real {
    b.xmax - b.xmin
  }

  function Height(b: BBox): real {
    b.ymax - b.ymin
  }

  /** `BBox.expand`: the smallest box covering both this box and the given bounds; the anchor stays. */
  function Expand(b: BBox, xmin: real, ymin: real, xmax: real, ymax: real): (r: BBox)
    ensures r.anchor == b.anchor
    ensures r.xmin <= b.xmin && r.xmin <= xmin && (r.xmin == b.xmin || r.xmin == xmin)
    ensures r.ymin <= b.ymin && r.ymin <= ymin && (r.ymin == b.ymin || r.ymin == ymin)
    ensures r.xmax >= b.xmax && r.xmax >= xmax && (r.xmax == b.xmax || r.xmax == xmax)
    ensures r.ymax >= b.ymax && r.ymax >= ymax && (r.ymax == b.ymax || r.ymax == ymax)
  {
    BBox(Min(xmin, b.xmin), Min(ymin, b.ymin), Max(xmax, b.xmax), Max(ymax, b.ymax), b.anchor)
  }

  /** Expanding by bounds the box already covers changes nothing, so expansion is idempotent. */
  lemma ExpandIdempotent(b: BBox, xmin: real, ymin: real, xmax: real, ymax: real)
    ensures Expand(Expand(b, xmin, ymin, xmax, ymax), xmin, ymin, xmax, ymax) == Expand(b, xmin, ymin, xmax, ymax)
  {
  }

  /** `BBox.center`: the same box expressed relative to its anchor, which moves to the origin. */
  function Center(b: BBox): (r: BBox)
    ensures r.anchor == Point(0.0, 0.0)
    ensures Width(r) == Width(b) && Height(r) == Height(b)
    ensures r.xmin + b.anchor.x == b.xmin && r.ymin + b.anchor.y == b.ymin
  {
    var xc := b.anchor.x;
    var yc := b.anchor.y;
    BBox(b.xmin - xc, b.ymin - yc, b.xmax - xc, b.ymax - yc, Point(0.0, 0.0))
  }

  lemma CenterIdempotent(b: BBox)
    ensures Center(Center(b)) == Center(b)
  {
  }

  /** `BBox.scale`: every coordinate, the anchor's included, is multiplied by the factor of its axis. */
  function Scale(b: BBox, xscale: real, yscale: real): (r: BBox)
    ensures r.xmin == b.xmin * xscale && r.ymin == b.ymin * yscale
    ensures Width(r) == Width(b) * xscale && Height(r) == Height(b) * yscale
    ensures r.anchor == Point(b.anchor.x * xscale, b.anchor.y * yscale)
  {
    BBox(b.xmin * xscale, b.ymin * yscale, b.xmax * xscale, b.ymax * yscale,
         Point(b.anchor.x * xscale, b.anchor.y * yscale))
  }

  /** Scaling by non-zero factors is undone by scaling by their reciprocals. */
  lemma ScaleRoundTrip(b: BBox, xscale: real, yscale: real)
    requires xscale != 0.0 && yscale != 0.0
    ensures Scale(Scale(b, xscale, yscale), 1.0 / xscale, 1.0 / yscale) == b
  {
    var s := Scale(b, xscale, yscale);
    assert s.xmin * (1.0 / xscale) == b.xmin;
    assert s.xmax * (1.0 / xscale) == b.xmax;
    assert s.ymin * (1.0 / yscale) == b.ymin;
    assert s.ymax * (1.0 / yscale) == b.ymax;
    assert s.anchor.x * (1.0 / xscale) == b.anchor.x;
    assert s.anchor.y * (1.0 / yscale) == b.anchor.y;
  }

  /** `BBox.relative_to_point`: the centred box translated so that its anchor sits at (x, y). */
  function RelativeToPoint(b: BBox, x: real, y: real): (r: BBox)
    ensures r.anchor == Point(x, y)
    ensures Width(r) == Width(b) && Height(r) == Height(b)
    ensures r.xmin - x == b.xmin - b.anchor.x && r.ymin - y == b.ymin - b.anchor.y
  {
    var ref := Center(b);
    BBox(ref.xmin + x, ref.ymin + y, ref.xmax + x, ref.ymax + y, Point(ref.anchor.x + x, ref.anchor.y + y))
  }

  /** Re-anchoring forgets the previous anchor: only the last target point matters. */
  lemma RelativeToPointComposes(b: BBox, x1: real, y1: real, x2: real, y2: real)
    ensures RelativeToPoint(RelativeToPoint(b, x1, y1), x2, y2) == RelativeToPoint(b, x2, y2)
    ensures Center(RelativeToPoint(b, x1, y1)) == Center(b)
  {
  }

  /** `BBox.as_quadrant`: corner (xmin, ymin), extents (xmax - xmin, ymax - ymin). */
  function BoxQuadrant(b: BBox): (q: Quadrant)
    ensures q.x == b.xmin && q.y == b.ymin
    ensures q.x + q.width == b.xmax && q.y + q.height == b.ymax
  {
    Quadrant(b.xmin, b.ymin, b.xmax - b.xmin, b.ymax - b.ymin)
  }

  /** `as_quadrant().contains`: half-open in the box's own bounds. */
  predicate BoxContains(b: BBox, px: real, py: real): (r: bool)
    ensures r <==> b.xmin <= px < b.xmax && b.ymin <= py < b.ymax
  {
    Contains(BoxQuadrant(b), px, py)
  }

  /** `as_quadrant().intersects`: strict overlap of the bounds on both axes. */
  predicate BoxIntersects(a: BBox, b: BBox): (r: bool)
    ensures r <==> a.xmin < b.xmax && b.xmin < a.xmax && a.ymin < b.ymax && b.ymin < a.ymax
  {
    IntersectsQuad(BoxQuadrant(a), BoxQuadrant(b))
  }

  /** Box intersection is strict overlap of the bounds, and symmetric. */
  lemma BoxIntersectsStrict(a: BBox, b: BBox)
    ensures BoxIntersects(a, b) <==> a.xmin < b.xmax && b.xmin < a.xmax && a.ymin < b.ymax && b.ymin < a.ymax
    ensures BoxIntersects(a, b) <==> BoxIntersects(b, a)
  {
  }

  /**
   * A simulated node (`VPoint`). Velocities are plain reals: the model
   * starts from the state `init_nodes` leaves, where both are set. `index`
   * is the slot the driver assigns; `bounds` is the optional extent used by
   * the collision force. The free-form `data` payload is not modelled.
   */
  datatype Node = Node(
    x: real, y: real,
    vx: real, vy: real,
    fx: Option<real>, fy: Option<real>,
    index: nat,
    fixed: bool,
    bounds: Option<BBox>)

  /**
   * `VPoint.as_quadrant()` without extents: the node's box re-anchored at
   * the node's position. None where `as_quadrant` would fail on a missing box.
   */
  function NodeQuadrant(n: Node): (r: Option<Quadrant>)
    ensures r.Some? <==> n.bounds.Some?
    ensures r.Some? ==>
      && r.value.x - n.x == n.bounds.value.xmin - n.bounds.value.anchor.x
      && r.value.y - n.y == n.bounds.value.ymin - n.bounds.value.anchor.y
      && r.value.width == Width(n.bounds.value)
      && r.value.height == Height(n.bounds.value)
  {
    match n.bounds
    case None => None
    case Some(b) => Some(BoxQuadrant(RelativeToPoint(b, n.x, n.y)))
  }

  /**
   * `VPoint.overlaps`: rectangle intersection when both nodes carry a box,
   * containment of the other node's position when only one does, and false
   * when neither does.
   */
  function Overlaps(a: Node, b: Node): (r: bool)
    ensures a.bounds.None? && b.bounds.None? ==> !r
    ensures a.bounds.Some? && b.bounds.Some? ==>
      (r <==> IntersectsQuad(NodeQuadrant(a).value, NodeQuadrant(b).value))
    ensures a.bounds.Some? && b.bounds.None? ==> (r <==> Contains(NodeQuadrant(a).value, b.x, b.y))
    ensures a.bounds.None? && b.bounds.Some? ==> (r <==> Contains(NodeQuadrant(b).value, a.x, a.y))
  {
    match a.bounds
    case Some(_) =>
      var quad := NodeQuadrant(a).value;
      if b.bounds.Some? then IntersectsQuad(quad, NodeQuadrant(b).value)
      else Contains(quad, b.x, b.y)
    case None =>
      if b.bounds.Some? then Contains(NodeQuadrant(b).value, a.x, a.y)
      else false
  }

  /** Which node asks does not matter: the collision force may call it either way round. */
  lemma OverlapsSymmetric(a: Node, b: Node)
    ensures Overlaps(a, b) == Overlaps(b, a)
  {
    if a.bounds.Some? && b.bounds.Some? {
      IntersectsSymmetric(NodeQuadrant(a).value, NodeQuadrant(b).value);
    }
  }
}
