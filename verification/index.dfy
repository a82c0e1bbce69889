/**
 * The `QuadTree` wrapper of quadtree.py: range and point queries, the
 * bounds of a point set, building a tree from points, and insertion that
 * may first grow the root with `expand_to_cover`.
 */
module QuadIndex {
  import opened Wrappers
  import opened Quadrants
  import opened QuadTree

  // ---------------------------------------------------------------------
  // Range query

  /**
   * `QuadTreeNode.query_range_quad`: nothing below a node that does not
   * strictly intersect the query; else the node's own points the query
   * contains, then each child's answer in NW, NE, SW, SE order.
   */
  function QueryRange<D>(t: Tree<D>, q: Quadrant): (r: seq<Pt>)
    ensures forall p | p in r :: p in Items(t) && Contains(q, p.x, p.y)
  {
    if !IntersectsQuad(Rect(t), q) then []
    else
      Within(q, t.points) +
      match t.kids
      case NoKids => []
      case Four(a, b, c, d) => QueryRange(a, q) + QueryRange(b, q) + QueryRange(c, q) + QueryRange(d, q)
  }

  lemma {:induction false} WithinConcat(q: Quadrant, a: seq<Pt>, b: seq<Pt>)
    ensures Within(q, a + b) == Within(q, a) + Within(q, b)
  {
    if a == [] {
      assert a + b == b;
    } else {
      assert (a + b)[0] == a[0] && (a + b)[1..] == a[1..] + b;
      WithinConcat(q, a[1..], b);
    }
  }

  lemma {:induction false} WithinNone(q: Quadrant, ps: seq<Pt>)
    requires forall p | p in ps :: !Contains(q, p.x, p.y)
    ensures Within(q, ps) == []
  {
    if ps != [] {
      WithinNone(q, ps[1..]);
    }
  }

  /**
   * On a tree whose points lie inside their nodes, the range query returns
   * exactly the stored points the query contains, in storage order: the
   * strict intersection test never prunes a node holding such a point.
   */
  lemma {:induction false} QueryRangeExact<D>(t: Tree<D>, q: Quadrant)
    requires Sound(t)
    ensures QueryRange(t, q) == Within(q, Items(t))
  {
    if !IntersectsQuad(Rect(t), q) {
      forall p | p in Items(t)
        ensures !Contains(q, p.x, p.y)
      {
        if Contains(q, p.x, p.y) {
          SharedPointIntersects(Rect(t), q, p.x, p.y);
        }
      }
      WithinNone(q, Items(t));
    } else {
      match t.kids
      case NoKids =>
        assert Items(t) == t.points + [];
        WithinConcat(q, t.points, []);
      case Four(a, b, c, d) =>
        QueryRangeExact(a, q);
        QueryRangeExact(b, q);
        QueryRangeExact(c, q);
        QueryRangeExact(d, q);
        var ia, ib, ic, id := Items(a), Items(b), Items(c), Items(d);
        assert Items(t) == t.points + (ia + ib + ic + id);
        WithinConcat(q, t.points, ia + ib + ic + id);
        WithinConcat(q, ia + ib + ic, id);
        WithinConcat(q, ia + ib, ic);
        WithinConcat(q, ia, ib);
    }
  }

  // ---------------------------------------------------------------------
  // Point query

  /** `n` is `t` or a node below it. */
  predicate Subtree<D(==)>(n: Tree<D>, t: Tree<D>) {
    n == t ||
    match t.kids
    case NoKids => false
    case Four(a, b, c, d) => Subtree(n, a) || Subtree(n, b) || Subtree(n, c) || Subtree(n, d)
  }

  /** The first child, in NW, NE, SW, SE order, containing the point. */
  function FirstHolder<D(==)>(k: Kids<D>, px: real, py: real): (r: Option<Tree<D>>)
    ensures r.Some? ==> k.Four? && Contains(Rect(r.value), px, py)
    ensures r.Some? ==> r.value == k.nw || r.value == k.ne || r.value == k.sw || r.value == k.se
    ensures r.None? && k.Four? ==>
      && !Contains(Rect(k.nw), px, py) && !Contains(Rect(k.ne), px, py)
      && !Contains(Rect(k.sw), px, py) && !Contains(Rect(k.se), px, py)
  {
    match k
    case NoKids => None
    case Four(a, b, c, d) =>
      if Contains(Rect(a), px, py) then Some(a)
      else if Contains(Rect(b), px, py) then Some(b)
      else if Contains(Rect(c), px, py) then Some(c)
      else if Contains(Rect(d), px, py) then Some(d)
      else None
  }

  /** On an internal node with no points of its own, stored points at (px, py) sit below the child that holds (px, py). */
  lemma DescendKeepsMatches<D>(n: Tree<D>, c: Tree<D>, px: real, py: real)
    requires n.kids.Four? && n.points == [] && Tiled(n) && Sound(n)
    requires c == n.kids.nw || c == n.kids.ne || c == n.kids.sw || c == n.kids.se
    requires Contains(Rect(c), px, py)
    ensures forall p | p in Items(n) && p.x == px && p.y == py :: p in Items(c)
  {
    var k := n.kids;
    TileOfPoint(n, px, py);
    assert Items(n) == Items(k.nw) + Items(k.ne) + Items(k.sw) + Items(k.se);
  }

  /**
   * `QuadTree.query_point`: None when the root does not contain the point;
   * else, from the root, repeatedly step into the first child containing
   * the point, stopping at a leaf (or at a node no child of which contains
   * it). On a tiled tree the answer is a leaf; on a tree built by insertion
   * it holds every stored point at that position.
   */
  method QueryPoint<D(==)>(t: Tree<D>, px: real, py: real) returns (r: Option<Tree<D>>)
    ensures r.None? <==> !Contains(Rect(t), px, py)
    ensures r.Some? ==> Subtree(r.value, t) && Contains(Rect(r.value), px, py)
    ensures r.Some? && Tiled(t) ==> IsLeaf(r.value)
    ensures r.Some? && Tiled(t) && Sound(t) && Capacity(t) ==>
      forall p | p in Items(t) && p.x == px && p.y == py :: p in r.value.points
  {
    if !Contains(Rect(t), px, py) {
      return None;
    }
    var node := t;
    while !IsLeaf(node)
      invariant Subtree(node, t) && Contains(Rect(node), px, py)
      invariant Tiled(t) ==> Tiled(node)
      invariant Tiled(t) && Sound(t) && Capacity(t) ==> Sound(node) && Capacity(node)
      invariant Tiled(t) && Sound(t) && Capacity(t) ==>
        forall p | p in Items(t) && p.x == px && p.y == py :: p in Items(node)
      decreases node
    {
      var next := FirstHolder(node.kids, px, py);
      if next.None? {
        if Tiled(t) {
          TileOfPoint(node, px, py);
          assert false;
        }
        break;
      }
      var c := next.value;
      if Tiled(t) && Sound(t) && Capacity(t) {
        DescendKeepsMatches(node, c, px, py);
      }
      SubtreeStep(node, c, t);
      node := c;
    }
    if Tiled(t) && Sound(t) && Capacity(t) && IsLeaf(node) {
      assert Items(node) == node.points + [];
    }
    r := Some(node);
  }

  lemma {:induction false} SubtreeStep<D>(n: Tree<D>, c: Tree<D>, t: Tree<D>)
    requires Subtree(n, t) && n.kids.Four?
    requires c == n.kids.nw || c == n.kids.ne || c == n.kids.sw || c == n.kids.se
    ensures Subtree(c, t)
    decreases t
  {
    if n != t {
      match t.kids
      case NoKids =>
      case Four(a, b, d, e) =>
        if Subtree(n, a) {
          SubtreeStep(n, c, a);
        } else if Subtree(n, b) {
          SubtreeStep(n, c, b);
        } else if Subtree(n, d) {
          SubtreeStep(n, c, d);
        } else {
          SubtreeStep(n, c, e);
        }
    }
  }

  // ---------------------------------------------------------------------
  // Bounds of a point set and building a tree from points

  function Xs(ps: seq<Pt>): (r: seq<real>)
    ensures |r| == |ps|
  {
    if ps == [] then [] else Xs(ps[..|ps| - 1]) + [ps[|ps| - 1].x]
  }

  function Ys(ps: seq<Pt>): (r: seq<real>)
    ensures |r| == |ps|
  {
    if ps == [] then [] else Ys(ps[..|ps| - 1]) + [ps[|ps| - 1].y]
  }

  /** The coordinate lists line up with the points. */
  lemma {:induction false} CoordsAt(ps: seq<Pt>, i: nat)
    requires i < |ps|
    ensures Xs(ps)[i] == ps[i].x && Ys(ps)[i] == ps[i].y
  {
    if i < |ps| - 1 {
      CoordsAt(ps[..|ps| - 1], i);
    }
  }

  /** The running minimum of `extents`, taken left to right. */
  function Least(vs: seq<real>): real
    requires vs != []
  {
    if |vs| == 1 then vs[0]
    else
      var rest := Least(vs[..|vs| - 1]);
      if vs[|vs| - 1] < rest then vs[|vs| - 1] else rest
  }

  /** The running maximum of `extents`, taken left to right. */
  function Most(vs: seq<real>): real
    requires vs != []
  {
    if |vs| == 1 then vs[0]
    else
      var rest := Most(vs[..|vs| - 1]);
      if vs[|vs| - 1] > rest then vs[|vs| - 1] else rest
  }

  /** The running minimum is a lower bound that some value attains. */
  lemma {:induction false} LeastIsMinimum(vs: seq<real>)
    requires vs != []
    ensures forall i | 0 <= i < |vs| :: Least(vs) <= vs[i]
    ensures exists i | 0 <= i < |vs| :: Least(vs) == vs[i]
  {
    if |vs| > 1 {
      var init := vs[..|vs| - 1];
      LeastIsMinimum(init);
      assert forall i | 0 <= i < |init| :: init[i] == vs[i];
      var k :| 0 <= k < |init| && Least(init) == init[k];
      if vs[|vs| - 1] >= Least(init) {
        assert Least(vs) == vs[k];
      } else {
        assert Least(vs) == vs[|vs| - 1];
      }
    } else {
      assert Least(vs) == vs[0];
    }
  }

  /** The running maximum is an upper bound that some value attains. */
  lemma {:induction false} MostIsMaximum(vs: seq<real>)
    requires vs != []
    ensures forall i | 0 <= i < |vs| :: vs[i] <= Most(vs)
    ensures exists i | 0 <= i < |vs| :: Most(vs) == vs[i]
  {
    if |vs| > 1 {
      var init := vs[..|vs| - 1];
      MostIsMaximum(init);
      assert forall i | 0 <= i < |init| :: init[i] == vs[i];
      var k :| 0 <= k < |init| && Most(init) == init[k];
      if vs[|vs| - 1] <= Most(init) {
        assert Most(vs) == vs[k];
      } else {
        assert Most(vs) == vs[|vs| - 1];
      }
    } else {
      assert Most(vs) == vs[0];
    }
  }

  /** `max(spread, 2.0) + 1`, the side `extents` reports for values spread over `spread`. */
  function Side(spread: real): (s: real)
    ensures s >= 3.0 && s >= spread + 1.0
  {
    Max(spread, 2.0) + 1.0
  }

  /** The running minima and maxima the loop of `extents` keeps. */
  datatype Bounds = Bounds(minX: real, minY: real, maxX: real, maxY: real)

  /** One step of that loop: each bound replaced when the point lies strictly beyond it; the infinite start is `None`. */
  function Widen(b: Option<Bounds>, p: Pt): (r: Bounds)
    ensures r.minX <= p.x <= r.maxX && r.minY <= p.y <= r.maxY
    ensures b.Some? ==> r.minX <= b.value.minX && r.minY <= b.value.minY
    ensures b.Some? ==> r.maxX >= b.value.maxX && r.maxY >= b.value.maxY
  {
    match b
    case None => Bounds(p.x, p.y, p.x, p.y)
    case Some(c) =>
      Bounds(if p.x < c.minX then p.x else c.minX, if p.y < c.minY then p.y else c.minY,
             if p.x > c.maxX then p.x else c.maxX, if p.y > c.maxY then p.y else c.maxY)
  }

  /** The loop of `extents` run over a whole list. */
  function Scan(ps: seq<Pt>): Option<Bounds> {
    if ps == [] then None else Some(Widen(Scan(ps[..|ps| - 1]), ps[|ps| - 1]))
  }

  /** The loop's running bounds are exactly the least and the most of the coordinates. */
  lemma {:induction false} ScanBounds(ps: seq<Pt>)
    requires ps != []
    ensures Scan(ps) == Some(Bounds(Least(Xs(ps)), Least(Ys(ps)), Most(Xs(ps)), Most(Ys(ps))))
  {
    var init := ps[..|ps| - 1];
    assert Xs(ps)[..|ps| - 1] == Xs(init);
    assert Ys(ps)[..|ps| - 1] == Ys(init);
    if init != [] {
      ScanBounds(init);
    }
  }

  /**
   * `QuadTree.extents`: the minimum x and y of the points, and a width and
   * height one more than the spread of x and y, but at least 3. The
   * minimum starts at +infinity (`None` here), so for no points the corner
   * stays at infinity and the sides are 3.
   */
  method Extents(ps: seq<Pt>) returns (minX: Option<real>, minY: Option<real>, width: real, height: real)
    ensures width >= 3.0 && height >= 3.0
    ensures ps == [] ==> minX.None? && minY.None? && width == 3.0 && height == 3.0
    ensures ps != [] ==>
      && minX == Some(Least(Xs(ps))) && minY == Some(Least(Ys(ps)))
      && width == Side(Most(Xs(ps)) - Least(Xs(ps))) && height == Side(Most(Ys(ps)) - Least(Ys(ps)))
    ensures ps != [] ==> forall p | p in ps ::
      && minX.value <= p.x <= minX.value + width - 1.0
      && minY.value <= p.y <= minY.value + height - 1.0
  {
    var b: Option<Bounds> := None;
    var i := 0;
    while i < |ps|
      invariant 0 <= i <= |ps|
      invariant b == Scan(ps[..i])
    {
      assert ps[..i + 1][..i] == ps[..i];
      b := Some(Widen(b, ps[i]));
      i := i + 1;
    }
    assert ps[..i] == ps;
    if b.None? {
      // -infinity minus +infinity is -infinity, so the maximum with 2 is 2
      minX, minY, width, height := None, None, 3.0, 3.0;
    } else {
      ScanBounds(ps);
      SideFits(ps);
      var c := b.value;
      minX, minY := Some(c.minX), Some(c.minY);
      width, height := Side(c.maxX - c.minX), Side(c.maxY - c.minY);
    }
  }

  /** Every point lies in the square `extents` reports. */
  lemma SideFits(ps: seq<Pt>)
    requires ps != []
    ensures forall p | p in ps ::
      && Least(Xs(ps)) <= p.x <= Least(Xs(ps)) + Side(Most(Xs(ps)) - Least(Xs(ps))) - 1.0
      && Least(Ys(ps)) <= p.y <= Least(Ys(ps)) + Side(Most(Ys(ps)) - Least(Ys(ps))) - 1.0
  {
    SpanCovers(ps);
  }

  /** Every point lies between the least and the most of its coordinates. */
  lemma SpanCovers(ps: seq<Pt>)
    requires ps != []
    ensures forall p | p in ps ::
      && Least(Xs(ps)) <= p.x <= Most(Xs(ps))
      && Least(Ys(ps)) <= p.y <= Most(Ys(ps))
  {
    LeastIsMinimum(Xs(ps));
    LeastIsMinimum(Ys(ps));
    MostIsMaximum(Xs(ps));
    MostIsMaximum(Ys(ps));
    forall p | p in ps
      ensures Least(Xs(ps)) <= p.x <= Most(Xs(ps)) && Least(Ys(ps)) <= p.y <= Most(Ys(ps))
    {
      var j :| 0 <= j < |ps| && ps[j] == p;
      CoordsAt(ps, j);
    }
  }

  /** The root `from_points` starts from: the extents moved one unit up and left, with each side one unit longer. */
  function RootFor(ps: seq<Pt>): (t: Quad)
    requires ps != []
    ensures forall p | p in ps :: Holds(t, p)
    ensures t.width >= 4.0 && t.height >= 4.0
  {
    var lx, ly := Least(Xs(ps)), Least(Ys(ps));
    var w, h := Side(Most(Xs(ps)) - lx), Side(Most(Ys(ps)) - ly);
    SpanCovers(ps);
    Fresh(lx - 1.0, ly - 1.0, w + 1.0, h + 1.0)
  }

  /** Inserting the points one after another, as the loop of `from_points` does. */
  function InsertAll(t: Quad, ps: seq<Pt>): (r: Quad)
    requires Tiled(t)
    ensures Tiled(r) && Rect(r) == Rect(t)
  {
    if ps == [] then t else Insert(InsertAll(t, ps[..|ps| - 1]), ps[|ps| - 1]).0
  }

  /** The tree `from_points` returns for a non-empty point list. */
  function BuildTree(ps: seq<Pt>): Quad
    requires ps != []
  {
    InsertAll(RootFor(ps), ps)
  }

  /** What a tree built from points promises: its shape invariants and exactly the given points. */
  predicate Built(t: Quad, ps: seq<Pt>) {
    && Tiled(t) && Sound(t) && Capacity(t) && KidLevels(t) && t.level == 0
    && multiset(Items(t)) == multiset(ps)
  }

  /** Inserting points a fresh root contains, one after another, stores exactly them and keeps the shape. */
  lemma {:induction false} InsertAllBuilds(root: Quad, ps: seq<Pt>)
    requires root == Fresh(root.x, root.y, root.width, root.height)
    requires forall p | p in ps :: Holds(root, p)
    ensures Built(InsertAll(root, ps), ps)
  {
    if ps == [] {
      assert Items(root) == [];
    } else {
      var init := ps[..|ps| - 1];
      var p := ps[|ps| - 1];
      assert ps == init + [p];
      assert forall q | q in init :: q in ps;
      assert p in ps;
      InsertAllBuilds(root, init);
      BuildStep(InsertAll(root, init), p, init);
    }
  }

  /** Every tree `from_points` builds has the shape invariants, holds exactly the points, and its root contains each. */
  lemma BuildTreeBuilt(ps: seq<Pt>)
    requires ps != []
    ensures Built(BuildTree(ps), ps)
    ensures forall p | p in ps :: Holds(BuildTree(ps), p)
  {
    InsertAllBuilds(RootFor(ps), ps);
  }

  /**
   * `QuadTree.from_points`: a root moved one unit up and left of the
   * points' extents with sides one unit longer, then every point inserted
   * in order; `from_points` asserts each insertion succeeds, and it does,
   * since the root contains every point. For no points the root's corner would lie at infinity, which is
   * represented by `None`.
   */
  method FromPoints(ps: seq<Pt>) returns (r: Option<Quad>)
    ensures r.None? <==> ps == []
    ensures r.Some? ==> r.value == BuildTree(ps) && Built(r.value, ps)
  {
    var minX, minY, width, height := Extents(ps);
    if ps == [] {
      return None;
    }
    var root := Fresh(minX.value - 1.0, minY.value - 1.0, width + 1.0, height + 1.0);
    assert root == RootFor(ps);
    var t := InsertEach(root, ps);
    BuildTreeBuilt(ps);
    r := Some(t);
  }

  /** The loop of `from_points`: each point inserted in order into a root that contains them all, each insertion asserted to succeed. */
  method InsertEach(root: Quad, ps: seq<Pt>) returns (t: Quad)
    requires root == Fresh(root.x, root.y, root.width, root.height)
    requires forall p | p in ps :: Holds(root, p)
    ensures t == InsertAll(root, ps)
  {
    t := root;
    var i := 0;
    while i < |ps|
      invariant 0 <= i <= |ps|
      invariant t == InsertAll(root, ps[..i])
    {
      var p := ps[i];
      assert Holds(root, p) by {
        assert p in ps;
      }
      assert ps[..i + 1][..i] == ps[..i];
      var step := TreeInsert(t, p, true);
      var ok := step.1;
      assert ok;
      t := step.0;
      i := i + 1;
    }
    assert ps[..i] == ps;
  }

  /** Inserting a point the root contains succeeds and extends what the tree holds by that point. */
  lemma BuildStep(t: Quad, p: Pt, done: seq<Pt>)
    requires Built(t, done) && Holds(t, p)
    ensures Built(Insert(t, p).0, done + [p])
  {
    InsertStores(t, p);
    InsertShape(t, p);
    assert Within(Rect(t), [p]) == [p];
  }

  // ---------------------------------------------------------------------
  // Growing the root

  /** Python's `abs(w) // 2` on a float: half the absolute value, rounded down. */
  function HalfFloor(w: real): real {
    (Abs(w) / 2.0).Floor as real
  }

  /** The new start and extent of one axis of the root, as `expand_to_cover` computes it. */
  function Grow(start: real, extent: real, v: real): (r: (real, real))
    ensures v < start ==> r.0 <= v && r.0 + r.1 == start + extent + 1.0
    ensures start <= v <= start + extent ==> r == (start, extent)
    ensures start <= v && start + extent < v ==> r.0 == start && r.1 == v + HalfFloor(extent) + 1.0
  {
    var oldEnd := start + extent;
    if v < start then
      var s := v - HalfFloor(extent);
      (s, oldEnd - s + 1.0)
    else if v > oldEnd then
      (start, v + HalfFloor(extent) + 1.0)
    else
      (start, extent)
  }

  /**
   * `QuadTree.expand_to_cover`: nothing when the root already contains the
   * point. Otherwise each axis is grown toward the point (see `Grow`), the
   * root's children are discarded, and the root subdivides, redistributing
   * only the points it held itself. The status says whether it grew.
   */
  function ExpandToCover(t: Quad, p: Pt): (res: (Quad, bool))
    ensures res.1 == !Holds(t, p)
    ensures !res.1 ==> res.0 == t
    ensures res.1 ==>
      && Rect(res.0) == Quadrant(Grow(t.x, t.width, p.x).0, Grow(t.y, t.height, p.y).0,
                                 Grow(t.x, t.width, p.x).1, Grow(t.y, t.height, p.y).1)
      && res.0.level == t.level && res.0.points == [] && res.0.kids.Four? && Tiled(res.0)
  {
    if Holds(t, p) then (t, false)
    else
      var (x, w) := Grow(t.x, t.width, p.x);
      var (y, h) := Grow(t.y, t.height, p.y);
      (Subdivide(t.(x := x, y := y, width := w, height := h, kids := NoKids)), true)
  }

  /**
   * After growing, the root holds exactly its own former points that the
   * grown rectangle contains; everything that was stored below its former
   * children is gone.
   */
  lemma ExpandKeepsOnlyOwnPoints(t: Quad, p: Pt)
    requires !Holds(t, p)
    ensures var r := ExpandToCover(t, p).0;
      && multiset(Items(r)) == multiset(Within(Rect(r), t.points))
      && Sound(r)
  {
    var (x, w) := Grow(t.x, t.width, p.x);
    var (y, h) := Grow(t.y, t.height, p.y);
    var g := t.(x := x, y := y, width := w, height := h, kids := NoKids);
    SubdivideStores(g);
  }

  /** So a root that had subdivided, and therefore held no points of its own, loses every stored point. */
  lemma ExpandEmptiesInternalRoot(t: Quad, p: Pt)
    requires !Holds(t, p) && t.points == [] && t.kids.Four?
    ensures Items(ExpandToCover(t, p).0) == []
  {
    ExpandKeepsOnlyOwnPoints(t, p);
  }

  /** A point exactly on the right edge of the root is not covered: neither growth branch applies. */
  lemma ExpandMissesRightEdge(t: Quad, p: Pt)
    requires t == Fresh(0.0, 0.0, 4.0, 4.0) && p == Pt(4.0, 1.0, 0)
    ensures ExpandToCover(t, p).1 && !Holds(ExpandToCover(t, p).0, p)
  {
    assert Grow(0.0, 4.0, 4.0) == (0.0, 4.0);
  }

  /** Growing right sets the width to an absolute coordinate, which is negative left of the origin. */
  lemma ExpandRightLeftOfOrigin(t: Quad, p: Pt)
    requires t == Fresh(-100.0, 0.0, 4.0, 4.0) && p == Pt(-95.0, 1.0, 0)
    ensures var r := ExpandToCover(t, p);
      r.1 && r.0.width == -92.0 && !Holds(r.0, p)
  {
    assert HalfFloor(4.0) == 2.0;
    assert Grow(-100.0, 4.0, -95.0).1 == -92.0;
  }

  /**
   * `QuadTree.insert`: insert into the root; if that fails and expansion
   * is allowed, grow the root and insert once more. The status is the last
   * insertion's.
   */
  function TreeInsert(t: Quad, p: Pt, expand: bool): (res: (Quad, bool))
    requires Tiled(t)
    ensures Holds(t, p) ==> res == Insert(t, p)
    ensures !Holds(t, p) && !expand ==> res == (t, false)
    ensures !Holds(t, p) && expand ==>
      res.1 == Holds(ExpandToCover(t, p).0, p) && res == Insert(ExpandToCover(t, p).0, p)
  {
    var (t1, ok) := Insert(t, p);
    if ok || !expand then (t1, ok)
    else
      var (t2, _) := ExpandToCover(t1, p);
      Insert(t2, p)
  }
}
