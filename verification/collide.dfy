/**
 * The collision force of layouts/collide.py: a radius per node, the
 * bottom-up maximum radius over the quadtree, and the pair rule and
 * velocity split of `apply`, folded over the order in which `visit`
 * calls it for each node.
 */
module Collide {
  import opened Wrappers
  import opened Quadrants
  import opened Points
  import opened QuadTree
  import opened QuadIndex
  import opened Traversal
  import opened Oracles
  import opened Bodies

  // ---------------------------------------------------------------------
  // initialize

  /** A list of `n` zeros: the table `np.zeros(n)`. */
  function Zeros(n: nat): (r: seq<real>)
    ensures |r| == n && forall k | 0 <= k < n :: r[k] == 0.0
  {
    seq(n, _ => 0.0)
  }

  /**
   * The radius table after the first `m` nodes of `initialize`'s loop:
   * each node writes radius(node, node.index, nodes) into slot node.index;
   * an index past the table is an IndexError.
   */
  function Fill(nodes: seq<Node>, radius: (Node, nat, seq<Node>) -> real, m: nat): (r: Result<seq<real>>)
    requires m <= |nodes|
    ensures r.Ok? ==> |r.value| == |nodes|
    ensures r.Ok? <==> forall i | 0 <= i < m :: nodes[i].index < |nodes|
  {
    if m == 0 then Ok(Zeros(|nodes|))
    else
      var table :- Fill(nodes, radius, m - 1);
      var n := nodes[m - 1];
      if n.index >= |table| then Err(OutOfRange(n.index))
      else Ok(table[n.index := radius(n, n.index, nodes)])
  }

  /**
   * `initialize`: the radius table exists exactly when every node's index
   * fits in it, and then slot k holds the radius of the last node whose
   * index is k, or 0 when no node has that index.
   */
  function Radii(nodes: seq<Node>, radius: (Node, nat, seq<Node>) -> real): (r: Result<seq<real>>)
    ensures r.Ok? <==> forall i | 0 <= i < |nodes| :: nodes[i].index < |nodes|
    ensures r.Ok? ==> |r.value| == |nodes| && forall k | 0 <= k < |nodes| ::
      r.value[k] ==
        match Last(nodes, (n: Node) => n.index == k, |nodes|)
        case None => 0.0
        case Some(i) => radius(nodes[i], k, nodes)
  {
    var t := Fill(nodes, radius, |nodes|);
    if t.Ok? then RadiiSlots(nodes, radius, |nodes|); t else t
  }

  /**
   * Slot k of the radius table holds the radius of the last node whose
   * index is k, and 0 when no node has that index; the table exists
   * exactly when every index fits.
   */
  lemma {:induction false} RadiiSlots(nodes: seq<Node>, radius: (Node, nat, seq<Node>) -> real, m: nat)
    requires m <= |nodes| && Fill(nodes, radius, m).Ok?
    ensures forall k | 0 <= k < |nodes| ::
      Fill(nodes, radius, m).value[k] ==
        match Last(nodes, (n: Node) => n.index == k, m)
        case None => 0.0
        case Some(i) => radius(nodes[i], k, nodes)
  {
    if m > 0 {
      RadiiSlots(nodes, radius, m - 1);
    }
  }

  // ---------------------------------------------------------------------
  // prepare

  /** The largest radius among stored points, each read by node index; the first unreadable one is an IndexError. */
  function Largest(nodes: seq<Node>, radii: seq<real>, ps: seq<Pt>): (r: Result<real>)
    requires ps != []
    ensures r.Ok? <==> forall p | p in ps :: Lookup(nodes, radii, p).Ok?
    ensures r.Ok? ==> forall p | p in ps :: Lookup(nodes, radii, p).value <= r.value
    ensures r.Ok? ==> exists p | p in ps :: Lookup(nodes, radii, p).value == r.value
  {
    var h :- Lookup(nodes, radii, ps[0]);
    if |ps| == 1 then Ok(h)
    else
      var rest :- Largest(nodes, radii, ps[1..]);
      assert forall p | p in ps[1..] :: p in ps;
      assert forall p | p in ps :: p == ps[0] || p in ps[1..];
      Ok(Max(h, rest))
  }

  /**
   * `prepare`, applied by `visit_after`: a leaf's radius is the largest
   * radius of its points (0 when it has none), an internal node's the
   * largest of its children's. Positions and extents are kept.
   */
  function Prepare(t: Quad, nodes: seq<Node>, radii: seq<real>): (r: Result<Tree<real>>)
    ensures r.Ok? ==> Rect(r.value) == Rect(t) && r.value.points == t.points && (IsLeaf(r.value) <==> IsLeaf(t))
  {
    match t.kids
    case NoKids =>
      var v :- if t.points == [] then Ok(0.0) else Largest(nodes, radii, t.points);
      Ok(Tree(t.x, t.y, t.width, t.height, t.level, t.points, NoKids, v))
    case Four(a, b, c, d) =>
      var a' :- Prepare(a, nodes, radii);
      var b' :- Prepare(b, nodes, radii);
      var c' :- Prepare(c, nodes, radii);
      var d' :- Prepare(d, nodes, radii);
      Ok(Tree(t.x, t.y, t.width, t.height, t.level, t.points, Four(a', b', c', d'),
              Max(Max(Max(a'.data, b'.data), c'.data), d'.data)))
  }

  /**
   * After `prepare`, a quadrant's radius bounds the radius of every point
   * stored below it, when (as in every tree the index builds) internal
   * nodes hold no points of their own.
   */
  lemma {:induction false} PrepareBounds(t: Quad, nodes: seq<Node>, radii: seq<real>)
    requires Capacity(t) && Prepare(t, nodes, radii).Ok?
    ensures forall p | p in Items(t) ::
      Lookup(nodes, radii, p).Ok? && Lookup(nodes, radii, p).value <= Prepare(t, nodes, radii).value.data
  {
    match t.kids
    case NoKids =>
      assert Items(t) == t.points;
    case Four(a, b, c, d) =>
      PrepareBounds(a, nodes, radii);
      PrepareBounds(b, nodes, radii);
      PrepareBounds(c, nodes, radii);
      PrepareBounds(d, nodes, radii);
      assert Items(t) == Items(a) + Items(b) + Items(c) + Items(d);
  }

  /** `v` is 0 (an empty quadrant) or the readable radius of one of `ps`. */
  ghost predicate Attained(nodes: seq<Node>, radii: seq<real>, ps: seq<Pt>, v: real) {
    v == 0.0 || exists p | p in ps :: Lookup(nodes, radii, p) == Ok(v)
  }

  lemma AttainedWider(nodes: seq<Node>, radii: seq<real>, ps: seq<Pt>, qs: seq<Pt>, v: real)
    requires forall p | p in ps :: p in qs
    ensures Attained(nodes, radii, ps, v) ==> Attained(nodes, radii, qs, v)
  {
  }

  /**
   * The other half of `PrepareBounds`: after `prepare`, a quadrant's radius
   * is no larger than needed, being 0 or the radius of a point stored below it.
   */
  lemma {:induction false} PrepareAttained(t: Quad, nodes: seq<Node>, radii: seq<real>)
    ensures Prepare(t, nodes, radii).Ok? ==> Attained(nodes, radii, Items(t), Prepare(t, nodes, radii).value.data)
  {
    if Prepare(t, nodes, radii).Ok? {
      match t.kids
      case NoKids =>
        assert Items(t) == t.points;
      case Four(a, b, c, d) =>
        PrepareAttained(a, nodes, radii);
        PrepareAttained(b, nodes, radii);
        PrepareAttained(c, nodes, radii);
        PrepareAttained(d, nodes, radii);
        var all := Items(t);
        assert all == t.points + (Items(a) + Items(b) + Items(c) + Items(d));
        AttainedWider(nodes, radii, Items(a), all, Prepare(a, nodes, radii).value.data);
        AttainedWider(nodes, radii, Items(b), all, Prepare(b, nodes, radii).value.data);
        AttainedWider(nodes, radii, Items(c), all, Prepare(c, nodes, radii).value.data);
        AttainedWider(nodes, radii, Items(d), all, Prepare(d, nodes, radii).value.data);
    }
  }

  // ---------------------------------------------------------------------
  // apply

  /**
   * The answer `apply` gives for a tree node: x0 > xi + r or x1 < xi - r
   * or y0 > yi + r or y1 < yi - r, with r the node's radius plus ri.
   * `visit` passes (node, x, y, width, height), so x1 and y1 are the
   * quadrant's width and height, not its far edges.
   */
  predicate Skips(xi: real, yi: real, ri: real, q: Tree<real>) {
    var r := q.data + ri;
    q.x > xi + r || q.width < xi - r || q.y > yi + r || q.height < yi - r
  }

  /**
   * Reading width as the far edge prunes quadrants the query reaches: the
   * quadrant [100, 150) × [100, 150) contains the projected position
   * (120, 120), yet a walk from there with radius 1 skips it.
   */
  lemma SkipsReachableQuadrant()
    ensures var q := Tree(100.0, 100.0, 50.0, 50.0, 1, [], NoKids, 1.0);
      Contains(Rect(q), 120.0, 120.0) && Skips(120.0, 120.0, 1.0, q)
  {
  }

  /** The state a collision pass threads through: the live nodes and the jitter draws so far. */
  datatype Crowd = Crowd(nodes: seq<Node>, draws: nat)

  /**
   * The correction of a resolved pair: (x, y) scaled by
   * (r − l) / l · strength, where l is the (jittered) distance between the
   * projected positions. Returns the correction and the new draw count. A
   * zero distance makes numpy's float division infinite or NaN.
   *
   * With an exact square root, the correction exists exactly when the
   * jittered offset is not the origin, and it then lies along that offset,
   * its component along it is l · (r − l) · strength, and its length is
   * |(r − l) · strength|: the pair is pushed apart (or pulled together) by
   * the overlap r − l, scaled by the strength.
   */
  function Correction(env: Env, x: real, y: real, r: real, s: real, draws: nat): (c: Result<(real, real, nat)>)
    ensures c.Ok? ==> c.value.2 >= draws
    ensures ExactSqrt(env) ==>
      var a := Jiggled(env, x, Sq(x) + Sq(y), draws);
      var b := Jiggled(env, y, a.1, a.2);
      (c.Ok? <==> a.0 != 0.0 || b.0 != 0.0)
    ensures ExactSqrt(env) && c.Ok? ==>
      var a := Jiggled(env, x, Sq(x) + Sq(y), draws);
      var b := Jiggled(env, y, a.1, a.2);
      var l := env.sqrt(Sq(a.0) + Sq(b.0));
      Along(c.value.0, c.value.1, a.0, b.0, l, (r - l) * s)
  {
    var a := Jiggled(env, x, Sq(x) + Sq(y), draws);
    var b := Jiggled(env, y, a.1, a.2);
    assert b.1 == Sq(a.0) + Sq(b.0) by {
      JiggledPair(env, x, y, draws);
    }
    Separate(env, a.0, b.0, Sq(a.0) + Sq(b.0), r, s, b.2)
  }

  /**
   * The last steps of a correction, once the offset (x, y) is jittered
   * and len2 is its running squared length: (x, y) scaled by
   * (r − l) / l · s for l = sqrt(len2).
   */
  function Separate(env: Env, x: real, y: real, len2: real, r: real, s: real, draws: nat)
    : (c: Result<(real, real, nat)>)
    ensures c.Ok? ==> c.value.2 == draws
    ensures ExactSqrt(env) && len2 == Sq(x) + Sq(y) ==> (c.Ok? <==> x != 0.0 || y != 0.0)
    ensures ExactSqrt(env) && len2 == Sq(x) + Sq(y) && c.Ok? ==>
      var l := env.sqrt(len2);
      Along(c.value.0, c.value.1, x, y, l, (r - l) * s)
  {
    var l := env.sqrt(len2);
    var k := if l == 0.0 then 0.0 else (r - l) / l * s;
    DivThenScale(r - l, l, s);
    Stretched(env, x, y, len2, (r - l) * s, k);
    if l == 0.0 then Err(NotANumber)
    else Ok((x * k, y * k, draws))
  }

  /** The query node's share of a correction, rj² / (ri² + rj²); the other node takes the rest. */
  function Split(ri: real, rj: real): real
    requires Sq(ri) + Sq(rj) != 0.0
  {
    Sq(rj) / (Sq(ri) + Sq(rj))
  }

  /** Both shares lie between 0 and 1. */
  lemma SplitIsShare(ri: real, rj: real)
    requires Sq(ri) + Sq(rj) != 0.0
    ensures 0.0 <= Split(ri, rj) <= 1.0 && 0.0 <= 1.0 - Split(ri, rj) <= 1.0
  {
    SqNonNegative(ri);
    SqNonNegative(rj);
    var d := Sq(ri) + Sq(rj);
    assert Split(ri, rj) * d == Sq(rj);
  }

  /** `apply` for the query node `i` when the visited quadrant holds a stored point. */
  function Pair(env: Env, radii: seq<real>, strength: Node -> real, i: nat, xi: real, yi: real, ri: real,
                pt: Pt, b: Crowd): (r: Result<Crowd>)
    requires i < |b.nodes|
    ensures r.Ok? ==> OnlyVelocities(b.nodes, r.value.nodes) && r.value.draws >= b.draws
  {
    var rj :- Lookup(b.nodes, radii, pt);
    var r := rj + ri;
    var node, other := b.nodes[i], b.nodes[pt.ref];
    if other.index <= node.index then Ok(b)
    else
      var x := xi - other.x - other.vx;
      var y := yi - other.y - other.vy;
      if !(Sq(x) + Sq(y) < Sq(r) || Overlaps(other, node)) then Ok(b)
      else
        var (cx, cy, d) :- Correction(env, x, y, r, strength(node), b.draws);
        if Sq(ri) + Sq(rj) == 0.0 then Err(NotANumber)
        else
          Ok(Crowd(Apart(b.nodes, i, pt.ref, cx, cy, Split(ri, rj)), d))
  }

  /** The velocity changes of a resolved pair: node `i` gains `share` of (cx, cy) and node `j` loses the rest. */
  function Apart(nodes: seq<Node>, i: nat, j: nat, cx: real, cy: real, share: real): (r: seq<Node>)
    requires i < |nodes| && j < |nodes|
    ensures OnlyVelocities(nodes, r)
    ensures i != j && !nodes[i].fixed && !nodes[j].fixed ==> Shared(nodes, r, i, j, cx, cy, share)
  {
    var nodes1 := Push(nodes, i, cx * share, cy * share);
    var nodes2 := Push(nodes1, j, -(cx * (1.0 - share)), -(cy * (1.0 - share)));
    OnlyVelocitiesTrans(nodes, nodes1, nodes2);
    assert cx * share + cx * (1.0 - share) == cx;
    assert cy * share + cy * (1.0 - share) == cy;
    nodes2
  }

  /** A pair is resolved only from the node of smaller index: otherwise `apply` changes nothing, the node itself included. */
  lemma PairNeedsGreaterIndex(env: Env, radii: seq<real>, strength: Node -> real, i: nat, xi: real, yi: real, ri: real,
                              pt: Pt, b: Crowd)
    requires i < |b.nodes| && Lookup(b.nodes, radii, pt).Ok?
    requires b.nodes[pt.ref].index <= b.nodes[i].index
    ensures Pair(env, radii, strength, i, xi, yi, ri, pt, b) == Ok(b)
  {
  }

  /** A pair that neither comes within the summed radii nor overlaps by bounding boxes is left alone. */
  lemma PairNeedsHit(env: Env, radii: seq<real>, strength: Node -> real, i: nat, xi: real, yi: real, ri: real,
                     pt: Pt, b: Crowd)
    requires i < |b.nodes| && Lookup(b.nodes, radii, pt).Ok?
    requires var other := b.nodes[pt.ref];
      var x, y := xi - other.x - other.vx, yi - other.y - other.vy;
      var r := Lookup(b.nodes, radii, pt).value + ri;
      !(Sq(x) + Sq(y) < Sq(r)) && !Overlaps(other, b.nodes[i])
    ensures Pair(env, radii, strength, i, xi, yi, ri, pt, b) == Ok(b)
  {
  }

  /**
   * Node `i` gained `share` of (cx, cy) and node `j` lost the rest, so that
   * the two velocity changes add up to (cx, cy).
   */
  predicate Shared(before: seq<Node>, after: seq<Node>, i: nat, j: nat, cx: real, cy: real, share: real)
    requires i < |before| && j < |before| && |after| == |before|
  {
    && after[i].vx - before[i].vx == cx * share
    && after[i].vy - before[i].vy == cy * share
    && (after[i].vx - before[i].vx) + (before[j].vx - after[j].vx) == cx
    && (after[i].vy - before[i].vy) + (before[j].vy - after[j].vy) == cy
  }

  /**
   * A resolved pair of free nodes splits one correction between them: the
   * query node gains share · (cx, cy), the other loses (1 − share) · (cx, cy),
   * so the two changes together make up the whole correction.
   */
  lemma PairSplitsCorrection(env: Env, radii: seq<real>, strength: Node -> real, i: nat, xi: real, yi: real, ri: real,
                             pt: Pt, b: Crowd)
    requires i < |b.nodes| && Lookup(b.nodes, radii, pt).Ok? && Pair(env, radii, strength, i, xi, yi, ri, pt, b).Ok?
    requires b.nodes[pt.ref].index > b.nodes[i].index
    requires !b.nodes[i].fixed && !b.nodes[pt.ref].fixed
    requires var other := b.nodes[pt.ref];
      var x, y := xi - other.x - other.vx, yi - other.y - other.vy;
      var r := Lookup(b.nodes, radii, pt).value + ri;
      Sq(x) + Sq(y) < Sq(r) || Overlaps(other, b.nodes[i])
    ensures var rj := Lookup(b.nodes, radii, pt).value;
      var other := b.nodes[pt.ref];
      var x, y := xi - other.x - other.vx, yi - other.y - other.vy;
      var c := Correction(env, x, y, rj + ri, strength(b.nodes[i]), b.draws);
      var after := Pair(env, radii, strength, i, xi, yi, ri, pt, b).value.nodes;
      && c.Ok?
      && pt.ref != i
      && Sq(ri) + Sq(rj) != 0.0
      && Shared(b.nodes, after, i, pt.ref, c.value.0, c.value.1, Split(ri, rj))
  {
    var rj := Lookup(b.nodes, radii, pt).value;
    var other := b.nodes[pt.ref];
    var x, y := xi - other.x - other.vx, yi - other.y - other.vy;
    var c := Correction(env, x, y, rj + ri, strength(b.nodes[i]), b.draws);
    assert c.Ok? && Sq(ri) + Sq(rj) != 0.0;
    assert Pair(env, radii, strength, i, xi, yi, ri, pt, b).value.nodes
        == Apart(b.nodes, i, pt.ref, c.value.0, c.value.1, Split(ri, rj));
  }

  /** The points of a leaf, each offered to `apply` in turn. */
  function Pairs(env: Env, radii: seq<real>, strength: Node -> real, i: nat, xi: real, yi: real, ri: real,
                 ps: seq<Pt>, b: Crowd): (r: Result<Crowd>)
    requires i < |b.nodes|
    ensures r.Ok? ==> OnlyVelocities(b.nodes, r.value.nodes) && r.value.draws >= b.draws
    decreases |ps|
  {
    if ps == [] then Ok(b)
    else
      var b1 :- Pair(env, radii, strength, i, xi, yi, ri, ps[0], b);
      var b2 :- Pairs(env, radii, strength, i, xi, yi, ri, ps[1..], b1);
      OnlyVelocitiesTrans(b.nodes, b1.nodes, b2.nodes);
      Ok(b2)
  }

  /** `apply` folded over the quadrants `visit` hands it: a leaf offers its points; an internal node changes nothing. */
  function Walk(env: Env, radii: seq<real>, strength: Node -> real, i: nat, xi: real, yi: real, ri: real,
                calls: seq<Tree<real>>, b: Crowd): (r: Result<Crowd>)
    requires i < |b.nodes|
    ensures r.Ok? ==> OnlyVelocities(b.nodes, r.value.nodes) && r.value.draws >= b.draws
    decreases |calls|
  {
    if calls == [] then Ok(b)
    else
      var b1 :- if IsLeaf(calls[0]) then Pairs(env, radii, strength, i, xi, yi, ri, calls[0].points, b) else Ok(b);
      var b2 :- Walk(env, radii, strength, i, xi, yi, ri, calls[1..], b1);
      OnlyVelocitiesTrans(b.nodes, b1.nodes, b2.nodes);
      Ok(b2)
  }

  // ---------------------------------------------------------------------
  // each pair at most once per tick

  /** The stored points a walk offers to `apply`: the points of each leaf it is handed, in call order. */
  function Offered(calls: seq<Tree<real>>): seq<Pt>
    decreases |calls|
  {
    if calls == [] then []
    else (if IsLeaf(calls[0]) then calls[0].points else []) + Offered(calls[1..])
  }

  lemma {:induction false} OfferedConcat(a: seq<Tree<real>>, b: seq<Tree<real>>)
    ensures Offered(a + b) == Offered(a) + Offered(b)
    decreases |a|
  {
    if a != [] {
      assert (a + b)[0] == a[0];
      assert (a + b)[1..] == a[1..] + b;
      OfferedConcat(a[1..], b);
    } else {
      assert a + b == b;
    }
  }

  /** Offering two lists of points in turn is offering their concatenation. */
  lemma {:induction false} PairsConcat(env: Env, radii: seq<real>, strength: Node -> real, i: nat, xi: real, yi: real,
                                       ri: real, ps: seq<Pt>, qs: seq<Pt>, b: Crowd)
    requires i < |b.nodes|
    ensures var first := Pairs(env, radii, strength, i, xi, yi, ri, ps, b);
      Pairs(env, radii, strength, i, xi, yi, ri, ps + qs, b)
        == if first.Ok? then Pairs(env, radii, strength, i, xi, yi, ri, qs, first.value) else first
    decreases |ps|
  {
    if ps == [] {
      assert ps + qs == qs;
    } else {
      assert (ps + qs)[0] == ps[0];
      assert (ps + qs)[1..] == ps[1..] + qs;
      var b1 := Pair(env, radii, strength, i, xi, yi, ri, ps[0], b);
      if b1.Ok? {
        PairsConcat(env, radii, strength, i, xi, yi, ri, ps[1..], qs, b1.value);
      }
    }
  }

  /**
   * A node's walk is `apply` on each offered point in turn: internal
   * quadrants contribute nothing, and each leaf its points in order.
   */
  lemma {:induction false} WalkIsPairs(env: Env, radii: seq<real>, strength: Node -> real, i: nat, xi: real, yi: real,
                                       ri: real, calls: seq<Tree<real>>, b: Crowd)
    requires i < |b.nodes|
    ensures Walk(env, radii, strength, i, xi, yi, ri, calls, b) == Pairs(env, radii, strength, i, xi, yi, ri, Offered(calls), b)
    decreases |calls|
  {
    if calls != [] {
      var head := if IsLeaf(calls[0]) then calls[0].points else [];
      PairsConcat(env, radii, strength, i, xi, yi, ri, head, Offered(calls[1..]), b);
      var b1 := Pairs(env, radii, strength, i, xi, yi, ri, head, b);
      if b1.Ok? {
        WalkIsPairs(env, radii, strength, i, xi, yi, ri, calls[1..], b1.value);
      }
    }
  }

  /** A pruned walk offers no stored point more often than the tree stores it. */
  lemma {:induction false} OfferedWithin(t: Tree<real>, prune: Tree<real> -> bool)
    ensures multiset(Offered(PreOrder(t, prune))) <= multiset(Items(t))
  {
    var rest := if prune(t) then [] else match t.kids
      case NoKids => []
      case Four(a, b, c, d) => PreOrder(a, prune) + PreOrder(b, prune) + PreOrder(c, prune) + PreOrder(d, prune);
    assert PreOrder(t, prune) == [t] + rest;
    OfferedConcat([t], rest);
    assert Offered([t]) == (if IsLeaf(t) then t.points else []) by {
      assert [t][1..] == [];
    }
    match t.kids
    case NoKids =>
    case Four(a, b, c, d) =>
      if !prune(t) {
        OfferedWithin(a, prune);
        OfferedWithin(b, prune);
        OfferedWithin(c, prune);
        OfferedWithin(d, prune);
        OfferedConcat(PreOrder(a, prune), PreOrder(b, prune));
        OfferedConcat(PreOrder(a, prune) + PreOrder(b, prune), PreOrder(c, prune));
        OfferedConcat(PreOrder(a, prune) + PreOrder(b, prune) + PreOrder(c, prune), PreOrder(d, prune));
        assert Items(t) == t.points + (Items(a) + Items(b) + Items(c) + Items(d));
      }
  }

  /** No two positions of `ps` carry the same node. */
  predicate DistinctRefs(ps: seq<Pt>) {
    forall k, l | 0 <= k < l < |ps| :: ps[k].ref != ps[l].ref
  }

  lemma TwiceCounted<T>(s: seq<T>, k: nat, l: nat)
    requires k < l < |s| && s[k] == s[l]
    ensures multiset(s)[s[k]] >= 2
  {
    assert s == s[..l] + s[l..];
    assert s[k] in s[..l];
    assert s[l..][0] == s[l];
  }

  /** A sequence without repeats holds each value at most once. */
  lemma {:induction false} DistinctOnce<T>(s: seq<T>, x: T)
    requires forall k, l | 0 <= k < l < |s| :: s[k] != s[l]
    ensures multiset(s)[x] <= 1
    decreases |s|
  {
    if s != [] {
      assert s == [s[0]] + s[1..];
      forall k, l | 0 <= k < l < |s[1..]|
        ensures s[1..][k] != s[1..][l]
      {
        assert s[k + 1] != s[l + 1];
      }
      DistinctOnce(s[1..], x);
      if s[0] == x {
        forall k | 0 <= k < |s[1..]|
          ensures s[1..][k] != x
        {
          assert s[0] != s[k + 1];
        }
      }
    }
  }

  lemma NodePointsOnce(nodes: seq<Node>, p: Pt)
    ensures multiset(NodePoints(nodes))[p] <= 1
  {
    var ps := NodePoints(nodes);
    forall k, l | 0 <= k < l < |ps|
      ensures ps[k] != ps[l]
    {
      assert ps[k].ref == k && ps[l].ref == l;
    }
    DistinctOnce(ps, p);
  }

  /**
   * Any sub-bag of the points a force stores carries each node at most
   * once, and only nodes that exist.
   */
  lemma SubBagDistinct(ps: seq<Pt>, nodes: seq<Node>)
    requires multiset(ps) <= multiset(NodePoints(nodes))
    ensures DistinctRefs(ps) && forall k | 0 <= k < |ps| :: ps[k].ref < |nodes|
  {
    forall k | 0 <= k < |ps|
      ensures ps[k].ref < |nodes| && ps[k] == NodePoints(nodes)[ps[k].ref]
    {
      assert ps[k] in multiset(ps);
      assert ps[k] in NodePoints(nodes);
    }
    forall k, l | 0 <= k < l < |ps|
      ensures ps[k].ref != ps[l].ref
    {
      if ps[k].ref == ps[l].ref {
        TwiceCounted(ps, k, l);
        NodePointsOnce(nodes, ps[k]);
      }
    }
  }

  /** `prepare` stores the same points as the tree it prepares. */
  lemma {:induction false} PrepareItems(t: Quad, nodes: seq<Node>, radii: seq<real>)
    ensures Prepare(t, nodes, radii).Ok? ==> Items(Prepare(t, nodes, radii).value) == Items(t)
  {
    match t.kids
    case NoKids =>
    case Four(a, b, c, d) =>
      PrepareItems(a, nodes, radii);
      PrepareItems(b, nodes, radii);
      PrepareItems(c, nodes, radii);
      PrepareItems(d, nodes, radii);
  }

  /**
   * In one tick, the walk of any node over the prepared tree (whatever its
   * projected position and radius) offers each other node at most once,
   * and only nodes of the list. With `PairNeedsGreaterIndex`, which lets
   * only the node of smaller index resolve a pair, and `WalkIsPairs`, each
   * unordered pair is resolved at most once per tick, and no node is
   * paired with itself.
   */
  lemma ForceOffersOnce(radii: seq<real>, nodes: seq<Node>, xi: real, yi: real, ri: real)
    requires nodes != []
    ensures var a := Prepare(BuildTree(NodePoints(nodes)), nodes, radii);
      a.Ok? ==>
        var offered := Offered(PreOrder(a.value, q => Skips(xi, yi, ri, q)));
        DistinctRefs(offered) && forall k | 0 <= k < |offered| :: offered[k].ref < |nodes|
  {
    var t := BuildTree(NodePoints(nodes));
    var a := Prepare(t, nodes, radii);
    if a.Ok? {
      BuildTreeBuilt(NodePoints(nodes));
      PrepareItems(t, nodes, radii);
      var prune := q => Skips(xi, yi, ri, q);
      OfferedWithin(a.value, prune);
      SubBagDistinct(Offered(PreOrder(a.value, prune)), nodes);
    }
  }

  /**
   * The loop of `force` from node `i` on. Every node, fixed or not, walks
   * the tree with its radius and its projected position x + vx, y + vy
   * taken when its turn comes.
   */
  function Sweep(env: Env, radii: seq<real>, strength: Node -> real, a: Tree<real>, i: nat, b: Crowd)
    : (r: Result<Crowd>)
    requires i <= |b.nodes|
    ensures r.Ok? ==> OnlyVelocities(b.nodes, r.value.nodes) && r.value.draws >= b.draws
    decreases |b.nodes| - i
  {
    if i == |b.nodes| then Ok(b)
    else
      var n := b.nodes[i];
      var ri :- if n.index < |radii| then Ok(radii[n.index]) else Err(OutOfRange(n.index));
      var xi, yi := n.x + n.vx, n.y + n.vy;
      var b1 :- Walk(env, radii, strength, i, xi, yi, ri, PreOrder(a, q => Skips(xi, yi, ri, q)), b);
      var b2 :- Sweep(env, radii, strength, a, i + 1, b1);
      OnlyVelocitiesTrans(b.nodes, b1.nodes, b2.nodes);
      Ok(b2)
  }

  /**
   * `CollisionLayout.force`: the tree is built from the current positions
   * and prepared once; the walks then query it with projected positions.
   * With no nodes nothing happens. Positions never change, and neither
   * does anything about a fixed node.
   */
  function Force(env: Env, radii: seq<real>, strength: Node -> real, nodes: seq<Node>, draws: nat)
    : (r: Result<Crowd>)
    ensures r.Ok? ==> OnlyVelocities(nodes, r.value.nodes) && r.value.draws >= draws
    ensures nodes == [] ==> r == Ok(Crowd(nodes, draws))
  {
    if nodes == [] then Ok(Crowd(nodes, draws))
    else
      var a :- Prepare(BuildTree(NodePoints(nodes)), nodes, radii);
      Sweep(env, radii, strength, a, 0, Crowd(nodes, draws))
  }
}
