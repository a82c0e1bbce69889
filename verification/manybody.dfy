/**
 * The many-body (charge) force of layouts/manybody.py: strengths per node,
 * the bottom-up accumulation of charge and centroid over the quadtree, and
 * the Barnes–Hut decision and velocity update of `apply`, folded over the
 * order in which `visit` calls it.
 */
module ManyBody {
  import opened Wrappers
  import opened Points
  import opened QuadTree
  import opened QuadIndex
  import opened Traversal
  import opened Oracles
  import opened Bodies

  /** A positive opening threshold: `apply` divides by it. */
  type Threshold = r: real | r > 0.0 witness 1.0

  /** The class attributes that tune the walk: theta², the near clamp, and the far cut-off (`None` is infinity). */
  datatype Tuning = Tuning(theta2: Threshold, distanceMin2: real, distanceMax2: Option<real>)

  /** The values the class declares. */
  const Defaults: Tuning := Tuning(0.81, 1.0, None)

  /** The default strength of every node. */
  const DefaultStrength: real := -30.0

  /** Closer than the far cut-off. */
  predicate Below(c: Tuning, len2: real) {
    c.distanceMax2.None? || len2 < c.distanceMax2.value
  }

  /** Strictly beyond the far cut-off. */
  predicate Beyond(c: Tuning, len2: real) {
    c.distanceMax2.Some? && len2 > c.distanceMax2.value
  }

  /** With the default, unbounded cut-off nothing is beyond it and everything is below it. */
  lemma DefaultsReachEverywhere(len2: real)
    ensures Below(Defaults, len2) && !Beyond(Defaults, len2)
  {
  }

  // ---------------------------------------------------------------------
  // initialize

  /** `initialize`: one strength per node, in list order. */
  function Initialize(nodes: seq<Node>, strength: Node -> real): (strengths: seq<real>)
    ensures |strengths| == |nodes|
    ensures forall i | 0 <= i < |nodes| :: strengths[i] == strength(nodes[i])
  {
    seq(|nodes|, i requires 0 <= i < |nodes| => strength(nodes[i]))
  }

  // ---------------------------------------------------------------------
  // accumulate

  /** The summed strengths of stored points, read by node index; the first unreadable one is an IndexError. */
  function PointsCharge(nodes: seq<Node>, strengths: seq<real>, ps: seq<Pt>): (r: Result<real>)
    ensures r.Ok? <==> forall p | p in ps :: Lookup(nodes, strengths, p).Ok?
    ensures ps == [] ==> r == Ok(0.0)
  {
    if ps == [] then Ok(0.0)
    else
      var s :- Lookup(nodes, strengths, ps[0]);
      var rest :- PointsCharge(nodes, strengths, ps[1..]);
      Ok(s + rest)
  }

  /** Charges add up over concatenated point lists. */
  lemma {:induction false} PointsChargeConcat(nodes: seq<Node>, strengths: seq<real>, a: seq<Pt>, b: seq<Pt>)
    requires PointsCharge(nodes, strengths, a).Ok? && PointsCharge(nodes, strengths, b).Ok?
    ensures PointsCharge(nodes, strengths, a + b)
      == Ok(PointsCharge(nodes, strengths, a).value + PointsCharge(nodes, strengths, b).value)
  {
    if a != [] {
      assert (a + b)[0] == a[0];
      assert (a + b)[1..] == a[1..] + b;
      PointsChargeConcat(nodes, strengths, a[1..], b);
    } else {
      assert a + b == b;
    }
  }

  /** Taking the first element out of a sequence takes one occurrence of it out of any rearrangement. */
  lemma RemoveFirst<T>(ps: seq<T>, qs: seq<T>, k: nat)
    requires multiset(ps) == multiset(qs) && ps != [] && k < |qs| && qs[k] == ps[0]
    ensures multiset(ps[1..]) == multiset(qs[..k] + qs[k + 1..])
  {
    var left, right := qs[..k], qs[k + 1..];
    assert ps == [ps[0]] + ps[1..];
    assert qs == left + [ps[0]] + right;
    calc {
      multiset(ps[1..]) + multiset{ps[0]};
      multiset(ps);
      multiset(qs);
      multiset(left) + multiset{ps[0]} + multiset(right);
      multiset(left + right) + multiset{ps[0]};
    }
    forall z
      ensures multiset(ps[1..])[z] == multiset(left + right)[z]
    {
      assert (multiset(ps[1..]) + multiset{ps[0]})[z] == (multiset(left + right) + multiset{ps[0]})[z];
    }
  }

  /** Reordering the points does not change whether they can be read, nor their summed strength. */
  lemma {:induction false} PointsChargePerm(nodes: seq<Node>, strengths: seq<real>, ps: seq<Pt>, qs: seq<Pt>)
    requires multiset(ps) == multiset(qs)
    ensures PointsCharge(nodes, strengths, ps).Ok? <==> PointsCharge(nodes, strengths, qs).Ok?
    ensures PointsCharge(nodes, strengths, ps).Ok? ==>
      PointsCharge(nodes, strengths, ps).value == PointsCharge(nodes, strengths, qs).value
    decreases |ps|
  {
    assert forall p :: p in ps <==> p in qs by {
      forall p
        ensures p in ps <==> p in qs
      {
        assert p in ps <==> p in multiset(ps);
        assert p in qs <==> p in multiset(qs);
      }
    }
    if ps != [] && PointsCharge(nodes, strengths, ps).Ok? {
      var x := ps[0];
      assert x in qs;
      var k :| 0 <= k < |qs| && qs[k] == x;
      var left, right := qs[..k], qs[k + 1..];
      assert qs == left + ([x] + right);
      assert ps == [x] + ps[1..];
      RemoveFirst(ps, qs, k);
      PointsChargePerm(nodes, strengths, ps[1..], left + right);
      assert forall p | p in left :: p in qs;
      assert forall p | p in right :: p in qs;
      assert ([x] + right)[0] == x && ([x] + right)[1..] == right;
      PointsChargeConcat(nodes, strengths, left, [x] + right);
      PointsChargeConcat(nodes, strengths, left, right);
    }
  }

  /** The strengths of nodes k, k + 1, …, added up: the total a charged root should carry. */
  function StrengthFrom(nodes: seq<Node>, strength: Node -> real, k: nat): real
    requires k <= |nodes|
    decreases |nodes| - k
  {
    if k == |nodes| then 0.0 else strength(nodes[k]) + StrengthFrom(nodes, strength, k + 1)
  }

  lemma {:induction false} NodePointsCharge(nodes: seq<Node>, strength: Node -> real, k: nat)
    requires k <= |nodes|
    requires forall i | 0 <= i < |nodes| :: nodes[i].index == i
    ensures PointsCharge(nodes, Initialize(nodes, strength), NodePoints(nodes)[k..]) == Ok(StrengthFrom(nodes, strength, k))
    decreases |nodes| - k
  {
    var ps := NodePoints(nodes)[k..];
    if k < |nodes| {
      assert ps[0] == NodePoints(nodes)[k];
      assert ps[1..] == NodePoints(nodes)[k + 1..];
      NodePointsCharge(nodes, strength, k + 1);
    }
  }

  /** `k * p`, named so that facts about products carry across lemma calls. */
  function Prod(k: real, p: real): real {
    k * p
  }

  /** `sum / w`. */
  function Mean(sum: real, w: real): real
    requires w != 0.0
  {
    sum / w
  }

  /** Sum of the absolute values of the children's charges: the weight of the centroid. */
  function Weight(a: Tree<real>, b: Tree<real>, c: Tree<real>, d: Tree<real>): real {
    Abs(a.data) + Abs(b.data) + Abs(c.data) + Abs(d.data)
  }

  /** The absolute-value-weighted mean of the children's x (or y); children of value zero do not count. */
  function Centroid(a: Tree<real>, b: Tree<real>, c: Tree<real>, d: Tree<real>, onX: bool): real
    requires Weight(a, b, c, d) != 0.0
  {
    if onX then
      Mean(Prod(Abs(a.data), a.x) + Prod(Abs(b.data), b.x) + Prod(Abs(c.data), c.x) + Prod(Abs(d.data), d.x),
           Weight(a, b, c, d))
    else
      Mean(Prod(Abs(a.data), a.y) + Prod(Abs(b.data), b.y) + Prod(Abs(c.data), c.y) + Prod(Abs(d.data), d.y),
           Weight(a, b, c, d))
  }

  /**
   * `accumulate`, applied by `visit_after`, so every child is done before
   * its parent. A leaf's value is the sum of its points' strengths and it
   * keeps its corner. An internal node's value is the sum of its
   * children's, and its x and y are overwritten by the children's
   * centroid weighted by the absolute values; a zero weight is Python's
   * ZeroDivisionError.
   */
  function Charge(t: Quad, nodes: seq<Node>, strengths: seq<real>): (r: Result<Tree<real>>)
    ensures r.Ok? ==>
      && r.value.width == t.width && r.value.height == t.height
      && r.value.points == t.points && r.value.level == t.level
      && (IsLeaf(r.value) <==> IsLeaf(t))
    ensures r.Ok? && IsLeaf(t) ==>
      && r.value.x == t.x && r.value.y == t.y
      && Ok(r.value.data) == PointsCharge(nodes, strengths, t.points)
    ensures IsLeaf(t) ==> (r.Ok? <==> PointsCharge(nodes, strengths, t.points).Ok?)
  {
    match t.kids
    case NoKids =>
      var v :- PointsCharge(nodes, strengths, t.points);
      Ok(Tree(t.x, t.y, t.width, t.height, t.level, t.points, NoKids, v))
    case Four(a, b, c, d) =>
      var a' :- Charge(a, nodes, strengths);
      var b' :- Charge(b, nodes, strengths);
      var c' :- Charge(c, nodes, strengths);
      var d' :- Charge(d, nodes, strengths);
      Combine(t, a', b', c', d')
  }

  /** The internal-node step of `accumulate`, once the four children are done. */
  function Combine(t: Quad, a: Tree<real>, b: Tree<real>, c: Tree<real>, d: Tree<real>): (r: Result<Tree<real>>)
    ensures r.Ok? <==> Weight(a, b, c, d) != 0.0
    ensures r.Ok? ==> r.value.kids == Four(a, b, c, d) && r.value.data == a.data + b.data + c.data + d.data
    ensures r.Ok? ==> r.value.width == t.width && r.value.height == t.height && r.value.points == t.points
    ensures r.Ok? ==>
      Prod(Weight(a, b, c, d), r.value.x)
        == Prod(Abs(a.data), a.x) + Prod(Abs(b.data), b.x) + Prod(Abs(c.data), c.x) + Prod(Abs(d.data), d.x)
    ensures r.Ok? ==>
      Prod(Weight(a, b, c, d), r.value.y)
        == Prod(Abs(a.data), a.y) + Prod(Abs(b.data), b.y) + Prod(Abs(c.data), c.y) + Prod(Abs(d.data), d.y)
  {
    var w := Weight(a, b, c, d);
    if w == 0.0 then Err(ZeroDivision)
    else
      MeanScales(Prod(Abs(a.data), a.x) + Prod(Abs(b.data), b.x) + Prod(Abs(c.data), c.x) + Prod(Abs(d.data), d.x), w);
      MeanScales(Prod(Abs(a.data), a.y) + Prod(Abs(b.data), b.y) + Prod(Abs(c.data), c.y) + Prod(Abs(d.data), d.y), w);
      Ok(Tree(Centroid(a, b, c, d, true), Centroid(a, b, c, d, false), t.width, t.height, t.level, t.points,
              Four(a, b, c, d), a.data + b.data + c.data + d.data))
  }

  /** The mean times its weight gives back the sum. */
  lemma MeanScales(sum: real, w: real)
    requires w != 0.0
    ensures Prod(w, Mean(sum, w)) == sum
  {
  }

  /** A node with only one charged child sits exactly where that child does. */
  lemma LoneChargedChild(t: Quad, a: Tree<real>, b: Tree<real>, c: Tree<real>, d: Tree<real>)
    requires a.data != 0.0 && b.data == 0.0 && c.data == 0.0 && d.data == 0.0
    ensures Combine(t, a, b, c, d).Ok?
    ensures Combine(t, a, b, c, d).value.x == a.x && Combine(t, a, b, c, d).value.y == a.y
  {
    var r := Combine(t, a, b, c, d).value;
    var w := Abs(a.data);
    assert Weight(a, b, c, d) == w;
    assert Prod(w, r.x) == Prod(w, a.x);
    assert Prod(w, r.y) == Prod(w, a.y);
    assert w * (r.x - a.x) == 0.0;
    assert w * (r.y - a.y) == 0.0;
  }

  /** What accumulating an internal node keeps of its children: their own accumulations, combined. */
  lemma ChargeKids(t: Quad, nodes: seq<Node>, strengths: seq<real>)
    requires t.kids.Four? && Charge(t, nodes, strengths).Ok?
    ensures Charge(t.kids.nw, nodes, strengths).Ok? && Charge(t.kids.ne, nodes, strengths).Ok?
    ensures Charge(t.kids.sw, nodes, strengths).Ok? && Charge(t.kids.se, nodes, strengths).Ok?
    ensures Charge(t, nodes, strengths)
      == Combine(t, Charge(t.kids.nw, nodes, strengths).value, Charge(t.kids.ne, nodes, strengths).value,
                 Charge(t.kids.sw, nodes, strengths).value, Charge(t.kids.se, nodes, strengths).value)
  {
  }

  /** An internal node whose four children all accumulate to zero cannot be accumulated: the weight is zero. */
  lemma ZeroChildrenFail(t: Quad, nodes: seq<Node>, strengths: seq<real>)
    requires t.kids.Four?
    requires forall k | k in [t.kids.nw, t.kids.ne, t.kids.sw, t.kids.se] ::
      Charge(k, nodes, strengths).Ok? && Charge(k, nodes, strengths).value.data == 0.0
    ensures Charge(t, nodes, strengths) == Err(ZeroDivision)
  {
    assert t.kids.nw in [t.kids.nw, t.kids.ne, t.kids.sw, t.kids.se];
    assert t.kids.ne in [t.kids.nw, t.kids.ne, t.kids.sw, t.kids.se];
    assert t.kids.sw in [t.kids.nw, t.kids.ne, t.kids.sw, t.kids.se];
    assert t.kids.se in [t.kids.nw, t.kids.ne, t.kids.sw, t.kids.se];
  }

  /**
   * The value at a node is the total strength of every point stored below
   * it, when (as in every tree the index builds) internal nodes hold no
   * points of their own.
   */
  lemma {:induction false} ChargeTotal(t: Quad, nodes: seq<Node>, strengths: seq<real>)
    requires Capacity(t)
    requires Charge(t, nodes, strengths).Ok?
    ensures PointsCharge(nodes, strengths, Items(t)) == Ok(Charge(t, nodes, strengths).value.data)
  {
    match t.kids
    case NoKids =>
      assert Items(t) == t.points;
    case Four(a, b, c, d) =>
      ChargeSums(t, nodes, strengths);
      ChargeTotal(a, nodes, strengths);
      ChargeTotal(b, nodes, strengths);
      ChargeTotal(c, nodes, strengths);
      ChargeTotal(d, nodes, strengths);
      ChargeOfKids(t, nodes, strengths);
  }

  /** An internal node's value is the sum of its children's. */
  lemma ChargeSums(t: Quad, nodes: seq<Node>, strengths: seq<real>)
    requires t.kids.Four? && Charge(t, nodes, strengths).Ok?
    ensures Charge(t.kids.nw, nodes, strengths).Ok? && Charge(t.kids.ne, nodes, strengths).Ok?
    ensures Charge(t.kids.sw, nodes, strengths).Ok? && Charge(t.kids.se, nodes, strengths).Ok?
    ensures Charge(t, nodes, strengths).value.data
      == Charge(t.kids.nw, nodes, strengths).value.data + Charge(t.kids.ne, nodes, strengths).value.data
       + Charge(t.kids.sw, nodes, strengths).value.data + Charge(t.kids.se, nodes, strengths).value.data
  {
    ChargeKids(t, nodes, strengths);
  }

  /** A node accumulates, to the total strength of the points stored below it. */
  predicate Totals(t: Quad, nodes: seq<Node>, strengths: seq<real>) {
    Charge(t, nodes, strengths).Ok? && PointsCharge(nodes, strengths, Items(t)) == Ok(Charge(t, nodes, strengths).value.data)
  }

  /** The induction step of `ChargeTotal`. */
  lemma ChargeOfKids(t: Quad, nodes: seq<Node>, strengths: seq<real>)
    requires t.kids.Four? && t.points == [] && Charge(t, nodes, strengths).Ok?
    requires Totals(t.kids.nw, nodes, strengths) && Totals(t.kids.ne, nodes, strengths)
    requires Totals(t.kids.sw, nodes, strengths) && Totals(t.kids.se, nodes, strengths)
    ensures Totals(t, nodes, strengths)
  {
    var k := t.kids;
    var a, b := Charge(k.nw, nodes, strengths).value, Charge(k.ne, nodes, strengths).value;
    var c, d := Charge(k.sw, nodes, strengths).value, Charge(k.se, nodes, strengths).value;
    TotalOfKids(t, nodes, strengths, a.data, b.data, c.data, d.data);
    ChargeKids(t, nodes, strengths);
  }

  /** The points below an internal node holding none of its own carry the sum of the children's charges. */
  lemma TotalOfKids(t: Quad, nodes: seq<Node>, strengths: seq<real>, va: real, vb: real, vc: real, vd: real)
    requires t.kids.Four? && t.points == []
    requires PointsCharge(nodes, strengths, Items(t.kids.nw)) == Ok(va)
    requires PointsCharge(nodes, strengths, Items(t.kids.ne)) == Ok(vb)
    requires PointsCharge(nodes, strengths, Items(t.kids.sw)) == Ok(vc)
    requires PointsCharge(nodes, strengths, Items(t.kids.se)) == Ok(vd)
    ensures PointsCharge(nodes, strengths, Items(t)) == Ok(va + vb + vc + vd)
  {
    var k := t.kids;
    assert Items(t) == Items(k.nw) + Items(k.ne) + Items(k.sw) + Items(k.se);
    ChargeFour(nodes, strengths, Items(k.nw), Items(k.ne), Items(k.sw), Items(k.se));
  }

  /** Charges add up over four concatenated point lists. */
  lemma ChargeFour(nodes: seq<Node>, strengths: seq<real>, a: seq<Pt>, b: seq<Pt>, c: seq<Pt>, d: seq<Pt>)
    requires PointsCharge(nodes, strengths, a).Ok? && PointsCharge(nodes, strengths, b).Ok?
    requires PointsCharge(nodes, strengths, c).Ok? && PointsCharge(nodes, strengths, d).Ok?
    ensures PointsCharge(nodes, strengths, a + b + c + d)
      == Ok(PointsCharge(nodes, strengths, a).value + PointsCharge(nodes, strengths, b).value
          + PointsCharge(nodes, strengths, c).value + PointsCharge(nodes, strengths, d).value)
  {
    PointsChargeConcat(nodes, strengths, a, b);
    PointsChargeConcat(nodes, strengths, a + b, c);
    PointsChargeConcat(nodes, strengths, a + b + c, d);
  }

  /**
   * `initialize` and `accumulate` together: charging the tree `force`
   * builds with the strengths `initialize` sets gives the root the total
   * strength of all nodes, when (as `init_nodes` leaves them) each node's
   * index is its position in the list.
   */
  lemma {:induction false} InitializeCharge(nodes: seq<Node>, strength: Node -> real)
    requires nodes != []
    requires forall i | 0 <= i < |nodes| :: nodes[i].index == i
    ensures var t := Charge(BuildTree(NodePoints(nodes)), nodes, Initialize(nodes, strength));
      t.Ok? ==> t.value.data == StrengthFrom(nodes, strength, 0)
  {
    var strengths := Initialize(nodes, strength);
    var t := BuildTree(NodePoints(nodes));
    if Charge(t, nodes, strengths).Ok? {
      BuildTreeBuilt(NodePoints(nodes));
      ChargeTotal(t, nodes, strengths);
      PointsChargePerm(nodes, strengths, Items(t), NodePoints(nodes));
      NodePointsCharge(nodes, strength, 0);
    }
  }

  /** A non-negative weight keeps the order of a bound and a position, when the weight counts at all. */
  lemma TermBounds(k: real, p: real, lo: real, hi: real)
    requires k >= 0.0 && (k != 0.0 ==> lo <= p <= hi)
    ensures Prod(k, lo) <= Prod(k, p) <= Prod(k, hi)
  {
    if k != 0.0 {
      calc {
        k * lo;
      <=
        k * p;
      <=
        k * hi;
      }
    }
  }

  lemma Distribute(a: real, b: real, c: real, d: real, x: real)
    ensures Prod(a + b + c + d, x) == Prod(a, x) + Prod(b, x) + Prod(c, x) + Prod(d, x)
  {
  }

  /** A sum between w·lo and w·hi, divided by the positive w, lies between lo and hi. */
  lemma MeanWithin(sum: real, w: real, lo: real, hi: real)
    requires w > 0.0 && Prod(w, lo) <= sum <= Prod(w, hi)
    ensures lo <= Mean(sum, w) <= hi
  {
    assert sum / w * w == sum;
  }

  /** The weighted mean of four positions lies within any interval holding the positions that carry weight. */
  lemma CentroidAxis(a: Tree<real>, b: Tree<real>, c: Tree<real>, d: Tree<real>, lo: real, hi: real, onX: bool)
    requires Weight(a, b, c, d) != 0.0
    requires forall q | q in [a, b, c, d] && q.data != 0.0 :: lo <= (if onX then q.x else q.y) <= hi
    ensures lo <= Centroid(a, b, c, d, onX) <= hi
  {
    assert a in [a, b, c, d] && b in [a, b, c, d] && c in [a, b, c, d] && d in [a, b, c, d];
    var pa, pb := if onX then a.x else a.y, if onX then b.x else b.y;
    var pc, pd := if onX then c.x else c.y, if onX then d.x else d.y;
    TermBounds(Abs(a.data), pa, lo, hi);
    TermBounds(Abs(b.data), pb, lo, hi);
    TermBounds(Abs(c.data), pc, lo, hi);
    TermBounds(Abs(d.data), pd, lo, hi);
    Distribute(Abs(a.data), Abs(b.data), Abs(c.data), Abs(d.data), lo);
    Distribute(Abs(a.data), Abs(b.data), Abs(c.data), Abs(d.data), hi);
    MeanWithin(Prod(Abs(a.data), pa) + Prod(Abs(b.data), pb) + Prod(Abs(c.data), pc) + Prod(Abs(d.data), pd),
               Weight(a, b, c, d), lo, hi);
  }

  /**
   * An internal node's new position lies within the range of its children
   * that carry charge: whatever interval holds the x (or y) of every child
   * with a non-zero value also holds the node's x (or y).
   */
  lemma CentroidWithin(t: Quad, nodes: seq<Node>, strengths: seq<real>, lo: real, hi: real, onX: bool)
    requires t.kids.Four?
    ensures Charge(t, nodes, strengths).Ok? ==>
      var r := Charge(t, nodes, strengths).value;
      var k := r.kids;
      (forall q | q in [k.nw, k.ne, k.sw, k.se] && q.data != 0.0 :: lo <= (if onX then q.x else q.y) <= hi) ==>
      lo <= (if onX then r.x else r.y) <= hi
  {
    if Charge(t, nodes, strengths).Ok? {
      ChargeKids(t, nodes, strengths);
      var k := Charge(t, nodes, strengths).value.kids;
      if forall q | q in [k.nw, k.ne, k.sw, k.se] && q.data != 0.0 :: lo <= (if onX then q.x else q.y) <= hi {
        CentroidAxis(k.nw, k.ne, k.sw, k.se, lo, hi, onX);
      }
    }
  }

  // ---------------------------------------------------------------------
  // apply

  /** The state of one node's walk: its velocity and the number of jitter draws so far. */
  datatype Probe = Probe(vx: real, vy: real, draws: nat)

  /**
   * The Barnes–Hut test of `apply`: w² / theta² < dist². `visit` passes
   * (node, x, y, width, height) and `apply` reads them as (quad, x1, _, x2),
   * so w is the quadrant's width minus its (centroid) x.
   */
  predicate Far(c: Tuning, n: Node, q: Tree<real>) {
    Sq(q.width - q.x) / c.theta2 < Sq(q.x - n.x) + Sq(q.y - n.y)
  }

  /** `apply` answers True, so `visit` does not descend: the quadrant has no charge, or it is far enough. */
  predicate Prunes(c: Tuning, n: Node, q: Tree<real>) {
    q.data == 0.0 || Far(c, n, q)
  }

  /** A quadrant that passes the test is at a positive distance from the node. */
  lemma FarIsApart(c: Tuning, n: Node, q: Tree<real>)
    requires Far(c, n, q)
    ensures Sq(q.x - n.x) + Sq(q.y - n.y) > 0.0
  {
    SqNonNegative(q.width - q.x);
    assert Sq(q.width - q.x) / c.theta2 >= 0.0;
  }

  /**
   * The near-distance treatment shared by both branches of `apply`: a zero
   * coordinate is replaced by jitter (growing the squared length), then a
   * squared length below `distance_min2` becomes sqrt(distance_min2 · it).
   * Returns (x, y, force, draws).
   */
  function Settle(env: Env, c: Tuning, x: real, y: real, len2: real, draws: nat): (r: (real, real, real, nat))
    ensures x != 0.0 && y != 0.0 && len2 >= c.distanceMin2 ==> r == (x, y, len2, draws)
    ensures r.3 == draws + (if x == 0.0 then 1 else 0) + (if y == 0.0 then 1 else 0)
  {
    var (x1, l1, d1) := Jiggled(env, x, len2, draws);
    var (y1, l2, d2) := Jiggled(env, y, l1, d1);
    (x1, y1, if l2 < c.distanceMin2 then env.sqrt(c.distanceMin2 * l2) else l2, d2)
  }

  /** The velocity change along one axis: coordinate · strength · alpha / force. */
  function Share(x: real, s: real, alpha: real, force: real): real
    requires force != 0.0
  {
    x * (s * alpha) / force
  }

  /** Two pulls along the same axis are one pull by the sum of their strengths. */
  lemma ShareAdds(x: real, s: real, rest: real, alpha: real, force: real)
    requires force != 0.0
    ensures Share(x, s, alpha, force) + Share(x, rest, alpha, force) == Share(x, s + rest, alpha, force)
  {
    assert x * (s * alpha) + x * (rest * alpha) == x * ((s + rest) * alpha);
  }

  /** Velocity grown by (x, y) · s · alpha / force; a zero force makes numpy's float division infinite or NaN. */
  function Pull(p: Probe, x: real, y: real, s: real, alpha: real, force: real, draws: nat): (r: Result<Probe>)
    ensures r.Ok? <==> force != 0.0
    ensures r.Ok? ==> r.value.draws == draws
  {
    if force == 0.0 then Err(NotANumber)
    else Ok(Probe(p.vx + Share(x, s, alpha, force), p.vy + Share(y, s, alpha, force), draws))
  }

  /**
   * The leaf branch of `apply`: every stored point in turn (the node itself
   * included) pulls along (x, y) by its strength · alpha / force. x, y and
   * force carry over from point to point, so jitter and clamping apply to
   * the running values.
   */
  function Nearby(env: Env, c: Tuning, alpha: real, nodes: seq<Node>, strengths: seq<real>,
                  ps: seq<Pt>, x: real, y: real, len2: real, p: Probe): Result<Probe>
    decreases |ps|
  {
    if ps == [] then Ok(p)
    else
      var st := Settle(env, c, x, y, len2, p.draws);
      var s :- Lookup(nodes, strengths, ps[0]);
      var p1 :- Pull(p, st.0, st.1, s, alpha, st.2, st.3);
      Nearby(env, c, alpha, nodes, strengths, ps[1..], st.0, st.1, st.2, p1)
  }

  /**
   * `apply` for one quadrant `q` and the current node `n`: nothing for a
   * quadrant without charge; the far-field pull of the whole quadrant when
   * it passes the test and lies below the cut-off; the per-point pulls of
   * its points when it fails the test and lies within the cut-off.
   */
  function Interact(env: Env, c: Tuning, alpha: real, nodes: seq<Node>, strengths: seq<real>,
                    n: Node, q: Tree<real>, p: Probe): (r: Result<Probe>)
    ensures q.data == 0.0 ==> r == Ok(p)
    ensures var len2 := Sq(q.x - n.x) + Sq(q.y - n.y);
      q.data != 0.0 && Far(c, n, q) && !Below(c, len2) ==> r == Ok(p)
    ensures var len2 := Sq(q.x - n.x) + Sq(q.y - n.y);
      !Far(c, n, q) && (q.points == [] || Beyond(c, len2)) ==> r == Ok(p)
  {
    if q.data == 0.0 then Ok(p)
    else
      var x := q.x - n.x;
      var y := q.y - n.y;
      var len2 := Sq(x) + Sq(y);
      if Far(c, n, q) then
        if Below(c, len2) then
          var st := Settle(env, c, x, y, len2, p.draws);
          Pull(p, st.0, st.1, q.data, alpha, st.2, st.3)
        else Ok(p)
      else if q.points == [] || Beyond(c, len2) then Ok(p)
      else Nearby(env, c, alpha, nodes, strengths, q.points, x, y, len2, p)
  }

  /** A far quadrant below the cut-off, away from coincidence and the clamp, pulls once by its whole value. */
  lemma FarPull(env: Env, c: Tuning, alpha: real, nodes: seq<Node>, strengths: seq<real>,
                n: Node, q: Tree<real>, p: Probe)
    requires var len2 := Sq(q.x - n.x) + Sq(q.y - n.y);
      q.data != 0.0 && Far(c, n, q) && Below(c, len2)
      && q.x != n.x && q.y != n.y && len2 >= c.distanceMin2
    ensures var x, y := q.x - n.x, q.y - n.y;
      var len2 := Sq(x) + Sq(y);
      len2 != 0.0 &&
      Interact(env, c, alpha, nodes, strengths, n, q, p)
        == Ok(Probe(p.vx + Share(x, q.data, alpha, len2), p.vy + Share(y, q.data, alpha, len2), p.draws))
  {
    FarIsApart(c, n, q);
  }

  /**
   * Away from coincidence and the clamp, the per-point pulls of a leaf add
   * up to a single pull by the points' total strength.
   */
  lemma {:induction false} PointsActAsOne(env: Env, c: Tuning, alpha: real, nodes: seq<Node>, strengths: seq<real>,
                                          ps: seq<Pt>, x: real, y: real, p: Probe)
    requires x != 0.0 && y != 0.0 && Sq(x) + Sq(y) >= c.distanceMin2 && Sq(x) + Sq(y) != 0.0
    requires PointsCharge(nodes, strengths, ps).Ok?
    ensures var len2 := Sq(x) + Sq(y);
      var total := PointsCharge(nodes, strengths, ps).value;
      Nearby(env, c, alpha, nodes, strengths, ps, x, y, len2, p)
        == Ok(Probe(p.vx + Share(x, total, alpha, len2), p.vy + Share(y, total, alpha, len2), p.draws))
  {
    var len2 := Sq(x) + Sq(y);
    if ps != [] {
      assert ps[0] in ps;
      var s := Lookup(nodes, strengths, ps[0]).value;
      var p1 := Probe(p.vx + Share(x, s, alpha, len2), p.vy + Share(y, s, alpha, len2), p.draws);
      assert Settle(env, c, x, y, len2, p.draws) == (x, y, len2, p.draws);
      assert Pull(p, x, y, s, alpha, len2, p.draws) == Ok(p1);
      assert Nearby(env, c, alpha, nodes, strengths, ps, x, y, len2, p)
        == Nearby(env, c, alpha, nodes, strengths, ps[1..], x, y, len2, p1);
      PointsActAsOne(env, c, alpha, nodes, strengths, ps[1..], x, y, p1);
      var rest := PointsCharge(nodes, strengths, ps[1..]).value;
      ShareAdds(x, s, rest, alpha, len2);
      ShareAdds(y, s, rest, alpha, len2);
    } else {
      assert Share(x, 0.0, alpha, len2) == 0.0 && Share(y, 0.0, alpha, len2) == 0.0;
    }
  }

  /**
   * A leaf that fails the test pulls a node near it, away from coincidence
   * and the clamp, exactly as the far field would pull with the leaf's
   * accumulated value: the per-point loop agrees with the leaf's charge.
   */
  lemma LeafActsAsBody(env: Env, c: Tuning, alpha: real, nodes: seq<Node>, strengths: seq<real>,
                       n: Node, t: Quad, p: Probe)
    requires IsLeaf(t) && t.points != [] && Charge(t, nodes, strengths).Ok?
    requires var q := Charge(t, nodes, strengths).value;
      var len2 := Sq(q.x - n.x) + Sq(q.y - n.y);
      q.data != 0.0 && !Far(c, n, q) && !Beyond(c, len2)
      && q.x != n.x && q.y != n.y && len2 >= c.distanceMin2
    ensures var q := Charge(t, nodes, strengths).value;
      var x, y := q.x - n.x, q.y - n.y;
      var len2 := Sq(x) + Sq(y);
      len2 != 0.0 &&
      Interact(env, c, alpha, nodes, strengths, n, q, p)
        == Ok(Probe(p.vx + Share(x, q.data, alpha, len2), p.vy + Share(y, q.data, alpha, len2), p.draws))
  {
    var q := Charge(t, nodes, strengths).value;
    var x, y := q.x - n.x, q.y - n.y;
    SqPositive(x);
    SqNonNegative(y);
    PointsActAsOne(env, c, alpha, nodes, strengths, q.points, x, y, p);
  }

  // ---------------------------------------------------------------------
  // force

  /** `apply` folded over the quadrants `visit` hands it, in order. */
  function Walk(env: Env, c: Tuning, alpha: real, nodes: seq<Node>, strengths: seq<real>,
                n: Node, calls: seq<Tree<real>>, p: Probe): (r: Result<Probe>)
    ensures r.Ok? ==> r.value.draws >= p.draws
    decreases |calls|
  {
    if calls == [] then Ok(p)
    else
      var p1 :- Interact(env, c, alpha, nodes, strengths, n, calls[0], p);
      assert p1.draws >= p.draws by {
        InteractDraws(env, c, alpha, nodes, strengths, n, calls[0], p);
      }
      Walk(env, c, alpha, nodes, strengths, n, calls[1..], p1)
  }

  /** Jitter draws are only ever consumed. */
  lemma InteractDraws(env: Env, c: Tuning, alpha: real, nodes: seq<Node>, strengths: seq<real>,
                      n: Node, q: Tree<real>, p: Probe)
    requires Interact(env, c, alpha, nodes, strengths, n, q, p).Ok?
    ensures Interact(env, c, alpha, nodes, strengths, n, q, p).value.draws >= p.draws
  {
    var x := q.x - n.x;
    var y := q.y - n.y;
    if q.data != 0.0 && !Far(c, n, q) && q.points != [] && !Beyond(c, Sq(x) + Sq(y)) {
      PointsDraws(env, c, alpha, nodes, strengths, q.points, x, y, Sq(x) + Sq(y), p);
    }
  }

  lemma {:induction false} PointsDraws(env: Env, c: Tuning, alpha: real, nodes: seq<Node>, strengths: seq<real>,
                                       ps: seq<Pt>, x: real, y: real, len2: real, p: Probe)
    requires Nearby(env, c, alpha, nodes, strengths, ps, x, y, len2, p).Ok?
    ensures Nearby(env, c, alpha, nodes, strengths, ps, x, y, len2, p).value.draws >= p.draws
    decreases |ps|
  {
    if ps != [] {
      var st := Settle(env, c, x, y, len2, p.draws);
      var s := Lookup(nodes, strengths, ps[0]);
      var p1 := Pull(p, st.0, st.1, s.value, alpha, st.2, st.3);
      assert s.Ok? && p1.Ok?;
      PointsDraws(env, c, alpha, nodes, strengths, ps[1..], st.0, st.1, st.2, p1.value);
    }
  }

  /**
   * The loop of `force` from node `i` on: fixed nodes are skipped; every
   * other node walks the tree (in the order `visit` gives for its own
   * pruning answers) and keeps the velocity the walk leaves it.
   */
  function Sweep(env: Env, c: Tuning, alpha: real, strengths: seq<real>, a: Tree<real>,
                 nodes: seq<Node>, i: nat, draws: nat): (r: Result<(seq<Node>, nat)>)
    requires i <= |nodes|
    ensures r.Ok? ==> OnlyVelocities(nodes, r.value.0) && r.value.1 >= draws
    ensures r.Ok? ==> forall j | 0 <= j < i :: r.value.0[j] == nodes[j]
    decreases |nodes| - i
  {
    if i == |nodes| then Ok((nodes, draws))
    else if nodes[i].fixed then Sweep(env, c, alpha, strengths, a, nodes, i + 1, draws)
    else
      var n := nodes[i];
      var p :- Walk(env, c, alpha, nodes, strengths, n, PreOrder(a, q => Prunes(c, n, q)), Probe(n.vx, n.vy, draws));
      var next := nodes[i := n.(vx := p.vx, vy := p.vy)];
      assert OnlyVelocities(nodes, next) by {
        assert Moved(nodes[i], next[i]);
      }
      var r :- Sweep(env, c, alpha, strengths, a, next, i + 1, p.draws);
      OnlyVelocitiesTrans(nodes, next, r.0);
      Ok(r)
  }

  /**
   * `ManyBodyForcesLayout.force`: build the tree of the current positions,
   * accumulate charges bottom-up, then walk it once per free node. With no
   * nodes nothing happens. Only velocities of free nodes change.
   */
  function Force(env: Env, c: Tuning, alpha: real, strengths: seq<real>, nodes: seq<Node>, draws: nat)
    : (r: Result<(seq<Node>, nat)>)
    ensures r.Ok? ==> OnlyVelocities(nodes, r.value.0) && r.value.1 >= draws
    ensures nodes == [] ==> r == Ok((nodes, draws))
  {
    if nodes == [] then Ok((nodes, draws))
    else
      var a :- Charge(BuildTree(NodePoints(nodes)), nodes, strengths);
      Sweep(env, c, alpha, strengths, a, nodes, 0, draws)
  }

  // ---------------------------------------------------------------------
  // each node's own walk

  /** The leaf pulls read the node list only for strengths by index, which velocity updates leave alone. */
  lemma {:induction false} NearbyFrame(env: Env, c: Tuning, alpha: real, a: seq<Node>, b: seq<Node>, strengths: seq<real>,
                                       ps: seq<Pt>, x: real, y: real, len2: real, p: Probe)
    requires OnlyVelocities(a, b)
    ensures Nearby(env, c, alpha, a, strengths, ps, x, y, len2, p) == Nearby(env, c, alpha, b, strengths, ps, x, y, len2, p)
    decreases |ps|
  {
    if ps != [] {
      LookupFrame(a, b, strengths, ps[0]);
      var st := Settle(env, c, x, y, len2, p.draws);
      var s := Lookup(a, strengths, ps[0]);
      if s.Ok? {
        var p1 := Pull(p, st.0, st.1, s.value, alpha, st.2, st.3);
        if p1.Ok? {
          NearbyFrame(env, c, alpha, a, b, strengths, ps[1..], st.0, st.1, st.2, p1.value);
        }
      }
    }
  }

  /** A node's walk is the same over the node list before and after other nodes' velocities change. */
  lemma {:induction false} WalkFrame(env: Env, c: Tuning, alpha: real, a: seq<Node>, b: seq<Node>, strengths: seq<real>,
                                     n: Node, calls: seq<Tree<real>>, p: Probe)
    requires OnlyVelocities(a, b)
    ensures Walk(env, c, alpha, a, strengths, n, calls, p) == Walk(env, c, alpha, b, strengths, n, calls, p)
    decreases |calls|
  {
    if calls != [] {
      var q := calls[0];
      var x, y := q.x - n.x, q.y - n.y;
      NearbyFrame(env, c, alpha, a, b, strengths, q.points, x, y, Sq(x) + Sq(y), p);
      assert Interact(env, c, alpha, a, strengths, n, q, p) == Interact(env, c, alpha, b, strengths, n, q, p);
      var p1 := Interact(env, c, alpha, a, strengths, n, q, p);
      if p1.Ok? {
        WalkFrame(env, c, alpha, a, b, strengths, n, calls[1..], p1.value);
      }
    }
  }

  /**
   * `after` is node `n` carrying the velocity its own walk of the tree `a`
   * over `nodes` leaves it, started from its own velocity, for some count
   * of jitter draws already taken.
   */
  ghost predicate Walked(env: Env, c: Tuning, alpha: real, strengths: seq<real>, a: Tree<real>,
                   nodes: seq<Node>, n: Node, after: Node)
  {
    exists d: nat ::
      var w := Walk(env, c, alpha, nodes, strengths, n, PreOrder(a, q => Prunes(c, n, q)), Probe(n.vx, n.vy, d));
      w.Ok? && after == n.(vx := w.value.vx, vy := w.value.vy)
  }

  lemma WalkedFrame(env: Env, c: Tuning, alpha: real, strengths: seq<real>, a: Tree<real>,
                    nodes: seq<Node>, other: seq<Node>, n: Node, after: Node)
    requires OnlyVelocities(nodes, other)
    ensures Walked(env, c, alpha, strengths, a, other, n, after) ==> Walked(env, c, alpha, strengths, a, nodes, n, after)
  {
    if Walked(env, c, alpha, strengths, a, other, n, after) {
      var calls := PreOrder(a, q => Prunes(c, n, q));
      var d: nat :| var w := Walk(env, c, alpha, other, strengths, n, calls, Probe(n.vx, n.vy, d));
        w.Ok? && after == n.(vx := w.value.vx, vy := w.value.vy);
      WalkFrame(env, c, alpha, nodes, other, strengths, n, calls, Probe(n.vx, n.vy, d));
    }
  }

  /**
   * The sweep from node `i` on: a fixed node is left as it was, and every
   * free node ends with exactly the velocity of its own walk over the tree,
   * as if no other node had moved before its turn.
   */
  lemma {:induction false} SweepEach(env: Env, c: Tuning, alpha: real, strengths: seq<real>, a: Tree<real>,
                                     nodes: seq<Node>, i: nat, draws: nat)
    requires i <= |nodes|
    ensures Sweep(env, c, alpha, strengths, a, nodes, i, draws).Ok? ==>
      var r := Sweep(env, c, alpha, strengths, a, nodes, i, draws).value.0;
      forall j | i <= j < |nodes| ::
        if nodes[j].fixed then r[j] == nodes[j] else Walked(env, c, alpha, strengths, a, nodes, nodes[j], r[j])
    decreases |nodes| - i
  {
    if i < |nodes| && Sweep(env, c, alpha, strengths, a, nodes, i, draws).Ok? {
      var r := Sweep(env, c, alpha, strengths, a, nodes, i, draws).value.0;
      if nodes[i].fixed {
        SweepEach(env, c, alpha, strengths, a, nodes, i + 1, draws);
      } else {
        var n := nodes[i];
        var calls := PreOrder(a, q => Prunes(c, n, q));
        var w := Walk(env, c, alpha, nodes, strengths, n, calls, Probe(n.vx, n.vy, draws));
        var p := w.value;
        var next := nodes[i := n.(vx := p.vx, vy := p.vy)];
        assert OnlyVelocities(nodes, next) by {
          assert Moved(nodes[i], next[i]);
        }
        assert r == Sweep(env, c, alpha, strengths, a, next, i + 1, p.draws).value.0;
        SweepEach(env, c, alpha, strengths, a, next, i + 1, p.draws);
        assert r[i] == next[i];
        assert Walked(env, c, alpha, strengths, a, nodes, n, r[i]) by {
          assert w.Ok? && r[i] == n.(vx := w.value.vx, vy := w.value.vy);
        }
        forall j | i < j < |nodes| && !nodes[j].fixed
          ensures Walked(env, c, alpha, strengths, a, nodes, nodes[j], r[j])
        {
          assert next[j] == nodes[j];
          WalkedFrame(env, c, alpha, strengths, a, nodes, next, nodes[j], r[j]);
        }
      }
    }
  }

  /**
   * `force` moves each free node by its own walk of the charged tree of the
   * positions before the force, independent of the updates to the nodes
   * ahead of it; fixed nodes keep their velocity.
   */
  lemma ForceEach(env: Env, c: Tuning, alpha: real, strengths: seq<real>, nodes: seq<Node>, draws: nat)
    requires nodes != []
    ensures Force(env, c, alpha, strengths, nodes, draws).Ok? ==>
      var t := Charge(BuildTree(NodePoints(nodes)), nodes, strengths);
      var r := Force(env, c, alpha, strengths, nodes, draws).value.0;
      t.Ok? &&
      forall j | 0 <= j < |nodes| ::
        if nodes[j].fixed then r[j] == nodes[j] else Walked(env, c, alpha, strengths, t.value, nodes, nodes[j], r[j])
  {
    var t := Charge(BuildTree(NodePoints(nodes)), nodes, strengths);
    if t.Ok? {
      SweepEach(env, c, alpha, strengths, t.value, nodes, 0, draws);
    }
  }

  /** The walk's order is the order the stack-based `visit` produces for the node's pruning answers. */
  method WalkOrder(c: Tuning, n: Node, a: Tree<real>) returns (calls: seq<Tree<real>>)
    ensures calls == PreOrder(a, q => Prunes(c, n, q))
    ensures |calls| <= Size(a) && calls[0] == a
  {
    calls := Visit(a, q => Prunes(c, n, q));
    PruningShortens(a, q => Prunes(c, n, q));
  }
}
