/**
 * The link force of layouts/linkage.py: resolving link endpoints,
 * counting link ends per node, the bias and default strength derived
 * from those counts, and the spring step of `force` that splits one
 * correction between a link's two ends.
 */
module Linkage {
  import opened Wrappers
  import opened Points
  import opened Oracles
  import opened Bodies

  /** A link end as given: a node of the list (by position) or an identity to look up. */
  datatype End = At(pos: nat) | Key(id: int)

  datatype Link = Link(source: End, target: End)

  /** A resolved link: the positions of its ends in the node list and its own index. */
  datatype Bond = Bond(source: nat, target: nat, index: nat)

  /** The `strength` argument: the degree-based default or a function of the link. */
  datatype Strength = ByDegree | Given(f: Bond -> real)

  /** What `initialize` derives for one link. */
  datatype Spring = Spring(bond: Bond, bias: real, strength: real, distance: real)

  /**
   * The force's state: `Idle` until `initialize` has run on a non-empty
   * node list, then the springs and the per-node counts.
   */
  datatype Springs = Idle(links: seq<Link>) | Ready(springs: seq<Spring>, count: seq<nat>)

  /** The default rest length, `Fn(30.0)`. */
  const DefaultDistance := 30.0

  // ---------------------------------------------------------------------
  // initialize

  /**
   * A link end resolved against the node list. An identity goes through
   * `{identity(node): node for node in nodes}`, where the last node with
   * that identity wins; an identity no node has is a KeyError.
   */
  function Resolve(nodes: seq<Node>, identity: Node -> int, e: End): (r: Result<nat>)
    ensures r.Ok? ==> r.value < |nodes|
  {
    match e
    case At(p) => if p < |nodes| then Ok(p) else Err(OutOfRange(p))
    case Key(id) =>
      match Last(nodes, n => identity(n) == id, |nodes|)
      case None => Err(Unresolved(id))
      case Some(p) => Ok(p)
  }

  /** An identity resolves to the last node carrying it, and fails exactly when no node carries it. */
  lemma ResolveKey(nodes: seq<Node>, identity: Node -> int, id: int)
    ensures Resolve(nodes, identity, Key(id)).Err? <==> forall j | 0 <= j < |nodes| :: identity(nodes[j]) != id
    ensures Resolve(nodes, identity, Key(id)).Ok? ==>
      var p := Resolve(nodes, identity, Key(id)).value;
      identity(nodes[p]) == id && forall j | p < j < |nodes| :: identity(nodes[j]) != id
  {
    var want := (n: Node) => identity(n) == id;
    var r := Last(nodes, want, |nodes|);
    if r.None? {
      assert forall j | 0 <= j < |nodes| :: !want(nodes[j]);
    } else {
      assert want(nodes[r.value]);
    }
  }

  /** The slot of a node in the count table: its own `index` field. */
  function Slot(nodes: seq<Node>, p: nat): int
    requires p < |nodes|
  {
    nodes[p].index
  }

  /** Whether the count table has a slot for every end of every bond. */
  predicate Counted(nodes: seq<Node>, bonds: seq<Bond>) {
    forall i | 0 <= i < |bonds| ::
      && bonds[i].source < |nodes| && bonds[i].target < |nodes|
      && Slot(nodes, bonds[i].source) < |nodes| && Slot(nodes, bonds[i].target) < |nodes|
  }

  /** The number of bond ends at slot `v`, a self-loop counting twice. */
  function Degree(nodes: seq<Node>, bonds: seq<Bond>, v: nat): nat
    requires Counted(nodes, bonds)
  {
    if bonds == [] then 0
    else
      var b := bonds[|bonds| - 1];
      assert Counted(nodes, bonds[..|bonds| - 1]);
      Degree(nodes, bonds[..|bonds| - 1], v)
        + (if Slot(nodes, b.source) == v then 1 else 0)
        + (if Slot(nodes, b.target) == v then 1 else 0)
  }

  function Sum(s: seq<nat>): nat {
    if s == [] then 0 else Sum(s[..|s| - 1]) + s[|s| - 1]
  }

  /** `count[k] += 1`. */
  function Bump(s: seq<nat>, k: nat): seq<nat>
    requires k < |s|
  {
    s[k := s[k] + 1]
  }

  lemma {:induction false} SumBump(s: seq<nat>, k: nat)
    requires k < |s|
    ensures Sum(Bump(s, k)) == Sum(s) + 1
    decreases |s|
  {
    var t := Bump(s, k);
    assert t[..|t| - 1] == if k == |s| - 1 then s[..|s| - 1] else s[..|s| - 1][k := s[k] + 1];
    if k < |s| - 1 {
      SumBump(s[..|s| - 1], k);
    }
  }

  lemma {:induction false} SumZeros(n: nat)
    ensures Sum(seq(n, _ => 0)) == 0
  {
    if n > 0 {
      assert seq(n, _ => 0)[..n - 1] == seq(n - 1, _ => 0);
      SumZeros(n - 1);
    }
  }

  /**
   * The first loop of `initialize` over the first `m` links: link i is
   * given index i, its target is resolved, then its source, and each
   * end's slot in `count` goes up by one.
   */
  function Tally(nodes: seq<Node>, identity: Node -> int, links: seq<Link>, m: nat)
    : (r: Result<(seq<Bond>, seq<nat>)>)
    requires m <= |links|
    ensures r.Ok? ==> |r.value.0| == m && |r.value.1| == |nodes|
  {
    if m == 0 then Ok(([], seq(|nodes|, _ => 0)))
    else
      var st :- Tally(nodes, identity, links, m - 1);
      var t :- Resolve(nodes, identity, links[m - 1].target);
      var s :- Resolve(nodes, identity, links[m - 1].source);
      var count := st.1;
      if Slot(nodes, s) >= |count| then Err(OutOfRange(Slot(nodes, s)))
      else
        var count1 := Bump(count, Slot(nodes, s));
        if Slot(nodes, t) >= |count1| then Err(OutOfRange(Slot(nodes, t)))
        else Ok((st.0 + [Bond(s, t, m - 1)], Bump(count1, Slot(nodes, t))))
  }

  /** One more link: the bonds grow by link m's resolved ends, and the two end slots go up by one. */
  lemma TallyStep(nodes: seq<Node>, identity: Node -> int, links: seq<Link>, m: nat)
    requires 0 < m <= |links| && Tally(nodes, identity, links, m).Ok?
    ensures Tally(nodes, identity, links, m - 1).Ok?
    ensures Resolve(nodes, identity, links[m - 1].source).Ok? && Resolve(nodes, identity, links[m - 1].target).Ok?
    ensures var st := Tally(nodes, identity, links, m - 1).value;
      var s := Resolve(nodes, identity, links[m - 1].source).value;
      var t := Resolve(nodes, identity, links[m - 1].target).value;
      && Slot(nodes, s) < |nodes| && Slot(nodes, t) < |nodes|
      && Tally(nodes, identity, links, m).value.0 == st.0 + [Bond(s, t, m - 1)]
      && Tally(nodes, identity, links, m).value.1 == Bump(Bump(st.1, Slot(nodes, s)), Slot(nodes, t))
  {
  }

  /** After the first loop, bond i is link i with both ends resolved (target first), and every end has a slot. */
  lemma {:induction false} TallyBonds(nodes: seq<Node>, identity: Node -> int, links: seq<Link>, m: nat)
    requires m <= |links| && Tally(nodes, identity, links, m).Ok?
    ensures var bonds := Tally(nodes, identity, links, m).value.0;
      && Counted(nodes, bonds)
      && forall i | 0 <= i < m ::
           && bonds[i].index == i
           && Resolve(nodes, identity, links[i].target) == Ok(bonds[i].target)
           && Resolve(nodes, identity, links[i].source) == Ok(bonds[i].source)
  {
    if m > 0 {
      TallyStep(nodes, identity, links, m);
      TallyBonds(nodes, identity, links, m - 1);
    }
  }

  /** After the first loop, each slot holds the number of link ends there. */
  lemma {:induction false} TallyDegrees(nodes: seq<Node>, identity: Node -> int, links: seq<Link>, m: nat)
    requires m <= |links| && Tally(nodes, identity, links, m).Ok?
    ensures Counted(nodes, Tally(nodes, identity, links, m).value.0)
    ensures forall v | 0 <= v < |nodes| ::
      Tally(nodes, identity, links, m).value.1[v] == Degree(nodes, Tally(nodes, identity, links, m).value.0, v)
  {
    TallyBonds(nodes, identity, links, m);
    if m == 0 {
    } else {
      TallyStep(nodes, identity, links, m);
      TallyDegrees(nodes, identity, links, m - 1);
      var bonds := Tally(nodes, identity, links, m).value.0;
      var prev := Tally(nodes, identity, links, m - 1).value.0;
      assert bonds[..|bonds| - 1] == prev;
    }
  }

  /** After the first loop, the slots add up to twice the number of links. */
  lemma {:induction false} TallySum(nodes: seq<Node>, identity: Node -> int, links: seq<Link>, m: nat)
    requires m <= |links| && Tally(nodes, identity, links, m).Ok?
    ensures Sum(Tally(nodes, identity, links, m).value.1) == 2 * m
  {
    if m == 0 {
      SumZeros(|nodes|);
    } else {
      TallyStep(nodes, identity, links, m);
      TallySum(nodes, identity, links, m - 1);
      var count := Tally(nodes, identity, links, m - 1).value.1;
      var s := Resolve(nodes, identity, links[m - 1].source).value;
      var t := Resolve(nodes, identity, links[m - 1].target).value;
      SumBump(count, Slot(nodes, s));
      SumBump(Bump(count, Slot(nodes, s)), Slot(nodes, t));
    }
  }

  /** Both ends of every bond have at least one link end counted at their slot. */
  lemma {:induction false} DegreeAtEnds(nodes: seq<Node>, bonds: seq<Bond>, i: nat)
    requires Counted(nodes, bonds) && i < |bonds|
    ensures Degree(nodes, bonds, Slot(nodes, bonds[i].source)) >= 1
    ensures Degree(nodes, bonds, Slot(nodes, bonds[i].target)) >= 1
  {
    assert Counted(nodes, bonds[..|bonds| - 1]);
    if i < |bonds| - 1 {
      assert bonds[..|bonds| - 1][i] == bonds[i];
      DegreeAtEnds(nodes, bonds[..|bonds| - 1], i);
    }
  }

  /**
   * The spring `initialize` derives for a bond: bias count[source] /
   * (count[source] + count[target]), strength from the argument (by default
   * 1 / min(count[source], count[target])) and the rest length.
   */
  function Wire(nodes: seq<Node>, count: seq<nat>, b: Bond, strength: Strength, distance: Bond -> real): Spring
    requires b.source < |nodes| && b.target < |nodes|
    requires Slot(nodes, b.source) < |count| && Slot(nodes, b.target) < |count|
    requires count[Slot(nodes, b.source)] >= 1 && count[Slot(nodes, b.target)] >= 1
  {
    var cs, ct := count[Slot(nodes, b.source)] as real, count[Slot(nodes, b.target)] as real;
    var s := match strength
      case ByDegree => 1.0 / Min(cs, ct)
      case Given(f) => f(b);
    Spring(b, cs / (cs + ct), s, distance(b))
  }

  /** `initialize`, with `init_strengths` and `init_distances`; with no nodes it does nothing. */
  function Initialize(nodes: seq<Node>, identity: Node -> int, links: seq<Link>, strength: Strength, distance: Bond -> real)
    : (r: Result<Springs>)
    ensures nodes == [] ==> r == Ok(Idle(links))
    ensures nodes != [] && r.Ok? ==> r.value.Ready? && |r.value.springs| == |links| && |r.value.count| == |nodes|
    ensures nodes != [] ==> (r.Ok? <==> Tally(nodes, identity, links, |links|).Ok?)
  {
    if nodes == [] then Ok(Idle(links))
    else
      var st :- Tally(nodes, identity, links, |links|);
      TallyBonds(nodes, identity, links, |links|);
      TallyDegrees(nodes, identity, links, |links|);
      var bonds, count := st.0, st.1;
      assert forall i | 0 <= i < |bonds| ::
          count[Slot(nodes, bonds[i].source)] >= 1 && count[Slot(nodes, bonds[i].target)] >= 1 by {
        forall i | 0 <= i < |bonds|
          ensures count[Slot(nodes, bonds[i].source)] >= 1 && count[Slot(nodes, bonds[i].target)] >= 1
        {
          DegreeAtEnds(nodes, bonds, i);
        }
      }
      Ok(Ready(Wires(nodes, bonds, count, strength, distance), count))
  }

  /** The springs of `initialize`'s second loop, one per bond. */
  function Wires(nodes: seq<Node>, bonds: seq<Bond>, count: seq<nat>, strength: Strength, distance: Bond -> real)
    : (springs: seq<Spring>)
    requires Counted(nodes, bonds) && |count| == |nodes|
    requires forall i | 0 <= i < |bonds| ::
      count[Slot(nodes, bonds[i].source)] >= 1 && count[Slot(nodes, bonds[i].target)] >= 1
    ensures Wired(nodes, bonds, count, springs, strength, distance)
  {
    seq(|bonds|, i requires 0 <= i < |bonds| => Wire(nodes, count, bonds[i], strength, distance))
  }

  /** The bonds the springs are stretched along, in order. */
  function Bonds(springs: seq<Spring>): (bonds: seq<Bond>)
    ensures |bonds| == |springs| && forall i | 0 <= i < |springs| :: bonds[i] == springs[i].bond
  {
    seq(|springs|, i requires 0 <= i < |springs| => springs[i].bond)
  }

  /**
   * What the first loop of `initialize` promises: bond i joins the
   * resolved ends of link i, and the count table holds the bond ends per
   * slot and sums to twice the number of links.
   */
  predicate Tallied(nodes: seq<Node>, identity: Node -> int, links: seq<Link>, bonds: seq<Bond>, count: seq<nat>) {
    && |bonds| == |links| && |count| == |nodes| && Counted(nodes, bonds)
    && (forall i | 0 <= i < |links| ::
          && bonds[i].index == i
          && Resolve(nodes, identity, links[i].target) == Ok(bonds[i].target)
          && Resolve(nodes, identity, links[i].source) == Ok(bonds[i].source))
    && (forall v | 0 <= v < |nodes| :: count[v] == Degree(nodes, bonds, v))
    && Sum(count) == 2 * |links|
  }

  /** Link i becomes spring i, between the resolved ends of link i, and the count table is the degree table. */
  lemma InitializeWires(nodes: seq<Node>, identity: Node -> int, links: seq<Link>, strength: Strength, distance: Bond -> real)
    requires nodes != [] && Initialize(nodes, identity, links, strength, distance).Ok?
    ensures var sp := Initialize(nodes, identity, links, strength, distance).value;
      Tallied(nodes, identity, links, Bonds(sp.springs), sp.count)
  {
    var st := Tally(nodes, identity, links, |links|).value;
    assert Tallied(nodes, identity, links, st.0, st.1) by {
      TallyBonds(nodes, identity, links, |links|);
      TallyDegrees(nodes, identity, links, |links|);
      TallySum(nodes, identity, links, |links|);
    }
    var sp := Initialize(nodes, identity, links, strength, distance).value;
    assert Bonds(sp.springs) == st.0 by {
      InitializeSprings(nodes, identity, links, strength, distance);
    }
  }

  /**
   * Every bias lies strictly between 0 and 1 (exactly 1/2 on a self-loop),
   * and the default strength lies in (0, 1].
   */
  lemma WireRanges(nodes: seq<Node>, count: seq<nat>, b: Bond, strength: Strength, distance: Bond -> real)
    requires b.source < |nodes| && b.target < |nodes|
    requires Slot(nodes, b.source) < |count| && Slot(nodes, b.target) < |count|
    requires count[Slot(nodes, b.source)] >= 1 && count[Slot(nodes, b.target)] >= 1
    ensures var sp := Wire(nodes, count, b, strength, distance);
      && 0.0 < sp.bias < 1.0
      && (b.source == b.target ==> sp.bias == 0.5)
      && (strength.ByDegree? ==> 0.0 < sp.strength <= 1.0)
  {
    var cs, ct := count[Slot(nodes, b.source)] as real, count[Slot(nodes, b.target)] as real;
    RatioInside(cs, ct);
    RecipInside(Min(cs, ct));
  }

  /**
   * Spring i is the spring `Wire` derives from bond i, whose ends each
   * count at least once.
   */
  predicate Wired(nodes: seq<Node>, bonds: seq<Bond>, count: seq<nat>, springs: seq<Spring>, strength: Strength,
                  distance: Bond -> real) {
    && |springs| == |bonds| && Counted(nodes, bonds) && |count| == |nodes|
    && forall i | 0 <= i < |bonds| ::
         && count[Slot(nodes, bonds[i].source)] >= 1 && count[Slot(nodes, bonds[i].target)] >= 1
         && springs[i] == Wire(nodes, count, bonds[i], strength, distance)
  }

  /** Spring i is the spring `Wire` derives from bond i of the first loop, whose ends are counted at least once. */
  lemma InitializeSprings(nodes: seq<Node>, identity: Node -> int, links: seq<Link>, strength: Strength, distance: Bond -> real)
    requires nodes != [] && Initialize(nodes, identity, links, strength, distance).Ok?
    ensures Tally(nodes, identity, links, |links|).Ok?
    ensures Wired(nodes, Tally(nodes, identity, links, |links|).value.0, Tally(nodes, identity, links, |links|).value.1,
                  Initialize(nodes, identity, links, strength, distance).value.springs, strength, distance)
  {
    var st := Tally(nodes, identity, links, |links|).value;
    TallyBonds(nodes, identity, links, |links|);
    TallyDegrees(nodes, identity, links, |links|);
    assert Initialize(nodes, identity, links, strength, distance).value.springs == Wires(nodes, st.0, st.1, strength, distance);
  }

  /** The ranges of `WireRanges`, for every spring `initialize` derives. */
  lemma InitializeRanges(nodes: seq<Node>, identity: Node -> int, links: seq<Link>, strength: Strength, distance: Bond -> real)
    requires nodes != [] && Initialize(nodes, identity, links, strength, distance).Ok?
    ensures var sp := Initialize(nodes, identity, links, strength, distance).value;
      forall i | 0 <= i < |sp.springs| ::
        && 0.0 < sp.springs[i].bias < 1.0
        && (sp.springs[i].bond.source == sp.springs[i].bond.target ==> sp.springs[i].bias == 0.5)
        && (strength.ByDegree? ==> 0.0 < sp.springs[i].strength <= 1.0)
        && sp.springs[i].distance == distance(sp.springs[i].bond)
  {
    InitializeSprings(nodes, identity, links, strength, distance);
    var st := Tally(nodes, identity, links, |links|).value;
    var springs := Initialize(nodes, identity, links, strength, distance).value.springs;
    forall i | 0 <= i < |springs|
      ensures 0.0 < springs[i].bias < 1.0
      ensures springs[i].bond.source == springs[i].bond.target ==> springs[i].bias == 0.5
      ensures strength.ByDegree? ==> 0.0 < springs[i].strength <= 1.0
      ensures springs[i].distance == distance(springs[i].bond)
    {
      WireRanges(nodes, st.1, st.0[i], strength, distance);
    }
  }

  lemma RatioInside(a: real, b: real)
    requires a >= 1.0 && b >= 1.0
    ensures 0.0 < a / (a + b) < 1.0
    ensures a == b ==> a / (a + b) == 0.5
  {
    assert a / (a + b) * (a + b) == a;
  }

  lemma RecipInside(a: real)
    requires a >= 1.0
    ensures 0.0 < 1.0 / a <= 1.0
  {
    assert 1.0 / a * a == 1.0;
  }

  // ---------------------------------------------------------------------
  // force

  /**
   * `v or jiggle()`: a zero component is replaced by a jitter draw, and
   * only then is a draw taken; the result is non-zero unless that draw is.
   */
  function Nudged(env: Env, v: real, draws: nat): (r: (real, nat))
    ensures r.0 == v || (v == 0.0 && r.0 == env.jiggle(draws))
    ensures r.0 != 0.0 <==> v != 0.0 || env.jiggle(draws) != 0.0
    ensures draws <= r.1 <= draws + 1 && (r.1 == draws <==> v != 0.0)
  {
    if v == 0.0 then (env.jiggle(draws), draws + 1) else (v, draws)
  }

  /**
   * The spring correction of one link: the (jittered) offset from the
   * source's projected position to the target's, scaled by
   * (l − distance) / l · alpha · strength for its length l. A zero length
   * makes numpy's float division infinite or NaN.
   *
   * With an exact square root, the correction exists exactly when the
   * jittered offset is not the origin, and it then lies along the offset,
   * its component along it is l · (l − distance) · alpha · strength, and
   * its length is |(l − distance) · alpha · strength|: the spring pulls by
   * its stretch beyond the rest length, scaled by alpha and its strength.
   */
  function Tension(env: Env, alpha: real, sp: Spring, s: Node, t: Node, draws: nat): (r: Result<(real, real, nat)>)
    ensures r.Ok? ==> r.value.2 >= draws
    ensures ExactSqrt(env) ==>
      var a := Nudged(env, t.x + t.vx - s.x - s.vx, draws);
      var b := Nudged(env, t.y + t.vy - s.y - s.vy, a.1);
      var l := env.sqrt(Sq(a.0) + Sq(b.0));
      var m := (l - sp.distance) * alpha * sp.strength;
      && (r.Ok? <==> a.0 != 0.0 || b.0 != 0.0)
      && (r.Ok? ==> Along(r.value.0, r.value.1, a.0, b.0, l, m))
  {
    var (x, d1) := Nudged(env, t.x + t.vx - s.x - s.vx, draws);
    var (y, d2) := Nudged(env, t.y + t.vy - s.y - s.vy, d1);
    ExactLength(env, x, y);
    var l := env.sqrt(Sq(x) + Sq(y));
    if l == 0.0 then Err(NotANumber)
    else
      var k := (l - sp.distance) / l * alpha * sp.strength;
      assert k == ((l - sp.distance) * alpha * sp.strength) / l;
      Stretched(env, x, y, Sq(x) + Sq(y), (l - sp.distance) * alpha * sp.strength, k);
      Ok((x * k, y * k, d2))
  }

  /**
   * One iteration of `force`'s loop: the target loses bias times the
   * correction, then the source gains (1 − bias) times it, each unless
   * fixed. A spring whose end is past the current list fails.
   */
  function Pull(env: Env, alpha: real, sp: Spring, nodes: seq<Node>, draws: nat): (r: Result<(seq<Node>, nat)>)
    ensures r.Ok? ==> OnlyVelocities(nodes, r.value.0) && r.value.1 >= draws
  {
    var src, tgt := sp.bond.source, sp.bond.target;
    if src >= |nodes| then Err(OutOfRange(src))
    else if tgt >= |nodes| then Err(OutOfRange(tgt))
    else
      var (cx, cy, d) :- Tension(env, alpha, sp, nodes[src], nodes[tgt], draws);
      var n1 := Push(nodes, tgt, -(cx * sp.bias), -(cy * sp.bias));
      var n2 := Push(n1, src, cx * (1.0 - sp.bias), cy * (1.0 - sp.bias));
      OnlyVelocitiesTrans(nodes, n1, n2);
      Ok((n2, d))
  }

  /**
   * Between two distinct free nodes, the target's velocity changes by
   * −bias · c and the source's by (1 − bias) · c, so what the target loses
   * and the source gains make up the whole correction c.
   */
  lemma PullSplits(env: Env, alpha: real, sp: Spring, nodes: seq<Node>, draws: nat)
    requires Pull(env, alpha, sp, nodes, draws).Ok?
    requires sp.bond.source != sp.bond.target
    requires !nodes[sp.bond.source].fixed && !nodes[sp.bond.target].fixed
    ensures var s, t := sp.bond.source, sp.bond.target;
      var c := Tension(env, alpha, sp, nodes[s], nodes[t], draws).value;
      var after := Pull(env, alpha, sp, nodes, draws).value.0;
      && after[t].vx == nodes[t].vx - c.0 * sp.bias
      && after[t].vy == nodes[t].vy - c.1 * sp.bias
      && after[s].vx == nodes[s].vx + c.0 * (1.0 - sp.bias)
      && after[s].vy == nodes[s].vy + c.1 * (1.0 - sp.bias)
      && (nodes[t].vx - after[t].vx) + (after[s].vx - nodes[s].vx) == c.0
      && (nodes[t].vy - after[t].vy) + (after[s].vy - nodes[s].vy) == c.1
  {
  }

  /** A self-loop with the bias `initialize` gives it (1/2) leaves its node where it was. */
  lemma SelfLoopStill(env: Env, alpha: real, sp: Spring, nodes: seq<Node>, draws: nat)
    requires Pull(env, alpha, sp, nodes, draws).Ok?
    requires sp.bond.source == sp.bond.target && sp.bias == 0.5
    ensures Pull(env, alpha, sp, nodes, draws).value.0 == nodes
  {
    var p := sp.bond.source;
    var after := Pull(env, alpha, sp, nodes, draws).value.0;
    assert after[p] == nodes[p];
    assert after == nodes;
  }

  /** The links in order, from spring `k` on. */
  function Pulls(env: Env, alpha: real, springs: seq<Spring>, nodes: seq<Node>, draws: nat): (r: Result<(seq<Node>, nat)>)
    ensures r.Ok? ==> OnlyVelocities(nodes, r.value.0) && r.value.1 >= draws
    decreases |springs|
  {
    if springs == [] then Ok((nodes, draws))
    else
      var st :- Pull(env, alpha, springs[0], nodes, draws);
      var st2 :- Pulls(env, alpha, springs[1..], st.0, st.1);
      OnlyVelocitiesTrans(nodes, st.0, st2.0);
      Ok(st2)
  }

  /**
   * `force(alpha)`. Before `initialize` has prepared springs, links have no
   * tables to read: that is an error unless there are no links.
   */
  function Force(env: Env, alpha: real, state: Springs, nodes: seq<Node>, draws: nat): (r: Result<(seq<Node>, nat)>)
    ensures r.Ok? ==> OnlyVelocities(nodes, r.value.0) && r.value.1 >= draws
    ensures state.Idle? ==> r == if state.links == [] then Ok((nodes, draws)) else Err(Uninitialized)
  {
    match state
    case Idle(links) => if links == [] then Ok((nodes, draws)) else Err(Uninitialized)
    case Ready(springs, _) => Pulls(env, alpha, springs, nodes, draws)
  }
}
