/**
 * The simulation driver of layout.py: the named force registry, node
 * initialisation, the tick (cool alpha, run every force in order,
 * integrate), and the nearest-node search.
 */
module Simulation {
  import opened Wrappers
  import opened Points
  import opened Oracles
  import opened Bodies
  import ManyBody
  import Collide
  import Linkage
  import Positional

  // ---------------------------------------------------------------------
  // configuration

  /**
   * The tunable fields of `ForceSimulation`. The default initial angle
   * π(3 − √5) and alpha decay 1 − alpha_min^(1/300) are irrational and so
   * stay parameters; the rational defaults are the constants below.
   */
  datatype Config = Config(
    initialRadius: real,
    initialAngle: real,
    alphaMin: real,
    alphaDecay: real,
    alphaTarget: real,
    velocityDecay: real)

  const InitialRadius := 10.0
  const InitialAlpha := 1.0
  const AlphaMin := 0.001
  const AlphaTarget := 0.0
  const VelocityDecay := 0.6

  // ---------------------------------------------------------------------
  // the force registry: a dict, so names are unique and order is insertion order

  datatype Entry<F> = Entry(name: string, force: F)

  predicate Distinct<F>(reg: seq<Entry<F>>) {
    forall i, j | 0 <= i < j < |reg| :: reg[i].name != reg[j].name
  }

  /** The position of the entry called `name`. */
  function Where<F>(reg: seq<Entry<F>>, name: string): (r: Option<nat>)
    ensures r.Some? ==> r.value < |reg| && reg[r.value].name == name
    ensures r.None? ==> forall i | 0 <= i < |reg| :: reg[i].name != name
  {
    if reg == [] then None
    else if reg[|reg| - 1].name == name then Some(|reg| - 1)
    else Where(reg[..|reg| - 1], name)
  }

  /** `forces[name] = force`: an existing name keeps its place and takes the new force; a new name goes last. */
  function AddForce<F>(reg: seq<Entry<F>>, name: string, f: F): (r: seq<Entry<F>>)
    ensures Entry(name, f) in r
    ensures |r| == |reg| + (if Where(reg, name).None? then 1 else 0)
    ensures forall i | 0 <= i < |reg| && reg[i].name != name :: r[i] == reg[i]
  {
    match Where(reg, name)
    case Some(k) =>
      var r := reg[k := Entry(name, f)];
      assert r[k] == Entry(name, f);
      r
    case None =>
      var r := reg + [Entry(name, f)];
      assert r[|reg|] == Entry(name, f);
      r
  }

  /** `forces.pop(name)`: the force and the registry without it; a missing name is a KeyError. */
  function RemoveForce<F>(reg: seq<Entry<F>>, name: string): (r: Result<(F, seq<Entry<F>>)>)
    ensures r.Err? <==> forall i | 0 <= i < |reg| :: reg[i].name != name
  {
    match Where(reg, name)
    case None => Err(NotFound(name))
    case Some(k) => Ok((reg[k].force, reg[..k] + reg[k + 1..]))
  }

  /**
   * After `add_force`, names stay unique, the name maps to the new force,
   * every other entry keeps its force and relative order, and the registry
   * grows exactly when the name was new.
   */
  lemma AddForceRegisters<F>(reg: seq<Entry<F>>, name: string, f: F)
    requires Distinct(reg)
    ensures var r := AddForce(reg, name, f);
      && Distinct(r)
      && Where(r, name).Some? && r[Where(r, name).value].force == f
      && |r| == |reg| + (if Where(reg, name).None? then 1 else 0)
      && forall i | 0 <= i < |reg| && reg[i].name != name :: r[i] == reg[i]
  {
    var r := AddForce(reg, name, f);
    match Where(reg, name)
    case Some(k) =>
      assert r[k].name == name;
      WhereUnique(r, name, k);
    case None =>
      WhereUnique(r, name, |reg|);
  }

  /** In a registry with unique names, the entry called `name` is the only one. */
  lemma WhereUnique<F>(reg: seq<Entry<F>>, name: string, k: nat)
    requires Distinct(reg) && k < |reg| && reg[k].name == name
    ensures Where(reg, name) == Some(k)
  {
    var w := Where(reg, name);
  }

  /** Adding a new name and then removing it gives back the force and the registry as it was. */
  lemma AddThenRemove<F>(reg: seq<Entry<F>>, name: string, f: F)
    requires Distinct(reg) && Where(reg, name).None?
    ensures RemoveForce(AddForce(reg, name, f), name) == Ok((f, reg))
  {
    var r := AddForce(reg, name, f);
    WhereUnique(r, name, |reg|);
    assert r[..|reg|] + r[|reg| + 1..] == reg;
  }

  /** Removing keeps names unique and leaves every other entry in its order. */
  lemma RemoveForceKeeps<F>(reg: seq<Entry<F>>, name: string)
    requires Distinct(reg) && RemoveForce(reg, name).Ok?
    ensures var (f, r) := RemoveForce(reg, name).value;
      && Distinct(r) && |r| == |reg| - 1
      && Where(r, name).None?
      && exists k | 0 <= k < |reg| :: reg[k] == Entry(name, f) && r == reg[..k] + reg[k + 1..]
  {
    var k := Where(reg, name).value;
    var r := reg[..k] + reg[k + 1..];
    assert forall i | 0 <= i < |r| :: r[i] == if i < k then reg[i] else reg[i + 1];
    forall i | 0 <= i < |r|
      ensures r[i].name != name
    {
      if i < k {
        assert reg[i].name != reg[k].name;
      } else {
        assert reg[k].name != reg[i + 1].name;
      }
    }
  }

  // ---------------------------------------------------------------------
  // the forces a simulation can hold

  /**
   * A registered force with the tables its `initialize` fills in. The
   * many-body and positional forces initialise in their constructors;
   * the collision and link forces only when the simulation starts.
   */
  datatype Force =
    | ManyBodyForce(tuning: ManyBody.Tuning, charge: Node -> real, strengths: seq<real>)
    | CollideForce(radius: (Node, nat, seq<Node>) -> real, stiffness: Node -> real, radii: Option<seq<real>>)
    | LinkForce(identity: Node -> int, links: seq<Linkage.Link>, strength: Linkage.Strength,
                distance: Linkage.Bond -> real, springs: Linkage.Springs)
    | PositionForce(axis: Positional.Axis, target: (Node, nat, seq<Node>) -> Option<real>,
                    pull: (Node, nat, seq<Node>) -> real, goals: seq<Positional.Goal>)

  function NewManyBody(nodes: seq<Node>, charge: Node -> real): (f: Force)
    ensures f.ManyBodyForce? && f.tuning == ManyBody.Defaults && |f.strengths| == |nodes|
  {
    ManyBodyForce(ManyBody.Defaults, charge, ManyBody.Initialize(nodes, charge))
  }

  function NewCollide(radius: (Node, nat, seq<Node>) -> real, stiffness: Node -> real): (f: Force)
    ensures f.CollideForce? && f.radii.None?
  {
    CollideForce(radius, stiffness, None)
  }

  function NewLink(identity: Node -> int, links: seq<Linkage.Link>, strength: Linkage.Strength,
                   distance: Linkage.Bond -> real): (f: Force)
    ensures f.LinkForce? && f.springs == Linkage.Idle(links)
  {
    LinkForce(identity, links, strength, distance, Linkage.Idle(links))
  }

  function NewPosition(nodes: seq<Node>, axis: Positional.Axis, target: (Node, nat, seq<Node>) -> Option<real>,
                       pull: (Node, nat, seq<Node>) -> real): (f: Force)
    ensures f.PositionForce? && |f.goals| == |nodes|
  {
    PositionForce(axis, target, pull, Positional.Initialize(nodes, target, pull))
  }

  /** `force.initialize()` against the simulation's nodes. */
  function InitForce(f: Force, nodes: seq<Node>): (r: Result<Force>)
    ensures r.Ok? ==> r.value.ManyBodyForce? == f.ManyBodyForce? && r.value.CollideForce? == f.CollideForce?
    ensures r.Ok? ==> r.value.LinkForce? == f.LinkForce? && r.value.PositionForce? == f.PositionForce?
    ensures r.Ok? && f.CollideForce? ==> r.value.radii.Some?
  {
    match f
    case ManyBodyForce(_, charge, _) => Ok(f.(strengths := ManyBody.Initialize(nodes, charge)))
    case CollideForce(radius, _, _) =>
      var radii :- Collide.Radii(nodes, radius);
      Ok(f.(radii := Some(radii)))
    case LinkForce(identity, links, strength, distance, _) =>
      if nodes == [] then Ok(f)
      else
        var springs :- Linkage.Initialize(nodes, identity, links, strength, distance);
        Ok(f.(springs := springs))
    case PositionForce(axis, target, pull, _) => Ok(f.(goals := Positional.Initialize(nodes, target, pull)))
  }

  /** `init_forces`: every registered force initialised in order; the names and their order do not change. */
  function InitForces(reg: seq<Entry<Force>>, nodes: seq<Node>): (r: Result<seq<Entry<Force>>>)
    ensures r.Ok? ==> |r.value| == |reg| && forall i | 0 <= i < |reg| :: r.value[i].name == reg[i].name
    ensures r.Ok? <==> forall i | 0 <= i < |reg| :: InitForce(reg[i].force, nodes).Ok?
    ensures r.Ok? ==> forall i | 0 <= i < |reg| :: r.value[i].force == InitForce(reg[i].force, nodes).value
  {
    if reg == [] then Ok([])
    else
      var e :- InitForce(reg[0].force, nodes);
      var rest :- InitForces(reg[1..], nodes);
      Ok([Entry(reg[0].name, e)] + rest)
  }

  /** `force(alpha)` for a registered force. */
  function Apply(env: Env, f: Force, alpha: real, nodes: seq<Node>, draws: nat): (r: Result<(seq<Node>, nat)>)
    ensures r.Ok? ==> OnlyVelocities(nodes, r.value.0) && r.value.1 >= draws
  {
    match f
    case ManyBodyForce(tuning, _, strengths) => ManyBody.Force(env, tuning, alpha, strengths, nodes, draws)
    case CollideForce(_, stiffness, radii) =>
      if radii.None? then (if nodes == [] then Ok((nodes, draws)) else Err(Uninitialized))
      else
        var c :- Collide.Force(env, radii.value, stiffness, nodes, draws);
        Ok((c.nodes, c.draws))
    case LinkForce(_, _, _, _, springs) => Linkage.Force(env, alpha, springs, nodes, draws)
    case PositionForce(axis, _, _, goals) =>
      var r :- Positional.Force(axis, goals, alpha, nodes);
      Ok((r, draws))
  }

  /** Every registered force, in registry order, each seeing the nodes the previous one left. */
  function ApplyAll(env: Env, reg: seq<Entry<Force>>, alpha: real, nodes: seq<Node>, draws: nat)
    : (r: Result<(seq<Node>, nat)>)
    ensures r.Ok? ==> OnlyVelocities(nodes, r.value.0) && r.value.1 >= draws
    decreases |reg|
  {
    if reg == [] then Ok((nodes, draws))
    else
      var st :- Apply(env, reg[0].force, alpha, nodes, draws);
      var st2 :- ApplyAll(env, reg[1..], alpha, st.0, st.1);
      OnlyVelocitiesTrans(nodes, st.0, st2.0);
      Ok(st2)
  }

  /** Running a registry with one more entry runs the old entries first, then the new one. */
  lemma {:induction false} ApplyAllSnoc(env: Env, reg: seq<Entry<Force>>, e: Entry<Force>, alpha: real,
                                        nodes: seq<Node>, draws: nat)
    ensures ApplyAll(env, reg + [e], alpha, nodes, draws) ==
      match ApplyAll(env, reg, alpha, nodes, draws)
      case Err(x) => Err(x)
      case Ok(st) => Apply(env, e.force, alpha, st.0, st.1)
    decreases |reg|
  {
    if reg == [] {
      assert [e][1..] == [];
    } else {
      assert (reg + [e])[1..] == reg[1..] + [e];
      match Apply(env, reg[0].force, alpha, nodes, draws)
      case Err(_) =>
      case Ok(st) =>
        ApplyAllSnoc(env, reg[1..], e, alpha, st.0, st.1);
    }
  }

  /** A force added under a new name runs after every force already registered. */
  lemma AddedForceRunsLast(env: Env, reg: seq<Entry<Force>>, name: string, f: Force, alpha: real,
                           nodes: seq<Node>, draws: nat)
    requires Where(reg, name).None?
    ensures ApplyAll(env, AddForce(reg, name, f), alpha, nodes, draws) ==
      match ApplyAll(env, reg, alpha, nodes, draws)
      case Err(x) => Err(x)
      case Ok(st) => Apply(env, f, alpha, st.0, st.1)
  {
    ApplyAllSnoc(env, reg, Entry(name, f), alpha, nodes, draws);
  }

  // ---------------------------------------------------------------------
  // init_nodes

  /** A node as the caller hands it over: position and velocity may be unset (None or NaN). */
  datatype RawNode = RawNode(
    x: Option<real>, y: Option<real>,
    vx: Option<real>, vy: Option<real>,
    fx: Option<real>, fy: Option<real>,
    fixed: bool,
    bounds: Option<BBox>)

  /** A node handed back: every field set. */
  function Raw(n: Node): RawNode {
    RawNode(Some(n.x), Some(n.y), Some(n.vx), Some(n.vy), n.fx, n.fy, n.fixed, n.bounds)
  }

  /** A coordinate once a free node's pin is applied: fx where set, otherwise the node's own x. */
  function PinX(raw: RawNode): Option<real> {
    if raw.fx.Some? && !raw.fixed then raw.fx else raw.x
  }

  function PinY(raw: RawNode): Option<real> {
    if raw.fy.Some? && !raw.fixed then raw.fy else raw.y
  }

  /** A free node that still lacks a coordinate after its pins; it is then placed on the spiral, on both axes. */
  predicate Unplaced(raw: RawNode) {
    !raw.fixed && (PinX(raw).None? || PinY(raw).None?)
  }

  /** The i-th point of the phyllotaxis spiral: radius initial_radius · √(0.5 + i), angle initial_angle · i. */
  function Spiral(env: Env, c: Config, i: nat): (r: (real, real))
    ensures ExactSqrt(env) && UnitCircle(env) ==> Sq(r.0) + Sq(r.1) == Sq(c.initialRadius) * (0.5 + i as real)
  {
    var radius := c.initialRadius * env.sqrt(0.5 + i as real);
    var angle := c.initialAngle * i as real;
    OnCircle(env, radius, angle);
    ScaledRoot(env, c.initialRadius, 0.5 + i as real);
    (radius * env.cos(angle), radius * env.sin(angle))
  }

  /** With a non-zero initial radius the spiral moves strictly outward, so no two nodes are placed on the same point. */
  lemma SpiralOutward(env: Env, c: Config, i: nat, j: nat)
    requires ExactSqrt(env) && UnitCircle(env) && c.initialRadius != 0.0 && i < j
    ensures var (p, q) := (Spiral(env, c, i), Spiral(env, c, j));
      Sq(p.0) + Sq(p.1) < Sq(q.0) + Sq(q.1)
  {
    SqPositive(c.initialRadius);
    assert Sq(c.initialRadius) * (0.5 + i as real) < Sq(c.initialRadius) * (0.5 + j as real);
  }

  /**
   * `init_nodes` for the node at position i: its index becomes i; a free
   * node takes fx and fy where set; a free node still without both
   * coordinates goes to the spiral (so a pin on one axis is overwritten
   * when the other coordinate is missing); an unset velocity component
   * zeroes both. A fixed node without a position keeps NaN coordinates.
   */
  function InitNode(env: Env, c: Config, raw: RawNode, i: nat): (r: Result<Node>)
    ensures r.Ok? ==> r.value.index == i && r.value.fixed == raw.fixed && r.value.bounds == raw.bounds
    ensures r.Ok? ==> r.value.fx == raw.fx && r.value.fy == raw.fy
    ensures r.Ok? && Unplaced(raw) ==> (r.value.x, r.value.y) == Spiral(env, c, i)
    ensures r.Ok? && !Unplaced(raw) ==> Some(r.value.x) == PinX(raw) && Some(r.value.y) == PinY(raw)
    ensures r.Ok? ==> if raw.vx.None? || raw.vy.None? then r.value.vx == 0.0 && r.value.vy == 0.0
                      else Some(r.value.vx) == raw.vx && Some(r.value.vy) == raw.vy
    ensures r.Err? <==> raw.fixed && (raw.x.None? || raw.y.None?)
  {
    var (x, y) := if Unplaced(raw) then Spiral(env, c, i) else (PinX(raw).GetOr(0.0), PinY(raw).GetOr(0.0));
    var (vx, vy) := if raw.vx.None? || raw.vy.None? then (0.0, 0.0) else (raw.vx.value, raw.vy.value);
    if !Unplaced(raw) && (PinX(raw).None? || PinY(raw).None?) then Err(NotANumber)
    else Ok(Node(x, y, vx, vy, raw.fx, raw.fy, i, raw.fixed, raw.bounds))
  }

  /** `init_nodes`. */
  function InitNodes(env: Env, c: Config, raws: seq<RawNode>): (r: Result<seq<Node>>)
    ensures r.Ok? ==> |r.value| == |raws| && forall i | 0 <= i < |raws| :: InitNode(env, c, raws[i], i) == Ok(r.value[i])
    ensures r.Ok? <==> forall i | 0 <= i < |raws| :: InitNode(env, c, raws[i], i).Ok?
  {
    if forall i | 0 <= i < |raws| :: InitNode(env, c, raws[i], i).Ok?
    then Ok(seq(|raws|, i requires 0 <= i < |raws| => InitNode(env, c, raws[i], i).value))
    else Err(NotANumber)
  }

  /** After `init_nodes`, the indices are exactly the positions 0, 1, …, n − 1, so they are distinct. */
  lemma InitNodesIndexes(env: Env, c: Config, raws: seq<RawNode>)
    requires InitNodes(env, c, raws).Ok?
    ensures forall i | 0 <= i < |raws| :: InitNodes(env, c, raws).value[i].index == i
  {
  }

  /** A node placed on the spiral while it carries a pin on one axis. */
  predicate HalfPinned(raw: RawNode) {
    Unplaced(raw) && (raw.fx.Some? || raw.fy.Some?)
  }

  /** Initialising the nodes a second time changes nothing, unless some node was half pinned. */
  lemma InitNodesIdempotent(env: Env, c: Config, raws: seq<RawNode>)
    requires InitNodes(env, c, raws).Ok?
    requires forall i | 0 <= i < |raws| :: !HalfPinned(raws[i])
    ensures var nodes := InitNodes(env, c, raws).value;
      InitNodes(env, c, seq(|nodes|, i requires 0 <= i < |nodes| => Raw(nodes[i]))) == Ok(nodes)
  {
    var nodes := InitNodes(env, c, raws).value;
    var again := seq(|nodes|, i requires 0 <= i < |nodes| => Raw(nodes[i]));
    forall i | 0 <= i < |nodes|
      ensures InitNode(env, c, again[i], i) == Ok(nodes[i])
    {
      assert InitNode(env, c, raws[i], i) == Ok(nodes[i]);
      assert !Unplaced(again[i]);
    }
    assert InitNodes(env, c, again).value == nodes;
  }

  /**
   * A free node pinned at fx = 0 with no y goes to the spiral at x = 10
   * (radius 10, cos 1), and a second `init_nodes` moves it to its pin.
   */
  lemma HalfPinnedMoves()
    ensures var env := Env(_ => 0.0, _ => 1.0, _ => 1.0, _ => 0.0);
      var c := Config(10.0, 0.0, AlphaMin, 0.0, AlphaTarget, VelocityDecay);
      var raw := RawNode(None, None, Some(0.0), Some(0.0), Some(0.0), None, false, None);
      && InitNodes(env, c, [raw]).Ok?
      && InitNodes(env, c, [raw]).value[0].x == 10.0
      && InitNodes(env, c, [Raw(InitNodes(env, c, [raw]).value[0])]).Ok?
      && InitNodes(env, c, [Raw(InitNodes(env, c, [raw]).value[0])]).value[0].x == 0.0
  {
    var env := Env(_ => 0.0, _ => 1.0, _ => 1.0, _ => 0.0);
    var c := Config(10.0, 0.0, AlphaMin, 0.0, AlphaTarget, VelocityDecay);
    var raw := RawNode(None, None, Some(0.0), Some(0.0), Some(0.0), None, false, None);
    assert Unplaced(raw);
    var n := InitNode(env, c, raw, 0).value;
    assert n.x == 10.0;
    assert !Unplaced(Raw(n));
  }

  // ---------------------------------------------------------------------
  // tick

  datatype State = State(nodes: seq<Node>, alpha: real, forces: seq<Entry<Force>>, draws: nat)

  /** `__enter__`: the nodes are initialised, then every force against them. */
  function Start(env: Env, c: Config, raws: seq<RawNode>, forces: seq<Entry<Force>>, alpha: real): (r: Result<State>)
    ensures r.Ok? ==> InitNodes(env, c, raws).Ok? && r.value.nodes == InitNodes(env, c, raws).value
    ensures r.Ok? ==> InitForces(forces, r.value.nodes) == Ok(r.value.forces) && r.value.alpha == alpha
  {
    var nodes :- InitNodes(env, c, raws);
    var fs :- InitForces(forces, nodes);
    Ok(State(nodes, alpha, fs, 0))
  }

  /** alpha += (alpha_target − alpha) · alpha_decay. */
  function Cool(c: Config, alpha: real): (a: real)
    ensures a - c.alphaTarget == (alpha - c.alphaTarget) * (1.0 - c.alphaDecay)
  {
    alpha + (c.alphaTarget - alpha) * c.alphaDecay
  }

  /**
   * The integration of one node after the forces: a fixed node is left
   * alone; on each axis a free node is either pinned to fx (with zero
   * velocity) or moved by its decayed velocity.
   */
  function Integrate(c: Config, n: Node): (r: Node)
    ensures n.fixed ==> r == n
    ensures !n.fixed && n.fx.Some? ==> r.x == n.fx.value && r.vx == 0.0
    ensures !n.fixed && n.fx.None? ==> r.vx == n.vx * c.velocityDecay && r.x == n.x + r.vx
    ensures !n.fixed && n.fy.Some? ==> r.y == n.fy.value && r.vy == 0.0
    ensures !n.fixed && n.fy.None? ==> r.vy == n.vy * c.velocityDecay && r.y == n.y + r.vy
    ensures r == n.(x := r.x, y := r.y, vx := r.vx, vy := r.vy)
  {
    if n.fixed then n
    else
      var (x, vx) := if n.fx.None? then (n.x + n.vx * c.velocityDecay, n.vx * c.velocityDecay) else (n.fx.value, 0.0);
      var (y, vy) := if n.fy.None? then (n.y + n.vy * c.velocityDecay, n.vy * c.velocityDecay) else (n.fy.value, 0.0);
      n.(x := x, y := y, vx := vx, vy := vy)
  }

  /** One iteration of `tick`: cool alpha, run every force with the new alpha, integrate every node. */
  function Step(env: Env, c: Config, s: State): (r: Result<State>)
    ensures r.Ok? ==> |r.value.nodes| == |s.nodes| && r.value.forces == s.forces && r.value.alpha == Cool(c, s.alpha)
  {
    var alpha := Cool(c, s.alpha);
    var st :- ApplyAll(env, s.forces, alpha, s.nodes, s.draws);
    var nodes := seq(|st.0|, i requires 0 <= i < |st.0| => Integrate(c, st.0[i]));
    Ok(State(nodes, alpha, s.forces, st.1))
  }

  /**
   * After a step a fixed node is exactly as it was, and a free node pinned
   * on an axis sits at its pin with no velocity there: the forces only
   * change free velocities and integration overrides pinned axes.
   */
  lemma StepFrame(env: Env, c: Config, s: State)
    requires Step(env, c, s).Ok?
    ensures var after := Step(env, c, s).value.nodes;
      forall i | 0 <= i < |s.nodes| ::
        && (s.nodes[i].fixed ==> after[i] == s.nodes[i])
        && (!s.nodes[i].fixed && s.nodes[i].fx.Some? ==> after[i].x == s.nodes[i].fx.value && after[i].vx == 0.0)
        && (!s.nodes[i].fixed && s.nodes[i].fy.Some? ==> after[i].y == s.nodes[i].fy.value && after[i].vy == 0.0)
        && after[i].index == s.nodes[i].index && after[i].fixed == s.nodes[i].fixed
  {
    var st := ApplyAll(env, s.forces, Cool(c, s.alpha), s.nodes, s.draws).value;
    forall i | 0 <= i < |s.nodes|
      ensures Moved(s.nodes[i], st.0[i])
    {
    }
  }

  /** A step repeated `k` times, stopping at the first failure. */
  function Iterate(step: State -> Result<State>, s: State, k: nat): Result<State>
    decreases k
  {
    if k == 0 then Ok(s)
    else
      var s1 :- step(s);
      Iterate(step, s1, k - 1)
  }

  /**
   * `tick(iterations)`. Fixed nodes keep every field through any number
   * of iterations, and the gap between alpha and its target shrinks by
   * the factor (1 − alpha_decay) per iteration.
   */
  function Tick(env: Env, c: Config, s: State, iterations: nat): (r: Result<State>)
    ensures r.Ok? ==> KeepsFixed(s, r.value)
    ensures r.Ok? ==> r.value.alpha - c.alphaTarget == Shrunk(s.alpha - c.alphaTarget, 1.0 - c.alphaDecay, iterations)
  {
    var r := Iterate(t => Step(env, c, t), s, iterations);
    if r.Ok? then
      StepsKeepFixed(env, c);
      IterateKeepsFixed(t => Step(env, c, t), s, iterations);
      IterateAlpha(t => Step(env, c, t), c, s, iterations);
      r
    else r
  }

  function Pow(b: real, k: nat): real {
    if k == 0 then 1.0 else b * Pow(b, k - 1)
  }

  /** A gap g after k shrinks by the factor q. */
  function Shrunk(g: real, q: real, k: nat): real {
    g * Pow(q, k)
  }

  lemma ShrunkStep(g: real, q: real, k: nat)
    ensures Shrunk(g * q, q, k) == Shrunk(g, q, k + 1)
  {
    calc {
      Shrunk(g * q, q, k);
      (g * q) * Pow(q, k);
      g * (q * Pow(q, k));
      Shrunk(g, q, k + 1);
    }
  }

  /** Repeating a step that cools alpha shrinks the gap to the target geometrically. */
  lemma {:induction false} IterateAlpha(step: State -> Result<State>, c: Config, s: State, k: nat)
    requires forall t :: step(t).Ok? ==> step(t).value.alpha == Cool(c, t.alpha)
    requires Iterate(step, s, k).Ok?
    ensures Iterate(step, s, k).value.alpha - c.alphaTarget == Shrunk(s.alpha - c.alphaTarget, 1.0 - c.alphaDecay, k)
    decreases k
  {
    if k > 0 {
      var s1 := step(s).value;
      IterateAlpha(step, c, s1, k - 1);
      ShrunkStep(s.alpha - c.alphaTarget, 1.0 - c.alphaDecay, k - 1);
    }
  }

  /** What a step keeps: the number of nodes, and every fixed node as it is. */
  predicate KeepsFixed(a: State, b: State) {
    && |b.nodes| == |a.nodes|
    && forall i | 0 <= i < |a.nodes| && a.nodes[i].fixed :: b.nodes[i] == a.nodes[i]
  }

  /** Repeating a step that keeps fixed nodes keeps them. */
  lemma {:induction false} IterateKeepsFixed(step: State -> Result<State>, s: State, k: nat)
    requires forall t :: step(t).Ok? ==> KeepsFixed(t, step(t).value)
    requires Iterate(step, s, k).Ok?
    ensures KeepsFixed(s, Iterate(step, s, k).value)
    decreases k
  {
    if k > 0 {
      var s1 := step(s).value;
      IterateKeepsFixed(step, s1, k - 1);
    }
  }

  /** Every step keeps the fixed nodes. */
  lemma StepsKeepFixed(env: Env, c: Config)
    ensures forall t | Step(env, c, t).Ok? :: KeepsFixed(t, Step(env, c, t).value)
  {
    forall t | Step(env, c, t).Ok?
      ensures KeepsFixed(t, Step(env, c, t).value)
    {
      StepFrame(env, c, t);
    }
  }

  // ---------------------------------------------------------------------
  // find

  function Dist2(n: Node, x: real, y: real): real {
    Sq(x - n.x) + Sq(y - n.y)
  }

  /** Below the search bound, where no bound (`None`) is infinity. */
  predicate Under(d: real, bound: Option<real>) {
    bound.None? || d < bound.value
  }

  /**
   * `find(x, y, radius)`: the position of the first node of least squared
   * distance strictly below radius² (any distance when the radius is
   * unset), or None when no node is that close.
   */
  method Find(nodes: seq<Node>, x: real, y: real, radius: Option<real>) returns (closest: Option<nat>)
    ensures var bound := if radius.None? then None else Some(Sq(radius.value));
      && (closest.None? <==> forall j | 0 <= j < |nodes| :: !Under(Dist2(nodes[j], x, y), bound))
      && (closest.Some? ==>
            && closest.value < |nodes|
            && Under(Dist2(nodes[closest.value], x, y), bound)
            && (forall j | 0 <= j < |nodes| :: Dist2(nodes[closest.value], x, y) <= Dist2(nodes[j], x, y))
            && (forall j | 0 <= j < closest.value :: Dist2(nodes[closest.value], x, y) < Dist2(nodes[j], x, y)))
  {
    var bound0 := if radius.None? then None else Some(Sq(radius.value));
    var bound := bound0;
    closest := None;
    var i := 0;
    while i < |nodes|
      invariant 0 <= i <= |nodes|
      invariant closest.None? ==> bound == bound0 && forall j | 0 <= j < i :: !Under(Dist2(nodes[j], x, y), bound0)
      invariant closest.Some? ==>
        && closest.value < i
        && bound == Some(Dist2(nodes[closest.value], x, y))
        && Under(Dist2(nodes[closest.value], x, y), bound0)
        && (forall j | 0 <= j < i :: Dist2(nodes[closest.value], x, y) <= Dist2(nodes[j], x, y))
        && (forall j | 0 <= j < closest.value :: Dist2(nodes[closest.value], x, y) < Dist2(nodes[j], x, y))
    {
      var d2 := Dist2(nodes[i], x, y);
      if Under(d2, bound) {
        closest := Some(i);
        bound := Some(d2);
      }
      i := i + 1;
    }
  }
}
