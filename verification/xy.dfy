/**
 * The positional forces of layouts/xy.py: `XForceLayout` pulls each free
 * node's x toward a target through vx, `YForceLayout` does the same on y
 * and vy. One definition serves both, parameterised by the axis.
 */
module Positional {
  import opened Wrappers
  import opened Points
  import opened Bodies

  datatype Axis = Horizontal | Vertical

  /** What `initialize` stores for one node: its target (None when null) and its strength. */
  datatype Goal = Goal(target: Option<real>, strength: real)

  /** The default target `Fn(0.0)` and strength `Fn(0.1)`. */
  const DefaultTarget := 0.0
  const DefaultStrength := 0.1

  /** A node's position and velocity along an axis. */
  function Pos(axis: Axis, n: Node): real {
    match axis
    case Horizontal => n.x
    case Vertical => n.y
  }

  function Vel(axis: Axis, n: Node): real {
    match axis
    case Horizontal => n.vx
    case Vertical => n.vy
  }

  /**
   * `initialize`: node i's target is target(node, i, nodes), and its
   * strength is 0 when that target is null and strength(node, i, nodes)
   * otherwise.
   */
  function Initialize(nodes: seq<Node>, target: (Node, nat, seq<Node>) -> Option<real>,
                      strength: (Node, nat, seq<Node>) -> real): (goals: seq<Goal>)
    ensures |goals| == |nodes|
    ensures forall i | 0 <= i < |nodes| ::
      && goals[i].target == target(nodes[i], i, nodes)
      && goals[i].strength == if goals[i].target.None? then 0.0 else strength(nodes[i], i, nodes)
  {
    seq(|nodes|, i requires 0 <= i < |nodes| =>
      var t := target(nodes[i], i, nodes);
      Goal(t, if t.None? then 0.0 else strength(nodes[i], i, nodes)))
  }

  /** The velocity change the force gives a node at `p` toward `g`. */
  function Drift(g: real, p: real, s: real, alpha: real): real {
    (g - p) * s * alpha
  }

  /**
   * One iteration of `force`'s loop. A fixed node is skipped; a free node
   * whose target is null would get a NaN velocity, and one past the tables
   * is an IndexError.
   */
  function Step(axis: Axis, goals: seq<Goal>, alpha: real, n: Node, i: nat): (r: Result<Node>)
    ensures r.Ok? ==> Moved(n, r.value)
    ensures r.Ok? <==> n.fixed || (i < |goals| && goals[i].target.Some?)
  {
    if n.fixed then Ok(n)
    else if i >= |goals| then Err(OutOfRange(i))
    else
      match goals[i].target
      case None => Err(NotANumber)
      case Some(g) =>
        var dv := Drift(g, Pos(axis, n), goals[i].strength, alpha);
        match axis
        case Horizontal => Ok(n.(vx := n.vx + dv))
        case Vertical => Ok(n.(vy := n.vy + dv))
  }

  /** `force(alpha)` over the first `m` nodes. */
  function Sweep(axis: Axis, goals: seq<Goal>, alpha: real, nodes: seq<Node>, m: nat): (r: Result<seq<Node>>)
    requires m <= |nodes|
    ensures r.Ok? ==> OnlyVelocities(nodes, r.value)
    ensures r.Ok? ==> r.value[m..] == nodes[m..]
  {
    if m == 0 then Ok(nodes)
    else
      var a :- Sweep(axis, goals, alpha, nodes, m - 1);
      var n :- Step(axis, goals, alpha, a[m - 1], m - 1);
      assert a[m - 1] == nodes[m - 1] by { assert a[m - 1..][0] == nodes[m - 1..][0]; }
      var b := a[m - 1 := n];
      assert OnlyVelocities(a, b);
      OnlyVelocitiesTrans(nodes, a, b);
      assert b[m..] == a[m..];
      Ok(b)
  }

  /** `force(alpha)`. */
  function Force(axis: Axis, goals: seq<Goal>, alpha: real, nodes: seq<Node>): (r: Result<seq<Node>>)
    ensures r.Ok? ==> OnlyVelocities(nodes, r.value)
  {
    Sweep(axis, goals, alpha, nodes, |nodes|)
  }

  /**
   * The whole effect of the force: it succeeds exactly when every free
   * node has a target, and then each free node's velocity along the axis
   * grows by (target − position) · strength · alpha, with nothing else of
   * any node changed.
   */
  lemma {:induction false} SweepExact(axis: Axis, goals: seq<Goal>, alpha: real, nodes: seq<Node>, m: nat)
    requires m <= |nodes|
    ensures Sweep(axis, goals, alpha, nodes, m).Ok? <==>
      forall i | 0 <= i < m :: nodes[i].fixed || (i < |goals| && goals[i].target.Some?)
    ensures Sweep(axis, goals, alpha, nodes, m).Ok? ==>
      forall i | 0 <= i < m :: Step(axis, goals, alpha, nodes[i], i) == Ok(Sweep(axis, goals, alpha, nodes, m).value[i])
  {
    if m > 0 {
      SweepExact(axis, goals, alpha, nodes, m - 1);
      var r := Sweep(axis, goals, alpha, nodes, m - 1);
      if r.Ok? {
        assert r.value[m - 1] == nodes[m - 1] by { assert r.value[m - 1..][0] == nodes[m - 1..][0]; }
      }
    }
  }

  /** `SweepExact` for the whole list, spelled out per axis. */
  lemma ForceExact(axis: Axis, goals: seq<Goal>, alpha: real, nodes: seq<Node>)
    ensures Force(axis, goals, alpha, nodes).Ok? <==>
      forall i | 0 <= i < |nodes| :: nodes[i].fixed || (i < |goals| && goals[i].target.Some?)
    ensures Force(axis, goals, alpha, nodes).Ok? ==>
      var after := Force(axis, goals, alpha, nodes).value;
      forall i | 0 <= i < |nodes| ::
        if nodes[i].fixed then after[i] == nodes[i]
        else
          && Pos(axis, after[i]) == Pos(axis, nodes[i])
          && Vel(axis, after[i]) == Vel(axis, nodes[i]) + Drift(goals[i].target.value, Pos(axis, nodes[i]), goals[i].strength, alpha)
          && after[i] == match axis
                         case Horizontal => nodes[i].(vx := after[i].vx)
                         case Vertical => nodes[i].(vy := after[i].vy)
  {
    SweepExact(axis, goals, alpha, nodes, |nodes|);
  }

  /**
   * `initialize` followed by `force`: the force fails exactly when a free
   * node has no target read from the initialised list, and otherwise moves
   * each free node by (target − position) · strength · alpha with the
   * target and strength the callables gave that node at initialisation.
   */
  lemma {:induction false} InitializedForce(axis: Axis, init: seq<Node>, target: (Node, nat, seq<Node>) -> Option<real>,
                                            strength: (Node, nat, seq<Node>) -> real, alpha: real, nodes: seq<Node>)
    ensures var r := Force(axis, Initialize(init, target, strength), alpha, nodes);
      r.Ok? <==> forall i | 0 <= i < |nodes| :: nodes[i].fixed || (i < |init| && target(init[i], i, init).Some?)
    ensures var r := Force(axis, Initialize(init, target, strength), alpha, nodes);
      r.Ok? ==> forall i | 0 <= i < |nodes| && !nodes[i].fixed ::
        Vel(axis, r.value[i]) == Vel(axis, nodes[i])
          + Drift(target(init[i], i, init).value, Pos(axis, nodes[i]), strength(init[i], i, init), alpha)
  {
    ForceExact(axis, Initialize(init, target, strength), alpha, nodes);
  }

  /** The X force and the Y force touch different velocities, so they give the same result in either order. */
  lemma XYCommute(gx: seq<Goal>, gy: seq<Goal>, alpha: real, nodes: seq<Node>)
    requires Force(Horizontal, gx, alpha, nodes).Ok? && Force(Vertical, gy, alpha, nodes).Ok?
    ensures Force(Vertical, gy, alpha, Force(Horizontal, gx, alpha, nodes).value).Ok?
    ensures Force(Horizontal, gx, alpha, Force(Vertical, gy, alpha, nodes).value).Ok?
    ensures Force(Vertical, gy, alpha, Force(Horizontal, gx, alpha, nodes).value)
         == Force(Horizontal, gx, alpha, Force(Vertical, gy, alpha, nodes).value)
  {
    var ax := Force(Horizontal, gx, alpha, nodes).value;
    var ay := Force(Vertical, gy, alpha, nodes).value;
    ForceExact(Horizontal, gx, alpha, nodes);
    ForceExact(Vertical, gy, alpha, nodes);
    assert forall i | 0 <= i < |nodes| :: ax[i].fixed == nodes[i].fixed && ay[i].fixed == nodes[i].fixed;
    ForceExact(Vertical, gy, alpha, ax);
    ForceExact(Horizontal, gx, alpha, ay);
    var xy := Force(Vertical, gy, alpha, ax).value;
    var yx := Force(Horizontal, gx, alpha, ay).value;
    forall i | 0 <= i < |nodes|
      ensures xy[i] == yx[i]
    {
    }
    assert xy == yx;
  }
}
