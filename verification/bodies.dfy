/**
 * Node lists as the forces see them: the points a force indexes, the
 * parameter tables it reads by node index, and the frame every force
 * keeps (only velocities of free nodes change).
 */
module Bodies {
  import opened Wrappers
  import opened Points
  import opened QuadTree

  /** The points `QuadTree.from_points(nodes)` stores: each node's position and its slot in the list. */
  function NodePoints(nodes: seq<Node>): (ps: seq<Pt>)
    ensures |ps| == |nodes|
    ensures forall i | 0 <= i < |nodes| :: ps[i] == Pt(nodes[i].x, nodes[i].y, i)
  {
    seq(|nodes|, i requires 0 <= i < |nodes| => Pt(nodes[i].x, nodes[i].y, i))
  }

  /**
   * A per-node parameter read through a stored point: `table[point.index]`.
   * The index is the node's own `index` field; one past the table is
   * Python's IndexError.
   */
  function Lookup(nodes: seq<Node>, table: seq<real>, p: Pt): (r: Result<real>)
    ensures r.Ok? <==> p.ref < |nodes| && nodes[p.ref].index < |table|
    ensures r.Ok? ==> r.value == table[nodes[p.ref].index]
  {
    if p.ref >= |nodes| then Err(OutOfRange(p.ref))
    else if nodes[p.ref].index >= |table| then Err(OutOfRange(nodes[p.ref].index))
    else Ok(table[nodes[p.ref].index])
  }

  /** A lookup reads only a node's index, which no force changes. */
  lemma LookupFrame(a: seq<Node>, b: seq<Node>, table: seq<real>, p: Pt)
    requires OnlyVelocities(a, b)
    ensures Lookup(a, table, p) == Lookup(b, table, p)
  {
    if p.ref < |a| {
      assert Moved(a[p.ref], b[p.ref]);
    }
  }

  /** `b` is `a` with at most its velocity changed, and a fixed node is not changed at all. */
  predicate Moved(a: Node, b: Node) {
    && b == a.(vx := b.vx, vy := b.vy)
    && (a.fixed ==> b == a)
  }

  /** The frame of every force: same nodes, same positions, only free nodes' velocities changed. */
  predicate OnlyVelocities(a: seq<Node>, b: seq<Node>) {
    |a| == |b| && forall i | 0 <= i < |a| :: Moved(a[i], b[i])
  }

  lemma OnlyVelocitiesTrans(a: seq<Node>, b: seq<Node>, c: seq<Node>)
    requires OnlyVelocities(a, b) && OnlyVelocities(b, c)
    ensures OnlyVelocities(a, c)
  {
    forall i | 0 <= i < |a|
      ensures Moved(a[i], c[i])
    {
      assert Moved(a[i], b[i]) && Moved(b[i], c[i]);
    }
  }

  /** A force that keeps the frame stores the same points, so a tree built before it is built after it too. */
  lemma FramePreservesPoints(a: seq<Node>, b: seq<Node>)
    requires OnlyVelocities(a, b)
    ensures NodePoints(a) == NodePoints(b)
  {
    forall i | 0 <= i < |a|
      ensures NodePoints(a)[i] == NodePoints(b)[i]
    {
      assert Moved(a[i], b[i]);
    }
  }

  /** Velocity `(vx, vy)` added to node `i` unless it is fixed; nothing else changes. */
  function Push(nodes: seq<Node>, i: nat, dvx: real, dvy: real): (r: seq<Node>)
    requires i < |nodes|
    ensures OnlyVelocities(nodes, r)
    ensures !nodes[i].fixed ==> r[i].vx == nodes[i].vx + dvx && r[i].vy == nodes[i].vy + dvy
    ensures forall j | 0 <= j < |nodes| && (j != i || nodes[i].fixed) :: r[j] == nodes[j]
  {
    if nodes[i].fixed then nodes
    else nodes[i := nodes[i].(vx := nodes[i].vx + dvx, vy := nodes[i].vy + dvy)]
  }

  /**
   * The last of the first `m` nodes that `want` accepts: the entry a dict
   * comprehension over the node list keeps when several nodes share a key.
   */
  function Last(nodes: seq<Node>, want: Node -> bool, m: nat): (r: Option<nat>)
    requires m <= |nodes|
    ensures r.Some? ==> r.value < m && want(nodes[r.value])
    ensures r.Some? ==> forall j | r.value < j < m :: !want(nodes[j])
    ensures r.None? ==> forall j | 0 <= j < m :: !want(nodes[j])
  {
    if m == 0 then None
    else if want(nodes[m - 1]) then Some(m - 1)
    else Last(nodes, want, m - 1)
  }
}
