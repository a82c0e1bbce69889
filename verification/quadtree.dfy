/**
 * The adaptive quadtree of quadtree.py: nodes, insertion with a capacity
 * of four points per leaf, and subdivision into four half-size children.
 *
 * Trees are values. `Tree<D>` carries an annotation `data` of type D:
 * trees are built with the unit annotation `()`, and the forces derive
 * annotated copies (the many-body value, the collision radius).
 */
module QuadTree {
  import opened Quadrants

  /** A point stored in the index: its position and the slot of the simulated node it stands for. */
  datatype Pt = Pt(x: real, y: real, ref: nat)

  /**
   * A quadrant node: rectangle, recursion level, the points it holds
   * directly, and either no children or the four children NW, NE, SW, SE.
   */
  datatype Tree<D> = Tree(
    x: real, y: real, width: real, height: real,
    level: int,
    points: seq<Pt>,
    kids: Kids<D>,
    data: D)

  datatype Kids<D> = NoKids | Four(nw: Tree<D>, ne: Tree<D>, sw: Tree<D>, se: Tree<D>)

  /** A tree as built by insertion, before any force annotates it. */
  type Quad = Tree<()>

  function Rect<D>(t: Tree<D>): Quadrant {
    Quadrant(t.x, t.y, t.width, t.height)
  }

  /** `QuadTreeNode.contains`: half-open containment of a point in the node's rectangle. */
  predicate Holds<D>(t: Tree<D>, p: Pt) {
    Contains(Rect(t), p.x, p.y)
  }

  /** `QuadTreeNode.is_leaf`. */
  predicate IsLeaf<D>(t: Tree<D>) {
    t.kids.NoKids?
  }

  /** A fresh node, as `QuadTreeNode(x, y, width, height)` creates it (level 0, no points, no children). */
  function Fresh(x: real, y: real, width: real, height: real): Quad {
    Tree(x, y, width, height, 0, [], NoKids, ())
  }

  /** Every point stored at or below `t`, the node's own first, then the children's in NW, NE, SW, SE order. */
  function Items<D>(t: Tree<D>): seq<Pt> {
    t.points +
    match t.kids
    case NoKids => []
    case Four(a, b, c, d) => Items(a) + Items(b) + Items(c) + Items(d)
  }

  /** The points of `ps` that the rectangle `q` contains, in order. */
  function Within(q: Quadrant, ps: seq<Pt>): (r: seq<Pt>)
    ensures forall p | p in r :: p in ps && Contains(q, p.x, p.y)
    ensures |r| <= |ps|
  {
    if ps == [] then []
    else (if Contains(q, ps[0].x, ps[0].y) then [ps[0]] else []) + Within(q, ps[1..])
  }

  // ---------------------------------------------------------------------
  // Geometry of the children

  /** The rectangle of the child in column `col` and row `row` (0 or 1) of `t`. */
  function Tile<D>(t: Tree<D>, col: nat, row: nat): Quadrant
    requires col <= 1 && row <= 1
  {
    var hw := t.width / 2.0;
    var hh := t.height / 2.0;
    Quadrant(t.x + (if col == 1 then hw else 0.0), t.y + (if row == 1 then hh else 0.0), hw, hh)
  }

  /**
   * The children of every internal node are exactly its four half-size
   * tiles, in NW, NE, SW, SE order. Every tree the index builds has this
   * shape.
   */
  predicate Tiled<D>(t: Tree<D>) {
    match t.kids
    case NoKids => true
    case Four(a, b, c, d) =>
      && Rect(a) == Tile(t, 0, 0) && Rect(b) == Tile(t, 1, 0)
      && Rect(c) == Tile(t, 0, 1) && Rect(d) == Tile(t, 1, 1)
      && Tiled(a) && Tiled(b) && Tiled(c) && Tiled(d)
  }

  /** Every point stored at or below a node lies in that node's rectangle, at every node. */
  predicate Sound<D>(t: Tree<D>) {
    && (forall p | p in Items(t) :: Holds(t, p))
    && match t.kids
       case NoKids => true
       case Four(a, b, c, d) => Sound(a) && Sound(b) && Sound(c) && Sound(d)
  }

  /**
   * The capacity rule: a leaf wider and taller than one unit holds at most
   * four points, and an internal node holds no points and is wider and
   * taller than one unit.
   */
  predicate Capacity<D>(t: Tree<D>) {
    && (IsLeaf(t) && t.width > 1.0 && t.height > 1.0 ==> |t.points| <= 4)
    && (!IsLeaf(t) ==> t.points == [] && t.width > 1.0 && t.height > 1.0)
    && match t.kids
       case NoKids => true
       case Four(a, b, c, d) => Capacity(a) && Capacity(b) && Capacity(c) && Capacity(d)
  }

  /** Every node strictly below `t` has level 1: `subdivide` increments the class default 0 of each fresh child. */
  predicate KidLevels<D>(t: Tree<D>) {
    match t.kids
    case NoKids => true
    case Four(a, b, c, d) =>
      && a.level == 1 && b.level == 1 && c.level == 1 && d.level == 1
      && KidLevels(a) && KidLevels(b) && KidLevels(c) && KidLevels(d)
  }

  /** A point of the parent lies in exactly one of the four tiles; a point outside it lies in none. */
  lemma TileOfPoint<D>(t: Tree<D>, px: real, py: real)
    ensures Contains(Rect(t), px, py) <==>
      Contains(Tile(t, 0, 0), px, py) || Contains(Tile(t, 1, 0), px, py) ||
      Contains(Tile(t, 0, 1), px, py) || Contains(Tile(t, 1, 1), px, py)
    ensures !(Contains(Tile(t, 0, 0), px, py) && Contains(Tile(t, 1, 0), px, py))
    ensures !(Contains(Tile(t, 0, 0), px, py) && Contains(Tile(t, 0, 1), px, py))
    ensures !(Contains(Tile(t, 0, 0), px, py) && Contains(Tile(t, 1, 1), px, py))
    ensures !(Contains(Tile(t, 1, 0), px, py) && Contains(Tile(t, 0, 1), px, py))
    ensures !(Contains(Tile(t, 1, 0), px, py) && Contains(Tile(t, 1, 1), px, py))
    ensures !(Contains(Tile(t, 0, 1), px, py) && Contains(Tile(t, 1, 1), px, py))
  {
  }

  /** The four tiles split the parent's points without loss or duplication. */
  lemma TilesPartition<D>(t: Tree<D>, ps: seq<Pt>)
    ensures multiset(Within(Tile(t, 0, 0), ps)) + multiset(Within(Tile(t, 1, 0), ps))
          + multiset(Within(Tile(t, 0, 1), ps)) + multiset(Within(Tile(t, 1, 1), ps))
         == multiset(Within(Rect(t), ps))
  {
    var q0, q1, q2, q3 := Tile(t, 0, 0), Tile(t, 1, 0), Tile(t, 0, 1), Tile(t, 1, 1);
    forall p | p in ps
      ensures One(q0, p) + One(q1, p) + One(q2, p) + One(q3, p) == One(Rect(t), p)
    {
      TileOfPoint(t, p.x, p.y);
    }
    Partition(q0, q1, q2, q3, Rect(t), ps);
  }

  /** Four quadrants that split every point of `ps` as `r` does split `ps` as `r` does. */
  lemma {:induction false} Partition(q0: Quadrant, q1: Quadrant, q2: Quadrant, q3: Quadrant, r: Quadrant, ps: seq<Pt>)
    requires forall p | p in ps :: One(q0, p) + One(q1, p) + One(q2, p) + One(q3, p) == One(r, p)
    ensures multiset(Within(q0, ps)) + multiset(Within(q1, ps)) + multiset(Within(q2, ps)) + multiset(Within(q3, ps))
         == multiset(Within(r, ps))
  {
    if ps != [] {
      var p, rest := ps[0], ps[1..];
      Partition(q0, q1, q2, q3, r, rest);
      WithinCons(q0, ps);
      WithinCons(q1, ps);
      WithinCons(q2, ps);
      WithinCons(q3, ps);
      WithinCons(r, ps);
      BagSum(multiset{}, multiset(Within(q0, rest)), multiset(Within(q1, rest)),
             multiset(Within(q2, rest)), multiset(Within(q3, rest)),
             One(q0, p), One(q1, p), One(q2, p), One(q3, p),
             multiset(Within(q0, ps)), multiset(Within(q1, ps)), multiset(Within(q2, ps)), multiset(Within(q3, ps)),
             One(r, p));
    }
  }

  /** `p` as a bag when `q` contains it, and the empty bag otherwise. */
  function One(q: Quadrant, p: Pt): multiset<Pt> {
    if Contains(q, p.x, p.y) then multiset{p} else multiset{}
  }

  lemma WithinCons(q: Quadrant, ps: seq<Pt>)
    requires ps != []
    ensures multiset(Within(q, ps)) == multiset(Within(q, ps[1..])) + One(q, ps[0])
  {
  }

  // ---------------------------------------------------------------------
  // Termination measure: how many halvings a node can still take

  /** Zero for a node that can no longer split (a side of at most one unit), else the floor of its width. */
  function Rank<D>(t: Tree<D>): nat {
    if t.width <= 1.0 || t.height <= 1.0 then 0 else t.width.Floor as nat
  }

  function KidsRank<D>(k: Kids<D>): nat {
    match k
    case NoKids => 0
    case Four(a, b, c, d) =>
      var m1 := if Rank(a) >= Rank(b) then Rank(a) else Rank(b);
      var m2 := if Rank(c) >= Rank(d) then Rank(c) else Rank(d);
      if m1 >= m2 then m1 else m2
  }

  /** The rank of a half-size tile is below its parent's, or zero when the parent's already is. */
  lemma TileRank<D, E>(t: Tree<D>, c: Tree<E>, col: nat, row: nat)
    requires col <= 1 && row <= 1
    requires Rect(c) == Tile(t, col, row)
    ensures Rank(t) == 0 ==> Rank(c) == 0
    ensures Rank(t) > 0 ==> Rank(c) < Rank(t)
  {
    if Rank(t) > 0 && Rank(c) > 0 {
      var w := t.width;
      assert c.width == w / 2.0;
      assert w.Floor as real <= w < w.Floor as real + 1.0;
      assert (w / 2.0).Floor as real <= w / 2.0;
    }
  }

  lemma KidsRankBelow<D>(t: Tree<D>)
    requires Tiled(t) && t.kids.Four?
    ensures Rank(t) > 0 ==> KidsRank(t.kids) < Rank(t)
    ensures Rank(t) == 0 ==> KidsRank(t.kids) == 0
  {
    TileRank(t, t.kids.nw, 0, 0);
    TileRank(t, t.kids.ne, 1, 0);
    TileRank(t, t.kids.sw, 0, 1);
    TileRank(t, t.kids.se, 1, 1);
  }

  function SubRank(t: Quad): nat {
    if Rank(t) == 0 then 2 else 2 * Rank(t)
  }

  // ---------------------------------------------------------------------
  // Insertion

  predicate KidsTiled<D>(k: Kids<D>) {
    match k
    case NoKids => true
    case Four(a, b, c, d) => Tiled(a) && Tiled(b) && Tiled(c) && Tiled(d)
  }

  /** Same shape, and each child keeps its rectangle and level. */
  predicate SameRects<D>(o: Kids<D>, n: Kids<D>) {
    match o
    case NoKids => n.NoKids?
    case Four(a, b, c, d) =>
      && n.Four?
      && Rect(n.nw) == Rect(a) && Rect(n.ne) == Rect(b) && Rect(n.sw) == Rect(c) && Rect(n.se) == Rect(d)
      && n.nw.level == a.level && n.ne.level == b.level && n.sw.level == c.level && n.se.level == d.level
  }

  /**
   * `QuadTreeNode.insert`. A point outside the node is refused and nothing
   * changes. Otherwise the point is appended when the node is a leaf with
   * fewer than four points or has a side of at most one unit; else the
   * node subdivides (if it has no children yet) and the point goes to the
   * children. The status reports whether the point was stored, which is
   * exactly whether the node contains it.
   */
  function Insert(t: Quad, p: Pt): (res: (Quad, bool))
    requires Tiled(t)
    ensures res.1 == Holds(t, p)
    ensures !res.1 ==> res.0 == t
    ensures Rect(res.0) == Rect(t) && res.0.level == t.level && Tiled(res.0)
    decreases 2 * Rank(t) + 1, 0
  {
    if !Holds(t, p) then (t, false)
    else if (IsLeaf(t) && |t.points| < 4) || t.width <= 1.0 || t.height <= 1.0 then
      (t.(points := t.points + [p]), true)
    else
      var s := if IsLeaf(t) then Subdivide(t) else t;
      KidsRankBelow(s);
      TileOfPoint(s, p.x, p.y);
      var (k, ok) := InsertKids(s.kids, p);
      (s.(kids := k), ok)
  }

  /** Insert into every child (only the one containing the point accepts it); the status is their disjunction. */
  function InsertKids(k: Kids<()>, p: Pt): (res: (Kids<()>, bool))
    requires KidsTiled(k)
    ensures SameRects(k, res.0) && KidsTiled(res.0)
    ensures res.1 <==> k.Four? && (Holds(k.nw, p) || Holds(k.ne, p) || Holds(k.sw, p) || Holds(k.se, p))
    decreases 2 * KidsRank(k) + 1, 1
  {
    match k
    case NoKids => (NoKids, false)
    case Four(a, b, c, d) =>
      var (a', sa) := Insert(a, p);
      var (b', sb) := Insert(b, p);
      var (c', sc) := Insert(c, p);
      var (d', sd) := Insert(d, p);
      (Four(a', b', c', d'), sa || sb || sc || sd)
  }

  /** The redistribution loop of `subdivide`: each point, in order, offered to every child. */
  function Reinsert(k: Kids<()>, ps: seq<Pt>): (r: Kids<()>)
    requires KidsTiled(k)
    ensures SameRects(k, r) && KidsTiled(r)
    decreases 2 * KidsRank(k) + 1, 2 + |ps|
  {
    if ps == [] then k
    else
      var k' := InsertKids(k, ps[0]).0;
      assert KidsRank(k') == KidsRank(k);
      Reinsert(k', ps[1..])
  }

  /** The four blank level-1 children `subdivide` creates. */
  function BlankKids(t: Quad): (k: Kids<()>)
    ensures k.Four?
  {
    var hw := t.width / 2.0;
    var hh := t.height / 2.0;
    Four(
      Fresh(t.x, t.y, hw, hh).(level := 1),
      Fresh(t.x + hw, t.y, hw, hh).(level := 1),
      Fresh(t.x, t.y + hh, hw, hh).(level := 1),
      Fresh(t.x + hw, t.y + hh, hw, hh).(level := 1))
  }

  /**
   * `QuadTreeNode.subdivide`: four fresh half-size children NW, NE, SW, SE
   * of level 1 that tile the node; every point the node held is reinserted
   * into the child containing it, and the node keeps no points. Children it
   * had before are replaced.
   */
  function Subdivide(t: Quad): (r: Quad)
    ensures Rect(r) == Rect(t) && r.level == t.level
    ensures r.points == [] && r.kids.Four? && Tiled(r)
    decreases SubRank(t), 0
  {
    KidsRankBelow(t.(kids := BlankKids(t)));
    t.(points := [], kids := Reinsert(BlankKids(t), t.points))
  }

  // ---------------------------------------------------------------------
  // What insertion stores: contents and soundness

  /** `n` holds what `o` held plus the points of `ps` inside `o`. */
  predicate Added(o: Quad, n: Quad, ps: seq<Pt>) {
    multiset(Items(n)) == multiset(Items(o)) + multiset(Within(Rect(o), ps))
  }

  predicate KidsSound(k: Kids<()>) {
    match k
    case NoKids => true
    case Four(a, b, c, d) => Sound(a) && Sound(b) && Sound(c) && Sound(d)
  }

  predicate KidsAdded(o: Kids<()>, n: Kids<()>, ps: seq<Pt>) {
    match o
    case NoKids => n.NoKids?
    case Four(a, b, c, d) =>
      n.Four? && Added(a, n.nw, ps) && Added(b, n.ne, ps) && Added(c, n.sw, ps) && Added(d, n.se, ps)
  }

  /**
   * Inserting into a sound tree stores the point exactly once when the node
   * contains it and nothing otherwise, keeps every earlier point, and keeps
   * every node's points inside its rectangle.
   */
  lemma {:induction false} InsertStores(t: Quad, p: Pt)
    requires Tiled(t) && Sound(t)
    ensures Added(t, Insert(t, p).0, [p]) && Sound(Insert(t, p).0)
    decreases 2 * Rank(t) + 1, 0
  {
    if !Holds(t, p) {
      MissStores(t, p);
    } else if (IsLeaf(t) && |t.points| < 4) || t.width <= 1.0 || t.height <= 1.0 {
      AppendStores(t, p);
    } else {
      var s := if IsLeaf(t) then Subdivide(t) else t;
      if IsLeaf(t) {
        SubdivideStores(t);
        LeafSplitKeeps(t, s);
      }
      KidsRankBelow(s);
      var k := InsertKids(s.kids, p).0;
      KidsStore(s.kids, p);
      assert Insert(t, p).0 == s.(kids := k);
      DescendStores(t, s, k, p);
    }
  }

  /** A point outside the node leaves it as it was. */
  lemma MissStores(t: Quad, p: Pt)
    requires Tiled(t) && Sound(t) && !Holds(t, p)
    ensures Added(t, Insert(t, p).0, [p]) && Sound(Insert(t, p).0)
  {
    assert Within(Rect(t), [p]) == [];
  }

  /** A point appended to the node's own list is stored once. */
  lemma AppendStores(t: Quad, p: Pt)
    requires Tiled(t) && Sound(t) && Holds(t, p)
    requires (IsLeaf(t) && |t.points| < 4) || t.width <= 1.0 || t.height <= 1.0
    ensures Added(t, Insert(t, p).0, [p]) && Sound(Insert(t, p).0)
  {
    assert Within(Rect(t), [p]) == [p];
    AppendKeepsSound(t, p);
  }

  lemma {:induction false} KidsStore(k: Kids<()>, p: Pt)
    requires KidsTiled(k) && KidsSound(k)
    ensures KidsAdded(k, InsertKids(k, p).0, [p]) && KidsSound(InsertKids(k, p).0)
    decreases 2 * KidsRank(k) + 1, 1
  {
    if k.Four? {
      InsertStores(k.nw, p);
      InsertStores(k.ne, p);
      InsertStores(k.sw, p);
      InsertStores(k.se, p);
    }
  }

  lemma {:induction false} ReinsertStores(k: Kids<()>, ps: seq<Pt>)
    requires KidsTiled(k) && KidsSound(k)
    ensures KidsAdded(k, Reinsert(k, ps), ps) && KidsSound(Reinsert(k, ps))
    decreases 2 * KidsRank(k) + 1, 2 + |ps|
  {
    if ps == [] {
      if k.Four? {
        assert Within(Rect(k.nw), ps) == [] && Within(Rect(k.ne), ps) == [];
        assert Within(Rect(k.sw), ps) == [] && Within(Rect(k.se), ps) == [];
      }
    } else {
      var k' := InsertKids(k, ps[0]).0;
      assert KidsRank(k') == KidsRank(k);
      KidsStore(k, ps[0]);
      ReinsertStores(k', ps[1..]);
      KidsAddedTrans(k, k', Reinsert(k', ps[1..]), ps);
    }
  }

  /**
   * After `subdivide` the node holds no points, and each point it held is
   * stored under the unique child containing it; points outside the node
   * are dropped.
   */
  lemma {:induction false} SubdivideStores(t: Quad)
    ensures var r := Subdivide(t);
      && multiset(Items(r.kids.nw)) == multiset(Within(Tile(t, 0, 0), t.points))
      && multiset(Items(r.kids.ne)) == multiset(Within(Tile(t, 1, 0), t.points))
      && multiset(Items(r.kids.sw)) == multiset(Within(Tile(t, 0, 1), t.points))
      && multiset(Items(r.kids.se)) == multiset(Within(Tile(t, 1, 1), t.points))
      && multiset(Items(r)) == multiset(Within(Rect(t), t.points))
      && Sound(r)
    decreases SubRank(t), 1
  {
    var b := BlankKids(t);
    KidsRankBelow(t.(kids := b));
    var r := Subdivide(t);
    assert r.kids == Reinsert(b, t.points);
    ReinsertStores(b, t.points);
    SubdivideParts(t, r);
    SoundFromParts(r);
  }

  /** The contents of a subdivided node, given what the redistribution stored in each blank child. */
  lemma SubdivideParts(t: Quad, r: Quad)
    requires r.points == [] && Rect(r) == Rect(t)
    requires KidsAdded(BlankKids(t), r.kids, t.points)
    ensures r.kids.Four?
    ensures && multiset(Items(r.kids.nw)) == multiset(Within(Tile(t, 0, 0), t.points))
            && multiset(Items(r.kids.ne)) == multiset(Within(Tile(t, 1, 0), t.points))
            && multiset(Items(r.kids.sw)) == multiset(Within(Tile(t, 0, 1), t.points))
            && multiset(Items(r.kids.se)) == multiset(Within(Tile(t, 1, 1), t.points))
    ensures multiset(Items(r)) == multiset(Within(Rect(t), t.points))
    ensures forall q | q in Items(r) :: Holds(r, q)
  {
    SubdivideKids(t, r.kids);
    SplitItemsHeld(t, r);
  }

  /** The blank children hold nothing and cover the four tiles of `t`. */
  lemma BlankTiles(t: Quad)
    ensures var b := BlankKids(t);
      && b.nw.points == [] && b.nw.kids.NoKids? && Rect(b.nw) == Tile(t, 0, 0)
      && b.ne.points == [] && b.ne.kids.NoKids? && Rect(b.ne) == Tile(t, 1, 0)
      && b.sw.points == [] && b.sw.kids.NoKids? && Rect(b.sw) == Tile(t, 0, 1)
      && b.se.points == [] && b.se.kids.NoKids? && Rect(b.se) == Tile(t, 1, 1)
  {
  }

  lemma SubdivideKids(t: Quad, k: Kids<()>)
    requires KidsAdded(BlankKids(t), k, t.points)
    ensures k.Four?
    ensures && multiset(Items(k.nw)) == multiset(Within(Tile(t, 0, 0), t.points))
            && multiset(Items(k.ne)) == multiset(Within(Tile(t, 1, 0), t.points))
            && multiset(Items(k.sw)) == multiset(Within(Tile(t, 0, 1), t.points))
            && multiset(Items(k.se)) == multiset(Within(Tile(t, 1, 1), t.points))
  {
    var b := BlankKids(t);
    BlankTiles(t);
    BlankAdded(t, b.nw, k.nw, 0, 0);
    BlankAdded(t, b.ne, k.ne, 1, 0);
    BlankAdded(t, b.sw, k.sw, 0, 1);
    BlankAdded(t, b.se, k.se, 1, 1);
  }

  lemma BlankAdded(t: Quad, o: Quad, n: Quad, col: nat, row: nat)
    requires col <= 1 && row <= 1
    requires o.points == [] && o.kids.NoKids? && Rect(o) == Tile(t, col, row)
    requires Added(o, n, t.points)
    ensures multiset(Items(n)) == multiset(Within(Tile(t, col, row), t.points))
  {
    assert Items(o) == [];
  }

  lemma SoundFromParts(r: Quad)
    requires forall q | q in Items(r) :: Holds(r, q)
    requires KidsSound(r.kids)
    ensures Sound(r)
  {
  }

  /** Appending a contained point keeps the node sound and adds exactly that point. */
  lemma AppendKeepsSound(t: Quad, p: Pt)
    requires Sound(t) && Holds(t, p)
    ensures Sound(t.(points := t.points + [p]))
    ensures multiset(Items(t.(points := t.points + [p]))) == multiset(Items(t)) + multiset{p}
  {
    var t2 := t.(points := t.points + [p]);
    var below := Items(t)[|t.points|..];
    assert Items(t) == t.points + below;
    assert Items(t2) == t.points + [p] + below;
    forall q | q in Items(t2)
      ensures Holds(t2, q)
    {
      assert q in Items(t) || q == p;
    }
  }

  lemma WithinSplit(q: Quadrant, ps: seq<Pt>)
    requires ps != []
    ensures Within(q, ps) == Within(q, [ps[0]]) + Within(q, ps[1..])
  {
    assert [ps[0]][1..] == [];
  }

  lemma AddedTrans(o: Quad, m: Quad, n: Quad, ps: seq<Pt>)
    requires ps != [] && Rect(m) == Rect(o)
    requires Added(o, m, [ps[0]]) && Added(m, n, ps[1..])
    ensures Added(o, n, ps)
  {
    WithinSplit(Rect(o), ps);
  }

  lemma KidsAddedTrans(o: Kids<()>, m: Kids<()>, n: Kids<()>, ps: seq<Pt>)
    requires ps != [] && SameRects(o, m)
    requires KidsAdded(o, m, [ps[0]]) && KidsAdded(m, n, ps[1..])
    ensures KidsAdded(o, n, ps)
  {
    if o.Four? {
      AddedTrans(o.nw, m.nw, n.nw, ps);
      AddedTrans(o.ne, m.ne, n.ne, ps);
      AddedTrans(o.sw, m.sw, n.sw, ps);
      AddedTrans(o.se, m.se, n.se, ps);
    }
  }

  /** A point held by a tile of `t` is held by `t`. */
  lemma TileHoldsInParent<D>(t: Tree<D>, col: nat, row: nat, p: Pt)
    requires col <= 1 && row <= 1
    requires Contains(Tile(t, col, row), p.x, p.y)
    ensures Holds(t, p)
  {
    TileOfPoint(t, p.x, p.y);
  }

  /** Children holding the four tiles' shares of `t.points` hold the parent's share, all inside `t`. */
  lemma SplitItemsHeld(t: Quad, r: Quad)
    requires r.kids.Four? && r.points == [] && Rect(r) == Rect(t)
    requires multiset(Items(r.kids.nw)) == multiset(Within(Tile(t, 0, 0), t.points))
    requires multiset(Items(r.kids.ne)) == multiset(Within(Tile(t, 1, 0), t.points))
    requires multiset(Items(r.kids.sw)) == multiset(Within(Tile(t, 0, 1), t.points))
    requires multiset(Items(r.kids.se)) == multiset(Within(Tile(t, 1, 1), t.points))
    ensures multiset(Items(r)) == multiset(Within(Rect(t), t.points))
    ensures forall q | q in Items(r) :: Holds(r, q)
  {
    var k := r.kids;
    TilesPartition(t, t.points);
    assert Items(r) == Items(k.nw) + Items(k.ne) + Items(k.sw) + Items(k.se);
    forall q | q in Items(r)
      ensures Holds(r, q)
    {
      assert q in multiset(Items(r));
      if q in multiset(Items(k.nw)) {
        TileHoldsInParent(t, 0, 0, q);
      } else if q in multiset(Items(k.ne)) {
        TileHoldsInParent(t, 1, 0, q);
      } else if q in multiset(Items(k.sw)) {
        TileHoldsInParent(t, 0, 1, q);
      } else {
        assert q in multiset(Items(k.se));
        TileHoldsInParent(t, 1, 1, q);
      }
    }
  }

  lemma {:induction false} WithinAllHeld(q: Quadrant, ps: seq<Pt>)
    requires forall p | p in ps :: Contains(q, p.x, p.y)
    ensures Within(q, ps) == ps
  {
    if ps != [] {
      WithinAllHeld(q, ps[1..]);
    }
  }

  /**
   * The descending case of insertion: `s` is `t` itself or `t` just
   * subdivided, and the point went into the children of `s`.
   */
  lemma DescendStores(t: Quad, s: Quad, k: Kids<()>, p: Pt)
    requires Holds(t, p) && Rect(s) == Rect(t)
    requires s.kids.Four? && Tiled(s) && Sound(s) && multiset(Items(s)) == multiset(Items(t))
    requires KidsAdded(s.kids, k, [p]) && KidsSound(k)
    ensures Added(t, s.(kids := k), [p]) && Sound(s.(kids := k))
  {
    assert Within(Rect(t), [p]) == [p];
    DescendCounts(s, k, p);
    GainKeepsSound(s, s.(kids := k), p);
  }

  /** Subdividing a sound leaf keeps exactly its points. */
  lemma LeafSplitKeeps(t: Quad, r: Quad)
    requires IsLeaf(t) && Sound(t)
    requires multiset(Items(r)) == multiset(Within(Rect(t), t.points))
    ensures multiset(Items(r)) == multiset(Items(t))
  {
    assert Items(t) == t.points;
    WithinAllHeld(Rect(t), t.points);
  }

  /** A node that gained one contained point, with sound children, stays sound. */
  lemma GainKeepsSound(s: Quad, n: Quad, p: Pt)
    requires Holds(s, p) && Sound(s) && Rect(n) == Rect(s)
    requires n.kids.Four? && KidsSound(n.kids)
    requires multiset(Items(n)) == multiset(Items(s)) + multiset{p}
    ensures Sound(n)
  {
    assert forall x | x in Items(s) :: Contains(Rect(s), x.x, x.y);
    HeldAfterAdd(Rect(s), Items(n), Items(s), multiset{p});
    SoundFromParts(n);
  }

  /** Points that are the points of `b` plus `extra`, all inside `q`, are inside `q`. */
  lemma HeldAfterAdd(q: Quadrant, a: seq<Pt>, b: seq<Pt>, extra: multiset<Pt>)
    requires multiset(a) == multiset(b) + extra
    requires forall x | x in b :: Contains(q, x.x, x.y)
    requires forall x | x in extra :: Contains(q, x.x, x.y)
    ensures forall x | x in a :: Contains(q, x.x, x.y)
  {
    forall x | x in a
      ensures Contains(q, x.x, x.y)
    {
      assert x in multiset(a);
    }
  }

  lemma DescendCounts(s: Quad, k: Kids<()>, p: Pt)
    requires s.kids.Four? && Tiled(s) && Holds(s, p)
    requires KidsAdded(s.kids, k, [p])
    ensures multiset(Items(s.(kids := k))) == multiset(Items(s)) + multiset{p}
  {
    var n := s.(kids := k);
    var o := s.kids;
    var w1 := multiset(Within(Tile(s, 0, 0), [p]));
    var w2 := multiset(Within(Tile(s, 1, 0), [p]));
    var w3 := multiset(Within(Tile(s, 0, 1), [p]));
    var w4 := multiset(Within(Tile(s, 1, 1), [p]));
    PointInOneTile(s, p);
    ItemsOfFour(s);
    ItemsOfFour(n);
    assert Rect(o.nw) == Tile(s, 0, 0) && Rect(o.ne) == Tile(s, 1, 0);
    assert Rect(o.sw) == Tile(s, 0, 1) && Rect(o.se) == Tile(s, 1, 1);
    BagSum(multiset(s.points),
           multiset(Items(o.nw)), multiset(Items(o.ne)), multiset(Items(o.sw)), multiset(Items(o.se)),
           w1, w2, w3, w4,
           multiset(Items(k.nw)), multiset(Items(k.ne)), multiset(Items(k.sw)), multiset(Items(k.se)),
           multiset{p});
  }

  lemma BagSum<T>(own: multiset<T>, i1: multiset<T>, i2: multiset<T>, i3: multiset<T>, i4: multiset<T>,
                  w1: multiset<T>, w2: multiset<T>, w3: multiset<T>, w4: multiset<T>,
                  j1: multiset<T>, j2: multiset<T>, j3: multiset<T>, j4: multiset<T>, w: multiset<T>)
    requires j1 == i1 + w1 && j2 == i2 + w2 && j3 == i3 + w3 && j4 == i4 + w4
    requires w1 + w2 + w3 + w4 == w
    ensures own + j1 + j2 + j3 + j4 == own + i1 + i2 + i3 + i4 + w
  {
  }

  /** A point held by `t` lies in exactly one of its tiles. */
  lemma PointInOneTile<D>(t: Tree<D>, p: Pt)
    requires Holds(t, p)
    ensures multiset(Within(Tile(t, 0, 0), [p])) + multiset(Within(Tile(t, 1, 0), [p]))
          + multiset(Within(Tile(t, 0, 1), [p])) + multiset(Within(Tile(t, 1, 1), [p])) == multiset{p}
  {
    TilesPartition(t, [p]);
    assert Within(Rect(t), [p]) == [p];
  }

  /** The contents of an internal node, as a bag: its own points and its children's. */
  lemma ItemsOfFour<D>(t: Tree<D>)
    requires t.kids.Four?
    ensures multiset(Items(t)) == multiset(t.points) + multiset(Items(t.kids.nw)) + multiset(Items(t.kids.ne))
                                + multiset(Items(t.kids.sw)) + multiset(Items(t.kids.se))
  {
    var k := t.kids;
    assert Items(t) == t.points + Items(k.nw) + Items(k.ne) + Items(k.sw) + Items(k.se);
  }

  // ---------------------------------------------------------------------
  // What insertion keeps: the capacity rule and the child levels

  /** Children that obey the capacity rule and have level 1 at every node. */
  predicate KidsShaped(k: Kids<()>) {
    match k
    case NoKids => true
    case Four(a, b, c, d) =>
      && a.level == 1 && b.level == 1 && c.level == 1 && d.level == 1
      && Capacity(a) && Capacity(b) && Capacity(c) && Capacity(d)
      && KidLevels(a) && KidLevels(b) && KidLevels(c) && KidLevels(d)
  }

  /** A node that obeys the capacity rule and whose descendants all have level 1 keeps both under insertion. */
  lemma {:induction false} InsertShape(t: Quad, p: Pt)
    requires Tiled(t) && Capacity(t) && KidLevels(t)
    ensures Capacity(Insert(t, p).0) && KidLevels(Insert(t, p).0)
    decreases 2 * Rank(t) + 1, 0
  {
    if Holds(t, p) && !((IsLeaf(t) && |t.points| < 4) || t.width <= 1.0 || t.height <= 1.0) {
      var s := if IsLeaf(t) then Subdivide(t) else t;
      if IsLeaf(t) {
        SubdivideShape(t);
      }
      KidsRankBelow(s);
      var k := InsertKids(s.kids, p).0;
      KidsShape(s.kids, p);
      assert Insert(t, p).0 == s.(kids := k);
      DescendShape(s, k);
    }
  }

  lemma {:induction false} KidsShape(k: Kids<()>, p: Pt)
    requires KidsTiled(k) && KidsShaped(k)
    ensures KidsShaped(InsertKids(k, p).0)
    decreases 2 * KidsRank(k) + 1, 1
  {
    if k.Four? {
      InsertShape(k.nw, p);
      InsertShape(k.ne, p);
      InsertShape(k.sw, p);
      InsertShape(k.se, p);
    }
  }

  lemma {:induction false} ReinsertShape(k: Kids<()>, ps: seq<Pt>)
    requires KidsTiled(k) && KidsShaped(k)
    ensures KidsShaped(Reinsert(k, ps))
    decreases 2 * KidsRank(k) + 1, 2 + |ps|
  {
    if ps != [] {
      var k' := InsertKids(k, ps[0]).0;
      assert KidsRank(k') == KidsRank(k);
      KidsShape(k, ps[0]);
      ReinsertShape(k', ps[1..]);
    }
  }

  /** A node wider and taller than one unit subdivides into an internal node that obeys the capacity rule, with level-1 children. */
  lemma {:induction false} SubdivideShape(t: Quad)
    requires t.width > 1.0 && t.height > 1.0
    ensures Capacity(Subdivide(t)) && KidLevels(Subdivide(t))
    decreases SubRank(t), 1
  {
    var b := BlankKids(t);
    KidsRankBelow(t.(kids := b));
    assert KidsShaped(b);
    ReinsertShape(b, t.points);
    assert Subdivide(t).kids == Reinsert(b, t.points);
  }

  /** Reassembling an internal node from children that keep the shape. */
  lemma DescendShape(s: Quad, k: Kids<()>)
    requires s.kids.Four? && s.points == [] && s.width > 1.0 && s.height > 1.0
    requires KidsShaped(k) && k.Four?
    ensures Capacity(s.(kids := k)) && KidLevels(s.(kids := k))
  {
  }
}
