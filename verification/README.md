# force_directed_layout in Dafny

A Dafny model of the core of `force_directed_layout`, a Python port of the
d3-force layout algorithm. The model covers:

- **The adaptive quadtree of `quadtree.py`.** This includes half-open
  containment and strict intersection, capacity-4 leaf insertion, subdivision
  into the NW, NE, SW and SE tiles, range and point queries, and the bounds of a
  point set. It also covers `from_points`, `expand_to_cover`, and the two
  stack-driven walks `visit` (pre-order, with pruning) and `visit_after`
  (post-order).
- **The box geometry of `point.py`.** This is `BBox` and `VPoint.overlaps`.
- **The four forces.**
  - many-body (`layouts/manybody.py`): charge accumulation, the Barnes–Hut test
    and the velocity update;
  - collision (`layouts/collide.py`): radius tables, the bottom-up maximum
    radius, the index-ordered pair rule and the velocity split;
  - link (`layouts/linkage.py`): endpoint resolution, degree counts, bias,
    default strength and the spring step;
  - the X and Y positional forces (`layouts/xy.py`).
- **The driver `ForceSimulation` of `layout.py`.** This is the named force
  registry, `init_nodes`, `tick` (cooling, the ordered force calls,
  integration) and `find`.

Everything is pure. A tree is the datatype `QuadTree.Tree<D>`, whose `data`
field is the annotation a force attaches. It is `()` while the tree is being
built, the accumulated charge after the many-body `accumulate`, and the radius
after the collision `prepare`. A stored point `Pt(x, y, ref)` records the
position of its node in the node list.

The callbacks of `visit` and `visit_after` are modelled differently:

- Their order is computed by `Traversal.Visit` and `Traversal.VisitAfter`,
  which are proved equal to `PreOrder` and `PostOrder`.
- Their effect is a fold over that order.

This split is faithful because every callback's pruning answer depends only on
the quadrant and on values fixed for the whole walk.

Some primitives are left uninterpreted and are parameters of the model
(`Oracles.Env`):

- square roots;
- `jiggle()`;
- the cosine and sine of the spiral placement.

Jitter draws are numbered. A threaded counter says how many have been taken.

Floats are `real`s, and the model makes the following substitutions:

- A float result that would be infinite or NaN is the error `NotANumber`. This
  includes every division by a zero float in the forces, since numpy floats
  divided by zero give an infinity or NaN rather than an exception.
- Python's `ZeroDivisionError`, `KeyError` and `IndexError` are `ZeroDivision`,
  `NotFound`/`Unresolved` and `OutOfRange`. The only `ZeroDivisionError` is the
  integer 0 / 0 of the many-body `accumulate` when every child has value 0.
- A missing value (None or NaN) is `Option.None`.

### Where the code and its description part ways

The model follows the code as written at each of these points. Where a quirk
can be shown, a lemma shows it.

- **`expand_to_cover` handles only part of the cases** (`quadtree.py:152-174`).
  - A point exactly on the old right or bottom edge matches neither growth
    branch, so the grown root still misses it (`QuadIndex.ExpandMissesRightEdge`).
  - Growing right or down sets the width to an absolute coordinate, which is
    negative left of the origin (`QuadIndex.ExpandRightLeftOfOrigin`).
  - The root drops its old children and redistributes only its own points
    (`QuadIndex.ExpandKeepsOnlyOwnPoints`). A root that had already subdivided
    therefore loses every stored point (`QuadIndex.ExpandEmptiesInternalRoot`).
  - `from_points` never reaches `expand_to_cover`, because its root contains
    every point (`QuadIndex.BuildTreeBuilt`).
- **Child levels.** `subdivide` gives every child level 1, whatever the
  parent's level (`QuadTree.KidLevels`).
- **The arguments `visit` passes.** `visit` passes `(node, x, y, width, height)`.
  - The many-body `apply` reads these as `(quad, x1, _, x2)`, so its `w` is
    width minus the (centroid) x (`ManyBody.Far`).
  - The collision `apply` compares width and height as if they were far edges.
    It therefore prunes quadrants the query reaches
    (`Collide.SkipsReachableQuadrant`).
- **Collision positions.** The collision tree is built from the current
  positions, but queried with the projected positions x + vx, y + vy.
- **Quadrants beyond the cut-off.** A many-body quadrant that fails the
  Barnes–Hut test and lies beyond `distance_max2` makes `apply` return None. The
  walk then descends below it rather than skipping it (`ManyBody.Prunes`).
- **The leaf loop of many-body `apply`.** It pulls the current node toward the
  leaf's corner by every point of the leaf, the node itself included.
- **Half-pinned nodes in `init_nodes`.** A free node with a pin on one axis and
  no coordinate on the other is placed on the spiral on both axes. A second
  `init_nodes` then moves it to its pin (`Simulation.HalfPinnedMoves`). Without
  such nodes, `init_nodes` is idempotent (`Simulation.InitNodesIdempotent`).

## Model

Paths are relative to the repository root.

| member | source | states |
|---|---|---|
| Quadrants.Pad | force_directed_layout/quadtree.py:47-50 | Padding moves the corner up and left by exactly (dx, dy) and keeps the far edges, so non-negative padding gives a rectangle containing every point of the original |
| Quadrants.Contains | force_directed_layout/quadtree.py:18-22 | Only a rectangle with positive width and height contains any point |
| Quadrants.Intersects | force_directed_layout/quadtree.py:24-30 | Two non-degenerate rectangles that intersect share a point: the larger of the two corners lies in both |
| Quadrants.ContainsIsHalfOpen | force_directed_layout/quadtree.py:18-22 | The corner belongs to a rectangle exactly when both extents are positive; no point on the right or bottom edge belongs to it |
| Quadrants.IntersectsSymmetric | force_directed_layout/quadtree.py:24-33 | Rectangle intersection does not depend on which rectangle asks |
| Quadrants.SharedPointIntersects | force_directed_layout/quadtree.py:24-30 | Two rectangles that both contain some point intersect, so pruning with the strict test never drops a contained point |
| Points.Expand | force_directed_layout/point.py:17-24 | The expanded box covers both the box and the given bounds, each side taken from one of the two, and keeps the anchor |
| Points.ExpandIdempotent | force_directed_layout/point.py:17-24 | Expanding twice by the same bounds is the same as expanding once |
| Points.Center | force_directed_layout/point.py:26-31 | Centring moves the anchor to the origin, keeps width and height, and shifts the box by exactly the old anchor |
| Points.CenterIdempotent | force_directed_layout/point.py:26-31 | Centring a centred box changes nothing |
| Points.Scale | force_directed_layout/point.py:33-40 | The near corner, the width, the height and the anchor each scale by the factor of their axis |
| Points.ScaleRoundTrip | force_directed_layout/point.py:33-40 | Scaling by non-zero factors and then by their reciprocals gives back the box |
| Points.RelativeToPoint | force_directed_layout/point.py:42-54 | The result is anchored at (x, y) with the same extents and the same offset of the corner from the anchor |
| Points.RelativeToPointComposes | force_directed_layout/point.py:42-54 | Re-anchoring forgets the previous anchor: only the last target counts, and centring undoes it |
| Points.BoxQuadrant | force_directed_layout/point.py:62-65 | The quadrant's corner is the box's (xmin, ymin) and its far edges are the box's xmax and ymax |
| Points.BoxContains | force_directed_layout/point.py:67-68 | A box contains (px, py) iff xmin <= px < xmax and ymin <= py < ymax |
| Points.BoxIntersects | force_directed_layout/point.py:70-71 | Two boxes intersect iff their bounds overlap strictly on both axes |
| Points.BoxIntersectsStrict | force_directed_layout/point.py:70-71 | Two boxes intersect iff their bounds overlap strictly on both axes, symmetrically |
| Points.NodeQuadrant | force_directed_layout/point.py:87-90 | A node's quadrant exists iff it has bounds; it keeps the box's extents and the corner's offset from the anchor, re-anchored at the node's position |
| Points.Overlaps | force_directed_layout/point.py:92-103 | Two boxes overlap when their quadrants intersect; with one box, when it contains the other node's position; with none, never |
| Points.OverlapsSymmetric | force_directed_layout/point.py:92-103 | Overlap is symmetric, so the collision pair test does not depend on which node asks |
| Oracles.Jiggled | force_directed_layout/layouts/manybody.py:85-90 | A zero coordinate is replaced by the next jitter draw and a non-zero one is kept without a draw; the result is non-zero iff the coordinate or the draw is; the squared length grows by exactly the replacement's square |
| Oracles.JiggledPair | force_directed_layout/layouts/collide.py:85-90 | Jittering x then y keeps the running squared length equal to the squared length of the jittered pair, positive iff one of them is non-zero, using at most two draws |
| Oracles.ExactLength | force_directed_layout/layouts/linkage.py:103 | An exact square root of x² + y² is a non-negative length that squares back and is zero iff both components are |
| Oracles.Stretched | force_directed_layout/layouts/collide.py:91-94 | Scaling an offset by m / l, for its exact length l, gives a vector parallel to it whose dot product with it is l · m and whose squared length is m² |
| Oracles.OnCircle | force_directed_layout/layout.py:57-60 | With cosine and sine on the unit circle, the point at radius rad and any angle lies at squared distance rad² from the origin |
| Oracles.ScaledRoot | force_directed_layout/layout.py:57 | With an exact square root, k · √v squares to k² · v |
| Bodies.LookupFrame | force_directed_layout/layouts/manybody.py:114 | A strength lookup gives the same answer before and after a force changes velocities |
| Bodies.OnlyVelocitiesTrans | force_directed_layout/layout.py:76-77 | Forces run one after another still change only velocities of free nodes |
| Bodies.FramePreservesPoints | force_directed_layout/layouts/collide.py:33-39 | A force that changes only velocities leaves the points a tree would be built from unchanged |
| Bodies.Last | force_directed_layout/layouts/linkage.py:62 | The chosen node is the last one accepted, no later node is accepted, and none is chosen when no node is accepted |
| QuadTree.TileOfPoint | force_directed_layout/quadtree.py:104-113 | A point lies in the parent iff it lies in one of the four tiles, and it never lies in two |
| QuadTree.TilesPartition | force_directed_layout/quadtree.py:100-113 | The four tiles together select, as a bag, exactly the points the parent selects |
| QuadTree.Insert | force_directed_layout/quadtree.py:80-98 | Insertion succeeds exactly when the node contains the point; a refused point changes nothing; rectangle, level and tiling are kept |
| QuadTree.InsertKids | force_directed_layout/quadtree.py:95-98 | Offering a point to the children succeeds iff one of them contains it; children keep their rectangles |
| QuadTree.Reinsert | force_directed_layout/quadtree.py:117-120 | Redistribution keeps every child's rectangle and the tiling |
| QuadTree.BlankKids | force_directed_layout/quadtree.py:104-115 | Subdivision creates exactly four children |
| QuadTree.Subdivide | force_directed_layout/quadtree.py:100-121 | A subdivided node keeps its rectangle and level, holds no points, and has four children that tile it |
| QuadTree.BlankTiles | force_directed_layout/quadtree.py:104-115 | The fresh children are empty leaves whose rectangles are the four half-size tiles |
| QuadTree.InsertStores | force_directed_layout/quadtree.py:80-98 | Inserting into a sound tree adds the point once when the node contains it and nothing otherwise, keeps all earlier points, and keeps every point inside its node |
| QuadTree.KidsStore | force_directed_layout/quadtree.py:95-98 | Offering a point to the children stores it once, under the child containing it |
| QuadTree.ReinsertStores | force_directed_layout/quadtree.py:117-120 | Redistributing points stores each one under the child containing it, keeping what the children held |
| QuadTree.SubdivideStores | force_directed_layout/quadtree.py:100-121 | After subdividing, each child holds exactly the parent's former points inside its tile, and the node holds exactly its former points inside it |
| QuadTree.InsertShape | force_directed_layout/quadtree.py:84-94 | Insertion keeps the capacity rule (leaves wider and taller than one unit hold at most four points; internal nodes hold none) and keeps level 1 below the root |
| QuadTree.SubdivideShape | force_directed_layout/quadtree.py:100-121 | Subdividing a node wider and taller than one unit gives a node that obeys the capacity rule, with level-1 children |
| QuadIndex.QueryRange | force_directed_layout/quadtree.py:128-140 | Every point returned is stored in the tree and inside the query rectangle |
| QuadIndex.QueryRangeExact | force_directed_layout/quadtree.py:128-140 | On a sound tree the query returns exactly the stored points the rectangle contains, in storage order |
| QuadIndex.FirstHolder | force_directed_layout/quadtree.py:199-204 | The chosen child is one of the four and contains the point; none is chosen only when no child contains it |
| QuadIndex.DescendKeepsMatches | force_directed_layout/quadtree.py:198-202 | Stepping into the child containing a position keeps every stored point at that position below |
| QuadIndex.QueryPoint | force_directed_layout/quadtree.py:193-205 | None iff the root does not contain the position; otherwise a node of the tree that contains it, a leaf on tiled trees, holding every stored point at that position on built trees |
| QuadIndex.ScanBounds | force_directed_layout/quadtree.py:305-313 | The running bounds of the loop are the least and greatest coordinates |
| QuadIndex.Widen | force_directed_layout/quadtree.py:305-313 | One step of the loop gives bounds that contain the point and cover the previous bounds |
| QuadIndex.Side | force_directed_layout/quadtree.py:314-315 | A reported side is at least 3 and at least one more than the spread |
| QuadIndex.Extents | force_directed_layout/quadtree.py:298-316 | Sides are at least 3; with no points the corner is at infinity and the sides are 3; otherwise the corner is the least coordinates and every point lies within one unit short of the far edges |
| QuadIndex.SideFits | force_directed_layout/quadtree.py:298-316 | Every point lies in the square the extents describe |
| QuadIndex.RootFor | force_directed_layout/quadtree.py:320-321 | The root of `from_points` contains every input point and is at least 4 wide and tall |
| QuadIndex.InsertAll | force_directed_layout/quadtree.py:322-323 | Inserting a sequence of points keeps the root's rectangle and the tiling |
| QuadIndex.InsertAllBuilds | force_directed_layout/quadtree.py:322-323 | Inserting points that a fresh root contains stores exactly them, as a bag, in a tree obeying every shape invariant |
| QuadIndex.BuildTreeBuilt | force_directed_layout/quadtree.py:319-324 | The tree `from_points` builds holds exactly the given points, obeys the tiling, soundness, capacity and level invariants, and its root contains every point |
| QuadIndex.FromPoints | force_directed_layout/quadtree.py:319-324 | No tree for no points; otherwise the tree holding exactly the given points with every shape invariant |
| QuadIndex.InsertEach | force_directed_layout/quadtree.py:322-323 | The loop of `from_points` computes the same tree as inserting the points in order |
| QuadIndex.BuildStep | force_directed_layout/quadtree.py:80-98 | Inserting a contained point into a built tree gives the built tree of one more point |
| QuadIndex.Grow | force_directed_layout/quadtree.py:160-170 | Growing toward a point before the start makes the axis reach the point and keeps the far edge one unit beyond the old one; inside the axis nothing changes; past the end the start stays and the extent is the point's coordinate plus half the old extent plus one |
| QuadIndex.ExpandToCover | force_directed_layout/quadtree.py:152-174 | The status says whether the root missed the point; a root holding it is unchanged; otherwise the grown root keeps its level, holds no points of its own and has four tiling children |
| QuadIndex.ExpandKeepsOnlyOwnPoints | force_directed_layout/quadtree.py:172-173 | After growing, the root holds exactly its own former points that the grown rectangle contains, and stays sound |
| QuadIndex.ExpandEmptiesInternalRoot | force_directed_layout/quadtree.py:172-173 | Growing a root that had subdivided leaves the tree empty |
| QuadIndex.ExpandMissesRightEdge | force_directed_layout/quadtree.py:163 | A point on the root's right edge makes the root grow, yet the grown root still does not contain it |
| QuadIndex.ExpandRightLeftOfOrigin | force_directed_layout/quadtree.py:164 | Growing right from a root left of the origin gives a negative width and a root that does not contain the point |
| QuadIndex.TreeInsert | force_directed_layout/quadtree.py:176-181 | A contained point is inserted into the root; otherwise nothing happens without expansion, and with expansion the point is inserted into the grown root, succeeding iff that root contains it |
| Traversal.PendingPop | force_directed_layout/quadtree.py:221-240 | One pop-and-push step of `visit` produces the popped node and leaves exactly the rest of the pending walk |
| Traversal.Visit | force_directed_layout/quadtree.py:207-241 | The callback is called in pruned pre-order: the node, then, unless pruned, the walks of its children NW, NE, SW, SE |
| Traversal.PendingRevPop | force_directed_layout/quadtree.py:258-273 | One pop-and-push step of `visit_after` collects the popped node and leaves exactly the rest of the collection order |
| Traversal.ReversePreRev | force_directed_layout/quadtree.py:274-275 | Reversing the collection order of `visit_after` gives every node after all of its descendants, children in NW, NE, SW, SE order |
| Traversal.VisitAfter | force_directed_layout/quadtree.py:243-276 | The callback is called in post-order |
| Traversal.WalksAgree | force_directed_layout/quadtree.py:207-276 | A `visit` that never prunes calls exactly the nodes `visit_after` calls, each as often |
| Traversal.PostOrderSize | force_directed_layout/quadtree.py:243-276 | `visit_after` makes one call per node of the tree |
| Traversal.PruningShortens | force_directed_layout/quadtree.py:229-240 | Pruning only removes calls: `visit` makes at most one call per node |
| Traversal.PrunedCallsAreNodes | force_directed_layout/quadtree.py:207-241 | The calls of a pruned `visit` form a sub-bag of the tree's nodes |
| ManyBody.DefaultsReachEverywhere | force_directed_layout/layouts/manybody.py:16-18 | With the declared infinite cut-off, every distance is below it and none beyond it |
| ManyBody.PointsCharge | force_directed_layout/layouts/manybody.py:66-67 | Summing the points' strengths succeeds iff every point's strength can be read; no points sum to 0 |
| ManyBody.PointsChargeConcat | force_directed_layout/layouts/manybody.py:66-67 | Charges of concatenated point lists add up |
| ManyBody.PointsChargePerm | force_directed_layout/layouts/manybody.py:66-67 | Reordering the points changes neither whether their strengths can be read nor their sum |
| ManyBody.NodePointsCharge | force_directed_layout/layouts/manybody.py:30-33 | When node i has index i, the points of nodes k, k + 1, … carry exactly the summed strengths of those nodes under the strengths `initialize` stores |
| ManyBody.Charge | force_directed_layout/layouts/manybody.py:48-70 | Accumulation keeps extents, points, level and leafness; a leaf keeps its corner, takes the summed strength of its points, and fails exactly when a strength cannot be read |
| ManyBody.Combine | force_directed_layout/layouts/manybody.py:52-63 | Combining four children fails exactly when their absolute values sum to zero; otherwise the value is the sum of theirs, the rectangle is kept, and the new x (and y) is the mean of the children's x (and y) weighted by the absolute values of their charges: weight · x = Σ abs(value_k) · x_k |
| ManyBody.LoneChargedChild | force_directed_layout/layouts/manybody.py:53-63 | A node with exactly one charged child takes that child's x and y as its own |
| ManyBody.ChargeKids | force_directed_layout/layouts/manybody.py:52-63 | An accumulated internal node is its children's accumulations, combined |
| ManyBody.ChargeSums | force_directed_layout/layouts/manybody.py:54-59 | An internal node's value is the sum of its children's values |
| ManyBody.ZeroChildrenFail | force_directed_layout/layouts/manybody.py:62-63 | An internal node whose children all have value 0 is a ZeroDivisionError |
| ManyBody.ChargeTotal | force_directed_layout/layouts/manybody.py:48-69 | On a tree obeying the capacity rule, a node's value is the total strength of every point stored below it |
| ManyBody.InitializeCharge | force_directed_layout/layouts/manybody.py:30-37 | After `initialize`, the accumulated charge of the root of the tree built from the nodes is the sum of the strength function over all nodes |
| ManyBody.ChargeOfKids | force_directed_layout/layouts/manybody.py:52-63 | If each child's value is the total strength below it, so is the parent's |
| ManyBody.TotalOfKids | force_directed_layout/layouts/manybody.py:52-59 | The points below a point-free internal node carry the sum of the children's totals |
| ManyBody.CentroidWithin | force_directed_layout/layouts/manybody.py:60-63 | An internal node's new x (or y) lies in any interval holding the x (or y) of every child with non-zero value |
| ManyBody.FarIsApart | force_directed_layout/layouts/manybody.py:83 | A quadrant passing the Barnes–Hut test is at a positive distance from the node |
| ManyBody.Settle | force_directed_layout/layouts/manybody.py:85-92 | Non-zero offsets at or beyond the near clamp pass unchanged; one jitter draw is used per zero coordinate |
| ManyBody.Pull | force_directed_layout/layouts/manybody.py:93-94 | A pull succeeds iff the force is non-zero and uses no jitter draw |
| ManyBody.Interact | force_directed_layout/layouts/manybody.py:72-116 | A quadrant without charge, a far quadrant beyond the cut-off, and a near quadrant without points or beyond the cut-off leave the node unchanged |
| ManyBody.FarPull | force_directed_layout/layouts/manybody.py:83-95 | A far quadrant below the cut-off, away from coincidence and the clamp, adds offset · value · alpha / distance² to the velocity |
| ManyBody.PointsActAsOne | force_directed_layout/layouts/manybody.py:104-116 | Away from coincidence and the clamp, the per-point pulls of a leaf add up to one pull by the points' total strength |
| ManyBody.LeafActsAsBody | force_directed_layout/layouts/manybody.py:98-116 | A near leaf pulls exactly as the far field would with the leaf's accumulated value |
| ManyBody.Walk | force_directed_layout/layouts/manybody.py:44 | A walk consumes jitter draws but never returns any |
| ManyBody.Sweep | force_directed_layout/layouts/manybody.py:39-46 | The loop changes only velocities of free nodes, and none of the nodes before its start |
| ManyBody.Force | force_directed_layout/layouts/manybody.py:35-46 | The force changes only velocities of free nodes, and does nothing for no nodes |
| ManyBody.NearbyFrame | force_directed_layout/layouts/manybody.py:104-116 | The per-point pulls read other nodes only for strengths by index, so other nodes' velocity changes do not alter them |
| ManyBody.WalkFrame | force_directed_layout/layouts/manybody.py:44 | One node's walk gives the same result whether or not other nodes' velocities have changed already |
| ManyBody.WalkedFrame | force_directed_layout/layouts/manybody.py:39-44 | A velocity that some walk gives over the updated list is also one that a walk gives over the original list |
| ManyBody.SweepEach | force_directed_layout/layouts/manybody.py:39-44 | From the loop's start on, a fixed node is untouched and every free node ends with the velocity of its own walk, started from its own velocity, as if no other node had moved before it |
| ManyBody.ForceEach | force_directed_layout/layouts/manybody.py:35-44 | The force moves each free node by its own walk of the tree charged from the positions before the force, and leaves fixed nodes untouched |
| ManyBody.WalkOrder | force_directed_layout/layouts/manybody.py:44 | The walk order is the stack-driven `visit` order for `apply`'s pruning answers; it starts at the root and has at most one call per node |
| Collide.Fill | force_directed_layout/layouts/collide.py:27-30 | The radius table has one slot per node and exists iff every node's index fits |
| Collide.Radii | force_directed_layout/layouts/collide.py:27-30 | The radius table exists iff every node's index fits; slot k holds the radius of the last node with index k, and 0 when no node has it |
| Collide.RadiiSlots | force_directed_layout/layouts/collide.py:27-30 | Slot k holds the radius of the last node with index k, and 0 when no node has it |
| Collide.Largest | force_directed_layout/layouts/collide.py:52 | The largest radius exists iff every radius can be read; it bounds every point's radius and is the radius of one of them |
| Collide.Prepare | force_directed_layout/layouts/collide.py:49-56 | Preparing keeps rectangles, points and leafness |
| Collide.PrepareBounds | force_directed_layout/layouts/collide.py:49-56 | On a tree obeying the capacity rule, a quadrant's radius bounds the radius of every point stored below it |
| Collide.PrepareAttained | force_directed_layout/layouts/collide.py:49-56 | A quadrant's radius is 0 or the radius of some point stored below it, so it is no larger than needed |
| Collide.SkipsReachableQuadrant | force_directed_layout/layouts/collide.py:105 | A quadrant containing the projected position can still be pruned |
| Collide.Correction | force_directed_layout/layouts/collide.py:85-94 | With an exact square root, the correction exists iff the jittered offset is non-zero; it is then parallel to the offset, its dot product with the offset is l · (r − l) · strength for the offset length l, and its squared length is ((r − l) · strength)²; jitter draws are never returned |
| Collide.Separate | force_directed_layout/layouts/collide.py:91-94 | Once the offset is jittered: a zero length is NaN, and otherwise the offset is scaled to a correction parallel to it, with dot product l · (r − l) · strength and squared length ((r − l) · strength)², and no draw is taken |
| Collide.SplitIsShare | force_directed_layout/layouts/collide.py:95-100 | Both shares of the split lie between 0 and 1 |
| Collide.Pair | force_directed_layout/layouts/collide.py:75-104 | A pair step changes only velocities of free nodes and never returns jitter draws |
| Collide.PairNeedsGreaterIndex | force_directed_layout/layouts/collide.py:76 | A candidate whose index is not greater than the query node's changes nothing, the node itself included |
| Collide.PairNeedsHit | force_directed_layout/layouts/collide.py:77-82 | A candidate neither within the summed radii nor overlapping by box changes nothing |
| Collide.PairSplitsCorrection | force_directed_layout/layouts/collide.py:95-103 | Between two free nodes, the query node gains rj²/(ri²+rj²) of the correction and the other loses the rest, which together make the whole correction |
| Collide.Apart | force_directed_layout/layouts/collide.py:95-103 | Only velocities of free nodes change; between two distinct free nodes, node i gains share · (cx, cy) and node j loses the rest, together the whole correction |
| Collide.Pairs | force_directed_layout/layouts/collide.py:72-74 | The points of a leaf change only velocities of free nodes |
| Collide.Walk | force_directed_layout/layouts/collide.py:39 | A node's walk changes only velocities of free nodes |
| Collide.WalkIsPairs | force_directed_layout/layouts/collide.py:72-74 | A walk is the pair step applied to the points of the visited leaves, in visiting order |
| Collide.OfferedWithin | force_directed_layout/layouts/collide.py:72-74 | A pruned walk offers each stored point at most as often as the tree stores it |
| Collide.SubBagDistinct | force_directed_layout/layouts/collide.py:33 | Any sub-bag of the points built from the nodes names distinct nodes, all within the list |
| Collide.PrepareItems | force_directed_layout/layouts/collide.py:49-56 | `prepare` keeps the stored points of the tree |
| Collide.ForceOffersOnce | force_directed_layout/layouts/collide.py:33-39 | In one node's walk of the prepared tree, every node is offered at most once, and only nodes of the list are offered, so each unordered pair is resolved at most once per tick |
| Collide.Sweep | force_directed_layout/layouts/collide.py:35-39 | The loop over nodes changes only velocities of free nodes and keeps the nodes past its end |
| Collide.Force | force_directed_layout/layouts/collide.py:32-39 | The force never moves a node nor changes a fixed one, and does nothing for no nodes |
| Linkage.Resolve | force_directed_layout/layouts/linkage.py:62-70 | A resolved end is a position in the node list |
| Linkage.ResolveKey | force_directed_layout/layouts/linkage.py:62 | An identity fails to resolve iff no node has it; otherwise it resolves to the last node that has it |
| Linkage.Tally | force_directed_layout/layouts/linkage.py:65-72 | The first loop yields one bond per link seen and one count per node |
| Linkage.TallyStep | force_directed_layout/layouts/linkage.py:65-72 | Each link adds the bond of its resolved ends and bumps the counts of both ends |
| Linkage.TallyBonds | force_directed_layout/layouts/linkage.py:65-70 | Bond i has index i and joins the resolved target and source of link i |
| Linkage.TallyDegrees | force_directed_layout/layouts/linkage.py:71-72 | Each count is the number of link ends at that node, a self-loop counting twice |
| Linkage.TallySum | force_directed_layout/layouts/linkage.py:71-72 | The counts sum to twice the number of links |
| Linkage.DegreeAtEnds | force_directed_layout/layouts/linkage.py:74-78 | Both ends of every link have a count of at least 1, so bias and default strength never divide by zero |
| Linkage.Initialize | force_directed_layout/layouts/linkage.py:57-84 | No nodes leaves the force idle; otherwise it succeeds iff every end resolves, with one spring per link and one count per node |
| Linkage.InitializeWires | force_directed_layout/layouts/linkage.py:57-72 | Spring i joins the resolved ends of link i, and the counts are the degrees and sum to twice the number of links |
| Linkage.WireRanges | force_directed_layout/layouts/linkage.py:74-95 | The bias lies strictly between 0 and 1 (exactly 1/2 on a self-loop), and the default strength lies in (0, 1] |
| Linkage.InitializeSprings | force_directed_layout/layouts/linkage.py:74-92 | Every spring of `initialize` is derived from the bond of its link by the bias, strength and distance rules |
| Linkage.InitializeRanges | force_directed_layout/layouts/linkage.py:74-95 | Every spring of `initialize` has its bias in (0, 1), 1/2 on a self-loop, its default strength in (0, 1], and its distance from the distance function |
| Linkage.Nudged | force_directed_layout/layouts/linkage.py:101-102 | A zero component becomes the next jitter draw and a non-zero one stays without a draw, so the result is non-zero iff the component or the draw is |
| Linkage.Tension | force_directed_layout/layouts/linkage.py:101-106 | With an exact square root, the correction exists iff the nudged offset is non-zero; it is then parallel to the offset, its dot product with the offset is l · m and its squared length m², for the offset length l and m = (l − distance) · alpha · strength; jitter draws are never returned |
| Linkage.Pull | force_directed_layout/layouts/linkage.py:98-114 | One spring changes only velocities of free nodes |
| Linkage.PullSplits | force_directed_layout/layouts/linkage.py:107-114 | Between two free nodes the target loses bias · c and the source gains (1 − bias) · c, which together make the whole correction c |
| Linkage.SelfLoopStill | force_directed_layout/layouts/linkage.py:107-114 | A self-loop with bias 1/2 leaves its node unchanged |
| Linkage.Pulls | force_directed_layout/layouts/linkage.py:98 | The springs in order change only velocities of free nodes |
| Linkage.Force | force_directed_layout/layouts/linkage.py:97-114 | The force changes only velocities of free nodes; before `initialize` it fails unless there are no links |
| Positional.Step | force_directed_layout/layouts/xy.py:34-37 | Only the velocity changes; the step succeeds iff the node is fixed or has a target |
| Positional.Sweep | force_directed_layout/layouts/xy.py:34-37 | The loop changes only velocities of free nodes and none of the nodes past its end |
| Positional.Force | force_directed_layout/layouts/xy.py:33-37 | The force changes only velocities of free nodes |
| Positional.SweepExact | force_directed_layout/layouts/xy.py:33-37 | The loop succeeds iff every free node has a target, and each node ends as its own step leaves it |
| Positional.ForceExact | force_directed_layout/layouts/xy.py:33-37 | A fixed node is unchanged; a free node keeps its position and gains (target − position) · strength · alpha along the axis; nothing else changes |
| Positional.InitializedForce | force_directed_layout/layouts/xy.py:24-37 | After `initialize`, the force fails iff a free node has no target; otherwise each free node gains (target − position) · strength · alpha with the target and strength the callables gave it |
| Positional.XYCommute | force_directed_layout/layouts/xy.py:66-70 | The X and Y forces give the same nodes in either order |
| Simulation.Where | force_directed_layout/layout.py:44 | The position found holds the name; none is found only when no entry has it |
| Simulation.AddForce | force_directed_layout/layout.py:43-44 | The new entry is in the registry, which grows iff the name was new, and every entry of another name keeps its place |
| Simulation.RemoveForce | force_directed_layout/layout.py:46-47 | Removal fails exactly when no force has the name |
| Simulation.AddForceRegisters | force_directed_layout/layout.py:43-44 | After adding, names stay unique, the name maps to the new force, other entries are kept in place, and the registry grows iff the name was new |
| Simulation.WhereUnique | force_directed_layout/layout.py:43-47 | With unique names, the entry with a name is the one found |
| Simulation.AddThenRemove | force_directed_layout/layout.py:43-47 | Adding a new name and then removing it gives back the force and the registry as it was |
| Simulation.RemoveForceKeeps | force_directed_layout/layout.py:46-47 | Removal keeps names unique, drops exactly the named entry and keeps the others in order |
| Simulation.NewManyBody | force_directed_layout/layouts/manybody.py:23-28 | The many-body force starts with the declared tuning and one strength per node |
| Simulation.NewCollide | force_directed_layout/layouts/collide.py:19-25 | The collision force starts without a radius table |
| Simulation.NewLink | force_directed_layout/layouts/linkage.py:39-53 | The link force starts idle with its links |
| Simulation.NewPosition | force_directed_layout/layouts/xy.py:17-22 | The positional force starts with one goal per node |
| Simulation.InitForce | force_directed_layout/layout.py:64-66 | Initialising keeps the kind of force, and gives the collision force its radius table |
| Simulation.InitForces | force_directed_layout/layout.py:64-66 | Every force is initialised in order, succeeding iff each does, with names and order unchanged |
| Simulation.Apply | force_directed_layout/layout.py:76-77 | Any registered force changes only velocities of free nodes |
| Simulation.ApplyAll | force_directed_layout/layout.py:76-77 | Running all forces changes only velocities of free nodes |
| Simulation.ApplyAllSnoc | force_directed_layout/layout.py:76-77 | A registry with one more entry runs the old entries first, then the new one on what they left |
| Simulation.AddedForceRunsLast | force_directed_layout/layout.py:43-44 | A force added under a new name runs after every force already registered |
| Simulation.InitNode | force_directed_layout/layout.py:50-62 | The node's index becomes its position; pins and flags are kept; an unplaced free node goes to the spiral, and otherwise the node sits at its pins or coordinates; an unset velocity zeroes both; only a fixed node without a position fails |
| Simulation.Spiral | force_directed_layout/layout.py:56-60 | With an exact square root and cosine and sine on the unit circle, the i-th spiral point lies at squared distance initial_radius² · (0.5 + i) from the origin |
| Simulation.SpiralOutward | force_directed_layout/layout.py:56-60 | With a non-zero initial radius, later spiral points lie strictly farther out, so no two nodes are placed on the same point |
| Simulation.InitNodesIndexes | force_directed_layout/layout.py:50-51 | Indices become 0, 1, …, n − 1 |
| Simulation.InitNodesIdempotent | force_directed_layout/layout.py:52-62 | Without half-pinned nodes, a second `init_nodes` changes nothing |
| Simulation.HalfPinnedMoves | force_directed_layout/layout.py:52-60 | A node pinned at fx = 0 without a y goes to x = 10, and a second `init_nodes` moves it to x = 0 |
| Simulation.Start | force_directed_layout/layout.py:68-71 | Starting initialises the nodes and then every force against them, keeping alpha |
| Simulation.Cool | force_directed_layout/layout.py:75 | The gap between alpha and its target shrinks by the factor 1 − alpha_decay |
| Simulation.Integrate | force_directed_layout/layout.py:78-91 | A fixed node is unchanged; on each axis a pinned free node sits at its pin with zero velocity, and an unpinned one decays its velocity and moves by it; nothing but position and velocity changes |
| Simulation.Step | force_directed_layout/layout.py:74-91 | A step keeps the number of nodes and the registry, and sets alpha to its cooled value |
| Simulation.StepFrame | force_directed_layout/layout.py:76-91 | After a step a fixed node is exactly as before, a pinned free node sits at its pin with zero velocity there, and index and flag are kept |
| Simulation.StepsKeepFixed | force_directed_layout/layout.py:73-92 | Every step keeps the number of nodes and leaves fixed nodes unchanged |
| Simulation.Tick | force_directed_layout/layout.py:73-92 | Any number of iterations leaves fixed nodes unchanged, and after k iterations the gap between alpha and its target is the initial gap times (1 − alpha_decay)^k |
| Simulation.Find | force_directed_layout/layout.py:94-107 | None iff no node is strictly closer than the radius (any distance without one); otherwise the first node of least squared distance, below the bound |

## Left out

- Floating point: coordinates are exact reals. NaN, infinity and rounding are
  not modelled. A computation that would produce them is an error, and an unset
  value is `None`.
- Square root, `jiggle()`, cosine and sine are uninterpreted parameters. The
  global numpy generator behind `jiggle` and the unused `random` field
  (`layout.py:39-41`) are not modelled.
- The irrational defaults of `ForceSimulation` are parameters of `Config`. These
  are `initial_angle` = π(3 − √5) and `alpha_decay` = 1 − 0.001^(1/300).
- `RadialForceDirectedLayout` (`layouts/xy.py:76-119`) is not part of this model.
- `Fn`/`_ConstFn` are not modelled as such. Strength, radius, target and
  distance arguments are plain functions, and a constant is a constant
  function. `ForceLayoutBase` dispatch is the `Simulation.Force` datatype.
- Each force in the library keeps its own reference to a node list. The model
  passes every force the simulation's list, which is the same list in the
  library's intended use.
- A link end given as a `VPoint` object is modelled as a position in the node
  list (`Linkage.At`). A position past the list is an `OutOfRange` error.
  `VLinkage.distance` is not used by the force and is left out.
- The free-form `data` payload of `Point`, `VPoint` and `Quadrant` is not
  modelled. `QuadTreeNode.data` is the typed annotation `Tree.data`.
- `__repr__`, `BBox.as_array` and `Point.as_quadrant` are left out. So are the
  thin wrappers `QuadTreeNode.query_range`, `QuadTree.query_range`,
  `QuadTree.query_range_quad` and `QuadTree.insert_all`, and the
  `QuadTree.x/y/width/height` properties. Each of these forwards to a
  modelled operation.
- The third branch of `radius_of` (0.0 for anything else) is not modelled.
  Children are always all four present, so it is never reached.
- `from_points` of no points gives a root at infinity in the library. The model
  gives `None`, and every force handles an empty node list before building a
  tree.
- A fixed node with an unset coordinate keeps NaN in the library. In the model,
  `init_nodes` fails with `NotANumber` for it.
- QuadTree.Insert: requires that every internal node's children are its exact
  half-size tiles (`Tiled`). Every tree the library builds has this shape, and
  recursion through the rectangles needs it for termination.
- QuadIndex.TreeInsert: requires `Tiled` for the same reason.
- ManyBody.Walk: states only the frame and the jitter count. The exact velocity
  change of each kind of quadrant is stated by `ManyBody.FarPull`,
  `ManyBody.LeafActsAsBody` and `ManyBody.Interact`. `ManyBody.ForceEach`
  ties each node's final velocity to its own walk.
- Collide.Walk: states only the frame and the jitter count. The exact pair
  effects are stated by `Collide.PairNeedsGreaterIndex`, `Collide.PairNeedsHit`
  and `Collide.PairSplitsCorrection`.
- Collide.Sweep and Collide.Force: state the frame and the jitter count only.
  The pair rule is stated per pair by `Collide.PairNeedsGreaterIndex`, and per
  walk by `Collide.WalkIsPairs` and `Collide.ForceOffersOnce`: a node's walk
  offers each node at most once, so an unordered pair is resolved at most once
  per tick, from its lower index, and never with itself.
- Collide.Correction, Collide.Separate, Linkage.Tension, Oracles.Stretched and
  Oracles.ExactLength: the geometry of the correction is stated only for an
  exact square root (`Oracles.ExactSqrt`). The square root is an uninterpreted
  parameter, and a rounding one gives no exact statement.
- Simulation.Spiral and Simulation.SpiralOutward: the distance from the origin
  is stated only for an exact square root and for cosine and sine on the unit
  circle (`Oracles.UnitCircle`). The angle of the i-th point is not stated.
