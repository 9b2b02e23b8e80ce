# Quad-Trees vs R-Trees: a verified model of the two spatial indexes

The repository stores labelled 2-D points in two indexes and answers
axis-aligned range queries and k-nearest-neighbour queries over them:

- an adaptive **QuadTree**, filled one point at a time, where a full leaf
  subdivides into four quadrants;
- a bulk-loaded **R-tree**, built in one pass from the whole point set, with
  the points sorted by Z-order or cut into STR strips.

Both share the `Point` and `Rectangle` primitives and the `HeapEntry` queue
entry of their best-first kNN search.

This project models that core in Dafny:

- **Primitives.** `Geometry` holds points, rectangles, containment,
  intersection, union, areas and distances. `Heap` holds the kNN queue
  entries and their order. `Machine` holds the `int` to `size_t` conversion.
- **QuadTree.**
  - `QuadSpec` is the tree as a value, together with insertion, routing and
    redistribution.
  - `QuadFacts` proves what insertion keeps and what the range query
    returns.
  - `QuadTreeIndex` holds the source's loops as methods proved to compute
    the value model, and the kNN search.
- **R-tree.**
  - `RTreeSpec` holds bounding boxes, `sort_points`, the leaf and parent
    levels, the underflow repair, the bulk load, and the range query and
    depth.
  - `RTreeFacts` and `BulkLoadFacts` prove the shape of what the loader
    builds.
  - `RTreeSearch` holds the kNN search.
  - `RTreeIndex` holds the loader's loops as methods and the root object as
    a class whose fields `insert` overwrites.
- **Support.** `Morton` covers `interleave_bits`, `Sorting` the sort the
  loader uses, `Sequences` slice facts, and `KnnResults` the shape of kNN
  results.

Modelling choices:

- **Coordinates are exact reals.** Every Euclidean distance is kept
  squared. This orders points exactly as the square root does.
- **The QuadTree node is a value.** Insertion returns the node it leaves
  behind. Its recursion is unbounded in the source, so it carries a
  depth budget `fuel`.
- **The R-tree root is a class.** Its nodes below the root are values,
  each built once by the loader and owned by its parent alone.
- **`int` compared with `size_t` goes through `SizeT`.** This applies to
  `k`, `capacity`, `min_entries` and `max_entries`: a negative value
  becomes at least 2^64 - 2^31.

Behaviour a reader might not expect:

- **A negative `k` reports every point.** Both `knn_query`s loop while
  `results.size() < k` (src/QuadTree.cpp:114, src/RTree.cpp:262). The
  comparison converts a negative `k` to a huge `size_t`, so the search
  runs until the queue is empty.
- **The same id can be stored twice in a QuadTree.** `insert` looks for
  the id only in the leaf it reaches (src/QuadTree.cpp:51-59). A point on
  the edge between the north-east and north-west quadrants is refused by
  the first and accepted by the second (`QuadFacts.SameIdTwice`). The
  invariant kept is therefore: a fresh id inside the boundary is always
  accepted, and ids are distinct within each leaf.
- **R-tree nodes can hold fewer than `min_entries` entries.** The loader
  repairs only the last two siblings of each level (src/RTree.cpp:142-157
  and 175-190). Every node holds between 1 and `max_entries` entries: the
  repair fires only when the sibling before holds more than
  `min_entries`, and it fills the last sibling up to `min_entries` at
  most. Every box equals `compute_boundary` of its entries, and all leaves
  lie at the depth `get_depth` reports. The repaired pair's exact effect
  is stated by `BulkLoadFacts.RepairLeavesMoves` and
  `BulkLoadFacts.RepairParentsMoves`.
- **`insert` finishes only on some inputs.** With no points it returns at
  once. Otherwise it needs `max_entries` of at least 2 as a `size_t`, or a
  single point with `max_entries` of 1 (`RTreeSpec.Finishes`). With 0 the
  leaf loop never advances over a point. With 1 a level of two or more
  nodes never shrinks.

## Model

| member | source | states |
|---|---|---|
| Geometry.Rect | src/Rectangle.cpp:7-12 | the bounds are centred on (x, y) and span w by h; the centre and size are recovered from the bounds |
| Geometry.Contains | src/Rectangle.cpp:20-25 | inclusive on all four sides; `Geometry.InsideContains` and `Geometry.RectDistSqZeroIffContains` state what it means for nested rectangles and for the distance |
| Geometry.Intersects | src/Rectangle.cpp:27-30 | false only when the rectangles are separated on some axis; `Geometry.IntersectsIffCommonPoint` proves it true exactly when they share a point |
| Geometry.Spanning | src/RTree.cpp:39 | the rectangle built from four bounds through centre and size has exactly those bounds |
| Geometry.CommonPointIntersects | src/Rectangle.cpp:20-30 | a point contained (inclusively) in two rectangles makes them intersect |
| Geometry.IntersectsSymmetric | src/Rectangle.cpp:27-30 | intersection is symmetric |
| Geometry.IntersectsIffCommonPoint | src/Rectangle.cpp:27-30 | rectangles of non-negative extent intersect exactly when they share a point, so touching edges count |
| Geometry.InsideContains | src/Rectangle.cpp:20-25 | containment passes from a rectangle to any rectangle around it |
| Geometry.UnionWith | src/Rectangle.cpp:32-42 | the union's bounds are the least and greatest bounds of the two, so it encloses both |
| Geometry.UnionCommutative | src/Rectangle.cpp:32-42 | the union does not depend on argument order |
| Geometry.UnionContains | src/Rectangle.cpp:32-42 | a point of either rectangle lies in the union |
| Geometry.AreaOfBounds | src/Rectangle.cpp:44-46 | w * h is the product of the spans of the bounds |
| Geometry.Area | src/Rectangle.cpp:44-46 | `w * h`; `Geometry.AreaOfBounds` proves it the product of the spans of the bounds |
| Geometry.Intersection | src/Rectangle.cpp:48-64 | the zero rectangle for disjoint inputs, otherwise the overlap's bounds, inside both inputs |
| Geometry.IntersectionContains | src/Rectangle.cpp:48-64 | the intersection of intersecting rectangles holds exactly their common points |
| Geometry.IntersectionArea | src/Rectangle.cpp:67-94 | the overlap area is never negative and is zero when the overlap is empty or degenerate on an axis |
| Geometry.IntersectionAreaSymmetric | src/Rectangle.cpp:67-94 | the overlap area is symmetric |
| Geometry.IntersectingArea | src/Rectangle.cpp:44-94 | for intersecting rectangles the overlap area is the area of the intersection rectangle |
| Geometry.DisjointArea | src/Rectangle.cpp:44-94 | for disjoint rectangles both the overlap area and the intersection's area are zero |
| Geometry.IntersectionAreaIsArea | src/Rectangle.cpp:44-94 | `intersection_area` always equals `intersection(...).area()` |
| Geometry.DistSq | src/Point.cpp:17-21 | the squared point distance is non-negative |
| Geometry.DistSqSymmetric | src/Point.cpp:17-21 | the point distance is symmetric |
| Geometry.DistSqZero | src/Point.cpp:17-21 | the distance is zero exactly between points at the same coordinates |
| Geometry.Gap | src/Point.cpp:23-27 | the per-axis gap max(lo - v, 0, v - hi) is non-negative and zero exactly inside [lo, hi] |
| Geometry.RectDistSq | src/Point.cpp:23-27 | the squared rectangle distance is non-negative |
| Geometry.RectDistSqZeroIffContains | src/Point.cpp:23-27 | the rectangle distance is zero exactly when the rectangle contains the point |
| Geometry.RectDistSqLowerBound | src/Point.cpp:17-27 | no point of a rectangle is nearer the query than the rectangle itself |
| Geometry.RectDistSqNested | src/Point.cpp:23-27 | a rectangle inside another is no nearer than the outer one |
| Geometry.PointsIn | src/RTree.cpp:238-244 | the leaf filter returns only contained points, each no more often than in the input |
| Geometry.PointsInAppend | src/QuadTree.cpp:89-94 | filtering a concatenation concatenates the filtered parts |
| Geometry.PointsInCount | src/QuadTree.cpp:97-101 | the filter keeps every copy of a contained point and none of any other |
| Geometry.PointsInNone | src/QuadTree.cpp:97-101 | when no point is contained the filter is empty |
| Heap.Less | src/HeapEntry.h:17-19 | `a < b` when (dist, counter) of `a` is lexicographically greater; `Heap.LessIrreflexive`, `Heap.LessTransitive` and `Heap.LessTotal` prove it a strict order, total up to equal (dist, counter) |
| Heap.Top | src/HeapEntry.h:17-19 | the popped entry is one that no other entry is greater than under `<` |
| Heap.TopIsLeast | src/HeapEntry.h:17-19 | the popped entry has the least distance and, among equal distances, the least counter |
| Heap.LessIrreflexive | src/HeapEntry.h:17-19 | `<` is irreflexive |
| Heap.LessTransitive | src/HeapEntry.h:17-19 | `<` is transitive |
| Heap.LessTotal | src/HeapEntry.h:17-19 | two entries are unordered only with equal distance and counter |
| Heap.LessIgnoresPayload | src/HeapEntry.h:8-20 | the order never looks at the node or point an entry carries |
| Heap.RemoveAt | src/QuadTree.cpp:115-116 | popping removes exactly one copy of the popped entry |
| Machine.SizeT | src/RTree.cpp:262 | an `int` compared with a `size_t` is unchanged when non-negative and at least 2^64 - 2^31 otherwise |
| Morton.InterleaveBits | src/RTree.cpp:51-58 | the loop computes the bit interleaving, a value below 2^64 |
| Morton.InterleavedBits | src/RTree.cpp:51-58 | bit 2i of the key is bit i of x and bit 2i+1 is bit i of y |
| Morton.InterleavedBound | src/RTree.cpp:51-58 | interleaving n bits of each coordinate gives fewer than 2n bits |
| Morton.InterleaveInjective | src/RTree.cpp:51-58 | different coordinate pairs get different keys |
| Sorting.SortBy | src/RTree.cpp:84-87 | the result is sorted by the key and is a permutation of the input |
| QuadSpec.QuadrantBoundary | src/QuadTree.cpp:27-37 | each quadrant has half the width and height, centred a quarter of the size away from the parent's centre |
| QuadSpec.Split | src/QuadTree.cpp:27-44 | subdivision gives a divided node whose four children are empty leaves on the quadrants |
| QuadSpec.Insert | src/QuadTree.cpp:47-81 | `insert` with a depth budget; `QuadFacts.InsertKeeps` proves that it keeps the invariant and the boundary, stores the point exactly when it returns true, and accepts a fresh id inside the boundary |
| QuadSpec.Route | src/QuadTree.cpp:74-80 | routing keeps the node divided and its boundary |
| QuadSpec.Redistribute | src/QuadTree.cpp:61-72 | re-inserting held points keeps the node divided and its boundary |
| QuadSpec.RangeQuery | src/QuadTree.cpp:83-104 | `range_query`; `QuadFacts.RangeQueryIsFilter` proves it the stored points inside the range, in NW, NE, SW, SE order, on every tree insertion builds |
| QuadFacts.QuadrantConsistent | src/QuadTree.cpp:33-36 | each quadrant's bounds agree with its centre and size |
| QuadFacts.QuadrantBounds | src/QuadTree.cpp:27-37 | the quadrants meet at the parent's centre and reach its bounds |
| QuadFacts.QuadrantsCover | src/QuadTree.cpp:27-44 | the parent contains a point exactly when some quadrant does |
| QuadFacts.QuadrantInside | src/QuadTree.cpp:27-37 | each quadrant lies inside its parent |
| QuadFacts.InsertOrderCovers | src/QuadTree.cpp:74-80 | some quadrant in the NE, NW, SE, SW trial order contains a point of the parent |
| QuadFacts.SplitInv | src/QuadTree.cpp:27-44 | a freshly subdivided node satisfies the tree invariant and holds no points |
| QuadFacts.InsertKeeps | src/QuadTree.cpp:47-81 | insertion keeps the invariant and the boundary; a point outside the boundary is refused with the tree unchanged; the point is stored exactly when true is returned and then lies in the boundary; a point inside with an id not yet in the tree is always accepted |
| QuadFacts.InsertLeafKeeps | src/QuadTree.cpp:51-59 | a leaf below capacity returns false and stays unchanged when it holds the id, and otherwise returns true with the point appended at the end; the invariant is kept |
| QuadFacts.InsertFullLeafKeeps | src/QuadTree.cpp:61-80 | a full leaf subdivides, loses none of its points, and then routes the new point |
| QuadFacts.RouteKeeps | src/QuadTree.cpp:74-80 | routing keeps the invariant, stores the point exactly on success, and succeeds for a fresh id inside a tried quadrant |
| QuadFacts.RedistributeKeeps | src/QuadTree.cpp:61-72 | re-inserting a full leaf's points into the new children keeps every one of them and the invariant |
| QuadFacts.SameIdTwice | src/QuadTree.cpp:47-81 | a point on the NE/NW edge that the tree already holds is accepted again and stored twice |
| QuadFacts.InvEnclosed | src/QuadTree.cpp:47-81 | in a tree built by insertion every point lies in the boundary of each node above it |
| QuadFacts.RangeQueryIsFilter | src/QuadTree.cpp:83-104 | pruning loses nothing: the range query is exactly the stored points inside the range, in query order |
| QuadTreeIndex.NewTree | src/QuadTree.cpp:14-16 | a new tree is an empty leaf on the boundary and, for a well-formed boundary (bounds agreeing with centre and size), satisfies the invariant for any capacity |
| QuadTreeIndex.InsertPoint | src/QuadTree.cpp:47-81 | the insertion loops compute the value model's insertion and so keep its guarantees |
| QuadTreeIndex.RouteToChildren | src/QuadTree.cpp:74-80 | the trial loop over NE, NW, SE, SW computes the value model's routing |
| QuadTreeIndex.PushPoints | src/QuadTree.cpp:125-130 | queueing a leaf's points adds exactly those points, each with its true distance |
| QuadTreeIndex.PushChildren | src/QuadTree.cpp:131-138 | queueing the four children adds exactly the points below them, with lower-bound distances |
| QuadTreeIndex.PopBound | src/QuadTree.cpp:114-121 | the popped entry is no farther than any point still queued |
| QuadTreeIndex.PopPointKeeps | src/QuadTree.cpp:118-121 | reporting a popped point keeps the results ascending and none of the queued points nearer |
| QuadTreeIndex.Expand | src/QuadTree.cpp:115-139 | one step keeps the search invariant and lowers the remaining work |
| QuadTreeIndex.SearchStart | src/QuadTree.cpp:112 | the queue holding only the root satisfies the search invariant |
| QuadTreeIndex.SearchEnd | src/QuadTree.cpp:114-142 | when the search stops, the results are stored points, all of them if the queue emptied, none nearer left out |
| QuadTreeIndex.KnnQuery | src/QuadTree.cpp:107-143 | at most k results (k as `size_t`), ascending true distances, stored points, all points when fewer than k, and no point left out nearer than any result |
| RTreeSpec.PointsBound | src/RTree.cpp:29-40 | `compute_boundary` of points; `RTreeFacts.PointsBoundTight` proves it the smallest box holding them all |
| RTreeSpec.NodesBound | src/RTree.cpp:42-49 | `compute_boundary` of nodes; `RTreeFacts.NodesBoundTight` proves it the smallest box holding every child's box |
| RTreeSpec.RangeQuery | src/RTree.cpp:232-253 | `range_query`; `RTreeFacts.RangeQueryIsFilter` proves it the stored points inside the range, in stored order, whenever every point lies in its ancestors' boxes |
| RTreeSpec.RangeAll | src/RTree.cpp:245-250 | the children's answers joined in order; `RTreeFacts.RangeAllIsFilter` proves it the filter of all their points |
| RTreeSpec.Depth | src/RTree.cpp:310-313 | the depth is at least one |
| RTreeSpec.StripSize | src/RTree.cpp:91-93 | a non-empty input gives strips of at least one point |
| RTreeSpec.ZKey | src/RTree.cpp:68-74 | the Z-order key of a point; `Morton.InterleaveInjective` proves that distinct scaled coordinates give distinct keys |
| RTreeSpec.StripsOf | src/RTree.cpp:96-104 | the strip loop's strips; `BulkLoadFacts.StripsOfCount`, `StripsOfSizes` and `StripsOfSeparated` prove that they hold the x-sorted points, have the right sizes and are ordered by x |
| RTreeSpec.SortPoints | src/RTree.cpp:61-107 | `sort_points`; `BulkLoadFacts.SortPointsShape` proves it a permutation, Z-order sorted by key, or STR strips y-sorted, sized and x-separated |
| RTreeSpec.LeavesOf | src/RTree.cpp:115-126 | a run is never cut into more leaves than it has points |
| RTreeSpec.StripLeaves | src/RTree.cpp:127-140 | the strips are never cut into more leaves than they have points |
| RTreeSpec.RepairLeaves | src/RTree.cpp:142-157 | the leaf repair keeps the number of leaves |
| RTreeSpec.RepairParents | src/RTree.cpp:175-190 | the parent repair; `BulkLoadFacts.RepairParentsKeeps` and `RepairParentsMoves` prove that it keeps size, order and shape and moves exactly the spare children |
| RTreeSpec.ParentsOf | src/RTree.cpp:162-174 | grouping never adds nodes, keeps a non-empty level non-empty, and shrinks a level of two or more |
| RTreeSpec.Grow | src/RTree.cpp:159-192 | the level loop ends with at most one node, and with one if it started with any |
| RTreeSpec.BulkLoad | src/RTree.cpp:111-203 | the tree `insert_sorted` builds; `BulkLoadFacts.BulkLoadShape` proves there is one exactly when there are points, holding them in load order, boxed, 1 to `max_entries` entries a node, leaves at depth `get_depth` |
| RTreeFacts.LowHigh | src/RTree.cpp:31-38 | the folded minimum and maximum are coordinates of some point and bound all points |
| RTreeFacts.PointsBoundTight | src/RTree.cpp:29-40 | the box of points contains every point and lies inside any rectangle that does: it is the smallest |
| RTreeFacts.NodesBoundTight | src/RTree.cpp:42-49 | the box of nodes holds every child's box and lies inside any rectangle that does |
| RTreeFacts.ShapedEnclosed | src/RTree.cpp:111-203 | in a tree the loader shaped, every point lies in the box of each node above it |
| RTreeFacts.ShapedDepth | src/RTree.cpp:310-313 | `get_depth` of a shaped tree is the level every leaf sits on |
| RTreeFacts.RangeQueryIsFilter | src/RTree.cpp:232-253 | pruning loses nothing: the range query is exactly the stored points inside the range, in order |
| RTreeFacts.RangeAllIsFilter | src/RTree.cpp:245-250 | the children's answers joined in order are the filter of all their points |
| BulkLoadFacts.SortPointsShape | src/RTree.cpp:61-107 | `sort_points` permutes its input; Z-order output is sorted by key; STR strips are y-sorted, full but the last, and left of every later strip |
| BulkLoadFacts.SortPointsPermutes | src/RTree.cpp:61-107 | `sort_points` hands the loader a permutation of its input |
| BulkLoadFacts.StripsOfCount | src/RTree.cpp:96-104 | the strips together hold exactly the x-sorted points |
| BulkLoadFacts.StripsOfSizes | src/RTree.cpp:93-104 | every strip holds between 1 and `points_per_strip` points, all but the last exactly that many |
| BulkLoadFacts.StripsOfSeparated | src/RTree.cpp:83-104 | no point of a strip lies right of a point of a later strip |
| BulkLoadFacts.LeavesOfShape | src/RTree.cpp:115-126 | a run cut into leaves gives shaped leaves, full but the last, holding the run in order |
| BulkLoadFacts.StripLeavesShape | src/RTree.cpp:127-140 | the strips' leaves are shaped and hold the strips' points in order |
| BulkLoadFacts.LeavesShape | src/RTree.cpp:115-140 | either leaf builder gives shaped leaves holding the sorted data in order |
| BulkLoadFacts.SpareBounds | src/RTree.cpp:147-149 | the moved count is positive, leaves the donor at least `min_entries` and the receiver at most `min_entries` |
| BulkLoadFacts.RepairLeavesKeeps | src/RTree.cpp:142-157 | the leaf repair keeps the level's size, its points in order, and its shape |
| BulkLoadFacts.RepairLeavesMoves | src/RTree.cpp:142-157 | when it applies, the repair moves exactly the spare count from the second-to-last leaf to the last and touches nothing else |
| BulkLoadFacts.RepairParentsKeeps | src/RTree.cpp:175-190 | the parent repair keeps the level's size, its points in order, and its shape |
| BulkLoadFacts.RepairParentsMoves | src/RTree.cpp:175-190 | when it applies, the repair moves exactly the spare count of children and touches nothing else |
| BulkLoadFacts.ParentsOfShape | src/RTree.cpp:162-174 | grouping gives shaped parents one level up, full but the last, holding the points in order |
| BulkLoadFacts.NextLevelKeeps | src/RTree.cpp:161-191 | one round of the level loop keeps the shape and the points in order |
| BulkLoadFacts.GrowKeeps | src/RTree.cpp:159-192 | the level loop keeps the points in order and leaves nodes of one common height |
| BulkLoadFacts.LeafLevel | src/RTree.cpp:111-157 | the repaired leaf level is not empty for non-empty data, shaped, holds the points in load order, and has at most one leaf unless `max_entries` is at least 2 |
| BulkLoadFacts.GrowToRoot | src/RTree.cpp:159-192 | the level loop on shaped nodes leaves one root holding their points in order, shaped with its leaves at the depth it reports |
| BulkLoadFacts.LoadPermuted | src/RTree.cpp:206-230 | loading a permutation of a non-empty input on which the source finishes gives one shaped root holding exactly those points, each in the box of every node above it |
| BulkLoadFacts.BulkLoadShape | src/RTree.cpp:111-203 | there is a tree exactly when there are points; it holds them in load order, every box is `compute_boundary` of its entries, every node holds 1 to `max_entries` entries, all leaves at depth `get_depth`; stated for every input on which the loader finishes |
| RTreeSearch.PushPoints | src/RTree.cpp:273-277 | queueing a leaf's points adds exactly those points, each with its true distance |
| RTreeSearch.PushChildren | src/RTree.cpp:279-284 | queueing the children adds exactly the points below them, with lower-bound distances |
| RTreeSearch.PopBound | src/RTree.cpp:262-264 | the popped entry is no farther than any point still queued |
| RTreeSearch.PopPointKeeps | src/RTree.cpp:266-269 | reporting a popped point keeps the results ascending and none of the queued points nearer |
| RTreeSearch.Expand | src/RTree.cpp:263-285 | one step keeps the search invariant and lowers the remaining work |
| RTreeSearch.SearchStart | src/RTree.cpp:260 | the queue holding only the root satisfies the search invariant |
| RTreeSearch.SearchEnd | src/RTree.cpp:262-288 | when the search stops, the results are stored points, all of them if the queue emptied, none nearer left out |
| RTreeIndex.Extent | src/RTree.cpp:210-217 | the extent loop finds the folded least and greatest coordinates, which bound every point |
| RTreeIndex.ComputeBoundary | src/RTree.cpp:29-40 | the loop computes the box of points (the smallest box, by `RTreeFacts.PointsBoundTight`) |
| RTreeIndex.ComputeNodesBoundary | src/RTree.cpp:42-49 | the loop computes the union of the children's boxes |
| RTreeIndex.ChunkLeaves | src/RTree.cpp:115-126 | the leaf loop cuts the run into the value model's leaves |
| RTreeIndex.ChunkStrips | src/RTree.cpp:127-140 | the strip loops cut each strip into leaves, never topping up a leaf from the next strip |
| RTreeIndex.MoveEntries | src/RTree.cpp:150-153 | moving back entries one at a time moves the donor's tail, in order, to the receiver's front |
| RTreeIndex.RebalanceLeaves | src/RTree.cpp:146-156 | the two leaves after the move, each boxed afresh |
| RTreeIndex.BuildLeaves | src/RTree.cpp:111-140 | the leaf loops compute the value model's leaves, for Z-order runs and for STR strips |
| RTreeIndex.RepairLeafLevel | src/RTree.cpp:142-157 | the leaf repair computes the value model's repair |
| RTreeIndex.RebalanceParents | src/RTree.cpp:179-189 | the two parents after the move, each boxed afresh |
| RTreeIndex.RepairParentLevel | src/RTree.cpp:175-190 | the parent repair computes the value model's repair |
| RTreeIndex.BuildParents | src/RTree.cpp:162-174 | the grouping loop computes the value model's parent level |
| RTreeIndex.BuildLevels | src/RTree.cpp:159-192 | the level loop computes the value model's level growth, on every level on which it finishes |
| RTreeIndex.CutStrips | src/RTree.cpp:96-104 | the strip loop computes the value model's strips |
| RTreeIndex.RTree.constructor | src/RTree.cpp:20-21 | a new tree is an empty leaf with the given box and fill bounds |
| RTreeIndex.RTree.SortPoints | src/RTree.cpp:61-107 | the method computes `sort_points` of the value model, a permutation of the input |
| RTreeIndex.RTree.InsertSorted | src/RTree.cpp:111-203 | on every input on which the loader finishes, the root becomes the value model's bulk-loaded tree; with no data nothing changes |
| RTreeIndex.RTree.TakeRoot | src/RTree.cpp:194-202 | the object takes the loaded root's box, entries and kind, leaving the unused entry list empty; the fill bounds stay |
| RTreeIndex.RTree.Insert | src/RTree.cpp:206-230 | with no points nothing changes; otherwise the tree holds exactly the given points, is valid and tidy, every node holds 1 to `max_entries` entries, and every leaf lies at depth `get_depth`; stated for every input on which the source finishes |
| RTreeIndex.RTree.RangeQuery | src/RTree.cpp:232-253 | in a valid tree, the stored points inside the range, in stored order |
| RTreeIndex.RTree.GetDepth | src/RTree.cpp:310-313 | at least one, and the height of the tree when it is shaped |
| RTreeIndex.RTree.KnnQuery | src/RTree.cpp:255-289 | at most k results (k as `size_t`), ascending true distances, stored points, all points when fewer than k, and no point left out nearer than any result |

## Left out

- **Diagnostics and I/O are not modelled:** `print_tree`, `save_structure`, `collect_stats`, `get_avg_occupancy`, `get_avg_overlap_per_level`, and the `operator<<` of `Point` and `Rectangle`. They only print or summarise floats.
- **Memory is not modelled.** Destructors, `new`/`delete` and pointers are absent: nodes are values owned by their parent, so sharing and aliasing between nodes are not modelled.
- **Arithmetic is exact.** `float` and `double` are exact reals, so rounding is not modelled. Distances are kept squared, since `sqrt` preserves their order.
- **The Z-order key takes a `scale` parameter.** The scale stands for the normalisation and the cast to `uint32` (src/RTree.cpp:69-72). That cast includes the float division by zero when all points share a coordinate.
- **The STR strip count `S` is a parameter.** The source computes it as `ceil(sqrt(n / max_entries))` in `double`. The guard for `S == 0` and the ceiling division are modelled.
- **`std::sort` tie order is fixed.** The source's sort leaves ties unspecified; the model sorts with a stable insertion sort. The proved contracts of `sort_points` state sortedness and permutation, which any `std::sort` result meets.
- **`interleave_bits` and the libmorton header.** Its `|=` of disjoint bits is modelled as addition. The libmorton header is included by src/RTree.cpp but unused, and is not part of this model.
- **The queue counter is unbounded.** It is an `int` in the source, where it could overflow.
- **`i + max_entries` does not wrap.** The leaf and strip loops compute it in `size_t`; the model takes no wrap-around near 2^64.
- **The QuadTree's `if (child)` test always passes.** Every divided node has four children (src/QuadTree.cpp:133).
- **QuadTree divided-node points.** The source can leave a divided node's point list non-empty only transiently (src/QuadTree.cpp:71). A model node is either a leaf with points or a divided node without them.
- QuadTreeIndex.InsertPoint: is stated only when the recursion ends within a depth budget `fuel`, because the source's recursion is unbounded. It never ends with a capacity of 0. It also never ends when more than `capacity` points with distinct ids share one location: each subdivision sends them all to the same quadrant (src/QuadTree.cpp:61-80), which overflows again. QuadSpec.Insert returns None when the budget runs out.
- QuadTreeIndex.RouteToChildren: carries the same depth budget as QuadTreeIndex.InsertPoint.
- QuadTreeIndex.KnnQuery: is stated for a tree whose points lie in their nodes' boundaries. `QuadFacts.InvEnclosed` proves this of every tree insertion builds; on other trees the result order is not stated.
- RTreeIndex.RTree.KnnQuery: is stated for a valid tree, which `RTreeIndex.RTree.Insert` always leaves behind; on other trees the result order is not stated.
- RTreeIndex.RTree.Insert: requires `RTreeSpec.Finishes`, which holds on exactly the inputs on which the source's loops end. On the others the source does not terminate.
- RTreeIndex.RTree.InsertSorted: requires `RTreeSpec.Loadable`, the same condition on the sorted data, for the same reason.
- RTreeIndex.RTree.GetDepth: requires every inner node on the first-child path to have a child. The source reads `children[0]` unchecked, and every tree the loader builds meets this.
- RTreeIndex.RTree.RangeQuery: states pruning-loses-nothing only for a valid tree; on others it states equality with the recursive definition.
- **Ill-formed rectangles.** Rectangles whose stored bounds disagree with their centre and size, or with negative width or height, satisfy the geometric lemmas only where those lemmas say so.
