/** The R-tree as the source builds and queries it. The root is an object
    whose fields the bulk loader overwrites in place; the nodes below it are
    values, each built once by the loader and owned by its parent alone.
    Every loop of the loader is a method proved to compute the matching
    function of the value model, whose properties are proved apart. */
module RTreeIndex {
  import opened Geometry
  import opened Machine
  import opened Wrappers
  import opened Morton
  import opened Sequences
  import opened Sorting
  import opened Heap
  import opened KnnResults
  import opened RTreeSpec
  import opened RTreeFacts
  import opened BulkLoadFacts
  import opened RTreeSearch

  // ------------------------------------------------------------ bounding boxes

  /** The least and greatest x and y of a non-empty point list, each folded
      from the first point's coordinate over every point. */
  method Extent(pts: seq<Point>) returns (minX: real, maxX: real, minY: real, maxY: real)
    requires pts != []
    ensures minX == Low(pts, X) && maxX == High(pts, X)
    ensures minY == Low(pts, Y) && maxY == High(pts, Y)
    ensures forall i :: 0 <= i < |pts| ==> minX <= pts[i].x <= maxX && minY <= pts[i].y <= maxY
  {
    minX, maxX := pts[0].x, pts[0].x;
    minY, maxY := pts[0].y, pts[0].y;
    var i := 0;
    while i < |pts|
      invariant 0 <= i <= |pts|
      invariant minX == Low(pts[..Seen(i)], X) && maxX == High(pts[..Seen(i)], X)
      invariant minY == Low(pts[..Seen(i)], Y) && maxY == High(pts[..Seen(i)], Y)
    {
      ExtentStep(pts, i, X);
      ExtentStep(pts, i, Y);
      minX := Min(minX, pts[i].x);
      maxX := Max(maxX, pts[i].x);
      minY := Min(minY, pts[i].y);
      maxY := Max(maxY, pts[i].y);
      i := i + 1;
    }
    assert pts[..Seen(i)] == pts;
    LowHigh(pts, X);
    LowHigh(pts, Y);
  }

  /** How many points the extent loop has folded in after i rounds: the
      first point is its starting value, so folding it again changes nothing. */
  function Seen(i: nat): nat { if i == 0 then 1 else i }

  /** One round of the extent loop folds in the next point. */
  lemma ExtentStep(pts: seq<Point>, i: nat, a: Axis)
    requires i < |pts|
    ensures Low(pts[..Seen(i + 1)], a) == Min(Low(pts[..Seen(i)], a), Coord(pts[i], a))
    ensures High(pts[..Seen(i + 1)], a) == Max(High(pts[..Seen(i)], a), Coord(pts[i], a))
  {
    if i > 0 {
      assert pts[..i + 1][..i] == pts[..i];
    }
  }

  /** `compute_boundary` of points: the zero rectangle for none, otherwise
      the rectangle spanning the extent of the points. */
  method ComputeBoundary(pts: seq<Point>) returns (r: Rectangle)
    ensures r == PointsBound(pts)
  {
    if pts == [] {
      return Rect(0.0, 0.0, 0.0, 0.0);
    }
    var minX, maxX, minY, maxY := Extent(pts);
    r := Rect((minX + maxX) / 2.0, (minY + maxY) / 2.0, maxX - minX, maxY - minY);
  }

  /** `compute_boundary` of nodes: the zero rectangle for none, otherwise the
      first child's box grown by each later child's box in turn. */
  method ComputeNodesBoundary(ns: seq<Node>) returns (r: Rectangle)
    ensures r == NodesBound(ns)
  {
    if ns == [] {
      return Rect(0.0, 0.0, 0.0, 0.0);
    }
    r := ns[0].boundary;
    var i := 1;
    while i < |ns|
      invariant 1 <= i <= |ns| && r == NodesBound(ns[..i])
    {
      assert ns[..i + 1][..i] == ns[..i];
      r := UnionWith(r, ns[i].boundary);
      i := i + 1;
    }
    assert ns[..i] == ns;
  }

  // ------------------------------------------------------------ leaf level

  /** One sorted run cut into leaves of `max_entries` points, the last
      possibly fewer, each boxed by `compute_boundary`. */
  method ChunkLeaves(pts: seq<Point>, maxEntries: int32) returns (leaves: seq<Node>)
    requires SizeT(maxEntries) > 0 || pts == []
    ensures leaves == LeavesOf(pts, SizeT(maxEntries))
  {
    var max := SizeT(maxEntries);
    leaves := [];
    var i := 0;
    while i < |pts|
      invariant 0 <= i
      invariant leaves + LeavesOf(pts[MinNat(i, |pts|)..], max) == LeavesOf(pts, max)
      decreases |pts| - i
    {
      var leafEnd := MinNat(i + max, |pts|);
      var leafPoints := pts[i..leafEnd];
      var b := ComputeBoundary(leafPoints);
      var leaf := Leaf(b, leafPoints);
      ghost var leaves0, i0 := leaves, i;
      leaves := leaves + [leaf];
      i := i + max;
      ChunkStep(pts, max, i0, leaves0, leaf, i, leaves);
    }
  }

  /** Cutting the next leaf off the rest of a run keeps the loop's account:
      the leaves so far followed by the leaves of what is left. */
  lemma ChunkStep(pts: seq<Point>, max: nat, i: nat, leaves: seq<Node>, leaf: Node, i': nat, leaves': seq<Node>)
    requires i < |pts| && max > 0
    requires leaves + LeavesOf(pts[MinNat(i, |pts|)..], max) == LeavesOf(pts, max)
    requires leaf == Leaf(PointsBound(pts[i..MinNat(i + max, |pts|)]), pts[i..MinNat(i + max, |pts|)])
    requires i' == i + max && leaves' == leaves + [leaf]
    ensures leaves' + LeavesOf(pts[MinNat(i', |pts|)..], max) == LeavesOf(pts, max)
  {
    assert MinNat(i', |pts|) == MinNat(i + max, |pts|);
    assert MinNat(i, |pts|) == i;
    LeavesOfAt(pts, i, max);
    ShiftOne(leaves, leaf, LeavesOf(pts[i..], max), LeavesOf(pts[MinNat(i', |pts|)..], max), LeavesOf(pts, max));
  }

  lemma LeavesOfAt(pts: seq<Point>, i: nat, max: nat)
    requires i < |pts| && max > 0
    ensures var leafPoints := pts[i..MinNat(i + max, |pts|)];
      LeavesOf(pts[i..], max) ==
      [Leaf(PointsBound(leafPoints), leafPoints)] + LeavesOf(pts[MinNat(i + max, |pts|)..], max)
  {
    var rest := pts[i..];
    var k := MinNat(max, |rest|);
    assert rest[..k] == pts[i..MinNat(i + max, |pts|)];
    assert rest[k..] == pts[MinNat(i + max, |pts|)..];
  }

  /** The strips cut into leaves strip by strip: a strip's last leaf is never
      topped up from the next strip. */
  method ChunkStrips(strips: seq<seq<Point>>, maxEntries: int32) returns (leaves: seq<Node>)
    requires SizeT(maxEntries) > 0 || Concat(strips) == []
    ensures leaves == StripLeaves(strips, SizeT(maxEntries))
  {
    var max := SizeT(maxEntries);
    leaves := [];
    var s := 0;
    while s < |strips|
      invariant 0 <= s <= |strips|
      invariant max > 0 || Concat(strips[..s]) == []
      invariant leaves == StripLeaves(strips[..s], max)
    {
      if max == 0 {
        ConcatEmpty(strips, s + 1);
      }
      assert strips[..s + 1][..s] == strips[..s];
      var more := ChunkLeaves(strips[s], maxEntries);
      leaves := leaves + more;
      s := s + 1;
    }
    assert strips[..s] == strips;
  }

  /** The leaf level of `insert_sorted`: a Z-order run is one strip, STR
      strips are cut one by one. */
  method BuildLeaves(d: SortedData, maxEntries: int32) returns (leaves: seq<Node>)
    requires SizeT(maxEntries) > 0 || Entries(d) == []
    ensures leaves == Leaves(d, SizeT(maxEntries))
  {
    match d {
      case Flat(pts) =>
        leaves := ChunkLeaves(pts, maxEntries);
      case Strips(ss) =>
        leaves := ChunkStrips(ss, maxEntries);
    }
  }

  // ------------------------------------------------------------ underflow repair

  /** `count` times, take the back entry of `prev` and insert it at the front
      of `last`: the tail of `prev` moves, in order, ahead of `last`. */
  method MoveEntries<T>(prev: seq<T>, last: seq<T>, count: nat) returns (prev': seq<T>, last': seq<T>)
    requires count <= |prev|
    ensures prev' == prev[..|prev| - count]
    ensures last' == prev[|prev| - count..] + last
    ensures prev' + last' == prev + last
  {
    prev', last' := prev, last;
    var j := 0;
    while j < count
      invariant 0 <= j <= count
      invariant prev' == prev[..|prev| - j] && last' == prev[|prev| - j..] + last
    {
      var cut := |prev| - j - 1;
      assert prev[cut..] == [prev[cut]] + prev[cut + 1..];
      last' := [prev'[|prev'| - 1]] + last';
      prev' := prev'[..|prev'| - 1];
      j := j + 1;
    }
    MoveTail(prev, last, |prev| - count);
  }

  /** The leaf repair: when the last leaf holds fewer than `min_entries`
      points and the one before holds more, rebalance the two. Only leaves
      hold points, so the test fails for any inner node. */
  method RepairLeafLevel(level: seq<Node>, minEntries: int32) returns (level': seq<Node>)
    ensures level' == RepairLeaves(level, SizeT(minEntries))
  {
    level' := level;
    if |level| >= 2 {
      var min := SizeT(minEntries);
      var prev, last := level[|level| - 2], level[|level| - 1];
      if prev.Leaf? && last.Leaf? && Underfull(|prev.points|, |last.points|, min) {
        var prev', last' := RebalanceLeaves(prev, last, min);
        RepairLeavesAt(level, min, prev'.points, last'.points);
        level' := level[..|level| - 2] + [prev', last'];
      }
    }
  }

  /** Move what the last leaf lacks of `min_entries`, or what the one before
      can spare, whichever is less, from the back of the one before to the
      front of the last, and recompute both boxes. */
  method RebalanceLeaves(prev: Node, last: Node, min: nat) returns (prev': Node, last': Node)
    requires prev.Leaf? && last.Leaf? && Underfull(|prev.points|, |last.points|, min)
    ensures var cut := |prev.points| - Spare(|prev.points|, |last.points|, min);
      prev' == Leaf(PointsBound(prev.points[..cut]), prev.points[..cut]) &&
      last' == Leaf(PointsBound(prev.points[cut..] + last.points), prev.points[cut..] + last.points)
  {
    var needed := min - |last.points|;
    var toTake := MinNat(needed, |prev.points| - min);
    assert toTake == Spare(|prev.points|, |last.points|, min);
    var p, l := MoveEntries(prev.points, last.points, toTake);
    ghost var cut := |prev.points| - Spare(|prev.points|, |last.points|, min);
    assert prev.points[..cut] == prev.points[..|prev.points| - toTake];
    assert prev.points[cut..] == prev.points[|prev.points| - toTake..];
    assert p == prev.points[..cut] && l == prev.points[cut..] + last.points;
    var lastBox := ComputeBoundary(l);
    var prevBox := ComputeBoundary(p);
    prev', last' := Leaf(prevBox, p), Leaf(lastBox, l);
  }

  /** The same repair one level up, between the last two parents. */
  method RepairParentLevel(level: seq<Node>, minEntries: int32) returns (level': seq<Node>)
    ensures level' == RepairParents(level, SizeT(minEntries))
  {
    level' := level;
    if |level| >= 2 {
      var min := SizeT(minEntries);
      var prev, last := level[|level| - 2], level[|level| - 1];
      if prev.Inner? && last.Inner? && Underfull(|prev.children|, |last.children|, min) {
        var prev', last' := RebalanceParents(prev, last, min);
        RepairParentsAt(level, min, prev'.children, last'.children);
        level' := level[..|level| - 2] + [prev', last'];
      }
    }
  }

  /** The same move on children, with both boxes recomputed from them. */
  method RebalanceParents(prev: Node, last: Node, min: nat) returns (prev': Node, last': Node)
    requires prev.Inner? && last.Inner? && Underfull(|prev.children|, |last.children|, min)
    ensures var cut := |prev.children| - Spare(|prev.children|, |last.children|, min);
      prev' == Inner(NodesBound(prev.children[..cut]), prev.children[..cut]) &&
      last' == Inner(NodesBound(prev.children[cut..] + last.children), prev.children[cut..] + last.children)
  {
    var needed := min - |last.children|;
    var toTake := MinNat(needed, |prev.children| - min);
    assert toTake == Spare(|prev.children|, |last.children|, min);
    var p, l := MoveEntries(prev.children, last.children, toTake);
    ghost var cut := |prev.children| - Spare(|prev.children|, |last.children|, min);
    assert prev.children[..cut] == prev.children[..|prev.children| - toTake];
    assert prev.children[cut..] == prev.children[|prev.children| - toTake..];
    assert p == prev.children[..cut] && l == prev.children[cut..] + last.children;
    var lastBox := ComputeNodesBoundary(l);
    var prevBox := ComputeNodesBoundary(p);
    prev', last' := Inner(prevBox, p), Inner(lastBox, l);
  }

  // ------------------------------------------------------------ upper levels

  /** One level up: consecutive groups of `max_entries` siblings, the last
      group possibly smaller, each under a new parent boxed by
      `compute_boundary`. */
  method BuildParents(level: seq<Node>, maxEntries: int32) returns (next: seq<Node>)
    requires SizeT(maxEntries) > 0
    ensures next == ParentsOf(level, SizeT(maxEntries))
  {
    var max := SizeT(maxEntries);
    next := [];
    var m := |level|;
    var j := 0;
    while j < m
      invariant 0 <= j <= m && next + ParentsOf(level[j..], max) == ParentsOf(level, max)
    {
      var remaining := m - j;
      var nodeSize := MinNat(max, remaining);
      var nodeChildren := level[j..j + nodeSize];
      var b := ComputeNodesBoundary(nodeChildren);
      var parent := Inner(b, nodeChildren);
      ghost var next0, j0 := next, j;
      next := next + [parent];
      j := j + nodeSize;
      ParentStep(level, max, j0, next0, nodeSize, parent, j, next);
    }
  }

  /** The level loop of `insert_sorted`: build and repair parent levels
      until at most one node is left. */
  method BuildLevels(level: seq<Node>, maxEntries: int32, minEntries: int32) returns (top: seq<Node>)
    requires SizeT(maxEntries) >= 2 || |level| <= 1
    ensures top == Grow(level, SizeT(maxEntries), SizeT(minEntries))
  {
    var max, min := SizeT(maxEntries), SizeT(minEntries);
    top := level;
    while |top| > 1
      invariant max >= 2 || |top| <= 1
      invariant Grow(top, max, min) == Grow(level, max, min)
      decreases |top|
    {
      var next := BuildParents(top, maxEntries);
      next := RepairParentLevel(next, minEntries);
      top := next;
    }
  }

  /** Grouping the next siblings under a parent keeps the loop's account:
      the parents so far followed by the parents of what is left. */
  lemma ParentStep(level: seq<Node>, max: nat, j: nat, next: seq<Node>, size: nat, parent: Node,
                   j': nat, next': seq<Node>)
    requires j < |level| && max > 0
    requires next + ParentsOf(level[j..], max) == ParentsOf(level, max)
    requires size == MinNat(max, |level| - j)
    requires parent == Inner(NodesBound(level[j..j + size]), level[j..j + size])
    requires j' == j + size && next' == next + [parent]
    ensures next' + ParentsOf(level[j'..], max) == ParentsOf(level, max)
  {
    var rest := level[j..];
    assert MinNat(max, |rest|) == size;
    SliceOfSuffix(level, j, size);
    ParentsOfFirst(rest, max, size);
    assert level[j'..] == level[j + size..];
    ShiftOne(next, parent, ParentsOf(level[j..], max), ParentsOf(level[j'..], max), ParentsOf(level, max));
  }

  lemma ParentsOfFirst(ns: seq<Node>, max: nat, k: nat)
    requires ns != [] && max > 0 && k == MinNat(max, |ns|)
    ensures ParentsOf(ns, max) == [Inner(NodesBound(ns[..k]), ns[..k])] + ParentsOf(ns[k..], max)
  {
  }

  /** The level the loop ends with is the bulk-loaded tree: nothing, or a
      single root. */
  lemma LoadedLevel(d: SortedData, max: nat, min: nat, level: seq<Node>)
    requires Loadable(d, max)
    requires level == Grow(RepairLeaves(Leaves(d, max), min), max, min)
    ensures |level| <= 1
    ensures BulkLoad(d, max, min) == if level == [] then None else Some(level[0])
  {
  }

  // ------------------------------------------------------------ the tree

  class RTree {
    var boundary: Rectangle
    var minEntries: int32
    var maxEntries: int32
    var points: seq<Point>
    var isLeaf: bool
    var children: seq<Node>

    /** The tree rooted at this object: a leaf of its points, or an inner
        node of its children. */
    function Root(): Node
      reads this
    {
      if isLeaf then Leaf(boundary, points) else Inner(boundary, children)
    }

    /** Every stored point lies in the box of each node above it. */
    ghost predicate Valid()
      reads this
    {
      Enclosed(Root())
    }

    /** A leaf holds no children and an inner root no points. */
    predicate Tidy()
      reads this
    {
      (isLeaf ==> children == []) && (!isLeaf ==> points == [])
    }

    /** An empty leaf with the given box and fill bounds. */
    constructor(boundary: Rectangle, minEntries: int32, maxEntries: int32)
      ensures this.boundary == boundary
      ensures this.minEntries == minEntries && this.maxEntries == maxEntries
      ensures isLeaf && points == [] && children == []
      ensures Valid() && Tidy()
    {
      this.boundary := boundary;
      this.minEntries := minEntries;
      this.maxEntries := maxEntries;
      points := [];
      isLeaf := true;
      children := [];
    }

    /** `sort_points`: nothing for no points; Z-order sorts by the key; STR
        sorts by x, cuts into strips of n / S points rounded up (S = 0 counts
        as one), and sorts each strip by y. The strip count S, which the
        source derives from n and `max_entries` in floating point, and the
        normalisation `scale` are parameters. The result is a permutation of
        the input. */
    method SortPoints(points: seq<Point>, minX: real, maxX: real, minY: real, maxY: real,
                      order: SortMethod, scale: (real, real, real) -> uint32, S: nat)
      returns (d: SortedData)
      ensures d == RTreeSpec.SortPoints(points, minX, maxX, minY, maxY, order, scale, S)
      ensures multiset(Entries(d)) == multiset(points)
    {
      if points == [] {
        SortPointsPermutes(points, minX, maxX, minY, maxY, order, scale, S);
        return Flat([]);
      }
      match order {
        case ZOrder =>
          d := Flat(SortBy(points, ZKey(scale, minX, maxX, minY, maxY)));
        case STR =>
          var xs := SortBy(points, XKey);
          var n := |xs|;
          var s := if S == 0 then 1 else S;
          var perStrip := (n + s - 1) / s;
          assert n > 0 by {
            assert |xs| == |multiset(xs)| == |multiset(points)| == |points|;
          }
          assert perStrip == StripSize(n, S);
          var strips := CutStrips(xs, perStrip);
          d := Strips(strips);
      }
      assert d == RTreeSpec.SortPoints(points, minX, maxX, minY, maxY, order, scale, S);
      SortPointsPermutes(points, minX, maxX, minY, maxY, order, scale, S);
    }

    /** `insert_sorted`: cut the sorted data into leaves, repair the last
        leaf, build and repair parent levels until one node is left, and make
        this object that node. Without data nothing changes. */
    method InsertSorted(d: SortedData)
      requires Loadable(d, SizeT(maxEntries))
      modifies this
      ensures minEntries == old(minEntries) && maxEntries == old(maxEntries)
      ensures BulkLoad(d, SizeT(maxEntries), SizeT(minEntries)).None? ==> unchanged(this)
      ensures BulkLoad(d, SizeT(maxEntries), SizeT(minEntries)).Some? ==>
                BulkLoad(d, SizeT(maxEntries), SizeT(minEntries)) == Some(Root()) && Tidy()
    {
      var max, min := SizeT(maxEntries), SizeT(minEntries);
      var leaves := BuildLeaves(d, maxEntries);
      var repaired := RepairLeafLevel(leaves, minEntries);
      var level := BuildLevels(repaired, maxEntries, minEntries);
      LoadedLevel(d, max, min, level);
      if |level| > 0 {
        TakeRoot(level[0]);
      }
    }

    /** The end of `insert_sorted`: this object takes over the box, entries
        and kind of the loaded root. */
    method TakeRoot(root: Node)
      modifies this
      ensures minEntries == old(minEntries) && maxEntries == old(maxEntries)
      ensures Root() == root && Tidy()
    {
      boundary := root.boundary;
      match root {
        case Leaf(_, pts) =>
          children, points, isLeaf := [], pts, true;
        case Inner(_, ch) =>
          children, points, isLeaf := ch, [], false;
      }
    }

    /** `insert`: with no points nothing changes; otherwise find the data's
        extent, clear the tree, sort and bulk load. The new tree holds
        exactly the given points; every node's box is `compute_boundary` of
        its entries, every node holds between one and `max_entries` entries,
        and every leaf lies at the depth `get_depth` reports. The source
        finishes only with `max_entries` of two or more, or with a single
        point and `max_entries` of one. */
    method Insert(pts: seq<Point>, order: SortMethod, scale: (real, real, real) -> uint32, S: nat)
      requires Finishes(|pts|, SizeT(maxEntries))
      modifies this
      ensures minEntries == old(minEntries) && maxEntries == old(maxEntries)
      ensures pts == [] ==> unchanged(this)
      ensures pts != [] ==>
                var d := RTreeSpec.SortPoints(pts, Low(pts, X), High(pts, X), Low(pts, Y), High(pts, Y), order, scale, S);
                Loadable(d, SizeT(maxEntries)) &&
                Some(Root()) == BulkLoad(d, SizeT(maxEntries), SizeT(minEntries))
      ensures pts != [] ==> multiset(Flatten(Root())) == multiset(pts) && Valid() && Tidy()
      ensures pts != [] ==>
                Descends(Root()) && Shaped(Root(), Depth(Root()), SizeT(maxEntries))
    {
      if pts == [] {
        return;
      }
      var minX, maxX, minY, maxY := Extent(pts);
      children := [];
      points := [];
      isLeaf := true;
      var d := SortPoints(pts, minX, maxX, minY, maxY, order, scale, S);
      LoadPermuted(pts, d, SizeT(maxEntries), SizeT(minEntries));
      InsertSorted(d);
    }

    /** `range_query`: the stored points inside the range, in stored order;
        subtrees whose box misses the range are skipped, which loses nothing
        in a valid tree. */
    method RangeQuery(range: Rectangle) returns (found: seq<Point>)
      ensures found == RTreeSpec.RangeQuery(Root(), range)
      ensures Valid() ==> found == PointsIn(range, Flatten(Root()))
    {
      if Valid() {
        RangeQueryIsFilter(Root(), range);
      }
      found := RTreeSpec.RangeQuery(Root(), range);
    }

    /** `get_depth`: one for a leaf, otherwise one more than the first
        child's depth; in a tree the loader shaped, the level of every leaf. */
    function GetDepth(): (d: nat)
      reads this
      requires Descends(Root())
      ensures d >= 1
      ensures forall h, cap :: Shaped(Root(), h, cap) ==> d == h
    {
      assert forall h, cap :: Shaped(Root(), h, cap) ==> Depth(Root()) == h by {
        forall h, cap | Shaped(Root(), h, cap)
          ensures Depth(Root()) == h
        {
          ShapedDepth(Root(), h, cap);
        }
      }
      Depth(Root())
    }

    /** `knn_query`: best-first search from this node, popping the queue's
        least (distance, counter) entry: a point is reported with its
        distance, a leaf queues its points and an inner node its children,
        until k points are reported or the queue is empty. `k` is compared as
        `size_t`, so a negative k reports every point. Distances are squared. */
    method KnnQuery(query: Point, k: int32) returns (results: seq<(Point, real)>)
      requires Valid()
      ensures |results| <= SizeT(k)
      ensures forall a, b :: 0 <= a < b < |results| ==> results[a].1 <= results[b].1
      ensures forall a :: 0 <= a < |results| ==> results[a].1 == DistSq(query, results[a].0)
      ensures multiset(PointsOf(results)) <= multiset(Flatten(Root()))
      ensures |results| < SizeT(k) ==> multiset(PointsOf(results)) == multiset(Flatten(Root()))
      ensures forall a, x :: 0 <= a < |results| && x in multiset(Flatten(Root())) - multiset(PointsOf(results)) ==>
                results[a].1 <= DistSq(query, x)
    {
      var root := Root();
      var heap: seq<HeapEntry<Node>> := [NodeEntry(RectDistSq(query, boundary), 0, root)];
      var counter := 1;
      results := [];
      SearchStart(root, query);
      while |heap| > 0 && |results| < SizeT(k)
        invariant |results| <= SizeT(k) && SearchInv(root, query, heap, results)
        decreases Weight(heap)
      {
        heap, counter, results := Expand(root, query, heap, counter, results);
      }
      SearchEnd(root, query, heap, results);
    }
  }

  /** The strip loop of `sort_points`: consecutive runs of `size` x-sorted
      points, the last possibly shorter, each sorted by y. */
  method CutStrips(xs: seq<Point>, size: nat) returns (strips: seq<seq<Point>>)
    requires size > 0
    ensures strips == StripsOf(xs, size)
  {
    var n := |xs|;
    strips := [];
    var i := 0;
    while i < n
      invariant 0 <= i
      invariant strips + StripsOf(xs[MinNat(i, |xs|)..], size) == StripsOf(xs, size)
      decreases n - i
    {
      var stripEnd := MinNat(i + size, n);
      var strip := SortBy(xs[i..stripEnd], YKey);
      ghost var strips0, i0 := strips, i;
      strips := strips + [strip];
      i := i + size;
      StripStep(xs, size, i0, strips0, strip, i, strips);
    }
  }

  /** Cutting the next strip off the rest of the x-sorted points keeps the
      loop's account: the strips so far followed by the strips of what is
      left. */
  lemma StripStep(xs: seq<Point>, size: nat, i: nat, strips: seq<seq<Point>>, strip: seq<Point>,
                  i': nat, strips': seq<seq<Point>>)
    requires i < |xs| && size > 0
    requires strips + StripsOf(xs[MinNat(i, |xs|)..], size) == StripsOf(xs, size)
    requires strip == SortBy(xs[i..MinNat(i + size, |xs|)], YKey)
    requires i' == i + size && strips' == strips + [strip]
    ensures strips' + StripsOf(xs[MinNat(i', |xs|)..], size) == StripsOf(xs, size)
  {
    assert MinNat(i', |xs|) == MinNat(i + size, |xs|);
    assert MinNat(i, |xs|) == i;
    StripsOfAt(xs, i, size);
    ShiftOne(strips, strip, StripsOf(xs[i..], size), StripsOf(xs[MinNat(i', |xs|)..], size), StripsOf(xs, size));
  }

  lemma StripsOfAt(xs: seq<Point>, i: nat, size: nat)
    requires i < |xs| && size > 0
    ensures StripsOf(xs[i..], size) ==
            [SortBy(xs[i..MinNat(i + size, |xs|)], YKey)] + StripsOf(xs[MinNat(i + size, |xs|)..], size)
  {
    var rest := xs[i..];
    var k := MinNat(size, |rest|);
    assert rest[..k] == xs[i..MinNat(i + size, |xs|)];
    assert rest[k..] == xs[MinNat(i + size, |xs|)..];
  }
}
