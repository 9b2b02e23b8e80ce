/** The QuadTree's operations as the source performs them, loop by loop. A node
    is a `Tree` value and each operation returns the node it leaves behind; each
    is proved to compute what the value model prescribes, and through the value
    model's lemmas to keep its invariants. */
module QuadTreeIndex {
  import opened Geometry
  import opened Wrappers
  import opened Machine
  import opened QuadSpec
  import opened QuadFacts
  import opened Heap
  import opened Sequences
  import opened KnnResults

  /** A new tree: one undivided node with no points. */
  function NewTree(boundary: Rectangle): (t: Tree)
    ensures t.boundary == boundary && Flatten(t) == []
    ensures Consistent(boundary) ==> forall cap :: Inv(t, cap)
  {
    Leaf(boundary, [])
  }

  // ---------------------------------------------------------------- insertion

  /** `insert`: refuse a point outside the boundary; at a leaf below capacity
      refuse a duplicate id or append; at a full leaf subdivide, re-insert the
      held points into the children and drop them from the node; then offer
      the point to the children. `fuel` bounds the depth of the recursion,
      which the source does not bound. */
  method InsertPoint(t: Tree, capacity: int32, p: Point, ghost fuel: nat) returns (t': Tree, ok: bool)
    requires Insert(t, SizeT(capacity), p, fuel).Some?
    ensures Insert(t, SizeT(capacity), p, fuel) == Some((t', ok))
    ensures Inv(t, SizeT(capacity)) ==> InsertOutcome(t, SizeT(capacity), p, t', ok)
    decreases fuel, 0
  {
    var cap := SizeT(capacity);
    if Inv(t, cap) {
      InsertKeeps(t, cap, p, fuel);
    }
    if !Contains(t.boundary, p) {
      return t, false;
    }
    if t.Leaf? && |t.points| < cap {
      var i := 0;
      while i < |t.points|
        invariant 0 <= i <= |t.points|
        invariant forall j :: 0 <= j < i ==> t.points[j].id != p.id
      {
        if t.points[i].id == p.id {
          return t, false;
        }
        i := i + 1;
      }
      return Leaf(t.boundary, t.points + [p]), true;
    }
    var node := t;
    if t.Leaf? {
      var pts := t.points;
      node := Split(t.boundary);
      var i := 0;
      while i < |pts|
        invariant 0 <= i <= |pts| && node.Node? && node.boundary == t.boundary
        invariant Redistribute(Split(t.boundary), cap, pts, fuel - 1) ==
                  Redistribute(node, cap, pts[i..], fuel - 1)
      {
        ghost var node0, i0 := node, i;
        var accepted;
        node, accepted := RouteToChildren(node, capacity, pts[i], fuel - 1);
        i := i + 1;
        RedistributeStep(node0, cap, pts, i0, i, node, accepted, fuel - 1);
      }
      assert pts[i..] == [];
    }
    t', ok := RouteToChildren(node, capacity, p, fuel - 1);
  }

  /** Routing the next held point leaves the rest to redistribute. */
  lemma RedistributeStep(t: Tree, cap: nat, pts: seq<Point>, i: nat, i': nat, t': Tree, ok: bool, fuel: nat)
    requires t.Node? && i < |pts| && i' == i + 1
    requires Route(t, cap, pts[i], fuel, InsertOrder) == Some((t', ok))
    ensures t'.Node?
    ensures Redistribute(t, cap, pts[i..], fuel) == Redistribute(t', cap, pts[i'..], fuel)
  {
    assert pts[i..][1..] == pts[i'..];
  }

  /** Offer p to the children in NE, NW, SE, SW order until one accepts. */
  method RouteToChildren(t: Tree, capacity: int32, p: Point, ghost fuel: nat) returns (t': Tree, ok: bool)
    requires t.Node?
    requires Route(t, SizeT(capacity), p, fuel, InsertOrder).Some?
    ensures Route(t, SizeT(capacity), p, fuel, InsertOrder) == Some((t', ok))
    decreases fuel, 2
  {
    t', ok := t, false;
    var i := 0;
    while i < |InsertOrder| && !ok
      invariant 0 <= i <= |InsertOrder| && t'.Node?
      invariant Route(t, SizeT(capacity), p, fuel, InsertOrder) ==
                if ok then Some((t', true)) else Route(t', SizeT(capacity), p, fuel, InsertOrder[i..])
    {
      assert InsertOrder[i..][1..] == InsertOrder[i + 1..];
      var q := InsertOrder[i];
      var c;
      c, ok := InsertPoint(Child(t', q), capacity, p, fuel);
      t' := WithChild(t', q, c);
      i := i + 1;
    }
  }

  // ---------------------------------------------------------------- k nearest

  /** The stored points a queue entry stands for. */
  ghost function EntryPoints(e: HeapEntry<Tree>): multiset<Point> {
    match e
    case NodeEntry(_, _, n) => multiset(Flatten(n))
    case PointEntry(_, _, p) => multiset{p}
  }

  /** The stored points the queue still stands for. */
  ghost function Pending(h: seq<HeapEntry<Tree>>): multiset<Point> {
    if h == [] then multiset{} else EntryPoints(h[0]) + Pending(h[1..])
  }

  /** Nodes and points of a subtree: what expanding it can still produce. */
  function Size(t: Tree): nat {
    match t
    case Leaf(_, pts) => 1 + |pts|
    case Node(_, nw, ne, sw, se) => 1 + Size(nw) + Size(ne) + Size(sw) + Size(se)
  }

  function EntryWeight(e: HeapEntry<Tree>): nat {
    match e
    case NodeEntry(_, _, n) => Size(n)
    case PointEntry(_, _, _) => 1
  }

  /** The work left in the queue; every step of the search lowers it. */
  function Weight(h: seq<HeapEntry<Tree>>): nat {
    if h == [] then 0 else EntryWeight(h[0]) + Weight(h[1..])
  }

  /** An entry's distance is the true distance to its point, or the distance
      to its node's boundary, which encloses everything below the node. */
  ghost predicate Sound(query: Point, e: HeapEntry<Tree>) {
    match e
    case NodeEntry(d, _, n) => Enclosed(n) && d == RectDistSq(query, n.boundary)
    case PointEntry(d, _, p) => d == DistSq(query, p)
  }

  ghost predicate AllSound(query: Point, h: seq<HeapEntry<Tree>>) {
    forall m :: 0 <= m < |h| ==> Sound(query, h[m])
  }

  lemma {:induction false} PendingConcat(a: seq<HeapEntry<Tree>>, b: seq<HeapEntry<Tree>>)
    ensures Pending(a + b) == Pending(a) + Pending(b)
    ensures Weight(a + b) == Weight(a) + Weight(b)
  {
    if a == [] {
      assert a + b == b;
    } else {
      assert (a + b)[1..] == a[1..] + b;
      PendingConcat(a[1..], b);
    }
  }

  /** Popping the entry at position i takes exactly its points and its weight
      out of the queue. */
  lemma PendingRemove(h: seq<HeapEntry<Tree>>, i: nat)
    requires i < |h|
    ensures Pending(h) == Pending(RemoveAt(h, i)) + EntryPoints(h[i])
    ensures Weight(h) == Weight(RemoveAt(h, i)) + EntryWeight(h[i])
  {
    var a, e, b := h[..i], [h[i]], h[i + 1..];
    SplitAt(h, i);
    PendingConcat(a + e, b);
    PendingConcat(a, e);
    PendingConcat(a, b);
    assert e[1..] == [];
  }

  /** A pending point belongs to some entry of the queue. */
  lemma {:induction false} PendingMember(h: seq<HeapEntry<Tree>>, x: Point) returns (j: nat)
    requires x in Pending(h)
    ensures j < |h| && x in EntryPoints(h[j])
  {
    if x in EntryPoints(h[0]) {
      j := 0;
    } else {
      var k := PendingMember(h[1..], x);
      j := k + 1;
    }
  }

  /** A sound entry's distance is a lower bound for every point it stands for. */
  lemma EntryBound(query: Point, e: HeapEntry<Tree>, x: Point)
    requires Sound(query, e) && x in EntryPoints(e)
    ensures e.dist <= DistSq(query, x)
  {
    if e.NodeEntry? {
      RectDistSqLowerBound(query, e.node.boundary, x);
    }
  }

  /** Best-first order: the popped entry is no farther than any point left in
      the queue after it. */
  lemma PopBound(query: Point, h: seq<HeapEntry<Tree>>, x: Point)
    requires |h| > 0 && AllSound(query, h)
    requires x in Pending(RemoveAt(h, Top(h)))
    ensures h[Top(h)].dist <= DistSq(query, x)
  {
    var i := Top(h);
    var r := RemoveAt(h, i);
    var j := PendingMember(r, x);
    var j' := if j < i then j else j + 1;
    assert r[j] == h[j'];
    TopIsLeast(h, j');
    EntryBound(query, h[j'], x);
  }

  /** Queue one entry behind the others. */
  lemma Push(heap: seq<HeapEntry<Tree>>, e: HeapEntry<Tree>)
    ensures |heap + [e]| == |heap| + 1 && (heap + [e])[|heap|] == e
    ensures forall m :: 0 <= m < |heap| ==> (heap + [e])[m] == heap[m]
    ensures Pending(heap + [e]) == Pending(heap) + EntryPoints(e)
    ensures Weight(heap + [e]) == Weight(heap) + EntryWeight(e)
  {
    PendingConcat(heap, [e]);
    assert [e][1..] == [];
  }

  lemma SoundPush(query: Point, h: seq<HeapEntry<Tree>>, e: HeapEntry<Tree>)
    requires AllSound(query, h) && Sound(query, e)
    ensures AllSound(query, h + [e])
  {
  }

  /** Queue one point with its distance and the next counter. */
  method PushPoint(heap: seq<HeapEntry<Tree>>, counter: int, query: Point, p: Point)
    returns (heap': seq<HeapEntry<Tree>>, counter': int)
    ensures counter' == counter + 1 && |heap'| == |heap| + 1
    ensures AllSound(query, heap) ==> AllSound(query, heap')
    ensures Pending(heap') == Pending(heap) + multiset{p}
    ensures Weight(heap') == Weight(heap) + 1
  {
    var e := PointEntry(DistSq(query, p), counter, p);
    Push(heap, e);
    if AllSound(query, heap) {
      SoundPush(query, heap, e);
    }
    heap', counter' := heap + [e], counter + 1;
  }

  /** Queueing point j after points 0..j-1 accounts for points 0..j. */
  lemma NextPoint(pts: seq<Point>, j: nat, j': nat, heap: seq<HeapEntry<Tree>>,
                  before: seq<HeapEntry<Tree>>, after: seq<HeapEntry<Tree>>)
    requires j < |pts| && j' == j + 1
    requires Pending(before) == Pending(heap) + multiset(pts[..j])
    requires Weight(before) == Weight(heap) + j
    requires Pending(after) == Pending(before) + multiset{pts[j]}
    requires Weight(after) == Weight(before) + 1
    ensures Pending(after) == Pending(heap) + multiset(pts[..j'])
    ensures Weight(after) == Weight(heap) + j'
  {
    TakeNextCount(pts, j, j');
  }

  /** Queue the points of a leaf in their stored order. */
  method PushPoints(heap: seq<HeapEntry<Tree>>, counter: int, query: Point, pts: seq<Point>)
    returns (heap': seq<HeapEntry<Tree>>, counter': int)
    ensures counter' == counter + |pts| && |heap'| == |heap| + |pts|
    ensures AllSound(query, heap) ==> AllSound(query, heap')
    ensures Pending(heap') == Pending(heap) + multiset(pts)
    ensures Weight(heap') == Weight(heap) + |pts|
  {
    heap', counter' := heap, counter;
    var j := 0;
    while j < |pts|
      invariant 0 <= j <= |pts| && counter' == counter + j && |heap'| == |heap| + j
      invariant AllSound(query, heap) ==> AllSound(query, heap')
      invariant Pending(heap') == Pending(heap) + multiset(pts[..j])
      invariant Weight(heap') == Weight(heap) + j
    {
      ghost var j0, before := j, heap';
      heap', counter' := PushPoint(heap', counter', query, pts[j]);
      j := j + 1;
      NextPoint(pts, j0, j, heap, before, heap');
    }
    assert pts[..j] == pts;
  }

  /** Queue a child node with the distance to its boundary and the next counter. */
  method PushNode(heap: seq<HeapEntry<Tree>>, counter: int, query: Point, child: Tree)
    returns (heap': seq<HeapEntry<Tree>>, counter': int)
    requires Enclosed(child)
    ensures counter' == counter + 1 && |heap'| == |heap| + 1
    ensures AllSound(query, heap) ==> AllSound(query, heap')
    ensures Pending(heap') == Pending(heap) + multiset(Flatten(child))
    ensures Weight(heap') == Weight(heap) + Size(child)
  {
    var e := NodeEntry(RectDistSq(query, child.boundary), counter, child);
    Push(heap, e);
    if AllSound(query, heap) {
      SoundPush(query, heap, e);
    }
    heap', counter' := heap + [e], counter + 1;
  }

  /** Queue the four children of a divided node in NW, NE, SW, SE order. */
  method PushChildren(heap: seq<HeapEntry<Tree>>, counter: int, query: Point, node: Tree)
    returns (heap': seq<HeapEntry<Tree>>, counter': int)
    requires node.Node? && Enclosed(node)
    ensures counter' == counter + 4 && |heap'| == |heap| + 4
    ensures AllSound(query, heap) ==> AllSound(query, heap')
    ensures Pending(heap') == Pending(heap) + multiset(Flatten(node))
    ensures Weight(heap') + 1 == Weight(heap) + Size(node)
  {
    heap', counter' := PushNode(heap, counter, query, node.nw);
    heap', counter' := PushNode(heap', counter', query, node.ne);
    heap', counter' := PushNode(heap', counter', query, node.sw);
    heap', counter' := PushNode(heap', counter', query, node.se);
  }

  /** No point still queued is nearer than a result. */
  ghost predicate NoneNearer(query: Point, heap: seq<HeapEntry<Tree>>, results: seq<(Point, real)>) {
    forall a, x :: 0 <= a < |results| && x in Pending(heap) ==> results[a].1 <= DistSq(query, x)
  }

  /** What holds between steps of the search: every queued entry is sound;
      the queue and the results together hold every stored point once per copy;
      the results are in non-decreasing order of their true distances; and no
      point still queued is nearer than a result. */
  ghost predicate SearchInv(t: Tree, query: Point, heap: seq<HeapEntry<Tree>>, results: seq<(Point, real)>) {
    AllSound(query, heap) &&
    Pending(heap) + multiset(PointsOf(results)) == multiset(Flatten(t)) &&
    Ascending(results) && TrueDistances(query, results) && NoneNearer(query, heap, results)
  }

  /** Removing an entry keeps the rest of the queue sound. */
  lemma SoundRemove(query: Point, h: seq<HeapEntry<Tree>>, i: nat)
    requires i < |h| && AllSound(query, h)
    ensures AllSound(query, RemoveAt(h, i)) && Sound(query, h[i])
  {
    var r := RemoveAt(h, i);
    forall m | 0 <= m < |r|
      ensures Sound(query, r[m])
    {
      assert r[m] == h[if m < i then m else m + 1];
    }
    assert Sound(query, h[i]);
  }

  /** A point no nearer than any earlier result keeps the results in order. */
  lemma AppendAscending(query: Point, heap: seq<HeapEntry<Tree>>, results: seq<(Point, real)>, p: Point)
    requires Ascending(results) && NoneNearer(query, heap, results) && p in Pending(heap)
    ensures Ascending(results + [(p, DistSq(query, p))])
  {
  }

  /** A point no farther than anything left in the queue may be reported. */
  lemma AppendNoneNearer(query: Point, heap: seq<HeapEntry<Tree>>, rest: seq<HeapEntry<Tree>>,
                         results: seq<(Point, real)>, p: Point, d: real)
    requires NoneNearer(query, heap, results) && Pending(rest) <= Pending(heap)
    requires forall x :: x in Pending(rest) ==> d <= DistSq(query, x)
    ensures NoneNearer(query, rest, results + [(p, d)])
  {
  }

  /** The popped point moves from the queue to the end of the results. */
  lemma PopPointCounts(t: Tree, heap: seq<HeapEntry<Tree>>, results: seq<(Point, real)>)
    requires |heap| > 0 && heap[Top(heap)].PointEntry?
    requires Pending(heap) + multiset(PointsOf(results)) == multiset(Flatten(t))
    ensures Pending(RemoveAt(heap, Top(heap))) +
            multiset(PointsOf(results + [(heap[Top(heap)].point, heap[Top(heap)].dist)])) == multiset(Flatten(t))
  {
    var i := Top(heap);
    PendingRemove(heap, i);
    PointsOfAppend(results, (heap[i].point, heap[i].dist));
  }

  /** The popped point is no nearer than any earlier result and no farther
      than anything still queued. */
  lemma PopPointOrder(query: Point, heap: seq<HeapEntry<Tree>>, results: seq<(Point, real)>)
    requires |heap| > 0 && heap[Top(heap)].PointEntry? && AllSound(query, heap)
    requires Ascending(results) && NoneNearer(query, heap, results)
    ensures Ascending(results + [(heap[Top(heap)].point, heap[Top(heap)].dist)])
    ensures NoneNearer(query, RemoveAt(heap, Top(heap)), results + [(heap[Top(heap)].point, heap[Top(heap)].dist)])
  {
    var i := Top(heap);
    var p, d := heap[i].point, heap[i].dist;
    var rest := RemoveAt(heap, i);
    PendingRemove(heap, i);
    SoundRemove(query, heap, i);
    assert p in Pending(heap);
    AppendAscending(query, heap, results, p);
    forall x | x in Pending(rest)
      ensures d <= DistSq(query, x)
    {
      PopBound(query, heap, x);
    }
    AppendNoneNearer(query, heap, rest, results, p, d);
  }

  /** Reporting the popped point keeps the search invariant. */
  lemma PopPointKeeps(t: Tree, query: Point, heap: seq<HeapEntry<Tree>>, results: seq<(Point, real)>)
    requires |heap| > 0 && SearchInv(t, query, heap, results) && heap[Top(heap)].PointEntry?
    ensures SearchInv(t, query, RemoveAt(heap, Top(heap)),
                      results + [(heap[Top(heap)].point, heap[Top(heap)].dist)])
  {
    var i := Top(heap);
    SoundRemove(query, heap, i);
    PopPointCounts(t, heap, results);
    PopPointOrder(query, heap, results);
  }

  /** One step of the search: pop the least entry; report a point, or queue
      the points of a leaf or the children of a divided node. */
  method Expand(t: Tree, query: Point, heap: seq<HeapEntry<Tree>>, counter: int, results: seq<(Point, real)>)
    returns (heap': seq<HeapEntry<Tree>>, counter': int, results': seq<(Point, real)>)
    requires |heap| > 0 && SearchInv(t, query, heap, results)
    ensures SearchInv(t, query, heap', results')
    ensures Weight(heap') < Weight(heap)
    ensures |results| <= |results'| <= |results| + 1
  {
    var i := Top(heap);
    var entry := heap[i];
    heap', counter', results' := RemoveAt(heap, i), counter, results;
    PendingRemove(heap, i);
    SoundRemove(query, heap, i);
    match entry
    case PointEntry(d, _, p) =>
      PopPointKeeps(t, query, heap, results);
      results' := results + [(p, d)];
    case NodeEntry(_, _, node) =>
      if node.Leaf? {
        heap', counter' := PushPoints(heap', counter', query, node.points);
      } else {
        heap', counter' := PushChildren(heap', counter', query, node);
      }
      assert Pending(heap') == Pending(heap);
  }

  /** The search starts with the root queued and nothing reported. */
  lemma SearchStart(t: Tree, query: Point)
    requires Enclosed(t)
    ensures SearchInv(t, query, [NodeEntry(RectDistSq(query, t.boundary), 0, t)], [])
  {
    var heap := [NodeEntry(RectDistSq(query, t.boundary), 0, t)];
    assert heap[1..] == [];
    assert Sound(query, heap[0]);
  }

  /** What the invariant gives once the search stops: the results are stored
      points, all of them when the queue ran empty, and none of the points
      left out is nearer than a result. */
  lemma SearchEnd(t: Tree, query: Point, heap: seq<HeapEntry<Tree>>, results: seq<(Point, real)>)
    requires SearchInv(t, query, heap, results)
    ensures multiset(PointsOf(results)) <= multiset(Flatten(t))
    ensures heap == [] ==> multiset(PointsOf(results)) == multiset(Flatten(t))
    ensures forall a, x :: 0 <= a < |results| && x in multiset(Flatten(t)) - multiset(PointsOf(results)) ==>
              results[a].1 <= DistSq(query, x)
  {
    assert multiset(Flatten(t)) - multiset(PointsOf(results)) == Pending(heap);
  }

  /** `knn_query`: best-first search from the root, popping the queue's least
      (distance, counter) entry: a point is reported with its distance, a leaf
      queues its points, a divided node queues its children, until k points
      are reported or the queue is empty. `k` is compared as `size_t`, so a
      negative k reports every point. Distances are squared. */
  method KnnQuery(t: Tree, query: Point, k: int32) returns (results: seq<(Point, real)>)
    requires Enclosed(t)
    ensures |results| <= SizeT(k)
    ensures forall a, b :: 0 <= a < b < |results| ==> results[a].1 <= results[b].1
    ensures forall a :: 0 <= a < |results| ==> results[a].1 == DistSq(query, results[a].0)
    ensures multiset(PointsOf(results)) <= multiset(Flatten(t))
    ensures |results| < SizeT(k) ==> multiset(PointsOf(results)) == multiset(Flatten(t))
    ensures forall a, x :: 0 <= a < |results| && x in multiset(Flatten(t)) - multiset(PointsOf(results)) ==>
              results[a].1 <= DistSq(query, x)
  {
    var heap: seq<HeapEntry<Tree>> := [NodeEntry(RectDistSq(query, t.boundary), 0, t)];
    var counter := 1;
    results := [];
    SearchStart(t, query);
    while |heap| > 0 && |results| < SizeT(k)
      invariant |results| <= SizeT(k) && SearchInv(t, query, heap, results)
      decreases Weight(heap)
    {
      heap, counter, results := Expand(t, query, heap, counter, results);
    }
    SearchEnd(t, query, heap, results);
  }
}
