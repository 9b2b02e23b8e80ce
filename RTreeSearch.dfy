/** The best-first k-nearest-neighbours search over the R-tree's nodes: the
    queue's entries, what they stand for, and the invariant each step of the
    search keeps.

    The definitions and lemmas here follow those of the QuadTree search in
    module QuadTreeIndex, with `Node` in place of `Tree`, as the two
    `knn_query` functions of the source follow each other. They are kept
    apart rather than shared through one generic module because the two
    node types differ in how a node is expanded (four fixed quadrants
    against a sequence of children) and in the invariant a tree keeps, and
    a shared module would have to take flatten, boundary and size as
    function values, putting an application of a function value inside
    every quantifier of the search invariant. */
module RTreeSearch {
  import opened Geometry
  import opened Heap
  import opened Sequences
  import opened RTreeSpec
  import opened KnnResults

  /** The stored points a queue entry stands for. */
  ghost function EntryPoints(e: HeapEntry<Node>): multiset<Point> {
    match e
    case NodeEntry(_, _, n) => multiset(Flatten(n))
    case PointEntry(_, _, p) => multiset{p}
  }

  /** The stored points the queue still stands for. */
  ghost function Pending(h: seq<HeapEntry<Node>>): multiset<Point> {
    if h == [] then multiset{} else EntryPoints(h[0]) + Pending(h[1..])
  }

  /** Nodes and points of a subtree: what expanding it can still produce. */
  function Size(n: Node): nat
    decreases n, 1
  {
    match n
    case Leaf(_, pts) => 1 + |pts|
    case Inner(_, ch) => 1 + SizeAll(ch)
  }

  function SizeAll(ns: seq<Node>): nat
    decreases ns, 0
  {
    if ns == [] then 0 else SizeAll(ns[..|ns| - 1]) + Size(ns[|ns| - 1])
  }

  function EntryWeight(e: HeapEntry<Node>): nat {
    match e
    case NodeEntry(_, _, n) => Size(n)
    case PointEntry(_, _, _) => 1
  }

  /** The work left in the queue; every step of the search lowers it. */
  function Weight(h: seq<HeapEntry<Node>>): nat {
    if h == [] then 0 else EntryWeight(h[0]) + Weight(h[1..])
  }

  /** An entry's distance is the true distance to its point, or the distance
      to its node's boundary, which encloses everything below the node. */
  ghost predicate Sound(query: Point, e: HeapEntry<Node>) {
    match e
    case NodeEntry(d, _, n) => Enclosed(n) && d == RectDistSq(query, n.boundary)
    case PointEntry(d, _, p) => d == DistSq(query, p)
  }

  ghost predicate AllSound(query: Point, h: seq<HeapEntry<Node>>) {
    forall m :: 0 <= m < |h| ==> Sound(query, h[m])
  }

  lemma {:induction false} PendingConcat(a: seq<HeapEntry<Node>>, b: seq<HeapEntry<Node>>)
    ensures Pending(a + b) == Pending(a) + Pending(b)
    ensures Weight(a + b) == Weight(a) + Weight(b)
  {
    if a == [] {
      assert a + b == b;
    } else {
      assert (a + b)[1..] == a[1..] + b;
      PendingConcat(a[1..], b);
    }
  }

  /** Popping the entry at position i takes exactly its points and its weight
      out of the queue. */
  lemma PendingRemove(h: seq<HeapEntry<Node>>, i: nat)
    requires i < |h|
    ensures Pending(h) == Pending(RemoveAt(h, i)) + EntryPoints(h[i])
    ensures Weight(h) == Weight(RemoveAt(h, i)) + EntryWeight(h[i])
  {
    var a, e, b := h[..i], [h[i]], h[i + 1..];
    SplitAt(h, i);
    PendingConcat(a + e, b);
    PendingConcat(a, e);
    PendingConcat(a, b);
    assert e[1..] == [];
  }

  /** A pending point belongs to some entry of the queue. */
  lemma {:induction false} PendingMember(h: seq<HeapEntry<Node>>, x: Point) returns (j: nat)
    requires x in Pending(h)
    ensures j < |h| && x in EntryPoints(h[j])
  {
    if x in EntryPoints(h[0]) {
      j := 0;
    } else {
      var k := PendingMember(h[1..], x);
      j := k + 1;
    }
  }

  /** A sound entry's distance is a lower bound for every point it stands for. */
  lemma EntryBound(query: Point, e: HeapEntry<Node>, x: Point)
    requires Sound(query, e) && x in EntryPoints(e)
    ensures e.dist <= DistSq(query, x)
  {
    if e.NodeEntry? {
      RectDistSqLowerBound(query, e.node.boundary, x);
    }
  }

  /** Best-first order: the popped entry is no farther than any point left in
      the queue after it. */
  lemma PopBound(query: Point, h: seq<HeapEntry<Node>>, x: Point)
    requires |h| > 0 && AllSound(query, h)
    requires x in Pending(RemoveAt(h, Top(h)))
    ensures h[Top(h)].dist <= DistSq(query, x)
  {
    var i := Top(h);
    var r := RemoveAt(h, i);
    var j := PendingMember(r, x);
    var j' := if j < i then j else j + 1;
    assert r[j] == h[j'];
    TopIsLeast(h, j');
    EntryBound(query, h[j'], x);
  }

  /** Queue one entry behind the others. */
  lemma Push(heap: seq<HeapEntry<Node>>, e: HeapEntry<Node>)
    ensures |heap + [e]| == |heap| + 1 && (heap + [e])[|heap|] == e
    ensures forall m :: 0 <= m < |heap| ==> (heap + [e])[m] == heap[m]
    ensures Pending(heap + [e]) == Pending(heap) + EntryPoints(e)
    ensures Weight(heap + [e]) == Weight(heap) + EntryWeight(e)
  {
    PendingConcat(heap, [e]);
    assert [e][1..] == [];
  }

  lemma SoundPush(query: Point, h: seq<HeapEntry<Node>>, e: HeapEntry<Node>)
    requires AllSound(query, h) && Sound(query, e)
    ensures AllSound(query, h + [e])
  {
  }

  /** Queue one point with its distance and the next counter. */
  method PushPoint(heap: seq<HeapEntry<Node>>, counter: int, query: Point, p: Point)
    returns (heap': seq<HeapEntry<Node>>, counter': int)
    ensures counter' == counter + 1 && |heap'| == |heap| + 1
    ensures AllSound(query, heap) ==> AllSound(query, heap')
    ensures Pending(heap') == Pending(heap) + multiset{p}
    ensures Weight(heap') == Weight(heap) + 1
  {
    var e := PointEntry(DistSq(query, p), counter, p);
    Push(heap, e);
    if AllSound(query, heap) {
      SoundPush(query, heap, e);
    }
    heap', counter' := heap + [e], counter + 1;
  }

  /** Queueing point j after points 0..j-1 accounts for points 0..j. */
  lemma NextPoint(pts: seq<Point>, j: nat, j': nat, heap: seq<HeapEntry<Node>>,
                  before: seq<HeapEntry<Node>>, after: seq<HeapEntry<Node>>)
    requires j < |pts| && j' == j + 1
    requires Pending(before) == Pending(heap) + multiset(pts[..j])
    requires Weight(before) == Weight(heap) + j
    requires Pending(after) == Pending(before) + multiset{pts[j]}
    requires Weight(after) == Weight(before) + 1
    ensures Pending(after) == Pending(heap) + multiset(pts[..j'])
    ensures Weight(after) == Weight(heap) + j'
  {
    TakeNextCount(pts, j, j');
  }

  /** Queue the points of a leaf in their stored order. */
  method PushPoints(heap: seq<HeapEntry<Node>>, counter: int, query: Point, pts: seq<Point>)
    returns (heap': seq<HeapEntry<Node>>, counter': int)
    ensures counter' == counter + |pts| && |heap'| == |heap| + |pts|
    ensures AllSound(query, heap) ==> AllSound(query, heap')
    ensures Pending(heap') == Pending(heap) + multiset(pts)
    ensures Weight(heap') == Weight(heap) + |pts|
  {
    heap', counter' := heap, counter;
    var j := 0;
    while j < |pts|
      invariant 0 <= j <= |pts| && counter' == counter + j && |heap'| == |heap| + j
      invariant AllSound(query, heap) ==> AllSound(query, heap')
      invariant Pending(heap') == Pending(heap) + multiset(pts[..j])
      invariant Weight(heap') == Weight(heap) + j
    {
      ghost var j0, before := j, heap';
      heap', counter' := PushPoint(heap', counter', query, pts[j]);
      j := j + 1;
      NextPoint(pts, j0, j, heap, before, heap');
    }
    assert pts[..j] == pts;
  }

  /** Queue a child node with the distance to its boundary and the next counter. */
  method PushNode(heap: seq<HeapEntry<Node>>, counter: int, query: Point, child: Node)
    returns (heap': seq<HeapEntry<Node>>, counter': int)
    requires Enclosed(child)
    ensures counter' == counter + 1 && |heap'| == |heap| + 1
    ensures AllSound(query, heap) ==> AllSound(query, heap')
    ensures Pending(heap') == Pending(heap) + multiset(Flatten(child))
    ensures Weight(heap') == Weight(heap) + Size(child)
  {
    var e := NodeEntry(RectDistSq(query, child.boundary), counter, child);
    Push(heap, e);
    if AllSound(query, heap) {
      SoundPush(query, heap, e);
    }
    heap', counter' := heap + [e], counter + 1;
  }

  /** Queueing child j after children 0..j-1 accounts for children 0..j. */
  lemma NextChild(ch: seq<Node>, j: nat, j': nat, heap: seq<HeapEntry<Node>>,
                  before: seq<HeapEntry<Node>>, after: seq<HeapEntry<Node>>)
    requires j < |ch| && j' == j + 1
    requires Pending(before) == Pending(heap) + multiset(FlattenAll(ch[..j]))
    requires Weight(before) == Weight(heap) + SizeAll(ch[..j])
    requires Pending(after) == Pending(before) + multiset(Flatten(ch[j]))
    requires Weight(after) == Weight(before) + Size(ch[j])
    ensures Pending(after) == Pending(heap) + multiset(FlattenAll(ch[..j']))
    ensures Weight(after) == Weight(heap) + SizeAll(ch[..j'])
  {
    assert ch[..j'] == ch[..j + 1];
    TakeNext(ch, j);
  }

  /** Queue the children of an inner node in their stored order. */
  method PushChildren(heap: seq<HeapEntry<Node>>, counter: int, query: Point, ch: seq<Node>)
    returns (heap': seq<HeapEntry<Node>>, counter': int)
    requires forall i :: 0 <= i < |ch| ==> Enclosed(ch[i])
    ensures counter' == counter + |ch| && |heap'| == |heap| + |ch|
    ensures AllSound(query, heap) ==> AllSound(query, heap')
    ensures Pending(heap') == Pending(heap) + multiset(FlattenAll(ch))
    ensures Weight(heap') == Weight(heap) + SizeAll(ch)
  {
    heap', counter' := heap, counter;
    var j := 0;
    while j < |ch|
      invariant 0 <= j <= |ch| && counter' == counter + j && |heap'| == |heap| + j
      invariant AllSound(query, heap) ==> AllSound(query, heap')
      invariant Pending(heap') == Pending(heap) + multiset(FlattenAll(ch[..j]))
      invariant Weight(heap') == Weight(heap) + SizeAll(ch[..j])
    {
      ghost var j0, before := j, heap';
      heap', counter' := PushNode(heap', counter', query, ch[j]);
      j := j + 1;
      NextChild(ch, j0, j, heap, before, heap');
    }
    assert ch[..j] == ch;
  }

  /** No point still queued is nearer than a result. */
  ghost predicate NoneNearer(query: Point, heap: seq<HeapEntry<Node>>, results: seq<(Point, real)>) {
    forall a, x :: 0 <= a < |results| && x in Pending(heap) ==> results[a].1 <= DistSq(query, x)
  }

  /** What holds between steps of the search: every queued entry is sound;
      the queue and the results together hold every stored point once per copy;
      the results are in non-decreasing order of their true distances; and no
      point still queued is nearer than a result. */
  ghost predicate SearchInv(t: Node, query: Point, heap: seq<HeapEntry<Node>>, results: seq<(Point, real)>) {
    AllSound(query, heap) &&
    Pending(heap) + multiset(PointsOf(results)) == multiset(Flatten(t)) &&
    Ascending(results) && TrueDistances(query, results) && NoneNearer(query, heap, results)
  }

  /** Removing an entry keeps the rest of the queue sound. */
  lemma SoundRemove(query: Point, h: seq<HeapEntry<Node>>, i: nat)
    requires i < |h| && AllSound(query, h)
    ensures AllSound(query, RemoveAt(h, i)) && Sound(query, h[i])
  {
    var r := RemoveAt(h, i);
    forall m | 0 <= m < |r|
      ensures Sound(query, r[m])
    {
      assert r[m] == h[if m < i then m else m + 1];
    }
    assert Sound(query, h[i]);
  }

  /** A point no nearer than any earlier result keeps the results in order. */
  lemma AppendAscending(query: Point, heap: seq<HeapEntry<Node>>, results: seq<(Point, real)>, p: Point)
    requires Ascending(results) && NoneNearer(query, heap, results) && p in Pending(heap)
    ensures Ascending(results + [(p, DistSq(query, p))])
  {
  }

  /** A point no farther than anything left in the queue may be reported. */
  lemma AppendNoneNearer(query: Point, heap: seq<HeapEntry<Node>>, rest: seq<HeapEntry<Node>>,
                         results: seq<(Point, real)>, p: Point, d: real)
    requires NoneNearer(query, heap, results) && Pending(rest) <= Pending(heap)
    requires forall x :: x in Pending(rest) ==> d <= DistSq(query, x)
    ensures NoneNearer(query, rest, results + [(p, d)])
  {
  }

  /** The popped point moves from the queue to the end of the results. */
  lemma PopPointCounts(t: Node, heap: seq<HeapEntry<Node>>, results: seq<(Point, real)>)
    requires |heap| > 0 && heap[Top(heap)].PointEntry?
    requires Pending(heap) + multiset(PointsOf(results)) == multiset(Flatten(t))
    ensures Pending(RemoveAt(heap, Top(heap))) +
            multiset(PointsOf(results + [(heap[Top(heap)].point, heap[Top(heap)].dist)])) == multiset(Flatten(t))
  {
    var i := Top(heap);
    PendingRemove(heap, i);
    PointsOfAppend(results, (heap[i].point, heap[i].dist));
  }

  /** The popped point is no nearer than any earlier result and no farther
      than anything still queued. */
  lemma PopPointOrder(query: Point, heap: seq<HeapEntry<Node>>, results: seq<(Point, real)>)
    requires |heap| > 0 && heap[Top(heap)].PointEntry? && AllSound(query, heap)
    requires Ascending(results) && NoneNearer(query, heap, results)
    ensures Ascending(results + [(heap[Top(heap)].point, heap[Top(heap)].dist)])
    ensures NoneNearer(query, RemoveAt(heap, Top(heap)), results + [(heap[Top(heap)].point, heap[Top(heap)].dist)])
  {
    var i := Top(heap);
    var p, d := heap[i].point, heap[i].dist;
    var rest := RemoveAt(heap, i);
    PendingRemove(heap, i);
    SoundRemove(query, heap, i);
    assert p in Pending(heap);
    AppendAscending(query, heap, results, p);
    forall x | x in Pending(rest)
      ensures d <= DistSq(query, x)
    {
      PopBound(query, heap, x);
    }
    AppendNoneNearer(query, heap, rest, results, p, d);
  }

  /** Reporting the popped point keeps the search invariant. */
  lemma PopPointKeeps(t: Node, query: Point, heap: seq<HeapEntry<Node>>, results: seq<(Point, real)>)
    requires |heap| > 0 && SearchInv(t, query, heap, results) && heap[Top(heap)].PointEntry?
    ensures SearchInv(t, query, RemoveAt(heap, Top(heap)),
                      results + [(heap[Top(heap)].point, heap[Top(heap)].dist)])
  {
    var i := Top(heap);
    SoundRemove(query, heap, i);
    PopPointCounts(t, heap, results);
    PopPointOrder(query, heap, results);
  }

  /** One step of the search: pop the least entry; report a point, or queue
      the points of a leaf or the children of a divided node. */
  method Expand(t: Node, query: Point, heap: seq<HeapEntry<Node>>, counter: int, results: seq<(Point, real)>)
    returns (heap': seq<HeapEntry<Node>>, counter': int, results': seq<(Point, real)>)
    requires |heap| > 0 && SearchInv(t, query, heap, results)
    ensures SearchInv(t, query, heap', results')
    ensures Weight(heap') < Weight(heap)
    ensures |results| <= |results'| <= |results| + 1
  {
    var i := Top(heap);
    var entry := heap[i];
    heap', counter', results' := RemoveAt(heap, i), counter, results;
    PendingRemove(heap, i);
    SoundRemove(query, heap, i);
    match entry
    case PointEntry(d, _, p) =>
      PopPointKeeps(t, query, heap, results);
      results' := results + [(p, d)];
    case NodeEntry(_, _, node) =>
      if node.Leaf? {
        heap', counter' := PushPoints(heap', counter', query, node.points);
      } else {
        heap', counter' := PushChildren(heap', counter', query, node.children);
      }
      assert Pending(heap') == Pending(heap);
  }

  /** The search starts with the root queued and nothing reported. */
  lemma SearchStart(t: Node, query: Point)
    requires Enclosed(t)
    ensures SearchInv(t, query, [NodeEntry(RectDistSq(query, t.boundary), 0, t)], [])
  {
    var heap := [NodeEntry(RectDistSq(query, t.boundary), 0, t)];
    assert heap[1..] == [];
    assert Sound(query, heap[0]);
  }

  /** What the invariant gives once the search stops: the results are stored
      points, all of them when the queue ran empty, and none of the points
      left out is nearer than a result. */
  lemma SearchEnd(t: Node, query: Point, heap: seq<HeapEntry<Node>>, results: seq<(Point, real)>)
    requires SearchInv(t, query, heap, results)
    ensures multiset(PointsOf(results)) <= multiset(Flatten(t))
    ensures heap == [] ==> multiset(PointsOf(results)) == multiset(Flatten(t))
    ensures forall a, x :: 0 <= a < |results| && x in multiset(Flatten(t)) - multiset(PointsOf(results)) ==>
              results[a].1 <= DistSq(query, x)
  {
    assert multiset(Flatten(t)) - multiset(PointsOf(results)) == Pending(heap);
  }
}
