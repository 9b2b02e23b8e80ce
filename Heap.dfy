/** The entries of the best-first search queue and their order.

    A C++ priority queue pops its GREATEST element under `<`; the entries'
    `<` is the reversed lexicographic order on (dist, counter), so the entry
    popped first is the one with the least distance, and among equal
    distances the one pushed first (least counter). The queue itself is a
    sequence here, and its top is found by `Top`. */
module Heap {
  import opened Geometry

  /** An entry holds either a node of the index (to be expanded) or a point
      (to be reported), tagged with its distance and insertion counter. */
  datatype HeapEntry<N> =
    | NodeEntry(dist: real, counter: int, node: N)
    | PointEntry(dist: real, counter: int, point: Point)

  /** `a < b`: (a.dist, a.counter) is lexicographically greater than
      (b.dist, b.counter). */
  predicate Less<N>(a: HeapEntry<N>, b: HeapEntry<N>) {
    a.dist > b.dist || (a.dist == b.dist && a.counter > b.counter)
  }

  /** The position of the entry the queue pops next: no entry is greater. */
  function Top<N>(h: seq<HeapEntry<N>>): (i: nat)
    requires |h| > 0
    ensures i < |h|
    ensures forall j :: 0 <= j < |h| ==> !Less(h[i], h[j])
  {
    if |h| == 1 then 0
    else
      var k := Top(h[1..]) + 1;
      if Less(h[0], h[k]) then k else 0
  }

  /** The queue after popping the entry at position i. */
  function RemoveAt<N>(h: seq<HeapEntry<N>>, i: nat): (r: seq<HeapEntry<N>>)
    requires i < |h|
    ensures |r| == |h| - 1
    ensures multiset(r) == multiset(h) - multiset{h[i]}
  {
    assert h == h[..i] + [h[i]] + h[i+1..];
    h[..i] + h[i+1..]
  }

  lemma LessIrreflexive<N>(a: HeapEntry<N>)
    ensures !Less(a, a)
  {
  }

  lemma LessTransitive<N>(a: HeapEntry<N>, b: HeapEntry<N>, c: HeapEntry<N>)
    requires Less(a, b) && Less(b, c)
    ensures Less(a, c)
  {
  }

  /** Two entries are unordered only when they carry the same distance and counter. */
  lemma LessTotal<N>(a: HeapEntry<N>, b: HeapEntry<N>)
    ensures Less(a, b) || Less(b, a) || (a.dist == b.dist && a.counter == b.counter)
  {
  }

  /** The order looks only at (dist, counter), never at the payload. */
  lemma LessIgnoresPayload<N>(a: HeapEntry<N>, b: HeapEntry<N>, a': HeapEntry<N>, b': HeapEntry<N>)
    requires a.dist == a'.dist && a.counter == a'.counter
    requires b.dist == b'.dist && b.counter == b'.counter
    ensures Less(a, b) == Less(a', b')
  {
  }

  /** The popped entry has the least distance in the queue, and among the
      entries at that distance the least counter. */
  lemma TopIsLeast<N>(h: seq<HeapEntry<N>>, j: nat)
    requires |h| > 0 && j < |h|
    ensures h[Top(h)].dist <= h[j].dist
    ensures h[Top(h)].dist == h[j].dist ==> h[Top(h)].counter <= h[j].counter
  {
  }
}
