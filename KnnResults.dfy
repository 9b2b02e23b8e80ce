/** The answer of a k-nearest-neighbours query, shared by both indexes: a
    list of (point, distance) pairs. */
module KnnResults {
  import opened Geometry

  /** The points of the results, in order. */
  function PointsOf(rs: seq<(Point, real)>): (ps: seq<Point>)
    ensures |ps| == |rs| && forall i :: 0 <= i < |rs| ==> ps[i] == rs[i].0
  {
    if rs == [] then [] else [rs[0].0] + PointsOf(rs[1..])
  }

  lemma PointsOfAppend(rs: seq<(Point, real)>, r: (Point, real))
    ensures PointsOf(rs + [r]) == PointsOf(rs) + [r.0]
  {
  }

  /** Results in non-decreasing order of distance. */
  predicate Ascending(results: seq<(Point, real)>) {
    forall a, b :: 0 <= a < b < |results| ==> results[a].1 <= results[b].1
  }

  /** Every result carries its point's true (squared) distance. */
  predicate TrueDistances(query: Point, results: seq<(Point, real)>) {
    forall a :: 0 <= a < |results| ==> results[a].1 == DistSq(query, results[a].0)
  }
}
