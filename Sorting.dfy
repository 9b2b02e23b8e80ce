/** The library sort the bulk loader calls: its result is ordered by the key
    and is a permutation of its input. Which of several equal-key elements
    comes first is not specified, so the model fixes one order (insertion
    sort) and nothing else relies on it. */
module Sorting {
  import opened Geometry

  predicate SortedBy(s: seq<Point>, key: Point -> real) {
    forall i, j :: 0 <= i < j < |s| ==> key(s[i]) <= key(s[j])
  }

  /** x placed before the first element whose key is not smaller. */
  function InsertBy(x: Point, s: seq<Point>, key: Point -> real): (r: seq<Point>)
    requires SortedBy(s, key)
    ensures SortedBy(r, key)
    ensures multiset(r) == multiset(s) + multiset{x}
  {
    if s == [] then [x]
    else if key(x) <= key(s[0]) then [x] + s
    else
      var rest := InsertBy(x, s[1..], key);
      HeadFirst(s, x, rest, key);
      assert s == [s[0]] + s[1..];
      [s[0]] + rest
  }

  /** The head of a sorted s stays first in front of any ordered arrangement
      of s's tail and an element whose key is above it. */
  lemma HeadFirst(s: seq<Point>, x: Point, rest: seq<Point>, key: Point -> real)
    requires s != [] && SortedBy(s, key) && key(s[0]) < key(x)
    requires SortedBy(rest, key) && multiset(rest) == multiset(s[1..]) + multiset{x}
    ensures SortedBy([s[0]] + rest, key)
  {
    forall i | 0 <= i < |rest|
      ensures key(s[0]) <= key(rest[i])
    {
      assert rest[i] in multiset(rest);
      if rest[i] != x {
        assert rest[i] in multiset(s[1..]);
        var j :| 0 <= j < |s[1..]| && s[1..][j] == rest[i];
        assert s[j + 1] == rest[i];
      }
    }
  }

  /** The sorted copy of s. */
  function SortBy(s: seq<Point>, key: Point -> real): (r: seq<Point>)
    ensures SortedBy(r, key)
    ensures multiset(r) == multiset(s)
  {
    if s == [] then []
    else
      assert s == [s[0]] + s[1..];
      InsertBy(s[0], SortBy(s[1..], key), key)
  }
}
