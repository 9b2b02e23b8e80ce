/** Small facts about sequence slices, stated once for any element type. */
module Sequences {
  lemma SplitAt<T>(s: seq<T>, i: nat)
    requires i < |s|
    ensures s == s[..i] + [s[i]] + s[i + 1..]
  {
  }

  lemma TakeNext<T>(s: seq<T>, j: nat)
    requires j < |s|
    ensures s[..j + 1] == s[..j] + [s[j]]
  {
  }

  /** Taking one more element adds it to the count; `j'` is the next index. */
  lemma TakeNextCount<T>(s: seq<T>, j: nat, j': nat)
    requires j < |s| && j' == j + 1
    ensures multiset(s[..j']) == multiset(s[..j]) + multiset{s[j]}
  {
    assert s[..j'] == s[..j + 1];
    TakeNext(s, j);
  }

  lemma DropNext<T>(s: seq<T>, j: nat)
    requires j < |s|
    ensures s[j..][1..] == s[j + 1..]
  {
  }

  lemma TakeDrop<T>(s: seq<T>, k: nat)
    requires k <= |s|
    ensures s[..k] + s[k..] == s
  {
  }

  /** Moving the tail of `a` to the front of `b` keeps the joined order. */
  lemma MoveTail<T>(a: seq<T>, b: seq<T>, cut: nat)
    requires cut <= |a|
    ensures a[..cut] + (a[cut..] + b) == a + b
  {
    TakeDrop(a, cut);
  }

  /** Cutting a suffix again is cutting the whole. */
  lemma SliceOfSuffix<T>(s: seq<T>, i: nat, k: nat)
    requires i + k <= |s|
    ensures s[i..][..k] == s[i..i + k]
    ensures s[i..][k..] == s[i + k..]
  {
  }

  lemma AppendAssoc<T>(a: seq<T>, b: seq<T>, c: seq<T>)
    ensures a + (b + c) == a + b + c
  {
  }

  /** One element moved from the front of what is left to the back of what is
      done keeps the two together equal to the whole. */
  lemma ShiftOne<T>(done: seq<T>, x: T, left: seq<T>, later: seq<T>, whole: seq<T>)
    requires done + left == whole
    requires left == [x] + later
    ensures (done + [x]) + later == whole
  {
    AppendAssoc(done, [x], later);
  }

  lemma PrefixOfAppend<T>(s: seq<T>, t: seq<T>)
    ensures (s + t)[..|s|] == s
  {
  }

  /** The parts joined in order. */
  function Concat<T>(parts: seq<seq<T>>): (s: seq<T>)
    ensures parts == [] ==> s == []
  {
    if parts == [] then [] else Concat(parts[..|parts| - 1]) + parts[|parts| - 1]
  }

  lemma ConcatSnoc<T>(parts: seq<seq<T>>, p: seq<T>)
    ensures Concat(parts + [p]) == Concat(parts) + p
  {
    PrefixOfAppend(parts, [p]);
  }

  /** When the joined parts are empty, so is every part and every prefix's
      join. */
  lemma {:induction false} ConcatEmpty<T>(parts: seq<seq<T>>, s: nat)
    requires Concat(parts) == [] && s <= |parts|
    ensures Concat(parts[..s]) == [] && (s < |parts| ==> parts[s] == [])
    decreases |parts|
  {
    if s == |parts| {
      assert parts[..s] == parts;
    } else {
      var init := parts[..|parts| - 1];
      assert |Concat(init)| + |parts[|parts| - 1]| == 0;
      ConcatEmpty(init, s);
      assert parts[..s] == init[..s];
    }
  }

  lemma ConcatOne<T>(p: seq<T>)
    ensures Concat([p]) == p
  {
    ConcatSnoc([], p);
  }

  lemma {:induction false} ConcatCons<T>(p: seq<T>, parts: seq<seq<T>>)
    ensures Concat([p] + parts) == p + Concat(parts)
    decreases |parts|
  {
    if parts == [] {
      assert [p] + parts == [p];
      ConcatOne(p);
    } else {
      var init := parts[..|parts| - 1];
      assert ([p] + parts)[..|parts|] == [p] + init;
      ConcatCons(p, init);
    }
  }
}
