/** What the bulk loader guarantees: the leaves hold the sorted points in
    order; repairs and new levels keep every point and the shape; the finished
    tree holds exactly the loaded points, boxed, with every leaf at the depth
    `get_depth` reports; and the STR strips are y-sorted, bounded and ordered
    by x from strip to strip. */
module BulkLoadFacts {
  import opened Geometry
  import opened Wrappers
  import opened Sequences
  import opened Sorting
  import opened RTreeSpec
  import opened RTreeFacts

  lemma FlattenAllCons(n: Node, ns: seq<Node>)
    ensures FlattenAll([n] + ns) == Flatten(n) + FlattenAll(ns)
  {
    FlattenAllJoin([n], ns);
    FlattenAllOne(n);
  }

  /** A shaped node in front of shaped siblings. */
  lemma ConsShaped(n: Node, ns: seq<Node>, h: nat, cap: nat)
    requires Shaped(n, h, cap) && forall i :: 0 <= i < |ns| ==> Shaped(ns[i], h, cap)
    ensures forall i :: 0 <= i < |[n] + ns| ==> Shaped(([n] + ns)[i], h, cap)
  {
    forall i | 0 <= i < |[n] + ns|
      ensures Shaped(([n] + ns)[i], h, cap)
    {
      if i > 0 {
        assert ([n] + ns)[i] == ns[i - 1];
      }
    }
  }

  /** A full node in front of siblings all full but the last. */
  lemma ConsFull(n: Node, ns: seq<Node>, max: nat)
    requires ns != [] ==> Fill(n) == max
    requires forall i :: 0 <= i < |ns| - 1 ==> Fill(ns[i]) == max
    ensures forall i :: 0 <= i < |[n] + ns| - 1 ==> Fill(([n] + ns)[i]) == max
  {
    forall i | 0 <= i < |[n] + ns| - 1
      ensures Fill(([n] + ns)[i]) == max
    {
      if i > 0 {
        assert ([n] + ns)[i] == ns[i - 1];
      }
    }
  }

  // ------------------------------------------------------------ leaves

  /** A strip's leaves hold its points in order, `max` to a leaf except
      possibly the last, each leaf boxed by `compute_boundary`. */
  lemma {:induction false} LeavesOfShape(pts: seq<Point>, max: nat)
    requires max > 0
    ensures forall i :: 0 <= i < |LeavesOf(pts, max)| ==> Shaped(LeavesOf(pts, max)[i], 1, max)
    ensures forall i :: 0 <= i < |LeavesOf(pts, max)| - 1 ==> Fill(LeavesOf(pts, max)[i]) == max
    ensures FlattenAll(LeavesOf(pts, max)) == pts
    decreases |pts|
  {
    if pts != [] {
      var k := MinNat(max, |pts|);
      var leaf := Leaf(PointsBound(pts[..k]), pts[..k]);
      var rest := LeavesOf(pts[k..], max);
      assert LeavesOf(pts, max) == [leaf] + rest;
      LeavesOfShape(pts[k..], max);
      assert FlattenAll([leaf] + rest) == pts by {
        FlattenAllCons(leaf, rest);
        TakeDrop(pts, k);
      }
      assert Shaped(leaf, 1, max);
      ConsShaped(leaf, rest, 1, max);
      assert rest != [] ==> Fill(leaf) == max by {
        if rest != [] {
          assert pts[k..] != [];
        }
      }
      ConsFull(leaf, rest, max);
    }
  }

  /** With strips, every strip starts a new leaf; the leaves hold the strips'
      points in order. */
  lemma {:induction false} StripLeavesShape(ss: seq<seq<Point>>, max: nat)
    requires max > 0
    ensures forall i :: 0 <= i < |StripLeaves(ss, max)| ==> Shaped(StripLeaves(ss, max)[i], 1, max)
    ensures FlattenAll(StripLeaves(ss, max)) == Concat(ss)
  {
    if ss != [] {
      var init := StripLeaves(ss[..|ss| - 1], max);
      var last := LeavesOf(ss[|ss| - 1], max);
      StripLeavesShape(ss[..|ss| - 1], max);
      LeavesOfShape(ss[|ss| - 1], max);
      FlattenAllJoin(init, last);
      var all := init + last;
      assert StripLeaves(ss, max) == all;
      forall i | 0 <= i < |all|
        ensures Shaped(all[i], 1, max)
      {
        if i < |init| {
          assert all[i] == init[i];
        } else {
          assert all[i] == last[i - |init|];
        }
      }
    }
  }

  lemma LeavesShape(d: SortedData, max: nat)
    requires max > 0
    ensures forall i :: 0 <= i < |Leaves(d, max)| ==> Shaped(Leaves(d, max)[i], 1, max)
    ensures FlattenAll(Leaves(d, max)) == Entries(d)
  {
    match d
    case Flat(pts) => LeavesOfShape(pts, max);
    case Strips(ss) => StripLeavesShape(ss, max);
  }

  // ------------------------------------------------------------ repair

  /** The level split before its last two nodes. */
  lemma FlattenAllLastTwo(level: seq<Node>)
    requires |level| >= 2
    ensures FlattenAll(level) ==
            FlattenAll(level[..|level| - 2]) + Flatten(level[|level| - 2]) + Flatten(level[|level| - 1])
  {
    var n := |level|;
    assert level[..n - 1][..n - 2] == level[..n - 2];
  }

  /** Replacing the last two nodes of a level by two shaped nodes holding the
      same points in the same order keeps the level's points and shape. */
  lemma ReplaceLastTwo(level: seq<Node>, a: Node, b: Node, r: seq<Node>, h: nat, cap: nat)
    requires |level| >= 2 && forall i :: 0 <= i < |level| ==> Shaped(level[i], h, cap)
    requires Shaped(a, h, cap) && Shaped(b, h, cap)
    requires Flatten(a) + Flatten(b) == Flatten(level[|level| - 2]) + Flatten(level[|level| - 1])
    requires r == level[..|level| - 2] + [a, b]
    ensures |r| == |level| && FlattenAll(r) == FlattenAll(level)
    ensures forall i :: 0 <= i < |r| ==> Shaped(r[i], h, cap)
  {
    ReplaceLastTwoFlat(level, a, b, r);
    ReplaceLastTwoShaped(level, a, b, r, h, cap);
  }

  lemma FlattenAllPair(a: Node, b: Node)
    ensures FlattenAll([a, b]) == Flatten(a) + Flatten(b)
  {
    assert [a, b] == [a] + [b];
    FlattenAllJoin([a], [b]);
    FlattenAllOne(a);
    FlattenAllOne(b);
  }

  lemma ReplaceLastTwoFlat(level: seq<Node>, a: Node, b: Node, r: seq<Node>)
    requires |level| >= 2
    requires Flatten(a) + Flatten(b) == Flatten(level[|level| - 2]) + Flatten(level[|level| - 1])
    requires r == level[..|level| - 2] + [a, b]
    ensures FlattenAll(r) == FlattenAll(level)
  {
    var n := |level|;
    var front, x, y := level[..n - 2], level[n - 2], level[n - 1];
    assert level == front + [x, y];
    calc {
      FlattenAll(r);
      { FlattenAllJoin(front, [a, b]); }
      FlattenAll(front) + FlattenAll([a, b]);
      { FlattenAllPair(a, b); }
      FlattenAll(front) + (Flatten(a) + Flatten(b));
      FlattenAll(front) + (Flatten(x) + Flatten(y));
      { FlattenAllPair(x, y); }
      FlattenAll(front) + FlattenAll([x, y]);
      { FlattenAllJoin(front, [x, y]); }
      FlattenAll(front + [x, y]);
    }
  }

  lemma ReplaceLastTwoShaped(level: seq<Node>, a: Node, b: Node, r: seq<Node>, h: nat, cap: nat)
    requires |level| >= 2 && forall i :: 0 <= i < |level| ==> Shaped(level[i], h, cap)
    requires Shaped(a, h, cap) && Shaped(b, h, cap)
    requires r == level[..|level| - 2] + [a, b]
    ensures forall i :: 0 <= i < |r| ==> Shaped(r[i], h, cap)
  {
    forall i | 0 <= i < |r|
      ensures Shaped(r[i], h, cap)
    {
      if i < |level| - 2 {
        assert r[i] == level[i];
      } else if i == |level| - 2 {
        assert r[i] == a;
      } else {
        assert r[i] == b;
      }
    }
  }

  /** The leaf move: the leaf before keeps its first `cut` points, at least
      `min`; the last leaf receives the rest in front of its own, at most
      `min` in all; both stay shaped and the points keep their order. */
  lemma MoveLeafPoints(prev: Node, last: Node, min: nat, cap: nat)
    requires Shaped(prev, 1, cap) && Shaped(last, 1, cap)
    requires Underfull(Fill(prev), Fill(last), min)
    ensures var cut := |prev.points| - Spare(Fill(prev), Fill(last), min);
      var p, l := prev.points[..cut], prev.points[cut..] + last.points;
      Shaped(Leaf(PointsBound(p), p), 1, cap) && Shaped(Leaf(PointsBound(l), l), 1, cap) &&
      p + l == prev.points + last.points && min <= |p|
  {
    // the sibling before holds more than `min` and at most `cap`, so the
    // last one, filled up to `min`, stays below `cap`
    assert min < Fill(prev) <= cap;
    MoveTail(prev.points, last.points, |prev.points| - Spare(Fill(prev), Fill(last), min));
  }

  lemma FlattenAllMove(a: seq<Node>, b: seq<Node>, cut: nat)
    requires cut <= |a|
    ensures FlattenAll(a[..cut]) + FlattenAll(a[cut..] + b) == FlattenAll(a) + FlattenAll(b)
  {
    var front, back := a[..cut], a[cut..];
    calc {
      FlattenAll(front) + FlattenAll(back + b);
      { FlattenAllJoin(back, b); }
      FlattenAll(front) + (FlattenAll(back) + FlattenAll(b));
      (FlattenAll(front) + FlattenAll(back)) + FlattenAll(b);
      { FlattenAllJoin(front, back); }
      FlattenAll(front + back) + FlattenAll(b);
      { TakeDrop(a, cut); }
      FlattenAll(a) + FlattenAll(b);
    }
  }

  lemma ShapedMove(a: seq<Node>, b: seq<Node>, cut: nat, h: nat, cap: nat)
    requires cut <= |a|
    requires forall i :: 0 <= i < |a| ==> Shaped(a[i], h, cap)
    requires forall i :: 0 <= i < |b| ==> Shaped(b[i], h, cap)
    ensures forall i :: 0 <= i < cut ==> Shaped(a[..cut][i], h, cap)
    ensures forall i :: 0 <= i < |a| - cut + |b| ==> Shaped((a[cut..] + b)[i], h, cap)
  {
    forall i | 0 <= i < |a| - cut + |b|
      ensures Shaped((a[cut..] + b)[i], h, cap)
    {
      if i < |a| - cut {
        assert (a[cut..] + b)[i] == a[cut + i];
      } else {
        assert (a[cut..] + b)[i] == b[i - (|a| - cut)];
      }
    }
  }

  /** The inner-node move, on children: both nodes stay shaped, the node
      before keeps at least `min` children and the points keep their order. */
  lemma MoveChildren(prev: Node, last: Node, min: nat, h: nat, cap: nat)
    requires h > 1 && Shaped(prev, h, cap) && Shaped(last, h, cap)
    requires Underfull(Fill(prev), Fill(last), min)
    ensures var cut := |prev.children| - Spare(Fill(prev), Fill(last), min);
      var p, l := prev.children[..cut], prev.children[cut..] + last.children;
      Shaped(Inner(NodesBound(p), p), h, cap) && Shaped(Inner(NodesBound(l), l), h, cap) &&
      FlattenAll(p) + FlattenAll(l) == Flatten(prev) + Flatten(last) && min <= |p|
  {
    assert prev.Inner? && last.Inner?;
    var a, b := prev.children, last.children;
    assert Fill(prev) == |a| && Fill(last) == |b|;
    var cut := |a| - Spare(|a|, |b|, min);
    SpareBounds(|a|, |b|, min);
    assert min < |a| <= cap;
    FlattenAllMove(a, b, cut);
    MoveChildrenShaped(a, b, cut, min, h, cap);
  }

  /** What moves is at least one entry, leaves the sibling before with at
      least `min` and the last one with at most `min`. */
  lemma SpareBounds(prevFill: nat, lastFill: nat, min: nat)
    requires Underfull(prevFill, lastFill, min)
    ensures 0 < Spare(prevFill, lastFill, min) < prevFill
    ensures prevFill - Spare(prevFill, lastFill, min) >= min
    ensures lastFill + Spare(prevFill, lastFill, min) <= min
  {
  }

  lemma MoveChildrenShaped(a: seq<Node>, b: seq<Node>, cut: nat, min: nat, h: nat, cap: nat)
    requires h > 1 && 0 < cut <= |a| <= cap && 0 < |b| && |a| - cut + |b| <= min <= cap
    requires forall i :: 0 <= i < |a| ==> Shaped(a[i], h - 1, cap)
    requires forall i :: 0 <= i < |b| ==> Shaped(b[i], h - 1, cap)
    ensures Shaped(Inner(NodesBound(a[..cut]), a[..cut]), h, cap)
    ensures Shaped(Inner(NodesBound(a[cut..] + b), a[cut..] + b), h, cap)
  {
    ShapedMove(a, b, cut, h - 1, cap);
  }

  /** The repaired leaf level when the move happens: the front unchanged,
      then the two leaves holding `p` and `l`, boxed anew. */
  lemma RepairLeavesAt(level: seq<Node>, min: nat, p: seq<Point>, l: seq<Point>)
    requires |level| >= 2
    requires level[|level| - 2].Leaf? && level[|level| - 1].Leaf?
    requires Underfull(|level[|level| - 2].points|, |level[|level| - 1].points|, min)
    requires p == level[|level| - 2].points[..|level[|level| - 2].points| -
                  Spare(|level[|level| - 2].points|, |level[|level| - 1].points|, min)]
    requires l == level[|level| - 2].points[|level[|level| - 2].points| -
                  Spare(|level[|level| - 2].points|, |level[|level| - 1].points|, min)..] + level[|level| - 1].points
    ensures RepairLeaves(level, min) == level[..|level| - 2] + [Leaf(PointsBound(p), p), Leaf(PointsBound(l), l)]
  {
  }

  /** The repaired parent level when the move happens. */
  lemma RepairParentsAt(level: seq<Node>, min: nat, p: seq<Node>, l: seq<Node>)
    requires |level| >= 2
    requires level[|level| - 2].Inner? && level[|level| - 1].Inner?
    requires Underfull(|level[|level| - 2].children|, |level[|level| - 1].children|, min)
    requires p == level[|level| - 2].children[..|level[|level| - 2].children| -
                  Spare(|level[|level| - 2].children|, |level[|level| - 1].children|, min)]
    requires l == level[|level| - 2].children[|level[|level| - 2].children| -
                  Spare(|level[|level| - 2].children|, |level[|level| - 1].children|, min)..] + level[|level| - 1].children
    ensures RepairParents(level, min) == level[..|level| - 2] + [Inner(NodesBound(p), p), Inner(NodesBound(l), l)]
  {
  }

  /** Leaf repair keeps the points in order and the shape. */
  lemma RepairLeavesKeeps(level: seq<Node>, min: nat, cap: nat)
    requires forall i :: 0 <= i < |level| ==> Shaped(level[i], 1, cap)
    ensures |RepairLeaves(level, min)| == |level|
    ensures FlattenAll(RepairLeaves(level, min)) == FlattenAll(level)
    ensures forall i :: 0 <= i < |level| ==> Shaped(RepairLeaves(level, min)[i], 1, cap)
  {
    var n := |level|;
    if n >= 2 {
      var prev, last := level[n - 2], level[n - 1];
      assert prev.Leaf? && last.Leaf? by {
        assert Shaped(prev, 1, cap) && Shaped(last, 1, cap);
      }
      if Underfull(|prev.points|, |last.points|, min) {
        MovedLeavesKeep(level, min, cap);
      } else {
        LeavesUnmoved(level, min);
      }
    }
  }

  lemma LeavesUnmoved(level: seq<Node>, min: nat)
    requires |level| >= 2
    requires !(level[|level| - 2].Leaf? && level[|level| - 1].Leaf? &&
               Underfull(|level[|level| - 2].points|, |level[|level| - 1].points|, min))
    ensures RepairLeaves(level, min) == level
  {
  }

  lemma MovedLeavesKeep(level: seq<Node>, min: nat, cap: nat)
    requires forall i :: 0 <= i < |level| ==> Shaped(level[i], 1, cap)
    requires |level| >= 2 && level[|level| - 2].Leaf? && level[|level| - 1].Leaf?
    requires Underfull(|level[|level| - 2].points|, |level[|level| - 1].points|, min)
    ensures |RepairLeaves(level, min)| == |level|
    ensures FlattenAll(RepairLeaves(level, min)) == FlattenAll(level)
    ensures forall i :: 0 <= i < |level| ==> Shaped(RepairLeaves(level, min)[i], 1, cap)
  {
    var n := |level|;
    var prev, last := level[n - 2], level[n - 1];
    var cut := |prev.points| - Spare(|prev.points|, |last.points|, min);
    var p, l := prev.points[..cut], prev.points[cut..] + last.points;
    var a, b := Leaf(PointsBound(p), p), Leaf(PointsBound(l), l);
    var r := RepairLeaves(level, min);
    RepairLeavesAt(level, min, p, l);
    MoveLeafPoints(prev, last, min, cap);
    ReplaceLastTwo(level, a, b, r, 1, cap);
  }

  /** When the last leaf is under-full and the one before can spare points,
      repair moves `Spare` of them: the leaf before keeps at least `min`, the
      last leaf gains what was moved and the leaves before are untouched. */
  lemma RepairLeavesMoves(level: seq<Node>, min: nat, cap: nat)
    requires forall i :: 0 <= i < |level| ==> Shaped(level[i], 1, cap)
    requires |level| >= 2 && Underfull(Fill(level[|level| - 2]), Fill(level[|level| - 1]), min)
    ensures var r, n := RepairLeaves(level, min), |level|;
      var moved := Spare(Fill(level[n - 2]), Fill(level[n - 1]), min);
      |r| == n && r[..n - 2] == level[..n - 2] && Fill(r[n - 2]) >= min &&
      Fill(r[n - 2]) == Fill(level[n - 2]) - moved && Fill(r[n - 1]) == Fill(level[n - 1]) + moved
  {
    var n := |level|;
    var prev, last := level[n - 2], level[n - 1];
    assert prev.Leaf? && last.Leaf? by {
      assert Shaped(prev, 1, cap) && Shaped(last, 1, cap);
    }
    assert Fill(prev) == |prev.points| && Fill(last) == |last.points|;
    var cut := |prev.points| - Spare(|prev.points|, |last.points|, min);
    var p, l := prev.points[..cut], prev.points[cut..] + last.points;
    RepairLeavesAt(level, min, p, l);
    MoveLeafPoints(prev, last, min, cap);
  }

  /** Inner-node repair keeps the points in order and the shape. */
  lemma RepairParentsKeeps(level: seq<Node>, min: nat, h: nat, cap: nat)
    requires h > 1 && forall i :: 0 <= i < |level| ==> Shaped(level[i], h, cap)
    ensures |RepairParents(level, min)| == |level|
    ensures FlattenAll(RepairParents(level, min)) == FlattenAll(level)
    ensures forall i :: 0 <= i < |level| ==> Shaped(RepairParents(level, min)[i], h, cap)
  {
    var n := |level|;
    if n >= 2 {
      var prev, last := level[n - 2], level[n - 1];
      assert prev.Inner? && last.Inner? by {
        assert Shaped(prev, h, cap) && Shaped(last, h, cap);
      }
      if Underfull(|prev.children|, |last.children|, min) {
        MovedParentsKeep(level, min, h, cap);
      } else {
        ParentsUnmoved(level, min);
      }
    }
  }

  lemma ParentsUnmoved(level: seq<Node>, min: nat)
    requires |level| >= 2
    requires !(level[|level| - 2].Inner? && level[|level| - 1].Inner? &&
               Underfull(|level[|level| - 2].children|, |level[|level| - 1].children|, min))
    ensures RepairParents(level, min) == level
  {
  }

  lemma MovedParentsKeep(level: seq<Node>, min: nat, h: nat, cap: nat)
    requires h > 1 && forall i :: 0 <= i < |level| ==> Shaped(level[i], h, cap)
    requires |level| >= 2 && level[|level| - 2].Inner? && level[|level| - 1].Inner?
    requires Underfull(|level[|level| - 2].children|, |level[|level| - 1].children|, min)
    ensures |RepairParents(level, min)| == |level|
    ensures FlattenAll(RepairParents(level, min)) == FlattenAll(level)
    ensures forall i :: 0 <= i < |level| ==> Shaped(RepairParents(level, min)[i], h, cap)
  {
    var n := |level|;
    var prev, last := level[n - 2], level[n - 1];
    var cut := |prev.children| - Spare(|prev.children|, |last.children|, min);
    var p, l := prev.children[..cut], prev.children[cut..] + last.children;
    var a, b := Inner(NodesBound(p), p), Inner(NodesBound(l), l);
    var r := RepairParents(level, min);
    RepairParentsAt(level, min, p, l);
    MoveChildren(prev, last, min, h, cap);
    ReplaceLastTwo(level, a, b, r, h, cap);
  }

  /** The same move on children, when inner-node repair runs. */
  lemma RepairParentsMoves(level: seq<Node>, min: nat, h: nat, cap: nat)
    requires h > 1 && forall i :: 0 <= i < |level| ==> Shaped(level[i], h, cap)
    requires |level| >= 2 && Underfull(Fill(level[|level| - 2]), Fill(level[|level| - 1]), min)
    ensures var r, n := RepairParents(level, min), |level|;
      var moved := Spare(Fill(level[n - 2]), Fill(level[n - 1]), min);
      |r| == n && r[..n - 2] == level[..n - 2] && Fill(r[n - 2]) >= min &&
      Fill(r[n - 2]) == Fill(level[n - 2]) - moved && Fill(r[n - 1]) == Fill(level[n - 1]) + moved
  {
    var n := |level|;
    var prev, last := level[n - 2], level[n - 1];
    assert prev.Inner? && last.Inner? by {
      assert Shaped(prev, h, cap) && Shaped(last, h, cap);
    }
    assert Fill(prev) == |prev.children| && Fill(last) == |last.children|;
    var cut := |prev.children| - Spare(|prev.children|, |last.children|, min);
    var p, l := prev.children[..cut], prev.children[cut..] + last.children;
    RepairParentsAt(level, min, p, l);
    MoveChildren(prev, last, min, h, cap);
  }

  // ------------------------------------------------------------ upper levels

  /** A new level holds the same points in order, `max` children to a parent
      except possibly the last, every parent one level higher and boxed by
      `compute_boundary` of its children. */
  lemma DropShaped(ns: seq<Node>, k: nat, h: nat, cap: nat)
    requires k <= |ns| && forall i :: 0 <= i < |ns| ==> Shaped(ns[i], h, cap)
    ensures forall i :: 0 <= i < |ns| - k ==> Shaped(ns[k..][i], h, cap)
  {
    assert forall i :: 0 <= i < |ns| - k ==> ns[k..][i] == ns[k + i];
  }

  /** A group of shaped siblings under a new parent is shaped one level up. */
  lemma GroupShaped(ns: seq<Node>, k: nat, h: nat, cap: nat)
    requires 0 < k <= |ns| && k <= cap && forall i :: 0 <= i < |ns| ==> Shaped(ns[i], h, cap)
    ensures Shaped(Inner(NodesBound(ns[..k]), ns[..k]), h + 1, cap)
  {
    assert forall i :: 0 <= i < k ==> ns[..k][i] == ns[i];
    assert Shaped(ns[0], h, cap);
  }

  lemma ParentsOfShape(ns: seq<Node>, max: nat, h: nat, cap: nat)
    requires 0 < max <= cap && forall i :: 0 <= i < |ns| ==> Shaped(ns[i], h, cap)
    ensures forall i :: 0 <= i < |ParentsOf(ns, max)| ==> Shaped(ParentsOf(ns, max)[i], h + 1, cap)
    ensures forall i :: 0 <= i < |ParentsOf(ns, max)| - 1 ==> Fill(ParentsOf(ns, max)[i]) == max
    ensures FlattenAll(ParentsOf(ns, max)) == FlattenAll(ns)
  {
    ParentsOfShaped(ns, max, h, cap);
    ParentsOfFull(ns, max);
    ParentsOfFlat(ns, max);
  }

  lemma {:induction false} ParentsOfShaped(ns: seq<Node>, max: nat, h: nat, cap: nat)
    requires 0 < max <= cap && forall i :: 0 <= i < |ns| ==> Shaped(ns[i], h, cap)
    ensures forall i :: 0 <= i < |ParentsOf(ns, max)| ==> Shaped(ParentsOf(ns, max)[i], h + 1, cap)
    decreases |ns|
  {
    if ns != [] {
      var k := MinNat(max, |ns|);
      var parent := Inner(NodesBound(ns[..k]), ns[..k]);
      var rest := ParentsOf(ns[k..], max);
      assert ParentsOf(ns, max) == [parent] + rest;
      DropShaped(ns, k, h, cap);
      ParentsOfShaped(ns[k..], max, h, cap);
      GroupShaped(ns, k, h, cap);
      ConsShaped(parent, rest, h + 1, cap);
    }
  }

  lemma {:induction false} ParentsOfFull(ns: seq<Node>, max: nat)
    requires 0 < max
    ensures forall i :: 0 <= i < |ParentsOf(ns, max)| - 1 ==> Fill(ParentsOf(ns, max)[i]) == max
    decreases |ns|
  {
    if ns != [] {
      var k := MinNat(max, |ns|);
      var parent := Inner(NodesBound(ns[..k]), ns[..k]);
      var rest := ParentsOf(ns[k..], max);
      assert ParentsOf(ns, max) == [parent] + rest;
      ParentsOfFull(ns[k..], max);
      assert rest != [] ==> Fill(parent) == max by {
        if rest != [] {
          assert ns[k..] != [];
        }
      }
      ConsFull(parent, rest, max);
    }
  }

  lemma {:induction false} ParentsOfFlat(ns: seq<Node>, max: nat)
    requires 0 < max
    ensures FlattenAll(ParentsOf(ns, max)) == FlattenAll(ns)
    decreases |ns|
  {
    if ns != [] {
      var k := MinNat(max, |ns|);
      var parent := Inner(NodesBound(ns[..k]), ns[..k]);
      var rest := ParentsOf(ns[k..], max);
      assert ParentsOf(ns, max) == [parent] + rest;
      ParentsOfFlat(ns[k..], max);
      FlattenAllCons(parent, rest);
      FlattenAllJoin(ns[..k], ns[k..]);
      TakeDrop(ns, k);
    }
  }

  /** One level up, repaired: the same points in order, every node one
      level higher. */
  lemma NextLevelKeeps(level: seq<Node>, max: nat, min: nat, h: nat, cap: nat)
    requires 0 < max <= cap && level != []
    requires forall i :: 0 <= i < |level| ==> Shaped(level[i], h, cap)
    ensures var next := RepairParents(ParentsOf(level, max), min);
      (forall i :: 0 <= i < |next| ==> Shaped(next[i], h + 1, cap)) &&
      FlattenAll(next) == FlattenAll(level)
  {
    var parents := ParentsOf(level, max);
    ParentsOfShape(level, max, h, cap);
    assert h >= 1 by {
      assert Shaped(level[0], h, cap);
    }
    RepairParentsKeeps(parents, min, h + 1, cap);
  }

  /** Growing levels keeps the points in order and the shape; all nodes of
      the top level share one height. */
  lemma {:induction false} GrowKeeps(level: seq<Node>, max: nat, min: nat, h: nat, cap: nat) returns (top: nat)
    requires 0 < max <= cap && (max >= 2 || |level| <= 1)
    requires forall i :: 0 <= i < |level| ==> Shaped(level[i], h, cap)
    ensures forall i :: 0 <= i < |Grow(level, max, min)| ==> Shaped(Grow(level, max, min)[i], top, cap)
    ensures FlattenAll(Grow(level, max, min)) == FlattenAll(level)
    decreases |level|
  {
    if |level| <= 1 {
      top := h;
    } else {
      var next := RepairParents(ParentsOf(level, max), min);
      NextLevelKeeps(level, max, min, h, cap);
      top := GrowKeeps(next, max, min, h + 1, cap);
    }
  }

  /** The tree the loader builds holds exactly the loaded points, in load
      order; every node is boxed by `compute_boundary` of its entries and
      holds at least one and at most `max_entries` entries; and every leaf
      lies at the depth `get_depth` reports. There is a tree exactly when
      there are points. */
  lemma BulkLoadShape(d: SortedData, max: nat, min: nat)
    requires Loadable(d, max)
    ensures BulkLoad(d, max, min).Some? <==> Entries(d) != []
    ensures BulkLoad(d, max, min).Some? ==>
              var root := BulkLoad(d, max, min).value;
              Descends(root) && Shaped(root, Depth(root), max) &&
              Flatten(root) == Entries(d)
  {
    if Entries(d) == [] {
      NothingToLoad(d, max, min);
    } else {
      LoadedShape(d, max, min);
    }
  }

  lemma NothingToLoad(d: SortedData, max: nat, min: nat)
    requires Entries(d) == []
    ensures BulkLoad(d, max, min) == None
  {
    assert Leaves(d, max) == [];
  }

  /** The repaired leaf level the level loop starts from: not empty, shaped
      one level up from the points, holding the points in load order, and
      with at most one leaf unless groups of two or more shrink it. */
  lemma LeafLevel(d: SortedData, max: nat, min: nat)
    requires Loadable(d, max) && Entries(d) != []
    ensures var level := RepairLeaves(Leaves(d, max), min);
      level != [] && 0 < max && (max >= 2 || |level| <= 1) &&
      (forall i :: 0 <= i < |level| ==> Shaped(level[i], 1, max)) &&
      FlattenAll(level) == Entries(d)
  {
    var leaves := Leaves(d, max);
    LeavesShape(d, max);
    RepairLeavesKeeps(leaves, min, max);
  }

  lemma LoadedShape(d: SortedData, max: nat, min: nat)
    requires Loadable(d, max) && Entries(d) != []
    ensures BulkLoad(d, max, min).Some?
    ensures var root := BulkLoad(d, max, min).value;
      Descends(root) && Shaped(root, Depth(root), max) && Flatten(root) == Entries(d)
  {
    var level := RepairLeaves(Leaves(d, max), min);
    LeafLevel(d, max, min);
    GrowToRoot(level, max, min, 1);
    assert BulkLoad(d, max, min) == Some(Grow(level, max, min)[0]);
  }

  /** The level loop run on shaped nodes leaves a single root holding their
      points in order, shaped with every leaf at the depth it reports. */
  lemma GrowToRoot(level: seq<Node>, max: nat, min: nat, h: nat)
    requires level != [] && 0 < max && (max >= 2 || |level| <= 1)
    requires forall i :: 0 <= i < |level| ==> Shaped(level[i], h, max)
    ensures |Grow(level, max, min)| == 1
    ensures var root := Grow(level, max, min)[0];
      Descends(root) && Shaped(root, Depth(root), max) && Flatten(root) == FlattenAll(level)
  {
    var top := GrowKeeps(level, max, min, h, max);
    var root := Grow(level, max, min)[0];
    assert Grow(level, max, min) == [root];
    FlattenAllOne(root);
    ShapedDepth(root, top, max);
  }

  /** What `insert` loads: a permutation of its non-empty input, on which
      the loader finishes and leaves a single shaped root holding exactly
      those points, each in the box of every node above it. */
  lemma LoadPermuted(pts: seq<Point>, d: SortedData, max: nat, min: nat)
    requires pts != [] && multiset(Entries(d)) == multiset(pts) && Finishes(|pts|, max)
    ensures Loadable(d, max) && BulkLoad(d, max, min).Some?
    ensures var root := BulkLoad(d, max, min).value;
      Descends(root) && Shaped(root, Depth(root), max) && Enclosed(root) &&
      multiset(Flatten(root)) == multiset(pts)
  {
    assert |Entries(d)| == |pts| by {
      assert |Entries(d)| == |multiset(Entries(d))| == |multiset(pts)| == |pts|;
    }
    LoadedShape(d, max, min);
    var root := BulkLoad(d, max, min).value;
    ShapedEnclosed(root, Depth(root), max);
  }

  // ------------------------------------------------------------ STR strips

  lemma {:induction false} InConcat(parts: seq<seq<Point>>, j: nat, x: Point)
    requires j < |parts| && x in parts[j]
    ensures x in multiset(Concat(parts))
  {
    if j < |parts| - 1 {
      InConcat(parts[..|parts| - 1], j, x);
    }
  }

  /** Every point of s lies left of (or level with) every point of t. */
  ghost predicate XBefore(s: seq<Point>, t: seq<Point>) {
    forall a, b :: 0 <= a < |s| && 0 <= b < |t| ==> s[a].x <= t[b].x
  }

  /** The strips partition the points: together they are a permutation of
      them. */
  lemma {:induction false} StripsOfCount(xs: seq<Point>, size: nat)
    requires size > 0
    ensures multiset(Concat(StripsOf(xs, size))) == multiset(xs)
    decreases |xs|
  {
    if xs != [] {
      var k := MinNat(size, |xs|);
      StripsOfCount(xs[k..], size);
      ConcatCons(SortBy(xs[..k], YKey), StripsOf(xs[k..], size));
      TakeDrop(xs, k);
    }
  }

  /** Each strip is non-empty, at most `size` long (exactly `size` except the
      last) and sorted by y. */
  lemma {:induction false} StripsOfSizes(xs: seq<Point>, size: nat)
    requires size > 0
    ensures forall i :: 0 <= i < |StripsOf(xs, size)| ==>
              0 < |StripsOf(xs, size)[i]| <= size && SortedBy(StripsOf(xs, size)[i], YKey)
    ensures forall i :: 0 <= i < |StripsOf(xs, size)| - 1 ==> |StripsOf(xs, size)[i]| == size
    decreases |xs|
  {
    if xs != [] {
      var k := MinNat(size, |xs|);
      var first := SortBy(xs[..k], YKey);
      var rest := StripsOf(xs[k..], size);
      StripsOfSizes(xs[k..], size);
      assert |first| == k by {
        assert |multiset(first)| == |multiset(xs[..k])|;
      }
      assert rest != [] ==> k == size by {
        if rest != [] {
          assert xs[k..] != [];
        }
      }
      var ss := [first] + rest;
      assert StripsOf(xs, size) == ss;
      forall i | 0 <= i < |ss|
        ensures 0 < |ss[i]| <= size && SortedBy(ss[i], YKey)
      {
        if i > 0 {
          assert ss[i] == rest[i - 1];
        } else {
          assert ss[i] == first;
        }
      }
      forall i | 0 <= i < |ss| - 1
        ensures |ss[i]| == size
      {
        if i > 0 {
          assert ss[i] == rest[i - 1];
        } else {
          assert ss[i] == first;
        }
      }
    }
  }

  /** A point of a later strip comes from the points cut off after the first. */
  lemma StripMember(xs: seq<Point>, size: nat, j: nat, p: Point)
    requires size > 0 && j < |StripsOf(xs, size)| && p in StripsOf(xs, size)[j]
    ensures p in multiset(xs)
  {
    InConcat(StripsOf(xs, size), j, p);
    StripsOfCount(xs, size);
  }

  /** Points drawn from before a cut of an x-sorted sequence lie left of the
      points drawn from after it. */
  lemma XBeforeSplit(xs: seq<Point>, k: nat, s: seq<Point>, t: seq<Point>)
    requires SortedBy(xs, XKey) && k <= |xs|
    requires forall a :: 0 <= a < |s| ==> s[a] in multiset(xs[..k])
    requires forall b :: 0 <= b < |t| ==> t[b] in multiset(xs[k..])
    ensures XBefore(s, t)
  {
    forall a, b | 0 <= a < |s| && 0 <= b < |t|
      ensures s[a].x <= t[b].x
    {
      assert s[a] in xs[..k];
      assert t[b] in xs[k..];
      var a' :| 0 <= a' < k && xs[..k][a'] == s[a];
      var b' :| 0 <= b' < |xs| - k && xs[k..][b'] == t[b];
      assert XKey(xs[a']) <= XKey(xs[k + b']);
    }
  }

  /** The first strip lies left of every later one. */
  lemma FirstStripBefore(xs: seq<Point>, size: nat, k: nat, j: nat)
    requires size > 0 && SortedBy(xs, XKey) && k == MinNat(size, |xs|)
    requires j < |StripsOf(xs[k..], size)|
    ensures XBefore(SortBy(xs[..k], YKey), StripsOf(xs[k..], size)[j])
  {
    var first, later := SortBy(xs[..k], YKey), StripsOf(xs[k..], size)[j];
    forall b | 0 <= b < |later|
      ensures later[b] in multiset(xs[k..])
    {
      StripMember(xs[k..], size, j, later[b]);
    }
    forall a | 0 <= a < |first|
      ensures first[a] in multiset(xs[..k])
    {
      assert first[a] in multiset(first);
    }
    XBeforeSplit(xs, k, first, later);
  }

  /** No point of a strip lies right of a point of a later strip. */
  lemma {:induction false} StripsOfSeparated(xs: seq<Point>, size: nat)
    requires size > 0 && SortedBy(xs, XKey)
    ensures forall i, j :: 0 <= i < j < |StripsOf(xs, size)| ==>
              XBefore(StripsOf(xs, size)[i], StripsOf(xs, size)[j])
    decreases |xs|
  {
    if xs != [] {
      var k := MinNat(size, |xs|);
      var first := SortBy(xs[..k], YKey);
      var rest := StripsOf(xs[k..], size);
      SuffixSorted(xs, k);
      StripsOfSeparated(xs[k..], size);
      forall j | 0 <= j < |rest|
        ensures XBefore(first, rest[j])
      {
        FirstStripBefore(xs, size, k, j);
      }
      assert StripsOf(xs, size) == [first] + rest;
      ConsSeparated(first, rest);
    }
  }

  lemma SuffixSorted(xs: seq<Point>, k: nat)
    requires SortedBy(xs, XKey) && k <= |xs|
    ensures SortedBy(xs[k..], XKey)
  {
    assert forall i :: 0 <= i < |xs| - k ==> xs[k..][i] == xs[k + i];
  }

  /** Strips pairwise in x order stay so with one more strip in front that
      lies left of all of them. */
  lemma ConsSeparated(first: seq<Point>, rest: seq<seq<Point>>)
    requires forall j :: 0 <= j < |rest| ==> XBefore(first, rest[j])
    requires forall i, j :: 0 <= i < j < |rest| ==> XBefore(rest[i], rest[j])
    ensures forall i, j :: 0 <= i < j < |[first] + rest| ==> XBefore(([first] + rest)[i], ([first] + rest)[j])
  {
    var ss := [first] + rest;
    forall i, j | 0 <= i < j < |ss|
      ensures XBefore(ss[i], ss[j])
    {
      assert ss[j] == rest[j - 1];
      if i > 0 {
        assert ss[i] == rest[i - 1];
      }
    }
  }

  /** `sort_points` hands on a permutation of its input: one run sorted by
      the Z-order key, or y-sorted strips of the points sorted by x, each of
      `StripSize` points but the last, with no point of a strip right of a
      point of a later strip. No points give an empty run. */
  lemma SortPointsShape(points: seq<Point>, minX: real, maxX: real, minY: real, maxY: real,
                        order: SortMethod, scale: (real, real, real) -> Morton.uint32, S: nat)
    ensures var d := SortPoints(points, minX, maxX, minY, maxY, order, scale, S);
      multiset(Entries(d)) == multiset(points) &&
      (points == [] ==> d == Flat([])) &&
      (points != [] && order == ZOrder ==> d.Flat? && SortedBy(d.points, ZKey(scale, minX, maxX, minY, maxY))) &&
      (points != [] && order == STR ==>
         d.Strips? &&
         (forall i :: 0 <= i < |d.strips| ==>
            0 < |d.strips[i]| <= StripSize(|points|, S) && SortedBy(d.strips[i], YKey)) &&
         (forall i :: 0 <= i < |d.strips| - 1 ==> |d.strips[i]| == StripSize(|points|, S)) &&
         (forall i, j :: 0 <= i < j < |d.strips| ==> XBefore(d.strips[i], d.strips[j])))
  {
    if points != [] && order == STR {
      var xs := SortBy(points, XKey);
      assert |xs| == |multiset(xs)| == |points|;
      var size := StripSize(|xs|, S);
      assert size == StripSize(|points|, S) && size > 0;
      var d := Strips(StripsOf(xs, size));
      assert SortPoints(points, minX, maxX, minY, maxY, order, scale, S) == d;
      StripsOfCount(xs, size);
      StripsOfSizes(xs, size);
      StripsOfSeparated(xs, size);
    }
  }

  /** `sort_points` hands the loader a permutation of its input. */
  lemma SortPointsPermutes(points: seq<Point>, minX: real, maxX: real, minY: real, maxY: real,
                           order: SortMethod, scale: (real, real, real) -> Morton.uint32, S: nat)
    ensures multiset(Entries(SortPoints(points, minX, maxX, minY, maxY, order, scale, S))) == multiset(points)
  {
    SortPointsShape(points, minX, maxX, minY, maxY, order, scale, S);
  }
}
