/** What the R-tree's bounding boxes, shape and range query guarantee. */
module RTreeFacts {
  import opened Geometry
  import opened Sequences
  import opened RTreeSpec

  // ------------------------------------------------------------ bounding boxes

  /** The folds find the least and the greatest coordinate: each is the
      coordinate of some point and no point lies beyond it. */
  lemma {:induction false} LowHigh(pts: seq<Point>, a: Axis)
    requires |pts| > 0
    ensures forall i :: 0 <= i < |pts| ==> Low(pts, a) <= Coord(pts[i], a) <= High(pts, a)
    ensures exists i :: 0 <= i < |pts| && Low(pts, a) == Coord(pts[i], a)
    ensures exists i :: 0 <= i < |pts| && High(pts, a) == Coord(pts[i], a)
  {
    if |pts| == 1 {
      assert Low(pts, a) == Coord(pts[0], a) && High(pts, a) == Coord(pts[0], a);
    } else {
      var init, n := pts[..|pts| - 1], |pts| - 1;
      LowHigh(init, a);
      assert Low(pts, a) == Min(Low(init, a), Coord(pts[n], a));
      assert High(pts, a) == Max(High(init, a), Coord(pts[n], a));
      forall i | 0 <= i < |pts|
        ensures Low(pts, a) <= Coord(pts[i], a) <= High(pts, a)
      {
        if i < n {
          assert init[i] == pts[i];
        }
      }
      var j :| 0 <= j < |init| && Low(init, a) == Coord(init[j], a);
      var k :| 0 <= k < |init| && High(init, a) == Coord(init[k], a);
      if Low(init, a) <= Coord(pts[n], a) {
        assert Low(pts, a) == Coord(pts[j], a);
      } else {
        assert Low(pts, a) == Coord(pts[n], a);
      }
      if High(init, a) >= Coord(pts[n], a) {
        assert High(pts, a) == Coord(pts[k], a);
      } else {
        assert High(pts, a) == Coord(pts[n], a);
      }
    }
  }

  /** The box of a non-empty point list contains every point, and lies inside
      every rectangle that contains them all: it is the smallest. */
  lemma PointsBoundTight(pts: seq<Point>, r: Rectangle)
    ensures forall i :: 0 <= i < |pts| ==> Contains(PointsBound(pts), pts[i])
    ensures pts != [] && (forall i :: 0 <= i < |pts| ==> Contains(r, pts[i])) ==>
              Inside(PointsBound(pts), r)
  {
    if pts != [] {
      LowHigh(pts, X);
      LowHigh(pts, Y);
      var b := PointsBound(pts);
      assert b.left == Low(pts, X) && b.right == High(pts, X);
      assert b.bottom == Low(pts, Y) && b.top == High(pts, Y);
      if forall i :: 0 <= i < |pts| ==> Contains(r, pts[i]) {
        var i0 :| 0 <= i0 < |pts| && b.left == Coord(pts[i0], X);
        var i1 :| 0 <= i1 < |pts| && b.right == Coord(pts[i1], X);
        var i2 :| 0 <= i2 < |pts| && b.bottom == Coord(pts[i2], Y);
        var i3 :| 0 <= i3 < |pts| && b.top == Coord(pts[i3], Y);
        assert Contains(r, pts[i0]) && Contains(r, pts[i1]) && Contains(r, pts[i2]) && Contains(r, pts[i3]);
      }
    }
  }

  /** The box of a list of nodes holds each child's box, and lies inside every
      rectangle that holds them all: it is the smallest. */
  lemma {:induction false} NodesBoundTight(ns: seq<Node>, r: Rectangle)
    ensures forall i :: 0 <= i < |ns| ==> Inside(ns[i].boundary, NodesBound(ns))
    ensures ns != [] && (forall i :: 0 <= i < |ns| ==> Inside(ns[i].boundary, r)) ==>
              Inside(NodesBound(ns), r)
  {
    if |ns| > 1 {
      var init := ns[..|ns| - 1];
      NodesBoundTight(init, r);
      assert forall i :: 0 <= i < |init| ==> init[i] == ns[i];
    }
  }

  // ------------------------------------------------------------ contents

  lemma {:induction false} FlattenAllJoin(a: seq<Node>, b: seq<Node>)
    ensures FlattenAll(a + b) == FlattenAll(a) + FlattenAll(b)
    decreases |b|
  {
    if b != [] {
      var b' := b[..|b| - 1];
      assert (a + b)[..|a + b| - 1] == a + b';
      FlattenAllJoin(a, b');
    } else {
      assert a + b == a;
    }
  }

  lemma FlattenAllOne(n: Node)
    ensures FlattenAll([n]) == Flatten(n)
  {
    assert [n][..0] == [];
  }

  /** A point below a list of siblings is below one of them. */
  lemma {:induction false} FlattenAllMember(ns: seq<Node>, p: Point) returns (i: nat)
    requires p in FlattenAll(ns)
    ensures i < |ns| && p in Flatten(ns[i])
  {
    var init := ns[..|ns| - 1];
    if p in Flatten(ns[|ns| - 1]) {
      i := |ns| - 1;
    } else {
      i := FlattenAllMember(init, p);
      assert init[i] == ns[i];
    }
  }

  /** In a tree the loader shaped, every point lies in the box of each node
      above it. */
  lemma {:induction false} ShapedEnclosed(n: Node, h: nat, cap: nat)
    requires Shaped(n, h, cap)
    ensures Enclosed(n)
    decreases n
  {
    match n
    case Leaf(b, pts) =>
      PointsBoundTight(pts, b);
      forall p | p in pts
        ensures Contains(b, p)
      {
        var i :| 0 <= i < |pts| && pts[i] == p;
      }
    case Inner(b, ch) =>
      forall i | 0 <= i < |ch|
        ensures Enclosed(ch[i])
      {
        ShapedEnclosed(ch[i], h - 1, cap);
      }
      NodesBoundTight(ch, b);
      forall p | p in FlattenAll(ch)
        ensures Contains(b, p)
      {
        var i := FlattenAllMember(ch, p);
        InsideContains(ch[i].boundary, b, p);
      }
  }

  /** `get_depth` of a shaped tree is the level every leaf sits on. */
  lemma {:induction false} ShapedDepth(n: Node, h: nat, cap: nat)
    requires Shaped(n, h, cap)
    ensures Descends(n) && Depth(n) == h
    decreases n
  {
    if n.Inner? {
      ShapedDepth(n.children[0], h - 1, cap);
    }
  }

  // ------------------------------------------------------------ range query

  /** Pruning loses nothing: the range query of a node whose points lie in
      its boxes is exactly its points inside the range, in order. */
  lemma {:induction false} RangeQueryIsFilter(n: Node, range: Rectangle)
    requires Enclosed(n)
    ensures RangeQuery(n, range) == PointsIn(range, Flatten(n))
    decreases n, 1
  {
    if !Intersects(n.boundary, range) {
      forall i | 0 <= i < |Flatten(n)|
        ensures !Contains(range, Flatten(n)[i])
      {
        if Contains(range, Flatten(n)[i]) {
          CommonPointIntersects(n.boundary, range, Flatten(n)[i]);
        }
      }
      PointsInNone(range, Flatten(n));
    } else if n.Inner? {
      RangeAllIsFilter(n.children, range);
    }
  }

  lemma {:induction false} RangeAllIsFilter(ns: seq<Node>, range: Rectangle)
    requires forall i :: 0 <= i < |ns| ==> Enclosed(ns[i])
    ensures RangeAll(ns, range) == PointsIn(range, FlattenAll(ns))
    decreases ns, 0
  {
    if ns != [] {
      var init := ns[..|ns| - 1];
      assert forall i :: 0 <= i < |init| ==> init[i] == ns[i];
      RangeAllIsFilter(init, range);
      RangeQueryIsFilter(ns[|ns| - 1], range);
      PointsInAppend(range, FlattenAll(init), Flatten(ns[|ns| - 1]));
    }
  }
}
