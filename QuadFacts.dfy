/** What insertion into the QuadTree guarantees, proved about the value model. */
module QuadFacts {
  import opened Geometry
  import opened Wrappers
  import opened QuadSpec

  // ---------------------------------------------------------------- quadrants

  lemma QuadrantConsistent(b: Rectangle, q: Quadrant)
    ensures Consistent(QuadrantBoundary(b, q))
  {
  }

  /** For a rectangle whose bounds agree with its centre and size, the four
      quadrants' bounds meet at the centre and reach the parent's bounds. */
  lemma QuadrantBounds(b: Rectangle, q: Quadrant)
    requires Consistent(b)
    ensures var r := QuadrantBoundary(b, q);
      (if q == NW || q == SW then r.left == b.left && r.right == b.x
       else r.left == b.x && r.right == b.right) &&
      (if q == SW || q == SE then r.bottom == b.bottom && r.top == b.y
       else r.bottom == b.y && r.top == b.top)
  {
  }

  /** Together the quadrants cover their parent: the parent contains a point
      exactly when some quadrant does. */
  lemma QuadrantsCover(b: Rectangle, p: Point)
    requires Consistent(b)
    ensures Contains(b, p) <==> exists q :: Contains(QuadrantBoundary(b, q), p)
  {
    QuadrantBounds(b, NW);
    QuadrantBounds(b, NE);
    QuadrantBounds(b, SW);
    QuadrantBounds(b, SE);
    if Contains(b, p) {
      var q := if p.x <= b.x then (if p.y <= b.y then SW else NW)
               else (if p.y <= b.y then SE else NE);
      assert Contains(QuadrantBoundary(b, q), p);
    }
  }

  /** Each quadrant of a rectangle of non-negative size lies inside it. */
  lemma QuadrantInside(b: Rectangle, q: Quadrant)
    requires Consistent(b) && Proper(b)
    ensures Inside(QuadrantBoundary(b, q), b)
  {
    QuadrantBounds(b, q);
  }

  /** Some quadrant in the insertion order contains every point of the parent. */
  lemma InsertOrderCovers(b: Rectangle, p: Point)
    requires Consistent(b) && Contains(b, p)
    ensures Covers(b, InsertOrder, p)
  {
    QuadrantsCover(b, p);
    var q :| Contains(QuadrantBoundary(b, q), p);
    var i := match q case NE => 0 case NW => 1 case SE => 2 case SW => 3;
    assert InsertOrder[i] == q;
  }

  // ---------------------------------------------------------------- structure

  lemma FlattenNode(t: Tree)
    requires t.Node?
    ensures multiset(Flatten(t)) ==
      multiset(Flatten(Child(t, NW))) + multiset(Flatten(Child(t, NE))) +
      multiset(Flatten(Child(t, SW))) + multiset(Flatten(Child(t, SE)))
  {
  }

  /** Replacing one child replaces its points and keeps the others. */
  lemma FlattenWithChild(t: Tree, q: Quadrant, c: Tree)
    requires t.Node?
    ensures multiset(Flatten(WithChild(t, q, c))) + multiset(Flatten(Child(t, q))) ==
      multiset(Flatten(t)) + multiset(Flatten(c))
  {
    var u := WithChild(t, q, c);
    FlattenNode(t);
    FlattenNode(u);
  }

  lemma InvWithChild(t: Tree, cap: nat, q: Quadrant, c: Tree)
    requires t.Node? && Inv(t, cap) && Inv(c, cap)
    requires c.boundary == Child(t, q).boundary
    requires forall x :: x in Flatten(c) ==> Contains(t.boundary, x)
    ensures Inv(WithChild(t, q, c), cap)
  {
    var u := WithChild(t, q, c);
    forall x | x in Flatten(u)
      ensures Contains(u.boundary, x)
    {
      FlattenWithChild(t, q, c);
      assert x in multiset(Flatten(u));
    }
  }

  lemma SplitInv(b: Rectangle, cap: nat)
    requires Consistent(b)
    ensures Inv(Split(b), cap)
    ensures Flatten(Split(b)) == []
  {
    var t := Split(b);
    forall q
      ensures Inv(Child(t, q), cap)
    {
      QuadrantConsistent(b, q);
    }
  }

  // ---------------------------------------------------------------- insertion

  /** p was added to the stored points exactly when `ok`; nothing else changed. */
  ghost predicate AddedIff(before: Tree, after: Tree, p: Point, ok: bool) {
    multiset(Flatten(after)) == multiset(Flatten(before)) + (if ok then multiset{p} else multiset{})
  }

  /** What one insertion guarantees: the invariant and the boundary are kept,
      p is stored exactly when success is reported, and then p lies in the
      boundary; a point in the boundary whose id the tree does not hold yet
      is always accepted. */
  ghost predicate InsertOutcome(t: Tree, cap: nat, p: Point, t': Tree, ok: bool) {
    Inv(t', cap) && t'.boundary == t.boundary && AddedIff(t, t', p, ok) &&
    (ok ==> Contains(t.boundary, p)) &&
    (Contains(t.boundary, p) && IdFree(Flatten(t), p.id) ==> ok)
  }

  /** Some quadrant named in `order` contains p. */
  ghost predicate Covers(b: Rectangle, order: seq<Quadrant>, p: Point) {
    exists i :: 0 <= i < |order| && Contains(QuadrantBoundary(b, order[i]), p)
  }

  /** What routing guarantees: the invariant is kept, p is stored exactly when
      success is reported, and a fresh id inside a quadrant in `order` is
      always accepted. */
  ghost predicate RouteOutcome(t: Tree, cap: nat, p: Point, order: seq<Quadrant>, t': Tree, ok: bool) {
    Inv(t', cap) && AddedIff(t, t', p, ok) &&
    (Covers(t.boundary, order, p) && IdFree(Flatten(t), p.id) ==> ok)
  }

  lemma {:induction false} InsertKeeps(t: Tree, cap: nat, p: Point, fuel: nat)
    requires Inv(t, cap)
    requires Insert(t, cap, p, fuel).Some?
    ensures InsertOutcome(t, cap, p, Insert(t, cap, p, fuel).value.0, Insert(t, cap, p, fuel).value.1)
    ensures !Contains(t.boundary, p) ==> Insert(t, cap, p, fuel) == Some((t, false))
    decreases fuel, 0, 1
  {
    if Contains(t.boundary, p) && fuel > 0 {
      if t.Leaf? && |t.points| < cap {
        InsertLeafKeeps(t, cap, p, fuel);
      } else if t.Leaf? {
        InsertFullLeafKeeps(t, cap, p, fuel);
      } else {
        InsertOrderCovers(t.boundary, p);
        RouteKeeps(t, cap, p, fuel - 1, InsertOrder);
      }
    }
  }

  /** A leaf below capacity refuses a point whose id it holds and appends any other. */
  lemma InsertLeafKeeps(t: Tree, cap: nat, p: Point, fuel: nat)
    requires Inv(t, cap) && t.Leaf? && |t.points| < cap
    requires Contains(t.boundary, p) && fuel > 0
    ensures Insert(t, cap, p, fuel).Some?
    ensures InsertOutcome(t, cap, p, Insert(t, cap, p, fuel).value.0, Insert(t, cap, p, fuel).value.1)
    ensures HasId(t.points, p.id) ==> Insert(t, cap, p, fuel) == Some((t, false))
    ensures !HasId(t.points, p.id) ==> Insert(t, cap, p, fuel) == Some((Leaf(t.boundary, t.points + [p]), true))
  {
    var pts := t.points;
    if !HasId(pts, p.id) {
      var t' := Leaf(t.boundary, pts + [p]);
      assert Flatten(t') == pts + [p];
      assert Insert(t, cap, p, fuel) == Some((t', true));
    } else {
      var i :| 0 <= i < |pts| && pts[i].id == p.id;
      assert pts[i] in Flatten(t);
      assert Insert(t, cap, p, fuel) == Some((t, false));
    }
  }

  /** A full leaf subdivides, re-inserts its points without losing any, then
      routes the new point to the children. */
  lemma {:induction false} InsertFullLeafKeeps(t: Tree, cap: nat, p: Point, fuel: nat)
    requires Inv(t, cap) && t.Leaf? && |t.points| >= cap
    requires Contains(t.boundary, p) && fuel > 0
    requires Insert(t, cap, p, fuel).Some?
    ensures InsertOutcome(t, cap, p, Insert(t, cap, p, fuel).value.0, Insert(t, cap, p, fuel).value.1)
    decreases fuel, 0, 0
  {
    var b, pts := t.boundary, t.points;
    SplitInv(b, cap);
    RedistributeKeeps(Split(b), cap, pts, fuel - 1);
    var n := Redistribute(Split(b), cap, pts, fuel - 1).value;
    assert multiset(Flatten(n)) == multiset(Flatten(t));
    InsertOrderCovers(b, p);
    RouteKeeps(n, cap, p, fuel - 1, InsertOrder);
    assert IdFree(Flatten(t), p.id) ==> IdFree(Flatten(n), p.id) by {
      forall x | x in Flatten(n) ensures x in Flatten(t) {
        assert x in multiset(Flatten(n));
      }
    }
  }

  /** Routing through the children in `order` keeps the invariant; it stores p
      exactly when it reports success; and it succeeds when p carries a fresh id
      and one of the quadrants in `order` contains it. */
  lemma {:induction false} RouteKeeps(t: Tree, cap: nat, p: Point, fuel: nat, order: seq<Quadrant>)
    requires t.Node? && Inv(t, cap) && Contains(t.boundary, p)
    requires Route(t, cap, p, fuel, order).Some?
    ensures RouteOutcome(t, cap, p, order, Route(t, cap, p, fuel, order).value.0,
                         Route(t, cap, p, fuel, order).value.1)
    decreases fuel, 1, |order|
  {
    if order == [] {
      assert !Covers(t.boundary, order, p);
    } else {
      var q := order[0];
      var child := Child(t, q);
      InsertKeeps(child, cap, p, fuel);
      var (c, ok) := Insert(child, cap, p, fuel).value;
      var t' := WithChild(t, q, c);
      ChildStep(t, cap, p, q, c, ok);
      if ok {
        assert Route(t, cap, p, fuel, order) == Some((t', true));
      } else {
        assert Route(t, cap, p, fuel, order) == Route(t', cap, p, fuel, order[1..]);
        RouteKeeps(t', cap, p, fuel, order[1..]);
        if Covers(t.boundary, order, p) && IdFree(Flatten(t), p.id) {
          CoversRest(t.boundary, order, p, Child(t, q).boundary);
        }
      }
    }
  }

  /** A quadrant in `order` other than the first is one in the rest of it. */
  lemma CoversRest(b: Rectangle, order: seq<Quadrant>, p: Point, first: Rectangle)
    requires order != [] && first == QuadrantBoundary(b, order[0])
    requires Covers(b, order, p) && !Contains(first, p)
    ensures Covers(b, order[1..], p)
  {
    var i :| 0 <= i < |order| && Contains(QuadrantBoundary(b, order[i]), p);
    assert order[1..][i - 1] == order[i];
  }

  /** One child's insertion, seen from its parent. */
  lemma ChildStep(t: Tree, cap: nat, p: Point, q: Quadrant, c: Tree, ok: bool)
    requires t.Node? && Inv(t, cap) && Contains(t.boundary, p)
    requires InsertOutcome(Child(t, q), cap, p, c, ok)
    ensures Inv(WithChild(t, q, c), cap)
    ensures AddedIff(t, WithChild(t, q, c), p, ok)
    ensures IdFree(Flatten(t), p.id) && !ok ==> IdFree(Flatten(WithChild(t, q, c)), p.id)
    ensures IdFree(Flatten(t), p.id) && !ok ==> !Contains(Child(t, q).boundary, p)
  {
    ChildCount(t, q, p, c, ok);
    ChildKeepsInv(t, cap, p, q, c, ok);
    var t' := WithChild(t, q, c);
    if IdFree(Flatten(t), p.id) && !ok {
      forall x | x in Flatten(t') ensures x.id != p.id {
        assert x in multiset(Flatten(t'));
      }
    }
  }

  /** The parent gains what the child gains. */
  lemma ChildCount(t: Tree, q: Quadrant, p: Point, c: Tree, ok: bool)
    requires t.Node? && AddedIff(Child(t, q), c, p, ok)
    ensures AddedIff(t, WithChild(t, q, c), p, ok)
  {
    var child := Child(t, q);
    var t' := WithChild(t, q, c);
    var added := if ok then multiset{p} else multiset{};
    FlattenWithChild(t, q, c);
    assert multiset(Flatten(c)) == multiset(Flatten(child)) + added;
    MultisetCancel(multiset(Flatten(t')), multiset(Flatten(t)) + added, multiset(Flatten(child)));
  }

  lemma ChildKeepsInv(t: Tree, cap: nat, p: Point, q: Quadrant, c: Tree, ok: bool)
    requires t.Node? && Inv(t, cap) && Contains(t.boundary, p)
    requires InsertOutcome(Child(t, q), cap, p, c, ok)
    ensures Inv(WithChild(t, q, c), cap)
  {
    ChildPoints(t, q);
    forall x | x in Flatten(c) ensures Contains(t.boundary, x) {
      assert x in multiset(Flatten(c));
    }
    InvWithChild(t, cap, q, c);
  }

  lemma MultisetCancel<T>(a: multiset<T>, b: multiset<T>, c: multiset<T>)
    requires a + c == b + c
    ensures a == b
  {
    assert forall x :: a[x] == (a + c)[x] - c[x];
  }

  /** The points below a child are points of its parent. */
  lemma ChildPoints(t: Tree, q: Quadrant)
    requires t.Node?
    ensures forall x :: x in Flatten(Child(t, q)) ==> x in Flatten(t)
  {
  }

  /** Once the first point is stored, the remaining ones still lie in the
      boundary, keep distinct ids and share none with the stored points. */
  lemma RestFresh(t: Tree, t': Tree, pts: seq<Point>)
    requires pts != [] && DistinctIds(pts)
    requires forall x :: x in pts ==> Contains(t.boundary, x)
    requires forall x, y :: x in pts && y in Flatten(t) ==> x.id != y.id
    requires multiset(Flatten(t')) == multiset(Flatten(t)) + multiset{pts[0]}
    ensures forall x :: x in pts[1..] ==> Contains(t.boundary, x)
    ensures DistinctIds(pts[1..])
    ensures forall x, y :: x in pts[1..] && y in Flatten(t') ==> x.id != y.id
    ensures multiset(pts) == multiset{pts[0]} + multiset(pts[1..])
  {
    FirstRest(pts);
    RestDistinct(pts);
    RestInside(t.boundary, pts);
    RestIdsFresh(t, t', pts);
  }

  lemma FirstRest<T>(s: seq<T>)
    requires s != []
    ensures multiset(s) == multiset{s[0]} + multiset(s[1..])
  {
    assert s == [s[0]] + s[1..];
  }

  lemma RestInside(b: Rectangle, pts: seq<Point>)
    requires pts != [] && forall x :: x in pts ==> Contains(b, x)
    ensures forall x :: x in pts[1..] ==> Contains(b, x)
  {
    forall x | x in pts[1..] ensures x in pts {
      var j :| 0 <= j < |pts[1..]| && pts[1..][j] == x;
      assert pts[j + 1] == x;
    }
  }

  lemma RestIdsFresh(t: Tree, t': Tree, pts: seq<Point>)
    requires pts != [] && DistinctIds(pts)
    requires forall x, y :: x in pts && y in Flatten(t) ==> x.id != y.id
    requires multiset(Flatten(t')) == multiset(Flatten(t)) + multiset{pts[0]}
    ensures forall x, y :: x in pts[1..] && y in Flatten(t') ==> x.id != y.id
  {
    forall x, y | x in pts[1..] && y in Flatten(t')
      ensures x.id != y.id
    {
      assert y in multiset(Flatten(t'));
      RestIdFresh(pts, x);
    }
  }

  /** A later point of a list with distinct ids has a different id from the first. */
  lemma RestIdFresh(pts: seq<Point>, x: Point)
    requires pts != [] && DistinctIds(pts) && x in pts[1..]
    ensures x in pts && x.id != pts[0].id
  {
    var j :| 0 <= j < |pts[1..]| && pts[1..][j] == x;
    assert pts[j + 1] == x;
  }

  lemma RestDistinct(pts: seq<Point>)
    requires pts != [] && DistinctIds(pts)
    ensures DistinctIds(pts[1..])
  {
    forall i, j | 0 <= i < j < |pts[1..]|
      ensures pts[1..][i].id != pts[1..][j].id
    {
      assert pts[1..][i] == pts[i + 1] && pts[1..][j] == pts[j + 1];
    }
  }

  /** Re-inserting points of distinct ids, all inside the node and none sharing
      an id with what the node already stores, loses none of them. */
  lemma {:induction false} RedistributeKeeps(t: Tree, cap: nat, pts: seq<Point>, fuel: nat)
    requires t.Node? && Inv(t, cap)
    requires forall x :: x in pts ==> Contains(t.boundary, x)
    requires DistinctIds(pts)
    requires forall x, y :: x in pts && y in Flatten(t) ==> x.id != y.id
    requires Redistribute(t, cap, pts, fuel).Some?
    ensures Inv(Redistribute(t, cap, pts, fuel).value, cap)
    ensures multiset(Flatten(Redistribute(t, cap, pts, fuel).value)) == multiset(Flatten(t)) + multiset(pts)
    decreases fuel, 2, |pts|
  {
    if pts != [] {
      var p := pts[0];
      InsertOrderCovers(t.boundary, p);
      assert IdFree(Flatten(t), p.id);
      RouteKeeps(t, cap, p, fuel, InsertOrder);
      var (t', ok) := Route(t, cap, p, fuel, InsertOrder).value;
      assert ok;
      RestFresh(t, t', pts);
      RedistributeKeeps(t', cap, pts[1..], fuel);
    }
  }

  /** The duplicate-id test looks only at the leaf that receives the point, so
      a point on the edge between two quadrants can be stored twice: held by
      the north-east leaf, it is refused there and accepted by the north-west
      one. Ids are therefore not distinct across a tree that `Inv` holds for. */
  lemma SameIdTwice(b: Rectangle, p: Point, cap: nat, fuel: nat)
    requires Consistent(b) && Proper(b) && cap >= 2 && fuel >= 2
    requires p.x == b.x && b.y <= p.y <= b.top
    ensures var t := WithChild(Split(b), NE, Leaf(QuadrantBoundary(b, NE), [p]));
      Inv(t, cap) && Insert(t, cap, p, fuel).Some? && Insert(t, cap, p, fuel).value.1 &&
      multiset(Flatten(Insert(t, cap, p, fuel).value.0))[p] == 2
  {
    QuadrantBounds(b, NE);
    QuadrantBounds(b, NW);
    var ne := Leaf(QuadrantBoundary(b, NE), [p]);
    var t := WithChild(Split(b), NE, ne);
    SplitInv(b, cap);
    QuadrantConsistent(b, NE);
    InvWithChild(Split(b), cap, NE, ne);
    assert ne.points[0].id == p.id;
    assert HasId(ne.points, p.id);
    assert Insert(ne, cap, p, fuel - 1) == Some((ne, false));
    var nw := Leaf(QuadrantBoundary(b, NW), [p]);
    assert Child(t, NW) == Leaf(QuadrantBoundary(b, NW), []);
    assert Contains(QuadrantBoundary(b, NW), p) && !HasId([], p.id);
    assert [] + [p] == [p];
    assert Insert(Child(t, NW), cap, p, fuel - 1) == Some((nw, true));
    var t' := WithChild(t, NW, nw);
    assert Route(t, cap, p, fuel - 1, InsertOrder) == Route(t, cap, p, fuel - 1, InsertOrder[1..]);
    assert Route(t, cap, p, fuel - 1, InsertOrder[1..]) == Some((t', true));
    assert Flatten(t') == [p] + [p];
  }

  // ---------------------------------------------------------------- queries

  lemma {:induction false} InvEnclosed(t: Tree, cap: nat)
    requires Inv(t, cap)
    ensures Enclosed(t)
  {
    if t.Node? {
      InvEnclosed(t.nw, cap);
      InvEnclosed(t.ne, cap);
      InvEnclosed(t.sw, cap);
      InvEnclosed(t.se, cap);
    }
  }

  /** Pruning loses nothing: the range query returns exactly the stored points
      the range contains, in query order. */
  lemma {:induction false} RangeQueryIsFilter(t: Tree, range: Rectangle)
    requires Enclosed(t)
    ensures RangeQuery(t, range) == PointsIn(range, Flatten(t))
  {
    if !Intersects(t.boundary, range) {
      var pts := Flatten(t);
      forall i | 0 <= i < |pts|
        ensures !Contains(range, pts[i])
      {
        if Contains(range, pts[i]) {
          CommonPointIntersects(t.boundary, range, pts[i]);
        }
      }
      PointsInNone(range, pts);
    } else if t.Node? {
      RangeQueryIsFilter(t.nw, range);
      RangeQueryIsFilter(t.ne, range);
      RangeQueryIsFilter(t.sw, range);
      RangeQueryIsFilter(t.se, range);
      PointsInAppend(range, Flatten(t.nw), Flatten(t.ne));
      PointsInAppend(range, Flatten(t.nw) + Flatten(t.ne), Flatten(t.sw));
      PointsInAppend(range, Flatten(t.nw) + Flatten(t.ne) + Flatten(t.sw), Flatten(t.se));
    }
  }
}
