/** Points and axis-aligned rectangles shared by both spatial indexes.
    Coordinates are exact reals; every Euclidean distance is kept SQUARED,
    which orders points exactly as the square root does. */
module Geometry {

  /** A labelled point. */
  datatype Point = Point(id: int, x: real, y: real)

  /** A rectangle given by its centre (x, y) and size (w, h), together with the
      four bounds derived from them once, at construction. */
  datatype Rectangle = Rectangle(x: real, y: real, w: real, h: real,
                                 left: real, right: real, top: real, bottom: real)

  /** The bounds agree with centre and size (every Rectangle built by Rect does). */
  ghost predicate Consistent(r: Rectangle) {
    r.left == r.x - r.w / 2.0 && r.right == r.x + r.w / 2.0 &&
    r.bottom == r.y - r.h / 2.0 && r.top == r.y + r.h / 2.0
  }

  /** Non-negative extent on both axes. */
  ghost predicate Proper(r: Rectangle) {
    r.left <= r.right && r.bottom <= r.top
  }

  /** The constructor: the bounds are centred on (x, y) and span w by h. */
  function Rect(x: real, y: real, w: real, h: real): (r: Rectangle)
    ensures r.left == x - w / 2.0 && r.right == x + w / 2.0
    ensures r.bottom == y - h / 2.0 && r.top == y + h / 2.0
    ensures r.x == x && r.y == y && r.w == w && r.h == h
    ensures (r.left + r.right) / 2.0 == x && r.right - r.left == w
    ensures (r.bottom + r.top) / 2.0 == y && r.top - r.bottom == h
  {
    Rectangle(x, y, w, h, x - w / 2.0, x + w / 2.0, y + h / 2.0, y - h / 2.0)
  }

  /** The rectangle built, as union_with and intersection build it, from its
      centre and size computed out of four bounds: it has exactly those bounds. */
  function Spanning(l: real, r: real, b: real, t: real): (s: Rectangle)
    ensures Consistent(s)
    ensures s.left == l && s.right == r && s.bottom == b && s.top == t
  {
    Rect((l + r) / 2.0, (b + t) / 2.0, r - l, t - b)
  }

  function Min(a: real, b: real): real { if a <= b then a else b }
  function Max(a: real, b: real): real { if a >= b then a else b }

  /** Inclusive on all four sides. */
  predicate Contains(r: Rectangle, p: Point) {
    r.left <= p.x && p.x <= r.right && r.bottom <= p.y && p.y <= r.top
  }

  /** False only when the rectangles are separated on some axis: touching counts. */
  predicate Intersects(a: Rectangle, b: Rectangle) {
    !(a.right < b.left || b.right < a.left || a.top < b.bottom || b.top < a.bottom)
  }

  /** The bounds of `inner` lie within those of `outer`. */
  ghost predicate Inside(inner: Rectangle, outer: Rectangle) {
    outer.left <= inner.left && inner.right <= outer.right &&
    outer.bottom <= inner.bottom && inner.top <= outer.top
  }

  function UnionWith(a: Rectangle, b: Rectangle): (u: Rectangle)
    ensures Consistent(u)
    ensures u.left == Min(a.left, b.left) && u.right == Max(a.right, b.right)
    ensures u.bottom == Min(a.bottom, b.bottom) && u.top == Max(a.top, b.top)
    ensures Inside(a, u) && Inside(b, u)
  {
    var newLeft := Min(a.left, b.left);
    var newRight := Max(a.right, b.right);
    var newBottom := Min(a.bottom, b.bottom);
    var newTop := Max(a.top, b.top);
    Rect((newLeft + newRight) / 2.0, (newBottom + newTop) / 2.0, newRight - newLeft, newTop - newBottom)
  }

  function Area(r: Rectangle): real {
    r.w * r.h
  }

  function Intersection(a: Rectangle, b: Rectangle): (s: Rectangle)
    ensures !Intersects(a, b) ==> s == Rect(0.0, 0.0, 0.0, 0.0)
    ensures Intersects(a, b) ==>
      s.left == Max(a.left, b.left) && s.right == Min(a.right, b.right) &&
      s.bottom == Max(a.bottom, b.bottom) && s.top == Min(a.top, b.top)
    ensures Intersects(a, b) ==> Inside(s, a) && Inside(s, b)
  {
    if !Intersects(a, b) then Rect(0.0, 0.0, 0.0, 0.0)
    else
      var interLeft := Max(a.left, b.left);
      var interRight := Min(a.right, b.right);
      var interBottom := Max(a.bottom, b.bottom);
      var interTop := Min(a.top, b.top);
      Rect((interLeft + interRight) / 2.0, (interBottom + interTop) / 2.0,
           interRight - interLeft, interTop - interBottom)
  }

  /** Overlap area, recomputing both rectangles' bounds from centre and size;
      the emptiness test is strict, so an overlap of zero width or height is 0. */
  function IntersectionArea(a: Rectangle, b: Rectangle): (area: real)
    ensures area >= 0.0
    ensures Max(a.x - a.w / 2.0, b.x - b.w / 2.0) >= Min(a.x + a.w / 2.0, b.x + b.w / 2.0) ==> area == 0.0
    ensures Max(a.y - a.h / 2.0, b.y - b.h / 2.0) >= Min(a.y + a.h / 2.0, b.y + b.h / 2.0) ==> area == 0.0
  {
    var x1Min := a.x - a.w / 2.0;
    var x1Max := a.x + a.w / 2.0;
    var y1Min := a.y - a.h / 2.0;
    var y1Max := a.y + a.h / 2.0;
    var x2Min := b.x - b.w / 2.0;
    var x2Max := b.x + b.w / 2.0;
    var y2Min := b.y - b.h / 2.0;
    var y2Max := b.y + b.h / 2.0;
    var xInterMin := Max(x1Min, x2Min);
    var xInterMax := Min(x1Max, x2Max);
    var yInterMin := Max(y1Min, y2Min);
    var yInterMax := Min(y1Max, y2Max);
    if xInterMax <= xInterMin || yInterMax <= yInterMin then 0.0
    else
      PositiveProduct(xInterMax - xInterMin, yInterMax - yInterMin);
      (xInterMax - xInterMin) * (yInterMax - yInterMin)
  }

  /** Squared Euclidean distance between two points. */
  function DistSq(p: Point, q: Point): (d: real)
    ensures d >= 0.0
  {
    (p.x - q.x) * (p.x - q.x) + (p.y - q.y) * (p.y - q.y)
  }

  function Max3(a: real, b: real, c: real): real {
    Max(Max(a, b), c)
  }

  /** How far v lies outside [lo, hi]: max(lo - v, 0, v - hi). */
  function Gap(lo: real, v: real, hi: real): (g: real)
    ensures g >= 0.0
    ensures g == 0.0 <==> lo <= v <= hi
  {
    Max3(lo - v, 0.0, v - hi)
  }

  /** Squared distance from q to the nearest point of r, from the clamped per-axis gaps. */
  function RectDistSq(q: Point, r: Rectangle): (d: real)
    ensures d >= 0.0
  {
    var dx := Gap(r.left, q.x, r.right);
    var dy := Gap(r.bottom, q.y, r.top);
    dx * dx + dy * dy
  }

  /** The points of `pts` that `r` contains, in their order. */
  function PointsIn(r: Rectangle, pts: seq<Point>): (found: seq<Point>)
    ensures multiset(found) <= multiset(pts)
    ensures forall i :: 0 <= i < |found| ==> Contains(r, found[i])
  {
    if pts == [] then []
    else
      assert pts == [pts[0]] + pts[1..];
      (if Contains(r, pts[0]) then [pts[0]] else []) + PointsIn(r, pts[1..])
  }

  // ---------------------------------------------------------------- arithmetic

  lemma PositiveProduct(a: real, b: real)
    requires a > 0.0 && b > 0.0
    ensures a * b > 0.0
  {
  }

  lemma ZeroProduct(a: real, b: real)
    requires a == 0.0 || b == 0.0
    ensures a * b == 0.0
  {
  }

  /** Transitivity through two intermediate quantities, kept separate so that the
      products it is applied to are not multiplied out. */
  lemma PositiveChain(s: real, t: real, u: real)
    requires s >= t >= u > 0.0
    ensures s > 0.0
  {
  }

  /** A sum of two squares is positive as soon as one of the two is non-zero. */
  lemma SumOfSquaresPositive(a: real, b: real, s: real)
    requires s == a * a + b * b
    requires a != 0.0
    ensures s > 0.0
  {
    var c := if a > 0.0 then a else -a;
    var half := c / 2.0;
    assert s >= c * c;
    assert c * c >= half * c;
    PositiveProduct(half, c);
    PositiveChain(s, c * c, half * c);
  }

  lemma SquareMonotone(a: real, b: real)
    requires 0.0 <= a <= b
    ensures a * a <= b * b
  {
    assert a * a <= a * b;
    assert a * b <= b * b;
  }

  // ---------------------------------------------------------------- rectangles

  lemma IntersectsSymmetric(a: Rectangle, b: Rectangle)
    ensures Intersects(a, b) == Intersects(b, a)
  {
  }

  /** For rectangles of non-negative extent, intersecting means sharing a point,
      so rectangles that only touch along an edge or at a corner intersect. */
  lemma IntersectsIffCommonPoint(a: Rectangle, b: Rectangle)
    requires Proper(a) && Proper(b)
    ensures Intersects(a, b) <==> exists p :: Contains(a, p) && Contains(b, p)
  {
    if Intersects(a, b) {
      var p := Point(0, Max(a.left, b.left), Max(a.bottom, b.bottom));
      assert Contains(a, p) && Contains(b, p);
    }
  }

  /** A point inside both rectangles makes them intersect (whatever their extent). */
  lemma CommonPointIntersects(a: Rectangle, b: Rectangle, p: Point)
    requires Contains(a, p) && Contains(b, p)
    ensures Intersects(a, b)
  {
  }

  lemma UnionCommutative(a: Rectangle, b: Rectangle)
    ensures UnionWith(a, b) == UnionWith(b, a)
  {
  }

  lemma UnionContains(a: Rectangle, b: Rectangle, p: Point)
    requires Contains(a, p) || Contains(b, p)
    ensures Contains(UnionWith(a, b), p)
  {
  }

  lemma InsideContains(inner: Rectangle, outer: Rectangle, p: Point)
    requires Inside(inner, outer) && Contains(inner, p)
    ensures Contains(outer, p)
  {
  }

  /** Where the rectangles intersect, the intersection holds exactly their common points. */
  lemma IntersectionContains(a: Rectangle, b: Rectangle, p: Point)
    requires Intersects(a, b)
    ensures Contains(Intersection(a, b), p) <==> Contains(a, p) && Contains(b, p)
  {
  }

  /** The area of a consistent rectangle is the product of its bounds' spans. */
  lemma AreaOfBounds(r: Rectangle)
    requires Consistent(r)
    ensures Area(r) == (r.right - r.left) * (r.top - r.bottom)
  {
  }

  lemma IntersectionAreaSymmetric(a: Rectangle, b: Rectangle)
    ensures IntersectionArea(a, b) == IntersectionArea(b, a)
  {
  }

  /** The overlap area as IntersectionArea computes it, from the overlap's bounds. */
  function OverlapArea(l: real, r: real, lo: real, hi: real): real {
    if r <= l || hi <= lo then 0.0 else (r - l) * (hi - lo)
  }

  lemma IntersectionAreaOfBounds(a: Rectangle, b: Rectangle)
    requires Consistent(a) && Consistent(b)
    ensures IntersectionArea(a, b) ==
      OverlapArea(Max(a.left, b.left), Min(a.right, b.right), Max(a.bottom, b.bottom), Min(a.top, b.top))
  {
    assert a.x - a.w / 2.0 == a.left && a.x + a.w / 2.0 == a.right;
    assert b.x - b.w / 2.0 == b.left && b.x + b.w / 2.0 == b.right;
    assert a.y - a.h / 2.0 == a.bottom && a.y + a.h / 2.0 == a.top;
    assert b.y - b.h / 2.0 == b.bottom && b.y + b.h / 2.0 == b.top;
  }

  /** The overlap area as computed equals the product of the overlap spans
      whenever both spans are non-negative. */
  lemma OverlapAreaProduct(l: real, r: real, lo: real, hi: real)
    requires l <= r && lo <= hi
    ensures OverlapArea(l, r, lo, hi) == (r - l) * (hi - lo)
  {
    if r <= l {
      ZeroProduct(r - l, hi - lo);
    } else if hi <= lo {
      ZeroProduct(r - l, hi - lo);
    }
  }

  /** Where the rectangles intersect, the overlap area is the area of the
      intersection rectangle. */
  lemma IntersectingArea(a: Rectangle, b: Rectangle)
    requires Consistent(a) && Consistent(b) && Proper(a) && Proper(b)
    requires Intersects(a, b)
    ensures IntersectionArea(a, b) == Area(Intersection(a, b))
  {
    var l, r := Max(a.left, b.left), Min(a.right, b.right);
    var lo, hi := Max(a.bottom, b.bottom), Min(a.top, b.top);
    var s := Intersection(a, b);
    calc {
      IntersectionArea(a, b);
      { IntersectionAreaOfBounds(a, b); }
      OverlapArea(l, r, lo, hi);
      { OverlapAreaProduct(l, r, lo, hi); }
      (r - l) * (hi - lo);
      { AreaOf(s, r - l, hi - lo); }
      Area(s);
    }
  }

  lemma AreaOf(s: Rectangle, w: real, h: real)
    requires s.w == w && s.h == h
    ensures Area(s) == w * h
  {
  }

  /** Where they do not, both are zero. */
  lemma DisjointArea(a: Rectangle, b: Rectangle)
    requires Consistent(a) && Consistent(b)
    requires !Intersects(a, b)
    ensures IntersectionArea(a, b) == 0.0 && Area(Intersection(a, b)) == 0.0
  {
    var l, r := Max(a.left, b.left), Min(a.right, b.right);
    var lo, hi := Max(a.bottom, b.bottom), Min(a.top, b.top);
    assert r < l || hi < lo;
    assert OverlapArea(l, r, lo, hi) == 0.0;
    IntersectionAreaOfBounds(a, b);
    var s := Intersection(a, b);
    assert s.w == 0.0;
    ZeroProduct(s.w, s.h);
  }

  /** The overlap area agrees with the area of the intersection rectangle. */
  lemma IntersectionAreaIsArea(a: Rectangle, b: Rectangle)
    requires Consistent(a) && Consistent(b) && Proper(a) && Proper(b)
    ensures IntersectionArea(a, b) == Area(Intersection(a, b))
  {
    if Intersects(a, b) {
      IntersectingArea(a, b);
    } else {
      DisjointArea(a, b);
    }
  }

  // ---------------------------------------------------------------- distances

  lemma DistSqSymmetric(p: Point, q: Point)
    ensures DistSq(p, q) == DistSq(q, p)
  {
    assert (p.x - q.x) * (p.x - q.x) == (q.x - p.x) * (q.x - p.x);
    assert (p.y - q.y) * (p.y - q.y) == (q.y - p.y) * (q.y - p.y);
  }

  /** The distance is zero exactly between points at the same coordinates,
      whatever their ids. */
  lemma DistSqZero(p: Point, q: Point)
    ensures DistSq(p, q) == 0.0 <==> p.x == q.x && p.y == q.y
  {
    if p.x != q.x {
      SumOfSquaresPositive(p.x - q.x, p.y - q.y, DistSq(p, q));
    } else if p.y != q.y {
      SumOfSquaresPositive(p.y - q.y, p.x - q.x, DistSq(p, q));
    }
  }

  /** The rectangle distance is zero exactly when the rectangle contains the point. */
  lemma RectDistSqZeroIffContains(q: Point, r: Rectangle)
    ensures RectDistSq(q, r) == 0.0 <==> Contains(r, q)
  {
    var dx := Gap(r.left, q.x, r.right);
    var dy := Gap(r.bottom, q.y, r.top);
    if dx != 0.0 {
      SumOfSquaresPositive(dx, dy, RectDistSq(q, r));
    } else if dy != 0.0 {
      SumOfSquaresPositive(dy, dx, RectDistSq(q, r));
    }
  }

  /** The gap to an interval never exceeds the distance to a value inside it. */
  lemma GapBelow(lo: real, v: real, hi: real, u: real)
    requires lo <= u <= hi
    ensures Gap(lo, v, hi) * Gap(lo, v, hi) <= (v - u) * (v - u)
  {
    var g := Gap(lo, v, hi);
    if v < u {
      SquareMonotone(g, u - v);
      assert (u - v) * (u - v) == (v - u) * (v - u);
    } else {
      SquareMonotone(g, v - u);
    }
  }

  /** The lower bound best-first search relies on: no point of r is closer to q
      than r itself. */
  lemma RectDistSqLowerBound(q: Point, r: Rectangle, p: Point)
    requires Contains(r, p)
    ensures RectDistSq(q, r) <= DistSq(q, p)
  {
    GapBelow(r.left, q.x, r.right, p.x);
    GapBelow(r.bottom, q.y, r.top, p.y);
  }

  /** A rectangle inside another is at least as far from every query point. */
  lemma RectDistSqNested(q: Point, inner: Rectangle, outer: Rectangle)
    requires Inside(inner, outer)
    ensures RectDistSq(q, outer) <= RectDistSq(q, inner)
  {
    SquareMonotone(Gap(outer.left, q.x, outer.right), Gap(inner.left, q.x, inner.right));
    SquareMonotone(Gap(outer.bottom, q.y, outer.top), Gap(inner.bottom, q.y, inner.top));
  }

  // ---------------------------------------------------------------- filtering

  lemma {:induction false} PointsInAppend(r: Rectangle, a: seq<Point>, b: seq<Point>)
    ensures PointsIn(r, a + b) == PointsIn(r, a) + PointsIn(r, b)
  {
    if a == [] {
      assert a + b == b;
    } else {
      assert (a + b)[1..] == a[1..] + b;
      PointsInAppend(r, a[1..], b);
    }
  }

  /** A filter keeps every element of the input exactly when the rectangle contains it. */
  lemma {:induction false} PointsInCount(r: Rectangle, pts: seq<Point>, p: Point)
    ensures multiset(PointsIn(r, pts))[p] == if Contains(r, p) then multiset(pts)[p] else 0
  {
    if pts != [] {
      assert pts == [pts[0]] + pts[1..];
      PointsInCount(r, pts[1..], p);
    }
  }

  /** When no point of `pts` lies in `r` the filter is empty. */
  lemma {:induction false} PointsInNone(r: Rectangle, pts: seq<Point>)
    requires forall i :: 0 <= i < |pts| ==> !Contains(r, pts[i])
    ensures PointsIn(r, pts) == []
  {
    if pts != [] {
      PointsInNone(r, pts[1..]);
    }
  }
}
