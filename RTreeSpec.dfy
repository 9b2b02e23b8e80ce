/** The bulk-loaded R-tree as a value: what a node holds, the bounding boxes
    the loader computes, the shape it builds, and the queries over it. */
module RTreeSpec {
  import opened Geometry
  import opened Sequences
  import opened Sorting
  import opened Morton
  import opened Wrappers

  /** A leaf holds points; an inner node holds child nodes. Both carry the
      bounding box the loader computed for them. */
  datatype Node =
    | Leaf(boundary: Rectangle, points: seq<Point>)
    | Inner(boundary: Rectangle, children: seq<Node>)

  // ------------------------------------------------------------ bounding boxes

  datatype Axis = X | Y

  function Coord(p: Point, a: Axis): real {
    match a
    case X => p.x
    case Y => p.y
  }

  /** The least coordinate on one axis, folded from the first point on. */
  function Low(pts: seq<Point>, a: Axis): real
    requires |pts| > 0
  {
    if |pts| == 1 then Coord(pts[0], a)
    else Min(Low(pts[..|pts| - 1], a), Coord(pts[|pts| - 1], a))
  }

  /** The greatest coordinate on one axis, folded from the first point on. */
  function High(pts: seq<Point>, a: Axis): real
    requires |pts| > 0
  {
    if |pts| == 1 then Coord(pts[0], a)
    else Max(High(pts[..|pts| - 1], a), Coord(pts[|pts| - 1], a))
  }

  /** `compute_boundary` of points: the zero rectangle for none, otherwise the
      rectangle spanning the least and greatest coordinates. */
  function PointsBound(pts: seq<Point>): Rectangle {
    if pts == [] then Rect(0.0, 0.0, 0.0, 0.0)
    else Spanning(Low(pts, X), High(pts, X), Low(pts, Y), High(pts, Y))
  }

  /** `compute_boundary` of nodes: the zero rectangle for none, otherwise the
      first child's box grown by each later child's box in turn. */
  function NodesBound(ns: seq<Node>): Rectangle {
    if ns == [] then Rect(0.0, 0.0, 0.0, 0.0)
    else if |ns| == 1 then ns[0].boundary
    else UnionWith(NodesBound(ns[..|ns| - 1]), ns[|ns| - 1].boundary)
  }

  // ------------------------------------------------------------ contents

  /** The points stored below a node, children in order. */
  function Flatten(n: Node): seq<Point>
    decreases n, 1
  {
    match n
    case Leaf(_, pts) => pts
    case Inner(_, ch) => FlattenAll(ch)
  }

  /** The points stored below a sequence of sibling nodes, in order. */
  function FlattenAll(ns: seq<Node>): seq<Point>
    decreases ns, 0
  {
    if ns == [] then [] else FlattenAll(ns[..|ns| - 1]) + Flatten(ns[|ns| - 1])
  }

  /** Every point stored below a node lies in its box, at every level. */
  ghost predicate Enclosed(n: Node) {
    (forall p :: p in Flatten(n) ==> Contains(n.boundary, p)) &&
    match n
    case Leaf(_, _) => true
    case Inner(_, ch) => forall i :: 0 <= i < |ch| ==> Enclosed(ch[i])
  }

  /** The entries of a node: points of a leaf, children of an inner node. */
  function Fill(n: Node): nat {
    match n
    case Leaf(_, pts) => |pts|
    case Inner(_, ch) => |ch|
  }

  /** The shape the bulk loader builds: every node's box is `compute_boundary`
      of its entries; every node holds between 1 and `cap` entries; and every
      leaf lies h levels down. */
  ghost predicate Shaped(n: Node, h: nat, cap: nat) {
    0 < Fill(n) <= cap &&
    match n
    case Leaf(b, pts) => h == 1 && b == PointsBound(pts)
    case Inner(b, ch) =>
      h > 1 && b == NodesBound(ch) && forall i :: 0 <= i < |ch| ==> Shaped(ch[i], h - 1, cap)
  }

  // ------------------------------------------------------------ queries

  /** Inner nodes down the first-child path have a first child. */
  predicate Descends(n: Node) {
    match n
    case Leaf(_, _) => true
    case Inner(_, ch) => |ch| > 0 && Descends(ch[0])
  }

  /** `get_depth`: one for a leaf, otherwise one more than the first child's. */
  function Depth(n: Node): (d: nat)
    requires Descends(n)
    ensures d >= 1
  {
    match n
    case Leaf(_, _) => 1
    case Inner(_, ch) => 1 + Depth(ch[0])
  }

  /** `range_query`: nothing when the node's box misses the range; a leaf's
      points inside the range, in order; otherwise the children's answers
      joined in order. */
  function RangeQuery(n: Node, range: Rectangle): seq<Point>
    decreases n, 1
  {
    if !Intersects(n.boundary, range) then []
    else match n
      case Leaf(_, pts) => PointsIn(range, pts)
      case Inner(_, ch) => RangeAll(ch, range)
  }

  function RangeAll(ns: seq<Node>, range: Rectangle): seq<Point>
    decreases ns, 0
  {
    if ns == [] then [] else RangeAll(ns[..|ns| - 1], range) + RangeQuery(ns[|ns| - 1], range)
  }

  // ------------------------------------------------------------ sort_points

  datatype SortMethod = ZOrder | STR

  /** What `sort_points` hands to the loader: one sorted run (Z-order) or a
      list of strips (STR). */
  datatype SortedData = Flat(points: seq<Point>) | Strips(strips: seq<seq<Point>>)

  /** The points in the order the loader reads them. */
  function Entries(d: SortedData): seq<Point> {
    match d
    case Flat(pts) => pts
    case Strips(ss) => Concat(ss)
  }

  function MinNat(a: nat, b: nat): nat { if a <= b then a else b }

  function XKey(p: Point): real { p.x }
  function YKey(p: Point): real { p.y }

  /** The Z-order key: each coordinate normalised to the data's extent and
      scaled to 32 bits by `scale(v, lo, hi)`, then interleaved. */
  function ZKey(scale: (real, real, real) -> uint32, minX: real, maxX: real, minY: real, maxY: real): Point -> real {
    (p: Point) => Interleaved(scale(p.x, minX, maxX) as nat, scale(p.y, minY, maxY) as nat, 32) as real
  }

  /** Points per strip: n split over S strips, rounded up; S = 0 counts as 1. */
  function StripSize(n: nat, S: nat): (size: nat)
    ensures n > 0 ==> size > 0
  {
    var s := if S == 0 then 1 else S;
    assert n > 0 ==> n + s - 1 >= s;
    (n + s - 1) / s
  }

  /** Cut the x-sorted points into consecutive strips of `size`, the last one
      possibly shorter, and sort each strip by y. */
  function StripsOf(xs: seq<Point>, size: nat): seq<seq<Point>>
    requires size > 0
    decreases |xs|
  {
    if xs == [] then []
    else
      var k := MinNat(size, |xs|);
      [SortBy(xs[..k], YKey)] + StripsOf(xs[k..], size)
  }

  /** `sort_points`: nothing for no points; Z-order sorts by the key; STR sorts
      by x and then cuts into y-sorted strips. */
  function SortPoints(points: seq<Point>, minX: real, maxX: real, minY: real, maxY: real,
                      order: SortMethod, scale: (real, real, real) -> uint32, S: nat): SortedData
  {
    if points == [] then Flat([])
    else match order
      case ZOrder => Flat(SortBy(points, ZKey(scale, minX, maxX, minY, maxY)))
      case STR =>
        var xs := SortBy(points, XKey);
        Strips(StripsOf(xs, StripSize(|xs|, S)))
  }

  // ------------------------------------------------------------ insert_sorted

  /** One strip cut into leaves of `max` points, the last possibly fewer. */
  function LeavesOf(pts: seq<Point>, max: nat): (leaves: seq<Node>)
    requires max > 0 || pts == []
    ensures |leaves| <= |pts|
    decreases |pts|
  {
    if pts == [] then []
    else
      var k := MinNat(max, |pts|);
      [Leaf(PointsBound(pts[..k]), pts[..k])] + LeavesOf(pts[k..], max)
  }

  /** The strips' leaves in strip order; each strip starts a new leaf. */
  function StripLeaves(strips: seq<seq<Point>>, max: nat): (leaves: seq<Node>)
    requires max > 0 || Concat(strips) == []
    ensures |leaves| <= |Concat(strips)|
  {
    if strips == [] then []
    else
      var init, last := strips[..|strips| - 1], strips[|strips| - 1];
      assert |Concat(strips)| == |Concat(init)| + |last|;
      StripLeaves(init, max) + LeavesOf(last, max)
  }

  /** The leaves of the sorted data, never more than its points. */
  function Leaves(d: SortedData, max: nat): (leaves: seq<Node>)
    requires max > 0 || Entries(d) == []
    ensures |leaves| <= |Entries(d)|
  {
    match d
    case Flat(pts) => LeavesOf(pts, max)
    case Strips(ss) => StripLeaves(ss, max)
  }

  /** The last sibling is under-full and the one before it can spare entries. */
  predicate Underfull(prevFill: nat, lastFill: nat, min: nat) {
    0 < lastFill < min && prevFill > min
  }

  /** How many entries move: what the last sibling lacks, or what the one
      before can spare, whichever is less. */
  function Spare(prevFill: nat, lastFill: nat, min: nat): nat
    requires Underfull(prevFill, lastFill, min)
  {
    MinNat(min - lastFill, prevFill - min)
  }

  /** Leaf underflow repair: the last `Spare` points of the second-to-last
      leaf move, in order, to the front of the last leaf, and both boxes are
      recomputed. */
  function RepairLeaves(level: seq<Node>, min: nat): (r: seq<Node>)
    ensures |r| == |level|
  {
    if |level| < 2 then level
    else
      var prev, last := level[|level| - 2], level[|level| - 1];
      if prev.Leaf? && last.Leaf? && Underfull(|prev.points|, |last.points|, min) then
        var cut := |prev.points| - Spare(|prev.points|, |last.points|, min);
        var p, l := prev.points[..cut], prev.points[cut..] + last.points;
        level[..|level| - 2] + [Leaf(PointsBound(p), p), Leaf(PointsBound(l), l)]
      else level
  }

  /** Inner-node underflow repair: the same move on children. */
  function RepairParents(level: seq<Node>, min: nat): seq<Node> {
    if |level| < 2 then level
    else
      var prev, last := level[|level| - 2], level[|level| - 1];
      if prev.Inner? && last.Inner? && Underfull(|prev.children|, |last.children|, min) then
        var cut := |prev.children| - Spare(|prev.children|, |last.children|, min);
        var p, l := prev.children[..cut], prev.children[cut..] + last.children;
        level[..|level| - 2] + [Inner(NodesBound(p), p), Inner(NodesBound(l), l)]
      else level
  }

  /** One level up: consecutive groups of `max` siblings under new parents,
      the last group possibly smaller. With groups of two or more, a level
      of two or more nodes shrinks. */
  function ParentsOf(ns: seq<Node>, max: nat): (ps: seq<Node>)
    requires max > 0
    ensures |ps| <= |ns| && (ns != [] ==> ps != [])
    ensures |ns| >= 2 && max >= 2 ==> |ps| < |ns|
    decreases |ns|
  {
    if ns == [] then []
    else
      var k := MinNat(max, |ns|);
      [Inner(NodesBound(ns[..k]), ns[..k])] + ParentsOf(ns[k..], max)
  }

  /** Build and repair levels until at most one node is left. A level of
      two or more nodes shrinks only with groups of two or more. */
  function Grow(level: seq<Node>, max: nat, min: nat): (top: seq<Node>)
    requires max >= 2 || |level| <= 1
    ensures |top| <= 1 && (level != [] ==> top != [])
    decreases |level|
  {
    if |level| <= 1 then level
    else
      var next := RepairParents(ParentsOf(level, max), min);
      assert |next| == |ParentsOf(level, max)|;
      Grow(next, max, min)
  }

  /** The point counts and `max_entries` with which the loader finishes:
      no points at all; `max_entries` of two or more, so every level
      shrinks; or a single point with `max_entries` of one, which makes one
      leaf and no level above it. With `max_entries` of zero the leaf loop
      never advances over a point, and with one a level of two or more nodes
      never shrinks. */
  predicate Finishes(n: nat, max: nat) {
    n == 0 || max >= 2 || (max == 1 && n == 1)
  }

  /** The sorted data on which `insert_sorted` finishes. */
  predicate Loadable(d: SortedData, max: nat) {
    Finishes(|Entries(d)|, max)
  }

  /** The tree `insert_sorted` builds, or None when there is nothing to load. */
  function BulkLoad(d: SortedData, max: nat, min: nat): Option<Node>
    requires Loadable(d, max)
  {
    var top := Grow(RepairLeaves(Leaves(d, max), min), max, min);
    if top == [] then None else Some(top[0])
  }
}
