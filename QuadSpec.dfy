/** The QuadTree as a value: the tree an insertion sequence builds, the
    insertion itself (with a depth budget, since the source's recursion is
    unbounded), the invariants insertion keeps and the queries' meaning. */
module QuadSpec {
  import opened Geometry
  import opened Wrappers

  datatype Tree =
    | Leaf(boundary: Rectangle, points: seq<Point>)
    | Node(boundary: Rectangle, nw: Tree, ne: Tree, sw: Tree, se: Tree)

  datatype Quadrant = NW | NE | SW | SE

  /** The order in which insertion offers a point to the children. */
  const InsertOrder: seq<Quadrant> := [NE, NW, SE, SW]

  /** The order in which queries visit the children. */
  const QueryOrder: seq<Quadrant> := [NW, NE, SW, SE]

  /** The boundary of a quadrant: half the parent's width and height, centred
      a quarter of the parent's size away from its centre. */
  function QuadrantBoundary(b: Rectangle, q: Quadrant): (r: Rectangle)
    ensures r.w == b.w / 2.0 && r.h == b.h / 2.0
    ensures r.x == (if q == NW || q == SW then b.x - b.w / 4.0 else b.x + b.w / 4.0)
    ensures r.y == (if q == NW || q == NE then b.y + b.h / 4.0 else b.y - b.h / 4.0)
  {
    var x := b.x;
    var y := b.y;
    var w := b.w / 2.0;
    var h := b.h / 2.0;
    match q
    case NW => Rect(x - w / 2.0, y + h / 2.0, w, h)
    case NE => Rect(x + w / 2.0, y + h / 2.0, w, h)
    case SW => Rect(x - w / 2.0, y - h / 2.0, w, h)
    case SE => Rect(x + w / 2.0, y - h / 2.0, w, h)
  }

  /** A node with four empty quadrant leaves, as subdivision creates it. */
  function Split(b: Rectangle): (t: Tree)
    ensures t.Node? && t.boundary == b
    ensures forall q :: Child(t, q) == Leaf(QuadrantBoundary(b, q), [])
  {
    Node(b, Leaf(QuadrantBoundary(b, NW), []), Leaf(QuadrantBoundary(b, NE), []),
            Leaf(QuadrantBoundary(b, SW), []), Leaf(QuadrantBoundary(b, SE), []))
  }

  function Child(t: Tree, q: Quadrant): Tree
    requires t.Node?
  {
    match q
    case NW => t.nw
    case NE => t.ne
    case SW => t.sw
    case SE => t.se
  }

  /** Replace one child, keeping the other three. */
  function WithChild(t: Tree, q: Quadrant, c: Tree): (u: Tree)
    requires t.Node?
    ensures u.Node? && u.boundary == t.boundary
    ensures Child(u, q) == c
    ensures forall q' :: q' != q ==> Child(u, q') == Child(t, q')
  {
    match q
    case NW => t.(nw := c)
    case NE => t.(ne := c)
    case SW => t.(sw := c)
    case SE => t.(se := c)
  }

  /** Every stored point, children in query order. */
  function Flatten(t: Tree): seq<Point> {
    match t
    case Leaf(_, pts) => pts
    case Node(_, nw, ne, sw, se) => Flatten(nw) + Flatten(ne) + Flatten(sw) + Flatten(se)
  }

  predicate HasId(pts: seq<Point>, id: int) {
    exists i :: 0 <= i < |pts| && pts[i].id == id
  }

  /** No point of `pts` carries `id`. */
  ghost predicate IdFree(pts: seq<Point>, id: int) {
    forall x :: x in pts ==> x.id != id
  }

  ghost predicate DistinctIds(pts: seq<Point>) {
    forall i, j :: 0 <= i < j < |pts| ==> pts[i].id != pts[j].id
  }

  /** What insertion maintains at every node: a leaf holds at most `cap` points
      with distinct ids; a node's children sit on its quadrants; and every
      point stored below a node lies in that node's boundary. */
  ghost predicate Inv(t: Tree, cap: nat) {
    Consistent(t.boundary) &&
    (forall p :: p in Flatten(t) ==> Contains(t.boundary, p)) &&
    match t
    case Leaf(_, pts) => |pts| <= cap && DistinctIds(pts)
    case Node(b, nw, ne, sw, se) =>
      (forall q :: Child(t, q).boundary == QuadrantBoundary(b, q)) &&
      Inv(nw, cap) && Inv(ne, cap) && Inv(sw, cap) && Inv(se, cap)
  }

  /** Every point stored below a node lies in that node's boundary, at every
      level; this is the part of `Inv` the queries rely on. */
  ghost predicate Enclosed(t: Tree) {
    (forall p :: p in Flatten(t) ==> Contains(t.boundary, p)) &&
    match t
    case Leaf(_, _) => true
    case Node(_, nw, ne, sw, se) => Enclosed(nw) && Enclosed(ne) && Enclosed(sw) && Enclosed(se)
  }

  // ---------------------------------------------------------------- insertion

  /** Insertion with a depth budget `fuel`: None when the budget runs out,
      otherwise the new tree and whether the point was stored.
      A point outside the boundary is refused. A leaf below capacity refuses a
      point whose id it already holds and appends any other. A full leaf first
      subdivides and re-inserts its points into the children; then (as at any
      divided node) the point is offered to the children in NE, NW, SE, SW
      order until one accepts. */
  function Insert(t: Tree, cap: nat, p: Point, fuel: nat): Option<(Tree, bool)>
    decreases fuel, 0
  {
    if !Contains(t.boundary, p) then Some((t, false))
    else if fuel == 0 then None
    else match t
      case Leaf(b, pts) =>
        if |pts| < cap then
          if HasId(pts, p.id) then Some((t, false)) else Some((Leaf(b, pts + [p]), true))
        else
          (match Redistribute(Split(b), cap, pts, fuel - 1)
           case None => None
           case Some(n) => Route(n, cap, p, fuel - 1, InsertOrder))
      case Node(_, _, _, _, _) => Route(t, cap, p, fuel - 1, InsertOrder)
  }

  /** Offer p to the children named in `order`, in turn, until one accepts.
      A child that refuses keeps whatever it did meanwhile (it may have
      subdivided). */
  function Route(t: Tree, cap: nat, p: Point, fuel: nat, order: seq<Quadrant>): (r: Option<(Tree, bool)>)
    requires t.Node?
    ensures r.Some? ==> r.value.0.Node? && r.value.0.boundary == t.boundary
    decreases fuel, 1, |order|
  {
    if order == [] then Some((t, false))
    else
      match Insert(Child(t, order[0]), cap, p, fuel)
      case None => None
      case Some((c, ok)) =>
        var t' := WithChild(t, order[0], c);
        if ok then Some((t', true)) else Route(t', cap, p, fuel, order[1..])
  }

  /** Re-insert the points of a subdivided leaf, each into the first child
      that accepts it. */
  function Redistribute(t: Tree, cap: nat, pts: seq<Point>, fuel: nat): (r: Option<Tree>)
    requires t.Node?
    ensures r.Some? ==> r.value.Node? && r.value.boundary == t.boundary
    decreases fuel, 2, |pts|
  {
    if pts == [] then Some(t)
    else
      match Route(t, cap, pts[0], fuel, InsertOrder)
      case None => None
      case Some((t', _)) => Redistribute(t', cap, pts[1..], fuel)
  }

  /** Stored points that lie in `range`, children in query order, skipping
      every subtree whose boundary does not meet the range. */
  function RangeQuery(t: Tree, range: Rectangle): seq<Point> {
    if !Intersects(t.boundary, range) then []
    else match t
      case Leaf(_, pts) => PointsIn(range, pts)
      case Node(_, nw, ne, sw, se) =>
        RangeQuery(nw, range) + RangeQuery(ne, range) + RangeQuery(sw, range) + RangeQuery(se, range)
  }
}
