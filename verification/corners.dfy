/**
  Vertex-list edits that add or remove corners: appending a point,
  inserting a corner near the closest edge, erasing a corner, and
  retracting the unconfirmed tail of a shape being drawn.
 */
module Corners {
  import opened Geometry

  /** `pts` with `p` spliced in so that it ends up at index `k`. */
  function InsertAt(pts: seq<Point>, k: nat, p: Point): (r: seq<Point>)
    requires k <= |pts|
    ensures |r| == |pts| + 1 && r[k] == p
    ensures r[..k] == pts[..k] && r[k + 1..] == pts[k..]
  {
    pts[..k] + [p] + pts[k..]
  }

  /** Appends `p` as the new last vertex. */
  function AddPoint(pts: seq<Point>, p: Point): (r: seq<Point>)
    ensures |r| == |pts| + 1 && r[|pts|] == p && r[..|pts|] == pts
  {
    pts + [p]
  }

  /** Erases the vertex at `idx`. */
  function RemoveCorner(pts: seq<Point>, idx: int): (r: seq<Point>)
    requires 0 <= idx < |pts|
    ensures |r| == |pts| - 1
    ensures r[..idx] == pts[..idx] && r[idx..] == pts[idx + 1..]
  {
    pts[..idx] + pts[idx + 1..]
  }

  /** Erasing the corner just inserted gives back the original vertex list. */
  lemma RemoveUndoesInsert(pts: seq<Point>, k: nat, p: Point)
    requires k <= |pts|
    ensures RemoveCorner(InsertAt(pts, k, p), k) == pts
  {
    var r := InsertAt(pts, k, p);
    assert r[..k] + r[k + 1..] == pts[..k] + pts[k..];
    assert pts[..k] + pts[k..] == pts;
  }

  /**
    Distance from `p` to the edge that starts at vertex `i`, as the
    external `dist(start, end, p)` measures it (truncated to an int).
   */
  function EdgeDistance(pts: seq<Point>, p: Point, dist: (Point, Point, Point) -> int, i: nat): int
    requires i + 1 < |pts|
  {
    dist(pts[i], pts[i + 1], p)
  }

  /**
    `k` starts the first edge (lowest index) whose distance to `p` is
    strictly minimal among all edges and below the `IntMax` start value.
   */
  ghost predicate FirstClosestEdge(pts: seq<Point>, p: Point, dist: (Point, Point, Point) -> int, k: nat)
  {
    && k + 1 < |pts|
    && EdgeDistance(pts, p, dist, k) < IntMax
    && (forall j :: 0 <= j < |pts| - 1 ==> EdgeDistance(pts, p, dist, k) <= EdgeDistance(pts, p, dist, j))
    && (forall j :: 0 <= j < k ==> EdgeDistance(pts, p, dist, j) > EdgeDistance(pts, p, dist, k))
  }

  /** At most one edge is the first closest one. */
  lemma FirstClosestEdgeUnique(pts: seq<Point>, p: Point, dist: (Point, Point, Point) -> int, k1: nat, k2: nat)
    requires FirstClosestEdge(pts, p, dist, k1) && FirstClosestEdge(pts, p, dist, k2)
    ensures k1 == k2
  {
    assert EdgeDistance(pts, p, dist, k1) <= EdgeDistance(pts, p, dist, k2);
    assert EdgeDistance(pts, p, dist, k2) <= EdgeDistance(pts, p, dist, k1);
  }

  /**
    The closest-edge scan from edge `i` on, carrying the smallest distance
    seen so far (`curMin`, initially `IntMax`) and the edge that first
    reached it (`best`, initially 0).
   */
  function ScanClosestEdge(pts: seq<Point>, p: Point, dist: (Point, Point, Point) -> int,
                           i: nat, curMin: int, best: nat): (k: nat)
    requires 1 <= |pts| && i <= |pts| - 1
    requires curMin <= IntMax
    requires forall j :: 0 <= j < i ==> curMin <= EdgeDistance(pts, p, dist, j)
    requires curMin == IntMax ==> best == 0
    requires curMin < IntMax ==>
      && best < i && EdgeDistance(pts, p, dist, best) == curMin
      && forall j :: 0 <= j < best ==> EdgeDistance(pts, p, dist, j) > curMin
    ensures k == 0 || k + 1 < |pts|
    ensures (exists j :: 0 <= j < |pts| - 1 && EdgeDistance(pts, p, dist, j) < IntMax)
            ==> FirstClosestEdge(pts, p, dist, k)
    ensures (forall j :: 0 <= j < |pts| - 1 ==> EdgeDistance(pts, p, dist, j) >= IntMax) ==> k == 0
    decreases |pts| - i
  {
    if i == |pts| - 1 then best
    else
      var d := EdgeDistance(pts, p, dist, i);
      if d < curMin then ScanClosestEdge(pts, p, dist, i + 1, d, i)
      else ScanClosestEdge(pts, p, dist, i + 1, curMin, best)
  }

  /** Index of the first vertex of the edge closest to `p`; 0 if no edge is closer than `IntMax`. */
  function ClosestLineStart(pts: seq<Point>, p: Point, dist: (Point, Point, Point) -> int): (k: nat)
    requires |pts| >= 1
    ensures k == 0 || k + 1 < |pts|
    ensures (exists j :: 0 <= j < |pts| - 1 && EdgeDistance(pts, p, dist, j) < IntMax)
            ==> FirstClosestEdge(pts, p, dist, k)
    ensures (forall j :: 0 <= j < |pts| - 1 ==> EdgeDistance(pts, p, dist, j) >= IntMax) ==> k == 0
  {
    ScanClosestEdge(pts, p, dist, 0, IntMax, 0)
  }

  /**
    Adds a corner at `p` as the code does: spliced in at the index of the
    first vertex of the closest edge, i.e. just before that edge.
   */
  function AddCorner(pts: seq<Point>, p: Point, dist: (Point, Point, Point) -> int): (r: seq<Point>)
    requires |pts| >= 1
    ensures |r| == |pts| + 1
    ensures r[ClosestLineStart(pts, p, dist)] == p
    ensures RemoveCorner(r, ClosestLineStart(pts, p, dist)) == pts
  {
    var k := ClosestLineStart(pts, p, dist);
    RemoveUndoesInsert(pts, k, p);
    InsertAt(pts, k, p)
  }

  /**
    AddCorner as written leaves the winning edge whole: its two end
    vertices stay adjacent, right after the new corner.
   */
  lemma AddCornerKeepsWinningEdge(pts: seq<Point>, p: Point, dist: (Point, Point, Point) -> int)
    requires |pts| >= 2
    ensures var k := ClosestLineStart(pts, p, dist);
      var r := AddCorner(pts, p, dist);
      r[k] == p && r[k + 1] == pts[k] && r[k + 2] == pts[k + 1]
  {
    var k := ClosestLineStart(pts, p, dist);
    var r := AddCorner(pts, p, dist);
    assert r[k + 1..] == pts[k..];
    assert r[k + 1] == r[k + 1..][0] && r[k + 2] == r[k + 1..][1];
  }

  /**
    Corrected corner insertion: `p` goes between the two end vertices of
    the closest edge, splitting that edge in two.
   */
  function AddCornerOnSegment(pts: seq<Point>, p: Point, dist: (Point, Point, Point) -> int): (r: seq<Point>)
    requires |pts| >= 1
    ensures |r| == |pts| + 1
    ensures var k := ClosestLineStart(pts, p, dist);
      r[k + 1] == p && r[k] == pts[k] && (k + 1 < |pts| ==> r[k + 2] == pts[k + 1])
    ensures RemoveCorner(r, ClosestLineStart(pts, p, dist) + 1) == pts
  {
    var k := ClosestLineStart(pts, p, dist);
    RemoveUndoesInsert(pts, k + 1, p);
    var r := InsertAt(pts, k + 1, p);
    assert r[..k + 1][k] == pts[..k + 1][k];
    assert k + 1 < |pts| ==> r[k + 2] == r[k + 2..][0] == pts[k + 1..][0];
    r
  }

  /** Stand-in distance for the worked example: twice the Manhattan distance from `q` to the edge's midpoint. */
  function MidpointDistance(a: Point, b: Point, q: Point): (d: int)
    ensures d >= 0
  {
    Abs(a.x + b.x - 2 * q.x) + Abs(a.y + b.y - 2 * q.y)
  }

  /** The L-shaped polyline (0,0)-(10,0)-(10,10) of the worked example. */
  const LShape: seq<Point> := [Point(0, 0), Point(10, 0), Point(10, 10)]

  /** Edge distances from (10,5) on `LShape`: 20 to the first edge, 0 to the second. */
  lemma LShapeEdgeDistances()
    ensures EdgeDistance(LShape, Point(10, 5), MidpointDistance, 0) == 20
    ensures EdgeDistance(LShape, Point(10, 5), MidpointDistance, 1) == 0
  {
  }

  /** Of the two edges of `LShape`, the second is the first closest to (10,5). */
  lemma LShapeFirstClosest()
    ensures FirstClosestEdge(LShape, Point(10, 5), MidpointDistance, 1)
  {
    var q := Point(10, 5);
    LShapeEdgeDistances();
    hide EdgeDistance;
    forall j | 0 <= j < |LShape| - 1
      ensures EdgeDistance(LShape, q, MidpointDistance, 1) <= EdgeDistance(LShape, q, MidpointDistance, j)
    {
      assert j == 0 || j == 1;
    }
  }

  /** The point (10,5) lies on the second edge of `LShape`, which the scan picks. */
  lemma LShapeClosestEdge()
    ensures ClosestLineStart(LShape, Point(10, 5), MidpointDistance) == 1
  {
    hide ClosestLineStart, ScanClosestEdge;
    var q := Point(10, 5);
    LShapeEdgeDistances();
    LShapeFirstClosest();
    FirstClosestEdgeUnique(LShape, q, MidpointDistance, ClosestLineStart(LShape, q, MidpointDistance), 1);
  }

  /**
    A corner at (10,5) on the second edge of `LShape`: AddCorner as
    written puts it before that edge, between (0,0) and (10,0).
   */
  lemma AddCornerMisplacesExample()
    ensures AddCorner(LShape, Point(10, 5), MidpointDistance)
         == [Point(0, 0), Point(10, 5), Point(10, 0), Point(10, 10)]
  {
    LShapeClosestEdge();
    assert InsertAt(LShape, 1, Point(10, 5)) == [Point(0, 0), Point(10, 5), Point(10, 0), Point(10, 10)];
  }

  /** The corrected insertion puts the same corner between (10,0) and (10,10), on the edge it lies on. */
  lemma AddCornerOnSegmentExample()
    ensures AddCornerOnSegment(LShape, Point(10, 5), MidpointDistance)
         == [Point(0, 0), Point(10, 0), Point(10, 5), Point(10, 10)]
  {
    LShapeClosestEdge();
    assert InsertAt(LShape, 2, Point(10, 5)) == [Point(0, 0), Point(10, 0), Point(10, 5), Point(10, 10)];
  }

  /**
    Retracts the unconfirmed tail of a shape being drawn: while more than
    two vertices remain, drop the last one; stop as soon as the new last
    vertex differs from `p`, after moving it onto `p`.
   */
  function DeleteSegment(pts: seq<Point>, p: Point): (r: seq<Point>)
    ensures |pts| <= 2 ==> r == pts
    ensures |pts| > 2 ==>
      && 2 <= |r| < |pts|
      && r[..|r| - 1] == pts[..|r| - 1]
      && r[|r| - 1] == p
      && (|r| > 2 ==> pts[|r| - 1] != p)
      && (forall k :: |r| <= k < |pts| - 1 ==> pts[k] == p)
    decreases |pts|
  {
    if |pts| <= 2 then pts
    else
      var popped := pts[..|pts| - 1];
      if popped[|popped| - 1] != p then popped[|popped| - 1 := p]
      else
        var r := DeleteSegment(popped, p);
        assert |popped| > 2 ==> r[..|r| - 1] == popped[..|r| - 1] == pts[..|r| - 1];
        r
  }
}
