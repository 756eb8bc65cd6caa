/**
  Selection tests: does a cursor position, or a selection rectangle, hit
  the polyline? The point test walks the open chain of edges; the
  rectangle test walks the closed cycle, including the edge from the
  last vertex back to the first.
 */
module HitTest {
  import opened Geometry
  import opened Polyline

  /**
    The rectangle operations the tests need, supplied by the rectangle
    type: growing by a margin on every side, containment of a rectangle
    or a point, and overlap with a rectangle or with a segment.
   */
  datatype RectOps<!R> = RectOps(
    inflate: (R, int) -> R,
    containsRect: (R, R) -> bool,
    intersectsRect: (R, R) -> bool,
    containsPoint: (R, Point) -> bool,
    intersectsSegment: (R, Point, Point) -> bool)

  /** Hit tolerance for the point test: the accuracy plus half the pen, never below `minSelection`. */
  function Tolerance(line: Polyline, accuracy: int, defaultThickness: int, minSelection: int): (t: int)
    ensures t >= minSelection
    ensures t >= accuracy + HalfTowardZero(PenSize(line, defaultThickness))
    ensures t == minSelection || t == accuracy + HalfTowardZero(PenSize(line, defaultThickness))
  {
    var grown := accuracy + HalfTowardZero(PenSize(line, defaultThickness));
    if grown > minSelection then grown else minSelection
  }

  /**
    The edge from vertex `ii - 1` to vertex `ii`, mapped by `transform`,
    passes within `tolerance` of `pos` by the segment test `segmentHit`.
   */
  ghost predicate EdgeHit(pts: seq<Point>, ii: int, pos: Point, tolerance: int,
                          transform: Point -> Point, segmentHit: (Point, Point, Point, int) -> bool)
    requires 1 <= ii < |pts|
  {
    segmentHit(pos, transform(pts[ii - 1]), transform(pts[ii]), tolerance)
  }

  /**
    Point hit test: true iff some edge of the OPEN chain (vertex 0 to the
    last vertex, no closing edge) passes within the tolerance of `pos`.
   */
  method HitTestPoint(line: Polyline, pos: Point, accuracy: int, defaultThickness: int,
                      minSelection: int, transform: Point -> Point,
                      segmentHit: (Point, Point, Point, int) -> bool) returns (hit: bool)
    ensures hit <==> exists ii :: 1 <= ii < |line.points| && EdgeHit(line.points, ii, pos,
                                    Tolerance(line, accuracy, defaultThickness, minSelection), transform, segmentHit)
  {
    var mindist := Tolerance(line, accuracy, defaultThickness, minSelection);
    var ii := 1;
    while ii < |line.points|
      invariant 1 <= ii <= |line.points| || (ii == 1 && |line.points| == 0)
      invariant forall j :: 1 <= j < ii && j < |line.points| ==>
        !EdgeHit(line.points, j, pos, mindist, transform, segmentHit)
    {
      var start := transform(line.points[ii - 1]);
      var end := transform(line.points[ii]);
      if segmentHit(pos, start, end, mindist) {
        assert EdgeHit(line.points, ii, pos, mindist, transform, segmentHit);
        return true;
      }
      ii := ii + 1;
    }
    return false;
  }

  /** The selection rectangle after the optional accuracy margin. */
  function Selection<R>(ops: RectOps<R>, rect: R, accuracy: int): R
  {
    if accuracy != 0 then ops.inflate(rect, accuracy) else rect
  }

  /**
    Vertex `ii` lies in `sel`, or the edge from it to the next vertex of
    the closed cycle (wrapping from the last vertex to vertex 0) crosses
    `sel`; vertices are mapped by `transform`.
   */
  ghost predicate CycleEdgeTouches<R>(ops: RectOps<R>, sel: R, pts: seq<Point>, ii: int,
                                      transform: Point -> Point)
    requires 0 <= ii < |pts|
  {
    ops.containsPoint(sel, transform(pts[ii]))
    || ops.intersectsSegment(sel, transform(pts[ii]), transform(pts[(ii + 1) % |pts|]))
  }

  /**
    Rectangle hit test. A deleted or skipped item never hits. With
    `contained`, the (accuracy-grown) rectangle must contain the shape's
    bounding box `bbox`. Otherwise the rectangle must overlap `bbox`, and,
    grown further by half the raw stroke width, touch some vertex or
    some edge of the closed cycle.
   */
  method HitTestRect<R>(line: Polyline, skipped: bool, rect: R, contained: bool, accuracy: int,
                        bbox: R, ops: RectOps<R>, transform: Point -> Point) returns (hit: bool)
    ensures hit <==>
      && !skipped
      && (contained ==> ops.containsRect(Selection(ops, rect, accuracy), bbox))
      && (!contained ==>
            && ops.intersectsRect(Selection(ops, rect, accuracy), bbox)
            && exists ii :: 0 <= ii < |line.points| &&
                 CycleEdgeTouches(ops, ops.inflate(Selection(ops, rect, accuracy), HalfTowardZero(line.width)),
                                  line.points, ii, transform))
    ensures var n := |line.points|;
      !skipped && !contained && n >= 1
      && ops.intersectsRect(Selection(ops, rect, accuracy), bbox)
      && ops.intersectsSegment(ops.inflate(Selection(ops, rect, accuracy), HalfTowardZero(line.width)),
                               transform(line.points[n - 1]), transform(line.points[0]))
      ==> hit
  {
    if skipped {
      return false;
    }
    var sel := Selection(ops, rect, accuracy);
    if contained {
      return ops.containsRect(sel, bbox);
    }
    if !ops.intersectsRect(sel, bbox) {
      return false;
    }
    sel := ops.inflate(sel, HalfTowardZero(line.width));
    var count := |line.points|;
    if count >= 1 {
      assert (count - 1 + 1) % count == 0;
      assert CycleEdgeTouches(ops, sel, line.points, count - 1, transform)
        <== ops.intersectsSegment(sel, transform(line.points[count - 1]), transform(line.points[0]));
    }
    var ii := 0;
    while ii < count
      invariant 0 <= ii <= count
      invariant forall j :: 0 <= j < ii ==> !CycleEdgeTouches(ops, sel, line.points, j, transform)
    {
      var pt := transform(line.points[ii]);
      var ptNext := transform(line.points[(ii + 1) % count]);
      if ops.containsPoint(sel, pt) || ops.intersectsSegment(sel, pt, ptNext) {
        assert CycleEdgeTouches(ops, sel, line.points, ii, transform);
        return true;
      }
      ii := ii + 1;
    }
    return false;
  }
}
