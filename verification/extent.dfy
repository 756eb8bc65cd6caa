/**
  The extent of a polyline: its axis-aligned bounding box grown by half
  the pen size, and the "any vertex inside this rectangle" test.
 */
module Extent {
  import opened Geometry
  import opened Polyline

  /** An axis-aligned box given by its extreme coordinates. */
  datatype Box = Box(xmin: int, ymin: int, xmax: int, ymax: int)

  /** Every vertex lies inside `b` (borders included). */
  ghost predicate Encloses(b: Box, pts: seq<Point>)
  {
    forall i :: 0 <= i < |pts| ==>
      b.xmin <= pts[i].x <= b.xmax && b.ymin <= pts[i].y <= b.ymax
  }

  /** Each side of `b` touches some vertex, so no smaller box encloses `pts`. */
  ghost predicate Tight(b: Box, pts: seq<Point>)
  {
    && (exists i :: 0 <= i < |pts| && pts[i].x == b.xmin)
    && (exists i :: 0 <= i < |pts| && pts[i].x == b.xmax)
    && (exists i :: 0 <= i < |pts| && pts[i].y == b.ymin)
    && (exists i :: 0 <= i < |pts| && pts[i].y == b.ymax)
  }

  /** How far the vertex box is grown on every side: half the pen size, rounded as C++ does. */
  function Inflation(line: Polyline, defaultThickness: int): (k: int)
    ensures defaultThickness >= -1 ==> k >= 0
    ensures line.width > 0 ==> k == (line.width + 1) / 2
    ensures line.width == 0 ==> k == HalfTowardZero(defaultThickness + 1)
    ensures line.width < 0 ==> k == 0
  {
    HalfTowardZero(PenSize(line, defaultThickness) + 1)
  }

  /**
    The bounding box: the smallest box enclosing every vertex, scanned
    from the first vertex on, and the inflation to apply to it for the
    stroke. Growing the box by the inflation and flipping it to the
    canvas's downward y axis is left to the rectangle type.
   */
  method BoundingBox(line: Polyline, defaultThickness: int) returns (box: Box, inflation: int)
    requires |line.points| >= 1
    ensures Encloses(box, line.points) && Tight(box, line.points)
    ensures inflation == Inflation(line, defaultThickness)
  {
    var pts := line.points;
    var xmin, xmax := pts[0].x, pts[0].x;
    var ymin, ymax := pts[0].y, pts[0].y;
    var ii := 1;
    while ii < |pts|
      invariant 1 <= ii <= |pts|
      invariant Encloses(Box(xmin, ymin, xmax, ymax), pts[..ii])
      invariant Tight(Box(xmin, ymin, xmax, ymax), pts[..ii])
    {
      xmin := if pts[ii].x < xmin then pts[ii].x else xmin;
      xmax := if pts[ii].x > xmax then pts[ii].x else xmax;
      ymin := if pts[ii].y < ymin then pts[ii].y else ymin;
      ymax := if pts[ii].y > ymax then pts[ii].y else ymax;
      ii := ii + 1;
    }
    assert pts[..ii] == pts;
    box := Box(xmin, ymin, xmax, ymax);
    inflation := Inflation(line, defaultThickness);
  }

  /**
    True when some vertex, with its y negated into the rectangle's
    downward axis, lies in the rectangle; `contains(rect, x, y)` is the
    rectangle's own point test.
   */
  method Inside<R>(line: Polyline, rect: R, contains: (R, int, int) -> bool) returns (inside: bool)
    ensures inside <==> exists i :: 0 <= i < |line.points| && contains(rect, line.points[i].x, -line.points[i].y)
  {
    var i := 0;
    while i < |line.points|
      invariant 0 <= i <= |line.points|
      invariant forall j :: 0 <= j < i ==> !contains(rect, line.points[j].x, -line.points[j].y)
    {
      if contains(rect, line.points[i].x, -line.points[i].y) {
        return true;
      }
      i := i + 1;
    }
    return false;
  }
}
