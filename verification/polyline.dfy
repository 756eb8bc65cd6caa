/**
  The schematic-symbol polyline itself: its ordered vertex list, stroke
  width and fill mode, the pen size derived from the width, and the
  lexicographic comparison used to order shapes of the same kind.
 */
module Polyline {
  import opened Geometry

  datatype FillMode = NoFill | FilledShape | FilledWithBackground

  /**
    A polyline shape. Consecutive vertices are joined by an edge; `width`
    is the stroke width, where 0 means "default thickness" and a negative
    value means "minimal pen".
   */
  datatype Polyline = Polyline(points: seq<Point>, width: int, fill: FillMode)

  /** A fresh polyline: no vertices, default width, not filled. */
  const Empty: Polyline := Polyline([], 0, NoFill)

  /** The pen-size sentinel meaning "thinnest pen the device can draw". */
  const MinimalPen: int := -1

  /**
    Effective stroke width. `defaultThickness` stands for the global
    default line thickness, which the shape does not own.
   */
  function PenSize(line: Polyline, defaultThickness: int): (r: int)
    ensures line.width > 0 ==> r == line.width
    ensures line.width == 0 ==> r == defaultThickness
    ensures line.width < 0 ==> r == MinimalPen
    ensures defaultThickness > 0 ==> (r > 0 <==> line.width >= 0)
  {
    if line.width > 0 then line.width
    else if line.width == 0 then defaultThickness
    else MinimalPen
  }

  /** How two distinct vertices compare: the x difference, or the y difference when x agrees. */
  function PointDifference(p: Point, q: Point): int
  {
    if p.x != q.x then p.x - q.x else p.y - q.y
  }

  /**
    Result of comparing the vertices of `a` and `b` from index `i` on,
    for two vertex lists of equal length: the first differing x, else the
    first differing y, as a signed difference; 0 when the suffixes agree.
   */
  function CompareFrom(a: seq<Point>, b: seq<Point>, i: nat): (r: int)
    requires |a| == |b| && i <= |a|
    ensures r == 0 <==> a[i..] == b[i..]
    decreases |a| - i
  {
    if i == |a| then 0
    else if a[i].x != b[i].x then a[i].x - b[i].x
    else if a[i].y != b[i].y then a[i].y - b[i].y
    else
      var rest := CompareFrom(a, b, i + 1);
      assert a[i..] == [a[i]] + a[i + 1..] && b[i..] == [b[i]] + b[i + 1..];
      rest
  }

  /**
    Orders two polylines: fewer vertices first, then vertex by vertex,
    x before y. Width and fill do not take part.
   */
  function Compare(a: Polyline, b: Polyline): (r: int)
    ensures r == 0 <==> a.points == b.points
    ensures |a.points| != |b.points| ==> r == |a.points| - |b.points|
  {
    if |a.points| != |b.points| then |a.points| - |b.points|
    else CompareFrom(a.points, b.points, 0)
  }

  /**
    When the lists agree from `i` up to `k` and differ at `k`, the
    comparison is decided by vertex `k`: its x difference, else its y
    difference.
   */
  lemma {:induction false} CompareFromFirstDifference(a: seq<Point>, b: seq<Point>, i: nat, k: nat)
    requires |a| == |b| && i <= k < |a|
    requires a[i..k] == b[i..k] && a[k] != b[k]
    ensures CompareFrom(a, b, i) == PointDifference(a[k], b[k])
    decreases k - i
  {
    if i < k {
      assert a[i] == a[i..k][0] && b[i] == b[i..k][0];
      assert a[i + 1..k] == a[i..k][1..] && b[i + 1..k] == b[i..k][1..];
      CompareFromFirstDifference(a, b, i + 1, k);
    }
  }

  /**
    Shapes with the same vertex count are ordered lexicographically: the
    first differing vertex decides, by x and then by y.
   */
  lemma CompareIsLexicographic(a: Polyline, b: Polyline, k: nat)
    requires |a.points| == |b.points| && k < |a.points|
    requires a.points[..k] == b.points[..k] && a.points[k] != b.points[k]
    ensures Compare(a, b) == PointDifference(a.points[k], b.points[k])
  {
    assert a.points[0..k] == a.points[..k] && b.points[0..k] == b.points[..k];
    CompareFromFirstDifference(a.points, b.points, 0, k);
  }

  lemma {:induction false} CompareFromAntisymmetric(a: seq<Point>, b: seq<Point>, i: nat)
    requires |a| == |b| && i <= |a|
    ensures CompareFrom(a, b, i) == -CompareFrom(b, a, i)
    decreases |a| - i
  {
    if i < |a| && a[i] == b[i] {
      CompareFromAntisymmetric(a, b, i + 1);
    }
  }

  /** Swapping the operands negates the comparison exactly. */
  lemma CompareAntisymmetric(a: Polyline, b: Polyline)
    ensures Compare(a, b) == -Compare(b, a)
    ensures Compare(a, a) == 0
  {
    if |a.points| == |b.points| {
      CompareFromAntisymmetric(a.points, b.points, 0);
    }
  }

  lemma {:induction false} CompareFromTransitive(a: seq<Point>, b: seq<Point>, c: seq<Point>, i: nat)
    requires |a| == |b| == |c| && i <= |a|
    requires CompareFrom(a, b, i) < 0 && CompareFrom(b, c, i) < 0
    ensures CompareFrom(a, c, i) < 0
    decreases |a| - i
  {
    if a[i] == b[i] && b[i] == c[i] {
      CompareFromTransitive(a, b, c, i + 1);
    }
  }

  /** "Sorts before" is transitive, so Compare is a strict total order on vertex lists. */
  lemma CompareTransitive(a: Polyline, b: Polyline, c: Polyline)
    requires Compare(a, b) < 0 && Compare(b, c) < 0
    ensures Compare(a, c) < 0
  {
    if |a.points| == |b.points| == |c.points| {
      CompareFromTransitive(a.points, b.points, c.points, 0);
    }
  }
}
