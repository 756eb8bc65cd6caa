/**
  Whole-shape transforms on a vertex list: translation (Offset), anchoring
  the first vertex (MoveTo), the two mirrors and the quarter-turn rotation.
 */
module Transforms {
  import opened Geometry

  /** Every vertex of `r` is the corresponding vertex of `pts` moved by `delta`. */
  ghost predicate Translated(pts: seq<Point>, r: seq<Point>, delta: Point)
  {
    |r| == |pts| && forall i :: 0 <= i < |r| ==> r[i] == Add(pts[i], delta)
  }

  /** Adds `delta` to every vertex. */
  function Offset(pts: seq<Point>, delta: Point): (r: seq<Point>)
    ensures Translated(pts, r, delta)
    decreases |pts|
  {
    if |pts| == 0 then []
    else [Add(pts[0], delta)] + Offset(pts[1..], delta)
  }

  /** Offsetting back by the opposite delta restores the vertices exactly. */
  lemma OffsetInverse(pts: seq<Point>, delta: Point)
    ensures Offset(Offset(pts, delta), Neg(delta)) == pts
  {
    hide Offset;
    var a := Offset(pts, delta);
    var r := Offset(a, Neg(delta));
    forall i | 0 <= i < |r|
      ensures r[i] == pts[i]
    {
      assert r[i] == Add(a[i], Neg(delta)) && a[i] == Add(pts[i], delta);
    }
  }

  /** Two offsets compose into one by the sum of the deltas. */
  lemma OffsetCompose(pts: seq<Point>, d1: Point, d2: Point)
    ensures Offset(Offset(pts, d1), d2) == Offset(pts, Add(d1, d2))
  {
    hide Offset;
    var a := Offset(pts, d1);
    var r := Offset(a, d2);
    var s := Offset(pts, Add(d1, d2));
    forall i | 0 <= i < |r|
      ensures r[i] == s[i]
    {
      assert r[i] == Add(a[i], d2) && a[i] == Add(pts[i], d1) && s[i] == Add(pts[i], Add(d1, d2));
    }
  }

  /**
    Repositions the shape so that its first vertex lands on `position`,
    every other vertex keeping its offset from the first.
   */
  function MoveTo(pts: seq<Point>, position: Point): (r: seq<Point>)
    requires |pts| >= 1
    ensures |r| == |pts| && r[0] == position
    ensures forall i :: 0 <= i < |r| ==> Sub(r[i], r[0]) == Sub(pts[i], pts[0])
  {
    Offset(pts, Sub(position, pts[0]))
  }

  /** Moving the first vertex by `delta` moves the whole shape by `delta`. */
  lemma MoveToIsOffset(pts: seq<Point>, delta: Point)
    requires |pts| >= 1
    ensures MoveTo(pts, Add(pts[0], delta)) == Offset(pts, delta)
  {
    assert Sub(Add(pts[0], delta), pts[0]) == delta;
  }

  /** Only the last anchor matters: a MoveTo overrides any earlier one. */
  lemma MoveToOverrides(pts: seq<Point>, p: Point, q: Point)
    requires |pts| >= 1
    ensures MoveTo(MoveTo(pts, p), q) == MoveTo(pts, q)
  {
    hide Offset;
    var r := MoveTo(MoveTo(pts, p), q);
    var s := MoveTo(pts, q);
    forall i | 0 <= i < |r|
      ensures r[i] == s[i]
    {
      assert Sub(r[i], r[0]) == Sub(pts[i], pts[0]) == Sub(s[i], s[0]);
    }
  }

  /** Reflects every vertex's x about `center.x`; y is untouched. */
  function MirrorHorizontal(pts: seq<Point>, center: Point): (r: seq<Point>)
    ensures |r| == |pts|
    ensures forall i :: 0 <= i < |r| ==>
      r[i].y == pts[i].y && r[i].x - center.x == center.x - pts[i].x
    decreases |pts|
  {
    if |pts| == 0 then []
    else
      var p := pts[0];
      [Point((p.x - center.x) * -1 + center.x, p.y)] + MirrorHorizontal(pts[1..], center)
  }

  /** Reflects every vertex's y about `center.y`; x is untouched. */
  function MirrorVertical(pts: seq<Point>, center: Point): (r: seq<Point>)
    ensures |r| == |pts|
    ensures forall i :: 0 <= i < |r| ==>
      r[i].x == pts[i].x && r[i].y - center.y == center.y - pts[i].y
    decreases |pts|
  {
    if |pts| == 0 then []
    else
      var p := pts[0];
      [Point(p.x, (p.y - center.y) * -1 + center.y)] + MirrorVertical(pts[1..], center)
  }

  /** Mirroring twice about the same centre gives back the original vertices. */
  lemma MirrorInvolutions(pts: seq<Point>, center: Point)
    ensures MirrorHorizontal(MirrorHorizontal(pts, center), center) == pts
    ensures MirrorVertical(MirrorVertical(pts, center), center) == pts
  {
    var h := MirrorHorizontal(MirrorHorizontal(pts, center), center);
    assert forall i :: 0 <= i < |h| ==> h[i] == pts[i];
    var v := MirrorVertical(MirrorVertical(pts, center), center);
    assert forall i :: 0 <= i < |v| ==> v[i] == pts[i];
  }

  /** The two mirrors act on different coordinates, so their order does not matter. */
  lemma MirrorsCommute(pts: seq<Point>, center: Point)
    ensures MirrorHorizontal(MirrorVertical(pts, center), center)
         == MirrorVertical(MirrorHorizontal(pts, center), center)
  {
    var a := MirrorHorizontal(MirrorVertical(pts, center), center);
    var b := MirrorVertical(MirrorHorizontal(pts, center), center);
    assert forall i :: 0 <= i < |a| ==> a[i] == b[i];
  }

  /** Rotation angle in tenths of a degree, as the point rotation expects it. */
  function QuarterTurn(counterClockwise: bool): int
  {
    if counterClockwise then -900 else 900
  }

  /**
    Rotates every vertex a quarter turn about `center`. The per-point
    rotation is the external `rotatePoint(point, center, angle)`.
   */
  function Rotate(pts: seq<Point>, center: Point, counterClockwise: bool,
                  rotatePoint: (Point, Point, int) -> Point): (r: seq<Point>)
    ensures |r| == |pts|
    ensures forall i :: 0 <= i < |r| ==>
      r[i] == rotatePoint(pts[i], center, QuarterTurn(counterClockwise))
    decreases |pts|
  {
    if |pts| == 0 then []
    else [rotatePoint(pts[0], center, QuarterTurn(counterClockwise))]
         + Rotate(pts[1..], center, counterClockwise, rotatePoint)
  }

  /**
    Rotating counter-clockwise then clockwise restores the vertices
    whenever the two point rotations undo each other.
   */
  lemma RotateRoundTrip(pts: seq<Point>, center: Point, rotatePoint: (Point, Point, int) -> Point)
    requires forall q :: rotatePoint(rotatePoint(q, center, -900), center, 900) == q
    ensures Rotate(Rotate(pts, center, true, rotatePoint), center, false, rotatePoint) == pts
  {
    var r := Rotate(Rotate(pts, center, true, rotatePoint), center, false, rotatePoint);
    assert forall i :: 0 <= i < |r| ==> r[i] == pts[i];
  }
}
