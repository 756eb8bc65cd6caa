/**
  Whole gestures: a BeginEdit, any stream of cursor events, then EndEdit.
  What each kind of gesture guarantees about the vertex list, whatever
  the cursor does, plus a few worked examples.
 */
module Gestures {
  import opened Geometry
  import opened Polyline
  import Transforms
  import Corners
  import opened EditSession

  /** An event while drawing: a click (ContinueEdit) or a cursor motion (CalcEdit). */
  datatype DrawEvent = Click(pos: Point) | Motion(pos: Point)

  /** No edge of `pts` has zero length. */
  ghost predicate NoZeroEdge(pts: seq<Point>)
  {
    forall j :: 0 <= j && j + 1 < |pts| ==> pts[j] != pts[j + 1]
  }

  /** No edge of `pts` has zero length, except perhaps the last, still pending one. */
  ghost predicate ConfirmedEdgesNonZero(pts: seq<Point>)
  {
    forall j :: 0 <= j && j + 2 < |pts| ==> pts[j] != pts[j + 1]
  }

  /**
    Replays drawing events on a shape being drawn. The shape keeps at
    least its vertex count, and every vertex but the pending last one is
    left exactly as it was.
   */
  function Draw(ed: Editor, events: seq<DrawEvent>): (r: Editor)
    requires ed.edit.mode.New? && |ed.line.points| >= 2
    ensures r.edit == ed.edit
    ensures |r.line.points| >= |ed.line.points|
    ensures r.line.points[..|ed.line.points| - 1] == ed.line.points[..|ed.line.points| - 1]
    ensures ConfirmedEdgesNonZero(ed.line.points) ==> ConfirmedEdgesNonZero(r.line.points)
    decreases |events|
  {
    if |events| == 0 then ed
    else
      var next := match events[0]
        case Click(q) => ContinueEdit(ed, q).0
        case Motion(q) => CalcEdit(ed, q);
      DrawStepKeepsConfirmedEdges(ed.line.points, next.line.points);
      var r := Draw(next, events[1..]);
      var n := |ed.line.points|;
      assert r.line.points[..n - 1] == r.line.points[..|next.line.points| - 1][..n - 1];
      r
  }

  /**
    One drawing step either keeps every vertex but the pending last one,
    or confirms the pending edge (of non-zero length) by appending a
    vertex; either way no confirmed edge has zero length afterwards.
   */
  lemma DrawStepKeepsConfirmedEdges(pts: seq<Point>, next: seq<Point>)
    requires |pts| >= 2
    requires (|next| == |pts| && next[..|pts| - 1] == pts[..|pts| - 1])
          || (pts[|pts| - 2] != pts[|pts| - 1] && |next| == |pts| + 1 && next[..|pts|] == pts)
    ensures ConfirmedEdgesNonZero(pts) ==> ConfirmedEdgesNonZero(next)
  {
    var n := |pts|;
    if ConfirmedEdgesNonZero(pts) {
      forall j | 0 <= j && j + 2 < |next|
        ensures next[j] != next[j + 1]
      {
        if |next| == n {
          assert next[j] == next[..n - 1][j] && next[j + 1] == next[..n - 1][j + 1];
        } else {
          assert next[j] == next[..n][j] && next[j + 1] == next[..n][j + 1];
        }
      }
    }
  }

  /**
    Drawing a shape from scratch ends with at least two vertices, the
    first of which is where the gesture began; vertices that existed
    before the gesture are kept in front.
   */
  lemma DrawingKeepsTwoVertices(ed: Editor, start: Point, events: seq<DrawEvent>, last: Point)
    ensures var drawn := Draw(BeginEdit(ed, New, start), events);
      var r := EndEdit(drawn, last);
      && |r.line.points| >= 2
      && r.line.points[..|ed.line.points| + 1] == ed.line.points + [start]
  {
    hide NearestDragTarget, SquaredLength;
    var begun := BeginEdit(ed, New, start);
    var drawn := Draw(begun, events);
    var r := EndEdit(drawn, last);
    var n := |ed.line.points|;
    assert begun.line.points[..n + 1] == ed.line.points + [start];
    assert r.line.points[..n + 1] == drawn.line.points[..n + 1];
  }

  /**
    Drawing keeps the rule the source states as "do not add zero length
    segments": once EndEdit has dropped a repeated last point, a drawn
    shape of more than two vertices has no zero-length edge. Vertices
    that existed before the gesture must themselves form such a chain,
    ending away from the start point.
   */
  lemma DrawingLeavesNoZeroEdge(ed: Editor, start: Point, events: seq<DrawEvent>, last: Point)
    requires NoZeroEdge(ed.line.points + [start])
    ensures var drawn := Draw(BeginEdit(ed, New, start), events);
      |drawn.line.points| > 2 ==> NoZeroEdge(EndEdit(drawn, last).line.points)
  {
    hide NearestDragTarget, SquaredLength;
    var begun := BeginEdit(ed, New, start);
    var pts := ed.line.points + [start];
    assert begun.line.points == pts + [start];
    assert ConfirmedEdgesNonZero(begun.line.points) by {
      forall j | 0 <= j && j + 2 < |begun.line.points|
        ensures begun.line.points[j] != begun.line.points[j + 1]
      {
        assert begun.line.points[j] == pts[j] && begun.line.points[j + 1] == pts[j + 1];
      }
    }
    var drawn := Draw(begun, events);
    var q := drawn.line.points;
    var r := EndEdit(drawn, last).line.points;
    if |q| > 2 {
      forall j | 0 <= j && j + 1 < |r|
        ensures r[j] != r[j + 1]
      {
        assert r[j] == q[j] && r[j + 1] == q[j + 1];
      }
    }
  }

  /**
    `r` is `ed` after at least one resize motion that ended at `last`: the
    index is now a real vertex index holding `last`, the pending
    insertion (if any) has happened exactly once, and every vertex other
    than the dragged one is unchanged and in its original order.
   */
  ghost predicate Dragged(ed: Editor, r: Editor, last: Point)
  {
    && r.edit.mode.Resized?
    && 0 <= r.edit.modifyIndex < |r.line.points|
    && r.edit.modifyIndex == Abs(ed.edit.modifyIndex)
    && r.line.points[r.edit.modifyIndex] == last
    && (ed.edit.modifyIndex < 0 ==>
          && |r.line.points| == |ed.line.points| + 1
          && Corners.RemoveCorner(r.line.points, r.edit.modifyIndex) == ed.line.points)
    && (ed.edit.modifyIndex >= 0 ==>
          && ed.edit.modifyIndex < |ed.line.points|
          && |r.line.points| == |ed.line.points|
          && Corners.RemoveCorner(r.line.points, r.edit.modifyIndex)
             == Corners.RemoveCorner(ed.line.points, ed.edit.modifyIndex))
  }

  /** Two resize stretches in a row make one: the second starts from a real vertex index. */
  lemma DraggedTwice(ed: Editor, mid: Editor, r: Editor, last: Point, q: Point)
    requires Dragged(ed, mid, q) && Dragged(mid, r, last)
    ensures Dragged(ed, r, last)
  {
  }

  /**
    Replays cursor motions on a resize. After the first motion the
    result is `Dragged` from the start, ending at the last cursor.
   */
  function Drag(ed: Editor, cursors: seq<Point>): (r: Editor)
    requires ed.edit.mode.Resized? && CanCalc(ed)
    ensures r.edit.mode.Resized? && CanCalc(r)
    ensures |cursors| == 0 ==> r == ed
    ensures |cursors| > 0 ==> Dragged(ed, r, cursors[|cursors| - 1])
    decreases |cursors|
  {
    if |cursors| == 0 then ed
    else
      var next := CalcEdit(ed, cursors[0]);
      assert Dragged(ed, next, cursors[0]);
      var r := Drag(next, cursors[1..]);
      if |cursors| == 1 then r
      else DraggedTwice(ed, next, r, cursors[|cursors| - 1], cursors[0]); r
  }

  /**
    A resize drag on a shape of at least two vertices, however the cursor
    moves, ends with at least two vertices and with at most one vertex
    added and at most one removed.
   */
  lemma ResizeKeepsTwoVertices(ed: Editor, grab: Point, cursors: seq<Point>, last: Point)
    requires |ed.line.points| >= 2 && |cursors| >= 1
    ensures var dragged := Drag(BeginEdit(ed, Resized, grab), cursors);
      && CanEnd(dragged)
      && |ed.line.points| - 1 <= |EndEdit(dragged, last).line.points| <= |ed.line.points| + 1
      && |EndEdit(dragged, last).line.points| >= 2
  {
  }

  /** Every edge of `pts` that does not touch vertex `i` has non-zero length. */
  ghost predicate NonZeroAwayFrom(pts: seq<Point>, i: int)
  {
    forall j :: 0 <= j && j + 1 < |pts| && j != i && j + 1 != i ==> pts[j] != pts[j + 1]
  }

  /**
    A resize touches only the edges at the dragged vertex: if the shape
    had no zero-length edge, every edge away from the dragged vertex
    still has non-zero length.
   */
  lemma DraggedKeepsOtherEdges(ed: Editor, r: Editor, last: Point)
    requires Dragged(ed, r, last) && NoZeroEdge(ed.line.points)
    ensures NonZeroAwayFrom(r.line.points, r.edit.modifyIndex)
  {
    var e := ed.line.points;
    var q := r.line.points;
    var i := r.edit.modifyIndex;
    var rest := Corners.RemoveCorner(q, i);
    forall j | 0 <= j && j + 1 < |q| && j != i && j + 1 != i
      ensures q[j] != q[j + 1]
    {
      if j + 1 < i {
        assert q[j] == rest[..i][j] && q[j + 1] == rest[..i][j + 1];
      } else {
        assert q[j] == rest[i..][j - 1 - i] && q[j + 1] == rest[i..][j - i];
      }
      if ed.edit.modifyIndex >= 0 {
        var other := Corners.RemoveCorner(e, i);
        if j + 1 < i {
          assert e[j] == other[..i][j] && e[j + 1] == other[..i][j + 1];
        } else {
          assert e[j] == other[i..][j - 1 - i] && e[j + 1] == other[i..][j - i];
        }
      }
    }
  }

  /**
    EndEdit after a resize, when the edges away from the dragged vertex
    `i` have non-zero length: the result has no zero-length edge exactly
    unless `i` is an inner vertex lying on both of its neighbours. In that
    case erasing `i` joins the two coinciding neighbours into a new
    zero-length edge, so the rule "no zero-length edge after an edit"
    does not hold for resizing.
   */
  lemma ResizeEndEdgeRule(ed: Editor, last: Point)
    requires ed.edit.mode.Resized?
    requires var n := |ed.line.points|; n > 2 && 0 <= ed.edit.modifyIndex < n
    requires NonZeroAwayFrom(ed.line.points, ed.edit.modifyIndex)
    ensures var pts := ed.line.points; var i := ed.edit.modifyIndex;
      NoZeroEdge(EndEdit(ed, last).line.points)
      <==> !(0 < i < |pts| - 1 && pts[i - 1] == pts[i] && pts[i] == pts[i + 1])
  {
    var pts := ed.line.points;
    var i := ed.edit.modifyIndex;
    var r := EndEdit(ed, last).line.points;
    if 0 < i < |pts| - 1 && pts[i - 1] == pts[i] && pts[i] == pts[i + 1] {
      assert r[i - 1] == r[..i][i - 1] == pts[i - 1];
      assert r[i] == r[i..][0] == pts[i + 1];
    } else if DuplicatesNeighbour(pts, i) {
      forall j | 0 <= j && j + 1 < |r|
        ensures r[j] != r[j + 1]
      {
        if j + 1 < i {
          assert r[j] == r[..i][j] && r[j + 1] == r[..i][j + 1];
        } else if j >= i {
          assert r[j] == r[i..][j - i] && r[j + 1] == r[i..][j + 1 - i];
        } else {
          assert r[j] == r[..i][j] && r[j + 1] == r[i..][0];
        }
      }
    }
  }

  /**
    A whole resize gesture on a shape with no zero-length edge: the
    result of EndEdit has none exactly unless the dragged vertex ended
    as an inner vertex on two coinciding neighbours.
   */
  lemma ResizeLeavesZeroEdgeOnlyBetweenMeetingNeighbours(ed: Editor, grab: Point, cursors: seq<Point>, last: Point)
    requires |ed.line.points| >= 2 && |cursors| >= 1
    requires NoZeroEdge(ed.line.points)
    ensures var dragged := Drag(BeginEdit(ed, Resized, grab), cursors);
      var pts := dragged.line.points; var i := dragged.edit.modifyIndex;
      |pts| > 2 ==>
        (NoZeroEdge(EndEdit(dragged, last).line.points)
         <==> !(0 < i < |pts| - 1 && pts[i - 1] == pts[i] && pts[i] == pts[i + 1]))
  {
    hide SquaredLength, NearestDragTarget, FirstMinSlot, BeginEdit, Drag;
    var begun := BeginEdit(ed, Resized, grab);
    var dragged := Drag(begun, cursors);
    DraggedKeepsOtherEdges(begun, dragged, cursors[|cursors| - 1]);
    if |dragged.line.points| > 2 {
      ResizeEndEdgeRule(dragged, last);
    }
  }

  /** Replays cursor motions on a whole-shape move. */
  function Follow(ed: Editor, cursors: seq<Point>): (r: Editor)
    requires ed.edit.mode.Moved? && |ed.line.points| >= 1
    ensures r.edit == ed.edit && |r.line.points| == |ed.line.points|
    ensures |cursors| > 0 ==>
      r.line.points == Transforms.MoveTo(ed.line.points,
                                         Add(ed.edit.initialPos, Sub(cursors[|cursors| - 1], ed.edit.initialCursorPos)))
    decreases |cursors|
  {
    if |cursors| == 0 then ed
    else
      var next := CalcEdit(ed, cursors[0]);
      var r := Follow(next, cursors[1..]);
      Transforms.MoveToOverrides(ed.line.points,
        Add(ed.edit.initialPos, Sub(cursors[0], ed.edit.initialCursorPos)),
        Add(ed.edit.initialPos, Sub(cursors[|cursors| - 1], ed.edit.initialCursorPos)));
      r
  }

  /**
    A move gesture translates the shape by exactly the cursor's
    displacement from where the gesture began to where it is now;
    intermediate positions leave no trace.
   */
  lemma MoveTranslatesByCursorDisplacement(ed: Editor, start: Point, cursors: seq<Point>)
    requires |ed.line.points| >= 1 && |cursors| >= 1
    ensures Follow(BeginEdit(ed, Moved, start), cursors).line.points
         == Transforms.Offset(ed.line.points, Sub(cursors[|cursors| - 1], start))
  {
    hide NearestDragTarget, SquaredLength, Follow, Transforms.MoveTo, Transforms.Offset;
    var pts := ed.line.points;
    var v := Sub(cursors[|cursors| - 1], start);
    var begun := BeginEdit(ed, Moved, start);
    assert begun.edit.initialPos == pts[0] && begun.edit.initialCursorPos == start && begun.line.points == pts;
    assert Follow(begun, cursors).line.points == Transforms.MoveTo(pts, Add(pts[0], v));
    Transforms.MoveToIsOffset(pts, v);
  }

  // ---------------------------------------------------------------------
  // Worked examples.
  // ---------------------------------------------------------------------

  /**
    Drawing one edge from (0,0) to (10,0) and finishing with a double
    click: the second click is refused as a zero-length edge and EndEdit
    drops the repeated end point.
   */
  lemma DrawOneEdgeExample()
    ensures var e1 := BeginEdit(Start, New, Point(0, 0));
      var e2 := CalcEdit(e1, Point(10, 0));
      var c3 := ContinueEdit(e2, Point(10, 0));
      var c4 := ContinueEdit(c3.0, Point(10, 0));
      && e1.line.points == [Point(0, 0), Point(0, 0)]
      && e2.line.points == [Point(0, 0), Point(10, 0)]
      && c3.1 && c3.0.line.points == [Point(0, 0), Point(10, 0), Point(10, 0)]
      && c4.1 && c4.0.line.points == c3.0.line.points
      && EndEdit(c4.0, Point(10, 0)).line.points == [Point(0, 0), Point(10, 0)]
  {
  }

  /** Every slot before vertex `i` scores above 0 for a cursor on that vertex, when no earlier vertex sits there. */
  lemma {:induction false} EarlierSlotsScorePositive(pts: seq<Point>, i: nat)
    requires i < |pts|
    requires forall j :: 0 <= j < i ==> pts[j] != pts[i]
    ensures forall j :: 0 <= j < 2 * i ==> SlotScore(pts, pts[i], j) > 0
  {
    hide SquaredLength;
    var p := pts[i];
    forall j | 0 <= j < 2 * i
      ensures SlotScore(pts, p, j) > 0
    {
      var v := j / 2;
      SlotsOfVertex(pts, p, v);
      if j % 2 == 0 {
        assert j == 2 * v;
        assert Sub(p, pts[v]) != Point(0, 0);
      } else {
        assert j == 2 * v + 1;
      }
    }
  }

  /**
    A cursor right on a vertex grabs that vertex, unless an earlier vertex
    sits at the same spot: its own score is 0, and every earlier slot
    scores more (an earlier midpoint at least 1).
   */
  lemma {:induction false} CursorOnVertexGrabsIt(pts: seq<Point>, i: nat)
    requires i < |pts|
    requires forall j :: 0 <= j < i ==> pts[j] != pts[i]
    ensures NearestDragTarget(pts, pts[i]) == DragTarget(i, pts[i])
  {
    hide SquaredLength;
    var p := pts[i];
    SlotScoresNonNegative(pts, p);
    SlotsOfVertex(pts, p, i);
    assert Sub(p, pts[i]) == Point(0, 0);
    assert SlotScore(pts, p, 2 * i) == 0;
    EarlierSlotsScorePositive(pts, i);
    assert IsFirstMinSlot(pts, p, 2 * i);
    TargetOfFirstMinSlot(pts, p, 2 * i);
  }

  /**
    Grabbing vertex `i` with the cursor right on it (no earlier twin) and
    dragging it to `q` gives a real index `i` and only vertex `i` moved.
   */
  lemma {:induction false} GrabAndDragVertex(ed: Editor, i: nat, q: Point)
    requires i < |ed.line.points|
    requires forall j :: 0 <= j < i ==> ed.line.points[j] != ed.line.points[i]
    ensures var e1 := BeginEdit(ed, Resized, ed.line.points[i]);
      && e1.edit.modifyIndex == i
      && CalcEdit(e1, q).edit.modifyIndex == i
      && CalcEdit(e1, q).line.points == ed.line.points[i := q]
  {
    hide SquaredLength;
    CursorOnVertexGrabsIt(ed.line.points, i);
  }

  /**
    On the L shape (0,0)-(10,0)-(10,10), grabbing the corner (10,0) and
    dropping it on (0,0) leaves a zero-length edge, which EndEdit removes
    together with the dragged vertex.
   */
  lemma {:induction false} CollapseCornerExample(ed: Editor)
    requires |ed.line.points| == 3
    requires ed.line.points[0] == Point(0, 0) && ed.line.points[1] == Point(10, 0)
    requires ed.line.points[2] == Point(10, 10)
    ensures var e1 := BeginEdit(ed, Resized, Point(10, 0));
      && e1.edit.modifyIndex == 1
      && CalcEdit(e1, Point(0, 0)).line.points == [Point(0, 0), Point(0, 0), Point(10, 10)]
      && EndEdit(CalcEdit(e1, Point(0, 0)), Point(0, 0)).line.points == [Point(0, 0), Point(10, 10)]
  {
    hide SquaredLength, NearestDragTarget, BeginEdit;
    GrabAndDragVertex(ed, 1, Point(0, 0));
    var e2 := CalcEdit(BeginEdit(ed, Resized, Point(10, 0)), Point(0, 0));
    assert e2.line.points == [Point(0, 0), Point(0, 0), Point(10, 10)];
    assert DuplicatesNeighbour(e2.line.points, 1);
  }

  /** The shape (0,0)-(5,5)-(0,0)-(9,9) has no zero-length edge. */
  lemma ZigzagHasNoZeroEdge(pts: seq<Point>)
    requires |pts| == 4
    requires pts[0] == Point(0, 0) && pts[1] == Point(5, 5) && pts[2] == Point(0, 0) && pts[3] == Point(9, 9)
    ensures NoZeroEdge(pts)
  {
    forall j | 0 <= j && j + 1 < |pts|
      ensures pts[j] != pts[j + 1]
    {
      assert j == 0 || j == 1 || j == 2;
    }
  }

  /**
    On (0,0)-(5,5)-(0,0)-(9,9), which has no zero-length edge (see
    `ZigzagHasNoZeroEdge`), grabbing
    (5,5) and dropping it on (0,0) puts it on both neighbours. EndEdit
    erases it and leaves the zero-length edge (0,0)-(0,0).
   */
  lemma {:induction false} ResizeLeavesZeroEdgeExample(ed: Editor)
    requires |ed.line.points| == 4
    requires ed.line.points[0] == Point(0, 0) && ed.line.points[1] == Point(5, 5)
    requires ed.line.points[2] == Point(0, 0) && ed.line.points[3] == Point(9, 9)
    ensures var e1 := BeginEdit(ed, Resized, Point(5, 5));
      && e1.edit.modifyIndex == 1
      && EndEdit(CalcEdit(e1, Point(0, 0)), Point(0, 0)).line.points == [Point(0, 0), Point(0, 0), Point(9, 9)]
      && !NoZeroEdge(EndEdit(CalcEdit(e1, Point(0, 0)), Point(0, 0)).line.points)
  {
    hide SquaredLength, NearestDragTarget, BeginEdit;
    GrabAndDragVertex(ed, 1, Point(0, 0));
    var e2 := CalcEdit(BeginEdit(ed, Resized, Point(5, 5)), Point(0, 0));
    assert e2.edit.mode.Resized? && e2.edit.modifyIndex == 1;
    assert e2.line.points == [Point(0, 0), Point(0, 0), Point(0, 0), Point(9, 9)];
    hide CalcEdit;
    assert DuplicatesNeighbour(e2.line.points, 1);
    var r := EndEdit(e2, Point(0, 0)).line.points;
    assert r == Corners.RemoveCorner(e2.line.points, 1);
    assert r == [Point(0, 0), Point(0, 0), Point(9, 9)];
    assert r[0] == r[1];
  }

  /**
    EndEdit never erases a vertex of a two-vertex shape, so such a shape
    keeps a zero-length edge: a drawing ended where it began stays as two
    copies of the start point.
   */
  lemma DrawingEndedAtStartKeepsZeroEdge(s: Point, last: Point)
    ensures var r := EndEdit(BeginEdit(Start, New, s), last).line.points;
      r == [s, s] && !NoZeroEdge(r)
  {
    hide NearestDragTarget, SquaredLength;
    var r := EndEdit(BeginEdit(Start, New, s), last).line.points;
    assert r == [s, s];
    assert r[0] == r[1];
  }

  /**
    On a single edge, dragging either end onto the other leaves two
    copies of that point: with only two vertices EndEdit erases nothing,
    although the dragged vertex is not an inner one, so the zero-length
    edge stays. (`GrabAndDragVertex` shows how a grab reaches such a state.)
   */
  lemma TwoVertexResizeKeepsZeroEdge(ed: Editor, last: Point)
    requires ed.edit.mode.Resized? && |ed.line.points| == 2 && 0 <= ed.edit.modifyIndex < 2
    ensures var a := ed.line.points[1 - ed.edit.modifyIndex];
      var r := EndEdit(CalcEdit(ed, a), last).line.points;
      r == [a, a] && !NoZeroEdge(r)
  {
    var a := ed.line.points[1 - ed.edit.modifyIndex];
    var r := EndEdit(CalcEdit(ed, a), last).line.points;
    assert r == [a, a];
    assert r[0] == r[1];
  }
}
