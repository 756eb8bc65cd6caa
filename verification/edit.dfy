/**
  The interactive edit session of a polyline: BeginEdit, ContinueEdit,
  CalcEdit and EndEdit, threaded through an immutable editor value.

  Modes: `New` while the shape is being drawn, `Resized` while one vertex
  is dragged (or a new one, pending insertion, pulled out of an edge),
  `Moved` while the whole shape follows the cursor. A pending insertion
  is encoded, as in the program, by a negated vertex index.
 */
module EditSession {
  import opened Geometry
  import opened Polyline
  import Transforms
  import Corners

  datatype EditMode = Idle | New | Resized | Moved

  /**
    The edit bookkeeping of the shape: the active mode, the index of the
    dragged vertex (negated for "insert a vertex before this index"), the
    dragged vertex's position when the gesture began, and the cursor
    position when a move began.
   */
  datatype EditState = EditState(mode: EditMode, modifyIndex: int, initialPos: Point, initialCursorPos: Point)

  /** A shape together with its edit bookkeeping. */
  datatype Editor = Editor(line: Polyline, edit: EditState)

  /** A freshly constructed shape: no vertices, no gesture, index 0. */
  const Start: Editor := Editor(Empty, EditState(Idle, 0, Point(0, 0), Point(0, 0)))

  // ---------------------------------------------------------------------
  // Choosing what a resize drag grabs.
  //
  // The scan visits, for every vertex i in order, first the vertex itself
  // and then the midpoint of the edge ending at it. Candidate "slot" 2i is
  // vertex i, slot 2i+1 the midpoint of the edge (i-1, i); for i = 0 that
  // "edge" is vertex 0 with itself.
  // ---------------------------------------------------------------------

  /** Squared distance from the cursor `p` to vertex `i`. */
  function VertexScore(pts: seq<Point>, p: Point, i: nat): int
    requires i < |pts|
  {
    SquaredLength(Sub(p, pts[i]))
  }

  /**
    Score of the midpoint of the edge ending at vertex `i`: the squared
    distance from `p` to that midpoint (computed on doubled coordinates
    and divided by four, rounding down) plus one, so that on a tie the
    existing vertex is preferred.
   */
  function MidpointScore(pts: seq<Point>, p: Point, i: nat): int
    requires i < |pts|
  {
    var prev := if i == 0 then pts[0] else pts[i - 1];
    SquaredLength(Sub(Sub(Add(p, p), pts[i]), prev)) / 4 + 1
  }

  function SlotScore(pts: seq<Point>, p: Point, k: nat): int
    requires k < 2 * |pts|
  {
    if k % 2 == 0 then VertexScore(pts, p, k / 2) else MidpointScore(pts, p, k / 2)
  }

  /** The edit index a slot stands for: the vertex index, or the negated index for a midpoint. */
  function SlotModifyIndex(k: nat): int
  {
    if k % 2 == 0 then k / 2 else -(k / 2)
  }

  /** Slot `k` has the smallest score of all, and no earlier slot ties with it. */
  ghost predicate IsFirstMinSlot(pts: seq<Point>, p: Point, k: nat)
  {
    && k < 2 * |pts|
    && (forall j :: 0 <= j < 2 * |pts| ==> SlotScore(pts, p, k) <= SlotScore(pts, p, j))
    && (forall j :: 0 <= j < k ==> SlotScore(pts, p, j) > SlotScore(pts, p, k))
  }

  /** At most one slot is the first minimum. */
  lemma FirstMinSlotUnique(pts: seq<Point>, p: Point, k1: nat, k2: nat)
    requires IsFirstMinSlot(pts, p, k1) && IsFirstMinSlot(pts, p, k2)
    ensures k1 == k2
  {
    assert SlotScore(pts, p, k1) <= SlotScore(pts, p, k2);
    assert SlotScore(pts, p, k2) <= SlotScore(pts, p, k1);
  }

  /** The two slots of vertex `i`, decoded. */
  lemma SlotsOfVertex(pts: seq<Point>, p: Point, i: nat)
    requires i < |pts|
    ensures SlotScore(pts, p, 2 * i) == VertexScore(pts, p, i)
    ensures SlotScore(pts, p, 2 * i + 1) == MidpointScore(pts, p, i)
    ensures SlotModifyIndex(2 * i) == i && SlotModifyIndex(2 * i + 1) == -(i as int)
    ensures (2 * i) / 2 == i && (2 * i + 1) / 2 == i
  {
  }

  /** Vertex slots score at least 0, midpoint slots at least 1. */
  lemma SlotScoresNonNegative(pts: seq<Point>, p: Point)
    ensures forall k :: 0 <= k < 2 * |pts| ==> SlotScore(pts, p, k) >= 0
  {
  }

  /** Reference definition: the first slot among the first `m` with the least score. */
  function FirstMinSlot(pts: seq<Point>, p: Point, m: nat): (k: nat)
    requires 1 <= m <= 2 * |pts|
    ensures k < m
    ensures forall j :: 0 <= j < m ==> SlotScore(pts, p, k) <= SlotScore(pts, p, j)
    ensures forall j :: 0 <= j < k ==> SlotScore(pts, p, j) > SlotScore(pts, p, k)
    decreases m
  {
    if m == 1 then 0
    else
      var k := FirstMinSlot(pts, p, m - 1);
      if SlotScore(pts, p, m - 1) < SlotScore(pts, p, k) then m - 1 else k
  }

  /**
    The scan's running state after the first `m` slots: the first slot
    with the least score so far, its score, and the edit index and vertex
    it stands for.
   */
  ghost predicate Scanned(pts: seq<Point>, p: Point, m: nat, best: nat,
                          distanceMin: int, modifyIndex: int, initialPos: Point)
  {
    && 1 <= m <= 2 * |pts|
    && best == FirstMinSlot(pts, p, m)
    && distanceMin == SlotScore(pts, p, best)
    && modifyIndex == SlotModifyIndex(best)
    && initialPos == pts[best / 2]
  }

  /** Scanning vertex `i` itself: it takes over only with a strictly smaller score. */
  lemma VertexStep(pts: seq<Point>, p: Point, i: nat, best: nat, distanceMin: int, modifyIndex: int, initialPos: Point)
    requires i < |pts|
    requires Scanned(pts, p, if i == 0 then 1 else 2 * i, best, distanceMin, modifyIndex, initialPos)
    ensures VertexScore(pts, p, i) < distanceMin ==>
      Scanned(pts, p, 2 * i + 1, 2 * i, VertexScore(pts, p, i), i, pts[i])
    ensures VertexScore(pts, p, i) >= distanceMin ==>
      Scanned(pts, p, 2 * i + 1, best, distanceMin, modifyIndex, initialPos)
  {
    hide SquaredLength;
    SlotsOfVertex(pts, p, i);
  }

  /** Scanning the midpoint of the edge ending at vertex `i`, right after the vertex. */
  lemma MidpointStep(pts: seq<Point>, p: Point, i: nat, best: nat, distanceMin: int, modifyIndex: int, initialPos: Point)
    requires i < |pts|
    requires Scanned(pts, p, 2 * i + 1, best, distanceMin, modifyIndex, initialPos)
    ensures MidpointScore(pts, p, i) < distanceMin ==>
      Scanned(pts, p, 2 * i + 2, 2 * i + 1, MidpointScore(pts, p, i), -(i as int), pts[i])
    ensures MidpointScore(pts, p, i) >= distanceMin ==>
      Scanned(pts, p, 2 * i + 2, best, distanceMin, modifyIndex, initialPos)
  {
    hide SquaredLength;
    SlotsOfVertex(pts, p, i);
  }

  /**
    The midpoint slot of vertex 0 never wins: it scores exactly one more
    than vertex 0, which comes first. So index 0 always means "drag
    vertex 0", never "insert before vertex 0".
   */
  lemma MidpointOfFirstVertexNeverWins(pts: seq<Point>, p: Point)
    requires |pts| >= 1
    ensures SlotScore(pts, p, 1) == SlotScore(pts, p, 0) + 1
    ensures FirstMinSlot(pts, p, 2 * |pts|) != 1
  {
    var d := Sub(p, pts[0]);
    assert Sub(Sub(Add(p, p), pts[0]), pts[0]) == Add(d, d);
    SquaredLengthOfDouble(d);
  }

  /** What a resize drag grabs: the edit index (negated for a pending insertion) and the grabbed vertex. */
  datatype DragTarget = DragTarget(modifyIndex: int, initialPos: Point)

  /**
    The drag target for cursor `p`: the nearest vertex or edge midpoint,
    the first one in scan order on a tie. A non-negative index grabs that
    vertex; a negative index -i asks for a new vertex before vertex i.
    `NearestIsFirstMinSlot` states which slot it is.
   */
  function NearestDragTarget(pts: seq<Point>, p: Point): (t: DragTarget)
    requires |pts| >= 1
    ensures -(|pts| - 1) <= t.modifyIndex <= |pts| - 1
    ensures t.initialPos == pts[Abs(t.modifyIndex)]
  {
    var k := FirstMinSlot(pts, p, 2 * |pts|);
    DragTarget(SlotModifyIndex(k), pts[k / 2])
  }

  /**
    The drag target is the first nearest slot: a non-negative index names
    the vertex slot, a negative index the midpoint slot of that vertex,
    and no other slot scores lower or ties earlier.
   */
  lemma NearestIsFirstMinSlot(pts: seq<Point>, p: Point)
    requires |pts| >= 1
    ensures var t := NearestDragTarget(pts, p);
      && (t.modifyIndex >= 0 ==> IsFirstMinSlot(pts, p, 2 * t.modifyIndex))
      && (t.modifyIndex < 0 ==> IsFirstMinSlot(pts, p, 2 * -t.modifyIndex + 1))
  {
    hide SquaredLength;
    var k := FirstMinSlot(pts, p, 2 * |pts|);
    MidpointOfFirstVertexNeverWins(pts, p);
    assert IsFirstMinSlot(pts, p, k);
    assert k == if k % 2 == 0 then 2 * (k / 2) else 2 * (k / 2) + 1;
  }

  /** Whatever slot is the first minimum decides the drag target. */
  lemma TargetOfFirstMinSlot(pts: seq<Point>, p: Point, k: nat)
    requires |pts| >= 1 && IsFirstMinSlot(pts, p, k)
    ensures NearestDragTarget(pts, p) == DragTarget(SlotModifyIndex(k), pts[k / 2])
  {
    FirstMinSlotUnique(pts, p, k, FirstMinSlot(pts, p, 2 * |pts|));
  }

  /**
    The scan as the program runs it: one pass over the vertices keeping
    the running minimum, replaced only by a strictly smaller score.
   */
  method FindDragTarget(pts: seq<Point>, p: Point) returns (modifyIndex: int, initialPos: Point)
    requires |pts| >= 1
    ensures DragTarget(modifyIndex, initialPos) == NearestDragTarget(pts, p)
    ensures -(|pts| - 1) <= modifyIndex <= |pts| - 1
  {
    hide SquaredLength, FirstMinSlot;
    var startPoint := pts[0];
    var index := 0;
    modifyIndex := 0;
    initialPos := startPoint;
    var distanceMin := SquaredLength(Sub(p, startPoint));
    var prevPoint := startPoint;
    ghost var best: nat := 0;
    while index < |pts|
      invariant 0 <= index <= |pts|
      invariant prevPoint == pts[if index == 0 then 0 else index - 1]
      invariant Scanned(pts, p, if index == 0 then 1 else 2 * index, best, distanceMin, modifyIndex, initialPos)
    {
      VertexStep(pts, p, index, best, distanceMin, modifyIndex, initialPos);
      var point := pts[index];
      var distancePoint := SquaredLength(Sub(p, point));
      if distancePoint < distanceMin {
        initialPos := point;
        modifyIndex := index;
        distanceMin := distancePoint;
        best := 2 * index;
      }
      MidpointStep(pts, p, index, best, distanceMin, modifyIndex, initialPos);
      var offset := Sub(Sub(Add(p, p), point), prevPoint);
      distancePoint := SquaredLength(offset) / 4 + 1;
      if distancePoint < distanceMin {
        initialPos := point;
        modifyIndex := -index;
        distanceMin := distancePoint;
        best := 2 * index + 1;
      }
      prevPoint := point;
      index := index + 1;
    }
    MidpointOfFirstVertexNeverWins(pts, p);
  }

  // ---------------------------------------------------------------------
  // The four edit entry points.
  // ---------------------------------------------------------------------

  /**
    Starts a gesture in `mode` at cursor `pos`. New: seed the first edge
    with two copies of `pos`. Resized: pick the drag target. Moved:
    remember the cursor and the first vertex.
   */
  function BeginEdit(ed: Editor, mode: EditMode, pos: Point): (r: Editor)
    requires mode.Resized? || mode.Moved? ==> |ed.line.points| >= 1
    ensures r.edit.mode == mode
    ensures r.line.width == ed.line.width && r.line.fill == ed.line.fill
    ensures mode.New? ==> r.line.points == ed.line.points + [pos, pos]
    ensures mode.New? ==>
      && r.edit.modifyIndex == ed.edit.modifyIndex
      && r.edit.initialPos == ed.edit.initialPos
      && r.edit.initialCursorPos == ed.edit.initialCursorPos
    ensures !mode.New? ==> r.line.points == ed.line.points
    ensures mode.Resized? ==>
      DragTarget(r.edit.modifyIndex, r.edit.initialPos) == NearestDragTarget(ed.line.points, pos)
    ensures mode.Resized? ==> r.edit.initialCursorPos == ed.edit.initialCursorPos
    ensures mode.Moved? ==>
      r.edit.initialCursorPos == pos && r.edit.initialPos == ed.line.points[0]
    ensures mode.Moved? ==> r.edit.modifyIndex == ed.edit.modifyIndex
    ensures mode.Idle? ==> r.edit == ed.edit.(mode := Idle)
  {
    var e := ed.edit.(mode := mode);
    match mode
    case New =>
      Editor(ed.line.(points := ed.line.points + [pos, pos]), e)
    case Resized =>
      var t := NearestDragTarget(ed.line.points, pos);
      Editor(ed.line, e.(modifyIndex := t.modifyIndex, initialPos := t.initialPos))
    case Moved =>
      Editor(ed.line, e.(initialCursorPos := pos, initialPos := ed.line.points[0]))
    case Idle =>
      Editor(ed.line, e)
  }

  /**
    A click while drawing. Only a shape being drawn accepts it (result
    true); it then appends `pos` as the end of a new edge, unless the
    pending edge has zero length.
   */
  function ContinueEdit(ed: Editor, pos: Point): (r: (Editor, bool))
    requires ed.edit.mode.New? ==> |ed.line.points| >= 2
    ensures r.1 <==> ed.edit.mode.New?
    ensures r.0.edit == ed.edit
    ensures r.0.line.width == ed.line.width && r.0.line.fill == ed.line.fill
    ensures var pts := ed.line.points; var n := |pts|;
      |r.0.line.points| == n + 1 <==> ed.edit.mode.New? && pts[n - 2] != pts[n - 1]
    ensures |r.0.line.points| == |ed.line.points| ==> r.0.line.points == ed.line.points
    ensures |r.0.line.points| > |ed.line.points| ==> r.0.line.points == Corners.AddPoint(ed.line.points, pos)
  {
    var pts := ed.line.points;
    if ed.edit.mode.New? then
      if pts[|pts| - 2] != pts[|pts| - 1] then (Editor(ed.line.(points := pts + [pos]), ed.edit), true)
      else (ed, true)
    else (ed, false)
  }

  /** CalcEdit may run: the vertex it writes, or the insertion point it uses, exists. */
  predicate CanCalc(ed: Editor)
  {
    var n := |ed.line.points|;
    match ed.edit.mode
    case New => n >= 1
    case Resized => -n <= ed.edit.modifyIndex < n
    case Moved => n >= 1
    case Idle => true
  }

  /**
    Follows the cursor. New: the end of the pending edge follows `pos`.
    Resized: the dragged vertex follows `pos`, after first inserting it
    if the drag grabbed an edge midpoint. Moved: the shape is translated
    by the cursor's displacement since BeginEdit.
   */
  function CalcEdit(ed: Editor, pos: Point): (r: Editor)
    requires CanCalc(ed)
    ensures r.edit.mode == ed.edit.mode && r.line.width == ed.line.width && r.line.fill == ed.line.fill
    ensures r.edit.initialPos == ed.edit.initialPos && r.edit.initialCursorPos == ed.edit.initialCursorPos
    ensures var pts := ed.line.points; var n := |pts|; ed.edit.mode.New? ==>
      |r.line.points| == n && r.line.points[n - 1] == pos && r.line.points[..n - 1] == pts[..n - 1]
    ensures ed.edit.mode.Resized? ==>
      && 0 <= r.edit.modifyIndex < |r.line.points|
      && r.line.points[r.edit.modifyIndex] == pos
      && r.edit.modifyIndex == Abs(ed.edit.modifyIndex)
      && |r.line.points| == |ed.line.points| + (if ed.edit.modifyIndex < 0 then 1 else 0)
      && Corners.RemoveCorner(r.line.points, r.edit.modifyIndex)
         == (if ed.edit.modifyIndex < 0 then ed.line.points
             else Corners.RemoveCorner(ed.line.points, ed.edit.modifyIndex))
    ensures ed.edit.mode.Moved? ==>
      Transforms.Translated(ed.line.points, r.line.points,
                            Sub(Add(ed.edit.initialPos, Sub(pos, ed.edit.initialCursorPos)), ed.line.points[0]))
      && r.line.points[0] == Add(ed.edit.initialPos, Sub(pos, ed.edit.initialCursorPos))
    ensures ed.edit.mode.Idle? ==> r == ed
  {
    var pts := ed.line.points;
    match ed.edit.mode
    case New =>
      Editor(ed.line.(points := pts[|pts| - 1 := pos]), ed.edit)
    case Resized =>
      if ed.edit.modifyIndex < 0 then
        var i := -ed.edit.modifyIndex;
        var inserted := Corners.InsertAt(pts, i, pos);
        Corners.RemoveUndoesInsert(pts, i, pos);
        Editor(ed.line.(points := inserted[i := pos]), ed.edit.(modifyIndex := i))
      else
        var i := ed.edit.modifyIndex;
        var r := pts[i := pos];
        assert r[..i] + r[i + 1..] == pts[..i] + pts[i + 1..];
        Editor(ed.line.(points := r), ed.edit)
    case Moved =>
      Editor(ed.line.(points := Transforms.MoveTo(pts, Add(ed.edit.initialPos, Sub(pos, ed.edit.initialCursorPos)))),
             ed.edit)
    case Idle =>
      ed
  }

  /** EndEdit may run: a resize that can delete a vertex has an actual (non-pending) vertex index. */
  predicate CanEnd(ed: Editor)
  {
    ed.edit.mode.Resized? && |ed.line.points| > 2 ==> 0 <= ed.edit.modifyIndex < |ed.line.points|
  }

  /** The dragged vertex `i` sits on top of one of its neighbours. */
  predicate DuplicatesNeighbour(pts: seq<Point>, i: int)
    requires 0 <= i < |pts|
  {
    (i > 0 && pts[i] == pts[i - 1]) || (i < |pts| - 1 && pts[i] == pts[i + 1])
  }

  /**
    Ends the gesture and removes the zero-length edge it may have left:
    a drawn shape drops a final vertex that repeats the one before it; a
    resize drops the dragged vertex if it landed on a neighbour. Neither
    ever removes one of the last two vertices.
   */
  function EndEdit(ed: Editor, pos: Point): (r: Editor)
    requires CanEnd(ed)
    ensures r.edit == ed.edit && r.line.width == ed.line.width && r.line.fill == ed.line.fill
    ensures |ed.line.points| - 1 <= |r.line.points| <= |ed.line.points|
    ensures |ed.line.points| >= 2 ==> |r.line.points| >= 2
    ensures var pts := ed.line.points; var n := |pts|; ed.edit.mode.New? ==>
      (|r.line.points| < n <==> n > 2 && pts[n - 2] == pts[n - 1])
      && r.line.points == pts[..|r.line.points|]
    ensures var pts := ed.line.points; var n := |pts|; ed.edit.mode.Resized? ==>
      (|r.line.points| < n <==> n > 2 && DuplicatesNeighbour(pts, ed.edit.modifyIndex))
      && (|r.line.points| < n ==> r.line.points == Corners.RemoveCorner(pts, ed.edit.modifyIndex))
    ensures ed.edit.mode.Idle? || ed.edit.mode.Moved? ==> r == ed
    ensures |r.line.points| == |ed.line.points| ==> r == ed
  {
    var pts := ed.line.points;
    var n := |pts|;
    if ed.edit.mode.New? && 2 < n && pts[n - 2] == pts[n - 1] then
      Editor(ed.line.(points := pts[..n - 1]), ed.edit)
    else if ed.edit.mode.Resized? && n > 2 && DuplicatesNeighbour(pts, ed.edit.modifyIndex) then
      Editor(ed.line.(points := Corners.RemoveCorner(pts, ed.edit.modifyIndex)), ed.edit)
    else
      ed
  }
}
