# LIB_POLYLINE vertex-list model

This project models `LIB_POLYLINE`, the polyline graphic of a schematic
symbol in KiCad's eeschema. It covers the shape's vertex list and the
interactive edit session around it. The list is a `seq<Point>` with
unbounded integer coordinates. An `Editor` value pairs the shape (vertices,
stroke width, fill mode) with its edit bookkeeping:

- the active gesture (new, resized or moved);
- `m_ModifyIndex`, the dragged vertex, negated for "insert a new vertex here";
- `m_initialPos`, where the dragged vertex was when the gesture began;
- `m_initialCursorPos`, where the cursor was when a move began.

Modules follow the source's groups of member functions:

- `Geometry`: the point type, vector arithmetic, squared lengths, and C++'s truncating `/ 2`.
- `Polyline`: the shape record, `GetPenSize` and `compare`.
- `Transforms`: `Offset`, `MoveTo`, the two mirrors and `Rotate`.
- `Corners`: `AddPoint`, `AddCorner`, `RemoveCorner` and `DeleteSegment`.
- `Extent`: `GetBoundingBox` and `Inside`.
- `HitTest`: the point and rectangle overloads of `HitTest`.
- `EditSession`: `BeginEdit`, `ContinueEdit`, `CalcEdit` and `EndEdit`.
- `Gestures`: whole gestures, i.e. a begin, any stream of cursor events, then an end.

Code the shape calls but does not own becomes a parameter:

- `DistanceLinePoint`, `TestSegmentHit` and `RotatePoint`;
- the `EDA_RECT` operations;
- `DefaultTransform.TransformCoordinate`;
- `GetDefaultLineThickness()` and `MINIMUM_SELECTION_DISTANCE`.

The resize grab in `BeginEdit` gets two models:

- `EditSession.FindDragTarget` is the loop as written.
- `EditSession.NearestDragTarget` is a reference definition over "slots". Slot 2i is vertex i. Slot 2i+1 is the midpoint of the edge that ends at vertex i.

`FindDragTarget` is proved to compute the same target as `NearestDragTarget`.

Four behaviours of the code are easy to misread, and the model follows the code in each:

- `AddCorner` inserts at the index of the closest edge's first vertex (line 196); see Findings.
- `ContinueEdit` reports true for a shape being drawn even when it refuses a zero-length edge and appends nothing (lines 441-447).
- The rectangle hit test grows the rectangle by half the raw stroke width `GetWidth() / 2` (line 279), not by half the pen size.
- The comments at lines 443 and 458 say an edit leaves no zero-length edge. For a result of more than two vertices, drawing keeps that rule, but a resize does not always. A vertex dragged onto two neighbours that coincide is erased, and the erasure joins those neighbours into a zero-length edge (lines 465-473). `Gestures.ResizeEndEdgeRule` states exactly when this happens for such results. EndEdit never erases a vertex of a two-vertex shape (lines 459 and 465), so a two-vertex result can keep a zero-length edge after either gesture.

## Model

| member | source | states |
|---|---|---|
| Geometry.SquaredLength | eeschema/lib_polyline.cpp:396-405 | The squared distance is never negative and is 0 exactly when the cursor is on the point. |
| Geometry.Square | eeschema/lib_polyline.cpp:396-397 | The square of a coordinate is never negative and is 0 exactly for 0. |
| Geometry.SquareIsProduct | eeschema/lib_polyline.cpp:396-397 | The square used in the scores is the coordinate multiplied by itself, as the program computes it. |
| Geometry.SquareOfDouble | eeschema/lib_polyline.cpp:416-417 | Doubling a coordinate multiplies its square by 4. |
| Geometry.SquaredLengthOfDouble | eeschema/lib_polyline.cpp:416-417 | Doubling a vector multiplies its squared length by 4. So the quarter of the squared doubled offset is the squared distance to the edge midpoint. |
| Geometry.HalfTowardZero | eeschema/lib_polyline.cpp:245 | C++ `int / 2`: the quotient is truncated toward zero, for either sign. |
| Polyline.PenSize | eeschema/lib_polyline.cpp:206-215 | A positive width is the pen. Width 0 gives the default thickness. A negative width gives the minimal-pen value -1. With a positive default, the pen is positive exactly when the width is not negative. |
| Polyline.CompareFrom | eeschema/lib_polyline.cpp:69-76 | The vertex-by-vertex comparison is 0 exactly when the two remaining vertex lists are equal. |
| Polyline.CompareFromFirstDifference | eeschema/lib_polyline.cpp:69-76 | When the lists agree up to vertex k and differ there, the comparison is the x difference at k, or the y difference there when the x coordinates agree. |
| Polyline.Compare | eeschema/lib_polyline.cpp:60-79 | 0 exactly when the vertex lists are equal. Different vertex counts give the count difference. |
| Polyline.CompareIsLexicographic | eeschema/lib_polyline.cpp:60-79 | For equal counts, the first differing vertex decides: its x difference, or else its y difference. So the order is lexicographic with x before y. |
| Polyline.CompareAntisymmetric | eeschema/lib_polyline.cpp:60-79 | Swapping the operands negates the result. A shape compares equal to itself. |
| Polyline.CompareTransitive | eeschema/lib_polyline.cpp:60-79 | "Sorts before" is transitive. |
| Transforms.Offset | eeschema/lib_polyline.cpp:82-86 | Every vertex, and only that vertex, moves by the offset. The count is kept. |
| Transforms.OffsetInverse | eeschema/lib_polyline.cpp:82-86 | Offsetting by the opposite vector restores the shape. |
| Transforms.OffsetCompose | eeschema/lib_polyline.cpp:82-86 | Two offsets equal one offset by their sum. |
| Transforms.MoveTo | eeschema/lib_polyline.cpp:101-104 | The first vertex lands on the target. Every vertex keeps its displacement from the first. |
| Transforms.MoveToIsOffset | eeschema/lib_polyline.cpp:101-104 | Moving the first vertex by a delta moves the whole shape by that delta. |
| Transforms.MoveToOverrides | eeschema/lib_polyline.cpp:101-104 | A second MoveTo cancels the first: only the last target matters. |
| Transforms.MirrorHorizontal | eeschema/lib_polyline.cpp:107-117 | Each x is reflected about the centre's x. Each y is unchanged. |
| Transforms.MirrorVertical | eeschema/lib_polyline.cpp:119-129 | Each y is reflected about the centre's y. Each x is unchanged. |
| Transforms.MirrorInvolutions | eeschema/lib_polyline.cpp:107-129 | Mirroring twice about the same centre restores the shape, for both mirrors. |
| Transforms.MirrorsCommute | eeschema/lib_polyline.cpp:107-129 | The horizontal and vertical mirrors commute. |
| Transforms.Rotate | eeschema/lib_polyline.cpp:131-138 | Each vertex is rotated about the centre by -900 tenths of a degree (counter-clockwise) or +900 (clockwise). |
| Transforms.RotateRoundTrip | eeschema/lib_polyline.cpp:131-138 | A counter-clockwise then a clockwise rotation restores the shape, whenever the two point rotations undo each other. |
| Corners.AddPoint | eeschema/lib_polyline.cpp:174-177 | The point becomes the new last vertex. The old vertices stay in front. |
| Corners.RemoveCorner | eeschema/lib_polyline.cpp:200-203 | Exactly the vertex at the index is erased. The others keep their order. |
| Corners.RemoveUndoesInsert | eeschema/lib_polyline.cpp:196-203 | Erasing a corner right after inserting it at the same index gives back the original list. |
| Corners.ScanClosestEdge | eeschema/lib_polyline.cpp:183-194 | The scan from INT_MAX picks the first edge with strictly least distance. It falls back to 0 when no edge is closer than INT_MAX. |
| Corners.ClosestLineStart | eeschema/lib_polyline.cpp:182-194 | Index of the first vertex of the first closest edge, or 0. |
| Corners.AddCorner | eeschema/lib_polyline.cpp:180-197 | As written: one more vertex, the new corner at the closest edge's start index, and erasing it restores the shape. |
| Corners.AddCornerKeepsWinningEdge | eeschema/lib_polyline.cpp:196 | As written, the closest edge is not split. Its two end vertices stay adjacent, right after the new corner. |
| Corners.AddCornerMisplacesExample | eeschema/lib_polyline.cpp:180-197 | On (0,0)-(10,0)-(10,10), a corner at (10,5) ends up between (0,0) and (10,0). |
| Corners.AddCornerOnSegment | eeschema/lib_polyline.cpp:180-197 | Corrected: the corner goes between the closest edge's two end vertices, and erasing it restores the shape. |
| Corners.AddCornerOnSegmentExample | eeschema/lib_polyline.cpp:180-197 | Corrected, the same corner lands between (10,0) and (10,10). |
| Corners.DeleteSegment | eeschema/lib_polyline.cpp:326-339 | Shapes of at most two vertices are unchanged. Otherwise: at least two vertices remain; the kept prefix is untouched; the new last vertex is the given position; every dropped vertex except the original last one equalled that position; and the scan stopped at the first vertex that differed from it. |
| Extent.Inflation | eeschema/lib_polyline.cpp:318 | The box grows by (pen + 1) / 2, truncated: (width + 1) / 2 for a positive width, (default thickness + 1) / 2 for width 0, 0 for a negative width, and never negative when the default thickness is at least -1. |
| Extent.BoundingBox | eeschema/lib_polyline.cpp:300-323 | The box encloses every vertex and each side touches a vertex, so it is the smallest enclosing box. |
| Extent.Inside | eeschema/lib_polyline.cpp:89-98 | True exactly when some vertex, with y negated, is in the rectangle. |
| HitTest.Tolerance | eeschema/lib_polyline.cpp:245 | The larger of accuracy + pen / 2 (truncated) and the minimum selection distance. |
| HitTest.HitTestPoint | eeschema/lib_polyline.cpp:243-258 | True exactly when some edge of the open chain passes within the tolerance of the cursor. The closing edge does not count. |
| HitTest.HitTestRect | eeschema/lib_polyline.cpp:261-297 | False for a deleted or skipped item. With `contained`, true exactly when the grown rectangle contains the bounding box. Otherwise true exactly when the rectangle meets the bounding box and, grown by half the raw width, holds a vertex or crosses an edge of the closed cycle, including the edge from last to first vertex. |
| EditSession.FirstMinSlot | eeschema/lib_polyline.cpp:396-429 | Reference scan: among the first m slots, a slot with the least score, and no earlier slot scores as low. |
| EditSession.MidpointOfFirstVertexNeverWins | eeschema/lib_polyline.cpp:416-419 | The midpoint slot of vertex 0 scores exactly one more than vertex 0, so it never wins. Index 0 always means "drag vertex 0". |
| EditSession.NearestDragTarget | eeschema/lib_polyline.cpp:384-430 | The grab's index is within bounds, from -(n-1) to n-1. The recorded position is the vertex at the absolute index. |
| EditSession.NearestIsFirstMinSlot | eeschema/lib_polyline.cpp:384-430 | The grab is the first nearest vertex (index >= 0) or edge midpoint (negated index). No slot scores lower, and no earlier slot ties. |
| EditSession.TargetOfFirstMinSlot | eeschema/lib_polyline.cpp:384-430 | Any slot that is the first minimum decides the grab's index and position. |
| EditSession.FindDragTarget | eeschema/lib_polyline.cpp:388-429 | The loop as written computes exactly the reference grab, and its index is within bounds. |
| EditSession.BeginEdit | eeschema/lib_polyline.cpp:375-436 | New appends two copies of the cursor and keeps the index and both saved positions. Resized records the nearest grab without touching the vertices, and keeps the saved cursor. Moved records the cursor and the first vertex, and keeps the index. Width and fill never change. |
| EditSession.ContinueEdit | eeschema/lib_polyline.cpp:439-451 | Reports true exactly while drawing. It appends the click exactly when drawing and the pending edge has non-zero length. Otherwise nothing changes. |
| EditSession.CalcEdit | eeschema/lib_polyline.cpp:478-498 | Drawing moves only the last vertex. Resizing makes the index real, puts the cursor there and inserts a vertex only for a pending insertion, leaving the other vertices as they were. Moving translates the shape so the first vertex is at its start position plus the cursor displacement. |
| EditSession.EndEdit | eeschema/lib_polyline.cpp:454-475 | Drawing drops the last vertex exactly when it repeats the one before and more than two remain. Resizing erases the dragged vertex exactly when it lands on a neighbour and more than two remain. Nothing else changes, and never fewer than two vertices remain. |
| Gestures.Draw | eeschema/lib_polyline.cpp:439-451 | Any mix of clicks and motions while drawing keeps the edit state, never loses a vertex, and leaves every vertex before the pending one untouched. If every confirmed edge had non-zero length, every confirmed edge still does. |
| Gestures.DrawStepKeepsConfirmedEdges | eeschema/lib_polyline.cpp:443-445 | A motion or a click keeps every confirmed edge non-zero. A click confirms the pending edge only when that edge is non-zero. |
| Gestures.DrawingLeavesNoZeroEdge | eeschema/lib_polyline.cpp:443-463 | A drawn shape of more than two vertices has no zero-length edge after EndEdit, provided the earlier vertices and the start point form such a chain. |
| Gestures.DrawingKeepsTwoVertices | eeschema/lib_polyline.cpp:379-383 | Drawing from scratch ends with at least two vertices, the first of which is where the gesture began. |
| Gestures.Drag | eeschema/lib_polyline.cpp:484-492 | After any motions, the index is real and holds the last cursor position. A pending insertion has happened exactly once. Every other vertex is unchanged and in order. |
| Gestures.ResizeKeepsTwoVertices | eeschema/lib_polyline.cpp:465-474 | A resize of a shape with at least two vertices ends with at least two, and the count changes by at most one. |
| Gestures.DraggedKeepsOtherEdges | eeschema/lib_polyline.cpp:484-492 | A resize of a shape with no zero-length edge leaves every edge away from the dragged vertex non-zero. |
| Gestures.ResizeEndEdgeRule | eeschema/lib_polyline.cpp:465-473 | For a shape of more than two vertices whose edges away from the dragged vertex are non-zero, EndEdit leaves no zero-length edge exactly unless the dragged vertex is an inner vertex on both of its neighbours. |
| Gestures.ResizeLeavesZeroEdgeOnlyBetweenMeetingNeighbours | eeschema/lib_polyline.cpp:384-492 | When the dragged shape has more than two vertices, a whole resize of a shape with no zero-length edge ends with none exactly unless the dragged vertex ends as an inner vertex on two coinciding neighbours. |
| Gestures.Follow | eeschema/lib_polyline.cpp:493-496 | After any motions of a move, the shape is MoveTo of the start position plus the last cursor displacement. |
| Gestures.MoveTranslatesByCursorDisplacement | eeschema/lib_polyline.cpp:431-435 | A whole move translates the shape by exactly the cursor's total displacement. Intermediate positions leave no trace. |
| Gestures.DrawOneEdgeExample | eeschema/lib_polyline.cpp:439-463 | Drawing (0,0)-(10,0) with a double click ends with exactly those two vertices. The second click is refused and the repeated end point is dropped. |
| Gestures.CursorOnVertexGrabsIt | eeschema/lib_polyline.cpp:402-413 | A cursor exactly on a vertex grabs that vertex, unless an earlier vertex is at the same spot. |
| Gestures.GrabAndDragVertex | eeschema/lib_polyline.cpp:384-492 | A cursor right on vertex i, with no earlier twin, grabs index i. Dragging it to q moves only vertex i. |
| Gestures.CollapseCornerExample | eeschema/lib_polyline.cpp:465-474 | Dragging the corner of (0,0)-(10,0)-(10,10) onto (0,0) erases it at EndEdit. |
| Gestures.ZigzagHasNoZeroEdge | eeschema/lib_polyline.cpp:443 | The shape (0,0)-(5,5)-(0,0)-(9,9) has no zero-length edge. |
| Gestures.ResizeLeavesZeroEdgeExample | eeschema/lib_polyline.cpp:465-473 | On that shape, grabbing (5,5) and dropping it on (0,0) ends with (0,0)-(0,0)-(9,9), which has a zero-length edge. |
| Gestures.DrawingEndedAtStartKeepsZeroEdge | eeschema/lib_polyline.cpp:379-463 | A drawing ended where it began is two copies of the start point, a zero-length edge that EndEdit keeps. |
| Gestures.TwoVertexResizeKeepsZeroEdge | eeschema/lib_polyline.cpp:465-473 | Dragging one end of a single edge onto the other leaves two copies of that point, and EndEdit keeps the zero-length edge. |

## Left out

- Plotting, drawing, message-panel and menu text, and `Clone`: these are output and UI, not vertex logic.
- C++ `int` overflow is not modelled. It could hit the squared distances in `BeginEdit`, the coordinate sums and differences, and `compare`'s `size_t` difference converted back to `int`. All integers are unbounded.
- Polyline.Compare: returns the mathematical size difference. The source subtracts unsigned sizes and converts the result to `int`, which agrees only while the counts fit.
- The foreign functions listed above are parameters with no properties assumed. `Rotate` and the hit tests therefore say only how these functions are applied, not what geometry they compute.
- `EDA_RECT` inflation by the pen and the y-axis flip in `GetBoundingBox` are left to the rectangle type. `Extent.BoundingBox` returns the vertex box and the inflation to apply.
- HitTest.HitTestRect: the shape's bounding box is an argument. It is not recomputed from `Extent.BoundingBox` through the rectangle type.
- The `LIB_ITEM` base calls in `BeginEdit` and `EndEdit` set or read the gesture flags and are otherwise not part of this model. The flags are one `EditMode`, so exactly one gesture is active, and `EndEdit` keeps the mode. With one flag set, `EndEdit`'s `m_Flags == IS_NEW` and the other functions' bit tests such as `IsNew()` agree.
- Corners.AddCorner: requires at least one vertex. On an empty list the source's unsigned `size() - 1` wraps around and the scan reads out of range.
- EditSession.EndEdit: requires a real, non-negative index for a resize of more than two vertices (`CanEnd`). With a still-negative index the source reads outside the vertex list. The model assumes the editor runs `CalcEdit`, which makes the index real, before it ends a drag; its callers are not part of this model.
- EditSession.ContinueEdit: requires at least two vertices while drawing, as the source reads the second-to-last vertex. `BeginEdit` in new mode guarantees this.
- Transforms.MoveTo, EditSession.BeginEdit (resize and move) and Extent.BoundingBox: require at least one vertex. The source reads `m_PolyPoints[0]`, and on an empty list that read is out of range.
- Corners.RemoveCorner: requires an index inside the list. The source's `erase( begin() + aIdx )` (line 200) does not check it, and an index outside the list is undefined behaviour.
- EditSession.CalcEdit: requires `CanCalc`. Drawing and moving need at least one vertex, since the source writes the vertex at `size() - 1` or reads vertex 0. Resizing needs an index inside the list, or a negated index no further than one past its end for a pending insertion. The source indexes the vector there without a check.
- No contract promises "no zero-length edge after an edit" for a resize, because the code does not keep that rule (see `Gestures.ResizeLeavesZeroEdgeExample`). `Gestures.ResizeEndEdgeRule` states exactly when a resize leaves such an edge, for results of more than two vertices.
- No contract promises that rule for a two-vertex result of either gesture. EndEdit never erases one of the last two vertices, so such a result keeps a zero-length edge (see `Gestures.DrawingEndedAtStartKeepsZeroEdge` and `Gestures.TwoVertexResizeKeepsZeroEdge`).
- The midpoint score divides a non-negative value by 4, so C++'s truncating division and Dafny's Euclidean one agree there and need no special treatment.

## Findings

| source | as written | input that shows it | evidently intended | confidence | as-written member | corrected member |
|---|---|---|---|---|---|---|
| eeschema/lib_polyline.cpp:196 | The new corner is inserted at `closestLineStart`, before the first vertex of the closest edge, so that edge stays whole. | Shape (0,0)-(10,0)-(10,10), corner at (10,5) on the second edge: the result is (0,0)-(10,5)-(10,0)-(10,10). | Insert at `closestLineStart + 1`, between the closest edge's end vertices: (0,0)-(10,0)-(10,5)-(10,10). | medium, not executed | Corners.AddCorner (shown by Corners.AddCornerKeepsWinningEdge and Corners.AddCornerMisplacesExample) | Corners.AddCornerOnSegment (Corners.AddCornerOnSegmentExample) |
