# Curves editor model

A Dafny model of the curve-editing core of `CurvesProject/curves.cpp`, an
interactive OpenGL/GLUT program. In it the user draws polylines, Bezier
curves and Lagrange interpolation curves by clicking control points. They can
then select curves, cycle through them, append or delete control points and
drag points around. The model covers:

- **Geometry** (`geometry.dfy`). Points over `real`, vector arithmetic, the
  per-axis proximity test with tolerance 0.05, and weighted sums of points.
- **Vectors** (`vectors.dfy`). `std::vector::erase` at an index, over
  sequences.
- **Bezier** (`bezier.dfy`). The recursive Bernstein weight exactly as the
  source writes it, and the weighted sum that `getPoint` accumulates in a
  loop. The lemmas cover:
  - partition of unity;
  - non-negativity on [0, 1];
  - the values at the ends;
  - the curve starting at its first control point and ending at its last.
- **Lagrange** (`lagrange.dfy`). The knot vector rebuilt by
  `addControlPoint`/`eraseControlPoint`, the product-form basis weight and the
  weighted sum. The lemmas cover:
  - the knots: their count, first and last knot, spacing, and that they
    increase strictly;
  - the Kronecker-delta property of the weights at the knots;
  - interpolation.
- **Polyline** (`polyline.dfy`). The segment test: a cross-product band plus
  a dot-product range. Also the polyline hit test over consecutive control
  points.
- **Freeform** (`freeform.dfy`). The curve value, covering:
  - the three kinds and their `curveType`;
  - append, erase and overwrite of control points, with the Lagrange knots
    kept in step;
  - the first-match proximity pick;
  - dispatch of `getPoint` and `mouseOverCurve`;
  - the sampling hit test inherited from `Curve`.
- **Container** (`container.dfy`). `checkMouseCurves`, the first curve under
  the cursor.
- **Editor** (`editor.dfy`). The global state and the GLUT handlers:
  - `onKeyboard`, `onKeyboardUp` and `onMouse` (button down and button up);
  - `onMouseMotionFunc`.

  Each handler is a function from the state before the event to the state
  after it. The class `CurvesEditor` holds the globals as fields, one method
  per handler, and proves that each method updates its fields exactly as the
  function says.

Representation choices:

- A curve is a value (`Freeform.Curve`). The `selectedCurve` pointer is the
  position of the curve it points to, with -1 for `NULL`. Every removal of a
  curve in the source also sets `selectedCurve` to `NULL`, and curves are only
  ever appended. So a position always designates the same curve for as long
  as the pointer does.
- The uninitialised globals `currSelectedCurve` and `controlPointVal` start at
  0, the zero of static storage.
- A handler call that would fault in the source becomes a precondition:
  `vector::at` out of range, a null dereference, or an `erase` outside the
  list. The faults are these:
  - `MouseDownDefined` lists them for a click (`onMouse` dereferences
    `selectedCurve` when adding or deleting);
  - the erase at `currSelectedCurve` needs a valid position there, which a
    click on empty space can clear to -1 while the selection stays non-null;
  - a polyline with no control points makes `Polyline::mouseOverCurve` read
    `controlPoints.at(0)`, because `size() - 1` is unsigned. The hit test of
    the selecting block throws only when its scan reaches such a polyline:
    it stops at the first curve under the cursor, so an empty polyline after
    that curve does no harm (`Container.ScanDefined`);
  - `MoveDefined` covers a drag.
- `ValidState` is the invariant every handler keeps:
  - `globalCounter == |curves| - 1`;
  - the selection is null or a curve of the list;
  - `currSelectedCurve` is -1, a position of the list, or the initial 0 of
    an empty list;
  - the key table has 256 entries;
  - every Lagrange curve carries the knot vector for its point count.

Behaviour that follows the code where a reader might expect otherwise:

- The Lagrange knot rebuild:
  - What the source does: after `knots.clear()`, it assigns `knots[i]` for
    every `i`, which writes into an empty vector (undefined behaviour).
  - What the model does instead: it holds the vector those writes evidently
    mean to produce, namely `count` knots with knot `i` equal to
    `i * (1 / (count - 1))`, or `[0]` for one point.
  - The method reproduces the source's running counter.
- Space with nothing selected changes nothing: the inner test of the `else`
  branch repeats the outer one and can never hold (`curves.cpp:499-505`).
- In adding mode, a click appends a point and then also runs the selecting
  block, because `if (addingPoints)` is not chained with the blocks that
  follow it.
- Clicking empty space unselects the old selection and sets
  `currSelectedCurve = -1`, but `selectedCurve` keeps pointing at the old
  curve.
- The deleting block erases the curve at position `currSelectedCurve`, which
  is not necessarily the selected curve.
- `bernstein(0, 0, t)` is 0: `n == 1` is the only base case. A Bezier curve
  with one control point therefore evaluates to the origin
  (`Bezier.BezierOfOnePointIsOrigin`), not to that point.
- A polyline's `getPoint` is a stub that returns the origin.

## Model

| member | source | states |
|---|---|---|
| Vectors.RemoveAt | CurvesProject/curves.cpp:160-162 | `erase(begin() + i)` leaves one element fewer: the elements before `i` stay in place and those after it move down by one |
| Vectors.RemoveAppended | CurvesProject/curves.cpp:147-150 | erasing the element just pushed back gives the original vector |
| Vectors.RemoveLast | CurvesProject/curves.cpp:533-534 | erasing the last position drops exactly the last element |
| Geometry.CombinationOfUnitWeights | CurvesProject/curves.cpp:299-309 | a weighted sum whose weights are one at `m` and zero elsewhere is control point `m` |
| Geometry.CombinationPrefix | CurvesProject/curves.cpp:299-309 | each partial sum of such a weighting is the origin before `m` and point `m` from then on |
| Geometry.Near | CurvesProject/curves.cpp:184-195 | the per-axis test `\|p.x - x\| < 0.05` and `\|p.y - y\| < 0.05` of `getControlPointNearMouse` and of the sampling hit test (curves.cpp:122) |
| Geometry.Combination | CurvesProject/curves.cpp:299-309 | the partial sum `r += controlPoints.at(i) * weight` over the first `k` points, from the origin |
| Bezier.Bernstein | CurvesProject/curves.cpp:285-295 | the weight is zero for an index below zero or above `n` |
| Bezier.BezierWeights | CurvesProject/curves.cpp:302-306 | one Bernstein weight per control point |
| Bezier.BezierPoint | CurvesProject/curves.cpp:297-309 | the point of the curve at `t`: each control point weighted by `bernstein(i, size - 1, t)` and summed |
| Bezier.GetPoint | CurvesProject/curves.cpp:297-309 | the loop's accumulated sum is the Bernstein-weighted sum of all control points |
| Bezier.BernsteinRecurrence | CurvesProject/curves.cpp:292-294 | for `n >= 2`, the weight is `(1 - t)` times weight `(i, n-1)` plus `t` times weight `(i-1, n-1)`, for every `i` |
| Bezier.WeightsRecurrence | CurvesProject/curves.cpp:292-294 | for `n >= 2`, the weights for `n + 1` points (three or more) blend the weights for `n` points, padded with a zero at either end |
| Bezier.BernsteinPartitionOfUnity | CurvesProject/curves.cpp:285-295 | for `n >= 1`, the `n + 1` weights sum to one at every `t` |
| Bezier.BlendedSumIsOne | CurvesProject/curves.cpp:292-294 | a blend of a unit-sum weighting with its shifted copy again sums to one |
| Bezier.LinearWeightsSumToOne | CurvesProject/curves.cpp:286-290 | the base case `n == 1` gives weights `1 - t` and `t`, summing to one |
| Bezier.BernsteinAtZero | CurvesProject/curves.cpp:285-295 | for `n >= 1`, at `t = 0` weight 0 is one and every other weight is zero (for `n == 0` every weight is zero) |
| Bezier.BernsteinAtOne | CurvesProject/curves.cpp:285-295 | for `n >= 1`, at `t = 1` weight `n` is one and every other weight is zero (for `n == 0` every weight is zero) |
| Bezier.BernsteinNonNegative | CurvesProject/curves.cpp:285-295 | on `0 <= t <= 1`, every weight is non-negative |
| Bezier.BezierStartsAtFirstPoint | CurvesProject/curves.cpp:297-309 | with two or more control points, `getPoint(0)` is the first control point |
| Bezier.BezierEndsAtLastPoint | CurvesProject/curves.cpp:297-309 | with two or more control points, `getPoint(1)` is the last control point |
| Bezier.BezierOfOnePointIsOrigin | CurvesProject/curves.cpp:285-309 | with a single control point, `bernstein(0, 0, t)` is zero, so `getPoint` is the origin for every `t` |
| Lagrange.UniformKnots | CurvesProject/curves.cpp:322-353 | the knot vector that both rebuilds (in `addControlPoint` and in `eraseControlPoint`) produce has one knot per control point |
| Lagrange.ComputeKnots | CurvesProject/curves.cpp:322-353 | the loop's running counter fills in exactly the evenly spaced knot vector, with `[0]` for a single point |
| Lagrange.UniformKnotsEnds | CurvesProject/curves.cpp:326-336 | no points give no knots and one point gives `[0]`; otherwise the knots start at 0, and with two or more points the last knot is 1 |
| Lagrange.UniformKnotsSpacing | CurvesProject/curves.cpp:331-335 | consecutive knots are `1 / (count - 1)` apart |
| Lagrange.UniformKnotsIncreasing | CurvesProject/curves.cpp:331-335 | the knots increase strictly |
| Lagrange.UniformKnotsDistinct | CurvesProject/curves.cpp:331-335 | no two knots are equal, so no denominator of the basis weight vanishes |
| Lagrange.DenominatorNonZero | CurvesProject/curves.cpp:356-373 | with distinct knots, the product of `knots[i] - knots[j]` over `j != i` is non-zero |
| Lagrange.LagrangeWeight | CurvesProject/curves.cpp:356-373 | the basis weight: the product of `t - knots[j]` over `j != i`, divided by the product of `knots[i] - knots[j]` |
| Lagrange.Weight | CurvesProject/curves.cpp:356-373 | the loop's numerator and denominator products give the basis weight `Π (t - t_j) / Π (t_i - t_j)` over `j != i` |
| Lagrange.NumeratorVanishes | CurvesProject/curves.cpp:362-368 | at another knot `t_k`, the numerator has the factor `t_k - t_k` and is zero |
| Lagrange.NumeratorAtOwnKnot | CurvesProject/curves.cpp:362-368 | at its own knot `t_i`, the numerator equals the denominator |
| Lagrange.LagrangeAtKnot | CurvesProject/curves.cpp:356-373 | with distinct knots, weight `i` at knot `k` is one when `i == k` and zero otherwise |
| Lagrange.LagrangeWeights | CurvesProject/curves.cpp:383-388 | one basis weight per knot |
| Lagrange.LagrangePoint | CurvesProject/curves.cpp:380-392 | the point of the curve at `t`: each control point weighted by its basis weight and summed |
| Lagrange.GetPoint | CurvesProject/curves.cpp:380-392 | the loop's accumulated sum is the Lagrange-weighted sum of all control points |
| Lagrange.LagrangeInterpolates | CurvesProject/curves.cpp:356-392 | with distinct knots, `getPoint(knots[k])` is control point `k` |
| Polyline.PointBetweenCtrlPoints | CurvesProject/curves.cpp:252-271 | true exactly when `\|cross(b - a, m - a)\| <= 0.05` and `0 <= dot(m - a, b - a) <= \|b - a\|²` |
| Polyline.CrossProductAsWritten | CurvesProject/curves.cpp:254 | the source's cross-product expression is `cross(b - a, m - a)` |
| Polyline.SegmentPointsHit | CurvesProject/curves.cpp:252-271 | every point of the segment, its ends included, passes the test |
| Polyline.PointsPastTheEndsMiss | CurvesProject/curves.cpp:258-269 | a point on the segment's line before its start or past its end fails the test, however close to the line it is |
| Polyline.MouseOverCurve | CurvesProject/curves.cpp:240-248 | true exactly when some pair of consecutive control points passes the segment test; needs a control point |
| Freeform.CurveType | CurvesProject/curves.cpp:205-320 | the type code is 0, 1 or 2 |
| Freeform.NewCurve | CurvesProject/curves.cpp:205-320 | the constructors `Polyline()` (205), `BezierCurve()` (283) and `LagrangeCurve()` (320): a curve of that kind with no control points, no knots and `selected == false` (curves.cpp:48) |
| Freeform.CurveTypeInjective | CurvesProject/curves.cpp:205-320 | two kinds share a type code only when they are the same kind (polyline 0, Bezier 1, Lagrange 2) |
| Freeform.NewCurveValid | CurvesProject/curves.cpp:205-320 | a new curve has no control points, has its kind's type code, and its empty knot vector is in step |
| Freeform.WithPoints | CurvesProject/curves.cpp:322-353 | the curve with a new point list; a Lagrange curve (and only it) rebuilds its knots for the new count |
| Freeform.WithPointsValid | CurvesProject/curves.cpp:322-353 | replacing the points keeps the knots in step, along with the kind and the `selected` flag; a Lagrange curve gets one knot per point, starting at 0 |
| Freeform.AddControlPoint | CurvesProject/curves.cpp:147-337 | the point is pushed onto the end (the base method at 147-150 and the polyline override at 211-214); a Lagrange curve also rebuilds its knots (322-337) |
| Freeform.EraseControlPoint | CurvesProject/curves.cpp:160-354 | exactly point `point` is erased (the base method at 160-162); a Lagrange curve also rebuilds its knots (the override at 339-354) |
| Freeform.AddThenEraseLast | CurvesProject/curves.cpp:322-354 | adding a point and erasing it again restores the curve, knots included |
| Freeform.SetNewControlPointValue | CurvesProject/curves.cpp:156-158 | only point `index` changes, to the new value; nothing else about the curve changes |
| Freeform.SetNewControlPointValueValid | CurvesProject/curves.cpp:156-158 | an overwrite keeps the knots in step |
| Freeform.SetUnSelected | CurvesProject/curves.cpp:61-63 | clears the `selected` flag and leaves the rest of the curve alone |
| Freeform.FirstNear | CurvesProject/curves.cpp:184-195 | the result is -1 or an index whose point is within 0.05 of the cursor on both axes, with no such point before it; -1 exactly when no point qualifies |
| Freeform.GetControlPointNearMouse | CurvesProject/curves.cpp:184-195 | returns the lowest index of a point near the cursor, or -1 (also for an empty list) |
| Freeform.GetPoint | CurvesProject/curves.cpp:207-392 | dispatches `getPoint` on the kind: origin for a polyline (207-209), otherwise the Bezier sum (297-309) or the Lagrange sum (380-392) |
| Freeform.Eval | CurvesProject/curves.cpp:207-392 | the virtual `getPoint`: the origin for a polyline (the stub at 207-209), the Bezier point (297-309) or the Lagrange point (380-392) otherwise |
| Freeform.LagrangeCurveThroughPoints | CurvesProject/curves.cpp:322-392 | a Lagrange curve passes through each control point at that point's knot |
| Freeform.CurveStartsAtFirstPoint | CurvesProject/curves.cpp:297-392 | with two or more control points, a Bezier or Lagrange curve starts at its first control point |
| Freeform.SampledMouseOverCurve | CurvesProject/curves.cpp:109-127 | true exactly when one of the samples `0, 0.01, …, 0.99` of the curve is within 0.05 of the cursor on both axes |
| Freeform.MouseOverCurve | CurvesProject/curves.cpp:240-248 | `mouseOverCurve` dispatches on the kind: the segment test for a polyline, otherwise the sampling test |
| Freeform.CurveHit | CurvesProject/curves.cpp:109-127 | the virtual `mouseOverCurve`: the segment test for a polyline (curves.cpp:240-248), the sampling test otherwise |
| Freeform.HitNearFirstPoint | CurvesProject/curves.cpp:109-127 | a cursor near the first control point of a valid Bezier or Lagrange curve with two or more control points hits the curve |
| Freeform.HitOnPolylineSegment | CurvesProject/curves.cpp:240-271 | a cursor on any segment of a polyline hits the polyline |
| Container.NoHitBefore | CurvesProject/curves.cpp:422-426 | no curve before position `j` is under the cursor, so the scan reaches curve `j` |
| Container.ScanDefined | CurvesProject/curves.cpp:421-428 | every curve the scan reaches can be hit-tested; curves after the first hit are never asked |
| Container.FirstHit | CurvesProject/curves.cpp:421-428 | the result is -1 or a curve under the cursor with no earlier curve under it; -1 exactly when no curve is under it |
| Container.CheckMouseCurves | CurvesProject/curves.cpp:421-428 | returns the lowest position of a curve whose `mouseOverCurve` is true, or -1; it needs only the curves its scan reaches to be testable |
| Container.FirstHitIsLowest | CurvesProject/curves.cpp:421-428 | when curve `i` is under the cursor, the result is a position no later than `i` |
| Container.AllHitTestableScans | CurvesProject/curves.cpp:421-428 | a list whose curves can all be hit-tested is scanned without fault at every cursor position |
| Container.HitShieldsLaterCurves | CurvesProject/curves.cpp:421-428 | a valid Bezier or Lagrange curve with two or more control points, hit at its first point and followed by a polyline without points, is scanned without fault and reported at position 0 |
| Editor.ValidState | CurvesProject/curves.cpp:432-537 | the editor invariant: `globalCounter` (declared at 432) is the position of the last curve, as every push (451-475) and every removal (534-535) keeps it; the selection is null or a curve of the list; `currSelectedCurve` is -1, a position, or the initial 0 of an empty list; 256 key entries; every curve in step with its knots |
| Editor.Initial | CurvesProject/curves.cpp:26-32 | the start-up globals satisfy the editor invariant |
| Editor.Unselect | CurvesProject/curves.cpp:448-449 | only the selected curve loses its flag, and the list keeps its length |
| Editor.Press | CurvesProject/curves.cpp:441-442 | marking a key down keeps the invariant |
| Editor.KeyAction | CurvesProject/curves.cpp:444-515 | the key switch: creation for 'b', 'l', 'p'; deleting mode for 'd' and appending mode for 'a', each only with a selection; cycling for space; nothing for other keys |
| Editor.Create | CurvesProject/curves.cpp:447-455 | unselect, append a new curve of the kind, advance `globalCounter`, select the new curve in both globals and start drawing |
| Editor.Cycle | CurvesProject/curves.cpp:487-506 | with a selection, unselect it and select the curve after `currSelectedCurve`, or the first after the last; without one, nothing |
| Editor.KeyDown | CurvesProject/curves.cpp:440-518 | `onKeyboard`: an already pressed key is ignored; otherwise it is marked down and the switch runs |
| Editor.KeyUp | CurvesProject/curves.cpp:524-541 | `onKeyboardUp`: the key is released, the three mode flags cleared, and a last curve with fewer than two points removed along with the selection |
| Editor.DrawStep | CurvesProject/curves.cpp:558-565 | the cursor is appended to the curve at `globalCounter`, which becomes the selection |
| Editor.AddStep | CurvesProject/curves.cpp:567-569 | the cursor is appended to the selected curve |
| Editor.AfterDraw | CurvesProject/curves.cpp:558-565 | the `if (drawing)` block: `DrawStep` while drawing, otherwise the state as it was |
| Editor.AfterAdd | CurvesProject/curves.cpp:567-569 | the `if (addingPoints)` block: `AddStep` while adding, otherwise the state as it was |
| Editor.AfterErase | CurvesProject/curves.cpp:572-575 | the first control point near the cursor, if any, is erased with the curve's own `eraseControlPoint` |
| Editor.DeleteDefined | CurvesProject/curves.cpp:571-582 | the deleting block needs a selection and, when the curve is left with fewer than two points, a `currSelectedCurve` inside the list |
| Editor.RemovalDefined | CurvesProject/curves.cpp:575-580 | the removal of a short selection needs a selection and, for a curve with fewer than two points, a `currSelectedCurve` inside the list for `erase(begin() + currSelectedCurve)` |
| Editor.EraseStep | CurvesProject/curves.cpp:572-575 | the selected curve is replaced by its erased version |
| Editor.RemoveIfShort | CurvesProject/curves.cpp:576-581 | with fewer than two points left, the curve at `currSelectedCurve` is erased, `globalCounter` decremented and both selection globals cleared |
| Editor.DeleteStep | CurvesProject/curves.cpp:571-582 | the deleting block: the erase, then the removal of a short selection |
| Editor.Reselect | CurvesProject/curves.cpp:588-606 | the old selection is unselected; the first curve under the cursor becomes the selection, and with none `currSelectedCurve` is cleared while `selectedCurve` stays |
| Editor.PickPoint | CurvesProject/curves.cpp:607-614 | with a selection, its first control point near the cursor becomes `controlPointVal`, and a hit starts a drag |
| Editor.SelectStep | CurvesProject/curves.cpp:585-617 | the selecting block: nothing without curves, otherwise `Reselect` then `PickPoint` |
| Editor.MouseDownDefined | CurvesProject/curves.cpp:555-619 | a click does not fault: a curve to draw on, a selection to add to, a defined delete, and a scan that reaches only testable curves |
| Editor.MouseDown | CurvesProject/curves.cpp:555-619 | a press: the drawing block, then the adding block, then either the deleting block or (when not drawing) the selecting block |
| Editor.MoveDefined | CurvesProject/curves.cpp:622-644 | a drag writes to an existing control point of a non-null selection |
| Editor.MovePoint | CurvesProject/curves.cpp:623-626 | control point `controlPointVal` of the selected curve moves to the cursor |
| Editor.MouseUp | CurvesProject/curves.cpp:622-628 | a release: a drag leaves its point at the cursor and ends |
| Editor.MouseMotion | CurvesProject/curves.cpp:636-644 | motion: during a drag the point follows the cursor; otherwise nothing changes |
| Editor.MotionPath | CurvesProject/curves.cpp:636-644 | successive `onMouseMotionFunc` calls, one per cursor position of a path |
| Editor.Mouse | CurvesProject/curves.cpp:546-629 | `onMouse`: the press or the release handling, by button state |
| Editor.UnselectValid | CurvesProject/curves.cpp:448-449 | unselecting keeps every curve's knots in step |
| Editor.CreateValid | CurvesProject/curves.cpp:447-455 | creating a curve keeps the invariant, including `globalCounter == \|curves\| - 1` |
| Editor.CycleValid | CurvesProject/curves.cpp:487-506 | the space case keeps the invariant |
| Editor.KeyActionValid | CurvesProject/curves.cpp:444-515 | every case of the key switch keeps the invariant |
| Editor.KeyDownValid | CurvesProject/curves.cpp:440-518 | every call of `onKeyboard` keeps the invariant |
| Editor.KeyUpValid | CurvesProject/curves.cpp:524-541 | every call of `onKeyboardUp` keeps the invariant, including when it removes the last curve |
| Editor.AfterDrawValid | CurvesProject/curves.cpp:558-565 | the drawing block keeps the invariant |
| Editor.AfterAddValid | CurvesProject/curves.cpp:567-569 | the adding block keeps the invariant |
| Editor.AfterEraseValid | CurvesProject/curves.cpp:572-575 | erasing the point near the cursor keeps the curve valid |
| Editor.DeleteStepValid | CurvesProject/curves.cpp:571-582 | the deleting block keeps the invariant, including when it removes a curve |
| Editor.SelectStepValid | CurvesProject/curves.cpp:585-617 | the selecting block keeps the invariant |
| Editor.MovePointValid | CurvesProject/curves.cpp:623-626 | moving the dragged point keeps the invariant |
| Editor.MouseDownValid | CurvesProject/curves.cpp:555-619 | every click that does not fault keeps the invariant |
| Editor.MouseUpAndMotionValid | CurvesProject/curves.cpp:622-644 | the button release and every mouse motion keep the invariant |
| Editor.KeyDownDebounced | CurvesProject/curves.cpp:441 | a key already down is ignored entirely |
| Editor.KeyTableTracksKeys | CurvesProject/curves.cpp:441-525 | after a press only that key is marked down; after a release only that key is marked up |
| Editor.KindOfKey | CurvesProject/curves.cpp:447-477 | 'b' makes type 1, 'l' type 2 and 'p' type 0 |
| Editor.CreationKeys | CurvesProject/curves.cpp:447-477 | a fresh 'b', 'l' or 'p' appends exactly one empty curve of its type and makes it the selection in both `selectedCurve` and `currSelectedCurve`, with drawing on; the other curves keep their points, and only the old selection loses its flag |
| Editor.SpaceWithoutSelection | CurvesProject/curves.cpp:499-505 | with no selection, space only marks the key down |
| Editor.SpaceCycles | CurvesProject/curves.cpp:487-498 | with a selection, space selects the curve after `currSelectedCurve` and wraps to 0 after the last; when the two selection globals agree this is `(selected + 1) mod \|curves\|` |
| Editor.KeyUpRemovesShortCurve | CurvesProject/curves.cpp:524-541 | release removes the last curve, clearing the selection, exactly when that curve has fewer than two points; it always clears the three mode flags and leaves a drag alone |
| Editor.DragWritesOnlyTheDraggedPoint | CurvesProject/curves.cpp:622-644 | during a drag a move changes only point `controlPointVal` of the selected curve, to the cursor: every other global, every other curve and the dragged curve's kind, knots and flag stay as they were, and the drag stays defined and on; the release is the same write with the drag ended and nothing else changed |
| Editor.MotionKeepsMoveDefined | CurvesProject/curves.cpp:636-644 | a mouse move keeps a drag well defined and keeps the drag flag, the selection and `controlPointVal` |
| Editor.MoveTwice | CurvesProject/curves.cpp:623-626 | a second write to the dragged point overrides the first |
| Editor.DragFollowsCursor | CurvesProject/curves.cpp:622-644 | over any number of moves the drag keeps writing the same point of the same curve: after the moves the point sits at the last cursor position, and the release leaves it at the release position with only the drag ended |
| Editor.NoDragNoChange | CurvesProject/curves.cpp:622-644 | without a drag, button release and mouse motion change nothing |
| Editor.ClickWhileDrawing | CurvesProject/curves.cpp:558-565 | while drawing, and with neither adding nor deleting on, a click appends the cursor to the curve at `globalCounter`, keeps its kind, makes it the selection and changes nothing else |
| Editor.ClickDeletesTwoPointCurve | CurvesProject/curves.cpp:571-582 | deleting near a point of a two-point selected curve that is also `currSelectedCurve`, with neither drawing nor adding on, removes that curve and clears the selection |
| Editor.ClickSelectsFirstHit | CurvesProject/curves.cpp:585-617 | with no mode on, a click selects the first curve under the cursor in both globals, whatever follows it in the list, and a nearby control point of it starts a drag |
| Editor.DrawSession | CurvesProject/curves.cpp:440-629 | press 'b', click (0, 0) and (0.5, 0.5), release 'b': one selected Bezier curve of exactly those points remains |
| Editor.DeleteSession | CurvesProject/curves.cpp:480-582 | from that state, press 'd' and click (0, 0): the list becomes empty and the selection is cleared |
| Editor.DrawThenDeleteSession | CurvesProject/curves.cpp:440-629 | the two sessions in a row leave no curves |
| Editor.CurvesEditor.constructor | CurvesProject/curves.cpp:26-32 | the fields start as the initial globals |
| Editor.CurvesEditor.AddCurve | CurvesProject/curves.cpp:402-404 | `addCurve` appends the curve and changes nothing else |
| Editor.CurvesEditor.UnselectSelected | CurvesProject/curves.cpp:448-449 | clears the flag of the selected curve only |
| Editor.CurvesEditor.CreateCurve | CurvesProject/curves.cpp:447-477 | the creation cases update the fields as `Create` says |
| Editor.CurvesEditor.CycleSelection | CurvesProject/curves.cpp:487-506 | the space case updates the fields as `Cycle` says |
| Editor.CurvesEditor.Act | CurvesProject/curves.cpp:444-515 | the key switch updates the fields as `KeyAction` says |
| Editor.CurvesEditor.OnKeyboard | CurvesProject/curves.cpp:440-518 | `onKeyboard` updates the fields as `KeyDown` says and keeps the invariant |
| Editor.CurvesEditor.OnKeyboardUp | CurvesProject/curves.cpp:524-541 | `onKeyboardUp` updates the fields as `KeyUp` says and keeps the invariant |
| Editor.CurvesEditor.Draw | CurvesProject/curves.cpp:558-565 | the drawing block appends the cursor to the curve at `globalCounter` and selects it |
| Editor.CurvesEditor.Add | CurvesProject/curves.cpp:567-569 | the adding block appends the cursor to the selected curve |
| Editor.CurvesEditor.EraseNearPoint | CurvesProject/curves.cpp:572-575 | erases the selected curve's first point near the cursor, if any |
| Editor.CurvesEditor.RemoveShortSelection | CurvesProject/curves.cpp:576-581 | with fewer than two points left, erases the curve at `currSelectedCurve` and clears the selection |
| Editor.CurvesEditor.Delete | CurvesProject/curves.cpp:571-582 | the deleting block updates the fields as `DeleteStep` says |
| Editor.CurvesEditor.ReselectCurve | CurvesProject/curves.cpp:588-606 | the first curve under the cursor becomes the selection; with none, the old selection is unselected and `currSelectedCurve` is cleared |
| Editor.CurvesEditor.PickControlPoint | CurvesProject/curves.cpp:607-614 | a point of the selection near the cursor becomes `controlPointVal` and starts a drag |
| Editor.CurvesEditor.Select | CurvesProject/curves.cpp:585-617 | the selecting block does nothing without curves and otherwise updates the fields as `SelectStep` says |
| Editor.CurvesEditor.MouseDownHandler | CurvesProject/curves.cpp:555-619 | a press updates the fields as `MouseDown` says and keeps the invariant |
| Editor.CurvesEditor.MouseUpHandler | CurvesProject/curves.cpp:622-628 | a release updates the fields as `MouseUp` says and keeps the invariant |
| Editor.CurvesEditor.OnMouse | CurvesProject/curves.cpp:546-629 | `onMouse` updates the fields as `Mouse` says and keeps the invariant |
| Editor.CurvesEditor.OnMouseMotionFunc | CurvesProject/curves.cpp:636-644 | `onMouseMotionFunc` updates the fields as `MouseMotion` says and keeps the invariant |

## Left out

- Rendering and the event loop: `draw`, `drawControlPoints`, colours, `onDisplay`, `main` and `glutPostRedisplay`. These work through OpenGL/GLUT.
- Viewport normalisation through `glGetIntegerv`, because it is a call into OpenGL. The handlers take the cursor already normalised to [-1, 1].
- The `button` parameter of `onMouse` and the key's `x`/`y` arguments, which the source never reads.
- IEEE floating point and its rounding. Arithmetic is over `real`, and the `int` globals are unbounded; no value here comes near the 32-bit limits.
- Freeform.SampledMouseOverCurve: takes exactly the hundred samples `k / 100`. The source accumulates `i += .01` in `float`, so its sample count and sample values depend on rounding.
- Memory management: `new`, `delete`, the deleting `CurvesContainer` constructor, and the leak of erased curves. Curves are values here.
- The `selected` flag being set by `onDisplay`, because that is rendering. The model keeps the flag on each curve and clears it as the handlers do.
- `getControlPointsSize`, `getControlPoint` and `getCurveType`: accessors, which in the model are `|c.controlPoints|`, indexing, and `Freeform.CurveType`.
- The stub `LagrangeCurve::getDerivative`, which has no content.
- Lagrange.ComputeKnots: models the knot vector the source evidently intends. As written, the source writes `knots[i]` into a vector it has just cleared, which is undefined behaviour, so there is no defined result to model.
- Polyline.PointsPastTheEndsMiss: requires the squared length `dot(b - a, b - a)` to be positive rather than `a != b`. The two are equivalent over `real`; the model states the form the proof uses.
- Editor.CurvesEditor.MouseDownHandler: requires `MouseDownDefined`, and the handlers of release and motion require `MoveDefined`. A click or drag outside these conditions throws from `vector::at` (a drawing curve that is missing, or an empty polyline the hit scan reaches), dereferences null, or erases outside the list, so the model leaves those faulting calls unmodelled.
