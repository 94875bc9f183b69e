/** `CurvesContainer`: the hit test of the cursor against every curve of the
    editor, in list order. */
module Container {
  import opened Geometry
  import opened Freeform

  /** Every curve of the list is in step with its knots. */
  predicate AllCurvesValid(curves: seq<Curve>)
  {
    forall i :: 0 <= i < |curves| ==> CurveValid(curves[i])
  }

  /** No curve before position `j` is under the cursor, so a scan in list
      order reaches curve `j`. */
  predicate NoHitBefore(curves: seq<Curve>, x: real, y: real, j: nat)
    requires j <= |curves|
  {
    forall k :: 0 <= k < j ==> !(CurveValid(curves[k]) && CurveHit(curves[k], x, y))
  }

  /** Every curve the scan reaches can be hit-tested. The scan stops at the
      first hit, so curves after it (a polyline without points, say) are never
      asked. */
  predicate ScanDefined(curves: seq<Curve>, x: real, y: real)
  {
    forall j :: 0 <= j < |curves| && NoHitBefore(curves, x, y, j) ==> CanHitTest(curves[j])
  }

  /** The first position from `from` on whose curve is under the cursor, or
      -1 when there is none. */
  function FirstHit(curves: seq<Curve>, x: real, y: real, from: nat): (r: int)
    requires from <= |curves| && AllCurvesValid(curves)
    ensures r == -1 || from <= r < |curves|
    ensures r != -1 ==> CurveHit(curves[r], x, y)
    ensures r != -1 ==> forall j :: from <= j < r ==> !CurveHit(curves[j], x, y)
    ensures r == -1 ==> forall j :: from <= j < |curves| ==> !CurveHit(curves[j], x, y)
    decreases |curves| - from
  {
    if from == |curves| then -1
    else if CurveHit(curves[from], x, y) then from
    else FirstHit(curves, x, y, from + 1)
  }

  /** `CurvesContainer::checkMouseCurves`: the lowest position of a curve
      whose `mouseOverCurve` reports a hit, or -1. */
  method CheckMouseCurves(curves: seq<Curve>, x: real, y: real) returns (r: int)
    requires AllCurvesValid(curves) && ScanDefined(curves, x, y)
    ensures r == FirstHit(curves, x, y, 0)
  {
    var i := 0;
    while i < |curves|
      invariant 0 <= i <= |curves|
      invariant NoHitBefore(curves, x, y, i)
      invariant FirstHit(curves, x, y, 0) == FirstHit(curves, x, y, i)
    {
      var hit := MouseOverCurve(curves[i], x, y);
      if hit {
        return i;
      }
      i := i + 1;
    }
    return -1;
  }

  /** A hit on a curve earlier in the list wins over any later one. */
  lemma FirstHitIsLowest(curves: seq<Curve>, x: real, y: real, i: nat)
    requires AllCurvesValid(curves) && i < |curves| && CurveHit(curves[i], x, y)
    ensures 0 <= FirstHit(curves, x, y, 0) <= i
  {
  }

  /** A list whose curves can all be hit-tested can be scanned anywhere. */
  lemma AllHitTestableScans(curves: seq<Curve>, x: real, y: real)
    requires forall i :: 0 <= i < |curves| ==> CanHitTest(curves[i])
    ensures ScanDefined(curves, x, y)
  {
  }

  /** A curve under the cursor shields the curves after it: a list of a
      Bezier or Lagrange curve whose first point is near the cursor, followed
      by a polyline without points, is scanned without fault and the scan
      reports the first curve. */
  lemma HitShieldsLaterCurves(c: Curve, x: real, y: real)
    requires CurveValid(c) && c.kind != PolylineKind && |c.controlPoints| >= 2
    requires Near(c.controlPoints[0], x, y)
    ensures var curves := [c, NewCurve(PolylineKind)];
      AllCurvesValid(curves) && ScanDefined(curves, x, y) && FirstHit(curves, x, y, 0) == 0
  {
    var curves := [c, NewCurve(PolylineKind)];
    NewCurveValid(PolylineKind);
    HitNearFirstPoint(c, x, y);
    assert !NoHitBefore(curves, x, y, 1) by {
      assert CurveValid(curves[0]) && CurveHit(curves[0], x, y);
    }
  }
}
