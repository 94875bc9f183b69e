/** `Freeform` and its three kinds of curve: the control-point list with its
    append, erase and overwrite operations, the Lagrange knot vector kept in
    step with it, the proximity pick of a control point, evaluation and the
    hit test of a curve under the cursor. */
module Freeform {
  import opened Geometry
  import opened Vectors
  import Polyline
  import Bezier
  import Lagrange

  /** The three concrete curve classes. */
  datatype Kind = PolylineKind | BezierKind | LagrangeKind

  /** `Curve::curveType`, as the constructors of the three classes set it. */
  function CurveType(k: Kind): (r: int)
    ensures 0 <= r <= 2
  {
    match k
    case PolylineKind => 0
    case BezierKind => 1
    case LagrangeKind => 2
  }

  lemma CurveTypeInjective(k1: Kind, k2: Kind)
    ensures CurveType(k1) == CurveType(k2) <==> k1 == k2
  {
  }

  /** A curve: its kind, its control points, the knot vector (used by a
      Lagrange curve only, empty for the others) and the `selected` flag
      that rendering sets and key and mouse handlers clear. */
  datatype Curve = Curve(kind: Kind, controlPoints: seq<Point>, knots: seq<real>, selected: bool)

  /** A freshly constructed curve of the given kind. */
  function NewCurve(kind: Kind): Curve
  {
    Curve(kind, [], [], false)
  }

  /** The knots are in step with the control points: a Lagrange curve holds
      the evenly spaced vector for its point count, the others hold none. */
  predicate CurveValid(c: Curve)
  {
    if c.kind == LagrangeKind then c.knots == Lagrange.UniformKnots(|c.controlPoints|)
    else c.knots == []
  }

  lemma NewCurveValid(kind: Kind)
    ensures CurveValid(NewCurve(kind))
    ensures CurveType(NewCurve(kind).kind) == CurveType(kind)
    ensures NewCurve(kind).controlPoints == []
  {
    Lagrange.UniformKnotsEnds(0);
  }

  /** The curve with its point list replaced by `points`; a Lagrange curve
      rebuilds its knots for the new count, the others keep theirs. */
  function WithPoints(c: Curve, points: seq<Point>): Curve
  {
    c.(controlPoints := points,
       knots := if c.kind == LagrangeKind then Lagrange.UniformKnots(|points|) else c.knots)
  }

  /** Replacing the points keeps a valid curve valid, its kind and its
      `selected` flag, and (for a Lagrange curve) gives one knot per point,
      starting at zero. */
  lemma WithPointsValid(c: Curve, points: seq<Point>)
    requires CurveValid(c)
    ensures CurveValid(WithPoints(c, points))
    ensures WithPoints(c, points).kind == c.kind && WithPoints(c, points).selected == c.selected
    ensures WithPoints(c, points).controlPoints == points
    ensures c.kind == LagrangeKind ==> |WithPoints(c, points).knots| == |points|
    ensures c.kind == LagrangeKind && |points| >= 1 ==> WithPoints(c, points).knots[0] == 0.0
  {
    Lagrange.UniformKnotsEnds(|points|);
  }

  /** `Freeform::addControlPoint`, and the override of `LagrangeCurve` that
      pushes the point and rebuilds the knot vector. */
  method AddControlPoint(c: Curve, p: Point) returns (r: Curve)
    ensures r == WithPoints(c, c.controlPoints + [p])
  {
    var points := c.controlPoints + [p];
    if c.kind == LagrangeKind {
      var knots := Lagrange.ComputeKnots(|points|);
      r := c.(controlPoints := points, knots := knots);
    } else {
      r := c.(controlPoints := points);
    }
  }

  /** `Freeform::eraseControlPoint`, and the override of `LagrangeCurve` that
      erases the point and rebuilds the knot vector. An index outside the
      list would be undefined behaviour in the source. */
  method EraseControlPoint(c: Curve, point: nat) returns (r: Curve)
    requires point < |c.controlPoints|
    ensures r == WithPoints(c, RemoveAt(c.controlPoints, point))
  {
    var points := c.controlPoints[..point] + c.controlPoints[point + 1..];
    if c.kind == LagrangeKind {
      var knots := Lagrange.ComputeKnots(|points|);
      r := c.(controlPoints := points, knots := knots);
    } else {
      r := c.(controlPoints := points);
    }
  }

  /** Adding a point and erasing it again gives the curve back. */
  lemma AddThenEraseLast(c: Curve, p: Point)
    requires CurveValid(c)
    ensures WithPoints(WithPoints(c, c.controlPoints + [p]), RemoveAt(c.controlPoints + [p], |c.controlPoints|)) == c
  {
    RemoveAppended(c.controlPoints, p);
  }

  /** `Freeform::setNewControlPointValue`: overwrites point `index` and
      nothing else (the knots depend only on the count and stay). The index
      must be in range: `vector::at` throws otherwise. */
  function SetNewControlPointValue(c: Curve, index: nat, newValue: Point): (r: Curve)
    requires index < |c.controlPoints|
    ensures |r.controlPoints| == |c.controlPoints| && r.controlPoints[index] == newValue
    ensures forall j :: 0 <= j < |c.controlPoints| && j != index ==> r.controlPoints[j] == c.controlPoints[j]
    ensures r.kind == c.kind && r.knots == c.knots && r.selected == c.selected
  {
    c.(controlPoints := c.controlPoints[index := newValue])
  }

  lemma SetNewControlPointValueValid(c: Curve, index: nat, newValue: Point)
    requires index < |c.controlPoints| && CurveValid(c)
    ensures CurveValid(SetNewControlPointValue(c, index, newValue))
  {
  }

  /** `Curve::setUnSelected`. */
  function SetUnSelected(c: Curve): (r: Curve)
    ensures !r.selected
    ensures r.kind == c.kind && r.controlPoints == c.controlPoints && r.knots == c.knots
  {
    c.(selected := false)
  }

  /** The first index from `from` on whose point is within the tolerance of
      the cursor on both axes, or -1 when there is none. */
  function FirstNear(points: seq<Point>, x: real, y: real, from: nat): (r: int)
    requires from <= |points|
    ensures r == -1 || from <= r < |points|
    ensures r != -1 ==> Near(points[r], x, y)
    ensures r != -1 ==> forall j :: from <= j < r ==> !Near(points[j], x, y)
    ensures r == -1 ==> forall j :: from <= j < |points| ==> !Near(points[j], x, y)
    decreases |points| - from
  {
    if from == |points| then -1
    else if Near(points[from], x, y) then from
    else FirstNear(points, x, y, from + 1)
  }

  /** `Freeform::getControlPointNearMouse`: the lowest index whose control
      point is near the cursor, or -1 (also for an empty list). */
  method GetControlPointNearMouse(points: seq<Point>, x: real, y: real) returns (r: int)
    ensures r == FirstNear(points, x, y, 0)
  {
    var i := 0;
    while i < |points|
      invariant 0 <= i <= |points|
      invariant FirstNear(points, x, y, 0) == FirstNear(points, x, y, i)
    {
      if Abs(points[i].x - x) < Tolerance && Abs(points[i].y - y) < Tolerance {
        return i;
      }
      i := i + 1;
    }
    return -1;
  }

  /** The point of a valid curve at parameter `t`. A polyline's `getPoint`
      is a stub that always gives the origin. */
  function Eval(c: Curve, t: real): Point
    requires CurveValid(c)
  {
    match c.kind
    case PolylineKind => Origin
    case BezierKind => Bezier.BezierPoint(c.controlPoints, t)
    case LagrangeKind =>
      Lagrange.UniformKnotsDistinct(|c.controlPoints|);
      Lagrange.LagrangePoint(c.controlPoints, c.knots, t)
  }

  /** The virtual `getPoint`, dispatched on the kind of the curve. */
  method GetPoint(c: Curve, t: real) returns (r: Point)
    requires CurveValid(c)
    ensures r == Eval(c, t)
  {
    match c.kind
    case PolylineKind => r := Origin;
    case BezierKind => r := Bezier.GetPoint(c.controlPoints, t);
    case LagrangeKind =>
      Lagrange.UniformKnotsDistinct(|c.controlPoints|);
      r := Lagrange.GetPoint(c.controlPoints, c.knots, t);
  }

  /** A Lagrange curve passes through each of its control points, at that
      point's knot. */
  lemma LagrangeCurveThroughPoints(c: Curve, k: nat)
    requires CurveValid(c) && c.kind == LagrangeKind && k < |c.controlPoints|
    ensures Eval(c, c.knots[k]) == c.controlPoints[k]
  {
    Lagrange.UniformKnotsDistinct(|c.controlPoints|);
    Lagrange.LagrangeInterpolates(c.controlPoints, c.knots, k);
  }

  /** A Bezier or Lagrange curve of two or more control points starts, at
      parameter zero, at its first control point. */
  lemma CurveStartsAtFirstPoint(c: Curve)
    requires CurveValid(c) && c.kind != PolylineKind && |c.controlPoints| >= 2
    ensures Eval(c, 0.0) == c.controlPoints[0]
  {
    if c.kind == BezierKind {
      Bezier.BezierStartsAtFirstPoint(c.controlPoints);
    } else {
      Lagrange.UniformKnotsEnds(|c.controlPoints|);
      LagrangeCurveThroughPoints(c, 0);
    }
  }

  /** The sampling parameter of step `k` of the hit-test loop, which starts
      at zero and adds one hundredth per step while below one. */
  function Sample(k: int): real
  {
    k as real * 0.01
  }

  /** Some one of the hundred samples `Sample(0)` … `Sample(99)` of the curve
      is near the cursor. */
  predicate SampledHit(c: Curve, x: real, y: real)
    requires CurveValid(c)
  {
    exists k :: 0 <= k < 100 && Near(Eval(c, Sample(k)), x, y)
  }

  /** `Curve::mouseOverCurve`, the sampling hit test that Bezier and
      Lagrange curves inherit: samples the curve at `i = 0, 0.01, …` while
      `i < 1` and reports the first sample near the cursor. */
  method SampledMouseOverCurve(c: Curve, x: real, y: real) returns (hit: bool)
    requires CurveValid(c)
    ensures hit == SampledHit(c, x, y)
  {
    var i := 0.0;
    ghost var k := 0;
    while i < 1.0
      invariant 0 <= k <= 100 && i == Sample(k)
      invariant forall j :: 0 <= j < k ==> !Near(Eval(c, Sample(j)), x, y)
      decreases 100 - k
    {
      var point := GetPoint(c, i);
      if Abs(x - point.x) < Tolerance && Abs(y - point.y) < Tolerance {
        assert Near(Eval(c, Sample(k)), x, y);
        return true;
      }
      i := i + 0.01;
      k := k + 1;
    }
    assert k == 100;
    hit := false;
  }

  /** A curve the cursor can be hit-tested against: a polyline needs a
      control point (see `Polyline.MouseOverCurve`). */
  predicate CanHitTest(c: Curve)
  {
    CurveValid(c) && (c.kind == PolylineKind ==> |c.controlPoints| >= 1)
  }

  /** The curve is under the cursor, as its own `mouseOverCurve` decides. */
  predicate CurveHit(c: Curve, x: real, y: real)
    requires CurveValid(c)
  {
    if c.kind == PolylineKind then Polyline.OnSomeSegment(c.controlPoints, x, y)
    else SampledHit(c, x, y)
  }

  /** The virtual `mouseOverCurve`, dispatched on the kind of the curve. */
  method MouseOverCurve(c: Curve, x: real, y: real) returns (hit: bool)
    requires CanHitTest(c)
    ensures hit == CurveHit(c, x, y)
  {
    if c.kind == PolylineKind {
      hit := Polyline.MouseOverCurve(c.controlPoints, x, y);
    } else {
      hit := SampledMouseOverCurve(c, x, y);
    }
  }

  /** A cursor near the first control point of a Bezier or Lagrange curve
      hits the curve: the first sample is that point. */
  lemma HitNearFirstPoint(c: Curve, x: real, y: real)
    requires CurveValid(c) && c.kind != PolylineKind && |c.controlPoints| >= 2
    requires Near(c.controlPoints[0], x, y)
    ensures CurveHit(c, x, y)
  {
    CurveStartsAtFirstPoint(c);
    assert Sample(0) == 0.0;
    assert Near(Eval(c, Sample(0)), x, y);
  }

  /** A cursor on a segment of a polyline hits the polyline. */
  lemma HitOnPolylineSegment(c: Curve, i: nat, s: real)
    requires CurveValid(c) && c.kind == PolylineKind && i + 1 < |c.controlPoints| && 0.0 <= s <= 1.0
    ensures CurveHit(c, Polyline.Along(c.controlPoints[i], c.controlPoints[i + 1], s).x,
                        Polyline.Along(c.controlPoints[i], c.controlPoints[i + 1], s).y)
  {
    var p := Polyline.Along(c.controlPoints[i], c.controlPoints[i + 1], s);
    Polyline.SegmentPointsHit(c.controlPoints[i], c.controlPoints[i + 1], s);
    assert Polyline.PointBetweenCtrlPoints(c.controlPoints[i], c.controlPoints[i + 1], p.x, p.y);
  }
}
