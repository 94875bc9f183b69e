/** `Polyline`: the hit test of a polyline, which checks the cursor against
    each segment between consecutive control points. */
module Polyline {
  import opened Geometry

  /** `Polyline::pointBetweenCtrlPoints`: the cursor `(mouseX, mouseY)` is on
      the segment from `a` to `b` when the cross product of `b - a` and the
      cursor offset is at most the tolerance in size (the cursor is near the
      line), and the dot product of the two lies between zero and the squared
      length of the segment (the cursor is between its ends). The tests run
      in the source's order, each returning false as soon as it fails. */
  function PointBetweenCtrlPoints(a: Point, b: Point, mouseX: real, mouseY: real): (r: bool)
    ensures r <==>
      var u, v := Sub(b, a), Sub(Point(mouseX, mouseY), a);
      Abs(Cross(u, v)) <= Tolerance && 0.0 <= Dot(v, u) <= Dot(u, u)
  {
    var crossProduct := (mouseY - a.y) * (b.x - a.x) - (mouseX - a.x) * (b.y - a.y);
    CrossProductAsWritten(a, b, mouseX, mouseY);
    if Abs(crossProduct) > Tolerance then false
    else
      var dotProduct := (mouseX - a.x) * (b.x - a.x) + (mouseY - a.y) * (b.y - a.y);
      if dotProduct < 0.0 then false
      else
        var lengthSquared := (b.x - a.x) * (b.x - a.x) + (b.y - a.y) * (b.y - a.y);
        if dotProduct > lengthSquared then false
        else true
  }

  /** The source's cross product is `Cross(b - a, cursor - a)` with its
      factors swapped. */
  lemma CrossProductAsWritten(a: Point, b: Point, mouseX: real, mouseY: real)
    ensures (mouseY - a.y) * (b.x - a.x) - (mouseX - a.x) * (b.y - a.y)
         == Cross(Sub(b, a), Sub(Point(mouseX, mouseY), a))
  {
    assert (mouseY - a.y) * (b.x - a.x) == (b.x - a.x) * (mouseY - a.y);
    assert (mouseX - a.x) * (b.y - a.y) == (b.y - a.y) * (mouseX - a.x);
  }

  /** The point `a + s * (b - a)` of the line through `a` and `b`. */
  function Along(a: Point, b: Point, s: real): Point
  {
    Add(a, Scale(Sub(b, a), s))
  }

  lemma CrossOfScaled(u: Point, s: real)
    ensures Cross(u, Scale(u, s)) == 0.0
  {
    assert u.x * (u.y * s) == u.y * (u.x * s);
  }

  lemma DotOfScaled(u: Point, s: real)
    ensures Dot(Scale(u, s), u) == s * Dot(u, u)
  {
  }

  lemma ScaleBetween(s: real, d: real)
    requires 0.0 <= s <= 1.0 && d >= 0.0
    ensures 0.0 <= s * d <= d
  {
  }

  lemma ScaleOutside(s: real, d: real)
    requires d > 0.0
    ensures s < 0.0 ==> s * d < 0.0
    ensures s > 1.0 ==> s * d > d
  {
  }

  lemma SquaredLength(u: Point)
    ensures Dot(u, u) >= 0.0
  {
    Square(u.x);
    Square(u.y);
  }

  lemma Square(r: real)
    ensures r * r >= 0.0
  {
    if r < 0.0 {
      assert r * r == (-r) * (-r);
    }
  }

  lemma OffsetAlong(a: Point, b: Point, s: real)
    ensures Sub(Along(a, b, s), a) == Scale(Sub(b, a), s)
  {
  }

  /** Every point of the segment itself, its two ends included, is a hit. */
  lemma SegmentPointsHit(a: Point, b: Point, s: real)
    requires 0.0 <= s <= 1.0
    ensures PointBetweenCtrlPoints(a, b, Along(a, b, s).x, Along(a, b, s).y)
  {
    var u := Sub(b, a);
    OffsetAlong(a, b, s);
    CrossOfScaled(u, s);
    DotOfScaled(u, s);
    SquaredLength(u);
    ScaleBetween(s, Dot(u, u));
  }

  /** A point of the line through a segment of positive (squared) length
      that lies before its start or past its end is not a hit, however close
      to the line it is. */
  lemma PointsPastTheEndsMiss(a: Point, b: Point, s: real)
    requires Dot(Sub(b, a), Sub(b, a)) > 0.0 && (s < 0.0 || s > 1.0)
    ensures !PointBetweenCtrlPoints(a, b, Along(a, b, s).x, Along(a, b, s).y)
  {
    var u := Sub(b, a);
    OffsetAlong(a, b, s);
    DotOutside(u, s);
  }

  lemma DotOutside(u: Point, s: real)
    requires Dot(u, u) > 0.0
    ensures s < 0.0 ==> Dot(Scale(u, s), u) < 0.0
    ensures s > 1.0 ==> Dot(Scale(u, s), u) > Dot(u, u)
  {
    var d := Dot(u, u);
    DotOfScaled(u, s);
    ScaleOutside(s, d);
  }

  /** Some segment between consecutive control points passes the test. */
  predicate OnSomeSegment(controlPoints: seq<Point>, mouseX: real, mouseY: real)
  {
    exists i :: 0 <= i < |controlPoints| - 1 &&
      PointBetweenCtrlPoints(controlPoints[i], controlPoints[i + 1], mouseX, mouseY)
  }

  /** `Polyline::mouseOverCurve`: tries the segments in order and reports
      the first hit. The source's loop bound `controlPoints.size() - 1` is
      unsigned, so with no control points it wraps around and the first
      `controlPoints.at(0)` throws: the method needs a control point. */
  method MouseOverCurve(controlPoints: seq<Point>, mouseX: real, mouseY: real) returns (hit: bool)
    requires |controlPoints| >= 1
    ensures hit == OnSomeSegment(controlPoints, mouseX, mouseY)
  {
    var i := 0;
    while i < |controlPoints| - 1
      invariant 0 <= i <= |controlPoints| - 1
      invariant forall j :: 0 <= j < i ==>
        !PointBetweenCtrlPoints(controlPoints[j], controlPoints[j + 1], mouseX, mouseY)
    {
      var doesPointExist := PointBetweenCtrlPoints(controlPoints[i], controlPoints[i + 1], mouseX, mouseY);
      if doesPointExist {
        return true;
      }
      i := i + 1;
    }
    return false;
  }
}
