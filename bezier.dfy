/** `BezierCurve`: the recursive Bernstein weight and the weighted sum of the
    control points that gives a point of the curve. */
module Bezier {
  import opened Geometry

  /** The blend `(1 - t) * a + t * b` of the Bernstein recursion. */
  function Blend(t: real, a: real, b: real): real
  {
    (1.0 - t) * a + t * b
  }

  /** `BezierCurve::bernstein(i, n, t)`, with the source's case order: the
      degree-one case is tested first, then the out-of-range indices, then the
      recursion on the degree. Degree zero is not a base case, so
      `Bernstein(0, 0, t)` recurses to degree -1 and is 0. */
  function Bernstein(i: int, n: int, t: real): (r: real)
    ensures i < 0 || i > n ==> r == 0.0
    decreases if n < 0 then 0 else n + 1
  {
    if n == 1 then
      if i == 0 then 1.0 - t else if i == 1 then t else 0.0
    else if i < 0 || i > n then 0.0
    else Blend(t, Bernstein(i, n - 1, t), Bernstein(i - 1, n - 1, t))
  }

  /** The weights the evaluation loop uses for `count` control points: the
      degree is `count - 1`. */
  function BezierWeights(count: nat, t: real): (ws: seq<real>)
    ensures |ws| == count
  {
    seq(count, i => Bernstein(i, count - 1, t))
  }

  /** The point of the curve at parameter `t`. */
  function BezierPoint(controlPoints: seq<Point>, t: real): Point
  {
    Combination(controlPoints, BezierWeights(|controlPoints|, t), |controlPoints|)
  }

  /** `BezierCurve::getPoint`: accumulates the weighted control points in `r`. */
  method GetPoint(controlPoints: seq<Point>, t: real) returns (r: Point)
    ensures r == BezierPoint(controlPoints, t)
  {
    ghost var ws := BezierWeights(|controlPoints|, t);
    r := Origin;
    var i := 0;
    while i < |controlPoints|
      invariant 0 <= i <= |controlPoints|
      invariant r == Combination(controlPoints, ws, i)
    {
      var weight := Bernstein(i, |controlPoints| - 1, t);
      r := Add(r, Scale(controlPoints[i], weight));
      i := i + 1;
    }
  }

  /** The sum of a sequence of weights. */
  function Sum(s: seq<real>): real
  {
    if s == [] then 0.0 else Sum(s[..|s| - 1]) + s[|s| - 1]
  }

  lemma BlendOfEqual(t: real, a: real, b: real)
    requires a == b
    ensures Blend(t, a, b) == a
  {
  }

  lemma BlendAdd(t: real, a: real, b: real, u: real, v: real)
    ensures Blend(t, a, b) + Blend(t, u, v) == Blend(t, a + u, b + v)
  {
  }

  /** Summing commutes with blending. */
  lemma {:induction false} SumOfBlends(w: seq<real>, x: seq<real>, y: seq<real>, t: real)
    requires |w| == |x| == |y|
    requires forall i :: 0 <= i < |w| ==> w[i] == Blend(t, x[i], y[i])
    ensures Sum(w) == Blend(t, Sum(x), Sum(y))
  {
    if w != [] {
      var m := |w| - 1;
      SumOfBlends(w[..m], x[..m], y[..m], t);
      assert w[m] == Blend(t, x[m], y[m]);
      BlendAdd(t, Sum(x[..m]), Sum(y[..m]), x[m], y[m]);
    }
  }

  lemma {:induction false} SumOfZeroThen(s: seq<real>)
    ensures Sum([0.0] + s) == Sum(s)
  {
    if s != [] {
      var m := |s| - 1;
      assert ([0.0] + s)[..|s|] == [0.0] + s[..m];
      SumOfZeroThen(s[..m]);
    }
  }

  /** The recurrence holds for every index once the degree is at least two,
      out-of-range indices included. */
  lemma BernsteinRecurrence(i: int, n: int, t: real)
    requires n >= 2
    ensures Bernstein(i, n, t) == Blend(t, Bernstein(i, n - 1, t), Bernstein(i - 1, n - 1, t))
  {
    if i < 0 || i > n {
      var a, b := Bernstein(i, n - 1, t), Bernstein(i - 1, n - 1, t);
      assert a == 0.0 && b == 0.0;
      assert Blend(t, a, b) == 0.0;
    }
  }

  /** Degree-`n` weights, written as the blend of the degree-`n - 1` weights
      padded with a zero at the end and at the start. */
  lemma WeightsRecurrence(n: int, t: real)
    requires n >= 2
    ensures forall i :: 0 <= i < n + 1 ==>
      BezierWeights(n + 1, t)[i] == Blend(t, (BezierWeights(n, t) + [0.0])[i], ([0.0] + BezierWeights(n, t))[i])
  {
    var prev := BezierWeights(n, t);
    forall i | 0 <= i < n + 1
      ensures BezierWeights(n + 1, t)[i] == Blend(t, (prev + [0.0])[i], ([0.0] + prev)[i])
    {
      BernsteinRecurrence(i, n, t);
      assert (prev + [0.0])[i] == Bernstein(i, n - 1, t);
      assert ([0.0] + prev)[i] == Bernstein(i - 1, n - 1, t);
    }
  }

  /** Partition of unity: for degree `n >= 1` the weights `Bernstein(0, n, t)`
      through `Bernstein(n, n, t)` add up to one, for every `t`. */
  lemma {:induction false} BernsteinPartitionOfUnity(n: int, t: real)
    requires n >= 1
    ensures Sum(BezierWeights(n + 1, t)) == 1.0
  {
    if n == 1 {
      LinearWeightsSumToOne(t);
    } else {
      BernsteinPartitionOfUnity(n - 1, t);
      WeightsRecurrence(n, t);
      BlendedSumIsOne(BezierWeights(n + 1, t), BezierWeights(n, t), t);
    }
  }

  /** One step of the partition-of-unity induction, on plain sequences. */
  lemma BlendedSumIsOne(w: seq<real>, prev: seq<real>, t: real)
    requires |w| == |prev| + 1 && Sum(prev) == 1.0
    requires forall i :: 0 <= i < |w| ==> w[i] == Blend(t, (prev + [0.0])[i], ([0.0] + prev)[i])
    ensures Sum(w) == 1.0
  {
    SumOfBlends(w, prev + [0.0], [0.0] + prev, t);
    assert (prev + [0.0])[..|prev|] == prev;
    SumOfZeroThen(prev);
    BlendOfEqual(t, Sum(prev + [0.0]), Sum([0.0] + prev));
  }

  lemma LinearWeightsSumToOne(t: real)
    ensures Sum(BezierWeights(2, t)) == 1.0
  {
    var ws := BezierWeights(2, t);
    assert ws == [1.0 - t, t];
    assert ws[..1] == [1.0 - t] && ws[..1][..0] == [];
    assert Sum(ws[..1]) == 1.0 - t;
  }

  /** At `t = 0` only the first weight is non-zero, and it is one. */
  lemma {:induction false} BernsteinAtZero(i: int, n: int)
    requires n >= 1
    ensures Bernstein(i, n, 0.0) == if i == 0 then 1.0 else 0.0
  {
    if n >= 2 && 0 <= i <= n {
      BernsteinAtZero(i, n - 1);
    }
  }

  /** At `t = 1` only the last weight is non-zero, and it is one. */
  lemma {:induction false} BernsteinAtOne(i: int, n: int)
    requires n >= 1
    ensures Bernstein(i, n, 1.0) == if i == n then 1.0 else 0.0
  {
    if n >= 2 && 0 <= i <= n {
      BernsteinAtOne(i - 1, n - 1);
    }
  }

  /** On the parameter range [0, 1] every weight is non-negative. */
  lemma {:induction false} BernsteinNonNegative(i: int, n: int, t: real)
    requires 0.0 <= t <= 1.0
    ensures Bernstein(i, n, t) >= 0.0
    decreases if n < 0 then 0 else n + 1
  {
    if n != 1 && 0 <= i <= n {
      BernsteinNonNegative(i, n - 1, t);
      BernsteinNonNegative(i - 1, n - 1, t);
      BlendNonNegative(t, Bernstein(i, n - 1, t), Bernstein(i - 1, n - 1, t));
    }
  }

  lemma BlendNonNegative(t: real, a: real, b: real)
    requires 0.0 <= t <= 1.0 && a >= 0.0 && b >= 0.0
    ensures Blend(t, a, b) >= 0.0
  {
    MulNonNegative(1.0 - t, a);
    MulNonNegative(t, b);
  }

  lemma MulNonNegative(x: real, y: real)
    requires x >= 0.0 && y >= 0.0
    ensures x * y >= 0.0
  {
  }

  /** A curve of at least two control points starts at its first one. */
  lemma BezierStartsAtFirstPoint(controlPoints: seq<Point>)
    requires |controlPoints| >= 2
    ensures BezierPoint(controlPoints, 0.0) == controlPoints[0]
  {
    var ws := BezierWeights(|controlPoints|, 0.0);
    forall i | 0 <= i < |ws| ensures ws[i] == if i == 0 then 1.0 else 0.0 {
      BernsteinAtZero(i, |controlPoints| - 1);
    }
    CombinationOfUnitWeights(controlPoints, ws, 0);
  }

  /** ... and ends, at `t = 1`, at its last one. */
  lemma BezierEndsAtLastPoint(controlPoints: seq<Point>)
    requires |controlPoints| >= 2
    ensures BezierPoint(controlPoints, 1.0) == controlPoints[|controlPoints| - 1]
  {
    var ws := BezierWeights(|controlPoints|, 1.0);
    forall i | 0 <= i < |ws| ensures ws[i] == if i == |controlPoints| - 1 then 1.0 else 0.0 {
      BernsteinAtOne(i, |controlPoints| - 1);
    }
    CombinationOfUnitWeights(controlPoints, ws, |controlPoints| - 1);
  }

  /** With a single control point the degree is zero, every weight is zero
      and the evaluation gives the origin, not the control point. */
  lemma BezierOfOnePointIsOrigin(p: Point, t: real)
    ensures BezierPoint([p], t) == Origin
  {
    assert Bernstein(0, -1, t) == 0.0 && Bernstein(-1, -1, t) == 0.0;
    assert Blend(t, 0.0, 0.0) == 0.0;
    var ws := BezierWeights(1, t);
    assert ws[0] == 0.0;
    assert Combination([p], ws, 1) == Add(Origin, Scale(p, 0.0));
  }
}
