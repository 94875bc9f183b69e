/** `LagrangeCurve`: the evenly spaced knot vector that is rebuilt whenever
    a control point is added or erased, the Lagrange basis weight over those
    knots, and the weighted sum of the control points. */
module Lagrange {
  import opened Geometry

  /** The knot spacing `1.0 / (vecSize - 1)` for `count` control points
      (minus one when there are none, a value no knot then uses). */
  function KnotIncrement(count: nat): real
    requires count != 1
  {
    1.0 / (count - 1) as real
  }

  /** The value `i * increment` of knot `i`. */
  function KnotAt(i: int, increment: real): real
  {
    i as real * increment
  }

  /** The knot vector the source evidently intends after a rebuild: `[0]`
      for a single control point, and otherwise `count` knots where knot `i`
      is `i` increments from zero. The source clears the vector and then
      writes `knots[i]` into the empty vector, which is undefined behaviour;
      this is the vector those writes are meant to produce. */
  function UniformKnots(count: nat): (knots: seq<real>)
    ensures |knots| == count
  {
    if count == 1 then [0.0] else seq(count, i => KnotAt(i, KnotIncrement(count)))
  }

  /** The knot rebuild shared by `LagrangeCurve::addControlPoint` and
      `LagrangeCurve::eraseControlPoint`: a running `counter` that starts at
      zero and grows by the increment once per knot. */
  method ComputeKnots(count: nat) returns (knots: seq<real>)
    ensures knots == UniformKnots(count)
  {
    if count == 1 {
      knots := [0.0];
      return;
    }
    var knotIncrement := 1.0 / (count - 1) as real;
    var counter := 0.0;
    knots := [];
    var i := 0;
    while i < count
      invariant 0 <= i <= count
      invariant counter == KnotAt(i, knotIncrement)
      invariant knots == seq(i, j => KnotAt(j, knotIncrement))
    {
      ghost var next := seq(i + 1, j => KnotAt(j, knotIncrement));
      assert next == knots + [counter] by {
        assert next[..i] == knots;
      }
      knots := knots + [counter];
      MulIncrement(i, knotIncrement);
      counter := counter + knotIncrement;
      i := i + 1;
    }
  }

  lemma MulIncrement(i: int, d: real)
    ensures KnotAt(i + 1, d) == KnotAt(i, d) + d
  {
  }

  lemma MulStrictlyIncreasing(a: real, b: real, c: real)
    requires a < b && c > 0.0
    ensures a * c < b * c
  {
  }

  lemma MulInverse(d: real)
    requires d != 0.0
    ensures d * (1.0 / d) == 1.0
  {
  }

  /** The knot vector starts at zero and, with two or more control points,
      ends at one; a single control point gives `[0]` and none gives `[]`. */
  lemma UniformKnotsEnds(count: nat)
    ensures count == 0 ==> UniformKnots(count) == []
    ensures count == 1 ==> UniformKnots(count) == [0.0]
    ensures count >= 1 ==> UniformKnots(count)[0] == 0.0
    ensures count >= 2 ==> UniformKnots(count)[count - 1] == 1.0
  {
    if count >= 2 {
      MulInverse((count - 1) as real);
    }
  }

  /** Consecutive knots are `1 / (count - 1)` apart. */
  lemma UniformKnotsSpacing(count: nat, i: nat)
    requires count >= 2 && i + 1 < count
    ensures UniformKnots(count)[i + 1] - UniformKnots(count)[i] == 1.0 / (count - 1) as real
  {
    MulIncrement(i, KnotIncrement(count));
  }

  /** Knots in strictly increasing order. */
  predicate Increasing(knots: seq<real>)
  {
    forall j, k :: 0 <= j < k < |knots| ==> knots[j] < knots[k]
  }

  /** Knots that are pairwise different, which the basis weight needs. */
  predicate Distinct(knots: seq<real>)
  {
    forall j, k :: 0 <= j < |knots| && 0 <= k < |knots| && j != k ==> knots[j] != knots[k]
  }

  lemma UniformKnotsIncreasing(count: nat)
    ensures Increasing(UniformKnots(count))
  {
    if count >= 2 {
      var knots := UniformKnots(count);
      forall j, k | 0 <= j < k < count ensures knots[j] < knots[k] {
        MulStrictlyIncreasing(j as real, k as real, KnotIncrement(count));
      }
    }
  }

  lemma UniformKnotsDistinct(count: nat)
    ensures Distinct(UniformKnots(count))
  {
    UniformKnotsIncreasing(count);
    var knots := UniformKnots(count);
    forall j, k | 0 <= j < count && 0 <= k < count && j != k ensures knots[j] != knots[k] {
      if j < k { assert knots[j] < knots[k]; } else { assert knots[k] < knots[j]; }
    }
  }

  /** The product of `t - knots[j]` over the first `m` knots, `j != i`. */
  function Numerator(knots: seq<real>, i: int, t: real, m: nat): real
    requires m <= |knots|
  {
    if m == 0 then 1.0
    else if m - 1 == i then Numerator(knots, i, t, m - 1)
    else Numerator(knots, i, t, m - 1) * (t - knots[m - 1])
  }

  /** The product of `knots[i] - knots[j]` over the first `m` knots, `j != i`. */
  function Denominator(knots: seq<real>, i: nat, m: nat): real
    requires m <= |knots| && i < |knots|
  {
    if m == 0 then 1.0
    else if m - 1 == i then Denominator(knots, i, m - 1)
    else Denominator(knots, i, m - 1) * (knots[i] - knots[m - 1])
  }

  lemma MulNonZero(a: real, b: real)
    requires a != 0.0 && b != 0.0
    ensures a * b != 0.0
  {
  }

  /** Over distinct knots no factor of the denominator is zero. */
  lemma {:induction false} DenominatorNonZero(knots: seq<real>, i: nat, m: nat)
    requires m <= |knots| && i < |knots| && Distinct(knots)
    ensures Denominator(knots, i, m) != 0.0
  {
    if m > 0 {
      DenominatorNonZero(knots, i, m - 1);
      if m - 1 != i {
        MulNonZero(Denominator(knots, i, m - 1), knots[i] - knots[m - 1]);
      }
    }
  }

  /** `LagrangeCurve::lagrange(i, n, t)`: the basis weight of control point
      `i`, the quotient of the two products over all knots. */
  function LagrangeWeight(knots: seq<real>, i: nat, t: real): real
    requires i < |knots| && Distinct(knots)
  {
    DenominatorNonZero(knots, i, |knots|);
    Numerator(knots, i, t, |knots|) / Denominator(knots, i, |knots|)
  }

  /** The loop of `LagrangeCurve::lagrange`, which runs `j` over every knot
      index and multiplies in the factors of every `j != i`. */
  method Weight(knots: seq<real>, i: nat, t: real) returns (weight: real)
    requires i < |knots| && Distinct(knots)
    ensures weight == LagrangeWeight(knots, i, t)
  {
    var numerator := 1.0;
    var denominator := 1.0;
    var j := 0;
    while j <= |knots| - 1
      invariant 0 <= j <= |knots|
      invariant numerator == Numerator(knots, i, t, j)
      invariant denominator == Denominator(knots, i, j)
    {
      if j != i {
        numerator := numerator * (t - knots[j]);
        denominator := denominator * (knots[i] - knots[j]);
      }
      j := j + 1;
    }
    DenominatorNonZero(knots, i, |knots|);
    weight := numerator / denominator;
  }

  /** Evaluated at the knot `knots[k]` with `k != i`, the factor for `k`
      makes the numerator vanish once `k` is among the first `m` knots. */
  lemma {:induction false} NumeratorVanishes(knots: seq<real>, i: nat, k: nat, m: nat)
    requires m <= |knots| && k < m && k != i
    ensures Numerator(knots, i, knots[k], m) == 0.0
  {
    if m - 1 != k {
      NumeratorVanishes(knots, i, k, m - 1);
    }
  }

  /** Evaluated at its own knot, the numerator equals the denominator. */
  lemma {:induction false} NumeratorAtOwnKnot(knots: seq<real>, i: nat, m: nat)
    requires m <= |knots| && i < |knots|
    ensures Numerator(knots, i, knots[i], m) == Denominator(knots, i, m)
  {
    if m > 0 {
      NumeratorAtOwnKnot(knots, i, m - 1);
    }
  }

  lemma DivSelf(d: real)
    requires d != 0.0
    ensures d / d == 1.0
  {
  }

  /** The basis weights are the Kronecker delta on the knots: weight `i` is
      one at its own knot and zero at every other knot. */
  lemma LagrangeAtKnot(knots: seq<real>, i: nat, k: nat)
    requires i < |knots| && k < |knots| && Distinct(knots)
    ensures LagrangeWeight(knots, i, knots[k]) == if i == k then 1.0 else 0.0
  {
    DenominatorNonZero(knots, i, |knots|);
    if i == k {
      NumeratorAtOwnKnot(knots, i, |knots|);
      DivSelf(Denominator(knots, i, |knots|));
    } else {
      NumeratorVanishes(knots, i, k, |knots|);
    }
  }

  /** The weights of all the control points at parameter `t`. */
  function LagrangeWeights(knots: seq<real>, t: real): (ws: seq<real>)
    requires Distinct(knots)
    ensures |ws| == |knots|
  {
    seq(|knots|, i requires 0 <= i < |knots| => LagrangeWeight(knots, i, t))
  }

  /** The point of the curve at parameter `t`. */
  function LagrangePoint(controlPoints: seq<Point>, knots: seq<real>, t: real): Point
    requires |knots| == |controlPoints| && Distinct(knots)
  {
    Combination(controlPoints, LagrangeWeights(knots, t), |controlPoints|)
  }

  /** `LagrangeCurve::getPoint`: accumulates the weighted control points. */
  method GetPoint(controlPoints: seq<Point>, knots: seq<real>, t: real) returns (r: Point)
    requires |knots| == |controlPoints| && Distinct(knots)
    ensures r == LagrangePoint(controlPoints, knots, t)
  {
    ghost var ws := LagrangeWeights(knots, t);
    r := Origin;
    var i := 0;
    while i < |controlPoints|
      invariant 0 <= i <= |controlPoints|
      invariant r == Combination(controlPoints, ws, i)
    {
      var weight := Weight(knots, i, t);
      r := Add(r, Scale(controlPoints[i], weight));
      i := i + 1;
    }
  }

  /** The curve passes through every control point: at its knot the curve is
      at that control point. */
  lemma LagrangeInterpolates(controlPoints: seq<Point>, knots: seq<real>, k: nat)
    requires |knots| == |controlPoints| && Distinct(knots) && k < |knots|
    ensures LagrangePoint(controlPoints, knots, knots[k]) == controlPoints[k]
  {
    var ws := LagrangeWeights(knots, knots[k]);
    forall i | 0 <= i < |ws| ensures ws[i] == if i == k then 1.0 else 0.0 {
      LagrangeAtKnot(knots, i, k);
    }
    CombinationOfUnitWeights(controlPoints, ws, k);
  }
}
