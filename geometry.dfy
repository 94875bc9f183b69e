/** Points of the normalised drawing plane and the little vector algebra the
    curves need (the `float2` type of the editor, over real numbers). */
module Geometry {

  /** A point (or a vector) of the plane. */
  datatype Point = Point(x: real, y: real)

  const Origin := Point(0.0, 0.0)

  /** Per-axis tolerance of every proximity test of the editor. */
  const Tolerance: real := 0.05

  /** Component-wise sum, `float2::operator+=`. */
  function Add(p: Point, q: Point): Point
  {
    Point(p.x + q.x, p.y + q.y)
  }

  function Sub(p: Point, q: Point): Point
  {
    Point(p.x - q.x, p.y - q.y)
  }

  /** The weighted point `p * w`. */
  function Scale(p: Point, w: real): Point
  {
    Point(p.x * w, p.y * w)
  }

  /** The z component of the cross product of two plane vectors. */
  function Cross(u: Point, v: Point): real
  {
    u.x * v.y - u.y * v.x
  }

  function Dot(u: Point, v: Point): real
  {
    u.x * v.x + u.y * v.y
  }

  function Abs(r: real): real
  {
    if r < 0.0 then -r else r
  }

  /** The per-axis (not Euclidean) proximity test: both coordinates of `p`
      are strictly within `Tolerance` of the cursor `(x, y)`. */
  predicate Near(p: Point, x: real, y: real)
  {
    Abs(p.x - x) < Tolerance && Abs(p.y - y) < Tolerance
  }

  /** The weighted sum `ps[0] * ws[0] + ... + ps[k-1] * ws[k-1]`, accumulated
      from the origin in index order, as the curves' `getPoint` loops do. */
  function Combination(ps: seq<Point>, ws: seq<real>, k: nat): Point
    requires k <= |ps| && k <= |ws|
  {
    if k == 0 then Origin else Add(Combination(ps, ws, k - 1), Scale(ps[k - 1], ws[k - 1]))
  }

  /** Weights that are one at `m` and zero elsewhere select the point `ps[m]`. */
  lemma {:induction false} CombinationOfUnitWeights(ps: seq<Point>, ws: seq<real>, m: nat)
    requires |ws| == |ps| && m < |ps|
    requires ws[m] == 1.0
    requires forall i :: 0 <= i < |ws| && i != m ==> ws[i] == 0.0
    ensures Combination(ps, ws, |ps|) == ps[m]
  {
    CombinationPrefix(ps, ws, m, |ps|);
  }

  lemma {:induction false} CombinationPrefix(ps: seq<Point>, ws: seq<real>, m: nat, k: nat)
    requires |ws| == |ps| && m < |ps| && k <= |ps|
    requires ws[m] == 1.0
    requires forall i :: 0 <= i < |ws| && i != m ==> ws[i] == 0.0
    ensures Combination(ps, ws, k) == if k > m then ps[m] else Origin
  {
    if k > 0 {
      CombinationPrefix(ps, ws, m, k - 1);
    }
  }
}
