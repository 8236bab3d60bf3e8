/**
 * The static scalar curve formulas of class `Spline` (Linear, Catmull-Rom and
 * cubic Bezier) and the dispatch `Lerp` that picks one by spline type.
 */
module SplineMath {

  /** Sampling method of a spline (enum SplineType). */
  datatype SplineType = LinearSpline | CatmullSpline | BezierCubicSpline

  /** v0 + (v1 - v0) * r */
  function Linear(v0: real, v1: real, r: real): (v: real)
    ensures r == 0.0 ==> v == v0
    ensures r == 1.0 ==> v == v1
    ensures v0 == v1 ==> v == v0
  {
    v0 + (v1 - v0) * r
  }

  /** Catmull-Rom segment through v1 (r = 0) and v2 (r = 1), with v0 and v3 as tangent guides. */
  function Catmull(v0: real, v1: real, v2: real, v3: real, r: real): (v: real)
    ensures r == 0.0 ==> v == v1
    ensures r == 1.0 ==> v == v2
  {
    var r2 := r * r;
    var r3 := r2 * r;
    0.5 * ((2.0 * v1) + (-v0 + v2) * r + (2.0 * v0 - 5.0 * v1 + 4.0 * v2 - v3) * r2
           + (-v0 + 3.0 * v1 - 3.0 * v2 + v3) * r3)
  }

  /** Cubic Bezier segment from v0 (r = 0) to v3 (r = 1) with control points v1 and v2. */
  function Bezier3(v0: real, v1: real, v2: real, v3: real, r: real): (v: real)
    ensures r == 0.0 ==> v == v0
    ensures r == 1.0 ==> v == v3
  {
    var omr := 1.0 - r;
    var omr2 := omr * omr;
    var omr3 := omr2 * omr;
    var r2 := r * r;
    var r3 := r2 * r;
    (omr3 * v0) + (3.0 * omr2 * r * v1) + (3.0 * omr * r2 * v2) + (r3 * v3)
  }

  /** Spline.Lerp: Catmull and BezierCubic use four samples, any other type the first two. */
  function Lerp(t: SplineType, r: real, v: seq<real>): (x: real)
    requires |v| >= 4
    ensures t == LinearSpline ==> (r == 0.0 ==> x == v[0]) && (r == 1.0 ==> x == v[1])
    ensures t == CatmullSpline ==> (r == 0.0 ==> x == v[1]) && (r == 1.0 ==> x == v[2])
    ensures t == BezierCubicSpline ==> (r == 0.0 ==> x == v[0]) && (r == 1.0 ==> x == v[3])
  {
    match t
    case CatmullSpline => Catmull(v[0], v[1], v[2], v[3], r)
    case BezierCubicSpline => Bezier3(v[0], v[1], v[2], v[3], r)
    case LinearSpline => Linear(v[0], v[1], r)
  }

  /** A curve through four equal points is constant: the Catmull and Bezier weights sum to one. */
  lemma ConstantCurves(c: real, r: real)
    ensures Catmull(c, c, c, c, r) == c
    ensures Bezier3(c, c, c, c, r) == c
  {
    var omr := 1.0 - r;
    assert omr * omr == 1.0 - 2.0 * r + r * r;
    assert omr * omr * omr == 1.0 - 3.0 * r + 3.0 * r * r - r * r * r;
    assert omr * omr * omr + 3.0 * (omr * omr) * r + 3.0 * omr * (r * r) + r * r * r == 1.0;
    calc {
      Bezier3(c, c, c, c, r);
      (omr * omr * omr) * c + (3.0 * (omr * omr) * r) * c + (3.0 * omr * (r * r)) * c + ((r * r) * r) * c;
      (omr * omr * omr + 3.0 * (omr * omr) * r + 3.0 * omr * (r * r) + r * r * r) * c;
      c;
    }
  }
}
