/**
 * The static easing polynomials of the tween layer (classes Quad, Cubic,
 * Quartic, Quintic and Elastic). Each curve maps a ratio to a ratio; `float`
 * is modelled as `real`.
 */
module TweenEasing {

  // ---------------------------------------------------------------- Quad

  /** y = x*x */
  function QuadIn(r: real): (y: real)
    ensures r == 0.0 ==> y == 0.0
    ensures r == 1.0 ==> y == 1.0
    ensures y >= 0.0
  {
    r * r
  }

  /** y = x*(-x+2) */
  function QuadOut(r: real): (y: real)
    ensures r == 0.0 ==> y == 0.0
    ensures r == 1.0 ==> y == 1.0
    ensures y <= 1.0
  {
    r * (-r + 2.0)
  }

  /** y = x*(-3*x+4) */
  function QuadOutBack(r: real): (y: real)
    ensures r == 0.0 ==> y == 0.0
    ensures r == 1.0 ==> y == 1.0
  {
    r * (-3.0 * r + 4.0)
  }

  /** y = x*(3*x-2) */
  function QuadBackIn(r: real): (y: real)
    ensures r == 0.0 ==> y == 0.0
    ensures r == 1.0 ==> y == 1.0
  {
    r * (3.0 * r - 2.0)
  }

  // ---------------------------------------------------------------- Cubic

  /** y = x*x*x */
  function CubicIn(r: real): (y: real)
    ensures r == 0.0 ==> y == 0.0
    ensures r == 1.0 ==> y == 1.0
  {
    r * r * r
  }

  /** y = x*(x*(x-3)+3) */
  function CubicOut(r: real): (y: real)
    ensures r == 0.0 ==> y == 0.0
    ensures r == 1.0 ==> y == 1.0
  {
    r * (r * (r - 3.0) + 3.0)
  }

  /** y = -2*x*(x*(x-1.5)) */
  function CubicInOut(r: real): (y: real)
    ensures r == 0.0 ==> y == 0.0
    ensures r == 1.0 ==> y == 1.0
    ensures r == 0.5 ==> y == 0.5
  {
    -2.0 * r * (r * (r - 1.5))
  }

  /** y = x*(x*(4*x-6)+3) */
  function CubicOutIn(r: real): (y: real)
    ensures r == 0.0 ==> y == 0.0
    ensures r == 1.0 ==> y == 1.0
    ensures r == 0.5 ==> y == 0.5
  {
    r * (r * (4.0 * r - 6.0) + 3.0)
  }

  /** y = x*(x*(4*x-3)) */
  function CubicBackIn(r: real): (y: real)
    ensures r == 0.0 ==> y == 0.0
    ensures r == 1.0 ==> y == 1.0
  {
    r * (r * (4.0 * r - 3.0))
  }

  /** y = x*(x*(4*x-9)+6) */
  function CubicOutBack(r: real): (y: real)
    ensures r == 0.0 ==> y == 0.0
    ensures r == 1.0 ==> y == 1.0
  {
    r * (r * (4.0 * r - 9.0) + 6.0)
  }

  // ---------------------------------------------------------------- Quartic

  /** y = x*x*x*x */
  function QuarticIn(r: real): (y: real)
    ensures r == 0.0 ==> y == 0.0
    ensures r == 1.0 ==> y == 1.0
  {
    r * r * r * r
  }

  /** y = x*(x*(x*(-x+4)-6)+4) */
  function QuarticOut(r: real): (y: real)
    ensures r == 0.0 ==> y == 0.0
    ensures r == 1.0 ==> y == 1.0
  {
    r * (r * (r * (-r + 4.0) - 6.0) + 4.0)
  }

  /** y = x*(x*(x*(x+2)-4)+2) */
  function QuarticOutIn(r: real): (y: real)
    ensures r == 0.0 ==> y == 0.0
    ensures r == 1.0 ==> y == 1.0
  {
    r * (r * (r * (r + 2.0) - 4.0) + 2.0)
  }

  /** y = x*(x*(x*(x+2)+1)-3) */
  function QuarticBackIn(r: real): (y: real)
    ensures r == 0.0 ==> y == 0.0
    ensures r == 1.0 ==> y == 1.0
  {
    r * (r * (r * (r + 2.0) + 1.0) - 3.0)
  }

  /** y = x*(x*(x*(-2*x+10)-15)+8) */
  function QuarticOutBack(r: real): (y: real)
    ensures r == 0.0 ==> y == 0.0
    ensures r == 1.0 ==> y == 1.0
  {
    r * (r * (r * (-2.0 * r + 10.0) - 15.0) + 8.0)
  }

  // ---------------------------------------------------------------- Quintic

  /** y = x*x*x*x*x */
  function QuinticIn(r: real): (y: real)
    ensures r == 0.0 ==> y == 0.0
    ensures r == 1.0 ==> y == 1.0
  {
    r * r * r * r * r
  }

  /** y = x*(x*(x*(x*(x-5)+10)-10)+5) */
  function QuinticOut(r: real): (y: real)
    ensures r == 0.0 ==> y == 0.0
    ensures r == 1.0 ==> y == 1.0
  {
    r * (r * (r * (r * (r - 5.0) + 10.0) - 10.0) + 5.0)
  }

  // ---------------------------------------------------------------- Elastic

  /** y = x*(x*(x*(x*(56*x-175)+200)-100)+20) */
  function ElasticOutBig(r: real): (y: real)
    ensures r == 0.0 ==> y == 0.0
    ensures r == 1.0 ==> y == 1.0
  {
    r * (r * (r * (r * (56.0 * r + -175.0) + 200.0) + -100.0) + 20.0)
  }

  /** y = x*(x*(x*(x*(33*x-106)+126)-67)+15) */
  function ElasticOutSmall(r: real): (y: real)
    ensures r == 0.0 ==> y == 0.0
    ensures r == 1.0 ==> y == 1.0
  {
    r * (r * (r * (r * (33.0 * r + -106.0) + 126.0) + -67.0) + 15.0)
  }

  /** y = x*(x*(x*(x*(33*x-59)+32)-5)) */
  function ElasticInBig(r: real): (y: real)
    ensures r == 0.0 ==> y == 0.0
    ensures r == 1.0 ==> y == 1.0
  {
    r * (r * (r * (r * (33.0 * r + -59.0) + 32.0) + -5.0))
  }

  /** y = x*(x*(x*(x*(56*x-105)+60)-10)) */
  function ElasticInSmall(r: real): (y: real)
    ensures r == 0.0 ==> y == 0.0
    ensures r == 1.0 ==> y == 1.0
  {
    r * (r * (r * (r * (56.0 * r + -105.0) + 60.0) + -10.0))
  }

  // ---------------------------------------------------------------- properties

  /** Each Out curve is the In curve reflected through (1/2, 1/2). */
  lemma OutIsReflectedIn(r: real)
    ensures QuadOut(r) == 1.0 - QuadIn(1.0 - r)
    ensures CubicOut(r) == 1.0 - CubicIn(1.0 - r)
    ensures QuarticOut(r) == 1.0 - QuarticIn(1.0 - r)
    ensures QuinticOut(r) == 1.0 - QuinticIn(1.0 - r)
  {
    var s := 1.0 - r;
    assert s * s == 1.0 - 2.0 * r + r * r;
    assert s * s * s == 1.0 - 3.0 * r + 3.0 * r * r - r * r * r;
    assert s * s * s * s == 1.0 - 4.0 * r + 6.0 * r * r - 4.0 * r * r * r + r * r * r * r;
    assert s * s * s * s * s
      == 1.0 - 5.0 * r + 10.0 * r * r - 10.0 * r * r * r + 5.0 * r * r * r * r - r * r * r * r * r;
  }

  /** Cubic.InOut is the smoothstep polynomial 3r^2 - 2r^3, point-symmetric about (1/2, 1/2). */
  lemma CubicInOutSymmetric(r: real)
    ensures CubicInOut(r) == 3.0 * r * r - 2.0 * r * r * r
    ensures CubicInOut(1.0 - r) == 1.0 - CubicInOut(r)
  {
    var s := 1.0 - r;
    assert s * s == 1.0 - 2.0 * r + r * r;
    assert s * s * s == 1.0 - 3.0 * r + 3.0 * r * r - r * r * r;
  }

  /** Quad.BackIn undershoots below 0 on (0, 2/3); for instance it is -1/3 at r = 1/3. */
  lemma QuadBackInOvershoot(r: real)
    requires 0.0 < r < 2.0 / 3.0
    ensures QuadBackIn(r) < 0.0
    ensures QuadBackIn(1.0 / 3.0) == -1.0 / 3.0
  {
    var f := 3.0 * r - 2.0;
    assert f < 0.0;
    assert r * f < 0.0 * f by {
      assert (r - 0.0) * f < 0.0;
    }
  }

  /** A product of factors in [0,1] stays in [0,1]. */
  lemma UnitProduct(a: real, b: real)
    requires 0.0 <= a <= 1.0 && 0.0 <= b <= 1.0
    ensures 0.0 <= a * b <= a
  {
  }

  /** Products of non-negative factors are monotone in each factor. */
  lemma MonotoneProduct(a: real, b: real, c: real, d: real)
    requires 0.0 <= a <= b && 0.0 <= c <= d
    ensures a * c <= b * d
  {
    assert a * c <= a * d;
    assert a * d <= b * d;
  }

  /** The In curves map [0,1] into [0,1]. */
  lemma InCurvesStayInUnit(r: real)
    requires 0.0 <= r <= 1.0
    ensures 0.0 <= QuadIn(r) <= 1.0
    ensures 0.0 <= CubicIn(r) <= 1.0
    ensures 0.0 <= QuarticIn(r) <= 1.0
    ensures 0.0 <= QuinticIn(r) <= 1.0
  {
    UnitProduct(r, r);
    UnitProduct(r * r, r);
    UnitProduct(r * r * r, r);
    UnitProduct(r * r * r * r, r);
  }

  /** The In curves are non-decreasing on [0,1]. */
  lemma InCurvesMonotone(a: real, b: real)
    requires 0.0 <= a <= b <= 1.0
    ensures QuadIn(a) <= QuadIn(b)
    ensures CubicIn(a) <= CubicIn(b)
    ensures QuarticIn(a) <= QuarticIn(b)
    ensures QuinticIn(a) <= QuinticIn(b)
  {
    MonotoneProduct(a, b, a, b);
    assert 0.0 <= a * a * a by { UnitProduct(a, a); UnitProduct(a * a, a); }
    assert 0.0 <= a * a * a * a by { UnitProduct(a, a); UnitProduct(a * a, a); UnitProduct(a * a * a, a); }
    MonotoneProduct(a * a, b * b, a, b);
    MonotoneProduct(a * a * a, b * b * b, a, b);
    MonotoneProduct(a * a * a * a, b * b * b * b, a, b);
  }
}
