/** The two numeric helpers of utils.js that the carousel animation depends on:
    a quadratic ease-in-out curve and the signed shortest rotation between two
    angles. Arithmetic is on exact reals; pi is the exact value of the double Math.PI. */
module Utils {

  /** Math.PI: the IEEE double nearest to pi, written out exactly. */
  const PI: real := 3.141592653589793115997963468544185161590576171875

  /** One full turn, `Math.PI * 2`. */
  const TAU: real := PI * 2.0

  /** k full turns, as an angle in radians. */
  function Turns(k: int): real
  {
    k as real * TAU
  }

  function Abs(x: real): (r: real)
    ensures r >= 0.0 && (r == x || r == -x)
  {
    if x < 0.0 then -x else x
  }

  /** `x` lies in the closed interval spanned by `a` and `b`, whichever is larger. */
  predicate Between(x: real, a: real, b: real)
  {
    (a <= x <= b) || (b <= x <= a)
  }

  // ---------------------------------------------------------------------------
  // Products of reals. Each fact is stated on a product of two variables, so
  // that callers can name the factors and then use the fact linearly.

  lemma MulLe(x: real, y: real, z: real)
    requires 0.0 <= z && x <= y
    ensures x * z <= y * z
  {
  }

  lemma MulLt(x: real, y: real, z: real)
    requires 0.0 < z && x < y
    ensures x * z < y * z
  {
  }

  lemma ProductNonnegative(x: real, y: real)
    requires 0.0 <= x && 0.0 <= y
    ensures 0.0 <= x * y
  {
  }

  lemma ProductPositive(x: real, y: real)
    requires 0.0 < x && 0.0 < y
    ensures 0.0 < x * y
  {
  }

  lemma ProductAtMost(x: real, y: real)
    requires 0.0 <= x <= 1.0 && 0.0 <= y
    ensures x * y <= y
  {
  }

  lemma ProductStrictlyMonotone(a: real, b: real, c: real, d: real)
    requires 0.0 <= a < b && 0.0 <= c < d
    ensures a * c < b * d
  {
    MulLe(a, b, c);
    MulLt(c, d, b);
  }

  /** Scaling by a factor in [0, 1] keeps a number between zero and itself. */
  lemma ProductBetween(x: real, e: real)
    requires 0.0 <= e <= 1.0
    ensures Between(x * e, 0.0, x)
  {
    if 0.0 <= x {
      ProductNonnegative(x, e);
      ProductAtMost(e, x);
      assert e * x == x * e;
    } else {
      var y := -x;
      ProductNonnegative(y, e);
      ProductAtMost(e, y);
      assert e * y == -(x * e);
    }
  }

  /** Scaling by the smaller of two non-negative factors stays between zero and scaling
      by the larger one. */
  lemma ProductsOrdered(x: real, e: real, f: real)
    requires 0.0 <= e <= f
    ensures Between(x * e, 0.0, x * f)
  {
    if 0.0 <= x {
      ProductNonnegative(x, e);
      MulLe(e, f, x);
      assert e * x == x * e && f * x == x * f;
    } else {
      var y := -x;
      ProductNonnegative(y, e);
      MulLe(e, f, y);
      assert e * y == -(x * e) && f * y == -(x * f);
    }
  }

  /** The same, moved along by `from`. */
  lemma ShiftedProductsOrdered(from: real, x: real, e: real, f: real)
    requires 0.0 <= e <= f
    ensures Between(from + x * e, from, from + x * f)
  {
    ProductsOrdered(x, e, f);
  }

  // ---------------------------------------------------------------------------
  // JavaScript's `%` on numbers.

  /** Truncation toward zero (what JavaScript's `%` uses for the quotient). */
  function Trunc(x: real): (n: int)
    ensures 0.0 <= x ==> 0 <= n && n as real <= x < n as real + 1.0
    ensures x < 0.0 ==> n <= 0 && n as real - 1.0 < x <= n as real
  {
    if x >= 0.0 then x.Floor else -((-x).Floor)
  }

  /** Truncation commutes with negation, unlike floor. */
  lemma TruncOdd(x: real)
    ensures Trunc(-x) == -Trunc(x)
  {
  }

  /** JavaScript's `x % m` for a positive modulus: `x - trunc(x / m) * m`. */
  function JsRem(x: real, m: real): real
    requires m > 0.0
  {
    x - Trunc(x / m) as real * m
  }

  /** Reduced by a full turn, the remainder lies strictly inside (-2pi, 2pi), has the
      sign of the dividend, is the dividend shifted by whole turns, and a dividend
      already inside (-2pi, 2pi) comes back unchanged. */
  lemma JsRemTurnBounds(x: real)
    ensures -TAU < JsRem(x, TAU) < TAU
    ensures 0.0 <= x ==> 0.0 <= JsRem(x, TAU)
    ensures x <= 0.0 ==> JsRem(x, TAU) <= 0.0
    ensures JsRem(x, TAU) == x + Turns(-Trunc(x / TAU))
    ensures -TAU < x < TAU ==> JsRem(x, TAU) == x
  {
  }

  /** The remainder is an odd function of the dividend. */
  lemma JsRemTurnOdd(x: real)
    ensures JsRem(-x, TAU) == -JsRem(x, TAU)
  {
    TruncOdd(x / TAU);
  }

  // ---------------------------------------------------------------------------
  // easeInOutQuad

  /** easeInOutQuad: 2t^2 on the first half, 1 - 2(1-t)^2 on the second. */
  function EaseInOutQuad(t: real): real
  {
    if t < 0.5 then 2.0 * t * t else -1.0 + (4.0 - 2.0 * t) * t
  }

  /** The second half of the curve, rewritten around the distance `v` to the end. */
  lemma SecondHalfForm(t: real, v: real, d: real)
    requires v == 1.0 - t && d == 2.0 * v
    ensures -1.0 + (4.0 - 2.0 * t) * t == 1.0 - d * v
  {
  }

  lemma FirstHalfRange(t: real)
    requires 0.0 <= t < 0.5
    ensures 0.0 <= EaseInOutQuad(t) < 0.5
    ensures 0.0 < t ==> 0.0 < EaseInOutQuad(t)
  {
    var d := 2.0 * t;
    assert EaseInOutQuad(t) == d * t;
    ProductNonnegative(d, t);
    ProductAtMost(d, t);
    if 0.0 < t {
      ProductPositive(d, t);
    }
  }

  lemma SecondHalfRange(t: real)
    requires 0.5 <= t <= 1.0
    ensures 0.5 <= EaseInOutQuad(t) <= 1.0
    ensures t < 1.0 ==> EaseInOutQuad(t) < 1.0
  {
    var v := 1.0 - t;
    var d := 2.0 * v;
    SecondHalfForm(t, v, d);
    assert EaseInOutQuad(t) == 1.0 - d * v;
    ProductNonnegative(d, v);
    ProductAtMost(d, v);
    if 0.0 < v {
      ProductPositive(d, v);
    }
  }

  /** The curve maps [0, 1] into [0, 1], and the open interval into the open interval. */
  lemma EaseRange(t: real)
    ensures 0.0 <= t <= 1.0 ==> 0.0 <= EaseInOutQuad(t) <= 1.0
    ensures 0.0 < t < 1.0 ==> 0.0 < EaseInOutQuad(t) < 1.0
  {
    if 0.0 <= t < 0.5 {
      FirstHalfRange(t);
    } else if 0.5 <= t <= 1.0 {
      SecondHalfRange(t);
    }
  }

  /** The curve starts at 0, passes the middle at 1/2 and ends at 1. */
  lemma EaseEndpoints()
    ensures EaseInOutQuad(0.0) == 0.0
    ensures EaseInOutQuad(0.5) == 0.5
    ensures EaseInOutQuad(1.0) == 1.0
  {
  }

  /** The curve rises strictly on [0, 1]. */
  lemma EaseStrictlyIncreasing(s: real, t: real)
    requires 0.0 <= s < t <= 1.0
    ensures EaseInOutQuad(s) < EaseInOutQuad(t)
  {
    if t < 0.5 {
      var c, d := 2.0 * s, 2.0 * t;
      assert EaseInOutQuad(s) == c * s;
      assert EaseInOutQuad(t) == d * t;
      ProductStrictlyMonotone(c, d, s, t);
    } else if 0.5 <= s {
      // on the second half the curve is 1 - 2(1-t)^2, and 1 - t shrinks as t grows
      var u, v := 1.0 - s, 1.0 - t;
      var c, d := 2.0 * u, 2.0 * v;
      SecondHalfForm(s, u, c);
      SecondHalfForm(t, v, d);
      assert EaseInOutQuad(s) == 1.0 - c * u;
      assert EaseInOutQuad(t) == 1.0 - d * v;
      ProductStrictlyMonotone(d, c, v, u);
    } else {
      // the first half stays below 1/2, the second half at or above it
      FirstHalfRange(s);
      SecondHalfRange(t);
    }
  }

  /** The curve never goes backwards on [0, 1]. */
  lemma EaseMonotone(s: real, t: real)
    requires 0.0 <= s <= t <= 1.0
    ensures EaseInOutQuad(s) <= EaseInOutQuad(t)
  {
    if s < t {
      EaseStrictlyIncreasing(s, t);
    }
  }

  /** Point symmetry about (1/2, 1/2): easing out mirrors easing in. */
  lemma EaseSymmetric(t: real)
    ensures EaseInOutQuad(1.0 - t) == 1.0 - EaseInOutQuad(t)
  {
    var u := 1.0 - t;
    if t < 0.5 {
      var d := 2.0 * t;
      SecondHalfForm(u, t, d);
      assert EaseInOutQuad(u) == 1.0 - d * t;
      assert EaseInOutQuad(t) == d * t;
    } else if t > 0.5 {
      var d := 2.0 * u;
      SecondHalfForm(t, u, d);
      assert EaseInOutQuad(t) == 1.0 - d * u;
      assert EaseInOutQuad(u) == d * u;
    }
  }

  // ---------------------------------------------------------------------------
  // shortestAngleBetween

  /** shortestAngleBetween: the difference b - a reduced by JavaScript `%` to (-2pi, 2pi),
      then shifted by one turn when it lies beyond pi in either direction. The result
      is in the closed interval [-pi, pi]; a difference already there is kept. */
  function ShortestAngleBetween(a: real, b: real): (r: real)
    ensures -PI <= r <= PI
    ensures -PI <= b - a <= PI ==> r == b - a
  {
    var diff := JsRem(b - a, TAU);
    JsRemTurnBounds(b - a);
    diff + (if diff > PI then -TAU else if diff < -PI then TAU else 0.0)
  }

  /** The rotation lands on `b` up to whole turns: a + r and b are the same direction. */
  lemma ShortestAngleIsCongruent(a: real, b: real)
    ensures exists k: int :: ShortestAngleBetween(a, b) == b - a + Turns(k)
  {
    var x := b - a;
    var n := Trunc(x / TAU);
    var diff := JsRem(x, TAU);
    JsRemTurnBounds(x);
    var k := if diff > PI then -n - 1 else if diff < -PI then -n + 1 else -n;
    assert ShortestAngleBetween(a, b) == b - a + Turns(k);
  }

  /** No other representative of the same direction is a shorter rotation. */
  lemma ShortestAngleIsMinimal(a: real, b: real, k: int)
    ensures Abs(ShortestAngleBetween(a, b)) <= Abs(b - a + Turns(k))
  {
    ShortestAngleIsCongruent(a, b);
    var j :| ShortestAngleBetween(a, b) == b - a + Turns(j);
    // b - a + Turns(k) is the shortest rotation shifted by k - j whole turns
    assert b - a + Turns(k) == ShortestAngleBetween(a, b) + Turns(k - j);
  }

  /** Strictly inside (-pi, pi) there is only one rotation reaching `b`: any such
      representative of b - a is the result. */
  lemma ShortestAngleUnique(a: real, b: real, r: real, k: int)
    requires -PI < r < PI && r == b - a + Turns(k)
    ensures ShortestAngleBetween(a, b) == r
  {
    ShortestAngleIsCongruent(a, b);
    var j :| ShortestAngleBetween(a, b) == b - a + Turns(j);
    assert ShortestAngleBetween(a, b) - r == Turns(j - k);
  }

  /** Swapping the arguments reverses the rotation exactly, half turns included. */
  lemma ShortestAngleAntisymmetric(a: real, b: real)
    ensures ShortestAngleBetween(b, a) == -ShortestAngleBetween(a, b)
  {
    assert a - b == -(b - a);
    JsRemTurnOdd(b - a);
  }

  /** Both ends of [-pi, pi] are results: a half turn is reported with the sign of b - a. */
  lemma ShortestAngleHalfTurn(a: real)
    ensures ShortestAngleBetween(a, a + PI) == PI
    ensures ShortestAngleBetween(a, a - PI) == -PI
  {
  }
}
