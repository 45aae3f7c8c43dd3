/** The scalar helpers of the geometry library (packages/common/src/math.ts),
    over exact reals.  Rounding follows JavaScript's `Math.round`: the nearest
    integer, with halves rounded towards +infinity. */
module ScalarMath {
  import opened Wrappers

  /** `Math.PI` as JavaScript prints it. */
  const PI: real := 3.141592653589793

  /** Default tolerance of `Close` (`FLOAT_EQUAL_PRECISION`). */
  const FLOAT_EQUAL_PRECISION: real := 0.001

  /** Values strictly inside (-ZERO_TOLERANCE, ZERO_TOLERANCE) count as zero. */
  const ZERO_TOLERANCE: real := 0.0001

  function Abs(v: real): (r: real)
    ensures r >= 0.0 && (r == v || r == -v)
  {
    if v < 0.0 then -v else v
  }

  /** `Math.min` of two values. */
  function Min(a: real, b: real): (r: real)
    ensures r <= a && r <= b
    ensures r == a || r == b
  {
    if a <= b then a else b
  }

  /** `Math.max` of two values. */
  function Max(a: real, b: real): (r: real)
    ensures r >= a && r >= b
    ensures r == a || r == b
  {
    if a >= b then a else b
  }

  /** True when `v` has no fractional part. */
  predicate IsInteger(v: real) {
    v.Floor as real == v
  }

  /** `Math.round`: the integer nearest to `v`, a half rounded up. */
  function JsRound(v: real): (r: int)
    ensures r as real - 0.5 <= v < r as real + 0.5
  {
    (v + 0.5).Floor
  }

  /** No integer is closer to `v` than `JsRound(v)`. */
  lemma JsRoundIsNearest(v: real, k: int)
    ensures Abs(v - JsRound(v) as real) <= Abs(v - k as real)
  {
    var r := JsRound(v);
    if k < r {
      assert k as real <= r as real - 1.0;
    } else if k > r {
      assert k as real >= r as real + 1.0;
    }
  }

  /** `round(v, step?)`: with no step the nearest integer; with a step the
      multiple of `step` nearest to `v` (computed as `round(v / step) * step`). */
  function Round(v: real, step: Option<real>): (r: real)
    requires step.Some? ==> step.value != 0.0
    ensures step.None? ==> IsInteger(r) && Abs(v - r) <= 0.5
    ensures step.Some? ==> r / step.value == JsRound(v / step.value) as real
    ensures step.Some? ==> Abs(v - r) <= Abs(step.value) / 2.0
  {
    if step.Some? then
      StepBound(v, step.value, JsRound(v / step.value) as real);
      JsRound(v / step.value) as real * step.value
    else
      JsRound(v) as real
  }

  lemma DivMulCancel(x: real, d: real)
    requires d != 0.0
    ensures x / d * d == x
  {
  }

  lemma MulDivCancel(x: real, d: real)
    requires d != 0.0
    ensures x * d / d == x
  {
  }

  lemma MulMonotone(x: real, y: real, m: real)
    requires m >= 0.0 && x <= y
    ensures x * m <= y * m
  {
  }

  /** With a step, `round` multiplies the rounded quotient back by the step. */
  lemma RoundWithStep(v: real, s: real)
    requires s != 0.0
    ensures Round(v, Some(s)) == JsRound(v / s) as real * s
  {
  }

  /** Scaling a rounding error of at most 1/2 by the step. */
  lemma StepBound(v: real, s: real, k: real)
    requires s != 0.0
    requires Abs(v / s - k) <= 0.5
    ensures k * s / s == k
    ensures Abs(v - k * s) <= Abs(s) / 2.0
  {
    MulDivCancel(k, s);
    var q := v / s;
    DivMulCancel(v, s);
    HalfStep(v, s, k, q);
  }

  /** The same bound with the quotient `q = v / s` named. */
  lemma HalfStep(v: real, s: real, k: real, q: real)
    requires q * s == v
    requires Abs(q - k) <= 0.5
    ensures Abs(v - k * s) <= Abs(s) / 2.0
  {
    SubMul(q, k, s, v);
    BoundedProduct(q - k, s);
    assert Abs(v - k * s) == Abs((q - k) * s);
  }

  lemma SubMul(q: real, k: real, s: real, v: real)
    requires q * s == v
    ensures v - k * s == (q - k) * s
  {
  }

  /** A factor of magnitude at most 1/2 at most halves a magnitude. */
  lemma BoundedProduct(e: real, s: real)
    requires Abs(e) <= 0.5
    ensures Abs(e * s) <= Abs(s) / 2.0
  {
    AbsMul(e, s);
    MulMonotone(Abs(e), 0.5, Abs(s));
    assert Abs(e * s) == Abs(e) * Abs(s) <= 0.5 * Abs(s) == Abs(s) / 2.0;
  }

  lemma AbsMul(x: real, y: real)
    ensures Abs(x * y) == Abs(x) * Abs(y)
  {
    if x < 0.0 {
      if y < 0.0 {
        assert x * y == (-x) * (-y);
      } else {
        assert -(x * y) == (-x) * y;
      }
    } else if y < 0.0 {
      assert -(x * y) == x * (-y);
    }
  }

  /** `10 ** n` for an integer `n`, negative exponents included. */
  function Pow10(n: int): (r: real)
    ensures r > 0.0
    decreases if n < 0 then 1 - n else n
  {
    if n == 0 then 1.0
    else if n > 0 then 10.0 * Pow10(n - 1)
    else 1.0 / Pow10(-n)
  }

  /** Each step up the exponent multiplies by ten, negative exponents
      included, so `Pow10(n)` is 10^n. */
  lemma Pow10Step(n: int)
    ensures Pow10(n + 1) == 10.0 * Pow10(n)
  {
    if n < -1 {
      var q := Pow10(-n - 1);
      assert Pow10(-n) == 10.0 * q;
      assert Pow10(n) == 1.0 / (10.0 * q);
      assert Pow10(n + 1) == 1.0 / q;
    } else if n == -1 {
      assert Pow10(-n) == 10.0;
    }
  }

  /** `round(v * d) / d`: the multiple of `1/d` nearest to `v`, for `d > 0`. */
  function RoundToUnit(v: real, d: real): (r: real)
    requires d > 0.0
    ensures r * d == JsRound(v * d) as real
    ensures Abs(r - v) <= 0.5 / d
  {
    DivMulCancel(JsRound(v * d) as real, d);
    UnitBound(v, d, JsRound(v * d) as real / d);
    JsRound(v * d) as real / d
  }

  /** A value whose product with `d` is the integer nearest to `v * d` is
      within half of `1/d` of `v`. */
  lemma UnitBound(v: real, d: real, r: real)
    requires d > 0.0
    requires r * d == JsRound(v * d) as real
    ensures Abs(r - v) <= 0.5 / d
  {
    assert Abs(r * d - v * d) <= 0.5;
    AbsEq((r - v) * d, r * d - v * d);
    AbsMulPositive(r - v, d);
    DivBound(Abs(r - v), d, 0.5);
  }

  lemma AbsEq(x: real, y: real)
    requires x == y
    ensures Abs(x) == Abs(y)
  {
  }

  lemma AbsMulPositive(x: real, d: real)
    requires d > 0.0
    ensures Abs(x * d) == Abs(x) * d
  {
    if x < 0.0 {
      assert -(x * d) == (-x) * d;
    }
  }

  lemma DivBound(x: real, d: real, c: real)
    requires d > 0.0 && x * d <= c
    ensures x <= c / d
  {
    DivMulCancel(c, d);
    if x > c / d {
      MulStrict(c / d, x, d);
    }
  }

  lemma MulStrict(x: real, y: real, d: real)
    requires d > 0.0 && x < y
    ensures x * d < y * d
  {
  }

  /** `precision(v, n)`: a non-integer `n` leaves `v` unchanged; otherwise `v`
      is rounded to `n` decimal digits, `round(v * 10^n) / 10^n`, which lies
      within half a unit of the `n`-th decimal of `v`. */
  function Precision(v: real, n: real): (r: real)
    ensures !IsInteger(n) ==> r == v
    ensures IsInteger(n) ==> r == RoundToUnit(v, Pow10(n.Floor))
    ensures IsInteger(n) ==> Abs(r - v) <= 0.5 / Pow10(n.Floor)
  {
    if !IsInteger(n) then v else RoundToUnit(v, Pow10(n.Floor))
  }

  /** Degrees to radians. */
  function Radians(deg: real): (r: real)
    ensures r * 180.0 == deg * PI
  {
    (deg * PI) / 180.0
  }

  /** Radians to degrees. */
  function Degrees(rad: real): (r: real)
    ensures r * PI == rad * 180.0
  {
    (rad * 180.0) / PI
  }

  /** The two conversions are inverse to each other over the reals. */
  lemma DegreesRadiansInverse(x: real)
    ensures Degrees(Radians(x)) == x
    ensures Radians(Degrees(x)) == x
  {
  }

  /** `clamp(num, from, to)`: `from` below the range, `to` above it, `num`
      inside it; the lower bound is tested first. */
  function Clamp(num: real, from: real, to: real): (r: real)
    ensures num < from ==> r == from
    ensures from <= num && num > to ==> r == to
    ensures from <= num <= to ==> r == num
    ensures from <= to ==> from <= r <= to
  {
    if num < from then from
    else if num > to then to
    else num
  }

  /** `|num| < 1e-4`. */
  predicate AlmostZero(num: real) {
    Abs(num) < ZERO_TOLERANCE
  }

  /** The values `AlmostZero` accepts form the open interval (-1e-4, 1e-4). */
  lemma AlmostZeroInterval(num: real)
    ensures AlmostZero(num) <==> -0.0001 < num < 0.0001
  {
  }

  /** `roundToZero(num)`: 0 for an almost-zero value, the value otherwise. */
  function RoundToZero(num: real): (r: real)
    ensures AlmostZero(num) ==> r == 0.0
    ensures !AlmostZero(num) ==> r == num
    ensures Abs(r - num) < ZERO_TOLERANCE
  {
    if Abs(num) < ZERO_TOLERANCE then 0.0 else num
  }

  lemma RoundToZeroIdempotent(num: real)
    ensures RoundToZero(RoundToZero(num)) == RoundToZero(num)
  {
  }

  /** `close(a, b, precision?)`: `|a - b| <= precision`, with
      `FLOAT_EQUAL_PRECISION` when no precision is given. */
  function Close(num1: real, num2: real, precision: Option<real>): (r: bool)
    ensures precision.None? ==>
      (r <==> num2 - FLOAT_EQUAL_PRECISION <= num1 <= num2 + FLOAT_EQUAL_PRECISION)
    ensures precision.Some? ==> (r <==> num2 - precision.value <= num1 <= num2 + precision.value)
  {
    var p := precision.GetOr(FLOAT_EQUAL_PRECISION);
    Abs(num1 - num2) <= p
  }

  lemma CloseSymmetric(num1: real, num2: real, precision: Option<real>)
    ensures Close(num1, num2, precision) == Close(num2, num1, precision)
  {
  }

  /** `lerp(v0, v1, t) = (1 - t) * v0 + t * v1` meets `v0` at 0 and `v1` at 1
      and moves `t` of the way from `v0` to `v1`. */
  function Lerp(v0: real, v1: real, t: real): (r: real)
    ensures t == 0.0 ==> r == v0
    ensures t == 1.0 ==> r == v1
    ensures r - v0 == t * (v1 - v0)
  {
    (1.0 - t) * v0 + t * v1
  }

  /** The larger of the two magnitudes. */
  function MaxAbs(a: real, b: real): (r: real)
    ensures r >= Abs(a) && r >= Abs(b)
    ensures r == Abs(a) || r == Abs(b)
  {
    Max(Abs(a), Abs(b))
  }

  /** -1 for a negative number, +1 otherwise (zero included). */
  function Sign(n: real): (r: real)
    ensures r == -1.0 || r == 1.0
    ensures r == -1.0 <==> n < 0.0
  {
    if n < 0.0 then -1.0 else 1.0
  }

  lemma SignTimesAbs(n: real)
    ensures Sign(n) * Abs(n) == n
  {
  }

  /** The first example of the `round` documentation: 13.4 to a step of 0.5 is 13.5. */
  lemma RoundHalfStepExample()
    ensures Round(13.4, Some(0.5)) == 13.5
  {
    RoundWithStep(13.4, 0.5);
    assert JsRound(13.4 / 0.5) == 27;
  }

  /** The second example, evaluated by the code: 13.4 to a step of 0.3 gives
      13.5 (45 * 0.3), the multiple of 0.3 nearest to 13.4. */
  lemma RoundThirdStepExample()
    ensures Round(13.4, Some(0.3)) == 13.5
  {
    RoundWithStep(13.4, 0.3);
    assert JsRound(13.4 / 0.3) == 45;
  }
}
