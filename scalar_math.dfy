/** Scalar helpers of the INKjs math utilities (src/ink/utils/math.js).
    JavaScript numbers are idealised as exact `real`s: NaN, the infinities,
    -0 and rounding are not modelled, so the divisions of `Normalize`, `Map`
    and `Smoothstep` require a non-degenerate range instead of producing NaN. */
module ScalarMath {

  /** Math.PI, as the exact decimal of its printed value. */
  const Pi: real := 3.141592653589793
  /** Factor from radians to degrees (RAD_TO_DEG). */
  const RadToDegFactor: real := 180.0 / Pi
  /** Factor from degrees to radians (DEG_TO_RAD). */
  const DegToRadFactor: real := Pi / 180.0

  /** Math.min and Math.max with two arguments. */
  function Min(a: real, b: real): (r: real)
    ensures r <= a && r <= b && (r == a || r == b)
  {
    if a <= b then a else b
  }

  function Max(a: real, b: real): (r: real)
    ensures a <= r && b <= r && (r == a || r == b)
  {
    if a >= b then a else b
  }

  /* Conversions
  ---------------------------------------------------------------------*/

  function RadToDeg(rad: real): (deg: real)
    ensures rad == Pi ==> deg == 180.0
  {
    rad * RadToDegFactor
  }

  function DegToRad(deg: real): (rad: real)
    ensures deg == 180.0 ==> rad == Pi
  {
    deg * DegToRadFactor
  }

  /** Converting to degrees and back (either way) is the identity. */
  lemma DegRadRoundTrip(x: real)
    ensures DegToRad(RadToDeg(x)) == x
    ensures RadToDeg(DegToRad(x)) == x
  {
    assert RadToDegFactor * DegToRadFactor == 1.0;
  }

  /* Ordering
  ---------------------------------------------------------------------*/

  /** Three-way comparison: 0 when equal, -1 when the first is smaller, 1 otherwise. */
  function Compare(num1: real, num2: real): (r: int)
    ensures r == 0 <==> num1 == num2
    ensures r == -1 <==> num1 < num2
    ensures r == 1 <==> num1 > num2
  {
    if num1 == num2 then 0
    else if num1 < num2 then -1
    else 1
  }

  lemma CompareAntisymmetric(a: real, b: real)
    ensures Compare(a, b) == -Compare(b, a)
  {
  }

  /** The sign of `num` is its comparison with zero. */
  function Sign(num: real): (r: int)
    ensures r == Compare(num, 0.0)
    ensures -1 <= r <= 1
  {
    if 0.0 < num then 1
    else if 0.0 > num then -1
    else 0
  }

  /** The sign of a product is the product of the signs. */
  lemma SignOfProduct(a: real, b: real)
    ensures Sign(a * b) == Sign(a) * Sign(b)
  {
    if a > 0.0 && b < 0.0 {
      assert a * b < 0.0;
    } else if a < 0.0 && b > 0.0 {
      assert a * b < 0.0;
    } else if a < 0.0 && b < 0.0 {
      assert a * b == (-a) * (-b);
    }
  }

  /** The fractional part: `num - Math.floor(num)`. */
  function Fract(num: real): (r: real)
    ensures 0.0 <= r < 1.0
    ensures (num - r).Floor as real == num - r
  {
    var f := num.Floor;
    assert (f as real).Floor == f;
    num - f as real
  }

  /** Shifting by a whole number leaves the fractional part unchanged. */
  lemma FractPeriodic(x: real, n: int)
    ensures Fract(x + n as real) == Fract(x)
  {
    var f := x.Floor;
    assert f as real <= x + n as real - n as real < f as real + 1.0;
    assert (x + n as real).Floor == f + n;
  }

  /* Clamping
  ---------------------------------------------------------------------*/

  /** `Math.max(Math.min(num, max), min)`. */
  function Clamp(num: real, min: real, max: real): (r: real)
    ensures min <= max ==> min <= r <= max
    ensures min <= num <= max ==> r == num
    ensures min <= max && num <= min ==> r == min
    ensures min <= max && max <= num ==> r == max
    ensures min > max ==> r == min
  {
    Max(Min(num, max), min)
  }

  lemma ClampIdempotent(num: real, min: real, max: real)
    ensures Clamp(Clamp(num, min, max), min, max) == Clamp(num, min, max)
  {
  }

  /** Clamping does not decrease order: it is monotone in its value. */
  lemma ClampMonotone(a: real, b: real, min: real, max: real)
    requires a <= b
    ensures Clamp(a, min, max) <= Clamp(b, min, max)
  {
  }

  /* Factorial
  ---------------------------------------------------------------------*/

  /** The factorial as a recursive definition. */
  function Fact(n: nat): (r: nat)
    ensures r >= 1
  {
    if n == 0 then 1 else n * Fact(n - 1)
  }

  lemma {:induction false} FactRecurrence(n: nat)
    ensures Fact(0) == 1
    ensures n > 0 ==> Fact(n) == n * Fact(n - 1)
  {
  }

  /** The `while(num)` loop: multiply the running total by num, count num down to 0. */
  method Factorial(num: nat) returns (total: nat)
    ensures total == Fact(num)
  {
    total := 1;
    var n: nat := num;
    while n != 0
      invariant total * Fact(n) == Fact(num)
      decreases n
    {
      IntMulAssociative(total, n, Fact(n - 1));
      total := total * n;
      n := n - 1;
    }
  }

  /* Ranges
  ---------------------------------------------------------------------*/

  /** `val` lies between the two bounds, in either order. */
  function InRange(val: real, min: real, max: real): (r: bool)
    ensures r <==> (min <= val <= max || max <= val <= min)
  {
    val >= Min(min, max) && val <= Max(min, max)
  }

  /** The two closed ranges, each given by bounds in either order, overlap. */
  function IsIntersect(rangeMin1: real, rangeMax1: real, rangeMin2: real, rangeMax2: real): (r: bool)
    ensures r <==> InRange(Min(rangeMin2, rangeMax2), rangeMin1, rangeMax1) ||
                   InRange(Min(rangeMin1, rangeMax1), rangeMin2, rangeMax2)
  {
    Max(rangeMin1, rangeMax1) >= Min(rangeMin2, rangeMax2) &&
    Min(rangeMin1, rangeMax1) <= Max(rangeMin2, rangeMax2)
  }

  lemma InRangeOrderFree(val: real, a: real, b: real)
    ensures InRange(val, a, b) == InRange(val, b, a)
  {
  }

  lemma IsIntersectOrderFree(a1: real, b1: real, a2: real, b2: real)
    ensures IsIntersect(a1, b1, a2, b2) == IsIntersect(b1, a1, a2, b2)
    ensures IsIntersect(a1, b1, a2, b2) == IsIntersect(a1, b1, b2, a2)
  {
  }

  lemma IsIntersectSymmetric(a1: real, b1: real, a2: real, b2: real)
    ensures IsIntersect(a1, b1, a2, b2) == IsIntersect(a2, b2, a1, b1)
  {
  }

  /** A value is in a range exactly when the one-point range [val, val] meets it. */
  lemma InRangeIsPointIntersect(val: real, min: real, max: real)
    ensures InRange(val, min, max) == IsIntersect(val, val, min, max)
  {
  }

  /** Two ranges intersect exactly when some value lies in both. */
  lemma IsIntersectMeaning(a1: real, b1: real, a2: real, b2: real)
    ensures IsIntersect(a1, b1, a2, b2) <==> exists x :: InRange(x, a1, b1) && InRange(x, a2, b2)
  {
    if IsIntersect(a1, b1, a2, b2) {
      var x := Max(Min(a1, b1), Min(a2, b2));
      assert InRange(x, a1, b1) && InRange(x, a2, b2);
    }
  }

  /* Interpolation
  ---------------------------------------------------------------------*/

  /** Linear interpolation `(max - min) * val + min`. */
  function Lerp(val: real, min: real, max: real): (r: real)
    ensures val == 0.0 ==> r == min
    ensures val == 1.0 ==> r == max
    ensures 0.0 <= val <= 1.0 ==> InRange(r, min, max)
  {
    LerpBetween(val, min, max);
    (max - min) * val + min
  }

  lemma LerpBetween(val: real, min: real, max: real)
    ensures 0.0 <= val <= 1.0 ==> InRange((max - min) * val + min, min, max)
  {
    if 0.0 <= val <= 1.0 {
      var p := (max - min) * val;
      ScaleBetween(max - min, val);
      assert min <= max ==> min <= p + min <= max;
      assert max <= min ==> max <= p + min <= min;
    }
  }

  /** `(val - min) / (max - min)`: where `val` sits between `min` (0) and `max` (1). */
  function Normalize(val: real, min: real, max: real): (r: real)
    requires min != max
    ensures val == min ==> r == 0.0
    ensures val == max ==> r == 1.0
    ensures InRange(val, min, max) ==> 0.0 <= r <= 1.0
    ensures min < max && val <= min ==> r <= 0.0
    ensures min < max && val >= max ==> r >= 1.0
  {
    NormalizeBetween(val, min, max);
    (val - min) / (max - min)
  }

  lemma NormalizeBetween(val: real, min: real, max: real)
    requires min != max
    ensures InRange(val, min, max) ==> 0.0 <= (val - min) / (max - min) <= 1.0
    ensures min < max && val <= min ==> (val - min) / (max - min) <= 0.0
    ensures min < max && val >= max ==> (val - min) / (max - min) >= 1.0
  {
    var d := max - min;
    if min < max {
      NormalizeIncreasing(val, min, max);
    } else if InRange(val, min, max) {
      DivNegate(val - min, d);
      DivMonotone(0.0, min - val, -d);
      DivMonotone(min - val, -d, -d);
      assert (-d) / (-d) == 1.0;
    }
  }

  lemma NormalizeIncreasing(val: real, min: real, max: real)
    requires min < max
    ensures val <= min ==> (val - min) / (max - min) <= 0.0
    ensures min <= val ==> 0.0 <= (val - min) / (max - min)
    ensures val <= max ==> (val - min) / (max - min) <= 1.0
    ensures max <= val ==> 1.0 <= (val - min) / (max - min)
  {
    var d := max - min;
    assert d / d == 1.0;
    if val <= min {
      DivMonotone(val - min, 0.0, d);
    } else {
      DivMonotone(0.0, val - min, d);
    }
    if val <= max {
      DivMonotone(val - min, d, d);
    } else {
      DivMonotone(d, val - min, d);
    }
  }

  /** Normalising and interpolating are inverse to each other. */
  lemma LerpNormalizeInverse(val: real, t: real, min: real, max: real)
    requires min != max
    ensures Lerp(Normalize(val, min, max), min, max) == val
    ensures Normalize(Lerp(t, min, max), min, max) == t
  {
    LerpOfNormalize(val, min, max);
    NormalizeOfLerp(t, min, max);
  }

  lemma LerpOfNormalize(val: real, min: real, max: real)
    requires min != max
    ensures Lerp(Normalize(val, min, max), min, max) == val
  {
    var d := max - min;
    assert d * ((val - min) / d) == val - min;
  }

  lemma NormalizeOfLerp(t: real, min: real, max: real)
    requires min != max
    ensures Normalize(Lerp(t, min, max), min, max) == t
  {
    assert Lerp(t, min, max) - min == (max - min) * t;
    DivOfMul(max - min, t);
  }

  /** Re-express `val` from the range fromMin..fromMax in the range toMin..toMax. */
  function Map(val: real, fromMin: real, fromMax: real, toMin: real, toMax: real): (r: real)
    requires fromMin != fromMax
    ensures val == fromMin ==> r == toMin
    ensures val == fromMax ==> r == toMax
    ensures InRange(val, fromMin, fromMax) ==> InRange(r, toMin, toMax)
  {
    Lerp(Normalize(val, fromMin, fromMax), toMin, toMax)
  }

  /** Mapping there and back returns the original value. */
  lemma MapInverse(val: real, a: real, b: real, c: real, d: real)
    requires a != b && c != d
    ensures Map(Map(val, a, b, c, d), c, d, a, b) == val
  {
    var t := Normalize(val, a, b);
    LerpNormalizeInverse(val, t, a, b);
    LerpNormalizeInverse(val, t, c, d);
  }

  /** Hermite interpolation `t * t * (3 - 2 * t)` of the clamped normalised value. */
  function Smoothstep(val: real, min: real, max: real): (r: real)
    requires min != max
    ensures 0.0 <= r <= 1.0
    ensures min < max && val <= min ==> r == 0.0
    ensures min < max && val >= max ==> r == 1.0
  {
    var t := Clamp(Normalize(val, min, max), 0.0, 1.0);
    HermiteBounds(t);
    t * t * (3.0 - 2.0 * t)
  }

  lemma HermiteBounds(t: real)
    requires 0.0 <= t <= 1.0
    ensures 0.0 <= t * t * (3.0 - 2.0 * t) <= 1.0
  {
    assert 1.0 - t * t * (3.0 - 2.0 * t) == (1.0 - t) * (1.0 - t) * (1.0 + 2.0 * t);
    MulNonnegative(t, t);
    MulNonnegative(t * t, 3.0 - 2.0 * t);
    MulNonnegative(1.0 - t, 1.0 - t);
    MulNonnegative((1.0 - t) * (1.0 - t), 1.0 + 2.0 * t);
  }

  /** Smoothstep is point-symmetric about the middle of the range. */
  lemma SmoothstepSymmetric(val: real, min: real, max: real)
    requires min != max
    ensures Smoothstep(min + max - val, min, max) == 1.0 - Smoothstep(val, min, max)
  {
    var t := Normalize(val, min, max);
    NormalizeReflect(val, min, max);
    var c := Clamp(t, 0.0, 1.0);
    ClampReflect(t);
    HermiteReflect(c);
    assert Smoothstep(val, min, max) == c * c * (3.0 - 2.0 * c);
    assert Smoothstep(min + max - val, min, max) == (1.0 - c) * (1.0 - c) * (3.0 - 2.0 * (1.0 - c));
  }

  lemma ClampReflect(t: real)
    ensures Clamp(1.0 - t, 0.0, 1.0) == 1.0 - Clamp(t, 0.0, 1.0)
  {
  }

  lemma NormalizeReflect(val: real, min: real, max: real)
    requires min != max
    ensures Normalize(min + max - val, min, max) == 1.0 - Normalize(val, min, max)
  {
    var d := max - min;
    var t := (val - min) / d;
    assert d * ((max - val) / d) == max - val;
    assert d * t == val - min;
    assert d * (1.0 - t) == d - d * t;
    MulCancel(d, (max - val) / d, 1.0 - t);
  }

  lemma HermiteReflect(c: real)
    ensures (1.0 - c) * (1.0 - c) * (3.0 - 2.0 * (1.0 - c)) == 1.0 - c * c * (3.0 - 2.0 * c)
  {
  }

  /* Arithmetic facts the solver does not find by itself
  ---------------------------------------------------------------------*/

  lemma IntMulAssociative(a: int, b: int, c: int)
    ensures a * (b * c) == (a * b) * c
  {
  }

  lemma MulNonnegative(a: real, b: real)
    requires 0.0 <= a && 0.0 <= b
    ensures 0.0 <= a * b
  {
  }

  lemma MulMonotone(a: real, b: real, c: real)
    requires 0.0 <= a && b <= c
    ensures a * b <= a * c
  {
    MulNonnegative(a, c - b);
    assert a * (c - b) == a * c - a * b;
  }

  lemma DivMonotone(a: real, b: real, d: real)
    requires 0.0 < d && a <= b
    ensures a / d <= b / d
  {
    MulMonotone(1.0 / d, a, b);
    assert a / d == (1.0 / d) * a;
    assert b / d == (1.0 / d) * b;
  }

  lemma ScaleBetween(d: real, t: real)
    requires 0.0 <= t <= 1.0
    ensures 0.0 <= d ==> 0.0 <= d * t <= d
    ensures d <= 0.0 ==> d <= d * t <= 0.0
  {
    assert d * (1.0 - t) == d - d * t;
    if 0.0 <= d {
      MulNonnegative(d, t);
      MulNonnegative(d, 1.0 - t);
    } else {
      MulNonnegative(-d, t);
      MulNonnegative(-d, 1.0 - t);
      assert (-d) * t == -(d * t);
      assert (-d) * (1.0 - t) == -(d * (1.0 - t));
    }
  }

  lemma DivOfMul(d: real, t: real)
    requires d != 0.0
    ensures (d * t) / d == t
  {
  }

  lemma MulCancel(d: real, x: real, y: real)
    requires d != 0.0 && d * x == d * y
    ensures x == y
  {
    assert d * (x - y) == 0.0;
  }

  lemma DivNegate(a: real, d: real)
    requires d != 0.0
    ensures a / d == (-a) / (-d)
  {
  }
}
