/** The Kotlin/JVM numeric operations the compass code relies on, stated over
    unbounded `int` and exact `real`. Dafny's own `/` and `%` are Euclidean;
    Kotlin's truncate toward zero, so they are written out here. IEEE-754
    rounding is abstracted away: a `Float` is modelled by the real it denotes. */
module KotlinNum {
  import opened Results

  /** `x` is a whole number. */
  predicate IsInteger(x: real) {
    x == x.Floor as real
  }

  /** `a` and `b` differ by a whole number of `m`s. */
  predicate Congruent(a: real, b: real, m: real)
    requires m != 0.0
  {
    IsInteger((a - b) / m)
  }

  /** Two values a whole number of turns apart are congruent modulo a turn. */
  lemma CongruentFromTurns(a: real, b: real, k: int)
    requires a == b + 360.0 * k as real
    ensures Congruent(a, b, 360.0)
  {
    assert (a - b) / 360.0 == k as real;
  }

  /** The whole number of turns separating two congruent values. */
  function TurnsBetween(a: real, b: real): (k: int)
    requires Congruent(a, b, 360.0)
    ensures a == b + 360.0 * k as real
  {
    ((a - b) / 360.0).Floor
  }

  /** Integer part of `x`, rounding toward zero (Kotlin's `Float.toInt()`,
      and the quotient behind Kotlin's `Float %`). */
  function Trunc(x: real): (t: int)
    ensures x >= 0.0 ==> t >= 0 && t as real <= x < t as real + 1.0
    ensures x < 0.0 ==> t <= 0 && t as real - 1.0 < x <= t as real
  {
    if x >= 0.0 then x.Floor else -((-x).Floor)
  }

  /** Kotlin `x % 360f` (the truncated remainder, as C's `fmod` computes it): the result
      keeps the sign of the dividend `x`. 360 is the only modulus the compass
      code takes a `Float` remainder by. */
  function FloatRem360(x: real): (r: real)
    ensures x >= 0.0 ==> 0.0 <= r < 360.0
    ensures x < 0.0 ==> -360.0 < r <= 0.0
    ensures Congruent(r, x, 360.0)
  {
    var q := Trunc(x / 360.0);
    var r := x - 360.0 * q as real;
    CongruentFromTurns(r, x, -q);
    r
  }

  /** On a non-negative dividend, `FloatRem360` is the unique remainder in `[0, 360)`. */
  lemma FloatRem360Unique(x: real, k: int, r: real)
    requires x >= 0.0
    requires 0.0 <= r < 360.0 && x == r + k as real * 360.0
    ensures FloatRem360(x) == r
  {
    assert Trunc(x / 360.0) == k;
  }

  /** The rounding rule of Kotlin `roundToInt()` (Java's `Math.round`): the
      nearest integer, ties rounded toward positive infinity. The saturation
      at the ends of the `Int` range is added by `MathRound`. */
  function RoundToInt(x: real): (n: int)
    ensures x - 0.5 < n as real <= x + 0.5
  {
    (x + 0.5).Floor
  }

  /** `Int.MIN_VALUE` and `Int.MAX_VALUE`. */
  const IntMin: int := -0x8000_0000
  const IntMax: int := 0x7FFF_FFFF

  /** `x` rounds to a value inside the `Int` range, so no clamping happens. */
  predicate RoundsInRange(x: real) {
    IntMin as real - 0.5 <= x < IntMax as real + 0.5
  }

  /** Java's `Math.round` on a finite `Float`: the nearest integer, ties
      upward, saturated at the ends of the `Int` range. */
  function MathRound(x: real): (n: int)
    ensures IntMin <= n <= IntMax
    ensures RoundsInRange(x) ==> x - 0.5 < n as real <= x + 0.5
    ensures x < IntMin as real - 0.5 ==> n == IntMin
    ensures x >= IntMax as real + 0.5 ==> n == IntMax
  {
    var n := RoundToInt(x);
    if n < IntMin then IntMin else if n > IntMax then IntMax else n
  }

  /** Below the clamp, `MathRound` is the plain rounding rule. */
  lemma MathRoundInRange(x: real)
    requires RoundsInRange(x)
    ensures MathRound(x) == RoundToInt(x)
  {
  }

  /** A `Float` value: finite, NaN, or one of the two infinities. */
  datatype FloatValue = Finite(value: real) | NaN | Infinite(negative: bool)

  /** IEEE sum: NaN if either operand is NaN or the operands are opposite
      infinities; an infinity dominates any finite operand. */
  function FloatAdd(x: FloatValue, y: FloatValue): (r: FloatValue)
    ensures r.NaN? <==> x.NaN? || y.NaN? || (x.Infinite? && y.Infinite? && x.negative != y.negative)
    ensures r.Finite? <==> x.Finite? && y.Finite?
    ensures r.Finite? ==> r.value == x.value + y.value
  {
    match (x, y)
    case (Finite(a), Finite(b)) => Finite(a + b)
    case (NaN, _) => NaN
    case (_, NaN) => NaN
    case (Infinite(n), Infinite(m)) => if n == m then x else NaN
    case (Infinite(_), Finite(_)) => x
    case (Finite(_), Infinite(_)) => y
  }

  /** IEEE negation. */
  function FloatNeg(x: FloatValue): (r: FloatValue)
    ensures r.NaN? <==> x.NaN?
    ensures r.Infinite? ==> x.Infinite? && r.negative != x.negative
    ensures r.Finite? <==> x.Finite?
    ensures r.Finite? ==> r.value == -x.value
  {
    match x
    case Finite(a) => Finite(-a)
    case NaN => NaN
    case Infinite(n) => Infinite(!n)
  }

  /** IEEE quotient. Zero is unsigned here: it behaves as `+0f`. NaN comes from
      a NaN operand, `0/0` and `inf/inf`; a non-zero value over zero, or an
      infinity over a finite value, is an infinity with the sign of the
      quotient; a finite value over an infinity is zero. */
  function FloatDiv(x: FloatValue, y: FloatValue): (r: FloatValue)
    ensures r.NaN? <==> x.NaN? || y.NaN? || (x.Infinite? && y.Infinite?) || (x == Finite(0.0) && y == Finite(0.0))
    ensures r.Finite? <==> (x.Finite? && y.Finite? && y.value != 0.0) || (x.Finite? && y.Infinite?)
    ensures x.Finite? && y.Finite? && y.value != 0.0 ==> r.value == x.value / y.value
    ensures x.Finite? && y.Infinite? ==> r.value == 0.0
  {
    match (x, y)
    case (NaN, _) => NaN
    case (_, NaN) => NaN
    case (Infinite(_), Infinite(_)) => NaN
    case (Infinite(n), Finite(b)) => Infinite(n != (b < 0.0))
    case (Finite(_), Infinite(_)) => Finite(0.0)
    case (Finite(a), Finite(b)) =>
      if b != 0.0 then Finite(a / b)
      else if a == 0.0 then NaN
      else Infinite(a < 0.0)
  }

  /** IEEE product: NaN from a NaN operand or zero times an infinity. */
  function FloatMul(x: FloatValue, y: FloatValue): (r: FloatValue)
    ensures r.NaN? <==> x.NaN? || y.NaN? || (x == Finite(0.0) && y.Infinite?) || (x.Infinite? && y == Finite(0.0))
    ensures r.Finite? <==> x.Finite? && y.Finite?
    ensures r.Finite? ==> r.value == x.value * y.value
  {
    match (x, y)
    case (NaN, _) => NaN
    case (_, NaN) => NaN
    case (Finite(a), Finite(b)) => Finite(a * b)
    case (Infinite(n), Infinite(m)) => Infinite(n != m)
    case (Infinite(n), Finite(b)) => if b == 0.0 then NaN else Infinite(n != (b < 0.0))
    case (Finite(a), Infinite(m)) => if a == 0.0 then NaN else Infinite(m != (a < 0.0))
  }

  /** `roundToInt()` on NaN throws `IllegalArgumentException`. */
  datatype RoundingError = CannotRoundNaN

  /** Kotlin `Float.roundToInt()`: throws on NaN and is otherwise
      `Math.round`, so an infinity saturates at the `Int` bound on its side. */
  function RoundFloat(x: FloatValue): (r: Result<int, RoundingError>)
    ensures r.Failure? <==> x.NaN?
    ensures x.Finite? ==> r == Success(MathRound(x.value))
    ensures x.Infinite? ==> r == Success(if x.negative then IntMin else IntMax)
  {
    match x
    case NaN => Failure(CannotRoundNaN)
    case Infinite(negative) => Success(if negative then IntMin else IntMax)
    case Finite(v) => Success(MathRound(v))
  }

  /** Rounding commutes with shifting by a whole number. */
  lemma RoundShift(x: real, k: int)
    ensures RoundToInt(x + k as real) == RoundToInt(x) + k
  {
  }

  /** Kotlin `Int` division `a / b` for a positive divisor: truncates toward zero. */
  function IntDiv(a: int, b: int): (q: int)
    requires b > 0
    ensures a >= 0 ==> q >= 0 && q * b <= a < q * b + b
    ensures a < 0 ==> q <= 0 && q * b - b < a <= q * b
  {
    if a >= 0 then
      EuclideanDivision(a, b);
      a / b
    else
      EuclideanDivision(-a, b);
      assert -((-a) / b) * b == -(((-a) / b) * b);
      -((-a) / b)
  }

  /** Dafny's division on a non-negative dividend: the quotient's multiple
      lies within one divisor below the dividend. */
  lemma EuclideanDivision(n: int, b: int)
    requires n >= 0 && b > 0
    ensures n / b >= 0 && (n / b) * b <= n < (n / b) * b + b
  {
    assert n == (n / b) * b + n % b;
  }

  /** Kotlin `Int` remainder `a % b` for a positive divisor: the sign follows `a`. */
  function IntRem(a: int, b: int): (r: int)
    requires b > 0
    ensures a == IntDiv(a, b) * b + r
    ensures a >= 0 ==> 0 <= r < b
    ensures a < 0 ==> -b < r <= 0
  {
    a - IntDiv(a, b) * b
  }

  /** On non-negative operands Kotlin's and Dafny's division agree. */
  lemma IntDivRemNonNegative(a: int, b: int)
    requires a >= 0 && b > 0
    ensures IntDiv(a, b) == a / b && IntRem(a, b) == a % b
  {
  }

  /** `FloatRem360` of a whole number is the integer remainder. */
  lemma FloatRem360OfInt(n: int)
    requires n >= 0
    ensures FloatRem360(n as real) == (n % 360) as real
  {
    FloatRem360Unique(n as real, n / 360, (n % 360) as real);
  }
}
