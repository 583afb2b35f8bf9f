/** The pure helpers of `MathUtils`: snapping a value to a grid and testing
    whether an azimuth lies between two others. */
module MathUtils {
  import opened KotlinNum
  import opened Results
  import opened Azimuths

  /** The quotient `number / interval` is an ordinary finite value whose
      rounding stays inside the `Int` range. */
  predicate RoundsWithinInt(number: FloatValue, interval: FloatValue) {
    number.Finite? && interval.Finite? && interval.value != 0.0 &&
    RoundsInRange(number.value / interval.value)
  }

  /** `getClosestNumberFromInterval`: `(number / interval).roundToInt() * interval`
      on `Float` values. When the quotient rounds inside the `Int` range the
      result is a whole multiple of `interval`; for a positive interval it is
      the multiple in the window `(number - interval/2, number + interval/2]`,
      so a value exactly half-way between two multiples goes to the upper one.
      Otherwise the rounding saturates at `Int.MAX_VALUE` or `Int.MIN_VALUE`.
      A NaN quotient (a NaN operand, `0/0`, `inf/inf`) makes `roundToInt`
      throw; a zero interval is not guarded, and a non-zero number over it
      gives an infinite quotient, saturated and multiplied back to zero; an
      infinite interval gives `0 * inf`, a NaN result without an exception. */
  function ClosestNumberFromInterval(number: FloatValue, interval: FloatValue): (r: Result<FloatValue, RoundingError>)
    ensures r.Failure? <==>
              number.NaN? || interval.NaN? || (number.Infinite? && interval.Infinite?) ||
              (number == Finite(0.0) && interval == Finite(0.0))
    ensures RoundsWithinInt(number, interval) ==> r.Success? && r.value.Finite?
  {
    match RoundFloat(FloatDiv(number, interval))
    case Failure(e) => Failure(e)
    case Success(k) => Success(FloatMul(Finite(k as real), interval))
  }

  /** When the quotient rounds inside the `Int` range the result is a whole
      multiple of `interval` in the rounding window around `number`: for a
      positive interval `(number - interval/2, number + interval/2]`, and the
      mirror image for a negative one. */
  lemma ClosestNumberWithinIntRange(number: real, interval: real)
    requires interval != 0.0 && RoundsInRange(number / interval)
    ensures ClosestNumberFromInterval(Finite(number), Finite(interval)).Success?
    ensures ClosestNumberFromInterval(Finite(number), Finite(interval)).value.Finite?
    ensures IsInteger(ClosestNumberFromInterval(Finite(number), Finite(interval)).value.value / interval)
    ensures interval > 0.0 ==>
              number - interval / 2.0 < ClosestNumberFromInterval(Finite(number), Finite(interval)).value.value
                                      <= number + interval / 2.0
    ensures interval < 0.0 ==>
              number + interval / 2.0 <= ClosestNumberFromInterval(Finite(number), Finite(interval)).value.value
                                      < number - interval / 2.0
  {
    ClosestNumberValue(Finite(number), Finite(interval));
    var k := MathRound(number / interval);
    RoundedMultiple(number, interval, k);
    var v := ClosestNumberFromInterval(Finite(number), Finite(interval)).value.value;
    assert v == k as real * interval;
    MultipleQuotient(v, interval, k);
  }

  /** A whole multiple of `interval` divided by it is that whole number. */
  lemma MultipleQuotient(v: real, interval: real, k: int)
    requires interval != 0.0 && v == k as real * interval
    ensures IsInteger(v / interval)
  {
    assert v / interval == k as real;
    assert (k as real).Floor == k;
  }

  /** Inside the `Int` range the result is the rounded quotient times the interval. */
  lemma ClosestNumberValue(number: FloatValue, interval: FloatValue)
    requires RoundsWithinInt(number, interval)
    ensures ClosestNumberFromInterval(number, interval).Success?
    ensures ClosestNumberFromInterval(number, interval).value
              == Finite(MathRound(number.value / interval.value) as real * interval.value)
  {
    QuotientRoundsExactly(number, interval);
    var k := MathRound(number.value / interval.value);
    assert FloatMul(Finite(k as real), interval) == Finite(k as real * interval.value);
  }

  /** An ordinary quotient inside the `Int` range rounds without saturating. */
  lemma QuotientRoundsExactly(number: FloatValue, interval: FloatValue)
    requires RoundsWithinInt(number, interval)
    ensures RoundFloat(FloatDiv(number, interval)) == Success(MathRound(number.value / interval.value))
  {
  }

  /** The rounded quotient times the interval is a multiple in the window. */
  lemma RoundedMultiple(number: real, interval: real, k: int)
    requires interval != 0.0 && RoundsInRange(number / interval)
    requires k == MathRound(number / interval)
    ensures (k as real * interval) / interval == k as real
    ensures interval > 0.0 ==> number - interval / 2.0 < k as real * interval <= number + interval / 2.0
    ensures interval < 0.0 ==> number + interval / 2.0 <= k as real * interval < number - interval / 2.0
  {
    ScaleWindow(number, interval, k as real);
  }

  /** The cases where the quotient is not an ordinary `Int`-sized value:
      a finite quotient past the `Int` range saturates at the bound on its
      side; an infinite number does the same, and a zero interval then turns
      the result back into zero; an infinite interval yields NaN. */
  lemma ClosestNumberOutsideIntRange(number: FloatValue, interval: FloatValue)
    ensures number.Finite? && interval.Finite? && interval.value != 0.0 && !RoundsWithinInt(number, interval) ==>
              ClosestNumberFromInterval(number, interval) ==
              Success(Finite((if number.value / interval.value < 0.0 then IntMin else IntMax) as real * interval.value))
    ensures number.Infinite? && interval.Finite? ==>
              ClosestNumberFromInterval(number, interval) ==
              Success(Finite((if number.negative != (interval.value < 0.0) then IntMin else IntMax) as real * interval.value))
    ensures number.Finite? && number.value != 0.0 && interval == Finite(0.0) ==>
              ClosestNumberFromInterval(number, interval) == Success(Finite(0.0))
    ensures number.Finite? && interval.Infinite? ==> ClosestNumberFromInterval(number, interval) == Success(NaN)
  {
  }

  /** Multiplying the rounding window `(y - 1/2, y + 1/2]` around
      `y = number / interval` back by `interval`. */
  lemma ScaleWindow(number: real, interval: real, k: real)
    requires interval != 0.0
    requires number / interval - 0.5 < k <= number / interval + 0.5
    ensures interval > 0.0 ==> number - interval / 2.0 < k * interval <= number + interval / 2.0
    ensures interval < 0.0 ==> number + interval / 2.0 <= k * interval < number - interval / 2.0
  {
    var y := number / interval;
    var d := k - y;
    assert k * interval == y * interval + d * interval;
    assert y * interval == number;
    assert k * interval == number + d * interval;
    assert -0.5 < d <= 0.5;
    if interval > 0.0 {
      assert d * interval > -0.5 * interval;
      assert d * interval <= 0.5 * interval;
    } else {
      assert d * interval < -0.5 * interval;
      assert d * interval >= 0.5 * interval;
    }
  }

  /** For a positive interval there is exactly one multiple in the window, so
      any multiple found there whose factor is an `Int` is the helper's answer. */
  lemma {:induction false} ClosestIsTheOnlyMultipleInWindow(number: real, interval: real, k: int)
    requires interval > 0.0
    requires IntMin <= k <= IntMax
    requires number - interval / 2.0 < k as real * interval <= number + interval / 2.0
    ensures ClosestNumberFromInterval(Finite(number), Finite(interval)) == Success(Finite(k as real * interval))
  {
    WindowQuotient(number, interval, k);
    QuotientRoundsExactly(Finite(number), Finite(interval));
    assert MathRound(number / interval) == k;
    assert FloatMul(Finite(k as real), Finite(interval)) == Finite(k as real * interval);
  }

  /** A multiple `k * interval` in the window has `number / interval` within
      half a unit of `k`, so it rounds to `k`. */
  lemma WindowQuotient(number: real, interval: real, k: int)
    requires interval > 0.0
    requires number - interval / 2.0 < k as real * interval <= number + interval / 2.0
    ensures k as real - 0.5 <= number / interval < k as real + 0.5
  {
    var y := number / interval;
    var d := y - k as real;
    assert number == y * interval;
    assert d * interval == number - k as real * interval;
    assert -interval / 2.0 <= d * interval < interval / 2.0;
  }

  lemma ClosestNumberExamples()
    ensures ClosestNumberFromInterval(Finite(7.0), Finite(5.0)) == Success(Finite(5.0))
    ensures ClosestNumberFromInterval(Finite(8.0), Finite(5.0)) == Success(Finite(10.0))
    ensures ClosestNumberFromInterval(Finite(7.5), Finite(5.0)) == Success(Finite(10.0))
  {
    ClosestIsTheOnlyMultipleInWindow(7.0, 5.0, 1);
    ClosestIsTheOnlyMultipleInWindow(8.0, 5.0, 2);
    ClosestIsTheOnlyMultipleInWindow(7.5, 5.0, 2);
  }

  /** The unguarded cases: a zero interval, a NaN number, an infinite interval. */
  lemma ClosestNumberEdgeExamples()
    ensures ClosestNumberFromInterval(Finite(7.0), Finite(0.0)) == Success(Finite(0.0))
    ensures ClosestNumberFromInterval(Finite(0.0), Finite(0.0)) == Failure(CannotRoundNaN)
    ensures ClosestNumberFromInterval(NaN, Finite(5.0)) == Failure(CannotRoundNaN)
    ensures ClosestNumberFromInterval(Finite(7.0), Infinite(false)) == Success(NaN)
  {
    ClosestNumberOutsideIntRange(Finite(7.0), Finite(0.0));
    ClosestNumberOutsideIntRange(Finite(7.0), Infinite(false));
  }

  /** Past the `Int` range the quotient saturates: 3e9 on a grid of 1 gives
      `Int.MAX_VALUE`, not 3e9, and an infinite number gives the extreme
      multiple on its side. */
  lemma ClosestNumberSaturates()
    ensures ClosestNumberFromInterval(Finite(3000000000.0), Finite(1.0)) == Success(Finite(2147483647.0))
    ensures ClosestNumberFromInterval(Infinite(true), Finite(5.0)) == Success(Finite(-10737418240.0))
  {
    assert 3000000000.0 / 1.0 == 3000000000.0;
    assert !RoundsWithinInt(Finite(3000000000.0), Finite(1.0));
    ClosestNumberOutsideIntRange(Finite(3000000000.0), Finite(1.0));
    ClosestNumberOutsideIntRange(Infinite(true), Finite(5.0));
  }

  /** `isAzimuthBetweenTwoPoints`: with `aToB` the clockwise offset from A to B
      and `aToAzimuth` that of the azimuth, both reduced by `% 360f`, the result
      is `(aToB <= 180) != (aToAzimuth > aToB)`. */
  function IsAzimuthBetweenTwoPoints(azimuth: Azimuth, pointA: Azimuth, pointB: Azimuth): bool {
    var aToB := FloatRem360(pointB.degrees - pointA.degrees + 360.0);
    var aToAzimuth := FloatRem360(azimuth.degrees - pointA.degrees + 360.0);
    (aToB <= 180.0) != (aToAzimuth > aToB)
  }

  /** A heading within one turn. */
  predicate InTurn(x: real) {
    0.0 <= x < 360.0
  }

  /** Length of the clockwise arc from `from` to `to`, both within one turn. */
  function ClockwiseArc(from: real, to: real): real {
    if from <= to then to - from else to - from + 360.0
  }

  /** `x` lies on the clockwise arc from `from` to `to`, endpoints included. */
  predicate OnArc(x: real, from: real, to: real) {
    if from <= to then from <= x <= to else from <= x || x <= to
  }

  /** `x` lies on the clockwise arc from `from` to `to`, endpoints excluded. */
  predicate StrictlyInsideArc(x: real, from: real, to: real) {
    if from <= to then from < x < to else from < x || x < to
  }

  /** The source's reduced offset between two headings within one turn is the
      clockwise arc between them. */
  lemma ClockwiseOffset(from: real, to: real)
    requires InTurn(from) && InTurn(to)
    ensures FloatRem360(to - from + 360.0) == ClockwiseArc(from, to)
  {
    if from <= to {
      FloatRem360Unique(to - from + 360.0, 1, to - from);
    } else {
      FloatRem360Unique(to - from + 360.0, 0, to - from + 360.0);
    }
  }

  /** What the test means for azimuths within one turn: when the clockwise arc
      from A to B is at most half a turn the azimuth must lie on it (ends
      included); otherwise it must lie strictly inside the arc from B back to A. */
  lemma {:induction false} BetweenMeansOnShorterSide(azimuth: Azimuth, pointA: Azimuth, pointB: Azimuth)
    requires InTurn(azimuth.degrees) && InTurn(pointA.degrees) && InTurn(pointB.degrees)
    ensures IsAzimuthBetweenTwoPoints(azimuth, pointA, pointB) ==
      if ClockwiseArc(pointA.degrees, pointB.degrees) <= 180.0
      then OnArc(azimuth.degrees, pointA.degrees, pointB.degrees)
      else StrictlyInsideArc(azimuth.degrees, pointB.degrees, pointA.degrees)
  {
    ClockwiseOffset(pointA.degrees, pointB.degrees);
    ClockwiseOffset(pointA.degrees, azimuth.degrees);
  }

  /** The wrap-around cases: an arc across north, and a point off it. */
  lemma BetweenExamples()
    ensures IsAzimuthBetweenTwoPoints(FromDegrees(10.0), FromDegrees(350.0), FromDegrees(30.0))
    ensures !IsAzimuthBetweenTwoPoints(FromDegrees(200.0), FromDegrees(350.0), FromDegrees(30.0))
  {
    NormalizeAngleKeepsTurn(10.0);
    NormalizeAngleKeepsTurn(350.0);
    NormalizeAngleKeepsTurn(30.0);
    NormalizeAngleKeepsTurn(200.0);
    BetweenMeansOnShorterSide(FromDegrees(10.0), FromDegrees(350.0), FromDegrees(30.0));
    BetweenMeansOnShorterSide(FromDegrees(200.0), FromDegrees(350.0), FromDegrees(30.0));
  }
}
