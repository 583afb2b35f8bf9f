/** The `Azimuth` value class: a finite heading in degrees, normalised once at
    construction, with an eagerly derived whole-degree value and one of eight
    compass directions. */
module Azimuths {
  import opened KotlinNum
  import opened Results

  /** `CardinalDirection.values()`, in declaration order. */
  const Directions: seq<CardinalDirection> :=
    [NORTH, NORTHEAST, EAST, SOUTHEAST, SOUTH, SOUTHWEST, WEST, NORTHWEST]

  /** `CardinalDirection`, in declaration order (the label resources are not modelled). */
  datatype CardinalDirection = NORTH | NORTHEAST | EAST | SOUTHEAST | SOUTH | SOUTHWEST | WEST | NORTHWEST
  {
    /** The enum's `ordinal`: its position in `values()`. */
    function Ordinal(): (i: nat)
      ensures i < |Directions|
      ensures Directions[i] == this
    {
      match this
      case NORTH => 0
      case NORTHEAST => 1
      case EAST => 2
      case SOUTHEAST => 3
      case SOUTH => 4
      case SOUTHWEST => 5
      case WEST => 6
      case NORTHWEST => 7
    }
  }

  /** `SemiClosedFloatRange`, built with `until`: includes its start, excludes its end. */
  datatype SemiClosedFloatRange = SemiClosedFloatRange(fromInclusive: real, toExclusive: real)
  {
    predicate Contains(value: real) {
      fromInclusive <= value < toExclusive
    }
  }

  /** `from until to`: the range holding exactly the values from `from` up to,
      but not including, `to`. */
  function Until(from: real, to: real): (r: SemiClosedFloatRange)
    ensures forall v :: r.Contains(v) <==> from <= v < to
  {
    SemiClosedFloatRange(from, to)
  }

  /** The 45-degree band centred on a direction's anchor `45 * ordinal`. */
  function Sector(c: CardinalDirection): SemiClosedFloatRange {
    Until(45.0 * c.Ordinal() as real - 22.5, 45.0 * c.Ordinal() as real + 22.5)
  }

  /** `normalizeAngle`: `(angle + 360f) % 360f` with Kotlin's truncating `%`.
      The result is a full-turn equivalent of `angle`; it lies in `[0, 360)`
      only when `angle >= -360`, and is zero or negative below that. */
  function NormalizeAngle(angle: real): (r: real)
    ensures Congruent(r, angle, 360.0)
    ensures angle >= -360.0 ==> 0.0 <= r < 360.0
    ensures angle < -360.0 ==> -360.0 < r <= 0.0
  {
    var r := FloatRem360(angle + 360.0);
    CongruentFromTurns(r, angle, TurnsBetween(r, angle + 360.0) + 1);
    r
  }

  /** The `cardinalDirection` table: seven half-open bands tried in order, and
      north for everything else. North is exactly the complement of
      `[22.5, 337.5)` — negative values included — and any other result is
      the direction whose band, centred on its anchor, contains the value. */
  function DirectionOf(degrees: real): (c: CardinalDirection)
    ensures c == NORTH <==> !(22.5 <= degrees < 337.5)
    ensures c != NORTH ==> Sector(c).Contains(degrees)
  {
    if Until(22.5, 67.5).Contains(degrees) then NORTHEAST
    else if Until(67.5, 112.5).Contains(degrees) then EAST
    else if Until(112.5, 157.5).Contains(degrees) then SOUTHEAST
    else if Until(157.5, 202.5).Contains(degrees) then SOUTH
    else if Until(202.5, 247.5).Contains(degrees) then SOUTHWEST
    else if Until(247.5, 292.5).Contains(degrees) then WEST
    else if Until(292.5, 337.5).Contains(degrees) then NORTHWEST
    else NORTH
  }

  /** Reference classification: the number of eighths of a turn to the nearest
      anchor, counting from north, with `[337.5, 360)` and everything outside
      one turn folded to north. */
  function NearestEighth(degrees: real): int {
    if 22.5 <= degrees < 337.5 then ((degrees + 22.5) / 45.0).Floor else 0
  }

  /** The table agrees with the reference, so the band boundaries sit at odd
      multiples of 22.5 and belong to the band above them. */
  lemma DirectionIsNearestEighth(degrees: real)
    ensures DirectionOf(degrees).Ordinal() == NearestEighth(degrees)
  {
    var c := DirectionOf(degrees);
    if c != NORTH {
      var k := c.Ordinal() as real;
      assert k <= (degrees + 22.5) / 45.0 < k + 1.0;
    }
  }

  /** The non-north bands never overlap, so at most one row of the table can
      match and its order is immaterial. */
  lemma SectorsDisjoint(c: CardinalDirection, d: CardinalDirection, degrees: real)
    requires c != d
    ensures !(Sector(c).Contains(degrees) && Sector(d).Contains(degrees))
  {
    assert c.Ordinal() != d.Ordinal();
  }

  /** An `Azimuth` with the three properties Kotlin computes in its initialiser. */
  datatype Azimuth = Azimuth(degrees: real, roundedDegrees: int, cardinalDirection: CardinalDirection)

  /** The exception thrown by the initialiser (`IllegalArgumentException`). */
  datatype AzimuthError = DegreesMustBeFinite

  /** `Azimuth(_degrees)` once the finiteness check has passed. `roundedDegrees`
      is computed from the raw argument, not from `degrees`, and its
      `roundToInt` saturates at the ends of the `Int` range. */
  function FromDegrees(raw: real): (a: Azimuth)
    ensures Congruent(a.degrees, raw, 360.0)
    ensures -360.0 < a.degrees < 360.0
    ensures raw >= -360.0 ==> 0.0 <= a.degrees < 360.0 && 0 <= a.roundedDegrees < 360
    ensures a.cardinalDirection == DirectionOf(a.degrees)
  {
    var degrees := NormalizeAngle(raw);
    Azimuth(degrees, Trunc(NormalizeAngle(MathRound(raw) as real)), DirectionOf(degrees))
  }

  /** The initialiser: rejects exactly the non-finite arguments. */
  function New(x: FloatValue): (r: Result<Azimuth, AzimuthError>)
    ensures r.Failure? <==> !x.Finite?
    ensures r.Success? ==> Congruent(r.value.degrees, x.value, 360.0)
  {
    if x.Finite? then Success(FromDegrees(x.value)) else Failure(DegreesMustBeFinite)
  }

  /** `equals`: only the normalised degrees are compared. */
  predicate Equals(a: Azimuth, b: Azimuth) {
    a.degrees == b.degrees
  }

  /** `compareTo`: `Float.compareTo` on the normalised degrees. */
  function CompareTo(a: Azimuth, b: Azimuth): (r: int)
    ensures -1 <= r <= 1
    ensures r == 0 <==> Equals(a, b)
    ensures r < 0 <==> a.degrees < b.degrees
  {
    if a.degrees < b.degrees then -1 else if a.degrees > b.degrees then 1 else 0
  }

  /** `plus`: a fresh azimuth built from the `Float` sum, so a NaN or infinite
      amount makes the initialiser throw. Nothing but `degrees` carries over. */
  function Plus(a: Azimuth, d: FloatValue): (r: Result<Azimuth, AzimuthError>)
    ensures r.Failure? <==> !d.Finite?
    ensures r.Success? ==> r.value == FromDegrees(a.degrees + d.value)
    ensures r.Success? ==> Congruent(r.value.degrees, a.degrees + d.value, 360.0)
    ensures r.Success? && a.degrees + d.value >= -360.0 ==> 0.0 <= r.value.degrees < 360.0
    ensures r.Success? ==> r.value.cardinalDirection == DirectionOf(r.value.degrees)
  {
    New(FloatAdd(Finite(a.degrees), d))
  }

  /** `minus`: a fresh azimuth built from the `Float` difference. */
  function Minus(a: Azimuth, d: FloatValue): (r: Result<Azimuth, AzimuthError>)
    ensures r.Failure? <==> !d.Finite?
    ensures r.Success? ==> r.value == FromDegrees(a.degrees - d.value)
    ensures r.Success? ==> Congruent(r.value.degrees, a.degrees - d.value, 360.0)
    ensures r.Success? && a.degrees - d.value >= -360.0 ==> 0.0 <= r.value.degrees < 360.0
    ensures r.Success? ==> r.value.cardinalDirection == DirectionOf(r.value.degrees)
  {
    New(FloatAdd(Finite(a.degrees), FloatNeg(d)))
  }

  /** Two full-turn equivalents in `[0, 360)` are the same value. */
  lemma CongruentWithinTurn(x: real, y: real)
    requires 0.0 <= x < 360.0 && 0.0 <= y < 360.0
    requires Congruent(x, y, 360.0)
    ensures x == y
  {
    var k := TurnsBetween(x, y);
    assert -1 < k < 1;
  }

  /** Normalisation identifies exactly the full-turn equivalents (above -360). */
  lemma {:induction false} NormalizeAngleCongruent(x: real, y: real)
    requires x >= -360.0 && y >= -360.0
    ensures Congruent(x, y, 360.0) <==> NormalizeAngle(x) == NormalizeAngle(y)
  {
    var nx, ny := NormalizeAngle(x), NormalizeAngle(y);
    var kx, ky := TurnsBetween(nx, x), TurnsBetween(ny, y);
    if Congruent(x, y, 360.0) {
      CongruentFromTurns(nx, ny, TurnsBetween(x, y) + kx - ky);
      CongruentWithinTurn(nx, ny);
    }
    if nx == ny {
      CongruentFromTurns(x, y, ky - kx);
    }
  }

  /** A value already within one turn is kept as it is. */
  lemma NormalizeAngleKeepsTurn(angle: real)
    requires 0.0 <= angle < 360.0
    ensures NormalizeAngle(angle) == angle
  {
    FloatRem360Unique(angle + 360.0, 1, angle);
  }

  /** Full-turn equivalent arguments (from -360 up, and rounding inside the
      `Int` range) build identical azimuths, rounded value included, since
      rounding commutes with whole turns. */
  lemma {:induction false} FromDegreesCongruent(x: real, y: real)
    requires x >= -360.0 && y >= -360.0
    requires RoundsInRange(x) && RoundsInRange(y)
    requires Congruent(x, y, 360.0)
    ensures FromDegrees(x) == FromDegrees(y)
  {
    MathRoundInRange(x);
    MathRoundInRange(y);
    NormalizeAngleCongruent(x, y);
    var k := TurnsBetween(x, y);
    assert x == y + (360 * k) as real;
    RoundShift(y, 360 * k);
    var rx, ry := RoundToInt(x), RoundToInt(y);
    CongruentFromTurns(rx as real, ry as real, k);
    NormalizeAngleCongruent(rx as real, ry as real);
  }

  /** `Azimuth(x)` equals `Azimuth(x + 360)` from -360 up; when `x + 360`
      rounds inside the `Int` range the two are in fact identical. */
  lemma {:induction false} FullTurnIsEqual(x: real)
    requires x >= -360.0
    ensures Equals(FromDegrees(x + 360.0), FromDegrees(x))
    ensures RoundsInRange(x + 360.0) ==> FromDegrees(x + 360.0) == FromDegrees(x)
  {
    CongruentFromTurns(x + 360.0, x, 1);
    NormalizeAngleCongruent(x + 360.0, x);
    if RoundsInRange(x + 360.0) {
      FromDegreesCongruent(x + 360.0, x);
    }
  }

  /** On azimuths built from arguments from -360 up whose rounding stays
      inside the `Int` range, `equals` is exact: two of them are equal exactly
      when all three properties coincide. */
  lemma {:induction false} EqualsMeansIdentical(x: real, y: real)
    requires x >= -360.0 && y >= -360.0
    requires RoundsInRange(x) && RoundsInRange(y)
    ensures Equals(FromDegrees(x), FromDegrees(y)) <==> FromDegrees(x) == FromDegrees(y)
  {
    if Equals(FromDegrees(x), FromDegrees(y)) {
      NormalizeAngleCongruent(x, y);
      FromDegreesCongruent(x, y);
    }
  }

  /** Past the `Int` range `equals` is coarser than identity: 2147483500 and
      2147483860 are a full turn apart and have equal `degrees` (340), but the
      second one's rounding saturates, so its `roundedDegrees` is 127. */
  lemma EqualButNotIdenticalPastIntRange()
    ensures Equals(FromDegrees(2147483500.0), FromDegrees(2147483860.0))
    ensures FromDegrees(2147483500.0).roundedDegrees == 340
    ensures FromDegrees(2147483860.0).roundedDegrees == 127
  {
    FloatRem360Unique(2147483860.0, 5965232, 340.0);
    FloatRem360Unique(2147484220.0, 5965233, 340.0);
    FloatRem360Unique(2147484007.0, 5965233, 127.0);
  }

  /** Rebuilding an azimuth from its own `degrees` (from -360 up) gives an
      equal one, and inside the `Int` rounding range an identical one. */
  lemma {:induction false} RebuildFromDegrees(raw: real)
    requires raw >= -360.0
    ensures Equals(FromDegrees(FromDegrees(raw).degrees), FromDegrees(raw))
    ensures RoundsInRange(raw) ==> FromDegrees(FromDegrees(raw).degrees) == FromDegrees(raw)
  {
    NormalizeAngleKeepsTurn(FromDegrees(raw).degrees);
    if RoundsInRange(raw) {
      FromDegreesCongruent(FromDegrees(raw).degrees, raw);
    }
  }

  /** Below -360 the truncating remainder leaves a negative `degrees`, which
      classifies as north and does not survive a rebuild. */
  lemma BelowMinusFullTurn()
    ensures FromDegrees(-400.0).degrees == -40.0
    ensures FromDegrees(-400.0).cardinalDirection == NORTH
    ensures FromDegrees(-40.0).degrees == 320.0
    ensures FromDegrees(-40.0).cardinalDirection == NORTHWEST
    ensures !Equals(FromDegrees(FromDegrees(-400.0).degrees), FromDegrees(-400.0))
  {
    assert Trunc(-40.0 / 360.0) == 0;
    assert Trunc(320.0 / 360.0) == 0;
  }

  /** `roundedDegrees` is the nearest whole degree to `degrees`, reduced to
      `[0, 360)`: rounding the raw value and then normalising agrees with
      rounding the normalised value, so 359.5 rounds up to 360 and wraps to 0. */
  lemma {:induction false} RoundedDegreesIsNearestWhole(raw: real)
    requires raw >= -360.0 && RoundsInRange(raw)
    ensures FromDegrees(raw).roundedDegrees == RoundToInt(FromDegrees(raw).degrees) % 360
  {
    MathRoundInRange(raw);
    var a := FromDegrees(raw);
    var k := TurnsBetween(a.degrees, raw);
    assert a.degrees == raw + (360 * k) as real;
    RoundShift(raw, 360 * k);
    var n := RoundToInt(raw);
    assert RoundToInt(a.degrees) == n + 360 * k;
    FloatRem360OfInt(n + 360);
    assert a.roundedDegrees == (n + 360) % 360;
    ModFullTurns(n, 1);
    ModFullTurns(n, k);
  }

  /** Past the `Int` range the rounding saturates: 3e9 normalises to 120, but
      its `roundedDegrees` comes from `Int.MAX_VALUE` and is 127. */
  lemma RoundedDegreesSaturates()
    ensures FromDegrees(3000000000.0).degrees == 120.0
    ensures FromDegrees(3000000000.0).roundedDegrees == 127
  {
    FloatRem360Unique(3000000360.0, 8333334, 120.0);
    FloatRem360Unique(2147484007.0, 5965233, 127.0);
  }

  /** Adding whole turns to an integer leaves its Euclidean residue modulo 360 unchanged. */
  lemma ModFullTurns(n: int, k: int)
    ensures (n + 360 * k) % 360 == n % 360
  {
    var q, r := n / 360, n % 360;
    assert n + 360 * k == 360 * (q + k) + r;
  }

  /** Spot values from the construction and classification rules. */
  lemma AzimuthExamples()
    ensures FromDegrees(370.0).degrees == 10.0
    ensures FromDegrees(-10.0).degrees == 350.0
    ensures FromDegrees(359.5).roundedDegrees == 0
    ensures FromDegrees(0.0).cardinalDirection == NORTH
    ensures FromDegrees(44.0).cardinalDirection == NORTHEAST
    ensures FromDegrees(22.5).cardinalDirection == NORTHEAST
    ensures FromDegrees(22.4999).cardinalDirection == NORTH
    ensures FromDegrees(337.5).cardinalDirection == NORTH
    ensures FromDegrees(400.0).cardinalDirection == NORTHEAST
  {
    assert Trunc(730.0 / 360.0) == 2;
    assert Trunc(350.0 / 360.0) == 0;
    assert Trunc(720.0 / 360.0) == 2;
  }

  /** `plus` followed by `minus` of the same finite amount, at most a full
      turn, returns an equal azimuth. */
  lemma {:induction false} PlusMinusRoundTrip(a: Azimuth, d: real)
    requires 0.0 <= a.degrees < 360.0
    requires d <= 360.0
    ensures Plus(a, Finite(d)).Success? && Minus(Plus(a, Finite(d)).value, Finite(d)).Success?
    ensures Equals(Minus(Plus(a, Finite(d)).value, Finite(d)).value, a)
  {
    var p := Plus(a, Finite(d)).value;
    var m := Minus(p, Finite(d)).value;
    var k1 := TurnsBetween(p.degrees, a.degrees + d);
    var k2 := TurnsBetween(m.degrees, p.degrees - d);
    CongruentFromTurns(m.degrees, a.degrees, k1 + k2);
    CongruentWithinTurn(m.degrees, a.degrees);
  }

  /** Past a full turn the round trip breaks: 10 plus 800 is 90, and 90 minus
      800 is -710, which normalises to -350, north rather than 10. */
  lemma PastFullTurnRoundTrip()
    ensures FromDegrees(10.0).degrees == 10.0
    ensures Plus(FromDegrees(10.0), Finite(800.0)) == Success(FromDegrees(810.0))
    ensures FromDegrees(810.0).degrees == 90.0
    ensures Minus(FromDegrees(810.0), Finite(800.0)) == Success(FromDegrees(-710.0))
    ensures FromDegrees(-710.0).degrees == -350.0
    ensures FromDegrees(-710.0).cardinalDirection == NORTH
    ensures !Equals(FromDegrees(-710.0), FromDegrees(10.0))
  {
    NormalizeAngleKeepsTurn(10.0);
    assert FromDegrees(10.0).degrees + 800.0 == 810.0;
    assert Trunc(1170.0 / 360.0) == 3;
    assert Trunc(-350.0 / 360.0) == 0;
  }

  /** Subtracting past a full turn below zero leaves the truncating remainder
      negative: 10 minus 800 is -790, which normalises to -70 and is north. */
  lemma MinusBelowFullTurn()
    ensures Minus(FromDegrees(10.0), Finite(800.0)).Success?
    ensures Minus(FromDegrees(10.0), Finite(800.0)).value.degrees == -70.0
    ensures Minus(FromDegrees(10.0), Finite(800.0)).value.cardinalDirection == NORTH
  {
    NormalizeAngleKeepsTurn(10.0);
    assert Trunc(-430.0 / 360.0) == -1;
  }

  /** A non-finite amount makes both operations throw. */
  lemma NonFiniteAmountThrows(a: Azimuth)
    ensures Plus(a, NaN) == Failure(DegreesMustBeFinite)
    ensures Minus(a, Infinite(false)) == Failure(DegreesMustBeFinite)
  {
  }

  /** `plus` and `minus` see only `degrees`: equal azimuths give identical results. */
  lemma ArithmeticRespectsEquals(a: Azimuth, b: Azimuth, d: FloatValue)
    requires Equals(a, b)
    ensures Plus(a, d) == Plus(b, d) && Minus(a, d) == Minus(b, d)
  {
  }

  /** Swapping the operands flips the sign of `compareTo`. */
  lemma CompareToAntisymmetric(a: Azimuth, b: Azimuth)
    ensures CompareTo(a, b) == -CompareTo(b, a)
  {
  }

  /** Ordering is transitive, so `compareTo` is a total preorder on azimuths. */
  lemma CompareToTransitive(a: Azimuth, b: Azimuth, c: Azimuth)
    requires CompareTo(a, b) <= 0 && CompareTo(b, c) <= 0
    ensures CompareTo(a, c) <= 0
  {
  }
}
