/** The `Cardinal` enum: eight compass points, each with a display letter and
    an anchor degree, and `fromDegree`, which snaps an integer heading to the
    nearest anchor with integer arithmetic. */
module Cardinals {
  import opened KotlinNum
  import opened Results

  /** The compass points in declaration order; `Ordinal` is Kotlin's `ordinal`. */
  datatype Cardinal = NORTH | NORTHEAST | EAST | SOUTHEAST | SOUTH | SOUTHWEST | WEST | NORTHWEST
  {
    function Ordinal(): (i: nat)
      ensures i < 8
      ensures Values[i] == this
    {
      match this
      case NORTH => 0
      case NORTHEAST => 1
      case EAST => 2
      case SOUTHEAST => 3
      case SOUTH => 4
      case SOUTHWEST => 5
      case WEST => 6
      case NORTHWEST => 7
    }

    /** The label shown on the compass rose and beside the heading: one letter
      for the four main points, which sit on whole quarter turns, and two for
      the points between them. */
    function Letter(): (s: string)
      ensures 1 <= |s| <= 2
      ensures s[0] in "NESW"
      ensures |s| == 1 <==> Degree() % 90 == 0
    {
      match this
      case NORTH => "N"
      case NORTHEAST => "NE"
      case EAST => "E"
      case SOUTHEAST => "SE"
      case SOUTH => "S"
      case SOUTHWEST => "SW"
      case WEST => "W"
      case NORTHWEST => "NW"
    }

    /** The anchor of the point: one eighth of a turn per step clockwise from north. */
    function Degree(): (d: int)
      ensures d == 45 * Ordinal()
      ensures 0 <= d < 360
    {
      match this
      case NORTH => 0
      case NORTHEAST => 45
      case EAST => 90
      case SOUTHEAST => 135
      case SOUTH => 180
      case SOUTHWEST => 225
      case WEST => 270
      case NORTHWEST => 315
    }
  }

  /** `Cardinal.values()`. */
  const Values: seq<Cardinal> := [NORTH, NORTHEAST, EAST, SOUTHEAST, SOUTH, SOUTHWEST, WEST, NORTHWEST]

  /** Eight points, anchored one eighth of a turn apart in declaration order,
      so the sector width `360 / values().size` is 45. */
  lemma AnchorsEvenlySpaced()
    ensures |Values| == 8 && 360 / |Values| == 45
    ensures forall i :: 0 <= i < |Values| ==> Values[i].Ordinal() == i && Values[i].Degree() == 45 * i
  {
  }

  /** The exception `values()[index]` raises for an index outside the array. */
  datatype IndexError = ArrayIndexOutOfBounds(index: int)

  /** Shortest angular distance, in whole degrees, between two headings. */
  function CircularDistance(a: int, b: int): (d: nat)
    ensures d <= 180
  {
    var diff := (a - b) % 360;
    if diff <= 180 then diff else 360 - diff
  }

  /** The gap between two headings less than a turn apart, folded to at most
      half a turn. */
  function TurnGap(a: int, b: int): int {
    var g := if a < b then b - a else a - b;
    if g <= 180 then g else 360 - g
  }

  /** Within one turn of each other, the circular distance is the folded gap. */
  lemma CircularDistanceWithinTurn(a: int, b: int)
    requires -360 < a - b < 360
    ensures CircularDistance(a, b) == TurnGap(a, b)
  {
    if a - b < 0 {
      assert (a - b) % 360 == a - b + 360;
    } else {
      assert (a - b) % 360 == a - b;
    }
  }

  /** `Cardinal.fromDegree`: sector width `360 / values().size`, truncating
      quotient and remainder, and the remainder compared with half a sector.
      A heading of -45 or below gives a negative truncated remainder index
      unless the quotient is a multiple of eight; indexing `values()` with it
      throws. */
  function FromDegree(degree: int): (r: Result<Cardinal, IndexError>)
    ensures r.Failure? <==> degree <= -45 && IntDiv(degree, 45) % 8 != 0
    ensures degree > -45 ==> r.Success?
  {
    var divisor := IntDiv(360, |Values|);
    assert divisor == 45;
    var quotient := IntDiv(degree, divisor);
    var remainder := IntRem(degree, divisor);
    var index := if remainder <= IntDiv(divisor, 2) then IntRem(quotient, |Values|)
                 else IntRem(quotient + 1, |Values|);
    if 0 <= index then Success(Values[index]) else Failure(ArrayIndexOutOfBounds(index))
  }

  /** The index `fromDegree` computes, with the sector width evaluated. */
  function SectorIndex(degree: int): int {
    if IntRem(degree, 45) <= 22 then IntRem(IntDiv(degree, 45), 8) else IntRem(IntDiv(degree, 45) + 1, 8)
  }

  /** `fromDegree` indexes `values()` at `SectorIndex`, and fails on a negative index. */
  lemma FromDegreeUnfold(degree: int)
    ensures FromDegree(degree) ==
      if 0 <= SectorIndex(degree) then Success(Values[SectorIndex(degree)])
      else Failure(ArrayIndexOutOfBounds(SectorIndex(degree)))
  {
    assert IntDiv(360, |Values|) == 45;
    assert IntDiv(45, 2) == 22;
  }

  /** On non-negative headings the truncating operations are Dafny's own. */
  lemma SectorIndexNonNegative(degree: int)
    requires degree >= 0
    ensures SectorIndex(degree) ==
      if degree % 45 <= 22 then (degree / 45) % 8 else (degree / 45 + 1) % 8
  {
    IntDivRemNonNegative(degree, 45);
    IntDivRemNonNegative(degree / 45, 8);
    IntDivRemNonNegative(degree / 45 + 1, 8);
  }

  /** The sector after `j`, going round past north. */
  function NextSector(j: int): int {
    if j == 7 then 0 else j + 1
  }

  lemma NextModEight(q: int)
    requires q >= 0
    ensures (q + 1) % 8 == NextSector(q % 8)
  {
    var k, j := q / 8, q % 8;
    if j == 7 {
      assert q + 1 == 8 * (k + 1);
    } else {
      assert q + 1 == 8 * k + (j + 1);
    }
  }

  /** A non-negative heading lies `rem` degrees past the start of sector `j`
      of the turn, and `fromDegree` picks that sector or the next one. */
  lemma SectorOfTurn(degree: int)
    requires degree >= 0
    ensures degree % 360 == 45 * ((degree / 45) % 8) + degree % 45
    ensures SectorIndex(degree) ==
      if degree % 45 <= 22 then (degree / 45) % 8 else NextSector((degree / 45) % 8)
  {
    SectorIndexNonNegative(degree);
    var q, rem := degree / 45, degree % 45;
    WithinTurn(degree, q, rem);
    NextModEight(q);
  }

  /** `fromDegree` on a non-negative heading: the sector the heading starts in
      within the turn, or the next one when it is more than 22 degrees past
      that sector's anchor. */
  lemma FromDegreeOfWhole(degree: int)
    requires degree >= 0
    ensures FromDegree(degree) == Success(Values[
      if degree % 45 <= 22 then (degree / 45) % 8 else NextSector((degree / 45) % 8)])
  {
    FromDegreeUnfold(degree);
    SectorOfTurn(degree);
  }

  /** For a non-negative heading `fromDegree` picks the nearest anchor: it lies
      within 22 degrees of the heading taken modulo a full turn, and every other
      anchor lies at least 23 degrees away, so the choice is the unique nearest. */
  lemma {:induction false} FromDegreeIsNearest(degree: int)
    requires degree >= 0
    ensures FromDegree(degree).Success?
    ensures CircularDistance(FromDegree(degree).value.Degree(), degree % 360) <= 22
    ensures forall c: Cardinal :: c != FromDegree(degree).value ==>
              CircularDistance(c.Degree(), degree % 360) >= 23
  {
    FromDegreeUnfold(degree);
    SectorOfTurn(degree);
    var best := Values[SectorIndex(degree)];
    assert best.Ordinal() == SectorIndex(degree);
    AnchorDistances((degree / 45) % 8, degree % 45, best);
  }

  /** A heading `45 * j + rem` (within one turn) split into quotient and remainder. */
  lemma WithinTurn(degree: int, q: int, rem: int)
    requires q >= 0 && 0 <= rem < 45 && degree == 45 * q + rem
    ensures degree % 360 == 45 * (q % 8) + rem
  {
    var k, j := q / 8, q % 8;
    assert degree == 360 * k + (45 * j + rem);
  }

  /** The distances from a heading `45 * j + rem` (within one turn) to every anchor. */
  lemma AnchorDistances(j: int, rem: int, best: Cardinal)
    requires 0 <= j < 8 && 0 <= rem < 45
    requires best.Ordinal() == if rem <= 22 then j else NextSector(j)
    ensures CircularDistance(best.Degree(), 45 * j + rem) <= 22
    ensures forall c: Cardinal :: c != best ==> CircularDistance(c.Degree(), 45 * j + rem) >= 23
  {
    AnchorDistance(best, j, rem, best);
    forall c: Cardinal | c != best
      ensures CircularDistance(c.Degree(), 45 * j + rem) >= 23
    {
      AnchorDistance(c, j, rem, best);
    }
  }

  /** The distance from one anchor to the heading `45 * j + rem`. */
  lemma AnchorDistance(c: Cardinal, j: int, rem: int, best: Cardinal)
    requires 0 <= j < 8 && 0 <= rem < 45
    requires best.Ordinal() == if rem <= 22 then j else NextSector(j)
    ensures c == best ==> CircularDistance(c.Degree(), 45 * j + rem) <= 22
    ensures c != best ==> CircularDistance(c.Degree(), 45 * j + rem) >= 23
  {
    var o, b := c.Ordinal(), best.Ordinal();
    assert c.Degree() == 45 * o;
    assert c == best <==> o == b by {
      assert Values[o] == c && Values[b] == best;
    }
    CircularDistanceWithinTurn(45 * o, 45 * j + rem);
    AnchorGap(o, j, rem, b);
  }

  /** The folded gap from anchor `45 * o` to the heading `45 * j + rem`: at
      most 22 for the chosen sector `b`, at least 23 for any other. */
  lemma AnchorGap(o: int, j: int, rem: int, b: int)
    requires 0 <= o < 8 && 0 <= j < 8 && 0 <= rem < 45
    requires b == if rem <= 22 then j else NextSector(j)
    ensures o == b ==> TurnGap(45 * o, 45 * j + rem) <= 22
    ensures o != b ==> TurnGap(45 * o, 45 * j + rem) >= 23
  {
  }

  /** Every anchor maps back to its own compass point. */
  lemma FromDegreeOfAnchor(c: Cardinal)
    ensures FromDegree(c.Degree()) == Success(c)
  {
    FromDegreeUnfold(c.Degree());
    SectorIndexNonNegative(c.Degree());
    DivModSector(c.Degree(), c.Ordinal(), 0);
  }

  /** On non-negative headings `fromDegree` repeats every full turn. */
  lemma {:induction false} FromDegreePeriodic(degree: int)
    requires degree >= 0
    ensures FromDegree(degree + 360) == FromDegree(degree)
  {
    FromDegreeUnfold(degree);
    FromDegreeUnfold(degree + 360);
    SectorIndexPeriodic(degree);
  }

  /** From 0 up, a full turn more lands on the same sector index. */
  lemma SectorIndexPeriodic(degree: int)
    requires degree >= 0
    ensures SectorIndex(degree + 360) == SectorIndex(degree)
  {
    SectorIndexNonNegative(degree);
    SectorIndexNonNegative(degree + 360);
    var q, rem := degree / 45, degree % 45;
    DivModSector(degree + 360, q + 8, rem);
    assert (q + 8) % 8 == q % 8 && (q + 9) % 8 == (q + 1) % 8;
  }

  /** Quotient and remainder by a sector width are unique. */
  lemma DivModSector(degree: int, q: int, rem: int)
    requires 0 <= rem < 45 && degree == 45 * q + rem
    ensures degree / 45 == q && degree % 45 == rem
  {
  }

  /** A small negative heading truncates to quotient 0 and yields north. */
  lemma FromDegreeSmallNegative(degree: int)
    requires -45 < degree < 0
    ensures FromDegree(degree) == Success(NORTH)
  {
    FromDegreeUnfold(degree);
  }

  /** The boundary cases: a remainder of exactly half a sector (22) rounds down,
      one more rounds up, and a full turn is north again. */
  lemma FromDegreeExamples()
    ensures FromDegree(22) == Success(NORTH)
    ensures FromDegree(23) == Success(NORTHEAST)
    ensures FromDegree(100) == Success(EAST)
    ensures FromDegree(112) == Success(EAST)
    ensures FromDegree(113) == Success(SOUTHEAST)
    ensures FromDegree(360) == Success(NORTH)
    ensures FromDegree(-46) == Failure(ArrayIndexOutOfBounds(-1))
    ensures FromDegree(-360) == Success(NORTH)
  {
    FromDegreeUnfold(22);
    FromDegreeUnfold(23);
    FromDegreeUnfold(100);
    FromDegreeUnfold(112);
    FromDegreeUnfold(113);
    FromDegreeUnfold(360);
    FromDegreeUnfold(-46);
    FromDegreeUnfold(-360);
  }
}
