/** The compass code classifies a heading into eight points in three separate
    places: the `Azimuth` table, `Cardinal.fromDegree` and the `HomeScreen`
    table. These lemmas state where the three agree and where they part. */
module SectorAgreement {
  import opened KotlinNum
  import opened Results
  import C = Cardinals
  import A = Azimuths
  import HomeScreen
  import HeadingFilter

  /** The screen table and the `Azimuth` table draw the same bands over the
      whole line, negative values and values past a full turn included. */
  lemma ScreenTableIsAzimuthTable(degrees: real)
    ensures HomeScreen.Direction(degrees).value.Ordinal() == A.DirectionOf(degrees).Ordinal()
  {
  }

  /** Within one turn the screen label names the same point as an `Azimuth`
      built from the heading. */
  lemma ScreenMatchesAzimuthWithinTurn(degrees: real)
    requires 0.0 <= degrees < 360.0
    ensures HomeScreen.Direction(degrees).value.Ordinal()
              == A.FromDegrees(degrees).cardinalDirection.Ordinal()
  {
    A.NormalizeAngleKeepsTurn(degrees);
  }

  /** The screen applies its table to the raw value: past a full turn it
      reports north where an `Azimuth` normalises first and reports northeast. */
  lemma ScreenSkipsNormalisation()
    ensures HomeScreen.Direction(400.0) == Some(C.NORTH)
    ensures A.FromDegrees(400.0).cardinalDirection == A.NORTHEAST
  {
    A.AzimuthExamples();
  }

  /** On whole degrees from 0 to a full turn, the screen table and
      `fromDegree` pick the same point: `fromDegree`'s remainder test
      `rem <= 22` is the band edge at `.5` seen from the integers. */
  lemma ScreenMatchesFromDegree(n: int)
    requires 0 <= n <= 360
    ensures C.FromDegree(n).Success?
    ensures HomeScreen.Direction(n as real) == Some(C.FromDegree(n).value)
  {
    if n < 360 {
      ScreenMatchesFromDegreeWithinTurn(n);
    } else {
      C.FromDegreeOfWhole(360);
      assert 360 / 45 == 8 && 360 % 45 == 0 && 8 % 8 == 0;
    }
  }

  /** On whole degrees in `[0, 360)` the screen table picks the `fromDegree` point. */
  lemma ScreenMatchesFromDegreeWithinTurn(n: int)
    requires 0 <= n < 360
    ensures C.FromDegree(n).Success?
    ensures HomeScreen.Direction(n as real) == Some(C.FromDegree(n).value)
  {
    C.FromDegreeOfWhole(n);
    var j, rem := n / 45, n % 45;
    assert n == 45 * j + rem && j < 8 && j % 8 == j;
    ScreenBandOfWhole(j, rem);
  }

  /** The screen table on the whole heading `45 * j + rem` of the first turn. */
  lemma ScreenBandOfWhole(j: int, rem: int)
    requires 0 <= j < 8 && 0 <= rem < 45
    ensures HomeScreen.Direction((45 * j + rem) as real)
              == Some(C.Values[if rem <= 22 then j else C.NextSector(j)])
  {
  }

  /** Every value the heading filter sends, for samples the sensor can report,
      gets the same label from the screen table as from `fromDegree`. */
  lemma EmittedHeadingsAgree(s: HeadingFilter.FilterState, samples: seq<FloatValue>)
    requires HeadingFilter.InCompassRange(s.filteredDegree)
    requires forall i :: 0 <= i < |samples| ==> HeadingFilter.IsCompassReading(samples[i])
    ensures var emitted := HeadingFilter.Feed(s, samples).emitted;
            forall i :: 0 <= i < |emitted| ==>
              C.FromDegree(emitted[i]).Success? &&
              HomeScreen.Direction(emitted[i] as real) == Some(C.FromDegree(emitted[i]).value)
  {
    HeadingFilter.StaysInCompassRange(s, samples);
    var emitted := HeadingFilter.Feed(s, samples).emitted;
    forall i | 0 <= i < |emitted|
      ensures C.FromDegree(emitted[i]).Success? &&
              HomeScreen.Direction(emitted[i] as real) == Some(C.FromDegree(emitted[i]).value)
    {
      ScreenMatchesFromDegree(emitted[i]);
    }
  }

  /** For every non-negative whole heading, `fromDegree` and an `Azimuth` built
      from it name the same point: both reduce modulo a full turn and round to
      the nearest eighth, boundaries upward. */
  lemma FromDegreeMatchesAzimuth(n: int)
    requires n >= 0
    ensures C.FromDegree(n).Success?
    ensures C.FromDegree(n).value.Ordinal() == A.FromDegrees(n as real).cardinalDirection.Ordinal()
  {
    var j, rem := (n / 45) % 8, n % 45;
    C.FromDegreeOfWhole(n);
    C.SectorOfTurn(n);
    var i := if rem <= 22 then j else C.NextSector(j);
    assert C.Values[i].Ordinal() == i;
    AzimuthOfWhole(n);
    A.DirectionIsNearestEighth((n % 360) as real);
    NearestEighthOfWhole(j, rem);
  }

  /** An `Azimuth` built from a non-negative whole heading holds it modulo a full turn. */
  lemma AzimuthOfWhole(n: int)
    requires n >= 0
    ensures A.FromDegrees(n as real).degrees == (n % 360) as real
  {
    FloatRem360OfInt(n + 360);
    A.ModFullTurns(n, 1);
  }

  /** The reference classification of the whole heading `45 * j + rem`. */
  lemma NearestEighthOfWhole(j: int, rem: int)
    requires 0 <= j < 8 && 0 <= rem < 45
    ensures A.NearestEighth((45 * j + rem) as real) == if rem <= 22 then j else C.NextSector(j)
  {
    var d := (45 * j + rem) as real;
    var x := (d + 22.5) / 45.0;
    assert x == j as real + (rem as real + 22.5) / 45.0;
    if rem <= 22 {
      assert j as real <= x < (j + 1) as real;
    } else {
      assert (j + 1) as real <= x < (j + 2) as real;
    }
  }

  /** Below zero the two part: `fromDegree` truncates -30 toward zero and
      answers north, while an `Azimuth` normalises it to 330, northwest. */
  lemma NegativeHeadingsDisagree()
    ensures C.FromDegree(-30) == Success(C.NORTH)
    ensures A.FromDegrees(-30.0).degrees == 330.0
    ensures A.FromDegrees(-30.0).cardinalDirection == A.NORTHWEST
  {
    C.FromDegreeSmallNegative(-30);
    FloatRem360Unique(330.0, 0, 330.0);
  }
}
