# Compass heading arithmetic, modelled in Dafny

This project models the angle arithmetic and direction classification of the
"Way" Android compass app, and proves properties of that model:

- the `Azimuth` value class: normalisation with `(x + 360f) % 360f`, the derived
  `roundedDegrees`, the eight-sector `cardinalDirection` table, and `equals`,
  `compareTo`, `plus` and `minus`;
- the `MathUtils` helpers `getClosestNumberFromInterval` and
  `isAzimuthBetweenTwoPoints`;
- the `Cardinal` enum and `Cardinal.fromDegree`, which snaps an integer heading
  to the nearest of eight points with integer arithmetic;
- the low-pass heading filter in `SensorDataManager.onSensorChanged`. The filter
  rounds the sample, blends it into the running value with weight `alpha = 0.1`,
  and emits the rounded running value;
- the `direction` table and `letter` of `HomeScreen`, a second copy of the sector
  table that is applied to the displayed heading without normalising it.

A finite Kotlin `Float` is modelled as the `real` it denotes: IEEE-754 rounding
is abstracted away. The table constants (22.5, 67.5, …, 360) are exact `Float`s;
`alpha = 0.1f` is taken as exactly one tenth, although that `Float` is
0.100000001490116…, and `1 - alpha` as 0.9, although it is 0.89999998.
Where a `Float` parameter can be anything a caller passes (the amount given to
`plus` and `minus`, both operands of `getClosestNumberFromInterval`, the sensor
sample), it is a `FloatValue`: a finite value, NaN, or an infinity, with IEEE
sums, quotients and products written out in `KotlinNum`. Kotlin's `%` on floats
and `/` and `%` on integers truncate toward zero. They are written out in
`KotlinNum` (`FloatRem360`, `IntDiv`, `IntRem`) because Dafny's own operators are
Euclidean. `roundToInt` throws on NaN, rounds half-way values upward
(`floor(x + 1/2)`) and saturates at `Int.MIN_VALUE` and `Int.MAX_VALUE`
(`MathRound`, `RoundFloat`). A thrown exception is modelled as the `Failure` case
of a `Result` (or, for a run of sensor samples, as the exception recorded in the
trace), and `null` as `None`.

Modules:

| file | module | models |
|---|---|---|
| Results.dfy | `Results` | `Option` and `Result` |
| KotlinNum.dfy | `KotlinNum` | `Float` values with NaN and infinities, truncating remainder and division, `roundToInt`, `toInt` |
| Azimuth.dfy | `Azimuths` | `Azimuth`, `CardinalDirection`, `SemiClosedFloatRange` |
| MathUtils.dfy | `MathUtils` | `getClosestNumberFromInterval`, `isAzimuthBetweenTwoPoints` |
| Cardinal.dfy | `Cardinals` | `Cardinal` and `fromDegree` |
| HeadingFilter.dfy | `HeadingFilter` | the smoothing recurrence, with `filteredDegree` as explicit state |
| HomeScreen.dfy | `HomeScreen` | the `direction` table and `letter` |
| SectorAgreement.dfy | `SectorAgreement` | how the three direction tables relate |

One might expect normalisation to land in `[0, 360)` for every argument, but the
code's `(x + 360f) % 360f` with a truncating `%` does that only for `x >= -360`. Below that it yields a value in
`(-360, 0]`: for example -400 becomes -40, which classifies as north although
-400 is a full-turn equivalent of 320, northwest (`Azimuths.BelowMinusFullTurn`).

## Model

| member | source | states |
|---|---|---|
| `KotlinNum.FloatRem360` | app/src/main/java/com/yaxan/way/domain/utils/MathUtils.kt:61-62 | Kotlin's `% 360f` keeps the dividend's sign, lies strictly within one turn of zero, and differs from the dividend by a whole number of turns |
| `KotlinNum.RoundToInt` | app/src/main/java/com/yaxan/way/presentation/home_screen/HomeViewModel.kt:61 | the rounding rule of `roundToInt` before saturation: the nearest integer, with ties going up, `x - 1/2 < n <= x + 1/2` |
| `KotlinNum.MathRound` | app/src/main/java/com/yaxan/way/presentation/home_screen/HomeViewModel.kt:61-64 | `Math.round` on a finite value stays in the `Int` range; inside it the result is the nearest integer with ties going up, and past either end it is that end |
| `KotlinNum.RoundFloat` | app/src/main/java/com/yaxan/way/domain/utils/MathUtils.kt:58 | `roundToInt` fails exactly on NaN; a finite value rounds as `Math.round`, and an infinity gives the `Int` bound on its side |
| `KotlinNum.FloatAdd` | app/src/main/java/com/yaxan/way/domain/utils/MathUtils.kt:124 | a `Float` sum is NaN exactly when an operand is NaN or the operands are opposite infinities, finite exactly when both operands are, and then the exact sum |
| `KotlinNum.FloatNeg` | app/src/main/java/com/yaxan/way/domain/utils/MathUtils.kt:126 | negation keeps NaN, flips the sign of an infinity and negates a finite value |
| `KotlinNum.FloatDiv` | app/src/main/java/com/yaxan/way/domain/utils/MathUtils.kt:58 | a `Float` quotient is NaN exactly for a NaN operand, `0/0` or `inf/inf`; it is finite exactly for a finite value over a non-zero or infinite one, and then the exact quotient or zero |
| `KotlinNum.FloatMul` | app/src/main/java/com/yaxan/way/domain/utils/MathUtils.kt:58 | a `Float` product is NaN exactly for a NaN operand or zero times an infinity, finite exactly when both operands are, and then the exact product |
| `KotlinNum.RoundShift` | app/src/main/java/com/yaxan/way/domain/utils/MathUtils.kt:88 | rounding commutes with adding a whole number |
| `KotlinNum.Trunc` | app/src/main/java/com/yaxan/way/domain/utils/MathUtils.kt:88 | `toInt()` rounds toward zero: it is below the value by less than 1 for non-negative values, and above by less than 1 for negative ones |
| `KotlinNum.IntDiv` | app/src/main/java/com/yaxan/way/common/cardinal.kt:17 | integer `/` truncates toward zero: the quotient times the divisor is within one divisor of the dividend, on the dividend's side of zero |
| `KotlinNum.IntRem` | app/src/main/java/com/yaxan/way/common/cardinal.kt:18 | integer `%` completes the truncating division, and its sign follows the dividend |
| `Azimuths.CardinalDirection.Ordinal` | app/src/main/java/com/yaxan/way/domain/utils/MathUtils.kt:137-146 | the ordinal is the position in `values()`: `values()[ordinal]` is the direction itself |
| `Azimuths.New` | app/src/main/java/com/yaxan/way/domain/utils/MathUtils.kt:80-84 | construction fails exactly for NaN and the infinities; otherwise the degrees are a full-turn equivalent of the argument |
| `Azimuths.Until` | app/src/main/java/com/yaxan/way/domain/utils/MathUtils.kt:131-134 | the range built by `until` contains exactly the values from its start up to, but not including, its end |
| `Azimuths.NormalizeAngle` | app/src/main/java/com/yaxan/way/domain/utils/MathUtils.kt:101-103 | `normalizeAngle` returns a full-turn equivalent: in `[0, 360)` from -360 up, in `(-360, 0]` below |
| `Azimuths.NormalizeAngleCongruent` | app/src/main/java/com/yaxan/way/domain/utils/MathUtils.kt:101-103 | from -360 up, two angles normalise to the same value if and only if they differ by whole turns |
| `Azimuths.NormalizeAngleKeepsTurn` | app/src/main/java/com/yaxan/way/domain/utils/MathUtils.kt:101-103 | an angle already in `[0, 360)` is left unchanged |
| `Azimuths.BelowMinusFullTurn` | app/src/main/java/com/yaxan/way/domain/utils/MathUtils.kt:86-103 | -400 normalises to -40, which classifies as north; rebuilding from -40 gives 320, northwest, which is not equal |
| `Azimuths.FromDegrees` | app/src/main/java/com/yaxan/way/domain/utils/MathUtils.kt:86-99 | `degrees` is a full-turn equivalent of the argument within one turn of zero, and lies in `[0, 360)` from -360 up, as does `roundedDegrees`; `cardinalDirection` depends on `degrees` alone |
| `Azimuths.RoundedDegreesIsNearestWhole` | app/src/main/java/com/yaxan/way/domain/utils/MathUtils.kt:88 | for arguments from -360 up whose rounding stays in the `Int` range, `roundedDegrees` is the nearest whole degree to `degrees`, reduced modulo 360, so 359.5 gives 0 |
| `Azimuths.RoundedDegreesSaturates` | app/src/main/java/com/yaxan/way/domain/utils/MathUtils.kt:88 | past the `Int` range the rounding saturates: 3e9 has `degrees` 120 but `roundedDegrees` 127, taken from `Int.MAX_VALUE` |
| `Azimuths.FromDegreesCongruent` | app/src/main/java/com/yaxan/way/domain/utils/MathUtils.kt:86-88 | from -360 up and inside the `Int` rounding range, full-turn equivalent arguments build identical azimuths, `roundedDegrees` included |
| `Azimuths.DirectionOf` | app/src/main/java/com/yaxan/way/domain/utils/MathUtils.kt:90-99 | north exactly outside `[22.5, 337.5)`, negative values included; any other point's half-open band, centred on its anchor, contains the value |
| `Azimuths.DirectionIsNearestEighth` | app/src/main/java/com/yaxan/way/domain/utils/MathUtils.kt:90-99 | the table agrees with an independent rule: the nearest eighth of a turn, with boundaries rounding up |
| `Azimuths.SectorsDisjoint` | app/src/main/java/com/yaxan/way/domain/utils/MathUtils.kt:131-134 | no value lies in two of the non-north half-open bands, so at most one row of the table matches |
| `Azimuths.AzimuthExamples` | app/src/main/java/com/yaxan/way/domain/utils/MathUtils.kt:86-99 | 370 gives 10 and -10 gives 350; 22.5 is northeast, 22.4999 and 337.5 are north, and 400 is northeast |
| `Azimuths.FullTurnIsEqual` | app/src/main/java/com/yaxan/way/domain/utils/MathUtils.kt:105-114 | in exact arithmetic, from -360 up, `Azimuth(x + 360)` equals `Azimuth(x)`; when `x + 360` also rounds inside the `Int` range the two are identical, `roundedDegrees` included |
| `Azimuths.EqualsMeansIdentical` | app/src/main/java/com/yaxan/way/domain/utils/MathUtils.kt:105-114 | in exact arithmetic, on azimuths built from arguments from -360 up and inside the `Int` rounding range, `equals` (which compares only `degrees`) holds exactly when all three properties coincide |
| `Azimuths.EqualButNotIdenticalPastIntRange` | app/src/main/java/com/yaxan/way/domain/utils/MathUtils.kt:86-114 | in exact arithmetic, past the `Int` range `equals` no longer implies identity: the arguments 2147483500 and 2147483860 give equal `degrees` but `roundedDegrees` 340 and 127 |
| `Azimuths.RebuildFromDegrees` | app/src/main/java/com/yaxan/way/domain/utils/MathUtils.kt:86-114 | from -360 up, rebuilding an azimuth from its own `degrees` gives an equal azimuth, and an identical one when the argument rounds inside the `Int` range |
| `Azimuths.CompareTo` | app/src/main/java/com/yaxan/way/domain/utils/MathUtils.kt:128 | the result is -1, 0 or 1; it is 0 exactly for equal azimuths and negative exactly when the first has fewer degrees |
| `Azimuths.CompareToAntisymmetric` | app/src/main/java/com/yaxan/way/domain/utils/MathUtils.kt:128 | swapping the operands negates the result |
| `Azimuths.CompareToTransitive` | app/src/main/java/com/yaxan/way/domain/utils/MathUtils.kt:128 | the ordering is transitive |
| `Azimuths.Plus` | app/src/main/java/com/yaxan/way/domain/utils/MathUtils.kt:124 | `plus` throws exactly for a NaN or infinite amount; otherwise it is `Azimuth(degrees + amount)`, so `degrees` is the sum normalised by `normalizeAngle` (in `(-360, 0]` for a sum below -360), `roundedDegrees` is derived from the sum, and the direction is classified from the new degrees |
| `Azimuths.Minus` | app/src/main/java/com/yaxan/way/domain/utils/MathUtils.kt:126 | `minus` throws exactly for a NaN or infinite amount; otherwise it is `Azimuth(degrees - amount)`, so `degrees` is the difference normalised by `normalizeAngle` (10 minus 800 gives -70, north), `roundedDegrees` is derived from the difference, and the direction is classified from the new degrees |
| `Azimuths.MinusBelowFullTurn` | app/src/main/java/com/yaxan/way/domain/utils/MathUtils.kt:101-126 | 10 minus 800 gives `degrees` -70, north, not the full-turn equivalent 290 |
| `Azimuths.NonFiniteAmountThrows` | app/src/main/java/com/yaxan/way/domain/utils/MathUtils.kt:80-84 | `plus(NaN)` and `minus(+inf)` fail with the initialiser's exception |
| `Azimuths.PlusMinusRoundTrip` | app/src/main/java/com/yaxan/way/domain/utils/MathUtils.kt:124-126 | adding and then subtracting any finite amount up to a full turn gives back an equal azimuth |
| `Azimuths.PastFullTurnRoundTrip` | app/src/main/java/com/yaxan/way/domain/utils/MathUtils.kt:124-126 | past a full turn the round trip breaks: 10 plus 800 minus 800 is -350, north, not equal to 10 |
| `Azimuths.ArithmeticRespectsEquals` | app/src/main/java/com/yaxan/way/domain/utils/MathUtils.kt:124-126 | equal azimuths give identical results under `plus` and `minus` |
| `MathUtils.ClosestNumberFromInterval` | app/src/main/java/com/yaxan/way/domain/utils/MathUtils.kt:57-58 | the helper throws exactly when the quotient is NaN: a NaN operand, both operands infinite, or both zero; when the quotient is finite and rounds inside the `Int` range, the result is a finite value |
| `MathUtils.ClosestNumberWithinIntRange` | app/src/main/java/com/yaxan/way/domain/utils/MathUtils.kt:57-58 | when the quotient rounds inside the `Int` range, the result is a whole multiple of the interval; for a positive interval it lies in `(number - interval/2, number + interval/2]`, so ties go up, and in the mirrored window for a negative one |
| `MathUtils.ClosestNumberValue` | app/src/main/java/com/yaxan/way/domain/utils/MathUtils.kt:57-58 | inside the `Int` rounding range the result is the rounded quotient times the interval |
| `MathUtils.QuotientRoundsExactly` | app/src/main/java/com/yaxan/way/domain/utils/MathUtils.kt:58 | a finite quotient over a non-zero interval that rounds inside the `Int` range is rounded without throwing or saturating |
| `MathUtils.ClosestNumberOutsideIntRange` | app/src/main/java/com/yaxan/way/domain/utils/MathUtils.kt:57-58 | a finite quotient past the `Int` range, or an infinite number, saturates at the `Int` bound on its side times the interval; a non-zero number over a zero interval gives 0; a finite number over an infinite interval gives NaN without throwing |
| `MathUtils.RoundedMultiple` | app/src/main/java/com/yaxan/way/domain/utils/MathUtils.kt:58 | the rounded quotient times the interval is a whole multiple of the interval in the rounding window around the number |
| `MathUtils.ClosestIsTheOnlyMultipleInWindow` | app/src/main/java/com/yaxan/way/domain/utils/MathUtils.kt:57-58 | for a positive interval, any multiple within the window whose factor is an `Int` is the result, so the result is the unique closest multiple |
| `MathUtils.ClosestNumberExamples` | app/src/main/java/com/yaxan/way/domain/utils/MathUtils.kt:57-58 | 7 and 8 on a grid of 5 give 5 and 10, and the tie 7.5 gives 10 |
| `MathUtils.ClosestNumberEdgeExamples` | app/src/main/java/com/yaxan/way/domain/utils/MathUtils.kt:57-58 | 7 on a zero interval gives 0 and 0 on it fails; a NaN number fails; an infinite interval gives NaN |
| `MathUtils.ClosestNumberSaturates` | app/src/main/java/com/yaxan/way/domain/utils/MathUtils.kt:57-58 | 3e9 on a grid of 1 gives `Int.MAX_VALUE`, 2147483647; minus infinity on a grid of 5 gives `Int.MIN_VALUE * 5` |
| `MathUtils.ClockwiseOffset` | app/src/main/java/com/yaxan/way/domain/utils/MathUtils.kt:61-62 | for headings in `[0, 360)`, the reduced offset is the length of the clockwise arc between them |
| `MathUtils.BetweenMeansOnShorterSide` | app/src/main/java/com/yaxan/way/domain/utils/MathUtils.kt:60-64 | in `[0, 360)`: if the clockwise arc from A to B is at most half a turn, the result is true exactly on that arc (ends included); otherwise it is true exactly strictly inside the arc from B to A |
| `MathUtils.BetweenExamples` | app/src/main/java/com/yaxan/way/domain/utils/MathUtils.kt:60-64 | 10 lies between 350 and 30, and 200 does not |
| `Cardinals.Cardinal.Ordinal` | app/src/main/java/com/yaxan/way/common/cardinal.kt:3-11 | the ordinal is the position in `values()`: below 8, and `values()[ordinal]` is the point itself |
| `Cardinals.Cardinal.Letter` | app/src/main/java/com/yaxan/way/common/cardinal.kt:3-11 | the letter has one or two characters starting with N, E, S or W, and a single one exactly for the four points on whole quarter turns |
| `Cardinals.Cardinal.Degree` | app/src/main/java/com/yaxan/way/common/cardinal.kt:3-11 | the anchor degree is 45 times the ordinal, within one turn |
| `Cardinals.AnchorsEvenlySpaced` | app/src/main/java/com/yaxan/way/common/cardinal.kt:3-16 | `values()` has eight points with anchors at 45 times the ordinal, so the sector width is 45 |
| `Cardinals.FromDegree` | app/src/main/java/com/yaxan/way/common/cardinal.kt:15-24 | indexing fails exactly when the heading is -45 or below and its truncated quotient is not a multiple of 8; it always succeeds above -45 |
| `Cardinals.FromDegreeOfWhole` | app/src/main/java/com/yaxan/way/common/cardinal.kt:16-23 | for headings from 0 up, the result is the sector the heading falls in within the turn, or the next one when the remainder exceeds 22 |
| `Cardinals.FromDegreeIsNearest` | app/src/main/java/com/yaxan/way/common/cardinal.kt:19-23 | for headings from 0 up, the result's anchor is at most 22 degrees from the heading modulo 360, and every other anchor is at least 23 away |
| `Cardinals.FromDegreeOfAnchor` | app/src/main/java/com/yaxan/way/common/cardinal.kt:3-24 | every point's anchor degree maps back to that point |
| `Cardinals.FromDegreePeriodic` | app/src/main/java/com/yaxan/way/common/cardinal.kt:17-23 | for headings from 0 up, adding 360 does not change the result |
| `Cardinals.FromDegreeSmallNegative` | app/src/main/java/com/yaxan/way/common/cardinal.kt:17-20 | headings strictly between -45 and 0 give north |
| `Cardinals.FromDegreeExamples` | app/src/main/java/com/yaxan/way/common/cardinal.kt:15-24 | 22 is north and 23 northeast; 100 and 112 are east, 113 southeast; 360 and -360 are north; -46 fails with index -1 |
| `HeadingFilter.OnSensorChanged` | app/src/main/java/com/yaxan/way/presentation/home_screen/HomeViewModel.kt:61-64 | a step throws exactly for a NaN sample; otherwise the new state lies between the old state and the rounded sample, and from a state within the `Int` range the new state stays there and the emitted value is the state rounded to a whole degree, while the state stays unrounded |
| `HeadingFilter.NonFiniteSamples` | app/src/main/java/com/yaxan/way/presentation/home_screen/HomeViewModel.kt:61-64 | a NaN sample throws; an infinite one saturates, so from 0 the state jumps to 214748364.7 and 214748365 is sent |
| `HeadingFilter.OnlyRoundedSampleMatters` | app/src/main/java/com/yaxan/way/presentation/home_screen/HomeViewModel.kt:61 | samples that round to the same whole degree give the same update |
| `HeadingFilter.GapShrinks` | app/src/main/java/com/yaxan/way/presentation/home_screen/HomeViewModel.kt:63 | each step leaves exactly 0.9 of the gap to the rounded sample |
| `HeadingFilter.Feed` | app/src/main/java/com/yaxan/way/presentation/home_screen/HomeViewModel.kt:60-64 | one value is sent per sample up to the first NaN, which stops the run with the exception; the run completes exactly when there is no NaN |
| `HeadingFilter.FeedEmitsRunningState` | app/src/main/java/com/yaxan/way/presentation/home_screen/HomeViewModel.kt:61-64 | the `i`-th value sent is the running state after the first `i + 1` samples, rounded to a whole degree |
| `HeadingFilter.FeedStopsAtNaN` | app/src/main/java/com/yaxan/way/presentation/home_screen/HomeViewModel.kt:60-64 | 100, NaN, 50 from the start sends 10 and then stops with the exception, never processing 50 |
| `HeadingFilter.StaysInCompassRange` | app/src/main/java/com/yaxan/way/presentation/home_screen/HomeViewModel.kt:61-64 | starting in `[0, 360]` with finite samples in `[0, 360]`, the run completes and the state and every emitted value stay in `[0, 360]` |
| `HeadingFilter.Decay` | app/src/main/java/com/yaxan/way/presentation/home_screen/HomeViewModel.kt:39 | a gap scaled by `(1 - alpha)` per step keeps its sign and never grows |
| `HeadingFilter.ConstantSampleGap` | app/src/main/java/com/yaxan/way/presentation/home_screen/HomeViewModel.kt:63 | after `n` equal finite samples, the gap to the rounded sample is the initial gap times `0.9^n` |
| `HeadingFilter.FeedMonotoneInStart` | app/src/main/java/com/yaxan/way/presentation/home_screen/HomeViewModel.kt:63 | feeding the same samples from a higher start never ends lower |
| `HeadingFilter.StaysBelowTarget` | app/src/main/java/com/yaxan/way/presentation/home_screen/HomeViewModel.kt:63 | starting at or below the rounded sample, repeating it never passes it and never falls below the start |
| `HeadingFilter.ApproachesWithoutOvershoot` | app/src/main/java/com/yaxan/way/presentation/home_screen/HomeViewModel.kt:63 | from below, each further equal sample moves the state up without overshooting |
| `HeadingFilter.SteadyHundredFromStart` | app/src/main/java/com/yaxan/way/presentation/home_screen/HomeViewModel.kt:39-64 | from the initial 0 with steady readings of 100, the state after `n` samples is `100 - 100 * 0.9^n`, never above 100 |
| `HeadingFilter.NoWraparound` | app/src/main/java/com/yaxan/way/presentation/home_screen/HomeViewModel.kt:63 | from 359, a reading of 1 moves the state to 323.2 (emitted 323) instead of across north |
| `HomeScreen.Direction` | app/src/main/java/com/yaxan/way/presentation/home_screen/HomeScreen.kt:66-76 | a point always matches, so the `null` branch is unreachable; north exactly below 22.5 or from 337.5 up; any other point is within 22.5 degrees below or under 22.5 above its anchor |
| `HomeScreen.Letter` | app/src/main/java/com/yaxan/way/presentation/home_screen/HomeScreen.kt:78 | the label is the matched point's one- or two-letter name, never empty |
| `HomeScreen.DirectionBoundaries` | app/src/main/java/com/yaxan/way/presentation/home_screen/HomeScreen.kt:66-78 | 22.5 is northeast and 22.4999 north; 67.5 is east; 337.5, 400 and -10 are north; 100 is labelled E |
| `SectorAgreement.ScreenTableIsAzimuthTable` | app/src/main/java/com/yaxan/way/presentation/home_screen/HomeScreen.kt:66-76 | on every real value, the screen table and the `Azimuth` table give the same ordinal |
| `SectorAgreement.ScreenMatchesAzimuthWithinTurn` | app/src/main/java/com/yaxan/way/presentation/home_screen/HomeScreen.kt:66-76 | on `[0, 360)`, the screen's point has the same ordinal as `Azimuth(d).cardinalDirection` |
| `SectorAgreement.ScreenSkipsNormalisation` | app/src/main/java/com/yaxan/way/presentation/home_screen/HomeScreen.kt:66-67 | 400 is north on the screen but northeast as an `Azimuth` |
| `SectorAgreement.ScreenMatchesFromDegree` | app/src/main/java/com/yaxan/way/presentation/home_screen/HomeScreen.kt:66-76 | on whole degrees 0 to 360, the screen table picks the same `Cardinal` as `fromDegree` |
| `SectorAgreement.EmittedHeadingsAgree` | app/src/main/java/com/yaxan/way/presentation/home_screen/HomeViewModel.kt:63-64 | for samples in `[0, 360]`, every value the filter sends gets the same point from the screen table as from `fromDegree` |
| `SectorAgreement.FromDegreeMatchesAzimuth` | app/src/main/java/com/yaxan/way/common/cardinal.kt:15-24 | for every whole heading from 0 up, `fromDegree` has the same ordinal as `Azimuth(d).cardinalDirection` |
| `SectorAgreement.NegativeHeadingsDisagree` | app/src/main/java/com/yaxan/way/common/cardinal.kt:17-20 | -30 gives north from `fromDegree`, but `Azimuth(-30)` is 330, northwest |

## Left out

- `calculateAzimuth`, `getRotationMatrix` and both `remapRotationMatrix` overloads (MathUtils.kt:17-45): they delegate to Android's `SensorManager`, whose behaviour is not part of this model.
- `getMagneticDeclination` (MathUtils.kt:48-55): a call into Android's `GeomagneticField`.
- `RotationVector` and `DisplayRotation`: used only by the rotation code above.
- `Azimuth.hashCode` and `toString`: hashing and formatting, with no behaviour to state beyond `equals`.
- The `labelResourceId` of `CardinalDirection`: an Android resource id. The enum is a plain eight-constructor datatype.
- The `Compass` class and the sensor registration, cancellation, `Channel`/`StateFlow` plumbing and logging of `SensorDataManager`: sensor I/O and concurrency. The channel is modelled as the sequence of emitted values (`HeadingFilter.Feed`), and the global `filteredDegree` as an explicit state record.
- `HomeViewModel`'s wiring, the Hilt `AppModule` and `Navigation.kt`: dependency injection and UI routing.
- The rest of `HomeScreen` (Compose layout, canvas drawing, coroutine collection, and the `toInt()` of the displayed text): UI code.
- IEEE-754 effects: every finite `Float` is an exact real, so rounding error in additions and products, and a finite sum or product overflowing to an infinity, are not modelled. Rounding in `x + 360f` alone can make azimuths equal whose `roundedDegrees` differ even inside the `Int` range: 359.49997f and 359.5f both get `degrees` 359.5, but `roundedDegrees` 359 and 0, which `Azimuths.EqualsMeansIdentical` does not capture.
- `Azimuths.EqualButNotIdenticalPastIntRange`: the two azimuths are computed in exact reals. In `Float` the literal 2147483500f is 2147483520f, giving `degrees` 24 and `roundedDegrees` 24, and 2147483860f is 2147483904f, giving `degrees` 280 and `roundedDegrees` 24, so the program finds them not equal. The same effect in `Float` shows with 280f and 2147483904f: both have `degrees` 280, but `roundedDegrees` 280 and 24.
- Signed zero: reals have a single zero, so `KotlinNum.FloatDiv` treats a zero divisor as `+0f`; `x / -0f` would give the opposite infinity, which only changes the sign of a saturated quotient.
- The `Int.toFloat()` conversions after `roundToInt` (`Azimuth.roundedDegrees`, `getClosestNumberFromInterval`, the filter's sample and emitted value): exact here, although a `Float` cannot hold every `Int` above 2^24. In particular `Int.MAX_VALUE.toFloat()` is 2147483648 (2^31), not 2147483647.
- `Azimuths.RoundedDegreesSaturates`: the saturated values are exact reals. In `Float` arithmetic `3e9f + 360f` rounds to 3000000256, so `Azimuth(3e9f)` has `degrees` 16, not 120; `Int.MAX_VALUE.toFloat() + 360f` rounds to 2147483904, so `roundedDegrees` is 24, not 127. What the lemma keeps is that the rounding saturates.
- `MathUtils.ClosestNumberOutsideIntRange`: the saturated result is stated as the exact product `Int.MAX_VALUE * interval` (or `Int.MIN_VALUE * interval`). The program multiplies `Int.MAX_VALUE.toFloat()`, which is 2^31, so on the upper side its result is 2^31 · interval, rounded to a `Float`.
- `MathUtils.ClosestNumberSaturates`: 3e9 on a grid of 1 is stated as 2147483647; the program returns 2147483648f. The lower case, `Int.MIN_VALUE * 5` = -10737418240, is an exact `Float` and agrees.
- `HeadingFilter.NonFiniteSamples`: the infinite-sample case is computed in exact reals, a state of 214748364.7 and a sent value of 214748365. In `Float` arithmetic the saturated sample becomes 2147483648f, so from 0 the program stores and sends 214748368f. What the lemma keeps is that an infinity saturates instead of throwing.
- `Azimuths.CompareTo`: does not distinguish -0.0 from 0.0 as `Float.compareTo` does, because reals have a single zero.
- `Azimuths.New`: does not model the exception's message text.
- `MathUtils.ClosestNumberFromInterval`: for a zero interval the result is stated as 0. The sign of zero that `Int.MAX_VALUE * 0f` or `Int.MIN_VALUE * 0f` produces is not modelled.
