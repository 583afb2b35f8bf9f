/** The low-pass heading filter of `SensorDataManager.onSensorChanged`: each
    orientation sample is rounded to a whole degree and blended into the
    running value with weight `alpha`; the running value, rounded again, is
    what gets sent to the screen. The source keeps the running value in a
    top-level `var filteredDegree`; here it is an explicit state record. */
module HeadingFilter {
  import opened KotlinNum
  import opened Results

  /** `alpha`, the smoothing factor: the weight given to the new sample. */
  const Alpha: real := 0.1

  /** The filter's only state: the unrounded running value. */
  datatype FilterState = FilterState(filteredDegree: real)

  /** `filteredDegree` starts at 0. */
  const Initial: FilterState := FilterState(0.0)

  /** One step: the new state and the value `trySend` puts on the channel. */
  datatype Update = Update(state: FilterState, emitted: int)

  /** `x` lies on the closed segment between `a` and `b`. */
  predicate Between(x: real, a: real, b: real) {
    (a <= x <= b) || (b <= x <= a)
  }

  /** `x` lies within the `Int` range, so rounding it never saturates. */
  predicate WithinInt(x: real) {
    IntMin as real <= x <= IntMax as real
  }

  /** `onSensorChanged` for sample `values[0]`. A NaN sample makes
      `roundToInt` throw before the state is touched. Otherwise the new state
      is a convex combination of the old state and the rounded sample (an
      infinite sample saturating at an `Int` bound), so it lies between them;
      from a state within the `Int` range the emitted value is the state
      rounded to the nearest whole degree (ties upward), while the state
      itself is kept unrounded. */
  function OnSensorChanged(s: FilterState, sample: FloatValue): (r: Result<Update, RoundingError>)
    ensures r.Failure? <==> sample.NaN?
    ensures r.Success? ==>
              Between(r.value.state.filteredDegree, s.filteredDegree, RoundFloat(sample).value as real)
    ensures r.Success? && WithinInt(s.filteredDegree) ==>
              WithinInt(r.value.state.filteredDegree) &&
              r.value.emitted as real - 0.5 <= r.value.state.filteredDegree < r.value.emitted as real + 0.5
  {
    match RoundFloat(sample)
    case Failure(e) => Failure(e)
    case Success(n) =>
      var degree := n as real;
      var filtered := Alpha * degree + (1.0 - Alpha) * s.filteredDegree;
      Success(Update(FilterState(filtered), MathRound(filtered)))
  }

  /** Only the rounded sample reaches the filter: two readings that round to
      the same whole degree give the same update. */
  lemma OnlyRoundedSampleMatters(s: FilterState, x: FloatValue, y: FloatValue)
    requires RoundFloat(x) == RoundFloat(y)
    ensures OnSensorChanged(s, x) == OnSensorChanged(s, y)
  {
  }

  /** The rounded value of a finite sample, which the state moves toward. */
  function Target(sample: real): real {
    MathRound(sample) as real
  }

  /** Each step closes exactly one tenth of the gap to the rounded sample. */
  lemma GapShrinks(s: FilterState, sample: real)
    ensures OnSensorChanged(s, Finite(sample)).Success?
    ensures OnSensorChanged(s, Finite(sample)).value.state.filteredDegree - Target(sample)
              == 0.9 * (s.filteredDegree - Target(sample))
  {
  }

  /** A NaN sample throws; an infinite one saturates at `Int.MAX_VALUE`, so
      from the start the state jumps to a tenth of it. */
  lemma NonFiniteSamples(s: FilterState)
    ensures OnSensorChanged(s, NaN) == Failure(CannotRoundNaN)
    ensures OnSensorChanged(Initial, Infinite(false)) == Success(Update(FilterState(214748364.7), 214748365))
  {
  }

  /** The result of feeding a sequence of samples in arrival order: the final
      state, every value sent on the channel, and the exception that stopped
      the run, if any. */
  datatype Trace = Trace(state: FilterState, emitted: seq<int>, thrown: Option<RoundingError>)

  /** Samples processed one at a time, each exactly once, in order. A NaN
      sample throws out of `onSensorChanged`: the values sent before it stay
      sent and nothing after it is processed. So one value is emitted per
      sample up to the first NaN, and the run completes exactly when there
      is none. */
  function Feed(s: FilterState, samples: seq<FloatValue>): (t: Trace)
    ensures |t.emitted| <= |samples|
    ensures t.thrown.None? <==> |t.emitted| == |samples|
    ensures forall i :: 0 <= i < |t.emitted| ==> !samples[i].NaN?
    ensures t.thrown.Some? ==> samples[|t.emitted|].NaN?
    decreases |samples|
  {
    if |samples| == 0 then Trace(s, [], None)
    else
      match OnSensorChanged(s, samples[0])
      case Failure(e) => Trace(s, [], Some(e))
      case Success(u) =>
        var rest := Feed(u.state, samples[1..]);
        Trace(rest.state, [u.emitted] + rest.emitted, rest.thrown)
  }

  /** What the channel receives: the `i`-th value sent is the running state
      after the first `i + 1` samples, rounded to a whole degree. */
  lemma {:induction false} FeedEmitsRunningState(s: FilterState, samples: seq<FloatValue>, i: nat)
    requires i < |Feed(s, samples).emitted|
    ensures Feed(s, samples[..i + 1]).thrown.None?
    ensures Feed(s, samples).emitted[i] == MathRound(Feed(s, samples[..i + 1]).state.filteredDegree)
    decreases i
  {
    var u := OnSensorChanged(s, samples[0]).value;
    var prefix := samples[..i + 1];
    assert prefix[0] == samples[0];
    if i == 0 {
      assert prefix[1..] == [];
    } else {
      assert prefix[1..] == samples[1..][..i];
      FeedEmitsRunningState(u.state, samples[1..], i - 1);
    }
  }

  /** A NaN stops the run: the value sent for the first sample stays sent,
      and the samples after the NaN are never processed. */
  lemma FeedStopsAtNaN()
    ensures Feed(Initial, [Finite(100.0), NaN, Finite(50.0)])
              == Trace(FilterState(10.0), [10], Some(CannotRoundNaN))
  {
    var samples := [Finite(100.0), NaN, Finite(50.0)];
    assert samples[1..][1..] == [Finite(50.0)];
  }

  /** A heading in the closed range the orientation sensor reports. */
  predicate InCompassRange(x: real) {
    0.0 <= x <= 360.0
  }

  /** A finite sample in that range. */
  predicate IsCompassReading(x: FloatValue) {
    x.Finite? && InCompassRange(x.value)
  }

  /** Starting inside `[0, 360]` and fed only readings in `[0, 360]`, the run
      completes, the state never leaves that range, and neither does any
      emitted value. */
  lemma {:induction false} StaysInCompassRange(s: FilterState, samples: seq<FloatValue>)
    requires InCompassRange(s.filteredDegree)
    requires forall i :: 0 <= i < |samples| ==> IsCompassReading(samples[i])
    ensures Feed(s, samples).thrown.None?
    ensures InCompassRange(Feed(s, samples).state.filteredDegree)
    ensures forall i :: 0 <= i < |samples| ==> 0 <= Feed(s, samples).emitted[i] <= 360
    decreases |samples|
  {
    if |samples| > 0 {
      var u := OnSensorChanged(s, samples[0]).value;
      var target := RoundFloat(samples[0]).value;
      assert 0 <= target <= 360;
      assert 0 <= u.emitted <= 360;
      StaysInCompassRange(u.state, samples[1..]);
      var rest := Feed(u.state, samples[1..]);
      forall i | 0 <= i < |samples|
        ensures 0 <= Feed(s, samples).emitted[i] <= 360
      {
        if i > 0 {
          assert Feed(s, samples).emitted[i] == rest.emitted[i - 1];
        }
      }
    }
  }

  /** `n` copies of the same sample. */
  function Repeat(sample: FloatValue, n: nat): (r: seq<FloatValue>)
    ensures |r| == n
    ensures forall i :: 0 <= i < n ==> r[i] == sample
  {
    if n == 0 then [] else [sample] + Repeat(sample, n - 1)
  }

  /** `gap * (1 - alpha)^n`: what is left of a gap after `n` steps. It keeps
      the gap's sign and never grows in size. */
  function Decay(gap: real, n: nat): (r: real)
    ensures gap >= 0.0 ==> 0.0 <= r <= gap
    ensures gap <= 0.0 ==> gap <= r <= 0.0
    decreases n
  {
    if n == 0 then gap else Decay((1.0 - Alpha) * gap, n - 1)
  }

  /** Fed one finite sample value over and over, the gap to its rounded value
      shrinks by exactly a factor 0.9 per step. */
  lemma {:induction false} ConstantSampleGap(s: FilterState, sample: real, n: nat)
    ensures Feed(s, Repeat(Finite(sample), n)).state.filteredDegree - Target(sample)
              == Decay(s.filteredDegree - Target(sample), n)
    decreases n
  {
    if n > 0 {
      var u := OnSensorChanged(s, Finite(sample)).value;
      FeedRepeatStep(s, sample, n);
      ConstantSampleGap(u.state, sample, n - 1);
      GapShrinks(s, sample);
    }
  }

  /** Feeding `n` copies is one step followed by `n - 1` copies. */
  lemma FeedRepeatStep(s: FilterState, sample: real, n: nat)
    requires n > 0
    ensures OnSensorChanged(s, Finite(sample)).Success?
    ensures Feed(s, Repeat(Finite(sample), n)).state
              == Feed(OnSensorChanged(s, Finite(sample)).value.state, Repeat(Finite(sample), n - 1)).state
  {
    var samples := Repeat(Finite(sample), n);
    assert samples[0] == Finite(sample) && samples[1..] == Repeat(Finite(sample), n - 1);
  }

  /** Feeding the same samples from a higher start never ends lower. */
  lemma {:induction false} FeedMonotoneInStart(s1: FilterState, s2: FilterState, samples: seq<FloatValue>)
    requires s1.filteredDegree <= s2.filteredDegree
    ensures Feed(s1, samples).state.filteredDegree <= Feed(s2, samples).state.filteredDegree
    decreases |samples|
  {
    if |samples| > 0 && !samples[0].NaN? {
      FeedMonotoneInStart(OnSensorChanged(s1, samples[0]).value.state, OnSensorChanged(s2, samples[0]).value.state, samples[1..]);
    }
  }

  /** Starting at or below the rounded sample, repeating it keeps the state
      between the start and that value. */
  lemma {:induction false} StaysBelowTarget(s: FilterState, sample: real, n: nat)
    requires s.filteredDegree <= Target(sample)
    ensures s.filteredDegree <= Feed(s, Repeat(Finite(sample), n)).state.filteredDegree <= Target(sample)
    decreases n
  {
    if n > 0 {
      var u := OnSensorChanged(s, Finite(sample)).value;
      FeedRepeatStep(s, sample, n);
      StaysBelowTarget(u.state, sample, n - 1);
    }
  }

  /** Starting below the rounded sample, the state climbs toward it step by
      step and never overshoots. */
  lemma {:induction false} ApproachesWithoutOvershoot(s: FilterState, sample: real, n: nat)
    requires s.filteredDegree <= Target(sample)
    ensures Feed(s, Repeat(Finite(sample), n)).state.filteredDegree
              <= Feed(s, Repeat(Finite(sample), n + 1)).state.filteredDegree <= Target(sample)
  {
    var u := OnSensorChanged(s, Finite(sample)).value;
    FeedRepeatStep(s, sample, n + 1);
    FeedMonotoneInStart(s, u.state, Repeat(Finite(sample), n));
    StaysBelowTarget(u.state, sample, n);
  }

  /** From the initial state with a steady 100-degree reading the state after
      `n` samples is `100 - 100 * 0.9^n`: rising, never above 100. */
  lemma {:induction false} SteadyHundredFromStart(n: nat)
    ensures Feed(Initial, Repeat(Finite(100.0), n)).state.filteredDegree == 100.0 + Decay(-100.0, n)
    ensures Feed(Initial, Repeat(Finite(100.0), n)).state.filteredDegree <= 100.0
  {
    assert Target(100.0) == 100.0;
    ConstantSampleGap(Initial, 100.0, n);
  }

  /** No shortest-way handling across north: from 359 a reading of 1 drags the
      state back across the dial to 323.2 instead of toward 0/360. */
  lemma NoWraparound()
    ensures OnSensorChanged(FilterState(359.0), Finite(1.0)) == Success(Update(FilterState(323.2), 323))
  {
  }
}
