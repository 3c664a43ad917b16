/** The billing loop of `calculate_flow_for_period`, in the arithmetic of a release build:
    `saturating_mul` products, a wrapping i128 total and a wrapping u8 window counter. */
module TariffFlow {
  import opened Words
  import opened DivisionFacts
  import opened TariffSchedule
  import WeightedRate

  /** `NeverReturns` stands for a call that walks forever; see `NeverReturnsExactly`. */
  datatype FlowError = InvalidPeriod | NeverReturns

  datatype FlowResult = FlowResult(
    totalTokens: i128,
    durationSeconds: u64,
    weightedRatePerSecond: i128,
    spannedMultipleWindows: bool,
    windowsCrossed: nat)

  lemma ScaledMonotone(c: int, m: nat, n: nat)
    requires m <= n && FitsI128(c * n)
    ensures FitsI128(c * m) && FitsI128(c * (n - m))
  {
    var d := n - m;
    assert c * n == c * m + c * d;
    if c >= 0 {
      assert 0 <= c * m && 0 <= c * d;
    } else {
      assert c * m <= 0 && c * d <= 0;
    }
  }

  lemma ChargeArithmetic(c: int, rate: nat, time: nat, before: nat, total: int)
    requires rate > 0 && time > 0 && FitsI128(c * (before + rate * time))
    ensures FitsI128(c * before)
    ensures total == c * before ==>
              WrapI128(total + SaturatingMul(SaturatingMul(c, rate), time)) == c * (before + rate * time)
  {
    var piece := rate * time;
    ScaledMonotone(c, before, before + piece);
    MulMonotone(1, time, rate);
    ScaledMonotone(c, rate, piece);
    assert SaturatingMul(c, rate) == c * rate;
    assert (c * rate) * time == c * piece;
    assert c * (before + piece) == c * before + c * piece;
  }

  /** The running total is the exact charge so far, unless that charge has left i128. */
  ghost predicate Tracks(s: ValidSchedule, c: int, start: nat, t: nat, total: int) {
    FitsI128(Cost(s, c, start, t)) ==> total == Cost(s, c, start, t)
  }

  /** The running total the walk leaves at `end`, saturation and wrap-around included. */
  function Accumulated(s: ValidSchedule, c: int, t: nat, end: nat, total: i128): i128
    decreases end - t
  {
    if t >= end then total
    else
      var e := StepEnd(t, end);
      var tokens := SaturatingMul(SaturatingMul(c, Rate(s, t)), e - t);
      Accumulated(s, c, e, end, WrapI128(total + tokens))
  }

  /** One window: as long as the running charge still fits, saturation and wrap-around are idle. */
  lemma WindowCharge(s: ValidSchedule, c: int, start: nat, current: nat, e: nat, total: i128)
    requires start <= current < e <= (current / HOUR + 1) * HOUR
    requires Tracks(s, c, start, current, total)
    ensures Tracks(s, c, start, e, WrapI128(total + SaturatingMul(SaturatingMul(c, Rate(s, current)), e - current)))
  {
    RateSumWithinHour(s, current, e);
    RateSumAdditive(s, start, current, e);
    CostIsScaledRateSum(s, c, start, current);
    CostIsScaledRateSum(s, c, start, e);
    if FitsI128(Cost(s, c, start, e)) {
      ChargeArithmetic(c, Rate(s, current), e - current, RateSum(s, start, current), total);
    }
  }

  lemma {:induction false} AccumulatedTracks(s: ValidSchedule, c: int, start: nat, t: nat, end: nat, total: i128)
    requires start <= t <= end && Tracks(s, c, start, t, total)
    ensures Tracks(s, c, start, end, Accumulated(s, c, t, end, total))
    decreases end - t
  {
    if t >= end {
    } else {
      var e := StepEnd(t, end);
      WindowCharge(s, c, start, t, e, total);
      AccumulatedTracks(s, c, start, e, end, WrapI128(total + SaturatingMul(SaturatingMul(c, Rate(s, t)), e - t)));
    }
  }

  /** The accumulated total is the per-second charge exactly when that charge fits i128. */
  lemma AccumulatedIsExact(s: ValidSchedule, c: int, start: nat, end: nat)
    requires start <= end
    ensures Accumulated(s, c, start, end, 0) == Cost(s, c, start, end) <==> FitsI128(Cost(s, c, start, end))
  {
    AccumulatedTracks(s, c, start, start, end, 0);
  }

  function Clamp(x: int): i128 {
    if x > I128_MAX then I128_MAX else if x < I128_MIN then I128_MIN else x
  }

  /** The charges of the windows, each clamped to i128 by itself. */
  function ClampedCharges(windows: seq<WeightedRate.Interval>, c: int): int {
    if windows == [] then 0
    else Clamp(c * (windows[0].rate * windows[0].duration)) + ClampedCharges(windows[1..], c)
  }

  lemma ChargeIsClamped(c: i128, rate: i128, time: nat)
    requires rate > 0 && time > 0
    ensures SaturatingMul(SaturatingMul(c, rate), time) == Clamp(c * (rate * time))
  {
    assert c * (rate * time) == (c * rate) * time;
    if c * rate > I128_MAX {
      MulMonotone(1, time, c * rate);
      MulMonotone(1, time, I128_MAX);
    } else if c * rate < I128_MIN {
      MulMonotone(1, time, -(c * rate));
      MulMonotone(1, time, -I128_MIN);
    }
  }

  lemma {:induction false} AccumulatedFrom(s: ValidSchedule, c: i128, t: nat, end: nat, total: i128)
    requires t <= end < TWO64
    ensures Accumulated(s, c, t, end, total) == WrapI128(total + ClampedCharges(Walk(s, t, end), c))
    decreases end - t
  {
    if t == end {
      assert Walk(s, t, end) == [];
    } else {
      var e := StepEnd(t, end);
      var first := WeightedRate.Interval(Rate(s, t), e - t);
      assert Walk(s, t, end) == [first] + Walk(s, e, end);
      assert ([first] + Walk(s, e, end))[1..] == Walk(s, e, end);
      ChargeIsClamped(c, Rate(s, t), e - t);
      var charge := Clamp(c * (Rate(s, t) * (e - t)));
      AccumulatedFrom(s, c, e, end, WrapI128(total + charge));
      WrapSum(total + charge, ClampedCharges(Walk(s, e, end), c));
    }
  }

  /** Whatever overflows, the total is the wrapped sum of the windows' charges, each clamped by itself. */
  lemma AccumulatedIsWrappedSum(s: ValidSchedule, c: i128, start: nat, end: nat)
    requires start <= end < TWO64
    ensures Accumulated(s, c, start, end, 0) == WrapI128(ClampedCharges(Walk(s, start, end), c))
  {
    AccumulatedFrom(s, c, start, end, 0);
  }

  /** Boundaries the walk has counted on reaching time `t`: those in (start, t], and none at the end. */
  function Crossed(start: nat, end: nat, t: nat): nat {
    Boundaries(start, if t < end then t + 1 else end)
  }

  lemma CrossedStep(start: nat, end: nat, t: nat, e: nat, counter: nat)
    requires counter == Crossed(start, end, t) % 256
    requires start <= t < e <= end && e <= (t / HOUR + 1) * HOUR
    requires e < end ==> e == (t / HOUR + 1) * HOUR
    ensures Crossed(start, end, e) % 256 == if e < end then (counter + 1) % 256 else counter
  {
    NoBoundaryWithinHour(start, t, e);
    if e < end {
      DivModUnique(e, HOUR, t / HOUR + 1, 0);
    }
  }

  /** The total is the per-second charge exactly when that fits i128. */
  ghost predicate ExactTotal(s: ValidSchedule, consumption: int, start: nat, end: nat, total: int) {
    total == Cost(s, consumption, start, end) <==> FitsI128(Cost(s, consumption, start, end))
  }

  /** The weighted rate is the floor of the mean per-second rate whenever the rate sum fits i128. */
  ghost predicate FloorRate(s: ValidSchedule, start: nat, end: nat, rate: int)
    requires start < end
  {
    FitsI128(RateSum(s, start, end)) ==> rate == RateSum(s, start, end) / (end - start)
  }

  /** Boundaries strictly inside the period are counted modulo 256. */
  ghost predicate CountedModulo(start: nat, end: nat, windowsCrossed: nat, spanned: bool) {
    && windowsCrossed == Boundaries(start, end) % 256
    && (spanned <==> windowsCrossed > 0)
  }

  /** What a result says about its period. */
  ghost predicate Billed(s: ValidSchedule, consumption: int, start: nat, end: nat, r: FlowResult) {
    && start < end
    && r.durationSeconds == end - start
    && ExactTotal(s, consumption, start, end, r.totalTokens)
    && FloorRate(s, start, end, r.weightedRatePerSecond)
    && CountedModulo(start, end, r.windowsCrossed, r.spannedMultipleWindows)
  }

  /** Carrying on from `t` with `total` ends where the walk from `start` ends. */
  ghost predicate OnCourse(s: ValidSchedule, c: int, start: nat, t: nat, end: nat, total: i128) {
    Accumulated(s, c, t, end, total) == Accumulated(s, c, start, end, 0)
  }

  lemma CourseStep(s: ValidSchedule, c: int, start: nat, t: nat, end: nat, total: i128)
    requires t < end && OnCourse(s, c, start, t, end, total)
    ensures var e := StepEnd(t, end);
            OnCourse(s, c, start, e, end, WrapI128(total + SaturatingMul(SaturatingMul(c, Rate(s, t)), e - t)))
  {
  }

  /** Where the walk stands at time `t`: total, rate sum and counter. */
  ghost predicate Walking(s: ValidSchedule, c: int, start: nat, t: nat, end: nat, total: i128, rateSum: i128,
                          windows: nat) {
    && start <= t <= end
    && OnCourse(s, c, start, t, end, total)
    && OnCourse(s, 1, start, t, end, rateSum)
    && windows == Crossed(start, end, t) % 256
  }

  lemma WalkingStep(s: ValidSchedule, c: int, start: nat, t: nat, e: nat, end: nat,
                    total: i128, rateSum: i128, windows: nat)
    requires t < end && e == StepEnd(t, end) && Walking(s, c, start, t, end, total, rateSum, windows)
    ensures Walking(s, c, start, e, end,
                    WrapI128(total + SaturatingMul(SaturatingMul(c, Rate(s, t)), e - t)),
                    WrapI128(rateSum + SaturatingMul(Rate(s, t), e - t)),
                    if e < end then (windows + 1) % 256 else windows)
  {
    CourseStep(s, c, start, t, end, total);
    CourseStep(s, 1, start, t, end, rateSum);
    CrossedStep(start, end, t, e, windows);
  }

  lemma WalkedIsBilled(s: ValidSchedule, c: int, start: nat, end: nat, total: i128, rateSum: i128, windows: nat)
    requires start < end < TWO64 && Walking(s, c, start, end, end, total, rateSum, windows)
    ensures Billed(s, c, start, end,
                   FlowResult(total, end - start, WeightedRatePerSecond(rateSum, end - start), windows > 0, windows))
    ensures total == Accumulated(s, c, start, end, 0) && rateSum == Accumulated(s, 1, start, end, 0)
  {
    AccumulatedIsExact(s, c, start, end);
    AccumulatedIsExact(s, 1, start, end);
    CostIsScaledRateSum(s, 1, start, end);
  }

  method CalculateFlowForPeriod(s: ValidSchedule, start: u64, end: u64, consumption: i128)
    returns (r: Result<FlowResult, FlowError>)
    ensures r == Err(InvalidPeriod) <==> end <= start
    ensures r == Err(NeverReturns) <==> start < end && end > TWO64 - 16
    ensures r.Ok? ==>
              && Billed(s, consumption, start, end, r.value)
              && r.value.totalTokens == Accumulated(s, consumption, start, end, 0)
              && r.value.weightedRatePerSecond == TruncDiv(Accumulated(s, 1, start, end, 0), end - start)
  {
    if end <= start {
      return Err(InvalidPeriod);
    }
    var duration: u64 := end - start;
    var totalTokens: i128 := 0;
    var windowsCrossed: nat := 0;
    var weightedRateSum: i128 := 0;
    var currentTime := start;
    while currentTime < end
      invariant currentTime == start || currentTime <= TWO64 - 16
      invariant Walking(s, consumption, start, currentTime, end, totalTokens, weightedRateSum, windowsCrossed)
      decreases end - currentTime
    {
      var rate := Rate(s, currentTime);
      var next := NextHourBoundary(currentTime);
      if next <= currentTime {
        return Err(NeverReturns);
      }
      var periodEnd: u64 := if next <= end then next else end;
      var periodDuration: u64 := periodEnd - currentTime;
      var periodTokens := SaturatingMul(SaturatingMul(consumption, rate), periodDuration);
      WalkingStep(s, consumption, start, currentTime, periodEnd, end, totalTokens, weightedRateSum, windowsCrossed);

      totalTokens := WrapI128(totalTokens + periodTokens);
      weightedRateSum := WrapI128(weightedRateSum + SaturatingMul(rate, periodDuration));
      if periodEnd < end {
        windowsCrossed := (windowsCrossed + 1) % 256;
      }
      currentTime := periodEnd;
    }
    var weighted := WeightedRatePerSecond(weightedRateSum, duration);
    WalkedIsBilled(s, consumption, start, end, totalTokens, weightedRateSum, windowsCrossed);
    return Ok(FlowResult(totalTokens, duration, weighted, windowsCrossed > 0, windowsCrossed));
  }

  function WeightedRatePerSecond(sum: i128, duration: u64): (r: i128)
    requires duration > 0
    ensures r == TruncDiv(sum, duration)
  {
    TruncDivFits(sum, duration);
    TruncDiv(sum, duration)
  }

  lemma {:induction false} RateSumUpTo(s: ValidSchedule, a: nat, n: nat, maxRate: nat)
    requires forall t :: a <= t < a + n ==> Rate(s, t) <= maxRate
    ensures RateSum(s, a, a + n) <= maxRate * n
  {
    if n == 0 {
    } else {
      RateSumUpTo(s, a, n - 1, maxRate);
      MulSuccessor(maxRate, n - 1);
    }
  }

  /** A bound a caller can check beforehand that keeps every total exact. */
  lemma FitsWhenBounded(s: ValidSchedule, consumption: int, start: nat, end: nat, maxRate: nat)
    requires start < end && forall h :: 0 <= h < HOURS_IN_DAY ==> s.hourlyRates[h].rateCentsPerKwh <= maxRate
    requires FitsI128(consumption * (maxRate * (end - start)))
    ensures FitsI128(Cost(s, consumption, start, end))
  {
    RateSumUpTo(s, start, end - start, maxRate);
    CostIsScaledRateSum(s, consumption, start, end);
    ScaledMonotone(consumption, RateSum(s, start, end), maxRate * (end - start));
  }

  /** Billing two adjacent periods bills their union. */
  lemma BilledPeriodsAdd(s: ValidSchedule, c: int, start: nat, mid: nat, end: nat,
                         first: FlowResult, second: FlowResult, whole: FlowResult)
    requires Billed(s, c, start, mid, first) && Billed(s, c, mid, end, second) && Billed(s, c, start, end, whole)
    requires FitsI128(Cost(s, c, start, end))
    ensures first.totalTokens + second.totalTokens == whole.totalTokens
  {
    CostAdditive(s, c, start, mid, end);
    RateSumAdditive(s, start, mid, end);
    CostIsScaledRateSum(s, c, start, mid);
    CostIsScaledRateSum(s, c, mid, end);
    CostIsScaledRateSum(s, c, start, end);
    ScaledMonotone(c, RateSum(s, start, mid), RateSum(s, start, end));
  }

  lemma ExactDayTotal(s: ValidSchedule, c: int, start: nat, total: int)
    requires ExactTotal(s, c, start, start + DAY, total)
    ensures total == DailyCharge(s, c) <==> FitsI128(DailyCharge(s, c))
  {
    DayCost(s, c, start);
  }

  /** Any 86,400 seconds bill the same, wherever they start. */
  lemma BilledDay(s: ValidSchedule, c: int, start: nat, day: FlowResult)
    requires Billed(s, c, start, start + DAY, day)
    ensures day.totalTokens == DailyCharge(s, c) <==> FitsI128(DailyCharge(s, c))
  {
    ExactDayTotal(s, c, start, day.totalTokens);
  }

  /** The window counter is right exactly below 256 crossings; at 256 it reads "one window". */
  lemma WindowCounterExactly(start: nat, end: nat)
    requires start < end
    ensures Boundaries(start, end) % 256 == Boundaries(start, end)
            <==> (end - 1) / HOUR - start / HOUR < 256
    ensures Boundaries(0, 256 * HOUR + 1) % 256 == 0 && Boundaries(0, 256 * HOUR + 1) > 0
  {
    BoundariesClosedForm(start, end);
    BoundariesClosedForm(0, 256 * HOUR + 1);
    DivMonotone(start, end - 1, HOUR);
  }

  /** The field is documented as the number of hourly windows included: it is one less, modulo 256,
      and so never that number. */
  lemma WindowsIncludedNeverReported(s: ValidSchedule, c: int, start: nat, end: nat, r: FlowResult)
    requires Billed(s, c, start, end, r) && end < TWO64
    ensures r.windowsCrossed == (|Walk(s, start, end)| - 1) % 256 < |Walk(s, start, end)|
  {
    WalkCount(s, start, end);
  }

  /** `spanned_multiple_windows` is documented as crossing hour boundaries with different rates. What it
      reports is a nonzero counter, and that is the documented answer exactly when: with a counter of
      zero, no boundary is crossed or all hours have one rate; otherwise some boundary changes the rate. */
  lemma SpannedAsDocumentedExactly(s: ValidSchedule, c: int, start: nat, end: nat, r: FlowResult)
    requires Billed(s, c, start, end, r)
    ensures (r.spannedMultipleWindows <==> CrossesRateChange(s, start, end)) <==>
              if Boundaries(start, end) % 256 == 0 then Boundaries(start, end) == 0 || Uniform(s)
              else CrossesRateChange(s, start, end)
  {
    if Boundaries(start, end) == 0 {
      NoBoundaryNoChange(s, start, end);
    } else if Boundaries(start, end) % 256 == 0 {
      BoundariesClosedForm(start, end);
      LongPeriodChanges(s, start, end);
    }
  }

  /** Two hours of the default schedule at one rate are reported as spanning several windows. */
  lemma SpannedAtOneRate(c: int, r: FlowResult)
    requires Billed(DefaultSchedule(), c, 0, 2 * HOUR, r)
    ensures r.spannedMultipleWindows && !CrossesRateChange(DefaultSchedule(), 0, 2 * HOUR)
  {
    BoundariesClosedForm(0, 2 * HOUR);
    var s: ValidSchedule := DefaultSchedule();
    forall t: nat | t < 2 * HOUR ensures Rate(s, t) == 8 {
    }
  }

  // ---------- The reported weighted rate ----------

  /** The reported floor and the round-half-up average of the windows walked differ by at most one. */
  lemma ReportedRateNearAverage(s: ValidSchedule, c: int, start: nat, end: nat, r: FlowResult)
    requires Billed(s, c, start, end, r) && end < TWO64 && FitsI128(RateSum(s, start, end))
    ensures var average := WeightedRate.Average(Walk(s, start, end));
            average.Some? && r.weightedRatePerSecond <= average.value <= r.weightedRatePerSecond + 1
  {
    FloorCounterpart(s, start, end);
  }

  lemma QuotientGrowsWithFactor(c: int, sum: nat, duration: nat)
    requires 0 < duration <= sum
    ensures TruncDiv(c * sum, duration) == sum / duration <==> c == 1
  {
    DivAtLeast(sum, duration, 1);
    if c <= 0 {
      MulMonotone(c, 0, sum);
      NonpositiveQuotient(c * sum, duration);
    } else if c >= 2 {
      MulMonotone(2, c, sum);
      DivAtLeast(c * sum, duration, sum / duration + 1);
      DivModParts(sum, duration);
      MulSuccessor(duration, sum / duration);
    }
  }

  lemma NonpositiveQuotient(a: int, d: nat)
    requires a <= 0 < d
    ensures TruncDiv(a, d) <= 0
  {
    QuotientNoLarger(-a, d);
    DivModUnique(0, d, 0, 0);
  }

  lemma {:induction false} RateSumAtLeast(s: ValidSchedule, a: nat, n: nat)
    ensures RateSum(s, a, a + n) >= n
  {
    if n == 0 {
    } else {
      RateSumAtLeast(s, a, n - 1);
    }
  }

  /** The field is documented as total tokens over duration. While nothing overflows, it is that for a
      consumption rate of one token per second and for no other. */
  lemma WeightedRateIsMeanTotalExactly(s: ValidSchedule, c: int, start: nat, end: nat, r: FlowResult)
    requires Billed(s, c, start, end, r)
    requires FitsI128(Cost(s, c, start, end)) && FitsI128(RateSum(s, start, end))
    ensures TruncDiv(r.totalTokens, r.durationSeconds) == r.weightedRatePerSecond <==> c == 1
  {
    RateSumAtLeast(s, start, end - start);
    CostIsScaledRateSum(s, c, start, end);
    QuotientGrowsWithFactor(c, RateSum(s, start, end), end - start);
  }

  /** One second of the default schedule at two tokens per second: 16 tokens, reported rate 8. */
  lemma WeightedRateIsNotMeanTotal(r: FlowResult)
    requires Billed(DefaultSchedule(), 2, 0, 1, r)
    ensures r.totalTokens == 16 && r.durationSeconds == 1 && r.weightedRatePerSecond == 8
  {
    var s: ValidSchedule := DefaultSchedule();
    assert Rate(s, 0) == 8;
    RateSumWithinSecond(s, 0);
    CostIsScaledRateSum(s, 2, 0, 1);
  }

  // ---------- The walk in u64 ----------

  /** One turn of the loop as it runs: the boundary wraps, and is taken if it is at most `end`. */
  function NextStop(t: u64, end: u64): u64 {
    if NextHourBoundary(t) <= end then NextHourBoundary(t) else end
  }

  function Stop(start: u64, end: u64, n: nat): u64 {
    if n == 0 then start else NextStop(Stop(start, end, n - 1), end)
  }

  lemma {:induction false} WrappedStopsStayBefore(start: u64, end: u64, n: nat)
    requires start < end && end > TWO64 - 16
    ensures Stop(start, end, n) < end
  {
    if n == 0 {
    } else {
      WrappedStopsStayBefore(start, end, n - 1);
    }
  }

  lemma {:induction false} StopsReachEnd(start: u64, end: u64, n: nat) returns (m: nat)
    requires Stop(start, end, n) <= end <= TWO64 - 16
    ensures Stop(start, end, m) == end
    decreases end - Stop(start, end, n)
  {
    if Stop(start, end, n) == end {
      m := n;
    } else {
      m := StopsReachEnd(start, end, n + 1);
    }
  }

  /** The loop of a nonempty period never leaves exactly when the period reaches past the last hour
      boundary of u64: the boundary wraps to 3584 and the walk starts over, forever. */
  lemma NeverReturnsExactly(start: u64, end: u64)
    requires start < end
    ensures (forall n: nat :: Stop(start, end, n) < end) <==> end > TWO64 - 16
  {
    if end > TWO64 - 16 {
      forall n: nat ensures Stop(start, end, n) < end {
        WrappedStopsStayBefore(start, end, n);
      }
    } else {
      var m := StopsReachEnd(start, end, 0);
    }
  }
}
