/** Time-of-use schedules and what a stretch of time costs under one:
    `contracts/utility_contracts/src/tariff_oracle.rs`. */
module TariffSchedule {
  import opened Words
  import opened DivisionFacts
  import WeightedRate
  import AverageLaws

  const HOURS_IN_DAY: nat := 24
  const HOUR: nat := 3600
  const DAY: nat := 86400

  datatype TariffTier = OffPeak | Standard | Peak | CriticalPeak

  datatype HourlyTariff = HourlyTariff(hour: nat, rateCentsPerKwh: i128, tier: TariffTier, isRenewableHour: bool)

  datatype Schedule = Schedule(hourlyRates: seq<HourlyTariff>, scheduleDate: nat)

  /** `validate_tariff_schedule`: 24 positive rates listed in hour order, and a plausible date. */
  predicate IsValidSchedule(s: Schedule) {
    && |s.hourlyRates| == HOURS_IN_DAY
    && (forall i :: 0 <= i < HOURS_IN_DAY ==> s.hourlyRates[i].hour == i && s.hourlyRates[i].rateCentsPerKwh > 0)
    && 20000101 <= s.scheduleDate <= 20991231
  }

  /** The validating loop; `false` where it panics. */
  method ValidateTariffSchedule(s: Schedule) returns (valid: bool)
    ensures valid <==> IsValidSchedule(s)
  {
    if |s.hourlyRates| != HOURS_IN_DAY {
      return false;
    }
    for i := 0 to |s.hourlyRates|
      invariant forall j :: 0 <= j < i ==> s.hourlyRates[j].hour == j && s.hourlyRates[j].rateCentsPerKwh > 0
    {
      if s.hourlyRates[i].hour != i {
        return false;
      }
      if s.hourlyRates[i].rateCentsPerKwh <= 0 {
        return false;
      }
    }
    return 20000101 <= s.scheduleDate <= 20991231;
  }

  /** Every single fault makes a valid schedule invalid: an hour too few or too many, an hour out of
      place, a rate that is not positive, a date outside 2000 to 2099. */
  lemma SingleFaultsAreRefused(s: Schedule, h: nat, tariff: HourlyTariff, date: nat)
    requires IsValidSchedule(s) && h < 24
    ensures !IsValidSchedule(s.(hourlyRates := s.hourlyRates[..h]))
    ensures !IsValidSchedule(s.(hourlyRates := s.hourlyRates + [tariff]))
    ensures IsValidSchedule(s.(hourlyRates := s.hourlyRates[h := tariff]))
            <==> tariff.hour == h && tariff.rateCentsPerKwh > 0
    ensures IsValidSchedule(s.(scheduleDate := date)) <==> 20000101 <= date <= 20991231
  {
    var replaced := s.(hourlyRates := s.hourlyRates[h := tariff]);
    assert replaced.hourlyRates[h] == tariff;
  }

  type ValidSchedule = s: Schedule | IsValidSchedule(s) witness DefaultSchedule()

  function DefaultTariff(hour: nat): HourlyTariff {
    var (rate, tier) :=
      if hour <= 6 || hour >= 22 then (8, OffPeak)
      else if 7 <= hour <= 10 || 17 <= hour <= 20 then (15, Peak)
      else (12, Standard);
    HourlyTariff(hour, rate, tier, 10 <= hour <= 16)
  }

  function DefaultSchedule(): Schedule {
    Schedule(seq(HOURS_IN_DAY, h requires 0 <= h < HOURS_IN_DAY => DefaultTariff(h)), 20240101)
  }

  function TimestampToHour(t: nat): (h: nat)
    ensures h < HOURS_IN_DAY
  {
    (t / HOUR) % HOURS_IN_DAY
  }

  /** The first hour boundary after `t` in u64: from the last 16 seconds of the clock it wraps to 3584. */
  function NextHourBoundary(t: u64): (r: u64)
    ensures t < TWO64 - 16 ==> t < r == (t / HOUR + 1) * HOUR <= TWO64 - 16
    ensures t >= TWO64 - 16 ==> r == 3584
  {
    ((t / HOUR + 1) * HOUR) % TWO64
  }

  // ---------- The reference: one second at a time ----------

  /** The rate in force during second `t`. */
  function Rate(s: ValidSchedule, t: nat): (rate: i128)
    ensures rate > 0
  {
    s.hourlyRates[TimestampToHour(t)].rateCentsPerKwh
  }

  /** Sum of the rates of the seconds a, ..., b-1. */
  function RateSum(s: ValidSchedule, a: nat, b: nat): nat
    decreases b
  {
    if b <= a then 0 else RateSum(s, a, b - 1) + Rate(s, b - 1)
  }

  /** Charge for the seconds a, ..., b-1, each at its own hour's rate. */
  function Cost(s: ValidSchedule, consumption: int, a: nat, b: nat): int
    decreases b
  {
    if b <= a then 0 else Cost(s, consumption, a, b - 1) + consumption * Rate(s, b - 1)
  }

  /** Hour boundaries strictly between a and b. */
  function Boundaries(a: nat, b: nat): nat
    decreases b
  {
    if b <= a + 1 then 0 else Boundaries(a, b - 1) + (if (b - 1) % HOUR == 0 then 1 else 0)
  }

  /** The rate of a second is the one listed for its hour of the day. */
  lemma RateOfSecond(s: ValidSchedule, day: nat, hour: nat, second: nat)
    requires hour < 24 && second < 3600
    ensures Rate(s, day * 86400 + hour * 3600 + second) == s.hourlyRates[hour].rateCentsPerKwh
  {
    var t := day * 86400 + hour * 3600 + second;
    assert t == (day * 24 + hour) * 3600 + second;
    DivModUnique(t, 3600, day * 24 + hour, second);
    DivModUnique(day * 24 + hour, 24, day, hour);
  }

  lemma {:induction false} CostIsScaledRateSum(s: ValidSchedule, consumption: int, a: nat, b: nat)
    ensures Cost(s, consumption, a, b) == consumption * RateSum(s, a, b)
    decreases b
  {
    if b <= a {
    } else {
      CostIsScaledRateSum(s, consumption, a, b - 1);
      MulDistributes(consumption, RateSum(s, a, b - 1), Rate(s, b - 1));
    }
  }

  lemma {:induction false} RateSumAdditive(s: ValidSchedule, a: nat, b: nat, c: nat)
    requires a <= b <= c
    ensures RateSum(s, a, b) + RateSum(s, b, c) == RateSum(s, a, c)
    decreases c
  {
    if c == b {
    } else {
      RateSumAdditive(s, a, b, c - 1);
    }
  }

  /** Charging two adjacent periods is charging their union. */
  lemma {:induction false} CostAdditive(s: ValidSchedule, consumption: int, a: nat, b: nat, c: nat)
    requires a <= b <= c
    ensures Cost(s, consumption, a, b) + Cost(s, consumption, b, c) == Cost(s, consumption, a, c)
  {
    RateSumAdditive(s, a, b, c);
    CostIsScaledRateSum(s, consumption, a, b);
    CostIsScaledRateSum(s, consumption, b, c);
    CostIsScaledRateSum(s, consumption, a, c);
    MulDistributes(consumption, RateSum(s, a, b), RateSum(s, b, c));
  }

  lemma SameHour(t: nat, u: nat)
    requires t <= u < (t / HOUR + 1) * HOUR
    ensures u / HOUR == t / HOUR
  {
    DivModUnique(u, HOUR, t / HOUR, u - (t / HOUR) * HOUR);
  }

  lemma RateWithinHour(s: ValidSchedule, t: nat, u: nat)
    requires t <= u < (t / HOUR + 1) * HOUR
    ensures Rate(s, u) == Rate(s, t)
  {
    SameHour(t, u);
  }

  lemma {:induction false} RateSumOfConstant(s: ValidSchedule, a: nat, n: nat, rate: nat)
    requires forall t :: a <= t < a + n ==> Rate(s, t) == rate
    ensures RateSum(s, a, a + n) == rate * n
  {
    if n == 0 {
    } else {
      RateSumOfConstant(s, a, n - 1, rate);
      MulSuccessor(rate, n - 1);
    }
  }

  /** Inside one hour the rate sum is a product. */
  lemma RateSumWithinHour(s: ValidSchedule, a: nat, b: nat)
    requires a <= b <= (a / HOUR + 1) * HOUR
    ensures RateSum(s, a, b) == Rate(s, a) * (b - a)
  {
    forall t | a <= t < b ensures Rate(s, t) == Rate(s, a) {
      RateWithinHour(s, a, t);
    }
    RateSumOfConstant(s, a, b - a, Rate(s, a));
  }

  lemma {:induction false} NoBoundaryWithinHour(start: nat, a: nat, b: nat)
    requires start <= a < b <= (a / HOUR + 1) * HOUR
    ensures Boundaries(start, b) == Boundaries(start, a + 1)
    decreases b
  {
    if b == a + 1 {
    } else {
      NoBoundaryWithinHour(start, a, b - 1);
      SameHour(a, b - 1);
      DivModParts(b - 1, HOUR);
      DivModParts(a, HOUR);
    }
  }

  /** The count has a closed form: hours of the last second minus hours of the first. */
  lemma {:induction false} BoundariesClosedForm(a: nat, b: nat)
    requires a < b
    ensures Boundaries(a, b) == (b - 1) / HOUR - a / HOUR
    decreases b
  {
    if b == a + 1 {
    } else {
      BoundariesClosedForm(a, b - 1);
    }
  }

  // ---------- A whole day ----------

  lemma RatePeriodic(s: ValidSchedule, t: nat)
    ensures Rate(s, t + DAY) == Rate(s, t)
  {
    assert (t + DAY) / HOUR == t / HOUR + 24;
  }

  function SumOfHourlyRates(s: ValidSchedule, hours: nat): nat
    requires hours <= HOURS_IN_DAY
  {
    if hours == 0 then 0 else SumOfHourlyRates(s, hours - 1) + s.hourlyRates[hours - 1].rateCentsPerKwh
  }

  lemma HourOfBoundary(h: nat)
    requires h < HOURS_IN_DAY
    ensures (h * HOUR) / HOUR == h && TimestampToHour(h * HOUR) == h
  {
  }

  lemma RateSumOfHour(s: ValidSchedule, h: nat)
    requires h < HOURS_IN_DAY
    ensures RateSum(s, h * HOUR, h * HOUR + HOUR) == HOUR * s.hourlyRates[h].rateCentsPerKwh
  {
    var a := h * HOUR;
    HourOfBoundary(h);
    RateSumWithinHour(s, a, a + HOUR);
  }

  lemma {:induction false} RateSumFromMidnight(s: ValidSchedule, hours: nat)
    requires hours <= HOURS_IN_DAY
    ensures RateSum(s, 0, hours * HOUR) == HOUR * SumOfHourlyRates(s, hours)
  {
    if hours == 0 {
    } else {
      var a := (hours - 1) * HOUR;
      RateSumFromMidnight(s, hours - 1);
      RateSumOfHour(s, hours - 1);
      RateSumAdditive(s, 0, a, a + HOUR);
    }
  }

  lemma {:induction false} RateSumOfAnyDay(s: ValidSchedule, a: nat)
    ensures RateSum(s, a, a + DAY) == HOUR * SumOfHourlyRates(s, HOURS_IN_DAY)
  {
    if a == 0 {
      RateSumFromMidnight(s, HOURS_IN_DAY);
    } else {
      RateSumOfAnyDay(s, a - 1);
      RateSumAdditive(s, a - 1, a, a + DAY);
      RatePeriodic(s, a - 1);
      RateSumWithinSecond(s, a - 1);
    }
  }

  lemma RateSumWithinSecond(s: ValidSchedule, a: nat)
    ensures RateSum(s, a, a + 1) == Rate(s, a)
  {
    assert RateSum(s, a, a) == 0;
  }

  function DailyCharge(s: ValidSchedule, consumption: int): int {
    consumption * (HOUR * SumOfHourlyRates(s, HOURS_IN_DAY))
  }

  /** 86,400 seconds cost the same wherever they start. */
  lemma DayCost(s: ValidSchedule, consumption: int, a: nat)
    ensures Cost(s, consumption, a, a + DAY) == DailyCharge(s, consumption)
  {
    RateSumOfAnyDay(s, a);
    CostIsScaledRateSum(s, consumption, a, a + DAY);
  }

  /** The default schedule: nine night hours at 8, eight peak hours at 15, seven others at 12. */
  lemma DefaultDay(consumption: int)
    ensures DailyCharge(DefaultSchedule(), consumption) == consumption * (3600 * (9 * 8 + 8 * 15 + 7 * 12))
    ensures forall h :: h in {0, 6, 22, 23} ==> DefaultSchedule().hourlyRates[h].rateCentsPerKwh == 8
    ensures forall h :: h in {7, 10, 17, 20} ==> DefaultSchedule().hourlyRates[h].rateCentsPerKwh == 15
    ensures forall h :: h in {11, 16, 21} ==> DefaultSchedule().hourlyRates[h].rateCentsPerKwh == 12
  {
    var s: ValidSchedule := DefaultSchedule();
    assert SumOfHourlyRates(s, 7) == 56;
    assert SumOfHourlyRates(s, 11) == 116;
    assert SumOfHourlyRates(s, 17) == 188;
    assert SumOfHourlyRates(s, 21) == 248;
    assert SumOfHourlyRates(s, 24) == 276;
  }

  // ---------- Where rates change ----------

  /** The period crosses an hour boundary with different rates on its two sides. */
  ghost predicate CrossesRateChange(s: ValidSchedule, a: nat, b: nat) {
    exists t: nat :: a < t < b && t % HOUR == 0 && Rate(s, t) != Rate(s, t - 1)
  }

  lemma {:induction false} ConstantWithoutChange(s: ValidSchedule, a: nat, b: nat, t: nat)
    requires a <= t < b && !CrossesRateChange(s, a, b)
    ensures Rate(s, t) == Rate(s, a)
    decreases t
  {
    if t == a {
    } else {
      ConstantWithoutChange(s, a, b, t - 1);
      if t % HOUR != 0 {
        DivModParts(t - 1, HOUR);
        RateWithinHour(s, t - 1, t);
      }
    }
  }

  /** It does exactly when two of its seconds have different rates. */
  lemma RateChangeExactly(s: ValidSchedule, a: nat, b: nat)
    ensures CrossesRateChange(s, a, b)
            <==> exists t: nat, u: nat :: a <= t < b && a <= u < b && Rate(s, t) != Rate(s, u)
  {
    if !CrossesRateChange(s, a, b) {
      forall t: nat, u: nat | a <= t < b && a <= u < b ensures Rate(s, t) == Rate(s, u) {
        ConstantWithoutChange(s, a, b, t);
        ConstantWithoutChange(s, a, b, u);
      }
    }
  }

  /** All 24 hours have one rate. */
  predicate Uniform(s: ValidSchedule) {
    forall h :: 0 <= h < HOURS_IN_DAY ==> s.hourlyRates[h].rateCentsPerKwh == s.hourlyRates[0].rateCentsPerKwh
  }

  /** Every hour of the day has a second among the 86,400 from `a` on. */
  lemma SecondOfHour(a: nat, h: nat) returns (t: nat)
    requires h < HOURS_IN_DAY
    ensures a <= t < a + DAY && TimestampToHour(t) == h
  {
    var q := a / HOUR;
    var k := (h + HOURS_IN_DAY - q % HOURS_IN_DAY) % HOURS_IN_DAY;
    DivModParts(a, HOUR);
    t := if k == 0 then a else (q + k) * HOUR;
    if k != 0 {
      DivModUnique(t, HOUR, q + k, 0);
    }
  }

  /** A day or more crosses a change of rate unless the schedule has none. */
  lemma LongPeriodChanges(s: ValidSchedule, a: nat, b: nat)
    requires a + DAY <= b
    ensures CrossesRateChange(s, a, b) <==> !Uniform(s)
  {
    if !CrossesRateChange(s, a, b) {
      var t0 := SecondOfHour(a, 0);
      ConstantWithoutChange(s, a, b, t0);
      forall h | 0 <= h < HOURS_IN_DAY
        ensures s.hourlyRates[h].rateCentsPerKwh == s.hourlyRates[0].rateCentsPerKwh
      {
        var t := SecondOfHour(a, h);
        ConstantWithoutChange(s, a, b, t);
      }
    }
  }

  /** Without a boundary there is no change. */
  lemma NoBoundaryNoChange(s: ValidSchedule, a: nat, b: nat)
    requires a < b && Boundaries(a, b) == 0
    ensures !CrossesRateChange(s, a, b)
  {
    BoundariesClosedForm(a, b);
    forall t: nat | a < t < b && t % HOUR == 0 ensures false {
      DivMonotone(t, b - 1, HOUR);
      DivModParts(t, HOUR);
      DivModParts(a, HOUR);
    }
  }

  // ---------- The walk from boundary to boundary ----------

  function StepEnd(a: nat, end: nat): (e: nat)
    requires a < end
    ensures a < e <= end
  {
    var boundary := (a / HOUR + 1) * HOUR;
    if boundary <= end then boundary else end
  }

  /** The (rate, duration) windows the period is cut into. */
  function Walk(s: ValidSchedule, a: nat, end: nat): seq<WeightedRate.Interval>
    requires end < TWO64
    decreases end - a
  {
    if end <= a then []
    else [WeightedRate.Interval(Rate(s, a), StepEnd(a, end) - a)] + Walk(s, StepEnd(a, end), end)
  }

  lemma {:induction false} WalkCovers(s: ValidSchedule, a: nat, end: nat)
    requires a <= end < TWO64
    ensures WeightedRate.Weight(Walk(s, a, end)) == RateSum(s, a, end)
    ensures WeightedRate.Duration(Walk(s, a, end)) == end - a
    decreases end - a
  {
    if end <= a {
    } else {
      var e := StepEnd(a, end);
      var first := WeightedRate.Interval(Rate(s, a), e - a);
      WalkCovers(s, e, end);
      RateSumWithinHour(s, a, e);
      RateSumAdditive(s, a, e, end);
      AverageLaws.Sums([first], Walk(s, e, end));
      AverageLaws.SingleSums(first);
    }
  }

  lemma {:induction false} WalkLength(s: ValidSchedule, a: nat, end: nat)
    requires a <= end < TWO64
    ensures |Walk(s, a, end)| <= end - a
    decreases end - a
  {
    if end <= a {
    } else {
      WalkLength(s, StepEnd(a, end), end);
    }
  }

  /** The walk visits one window more than it crosses boundaries. */
  lemma {:induction false} WalkCount(s: ValidSchedule, a: nat, end: nat)
    requires a < end < TWO64
    ensures |Walk(s, a, end)| == Boundaries(a, end) + 1
    decreases end - a
  {
    var e := StepEnd(a, end);
    BoundariesClosedForm(a, end);
    if e == end {
      SameHour(a, end - 1);
    } else {
      WalkCount(s, e, end);
      BoundariesClosedForm(e, end);
      DivModUnique(e, HOUR, a / HOUR + 1, 0);
    }
  }

  lemma WalkAverages(s: ValidSchedule, a: nat, end: nat)
    requires a < end < TWO64
    ensures WeightedRate.Average(Walk(s, a, end)) == Some(WeightedRate.RoundHalfUp(RateSum(s, a, end), end - a))
  {
    WalkCovers(s, a, end);
    WalkLength(s, a, end);
    AverageLaws.AverageIsExact(Walk(s, a, end));
  }

  /** The floor the walk reports and the rounded average of its windows differ by at most one. */
  lemma FloorCounterpart(s: ValidSchedule, a: nat, end: nat)
    requires a < end < TWO64
    ensures var average := WeightedRate.Average(Walk(s, a, end));
            var floor := RateSum(s, a, end) / (end - a);
            average.Some? && floor <= average.value <= floor + 1
  {
    WalkAverages(s, a, end);
    WeightedRate.RoundAtLeastFloor(RateSum(s, a, end), end - a);
  }
}
