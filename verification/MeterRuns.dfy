/** Whole runs of the aggregator, over any number of devices, and what holds in every reachable state. */
module MeterRuns {
  import opened Words
  import opened MeterLog
  import opened MeterTruth
  import opened MeterQuery

  datatype World = World(admin: Option<Address>, logs: map<Address, DeviceLog>)

  const EMPTY_WORLD: World := World(None, map[])

  function LogOf(w: World, device: Address): DeviceLog {
    if device in w.logs then w.logs[device] else EMPTY_LOG
  }

  function Updated(w: World, device: Address, log: DeviceLog): World {
    w.(logs := w.logs[device := log])
  }

  // ---------- Entry points ----------

  datatype Call =
    | Initialize(admin: Address)
    | SubmitReading(device: Address, source: Address, value: i128)
    | Prune(device: Address)
    | RollupDay(device: Address, day: u64)

  function AfterSubmit(w: World, now: nat, device: Address, source: Address, value: i128): Result<World, Error> {
    if w.admin.None? then Err(NotInitialized)
    else match Submitted(LogOf(w, device), now, source, value)
      case Ok(log) => Ok(Updated(w, device, log))
      case Err(e) => Err(e)
  }

  function AfterRollup(w: World, device: Address, day: u64): Result<World, Error> {
    if w.admin.None? then Err(NotInitialized)
    else Ok(Updated(w, device, DayReclaimed(LogOf(w, device), day)))
  }

  function Execute(w: World, now: nat, c: Call): Result<World, Error> {
    match c
    case Initialize(a) => if w.admin.Some? then Err(AlreadyInitialized) else Ok(w.(admin := Some(a)))
    case SubmitReading(device, source, value) => AfterSubmit(w, now, device, source, value)
    case Prune(device) => Ok(Updated(w, device, Pruned(LogOf(w, device), now).0))
    case RollupDay(device, day) => AfterRollup(w, device, day)
  }

  // ---------- Runs ----------

  datatype Event = Event(now: nat, call: Call)

  /** A trapping call leaves the state unchanged. */
  function Step(w: World, e: Event): World {
    match Execute(w, e.now, e.call) case Ok(w') => w' case Err(_) => w
  }

  function Run(trace: seq<Event>): World {
    if trace == [] then EMPTY_WORLD else Step(Run(trace[..|trace| - 1]), trace[|trace| - 1])
  }

  /** The ledger clock never goes backwards, and the calls are fewer than 2^64: the u64 sequence
      counter cannot be exhausted by fewer. */
  ghost predicate Admissible(trace: seq<Event>) {
    && |trace| < TWO64
    && forall i, j :: 0 <= i <= j < |trace| ==> trace[i].now <= trace[j].now
  }

  function Clock(trace: seq<Event>): nat {
    if trace == [] then 0 else trace[|trace| - 1].now
  }

  /** What one call adds to the truth about `device`: an accepted reading, or a deletion mark. */
  function TruthStep(t: Truth, w: World, e: Event, device: Address): Truth {
    if Execute(w, e.now, e.call).Err? then t
    else match e.call
      case SubmitReading(d, source, value) =>
        if d == device && value >= 0 then With(t, RawReading(e.now, value, source)) else t
      case RollupDay(d, day) =>
        if d == device then Reclaiming(t, ReclaimedHours(day, HOURS_PER_DAY), e.now) else t
      case _ => t
  }

  /** Every reading the run accepted for `device`, in order, and when hour buckets were last deleted. */
  function TruthOf(trace: seq<Event>, device: Address): Truth {
    if trace == [] then NO_TRUTH
    else
      var before := trace[..|trace| - 1];
      TruthStep(TruthOf(before, device), Run(before), trace[|trace| - 1], device)
  }

  // ---------- The invariant ----------

  lemma FaithfulLater(log: DeviceLog, t: Truth, clock: nat, later: nat)
    requires Faithful(log, t, clock) && clock <= later
    ensures Faithful(log, t, later)
  {
    forall h: nat ensures HourFaithful(log, t, h) {}
    forall d: nat ensures DayFaithful(log, t, d) {}
  }

  lemma NothingYetFaithful(clock: nat)
    ensures Faithful(EMPTY_LOG, NO_TRUTH, clock)
  {
    forall h: nat ensures HourFaithful(EMPTY_LOG, NO_TRUTH, h) {}
    forall d: nat ensures DayFaithful(EMPTY_LOG, NO_TRUTH, d) {}
  }

  lemma SubmittedFaithful(log: DeviceLog, t: Truth, clock: nat, now: nat, source: Address, value: i128)
    requires Faithful(log, t, clock) && clock <= now && |t.history| + 1 < TWO64
    requires Submitted(log, now, source, value).Ok?
    ensures Faithful(Submitted(log, now, source, value).value, With(t, RawReading(now, value, source)), now)
  {
    var r := RawReading(now, value, source);
    RolledUpFaithful(log, t, clock, r);
    PrunedExactly(RolledUp(Stored(log, r), now, value).value, With(t, r), now, now);
  }

  lemma StepFaithful(w: World, t: Truth, clock: nat, e: Event, device: Address)
    requires Faithful(LogOf(w, device), t, clock) && clock <= e.now && |t.history| + 1 < TWO64
    ensures Faithful(LogOf(Step(w, e), device), TruthStep(t, w, e, device), e.now)
  {
    var log := LogOf(w, device);
    FaithfulLater(log, t, clock, e.now);
    if Execute(w, e.now, e.call).Ok? {
      match e.call
      case Initialize(_) =>
      case SubmitReading(d, source, value) =>
        if d == device {
          SubmittedFaithful(log, t, clock, e.now, source, value);
        }
      case Prune(d) =>
        if d == device {
          PrunedExactly(log, t, clock, e.now);
        }
      case RollupDay(d, day) =>
        if d == device {
          ReclaimedFaithful(log, t, clock, ReclaimedHours(day, HOURS_PER_DAY), e.now);
        }
    }
  }

  lemma {:induction false} HistoryBound(trace: seq<Event>, device: Address)
    ensures |TruthOf(trace, device).history| <= |trace|
  {
    if trace == [] {
    } else {
      HistoryBound(trace[..|trace| - 1], device);
    }
  }

  /** In every reachable state, for every device, the stored entries agree with the readings ever
      accepted: live range, time order, hourly buckets since their last deletion, daily buckets. */
  lemma {:induction false} RunsAreFaithful(trace: seq<Event>, device: Address)
    requires Admissible(trace)
    ensures Faithful(LogOf(Run(trace), device), TruthOf(trace, device), Clock(trace))
  {
    if trace == [] {
      NothingYetFaithful(0);
    } else {
      var before := trace[..|trace| - 1];
      RunsAreFaithful(before, device);
      HistoryBound(before, device);
      StepFaithful(Run(before), TruthOf(before, device), Clock(before), trace[|trace| - 1], device);
    }
  }

  /** Pruning any reachable state: exactly min(10, stale) readings go, always the oldest, none of
      them at most seven days old, and the cursor passes over no gap. */
  lemma ReachablePrune(trace: seq<Event>, device: Address, now: nat)
    requires Admissible(trace) && Clock(trace) <= now
    ensures var log, hs := LogOf(Run(trace), device), TruthOf(trace, device).history;
            var (after, count) := Pruned(log, now);
            && LiveRange(log, hs) && LiveRange(after, hs)
            && count == Least(PRUNE_BATCH_SIZE, StaleFrom(hs, log.pruneCursor, Cutoff(now)))
            && after.pruneCursor == log.pruneCursor + count
            && (after.hourly, after.daily, after.nextSeq) == (log.hourly, log.daily, log.nextSeq)
            && forall i :: log.pruneCursor <= i < after.pruneCursor ==> TooOld(hs[i].timestamp, now)
  {
    RunsAreFaithful(trace, device);
    PrunedExactly(LogOf(Run(trace), device), TruthOf(trace, device), Clock(trace), now);
  }

  /** A daily bucket, present or not, holds the day's whole volume. */
  lemma DayBucketTotal(log: DeviceLog, t: Truth, clock: nat, d: nat)
    requires Faithful(log, t, clock)
    ensures BucketTotal(log.daily, d) == Volume(t.history, d * HOURS_PER_DAY, d * HOURS_PER_DAY + 23)
  {
    assert DayFaithful(log, t, d);
    if d !in log.daily {
      UncountedIsAbsent(t.history, d * HOURS_PER_DAY, d * HOURS_PER_DAY + 23);
      NothingCounted(t.history, d * HOURS_PER_DAY, d * HOURS_PER_DAY + 23);
    }
  }

  /** `rollup_day` reports the volume ever submitted on its day, pruned and consolidated or not. */
  lemma ReachableDayTotal(trace: seq<Event>, device: Address, day: u64)
    requires Admissible(trace)
    ensures DayTotal(LogOf(Run(trace), device), day)
         == Volume(TruthOf(trace, device).history, day * HOURS_PER_DAY, day * HOURS_PER_DAY + 23)
  {
    RunsAreFaithful(trace, device);
    DayBucketTotal(LogOf(Run(trace), device), TruthOf(trace, device), Clock(trace), day);
  }

  lemma VolumeInside(hs: seq<RawReading>, lo: nat, h: nat, hi: nat)
    requires lo <= h <= hi
    ensures Volume(hs, h, h) <= Volume(hs, lo, hi)
  {
    VolumeSplits(hs, lo, h, hi);
    VolumeSplits(hs, h, h + 1, hi);
  }

  lemma HourBucketBound(log: DeviceLog, t: Truth, clock: nat, h: nat)
    requires Faithful(log, t, clock)
    ensures BucketTotal(log.hourly, h) <= Volume(t.history, h, h)
  {
    assert HourFaithful(log, t, h);
    VolumeOfParts(t.history, Since(t, h), h, h);
  }

  /** The current hour's bucket never holds more than the current day's, which holds the whole day. */
  lemma HourWithinDay(log: DeviceLog, t: Truth, clock: nat, now: nat)
    requires Faithful(log, t, clock)
    ensures var lo := DayOf(now) * HOURS_PER_DAY;
            BucketTotal(log.hourly, HourOf(now)) <= BucketTotal(log.daily, DayOf(now)) == Volume(t.history, lo, lo + 23)
  {
    var lo := DayOf(now) * HOURS_PER_DAY;
    DayOfHour(now);
    DayBucketTotal(log, t, clock, DayOf(now));
    HourBucketBound(log, t, clock, HourOf(now));
    VolumeInside(t.history, lo, HourOf(now), lo + 23);
  }

  /** A reading is accepted exactly when the contract is initialized, the value is nonnegative and
      the day's volume with it still fits i128: the hourly overflow check never decides. */
  lemma SubmissionAcceptedExactly(trace: seq<Event>, now: nat, device: Address, source: Address, value: i128)
    requires Admissible(trace)
    ensures var lo := DayOf(now) * HOURS_PER_DAY;
            AfterSubmit(Run(trace), now, device, source, value).Ok? <==>
              && Run(trace).admin.Some? && value >= 0
              && Volume(TruthOf(trace, device).history, lo, lo + 23) + value <= I128_MAX
  {
    RunsAreFaithful(trace, device);
    HourWithinDay(LogOf(Run(trace), device), TruthOf(trace, device), Clock(trace), now);
    if value >= 0 {
      SubmittedWhenBothFit(LogOf(Run(trace), device), now, source, value);
    }
  }

  // ---------- The cap on raw storage ----------

  /** No stretch of one retention window, its ends included, holds more than `k` of the readings. */
  ghost predicate AtMostPerWindow(hs: seq<RawReading>, k: nat) {
    forall i, j :: 0 <= i <= j < |hs| && hs[j].timestamp - hs[i].timestamp <= MAX_RAW_RETENTION_SECS ==> j - i + 1 <= k
  }

  lemma {:induction false} LiveCount(hs: seq<RawReading>, c: nat)
    requires c <= |hs|
    ensures |map i: nat | c <= i < |hs| :: hs[i]| == |hs| - c
    decreases |hs| - c
  {
    var m := map i: nat | c <= i < |hs| :: hs[i];
    if c == |hs| {
      assert m == map[];
    } else {
      LiveCount(hs, c + 1);
      assert m - {c} == map i: nat | c + 1 <= i < |hs| :: hs[i];
      assert m == (m - {c})[c := hs[c]];
    }
  }

  /** Either the new reading's prune deletes something, or all that is live lies within one window. */
  lemma SubmitKeepsCap(log: DeviceLog, t: Truth, clock: nat, now: nat, source: Address, value: i128, k: nat)
    requires Faithful(log, t, clock) && clock <= now && |t.history| + 1 < TWO64
    requires Submitted(log, now, source, value).Ok? && log.nextSeq - log.pruneCursor <= k
    requires AtMostPerWindow(With(t, RawReading(now, value, source)).history, k)
    ensures var after := Submitted(log, now, source, value).value;
            after.nextSeq - after.pruneCursor <= k
  {
    var r := RawReading(now, value, source);
    var hs, c := With(t, r).history, log.pruneCursor;
    RolledUpFaithful(log, t, clock, r);
    PrunedExactly(RolledUp(Stored(log, r), now, value).value, With(t, r), now, now);
    StaleComeFirst(hs, c, Cutoff(now), now);
    if StaleFrom(hs, c, Cutoff(now)) == 0 {
      assert !TooOld(hs[c].timestamp, now) && hs[|hs| - 1].timestamp == now;
    }
  }

  lemma StepKeepsCap(w: World, t: Truth, clock: nat, e: Event, device: Address, k: nat)
    requires Faithful(LogOf(w, device), t, clock) && clock <= e.now && |t.history| + 1 < TWO64
    requires LogOf(w, device).nextSeq - LogOf(w, device).pruneCursor <= k
    requires AtMostPerWindow(TruthStep(t, w, e, device).history, k)
    ensures var after := LogOf(Step(w, e), device);
            after.nextSeq - after.pruneCursor <= k
  {
    var log := LogOf(w, device);
    if Execute(w, e.now, e.call).Ok? {
      match e.call
      case Initialize(_) =>
      case SubmitReading(d, source, value) =>
        if d == device {
          SubmitKeepsCap(log, t, clock, e.now, source, value, k);
        }
      case Prune(d) =>
        if d == device {
          PrunedExactly(log, t, clock, e.now);
        }
      case RollupDay(d, day) =>
    }
  }

  lemma {:induction false} LiveRangeCapped(trace: seq<Event>, device: Address, k: nat)
    requires Admissible(trace) && AtMostPerWindow(TruthOf(trace, device).history, k)
    ensures LogOf(Run(trace), device).nextSeq - LogOf(Run(trace), device).pruneCursor <= k
  {
    if trace == [] {
    } else {
      var before, e := trace[..|trace| - 1], trace[|trace| - 1];
      var hs, earlier := TruthOf(trace, device).history, TruthOf(before, device).history;
      assert forall i :: 0 <= i < |earlier| ==> earlier[i] == hs[i];
      LiveRangeCapped(before, device, k);
      RunsAreFaithful(before, device);
      HistoryBound(before, device);
      StepKeepsCap(Run(before), TruthOf(before, device), Clock(before), e, device, k);
    }
  }

  /** Live raw storage never exceeds what one retention window holds: if no 604,800 seconds saw more
      than k accepted readings of the device, at most k raw entries are stored, in every reachable state. */
  lemma RawStorageCapped(trace: seq<Event>, device: Address, k: nat)
    requires Admissible(trace) && AtMostPerWindow(TruthOf(trace, device).history, k)
    ensures |LogOf(Run(trace), device).raw| <= k
  {
    LiveRangeCapped(trace, device, k);
    RunsAreFaithful(trace, device);
    LiveCount(TruthOf(trace, device).history, LogOf(Run(trace), device).pruneCursor);
  }

  // ---------- Queries in reachable states ----------

  function TrueVolume(trace: seq<Event>, device: Address, fromHour: nat, toHour: nat): nat {
    Volume(TruthOf(trace, device).history, fromHour, toHour)
  }

  /** Any other window is answered with the true volume less what partially covered days have lost:
      never more, and exactly it if and only if none of their hours lost anything. */
  lemma {:induction false} WindowsNeverOverstate(trace: seq<Event>, device: Address, fromHour: nat, toHour: nat)
    requires Admissible(trace)
    ensures var log, t := LogOf(Run(trace), device), TruthOf(trace, device);
            var answer := Tiered(log, fromHour, toHour);
            var exact := TrueVolume(trace, device, fromHour, toHour);
            && answer + LostInPartialDays(log, t, fromHour, fromHour, toHour) == exact
            && (answer == exact <==>
                  forall x :: fromHour <= x <= toHour && !DayInside(x, fromHour, toHour) ==> Lost(log, t, x) == 0)
  {
    var log, t := LogOf(Run(trace), device), TruthOf(trace, device);
    RunsAreFaithful(trace, device);
    InitialPosition(log, fromHour, toHour);
    TieredAccounted(log, t, Clock(trace), fromHour, fromHour, toHour);
    LossesVanish(log, t, fromHour, fromHour, toHour);
  }

  lemma InitialPosition(log: DeviceLog, fromHour: nat, toHour: nat)
    ensures WalkPosition(log, fromHour, fromHour, toHour)
  {
  }

  lemma WholeDayInside(x: nat, fromHour: nat, toHour: nat)
    requires fromHour <= x <= toHour && fromHour % HOURS_PER_DAY == 0 && toHour % HOURS_PER_DAY == 23
    ensures DayInside(x, fromHour, toHour)
  {
  }

  lemma WholeDaysLoseNothing(trace: seq<Event>, device: Address, fromHour: nat, toHour: nat)
    requires Admissible(trace) && fromHour % HOURS_PER_DAY == 0 && toHour % HOURS_PER_DAY == 23
    ensures Tiered(LogOf(Run(trace), device), fromHour, toHour) == TrueVolume(trace, device, fromHour, toHour)
  {
    forall x | fromHour <= x <= toHour ensures DayInside(x, fromHour, toHour) {
      WholeDayInside(x, fromHour, toHour);
    }
    WindowsNeverOverstate(trace, device, fromHour, toHour);
  }

  /** A window of whole days is always answered with the exact volume ever submitted in it, whatever
      was pruned or consolidated, and traps only when that volume leaves i128. */
  lemma {:induction false} WholeDaysAreExact(trace: seq<Event>, device: Address, fromTs: nat, toTs: nat)
    requires Admissible(trace) && fromTs <= toTs
    requires HourOf(fromTs) % HOURS_PER_DAY == 0 && HourOf(toTs) % HOURS_PER_DAY == 23
    ensures var exact := TrueVolume(trace, device, HourOf(fromTs), HourOf(toTs));
            Aggregated(LogOf(Run(trace), device), fromTs, toTs)
            == if exact > I128_MAX then Err(Overflow) else Ok(exact)
  {
    WholeDaysLoseNothing(trace, device, HourOf(fromTs), HourOf(toTs));
  }

  /** Every hour of a partially covered day was never consolidated, or last consolidated after it
      ended with all its readings still live. */
  ghost predicate PartialDaysIntact(trace: seq<Event>, device: Address, fromHour: nat, toHour: nat) {
    forall x :: fromHour <= x <= toHour && !DayInside(x, fromHour, toHour) ==>
      Intact(LogOf(Run(trace), device), TruthOf(trace, device), x)
  }

  lemma IntactWindowsAreExact(trace: seq<Event>, device: Address, fromHour: nat, toHour: nat)
    requires Admissible(trace) && PartialDaysIntact(trace, device, fromHour, toHour)
    ensures Tiered(LogOf(Run(trace), device), fromHour, toHour) == TrueVolume(trace, device, fromHour, toHour)
  {
    var log, t := LogOf(Run(trace), device), TruthOf(trace, device);
    RunsAreFaithful(trace, device);
    forall x | fromHour <= x <= toHour && !DayInside(x, fromHour, toHour) ensures Lost(log, t, x) == 0 {
      IntactLosesNothing(log, t, Clock(trace), x);
    }
    WindowsNeverOverstate(trace, device, fromHour, toHour);
  }

  /** In every reachable state, asking for two adjacent windows never finds more than asking for their
      union; what it misses is exactly what the smaller windows lose beyond the larger. */
  lemma {:induction false} AdjacentWindowsAccounted(trace: seq<Event>, device: Address, a: nat, b: nat, c: nat)
    requires Admissible(trace) && a < b <= c
    ensures var log, t := LogOf(Run(trace), device), TruthOf(trace, device);
            var parts := Tiered(log, a, b - 1) + Tiered(log, b, c);
            && parts <= Tiered(log, a, c) <= TrueVolume(trace, device, a, c)
            && parts + LostInPartialDays(log, t, a, a, b - 1) + LostInPartialDays(log, t, b, b, c)
               == Tiered(log, a, c) + LostInPartialDays(log, t, a, a, c)
  {
    var log, t := LogOf(Run(trace), device), TruthOf(trace, device);
    WindowsNeverOverstate(trace, device, a, b - 1);
    WindowsNeverOverstate(trace, device, b, c);
    WindowsNeverOverstate(trace, device, a, c);
    VolumeSplits(t.history, a, b, c);
    PartsLoseMore(log, t, a, a, b, c);
  }

  /** Where both parts are exact, so is the union, and they add up to it. */
  lemma {:induction false} AdjacentWindowsAdd(trace: seq<Event>, device: Address, a: nat, b: nat, c: nat)
    requires Admissible(trace) && a < b <= c
    requires Tiered(LogOf(Run(trace), device), a, b - 1) == TrueVolume(trace, device, a, b - 1)
    requires Tiered(LogOf(Run(trace), device), b, c) == TrueVolume(trace, device, b, c)
    ensures var log := LogOf(Run(trace), device);
            Tiered(log, a, b - 1) + Tiered(log, b, c) == Tiered(log, a, c) == TrueVolume(trace, device, a, c)
  {
    AdjacentWindowsAccounted(trace, device, a, b, c);
    VolumeSplits(TruthOf(trace, device).history, a, b, c);
  }

  lemma LossyCalls(w: World, d: Address, source: Address)
    requires w.admin.Some? && LogOf(w, d) == EMPTY_LOG
    ensures var w1 := Step(w, Event(0, SubmitReading(d, source, 7)));
            var w2 := Step(w1, Event(1, RollupDay(d, 0)));
            var w3 := Step(w2, Event(700_000, Prune(d)));
            && Execute(w, 0, SubmitReading(d, source, 7)).Ok?
            && LogOf(w3, d) == DeviceLog(1, 1, map[], map[], map[0 := Bucket(0, 7, 1)])
  {
    var r, bucket := RawReading(0, 7, source), Bucket(0, 7, 1);
    var submitted := DeviceLog(1, 0, map[0 := r], map[0 := bucket], map[0 := bucket]);
    assert Submitted(EMPTY_LOG, 0, source, 7) == Ok(submitted);
    assert ReclaimedHour(0, 0) in ReclaimedHours(0, HOURS_PER_DAY);
    assert DayReclaimed(submitted, 0).hourly == map[];
    assert PruneFrom(map[0 := r], 0, 1, Cutoff(700_000), 10) == (map[], 1, 1);
  }

  function LossyTrace(d: Address, source: Address): seq<Event> {
    [Event(0, Initialize(source)), Event(0, SubmitReading(d, source, 7)),
     Event(1, RollupDay(d, 0)), Event(700_000, Prune(d))]
  }

  lemma LossyRun(d: Address, source: Address)
    ensures LogOf(Run(LossyTrace(d, source)), d) == DeviceLog(1, 1, map[], map[], map[0 := Bucket(0, 7, 1)])
    ensures TruthOf(LossyTrace(d, source), d).history == [RawReading(0, 7, source)]
  {
    var t := LossyTrace(d, source);
    OneMore([], t[0], d);
    OneMore(t[..1], t[1], d);
    OneMore(t[..2], t[2], d);
    OneMore(t[..3], t[3], d);
    assert [] + [t[0]] == t[..1] && t[..1] + [t[1]] == t[..2] && t[..2] + [t[2]] == t[..3] && t[..3] + [t[3]] == t;
    LossyCalls(Run(t[..1]), d, source);
  }

  /** Partial days can lose: a reading of hour 0, its day consolidated at once, and the raw entry
      pruned later. The hour is answered with 0 instead of 7; the whole day still with 7. */
  lemma PartialDayCanLose(d: Address, source: Address)
    ensures var trace := LossyTrace(d, source);
            && Admissible(trace)
            && Aggregated(LogOf(Run(trace), d), 0, 3599) == Ok(0) && TrueVolume(trace, d, 0, 0) == 7
            && Aggregated(LogOf(Run(trace), d), 0, 86399) == Ok(7)
  {
    LossyRun(d, source);
    var r := RawReading(0, 7, source);
    Appended([], r, 0, 0);
    assert [] + [r] == [r];
  }

  lemma OneMore(trace: seq<Event>, e: Event, device: Address)
    ensures Run(trace + [e]) == Step(Run(trace), e)
    ensures TruthOf(trace + [e], device) == TruthStep(TruthOf(trace, device), Run(trace), e, device)
  {
    assert (trace + [e])[..|trace|] == trace;
  }

  // ---------- Backlog ----------

  /** How many of the readings numbered [first, last) a prune cursor has not passed. */
  function StillLive(cursor: nat, first: nat, last: nat): nat {
    var from := if cursor > first then cursor else first;
    if from >= last then 0 else last - from
  }

  /** A successful call that prunes `device`. */
  predicate Prunes(w: World, e: Event, device: Address) {
    Execute(w, e.now, e.call).Ok? && (e.call.SubmitReading? || e.call.Prune?) && e.call.device == device
  }

  /** Successful calls of a run that prune `device`. */
  function PruningCalls(trace: seq<Event>, more: seq<Event>, device: Address): nat {
    if more == [] then 0
    else
      var before, e := more[..|more| - 1], more[|more| - 1];
      PruningCalls(trace, before, device)
      + (if Prunes(Run(trace + before), e, device) then 1 else 0)
  }

  lemma StaleAtLeast(hs: seq<RawReading>, c: nat, last: nat, cutoff: nat)
    requires c <= last <= |hs| && forall i :: c <= i < last ==> hs[i].timestamp < cutoff
    ensures StaleFrom(hs, c, cutoff) >= last - c
    decreases |hs| - c
  {
    if c == last {
    } else {
      StaleAtLeast(hs, c + 1, last, cutoff);
    }
  }

  /** Pruning a faithful log whose readings up to number `last` are stale moves the cursor at least
      ten towards `last`. */
  lemma PruneAdvances(log: DeviceLog, t: Truth, clock: nat, now: nat, last: nat)
    requires Faithful(log, t, clock) && clock <= now && last <= |t.history|
    requires forall i :: log.pruneCursor <= i < last ==> t.history[i].timestamp < Cutoff(now)
    ensures Pruned(log, now).0.pruneCursor >= Least(last, log.pruneCursor + PRUNE_BATCH_SIZE)
  {
    PrunedExactly(log, t, clock, now);
    if log.pruneCursor < last {
      StaleAtLeast(t.history, log.pruneCursor, last, Cutoff(now));
    }
  }

  lemma SubmitAdvances(log: DeviceLog, t: Truth, clock: nat, now: nat, source: Address, value: i128, last: nat)
    requires Faithful(log, t, clock) && clock <= now && last <= |t.history|
    requires forall i :: 0 <= i < last ==> t.history[i].timestamp < Cutoff(now)
    requires Submitted(log, now, source, value).Ok? && |t.history| + 1 < TWO64
    ensures Submitted(log, now, source, value).value.pruneCursor
            >= Least(last, log.pruneCursor + PRUNE_BATCH_SIZE)
    ensures Submitted(log, now, source, value).value.pruneCursor >= log.pruneCursor
  {
    var r := RawReading(now, value, source);
    RolledUpFaithful(log, t, clock, r);
    var rolled := RolledUp(Stored(log, r), now, value).value;
    PrunedExactly(rolled, With(t, r), now, now);
    PruneAdvances(rolled, With(t, r), now, now, last);
  }

  /** One more event: the cursor keeps its place, and a successful pruning call advances it. */
  lemma CursorStep(w: World, t: Truth, clock: nat, e: Event, device: Address, last: nat)
    requires Faithful(LogOf(w, device), t, clock) && clock <= e.now && |t.history| + 1 < TWO64 && last <= |t.history|
    requires forall i :: 0 <= i < last ==> t.history[i].timestamp < Cutoff(e.now)
    ensures t.history <= TruthStep(t, w, e, device).history
    ensures var log, after := LogOf(w, device), LogOf(Step(w, e), device);
            && after.pruneCursor >= log.pruneCursor
            && (Prunes(w, e, device) ==> after.pruneCursor >= Least(last, log.pruneCursor + PRUNE_BATCH_SIZE))
  {
    var log := LogOf(w, device);
    if Execute(w, e.now, e.call).Ok? {
      match e.call
      case Initialize(_) =>
      case SubmitReading(d, source, value) =>
        if d == device {
          SubmitAdvances(log, t, clock, e.now, source, value, last);
        }
      case Prune(d) =>
        if d == device {
          PrunedExactly(log, t, clock, e.now);
          PruneAdvances(log, t, clock, e.now, last);
        }
      case RollupDay(d, day) =>
    }
  }

  function Cursor(trace: seq<Event>, device: Address): nat {
    LogOf(Run(trace), device).pruneCursor
  }

  /** Every reading numbered below `last` is stale at time `now`. */
  ghost predicate StaleUpTo(hs: seq<RawReading>, last: nat, now: nat) {
    last <= |hs| && forall i :: 0 <= i < last ==> hs[i].timestamp < Cutoff(now)
  }

  /** The cursor went from `first` at least k batches towards `last`. */
  predicate Advanced(cursor: nat, first: nat, last: nat, k: nat) {
    cursor >= Least(last, first + PRUNE_BATCH_SIZE * k)
  }

  lemma {:induction false} CursorAdvances(trace: seq<Event>, now: nat, more: seq<Event>, device: Address, last: nat)
    requires Admissible(trace + more) && forall i :: 0 <= i < |more| ==> now <= more[i].now
    requires StaleUpTo(TruthOf(trace, device).history, last, now)
    ensures TruthOf(trace, device).history <= TruthOf(trace + more, device).history
    ensures Advanced(Cursor(trace + more, device), Cursor(trace, device), last, PruningCalls(trace, more, device))
    decreases |more|
  {
    if more == [] {
      assert trace + more == trace;
    } else {
      var before, e := more[..|more| - 1], more[|more| - 1];
      PrefixOrdered(trace, more);
      CursorAdvances(trace, now, before, device, last);
      RunsAreFaithful(trace + before, device);
      HistoryBound(trace + before, device);
      CursorStep(Run(trace + before), TruthOf(trace + before, device), Clock(trace + before), e, device, last);
    }
  }

  lemma PrefixOrdered(trace: seq<Event>, more: seq<Event>)
    requires Admissible(trace + more) && more != []
    ensures var n := |more| - 1;
            && (trace + more)[..|trace + more| - 1] == trace + more[..n]
            && (trace + more)[|trace + more| - 1] == more[n]
            && Admissible(trace + more[..n]) && Clock(trace + more[..n]) <= more[n].now
  {
    var n, all := |more| - 1, trace + more;
    var init := trace + more[..n];
    assert all == init + [more[n]];
    assert all[|init|] == more[n];
    assert forall i :: 0 <= i < |init| ==> init[i] == all[i];
  }

  /** Live readings of `device` that are stale at time `now`. */
  function Backlog(trace: seq<Event>, device: Address, now: nat): nat {
    StaleFrom(TruthOf(trace, device).history, LogOf(Run(trace), device).pruneCursor, Cutoff(now))
  }

  function AfterBatches(stale: nat, k: nat): nat {
    if stale >= PRUNE_BATCH_SIZE * k then stale - PRUNE_BATCH_SIZE * k else 0
  }

  lemma CursorPast(cursor: nat, first: nat, stale: nat, k: nat)
    requires stale > 0 ==> Advanced(cursor, first, first + stale, k)
    ensures StillLive(cursor, first, first + stale) <= AfterBatches(stale, k)
  {
  }

  lemma BacklogIsStale(trace: seq<Event>, device: Address, now: nat)
    requires Admissible(trace) && Backlog(trace, device, now) > 0
    ensures StaleUpTo(TruthOf(trace, device).history, Cursor(trace, device) + Backlog(trace, device, now), now)
  {
    var hs := TruthOf(trace, device).history;
    RunsAreFaithful(trace, device);
    StaleComeFirst(hs, Cursor(trace, device), Cutoff(now), Clock(trace));
    assert hs[Cursor(trace, device)].timestamp < Cutoff(now);
  }

  /** Backlog draining: of the S readings stale at some moment `now`, at most S - 10 k are left
      after any continuation with k successful submissions or prunes of the device. */
  lemma {:induction false} BacklogDrains(trace: seq<Event>, now: nat, more: seq<Event>, device: Address)
    requires Admissible(trace) && Clock(trace) <= now
    requires Admissible(trace + more) && forall i :: 0 <= i < |more| ==> now <= more[i].now
    ensures var stale := Backlog(trace, device, now);
            StillLive(Cursor(trace + more, device), Cursor(trace, device), Cursor(trace, device) + stale)
            <= AfterBatches(stale, PruningCalls(trace, more, device))
  {
    var first, stale := Cursor(trace, device), Backlog(trace, device, now);
    if stale > 0 {
      BacklogIsStale(trace, device, now);
      CursorAdvances(trace, now, more, device, first + stale);
    }
    CursorPast(Cursor(trace + more, device), first, stale, PruningCalls(trace, more, device));
  }
}
