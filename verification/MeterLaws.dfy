/** What callers of the aggregator see in reachable states: what a query answers, what a call removes,
    and when a call fails. */
module MeterLaws {
  import opened Words
  import opened MeterLog
  import opened MeterTruth
  import opened MeterQuery
  import opened MeterRuns

  /** Hour and day epochs in seconds. */
  lemma EpochsExactly(ts: nat, n: nat)
    ensures HourOf(ts) == n <==> 3600 * n <= ts < 3600 * n + 3600
    ensures DayOf(ts) == n <==> 86400 * n <= ts < 86400 * n + 86400
  {
  }

  // ---------- Queries ----------

  /** What `get_aggregated_volume` answers after the run. */
  function Answer(trace: seq<Event>, device: Address, fromTs: nat, toTs: nat): Result<volume, Error> {
    Aggregated(LogOf(Run(trace), device), fromTs, toTs)
  }

  /** The volume ever accepted in the hours the window touches. */
  function VolumeIn(trace: seq<Event>, device: Address, fromTs: nat, toTs: nat): nat {
    TrueVolume(trace, device, HourOf(fromTs), HourOf(toTs))
  }

  /** What of it is lost in days the window covers in part. */
  function LostIn(trace: seq<Event>, device: Address, fromTs: nat, toTs: nat): nat {
    LostInPartialDays(LogOf(Run(trace), device), TruthOf(trace, device), HourOf(fromTs), HourOf(fromTs), HourOf(toTs))
  }

  function OrOverflow(total: nat): Result<volume, Error> {
    if total > I128_MAX then Err(Overflow) else Ok(total)
  }

  /** Every query: refused on an inverted range alone, otherwise the volume of the hours from that of
      `fromTs` to that of `toTs` less the losses, or the overflow trap when that leaves i128. */
  lemma QueryExactly(trace: seq<Event>, device: Address, fromTs: nat, toTs: nat)
    requires Admissible(trace)
    ensures Answer(trace, device, fromTs, toTs) == Err(InvalidTimeRange) <==> fromTs > toTs
    ensures LostIn(trace, device, fromTs, toTs) <= VolumeIn(trace, device, fromTs, toTs)
    ensures fromTs <= toTs ==>
              Answer(trace, device, fromTs, toTs)
              == OrOverflow(VolumeIn(trace, device, fromTs, toTs) - LostIn(trace, device, fromTs, toTs))
  {
    WindowsNeverOverstate(trace, device, HourOf(fromTs), HourOf(toTs));
  }

  /** A query never answers more than was accepted, and exactly that if and only if no hour of a day
      it covers in part lost anything. */
  lemma QueryNeverOverstates(trace: seq<Event>, device: Address, fromTs: nat, toTs: nat)
    requires Admissible(trace) && Answer(trace, device, fromTs, toTs).Ok?
    ensures var answer, from, to := Answer(trace, device, fromTs, toTs).value, HourOf(fromTs), HourOf(toTs);
            && answer <= VolumeIn(trace, device, fromTs, toTs)
            && (answer == VolumeIn(trace, device, fromTs, toTs) <==>
                  forall h :: from <= h <= to && !DayInside(h, from, to) ==>
                    Lost(LogOf(Run(trace), device), TruthOf(trace, device), h) == 0)
  {
    QueryExactly(trace, device, fromTs, toTs);
    LossesVanish(LogOf(Run(trace), device), TruthOf(trace, device), HourOf(fromTs), HourOf(fromTs), HourOf(toTs));
  }

  lemma IntactQueriesAreExact(trace: seq<Event>, device: Address, fromTs: nat, toTs: nat)
    requires Admissible(trace) && fromTs <= toTs
    requires PartialDaysIntact(trace, device, HourOf(fromTs), HourOf(toTs))
    ensures Answer(trace, device, fromTs, toTs) == OrOverflow(VolumeIn(trace, device, fromTs, toTs))
  {
    IntactWindowsAreExact(trace, device, HourOf(fromTs), HourOf(toTs));
  }

  /** [from, mid] and [next, to] meet at an hour boundary. */
  predicate Adjacent(from: nat, mid: nat, next: nat, to: nat) {
    from <= mid && HourOf(mid) + 1 == HourOf(next) && next <= to
  }

  lemma AdjacentInOrder(from: nat, mid: nat, next: nat, to: nat)
    requires Adjacent(from, mid, next, to)
    ensures HourOf(from) < HourOf(next) <= HourOf(to) && from <= to
  {
  }

  /** If the union of two adjacent windows is answered so are the two, together never with more; what
      they miss is exactly what they lose beyond the union. */
  lemma AdjacentQueriesAccounted(trace: seq<Event>, device: Address, from: nat, mid: nat, next: nat, to: nat)
    requires Admissible(trace) && Adjacent(from, mid, next, to) && Answer(trace, device, from, to).Ok?
    ensures Answer(trace, device, from, mid).Ok? && Answer(trace, device, next, to).Ok?
    ensures var parts := Answer(trace, device, from, mid).value + Answer(trace, device, next, to).value;
            var whole := Answer(trace, device, from, to).value;
            && parts <= whole <= VolumeIn(trace, device, from, to)
            && parts + LostIn(trace, device, from, mid) + LostIn(trace, device, next, to)
               == whole + LostIn(trace, device, from, to)
  {
    AdjacentInOrder(from, mid, next, to);
    AdjacentWindowsAccounted(trace, device, HourOf(from), HourOf(next), HourOf(to));
  }

  /** Where both parts are answered exactly, so is the union, by their sum. */
  lemma AdjacentQueriesAdd(trace: seq<Event>, device: Address, from: nat, mid: nat, next: nat, to: nat)
    requires Admissible(trace) && Adjacent(from, mid, next, to)
    requires Answer(trace, device, from, mid) == Ok(VolumeIn(trace, device, from, mid))
    requires Answer(trace, device, next, to) == Ok(VolumeIn(trace, device, next, to))
    ensures VolumeIn(trace, device, from, mid) + VolumeIn(trace, device, next, to) == VolumeIn(trace, device, from, to)
    ensures Answer(trace, device, from, to) == OrOverflow(VolumeIn(trace, device, from, to))
  {
    AdjacentInOrder(from, mid, next, to);
    AdjacentWindowsAdd(trace, device, HourOf(from), HourOf(next), HourOf(to));
  }

  // ---------- What calls remove ----------

  /** How far one more event moves the cursor of `device`: over the oldest stale readings, at most ten,
      and only in a successful submission or prune of that device. */
  function PassedBy(trace: seq<Event>, e: Event, device: Address): nat {
    if Prunes(Run(trace), e, device)
    then Least(10, StaleFrom(TruthOf(trace + [e], device).history, Cursor(trace, device), Cutoff(e.now)))
    else 0
  }

  lemma AdmissiblePrefix(trace: seq<Event>, e: Event)
    requires Admissible(trace + [e])
    ensures Admissible(trace) && Clock(trace) <= e.now == Clock(trace + [e])
  {
    assert forall i :: 0 <= i < |trace| ==> trace[i] == (trace + [e])[i];
    assert (trace + [e])[|trace|] == e;
  }

  lemma CursorMovesExactly(trace: seq<Event>, e: Event, device: Address)
    requires Admissible(trace + [e])
    ensures Cursor(trace + [e], device) == Cursor(trace, device) + PassedBy(trace, e, device)
    ensures TruthOf(trace, device).history <= TruthOf(trace + [e], device).history
  {
    var log, t := LogOf(Run(trace), device), TruthOf(trace, device);
    AdmissiblePrefix(trace, e);
    OneMore(trace, e, device);
    RunsAreFaithful(trace, device);
    HistoryBound(trace, device);
    if Prunes(Run(trace), e, device) {
      match e.call
      case SubmitReading(_, source, value) =>
        var r := RawReading(e.now, value, source);
        RolledUpFaithful(log, t, Clock(trace), r);
        PrunedExactly(RolledUp(Stored(log, r), e.now, value).value, With(t, r), e.now, e.now);
      case Prune(_) =>
        PrunedExactly(log, t, Clock(trace), e.now);
    }
  }

  lemma {:induction false} RangeSize(s: set<nat>, c: nat, n: nat)
    requires forall i :: i in s ==> c <= i < c + n
    ensures |s| <= n
    decreases n
  {
    if n == 0 {
      assert s == {};
    } else {
      RangeSize(s - {c + n - 1}, c, n - 1);
    }
  }

  /** The entries of `raw` are the readings of `hs` from number `c` on. */
  ghost predicate HoldsFrom(raw: map<nat, RawReading>, c: nat, hs: seq<RawReading>) {
    && (forall i: nat :: i in raw <==> c <= i < |hs|)
    && (forall i: nat :: i in raw ==> raw[i] == hs[i])
  }

  lemma LiveRangeHolds(log: DeviceLog, hs: seq<RawReading>)
    requires LiveRange(log, hs)
    ensures HoldsFrom(log.raw, log.pruneCursor, hs)
  {
  }

  /** Two live ranges of a growing history differ by what the cursor passed and what was added. */
  lemma HeldRangesDiffer(raw: map<nat, RawReading>, c: nat, hs: seq<RawReading>,
                         raw': map<nat, RawReading>, n: nat, grown: seq<RawReading>)
    requires HoldsFrom(raw, c, hs) && HoldsFrom(raw', c + n, grown) && hs <= grown
    ensures forall i :: i in raw && i !in raw' ==> c <= i < c + n && raw[i] == grown[i]
    ensures forall i :: i in raw && i in raw' ==> raw'[i] == raw[i]
    ensures |raw.Keys - raw'.Keys| <= n
  {
    RangeSize(raw.Keys - raw'.Keys, c, n);
  }

  /** In every reachable state a call removes at most ten raw readings of a device, each more than
      604,800 seconds old by then, and only a successful submission or prune of it removes any;
      the others stay as they are. */
  lemma CallsRemoveOnlyStale(trace: seq<Event>, e: Event, device: Address)
    requires Admissible(trace + [e])
    ensures var before, after := LogOf(Run(trace), device).raw, LogOf(Run(trace + [e]), device).raw;
            && |before.Keys - after.Keys| <= 10
            && (forall i :: i in before && i !in after ==> e.now - before[i].timestamp > 604_800)
            && (forall i :: i in before && i in after ==> after[i] == before[i])
            && (!Prunes(Run(trace), e, device) ==> before.Keys <= after.Keys)
  {
    AdmissiblePrefix(trace, e);
    RunsAreFaithful(trace, device);
    RunsAreFaithful(trace + [e], device);
    CursorMovesExactly(trace, e, device);
    LiveRangeHolds(LogOf(Run(trace), device), TruthOf(trace, device).history);
    LiveRangeHolds(LogOf(Run(trace + [e]), device), TruthOf(trace + [e], device).history);
    HeldRangesDiffer(LogOf(Run(trace), device).raw, Cursor(trace, device), TruthOf(trace, device).history,
                     LogOf(Run(trace + [e]), device).raw, PassedBy(trace, e, device),
                     TruthOf(trace + [e], device).history);
    StaleComeFirst(TruthOf(trace + [e], device).history, Cursor(trace, device), Cutoff(e.now), e.now);
  }

  /** Every reading the cursor has passed is over the retention age at time `now`. */
  ghost predicate PassedStale(hs: seq<RawReading>, cursor: nat, now: nat) {
    cursor <= |hs| && forall i :: 0 <= i < cursor ==> TooOld(hs[i].timestamp, now)
  }

  lemma PassedStaleStep(hs: seq<RawReading>, grown: seq<RawReading>, c: nat, n: nat, clock: nat, now: nat)
    requires PassedStale(hs, c, clock) && clock <= now && hs <= grown && Chronological(grown, now)
    requires n == 0 || n <= StaleFrom(grown, c, Cutoff(now))
    ensures PassedStale(grown, c + n, now)
  {
    StaleComeFirst(grown, c, Cutoff(now), now);
  }

  lemma {:induction false} PassedAreStale(trace: seq<Event>, device: Address)
    requires Admissible(trace)
    ensures PassedStale(TruthOf(trace, device).history, Cursor(trace, device), Clock(trace))
  {
    if trace == [] {
    } else {
      var before, e := trace[..|trace| - 1], trace[|trace| - 1];
      assert trace == before + [e];
      AdmissiblePrefix(before, e);
      PassedAreStale(before, device);
      CursorMovesExactly(before, e, device);
      RunsAreFaithful(trace, device);
      PassedStaleStep(TruthOf(before, device).history, TruthOf(trace, device).history, Cursor(before, device),
                      PassedBy(before, e, device), Clock(before), e.now);
    }
  }

  /** Every accepted reading of the last 604,800 seconds is stored, under its sequence number, as it
      was submitted. */
  lemma RecentReadingsAreStored(trace: seq<Event>, device: Address, i: nat)
    requires Admissible(trace) && i < |TruthOf(trace, device).history|
    requires Clock(trace) - TruthOf(trace, device).history[i].timestamp <= 604_800
    ensures i in LogOf(Run(trace), device).raw
    ensures LogOf(Run(trace), device).raw[i] == TruthOf(trace, device).history[i]
  {
    PassedAreStale(trace, device);
    RunsAreFaithful(trace, device);
  }

  /** `rollup_day` deletes hourly buckets of one device and touches nothing else; below the u64 limit
      they are those of its day. */
  lemma RollupTouchesHoursOnly(w: World, now: nat, device: Address, day: u64)
    requires w.admin.Some?
    ensures var r := Execute(w, now, RollupDay(device, day));
            r.Ok? && r.value.admin == w.admin
            && (forall other :: other != device ==> LogOf(r.value, other) == LogOf(w, other))
            && var before, after := LogOf(w, device), LogOf(r.value, device);
            && (after.raw, after.pruneCursor, after.nextSeq, after.daily)
               == (before.raw, before.pruneCursor, before.nextSeq, before.daily)
            && (forall h :: h in after.hourly ==> h in before.hourly && after.hourly[h] == before.hourly[h])
            && (day * 24 + 23 < TWO64 ==> forall h :: h in after.hourly <==> h in before.hourly && h / 24 != day)
  {
    ReclaimsOwnDayExactly(day);
  }

  // ---------- When calls fail ----------

  /** The administrator a run names first. */
  function FirstAdmin(trace: seq<Event>): Option<Address> {
    if trace == [] then None
    else
      var earlier := FirstAdmin(trace[..|trace| - 1]);
      if earlier.None? && trace[|trace| - 1].call.Initialize? then Some(trace[|trace| - 1].call.admin) else earlier
  }

  lemma {:induction false} AdminIsFirst(trace: seq<Event>)
    ensures Run(trace).admin == FirstAdmin(trace)
  {
    if trace == [] {
    } else {
      AdminIsFirst(trace[..|trace| - 1]);
    }
  }

  /** Success or the reason of the failure, for every call after every run. */
  lemma CallsFailExactly(trace: seq<Event>, now: nat, call: Call)
    requires Admissible(trace)
    ensures var r, ready := Execute(Run(trace), now, call), FirstAdmin(trace).Some?;
            match call
            case Initialize(_) => if ready then r == Err(AlreadyInitialized) else r.Ok?
            case SubmitReading(device, _, value) =>
              if !ready then r == Err(NotInitialized)
              else if value < 0 then r == Err(NegativeValue)
              else if VolumeIn(trace, device, DayOf(now) * 86400, DayOf(now) * 86400 + 86399) + value > I128_MAX
              then r == Err(Overflow)
              else r.Ok?
            case Prune(_) => r.Ok?
            case RollupDay(_, _) => if ready then r.Ok? else r == Err(NotInitialized)
  {
    AdminIsFirst(trace);
    if call.SubmitReading? {
      var midnight := DayOf(now) * 86400;
      EpochsExactly(midnight, DayOf(now) * 24);
      EpochsExactly(midnight + 86399, DayOf(now) * 24 + 23);
      SubmissionAcceptedExactly(trace, now, call.device, call.source, call.value);
    }
  }

  /** Sequence numbers count: the next one is the number of readings accepted so far. */
  lemma SequenceNumbersCount(trace: seq<Event>, device: Address)
    requires Admissible(trace)
    ensures LogOf(Run(trace), device).nextSeq == |TruthOf(trace, device).history|
  {
    RunsAreFaithful(trace, device);
  }
}
