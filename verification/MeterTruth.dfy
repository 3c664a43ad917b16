/** The readings ever accepted for a device, and what it means for the stored entries to agree with them. */
module MeterTruth {
  import opened Words
  import opened MeterLog

  /** Where the history stood, and the time, when an hour's bucket was last deleted. */
  datatype Reclaim = Reclaim(index: nat, time: nat)

  datatype Truth = Truth(history: seq<RawReading>, reclaimed: map<nat, Reclaim>)

  const NO_TRUTH: Truth := Truth([], map[])

  // ---------- True volumes ----------

  predicate InHours(r: RawReading, lo: nat, hi: nat) {
    lo <= HourOf(r.timestamp) <= hi
  }

  /** Sum of all readings of `hs` whose hour lies in [lo, hi]. */
  function Volume(hs: seq<RawReading>, lo: nat, hi: nat): nat {
    if hs == [] then 0
    else Volume(hs[..|hs| - 1], lo, hi) + (if InHours(hs[|hs| - 1], lo, hi) then hs[|hs| - 1].value else 0)
  }

  function Count(hs: seq<RawReading>, lo: nat, hi: nat): nat {
    if hs == [] then 0
    else Count(hs[..|hs| - 1], lo, hi) + (if InHours(hs[|hs| - 1], lo, hi) then 1 else 0)
  }

  lemma Appended(hs: seq<RawReading>, r: RawReading, lo: nat, hi: nat)
    ensures Volume(hs + [r], lo, hi) == Volume(hs, lo, hi) + (if InHours(r, lo, hi) then r.value else 0)
    ensures Count(hs + [r], lo, hi) == Count(hs, lo, hi) + (if InHours(r, lo, hi) then 1 else 0)
  {
    assert (hs + [r])[..|hs|] == hs;
  }

  lemma {:induction false} NothingCounted(hs: seq<RawReading>, lo: nat, hi: nat)
    requires forall i :: 0 <= i < |hs| ==> !InHours(hs[i], lo, hi)
    ensures Count(hs, lo, hi) == 0 && Volume(hs, lo, hi) == 0
  {
    if hs == [] {
    } else {
      NothingCounted(hs[..|hs| - 1], lo, hi);
    }
  }

  lemma {:induction false} UncountedIsAbsent(hs: seq<RawReading>, lo: nat, hi: nat)
    requires Count(hs, lo, hi) == 0
    ensures forall i :: 0 <= i < |hs| ==> !InHours(hs[i], lo, hi)
  {
    if hs == [] {
    } else {
      UncountedIsAbsent(hs[..|hs| - 1], lo, hi);
      forall i | 0 <= i < |hs| ensures !InHours(hs[i], lo, hi) {
        if i < |hs| - 1 { assert hs[i] == hs[..|hs| - 1][i]; }
      }
    }
  }

  /** Adjacent hour ranges add up. */
  lemma {:induction false} VolumeSplits(hs: seq<RawReading>, lo: nat, mid: nat, hi: nat)
    requires lo <= mid <= hi + 1
    ensures mid > 0 ==> Volume(hs, lo, mid - 1) + Volume(hs, mid, hi) == Volume(hs, lo, hi)
  {
    if hs == [] {
    } else {
      VolumeSplits(hs[..|hs| - 1], lo, mid, hi);
    }
  }

  lemma {:induction false} VolumeFromEmptyRange(hs: seq<RawReading>, lo: nat, hi: nat)
    requires lo > hi
    ensures Volume(hs, lo, hi) == 0
  {
    if hs == [] {
    } else {
      VolumeFromEmptyRange(hs[..|hs| - 1], lo, hi);
    }
  }

  /** Volumes over a prefix and the rest of the history add up. */
  lemma {:induction false} VolumeOfParts(hs: seq<RawReading>, k: nat, lo: nat, hi: nat)
    requires k <= |hs|
    ensures Volume(hs[..k], lo, hi) + Volume(hs[k..], lo, hi) == Volume(hs, lo, hi)
    decreases |hs|
  {
    if k == |hs| {
      assert hs[..k] == hs;
    } else {
      var init, last := hs[..|hs| - 1], hs[|hs| - 1];
      VolumeOfParts(init, k, lo, hi);
      assert init[..k] == hs[..k];
      assert hs[k..] == init[k..] + [last];
      Appended(init[k..], last, lo, hi);
    }
  }

  // ---------- Agreement ----------

  /** The bucket at `epoch` holds exactly the readings of `hs` in hours [lo, hi], and exists only if there are any. */
  ghost predicate Summarizes(buckets: map<nat, Bucket>, epoch: nat, hs: seq<RawReading>, lo: nat, hi: nat) {
    && (epoch in buckets <==> Count(hs, lo, hi) > 0)
    && (epoch in buckets ==> buckets[epoch].epoch == epoch && buckets[epoch].total == Volume(hs, lo, hi)
                             && buckets[epoch].count == Count(hs, lo, hi) % TWO32)
  }

  function Since(t: Truth, h: nat): nat {
    if h in t.reclaimed then t.reclaimed[h].index else 0
  }

  /** The readings submitted since hour h's bucket was last deleted. */
  function Recent(t: Truth, h: nat): seq<RawReading> {
    if Since(t, h) <= |t.history| then t.history[Since(t, h)..] else []
  }

  ghost predicate HourFaithful(log: DeviceLog, t: Truth, h: nat) {
    Summarizes(log.hourly, h, Recent(t, h), h, h)
  }

  ghost predicate DayFaithful(log: DeviceLog, t: Truth, d: nat) {
    Summarizes(log.daily, d, t.history, d * HOURS_PER_DAY, d * HOURS_PER_DAY + 23)
  }

  /** The live raw readings are exactly those numbered [cursor, next). */
  ghost predicate LiveRange(log: DeviceLog, hs: seq<RawReading>) {
    && log.pruneCursor <= log.nextSeq == |hs|
    && log.raw == map i: nat | log.pruneCursor <= i < |hs| :: hs[i]
  }

  /** Submission order is time order, and nothing lies in the future. */
  ghost predicate Chronological(hs: seq<RawReading>, clock: nat) {
    && (forall i, j :: 0 <= i <= j < |hs| ==> hs[i].timestamp <= hs[j].timestamp)
    && (forall i :: 0 <= i < |hs| ==> hs[i].timestamp <= clock)
  }

  ghost predicate ReclaimsFaithful(t: Truth, clock: nat) {
    forall h :: h in t.reclaimed ==>
      && t.reclaimed[h].index <= |t.history| && t.reclaimed[h].time <= clock
      && forall i :: t.reclaimed[h].index <= i < |t.history| ==> t.reclaimed[h].time <= t.history[i].timestamp
  }

  ghost predicate Faithful(log: DeviceLog, t: Truth, clock: nat) {
    && LiveRange(log, t.history)
    && Chronological(t.history, clock)
    && ReclaimsFaithful(t, clock)
    && (forall h :: HourFaithful(log, t, h))
    && (forall d :: DayFaithful(log, t, d))
  }

  lemma DayOfHour(ts: nat)
    ensures DayOf(ts) == HourOf(ts) / HOURS_PER_DAY
  {
  }

  // ---------- Folding a reading in ----------

  lemma FoldSummarizes(buckets: map<nat, Bucket>, epoch: nat, hs: seq<RawReading>, lo: nat, hi: nat, r: RawReading)
    requires Summarizes(buckets, epoch, hs, lo, hi) && InHours(r, lo, hi)
    requires Folded(buckets, epoch, r.value).Some?
    ensures Summarizes(Folded(buckets, epoch, r.value).value, epoch, hs + [r], lo, hi)
  {
    Appended(hs, r, lo, hi);
    if epoch !in buckets {
      UncountedIsAbsent(hs, lo, hi);
      NothingCounted(hs, lo, hi);
    }
  }

  lemma OthersSummarize(buckets: map<nat, Bucket>, folded: map<nat, Bucket>, epoch: nat, hs: seq<RawReading>,
                        lo: nat, hi: nat, r: RawReading)
    requires Summarizes(buckets, epoch, hs, lo, hi) && !InHours(r, lo, hi)
    requires epoch in folded <==> epoch in buckets
    requires epoch in folded ==> folded[epoch] == buckets[epoch]
    ensures Summarizes(folded, epoch, hs + [r], lo, hi)
  {
    Appended(hs, r, lo, hi);
  }

  function With(t: Truth, r: RawReading): Truth {
    t.(history := t.history + [r])
  }

  lemma StoredReading(log: DeviceLog, t: Truth, clock: nat, r: RawReading)
    requires Faithful(log, t, clock) && clock <= r.timestamp && |t.history| + 1 < TWO64
    ensures LiveRange(Stored(log, r), With(t, r).history)
    ensures Chronological(With(t, r).history, r.timestamp) && ReclaimsFaithful(With(t, r), r.timestamp)
  {
  }

  lemma HoursAfter(hourly: map<nat, Bucket>, t: Truth, r: RawReading, h: nat)
    requires Summarizes(hourly, h, Recent(t, h), h, h) && Since(t, h) <= |t.history|
    requires Folded(hourly, HourOf(r.timestamp), r.value).Some?
    ensures Summarizes(Folded(hourly, HourOf(r.timestamp), r.value).value, h, Recent(With(t, r), h), h, h)
  {
    assert Recent(With(t, r), h) == Recent(t, h) + [r];
    if h == HourOf(r.timestamp) {
      FoldSummarizes(hourly, h, Recent(t, h), h, h, r);
    } else {
      OthersSummarize(hourly, Folded(hourly, HourOf(r.timestamp), r.value).value, h, Recent(t, h), h, h, r);
    }
  }

  lemma DaysAfter(daily: map<nat, Bucket>, hs: seq<RawReading>, r: RawReading, d: nat)
    requires Summarizes(daily, d, hs, d * HOURS_PER_DAY, d * HOURS_PER_DAY + 23)
    requires Folded(daily, DayOf(r.timestamp), r.value).Some?
    ensures Summarizes(Folded(daily, DayOf(r.timestamp), r.value).value, d, hs + [r],
                       d * HOURS_PER_DAY, d * HOURS_PER_DAY + 23)
  {
    var lo := d * HOURS_PER_DAY;
    DayOfHour(r.timestamp);
    if d == DayOf(r.timestamp) {
      FoldSummarizes(daily, d, hs, lo, lo + 23, r);
    } else {
      OthersSummarize(daily, Folded(daily, DayOf(r.timestamp), r.value).value, d, hs, lo, lo + 23, r);
    }
  }

  lemma RolledUpFaithful(log: DeviceLog, t: Truth, clock: nat, r: RawReading)
    requires Faithful(log, t, clock) && clock <= r.timestamp && |t.history| + 1 < TWO64
    requires RolledUp(Stored(log, r), r.timestamp, r.value).Some?
    ensures Faithful(RolledUp(Stored(log, r), r.timestamp, r.value).value, With(t, r), r.timestamp)
  {
    var after, t' := RolledUp(Stored(log, r), r.timestamp, r.value).value, With(t, r);
    StoredReading(log, t, clock, r);
    forall h: nat ensures HourFaithful(after, t', h) {
      assert HourFaithful(log, t, h);
      HoursAfter(log.hourly, t, r, h);
    }
    forall d: nat ensures DayFaithful(after, t', d) {
      assert DayFaithful(log, t, d);
      DaysAfter(log.daily, t.history, r, d);
    }
  }

  // ---------- Pruning ----------

  /** How many of the readings numbered from `c` on are older than `cutoff`. */
  function StaleFrom(hs: seq<RawReading>, c: nat, cutoff: nat): (n: nat)
    ensures c <= |hs| ==> n <= |hs| - c
    decreases |hs| - c
  {
    if c >= |hs| then 0 else (if hs[c].timestamp < cutoff then 1 else 0) + StaleFrom(hs, c + 1, cutoff)
  }

  lemma {:induction false} NoneStale(hs: seq<RawReading>, c: nat, cutoff: nat)
    requires c <= |hs| && forall i :: c <= i < |hs| ==> hs[i].timestamp >= cutoff
    ensures StaleFrom(hs, c, cutoff) == 0
    decreases |hs| - c
  {
    if c == |hs| {
    } else {
      NoneStale(hs, c + 1, cutoff);
    }
  }

  /** In time order the stale readings come first. */
  lemma {:induction false} StaleComeFirst(hs: seq<RawReading>, c: nat, cutoff: nat, clock: nat)
    requires c <= |hs| && Chronological(hs, clock)
    ensures var n := StaleFrom(hs, c, cutoff);
            && (forall i :: c <= i < c + n ==> hs[i].timestamp < cutoff)
            && (forall i :: c + n <= i < |hs| ==> hs[i].timestamp >= cutoff)
    decreases |hs| - c
  {
    if c == |hs| {
    } else {
      StaleComeFirst(hs, c + 1, cutoff, clock);
      if hs[c].timestamp >= cutoff {
        NoneStale(hs, c + 1, cutoff);
      }
    }
  }

  function Least(a: nat, b: nat): nat { if a <= b then a else b }

  /** On the live range the loop deletes exactly the first min(budget, stale) readings: the branch
      for an already-deleted entry is never taken. */
  lemma {:induction false} PruneFromExactly(raw: map<nat, RawReading>, hs: seq<RawReading>, c: nat, cutoff: nat,
                                            budget: nat, clock: nat)
    requires c <= |hs| && Chronological(hs, clock)
    requires raw == map i: nat | c <= i < |hs| :: hs[i]
    ensures var n := Least(budget, StaleFrom(hs, c, cutoff));
            c + n <= |hs|
            && PruneFrom(raw, c, |hs|, cutoff, budget) == (map i: nat | c + n <= i < |hs| :: hs[i], c + n, n)
    decreases |hs| - c
  {
    if c == |hs| || budget == 0 {
    } else if hs[c].timestamp < cutoff {
      assert raw - {c} == map i: nat | c + 1 <= i < |hs| :: hs[i];
      PruneFromExactly(raw - {c}, hs, c + 1, cutoff, budget - 1, clock);
    } else {
      NoneStale(hs, c, cutoff);
    }
  }

  /** What a prune does to a faithful log: exactly the oldest min(10, stale) readings go, all of them
      more than seven days old, and everything else stays. */
  lemma PrunedExactly(log: DeviceLog, t: Truth, clock: nat, now: nat)
    requires Faithful(log, t, clock) && clock <= now
    ensures var n := Least(PRUNE_BATCH_SIZE, StaleFrom(t.history, log.pruneCursor, Cutoff(now)));
            var (after, count) := Pruned(log, now);
            && count == n && after.pruneCursor == log.pruneCursor + n
            && LiveRange(after, t.history)
            && after == log.(raw := after.raw, pruneCursor := after.pruneCursor)
            && (forall i :: log.pruneCursor <= i < after.pruneCursor ==>
                  TooOld(t.history[i].timestamp, now))
    ensures Faithful(Pruned(log, now).0, t, now)
  {
    PruneFromExactly(log.raw, t.history, log.pruneCursor, Cutoff(now), PRUNE_BATCH_SIZE, clock);
    StaleComeFirst(t.history, log.pruneCursor, Cutoff(now), clock);
    var after := Pruned(log, now).0;
    forall h ensures HourFaithful(after, t, h) { assert HourFaithful(log, t, h); }
    forall d: nat ensures DayFaithful(after, t, d) { assert DayFaithful(log, t, d); }
  }

  // ---------- Day consolidation ----------

  /** Deleting the hours `hours` at time `now`: from here on only later readings are in their buckets. */
  function Reclaiming(t: Truth, hours: set<nat>, now: nat): Truth {
    t.(reclaimed := t.reclaimed + map h | h in hours :: Reclaim(|t.history|, now))
  }

  lemma ReclaimedFaithful(log: DeviceLog, t: Truth, clock: nat, hours: set<nat>, now: nat)
    requires Faithful(log, t, clock) && clock <= now
    ensures Faithful(log.(hourly := log.hourly - hours), Reclaiming(t, hours, now), now)
  {
    var after, t' := log.(hourly := log.hourly - hours), Reclaiming(t, hours, now);
    forall h ensures HourFaithful(after, t', h) {
      assert HourFaithful(log, t, h);
      if h in hours {
        assert Recent(t', h) == [];
      } else {
        assert Recent(t', h) == Recent(t, h);
      }
    }
    forall d: nat ensures DayFaithful(after, t', d) { assert DayFaithful(log, t, d); }
  }
}
