/** What `get_aggregated_volume` returns, measured against every reading ever accepted. */
module MeterQuery {
  import opened MeterLog
  import opened MeterTruth

  function DayStart(h: nat): nat { h / HOURS_PER_DAY * HOURS_PER_DAY }

  /** The whole day of hour `h` lies inside the window. */
  predicate DayInside(h: nat, fromHour: nat, toHour: nat) {
    fromHour <= DayStart(h) && DayStart(h) + 23 <= toHour
  }

  lemma {:induction false} LiveVolumeIs(log: DeviceLog, hs: seq<RawReading>, next: nat, h: nat)
    requires LiveRange(log, hs) && log.pruneCursor <= next <= |hs|
    ensures LiveVolume(log.raw, log.pruneCursor, next, h) == Volume(hs[log.pruneCursor..next], h, h)
    decreases next
  {
    if next == log.pruneCursor {
    } else {
      LiveVolumeIs(log, hs, next - 1, h);
      assert hs[log.pruneCursor..next][..next - 1 - log.pruneCursor] == hs[log.pruneCursor..next - 1];
    }
  }

  /** Where the answer for hour `h` starts reading the history: after the last deletion of its bucket,
      or, with no bucket left, at the oldest live reading. */
  function AnsweredFrom(log: DeviceLog, t: Truth, h: nat): nat {
    if h in log.hourly then Since(t, h) else log.pruneCursor
  }

  /** The part of hour `h` the hour and raw tiers no longer see. */
  function Lost(log: DeviceLog, t: Truth, h: nat): nat {
    if AnsweredFrom(log, t, h) <= |t.history| then Volume(t.history[..AnsweredFrom(log, t, h)], h, h) else 0
  }

  /** In a faithful log every hour's answer and its loss add up to the truth. */
  lemma HourTierAccounted(log: DeviceLog, t: Truth, clock: nat, h: nat)
    requires Faithful(log, t, clock)
    ensures HourTier(log, h) + Lost(log, t, h) == Volume(t.history, h, h)
  {
    assert HourFaithful(log, t, h);
    var k := AnsweredFrom(log, t, h);
    if h !in log.hourly {
      LiveVolumeIs(log, t.history, |t.history|, h);
      assert t.history[log.pruneCursor..|t.history|] == t.history[log.pruneCursor..];
    }
    VolumeOfParts(t.history, k, h, h);
  }

  /** A day without a daily bucket has no readings at all. */
  lemma EmptyDay(log: DeviceLog, t: Truth, clock: nat, d: nat, h: nat)
    requires Faithful(log, t, clock) && d !in log.daily && h / HOURS_PER_DAY == d
    ensures Volume(t.history, h, h) == 0
  {
    assert DayFaithful(log, t, d);
    UncountedIsAbsent(t.history, d * HOURS_PER_DAY, d * HOURS_PER_DAY + 23);
    NothingCounted(t.history, h, h);
  }

  /** Losses over hours h, ..., toHour of a window from `fromHour`: only in days it covers in part. */
  function LostInPartialDays(log: DeviceLog, t: Truth, h: nat, fromHour: nat, toHour: nat): nat
    decreases toHour + 1 - h
  {
    if h > toHour then 0
    else (if DayInside(h, fromHour, toHour) then 0 else Lost(log, t, h))
         + LostInPartialDays(log, t, h + 1, fromHour, toHour)
  }

  lemma {:induction false} NothingLostInside(log: DeviceLog, t: Truth, h: nat, n: nat, fromHour: nat, toHour: nat)
    requires h + n <= toHour + 1 && forall x :: h <= x < h + n ==> DayInside(x, fromHour, toHour)
    ensures LostInPartialDays(log, t, h, fromHour, toHour) == LostInPartialDays(log, t, h + n, fromHour, toHour)
    decreases n
  {
    if n == 0 {
    } else {
      NothingLostInside(log, t, h + 1, n - 1, fromHour, toHour);
    }
  }

  lemma FirstHourVolume(hs: seq<RawReading>, h: nat, toHour: nat)
    requires h <= toHour
    ensures Volume(hs, h, toHour) == Volume(hs, h, h) + Volume(hs, h + 1, toHour)
  {
    VolumeSplits(hs, h, h + 1, toHour);
  }

  /** Either the walk stands at a day start, or the day it is in is not wholly inside, or it is empty. */
  ghost predicate WalkPosition(log: DeviceLog, h: nat, fromHour: nat, toHour: nat) {
    h == DayStart(h) || !DayInside(h, fromHour, toHour) || h / HOURS_PER_DAY !in log.daily
  }

  lemma NextPosition(log: DeviceLog, h: nat, fromHour: nat, toHour: nat)
    requires fromHour <= h <= toHour && WalkPosition(log, h, fromHour, toHour)
    requires !DayTierApplies(log, h, toHour)
    ensures WalkPosition(log, h + 1, fromHour, toHour)
    ensures DayInside(h, fromHour, toHour) ==> h / HOURS_PER_DAY !in log.daily
  {
  }

  /** A day answered by its daily bucket is answered exactly, and counts no losses. */
  lemma DayTierAccounted(log: DeviceLog, t: Truth, clock: nat, h: nat, fromHour: nat, toHour: nat)
    requires Faithful(log, t, clock) && fromHour <= h && DayTierApplies(log, h, toHour)
    ensures log.daily[h / HOURS_PER_DAY].total == Volume(t.history, h, h + HOURS_PER_DAY - 1)
    ensures LostInPartialDays(log, t, h, fromHour, toHour)
         == LostInPartialDays(log, t, h + HOURS_PER_DAY, fromHour, toHour)
    ensures WalkPosition(log, h + HOURS_PER_DAY, fromHour, toHour)
  {
    assert DayFaithful(log, t, h / HOURS_PER_DAY);
    NothingLostInside(log, t, h, HOURS_PER_DAY, fromHour, toHour);
  }

  /** An hour answered by itself is answered with its loss, or belongs to a day without readings. */
  lemma HourStepAccounted(log: DeviceLog, t: Truth, clock: nat, h: nat, fromHour: nat, toHour: nat)
    requires Faithful(log, t, clock) && fromHour <= h <= toHour
    requires WalkPosition(log, h, fromHour, toHour) && !DayTierApplies(log, h, toHour)
    ensures HourTier(log, h) + (if DayInside(h, fromHour, toHour) then 0 else Lost(log, t, h))
         == Volume(t.history, h, h)
    ensures WalkPosition(log, h + 1, fromHour, toHour)
  {
    NextPosition(log, h, fromHour, toHour);
    HourTierAccounted(log, t, clock, h);
    if DayInside(h, fromHour, toHour) {
      EmptyDay(log, t, clock, h / HOURS_PER_DAY, h);
    }
  }

  /** The whole query in one equation: what is returned plus what was lost in partially covered
      days is the true volume. */
  lemma {:induction false} TieredAccounted(log: DeviceLog, t: Truth, clock: nat, h: nat, fromHour: nat, toHour: nat)
    requires Faithful(log, t, clock) && fromHour <= h && WalkPosition(log, h, fromHour, toHour)
    ensures Tiered(log, h, toHour) + LostInPartialDays(log, t, h, fromHour, toHour) == Volume(t.history, h, toHour)
    decreases toHour + 1 - h
  {
    if h > toHour {
      VolumeFromEmptyRange(t.history, h, toHour);
    } else if DayTierApplies(log, h, toHour) {
      DayTierAccounted(log, t, clock, h, fromHour, toHour);
      TieredAccounted(log, t, clock, h + HOURS_PER_DAY, fromHour, toHour);
      VolumeSplits(t.history, h, h + HOURS_PER_DAY, toHour);
    } else {
      HourStepAccounted(log, t, clock, h, fromHour, toHour);
      TieredAccounted(log, t, clock, h + 1, fromHour, toHour);
      FirstHourVolume(t.history, h, toHour);
    }
  }

  lemma {:induction false} LossesVanish(log: DeviceLog, t: Truth, h: nat, fromHour: nat, toHour: nat)
    ensures LostInPartialDays(log, t, h, fromHour, toHour) == 0
            <==> forall x :: h <= x <= toHour && !DayInside(x, fromHour, toHour) ==> Lost(log, t, x) == 0
    decreases toHour + 1 - h
  {
    if h > toHour {
    } else {
      LossesVanish(log, t, h + 1, fromHour, toHour);
    }
  }

  /** A wider window covers more days wholly, so it loses no more. */
  lemma {:induction false} WiderLosesLess(log: DeviceLog, t: Truth, h: nat, wide: nat, narrow: nat, toHour: nat)
    requires wide <= narrow
    ensures LostInPartialDays(log, t, h, wide, toHour) <= LostInPartialDays(log, t, h, narrow, toHour)
    decreases toHour + 1 - h
  {
    if h > toHour {
    } else {
      WiderLosesLess(log, t, h + 1, wide, narrow, toHour);
    }
  }

  /** Cutting a window at `mid` loses at least as much in the parts as in the whole. */
  lemma {:induction false} PartsLoseMore(log: DeviceLog, t: Truth, h: nat, fromHour: nat, mid: nat, toHour: nat)
    requires fromHour <= h <= mid <= toHour && 0 < mid
    ensures LostInPartialDays(log, t, h, fromHour, toHour)
            <= LostInPartialDays(log, t, h, fromHour, mid - 1) + LostInPartialDays(log, t, mid, mid, toHour)
    decreases mid - h
  {
    if h == mid {
      WiderLosesLess(log, t, h, fromHour, mid, toHour);
    } else {
      PartsLoseMore(log, t, h + 1, fromHour, mid, toHour);
    }
  }

  /** Hour `h` has its full history behind its answer: its bucket was never deleted, or the last
      deletion came after the hour ended and every reading of the hour is still live. */
  ghost predicate Intact(log: DeviceLog, t: Truth, h: nat) {
    h in t.reclaimed ==>
      && t.reclaimed[h].time >= (h + 1) * ROLLUP_INTERVAL_SECS
      && forall i :: 0 <= i < log.pruneCursor && i < |t.history| ==> HourOf(t.history[i].timestamp) != h
  }

  lemma IntactLosesNothing(log: DeviceLog, t: Truth, clock: nat, h: nat)
    requires Faithful(log, t, clock) && Intact(log, t, h)
    ensures Lost(log, t, h) == 0
  {
    assert HourFaithful(log, t, h);
    if h !in t.reclaimed {
      if h !in log.hourly {
        assert Recent(t, h) == t.history;
        UncountedIsAbsent(t.history, h, h);
        NothingCounted(t.history[..log.pruneCursor], h, h);
      }
    } else {
      NothingCounted(Recent(t, h), h, h);
      NothingCounted(t.history[..log.pruneCursor], h, h);
    }
  }
}
