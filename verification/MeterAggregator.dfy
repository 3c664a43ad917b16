/** The aggregator contract: its entry points with their loops, each tied to the step it takes.
    A call works on the device's entries, which the host commits when it returns and discards when
    it traps. */
module MeterAggregator {
  import opened Words
  import opened MeterLog
  import opened MeterRuns

  class Aggregator {
    var admin: Option<Address>
    var logs: map<Address, DeviceLog>

    function Contents(): World
      reads this
    {
      World(admin, logs)
    }

    constructor ()
      ensures Contents() == EMPTY_WORLD
    {
      admin, logs := None, map[];
    }

    method Initialize(newAdmin: Address) returns (r: Result<(), Error>)
      modifies this
      ensures match Execute(old(Contents()), 0, Call.Initialize(newAdmin))
              case Ok(w) => r == Ok(()) && Contents() == w
              case Err(e) => r == Err(e) && Contents() == old(Contents())
    {
      if admin.Some? {
        return Err(AlreadyInitialized);
      }
      admin := Some(newAdmin);
      return Ok(());
    }

    /** Returns the sequence number given to the reading. */
    method SubmitReading(now: nat, device: Address, source: Address, value: i128) returns (r: Result<nat, Error>)
      modifies this
      ensures match AfterSubmit(old(Contents()), now, device, source, value)
              case Ok(w) => r == Ok(LogOf(old(Contents()), device).nextSeq) && Contents() == w
              case Err(e) => r == Err(e) && Contents() == old(Contents())
    {
      if admin.None? {
        return Err(NotInitialized);
      }
      if value < 0 {
        return Err(NegativeValue);
      }
      var log := LogOf(Contents(), device);
      var seqNo := log.nextSeq;
      log := log.(raw := log.raw[seqNo := RawReading(now, value, source)]);
      log := log.(nextSeq := (seqNo + 1) % TWO64);
      var rolled := RollupRawToHourly(log, now, value);
      if rolled.None? {
        return Err(Overflow);
      }
      var pruned;
      log, pruned := PruneStaleReadings(rolled.value, now);
      logs := logs[device := log];
      return Ok(seqNo);
    }

    /** Returns the number of readings pruned. */
    method Prune(now: nat, device: Address) returns (count: nat)
      modifies this
      ensures Contents() == Updated(old(Contents()), device, Pruned(LogOf(old(Contents()), device), now).0)
      ensures count == Pruned(LogOf(old(Contents()), device), now).1 <= PRUNE_BATCH_SIZE
    {
      var log;
      log, count := PruneStaleReadings(LogOf(Contents(), device), now);
      logs := logs[device := log];
    }

    /** Deletes the day's hourly buckets and returns the day's total. */
    method RollupDay(device: Address, day: u64) returns (r: Result<volume, Error>)
      modifies this
      ensures match AfterRollup(old(Contents()), device, day)
              case Ok(w) => r == Ok(DayTotal(LogOf(old(Contents()), device), day)) && Contents() == w
              case Err(e) => r == Err(e) && Contents() == old(Contents())
    {
      if admin.None? {
        return Err(NotInitialized);
      }
      var log := LogOf(Contents(), device);
      var hourly: map<nat, Bucket> := log.hourly;
      var i: nat := 0;
      while i < HOURS_PER_DAY
        invariant i <= HOURS_PER_DAY
        invariant Contents() == old(Contents())
        invariant hourly == log.hourly - ReclaimedHours(day, i)
      {
        ReclaimedOneMore(day, i);
        hourly := hourly - {ReclaimedHour(day, i)};
        i := i + 1;
      }
      logs := logs[device := log.(hourly := hourly)];
      return Ok(DayTotal(log, day));
    }

    method GetAggregatedVolume(device: Address, fromTs: u64, toTs: u64) returns (r: Result<volume, Error>)
      ensures r == Aggregated(LogOf(Contents(), device), fromTs, toTs)
    {
      r := AggregateVolume(LogOf(Contents(), device), fromTs, toTs);
    }
  }

  lemma ReclaimedOneMore(day: u64, i: nat)
    ensures ReclaimedHours(day, i + 1) == ReclaimedHours(day, i) + {ReclaimedHour(day, i)}
  {
    assert ReclaimedHour(day, i) in ReclaimedHours(day, i + 1);
    forall x | x in ReclaimedHours(day, i) ensures x in ReclaimedHours(day, i + 1) {
      var j :| 0 <= j < i && x == ReclaimedHour(day, j);
      assert 0 <= j < i + 1;
    }
  }

  /** Hourly fold, then daily fold; either may overflow and trap. */
  method RollupRawToHourly(log: DeviceLog, ts: nat, value: volume) returns (r: Option<DeviceLog>)
    ensures r == RolledUp(log, ts, value)
  {
    var hour := HourOf(ts);
    var hb := if hour in log.hourly then log.hourly[hour] else Bucket(hour, 0, 0);
    if hb.total + value > I128_MAX {
      return None;
    }
    hb := hb.(total := hb.total + value);
    hb := hb.(count := (hb.count + 1) % TWO32);
    var after := log.(hourly := log.hourly[hour := hb]);

    var day := DayOf(ts);
    var db := if day in log.daily then log.daily[day] else Bucket(day, 0, 0);
    if db.total + value > I128_MAX {
      return None;
    }
    db := db.(total := db.total + value);
    db := db.(count := (db.count + 1) % TWO32);
    return Some(after.(daily := after.daily[day := db]));
  }

  /** The watermark loop. An entry already gone is skipped without counting against the batch. */
  method PruneStaleReadings(log: DeviceLog, now: nat) returns (after: DeviceLog, pruned: nat)
    ensures (after, pruned) == Pruned(log, now)
    ensures pruned <= PRUNE_BATCH_SIZE
  {
    var cutoff := Cutoff(now);
    var raw: map<nat, RawReading>, cursor: nat := log.raw, log.pruneCursor;
    pruned := 0;
    while cursor < log.nextSeq && pruned < PRUNE_BATCH_SIZE
      invariant pruned <= PRUNE_BATCH_SIZE
      invariant var (rest, end, n) := PruneFrom(raw, cursor, log.nextSeq, cutoff, PRUNE_BATCH_SIZE - pruned);
                PruneFrom(log.raw, log.pruneCursor, log.nextSeq, cutoff, PRUNE_BATCH_SIZE) == (rest, end, pruned + n)
      decreases log.nextSeq - cursor
    {
      if cursor in raw {
        if raw[cursor].timestamp < cutoff {
          raw := raw - {cursor};
          cursor := cursor + 1;
          pruned := pruned + 1;
        } else {
          break;
        }
      } else {
        cursor := cursor + 1;
      }
    }
    after := log.(raw := raw, pruneCursor := cursor);
  }

  lemma {:induction false} LiveVolumeGrows(raw: map<nat, RawReading>, cursor: nat, mid: nat, next: nat, h: nat)
    requires mid <= next
    ensures LiveVolume(raw, cursor, mid, h) <= LiveVolume(raw, cursor, next, h)
    decreases next
  {
    if mid == next {
    } else if next > cursor {
      LiveVolumeGrows(raw, cursor, mid, next - 1, h);
    }
  }

  /** The raw tier; `None` when the running sum leaves i128. */
  method SumRawForHour(log: DeviceLog, h: nat) returns (r: Option<volume>)
    ensures var live := LiveVolume(log.raw, log.pruneCursor, log.nextSeq, h);
            r == if live > I128_MAX then None else Some(live)
  {
    var seqNo := log.pruneCursor;
    var sum: volume := 0;
    while seqNo < log.nextSeq
      invariant log.pruneCursor <= seqNo
      invariant seqNo <= log.nextSeq || seqNo == log.pruneCursor
      invariant sum == LiveVolume(log.raw, log.pruneCursor, seqNo, h)
    {
      LiveVolumeGrows(log.raw, log.pruneCursor, seqNo + 1, log.nextSeq, h);
      if seqNo in log.raw && HourOf(log.raw[seqNo].timestamp) == h {
        if sum + log.raw[seqNo].value > I128_MAX {
          return None;
        }
        sum := sum + log.raw[seqNo].value;
      }
      seqNo := seqNo + 1;
    }
    return Some(sum);
  }

  /** The three-tier walk over the hours of the window. */
  method AggregateVolume(log: DeviceLog, fromTs: nat, toTs: nat) returns (r: Result<volume, Error>)
    ensures r == Aggregated(log, fromTs, toTs)
  {
    if fromTs > toTs {
      return Err(InvalidTimeRange);
    }
    var fromHour, toHour := HourOf(fromTs), HourOf(toTs);
    var total: volume := 0;
    var h := fromHour;
    while h <= toHour
      invariant total + Tiered(log, h, toHour) == Tiered(log, fromHour, toHour)
      decreases toHour + 1 - h
    {
      var day := h / HOURS_PER_DAY;
      var dayStartHour := day * HOURS_PER_DAY;
      var dayEndHour := dayStartHour + HOURS_PER_DAY - 1;
      if h == dayStartHour && dayEndHour <= toHour && day in log.daily {
        if total + log.daily[day].total > I128_MAX {
          return Err(Overflow);
        }
        total := total + log.daily[day].total;
        h := dayEndHour + 1;
      } else {
        var part: volume;
        if h in log.hourly {
          part := log.hourly[h].total;
        } else {
          var sum := SumRawForHour(log, h);
          if sum.None? {
            return Err(Overflow);
          }
          part := sum.value;
        }
        if total + part > I128_MAX {
          return Err(Overflow);
        }
        total := total + part;
        h := h + 1;
      }
    }
    return Ok(total);
  }
}
