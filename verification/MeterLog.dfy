/** One device's stored entries and the steps that change them, as values:
    `contracts/meter-aggregator/src/lib.rs` over `contracts/meter-aggregator/src/storage.rs`. */
module MeterLog {
  import opened Words

  const MAX_RAW_RETENTION_SECS: nat := 604_800
  const PRUNE_BATCH_SIZE: nat := 10
  const ROLLUP_INTERVAL_SECS: nat := 3_600
  const SECONDS_PER_DAY: nat := 86_400
  const HOURS_PER_DAY: nat := 24

  /** Stored i128 amounts; negative readings are refused before anything is stored. */
  type volume = x: nat | x <= I128_MAX

  datatype Error = NotInitialized | AlreadyInitialized | Overflow | InvalidTimeRange | NegativeValue

  datatype RawReading = RawReading(timestamp: nat, value: volume, source: Address)

  /** An hourly or a daily bucket; the u32 count wraps. */
  datatype Bucket = Bucket(epoch: nat, total: volume, count: nat)

  datatype DeviceLog = DeviceLog(
    nextSeq: nat,
    pruneCursor: nat,
    raw: map<nat, RawReading>,
    hourly: map<nat, Bucket>,
    daily: map<nat, Bucket>)

  const EMPTY_LOG: DeviceLog := DeviceLog(0, 0, map[], map[], map[])

  function HourOf(timestamp: nat): nat { timestamp / ROLLUP_INTERVAL_SECS }

  function DayOf(timestamp: nat): nat { timestamp / SECONDS_PER_DAY }

  function BucketTotal(buckets: map<nat, Bucket>, epoch: nat): volume {
    if epoch in buckets then buckets[epoch].total else 0
  }

  // ---------- Submission ----------

  /** `value` added to the bucket at `epoch`, which is created if absent; `None` on i128 overflow. */
  function Folded(buckets: map<nat, Bucket>, epoch: nat, value: volume): Option<map<nat, Bucket>> {
    var b := if epoch in buckets then buckets[epoch] else Bucket(epoch, 0, 0);
    if b.total + value > I128_MAX then None
    else Some(buckets[epoch := Bucket(b.epoch, b.total + value, (b.count + 1) % TWO32)])
  }

  function RolledUp(log: DeviceLog, ts: nat, value: volume): Option<DeviceLog> {
    var hourly := Folded(log.hourly, HourOf(ts), value);
    var daily := Folded(log.daily, DayOf(ts), value);
    if hourly.None? || daily.None? then None
    else Some(log.(hourly := hourly.value, daily := daily.value))
  }

  function Stored(log: DeviceLog, reading: RawReading): DeviceLog {
    log.(raw := log.raw[log.nextSeq := reading], nextSeq := (log.nextSeq + 1) % TWO64)
  }

  function Submitted(log: DeviceLog, now: nat, source: Address, value: i128): Result<DeviceLog, Error> {
    if value < 0 then Err(NegativeValue)
    else
      var rolled := RolledUp(Stored(log, RawReading(now, value, source)), now, value);
      if rolled.None? then Err(Overflow) else Ok(Pruned(rolled.value, now).0)
  }

  lemma SubmittedWhenBothFit(log: DeviceLog, now: nat, source: Address, value: i128)
    requires value >= 0
    ensures Submitted(log, now, source, value).Ok?
            <==> && BucketTotal(log.hourly, HourOf(now)) + value <= I128_MAX
                 && BucketTotal(log.daily, DayOf(now)) + value <= I128_MAX
  {
  }

  // ---------- Pruning ----------

  /** More than seven days old. */
  predicate TooOld(timestamp: nat, now: nat) {
    now - timestamp > MAX_RAW_RETENTION_SECS
  }

  /** `now.saturating_sub(retention)`: below it lie exactly the timestamps that are too old. */
  function Cutoff(now: nat): (c: nat)
    ensures forall ts: nat :: TooOld(ts, now) <==> ts < c
  {
    if now >= MAX_RAW_RETENTION_SECS then now - MAX_RAW_RETENTION_SECS else 0
  }

  /** The pruning loop from `cursor` with `budget` deletions left: remaining entries, cursor, deletions. */
  function PruneFrom(raw: map<nat, RawReading>, cursor: nat, next: nat, cutoff: nat, budget: nat)
    : (map<nat, RawReading>, nat, nat)
    decreases next - cursor
  {
    if cursor >= next || budget == 0 then (raw, cursor, 0)
    else if cursor !in raw then PruneFrom(raw, cursor + 1, next, cutoff, budget)
    else if raw[cursor].timestamp < cutoff then
      var (rest, end, n) := PruneFrom(raw - {cursor}, cursor + 1, next, cutoff, budget - 1);
      (rest, end, n + 1)
    else (raw, cursor, 0)
  }

  function Pruned(log: DeviceLog, now: nat): (DeviceLog, nat) {
    var (raw, cursor, n) := PruneFrom(log.raw, log.pruneCursor, log.nextSeq, Cutoff(now), PRUNE_BATCH_SIZE);
    (log.(raw := raw, pruneCursor := cursor), n)
  }

  // ---------- Day consolidation ----------

  /** The 24 hour epochs `rollup_day` deletes. `day * 24 + i` is u64 arithmetic, which wraps. */
  function ReclaimedHour(day: u64, i: nat): nat {
    (day * HOURS_PER_DAY + i) % TWO64
  }

  function ReclaimedHours(day: u64, n: nat): set<nat> {
    set i | 0 <= i < n :: ReclaimedHour(day, i)
  }

  /** The deleted hours are the day's own exactly when the product stays inside u64. */
  lemma ReclaimsOwnDayExactly(day: u64)
    ensures (forall h: nat :: h in ReclaimedHours(day, HOURS_PER_DAY) <==> h / HOURS_PER_DAY == day)
            <==> day * HOURS_PER_DAY + 23 < TWO64
  {
    var first := day * HOURS_PER_DAY;
    if first + 23 < TWO64 {
      forall h: nat ensures h in ReclaimedHours(day, HOURS_PER_DAY) <==> h / HOURS_PER_DAY == day {
        if h / HOURS_PER_DAY == day {
          assert ReclaimedHour(day, h - first) == h;
        }
      }
    } else {
      assert (first + 23) / HOURS_PER_DAY == day;
      assert first + 23 !in ReclaimedHours(day, HOURS_PER_DAY);
    }
  }

  function DayReclaimed(log: DeviceLog, day: u64): DeviceLog {
    log.(hourly := log.hourly - ReclaimedHours(day, HOURS_PER_DAY))
  }

  function DayTotal(log: DeviceLog, day: u64): volume {
    BucketTotal(log.daily, day)
  }

  // ---------- Query ----------

  /** Sum of the stored raw readings numbered [cursor, next) that fall in hour `h`. */
  function LiveVolume(raw: map<nat, RawReading>, cursor: nat, next: nat, h: nat): nat
    decreases next
  {
    if next <= cursor then 0
    else LiveVolume(raw, cursor, next - 1, h)
         + (if next - 1 in raw && HourOf(raw[next - 1].timestamp) == h then raw[next - 1].value else 0)
  }

  function HourTier(log: DeviceLog, h: nat): nat {
    if h in log.hourly then log.hourly[h].total else LiveVolume(log.raw, log.pruneCursor, log.nextSeq, h)
  }

  /** Whether the day tier answers at hour `h` of a window ending at `toHour`. */
  predicate DayTierApplies(log: DeviceLog, h: nat, toHour: nat) {
    h % HOURS_PER_DAY == 0 && h + 23 <= toHour && h / HOURS_PER_DAY in log.daily
  }

  /** The three-tier total over the hours h, ..., toHour. */
  function Tiered(log: DeviceLog, h: nat, toHour: nat): nat
    decreases toHour + 1 - h
  {
    if h > toHour then 0
    else if DayTierApplies(log, h, toHour)
    then log.daily[h / HOURS_PER_DAY].total + Tiered(log, h + HOURS_PER_DAY, toHour)
    else HourTier(log, h) + Tiered(log, h + 1, toHour)
  }

  function Aggregated(log: DeviceLog, fromTs: nat, toTs: nat): Result<volume, Error> {
    if fromTs > toTs then Err(InvalidTimeRange)
    else
      var total := Tiered(log, HourOf(fromTs), HourOf(toTs));
      if total > I128_MAX then Err(Overflow) else Ok(total)
  }
}
