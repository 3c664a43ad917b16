# Utility contracts: a verified model

A Dafny 4.11 model of the logic behind five parts of the utility contracts, with proofs of what
each part promises. `dafny verify dfyconfig.toml` checks everything.

**256-bit rate arithmetic** (`WeightedRate`, `AverageLaws`, `WordBits`, `Scaling`). Words are
bounded integer types, so every typed intermediate is also a proof that the machine operation does
not overflow. The 128x128 multiply, the two-limb adder and the restoring long division (with its
carry bit and wrapping subtraction) are shown to be the integer operations; on top of them the
time-weighted average and the deposit reconciliation are exact, and every `None` is characterised.

**Meter aggregator** (`MeterLog`, `MeterTruth`, `MeterQuery`, `MeterRuns`, `MeterLaws`,
`MeterAggregator`). A run is a sequence of timed calls on any number of devices; a trapping call
changes nothing. From the run one computes the truth: every reading ever accepted for a device, and
when each hour's bucket was last deleted. The stored entries agree with the truth in every reachable
state, and one equation says what a query returns: the true volume less what partially covered days
have lost.

**Time-of-use tariff** (`TariffSchedule`, `TariffFlow`, `TariffOracle`, `TariffHistory`). The
reference is one second at a time. The hour-to-hour walk with its saturating products, wrapping
total and u8 window counter is compared with it; the stored schedule is a state machine in which the
temporary copy may vanish whenever it likes, and every reachable state is the one told by its
history of announcements and executions.

**Settlement** (`Fees`, `Conversion`, `SettlementEffects`, `SettlementLaws`, `SettlementVerdicts`,
`SettlementScripts`, `SettlementContract`). Oracle and token are adversaries: each follows a script
of call-backs into the contract, every failure caught or propagated, every call-back carrying
scripts of its own, to any depth. Every token has a ledger of its own; it may call back before and
after it moves that ledger, or move nothing. The entry points run against these scripts with the
stored lock and the host's rollback of failed frames.

**Resource token** (`ResourceToken`, `NamespaceMigration`, `TokenHistory`). A capped mint/burn
ledger, the migration of entries from legacy to namespaced keys, and runs that mix the two. `MapSum`
holds the facts about sums over ledgers.

`Words` and `DivisionFacts` hold the shared types and the non-linear arithmetic.

## What the proofs found

* Querying a window that covers a day only in part is not always "total volume" as documented at
  `contracts/meter-aggregator/src/lib.rs:140`: `PartialDayCanLose` gives a run in which an hour that
  received 7 is answered with 0. `QueryNeverOverstates` says exactly when the answer is right.
* `rollup_day` multiplies the day number by 24 in u64. For day numbers whose product leaves u64 the
  deleted buckets belong to other hours (`ReclaimsOwnDayExactly`). The query theorems hold regardless,
  because deletions are tracked hour by hour.
* `migrate_namespace` is idempotent, but writing a legacy entry over a namespaced one destroys the
  latter: balances (`MigrationAfterMintLoses`, exactly accounted by `MigrationAccounting`) and the
  supply, which then no longer is the sum of the balances (`MigrationAfterMintUnbacks`).
  `FullMigrationKeepsBackedExactly` says when the documented invariant survives. Administrator,
  operators and nonces are written over alike (`EntriesMoveExactly`); a nonce, documented as replay
  protection, goes back exactly when a nonzero legacy one is behind it (`NonceSetBackExactly`). Done
  first, with all holders listed, a migration is safe for good (`BackedThroughout`).
* `windows_crossed` is counted in a u8 although reported as a u32. It is right exactly below 256
  crossings, and after 256 of them the period claims to span one window (`WindowCounterExactly`). It
  counts boundaries, so it is never the documented number of windows included
  (`contracts/utility_contracts/src/tariff_oracle.rs:477-481`, `WindowsIncludedNeverReported`).
* `spanned_multiple_windows` is documented as crossing hour boundaries "with different rates"
  (`contracts/utility_contracts/src/tariff_oracle.rs:471-475`) but ignores the rates: two hours at one
  rate are reported as spanning (`SpannedAtOneRate`; when it is right: `SpannedAsDocumentedExactly`).
* The end of the notice period is an unchecked u64 sum. From 2^64 - 86400 on it wraps and a tariff
  change can be executed at once (`ChangedWithoutNotice`); a proposal keeps its full notice exactly when
  the sum stays inside u64 (`NoticeKeptExactly`).
* The billed total is right exactly when it fits i128 (`AccumulatedIsExact`). The weighted rate is the
  duration-weighted mean of the hourly rates, not total tokens over duration as documented at
  `contracts/utility_contracts/src/tariff_oracle.rs:467`: `WeightedRateIsNotMeanTotal` gives a period,
  and `WeightedRateIsMeanTotalExactly` shows the two agree only at a consumption rate of one.
* A period reaching into the last 16 seconds of u64 is walked forever (`NeverReturnsExactly`).
* `settle` never enforces `MAX_SETTLEMENT`, and `compute_fee` multiplies unchecked and divides toward
  zero. With p = amount * rate the fee is the documented floor of (p + 5000)/10000, and within the
  documented half unit, exactly when p + 5000 fits i128 and either p >= -5000 or p is an exact half
  (`FeeIsRoundHalfUpExactly`, `FeeWithinHalfUnitExactly`). Two families break it. Too large a product
  wraps, and the fee can be anything down to nothing (`WrappedFeeAccepted`), though a wrapped fee the
  ledger accepts never exceeds the amount (`PositiveNet`). A negative one rounds the wrong way:
  `calculate_fee` (`contracts/settlement/src/lib.rs:117`) takes any i128, and -100 at 100 bps is charged
  0 instead of -1, which `verify_fee_invariant` refuses (`NegativeFeeRoundsUp`). `settle` stops
  nonpositive amounts; `finalize_settlement` does not stop a negative oracle price
  (`NegativeRoundingFinalized`). Its fees cannot wrap (`ConvertedFeeNeverWraps`).
  `ReportedFeeDocumentedExactly` carries the condition to every successful call of either.
* Net and fee of a `settle` need not add up to the amount: through a token that keeps no ledger a wrapped
  negative fee passes and the saturating subtraction cuts the net (`SaturatedNet`, exactly when:
  `SettleExactly`).
* With a negative oracle price `finalize_settlement` can succeed with a negative net, moving nothing
  (`NegativeNetReported`). It does exactly when volume * rate fits and is at most -10^7, the caller's
  minimum is met, and the fee rounds to zero, that is amount * rate_bps > -15000, or the token takes a
  negative fee (`NegativeNetExactly`).
* `verify_fee_invariant` is the documented tolerance only while its difference fits i128
  (`InvariantAdmitsOnlyNearest`); beyond, a wrong fee can pass (`InvariantFooled`).
* The protocol's own slippage bound can never reject, since the amounts it compares are one and the
  same (`ConvertExactly`).
* Contrary to `contracts/settlement/src/reentrancy.rs:10-12`, re-entry does not by itself abort the
  whole transaction: a callee may catch the refusal and the settlement
  completes (`CaughtReentryCompletes`, exactly when it aborts: `FrameAbortsExactly`,
  `OracleAbortsExactly`). It gains nothing by re-entering (`ReentryHasNoInfluence`).

## Reading the model

Arithmetic without an explicit check wraps, as in a release build of these crates. Clock, caller
authorization and the device or token concerned are parameters. Where a Soroban call panics, the
method returns an error and its state is unchanged: a call works on its entries, which the host
commits or discards. Loops and stored state are methods and classes; each is proved against a
function, and the theorems are about those functions, over all inputs, runs and reachable states.

## Model

| member | source | states |
|---|---|---|
| WordBits.Halves | contracts/common/src/weighted_rate.rs:37-40 | On the bits of every 128-bit word the mask and the shift by 64 are remainder and quotient by 2^64 |
| WordBits.JoinedHalves | contracts/common/src/weighted_rate.rs:50 | The or that joins the halves of the low limb is a sum: the halves never overlap |
| WordBits.SelectedBit | contracts/common/src/weighted_rate.rs:78 | For every shift, `(lo >> i) & 1` is the parity of the quotient by 2^i |
| WordBits.ShiftedIn | contracts/common/src/weighted_rate.rs:79-80 | Shifting a bit in doubles modulo 2^128 and adds; the bit shifted out is the quotient by 2^127 |
| WeightedRate.MulFull | contracts/common/src/weighted_rate.rs:35-53 | The two limbs denote exactly a*b, and no intermediate leaves 128 bits |
| WeightedRate.Add256 | contracts/common/src/weighted_rate.rs:55-62 | Exact modulo 2^256, the flag set exactly on overflow |
| WeightedRate.DividedStep | contracts/common/src/weighted_rate.rs:76-90 | One division step keeps quot*d + rem equal to the bits read so far and rem below d, also when the top bit of rem is shifted out and the subtraction wraps |
| WeightedRate.Div256By128 | contracts/common/src/weighted_rate.rs:64-92 | Exact quotient and remainder of the 256-bit value; `None` exactly when d = 0 or the quotient needs more than 128 bits |
| WeightedRate.RoundUpQuotient | contracts/common/src/weighted_rate.rs:109-121 | Round-half-up of (q*d + r)/d, `None` exactly when that leaves u128, whether or not doubling the remainder overflows |
| WeightedRate.RoundHalfUpIsNearest | contracts/common/src/weighted_rate.rs:101-107 | Round-half-up is within d/2 of the exact quotient, ties going up |
| WeightedRate.MulDivFloor | contracts/common/src/weighted_rate.rs:94-99 | The integer q with q*d <= a*b < (q+1)*d; `None` exactly when d = 0 or a*b is at least 2^128 * d |
| WeightedRate.MulDivRound | contracts/common/src/weighted_rate.rs:101-107 | The integer nearest to a*b/d, ties upward, by its bracket; `None` exactly when d = 0 or 2ab + d is at least 2 * 2^128 * d |
| WeightedRate.WeightedAverage | contracts/common/src/weighted_rate.rs:143-164 | The loop returns the integer average of its list, `None` on a 256-bit or duration overflow of the whole sum |
| AverageLaws.NoneExactly | contracts/common/src/weighted_rate.rs:136-142 | For every list, `None` means zero duration, numerator at least 2^256 or duration at least 2^128: the average itself always fits |
| AverageLaws.AverageIsExact | contracts/common/src/weighted_rate.rs:143-164 | Below 2^64 intervals no overflow exit is reachable: `None` exactly for zero duration, otherwise the exact round-half-up |
| AverageLaws.AverageWithinRates | contracts/common/src/weighted_rate.rs:141-142 | The average lies between the smallest and largest rate that held for any time |
| AverageLaws.PermutationInvariant | contracts/common/src/weighted_rate.rs:143-164 | Reordering the list changes nothing, `None` included |
| AverageLaws.ZeroDurationIgnored | contracts/common/src/weighted_rate.rs:143-164 | Inserting a zero-duration interval anywhere changes nothing |
| AverageLaws.SplittingInvariant | contracts/common/src/weighted_rate.rs:143-164 | Splitting an interval's duration in two changes nothing |
| Scaling.ReconcileTokens | contracts/common/src/scaling.rs:76-83 | Precisions outside [1, 10^12] and no others are refused; otherwise the floor of deposit * 10^18 / precision by its bracket, or the overflow error exactly when that leaves u128 |
| Scaling.Scale | contracts/common/src/scaling.rs:85-96 | Zero precision is the only invalid one, overflow exactly when the true quotient leaves u128, else the floor bracket |
| Scaling.ReconciledIsExact | contracts/common/src/scaling.rs:68-83 | Overflow exactly when the true floor exceeds u128; what is minted never exceeds the backing and falls short by less than one unit |
| Scaling.SafeDepositsExactly | contracts/common/src/scaling.rs:34-60 | `is_safe_deposit` holds exactly for the deposits that reconcile at every valid precision |
| Scaling.SplittingNeverMintsMore | contracts/common/src/scaling.rs:69-83 | If a total reconciles so does every piece; the pieces never mint more than the whole and lose less than one unit each |
| MeterAggregator.Aggregator.Initialize | contracts/meter-aggregator/src/lib.rs:68-75 | Sets the admin once; refused afterwards |
| MeterAggregator.Aggregator.SubmitReading | contracts/meter-aggregator/src/lib.rs:82-108 | Takes exactly the submission step on the device's entries and returns the sequence number used; on any trap nothing changes |
| MeterAggregator.Aggregator.Prune | contracts/meter-aggregator/src/lib.rs:110-115 | Takes exactly the pruning step, other devices untouched, and returns a count of at most 10 |
| MeterAggregator.Aggregator.RollupDay | contracts/meter-aggregator/src/lib.rs:124-138 | Deletes exactly the 24 (wrapped) hours and returns the day's total, 0 if it has none |
| MeterAggregator.Aggregator.GetAggregatedVolume | contracts/meter-aggregator/src/lib.rs:147-180 | Reads the tiered total of the device's entries |
| MeterAggregator.RollupRawToHourly | contracts/meter-aggregator/src/lib.rs:216-237 | Hourly then daily fold of one reading, counts wrapping in u32, `None` if either total would leave i128 |
| MeterAggregator.PruneStaleReadings | contracts/meter-aggregator/src/lib.rs:245-274 | The watermark loop computes the pruning step on any entries, gaps included |
| MeterAggregator.SumRawForHour | contracts/meter-aggregator/src/lib.rs:279-292 | The live readings of an hour summed, trapping exactly when the full sum leaves i128 |
| MeterAggregator.AggregateVolume | contracts/meter-aggregator/src/lib.rs:147-180 | The three-tier walk returns the tiered total; traps exactly on an inverted range or when the whole total leaves i128 |
| MeterLog.Cutoff | contracts/meter-aggregator/src/lib.rs:247-249 | Below the saturated cutoff lie exactly the timestamps more than 7 days old |
| MeterLog.ReclaimsOwnDayExactly | contracts/meter-aggregator/src/lib.rs:128-133 | The deleted hours are the day's own if and only if day*24 + 23 stays inside u64 |
| MeterTruth.RolledUpFaithful | contracts/meter-aggregator/src/lib.rs:92-103 | Storing and folding in a reading keeps every bucket, the live range and the time order in agreement with the history |
| MeterTruth.PrunedExactly | contracts/meter-aggregator/src/lib.rs:239-274 | A prune removes exactly the oldest min(10, stale) readings, all too old, and keeps agreement |
| MeterTruth.PruneFromExactly | contracts/meter-aggregator/src/lib.rs:255-270 | On the live range the branch for already removed entries is never taken |
| MeterTruth.ReclaimedFaithful | contracts/meter-aggregator/src/lib.rs:117-138 | Deleting hourly buckets keeps agreement, those hours now counting from the present |
| MeterQuery.HourTierAccounted | contracts/meter-aggregator/src/lib.rs:171-175 | For every hour, the answer of the hour and raw tiers plus the hour's loss is its true volume |
| MeterQuery.TieredAccounted | contracts/meter-aggregator/src/lib.rs:155-179 | For every window, the tiered total plus the losses in partially covered days is the true volume |
| MeterQuery.IntactLosesNothing | contracts/meter-aggregator/src/lib.rs:279-292 | An hour never consolidated, or last consolidated after it ended with all its readings live, has lost nothing |
| MeterRuns.RunsAreFaithful | contracts/meter-aggregator/src/lib.rs:18-29 | In every reachable state and for every device: live readings are exactly [cursor, next) in time order, daily buckets hold their whole day, hourly buckets everything since their last deletion, counts modulo 2^32 |
| MeterRuns.RawStorageCapped | contracts/meter-aggregator/src/lib.rs:30-32 | If no 604,800 seconds saw more than k accepted readings of a device, at most k raw entries of it are stored in every reachable state |
| MeterLaws.EpochsExactly | contracts/meter-aggregator/src/constants.rs:22-26 | Hours and days are those of 3600 and 86,400 seconds |
| MeterLaws.CallsRemoveOnlyStale | contracts/meter-aggregator/src/lib.rs:25-28 | In every reachable state a call removes at most ten raw readings, each over 604,800 seconds old by then, and only a successful submission or prune removes any |
| MeterLaws.CursorMovesExactly | contracts/meter-aggregator/src/lib.rs:239-274 | Over any run each successful submission or prune passes exactly the oldest min(10, stale) readings, the new one counted, and no other call any |
| MeterLaws.RecentReadingsAreStored | contracts/meter-aggregator/src/lib.rs:15-32 | Every accepted reading of the last 604,800 seconds is stored under its sequence number as it was submitted |
| MeterLaws.RollupTouchesHoursOnly | contracts/meter-aggregator/src/lib.rs:124-138 | `rollup_day` deletes hourly buckets of its device, of its day alone below the u64 limit, and changes no raw reading, cursor, sequence number, daily bucket, administrator or other device |
| MeterLaws.CallsFailExactly | contracts/meter-aggregator/src/lib.rs:68-138 | For every call after every run: success, or the first error that applies |
| MeterLaws.AdminIsFirst | contracts/meter-aggregator/src/lib.rs:68-75 | The administrator is the one named by the first `initialize` of the run |
| MeterLaws.SequenceNumbersCount | contracts/meter-aggregator/src/lib.rs:90-97 | The next sequence number is the number of readings accepted so far |
| MeterRuns.ReachablePrune | contracts/meter-aggregator/src/lib.rs:239-274 | In every reachable state a prune removes exactly min(10, stale) readings, the oldest, each more than 7 days old, and touches no bucket |
| MeterRuns.ReachableDayTotal | contracts/meter-aggregator/src/lib.rs:117-138 | In every reachable state the total `rollup_day` reports is the volume ever submitted on that day |
| MeterRuns.SubmissionAcceptedExactly | contracts/meter-aggregator/src/lib.rs:82-108 | In reachable states a reading is accepted if and only if the contract is initialized, the value nonnegative and the day's volume with it inside i128: the hourly overflow check never decides |
| MeterRuns.WholeDaysAreExact | contracts/meter-aggregator/src/lib.rs:140-180 | A window of whole days returns exactly the volume ever submitted in it and traps only when that exceeds i128 |
| MeterLaws.QueryExactly | contracts/meter-aggregator/src/lib.rs:140-180 | Every query of every reachable state: the range error exactly for an inverted range, otherwise the volume accepted in the hours from that of `from_ts` to that of `to_ts` less the losses of partially covered days, or the overflow trap when that leaves i128 |
| MeterLaws.QueryNeverOverstates | contracts/meter-aggregator/src/lib.rs:140-180 | An answer never exceeds the accepted volume and equals it if and only if no hour of a partially covered day lost anything |
| MeterLaws.IntactQueriesAreExact | contracts/meter-aggregator/src/lib.rs:140-180 | A query is exact whenever every hour of a partially covered day is intact |
| MeterLaws.AdjacentQueriesAccounted | contracts/meter-aggregator/src/lib.rs:140-180 | If the union of two adjacent windows is answered so are the two, together never with more; the difference is what the parts lose beyond the whole |
| MeterLaws.AdjacentQueriesAdd | contracts/meter-aggregator/src/lib.rs:140-180 | Where both parts are answered exactly so is the union, by their sum, unless that leaves i128 |
| MeterRuns.PartialDayCanLose | contracts/meter-aggregator/src/lib.rs:117-180 | A concrete run in which an hour that received 7 is answered with 0 and its whole day with 7 |
| MeterRuns.BacklogDrains | contracts/meter-aggregator/src/lib.rs:82-115 | Of S readings stale at some moment at most max(0, S - 10k) survive any continuation with k successful submissions or prunes of the device |
| TariffSchedule.ValidateTariffSchedule | contracts/utility_contracts/src/tariff_oracle.rs:836-858 | The validating loop accepts exactly 24 positive rates in hour order with a plausible date |
| TariffSchedule.SingleFaultsAreRefused | contracts/utility_contracts/src/tariff_oracle.rs:836-858 | From a valid schedule: an hour more or less, an hour out of place, a rate not positive, a date outside 20000101 to 20991231, and no other date or tariff, make it invalid |
| TariffSchedule.RateOfSecond | contracts/utility_contracts/src/tariff_oracle.rs:875-878 | Second s of hour h of any day is rated as listed for hour h |
| TariffSchedule.DefaultDay | contracts/utility_contracts/src/tariff_oracle.rs:887-915 | The default day: nine hours at 8, eight at 15, seven at 12 |
| TariffSchedule.NextHourBoundary | contracts/utility_contracts/src/tariff_oracle.rs:881-885 | The next multiple of 3600, at most an hour ahead; from the last 16 seconds of u64 on it wraps to 3584 |
| TariffSchedule.CostAdditive | contracts/utility_contracts/src/tariff_oracle.rs:711-779 | The per-second charges of adjacent periods add up to that of their union |
| TariffSchedule.DayCost | contracts/utility_contracts/src/tariff_oracle.rs:837-885 | Any 86,400 seconds, wherever they start, charge consumption * 3600 * the sum of the hourly rates |
| TariffSchedule.BoundariesClosedForm | contracts/utility_contracts/src/tariff_oracle.rs:759-761 | Hour boundaries strictly inside a period, counted one by one, are the difference of its end seconds' hours |
| TariffSchedule.WalkCovers | contracts/utility_contracts/src/tariff_oracle.rs:737-764 | The windows of the walk have the period's length and its per-second rate sum |
| TariffSchedule.WalkCount | contracts/utility_contracts/src/tariff_oracle.rs:737-764 | The walk visits one window more than it crosses boundaries |
| TariffSchedule.RateChangeExactly | contracts/utility_contracts/src/tariff_oracle.rs:471-475 | A period crosses an hour boundary with different rates if and only if two of its seconds have different rates |
| TariffSchedule.LongPeriodChanges | contracts/utility_contracts/src/tariff_oracle.rs:471-475 | A day or more, wherever it starts, crosses such a boundary unless all 24 rates are equal |
| TariffFlow.WindowCharge | contracts/utility_contracts/src/tariff_oracle.rs:749-757 | As long as the charge so far fits i128, saturation and wrap-around of one window are idle |
| TariffFlow.CalculateFlowForPeriod | contracts/utility_contracts/src/tariff_oracle.rs:721-779 | Fails exactly on an empty period or one whose walk never ends; otherwise totals are the accumulated ones, saturation and wrap-around included, equal to the per-second charge if and only if that fits i128; counts boundaries strictly inside |
| TariffFlow.AccumulatedIsExact | contracts/utility_contracts/src/tariff_oracle.rs:749-757 | The accumulated total is the per-second charge if and only if that charge fits i128 |
| TariffFlow.AccumulatedIsWrappedSum | contracts/utility_contracts/src/tariff_oracle.rs:749-757 | Whatever overflows, the total is the i128 wrap of the sum of the window charges, each clamped to i128 by itself |
| TariffFlow.NeverReturnsExactly | contracts/utility_contracts/src/tariff_oracle.rs:737-764 | With the boundary wrapping in u64, the walk of a nonempty period never reaches its end if and only if the end lies past the last hour boundary |
| TariffFlow.WeightedRateIsMeanTotalExactly | contracts/utility_contracts/src/tariff_oracle.rs:465-469 | The documented "total tokens / duration" is, while nothing overflows, the reported weighted rate if and only if the consumption rate is one |
| TariffFlow.WeightedRateIsNotMeanTotal | contracts/utility_contracts/src/tariff_oracle.rs:465-469 | One second of the default schedule at two tokens per second: 16 tokens, weighted rate 8 |
| TariffFlow.FitsWhenBounded | contracts/utility_contracts/src/tariff_oracle.rs:749-757 | consumption * highest rate * duration inside i128 is enough for an exact total |
| TariffFlow.BilledPeriodsAdd | contracts/utility_contracts/src/tariff_oracle.rs:721-779 | Reported totals of adjacent periods add up to the reported total of their union whenever that charge fits |
| TariffFlow.BilledDay | contracts/utility_contracts/src/tariff_oracle.rs:721-779 | Any reported 86,400-second total is the daily charge, exactly when that fits i128 |
| TariffFlow.WindowCounterExactly | contracts/utility_contracts/src/tariff_oracle.rs:733-777 | The u8 window count is right if and only if fewer than 256 boundaries are crossed; 256 is reported as none |
| TariffFlow.WindowsIncludedNeverReported | contracts/utility_contracts/src/tariff_oracle.rs:477-481 | The reported count is one less than the windows walked, modulo 256, and so never the documented number of windows included |
| TariffFlow.SpannedAsDocumentedExactly | contracts/utility_contracts/src/tariff_oracle.rs:471-475 | The flag is the documented "crossed hour boundaries with different rates" if and only if: at a zero counter, no boundary was crossed or all hours have one rate; at a nonzero one, some crossed boundary changes the rate |
| TariffFlow.SpannedAtOneRate | contracts/utility_contracts/src/tariff_oracle.rs:471-475 | Two hours of the default schedule at one rate are reported as spanning several windows |
| TariffFlow.ReportedRateNearAverage | contracts/utility_contracts/src/tariff_oracle.rs:766-770 | The reported weighted rate and the round-half-up average of the walked windows differ by at most one while the rate sum fits i128 |
| TariffOracle.Oracle.Initialize | contracts/utility_contracts/src/tariff_oracle.rs:515-552 | Once, and only with a valid schedule, both copies are set; otherwise nothing changes |
| TariffOracle.Oracle.ProposeTariffUpdate | contracts/utility_contracts/src/tariff_oracle.rs:566-625 | Stores the next numbered proposal, executable one notice period later, number and time in wrapping u64; otherwise nothing changes |
| TariffOracle.Oracle.ExecuteTariffUpdate | contracts/utility_contracts/src/tariff_oracle.rs:636-692 | Puts an unexecuted, due proposal into both copies and marks it; otherwise nothing changes |
| TariffOracle.Oracle.GetCurrentTariff | contracts/utility_contracts/src/tariff_oracle.rs:789-807 | Whichever copy answers, the tariff is the persistent schedule's positive rate for that hour |
| TariffOracle.Oracle.CalculateFlowForPeriod | contracts/utility_contracts/src/tariff_oracle.rs:721-779 | The stored schedule bills the period as the persistent copy would |
| TariffOracle.RunsAreConsistent | contracts/utility_contracts/src/tariff_oracle.rs:515-692 | In every reachable state the copies agree, stored schedules are valid and proposals are numbered without gaps |
| TariffHistory.RunsTellTheirHistory | contracts/utility_contracts/src/tariff_oracle.rs:515-692 | The stored state after any run is a function of its history: in force, in both copies, the schedule of the last successful execution, else the initial one; proposals the announcements under their numbers, marked exactly if executed |
| TariffHistory.ExecutionTakesEffect | contracts/utility_contracts/src/tariff_oracle.rs:667-687 | Every successful execution leaves its own schedule in both copies, marks its own proposal and changes nothing else |
| TariffHistory.ExecuteExactly | contracts/utility_contracts/src/tariff_oracle.rs:636-692 | After any run an execution succeeds exactly for an announced, unexecuted and due proposal, putting the schedule announced under that number in force; else the first error that applies |
| TariffHistory.ProposeExactly | contracts/utility_contracts/src/tariff_oracle.rs:566-625 | After any run a proposal is accepted exactly with a valid schedule and a nonzero signature on an initialized oracle, gets the next number and is stored as announced |
| TariffHistory.InitializeExactly | contracts/utility_contracts/src/tariff_oracle.rs:515-552 | Accepted exactly once, with a valid schedule |
| TariffOracle.CopiesAgree | contracts/utility_contracts/src/tariff_oracle.rs:789-814 | Losing the temporary copy at any point of a run changes nothing else then or later: with and without the loss the same valid schedule is consulted, the persistent one |
| TariffOracle.ProposalsWereAnnounced | contracts/utility_contracts/src/tariff_oracle.rs:598-617 | Every stored proposal stems from a propose call of that schedule, due at the u64 sum of its time and the notice period |
| TariffOracle.NoticeKeptExactly | contracts/utility_contracts/src/tariff_oracle.rs:605 | A proposal is executable exactly from the wrapped u64 sum on; it waits for its full 86,400 seconds if and only if that sum stays inside u64, otherwise it is executable at once |
| TariffOracle.ChangesAreAnnouncedAhead | contracts/utility_contracts/src/tariff_oracle.rs:636-692 | After initialization the schedule in force changes only by executing an unexecuted proposal, announced at least 24 hours before unless it was announced on the last day of the u64 clock |
| TariffOracle.ChangedWithoutNotice | contracts/utility_contracts/src/tariff_oracle.rs:605 | A run on that day in which a schedule is announced and put into force at the same instant |
| TariffOracle.ExecutedOnce | contracts/utility_contracts/src/tariff_oracle.rs:649-652 | An executed proposal stays executed and every later attempt fails |
| Fees.FeeIsRoundHalfUpExactly | contracts/settlement/src/fees.rs:3-17 | For every amount, negative or not, the fee is the documented floor((p + 5000)/10000), p = amount*rate, if and only if p + 5000 fits i128 and p >= -5000 or p mod 10000 = 5000 |
| Fees.FeeWithinHalfUnitExactly | contracts/settlement/src/fees.rs:11-14 | For every amount the fee charged is within the documented half unit under exactly the same condition |
| Fees.NegativeFeeRoundsUp | contracts/settlement/src/lib.rs:117-119 | -100 at 100 bps: fee 0 where -1 is documented, outside the half unit and refused by the contract's own check |
| Fees.CappedAmountsFit | contracts/settlement/src/constants.rs:9-14 | Every amount up to MAX_SETTLEMENT at every permitted rate is inside that guard |
| Fees.OnlyNearestFees | contracts/settlement/src/fees.rs:11-14 | For all integers, half a unit either way admits the documented fee and, on an exact half, the one below: no other |
| Fees.VerifyExactly | contracts/settlement/src/token_utils.rs:43-50 | For every input the wrapping check accepts exactly when the difference modulo 2^128 is within the tolerance or is the one value without an absolute value |
| Fees.InvariantAdmitsOnlyNearest | contracts/settlement/src/token_utils.rs:43-50 | For amounts of either sign, while the difference stays inside i128 the check accepts exactly the documented fee and, on an exact half, the one below |
| Fees.InvariantFooled | contracts/settlement/src/token_utils.rs:43-50 | Outside it a concrete wrong fee passes the check |
| Fees.WrappedFeeVanishes | contracts/settlement/src/fees.rs:15-17 | At the largest amount and 10% the fee wraps to zero |
| Fees.FeeMonotone | contracts/settlement/src/fees.rs:15-17 | A larger amount never has a smaller fee |
| Fees.FeeBelowAmount | contracts/settlement/src/fees.rs:15-17 | At rates up to 1000 bps a positive amount keeps something |
| Fees.SplittingShiftsFeeLittle | contracts/settlement/src/fees.rs:3-17 | The fees of n amounts and the fee of their total differ by at most (n+1)/2 |
| Conversion.IsStale | contracts/settlement/src/rate_application.rs:20-28 | Stale exactly when more than 600 seconds behind; a future stamp is fresh |
| Conversion.ConvertExactly | contracts/settlement/src/conversion.rs:23-62 | The only failures are an i128 overflow and the caller's own minimum; the protocol bound never rejects |
| Conversion.NetAgainstExact | contracts/settlement/src/conversion.rs:29-61 | Net of the converted amount is at most 1.5 units below and 0.5 above the exact rational |
| SettlementLaws.TransferConserves | contracts/settlement/src/token_utils.rs:36-38 | A ledger transfer conserves the sum and moves each account by its roles, sender and receiver possibly equal |
| SettlementLaws.PaymentConserves | contracts/settlement/src/lib.rs:105-111 | Fee and net legs together conserve the ledger under every aliasing |
| SettlementLaws.LedgerMovesExactly | contracts/settlement/src/lib.rs:105-113 | Payer loses the gross amount, payee gains the net, collector the fee, net + fee = amount, nobody else moves, also when the token calls back while paying |
| SettlementLaws.OutcomeMovesExactly | contracts/settlement/src/lib.rs:83-197 | Every successful call through a token that keeps the ledger, whatever it calls back: with a positive gross payer, payee and collector move by the reported amounts and nobody else does; otherwise nothing moves and no fee is charged |
| SettlementLaws.OutcomeConserves | contracts/settlement/src/lib.rs:83-197 | Every successful call, with honest or hostile token, conserves the ledger and keeps it nonnegative |
| SettlementVerdicts.SettleExactly | contracts/settlement/src/lib.rs:83-114 | `settle` for every combination of arguments, ledger and scripts: which error, or success with the fee and the saturated net, which add up exactly while amount - fee fits i128 |
| SettlementVerdicts.FundedSettlementSucceeds | contracts/settlement/src/lib.rs:83-114 | With a product that fits and a token that keeps its ledger and whose scripts return, it succeeds if and only if the payer holds the amount (collecting the fee himself: the net), with the documented fee |
| SettlementVerdicts.FundedSettlement | contracts/settlement/src/token_utils.rs:30-40 | 10,000 at 100 bps from a payer holding 10,000: 9,900 to the payee, 100 to the collector |
| SettlementVerdicts.SaturatedNet | contracts/settlement/src/lib.rs:105-106 | The largest amount at 1 bps through a token without a ledger: negative fee, net cut at the largest i128 |
| SettlementVerdicts.FinalizeExactly | contracts/settlement/src/lib.rs:137-197 | `finalize_settlement` for every combination of arguments, ledger and scripts: the errors in their order, else the converted amount is settled and net + fee equals it |
| SettlementVerdicts.FundedFinalizationSucceeds | contracts/settlement/src/lib.rs:137-197 | A positive converted amount through such a token is settled if and only if the payer holds it (or, collecting the fee himself, the net), with the documented fee |
| SettlementVerdicts.LedgerlessMovesNothing | contracts/settlement/src/lib.rs:83-197 | A call through a token that keeps no ledger leaves every balance as it was |
| SettlementLaws.PositiveNet | contracts/settlement/src/lib.rs:105-108 | A nonnegative fee, wrapped or not, stays below a positive amount, so net and fee always split it |
| SettlementLaws.FinalizedFrom | contracts/settlement/src/lib.rs:164-196 | A finalized call used the oracle price if at most 600 seconds old, else the fallback, and met the caller's minimum |
| SettlementLaws.FinalizedAmounts | contracts/settlement/src/lib.rs:137-197 | Every successful finalization at a nonnegative rate: net + fee is exactly floor(volume*rate/10^7), and the net is within 1.5 below and 0.5 above the exact rational |
| SettlementLaws.ConvertedFeeNeverWraps | contracts/settlement/src/lib.rs:170-185 | No fee of a finalized settlement can wrap: the overflow check on volume*rate already leaves it room |
| SettlementLaws.NegativeNetExactly | contracts/settlement/src/lib.rs:150-196 | A finalization succeeds with a negative net if and only if the fee rate is permitted, the volume positive, the oracle returns, volume*rate fits and is at most -10^7, the caller's minimum is met, and amount*rate_bps > -15000 or the token lets a negative fee pass |
| SettlementLaws.NegativeNetReported | contracts/settlement/src/lib.rs:168-196 | Price -1, volume 20,000,000, 100 bps: success, net -2, nothing moves |
| SettlementLaws.NegativeRoundingFinalized | contracts/settlement/src/lib.rs:168-196 | Price -1, 100 bps: a volume of 10^9 succeeds with net -100 and fee 0, documented as -1; one of 2*10^9 aborts |
| SettlementLaws.ReportedFeeDocumentedExactly | contracts/settlement/src/lib.rs:83-197 | Every successful call, through any token, reports the documented fee of the amount settled if and only if that product fits and is at least -5000 or an exact half; every finalization at a nonnegative rate does |
| SettlementLaws.WrappedFeeAccepted | contracts/settlement/src/lib.rs:83-114 | `settle` of the largest amount at 10% succeeds with a fee of zero |
| SettlementEffects.AttemptsAreInert | contracts/settlement/src/reentrancy.rs:10-20 | Under the lock, what a script returns does not depend on which entry points it tries |
| SettlementEffects.ReentryHasNoInfluence | contracts/settlement/src/reentrancy.rs:3-20 | Callees that differ only in the re-entries they attempt cannot change a call's result or balances |
| SettlementEffects.FrameAbortsExactly | contracts/settlement/src/reentrancy.rs:10-12 | Under the lock a frame aborts if and only if it lets a refusal through or traps of its own accord, never both |
| SettlementEffects.OracleAbortsExactly | contracts/settlement/src/reentrancy.rs:10-12 | A re-entering oracle aborts a finalization exactly when it lets a refusal through or traps anyway |
| SettlementEffects.CaughtReentryCompletes | contracts/settlement/src/reentrancy.rs:10-12 | An oracle that re-enters and catches the refusal leaves the settlement to complete and pay |
| SettlementContract.Settlement.AcquireGuard | contracts/settlement/src/reentrancy.rs:46-71 | Refused exactly while held; afterwards held with one active frame |
| SettlementContract.Settlement.DropGuard | contracts/settlement/src/reentrancy.rs:73-81 | Releases the lock and leaves no active frame |
| SettlementContract.Settlement.Invoke | contracts/settlement/src/lib.rs:83-197 | Under the lock refused without effect; otherwise the exact outcome on its own token's ledger and no other on success, no effect on failure, lock clear either way |
| SettlementContract.Settlement.SettleGuarded | contracts/settlement/src/lib.rs:95-113 | The body of `settle`, whatever the token calls back, reaches the outcome function's result |
| SettlementContract.Settlement.FinalizeGuarded | contracts/settlement/src/lib.rs:150-196 | The body of `finalize_settlement`, whatever oracle and token call back, reaches the outcome function's result |
| SettlementContract.Settlement.CollectFee | contracts/settlement/src/token_utils.rs:18-41 | Moves the fee unless it is zero; traps with the token |
| SettlementContract.Settlement.TransferThrough | contracts/settlement/src/token_utils.rs:36-38 | One token transfer with call-backs before and after its own ledger moves: the move happens exactly if neither script aborts and the ledger accepts |
| SettlementContract.Settlement.RunScript | contracts/settlement/src/reentrancy.rs:3-28 | Over every finite tree of call-backs, through any number of tokens: at most one guarded frame, the lock held exactly while there is one, failed frames undone, nothing moved under the lock; outside it result and ledgers are those of the account of the script, and every token is conserved |
| SettlementContract.Settlement.RunTransaction | contracts/settlement/src/reentrancy.rs:22-28 | After one transaction by any caller the lock is clear and no frame is left; result and ledgers are those of the account of its script, a revert moved nothing |
| SettlementContract.Settlement.RunTransactions | contracts/settlement/src/reentrancy.rs:22-28 | After any sequence of timed transactions the lock is clear, the ledgers are those of the account of all scripts, and each token is conserved and nonnegative |
| SettlementScripts.RunsAlike | contracts/settlement/src/reentrancy.rs:22-28 | The account of a script depends on the ledgers as balances alone |
| SettlementScripts.CallsApplyInOrder | contracts/settlement/src/reentrancy.rs:22-28 | A transaction of caught calls commits with exactly its successful calls applied one after another |
| SettlementScripts.UncaughtRefusalAborts | contracts/settlement/src/reentrancy.rs:22-28 | A transaction that lets a failed call through commits nothing |
| ResourceToken.Token.Mint | contracts/resource-token/src/lib.rs:124-164 | Raises one balance and the supply together, or fails without effect |
| ResourceToken.Token.Burn | contracts/resource-token/src/lib.rs:181-213 | Lowers one balance and the supply together, or fails without effect |
| ResourceToken.RunsAreBacked | contracts/resource-token/src/storage.rs:12-18 | In every state reached by mints and burns the supply is the sum of the balances, each nonnegative, and at most MAX_SUPPLY |
| ResourceToken.ReachableFailures | contracts/resource-token/src/lib.rs:124-206 | In reachable states every call succeeds or fails with the first documented reason that applies, the cap being 10^15; the balance-overflow, balance-underflow and supply-underflow traps are unreachable |
| ResourceToken.BalancesAreNetMinted | contracts/resource-token/src/lib.rs:124-213 | After any run every balance is what successful calls minted to the account less what they burned from it |
| ResourceToken.BurnUndoesMint | contracts/resource-token/src/lib.rs:124-213 | Burning what was minted restores the supply and every balance |
| NamespaceMigration.Storage.MigrateNamespace | contracts/resource-token/src/storage.rs:121-160 | The loop's effect is a function of the set of listed addresses: neither order nor repeats matter |
| NamespaceMigration.Storage.MigrateAddress | contracts/resource-token/src/storage.rs:138-159 | Moves the nonzero balance, nonzero nonce and operator entry of one address |
| NamespaceMigration.MigrationsCompose | contracts/resource-token/src/storage.rs:119-160 | From any state, migrating A then B is migrating their union |
| NamespaceMigration.MigrationIdempotent | contracts/resource-token/src/storage.rs:120 | Repeating a migration, in whole or part, changes nothing |
| NamespaceMigration.RunIsOneMigration | contracts/resource-token/src/storage.rs:119-160 | A run of migrations is one migration of everyone listed |
| NamespaceMigration.MigrationAccounting | contracts/resource-token/src/storage.rs:137-144 | In every state the total of both key generations drops by exactly the namespaced balances written over |
| NamespaceMigration.MigrationKeepsBackedExactly | contracts/resource-token/src/storage.rs:12-18 | Between two backed generations, the exact equation on moved and overwritten balances under which supply = sum of balances survives a migration of any addresses |
| NamespaceMigration.FullMigrationKeepsBackedExactly | contracts/resource-token/src/storage.rs:12-18 | With all holders listed it survives if and only if there was no legacy supply or every account with a namespaced balance also had a legacy one |
| NamespaceMigration.MigrationAfterMintLoses | contracts/resource-token/src/storage.rs:121-144 | Mints of 3 under legacy and 5 under namespaced keys to one account, then migration: the five vanish from balance and supply |
| NamespaceMigration.MigrationAfterMintUnbacks | contracts/resource-token/src/storage.rs:121-144 | The same to two accounts: the supply reads 3 while the balances sum to 8 |
| NamespaceMigration.SingletonsMoveExactly | contracts/resource-token/src/storage.rs:122-135 | After any run of migrations no administrator and no supply is left under legacy keys; the namespaced ones are the legacy ones where there were any, else what they were |
| NamespaceMigration.EntriesMoveExactly | contracts/resource-token/src/storage.rs:138-159 | After any run of migrations, for every address and both generations: a listed nonzero balance or nonce and a listed operator entry are gone under the legacy key and are the namespaced value; everything else is as it was |
| NamespaceMigration.NothingLeftBehind | contracts/resource-token/src/storage.rs:119-160 | A run of migrations moves and does not copy: nothing is left under the legacy keys it listed |
| TokenHistory.MigratingAgainChangesNothing | contracts/resource-token/src/storage.rs:119-120 | From any store and through any mints and burns in between, migrating already migrated addresses changes nothing |
| TokenHistory.MintAfterMigrationKept | contracts/resource-token/src/storage.rs:119-135 | Legacy mint of 3, migration, mint of 5, migration again: supply and balance stay 8 |
| TokenHistory.BackedThroughout | contracts/resource-token/src/storage.rs:12-18 | If the first action on a backed legacy ledger is a migration listing all holders, supply = sum of balances after every mint, burn and migration that follows |
| NamespaceMigration.NonceSetBackExactly | contracts/resource-token/src/storage.rs:146-151 | A run of migrations sets an address's nonce back if and only if it is listed and its legacy nonce is nonzero and below the namespaced one |
| NamespaceMigration.NonceSetBack | contracts/resource-token/src/storage.rs:146-151 | Legacy nonce 1, namespaced nonce 7: afterwards 1 |
| NamespaceMigration.LegacyMigrationConserves | contracts/resource-token/src/storage.rs:119-160 | From a legacy-only state every run of migrations conserves balances and carries the supply over |
| NamespaceMigration.LegacyMigrationCompletes | contracts/resource-token/src/storage.rs:119-160 | Once all holders were listed the namespaced balances are the legacy ones account by account, and the supply is their sum if it was |

## Left out

- Soroban host concerns: key encoding, entry lifetimes, events, signatures and gas. Authorization is a given or a boolean parameter; who may migrate is not modelled.
- TariffFlow.CalculateFlowForPeriod: a walk that never ends is reported as an error; a checked build would panic at the wrapping boundary instead.
- MeterRuns.RunsAreFaithful: runs of 2^64 calls or more, which could exhaust the u64 sequence counter, are outside this and the theorems resting on it.
- TariffOracle.RunsAreConsistent: runs of 2^64 calls or more, which could exhaust the u64 proposal counter, are outside this and the theorems resting on it.
- MeterAggregator.Aggregator.RollupDay: the day product wraps as in a release build; a checked build would trap instead, leaving the state unchanged.
- NamespaceMigration.Storage.MigrateNamespace: operator changes between migrations enter only through the arbitrary starting state.
- A device's entries are one value that a call replaces, not separate storage keys; the entries of different devices share no key in the source either.
- The schedule hash, the audit fields of schedules and proposals, and the signature beyond its all-zero check.
- Settlement calls a hostile contract makes on the ledger under its own authority, outside the settlement contract.
- The ledger's own limit on a receiver's balance, and a ledger that moves other amounts than it is asked to.
- `get_fresh_rate`, `calculate_current_flow_rate`, `interval_product_fits_u128` and the view accessors: one expression each.
- The price oracle contract, operators and admin setters, enterprise, insurance, multisig and nonce modules, the meter simulator and the dashboard.
