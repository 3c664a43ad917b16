/** The oracle's stored state: initialization, announced updates, and the two copies of the
    schedule. The temporary copy may be dropped by the ledger at any time. */
module TariffOracle {
  import opened Words
  import opened TariffSchedule
  import TariffFlow

  const TARIFF_NOTICE_PERIOD: nat := 24 * 60 * 60

  datatype OracleError =
    | AlreadyInitialized | NotInitialized | InvalidTariffSchedule | InvalidSignature
    | NotFound | AlreadyExecuted | NoticePeriodNotMet | NoCurrentSchedule

  datatype Proposal = Proposal(
    newSchedule: Schedule,
    proposedBy: Address,
    createdAt: u64,
    executableAt: u64,
    isExecuted: bool)

  datatype State = State(
    admin: Option<Address>,
    current: Option<Schedule>,
    today: Option<Schedule>,
    proposalCounter: u64,
    proposals: map<u64, Proposal>)

  const EMPTY: State := State(None, None, None, 0, map[])

  // ---------- Transitions ----------

  function Initialized(st: State, gridAdmin: Address, schedule: Schedule): Result<State, OracleError> {
    if st.admin.Some? then Err(AlreadyInitialized)
    else if !IsValidSchedule(schedule) then Err(InvalidTariffSchedule)
    else Ok(st.(admin := Some(gridAdmin), current := Some(schedule), proposalCounter := 0, today := Some(schedule)))
  }

  /** When an announcement made at `now` may be executed: the u64 sum wraps on the last day of the clock. */
  function NoticeEnds(now: u64): (t: u64)
    ensures now + TARIFF_NOTICE_PERIOD < TWO64 ==> t == now + TARIFF_NOTICE_PERIOD
    ensures now + TARIFF_NOTICE_PERIOD >= TWO64 ==> t < now
  {
    (now + TARIFF_NOTICE_PERIOD) % TWO64
  }

  /** `signature` is the 64-byte signature read as a number; only the all-zero one is refused. */
  function Proposed(st: State, now: u64, schedule: Schedule, signature: nat): Result<(State, u64), OracleError> {
    if st.admin.None? then Err(NotInitialized)
    else if !IsValidSchedule(schedule) then Err(InvalidTariffSchedule)
    else if signature == 0 then Err(InvalidSignature)
    else
      var id: u64 := (st.proposalCounter + 1) % TWO64;
      var proposal := Proposal(schedule, st.admin.value, now, NoticeEnds(now), false);
      Ok((st.(proposals := st.proposals[id := proposal], proposalCounter := id), id))
  }

  function Executed(st: State, now: u64, id: u64): Result<State, OracleError> {
    if st.admin.None? then Err(NotInitialized)
    else if id !in st.proposals then Err(NotFound)
    else if st.proposals[id].isExecuted then Err(AlreadyExecuted)
    else if now < st.proposals[id].executableAt then Err(NoticePeriodNotMet)
    else if st.current.None? then Err(NoCurrentSchedule)
    else
      var p := st.proposals[id];
      Ok(st.(current := Some(p.newSchedule), today := Some(p.newSchedule),
             proposals := st.proposals[id := p.(isExecuted := true)]))
  }

  /** The schedule `get_current_tariff` consults: temporary copy, else persistent copy, else default. */
  function ConsultedSchedule(st: State): Schedule {
    if st.today.Some? then st.today.value
    else if st.current.Some? then st.current.value
    else DefaultSchedule()
  }

  /** `get_current_schedule`, which reads only the persistent copy. */
  function PersistentSchedule(st: State): Schedule {
    if st.current.Some? then st.current.value else DefaultSchedule()
  }

  lemma DefaultIsValid()
    ensures IsValidSchedule(DefaultSchedule())
  {
  }

  // ---------- Runs ----------

  datatype Call =
    | Initialize(gridAdmin: Address, schedule: Schedule)
    | Propose(newSchedule: Schedule, signature: nat)
    | Execute(id: u64)
    | TemporaryCopyExpires

  datatype Event = Event(now: u64, call: Call)

  /** A trapping call leaves the state as it was. */
  function Apply(st: State, e: Event): State {
    match e.call
    case Initialize(a, s) => (match Initialized(st, a, s) case Ok(st') => st' case Err(_) => st)
    case Propose(s, sig) => (match Proposed(st, e.now, s, sig) case Ok(r) => r.0 case Err(_) => st)
    case Execute(id) => (match Executed(st, e.now, id) case Ok(st') => st' case Err(_) => st)
    case TemporaryCopyExpires => st.(today := None)
  }

  function Run(trace: seq<Event>): State {
    if trace == [] then EMPTY else Apply(Run(trace[..|trace| - 1]), trace[|trace| - 1])
  }

  /** Too few calls to exhaust the u64 proposal counter. */
  predicate Admissible(trace: seq<Event>) {
    |trace| < TWO64
  }

  /** `e` is the call that announced `p` and named its execution time. */
  ghost predicate Announced(p: Proposal, e: Event) {
    && e.call.Propose? && e.call.newSchedule == p.newSchedule
    && p.createdAt == e.now && p.executableAt == NoticeEnds(e.now)
  }

  ghost predicate Consistent(st: State) {
    && (st.admin.None? <==> st.current.None?)
    && (st.admin.None? ==> st.proposals == map[] && st.today.None?)
    && (st.today.Some? ==> st.today == st.current)
    && (st.current.Some? ==> IsValidSchedule(st.current.value))
    && (forall id :: id in st.proposals <==> 1 <= id <= st.proposalCounter)
    && (forall id :: id in st.proposals ==> IsValidSchedule(st.proposals[id].newSchedule))
  }

  lemma {:induction false} RunsAreConsistent(trace: seq<Event>)
    requires Admissible(trace)
    ensures Consistent(Run(trace)) && Run(trace).proposalCounter <= |trace|
  {
    if trace == [] {
    } else {
      RunsAreConsistent(trace[..|trace| - 1]);
    }
  }

  // ---------- The temporary copy ----------

  ghost predicate SameButToday(st: State, st': State) {
    st.(today := None) == st'.(today := None)
  }

  lemma {:induction false} LossChangesOnlyToday(trace: seq<Event>, loss: Event, more: seq<Event>)
    requires loss.call == TemporaryCopyExpires
    ensures SameButToday(Run(trace + [loss] + more), Run(trace + more))
    decreases |more|
  {
    if more == [] {
      assert (trace + [loss] + more)[..|trace|] == trace;
      assert trace + more == trace;
    } else {
      var m := more[..|more| - 1];
      LossChangesOnlyToday(trace, loss, m);
      assert (trace + [loss] + more)[..|trace + [loss] + m|] == trace + [loss] + m;
      assert (trace + more)[..|trace + m|] == trace + m;
    }
  }

  /** In every reachable state both copies give the same tariff for every hour. And losing the
      temporary copy at any point of a run changes no answer then or at any later point: the two runs
      differ in nothing but that copy, and consult the same valid schedule. */
  lemma CopiesAgree(trace: seq<Event>, loss: Event, more: seq<Event>)
    requires loss.call == TemporaryCopyExpires && Admissible(trace + [loss] + more)
    ensures var without, with := Run(trace + [loss] + more), Run(trace + more);
            && SameButToday(without, with)
            && ConsultedSchedule(with) == PersistentSchedule(with)
            && ConsultedSchedule(without) == ConsultedSchedule(with)
            && IsValidSchedule(ConsultedSchedule(with))
  {
    RunsAreConsistent(trace + [loss] + more);
    RunsAreConsistent(trace + more);
    LossChangesOnlyToday(trace, loss, more);
    DefaultIsValid();
  }

  // ---------- Notice ----------

  /** A proposal waits for its full notice period exactly when that ends inside u64; announced later
      it can be executed at once. */
  lemma NoticeKeptExactly(st: State, now: u64, schedule: Schedule, signature: nat)
    requires st.current.Some? && Proposed(st, now, schedule, signature).Ok?
    ensures var (st', id) := Proposed(st, now, schedule, signature).value;
            && ((forall t: u64 :: now <= t && Executed(st', t, id).Ok? ==> t >= now + 86_400)
                <==> now + 86_400 < TWO64)
            && (Executed(st', now, id).Ok? <==> now + 86_400 >= TWO64)
            && forall t: u64 :: Executed(st', t, id).Ok? <==>
                 t >= (if now + 86_400 < TWO64 then now + 86_400 else now + 86_400 - TWO64)
  {
    var (st', id) := Proposed(st, now, schedule, signature).value;
    assert Executed(st', now, id).Ok? <==> now >= NoticeEnds(now);
  }

  lemma {:induction false} ProposalsWereAnnounced(trace: seq<Event>, id: u64) returns (i: nat)
    requires Admissible(trace) && id in Run(trace).proposals
    ensures i < |trace| && Announced(Run(trace).proposals[id], trace[i])
  {
    var n := |trace| - 1;
    var before := Run(trace[..n]);
    RunsAreConsistent(trace[..n]);
    if id in before.proposals {
      i := ProposalsWereAnnounced(trace[..n], id);
    } else {
      i := n;
    }
  }

  /** `announce` is on the last day of the u64 clock, or a full notice period before `now`. */
  predicate NoticeGiven(announce: u64, now: u64) {
    announce + 86_400 < TWO64 ==> announce + 86_400 <= now
  }

  /** `e` executes a so far unexecuted proposal, whose schedule was announced a notice period earlier. */
  ghost predicate TakesUpAnnouncement(trace: seq<Event>, e: Event) {
    && e.call.Execute? && e.call.id in Run(trace).proposals
    && var p := Run(trace).proposals[e.call.id];
    && !p.isExecuted
    && Apply(Run(trace), e).proposals == Run(trace).proposals[e.call.id := p.(isExecuted := true)]
    && Apply(Run(trace), e).current == Some(p.newSchedule)
    && exists i :: 0 <= i < |trace| && Announced(p, trace[i]) && NoticeGiven(trace[i].now, e.now)
  }

  /** After initialization the schedule in force changes in no other way. */
  lemma ChangesAreAnnouncedAhead(trace: seq<Event>, e: Event)
    requires Admissible(trace)
    requires Run(trace).current.Some? && Apply(Run(trace), e).current != Run(trace).current
    ensures TakesUpAnnouncement(trace, e)
  {
    RunsAreConsistent(trace);
    if e.call.Execute? {
      var i := ProposalsWereAnnounced(trace, e.call.id);
    }
  }

  const LAST_DAY: u64 := TWO64 - TARIFF_NOTICE_PERIOD

  lemma RunOneMore(trace: seq<Event>, e: Event)
    ensures Run(trace + [e]) == Apply(Run(trace), e)
  {
    assert (trace + [e])[..|trace|] == trace;
  }

  /** On that last day one instant suffices: initialized, announced and in force at the same time. */
  lemma ChangedWithoutNotice(gridAdmin: Address, first: ValidSchedule, second: ValidSchedule)
    ensures var trace := [Event(LAST_DAY, Initialize(gridAdmin, first)), Event(LAST_DAY, Propose(second, 1))];
            Run(trace).current == Some(first) && Run(trace + [Event(LAST_DAY, Execute(1))]).current == Some(second)
  {
    var initialize, propose := Event(LAST_DAY, Initialize(gridAdmin, first)), Event(LAST_DAY, Propose(second, 1));
    RunOneMore([], initialize);
    RunOneMore([initialize], propose);
    assert [] + [initialize] == [initialize] && [initialize] + [propose] == [initialize, propose];
    RunOneMore([initialize, propose], Event(LAST_DAY, Execute(1)));
  }

  /** A proposal takes effect at most once: once executed, it stays so and every retry fails. */
  lemma {:induction false} ExecutedOnce(trace: seq<Event>, more: seq<Event>, id: u64, now: u64)
    requires Admissible(trace + more) && id in Run(trace).proposals && Run(trace).proposals[id].isExecuted
    ensures id in Run(trace + more).proposals && Run(trace + more).proposals[id] == Run(trace).proposals[id]
    ensures Executed(Run(trace + more), now, id).Err?
    decreases |more|
  {
    if more == [] {
      assert trace + more == trace;
    } else {
      var m := more[..|more| - 1];
      ExecutedOnce(trace, m, id, now);
      RunsAreConsistent(trace + m);
      assert (trace + more)[..|trace + more| - 1] == trace + m;
    }
  }

  // ---------- The contract ----------

  class Oracle {
    var admin: Option<Address>
    var currentSchedule: Option<Schedule>
    var todaySchedule: Option<Schedule>
    var proposalCounter: u64
    var proposals: map<u64, Proposal>

    function Contents(): State
      reads this
    {
      State(admin, currentSchedule, todaySchedule, proposalCounter, proposals)
    }

    constructor ()
      ensures Contents() == EMPTY
    {
      admin, currentSchedule, todaySchedule, proposalCounter, proposals := None, None, None, 0, map[];
    }

    method Initialize(gridAdmin: Address, initialSchedule: Schedule) returns (r: Result<(), OracleError>)
      modifies this
      ensures match Initialized(old(Contents()), gridAdmin, initialSchedule)
              case Ok(st) => r == Ok(()) && Contents() == st
              case Err(e) => r == Err(e) && Contents() == old(Contents())
    {
      if admin.Some? {
        return Err(AlreadyInitialized);
      }
      var valid := ValidateTariffSchedule(initialSchedule);
      if !valid {
        return Err(InvalidTariffSchedule);
      }
      admin := Some(gridAdmin);
      currentSchedule := Some(initialSchedule);
      proposalCounter := 0;
      todaySchedule := Some(initialSchedule);
      return Ok(());
    }

    method ProposeTariffUpdate(now: u64, newSchedule: Schedule, adminSignature: nat)
      returns (r: Result<u64, OracleError>)
      modifies this
      ensures match Proposed(old(Contents()), now, newSchedule, adminSignature)
              case Ok((st, id)) => r == Ok(id) && Contents() == st
              case Err(e) => r == Err(e) && Contents() == old(Contents())
    {
      if admin.None? {
        return Err(NotInitialized);
      }
      var valid := ValidateTariffSchedule(newSchedule);
      if !valid {
        return Err(InvalidTariffSchedule);
      }
      if adminSignature == 0 {
        return Err(InvalidSignature);
      }
      var nextId: u64 := (proposalCounter + 1) % TWO64;
      var proposal := Proposal(newSchedule, admin.value, now, (now + TARIFF_NOTICE_PERIOD) % TWO64, false);
      proposals := proposals[nextId := proposal];
      proposalCounter := nextId;
      return Ok(nextId);
    }

    method ExecuteTariffUpdate(now: u64, proposalId: u64) returns (r: Result<(), OracleError>)
      modifies this
      ensures match Executed(old(Contents()), now, proposalId)
              case Ok(st) => r == Ok(()) && Contents() == st
              case Err(e) => r == Err(e) && Contents() == old(Contents())
    {
      if admin.None? {
        return Err(NotInitialized);
      }
      if proposalId !in proposals {
        return Err(NotFound);
      }
      var proposal := proposals[proposalId];
      if proposal.isExecuted {
        return Err(AlreadyExecuted);
      }
      if now < proposal.executableAt {
        return Err(NoticePeriodNotMet);
      }
      if currentSchedule.None? {
        return Err(NoCurrentSchedule);
      }
      currentSchedule := Some(proposal.newSchedule);
      todaySchedule := Some(proposal.newSchedule);
      proposals := proposals[proposalId := proposal.(isExecuted := true)];
      return Ok(());
    }

    /** `get_current_tariff`: temporary copy first, then the persistent one, then the default. */
    method GetCurrentTariff(hour: nat) returns (r: Option<HourlyTariff>)
      requires Consistent(Contents())
      ensures r.Some? <==> hour < HOURS_IN_DAY
      ensures IsValidSchedule(PersistentSchedule(Contents()))
      ensures r.Some? ==> r.value == PersistentSchedule(Contents()).hourlyRates[hour]
                          && r.value.hour == hour && r.value.rateCentsPerKwh > 0
    {
      DefaultIsValid();
      if hour >= HOURS_IN_DAY {
        return None;
      }
      if todaySchedule.Some? {
        return Some(todaySchedule.value.hourlyRates[hour]);
      }
      if currentSchedule.Some? {
        return Some(currentSchedule.value.hourlyRates[hour]);
      }
      return Some(DefaultSchedule().hourlyRates[hour]);
    }

    /** A period is billed by whichever copy is found; on consistent state that is one schedule. */
    method CalculateFlowForPeriod(start: u64, end: u64, consumption: i128)
      returns (r: Result<TariffFlow.FlowResult, TariffFlow.FlowError>)
      requires Consistent(Contents())
      ensures IsValidSchedule(PersistentSchedule(Contents()))
      ensures r.Ok? <==> start < end <= TWO64 - 16
      ensures r.Ok? ==>
                && TariffFlow.Billed(PersistentSchedule(Contents()), consumption, start, end, r.value)
                && r.value.totalTokens
                   == TariffFlow.Accumulated(PersistentSchedule(Contents()), consumption, start, end, 0)
    {
      DefaultIsValid();
      r := TariffFlow.CalculateFlowForPeriod(ConsultedSchedule(Contents()), start, end, consumption);
      match r {
        case Ok(_) =>
        case Err(InvalidPeriod) =>
        case Err(NeverReturns) =>
      }
    }
  }
}
