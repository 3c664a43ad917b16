/** The oracle told as a history: what was announced when, and what was executed in which order. Every
    reachable state of `TariffOracle` is a function of that history, and so is the result of every call. */
module TariffHistory {
  import opened Words
  import opened TariffSchedule
  import opened TariffOracle

  datatype Start = Start(admin: Address, schedule: Schedule)

  datatype Announcement = Announcement(schedule: Schedule, proposer: Address, at: u64)

  /** Proposal number n is announcement n - 1; `executed` lists proposal numbers, the last one last. */
  datatype History = History(
    start: Option<Start>,
    announced: seq<Announcement>,
    executed: seq<u64>,
    copyHeld: bool)

  predicate CanExecute(h: History, now: u64, id: u64) {
    && h.start.Some?
    && 1 <= id <= |h.announced| && id !in h.executed
    && NoticeEnds(h.announced[id - 1].at) <= now
  }

  function Told(h: History, e: Event): History {
    match e.call
    case Initialize(admin, schedule) =>
      if h.start.None? && IsValidSchedule(schedule)
      then h.(start := Some(Start(admin, schedule)), copyHeld := true)
      else h
    case Propose(schedule, signature) =>
      if h.start.Some? && IsValidSchedule(schedule) && signature != 0
      then h.(announced := h.announced + [Announcement(schedule, h.start.value.admin, e.now)])
      else h
    case Execute(id) =>
      if CanExecute(h, e.now, id) then h.(executed := h.executed + [id], copyHeld := true) else h
    case TemporaryCopyExpires => h.(copyHeld := false)
  }

  function HistoryOf(trace: seq<Event>): History {
    if trace == [] then History(None, [], [], false)
    else Told(HistoryOf(trace[..|trace| - 1]), trace[|trace| - 1])
  }

  predicate WellFormed(h: History) {
    && |h.announced| < TWO64
    && (forall id :: id in h.executed ==> 1 <= id <= |h.announced|)
    && (h.start.None? ==> h.announced == [] && h.executed == [] && !h.copyHeld)
  }

  /** The schedule in force: that of the last execution, else the initial one. */
  function InForce(h: History): Option<Schedule>
    requires WellFormed(h)
  {
    if h.start.None? then None
    else if h.executed == [] then Some(h.start.value.schedule)
    else
      var last := h.executed[|h.executed| - 1];
      assert last in h.executed;
      Some(h.announced[last - 1].schedule)
  }

  function ProposalOf(h: History, id: u64): Proposal
    requires 1 <= id <= |h.announced|
  {
    var a := h.announced[id - 1];
    Proposal(a.schedule, a.proposer, a.at, NoticeEnds(a.at), id in h.executed)
  }

  function StateOf(h: History): State
    requires WellFormed(h)
  {
    State(
      if h.start.Some? then Some(h.start.value.admin) else None,
      InForce(h),
      if h.copyHeld then InForce(h) else None,
      |h.announced|,
      map id: u64 | 1 <= id <= |h.announced| :: ProposalOf(h, id))
  }

  // ---------- Every run ----------

  lemma AnnouncingKeepsInForce(h: History, a: Announcement)
    requires WellFormed(h) && h.start.Some? && |h.announced| + 1 < TWO64
    ensures var h' := h.(announced := h.announced + [a]);
            WellFormed(h') && InForce(h') == InForce(h)
  {
    if h.executed != [] {
      assert h.executed[|h.executed| - 1] in h.executed;
    }
  }

  lemma ProposeStep(h: History, now: u64, schedule: Schedule, signature: nat)
    requires WellFormed(h) && |h.announced| + 1 < TWO64
    ensures var e := Event(now, Propose(schedule, signature));
            WellFormed(Told(h, e)) && Apply(StateOf(h), e) == StateOf(Told(h, e))
  {
    var e := Event(now, Propose(schedule, signature));
    if h.start.Some? && IsValidSchedule(schedule) && signature != 0 {
      var id: u64 := |h.announced| + 1;
      var proposal := Proposal(schedule, h.start.value.admin, now, NoticeEnds(now), false);
      AnnouncingKeepsInForce(h, Announcement(schedule, h.start.value.admin, now));
      assert Proposed(StateOf(h), now, schedule, signature)
          == Ok((StateOf(h).(proposals := StateOf(h).proposals[id := proposal], proposalCounter := id), id));
      assert ProposalOf(Told(h, e), id) == proposal;
      assert StateOf(Told(h, e)).proposals == StateOf(h).proposals[id := proposal];
    }
  }

  lemma ExecuteStep(h: History, now: u64, id: u64)
    requires WellFormed(h)
    ensures var e := Event(now, Execute(id));
            WellFormed(Told(h, e)) && Apply(StateOf(h), e) == StateOf(Told(h, e))
  {
    var e := Event(now, Execute(id));
    if CanExecute(h, now, id) {
      assert StateOf(Told(h, e)).proposals == StateOf(h).proposals[id := ProposalOf(Told(h, e), id)];
    }
  }

  lemma TellStep(h: History, e: Event)
    requires WellFormed(h) && |h.announced| + 1 < TWO64
    ensures WellFormed(Told(h, e)) && |Told(h, e).announced| <= |h.announced| + 1
    ensures Apply(StateOf(h), e) == StateOf(Told(h, e))
  {
    match e.call
    case Initialize(_, _) =>
    case Propose(schedule, signature) => ProposeStep(h, e.now, schedule, signature);
    case Execute(id) => ExecuteStep(h, e.now, id);
    case TemporaryCopyExpires =>
  }

  /** The stored state after any run is the one its history tells: the schedule in force, in both
      copies, is that of the last successful execution, else the initial one; proposals are the
      announcements under their numbers, marked if executed and otherwise as announced. */
  lemma {:induction false} RunsTellTheirHistory(trace: seq<Event>)
    requires Admissible(trace)
    ensures WellFormed(HistoryOf(trace)) && |HistoryOf(trace).announced| <= |trace|
    ensures Run(trace) == StateOf(HistoryOf(trace))
  {
    if trace == [] {
      assert StateOf(HistoryOf(trace)).proposals == map[];
    } else {
      RunsTellTheirHistory(trace[..|trace| - 1]);
      TellStep(HistoryOf(trace[..|trace| - 1]), trace[|trace| - 1]);
    }
  }

  // ---------- Results of calls ----------

  /** A successful execution puts exactly its own schedule into both copies, marks its own proposal and
      leaves the rest as it was. */
  lemma ExecutionTakesEffect(st: State, now: u64, id: u64)
    requires Executed(st, now, id).Ok?
    ensures id in st.proposals && !st.proposals[id].isExecuted && st.proposals[id].executableAt <= now
    ensures var st' := Executed(st, now, id).value;
            && st'.current == st'.today == Some(st.proposals[id].newSchedule)
            && st'.proposals.Keys == st.proposals.Keys
            && (forall i :: i in st.proposals && i != id ==> st'.proposals[i] == st.proposals[i])
            && st'.proposals[id].isExecuted
            && st'.proposals[id].(isExecuted := false) == st.proposals[id]
            && (st'.admin, st'.proposalCounter) == (st.admin, st.proposalCounter)
  {
  }

  /** After any run an execution succeeds exactly for an announced, unexecuted and due proposal, and
      puts the schedule announced under that number in force; else it fails for the first reason. */
  lemma ExecuteExactly(trace: seq<Event>, now: u64, id: u64)
    requires Admissible(trace)
    ensures var r, h := Executed(Run(trace), now, id), HistoryOf(trace);
            if h.start.None? then r == Err(NotInitialized)
            else if !(1 <= id <= |h.announced|) then r == Err(NotFound)
            else if id in h.executed then r == Err(AlreadyExecuted)
            else if now < NoticeEnds(h.announced[id - 1].at) then r == Err(NoticePeriodNotMet)
            else r.Ok? && r.value.current == r.value.today == Some(h.announced[id - 1].schedule)
  {
    RunsTellTheirHistory(trace);
  }

  /** A proposal is accepted exactly from an initialized oracle, with a valid schedule and a signature
      that is not all zero, and gets the next number. */
  lemma ProposeExactly(trace: seq<Event>, now: u64, schedule: Schedule, signature: nat)
    requires Admissible(trace)
    ensures var r, h := Proposed(Run(trace), now, schedule, signature), HistoryOf(trace);
            if h.start.None? then r == Err(NotInitialized)
            else if !IsValidSchedule(schedule) then r == Err(InvalidTariffSchedule)
            else if signature == 0 then r == Err(InvalidSignature)
            else r.Ok? && r.value.1 == (|h.announced| + 1) % TWO64
                 && r.value.1 in r.value.0.proposals
                 && r.value.0.proposals[r.value.1]
                    == Proposal(schedule, h.start.value.admin, now, NoticeEnds(now), false)
  {
    RunsTellTheirHistory(trace);
  }

  lemma InitializeExactly(trace: seq<Event>, admin: Address, schedule: Schedule)
    requires Admissible(trace)
    ensures var r, h := Initialized(Run(trace), admin, schedule), HistoryOf(trace);
            if h.start.Some? then r == Err(AlreadyInitialized)
            else if !IsValidSchedule(schedule) then r == Err(InvalidTariffSchedule)
            else r == Ok(State(Some(admin), Some(schedule), Some(schedule), 0, map[]))
  {
    RunsTellTheirHistory(trace);
    if HistoryOf(trace).start.None? {
      assert Run(trace).proposals == map[];
    }
  }
}
