/** What a whole script of an untrusted caller does from a clear lock, to every token's ledger:
    the account the running contract is measured against. */
module SettlementScripts {
  import opened Words
  import opened Conversion
  import opened SettlementEffects
  import opened SettlementLaws

  /** Each call-back takes place on the ledgers its predecessors left; a refused one is skipped if caught
      and aborts the script, with everything it did, if not. */
  function Ran(now: nat, ledgers: Ledgers, s: Script): Option<(Ledgers, OraclePrice)>
    decreases s
  {
    match s
    case Return(price) => Some((ledgers, price))
    case Trap => None
    case CallBack(e, caught, next) =>
      match Outcome(now, LedgerOf(ledgers, e.token.id), e)
      case Ok((b, _)) => Ran(now, ledgers[e.token.id := b], next)
      case Err(_) => if caught then Ran(now, ledgers, next) else None
  }

  /** The ledgers after any number of timed transactions: an aborted one leaves no trace. */
  function RanAll(ledgers: Ledgers, callers: seq<(nat, Script)>): Ledgers {
    if callers == [] then ledgers
    else
      var (now, caller) := callers[|callers| - 1];
      var before := RanAll(ledgers, callers[..|callers| - 1]);
      match Ran(now, before, caller)
      case Some((after, _)) => after
      case None => before
  }

  /** An absent ledger and an empty one are the same. */
  ghost predicate SameLedgers(x: Ledgers, y: Ledgers) {
    forall token :: LedgerOf(x, token) == LedgerOf(y, token)
  }

  ghost predicate SameRun(x: Option<(Ledgers, OraclePrice)>, y: Option<(Ledgers, OraclePrice)>) {
    match (x, y)
    case (None, None) => true
    case (Some((a, p)), Some((b, q))) => p == q && SameLedgers(a, b)
    case _ => false
  }

  lemma SameAfterWrite(x: Ledgers, y: Ledgers, token: Address, b: Balances)
    requires SameLedgers(x, y)
    ensures SameLedgers(x[token := b], y[token := b])
  {
    var x', y' := x[token := b], y[token := b];
    forall other ensures LedgerOf(x', other) == LedgerOf(y', other) {
      assert LedgerOf(x, other) == LedgerOf(y, other);
    }
  }

  lemma {:induction false} RunsAlike(now: nat, x: Ledgers, y: Ledgers, s: Script)
    requires SameLedgers(x, y)
    ensures SameRun(Ran(now, x, s), Ran(now, y, s))
    decreases s
  {
    if s.CallBack? {
      var id := s.entry.token.id;
      assert LedgerOf(x, id) == LedgerOf(y, id);
      match Outcome(now, LedgerOf(x, id), s.entry)
      case Ok((b, _)) =>
        SameAfterWrite(x, y, id, b);
        RunsAlike(now, x[id := b], y[id := b], s.next);
      case Err(_) =>
        RunsAlike(now, x, y, s.next);
    }
  }

  // ---------- Sequences of calls ----------

  /** A caller that makes the calls `es` in order, come what may. */
  function Calls(es: seq<Entry>): Script {
    if es == [] then Return(OraclePrice(0, 0)) else CallBack(es[0], true, Calls(es[1..]))
  }

  /** The ledgers after those calls: the successful ones applied one after another, the last one last. */
  function Applied(now: nat, ledgers: Ledgers, es: seq<Entry>): Ledgers {
    if es == [] then ledgers
    else
      var before, e := Applied(now, ledgers, es[..|es| - 1]), es[|es| - 1];
      match Outcome(now, LedgerOf(before, e.token.id), e)
      case Ok((b, _)) => before[e.token.id := b]
      case Err(_) => before
  }

  lemma {:induction false} AppliedFirst(now: nat, ledgers: Ledgers, es: seq<Entry>)
    requires es != []
    ensures Applied(now, ledgers, es) == Applied(now, Applied(now, ledgers, es[..1]), es[1..])
    decreases |es|
  {
    if |es| == 1 {
      assert es[..1] == es;
    } else {
      var init := es[..|es| - 1];
      AppliedFirst(now, ledgers, init);
      assert init[..1] == es[..1] && es[1..][..|es| - 2] == init[1..];
    }
  }

  /** A transaction of caught calls commits, with exactly the successful calls applied in order. */
  lemma {:induction false} CallsApplyInOrder(now: nat, ledgers: Ledgers, es: seq<Entry>)
    ensures Ran(now, ledgers, Calls(es)) == Some((Applied(now, ledgers, es), OraclePrice(0, 0)))
    decreases |es|
  {
    if es == [] {
    } else {
      AppliedFirst(now, ledgers, es);
      assert es[..1][..0] == [];
      CallsApplyInOrder(now, Applied(now, ledgers, es[..1]), es[1..]);
    }
  }

  /** A script that lets the refusal of any call through commits nothing. */
  lemma UncaughtRefusalAborts(now: nat, ledgers: Ledgers, e: Entry, next: Script)
    requires Outcome(now, LedgerOf(ledgers, e.token.id), e).Err?
    ensures RanAll(ledgers, [(now, CallBack(e, false, next))]) == ledgers
  {
    assert [(now, CallBack(e, false, next))][..0] == [];
  }
}
