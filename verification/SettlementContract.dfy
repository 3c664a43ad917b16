/** The settlement entry points as they run: a stored lock, the tokens' ledgers moved in sequence, and control
    handed to untrusted callees that may re-enter. `contracts/settlement/src/lib.rs`,
    `contracts/settlement/src/reentrancy.rs`. */
module SettlementContract {
  import opened Words
  import opened MapSum
  import opened Fees
  import opened Conversion
  import opened SettlementEffects
  import opened SettlementLaws
  import opened SettlementScripts

  class Settlement {
    /** The `ReentrancyLock` entry; an absent entry reads as false. */
    var lock: bool
    /** The ledgers of the tokens, by token address. */
    var ledgers: Ledgers
    /** How many guarded entry-point frames are on the call stack at this moment. */
    ghost var active: nat

    /** Holds whenever control is with untrusted code or the environment. */
    ghost predicate Valid()
      reads this
    {
      active <= 1 && (lock <==> active == 1)
    }

    constructor (initial: Ledgers)
      ensures Valid() && !lock && ledgers == initial
    {
      lock, ledgers, active := false, initial, 0;
    }

    /** `ReentrancyGuard::new`: refused while the lock is held. */
    method AcquireGuard() returns (acquired: bool)
      requires Valid()
      modifies this
      ensures Valid() && ledgers == old(ledgers)
      ensures acquired <==> !old(lock)
      ensures lock && active == 1
    {
      if lock {
        return false;
      }
      lock := true;
      active := active + 1;
      return true;
    }

    /** The guard's `Drop`. */
    method DropGuard()
      requires Valid() && active == 1
      modifies this
      ensures Valid() && !lock && active == 0 && ledgers == old(ledgers)
    {
      lock := false;
      active := active - 1;
    }

    /** A whole invocation of an entry point, as the host runs it: on a trap every write of the
        frame is undone. Refused outright under the lock; otherwise exactly `Outcome`, lock clear. */
    method Invoke(now: nat, e: Entry) returns (r: Result<Settled, SettlementError>)
      requires Valid()
      modifies this
      ensures Valid() && lock == old(lock) && active == old(active)
      ensures old(lock) ==> r == Err(ReentrantCall) && ledgers == old(ledgers)
      ensures !old(lock) ==>
                match Outcome(now, LedgerOf(old(ledgers), e.token.id), e)
                case Ok((b, settled)) => r == Ok(settled) && Posted(old(ledgers), e.token.id, b, ledgers)
                case Err(error) => r == Err(error) && ledgers == old(ledgers)
      decreases e, 2
    {
      var lockBefore, ledgersBefore := lock, ledgers;
      var acquired := AcquireGuard();
      if !acquired {
        return Err(ReentrantCall);
      }
      if e.Settle? {
        r := SettleGuarded(now, e);
      } else {
        r := FinalizeGuarded(now, e);
      }
      if r.Ok? {
        DropGuard();
      } else {
        lock, ledgers := lockBefore, ledgersBefore;
        active := active - 1;
      }
    }

    /** The body of `settle`. */
    method SettleGuarded(now: nat, e: Entry) returns (r: Result<Settled, SettlementError>)
      requires Valid() && lock && e.Settle?
      modifies this
      ensures Valid() && lock && active == old(active)
      ensures match Outcome(now, LedgerOf(old(ledgers), e.token.id), e)
              case Ok((b, settled)) => r == Ok(settled) && Posted(old(ledgers), e.token.id, b, ledgers)
              case Err(error) => r == Err(error)
      decreases e, 1
    {
      if e.rateBps > MAX_FEE_RATE_BPS {
        return Err(InvalidFeeRate);
      }
      if e.amount <= 0 {
        return Ok(Settled(0, 0, 0));
      }
      var fee := CollectFee(now, e.token, e.payer, e.feeCollector, e.amount, e.rateBps);
      if fee.None? {
        return Err(CalleeTrap);
      }
      FeeFitsI128(e.amount, e.rateBps);
      var net := SaturatingSub(e.amount, fee.value);
      if net > 0 {
        var moved := TransferThrough(now, e.token, e.token.onNet, e.payer, e.payee, net);
        if !moved {
          return Err(CalleeTrap);
        }
      }
      return Ok(Settled(net, fee.value, 0));
    }

    /** The body of `finalize_settlement`: oracle, conversion, fee leg, net leg, in that order. */
    method FinalizeGuarded(now: nat, e: Entry) returns (r: Result<Settled, SettlementError>)
      requires Valid() && lock && e.FinalizeSettlement?
      modifies this
      ensures Valid() && lock && active == old(active)
      ensures match Outcome(now, LedgerOf(old(ledgers), e.token.id), e)
              case Ok((b, settled)) => r == Ok(settled) && Posted(old(ledgers), e.token.id, b, ledgers)
              case Err(error) => r == Err(error)
      decreases e, 1
    {
      if e.rateBps > MAX_FEE_RATE_BPS {
        return Err(InvalidFeeRate);
      }
      if e.volume <= 0 {
        return Ok(Settled(0, 0, 0));
      }
      var price := RunScript(now, e.oracle);
      if price.None? {
        return Err(CalleeTrap);
      }
      var rate := ResolveRate(now, price.value);
      var amount := Convert(rate, e.volume, e.minExpected);
      if amount.Err? {
        return Err(amount.error);
      }
      var fee := CollectFee(now, e.token, e.payer, e.feeCollector, amount.value, e.rateBps);
      if fee.None? {
        return Err(CalleeTrap);
      }
      FeeFitsI128(amount.value, e.rateBps);
      var net := SaturatingSub(amount.value, fee.value);
      if net > 0 {
        var moved := TransferThrough(now, e.token, e.token.onNet, e.payer, e.payee, net);
        if !moved {
          return Err(CalleeTrap);
        }
      }
      return Ok(Settled(net, fee.value, rate));
    }

    /** `collect_fee`: `None` when the token's transfer traps. */
    method CollectFee(now: nat, token: Token, payer: Address, feeCollector: Address, amount: i128, rateBps: nat)
      returns (r: Option<int>)
      requires Valid() && lock
      modifies this
      ensures Valid() && lock && active == old(active)
      ensures match FeeCollected(LedgerOf(old(ledgers), token.id), token, payer, feeCollector, amount, rateBps)
              case Some((b, fee)) => r == Some(fee) && Posted(old(ledgers), token.id, b, ledgers)
              case None => r == None
      decreases token, 5
    {
      if rateBps == 0 {
        return Some(0);
      }
      var fee := ComputeFee(amount, rateBps);
      if fee == 0 {
        return Some(0);
      }
      var moved := TransferThrough(now, token, token.onFee, payer, feeCollector, fee);
      return if moved then Some(fee) else None;
    }

    /** The token's `transfer`: its own code may call back before and after the ledger moves. */
    method TransferThrough(now: nat, token: Token, hooks: Hooks, from: Address, to: Address, amount: int)
      returns (moved: bool)
      requires Valid() && lock
      modifies this
      ensures Valid() && lock && active == old(active)
      ensures match TokenTransferred(LedgerOf(old(ledgers), token.id), token.moves, hooks, from, to, amount)
              case Some(b) => moved && Posted(old(ledgers), token.id, b, ledgers)
              case None => !moved
      decreases hooks, 4
    {
      var returned := RunScript(now, hooks.before);
      if returned.None? {
        return false;
      }
      if token.moves {
        moved := Transfer(token.id, from, to, amount);
        if !moved {
          return false;
        }
      }
      returned := RunScript(now, hooks.after);
      return returned.Some?;
    }

    /** The ledger of one token moves, if it can. */
    method Transfer(token: Address, from: Address, to: Address, amount: int) returns (moved: bool)
      modifies this`ledgers
      ensures match Transferred(LedgerOf(old(ledgers), token), from, to, amount)
              case Some(b) => moved && Posted(old(ledgers), token, b, ledgers)
              case None => !moved && ledgers == old(ledgers)
    {
      var balances := LedgerOf(ledgers, token);
      if amount < 0 || Get(balances, from) < amount {
        return false;
      }
      balances := balances[from := Get(balances, from) - amount];
      balances := balances[to := Get(balances, to) + amount];
      ledgers := ledgers[token := balances];
      return true;
    }

    /** An untrusted frame: `None` when it traps, with its writes undone. Every call-back it makes
        starts and ends in a state with at most one guarded frame, the lock telling which.
        Under the lock no call-back gets anywhere; outside it they take place as the script says, and
        every token is still conserved. */
    method RunScript(now: nat, s: Script) returns (r: Option<OraclePrice>)
      requires Valid()
      modifies this
      ensures Valid() && lock == old(lock) && active == old(active)
      ensures old(lock) ==> ledgers == old(ledgers)
      ensures old(lock) ==> r == if Survives(s) then Some(ReturnedPrice(s)) else None
      ensures !old(lock) ==>
                match Ran(now, old(ledgers), s)
                case Some((after, price)) => r == Some(price) && SameLedgers(ledgers, after)
                case None => r == None
      ensures r.None? ==> ledgers == old(ledgers)
      ensures Conserved(old(ledgers), ledgers)
      decreases s, 3
    {
      match s
      case Return(price) => return Some(price);
      case Trap => return None;
      case CallBack(entry, caught, next) =>
        var before := ledgers;
        var nested := Invoke(now, entry);
        if nested.Err? && !caught {
          return None;
        }
        ghost var between := ledgers;
        if nested.Ok? {
          PostedConserves(now, before, entry, ledgers);
          var b := Outcome(now, LedgerOf(before, entry.token.id), entry).value.0;
          RunsAlike(now, between, before[entry.token.id := b], next);
        }
        r := RunScript(now, next);
        if r.None? {
          ledgers := before;
        }
    }

    /** A transaction: any untrusted top-level caller, from a clear lock. Whatever the outcome,
        the lock is clear again and no frame is left. */
    method RunTransaction(now: nat, caller: Script) returns (r: Option<OraclePrice>)
      requires Valid() && !lock
      modifies this
      ensures Valid() && !lock && active == 0
      ensures match Ran(now, old(ledgers), caller)
              case Some((after, price)) => r == Some(price) && SameLedgers(ledgers, after)
              case None => r == None && ledgers == old(ledgers)
      ensures Conserved(old(ledgers), ledgers)
    {
      r := RunScript(now, caller);
    }

    /** A ledger history: any number of timed transactions, one after another. */
    method RunTransactions(callers: seq<(nat, Script)>)
      requires Valid() && !lock
      modifies this
      ensures Valid() && !lock && active == 0
      ensures SameLedgers(ledgers, RanAll(old(ledgers), callers))
      ensures Conserved(old(ledgers), ledgers)
    {
      for i := 0 to |callers|
        invariant Valid() && !lock
        invariant SameLedgers(ledgers, RanAll(old(ledgers), callers[..i]))
        invariant Conserved(old(ledgers), ledgers)
      {
        ghost var told := RanAll(old(ledgers), callers[..i]);
        RunsAlike(callers[i].0, ledgers, told, callers[i].1);
        assert callers[..i + 1][..i] == callers[..i];
        var outcome := RunTransaction(callers[i].0, callers[i].1);
      }
      assert callers[..|callers|] == callers;
    }
  }
}
