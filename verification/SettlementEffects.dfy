/** What one guarded settlement does, given callees that may be hostile:
    `contracts/settlement/src/lib.rs` and `contracts/settlement/src/token_utils.rs`. */
module SettlementEffects {
  import opened Words
  import opened MapSum
  import opened Fees
  import opened Conversion

  /** What an untrusted contract does when it is given control: calls back into the settlement
      contract any number of times, catching or propagating each failure, then returns or traps.
      The callee's own decisions are resolved: every actual execution follows some script. */
  datatype Script =
    | Return(price: OraclePrice)
    | Trap
    | CallBack(entry: Entry, caught: bool, next: Script)

  /** What a token runs before and after the work of one transfer. */
  datatype Hooks = Hooks(before: Script, after: Script)

  /** The settlement token at address `id`: it either keeps its ledger or moves nothing, and either
      way may call back during the fee transfer and the net transfer. */
  datatype Token = Token(id: Address, moves: bool, onFee: Hooks, onNet: Hooks)

  const QUIET: Hooks := Hooks(Return(OraclePrice(0, 0)), Return(OraclePrice(0, 0)))

  /** An ordinary ledger, which calls nobody. */
  const PLAIN: Token := Token(Address(0), true, QUIET, QUIET)

  datatype Entry =
    | Settle(token: Token, payer: Address, payee: Address, feeCollector: Address, amount: i128, rateBps: nat)
    | FinalizeSettlement(
        oracle: Script, token: Token, payer: Address, feeCollector: Address,
        volume: i128, payee: Address, minExpected: Option<i128>, rateBps: nat)

  datatype Settled = Settled(net: i128, fee: int, rateUsed: i128)

  type Balances = map<Address, int>

  /** A ledger transfer: negative and uncovered amounts are refused. */
  function Transferred(b: Balances, from: Address, to: Address, amount: int): Option<Balances> {
    if amount < 0 || Get(b, from) < amount then None
    else
      var debited := b[from := Get(b, from) - amount];
      Some(debited[to := Get(debited, to) + amount])
  }

  /** Whether a script run while the lock is held returns: every call-back it makes is refused. */
  predicate Survives(s: Script) {
    match s
    case Return(_) => true
    case Trap => false
    case CallBack(_, caught, next) => caught && Survives(next)
  }

  function ReturnedPrice(s: Script): OraclePrice
    requires Survives(s)
  {
    match s
    case Return(price) => price
    case CallBack(_, _, next) => ReturnedPrice(next)
  }

  /** One `transfer` call on a token, with the lock held. */
  function TokenTransferred(b: Balances, moves: bool, hooks: Hooks, from: Address, to: Address, amount: int)
    : Option<Balances>
  {
    var moved := if moves then Transferred(b, from, to, amount) else Some(b);
    if Survives(hooks.before) && moved.Some? && Survives(hooks.after) then moved else None
  }

  /** The fee `collect_fee` charges: nothing at rate zero. */
  function FeeCharged(amount: i128, rateBps: nat): int {
    if rateBps == 0 then 0 else ComputeFee(amount, rateBps)
  }

  function FeeCollected(b: Balances, t: Token, payer: Address, collector: Address, amount: i128, rateBps: nat)
    : Option<(Balances, int)>
  {
    var fee := FeeCharged(amount, rateBps);
    if fee == 0 then Some((b, 0))
    else
      var r := TokenTransferred(b, t.moves, t.onFee, payer, collector, fee);
      if r.None? then None else Some((r.value, fee))
  }

  lemma FeeFitsI128(amount: i128, rateBps: nat)
    ensures FitsI128(FeeCharged(amount, rateBps))
  {
    TruncDivFits(WrapI128(WrapI128(amount * rateBps) + 5000), BPS_DENOMINATOR);
  }

  function Net(amount: i128, rateBps: nat): i128 {
    FeeFitsI128(amount, rateBps);
    SaturatingSub(amount, FeeCharged(amount, rateBps))
  }

  /** Both legs: the fee to the collector, then a positive net to the payee. */
  function Paid(b: Balances, t: Token, payer: Address, payee: Address, collector: Address,
                amount: i128, rateBps: nat): Option<Balances>
  {
    var afterFee := FeeCollected(b, t, payer, collector, amount, rateBps);
    if afterFee.None? then None
    else if Net(amount, rateBps) > 0
    then TokenTransferred(afterFee.value.0, t.moves, t.onNet, payer, payee, Net(amount, rateBps))
    else Some(afterFee.value.0)
  }

  function RateFrom(now: nat, oracle: Script): Result<i128, SettlementError> {
    if Survives(oracle) then Ok(ResolveRate(now, ReturnedPrice(oracle))) else Err(CalleeTrap)
  }

  /** The result of an entry point that got the lock; `b` is the ledger of its token, and what the
      call leaves of it comes with a success. */
  function Outcome(now: nat, b: Balances, e: Entry): Result<(Balances, Settled), SettlementError> {
    if e.rateBps > MAX_FEE_RATE_BPS then Err(InvalidFeeRate)
    else match e
      case Settle(t, payer, payee, collector, amount, rateBps) =>
        if amount <= 0 then Ok((b, Settled(0, 0, 0)))
        else
          var paid := Paid(b, t, payer, payee, collector, amount, rateBps);
          if paid.None? then Err(CalleeTrap)
          else Ok((paid.value, Settled(Net(amount, rateBps), FeeCharged(amount, rateBps), 0)))
      case FinalizeSettlement(oracle, t, payer, collector, volume, payee, minExpected, rateBps) =>
        if volume <= 0 then Ok((b, Settled(0, 0, 0)))
        else
          var rate := RateFrom(now, oracle);
          if rate.Err? then Err(rate.error)
          else
            var amount := Convert(rate.value, volume, minExpected);
            if amount.Err? then Err(amount.error)
            else
              var paid := Paid(b, t, payer, payee, collector, amount.value, rateBps);
              if paid.None? then Err(CalleeTrap)
              else Ok((paid.value, Settled(Net(amount.value, rateBps), FeeCharged(amount.value, rateBps), rate.value)))
  }

  // ---------- Non-interference of re-entrant calls ----------

  /** Two scripts that differ only in which entry points they try to re-enter. */
  ghost predicate SameVisible(s: Script, t: Script) {
    match (s, t)
    case (Return(p), Return(q)) => p == q
    case (Trap, Trap) => true
    case (CallBack(_, c, s'), CallBack(_, d, t')) => c == d && SameVisible(s', t')
    case _ => false
  }

  ghost predicate SameVisibleHooks(h: Hooks, k: Hooks) {
    SameVisible(h.before, k.before) && SameVisible(h.after, k.after)
  }

  ghost predicate SameVisibleToken(t: Token, u: Token) {
    t.id == u.id && t.moves == u.moves && SameVisibleHooks(t.onFee, u.onFee) && SameVisibleHooks(t.onNet, u.onNet)
  }

  lemma {:induction false} AttemptsAreInert(s: Script, t: Script)
    requires SameVisible(s, t)
    ensures Survives(s) == Survives(t)
    ensures Survives(s) ==> ReturnedPrice(s) == ReturnedPrice(t)
  {
    if s.CallBack? {
      AttemptsAreInert(s.next, t.next);
    }
  }

  /** Equal calls, except for the re-entries their callees attempt. */
  ghost predicate SameVisibleEntry(e: Entry, f: Entry) {
    match (e, f)
    case (Settle(t, p, q, c, a, r), Settle(t', p', q', c', a', r')) =>
      SameVisibleToken(t, t') && (p, q, c, a, r) == (p', q', c', a', r')
    case (FinalizeSettlement(o, t, p, c, v, q, m, r), FinalizeSettlement(o', t', p', c', v', q', m', r')) =>
      SameVisible(o, o') && SameVisibleToken(t, t') && (p, c, v, q, m, r) == (p', c', v', q', m', r')
    case _ => false
  }

  lemma TokenAttemptsAreInert(b: Balances, t: Token, u: Token, payer: Address, payee: Address, collector: Address,
                              amount: i128, rateBps: nat)
    requires SameVisibleToken(t, u)
    ensures Paid(b, t, payer, payee, collector, amount, rateBps) == Paid(b, u, payer, payee, collector, amount, rateBps)
  {
    AttemptsAreInert(t.onFee.before, u.onFee.before);
    AttemptsAreInert(t.onFee.after, u.onFee.after);
    AttemptsAreInert(t.onNet.before, u.onNet.before);
    AttemptsAreInert(t.onNet.after, u.onNet.after);
  }

  /** What callees try to re-enter, and with what arguments, has no influence on the outcome. */
  lemma ReentryHasNoInfluence(now: nat, b: Balances, e: Entry, f: Entry)
    requires SameVisibleEntry(e, f)
    ensures Outcome(now, b, e) == Outcome(now, b, f)
  {
    match e
    case Settle(t, payer, payee, collector, amount, rateBps) =>
      TokenAttemptsAreInert(b, t, f.token, payer, payee, collector, amount, rateBps);
    case FinalizeSettlement(o, t, payer, collector, volume, payee, minExpected, rateBps) =>
      AttemptsAreInert(o, f.oracle);
      if Survives(o) {
        var amount := Convert(ResolveRate(now, ReturnedPrice(o)), volume, minExpected);
        if amount.Ok? {
          TokenAttemptsAreInert(b, t, f.token, payer, payee, collector, amount.value, rateBps);
        }
      }
  }

  // ---------- When re-entry aborts ----------

  /** Some call-back under the lock is refused and the refusal not caught. */
  predicate PropagatesRefusal(s: Script) {
    s.CallBack? && (!s.caught || PropagatesRefusal(s.next))
  }

  /** Every refusal on the way is caught, and the script traps of its own accord. */
  predicate TrapsItself(s: Script) {
    match s
    case Return(_) => false
    case Trap => true
    case CallBack(_, caught, next) => caught && TrapsItself(next)
  }

  /** Under the lock a frame aborts for one of two reasons, never both. */
  lemma {:induction false} FrameAbortsExactly(s: Script)
    ensures !Survives(s) <==> PropagatesRefusal(s) || TrapsItself(s)
    ensures !(PropagatesRefusal(s) && TrapsItself(s))
  {
    if s.CallBack? {
      FrameAbortsExactly(s.next);
    }
  }

  /** A re-entering oracle aborts a finalization exactly when it lets a refusal through (or traps anyway). */
  lemma OracleAbortsExactly(now: nat, b: Balances, e: Entry)
    requires e.FinalizeSettlement? && e.rateBps <= MAX_FEE_RATE_BPS && e.volume > 0
    ensures RateFrom(now, e.oracle).Err? <==> PropagatesRefusal(e.oracle) || TrapsItself(e.oracle)
    ensures RateFrom(now, e.oracle).Err? ==> Outcome(now, b, e) == Err(CalleeTrap)
  {
    FrameAbortsExactly(e.oracle);
  }

  /** Re-entry alone does not abort the transaction: an oracle that re-enters and catches the
      refusal leaves the settlement to complete and to pay. */
  lemma CaughtReentryCompletes(now: nat, b: Balances, inner: Entry, payer: Address, payee: Address, collector: Address)
    requires Get(b, payer) >= 100
    ensures var oracle := CallBack(inner, true, Return(OraclePrice(10_000_000, now)));
            var e := FinalizeSettlement(oracle, PLAIN, payer, collector, 100, payee, None, 0);
            var after := Transferred(b, payer, payee, 100);
            after.Some? && Outcome(now, b, e) == Ok((after.value, Settled(100, 0, 10_000_000)))
  {
    var oracle := CallBack(inner, true, Return(OraclePrice(10_000_000, now)));
    assert ReturnedPrice(oracle) == OraclePrice(10_000_000, now);
    ConvertExactly(10_000_000, 100, None);
    assert Survives(oracle.next) && ReturnedPrice(oracle) == ReturnedPrice(oracle.next);
    assert RateFrom(now, oracle) == Ok(10_000_000) && Convert(10_000_000, 100, None) == Ok(100);
    assert Paid(b, PLAIN, payer, payee, collector, 100, 0) == Transferred(b, payer, payee, 100);
  }
}
