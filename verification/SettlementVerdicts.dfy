/** Which settlements succeed, with what, and why the others fail: the result of every call of an entry
    point that got the lock, told from its arguments, its token's ledger and its callees' scripts. */
module SettlementVerdicts {
  import opened Words
  import opened DivisionFacts
  import opened MapSum
  import opened Fees
  import opened Conversion
  import opened SettlementEffects
  import opened SettlementLaws

  predicate HooksReturn(h: Hooks) {
    Survives(h.before) && Survives(h.after)
  }

  /** What the payer of a positive amount must hold: all of it, or, when collecting the fee himself,
      what is left to pay after it. */
  function Needed(payer: Address, collector: Address, amount: int, fee: int): int {
    if payer == collector then amount - fee else amount
  }

  /** Whether `amount` can be settled. A positive one: the scripts around the transfers made return, and
      a token that keeps its ledger is asked for no negative fee and finds the payer good for the rest.
      Another: the fee is zero, or the token lets a negative one pass. */
  predicate CanSettle(b: Balances, t: Token, payer: Address, collector: Address, amount: i128, rateBps: nat) {
    var fee := FeeCharged(amount, rateBps);
    if amount > 0 then
      && (fee != 0 ==> HooksReturn(t.onFee)) && HooksReturn(t.onNet)
      && (t.moves ==> fee >= 0 && Get(b, payer) >= Needed(payer, collector, amount, fee))
    else fee == 0 || TakesAnyFee(t)
  }

  /** The fee of a permitted rate, where it is not negative, is at most half the amount. */
  lemma FeeAtMostHalf(amount: i128, rateBps: nat)
    requires 0 < amount && rateBps <= MAX_FEE_RATE_BPS
    ensures 2 * FeeCharged(amount, rateBps) <= amount
  {
    MulMonotone(0, amount, rateBps);
    MulMonotone(rateBps, MAX_FEE_RATE_BPS, amount);
    WrapSum(amount * rateBps, 5000);
    if FeeFits(amount, rateBps) {
      NonnegativeFee(amount, rateBps);
    }
  }

  lemma NetOfPositive(amount: i128, rateBps: nat)
    requires 0 < amount && rateBps <= MAX_FEE_RATE_BPS
    ensures Net(amount, rateBps) > 0
    ensures FeeCharged(amount, rateBps) >= 0 ==> Net(amount, rateBps) == amount - FeeCharged(amount, rateBps)
    ensures Net(amount, rateBps) + FeeCharged(amount, rateBps) == amount
            <==> FitsI128(amount - FeeCharged(amount, rateBps))
  {
    FeeAtMostHalf(amount, rateBps);
  }

  lemma PositivePaidExactly(b: Balances, t: Token, payer: Address, payee: Address, collector: Address,
                            amount: i128, rateBps: nat)
    requires 0 < amount && rateBps <= MAX_FEE_RATE_BPS
    ensures Paid(b, t, payer, payee, collector, amount, rateBps).Some?
            <==> CanSettle(b, t, payer, collector, amount, rateBps)
  {
    var fee := FeeCharged(amount, rateBps);
    NetOfPositive(amount, rateBps);
    FeeAtMostHalf(amount, rateBps);
  }

  /** The same for a converted amount that is not positive. */
  lemma NonpositivePaidExactly(b: Balances, t: Token, payer: Address, payee: Address, collector: Address,
                               product: int, rateBps: nat)
    requires FitsI128(product) && rateBps <= MAX_FEE_RATE_BPS
    requires FitsI128(TruncDiv(product, DECIMAL_DENOMINATOR)) && TruncDiv(product, DECIMAL_DENOMINATOR) <= 0
    ensures var amount := TruncDiv(product, DECIMAL_DENOMINATOR);
            && (Paid(b, t, payer, payee, collector, amount, rateBps).Some?
                <==> CanSettle(b, t, payer, collector, amount, rateBps))
            && Net(amount, rateBps) + FeeCharged(amount, rateBps) == amount
  {
    var amount := TruncDiv(product, DECIMAL_DENOMINATOR);
    ConvertedFeeNeverWraps(product, rateBps);
    if amount < 0 {
      NegativeAmount(amount, rateBps);
    } else {
      RateZeroFee(amount);
    }
  }

  predicate KeepsLedgerAndReturns(t: Token) {
    t.moves && HooksReturn(t.onFee) && HooksReturn(t.onNet)
  }

  /** With a product that fits the fee is the documented one, and only the payer's balance decides. */
  lemma FundedExactly(b: Balances, t: Token, payer: Address, collector: Address, amount: i128, rateBps: nat)
    requires 0 < amount && rateBps <= MAX_FEE_RATE_BPS && FeeFits(amount, rateBps) && KeepsLedgerAndReturns(t)
    ensures var fee := DocumentedFee(amount, rateBps);
            && FeeCharged(amount, rateBps) == fee && Net(amount, rateBps) == amount - fee
            && (CanSettle(b, t, payer, collector, amount, rateBps)
                <==> Get(b, payer) >= Needed(payer, collector, amount, fee))
  {
    MulMonotone(0, amount, rateBps);
    FeeChargedExactly(amount, rateBps);
    NetOfPositive(amount, rateBps);
  }

  // ---------- settle ----------

  /** `settle` after every combination of arguments, ledger and scripts. */
  lemma SettleExactly(now: nat, b: Balances, e: Entry)
    requires e.Settle?
    ensures var r := Outcome(now, b, e);
            var fee := FeeCharged(e.amount, e.rateBps);
            if e.rateBps > 1000 then r == Err(InvalidFeeRate)
            else if e.amount <= 0 then r == Ok((b, Settled(0, 0, 0)))
            else if !CanSettle(b, e.token, e.payer, e.feeCollector, e.amount, e.rateBps) then r == Err(CalleeTrap)
            else r.Ok? && r.value.1 == Settled(Net(e.amount, e.rateBps), fee, 0)
                 && (r.value.1.net + fee == e.amount <==> FitsI128(e.amount - fee))
  {
    if e.rateBps <= 1000 && e.amount > 0 {
      PositivePaidExactly(b, e.token, e.payer, e.payee, e.feeCollector, e.amount, e.rateBps);
      NetOfPositive(e.amount, e.rateBps);
    }
  }

  /** Only the payer's balance decides, and a success reports the documented fee. */
  ghost predicate FundedSplit(b: Balances, e: Entry, rate: i128, amount: i128,
                              r: Result<(Balances, Settled), SettlementError>)
  {
    var fee := DocumentedFee(amount, e.rateBps);
    && (r.Ok? <==> Get(b, e.payer) >= Needed(e.payer, e.feeCollector, amount, fee))
    && (r.Ok? ==> (r.value.1.net, r.value.1.fee, r.value.1.rateUsed) == (amount - fee, fee, rate))
  }

  /** A funded settlement succeeds: at a permitted rate, with a product that fits, through a token that
      keeps its ledger and whose scripts return, exactly if the payer holds enough. */
  lemma FundedSettlementSucceeds(now: nat, b: Balances, e: Entry)
    requires e.Settle? && e.amount > 0 && e.rateBps <= 1000 && FeeFits(e.amount, e.rateBps)
    requires KeepsLedgerAndReturns(e.token)
    ensures FundedSplit(b, e, 0, e.amount, Outcome(now, b, e))
  {
    SettleExactly(now, b, e);
    FundedExactly(b, e.token, e.payer, e.feeCollector, e.amount, e.rateBps);
  }

  /** Ten thousand units at one percent: one hundred to the collector, the rest to the payee. */
  lemma FundedSettlement(now: nat, payer: Address, payee: Address, collector: Address)
    requires payer != payee && payer != collector && payee != collector
    ensures var r := Outcome(now, map[payer := 10_000], Settle(PLAIN, payer, payee, collector, 10_000, 100));
            && r.Ok? && r.value.1 == Settled(9_900, 100, 0)
            && Get(r.value.0, payer) == 0 && Get(r.value.0, payee) == 9_900 && Get(r.value.0, collector) == 100
  {
    var b, e := map[payer := 10_000], Settle(PLAIN, payer, payee, collector, 10_000, 100);
    FundedSettlementSucceeds(now, b, e);
    OutcomeMovesExactly(now, b, e, payer);
    OutcomeMovesExactly(now, b, e, payee);
    OutcomeMovesExactly(now, b, e, collector);
  }

  /** A call through a token that keeps no ledger leaves every balance as it was. */
  lemma LedgerlessMovesNothing(now: nat, b: Balances, e: Entry)
    requires !e.token.moves && Outcome(now, b, e).Ok?
    ensures Outcome(now, b, e).value.0 == b
  {
  }

  /** Net and fee need not add up: through a token that keeps no ledger the wrapped negative fee of the
      largest amount at one basis point passes, and the net saturates. */
  lemma SaturatedNet(now: nat, b: Balances, payer: Address, payee: Address, collector: Address)
    ensures var t := Token(Address(0), false, QUIET, QUIET);
            var r := Outcome(now, b, Settle(t, payer, payee, collector, I128_MAX, 1));
            r.Ok? && r.value.1.net == I128_MAX && r.value.1.fee < 0
  {
    var t := Token(Address(0), false, QUIET, QUIET);
    SettleExactly(now, b, Settle(t, payer, payee, collector, I128_MAX, 1));
  }

  // ---------- finalize_settlement ----------

  /** The rate a finalization applies: the oracle's, unless its price is more than 600 seconds old. */
  function RateUsed(now: nat, oracle: Script): i128
    requires Survives(oracle)
  {
    var price := ReturnedPrice(oracle);
    if now > price.lastUpdated + 600 then 50_000_000 else price.price
  }

  /** The converted amount is settled, and net and fee add up to it, or the call aborts. */
  ghost predicate SettledOrAborted(b: Balances, e: Entry, rate: i128, amount: i128,
                                   r: Result<(Balances, Settled), SettlementError>)
  {
    if CanSettle(b, e.token, e.payer, e.feeCollector, amount, e.rateBps)
    then r.Ok? && r.value.1 == Settled(Net(amount, e.rateBps), FeeCharged(amount, e.rateBps), rate)
         && r.value.1.net + r.value.1.fee == amount
    else r == Err(CalleeTrap)
  }

  /** `finalize_settlement` after every combination of arguments, ledger and scripts: the failures in
      their order, otherwise the converted amount is settled. */
  lemma FinalizeExactly(now: nat, b: Balances, e: Entry)
    requires e.FinalizeSettlement?
    ensures var r := Outcome(now, b, e);
            if e.rateBps > 1000 then r == Err(InvalidFeeRate)
            else if e.volume <= 0 then r == Ok((b, Settled(0, 0, 0)))
            else if !Survives(e.oracle) then r == Err(CalleeTrap)
            else
              var rate := RateUsed(now, e.oracle);
              var amount := TruncDiv(e.volume * rate, 10_000_000);
              if !FitsI128(e.volume * rate) then r == Err(ArithmeticTrap)
              else if e.minExpected.Some? && amount < e.minExpected.value then r == Err(SlippageExceeded)
              else FitsI128(amount) && SettledOrAborted(b, e, rate, amount, r)
  {
    if e.rateBps <= 1000 && e.volume > 0 && Survives(e.oracle) {
      var rate := RateUsed(now, e.oracle);
      assert RateFrom(now, e.oracle) == Ok(rate);
      ConvertExactly(rate, e.volume, e.minExpected);
      if FitsI128(e.volume * rate) {
        ConvertedPaidExactly(b, e, e.volume * rate);
      }
    }
  }

  lemma ConvertedPaidExactly(b: Balances, e: Entry, product: int)
    requires e.rateBps <= MAX_FEE_RATE_BPS && FitsI128(product)
    ensures var amount := TruncDiv(product, DECIMAL_DENOMINATOR);
            && FitsI128(amount)
            && (Paid(b, e.token, e.payer, e.payee, e.feeCollector, amount, e.rateBps).Some?
                <==> CanSettle(b, e.token, e.payer, e.feeCollector, amount, e.rateBps))
            && Net(amount, e.rateBps) + FeeCharged(amount, e.rateBps) == amount
  {
    var amount := TruncDiv(product, DECIMAL_DENOMINATOR);
    TruncDivFits(product, DECIMAL_DENOMINATOR);
    if amount > 0 {
      PositivePaidExactly(b, e.token, e.payer, e.payee, e.feeCollector, amount, e.rateBps);
      ConvertedFeeNeverWraps(product, e.rateBps);
      MulMonotone(0, amount, e.rateBps);
      NetOfPositive(amount, e.rateBps);
    } else {
      NonpositivePaidExactly(b, e.token, e.payer, e.payee, e.feeCollector, product, e.rateBps);
    }
  }

  /** The call reaches the transfers: the rate is permitted, the oracle returns, and the volume converts
      at `rate` to `amount`, which meets the caller's minimum. */
  predicate Converts(now: nat, e: Entry, rate: i128, amount: i128)
    requires e.FinalizeSettlement?
  {
    && e.rateBps <= 1000 && e.volume > 0 && Survives(e.oracle) && rate == RateUsed(now, e.oracle)
    && FitsI128(e.volume * rate) && amount == TruncDiv(e.volume * rate, 10_000_000)
    && (e.minExpected.Some? ==> amount >= e.minExpected.value)
  }

  lemma ConvertedIsSettled(now: nat, b: Balances, e: Entry, rate: i128, amount: i128)
    requires e.FinalizeSettlement? && Converts(now, e, rate, amount)
    ensures SettledOrAborted(b, e, rate, amount, Outcome(now, b, e))
    ensures FeeFits(amount, e.rateBps)
  {
    FinalizeExactly(now, b, e);
    ConvertedFeeNeverWraps(e.volume * rate, e.rateBps);
  }

  lemma SettledIsFundedSplit(b: Balances, e: Entry, rate: i128, amount: i128,
                             r: Result<(Balances, Settled), SettlementError>)
    requires SettledOrAborted(b, e, rate, amount, r) && KeepsLedgerAndReturns(e.token)
    requires 0 < amount && e.rateBps <= 1000 && FeeFits(amount, e.rateBps)
    ensures FundedSplit(b, e, rate, amount, r)
  {
    FundedExactly(b, e.token, e.payer, e.feeCollector, amount, e.rateBps);
  }

  /** A funded finalization succeeds: a positive converted amount, through a token that keeps its ledger
      and whose scripts return, is settled exactly if the payer holds enough. */
  lemma FundedFinalizationSucceeds(now: nat, b: Balances, e: Entry, rate: i128, amount: i128)
    requires e.FinalizeSettlement? && Converts(now, e, rate, amount) && amount > 0
    requires KeepsLedgerAndReturns(e.token)
    ensures FundedSplit(b, e, rate, amount, Outcome(now, b, e))
  {
    ConvertedIsSettled(now, b, e, rate, amount);
    SettledIsFundedSplit(b, e, rate, amount, Outcome(now, b, e));
  }
}
