/** What every successful settlement does to the ledger, and what amounts it reports. */
module SettlementLaws {
  import opened Words
  import opened DivisionFacts
  import opened MapSum
  import opened Fees
  import opened Conversion
  import opened SettlementEffects

  // ---------- Conservation ----------

  ghost predicate Solvent(b: Balances) {
    forall a :: a in b ==> b[a] >= 0
  }

  lemma TransferConserves(b: Balances, from: Address, to: Address, amount: int)
    requires Transferred(b, from, to, amount).Some?
    ensures var b' := Transferred(b, from, to, amount).value;
            && Sum(b') == Sum(b)
            && (Solvent(b) ==> Solvent(b'))
            && forall a :: Get(b', a) == Get(b, a) - (if a == from then amount else 0) + (if a == to then amount else 0)
  {
    var debited := b[from := Get(b, from) - amount];
    SumUpdate(b, from, Get(b, from) - amount);
    SumUpdate(debited, to, Get(debited, to) + amount);
  }

  /** Whatever the token does and however payer, payee and collector coincide, both legs together
      conserve the ledger and leave every balance nonnegative. */
  lemma PaymentConserves(b: Balances, t: Token, payer: Address, payee: Address, collector: Address,
                         amount: i128, rateBps: nat)
    requires Paid(b, t, payer, payee, collector, amount, rateBps).Some?
    ensures var b' := Paid(b, t, payer, payee, collector, amount, rateBps).value;
            Sum(b') == Sum(b) && (Solvent(b) ==> Solvent(b'))
  {
    var fee, net := FeeCharged(amount, rateBps), Net(amount, rateBps);
    var b1 := FeeCollected(b, t, payer, collector, amount, rateBps).value.0;
    if t.moves {
      if fee != 0 {
        TransferConserves(b, payer, collector, fee);
      }
      if net > 0 {
        TransferConserves(b1, payer, payee, net);
      }
    }
  }

  lemma OutcomeConserves(now: nat, b: Balances, e: Entry)
    requires Outcome(now, b, e).Ok?
    ensures Sum(Outcome(now, b, e).value.0) == Sum(b)
    ensures Solvent(b) ==> Solvent(Outcome(now, b, e).value.0)
  {
    match e
    case Settle(t, payer, payee, collector, amount, rateBps) =>
      if amount > 0 {
        PaymentConserves(b, t, payer, payee, collector, amount, rateBps);
      }
    case FinalizeSettlement(oracle, t, payer, collector, volume, payee, minExpected, rateBps) =>
      if volume > 0 {
        var amount := Convert(RateFrom(now, oracle).value, volume, minExpected).value;
        PaymentConserves(b, t, payer, payee, collector, amount, rateBps);
      }
  }

  // ---------- One ledger per token ----------

  /** The ledgers by token address; an absent one has no entries. */
  type Ledgers = map<Address, Balances>

  function LedgerOf(ledgers: Ledgers, token: Address): Balances {
    if token in ledgers then ledgers[token] else map[]
  }

  /** The ledger of `token` became `b`, and no other ledger changed. */
  ghost predicate Posted(before: Ledgers, token: Address, b: Balances, after: Ledgers) {
    && LedgerOf(after, token) == b
    && forall other :: other != token ==> LedgerOf(after, other) == LedgerOf(before, other)
  }

  /** Every token's total is what it was, and no ledger of nonnegative balances got a negative one. */
  ghost predicate Conserved(before: Ledgers, after: Ledgers) {
    forall token :: Sum(LedgerOf(after, token)) == Sum(LedgerOf(before, token))
                    && (Solvent(LedgerOf(before, token)) ==> Solvent(LedgerOf(after, token)))
  }

  lemma PostedConserves(now: nat, before: Ledgers, e: Entry, after: Ledgers)
    requires Outcome(now, LedgerOf(before, e.token.id), e).Ok?
    requires Posted(before, e.token.id, Outcome(now, LedgerOf(before, e.token.id), e).value.0, after)
    ensures Conserved(before, after)
  {
    OutcomeConserves(now, LedgerOf(before, e.token.id), e);
  }

  /** A nonnegative fee, wrapped or not, stays below a positive amount; so the net is what is left. */
  lemma PositiveNet(amount: i128, rateBps: nat)
    requires 0 < amount && rateBps <= MAX_FEE_RATE_BPS && FeeCharged(amount, rateBps) >= 0
    ensures FeeCharged(amount, rateBps) < amount
    ensures Net(amount, rateBps) == amount - FeeCharged(amount, rateBps) > 0
  {
    MulMonotone(0, amount, rateBps);
    if FeeFits(amount, rateBps) {
      FeeBelowAmount(amount, rateBps);
    } else {
      MulMonotone(rateBps, MAX_FEE_RATE_BPS, amount);
      var w := WrapI128(WrapI128(amount * rateBps) + 5000);
      assert w <= I128_MAX < amount * MAX_FEE_RATE_BPS + 5001;
    }
  }

  /** Paid through a token that keeps the ledger, a positive settlement moves every account by exactly
      its roles: the payer loses the gross amount, the payee gains the net, the collector the fee,
      under every aliasing and whatever the token calls back. */
  lemma LedgerMovesExactly(b: Balances, t: Token, payer: Address, payee: Address, collector: Address,
                           amount: i128, rateBps: nat, a: Address)
    requires 0 < amount && rateBps <= MAX_FEE_RATE_BPS && t.moves
    requires Paid(b, t, payer, payee, collector, amount, rateBps).Some?
    ensures var b' := Paid(b, t, payer, payee, collector, amount, rateBps).value;
            var fee, net := FeeCharged(amount, rateBps), Net(amount, rateBps);
            && net + fee == amount && 0 <= fee < amount
            && Get(b', a) == Get(b, a) - (if a == payer then amount else 0)
                             + (if a == payee then net else 0) + (if a == collector then fee else 0)
  {
    var fee, net := FeeCharged(amount, rateBps), Net(amount, rateBps);
    PositiveNet(amount, rateBps);
    var b1 := FeeCollected(b, t, payer, collector, amount, rateBps).value.0;
    if fee != 0 {
      TransferConserves(b, payer, collector, fee);
    }
    TransferConserves(b1, payer, payee, net);
  }

  // ---------- Converted amounts ----------

  lemma RateZeroFee(amount: i128)
    requires 0 <= amount
    ensures ComputeFee(amount, 0) == 0
    ensures forall rateBps: nat :: ComputeFee(0, rateBps) == 0
  {
    assert amount * 0 == 0;
    forall rateBps: nat ensures ComputeFee(0, rateBps) == 0 {
      assert 0 * rateBps == 0;
    }
  }

  /** A product that passed the overflow check, divided by 10^7, leaves the fee room: no fee of a
      finalized settlement can wrap. */
  lemma ConvertedFeeNeverWraps(product: int, rateBps: nat)
    requires FitsI128(product) && rateBps <= MAX_FEE_RATE_BPS
    ensures var amount := TruncDiv(product, DECIMAL_DENOMINATOR);
            && FitsI128(amount) && FeeFits(amount, rateBps)
            && ComputeFee(amount, rateBps) == TruncDiv(amount * rateBps + 5000, BPS_DENOMINATOR)
            && FeeCharged(amount, rateBps) == ComputeFee(amount, rateBps)
  {
    var amount := TruncDiv(product, DECIMAL_DENOMINATOR);
    TruncDivFits(product, DECIMAL_DENOMINATOR);
    var size := if amount >= 0 then amount else -amount;
    assert size * DECIMAL_DENOMINATOR <= TWO127;
    MulMonotone(rateBps, MAX_FEE_RATE_BPS, size);
    MulMonotone(0, rateBps, size);
    assert amount * rateBps == if amount >= 0 then size * rateBps else -(size * rateBps);
  }

  /** A negative amount that fits has a fee between itself and zero, and a negative net. */
  lemma NegativeAmount(amount: i128, rateBps: nat)
    requires amount < 0 && rateBps <= MAX_FEE_RATE_BPS
    requires FeeCharged(amount, rateBps) == TruncDiv(amount * rateBps + 5000, BPS_DENOMINATOR)
    ensures amount < FeeCharged(amount, rateBps) <= 0
    ensures Net(amount, rateBps) == amount - FeeCharged(amount, rateBps) < 0
  {
    var size: nat := -(amount as int);
    MulMonotone(rateBps, MAX_FEE_RATE_BPS, size);
    MulMonotone(0, rateBps, size);
    assert amount * rateBps == -(size * rateBps);
  }

  /** Gross amount a successful call charged the payer. */
  function Gross(s: Settled): int {
    s.net + s.fee
  }

  /** Account `a` after `gross` left the payer as `net` to the payee and `fee` to the collector. */
  ghost predicate MovedByRoles(b: Balances, b': Balances, e: Entry, s: Settled, a: Address) {
    Get(b', a) == Get(b, a) - (if a == e.payer then Gross(s) else 0)
                  + (if a == e.payee then s.net else 0) + (if a == e.feeCollector then s.fee else 0)
  }

  /** A nonpositive converted amount is never paid: the ledger would refuse the negative fee. */
  lemma NothingPaid(b: Balances, t: Token, payer: Address, payee: Address, collector: Address,
                    product: int, rateBps: nat)
    requires FitsI128(product) && rateBps <= MAX_FEE_RATE_BPS && t.moves
    requires FitsI128(TruncDiv(product, DECIMAL_DENOMINATOR)) && TruncDiv(product, DECIMAL_DENOMINATOR) <= 0
    requires Paid(b, t, payer, payee, collector, TruncDiv(product, DECIMAL_DENOMINATOR), rateBps).Some?
    ensures var amount := TruncDiv(product, DECIMAL_DENOMINATOR);
            && FeeCharged(amount, rateBps) == 0 && Net(amount, rateBps) == amount
            && Paid(b, t, payer, payee, collector, amount, rateBps) == Some(b)
  {
    var amount := TruncDiv(product, DECIMAL_DENOMINATOR);
    ConvertedFeeNeverWraps(product, rateBps);
    if amount < 0 {
      NegativeAmount(amount, rateBps);
    } else {
      RateZeroFee(amount);
    }
  }

  /** At the level of a whole successful call through a token that keeps the ledger: with a positive
      gross payer, payee and collector, and nobody else, move, by the amounts the call reports;
      otherwise nothing moves and no fee is charged. */
  lemma OutcomeMovesExactly(now: nat, b: Balances, e: Entry, a: Address)
    requires Outcome(now, b, e).Ok? && e.token.moves
    ensures var (b', s) := Outcome(now, b, e).value;
            if Gross(s) > 0
            then 0 <= s.fee < Gross(s) && (e.Settle? ==> Gross(s) == e.amount) && MovedByRoles(b, b', e, s, a)
            else b' == b && s.fee == 0
  {
    match e
    case Settle(t, payer, payee, collector, amount, rateBps) =>
      if amount > 0 {
        LedgerMovesExactly(b, t, payer, payee, collector, amount, rateBps, a);
      }
    case FinalizeSettlement(oracle, t, payer, collector, volume, payee, minExpected, rateBps) =>
      if volume > 0 {
        var rate := RateFrom(now, oracle).value;
        ConvertExactly(rate, volume, minExpected);
        var amount := Convert(rate, volume, minExpected).value;
        if amount > 0 {
          LedgerMovesExactly(b, t, payer, payee, collector, amount, rateBps, a);
        } else {
          NothingPaid(b, t, payer, payee, collector, volume * rate, rateBps);
        }
      }
  }

  // ---------- End to end ----------

  /** The net and fee reported for a converted amount, at any rate of at most 10%. */
  lemma SplitOfAmount(amount: i128, rateBps: nat)
    requires 0 <= amount && rateBps <= MAX_FEE_RATE_BPS && FeeFits(amount, rateBps)
    ensures FeeCharged(amount, rateBps) == ComputeFee(amount, rateBps) >= 0
    ensures Net(amount, rateBps) == amount - ComputeFee(amount, rateBps) >= 0
  {
    RateZeroFee(amount);
    if amount > 0 {
      FeeBelowAmount(amount, rateBps);
    }
  }

  /** What a finalized call reports: the split of the converted amount at the rate used. */
  ghost predicate ReportsSplit(s: Settled, volume: int, rateBps: nat) {
    && FitsI128(volume * s.rateUsed)
    && var amount := TruncDiv(volume * s.rateUsed, DECIMAL_DENOMINATOR);
    && FitsI128(amount)
    && s.net == Net(amount, rateBps) && s.fee == FeeCharged(amount, rateBps)
  }

  /** The rate is the oracle's if its price is at most 600 seconds old, else the fallback; the
      reported split is of the amount at that rate, which meets the caller's minimum. */
  lemma FinalizedFrom(now: nat, b: Balances, e: Entry)
    requires e.FinalizeSettlement? && e.volume > 0 && Outcome(now, b, e).Ok?
    ensures Survives(e.oracle)
    ensures var s := Outcome(now, b, e).value.1;
            var price := ReturnedPrice(e.oracle);
            && s.rateUsed == (if now > price.lastUpdated + MAX_ORACLE_AGE then FALLBACK_RATE else price.price)
            && ReportsSplit(s, e.volume, e.rateBps)
            && (e.minExpected.Some? ==> TruncDiv(e.volume * s.rateUsed, DECIMAL_DENOMINATOR) >= e.minExpected.value)
  {
    var rate := Outcome(now, b, e).value.1.rateUsed;
    ConvertExactly(rate, e.volume, e.minExpected);
    if FitsI128(e.volume * rate) {
      TruncDivFits(e.volume * rate, DECIMAL_DENOMINATOR);
    }
  }

  /** `net` and `fee` split floor(product / 10^7) exactly, and the net is within 1.5 units below and 0.5
      above the exact rational product * (10000 - bps) / (10^7 * 10^4); scaled by twice that divisor. */
  ghost predicate SplitsExactly(product: int, rateBps: nat, net: int, fee: int) {
    var exact2 := 2 * (product * (BPS_DENOMINATOR - rateBps));
    var unit := DECIMAL_DENOMINATOR * BPS_DENOMINATOR;
    && net + fee == product / DECIMAL_DENOMINATOR
    && 0 <= fee && 0 <= net
    && exact2 - 3 * unit <= 2 * net * unit <= exact2 + unit
  }

  lemma AmountSplitsExactly(product: nat, rateBps: nat, amount: i128)
    requires amount == product / DECIMAL_DENOMINATOR
    requires rateBps <= MAX_FEE_RATE_BPS && FeeFits(amount, rateBps)
    ensures SplitsExactly(product, rateBps, Net(amount, rateBps), FeeCharged(amount, rateBps))
  {
    SplitOfAmount(amount, rateBps);
    NetAgainstExact(product, rateBps, amount);
  }

  lemma ReportedSplitIsExact(s: Settled, volume: nat, rateBps: nat)
    requires ReportsSplit(s, volume, rateBps) && s.rateUsed >= 0 && rateBps <= MAX_FEE_RATE_BPS
    ensures SplitsExactly(volume * s.rateUsed, rateBps, s.net, s.fee)
  {
    MulMonotone(0, s.rateUsed, volume);
    var product: nat := volume * s.rateUsed;
    ConvertedFeeNeverWraps(product, rateBps);
    AmountSplitsExactly(product, rateBps, TruncDiv(product, DECIMAL_DENOMINATOR));
  }

  /** Every finalized settlement at a nonnegative rate. */
  lemma FinalizedAmounts(now: nat, b: Balances, e: Entry)
    requires e.FinalizeSettlement? && e.volume > 0 && Outcome(now, b, e).Ok?
    requires Outcome(now, b, e).value.1.rateUsed >= 0
    ensures var s := Outcome(now, b, e).value.1;
            SplitsExactly(e.volume * s.rateUsed, e.rateBps, s.net, s.fee)
  {
    FinalizedFrom(now, b, e);
    ReportedSplitIsExact(Outcome(now, b, e).value.1, e.volume, e.rateBps);
  }

  lemma NetSign(product: int, rateBps: nat)
    requires FitsI128(product) && FitsI128(TruncDiv(product, DECIMAL_DENOMINATOR)) && rateBps <= MAX_FEE_RATE_BPS
    ensures Net(TruncDiv(product, DECIMAL_DENOMINATOR), rateBps) < 0 <==> product + DECIMAL_DENOMINATOR <= 0
  {
    var amount := TruncDiv(product, DECIMAL_DENOMINATOR);
    ConvertedFeeNeverWraps(product, rateBps);
    if amount < 0 {
      NegativeAmount(amount, rateBps);
    } else {
      SplitOfAmount(amount, rateBps);
    }
  }

  lemma ReportedNetSign(s: Settled, volume: nat, rateBps: nat)
    requires ReportsSplit(s, volume, rateBps) && rateBps <= MAX_FEE_RATE_BPS
    ensures s.net < 0 <==> volume * s.rateUsed + DECIMAL_DENOMINATOR <= 0
  {
    NetSign(volume * s.rateUsed, rateBps);
  }

  /** The two scripts around a fee transfer of the token return, and it keeps no ledger to refuse it. */
  predicate TakesAnyFee(t: Token) {
    !t.moves && Survives(t.onFee.before) && Survives(t.onFee.after)
  }

  /** What a caller can check beforehand: the conversion fits and reaches at most -10^7, the minimum is
      met, and the fee rounds to zero or meets a token that lets a negative one pass. */
  predicate SucceedsBelowZero(now: nat, e: Entry)
    requires e.FinalizeSettlement?
  {
    && e.rateBps <= MAX_FEE_RATE_BPS && e.volume > 0 && Survives(e.oracle)
    && var product := e.volume * ResolveRate(now, ReturnedPrice(e.oracle));
    && FitsI128(product) && product + DECIMAL_DENOMINATOR <= 0
    && var amount := TruncDiv(product, DECIMAL_DENOMINATOR);
    && (e.minExpected.Some? ==> amount >= e.minExpected.value)
    && (amount * e.rateBps > -15000 || TakesAnyFee(e.token))
  }

  lemma NegativePaidExactly(b: Balances, t: Token, payer: Address, payee: Address, collector: Address,
                            product: int, rateBps: nat)
    requires FitsI128(product) && rateBps <= MAX_FEE_RATE_BPS && product + DECIMAL_DENOMINATOR <= 0
    requires FitsI128(TruncDiv(product, DECIMAL_DENOMINATOR))
    ensures var amount := TruncDiv(product, DECIMAL_DENOMINATOR);
            Paid(b, t, payer, payee, collector, amount, rateBps).Some?
            <==> amount * rateBps > -15000 || TakesAnyFee(t)
  {
    var amount := TruncDiv(product, DECIMAL_DENOMINATOR);
    ConvertedFeeNeverWraps(product, rateBps);
    NegativeAmount(amount, rateBps);
    assert FeeCharged(amount, rateBps) == 0 <==> amount * rateBps > -15000;
  }

  lemma ReportedBelowZero(now: nat, b: Balances, e: Entry)
    requires e.FinalizeSettlement? && Outcome(now, b, e).Ok? && Outcome(now, b, e).value.1.net < 0
    ensures SucceedsBelowZero(now, e)
  {
    var s := Outcome(now, b, e).value.1;
    FinalizedFrom(now, b, e);
    ReportedNetSign(s, e.volume, e.rateBps);
    ConvertExactly(s.rateUsed, e.volume, e.minExpected);
    NegativePaidExactly(b, e.token, e.payer, e.payee, e.feeCollector, e.volume * s.rateUsed, e.rateBps);
  }

  /** A finalization succeeds with a negative net exactly under that condition. */
  lemma NegativeNetExactly(now: nat, b: Balances, e: Entry)
    requires e.FinalizeSettlement?
    ensures Outcome(now, b, e).Ok? && Outcome(now, b, e).value.1.net < 0 <==> SucceedsBelowZero(now, e)
  {
    if SucceedsBelowZero(now, e) {
      var rate := ResolveRate(now, ReturnedPrice(e.oracle));
      ConvertExactly(rate, e.volume, e.minExpected);
      TruncDivFits(e.volume * rate, DECIMAL_DENOMINATOR);
      NegativePaidExactly(b, e.token, e.payer, e.payee, e.feeCollector, e.volume * rate, e.rateBps);
      NetSign(e.volume * rate, e.rateBps);
    } else if Outcome(now, b, e).Ok? && Outcome(now, b, e).value.1.net < 0 {
      ReportedBelowZero(now, b, e);
    }
  }

  /** Such a success: price -1 on a volume of 20,000,000 reports a net of -2 and moves nothing. */
  lemma NegativeNetReported(now: nat, b: Balances, payer: Address, payee: Address, collector: Address)
    ensures var oracle := Return(OraclePrice(-1, now));
            var e := FinalizeSettlement(oracle, PLAIN, payer, collector, 20_000_000, payee, None, 100);
            Outcome(now, b, e) == Ok((b, Settled(-2, 0, -1)))
  {
    ConvertExactly(-1, 20_000_000, None);
    ConvertedFeeNeverWraps(-20_000_000, 100);
  }

  /** The wrong rounding of a negative fee, in a finalization: at price -1 and 100 bps a volume of 10^9
      succeeds at minus one hundred units with the fee 0, documented as -1. At twice the volume the
      fee is -1, which the ledger refuses. */
  lemma NegativeRoundingFinalized(now: nat, b: Balances, payer: Address, payee: Address, collector: Address)
    ensures var oracle := Return(OraclePrice(-1, now));
            var e := FinalizeSettlement(oracle, PLAIN, payer, collector, 1_000_000_000, payee, None, 100);
            Outcome(now, b, e) == Ok((b, Settled(-100, 0, -1))) && DocumentedFee(-100, 100) == -1
    ensures var oracle := Return(OraclePrice(-1, now));
            var e := FinalizeSettlement(oracle, PLAIN, payer, collector, 2_000_000_000, payee, None, 100);
            Outcome(now, b, e) == Err(CalleeTrap)
  {
    ConvertExactly(-1, 1_000_000_000, None);
    ConvertExactly(-1, 2_000_000_000, None);
    ConvertedFeeNeverWraps(-1_000_000_000, 100);
    ConvertedFeeNeverWraps(-2_000_000_000, 100);
  }

  /** The amount a successful call took its fee from. */
  function FeeBase(e: Entry, s: Settled): int {
    match e
    case Settle(_, _, _, _, amount, _) => if amount <= 0 then 0 else amount
    case FinalizeSettlement(_, _, _, _, volume, _, _, _) =>
      if volume <= 0 then 0 else TruncDiv(volume * s.rateUsed, DECIMAL_DENOMINATOR)
  }

  lemma FeeChargedExactly(amount: i128, rateBps: nat)
    ensures FeeCharged(amount, rateBps) == DocumentedFee(amount, rateBps) <==> RoundsAsDocumented(amount, rateBps)
  {
    FeeIsRoundHalfUpExactly(amount, rateBps);
    if rateBps == 0 {
      assert amount * rateBps == 0;
    }
  }

  /** Every successful call, through any token, reports the documented fee exactly when nothing wrapped
      and no negative fee was rounded; a finalization that does not was at a negative rate. */
  lemma ReportedFeeDocumentedExactly(now: nat, b: Balances, e: Entry)
    requires Outcome(now, b, e).Ok?
    ensures var s := Outcome(now, b, e).value.1;
            && (s.fee == DocumentedFee(FeeBase(e, s), e.rateBps) <==> RoundsAsDocumented(FeeBase(e, s), e.rateBps))
            && (e.FinalizeSettlement? && s.rateUsed >= 0 ==> s.fee == DocumentedFee(FeeBase(e, s), e.rateBps))
  {
    var s := Outcome(now, b, e).value.1;
    FeeChargedExactly(0, e.rateBps);
    RateZeroFee(0);
    if e.Settle? {
      FeeChargedExactly(e.amount, e.rateBps);
    } else if e.volume > 0 {
      FinalizedFrom(now, b, e);
      FeeChargedExactly(FeeBase(e, s), e.rateBps);
      if s.rateUsed >= 0 {
        MulMonotone(0, s.rateUsed, e.volume);
        ConvertedFeeNeverWraps(e.volume * s.rateUsed, e.rateBps);
        MulMonotone(0, FeeBase(e, s), e.rateBps);
      }
    }
  }

  /** A wrapped fee the ledger accepts: ten percent of the largest amount is charged as nothing. */
  lemma WrappedFeeAccepted(now: nat, payer: Address, payee: Address, collector: Address)
    ensures var e := Settle(PLAIN, payer, payee, collector, I128_MAX, 1000);
            var outcome := Outcome(now, map[payer := I128_MAX], e);
            outcome.Ok? && outcome.value.1 == Settled(I128_MAX, 0, 0)
  {
    WrappedFeeVanishes();
  }
}
