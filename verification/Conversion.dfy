/** From resource volume to settlement currency: `contracts/settlement/src/rate_application.rs`
    and `contracts/settlement/src/conversion.rs`. */
module Conversion {
  import opened Words
  import opened DivisionFacts
  import opened Fees

  const DECIMAL_DENOMINATOR: nat := 10_000_000
  const MAX_ORACLE_AGE: nat := 600
  const FALLBACK_RATE: i128 := 50_000_000
  const MAX_SLIPPAGE_BPS: nat := 100

  /** Everything that aborts an invocation; the last two stand for a failed `expect` and a callee's trap. */
  datatype SettlementError = InvalidFeeRate | SlippageExceeded | ReentrantCall | ArithmeticTrap | CalleeTrap

  datatype OraclePrice = OraclePrice(price: i128, lastUpdated: nat)

  function SaturatingSub(x: i128, y: i128): (r: i128)
    ensures FitsI128(x - y) ==> r == x - y
    ensures x - y > I128_MAX ==> r == I128_MAX
    ensures x - y < I128_MIN ==> r == I128_MIN
  {
    if x - y > I128_MAX then I128_MAX else if x - y < I128_MIN then I128_MIN else x - y
  }

  /** The saturating age check: a price from the future counts as fresh. */
  predicate IsStale(now: nat, lastUpdated: nat)
    ensures IsStale(now, lastUpdated) <==> now > lastUpdated + MAX_ORACLE_AGE
  {
    (if now >= lastUpdated then now - lastUpdated else 0) > MAX_ORACLE_AGE
  }

  function ResolveRate(now: nat, price: OraclePrice): i128 {
    if IsStale(now, price.lastUpdated) then FALLBACK_RATE else price.price
  }

  function ApplyRateToVolume(volume: i128, rate: i128): Result<i128, SettlementError> {
    if !FitsI128(volume * rate) then Err(ArithmeticTrap)
    else
      TruncDivFits(volume * rate, DECIMAL_DENOMINATOR);
      Ok(TruncDiv(volume * rate, DECIMAL_DENOMINATOR))
  }

  function Convert(rate: i128, volume: i128, minExpected: Option<i128>): Result<i128, SettlementError> {
    var applied := ApplyRateToVolume(volume, rate);
    if applied.Err? then Err(applied.error)
    else
      var expected := applied.value;
      var actual := expected;
      var diff := SaturatingSub(expected, actual);
      if expected > 0 && !FitsI128(diff * BPS_DENOMINATOR) then Err(ArithmeticTrap)
      else
        var slippageBps := if expected > 0 then TruncDiv(diff * BPS_DENOMINATOR, expected) % TWO32 else 0;
        if slippageBps > MAX_SLIPPAGE_BPS then Err(SlippageExceeded)
        else if minExpected.Some? && actual < minExpected.value then Err(SlippageExceeded)
        else Ok(actual)
  }

  /** The protocol's own slippage bound never rejects: the only rejection left is the caller's minimum. */
  lemma ConvertExactly(rate: i128, volume: i128, minExpected: Option<i128>)
    ensures Convert(rate, volume, minExpected) ==
            if !FitsI128(volume * rate) then Err(ArithmeticTrap)
            else if minExpected.Some? && TruncDiv(volume * rate, DECIMAL_DENOMINATOR) < minExpected.value
            then Err(SlippageExceeded)
            else Ok(TruncDiv(volume * rate, DECIMAL_DENOMINATOR))
  {
    if FitsI128(volume * rate) {
      var expected := TruncDiv(volume * rate, DECIMAL_DENOMINATOR);
      if expected > 0 {
        DivModUnique(0, expected, 0, 0);
      }
    }
  }

  /** The net of a converted amount A = floor(volume * rate / 10^7) against the exact rational
      volume * rate * (10000 - bps) / (10^7 * 10000): at most 1.5 units below, 0.5 above.
      Both sides are multiplied by 2 * 10^7 * 10000. */
  lemma NetAgainstExact(product: nat, rateBps: nat, amount: i128)
    requires rateBps <= MAX_FEE_RATE_BPS
    requires amount == product / DECIMAL_DENOMINATOR && FeeFits(amount, rateBps)
    ensures var net := amount - ComputeFee(amount, rateBps);
            var exact2 := 2 * (product * (BPS_DENOMINATOR - rateBps));
            var unit := DECIMAL_DENOMINATOR * BPS_DENOMINATOR;
            exact2 - 3 * unit <= 2 * net * unit <= exact2 + unit
  {
    var fee := ComputeFee(amount, rateBps);
    NonnegativeFee(amount, rateBps);
    OnlyNearestFees(amount, rateBps, fee);
    var keep := BPS_DENOMINATOR - rateBps;
    DivModParts(product, DECIMAL_DENOMINATOR);
    var frac := product % DECIMAL_DENOMINATOR;
    assert amount * keep == amount * BPS_DENOMINATOR - amount * rateBps;
    assert product * keep == DECIMAL_DENOMINATOR * (amount * keep) + frac * keep;
    MulMonotone(frac, DECIMAL_DENOMINATOR, keep);
    MulMonotone(keep, BPS_DENOMINATOR, DECIMAL_DENOMINATOR);
    MulMonotone(0, frac, keep);
  }
}
