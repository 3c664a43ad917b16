/** Protocol fees in the i128 arithmetic of a release build: `contracts/settlement/src/fees.rs`
    and `contracts/settlement/src/token_utils.rs`. */
module Fees {
  import opened Words
  import opened DivisionFacts

  const BPS_DENOMINATOR: nat := 10000
  const MAX_FEE_RATE_BPS: nat := 1000
  const MAX_SETTLEMENT: nat := 1_000_000_000_000_000_000

  /** The multiplication and the addition are unchecked, so both wrap. */
  function ComputeFee(amount: i128, rateBps: nat): int {
    TruncDiv(WrapI128(WrapI128(amount * rateBps) + 5000), BPS_DENOMINATOR)
  }

  /** The documented fee, over the integers: the floor of amount * rate / 10000 + 1/2. */
  function DocumentedFee(amount: int, rateBps: nat): int {
    (amount * rateBps + 5000) / BPS_DENOMINATOR
  }

  /** The documented tolerance, over the integers: half a unit either way. */
  predicate WithinHalfUnit(amount: int, rateBps: nat, fee: int) {
    -5000 <= fee * BPS_DENOMINATOR - amount * rateBps <= 5000
  }

  /** `i128::abs` without overflow checks leaves the smallest value as it is. */
  function WrappingAbs(x: i128): i128 {
    if x == I128_MIN then I128_MIN else if x < 0 then -x else x
  }

  /** The check as it runs: two products, a difference and an absolute value, all wrapping. */
  predicate VerifyFeeInvariant(amount: i128, rateBps: nat, fee: i128) {
    WrappingAbs(WrapI128(WrapI128(fee * BPS_DENOMINATOR) - WrapI128(amount * rateBps))) <= 5000
  }

  /** The guard under which nothing wraps; every amount up to MAX_SETTLEMENT meets it. */
  predicate FeeFits(amount: int, rateBps: nat) {
    FitsI128(amount * rateBps + 5000)
  }

  lemma CappedAmountsFit(amount: nat, rateBps: nat)
    requires amount <= MAX_SETTLEMENT && rateBps <= MAX_FEE_RATE_BPS
    ensures FeeFits(amount, rateBps)
  {
    MulMonotone(amount, MAX_SETTLEMENT, rateBps);
    MulMonotone(rateBps, MAX_FEE_RATE_BPS, MAX_SETTLEMENT);
  }

  lemma WrapDifference(x: int, y: int)
    ensures WrapI128(WrapI128(x) - WrapI128(y)) == WrapI128(x - y)
  {
    var k := WrapTakesOff(x);
    var l := WrapTakesOff(y);
    WrapCongruent(x - y, WrapI128(x) - WrapI128(y), l - k);
  }

  /** A wrapped sum yields a fee far from the documented one, on the other side of zero. */
  lemma WrappedQuotientDiffers(y: int)
    ensures y > I128_MAX ==> TruncDiv(WrapI128(y), BPS_DENOMINATOR) + 1 < y / BPS_DENOMINATOR
    ensures y < I128_MIN ==> TruncDiv(WrapI128(y), BPS_DENOMINATOR) > y / BPS_DENOMINATOR
  {
    var k := WrapTakesOff(y);
    var w := WrapI128(y);
    if y > I128_MAX {
      assert w <= y - TWO128;
    } else if y < I128_MIN {
      assert w >= y + TWO128;
    }
  }

  /** Division rounds toward zero: for a negative dividend it is the floor only without a remainder. */
  lemma TruncDivAboveFloor(y: int)
    ensures TruncDiv(y, BPS_DENOMINATOR) >= y / BPS_DENOMINATOR
    ensures TruncDiv(y, BPS_DENOMINATOR) == y / BPS_DENOMINATOR <==> y >= 0 || y % BPS_DENOMINATOR == 0
  {
  }

  lemma WrappedQuotientExactly(y: int)
    ensures TruncDiv(WrapI128(y), BPS_DENOMINATOR) == y / BPS_DENOMINATOR
            <==> FitsI128(y) && (y >= 0 || y % BPS_DENOMINATOR == 0)
    ensures TruncDiv(WrapI128(y), BPS_DENOMINATOR) + 1 != y / BPS_DENOMINATOR
  {
    if FitsI128(y) {
      TruncDivAboveFloor(y);
    } else {
      WrappedQuotientDiffers(y);
    }
  }

  lemma ExactHalf(p: int)
    ensures (p + 5000) % BPS_DENOMINATOR == 0 <==> p % BPS_DENOMINATOR == 5000
  {
  }

  /** Nothing wraps and the division has no negative dividend to round the wrong way. */
  predicate RoundsAsDocumented(amount: int, rateBps: nat) {
    FeeFits(amount, rateBps)
    && (amount * rateBps >= -5000 || (amount * rateBps) % BPS_DENOMINATOR == 5000)
  }

  /** For every amount, negative ones included: the fee is the documented one exactly then. */
  lemma FeeIsRoundHalfUpExactly(amount: i128, rateBps: nat)
    ensures ComputeFee(amount, rateBps) == DocumentedFee(amount, rateBps) <==> RoundsAsDocumented(amount, rateBps)
    ensures ComputeFee(amount, rateBps) + 1 != DocumentedFee(amount, rateBps)
  {
    var p := amount * rateBps;
    WrapSum(p, 5000);
    WrappedQuotientExactly(p + 5000);
    ExactHalf(p);
  }

  /** The tolerance admits the documented fee and, on an exact half, the fee below it: no other. */
  lemma OnlyNearestFees(amount: int, rateBps: nat, fee: int)
    ensures WithinHalfUnit(amount, rateBps, fee)
            <==> (|| fee == DocumentedFee(amount, rateBps)
                  || (fee == DocumentedFee(amount, rateBps) - 1 && (amount * rateBps) % BPS_DENOMINATOR == 5000))
  {
    var n := amount * rateBps;
    var q, r := n / BPS_DENOMINATOR, n % BPS_DENOMINATOR;
    assert n == q * BPS_DENOMINATOR + r;
    assert DocumentedFee(amount, rateBps) == if r >= 5000 then q + 1 else q;
  }

  /** So the fee charged keeps the documented tolerance for exactly the same inputs. */
  lemma FeeWithinHalfUnitExactly(amount: i128, rateBps: nat)
    ensures WithinHalfUnit(amount, rateBps, ComputeFee(amount, rateBps)) <==> RoundsAsDocumented(amount, rateBps)
  {
    FeeIsRoundHalfUpExactly(amount, rateBps);
    OnlyNearestFees(amount, rateBps, ComputeFee(amount, rateBps));
  }

  /** A negative amount for which it does not: minus one hundred units at one percent is charged
      nothing instead of minus one, outside the tolerance and refused by the contract's own check. */
  lemma NegativeFeeRoundsUp()
    ensures ComputeFee(-100, 100) == 0 && DocumentedFee(-100, 100) == -1
    ensures !WithinHalfUnit(-100, 100, 0) && !VerifyFeeInvariant(-100, 100, 0)
  {
  }

  lemma NonnegativeFee(amount: i128, rateBps: nat)
    requires 0 <= amount && FeeFits(amount, rateBps)
    ensures 0 <= amount * rateBps
    ensures ComputeFee(amount, rateBps) == DocumentedFee(amount, rateBps)
  {
    MulMonotone(0, amount, rateBps);
    FeeIsRoundHalfUpExactly(amount, rateBps);
  }

  /** For every input, the check accepts exactly when the difference is, modulo 2^128, within the
      tolerance or the one value whose absolute value overflows. */
  lemma VerifyExactly(amount: i128, rateBps: nat, fee: i128)
    ensures var d := WrapI128(fee * BPS_DENOMINATOR - amount * rateBps);
            VerifyFeeInvariant(amount, rateBps, fee) <==> -5000 <= d <= 5000 || d == I128_MIN
  {
    WrapDifference(fee * BPS_DENOMINATOR, amount * rateBps);
  }

  /** While the difference itself stays inside i128, the check is the documented tolerance. */
  lemma InvariantAdmitsOnlyNearest(amount: i128, rateBps: nat, fee: i128)
    requires I128_MIN < fee * BPS_DENOMINATOR - amount * rateBps <= I128_MAX
    ensures VerifyFeeInvariant(amount, rateBps, fee)
            <==> (|| fee == DocumentedFee(amount, rateBps)
                  || (fee == DocumentedFee(amount, rateBps) - 1 && (amount * rateBps) % BPS_DENOMINATOR == 5000))
  {
    VerifyExactly(amount, rateBps, fee);
    OnlyNearestFees(amount, rateBps, fee);
  }

  /** Beyond that it is not: 2^124 passes as the fee of nothing, because 10000 * 2^124 = 625 * 2^128. */
  lemma InvariantFooled()
    ensures VerifyFeeInvariant(0, 0, 0x1000_0000_0000_0000_0000_0000_0000_0000)
    ensures !WithinHalfUnit(0, 0, 0x1000_0000_0000_0000_0000_0000_0000_0000)
  {
    WrapCongruent(0, 0x1000_0000_0000_0000_0000_0000_0000_0000 * BPS_DENOMINATOR, 625);
  }

  lemma FeeMonotone(a: i128, b: i128, rateBps: nat)
    requires 0 <= a <= b && FeeFits(b, rateBps)
    ensures 0 <= ComputeFee(a, rateBps) <= ComputeFee(b, rateBps)
  {
    MulMonotone(a, b, rateBps);
    MulMonotone(0, a, rateBps);
    NonnegativeFee(a, rateBps);
    NonnegativeFee(b, rateBps);
    DivMonotone(a * rateBps + 5000, b * rateBps + 5000, BPS_DENOMINATOR);
  }

  /** Up to the 10% cap a positive amount always keeps something after the fee. */
  lemma FeeBelowAmount(amount: i128, rateBps: nat)
    requires 0 < amount && rateBps <= MAX_FEE_RATE_BPS && FeeFits(amount, rateBps)
    ensures 0 <= ComputeFee(amount, rateBps) < amount
  {
    MulMonotone(rateBps, MAX_FEE_RATE_BPS, amount);
    NonnegativeFee(amount, rateBps);
  }

  /** Outside the guard the fee can vanish: ten percent of the largest amount wraps to zero. */
  lemma WrappedFeeVanishes()
    ensures ComputeFee(I128_MAX, 1000) == 0 && !FeeFits(I128_MAX, 1000)
  {
  }

  // ---------- One settlement against many ----------

  function Total(amounts: seq<nat>): nat {
    if amounts == [] then 0 else amounts[0] + Total(amounts[1..])
  }

  function FeesCollected(amounts: seq<nat>, rateBps: nat): int
    requires Total(amounts) <= I128_MAX
  {
    if amounts == [] then 0 else ComputeFee(amounts[0], rateBps) + FeesCollected(amounts[1..], rateBps)
  }

  lemma PartsFit(first: nat, rest: nat, rateBps: nat)
    requires FeeFits(first + rest, rateBps)
    ensures (first + rest) * rateBps == first * rateBps + rest * rateBps
    ensures FeeFits(first, rateBps) && FeeFits(rest, rateBps)
  {
    assert (first + rest) * rateBps == first * rateBps + rest * rateBps;
    MulMonotone(0, first, rateBps);
    MulMonotone(0, rest, rateBps);
  }

  lemma {:induction false} AccumulatedError(amounts: seq<nat>, rateBps: nat)
    requires Total(amounts) <= I128_MAX && FeeFits(Total(amounts), rateBps)
    ensures -5000 * |amounts| <= FeesCollected(amounts, rateBps) * BPS_DENOMINATOR - Total(amounts) * rateBps
            <= 5000 * |amounts|
  {
    if amounts == [] {
    } else {
      var first, rest := amounts[0], amounts[1..];
      PartsFit(first, Total(rest), rateBps);
      AccumulatedError(rest, rateBps);
      NonnegativeFee(first, rateBps);
      OnlyNearestFees(first, rateBps, ComputeFee(first, rateBps));
      assert FeesCollected(amounts, rateBps) * BPS_DENOMINATOR
          == ComputeFee(first, rateBps) * BPS_DENOMINATOR + FeesCollected(rest, rateBps) * BPS_DENOMINATOR;
    }
  }

  /** Splitting a payment into n shifts the fee by at most (n + 1) / 2 units, either way. */
  lemma SplittingShiftsFeeLittle(amounts: seq<nat>, rateBps: nat)
    requires Total(amounts) <= I128_MAX && FeeFits(Total(amounts), rateBps)
    ensures var shift := FeesCollected(amounts, rateBps) - ComputeFee(Total(amounts), rateBps);
            -(|amounts| + 1) <= 2 * shift <= |amounts| + 1
  {
    AccumulatedError(amounts, rateBps);
    NonnegativeFee(Total(amounts), rateBps);
    OnlyNearestFees(Total(amounts), rateBps, ComputeFee(Total(amounts), rateBps));
  }
}
