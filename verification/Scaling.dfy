/** Deposit-to-token reconciliation: `contracts/common/src/scaling.rs`. */
module Scaling {
  import opened Words
  import opened DivisionFacts
  import opened WeightedRate

  const TOKEN_SCALE_FACTOR: u128 := 1_000_000_000_000_000_000
  const MIN_ASSET_PRECISION: u128 := 1
  const MAX_ASSET_PRECISION: u128 := 1_000_000_000_000
  const MAX_SAFE_DEPOSIT: u128 := (TWO128 - 1) / TOKEN_SCALE_FACTOR

  datatype ScaleError = InvalidPrecision | Overflow

  predicate IsValidPrecision(precision: u128) {
    MIN_ASSET_PRECISION <= precision <= MAX_ASSET_PRECISION
  }

  predicate IsSafeDeposit(deposit: u128) {
    deposit <= MAX_SAFE_DEPOSIT
  }

  function OrOverflow(r: Option<u128>): Result<u128, ScaleError> {
    if r.None? then Err(Overflow) else Ok(r.value)
  }

  function Reconciled(deposit: u128, precision: u128): Result<u128, ScaleError> {
    if !IsValidPrecision(precision) then Err(InvalidPrecision)
    else OrOverflow(ExactFloor(deposit * TOKEN_SCALE_FACTOR, precision))
  }

  /** Overflow is reported exactly when the true floor leaves u128, never a wrapped amount;
      what is minted never exceeds what the deposit backs, by less than one unit. */
  lemma ReconciledIsExact(deposit: u128, precision: u128)
    requires IsValidPrecision(precision)
    ensures Reconciled(deposit, precision) == Err(Overflow)
            <==> deposit * TOKEN_SCALE_FACTOR >= TWO128 * precision
    ensures Reconciled(deposit, precision).Ok? ==>
              var minted := Reconciled(deposit, precision).value;
              minted * precision <= deposit * TOKEN_SCALE_FACTOR < (minted + 1) * precision
  {
    FloorBracket(deposit * TOKEN_SCALE_FACTOR, precision);
  }

  /** Precisions outside [1, 10^12] and no others are refused; then the floor of deposit * 10^18 / precision,
      or the overflow error exactly when that leaves u128. */
  method ReconcileTokens(deposit: u128, precision: u128) returns (r: Result<u128, ScaleError>)
    ensures r == Reconciled(deposit, precision)
    ensures r == Err(InvalidPrecision) <==> precision == 0 || precision > 1_000_000_000_000
    ensures 1 <= precision <= 1_000_000_000_000 ==>
              (r == Err(Overflow) <==> deposit * 1_000_000_000_000_000_000 >= TWO128 * precision)
    ensures r.Ok? ==>
              r.value * precision <= deposit * 1_000_000_000_000_000_000 < (r.value + 1) * precision
  {
    if IsValidPrecision(precision) {
      ReconciledIsExact(deposit, precision);
    }
    if !IsValidPrecision(precision) {
      return Err(InvalidPrecision);
    }
    var q := MulDivFloor(deposit, TOKEN_SCALE_FACTOR, precision);
    return OrOverflow(q);
  }

  /** The general form: any scale, and only a zero precision is refused. */
  method Scale(amount: u128, scaleFactor: u128, precision: u128) returns (r: Result<u128, ScaleError>)
    ensures r == Err(InvalidPrecision) <==> precision == 0
    ensures r == Err(Overflow) <==> precision > 0 && amount * scaleFactor >= TWO128 * precision
    ensures r.Ok? ==> r.value * precision <= amount * scaleFactor < (r.value + 1) * precision
  {
    if precision == 0 {
      return Err(InvalidPrecision);
    }
    var q := MulDivFloor(amount, scaleFactor, precision);
    return OrOverflow(q);
  }

  /** `is_safe_deposit` is precisely "reconciles at every valid precision". */
  lemma SafeDepositsExactly(deposit: u128)
    ensures IsSafeDeposit(deposit)
            <==> forall p: u128 :: IsValidPrecision(p) ==> Reconciled(deposit, p).Ok?
  {
    DivAtLeast(TWO128 - 1, TOKEN_SCALE_FACTOR, deposit);
    if IsSafeDeposit(deposit) {
      forall p: u128 | IsValidPrecision(p) ensures Reconciled(deposit, p).Ok? {
        ReconciledIsExact(deposit, p);
        MulMonotone(1, p, TWO128);
      }
    } else {
      ReconciledIsExact(deposit, 1);
      assert IsValidPrecision(1);
    }
  }

  function Total(deposits: seq<u128>): nat {
    if deposits == [] then 0 else deposits[0] + Total(deposits[1..])
  }

  /** Tokens minted when each deposit of a list is reconciled on its own. */
  function Minted(deposits: seq<u128>, precision: u128): nat {
    if deposits == [] then 0
    else (match Reconciled(deposits[0], precision) case Ok(t) => t case Err(_) => 0)
         + Minted(deposits[1..], precision)
  }

  lemma SmallerDepositReconciles(small: u128, large: u128, precision: u128)
    requires small <= large && Reconciled(large, precision).Ok?
    ensures Reconciled(small, precision).Ok?
  {
    ReconciledIsExact(small, precision);
    ReconciledIsExact(large, precision);
    MulMonotone(small, large, TOKEN_SCALE_FACTOR);
  }

  lemma PieceStep(first: nat, rest: nat, precision: nat, t: nat, minted: nat, k: nat)
    requires t * precision <= first * TOKEN_SCALE_FACTOR < (t + 1) * precision
    requires minted * precision <= rest * TOKEN_SCALE_FACTOR <= minted * precision + k * (precision - 1)
    ensures (t + minted) * precision <= (first + rest) * TOKEN_SCALE_FACTOR
            <= (t + minted) * precision + (k + 1) * (precision - 1)
  {
    assert (t + minted) * precision == t * precision + minted * precision;
    assert (t + 1) * precision == t * precision + precision;
    assert (k + 1) * (precision - 1) == k * (precision - 1) + (precision - 1);
  }

  lemma {:induction false} PiecesAccounted(deposits: seq<u128>, precision: u128)
    requires Total(deposits) < TWO128 && Reconciled(Total(deposits), precision).Ok?
    ensures forall i :: 0 <= i < |deposits| ==> Reconciled(deposits[i], precision).Ok?
    ensures var n := Total(deposits) * TOKEN_SCALE_FACTOR;
            Minted(deposits, precision) * precision <= n
            && n <= Minted(deposits, precision) * precision + |deposits| * (precision - 1)
  {
    if deposits == [] {
    } else {
      var rest := deposits[1..];
      SmallerDepositReconciles(Total(rest), Total(deposits), precision);
      SmallerDepositReconciles(deposits[0], Total(deposits), precision);
      ReconciledIsExact(deposits[0], precision);
      PiecesAccounted(rest, precision);
      PieceStep(deposits[0], Total(rest), precision, Reconciled(deposits[0], precision).value,
                Minted(rest, precision), |rest|);
      forall i | 0 <= i < |deposits| ensures Reconciled(deposits[i], precision).Ok? {
        if i > 0 { assert deposits[i] == rest[i - 1]; }
      }
    }
  }

  lemma BackedUnits(n: nat, precision: nat, minted: nat, k: nat)
    requires precision > 0 && minted * precision <= n <= minted * precision + k * (precision - 1)
    ensures minted <= n / precision && (k > 0 ==> n / precision < minted + k)
  {
    DivAtLeast(n, precision, minted);
    DivAtLeast(n, precision, minted + k);
    assert (minted + k) * precision == minted * precision + k * (precision - 1) + k;
  }

  /** Splitting a deposit never mints more, and loses less than one unit per piece. */
  lemma {:induction false} SplittingNeverMintsMore(deposits: seq<u128>, precision: u128)
    requires Total(deposits) < TWO128 && Reconciled(Total(deposits), precision).Ok?
    ensures forall i :: 0 <= i < |deposits| ==> Reconciled(deposits[i], precision).Ok?
    ensures var whole := Reconciled(Total(deposits), precision).value;
            Minted(deposits, precision) <= whole
            && (deposits != [] ==> whole < Minted(deposits, precision) + |deposits|)
  {
    PiecesAccounted(deposits, precision);
    BackedUnits(Total(deposits) * TOKEN_SCALE_FACTOR, precision, Minted(deposits, precision), |deposits|);
  }
}
