/** Exact 256-bit rate arithmetic on 128-bit words: `contracts/common/src/weighted_rate.rs`. */
module WeightedRate {
  import opened Words
  import opened DivisionFacts

  // ---------- Integer meanings ----------

  /** The number a (hi, lo) pair of limbs stands for. */
  function Wide(hi: nat, lo: nat): nat {
    hi * TWO128 + lo
  }

  /** Round-half-up of the rational n/d: the floor of n/d + 1/2. */
  function RoundHalfUp(n: nat, d: nat): nat
    requires 0 < d
  {
    (2 * n + d) / (2 * d)
  }

  function AsU128(n: nat): Option<u128> {
    if n < TWO128 then Some(n) else None
  }

  function ExactFloor(n: nat, d: nat): Option<u128> {
    if d == 0 then None else AsU128(n / d)
  }

  function ExactRound(n: nat, d: nat): Option<u128> {
    if d == 0 then None else AsU128(RoundHalfUp(n, d))
  }

  function ExactDivMod(n: nat, d: nat): Option<(u128, nat)> {
    if d == 0 || n / d >= TWO128 then None else Some((n / d, n % d))
  }

  /** RoundHalfUp(n, d) is an integer nearest to n/d, and of two equally near the larger. */
  lemma RoundHalfUpIsNearest(n: nat, d: nat)
    requires 0 < d
    ensures 2 * n - d < 2 * (RoundHalfUp(n, d) * d) <= 2 * n + d
  {
    var q := RoundHalfUp(n, d);
    DivModParts(2 * n + d, 2 * d);
    assert q * (2 * d) == 2 * (q * d);
  }

  lemma RoundHalfUpUnique(n: nat, d: nat, q: nat)
    requires 0 < d && 2 * n - d < 2 * (q * d) <= 2 * n + d
    ensures q == RoundHalfUp(n, d)
  {
    assert q * (2 * d) == 2 * (q * d);
    DivModUnique(2 * n + d, 2 * d, q, 2 * n + d - q * (2 * d));
  }

  /** The rounded quotient leaves u128 exactly when n/d is at least 2^128 - 1/2. */
  lemma RoundOverflowsExactly(n: nat, d: nat)
    requires 0 < d
    ensures RoundHalfUp(n, d) >= TWO128 <==> 2 * n + d >= 2 * (TWO128 * d)
  {
    DivAtLeast(2 * n + d, 2 * d, TWO128);
    assert TWO128 * (2 * d) == 2 * (TWO128 * d);
  }

  // ---------- Word-level operations ----------

  /** `x & LOW64` and `x >> 64`. */
  function Low64(x: u128): u64 { x % TWO64 }

  function High64(x: u128): u64 { x / TWO64 }

  /** `x << 1`: the top bit is lost. */
  function ShiftLeft1(x: u128): u128 { (2 * x) % TWO128 }

  /** `x >> n`. */
  function ShiftRight(x: u128, n: nat): (r: u128)
    ensures r <= x
  {
    QuotientNoLarger(x, Pow2(n));
    x / Pow2(n)
  }

  function WrappingSub(x: u128, y: u128): u128 { (x - y) % TWO128 }

  function OverflowingAdd(x: u128, y: u128): (r: (u128, bool))
    ensures r.0 + (if r.1 then TWO128 else 0) == x + y
  {
    ((x + y) % TWO128, x + y >= TWO128)
  }

  lemma HalfProductFits(x: u64, y: u64)
    ensures x * y < TWO128
  {
    MulMonotone(x, TWO64 - 1, y);
    MulMonotone(y, TWO64 - 1, TWO64 - 1);
  }

  lemma PartialProducts(a: u128, b: u128)
    ensures a * b == (High64(a) * High64(b)) * TWO128
                     + (Low64(a) * High64(b) + High64(a) * Low64(b)) * TWO64
                     + Low64(a) * Low64(b)
  {
    var a0, a1, b0, b1 := Low64(a), High64(a), Low64(b), High64(b);
    assert a == a1 * TWO64 + a0 && b == b1 * TWO64 + b0;
    calc {
      a * b;
      (a1 * TWO64 + a0) * b;
      (a1 * b) * TWO64 + a0 * b;
      { assert a1 * b == (a1 * b1) * TWO64 + a1 * b0; assert a0 * b == (a0 * b1) * TWO64 + a0 * b0; }
      ((a1 * b1) * TWO64 + a1 * b0) * TWO64 + ((a0 * b1) * TWO64 + a0 * b0);
    }
  }

  lemma WordProductBound(a: u128, b: u128)
    ensures a * b < TWO256
  {
    MulMonotone(a, TWO128 - 1, b);
    MulMonotone(b, TWO128 - 1, TWO128 - 1);
  }

  /** The column sums stay inside 128 bits, and the limbs they form denote the total. */
  lemma ColumnSums(p00: u128, p01: u128, p10: u128, p11: u128, total: nat)
    requires total == p11 * TWO128 + (p01 + p10) * TWO64 + p00 < TWO256
    ensures var mid := High64(p00) + Low64(p01) + Low64(p10);
            && mid < TWO128
            && var lo := Low64(p00) + Low64(mid) * TWO64;
               var hi := p11 + High64(p01) + High64(p10) + High64(mid);
            && lo < TWO128 && hi < TWO128 && Wide(hi, lo) == total
  {
  }

  /** Full 128x128 -> 256-bit product; the two limbs denote exactly a * b. */
  function MulFull(a: u128, b: u128): (r: (u128, u128))
    ensures Wide(r.0, r.1) == a * b
  {
    var a0, a1 := Low64(a), High64(a);
    var b0, b1 := Low64(b), High64(b);
    PartialProducts(a, b);
    WordProductBound(a, b);
    HalfProductFits(a0, b0);
    HalfProductFits(a0, b1);
    HalfProductFits(a1, b0);
    HalfProductFits(a1, b1);
    var p00: u128 := a0 * b0;
    var p01: u128 := a0 * b1;
    var p10: u128 := a1 * b0;
    var p11: u128 := a1 * b1;
    ColumnSums(p00, p01, p10, p11, a * b);
    var mid: u128 := High64(p00) + Low64(p01) + Low64(p10);
    var lo: u128 := Low64(p00) + Low64(mid) * TWO64;
    var hi: u128 := p11 + High64(p01) + High64(p10) + High64(mid);
    (hi, lo)
  }

  /** Limb-wise addition: exact modulo 2^256, and the flag is set exactly on overflow. */
  function Add256(acc: (u128, u128), add: (u128, u128)): (r: ((u128, u128), bool))
    ensures r.1 <==> Wide(acc.0, acc.1) + Wide(add.0, add.1) >= TWO256
    ensures !r.1 ==> Wide(r.0.0, r.0.1) == Wide(acc.0, acc.1) + Wide(add.0, add.1)
    ensures r.1 ==> Wide(r.0.0, r.0.1) + TWO256 == Wide(acc.0, acc.1) + Wide(add.0, add.1)
  {
    var (lo, c0) := OverflowingAdd(acc.1, add.1);
    var (hi1, c1) := OverflowingAdd(acc.0, add.0);
    var (hi, c2) := OverflowingAdd(hi1, if c0 then 1 else 0);
    ((hi, lo), c1 || c2)
  }

  // ---------- Restoring long division ----------

  /** One step: shift in a bit, subtract when the (129-bit) value reaches the divisor. */
  lemma DivisionStep(rem: u128, bit: nat, d: u128)
    requires rem < d && bit < 2
    ensures var shifted := ShiftLeft1(rem) + bit;
            && shifted < TWO128
            && var take := rem / TWO127 == 1 || shifted >= d;
            && (take <==> 2 * rem + bit >= d)
            && (take ==> WrappingSub(shifted, d) == 2 * rem + bit - d)
            && (!take ==> shifted == 2 * rem + bit)
  {
    if rem >= TWO127 {
      assert rem / TWO127 == 1;
      assert ShiftLeft1(rem) == 2 * rem - TWO128;
    } else {
      assert rem / TWO127 == 0;
      assert ShiftLeft1(rem) == 2 * rem;
    }
  }

  lemma DoubledQuotient(quot: nat, d: nat, taken: nat)
    requires taken < 2
    ensures (2 * quot + taken) * d == 2 * (quot * d) + (if taken == 1 then d else 0)
  {
    MulDistributes(d, 2 * quot, taken);
    MulDistributes(d, quot, quot);
  }

  lemma DoubledPower(hi: nat, i: nat)
    requires i < 128
    ensures hi * Pow2(128 - i) == 2 * (hi * Pow2(127 - i))
  {
    MulDistributes(hi, Pow2(127 - i), Pow2(127 - i));
  }

  lemma DivisionAccounting(hi: nat, lo: nat, d: nat, i: nat, quot: nat, rem: nat, bit: nat, taken: nat, rem': nat)
    requires i < 128 && bit == (lo / Pow2(i)) % 2 && taken < 2
    requires quot * d + rem == hi * Pow2(127 - i) + lo / Pow2(i + 1)
    requires rem' == 2 * rem + bit - (if taken == 1 then d else 0)
    ensures (2 * quot + taken) * d + rem' == hi * Pow2(128 - i) + lo / Pow2(i)
  {
    HalveQuotient(lo, Pow2(i));
    DoubledQuotient(quot, d, taken);
    DoubledPower(hi, i);
  }

  /** After the top 128 - i bits of `lo` were shifted in, (quot, rem) divides what was read so far. */
  ghost predicate Divided(hi: nat, lo: nat, d: nat, i: nat, quot: nat, rem: nat)
    requires i <= 128
  {
    && rem < d
    && quot < Pow2(128 - i) <= TWO128
    && quot * d + rem == hi * Pow2(128 - i) + lo / Pow2(i)
  }

  lemma DividedStart(hi: u128, lo: u128, d: u128)
    requires hi < d
    ensures Divided(hi, lo, d, 128, 0, hi)
  {
    Pow2Of128();
    DivModUnique(lo, TWO128, 0, lo);
  }

  lemma QuotientGrows(i: nat, quot: u128)
    requires i < 128 && quot < Pow2(127 - i)
    ensures 2 * quot + 1 < Pow2(128 - i) <= TWO128 && ShiftLeft1(quot) == 2 * quot
  {
    Pow2Bound(128 - i);
  }

  lemma DividedStep(hi: u128, lo: u128, d: u128, i: nat, quot: u128, rem: u128)
    requires i < 128 && Divided(hi, lo, d, i + 1, quot, rem)
    ensures var bit := ShiftRight(lo, i) % 2;
            var shifted := ShiftLeft1(rem) + bit;
            && shifted < TWO128
            && if rem / TWO127 == 1 || shifted >= d
               then Divided(hi, lo, d, i, ShiftLeft1(quot) + 1, WrappingSub(shifted, d))
               else Divided(hi, lo, d, i, ShiftLeft1(quot), shifted)
  {
    var bit := ShiftRight(lo, i) % 2;
    DivisionStep(rem, bit, d);
    QuotientGrows(i, quot);
    if 2 * rem + bit >= d {
      DivisionAccounting(hi, lo, d, i, quot, rem, bit, 1, 2 * rem + bit - d);
    } else {
      DivisionAccounting(hi, lo, d, i, quot, rem, bit, 0, 2 * rem + bit);
    }
  }

  lemma DividedEnd(hi: u128, lo: u128, d: u128, quot: u128, rem: u128)
    requires Divided(hi, lo, d, 0, quot, rem)
    ensures ExactDivMod(Wide(hi, lo), d) == Some((quot, rem))
  {
    Pow2Of128();
    DivModUnique(Wide(hi, lo), d, quot, rem);
  }

  lemma QuotientTooWide(hi: u128, lo: u128, d: u128)
    requires d != 0 && hi >= d
    ensures Wide(hi, lo) / d >= TWO128
  {
    MulMonotone(d, hi, TWO128);
    DivAtLeast(Wide(hi, lo), d, TWO128);
  }

  method Div256By128(hi: u128, lo: u128, d: u128) returns (r: Option<(u128, u128)>)
    ensures r == ExactDivMod(Wide(hi, lo), d)
  {
    if d == 0 || hi >= d {
      if d != 0 {
        QuotientTooWide(hi, lo, d);
      }
      return None;
    }
    var rem: u128, quot: u128, i := hi, 0, 128;
    DividedStart(hi, lo, d);
    while i > 0
      invariant 0 <= i <= 128
      invariant Divided(hi, lo, d, i, quot, rem)
    {
      i := i - 1;
      DividedStep(hi, lo, d, i, quot, rem);
      var bit := ShiftRight(lo, i) % 2;
      var carryOut := rem / TWO127;
      var shifted: u128 := ShiftLeft1(rem) + bit;
      if carryOut == 1 || shifted >= d {
        rem := WrappingSub(shifted, d);
        quot := ShiftLeft1(quot) + 1;
      } else {
        rem := shifted;
        quot := ShiftLeft1(quot);
      }
    }
    DividedEnd(hi, lo, d, quot, rem);
    return Some((quot, rem));
  }

  /** `round_half_up`: the remainder decides, through a doubling that may itself overflow. */
  function RoundUpQuotient(q: u128, r: u128, d: u128): (res: Option<u128>)
    requires r < d
    ensures res == ExactRound(q * d + r, d)
  {
    var roundUp := if 2 * r < TWO128 then 2 * r >= d else true;
    var n := q * d + r;
    RoundHalfUpUnique'(q, r, d, roundUp);
    if roundUp then AsU128(q + 1) else Some(q)
  }

  lemma RoundHalfUpUnique'(q: u128, r: u128, d: u128, up: bool)
    requires r < d && (up <==> 2 * r >= d)
    ensures RoundHalfUp(q * d + r, d) == if up then q + 1 else q
  {
    assert (q + 1) * d == q * d + d;
    RoundHalfUpUnique(q * d + r, d, if up then q + 1 else q);
  }

  lemma FloorBracket(n: nat, d: nat)
    requires 0 < d
    ensures n / d >= TWO128 <==> n >= TWO128 * d
    ensures (n / d) * d <= n < (n / d + 1) * d
  {
    DivAtLeast(n, d, TWO128);
    DivAtLeast(n, d, n / d);
    DivAtLeast(n, d, n / d + 1);
  }

  /** `None` exactly without a divisor or when the quotient needs more than 128 bits. */
  method MulDivFloor(a: u128, b: u128, d: u128) returns (r: Option<u128>)
    ensures r == ExactFloor(a * b, d)
    ensures r.None? <==> d == 0 || a * b >= TWO128 * d
    ensures r.Some? ==> r.value * d <= a * b < (r.value + 1) * d
  {
    if d != 0 {
      FloorBracket(a * b, d);
    }
    var (hi, lo) := MulFull(a, b);
    var qr := Div256By128(hi, lo, d);
    return if qr.None? then None else Some(qr.value.0);
  }

  /** The integer nearest to a*b/d, ties upward; `None` exactly without a divisor or when that integer
      needs more than 128 bits. */
  method MulDivRound(a: u128, b: u128, d: u128) returns (r: Option<u128>)
    ensures r == ExactRound(a * b, d)
    ensures r.None? <==> d == 0 || 2 * (a * b) + d >= 2 * (TWO128 * d)
    ensures r.Some? ==> 2 * (a * b) - d < 2 * (r.value * d) <= 2 * (a * b) + d
  {
    if d != 0 {
      RoundOverflowsExactly(a * b, d);
      RoundHalfUpIsNearest(a * b, d);
    }
    var (hi, lo) := MulFull(a, b);
    var qr := Div256By128(hi, lo, d);
    if qr.None? {
      if d != 0 {
        RoundAtLeastFloor(a * b, d);
      }
      return None;
    }
    DivModParts(a * b, d);
    return RoundUpQuotient(qr.value.0, qr.value.1, d);
  }

  lemma RoundAtLeastFloor(n: nat, d: nat)
    requires 0 < d
    ensures n / d <= RoundHalfUp(n, d) <= n / d + 1
  {
    DivModParts(n, d);
    var q, r := n / d, n % d;
    assert (q + 1) * d == q * d + d;
    RoundHalfUpUnique(n, d, if 2 * r >= d then q + 1 else q);
  }

  // ---------- Time-weighted average ----------

  /** A rate that held for `duration` seconds. */
  datatype Interval = Interval(rate: u128, duration: u64)

  function Weight(s: seq<Interval>): nat {
    if s == [] then 0 else Weight(s[..|s| - 1]) + s[|s| - 1].rate * s[|s| - 1].duration
  }

  function Duration(s: seq<Interval>): nat {
    if s == [] then 0 else Duration(s[..|s| - 1]) + s[|s| - 1].duration
  }

  /** What the averaging loop computes: `None` on a 256-bit or a duration overflow. */
  function Average(s: seq<Interval>): Option<u128> {
    if Weight(s) >= TWO256 || Duration(s) >= TWO128 then None else ExactRound(Weight(s), Duration(s))
  }

  lemma {:induction false} PrefixSums(s: seq<Interval>, i: nat)
    requires i <= |s|
    ensures Weight(s[..i]) <= Weight(s) && Duration(s[..i]) <= Duration(s)
    decreases |s| - i
  {
    if i == |s| {
      assert s[..i] == s;
    } else {
      PrefixSums(s, i + 1);
      assert s[..i + 1][..i] == s[..i];
    }
  }

  method WeightedAverage(intervals: seq<Interval>) returns (r: Option<u128>)
    ensures r == Average(intervals)
  {
    var acc: (u128, u128) := (0, 0);
    var totalDuration: u128 := 0;
    var i := 0;
    while i < |intervals|
      invariant i <= |intervals|
      invariant Wide(acc.0, acc.1) == Weight(intervals[..i])
      invariant totalDuration == Duration(intervals[..i])
    {
      var d := intervals[i].duration;
      PrefixSums(intervals, i + 1);
      assert intervals[..i + 1][..i] == intervals[..i];
      var (next, overflow) := Add256(acc, MulFull(intervals[i].rate, d));
      if overflow {
        return None;
      }
      acc := next;
      if totalDuration + d >= TWO128 {
        return None;
      }
      totalDuration := totalDuration + d;
      i := i + 1;
    }
    assert intervals[..i] == intervals;
    if totalDuration == 0 {
      return None;
    }
    var qr := Div256By128(acc.0, acc.1, totalDuration);
    if qr.None? {
      RoundAtLeastFloor(Weight(intervals), totalDuration);
      return None;
    }
    DivModParts(Weight(intervals), totalDuration);
    return RoundUpQuotient(qr.value.0, qr.value.1, totalDuration);
  }
}
