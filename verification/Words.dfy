/** Machine words as bounded integers, and the few types every contract shares. */
module Words {
  import DivisionFacts

  const TWO32: nat := 0x1_0000_0000
  const TWO64: nat := 0x1_0000_0000_0000_0000
  const TWO127: nat := 0x8000_0000_0000_0000_0000_0000_0000_0000
  const TWO128: nat := 0x1_0000_0000_0000_0000_0000_0000_0000_0000
  const TWO256: nat := TWO128 * TWO128

  const I128_MAX: int := TWO127 - 1
  const I128_MIN: int := -(TWO127 as int)

  /** A value given one of these types is checked to fit, so every typed intermediate below
      is also a proof that the machine operation it stands for does not overflow. */
  type u64 = x: nat | x < TWO64
  type u128 = x: nat | x < TWO128
  type i128 = x: int | I128_MIN <= x <= I128_MAX

  datatype Option<+T> = None | Some(value: T)
  datatype Result<+T, +E> = Ok(value: T) | Err(error: E)

  datatype Address = Address(id: nat)

  predicate FitsI128(x: int) {
    I128_MIN <= x <= I128_MAX
  }

  /** Two's complement wrap-around of an exact i128 result. */
  function WrapI128(x: int): (r: i128)
    ensures FitsI128(x) ==> r == x
    ensures (r - x) % TWO128 == 0
  {
    var w := (x + TWO127) % TWO128;
    w - TWO127
  }

  lemma WrapCongruent(x: int, y: int, k: int)
    requires y == x + k * TWO128
    ensures WrapI128(y) == WrapI128(x)
  {
    DivisionFacts.DivModParts(x + TWO127, TWO128);
    DivisionFacts.DivModUnique(y + TWO127, TWO128, (x + TWO127) / TWO128 + k, (x + TWO127) % TWO128);
  }

  /** How many times 2^128 wrapping takes off. */
  lemma WrapTakesOff(x: int) returns (k: int)
    ensures WrapI128(x) == x - k * TWO128
  {
    k := (x + TWO127) / TWO128;
    DivisionFacts.DivModParts(x + TWO127, TWO128);
  }

  /** Wrapping a sum step by step or at the end is the same. */
  lemma WrapSum(x: int, y: int)
    ensures WrapI128(WrapI128(x) + y) == WrapI128(x + y)
  {
    var k := WrapTakesOff(x);
    WrapCongruent(x + y, WrapI128(x) + y, -k);
  }

  /** `i128::saturating_mul`. */
  function SaturatingMul(a: int, b: int): (r: i128)
    ensures FitsI128(a * b) ==> r == a * b
    ensures a * b > I128_MAX ==> r == I128_MAX
    ensures a * b < I128_MIN ==> r == I128_MIN
  {
    if a * b > I128_MAX then I128_MAX else if a * b < I128_MIN then I128_MIN else a * b
  }

  /** Integer division as Rust performs it, rounding toward zero. */
  function TruncDiv(a: int, b: int): (r: int)
    requires b > 0
    ensures 0 <= a ==> r == a / b
    ensures a < 0 ==> r == -(-a / b)
  {
    if 0 <= a then a / b else -(-a / b)
  }

  lemma TruncDivFits(a: int, b: int)
    requires b > 0 && FitsI128(a)
    ensures FitsI128(TruncDiv(a, b))
  {
    DivisionFacts.QuotientNoLarger(if 0 <= a then a else -a, b);
  }

  function Pow2(n: nat): (r: nat)
    ensures r >= 1
  {
    if n == 0 then 1 else 2 * Pow2(n - 1)
  }

  lemma Pow2Of128()
    ensures Pow2(64) == TWO64 && Pow2(128) == TWO128
  {
    assert Pow2(8) == 256;
    assert Pow2(16) == 65536;
    assert Pow2(24) == 0x100_0000;
    assert Pow2(32) == 0x1_0000_0000;
    assert Pow2(40) == 0x100_0000_0000;
    assert Pow2(48) == 0x1_0000_0000_0000;
    assert Pow2(56) == 0x100_0000_0000_0000;
    assert Pow2(64) == TWO64;
    Pow2Sum(64, 64);
  }

  lemma {:induction false} Pow2Sum(m: nat, n: nat)
    ensures Pow2(m + n) == Pow2(m) * Pow2(n)
  {
    if n == 0 {
    } else {
      Pow2Sum(m, n - 1);
      assert Pow2(m + n) == 2 * (Pow2(m) * Pow2(n - 1)) == Pow2(m) * Pow2(n);
    }
  }

  lemma {:induction false} Pow2Bound(n: nat)
    requires n <= 128
    ensures Pow2(n) <= TWO128
    decreases 128 - n
  {
    if n == 128 {
      Pow2Of128();
    } else {
      Pow2Bound(n + 1);
    }
  }
}
