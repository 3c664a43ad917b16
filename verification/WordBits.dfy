/** The masks, shifts and ors of the 128-bit code, as operations on bits, are the remainders,
    quotients and sums that `WeightedRate` writes for them, for every word and every shift. */
module WordBits {
  import opened Words
  import opened DivisionFacts
  import opened WeightedRate

  /** A word, least significant bit first. */
  type Bits = seq<bool>

  function Value(w: Bits): nat {
    if w == [] then 0 else (if w[0] then 1 else 0) + 2 * Value(w[1..])
  }

  /** The n low bits of x. */
  function BitsOf(x: nat, n: nat): (w: Bits)
    ensures |w| == n
  {
    if n == 0 then [] else [x % 2 == 1] + BitsOf(x / 2, n - 1)
  }

  function Zeros(n: nat): Bits {
    seq(n, i => false)
  }

  // ---------- Bit operations on words of any width ----------

  /** `w >> i`. */
  function ShiftedRight(w: Bits, i: nat): Bits
    requires i <= |w|
  {
    w[i..] + Zeros(i)
  }

  /** `w << i`: the top bits are lost. */
  function ShiftedLeft(w: Bits, i: nat): Bits
    requires i <= |w|
  {
    Zeros(i) + w[..|w| - i]
  }

  /** `w & (2^k - 1)`. */
  function Masked(w: Bits, k: nat): Bits
    requires k <= |w|
  {
    w[..k] + Zeros(|w| - k)
  }

  /** `w | v`. */
  function Or(w: Bits, v: Bits): Bits
    requires |w| == |v|
  {
    seq(|w|, i requires 0 <= i < |w| => w[i] || v[i])
  }

  // ---------- What they do to values ----------

  lemma {:induction false} ValueOfZeros(n: nat)
    ensures Value(Zeros(n)) == 0
  {
    if n == 0 {
    } else {
      assert Zeros(n)[1..] == Zeros(n - 1);
      ValueOfZeros(n - 1);
    }
  }

  lemma {:induction false} ValueBound(w: Bits)
    ensures Value(w) < Pow2(|w|)
  {
    if w == [] {
    } else {
      ValueBound(w[1..]);
    }
  }

  lemma {:induction false} ValueOfConcat(low: Bits, high: Bits)
    ensures Value(low + high) == Value(low) + Value(high) * Pow2(|low|)
  {
    if low == [] {
      assert low + high == high;
    } else {
      assert (low + high)[1..] == low[1..] + high;
      ValueOfConcat(low[1..], high);
      MulDistributes(Value(high), Pow2(|low| - 1), Pow2(|low| - 1));
    }
  }

  lemma {:induction false} ValueOfBits(x: nat, n: nat)
    requires x < Pow2(n)
    ensures Value(BitsOf(x, n)) == x
  {
    if n == 0 {
    } else {
      ValueOfBits(x / 2, n - 1);
      assert BitsOf(x, n)[1..] == BitsOf(x / 2, n - 1);
    }
  }

  /** Cutting a word at bit i is division with remainder by 2^i. */
  lemma CutIsDivision(w: Bits, i: nat)
    requires i <= |w|
    ensures Value(w[i..]) == Value(w) / Pow2(i) && Value(w[..i]) == Value(w) % Pow2(i)
  {
    assert w == w[..i] + w[i..];
    ValueOfConcat(w[..i], w[i..]);
    ValueBound(w[..i]);
    DivModUnique(Value(w), Pow2(i), Value(w[i..]), Value(w[..i]));
  }

  lemma PaddedRight(w: Bits, n: nat)
    ensures Value(w + Zeros(n)) == Value(w)
  {
    ValueOfConcat(w, Zeros(n));
    ValueOfZeros(n);
  }

  lemma ShiftedRightValue(w: Bits, i: nat)
    requires i <= |w|
    ensures Value(ShiftedRight(w, i)) == Value(w) / Pow2(i)
  {
    CutIsDivision(w, i);
    PaddedRight(w[i..], i);
  }

  lemma MaskedValue(w: Bits, k: nat)
    requires k <= |w|
    ensures Value(Masked(w, k)) == Value(w) % Pow2(k)
  {
    CutIsDivision(w, k);
    PaddedRight(w[..k], |w| - k);
  }

  lemma ShiftedLeftValue(w: Bits, i: nat)
    requires i <= |w|
    ensures Value(ShiftedLeft(w, i)) == (Value(w) % Pow2(|w| - i)) * Pow2(i)
  {
    CutIsDivision(w, |w| - i);
    ValueOfConcat(Zeros(i), w[..|w| - i]);
    ValueOfZeros(i);
  }

  /** Words without a common bit are joined by addition. */
  lemma {:induction false} DisjointOr(w: Bits, v: Bits)
    requires |w| == |v| && forall i :: 0 <= i < |w| ==> !(w[i] && v[i])
    ensures Value(Or(w, v)) == Value(w) + Value(v)
  {
    if w == [] {
    } else {
      assert Or(w, v)[1..] == Or(w[1..], v[1..]);
      DisjointOr(w[1..], v[1..]);
    }
  }

  // ---------- The expressions of the 128-bit code ----------

  function Word(x: u128): (w: Bits)
    ensures |w| == 128 && Value(w) == x
  {
    Pow2Of128();
    ValueOfBits(x, 128);
    BitsOf(x, 128)
  }

  /** `x & LOW64` and `x >> 64`. */
  lemma Halves(x: u128)
    ensures Low64(x) == Value(Masked(Word(x), 64))
    ensures High64(x) == Value(ShiftedRight(Word(x), 64))
  {
    Pow2Of128();
    MaskedValue(Word(x), 64);
    ShiftedRightValue(Word(x), 64);
  }

  /** `(low & LOW64) | ((high & LOW64) << 64)`: the low limb of a product. */
  lemma JoinedHalves(low: u128, high: u128)
    ensures Low64(low) + Low64(high) * TWO64
         == Value(Or(Masked(Word(low), 64), ShiftedLeft(Masked(Word(high), 64), 64)))
  {
    var l, h := Masked(Word(low), 64), Masked(Word(high), 64);
    Pow2Of128();
    MaskedValue(Word(low), 64);
    MaskedValue(Word(high), 64);
    ShiftedLeftValue(h, 64);
    DivModUnique(Value(h), TWO64, 0, Value(h));
    DisjointOr(l, ShiftedLeft(h, 64));
  }

  /** `(lo >> i) & 1`, for every shift the loop makes. */
  lemma SelectedBit(lo: u128, i: nat)
    requires i < 128
    ensures ShiftRight(lo, i) % 2 == Value(Masked(ShiftedRight(Word(lo), i), 1))
  {
    ShiftedRightValue(Word(lo), i);
    MaskedValue(ShiftedRight(Word(lo), i), 1);
    assert Pow2(1) == 2;
  }

  /** `(rem << 1) | bit`, and `rem >> 127`, the bit that falls out. */
  lemma ShiftedIn(rem: u128, bit: u128)
    requires bit < 2
    ensures ShiftLeft1(rem) + bit == Value(Or(ShiftedLeft(Word(rem), 1), Word(bit)))
    ensures rem / TWO127 == Value(ShiftedRight(Word(rem), 127))
  {
    Pow2Of128();
    assert Pow2(1) == 2 && Pow2(128) == 2 * Pow2(127);
    ShiftedRightValue(Word(rem), 127);
    ShiftedLeftValue(Word(rem), 1);
    TopBitLost(rem);
    OneBitWord(bit);
    DisjointOr(ShiftedLeft(Word(rem), 1), Word(bit));
  }

  lemma TopBitLost(rem: u128)
    ensures ShiftLeft1(rem) == 2 * (rem % TWO127)
  {
    DivModParts(rem, TWO127);
    DivModUnique(2 * rem, TWO128, rem / TWO127, 2 * (rem % TWO127));
  }

  /** Above its lowest bit a word below 2 is empty. */
  lemma OneBitWord(bit: u128)
    requires bit < 2
    ensures forall i :: 1 <= i < 128 ==> !Word(bit)[i]
  {
    assert BitsOf(bit, 128) == [bit % 2 == 1] + BitsOf(0, 127);
    NoBits(127);
  }

  lemma {:induction false} NoBits(n: nat)
    ensures BitsOf(0, n) == Zeros(n)
  {
    if n == 0 {
    } else {
      NoBits(n - 1);
    }
  }
}
