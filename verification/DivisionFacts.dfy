/** The non-linear division facts the contracts' arithmetic rests on. */
module DivisionFacts {

  lemma SmallMultipleIsZero(k: int, d: int)
    requires -d < k * d < d
    ensures k == 0
  {
    if k >= 1 {
      MulMonotone(1, k, d);
    } else if k <= -1 {
      MulMonotone(k, -1, d);
    }
  }

  /** A quotient and a remainder below the divisor are the quotient and the remainder. */
  lemma DivModUnique(n: int, d: int, q: int, r: int)
    requires 0 < d && 0 <= r < d && n == q * d + r
    ensures n / d == q && n % d == r
  {
    DivModParts(n, d);
    var k := q - n / d;
    assert k * d == q * d - (n / d) * d;
    SmallMultipleIsZero(k, d);
  }

  lemma DivModParts(n: int, d: int)
    requires 0 < d
    ensures n == (n / d) * d + n % d && 0 <= n % d < d
  {
  }

  lemma MulSuccessor(a: int, n: int)
    ensures a * (n + 1) == a * n + a
  {
  }

  lemma MulDistributes(a: int, m: int, n: int)
    ensures a * (m + n) == a * m + a * n
  {
  }

  lemma MulMonotone(a: int, b: int, c: int)
    requires a <= b && 0 <= c
    ensures a * c <= b * c
  {
  }

  /** `q <= n / d` says exactly that `q` divisors fit into `n`. */
  lemma DivAtLeast(n: int, d: int, q: int)
    requires 0 < d
    ensures q <= n / d <==> q * d <= n
  {
    DivModParts(n, d);
    if q <= n / d {
      MulMonotone(q, n / d, d);
    } else {
      MulMonotone(n / d + 1, q, d);
    }
  }

  lemma DivMonotone(m: int, n: int, d: int)
    requires 0 < d && m <= n
    ensures m / d <= n / d
  {
    DivModParts(m, d);
    DivAtLeast(n, d, m / d);
  }

  /** Dropping one more low bit halves the quotient. */
  lemma HalveQuotient(x: nat, p: nat)
    requires 0 < p
    ensures x / p == 2 * (x / (2 * p)) + (x / p) % 2
  {
    DivModParts(x, p);
    var y := x / p;
    DivModParts(y, 2);
    var r := (y % 2) * p + x % p;
    assert x == (y / 2) * (2 * p) + r by {
      assert y * p == (2 * (y / 2) + y % 2) * p == (y / 2) * (2 * p) + (y % 2) * p;
    }
    assert r < 2 * p by {
      MulMonotone(y % 2, 1, p);
    }
    assert 0 <= (y % 2) * p;
    DivModUnique(x, 2 * p, y / 2, r);
  }

  lemma QuotientNoLarger(m: nat, d: nat)
    requires 0 < d
    ensures 0 <= m / d <= m
  {
    DivModParts(m, d);
    MulMonotone(1, d, m / d);
  }
}
