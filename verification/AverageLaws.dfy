/** What the time-weighted average is for: exactness, bounds, and independence of presentation. */
module AverageLaws {
  import opened Words
  import opened DivisionFacts
  import opened WeightedRate

  lemma {:induction false} Sums(a: seq<Interval>, b: seq<Interval>)
    ensures Weight(a + b) == Weight(a) + Weight(b)
    ensures Duration(a + b) == Duration(a) + Duration(b)
    decreases |b|
  {
    if b == [] {
      assert a + b == a;
    } else {
      var b' := b[..|b| - 1];
      Sums(a, b');
      assert (a + b)[..|a + b| - 1] == a + b';
    }
  }

  ghost predicate RatesWithin(s: seq<Interval>, low: nat, high: nat) {
    forall i :: 0 <= i < |s| && s[i].duration > 0 ==> low <= s[i].rate <= high
  }

  lemma WeightStep(low: nat, high: nat, rate: nat, time: nat, weight: nat, total: nat)
    requires low * total <= weight <= high * total
    requires time > 0 ==> low <= rate <= high
    ensures low * (total + time) <= weight + rate * time <= high * (total + time)
  {
    assert low * (total + time) == low * total + low * time;
    assert high * (total + time) == high * total + high * time;
    if time > 0 {
      MulMonotone(low, rate, time);
      MulMonotone(rate, high, time);
    } else {
      assert rate * time == low * time == high * time == 0;
    }
  }

  lemma {:induction false} WeightWithin(s: seq<Interval>, low: nat, high: nat)
    requires RatesWithin(s, low, high)
    ensures low * Duration(s) <= Weight(s) <= high * Duration(s)
  {
    if s == [] {
    } else {
      var last := s[|s| - 1];
      var init := s[..|s| - 1];
      assert RatesWithin(init, low, high);
      WeightWithin(init, low, high);
      WeightStep(low, high, last.rate, last.duration, Weight(init), Duration(init));
    }
  }

  lemma {:induction false} DurationBound(s: seq<Interval>)
    ensures Duration(s) <= |s| * (TWO64 - 1)
  {
    if s == [] {
    } else {
      DurationBound(s[..|s| - 1]);
      assert |s| * (TWO64 - 1) == (|s| - 1) * (TWO64 - 1) + (TWO64 - 1);
    }
  }

  lemma RoundWithin(n: nat, d: nat, low: nat, high: nat)
    requires 0 < d && low * d <= n <= high * d
    ensures low <= RoundHalfUp(n, d) <= high
  {
    DivAtLeast(2 * n + d, 2 * d, low);
    DivAtLeast(2 * n + d, 2 * d, high + 1);
    assert low * (2 * d) == 2 * (low * d);
    assert (high + 1) * (2 * d) == 2 * (high * d) + 2 * d;
  }

  /** A mean of 128-bit rates is a 128-bit rate: the quotient and the rounded-up quotient always fit. */
  lemma MeanFits(s: seq<Interval>)
    requires Duration(s) > 0
    ensures Weight(s) / Duration(s) < TWO128
    ensures RoundHalfUp(Weight(s), Duration(s)) < TWO128
  {
    WeightWithin(s, 0, TWO128 - 1);
    RoundWithin(Weight(s), Duration(s), 0, TWO128 - 1);
    RoundAtLeastFloor(Weight(s), Duration(s));
  }

  /** For every list, `None` means one of three things, and nothing else. */
  lemma NoneExactly(s: seq<Interval>)
    ensures Average(s).None? <==> Duration(s) == 0 || Weight(s) >= TWO256 || Duration(s) >= TWO128
  {
    if Duration(s) > 0 {
      MeanFits(s);
    }
  }

  /** Fewer than 2^64 intervals never reach an overflow exit: the average is the exact
      round-half-up of the integer quotient, and is missing only when no time passed. */
  lemma {:induction false} AverageIsExact(s: seq<Interval>)
    requires |s| < TWO64
    ensures Weight(s) < TWO256 && Duration(s) < TWO128
    ensures Average(s) == if Duration(s) == 0 then None else Some(RoundHalfUp(Weight(s), Duration(s)))
  {
    DurationBound(s);
    MulMonotone(|s|, TWO64, TWO64 - 1);
    WeightWithin(s, 0, TWO128 - 1);
    MulMonotone(Duration(s), TWO128 - 1, TWO128 - 1);
    NoneExactly(s);
  }

  /** The average lies between the smallest and the largest rate that held for any time. */
  lemma AverageWithinRates(s: seq<Interval>, low: nat, high: nat)
    requires RatesWithin(s, low, high) && Average(s).Some?
    ensures low <= Average(s).value <= high
  {
    WeightWithin(s, low, high);
    RoundWithin(Weight(s), Duration(s), low, high);
  }

  lemma SingleSums(x: Interval)
    ensures Weight([x]) == x.rate * x.duration && Duration([x]) == x.duration
  {
    assert [x][..0] == [];
  }

  lemma SumsAround(a: seq<Interval>, mid: seq<Interval>, b: seq<Interval>)
    ensures Weight(a + mid + b) == Weight(a + b) + Weight(mid)
    ensures Duration(a + mid + b) == Duration(a + b) + Duration(mid)
  {
    Sums(a, b);
    Sums(a, mid);
    Sums(a + mid, b);
  }

  lemma Rejoin(s: seq<Interval>, k: nat)
    requires k < |s|
    ensures s[..k] + [s[k]] + s[k + 1..] == s
  {
  }

  function Without(s: seq<Interval>, k: nat): (rest: seq<Interval>)
    requires k < |s|
    ensures multiset(rest) == multiset(s) - multiset{s[k]}
  {
    Rejoin(s, k);
    s[..k] + s[k + 1..]
  }

  lemma SumsWithout(s: seq<Interval>, k: nat)
    requires k < |s|
    ensures Weight(s) == Weight(Without(s, k)) + s[k].rate * s[k].duration
    ensures Duration(s) == Duration(Without(s, k)) + s[k].duration
  {
    Rejoin(s, k);
    SumsAround(s[..k], [s[k]], s[k + 1..]);
    SingleSums(s[k]);
  }

  lemma SharedElement(a: seq<Interval>, b: seq<Interval>) returns (k: nat)
    requires multiset(a) == multiset(b) && a != []
    ensures k < |b| && b[k] == a[0]
  {
    assert a[0] in multiset(b);
    k :| 0 <= k < |b| && b[k] == a[0];
  }

  lemma {:induction false} PermutedSums(a: seq<Interval>, b: seq<Interval>)
    requires multiset(a) == multiset(b)
    ensures Weight(a) == Weight(b) && Duration(a) == Duration(b)
    decreases |a|
  {
    assert |multiset(a)| == |multiset(b)|;
    if a == [] {
    } else {
      var k := SharedElement(a, b);
      SumsWithout(a, 0);
      SumsWithout(b, k);
      PermutedSums(Without(a, 0), Without(b, k));
    }
  }

  lemma PermutationInvariant(a: seq<Interval>, b: seq<Interval>)
    requires multiset(a) == multiset(b)
    ensures Average(a) == Average(b)
  {
    PermutedSums(a, b);
  }

  lemma ZeroDurationIgnored(a: seq<Interval>, b: seq<Interval>, rate: u128)
    ensures Average(a + [Interval(rate, 0)] + b) == Average(a + b)
  {
    SumsAround(a, [Interval(rate, 0)], b);
    SingleSums(Interval(rate, 0));
    assert rate * 0 == 0;
  }

  /** Reporting a window in two pieces changes nothing, overflow exits included. */
  lemma {:induction false} SplittingInvariant(a: seq<Interval>, b: seq<Interval>, rate: u128, d1: u64, d2: u64)
    requires d1 + d2 < TWO64
    ensures Average(a + [Interval(rate, d1), Interval(rate, d2)] + b) == Average(a + [Interval(rate, d1 + d2)] + b)
  {
    var one, two := [Interval(rate, d1 + d2)], [Interval(rate, d1), Interval(rate, d2)];
    assert two == [Interval(rate, d1)] + [Interval(rate, d2)];
    Sums([Interval(rate, d1)], [Interval(rate, d2)]);
    SingleSums(Interval(rate, d1));
    SingleSums(Interval(rate, d2));
    SingleSums(Interval(rate, d1 + d2));
    assert rate * (d1 + d2) == rate * d1 + rate * d2;
    SumsAround(a, one, b);
    SumsAround(a, two, b);
  }
}
