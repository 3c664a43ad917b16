/** Sums over ledgers kept as finite maps, where an absent entry counts as zero. */
module MapSum {

  function Get<K>(m: map<K, int>, k: K): int {
    if k in m then m[k] else 0
  }

  ghost function Sum<K>(m: map<K, int>): int
    decreases |m|
  {
    if m == map[] then 0
    else
      var k :| k in m;
      m[k] + Sum(m - {k})
  }

  lemma {:induction false} SumWithout<K>(m: map<K, int>, k: K)
    requires k in m
    ensures Sum(m) == m[k] + Sum(m - {k})
    decreases |m|
  {
    var j :| j in m && Sum(m) == m[j] + Sum(m - {j});
    if j != k {
      SumWithout(m - {j}, k);
      SumWithout(m - {k}, j);
      assert m - {j} - {k} == m - {k} - {j};
    }
  }

  /** Writing one entry moves the sum by exactly what that entry moved. */
  lemma SumUpdate<K>(m: map<K, int>, k: K, v: int)
    ensures Sum(m[k := v]) == Sum(m) - Get(m, k) + v
  {
    var n := m[k := v];
    SumWithout(n, k);
    if k in m {
      SumWithout(m, k);
      assert n - {k} == m - {k};
    } else {
      assert n - {k} == m;
    }
  }

  /** Removing an entry takes exactly its value away. */
  lemma SumRemove<K>(m: map<K, int>, k: K)
    ensures Sum(m - {k}) == Sum(m) - Get(m, k)
  {
    if k in m {
      SumWithout(m, k);
    } else {
      assert m - {k} == m;
    }
  }

  /** In a ledger of nonnegative entries no entry, and no two entries together, exceed the sum. */
  lemma {:induction false} SumBounds<K>(m: map<K, int>, k: K)
    requires forall j :: j in m ==> m[j] >= 0
    ensures 0 <= Get(m, k) <= Sum(m)
    decreases |m|
  {
    if m == map[] {
    } else {
      var j :| j in m;
      if k in m {
        j := k;
      }
      SumWithout(m, j);
      SumBounds(m - {j}, k);
    }
  }

  /** The entries of `m` at the keys in `ks`. */
  function Restrict<K, V>(m: map<K, V>, ks: set<K>): map<K, V> {
    map k | k in m && k in ks :: m[k]
  }

  lemma {:induction false} SumMinus<K>(m: map<K, int>, ks: set<K>)
    ensures Sum(m - ks) == Sum(m) - Sum(Restrict(m, ks))
    decreases |ks|
  {
    if ks == {} {
      assert m - ks == m;
    } else {
      var k :| k in ks;
      var rest := ks - {k};
      SumMinus(m, rest);
      SumRemove(m - rest, k);
      SumRemove(Restrict(m, ks), k);
      assert m - rest - {k} == m - ks;
      assert Restrict(m, ks) - {k} == Restrict(m, rest);
    }
  }

  /** Overlaying `n` on `m` loses exactly what `m` held at the keys of `n`. */
  lemma SumOverlay<K>(m: map<K, int>, n: map<K, int>)
    ensures Sum(m + n) == Sum(m) + Sum(n) - Sum(Restrict(m, n.Keys))
  {
    SumMinus(m, n.Keys);
    SumMinus(m + n, n.Keys);
    assert (m + n) - n.Keys == m - n.Keys;
    assert Restrict(m + n, n.Keys) == n;
  }
}
