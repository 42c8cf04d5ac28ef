/** Totals over dictionaries, whose order does not matter. */
module Sums {

  ghost function Total<K(!new)>(m: map<K, int>): int {
    if m == map[] then 0
    else
      var k :| k in m;
      m[k] + Total(m - {k})
  }

  /** A new key adds its value. */
  lemma {:induction false} TotalInsert<K(!new)>(m: map<K, int>, k: K, v: int)
    requires k !in m
    ensures Total(m[k := v]) == Total(m) + v
    decreases |m|
  {
    var m' := m[k := v];
    assert m' != map[] by { assert k in m'; }
    var j :| j in m' && Total(m') == m'[j] + Total(m' - {j});
    if j == k {
      assert m' - {k} == m;
    } else {
      assert m' - {j} == (m - {j})[k := v];
      TotalInsert(m - {j}, k, v);
      TotalRemove(m, j);
    }
  }

  lemma TotalRemove<K(!new)>(m: map<K, int>, k: K)
    requires k in m
    ensures Total(m) == m[k] + Total(m - {k})
    decreases |m|, 0
  {
    var j :| j in m && Total(m) == m[j] + Total(m - {j});
    if j != k {
      TotalRemove(m - {j}, k);
      assert m - {j} - {k} == m - {k} - {j};
      TotalRemove(m - {k}, j);
    }
  }

  lemma {:induction false} TotalNonNegative<K(!new)>(m: map<K, int>)
    requires forall k :: k in m ==> m[k] >= 0
    ensures Total(m) >= 0
    decreases |m|
  {
    if m != map[] {
      var k :| k in m && Total(m) == m[k] + Total(m - {k});
      TotalNonNegative(m - {k});
    }
  }

  lemma {:induction false} TotalOfPart<K(!new)>(m: map<K, int>, s: set<K>)
    requires forall k :: k in m ==> m[k] >= 0
    ensures 0 <= Total(m - s) <= Total(m)
    decreases |m|
  {
    if k :| k in m && k in s {
      TotalRemove(m, k);
      assert (m - {k}) - s == m - s;
      assert (m - {k})[k := m[k]] == m;
      TotalOfPart(m - {k}, s);
    } else {
      assert m - s == m;
      TotalNonNegative(m);
    }
  }

  /** If every a[k] is at least n / d of b[k], so is the total. */
  lemma {:induction false} TotalsKeepRatio<K(!new)>(a: map<K, int>, b: map<K, int>, n: int, d: int)
    requires a.Keys == b.Keys
    requires forall k :: k in a ==> n * b[k] <= d * a[k]
    ensures n * Total(b) <= d * Total(a)
    decreases |a|
  {
    if a == map[] {
      assert b == map[];
    } else {
      var k :| k in a;
      var a', b' := a - {k}, b - {k};
      TotalRemove(a, k);
      TotalRemove(b, k);
      assert a'[k := a[k]] == a;
      TotalsKeepRatio(a', b', n, d);
      Combine(n, d, a[k], b[k], Total(a'), Total(b'));
    }
  }

  lemma Combine(n: int, d: int, x: int, y: int, xs: int, ys: int)
    requires n * y <= d * x && n * ys <= d * xs
    ensures n * (y + ys) <= d * (x + xs)
  {
    assert n * (y + ys) == n * y + n * ys;
    assert d * (x + xs) == d * x + d * xs;
  }
}
