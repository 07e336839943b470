/** Sums over finite maps, for byte accounting. */
module Ledger {

  ghost function Total<K>(m: map<K, nat>): nat
    decreases |m|
  {
    if m == map[] then 0
    else
      assert m.Keys != {};
      var k :| k in m;
      TotalShrinks(m, k);
      m[k] + Total(m - {k})
  }

  lemma TotalShrinks<K>(m: map<K, nat>, k: K)
    requires k in m
    ensures |m - {k}| == |m| - 1
  {
    assert (m - {k}).Keys == m.Keys - {k};
  }

  lemma {:induction false} TotalWithout<K>(m: map<K, nat>, k: K)
    requires k in m
    ensures Total(m) == m[k] + Total(m - {k})
    decreases |m|
  {
    assert m.Keys != {};
    var j :| j in m && Total(m) == m[j] + Total(m - {j});
    if j != k {
      TotalShrinks(m, j);
      TotalShrinks(m, k);
      TotalWithout(m - {j}, k);
      TotalWithout(m - {k}, j);
      assert m - {j} - {k} == m - {k} - {j};
    }
  }

  lemma TotalWith<K>(m: map<K, nat>, k: K, n: nat)
    requires k !in m
    ensures Total(m[k := n]) == Total(m) + n
  {
    TotalWithout(m[k := n], k);
    assert m[k := n] - {k} == m;
  }

  lemma TotalUpdate<K>(m: map<K, nat>, k: K, n: nat)
    ensures Total(m[k := n]) + (if k in m then m[k] else 0) == Total(m) + n
  {
    TotalWithout(m[k := n], k);
    if k in m {
      TotalWithout(m, k);
      assert m[k := n] - {k} == m - {k};
    } else {
      assert m[k := n] - {k} == m;
    }
  }

  lemma {:induction false} TotalBound<K>(m: map<K, nat>, k: K)
    requires k in m
    ensures m[k] <= Total(m)
  {
    TotalWithout(m, k);
  }

  lemma {:induction false} TotalZero<K>(m: map<K, nat>)
    requires forall k | k in m :: m[k] == 0
    ensures Total(m) == 0
    decreases |m|
  {
    if m == map[] {
    } else {
      assert m.Keys != {};
      var k :| k in m;
      TotalShrinks(m, k);
      TotalWithout(m, k);
      TotalZero(m - {k});
    }
  }

  lemma {:induction false} TotalOfPart<K>(part: map<K, nat>, m: map<K, nat>)
    requires forall k | k in part :: k in m && m[k] == part[k]
    ensures Total(part) <= Total(m)
    decreases |part|
  {
    if part == map[] {
    } else {
      assert part.Keys != {};
      var k :| k in part;
      TotalShrinks(part, k);
      TotalWithout(part, k);
      TotalWithout(m, k);
      TotalOfPart(part - {k}, m - {k});
    }
  }
}
