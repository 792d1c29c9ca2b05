/** Sums over finite maps: the SUM(size_bytes) of the usage query, and the sum of the headrooms of
    the uploads in flight. */
module Totals {

  ghost function Total<K(!new)>(m: map<K, nat>): (t: nat)
    ensures m == map[] ==> t == 0
  {
    if m == map[] then 0 else
      var k :| k in m;
      m[k] + Total(m - {k})
  }

  /** The sum does not depend on the order in which the entries are visited. */
  lemma {:induction false} TotalSplit<K(!new)>(m: map<K, nat>, k: K)
    requires k in m
    ensures Total(m) == m[k] + Total(m - {k})
    decreases |m|
  {
    var j :| j in m && Total(m) == m[j] + Total(m - {j});
    if j != k {
      TotalSplit(m - {j}, k);
      TotalSplit(m - {k}, j);
      assert m - {j} - {k} == m - {k} - {j};
    }
  }

  lemma TotalInsert<K(!new)>(m: map<K, nat>, k: K, v: nat)
    ensures Total(m[k := v]) == v + Total(m - {k})
  {
    TotalSplit(m[k := v], k);
    assert m[k := v] - {k} == m - {k};
  }

  lemma TotalRemove<K(!new)>(m: map<K, nat>, k: K)
    ensures Total(m) == (if k in m then m[k] else 0) + Total(m - {k})
  {
    if k in m { TotalSplit(m, k); } else { assert m - {k} == m; }
  }

  /** A part of a map sums to no more than the whole. */
  lemma {:induction false} TotalShrinks<K(!new)>(m: map<K, nat>, gone: set<K>)
    ensures Total(m - gone) <= Total(m)
    decreases gone
  {
    if gone == {} {
      assert m - gone == m;
    } else {
      var k :| k in gone;
      TotalShrinks(m - {k}, gone - {k});
      TotalRemove(m, k);
      assert m - {k} - (gone - {k}) == m - gone;
    }
  }

  /** Smaller entries under the same keys sum to no more. */
  lemma {:induction false} TotalPointwise<K(!new)>(a: map<K, nat>, b: map<K, nat>)
    requires a.Keys == b.Keys && forall k :: k in a ==> a[k] <= b[k]
    ensures Total(a) <= Total(b)
    decreases |a|
  {
    if a != map[] {
      var k :| k in a;
      TotalPointwise(a - {k}, b - {k});
      TotalSplit(a, k);
      TotalSplit(b, k);
    } else {
      assert b == map[];
    }
  }

  /** With every entry at most `bound`, the sum is at most the number of entries times `bound`. */
  lemma {:induction false} TotalAtMost<K(!new)>(m: map<K, nat>, bound: nat)
    requires forall k :: k in m ==> m[k] <= bound
    ensures Total(m) <= |m| * bound
    decreases |m|
  {
    if m != map[] {
      var k :| k in m;
      TotalSplit(m, k);
      TotalAtMost(m - {k}, bound);
      assert |m| == |m - {k}| + 1 by { assert m == (m - {k})[k := m[k]]; }
      OneMoreTimes(|m - {k}|, bound);
    }
  }

  lemma OneMoreTimes(count: nat, bound: nat)
    ensures (count + 1) * bound == count * bound + bound
  {
  }
}
