/** Sizes of finite sets, and sums over finite maps in the arbitrary order a hash map yields its entries. */
module Sums {

  ghost function SumOf<K(!new)>(m: map<K, nat>, keys: set<K>): nat
    requires keys <= m.Keys
  {
    if keys == {} then 0
    else
      var k :| k in keys;
      m[k] + SumOf(m, keys - {k})
  }

  /** Any key may be taken first. */
  lemma {:induction false} SumTake<K(!new)>(m: map<K, nat>, keys: set<K>, k: K)
    requires keys <= m.Keys && k in keys
    ensures SumOf(m, keys) == m[k] + SumOf(m, keys - {k})
    decreases keys
  {
    var first :| first in keys && SumOf(m, keys) == m[first] + SumOf(m, keys - {first});
    if first != k {
      SumTake(m, keys - {first}, k);
      SumTake(m, keys - {k}, first);
      assert keys - {first} - {k} == keys - {k} - {first};
    }
  }

  /** Only the values at `keys` matter. */
  lemma {:induction false} SumAgree<K(!new)>(m: map<K, nat>, n: map<K, nat>, keys: set<K>)
    requires keys <= m.Keys && keys <= n.Keys
    requires forall k :: k in keys ==> m[k] == n[k]
    ensures SumOf(m, keys) == SumOf(n, keys)
    decreases keys
  {
    if keys != {} {
      var k :| k in keys;
      SumTake(m, keys, k);
      SumTake(n, keys, k);
      SumAgree(m, n, keys - {k});
    }
  }

  /** Raising one value (from 0 when absent) raises the sum by the difference. */
  lemma SumRaise<K(!new)>(m: map<K, nat>, keys: set<K>, k: K, v: nat)
    requires keys <= m.Keys
    requires k in m ==> k in keys && m[k] <= v
    ensures SumOf(m[k := v], keys + {k}) == SumOf(m, keys) + v - (if k in m then m[k] else 0)
  {
    var n := m[k := v];
    SumTake(n, keys + {k}, k);
    assert keys + {k} - {k} == keys - {k};
    SumAgree(m, n, keys - {k});
    if k in m {
      SumTake(m, keys, k);
    } else {
      assert keys - {k} == keys;
    }
  }

  lemma {:induction false} SumBoundsMember<K(!new)>(m: map<K, nat>, keys: set<K>, k: K)
    requires keys <= m.Keys && k in keys
    ensures m[k] <= SumOf(m, keys)
  {
    SumTake(m, keys, k);
  }

  lemma SubsetSize<T>(a: set<T>, b: set<T>)
    requires a <= b
    ensures |a| <= |b|
    ensures a != b ==> |a| < |b|
    decreases |b|
  {
    if a != {} {
      var x :| x in a;
      SubsetSize(a - {x}, b - {x});
      assert a == a - {x} + {x} && b == b - {x} + {x};
    } else if a != b {
      var x :| x in b;
    }
  }
}
