/** Counting finite sets. */
module Counting {
  /** The numbers below n. */
  function UpTo(n: nat): (s: set<nat>)
    ensures forall f: nat :: f in s <==> f < n
    ensures |s| == n
  {
    if n == 0 then {} else UpTo(n - 1) + {n - 1}
  }

  lemma SubsetCount<T>(a: set<T>, b: set<T>)
    requires a <= b
    ensures |a| <= |b| && (|a| == |b| <==> a == b)
  {
    assert b == a + (b - a);
    assert |b| == |a| + |b - a|;
  }

  lemma UnionCount<T>(a: set<T>, b: set<T>)
    ensures |a + b| <= |a| + |b|
  {
    assert a + b == a + (b - a);
    SubsetCount(b - a, b);
  }

  ghost function Image<T>(keys: set<T>, m: map<T, nat>): set<nat>
    requires keys <= m.Keys
  {
    set k | k in keys :: m[k]
  }

  lemma {:induction false} InjectiveCount<T>(keys: set<T>, m: map<T, nat>)
    requires keys <= m.Keys && forall a, b :: a in keys && b in keys && m[a] == m[b] ==> a == b
    ensures |Image(keys, m)| == |keys|
  {
    if keys == {} {
      assert Image(keys, m) == {};
    } else {
      var a :| a in keys;
      InjectiveCount(keys - {a}, m);
      assert Image(keys, m) == Image(keys - {a}, m) + {m[a]};
    }
  }

  lemma CountFrom1(s: set<nat>, n: nat)
    requires n > 0 && forall p :: p in s <==> 1 <= p < n
    ensures |s| == n - 1
  {
    assert s == UpTo(n) - {0};
  }
}
