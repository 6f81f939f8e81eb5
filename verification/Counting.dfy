/** Sizes of finite sets and maps. */
module Counting {

  lemma {:induction false} SubsetSize<T>(a: set<T>, b: set<T>)
    requires a <= b
    ensures |a| <= |b| && (|a| == |b| <==> a == b)
    decreases a
  {
    if a != {} {
      var x :| x in a;
      SubsetSize(a - {x}, b - {x});
      assert a == (a - {x}) + {x} && b == (b - {x}) + {x};
    }
  }

  ghost predicate OneToOne<K, V>(m: map<K, V>) {
    forall a, b :: a in m && b in m && m[a] == m[b] ==> a == b
  }

  /** A map has as many values as keys exactly when it is one-to-one. */
  lemma {:induction false} OneToOneSize<K, V>(m: map<K, V>)
    ensures |m.Values| <= |m| && (|m.Values| == |m| <==> OneToOne(m))
    decreases |m|
  {
    if m != map[] {
      var k :| k in m;
      var rest := map x | x in m && x != k :: m[x];
      assert m == rest[k := m[k]] && k !in rest;
      assert rest.Keys == m.Keys - {k} && |rest.Keys| == |rest| && |m.Keys| == |m|;
      OneToOneSize(rest);
      ValuesGrow(rest, k, m[k]);
      if m[k] in rest.Values {
        var x :| x in rest && rest[x] == m[k];
        assert m[x] == m[k] && x != k;
        assert m.Values == rest.Values;
      } else {
        assert forall x :: x in rest ==> m[x] in rest.Values;
        assert OneToOne(m) <==> OneToOne(rest) by {
          if OneToOne(m) { assert forall a, b :: a in rest && b in rest && rest[a] == rest[b] ==> m[a] == m[b]; }
        }
      }
    }
  }

  lemma ValuesGrow<K, V>(m: map<K, V>, k: K, v: V)
    requires k !in m
    ensures m[k := v].Values == m.Values + {v}
  {
    var m' := m[k := v];
    assert m'[k] == v && forall x :: x in m ==> m'[x] == m[x];
    forall y ensures y in m'.Values <==> y in m.Values + {v} {
      if y in m.Values { var x :| x in m && m[x] == y; assert m'[x] == y; }
    }
  }
}
