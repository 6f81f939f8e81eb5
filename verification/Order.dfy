/** Sorting: any sorted arrangement of given items is the only one. */
module Order {
  import opened Prelude

  ghost predicate TotalPreorder<T(!new)>(leq: (T, T) -> bool) {
    && (forall x, y :: leq(x, y) || leq(y, x))
    && (forall x, y, z :: leq(x, y) && leq(y, z) ==> leq(x, z))
  }

  ghost predicate SortedBy<T>(s: seq<T>, leq: (T, T) -> bool) {
    forall i, j :: 0 <= i < j < |s| ==> leq(s[i], s[j])
  }

  function Insert<T>(x: T, s: seq<T>, leq: (T, T) -> bool): seq<T> {
    if s == [] || leq(x, s[0]) then [x] + s
    else [s[0]] + Insert(x, s[1..], leq)
  }

  /** The library's sort, as a function of the items and the comparison. */
  function Sort<T>(s: seq<T>, leq: (T, T) -> bool): seq<T> {
    if s == [] then [] else Insert(s[0], Sort(s[1..], leq), leq)
  }

  lemma {:induction false} InsertMultiset<T>(x: T, s: seq<T>, leq: (T, T) -> bool)
    ensures multiset(Insert(x, s, leq)) == multiset(s) + multiset{x}
  {
    if !(s == [] || leq(x, s[0])) {
      InsertMultiset(x, s[1..], leq);
      assert s == [s[0]] + s[1..];
    }
  }

  lemma {:induction false} InsertSorted<T(!new)>(x: T, s: seq<T>, leq: (T, T) -> bool)
    requires TotalPreorder(leq) && SortedBy(s, leq)
    ensures SortedBy(Insert(x, s, leq), leq)
  {
    if s == [] {
    } else if leq(x, s[0]) {
      assert forall i :: 0 <= i < |s| ==> leq(s[0], s[i]);
    } else {
      InsertSorted(x, s[1..], leq);
      InsertMultiset(x, s[1..], leq);
      var r := Insert(x, s[1..], leq);
      forall i | 0 <= i < |r| ensures leq(s[0], r[i]) {
        assert r[i] in multiset(r);
        assert r[i] == x || r[i] in s[1..];
      }
    }
  }

  lemma {:induction false} SortProperties<T(!new)>(s: seq<T>, leq: (T, T) -> bool)
    requires TotalPreorder(leq)
    ensures SortedBy(Sort(s, leq), leq)
    ensures multiset(Sort(s, leq)) == multiset(s)
    ensures |Sort(s, leq)| == |s|
  {
    hide TotalPreorder, SortedBy, Insert;
    if s == [] {
      SortedNothing(leq);
    } else {
      SortProperties(s[1..], leq);
      InsertSorted(s[0], Sort(s[1..], leq), leq);
      InsertMultiset(s[0], Sort(s[1..], leq), leq);
      TailMultiset(s);
    }
    SameLength(Sort(s, leq), s);
  }

  ghost predicate NoTies<T(!new)>(s: seq<T>, leq: (T, T) -> bool) {
    forall x, y :: x in s && y in s && leq(x, y) && leq(y, x) ==> x == y
  }

  /** Two sorted arrangements of the same items agree when ties are equalities. */
  lemma {:induction false} SortedUnique<T(!new)>(a: seq<T>, b: seq<T>, leq: (T, T) -> bool)
    requires SortedBy(a, leq) && SortedBy(b, leq)
    requires multiset(a) == multiset(b) && NoTies(a, leq)
    ensures a == b
    decreases |a|
  {
    hide SortedBy, NoTies;
    SameLength(a, b);
    if a != [] {
      SameHead(a, b, leq);
      SameTails(a, b);
      SortedTail(a, leq);
      SortedTail(b, leq);
      NoTiesTail(a, leq);
      SortedUnique(a[1..], b[1..], leq);
      HeadAndTail(a, b);
    }
  }

  lemma HeadAndTail<T>(a: seq<T>, b: seq<T>)
    requires a != [] && b != [] && a[0] == b[0] && a[1..] == b[1..]
    ensures a == b
  {
    assert a == [a[0]] + a[1..] && b == [b[0]] + b[1..];
  }

  lemma SameTails<T>(a: seq<T>, b: seq<T>)
    requires a != [] && b != [] && a[0] == b[0] && multiset(a) == multiset(b)
    ensures multiset(a[1..]) == multiset(b[1..])
  {
    TailMultiset(a);
    TailMultiset(b);
  }

  lemma SortedTail<T(!new)>(s: seq<T>, leq: (T, T) -> bool)
    requires s != [] && SortedBy(s, leq)
    ensures SortedBy(s[1..], leq)
  {}

  lemma NoTiesTail<T(!new)>(s: seq<T>, leq: (T, T) -> bool)
    requires s != [] && NoTies(s, leq)
    ensures NoTies(s[1..], leq)
  {}

  lemma SortedNothing<T>(leq: (T, T) -> bool)
    ensures SortedBy([], leq)
  {}

  lemma SameLength<T>(a: seq<T>, b: seq<T>)
    requires multiset(a) == multiset(b)
    ensures |a| == |b|
  {
    assert |multiset(a)| == |multiset(b)|;
  }

  lemma TailMultiset<T>(s: seq<T>)
    requires s != []
    ensures multiset(s[1..]) == multiset(s) - multiset{s[0]}
  {
    assert s == [s[0]] + s[1..];
  }

  lemma SameHead<T(!new)>(a: seq<T>, b: seq<T>, leq: (T, T) -> bool)
    requires a != [] && b != [] && SortedBy(a, leq) && SortedBy(b, leq)
    requires multiset(a) == multiset(b) && NoTies(a, leq)
    ensures a[0] == b[0]
  {
    assert b[0] in multiset(a) && a[0] in multiset(b);
    var i :| 0 <= i < |a| && a[i] == b[0];
    var j :| 0 <= j < |b| && b[j] == a[0];
  }

  // ----- byte strings -----

  /** `str` comparison: bytewise lexicographic. */
  predicate StrLeq(a: seq<byte>, b: seq<byte>) {
    a == [] || (b != [] && (a[0] < b[0] || (a[0] == b[0] && StrLeq(a[1..], b[1..]))))
  }

  lemma {:induction false} StrTotal(a: seq<byte>, b: seq<byte>)
    ensures StrLeq(a, b) || StrLeq(b, a)
    ensures StrLeq(a, b) && StrLeq(b, a) ==> a == b
  {
    if a != [] && b != [] {
      StrTotal(a[1..], b[1..]);
      assert a == [a[0]] + a[1..] && b == [b[0]] + b[1..];
    }
  }

  /** At `k` the texts first differ, and the smaller byte is in `a`. */
  predicate SmallerAt(a: seq<byte>, b: seq<byte>, k: int) {
    0 <= k < |a| && k < |b| && a[..k] == b[..k] && a[k] < b[k]
  }

  /** A text comes first if it is a prefix, or if its byte is smaller where the two first differ. */
  lemma {:induction false} StrLeqExact(a: seq<byte>, b: seq<byte>)
    ensures StrLeq(a, b) <==> a <= b || exists k :: SmallerAt(a, b, k)
  {
    if a != [] && b != [] {
      StrLeqExact(a[1..], b[1..]);
      assert a == [a[0]] + a[1..] && b == [b[0]] + b[1..];
      if a[0] < b[0] {
        assert SmallerAt(a, b, 0);
      } else if a[0] == b[0] {
        assert a <= b <==> a[1..] <= b[1..];
        if k :| SmallerAt(a[1..], b[1..], k) {
          assert a[..k + 1] == [a[0]] + a[1..][..k] && b[..k + 1] == [b[0]] + b[1..][..k];
          assert SmallerAt(a, b, k + 1);
        }
        if k :| SmallerAt(a, b, k) {
          assert k > 0 && a[1..][..k - 1] == a[..k][1..] && b[1..][..k - 1] == b[..k][1..];
          assert SmallerAt(a[1..], b[1..], k - 1);
        }
      } else {
        forall k ensures !SmallerAt(a, b, k) {
          if 0 < k < |a| && k < |b| { assert a[..k][0] == a[0] && b[..k][0] == b[0]; }
        }
      }
    }
  }

  lemma {:induction false} StrTransitive(a: seq<byte>, b: seq<byte>, c: seq<byte>)
    requires StrLeq(a, b) && StrLeq(b, c)
    ensures StrLeq(a, c)
  {
    if a != [] && a[0] == b[0] == c[0] {
      StrTransitive(a[1..], b[1..], c[1..]);
    }
  }

  lemma StrOrder()
    ensures TotalPreorder(StrLeq)
    ensures forall a, b :: StrLeq(a, b) && StrLeq(b, a) ==> a == b
  {
    forall a: seq<byte>, b: seq<byte>
      ensures StrLeq(a, b) || StrLeq(b, a)
      ensures StrLeq(a, b) && StrLeq(b, a) ==> a == b
    {
      StrTotal(a, b);
    }
    forall a: seq<byte>, b: seq<byte>, c: seq<byte> | StrLeq(a, b) && StrLeq(b, c)
      ensures StrLeq(a, c)
    {
      StrTransitive(a, b, c);
    }
  }

  // ----- ordered traversal of a set of byte strings (`BTreeMap`, `BTreeSet`) -----

  ghost predicate Lists<T(!new)>(q: seq<T>, s: set<T>) {
    && (forall x :: x in q <==> x in s)
    && (forall i, j :: 0 <= i < j < |q| ==> q[i] != q[j])
  }

  ghost predicate Ordered(q: seq<seq<byte>>, s: set<seq<byte>>) {
    Lists(q, s) && SortedBy(q, StrLeq)
  }

  lemma {:induction false} ListsMultiset<T(!new)>(q: seq<T>, s: set<T>)
    requires Lists(q, s)
    ensures multiset(q) == multiset(s)
    ensures |q| == |s|
  {
    if q == [] {
      assert s == {};
    } else {
      var x := q[0];
      assert Lists(q[1..], s - {x}) by {
        forall y ensures y in q[1..] <==> y in s - {x} {
          if y in q[1..] {
            var i :| 0 <= i < |q[1..]| && q[1..][i] == y;
            assert q[0] != q[i + 1];
          }
          if y in s - {x} {
            assert y in q;
          }
        }
      }
      ListsMultiset(q[1..], s - {x});
      assert q == [x] + q[1..];
      assert x in s;
    }
  }

  lemma OrderedUnique(a: seq<seq<byte>>, b: seq<seq<byte>>, s: set<seq<byte>>)
    requires Ordered(a, s) && Ordered(b, s)
    ensures a == b
  {
    ListsMultiset(a, s);
    ListsMultiset(b, s);
    StrOrder();
    SortedUnique(a, b, StrLeq);
  }

  /** The keys of an ordered collection, in iteration order. */
  method InOrder(s: set<seq<byte>>) returns (q: seq<seq<byte>>)
    ensures Ordered(q, s)
    ensures |q| == |s|
  {
    q := [];
    var rest := s;
    while rest != {}
      invariant rest <= s
      invariant Ordered(q, s - rest)
    {
      var x :| x in rest;
      StrOrder();
      InsertSorted(x, q, StrLeq);
      InsertLists(x, q, s - rest, StrLeq);
      q := Insert(x, q, StrLeq);
      rest := rest - {x};
      assert s - rest == (s - (rest + {x})) + {x};
    }
    assert s - rest == s;
    ListsMultiset(q, s);
  }

  lemma {:induction false} InsertLists<T(!new)>(x: T, q: seq<T>, s: set<T>, leq: (T, T) -> bool)
    requires Lists(q, s) && x !in s
    ensures Lists(Insert(x, q, leq), s + {x})
  {
    if !(q == [] || leq(x, q[0])) {
      var y := q[0];
      assert Lists(q[1..], s - {y}) by {
        forall z ensures z in q[1..] <==> z in s - {y} {
          if z in q[1..] {
            var i :| 0 <= i < |q[1..]| && q[1..][i] == z;
            assert q[0] != q[i + 1];
          }
          if z in s - {y} { assert z in q; }
        }
      }
      InsertLists(x, q[1..], s - {y}, leq);
      var r := Insert(x, q[1..], leq);
      assert s + {x} == ((s - {y}) + {x}) + {y};
      assert forall i :: 0 <= i < |r| ==> r[i] != y;
    }
  }

  /** Specification counterpart of `InOrder`. */
  ghost function Arranged(s: set<seq<byte>>): (q: seq<seq<byte>>)
    ensures Ordered(q, s)
  {
    ArrangedExists(s);
    var q :| Ordered(q, s);
    q
  }

  lemma {:induction false} ArrangedExists(s: set<seq<byte>>)
    ensures exists q :: Ordered(q, s)
  {
    if s == {} {
      assert Ordered([], s);
    } else {
      var x :| x in s;
      ArrangedExists(s - {x});
      var q :| Ordered(q, s - {x});
      StrOrder();
      InsertSorted(x, q, StrLeq);
      InsertLists(x, q, s - {x}, StrLeq);
      assert (s - {x}) + {x} == s;
      assert Ordered(Insert(x, q, StrLeq), s);
    }
  }
}
