/** Splitting and joining text, for any element type (bytes or characters). */
module Text {
  import opened Prelude

  /** `split(sep)`: always at least one piece. */
  function Split<T(==)>(s: seq<T>, sep: T): (pieces: seq<seq<T>>)
    ensures |pieces| > 0
  {
    if s == [] then [[]]
    else
      var rest := Split(s[1..], sep);
      Attached(s[0], sep, rest)
  }

  /** `join(sep)`. */
  function Join<T>(pieces: seq<seq<T>>, sep: T): (s: seq<T>)
    requires |pieces| > 0
  {
    if |pieces| == 1 then pieces[0]
    else pieces[0] + [sep] + Join(pieces[1..], sep)
  }

  predicate AllFree<T(==)>(pieces: seq<seq<T>>, c: T) {
    forall i :: 0 <= i < |pieces| ==> c !in pieces[i]
  }

  lemma {:induction false} SplitPieces<T>(s: seq<T>, sep: T)
    ensures AllFree(Split(s, sep), sep)
    ensures Join(Split(s, sep), sep) == s
  {
    if s != [] {
      SplitPieces(s[1..], sep);
      var rest := Split(s[1..], sep);
      if s[0] == sep {
        assert ([[]] + rest)[1..] == rest;
        assert Join([[]] + rest, sep) == [] + [sep] + Join(rest, sep);
      } else {
        var pieces := [[s[0]] + rest[0]] + rest[1..];
        assert pieces[1..] == rest[1..];
        assert Join(pieces, sep) == [s[0]] + Join(rest, sep);
      }
    }
  }

  lemma {:induction false} SplitFree<T>(s: seq<T>, sep: T)
    requires sep !in s
    ensures Split(s, sep) == [s]
  {
    if s != [] {
      SplitFree(s[1..], sep);
      assert [s[0]] + s[1..] == s;
    }
  }

  /** A piece in front of a separator splits off. */
  lemma {:induction false} SplitHead<T>(a: seq<T>, sep: T, rest: seq<T>)
    requires sep !in a
    ensures Split(a + [sep] + rest, sep) == [a] + Split(rest, sep)
  {
    var s := a + [sep] + rest;
    if a == [] {
      assert s[1..] == rest;
    } else {
      SplitHead(a[1..], sep, rest);
      assert s[1..] == a[1..] + [sep] + rest;
      assert [a[0]] + a[1..] == a;
    }
  }

  lemma {:induction false} SplitJoin<T>(pieces: seq<seq<T>>, sep: T)
    requires |pieces| > 0 && AllFree(pieces, sep)
    ensures Split(Join(pieces, sep), sep) == pieces
  {
    if |pieces| == 1 {
      SplitFree(pieces[0], sep);
    } else {
      SplitHead(pieces[0], sep, Join(pieces[1..], sep));
      SplitJoin(pieces[1..], sep);
    }
  }

  lemma {:induction false} JoinSnoc<T>(pieces: seq<seq<T>>, sep: T, last: seq<T>)
    requires |pieces| > 0
    ensures Join(pieces + [last], sep) == Join(pieces, sep) + [sep] + last
  {
    if |pieces| == 1 {
      assert (pieces + [last])[1..] == [last];
    } else {
      JoinSnoc(pieces[1..], sep, last);
      assert (pieces + [last])[1..] == pieces[1..] + [last];
    }
  }

  lemma {:induction false} JoinConcat<T>(a: seq<seq<T>>, b: seq<seq<T>>, sep: T)
    requires |a| > 0 && |b| > 0
    ensures Join(a + b, sep) == Join(a, sep) + [sep] + Join(b, sep)
  {
    if |a| == 1 {
      assert (a + b)[1..] == b;
    } else {
      JoinConcat(a[1..], b, sep);
      assert (a + b)[1..] == a[1..] + b;
    }
  }

  /** Splitting around any separator occurrence splits both sides independently. */
  lemma {:induction false} SplitConcat<T>(a: seq<T>, sep: T, b: seq<T>)
    ensures Split(a + [sep] + b, sep) == Split(a, sep) + Split(b, sep)
  {
    var s := a + [sep] + b;
    if a == [] {
      assert s[1..] == b;
    } else {
      SplitConcat(a[1..], sep, b);
      assert s[0] == a[0] && s[1..] == a[1..] + [sep] + b;
      Attach(a[0], sep, Split(a[1..], sep), Split(b, sep));
    }
  }

  /** One character in front of split pieces. */
  function Attached<T(==)>(c: T, sep: T, pieces: seq<seq<T>>): seq<seq<T>>
    requires |pieces| > 0
  {
    if c == sep then [[]] + pieces else [[c] + pieces[0]] + pieces[1..]
  }

  lemma Attach<T>(c: T, sep: T, x: seq<seq<T>>, y: seq<seq<T>>)
    requires |x| > 0
    ensures Attached(c, sep, x + y) == Attached(c, sep, x) + y
  {
    assert (x + y)[1..] == x[1..] + y;
  }

  // ----- searching -----

  /** `split_once`: around the first occurrence of `pattern`. */
  function SplitOnce(s: string, pattern: string): Option<(string, string)> {
    if pattern <= s then Some(("", s[|pattern|..]))
    else if s == "" then None
    else match SplitOnce(s[1..], pattern)
      case None => None
      case Some((a, b)) => Some(([s[0]] + a, b))
  }

  lemma {:induction false} SplitOnceAt(a: string, pattern: string, b: string)
    requires pattern != ""
    requires forall i :: 0 <= i < |a| ==> !(pattern <= (a + pattern + b)[i..])
    ensures SplitOnce(a + pattern + b, pattern) == Some((a, b))
  {
    var s := a + pattern + b;
    if a == "" {
      assert s == pattern + b;
    } else {
      assert s[0..] == s;
      assert s[1..] == a[1..] + pattern + b;
      forall i | 0 <= i < |a[1..]| ensures !(pattern <= (a[1..] + pattern + b)[i..]) {
        assert (a[1..] + pattern + b)[i..] == s[i + 1..];
      }
      SplitOnceAt(a[1..], pattern, b);
      assert [a[0]] + a[1..] == a;
    }
  }

  predicate Absent(s: string, pattern: string) {
    forall i :: 0 <= i <= |s| ==> !(pattern <= s[i..])
  }

  /** `s` is `a`, the pattern and `b`, and the pattern does not occur before. */
  predicate FirstSplit(s: string, pattern: string, a: string, b: string) {
    s == a + pattern + b && forall i :: 0 <= i < |a| ==> !(pattern <= s[i..])
  }

  /** A found split is around the first occurrence, and none is found only where there is none. */
  lemma {:induction false} SplitOnceExact(s: string, pattern: string)
    requires pattern != ""
    ensures match SplitOnce(s, pattern)
            case None => Absent(s, pattern)
            case Some((a, b)) => FirstSplit(s, pattern, a, b)
  {
    if pattern <= s {
      assert s == "" + pattern + s[|pattern|..];
    } else if s != "" {
      hide Absent, FirstSplit;
      SplitOnceExact(s[1..], pattern);
      match SplitOnce(s[1..], pattern)
      case None => AbsentCons(s, pattern);
      case Some((a, b)) => FirstSplitCons(s, pattern, a, b);
    } else {
      assert s[0..] == s;
    }
  }

  lemma AbsentCons(s: string, pattern: string)
    requires s != "" && !(pattern <= s) && Absent(s[1..], pattern)
    ensures Absent(s, pattern)
  {
    assert s[0..] == s;
    forall i | 0 < i <= |s| ensures !(pattern <= s[i..]) { assert s[i..] == s[1..][i - 1..]; }
  }

  lemma FirstSplitCons(s: string, pattern: string, a: string, b: string)
    requires s != "" && !(pattern <= s) && FirstSplit(s[1..], pattern, a, b)
    ensures FirstSplit(s, pattern, [s[0]] + a, b)
  {
    assert s == [s[0]] + (a + pattern + b) && s[0..] == s;
    assert [s[0]] + (a + pattern + b) == ([s[0]] + a) + pattern + b;
    forall i | 0 < i < |a| + 1 ensures !(pattern <= s[i..]) { assert s[i..] == s[1..][i - 1..]; }
  }
}
