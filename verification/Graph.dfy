/** Reachability in a finite graph given by successor lists. */
module Graph {

  type Graph<T> = map<T, seq<T>>

  function Next<T>(g: Graph<T>, n: T): seq<T> {
    if n in g then g[n] else []
  }

  /** `p` follows edges of `g`, one per step. */
  ghost predicate Walk<T>(g: Graph<T>, p: seq<T>) {
    && |p| > 0
    && forall i {:trigger p[i]} :: 0 <= i < |p| - 1 ==> p[i + 1] in Next(g, p[i])
  }

  /** `b` can be reached from `a` in zero or more steps. */
  ghost predicate Reach<T(!new)>(g: Graph<T>, a: T, b: T) {
    exists p :: Walk(g, p) && p[0] == a && p[|p| - 1] == b
  }

  /** `b` can be reached from `a` in one or more steps. */
  ghost predicate ReachPlus<T(!new)>(g: Graph<T>, a: T, b: T) {
    exists m :: m in Next(g, a) && Reach(g, m, b)
  }

  ghost predicate Closed<T>(g: Graph<T>, s: set<T>) {
    forall n :: n in s ==> forall m :: m in Next(g, n) ==> m in s
  }

  lemma ReachSelf<T(!new)>(g: Graph<T>, a: T)
    ensures Reach(g, a, a)
  {
    assert Walk(g, [a]) && [a][0] == a;
  }

  lemma ReachSnoc<T(!new)>(g: Graph<T>, a: T, b: T, c: T)
    requires Reach(g, a, b) && c in Next(g, b)
    ensures Reach(g, a, c)
  {
    var p :| Walk(g, p) && p[0] == a && p[|p| - 1] == b;
    var q := p + [c];
    assert Walk(g, q) && q[0] == a && q[|q| - 1] == c;
  }

  lemma ReachCons<T(!new)>(g: Graph<T>, a: T, b: T, c: T)
    requires b in Next(g, a) && Reach(g, b, c)
    ensures Reach(g, a, c)
  {
    var p :| Walk(g, p) && p[0] == b && p[|p| - 1] == c;
    var q := [a] + p;
    assert Walk(g, q) by {
      forall i {:trigger q[i]} | 0 <= i < |q| - 1 ensures q[i + 1] in Next(g, q[i]) {
        if i > 0 { assert p[i] in Next(g, p[i - 1]); }
      }
    }
    assert q[0] == a && q[|q| - 1] == c;
  }

  /** A closed set contains everything reachable from its members. */
  lemma ClosedReach<T(!new)>(g: Graph<T>, s: set<T>, a: T, b: T)
    requires Closed(g, s) && a in s && Reach(g, a, b)
    ensures b in s
  {
    var p :| Walk(g, p) && p[0] == a && p[|p| - 1] == b;
    ClosedWalk(g, s, p);
  }

  lemma {:induction false} ClosedWalk<T>(g: Graph<T>, s: set<T>, p: seq<T>)
    requires Closed(g, s) && Walk(g, p) && p[0] in s
    ensures p[|p| - 1] in s
  {
    if |p| > 1 {
      assert p[0 + 1] in Next(g, p[0]);
      assert Walk(g, p[1..]) by {
        var q := p[1..];
        forall i {:trigger q[i]} | 0 <= i < |q| - 1 ensures q[i + 1] in Next(g, q[i]) {
          assert p[i + 1 + 1] in Next(g, p[i + 1]);
        }
      }
      ClosedWalk(g, s, p[1..]);
    }
  }

  /** Walks survive in a graph that has the same edges out of every node of the walk. */
  lemma ReachTransfer<T(!new)>(g: Graph<T>, h: Graph<T>, s: set<T>, a: T, b: T)
    requires Closed(g, s) && a in s && Reach(g, a, b)
    requires forall n :: n in s ==> Next(g, n) == Next(h, n)
    ensures Reach(h, a, b)
  {
    var p :| Walk(g, p) && p[0] == a && p[|p| - 1] == b;
    forall i | 0 <= i < |p| ensures p[i] in s {
      assert Walk(g, p[..i + 1]);
      ClosedWalk(g, s, p[..i + 1]);
    }
    assert Walk(h, p);
  }
}
