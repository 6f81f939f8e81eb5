/**
 Pinned Git sources: one transaction over a lockfile, against a remote whose references may move at any
 time. What a resolve takes from Git is an argument, so every property holds for every remote.
 */
module Sources {
  import opened Prelude
  import opened Cancellation

  // ----- the transaction as a value -----

  /** A repository at an absolute location, a reference in it and the components of a module directory. */
  datatype Source = Source(url: string, reference: string, path: seq<string>)

  datatype Record = Record(source: Source, commit: string)

  datatype Transaction = Transaction(
    update: bool,
    open: bool,
    records: map<string, Record>,
    resolved: map<(string, string), string>,
    failed: bool,
    cancelled: bool,
    published: seq<map<string, Record>>)

  /**
   What Git answers one resolve: whether the source is well formed, whether a pinned commit can be had,
   what the reference names now, and whether the commit holds the module directory.
   */
  datatype Remote = Remote(wellFormed: bool, pinAvailable: bool, head: Option<string>, checkedOut: bool)

  datatype Step =
    | Resolve(namespace: string, source: Source, remote: Remote)
    | Finish(persisted: bool)
    | Cancel

  predicate HexDigit(c: char) {
    '0' <= c <= '9' || 'a' <= c <= 'f' || 'A' <= c <= 'F'
  }

  predicate CommitValid(s: string) {
    (|s| == 40 || |s| == 64) && forall i :: 0 <= i < |s| ==> HexDigit(s[i])
  }

  predicate Allowed(t: Transaction, namespace: string, source: Source, remote: Remote) {
    && !t.cancelled && t.open && namespace != "" && remote.wellFormed
    && source.reference != "" && source.reference[0] != '-'
  }

  /** The commit a locked record keeps for this resolve. */
  function Pinned(t: Transaction, namespace: string, source: Source): Option<string> {
    if !t.update && namespace in t.records && t.records[namespace].source == source
    then Some(t.records[namespace].commit) else None
  }

  function Ref(source: Source): (string, string) {
    (source.url, source.reference)
  }

  /** The commit chosen, before it is checked out. */
  function Chosen(t: Transaction, namespace: string, source: Source, remote: Remote): Option<string> {
    if !Allowed(t, namespace, source, remote) then None
    else match Pinned(t, namespace, source)
      case Some(commit) => if remote.pinAvailable && CommitValid(commit) then Some(commit) else None
      case None =>
        if Ref(source) in t.resolved then Some(t.resolved[Ref(source)])
        else if remote.head.Some? && CommitValid(remote.head.value) then remote.head
        else None
  }

  predicate Fresh(t: Transaction, namespace: string, source: Source) {
    Pinned(t, namespace, source).None?
  }

  /** What a step hands back: the commit of a successful resolve. */
  function Outcome(t: Transaction, s: Step): Option<string> {
    if s.Resolve? && s.remote.checkedOut then Chosen(t, s.namespace, s.source, s.remote) else None
  }

  function After(t: Transaction, s: Step): Transaction {
    match s
    case Cancel => t.(cancelled := true)
    case Finish(persisted) =>
      if t.cancelled || !t.open || t.failed then t
      else if t.records == map[] then t.(open := false)
      else if persisted then t.(open := false, published := t.published + [t.records])
      else t
    case Resolve(namespace, source, remote) =>
      var commit := Chosen(t, namespace, source, remote);
      if commit.None? then t.(failed := true)
      else
        var resolved := if Fresh(t, namespace, source) then t.resolved[Ref(source) := commit.value] else t.resolved;
        if !remote.checkedOut then t.(resolved := resolved, failed := true)
        else t.(resolved := resolved, records := t.records[namespace := Record(source, commit.value)])
  }

  function Run(t: Transaction, steps: seq<Step>): Transaction {
    if steps == [] then t else After(Run(t, steps[..|steps| - 1]), steps[|steps| - 1])
  }

  /** A lockfile just opened. */
  ghost predicate Opened(t: Transaction) {
    && t.open && !t.failed && !t.cancelled && t.resolved == map[] && t.published == []
    && (forall n :: n in t.records ==> CommitValid(t.records[n].commit))
  }

  lemma RunSnoc(t: Transaction, steps: seq<Step>, i: nat)
    requires i < |steps|
    ensures Run(t, steps[..i + 1]) == After(Run(t, steps[..i]), steps[i])
  {
    assert steps[..i + 1][..i] == steps[..i];
  }

  // ----- pins do not move -----

  /** Whenever a resolve of `namespace` succeeds, it is of `source`. */
  ghost predicate OnlyFrom(t: Transaction, steps: seq<Step>, namespace: string, source: Source) {
    forall i ::
      (0 <= i < |steps| && steps[i].Resolve? && steps[i].namespace == namespace
       && Outcome(Run(t, steps[..i]), steps[i]).Some?) ==>
      steps[i].source == source
  }

  /** `namespace` has the record it had at the start. */
  predicate Unmoved(t: Transaction, now: Transaction, namespace: string)
    requires namespace in t.records
  {
    namespace in now.records && now.records[namespace] == t.records[namespace]
  }

  /** One step leaves an unmoved record in place exactly unless it locks the namespace to another source. */
  lemma PinStep(t: Transaction, now: Transaction, s: Step, namespace: string)
    requires !now.update && namespace in t.records && Unmoved(t, now, namespace)
    ensures !After(now, s).update
    ensures Unmoved(t, After(now, s), namespace) <==>
            (s.Resolve? && s.namespace == namespace && Outcome(now, s).Some? ==>
               s.source == t.records[namespace].source)
  {}

  lemma {:induction false} PinUnmoved(t: Transaction, steps: seq<Step>, namespace: string)
    requires !t.update && namespace in t.records && OnlyFrom(t, steps, namespace, t.records[namespace].source)
    ensures !Run(t, steps).update && Unmoved(t, Run(t, steps), namespace)
  {
    if steps != [] {
      var n := |steps| - 1;
      hide Outcome, After;
      forall i | 0 <= i < n ensures steps[..n][..i] == steps[..i] {}
      PinUnmoved(t, steps[..n], namespace);
      PinStep(t, Run(t, steps[..n]), steps[n], namespace);
    }
  }

  /** Without update, a record stays throughout a run exactly unless its namespace is locked to another source. */
  lemma PinStays(t: Transaction, steps: seq<Step>, namespace: string)
    requires !t.update && namespace in t.records
    ensures (forall k :: 0 <= k <= |steps| ==> Unmoved(t, Run(t, steps[..k]), namespace)) <==>
            OnlyFrom(t, steps, namespace, t.records[namespace].source)
  {
    var source := t.records[namespace].source;
    hide Outcome, After, Unmoved;
    if OnlyFrom(t, steps, namespace, source) {
      forall k | 0 <= k <= |steps| ensures Unmoved(t, Run(t, steps[..k]), namespace) {
        OnlyFromPrefix(t, steps, k, namespace, source);
        PinUnmoved(t, steps[..k], namespace);
      }
    }
    if forall k :: 0 <= k <= |steps| ==> Unmoved(t, Run(t, steps[..k]), namespace) {
      forall i | 0 <= i < |steps| && steps[i].Resolve? && steps[i].namespace == namespace
                 && Outcome(Run(t, steps[..i]), steps[i]).Some?
        ensures steps[i].source == source
      {
        RunSnoc(t, steps, i);
        NeverUpdates(t, steps[..i]);
        assert Unmoved(t, Run(t, steps[..i]), namespace) && Unmoved(t, Run(t, steps[..i + 1]), namespace);
        PinStep(t, Run(t, steps[..i]), steps[i], namespace);
      }
    }
  }

  lemma {:induction false} NeverUpdates(t: Transaction, steps: seq<Step>)
    ensures Run(t, steps).update == t.update
  {
    if steps != [] { NeverUpdates(t, steps[..|steps| - 1]); }
  }

  lemma OnlyFromPrefix(t: Transaction, steps: seq<Step>, k: nat, namespace: string, source: Source)
    requires OnlyFrom(t, steps, namespace, source) && k <= |steps|
    ensures OnlyFrom(t, steps[..k], namespace, source)
  {
    hide Outcome, Run;
    forall i | 0 <= i < k ensures steps[..k][..i] == steps[..i] {}
  }

  /** So each of its resolves hands back the locked commit, whatever the remote has moved to. */
  lemma PinnedOutcome(t: Transaction, steps: seq<Step>, i: nat)
    requires i < |steps| && steps[i].Resolve? && steps[i].namespace in t.records
    requires !t.update && OnlyFrom(t, steps, steps[i].namespace, t.records[steps[i].namespace].source)
    requires Outcome(Run(t, steps[..i]), steps[i]).Some?
    ensures Outcome(Run(t, steps[..i]), steps[i]).value == t.records[steps[i].namespace].commit
  {
    var namespace := steps[i].namespace;
    OnlyFromPrefix(t, steps, i, namespace, t.records[namespace].source);
    PinUnmoved(t, steps[..i], namespace);
  }

  // ----- one commit per reference -----

  lemma {:induction false} ResolvedGrows(t: Transaction, steps: seq<Step>, r: (string, string))
    requires r in t.resolved
    ensures r in Run(t, steps).resolved && Run(t, steps).resolved[r] == t.resolved[r]
  {
    if steps != [] {
      ResolvedGrows(t, steps[..|steps| - 1], r);
    }
  }

  lemma {:induction false} RunConcat(t: Transaction, a: seq<Step>, b: seq<Step>)
    ensures Run(t, a + b) == Run(Run(t, a), b)
    decreases |b|
  {
    hide After;
    if b == [] {
      assert a + b == a;
    } else {
      RunConcat(t, a, b[..|b| - 1]);
      assert (a + b)[..|a + b| - 1] == a + b[..|b| - 1];
    }
  }

  ghost predicate FreshAt(t: Transaction, steps: seq<Step>, i: nat)
    requires i < |steps|
  {
    && steps[i].Resolve? && Outcome(Run(t, steps[..i]), steps[i]).Some?
    && Fresh(Run(t, steps[..i]), steps[i].namespace, steps[i].source)
  }

  /** In one transaction, all unpinned resolves of one repository and reference get one commit. */
  lemma OneCommitPerReference(t: Transaction, steps: seq<Step>, i: nat, j: nat)
    requires i < j < |steps| && FreshAt(t, steps, i) && FreshAt(t, steps, j)
    requires Ref(steps[i].source) == Ref(steps[j].source)
    ensures Outcome(Run(t, steps[..i]), steps[i]) == Outcome(Run(t, steps[..j]), steps[j])
  {
    RunSnoc(t, steps, i);
    assert steps[..j] == steps[..i + 1] + steps[i + 1..j];
    RunConcat(t, steps[..i + 1], steps[i + 1..j]);
    ResolvedGrows(Run(t, steps[..i + 1]), steps[i + 1..j], Ref(steps[i].source));
  }

  // ----- what a resolve hands back, by the history of the transaction -----

  /** Nothing forbids resolving `source` for `namespace`. */
  predicate Resolvable(t: Transaction, s: Step) {
    && s.Resolve? && t.open && !t.cancelled && s.namespace != "" && s.remote.wellFormed
    && 0 < |s.source.reference| && s.source.reference[0] != '-'
  }

  /** Without update, the namespace is locked to this very source. */
  predicate Locked(t: Transaction, s: Step) {
    s.Resolve? && !t.update && s.namespace in t.records && t.records[s.namespace].source == s.source
  }

  /** Step `j` may take what the remote names for `r`: it is not locked, and the remote names a commit. */
  ghost predicate Asks(t: Transaction, steps: seq<Step>, j: int, r: (string, string)) {
    && 0 <= j < |steps| && Resolvable(Run(t, steps[..j]), steps[j]) && !Locked(Run(t, steps[..j]), steps[j])
    && (steps[j].source.url, steps[j].source.reference) == r
    && steps[j].remote.head.Some? && CommitValid(steps[j].remote.head.value)
  }

  ghost predicate FirstAsk(t: Transaction, steps: seq<Step>, j: int, r: (string, string)) {
    Asks(t, steps, j, r) && forall k :: 0 <= k < j ==> !Asks(t, steps, k, r)
  }

  lemma AsksPrefix(t: Transaction, steps: seq<Step>, n: nat, j: int, r: (string, string))
    requires n <= |steps| && j < n
    ensures Asks(t, steps[..n], j, r) <==> Asks(t, steps, j, r)
  {
    if 0 <= j { assert steps[..n][..j] == steps[..j]; }
  }

  lemma FirstAskPrefix(t: Transaction, steps: seq<Step>, n: nat, j: int, r: (string, string))
    requires n <= |steps| && j < n
    ensures FirstAsk(t, steps[..n], j, r) <==> FirstAsk(t, steps, j, r)
  {
    hide Asks;
    forall k | k <= j ensures Asks(t, steps[..n], k, r) <==> Asks(t, steps, k, r) { AsksPrefix(t, steps, n, k, r); }
  }

  /** One step takes a commit for `r` exactly if it asks for it and none was taken before. */
  lemma TakeStep(t: Transaction, s: Step, r: (string, string))
    ensures var now := After(t, s).resolved;
            var asks := Resolvable(t, s) && !Locked(t, s) && Ref(s.source) == r
                        && s.remote.head.Some? && CommitValid(s.remote.head.value);
            && (r in t.resolved ==> r in now && now[r] == t.resolved[r])
            && (r !in t.resolved ==> (r in now <==> asks))
            && (r !in t.resolved && asks ==> Some(now[r]) == s.remote.head)
  {
    hide CommitValid;
  }

  /** What the transaction holds for a reference is what the remote named when it was first asked. */
  lemma {:induction false} FirstAskSettles(t: Transaction, steps: seq<Step>, r: (string, string))
    requires t.resolved == map[]
    ensures r !in Run(t, steps).resolved ==> forall j :: !Asks(t, steps, j, r)
    ensures r in Run(t, steps).resolved ==>
              exists j :: FirstAsk(t, steps, j, r) && Some(Run(t, steps).resolved[r]) == steps[j].remote.head
  {
    if steps != [] {
      var n := |steps| - 1;
      FirstAskSettles(t, steps[..n], r);
      TakeStep(Run(t, steps[..n]), steps[n], r);
      assert Asks(t, steps, n, r) <==>
        && Resolvable(Run(t, steps[..n]), steps[n]) && !Locked(Run(t, steps[..n]), steps[n])
        && Ref(steps[n].source) == r && steps[n].remote.head.Some? && CommitValid(steps[n].remote.head.value);
      hide After, Asks, FirstAsk, CommitValid, Resolvable, Locked;
      forall j | j < n ensures Asks(t, steps[..n], j, r) <==> Asks(t, steps, j, r) { AsksPrefix(t, steps, n, j, r); }
      if r in Run(t, steps[..n]).resolved {
        var j :| FirstAsk(t, steps[..n], j, r) && Some(Run(t, steps[..n]).resolved[r]) == steps[..n][j].remote.head;
        AskInside(t, steps[..n], j, r);
        FirstAskPrefix(t, steps, n, j, r);
      } else {
        LastAsks(t, steps, r);
      }
    }
  }

  lemma AskInside(t: Transaction, steps: seq<Step>, j: int, r: (string, string))
    requires FirstAsk(t, steps, j, r)
    ensures 0 <= j < |steps|
  {}

  lemma LastAsks(t: Transaction, steps: seq<Step>, r: (string, string))
    requires steps != [] && forall j :: j < |steps| - 1 ==> !Asks(t, steps, j, r)
    ensures forall j :: Asks(t, steps, j, r) ==> j == |steps| - 1
    ensures Asks(t, steps, |steps| - 1, r) <==> FirstAsk(t, steps, |steps| - 1, r)
  {}

  /**
   What any resolve of a transaction hands back: the locked commit if its namespace is locked to the source, else
   what the remote named when the reference was first asked for, else what it names now.
   */
  lemma ResolveExact(t: Transaction, steps: seq<Step>, i: nat)
    requires Opened(t) && i < |steps| && steps[i].Resolve?
    ensures var now, s := Run(t, steps[..i]), steps[i];
            var r := (s.source.url, s.source.reference);
            && (!Resolvable(now, s) || !s.remote.checkedOut ==> Outcome(now, s) == None)
            && (Resolvable(now, s) && s.remote.checkedOut ==>
                  && (Locked(now, s) ==>
                        Outcome(now, s) ==
                        if s.remote.pinAvailable then Some(now.records[s.namespace].commit) else None)
                  && (!Locked(now, s) ==> forall j :: j < i && FirstAsk(t, steps, j, r) ==>
                        Outcome(now, s) == steps[j].remote.head)
                  && (!Locked(now, s) && (forall j :: 0 <= j < i ==> !Asks(t, steps, j, r)) ==>
                        Outcome(now, s) == if Asks(t, steps, i, r) then s.remote.head else None))
  {
    var now, s := Run(t, steps[..i]), steps[i];
    var r := (s.source.url, s.source.reference);
    CommitsValid(t, steps[..i]);
    FirstAskSettles(t, steps[..i], r);
    hide CommitValid, Run;
    forall j | j < i
      ensures Asks(t, steps[..i], j, r) <==> Asks(t, steps, j, r)
      ensures FirstAsk(t, steps[..i], j, r) <==> FirstAsk(t, steps, j, r)
    {
      AsksPrefix(t, steps, i, j, r);
      FirstAskPrefix(t, steps, i, j, r);
    }
    if r in now.resolved {
      var k :| FirstAsk(t, steps[..i], k, r) && Some(now.resolved[r]) == steps[..i][k].remote.head;
      forall j | j < i && FirstAsk(t, steps, j, r) ensures j == k {}
    }
  }

  /** Under update no resolve is held by a lock: a reference asked for the first time is what the remote names now. */
  lemma UpdateFollows(t: Transaction, steps: seq<Step>, i: nat)
    requires Opened(t) && t.update && i < |steps| && Outcome(Run(t, steps[..i]), steps[i]).Some?
    requires forall j :: 0 <= j < i ==> !Asks(t, steps, j, (steps[i].source.url, steps[i].source.reference))
    ensures Outcome(Run(t, steps[..i]), steps[i]) == steps[i].remote.head
  {
    NeverUpdates(t, steps[..i]);
    ResolveExact(t, steps, i);
  }

  // ----- what is locked -----

  /** Step `j` is the last successful resolve of `namespace`. */
  ghost predicate LastLock(t: Transaction, steps: seq<Step>, j: int, namespace: string) {
    && Locks(t, steps, j, namespace) && forall k :: j < k < |steps| ==> !Locks(t, steps, k, namespace)
  }

  ghost predicate Locks(t: Transaction, steps: seq<Step>, j: int, namespace: string) {
    && 0 <= j < |steps| && steps[j].Resolve? && steps[j].namespace == namespace
    && Outcome(Run(t, steps[..j]), steps[j]).Some?
  }

  lemma LocksPrefix(t: Transaction, steps: seq<Step>, n: nat, j: int, namespace: string)
    requires n <= |steps| && j < n
    ensures Locks(t, steps[..n], j, namespace) <==> Locks(t, steps, j, namespace)
  {
    if 0 <= j { assert steps[..n][..j] == steps[..j]; }
  }

  lemma LastLockPrefix(t: Transaction, steps: seq<Step>, j: int, namespace: string)
    requires LastLock(t, steps, j, namespace) && j < |steps| - 1
    ensures LastLock(t, steps[..|steps| - 1], j, namespace)
  {
    var n := |steps| - 1;
    forall k | k < n ensures Locks(t, steps[..n], k, namespace) <==> Locks(t, steps, k, namespace) {
      LocksPrefix(t, steps, n, k, namespace);
    }
    hide Locks;
  }

  /** After its last successful resolve a namespace stays locked to what that handed back. */
  lemma {:induction false} LastLockHolds(t: Transaction, steps: seq<Step>, j: int, namespace: string)
    requires LastLock(t, steps, j, namespace)
    ensures namespace in Run(t, steps).records
    ensures Run(t, steps).records[namespace] == Record(steps[j].source, Outcome(Run(t, steps[..j]), steps[j]).value)
    decreases |steps|
  {
    hide After, Outcome;
    var n := |steps| - 1;
    LockStep(Run(t, steps[..n]), steps[n], namespace);
    if j < n {
      assert !Locks(t, steps, n, namespace);
      LastLockPrefix(t, steps, j, namespace);
      assert steps[..n][..j] == steps[..j];
      LastLockHolds(t, steps[..n], j, namespace);
    }
  }

  /** A namespace that no resolve locks is locked as it was at the start. */
  lemma {:induction false} NeverLocked(t: Transaction, steps: seq<Step>, namespace: string)
    requires forall j :: !Locks(t, steps, j, namespace)
    ensures namespace in Run(t, steps).records <==> namespace in t.records
    ensures namespace in t.records ==> Run(t, steps).records[namespace] == t.records[namespace]
  {
    if steps != [] {
      var n := |steps| - 1;
      LockStep(Run(t, steps[..n]), steps[n], namespace);
      hide After, Outcome;
      assert !Locks(t, steps, n, namespace);
      forall k ensures !Locks(t, steps[..n], k, namespace) {
        if k < n { LocksPrefix(t, steps, n, k, namespace); }
      }
      NeverLocked(t, steps[..n], namespace);
    }
  }

  lemma LockStep(t: Transaction, s: Step, namespace: string)
    ensures var now := After(t, s).records;
            if s.Resolve? && s.namespace == namespace && Outcome(t, s).Some?
            then namespace in now && now[namespace] == Record(s.source, Outcome(t, s).value)
            else (namespace in now <==> namespace in t.records)
                 && (namespace in t.records ==> now[namespace] == t.records[namespace])
  {
    hide CommitValid;
  }

  // ----- repeating a namespace and source -----

  /** This transaction has itself taken `commit` for the source's reference. */
  predicate Settled(t: Transaction, source: Source, commit: string) {
    Ref(source) in t.resolved && t.resolved[Ref(source)] == commit
  }

  /** After `steps`, resolving again does not hand back another commit. */
  predicate Repeats(t: Transaction, steps: seq<Step>, remote: Remote, namespace: string, source: Source,
                    commit: string)
  {
    Outcome(Run(t, steps), Resolve(namespace, source, remote)) in {None, Some(commit)}
  }

  /** Whenever `namespace` is locked to `source`, it is at `commit`. */
  predicate LockedAt(t: Transaction, namespace: string, source: Source, commit: string) {
    namespace in t.records && t.records[namespace].source == source ==> t.records[namespace].commit == commit
  }

  lemma {:induction false} SettledStays(t: Transaction, steps: seq<Step>, namespace: string, source: Source,
                                        commit: string)
    requires Settled(t, source, commit) && LockedAt(t, namespace, source, commit)
    ensures Settled(Run(t, steps), source, commit) && LockedAt(Run(t, steps), namespace, source, commit)
  {
    if steps != [] {
      SettledStays(t, steps[..|steps| - 1], namespace, source, commit);
    }
  }

  /** A step that succeeded freshly has settled its reference. */
  lemma FreshSettles(t: Transaction, s: Step)
    requires s.Resolve? && Outcome(t, s).Some? && Fresh(t, s.namespace, s.source)
    ensures Settled(After(t, s), s.source, Outcome(t, s).value)
    ensures LockedAt(After(t, s), s.namespace, s.source, Outcome(t, s).value)
  {}

  /** Two valid commits, so that a remote can always have moved. */
  function Commit(digit: char): string {
    seq(40, _ => digit)
  }

  function OtherCommit(commit: string): (r: string)
    ensures CommitValid(r) && r != commit
  {
    assert Commit('0')[0] != Commit('1')[0];
    if commit == Commit('0') then Commit('1') else Commit('0')
  }

  /** The two steps that move an unsettled pin: lock the namespace to another directory, then resolve again. */
  lemma UnsettledMoves(t: Transaction, namespace: string, source: Source, commit: string)
    requires t.open && !t.cancelled && namespace != "" && source.reference != "" && source.reference[0] != '-'
    requires namespace in t.records && t.records[namespace] == Record(source, commit) && CommitValid(commit)
    requires !Settled(t, source, commit)
    requires forall r :: r in t.resolved ==> CommitValid(t.resolved[r])
    ensures exists steps, remote :: !Repeats(t, steps, remote, namespace, source, commit)
  {
    var elsewhere := source.(path := source.path + ["x"]);
    var remote := Remote(true, true, Some(OtherCommit(commit)), true);
    var steps := [Resolve(namespace, elsewhere, remote)];
    assert elsewhere.path != source.path;
    assert Run(t, []) == t;
    assert steps[..0] == [];
    assert Run(t, steps) == After(t, steps[0]);
    assert !Repeats(t, steps, remote, namespace, source, commit);
  }

  /** A pinned namespace locked to another directory and then back again: the third resolve is not the first. */
  lemma DetourMovesPin()
    ensures var source := Source("https://host/repo", "main", ["module"]);
            var remote := Remote(true, true, Some(Commit('1')), true);
            var t := Transaction(false, true, map["a" := Record(source, Commit('0'))], map[], false, false, []);
            var first := Resolve("a", source, remote);
            var detour := Resolve("a", source.(path := ["other"]), remote);
            Opened(t) && Outcome(t, first) == Some(Commit('0'))
            && Outcome(Run(t, [first, detour]), first) == Some(Commit('1'))
  {
    var source := Source("https://host/repo", "main", ["module"]);
    var remote := Remote(true, true, Some(Commit('1')), true);
    var t := Transaction(false, true, map["a" := Record(source, Commit('0'))], map[], false, false, []);
    var first := Resolve("a", source, remote);
    var detour := Resolve("a", source.(path := ["other"]), remote);
    assert ["other"][0] != ["module"][0];
    assert [first, detour][..1] == [first] && [first][..0] == [];
    assert Run(t, [first]) == After(t, first);
  }

  /** A repeated resolve is sure to hand back the same commit exactly when this transaction fetched it itself. */
  lemma RepeatExact(t: Transaction, namespace: string, source: Source, commit: string)
    requires t.open && !t.cancelled && namespace != "" && source.reference != "" && source.reference[0] != '-'
    requires namespace in t.records && t.records[namespace] == Record(source, commit) && CommitValid(commit)
    requires forall r :: r in t.resolved ==> CommitValid(t.resolved[r])
    ensures (forall steps, remote :: Repeats(t, steps, remote, namespace, source, commit)) <==>
            Settled(t, source, commit)
  {
    if Settled(t, source, commit) {
      forall steps, remote ensures Repeats(t, steps, remote, namespace, source, commit) {
        SettledStays(t, steps, namespace, source, commit);
      }
    } else {
      UnsettledMoves(t, namespace, source, commit);
    }
  }

  /**
   Within a run, repeating a namespace and source gives the same commit if the first resolve was not pinned,
   as under update, or if the namespace was not locked to another source in between.
   */
  lemma SameSourceSameCommit(t: Transaction, steps: seq<Step>, i: nat, j: nat)
    requires i < j < |steps| && steps[i].Resolve? && steps[j].Resolve?
    requires steps[i].namespace == steps[j].namespace && steps[i].source == steps[j].source
    requires Outcome(Run(t, steps[..i]), steps[i]).Some? && Outcome(Run(t, steps[..j]), steps[j]).Some?
    requires FreshAt(t, steps, i)
             || OnlyFrom(Run(t, steps[..i + 1]), steps[i + 1..j], steps[i].namespace, steps[i].source)
    ensures Outcome(Run(t, steps[..i]), steps[i]) == Outcome(Run(t, steps[..j]), steps[j])
  {
    hide Run, CommitValid;
    var before, now, commit := Run(t, steps[..i]), Run(t, steps[..i + 1]), Outcome(Run(t, steps[..i]), steps[i]).value;
    RunSnoc(t, steps, i);
    assert steps[..j] == steps[..i + 1] + steps[i + 1..j];
    RunConcat(t, steps[..i + 1], steps[i + 1..j]);
    if FreshAt(t, steps, i) {
      FreshSettles(before, steps[i]);
      SettledStays(now, steps[i + 1..j], steps[i].namespace, steps[i].source, commit);
      SettledOutcome(Run(t, steps[..j]), steps[j], commit);
    } else {
      PinnedStep(before, steps[i]);
      PinUnmoved(now, steps[i + 1..j], steps[i].namespace);
    }
  }

  lemma SettledOutcome(t: Transaction, s: Step, commit: string)
    requires s.Resolve? && Settled(t, s.source, commit) && LockedAt(t, s.namespace, s.source, commit)
    ensures Outcome(t, s) in {None, Some(commit)}
  {}

  lemma PinnedStep(t: Transaction, s: Step)
    requires s.Resolve? && Outcome(t, s).Some? && !Fresh(t, s.namespace, s.source)
    ensures !After(t, s).update && s.namespace in After(t, s).records
    ensures After(t, s).records[s.namespace] == t.records[s.namespace] == Record(s.source, Outcome(t, s).value)
  {
    hide CommitValid;
  }

  // ----- publication -----

  ghost predicate Failure(t: Transaction, s: Step) {
    s.Resolve? && Outcome(t, s).None?
  }

  /** A latch: once set, it stays set. */
  lemma {:induction false} Latches(t: Transaction, steps: seq<Step>)
    ensures t.failed ==> Run(t, steps).failed
    ensures t.cancelled ==> Run(t, steps).cancelled
    ensures !t.open ==> !Run(t, steps).open
    ensures t.published <= Run(t, steps).published
    ensures t.failed || t.cancelled || !t.open ==> Run(t, steps).published == t.published
  {
    if steps != [] {
      Latches(t, steps[..|steps| - 1]);
    }
  }

  /** A run publishes at most once. */
  lemma PublishedOnce(t: Transaction, steps: seq<Step>)
    requires t.published == [] && t.open
    ensures |Run(t, steps).published| <= 1
    ensures Run(t, steps).published != [] ==> !Run(t, steps).open
  {
    if steps != [] {
      PublishedOnce(t, steps[..|steps| - 1]);
    }
  }

  /** A transaction that has neither failed nor been cancelled has seen no failed resolve and no cancellation. */
  lemma CleanSoFar(t: Transaction, steps: seq<Step>, k: nat)
    requires k < |steps| && !Run(t, steps).failed && !Run(t, steps).cancelled
    ensures !Failure(Run(t, steps[..k]), steps[k]) && steps[k] != Cancel
  {
    hide Chosen;
    RunSnoc(t, steps, k);
    assert steps == steps[..k + 1] + steps[k + 1..];
    RunConcat(t, steps[..k + 1], steps[k + 1..]);
    Latches(Run(t, steps[..k + 1]), steps[k + 1..]);
  }

  lemma PublishingStep(t: Transaction, s: Step)
    requires After(t, s).published != t.published
    ensures !t.failed && !t.cancelled && t.open
    ensures After(t, s) == t.(open := false, published := t.published + [t.records])
  {
    hide Chosen;
  }

  /**
   What is published is the records of that moment, by then no resolve has failed and nothing was
   cancelled, and whatever happens later is not published.
   */
  lemma PublishedClean(t: Transaction, steps: seq<Step>, i: nat)
    requires Opened(t) && i < |steps| && Run(t, steps[..i + 1]).published != Run(t, steps[..i]).published
    ensures Run(t, steps).published == [Run(t, steps[..i]).records]
    ensures forall k :: 0 <= k < i ==> !Failure(Run(t, steps[..k]), steps[k]) && steps[k] != Cancel
  {
    hide Run, After, Failure;
    RunSnoc(t, steps, i);
    var before, now := Run(t, steps[..i]), Run(t, steps[..i + 1]);
    PublishingStep(before, steps[i]);
    forall k | 0 <= k < i ensures !Failure(Run(t, steps[..k]), steps[k]) && steps[k] != Cancel {
      assert steps[..i][..k] == steps[..k];
      CleanSoFar(t, steps[..i], k);
    }
    PublishedOnce(t, steps[..i]);
    assert before.published == [];
    assert steps == steps[..i + 1] + steps[i + 1..];
    RunConcat(t, steps[..i + 1], steps[i + 1..]);
    Latches(now, steps[i + 1..]);
  }

  /** Step `k` ends the chance to publish: it fails, cancels, or finishes the transaction. */
  ghost predicate Spoils(t: Transaction, steps: seq<Step>, k: int) {
    && 0 <= k < |steps|
    && match steps[k]
       case Resolve(_, _, _) => Outcome(Run(t, steps[..k]), steps[k]).None?
       case Cancel => true
       case Finish(persisted) => persisted || Run(t, steps[..k]).records == map[]
  }

  predicate Publishable(t: Transaction) {
    t.open && !t.failed && !t.cancelled
  }

  lemma SpoilStep(t: Transaction, s: Step)
    requires Publishable(t)
    ensures Publishable(After(t, s)) <==>
            match s
            case Resolve(_, _, _) => Outcome(t, s).Some?
            case Cancel => false
            case Finish(persisted) => !persisted && t.records != map[]
  {
    hide Chosen;
  }

  lemma {:induction false} StillPublishable(t: Transaction, steps: seq<Step>)
    requires Publishable(t)
    ensures Publishable(Run(t, steps)) <==> forall k :: !Spoils(t, steps, k)
  {
    if steps != [] {
      var n := |steps| - 1;
      StillPublishable(t, steps[..n]);
      if Publishable(Run(t, steps[..n])) { SpoilStep(Run(t, steps[..n]), steps[n]); }
      Latches(Run(t, steps[..n]), [steps[n]]);
      assert [steps[n]][..0] == [] && Run(Run(t, steps[..n]), [steps[n]]) == Run(t, steps);
      forall k | k < n ensures Spoils(t, steps[..n], k) <==> Spoils(t, steps, k) {
        if 0 <= k { assert steps[..n][..k] == steps[..k]; }
      }
      assert Spoils(t, steps, n) <==>
        match steps[n]
        case Resolve(_, _, _) => Outcome(Run(t, steps[..n]), steps[n]).None?
        case Cancel => true
        case Finish(persisted) => persisted || Run(t, steps[..n]).records == map[];
      hide Spoils;
      if k :| Spoils(t, steps[..n], k) { SpoilsInside(t, steps[..n], k); }
      if k :| Spoils(t, steps, k) { SpoilsInside(t, steps, k); }
    }
  }

  lemma SpoilsInside(t: Transaction, steps: seq<Step>, k: int)
    requires Spoils(t, steps, k)
    ensures 0 <= k < |steps|
  {}

  /** A step publishes exactly when it is a finish that persists some records and nothing before it spoiled that. */
  lemma PublishesExact(t: Transaction, steps: seq<Step>, i: nat)
    requires Opened(t) && i < |steps|
    ensures Run(t, steps[..i + 1]).published != Run(t, steps[..i]).published <==>
            && steps[i] == Finish(true) && Run(t, steps[..i]).records != map[]
            && forall k :: 0 <= k < i ==> !Spoils(t, steps, k)
  {
    RunSnoc(t, steps, i);
    StillPublishable(t, steps[..i]);
    hide Run, Chosen;
    forall k | 0 <= k < i ensures Spoils(t, steps[..i], k) <==> Spoils(t, steps, k) {
      assert steps[..i][..k] == steps[..k];
    }
    assert (forall k :: !Spoils(t, steps[..i], k)) <==> forall k :: 0 <= k < i ==> !Spoils(t, steps, k);
    var now := Run(t, steps[..i]);
    assert |now.published + [now.records]| > |now.published|;
  }

  /** Every commit recorded or fetched in a run is a full commit name. */
  lemma {:induction false} CommitsValid(t: Transaction, steps: seq<Step>)
    requires forall n :: n in t.records ==> CommitValid(t.records[n].commit)
    requires forall r :: r in t.resolved ==> CommitValid(t.resolved[r])
    ensures forall n :: n in Run(t, steps).records ==> CommitValid(Run(t, steps).records[n].commit)
    ensures forall r :: r in Run(t, steps).resolved ==> CommitValid(Run(t, steps).resolved[r])
  {
    hide CommitValid, After;
    if steps != [] {
      CommitsValid(t, steps[..|steps| - 1]);
      CommitsStayValid(Run(t, steps[..|steps| - 1]), steps[|steps| - 1]);
    }
  }

  lemma CommitsStayValid(t: Transaction, s: Step)
    requires forall n :: n in t.records ==> CommitValid(t.records[n].commit)
    requires forall r :: r in t.resolved ==> CommitValid(t.resolved[r])
    ensures forall n :: n in After(t, s).records ==> CommitValid(After(t, s).records[n].commit)
    ensures forall r :: r in After(t, s).resolved ==> CommitValid(After(t, s).resolved[r])
  {
    hide CommitValid;
  }

  // ----- the resolver -----

  /** A lockfile as read: whether its locations and directories are well formed, and its records. */
  datatype Lockfile = Lockfile(version: nat, wellFormed: bool, modules: map<string, Record>)

  ghost predicate Usable(l: Lockfile) {
    l.version == 1 && l.wellFormed && forall n :: n in l.modules ==> CommitValid(l.modules[n].commit)
  }

  class SourceResolver {
    const update: bool
    const cancel: CancelToken
    var open: bool
    var records: map<string, Record>
    var resolved: map<(string, string), string>
    var failed: bool
    ghost var published: seq<map<string, Record>>

    ghost function View(): Transaction
      reads this, cancel
    {
      Transaction(update, open, records, resolved, failed, cancel.cancelled, published)
    }

    constructor (update: bool, cancel: CancelToken, locked: map<string, Record>)
      ensures View() == Transaction(update, true, locked, map[], false, cancel.cancelled, [])
      ensures this.cancel == cancel
    {
      this.update, this.cancel := update, cancel;
      open, records, resolved, failed, published := true, locked, map[], false, [];
    }

    /** Open a transaction over the lockfile, if there is one and it can be used. */
    static method Open(update: bool, cancel: CancelToken, lockfile: Option<Lockfile>)
      returns (r: Option<SourceResolver>)
      ensures r.Some? <==> !cancel.cancelled && (lockfile.None? || Usable(lockfile.value))
      ensures r.Some? ==> fresh(r.value) && r.value.cancel == cancel && r.value.update == update
      ensures r.Some? ==> Opened(r.value.View())
      ensures r.Some? ==> r.value.records == if lockfile.Some? then lockfile.value.modules else map[]
    {
      hide CommitValid;
      if cancel.cancelled { return None; }
      var records: map<string, Record> := map[];
      if lockfile.Some? {
        if lockfile.value.version != 1 || !lockfile.value.wellFormed { return None; }
        var rest := lockfile.value.modules.Keys;
        while rest != {}
          invariant rest <= lockfile.value.modules.Keys
          invariant forall n :: n in lockfile.value.modules && n !in rest ==>
                    CommitValid(lockfile.value.modules[n].commit)
        {
          var n :| n in rest;
          if !CommitValid(lockfile.value.modules[n].commit) { return None; }
          rest := rest - {n};
        }
        records := lockfile.value.modules;
      }
      var resolver := new SourceResolver(update, cancel, records);
      r := Some(resolver);
    }

    method Resolve(namespace: string, source: Source, remote: Remote) returns (commit: Option<string>)
      modifies this
      ensures View() == After(old(View()), Step.Resolve(namespace, source, remote))
      ensures commit == Outcome(old(View()), Step.Resolve(namespace, source, remote))
    {
      commit := ResolveInner(namespace, source, remote);
      if commit.None? { failed := true; }
    }

    method ResolveInner(namespace: string, source: Source, remote: Remote) returns (commit: Option<string>)
      modifies this
      ensures commit == Outcome(old(View()), Step.Resolve(namespace, source, remote))
      ensures After(old(View()), Step.Resolve(namespace, source, remote)) ==
              (if commit.None? then View().(failed := true) else View())
    {
      hide CommitValid;
      if cancel.cancelled || !open || namespace == "" || !remote.wellFormed { return None; }
      if source.reference == "" || source.reference[0] == '-' { return None; }
      var pinned: Option<string> := None;
      if !update && namespace in records && records[namespace].source == source {
        pinned := Some(records[namespace].commit);
      }
      var chosen: string;
      if pinned.Some? {
        if !CommitValid(pinned.value) || !remote.pinAvailable { return None; }
        chosen := pinned.value;
      } else if Ref(source) in resolved {
        chosen := resolved[Ref(source)];
      } else {
        if remote.head.None? || !CommitValid(remote.head.value) { return None; }
        chosen := remote.head.value;
        resolved := resolved[Ref(source) := chosen];
      }
      assert pinned.None? ==> resolved == old(resolved)[Ref(source) := chosen];
      if !remote.checkedOut { return None; }
      records := records[namespace := Record(source, chosen)];
      commit := Some(chosen);
    }

    method Finish(persisted: bool) returns (ok: bool)
      modifies this
      ensures View() == After(old(View()), Step.Finish(persisted))
      ensures ok <==> old(open) && !open
    {
      if cancel.cancelled || !open || failed { return false; }
      if records == map[] { open := false; return true; }
      var may := cancel.MayPublish();
      if !may || !persisted { return false; }
      published := published + [records];
      open := false;
      ok := true;
    }
  }
}
