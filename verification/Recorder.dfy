/**
 The recording loop as a state machine: live samples, presence, snapshot queries and closing, in any
 interleaving the environment chooses.
 */
module Recorder {
  import opened Prelude
  import opened Keys

  datatype Sample = Sample(key: Key, payload: seq<byte>, fingerprint: Option<u64>)

  datatype Pending = LiveSample(sample: Sample) | JoinedKey(key: Key) | LeftKey(key: Key)

  /** What the front snapshot query yields next. */
  datatype Reply = Exhausted | Failure | Answer(sample: Sample)

  /** Which arm of the selection fires. */
  datatype Choice =
    | Stop(drained: seq<Pending>)       // stop request or deadline; the receiver is taken and drained
    | Receive(item: Option<Pending>)    // the open receiver delivers, or is disconnected
    | Pop                               // the receiver is gone: the front of the drained items
    | Answered(reply: Reply)            // the front snapshot query answers

  /** One turn; `ok` is whether the write or the query it leads to succeeds. */
  datatype Turn = Turn(choice: Choice, ok: bool)

  datatype Action = Write(sample: Sample, snapshot: bool) | Query(key: Key)

  datatype Status = Running | Finished | Failed

  datatype State = State(
    seen: set<Key>,
    queried: set<Key>,
    snapshots: seq<Key>,
    pending: seq<Pending>,
    closing: bool,
    status: Status,
    log: seq<Action>)

  const INITIAL := State({}, {}, [], [], false, Running, [])

  // ----- one turn -----

  /** The arms that can fire: stopping and receiving need the receiver, popping needs it gone. */
  predicate Enabled(s: State, t: Turn) {
    && s.status == Running
    && match t.choice
       case Stop(_) => !s.closing
       case Receive(_) => !s.closing
       case Pop => s.closing
       case Answered(_) => s.snapshots != []
  }

  function HandOver(s: State, sample: Sample, snapshot: bool, ok: bool): State {
    s.(log := s.log + [Write(sample, snapshot)], status := if ok then Running else Failed)
  }

  function Handle(s: State, item: Pending, ok: bool): State {
    match item
    case LiveSample(sample) => HandOver(s.(seen := s.seen + {sample.key}), sample, false, ok)
    case JoinedKey(key) =>
      if s.closing || key in s.queried then s
      else if ok then s.(queried := s.queried + {key}, snapshots := s.snapshots + [key], log := s.log + [Query(key)])
      else s.(queried := s.queried + {key}, status := Failed, log := s.log + [Query(key)])
    case LeftKey(key) => s.(queried := s.queried - {key}, seen := s.seen - {key})
  }

  function Apply(s: State, t: Turn): State
    requires Enabled(s, t)
  {
    match t.choice
    case Stop(drained) => s.(closing := true, pending := s.pending + drained, snapshots := [])
    case Receive(None) => s.(status := Finished)
    case Receive(Some(item)) => Handle(s, item, t.ok)
    case Pop =>
      if s.pending == [] then s.(status := Finished)
      else Handle(s.(pending := s.pending[1..]), s.pending[0], t.ok)
    case Answered(Exhausted) => s.(snapshots := s.snapshots[1..])
    case Answered(Failure) => s
    case Answered(Answer(sample)) => if sample.key in s.seen then s else HandOver(s, sample, true, t.ok)
  }

  // ----- runs -----

  ghost predicate Run(turns: seq<Turn>)
    decreases |turns|, 0
  {
    turns == [] || (Run(turns[..|turns| - 1]) && Enabled(After(turns[..|turns| - 1]), turns[|turns| - 1]))
  }

  ghost function After(turns: seq<Turn>): State
    requires Run(turns)
    decreases |turns|, 1
  {
    if turns == [] then INITIAL else Apply(After(turns[..|turns| - 1]), turns[|turns| - 1])
  }

  /** The received item a turn handles. */
  function Taken(s: State, t: Turn): Option<Pending> {
    match t.choice
    case Receive(item) => item
    case Pop => if s.pending == [] then None else Some(s.pending[0])
    case _ => None
  }

  lemma {:induction false} RunPrefix(turns: seq<Turn>, n: nat)
    requires Run(turns) && n <= |turns|
    ensures Run(turns[..n])
  {
    if n < |turns| {
      RunPrefix(turns[..|turns| - 1], n);
      assert turns[..|turns| - 1][..n] == turns[..n];
    } else {
      assert turns[..n] == turns;
    }
  }

  /** Turn `j` of the run handled `item`. */
  ghost predicate Handled(turns: seq<Turn>, j: int, item: Pending) {
    0 <= j < |turns| && Run(turns[..j]) && Taken(After(turns[..j]), turns[j]) == Some(item)
  }

  ghost predicate LiveAt(turns: seq<Turn>, j: int, k: Key) {
    exists s: Sample :: s.key == k && Handled(turns, j, LiveSample(s))
  }

  ghost predicate LeftAt(turns: seq<Turn>, j: int, k: Key) {
    Handled(turns, j, LeftKey(k))
  }

  /** Turn `j` sent a snapshot query for `k`. */
  ghost predicate QueryAt(turns: seq<Turn>, j: int, k: Key) {
    && Handled(turns, j, JoinedKey(k))
    && !After(turns[..j]).closing && k !in After(turns[..j]).queried
  }

  /** `k` has not left between turn `j` and turn `n`. */
  ghost predicate StillThere(turns: seq<Turn>, j: int, n: int, k: Key) {
    forall l :: j < l < n ==> !LeftAt(turns, l, k)
  }

  ghost predicate LiveSinceLeft(turns: seq<Turn>, n: int, k: Key) {
    exists j :: 0 <= j < n && LiveAt(turns, j, k) && StillThere(turns, j, n, k)
  }

  ghost predicate QueriedSinceLeft(turns: seq<Turn>, n: int, k: Key) {
    exists j :: 0 <= j < n && QueryAt(turns, j, k) && StillThere(turns, j, n, k)
  }

  /** Facts about earlier turns do not depend on later ones. */
  lemma PrefixFacts(turns: seq<Turn>, n: nat, j: int, k: Key)
    requires n <= |turns| && j < n
    ensures LiveAt(turns[..n], j, k) <==> LiveAt(turns, j, k)
    ensures LeftAt(turns[..n], j, k) <==> LeftAt(turns, j, k)
    ensures QueryAt(turns[..n], j, k) <==> QueryAt(turns, j, k)
  {
    if 0 <= j {
      assert turns[..n][..j] == turns[..j] && turns[..n][j] == turns[j];
      forall item ensures Handled(turns[..n], j, item) <==> Handled(turns, j, item) {}
    }
  }

  /** Extending by one turn: the history relative to `n` turns, from the history relative to `n - 1`. */
  lemma HistoryStep(turns: seq<Turn>, k: Key)
    requires turns != []
    ensures var n := |turns| - 1;
            && (LiveSinceLeft(turns, n + 1, k) <==>
                  LiveAt(turns, n, k) || (LiveSinceLeft(turns[..n], n, k) && !LeftAt(turns, n, k)))
            && (QueriedSinceLeft(turns, n + 1, k) <==>
                  QueryAt(turns, n, k) || (QueriedSinceLeft(turns[..n], n, k) && !LeftAt(turns, n, k)))
  {
    var n := |turns| - 1;
    var front := turns[..n];
    forall j | 0 <= j < n
      ensures LiveAt(front, j, k) <==> LiveAt(turns, j, k)
      ensures LeftAt(front, j, k) <==> LeftAt(turns, j, k)
      ensures QueryAt(front, j, k) <==> QueryAt(turns, j, k)
    {
      PrefixFacts(turns, n, j, k);
    }
    hide LiveAt, LeftAt, QueryAt;
    assert StillThere(turns, n, n + 1, k);
    forall j | 0 <= j < n
      ensures StillThere(turns, j, n + 1, k) <==> StillThere(front, j, n, k) && !LeftAt(turns, n, k)
    {
      if StillThere(turns, j, n + 1, k) {
        forall l | j < l < n ensures !LeftAt(front, l, k) { assert !LeftAt(turns, l, k); }
        assert !LeftAt(turns, n, k);
      }
      if StillThere(front, j, n, k) && !LeftAt(turns, n, k) {
        forall l | j < l < n + 1 ensures !LeftAt(turns, l, k) {
          if l < n { assert !LeftAt(front, l, k); }
        }
      }
    }
  }

  /** How one turn changes the two sets. */
  lemma SetsStep(s: State, t: Turn, k: Key)
    requires Enabled(s, t)
    ensures var taken := Taken(s, t);
            var next := Apply(s, t);
            && (k in next.seen <==>
                  (taken.Some? && taken.value.LiveSample? && taken.value.sample.key == k)
                    || (k in s.seen && taken != Some(LeftKey(k))))
            && (k in next.queried <==>
                (taken == Some(JoinedKey(k)) && !s.closing && k !in s.queried)
                  || (k in s.queried && taken != Some(LeftKey(k))))
  {}

  /** The two sets the loop keeps are exactly the histories they stand for. */
  lemma {:induction false} SetsAreHistories(turns: seq<Turn>, k: Key)
    requires Run(turns)
    ensures k in After(turns).seen <==> LiveSinceLeft(turns, |turns|, k)
    ensures k in After(turns).queried <==> QueriedSinceLeft(turns, |turns|, k)
  {
    if turns != [] {
      var n := |turns| - 1;
      SetsAreHistories(turns[..n], k);
      HistoryStep(turns, k);
      LastTurn(turns, k);
      SetsStep(After(turns[..n]), turns[n], k);
      hide LiveSinceLeft, QueriedSinceLeft, LiveAt, LeftAt, QueryAt, Apply, Taken;
    }
  }

  /** What the last turn handled, read off its state. */
  lemma LastTurn(turns: seq<Turn>, k: Key)
    requires turns != [] && Run(turns)
    ensures var n := |turns| - 1;
            var taken := Taken(After(turns[..n]), turns[n]);
            && (LiveAt(turns, n, k) <==> taken.Some? && taken.value.LiveSample? && taken.value.sample.key == k)
            && (LeftAt(turns, n, k) <==> taken == Some(LeftKey(k)))
            && (QueryAt(turns, n, k) <==>
                taken == Some(JoinedKey(k)) && !After(turns[..n]).closing && k !in After(turns[..n]).queried)
  {
    var n := |turns| - 1;
    var taken := Taken(After(turns[..n]), turns[n]);
    if taken.Some? && taken.value.LiveSample? {
      assert Handled(turns, n, LiveSample(taken.value.sample));
    }
  }

  // ----- what the runs guarantee -----

  /**
   A snapshot answer is handed to the writer exactly when no live sample of its key was taken since the key last left.
   */
  lemma SnapshotsYieldToLive(turns: seq<Turn>, sample: Sample, ok: bool)
    requires Run(turns) && Enabled(After(turns), Turn(Answered(Answer(sample)), ok))
    ensures var next := Apply(After(turns), Turn(Answered(Answer(sample)), ok));
            && next.log ==
              After(turns).log + (if LiveSinceLeft(turns, |turns|, sample.key) then [] else [Write(sample, true)])
            && !After(turns).closing
  {
    SetsAreHistories(turns, sample.key);
    Closing(turns);
  }

  /** Between two queries for one key, the key has left. */
  lemma OneQueryPerSession(turns: seq<Turn>, i: nat, j: nat, k: Key)
    requires Run(turns) && i < j < |turns| && QueryAt(turns, i, k) && QueryAt(turns, j, k)
    ensures exists l :: i < l < j && LeftAt(turns, l, k)
  {
    RunPrefix(turns, j);
    SetsAreHistories(turns[..j], k);
    PrefixFacts(turns, j, i, k);
    assert !StillThere(turns[..j], i, j, k) by {
      assert !QueriedSinceLeft(turns[..j], j, k);
    }
    var l :| i < l < j && LeftAt(turns[..j], l, k);
    PrefixFacts(turns, j, l, k);
  }

  /** Once closing, no query is open, and before that nothing is drained. */
  lemma {:induction false} Closing(turns: seq<Turn>)
    requires Run(turns)
    ensures After(turns).closing ==> After(turns).snapshots == []
    ensures !After(turns).closing ==> After(turns).pending == []
  {
    if turns != [] { Closing(turns[..|turns| - 1]); }
  }

  // ----- queries -----

  /** The keys queried, in order. */
  function Queries(log: seq<Action>): seq<Key> {
    if log == [] then []
    else
      var last := log[|log| - 1];
      Queries(log[..|log| - 1]) + (if last.Query? then [last.key] else [])
  }

  lemma QueriesSnoc(log: seq<Action>, a: Action)
    ensures Queries(log + [a]) == Queries(log) + (if a.Query? then [a.key] else [])
  {
    assert (log + [a])[..|log|] == log;
  }

  /** The run ended because its last query could not be sent. */
  predicate QueryFailed(s: State) {
    s.status == Failed && s.log != [] && s.log[|s.log| - 1].Query?
  }

  /** The queries that were sent. */
  function Sent(s: State): seq<Key> {
    Queries(if QueryFailed(s) then s.log[..|s.log| - 1] else s.log)
  }

  /** How often the front query had no more answers. */
  function Exhaustions(turns: seq<Turn>): nat {
    if turns == [] then 0
    else Exhaustions(turns[..|turns| - 1]) + (if turns[|turns| - 1].choice == Answered(Exhausted) then 1 else 0)
  }

  /** The key a turn tries to query: one that joins, unless the loop closes or has queried it already. */
  function Joining(s: State, t: Turn): Option<Key> {
    match Taken(s, t)
    case Some(JoinedKey(k)) => if s.closing || k in s.queried then None else Some(k)
    case _ => None
  }

  /** A turn logs the query it tries to send, or a write, or nothing. */
  lemma JoiningLogs(s: State, t: Turn)
    requires Enabled(s, t)
    ensures var next, k := Apply(s, t), Joining(s, t);
            && (k.Some? ==> next.log == s.log + [Query(k.value)] && (next.status == Failed <==> !t.ok))
            && (k.None? ==>
                  || (next.log == s.log && next.status != Failed)
                  || (exists x, snapshot :: next.log == s.log + [Write(x, snapshot)]))
  {
    var next, taken := Apply(s, t), Taken(s, t);
    if taken.Some? && taken.value.LiveSample? {
      assert next.log == s.log + [Write(taken.value.sample, false)];
    } else if t.choice.Answered? && t.choice.reply.Answer? && next.log != s.log {
      assert next.log == s.log + [Write(t.choice.reply.sample, true)];
    }
  }

  lemma JoiningStep(s: State, t: Turn)
    requires Enabled(s, t)
    ensures var next, k := Apply(s, t), Joining(s, t);
            && (k.None? ==> Queries(next.log) == Queries(s.log) && Sent(next) == Sent(s))
            && (k.Some? ==> Queries(next.log) == Queries(s.log) + [k.value])
            && (k.Some? ==> Sent(next) == Sent(s) + (if t.ok then [k.value] else []))
  {
    JoiningLogs(s, t);
    assert !QueryFailed(s);
    hide Apply, Joining, Enabled;
    var next := Apply(s, t);
    if next.log != s.log {
      var a := next.log[|next.log| - 1];
      assert next.log == s.log + [a];
      QueriesSnoc(s.log, a);
      assert next.log[..|s.log|] == s.log;
    }
  }

  lemma SnapshotsStep(s: State, t: Turn)
    requires Enabled(s, t) && !Apply(s, t).closing
    ensures var k := Joining(s, t);
            Apply(s, t).snapshots ==
            if t.choice == Answered(Exhausted) then s.snapshots[1..]
            else if k.Some? && t.ok then s.snapshots + [k.value]
            else s.snapshots
  {}

  /** One turn keeps the open queries those sent after the first `e`, or `e + 1` once one more is exhausted. */
  lemma OpenStep(s: State, t: Turn, e: nat)
    requires Enabled(s, t) && !Apply(s, t).closing && e <= |Sent(s)| && s.snapshots == Sent(s)[e..]
    ensures var next := if t.choice == Answered(Exhausted) then e + 1 else e;
            next <= |Sent(Apply(s, t))| && Apply(s, t).snapshots == Sent(Apply(s, t))[next..]
  {
    JoiningStep(s, t);
    SnapshotsStep(s, t);
    assert t.choice == Answered(Exhausted) ==> s.snapshots != [] && Joining(s, t) == None;
    hide Apply, Joining, Sent, Enabled;
    var sent, k := Sent(s), Joining(s, t);
    if t.choice == Answered(Exhausted) {
      assert sent[e..][1..] == sent[e + 1..];
    } else if k.Some? && t.ok {
      assert (sent + [k.value])[e..] == sent[e..] + [k.value];
    } else {
      assert sent + [] == sent;
    }
  }

  /** Until closing, the open queries are those sent, in order, without one for each that was exhausted. */
  lemma {:induction false} QueriesStayOpen(turns: seq<Turn>)
    requires Run(turns) && !After(turns).closing
    ensures Exhaustions(turns) <= |Sent(After(turns))|
    ensures After(turns).snapshots == Sent(After(turns))[Exhaustions(turns)..]
  {
    if turns != [] {
      var n := |turns| - 1;
      StaysClosing(After(turns[..n]), turns[n]);
      hide Apply, Sent, Enabled;
      QueriesStayOpen(turns[..n]);
      OpenStep(After(turns[..n]), turns[n], Exhaustions(turns[..n]));
    }
  }

  lemma StaysClosing(s: State, t: Turn)
    requires Enabled(s, t)
    ensures s.closing ==> Apply(s, t).closing
  {}

  /** Some turn so far has stopped the loop. */
  ghost predicate Stopped(turns: seq<Turn>) {
    exists i :: 0 <= i < |turns| && turns[i].choice.Stop?
  }

  lemma {:induction false} ClosingIsStopped(turns: seq<Turn>)
    requires Run(turns)
    ensures After(turns).closing <==> Stopped(turns)
  {
    if turns != [] {
      var n := |turns| - 1;
      ClosingIsStopped(turns[..n]);
      if i :| 0 <= i < n && turns[..n][i].choice.Stop? { assert turns[i].choice.Stop?; }
      if i :| 0 <= i < |turns| && turns[i].choice.Stop? { if i < n { assert turns[..n][i].choice.Stop?; } }
      if turns[n].choice.Stop? { assert Stopped(turns); }
    }
  }

  /** Which arms can fire in a run that goes on, by what has happened in it. */
  lemma ArmsExact(turns: seq<Turn>, t: Turn)
    requires Run(turns) && After(turns).status == Running
    ensures Enabled(After(turns), t) <==>
            match t.choice
            case Stop(_) => !Stopped(turns)
            case Receive(_) => !Stopped(turns)
            case Pop => Stopped(turns)
            case Answered(_) => !Stopped(turns) && Exhaustions(turns) < |Sent(After(turns))|
  {
    ClosingIsStopped(turns);
    Closing(turns);
    hide Sent, Stopped;
    if !After(turns).closing { QueriesStayOpen(turns); }
  }

  /** The keys of the turns at which a key joins that has not been queried since it last left, until closing. */
  ghost function JoinQueries(turns: seq<Turn>): seq<Key>
    requires Run(turns)
  {
    if turns == [] then []
    else
      var n := |turns| - 1;
      var k := Joining(After(turns[..n]), turns[n]);
      JoinQueries(turns[..n]) + (if k.Some? then [k.value] else [])
  }

  /** Exactly these keys are queried, in order. */
  lemma {:induction false} QueriesAreJoins(turns: seq<Turn>)
    requires Run(turns)
    ensures Queries(After(turns).log) == JoinQueries(turns)
    ensures turns != [] ==>
              var n := |turns| - 1;
              forall k :: Joining(After(turns[..n]), turns[n]) == Some(k) <==> QueryAt(turns, n, k)
  {
    if turns != [] {
      var n := |turns| - 1;
      QueriesAreJoins(turns[..n]);
      JoiningStep(After(turns[..n]), turns[n]);
      assert turns[..n + 1] == turns;
    }
  }

  /** The live samples among received items, as writes. */
  function LiveWrites(items: seq<Pending>): seq<Action> {
    if items == [] then []
    else
      var last := items[|items| - 1];
      LiveWrites(items[..|items| - 1]) + (if last.LiveSample? then [Write(last.sample, false)] else [])
  }

  /**
   `n` turns after closing with `drained` in hand: the first `n` items are consumed and their live samples handed to
   the writer in order, with nothing else in between; or the loop has ended, one turn after the last item.
   */
  ghost predicate Drained(s: State, base: seq<Action>, drained: seq<Pending>, n: nat) {
    && s.closing && s.snapshots == []
    && (s.status != Finished ==>
          n <= |drained| && s.pending == drained[n..] && s.log == base + LiveWrites(drained[..n]))
    && (s.status == Finished ==> n == |drained| + 1 && s.log == base + LiveWrites(drained))
  }

  /** However the run goes on after closing, it drains; so it ends within one turn more than there are items. */
  lemma {:induction false} ClosingDrains(before: seq<Turn>, stop: Turn, turns: seq<Turn>)
    requires stop.choice.Stop? && Run(before + [stop] + turns)
    ensures Run(before)
    ensures Drained(After(before + [stop] + turns), After(before).log, stop.choice.drained, |turns|)
    ensures |turns| <= |stop.choice.drained| + 1
    decreases |turns|
  {
    var drained := stop.choice.drained;
    var all := before + [stop] + turns;
    if turns == [] {
      assert all[..|all| - 1] == before;
      Closing(before);
      assert drained[0..] == drained && [] + drained == drained;
      assert drained[..0] == [];
    } else {
      var n := |turns| - 1;
      assert all[..|all| - 1] == before + [stop] + turns[..n];
      ClosingDrains(before, stop, turns[..n]);
      hide Drained, Enabled, Apply;
      DrainTurn(After(before + [stop] + turns[..n]), turns[n], drained, n, After(before).log);
    }
  }

  lemma DrainTurn(s: State, t: Turn, drained: seq<Pending>, n: nat, base: seq<Action>)
    requires Enabled(s, t) && Drained(s, base, drained, n)
    ensures Drained(Apply(s, t), base, drained, n + 1) && n <= |drained|
  {
    if n == |drained| {
      assert drained[..n] == drained;
    } else {
      assert drained[n..][1..] == drained[n + 1..];
      assert drained[..n + 1][..n] == drained[..n];
    }
  }

  // ----- the loop -----

  /** The recording loop, its state in fields, turned by whatever the environment does. */
  class Loop {
    var seen: set<Key>
    var queried: set<Key>
    var snapshots: seq<Key>
    var pending: seq<Pending>
    var closing: bool
    var status: Status
    var log: seq<Action>

    function View(): State
      reads this
    {
      State(seen, queried, snapshots, pending, closing, status, log)
    }

    constructor ()
      ensures View() == INITIAL
    {
      seen, queried, snapshots, pending, closing, status, log := {}, {}, [], [], false, Running, [];
    }

    method Step(t: Turn)
      requires Enabled(View(), t)
      modifies this
      ensures View() == Apply(old(View()), t)
    {
      match t.choice {
        case Stop(drained) =>
          closing := true;
          pending := pending + drained;
          snapshots := [];
          return;
        case Receive(item) =>
          if item.None? { status := Finished; return; }
          Take(item.value, t.ok);
          return;
        case Pop =>
          if pending == [] { status := Finished; return; }
          var item := pending[0];
          pending := pending[1..];
          Take(item, t.ok);
          return;
        case Answered(reply) =>
          match reply {
            case Exhausted => snapshots := snapshots[1..]; return;
            case Failure => return;
            case Answer(answer) =>
              if answer.key in seen { return; }
              WriteVerified(answer, true, t.ok);
          }
      }
    }

    method Take(item: Pending, ok: bool)
      requires status == Running
      modifies this
      ensures View() == Handle(old(View()), item, ok)
    {
      match item {
        case LiveSample(sample) =>
          seen := seen + {sample.key};
          WriteVerified(sample, false, ok);
        case JoinedKey(key) =>
          if !closing && key !in queried {
            queried := queried + {key};
            log := log + [Query(key)];
            if ok { snapshots := snapshots + [key]; } else { status := Failed; }
          }
        case LeftKey(key) =>
          queried := queried - {key};
          seen := seen - {key};
      }
    }

    method WriteVerified(sample: Sample, snapshot: bool, ok: bool)
      requires status == Running
      modifies this`log, this`status
      ensures View() == HandOver(old(View()), sample, snapshot, ok)
    {
      log := log + [Write(sample, snapshot)];
      if !ok { status := Failed; }
    }

    /** Turn until the script ends or the loop does. */
    method RecordPending(turns: seq<Turn>)
      requires View() == INITIAL && Run(turns)
      modifies this
      ensures View() == After(turns)
    {
      assert turns[..0] == [];
      for i := 0 to |turns|
        invariant Run(turns[..i]) && View() == After(turns[..i])
      {
        RunPrefix(turns, i + 1);
        assert turns[..i + 1][..i] == turns[..i];
        Step(turns[i]);
      }
      assert turns[..|turns|] == turns;
    }
  }
}
