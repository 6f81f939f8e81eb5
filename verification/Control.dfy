/** One latched cancellation source, and a publication that cancelling can only precede or follow. */
module Control {
  import opened Prelude
  import opened Cancellation

  // ----- calls as atomic steps -----

  datatype State = State(error: Option<string>, finished: bool, cancelledAt: Option<nat>, cancelled: bool)

  /**
   A call made under the lock: a request with or without an error, at some time; a publication or an
   active operation, whose own outcome is `succeeds`.
   */
  datatype Call =
    | Request(error: Option<string>, time: nat)
    | Publish(succeeds: bool)
    | Active(succeeds: bool)

  const START := State(None, false, None, false)

  /** Whether the guarded operation starts at all. */
  predicate Admitted(s: State) {
    s.error.None? && !s.cancelled
  }

  predicate Commits(s: State, c: Call) {
    c.Publish? && Admitted(s) && c.succeeds
  }

  function After(s: State, c: Call): State {
    match c
    case Request(error, time) =>
      if s.finished then s
      else s.(error := if s.error.None? then error else s.error,
              cancelledAt := if s.cancelledAt.None? then Some(time) else s.cancelledAt,
              cancelled := true)
    case Publish(_) => if Commits(s, c) then s.(finished := true) else s
    case Active(_) => s
  }

  function Run(s: State, calls: seq<Call>): State
    decreases |calls|
  {
    if calls == [] then s else Run(After(s, calls[0]), calls[1..])
  }

  /** A recorded error implies cancelled, and a finished publication excludes both. */
  ghost predicate Consistent(s: State) {
    && (s.error.Some? ==> s.cancelled)
    && (s.finished ==> !s.cancelled && s.error.None?)
    && (s.cancelledAt.Some? <==> s.cancelled)
  }

  /** What was once decided stays as it was. */
  ghost predicate Keeps(s: State, t: State) {
    && (s.error.Some? ==> t.error == s.error)
    && (s.cancelledAt.Some? ==> t.cancelledAt == s.cancelledAt)
    && (s.cancelled ==> t.cancelled && !t.finished)
    && (s.finished ==> t == s)
  }

  /** Over every interleaving of calls the state is consistent, and no decision is ever revised. */
  lemma {:induction false} Latched(s: State, calls: seq<Call>)
    requires Consistent(s)
    ensures Consistent(Run(s, calls)) && Keeps(s, Run(s, calls))
    decreases |calls|
  {
    if calls != [] {
      Latched(After(s, calls[0]), calls[1..]);
    }
  }

  /** A publication commits exactly when every request before it came after an earlier commit. */
  lemma CommitsUnlessRequested(calls: seq<Call>)
    ensures Commits(Run(START, calls), Publish(true)) <==>
            (forall i :: 0 <= i < |calls| && calls[i].Request? ==> Run(START, calls[..i]).finished)
  {
    RequestsDecide(START, calls);
    Latched(START, calls);
  }

  lemma {:induction false} RequestsDecide(s: State, calls: seq<Call>)
    requires Consistent(s) && !s.cancelled
    ensures Run(s, calls).cancelled <==>
            exists i :: 0 <= i < |calls| && calls[i].Request? && !Run(s, calls[..i]).finished
    decreases |calls|
  {
    if calls != [] {
      var c, rest := calls[0], calls[1..];
      if c.Request? && !s.finished {
        Latched(After(s, c), rest);
        assert Run(s, calls[..0]) == s;
      } else {
        RequestsDecide(After(s, c), rest);
        forall i | 0 <= i < |rest| ensures Run(s, calls[..i + 1]) == Run(After(s, c), rest[..i]) {
          assert calls[..i + 1] == [c] + rest[..i];
        }
        if Run(s, calls).cancelled {
          var i :| 0 <= i < |rest| && rest[i].Request? && !Run(After(s, c), rest[..i]).finished;
          assert calls[i + 1].Request? && !Run(s, calls[..i + 1]).finished;
        }
        if i :| 0 <= i < |calls| && calls[i].Request? && !Run(s, calls[..i]).finished {
          assert calls[..0] == [];
          assert i > 0;
          assert rest[i - 1].Request? && !Run(After(s, c), rest[..i - 1]).finished;
        }
      }
    }
  }

  // ----- the control -----

  /** Why a control refuses: an error someone recorded, or a plain cancellation. */
  datatype Refusal = Recorded(error: string) | Cancelled

  class Control {
    const cancel: CancelToken
    var error: Option<string>
    var finished: bool
    var cancelledAt: Option<nat>

    ghost function View(): State
      reads this, cancel
    {
      State(error, finished, cancelledAt, cancel.cancelled)
    }

    constructor ()
      ensures View() == START && fresh(cancel)
    {
      cancel := new CancelToken();
      error, finished, cancelledAt := None, false, None;
    }

    method Request(error: Option<string>, time: nat)
      modifies this, cancel
      ensures View() == After(old(View()), Call.Request(error, time))
    {
      if finished { return; }
      if this.error.None? { this.error := error; }
      if cancelledAt.None? { cancelledAt := Some(time); }
      cancel.Cancel();
    }

    /** Refuses exactly when an operation would not be admitted, naming a recorded error first. */
    method Check() returns (refusal: Option<Refusal>)
      ensures refusal.None? <==> Admitted(View())
      ensures refusal.Some? ==> refusal.value == if error.Some? then Recorded(error.value) else Cancelled
    {
      if error.Some? { return Some(Recorded(error.value)); }
      if cancel.cancelled { return Some(Cancelled); }
      refusal := None;
    }

    /** Run an operation unless cancelling came first; its success is final. */
    method Publish(succeeds: bool) returns (committed: bool)
      modifies this
      ensures View() == After(old(View()), Call.Publish(succeeds))
      ensures committed == Commits(old(View()), Call.Publish(succeeds))
    {
      if error.Some? { return false; }
      var may := cancel.MayPublish();
      if !may || !succeeds { return false; }
      finished := true;
      committed := true;
    }

    /** Run an operation unless cancelling came first, and leave the control open. */
    method Active(succeeds: bool) returns (done: bool)
      ensures View() == After(old(View()), Call.Active(succeeds)) && done == (Admitted(View()) && succeeds)
    {
      if error.Some? { return false; }
      var may := cancel.MayPublish();
      done := may && succeeds;
    }
  }
}
