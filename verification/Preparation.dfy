/**
 The preparation command's event stream: numbered lines around an inner preparation that has a start and
 a finish of its own, under a control that may be cancelled at any moment.
 */
module Preparation {
  import opened Prelude
  import Latch = Control

  datatype Status = Success | Failed | Cancelled

  datatype Event =
    | Started
    | Phase(phase: string)
    | Diagnostic(group: Option<string>, level: string, text: seq<byte>)
    | Progress(detail: string)
    | Finished(status: Status)

  // ----- what the inner preparation shows -----

  const LIMIT: nat := 16 * 1024

  /** Not inside a multi-byte UTF-8 character. */
  predicate Boundary(text: seq<byte>, i: nat) {
    i == 0 || i == |text| || (i < |text| && !(0x80 <= text[i] < 0xc0))
  }

  /** The earliest character from which at most the limit remains. */
  function TailStart(text: seq<byte>, from: nat): (start: nat)
    requires from <= |text|
    ensures from <= start <= |text| && Boundary(text, start)
    ensures forall i :: from <= i < start ==> !Boundary(text, i)
    decreases |text| - from
  {
    if Boundary(text, from) then from else TailStart(text, from + 1)
  }

  function Tail(text: seq<byte>): (tail: seq<byte>)
    ensures |tail| <= |text| && |tail| <= LIMIT && tail == text[|text| - |tail|..]
    ensures |text| <= LIMIT ==> tail == text
  {
    text[TailStart(text, if |text| < LIMIT then 0 else |text| - LIMIT)..]
  }

  /** The inner preparation's own start and finish are not shown, and long diagnostics lose their beginning. */
  function Shown(event: Event): seq<Event> {
    match event
    case Started => []
    case Finished(_) => []
    case Diagnostic(group, level, text) => [Diagnostic(group, level, Tail(text))]
    case _ => [event]
  }

  function Forwarded(events: seq<Event>): (shown: seq<Event>)
    ensures |shown| <= |events|
    ensures forall i :: 0 <= i < |shown| ==> !shown[i].Started? && !shown[i].Finished?
  {
    if events == [] then [] else Forwarded(events[..|events| - 1]) + Shown(events[|events| - 1])
  }

  /** A diagnostic keeps as much of its end as fits the limit without cutting a character. */
  lemma TailLongest(text: seq<byte>, i: nat)
    requires i <= |text| && Boundary(text, i) && |text| - i <= LIMIT
    ensures Boundary(text, |text| - |Tail(text)|) && |text| - i <= |Tail(text)|
  {}

  /** The event is shown as it is, except that a diagnostic may lose the beginning of its text. */
  ghost predicate ShownAs(event: Event, shown: Event) {
    if event.Diagnostic? then
      && shown.Diagnostic? && shown.group == event.group && shown.level == event.level
      && shown.text == Tail(event.text)
    else shown == event
  }

  /** `shown` are the events at the positions `at`, in order, each as it is shown. */
  ghost predicate ShowsAt(events: seq<Event>, at: seq<int>, shown: seq<Event>) {
    && |at| == |shown|
    && (forall i :: 0 <= i < |at| ==> 0 <= at[i] < |events| && ShownAs(events[at[i]], shown[i]))
    && (forall i, j :: 0 <= i < j < |at| ==> at[i] < at[j])
  }

  /** The positions of all events but starts and finishes. */
  ghost function Inner(events: seq<Event>): seq<int> {
    if events == [] then []
    else
      var n := |events| - 1;
      Inner(events[..n]) + (if events[n].Started? || events[n].Finished? then [] else [n])
  }

  lemma {:induction false} InnerExact(events: seq<Event>, k: int)
    ensures k in Inner(events) <==> 0 <= k < |events| && !events[k].Started? && !events[k].Finished?
  {
    if events != [] { InnerExact(events[..|events| - 1], k); }
  }

  lemma ShowsMore(events: seq<Event>, at: seq<int>, shown: seq<Event>, event: Event, line: Event)
    requires ShowsAt(events, at, shown)
    ensures ShowsAt(events + [event], at, shown)
    ensures ShownAs(event, line) ==> ShowsAt(events + [event], at + [|events|], shown + [line])
  {
    hide ShownAs;
    assert forall k :: 0 <= k < |events| ==> (events + [event])[k] == events[k];
  }

  lemma {:induction false} ForwardedInner(events: seq<Event>)
    ensures ShowsAt(events, Inner(events), Forwarded(events))
  {
    if events != [] {
      var n := |events| - 1;
      ForwardedInner(events[..n]);
      assert events == events[..n] + [events[n]];
      hide ShowsAt, Tail;
      var shown := Shown(events[n]);
      ShowsMore(events[..n], Inner(events[..n]), Forwarded(events[..n]), events[n],
                if shown == [] then events[n] else shown[0]);
      if shown != [] { assert shown == [shown[0]]; }
    }
  }

  /** Every event but a start or a finish is forwarded once, in order. */
  lemma ForwardedExact(events: seq<Event>)
    ensures exists at ::
              && ShowsAt(events, at, Forwarded(events))
              && forall k :: k in at <==> 0 <= k < |events| && !events[k].Started? && !events[k].Finished?
  {
    ForwardedInner(events);
    forall k ensures k in Inner(events) <==> 0 <= k < |events| && !events[k].Started? && !events[k].Finished? {
      InnerExact(events, k);
    }
  }

  // ----- numbered lines -----

  datatype Line = Line(number: nat, event: Event)

  function Events(lines: seq<Line>): seq<Event> {
    seq(|lines|, i requires 0 <= i < |lines| => lines[i].event)
  }

  /** Numbers rise, and none is above the last one taken. */
  ghost predicate Rising(lines: seq<Line>, count: nat) {
    && (forall i :: 0 <= i < |lines| ==> 0 < lines[i].number <= count)
    && (forall i, j :: 0 <= i < j < |lines| ==> lines[i].number < lines[j].number)
  }

  /** The numbers are 1, 2, 3 and so on. */
  ghost predicate Gapless(lines: seq<Line>) {
    forall i :: 0 <= i < |lines| ==> lines[i].number == i + 1
  }

  /** A stream begun and not ended. */
  ghost predicate Begun(lines: seq<Line>) {
    && lines != [] && lines[0].event == Started
    && (forall i :: 0 < i < |lines| ==> !lines[i].event.Started? && !lines[i].event.Finished?)
  }

  class Protocol {
    const enabled: bool
    var count: nat
    var lines: seq<Line>

    /** Rising numbers, without gaps as long as every line taken a number for was written. */
    ghost predicate Numbered()
      reads this
    {
      && count < TWO_64 && Rising(lines, count) && |lines| <= count
      && (|lines| == count ==> Gapless(lines))
      && (!enabled ==> lines == [] && count == 0)
    }

    constructor (enabled: bool)
      ensures this.enabled == enabled && count == 0 && lines == [] && Numbered()
    {
      this.enabled, count, lines := enabled, 0, [];
    }

    /** Take the next number, then write the line: a failed write has used its number. */
    method Emit(event: Event, writes: nat -> bool) returns (ok: bool)
      requires Numbered()
      modifies this
      ensures Numbered()
      ensures ok <==> !enabled || (old(count) + 1 < TWO_64 && writes(old(count) + 1))
      ensures lines == old(lines) + (if ok && enabled then [Line(count, event)] else [])
      ensures count == old(count) + (if enabled && old(count) + 1 < TWO_64 then 1 else 0)
    {
      if !enabled { return true; }
      if count + 1 == TWO_64 { return false; }
      count := count + 1;
      if !writes(count) { return false; }
      lines := lines + [Line(count, event)];
      ok := true;
    }
  }

  // ----- one preparation -----

  /** A cancellation or an error from elsewhere, and when it came. */
  datatype Interrupt = Interrupt(error: Option<string>, time: nat)

  /**
   Everything around one preparation: the steps that may fail, the inner events, which lines can be
   written, and the interrupts that arrive while preparing, just before publication and after a failure.
   */
  datatype Surroundings = Surroundings(
    out: bool, taken: bool, loads: bool,
    opens: bool, inner: seq<Event>, logs: nat -> bool, prepares: bool,
    stages: bool, persists: bool, removes: bool,
    writes: nat -> bool,
    early: seq<Interrupt>, before: seq<Interrupt>, late: seq<Interrupt>,
    cancelledInside: bool)

  ghost predicate AllWritten(s: Surroundings) {
    |s.inner| + 8 < TWO_64 && forall n :: s.writes(n)
  }

  /** The next `k` lines after number `from` can be written, or need not be. */
  ghost predicate Writable(writes: nat -> bool, enabled: bool, from: nat, k: nat) {
    enabled ==> from + k < TWO_64 && forall n :: from < n <= from + k ==> writes(n)
  }

  /** Every inner event can be logged, and every one that is shown can be written. */
  ghost predicate LinesGo(s: Surroundings, enabled: bool, from: nat) {
    AllLogged(s) && Writable(s.writes, enabled, from, |Forwarded(s.inner)|)
  }

  ghost predicate AllLogged(s: Surroundings) {
    forall i :: 0 <= i < |s.inner| ==> s.logs(i)
  }

  /** Without a stream there are no lines to write. */
  lemma NoStream(s: Surroundings)
    ensures forall from, k :: Writable(s.writes, false, from, k)
    ensures forall from :: LinesGo(s, false, from) <==> AllLogged(s)
  {
    hide Forwarded;
  }

  /** Nothing but an interrupt keeps the preparation from being published. */
  ghost predicate Unhindered(s: Surroundings, enabled: bool, from: nat) {
    && Writable(s.writes, enabled, from, |Forwarded(s.inner)| + 3) && AllLogged(s)
    && s.loads && s.opens && s.prepares && (s.out ==> !s.taken && s.stages && s.persists)
  }

  lemma WritableMore(writes: nat -> bool, enabled: bool, from: nat, j: nat, k: nat)
    ensures Writable(writes, enabled, from, j + k) <==>
            Writable(writes, enabled, from, j) && Writable(writes, enabled, from + j, k)
  {}

  /** A delivered interrupt cancels, and without one nothing changes. */
  method Deliver(control: Latch.Control, interrupts: seq<Interrupt>)
    requires Latch.Consistent(control.View())
    modifies control, control.cancel
    ensures Latch.Consistent(control.View()) && control.finished == old(control.finished)
    ensures Latch.Keeps(old(control.View()), control.View())
    ensures interrupts == [] ==> control.View() == old(control.View())
    ensures interrupts != [] && !control.finished ==> control.cancel.cancelled
  {
    for i := 0 to |interrupts|
      invariant Latch.Consistent(control.View()) && control.finished == old(control.finished)
      invariant Latch.Keeps(old(control.View()), control.View())
      invariant i == 0 ==> control.View() == old(control.View())
      invariant i > 0 && !control.finished ==> control.cancel.cancelled
    {
      control.Request(interrupts[i].error, interrupts[i].time);
    }
  }

  lemma ForwardedSnoc(events: seq<Event>, i: nat)
    requires i < |events|
    ensures Forwarded(events[..i + 1]) == Forwarded(events[..i]) + Shown(events[i])
  {
    assert events[..i + 1][..i] == events[..i];
  }

  /** Write the line of an event, if it is shown. */
  method WriteLine(event: Event, writes: nat -> bool, protocol: Protocol) returns (ok: bool)
    requires protocol.Numbered() && (protocol.enabled ==> Begun(protocol.lines))
    modifies protocol
    ensures protocol.Numbered() && (protocol.enabled ==> Begun(protocol.lines))
    ensures protocol.count <= old(protocol.count) + 1
    ensures ok && protocol.enabled ==> Events(protocol.lines) == old(Events(protocol.lines)) + Shown(event)
    ensures ok <==> Writable(writes, protocol.enabled, old(protocol.count), |Shown(event)|)
    ensures ok && protocol.enabled ==> protocol.count == old(protocol.count) + |Shown(event)|
    ensures (forall n :: writes(n)) && old(protocol.count) + 1 < TWO_64 ==>
              |protocol.lines| - protocol.count == old(|protocol.lines| - protocol.count)
  {
    var shown := Shown(event);
    if shown == [] { return true; }
    ok := protocol.Emit(shown[0], writes);
  }

  /** Log each inner event, and write a line for each that is shown. */
  method WriteLines(s: Surroundings, protocol: Protocol) returns (ok: bool)
    requires protocol.Numbered() && (protocol.enabled ==> Begun(protocol.lines))
    modifies protocol
    ensures protocol.Numbered() && (protocol.enabled ==> Begun(protocol.lines))
    ensures protocol.count <= old(protocol.count) + |s.inner|
    ensures ok && protocol.enabled ==> Events(protocol.lines) == old(Events(protocol.lines)) + Forwarded(s.inner)
    ensures ok <==> LinesGo(s, protocol.enabled, old(protocol.count))
    ensures ok && protocol.enabled ==> protocol.count == old(protocol.count) + |Forwarded(s.inner)|
    ensures AllWritten(s) && old(protocol.count) < 4 && old(|protocol.lines| == protocol.count) ==>
              |protocol.lines| == protocol.count
  {
    hide Begun, Rising, Gapless, Shown, Forwarded, Writable;
    var i := 0;
    ok := true;
    NothingWritten(s.writes, protocol.enabled, protocol.count);
    NoStream(s);
    assert old(Events(protocol.lines)) + Forwarded([]) == old(Events(protocol.lines));
    while i < |s.inner| && ok
      invariant 0 <= i <= |s.inner|
      invariant protocol.Numbered() && (protocol.enabled ==> Begun(protocol.lines))
      invariant protocol.count <= old(protocol.count) + i
      invariant ok && protocol.enabled ==>
                Events(protocol.lines) == old(Events(protocol.lines)) + Forwarded(s.inner[..i])
      invariant ok && protocol.enabled ==> protocol.count == old(protocol.count) + |Forwarded(s.inner[..i])|
      invariant ok ==> Writable(s.writes, protocol.enabled, old(protocol.count), |Forwarded(s.inner[..i])|)
      invariant ok ==> forall k :: 0 <= k < i ==> s.logs(k)
      invariant !ok ==> !LinesGo(s, protocol.enabled, old(protocol.count))
      invariant AllWritten(s) && old(protocol.count) < 4 && old(|protocol.lines| == protocol.count) ==>
                |protocol.lines| == protocol.count
    {
      ForwardedSnoc(s.inner, i);
      WritableUpTo(s, protocol.enabled, old(protocol.count), i);
      ok := s.logs(i);
      if ok { ok := WriteLine(s.inner[i], s.writes, protocol); }
      i := i + 1;
    }
    assert i == |s.inner| ==> s.inner[..i] == s.inner;
  }

  lemma NothingWritten(writes: nat -> bool, enabled: bool, from: nat)
    requires from < TWO_64
    ensures Forwarded([]) == [] && Writable(writes, enabled, from, 0)
  {}

  lemma {:induction false} ForwardedGrows(events: seq<Event>, i: nat)
    requires i <= |events|
    ensures |Forwarded(events[..i])| <= |Forwarded(events)|
    decreases |events| - i
  {
    if i < |events| {
      ForwardedSnoc(events, i);
      ForwardedGrows(events, i + 1);
    } else {
      assert events[..i] == events;
    }
  }

  /** Writing the next shown line is part of writing them all. */
  lemma WritableUpTo(s: Surroundings, enabled: bool, from: nat, i: nat)
    requires i < |s.inner|
    ensures var before, next := |Forwarded(s.inner[..i])|, |Shown(s.inner[i])|;
            && (Writable(s.writes, enabled, from, |Forwarded(s.inner[..i + 1])|) <==>
                Writable(s.writes, enabled, from, before) && Writable(s.writes, enabled, from + before, next))
            && (LinesGo(s, enabled, from) ==> Writable(s.writes, enabled, from, |Forwarded(s.inner[..i + 1])|))
            && |Forwarded(s.inner[..i + 1])| == before + next
  {
    hide Shown, Forwarded;
    ForwardedSnoc(s.inner, i);
    ForwardedGrows(s.inner, i + 1);
    WritableMore(s.writes, enabled, from, |Forwarded(s.inner[..i])|, |Shown(s.inner[i])|);
  }

  /** Open the log and run the inner preparation; a failure to write or to log its events is requested as an error. */
  method Materialize(s: Surroundings, control: Latch.Control, protocol: Protocol) returns (ok: bool)
    requires Latch.Consistent(control.View()) && !control.finished
    requires protocol.Numbered() && (protocol.enabled ==> Begun(protocol.lines))
    modifies control, control.cancel, protocol
    ensures Latch.Consistent(control.View()) && !control.finished && Latch.Keeps(old(control.View()), control.View())
    ensures protocol.Numbered() && (protocol.enabled ==> Begun(protocol.lines))
    ensures protocol.count <= old(protocol.count) + |s.inner|
    ensures ok && protocol.enabled ==> Events(protocol.lines) == old(Events(protocol.lines)) + Forwarded(s.inner)
    ensures ok <==> s.opens && LinesGo(s, protocol.enabled, old(protocol.count)) && s.prepares
    ensures ok && protocol.enabled ==> protocol.count == old(protocol.count) + |Forwarded(s.inner)|
    ensures s.opens && !LinesGo(s, protocol.enabled, old(protocol.count)) ==> control.error.Some?
    ensures s.early != [] ==> control.cancel.cancelled
    ensures ok && s.early == [] ==> control.View() == old(control.View())
    ensures AllWritten(s) && old(protocol.count) < 4 && old(|protocol.lines| == protocol.count) ==>
              |protocol.lines| == protocol.count
  {
    hide Begun, Forwarded, LinesGo;
    Deliver(control, s.early);
    if !s.opens { return false; }
    ok := WriteLines(s, protocol);
    if !ok { control.Request(Some("writing preparation events"), 0); }
    ok := ok && s.prepares;
  }

  /** A stream is complete when its finish is its last line and says whether the preparation was published. */
  ghost predicate Ended(lines: seq<Line>, published: bool) {
    && |lines| > 1 && Begun(lines[..|lines| - 1])
    && lines[|lines| - 1].event.Finished? && (lines[|lines| - 1].event.status == Success <==> published)
  }

  /** Put the result in place and announce it, all while cancelling has to wait. */
  method PublishResult(s: Surroundings, control: Latch.Control, protocol: Protocol)
    returns (committed: bool, present: bool)
    requires Latch.Consistent(control.View()) && !control.finished
    requires protocol.Numbered() && (protocol.enabled ==> Begun(protocol.lines))
    modifies control, protocol
    ensures Latch.Consistent(control.View()) && Latch.Keeps(old(control.View()), control.View())
    ensures committed <==> control.finished
    ensures committed <==> old(Latch.Admitted(control.View())) && (s.out ==> s.persists)
                           && Writable(s.writes, protocol.enabled, old(protocol.count), 1)
    ensures committed ==> (present <==> s.out)
    ensures !committed && present ==> !s.removes
    ensures protocol.Numbered() && protocol.count <= old(protocol.count) + 1
    ensures committed && protocol.enabled ==>
              protocol.lines == old(protocol.lines) + [Line(protocol.count, Finished(Success))]
    ensures !committed ==> protocol.lines == old(protocol.lines)
    ensures AllWritten(s) && old(protocol.count) + 1 < TWO_64 && old(|protocol.lines| == protocol.count) ==>
              |protocol.lines| == protocol.count
  {
    hide Begun;
    var refusal := control.Check();
    var succeeds := false;
    present := false;
    if refusal.None? && (!s.out || s.persists) {
      present := s.out;
      succeeds := protocol.Emit(Finished(Success), s.writes);
      if !succeeds && present && s.removes { present := false; }
    }
    committed := control.Publish(succeeds);
  }

  /** Everything between the start and the finish; a published result has already been announced. */
  method Attempt(s: Surroundings, control: Latch.Control, protocol: Protocol) returns (committed: bool, present: bool)
    requires Latch.Consistent(control.View()) && !control.finished
    requires protocol.Numbered() && protocol.count <= 1 && (protocol.enabled ==> Begun(protocol.lines))
    modifies control, control.cancel, protocol
    ensures Latch.Consistent(control.View()) && Latch.Keeps(old(control.View()), control.View())
    ensures committed <==> control.finished
    ensures committed <==> Unhindered(s, protocol.enabled, old(protocol.count)) && old(Latch.Admitted(control.View()))
                           && s.early == [] && s.before == []
    ensures Writable(s.writes, protocol.enabled, old(protocol.count), 1) && s.loads && !(s.out && s.taken)
            && s.opens && !LinesGo(s, protocol.enabled, old(protocol.count) + 1) ==>
              control.error.Some?
    ensures committed ==> (present <==> s.out)
    ensures !committed && present ==> !s.removes
    ensures protocol.Numbered() && protocol.count <= |s.inner| + 4
    ensures !committed && protocol.enabled ==> Begun(protocol.lines)
    ensures committed && protocol.enabled ==>
              protocol.lines != [] && Begun(protocol.lines[..|protocol.lines| - 1])
              && protocol.lines[|protocol.lines| - 1].event == Finished(Success)
    ensures committed && protocol.enabled ==>
              Events(protocol.lines) ==
                old(Events(protocol.lines)) + [Phase("resolving")] + Forwarded(s.inner) +
                  [Phase("writing"), Finished(Success)]
    ensures AllWritten(s) && old(|protocol.lines| == protocol.count) ==> |protocol.lines| == protocol.count
  {
    hide Begun, Rising, Gapless, Forwarded, Writable;
    HinderedBy(s, protocol.enabled, protocol.count);
    NoStream(s);
    committed, present := false, false;
    var ok := WriteLine(Phase("resolving"), s.writes, protocol);
    if !ok || (s.out && s.taken) || !s.loads { return; }
    ok := Materialize(s, control, protocol);
    if !ok { return; }
    ok := WriteLine(Phase("writing"), s.writes, protocol);
    if !ok || (s.out && !s.stages) { return; }
    Deliver(control, s.before);
    ghost var body := protocol.lines;
    committed, present := PublishResult(s, control, protocol);
    if committed && protocol.enabled {
      EventsSnoc(body, protocol.lines[|body|]);
      assert protocol.lines == body + [protocol.lines[|body|]];
      assert Events(protocol.lines) ==
        old(Events(protocol.lines)) + [Phase("resolving")] + Forwarded(s.inner) + [Phase("writing")] +
          [Finished(Success)];
    }
  }

  /** The lines of a preparation, one stage after another. */
  lemma HinderedBy(s: Surroundings, enabled: bool, from: nat)
    ensures Unhindered(s, enabled, from) <==>
            && Writable(s.writes, enabled, from, 1) && s.loads && !(s.out && s.taken)
            && s.opens && LinesGo(s, enabled, from + 1) && s.prepares
            && Writable(s.writes, enabled, from + 1 + |Forwarded(s.inner)|, 1) && (s.out ==> s.stages && s.persists)
            && Writable(s.writes, enabled, from + 2 + |Forwarded(s.inner)|, 1)
  {
    hide Forwarded;
    var k := |Forwarded(s.inner)|;
    WritableMore(s.writes, enabled, from, 1, k);
    WritableMore(s.writes, enabled, from, 1 + k, 1);
    WritableMore(s.writes, enabled, from, 2 + k, 1);
  }

  lemma EventsSnoc(lines: seq<Line>, line: Line)
    ensures Events(lines + [line]) == Events(lines) + [line.event]
  {}

  /** How a preparation that was not published is reported. */
  method FailureStatus(s: Surroundings, control: Latch.Control) returns (status: Status)
    ensures status != Success
    ensures status == Cancelled <==> control.error.None? && (control.cancel.cancelled || s.cancelledInside)
  {
    var refusal := control.Check();
    match refusal
    case None => status := if s.cancelledInside then Cancelled else Failed;
    case Some(r) => status := if r.Cancelled? then Cancelled else Failed;
  }

  /** Report a preparation that was not published. */
  method Conclude(s: Surroundings, control: Latch.Control, protocol: Protocol)
    requires Latch.Consistent(control.View()) && !control.finished
    requires protocol.Numbered() && protocol.count <= |s.inner| + 4 && (protocol.enabled ==> Begun(protocol.lines))
    modifies control, control.cancel, protocol
    ensures Latch.Consistent(control.View()) && !control.finished && Latch.Keeps(old(control.View()), control.View())
    ensures protocol.Numbered()
    ensures protocol.enabled ==> Begun(protocol.lines) || Ended(protocol.lines, false)
    ensures protocol.enabled && AllWritten(s) && old(|protocol.lines| == protocol.count) ==>
              |protocol.lines| == protocol.count && Ended(protocol.lines, false)
    ensures protocol.enabled && AllWritten(s) && old(|protocol.lines| == protocol.count) ==>
              (protocol.lines[|protocol.lines| - 1].event.status == Cancelled <==>
               control.error.None? && (control.cancel.cancelled || s.cancelledInside))
  {
    hide Begun, Rising, Gapless;
    Deliver(control, s.late);
    var status := FailureStatus(s, control);
    var ok := protocol.Emit(Finished(status), s.writes);
    if ok && protocol.enabled {
      assert protocol.lines[..|protocol.lines| - 1] == old(protocol.lines);
      BegunSome(old(protocol.lines));
    } else {
      assert protocol.lines == old(protocol.lines);
    }
  }

  lemma BegunSome(lines: seq<Line>)
    requires Begun(lines)
    ensures lines != []
  {}

  lemma BegunWith(line: Line)
    requires line.event == Started
    ensures Begun([line]) && Events([line]) == [Started]
  {}

  /**
   One preparation from start to finish. Its result is published exactly when the control has finished,
   and then its destination is present; otherwise nothing is left there unless removing it failed. It is
   published exactly when no step and no write fails and no interrupt came first, and a failure to log or
   show the inner events is a recorded error.
   */
  method Prepare(s: Surroundings, control: Latch.Control, protocol: Protocol) returns (committed: bool, present: bool)
    requires Latch.Consistent(control.View()) && !control.finished
    requires protocol.Numbered() && protocol.lines == [] && protocol.count == 0
    modifies control, control.cancel, protocol
    ensures Latch.Consistent(control.View()) && Latch.Keeps(old(control.View()), control.View())
    ensures committed <==> control.finished
    ensures committed <==> Writable(s.writes, protocol.enabled, 0, 1) && Unhindered(s, protocol.enabled, 1)
                           && old(Latch.Admitted(control.View())) && s.early == [] && s.before == []
    ensures Writable(s.writes, protocol.enabled, 0, 2) && s.loads && !(s.out && s.taken)
            && s.opens && !LinesGo(s, protocol.enabled, 2) ==>
              control.error.Some?
    ensures committed ==> (present <==> s.out)
    ensures !committed && present ==> !s.removes
    ensures protocol.Numbered()
    ensures protocol.enabled ==> protocol.lines == [] || Begun(protocol.lines) || Ended(protocol.lines, committed)
    ensures protocol.enabled && committed ==>
              Events(protocol.lines) ==
                [Started, Phase("resolving")] + Forwarded(s.inner) + [Phase("writing"), Finished(Success)]
    ensures protocol.enabled && AllWritten(s) ==> Gapless(protocol.lines) && Ended(protocol.lines, committed)
    ensures protocol.enabled && AllWritten(s) && !committed ==>
              (protocol.lines[|protocol.lines| - 1].event.status == Cancelled <==>
               control.error.None? && (control.cancel.cancelled || s.cancelledInside))
  {
    hide Begun, Rising, Forwarded, LinesGo;
    NoStream(s);
    WritableMore(s.writes, protocol.enabled, 0, 1, 1);
    committed, present := false, false;
    var ok := protocol.Emit(Started, s.writes);
    if !ok { return; }
    if protocol.enabled { BegunWith(protocol.lines[0]); assert protocol.lines == [protocol.lines[0]]; }
    committed, present := Attempt(s, control, protocol);
    if committed {
      if protocol.enabled { BegunSome(protocol.lines[..|protocol.lines| - 1]); }
      return;
    }
    Conclude(s, control, protocol);
  }
}
