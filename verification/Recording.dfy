/**
 The recording loop together with the bag it writes: whatever the environment does, the bag holds the wanted
 samples that the loop handed over, in order, up to the first one it had to reject.
 */
module Recording {
  import opened Prelude
  import opened Keys
  import opened Bindings
  import opened Recorder
  import opened BagChannels
  import E = EndpointSchema

  /** One turn's surroundings: the arm that fires, whether a query can be sent, and what answers and writer say. */
  datatype Event = Event(choice: Choice, query: bool, replies: seq<E.DescriptorReply>, answer: WriterAnswer)

  // ----- what the loop hands over -----

  /** The sample a turn hands to the writer. */
  function Handed(s: State, choice: Choice): Option<Sample> {
    match choice
    case Receive(Some(LiveSample(x))) => Some(x)
    case Pop => if s.pending != [] && s.pending[0].LiveSample? then Some(s.pending[0].sample) else None
    case Answered(Answer(x)) => if x.key in s.seen then None else Some(x)
    case _ => None
  }

  function Samples(log: seq<Action>): seq<Sample> {
    if log == [] then []
    else
      var last := log[|log| - 1];
      Samples(log[..|log| - 1]) + (if last.Write? then [last.sample] else [])
  }

  /** The loop ended because its last sample could not be written. */
  predicate Rejecting(s: State) {
    s.status == Failed && s.log != [] && s.log[|s.log| - 1].Write?
  }

  /** The samples handed over without a rejection. */
  function Accepted(s: State): seq<Sample> {
    Samples(if Rejecting(s) then s.log[..|s.log| - 1] else s.log)
  }

  lemma SamplesSnoc(log: seq<Action>, a: Action)
    ensures Samples(log + [a]) == Samples(log) + (if a.Write? then [a.sample] else [])
  {
    assert (log + [a])[..|log|] == log;
  }

  /** A turn logs the sample it hands over, or at most a query. */
  lemma TurnLogs(s: State, t: Turn)
    requires Enabled(s, t)
    ensures var handed := Handed(s, t.choice);
            var next := Apply(s, t);
            && (handed.Some? ==>
                  && next.log == s.log + [Write(handed.value, t.choice.Answered?)]
                  && (next.status == Failed <==> !t.ok))
            && (handed.None? ==>
                  || (next.log == s.log && next.status != Failed)
                  || (exists key :: next.log == s.log + [Query(key)]))
  {
    var next, taken := Apply(s, t), Taken(s, t);
    if taken.Some? && taken.value.JoinedKey? && next.log != s.log {
      assert next.log == s.log + [Query(taken.value.key)];
    }
  }

  /** A turn accepts exactly the sample it hands over, if that is written or skipped. */
  lemma TurnAccepts(s: State, t: Turn)
    requires Enabled(s, t)
    ensures var handed := Handed(s, t.choice);
            var next := Apply(s, t);
            && Accepted(next) == Accepted(s) + (if handed.Some? && t.ok then [handed.value] else [])
            && (Rejecting(next) <==> handed.Some? && !t.ok)
  {
    TurnLogs(s, t);
    assert !Rejecting(s);
    hide Apply, Handed;
    var next := Apply(s, t);
    if next.log != s.log {
      var a := next.log[|next.log| - 1];
      assert next.log == s.log + [a];
      SamplesSnoc(s.log, a);
      assert next.log[..|s.log|] == s.log;
    }
  }

  // ----- what the bag holds -----

  /** The wanted samples, in order. */
  function Kept(filter: Filter, samples: seq<Sample>): seq<Sample> {
    if samples == [] then []
    else
      var last := samples[|samples| - 1];
      Kept(filter, samples[..|samples| - 1]) + (if Wanted(filter, Print(last.key)) then [last] else [])
  }

  lemma KeptSnoc(filter: Filter, samples: seq<Sample>, x: Sample)
    ensures Kept(filter, samples + [x]) == Kept(filter, samples) + (if Wanted(filter, Print(x.key)) then [x] else [])
  {
    assert (samples + [x])[..|samples|] == samples;
  }

  /** The messages are these samples, each with its own key, payload and fingerprint. */
  ghost predicate Recorded(messages: seq<Message>, samples: seq<Sample>) {
    && |messages| == |samples|
    && forall i :: 0 <= i < |samples| ==>
         && messages[i].key == Print(samples[i].key) && messages[i].payload == samples[i].payload
         && samples[i].fingerprint == Some(messages[i].fingerprint)
  }

  ghost predicate Known(samples: seq<Sample>, known: map<string, u64>, contracts: map<string, Contract>) {
    forall x :: x in samples ==> Print(x.key) in contracts && Print(x.key) in known
  }

  lemma KnownGrows(samples: seq<Sample>, x: Sample, known: map<string, u64>, contracts: map<string, Contract>,
                   known': map<string, u64>)
    requires Known(samples, known, contracts) && known.Keys <= known'.Keys
    ensures Known(samples, known', contracts)
    ensures Print(x.key) in contracts && Print(x.key) in known' ==> Known(samples + [x], known', contracts)
  {
    hide Print;
  }

  // ----- runs -----

  predicate ItemValid(item: Pending) {
    item.LiveSample? ==> Valid(item.sample.key)
  }

  /** The engine delivers samples under valid keys. */
  predicate ChoiceValid(choice: Choice) {
    match choice
    case Stop(drained) => forall item :: item in drained ==> ItemValid(item)
    case Receive(Some(item)) => ItemValid(item)
    case Answered(Answer(x)) => Valid(x.key)
    case _ => true
  }

  lemma PendingValid(s: State, t: Turn)
    requires Enabled(s, t) && ChoiceValid(t.choice) && forall item :: item in s.pending ==> ItemValid(item)
    ensures forall item :: item in Apply(s, t).pending ==> ItemValid(item)
    ensures Handed(s, t.choice).Some? ==> Valid(Handed(s, t.choice).value.key)
  {
    hide Valid;
    assert s.pending != [] ==> ItemValid(s.pending[0]);
  }

  /** The bag holds the wanted samples accepted so far, all from declared keys whose schema is known. */
  ghost predicate InStep(s: State, bag: RecordChannels, filter: Filter)
    reads bag
  {
    && bag.Coherent() && (bag.failed <==> Rejecting(s))
    && Known(Accepted(s), bag.fingerprints, bag.contracts)
    && Recorded(bag.messages, Kept(filter, Accepted(s)))
  }

  /** One turn of the loop over its bag: a sample handed over is written, skipped or rejected by the bag. */
  method Step(loop: Loop, bag: RecordChannels, filter: Filter, e: Event) returns (wrote: bool, ok: bool)
    requires Enabled(loop.View(), Turn(e.choice, true)) && InStep(loop.View(), bag, filter)
    requires ChoiceValid(e.choice) && forall item :: item in loop.pending ==> ItemValid(item)
    modifies loop, bag
    ensures loop.View() == Apply(old(loop.View()), Turn(e.choice, ok)) && InStep(loop.View(), bag, filter)
    ensures forall item :: item in loop.pending ==> ItemValid(item)
    ensures |bag.messages| == old(|bag.messages|) + (if wrote then 1 else 0)
  {
    hide RecordChannels.Coherent, Handed, Apply, Enabled, Known, Recorded, Kept, Accepted;
    hide Valid, ItemValid, ChoiceValid;
    var s := loop.View();
    var handed := Handed(s, e.choice);
    wrote, ok := false, e.query;
    EnabledEither(s, e.choice, ok);
    assert Accepted(s) + [] == Accepted(s);
    PendingValid(s, Turn(e.choice, true));
    if handed.Some? {
      wrote, ok := HandTo(s, bag, filter, handed.value, e.replies, e.answer);
      EnabledEither(s, e.choice, ok);
    }
    PendingValid(s, Turn(e.choice, ok));
    TurnAccepts(s, Turn(e.choice, ok));
    loop.Step(Turn(e.choice, ok));
  }

  /** Hand a sample to the bag. */
  method HandTo(ghost s: State, bag: RecordChannels, filter: Filter, x: Sample, replies: seq<E.DescriptorReply>,
                answer: WriterAnswer)
    returns (wrote: bool, ok: bool)
    requires s.status == Running && InStep(s, bag, filter) && Valid(x.key)
    modifies bag
    ensures bag.Coherent() && bag.failed == !ok
    ensures var accepted := Accepted(s) + (if ok then [x] else []);
            Known(accepted, bag.fingerprints, bag.contracts) && Recorded(bag.messages, Kept(filter, accepted))
    ensures ok <==>
            && Print(x.key) in bag.contracts && Print(x.key) in bag.fingerprints
            && (Wanted(filter, Print(x.key)) ==>
                  && x.fingerprint == Some(bag.fingerprints[Print(x.key)])
                  && Opens(Print(x.key) in old(bag.channels), answer) && answer.write)
    ensures |bag.messages| == old(|bag.messages|) + (if wrote then 1 else 0)
  {
    hide RecordChannels.Coherent, Print, Valid, Wanted, Accepted, Kept, Opens, Teaches;
    ghost var before := bag.fingerprints;
    var r := bag.WriteVerified(x, replies, filter, answer);
    KnownGrows(Accepted(s), x, before, bag.contracts, bag.fingerprints);
    KeptSnoc(filter, Accepted(s), x);
    hide Known;
    assert Accepted(s) + [] == Accepted(s);
    wrote, ok := r == Wrote, r != Rejected;
  }

  /**
   The whole run: events fire in order until one cannot, and the number returned is that of the messages written.
   Whatever the events, the bag ends in step with the loop.
   */
  method Record(loop: Loop, bag: RecordChannels, filter: Filter, events: seq<Event>)
    returns (count: nat, ghost turns: seq<Turn>)
    requires loop.View() == INITIAL && bag.Coherent() && !bag.failed && bag.messages == []
    requires forall i :: 0 <= i < |events| ==> ChoiceValid(events[i].choice)
    modifies loop, bag
    ensures Run(turns) && loop.View() == After(turns) && InStep(After(turns), bag, filter)
    ensures |turns| <= |events| && forall i :: 0 <= i < |turns| ==> turns[i].choice == events[i].choice
    ensures |turns| < |events| ==> !Enabled(After(turns), Turn(events[|turns|].choice, true))
    ensures count == |bag.messages|
  {
    hide RecordChannels.Coherent, Apply, Enabled, Accepted, Known, Recorded, ChoiceValid, ItemValid;
    count, turns := 0, [];
    NothingRecorded(bag, filter);
    for i := 0 to |events|
      invariant Run(turns) && loop.View() == After(turns) && InStep(After(turns), bag, filter)
      invariant |turns| == i && forall k :: 0 <= k < i ==> turns[k].choice == events[k].choice
      invariant forall item :: item in loop.pending ==> ItemValid(item)
      invariant count == |bag.messages|
    {
      if !Enabled(loop.View(), Turn(events[i].choice, true)) { return; }
      var wrote, ok := Step(loop, bag, filter, events[i]);
      if wrote { count := count + 1; }
      ghost var next := turns + [Turn(events[i].choice, ok)];
      assert next[..i] == turns;
      EnabledEither(After(turns), events[i].choice, ok);
      turns := next;
    }
  }

  lemma NothingRecorded(bag: RecordChannels, filter: Filter)
    requires bag.Coherent() && !bag.failed && bag.messages == []
    ensures InStep(INITIAL, bag, filter)
  {
    hide RecordChannels.Coherent;
  }

  lemma EnabledEither(s: State, choice: Choice, ok: bool)
    requires Enabled(s, Turn(choice, true))
    ensures Enabled(s, Turn(choice, ok))
  {}

  // ----- what a run guarantees -----

  /** Every message is a wanted sample of a declared key, and carries the fingerprint of the schema stored for it. */
  lemma MessagesVerified(s: State, bag: RecordChannels, filter: Filter, i: nat)
    requires InStep(s, bag, filter) && i < |bag.messages|
    ensures var m := bag.messages[i];
            && Wanted(filter, m.key) && m.key in bag.contracts && m.key in bag.schemas
            && E.WholeFingerprint(bag.schemas[m.key].1, E.Utf8(bag.contracts[m.key].typeName)) == Some(m.fingerprint)
  {
    hide Print, Wanted, Accepted, Count, E.WholeFingerprint, E.Utf8, Agreement, DeclaredContracts, SourcesValid;
    hide Described, NextNumbers;
    KeptWanted(filter, Accepted(s), i);
    assert Filed(bag.messages, i, bag.channels, bag.fingerprints);
  }

  lemma {:induction false} KeptWanted(filter: Filter, samples: seq<Sample>, i: nat)
    requires i < |Kept(filter, samples)|
    ensures Wanted(filter, Print(Kept(filter, samples)[i].key))
  {
    hide Print, Wanted;
    if i < |Kept(filter, samples[..|samples| - 1])| { KeptWanted(filter, samples[..|samples| - 1], i); }
  }

  /** The live samples among received items. */
  function LiveSamples(items: seq<Pending>): seq<Sample> {
    if items == [] then []
    else
      var last := items[|items| - 1];
      LiveSamples(items[..|items| - 1]) + (if last.LiveSample? then [last.sample] else [])
  }

  lemma {:induction false} LiveSamplesLogged(base: seq<Action>, items: seq<Pending>)
    ensures Samples(base + LiveWrites(items)) == Samples(base) + LiveSamples(items)
  {
    if items == [] {
      assert base + [] == base && Samples(base) + [] == Samples(base);
    } else {
      var front, last := items[..|items| - 1], items[|items| - 1];
      LiveSamplesLogged(base, front);
      if last.LiveSample? {
        var a := Write(last.sample, false);
        assert base + LiveWrites(items) == (base + LiveWrites(front)) + [a];
        SamplesSnoc(base + LiveWrites(front), a);
        assert Samples(base) + LiveSamples(items) == (Samples(base) + LiveSamples(front)) + [last.sample];
      } else {
        assert LiveWrites(items) == LiveWrites(front) && LiveSamples(items) == LiveSamples(front);
      }
    }
  }

  /**
   A run that closes and finishes loses nothing: the bag holds the wanted samples handed over before closing,
   and then every wanted live sample that was still queued.
   */
  lemma ClosedRecording(before: seq<Turn>, stop: Turn, turns: seq<Turn>, bag: RecordChannels, filter: Filter)
    requires stop.choice.Stop? && Run(before + [stop] + turns)
    requires After(before + [stop] + turns).status == Finished
    requires InStep(After(before + [stop] + turns), bag, filter)
    ensures Run(before)
    ensures Recorded(bag.messages, Kept(filter, Samples(After(before).log) + LiveSamples(stop.choice.drained)))
  {
    hide RecordChannels.Coherent, Run, After, Kept, Recorded, Known;
    ClosingDrains(before, stop, turns);
    LiveSamplesLogged(After(before).log, stop.choice.drained);
  }
}
