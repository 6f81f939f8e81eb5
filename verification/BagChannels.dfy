/**
 Writing recorded samples: each key's schema is discovered once and must agree with its input's other
 sources, each sample must carry its key's fingerprint, and each key is one numbered channel.
 */
module BagChannels {
  import opened Prelude
  import opened Keys
  import opened KeyText
  import opened Bindings
  import opened Recorder
  import opened FingerprintText
  import D = Descriptor
  import E = EndpointSchema

  // ----- declared sources -----

  /** The text of one declared source of an input. */
  function DeclaredText(domain: string, input: InputBinding, a: Address): string {
    Print(OutputKey(domain, a.namespace, a.port, input.contract.typeName))
  }

  predicate SourceValid(domain: string, input: InputBinding, a: Address) {
    Valid(OutputKey(domain, a.namespace, a.port, input.contract.typeName))
  }

  ghost predicate Declares(domain: string, inputs: map<string, InputBinding>, n: string, a: Address, text: string) {
    n in inputs && a in inputs[n].sources && SourceValid(domain, inputs[n], a)
    && DeclaredText(domain, inputs[n], a) == text
  }

  /** Every contract is that of an input which declares the key. */
  ghost predicate DeclaredContracts(domain: string, inputs: map<string, InputBinding>,
                                    contracts: map<string, Contract>)
  {
    forall k :: k in contracts ==>
      exists n, a :: Declares(domain, inputs, n, a, k) && contracts[k] == inputs[n].contract
  }

  ghost predicate Recordable(domain: string, input: InputBinding, noSnapshot: bool) {
    && input.contract.kind == Stream && input.contract.buffer == Fifo
    && (noSnapshot ==> input.contract.replay == Live)
    && (forall a :: a in input.sources ==> SourceValid(domain, input, a))
  }

  /** The declared keys to record, each with its input's contract. */
  method RecordContracts(b: ModuleBindings, domain: string, noSnapshot: bool) returns (r: Result<map<string, Contract>>)
    ensures r.Ok? <==>
            && b.outputs == map[] && (forall n :: n in b.inputs ==> Recordable(domain, b.inputs[n], noSnapshot))
            && (exists n :: n in b.inputs && b.inputs[n].sources != [])
    ensures r.Ok? ==> DeclaredContracts(domain, b.inputs, r.value)
    ensures r.Ok? ==> forall n, a :: n in b.inputs && a in b.inputs[n].sources ==>
              DeclaredText(domain, b.inputs[n], a) in r.value
    ensures r.Ok? ==> forall k :: k in r.value ==>
              r.value[k].kind == Stream && r.value[k].buffer == Fifo && (noSnapshot ==> r.value[k].replay == Live)
  {
    hide DeclaredText, SourceValid;
    if b.outputs != map[] { return Err; }
    var contracts: map<string, Contract> := map[];
    var rest := b.inputs.Keys;
    while rest != {}
      invariant rest <= b.inputs.Keys && DeclaredContracts(domain, b.inputs, contracts)
      invariant forall n :: n in b.inputs && n !in rest ==> Recordable(domain, b.inputs[n], noSnapshot)
      invariant forall n, a :: n in b.inputs && n !in rest && a in b.inputs[n].sources ==>
                DeclaredText(domain, b.inputs[n], a) in contracts
    {
      var n :| n in rest;
      var p := b.inputs[n];
      if p.contract.kind != Stream || p.contract.buffer != Fifo || (noSnapshot && p.contract.replay != Live) {
        return Err;
      }
      for i := 0 to |p.sources|
        invariant DeclaredContracts(domain, b.inputs, contracts)
        invariant forall m, a :: m in b.inputs && m !in rest && a in b.inputs[m].sources ==>
                  DeclaredText(domain, b.inputs[m], a) in contracts
        invariant forall k :: 0 <= k < i ==>
                  SourceValid(domain, p, p.sources[k]) && DeclaredText(domain, p, p.sources[k]) in contracts
      {
        if !SourceValid(domain, p, p.sources[i]) { return Err; }
        assert Declares(domain, b.inputs, n, p.sources[i], DeclaredText(domain, p, p.sources[i]));
        contracts := contracts[DeclaredText(domain, p, p.sources[i]) := p.contract];
      }
      rest := rest - {n};
    }
    if contracts == map[] {
      assert forall n :: n in b.inputs && b.inputs[n].sources != [] ==>
        DeclaredText(domain, b.inputs[n], b.inputs[n].sources[0]) in contracts;
      return Err;
    }
    assert exists n :: n in b.inputs && b.inputs[n].sources != [] by {
      var k :| k in contracts;
      var n, a :| Declares(domain, b.inputs, n, a, k);
    }
    r := Ok(contracts);
  }

  /** A key text is declared only by the addresses that spell it. */
  lemma SameTextSameSource(domain: string, p: InputBinding, a: Address, q: InputBinding, c: Address)
    requires SourceValid(domain, p, a) && SourceValid(domain, q, c)
    requires DeclaredText(domain, p, a) == DeclaredText(domain, q, c)
    ensures a == c && p.contract.typeName == q.contract.typeName
  {
    PrintInjective(OutputKey(domain, a.namespace, a.port, p.contract.typeName),
                   OutputKey(domain, c.namespace, c.port, q.contract.typeName));
  }

  // ----- schema discovery -----

  /** The known fingerprints of every input that has source `a` are `f`. */
  ghost predicate PeersAgree(domain: string, inputs: map<string, InputBinding>, known: map<string, u64>, a: Address,
                             f: u64)
  {
    forall n, c ::
      (n in inputs && a in inputs[n].sources && c in inputs[n].sources
       && DeclaredText(domain, inputs[n], c) in known) ==>
      known[DeclaredText(domain, inputs[n], c)] == f
  }

  /** All known fingerprints of one input's sources are equal. */
  ghost predicate Agreement(domain: string, inputs: map<string, InputBinding>, known: map<string, u64>) {
    forall n, a, c :: n in inputs && a in inputs[n].sources && c in inputs[n].sources
                      && DeclaredText(domain, inputs[n], a) in known && DeclaredText(domain, inputs[n], c) in known ==>
      known[DeclaredText(domain, inputs[n], a)] == known[DeclaredText(domain, inputs[n], c)]
  }

  ghost predicate SourcesValid(domain: string, inputs: map<string, InputBinding>) {
    forall n, a :: n in inputs && a in inputs[n].sources ==> SourceValid(domain, inputs[n], a)
  }

  lemma AgreementGrows(domain: string, inputs: map<string, InputBinding>, known: map<string, u64>, m: string,
                       a: Address, f: u64)
    requires SourcesValid(domain, inputs) && Agreement(domain, inputs, known)
    requires m in inputs && a in inputs[m].sources
    requires PeersAgree(domain, inputs, known, a, f)
    ensures Agreement(domain, inputs, known[DeclaredText(domain, inputs[m], a) := f])
  {
    var key := DeclaredText(domain, inputs[m], a);
    var known' := known[key := f];
    forall n, c, e | n in inputs && c in inputs[n].sources && e in inputs[n].sources
                     && DeclaredText(domain, inputs[n], c) in known' && DeclaredText(domain, inputs[n], e) in known'
      ensures known'[DeclaredText(domain, inputs[n], c)] == known'[DeclaredText(domain, inputs[n], e)]
    {
      if DeclaredText(domain, inputs[n], c) == key { SameTextSameSource(domain, inputs[n], c, inputs[m], a); }
      if DeclaredText(domain, inputs[n], e) == key { SameTextSameSource(domain, inputs[n], e, inputs[m], a); }
    }
  }

  method ComparePeers(domain: string, inputs: map<string, InputBinding>, known: map<string, u64>, a: Address, f: u64)
    returns (ok: bool)
    ensures ok <==> PeersAgree(domain, inputs, known, a, f)
  {
    hide DeclaredText;
    var rest := inputs.Keys;
    while rest != {}
      invariant rest <= inputs.Keys
      invariant forall n, c ::
                  (n in inputs && n !in rest && a in inputs[n].sources && c in inputs[n].sources
                   && DeclaredText(domain, inputs[n], c) in known) ==>
                  known[DeclaredText(domain, inputs[n], c)] == f
    {
      var n :| n in rest;
      var p := inputs[n];
      if a in p.sources {
        for i := 0 to |p.sources|
          invariant forall k :: 0 <= k < i && DeclaredText(domain, p, p.sources[k]) in known ==>
                    known[DeclaredText(domain, p, p.sources[k])] == f
        {
          var other := DeclaredText(domain, p, p.sources[i]);
          if other in known && known[other] != f { return false; }
        }
      }
      rest := rest - {n};
    }
    ok := true;
  }

  // ----- filters -----

  datatype Filter = Filter(types: seq<string>, sources: seq<string>, exclude: seq<string>)

  predicate Accepts(f: Filter, p: KeyParts) {
    p.ty !in f.exclude && (f.types == [] || p.ty in f.types) && (f.sources == [] || p.source in f.sources)
  }

  /**
   A filter accepts everything until told otherwise; each excluded type shuts out that type, the first type or source
   asked for shuts out all others, and each further one lets in its own.
   */
  lemma FilterLaws(f: Filter, p: KeyParts, x: string)
    ensures Accepts(Filter([], [], []), p)
    ensures Accepts(f.(exclude := f.exclude + [x]), p) <==> Accepts(f, p) && p.ty != x
    ensures Accepts(f.(types := [x]), p) <==> Accepts(f.(types := []), p) && p.ty == x
    ensures f.types != [] ==>
              (Accepts(f.(types := f.types + [x]), p) <==> Accepts(f, p) || Accepts(f.(types := [x]), p))
    ensures Accepts(f.(sources := [x]), p) <==> Accepts(f.(sources := []), p) && p.source == x
    ensures f.sources != [] ==>
              (Accepts(f.(sources := f.sources + [x]), p) <==> Accepts(f, p) || Accepts(f.(sources := [x]), p))
  {
    assert f.types + [x] != [] && f.sources + [x] != [] && x in [x];
  }

  // ----- what is learned -----

  /** The schema query of a source. */
  function SchemaKey(source: Key, typeName: string): Key {
    source.(chunk := Some("@schema/" + typeName))
  }

  /** It is asked under the source's own text, with the type behind it. */
  lemma SchemaKeyText(domain: string, namespace: string, port: string, ty: string, typeName: string)
    requires Valid(OutputKey(domain, namespace, port, ty)) && Ordinary(typeName)
    ensures Valid(SchemaKey(OutputKey(domain, namespace, port, ty), typeName))
    ensures Print(SchemaKey(OutputKey(domain, namespace, port, ty), typeName)) ==
            Print(OutputKey(domain, namespace, port, ty)) + "/" + "@schema" + "/" + typeName
  {
    assert "@schema/" == "@schema" + "/" && ("@schema/" + typeName)[8..] == typeName;
    hide Ordinary, Namespace;
    var base := Print(OutputKey(domain, namespace, port, ty));
    assert base + "/" + ("@schema" + "/" + typeName) == base + "/" + "@schema" + "/" + typeName;
  }

  /** The answers teach fingerprint `f` for `source`, and it agrees with what is known of its inputs. */
  ghost predicate Teaches(domain: string, inputs: map<string, InputBinding>, known: map<string, u64>, source: Key,
                          typeName: string, replies: seq<E.DescriptorReply>, f: u64)
  {
    && E.Unanimous(replies, SchemaKey(source, typeName), E.Utf8(typeName), f)
    && forall n, a :: Declares(domain, inputs, n, a, Print(source)) ==> PeersAgree(domain, inputs, known, a, f)
  }

  // ----- channels -----

  const FINGERPRINT_VERSION := "2"

  /** The metadata a new channel gets. */
  function RecordedMetadata(key: string, p: KeyParts, fingerprint: u64, latched: bool): map<string, string> {
    var named := map[
      "reiny.domain" := p.domain, "reiny.source" := p.source, "reiny.port" := p.port, "reiny.key" := key,
      "reiny.fingerprint_version" := FINGERPRINT_VERSION, "reiny.type" := p.ty, "reiny.schema" := Hex(fingerprint, 16)];
    if latched then named["reiny.latched" := "true"] else named
  }

  /** A schema stored in a bag; `data` is the descriptor set its bytes decode to, if they do. */
  datatype Schema = Schema(name: string, encoding: string, data: Option<seq<D.File>>)

  /** A channel as the bag holds it. */
  datatype Channel = Channel(topic: string, encoding: string, schema: Option<Schema>, metadata: map<string, string>)

  function StoredSchema(schema: (string, seq<D.File>)): Schema {
    Schema(schema.0, "protobuf", Some(schema.1))
  }

  /** Every known fingerprint is that of the pruned set kept for the key, under the declared type. */
  ghost predicate Learned(schemas: map<string, (string, seq<D.File>)>, known: map<string, u64>,
                          contracts: map<string, Contract>)
  {
    forall k :: k in known ==>
      && k in contracts && k in schemas && schemas[k].0 == contracts[k].typeName
      && E.WholeFingerprint(schemas[k].1, E.Utf8(schemas[k].0)) == Some(known[k])
  }

  /** Every channel holds its key's schema, and is described by the key's parts, fingerprint and contract. */
  ghost predicate Described(channels: map<string, (nat, nat)>, written: map<string, Channel>,
                            schemas: map<string, (string, seq<D.File>)>, known: map<string, u64>,
                            contracts: map<string, Contract>)
  {
    forall k :: k in channels ==>
      && k in written && k in schemas && k in known && k in contracts && ParseParts(k).Some?
      && written[k] ==
         Channel(k, "protobuf", Some(StoredSchema(schemas[k])),
                 RecordedMetadata(k, ParseParts(k).value, known[k], contracts[k].replay == ReplayLast))
  }

  const TWO_32: int := 0x1_0000_0000

  datatype Message = Message(key: string, channel: nat, sequence: nat, payload: seq<byte>, fingerprint: u64)

  datatype Outcome = Wrote | Skipped | Rejected

  /** What the bag writer answers when asked for a schema, a channel and a write. */
  datatype WriterAnswer = WriterAnswer(schema: bool, channel: Option<nat>, write: bool)

  function Count(messages: seq<Message>, key: string): nat {
    if messages == [] then 0
    else Count(messages[..|messages| - 1], key) + (if messages[|messages| - 1].key == key then 1 else 0)
  }

  /** The message that comes next on a channel. */
  function Next(messages: seq<Message>, key: string, channel: nat, payload: seq<byte>, fingerprint: u64): Message {
    Message(key, channel, Count(messages, key) % TWO_32, payload, fingerprint)
  }

  /** Message `i` carries its key's fingerprint and channel, numbered after the earlier messages of its key. */
  ghost predicate Filed(messages: seq<Message>, i: nat, channels: map<string, (nat, nat)>, known: map<string, u64>)
    requires i < |messages|
  {
    var m := messages[i];
    && m.key in channels && m.key in known
    && m.channel == channels[m.key].0 && m.fingerprint == known[m.key]
    && m.sequence == Count(messages[..i], m.key) % TWO_32
  }

  /** The whole log is filed, and every channel stands at its next number. */
  ghost predicate LogFiled(messages: seq<Message>, channels: map<string, (nat, nat)>, known: map<string, u64>) {
    && (forall i :: 0 <= i < |messages| ==> Filed(messages, i, channels, known))
    && (forall k :: k in channels ==> k in known && channels[k].1 < TWO_32)
    && (forall k :: k !in channels ==> Count(messages, k) == 0)
  }

  ghost predicate NextNumbers(messages: seq<Message>, channels: map<string, (nat, nat)>) {
    forall k :: k in channels ==> channels[k].1 == Count(messages, k) % TWO_32
  }

  /** New channels, new fingerprints and spent numbers leave the log filed. */
  lemma LogKept(messages: seq<Message>, channels: map<string, (nat, nat)>, known: map<string, u64>,
                channels': map<string, (nat, nat)>, known': map<string, u64>)
    requires LogFiled(messages, channels, known)
    requires forall k :: k in known ==> k in known' && known'[k] == known[k]
    requires forall k :: k in channels ==> k in channels' && channels'[k].0 == channels[k].0
    requires forall k :: k in channels' ==> k in known' && channels'[k].1 < TWO_32
    ensures LogFiled(messages, channels', known')
  {
    hide Count;
    forall i | 0 <= i < |messages| ensures Filed(messages, i, channels', known') {
      assert Filed(messages, i, channels, known);
    }
  }

  lemma CountSnoc(messages: seq<Message>, m: Message, key: string)
    ensures Count(messages + [m], key) == Count(messages, key) + (if key == m.key then 1 else 0)
  {
    assert (messages + [m])[..|messages|] == messages;
  }

  /** Writing the next message of an open channel leaves the log filed and the channels at their next numbers. */
  lemma LogNext(messages: seq<Message>, m: Message, channels: map<string, (nat, nat)>, known: map<string, u64>)
    requires LogFiled(messages, channels, known) && NextNumbers(messages, channels)
    requires m.key in channels && m.channel == channels[m.key].0 && m.fingerprint == known[m.key]
    requires m.sequence == channels[m.key].1
    ensures LogFiled(messages + [m], channels[m.key := (m.channel, (m.sequence + 1) % TWO_32)], known)
    ensures NextNumbers(messages + [m], channels[m.key := (m.channel, (m.sequence + 1) % TWO_32)])
  {
    hide Count;
    var all, next := messages + [m], channels[m.key := (m.channel, (m.sequence + 1) % TWO_32)];
    assert all[..|messages|] == messages;
    forall i | 0 <= i < |all| ensures Filed(all, i, next, known) {
      if i < |messages| {
        assert Filed(messages, i, channels, known);
        assert all[..i] == messages[..i];
      }
    }
    forall k ensures Count(all, k) == Count(messages, k) + (if k == m.key then 1 else 0) { CountSnoc(messages, m, k); }
  }

  class RecordChannels {
    const domain: string
    const inputs: map<string, InputBinding>
    const contracts: map<string, Contract>
    var channels: map<string, (nat, nat)>
    var written: map<string, Channel>
    var schemas: map<string, (string, seq<D.File>)>
    var fingerprints: map<string, u64>
    var messages: seq<Message>
    var failed: bool

    ghost predicate Coherent()
      reads this
    {
      && SourcesValid(domain, inputs) && DeclaredContracts(domain, inputs, contracts)
      && Agreement(domain, inputs, fingerprints)
      && Learned(schemas, fingerprints, contracts)
      && Described(channels, written, schemas, fingerprints, contracts)
      && LogFiled(messages, channels, fingerprints)
      && (failed || NextNumbers(messages, channels))
    }

    constructor (domain: string, inputs: map<string, InputBinding>, contracts: map<string, Contract>)
      requires SourcesValid(domain, inputs) && DeclaredContracts(domain, inputs, contracts)
      ensures Coherent() && messages == [] && channels == map[] && fingerprints == map[] && !failed
      ensures this.domain == domain && this.inputs == inputs && this.contracts == contracts
    {
      hide SourcesValid, DeclaredContracts, ParseParts, RecordedMetadata, DeclaredText, E.WholeFingerprint;
      this.domain, this.inputs, this.contracts := domain, inputs, contracts;
      channels, written, schemas, fingerprints, messages, failed := map[], map[], map[], map[], [], false;
    }

    /** Learn a declared key's fingerprint, exactly when the answers are unanimous and no known peer disagrees. */
    method DiscoverSchema(source: Key, replies: seq<E.DescriptorReply>) returns (ok: bool)
      requires Coherent() && Valid(source) && Print(source) in contracts && Print(source) !in fingerprints
      modifies this`fingerprints, this`schemas
      ensures Coherent()
      ensures ok <==> Print(source) in fingerprints
      ensures forall f :: (ok && fingerprints[Print(source)] == f) <==>
                          Teaches(domain, inputs, old(fingerprints), source, contracts[Print(source)].typeName,
                                  replies, f)
      ensures ok ==> fingerprints == old(fingerprints)[Print(source) := fingerprints[Print(source)]]
      ensures !ok ==> fingerprints == old(fingerprints)
      ensures ok ==> schemas == old(schemas)[Print(source) := schemas[Print(source)]]
      ensures !ok ==> schemas == old(schemas)
    {
      hide Print, Valid, LogFiled, NextNumbers, Described, Learned, Agreement, E.Unanimous, E.Utf8;
      hide E.WholeFingerprint, DeclaredText, SourceValid;
      var key := Print(source);
      var ty := contracts[key].typeName;
      var found := E.ReadDescriptors(replies, SchemaKey(source, ty), E.Utf8(ty));
      if found.None? { return false; }
      ghost var n, a :| Declares(domain, inputs, n, a, key) && contracts[key] == inputs[n].contract;
      DeclaredAddress(domain, inputs, n, a, source);
      var address := Address(source.source.value, source.endpoint.value.port);
      forall m, c | Declares(domain, inputs, m, c, key) ensures c == address {
        DeclaredAddress(domain, inputs, m, c, source);
      }
      var (fingerprint, files) := found.value;
      UnanimousOnce(replies, SchemaKey(source, ty), E.Utf8(ty), fingerprint);
      ok := ComparePeers(domain, inputs, fingerprints, address, fingerprint);
      if !ok { return; }
      AgreementGrows(domain, inputs, fingerprints, n, a, fingerprint);
      LogChannels(messages, channels, fingerprints);
      LogKept(messages, channels, fingerprints, channels, fingerprints[key := fingerprint]);
      DescribedKept(channels, written, schemas, fingerprints, contracts, key, fingerprint, (ty, files));
      LearnedMore(schemas, fingerprints, contracts, key, fingerprint, (ty, files));
      fingerprints := fingerprints[key := fingerprint];
      schemas := schemas[key := (ty, files)];
    }

    /** The key's channel, created and described the first time the key is written. */
    method OpenChannel(key: string, parts: KeyParts, answer: WriterAnswer) returns (ok: bool)
      requires Coherent() && !failed && key in fingerprints && ParseParts(key) == Some(parts)
      modifies this`channels, this`written
      ensures Coherent() && (ok <==> key in channels)
      ensures ok <==> Opens(key in old(channels), answer)
      ensures forall k :: k in old(channels) ==> k in channels && channels[k] == old(channels[k])
    {
      hide Agreement, DeclaredContracts, SourcesValid, Filed, Count, ParseParts, RecordedMetadata, E.WholeFingerprint;
      if key in channels { return true; }
      if !answer.schema || answer.channel.None? { return false; }
      LogChannels(messages, channels, fingerprints);
      NextNumbersOpened(messages, channels, fingerprints, key, answer.channel.value);
      LogKept(messages, channels, fingerprints, channels[key := (answer.channel.value, 0)], fingerprints);
      var latched := contracts[key].replay == ReplayLast;
      var schema := if key in schemas then Some(StoredSchema(schemas[key])) else None;
      var channel := Channel(key, "protobuf", schema, RecordedMetadata(key, parts, fingerprints[key], latched));
      DescribedMore(channels, written, schemas, fingerprints, contracts, key, (answer.channel.value, 0), channel);
      hide LogFiled, NextNumbers, Described;
      written := written[key := channel];
      channels := channels[key := (answer.channel.value, 0)];
      ok := true;
    }

    /** Number the message, then write it: a failed write has used its number. */
    method AppendMessage(key: string, payload: seq<byte>, fingerprint: u64, write: bool) returns (r: Outcome)
      requires Coherent() && !failed && key in channels && key in fingerprints && fingerprint == fingerprints[key]
      modifies this`channels, this`messages, this`failed
      ensures Coherent() && r == (if write then Wrote else Rejected) && failed == !write
      ensures channels.Keys == old(channels.Keys) && forall k :: k in channels ==> channels[k].0 == old(channels[k].0)
      ensures write ==> messages == old(messages) + [Next(old(messages), key, channels[key].0, payload, fingerprint)]
      ensures !write ==> messages == old(messages)
    {
      hide Agreement, DeclaredContracts, SourcesValid, Filed, Count, Described, Learned;
      var (id, sequence) := channels[key];
      assert sequence == Count(messages, key) % TWO_32;
      hide NextNumbers;
      LogKept(messages, channels, fingerprints, channels[key := (id, (sequence + 1) % TWO_32)], fingerprints);
      LogNext(messages, Message(key, id, sequence, payload, fingerprint), channels, fingerprints);
      SameDescribed(channels, written, schemas, fingerprints, contracts,
                    channels[key := (id, (sequence + 1) % TWO_32)]);
      hide LogFiled;
      channels := channels[key := (id, (sequence + 1) % TWO_32)];
      if !write { failed := true; return Rejected; }
      messages := messages + [Message(key, id, sequence, payload, fingerprint)];
      r := Wrote;
    }

    /**
     Write one sample, exactly when its key can be read and is selected, its schema is known, it carries that
     schema's fingerprint, and the writer goes along.
     */
    method WriteSample(key: string, payload: seq<byte>, fingerprint: Option<u64>, filter: Filter, answer: WriterAnswer)
      returns (r: Outcome)
      requires Coherent() && !failed
      modifies this`channels, this`written, this`messages, this`failed
      ensures Coherent()
      ensures r == Skipped <==> !Wanted(filter, key)
      ensures r == Wrote <==>
              Wanted(filter, key) && key in fingerprints && fingerprint == Some(fingerprints[key])
              && Opens(key in old(channels), answer) && answer.write
      ensures r == Wrote ==> key in channels && fingerprint.Some?
      ensures r == Wrote ==>
                messages == old(messages) + [Next(old(messages), key, channels[key].0, payload, fingerprint.value)]
      ensures forall k :: k in old(channels) ==> k in channels && channels[k].0 == old(channels[k].0)
      ensures r != Wrote ==> messages == old(messages)
      ensures failed <==> r == Rejected
    {
      hide Agreement, DeclaredContracts, SourcesValid, LogFiled, NextNumbers, Described, Count, ParseParts, Accepts;
      hide Opens, Learned;
      var parts := ParseParts(key);
      if parts.None? || !Accepts(filter, parts.value) { return Skipped; }
      if key !in fingerprints || fingerprint != Some(fingerprints[key]) { failed := true; return Rejected; }
      var open := OpenChannel(key, parts.value, answer);
      if !open { failed := true; return Rejected; }
      r := AppendMessage(key, payload, fingerprint.value, answer.write);
    }

    /** A received sample: declared, discovered if need be, then written as it came. */
    method WriteVerified(sample: Sample, replies: seq<E.DescriptorReply>, filter: Filter, answer: WriterAnswer)
      returns (r: Outcome)
      requires Coherent() && !failed && Valid(sample.key)
      modifies this
      ensures Coherent()
      ensures r == Wrote <==>
              && Print(sample.key) in contracts && Print(sample.key) in fingerprints
              && Wanted(filter, Print(sample.key))
              && sample.fingerprint == Some(fingerprints[Print(sample.key)])
              && Opens(Print(sample.key) in old(channels), answer) && answer.write
      ensures r == Skipped <==>
              Print(sample.key) in contracts && Print(sample.key) in fingerprints && !Wanted(filter, Print(sample.key))
      ensures r == Wrote ==> Print(sample.key) in channels && sample.fingerprint.Some?
      ensures r == Wrote ==>
                messages == old(messages) + [Next(old(messages), Print(sample.key), channels[Print(sample.key)].0,
                                                  sample.payload, sample.fingerprint.value)]
      ensures r != Wrote ==> messages == old(messages)
      ensures failed <==> r == Rejected
      ensures forall k :: k in old(fingerprints) ==> k in fingerprints && fingerprints[k] == old(fingerprints[k])
      ensures forall k :: k in fingerprints && k !in old(fingerprints) ==> k == Print(sample.key) && k in contracts
      ensures Print(sample.key) in contracts && Print(sample.key) !in old(fingerprints) ==>
                forall f :: (Print(sample.key) in fingerprints && fingerprints[Print(sample.key)] == f) <==>
                            Teaches(domain, inputs, old(fingerprints), sample.key,
                                    contracts[Print(sample.key)].typeName, replies, f)
    {
      hide Print, Valid, Count, LogFiled, NextNumbers, Agreement, DeclaredContracts, SourcesValid, Described, Accepts;
      hide ParseParts, Teaches, Wanted, Opens, Learned;
      var key := Print(sample.key);
      if key !in contracts { failed := true; return Rejected; }
      if key !in fingerprints {
        var ok := DiscoverSchema(sample.key, replies);
        if !ok { failed := true; return Rejected; }
      }
      r := WriteSample(key, sample.payload, sample.fingerprint, filter, answer);
    }
  }

  predicate Wanted(filter: Filter, key: string) {
    ParseParts(key).Some? && Accepts(filter, ParseParts(key).value)
  }

  /** The writer has the key's channel, or gives it one. */
  predicate Opens(open: bool, answer: WriterAnswer) {
    open || (answer.schema && answer.channel.Some?)
  }

  lemma DeclaredAddress(domain: string, inputs: map<string, InputBinding>, n: string, a: Address, source: Key)
    requires Valid(source) && Declares(domain, inputs, n, a, Print(source))
    ensures source.source == Some(a.namespace) && source.endpoint.Some? && source.endpoint.value.port == a.port
  {
    hide Print, Valid;
    PrintInjective(source, OutputKey(domain, a.namespace, a.port, inputs[n].contract.typeName));
  }

  /** Answers are unanimous about one fingerprint only. */
  lemma UnanimousOnce(replies: seq<E.DescriptorReply>, asked: Key, ty: seq<byte>, f: u64)
    requires E.Unanimous(replies, asked, ty, f)
    ensures forall g :: E.Unanimous(replies, asked, ty, g) ==> g == f
  {
    hide E.SetFingerprint;
    forall g | E.Unanimous(replies, asked, ty, g) ensures g == f {
      assert E.Answers(replies[0], asked, ty, f) && E.Answers(replies[0], asked, ty, g);
    }
  }

  lemma LearnedMore(schemas: map<string, (string, seq<D.File>)>, known: map<string, u64>,
                    contracts: map<string, Contract>, key: string, f: u64, schema: (string, seq<D.File>))
    requires Learned(schemas, known, contracts) && key in contracts && schema.0 == contracts[key].typeName
    requires E.WholeFingerprint(schema.1, E.Utf8(schema.0)) == Some(f)
    ensures Learned(schemas[key := schema], known[key := f], contracts)
  {
    hide E.WholeFingerprint, E.Utf8;
  }

  lemma DescribedKept(channels: map<string, (nat, nat)>, written: map<string, Channel>,
                      schemas: map<string, (string, seq<D.File>)>, known: map<string, u64>,
                      contracts: map<string, Contract>, key: string, f: u64, schema: (string, seq<D.File>))
    requires Described(channels, written, schemas, known, contracts) && key !in known
    ensures Described(channels, written, schemas[key := schema], known[key := f], contracts)
  {
    hide ParseParts, RecordedMetadata;
  }

  lemma DescribedMore(channels: map<string, (nat, nat)>, written: map<string, Channel>,
                      schemas: map<string, (string, seq<D.File>)>, known: map<string, u64>,
                      contracts: map<string, Contract>, key: string, number: (nat, nat), channel: Channel)
    requires Described(channels, written, schemas, known, contracts)
    requires key in known && key in contracts && key in schemas && ParseParts(key).Some?
    requires channel ==
             Channel(key, "protobuf", Some(StoredSchema(schemas[key])),
                     RecordedMetadata(key, ParseParts(key).value, known[key], contracts[key].replay == ReplayLast))
    ensures Described(channels[key := number], written[key := channel], schemas, known, contracts)
  {
    hide ParseParts, RecordedMetadata;
  }

  lemma NextNumbersOpened(messages: seq<Message>, channels: map<string, (nat, nat)>, known: map<string, u64>,
                          key: string, id: nat)
    requires LogFiled(messages, channels, known) && NextNumbers(messages, channels) && key !in channels
    ensures NextNumbers(messages, channels[key := (id, 0)])
  {
    hide Count, Filed;
  }

  lemma SameDescribed(channels: map<string, (nat, nat)>, written: map<string, Channel>,
                      schemas: map<string, (string, seq<D.File>)>, known: map<string, u64>,
                      contracts: map<string, Contract>, channels': map<string, (nat, nat)>)
    requires Described(channels, written, schemas, known, contracts) && channels'.Keys == channels.Keys
    ensures Described(channels', written, schemas, known, contracts)
  {
    hide ParseParts, RecordedMetadata;
    assert forall k :: k in channels' ==> k in channels;
  }

  /** Any two recorded messages whose keys are sources of one input came with one fingerprint. */
  lemma RecordedSourcesAgree(r: RecordChannels, n: string, a: Address, c: Address, i: nat, j: nat)
    requires r.Coherent() && n in r.inputs && a in r.inputs[n].sources && c in r.inputs[n].sources
    requires i < |r.messages| && r.messages[i].key == DeclaredText(r.domain, r.inputs[n], a)
    requires j < |r.messages| && r.messages[j].key == DeclaredText(r.domain, r.inputs[n], c)
    ensures r.messages[i].fingerprint == r.messages[j].fingerprint
  {
    hide DeclaredText, Count;
    assert Filed(r.messages, i, r.channels, r.fingerprints) && Filed(r.messages, j, r.channels, r.fingerprints);
  }

  /** In accepted bindings a key's recorded contract agrees with every input that declares the key. */
  lemma RecordedContractAgrees(b: ModuleBindings, domain: string, contracts: map<string, Contract>, n: string,
                               a: Address)
    requires Sound(b) && DeclaredContracts(domain, b.inputs, contracts)
    requires n in b.inputs && a in b.inputs[n].sources && SourceValid(domain, b.inputs[n], a)
    requires DeclaredText(domain, b.inputs[n], a) in contracts
    ensures ShapeOf(contracts[DeclaredText(domain, b.inputs[n], a)]) == ShapeOf(b.inputs[n].contract)
  {
    hide DeclaredText, SourceValid;
    var m, c :| Declares(domain, b.inputs, m, c, DeclaredText(domain, b.inputs[n], a))
                && contracts[DeclaredText(domain, b.inputs[n], a)] == b.inputs[m].contract;
    SameTextSameSource(domain, b.inputs[n], a, b.inputs[m], c);
  }

  lemma LogChannels(messages: seq<Message>, channels: map<string, (nat, nat)>, known: map<string, u64>)
    requires LogFiled(messages, channels, known)
    ensures forall k :: k in channels ==> k in known && channels[k].1 < TWO_32
  {}
}
