/** Planning bag playback: recorded channels, `--map` arguments and declared outputs must pair off exactly. */
module Playback {
  import opened Prelude
  import opened Text
  import opened Keys
  import opened KeyText
  import opened Bindings
  import opened BagChannels
  import opened Counting
  import opened FingerprintText
  import E = EndpointSchema

  // ----- arguments -----

  predicate Contains(s: string, pattern: string) {
    SplitOnce(s, pattern).Some?
  }

  predicate MappingSound(argument: string) {
    match SplitOnce(argument, "=")
    case None => false
    case Some((recorded, output)) => ParseParts(recorded).Some? && Contains(recorded, "/@out/") && output != ""
  }

  function RecordedOf(argument: string): string
    requires MappingSound(argument)
  {
    SplitOnce(argument, "=").value.0
  }

  function OutputOf(argument: string): string
    requires MappingSound(argument)
  {
    SplitOnce(argument, "=").value.1
  }

  /** Every argument is a mapping, and no endpoint or output is named twice. */
  ghost predicate ArgumentsSound(arguments: seq<string>) {
    && (forall i :: 0 <= i < |arguments| ==> MappingSound(arguments[i]))
    && (forall i, j :: 0 <= i < j < |arguments| ==>
          RecordedOf(arguments[i]) != RecordedOf(arguments[j]) && OutputOf(arguments[i]) != OutputOf(arguments[j]))
  }

  /** The map from recorded endpoints to outputs that the arguments spell. */
  ghost predicate Spells(mappings: map<string, string>, arguments: seq<string>) {
    && (forall i :: 0 <= i < |arguments| ==> MappingSound(arguments[i]))
    && (forall i :: 0 <= i < |arguments| ==>
          RecordedOf(arguments[i]) in mappings && mappings[RecordedOf(arguments[i])] == OutputOf(arguments[i]))
    && (forall r :: r in mappings ==> exists i :: 0 <= i < |arguments| && RecordedOf(arguments[i]) == r)
  }

  // ----- what an argument says -----

  /** `text` is the text of an output's key. */
  ghost predicate RecordedKey(text: string) {
    exists p: KeyParts :: Valid(KeyOf(p)) && text == Print(KeyOf(p))
  }

  function KeyOf(p: KeyParts): Key {
    OutputKey(p.domain, p.source, p.port, p.ty)
  }

  /** The argument is an output's key and an output name with the first equals sign in between. */
  ghost predicate Maps(argument: string, recorded: string, output: string) {
    argument == recorded + "=" + output && '=' !in recorded && RecordedKey(recorded) && output != ""
  }

  lemma SplitEquals(recorded: string, output: string)
    ensures SplitOnce(recorded + "=" + output, "=") == Some((recorded, output)) <==> '=' !in recorded
  {
    var s := recorded + "=" + output;
    if '=' in recorded {
      var i :| 0 <= i < |recorded| && recorded[i] == '=';
      SplitOnceExact(s, "=");
      assert s[i..][0] == '=';
    } else {
      forall i | 0 <= i < |recorded| ensures !("=" <= s[i..]) { assert s[i..][0] == recorded[i]; }
      SplitOnceAt(recorded, "=", output);
    }
  }

  /** The texts whose parts can be read are the output keys, and these contain the marker. */
  lemma RecordedKeyExact(text: string)
    ensures ParseParts(text).Some? && Contains(text, "/@out/") <==> RecordedKey(text)
  {
    hide ParseParts, Valid, Print, Contains;
    if ParseParts(text).Some? {
      PartsPrintBack(text);
      assert text == Print(KeyOf(ParseParts(text).value));
    }
    if RecordedKey(text) {
      var p: KeyParts :| Valid(KeyOf(p)) && text == Print(KeyOf(p));
      PartsRoundTrip(p.domain, p.source, p.port, p.ty);
      MarkedText(p);
    }
  }

  lemma MarkedText(p: KeyParts)
    requires Valid(KeyOf(p))
    ensures Contains(Print(KeyOf(p)), "/@out/")
  {
    OutputText(p);
    hide Print, Valid;
    var a, b := "reiny" + "/" + "v3" + "/" + p.domain + "/" + p.source, p.port + "/" + p.ty;
    SplitOnceExact(a + "/@out/" + b, "/@out/");
    hide SplitOnce;
    assert (a + "/@out/" + b)[|a|..] == "/@out/" + b;
  }

  lemma OutputText(p: KeyParts)
    requires Valid(KeyOf(p))
    ensures Print(KeyOf(p)) ==
            "reiny" + "/" + "v3" + "/" + p.domain + "/" + p.source + "/@out/" + (p.port + "/" + p.ty)
  {
    OrdinaryFree(p.ty);
    assert "/" + "@out" + "/" == "/@out/";
  }

  /** An argument is accepted, and read as `recorded` and `output`, exactly when it says just that. */
  lemma MappingExact(argument: string, recorded: string, output: string)
    ensures MappingSound(argument) && RecordedOf(argument) == recorded && OutputOf(argument) == output <==>
            Maps(argument, recorded, output)
  {
    hide RecordedKey, ParseParts, SplitOnce;
    RecordedKeyExact(recorded);
    SplitEquals(recorded, output);
    SplitOnceExact(argument, "=");
  }

  /** The map sends the key that the argument names to its output. */
  ghost predicate Obeys(mappings: map<string, string>, argument: string) {
    exists r, o :: Maps(argument, r, o) && r in mappings && mappings[r] == o
  }

  /** An argument sends `recorded` where the map does. */
  ghost predicate Asked(mappings: map<string, string>, arguments: seq<string>, recorded: string)
    requires recorded in mappings
  {
    exists i :: 0 <= i < |arguments| && Maps(arguments[i], recorded, mappings[recorded])
  }

  lemma ObeysExact(mappings: map<string, string>, argument: string)
    ensures Obeys(mappings, argument) <==>
            && MappingSound(argument) && RecordedOf(argument) in mappings
            && mappings[RecordedOf(argument)] == OutputOf(argument)
  {
    hide Maps, MappingSound, RecordedOf, OutputOf;
    if MappingSound(argument) { MappingExact(argument, RecordedOf(argument), OutputOf(argument)); }
    if r, o :| Maps(argument, r, o) && r in mappings && mappings[r] == o { MappingExact(argument, r, o); }
  }

  lemma AskedExact(mappings: map<string, string>, arguments: seq<string>, recorded: string)
    requires recorded in mappings && forall i :: 0 <= i < |arguments| ==> Obeys(mappings, arguments[i])
    requires forall i :: 0 <= i < |arguments| ==> MappingSound(arguments[i])
    ensures Asked(mappings, arguments, recorded) <==>
            exists i :: 0 <= i < |arguments| && RecordedOf(arguments[i]) == recorded
  {
    hide Maps, MappingSound, RecordedOf, OutputOf, Obeys;
    if i :| 0 <= i < |arguments| && Maps(arguments[i], recorded, mappings[recorded]) {
      MappingExact(arguments[i], recorded, mappings[recorded]);
    }
    if i :| 0 <= i < |arguments| && RecordedOf(arguments[i]) == recorded {
      ObeysExact(mappings, arguments[i]);
      MappingExact(arguments[i], recorded, mappings[recorded]);
    }
  }

  /** A map is what the arguments spell exactly when it sends the key of each to its output and has no other key. */
  lemma SpellsExact(mappings: map<string, string>, arguments: seq<string>)
    ensures Spells(mappings, arguments) <==>
            && (forall i :: 0 <= i < |arguments| ==> Obeys(mappings, arguments[i]))
            && (forall r :: r in mappings ==> Asked(mappings, arguments, r))
  {
    hide MappingSound, RecordedOf, OutputOf, Obeys, Asked;
    forall i | 0 <= i < |arguments|
      ensures Obeys(mappings, arguments[i]) <==>
              && MappingSound(arguments[i]) && RecordedOf(arguments[i]) in mappings
              && mappings[RecordedOf(arguments[i])] == OutputOf(arguments[i])
    {
      ObeysExact(mappings, arguments[i]);
    }
    if forall i :: 0 <= i < |arguments| ==> Obeys(mappings, arguments[i]) {
      forall r | r in mappings
        ensures Asked(mappings, arguments, r) <==> exists i :: 0 <= i < |arguments| && RecordedOf(arguments[i]) == r
      {
        AskedExact(mappings, arguments, r);
      }
    }
  }

  /** One more argument is accepted exactly when its endpoint and output are new. */
  lemma MoreArguments(arguments: seq<string>, i: nat, mappings: map<string, string>)
    requires i < |arguments| && ArgumentsSound(arguments[..i]) && Spells(mappings, arguments[..i]) && OneToOne(mappings)
    requires MappingSound(arguments[i])
    ensures ArgumentsSound(arguments[..i + 1]) <==>
            RecordedOf(arguments[i]) !in mappings && OutputOf(arguments[i]) !in mappings.Values
    ensures ArgumentsSound(arguments[..i + 1]) ==>
              Spells(mappings[RecordedOf(arguments[i]) := OutputOf(arguments[i])], arguments[..i + 1])
    ensures ArgumentsSound(arguments[..i + 1]) ==>
              OneToOne(mappings[RecordedOf(arguments[i]) := OutputOf(arguments[i])])
  {
    hide MappingSound, RecordedOf, OutputOf;
    var before, after := arguments[..i], arguments[..i + 1];
    assert after == before + [arguments[i]];
    assert OutputOf(arguments[i]) in mappings.Values ==>
      exists k :: 0 <= k < i && OutputOf(before[k]) == OutputOf(arguments[i]);
    assert forall k :: 0 <= k < i ==> mappings[RecordedOf(before[k])] in mappings.Values;
    assert forall k :: 0 <= k < i ==> after[k] == before[k];
    assert after[i] == arguments[i];
  }

  lemma NoArguments()
    ensures ArgumentsSound([]) && Spells(map[], []) && OneToOne<string, string>(map[])
  {}

  lemma ArgumentsMapped(arguments: seq<string>)
    ensures ArgumentsSound(arguments) ==> forall i :: 0 <= i < |arguments| ==> MappingSound(arguments[i])
  {}

  lemma ArgumentsPrefix(arguments: seq<string>, i: nat)
    requires ArgumentsSound(arguments) && i <= |arguments|
    ensures ArgumentsSound(arguments[..i])
  {}

  method PlaybackMappings(arguments: seq<string>) returns (r: Result<map<string, string>>)
    ensures r.Ok? <==> ArgumentsSound(arguments)
    ensures r.Ok? ==> Spells(r.value, arguments) && OneToOne(r.value)
  {
    hide MappingSound, RecordedOf, OutputOf, ArgumentsSound, Spells, OneToOne;
    var mappings: map<string, string> := map[];
    var outputs: set<string> := {};
    NoArguments();
    for i := 0 to |arguments|
      invariant ArgumentsSound(arguments[..i]) && Spells(mappings, arguments[..i])
      invariant outputs == mappings.Values && OneToOne(mappings)
    {
      if !MappingSound(arguments[i]) { ArgumentsMapped(arguments); return Err; }
      MoreArguments(arguments, i, mappings);
      if ArgumentsSound(arguments) { ArgumentsPrefix(arguments, i + 1); }
      var recorded, output := RecordedOf(arguments[i]), OutputOf(arguments[i]);
      if recorded in mappings || output in outputs { return Err; }
      ValuesGrow(mappings, recorded, output);
      mappings := mappings[recorded := output];
      outputs := outputs + {output};
    }
    assert arguments[..|arguments|] == arguments;
    r := Ok(mappings);
  }

  // ----- the plan -----

  datatype PlannedChannel = PlannedChannel(key: string, ty: string, name: string, fqn: string, fingerprint: u64)

  /** What a plan is made from. */
  datatype Request = Request(
    outputs: map<string, Contract>,
    namespace: string,
    domain: string,
    publishAs: Option<string>,
    filter: Filter)

  function Entry(metadata: map<string, string>, name: string): Option<string> {
    if name in metadata then Some(metadata[name]) else None
  }

  /** The endpoint a recorded channel says it carries is the one in its topic. */
  predicate MetadataConsistent(topic: string, p: KeyParts, metadata: map<string, string>) {
    && Entry(metadata, "reiny.key") == Some(topic) && Entry(metadata, "reiny.port") == Some(p.port)
    && Entry(metadata, "reiny.source") == Some(p.source) && Entry(metadata, "reiny.domain") == Some(p.domain)
    && Entry(metadata, "reiny.type") == Some(p.ty)
    && Entry(metadata, "reiny.fingerprint_version") == Some(FINGERPRINT_VERSION)
  }

  function RecordedFingerprint(metadata: map<string, string>): Option<u64> {
    match Entry(metadata, "reiny.schema")
    case None => None
    case Some(text) => ParseHex(text)
  }

  predicate Selected(q: Request, ch: Channel) {
    Wanted(q.filter, ch.topic)
  }

  function LiveKey(q: Request, name: string): Key
    requires name in q.outputs
  {
    OutputKey(q.domain, q.namespace, name, q.outputs[name].typeName)
  }

  /** The fingerprint the player computes from a stored schema, if it can. */
  ghost function StoredFingerprint(schema: Schema): Option<u64> {
    match schema.data
    case None => None
    case Some(files) => E.WholeFingerprint(files, E.Utf8(schema.name))
  }

  /** A selected channel suits the output it is mapped to, fingerprints aside. */
  predicate Suits(q: Request, ch: Channel, name: string) {
    && ParseParts(ch.topic).Some?
    && ch.schema.Some? && ch.schema.value.encoding == "protobuf" && ch.encoding == "protobuf"
    && name in q.outputs && q.outputs[name].kind == Stream
    && q.outputs[name].typeName == ch.schema.value.name && ParseParts(ch.topic).value.ty == q.outputs[name].typeName
    && (q.publishAs.None? || q.publishAs.value == q.namespace) && Valid(LiveKey(q, name))
    && MetadataConsistent(ch.topic, ParseParts(ch.topic).value, ch.metadata)
  }

  /** It fits if moreover it was recorded under the fingerprint of the schema stored with it. */
  ghost predicate Fits(q: Request, ch: Channel, name: string) {
    && Suits(q, ch, name)
    && StoredFingerprint(ch.schema.value).Some?
    && RecordedFingerprint(ch.metadata) == StoredFingerprint(ch.schema.value)
  }

  ghost function Planned(q: Request, ch: Channel, name: string): PlannedChannel
    requires Fits(q, ch, name)
  {
    PlannedChannel(Print(LiveKey(q, name)), ParseParts(ch.topic).value.ty, name, ch.schema.value.name,
                   StoredFingerprint(ch.schema.value).value)
  }

  method PlanChannel(q: Request, ch: Channel, name: string) returns (r: Result<PlannedChannel>)
    ensures r.Ok? <==> Fits(q, ch, name)
    ensures r.Ok? ==> r.value == Planned(q, ch, name)
  {
    hide ParseParts, Print, Valid, E.WholeFingerprint, E.Utf8;
    if !Suits(q, ch, name) { return Err; }
    hide MetadataConsistent;
    var schema := ch.schema.value;
    if schema.data.None? { return Err; }
    var fingerprint := E.SchemaFingerprint(schema.data.value, E.Utf8(schema.name));
    if fingerprint.None? || RecordedFingerprint(ch.metadata) != fingerprint { return Err; }
    r := Ok(PlannedChannel(Print(LiveKey(q, name)), ParseParts(ch.topic).value.ty, name, schema.name,
                           fingerprint.value));
  }

  predicate Chosen(q: Request, channels: map<nat, Channel>, id: nat) {
    id in channels && Selected(q, channels[id])
  }

  /** Every selected channel is mapped to an output it fits, and no topic is selected twice. */
  ghost predicate ChannelsFit(q: Request, channels: map<nat, Channel>, mappings: map<string, string>, ids: set<nat>) {
    && (forall id :: id in ids && Chosen(q, channels, id) ==>
          channels[id].topic in mappings && Fits(q, channels[id], mappings[channels[id].topic]))
    && (forall a, b :: a in ids && b in ids && Chosen(q, channels, a) && Chosen(q, channels, b) && a != b ==>
          channels[a].topic != channels[b].topic)
  }

  /** Recorded endpoints, mappings and outputs pair off: nothing mapped is absent, and no output is left silent. */
  ghost predicate PairsOff(q: Request, channels: map<nat, Channel>, mappings: map<string, string>) {
    && ChannelsFit(q, channels, mappings, channels.Keys)
    && (exists id :: Chosen(q, channels, id))
    && MappedRecorded(q, channels, mappings) && OutputsMapped(q, mappings)
  }

  ghost predicate MappedRecorded(q: Request, channels: map<nat, Channel>, mappings: map<string, string>) {
    forall r :: r in mappings ==> exists id :: Chosen(q, channels, id) && channels[id].topic == r
  }

  ghost predicate OutputsMapped(q: Request, mappings: map<string, string>) {
    forall o :: o in q.outputs ==> exists r :: r in mappings && mappings[r] == o
  }

  ghost predicate Plans(q: Request, channels: map<nat, Channel>, mappings: map<string, string>,
                        plan: map<nat, PlannedChannel>, ids: set<nat>)
    requires ChannelsFit(q, channels, mappings, ids)
  {
    && (forall id: nat :: id in plan <==> id in ids && Chosen(q, channels, id))
    && (forall id: nat :: id in plan ==> plan[id] == Planned(q, channels[id], mappings[channels[id].topic]))
  }

  ghost predicate Used(used: set<string>, channels: map<nat, Channel>, plan: map<nat, PlannedChannel>) {
    && (forall id: nat :: id in plan ==> id in channels && channels[id].topic in used)
    && (forall t :: t in used ==> exists id: nat :: id in plan && id in channels && channels[id].topic == t)
  }

  /** One more channel: left out, or accepted exactly when it fits its mapping and its topic is new. */
  lemma MoreChannels(q: Request, channels: map<nat, Channel>, mappings: map<string, string>, ids: set<nat>, id: nat,
                     plan: map<nat, PlannedChannel>, used: set<string>)
    requires ChannelsFit(q, channels, mappings, ids) && Plans(q, channels, mappings, plan, ids)
    requires Used(used, channels, plan)
    requires id in channels && id !in ids
    ensures !Chosen(q, channels, id) ==>
              ChannelsFit(q, channels, mappings, ids + {id}) && Plans(q, channels, mappings, plan, ids + {id})
    ensures Chosen(q, channels, id) ==>
              (ChannelsFit(q, channels, mappings, ids + {id}) <==>
               channels[id].topic in mappings && Fits(q, channels[id], mappings[channels[id].topic])
               && channels[id].topic !in used)
  {
    hide Chosen, Fits;
    if Chosen(q, channels, id) && channels[id].topic in used {
      var other: nat :| other in plan && other in channels && channels[other].topic == channels[id].topic;
      assert other in ids;
    }
  }

  lemma FewerChannels(q: Request, channels: map<nat, Channel>, mappings: map<string, string>, ids: set<nat>)
    requires ChannelsFit(q, channels, mappings, channels.Keys) && ids <= channels.Keys
    ensures ChannelsFit(q, channels, mappings, ids)
  {
    hide Chosen, Fits;
  }

  lemma PlanGrows(q: Request, channels: map<nat, Channel>, mappings: map<string, string>, ids: set<nat>, id: nat,
                  plan: map<nat, PlannedChannel>, used: set<string>)
    requires ChannelsFit(q, channels, mappings, ids) && Plans(q, channels, mappings, plan, ids)
    requires Used(used, channels, plan)
    requires id in channels && id !in ids && Chosen(q, channels, id) && ChannelsFit(q, channels, mappings, ids + {id})
    ensures Plans(q, channels, mappings, plan[id := Planned(q, channels[id], mappings[channels[id].topic])], ids + {id})
    ensures Used(used + {channels[id].topic}, channels,
                 plan[id := Planned(q, channels[id], mappings[channels[id].topic])])
  {
    hide Chosen, Fits, Planned;
    var next := plan[id := Planned(q, channels[id], mappings[channels[id].topic])];
    forall t | t in used + {channels[id].topic}
      ensures exists k: nat :: k in next && k in channels && channels[k].topic == t
    {
      if t in used {
        var k: nat :| k in plan && k in channels && channels[k].topic == t;
        assert k in next;
      } else {
        assert id in next;
      }
    }
  }

  lemma NoChannels(q: Request, channels: map<nat, Channel>, mappings: map<string, string>)
    ensures ChannelsFit(q, channels, mappings, {}) && Plans(q, channels, mappings, map[], {})
    ensures Used({}, channels, map[])
  {}

  method PlanChannels(q: Request, channels: map<nat, Channel>, mappings: map<string, string>)
    returns (r: Result<(map<nat, PlannedChannel>, set<string>)>)
    ensures r.Ok? <==> ChannelsFit(q, channels, mappings, channels.Keys)
    ensures r.Ok? ==> Plans(q, channels, mappings, r.value.0, channels.Keys) && Used(r.value.1, channels, r.value.0)
  {
    hide ChannelsFit, Plans, Used, Fits, Planned, Selected;
    var plan: map<nat, PlannedChannel> := map[];
    var used: set<string> := {};
    var rest := channels.Keys;
    NoChannels(q, channels, mappings);
    assert channels.Keys - rest == {};
    while rest != {}
      invariant rest <= channels.Keys && ChannelsFit(q, channels, mappings, channels.Keys - rest)
      invariant Plans(q, channels, mappings, plan, channels.Keys - rest) && Used(used, channels, plan)
    {
      var id :| id in rest;
      var ch := channels[id];
      ghost var done := channels.Keys - rest;
      MoreChannels(q, channels, mappings, done, id, plan, used);
      if ChannelsFit(q, channels, mappings, channels.Keys) { FewerChannels(q, channels, mappings, done + {id}); }
      rest := rest - {id};
      assert channels.Keys - rest == done + {id};
      if Selected(q, ch) {
        if ch.topic !in mappings { return Err; }
        var planned := PlanChannel(q, ch, mappings[ch.topic]);
        if planned.Err? || ch.topic in used { return Err; }
        PlanGrows(q, channels, mappings, done, id, plan, used);
        used := used + {ch.topic};
        plan := plan[id := planned.value];
      }
    }
    assert channels.Keys - rest == channels.Keys;
    r := Ok((plan, used));
  }

  // ----- pairing by counting -----

  lemma UsedMapped(q: Request, channels: map<nat, Channel>, mappings: map<string, string>,
                   plan: map<nat, PlannedChannel>, used: set<string>)
    requires ChannelsFit(q, channels, mappings, channels.Keys) && Plans(q, channels, mappings, plan, channels.Keys)
    requires Used(used, channels, plan)
    ensures used <= mappings.Keys
    ensures used == mappings.Keys <==> MappedRecorded(q, channels, mappings)
    ensures plan != map[] <==> exists id :: Chosen(q, channels, id)
  {
    hide Fits, Planned, Selected;
    if MappedRecorded(q, channels, mappings) {
      forall r | r in mappings ensures r in used {
        var id :| Chosen(q, channels, id) && channels[id].topic == r;
        assert id in plan;
      }
    }
    if plan != map[] { var id :| id in plan; assert Chosen(q, channels, id); }
    if id :| Chosen(q, channels, id) { assert id in plan; }
  }

  lemma MappedDeclared(q: Request, channels: map<nat, Channel>, mappings: map<string, string>)
    requires ChannelsFit(q, channels, mappings, channels.Keys) && MappedRecorded(q, channels, mappings)
    ensures mappings.Values <= q.outputs.Keys
    ensures mappings.Values == q.outputs.Keys <==> OutputsMapped(q, mappings)
  {
    hide Fits, Selected;
    forall o | o in mappings.Values ensures o in q.outputs {
      var r :| r in mappings && mappings[r] == o;
      var id :| Chosen(q, channels, id) && channels[id].topic == r;
      FitsDeclared(q, channels[id], o);
    }
    forall o | o in q.outputs ensures o in mappings.Values <==> exists r :: r in mappings && mappings[r] == o {}
  }

  lemma FitsDeclared(q: Request, ch: Channel, name: string)
    requires Fits(q, ch, name)
    ensures name in q.outputs
  {}

  /** The sizes compared at the end decide the pairing. */
  lemma SizesDecide(q: Request, channels: map<nat, Channel>, mappings: map<string, string>,
                    plan: map<nat, PlannedChannel>, used: set<string>)
    requires ChannelsFit(q, channels, mappings, channels.Keys) && Plans(q, channels, mappings, plan, channels.Keys)
    requires Used(used, channels, plan)
    requires OneToOne(mappings)
    ensures plan != map[] && |used| == |mappings| && |mappings| == |q.outputs| <==> PairsOff(q, channels, mappings)
  {
    hide ChannelsFit, Chosen, Plans, Used, MappedRecorded, OutputsMapped, OneToOne;
    UsedMapped(q, channels, mappings, plan, used);
    SubsetSize(used, mappings.Keys);
    OneToOneSize(mappings);
    if used == mappings.Keys {
      MappedDeclared(q, channels, mappings);
      SubsetSize(mappings.Values, q.outputs.Keys);
    }
  }

  method PlaybackPlan(q: Request, arguments: seq<string>, channels: map<nat, Channel>)
    returns (r: Result<map<nat, PlannedChannel>>)
    ensures r.Ok? <==> ArgumentsSound(arguments) && forall m :: Spells(m, arguments) ==> PairsOff(q, channels, m)
    ensures r.Ok? ==>
              exists m ::
                && Spells(m, arguments) && OneToOne(m)
                && PairsOff(q, channels, m) && Plans(q, channels, m, r.value, channels.Keys)
  {
    hide ArgumentsSound, Spells, OneToOne, PairsOff, Plans, Used, ChannelsFit;
    var mapped := PlaybackMappings(arguments);
    if mapped.Err? { return Err; }
    var mappings := mapped.value;
    forall m | Spells(m, arguments) ensures m == mappings { SpellsUnique(m, mappings, arguments); }
    var planned := PlanChannels(q, channels, mappings);
    PairsFit(q, channels, mappings);
    if planned.Err? { return Err; }
    var (plan, used) := planned.value;
    SizesDecide(q, channels, mappings, plan, used);
    if plan == map[] || |used| != |mappings| || |mappings| != |q.outputs| { return Err; }
    r := Ok(plan);
  }

  lemma PairsFit(q: Request, channels: map<nat, Channel>, mappings: map<string, string>)
    ensures PairsOff(q, channels, mappings) ==> ChannelsFit(q, channels, mappings, channels.Keys)
  {}

  lemma SpellsUnique(m: map<string, string>, m': map<string, string>, arguments: seq<string>)
    requires Spells(m, arguments) && Spells(m', arguments)
    ensures m == m'
  {
    hide MappingSound, RecordedOf, OutputOf;
    forall r ensures r in m <==> r in m' {}
    forall r | r in m && r in m' ensures m[r] == m'[r] {
      var i :| 0 <= i < |arguments| && RecordedOf(arguments[i]) == r;
    }
  }

  /** In a plan, one recorded channel plays each declared output, and agrees with it on type and fingerprint. */
  lemma OutputsPlayedOnce(q: Request, channels: map<nat, Channel>, mappings: map<string, string>,
                          plan: map<nat, PlannedChannel>, output: string)
    requires OneToOne(mappings) && PairsOff(q, channels, mappings) && Plans(q, channels, mappings, plan, channels.Keys)
    requires output in q.outputs
    ensures exists id :: PlaysAlone(q, channels, plan, id, output)
  {
    hide Fits, Planned;
    var recorded :| recorded in mappings && mappings[recorded] == output;
    var id :| Chosen(q, channels, id) && channels[id].topic == recorded;
    assert id in plan && Fits(q, channels[id], output);
    PlannedAgrees(q, channels[id], output);
    forall other | other in plan && plan[other].name == output ensures other == id {
      assert Chosen(q, channels, other);
      PlannedAgrees(q, channels[other], mappings[channels[other].topic]);
    }
    assert PlaysAlone(q, channels, plan, id, output);
  }

  /** Only `id` is planned for `output`, with its contract's type and the fingerprint it was recorded under. */
  ghost predicate PlaysAlone(q: Request, channels: map<nat, Channel>, plan: map<nat, PlannedChannel>, id: nat,
                             output: string)
  {
    && id in plan && id in channels && output in q.outputs
    && plan[id].name == output && plan[id].ty == plan[id].fqn == q.outputs[output].typeName
    && RecordedFingerprint(channels[id].metadata) == Some(plan[id].fingerprint)
    && plan[id].key == Print(LiveKey(q, output))
    && (forall other :: other in plan && plan[other].name == output ==> other == id)
  }

  lemma PlannedAgrees(q: Request, ch: Channel, name: string)
    requires Fits(q, ch, name)
    ensures var p := Planned(q, ch, name);
            p.name == name && p.ty == p.fqn == q.outputs[name].typeName && p.key == Print(LiveKey(q, name))
            && Valid(LiveKey(q, name))
            && RecordedFingerprint(ch.metadata) == Some(p.fingerprint)
  {}

  lemma PlanEntry(q: Request, channels: map<nat, Channel>, mappings: map<string, string>,
                  plan: map<nat, PlannedChannel>, id: nat)
    requires ChannelsFit(q, channels, mappings, channels.Keys) && Plans(q, channels, mappings, plan, channels.Keys)
    requires id in plan
    ensures id in channels && channels[id].topic in mappings
    ensures Fits(q, channels[id], mappings[channels[id].topic])
    ensures plan[id] == Planned(q, channels[id], mappings[channels[id].topic])
    ensures forall other :: other in plan && other != id ==>
              other in channels && channels[other].topic != channels[id].topic
  {
    hide Fits, Planned, Selected;
    assert Chosen(q, channels, id);
  }

  /** A live key reads back as the player's domain and namespace, the output's name and its type. */
  lemma LiveKeyReads(q: Request, name: string)
    requires name in q.outputs && Valid(LiveKey(q, name))
    ensures ParseParts(Print(LiveKey(q, name))) ==
            Some(KeyParts(q.domain, q.namespace, name, q.outputs[name].typeName))
  {
    PartsRoundTrip(q.domain, q.namespace, name, q.outputs[name].typeName);
  }

  /** Two planned channels never publish to one live key. */
  lemma LiveKeysDistinct(q: Request, channels: map<nat, Channel>, mappings: map<string, string>,
                         plan: map<nat, PlannedChannel>, a: nat, b: nat)
    requires OneToOne(mappings) && ChannelsFit(q, channels, mappings, channels.Keys)
    requires Plans(q, channels, mappings, plan, channels.Keys)
    requires a in plan && b in plan && plan[a].key == plan[b].key
    ensures a == b
  {
    hide ChannelsFit, Plans, Fits, Planned, Print, Valid;
    PlanEntry(q, channels, mappings, plan, a);
    PlanEntry(q, channels, mappings, plan, b);
    var m, n := mappings[channels[a].topic], mappings[channels[b].topic];
    PlannedAgrees(q, channels[a], m);
    PlannedAgrees(q, channels[b], n);
    FitsDeclared(q, channels[a], m);
    FitsDeclared(q, channels[b], n);
    PrintInjective(LiveKey(q, m), LiveKey(q, n));
  }

  // ----- recorded channels can be played -----

  /** The type in a declared key is the declared type. */
  lemma DeclaredType(r: RecordChannels, key: string)
    requires r.Coherent() && key in r.contracts
    ensures ParseParts(key).Some? && ParseParts(key).value.ty == r.contracts[key].typeName
  {
    hide ParseParts, Print, Valid, LogFiled, NextNumbers, Agreement, Described, Learned;
    var n, a :| Declares(r.domain, r.inputs, n, a, key) && r.contracts[key] == r.inputs[n].contract;
    PartsRoundTrip(r.domain, a.namespace, a.port, r.inputs[n].contract.typeName);
  }

  /** The output is a stream of type `ty` whose live key can be published. */
  predicate Publishes(q: Request, name: string, ty: string) {
    && name in q.outputs && q.outputs[name].kind == Stream && q.outputs[name].typeName == ty
    && (q.publishAs.None? || q.publishAs.value == q.namespace) && Valid(LiveKey(q, name))
  }

  /** The metadata has every entry a recorder writes, except that the fingerprint may be spelled otherwise. */
  ghost predicate Carries(metadata: map<string, string>, recorded: map<string, string>) {
    forall n :: n in recorded && n != "reiny.schema" ==> Entry(metadata, n) == Some(recorded[n])
  }

  lemma ConsistentExact(topic: string, p: KeyParts, metadata: map<string, string>, f: u64)
    ensures MetadataConsistent(topic, p, metadata) <==> Carries(metadata, RecordedMetadata(topic, p, f, false))
  {
    hide Hex;
    var r := RecordedMetadata(topic, p, f, false);
    DistinctNames();
    hide Entry;
    assert r["reiny.key"] == topic && r["reiny.port"] == p.port && r["reiny.source"] == p.source;
    assert r["reiny.domain"] == p.domain && r["reiny.type"] == p.ty;
    assert r["reiny.fingerprint_version"] == FINGERPRINT_VERSION;
    forall n | n in r && n != "reiny.schema"
      ensures n in ["reiny.key", "reiny.port", "reiny.source", "reiny.domain", "reiny.type",
                    "reiny.fingerprint_version"]
    {}
  }

  lemma DistinctNames()
    ensures NoRepeats(["reiny.domain", "reiny.source", "reiny.port", "reiny.key", "reiny.type", "reiny.schema",
                       "reiny.fingerprint_version"])
  {
    assert "reiny.domain"[6] == 'd' && "reiny.source"[7] == 'o' && "reiny.schema"[7] == 'c';
    assert "reiny.port"[6] == 'p' && "reiny.type"[6] == 't';
  }

  /** What a recorder could have written: an output's key with its type's schema, described accordingly. */
  ghost predicate LooksRecorded(ch: Channel, p: KeyParts) {
    && Valid(KeyOf(p)) && ch.topic == Print(KeyOf(p)) && ch.encoding == "protobuf"
    && ch.schema.Some? && ch.schema.value.data.Some?
    && ch.schema.value == StoredSchema((p.ty, ch.schema.value.data.value))
    && var f := E.WholeFingerprint(ch.schema.value.data.value, E.Utf8(p.ty));
       && f.Some? && RecordedFingerprint(ch.metadata) == f
       && Carries(ch.metadata, RecordedMetadata(ch.topic, p, f.value, false))
  }

  /** A channel fits an output exactly when a recorder could have written it and the output publishes its type. */
  lemma FitsExact(q: Request, ch: Channel, name: string)
    ensures Fits(q, ch, name) <==> exists p :: LooksRecorded(ch, p) && Publishes(q, name, p.ty)
  {
    hide ParseParts, Print, Valid, MetadataConsistent, Carries, RecordedMetadata, RecordedFingerprint, LiveKey;
    hide E.WholeFingerprint, E.Utf8;
    if Fits(q, ch, name) {
      var p := ParseParts(ch.topic).value;
      PartsPrintBack(ch.topic);
      ConsistentExact(ch.topic, p, ch.metadata, StoredFingerprint(ch.schema.value).value);
      assert LooksRecorded(ch, p);
    }
    if p :| LooksRecorded(ch, p) && Publishes(q, name, p.ty) {
      PartsRoundTrip(p.domain, p.source, p.port, p.ty);
      ConsistentExact(ch.topic, p, ch.metadata, StoredFingerprint(ch.schema.value).value);
    }
  }

  /** A channel of a recording carries consistent metadata and the fingerprint of the schema stored with it. */
  lemma RecordedChannel(r: RecordChannels, key: string)
    requires r.Coherent() && key in r.channels
    ensures key in r.written && key in r.contracts
    ensures var ch := r.written[key];
            && ch.topic == key && ch.encoding == "protobuf" && ParseParts(key).Some?
            && ch.schema.Some? && ch.schema.value.name == r.contracts[key].typeName
            && ch.schema.value.encoding == "protobuf"
            && MetadataConsistent(key, ParseParts(key).value, ch.metadata)
            && RecordedFingerprint(ch.metadata) == StoredFingerprint(ch.schema.value) == Some(r.fingerprints[key])
  {
    hide ParseParts, Hex, ParseHex, LogFiled, NextNumbers, Agreement, DeclaredContracts, SourcesValid;
    hide E.WholeFingerprint, E.Utf8;
    FingerprintReads(r.fingerprints[key]);
  }

  /** A channel of a recording fits exactly the outputs that publish its declared type. */
  lemma RecordedPlays(r: RecordChannels, key: string, q: Request, name: string)
    requires r.Coherent() && key in r.channels
    ensures key in r.written && key in r.contracts
    ensures Fits(q, r.written[key], name) <==> Publishes(q, name, r.contracts[key].typeName)
  {
    RecordedChannel(r, key);
    DeclaredType(r, key);
    hide ParseParts, Print, Valid, MetadataConsistent, RecordedFingerprint, StoredFingerprint, LiveKey;
    hide LogFiled, NextNumbers, Agreement, DeclaredContracts, SourcesValid, Described, Learned;
  }

  /** The finished bag holds the recording's channels, each under the number the writer gave it. */
  ghost predicate Holds(r: RecordChannels, channels: map<nat, Channel>)
    reads r
  {
    && (forall k :: k in r.channels ==>
          k in r.written && r.channels[k].0 in channels && channels[r.channels[k].0] == r.written[k])
    && (forall id: nat :: id in channels ==> exists k :: k in r.channels && r.channels[k].0 == id)
  }

  /** The mappings pair the recorded keys that are wanted with the declared outputs, type for type. */
  ghost predicate Pairs(r: RecordChannels, q: Request, mappings: map<string, string>)
    reads r
  {
    && (forall k :: k in r.channels && Wanted(q.filter, k) ==>
          k in mappings && k in r.contracts && Publishes(q, mappings[k], r.contracts[k].typeName))
    && (exists k :: k in r.channels && Wanted(q.filter, k))
    && (forall k :: k in mappings ==> k in r.channels && Wanted(q.filter, k))
    && OutputsMapped(q, mappings)
  }

  /** The channel numbered `id` is its topic's, and fits the outputs that publish the topic's type. */
  ghost predicate Matched(r: RecordChannels, ch: Channel, id: nat, q: Request)
    reads r
  {
    && ch.topic in r.channels && r.channels[ch.topic].0 == id && ch.topic in r.contracts
    && (forall name :: Fits(q, ch, name) <==> Publishes(q, name, r.contracts[ch.topic].typeName))
  }

  lemma HeldMatched(r: RecordChannels, channels: map<nat, Channel>, q: Request, id: nat)
    requires r.Coherent() && Holds(r, channels) && id in channels
    ensures Matched(r, channels[id], id, q)
  {
    hide Fits, Publishes, ParseParts, MetadataConsistent, RecordedFingerprint, StoredFingerprint;
    hide RecordChannels.Coherent;
    var k :| k in r.channels && r.channels[k].0 == id;
    RecordedChannel(r, k);
    forall name ensures Fits(q, channels[id], name) <==> Publishes(q, name, r.contracts[k].typeName) {
      RecordedPlays(r, k, q, name);
    }
  }

  ghost predicate AllMatched(r: RecordChannels, channels: map<nat, Channel>, q: Request)
    reads r
  {
    && (forall id: nat :: id in channels ==> Matched(r, channels[id], id, q))
    && (forall k :: k in r.channels ==> r.channels[k].0 in channels && channels[r.channels[k].0].topic == k)
  }

  lemma HeldAllMatched(r: RecordChannels, channels: map<nat, Channel>, q: Request)
    requires r.Coherent() && Holds(r, channels)
    ensures AllMatched(r, channels, q)
  {
    hide Matched, ParseParts, MetadataConsistent, RecordedFingerprint, StoredFingerprint, RecordChannels.Coherent;
    forall id: nat | id in channels ensures Matched(r, channels[id], id, q) { HeldMatched(r, channels, q, id); }
    forall k | k in r.channels ensures r.channels[k].0 in channels && channels[r.channels[k].0].topic == k {
      RecordedChannel(r, k);
    }
  }

  lemma MatchedFit(r: RecordChannels, channels: map<nat, Channel>, q: Request, mappings: map<string, string>)
    requires AllMatched(r, channels, q)
    ensures ChannelsFit(q, channels, mappings, channels.Keys) <==>
            forall k :: k in r.channels && Wanted(q.filter, k) ==>
              k in mappings && k in r.contracts && Publishes(q, mappings[k], r.contracts[k].typeName)
  {
    hide Fits, Publishes, Wanted;
    forall k | k in r.channels ensures Wanted(q.filter, k) <==> Chosen(q, channels, r.channels[k].0) {}
  }

  /** A finished recording can be played exactly when the mappings pair its wanted keys with the declared outputs. */
  lemma RecordingPlays(r: RecordChannels, channels: map<nat, Channel>, q: Request, mappings: map<string, string>)
    requires r.Coherent() && Holds(r, channels)
    ensures PairsOff(q, channels, mappings) <==> Pairs(r, q, mappings)
  {
    hide RecordChannels.Coherent, Holds, ChannelsFit, Publishes, Wanted, OutputsMapped, Fits;
    HeldAllMatched(r, channels, q);
    MatchedFit(r, channels, q, mappings);
    forall k | k in r.channels ensures Wanted(q.filter, k) <==> Chosen(q, channels, r.channels[k].0) {}
  }
}
