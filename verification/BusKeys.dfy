/** The keys a command-line operation uses for a declared endpoint. */
module BusKeys {
  import opened Prelude
  import opened Keys
  import opened KeyText
  import opened Bindings

  predicate Wanted(a: Address, source: Option<string>) {
    source.None? || source.value == a.namespace
  }

  function Filtered(sources: seq<Address>, source: Option<string>): seq<Address> {
    if sources == [] then []
    else
      var front, last := sources[..|sources| - 1], sources[|sources| - 1];
      Filtered(front, source) + (if Wanted(last, source) then [last] else [])
  }

  function SourceKey(domain: string, p: InputBinding, a: Address): Key {
    OutputKey(domain, a.namespace, a.port, p.contract.typeName)
  }

  function KeysOf(domain: string, p: InputBinding, sources: seq<Address>): seq<string> {
    seq(|sources|, i requires 0 <= i < |sources| => Print(SourceKey(domain, p, sources[i])))
  }

  /** The keys of an input's sources, or of the one source asked for. */
  function InputKeys(b: ModuleBindings, domain: string, name: string, kind: PortKind,
                     source: Option<string>): Result<seq<string>>
  {
    if name !in b.inputs || b.inputs[name].contract.kind != kind then Err
    else
      var p := b.inputs[name];
      if source.Some? && !(exists i :: 0 <= i < |p.sources| && p.sources[i].namespace == source.value) then Err
      else
        var chosen := Filtered(p.sources, source);
        if exists i :: 0 <= i < |chosen| && !Valid(SourceKey(domain, p, chosen[i])) then Err
        else Ok(KeysOf(domain, p, chosen))
  }

  lemma {:induction false} FilteredElements(sources: seq<Address>, source: Option<string>)
    ensures forall a :: a in Filtered(sources, source) <==> a in sources && Wanted(a, source)
    ensures NoRepeats(sources) ==> NoRepeats(Filtered(sources, source))
  {
    if sources != [] {
      var front := sources[..|sources| - 1];
      FilteredElements(front, source);
      assert sources == front + [sources[|sources| - 1]];
      assert NoRepeats(sources) ==> NoRepeats(front) && sources[|sources| - 1] !in front;
    }
  }

  ghost predicate FoundFor(keys: seq<string>, domain: string, p: InputBinding, source: Option<string>) {
    && (forall a :: a in p.sources && (source.None? || a.namespace == source.value) ==>
          Print(SourceKey(domain, p, a)) in keys)
    && (forall i :: 0 <= i < |keys| ==> FoundAt(keys[i], domain, p, source))
  }

  ghost predicate FoundAt(key: string, domain: string, p: InputBinding, source: Option<string>) {
    exists a ::
      ReadsAs(key, domain, p, a) && a in p.sources && (source.None? || a.namespace == source.value)
  }

  /** Keys are found for exactly the wanted sources, and each reads back as its own source. */
  lemma InputKeysRead(b: ModuleBindings, domain: string, name: string, kind: PortKind, source: Option<string>)
    requires InputKeys(b, domain, name, kind, source).Ok?
    ensures FoundFor(InputKeys(b, domain, name, kind, source).value, domain, b.inputs[name], source)
    ensures source.Some? ==> InputKeys(b, domain, name, kind, source).value != []
  {
    hide Print, Valid, FoundFor, Filtered;
    var p := b.inputs[name];
    var chosen := Filtered(p.sources, source);
    FilteredElements(p.sources, source);
    ChosenKeys(domain, p, chosen, source);
    if source.Some? {
      var i :| 0 <= i < |p.sources| && p.sources[i].namespace == source.value;
      assert p.sources[i] in chosen;
    }
  }

  lemma ChosenKeys(domain: string, p: InputBinding, chosen: seq<Address>, source: Option<string>)
    requires forall a :: a in chosen <==> a in p.sources && Wanted(a, source)
    requires forall i :: 0 <= i < |chosen| ==> Valid(SourceKey(domain, p, chosen[i]))
    ensures FoundFor(KeysOf(domain, p, chosen), domain, p, source)
  {
    hide Print, Valid, ReadsAs;
    var keys := KeysOf(domain, p, chosen);
    forall a | a in p.sources && Wanted(a, source) ensures Print(SourceKey(domain, p, a)) in keys {
      var i :| 0 <= i < |chosen| && chosen[i] == a;
      assert keys[i] == Print(SourceKey(domain, p, a));
    }
    forall i | 0 <= i < |keys| ensures FoundAt(keys[i], domain, p, source) {
      KeyReads(domain, p, chosen[i]);
      assert chosen[i] in chosen;
      assert ReadsAs(keys[i], domain, p, chosen[i]);
    }
  }

  lemma KeyReads(domain: string, p: InputBinding, a: Address)
    requires Valid(SourceKey(domain, p, a))
    ensures ReadsAs(Print(SourceKey(domain, p, a)), domain, p, a)
  {
    hide Print, Valid, Parse, ParseParts, KeySource;
    PartsRoundTrip(domain, a.namespace, a.port, p.contract.typeName);
    ParsePrint(SourceKey(domain, p, a));
    KeySourceExact(Print(SourceKey(domain, p, a)));
  }

  /** The key's parts and its source text are those of address `a`. */
  ghost predicate ReadsAs(key: string, domain: string, p: InputBinding, a: Address) {
    && ParseParts(key) == Some(KeyParts(domain, a.namespace, a.port, p.contract.typeName))
    && KeySource(key) == a.namespace
  }

  /** Distinct sources of one input have distinct keys. */
  lemma InputKeysDistinct(b: ModuleBindings, domain: string, name: string, kind: PortKind, source: Option<string>)
    requires Sound(b) && InputKeys(b, domain, name, kind, source).Ok?
    ensures NoRepeats(InputKeys(b, domain, name, kind, source).value)
  {
    hide Print, Valid;
    var p, chosen, keys :=
      b.inputs[name], Filtered(b.inputs[name].sources, source), InputKeys(b, domain, name, kind, source).value;
    assert InputSound(name, p);
    FilteredElements(p.sources, source);
    forall i, j | 0 <= i < j < |keys| ensures keys[i] != keys[j] {
      SourcesDistinct(domain, chosen[i].namespace, chosen[i].port, chosen[j].namespace, chosen[j].port,
                      p.contract.typeName);
    }
  }

  // ----- accepted bindings always have keys -----

  /** A type name is a key segment. */
  lemma TypeNameOrdinary(s: string)
    requires TypeName(s)
    ensures Ordinary(s)
  {
    TypeNameExact(s);
    forall i | 0 <= i < |s| ensures !Forbidden(s[i]) { assert TypeChar(s[i]) || s[i] == '.'; }
  }

  lemma OutputValid(domain: string, namespace: string, port: string, ty: string)
    requires Ordinary(domain) && Namespace(namespace) && Ordinary(port) && Ordinary(ty)
    ensures Valid(OutputKey(domain, namespace, port, ty))
  {
    OrdinaryFree(ty);
    hide Namespace;
  }

  /** In accepted bindings every source and every output makes a valid key, in any proper domain. */
  lemma AcceptedKeysValid(b: ModuleBindings, domain: string)
    requires Sound(b) && Ordinary(domain)
    ensures forall n, a :: n in b.inputs && a in b.inputs[n].sources ==> Valid(SourceKey(domain, b.inputs[n], a))
    ensures forall n :: n in b.outputs ==>
              Valid(OutputKey(domain, b.endpointNamespace, n, b.outputs[n].typeName))
  {
    hide Ordinary, Namespace, TypeName, Valid;
    forall n, a | n in b.inputs && a in b.inputs[n].sources ensures Valid(SourceKey(domain, b.inputs[n], a)) {
      assert InputSound(n, b.inputs[n]);
      var i :| 0 <= i < |b.inputs[n].sources| && b.inputs[n].sources[i] == a;
      assert AddressValid(b.inputs[n].sources[i]);
      TypeNameOrdinary(b.inputs[n].contract.typeName);
      OutputValid(domain, a.namespace, a.port, b.inputs[n].contract.typeName);
    }
    forall n | n in b.outputs ensures Valid(OutputKey(domain, b.endpointNamespace, n, b.outputs[n].typeName)) {
      TypeNameOrdinary(b.outputs[n].typeName);
      OutputValid(domain, b.endpointNamespace, n, b.outputs[n].typeName);
    }
  }

  /** For accepted bindings the keys are found exactly for a declared input of the kind, and a source it has. */
  lemma InputKeysExact(b: ModuleBindings, domain: string, name: string, kind: PortKind, source: Option<string>)
    requires Sound(b) && Ordinary(domain)
    ensures InputKeys(b, domain, name, kind, source).Ok? <==>
            && name in b.inputs && b.inputs[name].contract.kind == kind
            && (source.Some? ==> exists a :: a in b.inputs[name].sources && a.namespace == source.value)
  {
    AcceptedKeysValid(b, domain);
    hide Sound, Valid, Print, Filtered, KeysOf;
    if name in b.inputs {
      var p := b.inputs[name];
      FilteredElements(p.sources, source);
      var chosen := Filtered(p.sources, source);
      forall i | 0 <= i < |chosen| ensures Valid(SourceKey(domain, p, chosen[i])) { assert chosen[i] in chosen; }
      if source.Some? { SourceNamed(p.sources, source.value); }
    }
  }

  lemma SourceNamed(sources: seq<Address>, namespace: string)
    ensures (exists i :: 0 <= i < |sources| && sources[i].namespace == namespace) <==>
            exists a :: a in sources && a.namespace == namespace
  {
    if i :| 0 <= i < |sources| && sources[i].namespace == namespace { assert sources[i] in sources; }
    if a :| a in sources && a.namespace == namespace { var i :| 0 <= i < |sources| && sources[i] == a; }
  }

  /** An accepted RPC input has one provider, so its call has one key. */
  lemma RpcHasOneKey(b: ModuleBindings, domain: string, name: string)
    requires Sound(b) && Ordinary(domain) && name in b.inputs && b.inputs[name].contract.kind == Rpc
    ensures b.inputs[name].sources != []
    ensures InputKeys(b, domain, name, Rpc, None) ==
            Ok([Print(SourceKey(domain, b.inputs[name], b.inputs[name].sources[0]))])
  {
    InputKeysExact(b, domain, name, Rpc, None);
    assert InputSound(name, b.inputs[name]);
    hide Print, Valid, Sound;
    var sources := b.inputs[name].sources;
    assert sources[..0] == [] && Filtered(sources[..0], None) == [];
    assert Filtered(sources, None) == [sources[0]];
    var key := Print(SourceKey(domain, b.inputs[name], sources[0]));
    assert KeysOf(domain, b.inputs[name], [sources[0]]) == [key];
  }
}
