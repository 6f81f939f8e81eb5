/** Runtime module bindings: what a resolved contract must satisfy, and the single-pass check that decides it. */
module Bindings {
  import opened Prelude
  import opened Text
  import opened Keys

  datatype PortKind = Stream | Rpc
  datatype Qos = DefaultQos | Command | Sensor
  datatype Retention = Volatile | RetainLast
  datatype ReplayPolicy = Live | ReplayLast
  datatype Buffer = Fifo | Latest(depth: nat)

  datatype Contract = Contract(
    semantics: map<string, string>,
    typeName: string,
    kind: PortKind,
    response: Option<string>,
    qos: Qos,
    retention: Retention,
    replay: ReplayPolicy,
    buffer: Buffer)

  datatype Address = Address(namespace: string, port: string)
  datatype InputBinding = InputBinding(contract: Contract, sources: seq<Address>)
  datatype Delegation = Delegation(inputs: seq<string>, outputs: seq<string>)

  datatype ModuleBindings = ModuleBindings(
    version: nat,
    namespace: string,
    endpointNamespace: string,
    inputs: map<string, InputBinding>,
    outputs: map<string, Contract>,
    children: map<string, Delegation>,
    executables: seq<string>)

  const VERSION := 3

  // ----- contracts -----

  predicate Blank(s: string) {
    forall i :: 0 <= i < |s| ==> IsWhitespace(s[i])
  }

  predicate TypeChar(c: char) {
    'a' <= c <= 'z' || 'A' <= c <= 'Z' || '0' <= c <= '9' || c == '_'
  }

  predicate TypePart(s: string) {
    s != "" && forall i :: 0 <= i < |s| ==> TypeChar(s[i])
  }

  predicate TypeName(s: string) {
    forall i :: 0 <= i < |Split(s, '.')| ==> TypePart(Split(s, '.')[i])
  }

  predicate SemanticsStated(semantics: map<string, string>) {
    forall k :: k in semantics ==> !Blank(k) && !Blank(semantics[k])
  }

  /** A concrete endpoint: named types, and each policy on the side that owns it. */
  predicate ContractValid(c: Contract, input: bool) {
    && SemanticsStated(c.semantics)
    && TypeName(c.typeName)
    && c.buffer != Latest(0)
    && (input ==> c.qos == DefaultQos && c.retention == Volatile)
    && (!input ==> c.replay == Live && c.buffer == Fifo)
    && (match c.kind
        case Stream => c.response.None?
        case Rpc =>
          && c.response.Some? && TypeName(c.response.value)
          && c.qos == DefaultQos && c.retention == Volatile && c.replay == Live && c.buffer == Fifo)
  }

  /** Letters, digits and underscores, in parts between single dots. */
  ghost predicate Dotted(s: string) {
    && s != "" && s[0] != '.' && s[|s| - 1] != '.'
    && (forall i :: 0 <= i < |s| ==> TypeChar(s[i]) || s[i] == '.')
    && (forall i :: 0 <= i < |s| - 1 ==> s[i] != '.' || s[i + 1] != '.')
  }

  lemma {:induction false} TypeNameExact(s: string)
    ensures TypeName(s) <==> Dotted(s)
    decreases |s|
  {
    if '.' !in s {
      SplitFree(s, '.');
      assert forall c: string :: c in [s] ==> c == s;
      assert TypeName(s) <==> TypePart([s][0]);
      assert forall i :: 0 <= i < |s| ==> s[i] in s;
    } else {
      FirstDot(s);
      var k :| 0 <= k < |s| && s[k] == '.' && '.' !in s[..k];
      var a, rest := s[..k], s[k + 1..];
      assert s == a + ['.'] + rest;
      SplitHead(a, '.', rest);
      TypeNameExact(rest);
      TypeNameParts(s, a, rest);
      DottedParts(s, a, rest);
    }
  }

  lemma {:induction false} FirstDot(s: string)
    requires '.' in s
    ensures exists k :: 0 <= k < |s| && s[k] == '.' && '.' !in s[..k]
  {
    if s[0] == '.' {
      assert '.' !in s[..0];
    } else {
      FirstDot(s[1..]);
      var k :| 0 <= k < |s[1..]| && s[1..][k] == '.' && '.' !in s[1..][..k];
      assert s[k + 1] == '.' && s[..k + 1] == [s[0]] + s[1..][..k];
    }
  }

  lemma TypeNameParts(s: string, a: string, rest: string)
    requires Split(s, '.') == [a] + Split(rest, '.')
    ensures TypeName(s) <==> TypePart(a) && TypeName(rest)
  {
    hide Split, TypePart;
    var pieces, tail := Split(s, '.'), Split(rest, '.');
    if TypeName(s) {
      assert TypePart(pieces[0]);
      forall i | 0 <= i < |tail| ensures TypePart(tail[i]) { assert TypePart(pieces[i + 1]); }
    }
  }

  lemma DottedParts(s: string, a: string, rest: string)
    requires s == a + ['.'] + rest && '.' !in a
    ensures Dotted(s) <==> TypePart(a) && Dotted(rest)
  {
    var n := |a|;
    assert s[n] == '.' && (forall i :: 0 <= i < n ==> s[i] == a[i] && a[i] in a);
    assert forall i :: 0 <= i < |rest| ==> s[n + 1 + i] == rest[i];
    if Dotted(s) {
      assert n > 0 && |rest| > 0 && rest[0] != '.';
      forall i | 0 <= i < |rest| ensures TypeChar(rest[i]) || rest[i] == '.' { assert s[n + 1 + i] == rest[i]; }
      forall i | 0 <= i < |rest| - 1 ensures rest[i] != '.' || rest[i + 1] != '.' {
        assert s[n + 1 + i] == rest[i] && s[n + 1 + i + 1] == rest[i + 1];
      }
      forall i | 0 <= i < n ensures TypeChar(a[i]) { assert s[i] != '.'; }
    }
    if TypePart(a) && Dotted(rest) {
      forall i | 0 <= i < |s| ensures TypeChar(s[i]) || s[i] == '.' {
        if i > n { assert s[i] == rest[i - n - 1]; }
      }
      forall i | 0 <= i < |s| - 1 ensures s[i] != '.' || s[i + 1] != '.' {
        if i > n { assert s[i] == rest[i - n - 1] && s[i + 1] == rest[i - n]; }
      }
    }
  }

  /** Resetting the policies of the other side changes nothing: a contract states only those of its own. */
  lemma PoliciesOwned(c: Contract, input: bool)
    ensures ContractValid(c, input) <==>
            && TypeName(c.typeName) && SemanticsStated(c.semantics) && c.buffer != Latest(0)
            && (c.kind == Rpc ==> c.response.Some? && TypeName(c.response.value))
            && (c.kind == Stream ==> c.response.None?)
            && (input || c.kind == Rpc ==> c == c.(qos := DefaultQos, retention := Volatile))
            && (!input || c.kind == Rpc ==> c == c.(replay := Live, buffer := Fifo))
  {}

  predicate AddressValid(a: Address) {
    Namespace(a.namespace) && Ordinary(a.port)
  }

  /** What inputs that share a source address must agree on. */
  datatype Shape = Shape(typeName: string, response: Option<string>, rpc: bool, semantics: map<string, string>)

  function ShapeOf(c: Contract): Shape {
    Shape(c.typeName, c.response, c.kind == Rpc, c.semantics)
  }

  // ----- the declarative contract -----

  ghost predicate InputSound(name: string, p: InputBinding) {
    && Ordinary(name) && ContractValid(p.contract, true)
    && p.sources != [] && (p.contract.kind == Rpc ==> |p.sources| == 1)
    && (forall i :: 0 <= i < |p.sources| ==> AddressValid(p.sources[i])) && NoRepeats(p.sources)
  }

  /** One contract per source address, over all inputs. */
  ghost predicate SourcesAgree(inputs: map<string, InputBinding>) {
    forall m, n, a :: m in inputs && n in inputs && a in inputs[m].sources && a in inputs[n].sources ==>
      ShapeOf(inputs[m].contract) == ShapeOf(inputs[n].contract)
  }

  function Ports(d: Delegation, input: bool): seq<string> {
    if input then d.inputs else d.outputs
  }

  /** Each endpoint is delegated at most once over all children. */
  ghost predicate Exclusive(children: map<string, Delegation>) {
    && (forall c, input :: c in children ==> NoRepeats(Ports(children[c], input)))
    && (forall c, e, input, p ::
          (c in children && e in children && p in Ports(children[c], input) && p in Ports(children[e], input)) ==>
          c == e)
  }

  ghost predicate ChildSound(b: ModuleBindings, name: string, d: Delegation) {
    && Ordinary(name)
    && (forall p :: p in d.inputs ==> p in b.inputs) && (forall p :: p in d.outputs ==> p in b.outputs)
  }

  ghost predicate OwnedBy(namespace: string, host: string) {
    exists child :: child != "" && '/' !in child && namespace == host + "/owned/" + child
  }

  ghost predicate Sound(b: ModuleBindings) {
    && b.version == VERSION
    && Namespace(b.namespace) && Namespace(b.endpointNamespace)
    && (b.namespace == b.endpointNamespace || (OwnedBy(b.namespace, b.endpointNamespace) && b.children == map[]))
    && (forall i :: 0 <= i < |b.executables| ==> Ordinary(b.executables[i])) && NoRepeats(b.executables)
    && (forall n :: n in b.inputs ==> InputSound(n, b.inputs[n])) && SourcesAgree(b.inputs)
    && (forall n :: n in b.outputs ==> Ordinary(n) && ContractValid(b.outputs[n], false))
    && (forall c :: c in b.children ==> ChildSound(b, c, b.children[c])) && Exclusive(b.children)
  }

  // ----- the check -----

  method Validate(b: ModuleBindings) returns (ok: bool)
    ensures ok <==> Sound(b)
  {
    hide Namespace, Ordinary, InputSound, SourcesAgree, ContractValid, ChildSound, Exclusive, NoRepeats;
    if b.version != VERSION || !Namespace(b.namespace) || !Namespace(b.endpointNamespace) { return false; }
    var owned := b.endpointNamespace + "/owned/";
    var child := if owned <= b.namespace then b.namespace[|owned|..] else "";
    OwnedPrefix(b.namespace, b.endpointNamespace);
    if !(b.namespace == b.endpointNamespace || (owned <= b.namespace && child != "" && '/' !in child)) { return false; }
    if !(b.namespace == b.endpointNamespace || b.children == map[]) { return false; }
    ok := ValidateExecutables(b.executables);
    if !ok { return; }
    ok := ValidateInputs(b.inputs);
    if !ok { return; }
    ok := ValidateOutputs(b.outputs);
    if !ok { return; }
    ok := ValidateDelegations(b);
  }

  lemma OwnedPrefix(namespace: string, host: string)
    ensures var owned := host + "/owned/";
            OwnedBy(namespace, host) <==>
              owned <= namespace && namespace[|owned|..] != "" && '/' !in namespace[|owned|..]
  {
    var owned := host + "/owned/";
    if owned <= namespace {
      var child := namespace[|owned|..];
      assert namespace == owned + child;
      if OwnedBy(namespace, host) {
        var other :| other != "" && '/' !in other && namespace == host + "/owned/" + other;
        assert namespace[|owned|..] == other;
      }
    }
  }

  method ValidateExecutables(executables: seq<string>) returns (ok: bool)
    ensures ok <==> (forall i :: 0 <= i < |executables| ==> Ordinary(executables[i])) && NoRepeats(executables)
  {
    hide Ordinary;
    var seen: set<string> := {};
    for i := 0 to |executables|
      invariant forall k :: 0 <= k < i ==> Ordinary(executables[k]) && executables[k] in seen
      invariant forall e :: e in seen ==> e in executables[..i]
      invariant NoRepeats(executables[..i])
    {
      if !Ordinary(executables[i]) { return false; }
      if executables[i] in seen {
        var k :| 0 <= k < i && executables[..i][k] == executables[i];
        assert executables[k] == executables[i];
        return false;
      }
      assert executables[..i + 1] == executables[..i] + [executables[i]];
      seen := seen + {executables[i]};
    }
    assert executables[..|executables|] == executables;
    ok := true;
  }

  method ValidateOutputs(outputs: map<string, Contract>) returns (ok: bool)
    ensures ok <==> forall n :: n in outputs ==> Ordinary(n) && ContractValid(outputs[n], false)
  {
    hide Ordinary, ContractValid;
    var rest := outputs.Keys;
    while rest != {}
      invariant rest <= outputs.Keys
      invariant forall n :: n in outputs && n !in rest ==> Ordinary(n) && ContractValid(outputs[n], false)
    {
      var n :| n in rest;
      if !Ordinary(n) || !ContractValid(outputs[n], false) { return false; }
      rest := rest - {n};
    }
    ok := true;
  }

  // ----- inputs -----

  /** The address map after the inputs in `done`: their sources, each with its input's shape. */
  ghost predicate Recorded(inputs: map<string, InputBinding>, done: set<string>, addresses: map<Address, Shape>) {
    && done <= inputs.Keys
    && (forall n, a :: n in done && a in inputs[n].sources ==>
          a in addresses && addresses[a] == ShapeOf(inputs[n].contract))
    && (forall a :: a in addresses ==> exists n :: n in done && a in inputs[n].sources)
  }

  method ValidateInputs(inputs: map<string, InputBinding>) returns (ok: bool)
    ensures ok <==> (forall n :: n in inputs ==> InputSound(n, inputs[n])) && SourcesAgree(inputs)
  {
    var addresses: map<Address, Shape> := map[];
    var rest := inputs.Keys;
    while rest != {}
      invariant rest <= inputs.Keys && Recorded(inputs, inputs.Keys - rest, addresses)
      invariant forall n :: n in inputs && n !in rest ==> InputSound(n, inputs[n])
    {
      hide Recorded, InputSound, SourcesAgree;
      var name :| name in rest;
      ghost var before := addresses;
      var clash;
      ok, clash, addresses := ValidateInput(name, inputs[name], addresses);
      if clash {
        ClashDisagrees(inputs, inputs.Keys - rest, before, name);
        return false;
      }
      if !ok { return false; }
      RecordedMore(inputs, inputs.Keys - rest, before, name, addresses);
      assert inputs.Keys - (rest - {name}) == (inputs.Keys - rest) + {name};
      rest := rest - {name};
    }
    assert inputs.Keys - {} == inputs.Keys;
    RecordedAgree(inputs, addresses);
    ok := true;
  }

  /** One input: its own checks, and its sources entered in the address map unless one is there with another shape. */
  method ValidateInput(name: string, p: InputBinding, addresses: map<Address, Shape>)
    returns (ok: bool, clash: bool, addresses': map<Address, Shape>)
    ensures clash ==> exists a :: a in p.sources && a in addresses && addresses[a] != ShapeOf(p.contract)
    ensures !clash ==> (ok <==> InputSound(name, p))
    ensures !clash && ok ==>
              && (forall a :: a in addresses' <==> a in addresses || a in p.sources)
              && (forall a :: a in p.sources ==> addresses'[a] == ShapeOf(p.contract))
              && (forall a :: a in addresses ==> addresses'[a] == addresses[a])
  {
    hide Ordinary, ContractValid, AddressValid;
    clash, addresses' := false, addresses;
    if !Ordinary(name) || !ContractValid(p.contract, true) || p.sources == [] { return false, false, addresses; }
    if p.contract.kind == Rpc && |p.sources| != 1 { return false, false, addresses; }
    var unique: set<Address> := {};
    for i := 0 to |p.sources|
      invariant forall a :: a in unique <==> a in p.sources[..i]
      invariant NoRepeats(p.sources[..i]) && forall k :: 0 <= k < i ==> AddressValid(p.sources[k])
      invariant forall a :: a in addresses' <==> a in addresses || a in unique
      invariant forall a :: a in unique ==> addresses'[a] == ShapeOf(p.contract)
      invariant forall a :: a in addresses ==> addresses'[a] == addresses[a]
    {
      var source := p.sources[i];
      if !AddressValid(source) { return false, false, addresses'; }
      if source in unique {
        var k :| 0 <= k < i && p.sources[..i][k] == source;
        assert p.sources[k] == p.sources[i];
        return false, false, addresses';
      }
      assert p.sources[..i + 1] == p.sources[..i] + [source];
      if source in addresses' && addresses'[source] != ShapeOf(p.contract) { return false, true, addresses'; }
      addresses' := addresses'[source := ShapeOf(p.contract)];
      unique := unique + {source};
    }
    assert p.sources[..|p.sources|] == p.sources;
    ok := true;
  }

  lemma RecordedAgree(inputs: map<string, InputBinding>, addresses: map<Address, Shape>)
    requires Recorded(inputs, inputs.Keys, addresses)
    ensures SourcesAgree(inputs)
  {
    forall m, n, a | m in inputs && n in inputs && a in inputs[m].sources && a in inputs[n].sources
      ensures ShapeOf(inputs[m].contract) == ShapeOf(inputs[n].contract)
    {
      assert addresses[a] == ShapeOf(inputs[m].contract);
    }
  }

  lemma ClashDisagrees(inputs: map<string, InputBinding>, done: set<string>, addresses: map<Address, Shape>,
                       name: string)
    requires Recorded(inputs, done, addresses) && name in inputs
    requires exists a :: a in inputs[name].sources && a in addresses && addresses[a] != ShapeOf(inputs[name].contract)
    ensures !SourcesAgree(inputs)
  {
    var a :| a in inputs[name].sources && a in addresses && addresses[a] != ShapeOf(inputs[name].contract);
    var n :| n in done && a in inputs[n].sources;
  }

  lemma RecordedMore(inputs: map<string, InputBinding>, done: set<string>, addresses: map<Address, Shape>, name: string,
                     addresses': map<Address, Shape>)
    requires Recorded(inputs, done, addresses) && name in inputs
    requires addresses'.Keys == addresses.Keys + (set a | a in inputs[name].sources)
    requires forall a :: a in inputs[name].sources ==> addresses'[a] == ShapeOf(inputs[name].contract)
    requires forall a :: a in addresses ==> addresses'[a] == addresses[a]
    ensures Recorded(inputs, done + {name}, addresses')
  {
    forall a | a in addresses' ensures exists n :: n in done + {name} && a in inputs[n].sources {
      if a in addresses {
        var n :| n in done && a in inputs[n].sources;
        assert n in done + {name};
      } else {
        assert name in done + {name} && a in inputs[name].sources;
      }
    }
  }

  // ----- delegations -----

  /** The endpoints claimed by the children in `done`, each by one child only. */
  ghost predicate Claimed(b: ModuleBindings, done: set<string>, delegated: set<(string, bool)>) {
    && done <= b.children.Keys
    && (forall c :: c in done ==> ChildSound(b, c, b.children[c]))
    && (forall c, input :: c in done ==> NoRepeats(Ports(b.children[c], input)))
    && (forall c, e, input, p ::
          (c in done && e in done && p in Ports(b.children[c], input) && p in Ports(b.children[e], input)) ==> c == e)
    && (forall p, input :: (p, input) in delegated <==> exists c :: c in done && p in Ports(b.children[c], input))
  }

  method ValidateDelegations(b: ModuleBindings) returns (ok: bool)
    ensures ok <==> (forall c :: c in b.children ==> ChildSound(b, c, b.children[c])) && Exclusive(b.children)
  {
    var delegated: set<(string, bool)> := {};
    var rest := b.children.Keys;
    while rest != {}
      invariant rest <= b.children.Keys && Claimed(b, b.children.Keys - rest, delegated)
    {
      hide Claimed, Ordinary, ChildSound, Exclusive, NoRepeats;
      var name :| name in rest;
      var child := b.children[name];
      ghost var before := delegated;
      if !Ordinary(name) { BadName(b, name); return false; }
      ok, delegated := Claim(child.inputs, true, b.inputs.Keys, delegated);
      if !ok { Refused(b, b.children.Keys - rest, before, name, true); return false; }
      ghost var middle := delegated;
      ok, delegated := Claim(child.outputs, false, b.outputs.Keys, delegated);
      if !ok { Refused(b, b.children.Keys - rest, before, name, false); return false; }
      ClaimedMore(b, b.children.Keys - rest, before, name, delegated);
      assert b.children.Keys - (rest - {name}) == (b.children.Keys - rest) + {name};
      rest := rest - {name};
    }
    assert b.children.Keys - {} == b.children.Keys;
    ok := true;
  }

  ghost function Claims(ports: seq<string>, input: bool): set<(string, bool)> {
    set p | p in ports :: (p, input)
  }

  method Claim(ports: seq<string>, input: bool, defined: set<string>, delegated: set<(string, bool)>)
    returns (ok: bool, delegated': set<(string, bool)>)
    ensures ok <==>
            && (forall p :: p in ports ==> p in defined) && NoRepeats(ports)
            && (forall p :: p in ports ==> (p, input) !in delegated)
    ensures ok ==> delegated' == delegated + Claims(ports, input)
  {
    delegated' := delegated;
    for i := 0 to |ports|
      invariant forall k :: 0 <= k < i ==> ports[k] in defined && (ports[k], input) !in delegated
      invariant NoRepeats(ports[..i])
      invariant delegated' == delegated + Claims(ports[..i], input)
    {
      assert ports[..i + 1] == ports[..i] + [ports[i]];
      if ports[i] !in defined { return false, delegated'; }
      if (ports[i], input) in delegated' {
        if (ports[i], input) !in delegated {
          var k :| 0 <= k < i && ports[..i][k] == ports[i];
          assert ports[k] == ports[i];
        }
        return false, delegated';
      }
      delegated' := delegated' + {(ports[i], input)};
    }
    assert ports[..|ports|] == ports;
    ok := true;
  }

  lemma BadName(b: ModuleBindings, name: string)
    requires name in b.children && !Ordinary(name)
    ensures exists c :: c in b.children && !ChildSound(b, c, b.children[c])
  {
    assert !ChildSound(b, name, b.children[name]);
  }

  /** A child whose claim is refused breaks the contract. */
  lemma Refused(b: ModuleBindings, done: set<string>, delegated: set<(string, bool)>, name: string, input: bool)
    requires Claimed(b, done, delegated) && name in b.children && name !in done
    requires var ports := Ports(b.children[name], input);
             !((forall p :: p in ports ==> p in if input then b.inputs.Keys else b.outputs.Keys) && NoRepeats(ports)
               && forall p :: p in ports ==> (p, input) !in delegated)
    ensures !((forall c :: c in b.children ==> ChildSound(b, c, b.children[c])) && Exclusive(b.children))
  {
    var ports := Ports(b.children[name], input);
    if p :| p in ports && (p, input) in delegated {
      var c :| c in done && p in Ports(b.children[c], input);
      assert c in b.children && c != name;
    }
  }

  lemma ClaimedMore(b: ModuleBindings, done: set<string>, delegated: set<(string, bool)>, name: string,
                    delegated': set<(string, bool)>)
    requires Claimed(b, done, delegated) && name in b.children && name !in done && Ordinary(name)
    requires forall p :: p in b.children[name].inputs ==> p in b.inputs && (p, true) !in delegated
    requires forall p :: p in b.children[name].outputs ==> p in b.outputs && (p, false) !in delegated
    requires NoRepeats(b.children[name].inputs) && NoRepeats(b.children[name].outputs)
    requires delegated' == delegated + Claims(b.children[name].inputs, true) + Claims(b.children[name].outputs, false)
    ensures Claimed(b, done + {name}, delegated')
  {
    var done' := done + {name};
    hide Ordinary;
    forall p, input ensures (p, input) in delegated' <==> exists c :: c in done' && p in Ports(b.children[c], input) {
      if (p, input) in delegated' {
        if (p, input) in delegated {
          var c :| c in done && p in Ports(b.children[c], input);
          assert c in done';
        } else {
          assert name in done' && p in Ports(b.children[name], input);
        }
      }
    }
    forall c, e, input, p |
      c in done' && e in done' && p in Ports(b.children[c], input) && p in Ports(b.children[e], input)
      ensures c == e
    {
      if c in done { assert (p, input) in delegated; }
      if e in done { assert (p, input) in delegated; }
    }
  }
}
