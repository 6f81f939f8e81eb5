/** A descriptor set that pruning spoils: a message refers to a type in a file it does not import. */
module UnimportedType {
  import opened Prelude
  import opened Text
  import opened Order
  import opened Descriptor
  import opened SchemaRecord
  import opened Fingerprint
  import opened Lookup
  import opened Pruning
  import opened Graph

  const OUTER: Str := [65]
  const INNER: Str := [66]
  const REFERRING: Field := Field([98], 1, None, None, Some([DOT, 66]), None, None, None, None, None, false)
  const OUTER_MESSAGE: Message := Message(OUTER, [REFERRING], [], [], false, [], [], [], false, false)
  const INNER_MESSAGE: Message := Message(INNER, [], [], [], false, [], [], [], false, false)
  const OUTER_FILE: File := File([102], [], [], [OUTER_MESSAGE], [], PROTO3)
  const INNER_FILE: File := File([103], [], [], [INNER_MESSAGE], [], PROTO3)

  ghost function OuterOnly(): Definitions {
    map[OUTER := Located(OUTER_FILE, MessageDef(OUTER_MESSAGE))]
  }

  ghost function OuterAndInner(): Definitions {
    OuterOnly()[INNER := Located(INNER_FILE, MessageDef(INNER_MESSAGE))]
  }

  /** The file declares one message outside any package, with nothing nested in it. */
  predicate Lone(file: File, m: Message) {
    && file.package == [] && file.messages == [m] && file.enums == []
    && m.name != [] && m.nested == [] && m.enums == []
  }

  lemma OneDeclaration(file: File, m: Message)
    requires Lone(file, m)
    ensures FileDeclarations(file) == [Declaration(file, [m.name], MessageDef(m))]
  {
    assert ScopeDeclarations(file, [] + [m.name], [], []) == [];
    assert [m][1..] == [] && ScopeDeclarations(file, [], [], []) == [];
    assert [] + [m.name] == [m.name];
  }

  lemma FullAlone(name: Str)
    ensures Full([], [name]) == name
  {
    assert [name][..0] == [] && Full([], []) == [];
  }

  /** Indexing one more declaration under a new name. */
  lemma FillOne(d: Definitions, x: Declaration, rest: seq<Declaration>, name: Str)
    requires x.path == [name] && name != [] && x.file.package == [] && name !in d
    ensures Fill(d, [x] + rest) == Fill(d[name := Located(x.file, x.definition)], rest)
  {
    FullAlone(name);
    assert ([x] + rest)[1..] == rest;
  }

  lemma TwoDeclarations(f: File, m: Message, g: File, n: Message)
    requires Lone(f, m) && Lone(g, n)
    ensures Declarations([f]) == [Declaration(f, [m.name], MessageDef(m))]
    ensures Declarations([f, g]) == [Declaration(f, [m.name], MessageDef(m)), Declaration(g, [n.name], MessageDef(n))]
  {
    OneDeclaration(f, m);
    OneDeclaration(g, n);
    hide FileDeclarations;
    assert [f][1..] == [] && [f, g][1..] == [g] && [g][1..] == [];
  }

  lemma TwoIndexed(f: File, m: Message, g: File, n: Message)
    requires Lone(f, m) && Lone(g, n) && m.name != n.name
    ensures IndexOf([f]) == Some(map[m.name := Located(f, MessageDef(m))])
    ensures IndexOf([f, g]) == Some(map[m.name := Located(f, MessageDef(m)), n.name := Located(g, MessageDef(n))])
  {
    TwoDeclarations(f, m, g, n);
    hide Declarations, Fill;
    var a, b := Declaration(f, [m.name], MessageDef(m)), Declaration(g, [n.name], MessageDef(n));
    var one := map[m.name := Located(f, MessageDef(m))];
    var two := one[n.name := Located(g, MessageDef(n))];
    FillOne(map[], a, [], m.name);
    FillOne(map[], a, [b], m.name);
    FillOne(one, b, [], n.name);
    assert [a] + [] == [a] && [a] + [b] == [a, b] && [b] + [] == [b];
    FillNothing(one);
    FillNothing(two);
  }

  lemma ExampleLookup()
    ensures FindMessage([OUTER_FILE, INNER_FILE], OUTER) == Some((OUTER_FILE, OUTER_MESSAGE))
  {
    SplitFree(OUTER, DOT);
  }

  lemma ExampleRecords()
    ensures RecordOf(OuterAndInner(), OUTER).Some?
    ensures BodyReferences(RecordOf(OuterAndInner(), OUTER).value.body) == [INNER]
    ensures RecordOf(OuterAndInner(), INNER).Some? && RecordOf(OuterOnly(), OUTER).None?
  {
    var d, e := OuterAndInner(), OuterOnly();
    assert [DOT, 66][1..] == INNER && OUTER != INNER by { assert OUTER[0] != INNER[0]; }
    assert Sort([REFERRING], ByNumber) == [REFERRING] && Sort([], ByNumber) == [] by { assert [REFERRING][1..] == []; }
    assert FieldType(d, OUTER, REFERRING) == Some((MESSAGE, Some(INNER))) && FieldType(e, OUTER, REFERRING) == None;
    var f := FieldOf(d, OUTER, Proto3, OUTER_MESSAGE, REFERRING);
    assert f.Some? && f.value.reference == Some(INNER) && FieldOf(e, OUTER, Proto3, OUTER_MESSAGE, REFERRING).None?;
    assert FieldsDistinct([REFERRING]) && FieldsDistinct([]);
    var fields := FieldsOf(d, OUTER, Proto3, OUTER_MESSAGE, [REFERRING]);
    assert fields == [f.value] && fields[..0] == [];
    assert References(fields) == [INNER];
  }

  /** A field whose type lies in a file that is not imported: the whole set has a fingerprint, the pruned set fails. */
  lemma UnimportedTypeIsLost()
    ensures var files := [OUTER_FILE, INNER_FILE];
            && IndexOf(files).Some? && FindMessage(files, OUTER).Some? && Encodable(IndexOf(files).value, OUTER)
            && !ImportsReach(files, OUTER)
            && SubsetOf(files, OUTER) == Some([OUTER_FILE]) && IndexOf([OUTER_FILE]).Some?
            && FingerprintOf(IndexOf([OUTER_FILE]).value, OUTER) == Err
  {
    hide RecordOf, IndexOf, FindMessage, ImportsReach, Encodable, Closure, ImportClosure, Keep;
    assert OUTER[0] != INNER[0];
    TwoIndexed(OUTER_FILE, OUTER_MESSAGE, INNER_FILE, INNER_MESSAGE);
    ExampleLookup();
    ExampleWhole();
    ExamplePruned();
    ExampleKept();
  }

  lemma ExampleWhole()
    ensures Encodable(OuterAndInner(), OUTER) && INNER in Closure(OuterAndInner(), OUTER)
    ensures IndexOf([OUTER_FILE, INNER_FILE]).Some? && FindMessage([OUTER_FILE, INNER_FILE], OUTER).Some?
    ensures !ImportsReach([OUTER_FILE, INNER_FILE], OUTER)
  {
    var files, d := [OUTER_FILE, INNER_FILE], OuterAndInner();
    hide RecordOf, IndexOf, FindMessage, ImportClosure, BodyReferences;
    assert OUTER[0] != INNER[0];
    TwoIndexed(OUTER_FILE, OUTER_MESSAGE, INNER_FILE, INNER_MESSAGE);
    assert IndexOf(files) == Some(d);
    ExampleLookup();
    ExampleRecords();
    ExampleImports();
    ReachSelf(ReferenceGraph(d), OUTER);
    ReachSnoc(ReferenceGraph(d), OUTER, OUTER, INNER);
    assert !InImportedFile(files, OUTER_FILE.name, d, INNER);
  }

  lemma ExamplePruned()
    ensures FingerprintOf(OuterOnly(), OUTER) == Err
  {
    ExampleRecords();
    hide RecordOf;
    ReachSelf(ReferenceGraph(OuterOnly()), OUTER);
    assert OUTER in Closure(OuterOnly(), OUTER);
  }

  lemma ExampleKept()
    ensures Keep([OUTER_FILE, INNER_FILE], ImportClosure([OUTER_FILE, INNER_FILE], OUTER_FILE.name)) == [OUTER_FILE]
  {
    ExampleImports();
    hide ImportClosure;
    var kept := {OUTER_FILE.name};
    assert OUTER_FILE.name[0] != INNER_FILE.name[0];
    assert [INNER_FILE][1..] == [] && Keep([], kept) == [];
    assert Keep([INNER_FILE], kept) == [];
    assert [OUTER_FILE, INNER_FILE][1..] == [INNER_FILE];
  }

  lemma ExampleImports()
    ensures ImportClosure([OUTER_FILE, INNER_FILE], OUTER_FILE.name) == {OUTER_FILE.name}
  {
    var files, start := [OUTER_FILE, INNER_FILE], OUTER_FILE.name;
    var g := ImportGraph(files);
    NextImports(files, start);
    assert Closed(g, {start});
    ReachSelf(g, start);
    assert OUTER_FILE in files;
    forall n | n in ImportClosure(files, start) ensures n == start { ClosedReach(g, {start}, start, n); }
  }
}
