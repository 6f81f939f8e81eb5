/**
 Protobuf descriptors as the schema code sees them. Text is its UTF-8 bytes, as in the source, so
 lengths and comparisons are bytewise. An absent scalar and its default are one value wherever
 the source reads it through a defaulting accessor.
 */
module Descriptor {
  import opened Prelude

  type Str = seq<byte>

  const DOT: byte := 46
  const UNDERSCORE: byte := 95

  datatype Field = Field(
    name: Str,
    number: i32,
    cardinality: Option<i32>,  // `label`
    kind: Option<i32>,
    typeName: Option<Str>,
    extendee: Option<Str>,
    defaultValue: Option<Str>,
    oneofIndex: Option<i32>,
    jsonName: Option<Str>,
    packed: Option<bool>,
    proto3Optional: bool)

  datatype Message = Message(
    name: Str,
    fields: seq<Field>,
    nested: seq<Message>,
    enums: seq<Enumeration>,
    extended: bool,  // declares an extension or an extension range
    reservedRanges: seq<(i32, i32)>,
    reservedNames: seq<Str>,
    oneofs: seq<Str>,
    mapEntry: bool,
    wireFormat: bool)

  datatype Value = Value(name: Str, number: i32)

  datatype Enumeration = Enumeration(
    name: Str,
    values: seq<Value>,
    reservedRanges: seq<(i32, i32)>,
    reservedNames: seq<Str>,
    allowAlias: bool)

  datatype File = File(
    name: Str,
    package: Str,
    imports: seq<Str>,
    messages: seq<Message>,
    enums: seq<Enumeration>,
    syntax: Str)

  datatype Definition = MessageDef(message: Message) | EnumDef(enumeration: Enumeration)

  datatype Located = Located(file: File, definition: Definition)

  /** What `Index` holds: definitions by full name. */
  type Definitions = map<Str, Located>

  function Qualify(scope: Str, name: Str): Str {
    if scope == [] then name else scope + [DOT] + name
  }

  // ----- every definition of a descriptor set, in declaration order -----

  /** A definition and the names leading to it from the top of its file. */
  datatype Declaration = Declaration(file: File, path: seq<Str>, definition: Definition)

  function Full(package: Str, path: seq<Str>): Str {
    if path == [] then package
    else Qualify(Full(package, path[..|path| - 1]), path[|path| - 1])
  }

  function FullName(d: Declaration): Str {
    Full(d.file.package, d.path)
  }

  function EnumDeclarations(file: File, path: seq<Str>, enums: seq<Enumeration>): seq<Declaration> {
    seq(|enums|, i requires 0 <= i < |enums| => Declaration(file, path + [enums[i].name], EnumDef(enums[i])))
  }

  function ScopeDeclarations(file: File, path: seq<Str>, messages: seq<Message>,
                             enums: seq<Enumeration>): seq<Declaration>
    decreases messages
  {
    if messages == [] then EnumDeclarations(file, path, enums)
    else
      var m := messages[0];
      [Declaration(file, path + [m.name], MessageDef(m))]
      + ScopeDeclarations(file, path + [m.name], m.nested, m.enums)
      + ScopeDeclarations(file, path, messages[1..], enums)
  }

  function FileDeclarations(file: File): seq<Declaration> {
    ScopeDeclarations(file, [], file.messages, file.enums)
  }

  function Declarations(files: seq<File>): seq<Declaration> {
    if files == [] then []
    else FileDeclarations(files[0]) + Declarations(files[1..])
  }

  /** Insert declarations one by one; an empty or repeated name fails. */
  function Fill(d: Definitions, ds: seq<Declaration>): Option<Definitions>
    decreases |ds|
  {
    if ds == [] then Some(d)
    else if |ds[0].path| == 0 || ds[0].path[|ds[0].path| - 1] == [] || FullName(ds[0]) in d then None
    else Fill(d[FullName(ds[0]) := Located(ds[0].file, ds[0].definition)], ds[1..])
  }

  lemma {:induction false} FillConcat(d: Definitions, a: seq<Declaration>, b: seq<Declaration>)
    ensures Fill(d, a + b) == match Fill(d, a) case None => None case Some(e) => Fill(e, b)
    decreases |a|
  {
    if a == [] {
      assert a + b == b;
    } else {
      assert (a + b)[1..] == a[1..] + b;
      if !(|a[0].path| == 0 || a[0].path[|a[0].path| - 1] == [] || FullName(a[0]) in d) {
        FillConcat(d[FullName(a[0]) := Located(a[0].file, a[0].definition)], a[1..], b);
      }
    }
  }

  /** The declarations can all be indexed: named, and no full name declared twice. */
  ghost predicate Indexable(ds: seq<Declaration>) {
    && (forall i :: 0 <= i < |ds| ==> |ds[i].path| > 0 && ds[i].path[|ds[i].path| - 1] != [])
    && (forall i, j :: 0 <= i < j < |ds| ==> FullName(ds[i]) != FullName(ds[j]))
  }

  ghost predicate Fresh(d: Definitions, ds: seq<Declaration>) {
    Indexable(ds) && forall i :: 0 <= i < |ds| ==> FullName(ds[i]) !in d
  }

  ghost predicate Names(ds: seq<Declaration>, n: Str) {
    exists i :: 0 <= i < |ds| && FullName(ds[i]) == n
  }

  /** `e` is `d` with exactly the declarations `ds` added. */
  ghost predicate Extends(d: Definitions, ds: seq<Declaration>, e: Definitions) {
    && (forall n :: n in e <==> n in d || Names(ds, n))
    && (forall i :: 0 <= i < |ds| ==>
          FullName(ds[i]) in e && e[FullName(ds[i])] == Located(ds[i].file, ds[i].definition))
    && (forall n :: n in d ==> n in e && e[n] == d[n])
  }

  lemma {:induction false} FillMeaning(d: Definitions, ds: seq<Declaration>)
    ensures Fill(d, ds).Some? <==> Fresh(d, ds)
    ensures Fill(d, ds).Some? ==> Extends(d, ds, Fill(d, ds).value)
    decreases |ds|
  {
    if ds != [] {
      var h, t := ds[0], ds[1..];
      if |h.path| > 0 && h.path[|h.path| - 1] != [] && FullName(h) !in d {
        var d' := d[FullName(h) := Located(h.file, h.definition)];
        FillMeaning(d', t);
        FreshStep(d, ds);
        if Fill(d', t).Some? {
          ExtendsStep(d, ds, Fill(d', t).value);
        }
      }
    }
  }

  lemma FreshStep(d: Definitions, ds: seq<Declaration>)
    requires ds != []
    requires |ds[0].path| > 0 && ds[0].path[|ds[0].path| - 1] != [] && FullName(ds[0]) !in d
    ensures Fresh(d, ds) <==> Fresh(d[FullName(ds[0]) := Located(ds[0].file, ds[0].definition)], ds[1..])
  {
    var t := ds[1..];
    var d' := d[FullName(ds[0]) := Located(ds[0].file, ds[0].definition)];
    assert forall i :: 0 < i < |ds| ==> ds[i] == t[i - 1];
    assert forall i :: 0 <= i < |t| ==> t[i] == ds[i + 1];
    if Fresh(d, ds) {
      forall i | 0 <= i < |t| ensures FullName(t[i]) !in d' {
        assert FullName(ds[0]) != FullName(ds[i + 1]);
      }
    }
  }

  lemma ExtendsStep(d: Definitions, ds: seq<Declaration>, e: Definitions)
    requires ds != [] && FullName(ds[0]) !in d
    requires Extends(d[FullName(ds[0]) := Located(ds[0].file, ds[0].definition)], ds[1..], e)
    ensures Extends(d, ds, e)
  {
    var t := ds[1..];
    var h := FullName(ds[0]);
    var d' := d[h := Located(ds[0].file, ds[0].definition)];
    assert forall i :: 0 < i < |ds| ==> ds[i] == t[i - 1];
    forall n ensures n in e <==> n in d || Names(ds, n) {
      if Names(t, n) {
        var i :| 0 <= i < |t| && FullName(t[i]) == n;
        assert FullName(ds[i + 1]) == n;
      }
      if n == h { assert FullName(ds[0]) == n; }
      if Names(ds, n) && n != h {
        var i :| 0 <= i < |ds| && FullName(ds[i]) == n;
        assert FullName(t[i - 1]) == n;
      }
    }
    forall n | n in d ensures n in e && e[n] == d[n] {
      assert n in d' && d'[n] == d[n];
    }
  }

  /** The index of a descriptor set. */
  function IndexOf(files: seq<File>): Option<Definitions> {
    Fill(map[], Declarations(files))
  }
}
