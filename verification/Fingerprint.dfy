/**
 The schema fingerprint: an index of definitions, a worklist over references, and the canonical
 bytes that are hashed. `SchemaBytes` says what the bytes are without mentioning the worklist.
 */
module Fingerprint {
  import opened Prelude
  import opened Order
  import opened Canonical
  import opened Descriptor
  import opened SchemaRecord
  import opened Graph

  const HEADER: Str :=
    [114, 101, 105, 110, 121, 46, 115, 99, 104, 101, 109, 97, 45,
     102, 105, 110, 103, 101, 114, 112, 114, 105, 110, 116]  // "reiny.schema-fingerprint"

  // ----- specification -----

  /** Who refers to whom; a definition that fails its checks refers to nothing. */
  ghost function ReferenceGraph(d: Definitions): Graph<Str> {
    map n | n in d :: if RecordOf(d, n).Some? then BodyReferences(RecordOf(d, n).value.body) else []
  }

  /** The reachable closure of `root`. */
  ghost function Closure(d: Definitions, root: Str): set<Str> {
    set n | n in d && Reach(ReferenceGraph(d), root, n)
  }

  ghost predicate Encodable(d: Definitions, root: Str) {
    forall n :: n in Closure(d, root) ==> RecordOf(d, n).Some?
  }

  ghost function RecordsOf(d: Definitions, names: seq<Str>): (records: seq<seq<byte>>)
    requires forall i :: 0 <= i < |names| ==> names[i] in d && RecordOf(d, names[i]).Some?
    ensures |records| == |names|
  {
    seq(|names|, i requires 0 <= i < |names| => RecordBytes(RecordOf(d, names[i]).value))
  }

  ghost function SchemaItems(d: Definitions, root: Str): seq<Item>
    requires Encodable(d, root)
  {
    var names := Arranged(Closure(d, root));
    assert forall i :: 0 <= i < |names| ==> names[i] in Closure(d, root);
    [Text(HEADER), Byte(2), Byte(0), Text(root), Count(|Closure(d, root)|)] + Texts(RecordsOf(d, names))
  }

  /** The bytes that are hashed: one record per reachable definition, in name order. */
  ghost function SchemaBytes(d: Definitions, root: Str): seq<byte>
    requires Encodable(d, root)
  {
    Write(SchemaItems(d, root))
  }

  predicate IsMessage(d: Definitions, root: Str) {
    root in d && d[root].definition.MessageDef?
  }

  /** One step of FNV-1a. */
  function Mix(hash: bv64, b: byte): bv64 {
    (hash ^ (b as bv64)) * 0x0000_0100_0000_01b3
  }

  /** FNV-1a over the canonical bytes. */
  function Hash(bytes: seq<byte>): bv64 {
    if bytes == [] then 0xcbf2_9ce4_8422_2325 else Mix(Hash(bytes[..|bytes| - 1]), bytes[|bytes| - 1])
  }

  lemma HashSnoc(s: seq<byte>, b: byte)
    ensures Hash(s + [b]) == Mix(Hash(s), b)
  {
    hide Mix;
    assert (s + [b])[..|s|] == s;
  }

  /** The published FNV-1a values of the empty text and of "a", "fo" and "foo". */
  lemma HashVectors()
    ensures Hash([]) == 0xcbf2_9ce4_8422_2325 && Hash([0x61]) == 0xaf63_dc4c_8601_ec8c
    ensures Hash([0x66, 0x6f]) == 0x0898_5907_b541_d342 && Hash([0x66, 0x6f, 0x6f]) == 0xdcb2_7518_fed9_d577
  {
    MixVectors();
    HashSnoc([], 0x61);
    HashSnoc([], 0x66);
    HashSnoc([0x66], 0x6f);
    HashSnoc([0x66, 0x6f], 0x6f);
    hide Mix;
    assert [] + [0x61] == [0x61] && [] + [0x66] == [0x66] && [0x66] + [0x6f] == [0x66, 0x6f];
    assert [0x66, 0x6f] + [0x6f] == [0x66, 0x6f, 0x6f];
  }

  lemma MixVectors()
    ensures Mix(0xcbf2_9ce4_8422_2325, 0x61) == 0xaf63_dc4c_8601_ec8c
    ensures Mix(0xcbf2_9ce4_8422_2325, 0x66) == 0xaf63_db4c_8601_ead9
    ensures Mix(0xaf63_db4c_8601_ead9, 0x6f) == 0x0898_5907_b541_d342
    ensures Mix(0x0898_5907_b541_d342, 0x6f) == 0xdcb2_7518_fed9_d577
  {}

  /** What a fingerprint request answers. */
  ghost function FingerprintOf(d: Definitions, root: Str): Result<Option<bv64>> {
    if !IsMessage(d, root) then Ok(None)
    else if Encodable(d, root) then Ok(Some(Hash(SchemaBytes(d, root))))
    else Err
  }

  // ----- writing sorted lists -----

  method PutRanges(out: Writer, ranges: seq<(i32, i32)>)
    modifies out
    ensures out.data == AppendCountedRanges(old(out.data), Sort(ranges, ByRange))
  {
    hide Append;
    var sorted := Sort(ranges, ByRange);
    out.PutCount(|sorted|);
    ghost var base := out.data;
    for i := 0 to |sorted|
      invariant out.data == AppendRanges(base, sorted[..i])
    {
      out.PutInteger(sorted[i].0);
      out.PutInteger(sorted[i].1);
      assert sorted[..i + 1][..i] == sorted[..i];
    }
    assert sorted[..|sorted|] == sorted;
  }

  method PutStrings(out: Writer, texts: seq<Str>)
    modifies out
    ensures out.data == AppendCountedTexts(old(out.data), Sort(texts, StrLeq))
  {
    hide Append;
    var sorted := Sort(texts, StrLeq);
    out.PutCount(|sorted|);
    ghost var base := out.data;
    for i := 0 to |sorted|
      invariant out.data == AppendTexts(base, sorted[..i])
    {
      out.PutString(sorted[i]);
      assert sorted[..i + 1][..i] == sorted[..i];
    }
    assert sorted[..|sorted|] == sorted;
  }

  // ----- enums -----

  method EncodeEnum(out: Writer, e: Enumeration) returns (ok: bool)
    modifies out
    ensures ok <==> EnumAdmissible(e)
    ensures ok ==> out.data == AppendBody(old(out.data), EnumOf(e))
  {
    hide Append;
    if |e.values| == 0 { return false; }
    out.PutInteger(e.values[0].number);
    out.PutBoolean(e.allowAlias);
    PutRanges(out, e.reservedRanges);
    PutStrings(out, e.reservedNames);
    ok := PutValues(out, e.values);
  }

  method PutValues(out: Writer, all: seq<Value>) returns (ok: bool)
    modifies out
    ensures ok <==> ValuesAdmissible(Sort(all, ByNumberThenName))
    ensures ok ==>
              var values := Sort(all, ByNumberThenName);
              out.data == AppendValues(Append(old(out.data), Count(|values|)), values)
  {
    hide Append;
    var values := Sort(all, ByNumberThenName);
    out.PutCount(|values|);
    ghost var base := out.data;
    ghost var valueNames := ValueNames(values);
    var names: set<Str> := {};
    for i := 0 to |values|
      invariant out.data == AppendValues(base, values[..i])
      invariant names == Elements(valueNames[..i])
      invariant NoRepeats(valueNames[..i]) && forall k :: 0 <= k < i ==> values[k].name != []
    {
      var v := values[i];
      NoRepeatsExtend(valueNames, i);
      if v.name == [] || v.name in names { return false; }
      names := names + {v.name};
      out.PutInteger(v.number);
      out.PutString(v.name);
      assert values[..i + 1][..i] == values[..i];
    }
    assert values[..|values|] == values && valueNames[..|values|] == valueNames;
    ok := true;
  }

  ghost function Elements<T>(s: seq<T>): set<T> {
    set x | x in s
  }

  /** A list stays free of repeats exactly as long as each new element is new. */
  lemma NoRepeatsExtend<T(!new)>(s: seq<T>, i: nat)
    requires i < |s| && NoRepeats(s[..i])
    ensures NoRepeats(s[..i + 1]) <==> s[i] !in s[..i]
    ensures NoRepeats(s) ==> s[i] !in s[..i]
    ensures Elements(s[..i + 1]) == Elements(s[..i]) + {s[i]}
  {
    assert s[..i + 1] == s[..i] + [s[i]];
    if s[i] in s[..i] {
      var k :| 0 <= k < i && s[..i][k] == s[i];
      assert s[..i + 1][k] == s[..i + 1][i];
    }
  }

  // ----- messages -----

  /** Innermost scope first; an absolute reference names its target outright. */
  method Resolve(d: Definitions, scope: Str, reference: Str) returns (r: Option<Str>)
    ensures r == ResolvedName(d, scope, reference)
  {
    if reference != [] && reference[0] == DOT {
      return if reference[1..] in d then Some(reference[1..]) else None;
    }
    if reference == [] { return None; }
    var enclosing := scope;
    while true
      invariant FirstDefined(d, Candidates(enclosing, reference)) == FirstDefined(d, Candidates(scope, reference))
      decreases |enclosing|
    {
      var candidate := if enclosing == [] then reference else enclosing + [DOT] + reference;
      ghost var names := Candidates(enclosing, reference);
      assert names[1..] == if enclosing == [] then [] else Candidates(Parent(enclosing), reference);
      if candidate in d { return Some(candidate); }
      if enclosing == [] { return None; }
      enclosing := Parent(enclosing);
    }
  }

  /** A field's kind, stated or inferred from what its reference resolves to, and that reference. */
  method FieldKind(d: Definitions, scope: Str, field: Field) returns (r: Option<(i32, Option<Str>)>)
    ensures r == FieldType(d, scope, field)
  {
    hide ResolvedName;
    var reference: Option<Str> := None;
    if field.typeName.Some? {
      reference := Resolve(d, scope, field.typeName.value);
      if reference.None? { return None; }
    }
    var inferred: Option<i32> := None;
    if reference.Some? {
      inferred := Some(if d[reference.value].definition.MessageDef? then MESSAGE else ENUM);
    }
    var kind := inferred;
    if field.kind.Some? {
      if !(1 <= field.kind.value <= LAST_KIND) { return None; }
      kind := field.kind;
    }
    if kind.None? { return None; }
    if kind.value == MESSAGE || kind.value == GROUP || kind.value == ENUM {
      if inferred != Some(if kind.value == GROUP then MESSAGE else kind.value) { return None; }
    } else if reference.Some? {
      return None;
    }
    r := Some((kind.value, reference));
  }

  /** How many fields name one oneof. */
  method CountSharing(fields: seq<Field>, oneofIndex: Option<i32>) returns (n: nat)
    ensures n == Sharing(fields, oneofIndex)
  {
    n := 0;
    assert fields[0..] == fields;
    for i := 0 to |fields|
      invariant n + Sharing(fields[i..], oneofIndex) == Sharing(fields, oneofIndex)
    {
      assert fields[i..][1..] == fields[i + 1..];
      if fields[i].oneofIndex == oneofIndex { n := n + 1; }
    }
    assert fields[|fields|..] == [];
  }

  /** The default JSON name, character by character. */
  method DefaultJsonName(name: Str) returns (json: Str)
    ensures json == JsonName(name, false)
  {
    hide JsonName, Upper;
    json := [];
    var uppercase := false;
    assert name[0..] == name;
    for i := 0 to |name|
      invariant json + JsonName(name[i..], uppercase) == JsonName(name, false)
    {
      JsonNext(name, i, uppercase);
      if name[i] == UNDERSCORE {
        uppercase := true;
      } else {
        json := json + [if uppercase then Upper(name[i]) else name[i]];
        uppercase := false;
      }
    }
    assert name[|name|..] == [];
    JsonNothing(uppercase);
  }

  lemma JsonNext(name: Str, i: nat, raise: bool)
    requires i < |name|
    ensures JsonName(name[i..], raise) ==
            if name[i] == UNDERSCORE then JsonName(name[i + 1..], true)
            else [if raise then Upper(name[i]) else name[i]] + JsonName(name[i + 1..], false)
  {
    assert name[i..][1..] == name[i + 1..];
  }

  lemma JsonNothing(raise: bool)
    ensures JsonName([], raise) == []
  {}

  /** The checks on one field, in order, and the record they lead to. */
  method CheckField(d: Definitions, scope: Str, syntax: Syntax, message: Message, field: Field)
    returns (r: Option<FieldRecord>)
    ensures r == FieldOf(d, scope, syntax, message, field)
  {
    hide FieldType, Sharing, JsonName;
    if field.extendee.Some? { return None; }
    var typed := FieldKind(d, scope, field);
    if typed.None? { return None; }
    var (kind, reference) := typed.value;
    var cardinality := OPTIONAL;
    if field.cardinality.Some? {
      cardinality := field.cardinality.value;
      if !(1 <= cardinality <= 3) { return None; }
    }
    var oneof: Option<Str> := None;
    if field.oneofIndex.Some? {
      if !(0 <= field.oneofIndex.value < |message.oneofs|) { return None; }
      oneof := Some(message.oneofs[field.oneofIndex.value]);
    }
    if field.proto3Optional {
      if !(syntax == Proto3 && cardinality == OPTIONAL && oneof.Some?) { return None; }
      var sharing := CountSharing(message.fields, field.oneofIndex);
      if sharing != 1 { return None; }
    }
    if oneof.Some? && cardinality != OPTIONAL { return None; }
    if syntax == Proto3 && cardinality == REQUIRED { return None; }
    var packable := kind != STRING && kind != BYTES && kind != MESSAGE && kind != GROUP;
    if field.packed == Some(true) && !(packable && cardinality == REPEATED) { return None; }
    var packs := if field.packed.Some? then field.packed.value else syntax == Proto3;
    var packed := packable && cardinality == REPEATED && packs;
    var presence := cardinality != REPEATED && (syntax == Proto2 || oneof.Some? || kind == MESSAGE || kind == GROUP);
    var jsonName: Str;
    if field.jsonName.Some? { jsonName := field.jsonName.value; } else { jsonName := DefaultJsonName(field.name); }
    r := Some(FieldRecord(field.number, field.name, kind, cardinality, reference, oneof, field.proto3Optional,
                          presence, packed, field.defaultValue, jsonName));
  }

  method EncodeField(d: Definitions, out: Writer, name: Str, syntax: Syntax, message: Message, field: Field,
                     pending: seq<Str>)
    returns (ok: bool, pending': seq<Str>)
    modifies out
    ensures ok <==> FieldOf(d, name, syntax, message, field).Some?
    ensures ok ==>
              var f := FieldOf(d, name, syntax, message, field).value;
              && out.data == AppendField(old(out.data), f)
              && pending' == pending + (if f.reference.Some? then [f.reference.value] else [])
    ensures !ok ==> out.data == old(out.data) && pending' == pending
  {
    hide Append, FieldOf;
    pending' := pending;
    var checked := CheckField(d, name, syntax, message, field);
    if checked.None? { return false, pending; }
    var f := checked.value;
    out.PutInteger(f.number);
    out.PutString(f.name);
    out.PutInteger(f.kind);
    out.PutInteger(f.cardinality);
    out.PutOptional(f.reference);
    out.PutOptional(f.oneof);
    out.PutBoolean(f.proto3Optional);
    out.PutBoolean(f.presence);
    out.PutBoolean(f.packed);
    out.PutOptional(f.defaultValue);
    out.PutString(f.jsonName);
    if f.reference.Some? { pending' := pending' + [f.reference.value]; }
    ok := true;
  }

  lemma FieldSnoc(bytes: seq<byte>, pending: seq<Str>, fs: seq<FieldRecord>, g: FieldRecord)
    ensures AppendFields(bytes, fs + [g]) == AppendField(AppendFields(bytes, fs), g)
    ensures pending + References(fs + [g]) ==
            pending + References(fs) + (if g.reference.Some? then [g.reference.value] else [])
  {
    hide AppendField;
    assert (fs + [g])[..|fs|] == fs;
  }

  lemma FieldNone(bytes: seq<byte>, pending: seq<Str>)
    ensures AppendFields(bytes, []) == bytes && pending + References([]) == pending
  {
  }

  lemma FieldsStart()
    ensures FieldsDistinct([]) && Elements(Numbers([])) == {} && Elements(FieldNames([])) == {}
  {
  }

  /** One more field keeps a list distinct exactly when its number and name are new. */
  lemma FieldsExtend(fields: seq<Field>, i: nat)
    requires i < |fields| && FieldsDistinct(fields[..i])
    ensures var f := fields[i];
            FieldsDistinct(fields[..i + 1]) <==>
            f.number > 0 && f.name != []
            && f.number !in Elements(Numbers(fields[..i])) && f.name !in Elements(FieldNames(fields[..i]))
    ensures FieldsDistinct(fields) ==> FieldsDistinct(fields[..i + 1])
    ensures Elements(Numbers(fields[..i + 1])) == Elements(Numbers(fields[..i])) + {fields[i].number}
    ensures Elements(FieldNames(fields[..i + 1])) == Elements(FieldNames(fields[..i])) + {fields[i].name}
  {
    var ns, ms := Numbers(fields), FieldNames(fields);
    assert Numbers(fields[..i]) == ns[..i] && Numbers(fields[..i + 1]) == ns[..i + 1];
    assert FieldNames(fields[..i]) == ms[..i] && FieldNames(fields[..i + 1]) == ms[..i + 1];
    NoRepeatsExtend(ns, i);
    NoRepeatsExtend(ms, i);
    assert fields[..i + 1] == fields[..i] + [fields[i]];
  }

  method PutFields(d: Definitions, out: Writer, name: Str, syntax: Syntax, message: Message, pending: seq<Str>)
    returns (ok: bool, pending': seq<Str>)
    modifies out
    ensures ok <==> FieldsAdmissible(d, name, syntax, message, Sort(message.fields, ByNumber))
    ensures ok ==>
              var fs := FieldsOf(d, name, syntax, message, Sort(message.fields, ByNumber));
              && out.data == AppendFields(Append(old(out.data), Count(|fs|)), fs)
              && pending' == pending + References(fs)
  {
    hide Append, AppendField, FieldOf, AppendFields, References, FieldsDistinct, Numbers, FieldNames, Elements, Sort;
    FieldsStart();
    pending' := pending;
    var fields := Sort(message.fields, ByNumber);
    out.PutCount(|fields|);
    ghost var base := out.data;
    ghost var fs: seq<FieldRecord> := [];
    FieldNone(base, pending);
    var numbers: set<i32> := {};
    var names: set<Str> := {};
    for i := 0 to |fields|
      invariant FieldsDistinct(fields[..i])
      invariant numbers == Elements(Numbers(fields[..i])) && names == Elements(FieldNames(fields[..i]))
      invariant |fs| == i && forall k :: 0 <= k < i ==> Some(fs[k]) == FieldOf(d, name, syntax, message, fields[k])
      invariant out.data == AppendFields(base, fs)
      invariant pending' == pending + References(fs)
    {
      var f := fields[i];
      FieldsExtend(fields, i);
      if f.number <= 0 || f.number in numbers { return false, pending'; }
      numbers := numbers + {f.number};
      if f.name == [] || f.name in names { return false, pending'; }
      names := names + {f.name};
      ok, pending' := EncodeField(d, out, name, syntax, message, f, pending');
      if !ok { return; }
      ghost var g := FieldOf(d, name, syntax, message, f).value;
      FieldSnoc(base, pending, fs, g);
      fs := fs + [g];
    }
    assert fields[..|fields|] == fields;
    assert fs == FieldsOf(d, name, syntax, message, fields);
    ok := true;
  }

  method EncodeMessage(d: Definitions, out: Writer, name: Str, syntax: Syntax, message: Message, pending: seq<Str>)
    returns (ok: bool, pending': seq<Str>)
    modifies out
    ensures ok <==> MessageAdmissible(d, name, syntax, message)
    ensures ok ==>
              var b := MessageOf(d, name, syntax, message);
              out.data == AppendBody(old(out.data), b) && pending' == pending + BodyReferences(b)
  {
    hide Append;
    pending' := pending;
    if message.extended { return false, pending; }
    out.PutBoolean(message.mapEntry);
    out.PutBoolean(message.wireFormat);
    PutRanges(out, message.reservedRanges);
    PutStrings(out, message.reservedNames);
    var oneofs := set o | o in message.oneofs;
    DistinctCount(message.oneofs);
    if |oneofs| != |message.oneofs| || [] in oneofs { return false, pending; }
    var ordered := InOrder(oneofs);
    SameArrangement(ordered, message.oneofs);
    PutStrings(out, ordered);
    ok, pending' := PutFields(d, out, name, syntax, message, pending);
  }

  lemma {:induction false} DistinctCount<T(!new)>(s: seq<T>)
    ensures |set x | x in s| <= |s|
    ensures |set x | x in s| == |s| <==> NoRepeats(s)
  {
    if s != [] {
      var h, t := s[0], s[1..];
      DistinctCount(t);
      assert (set x | x in s) == (set x | x in t) + {h};
      assert forall i :: 0 < i < |s| ==> s[i] == t[i - 1];
      if NoRepeats(s) {
        assert NoRepeats(t) by { assert forall i :: 0 <= i < |t| ==> t[i] == s[i + 1]; }
        assert h !in t;
      } else if h !in t {
        assert !NoRepeats(t);
      }
    }
  }

  lemma SameArrangement(a: seq<Str>, b: seq<Str>)
    requires NoRepeats(b) && Ordered(a, set x | x in b)
    ensures Sort(a, StrLeq) == Sort(b, StrLeq)
  {
    var s := set x | x in b;
    assert Lists(b, s);
    ListsMultiset(a, s);
    ListsMultiset(b, s);
    StrOrder();
    SortProperties(a, StrLeq);
    SortProperties(b, StrLeq);
    SortedUnique(Sort(a, StrLeq), Sort(b, StrLeq), StrLeq);
  }

  // ----- the index and the worklist -----

  class Index {
    var definitions: Definitions

    constructor ()
      ensures definitions == map[]
    {
      definitions := map[];
    }

    /** Index a whole descriptor set, or fail on an unnamed or repeated definition. */
    method Build(files: seq<File>) returns (ok: bool)
      requires definitions == map[]
      modifies this
      ensures ok <==> IndexOf(files).Some?
      ensures ok ==> Some(definitions) == IndexOf(files)
    {
      assert files[0..] == files;
      for i := 0 to |files|
        invariant Fill(definitions, Declarations(files[i..])) == IndexOf(files)
      {
        var file := files[i];
        assert files[i..][1..] == files[i + 1..];
        FillConcat(definitions, FileDeclarations(file), Declarations(files[i + 1..]));
        ok := InsertScope(file, file.package, [], file.messages, file.enums);
        if !ok { return; }
      }
      assert files[|files|..] == [];
      ok := true;
    }

    method InsertScope(file: File, scope: Str, ghost path: seq<Str>, messages: seq<Message>, enums: seq<Enumeration>)
      returns (ok: bool)
      requires scope == Full(file.package, path)
      modifies this
      ensures ok <==> Fill(old(definitions), ScopeDeclarations(file, path, messages, enums)).Some?
      ensures ok ==> Some(definitions) == Fill(old(definitions), ScopeDeclarations(file, path, messages, enums))
      decreases messages
    {
      hide Fill, ScopeDeclarations, EnumDeclarations, Full;
      ghost var all := Fill(definitions, ScopeDeclarations(file, path, messages, enums));
      assert messages[0..] == messages;
      for i := 0 to |messages|
        invariant Fill(definitions, ScopeDeclarations(file, path, messages[i..], enums)) == all
      {
        var m := messages[i];
        ghost var inner := ScopeDeclarations(file, path + [m.name], m.nested, m.enums);
        ghost var outer := ScopeDeclarations(file, path, messages[i + 1..], enums);
        MessageNext(file, path, messages, i, enums);
        MessageFirst(definitions, file, path, m, inner, outer);
        var name;
        ok, name := Insert(file, scope, path, m.name, MessageDef(m));
        if !ok { return; }
        ok := InsertScope(file, name, path + [m.name], m.nested, m.enums);
        if !ok { return; }
      }
      assert messages[|messages|..] == [];
      NoMessages(file, path, enums);
      ghost var tail := EnumDeclarations(file, path, enums);
      assert tail[0..] == tail;
      for i := 0 to |enums|
        invariant |tail| == |enums| && Fill(definitions, tail[i..]) == all
      {
        EnumFirst(definitions, file, path, enums, i);
        var name;
        ok, name := Insert(file, scope, path, enums[i].name, EnumDef(enums[i]));
        if !ok { return; }
      }
      assert tail[|enums|..] == [];
      FillNothing(definitions);
      ok := true;
    }

    method Insert(file: File, scope: Str, ghost path: seq<Str>, name: Str, definition: Definition)
      returns (ok: bool, full: Str)
      requires scope == Full(file.package, path)
      modifies this
      ensures full == Full(file.package, path + [name])
      ensures ok <==> name != [] && full !in old(definitions)
      ensures ok ==> definitions == old(definitions)[full := Located(file, definition)]
    {
      full := if scope == [] then name else scope + [DOT] + name;
      assert (path + [name])[..|path|] == path;
      if name == [] { return false, full; }
      ok := full !in definitions;
      definitions := definitions[full := Located(file, definition)];
    }

    /** The fingerprint of message `root`, by a worklist over references. */
    method Fingerprint(root: Str) returns (r: Result<Option<bv64>>)
      ensures r == FingerprintOf(definitions, root)
    {
      var d := definitions;
      if !(root in d && d[root].definition.MessageDef?) { return Ok(None); }
      var pending := [root];
      var records: map<Str, seq<byte>> := map[];
      ReachSelf(ReferenceGraph(d), root);
      assert Elements(pending) == {root};
      while pending != []
        invariant Exploring(d, root, Elements(pending), records)
        decreases d.Keys - records.Keys, |pending|
      {
        hide Reach, ReferenceGraph, RecordOf, RecordBytes, Elements;
        var name := pending[|pending| - 1];
        var rest := pending[..|pending| - 1];
        ElementsPop(pending);
        if name in records {
          PopKnown(d, root, Elements(rest), name, records);
          pending := rest;
          continue;
        }
        var ok, record;
        ok, record, pending := RecordDefinition(name, rest);
        if !ok {
          NotEncodable(d, root, name);
          return Err;
        }
        PopNew(d, root, Elements(rest), name, records, record);
        ElementsConcat(rest, BodyReferences(RecordOf(d, name).value.body));
        assert name in d.Keys - records.Keys;
        records := records[name := record];
      }
      assert Elements(pending) == {};
      Explored(d, root, records);
      var bytes := Emit(root, records);
      r := Ok(Some(Hash(bytes)));
    }

    /** One turn of the worklist: the record of `name`, and its references pushed. */
    method RecordDefinition(name: Str, pending: seq<Str>) returns (ok: bool, record: seq<byte>, pending': seq<Str>)
      requires name in definitions
      ensures ok <==> RecordOf(definitions, name).Some?
      ensures ok ==>
                var rec := RecordOf(definitions, name).value;
                record == RecordBytes(rec) && pending' == pending + BodyReferences(rec.body)
    {
      hide Append;
      record, pending' := [], pending;
      var located := definitions[name];
      var syntax := SyntaxOf(located.file);
      if syntax.None? { return false, record, pending'; }
      var out := new Writer();
      out.PutString(name);
      out.PutString(SyntaxText(syntax.value));
      match located.definition {
        case MessageDef(m) =>
          out.PutByte(1);
          ok, pending' := EncodeMessage(definitions, out, name, syntax.value, m, pending);
        case EnumDef(e) =>
          out.PutByte(2);
          ok := EncodeEnum(out, e);
      }
      if ok {
        record := out.data;
        AppendRecordWrite(RecordOf(definitions, name).value);
      }
    }

    /** The canonical bytes: header, version, root, and the records in name order. */
    method Emit(root: Str, records: map<Str, seq<byte>>) returns (bytes: seq<byte>)
      requires Encodable(definitions, root)
      requires records.Keys == Closure(definitions, root)
      requires forall n :: n in records ==> records[n] == RecordBytes(RecordOf(definitions, n).value)
      ensures bytes == SchemaBytes(definitions, root)
    {
      hide Append, Write, HEADER, RecordBytes, RecordOf;
      var names := InOrder(records.Keys);
      OrderedUnique(names, Arranged(records.Keys), records.Keys);
      var out := new Writer();
      out.PutString(HEADER);
      out.PutByte(2);
      out.PutByte(0);
      out.PutString(root);
      out.PutCount(|names|);
      EmitHead(root, |names|);
      PutRecords(out, names, records, [Text(HEADER), Byte(2), Byte(0), Text(root), Count(|names|)]);
      assert Values(records, names) == RecordsOf(definitions, names);
      bytes := out.data;
    }
  }

  function Values(records: map<Str, seq<byte>>, names: seq<Str>): (vs: seq<seq<byte>>)
    requires forall i :: 0 <= i < |names| ==> names[i] in records
    ensures |vs| == |names|
  {
    seq(|names|, i requires 0 <= i < |names| => records[names[i]])
  }

  method PutRecords(out: Writer, names: seq<Str>, records: map<Str, seq<byte>>, ghost head: seq<Item>)
    requires forall i :: 0 <= i < |names| ==> names[i] in records
    requires out.data == Write(head)
    modifies out
    ensures out.data == Write(head + Texts(Values(records, names)))
  {
    hide Append, Write;
    ghost var texts := Texts(Values(records, names));
    assert head + texts[..0] == head;
    for i := 0 to |names|
      invariant out.data == Write(head + texts[..i])
    {
      out.PutString(records[names[i]]);
      AppendWrite([], head + texts[..i], texts[i]);
      assert [] + Write(head + texts[..i]) == Write(head + texts[..i]);
      assert head + texts[..i] + [texts[i]] == head + texts[..i + 1];
    }
    assert texts[..|names|] == texts;
  }

  lemma FillNothing(d: Definitions)
    ensures Fill(d, []) == Some(d)
  {}

  lemma NoMessages(file: File, path: seq<Str>, enums: seq<Enumeration>)
    ensures ScopeDeclarations(file, path, [], enums) == EnumDeclarations(file, path, enums)
    ensures |EnumDeclarations(file, path, enums)| == |enums|
  {}

  lemma MessageNext(file: File, path: seq<Str>, messages: seq<Message>, i: nat, enums: seq<Enumeration>)
    requires i < |messages|
    ensures var m := messages[i];
            ScopeDeclarations(file, path, messages[i..], enums) ==
            [Declaration(file, path + [m.name], MessageDef(m))]
            + ScopeDeclarations(file, path + [m.name], m.nested, m.enums)
            + ScopeDeclarations(file, path, messages[i + 1..], enums)
  {
    assert messages[i..][1..] == messages[i + 1..];
  }

  lemma EnumFirst(d: Definitions, file: File, path: seq<Str>, enums: seq<Enumeration>, i: nat)
    requires i < |enums|
    ensures var tail := EnumDeclarations(file, path, enums);
            var full := Full(file.package, path + [enums[i].name]);
            Fill(d, tail[i..]) ==
            if enums[i].name == [] || full in d then None
            else Fill(d[full := Located(file, EnumDef(enums[i]))], tail[i + 1..])
  {
    var tail := EnumDeclarations(file, path, enums);
    assert tail[i..][0] == Declaration(file, path + [enums[i].name], EnumDef(enums[i]));
    assert tail[i..][1..] == tail[i + 1..];
  }

  lemma MessageFirst(d: Definitions, file: File, path: seq<Str>, m: Message, inner: seq<Declaration>,
                     outer: seq<Declaration>)
    ensures var h := Declaration(file, path + [m.name], MessageDef(m));
            var full := Full(file.package, path + [m.name]);
            Fill(d, [h] + inner + outer) ==
            if m.name == [] || full in d then None
            else match Fill(d[full := Located(file, MessageDef(m))], inner)
                 case None => None
                 case Some(e) => Fill(e, outer)
  {
    var h := Declaration(file, path + [m.name], MessageDef(m));
    assert [h] + inner + outer == [h] + (inner + outer);
    assert ([h] + (inner + outer))[1..] == inner + outer;
    if !(m.name == [] || FullName(h) in d) {
      FillConcat(d[FullName(h) := Located(file, MessageDef(m))], inner, outer);
    }
  }

  lemma FiveAppended(a: Item, b: Item, c: Item, d: Item, e: Item)
    ensures Append(Append(Append(Append(Append([], a), b), c), d), e) == Write([a, b, c, d, e])
  {
    hide Append, Write;
    WriteNothing();
    AppendTwo([], [], a, b);
    AppendTwo([], [a, b], c, d);
    AppendWrite([], [a, b, c, d], e);
    assert [] + [a, b] == [a, b] && [a, b] + [c, d] == [a, b, c, d] && [a, b, c, d] + [e] == [a, b, c, d, e];
    assert [] + Write([a, b, c, d, e]) == Write([a, b, c, d, e]);
  }

  lemma EmitHead(root: Str, n: nat)
    ensures Append(Append(Append(Append(Append([], Text(HEADER)), Byte(2)), Byte(0)), Text(root)), Count(n))
         == Write([Text(HEADER), Byte(2), Byte(0), Text(root), Count(n)])
  {
    hide Append, Write, HEADER;
    FiveAppended(Text(HEADER), Byte(2), Byte(0), Text(root), Count(n));
  }

  lemma WriteNothing()
    ensures [] + Write([]) == []
  {
  }

  // ----- the worklist's progress -----

  /**
   Everything recorded or on the frontier is reachable, recorded definitions are recorded correctly,
   and whatever they refer to is itself recorded or on the frontier.
   */
  ghost predicate Exploring(d: Definitions, root: Str, frontier: set<Str>, records: map<Str, seq<byte>>) {
    var g := ReferenceGraph(d);
    var seen := records.Keys + frontier;
    && root in seen
    && (forall n :: n in seen ==> n in d && Reach(g, root, n))
    && (forall n :: n in records ==> Recorded(d, n, records[n]))
    && (forall n :: n in records ==> Elements(Next(g, n)) <= seen)
  }

  ghost predicate Recorded(d: Definitions, n: Str, bytes: seq<byte>) {
    n in d && RecordOf(d, n).Some? && bytes == RecordBytes(RecordOf(d, n).value)
  }

  lemma PopKnown(d: Definitions, root: Str, frontier: set<Str>, name: Str, records: map<Str, seq<byte>>)
    requires name in records && Exploring(d, root, frontier + {name}, records)
    ensures Exploring(d, root, frontier, records)
  {
    hide Reach, Next, ReferenceGraph, Recorded, Elements;
    assert records.Keys + (frontier + {name}) == records.Keys + frontier;
  }

  lemma PopNew(d: Definitions, root: Str, frontier: set<Str>, name: Str, records: map<Str, seq<byte>>,
               record: seq<byte>)
    requires Exploring(d, root, frontier + {name}, records) && name !in records
    requires Recorded(d, name, record)
    ensures Exploring(d, root, frontier + Elements(BodyReferences(RecordOf(d, name).value.body)),
                      records[name := record])
  {
    var g := ReferenceGraph(d);
    var refs := BodyReferences(RecordOf(d, name).value.body);
    assert Next(g, name) == refs;
    hide RecordOf, ReferenceGraph;
    forall n | n in refs ensures n in d && Reach(g, root, n) {
      ReferencesDefined(d, name, n);
      ReachSnoc(g, root, name, n);
    }
    PopSeen(d, root, frontier, name, records, record, refs);
  }

  lemma PopSeen(d: Definitions, root: Str, frontier: set<Str>, name: Str, records: map<Str, seq<byte>>,
                record: seq<byte>, refs: seq<Str>)
    requires Exploring(d, root, frontier + {name}, records) && name !in records
    requires Recorded(d, name, record)
    requires Next(ReferenceGraph(d), name) == refs
    requires forall n :: n in refs ==> n in d && Reach(ReferenceGraph(d), root, n)
    ensures Exploring(d, root, frontier + Elements(refs), records[name := record])
  {
    hide Reach, Next, ReferenceGraph, Recorded;
    var g := ReferenceGraph(d);
    var seen := records.Keys + (frontier + {name});
    var records' := records[name := record];
    var seen' := records'.Keys + (frontier + Elements(refs));
    assert seen' == seen + Elements(refs);
    assert forall n :: n in records ==> Elements(Next(g, n)) <= seen;
  }

  lemma NotEncodable(d: Definitions, root: Str, name: Str)
    requires name in d && Reach(ReferenceGraph(d), root, name) && RecordOf(d, name).None?
    ensures !Encodable(d, root)
  {
    assert name in Closure(d, root);
  }

  lemma ElementsConcat(a: seq<Str>, b: seq<Str>)
    ensures Elements(a + b) == Elements(a) + Elements(b)
  {
  }

  lemma ElementsPop(pending: seq<Str>)
    requires pending != []
    ensures Elements(pending) == Elements(pending[..|pending| - 1]) + {pending[|pending| - 1]}
  {
    assert pending == pending[..|pending| - 1] + [pending[|pending| - 1]];
  }

  /** With nothing pending, the records are those of exactly the reachable definitions. */
  lemma Explored(d: Definitions, root: Str, records: map<Str, seq<byte>>)
    requires Exploring(d, root, {}, records)
    ensures records.Keys == Closure(d, root)
    ensures Encodable(d, root)
    ensures forall n :: n in records ==> records[n] == RecordBytes(RecordOf(d, n).value)
  {
    var g := ReferenceGraph(d);
    assert Closed(g, records.Keys) by {
      forall n, m | n in records && m in Next(g, n) ensures m in records.Keys {
        assert m in Elements(Next(g, n));
      }
    }
    forall n | n in Closure(d, root) ensures n in records {
      ClosedReach(g, records.Keys, root, n);
    }
  }
}
