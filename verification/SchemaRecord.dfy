/**
 What one definition contributes to a schema fingerprint: name resolution, the admissibility
 checks of fields, messages and enums, and the record each definition is turned into.
 */
module SchemaRecord {
  import opened Prelude
  import opened Order
  import opened Canonical
  import opened Descriptor

  const OPTIONAL: i32 := 1
  const REQUIRED: i32 := 2
  const REPEATED: i32 := 3

  const STRING: i32 := 9
  const GROUP: i32 := 10
  const MESSAGE: i32 := 11
  const BYTES: i32 := 12
  const ENUM: i32 := 14
  const LAST_KIND: i32 := 18

  datatype Syntax = Proto2 | Proto3

  datatype FieldRecord = FieldRecord(
    number: i32,
    name: Str,
    kind: i32,
    cardinality: i32,
    reference: Option<Str>,
    oneof: Option<Str>,
    proto3Optional: bool,
    presence: bool,
    packed: bool,
    defaultValue: Option<Str>,
    jsonName: Str)

  datatype Body =
    | MessageBody(mapEntry: bool, wireFormat: bool, ranges: seq<(i32, i32)>, names: seq<Str>,
                  oneofs: seq<Str>, fields: seq<FieldRecord>)
    | EnumBody(default: i32, allowAlias: bool, ranges: seq<(i32, i32)>, names: seq<Str>, values: seq<Value>)

  datatype Record = Record(name: Str, syntax: Syntax, body: Body)

  // ----- names -----

  /** `rsplit_once('.')`, keeping the left side: the enclosing scope, or nothing. */
  function Parent(scope: Str): (p: Str)
    ensures scope != [] ==> |p| < |scope|
  {
    if scope == [] then []
    else if scope[|scope| - 1] == DOT then scope[..|scope| - 1]
    else Parent(scope[..|scope| - 1])
  }

  /** The full names a relative reference may stand for, innermost scope first. */
  function Candidates(scope: Str, reference: Str): (names: seq<Str>)
    decreases |scope|
  {
    [Qualify(scope, reference)] + (if scope == [] then [] else Candidates(Parent(scope), reference))
  }

  function FirstDefined(d: Definitions, names: seq<Str>): Option<Str> {
    if names == [] then None
    else if names[0] in d then Some(names[0])
    else FirstDefined(d, names[1..])
  }

  function ResolvedName(d: Definitions, scope: Str, reference: Str): (r: Option<Str>)
    ensures r.Some? ==> r.value in d
  {
    if reference != [] && reference[0] == DOT then
      if reference[1..] in d then Some(reference[1..]) else None
    else if reference == [] then None
    else
      FirstDefinedIsDefined(d, Candidates(scope, reference));
      FirstDefined(d, Candidates(scope, reference))
  }

  lemma {:induction false} FirstDefinedIsDefined(d: Definitions, names: seq<Str>)
    ensures match FirstDefined(d, names)
            case None => forall i :: 0 <= i < |names| ==> names[i] !in d
            case Some(n) =>
              n in d && exists i :: 0 <= i < |names| && names[i] == n && forall j :: 0 <= j < i ==> names[j] !in d
  {
    if names != [] && names[0] !in d {
      FirstDefinedIsDefined(d, names[1..]);
      var r := FirstDefined(d, names[1..]);
      if r.Some? {
        var i :| 0 <= i < |names[1..]| && names[1..][i] == r.value && forall j :: 0 <= j < i ==> names[1..][j] !in d;
        assert names[i + 1] == r.value;
        forall j | 0 <= j < i + 1 ensures names[j] !in d {
          if j > 0 { assert names[j] == names[1..][j - 1]; }
        }
      } else {
        forall i | 0 <= i < |names| ensures names[i] !in d {
          if i > 0 { assert names[i] == names[1..][i - 1]; }
        }
      }
    }
  }

  // ----- the JSON name of a field -----

  function Upper(b: byte): byte {
    if 97 <= b <= 122 then b - 32 else b
  }

  /** Drop each underscore and raise the character after it. */
  function JsonName(name: Str, raise: bool): Str {
    if name == [] then []
    else if name[0] == UNDERSCORE then JsonName(name[1..], true)
    else [if raise then Upper(name[0]) else name[0]] + JsonName(name[1..], false)
  }

  // ----- fields -----

  function ReferenceKind(definition: Definition): i32 {
    if definition.MessageDef? then MESSAGE else ENUM
  }

  /** A field's kind and resolved reference, or nothing when the declaration is inconsistent. */
  function FieldType(d: Definitions, scope: Str, field: Field): Option<(i32, Option<Str>)> {
    var reference := if field.typeName.Some? then ResolvedName(d, scope, field.typeName.value) else None;
    if field.typeName.Some? && reference.None? then None
    else if field.kind.Some? && !(1 <= field.kind.value <= LAST_KIND) then None
    else if field.kind.None? && reference.None? then None
    else
      var kind := if field.kind.Some? then field.kind.value else ReferenceKind(d[reference.value].definition);
      if kind == MESSAGE || kind == GROUP || kind == ENUM then
        if reference.Some? && ReferenceKind(d[reference.value].definition) == (if kind == GROUP then MESSAGE else kind)
        then Some((kind, reference)) else None
      else if reference.None? then Some((kind, None)) else None
  }

  function Sharing(fields: seq<Field>, oneofIndex: Option<i32>): nat {
    if fields == [] then 0
    else (if fields[0].oneofIndex == oneofIndex then 1 else 0) + Sharing(fields[1..], oneofIndex)
  }

  function FieldOf(d: Definitions, scope: Str, syntax: Syntax, message: Message, field: Field): Option<FieldRecord> {
    var typed := FieldType(d, scope, field);
    var cardinality := if field.cardinality.Some? then field.cardinality.value else OPTIONAL;
    if field.extendee.Some? || typed.None? || !(1 <= cardinality <= 3) then None
    else if field.oneofIndex.Some? && !(0 <= field.oneofIndex.value < |message.oneofs|) then None
    else
      var (kind, reference) := typed.value;
      var oneof := if field.oneofIndex.Some? then Some(message.oneofs[field.oneofIndex.value]) else None;
      var packable := kind != STRING && kind != BYTES && kind != MESSAGE && kind != GROUP;
      if || (field.proto3Optional &&
             !(syntax == Proto3 && cardinality == OPTIONAL && oneof.Some?
               && Sharing(message.fields, field.oneofIndex) == 1))
         || (oneof.Some? && cardinality != OPTIONAL)
         || (syntax == Proto3 && cardinality == REQUIRED)
         || (field.packed == Some(true) && !(packable && cardinality == REPEATED))
      then None
      else Some(FieldRecord(
        field.number, field.name, kind, cardinality, reference, oneof, field.proto3Optional,
        cardinality != REPEATED && (syntax == Proto2 || oneof.Some? || kind == MESSAGE || kind == GROUP),
        packable && cardinality == REPEATED && (if field.packed.Some? then field.packed.value else syntax == Proto3),
        field.defaultValue,
        if field.jsonName.Some? then field.jsonName.value else JsonName(field.name, false)))
  }

  // ----- definitions -----

  predicate ByNumber(a: Field, b: Field) { a.number <= b.number }

  predicate ByRange(a: (i32, i32), b: (i32, i32)) { a.0 < b.0 || (a.0 == b.0 && a.1 <= b.1) }

  predicate ByNumberThenName(a: Value, b: Value) {
    a.number < b.number || (a.number == b.number && StrLeq(a.name, b.name))
  }

  function Numbers(fields: seq<Field>): (ns: seq<i32>)
    ensures |ns| == |fields|
  {
    seq(|fields|, i requires 0 <= i < |fields| => fields[i].number)
  }

  function NamesOf<T>(items: seq<T>, name: T -> Str): (ns: seq<Str>)
    ensures |ns| == |items|
  {
    seq(|items|, i requires 0 <= i < |items| => name(items[i]))
  }

  function FieldNames(fields: seq<Field>): seq<Str> {
    NamesOf(fields, (f: Field) => f.name)
  }

  /** Every field numbered and named, no number or name used twice. */
  ghost predicate FieldsDistinct(fields: seq<Field>) {
    && (forall i :: 0 <= i < |fields| ==> fields[i].number > 0 && fields[i].name != [])
    && NoRepeats(Numbers(fields)) && NoRepeats(FieldNames(fields))
  }

  ghost predicate FieldsConsistent(d: Definitions, scope: Str, syntax: Syntax, message: Message, fields: seq<Field>) {
    forall i :: 0 <= i < |fields| ==> FieldOf(d, scope, syntax, message, fields[i]).Some?
  }

  ghost predicate FieldsAdmissible(d: Definitions, scope: Str, syntax: Syntax, message: Message, fields: seq<Field>) {
    FieldsDistinct(fields) && FieldsConsistent(d, scope, syntax, message, fields)
  }

  ghost predicate MessageAdmissible(d: Definitions, scope: Str, syntax: Syntax, message: Message) {
    && !message.extended
    && NoRepeats(message.oneofs) && [] !in message.oneofs
    && FieldsAdmissible(d, scope, syntax, message, Sort(message.fields, ByNumber))
  }

  ghost function FieldsOf(d: Definitions, scope: Str, syntax: Syntax, message: Message,
                          fields: seq<Field>): (fs: seq<FieldRecord>)
    requires FieldsAdmissible(d, scope, syntax, message, fields)
    ensures |fs| == |fields|
    ensures forall i :: 0 <= i < |fs| ==> Some(fs[i]) == FieldOf(d, scope, syntax, message, fields[i])
  {
    seq(|fields|, i requires 0 <= i < |fields| => FieldOf(d, scope, syntax, message, fields[i]).value)
  }

  ghost function MessageOf(d: Definitions, scope: Str, syntax: Syntax, message: Message): Body
    requires MessageAdmissible(d, scope, syntax, message)
  {
    MessageBody(message.mapEntry, message.wireFormat,
                Sort(message.reservedRanges, ByRange), Sort(message.reservedNames, StrLeq),
                Sort(message.oneofs, StrLeq),
                FieldsOf(d, scope, syntax, message, Sort(message.fields, ByNumber)))
  }

  function ValueNames(values: seq<Value>): seq<Str> {
    NamesOf(values, (v: Value) => v.name)
  }

  ghost predicate ValuesAdmissible(values: seq<Value>) {
    (forall i :: 0 <= i < |values| ==> values[i].name != []) && NoRepeats(ValueNames(values))
  }

  ghost predicate EnumAdmissible(e: Enumeration) {
    |e.values| > 0 && ValuesAdmissible(Sort(e.values, ByNumberThenName))
  }

  function EnumOf(e: Enumeration): Body
    requires |e.values| > 0
  {
    EnumBody(e.values[0].number, e.allowAlias, Sort(e.reservedRanges, ByRange),
             Sort(e.reservedNames, StrLeq), Sort(e.values, ByNumberThenName))
  }

  const PROTO2: Str := [112, 114, 111, 116, 111, 50]
  const PROTO3: Str := [112, 114, 111, 116, 111, 51]

  function SyntaxOf(file: File): Option<Syntax> {
    if file.syntax == [] || file.syntax == PROTO2 then Some(Proto2)
    else if file.syntax == PROTO3 then Some(Proto3)
    else None
  }

  /** The record of definition `name`, if every check on it passes. */
  ghost function RecordOf(d: Definitions, name: Str): Option<Record>
    requires name in d
  {
    var syntax := SyntaxOf(d[name].file);
    if syntax.None? then None
    else match d[name].definition
      case MessageDef(m) =>
        if MessageAdmissible(d, name, syntax.value, m)
        then Some(Record(name, syntax.value, MessageOf(d, name, syntax.value, m))) else None
      case EnumDef(e) =>
        if EnumAdmissible(e) then Some(Record(name, syntax.value, EnumOf(e))) else None
  }

  // ----- the items a record is written as -----

  function RangePairs(ranges: seq<(i32, i32)>): seq<Item> {
    if ranges == [] then []
    else RangePairs(ranges[..|ranges| - 1]) + [Int(ranges[|ranges| - 1].0), Int(ranges[|ranges| - 1].1)]
  }

  function Texts(texts: seq<Str>): seq<Item> {
    seq(|texts|, i requires 0 <= i < |texts| => Text(texts[i]))
  }

  function FieldWords(f: FieldRecord): seq<Item> {
    [Int(f.number), Text(f.name), Int(f.kind), Int(f.cardinality), Optional(f.reference), Optional(f.oneof),
     Flag(f.proto3Optional), Flag(f.presence), Flag(f.packed), Optional(f.defaultValue), Text(f.jsonName)]
  }

  function FieldsWords(fields: seq<FieldRecord>): seq<Item> {
    if fields == [] then []
    else FieldsWords(fields[..|fields| - 1]) + FieldWords(fields[|fields| - 1])
  }

  function ValuePairs(values: seq<Value>): seq<Item> {
    if values == [] then []
    else ValuePairs(values[..|values| - 1]) + [Int(values[|values| - 1].number), Text(values[|values| - 1].name)]
  }

  function RangeItems(ranges: seq<(i32, i32)>): seq<Item> { [Count(|ranges|)] + RangePairs(ranges) }

  function TextItems(texts: seq<Str>): seq<Item> { [Count(|texts|)] + Texts(texts) }

  function FieldItems(fields: seq<FieldRecord>): seq<Item> { [Count(|fields|)] + FieldsWords(fields) }

  function ValueItems(values: seq<Value>): seq<Item> { [Count(|values|)] + ValuePairs(values) }

  function BodyItems(body: Body): seq<Item> {
    match body
    case MessageBody(mapEntry, wireFormat, ranges, names, oneofs, fields) =>
      [Flag(mapEntry), Flag(wireFormat)]
      + (RangeItems(ranges) + (TextItems(names) + (TextItems(oneofs) + FieldItems(fields))))
    case EnumBody(default, allowAlias, ranges, names, values) =>
      [Int(default), Flag(allowAlias)] + (RangeItems(ranges) + (TextItems(names) + ValueItems(values)))
  }

  function SyntaxText(syntax: Syntax): Str {
    if syntax == Proto2 then PROTO2 else PROTO3
  }

  function RecordItems(r: Record): seq<Item> {
    [Text(r.name), Text(SyntaxText(r.syntax)), Byte(if r.body.MessageBody? then 1 else 2)] + BodyItems(r.body)
  }

  function RecordBytes(r: Record): seq<byte> {
    Write(RecordItems(r))
  }

  // ----- the same bytes, as the encoders append them -----

  function AppendRanges(bytes: seq<byte>, ranges: seq<(i32, i32)>): seq<byte> {
    if ranges == [] then bytes
    else
      var last := ranges[|ranges| - 1];
      Append(Append(AppendRanges(bytes, ranges[..|ranges| - 1]), Int(last.0)), Int(last.1))
  }

  function AppendTexts(bytes: seq<byte>, texts: seq<Str>): seq<byte> {
    if texts == [] then bytes
    else Append(AppendTexts(bytes, texts[..|texts| - 1]), Text(texts[|texts| - 1]))
  }

  function AppendValues(bytes: seq<byte>, values: seq<Value>): seq<byte> {
    if values == [] then bytes
    else
      var last := values[|values| - 1];
      Append(Append(AppendValues(bytes, values[..|values| - 1]), Int(last.number)), Text(last.name))
  }

  function AppendField(bytes: seq<byte>, f: FieldRecord): seq<byte> {
    Append(Append(Append(Append(Append(Append(Append(Append(Append(Append(Append(bytes,
      Int(f.number)), Text(f.name)), Int(f.kind)), Int(f.cardinality)), Optional(f.reference)), Optional(f.oneof)),
      Flag(f.proto3Optional)), Flag(f.presence)), Flag(f.packed)), Optional(f.defaultValue)), Text(f.jsonName))
  }

  function AppendFields(bytes: seq<byte>, fields: seq<FieldRecord>): seq<byte> {
    if fields == [] then bytes
    else AppendField(AppendFields(bytes, fields[..|fields| - 1]), fields[|fields| - 1])
  }

  function AppendCountedRanges(bytes: seq<byte>, ranges: seq<(i32, i32)>): seq<byte> {
    AppendRanges(Append(bytes, Count(|ranges|)), ranges)
  }

  function AppendCountedTexts(bytes: seq<byte>, texts: seq<Str>): seq<byte> {
    AppendTexts(Append(bytes, Count(|texts|)), texts)
  }

  function AppendBody(bytes: seq<byte>, body: Body): seq<byte> {
    match body
    case MessageBody(mapEntry, wireFormat, ranges, names, oneofs, fields) =>
      AppendFields(Append(
        AppendCountedTexts(AppendCountedTexts(AppendCountedRanges(
          Append(Append(bytes, Flag(mapEntry)), Flag(wireFormat)), ranges), names), oneofs),
        Count(|fields|)), fields)
    case EnumBody(default, allowAlias, ranges, names, values) =>
      AppendValues(Append(
        AppendCountedTexts(AppendCountedRanges(
          Append(Append(bytes, Int(default)), Flag(allowAlias)), ranges), names),
        Count(|values|)), values)
  }

  function AppendRecord(r: Record): seq<byte> {
    AppendBody(
      Append(Append(Append([], Text(r.name)), Text(SyntaxText(r.syntax))), Byte(if r.body.MessageBody? then 1 else 2)),
      r.body)
  }

  lemma AppendTwo(bytes: seq<byte>, items: seq<Item>, a: Item, b: Item)
    ensures Append(Append(bytes + Write(items), a), b) == bytes + Write(items + [a, b])
  {
    hide Append, Write;
    AppendWrite(bytes, items, a);
    AppendWrite(bytes, items + [a], b);
    assert items + [a] + [b] == items + [a, b];
  }

  lemma {:induction false} AppendRangesWrite(bytes: seq<byte>, items: seq<Item>, ranges: seq<(i32, i32)>)
    ensures AppendRanges(bytes + Write(items), ranges) == bytes + Write(items + RangePairs(ranges))
  {
    hide Append, Write;
    if ranges == [] {
      assert items + [] == items;
    } else {
      var front, last := ranges[..|ranges| - 1], ranges[|ranges| - 1];
      AppendRangesWrite(bytes, items, front);
      AppendTwo(bytes, items + RangePairs(front), Int(last.0), Int(last.1));
      assert items + RangePairs(front) + [Int(last.0), Int(last.1)] == items + RangePairs(ranges);
    }
  }

  lemma {:induction false} AppendTextsWrite(bytes: seq<byte>, items: seq<Item>, texts: seq<Str>)
    ensures AppendTexts(bytes + Write(items), texts) == bytes + Write(items + Texts(texts))
  {
    hide Append, Write;
    if texts == [] {
      assert items + Texts(texts) == items;
    } else {
      var front, last := texts[..|texts| - 1], texts[|texts| - 1];
      AppendTextsWrite(bytes, items, front);
      AppendWrite(bytes, items + Texts(front), Text(last));
      assert items + Texts(front) + [Text(last)] == items + Texts(texts);
    }
  }

  lemma {:induction false} AppendValuesWrite(bytes: seq<byte>, items: seq<Item>, values: seq<Value>)
    ensures AppendValues(bytes + Write(items), values) == bytes + Write(items + ValuePairs(values))
  {
    hide Append, Write;
    if values == [] {
      assert items + [] == items;
    } else {
      var front, last := values[..|values| - 1], values[|values| - 1];
      AppendValuesWrite(bytes, items, front);
      AppendTwo(bytes, items + ValuePairs(front), Int(last.number), Text(last.name));
      assert items + ValuePairs(front) + [Int(last.number), Text(last.name)] == items + ValuePairs(values);
    }
  }

  lemma AppendFieldWrite(bytes: seq<byte>, items: seq<Item>, f: FieldRecord)
    ensures AppendField(bytes + Write(items), f) == bytes + Write(items + FieldWords(f))
  {
    hide Append, Write;
    var w := FieldWords(f);
    AppendTwo(bytes, items, w[0], w[1]);
    AppendTwo(bytes, items + w[..2], w[2], w[3]);
    assert items + w[..2] + [w[2], w[3]] == items + w[..4];
    AppendTwo(bytes, items + w[..4], w[4], w[5]);
    assert items + w[..4] + [w[4], w[5]] == items + w[..6];
    AppendTwo(bytes, items + w[..6], w[6], w[7]);
    assert items + w[..6] + [w[6], w[7]] == items + w[..8];
    AppendTwo(bytes, items + w[..8], w[8], w[9]);
    assert items + w[..8] + [w[8], w[9]] == items + w[..10];
    AppendWrite(bytes, items + w[..10], w[10]);
    assert items + w[..10] + [w[10]] == items + w;
    assert items + w[..2] == items + [w[0], w[1]];
  }

  lemma {:induction false} AppendFieldsWrite(bytes: seq<byte>, items: seq<Item>, fields: seq<FieldRecord>)
    ensures AppendFields(bytes + Write(items), fields) == bytes + Write(items + FieldsWords(fields))
  {
    hide Append, Write;
    if fields == [] {
      assert items + [] == items;
    } else {
      var front, last := fields[..|fields| - 1], fields[|fields| - 1];
      AppendFieldsWrite(bytes, items, front);
      AppendFieldWrite(bytes, items + FieldsWords(front), last);
      assert items + FieldsWords(front) + FieldWords(last) == items + FieldsWords(fields);
    }
  }

  lemma AppendCountedRangesWrite(bytes: seq<byte>, items: seq<Item>, ranges: seq<(i32, i32)>)
    ensures AppendCountedRanges(bytes + Write(items), ranges) == bytes + Write(items + RangeItems(ranges))
  {
    hide Append, Write;
    AppendWrite(bytes, items, Count(|ranges|));
    AppendRangesWrite(bytes, items + [Count(|ranges|)], ranges);
    assert items + [Count(|ranges|)] + RangePairs(ranges) == items + RangeItems(ranges);
  }

  lemma AppendCountedTextsWrite(bytes: seq<byte>, items: seq<Item>, texts: seq<Str>)
    ensures AppendCountedTexts(bytes + Write(items), texts) == bytes + Write(items + TextItems(texts))
  {
    hide Append, Write;
    AppendWrite(bytes, items, Count(|texts|));
    AppendTextsWrite(bytes, items + [Count(|texts|)], texts);
    assert items + [Count(|texts|)] + Texts(texts) == items + TextItems(texts);
  }

  lemma AppendHeadWrite(bytes: seq<byte>, items: seq<Item>, a: Item, b: Item, ranges: seq<(i32, i32)>, names: seq<Str>)
    ensures AppendCountedTexts(AppendCountedRanges(Append(Append(bytes + Write(items), a), b), ranges), names)
         == bytes + Write(items + [a, b] + RangeItems(ranges) + TextItems(names))
  {
    hide Append, Write;
    AppendTwo(bytes, items, a, b);
    AppendCountedRangesWrite(bytes, items + [a, b], ranges);
    AppendCountedTextsWrite(bytes, items + [a, b] + RangeItems(ranges), names);
  }

  lemma AppendFieldItemsWrite(bytes: seq<byte>, items: seq<Item>, fields: seq<FieldRecord>)
    ensures AppendFields(Append(bytes + Write(items), Count(|fields|)), fields) ==
            bytes + Write(items + FieldItems(fields))
  {
    hide Append, Write;
    AppendWrite(bytes, items, Count(|fields|));
    AppendFieldsWrite(bytes, items + [Count(|fields|)], fields);
    assert items + [Count(|fields|)] + FieldsWords(fields) == items + FieldItems(fields);
  }

  lemma AppendValueItemsWrite(bytes: seq<byte>, items: seq<Item>, values: seq<Value>)
    ensures AppendValues(Append(bytes + Write(items), Count(|values|)), values) ==
            bytes + Write(items + ValueItems(values))
  {
    hide Append, Write;
    AppendWrite(bytes, items, Count(|values|));
    AppendValuesWrite(bytes, items + [Count(|values|)], values);
    assert items + [Count(|values|)] + ValuePairs(values) == items + ValueItems(values);
  }

  lemma Nested<T>(a: seq<T>, b: seq<T>, c: seq<T>, d: seq<T>)
    ensures a + b + c + d == a + (b + (c + d))
  {}

  lemma AppendBodyWrite(bytes: seq<byte>, items: seq<Item>, body: Body)
    ensures AppendBody(bytes + Write(items), body) == bytes + Write(items + BodyItems(body))
  {
    hide Append, Write, RangeItems, TextItems, FieldItems, ValueItems, AppendCountedTexts, AppendCountedRanges;
    hide AppendFields, AppendValues;
    match body
    case MessageBody(mapEntry, wireFormat, ranges, names, oneofs, fields) =>
      var h := items + [Flag(mapEntry), Flag(wireFormat)] + RangeItems(ranges) + TextItems(names);
      AppendHeadWrite(bytes, items, Flag(mapEntry), Flag(wireFormat), ranges, names);
      AppendCountedTextsWrite(bytes, h, oneofs);
      AppendFieldItemsWrite(bytes, h + TextItems(oneofs), fields);
      Nested(items, [Flag(mapEntry), Flag(wireFormat)], RangeItems(ranges),
             TextItems(names) + (TextItems(oneofs) + FieldItems(fields)));
      Nested(items + [Flag(mapEntry), Flag(wireFormat)] + RangeItems(ranges), TextItems(names), TextItems(oneofs),
             FieldItems(fields));
    case EnumBody(default, allowAlias, ranges, names, values) =>
      var h := items + [Int(default), Flag(allowAlias)] + RangeItems(ranges) + TextItems(names);
      AppendHeadWrite(bytes, items, Int(default), Flag(allowAlias), ranges, names);
      AppendValueItemsWrite(bytes, h, values);
      Nested(items, [Int(default), Flag(allowAlias)], RangeItems(ranges), TextItems(names) + ValueItems(values));
      assert h + ValueItems(values) ==
        items + [Int(default), Flag(allowAlias)] + RangeItems(ranges) + (TextItems(names) + ValueItems(values));
  }

  /** The encoders' output is the record's item sequence, word by word. */
  lemma AppendRecordWrite(r: Record)
    ensures AppendRecord(r) == RecordBytes(r)
  {
    var head := [Text(r.name), Text(SyntaxText(r.syntax))];
    var tag := Byte(if r.body.MessageBody? then 1 else 2);
    assert [] + Write([]) == [];
    AppendTwo([], [], head[0], head[1]);
    assert [] + head == head;
    AppendWrite([], head, tag);
    assert head + [tag] == [head[0], head[1], tag];
    AppendBodyWrite([], head + [tag], r.body);
    assert [] + Write(head + [tag] + BodyItems(r.body)) == Write(RecordItems(r));
  }

  /** The definitions a record refers to, in field order. */
  function References(fields: seq<FieldRecord>): seq<Str> {
    if fields == [] then []
    else
      var last := fields[|fields| - 1].reference;
      References(fields[..|fields| - 1]) + (if last.Some? then [last.value] else [])
  }

  function BodyReferences(body: Body): seq<Str> {
    if body.MessageBody? then References(body.fields) else []
  }

  lemma {:induction false} ReferencesIn(fields: seq<FieldRecord>, r: Str)
    ensures r in References(fields) <==> exists i :: 0 <= i < |fields| && fields[i].reference == Some(r)
  {
    if fields != [] {
      ReferencesIn(fields[..|fields| - 1], r);
      if i :| 0 <= i < |fields| && fields[i].reference == Some(r) {
        if i < |fields| - 1 {
          assert fields[..|fields| - 1][i] == fields[i];
        }
      }
    }
  }

  /** References lead only to definitions, so the walk never looks up a missing name. */
  lemma ReferencesDefined(d: Definitions, name: Str, r: Str)
    requires name in d && RecordOf(d, name).Some?
    requires r in BodyReferences(RecordOf(d, name).value.body)
    ensures r in d
  {
    var body := RecordOf(d, name).value.body;
    ReferencesIn(body.fields, r);
    var i :| 0 <= i < |body.fields| && body.fields[i].reference == Some(r);
    var m := d[name].definition.message;
    var syntax := SyntaxOf(d[name].file).value;
    var fields := Sort(m.fields, ByNumber);
    assert FieldOf(d, name, syntax, m, fields[i]) == Some(body.fields[i]);
  }
}
