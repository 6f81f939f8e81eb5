/**
 What a schema fingerprint covers, said of the descriptors alone: which definitions are legal, which ones a
 message needs, and when two definitions are the same.
 */
module SchemaContent {
  import opened Prelude
  import opened Order
  import opened Canonical
  import opened Descriptor
  import opened SchemaRecord
  import opened FieldRules
  import opened Fingerprint
  import opened SchemaIdentity
  import opened SchemaOrder
  import opened Graph

  // ----- legal definitions -----

  /** Every file is proto2 unless it says proto3. */
  function Edition(file: File): Syntax {
    if file.syntax == PROTO3 then Proto3 else Proto2
  }

  ghost predicate FieldLegal(d: Definitions, name: Str, syntax: Syntax, m: Message, f: Field) {
    && f.number > 0 && f.name != []
    && exists kind, reference :: Typed(d, name, f, kind, reference) && Lawful(syntax, m, f, kind)
  }

  ghost predicate MessageLegal(d: Definitions, name: Str, syntax: Syntax, m: Message) {
    && !m.extended && NoRepeats(m.oneofs) && [] !in m.oneofs
    && DistinctBy(m.fields, (f: Field) => f.number) && DistinctBy(m.fields, (f: Field) => f.name)
    && forall f :: f in m.fields ==> FieldLegal(d, name, syntax, m, f)
  }

  ghost predicate EnumLegal(e: Enumeration) {
    && e.values != [] && DistinctBy(e.values, (v: Value) => v.name)
    && forall v :: v in e.values ==> v.name != []
  }

  /** The definition is in a file of a known syntax, and keeps the rules for its kind. */
  ghost predicate Legal(d: Definitions, name: Str) {
    && name in d && (d[name].file.syntax == [] || d[name].file.syntax == PROTO2 || d[name].file.syntax == PROTO3)
    && match d[name].definition
       case MessageDef(m) => MessageLegal(d, name, Edition(d[name].file), m)
       case EnumDef(e) => EnumLegal(e)
  }

  lemma SortKeeps<T(!new)>(s: seq<T>, leq: (T, T) -> bool)
    requires TotalPreorder(leq)
    ensures multiset(Sort(s, leq)) == multiset(s) && forall x :: x in Sort(s, leq) <==> x in s
  {
    SortProperties(s, leq);
    hide Sort;
    forall x ensures x in Sort(s, leq) <==> x in s {
      assert x in multiset(s) <==> x in multiset(Sort(s, leq));
    }
  }

  lemma NumberOrder()
    ensures TotalPreorder(ByNumber)
  {}

  /** Named, numbered and distinct in one order is so in the other. */
  lemma DistinctSorted(fields: seq<Field>, sorted: seq<Field>)
    requires multiset(sorted) == multiset(fields) && forall f :: f in sorted <==> f in fields
    ensures FieldsDistinct(sorted) <==>
            && DistinctBy(fields, (f: Field) => f.number) && DistinctBy(fields, (f: Field) => f.name)
            && forall f :: f in fields ==> f.number > 0 && f.name != []
  {
    var number, name := (f: Field) => f.number, (f: Field) => f.name;
    DistinctEither(fields, sorted, number);
    DistinctEither(fields, sorted, name);
    assert NoRepeats(Numbers(sorted)) <==> DistinctBy(sorted, number) by {
      assert forall i :: 0 <= i < |sorted| ==> Numbers(sorted)[i] == number(sorted[i]);
    }
    assert NoRepeats(FieldNames(sorted)) <==> DistinctBy(sorted, name) by {
      assert forall i :: 0 <= i < |sorted| ==> FieldNames(sorted)[i] == name(sorted[i]);
    }
  }

  lemma DistinctEither<T(!new), K>(s: seq<T>, t: seq<T>, key: T -> K)
    requires multiset(s) == multiset(t)
    ensures DistinctBy(s, key) <==> DistinctBy(t, key)
  {
    if DistinctBy(s, key) { StillDistinct(s, t, key); }
    if DistinctBy(t, key) { StillDistinct(t, s, key); }
  }

  /** Every field of a message, in either order, can be typed and is lawful exactly when it has a record. */
  lemma FieldsLegalExact(d: Definitions, name: Str, syntax: Syntax, m: Message, sorted: seq<Field>)
    requires forall f :: f in sorted <==> f in m.fields
    requires forall f :: f in m.fields ==> f.number > 0 && f.name != []
    ensures FieldsConsistent(d, name, syntax, m, sorted) <==>
            forall f :: f in m.fields ==> FieldLegal(d, name, syntax, m, f)
  {
    hide FieldOf, Typed, Lawful;
    forall f | f in m.fields ensures FieldOf(d, name, syntax, m, f).Some? <==> FieldLegal(d, name, syntax, m, f) {
      RecordedFieldRules(d, name, syntax, m, f);
    }
    hide FieldLegal;
    if FieldsConsistent(d, name, syntax, m, sorted) {
      forall f | f in m.fields ensures FieldLegal(d, name, syntax, m, f) {
        var i :| 0 <= i < |sorted| && sorted[i] == f;
      }
    }
  }

  lemma MessageLegalExact(d: Definitions, name: Str, syntax: Syntax, m: Message)
    ensures MessageAdmissible(d, name, syntax, m) <==> MessageLegal(d, name, syntax, m)
  {
    var sorted := Sort(m.fields, ByNumber);
    NumberOrder();
    SortKeeps(m.fields, ByNumber);
    DistinctSorted(m.fields, sorted);
    hide Sort, FieldOf, Typed, Lawful, FieldsDistinct, DistinctBy, FieldsConsistent;
    if forall f :: f in m.fields ==> f.number > 0 && f.name != [] {
      FieldsLegalExact(d, name, syntax, m, sorted);
    } else {
      var f :| f in m.fields && !(f.number > 0 && f.name != []);
      assert !FieldLegal(d, name, syntax, m, f);
    }
  }

  lemma EnumLegalExact(e: Enumeration)
    ensures EnumAdmissible(e) <==> EnumLegal(e)
  {
    var sorted := Sort(e.values, ByNumberThenName);
    var name := (v: Value) => v.name;
    ValueOrder();
    SortKeeps(e.values, ByNumberThenName);
    DistinctEither(e.values, sorted, name);
    hide Sort;
    assert NoRepeats(ValueNames(sorted)) <==> DistinctBy(sorted, name) by {
      assert forall i :: 0 <= i < |sorted| ==> ValueNames(sorted)[i] == name(sorted[i]);
    }
  }

  lemma SyntaxKnown(file: File)
    ensures SyntaxOf(file).Some? <==> file.syntax == [] || file.syntax == PROTO2 || file.syntax == PROTO3
    ensures SyntaxOf(file).Some? ==> SyntaxOf(file) == Some(Edition(file))
  {
    assert PROTO2[5] != PROTO3[5];
  }

  /** A definition has a record exactly when it is legal. */
  lemma LegalExact(d: Definitions, name: Str)
    requires name in d
    ensures RecordOf(d, name).Some? <==> Legal(d, name)
    ensures RecordOf(d, name).Some? ==> SyntaxOf(d[name].file) == Some(Edition(d[name].file))
  {
    SyntaxKnown(d[name].file);
    hide MessageAdmissible, MessageLegal, EnumAdmissible, EnumLegal, PROTO2, PROTO3, SyntaxOf;
    match d[name].definition
    case MessageDef(m) => MessageLegalExact(d, name, Edition(d[name].file), m);
    case EnumDef(e) => EnumLegalExact(e);
  }

  lemma FramingWords(header: Str, root: Str, n: nat)
    ensures Write([Text(header), Byte(2), Byte(0), Text(root), Count(n)]) ==
            Word(Text(header)) + [2, 0] + Word(Text(root)) + Word(Count(n))
  {
    var a, b, c, d, e := Text(header), Byte(2), Byte(0), Text(root), Count(n);
    FiveAppended(a, b, c, d, e);
    assert Word(b) == [2] && Word(c) == [0];
    hide Word, Write;
    assert [] + Word(a) == Word(a) && Word(a) + [2] + [0] == Word(a) + [2, 0];
  }

  /** The bytes that are hashed: header, version 2, root, number of records, and the records in name order. */
  lemma SchemaFraming(d: Definitions, root: Str)
    requires Encodable(d, root)
    ensures var names := Arranged(Closure(d, root));
            && Members(d, root)
            && SchemaBytes(d, root) ==
                 Word(Text(HEADER)) + [2, 0] + Word(Text(root)) + Word(Count(|names|))
                 + Write(Texts(RecordsOf(d, names)))
  {
    ArrangedMembers(d, root);
    var names := Arranged(Closure(d, root));
    ListsMultiset(names, Closure(d, root));
    hide RecordOf, Closure, HEADER, Word, Write, Texts, RecordsOf, Lists;
    WriteConcat([Text(HEADER), Byte(2), Byte(0), Text(root), Count(|names|)], Texts(RecordsOf(d, names)));
    FramingWords(HEADER, root, |names|);
  }

  // ----- what a definition needs -----

  /** A field of message `name` has type `other`. */
  ghost predicate Refers(d: Definitions, name: Str, other: Str) {
    && name in d && d[name].definition.MessageDef?
    && exists f, kind :: f in d[name].definition.message.fields && Typed(d, name, f, kind, Some(other))
  }

  ghost predicate Chain(d: Definitions, p: seq<Str>) {
    |p| > 0 && forall i {:trigger p[i]} :: 0 <= i < |p| - 1 ==> Refers(d, p[i], p[i + 1])
  }

  /** `name` is `root`, or the type of a field of a message that `root` needs. */
  ghost predicate Needs(d: Definitions, root: Str, name: Str) {
    exists p :: Chain(d, p) && p[0] == root && p[|p| - 1] == name
  }

  lemma RecordFields(d: Definitions, name: Str)
    requires name in d && RecordOf(d, name).Some? && d[name].definition.MessageDef?
    ensures var m, b := d[name].definition.message, RecordOf(d, name).value.body;
            var sorted := Sort(m.fields, ByNumber);
            && b.MessageBody? && |b.fields| == |sorted| && (forall f :: f in sorted <==> f in m.fields)
            && forall i :: 0 <= i < |sorted| ==>
                 FieldOf(d, name, Edition(d[name].file), m, sorted[i]) == Some(b.fields[i])
  {
    LegalExact(d, name);
    NumberOrder();
    SortKeeps(d[name].definition.message.fields, ByNumber);
    hide Sort, FieldOf, SyntaxOf, FieldsDistinct;
  }

  /** The record of a message refers to the types of its fields. */
  lemma RefersExact(d: Definitions, name: Str, other: Str)
    requires name in d && RecordOf(d, name).Some?
    ensures other in BodyReferences(RecordOf(d, name).value.body) <==> Refers(d, name, other)
  {
    hide FieldOf, Typed, Sort, SyntaxOf;
    if d[name].definition.MessageDef? {
      RecordFields(d, name);
      var m, b, syntax := d[name].definition.message, RecordOf(d, name).value.body, Edition(d[name].file);
      hide RecordOf;
      var sorted := Sort(m.fields, ByNumber);
      ReferencesIn(b.fields, other);
      if i :| 0 <= i < |b.fields| && b.fields[i].reference == Some(other) {
        RecordedFieldSays(d, name, syntax, m, sorted[i]);
        assert Typed(d, name, sorted[i], b.fields[i].kind, Some(other));
      }
      if f, kind :| f in m.fields && Typed(d, name, f, kind, Some(other)) {
        var i :| 0 <= i < |sorted| && sorted[i] == f;
        RecordedFieldSays(d, name, syntax, m, f);
        TypedOnce(d, name, f, kind, Some(other), b.fields[i].kind, b.fields[i].reference);
      }
    }
  }

  lemma TypedOnce(d: Definitions, name: Str, f: Field, kind: i32, reference: Option<Str>, kind': i32,
                  reference': Option<Str>)
    requires Typed(d, name, f, kind, reference) && Typed(d, name, f, kind', reference')
    ensures kind == kind' && reference == reference'
  {
    hide Typed;
    TypedExact(d, name, f, kind, reference);
    TypedExact(d, name, f, kind', reference');
  }

  lemma WalkIsChain(d: Definitions, p: seq<Str>)
    requires Walk(ReferenceGraph(d), p)
    ensures Chain(d, p)
  {
    hide RecordOf, Refers, BodyReferences;
    forall i {:trigger p[i]} | 0 <= i < |p| - 1 ensures Refers(d, p[i], p[i + 1]) {
      assert p[i + 1] in Next(ReferenceGraph(d), p[i]);
      RefersExact(d, p[i], p[i + 1]);
    }
  }

  lemma {:induction false} ChainInClosure(d: Definitions, root: Str, p: seq<Str>)
    requires Encodable(d, root) && root in d && Chain(d, p) && p[0] == root
    ensures p[|p| - 1] in Closure(d, root)
  {
    hide RecordOf, Refers, BodyReferences;
    if |p| == 1 {
      ReachSelf(ReferenceGraph(d), root);
    } else {
      var n := |p| - 2;
      assert Refers(d, p[n], p[n + 1]);
      assert Chain(d, p[..n + 1]);
      ChainInClosure(d, root, p[..n + 1]);
      RefersExact(d, p[n], p[n + 1]);
      ReferencesDefined(d, p[n], p[n + 1]);
      ReachSnoc(ReferenceGraph(d), root, p[n], p[n + 1]);
    }
  }

  /** A message can be fingerprinted exactly when everything it needs is legal. */
  lemma EncodableExact(d: Definitions, root: Str)
    requires root in d
    ensures Encodable(d, root) <==> forall n :: Needs(d, root, n) ==> Legal(d, n)
  {
    hide RecordOf, Legal, Refers, ReferenceGraph;
    if Encodable(d, root) {
      forall n | Needs(d, root, n) ensures Legal(d, n) {
        var p :| Chain(d, p) && p[0] == root && p[|p| - 1] == n;
        ChainInClosure(d, root, p);
        LegalExact(d, n);
      }
    } else {
      var n :| n in Closure(d, root) && RecordOf(d, n).None?;
      var p :| Walk(ReferenceGraph(d), p) && p[0] == root && p[|p| - 1] == n;
      WalkIsChain(d, p);
      assert Needs(d, root, n);
      LegalExact(d, n);
    }
  }

  /** The closure is what the message needs. */
  lemma ClosureExact(d: Definitions, root: Str, n: Str)
    requires root in d && Encodable(d, root)
    ensures n in Closure(d, root) <==> Needs(d, root, n)
  {
    hide RecordOf, Encodable, Refers, ReferenceGraph;
    if n in Closure(d, root) {
      var p :| Walk(ReferenceGraph(d), p) && p[0] == root && p[|p| - 1] == n;
      WalkIsChain(d, p);
    }
    if Needs(d, root, n) {
      var p :| Chain(d, p) && p[0] == root && p[|p| - 1] == n;
      ChainInClosure(d, root, p);
    }
  }

  // ----- the same definition -----

  /** Two fields with the same number, name, type, oneof, flags, default value and JSON name. */
  ghost predicate SameField(d: Definitions, m: Message, f: Field, e: Definitions, w: Message, g: Field, name: Str,
                            syntax: Syntax)
  {
    && f.number == g.number && f.name == g.name && Cardinality(f) == Cardinality(g)
    && OneofOf(m, f) == OneofOf(w, g) && f.proto3Optional == g.proto3Optional
    && f.defaultValue == g.defaultValue && JsonOf(f) == JsonOf(g)
    && exists kind, reference ::
         && Typed(d, name, f, kind, reference) && Typed(e, name, g, kind, reference)
         && Packs(syntax, f, kind) == Packs(syntax, g, kind)
  }

  ghost predicate SameMessage(d: Definitions, m: Message, e: Definitions, w: Message, name: Str, syntax: Syntax) {
    && m.mapEntry == w.mapEntry && m.wireFormat == w.wireFormat
    && multiset(m.reservedRanges) == multiset(w.reservedRanges)
    && multiset(m.reservedNames) == multiset(w.reservedNames)
    && (forall o :: o in m.oneofs <==> o in w.oneofs)
    && SameFields(d, m, e, w, name, syntax)
  }

  ghost predicate SameEnum(a: Enumeration, b: Enumeration) {
    && a.values != [] && b.values != [] && a.values[0].number == b.values[0].number && a.allowAlias == b.allowAlias
    && multiset(a.reservedRanges) == multiset(b.reservedRanges)
    && multiset(a.reservedNames) == multiset(b.reservedNames)
    && (forall v :: v in a.values <==> v in b.values)
  }

  /** The definitions of one name in two indexes say the same. */
  ghost predicate SameDefinition(d: Definitions, e: Definitions, name: Str) {
    && name in d && name in e && Edition(d[name].file) == Edition(e[name].file)
    && match (d[name].definition, e[name].definition)
       case (MessageDef(m), MessageDef(w)) => SameMessage(d, m, e, w, name, Edition(d[name].file))
       case (EnumDef(a), EnumDef(b)) => SameEnum(a, b)
       case _ => false
  }

  /** Two fields have one record exactly when they are the same. */
  lemma SameFieldExact(d: Definitions, m: Message, f: Field, e: Definitions, w: Message, g: Field, name: Str,
                       syntax: Syntax)
    requires f in m.fields && FieldOf(d, name, syntax, m, f).Some?
    requires g in w.fields && FieldOf(e, name, syntax, w, g).Some?
    ensures FieldOf(d, name, syntax, m, f) == FieldOf(e, name, syntax, w, g) <==>
            SameField(d, m, f, e, w, g, name, syntax)
  {
    RecordedFieldSays(d, name, syntax, m, f);
    RecordedFieldSays(e, name, syntax, w, g);
    hide FieldOf, Typed, JsonOf, OneofOf, Packs;
    var r, s := FieldOf(d, name, syntax, m, f).value, FieldOf(e, name, syntax, w, g).value;
    if SameField(d, m, f, e, w, g, name, syntax) {
      var kind, reference :|
        && Typed(d, name, f, kind, reference) && Typed(e, name, g, kind, reference)
        && Packs(syntax, f, kind) == Packs(syntax, g, kind);
      TypedOnce(d, name, f, kind, reference, r.kind, r.reference);
      TypedOnce(e, name, g, kind, reference, s.kind, s.reference);
      assert r.presence == s.presence;
    }
  }

  lemma SameNumber(d: Definitions, m: Message, f: Field, e: Definitions, w: Message, g: Field, name: Str,
                   syntax: Syntax)
    requires SameField(d, m, f, e, w, g, name, syntax)
    ensures f.number == g.number
  {}

  /** A field of `w` is the same as `f`. */
  ghost predicate Kept(d: Definitions, m: Message, f: Field, e: Definitions, w: Message, name: Str, syntax: Syntax) {
    exists g :: g in w.fields && SameField(d, m, f, e, w, g, name, syntax)
  }

  /** `g` is the same as a field of `m`. */
  ghost predicate Owed(d: Definitions, m: Message, e: Definitions, w: Message, g: Field, name: Str, syntax: Syntax) {
    exists f :: f in m.fields && SameField(d, m, f, e, w, g, name, syntax)
  }

  /** Each field of either message is the same as one of the other. */
  ghost predicate SameFields(d: Definitions, m: Message, e: Definitions, w: Message, name: Str, syntax: Syntax) {
    && (forall f :: f in m.fields ==> Kept(d, m, f, e, w, name, syntax))
    && (forall g :: g in w.fields ==> Owed(d, m, e, w, g, name, syntax))
  }

  /** A field is kept, or owed, exactly when the tables agree at its number. */
  lemma TablesAt(d: Definitions, m: Message, e: Definitions, w: Message, name: Str, syntax: Syntax, n: i32)
    requires MessageAdmissible(d, name, syntax, m) && MessageAdmissible(e, name, syntax, w)
    ensures var t, u := FieldTable(d, name, syntax, m), FieldTable(e, name, syntax, w);
            && (forall f :: f in m.fields && f.number == n ==>
                  (Kept(d, m, f, e, w, name, syntax) <==> n in u && t[n] == u[n]))
            && (forall g :: g in w.fields && g.number == n ==>
                  (Owed(d, m, e, w, g, name, syntax) <==> n in t && t[n] == u[n]))
  {
    hide FieldTable, MessageAdmissible, FieldOf, SameField;
    var t, u := FieldTable(d, name, syntax, m), FieldTable(e, name, syntax, w);
    forall f, g | f in m.fields && g in w.fields
      ensures SameField(d, m, f, e, w, g, name, syntax) <==> f.number == g.number && t[f.number] == u[g.number]
    {
      SameFieldExact(d, m, f, e, w, g, name, syntax);
      if SameField(d, m, f, e, w, g, name, syntax) { SameNumber(d, m, f, e, w, g, name, syntax); }
      NumbersStay(d, m, f, name, syntax);
      NumbersStay(e, w, g, name, syntax);
    }
  }

  lemma NumbersStay(d: Definitions, m: Message, f: Field, name: Str, syntax: Syntax)
    requires f in m.fields && FieldOf(d, name, syntax, m, f).Some?
    ensures FieldOf(d, name, syntax, m, f).value.number == f.number
  {}

  lemma SameTables(d: Definitions, m: Message, e: Definitions, w: Message, name: Str, syntax: Syntax)
    requires MessageAdmissible(d, name, syntax, m) && MessageAdmissible(e, name, syntax, w)
    ensures FieldTable(d, name, syntax, m) == FieldTable(e, name, syntax, w) <==> SameFields(d, m, e, w, name, syntax)
  {
    hide FieldTable, MessageAdmissible, FieldOf, Kept, Owed;
    var t, u := FieldTable(d, name, syntax, m), FieldTable(e, name, syntax, w);
    if t == u {
      forall f | f in m.fields ensures Kept(d, m, f, e, w, name, syntax) {
        TablesAt(d, m, e, w, name, syntax, f.number);
      }
      forall g | g in w.fields ensures Owed(d, m, e, w, g, name, syntax) {
        TablesAt(d, m, e, w, name, syntax, g.number);
      }
    }
    if SameFields(d, m, e, w, name, syntax) {
      forall n | n in t ensures n in u && t[n] == u[n] { TablesAt(d, m, e, w, name, syntax, n); }
      forall n | n in u ensures n in t { TablesAt(d, m, e, w, name, syntax, n); }
    }
  }

  lemma ElementsSame<T>(a: seq<T>, b: seq<T>)
    ensures Elements(a) == Elements(b) <==> forall x :: x in a <==> x in b
  {
    if Elements(a) == Elements(b) {
      forall x ensures x in a <==> x in b { assert x in Elements(a) <==> x in Elements(b); }
    }
  }

  lemma SameMessageMeaning(d: Definitions, m: Message, e: Definitions, w: Message, name: Str)
    requires name in d && RecordOf(d, name).Some? && d[name].definition == MessageDef(m)
    requires name in e && RecordOf(e, name).Some? && e[name].definition == MessageDef(w)
    ensures MeaningOf(d, name) == MeaningOf(e, name) <==> SameDefinition(d, e, name)
  {
    LegalExact(d, name);
    LegalExact(e, name);
    var syntax := Edition(d[name].file);
    hide Legal, SyntaxOf, FieldTable, MessageAdmissible, Elements, SameFields;
    if Edition(e[name].file) == syntax { SameTables(d, m, e, w, name, syntax); }
    ElementsSame(m.oneofs, w.oneofs);
  }

  lemma SameEnumMeaning(d: Definitions, a: Enumeration, e: Definitions, b: Enumeration, name: Str)
    requires name in d && RecordOf(d, name).Some? && d[name].definition == EnumDef(a)
    requires name in e && RecordOf(e, name).Some? && e[name].definition == EnumDef(b)
    ensures MeaningOf(d, name) == MeaningOf(e, name) <==> SameDefinition(d, e, name)
  {
    LegalExact(d, name);
    LegalExact(e, name);
    EnumLegalExact(a);
    EnumLegalExact(b);
    hide SyntaxOf, EnumAdmissible, Elements;
    ElementsSame(a.values, b.values);
  }

  /** Two legal definitions have one meaning exactly when they say the same. */
  lemma SameMeaningExact(d: Definitions, e: Definitions, name: Str)
    requires name in d && RecordOf(d, name).Some? && name in e && RecordOf(e, name).Some?
    ensures MeaningOf(d, name) == MeaningOf(e, name) <==> SameDefinition(d, e, name)
  {
    match (d[name].definition, e[name].definition)
    case (MessageDef(m), MessageDef(w)) => SameMessageMeaning(d, m, e, w, name);
    case (EnumDef(a), EnumDef(b)) => SameEnumMeaning(d, a, e, b, name);
    case _ => DifferentKinds(d, e, name);
  }

  lemma DifferentKinds(d: Definitions, e: Definitions, name: Str)
    requires name in d && RecordOf(d, name).Some? && name in e && RecordOf(e, name).Some?
    requires d[name].definition.MessageDef? != e[name].definition.MessageDef?
    ensures MeaningOf(d, name) != MeaningOf(e, name) && !SameDefinition(d, e, name)
  {
    hide FieldTable, Elements;
  }

  // ----- the theorem -----

  /** Two messages need the same names, and every one of these is the same definition. */
  ghost predicate SameSchema(d: Definitions, e: Definitions, root: Str) {
    && (forall n :: Needs(d, root, n) <==> Needs(e, root, n))
    && (forall n :: Needs(d, root, n) ==> SameDefinition(d, e, n))
  }

  lemma MeaningAt(d: Definitions, root: Str, n: Str)
    requires root in d && Encodable(d, root)
    ensures n in SchemaMeaning(d, root) <==> Needs(d, root, n)
    ensures n in SchemaMeaning(d, root) ==>
              n in d && RecordOf(d, n).Some? && SchemaMeaning(d, root)[n] == MeaningOf(d, n)
  {
    ClosureExact(d, root, n);
    hide RecordOf, MeaningOf, Needs, ReferenceGraph;
  }

  lemma SameSchemaExact(d: Definitions, e: Definitions, root: Str)
    requires root in d && root in e && Encodable(d, root) && Encodable(e, root)
    ensures SchemaMeaning(d, root) == SchemaMeaning(e, root) <==> SameSchema(d, e, root)
  {
    hide Closure, RecordOf, MeaningOf, Needs, SameDefinition, SchemaMeaning, Encodable;
    var m, w := SchemaMeaning(d, root), SchemaMeaning(e, root);
    forall n
      ensures n in m <==> Needs(d, root, n)
      ensures n in w <==> Needs(e, root, n)
      ensures n in m && n in w ==> (m[n] == w[n] <==> SameDefinition(d, e, n))
    {
      MeaningAt(d, root, n);
      MeaningAt(e, root, n);
      if n in m && n in w { SameMeaningExact(d, e, n); }
    }
  }

  /**
   The canonical bytes of two messages are equal if and only if the messages have one name, need the same names,
   and every definition needed is the same in both descriptor sets.
   */
  lemma BytesSaySchema(d: Definitions, root: Str, e: Definitions, other: Str)
    requires IsMessage(d, root) && forall n :: Needs(d, root, n) ==> Legal(d, n)
    requires IsMessage(e, other) && forall n :: Needs(e, other, n) ==> Legal(e, n)
    ensures Encodable(d, root) && Encodable(e, other)
    ensures |SchemaBytes(d, root)| < TWO_64 && |SchemaBytes(e, other)| < TWO_64 ==>
              (SchemaBytes(d, root) == SchemaBytes(e, other) <==> root == other && SameSchema(d, e, root))
  {
    hide SchemaBytes, SchemaMeaning, SameSchema, Needs, Legal, Encodable;
    EncodableExact(d, root);
    EncodableExact(e, other);
    if |SchemaBytes(d, root)| < TWO_64 && |SchemaBytes(e, other)| < TWO_64 {
      CanonicalBytesExact(d, root, e, other);
      if root == other { SameSchemaExact(d, e, root); }
    }
  }
}
