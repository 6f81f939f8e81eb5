/**
 Order never reaches the fingerprint: not that of files, nor of definitions in a scope, nor of fields, of
 values after the first, or of reserved items; and neither do file names and imports.
 */
module SchemaOrder {
  import opened Prelude
  import opened Order
  import opened Descriptor
  import opened SchemaRecord
  import opened Fingerprint
  import opened SchemaIdentity
  import opened Graph

  // ----- counting -----

  lemma CountTwice<T>(s: seq<T>, i: nat, j: nat)
    requires i < j < |s| && s[i] == s[j]
    ensures multiset(s)[s[i]] >= 2
  {
    assert s == s[..j] + [s[j]] + s[j + 1..];
    assert s[..j][i] == s[i];
    assert s[i] in multiset(s[..j]);
  }

  lemma {:induction false} CountOnce<T>(s: seq<T>, x: T)
    requires NoRepeats(s)
    ensures multiset(s)[x] <= 1
  {
    if s != [] {
      assert s == [s[0]] + s[1..];
      CountOnce(s[1..], x);
      if x == s[0] {
        assert forall i :: 0 <= i < |s[1..]| ==> s[1..][i] == s[i + 1];
        assert x !in s[1..];
      }
    }
  }

  function Without<T>(s: seq<T>, i: nat): seq<T>
    requires i < |s|
  {
    s[..i] + s[i + 1..]
  }

  /** Where the first item of one arrangement stands in another, and what is left of both. */
  lemma FirstAmong<T>(a: seq<T>, b: seq<T>) returns (i: nat)
    requires a != [] && multiset(a) == multiset(b)
    ensures i < |b| && b[i] == a[0] && multiset(a[1..]) == multiset(Without(b, i))
  {
    assert a[0] in multiset(b);
    i :| 0 <= i < |b| && b[i] == a[0];
    assert a == [a[0]] + a[1..];
    assert b == b[..i] + [b[i]] + b[i + 1..];
    assert multiset(Without(b, i)) == multiset(b) - multiset{b[i]};
    assert multiset(a[1..]) == multiset(a) - multiset{a[0]};
  }

  // ----- files and definitions -----

  lemma {:induction false} DeclarationsConcat(a: seq<File>, b: seq<File>)
    ensures Declarations(a + b) == Declarations(a) + Declarations(b)
  {
    if a == [] {
      assert a + b == b;
    } else {
      assert (a + b)[1..] == a[1..] + b;
      DeclarationsConcat(a[1..], b);
    }
  }

  lemma DeclarationsAt(files: seq<File>, i: nat)
    requires i < |files|
    ensures multiset(Declarations(files)) ==
            multiset(FileDeclarations(files[i])) + multiset(Declarations(Without(files, i)))
  {
    var front, rest := files[..i], files[i..];
    assert files == front + rest;
    DeclarationsConcat(front, rest);
    DeclarationsConcat(front, files[i + 1..]);
    assert rest[1..] == files[i + 1..];
  }

  lemma {:induction false} SameFilesSameDeclarations(a: seq<File>, b: seq<File>)
    requires multiset(a) == multiset(b)
    ensures multiset(Declarations(a)) == multiset(Declarations(b))
  {
    hide FileDeclarations, Without;
    if a == [] {
      assert |multiset(a)| == |multiset(b)|;
    } else {
      var i := FirstAmong(a, b);
      SameFilesSameDeclarations(a[1..], Without(b, i));
      DeclarationsAt(b, i);
    }
  }

  ghost predicate DistinctBy<T(!new), K>(s: seq<T>, key: T -> K) {
    forall i, j :: 0 <= i < j < |s| ==> key(s[i]) != key(s[j])
  }

  /** Whether keys are all different depends on the items, not on their order. */
  lemma StillDistinct<T(!new), K>(s: seq<T>, t: seq<T>, key: T -> K)
    requires multiset(s) == multiset(t) && DistinctBy(s, key)
    ensures DistinctBy(t, key)
  {
    forall i, j | 0 <= i < j < |t| ensures key(t[i]) != key(t[j]) {
      assert t[i] in multiset(s) && t[j] in multiset(s);
      var k :| 0 <= k < |s| && s[k] == t[i];
      var l :| 0 <= l < |s| && s[l] == t[j];
      if t[i] == t[j] {
        CountTwice(t, i, j);
        CountOnce(s, t[i]);
      }
    }
  }

  lemma SameItems<T>(s: seq<T>, t: seq<T>)
    requires multiset(s) == multiset(t)
    ensures forall x :: x in s <==> x in t
  {
    forall x ensures x in s <==> x in t { assert x in multiset(s) <==> x in multiset(t); }
  }

  lemma StillIndexable(ds: seq<Declaration>, es: seq<Declaration>)
    requires multiset(ds) == multiset(es) && Indexable(ds)
    ensures Indexable(es)
  {
    assert DistinctBy(ds, FullName);
    StillDistinct(ds, es, FullName);
    SameItems(ds, es);
    forall i | 0 <= i < |es| ensures |es[i].path| > 0 && es[i].path[|es[i].path| - 1] != [] { assert es[i] in ds; }
    assert forall i, j :: 0 <= i < j < |es| ==> FullName(es[i]) != FullName(es[j]);
  }

  lemma SameIndex(ds: seq<Declaration>, es: seq<Declaration>, d: Definitions, e: Definitions)
    requires multiset(ds) == multiset(es) && Extends(map[], ds, d) && Extends(map[], es, e)
    ensures d == e
  {
    hide FullName;
    forall i | 0 <= i < |es| ensures es[i] in ds { assert es[i] in multiset(ds); }
    forall i | 0 <= i < |ds| ensures ds[i] in es { assert ds[i] in multiset(es); }
    forall n ensures n in d <==> n in e {
      if n in d {
        var i :| 0 <= i < |ds| && FullName(ds[i]) == n;
        var j :| 0 <= j < |es| && es[j] == ds[i];
        assert FullName(es[j]) == n;
      }
      if n in e {
        var i :| 0 <= i < |es| && FullName(es[i]) == n;
        var j :| 0 <= j < |ds| && ds[j] == es[i];
        assert FullName(ds[j]) == n;
      }
    }
    forall n | n in d ensures d[n] == e[n] {
      var i :| 0 <= i < |ds| && FullName(ds[i]) == n;
      var j :| 0 <= j < |es| && es[j] == ds[i];
    }
  }

  /** Files may come in any order: the index is the same, or fails in both. */
  lemma FilesInAnyOrder(a: seq<File>, b: seq<File>)
    requires multiset(a) == multiset(b)
    ensures IndexOf(a) == IndexOf(b)
  {
    var ds, es := Declarations(a), Declarations(b);
    SameFilesSameDeclarations(a, b);
    FillMeaning(map[], ds);
    FillMeaning(map[], es);
    hide Indexable, Extends, Fill;
    if IndexOf(a).Some? { StillIndexable(ds, es); }
    if IndexOf(b).Some? { StillIndexable(es, ds); }
    if IndexOf(a).Some? && IndexOf(b).Some? { SameIndex(ds, es, IndexOf(a).value, IndexOf(b).value); }
  }

  // ----- inside definitions -----

  /** The same definition with its fields, values and reserved items in another order. */
  ghost predicate Shuffled(a: Located, b: Located) {
    && SyntaxOf(a.file) == SyntaxOf(b.file)
    && match (a.definition, b.definition)
       case (MessageDef(m), MessageDef(n)) =>
         && m.extended == n.extended && m.mapEntry == n.mapEntry && m.wireFormat == n.wireFormat && m.oneofs == n.oneofs
         && multiset(m.fields) == multiset(n.fields)
         && multiset(m.reservedRanges) == multiset(n.reservedRanges)
         && multiset(m.reservedNames) == multiset(n.reservedNames)
       case (EnumDef(e), EnumDef(f)) =>
         && e.allowAlias == f.allowAlias && multiset(e.values) == multiset(f.values)
         && (e.values != [] && f.values != [] ==> e.values[0] == f.values[0])
         && multiset(e.reservedRanges) == multiset(f.reservedRanges)
         && multiset(e.reservedNames) == multiset(f.reservedNames)
       case _ => false
  }

  ghost predicate AllShuffled(d: Definitions, e: Definitions) {
    d.Keys == e.Keys && forall n :: n in d ==> Shuffled(d[n], e[n])
  }

  lemma {:induction false} SharingConcat(a: seq<Field>, b: seq<Field>, oneofIndex: Option<i32>)
    ensures Sharing(a + b, oneofIndex) == Sharing(a, oneofIndex) + Sharing(b, oneofIndex)
  {
    if a == [] {
      assert a + b == b;
    } else {
      assert (a + b)[1..] == a[1..] + b;
      SharingConcat(a[1..], b, oneofIndex);
    }
  }

  lemma SharingAt(fields: seq<Field>, i: nat, oneofIndex: Option<i32>)
    requires i < |fields|
    ensures Sharing(fields, oneofIndex) ==
            (if fields[i].oneofIndex == oneofIndex then 1 else 0) + Sharing(Without(fields, i), oneofIndex)
  {
    var front, rest := fields[..i], fields[i..];
    assert fields == front + rest && rest[1..] == fields[i + 1..];
    SharingConcat(front, rest, oneofIndex);
    SharingConcat(front, fields[i + 1..], oneofIndex);
  }

  lemma {:induction false} SharingSame(a: seq<Field>, b: seq<Field>, oneofIndex: Option<i32>)
    requires multiset(a) == multiset(b)
    ensures Sharing(a, oneofIndex) == Sharing(b, oneofIndex)
  {
    hide Without;
    if a == [] {
      assert |multiset(a)| == |multiset(b)|;
    } else {
      var i := FirstAmong(a, b);
      SharingSame(a[1..], Without(b, i), oneofIndex);
      SharingAt(b, i, oneofIndex);
    }
  }

  lemma {:induction false} FirstDefinedSame(d: Definitions, e: Definitions, names: seq<Str>)
    requires d.Keys == e.Keys
    ensures FirstDefined(d, names) == FirstDefined(e, names)
  {
    if names != [] { FirstDefinedSame(d, e, names[1..]); }
  }

  lemma ResolvedSame(d: Definitions, e: Definitions, scope: Str, reference: Str)
    requires d.Keys == e.Keys
    ensures ResolvedName(d, scope, reference) == ResolvedName(e, scope, reference)
  {
    hide Candidates, FirstDefined;
    FirstDefinedSame(d, e, Candidates(scope, reference));
  }

  lemma KindSame(d: Definitions, e: Definitions, n: Str)
    requires AllShuffled(d, e) && n in d
    ensures n in e && ReferenceKind(d[n].definition) == ReferenceKind(e[n].definition)
  {
    hide SyntaxOf;
    assert Shuffled(d[n], e[n]);
  }

  lemma FieldTypeSame(d: Definitions, e: Definitions, scope: Str, field: Field)
    requires AllShuffled(d, e)
    ensures FieldType(d, scope, field) == FieldType(e, scope, field)
  {
    hide ResolvedName, Shuffled, ReferenceKind;
    if field.typeName.Some? {
      ResolvedSame(d, e, scope, field.typeName.value);
      var reference := ResolvedName(d, scope, field.typeName.value);
      if reference.Some? { KindSame(d, e, reference.value); }
    }
  }

  lemma FieldSame(d: Definitions, e: Definitions, scope: Str, syntax: Syntax, m: Message, n: Message, field: Field)
    requires AllShuffled(d, e) && m.oneofs == n.oneofs && multiset(m.fields) == multiset(n.fields)
    ensures FieldOf(d, scope, syntax, m, field) == FieldOf(e, scope, syntax, n, field)
  {
    hide FieldType, Sharing, AllShuffled;
    FieldTypeSame(d, e, scope, field);
    SharingSame(m.fields, n.fields, field.oneofIndex);
  }

  lemma TableSame(d: Definitions, e: Definitions, scope: Str, syntax: Syntax, m: Message, n: Message)
    requires AllShuffled(d, e) && m.oneofs == n.oneofs && multiset(m.fields) == multiset(n.fields)
    requires MessageAdmissible(d, scope, syntax, m) && MessageAdmissible(e, scope, syntax, n)
    ensures FieldTable(d, scope, syntax, m) == FieldTable(e, scope, syntax, n)
  {
    hide FieldOf, MessageAdmissible, AllShuffled;
    var s, t := FieldTable(d, scope, syntax, m), FieldTable(e, scope, syntax, n);
    forall f ensures f in m.fields <==> f in n.fields { assert f in multiset(m.fields) <==> f in multiset(n.fields); }
    forall k ensures k in s <==> k in t {}
    forall k | k in s && k in t ensures s[k] == t[k] {
      var f :| f in m.fields && f.number == k;
      FieldSame(d, e, scope, syntax, m, n, f);
    }
  }

  lemma MeaningSame(d: Definitions, e: Definitions, name: Str)
    requires AllShuffled(d, e) && name in d && RecordOf(d, name).Some? && RecordOf(e, name).Some?
    ensures MeaningOf(d, name) == MeaningOf(e, name)
  {
    hide FieldOf, MessageAdmissible, EnumAdmissible, FieldTable, SyntaxOf;
    assert Shuffled(d[name], e[name]);
    match (d[name].definition, e[name].definition) {
      case (MessageDef(m), MessageDef(n)) =>
        TableSame(d, e, name, SyntaxOf(d[name].file).value, m, n);
      case (EnumDef(a), EnumDef(b)) =>
        forall v ensures v in a.values <==> v in b.values {
          assert v in multiset(a.values) <==> v in multiset(b.values);
        }
        assert |a.values| > 0 && |b.values| > 0 by { EnumHasValues(a); EnumHasValues(b); }
    }
  }

  lemma RecordSame(d: Definitions, e: Definitions, name: Str)
    requires AllShuffled(d, e) && name in d && RecordOf(d, name).Some? && RecordOf(e, name).Some?
    ensures RecordOf(d, name) == RecordOf(e, name)
  {
    hide RecordOf, MeaningOf, Shuffled;
    MeaningSame(d, e, name);
    RecordAgrees(d, name);
    RecordAgrees(e, name);
    SameMeaningSameRecord(RecordOf(d, name).value, RecordOf(e, name).value, MeaningOf(d, name));
  }

  lemma EnumHasValues(e: Enumeration)
    requires EnumAdmissible(e)
    ensures |e.values| > 0
  {}

  // ----- reordering keeps every check -----

  lemma StillDistinctFields(s: seq<Field>, t: seq<Field>)
    requires multiset(s) == multiset(t) && FieldsDistinct(s)
    ensures FieldsDistinct(t)
  {
    var number, name := (f: Field) => f.number, (f: Field) => f.name;
    assert DistinctBy(s, number) by {
      forall i, j | 0 <= i < j < |s| ensures s[i].number != s[j].number { assert Numbers(s)[i] != Numbers(s)[j]; }
    }
    assert DistinctBy(s, name) by {
      forall i, j | 0 <= i < j < |s| ensures s[i].name != s[j].name { assert FieldNames(s)[i] != FieldNames(s)[j]; }
    }
    StillDistinct(s, t, number);
    StillDistinct(s, t, name);
    SameItems(s, t);
    forall i | 0 <= i < |t| ensures t[i].number > 0 && t[i].name != [] { assert t[i] in s; }
    forall i, j | 0 <= i < j < |t| ensures Numbers(t)[i] != Numbers(t)[j] { assert number(t[i]) != number(t[j]); }
    forall i, j | 0 <= i < j < |t| ensures FieldNames(t)[i] != FieldNames(t)[j] { assert name(t[i]) != name(t[j]); }
  }

  lemma StillAdmissibleValues(s: seq<Value>, t: seq<Value>)
    requires multiset(s) == multiset(t) && ValuesAdmissible(s)
    ensures ValuesAdmissible(t)
  {
    var name := (v: Value) => v.name;
    assert DistinctBy(s, name) by {
      forall i, j | 0 <= i < j < |s| ensures s[i].name != s[j].name { assert ValueNames(s)[i] != ValueNames(s)[j]; }
    }
    StillDistinct(s, t, name);
    SameItems(s, t);
    forall i | 0 <= i < |t| ensures t[i].name != [] { assert t[i] in s; }
    forall i, j | 0 <= i < j < |t| ensures ValueNames(t)[i] != ValueNames(t)[j] { assert name(t[i]) != name(t[j]); }
  }

  lemma StillAdmissible(d: Definitions, e: Definitions, scope: Str, syntax: Syntax, m: Message, n: Message)
    requires AllShuffled(d, e) && m.oneofs == n.oneofs && m.extended == n.extended
    requires multiset(m.fields) == multiset(n.fields)
    requires MessageAdmissible(d, scope, syntax, m)
    ensures MessageAdmissible(e, scope, syntax, n)
  {
    hide FieldOf, AllShuffled, Sort, FieldsDistinct;
    var s, t := Sort(m.fields, ByNumber), Sort(n.fields, ByNumber);
    SortProperties(m.fields, ByNumber);
    SortProperties(n.fields, ByNumber);
    StillDistinctFields(s, t);
    SameItems(s, t);
    forall i | 0 <= i < |t| ensures FieldOf(e, scope, syntax, n, t[i]).Some? {
      assert t[i] in s;
      FieldSame(d, e, scope, syntax, m, n, t[i]);
    }
  }

  lemma StillRecorded(d: Definitions, e: Definitions, name: Str)
    requires AllShuffled(d, e) && name in d && RecordOf(d, name).Some?
    ensures RecordOf(e, name).Some?
  {
    hide FieldOf, MessageAdmissible, Sort, ValuesAdmissible, SyntaxOf;
    assert Shuffled(d[name], e[name]);
    match (d[name].definition, e[name].definition) {
      case (MessageDef(m), MessageDef(n)) =>
        StillAdmissible(d, e, name, SyntaxOf(d[name].file).value, m, n);
      case (EnumDef(a), EnumDef(b)) =>
        ValueOrder();
        SortProperties(a.values, ByNumberThenName);
        SortProperties(b.values, ByNumberThenName);
        StillAdmissibleValues(Sort(a.values, ByNumberThenName), Sort(b.values, ByNumberThenName));
        assert |multiset(a.values)| == |multiset(b.values)|;
    }
  }

  lemma RecordsSame(d: Definitions, e: Definitions)
    requires AllShuffled(d, e)
    ensures forall n :: n in d ==> RecordOf(d, n) == RecordOf(e, n)
  {
    hide RecordOf, Shuffled;
    ShuffledBack(d, e);
    forall n | n in d ensures RecordOf(d, n) == RecordOf(e, n) {
      if RecordOf(d, n).Some? {
        StillRecorded(d, e, n);
        RecordSame(d, e, n);
      } else if RecordOf(e, n).Some? {
        StillRecorded(e, d, n);
      }
    }
  }

  lemma ShuffledBack(d: Definitions, e: Definitions)
    requires AllShuffled(d, e)
    ensures AllShuffled(e, d)
  {
    forall n | n in e ensures Shuffled(e[n], d[n]) { assert Shuffled(d[n], e[n]); }
  }

  /** Definitions ordered differently inside answer every fingerprint request alike, errors included. */
  lemma OrderNeverMatters(d: Definitions, e: Definitions, root: Str)
    requires AllShuffled(d, e)
    ensures FingerprintOf(d, root) == FingerprintOf(e, root)
    ensures Encodable(d, root) <==> Encodable(e, root)
    ensures Encodable(d, root) ==> SchemaBytes(d, root) == SchemaBytes(e, root)
  {
    RecordsSame(d, e);
    hide RecordOf, Reach, SchemaBytes, Hash;
    assert ReferenceGraph(d) == ReferenceGraph(e);
    assert Closure(d, root) == Closure(e, root);
    SameRecordsSameBytes(d, e, root);
    if root in d {
      hide SyntaxOf;
      assert Shuffled(d[root], e[root]);
    }
  }

  // ----- reordered descriptor sets -----

  ghost predicate EnumReordered(e: Enumeration, f: Enumeration) {
    && e.name == f.name && e.allowAlias == f.allowAlias && multiset(e.values) == multiset(f.values)
    && (e.values != [] && f.values != [] ==> e.values[0] == f.values[0])
    && multiset(e.reservedRanges) == multiset(f.reservedRanges)
    && multiset(e.reservedNames) == multiset(f.reservedNames)
  }

  ghost predicate EnumsReordered(a: seq<Enumeration>, b: seq<Enumeration>) {
    if a == [] then b == []
    else exists j :: 0 <= j < |b| && EnumReordered(a[0], b[j]) && EnumsReordered(a[1..], Without(b, j))
  }

  /** The same message with its contents, at every depth, in another order. */
  ghost predicate MessageReordered(m: Message, n: Message)
    decreases m, 0
  {
    && m.name == n.name && m.extended == n.extended && m.mapEntry == n.mapEntry && m.wireFormat == n.wireFormat
    && m.oneofs == n.oneofs && multiset(m.fields) == multiset(n.fields)
    && multiset(m.reservedRanges) == multiset(n.reservedRanges)
    && multiset(m.reservedNames) == multiset(n.reservedNames)
    && EnumsReordered(m.enums, n.enums) && MessagesReordered(m.nested, n.nested)
  }

  ghost predicate MessagesReordered(a: seq<Message>, b: seq<Message>)
    decreases a
  {
    if a == [] then b == []
    else exists j :: 0 <= j < |b| && MessageReordered(a[0], b[j]) && MessagesReordered(a[1..], Without(b, j))
  }

  /** File names and imports are free to differ. */
  ghost predicate FileReordered(f: File, g: File) {
    && f.package == g.package && SyntaxOf(f) == SyntaxOf(g)
    && MessagesReordered(f.messages, g.messages) && EnumsReordered(f.enums, g.enums)
  }

  ghost predicate FilesReordered(a: seq<File>, b: seq<File>) {
    if a == [] then b == []
    else exists j :: 0 <= j < |b| && FileReordered(a[0], b[j]) && FilesReordered(a[1..], Without(b, j))
  }

  // ----- permutations are reorderings -----

  lemma {:induction false} EnumsPermuted(a: seq<Enumeration>, b: seq<Enumeration>)
    requires multiset(a) == multiset(b)
    ensures EnumsReordered(a, b)
  {
    hide Without;
    if a == [] {
      SameLength(a, b);
    } else {
      var i := FirstAmong(a, b);
      EnumsPermuted(a[1..], Without(b, i));
    }
  }

  /** Permuting the messages of a scope reorders them. */
  lemma {:induction false} MessagesPermuted(a: seq<Message>, b: seq<Message>)
    requires multiset(a) == multiset(b)
    ensures MessagesReordered(a, b)
    decreases a
  {
    hide Without;
    if a == [] {
      SameLength(a, b);
    } else {
      var i := FirstAmong(a, b);
      MessagesPermuted(a[0].nested, a[0].nested);
      EnumsPermuted(a[0].enums, a[0].enums);
      MessagesPermuted(a[1..], Without(b, i));
    }
  }

  /** Permuting files reorders a set. */
  lemma {:induction false} FilesPermuted(a: seq<File>, b: seq<File>)
    requires multiset(a) == multiset(b)
    ensures FilesReordered(a, b)
  {
    hide Without;
    if a == [] {
      SameLength(a, b);
    } else {
      var i := FirstAmong(a, b);
      MessagesPermuted(a[0].messages, a[0].messages);
      EnumsPermuted(a[0].enums, a[0].enums);
      FilesPermuted(a[1..], Without(b, i));
    }
  }

  // ----- a reordered set declares the same -----

  /** The same place, with the same definition in another order. */
  ghost predicate Paired(d: Declaration, e: Declaration) {
    d.path == e.path && d.file.package == e.file.package
    && Shuffled(Located(d.file, d.definition), Located(e.file, e.definition))
  }

  ghost predicate AllPaired(ds: seq<Declaration>, es: seq<Declaration>) {
    |ds| == |es| && forall i :: 0 <= i < |ds| ==> Paired(ds[i], es[i])
  }

  lemma PairedConcat(a: seq<Declaration>, b: seq<Declaration>, c: seq<Declaration>, d: seq<Declaration>)
    requires AllPaired(a, b) && AllPaired(c, d)
    ensures AllPaired(a + c, b + d)
  {
    hide Paired;
  }

  lemma {:induction false} ScopeConcat(file: File, path: seq<Str>, a: seq<Message>, b: seq<Message>,
                                       enums: seq<Enumeration>)
    ensures ScopeDeclarations(file, path, a + b, enums) ==
            ScopeDeclarations(file, path, a, []) + ScopeDeclarations(file, path, b, enums)
    decreases |a|
  {
    if a == [] {
      assert a + b == b;
    } else {
      assert (a + b)[1..] == a[1..] + b;
      ScopeConcat(file, path, a[1..], b, enums);
    }
  }

  /** What one message declares: itself and everything inside it. */
  ghost function MessageDeclarations(file: File, path: seq<Str>, m: Message): seq<Declaration> {
    [Declaration(file, path + [m.name], MessageDef(m))] + ScopeDeclarations(file, path + [m.name], m.nested, m.enums)
  }

  lemma ScopeAt(file: File, path: seq<Str>, messages: seq<Message>, enums: seq<Enumeration>, j: nat)
    requires j < |messages|
    ensures multiset(ScopeDeclarations(file, path, messages, enums)) ==
            multiset(MessageDeclarations(file, path, messages[j])) +
              multiset(ScopeDeclarations(file, path, Without(messages, j), enums))
  {
    var front, rest := messages[..j], messages[j..];
    assert messages == front + rest && rest[1..] == messages[j + 1..];
    ScopeConcat(file, path, front, rest, enums);
    ScopeConcat(file, path, front, messages[j + 1..], enums);
    assert ScopeDeclarations(file, path, rest, enums) ==
           MessageDeclarations(file, path, rest[0]) + ScopeDeclarations(file, path, rest[1..], enums);
  }

  lemma EnumsAt(file: File, path: seq<Str>, enums: seq<Enumeration>, j: nat)
    requires j < |enums|
    ensures multiset(EnumDeclarations(file, path, enums)) ==
            multiset{EnumDeclaration(file, path, enums[j])} + multiset(EnumDeclarations(file, path, Without(enums, j)))
  {
    var all := EnumDeclarations(file, path, enums);
    assert all == all[..j] + [all[j]] + all[j + 1..];
    assert EnumDeclarations(file, path, Without(enums, j)) == all[..j] + all[j + 1..];
  }

  /** The other file's enum declarations, arranged to match. */
  lemma {:induction false} PairEnums(f: File, g: File, path: seq<Str>, a: seq<Enumeration>, b: seq<Enumeration>)
    returns (qs: seq<Declaration>)
    requires f.package == g.package && SyntaxOf(f) == SyntaxOf(g) && EnumsReordered(a, b)
    ensures multiset(qs) == multiset(EnumDeclarations(g, path, b)) && AllPaired(EnumDeclarations(f, path, a), qs)
    decreases |a|
  {
    if a == [] {
      qs := [];
      assert EnumDeclarations(g, path, b) == [];
    } else {
      var j :| 0 <= j < |b| && EnumReordered(a[0], b[j]) && EnumsReordered(a[1..], Without(b, j));
      hide EnumsReordered, EnumReordered, AllPaired, SyntaxOf, EnumDeclarations;
      var rest := PairEnums(f, g, path, a[1..], Without(b, j));
      PairEnum(f, g, path, a[0], b[j]);
      PairedConcat([EnumDeclaration(f, path, a[0])], [EnumDeclaration(g, path, b[j])],
                   EnumDeclarations(f, path, a[1..]), rest);
      EnumsHead(f, path, a);
      EnumsAt(g, path, b, j);
      qs := [EnumDeclaration(g, path, b[j])] + rest;
    }
  }

  ghost function EnumDeclaration(file: File, path: seq<Str>, e: Enumeration): Declaration {
    Declaration(file, path + [e.name], EnumDef(e))
  }

  lemma PairEnum(f: File, g: File, path: seq<Str>, a: Enumeration, b: Enumeration)
    requires f.package == g.package && SyntaxOf(f) == SyntaxOf(g) && EnumReordered(a, b)
    ensures AllPaired([EnumDeclaration(f, path, a)], [EnumDeclaration(g, path, b)])
  {
    hide SyntaxOf;
  }

  lemma EnumsHead(file: File, path: seq<Str>, enums: seq<Enumeration>)
    requires enums != []
    ensures EnumDeclarations(file, path, enums) ==
            [EnumDeclaration(file, path, enums[0])] + EnumDeclarations(file, path, enums[1..])
  {}

  /** The other scope's declarations, arranged to match. */
  lemma {:induction false} PairScope(f: File, g: File, path: seq<Str>, a: seq<Message>, c: seq<Enumeration>,
                                     b: seq<Message>, d: seq<Enumeration>)
    returns (qs: seq<Declaration>)
    requires f.package == g.package && SyntaxOf(f) == SyntaxOf(g) && MessagesReordered(a, b) && EnumsReordered(c, d)
    ensures multiset(qs) == multiset(ScopeDeclarations(g, path, b, d))
    ensures AllPaired(ScopeDeclarations(f, path, a, c), qs)
    decreases a
  {
    hide AllPaired;
    if a == [] {
      qs := PairEnums(f, g, path, c, d);
    } else {
      var j :| 0 <= j < |b| && MessageReordered(a[0], b[j]) && MessagesReordered(a[1..], Without(b, j));
      var m, n := a[0], b[j];
      var inner := PairScope(f, g, path + [m.name], m.nested, m.enums, n.nested, n.enums);
      var rest := PairScope(f, g, path, a[1..], c, Without(b, j), d);
      qs := PairMessage(f, g, path, m, n, inner);
      PairedConcat(MessageDeclarations(f, path, m), qs, ScopeDeclarations(f, path, a[1..], c), rest);
      qs := qs + rest;
      ScopeAt(g, path, b, d, j);
    }
  }

  lemma PairMessage(f: File, g: File, path: seq<Str>, m: Message, n: Message, inner: seq<Declaration>)
    returns (qs: seq<Declaration>)
    requires f.package == g.package && SyntaxOf(f) == SyntaxOf(g) && MessageReordered(m, n)
    requires multiset(inner) == multiset(ScopeDeclarations(g, path + [n.name], n.nested, n.enums))
    requires AllPaired(ScopeDeclarations(f, path + [m.name], m.nested, m.enums), inner)
    ensures multiset(qs) == multiset(MessageDeclarations(g, path, n)) && AllPaired(MessageDeclarations(f, path, m), qs)
  {
    hide ScopeDeclarations, EnumsReordered, MessagesReordered, SyntaxOf;
    var first, head := Declaration(f, path + [m.name], MessageDef(m)), Declaration(g, path + [n.name], MessageDef(n));
    assert AllPaired([first], [head]);
    PairedConcat([first], [head], ScopeDeclarations(f, path + [m.name], m.nested, m.enums), inner);
    qs := [head] + inner;
  }

  /** The other set's declarations, arranged to match. */
  lemma {:induction false} PairFiles(a: seq<File>, b: seq<File>) returns (qs: seq<Declaration>)
    requires FilesReordered(a, b)
    ensures multiset(qs) == multiset(Declarations(b)) && AllPaired(Declarations(a), qs)
    decreases |a|
  {
    if a == [] {
      qs := [];
    } else {
      var j :| 0 <= j < |b| && FileReordered(a[0], b[j]) && FilesReordered(a[1..], Without(b, j));
      hide FilesReordered, AllPaired, ScopeDeclarations;
      var rest := PairFiles(a[1..], Without(b, j));
      qs := PairScope(a[0], b[j], [], a[0].messages, a[0].enums, b[j].messages, b[j].enums);
      PairedConcat(FileDeclarations(a[0]), qs, Declarations(a[1..]), rest);
      qs := qs + rest;
      DeclarationsAt(b, j);
    }
  }

  /** Paired declarations index alike. */
  lemma PairedIndexable(ds: seq<Declaration>, es: seq<Declaration>)
    requires AllPaired(ds, es)
    ensures Indexable(ds) <==> Indexable(es)
  {
    hide Shuffled;
    forall i | 0 <= i < |ds| ensures FullName(ds[i]) == FullName(es[i]) && ds[i].path == es[i].path {
      assert Paired(ds[i], es[i]);
    }
  }

  lemma PairedNames(ds: seq<Declaration>, es: seq<Declaration>, n: Str)
    requires AllPaired(ds, es)
    ensures Names(ds, n) <==> Names(es, n)
  {
    hide Shuffled;
    forall i | 0 <= i < |ds| ensures FullName(ds[i]) == FullName(es[i]) { assert Paired(ds[i], es[i]); }
    hide FullName;
    if i :| 0 <= i < |ds| && FullName(ds[i]) == n { assert FullName(es[i]) == n; }
    if i :| 0 <= i < |es| && FullName(es[i]) == n { assert FullName(ds[i]) == n; }
  }

  lemma PairedShuffled(ds: seq<Declaration>, es: seq<Declaration>, d: Definitions, e: Definitions)
    requires AllPaired(ds, es) && Extends(map[], ds, d) && Extends(map[], es, e)
    ensures AllShuffled(d, e)
  {
    hide Shuffled, Names, Full;
    forall n ensures n in d <==> n in e { PairedNames(ds, es, n); }
    forall n | n in d ensures Shuffled(d[n], e[n]) {
      var i := Named(ds, n);
      assert Paired(ds[i], es[i]);
    }
  }

  lemma Named(ds: seq<Declaration>, n: Str) returns (i: nat)
    requires Names(ds, n)
    ensures i < |ds| && FullName(ds[i]) == n
  {
    i :| 0 <= i < |ds| && FullName(ds[i]) == n;
  }

  /**
   A descriptor set reordered at any depth indexes exactly when the original does, and then answers every
   fingerprint request with the same fingerprint, absence or error.
   */
  lemma ReorderingNeverMatters(a: seq<File>, b: seq<File>, root: Str)
    requires FilesReordered(a, b)
    ensures IndexOf(a).Some? <==> IndexOf(b).Some?
    ensures IndexOf(a).Some? ==> FingerprintOf(IndexOf(a).value, root) == FingerprintOf(IndexOf(b).value, root)
  {
    var ds, es := Declarations(a), Declarations(b);
    var qs := PairFiles(a, b);
    FillMeaning(map[], ds);
    FillMeaning(map[], es);
    FillMeaning(map[], qs);
    hide Indexable, Extends, Fill, AllPaired, AllShuffled, FilesReordered, FingerprintOf;
    PairedIndexable(ds, qs);
    if Indexable(qs) { StillIndexable(qs, es); }
    if Indexable(es) { StillIndexable(es, qs); }
    if IndexOf(a).Some? {
      SameIndex(qs, es, Fill(map[], qs).value, IndexOf(b).value);
      PairedShuffled(ds, qs, IndexOf(a).value, IndexOf(b).value);
      OrderNeverMatters(IndexOf(a).value, IndexOf(b).value, root);
    }
  }
}
