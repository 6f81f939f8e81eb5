/**
 The canonical bytes determine, and are determined by, what a schema means: its root, and for each
 reachable full name the definition with its fields by number, its reserved items as multisets, its
 oneof names as a set, and its references resolved.
 */
module SchemaIdentity {
  import opened Prelude
  import opened Order
  import opened Canonical
  import opened Descriptor
  import opened SchemaRecord
  import opened Fingerprint

  datatype Meaning =
    | MessageMeaning(syntax: Syntax, mapEntry: bool, wireFormat: bool, ranges: multiset<(i32, i32)>,
                     names: multiset<Str>, oneofs: set<Str>, fields: map<i32, FieldRecord>)
    | EnumMeaning(syntax: Syntax, default: i32, allowAlias: bool, ranges: multiset<(i32, i32)>,
                  names: multiset<Str>, values: set<Value>)

  // ----- meaning of a definition, read off its descriptor -----

  lemma SortedFields(fields: seq<Field>)
    ensures forall f :: f in fields <==> f in Sort(fields, ByNumber)
    ensures SortedBy(Sort(fields, ByNumber), ByNumber)
  {
    SortProperties(fields, ByNumber);
    forall f ensures f in fields <==> f in Sort(fields, ByNumber) {
      assert f in multiset(fields) <==> f in multiset(Sort(fields, ByNumber));
    }
  }

  /** On an admissible message a number selects one field. */
  lemma OneFieldPerNumber(fields: seq<Field>, f: Field, g: Field)
    requires FieldsDistinct(Sort(fields, ByNumber))
    requires f in fields && g in fields && f.number == g.number
    ensures f == g
  {
    SortedFields(fields);
    hide Sort;
    var sorted := Sort(fields, ByNumber);
    var i :| 0 <= i < |sorted| && sorted[i] == f;
    var j :| 0 <= j < |sorted| && sorted[j] == g;
    var ns := Numbers(sorted);
    assert ns[i] == ns[j];
  }

  ghost function Numbered(fields: seq<Field>, n: i32): (f: Field)
    requires FieldsDistinct(Sort(fields, ByNumber))
    requires exists f :: f in fields && f.number == n
    ensures f in fields && f.number == n
    ensures forall g :: g in fields && g.number == n ==> g == f
  {
    var f :| f in fields && f.number == n;
    assert forall g :: g in fields && g.number == n ==> g == f by {
      forall g | g in fields && g.number == n ensures g == f { OneFieldPerNumber(fields, f, g); }
    }
    f
  }

  /** A message's fields by number. */
  ghost function FieldTable(d: Definitions, scope: Str, syntax: Syntax, m: Message): (t: map<i32, FieldRecord>)
    requires MessageAdmissible(d, scope, syntax, m)
    ensures forall n :: n in t <==> exists f :: f in m.fields && f.number == n
    ensures forall f :: f in m.fields ==> f.number in t && Some(t[f.number]) == FieldOf(d, scope, syntax, m, f)
  {
    hide FieldOf;
    AllConsistent(d, scope, syntax, m);
    var numbers := set f | f in m.fields :: f.number;
    map n | n in numbers :: FieldOf(d, scope, syntax, m, Numbered(m.fields, n)).value
  }

  lemma AllConsistent(d: Definitions, scope: Str, syntax: Syntax, m: Message)
    requires MessageAdmissible(d, scope, syntax, m)
    ensures forall f :: f in m.fields ==> FieldOf(d, scope, syntax, m, f).Some?
  {
    hide FieldOf;
    SortedFields(m.fields);
    var sorted := Sort(m.fields, ByNumber);
    forall f | f in m.fields ensures FieldOf(d, scope, syntax, m, f).Some? {
      var i :| 0 <= i < |sorted| && sorted[i] == f;
    }
  }

  ghost function MeaningOf(d: Definitions, name: Str): Meaning
    requires name in d && RecordOf(d, name).Some?
  {
    var syntax := SyntaxOf(d[name].file).value;
    match d[name].definition
    case MessageDef(m) =>
      MessageMeaning(syntax, m.mapEntry, m.wireFormat, multiset(m.reservedRanges), multiset(m.reservedNames),
                     Elements(m.oneofs), FieldTable(d, name, syntax, m))
    case EnumDef(e) =>
      EnumMeaning(syntax, e.values[0].number, e.allowAlias, multiset(e.reservedRanges), multiset(e.reservedNames),
                  Elements(e.values))
  }

  /** The normalised reachable closure. */
  ghost function SchemaMeaning(d: Definitions, root: Str): map<Str, Meaning>
    requires Encodable(d, root)
  {
    map n | n in Closure(d, root) :: MeaningOf(d, n)
  }

  // ----- a record and a meaning are two views of one thing -----

  ghost predicate Agree(r: Record, m: Meaning) {
    match r.body
    case MessageBody(mapEntry, wireFormat, ranges, names, oneofs, fields) =>
      && m.MessageMeaning? && m.syntax == r.syntax && m.mapEntry == mapEntry && m.wireFormat == wireFormat
      && m.ranges == multiset(ranges) && m.names == multiset(names)
      && Lists(oneofs, m.oneofs)
      && Lists(fields, m.fields.Values) && (forall n :: n in m.fields ==> m.fields[n].number == n)
    case EnumBody(default, allowAlias, ranges, names, values) =>
      && m.EnumMeaning? && m.syntax == r.syntax && m.default == default && m.allowAlias == allowAlias
      && m.ranges == multiset(ranges) && m.names == multiset(names)
      && Lists(values, m.values)
  }

  predicate RecordByNumber(a: FieldRecord, b: FieldRecord) { a.number <= b.number }

  ghost predicate Arrangement(b: Body) {
    && SortedBy(b.ranges, ByRange) && SortedBy(b.names, StrLeq)
    && (b.MessageBody? ==>
          && SortedBy(b.oneofs, StrLeq)
          && forall i, j :: 0 <= i < j < |b.fields| ==> b.fields[i].number < b.fields[j].number)
    && (b.EnumBody? ==> SortedBy(b.values, ByNumberThenName))
  }

  lemma RangeOrder()
    ensures TotalPreorder(ByRange)
  {
  }

  lemma ValueOrder()
    ensures TotalPreorder(ByNumberThenName)
    ensures forall a, b :: ByNumberThenName(a, b) && ByNumberThenName(b, a) ==> a == b
  {
    StrOrder();
    hide StrLeq;
  }

  /** The sorted field records of an admissible message, each with the descriptor it came from. */
  lemma FieldRecordNumbers(d: Definitions, scope: Str, syntax: Syntax, m: Message, sorted: seq<Field>,
                           fs: seq<FieldRecord>)
    requires MessageAdmissible(d, scope, syntax, m)
    requires sorted == Sort(m.fields, ByNumber) && fs == FieldsOf(d, scope, syntax, m, sorted)
    ensures |fs| == |sorted|
    ensures forall i :: 0 <= i < |fs| ==> fs[i].number == sorted[i].number
    ensures forall i, j :: 0 <= i < j < |fs| ==> fs[i].number < fs[j].number
  {
    SortedFields(m.fields);
    assert forall i :: 0 <= i < |fs| ==> fs[i].number == sorted[i].number;
    hide FieldOf, Sort;
    var ns := Numbers(sorted);
    forall i, j | 0 <= i < j < |fs| ensures fs[i].number < fs[j].number {
      assert ByNumber(sorted[i], sorted[j]);
      assert ns[i] != ns[j];
    }
  }

  /** A list made field by field and a table made field by field hold the same records. */
  lemma TableValues(fields: seq<Field>, sorted: seq<Field>, fs: seq<FieldRecord>, t: map<i32, FieldRecord>)
    requires |fs| == |sorted| && forall f :: f in fields <==> f in sorted
    requires forall i :: 0 <= i < |fs| ==> fs[i].number == sorted[i].number
    requires forall i :: 0 <= i < |fs| ==> sorted[i].number in t && t[sorted[i].number] == fs[i]
    requires forall n :: n in t ==> exists f :: f in fields && f.number == n
    requires forall i, j :: 0 <= i < j < |fs| ==> fs[i].number < fs[j].number
    ensures Lists(fs, t.Values)
    ensures forall n :: n in t ==> t[n].number == n
  {
    forall n | n in t ensures t[n].number == n && t[n] in fs {
      var f :| f in fields && f.number == n;
      var i :| 0 <= i < |sorted| && sorted[i] == f;
      assert t[n] == fs[i];
    }
    forall r ensures r in fs <==> r in t.Values {
      if r in fs {
        var i :| 0 <= i < |fs| && fs[i] == r;
        assert t[sorted[i].number] == r;
      }
    }
  }

  lemma SortedFieldRecords(d: Definitions, scope: Str, syntax: Syntax, m: Message)
    requires MessageAdmissible(d, scope, syntax, m)
    ensures var fs := FieldsOf(d, scope, syntax, m, Sort(m.fields, ByNumber));
            var t := FieldTable(d, scope, syntax, m);
            && (forall i, j :: 0 <= i < j < |fs| ==> fs[i].number < fs[j].number)
            && Lists(fs, t.Values)
            && forall n :: n in t ==> t[n].number == n
  {
    hide FieldOf, Sort, FieldsDistinct, FieldsOf, FieldTable, FieldsConsistent;
    var sorted := Sort(m.fields, ByNumber);
    SortedFields(m.fields);
    var fs := FieldsOf(d, scope, syntax, m, sorted);
    var t := FieldTable(d, scope, syntax, m);
    FieldRecordNumbers(d, scope, syntax, m, sorted, fs);
    forall i | 0 <= i < |fs| ensures sorted[i].number in t && t[sorted[i].number] == fs[i] {
      assert Some(fs[i]) == FieldOf(d, scope, syntax, m, sorted[i]);
    }
    TableValues(m.fields, sorted, fs, t);
  }

  lemma SortedElements<T(!new)>(s: seq<T>, leq: (T, T) -> bool)
    requires TotalPreorder(leq) && NoRepeats(Sort(s, leq))
    ensures Lists(Sort(s, leq), Elements(s))
  {
    SortProperties(s, leq);
    forall x ensures x in Sort(s, leq) <==> x in s {
      assert x in multiset(s) <==> x in multiset(Sort(s, leq));
    }
  }

  lemma RecordAgrees(d: Definitions, name: Str)
    requires name in d && RecordOf(d, name).Some?
    ensures Agree(RecordOf(d, name).value, MeaningOf(d, name))
    ensures Arrangement(RecordOf(d, name).value.body)
    ensures RecordOf(d, name).value.name == name
  {
    hide FieldOf, Sort, StrLeq;
    RangeOrder();
    StrOrder();
    match d[name].definition {
      case MessageDef(m) =>
        var syntax := SyntaxOf(d[name].file).value;
        SortProperties(m.reservedRanges, ByRange);
        SortProperties(m.reservedNames, StrLeq);
        SortProperties(m.oneofs, StrLeq);
        DistinctSort(m.oneofs);
        SortedElements(m.oneofs, StrLeq);
        SortedFieldRecords(d, name, syntax, m);
      case EnumDef(e) =>
        ValueOrder();
        SortProperties(e.reservedRanges, ByRange);
        SortProperties(e.reservedNames, StrLeq);
        SortProperties(e.values, ByNumberThenName);
        var sorted := Sort(e.values, ByNumberThenName);
        assert NoRepeats(sorted) by {
          var ns := ValueNames(sorted);
          forall i, j | 0 <= i < j < |sorted| ensures sorted[i] != sorted[j] {
            assert ns[i] != ns[j];
          }
        }
        SortedElements(e.values, ByNumberThenName);
    }
  }

  lemma DistinctSort(s: seq<Str>)
    requires NoRepeats(s)
    ensures NoRepeats(Sort(s, StrLeq))
  {
    StrOrder();
    SortProperties(s, StrLeq);
    var t := Sort(s, StrLeq);
    DistinctCount(s);
    DistinctCount(t);
    assert (set x | x in s) == (set x | x in t) by {
      forall x ensures x in s <==> x in t {
        assert x in multiset(s) <==> x in multiset(t);
      }
    }
  }

  /** One arrangement per meaning: equal meanings give equal records. */
  lemma SameMeaningSameRecord(r: Record, s: Record, m: Meaning)
    requires r.name == s.name && Agree(r, m) && Agree(s, m)
    requires Arrangement(r.body) && Arrangement(s.body)
    ensures r == s
  {
    StrOrder();
    ValueOrder();
    hide StrLeq;
    SortedUnique(r.body.ranges, s.body.ranges, ByRange);
    SortedUnique(r.body.names, s.body.names, StrLeq);
    if r.body.MessageBody? {
      ListsMultiset(r.body.oneofs, m.oneofs);
      ListsMultiset(s.body.oneofs, m.oneofs);
      SortedUnique(r.body.oneofs, s.body.oneofs, StrLeq);
      ListsMultiset(r.body.fields, m.fields.Values);
      ListsMultiset(s.body.fields, m.fields.Values);
      assert SortedBy(r.body.fields, RecordByNumber) && SortedBy(s.body.fields, RecordByNumber);
      SortedUnique(r.body.fields, s.body.fields, RecordByNumber);
    } else {
      ListsMultiset(r.body.values, m.values);
      ListsMultiset(s.body.values, m.values);
      SortedUnique(r.body.values, s.body.values, ByNumberThenName);
    }
  }

  /** One meaning per record. */
  lemma SameRecordSameMeaning(r: Record, m: Meaning, n: Meaning)
    requires Agree(r, m) && Agree(r, n)
    ensures m == n
  {
    if r.body.MessageBody? {
      assert m.oneofs == n.oneofs by {
        assert forall x :: x in m.oneofs <==> x in r.body.oneofs;
      }
      assert m.fields.Values == n.fields.Values by {
        assert forall x :: x in m.fields.Values <==> x in r.body.fields;
      }
      TableFromValues(m.fields, n.fields);
      TableFromValues(n.fields, m.fields);
      assert m.fields == n.fields;
    } else {
      assert m.values == n.values by {
        assert forall x :: x in m.values <==> x in r.body.values;
      }
    }
  }

  lemma TableFromValues(a: map<i32, FieldRecord>, b: map<i32, FieldRecord>)
    requires a.Values == b.Values
    requires forall n :: n in a ==> a[n].number == n
    requires forall n :: n in b ==> b[n].number == n
    ensures forall n :: n in a ==> n in b && a[n] == b[n]
  {
    forall n | n in a ensures n in b && a[n] == b[n] {
      assert a[n] in b.Values;
      var k :| k in b && b[k] == a[n];
    }
  }

  // ----- reading records back -----

  lemma WriteTail(a: seq<Item>, b: seq<Item>, s: seq<byte>)
    ensures Write(a + b) + s == Write(a) + (Write(b) + s)
  {
    WriteConcat(a, b);
    Associate(Write(a), Write(b), s);
  }

  /** Split a leading part of one shape off two concatenations. */
  lemma PeelParts(a: seq<Item>, b: seq<Item>, x: seq<Item>, y: seq<Item>, s: seq<byte>, t: seq<byte>)
    requires SameShape(a, b) && AllSmall(a) && AllSmall(b)
    requires Write(a + x) + s == Write(b + y) + t
    ensures a == b && Write(x) + s == Write(y) + t
  {
    WriteTail(a, x, s);
    WriteTail(b, y, t);
    WriteSplit(a, b, Write(x) + s, Write(y) + t);
  }

  lemma LastPart(a: seq<Item>, b: seq<Item>, x: seq<Item>, y: seq<Item>)
    requires SameShape(a, b) && SameShape(x, y)
    ensures SameShape(a + x, b + y)
    ensures a + x == b + y ==> a == b && x == y
  {
    if a + x == b + y {
      assert a == (a + x)[..|a|] && x == (a + x)[|a|..];
      assert b == (b + y)[..|a|] && y == (b + y)[|a|..];
    }
  }

  lemma {:induction false} RangePairsLength(a: seq<(i32, i32)>)
    ensures |RangePairs(a)| == 2 * |a|
    ensures forall i :: 0 <= i < |RangePairs(a)| ==> RangePairs(a)[i].Int?
  {
    if a != [] { RangePairsLength(a[..|a| - 1]); }
  }

  lemma {:induction false} FieldsWordsLength(a: seq<FieldRecord>)
    ensures |FieldsWords(a)| == 11 * |a|
    ensures forall i :: 0 <= i < |FieldsWords(a)| ==> !FieldsWords(a)[i].Count?
  {
    if a != [] { FieldsWordsLength(a[..|a| - 1]); }
  }

  lemma {:induction false} ValuePairsLength(a: seq<Value>)
    ensures |ValuePairs(a)| == 2 * |a|
    ensures forall i :: 0 <= i < |ValuePairs(a)| ==> !ValuePairs(a)[i].Count?
  {
    if a != [] { ValuePairsLength(a[..|a| - 1]); }
  }

  lemma {:induction false} RangePairsShape(a: seq<(i32, i32)>, b: seq<(i32, i32)>)
    requires |a| == |b|
    ensures SameShape(RangePairs(a), RangePairs(b))
    ensures RangePairs(a) == RangePairs(b) ==> a == b
  {
    if a != [] {
      var n := |a| - 1;
      RangePairsShape(a[..n], b[..n]);
      LastPart(RangePairs(a[..n]), RangePairs(b[..n]), [Int(a[n].0), Int(a[n].1)], [Int(b[n].0), Int(b[n].1)]);
      assert a == a[..n] + [a[n]] && b == b[..n] + [b[n]];
    }
  }

  lemma {:induction false} FieldsWordsShape(a: seq<FieldRecord>, b: seq<FieldRecord>)
    requires |a| == |b|
    ensures SameShape(FieldsWords(a), FieldsWords(b))
    ensures FieldsWords(a) == FieldsWords(b) ==> a == b
  {
    hide FieldWords;
    if a != [] {
      var n := |a| - 1;
      FieldsWordsShape(a[..n], b[..n]);
      FieldWordsInjective(a[n], b[n]);
      LastPart(FieldsWords(a[..n]), FieldsWords(b[..n]), FieldWords(a[n]), FieldWords(b[n]));
      assert a == a[..n] + [a[n]] && b == b[..n] + [b[n]];
    }
  }

  lemma FieldWordsInjective(a: FieldRecord, b: FieldRecord)
    ensures SameShape(FieldWords(a), FieldWords(b))
    ensures FieldWords(a) == FieldWords(b) ==> a == b
  {
    var x, y := FieldWords(a), FieldWords(b);
    if x == y {
      assert x[0] == y[0] && x[1] == y[1] && x[2] == y[2] && x[3] == y[3] && x[4] == y[4] && x[5] == y[5];
      assert x[6] == y[6] && x[7] == y[7] && x[8] == y[8] && x[9] == y[9] && x[10] == y[10];
    }
  }

  lemma {:induction false} ValuePairsShape(a: seq<Value>, b: seq<Value>)
    requires |a| == |b|
    ensures SameShape(ValuePairs(a), ValuePairs(b))
    ensures ValuePairs(a) == ValuePairs(b) ==> a == b
  {
    if a != [] {
      var n := |a| - 1;
      ValuePairsShape(a[..n], b[..n]);
      LastPart(ValuePairs(a[..n]), ValuePairs(b[..n]), [Int(a[n].number), Text(a[n].name)],
               [Int(b[n].number), Text(b[n].name)]);
      assert a == a[..n] + [a[n]] && b == b[..n] + [b[n]];
    }
  }

  lemma TextsInjective(a: seq<Str>, b: seq<Str>)
    requires Texts(a) == Texts(b)
    ensures a == b
  {
    assert |a| == |Texts(a)| == |Texts(b)| == |b|;
    forall i | 0 <= i < |a| ensures a[i] == b[i] {
      assert Texts(a)[i] == Texts(b)[i];
    }
  }

  lemma SmallParts(a: seq<Item>, b: seq<Item>)
    requires AllSmall(a + b)
    ensures AllSmall(a) && AllSmall(b)
  {
    assert forall i :: 0 <= i < |a| ==> a[i] == (a + b)[i];
    assert forall i :: 0 <= i < |b| ==> b[i] == (a + b)[|a| + i];
  }

  lemma PeelRanges(a: seq<(i32, i32)>, b: seq<(i32, i32)>, x: seq<Item>, y: seq<Item>, s: seq<byte>, t: seq<byte>)
    requires AllSmall(RangeItems(a)) && AllSmall(RangeItems(b))
    requires Write(RangeItems(a) + x) + s == Write(RangeItems(b) + y) + t
    ensures a == b && Write(x) + s == Write(y) + t
  {
    hide Write;
    Counted(|a|, RangePairs(a), x, |b|, RangePairs(b), y, s, t);
    RangePairsShape(a, b);
    PeelParts(RangePairs(a), RangePairs(b), x, y, s, t);
  }

  lemma Counted(m: nat, a: seq<Item>, x: seq<Item>, n: nat, b: seq<Item>, y: seq<Item>, s: seq<byte>, t: seq<byte>)
    requires AllSmall([Count(m)] + a) && AllSmall([Count(n)] + b)
    requires Write([Count(m)] + a + x) + s == Write([Count(n)] + b + y) + t
    ensures m == n && Write(a + x) + s == Write(b + y) + t
    ensures AllSmall(a) && AllSmall(b)
  {
    hide Write;
    SmallParts([Count(m)], a);
    SmallParts([Count(n)], b);
    Nest([Count(m)], a, x);
    Nest([Count(n)], b, y);
    PeelParts([Count(m)], [Count(n)], a + x, b + y, s, t);
    assert [Count(m)][0] == [Count(n)][0];
  }

  lemma Nest(a: seq<Item>, b: seq<Item>, c: seq<Item>)
    ensures a + b + c == a + (b + c)
  {
  }

  lemma NoTail(s: seq<byte>, t: seq<byte>)
    ensures s + [] == t + [] <==> s == t
  {
    assert s + [] == s && t + [] == t;
  }

  lemma PeelTexts(a: seq<Str>, b: seq<Str>, x: seq<Item>, y: seq<Item>, s: seq<byte>, t: seq<byte>)
    requires AllSmall(TextItems(a)) && AllSmall(TextItems(b))
    requires Write(TextItems(a) + x) + s == Write(TextItems(b) + y) + t
    ensures a == b && Write(x) + s == Write(y) + t
  {
    hide Write;
    Counted(|a|, Texts(a), x, |b|, Texts(b), y, s, t);
    PeelParts(Texts(a), Texts(b), x, y, s, t);
    TextsInjective(a, b);
  }

  lemma PeelFields(a: seq<FieldRecord>, b: seq<FieldRecord>)
    requires AllSmall(FieldItems(a)) && AllSmall(FieldItems(b))
    requires Write(FieldItems(a)) == Write(FieldItems(b))
    ensures a == b
  {
    hide Write;
    assert [Count(|a|)] + FieldsWords(a) + [] == FieldItems(a) && [Count(|b|)] + FieldsWords(b) + [] == FieldItems(b);
    Counted(|a|, FieldsWords(a), [], |b|, FieldsWords(b), [], [], []);
    FieldsWordsShape(a, b);
    PeelParts(FieldsWords(a), FieldsWords(b), [], [], [], []);
  }

  lemma PeelValues(a: seq<Value>, b: seq<Value>)
    requires AllSmall(ValueItems(a)) && AllSmall(ValueItems(b))
    requires Write(ValueItems(a)) == Write(ValueItems(b))
    ensures a == b
  {
    hide Write;
    assert [Count(|a|)] + ValuePairs(a) + [] == ValueItems(a) && [Count(|b|)] + ValuePairs(b) + [] == ValueItems(b);
    Counted(|a|, ValuePairs(a), [], |b|, ValuePairs(b), [], [], []);
    ValuePairsShape(a, b);
    PeelParts(ValuePairs(a), ValuePairs(b), [], [], [], []);
  }

  lemma BodyUnique(a: Body, b: Body)
    requires a.MessageBody? <==> b.MessageBody?
    requires AllSmall(BodyItems(a)) && AllSmall(BodyItems(b))
    requires Write(BodyItems(a)) == Write(BodyItems(b))
    ensures a == b
  {
    hide Write, RangeItems, TextItems, FieldItems, ValueItems;
    assert Write(BodyItems(a)) + [] == Write(BodyItems(b)) + [];
    if a.MessageBody? {
      var ha, hb := [Flag(a.mapEntry), Flag(a.wireFormat)], [Flag(b.mapEntry), Flag(b.wireFormat)];
      var oa, ob := TextItems(a.oneofs) + FieldItems(a.fields), TextItems(b.oneofs) + FieldItems(b.fields);
      SmallBody(ha, a.ranges, a.names, oa);
      SmallBody(hb, b.ranges, b.names, ob);
      SmallParts(TextItems(a.oneofs), FieldItems(a.fields));
      SmallParts(TextItems(b.oneofs), FieldItems(b.fields));
      var na, nb := TextItems(a.names) + oa, TextItems(b.names) + ob;
      PeelParts(ha, hb, RangeItems(a.ranges) + na, RangeItems(b.ranges) + nb, [], []);
      PeelRanges(a.ranges, b.ranges, na, nb, [], []);
      PeelTexts(a.names, b.names, oa, ob, [], []);
      assert ha[0] == hb[0] && ha[1] == hb[1];
      PeelTexts(a.oneofs, b.oneofs, FieldItems(a.fields), FieldItems(b.fields), [], []);
      NoTail(Write(FieldItems(a.fields)), Write(FieldItems(b.fields)));
      PeelFields(a.fields, b.fields);
    } else {
      var ha, hb := [Int(a.default), Flag(a.allowAlias)], [Int(b.default), Flag(b.allowAlias)];
      SmallBody(ha, a.ranges, a.names, ValueItems(a.values));
      SmallBody(hb, b.ranges, b.names, ValueItems(b.values));
      var na, nb := TextItems(a.names) + ValueItems(a.values), TextItems(b.names) + ValueItems(b.values);
      PeelParts(ha, hb, RangeItems(a.ranges) + na, RangeItems(b.ranges) + nb, [], []);
      PeelRanges(a.ranges, b.ranges, na, nb, [], []);
      PeelTexts(a.names, b.names, ValueItems(a.values), ValueItems(b.values), [], []);
      assert ha[0] == hb[0] && ha[1] == hb[1];
      NoTail(Write(ValueItems(a.values)), Write(ValueItems(b.values)));
      PeelValues(a.values, b.values);
    }
  }

  lemma SmallBody(h: seq<Item>, ranges: seq<(i32, i32)>, names: seq<Str>, rest: seq<Item>)
    requires AllSmall(h + (RangeItems(ranges) + (TextItems(names) + rest)))
    ensures AllSmall(h) && AllSmall(RangeItems(ranges)) && AllSmall(TextItems(names)) && AllSmall(rest)
  {
    hide RangeItems, TextItems;
    SmallParts(h, RangeItems(ranges) + (TextItems(names) + rest));
    SmallParts(RangeItems(ranges), TextItems(names) + rest);
    SmallParts(TextItems(names), rest);
  }

  // ----- lengths -----

  ghost predicate CountsWithin(items: seq<Item>, k: nat) {
    forall i :: 0 <= i < |items| && items[i].Count? ==> items[i].n <= k
  }

  lemma CountsBounded(r: Record)
    ensures CountsWithin(RecordItems(r), |RecordItems(r)|)
  {
    var b := r.body;
    RangePairsLength(b.ranges);
    if b.MessageBody? {
      FieldsWordsLength(b.fields);
      CountsParts(RangeItems(b.ranges), TextItems(b.names), TextItems(b.oneofs), FieldItems(b.fields),
                  |RecordItems(r)|);
    } else {
      ValuePairsLength(b.values);
      CountsParts(RangeItems(b.ranges), TextItems(b.names), ValueItems(b.values), [], |RecordItems(r)|);
      assert ValueItems(b.values) + [] == ValueItems(b.values);
    }
  }

  lemma CountsParts(a: seq<Item>, b: seq<Item>, c: seq<Item>, d: seq<Item>, k: nat)
    requires CountsWithin(a, k) && CountsWithin(b, k) && CountsWithin(c, k) && CountsWithin(d, k)
    ensures CountsWithin(a + (b + (c + d)), k)
  {
  }

  /** A record of representable length has only representable lengths inside. */
  lemma SmallRecord(r: Record)
    requires |RecordBytes(r)| < TWO_64
    ensures AllSmall(RecordItems(r))
  {
    var items := RecordItems(r);
    CountsBounded(r);
    WriteLength(items);
    hide RecordItems, Write;
    forall i | 0 <= i < |items| ensures Small(items[i]) {
      assert |Word(items[i])| <= |Write(items)|;
    }
  }

  lemma SyntaxUnique(a: Syntax, b: Syntax)
    requires SyntaxText(a) == SyntaxText(b)
    ensures a == b
  {
    assert PROTO2[5] != PROTO3[5];
  }

  function HeadItems(r: Record): seq<Item> {
    [Text(r.name), Text(SyntaxText(r.syntax)), Byte(if r.body.MessageBody? then 1 else 2)]
  }

  /** Heads are of one shape, and equal only if names, syntaxes and kinds are. */
  lemma HeadUnique(r: Record, s: Record)
    ensures SameShape(HeadItems(r), HeadItems(s))
    ensures HeadItems(r) == HeadItems(s) ==>
              r.name == s.name && r.syntax == s.syntax && (r.body.MessageBody? <==> s.body.MessageBody?)
  {
    hide SyntaxText;
    var hr, hs := HeadItems(r), HeadItems(s);
    if hr == hs {
      assert hr[0] == hs[0] && hr[1] == hs[1] && hr[2] == hs[2];
      SyntaxUnique(r.syntax, s.syntax);
    }
  }

  lemma SmallHead(r: Record)
    requires |RecordBytes(r)| < TWO_64
    ensures RecordBytes(r) == Write(HeadItems(r) + BodyItems(r.body))
    ensures AllSmall(HeadItems(r)) && AllSmall(BodyItems(r.body))
  {
    SmallRecord(r);
    hide Write, BodyItems, SyntaxText;
    SmallParts(HeadItems(r), BodyItems(r.body));
  }

  /** No two records share bytes. */
  lemma RecordUnique(r: Record, s: Record)
    requires RecordBytes(r) == RecordBytes(s) && |RecordBytes(r)| < TWO_64
    ensures r == s
  {
    SmallHead(r);
    SmallHead(s);
    HeadUnique(r, s);
    hide Write, BodyItems, HeadItems, RecordBytes, SameShape, AllSmall;
    NoTail(Write(HeadItems(r) + BodyItems(r.body)), Write(HeadItems(s) + BodyItems(s.body)));
    PeelParts(HeadItems(r), HeadItems(s), BodyItems(r.body), BodyItems(s.body), [], []);
    NoTail(Write(BodyItems(r.body)), Write(BodyItems(s.body)));
    BodyUnique(r.body, s.body);
  }

  // ----- the theorem -----

  lemma SchemaSplit(d: Definitions, root: Str, e: Definitions, other: Str)
    requires Encodable(d, root) && Encodable(e, other)
    requires SchemaBytes(d, root) == SchemaBytes(e, other) && |SchemaBytes(d, root)| < TWO_64
    ensures root == other
    ensures Members(d, root) && Members(e, other)
    ensures RecordsOf(d, Arranged(Closure(d, root))) == RecordsOf(e, Arranged(Closure(e, other)))
    ensures forall i :: 0 <= i < |Arranged(Closure(d, root))| ==> |RecordsOf(d, Arranged(Closure(d, root)))[i]| < TWO_64
  {
    ArrangedMembers(d, root);
    ArrangedMembers(e, other);
    var a, b := RecordsOf(d, Arranged(Closure(d, root))), RecordsOf(e, Arranged(Closure(e, other)));
    ListsMultiset(Arranged(Closure(d, root)), Closure(d, root));
    ListsMultiset(Arranged(Closure(e, other)), Closure(e, other));
    ListUnique(root, a, other, b);
  }

  function ListItems(root: Str, texts: seq<Str>): seq<Item> {
    [Text(HEADER), Byte(2), Byte(0), Text(root), Count(|texts|)] + Texts(texts)
  }

  lemma ListUnique(root: Str, a: seq<Str>, other: Str, b: seq<Str>)
    requires Write(ListItems(root, a)) == Write(ListItems(other, b)) && |Write(ListItems(root, a))| < TWO_64
    ensures root == other && a == b
    ensures forall i :: 0 <= i < |a| ==> |a[i]| < TWO_64
  {
    var ha := [Text(HEADER), Byte(2), Byte(0), Text(root), Count(|a|)];
    var hb := [Text(HEADER), Byte(2), Byte(0), Text(other), Count(|b|)];
    hide Write, HEADER;
    SmallItems(ha, a);
    SmallItems(hb, b);
    NoTail(Write(ha + Texts(a)), Write(hb + Texts(b)));
    PeelParts(ha, hb, Texts(a), Texts(b), [], []);
    assert ha[3] == hb[3] && ha[4] == hb[4];
    assert Texts(a) + [] == Texts(a) && Texts(b) + [] == Texts(b);
    PeelParts(Texts(a), Texts(b), [], [], [], []);
    TextsInjective(a, b);
  }

  ghost predicate Members(d: Definitions, root: Str) {
    forall i :: 0 <= i < |Arranged(Closure(d, root))| ==>
      Arranged(Closure(d, root))[i] in d && RecordOf(d, Arranged(Closure(d, root))[i]).Some?
  }

  lemma ArrangedMembers(d: Definitions, root: Str)
    requires Encodable(d, root)
    ensures Members(d, root)
  {
    var names := Arranged(Closure(d, root));
    forall i | 0 <= i < |names| ensures names[i] in d && RecordOf(d, names[i]).Some? {
      assert names[i] in Closure(d, root);
    }
  }

  lemma SameRecordsSameBytes(d: Definitions, e: Definitions, root: Str)
    requires Closure(d, root) == Closure(e, root)
    requires forall n :: n in Closure(d, root) ==> RecordOf(d, n) == RecordOf(e, n)
    ensures Encodable(d, root) <==> Encodable(e, root)
    ensures Encodable(d, root) ==> SchemaBytes(d, root) == SchemaBytes(e, root)
  {
    hide RecordOf, Write, RecordBytes;
    if Encodable(d, root) {
      ArrangedMembers(d, root);
      ArrangedMembers(e, root);
      hide Closure;
      var names := Arranged(Closure(d, root));
      assert RecordsOf(d, names) == RecordsOf(e, names) by {
        assert forall i :: 0 <= i < |names| ==> names[i] in Closure(d, root);
      }
    }
  }

  lemma SmallItems(h: seq<Item>, texts: seq<Str>)
    requires |Write(h + Texts(texts))| < TWO_64
    requires |h| == 5 && h[0].Text? && h[1].Byte? && h[2].Byte? && h[3].Text? && h[4] == Count(|texts|)
    ensures AllSmall(h) && AllSmall(Texts(texts))
    ensures forall i :: 0 <= i < |texts| ==> |texts[i]| < TWO_64
  {
    var items := h + Texts(texts);
    WriteLength(items);
    hide Write;
    forall i | 0 <= i < |items| ensures Small(items[i]) {
      assert |Word(items[i])| <= |Write(items)|;
    }
    SmallParts(h, Texts(texts));
    forall i | 0 <= i < |texts| ensures |texts[i]| < TWO_64 {
      assert Small(Texts(texts)[i]);
    }
  }

  /**
   The canonical bytes of two schemas are equal if and only if the schemas have the same root and the same
   normalised reachable closure.
   */
  lemma CanonicalBytesExact(d: Definitions, root: Str, e: Definitions, other: Str)
    requires Encodable(d, root) && Encodable(e, other)
    requires |SchemaBytes(d, root)| < TWO_64 && |SchemaBytes(e, other)| < TWO_64
    ensures SchemaBytes(d, root) == SchemaBytes(e, other) <==>
            root == other && SchemaMeaning(d, root) == SchemaMeaning(e, other)
  {
    if SchemaBytes(d, root) == SchemaBytes(e, other) {
      BytesThenMeaning(d, root, e, other);
    }
    if root == other && SchemaMeaning(d, root) == SchemaMeaning(e, other) {
      MeaningThenBytes(d, e, root);
    }
  }

  lemma MeaningThenBytes(d: Definitions, e: Definitions, root: Str)
    requires Encodable(d, root) && Encodable(e, root)
    requires SchemaMeaning(d, root) == SchemaMeaning(e, root)
    ensures SchemaBytes(d, root) == SchemaBytes(e, root)
  {
    assert Closure(d, root) == SchemaMeaning(d, root).Keys == SchemaMeaning(e, root).Keys == Closure(e, root);
    var names := Arranged(Closure(d, root));
    ArrangedMembers(d, root);
    ArrangedMembers(e, root);
    hide RecordOf, MeaningOf, Write;
    forall i | 0 <= i < |names| ensures RecordOf(d, names[i]) == RecordOf(e, names[i]) {
      var n := names[i];
      assert n in Closure(d, root);
      assert SchemaMeaning(d, root)[n] == SchemaMeaning(e, root)[n];
      RecordAgrees(d, n);
      RecordAgrees(e, n);
      SameMeaningSameRecord(RecordOf(d, n).value, RecordOf(e, n).value, MeaningOf(d, n));
    }
    assert RecordsOf(d, names) == RecordsOf(e, names);
  }

  lemma BytesThenMeaning(d: Definitions, root: Str, e: Definitions, other: Str)
    requires Encodable(d, root) && Encodable(e, other)
    requires SchemaBytes(d, root) == SchemaBytes(e, other) && |SchemaBytes(d, root)| < TWO_64
    ensures root == other && SchemaMeaning(d, root) == SchemaMeaning(e, other)
  {
    SchemaSplit(d, root, e, other);
    MeaningListed(d, root);
    MeaningListed(e, other);
    hide RecordOf, MeaningOf, SchemaBytes, RecordBytes, Encodable, ReferenceGraph, Closure, SchemaMeaning;
    var a, b := Arranged(Closure(d, root)), Arranged(Closure(e, other));
    forall i | 0 <= i < |a| ensures a[i] == b[i] && MeaningOf(d, a[i]) == MeaningOf(e, b[i]) {
      assert RecordsOf(d, a)[i] == RecordsOf(e, b)[i];
      SameRecordBytes(d, a[i], e, b[i]);
    }
    assert a == b;
    SameMaps(a, SchemaMeaning(d, root), SchemaMeaning(e, other));
  }

  /** A schema's meaning gives each arranged name of its closure the meaning of its definition. */
  lemma MeaningListed(d: Definitions, root: Str)
    requires Encodable(d, root)
    ensures SchemaMeaning(d, root).Keys == Closure(d, root) && Members(d, root)
    ensures var names := Arranged(Closure(d, root));
            forall i :: 0 <= i < |names| ==>
              names[i] in SchemaMeaning(d, root) && SchemaMeaning(d, root)[names[i]] == MeaningOf(d, names[i])
  {
    ArrangedMembers(d, root);
    hide RecordOf, MeaningOf, ReferenceGraph;
    var names := Arranged(Closure(d, root));
    assert forall i :: 0 <= i < |names| ==> names[i] in Closure(d, root);
  }

  lemma SameMaps(q: seq<Str>, m: map<Str, Meaning>, n: map<Str, Meaning>)
    requires Lists(q, m.Keys) && Lists(q, n.Keys)
    requires forall i :: 0 <= i < |q| ==> q[i] in m && q[i] in n && m[q[i]] == n[q[i]]
    ensures m == n
  {
    assert m.Keys == n.Keys by { assert forall x :: x in m.Keys <==> x in q; }
    forall x | x in m ensures m[x] == n[x] { assert x in q; }
  }

  lemma SameRecordBytes(d: Definitions, n: Str, e: Definitions, m: Str)
    requires n in d && RecordOf(d, n).Some? && m in e && RecordOf(e, m).Some?
    requires RecordBytes(RecordOf(d, n).value) == RecordBytes(RecordOf(e, m).value)
    requires |RecordBytes(RecordOf(d, n).value)| < TWO_64
    ensures n == m && MeaningOf(d, n) == MeaningOf(e, m)
  {
    hide RecordOf, MeaningOf, RecordBytes;
    RecordUnique(RecordOf(d, n).value, RecordOf(e, m).value);
    RecordAgrees(d, n);
    RecordAgrees(e, m);
    SameRecordSameMeaning(RecordOf(d, n).value, MeaningOf(d, n), MeaningOf(e, m));
  }
}
