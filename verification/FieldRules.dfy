/** What the field and name rules of the schema record come to, apart from how they are computed. */
module FieldRules {
  import opened Prelude
  import opened Text
  import opened Descriptor
  import opened SchemaRecord

  // ----- scopes -----

  /** What a reference means in the scope of the first `k` parts. */
  function Reading(parts: seq<Str>, k: nat, reference: Str): Str
    requires k <= |parts|
  {
    if k == 0 then reference else Join(parts[..k], DOT) + [DOT] + reference
  }

  /** The readings of a reference in each enclosing scope, innermost first. */
  ghost predicate Readings(names: seq<Str>, parts: seq<Str>, reference: Str) {
    |names| == |parts| + 1 && forall j :: 0 <= j <= |parts| ==> names[j] == Reading(parts, |parts| - j, reference)
  }

  function Scope(parts: seq<Str>): Str {
    if parts == [] then [] else Join(parts, DOT)
  }

  /** The candidates of a relative reference are its readings in each enclosing scope, innermost first. */
  lemma {:induction false} CandidatesAreScopes(parts: seq<Str>, reference: Str)
    requires AllFree(parts, DOT) && (parts != [] ==> parts[0] != [])
    ensures Readings(Candidates(Scope(parts), reference), parts, reference)
  {
    if parts != [] {
      var outer, last := parts[..|parts| - 1], parts[|parts| - 1];
      assert parts == outer + [last] && DOT !in last;
      CandidatesAreScopes(outer, reference);
      hide AllFree, Readings;
      if outer == [] { ParentAlone(last); } else { ParentOfSnoc(outer, last); }
      MoreReadings(Candidates(Scope(outer), reference), outer, last, reference);
    }
  }

  lemma MoreReadings(names: seq<Str>, outer: seq<Str>, last: Str, reference: Str)
    requires Readings(names, outer, reference)
    ensures Readings([Join(outer + [last], DOT) + [DOT] + reference] + names, outer + [last], reference)
  {
    hide Join;
    var parts := outer + [last];
    var all := [Join(parts, DOT) + [DOT] + reference] + names;
    assert parts[..|parts|] == parts;
    forall j | 0 < j <= |parts| ensures all[j] == Reading(parts, |parts| - j, reference) {
      assert all[j] == names[j - 1] && names[j - 1] == Reading(outer, |outer| - (j - 1), reference);
      assert outer[..|parts| - j] == parts[..|parts| - j];
    }
  }

  lemma {:induction false} ParentSnoc(outer: Str, last: Str)
    requires DOT !in last
    ensures Parent(outer + [DOT] + last) == outer
  {
    var scope := outer + [DOT] + last;
    if last == [] {
      assert scope[..|scope| - 1] == outer;
    } else {
      assert scope[..|scope| - 1] == outer + [DOT] + last[..|last| - 1];
      ParentSnoc(outer, last[..|last| - 1]);
    }
  }

  lemma {:induction false} ParentAlone(name: Str)
    requires DOT !in name
    ensures Parent(name) == []
  {
    if name != [] {
      ParentAlone(name[..|name| - 1]);
    }
  }

  lemma ParentOfSnoc(outer: seq<Str>, last: Str)
    requires outer != [] && DOT !in last
    ensures Join(outer + [last], DOT) != [] && Parent(Join(outer + [last], DOT)) == Join(outer, DOT)
  {
    hide Parent, Join;
    JoinSnoc(outer, DOT, last);
    ParentSnoc(Join(outer, DOT), last);
  }

  /** A relative reference means its reading in the innermost enclosing scope that defines it. */
  lemma InnermostWins(d: Definitions, parts: seq<Str>, reference: Str)
    requires AllFree(parts, DOT) && (parts != [] ==> parts[0] != []) && reference != [] && reference[0] != DOT
    ensures match ResolvedName(d, Scope(parts), reference)
            case None => forall k :: 0 <= k <= |parts| ==> Reading(parts, k, reference) !in d
            case Some(n) => exists k :: 0 <= k <= |parts| && n == Reading(parts, k, reference)
                                        && forall i :: k < i <= |parts| ==> Reading(parts, i, reference) !in d
  {
    hide Candidates, FirstDefined, Join, AllFree, Reading;
    var c := Candidates(Scope(parts), reference);
    CandidatesAreScopes(parts, reference);
    FirstDefinedIsDefined(d, c);
    forall k | 0 <= k <= |parts| ensures c[|parts| - k] == Reading(parts, k, reference) {
      assert c[|parts| - k] == Reading(parts, |parts| - (|parts| - k), reference);
    }
    if ResolvedName(d, Scope(parts), reference).Some? {
      var n := ResolvedName(d, Scope(parts), reference).value;
      var i :| 0 <= i < |c| && c[i] == n && forall j :: 0 <= j < i ==> c[j] !in d;
      var k := |parts| - i;
      assert n == Reading(parts, k, reference);
      forall inner | k < inner <= |parts| ensures Reading(parts, inner, reference) !in d {
        assert c[|parts| - inner] == Reading(parts, inner, reference);
      }
    }
  }

  // ----- what a reference means, whatever the scope -----

  /** `outer` is `scope` itself, the outermost scope, or what stands before some dot of `scope`. */
  predicate Encloses(outer: Str, scope: Str) {
    outer == scope || outer == [] || outer + [DOT] <= scope
  }

  /** The name a reference stands for when read in `scope`. */
  function In(scope: Str, reference: Str): Str {
    if scope == [] then reference else scope + [DOT] + reference
  }

  /** An absolute reference means the name after its dot, a relative one its reading in the innermost scope with one. */
  ghost predicate Means(d: Definitions, scope: Str, reference: Str, name: Str) {
    && name in d && reference != []
    && if reference[0] == DOT then [DOT] + name == reference
       else exists outer :: Innermost(d, scope, reference, outer) && name == In(outer, reference)
  }

  ghost predicate Innermost(d: Definitions, scope: Str, reference: Str, outer: Str) {
    && Encloses(outer, scope) && In(outer, reference) in d
    && forall inner :: Encloses(inner, scope) && |inner| > |outer| ==> In(inner, reference) !in d
  }

  lemma {:induction false} ParentCut(scope: Str)
    requires scope != []
    ensures Parent(scope) == [] || Parent(scope) + [DOT] <= scope
    ensures forall i :: |Parent(scope)| < i < |scope| ==> scope[i] != DOT
    ensures DOT !in scope ==> Parent(scope) == []
    ensures DOT in scope ==> Parent(scope) + [DOT] <= scope
  {
    var n := |scope| - 1;
    if scope[n] == DOT {
      assert scope == scope[..n] + [DOT];
    } else if n > 0 {
      ParentCut(scope[..n]);
      assert scope == scope[..n] + [scope[n]];
    }
  }

  /** What stands before a dot of the scope stands in the parent, or is the parent. */
  lemma CutInParent(outer: Str, scope: Str)
    requires outer + [DOT] <= scope
    ensures scope != [] && (outer == Parent(scope) || outer + [DOT] <= Parent(scope))
  {
    assert scope[|outer|] == DOT;
    ParentCut(scope);
    var p := Parent(scope);
    assert DOT in scope && |outer| <= |p|;
    assert outer == scope[..|outer|] && p == scope[..|p|];
    if |outer| < |p| { assert p[|outer|] == DOT && p[..|outer| + 1] == outer + [DOT]; }
  }

  /** The scopes around a scope are itself and those around its parent. */
  lemma EnclosesParent(outer: Str, scope: Str)
    requires scope != []
    ensures Encloses(outer, scope) <==> outer == scope || Encloses(outer, Parent(scope))
    ensures Encloses(outer, Parent(scope)) ==> |outer| < |scope|
  {
    ParentCut(scope);
    hide Parent;
    if outer + [DOT] <= scope { CutInParent(outer, scope); }
    if outer != [] && Encloses(outer, Parent(scope)) { CutThrough(outer, Parent(scope), scope); }
  }

  lemma CutThrough(outer: Str, p: Str, scope: Str)
    requires outer != [] && Encloses(outer, p) && (p == [] || p + [DOT] <= scope)
    ensures outer + [DOT] <= scope
  {
    if outer != p { assert scope[..|outer| + 1] == p[..|outer| + 1] == outer + [DOT]; }
  }

  lemma {:induction false} FirstIsInnermost(d: Definitions, scope: Str, reference: Str)
    ensures match FirstDefined(d, Candidates(scope, reference))
            case None => forall outer :: Encloses(outer, scope) ==> In(outer, reference) !in d
            case Some(n) => exists outer :: Innermost(d, scope, reference, outer) && n == In(outer, reference)
    decreases |scope|
  {
    var c := Candidates(scope, reference);
    assert c[0] == In(scope, reference);
    if scope == [] {
      assert c[1..] == [];
      assert forall outer :: Encloses(outer, scope) ==> outer == [];
      FirstStep(d, c);
      if c[0] in d { InnermostSelf(d, scope, reference); }
    } else {
      var p := Parent(scope);
      assert c[1..] == Candidates(p, reference);
      FirstIsInnermost(d, p, reference);
      hide Encloses, In, Candidates, FirstDefined;
      forall outer ensures Encloses(outer, scope) <==> outer == scope || Encloses(outer, p) {
        EnclosesParent(outer, scope);
      }
      FirstStep(d, c);
      if c[0] in d {
        InnermostSelf(d, scope, reference);
      } else if FirstDefined(d, c).Some? {
        var outer :| Innermost(d, p, reference, outer) && FirstDefined(d, c).value == In(outer, reference);
        assert Innermost(d, scope, reference, outer);
      }
    }
  }

  lemma FirstStep(d: Definitions, names: seq<Str>)
    requires names != []
    ensures FirstDefined(d, names) == if names[0] in d then Some(names[0]) else FirstDefined(d, names[1..])
  {}

  lemma InnermostSelf(d: Definitions, scope: Str, reference: Str)
    requires In(scope, reference) in d
    ensures Innermost(d, scope, reference, scope)
  {}

  /** Two innermost scopes are one. */
  lemma InnermostOnce(d: Definitions, scope: Str, reference: Str, a: Str, b: Str)
    requires Innermost(d, scope, reference, a) && Innermost(d, scope, reference, b)
    ensures a == b
  {
    assert |a| == |b|;
    if a != scope && a != [] && b != scope && b != [] { assert a == scope[..|a|] && b == scope[..|b|]; }
  }

  /** Resolution finds what the reference means, in any scope, or nothing. */
  lemma MeansExact(d: Definitions, scope: Str, reference: Str, name: Str)
    ensures ResolvedName(d, scope, reference) == Some(name) <==> Means(d, scope, reference, name)
  {
    hide Candidates, FirstDefined, Innermost;
    if reference != [] && reference[0] == DOT {
      assert [DOT] + reference[1..] == reference;
      assert ([DOT] + name)[1..] == name;
    } else if reference != [] {
      FirstIsInnermost(d, scope, reference);
      var r := ResolvedName(d, scope, reference);
      if Means(d, scope, reference, name) {
        var outer :| Innermost(d, scope, reference, outer) && name == In(outer, reference);
        InnermostThere(d, scope, reference, outer);
        var other :| Innermost(d, scope, reference, other) && r.value == In(other, reference);
        InnermostOnce(d, scope, reference, outer, other);
      }
    }
  }

  lemma InnermostThere(d: Definitions, scope: Str, reference: Str, outer: Str)
    requires Innermost(d, scope, reference, outer)
    ensures Encloses(outer, scope) && In(outer, reference) in d
  {}

  // ----- JSON names -----

  /** The piece with its first character raised. */
  function Capital(piece: Str): Str {
    if piece == [] then [] else [Upper(piece[0])] + piece[1..]
  }

  function Capitals(pieces: seq<Str>): Str {
    if pieces == [] then [] else Capital(pieces[0]) + Capitals(pieces[1..])
  }

  /** The default JSON name is the camel case of the pieces between underscores. */
  lemma {:induction false} JsonNameIsCamel(name: Str, raise: bool)
    ensures var pieces := Split(name, UNDERSCORE);
            JsonName(name, raise) == (if raise then Capital(pieces[0]) else pieces[0]) + Capitals(pieces[1..])
  {
    if name != [] {
      var rest := Split(name[1..], UNDERSCORE);
      if name[0] == UNDERSCORE {
        JsonNameIsCamel(name[1..], true);
        assert ([[]] + rest)[1..] == rest;
      } else {
        JsonNameIsCamel(name[1..], false);
        var pieces := [[name[0]] + rest[0]] + rest[1..];
        assert pieces[1..] == rest[1..];
        assert pieces[0][1..] == rest[0];
      }
    }
  }

  // ----- fields -----

  lemma {:induction false} SharingAtLeast(fields: seq<Field>, oneofIndex: Option<i32>, i: nat)
    requires i < |fields| && fields[i].oneofIndex == oneofIndex
    ensures Sharing(fields, oneofIndex) >= 1
  {
    if i > 0 {
      SharingAtLeast(fields[1..], oneofIndex, i - 1);
    }
  }

  lemma {:induction false} SharingUnique(fields: seq<Field>, oneofIndex: Option<i32>, i: nat, j: nat)
    requires i < j < |fields| && fields[i].oneofIndex == oneofIndex == fields[j].oneofIndex
    ensures Sharing(fields, oneofIndex) >= 2
  {
    if i == 0 {
      SharingAtLeast(fields[1..], oneofIndex, j - 1);
    } else {
      SharingUnique(fields[1..], oneofIndex, i - 1, j - 1);
    }
  }

  lemma {:induction false} SharingFound(fields: seq<Field>, oneofIndex: Option<i32>) returns (i: nat)
    requires Sharing(fields, oneofIndex) >= 1
    ensures i < |fields| && fields[i].oneofIndex == oneofIndex
  {
    if fields[0].oneofIndex == oneofIndex {
      i := 0;
    } else {
      i := SharingFound(fields[1..], oneofIndex);
      i := i + 1;
    }
  }

  lemma {:induction false} SharingTwice(fields: seq<Field>, oneofIndex: Option<i32>) returns (i: nat, j: nat)
    requires Sharing(fields, oneofIndex) >= 2
    ensures i < j < |fields| && fields[i].oneofIndex == oneofIndex == fields[j].oneofIndex
  {
    if fields[0].oneofIndex == oneofIndex {
      var k := SharingFound(fields[1..], oneofIndex);
      i, j := 0, k + 1;
    } else {
      i, j := SharingTwice(fields[1..], oneofIndex);
      i, j := i + 1, j + 1;
    }
  }

  /** At most one field names the oneof. */
  ghost predicate AloneInOneof(fields: seq<Field>, oneofIndex: Option<i32>) {
    forall i, j :: 0 <= i < j < |fields| ==> !(fields[i].oneofIndex == oneofIndex && fields[j].oneofIndex == oneofIndex)
  }

  /** Counting one field in a oneof is having it to oneself. */
  lemma CountsAlone(fields: seq<Field>, field: Field)
    requires field in fields
    ensures Sharing(fields, field.oneofIndex) == 1 <==> AloneInOneof(fields, field.oneofIndex)
  {
    hide Sharing;
    var k :| 0 <= k < |fields| && fields[k] == field;
    SharingAtLeast(fields, field.oneofIndex, k);
    if Sharing(fields, field.oneofIndex) >= 2 {
      var i, j := SharingTwice(fields, field.oneofIndex);
    }
    if !AloneInOneof(fields, field.oneofIndex) {
      var i, j :| 0 <= i < j < |fields|
                  && fields[i].oneofIndex == field.oneofIndex && fields[j].oneofIndex == field.oneofIndex;
      SharingUnique(fields, field.oneofIndex, i, j);
    }
  }

  predicate Referring(kind: i32) { kind == MESSAGE || kind == GROUP || kind == ENUM }

  /** A kind that fits what is stated, with a reference exactly where it needs one, to a definition of that kind. */
  ghost predicate Typed(d: Definitions, scope: Str, field: Field, kind: i32, reference: Option<Str>) {
    && 1 <= kind <= LAST_KIND && (field.kind.Some? ==> field.kind.value == kind) && (field.kind.None? ==> kind != GROUP)
    && (Referring(kind) <==> reference.Some?)
    && (reference.Some? <==> field.typeName.Some?)
    && (reference.Some? ==> Means(d, scope, field.typeName.value, reference.value))
    && (reference.Some? ==> (d[reference.value].definition.EnumDef? <==> kind == ENUM))
    && (reference.None? ==> field.kind.Some?)
  }

  /** Inference finds the one kind and reference that fit, if there are any. */
  lemma TypedExact(d: Definitions, scope: Str, field: Field, kind: i32, reference: Option<Str>)
    ensures FieldType(d, scope, field) == Some((kind, reference)) <==> Typed(d, scope, field, kind, reference)
  {
    hide ResolvedName, Means;
    if field.typeName.Some? {
      var found := ResolvedName(d, scope, field.typeName.value);
      if found.Some? { MeansExact(d, scope, field.typeName.value, found.value); }
      if reference.Some? { MeansExact(d, scope, field.typeName.value, reference.value); }
    }
  }

  function Cardinality(field: Field): i32 {
    if field.cardinality.Some? then field.cardinality.value else OPTIONAL
  }

  /** The protobuf rules on where a field of a kind may stand. */
  ghost predicate Lawful(syntax: Syntax, message: Message, field: Field, kind: i32) {
    && field.extendee.None? && OPTIONAL <= Cardinality(field) <= REPEATED
    && (syntax == Proto3 ==> Cardinality(field) != REQUIRED)
    && (field.oneofIndex.Some? ==> 0 <= field.oneofIndex.value < |message.oneofs| && Cardinality(field) == OPTIONAL)
    && (field.proto3Optional ==>
          syntax == Proto3 && field.oneofIndex.Some? && AloneInOneof(message.fields, field.oneofIndex))
    && (field.packed == Some(true) ==> Cardinality(field) == REPEATED && kind !in {STRING, BYTES, MESSAGE, GROUP})
  }

  /** A message's field has a record exactly when it can be typed and its place is lawful. */
  lemma RecordedFieldRules(d: Definitions, scope: Str, syntax: Syntax, message: Message, field: Field)
    requires field in message.fields
    ensures FieldOf(d, scope, syntax, message, field).Some? <==>
            exists kind, reference :: Typed(d, scope, field, kind, reference) && Lawful(syntax, message, field, kind)
  {
    hide FieldType, Typed, Sharing, AloneInOneof;
    CountsAlone(message.fields, field);
    if FieldOf(d, scope, syntax, message, field).Some? {
      var (kind, reference) := FieldType(d, scope, field).value;
      TypedExact(d, scope, field, kind, reference);
      assert Lawful(syntax, message, field, kind);
    }
    if kind, reference :| Typed(d, scope, field, kind, reference) && Lawful(syntax, message, field, kind) {
      TypedExact(d, scope, field, kind, reference);
    }
  }

  /** The name of the oneof a field stands in. */
  function OneofOf(message: Message, field: Field): Option<Str> {
    if field.oneofIndex.Some? && 0 <= field.oneofIndex.value < |message.oneofs|
    then Some(message.oneofs[field.oneofIndex.value]) else None
  }

  /** The JSON name stated, or else the camel case of the name: capitals after underscores, which go. */
  function JsonOf(field: Field): Str {
    if field.jsonName.Some? then field.jsonName.value
    else
      var pieces := Split(field.name, UNDERSCORE);
      pieces[0] + Capitals(pieces[1..])
  }

  /** Repeated scalars and enums are packed when they ask for it, and under proto3 unless they decline. */
  predicate Packs(syntax: Syntax, field: Field, kind: i32) {
    && Cardinality(field) == REPEATED && kind !in {STRING, BYTES, MESSAGE, GROUP}
    && (field.packed == Some(true) || (field.packed.None? && syntax == Proto3))
  }

  /** What is not repeated has presence in a oneof, under proto2, and as a message. */
  predicate HasPresence(syntax: Syntax, message: Message, field: Field, kind: i32) {
    Cardinality(field) != REPEATED
    && (syntax == Proto2 || OneofOf(message, field).Some? || kind == MESSAGE || kind == GROUP)
  }

  /** What the record says of the field, entry by entry. */
  lemma RecordedFieldSays(d: Definitions, scope: Str, syntax: Syntax, message: Message, field: Field)
    requires field in message.fields && FieldOf(d, scope, syntax, message, field).Some?
    ensures var f := FieldOf(d, scope, syntax, message, field).value;
            && f.number == field.number && f.name == field.name && f.cardinality == Cardinality(field)
            && Typed(d, scope, field, f.kind, f.reference)
            && f.oneof == OneofOf(message, field) && (f.oneof.Some? <==> field.oneofIndex.Some?)
            && f.proto3Optional == field.proto3Optional && f.defaultValue == field.defaultValue
            && f.jsonName == JsonOf(field)
            && (f.packed <==> Packs(syntax, field, f.kind))
            && (f.presence <==> HasPresence(syntax, message, field, f.kind))
  {
    hide FieldType, Typed, Sharing, Split;
    var (kind, reference) := FieldType(d, scope, field).value;
    TypedExact(d, scope, field, kind, reference);
    JsonNameIsCamel(field.name, false);
  }
}
