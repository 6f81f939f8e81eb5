/**
 Pruning a descriptor set to the file of one message and its transitive imports. Pruning keeps the
 message's fingerprint exactly when every definition it needs lies in a kept file.
 */
module Pruning {
  import opened Prelude
  import opened Counting
  import opened Order
  import opened Descriptor
  import opened SchemaRecord
  import opened Fingerprint
  import opened SchemaIdentity
  import opened Lookup
  import opened Graph

  // ----- imports -----

  /** The first file of a name. */
  function FileNamed(files: seq<File>, name: Str): Option<File> {
    if files == [] then None
    else if files[0].name == name then Some(files[0])
    else FileNamed(files[1..], name)
  }

  function ImportsOf(files: seq<File>, name: Str): seq<Str> {
    if FileNamed(files, name).Some? then FileNamed(files, name).value.imports else []
  }

  function FileNames(files: seq<File>): set<Str> {
    set f | f in files :: f.name
  }

  function ImportGraph(files: seq<File>): Graph<Str> {
    map n | n in FileNames(files) :: ImportsOf(files, n)
  }

  /** Every file name that is mentioned at all, as a file or as an import. */
  function Mentioned(files: seq<File>): set<Str> {
    FileNames(files) + set f, n | f in files && n in f.imports :: n
  }

  /** The file names reached from `start` through imports. */
  ghost function ImportClosure(files: seq<File>, start: Str): set<Str> {
    set n | n in Mentioned(files) && Reach(ImportGraph(files), start, n)
  }

  lemma {:induction false} FileNamedFound(files: seq<File>, name: Str)
    ensures FileNamed(files, name).Some? <==> name in FileNames(files)
    ensures FileNamed(files, name).Some? ==> FileNamed(files, name).value in files
  {
    if files != [] {
      FileNamedFound(files[1..], name);
      assert files == [files[0]] + files[1..];
    }
  }

  lemma NextImports(files: seq<File>, name: Str)
    ensures Next(ImportGraph(files), name) == ImportsOf(files, name)
    ensures forall n :: n in ImportsOf(files, name) ==> n in Mentioned(files)
  {
    FileNamedFound(files, name);
  }

  function Keep(files: seq<File>, names: set<Str>): seq<File> {
    if files == [] then []
    else (if files[0].name in names then [files[0]] else []) + Keep(files[1..], names)
  }

  /** What pruning answers. */
  ghost function SubsetOf(files: seq<File>, message: Str): Option<seq<File>> {
    if FindMessage(files, message).None? then None
    else Some(Keep(files, ImportClosure(files, FindMessage(files, message).value.0.name)))
  }

  // ----- the growing list of wanted files -----

  /** Names wanted so far, of which the first `done` have had their imports added. */
  ghost predicate Collecting(files: seq<File>, start: Str, wanted: seq<Str>, done: nat) {
    && done <= |wanted| && NoRepeats(wanted) && start in wanted
    && (forall i :: 0 <= i < |wanted| ==> wanted[i] in Mentioned(files) && Reach(ImportGraph(files), start, wanted[i]))
    && (forall i :: 0 <= i < done ==> Elements(ImportsOf(files, wanted[i])) <= Elements(wanted))
  }

  method DescriptorSubset(files: seq<File>, message: Str) returns (r: Option<seq<File>>)
    ensures r == SubsetOf(files, message)
  {
    var found := FindMessage(files, message);
    if found.None? { return None; }
    var start := found.value.0.name;
    FoundInSet(files, message);
    ReachSelf(ImportGraph(files), start);
    var wanted := [start];
    var cursor := 0;
    while cursor < |wanted|
      invariant Collecting(files, start, wanted, cursor)
      decreases |Mentioned(files)| - cursor
    {
      WantedBound(files, start, wanted, cursor);
      wanted := AddImports(files, start, wanted, cursor);
      cursor := cursor + 1;
    }
    Collected(files, start, wanted);
    r := Some(KeepListed(files, wanted));
    KeepSame(files, wanted, ImportClosure(files, start));
  }

  lemma {:induction false} FoundInSet(files: seq<File>, message: Str)
    requires FindMessage(files, message).Some?
    ensures FindMessage(files, message).value.0 in files
    ensures FindMessage(files, message).value.0.name in Mentioned(files)
  {
    if FindInFile(files[0], message).None? {
      FoundInSet(files[1..], message);
      assert files == [files[0]] + files[1..];
    }
  }

  lemma WantedBound(files: seq<File>, start: Str, wanted: seq<Str>, done: nat)
    requires Collecting(files, start, wanted, done)
    ensures |wanted| <= |Mentioned(files)|
  {
    DistinctCount(wanted);
    assert Elements(wanted) <= Mentioned(files);
    SubsetSize(Elements(wanted), Mentioned(files));
  }

  /** One turn of the collection: the imports of the file at the cursor join the list. */
  method AddImports(files: seq<File>, ghost start: Str, wanted: seq<Str>, cursor: nat) returns (wanted': seq<Str>)
    requires cursor < |wanted| && Collecting(files, start, wanted, cursor)
    ensures Collecting(files, start, wanted', cursor + 1)
  {
    hide ImportGraph, Mentioned, Reach, Collecting, Elements, ImportsOf;
    wanted' := wanted;
    var imports := ImportsOf(files, wanted[cursor]);
    assert imports[..0] == [];
    ElementsNone(wanted);
    ImportsReached(files, start, wanted, cursor);
    for i := 0 to |imports|
      invariant wanted <= wanted' && Collecting(files, start, wanted', cursor)
      invariant Elements(imports[..i]) <= Elements(wanted')
    {
      if imports[i] !in wanted' {
        MoreWanted(files, start, wanted', cursor, imports[i]);
        wanted' := wanted' + [imports[i]];
      }
      ElementsNext(imports, i);
      ElementsHas(wanted', imports[i]);
    }
    assert imports[..|imports|] == imports;
    assert wanted'[cursor] == wanted[cursor];
    OneMoreDone(files, start, wanted', cursor);
  }

  lemma ElementsNone(s: seq<Str>)
    ensures Elements<Str>([]) <= Elements(s)
  {}

  lemma ElementsHas(s: seq<Str>, x: Str)
    requires x in s
    ensures x in Elements(s)
  {}

  /** Whatever a wanted file imports is mentioned and reachable. */
  lemma ImportsReached(files: seq<File>, start: Str, wanted: seq<Str>, cursor: nat)
    requires cursor < |wanted| && Collecting(files, start, wanted, cursor)
    ensures forall n :: n in ImportsOf(files, wanted[cursor]) ==>
              n in Mentioned(files) && Reach(ImportGraph(files), start, n)
  {
    hide Elements;
    NextImports(files, wanted[cursor]);
    hide ImportGraph, Mentioned, Reach, ImportsOf;
    forall n | n in ImportsOf(files, wanted[cursor]) ensures Reach(ImportGraph(files), start, n) {
      ReachSnoc(ImportGraph(files), start, wanted[cursor], n);
    }
  }

  lemma OneMoreDone(files: seq<File>, start: Str, wanted: seq<Str>, cursor: nat)
    requires cursor < |wanted| && Collecting(files, start, wanted, cursor)
    requires Elements(ImportsOf(files, wanted[cursor])) <= Elements(wanted)
    ensures Collecting(files, start, wanted, cursor + 1)
  {
    hide ImportGraph, Mentioned, Reach, ImportsOf, Elements;
  }

  lemma ElementsNext(s: seq<Str>, i: nat)
    requires i < |s|
    ensures Elements(s[..i + 1]) == Elements(s[..i]) + {s[i]}
  {
    assert s[..i + 1] == s[..i] + [s[i]];
  }

  lemma MoreWanted(files: seq<File>, start: Str, wanted: seq<Str>, done: nat, name: Str)
    requires Collecting(files, start, wanted, done) && name !in wanted
    requires name in Mentioned(files) && Reach(ImportGraph(files), start, name)
    ensures Collecting(files, start, wanted + [name], done)
    ensures Elements(wanted + [name]) == Elements(wanted) + {name}
  {
    hide ImportGraph, Mentioned, Reach, ImportsOf;
    assert Elements(wanted + [name]) == Elements(wanted) + {name};
  }

  lemma Collected(files: seq<File>, start: Str, wanted: seq<Str>)
    requires Collecting(files, start, wanted, |wanted|)
    ensures Elements(wanted) == ImportClosure(files, start)
  {
    var g := ImportGraph(files);
    assert Closed(g, Elements(wanted)) by {
      forall n, m | n in Elements(wanted) && m in Next(g, n) ensures m in Elements(wanted) {
        NextImports(files, n);
        var i :| 0 <= i < |wanted| && wanted[i] == n;
        assert m in Elements(ImportsOf(files, wanted[i]));
      }
    }
    forall n | n in ImportClosure(files, start) ensures n in wanted {
      ClosedReach(g, Elements(wanted), start, n);
    }
  }

  function KeepListed(files: seq<File>, wanted: seq<Str>): seq<File> {
    if files == [] then []
    else (if files[0].name in wanted then [files[0]] else []) + KeepListed(files[1..], wanted)
  }

  lemma {:induction false} KeepSame(files: seq<File>, wanted: seq<Str>, names: set<Str>)
    requires Elements(wanted) == names
    ensures KeepListed(files, wanted) == Keep(files, names)
  {
    if files != [] {
      KeepSame(files[1..], wanted, names);
      assert files[0].name in wanted <==> files[0].name in Elements(wanted);
    }
  }

  // ----- what is kept, on the files alone -----

  /** `f` comes before every other file of its name. */
  ghost predicate IsFirst(files: seq<File>, f: File) {
    exists k :: 0 <= k < |files| && files[k] == f && forall j :: 0 <= j < k ==> files[j].name != f.name
  }

  /** A file named `a` imports `b`; if there are several of the name, the first does. */
  ghost predicate Imports(files: seq<File>, a: Str, b: Str) {
    exists f :: IsFirst(files, f) && f.name == a && b in f.imports
  }

  ghost predicate ImportChain(files: seq<File>, q: seq<Str>) {
    |q| > 0 && forall i {:trigger q[i]} :: 0 <= i < |q| - 1 ==> Imports(files, q[i], q[i + 1])
  }

  /** `name` is `start` or imported, however indirectly. */
  ghost predicate Reaches(files: seq<File>, start: Str, name: Str) {
    exists q :: ImportChain(files, q) && q[0] == start && q[|q| - 1] == name
  }

  /** `kept` are the files at the positions `at`, in the files' own order. */
  ghost predicate Picks(files: seq<File>, at: seq<int>, kept: seq<File>) {
    && |at| == |kept| && (forall i :: 0 <= i < |at| ==> 0 <= at[i] < |files| && kept[i] == files[at[i]])
    && (forall i, j :: 0 <= i < j < |at| ==> at[i] < at[j])
  }

  lemma {:induction false} FirstNamed(files: seq<File>, f: File)
    ensures FileNamed(files, f.name) == Some(f) <==> IsFirst(files, f)
  {
    if files != [] {
      FirstNamed(files[1..], f);
      if files[0].name == f.name {
        if files[0] == f { assert files[0] == f; }
      } else {
        if k :| 0 <= k < |files| && files[k] == f && forall j :: 0 <= j < k ==> files[j].name != f.name {
          assert files[1..][k - 1] == f;
          assert forall j :: 0 <= j < k - 1 ==> files[1..][j] == files[j + 1];
        }
        if k :| 0 <= k < |files[1..]| && files[1..][k] == f
                && forall j :: 0 <= j < k ==> files[1..][j].name != f.name {
          assert files[k + 1] == f;
          assert forall j :: 0 < j < k + 1 ==> files[j] == files[1..][j - 1];
        }
      }
    }
  }

  lemma {:induction false} NamedHasName(files: seq<File>, name: Str)
    ensures FileNamed(files, name).Some? ==> FileNamed(files, name).value.name == name
  {
    if files != [] { NamedHasName(files[1..], name); }
  }

  lemma ImportsExact(files: seq<File>, a: Str, b: Str)
    ensures b in Next(ImportGraph(files), a) <==> Imports(files, a, b)
  {
    NextImports(files, a);
    NamedHasName(files, a);
    hide FileNamed, IsFirst, ImportGraph;
    if FileNamed(files, a).Some? { FirstNamed(files, FileNamed(files, a).value); }
    if f :| IsFirst(files, f) && f.name == a && b in f.imports { FirstNamed(files, f); }
  }

  lemma ReachesExact(files: seq<File>, start: Str, name: Str)
    ensures Reach(ImportGraph(files), start, name) <==> Reaches(files, start, name)
  {
    var g := ImportGraph(files);
    forall q: seq<Str> ensures Walk(g, q) <==> ImportChain(files, q) {
      forall i {:trigger q[i]} | 0 <= i < |q| - 1
        ensures q[i + 1] in Next(g, q[i]) <==> Imports(files, q[i], q[i + 1])
      {
        ImportsExact(files, q[i], q[i + 1]);
      }
    }
  }

  lemma {:induction false} KeepSnoc(files: seq<File>, f: File, names: set<Str>)
    ensures Keep(files + [f], names) == Keep(files, names) + (if f.name in names then [f] else [])
  {
    if files == [] {
      assert files + [f] == [f] && [f][1..] == [];
    } else {
      assert (files + [f])[1..] == files[1..] + [f];
      KeepSnoc(files[1..], f, names);
    }
  }

  /** The positions of the files named in `names`. */
  ghost function Places(files: seq<File>, names: set<Str>): seq<int> {
    if files == [] then []
    else
      var n := |files| - 1;
      Places(files[..n], names) + (if files[n].name in names then [n] else [])
  }

  lemma PicksSnoc(files: seq<File>, at: seq<int>, kept: seq<File>, f: File)
    requires Picks(files, at, kept)
    ensures Picks(files + [f], at, kept) && Picks(files + [f], at + [|files|], kept + [f])
  {
    assert forall k :: 0 <= k < |files| ==> (files + [f])[k] == files[k];
  }

  lemma {:induction false} KeepPicks(files: seq<File>, names: set<Str>)
    ensures Picks(files, Places(files, names), Keep(files, names))
  {
    if files != [] {
      var n := |files| - 1;
      assert files == files[..n] + [files[n]];
      KeepSnoc(files[..n], files[n], names);
      KeepPicks(files[..n], names);
      hide Keep, Picks;
      PicksSnoc(files[..n], Places(files[..n], names), Keep(files[..n], names), files[n]);
    }
  }

  lemma {:induction false} PlacesExact(files: seq<File>, names: set<Str>, k: int)
    ensures k in Places(files, names) <==> 0 <= k < |files| && files[k].name in names
  {
    if files != [] { PlacesExact(files[..|files| - 1], names, k); }
  }

  /** The positions are of exactly the files whose names are reached from `start`. */
  ghost predicate OfReached(files: seq<File>, at: seq<int>, start: Str) {
    forall k :: 0 <= k < |files| ==> (k in at <==> Reaches(files, start, files[k].name))
  }

  /** Pruning keeps exactly the files whose names the message's file reaches through imports, in their order. */
  lemma SubsetExact(files: seq<File>, message: Str)
    ensures FindMessage(files, message).Some? <==> SubsetOf(files, message).Some?
    ensures FindMessage(files, message).Some? ==>
              exists at ::
                && Picks(files, at, SubsetOf(files, message).value)
                && OfReached(files, at, FindMessage(files, message).value.0.name)
  {
    hide Picks, Reach, Reaches, FindMessage, Places, Keep;
    if FindMessage(files, message).Some? {
      var start := FindMessage(files, message).value.0.name;
      var names := ImportClosure(files, start);
      KeepPicks(files, names);
      forall k | 0 <= k < |files| ensures files[k].name in names <==> Reaches(files, start, files[k].name) {
        ReachesExact(files, start, files[k].name);
      }
      forall k ensures k in Places(files, names) <==> 0 <= k < |files| && files[k].name in names {
        PlacesExact(files, names, k);
      }
      assert OfReached(files, Places(files, names), start);
    }
  }

  // ----- the index of the kept files -----

  function KeepDeclared(ds: seq<Declaration>, names: set<Str>): seq<Declaration> {
    if ds == [] then []
    else (if ds[0].file.name in names then [ds[0]] else []) + KeepDeclared(ds[1..], names)
  }

  lemma {:induction false} KeepConcat(a: seq<Declaration>, b: seq<Declaration>, names: set<Str>)
    ensures KeepDeclared(a + b, names) == KeepDeclared(a, names) + KeepDeclared(b, names)
  {
    if a == [] {
      assert a + b == b;
    } else {
      assert (a + b)[1..] == a[1..] + b;
      KeepConcat(a[1..], b, names);
    }
  }

  lemma {:induction false} KeepAllOrNone(ds: seq<Declaration>, file: File, names: set<Str>)
    requires forall i :: 0 <= i < |ds| ==> ds[i].file == file
    ensures KeepDeclared(ds, names) == if file.name in names then ds else []
  {
    if ds != [] {
      KeepAllOrNone(ds[1..], file, names);
      assert ds[0].file == file;
    }
  }

  /** Keeping files keeps exactly their declarations, in order. */
  lemma {:induction false} KeepDeclarations(files: seq<File>, names: set<Str>)
    ensures Declarations(Keep(files, names)) == KeepDeclared(Declarations(files), names)
  {
    if files != [] {
      KeepDeclarations(files[1..], names);
      var a, b := FileDeclarations(files[0]), Declarations(files[1..]);
      forall i | 0 <= i < |a| ensures a[i].file == files[0] {
        ScopePaths(files[0], [], files[0].messages, files[0].enums, i);
      }
      KeepConcat(a, b, names);
      KeepAllOrNone(a, files[0], names);
      if files[0].name in names {
        assert ([files[0]] + Keep(files[1..], names))[1..] == Keep(files[1..], names);
      } else {
        assert Keep(files, names) == Keep(files[1..], names);
        assert [] + KeepDeclared(b, names) == KeepDeclared(b, names);
      }
    }
  }

  /** A kept declaration comes from a kept file, and keeping preserves distinctness. */
  lemma {:induction false} KeptDeclared(ds: seq<Declaration>, names: set<Str>)
    requires Indexable(ds)
    ensures Indexable(KeepDeclared(ds, names))
    ensures forall d :: d in KeepDeclared(ds, names) <==> d in ds && d.file.name in names
  {
    if ds != [] {
      assert ds == [ds[0]] + ds[1..];
      IndexableParts([ds[0]], ds[1..]);
      KeptDeclared(ds[1..], names);
      var k := KeepDeclared(ds[1..], names);
      if ds[0].file.name in names {
        forall i | 0 <= i < |k| ensures FullName(ds[0]) != FullName(k[i]) {
          assert k[i] in ds[1..];
          var j :| 0 <= j < |ds[1..]| && ds[1..][j] == k[i];
          assert FullName(ds[0]) != FullName(ds[j + 1]);
        }
        IndexableCons(ds[0], k);
      }
    }
  }

  lemma IndexableCons(d: Declaration, k: seq<Declaration>)
    requires Indexable([d]) && Indexable(k)
    requires forall i :: 0 <= i < |k| ==> FullName(d) != FullName(k[i])
    ensures Indexable([d] + k)
  {
    var s := [d] + k;
    assert [d][0] == d;
    forall i, j | 0 <= i < j < |s| ensures FullName(s[i]) != FullName(s[j]) {
      assert s[j] == k[j - 1];
      if i > 0 { assert s[i] == k[i - 1]; }
    }
  }

  /** `e` is what is left of `d` in files named in `names`. */
  ghost predicate Restricted(d: Definitions, e: Definitions, names: set<Str>) {
    && (forall n :: n in e <==> n in d && d[n].file.name in names)
    && (forall n :: n in e ==> e[n] == d[n])
  }

  lemma IndexRestricted(files: seq<File>, names: set<Str>)
    requires IndexOf(files).Some?
    ensures IndexOf(Keep(files, names)).Some?
    ensures Restricted(IndexOf(files).value, IndexOf(Keep(files, names)).value, names)
  {
    var ds := Declarations(files);
    var ks := KeepDeclared(ds, names);
    FillMeaning(map[], ds);
    KeepDeclarations(files, names);
    KeptDeclared(ds, names);
    FillMeaning(map[], ks);
    RestrictedFrom(ds, IndexOf(files).value, ks, IndexOf(Keep(files, names)).value, names);
  }

  lemma RestrictedFrom(ds: seq<Declaration>, d: Definitions, ks: seq<Declaration>, e: Definitions, names: set<Str>)
    requires Extends(map[], ds, d) && Extends(map[], ks, e)
    requires forall k :: k in ks <==> k in ds && k.file.name in names
    ensures Restricted(d, e, names)
  {
    hide FullName;
    forall n | n in e ensures n in d && d[n].file.name in names && e[n] == d[n] {
      assert Names(ks, n);
      var i :| 0 <= i < |ks| && FullName(ks[i]) == n;
      assert ks[i] in ks;
      var j :| 0 <= j < |ds| && ds[j] == ks[i];
    }
    forall n | n in d && d[n].file.name in names ensures n in e {
      assert Names(ds, n);
      var i :| 0 <= i < |ds| && FullName(ds[i]) == n;
      assert ds[i] in ks;
      var j :| 0 <= j < |ks| && ks[j] == ds[i];
    }
  }

  // ----- resolution and records survive -----

  /** Every reference written in definition `n` that resolves at all resolves to a kept definition. */
  ghost predicate ReferencesKept(d: Definitions, e: Definitions, n: Str)
    requires n in d
  {
    d[n].definition.MessageDef? ==>
      forall f :: f in d[n].definition.message.fields ==> ReferenceKept(d, e, n, f)
  }

  ghost predicate ReferenceKept(d: Definitions, e: Definitions, n: Str, f: Field) {
    f.typeName.Some? && ResolvedName(d, n, f.typeName.value).Some? ==> ResolvedName(d, n, f.typeName.value).value in e
  }

  /** Everything reachable from `root`, and every reference written there, stays inside `e`. */
  ghost predicate SelfContained(d: Definitions, e: Definitions, root: Str) {
    forall n :: n in Closure(d, root) ==> n in e && ReferencesKept(d, e, n)
  }

  /** The innermost-scope rule picks the same definition as long as its choice is kept. */
  lemma {:induction false} FirstDefinedSame(d: Definitions, e: Definitions, names: seq<Str>)
    requires forall n :: n in e ==> n in d
    requires FirstDefined(d, names).Some? ==> FirstDefined(d, names).value in e
    ensures FirstDefined(e, names) == FirstDefined(d, names)
  {
    if names != [] && names[0] !in d {
      FirstDefinedSame(d, e, names[1..]);
    }
  }

  lemma FieldOfSame(d: Definitions, e: Definitions, scope: Str, syntax: Syntax, m: Message, f: Field)
    requires (forall n :: n in e ==> n in d && e[n] == d[n]) && ReferenceKept(d, e, scope, f)
    ensures FieldOf(d, scope, syntax, m, f) == FieldOf(e, scope, syntax, m, f)
  {
    hide Candidates, Sharing, JsonName;
    if f.typeName.Some? {
      var reference := f.typeName.value;
      if reference != [] && reference[0] != DOT {
        FirstDefinedSame(d, e, Candidates(scope, reference));
      }
      assert ResolvedName(d, scope, reference) == ResolvedName(e, scope, reference);
    }
    assert FieldType(d, scope, f) == FieldType(e, scope, f);
  }

  lemma RecordSame(d: Definitions, e: Definitions, n: Str)
    requires forall x :: x in e ==> x in d && e[x] == d[x]
    requires n in e && ReferencesKept(d, e, n)
    ensures RecordOf(d, n) == RecordOf(e, n)
  {
    if d[n].definition.MessageDef? && SyntaxOf(d[n].file).Some? {
      var m := d[n].definition.message;
      var syntax := SyntaxOf(d[n].file).value;
      var sorted := Sort(m.fields, ByNumber);
      SortedFields(m.fields);
      hide FieldOf, Sort, ReferenceKept;
      forall f | f in sorted ensures FieldOf(d, n, syntax, m, f) == FieldOf(e, n, syntax, m, f) {
        FieldOfSame(d, e, n, syntax, m, f);
      }
      assert forall i :: 0 <= i < |sorted| ==> sorted[i] in sorted;
      assert FieldsConsistent(d, n, syntax, m, sorted) <==> FieldsConsistent(e, n, syntax, m, sorted);
      if MessageAdmissible(d, n, syntax, m) {
        assert FieldsOf(d, n, syntax, m, sorted) == FieldsOf(e, n, syntax, m, sorted);
      }
    }
  }

  lemma ClosureSame(d: Definitions, e: Definitions, root: Str)
    requires (forall x :: x in e ==> x in d && e[x] == d[x]) && root in d && SelfContained(d, e, root)
    ensures Closure(d, root) == Closure(e, root)
    ensures forall n :: n in Closure(d, root) ==> RecordOf(d, n) == RecordOf(e, n)
  {
    var g, h, s := ReferenceGraph(d), ReferenceGraph(e), Closure(d, root);
    ReachSelf(g, root);
    forall n | n in s ensures RecordOf(d, n) == RecordOf(e, n) && Next(g, n) == Next(h, n) {
      RecordSame(d, e, n);
    }
    assert Closed(g, s) by {
      forall n, m | n in s && m in Next(g, n) ensures m in s {
        ReferencesDefined(d, n, m);
        ReachSnoc(g, root, n, m);
      }
    }
    assert Closed(h, s);
    hide RecordOf, ReferenceGraph;
    forall n | n in s ensures n in Closure(e, root) {
      ReachTransfer(g, h, s, root, n);
    }
    forall n | n in Closure(e, root) ensures n in s {
      ClosedReach(h, s, root, n);
    }
  }

  /** A self-contained restriction answers every fingerprint request as the whole set does. */
  lemma RestrictionPreserves(d: Definitions, e: Definitions, root: Str)
    requires (forall x :: x in e ==> x in d && e[x] == d[x]) && root in d && SelfContained(d, e, root)
    ensures FingerprintOf(d, root) == FingerprintOf(e, root)
    ensures Encodable(d, root) <==> Encodable(e, root)
    ensures Encodable(d, root) ==> SchemaBytes(d, root) == SchemaBytes(e, root)
  {
    hide RecordOf, ReferenceGraph, Closure, Encodable, SchemaBytes, SelfContained;
    ClosureSame(d, e, root);
    RootKept(d, e, root);
    SameRecordsSameBytes(d, e, root);
  }

  lemma RootKept(d: Definitions, e: Definitions, root: Str)
    requires root in d && SelfContained(d, e, root)
    ensures root in e
  {
    ReachSelf(ReferenceGraph(d), root);
    assert root in Closure(d, root);
  }

  /** Where everything is encodable, being self-contained is just having the closure. */
  lemma SelfContainedIsClosure(d: Definitions, e: Definitions, root: Str)
    requires root in d && Encodable(d, root)
    ensures SelfContained(d, e, root) <==> Closure(d, root) <= e.Keys
  {
    if Closure(d, root) <= e.Keys {
      forall n | n in Closure(d, root) ensures n in e && ReferencesKept(d, e, n) {
        if d[n].definition.MessageDef? {
          forall f | f in d[n].definition.message.fields ensures ReferenceKept(d, e, n, f) {
            FieldReferenceReached(d, root, n, f);
          }
        }
      }
    }
  }

  lemma FieldReferenceReached(d: Definitions, root: Str, n: Str, f: Field)
    requires n in Closure(d, root) && RecordOf(d, n).Some? && d[n].definition.MessageDef?
    requires f in d[n].definition.message.fields
    ensures f.typeName.Some? && ResolvedName(d, n, f.typeName.value).Some? ==>
              ResolvedName(d, n, f.typeName.value).value in Closure(d, root)
  {
    if f.typeName.Some? && ResolvedName(d, n, f.typeName.value).Some? {
      var r := ResolvedName(d, n, f.typeName.value).value;
      var m := d[n].definition.message;
      var syntax := SyntaxOf(d[n].file).value;
      var sorted := Sort(m.fields, ByNumber);
      SortedFields(m.fields);
      var i :| 0 <= i < |sorted| && sorted[i] == f;
      var fs := FieldsOf(d, n, syntax, m, sorted);
      assert fs[i].reference == Some(r);
      ReferencesIn(fs, r);
      assert r in Next(ReferenceGraph(d), n);
      ReachSnoc(ReferenceGraph(d), root, n, r);
    }
  }

  /** On success, a restriction keeps the canonical bytes exactly when it keeps the whole closure. */
  lemma RestrictionExact(d: Definitions, e: Definitions, root: Str)
    requires forall x :: x in e ==> x in d && e[x] == d[x]
    requires root in d && Encodable(d, root) && |SchemaBytes(d, root)| < TWO_64
    ensures (root in e && Encodable(e, root) && SchemaBytes(e, root) == SchemaBytes(d, root)) <==>
            Closure(d, root) <= e.Keys
    ensures Closure(d, root) <= e.Keys ==> FingerprintOf(e, root) == FingerprintOf(d, root)
  {
    hide SelfContained, ReferenceGraph, RecordOf, SchemaBytes, Encodable;
    SelfContainedIsClosure(d, e, root);
    if Closure(d, root) <= e.Keys {
      RestrictionPreserves(d, e, root);
      RootKept(d, e, root);
    }
    if root in e && Encodable(e, root) && SchemaBytes(e, root) == SchemaBytes(d, root) {
      BytesThenMeaning(d, root, e, root);
      assert SchemaMeaning(d, root).Keys == Closure(d, root) && SchemaMeaning(e, root).Keys == Closure(e, root);
    }
  }

  // ----- pruning -----

  /** The file of `n` is the message's own file or one it imports, directly or not. */
  ghost predicate InImportedFile(files: seq<File>, start: Str, d: Definitions, n: Str) {
    n in d && d[n].file.name in ImportClosure(files, start)
  }

  /** The field's reference, if it resolves at all, resolves into an imported file. */
  ghost predicate ResolvesInto(files: seq<File>, start: Str, d: Definitions, n: Str, f: Field) {
    f.typeName.Some? && ResolvedName(d, n, f.typeName.value).Some? ==>
      InImportedFile(files, start, d, ResolvedName(d, n, f.typeName.value).value)
  }

  /** Every reference written in a reachable definition that resolves at all resolves into an imported file. */
  ghost predicate ImportsSuffice(files: seq<File>, start: Str, d: Definitions, root: Str) {
    forall n :: n in Closure(d, root) ==>
      && InImportedFile(files, start, d, n)
      && (d[n].definition.MessageDef? ==>
            forall f :: f in d[n].definition.message.fields ==> ResolvesInto(files, start, d, n, f))
  }

  /**
   Pruning preserves meaning. For any descriptor set whose index builds: there is nothing to prune exactly when
   there is no such message or its path is not spelled without dots; otherwise the pruned set's index builds, and
   if imports suffice, it answers the fingerprint request exactly as the whole set does.
   */
  lemma PruningPreserves(files: seq<File>, message: Str)
    requires IndexOf(files).Some?
    ensures SubsetOf(files, message).None? <==>
            !(IsMessage(IndexOf(files).value, message) && exists i :: Spelled(Declarations(files), i, message))
    ensures SubsetOf(files, message).Some? ==> IndexOf(SubsetOf(files, message).value).Some?
    ensures SubsetOf(files, message).Some?
            && ImportsSuffice(files, FindMessage(files, message).value.0.name, IndexOf(files).value, message) ==>
              FingerprintOf(IndexOf(SubsetOf(files, message).value).value, message)
              == FingerprintOf(IndexOf(files).value, message)
  {
    FindAgreesWithIndex(files, message);
    if FindMessage(files, message).Some? {
      var d := IndexOf(files).value;
      var start := FindMessage(files, message).value.0.name;
      IndexRestricted(files, ImportClosure(files, start));
      var e := IndexOf(SubsetOf(files, message).value).value;
      if ImportsSuffice(files, start, d, message) {
        hide ImportClosure, Closure, IndexOf, FindMessage;
        assert SelfContained(d, e, message);
        RestrictionPreserves(d, e, message);
      }
    }
  }

  /** Every definition the message reaches lies in its own file or an imported one. */
  ghost predicate ImportsReach(files: seq<File>, message: Str) {
    && IndexOf(files).Some? && FindMessage(files, message).Some?
    && forall n :: n in Closure(IndexOf(files).value, message) ==>
         InImportedFile(files, FindMessage(files, message).value.0.name, IndexOf(files).value, n)
  }

  /**
   Exactly when: a successful fingerprint survives pruning, bytes and all, if and only if every definition
   reachable from the message lies in its own file or an imported one.
   */
  lemma PruningExact(files: seq<File>, message: Str)
    requires IndexOf(files).Some? && FindMessage(files, message).Some?
    requires Encodable(IndexOf(files).value, message) && |SchemaBytes(IndexOf(files).value, message)| < TWO_64
    ensures IndexOf(SubsetOf(files, message).value).Some?
    ensures var d := IndexOf(files).value;
            var e := IndexOf(SubsetOf(files, message).value).value;
            && ((Encodable(e, message) && SchemaBytes(e, message) == SchemaBytes(d, message)) <==>
                  ImportsReach(files, message))
            && (ImportsReach(files, message) ==> FingerprintOf(e, message) == FingerprintOf(d, message))
  {
    FindAgreesWithIndex(files, message);
    var d := IndexOf(files).value;
    var (file, found) := FindMessage(files, message).value;
    FoundInSet(files, message);
    ReachSelf(ImportGraph(files), file.name);
    assert file.name in ImportClosure(files, file.name);
    IndexRestricted(files, ImportClosure(files, file.name));
    var e := IndexOf(SubsetOf(files, message).value).value;
    hide ImportClosure, Closure, IndexOf, FindMessage, Encodable, SchemaBytes, FingerprintOf;
    RestrictionExact(d, e, message);
    assert Closure(d, message) <= e.Keys <==>
      forall n :: n in Closure(d, message) ==> InImportedFile(files, file.name, d, n);
  }

  /** Two indexes answer alike: both fail, or both succeed with the same bytes. */
  ghost predicate SameAnswer(d: Definitions, e: Definitions, root: Str) {
    && (Encodable(d, root) <==> Encodable(e, root))
    && (Encodable(d, root) && Encodable(e, root) ==> SchemaBytes(d, root) == SchemaBytes(e, root))
  }

  lemma RestrictionAnswers(d: Definitions, e: Definitions, root: Str)
    requires (forall x :: x in e ==> x in d && e[x] == d[x]) && root in d && root in e
    requires Encodable(d, root) ==> |SchemaBytes(d, root)| < TWO_64
    ensures SameAnswer(d, e, root) <==> SelfContained(d, e, root) || (!Encodable(d, root) && !Encodable(e, root))
  {
    hide SelfContained, Closure, Encodable, SchemaBytes;
    if SelfContained(d, e, root) { RestrictionPreserves(d, e, root); }
    if Encodable(d, root) {
      RestrictionExact(d, e, root);
      SelfContainedIsClosure(d, e, root);
    }
  }

  lemma SufficeIsContained(files: seq<File>, start: Str, d: Definitions, e: Definitions, root: Str)
    requires forall n :: n in e <==> InImportedFile(files, start, d, n)
    ensures ImportsSuffice(files, start, d, root) <==> SelfContained(d, e, root)
  {
    hide Closure, ImportClosure, ResolvedName, InImportedFile;
    forall n | n in Closure(d, root) && n in d
      ensures ReferencesKept(d, e, n) <==>
              (d[n].definition.MessageDef? ==>
                 forall f :: f in d[n].definition.message.fields ==> ResolvesInto(files, start, d, n, f))
    {}
    ClosureDefined(d, root);
  }

  lemma ClosureDefined(d: Definitions, root: Str)
    ensures forall n :: n in Closure(d, root) ==> n in d
  {}

  /**
   Exactly when pruning changes the answer, failing runs included: when imports do not suffice and at least one
   of the two runs succeeds.
   */
  lemma PruningAnswers(files: seq<File>, message: Str)
    requires IndexOf(files).Some? && FindMessage(files, message).Some?
    requires Encodable(IndexOf(files).value, message) ==> |SchemaBytes(IndexOf(files).value, message)| < TWO_64
    ensures IndexOf(SubsetOf(files, message).value).Some?
    ensures var d := IndexOf(files).value;
            var e := IndexOf(SubsetOf(files, message).value).value;
            SameAnswer(d, e, message) <==>
            || ImportsSuffice(files, FindMessage(files, message).value.0.name, d, message)
            || (!Encodable(d, message) && !Encodable(e, message))
  {
    FindAgreesWithIndex(files, message);
    var d := IndexOf(files).value;
    var (file, found) := FindMessage(files, message).value;
    FoundInSet(files, message);
    ReachSelf(ImportGraph(files), file.name);
    assert file.name in ImportClosure(files, file.name);
    IndexRestricted(files, ImportClosure(files, file.name));
    var e := IndexOf(SubsetOf(files, message).value).value;
    hide ImportClosure, Closure, IndexOf, FindMessage, Encodable, SchemaBytes, SelfContained, ImportsSuffice;
    hide SameAnswer;
    SufficeIsContained(files, file.name, d, e, message);
    RestrictionAnswers(d, e, message);
  }
}
