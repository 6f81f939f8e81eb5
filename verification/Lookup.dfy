/**
 Finding a message by walking descriptors, against finding it in the index. The walk splits the
 requested name at dots, so it sees a definition exactly when no name on its path contains one.
 */
module Lookup {
  import opened Prelude
  import opened Text
  import opened Descriptor
  import opened Fingerprint

  /** Follow `segments` down nested messages, taking the first sibling of each name. */
  function Descend(messages: seq<Message>, segments: seq<Str>): Option<Message>
    requires |segments| > 0
    decreases |segments|, |messages|
  {
    if messages == [] then None
    else if messages[0].name != segments[0] then Descend(messages[1..], segments)
    else if |segments| == 1 then Some(messages[0])
    else Descend(messages[0].nested, segments[1..])
  }

  /** What is left of a full name after its package, if it belongs to the package. */
  function Local(package: Str, message: Str): Option<Str> {
    if package == [] then Some(message)
    else if |message| > |package| && message[..|package|] == package && message[|package|] == DOT
    then Some(message[|package| + 1..])
    else None
  }

  function FindInFile(file: File, message: Str): Option<Message> {
    var rest := Local(file.package, message);
    if rest.None? then None else Descend(file.messages, Split(rest.value, DOT))
  }

  function FindMessage(files: seq<File>, message: Str): Option<(File, Message)> {
    if files == [] then None
    else
      var found := FindInFile(files[0], message);
      if found.Some? then Some((files[0], found.value)) else FindMessage(files[1..], message)
  }

  // ----- paths -----

  /** Every declaration of a scope lies strictly below it. */
  lemma {:induction false} ScopePaths(file: File, path: seq<Str>, messages: seq<Message>, enums: seq<Enumeration>,
                                      i: nat)
    requires i < |ScopeDeclarations(file, path, messages, enums)|
    ensures var d := ScopeDeclarations(file, path, messages, enums)[i];
            d.file == file && |path| < |d.path| && d.path[..|path|] == path
    decreases messages
  {
    var ds := ScopeDeclarations(file, path, messages, enums);
    if messages == [] {
      assert ds[i].path == path + [enums[i].name];
    } else {
      var m := messages[0];
      var inner := ScopeDeclarations(file, path + [m.name], m.nested, m.enums);
      var outer := ScopeDeclarations(file, path, messages[1..], enums);
      if i == 0 {
        assert ds[i].path == path + [m.name];
      } else if i <= |inner| {
        assert ds[i] == inner[i - 1];
        ScopePaths(file, path + [m.name], m.nested, m.enums, i - 1);
        assert ds[i].path[..|path|] == (path + [m.name])[..|path|];
      } else {
        assert ds[i] == outer[i - 1 - |inner|];
        ScopePaths(file, path, messages[1..], enums, i - 1 - |inner|);
      }
    }
  }

  ghost predicate HasPath(ds: seq<Declaration>, path: seq<Str>) {
    exists i :: 0 <= i < |ds| && ds[i].path == path
  }

  /** A declaration's first name below the scope is declared too. */
  lemma {:induction false} FirstStep(file: File, path: seq<Str>, messages: seq<Message>, enums: seq<Enumeration>,
                                     i: nat)
    requires i < |ScopeDeclarations(file, path, messages, enums)|
    ensures |path| < |ScopeDeclarations(file, path, messages, enums)[i].path|
    ensures HasPath(ScopeDeclarations(file, path, messages, enums),
                    path + [ScopeDeclarations(file, path, messages, enums)[i].path[|path|]])
    decreases |messages|
  {
    var ds := ScopeDeclarations(file, path, messages, enums);
    ScopePaths(file, path, messages, enums, i);
    if messages == [] {
      assert ds[i].path == path + [ds[i].path[|path|]];
    } else {
      var m := messages[0];
      var inner := ScopeDeclarations(file, path + [m.name], m.nested, m.enums);
      var outer := ScopeDeclarations(file, path, messages[1..], enums);
      if i == 0 {
        assert ds[0].path == path + [ds[0].path[|path|]];
      } else if i <= |inner| {
        assert ds[i] == inner[i - 1];
        ScopePaths(file, path + [m.name], m.nested, m.enums, i - 1);
        assert ds[i].path[|path|] == ds[i].path[..|path| + 1][|path|] == m.name;
        assert ds[0].path == path + [m.name];
      } else {
        var k := i - 1 - |inner|;
        assert ds[i] == outer[k];
        FirstStep(file, path, messages[1..], enums, k);
        var j :| 0 <= j < |outer| && outer[j].path == path + [outer[k].path[|path|]];
        assert ds[1 + |inner| + j] == outer[j];
      }
    }
  }

  ghost predicate DistinctPaths(ds: seq<Declaration>) {
    forall i, j :: 0 <= i < j < |ds| ==> ds[i].path != ds[j].path
  }

  lemma DistinctParts(a: seq<Declaration>, b: seq<Declaration>)
    requires DistinctPaths(a + b)
    ensures DistinctPaths(a) && DistinctPaths(b)
    ensures forall i, j :: 0 <= i < |a| && 0 <= j < |b| ==> a[i].path != b[j].path
  {
    var c := a + b;
    forall i, j | 0 <= i < j < |a| ensures a[i].path != a[j].path { assert c[i].path != c[j].path; }
    forall i, j | 0 <= i < j < |b| ensures b[i].path != b[j].path { assert c[|a| + i].path != c[|a| + j].path; }
    forall i, j | 0 <= i < |a| && 0 <= j < |b| ensures a[i].path != b[j].path { assert c[i].path != c[|a| + j].path; }
  }

  // ----- the walk finds what is declared -----

  /** Whatever the walk finds is declared at the path walked. */
  lemma {:induction false} FoundIsDeclared(file: File, path: seq<Str>, messages: seq<Message>, enums: seq<Enumeration>,
                                           segments: seq<Str>)
    returns (i: nat)
    requires |segments| > 0 && Descend(messages, segments).Some?
    ensures i < |ScopeDeclarations(file, path, messages, enums)|
    ensures ScopeDeclarations(file, path, messages, enums)[i]
         == Declaration(file, path + segments, MessageDef(Descend(messages, segments).value))
    decreases |segments|, |messages|
  {
    var ds := ScopeDeclarations(file, path, messages, enums);
    var m := messages[0];
    var inner := ScopeDeclarations(file, path + [m.name], m.nested, m.enums);
    if m.name != segments[0] {
      var j := FoundIsDeclared(file, path, messages[1..], enums, segments);
      i := 1 + |inner| + j;
    } else if |segments| == 1 {
      i := 0;
      assert segments == [m.name];
    } else {
      var j := FoundIsDeclared(file, path + [m.name], m.nested, m.enums, segments[1..]);
      i := 1 + j;
      assert path + [m.name] + segments[1..] == path + segments;
    }
  }

  /** Whatever message is declared is found, when no path is declared twice. */
  lemma {:induction false} DeclaredIsFound(file: File, path: seq<Str>, messages: seq<Message>, enums: seq<Enumeration>,
                                           segments: seq<Str>, i: nat)
    requires |segments| > 0 && i < |ScopeDeclarations(file, path, messages, enums)|
    requires DistinctPaths(ScopeDeclarations(file, path, messages, enums))
    requires ScopeDeclarations(file, path, messages, enums)[i].path == path + segments
    requires ScopeDeclarations(file, path, messages, enums)[i].definition.MessageDef?
    ensures Descend(messages, segments).Some?
    decreases |segments|, |messages|
  {
    var ds := ScopeDeclarations(file, path, messages, enums);
    if messages != [] {
      var m := messages[0];
      var inner := ScopeDeclarations(file, path + [m.name], m.nested, m.enums);
      var outer := ScopeDeclarations(file, path, messages[1..], enums);
      var head := [Declaration(file, path + [m.name], MessageDef(m))];
      DistinctParts(head + inner, outer);
      DistinctParts(head, inner);
      if i == 0 {
        assert ds[0].path == path + [m.name];
        assert (path + segments)[|path|..] == segments && (path + [m.name])[|path|..] == [m.name];
      } else if i <= |inner| {
        assert ds[i] == inner[i - 1];
        InnerStep(file, path, m, segments, i - 1);
        DeclaredIsFound(file, path + [m.name], m.nested, m.enums, segments[1..], i - 1);
      } else {
        var k := i - 1 - |inner|;
        assert ds[i] == outer[k];
        FirstStep(file, path, messages[1..], enums, k);
        assert (path + segments)[|path|] == segments[0];
        var j :| 0 <= j < |outer| && outer[j].path == path + [segments[0]];
        assert (head + inner)[0].path != outer[j].path;
        DeclaredIsFound(file, path, messages[1..], enums, segments, k);
      }
    }
  }

  lemma InnerStep(file: File, path: seq<Str>, m: Message, segments: seq<Str>, i: nat)
    requires |segments| > 0
    requires i < |ScopeDeclarations(file, path + [m.name], m.nested, m.enums)|
    requires ScopeDeclarations(file, path + [m.name], m.nested, m.enums)[i].path == path + segments
    ensures segments[0] == m.name && |segments| > 1
    ensures path + [m.name] + segments[1..] == path + segments
  {
    ScopePaths(file, path + [m.name], m.nested, m.enums, i);
    assert (path + segments)[..|path| + 1][|path|] == m.name;
    assert (path + segments)[|path|] == segments[0];
    assert [segments[0]] + segments[1..] == segments;
  }

  // ----- full names -----

  ghost predicate Named(path: seq<Str>) {
    forall i :: 0 <= i < |path| ==> path[i] != []
  }

  /** A full name is its package and its path, joined by dots. */
  lemma {:induction false} FullJoin(package: Str, path: seq<Str>)
    requires |path| > 0 && Named(path)
    ensures Full(package, path) == Qualify(package, Join(path, DOT))
    ensures Full(package, path) != []
    ensures Local(package, Full(package, path)) == Some(Join(path, DOT))
  {
    var n := |path| - 1;
    if n == 0 {
      assert Full(package, path[..0]) == package;
    } else {
      FullJoin(package, path[..n]);
      JoinSnoc(path[..n], DOT, path[n]);
      assert path == path[..n] + [path[n]];
      var j := Join(path[..n], DOT);
      if package == [] {
      } else {
        assert package + [DOT] + j + [DOT] + path[n] == package + [DOT] + (j + [DOT] + path[n]);
      }
    }
    if package != [] {
      var full := package + [DOT] + Join(path, DOT);
      assert full[..|package|] == package && full[|package| + 1..] == Join(path, DOT);
    }
  }

  lemma LocalFull(package: Str, message: Str)
    requires Local(package, message).Some?
    ensures message == Qualify(package, Local(package, message).value)
  {
    if package != [] {
      assert message == message[..|package|] + [message[|package|]] + message[|package| + 1..];
    }
  }

  ghost predicate LastNamed(ds: seq<Declaration>) {
    forall k :: 0 <= k < |ds| ==> |ds[k].path| > 0 && ds[k].path[|ds[k].path| - 1] != []
  }

  lemma LastNamedParts(a: seq<Declaration>, b: seq<Declaration>)
    requires LastNamed(a + b)
    ensures LastNamed(a) && LastNamed(b)
  {
    assert forall k :: 0 <= k < |a| ==> a[k] == (a + b)[k];
    assert forall k :: 0 <= k < |b| ==> b[k] == (a + b)[|a| + k];
  }

  /** Every name on an indexable declaration's path is a name. */
  lemma {:induction false} PathNamed(file: File, path: seq<Str>, messages: seq<Message>, enums: seq<Enumeration>,
                                     i: nat)
    requires i < |ScopeDeclarations(file, path, messages, enums)| && Named(path)
    requires LastNamed(ScopeDeclarations(file, path, messages, enums))
    ensures Named(ScopeDeclarations(file, path, messages, enums)[i].path)
    decreases messages
  {
    var ds := ScopeDeclarations(file, path, messages, enums);
    if messages == [] {
      assert ds[i].path == path + [enums[i].name];
    } else {
      var m := messages[0];
      var inner := ScopeDeclarations(file, path + [m.name], m.nested, m.enums);
      var outer := ScopeDeclarations(file, path, messages[1..], enums);
      var head := [Declaration(file, path + [m.name], MessageDef(m))];
      LastNamedParts(head + inner, outer);
      LastNamedParts(head, inner);
      assert head[0].path == path + [m.name];
      if 0 < i <= |inner| {
        PathNamed(file, path + [m.name], m.nested, m.enums, i - 1);
      } else if i > |inner| {
        PathNamed(file, path, messages[1..], enums, i - 1 - |inner|);
      }
    }
  }

  // ----- whole descriptor sets -----

  lemma IndexableParts(a: seq<Declaration>, b: seq<Declaration>)
    requires Indexable(a + b)
    ensures Indexable(a) && Indexable(b)
  {
    var c := a + b;
    forall i, j | 0 <= i < j < |a| ensures FullName(a[i]) != FullName(a[j]) { assert c[i] == a[i] && c[j] == a[j]; }
    forall i, j | 0 <= i < j < |b| ensures FullName(b[i]) != FullName(b[j]) {
      assert c[|a| + i] == b[i] && c[|a| + j] == b[j];
    }
    forall i | 0 <= i < |a| ensures |a[i].path| > 0 && a[i].path[|a[i].path| - 1] != [] { assert c[i] == a[i]; }
    forall i | 0 <= i < |b| ensures |b[i].path| > 0 && b[i].path[|b[i].path| - 1] != [] { assert c[|a| + i] == b[i]; }
  }

  lemma FilePathsDistinct(file: File)
    requires Indexable(FileDeclarations(file))
    ensures DistinctPaths(FileDeclarations(file))
    ensures forall i :: 0 <= i < |FileDeclarations(file)| ==>
              FileDeclarations(file)[i].file == file && Named(FileDeclarations(file)[i].path)
              && |FileDeclarations(file)[i].path| > 0
  {
    var ds := FileDeclarations(file);
    forall i | 0 <= i < |ds| ensures ds[i].file == file && Named(ds[i].path) && |ds[i].path| > 0 {
      ScopePaths(file, [], file.messages, file.enums, i);
      PathNamed(file, [], file.messages, file.enums, i);
    }
    forall i, j | 0 <= i < j < |ds| ensures ds[i].path != ds[j].path {
      assert FullName(ds[i]) != FullName(ds[j]);
    }
  }

  ghost predicate Undotted(path: seq<Str>) {
    AllFree(path, DOT)
  }

  /** Declaration `i` of the set is message `name`, reached by names without dots. */
  ghost predicate Spelled(ds: seq<Declaration>, i: int, name: Str) {
    0 <= i < |ds| && FullName(ds[i]) == name && ds[i].definition.MessageDef? && Undotted(ds[i].path)
  }

  lemma FileFinds(file: File, name: Str, i: int)
    requires Indexable(FileDeclarations(file)) && Spelled(FileDeclarations(file), i, name)
    ensures FindInFile(file, name).Some?
  {
    FilePathsDistinct(file);
    var d := FileDeclarations(file)[i];
    FullJoin(file.package, d.path);
    SplitJoin(d.path, DOT);
    assert [] + d.path == d.path;
    DeclaredIsFound(file, [], file.messages, file.enums, d.path, i);
  }

  lemma FileFound(file: File, name: Str) returns (i: nat)
    requires Indexable(FileDeclarations(file)) && FindInFile(file, name).Some?
    ensures Spelled(FileDeclarations(file), i, name)
    ensures FileDeclarations(file)[i].file == file
    ensures FileDeclarations(file)[i].definition == MessageDef(FindInFile(file, name).value)
  {
    FilePathsDistinct(file);
    var rest := Local(file.package, name).value;
    var segments := Split(rest, DOT);
    i := FoundIsDeclared(file, [], file.messages, file.enums, segments);
    assert [] + segments == segments;
    SplitPieces(rest, DOT);
    FullJoin(file.package, segments);
    LocalFull(file.package, name);
  }

  lemma {:induction false} SetFinds(files: seq<File>, name: Str, i: int)
    requires Indexable(Declarations(files)) && Spelled(Declarations(files), i, name)
    ensures FindMessage(files, name).Some?
  {
    var a := FileDeclarations(files[0]);
    var b := Declarations(files[1..]);
    IndexableParts(a, b);
    if i < |a| {
      assert Declarations(files)[i] == a[i];
      FileFinds(files[0], name, i);
    } else {
      assert Declarations(files)[i] == b[i - |a|];
      SetFinds(files[1..], name, i - |a|);
    }
  }

  lemma {:induction false} SetFound(files: seq<File>, name: Str) returns (i: nat)
    requires Indexable(Declarations(files)) && FindMessage(files, name).Some?
    ensures Spelled(Declarations(files), i, name)
    ensures var (file, message) := FindMessage(files, name).value;
            Declarations(files)[i].file == file && Declarations(files)[i].definition == MessageDef(message)
            && file in files
  {
    var a := FileDeclarations(files[0]);
    var b := Declarations(files[1..]);
    IndexableParts(a, b);
    if FindInFile(files[0], name).Some? {
      i := FileFound(files[0], name);
      assert Declarations(files)[i] == a[i];
    } else {
      var j := SetFound(files[1..], name);
      i := |a| + j;
      assert Declarations(files)[i] == b[j];
    }
  }

  /**
   When the index builds, the walk finds a message exactly when the index has one under that name and no
   name on its path contains a dot; and it finds that very definition.
   */
  lemma FindAgreesWithIndex(files: seq<File>, name: Str)
    requires IndexOf(files).Some?
    ensures var d := IndexOf(files).value;
            && (FindMessage(files, name).Some? <==>
                IsMessage(d, name) && exists i :: Spelled(Declarations(files), i, name))
            && (FindMessage(files, name).Some? ==>
                  var (file, message) := FindMessage(files, name).value;
                  d[name] == Located(file, MessageDef(message)) && file in files)
  {
    var ds := Declarations(files);
    FillMeaning(map[], ds);
    if FindMessage(files, name).Some? {
      var i := SetFound(files, name);
    }
    if i :| Spelled(ds, i, name) {
      SetFinds(files, name, i);
    }
  }

  /** A dotted definition name: indexed and fingerprinted, but invisible to the walk. */
  lemma DottedNameIsMissed()
    ensures var dotted := Message([97, DOT, 98], [], [], [], false, [], [], [], false, false);
            var files := [File([102], [], [], [dotted], [], [])];
            && IndexOf(files).Some? && IsMessage(IndexOf(files).value, [97, DOT, 98])
            && FindMessage(files, [97, DOT, 98]).None?
  {
    var name: Str := [97, DOT, 98];
    var dotted := Message(name, [], [], [], false, [], [], [], false, false);
    var file := File([102], [], [], [dotted], [], []);
    assert ScopeDeclarations(file, [] + [name], [], []) == [];
    assert ScopeDeclarations(file, [], [dotted][1..], []) == [] by { assert [dotted][1..] == []; }
    var ds := [Declaration(file, [name], MessageDef(dotted))];
    assert ([] + [name]) == [name];
    assert FileDeclarations(file) == ds;
    assert [file][1..] == [];
    assert Declarations([file]) == ds;
    assert Full([], [name]) == name by { assert [name][..0] == []; }
    assert ds[1..] == [];
    assert Fill(map[], ds) == Fill(map[name := Located(file, MessageDef(dotted))], []);
    SplitHead([97], DOT, [98]);
    assert [97] + [DOT] + [98] == name;
    assert Split(name, DOT)[0] == [97] != name by { assert |name| == 3; }
    assert FindInFile(file, name).None? by { assert Descend([dotted][1..], Split(name, DOT)).None?; }
  }
}
