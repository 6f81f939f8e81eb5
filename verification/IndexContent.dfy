/** What the index holds, read off the nesting of the files: each definition under its package and path. */
module IndexContent {
  import opened Prelude
  import opened Text
  import opened Descriptor
  import opened Lookup

  /** Following `path` through nested messages leads to definition `x`. */
  ghost predicate LeadsTo(messages: seq<Message>, enums: seq<Enumeration>, path: seq<Str>, x: Definition)
    decreases |path|
  {
    if |path| == 0 then false
    else if |path| == 1 then Declares(messages, enums, path[0], x)
    else exists m :: m in messages && m.name == path[0] && LeadsTo(m.nested, m.enums, path[1..], x)
  }

  ghost predicate Declares(messages: seq<Message>, enums: seq<Enumeration>, name: Str, x: Definition) {
    match x
    case MessageDef(m) => m in messages && m.name == name
    case EnumDef(e) => e in enums && e.name == name
  }

  /** The full name: the package, if there is one, and the path, with dots in between. */
  function Dotted(package: Str, path: seq<Str>): Str
    requires path != []
  {
    if package == [] then Join(path, DOT) else package + [DOT] + Join(path, DOT)
  }

  lemma LeadsToFirst(m: Message, rest: seq<Message>, enums: seq<Enumeration>, path: seq<Str>, x: Definition)
    requires path != []
    ensures LeadsTo([m] + rest, enums, path, x) <==>
            || (path == [m.name] && x == MessageDef(m))
            || (path[0] == m.name && LeadsTo(m.nested, m.enums, path[1..], x))
            || LeadsTo(rest, enums, path, x)
  {
    var all := [m] + rest;
    assert forall k :: k in all <==> k == m || k in rest;
    if |path| == 1 {
      assert path[1..] == [] && path == [path[0]];
    } else if LeadsTo(all, enums, path, x) {
      var k :| k in all && k.name == path[0] && LeadsTo(k.nested, k.enums, path[1..], x);
    }
  }

  /** The declarations of a scope are exactly what paths through it lead to. */
  lemma {:induction false} ScopeExact(file: File, prefix: seq<Str>, messages: seq<Message>, enums: seq<Enumeration>,
                                      path: seq<Str>, x: Definition)
    ensures Declaration(file, prefix + path, x) in ScopeDeclarations(file, prefix, messages, enums) <==>
            LeadsTo(messages, enums, path, x)
    decreases messages
  {
    var y := Declaration(file, prefix + path, x);
    var ds := ScopeDeclarations(file, prefix, messages, enums);
    if path == [] {
      BelowScope(file, prefix, messages, enums, y);
    } else if messages == [] {
      EnumsExact(file, prefix, enums, path, x);
    } else {
      var m, rest := messages[0], messages[1..];
      var inner := ScopeDeclarations(file, prefix + [m.name], m.nested, m.enums);
      var outer := ScopeDeclarations(file, prefix, rest, enums);
      var head := Declaration(file, prefix + [m.name], MessageDef(m));
      assert messages == [m] + rest;
      assert ds == [head] + inner + outer;
      LeadsToFirst(m, rest, enums, path, x);
      ScopeExact(file, prefix, rest, enums, path, x);
      BelowScope(file, prefix + [m.name], m.nested, m.enums, y);
      assert y == head <==> path == [m.name] && x == MessageDef(m) by {
        assert (prefix + path)[|prefix|..] == path && (prefix + [m.name])[|prefix|..] == [m.name];
      }
      if path[0] == m.name {
        assert prefix + path == prefix + [m.name] + path[1..];
        ScopeExact(file, prefix + [m.name], m.nested, m.enums, path[1..], x);
      } else {
        assert (prefix + path)[|prefix|] == path[0];
      }
      hide ScopeDeclarations, LeadsTo;
      assert y in ds <==> y == head || y in inner || y in outer;
    }
  }

  lemma BelowScope(file: File, prefix: seq<Str>, messages: seq<Message>, enums: seq<Enumeration>, y: Declaration)
    ensures y in ScopeDeclarations(file, prefix, messages, enums) ==>
              y.file == file && |prefix| < |y.path| && y.path[..|prefix|] == prefix
              && (forall k :: 0 <= k < |prefix| ==> y.path[k] == prefix[k])
  {
    var ds := ScopeDeclarations(file, prefix, messages, enums);
    if y in ds {
      var i :| 0 <= i < |ds| && ds[i] == y;
      ScopePaths(file, prefix, messages, enums, i);
      forall k | 0 <= k < |prefix| ensures y.path[k] == prefix[k] { assert y.path[..|prefix|][k] == prefix[k]; }
    }
  }

  lemma EnumsExact(file: File, prefix: seq<Str>, enums: seq<Enumeration>, path: seq<Str>, x: Definition)
    requires path != []
    ensures Declaration(file, prefix + path, x) in EnumDeclarations(file, prefix, enums) <==>
            LeadsTo([], enums, path, x)
  {
    var y, ds := Declaration(file, prefix + path, x), EnumDeclarations(file, prefix, enums);
    if y in ds {
      var i :| 0 <= i < |ds| && ds[i] == y;
      assert (prefix + path)[|prefix|..] == path && (prefix + [enums[i].name])[|prefix|..] == [enums[i].name];
    }
    if LeadsTo([], enums, path, x) {
      var i :| 0 <= i < |enums| && enums[i] == x.enumeration;
      assert path == [enums[i].name] && ds[i] == y;
    }
  }

  lemma {:induction false} SetExact(files: seq<File>, file: File, path: seq<Str>, x: Definition)
    ensures Declaration(file, path, x) in Declarations(files) <==>
            file in files && LeadsTo(file.messages, file.enums, path, x)
  {
    if files != [] {
      var y := Declaration(file, path, x);
      SetExact(files[1..], file, path, x);
      ScopeExact(file, [], file.messages, file.enums, path, x);
      assert [] + path == path;
      BelowScope(files[0], [], files[0].messages, files[0].enums, y);
      hide LeadsTo, ScopeDeclarations;
      assert files == [files[0]] + files[1..];
      assert y in Declarations(files) <==> y in FileDeclarations(files[0]) || y in Declarations(files[1..]);
    }
  }

  /** `name` is the full name of `x` in `file`. */
  ghost predicate DeclaredAs(files: seq<File>, file: File, x: Definition, name: Str) {
    file in files && exists path :: LeadsTo(file.messages, file.enums, path, x) && name == FullOf(file, path)
  }

  function FullOf(file: File, path: seq<Str>): Str {
    if path == [] then [] else Dotted(file.package, path)
  }

  /** An index holds exactly the definitions the files declare, messages and enums at any depth, by full name. */
  lemma IndexExact(files: seq<File>, file: File, x: Definition, name: Str)
    requires IndexOf(files).Some?
    ensures name in IndexOf(files).value && IndexOf(files).value[name] == Located(file, x) <==>
            DeclaredAs(files, file, x, name)
  {
    var ds, d := Declarations(files), IndexOf(files).value;
    FillMeaning(map[], ds);
    hide Fill, LeadsTo, FullName;
    if name in d && d[name] == Located(file, x) {
      var i :| 0 <= i < |ds| && FullName(ds[i]) == name;
      SetExact(files, ds[i].file, ds[i].path, ds[i].definition);
      FullDotted(files, i);
      assert LeadsTo(file.messages, file.enums, ds[i].path, x) && name == FullOf(file, ds[i].path);
    }
    if DeclaredAs(files, file, x, name) {
      var path :| LeadsTo(file.messages, file.enums, path, x) && name == FullOf(file, path);
      SetExact(files, file, path, x);
      var i :| 0 <= i < |ds| && ds[i] == Declaration(file, path, x);
      FullDotted(files, i);
    }
  }

  lemma FullDotted(files: seq<File>, i: nat)
    requires i < |Declarations(files)| && Indexable(Declarations(files))
    ensures FullName(Declarations(files)[i]) == FullOf(Declarations(files)[i].file, Declarations(files)[i].path)
  {
    var y := Declarations(files)[i];
    SetPathNamed(files, i);
    FullJoin(y.file.package, y.path);
  }

  lemma {:induction false} SetPathNamed(files: seq<File>, i: nat)
    requires i < |Declarations(files)| && Indexable(Declarations(files))
    ensures |Declarations(files)[i].path| > 0 && Named(Declarations(files)[i].path)
  {
    var a, b := FileDeclarations(files[0]), Declarations(files[1..]);
    IndexableParts(a, b);
    if i < |a| {
      PathNamed(files[0], [], files[0].messages, files[0].enums, i);
    } else {
      SetPathNamed(files[1..], i - |a|);
    }
  }
}
