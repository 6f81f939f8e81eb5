/**
 Content-addressed bundles: which destination names are accepted, what staging lays out, and the byte
 stream whose hash names a bundle. Paths are UTF-8 bytes; case folding is an arbitrary function.
 */
module Artifacts {
  import opened Prelude
  import opened Text
  import opened Order
  import opened Canonical
  import opened Counting

  type Bytes = seq<byte>

  /** A file's place in a directory tree, component by component. */
  type Path = seq<Bytes>

  const SLASH: byte := 0x2f
  const BACKSLASH: byte := 0x5c
  const DOT: byte := 0x2e

  // ----- names -----

  function Segments(text: Bytes): Path {
    Split(text, SLASH)
  }

  /** `Path::components` of a relative path: repeated slashes and current-directory segments vanish. */
  function Components(segments: Path): Path {
    if segments == [] then []
    else if segments[0] == [] || segments[0] == [DOT] then Components(segments[1..])
    else [segments[0]] + Components(segments[1..])
  }

  /** A relative path of normal components: no root, no leading `.` and no `..`. */
  predicate Normal(name: Bytes) {
    Segments(name)[0] != [] && Segments(name)[0] != [DOT] && [DOT, DOT] !in Segments(name)
  }

  function Slashes(name: Bytes): Bytes {
    seq(|name|, i requires 0 <= i < |name| => if name[i] == BACKSLASH then SLASH else name[i])
  }

  /** The text compared: one slash style, one case. */
  function Spelling(name: Bytes, lower: Bytes -> Bytes): Bytes {
    lower(Slashes(name))
  }

  /** Where a name lands in a tree that ignores case and slash style. */
  function Place(name: Bytes, lower: Bytes -> Bytes): Path {
    Components(Segments(Spelling(name, lower)))
  }

  /** A name as a path, and so where it lands in a tree that tells case and slash style apart. */
  function PathOf(name: Bytes): Path {
    Components(Segments(name))
  }

  /** Neither is the other, nor a directory above it. */
  predicate Apart(a: Path, b: Path) {
    !(a <= b) && !(b <= a)
  }

  // ----- the check -----

  ghost predicate SpelledApart(names: set<Bytes>, lower: Bytes -> Bytes) {
    forall x, y :: x in names && y in names && x != y ==>
      Apart(Segments(Spelling(x, lower)), Segments(Spelling(y, lower)))
  }

  /** The accepted sets of names. */
  ghost predicate Accepted(names: set<Bytes>, lower: Bytes -> Bytes) {
    (forall n :: n in names ==> Normal(n)) && SpelledApart(names, lower)
  }

  /** All names can be files of one tree that puts each at its place. */
  ghost predicate Fit(names: set<Bytes>, place: Bytes -> Path) {
    forall x, y :: x in names && y in names && x != y ==> Apart(place(x), place(y))
  }

  /** All names can be files of one tree that ignores case and slash style. */
  ghost predicate Layoutable(names: set<Bytes>, lower: Bytes -> Bytes) {
    Fit(names, name => Place(name, lower))
  }

  /** Text that writes each component once: no empty and no `.` segment. */
  predicate Plain(text: Bytes) {
    [] !in Segments(text) && [DOT] !in Segments(text)
  }

  /** A text comparison decides segment prefixes. */
  lemma PrefixText(s: Bytes, t: Bytes)
    ensures Segments(s) <= Segments(t) <==> s == t || s + [SLASH] <= t
  {
    SplitPieces(s, SLASH);
    SplitPieces(t, SLASH);
    hide Split, Join, AllFree;
    if Segments(s) <= Segments(t) {
      var rest := Segments(t)[|Segments(s)|..];
      assert Segments(t) == Segments(s) + rest;
      if rest == [] {
        assert Segments(s) == Segments(t);
      } else {
        JoinConcat(Segments(s), rest, SLASH);
      }
    }
    if s + [SLASH] <= t {
      var rest := t[|s| + 1..];
      assert t == s + [SLASH] + rest;
      SplitConcat(s, SLASH, rest);
    }
  }

  predicate Below(s: Bytes, t: Bytes) {
    s + [SLASH] <= t
  }

  ghost predicate NoneBelow(texts: set<Bytes>) {
    forall s, t :: s in texts && t in texts ==> !Below(s, t)
  }

  method CheckNesting(texts: set<Bytes>) returns (ok: bool)
    ensures ok <==> NoneBelow(texts)
  {
    var names := texts;
    while names != {}
      invariant names <= texts
      invariant forall s, t :: s in texts && s !in names && t in texts ==> !Below(s, t)
    {
      var name :| name in names;
      var others := texts;
      while others != {}
        invariant others <= texts
        invariant forall t :: t in texts && t !in others ==> !Below(name, t)
      {
        var other :| other in others;
        if Below(name, other) { return false; }
        others := others - {other};
      }
      names := names - {name};
    }
    ok := true;
  }

  ghost predicate SpelledBy(texts: set<Bytes>, names: set<Bytes>, lower: Bytes -> Bytes) {
    && (forall n :: n in names ==> Spelling(n, lower) in texts)
    && (forall t :: t in texts ==> exists n :: n in names && Spelling(n, lower) == t)
  }

  ghost predicate SpelledDistinct(names: set<Bytes>, lower: Bytes -> Bytes) {
    forall x, y :: x in names && y in names && x != y ==> Spelling(x, lower) != Spelling(y, lower)
  }

  lemma NestingDecides(texts: set<Bytes>, names: set<Bytes>, lower: Bytes -> Bytes)
    requires SpelledBy(texts, names, lower)
    ensures SpelledApart(names, lower) <==> SpelledDistinct(names, lower) && NoneBelow(texts)
  {
    hide Segments, Spelling;
    forall x, y | x in names && y in names
      ensures Apart(Segments(Spelling(x, lower)), Segments(Spelling(y, lower))) <==>
              Spelling(x, lower) != Spelling(y, lower) && !Below(Spelling(x, lower), Spelling(y, lower))
              && !Below(Spelling(y, lower), Spelling(x, lower))
    {
      PrefixText(Spelling(x, lower), Spelling(y, lower));
      PrefixText(Spelling(y, lower), Spelling(x, lower));
    }
    if SpelledApart(names, lower) {
      forall s, t | s in texts && t in texts ensures !Below(s, t) {
        var x :| x in names && Spelling(x, lower) == s;
        var y :| y in names && Spelling(y, lower) == t;
        if x == y { assert |s + [SLASH]| > |t|; }
      }
    }
  }

  method ValidatePaths(names: set<Bytes>, lower: Bytes -> Bytes) returns (ok: bool)
    ensures ok <==> Accepted(names, lower)
  {
    hide Normal, Spelling, Segments;
    var texts: set<Bytes> := {};
    var rest := names;
    while rest != {}
      invariant rest <= names && SpelledBy(texts, names - rest, lower) && SpelledDistinct(names - rest, lower)
      invariant forall n :: n in names && n !in rest ==> Normal(n)
    {
      var name :| name in rest;
      if !Normal(name) { return false; }
      var text := Spelling(name, lower);
      if text in texts {
        SameTextNotApart(names, names - rest, name, lower);
        return false;
      }
      texts := texts + {text};
      rest := rest - {name};
    }
    assert names - rest == names;
    NestingDecides(texts, names, lower);
    ok := CheckNesting(texts);
  }

  lemma SameTextNotApart(names: set<Bytes>, done: set<Bytes>, name: Bytes, lower: Bytes -> Bytes)
    requires done <= names && name in names && name !in done
    requires exists n :: n in done && Spelling(n, lower) == Spelling(name, lower)
    ensures !SpelledApart(names, lower)
  {
    hide Segments, Spelling;
    var n :| n in done && Spelling(n, lower) == Spelling(name, lower);
    assert Segments(Spelling(n, lower)) <= Segments(Spelling(name, lower));
  }

  /** The names differ only in which slashes they use. */
  predicate SameButSlashes(a: Bytes, b: Bytes) {
    && |a| == |b|
    && forall i :: 0 <= i < |a| ==>
         a[i] == b[i] || (a[i] == SLASH && b[i] == BACKSLASH) || (a[i] == BACKSLASH && b[i] == SLASH)
  }

  /** Two names that differ in slash style only are never accepted together, nor two of one spelling in lower case. */
  lemma SpellingsClash(names: set<Bytes>, lower: Bytes -> Bytes, a: Bytes, b: Bytes)
    requires a in names && b in names && a != b
    ensures SameButSlashes(a, b) ==> !Accepted(names, lower)
    ensures BACKSLASH !in a && BACKSLASH !in b && lower(a) == lower(b) ==> !Accepted(names, lower)
  {
    if SameButSlashes(a, b) { assert Slashes(a) == Slashes(b); }
    if BACKSLASH !in a && BACKSLASH !in b {
      assert Slashes(a) == a by { assert forall i :: 0 <= i < |a| ==> a[i] in a; }
      assert Slashes(b) == b by { assert forall i :: 0 <= i < |b| ==> b[i] in b; }
    }
    if Spelling(a, lower) == Spelling(b, lower) {
      assert !Apart(Segments(Spelling(a, lower)), Segments(Spelling(b, lower)));
    }
  }

  /** A normal name is relative, says so without a leading `.`, and never steps up. */
  lemma NormalExact(name: Bytes)
    ensures Normal(name) <==>
            && name != [] && name[0] != SLASH && name != [DOT] && !([DOT, SLASH] <= name)
            && [DOT, DOT] !in PathOf(name)
  {
    StepsUp(Segments(name));
    FirstSegment(name);
    hide Segments, Components;
  }

  lemma {:induction false} StepsUp(segments: Path)
    ensures [DOT, DOT] in Components(segments) <==> [DOT, DOT] in segments
  {
    if segments != [] {
      StepsUp(segments[1..]);
      assert segments == [segments[0]] + segments[1..];
    }
  }

  lemma FirstSegment(name: Bytes)
    ensures Segments(name)[0] == [] <==> name == [] || name[0] == SLASH
    ensures Segments(name)[0] == [DOT] <==> name == [DOT] || [DOT, SLASH] <= name
  {
    if name != [] && name[0] == DOT {
      var rest := name[1..];
      assert name == [DOT] + rest;
      assert Segments(name)[0] == [DOT] + Segments(rest)[0];
      if rest != [] {
        assert Segments(rest)[0] == [] <==> rest[0] == SLASH;
        assert [DOT, SLASH] <= name <==> rest[0] == SLASH;
      }
    } else if name != [] && name[0] != SLASH {
      assert Segments(name)[0][0] == name[0];
    }
  }

  // ----- accepted names and trees -----

  lemma {:induction false} ComponentsConcat(a: Path, b: Path)
    ensures Components(a + b) == Components(a) + Components(b)
  {
    if a == [] {
      assert a + b == b;
    } else {
      assert (a + b)[1..] == a[1..] + b;
      ComponentsConcat(a[1..], b);
    }
  }

  lemma ComponentsPrefix(a: Path, b: Path)
    requires a <= b
    ensures Components(a) <= Components(b)
  {
    assert b == a + b[|a|..];
    ComponentsConcat(a, b[|a|..]);
  }

  lemma {:induction false} ComponentsPlain(a: Path)
    ensures Components(a) == a <==> [] !in a && [DOT] !in a
    ensures [] !in Components(a) && [DOT] !in Components(a) && |Components(a)| <= |a|
  {
    if a != [] {
      ComponentsPlain(a[1..]);
      assert a == [a[0]] + a[1..];
    }
  }

  /** Names that can be laid out are never refused, however they are spelled. */
  lemma LayoutableAccepted(names: set<Bytes>, lower: Bytes -> Bytes)
    requires Layoutable(names, lower) && forall n :: n in names ==> Normal(n)
    ensures Accepted(names, lower)
  {
    forall x, y | x in names && y in names && x != y
      ensures Apart(Segments(Spelling(x, lower)), Segments(Spelling(y, lower)))
    {
      var a, b := Segments(Spelling(x, lower)), Segments(Spelling(y, lower));
      assert Apart(Place(x, lower), Place(y, lower));
      if a <= b { ComponentsPrefix(a, b); }
      if b <= a { ComponentsPrefix(b, a); }
    }
  }

  ghost predicate AllPlain(names: set<Bytes>, lower: Bytes -> Bytes) {
    forall n :: n in names ==> Plain(Spelling(n, lower))
  }

  /** Plainly spelled names are accepted exactly when they can be laid out as files of one tree. */
  lemma AcceptedExact(names: set<Bytes>, lower: Bytes -> Bytes)
    requires AllPlain(names, lower)
    ensures Accepted(names, lower) <==> (forall n :: n in names ==> Normal(n)) && Layoutable(names, lower)
  {
    hide Segments, Spelling, Normal;
    forall n | n in names ensures Place(n, lower) == Segments(Spelling(n, lower)) {
      ComponentsPlain(Segments(Spelling(n, lower)));
    }
  }

  /** Read as segments the two texts do not clash, but as components they do. */
  ghost predicate HiddenClash(s: Bytes, t: Bytes) {
    Apart(Segments(s), Segments(t)) && !Apart(Components(Segments(s)), Components(Segments(t)))
  }

  /** A text can hide a clash with a plain text exactly when it is not plain itself. */
  lemma PlainExact(s: Bytes)
    ensures (exists t :: Plain(t) && HiddenClash(s, t)) <==> !Plain(s)
  {
    var segments := Segments(s);
    ComponentsPlain(segments);
    if Plain(s) {
      forall t | Plain(t) ensures !HiddenClash(s, t) { ComponentsPlain(Segments(t)); }
    } else {
      HiddenBelow(s);
    }
  }

  /** The clash: a file below the place that the text names. */
  lemma HiddenBelow(s: Bytes)
    requires !Plain(s)
    ensures exists t :: Plain(t) && HiddenClash(s, t)
  {
    var a := Segments(s);
    var b := Components(a) + [[0x78]];
    var t := Join(b, SLASH);
    ComponentsPlain(a);
    SplitPieces(s, SLASH);
    ComponentsFree(a);
    SplitJoin(b, SLASH);
    assert Segments(t) == b;
    ComponentsPlain(b);
    assert [] !in b && [DOT] !in b;
    if b <= a { ComponentsPrefix(b, a); }
    var x :| x in a && x !in b;
    assert a <= b ==> x in b;
    assert HiddenClash(s, t);
  }

  lemma {:induction false} ComponentsFree(a: Path)
    requires AllFree(a, SLASH)
    ensures AllFree(Components(a), SLASH)
  {
    if a != [] {
      ComponentsFree(a[1..]);
    }
  }

  const INNER: Bytes := [0x61, SLASH, 0x62]
  const DOUBLED: Bytes := [0x61, SLASH, SLASH, 0x62, SLASH, 0x63]

  lemma ExampleSegments()
    ensures Segments(INNER) == [[0x61], [0x62]] && Segments(DOUBLED) == [[0x61], [], [0x62], [0x63]]
  {
    var a, b, c: Bytes := [0x61], [0x62], [0x63];
    SplitJoin([a, b], SLASH);
    assert Join([a, b], SLASH) == INNER;
    SplitHead(a, SLASH, [SLASH, 0x62, SLASH, 0x63]);
    SplitHead([], SLASH, [0x62, SLASH, 0x63]);
    SplitHead(b, SLASH, c);
    SplitFree(c, SLASH);
    assert DOUBLED == a + [SLASH] + [SLASH, 0x62, SLASH, 0x63];
    assert [SLASH, 0x62, SLASH, 0x63] == [] + [SLASH] + [0x62, SLASH, 0x63];
    assert [0x62, SLASH, 0x63] == b + [SLASH] + c;
  }

  lemma ExampleComponents()
    ensures Components([[0x61], [0x62]]) == [[0x61], [0x62]]
    ensures Components([[0x61], [], [0x62], [0x63]]) == [[0x61], [0x62], [0x63]]
  {
    var a, b, c: Bytes := [0x61], [0x62], [0x63];
    ComponentsPlain([a, b]);
    ComponentsPlain([a]);
    ComponentsPlain([b, c]);
    ComponentsConcat([a], [[], b, c]);
    assert [a] + [[], b, c] == [a, [], b, c];
    assert [[], b, c][1..] == [b, c];
  }

  /** Doubling a slash hides that one name is a directory above the other: accepted, but not one tree. */
  lemma DoubledSlashHides()
    ensures Accepted({INNER, DOUBLED}, text => text) && !Layoutable({INNER, DOUBLED}, text => text)
  {
    hide Segments, Components;
    ExampleSegments();
    ExampleComponents();
    assert Slashes(INNER) == INNER && Slashes(DOUBLED) == DOUBLED;
    assert Segments(INNER)[1] != Segments(DOUBLED)[1];
    assert Place(INNER, text => text) <= Place(DOUBLED, text => text);
    assert INNER != DOUBLED;
  }

  // ----- staging -----

  type Tree = map<Path, Bytes>

  /** A directory above `p` is already a file, or `p` is already a directory. */
  predicate Blocked(tree: Tree, p: Path) {
    exists q :: q in tree && q != p && (q <= p || p <= q)
  }

  /** No place lies strictly above another, so every place can be a file. */
  ghost predicate Unnested(names: set<Bytes>, place: Bytes -> Path) {
    forall x, y :: x in names && y in names ==> !(place(x) < place(y))
  }

  /** Every name's place is a file, and every file holds the bytes of a name that is placed there. */
  ghost predicate Laid(tree: Tree, files: map<Bytes, Bytes>, names: set<Bytes>, place: Bytes -> Path) {
    && (forall n :: n in names ==> place(n) in tree)
    && (forall p :: p in tree ==> exists n :: n in names && n in files && place(n) == p && tree[p] == files[n])
  }

  /** Each file lies at its own place with its own bytes, and nothing else does. */
  ghost predicate Staged(tree: Tree, files: map<Bytes, Bytes>, place: Bytes -> Path) {
    && (forall n :: n in files ==> place(n) in tree && tree[place(n)] == files[n])
    && (forall p :: p in tree ==> exists n :: n in files && place(n) == p)
  }

  /**
   Copy every file to its place in an empty tree. Creating a file replaces one that is already there, so
   staging succeeds on accepted names that share a place, and then loses all but one of them.
   */
  method StageFiles(files: map<Bytes, Bytes>, entry: Bytes, readable: set<Bytes>, lower: Bytes -> Bytes,
                    place: Bytes -> Path)
    returns (r: Result<Tree>)
    ensures r.Ok? <==>
            Accepted(files.Keys, lower) && entry in files && files.Keys <= readable && Unnested(files.Keys, place)
    ensures r.Ok? ==> Laid(r.value, files, files.Keys, place)
    ensures r.Ok? ==> (|r.value| == |files| <==> Fit(files.Keys, place))
    ensures r.Ok? && Fit(files.Keys, place) ==> Staged(r.value, files, place)
  {
    hide Accepted, Fit, Staged, Blocked, Laid, Unnested;
    var ok := ValidatePaths(files.Keys, lower);
    if !ok || entry !in files { return Err; }
    var tree: Tree := map[];
    var rest := files.Keys;
    assert files.Keys - rest == {};
    NothingStaged(files, place);
    while rest != {}
      invariant rest <= files.Keys && files.Keys - rest <= readable
      invariant Laid(tree, files, files.Keys - rest, place) && Unnested(files.Keys - rest, place)
    {
      var name :| name in rest;
      ghost var done := files.Keys - rest;
      if name !in readable { return Err; }
      BlockedExact(tree, files, done, name, place);
      MoreLaid(tree, files, done, name, place);
      if Blocked(tree, place(name)) {
        FewerUnnested(files.Keys, done + {name}, place);
        return Err;
      }
      tree := tree[place(name) := files[name]];
      rest := rest - {name};
      assert files.Keys - rest == done + {name};
    }
    assert files.Keys - rest == files.Keys;
    NoneReplaced(tree, files, place);
    r := Ok(tree);
  }

  lemma NothingStaged(files: map<Bytes, Bytes>, place: Bytes -> Path)
    ensures Laid(map[], files, {}, place) && Unnested({}, place)
  {}

  lemma FewerUnnested(names: set<Bytes>, some: set<Bytes>, place: Bytes -> Path)
    requires some <= names && !Unnested(some, place)
    ensures !Unnested(names, place)
  {}

  /** One more name: its place is blocked exactly when some place then lies above another. */
  lemma BlockedExact(tree: Tree, files: map<Bytes, Bytes>, done: set<Bytes>, name: Bytes, place: Bytes -> Path)
    requires Laid(tree, files, done, place) && Unnested(done, place)
    ensures Blocked(tree, place(name)) <==> !Unnested(done + {name}, place)
  {
    var p := place(name);
    if Blocked(tree, p) {
      var q :| q in tree && q != p && (q <= p || p <= q);
      var n :| n in done && place(n) == q;
      assert n in done + {name} && name in done + {name};
      assert place(n) < place(name) || place(name) < place(n);
    }
    if !Unnested(done + {name}, place) {
      var x, y :| x in done + {name} && y in done + {name} && place(x) < place(y);
      var n := if x == name then y else x;
      assert n in done && place(n) in tree;
    }
  }

  lemma MoreLaid(tree: Tree, files: map<Bytes, Bytes>, done: set<Bytes>, name: Bytes, place: Bytes -> Path)
    requires Laid(tree, files, done, place) && name in files
    ensures Laid(tree[place(name) := files[name]], files, done + {name}, place)
  {
    var next := tree[place(name) := files[name]];
    forall q | q in next
      ensures exists n :: n in done + {name} && n in files && place(n) == q && next[q] == files[n]
    {
      if q == place(name) {
        assert name in done + {name};
      } else {
        var n :| n in done && n in files && place(n) == q && tree[q] == files[n];
        assert n in done + {name};
      }
    }
  }

  /** Where no place lies above another, names fit in one tree exactly when no two share a place. */
  lemma SharedPlaces(names: set<Bytes>, place: Bytes -> Path)
    requires Unnested(names, place)
    ensures Fit(names, place) <==>
            forall x, y :: x in names && y in names && place(x) == place(y) ==> x == y
  {
    if !Fit(names, place) {
      var x, y :| x in names && y in names && x != y && !Apart(place(x), place(y));
      assert place(x) == place(y);
    }
  }

  /** As many files as names, exactly when the names fit in one tree. */
  lemma NoneReplaced(tree: Tree, files: map<Bytes, Bytes>, place: Bytes -> Path)
    requires Laid(tree, files, files.Keys, place) && Unnested(files.Keys, place)
    ensures |tree| == |files| <==> Fit(files.Keys, place)
    ensures Fit(files.Keys, place) ==> Staged(tree, files, place)
  {
    hide Fit, Unnested;
    var places := map n | n in files :: place(n);
    SharedPlaces(files.Keys, place);
    assert OneToOne(places) <==> Fit(files.Keys, place) by {
      if OneToOne(places) {
        forall x, y | x in files && y in files && place(x) == place(y) ensures x == y {
          assert places[x] == places[y];
        }
      }
    }
    OneToOneSize(places);
    assert tree.Keys == places.Values by {
      forall p ensures p in tree.Keys <==> p in places.Values {
        if p in tree { var n :| n in files.Keys && place(n) == p; assert places[n] == p; }
      }
    }
    assert places.Keys == files.Keys && |tree.Keys| == |tree| && |files.Keys| == |files| && |places.Keys| == |places|;
  }

  /** On a tree that tells names apart as paths are told apart, staging refuses or keeps every file. */
  lemma PathsKept(names: set<Bytes>)
    requires forall x, y :: x in names && y in names && x != y ==> PathOf(x) != PathOf(y)
    ensures Unnested(names, PathOf) <==> Fit(names, PathOf)
  {
    hide PathOf;
    if Unnested(names, PathOf) {
      SharedPlaces(names, PathOf);
    } else {
      var x, y :| x in names && y in names && PathOf(x) < PathOf(y);
      assert x != y && !Apart(PathOf(x), PathOf(y));
    }
  }

  const LOWER_DOUBLED: Bytes := [0x61, SLASH, SLASH, 0x62]
  const UPPER: Bytes := [0x41, SLASH, 0x62]
  const UPPER_BELOW: Bytes := [0x41, SLASH, 0x62, SLASH, 0x63]
  const LOWER_BELOW: Bytes := [0x61, SLASH, 0x62, SLASH, 0x63]

  /** Where a name lands in a tree that ignores ASCII case and slash style. */
  function Folded(name: Bytes): Path {
    Place(name, AsciiLower)
  }

  lemma ThreeSegments(a: Bytes, b: Bytes, c: Bytes)
    requires |a| == |b| == |c| == 1 && a[0] != SLASH && b[0] != SLASH && c[0] != SLASH
    ensures Segments(a + [SLASH] + b) == [a, b] && Segments(a + [SLASH, SLASH] + b) == [a, [], b]
    ensures Segments(a + [SLASH] + b + [SLASH] + c) == [a, b, c]
  {
    SplitFree(b, SLASH);
    SplitFree(c, SLASH);
    SplitHead(a, SLASH, b);
    SplitHead(b, SLASH, c);
    SplitHead([], SLASH, b);
    SplitHead(a, SLASH, [SLASH] + b);
    SplitHead(a, SLASH, b + [SLASH] + c);
    hide Split;
    assert [] + [SLASH] + b == [SLASH] + b && a + [SLASH, SLASH] + b == a + [SLASH] + ([SLASH] + b);
    assert a + [SLASH] + b + [SLASH] + c == a + [SLASH] + (b + [SLASH] + c);
  }

  lemma DoubledComponents(a: Bytes, b: Bytes)
    requires a != [] && b != [] && a != [DOT] && b != [DOT]
    ensures Components([a, [], b]) == [a, b]
  {
    assert [a, [], b][1..] == [[], b] && [[], b][1..] == [b] && [b][1..] == [];
    assert Components([b]) == [b] && Components([[], b]) == [b];
  }

  /** The paths of the example names, and the places a tree that ignores case gives them. */
  lemma ExamplePlaces()
    ensures PathOf(LOWER_DOUBLED) == [[0x61], [0x62]] == Folded(LOWER_DOUBLED) == Folded(UPPER)
    ensures PathOf(UPPER) == [[0x41], [0x62]] && PathOf(UPPER_BELOW) == [[0x41], [0x62], [0x63]]
    ensures Folded(UPPER_BELOW) == [[0x61], [0x62], [0x63]]
  {
    var a, upper, b, c: Bytes := [0x61], [0x41], [0x62], [0x63];
    ExampleSpellings();
    ThreeSegments(a, b, c);
    ThreeSegments(upper, b, c);
    hide Segments;
    assert LOWER_DOUBLED == a + [SLASH, SLASH] + b && UPPER == upper + [SLASH] + b && INNER == a + [SLASH] + b;
    assert UPPER_BELOW == upper + [SLASH] + b + [SLASH] + c && LOWER_BELOW == a + [SLASH] + b + [SLASH] + c;
    DoubledComponents(a, b);
    ComponentsPlain([a, b]);
    ComponentsPlain([upper, b]);
    ComponentsPlain([a, b, c]);
    ComponentsPlain([upper, b, c]);
  }

  lemma ExampleSpellings()
    ensures Spelling(LOWER_DOUBLED, AsciiLower) == LOWER_DOUBLED && Spelling(UPPER, AsciiLower) == INNER
    ensures Spelling(UPPER_BELOW, AsciiLower) == LOWER_BELOW
  {
    assert Slashes(LOWER_DOUBLED) == LOWER_DOUBLED && Slashes(UPPER) == UPPER && Slashes(UPPER_BELOW) == UPPER_BELOW;
  }

  /** The doubled slash hides both clashes from the check. */
  lemma ExampleAccepted()
    ensures Accepted({LOWER_DOUBLED, UPPER}, AsciiLower) && Accepted({LOWER_DOUBLED, UPPER_BELOW}, AsciiLower)
  {
    var a, upper, b, c: Bytes := [0x61], [0x41], [0x62], [0x63];
    ExampleSpellings();
    ThreeSegments(a, b, c);
    ThreeSegments(upper, b, c);
    hide Segments, Spelling;
    assert LOWER_DOUBLED == a + [SLASH, SLASH] + b && UPPER == upper + [SLASH] + b && INNER == a + [SLASH] + b;
    assert UPPER_BELOW == upper + [SLASH] + b + [SLASH] + c && LOWER_BELOW == a + [SLASH] + b + [SLASH] + c;
    assert Segments(LOWER_DOUBLED)[1] != Segments(INNER)[1] && Segments(LOWER_DOUBLED)[1] != Segments(LOWER_BELOW)[1];
  }

  /**
   Two accepted names, different as paths. A tree that ignores case puts them in one place, so staging both succeeds
   there and keeps one file; a tree that does not keeps both.
   */
  lemma DoubledSlashReplaces()
    ensures Accepted({LOWER_DOUBLED, UPPER}, AsciiLower) && PathOf(LOWER_DOUBLED) != PathOf(UPPER)
    ensures Unnested({LOWER_DOUBLED, UPPER}, Folded) && Folded(LOWER_DOUBLED) == Folded(UPPER)
    ensures !Fit({LOWER_DOUBLED, UPPER}, Folded) && Fit({LOWER_DOUBLED, UPPER}, PathOf)
  {
    ExampleAccepted();
    ExamplePlaces();
    hide Accepted, PathOf, Folded;
    assert [[0x61], [0x62]][0][0] != [[0x41], [0x62]][0][0];
    assert LOWER_DOUBLED[0] != UPPER[0];
  }

  /** Two accepted names that a tree ignoring case refuses, for one is a directory there, and any other tree keeps. */
  lemma DoubledSlashBlocks()
    ensures Accepted({LOWER_DOUBLED, UPPER_BELOW}, AsciiLower)
    ensures !Unnested({LOWER_DOUBLED, UPPER_BELOW}, Folded) && Fit({LOWER_DOUBLED, UPPER_BELOW}, PathOf)
  {
    ExampleAccepted();
    ExamplePlaces();
    hide Accepted, PathOf, Folded;
    assert [[0x61], [0x62]][0][0] != [[0x41], [0x62], [0x63]][0][0];
    assert Folded(LOWER_DOUBLED) < Folded(UPPER_BELOW);
  }

  // ----- the hashed stream -----

  /** `PathBuf` comparison: component by component, each bytewise. */
  predicate PathLeq(a: Path, b: Path) {
    a == [] || (b != [] && (if a[0] == b[0] then PathLeq(a[1..], b[1..]) else StrLeq(a[0], b[0])))
  }

  lemma {:induction false} PathTotal(a: Path, b: Path)
    ensures PathLeq(a, b) || PathLeq(b, a)
    ensures PathLeq(a, b) && PathLeq(b, a) ==> a == b
  {
    if a != [] && b != [] {
      PathTotal(a[1..], b[1..]);
      StrTotal(a[0], b[0]);
      assert a == [a[0]] + a[1..] && b == [b[0]] + b[1..];
    }
  }

  /** At `k` the paths first differ, and the component of `a` comes first. */
  predicate FirstAt(a: Path, b: Path, k: int) {
    0 <= k < |a| && k < |b| && a[..k] == b[..k] && a[k] != b[k] && StrLeq(a[k], b[k])
  }

  /** A path comes first if it is a prefix, or by the components where the two first differ. */
  lemma {:induction false} PathLeqExact(a: Path, b: Path)
    ensures PathLeq(a, b) <==> a <= b || exists k :: FirstAt(a, b, k)
  {
    hide StrLeq;
    if a != [] && b != [] {
      PathLeqExact(a[1..], b[1..]);
      assert a == [a[0]] + a[1..] && b == [b[0]] + b[1..];
      if a[0] == b[0] {
        assert a <= b <==> a[1..] <= b[1..];
        if k :| FirstAt(a[1..], b[1..], k) {
          assert a[..k + 1] == [a[0]] + a[1..][..k] && b[..k + 1] == [b[0]] + b[1..][..k];
          assert FirstAt(a, b, k + 1);
        }
        if k :| FirstAt(a, b, k) {
          assert k > 0 && a[1..][..k - 1] == a[..k][1..] && b[1..][..k - 1] == b[..k][1..];
          assert FirstAt(a[1..], b[1..], k - 1);
        }
      } else {
        if StrLeq(a[0], b[0]) { assert FirstAt(a, b, 0); }
        forall k ensures FirstAt(a, b, k) ==> k == 0 {
          if 0 < k < |a| && k < |b| { assert a[..k][0] == a[0] && b[..k][0] == b[0]; }
        }
      }
    }
  }

  lemma {:induction false} PathTransitive(a: Path, b: Path, c: Path)
    requires PathLeq(a, b) && PathLeq(b, c)
    ensures PathLeq(a, c)
  {
    if a != [] {
      if a[0] == b[0] == c[0] {
        PathTransitive(a[1..], b[1..], c[1..]);
      } else {
        StrTotal(a[0], b[0]);
        StrTotal(b[0], c[0]);
        if a[0] != b[0] && b[0] != c[0] { StrTransitive(a[0], b[0], c[0]); }
      }
    }
  }

  lemma PathOrder()
    ensures TotalPreorder(PathLeq)
    ensures forall a, b :: PathLeq(a, b) && PathLeq(b, a) ==> a == b
  {
    forall a: Path, b: Path
      ensures PathLeq(a, b) || PathLeq(b, a)
      ensures PathLeq(a, b) && PathLeq(b, a) ==> a == b
    {
      PathTotal(a, b);
    }
    forall a: Path, b: Path, c: Path | PathLeq(a, b) && PathLeq(b, c) ensures PathLeq(a, c) { PathTransitive(a, b, c); }
  }

  /** The paths of a directory, in the order its files are hashed. */
  ghost predicate Listing(q: seq<Path>, paths: set<Path>) {
    Lists(q, paths) && SortedBy(q, PathLeq)
  }

  lemma ListingUnique(a: seq<Path>, b: seq<Path>, paths: set<Path>)
    requires Listing(a, paths) && Listing(b, paths)
    ensures a == b
  {
    ListsMultiset(a, paths);
    ListsMultiset(b, paths);
    PathOrder();
    SortedUnique(a, b, PathLeq);
  }

  /** What a directory scan finds: each path names a file below the root. */
  predicate Scanned(tree: Tree) {
    forall p :: p in tree ==> p != [] && AllFree(p, SLASH)
  }

  function FileItems(tree: Tree, q: seq<Path>): seq<Item>
    requires Scanned(tree) && forall i :: 0 <= i < |q| ==> q[i] in tree
  {
    if q == [] then [] else [Text(Join(q[0], SLASH)), Text(tree[q[0]])] + FileItems(tree, q[1..])
  }

  /** The bytes hashed: each name and each file behind its length. */
  function Stream(tree: Tree, q: seq<Path>): Bytes
    requires Scanned(tree) && forall i :: 0 <= i < |q| ==> q[i] in tree
  {
    Write(FileItems(tree, q))
  }

  ghost predicate FilesSmall(tree: Tree) {
    forall p :: p in tree && p != [] ==> |Join(p, SLASH)| < TWO_64 && |tree[p]| < TWO_64
  }

  predicate AllText(items: seq<Item>) {
    forall i :: 0 <= i < |items| ==> items[i].Text?
  }

  /** Texts are read back uniquely although their number is not written. */
  lemma {:induction false} TextsUnique(a: seq<Item>, b: seq<Item>)
    requires AllText(a) && AllText(b) && AllSmall(a) && AllSmall(b) && Write(a) == Write(b)
    ensures a == b
  {
    if a == [] || b == [] {
      WriteLength(a);
      WriteLength(b);
    } else {
      WriteHead(a);
      WriteHead(b);
      hide Write, Word, Small;
      WordSplit(a[0], b[0], Write(a[1..]), Write(b[1..]));
      TextsUnique(a[1..], b[1..]);
      assert a == [a[0]] + a[1..] && b == [b[0]] + b[1..];
    }
  }

  lemma {:induction false} FileItemsShape(tree: Tree, q: seq<Path>)
    requires Scanned(tree) && FilesSmall(tree) && forall i :: 0 <= i < |q| ==> q[i] in tree
    ensures AllText(FileItems(tree, q)) && AllSmall(FileItems(tree, q)) && |FileItems(tree, q)| == 2 * |q|
  {
    if q != [] {
      FileItemsShape(tree, q[1..]);
    }
  }

  lemma {:induction false} FileItemsUnique(s: Tree, a: seq<Path>, t: Tree, b: seq<Path>)
    requires Scanned(s) && Scanned(t) && (forall i :: 0 <= i < |a| ==> a[i] in s)
    requires (forall i :: 0 <= i < |b| ==> b[i] in t)
    requires |a| == |b| && FileItems(s, a) == FileItems(t, b)
    ensures a == b && forall i :: 0 <= i < |a| ==> s[a[i]] == t[b[i]]
  {
    if a != [] {
      var x, y := FileItems(s, a), FileItems(t, b);
      assert x[0] == y[0] && x[1] == y[1] && x[2..] == y[2..];
      SplitJoin(a[0], SLASH);
      SplitJoin(b[0], SLASH);
      FileItemsUnique(s, a[1..], t, b[1..]);
      assert a == [a[0]] + a[1..] && b == [b[0]] + b[1..];
    }
  }

  /** Two directories feed the hash the same bytes exactly when they hold the same files. */
  lemma StreamExact(s: Tree, a: seq<Path>, t: Tree, b: seq<Path>)
    requires Scanned(s) && Scanned(t) && FilesSmall(s) && FilesSmall(t) && Listing(a, s.Keys) && Listing(b, t.Keys)
    ensures Stream(s, a) == Stream(t, b) <==> s == t
  {
    if s == t {
      ListingUnique(a, b, s.Keys);
    }
    if Stream(s, a) == Stream(t, b) {
      FileItemsShape(s, a);
      FileItemsShape(t, b);
      TextsUnique(FileItems(s, a), FileItems(t, b));
      FileItemsUnique(s, a, t, b);
      assert s.Keys == t.Keys by { assert forall p :: p in s <==> p in a; assert forall p :: p in t <==> p in b; }
      assert forall p :: p in s ==> p in a;
      assert s == t;
    }
  }

  // ----- hashing a directory -----

  const BUFFER: nat := 16 * 1024

  /** Feed a file's bytes through a fixed buffer. */
  method Feed(stream: Bytes, file: Bytes) returns (r: Bytes)
    ensures r == stream + file
  {
    r := stream;
    var at := 0;
    while at < |file|
      invariant at <= |file| && r == stream + file[..at]
    {
      var count := if |file| - at < BUFFER then |file| - at else BUFFER;
      assert file[..at + count] == file[..at] + file[at..at + count];
      r := r + file[at..at + count];
      at := at + count;
    }
  }

  method CollectFiles(paths: set<Path>) returns (q: seq<Path>)
    ensures Listing(q, paths)
  {
    q := [];
    var rest := paths;
    while rest != {}
      invariant rest <= paths && Listing(q, paths - rest)
    {
      var p :| p in rest;
      PathOrder();
      InsertSorted(p, q, PathLeq);
      InsertLists(p, q, paths - rest, PathLeq);
      q := Insert(p, q, PathLeq);
      rest := rest - {p};
      assert paths - rest == (paths - (rest + {p})) + {p};
    }
    assert paths - rest == paths;
  }

  /** Hash a length, then that many bytes. */
  method PutText(stream: Bytes, text: Bytes) returns (r: Bytes)
    ensures r == Append(stream, Text(text))
  {
    r := Feed(stream + Little(|text|, 8), text);
    Associate(stream, Little(|text|, 8), text);
  }

  /** The hashed bytes, and the order in which the files went in. */
  method DirectoryDigest(tree: Tree) returns (stream: Bytes, q: seq<Path>)
    requires Scanned(tree)
    ensures Listing(q, tree.Keys) && stream == Stream(tree, q)
  {
    hide PathLeq, SortedBy, Append, Write;
    q := CollectFiles(tree.Keys);
    stream := [];
    NothingHashed();
    for i := 0 to |q|
      invariant stream == Stream(tree, q[..i])
    {
      assert q[i] in tree;
      stream := PutText(stream, Join(q[i], SLASH));
      stream := PutText(stream, tree[q[i]]);
      FileHashed(tree, q, i);
    }
    assert q[..|q|] == q;
  }

  lemma NothingHashed()
    ensures Write([]) == []
  {}

  lemma {:induction false} FileItemsConcat(tree: Tree, a: seq<Path>, b: seq<Path>)
    requires Scanned(tree) && (forall i :: 0 <= i < |a| ==> a[i] in tree) && (forall i :: 0 <= i < |b| ==> b[i] in tree)
    ensures FileItems(tree, a + b) == FileItems(tree, a) + FileItems(tree, b)
  {
    if a == [] {
      assert a + b == b;
    } else {
      assert (a + b)[1..] == a[1..] + b;
      FileItemsConcat(tree, a[1..], b);
    }
  }

  lemma FileHashed(tree: Tree, q: seq<Path>, i: nat)
    requires Scanned(tree) && (forall k :: 0 <= k < |q| ==> q[k] in tree) && i < |q|
    ensures Append(Append(Stream(tree, q[..i]), Text(Join(q[i], SLASH))), Text(tree[q[i]])) == Stream(tree, q[..i + 1])
  {
    hide Append, Write, Word;
    var items, name, file := FileItems(tree, q[..i]), Text(Join(q[i], SLASH)), Text(tree[q[i]]);
    AppendWrite([], items, name);
    AppendWrite([], items + [name], file);
    assert [] + Write(items) == Write(items) && [] + Write(items + [name]) == Write(items + [name]);
    assert q[..i + 1] == q[..i] + [q[i]];
    FileItemsConcat(tree, q[..i], [q[i]]);
    assert FileItems(tree, [q[i]]) == [name, file] + FileItems(tree, []);
    assert items + [name] + [file] == items + ([name, file] + []);
  }

  // ----- runtime libraries -----

  datatype DirectoryEntry = DirectoryEntry(name: Bytes, path: Bytes, file: bool)

  const DLL: Bytes := [0x2e, 0x64, 0x6c, 0x6c]
  const DYLIB: Bytes := [0x2e, 0x64, 0x79, 0x6c, 0x69, 0x62]
  const SO: Bytes := [0x2e, 0x73, 0x6f]

  function AsciiLower(s: Bytes): Bytes {
    seq(|s|, i requires 0 <= i < |s| => if 0x41 <= s[i] <= 0x5a then s[i] + 0x20 else s[i])
  }

  predicate EndsWith(s: Bytes, suffix: Bytes) {
    |suffix| <= |s| && s[|s| - |suffix|..] == suffix
  }

  predicate Has(s: Bytes, part: Bytes) {
    part <= s || (s != [] && Has(s[1..], part))
  }

  predicate IsLibrary(e: DirectoryEntry) {
    e.file && (EndsWith(AsciiLower(e.name), DLL) || EndsWith(e.name, DYLIB) || EndsWith(e.name, SO)
               || Has(e.name, SO + [DOT]))
  }

  lemma {:induction false} HasExact(s: Bytes, part: Bytes)
    ensures Has(s, part) <==> exists i :: 0 <= i <= |s| && part <= s[i..]
  {
    assert s[0..] == s;
    if s != [] {
      HasExact(s[1..], part);
      if i :| 0 <= i <= |s[1..]| && part <= s[1..][i..] { assert s[i + 1..] == s[1..][i..]; }
      if i :| 0 < i <= |s| && part <= s[i..] { assert s[1..][i - 1..] == s[i..]; }
    }
  }

  /** The text is `stem` and then `suffix`, whatever the case of its ASCII letters. */
  predicate EndsAnyCase(s: Bytes, suffix: Bytes) {
    |suffix| <= |s| && AsciiLower(s[|s| - |suffix|..]) == suffix
  }

  /** A library is a file that ends in `.dll` in any case, in `.dylib` or `.so`, or has `.so.` inside its name. */
  lemma LibraryExact(e: DirectoryEntry)
    ensures IsLibrary(e) <==>
            && e.file
            && (|| EndsAnyCase(e.name, DLL)
                || (exists stem :: e.name == stem + DYLIB) || (exists stem :: e.name == stem + SO)
                || (exists i :: 0 <= i <= |e.name| && SO + [DOT] <= e.name[i..]))
  {
    HasExact(e.name, SO + [DOT]);
    EndsExact(e.name, DYLIB);
    EndsExact(e.name, SO);
    var n := |e.name| - |DLL|;
    if 0 <= n { assert AsciiLower(e.name)[n..] == AsciiLower(e.name[n..]); }
    hide Has, EndsWith, AsciiLower;
    assert EndsWith(AsciiLower(e.name), DLL) <==> EndsAnyCase(e.name, DLL) by { LowerEnds(e.name, DLL); }
  }

  lemma LowerEnds(s: Bytes, suffix: Bytes)
    ensures EndsWith(AsciiLower(s), suffix) <==> EndsAnyCase(s, suffix)
  {
    var n := |s| - |suffix|;
    if 0 <= n { assert AsciiLower(s)[n..] == AsciiLower(s[n..]); }
  }

  lemma EndsExact(s: Bytes, suffix: Bytes)
    ensures EndsWith(s, suffix) <==> exists stem :: s == stem + suffix
  {
    if EndsWith(s, suffix) { assert s == s[..|s| - |suffix|] + suffix; }
  }

  /** The entries that are runtime libraries, in order. */
  function Libraries(entries: seq<DirectoryEntry>): seq<DirectoryEntry> {
    if entries == [] then []
    else (if IsLibrary(entries[0]) then [entries[0]] else []) + Libraries(entries[1..])
  }

  lemma LibrariesHead(e: DirectoryEntry, rest: seq<DirectoryEntry>)
    ensures Libraries([e] + rest) == (if IsLibrary(e) then [e] else []) + Libraries(rest)
  {
    hide IsLibrary;
    assert ([e] + rest)[1..] == rest;
  }

  lemma NoLibraries()
    ensures Libraries([]) == []
  {}

  lemma {:induction false} LibrariesConcat(a: seq<DirectoryEntry>, b: seq<DirectoryEntry>)
    ensures Libraries(a + b) == Libraries(a) + Libraries(b)
  {
    hide Libraries, IsLibrary;
    if a == [] {
      NoLibraries();
      assert a + b == b;
    } else {
      var e, rest := a[0], a[1..];
      var first := if IsLibrary(e) then [e] else [];
      LibrariesHead(e, rest);
      LibrariesHead(e, rest + b);
      LibrariesConcat(rest, b);
      assert a == [e] + rest && a + b == [e] + (rest + b);
      assert first + (Libraries(rest) + Libraries(b)) == first + Libraries(rest) + Libraries(b);
    }
  }

  lemma {:induction false} LibrariesListed(entries: seq<DirectoryEntry>, e: DirectoryEntry)
    ensures e in Libraries(entries) <==> e in entries && IsLibrary(e)
  {
    hide IsLibrary;
    if entries != [] {
      LibrariesListed(entries[1..], e);
      assert entries == [entries[0]] + entries[1..];
    }
  }

  /** Files and libraries of one name hold the same bytes. */
  ghost predicate Agree(files: map<Bytes, Bytes>, libraries: seq<DirectoryEntry>, contents: Bytes -> Bytes) {
    && (forall e :: e in libraries && e.name in files ==> contents(e.path) == contents(files[e.name]))
    && (forall e, f :: e in libraries && f in libraries && e.name == f.name ==> contents(e.path) == contents(f.path))
  }

  /** `found` has the names of `files` and of `libraries`, each with its bytes. */
  ghost predicate Merges(files: map<Bytes, Bytes>, libraries: seq<DirectoryEntry>, contents: Bytes -> Bytes,
                         found: map<Bytes, Bytes>)
  {
    && (forall n :: n in files ==> n in found && contents(found[n]) == contents(files[n]))
    && (forall e :: e in libraries ==> e.name in found && contents(found[e.name]) == contents(e.path))
    && (forall n :: n in found && n !in files ==> exists e :: e in libraries && e.name == n)
  }

  /** Add one directory's libraries, in the order the directory happens to list them. */
  method CollectLibraryDirectory(entries: seq<DirectoryEntry>, contents: Bytes -> Bytes, files: map<Bytes, Bytes>)
    returns (r: Result<map<Bytes, Bytes>>)
    ensures r.Ok? <==> Agree(files, Libraries(entries), contents)
    ensures r.Ok? ==> Merges(files, Libraries(entries), contents, r.value)
  {
    hide IsLibrary, Agree, Merges;
    var found := files;
    NothingScanned(files, contents);
    for i := 0 to |entries|
      invariant Agree(files, Libraries(entries[..i]), contents)
      invariant Merges(files, Libraries(entries[..i]), contents, found)
    {
      var e := entries[i];
      ghost var before := Libraries(entries[..i]);
      assert entries[..i + 1] == entries[..i] + [e];
      LibrariesConcat(entries[..i], [e]);
      assert Libraries([e]) == if IsLibrary(e) then [e] else [];
      if IsLibrary(e) {
        if e.name in found && contents(found[e.name]) != contents(e.path) {
          assert entries == entries[..i + 1] + entries[i + 1..];
          LibrariesConcat(entries[..i + 1], entries[i + 1..]);
          ConflictDisagrees(files, before, e, Libraries(entries[i + 1..]), contents, found);
          return Err;
        }
        AddedAgrees(files, before, e, contents, found);
        AddedMerges(files, before, e, contents, found);
        found := found[e.name := e.path];
      } else {
        assert before + [] == before;
      }
    }
    assert entries[..|entries|] == entries;
    r := Ok(found);
  }

  lemma NothingScanned(files: map<Bytes, Bytes>, contents: Bytes -> Bytes)
    ensures Agree(files, Libraries([]), contents) && Merges(files, Libraries([]), contents, files)
  {}

  lemma AddedAgrees(files: map<Bytes, Bytes>, before: seq<DirectoryEntry>, e: DirectoryEntry,
                    contents: Bytes -> Bytes, found: map<Bytes, Bytes>)
    requires Agree(files, before, contents) && Merges(files, before, contents, found)
    requires e.name in found ==> contents(found[e.name]) == contents(e.path)
    ensures Agree(files, before + [e], contents)
  {
    assert forall x :: x in before + [e] <==> x in before || x == e;
  }

  lemma AddedMerges(files: map<Bytes, Bytes>, before: seq<DirectoryEntry>, e: DirectoryEntry,
                    contents: Bytes -> Bytes, found: map<Bytes, Bytes>)
    requires Merges(files, before, contents, found)
    requires e.name in found ==> contents(found[e.name]) == contents(e.path)
    ensures Merges(files, before + [e], contents, found[e.name := e.path])
  {
    assert forall x :: x in before + [e] <==> x in before || x == e;
  }

  lemma ConflictDisagrees(files: map<Bytes, Bytes>, before: seq<DirectoryEntry>, e: DirectoryEntry,
                          after: seq<DirectoryEntry>, contents: Bytes -> Bytes, found: map<Bytes, Bytes>)
    requires Merges(files, before, contents, found)
    requires e.name in found && contents(found[e.name]) != contents(e.path)
    ensures !Agree(files, before + [e] + after, contents)
  {
    var all := before + [e] + after;
    assert e in all;
    if e.name !in files {
      var x :| x in before && x.name == e.name;
      assert x in all;
    }
  }

  /** Whatever order the entries come in, the outcome is the same bytes under the same names, or a conflict. */
  lemma ScanOrderIrrelevant(files: map<Bytes, Bytes>, a: seq<DirectoryEntry>, b: seq<DirectoryEntry>,
                            contents: Bytes -> Bytes, found: map<Bytes, Bytes>, found': map<Bytes, Bytes>)
    requires forall e :: e in a <==> e in b
    ensures Agree(files, Libraries(a), contents) <==> Agree(files, Libraries(b), contents)
    ensures Merges(files, Libraries(a), contents, found) && Merges(files, Libraries(b), contents, found') ==>
              found.Keys == found'.Keys && forall n :: n in found ==> contents(found[n]) == contents(found'[n])
  {
    hide IsLibrary, Libraries;
    forall e ensures e in Libraries(a) <==> e in Libraries(b) {
      LibrariesListed(a, e);
      LibrariesListed(b, e);
    }
  }

  lemma AgreeComposes(files: map<Bytes, Bytes>, a: seq<DirectoryEntry>, b: seq<DirectoryEntry>,
                      contents: Bytes -> Bytes, mid: map<Bytes, Bytes>)
    requires Agree(files, a, contents) && Merges(files, a, contents, mid)
    ensures Agree(files, a + b, contents) <==> Agree(mid, b, contents)
  {
    assert forall e :: e in a + b <==> e in a || e in b;
  }

  lemma MergesComposes(files: map<Bytes, Bytes>, a: seq<DirectoryEntry>, b: seq<DirectoryEntry>,
                       contents: Bytes -> Bytes, mid: map<Bytes, Bytes>, found: map<Bytes, Bytes>)
    requires Merges(files, a, contents, mid)
    ensures Merges(mid, b, contents, found) <==> Merges(files, a + b, contents, found)
  {
    assert forall e :: e in a + b <==> e in a || e in b;
  }

  /** Scanning one directory after another agrees with scanning them as one. */
  lemma ScansCompose(files: map<Bytes, Bytes>, a: seq<DirectoryEntry>, b: seq<DirectoryEntry>, contents: Bytes -> Bytes,
                     mid: map<Bytes, Bytes>)
    requires Agree(files, Libraries(a), contents) && Merges(files, Libraries(a), contents, mid)
    ensures Agree(files, Libraries(a + b), contents) <==> Agree(mid, Libraries(b), contents)
    ensures forall found ::
              Merges(mid, Libraries(b), contents, found) <==> Merges(files, Libraries(a + b), contents, found)
  {
    LibrariesConcat(a, b);
    hide IsLibrary, Libraries, Agree, Merges;
    AgreeComposes(files, Libraries(a), Libraries(b), contents, mid);
    forall found
      ensures Merges(mid, Libraries(b), contents, found) <==> Merges(files, Libraries(a + b), contents, found)
    {
      MergesComposes(files, Libraries(a), Libraries(b), contents, mid, found);
    }
  }
}
