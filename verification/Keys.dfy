/**
 Endpoint keys: the engine's address datatype, its text, and the command line's own reading of that
 text. Printing and parsing undo each other, and both readings agree.
 */
module Keys {
  import opened Prelude
  import opened Text

  datatype Slot = Output(port: string) | Input(port: string)

  datatype Key = Key(domain: string, source: Option<string>, endpoint: Option<Slot>, ty: Option<string>,
                     chunk: Option<string>)

  const LAUNCH := "@launch"
  const READY := "@ready"
  const STOP := "@stop"
  const SERVICE := "@service"
  const SUB := "@sub"
  const SCHEMA := "@schema"

  // ----- segments -----

  /** The Unicode `White_Space` property. */
  predicate IsWhitespace(c: char) {
    var n := c as int;
    || 9 <= n <= 13 || n == 0x20 || n == 0x85 || n == 0xA0 || n == 0x1680
    || 0x2000 <= n <= 0x200A || n == 0x2028 || n == 0x2029 || n == 0x202F || n == 0x205F || n == 0x3000
  }

  predicate Forbidden(c: char) {
    c == '/' || c == '*' || c == '?' || c == '#' || c == '$' || c == '@' || IsWhitespace(c)
  }

  /** One nonempty key segment without separators, wildcards, markers or whitespace. */
  predicate Segment(s: string) {
    s != "" && forall i :: 0 <= i < |s| ==> !Forbidden(s[i])
  }

  /** A segment that is not a relative path step either. */
  predicate Ordinary(s: string) {
    Segment(s) && s != "." && s != ".."
  }

  predicate Namespace(s: string) {
    forall i :: 0 <= i < |Split(s, '/')| ==> Ordinary(Split(s, '/')[i])
  }

  predicate Control(s: string) {
    s == LAUNCH || s == READY || s == STOP
  }

  // ----- addresses -----

  predicate ValidChunk(chunk: string) {
    || chunk == SERVICE || chunk == SUB
    || ("@schema/" <= chunk && (chunk[8..] == "*" || Ordinary(chunk[8..])))
  }

  /** Admissible address components. */
  predicate Valid(k: Key) {
    && Ordinary(k.domain)
    && (k.source.Some? ==> Namespace(k.source.value))
    && (k.ty.Some? ==> Ordinary(k.ty.value) || Control(k.ty.value))
    && (k.endpoint.Some? ==> Ordinary(k.endpoint.value.port) && k.ty.Some? && Ordinary(k.ty.value))
    && (k.ty.Some? && Control(k.ty.value) ==> k.endpoint.None? && k.chunk.None?)
    && (k.endpoint.Some? && k.endpoint.value.Input? ==>
          k.chunk.Some? && (k.chunk.value == SUB || "@schema/" <= k.chunk.value))
    && (k.chunk.Some? ==>
          && ValidChunk(k.chunk.value)
          && !(k.endpoint.Some? && k.endpoint.value.Output? && k.chunk.value == SUB)
          && !(k.endpoint.Some? && k.endpoint.value.Input? && k.chunk.value == SERVICE))
  }

  function Direction(k: Key): string {
    if k.endpoint.Some? && k.endpoint.value.Input? then "@in"
    else if k.chunk == Some(SUB) then "@in"
    else "@out"
  }

  function OrStar(s: Option<string>): string {
    if s.Some? then s.value else "*"
  }

  function PortOf(k: Key): Option<string> {
    if k.endpoint.Some? then Some(k.endpoint.value.port) else None
  }

  predicate IsControl(k: Key) {
    k.ty.Some? && k.ty.value != "" && k.ty.value[0] == '@'
  }

  function Print(k: Key): string {
    var base := "reiny" + "/" + "v3" + "/" + k.domain + "/" + (if k.source.Some? then k.source.value else "**");
    var body := if IsControl(k) then base + "/" + k.ty.value
                else base + "/" + Direction(k) + "/" + OrStar(PortOf(k)) + "/" + OrStar(k.ty);
    if k.chunk.Some? then body + "/" + k.chunk.value else body
  }

  // ----- patterns -----

  /** Facets compare segment by segment; `*` stands for one unmarked segment. */
  predicate ChunkMatches(pattern: string, chunk: string) {
    var p, c := Split(pattern, '/'), Split(chunk, '/');
    |p| == |c| && forall i :: 0 <= i < |p| ==> p[i] == c[i] || (p[i] == "*" && !("@" <= c[i]))
  }

  predicate Matches(pattern: Key, k: Key) {
    && pattern.domain == k.domain
    && (pattern.source.None? || k.source == pattern.source)
    && (if pattern.ty.None? then k.ty.None? || !("@" <= k.ty.value) else k.ty == pattern.ty)
    && (pattern.endpoint.None? || k.endpoint == pattern.endpoint)
    && (pattern.chunk.Some? <==> k.chunk.Some?)
    && (pattern.chunk.Some? ==> ChunkMatches(pattern.chunk.value, k.chunk.value))
  }

  // ----- parsing -----

  function Boundary(tail: seq<string>): nat {
    if tail == [] then 0
    else if tail[0] != "" && tail[0][0] == '@' then 0
    else 1 + Boundary(tail[1..])
  }

  function Star(s: string): Option<string> {
    if s == "*" then None else Some(s)
  }

  /** The endpoint part, from the direction marker on. */
  function ParseEndpoint(rest: seq<string>): Option<(Option<Slot>, Option<string>, Option<string>)>
    requires |rest| > 0
  {
    if Control(rest[0]) && |rest| == 1 then Some((None, Some(rest[0]), None))
    else if rest[0] == "@out" || rest[0] == "@in" then
      if |rest| < 3 then None
      else if !(rest[1] == "*" || Ordinary(rest[1])) || !(rest[2] == "*" || Ordinary(rest[2])) then None
      else if rest[0] == "@out" && |rest| > 3 && rest[3] == SUB then None
      else if rest[0] == "@in" && !(|rest| > 3 && (rest[3] == SUB || rest[3] == SCHEMA)) then None
      else
        var endpoint :=
          if rest[1] == "*" then None else if rest[0] == "@out" then Some(Output(rest[1])) else Some(Input(rest[1]));
        Some((endpoint, Star(rest[2]), if |rest| > 3 then Some(Join(rest[3..], '/')) else None))
    else None
  }

  function Assemble(parts: seq<string>): Option<Key> {
    if |parts| < 3 || parts[0] != "reiny" || parts[1] != "v3" then None
    else
      var tail := parts[3..];
      var b := Boundary(tail);
      if b == 0 || b >= |tail| then None
      else
        var namespace := Join(tail[..b], '/');
        var source := if namespace == "**" then None else Some(namespace);
        match ParseEndpoint(tail[b..])
        case None => None
        case Some((endpoint, ty, chunk)) => Some(Key(parts[2], source, endpoint, ty, chunk))
  }

  function Parse(text: string): Option<Key> {
    var k := Assemble(Split(text, '/'));
    if k.Some? && Valid(k.value) then k else None
  }

  // ----- printing, piece by piece -----

  function SourcePieces(k: Key): seq<string> {
    if k.source.Some? then Split(k.source.value, '/') else ["**"]
  }

  function EndpointPieces(k: Key): seq<string> {
    if IsControl(k) then [k.ty.value] else [Direction(k), OrStar(PortOf(k)), OrStar(k.ty)]
  }

  function ChunkPieces(k: Key): seq<string> {
    if k.chunk.Some? then Split(k.chunk.value, '/') else []
  }

  function Pieces(k: Key): seq<string> {
    ["reiny", "v3", k.domain] + SourcePieces(k) + EndpointPieces(k) + ChunkPieces(k)
  }

  lemma SplitOne(a: string)
    requires '/' !in a
    ensures Split(a, '/') == [a]
  {
    SplitFree(a, '/');
  }

  lemma OrdinaryFree(s: string)
    requires Segment(s)
    ensures '/' !in s && '@' !in s && '*' !in s
  {
    assert Forbidden('/') && Forbidden('@') && Forbidden('*');
  }

  lemma BasePieces(k: Key)
    requires Valid(k)
    ensures Split("reiny" + "/" + "v3" + "/" + k.domain + "/" + (if k.source.Some? then k.source.value else "**"), '/')
         == ["reiny", "v3", k.domain] + SourcePieces(k)
  {
    OrdinaryFree(k.domain);
    SplitOne("reiny");
    SplitOne("v3");
    SplitOne(k.domain);
    SplitOne("**");
    var a, b := "reiny" + "/" + "v3", "reiny" + "/" + "v3" + "/" + k.domain;
    hide Split;
    SplitConcat("reiny", '/', "v3");
    SplitConcat(a, '/', k.domain);
    SplitConcat(b, '/', if k.source.Some? then k.source.value else "**");
    assert ["reiny"] + ["v3"] + [k.domain] == ["reiny", "v3", k.domain];
  }

  lemma EndpointFree(k: Key)
    requires Valid(k)
    ensures forall i :: 0 <= i < |EndpointPieces(k)| ==> '/' !in EndpointPieces(k)[i]
  {
    if k.ty.Some? && Ordinary(k.ty.value) { OrdinaryFree(k.ty.value); }
    if k.endpoint.Some? { OrdinaryFree(k.endpoint.value.port); }
  }

  lemma ThreeMore(base: string, d: string, p: string, t: string)
    requires '/' !in d && '/' !in p && '/' !in t
    ensures Split(base + "/" + d + "/" + p + "/" + t, '/') == Split(base, '/') + [d, p, t]
  {
    SplitOne(d);
    SplitOne(p);
    SplitOne(t);
    hide Split;
    SplitConcat(base, '/', d);
    SplitConcat(base + "/" + d, '/', p);
    SplitConcat(base + "/" + d + "/" + p, '/', t);
    assert Split(base, '/') + [d] + [p] + [t] == Split(base, '/') + [d, p, t];
  }

  lemma BodyPieces(k: Key, base: string)
    requires Valid(k)
    ensures Split(if IsControl(k) then base + "/" + k.ty.value
                  else base + "/" + Direction(k) + "/" + OrStar(PortOf(k)) + "/" + OrStar(k.ty), '/')
         == Split(base, '/') + EndpointPieces(k)
  {
    EndpointFree(k);
    var e := EndpointPieces(k);
    hide Split;
    if IsControl(k) {
      assert e[0] == k.ty.value;
      SplitOne(k.ty.value);
      SplitConcat(base, '/', k.ty.value);
    } else {
      assert e[0] == Direction(k) && e[1] == OrStar(PortOf(k)) && e[2] == OrStar(k.ty);
      ThreeMore(base, Direction(k), OrStar(PortOf(k)), OrStar(k.ty));
    }
  }

  lemma PrintPieces(k: Key)
    requires Valid(k)
    ensures Split(Print(k), '/') == Pieces(k)
  {
    BasePieces(k);
    var base := "reiny" + "/" + "v3" + "/" + k.domain + "/" + (if k.source.Some? then k.source.value else "**");
    BodyPieces(k, base);
    var body := if IsControl(k) then base + "/" + k.ty.value
                else base + "/" + Direction(k) + "/" + OrStar(PortOf(k)) + "/" + OrStar(k.ty);
    hide Split;
    if k.chunk.Some? {
      SplitConcat(body, '/', k.chunk.value);
    }
  }

  // ----- parsing what was printed -----

  lemma {:induction false} BoundaryAt(ns: seq<string>, rest: seq<string>)
    requires forall i :: 0 <= i < |ns| ==> ns[i] == "" || ns[i][0] != '@'
    requires |rest| > 0 && rest[0] != "" && rest[0][0] == '@'
    ensures Boundary(ns + rest) == |ns|
  {
    if ns == [] {
      assert ns + rest == rest;
    } else {
      assert (ns + rest)[1..] == ns[1..] + rest;
      BoundaryAt(ns[1..], rest);
    }
  }

  lemma StarsNotNamespace()
    ensures !Namespace("**")
  {
    SplitOne("**");
    assert Split("**", '/')[0] == "**";
    assert Forbidden("**"[0]);
  }

  lemma SourceFacts(k: Key)
    requires Valid(k)
    ensures |SourcePieces(k)| > 0
    ensures forall i :: 0 <= i < |SourcePieces(k)| ==> SourcePieces(k)[i] == "" || SourcePieces(k)[i][0] != '@'
    ensures Join(SourcePieces(k), '/') == (if k.source.Some? then k.source.value else "**")
    ensures k.source.Some? ==> k.source.value != "**"
  {
    if k.source.Some? {
      SplitPieces(k.source.value, '/');
      forall i | 0 <= i < |SourcePieces(k)| ensures SourcePieces(k)[i] == "" || SourcePieces(k)[i][0] != '@' {
        OrdinaryFree(SourcePieces(k)[i]);
      }
      StarsNotNamespace();
    }
  }

  lemma ParsePrintedEndpoint(k: Key)
    requires Valid(k)
    ensures |EndpointPieces(k) + ChunkPieces(k)| > 0
    ensures ParseEndpoint(EndpointPieces(k) + ChunkPieces(k)) == Some((k.endpoint, k.ty, k.chunk))
  {
    hide Split;
    var rest := EndpointPieces(k) + ChunkPieces(k);
    if IsControl(k) {
      assert rest == [k.ty.value];
    } else {
      assert rest[0] == Direction(k) && rest[1] == OrStar(PortOf(k)) && rest[2] == OrStar(k.ty);
      assert rest[3..] == ChunkPieces(k);
      if k.ty.Some? { StarNotOrdinary(k.ty.value); }
      if k.endpoint.Some? { StarNotOrdinary(k.endpoint.value.port); }
      if k.chunk.Some? {
        ChunkHead(k.chunk.value);
        SplitPieces(k.chunk.value, '/');
        assert rest[3] == ChunkPieces(k)[0];
      }
    }
  }

  lemma StarNotOrdinary(s: string)
    ensures Ordinary(s) ==> s != "*"
    ensures Control(s) ==> s[0] == '@'
    ensures Ordinary(s) ==> s[0] != '@'
  {
    assert Forbidden('*') && Forbidden('@');
  }

  lemma ChunkHead(chunk: string)
    requires ValidChunk(chunk)
    ensures Split(chunk, '/')[0] == SUB <==> chunk == SUB
    ensures Split(chunk, '/')[0] == SCHEMA <==> "@schema/" <= chunk
  {
    if "@schema/" <= chunk {
      assert "@schema/" == SCHEMA + ['/'];
      assert chunk == SCHEMA + ['/'] + chunk[8..];
      SplitHead(SCHEMA, '/', chunk[8..]);
    } else {
      SplitFree(chunk, '/');
    }
  }

  /** Every valid address is recovered from its text. */
  lemma ParsePrint(k: Key)
    requires Valid(k)
    ensures Parse(Print(k)) == Some(k)
  {
    hide Print, Split, ParseEndpoint, EndpointPieces, SourcePieces, ChunkPieces, Valid;
    PrintPieces(k);
    SourceFacts(k);
    ParsePrintedEndpoint(k);
    EndpointMarked(k);
    var ns, rest := SourcePieces(k), EndpointPieces(k) + ChunkPieces(k);
    BoundaryAt(ns, rest);
    assert Pieces(k) == ["reiny", "v3", k.domain] + (ns + rest);
    AssembleParts(k.domain, ns, rest);
  }

  lemma EndpointMarked(k: Key)
    requires Valid(k)
    ensures |EndpointPieces(k)| > 0 && EndpointPieces(k)[0] != "" && EndpointPieces(k)[0][0] == '@'
  {
  }

  /** Assembling from a known split into domain, namespace and endpoint. */
  lemma AssembleParts(domain: string, ns: seq<string>, rest: seq<string>)
    requires |ns| > 0 && |rest| > 0 && Boundary(ns + rest) == |ns|
    ensures Assemble(["reiny", "v3", domain] + (ns + rest)) ==
            match ParseEndpoint(rest)
            case None => None
            case Some((endpoint, ty, chunk)) =>
              Some(Key(domain, if Join(ns, '/') == "**" then None else Some(Join(ns, '/')), endpoint, ty, chunk))
  {
    hide ParseEndpoint, Boundary, Join;
    var parts := ["reiny", "v3", domain] + (ns + rest);
    assert parts[3..] == ns + rest;
    assert (ns + rest)[..|ns|] == ns && (ns + rest)[|ns|..] == rest;
  }

  /** Distinct valid addresses have distinct texts. */
  lemma PrintInjective(k: Key, l: Key)
    requires Valid(k) && Valid(l) && Print(k) == Print(l)
    ensures k == l
  {
    ParsePrint(k);
    ParsePrint(l);
  }

  // ----- printing what was parsed -----

  lemma {:induction false} BoundaryMeaning(tail: seq<string>)
    ensures Boundary(tail) <= |tail|
    ensures Boundary(tail) < |tail| ==> tail[Boundary(tail)] != "" && tail[Boundary(tail)][0] == '@'
    ensures forall i :: 0 <= i < Boundary(tail) ==> tail[i] == "" || tail[i][0] != '@'
  {
    if tail != [] { BoundaryMeaning(tail[1..]); }
  }

  /** The text is an input pattern over all ports with a schema facet: the one shape whose direction is not kept. */
  predicate InputSchemaPattern(rest: seq<string>) {
    |rest| > 3 && rest[0] == "@in" && rest[1] == "*" && rest[3] == SCHEMA
  }

  /** The endpoint part of a text that parses. */
  function EndpointPart(text: string): seq<string> {
    var parts := Split(text, '/');
    if |parts| < 3 || Boundary(parts[3..]) > |parts[3..]| then [] else parts[3..][Boundary(parts[3..])..]
  }

  lemma EndpointPiecesBack(rest: seq<string>, k: Key)
    requires |rest| > 0 && AllFree(rest, '/') && Valid(k)
    requires ParseEndpoint(rest) == Some((k.endpoint, k.ty, k.chunk))
    ensures EndpointPieces(k) + ChunkPieces(k) == rest <==> !InputSchemaPattern(rest)
  {
    hide Split, Valid;
    if Control(rest[0]) && |rest| == 1 {
      assert EndpointPieces(k) + ChunkPieces(k) == rest;
    } else {
      ValidType(k);
      if |rest| > 3 {
        SplitJoin(rest[3..], '/');
        assert ChunkPieces(k) == rest[3..];
        ChunkOfValid(k);
        ChunkHead(k.chunk.value);
      }
      assert rest == rest[..3] + rest[3..];
      assert rest[..3] == [rest[0], rest[1], rest[2]];
      assert EndpointPieces(k) == [Direction(k), rest[1], rest[2]];
      if Direction(k) != rest[0] {
        assert (EndpointPieces(k) + ChunkPieces(k))[0] != rest[0];
      }
    }
  }

  lemma ValidType(k: Key)
    requires Valid(k)
    ensures IsControl(k) <==> k.ty.Some? && Control(k.ty.value)
  {
    if k.ty.Some? { StarNotOrdinary(k.ty.value); }
  }

  lemma ChunkOfValid(k: Key)
    requires Valid(k) && k.chunk.Some?
    ensures ValidChunk(k.chunk.value)
  {
  }

  lemma SourcePiecesBack(ns: seq<string>, k: Key)
    requires |ns| > 0 && AllFree(ns, '/')
    requires k.source == if Join(ns, '/') == "**" then None else Some(Join(ns, '/'))
    ensures SourcePieces(k) == ns
  {
    SplitJoin(ns, '/');
    SplitOne("**");
  }

  lemma AssembleBack(parts: seq<string>)
    requires Assemble(parts).Some?
    ensures |parts| > 3 && 0 < Boundary(parts[3..]) < |parts[3..]|
    ensures var k := Assemble(parts).value;
            var b := Boundary(parts[3..]);
            && parts == ["reiny", "v3", k.domain] + (parts[3..][..b] + parts[3..][b..])
            && k.source == (if Join(parts[3..][..b], '/') == "**" then None else Some(Join(parts[3..][..b], '/')))
            && ParseEndpoint(parts[3..][b..]) == Some((k.endpoint, k.ty, k.chunk))
  {
    hide ParseEndpoint, Boundary, Join;
    var b := Boundary(parts[3..]);
    assert parts == parts[..3] + parts[3..];
    assert parts[3..] == parts[3..][..b] + parts[3..][b..];
    assert parts[..3] == [parts[0], parts[1], parts[2]];
  }

  /** A text that parses prints back to itself exactly when it is not an all-ports input schema pattern. */
  lemma PrintParse(text: string)
    requires Parse(text).Some?
    ensures Print(Parse(text).value) == text <==> !InputSchemaPattern(EndpointPart(text))
  {
    hide Print, Pieces, Valid, Boundary, Assemble, Split, Join, AllFree, InputSchemaPattern;
    var parts := Split(text, '/');
    var k := Parse(text).value;
    SplitPieces(text, '/');
    SplitPieces(Print(k), '/');
    PrintPieces(k);
    PiecesBack(parts, k);
  }

  /** The pieces of a parsed key are the pieces it was read from, but for an all-ports input schema pattern. */
  lemma PiecesBack(parts: seq<string>, k: Key)
    requires AllFree(parts, '/') && Assemble(parts) == Some(k) && Valid(k)
    ensures |parts| > 3 && Boundary(parts[3..]) < |parts[3..]|
    ensures Pieces(k) == parts <==> !InputSchemaPattern(parts[3..][Boundary(parts[3..])..])
  {
    hide ParseEndpoint, EndpointPieces, SourcePieces, ChunkPieces, Pieces, Valid, Boundary, Assemble, Join, AllFree;
    hide InputSchemaPattern;
    AssembleBack(parts);
    var b := Boundary(parts[3..]);
    FreeSlices(parts, b);
    SourcePiecesBack(parts[3..][..b], k);
    EndpointPiecesBack(parts[3..][b..], k);
    SamePieces(k, parts[3..][..b], parts[3..][b..]);
  }

  lemma SamePieces(k: Key, ns: seq<string>, rest: seq<string>)
    requires SourcePieces(k) == ns
    ensures Pieces(k) == ["reiny", "v3", k.domain] + (ns + rest) <==> EndpointPieces(k) + ChunkPieces(k) == rest
  {
    hide SourcePieces, EndpointPieces, ChunkPieces;
    var h, e := ["reiny", "v3", k.domain], EndpointPieces(k) + ChunkPieces(k);
    assert h + ns + EndpointPieces(k) + ChunkPieces(k) == h + (ns + e);
    Tails(h, ns, e, rest);
  }

  lemma FreeSlices(parts: seq<string>, b: nat)
    requires AllFree(parts, '/') && |parts| >= 3 && b <= |parts[3..]|
    ensures AllFree(parts[3..][..b], '/') && AllFree(parts[3..][b..], '/')
  {
  }

  lemma Tails(h: seq<string>, ns: seq<string>, a: seq<string>, b: seq<string>)
    ensures h + (ns + a) == h + (ns + b) <==> a == b
  {
    if h + (ns + a) == h + (ns + b) {
      assert a == (h + (ns + a))[|h| + |ns|..] && b == (h + (ns + b))[|h| + |ns|..];
    }
  }

  const INPUT_PATTERN := "reiny/v3/d/**/@in/*/*/@schema/*"

  lemma SplitPiece(whole: string, piece: string, rest: string)
    requires '/' !in piece && whole == piece + "/" + rest
    ensures Split(whole, '/') == [piece] + Split(rest, '/')
  {
    hide Split;
    SplitHead(piece, '/', rest);
  }

  lemma FacetPieces()
    ensures Split("*/*/@schema/*", '/') == ["*", "*", "@schema", "*"]
  {
    hide Split;
    SplitOne("*");
    SplitPiece("@schema/*", "@schema", "*");
    SplitPiece("*/@schema/*", "*", "@schema/*");
    SplitPiece("*/*/@schema/*", "*", "*/@schema/*");
  }

  lemma SlotPieces()
    ensures Split("**/@in/*/*/@schema/*", '/') == ["**", "@in", "*", "*", "@schema", "*"]
  {
    hide Split;
    FacetPieces();
    SplitPiece("@in/*/*/@schema/*", "@in", "*/*/@schema/*");
    SplitPiece("**/@in/*/*/@schema/*", "**", "@in/*/*/@schema/*");
  }

  lemma DomainPieces()
    ensures Split("d/**/@in/*/*/@schema/*", '/') == ["d", "**", "@in", "*", "*", "@schema", "*"]
  {
    hide Split;
    SlotPieces();
    SplitPiece("d/**/@in/*/*/@schema/*", "d", "**/@in/*/*/@schema/*");
  }

  lemma InputPatternPieces()
    ensures Split(INPUT_PATTERN, '/') == ["reiny", "v3", "d", "**", "@in", "*", "*", "@schema", "*"]
  {
    hide Split;
    DomainPieces();
    SplitPiece("v3/d/**/@in/*/*/@schema/*", "v3", "d/**/@in/*/*/@schema/*");
    SplitPiece(INPUT_PATTERN, "reiny", "v3/d/**/@in/*/*/@schema/*");
  }

  /** A text that parses and does not print back: the direction of an input schema pattern over all ports is lost. */
  lemma InputPatternIsLost()
    ensures Parse(INPUT_PATTERN) == Some(Key("d", None, None, None, Some("@schema/*")))
    ensures Print(Parse(INPUT_PATTERN).value) != INPUT_PATTERN
  {
    hide Split, Print;
    InputPatternPieces();
    var parts := Split(INPUT_PATTERN, '/');
    assert parts[3..] == ["**", "@in", "*", "*", "@schema", "*"];
    assert Boundary(parts[3..]) == 1 by { assert parts[3..][1..][0] == "@in"; }
    assert parts[3..][..1] == ["**"] && parts[3..][1..] == ["@in", "*", "*", "@schema", "*"];
    var rest := parts[3..][1..];
    assert rest[3..] == ["@schema", "*"] && ["@schema", "*"][1..] == ["*"];
    assert Join(["@schema", "*"], '/') == "@schema/*";
    assert "@schema/*"[8..] == "*";
    PrintParse(INPUT_PATTERN);
  }
}
