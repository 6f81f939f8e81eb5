/** The command line's reading of endpoint keys, by searching in the text instead of splitting it. */
module KeyText {
  import opened Prelude
  import opened Text
  import opened Keys

  datatype KeyParts = KeyParts(domain: string, source: string, port: string, ty: string)

  predicate AllSegments(s: string) {
    forall i :: 0 <= i < |Split(s, '/')| ==> Segment(Split(s, '/')[i])
  }

  const ROOT := "reiny/v3/"

  function BaseParts(text: string): Option<KeyParts> {
    if !(ROOT <= text) then None
    else match SplitOnce(text[|ROOT|..], "/")
      case None => None
      case Some((domain, rest)) =>
        var split := if SplitOnce(rest, "/@out/").Some? then SplitOnce(rest, "/@out/") else SplitOnce(rest, "/@in/");
        match split
        case None => None
        case Some((source, endpoint)) =>
          match SplitOnce(endpoint, "/")
          case None => None
          case Some((port, ty)) =>
            if Segment(domain) && AllSegments(source) && Segment(port) && Segment(ty)
            then Some(KeyParts(domain, source, port, ty)) else None
  }

  function ParseParts(text: string): Option<KeyParts> {
    match Parse(text)
    case None => None
    case Some(k) => if k.chunk.Some? || k.endpoint.None? then None else BaseParts(text)
  }

  /** The text between the domain and the first marked segment, if it reads as a namespace. */
  function SourceIn(text: string): string {
    if !(ROOT <= text) then ""
    else match SplitOnce(text[|ROOT|..], "/")
      case None => ""
      case Some((_, rest)) =>
        match SplitOnce(rest, "/@")
        case None => ""
        case Some((source, _)) => if AllSegments(source) then source else ""
  }

  function KeySource(text: string): string {
    if Parse(text).None? then "" else SourceIn(text)
  }

  // ----- searching -----

  lemma SplitOnceSlash(a: string, b: string)
    requires '/' !in a
    ensures SplitOnce(a + "/" + b, "/") == Some((a, b))
  {
    forall i | 0 <= i < |a| ensures !("/" <= (a + "/" + b)[i..]) {
      assert (a + "/" + b)[i..][0] == a[i];
    }
    SplitOnceAt(a, "/", b);
  }

  /** A pattern that starts with a slash and an at sign first occurs right after text without at signs. */
  lemma SplitOnceMarked(a: string, pattern: string, b: string)
    requires |pattern| >= 2 && pattern[0] == '/' && pattern[1] == '@' && '@' !in a
    ensures SplitOnce(a + pattern + b, pattern) == Some((a, b))
  {
    var s := a + pattern + b;
    forall i | 0 <= i < |a| ensures !(pattern <= s[i..]) {
      assert s[i + 1] == if i + 1 < |a| then a[i + 1] else '/';
      assert s[i..][1] == s[i + 1];
    }
    SplitOnceAt(a, pattern, b);
  }

  lemma SourceText(k: Key)
    requires Valid(k)
    ensures k.source.Some? ==> '@' !in k.source.value && AllSegments(k.source.value)
    ensures !AllSegments("**")
  {
    if k.source.Some? {
      var pieces := Split(k.source.value, '/');
      forall i | 0 <= i < |pieces| ensures '@' !in pieces[i] && Segment(pieces[i]) {
        OrdinaryFree(pieces[i]);
      }
      SplitPieces(k.source.value, '/');
      JoinFree(pieces, '/', '@');
    }
    SplitOne("**");
    assert Split("**", '/')[0] == "**" && Forbidden("**"[0]);
  }

  lemma {:induction false} JoinFree(pieces: seq<string>, sep: char, c: char)
    requires |pieces| > 0 && AllFree(pieces, c) && sep != c
    ensures c !in Join(pieces, sep)
  {
    if |pieces| > 1 { JoinFree(pieces[1..], sep, c); }
  }

  function SourceOrStars(k: Key): string {
    if k.source.Some? then k.source.value else "**"
  }

  // ----- the two readings agree -----

  /** The text of a parsed endpoint without a facet. */
  lemma EndpointText(text: string)
    requires Parse(text).Some? && Parse(text).value.chunk.None? && Parse(text).value.endpoint.Some?
    ensures var k := Parse(text).value;
            && Valid(k) && k.endpoint.value.Output? && k.ty.Some?
            && text == ROOT + k.domain + "/" + SourceOrStars(k) + "/@out/" + k.endpoint.value.port + "/" + k.ty.value
  {
    var k := Parse(text).value;
    PrintParse(text);
    NoFacetNoPattern(text);
    hide Split, EndpointPart, Parse, Print;
    ValidType(k);
    StarNotOrdinary(k.ty.value);
    OutputText(k);
  }

  lemma OutputText(k: Key)
    requires k.chunk.None? && k.endpoint.Some? && k.endpoint.value.Output? && k.ty.Some? && !IsControl(k)
    ensures Print(k) == ROOT + k.domain + "/" + SourceOrStars(k) + "/@out/" + k.endpoint.value.port + "/" + k.ty.value
  {
    var p := "reiny" + "/" + "v3" + "/" + k.domain + "/" + SourceOrStars(k);
    var q, r := k.endpoint.value.port, k.ty.value;
    assert p + "/" + "@out" + "/" + q + "/" + r == p + "/@out/" + q + "/" + r by {
      assert "/" + "@out" + "/" == "/@out/";
      assert p + "/" + "@out" + "/" == p + ("/" + "@out" + "/");
    }
    assert "reiny" + "/" + "v3" + "/" == ROOT;
  }

  lemma NoFacetNoPattern(text: string)
    requires Parse(text).Some? && Parse(text).value.chunk.None?
    ensures !InputSchemaPattern(EndpointPart(text))
  {
    hide Split, Valid;
    AssembleBack(Split(text, '/'));
  }

  lemma BasePartsOf(domain: string, source: string, port: string, ty: string)
    requires Ordinary(domain) && '@' !in source && Ordinary(port) && Ordinary(ty)
    ensures BaseParts(ROOT + domain + "/" + source + "/@out/" + port + "/" + ty)
         == if AllSegments(source) then Some(KeyParts(domain, source, port, ty)) else None
  {
    OrdinaryFree(domain);
    OrdinaryFree(port);
    var endpoint := port + "/" + ty;
    var rest := source + "/@out/" + endpoint;
    var text := ROOT + domain + "/" + source + "/@out/" + port + "/" + ty;
    assert text == ROOT + (domain + "/" + rest);
    assert text[|ROOT|..] == domain + "/" + rest;
    hide Split, SplitOnce, Segment, AllSegments;
    SplitOnceSlash(domain, rest);
    SplitOnceMarked(source, "/@out/", endpoint);
    SplitOnceSlash(port, ty);
  }

  /** The search-based reading succeeds exactly on concrete endpoints without a facet, with the parsed components. */
  lemma ParsePartsExact(text: string)
    ensures ParseParts(text) ==
            match Parse(text)
            case None => None
            case Some(k) =>
              if k.chunk.None? && k.endpoint.Some? && k.source.Some? && k.ty.Some?
              then Some(KeyParts(k.domain, k.source.value, k.endpoint.value.port, k.ty.value)) else None
  {
    if Parse(text).Some? && Parse(text).value.chunk.None? && Parse(text).value.endpoint.Some? {
      var k := Parse(text).value;
      EndpointText(text);
      SourceText(k);
      BasePartsOf(k.domain, SourceOrStars(k), k.endpoint.value.port, k.ty.value);
    }
  }

  function OutputKey(domain: string, namespace: string, port: string, ty: string): Key {
    Key(domain, Some(namespace), Some(Output(port)), Some(ty), None)
  }

  /** Printing an output address and reading its parts back. */
  lemma PartsRoundTrip(domain: string, namespace: string, port: string, ty: string)
    requires Valid(OutputKey(domain, namespace, port, ty))
    ensures ParseParts(Print(OutputKey(domain, namespace, port, ty))) == Some(KeyParts(domain, namespace, port, ty))
  {
    ParsePrint(OutputKey(domain, namespace, port, ty));
    ParsePartsExact(Print(OutputKey(domain, namespace, port, ty)));
  }

  /** Any text whose parts can be read is the print of those parts. */
  lemma PartsPrintBack(text: string)
    requires ParseParts(text).Some?
    ensures var p := ParseParts(text).value;
            Valid(OutputKey(p.domain, p.source, p.port, p.ty))
            && Print(OutputKey(p.domain, p.source, p.port, p.ty)) == text
  {
    ParsePartsExact(text);
    EndpointText(text);
    PrintParse(text);
    NoFacetNoPattern(text);
  }

  lemma ParsedShape(text: string)
    requires Parse(text).Some?
    ensures exists tail ::
              text == ROOT + Parse(text).value.domain + "/" + SourceOrStars(Parse(text).value) + "/@" + tail
  {
    var parts := Split(text, '/');
    var k := Parse(text).value;
    SplitPieces(text, '/');
    hide Split, Valid, ParseEndpoint, Assemble;
    AssembleBack(parts);
    var b := Boundary(parts[3..]);
    var ns, rest := parts[3..][..b], parts[3..][b..];
    BoundaryMeaning(parts[3..]);
    var head := ["reiny", "v3", k.domain];
    JoinConcat(head, ns + rest, '/');
    JoinConcat(ns, rest, '/');
    HeadText(k.domain);
    MarkedJoin(rest);
    var tail := Join(rest, '/')[1..];
    assert Join(rest, '/') == "@" + tail;
    assert SourceOrStars(k) == Join(ns, '/');
    assert text == (ROOT + k.domain) + "/" + (SourceOrStars(k) + "/" + ("@" + tail));
    Flatten(ROOT + k.domain, SourceOrStars(k), tail);
  }

  lemma Flatten(a: string, b: string, t: string)
    ensures a + "/" + (b + "/" + ("@" + t)) == a + "/" + b + "/@" + t
  {
    assert "/" + ("@" + t) == "/@" + t;
  }

  lemma HeadText(domain: string)
    ensures Join(["reiny", "v3", domain], '/') == ROOT + domain
  {
    var p := ["reiny", "v3", domain];
    assert p[1..] == ["v3", domain] && p[1..][1..] == [domain];
    assert Join(p[1..], '/') == "v3" + "/" + domain;
    assert "reiny" + "/" + ("v3" + "/" + domain) == ROOT + domain;
  }

  lemma MarkedJoin(rest: seq<string>)
    requires |rest| > 0 && rest[0] != "" && rest[0][0] == '@'
    ensures Join(rest, '/') != "" && Join(rest, '/')[0] == '@'
  {
  }

  lemma SourceInText(domain: string, source: string, tail: string)
    requires '/' !in domain && '@' !in source
    ensures SourceIn(ROOT + domain + "/" + source + "/@" + tail) == if AllSegments(source) then source else ""
  {
    var rest := source + "/@" + tail;
    var text := ROOT + domain + "/" + source + "/@" + tail;
    assert text == ROOT + (domain + "/" + rest);
    assert text[|ROOT|..] == domain + "/" + rest;
    hide SplitOnce, AllSegments;
    SplitOnceSlash(domain, rest);
    SplitOnceMarked(source, "/@", tail);
  }

  /** `KeySource` is the parsed source of every text that parses, and empty otherwise. */
  lemma KeySourceExact(text: string)
    ensures KeySource(text) ==
            match Parse(text)
            case None => ""
            case Some(k) => if k.source.Some? then k.source.value else ""
  {
    if Parse(text).Some? {
      var k := Parse(text).value;
      ParsedShape(text);
      OrdinaryFree(k.domain);
      SourceText(k);
      hide SourceIn, AllSegments, Parse;
      var tail :| text == ROOT + k.domain + "/" + SourceOrStars(k) + "/@" + tail;
      SourceInText(k.domain, SourceOrStars(k), tail);
    }
  }

  /** Distinct sources of one input have distinct key texts. */
  lemma SourcesDistinct(domain: string, n: string, p: string, n': string, p': string, ty: string)
    requires Valid(OutputKey(domain, n, p, ty)) && Valid(OutputKey(domain, n', p', ty))
    ensures Print(OutputKey(domain, n, p, ty)) == Print(OutputKey(domain, n', p', ty)) <==> n == n' && p == p'
  {
    if Print(OutputKey(domain, n, p, ty)) == Print(OutputKey(domain, n', p', ty)) {
      PrintInjective(OutputKey(domain, n, p, ty), OutputKey(domain, n', p', ty));
    }
  }
}
