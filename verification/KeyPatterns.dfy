/**
 Matching keys field by field against matching their texts: `*` stands for one segment and `**` for any number,
 and neither reaches a segment that starts with an at sign.
 */
module KeyPatterns {
  import opened Prelude
  import opened Text
  import opened Keys

  // ----- patterns over text -----

  predicate Marked(s: string) {
    s != "" && s[0] == '@'
  }

  /** One segment of a pattern against one of a text. */
  predicate Fits(a: string, b: string) {
    a == b || (a == "*" && !Marked(b))
  }

  predicate Glob(p: seq<string>, t: seq<string>)
    decreases |p| + |t|
  {
    if p == [] then t == []
    else if p[0] == "**" then Glob(p[1..], t) || (t != [] && !Marked(t[0]) && Glob(p, t[1..]))
    else t != [] && Fits(p[0], t[0]) && Glob(p[1..], t[1..])
  }

  /** The pattern text matches the key text, segment by segment. */
  predicate TextMatches(pattern: string, text: string) {
    Glob(Split(pattern, '/'), Split(text, '/'))
  }

  lemma GlobCons(a: string, p: seq<string>, b: string, t: seq<string>)
    requires a != "**"
    ensures Glob([a] + p, [b] + t) <==> Fits(a, b) && Glob(p, t)
  {
    assert ([a] + p)[1..] == p && ([b] + t)[1..] == t;
  }

  lemma GlobConsNone(a: string, p: seq<string>)
    requires a != "**"
    ensures !Glob([a] + p, [])
  {}

  /** Without `**`, segments match one by one. */
  lemma {:induction false} GlobSegments(p: seq<string>, t: seq<string>)
    requires "**" !in p
    ensures Glob(p, t) <==> |p| == |t| && forall i :: 0 <= i < |p| ==> Fits(p[i], t[i])
  {
    if p != [] && t != [] {
      GlobSegments(p[1..], t[1..]);
      assert p == [p[0]] + p[1..] && t == [t[0]] + t[1..];
      GlobCons(p[0], p[1..], t[0], t[1..]);
      hide Glob, Fits;
      if |p| == |t| && forall i :: 0 <= i < |p| ==> Fits(p[i], t[i]) {
        forall i | 0 <= i < |p[1..]| ensures Fits(p[1..][i], t[1..][i]) { assert Fits(p[i + 1], t[i + 1]); }
      }
      if |p| == |t| && Fits(p[0], t[0]) && forall i :: 0 <= i < |p[1..]| ==> Fits(p[1..][i], t[1..][i]) {
        forall i | 0 <= i < |p| ensures Fits(p[i], t[i]) {
          if i > 0 { assert Fits(p[1..][i - 1], t[1..][i - 1]); }
        }
      }
    }
  }

  predicate Unmarked(ns: seq<string>) {
    forall i :: 0 <= i < |ns| ==> !Marked(ns[i])
  }

  predicate Literal(ns: seq<string>) {
    forall i :: 0 <= i < |ns| ==> ns[i] != "*" && ns[i] != "**"
  }

  /** A namespace written out matches itself only. */
  lemma {:induction false} GlobNamespace(ns: seq<string>, p: seq<string>, ms: seq<string>, t: seq<string>)
    requires Unmarked(ns) && Literal(ns) && Unmarked(ms)
    requires p != [] && Marked(p[0]) && t != [] && Marked(t[0])
    ensures Glob(ns + p, ms + t) <==> ns == ms && Glob(p, t)
  {
    if ns == [] {
      assert ns + p == p;
      if ms == [] {
        assert ms + t == t;
      } else {
        assert (ms + t)[0] == ms[0] && p[0] != ms[0];
      }
    } else if ms == [] {
      assert (ns + p)[0] == ns[0] && (ms + t)[0] == t[0] && ns[0] != t[0];
    } else {
      assert ns + p == [ns[0]] + (ns[1..] + p) && ms + t == [ms[0]] + (ms[1..] + t);
      GlobCons(ns[0], ns[1..] + p, ms[0], ms[1..] + t);
      GlobNamespace(ns[1..], p, ms[1..], t);
      assert ns == [ns[0]] + ns[1..] && ms == [ms[0]] + ms[1..];
    }
  }

  /** `**` matches every namespace, up to the marker. */
  lemma {:induction false} GlobStars(p: seq<string>, ms: seq<string>, t: seq<string>)
    requires Unmarked(ms) && p != [] && Marked(p[0]) && t != [] && Marked(t[0])
    ensures Glob(["**"] + p, ms + t) <==> Glob(p, t)
    decreases |ms|
  {
    assert (["**"] + p)[1..] == p;
    if ms == [] {
      assert ms + t == t;
    } else {
      assert (ms + t)[0] == ms[0] && (ms + t)[1..] == ms[1..] + t;
      GlobStars(p, ms[1..], t);
      assert !Glob(p, ms + t);
    }
  }

  // ----- keys as segments -----

  function Rest(k: Key): seq<string> {
    EndpointPieces(k) + ChunkPieces(k)
  }

  lemma SourceSegments(k: Key)
    requires Valid(k)
    ensures Unmarked(SourcePieces(k)) && (k.source.Some? ==> Literal(SourcePieces(k)))
  {
    if k.source.Some? {
      var ns := SourcePieces(k);
      forall i | 0 <= i < |ns| ensures !Marked(ns[i]) && ns[i] != "*" && ns[i] != "**" {
        OrdinaryFree(ns[i]);
      }
    }
  }

  lemma PiecesNested(k: Key)
    ensures Pieces(k) == ["reiny"] + (["v3"] + ([k.domain] + (SourcePieces(k) + Rest(k))))
  {
    hide SourcePieces, EndpointPieces, ChunkPieces;
  }

  lemma GlobHead(a: string, b: string, c: string, p: seq<string>, d: string, t: seq<string>)
    requires a != "**" && b != "**" && c != "**"
    ensures Glob([a] + ([b] + ([c] + p)), [a] + ([b] + ([d] + t))) <==> Fits(c, d) && Glob(p, t)
  {
    hide Glob;
    GlobCons(a, [b] + ([c] + p), a, [b] + ([d] + t));
    GlobCons(b, [c] + p, b, [d] + t);
    GlobCons(c, p, d, t);
  }

  lemma MatchPieces(p: Key, k: Key)
    requires Valid(p) && Valid(k) && Rest(p) != [] && Marked(Rest(p)[0]) && Rest(k) != [] && Marked(Rest(k)[0])
    ensures Glob(Pieces(p), Pieces(k)) <==>
            p.domain == k.domain && (p.source.None? || SourcePieces(p) == SourcePieces(k)) && Glob(Rest(p), Rest(k))
  {
    PlainDomain(p);
    SourceSegments(p);
    SourceSegments(k);
    PiecesNested(p);
    PiecesNested(k);
    hide Glob, SourcePieces, Pieces, Rest, Valid, Unmarked, Literal;
    GlobHead("reiny", "v3", p.domain, SourcePieces(p) + Rest(p), k.domain, SourcePieces(k) + Rest(k));
    if p.source.None? {
      StarsOf(p);
      GlobStars(Rest(p), SourcePieces(k), Rest(k));
    } else {
      GlobNamespace(SourcePieces(p), Rest(p), SourcePieces(k), Rest(k));
    }
  }

  lemma PlainDomain(k: Key)
    requires Valid(k)
    ensures k.domain != "*" && k.domain != "**"
  {
    OrdinaryFree(k.domain);
  }

  lemma StarsOf(p: Key)
    requires p.source.None?
    ensures SourcePieces(p) == ["**"]
  {}

  /** The text of a namespace determines it. */
  lemma SameSource(p: Key, k: Key)
    requires Valid(p) && Valid(k) && p.source.Some?
    ensures SourcePieces(p) == SourcePieces(k) <==> k.source == p.source
  {
    SourceSegments(p);
    SplitPieces(p.source.value, '/');
    if k.source.Some? {
      SplitPieces(k.source.value, '/');
    } else {
      StarsOf(k);
      assert ["**"][0] == "**";
    }
  }

  /** Segments match one by one. */
  predicate AllFit(p: seq<string>, t: seq<string>) {
    |p| == |t| && forall i :: 0 <= i < |p| ==> Fits(p[i], t[i])
  }

  lemma ChunkSegments(k: Key)
    requires Valid(k)
    ensures "**" !in ChunkPieces(k) && (k.chunk.Some? <==> ChunkPieces(k) != [])
  {
    if k.chunk.Some? {
      var chunk := k.chunk.value;
      ChunkOfValid(k);
      if "@schema/" <= chunk {
        assert "@schema/" == SCHEMA + ['/'] && chunk == SCHEMA + ['/'] + chunk[8..];
        SplitHead(SCHEMA, '/', chunk[8..]);
        if chunk[8..] != "*" { OrdinaryFree(chunk[8..]); }
        SplitOne(chunk[8..]);
        assert Split(chunk, '/') == [SCHEMA, chunk[8..]];
      } else {
        SplitOne(chunk);
      }
    }
  }

  /** What follows the namespace: a control, or direction, port, type and facet. */
  lemma RestSegments(k: Key)
    requires Valid(k)
    ensures Rest(k) != [] && Marked(Rest(k)[0]) && "**" !in Rest(k)
    ensures IsControl(k) ==> Rest(k) == [k.ty.value]
    ensures !IsControl(k) ==> Rest(k) == [Direction(k), OrStar(PortOf(k)), OrStar(k.ty)] + ChunkPieces(k)
  {
    ChunkSegments(k);
    ValidType(k);
    PlainSlots(k);
    hide ChunkPieces;
    if IsControl(k) {
      ControlAlone(k);
      assert [k.ty.value] + [] == [k.ty.value];
    }
  }

  lemma ControlAlone(k: Key)
    requires Valid(k) && IsControl(k)
    ensures ChunkPieces(k) == [] && k.ty.value != "**"
  {
    ValidType(k);
  }

  lemma PlainSlots(k: Key)
    requires Valid(k)
    ensures PortOf(k).Some? ==> PortOf(k).value != "*" && PortOf(k).value != "**" && !Marked(PortOf(k).value)
    ensures k.ty.Some? ==> k.ty.value != "*" && k.ty.value != "**" && (Marked(k.ty.value) <==> IsControl(k))
    ensures Direction(k) != "*" && Direction(k) != "**"
  {
    if PortOf(k).Some? { OrdinaryFree(PortOf(k).value); }
    if k.ty.Some? {
      if Ordinary(k.ty.value) { OrdinaryFree(k.ty.value); }
    }
  }

  lemma AllFitParts(a: string, b: string, c: string, p: seq<string>, x: string, y: string, z: string, t: seq<string>)
    ensures AllFit([a, b, c] + p, [x, y, z] + t) <==> Fits(a, x) && Fits(b, y) && Fits(c, z) && AllFit(p, t)
  {
    var l, r := [a, b, c] + p, [x, y, z] + t;
    hide Fits;
    if AllFit(l, r) {
      assert Fits(l[0], r[0]) && Fits(l[1], r[1]) && Fits(l[2], r[2]);
      forall i | 0 <= i < |p| ensures Fits(p[i], t[i]) { assert Fits(l[i + 3], r[i + 3]); }
    }
  }

  /** The facets match as their segments do. */
  lemma FacetsFit(p: Key, k: Key)
    requires Valid(p) && Valid(k)
    ensures AllFit(ChunkPieces(p), ChunkPieces(k)) <==>
            (p.chunk.Some? <==> k.chunk.Some?) && (p.chunk.Some? ==> ChunkMatches(p.chunk.value, k.chunk.value))
  {
    ChunkSegments(p);
    ChunkSegments(k);
    hide Valid, Split;
  }

  /** All after the namespace matches: the same control, or slot by slot. */
  predicate SlotsMatch(p: Key, k: Key) {
    if IsControl(p) || IsControl(k) then k.ty == p.ty
    else
      && Direction(p) == Direction(k) && (p.endpoint.None? || PortOf(k) == PortOf(p)) && (p.ty.None? || k.ty == p.ty)
      && (p.chunk.Some? <==> k.chunk.Some?) && (p.chunk.Some? ==> ChunkMatches(p.chunk.value, k.chunk.value))
  }

  lemma RestMatches(p: Key, k: Key)
    requires Valid(p) && Valid(k)
    ensures Glob(Rest(p), Rest(k)) <==> SlotsMatch(p, k)
  {
    RestSegments(p);
    RestSegments(k);
    GlobSegments(Rest(p), Rest(k));
    PlainSlots(p);
    PlainSlots(k);
    FacetsFit(p, k);
    hide Glob, Valid, ChunkPieces, ChunkMatches, Rest, Direction;
    if !IsControl(p) && !IsControl(k) {
      AllFitParts(Direction(p), OrStar(PortOf(p)), OrStar(p.ty), ChunkPieces(p),
                  Direction(k), OrStar(PortOf(k)), OrStar(k.ty), ChunkPieces(k));
    }
  }

  // ----- the theorem -----

  /** A schema pattern over all ports, which is printed under `@out`, against an input's schema. */
  predicate Crosses(pattern: Key, k: Key) {
    && pattern.endpoint.None? && k.endpoint.Some? && k.endpoint.value.Input?
    && k.chunk.Some? && "@schema/" <= k.chunk.value
  }

  /** Field by field and slot by slot are the same, but for the direction. */
  lemma SlotsAreFields(p: Key, k: Key)
    requires Valid(p) && Valid(k) && p.domain == k.domain && (p.source.None? || k.source == p.source)
    ensures SlotsMatch(p, k) <==> Matches(p, k) && !Crosses(p, k)
  {
    ValidType(p);
    ValidType(k);
    PlainSlots(p);
    PlainSlots(k);
    if p.chunk.Some? && k.chunk.Some? { FacetKinds(p.chunk.value, k.chunk.value); }
    hide ChunkMatches, Ordinary, Namespace;
  }

  lemma FacetKinds(a: string, b: string)
    requires ValidChunk(a) && ValidChunk(b)
    ensures ChunkMatches(a, b) ==> (a == SUB <==> b == SUB) && ("@schema/" <= a <==> "@schema/" <= b)
  {
    ChunkHead(a);
    ChunkHead(b);
  }

  /** A pattern matches a key exactly when its text matches the key's text, unless it crosses from `@out` to `@in`. */
  lemma MatchesIsGlob(pattern: Key, k: Key)
    requires Valid(pattern) && Valid(k)
    ensures TextMatches(Print(pattern), Print(k)) <==> Matches(pattern, k) && !Crosses(pattern, k)
  {
    PrintPieces(pattern);
    PrintPieces(k);
    RestSegments(pattern);
    RestSegments(k);
    hide Split, Glob, Valid, SlotsMatch, Crosses;
    MatchPieces(pattern, k);
    if pattern.source.Some? { SameSource(pattern, k); }
    RestMatches(pattern, k);
    if pattern.domain == k.domain && (pattern.source.None? || k.source == pattern.source) {
      SlotsAreFields(pattern, k);
    }
  }

  /** The pattern for every schema of a domain. */
  function AllSchemas(domain: string): Key {
    Key(domain, None, None, None, Some("@schema/*"))
  }

  lemma StarChunk(name: string)
    requires name == "*" || Ordinary(name)
    ensures ValidChunk("@schema/*") && "@schema/" <= "@schema/*" && ChunkMatches("@schema/*", "@schema/" + name)
  {
    assert "@schema/*"[8..] == "*";
    assert "@schema/" == SCHEMA + ['/'] && "@schema/*" == SCHEMA + ['/'] + "*";
    assert "@schema/" + name == SCHEMA + ['/'] + name;
    SplitHead(SCHEMA, '/', "*");
    SplitHead(SCHEMA, '/', name);
    if name != "*" { OrdinaryFree(name); }
    SplitOne("*");
    SplitOne(name);
  }

  /** It matches every input's schema, although its text matches the text of none. */
  lemma SchemaPatternCrosses(k: Key)
    requires Valid(k) && k.endpoint.Some? && k.endpoint.value.Input? && k.chunk.Some? && "@schema/" <= k.chunk.value
    ensures Valid(AllSchemas(k.domain)) && Matches(AllSchemas(k.domain), k)
    ensures !TextMatches(Print(AllSchemas(k.domain)), Print(k))
  {
    ChunkOfValid(k);
    var name := k.chunk.value[8..];
    assert k.chunk.value == "@schema/" + name;
    ValidType(k);
    InputType(k);
    SchemaName(k.chunk.value);
    StarChunk(name);
    hide ChunkMatches, Ordinary, Namespace, ValidChunk, Print, TextMatches;
    MatchesIsGlob(AllSchemas(k.domain), k);
  }

  lemma SchemaName(chunk: string)
    requires ValidChunk(chunk) && "@schema/" <= chunk
    ensures chunk[8..] == "*" || Ordinary(chunk[8..])
  {
    assert SERVICE[2] == 'e' && chunk[2] == "@schema/"[2] == 'c';
  }

  lemma InputType(k: Key)
    requires Valid(k) && k.endpoint.Some?
    ensures k.ty.Some? && !("@" <= k.ty.value)
  {
    OrdinaryFree(k.ty.value);
    assert k.ty.value[0] in k.ty.value;
  }
}
