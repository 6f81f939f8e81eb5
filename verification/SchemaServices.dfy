/**
 Services across a split schema: each declared service is resolved against the catalogue, and each
 part's build emits the implementations whose request type it generates.
 */
module SchemaServices {
  import opened Prelude
  import opened Text
  import opened SchemaParts

  datatype Declared = Declared(name: string, request: string, response: string)

  /** A resolved service: indices of its request and response entries. */
  datatype Service = Service(name: string, request: nat, response: nat)

  // ----- looking aliases up -----

  predicate Answers(e: Entry, alias: string) {
    match SplitOnce(alias, "::")
    case Some((dep, rest)) => e.exposure == Dependencies(dep) && e.alias == rest
    case None => !e.exposure.Dependencies? && e.alias == alias
  }

  /** Two colons stand somewhere in `s` before position `n`. */
  ghost predicate ColonsBefore(s: string, n: nat) {
    exists i :: 0 <= i < n && i <= |s| && "::" <= s[i..]
  }

  /** An entry answers to its own alias, and one from a dependency to that with the dependency and two colons before. */
  lemma AnswersExact(e: Entry, alias: string)
    ensures Answers(e, alias) <==>
            match e.exposure
            case Dependencies(dep) => alias == dep + "::" + e.alias && !ColonsBefore(alias, |dep|)
            case _ => alias == e.alias && !ColonsBefore(alias, |alias|)
  {
    hide SplitOnce;
    SplitOnceExact(alias, "::");
    match e.exposure
    case Dependencies(dep) =>
      if alias == dep + "::" + e.alias && !ColonsBefore(alias, |dep|) { SplitOnceAt(dep, "::", e.alias); }
    case _ =>
      if SplitOnce(alias, "::").Some? {
        var (a, b) := SplitOnce(alias, "::").value;
        assert alias[|a|..] == "::" + b;
        assert ColonsBefore(alias, |alias|);
      }
  }

  /** The first entry answering to an alias. */
  function FindAlias(entries: seq<Entry>, alias: string): (r: Option<nat>)
    ensures r.Some? ==> r.value < |entries| && Answers(entries[r.value], alias)
  {
    if entries == [] then None
    else if Answers(entries[0], alias) then Some(0)
    else match FindAlias(entries[1..], alias)
      case None => None
      case Some(i) => Some(i + 1)
  }

  /** No earlier entry answers, and none at all when nothing is found. */
  lemma {:induction false} FirstAnswer(entries: seq<Entry>, alias: string, i: nat)
    requires i < (match FindAlias(entries, alias) case Some(found) => found case None => |entries|)
    ensures i < |entries| && !Answers(entries[i], alias)
  {
    hide Answers;
    if i > 0 { FirstAnswer(entries[1..], alias, i - 1); }
  }

  // ----- resolution -----

  ghost predicate Known(entries: seq<Entry>, s: Declared) {
    FindAlias(entries, s.request).Some? && FindAlias(entries, s.response).Some?
  }

  ghost function Request(entries: seq<Entry>, s: Declared): Entry
    requires Known(entries, s)
  {
    entries[FindAlias(entries, s.request).value]
  }

  ghost function Response(entries: seq<Entry>, s: Declared): Entry
    requires Known(entries, s)
  {
    entries[FindAlias(entries, s.response).value]
  }

  /** The response is visible where the request is generated. */
  predicate Placed(parts: seq<Part>, request: Entry, response: Entry) {
    || request.owner == response.owner
    || request.owner.None?
    || (PartNamed(parts, request.owner.value).Some? && response.owner.Some? &&
        response.owner.value in PartNamed(parts, request.owner.value).value.dependsOn)
  }

  ghost predicate Acceptable(services: seq<Declared>, entries: seq<Entry>, parts: seq<Part>) {
    && (forall k :: 0 <= k < |services| ==>
          Known(entries, services[k]) && Placed(parts, Request(entries, services[k]), Response(entries, services[k])))
    && (forall k, l :: 0 <= k < l < |services| ==>
          TypePath(Request(entries, services[k])) != TypePath(Request(entries, services[l])))
  }

  ghost function Resolved(services: seq<Declared>, entries: seq<Entry>): (r: seq<Service>)
    requires forall k :: 0 <= k < |services| ==> Known(entries, services[k])
    ensures |r| == |services|
  {
    seq(|services|, k requires 0 <= k < |services| && Known(entries, services[k]) =>
      Service(services[k].name, FindAlias(entries, services[k].request).value,
              FindAlias(entries, services[k].response).value))
  }

  ghost function RequestPaths(services: seq<Declared>, entries: seq<Entry>): set<string>
    requires forall k :: 0 <= k < |services| ==> Known(entries, services[k])
  {
    set k | 0 <= k < |services| :: TypePath(Request(entries, services[k]))
  }

  method ResolveServices(services: seq<Declared>, entries: seq<Entry>, parts: seq<Part>)
    returns (r: Result<seq<Service>>)
    ensures r.Ok? <==> Acceptable(services, entries, parts)
    ensures r.Ok? ==> r.value == Resolved(services, entries)
  {
    hide FindAlias, TypePath, Placed;
    var resolved: seq<Service> := [];
    var byRequest: map<string, string> := map[];
    for i := 0 to |services|
      invariant Acceptable(services[..i], entries, parts)
      invariant resolved == Resolved(services[..i], entries)
      invariant byRequest.Keys == RequestPaths(services[..i], entries)
    {
      var s := services[i];
      assert services[..i + 1] == services[..i] + [s];
      var request := FindAlias(entries, s.request);
      if request.None? { return Err; }
      var response := FindAlias(entries, s.response);
      if response.None? { return Err; }
      var path := TypePath(entries[request.value]);
      if path in byRequest {
        PathClash(services, entries, i);
        return Err;
      }
      byRequest := byRequest[path := s.name];
      if !Placed(parts, entries[request.value], entries[response.value]) { return Err; }
      AcceptNext(services, entries, parts, i);
      resolved := resolved + [Service(s.name, request.value, response.value)];
    }
    assert services[..|services|] == services;
    r := Ok(resolved);
  }

  lemma PathClash(services: seq<Declared>, entries: seq<Entry>, i: nat)
    requires i < |services| && forall k :: 0 <= k <= i ==> Known(entries, services[k])
    requires TypePath(Request(entries, services[i])) in RequestPaths(services[..i], entries)
    ensures forall parts :: !Acceptable(services, entries, parts)
  {
    var k :| 0 <= k < i && TypePath(Request(entries, services[..i][k])) == TypePath(Request(entries, services[i]));
    assert services[..i][k] == services[k];
  }

  lemma AcceptNext(services: seq<Declared>, entries: seq<Entry>, parts: seq<Part>, i: nat)
    requires i < |services| && Acceptable(services[..i], entries, parts)
    requires Known(entries, services[i]) && Placed(parts, Request(entries, services[i]), Response(entries, services[i]))
    requires TypePath(Request(entries, services[i])) !in RequestPaths(services[..i], entries)
    ensures Acceptable(services[..i + 1], entries, parts)
    ensures RequestPaths(services[..i + 1], entries) ==
            RequestPaths(services[..i], entries) + {TypePath(Request(entries, services[i]))}
  {
    hide FindAlias, TypePath, Placed;
    var a, b := services[..i], services[..i + 1];
    assert forall k :: 0 <= k < i ==> b[k] == a[k];
    assert b[i] == services[i];
    forall k | 0 <= k < i ensures TypePath(Request(entries, b[k])) != TypePath(Request(entries, b[i])) {
      assert TypePath(Request(entries, a[k])) in RequestPaths(a, entries);
    }
    forall p | p in RequestPaths(a, entries) ensures p in RequestPaths(b, entries) {
      var k :| 0 <= k < i && TypePath(Request(entries, a[k])) == p;
      assert TypePath(Request(entries, b[k])) == p;
    }
    forall p | p in RequestPaths(b, entries)
      ensures p in RequestPaths(a, entries) + {TypePath(Request(entries, services[i]))}
    {
      var k :| 0 <= k < i + 1 && TypePath(Request(entries, b[k])) == p;
      if k < i { assert TypePath(Request(entries, a[k])) == p; }
    }
    assert TypePath(Request(entries, b[i])) in RequestPaths(b, entries);
  }

  // ----- what each part's build emits -----

  /** The entries a part's build generates. */
  function Plan(entries: seq<Entry>, part: string): seq<Entry> {
    if entries == [] then []
    else (if entries[0].owner == Some(part) then [entries[0]] else []) + Plan(entries[1..], part)
  }

  function CrateIdent(name: string): string {
    if name == "" then "" else [if name[0] == '-' then '_' else name[0]] + CrateIdent(name[1..])
  }

  /** A crate's identifier is its name with underscores for dashes. */
  lemma {:induction false} CrateIdentExact(name: string)
    ensures |CrateIdent(name)| == |name|
    ensures forall i :: 0 <= i < |name| ==> CrateIdent(name)[i] == if name[i] == '-' then '_' else name[i]
  {
    if name != "" { CrateIdentExact(name[1..]); }
  }

  predicate Mine(plan: seq<Entry>, path: string) {
    exists i :: 0 <= i < |plan| && TypePath(plan[i]) == path
  }

  /** The implementation of one service in a build that generates `plan`, if it belongs there. */
  function ServiceImpl(entries: seq<Entry>, parts: seq<Part>, plan: seq<Entry>, s: Service): Option<(string, string)>
    requires s.request < |entries| && s.response < |entries|
  {
    var request, response := entries[s.request], entries[s.response];
    if !Mine(plan, TypePath(request)) then None
    else if response.owner == request.owner then Some((TypePath(request), TypePath(response)))
    else if response.owner.None? || PartNamed(parts, response.owner.value).None? then None
    else
      var crateName := PartNamed(parts, response.owner.value).value.crateName;
      Some((TypePath(request), "::" + CrateIdent(crateName) + "::" + TypePath(response)))
  }

  // ----- conservation -----

  /** An accepted multi-part workspace. */
  ghost predicate Workspace(parts: seq<Part>, canonical: string -> string, entries: seq<Entry>,
                            services: seq<Declared>)
  {
    && UniqueNames(parts) && parts != []
    && (forall i :: 0 <= i < |parts| ==> DependenciesSound(parts, parts[i]))
    && ListedOnce(parts, canonical) && Owned(parts, canonical, entries)
    && Acceptable(services, entries, parts)
  }

  lemma {:induction false} InPlan(entries: seq<Entry>, part: string, e: Entry)
    ensures e in Plan(entries, part) <==> e in entries && e.owner == Some(part)
  {
    if entries != [] {
      InPlan(entries[1..], part, e);
      assert entries == [entries[0]] + entries[1..];
    }
  }

  lemma OwnerIsPart(parts: seq<Part>, canonical: string -> string, entries: seq<Entry>, k: nat) returns (i: nat)
    requires Owned(parts, canonical, entries) && k < |entries|
    ensures i < |parts| && entries[k].owner == Some(parts[i].name)
  {
    var a, b :| IsListing(parts, a, b) && parts[a].name == entries[k].owner.value
                && canonical(parts[a].protos[b]) == canonical(entries[k].proto);
    i := a;
  }

  /** Every entry is in the plan of exactly one part. */
  lemma EntriesConserved(parts: seq<Part>, canonical: string -> string, entries: seq<Entry>, k: nat) returns (i: nat)
    requires UniqueNames(parts) && Owned(parts, canonical, entries) && k < |entries|
    ensures i < |parts|
    ensures forall j :: 0 <= j < |parts| ==> (entries[k] in Plan(entries, parts[j].name) <==> j == i)
  {
    i := OwnerIsPart(parts, canonical, entries, k);
    forall j | 0 <= j < |parts| ensures entries[k] in Plan(entries, parts[j].name) <==> j == i {
      InPlan(entries, parts[j].name, entries[k]);
      if j != i { assert parts[j].name != parts[i].name; }
    }
  }

  /** A part generates some entry with this type path. */
  ghost predicate Generates(entries: seq<Entry>, part: string, path: string) {
    exists e :: e in entries && e.owner == Some(part) && TypePath(e) == path
  }

  ghost predicate Emits(entries: seq<Entry>, parts: seq<Part>, part: string, s: Service)
    requires s.request < |entries| && s.response < |entries|
  {
    ServiceImpl(entries, parts, Plan(entries, part), s).Some?
  }

  lemma MineIsGenerates(entries: seq<Entry>, part: string, path: string)
    ensures Mine(Plan(entries, part), path) <==> Generates(entries, part, path)
  {
    var plan := Plan(entries, part);
    if i :| 0 <= i < |plan| && TypePath(plan[i]) == path {
      InPlan(entries, part, plan[i]);
      assert plan[i] in plan;
    }
    if Generates(entries, part, path) {
      var e :| e in entries && e.owner == Some(part) && TypePath(e) == path;
      InPlan(entries, part, e);
      var i :| 0 <= i < |plan| && plan[i] == e;
    }
  }

  /** Emission never drops a service: a part emits it exactly when it generates the request's type path. */
  lemma EmittedWhereGenerated(parts: seq<Part>, canonical: string -> string, entries: seq<Entry>,
                              services: seq<Declared>, k: nat, j: nat)
    requires Workspace(parts, canonical, entries, services) && k < |services| && j < |parts|
    ensures Emits(entries, parts, parts[j].name, Resolved(services, entries)[k]) <==>
            Generates(entries, parts[j].name, TypePath(Request(entries, services[k])))
  {
    hide TypePath, DependenciesSound, ListedOnce, FindAlias, CrateIdent, Plan, Mine, Generates, PartNamed;
    var s := Resolved(services, entries)[k];
    MineIsGenerates(entries, parts[j].name, TypePath(entries[s.request]));
    var i := OwnerIsPart(parts, canonical, entries, s.response);
    PartNamedUnique(parts, i);
  }

  /** All entries of a type path live in one part. */
  ghost predicate OneHome(entries: seq<Entry>, path: string) {
    forall e, f :: e in entries && f in entries && TypePath(e) == path && TypePath(f) == path ==> e.owner == f.owner
  }

  /**
   A service is emitted by exactly one part if and only if all entries of its request's type path live in one part;
   then the emitting part is the request's owner, and a response owned elsewhere belongs to one of that part's
   declared dependencies.
   */
  lemma ServicesConserved(parts: seq<Part>, canonical: string -> string, entries: seq<Entry>, services: seq<Declared>,
                          k: nat)
    returns (i: nat)
    requires Workspace(parts, canonical, entries, services) && k < |services|
    ensures i < |parts| && Request(entries, services[k]).owner == Some(parts[i].name)
    ensures Emits(entries, parts, parts[i].name, Resolved(services, entries)[k])
    ensures (forall j :: 0 <= j < |parts| ==>
               (Emits(entries, parts, parts[j].name, Resolved(services, entries)[k]) ==> j == i))
            <==> OneHome(entries, TypePath(Request(entries, services[k])))
    ensures Response(entries, services[k]).owner != Some(parts[i].name) ==>
              Response(entries, services[k]).owner.Some?
              && Response(entries, services[k]).owner.value in parts[i].dependsOn
  {
    var request, s := Request(entries, services[k]), Resolved(services, entries)[k];
    var path := TypePath(request);
    i := OwnerIsPart(parts, canonical, entries, s.request);
    PartNamedUnique(parts, i);
    assert request in entries;
    assert Generates(entries, parts[i].name, path);
    EmittedWhereGenerated(parts, canonical, entries, services, k, i);
    hide Emits, TypePath;
    if OneHome(entries, path) {
      forall j | 0 <= j < |parts| && Emits(entries, parts, parts[j].name, s) ensures j == i {
        EmittedWhereGenerated(parts, canonical, entries, services, k, j);
        var e :| e in entries && e.owner == Some(parts[j].name) && TypePath(e) == path;
        SameNameSamePart(parts, i, j);
      }
    } else {
      var e, f :| e in entries && f in entries && TypePath(e) == path && TypePath(f) == path && e.owner != f.owner;
      var g := if e.owner != request.owner then e else f;
      var n :| 0 <= n < |entries| && entries[n] == g;
      var j := OwnerIsPart(parts, canonical, entries, n);
      EmittedWhereGenerated(parts, canonical, entries, services, k, j);
      assert Generates(entries, parts[j].name, path);
      assert j != i;
    }
  }

  lemma SameNameSamePart(parts: seq<Part>, i: nat, j: nat)
    requires UniqueNames(parts) && i < |parts| && j < |parts| && parts[i].name == parts[j].name
    ensures i == j
  {
  }

  /** If a type path determines its proto file, every type path has one home, so every service has one emitter. */
  lemma PathsDetermineHomes(parts: seq<Part>, canonical: string -> string, entries: seq<Entry>, path: string)
    requires ListedOnce(parts, canonical) && Owned(parts, canonical, entries)
    requires forall e, f :: e in entries && f in entries && TypePath(e) == TypePath(f) ==>
              canonical(e.proto) == canonical(f.proto)
    ensures OneHome(entries, path)
  {
    hide TypePath;
    forall e, f | e in entries && f in entries && TypePath(e) == path && TypePath(f) == path
      ensures e.owner == f.owner
    {
      var i :| 0 <= i < |entries| && entries[i] == e;
      var j :| 0 <= j < |entries| && entries[j] == f;
      OneOwner(parts, canonical, e.owner.value, f.owner.value, canonical(e.proto));
    }
  }

  // ----- a type path with two homes -----

  const TWO_PARTS := [Part("a", "a-schema", ["x.proto"], []), Part("b", "b-schema", ["y.proto"], [])]
  const TWO_ENTRIES := [
    Entry("Left", ["p"], "M", SharedTypes, "x.proto", Some("a")),
    Entry("Right", ["p"], "M", SharedTypes, "y.proto", Some("b"))]
  const ONE_SERVICE := [Declared("Call", "Left", "Left")]

  lemma ExampleParts()
    ensures UniqueNames(TWO_PARTS) && forall i :: 0 <= i < |TWO_PARTS| ==> DependenciesSound(TWO_PARTS, TWO_PARTS[i])
  {
    forall i | 0 <= i < |TWO_PARTS| ensures DependenciesSound(TWO_PARTS, TWO_PARTS[i]) {
      SoundMeans(TWO_PARTS, i);
    }
  }

  lemma ExampleOwners()
    ensures ListedOnce(TWO_PARTS, f => f) && Owned(TWO_PARTS, f => f, TWO_ENTRIES)
  {
    assert TWO_PARTS[0].protos[0] != TWO_PARTS[1].protos[0];
    assert IsListing(TWO_PARTS, 0, 0) && IsListing(TWO_PARTS, 1, 0);
  }

  lemma ExampleAlias()
    ensures FindAlias(TWO_ENTRIES, "Left") == Some(0)
  {
    var e := TWO_ENTRIES[0];
    AnswersExact(e, "Left");
    forall i | 0 <= i < 4 ensures !("::" <= "Left"[i..]) { assert "Left"[i..][0] == "Left"[i]; }
  }

  /** Two parts whose different protos define one type path: the accepted service is emitted by both. */
  lemma EmittedTwice()
    ensures Workspace(TWO_PARTS, f => f, TWO_ENTRIES, ONE_SERVICE)
    ensures !OneHome(TWO_ENTRIES, TypePath(TWO_ENTRIES[0]))
    ensures Emits(TWO_ENTRIES, TWO_PARTS, "a", Service("Call", 0, 0))
    ensures Emits(TWO_ENTRIES, TWO_PARTS, "b", Service("Call", 0, 0))
  {
    ExampleParts();
    ExampleOwners();
    ExampleAlias();
    hide DependenciesSound, ListedOnce, Owned, FindAlias, UniqueNames, PathFrom;
    var left, right := TWO_ENTRIES[0], TWO_ENTRIES[1];
    assert left in TWO_ENTRIES && right in TWO_ENTRIES && TypePath(left) == TypePath(right);
    assert Workspace(TWO_PARTS, f => f, TWO_ENTRIES, ONE_SERVICE);
    assert Resolved(ONE_SERVICE, TWO_ENTRIES)[0] == Service("Call", 0, 0);
    assert Generates(TWO_ENTRIES, "a", TypePath(left)) && Generates(TWO_ENTRIES, "b", TypePath(left));
    EmittedWhereGenerated(TWO_PARTS, f => f, TWO_ENTRIES, ONE_SERVICE, 0, 0);
    EmittedWhereGenerated(TWO_PARTS, f => f, TWO_ENTRIES, ONE_SERVICE, 0, 1);
  }
}
