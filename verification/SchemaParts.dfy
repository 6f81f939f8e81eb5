/**
 Splitting a schema into crates: the declared dependencies between parts, who owns which type, and
 which part emits which service implementation.
 */
module SchemaParts {
  import opened Prelude
  import opened Graph

  datatype Part = Part(name: string, crateName: string, protos: seq<string>, dependsOn: seq<string>)

  /** Parts come from the keys of a map, so their names differ. */
  predicate UniqueNames(parts: seq<Part>) {
    forall i, j :: 0 <= i < j < |parts| ==> parts[i].name != parts[j].name
  }

  // ----- dependencies -----

  datatype Refusal = SelfDependency | UnknownPart | Cycle | NotClosed

  predicate IsPart(parts: seq<Part>, name: string) {
    exists i :: 0 <= i < |parts| && parts[i].name == name
  }

  function PartNamed(parts: seq<Part>, name: string): Option<Part> {
    if parts == [] then None
    else if parts[0].name == name then Some(parts[0])
    else PartNamed(parts[1..], name)
  }

  function Depends(parts: seq<Part>): Graph<string> {
    var names := set i | 0 <= i < |parts| :: parts[i].name;
    map n | n in names :: if PartNamed(parts, n).Some? then PartNamed(parts, n).value.dependsOn else []
  }

  ghost function Listed(names: seq<string>): set<string> {
    set n | n in names
  }

  /** Whatever a part reaches through dependencies is a part, is not itself, and is declared by it directly. */
  ghost predicate DependenciesSound(parts: seq<Part>, p: Part) {
    forall n :: ReachPlus(Depends(parts), p.name, n) ==> IsPart(parts, n) && n != p.name && n in p.dependsOn
  }

  lemma {:induction false} PartNamedUnique(parts: seq<Part>, i: nat)
    requires UniqueNames(parts) && i < |parts|
    ensures PartNamed(parts, parts[i].name) == Some(parts[i])
  {
    if i > 0 {
      assert parts[0].name != parts[i].name;
      assert parts[1..][i - 1] == parts[i];
      assert UniqueNames(parts[1..]) by {
        forall a, b | 0 <= a < b < |parts[1..]| ensures parts[1..][a].name != parts[1..][b].name {
          assert parts[a + 1].name != parts[b + 1].name;
        }
      }
      PartNamedUnique(parts[1..], i - 1);
    }
  }

  lemma NextIsDependsOn(parts: seq<Part>, i: nat)
    requires UniqueNames(parts) && i < |parts|
    ensures Next(Depends(parts), parts[i].name) == parts[i].dependsOn
  {
    PartNamedUnique(parts, i);
  }

  /** The closure walk of one part: does following dependencies ever leave the declared list, or come back? */
  method Walk(parts: seq<Part>, me: string, dependsOn: seq<string>) returns (r: Option<Refusal>)
    ensures r.None? <==> me !in dependsOn && Closed(Depends(parts), Listed(dependsOn))
    ensures r.Some? ==> r.value == NotClosed || (r.value == Cycle && me in dependsOn)
    ensures r == Some(NotClosed) ==> !Closed(Depends(parts), Listed(dependsOn))
  {
    var byName := Depends(parts);
    var declared := Listed(dependsOn);
    var stack := dependsOn;
    var seen: seq<string> := [];
    while stack != []
      invariant Listed(stack) <= declared && Listed(seen) <= declared && me !in seen
      invariant declared <= Listed(stack) + Listed(seen)
      invariant forall n :: n in seen ==> Listed(Next(byName, n)) <= declared
      decreases declared - Listed(seen), |stack|
    {
      var current := stack[|stack| - 1];
      var rest := stack[..|stack| - 1];
      ListedPop(stack);
      stack := rest;
      if current == me { return Some(Cycle); }
      if current in seen { continue; }
      ghost var before := seen;
      seen := seen + [current];
      ListedSnoc(before, current);
      var ok;
      ok, stack := Push(Next(byName, current), dependsOn, stack);
      if !ok { return Some(NotClosed); }
    }
    r := None;
    assert stack == [];
    assert declared <= Listed(seen);
    assert me in dependsOn ==> me in declared;
    assert Closed(byName, declared) by {
      forall n, m | n in declared && m in Next(byName, n) ensures m in declared {
        assert n in seen && m in Listed(Next(byName, n));
      }
    }
  }

  lemma ListedSnoc(names: seq<string>, n: string)
    ensures Listed(names + [n]) == Listed(names) + {n}
  {
  }

  lemma ListedPop(stack: seq<string>)
    requires stack != []
    ensures Listed(stack) == Listed(stack[..|stack| - 1]) + {stack[|stack| - 1]}
  {
    assert stack == stack[..|stack| - 1] + [stack[|stack| - 1]];
  }

  method Push(next: seq<string>, dependsOn: seq<string>, stack: seq<string>) returns (ok: bool, stack': seq<string>)
    ensures ok <==> Listed(next) <= Listed(dependsOn)
    ensures ok ==> Listed(stack') == Listed(stack) + Listed(next)
  {
    stack' := stack;
    for i := 0 to |next|
      invariant Listed(next[..i]) <= Listed(dependsOn)
      invariant Listed(stack') == Listed(stack) + Listed(next[..i])
    {
      if next[i] !in dependsOn {
        assert next[i] in Listed(next) && next[i] !in Listed(dependsOn);
        return false, stack';
      }
      assert next[..i + 1] == next[..i] + [next[i]];
      ListedSnoc(next[..i], next[i]);
      ListedSnoc(stack', next[i]);
      stack' := stack' + [next[i]];
    }
    assert next[..|next|] == next;
    ok := true;
  }

  /**
   Accepts exactly the relations that are total on parts, irreflexive, acyclic and transitively closed. The cycle
   branch of the walk is never taken here: a cycle is always refused earlier, as a missing closure edge.
   */
  method ValidateDepends(parts: seq<Part>) returns (r: Option<Refusal>)
    requires UniqueNames(parts)
    ensures r.None? <==> forall i :: 0 <= i < |parts| ==> DependenciesSound(parts, parts[i])
    ensures r != Some(Cycle)
    ensures r == Some(SelfDependency) ==> exists i :: 0 <= i < |parts| && parts[i].name in parts[i].dependsOn
    ensures r == Some(UnknownPart) ==>
              exists i, n :: 0 <= i < |parts| && n in parts[i].dependsOn && !IsPart(parts, n)
    ensures r == Some(NotClosed) ==> exists i :: 0 <= i < |parts| && MissesEdge(parts, parts[i])
  {
    hide DependenciesSound, IsPart, MissesEdge;
    for i := 0 to |parts|
      invariant forall k :: 0 <= k < i ==> DependenciesSound(parts, parts[k])
    {
      r := ValidatePart(parts, i);
      if r.Some? { return; }
    }
    r := None;
  }

  method ValidatePart(parts: seq<Part>, i: nat) returns (r: Option<Refusal>)
    requires UniqueNames(parts) && i < |parts|
    ensures r.None? <==> DependenciesSound(parts, parts[i])
    ensures r != Some(Cycle)
    ensures r == Some(SelfDependency) ==> parts[i].name in parts[i].dependsOn
    ensures r == Some(UnknownPart) ==> exists n :: n in parts[i].dependsOn && !IsPart(parts, n)
    ensures r == Some(NotClosed) ==> MissesEdge(parts, parts[i])
  {
    hide DependenciesSound, Depends, Closed, Listed, IsPart, MissesEdge;
    var p := parts[i];
    SoundMeans(parts, i);
    for j := 0 to |p.dependsOn|
      invariant forall k :: 0 <= k < j ==> p.dependsOn[k] != p.name && IsPart(parts, p.dependsOn[k])
    {
      if p.dependsOn[j] == p.name { return Some(SelfDependency); }
      if !IsPart(parts, p.dependsOn[j]) { return Some(UnknownPart); }
    }
    r := Walk(parts, p.name, p.dependsOn);
    if r == Some(NotClosed) { NotClosedMisses(parts, p); }
  }

  /** A dependency of a declared dependency is not declared. */
  ghost predicate MissesEdge(parts: seq<Part>, p: Part) {
    exists n, m :: n in p.dependsOn && m in Next(Depends(parts), n) && m !in p.dependsOn
  }

  lemma NotClosedMisses(parts: seq<Part>, p: Part)
    requires !Closed(Depends(parts), Listed(p.dependsOn))
    ensures MissesEdge(parts, p)
  {
    hide Depends;
    var n :| n in Listed(p.dependsOn) && !(forall m :: m in Next(Depends(parts), n) ==> m in Listed(p.dependsOn));
    var m :| m in Next(Depends(parts), n) && m !in Listed(p.dependsOn);
  }

  /** One part's share of soundness, as the walk sees it. */
  lemma SoundMeans(parts: seq<Part>, i: nat)
    requires UniqueNames(parts) && i < |parts|
    ensures DependenciesSound(parts, parts[i]) <==>
            && parts[i].name !in parts[i].dependsOn
            && (forall n :: n in parts[i].dependsOn ==> IsPart(parts, n))
            && Closed(Depends(parts), Listed(parts[i].dependsOn))
  {
    var g, p := Depends(parts), parts[i];
    var declared := Listed(p.dependsOn);
    NextIsDependsOn(parts, i);
    if DependenciesSound(parts, p) {
      forall n | n in p.dependsOn ensures IsPart(parts, n) && n != p.name {
        ReachSelf(g, n);
      }
      forall n, m | n in declared && m in Next(g, n) ensures m in declared {
        ReachSelf(g, m);
        ReachCons(g, n, m, m);
        assert n in Next(g, p.name) && Reach(g, n, m);
      }
    } else {
      var n :| ReachPlus(g, p.name, n) && !(IsPart(parts, n) && n != p.name && n in p.dependsOn);
      if Closed(g, declared) {
        var m :| m in Next(g, p.name) && Reach(g, m, n);
        ClosedReach(g, declared, m, n);
      }
    }
  }

  // ----- ownership -----

  datatype Exposure = ExportedTypes | SharedTypes | Dependencies(name: string)

  datatype Entry = Entry(alias: string, package: seq<string>, ident: string, exposure: Exposure, proto: string,
                         owner: Option<string>)

  function PathFrom(prefix: string, segments: seq<string>): string
    decreases |segments|
  {
    if segments == [] then prefix else PathFrom(prefix + "::" + segments[0], segments[1..])
  }

  /** The Rust path of an entry inside the generated module. */
  function TypePath(e: Entry): string {
    PathFrom("__pb", e.package + [e.ident])
  }

  /** Each segment of a path follows two colons. */
  lemma {:induction false} PathFromSnoc(prefix: string, segments: seq<string>, last: string)
    ensures PathFrom(prefix, []) == prefix
    ensures PathFrom(prefix, segments + [last]) == PathFrom(prefix, segments) + "::" + last
    decreases |segments|
  {
    if segments == [] {
      assert [last][1..] == [] && segments + [last] == [last];
    } else {
      assert (segments + [last])[1..] == segments[1..] + [last];
      PathFromSnoc(prefix + "::" + segments[0], segments[1..], last);
    }
  }

  /** Listing `(i, j)`: the `j`th proto of part `i`. */
  ghost predicate IsListing(parts: seq<Part>, i: int, j: int) {
    0 <= i < |parts| && 0 <= j < |parts[i].protos|
  }

  /** No proto file is listed twice, even under different spellings. */
  ghost predicate ListedOnce(parts: seq<Part>, canonical: string -> string) {
    forall i, j, k, l :: IsListing(parts, i, j) && IsListing(parts, k, l) && (i, j) != (k, l) ==>
      canonical(parts[i].protos[j]) != canonical(parts[k].protos[l])
  }

  ghost predicate Owns(parts: seq<Part>, canonical: string -> string, name: string, file: string) {
    exists i, j :: IsListing(parts, i, j) && parts[i].name == name && canonical(parts[i].protos[j]) == file
  }

  ghost predicate HasOwner(parts: seq<Part>, canonical: string -> string, file: string) {
    exists n :: Owns(parts, canonical, n, file)
  }

  /** What the table of owners holds after the first `n` parts and `m` protos of the next one. */
  ghost predicate Table(parts: seq<Part>, canonical: string -> string, n: nat, m: nat, table: map<string, string>) {
    && n <= |parts| && (m > 0 ==> n < |parts| && m <= |parts[n].protos|)
    && (forall f :: f in table <==> exists i, j :: Before(parts, n, m, i, j) && canonical(parts[i].protos[j]) == f)
    && (forall i, j :: Before(parts, n, m, i, j) ==> table[canonical(parts[i].protos[j])] == parts[i].name)
    && (forall i, j, k, l :: Before(parts, n, m, i, j) && Before(parts, n, m, k, l) && (i, j) != (k, l) ==>
          canonical(parts[i].protos[j]) != canonical(parts[k].protos[l]))
  }

  ghost predicate Before(parts: seq<Part>, n: nat, m: nat, i: int, j: int) {
    IsListing(parts, i, j) && (i < n || (i == n && j < m))
  }

  /** Which part owns each proto file; fails if any file is listed twice. */
  method OwnerTable(parts: seq<Part>, canonical: string -> string) returns (ok: bool, table: map<string, string>)
    ensures ok <==> ListedOnce(parts, canonical)
    ensures ok ==> forall f :: f in table ==> Owns(parts, canonical, table[f], f)
    ensures ok ==> forall f :: f in table <==> HasOwner(parts, canonical, f)
  {
    table := map[];
    for n := 0 to |parts|
      invariant Table(parts, canonical, n, 0, table)
    {
      hide Table;
      for m := 0 to |parts[n].protos|
        invariant Table(parts, canonical, n, m, table)
      {
        var key := canonical(parts[n].protos[m]);
        if key in table {
          TableClash(parts, canonical, n, m, table);
          return false, table;
        }
        TableNext(parts, canonical, n, m, table);
        table := table[key := parts[n].name];
      }
      TableTurn(parts, canonical, n, table);
    }
    ok := true;
    TableDone(parts, canonical, table);
  }

  lemma TableClash(parts: seq<Part>, canonical: string -> string, n: nat, m: nat, table: map<string, string>)
    requires Table(parts, canonical, n, m, table) && IsListing(parts, n, m)
    requires canonical(parts[n].protos[m]) in table
    ensures !ListedOnce(parts, canonical)
  {
    var i, j :| Before(parts, n, m, i, j) && canonical(parts[i].protos[j]) == canonical(parts[n].protos[m]);
    assert IsListing(parts, i, j) && (i, j) != (n, m);
  }

  lemma TableNext(parts: seq<Part>, canonical: string -> string, n: nat, m: nat, table: map<string, string>)
    requires Table(parts, canonical, n, m, table) && IsListing(parts, n, m)
    requires canonical(parts[n].protos[m]) !in table
    ensures Table(parts, canonical, n, m + 1, table[canonical(parts[n].protos[m]) := parts[n].name])
  {
    var key := canonical(parts[n].protos[m]);
    var table' := table[key := parts[n].name];
    assert forall i, j :: Before(parts, n, m + 1, i, j) <==> Before(parts, n, m, i, j) || (i == n && j == m);
    assert Before(parts, n, m + 1, n, m);
    forall f
      ensures f in table' <==> exists i, j :: Before(parts, n, m + 1, i, j) && canonical(parts[i].protos[j]) == f
    {
      if f in table {
        var i, j :| Before(parts, n, m, i, j) && canonical(parts[i].protos[j]) == f;
        assert Before(parts, n, m + 1, i, j);
      }
    }
    forall i, j | Before(parts, n, m, i, j) ensures canonical(parts[i].protos[j]) != key {
      assert canonical(parts[i].protos[j]) in table;
    }
  }

  lemma TableTurn(parts: seq<Part>, canonical: string -> string, n: nat, table: map<string, string>)
    requires n < |parts| && Table(parts, canonical, n, |parts[n].protos|, table)
    ensures Table(parts, canonical, n + 1, 0, table)
  {
    assert forall i, j :: Before(parts, n + 1, 0, i, j) <==> Before(parts, n, |parts[n].protos|, i, j);
  }

  lemma TableDone(parts: seq<Part>, canonical: string -> string, table: map<string, string>)
    requires Table(parts, canonical, |parts|, 0, table)
    ensures ListedOnce(parts, canonical)
    ensures forall f :: f in table ==> Owns(parts, canonical, table[f], f)
    ensures forall f :: f in table <==> HasOwner(parts, canonical, f)
  {
    assert forall i, j :: Before(parts, |parts|, 0, i, j) <==> IsListing(parts, i, j);
    forall f | f in table ensures Owns(parts, canonical, table[f], f) {
      var i, j :| Before(parts, |parts|, 0, i, j) && canonical(parts[i].protos[j]) == f;
    }
    forall f | HasOwner(parts, canonical, f) ensures f in table {
      var n :| Owns(parts, canonical, n, f);
      var i, j :| IsListing(parts, i, j) && parts[i].name == n && canonical(parts[i].protos[j]) == f;
    }
  }

  /** Every entry is owned by the part that lists its proto. */
  ghost predicate Owned(parts: seq<Part>, canonical: string -> string, entries: seq<Entry>) {
    forall k :: 0 <= k < |entries| ==>
      entries[k].owner.Some? && Owns(parts, canonical, entries[k].owner.value, canonical(entries[k].proto))
  }

  ghost predicate SameButOwner(a: Entry, b: Entry) {
    a == b.(owner := a.owner)
  }

  /** Writes each entry's owner; an unpartitioned workspace is left alone. */
  method AssignOwners(entries: array<Entry>, parts: seq<Part>, canonical: string -> string) returns (ok: bool)
    modifies entries
    ensures ok <==> parts == [] ||
                    (ListedOnce(parts, canonical) &&
                     forall k :: 0 <= k < entries.Length ==>
                       HasOwner(parts, canonical, canonical(old(entries[k].proto))))
    ensures parts == [] ==> entries[..] == old(entries[..])
    ensures ok && parts != [] ==> Owned(parts, canonical, entries[..])
    ensures forall k :: 0 <= k < entries.Length ==> SameButOwner(entries[k], old(entries[k]))
  {
    if parts == [] { return true; }
    var table;
    ok, table := OwnerTable(parts, canonical);
    if !ok { return; }
    for i := 0 to entries.Length
      invariant forall k :: 0 <= k < entries.Length ==> SameButOwner(entries[k], old(entries[k]))
      invariant forall k :: 0 <= k < i ==>
                  && canonical(entries[k].proto) in table
                  && entries[k].owner == Some(table[canonical(entries[k].proto)])
    {
      hide Owns, ListedOnce;
      var key := canonical(entries[i].proto);
      if key !in table {
        assert key == canonical(old(entries[i].proto));
        return false;
      }
      entries[i] := entries[i].(owner := Some(table[key]));
    }
    ok := true;
    forall k | 0 <= k < entries.Length
      ensures entries[k].owner.Some? && Owns(parts, canonical, entries[k].owner.value, canonical(entries[k].proto))
    {
      assert canonical(entries[k].proto) in table;
    }
    forall k | 0 <= k < entries.Length ensures HasOwner(parts, canonical, canonical(old(entries[k].proto))) {
      assert canonical(entries[k].proto) == canonical(old(entries[k].proto));
    }
  }

  /** A file has one owner: with every file listed once, ownership is a function of the file. */
  lemma OneOwner(parts: seq<Part>, canonical: string -> string, a: string, b: string, file: string)
    requires ListedOnce(parts, canonical) && Owns(parts, canonical, a, file) && Owns(parts, canonical, b, file)
    ensures a == b
  {
    var i, j :| IsListing(parts, i, j) && parts[i].name == a && canonical(parts[i].protos[j]) == file;
    var k, l :| IsListing(parts, k, l) && parts[k].name == b && canonical(parts[k].protos[l]) == file;
    assert (i, j) == (k, l);
  }
}
