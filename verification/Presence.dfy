/**
 Presence over shared memory: names that carry a key through a restricted alphabet, and a poll whose
 differences form, for each watcher, an event log of the set of matching live keys.
 */
module Presence {
  import opened Prelude
  import opened Keys

  // ----- names -----

  function Replace(s: string, c: char, code: string): string {
    if s == "" then "" else (if s[0] == c then code else [s[0]]) + Replace(s[1..], c, code)
  }

  const PREFIX := "reiny-alive/"

  /** The two replacement passes, in order. */
  function Escape(text: string): string {
    Replace(Replace(text, '_', "_us_"), '@', "_at_")
  }

  function AliveName(k: Key): string {
    PREFIX + Escape(Print(k))
  }

  /** One character's code. */
  function Code(c: char): string {
    if c == '_' then "_us_" else if c == '@' then "_at_" else [c]
  }

  function Encode(text: string): string {
    if text == "" then "" else Code(text[0]) + Encode(text[1..])
  }

  function Decode(encoded: string): string
    decreases |encoded|
  {
    if encoded == "" then ""
    else if "_at_" <= encoded then "@" + Decode(encoded[4..])
    else if "_us_" <= encoded then "_" + Decode(encoded[4..])
    else [encoded[0]] + Decode(encoded[1..])
  }

  lemma {:induction false} ReplaceConcat(a: string, b: string, c: char, code: string)
    ensures Replace(a + b, c, code) == Replace(a, c, code) + Replace(b, c, code)
  {
    if a == "" {
      assert a + b == b;
    } else {
      assert (a + b)[1..] == a[1..] + b;
      ReplaceConcat(a[1..], b, c, code);
    }
  }

  lemma ReplaceCode(c: char)
    ensures Replace(if c == '_' then "_us_" else [c], '@', "_at_") == Code(c)
  {
    if c == '_' {
      assert "_us_"[1..] == "us_" && "us_"[1..] == "s_" && "s_"[1..] == "_" && "_"[1..] == "";
      assert Replace("s_", '@', "_at_") == "s_";
      assert Replace("us_", '@', "_at_") == "us_";
    } else {
      assert [c][1..] == "";
    }
  }

  /** The two passes together are one code per character, and no at sign is left. */
  lemma {:induction false} EscapeIsEncode(text: string)
    ensures Escape(text) == Encode(text)
    ensures '@' !in Escape(text)
  {
    if text != "" {
      EscapeIsEncode(text[1..]);
      ReplaceConcat(if text[0] == '_' then "_us_" else [text[0]], Replace(text[1..], '_', "_us_"), '@', "_at_");
      ReplaceCode(text[0]);
    }
  }

  /** The greedy decoder recovers every text, including one that already contains the codes. */
  lemma {:induction false} DecodeEncode(text: string)
    ensures Decode(Encode(text)) == text
  {
    if text != "" {
      var rest := Encode(text[1..]);
      DecodeEncode(text[1..]);
      var e := Code(text[0]) + rest;
      if text[0] == '_' {
        assert e[..4] == "_us_" && e[4..] == rest;
        assert e[1] == 'u';
      } else if text[0] == '@' {
        assert e[..4] == "_at_" && e[4..] == rest;
      } else {
        assert e[0] == text[0] && e[1..] == rest;
      }
      assert text == [text[0]] + text[1..];
    }
  }

  lemma EscapeInjective(a: string, b: string)
    requires Escape(a) == Escape(b)
    ensures a == b
  {
    EscapeIsEncode(a);
    EscapeIsEncode(b);
    DecodeEncode(a);
    DecodeEncode(b);
  }

  /** The character an encoded text starts with, and what follows its code. */
  lemma DecodeHead(encoded: string)
    requires encoded != ""
    ensures Decode(encoded) ==
            if "_at_" <= encoded then "@" + Decode(encoded[4..])
            else if "_us_" <= encoded then "_" + Decode(encoded[4..])
            else [encoded[0]] + Decode(encoded[1..])
  {}

  lemma DecodeNothing()
    ensures Decode("") == ""
  {}

  method DecodeName(name: string) returns (text: string)
    ensures text == Decode(name)
  {
    hide Decode;
    var encoded := name;
    text := "";
    assert "" + Decode(name) == Decode(name);
    while encoded != ""
      invariant text + Decode(encoded) == Decode(name)
      decreases |encoded|
    {
      DecodeHead(encoded);
      ghost var rest := Decode(encoded);
      var c: char;
      if "_at_" <= encoded {
        c := '@';
        encoded := encoded[4..];
      } else if "_us_" <= encoded {
        c := '_';
        encoded := encoded[4..];
      } else {
        c := encoded[0];
        encoded := encoded[1..];
      }
      assert text + rest == (text + [c]) + Decode(encoded);
      text := text + [c];
    }
    DecodeNothing();
  }

  method ParseAlive(name: string) returns (k: Option<Key>)
    ensures k == if PREFIX <= name then Parse(Decode(name[|PREFIX|..])) else None
  {
    hide Parse, Decode;
    if !(PREFIX <= name) { return None; }
    var text := DecodeName(name[|PREFIX|..]);
    k := Parse(text);
  }

  /** What `ParseAlive` reads in the name of a valid key is that key. */
  lemma AliveRoundTrip(k: Key)
    requires Valid(k)
    ensures PREFIX <= AliveName(k) && Parse(Decode(AliveName(k)[|PREFIX|..])) == Some(k)
  {
    var e := Escape(Print(k));
    assert (PREFIX + e)[|PREFIX|..] == e;
    EscapeIsEncode(Print(k));
    DecodeEncode(Print(k));
    ParsePrint(k);
  }

  // ----- event logs -----

  datatype Event = Joined(key: Key) | Left(key: Key)

  /** The set an event log describes, if joins and leaves of each key alternate, starting with a join. */
  function Replay(log: seq<Event>): Option<set<Key>> {
    if log == [] then Some({})
    else
      var last := log[|log| - 1];
      match Replay(log[..|log| - 1])
      case None => None
      case Some(s) =>
        if last.Joined? then (if last.key in s then None else Some(s + {last.key}))
        else (if last.key in s then Some(s - {last.key}) else None)
  }

  /** The events of one key: `true` for a join. */
  function Turns(log: seq<Event>, k: Key): seq<bool> {
    if log == [] then []
    else Turns(log[..|log| - 1], k) + (if log[|log| - 1].key == k then [log[|log| - 1].Joined?] else [])
  }

  /** A log that replays alternates per key, starting with Joined; a key is present after an odd number of events. */
  lemma {:induction false} ReplayAlternates(log: seq<Event>, k: Key)
    requires Replay(log).Some?
    ensures forall i :: 0 <= i < |Turns(log, k)| ==> (Turns(log, k)[i] <==> i % 2 == 0)
    ensures k in Replay(log).value <==> |Turns(log, k)| % 2 == 1
  {
    if log != [] {
      ReplayAlternates(log[..|log| - 1], k);
    }
  }

  lemma ReplaySnoc(log: seq<Event>, e: Event)
    ensures Replay(log + [e]) ==
            match Replay(log)
            case None => None
            case Some(s) =>
              if e.Joined? then (if e.key in s then None else Some(s + {e.key}))
              else (if e.key in s then Some(s - {e.key}) else None)
  {
    assert (log + [e])[..|log|] == log;
  }

  // ----- the polling thread -----

  datatype Watcher = Watcher(id: nat, pattern: Key, known: set<Key>)

  function Matching(pattern: Key, alive: set<Key>): set<Key> {
    set k | k in alive && Matches(pattern, k)
  }

  ghost predicate OnlyMatching(log: seq<Event>, pattern: Key) {
    forall i :: 0 <= i < |log| ==> Matches(pattern, log[i].key)
  }

  /** A watcher's log so far is well formed, speaks of matching keys only, and describes `known`. */
  ghost predicate Describes(log: seq<Event>, pattern: Key, known: set<Key>) {
    OnlyMatching(log, pattern) && Replay(log) == Some(known) && forall k :: k in known ==> Matches(pattern, k)
  }

  /** Watchers have their own identities, all given out already. */
  ghost predicate Identified(entries: seq<Watcher>, nextId: nat) {
    && (forall i :: 0 <= i < |entries| ==> entries[i].id < nextId)
    && (forall i, j :: 0 <= i < j < |entries| ==> entries[i].id != entries[j].id)
  }

  /** Every log ever started replays, and speaks of its own watcher's keys only. */
  ghost predicate LogsReplay(delivered: map<nat, seq<Event>>, patterns: map<nat, Key>, nextId: nat) {
    && (forall n: nat :: n in delivered <==> n < nextId) && (forall n: nat :: n in patterns <==> n < nextId)
    && (forall n: nat :: n in delivered ==> OnlyMatching(delivered[n], patterns[n]) && Replay(delivered[n]).Some?)
  }

  ghost predicate LogDescribes(w: Watcher, delivered: map<nat, seq<Event>>, patterns: map<nat, Key>) {
    && w.id in patterns && patterns[w.id] == w.pattern
    && w.id in delivered && Describes(delivered[w.id], w.pattern, w.known)
  }

  class Watchers {
    var entries: seq<Watcher>
    var nextId: nat
    /** What each watcher's callback has received, kept after the watcher is gone. */
    var delivered: map<nat, seq<Event>>
    ghost var patterns: map<nat, Key>

    ghost predicate Consistent()
      reads this
    {
      && Identified(entries, nextId) && LogsReplay(delivered, patterns, nextId)
      && (forall i :: 0 <= i < |entries| ==> LogDescribes(entries[i], delivered, patterns))
    }

    constructor ()
      ensures Consistent() && entries == [] && delivered == map[] && nextId == 0
    {
      entries, nextId, delivered, patterns := [], 0, map[], map[];
    }

    /** A new watcher of a valid pattern knows nothing and has received nothing. */
    method Watch(pattern: Key) returns (id: Option<nat>)
      requires Consistent()
      modifies this
      ensures Consistent() && (id.Some? <==> Valid(pattern))
      ensures id.None? ==> entries == old(entries) && delivered == old(delivered) && nextId == old(nextId)
      ensures id.Some? ==> id.value == old(nextId) && nextId == id.value + 1
                           && entries == old(entries) + [Watcher(id.value, pattern, {})]
                           && delivered == old(delivered)[id.value := []]
    {
      hide Matches, Replay, Valid;
      if !Valid(pattern) { return None; }
      EmptyLog(pattern);
      entries := entries + [Watcher(nextId, pattern, {})];
      delivered := delivered[nextId := []];
      patterns := patterns[nextId := pattern];
      nextId := nextId + 1;
      id := Some(nextId - 1);
    }

    /** Dropping a guard removes its own watcher and no other, and delivers nothing. */
    method Drop(id: nat)
      requires Consistent()
      modifies this`entries
      ensures Consistent()
      ensures forall w :: w in entries <==> w in old(entries) && w.id != id
    {
      var kept: seq<Watcher> := [];
      for i := 0 to |entries|
        invariant entries == old(entries)
        invariant forall w :: w in kept <==> w in entries[..i] && w.id != id
        invariant forall a, b :: 0 <= a < b < |kept| ==> kept[a].id != kept[b].id
      {
        assert entries[..i + 1] == entries[..i] + [entries[i]];
        if entries[i].id != id {
          forall a | 0 <= a < |kept| ensures kept[a].id != entries[i].id {
            assert kept[a] in entries[..i];
            var j :| 0 <= j < i && entries[j] == kept[a];
          }
          kept := kept + [entries[i]];
        }
      }
      assert entries[..|entries|] == entries;
      entries := kept;
      forall i | 0 <= i < |entries| ensures entries[i] in old(entries) { assert entries[i] in kept; }
    }

    /** Deliver one event for each of `keys`, in whatever order they come. */
    method Notify(id: nat, keys: set<Key>, joined: bool, ghost pattern: Key)
      requires id in delivered && Replay(delivered[id]).Some? && OnlyMatching(delivered[id], pattern)
      requires forall k :: k in keys ==> Matches(pattern, k)
      requires if joined then keys !! Replay(delivered[id]).value else keys <= Replay(delivered[id]).value
      modifies this`delivered
      ensures delivered.Keys == old(delivered.Keys)
      ensures forall n :: n in delivered && n != id ==> delivered[n] == old(delivered[n])
      ensures old(delivered[id]) <= delivered[id] && OnlyMatching(delivered[id], pattern)
      ensures Replay(delivered[id]) ==
              Some(if joined then old(Replay(delivered[id]).value) + keys else old(Replay(delivered[id]).value) - keys)
    {
      ghost var start := Replay(delivered[id]).value;
      var rest := keys;
      assert keys - rest == {} && start + {} == start && start - {} == start;
      while rest != {}
        invariant rest <= keys && delivered.Keys == old(delivered.Keys)
        invariant forall n :: n in delivered && n != id ==> delivered[n] == old(delivered[n])
        invariant old(delivered[id]) <= delivered[id] && OnlyMatching(delivered[id], pattern)
        invariant Replay(delivered[id]) == Some(if joined then start + (keys - rest) else start - (keys - rest))
      {
        hide Matches;
        var k :| k in rest;
        var e := if joined then Joined(k) else Left(k);
        ReplaySnoc(delivered[id], e);
        delivered := delivered[id := delivered[id] + [e]];
        assert keys - (rest - {k}) == (keys - rest) + {k};
        if joined {
          assert start + (keys - rest) + {k} == start + (keys - (rest - {k}));
        } else {
          assert start - (keys - rest) - {k} == start - (keys - (rest - {k}));
        }
        rest := rest - {k};
      }
      assert keys - {} == keys;
    }

    /** Bring watcher `i` up to date with the live keys, telling it what joined and what left. */
    method Refresh(i: nat, alive: set<Key>)
      requires Consistent() && i < |entries|
      modifies this`entries, this`delivered
      ensures Consistent() && delivered.Keys == old(delivered.Keys)
      ensures entries == old(entries)[i := old(entries[i]).(known := Matching(old(entries[i]).pattern, alive))]
      ensures forall n :: n in delivered && n != entries[i].id ==> delivered[n] == old(delivered[n])
      ensures old(delivered[entries[i].id]) <= delivered[entries[i].id]
    {
      hide Matches, Replay;
      var w := entries[i];
      var current := Matching(w.pattern, alive);
      assert LogDescribes(w, delivered, patterns);
      Notify(w.id, current - w.known, true, w.pattern);
      assert w.known + (current - w.known) == w.known + current;
      Notify(w.id, w.known - current, false, w.pattern);
      assert (w.known + current) - (w.known - current) == current;
      entries := entries[i := w.(known := current)];
      assert LogDescribes(entries[i], delivered, patterns);
      forall j | 0 <= j < |entries| && j != i ensures LogDescribes(entries[j], delivered, patterns) {
        assert entries[j].id != w.id && LogDescribes(old(entries)[j], old(delivered), patterns);
      }
    }

    /**
     One poll. Afterwards every watcher knows exactly the matching live keys, and replaying all it ever received
     from the empty set gives exactly those; logs only grow, and a removed watcher's log does not change.
     */
    method Poll(alive: set<Key>)
      requires Consistent()
      modifies this`entries, this`delivered
      ensures Consistent() && delivered.Keys == old(delivered.Keys)
      ensures |entries| == |old(entries)|
      ensures forall i :: 0 <= i < |entries| ==>
                && entries[i] == old(entries)[i].(known := Matching(entries[i].pattern, alive))
                && entries[i].id in delivered
                && Replay(delivered[entries[i].id]) == Some(Matching(entries[i].pattern, alive))
      ensures forall n :: n in delivered ==> old(delivered[n]) <= delivered[n]
      ensures forall n :: n in delivered && !Watched(entries, n) ==> delivered[n] == old(delivered[n])
    {
      hide Consistent, Matches, Matching, Replay;
      var before := entries;
      for i := 0 to |entries|
        invariant Consistent() && |entries| == |before| && delivered.Keys == old(delivered.Keys)
        invariant forall k :: 0 <= k < i ==> entries[k] == before[k].(known := Matching(before[k].pattern, alive))
        invariant forall k :: i <= k < |entries| ==> entries[k] == before[k]
        invariant forall n :: n in delivered ==> old(delivered[n]) <= delivered[n]
        invariant forall n :: n in delivered && !Watched(before, n) ==> delivered[n] == old(delivered[n])
      {
        Refresh(i, alive);
        assert entries[i].id == before[i].id && Watched(before, before[i].id);
      }
      assert forall n :: Watched(entries, n) <==> Watched(before, n) by {
        assert forall k :: 0 <= k < |entries| ==> entries[k].id == before[k].id;
      }
      forall i | 0 <= i < |entries|
        ensures entries[i].id in delivered
        ensures Replay(delivered[entries[i].id]) == Some(Matching(entries[i].pattern, alive))
      {
        LogIsKnown(i);
      }
    }

    /** The log of a registered watcher replays to what it knows. */
    lemma LogIsKnown(i: nat)
      requires Consistent() && i < |entries|
      ensures entries[i].id in delivered && Replay(delivered[entries[i].id]) == Some(entries[i].known)
    {
      assert LogDescribes(entries[i], delivered, patterns);
    }
  }

  lemma EmptyLog(pattern: Key)
    ensures Describes([], pattern, {})
  {}

  ghost predicate Watched(entries: seq<Watcher>, id: nat) {
    exists i :: 0 <= i < |entries| && entries[i].id == id
  }
}
