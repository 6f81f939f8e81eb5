/**
 What an endpoint's descriptor answers say about its schema: the set sent is pruned to the declared type,
 and the pruned set's fingerprint is taken.
 */
module EndpointSchema {
  import opened Prelude
  import opened Descriptor
  import opened Fingerprint
  import opened Lookup
  import opened Pruning
  import Keys

  // ----- type names as bytes -----

  function Utf8Of(c: char): Str {
    var n := c as int;
    if n < 0x80 then [n]
    else if n < 0x800 then [0xc0 + n / 0x40, 0x80 + n % 0x40]
    else if n < 0x1_0000 then [0xe0 + n / 0x1000, 0x80 + n / 0x40 % 0x40, 0x80 + n % 0x40]
    else [0xf0 + n / 0x4_0000, 0x80 + n / 0x1000 % 0x40, 0x80 + n / 0x40 % 0x40, 0x80 + n % 0x40]
  }

  function Utf8(s: string): Str {
    if s == "" then [] else Utf8Of(s[0]) + Utf8(s[1..])
  }

  /** The first character of UTF-8 text and its length in bytes, by the table in section 3 of RFC 3629. */
  function FirstChar(b: Str): Option<(int, nat)> {
    if |b| >= 1 && b[0] < 0x80 then Some((b[0], 1))
    else if |b| >= 2 && 0xc0 <= b[0] < 0xe0 then Some((Above(b[0], 0xc0) * 0x40 + Above(b[1], 0x80), 2))
    else if |b| >= 3 && 0xe0 <= b[0] < 0xf0 then
      Some((Above(b[0], 0xe0) * 0x1000 + Above(b[1], 0x80) * 0x40 + Above(b[2], 0x80), 3))
    else if |b| >= 4 && 0xf0 <= b[0] < 0xf8 then
      Some((Above(b[0], 0xf0) * 0x4_0000 + Above(b[1], 0x80) * 0x1000
            + Above(b[2], 0x80) * 0x40 + Above(b[3], 0x80), 4))
    else None
  }

  function Above(b: int, base: int): int {
    b - base
  }

  lemma Utf8OfReads(c: char, rest: Str)
    ensures FirstChar(Utf8Of(c) + rest) == Some((c as int, |Utf8Of(c)|))
  {
    var n, b := c as int, Utf8Of(c);
    assert forall i :: 0 <= i < |b| ==> (b + rest)[i] == b[i];
    assert n / 0x40 / 0x40 == n / 0x1000 && n / 0x1000 / 0x40 == n / 0x4_0000;
  }

  /** No two texts have the same bytes. */
  lemma {:induction false} Utf8Injective(s: string, t: string)
    requires Utf8(s) == Utf8(t)
    ensures s == t
  {
    if s != "" { Utf8OfReads(s[0], Utf8(s[1..])); }
    if t != "" { Utf8OfReads(t[0], Utf8(t[1..])); }
    hide FirstChar, Utf8Of;
    if s != "" && t != "" {
      assert s[0] == t[0];
      var n := |Utf8Of(s[0])|;
      assert Utf8(s[1..]) == Utf8(s)[n..] && Utf8(t[1..]) == Utf8(t)[n..];
      Utf8Injective(s[1..], t[1..]);
      assert s == [s[0]] + s[1..] && t == [t[0]] + t[1..];
    } else {
      NothingReads();
    }
  }

  lemma NothingReads()
    ensures FirstChar([]) == None
  {}

  lemma {:induction false} Utf8Ascii(s: string)
    requires forall i :: 0 <= i < |s| ==> s[i] as int < 0x80
    ensures |Utf8(s)| == |s| && forall i :: 0 <= i < |s| ==> Utf8(s)[i] == s[i] as int
  {
    if s != "" { Utf8Ascii(s[1..]); }
  }

  lemma HeaderText()
    ensures HEADER == Utf8("reiny.schema-fingerprint")
  {
    hide Utf8, Utf8Of;
    var text := "reiny.schema-fingerprint";
    assert |HEADER| == |text| && forall i :: 0 <= i < |text| ==> HEADER[i] == text[i] as int;
    Utf8Ascii(text);
  }

  // ----- one answer -----

  function AsU64(h: bv64): u64 {
    h as int
  }

  /** The fingerprint a descriptor set yields for a type once it is pruned, if it yields one. */
  ghost function SetFingerprint(files: seq<File>, ty: Str): Option<u64> {
    match SubsetOf(files, ty)
    case None => None
    case Some(subset) => WholeFingerprint(subset, ty)
  }

  /** The fingerprint of a type in a descriptor set as it is. */
  ghost function WholeFingerprint(files: seq<File>, ty: Str): Option<u64> {
    match IndexOf(files)
    case None => None
    case Some(d) =>
      match FingerprintOf(d, ty)
      case Ok(Some(h)) => Some(AsU64(h))
      case _ => None
  }

  method SchemaFingerprint(files: seq<File>, ty: Str) returns (f: Option<u64>)
    ensures f == WholeFingerprint(files, ty)
  {
    hide IndexOf, FingerprintOf, AsU64;
    var index := new Index();
    var ok := index.Build(files);
    if !ok { return None; }
    var r := index.Fingerprint(ty);
    match r
    case Ok(Some(h)) => f := Some(AsU64(h));
    case _ => f := None;
  }

  /** Prune an answered set to the type; keep the pruned set and its fingerprint. */
  method FingerprintSet(files: seq<File>, ty: Str) returns (r: Option<(u64, seq<File>)>)
    ensures r.Some? <==> SetFingerprint(files, ty).Some?
    ensures r.Some? ==> SetFingerprint(files, ty) == Some(r.value.0) == WholeFingerprint(r.value.1, ty)
    ensures r.Some? ==> SubsetOf(files, ty) == Some(r.value.1)
  {
    hide SubsetOf, WholeFingerprint;
    var subset := DescriptorSubset(files, ty);
    if subset.None? { return None; }
    var f := SchemaFingerprint(subset.value, ty);
    if f.None? { return None; }
    r := Some((f.value, subset.value));
  }

  /**
   The fingerprint taken from an answer hashes the bytes of the set that was sent exactly when every reachable
   definition lies in the type's own file or an imported one; and then it is the fingerprint of that set.
   */
  lemma AnswerIsOwn(files: seq<File>, ty: Str)
    requires IndexOf(files).Some? && FindMessage(files, ty).Some?
    requires Encodable(IndexOf(files).value, ty) && |SchemaBytes(IndexOf(files).value, ty)| < TWO_64
    ensures SubsetOf(files, ty).Some? && IndexOf(SubsetOf(files, ty).value).Some?
    ensures var d := IndexOf(files).value;
            var e := IndexOf(SubsetOf(files, ty).value).value;
            && ((Encodable(e, ty) && SchemaBytes(e, ty) == SchemaBytes(d, ty)) <==> ImportsReach(files, ty))
            && (ImportsReach(files, ty) ==>
                  SetFingerprint(files, ty) == WholeFingerprint(files, ty) == Some(AsU64(Hash(SchemaBytes(d, ty)))))
  {
    hide IndexOf, AsU64, FindMessage, Closure, Encodable, SchemaBytes, ImportsReach, ImportClosure, Keep;
    PruningExact(files, ty);
    FoundIsMessage(files, ty);
  }

  lemma FoundIsMessage(files: seq<File>, ty: Str)
    requires IndexOf(files).Some? && FindMessage(files, ty).Some?
    ensures IsMessage(IndexOf(files).value, ty)
  {
    FindAgreesWithIndex(files, ty);
  }

  // ----- all answers -----

  /** One answer to a descriptor query: an error, or a set from some endpoint, if it decodes. */
  datatype DescriptorReply = Refused | Described(key: Keys.Key, files: Option<seq<File>>)

  ghost predicate Answers(reply: DescriptorReply, asked: Keys.Key, ty: Str, f: u64) {
    reply.Described? && reply.key == asked && reply.files.Some? && SetFingerprint(reply.files.value, ty) == Some(f)
  }

  /** All answers come from the endpoint asked and describe one schema. */
  ghost predicate Unanimous(replies: seq<DescriptorReply>, asked: Keys.Key, ty: Str, f: u64) {
    replies != [] && forall i :: 0 <= i < |replies| ==> Answers(replies[i], asked, ty, f)
  }

  /** One refusal, foreign answer, undecodable set or other fingerprint is enough to teach nothing. */
  lemma AnyDissent(replies: seq<DescriptorReply>, asked: Keys.Key, ty: Str, i: nat, f: u64)
    requires i < |replies|
    requires replies[i].Refused? || replies[i].key != asked || replies[i].files.None?
             || SetFingerprint(replies[i].files.value, ty) != Some(f)
    ensures !Unanimous(replies, asked, ty, f)
  {
    hide SetFingerprint;
    assert !Answers(replies[i], asked, ty, f);
  }

  /** The unanimous fingerprint, with the pruned set of the last answer. */
  method ReadDescriptors(replies: seq<DescriptorReply>, asked: Keys.Key, ty: Str)
    returns (r: Option<(u64, seq<File>)>)
    ensures r.Some? ==> Unanimous(replies, asked, ty, r.value.0)
    ensures r.Some? ==> SubsetOf(replies[|replies| - 1].files.value, ty) == Some(r.value.1)
    ensures r.Some? ==> WholeFingerprint(r.value.1, ty) == Some(r.value.0)
    ensures r.None? ==> forall f :: !Unanimous(replies, asked, ty, f)
  {
    hide SetFingerprint, WholeFingerprint, SubsetOf;
    r := None;
    for i := 0 to |replies|
      invariant r.Some? <==> i > 0
      invariant r.Some? ==> forall k :: 0 <= k < i ==> Answers(replies[k], asked, ty, r.value.0)
      invariant r.Some? ==> SubsetOf(replies[i - 1].files.value, ty) == Some(r.value.1)
      invariant r.Some? ==> WholeFingerprint(r.value.1, ty) == Some(r.value.0)
    {
      var reply := replies[i];
      if reply.Refused? || reply.key != asked || reply.files.None? {
        assert forall f :: !Answers(replies[i], asked, ty, f);
        return None;
      }
      var found := FingerprintSet(reply.files.value, ty);
      if found.None? {
        assert forall f :: !Answers(replies[i], asked, ty, f);
        return None;
      }
      if r.Some? && r.value.0 != found.value.0 {
        assert Answers(replies[0], asked, ty, r.value.0) && Answers(replies[i], asked, ty, found.value.0);
        return None;
      }
      r := found;
    }
  }

  /** What unanimous answers teach is the own fingerprint of every answering set whose imports reach. */
  lemma UnanimousIsOwn(replies: seq<DescriptorReply>, asked: Keys.Key, ty: Str, f: u64, i: nat)
    requires Unanimous(replies, asked, ty, f) && i < |replies|
    requires var files := replies[i].files.value;
             && IndexOf(files).Some? && FindMessage(files, ty).Some? && ImportsReach(files, ty)
             && Encodable(IndexOf(files).value, ty) && |SchemaBytes(IndexOf(files).value, ty)| < TWO_64
    ensures WholeFingerprint(replies[i].files.value, ty) == Some(f)
  {
    hide IndexOf, FindMessage, ImportsReach, Encodable, SchemaBytes, SetFingerprint, WholeFingerprint;
    assert Answers(replies[i], asked, ty, f);
    AnswerIsOwn(replies[i].files.value, ty);
  }
}
