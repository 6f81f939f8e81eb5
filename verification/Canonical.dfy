/**
 The self-delimiting byte code of `Canonical`: fixed-width little-endian integers, and a length in
 front of every variable-length item. A code word is one `Item`; a record is a sequence of items.
 */
module Canonical {
  import opened Prelude

  datatype Item =
    | Byte(b: byte)
    | Int(v: i32)
    | Count(n: nat)
    | Text(s: seq<byte>)
    | Optional(o: Option<seq<byte>>)

  // ----- integers -----

  /** The `width` low-order bytes of `n`, least significant first. */
  function Little(n: nat, width: nat): (bytes: seq<byte>)
    ensures |bytes| == width
  {
    if width == 0 then [] else [n % 256] + Little(n / 256, width - 1)
  }

  ghost predicate Fits(n: nat, width: nat) {
    if width == 0 then n == 0 else Fits(n / 256, width - 1)
  }

  lemma {:induction false} LittleInjective(a: nat, b: nat, width: nat)
    requires Fits(a, width) && Fits(b, width)
    requires Little(a, width) == Little(b, width)
    ensures a == b
  {
    if width > 0 {
      var x, y := Little(a, width), Little(b, width);
      assert x[0] == y[0] && x[1..] == y[1..];
      LittleInjective(a / 256, b / 256, width - 1);
    }
  }

  lemma Fits64(n: nat)
    requires n < TWO_64
    ensures Fits(n, 8)
  {
    assert n / 256 < 0x100_0000_0000_0000;
    assert n / 256 / 256 < 0x1_0000_0000_0000;
    assert n / 256 / 256 / 256 < 0x100_0000_0000;
    assert n / 256 / 256 / 256 / 256 < 0x1_0000_0000;
    Fits32(n / 256 / 256 / 256 / 256);
    assert Fits(n / 256 / 256, 6);
  }

  lemma Fits32(n: nat)
    requires n < 0x1_0000_0000
    ensures Fits(n, 4)
  {
    assert n / 256 < 0x100_0000;
    assert n / 256 / 256 < 0x1_0000;
    assert Fits(n / 256 / 256, 2) by {
      assert n / 256 / 256 / 256 < 0x100;
      assert Fits(n / 256 / 256 / 256, 1);
    }
  }

  /** Two's complement, as `i32::to_le_bytes` writes it. */
  function Unsigned(v: i32): (u: nat)
    ensures u < 0x1_0000_0000 && (u - v) % 0x1_0000_0000 == 0
  {
    if v < 0 then v + 0x1_0000_0000 else v
  }

  /** The number that little-endian bytes stand for. */
  function Number(bytes: seq<byte>): nat {
    if bytes == [] then 0 else bytes[0] + 256 * Number(bytes[1..])
  }

  lemma {:induction false} LittleReads(n: nat, width: nat)
    requires Fits(n, width)
    ensures Number(Little(n, width)) == n
  {
    if width > 0 {
      LittleReads(n / 256, width - 1);
      assert Little(n, width)[1..] == Little(n / 256, width - 1);
    }
  }

  // ----- items -----

  function Prefixed(s: seq<byte>): seq<byte> {
    Little(|s|, 8) + s
  }

  function Word(item: Item): (bytes: seq<byte>)
    ensures |bytes| > 0
    ensures item.Text? ==> |bytes| == 8 + |item.s|
    ensures item.Optional? && item.o.Some? ==> |bytes| == 9 + |item.o.value|
  {
    match item
    case Byte(b) => [b]
    case Int(v) => Little(Unsigned(v), 4)
    case Count(n) => Little(n, 8)
    case Text(s) => Prefixed(s)
    case Optional(None) => [0]
    case Optional(Some(s)) => [1] + Prefixed(s)
  }

  /** The bytes of an item, read the way the format says: fixed widths, and each text behind its length. */
  lemma WordReads(item: Item)
    requires Small(item)
    ensures match item
            case Byte(b) => Word(item) == [b]
            case Int(v) => |Word(item)| == 4 && Number(Word(item)) == Unsigned(v)
            case Count(n) => |Word(item)| == 8 && Number(Word(item)) == n
            case Text(s) => LengthThen(Word(item), s)
            case Optional(None) => Word(item) == [0]
            case Optional(Some(s)) => Word(item)[0] == 1 && LengthThen(Word(item)[1..], s)
  {
    match item
    case Byte(_) =>
    case Int(v) =>
      Fits32(Unsigned(v));
      LittleReads(Unsigned(v), 4);
    case Count(n) =>
      Fits64(n);
      LittleReads(n, 8);
    case Text(s) => PrefixedReads(s);
    case Optional(None) =>
    case Optional(Some(s)) =>
      PrefixedReads(s);
      assert ([1] + Prefixed(s))[1..] == Prefixed(s);
  }

  predicate LengthThen(bytes: seq<byte>, s: seq<byte>) {
    |bytes| == 8 + |s| && Number(bytes[..8]) == |s| && bytes[8..] == s
  }

  lemma PrefixedReads(s: seq<byte>)
    requires |s| < TWO_64
    ensures LengthThen(Prefixed(s), s)
  {
    Fits64(|s|);
    LittleReads(|s|, 8);
    assert Prefixed(s)[..8] == Little(|s|, 8);
  }

  function Flag(b: bool): Item {
    Byte(if b then 1 else 0)
  }

  function Write(items: seq<Item>): seq<byte> {
    if items == [] then [] else Word(items[0]) + Write(items[1..])
  }

  lemma {:induction false} WriteConcat(a: seq<Item>, b: seq<Item>)
    ensures Write(a + b) == Write(a) + Write(b)
  {
    if a == [] {
      assert a + b == b;
    } else {
      assert (a + b)[1..] == a[1..] + b;
      WriteConcat(a[1..], b);
    }
  }

  /** The length of an item is representable in the width its code gives it. */
  predicate Small(item: Item) {
    match item
    case Count(n) => n < TWO_64
    case Text(s) => |s| < TWO_64
    case Optional(Some(s)) => |s| < TWO_64
    case _ => true
  }

  predicate AllSmall(items: seq<Item>) {
    forall i :: 0 <= i < |items| ==> Small(items[i])
  }

  predicate SameKind(a: Item, b: Item) {
    && (a.Byte? <==> b.Byte?)
    && (a.Int? <==> b.Int?)
    && (a.Count? <==> b.Count?)
    && (a.Text? <==> b.Text?)
  }

  predicate SameShape(a: seq<Item>, b: seq<Item>) {
    |a| == |b| && forall i :: 0 <= i < |a| ==> SameKind(a[i], b[i])
  }

  lemma Halves(x: seq<byte>, y: seq<byte>, s: seq<byte>, t: seq<byte>)
    requires |x| == |y| && x + s == y + t
    ensures x == y && s == t
  {
    assert x == (x + s)[..|x|] && y == (y + t)[..|x|];
    assert s == (x + s)[|x|..] && t == (y + t)[|x|..];
  }

  lemma PrefixedSplit(a: seq<byte>, b: seq<byte>, s: seq<byte>, t: seq<byte>)
    requires |a| < TWO_64 && |b| < TWO_64
    requires Prefixed(a) + s == Prefixed(b) + t
    ensures a == b && s == t
  {
    assert Prefixed(a) + s == Little(|a|, 8) + (a + s);
    assert Prefixed(b) + t == Little(|b|, 8) + (b + t);
    Halves(Little(|a|, 8), Little(|b|, 8), a + s, b + t);
    Fits64(|a|);
    Fits64(|b|);
    LittleInjective(|a|, |b|, 8);
    Halves(a, b, s, t);
  }

  lemma Associate(x: seq<byte>, y: seq<byte>, z: seq<byte>)
    ensures (x + y) + z == x + (y + z)
  {
  }

  lemma OptionalSplit(x: Option<seq<byte>>, y: Option<seq<byte>>, s: seq<byte>, t: seq<byte>)
    requires Small(Optional(x)) && Small(Optional(y))
    requires Word(Optional(x)) + s == Word(Optional(y)) + t
    ensures x == y && s == t
  {
    var a, b := Word(Optional(x)), Word(Optional(y));
    assert (a + s)[0] == a[0] && (b + t)[0] == b[0];
    if x.Some? {
      Associate([1], Prefixed(x.value), s);
      Associate([1], Prefixed(y.value), t);
      Halves([1], [1], Prefixed(x.value) + s, Prefixed(y.value) + t);
      PrefixedSplit(x.value, y.value, s, t);
    } else {
      Halves([0], [0], s, t);
    }
  }

  /** No item's code word is a proper prefix of another's of its kind. */
  lemma WordSplit(a: Item, b: Item, s: seq<byte>, t: seq<byte>)
    requires SameKind(a, b) && Small(a) && Small(b)
    requires Word(a) + s == Word(b) + t
    ensures a == b && s == t
  {
    match a
    case Byte(x) =>
      Halves(Word(a), Word(b), s, t);
      assert Word(a)[0] == Word(b)[0];
    case Int(x) =>
      Halves(Word(a), Word(b), s, t);
      Fits32(Unsigned(a.v));
      Fits32(Unsigned(b.v));
      LittleInjective(Unsigned(a.v), Unsigned(b.v), 4);
    case Count(x) =>
      Halves(Word(a), Word(b), s, t);
      Fits64(a.n);
      Fits64(b.n);
      LittleInjective(a.n, b.n, 8);
    case Text(x) =>
      PrefixedSplit(a.s, b.s, s, t);
    case Optional(x) =>
      OptionalSplit(a.o, b.o, s, t);
  }

  /** Item sequences of one shape are read back uniquely, whatever follows them. */
  lemma {:induction false} WriteSplit(a: seq<Item>, b: seq<Item>, s: seq<byte>, t: seq<byte>)
    requires SameShape(a, b) && AllSmall(a) && AllSmall(b)
    requires Write(a) + s == Write(b) + t
    ensures a == b && s == t
  {
    hide Word, Small, SameKind;
    if a == [] {
      assert Write(a) + s == s && Write(b) + t == t;
    } else {
      Associate(Word(a[0]), Write(a[1..]), s);
      Associate(Word(b[0]), Write(b[1..]), t);
      WordSplit(a[0], b[0], Write(a[1..]) + s, Write(b[1..]) + t);
      WriteSplit(a[1..], b[1..], s, t);
      assert a == [a[0]] + a[1..] && b == [b[0]] + b[1..];
    }
  }

  /** Every item costs at least one byte, and a text at least its own length. */
  lemma WriteHead(items: seq<Item>)
    requires items != []
    ensures Write(items) == Word(items[0]) + Write(items[1..])
  {}

  lemma {:induction false} WriteLength(items: seq<Item>)
    ensures |items| <= |Write(items)|
    ensures forall i :: 0 <= i < |items| ==> |Word(items[i])| <= |Write(items)|
  {
    if items != [] {
      WriteLength(items[1..]);
      forall i | 0 <= i < |items| ensures |Word(items[i])| <= |Write(items)| {
        if i > 0 { assert items[i] == items[1..][i - 1]; }
      }
    }
  }

  // ----- the writer -----

  function Append(bytes: seq<byte>, item: Item): seq<byte> {
    bytes + Word(item)
  }

  lemma AppendWrite(bytes: seq<byte>, items: seq<Item>, item: Item)
    ensures Append(bytes + Write(items), item) == bytes + Write(items + [item])
  {
    WriteConcat(items, [item]);
    assert Write([item]) == Word(item);
    Associate(bytes, Write(items), Word(item));
  }

  /** `Canonical`: a byte vector that is only ever appended to. */
  class Writer {
    var data: seq<byte>

    constructor ()
      ensures data == []
    {
      data := [];
    }

    method PutByte(value: byte)
      modifies this
      ensures data == Append(old(data), Byte(value))
    {
      data := data + [value];
    }

    method PutBoolean(value: bool)
      modifies this
      ensures data == Append(old(data), Flag(value))
    {
      PutByte(if value then 1 else 0);
    }

    method PutInteger(value: i32)
      modifies this
      ensures data == Append(old(data), Int(value))
    {
      data := data + Little(Unsigned(value), 4);
    }

    method PutCount(value: nat)
      modifies this
      ensures data == Append(old(data), Count(value))
    {
      data := data + Little(value, 8);
    }

    method PutString(value: seq<byte>)
      modifies this
      ensures data == Append(old(data), Text(value))
    {
      PutCount(|value|);
      data := data + value;
      Associate(old(data), Little(|value|, 8), value);
    }

    method PutOptional(value: Option<seq<byte>>)
      modifies this
      ensures data == Append(old(data), Optional(value))
    {
      PutBoolean(value.Some?);
      if value.Some? {
        PutString(value.value);
        Associate(old(data), [1], Prefixed(value.value));
      }
    }
  }
}
