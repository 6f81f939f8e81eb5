/** Fingerprints as text: sixteen lower-case hexadecimal digits, read back by the usual radix parser. */
module FingerprintText {
  import opened Prelude

  function HexDigit(d: nat): (c: char)
    requires d < 16
    ensures '0' <= c <= '9' || 'a' <= c <= 'f'
  {
    if d < 10 then '0' + d as char else 'a' + (d - 10) as char
  }

  function HexValue(c: char): Option<nat> {
    if '0' <= c <= '9' then Some((c - '0') as nat)
    else if 'a' <= c <= 'f' then Some((c - 'a') as nat + 10)
    else if 'A' <= c <= 'F' then Some((c - 'A') as nat + 10)
    else None
  }

  /** The last `width` hexadecimal digits of `n`. */
  function Hex(n: nat, width: nat): string {
    if width == 0 then "" else Hex(n / 16, width - 1) + [HexDigit(n % 16)]
  }

  /** Digits read from the left, or a failure at the first other character or past 64 bits. */
  function ReadHex(s: string): Option<u64> {
    if s == "" then Some(0)
    else match ReadHex(s[..|s| - 1])
      case None => None
      case Some(high) =>
        match HexValue(s[|s| - 1])
        case None => None
        case Some(d) => if high * 16 + d < TWO_64 then Some(high * 16 + d) else None
  }

  /** `from_str_radix`: one leading plus is allowed, no digits are not. */
  function ParseHex(s: string): Option<u64> {
    var digits := if s != "" && s[0] == '+' then s[1..] else s;
    if digits == "" then None else ReadHex(digits)
  }

  function Power16(k: nat): nat {
    if k == 0 then 1 else 16 * Power16(k - 1)
  }

  lemma HexDigitReads(d: nat)
    requires d < 16
    ensures HexValue(HexDigit(d)) == Some(d) && HexDigit(d) != '+'
  {
    if d < 10 { assert (HexDigit(d) - '0') as nat == d; } else { assert (HexDigit(d) - 'a') as nat == d - 10; }
  }

  lemma ReadHexSnoc(s: string, high: u64, c: char, d: nat)
    requires ReadHex(s) == Some(high) && HexValue(c) == Some(d) && high * 16 + d < TWO_64
    ensures ReadHex(s + [c]) == Some(high * 16 + d)
  {
    hide HexValue;
    assert (s + [c])[..|s|] == s;
  }

  lemma {:induction false} ReadHexDigits(n: nat, width: nat)
    requires n < Power16(width) && n < TWO_64
    ensures |Hex(n, width)| == width && ReadHex(Hex(n, width)) == Some(n)
    ensures width > 0 ==> Hex(n, width)[0] != '+'
  {
    hide HexValue, HexDigit, ReadHex;
    if width == 0 {
      ReadHexEmpty();
    } else {
      ReadHexDigits(n / 16, width - 1);
      HexDigitReads(n % 16);
      ReadHexSnoc(Hex(n / 16, width - 1), n / 16, HexDigit(n % 16), n % 16);
    }
  }

  lemma ReadHexEmpty()
    ensures ReadHex("") == Some(0)
  {}

  /** A recorded fingerprint reads back as itself. */
  lemma FingerprintReads(f: u64)
    ensures ParseHex(Hex(f, 16)) == Some(f)
  {
    assert Power16(16) == TWO_64 by {
      assert Power16(4) == 65536 && Power16(8) == 65536 * 65536 && Power16(12) == 65536 * 65536 * 65536;
    }
    ReadHexDigits(f, 16);
  }
}
