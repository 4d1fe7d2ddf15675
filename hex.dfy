/**
 * The hex helpers of the scanner: every byte becomes the two lowercase hex
 * digits of `"%02x"`, and the digit pairs are joined by a separator
 * (none for identity keys and MAC values, ':' for printable fields).
 * ParseHex is the partner decoder used to state what the encoding keeps.
 */
module Hex {
  import opened Wrappers
  import opened PyBytes

  predicate IsLowerHexDigit(c: char) {
    '0' <= c <= '9' || 'a' <= c <= 'f'
  }

  function DigitValue(c: char): (d: int)
    requires IsLowerHexDigit(c)
    ensures 0 <= d < 16
  {
    if c <= '9' then c as int - '0' as int else c as int - 'a' as int + 10
  }

  /** The lowercase hex digit of a nibble. */
  function HexDigit(d: int): char
    requires 0 <= d < 16
  {
    if d < 10 then ('0' as int + d) as char else ('a' as int + d - 10) as char
  }

  /** The digit of a nibble is a lowercase hex digit that reads back as the nibble. */
  lemma HexDigitValue(d: int)
    requires 0 <= d < 16
    ensures IsLowerHexDigit(HexDigit(d)) && DigitValue(HexDigit(d)) == d
  {
  }

  /** Every lowercase hex digit is the digit of its own value. */
  lemma DigitValueHex(c: char)
    requires IsLowerHexDigit(c)
    ensures HexDigit(DigitValue(c)) == c
  {
  }

  /** `"%02x" % b`: always two digits, high nibble first. */
  function ByteToHex(b: byte): string {
    [HexDigit(b / 16), HexDigit(b % 16)]
  }

  /** The two digits of a byte are lowercase hex and read back as the byte. */
  lemma ByteToHexDigits(b: byte)
    ensures var r := ByteToHex(b);
      |r| == 2 && IsLowerHexDigit(r[0]) && IsLowerHexDigit(r[1]) &&
      DigitValue(r[0]) * 16 + DigitValue(r[1]) == b
  {
  }

  /** `separator.join("%02x" % int(b) for b in bytes)`. */
  function BytesToStringWithSep(sep: string, b: Bytes): (r: string)
    ensures |r| == 2 * |b| + (if |b| == 0 then 0 else (|b| - 1) * |sep|)
    decreases |b|
  {
    if |b| == 0 then ""
    else if |b| == 1 then ByteToHex(b[0])
    else
      var rest := BytesToStringWithSep(sep, b[1..]);
      assert (|b| - 1) * |sep| == |sep| + (|b| - 2) * |sep|;
      ByteToHex(b[0]) + sep + rest
  }

  /** `bytesToStringWithSep("", bytes)`. */
  function BytesToString(b: Bytes): (r: string)
    ensures |r| == 2 * |b|
  {
    BytesToStringWithSep("", b)
  }

  /** `bytesToStringWithSep(":", bytes)`. */
  function BytesToStringWithColumns(b: Bytes): (r: string)
    ensures |b| > 0 ==> |r| == 3 * |b| - 1
    ensures |b| == 0 ==> r == ""
  {
    BytesToStringWithSep(":", b)
  }

  /** The printable form: byte `i` at `3 * i`, a ':' after every byte but the last. */
  lemma ColumnsLayout(b: Bytes, i: nat)
    requires i < |b|
    ensures var s := BytesToStringWithColumns(b);
      s[3 * i .. 3 * i + 2] == ByteToHex(b[i]) && (i + 1 < |b| ==> s[3 * i + 2] == ':')
  {
    HexWithSepAt(":", b, i);
  }

  /** Decodes a string of lowercase digit pairs; None on an odd length or a non-digit. */
  function ParseHex(s: string): (r: Option<Bytes>)
    ensures r.Some? ==> |s| == 2 * |r.value|
    ensures r.Some? ==> forall i :: 0 <= i < |s| ==> IsLowerHexDigit(s[i])
    decreases |s|
  {
    if |s| == 0 then Some([])
    else if |s| == 1 || !IsLowerHexDigit(s[0]) || !IsLowerHexDigit(s[1]) then None
    else
      match ParseHex(s[2..])
      case None => None
      case Some(rest) =>
        assert forall i :: 2 <= i < |s| ==> s[i] == s[2..][i - 2];
        Some([DigitValue(s[0]) * 16 + DigitValue(s[1])] + rest)
  }

  /** `i * w` built by repeated addition, so the layout proof below stays linear. */
  function Offset(i: nat, w: nat): nat {
    if i == 0 then 0 else w + Offset(i - 1, w)
  }

  lemma {:induction false} OffsetIsProduct(i: nat, w: nat)
    ensures Offset(i, w) == i * w
  {
    if i > 0 {
      OffsetIsProduct(i - 1, w);
    }
  }

  lemma {:induction false} HexWithSepAtOffset(sep: string, b: Bytes, i: nat)
    requires i < |b|
    ensures var s, o := BytesToStringWithSep(sep, b), Offset(i, 2 + |sep|);
      o + 2 <= |s| && s[o .. o + 2] == ByteToHex(b[i]) &&
      (i + 1 < |b| ==> o + 2 + |sep| <= |s| && s[o + 2 .. o + 2 + |sep|] == sep)
    decreases i
  {
    var s, w := BytesToStringWithSep(sep, b), 2 + |sep|;
    if |b| > 1 {
      var rest := BytesToStringWithSep(sep, b[1..]);
      assert s == ByteToHex(b[0]) + sep + rest;
      if i > 0 {
        HexWithSepAtOffset(sep, b[1..], i - 1);
        assert s[w..] == rest;
      }
    }
  }

  /** Byte `i` occupies the two characters at `i * (2 + |sep|)`; a separator follows every byte but the last. */
  lemma HexWithSepAt(sep: string, b: Bytes, i: nat)
    requires i < |b|
    ensures var s, w := BytesToStringWithSep(sep, b), 2 + |sep|;
      i * w + 2 <= |s| && s[i * w .. i * w + 2] == ByteToHex(b[i]) &&
      (i + 1 < |b| ==> i * w + 2 + |sep| <= |s| && s[i * w + 2 .. i * w + 2 + |sep|] == sep)
  {
    HexWithSepAtOffset(sep, b, i);
    OffsetIsProduct(i, 2 + |sep|);
  }

  lemma {:induction false} BytesToStringCons(b: Bytes)
    requires |b| > 0
    ensures BytesToString(b) == ByteToHex(b[0]) + BytesToString(b[1..])
  {
  }

  /** The separator-free encoding is a homomorphism from bytes concatenation to string concatenation. */
  lemma {:induction false} BytesToStringConcat(a: Bytes, b: Bytes)
    ensures BytesToString(a + b) == BytesToString(a) + BytesToString(b)
    decreases |a|
  {
    if |a| > 0 {
      BytesToStringCons(a);
      BytesToStringCons(a + b);
      assert (a + b)[1..] == a[1..] + b;
      BytesToStringConcat(a[1..], b);
    } else {
      assert a + b == b;
    }
  }

  /** Round trip: the separator-free encoding decodes back to the bytes. */
  lemma {:induction false} ParseHexRoundTrip(b: Bytes)
    ensures ParseHex(BytesToString(b)) == Some(b)
    decreases |b|
  {
    if |b| > 0 {
      BytesToStringCons(b);
      ByteToHexDigits(b[0]);
      ParseHexRoundTrip(b[1..]);
      var s := BytesToString(b);
      assert s[2..] == BytesToString(b[1..]);
      assert [b[0]] + b[1..] == b;
    }
  }

  /** Round trip the other way: a decodable string is exactly the encoding of what it decodes to. */
  lemma {:induction false} BytesToStringOfParseHex(s: string, b: Bytes)
    requires ParseHex(s) == Some(b)
    ensures BytesToString(b) == s
    decreases |s|
  {
    if |s| > 0 {
      var rest := ParseHex(s[2..]).value;
      var hi, lo := DigitValue(s[0]), DigitValue(s[1]);
      assert b == [hi * 16 + lo] + rest;
      BytesToStringOfParseHex(s[2..], rest);
      BytesToStringCons(b);
      assert b[1..] == rest;
      assert (hi * 16 + lo) / 16 == hi && (hi * 16 + lo) % 16 == lo;
      DigitValueHex(s[0]);
      DigitValueHex(s[1]);
      assert ByteToHex(b[0]) == s[..2];
      assert s == s[..2] + s[2..];
    }
  }

  /** Distinct byte strings have distinct separator-free encodings. */
  lemma BytesToStringInjective(a: Bytes, b: Bytes)
    requires BytesToString(a) == BytesToString(b)
    ensures a == b
  {
    ParseHexRoundTrip(a);
    ParseHexRoundTrip(b);
  }
}
