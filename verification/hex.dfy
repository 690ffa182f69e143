/**
  Rendering of one byte as two lowercase hexadecimal characters, the
  `format(b, '02x')` step of `format_bytes`, together with its inverse.
 */
module Hex {
  import opened Wrappers

  /** An unsigned 8-bit value, as produced by reading a file in binary mode. */
  type byte = x: int | 0 <= x < 256

  /** The characters `format(_, 'x')` emits: decimal digits and lowercase `a`-`f`. */
  predicate IsHexDigit(c: char) {
    '0' <= c <= '9' || 'a' <= c <= 'f'
  }

  /** Exactly two hexadecimal characters: the rendering of one byte. */
  predicate IsHexPair(s: string) {
    |s| == 2 && IsHexDigit(s[0]) && IsHexDigit(s[1])
  }

  /** A string made of lowercase hexadecimal characters only. */
  predicate IsHexString(s: string) {
    forall i :: 0 <= i < |s| ==> IsHexDigit(s[i])
  }

  /** The character for one nibble. */
  function DigitChar(d: int): (c: char)
    requires 0 <= d < 16
    ensures IsHexDigit(c)
  {
    if d < 10 then ('0' as int + d) as char else ('a' as int + (d - 10)) as char
  }

  /** The nibble a hexadecimal character stands for; the inverse of `DigitChar`. */
  function DigitValue(c: char): (d: int)
    requires IsHexDigit(c)
    ensures 0 <= d < 16
    ensures DigitChar(d) == c
  {
    if c <= '9' then c as int - '0' as int else c as int - 'a' as int + 10
  }

  lemma DigitRoundTrip(d: int)
    requires 0 <= d < 16
    ensures DigitValue(DigitChar(d)) == d
  {
  }

  /** `format(b, '02x')`: high nibble first, zero-filled to two characters. */
  function ByteToHex(b: byte): (s: string)
    ensures IsHexPair(s)
    ensures 16 * DigitValue(s[0]) + DigitValue(s[1]) == b
  {
    DigitRoundTrip(b / 16);
    DigitRoundTrip(b % 16);
    [DigitChar(b / 16), DigitChar(b % 16)]
  }

  /** Reads back a two-character lowercase hexadecimal rendering. */
  function HexToByte(s: string): (r: Option<byte>)
    ensures r.Some? <==> IsHexPair(s)
    ensures r.Some? ==> ByteToHex(r.value) == s
  {
    if IsHexPair(s) then
      var hi, lo := DigitValue(s[0]), DigitValue(s[1]);
      assert (16 * hi + lo) / 16 == hi && (16 * hi + lo) % 16 == lo;
      Some(16 * hi + lo)
    else
      None
  }

  /** Rendering then reading back gives the byte: `ByteToHex` is injective. */
  lemma ByteHexRoundTrip(b: byte)
    ensures HexToByte(ByteToHex(b)) == Some(b)
  {
  }

  /** A two-character string reads back as `b` exactly when it is `b`'s rendering. */
  lemma HexToByteIff(s: string, b: byte)
    ensures HexToByte(s) == Some(b) <==> ByteToHex(b) == s
  {
    if ByteToHex(b) == s {
      ByteHexRoundTrip(b);
    }
  }

  /** The renderings named by the documentation: leading zero, lowercase letters. */
  lemma ByteToHexExamples()
    ensures ByteToHex(0) == "00"
    ensures ByteToHex(1) == "01"
    ensures ByteToHex(171) == "ab"
    ensures ByteToHex(255) == "ff"
  {
  }
}
