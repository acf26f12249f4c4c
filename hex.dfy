/**
 * Lower-case hexadecimal rendering of a digest (`format!("{:x}", digest)`) and
 * the checksum comparison of the download engine, which compares that
 * rendering with the expected checksum lower-cased.
 */
module Hex {
  import opened Wrappers
  import opened FileSystem

  predicate IsLowerHexChar(c: char) {
    ('0' <= c <= '9') || ('a' <= c <= 'f')
  }

  /** The digit for a value below 16: '0'..'9', then 'a'..'f'. */
  function HexDigit(n: nat): (c: char)
    requires n < 16
    ensures IsLowerHexChar(c)
  {
    if n < 10 then ('0' as int + n) as char else ('a' as int + n - 10) as char
  }

  /** The value of a lower-case hexadecimal digit. */
  function HexValue(c: char): (n: nat)
    requires IsLowerHexChar(c)
    ensures n < 16 && HexDigit(n) == c
  {
    if c <= '9' then c as int - '0' as int else c as int - 'a' as int + 10
  }

  lemma HexValueOfDigit(n: nat)
    requires n < 16
    ensures HexValue(HexDigit(n)) == n
  {
  }

  /** Each byte as two lower-case digits, high nibble first. */
  function LowerHex(d: Bytes): (s: string)
    ensures |s| == 2 * |d|
    ensures forall i :: 0 <= i < |s| ==> IsLowerHexChar(s[i])
  {
    if d == [] then "" else [HexDigit(d[0] / 16), HexDigit(d[0] % 16)] + LowerHex(d[1..])
  }

  /** Reads pairs of lower-case digits back into bytes; anything else is rejected. */
  function DecodeHex(s: string): (r: Option<Bytes>)
    ensures r.Some? ==> 2 * |r.value| == |s|
    decreases |s|
  {
    if s == [] then Some([])
    else if |s| == 1 || !IsLowerHexChar(s[0]) || !IsLowerHexChar(s[1]) then None
    else
      match DecodeHex(s[2..])
      case None => None
      case Some(rest) => Some([(HexValue(s[0]) * 16 + HexValue(s[1])) as Byte] + rest)
  }

  /** Rendering then reading gives back the digest. */
  lemma {:induction false} DecodeLowerHex(d: Bytes)
    ensures DecodeHex(LowerHex(d)) == Some(d)
  {
    if d != [] {
      var rest := LowerHex(d[1..]);
      assert LowerHex(d) == [HexDigit(d[0] / 16), HexDigit(d[0] % 16)] + rest;
      DecodeLowerHex(d[1..]);
      DecodeHexByte(d[0], rest);
      assert [d[0]] + d[1..] == d;
    }
  }

  /** Decoding the two digits of a byte in front of a decodable text puts that byte in front of its bytes. */
  lemma DecodeHexByte(b: Byte, rest: string)
    requires DecodeHex(rest).Some?
    ensures DecodeHex([HexDigit(b / 16), HexDigit(b % 16)] + rest) == Some([b] + DecodeHex(rest).value)
  {
    var h, l := b / 16, b % 16;
    DivMod16(b);
    HexValueOfDigit(h);
    HexValueOfDigit(l);
    DecodeHexCons(HexDigit(h), HexDigit(l), rest);
  }

  lemma DivMod16(b: Byte)
    ensures b / 16 < 16 && b % 16 < 16 && (b / 16) * 16 + b % 16 == b
  {
  }

  /** Decoding two digits in front of a decodable text puts their byte in front of its bytes. */
  lemma DecodeHexCons(hi: char, lo: char, rest: string)
    requires IsLowerHexChar(hi) && IsLowerHexChar(lo) && DecodeHex(rest).Some?
    ensures DecodeHex([hi, lo] + rest) == Some([(HexValue(hi) * 16 + HexValue(lo)) as Byte] + DecodeHex(rest).value)
  {
    var s := [hi, lo] + rest;
    assert s[0] == hi && s[1] == lo && s[2..] == rest;
  }

  /** Reading then rendering gives back the text: every lower-case hex text of even length is a rendering. */
  lemma {:induction false} LowerHexOfDecode(s: string)
    requires DecodeHex(s).Some?
    ensures LowerHex(DecodeHex(s).value) == s
    decreases |s|
  {
    if s != [] {
      var d := DecodeHex(s).value;
      var b := HexValue(s[0]) * 16 + HexValue(s[1]);
      assert d[0] == b as Byte && d[1..] == DecodeHex(s[2..]).value;
      assert b / 16 == HexValue(s[0]) && b % 16 == HexValue(s[1]);
      LowerHexOfDecode(s[2..]);
      assert s == [s[0], s[1]] + s[2..];
    }
  }

  /** ASCII lower-casing (`str::to_lowercase` restricted to ASCII letters). */
  function ToLowerAscii(s: string): (r: string)
    ensures |r| == |s|
    ensures forall i :: 0 <= i < |s| ==> r[i] == (if 'A' <= s[i] <= 'Z' then (s[i] as int + 32) as char else s[i])
  {
    if s == [] then "" else [if 'A' <= s[0] <= 'Z' then (s[0] as int + 32) as char else s[0]] + ToLowerAscii(s[1..])
  }

  /** The download engine's integrity test: the digest's rendering equals the expected checksum lower-cased. */
  predicate ChecksumMatches(digest: Bytes, expected: string) {
    LowerHex(digest) == ToLowerAscii(expected)
  }

  /**
   * A checksum matches exactly when the expected text, read case-insensitively,
   * is the hexadecimal form of the digest.
   */
  lemma ChecksumMatchesIff(digest: Bytes, expected: string)
    ensures ChecksumMatches(digest, expected) <==> DecodeHex(ToLowerAscii(expected)) == Some(digest)
  {
    if ChecksumMatches(digest, expected) {
      DecodeLowerHex(digest);
    }
    if DecodeHex(ToLowerAscii(expected)) == Some(digest) {
      LowerHexOfDecode(ToLowerAscii(expected));
    }
  }

  /** Upper- and lower-case spellings of the same checksum are accepted alike. */
  lemma ChecksumCaseInsensitive(digest: Bytes, expected: string)
    ensures ChecksumMatches(digest, expected) <==> ChecksumMatches(digest, ToLowerAscii(expected))
  {
    var l := ToLowerAscii(expected);
    assert ToLowerAscii(l) == l;
  }
}
