/** The lower-case hexadecimal spelling of byte strings. */
module Hexadecimal {
  import opened Utf8

  const DIGITS := "0123456789abcdef"

  /** Two digits for each byte, the higher one first. */
  function Hex(bytes: seq<Byte>): (s: string)
    ensures |s| == 2 * |bytes|
  {
    if bytes == [] then "" else [DIGITS[bytes[0] / 16], DIGITS[bytes[0] % 16]] + Hex(bytes[1..])
  }

  /** The 64-digit spelling of a 32-byte digest. */
  ghost predicate SpellsDigest(s: string) {
    exists bytes: seq<Byte> :: |bytes| == 32 && s == Hex(bytes)
  }

  predicate IsHexDigit(c: char) {
    '0' <= c <= '9' || 'a' <= c <= 'f'
  }

  predicate AreHexDigits(s: string) {
    forall k :: 0 <= k < |s| ==> IsHexDigit(s[k])
  }

  function DigitValue(c: char): (v: int)
    requires IsHexDigit(c)
    ensures 0 <= v < 16
  {
    if c <= '9' then (c - '0') as int else (c - 'a') as int + 10
  }

  lemma DigitOfValue(c: char)
    requires IsHexDigit(c)
    ensures DIGITS[DigitValue(c)] == c
  {
  }

  lemma ValueOfDigit(v: int)
    requires 0 <= v < 16
    ensures IsHexDigit(DIGITS[v])
  {
  }

  lemma {:induction false} HexHasDigits(bytes: seq<Byte>)
    ensures AreHexDigits(Hex(bytes))
    decreases |bytes|
  {
    if bytes != [] {
      ValueOfDigit(bytes[0] / 16);
      ValueOfDigit(bytes[0] % 16);
      HexHasDigits(bytes[1..]);
    }
  }

  lemma {:induction false} DigitsAreHex(s: string, n: nat) returns (bytes: seq<Byte>)
    requires AreHexDigits(s) && |s| == 2 * n
    ensures |bytes| == n && Hex(bytes) == s
    decreases n
  {
    if n == 0 {
      bytes := [];
    } else {
      var rest := DigitsAreHex(s[2..], n - 1);
      var b := ByteOfDigits(s[0], s[1]);
      bytes := [b] + rest;
      HexCons(b, rest);
      assert s == [s[0], s[1]] + s[2..];
    }
  }

  lemma ByteOfDigits(c: char, d: char) returns (b: Byte)
    requires IsHexDigit(c) && IsHexDigit(d)
    ensures DIGITS[b / 16] == c && DIGITS[b % 16] == d
  {
    b := DigitValue(c) * 16 + DigitValue(d);
    assert b / 16 == DigitValue(c) && b % 16 == DigitValue(d);
    DigitOfValue(c);
    DigitOfValue(d);
  }

  lemma HexCons(b: Byte, rest: seq<Byte>)
    ensures Hex([b] + rest) == [DIGITS[b / 16], DIGITS[b % 16]] + Hex(rest)
  {
    assert ([b] + rest)[1..] == rest;
  }

  /** The spellings of digests are exactly the strings of 64 lower-case hexadecimal digits. */
  lemma DigestSpellings(s: string)
    ensures SpellsDigest(s) <==> |s| == 64 && AreHexDigits(s)
  {
    if SpellsDigest(s) {
      var bytes: seq<Byte> :| |bytes| == 32 && s == Hex(bytes);
      HexHasDigits(bytes);
    }
    if |s| == 64 && AreHexDigits(s) {
      var bytes := DigitsAreHex(s, 32);
    }
  }
}
