/** UTF-8 as in section 4 of RFC 3629: `str.encode` and the strict `bytes.decode`. */
module Utf8 {
  import opened Results

  type Byte = b: int | 0 <= b < 256

  function EncodeChar(c: char): (bytes: seq<Byte>)
    ensures 1 <= |bytes| <= 4
  {
    var v := c as int;
    if v < 0x80 then [v]
    else if v < 0x800 then [0xC0 + v / 64, 0x80 + v % 64]
    else if v < 0x1_0000 then [0xE0 + v / 4096, 0x80 + v / 64 % 64, 0x80 + v % 64]
    else [0xF0 + v / 262144, 0x80 + v / 4096 % 64, 0x80 + v / 64 % 64, 0x80 + v % 64]
  }

  function Encode(s: string): seq<Byte> {
    if s == "" then [] else EncodeChar(s[0]) + Encode(s[1..])
  }

  predicate IsTail(b: Byte) {
    0x80 <= b <= 0xBF
  }

  predicate IsTwo(b: seq<Byte>) {
    |b| >= 2 && 0xC2 <= b[0] <= 0xDF && IsTail(b[1])
  }

  /** Three bytes, without overlong forms and surrogates. */
  predicate IsThree(b: seq<Byte>) {
    && |b| >= 3 && 0xE0 <= b[0] <= 0xEF && IsTail(b[1]) && IsTail(b[2])
    && (b[0] == 0xE0 ==> 0xA0 <= b[1])
    && (b[0] == 0xED ==> b[1] <= 0x9F)
  }

  /** Four bytes, without overlong forms and values above U+10FFFF. */
  predicate IsFour(b: seq<Byte>) {
    && |b| >= 4 && 0xF0 <= b[0] <= 0xF4 && IsTail(b[1]) && IsTail(b[2]) && IsTail(b[3])
    && (b[0] == 0xF0 ==> 0x90 <= b[1])
    && (b[0] == 0xF4 ==> b[1] <= 0x8F)
  }

  datatype Decoded = Decoded(c: char, length: nat)

  function TwoValue(x: int, y: int): int {
    (x - 0xC0) * 64 + (y - 0x80)
  }

  function ThreeValue(x: int, y: int, z: int): int {
    (x - 0xE0) * 4096 + (y - 0x80) * 64 + (z - 0x80)
  }

  function FourValue(w: int, x: int, y: int, z: int): int {
    (w - 0xF0) * 262144 + (x - 0x80) * 4096 + (y - 0x80) * 64 + (z - 0x80)
  }

  /** The first character, by the grammar of well-formed byte sequences. */
  function DecodeFirst(b: seq<Byte>): (d: Option<Decoded>)
    ensures d.Some? ==> 0 < d.value.length <= |b|
  {
    if |b| >= 1 && b[0] < 0x80 then Some(Decoded(b[0] as char, 1))
    else if IsTwo(b) then Some(Decoded(TwoValue(b[0], b[1]) as char, 2))
    else if IsThree(b) then Some(Decoded(ThreeValue(b[0], b[1], b[2]) as char, 3))
    else if IsFour(b) then Some(Decoded(FourValue(b[0], b[1], b[2], b[3]) as char, 4))
    else None
  }

  function Decode(b: seq<Byte>): Option<string> {
    if b == [] then Some("")
    else
      var first := DecodeFirst(b);
      if first.None? then None
      else
        var rest := Decode(b[first.value.length..]);
        if rest.None? then None else Some([first.value.c] + rest.value)
  }

  lemma FirstOfEncoded(c: char, rest: seq<Byte>)
    ensures DecodeFirst(EncodeChar(c) + rest) == Some(Decoded(c, |EncodeChar(c)|))
  {
    var v := c as int;
    var b := EncodeChar(c) + rest;
    if v < 0x80 {
    } else if v < 0x800 {
      assert IsTwo(b);
    } else if v < 0x1_0000 {
      ThreeDigits(v);
      assert IsThree(b) && !IsTwo(b);
    } else {
      FourDigits(v);
      assert IsFour(b) && !IsThree(b) && !IsTwo(b);
    }
  }

  lemma ThreeDigits(v: int)
    ensures v == v / 4096 * 4096 + v / 64 % 64 * 64 + v % 64
  {
    assert v / 64 / 64 == v / 4096;
  }

  lemma FourDigits(v: int)
    ensures v == v / 262144 * 262144 + v / 4096 % 64 * 4096 + v / 64 % 64 * 64 + v % 64
  {
    ThreeDigits(v);
    assert v / 4096 / 64 == v / 262144;
  }

  lemma Digits(x: int, y: int, z: int)
    requires 0 <= y < 64 && 0 <= z < 64
    ensures var v := x * 4096 + y * 64 + z; v / 4096 == x && v / 64 % 64 == y && v % 64 == z
  {
    var v := x * 4096 + y * 64 + z;
    assert v / 64 == x * 64 + y;
    assert v / 64 / 64 == v / 4096;
  }

  lemma MoreDigits(w: int, x: int, y: int, z: int)
    requires 0 <= x < 64 && 0 <= y < 64 && 0 <= z < 64
    ensures var v := w * 262144 + x * 4096 + y * 64 + z;
      v / 262144 == w && v / 4096 % 64 == x && v / 64 % 64 == y && v % 64 == z
  {
    var v := w * 262144 + x * 4096 + y * 64 + z;
    var high := w * 64 + x;
    Digits(high, y, z);
    assert v == high * 4096 + y * 64 + z;
    assert v / 4096 == high;
  }

  lemma EncodedTwo(b: seq<Byte>, c: char)
    requires IsTwo(b) && c as int == TwoValue(b[0], b[1])
    ensures EncodeChar(c) == [b[0], b[1]]
  {
    Digits(0, b[0] - 0xC0, b[1] - 0x80);
  }

  lemma EncodedThree(b: seq<Byte>, c: char)
    requires IsThree(b) && c as int == ThreeValue(b[0], b[1], b[2])
    ensures EncodeChar(c) == [b[0], b[1], b[2]]
  {
    Digits(b[0] - 0xE0, b[1] - 0x80, b[2] - 0x80);
  }

  lemma EncodedFour(b: seq<Byte>, c: char)
    requires IsFour(b) && c as int == FourValue(b[0], b[1], b[2], b[3])
    ensures EncodeChar(c) == [b[0], b[1], b[2], b[3]]
  {
    MoreDigits(b[0] - 0xF0, b[1] - 0x80, b[2] - 0x80, b[3] - 0x80);
  }

  lemma EncodedFirst(b: seq<Byte>)
    requires DecodeFirst(b).Some?
    ensures var d := DecodeFirst(b).value; b[..d.length] == EncodeChar(d.c)
  {
    var c := DecodeFirst(b).value.c;
    if b[0] >= 0x80 {
      if IsTwo(b) {
        EncodedTwo(b, c);
      } else if IsThree(b) {
        EncodedThree(b, c);
      } else {
        EncodedFour(b, c);
      }
    }
  }

  /** Decoding inverts encoding, and the strict decoder accepts nothing but encodings. */
  lemma DecodeInvertsEncode(b: seq<Byte>, s: string)
    ensures Decode(b) == Some(s) <==> Encode(s) == b
  {
    if Encode(s) == b { DecodeOfEncode(s); }
    if Decode(b) == Some(s) { EncodeOfDecode(b); }
  }

  lemma {:induction false} DecodeOfEncode(s: string)
    ensures Decode(Encode(s)) == Some(s)
    decreases |s|
  {
    if s != "" {
      var first, rest := EncodeChar(s[0]), Encode(s[1..]);
      FirstOfEncoded(s[0], rest);
      DecodeOfEncode(s[1..]);
      assert (first + rest)[|first|..] == rest;
      assert [s[0]] + s[1..] == s;
    }
  }

  lemma {:induction false} EncodeOfDecode(b: seq<Byte>)
    requires Decode(b).Some?
    ensures Encode(Decode(b).value) == b
    decreases |b|
  {
    if b != [] {
      var c, length := DecodedFirst(b);
      EncodeOfDecode(b[length..]);
      assert Decode(b).value[1..] == Decode(b[length..]).value;
    }
  }

  lemma DecodedFirst(b: seq<Byte>) returns (c: char, length: nat)
    requires b != [] && Decode(b).Some?
    ensures 0 < length <= |b| && b[..length] == EncodeChar(c)
    ensures Decode(b[length..]).Some? && Decode(b).value == [c] + Decode(b[length..]).value
  {
    EncodedFirst(b);
    c, length := DecodeFirst(b).value.c, DecodeFirst(b).value.length;
  }
}
