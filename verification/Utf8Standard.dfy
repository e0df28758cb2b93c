/** What makes the encoding UTF-8: the grammar in section 4 of RFC 3629 and the order of code points. */
module Utf8Standard {
  import opened Results
  import opened Utf8
  import Sorting

  // ----- the grammar

  predicate IsBetween(b: Byte, lo: int, hi: int) {
    lo <= b <= hi
  }

  predicate AreTails(b: seq<Byte>, from: nat) {
    forall k :: from <= k < |b| ==> IsBetween(b[k], 0x80, 0xBF)
  }

  /** The byte sequences of one character, rule by rule. */
  predicate IsWellFormedChar(b: seq<Byte>) {
    match |b|
    case 1 => IsBetween(b[0], 0x00, 0x7F)
    case 2 => IsBetween(b[0], 0xC2, 0xDF) && AreTails(b, 1)
    case 3 =>
      || (b[0] == 0xE0 && IsBetween(b[1], 0xA0, 0xBF) && AreTails(b, 2))
      || (IsBetween(b[0], 0xE1, 0xEC) && AreTails(b, 1))
      || (b[0] == 0xED && IsBetween(b[1], 0x80, 0x9F) && AreTails(b, 2))
      || (IsBetween(b[0], 0xEE, 0xEF) && AreTails(b, 1))
    case 4 =>
      || (b[0] == 0xF0 && IsBetween(b[1], 0x90, 0xBF) && AreTails(b, 2))
      || (IsBetween(b[0], 0xF1, 0xF3) && AreTails(b, 1))
      || (b[0] == 0xF4 && IsBetween(b[1], 0x80, 0x8F) && AreTails(b, 2))
    case _ => false
  }

  lemma EncodedIsWellFormed(c: char)
    ensures IsWellFormedChar(EncodeChar(c))
  {
    var v := c as int;
    if 0x800 <= v < 0x1_0000 {
      ThreeBytesAreWellFormed(c);
    } else if 0x1_0000 <= v {
      FourBytesAreWellFormed(c);
    }
  }

  lemma ThreeBytesAreWellFormed(c: char)
    requires 0x800 <= c as int < 0x1_0000
    ensures IsWellFormedChar(EncodeChar(c))
  {
    var v := c as int;
    assert v == 4096 * (v / 4096) + 64 * (v / 64 % 64) + v % 64;
    assert v < 0xD800 || 0xE000 <= v;
  }

  lemma FourBytesAreWellFormed(c: char)
    requires 0x1_0000 <= c as int
    ensures IsWellFormedChar(EncodeChar(c))
  {
    var v := c as int;
    assert v == 262144 * (v / 262144) + 4096 * (v / 4096 % 64) + 64 * (v / 64 % 64) + v % 64;
    assert v < 0x11_0000;
  }

  lemma WellFormedIsEncoded(b: seq<Byte>) returns (c: char)
    requires IsWellFormedChar(b)
    ensures EncodeChar(c) == b
  {
    c := DecodeFirst(b).value.c;
    EncodedFirst(b);
    assert b[..|b|] == b;
  }

  /** The encodings of single characters are exactly the well-formed sequences. */
  lemma EncodingsAreWellFormed(b: seq<Byte>)
    ensures (exists c :: EncodeChar(c) == b) <==> IsWellFormedChar(b)
  {
    if c :| EncodeChar(c) == b {
      EncodedIsWellFormed(c);
    }
    if IsWellFormedChar(b) {
      var c := WellFormedIsEncoded(b);
    }
  }

  // ----- the order

  /** Bytes in lexicographic order. */
  predicate BytesLess(a: seq<Byte>, b: seq<Byte>) {
    if b == [] then false
    else if a == [] then true
    else a[0] < b[0] || (a[0] == b[0] && BytesLess(a[1..], b[1..]))
  }

  lemma {:induction false} FirstDifferenceDecides(a: seq<Byte>, b: seq<Byte>, k: nat)
    requires k < |a| && k < |b| && a[..k] == b[..k] && a[k] < b[k]
    ensures BytesLess(a, b) && !BytesLess(b, a)
    decreases k
  {
    if k > 0 {
      assert a[0] == a[..k][0] == b[..k][0] == b[0];
      assert a[1..][..k - 1] == a[..k][1..] == b[..k][1..] == b[1..][..k - 1];
      FirstDifferenceDecides(a[1..], b[1..], k - 1);
    }
  }

  lemma {:induction false} CommonPrefixCancels(p: seq<Byte>, a: seq<Byte>, b: seq<Byte>)
    ensures BytesLess(p + a, p + b) <==> BytesLess(a, b)
    decreases |p|
  {
    if p == [] {
      assert p + a == a && p + b == b;
    } else {
      assert (p + a)[1..] == p[1..] + a && (p + b)[1..] == p[1..] + b;
      CommonPrefixCancels(p[1..], a, b);
    }
  }

  lemma SixBits(v: nat, w: nat)
    requires v <= w
    ensures v / 64 <= w / 64
    ensures v / 64 == w / 64 ==> v % 64 <= w % 64
    ensures v / 64 == w / 64 && v % 64 == w % 64 ==> v == w
  {
  }

  lemma Shifts(v: nat)
    ensures v / 4096 == v / 64 / 64 && v / 262144 == v / 64 / 64 / 64
  {
  }

  lemma FirstBytes(c: char)
    ensures var (v, n, b) := (c as int, |EncodeChar(c)|, EncodeChar(c)[0]);
      && (n == 1 <==> v < 0x80) && (n == 2 <==> 0x80 <= v < 0x800)
      && (n == 3 <==> 0x800 <= v < 0x1_0000) && (n == 4 <==> 0x1_0000 <= v)
      && (n == 1 ==> b < 0x80) && (n == 2 ==> 0xC0 <= b < 0xE0)
      && (n == 3 ==> 0xE0 <= b < 0xF0) && (n == 4 ==> 0xF0 <= b)
  {
    EncodedIsWellFormed(c);
  }

  /** The encodings of a smaller and a larger character first differ where the smaller has the smaller byte. */
  lemma FirstDifference(c: char, d: char) returns (k: nat)
    requires c < d
    ensures k < |EncodeChar(c)| && k < |EncodeChar(d)|
    ensures EncodeChar(c)[..k] == EncodeChar(d)[..k] && EncodeChar(c)[k] < EncodeChar(d)[k]
  {
    FirstBytes(c);
    FirstBytes(d);
    if |EncodeChar(c)| != |EncodeChar(d)| {
      k := 0;
    } else {
      k := DifferenceInLength(c, d);
    }
  }

  lemma DifferenceInLength(c: char, d: char) returns (k: nat)
    requires c < d && |EncodeChar(c)| == |EncodeChar(d)|
    ensures k < |EncodeChar(c)|
    ensures EncodeChar(c)[..k] == EncodeChar(d)[..k] && EncodeChar(c)[k] < EncodeChar(d)[k]
  {
    var v, w, n := c as int, d as int, |EncodeChar(c)|;
    FirstBytes(c);
    FirstBytes(d);
    Shifts(v);
    Shifts(w);
    SixBits(v, w);
    SixBits(v / 64, w / 64);
    SixBits(v / 4096, w / 4096);
    if n == 1 {
      k := 0;
    } else if n == 2 {
      k := if v / 64 != w / 64 then 0 else 1;
    } else if n == 3 {
      k := if v / 4096 != w / 4096 then 0 else if v / 64 != w / 64 then 1 else 2;
    } else {
      k := if v / 262144 != w / 262144 then 0
           else if v / 4096 != w / 4096 then 1 else if v / 64 != w / 64 then 2 else 3;
    }
  }

  lemma CharOrder(c: char, d: char, x: seq<Byte>, y: seq<Byte>)
    requires c < d
    ensures BytesLess(EncodeChar(c) + x, EncodeChar(d) + y) && !BytesLess(EncodeChar(d) + y, EncodeChar(c) + x)
  {
    var k := FirstDifference(c, d);
    var a, b := EncodeChar(c) + x, EncodeChar(d) + y;
    assert a[..k] == EncodeChar(c)[..k] && b[..k] == EncodeChar(d)[..k];
    FirstDifferenceDecides(a, b, k);
  }

  /** Byte order is code-point order. */
  lemma {:induction false} EncodingKeepsOrder(s: string, t: string)
    ensures Sorting.Less(s, t) <==> BytesLess(Encode(s), Encode(t))
    decreases |s|
  {
    if s != "" && t != "" {
      if s[0] == t[0] {
        EncodingKeepsOrder(s[1..], t[1..]);
        CommonPrefixCancels(EncodeChar(s[0]), Encode(s[1..]), Encode(t[1..]));
      } else if s[0] < t[0] {
        CharOrder(s[0], t[0], Encode(s[1..]), Encode(t[1..]));
      } else {
        CharOrder(t[0], s[0], Encode(t[1..]), Encode(s[1..]));
      }
    }
  }

  /** A text is encoded character by character. */
  lemma {:induction false} EncodingIsByCharacter(s: string, t: string, c: char)
    ensures Encode(s + t) == Encode(s) + Encode(t) && Encode([c]) == EncodeChar(c)
    decreases |s|
  {
    assert [c][1..] == "" && EncodeChar(c) + [] == EncodeChar(c);
    if s == "" {
      assert s + t == t;
    } else {
      assert (s + t)[1..] == s[1..] + t;
      EncodingIsByCharacter(s[1..], t, c);
    }
  }

  // ----- there is only one such encoding

  ghost predicate IsOntoGrammar(encode: char -> seq<Byte>) {
    forall b :: (exists c :: encode(c) == b) <==> IsWellFormedChar(b)
  }

  ghost predicate KeepsOrder(encode: char -> seq<Byte>) {
    forall c, d :: c < d ==> BytesLess(encode(c), encode(d))
  }

  lemma {:induction false} LessIsIrreflexive(a: seq<Byte>)
    ensures !BytesLess(a, a)
    decreases |a|
  {
    if a != [] {
      LessIsIrreflexive(a[1..]);
    }
  }

  lemma CharsKeepOrder(c: char, d: char)
    requires c < d
    ensures BytesLess(EncodeChar(c), EncodeChar(d)) && !BytesLess(EncodeChar(d), EncodeChar(c))
  {
    CharOrder(c, d, [], []);
    assert EncodeChar(c) + [] == EncodeChar(c) && EncodeChar(d) + [] == EncodeChar(d);
  }

  /** An encoding whose images are exactly the well-formed sequences and that keeps the order of the code
      points is this one. */
  lemma {:induction false} EncodingIsUnique(encode: char -> seq<Byte>, c: char)
    requires IsOntoGrammar(encode) && KeepsOrder(encode)
    ensures encode(c) == EncodeChar(c)
    decreases c as int
  {
    forall e: char | e < c ensures encode(e) == EncodeChar(e) {
      EncodingIsUnique(encode, e);
    }
    var d := WellFormedIsEncoded(encode(c));
    if d < c {
      LessIsIrreflexive(encode(c));
    } else if c < d {
      EncodedIsWellFormed(c);
      var e :| encode(e) == EncodeChar(c);
      CharsKeepOrder(c, d);
      if e < c {
        CharsKeepOrder(e, c);
        LessIsIrreflexive(EncodeChar(c));
      }
    }
  }
}
