/** The string operations the selector builds on: `str.find`, `str.split` and `str.join`. */
module Text {

  /** The first index of `c` in `s` at or after `from`, or `|s|` when there is none. */
  function Find(s: string, c: char, from: nat): (k: nat)
    requires from <= |s|
    ensures from <= k <= |s|
    ensures k < |s| ==> s[k] == c
    ensures forall i :: from <= i < k ==> s[i] != c
    decreases |s| - from
  {
    if from == |s| || s[from] == c then from else Find(s, c, from + 1)
  }

  lemma FindIsFirst(s: string, c: char, from: nat, k: nat)
    requires from <= k < |s| && s[k] == c
    requires forall i :: from <= i < k ==> s[i] != c
    ensures Find(s, c, from) == k
  {
  }

  /** `s.split(sep)` for a one-character separator. */
  function Split(s: string, sep: char): (parts: seq<string>)
    ensures |parts| >= 1
    decreases |s|
  {
    var k := Find(s, sep, 0);
    if k == |s| then [s] else [s[..k]] + Split(s[k + 1..], sep)
  }

  /** `sep.join(parts)`. */
  function Join(parts: seq<string>, sep: char): string {
    if |parts| == 0 then ""
    else if |parts| == 1 then parts[0]
    else parts[0] + [sep] + Join(parts[1..], sep)
  }

  predicate FreeOf(parts: seq<string>, sep: char) {
    forall k :: 0 <= k < |parts| ==> sep !in parts[k]
  }

  lemma {:induction false} JoinOfSplit(s: string, sep: char)
    ensures Join(Split(s, sep), sep) == s
    ensures FreeOf(Split(s, sep), sep)
    decreases |s|
  {
    var k := Find(s, sep, 0);
    if k < |s| {
      var rest := Split(s[k + 1..], sep);
      JoinOfSplit(s[k + 1..], sep);
      assert ([s[..k]] + rest)[1..] == rest;
      assert s == s[..k] + [sep] + s[k + 1..];
    }
  }

  lemma {:induction false} SplitOfJoin(parts: seq<string>, sep: char)
    requires |parts| >= 1 && FreeOf(parts, sep)
    ensures Split(Join(parts, sep), sep) == parts
    decreases |parts|
  {
    var s := Join(parts, sep);
    if |parts| == 1 {
      assert Find(s, sep, 0) == |s|;
    } else {
      var rest := Join(parts[1..], sep);
      assert s == parts[0] + [sep] + rest;
      FindIsFirst(s, sep, 0, |parts[0]|);
      assert s[..|parts[0]|] == parts[0];
      assert s[|parts[0]| + 1..] == rest;
      SplitOfJoin(parts[1..], sep);
    }
  }

  lemma SplitOfOne(s: string, sep: char)
    requires sep !in s
    ensures Split(s, sep) == [s]
  {
  }

  /** `part` is the stretch of `s` that starts at `at`. */
  predicate IsStretch(s: string, part: string, at: nat) {
    at + |part| <= |s| && s[at..at + |part|] == part
  }

  /** Every part of a split is a stretch of the string. */
  lemma PartIsStretch(s: string, sep: char, n: nat) returns (at: nat)
    requires n < |Split(s, sep)|
    ensures IsStretch(s, Split(s, sep)[n], at)
  {
    at := PlaceOf(s, sep, Split(s, sep), n);
  }

  lemma {:induction false} PlaceOf(s: string, sep: char, parts: seq<string>, n: nat) returns (at: nat)
    requires parts == Split(s, sep) && n < |parts|
    ensures IsStretch(s, parts[n], at)
    decreases n
  {
    var k, tail := SplitTail(s, sep);
    assert parts[0] == s[..k];
    if n == 0 {
      at := 0;
    } else {
      var inner := PlaceOf(tail, sep, parts[1..], n - 1);
      at := k + 1 + inner;
      StretchOfTail(s, k + 1, inner, parts[n]);
    }
  }

  lemma SplitTail(s: string, sep: char) returns (k: nat, tail: string)
    ensures k <= |s| && Split(s, sep)[0] == s[..k]
    ensures |Split(s, sep)| > 1 ==> k < |s| && tail == s[k + 1..] && Split(s, sep)[1..] == Split(tail, sep)
  {
    k := Find(s, sep, 0);
    if k < |s| {
      tail := s[k + 1..];
      assert ([s[..k]] + Split(tail, sep))[1..] == Split(tail, sep);
    } else {
      tail := "";
    }
  }

  lemma StretchOfTail(s: string, from: nat, at: nat, part: string)
    requires from <= |s| && IsStretch(s[from..], part, at)
    ensures IsStretch(s, part, from + at)
  {
    assert s[from..][at..at + |part|] == s[from + at..from + at + |part|];
  }
}
