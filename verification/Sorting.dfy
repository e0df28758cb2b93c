/** `sorted` on a set of strings: strictly ascending by code point, without repetition. */
module Sorting {

  predicate Less(a: string, b: string) {
    if b == "" then false
    else if a == "" then true
    else a[0] < b[0] || (a[0] == b[0] && Less(a[1..], b[1..]))
  }

  lemma {:induction false} LessIsTransitive(a: string, b: string, c: string)
    requires Less(a, b) && Less(b, c)
    ensures Less(a, c)
    decreases |a|
  {
    if a != "" && a[0] == b[0] == c[0] {
      LessIsTransitive(a[1..], b[1..], c[1..]);
    }
  }

  lemma {:induction false} LessIsTotal(a: string, b: string)
    ensures a == b || Less(a, b) || Less(b, a)
    ensures !(Less(a, b) && Less(b, a)) && !Less(a, a)
    decreases |a|
  {
    if a != "" {
      LessIsTotal(a[1..], a[1..]);
      if b != "" {
        LessIsTotal(a[1..], b[1..]);
        assert a[0] == b[0] && a[1..] == b[1..] ==> a == [a[0]] + a[1..] == b;
      }
    }
  }

  /** The first `k` characters agree, and then `a` ends or has the smaller character. */
  ghost predicate IsLessAt(a: string, b: string, k: nat) {
    k <= |a| && k < |b| && a[..k] == b[..k] && (k == |a| || a[k] < b[k])
  }

  /** The order is the lexicographic one, by code point. */
  lemma {:induction false} LessIsLexicographic(a: string, b: string)
    ensures Less(a, b) <==> exists k :: IsLessAt(a, b, k)
    decreases |a|
  {
    if a == "" || b == "" || a[0] != b[0] {
      assert IsLessAt(a, b, 0) <==> b != "" && (a == "" || a[0] < b[0]);
      forall k: nat | IsLessAt(a, b, k) ensures k == 0 {
        if k > 0 {
          FirstCharsAgree(a, b, k);
        }
      }
    } else {
      LessIsLexicographic(a[1..], b[1..]);
      assert !IsLessAt(a, b, 0);
      forall k: nat ensures IsLessAt(a, b, k + 1) <==> IsLessAt(a[1..], b[1..], k) {
        LessAtTail(a, b, k);
      }
      if k: nat :| IsLessAt(a, b, k) {
        assert IsLessAt(a[1..], b[1..], k - 1);
      }
    }
  }

  lemma FirstCharsAgree(a: string, b: string, k: nat)
    requires k > 0 && IsLessAt(a, b, k)
    ensures a != "" && b != "" && a[0] == b[0]
  {
    assert a[..k][0] == b[..k][0];
  }

  lemma LessAtTail(a: string, b: string, k: nat)
    requires a != "" && b != "" && a[0] == b[0]
    ensures IsLessAt(a, b, k + 1) <==> IsLessAt(a[1..], b[1..], k)
  {
    if k + 1 <= |a| && k + 1 < |b| {
      assert a[..k + 1] == [a[0]] + a[1..][..k] && b[..k + 1] == [b[0]] + b[1..][..k];
      assert a[..k + 1][1..] == a[1..][..k] && b[..k + 1][1..] == b[1..][..k];
    }
  }

  predicate IsAscending(xs: seq<string>) {
    forall i, j :: 0 <= i < j < |xs| ==> Less(xs[i], xs[j])
  }

  /** `xs` lists the members of `s` in ascending order. */
  predicate IsSorted(xs: seq<string>, s: set<string>) {
    IsAscending(xs) && (forall x :: x in xs ==> x in s) && forall x :: x in s ==> x in xs
  }

  lemma {:induction false} SortedIsUnique(xs: seq<string>, ys: seq<string>, s: set<string>)
    requires IsSorted(xs, s) && IsSorted(ys, s)
    ensures xs == ys
    decreases |xs|
  {
    assert |xs| == 0 || xs[0] in s;
    assert |ys| == 0 || ys[0] in s;
    if xs != [] {
      FirstIsLeast(xs, ys, s);
      WithoutFirst(xs, s);
      WithoutFirst(ys, s);
      SortedIsUnique(xs[1..], ys[1..], s - {xs[0]});
      assert xs == [xs[0]] + xs[1..];
    }
  }

  lemma FirstIsLeast(xs: seq<string>, ys: seq<string>, s: set<string>)
    requires IsSorted(xs, s) && IsSorted(ys, s) && xs != [] && ys != []
    ensures xs[0] == ys[0]
  {
    assert xs[0] in s && ys[0] in s;
    var i :| 0 <= i < |xs| && xs[i] == ys[0];
    var j :| 0 <= j < |ys| && ys[j] == xs[0];
    LessIsTotal(xs[0], ys[0]);
  }

  lemma WithoutFirst(xs: seq<string>, s: set<string>)
    requires IsSorted(xs, s) && xs != []
    ensures IsSorted(xs[1..], s - {xs[0]})
  {
    LessIsTotal(xs[0], xs[0]);
    forall x | x in xs[1..] ensures x in s && x != xs[0] {
      var i :| 0 <= i < |xs| - 1 && xs[1..][i] == x;
      assert Less(xs[0], xs[i + 1]);
    }
  }

  /** The place of `x` in an ascending list. */
  method InsertionPoint(xs: seq<string>, x: string) returns (k: nat)
    requires IsAscending(xs) && x !in xs
    ensures k <= |xs|
    ensures forall i :: 0 <= i < k ==> Less(xs[i], x)
    ensures forall i :: k <= i < |xs| ==> Less(x, xs[i])
  {
    k := 0;
    while k < |xs| && Less(xs[k], x)
      invariant k <= |xs|
      invariant forall i :: 0 <= i < k ==> Less(xs[i], x)
    {
      k := k + 1;
    }
    forall i | k <= i < |xs| ensures Less(x, xs[i]) {
      LessIsTotal(x, xs[k]);
      if i > k {
        LessIsTransitive(x, xs[k], xs[i]);
      }
    }
  }

  method Sorted(s: set<string>) returns (xs: seq<string>)
    ensures IsSorted(xs, s)
  {
    xs := [];
    var rest := s;
    while rest != {}
      invariant rest <= s && IsSorted(xs, s - rest)
      decreases rest
    {
      var x :| x in rest;
      var k := InsertionPoint(xs, x);
      InsertionKeepsSorted(xs, s - rest, x, k);
      rest := rest - {x};
      xs := xs[..k] + [x] + xs[k..];
      assert s - rest == s - (rest + {x}) + {x};
    }
  }

  lemma InsertionKeepsSorted(xs: seq<string>, s: set<string>, x: string, k: nat)
    requires IsSorted(xs, s) && k <= |xs|
    requires forall i :: 0 <= i < k ==> Less(xs[i], x)
    requires forall i :: k <= i < |xs| ==> Less(x, xs[i])
    ensures IsSorted(xs[..k] + [x] + xs[k..], s + {x})
  {
    var ys := xs[..k] + [x] + xs[k..];
    forall i, j | 0 <= i < j < |ys| ensures Less(ys[i], ys[j]) {
      assert i < k ==> ys[i] == xs[i];
      assert i > k ==> ys[i] == xs[i - 1];
      assert j < k ==> ys[j] == xs[j];
      assert j > k ==> ys[j] == xs[j - 1];
    }
    assert xs == xs[..k] + xs[k..];
    assert forall y :: y in ys <==> y in xs[..k] || y == x || y in xs[k..];
  }
}
