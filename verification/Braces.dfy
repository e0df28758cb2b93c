/** Brace expansion of globs: `a{b,c}d` stands for `abd` and `acd`. */
module Braces {
  import opened Results
  import Text

  ghost function Openings(s: string): nat {
    multiset(s)['{']
  }

  /** The recursive expansion: the first group is expanded in declaration order and each choice
      is spliced back before the rest of the pattern is expanded. */
  function ExpandBraces(pattern: string): (expanded: Result<seq<string>>)
    ensures expanded.Err? ==> expanded.error == MalformedBrace
    decreases Openings(pattern), 0, 0
  {
    var opening := Text.Find(pattern, '{', 0);
    if opening == |pattern| then
      if '}' in pattern then Err(MalformedBrace) else Ok([pattern])
    else
      var closing := Text.Find(pattern, '}', opening + 1);
      if closing == |pattern| || '{' in pattern[opening + 1..closing] then Err(MalformedBrace)
      else
        var choices := Text.Split(pattern[opening + 1..closing], ',');
        if |choices| < 2 || "" in choices then Err(MalformedBrace)
        else
          SplicingRemovesAnOpening(pattern, opening, closing);
          ExpandEach(pattern[..opening], choices, pattern[closing + 1..])
  }

  function ExpandEach(before: string, choices: seq<string>, after: string): (expanded: Result<seq<string>>)
    requires Text.FreeOf(choices, '{')
    ensures expanded.Err? ==> expanded.error == MalformedBrace
    decreases Openings(before + after), 1, |choices|
  {
    if choices == [] then Ok([])
    else
      SpliceCount(before, choices[0], after);
      var first := ExpandBraces(before + choices[0] + after);
      if first.Err? then first
      else
        var others := ExpandEach(before, choices[1..], after);
        if others.Err? then others else Ok(first.value + others.value)
  }

  lemma SpliceCount(before: string, choice: string, after: string)
    requires '{' !in choice
    ensures Openings(before + choice + after) == Openings(before + after) == Openings(before) + Openings(after)
  {
  }

  lemma SplicingRemovesAnOpening(pattern: string, opening: nat, closing: nat)
    requires opening < closing < |pattern| && pattern[opening] == '{'
    requires '{' !in pattern[opening + 1..closing]
    ensures Openings(pattern[..opening] + pattern[closing + 1..]) < Openings(pattern)
    ensures Text.FreeOf(Text.Split(pattern[opening + 1..closing], ','), '{')
  {
    assert pattern == pattern[..opening] + ['{'] + pattern[opening + 1..closing + 1] + pattern[closing + 1..];
    SplitKeepsOut(pattern[opening + 1..closing], '{');
  }

  lemma SplitKeepsOut(body: string, c: char)
    requires c !in body
    ensures Text.FreeOf(Text.Split(body, ','), c)
  {
    var parts := Text.Split(body, ',');
    forall k | 0 <= k < |parts| ensures c !in parts[k] {
      var at := Text.PartIsStretch(body, ',', k);
      assert forall d :: d in parts[k] ==> d in body[at..at + |parts[k]|];
    }
  }

  // ----- the grammar of well-formed patterns and what it denotes

  /** A pattern read as brace-free text, groups of choices and more pattern. */
  datatype Braced =
    | Plain(text: string)
    | Group(before: string, choices: seq<string>, rest: Braced)

  ghost predicate BraceFree(s: string) {
    '{' !in s && '}' !in s
  }

  ghost predicate IsChoice(s: string) {
    s != "" && BraceFree(s) && ',' !in s
  }

  ghost predicate AreChoices(choices: seq<string>) {
    forall k :: 0 <= k < |choices| ==> IsChoice(choices[k])
  }

  ghost predicate WellFormed(b: Braced) {
    match b
    case Plain(text) => BraceFree(text)
    case Group(before, choices, rest) =>
      BraceFree(before) && |choices| >= 2 && AreChoices(choices) && WellFormed(rest)
  }

  ghost function Written(b: Braced): string {
    match b
    case Plain(text) => text
    case Group(before, choices, rest) => before + ("{" + Text.Join(choices, ',') + "}" + Written(rest))
  }

  ghost function Prepend(x: string, ys: seq<string>): (zs: seq<string>)
    ensures |zs| == |ys|
  {
    seq(|ys|, k requires 0 <= k < |ys| => x + ys[k])
  }

  /** The strings a pattern stands for. */
  ghost function Product(b: Braced): seq<string> {
    match b
    case Plain(text) => [text]
    case Group(before, choices, rest) => Spread(before, choices, Product(rest))
  }

  ghost function Spread(before: string, choices: seq<string>, ys: seq<string>): seq<string> {
    if choices == [] then [] else Prepend(before + choices[0], ys) + Spread(before, choices[1..], ys)
  }

  // ----- expansion computes the product

  ghost function Prefixed(x: string, r: Result<seq<string>>): Result<seq<string>> {
    if r.Err? then r else Ok(Prepend(x, r.value))
  }

  ghost function ExpandGroup(before: string, body: string, after: string): Result<seq<string>>
    requires '{' !in body
  {
    var choices := Text.Split(body, ',');
    if |choices| < 2 || "" in choices then Err(MalformedBrace)
    else
      SplitKeepsOut(body, '{');
      ExpandEach(before, choices, after)
  }

  lemma GroupPlaces(before: string, body: string, after: string)
    requires '}' !in body
    ensures var s, opening, closing := before + ("{" + body + "}" + after), |before|, |before| + 1 + |body|;
      && s[..opening] == before && s[opening + 1..closing] == body && s[closing + 1..] == after
      && s[closing] == '}' && forall i :: opening < i < closing ==> s[i] != '}'
  {
    var s := before + ("{" + body + "}" + after);
    forall i | |before| < i < |before| + 1 + |body| ensures s[i] != '}' {
      assert s[i] == body[i - |before| - 1];
    }
  }

  lemma ReadsAt(s: string, opening: nat, closing: nat)
    requires opening < closing < |s| && Text.Find(s, '{', 0) == opening && Text.Find(s, '}', opening + 1) == closing
    requires '{' !in s[opening + 1..closing]
    ensures ExpandBraces(s) == ExpandGroup(s[..opening], s[opening + 1..closing], s[closing + 1..])
  {
  }

  /** How a pattern whose first group is visible expands. */
  lemma ReadsGroup(before: string, body: string, after: string)
    requires '{' !in before && BraceFree(body)
    ensures ExpandBraces(before + ("{" + body + "}" + after)) == ExpandGroup(before, body, after)
  {
    var s := before + ("{" + body + "}" + after);
    var opening, closing := |before|, |before| + 1 + |body|;
    Text.FindIsFirst(s, '{', 0, opening);
    GroupPlaces(before, body, after);
    Text.FindIsFirst(s, '}', opening + 1, closing);
    ReadsAt(s, opening, closing);
  }

  /** The first opening brace is closed with no other in between. */
  predicate ShowsGroup(s: string) {
    var opening := Text.Find(s, '{', 0);
    opening < |s| &&
    var closing := Text.Find(s, '}', opening + 1);
    closing < |s| && '{' !in s[opening + 1..closing]
  }

  lemma UnshownGroupFails(s: string)
    requires '{' in s && !ShowsGroup(s)
    ensures ExpandBraces(s).Err?
  {
  }

  lemma FirstGroup(s: string) returns (before: string, body: string, after: string)
    requires ShowsGroup(s)
    ensures '{' !in before && BraceFree(body)
    ensures s == before + ("{" + body + "}" + after)
    ensures Openings(before + after) < Openings(s)
  {
    var opening := Text.Find(s, '{', 0);
    var closing := Text.Find(s, '}', opening + 1);
    before, body, after := s[..opening], s[opening + 1..closing], s[closing + 1..];
    CutAround(s, opening, closing);
    SplicingRemovesAnOpening(s, opening, closing);
    KeptOut(s, opening + 1, closing, '}');
    KeptOut(s, 0, opening, '{');
  }

  lemma KeptOut(s: string, i: nat, j: nat, c: char)
    requires i <= j <= |s| && forall k :: i <= k < j ==> s[k] != c
    ensures c !in s[i..j]
  {
  }

  lemma CutAround(s: string, i: nat, j: nat)
    requires i < j < |s| && s[i] == '{' && s[j] == '}'
    ensures s == s[..i] + ("{" + s[i + 1..j] + "}" + s[j + 1..])
  {
  }

  lemma ShowsGroupBehindPrefix(x: string, s: string)
    requires '{' !in x && '{' in s
    ensures ShowsGroup(x + s) == ShowsGroup(s)
  {
    var opening := Text.Find(s, '{', 0);
    Text.FindIsFirst(x + s, '{', 0, |x| + opening);
    var closing := Text.Find(s, '}', opening + 1);
    FindBehindPrefix(x, s, opening + 1);
    if closing < |s| {
      assert (x + s)[|x| + opening + 1..|x| + closing] == s[opening + 1..closing];
    }
  }

  lemma FindBehindPrefix(x: string, s: string, from: nat)
    requires from <= |s|
    ensures Text.Find(x + s, '}', |x| + from) == |x| + Text.Find(s, '}', from)
  {
    var k := Text.Find(s, '}', from);
    if k < |s| {
      Text.FindIsFirst(x + s, '}', |x| + from, |x| + k);
    }
  }

  lemma PrependConcat(x: string, ys: seq<string>, zs: seq<string>)
    ensures Prepend(x, ys + zs) == Prepend(x, ys) + Prepend(x, zs)
  {
  }

  /** Brace-free text in front of a pattern stays in front of each of its expansions. */
  lemma {:induction false} PrefixPassesThrough(x: string, s: string)
    requires BraceFree(x)
    ensures ExpandBraces(x + s) == Prefixed(x, ExpandBraces(s))
    decreases Openings(s), 0, 0
  {
    if '{' !in s {
      assert '}' in x + s <==> '}' in s;
      assert Prepend(x, [s]) == [x + s];
    } else {
      ShowsGroupBehindPrefix(x, s);
      if ShowsGroup(s) {
        var before, body, after := FirstGroup(s);
        assert x + s == (x + before) + ("{" + body + "}" + after);
        ReadsGroup(before, body, after);
        ReadsGroup(x + before, body, after);
        SplitKeepsOut(body, '{');
        PrefixPassesThroughEach(x, before, Text.Split(body, ','), after);
      } else {
        UnshownGroupFails(s);
        UnshownGroupFails(x + s);
      }
    }
  }

  lemma {:induction false} PrefixPassesThroughEach(x: string, before: string, choices: seq<string>, after: string)
    requires BraceFree(x) && Text.FreeOf(choices, '{')
    ensures ExpandEach(x + before, choices, after) == Prefixed(x, ExpandEach(before, choices, after))
    decreases Openings(before + after), 1, |choices|
  {
    if choices != [] {
      var spliced := before + choices[0] + after;
      SpliceCount(before, choices[0], after);
      assert (x + before) + choices[0] + after == x + spliced;
      PrefixPassesThrough(x, spliced);
      PrefixPassesThroughEach(x, before, choices[1..], after);
      var first, others := ExpandBraces(spliced), ExpandEach(before, choices[1..], after);
      if first.Ok? && others.Ok? {
        PrependConcat(x, first.value, others.value);
      }
    }
  }

  /** One group: the expansions of what follows, once for each choice, choices outermost. */
  lemma {:induction false} GroupExpands(before: string, choices: seq<string>, after: string, ys: seq<string>)
    requires BraceFree(before) && AreChoices(choices) && Text.FreeOf(choices, '{')
    requires ExpandBraces(after) == Ok(ys)
    ensures ExpandEach(before, choices, after) == Ok(Spread(before, choices, ys))
    decreases |choices|
  {
    if choices != [] {
      assert IsChoice(choices[0]);
      PrefixPassesThrough(before + choices[0], after);
      GroupExpands(before, choices[1..], after, ys);
    }
  }

  lemma {:induction false} JoinIsBraceFree(choices: seq<string>)
    requires AreChoices(choices)
    ensures BraceFree(Text.Join(choices, ','))
    decreases |choices|
  {
    if |choices| == 1 {
      assert IsChoice(choices[0]);
    } else if |choices| > 1 {
      assert IsChoice(choices[0]);
      JoinIsBraceFree(choices[1..]);
    }
  }

  /** A well-formed pattern expands to the ordered product of its groups. */
  lemma {:induction false} ExpandsToProduct(b: Braced)
    requires WellFormed(b)
    ensures ExpandBraces(Written(b)) == Ok(Product(b))
    decreases b
  {
    if b.Group? {
      ExpandsToProduct(b.rest);
      JoinIsBraceFree(b.choices);
      ReadsGroup(b.before, Text.Join(b.choices, ','), Written(b.rest));
      ChoicesSeparate(b.choices);
      GroupExpands(b.before, b.choices, Written(b.rest), Product(b.rest));
    }
  }

  lemma ChoicesSeparate(choices: seq<string>)
    requires AreChoices(choices) && |choices| >= 1
    ensures Text.Split(Text.Join(choices, ','), ',') == choices
    ensures Text.FreeOf(choices, '{') && "" !in choices
  {
    forall k | 0 <= k < |choices| ensures ',' !in choices[k] && '{' !in choices[k] && choices[k] != "" {
      assert IsChoice(choices[k]);
    }
    Text.SplitOfJoin(choices, ',');
  }

  // ----- expansion fails on everything else

  lemma FirstChoiceDecides(before: string, body: string, after: string)
    requires '{' !in before && BraceFree(body)
    requires ExpandBraces(before + Text.Split(body, ',')[0] + after).Err?
    ensures ExpandBraces(before + ("{" + body + "}" + after)).Err?
  {
    ReadsGroup(before, body, after);
    SplitKeepsOut(body, '{');
  }

  lemma FirstChoiceShrinks(before: string, body: string, after: string)
    requires '{' !in body
    ensures Openings(before + Text.Split(body, ',')[0] + after) == Openings(before + after)
  {
    SplitKeepsOut(body, '{');
    SpliceCount(before, Text.Split(body, ',')[0], after);
  }

  /** A closing brace before the first opening one survives every splice and is reported in the end. */
  lemma {:induction false} StrayClosingFails(x: string, s: string)
    requires '{' !in x && '}' in x
    ensures ExpandBraces(x + s).Err?
    decreases Openings(s)
  {
    if '{' !in s {
      NoGroupFails(x + s);
    } else {
      ShowsGroupBehindPrefix(x, s);
      if ShowsGroup(s) {
        var before, body, after := FirstGroup(s);
        FirstChoiceShrinks(before, body, after);
        StrayClosingFails(x, before + Text.Split(body, ',')[0] + after);
        StrayClosingPasses(x, s, before, body, after);
      } else {
        UnshownGroupFails(x + s);
      }
    }
  }

  lemma NoGroupFails(s: string)
    requires '{' !in s && '}' in s
    ensures ExpandBraces(s).Err?
  {
  }

  lemma StrayClosingPasses(x: string, s: string, before: string, body: string, after: string)
    requires '{' !in x && '{' !in before && BraceFree(body) && s == before + ("{" + body + "}" + after)
    requires ExpandBraces(x + (before + Text.Split(body, ',')[0] + after)).Err?
    ensures ExpandBraces(x + s).Err?
  {
    Regroup(x, before, Text.Split(body, ',')[0], after);
    FirstChoiceDecides(x + before, body, after);
    Regroup(x, before, "{" + body + "}" + after, "");
  }

  lemma Regroup(x: string, a: string, b: string, c: string)
    ensures x + (a + b + c) == (x + a) + b + c
    ensures c == "" ==> x + (a + b) == (x + a) + b
  {
  }

  lemma SplitChoices(body: string)
    requires BraceFree(body) && "" !in Text.Split(body, ',')
    ensures AreChoices(Text.Split(body, ',')) && Text.Join(Text.Split(body, ','), ',') == body
  {
    SplitKeepsOut(body, '{');
    SplitKeepsOut(body, '}');
    Text.JoinOfSplit(body, ',');
  }

  /** What a successful expansion tells about the first group and the pattern around it. */
  lemma GroupParts(before: string, body: string, after: string)
    requires '{' !in before && BraceFree(body)
    requires ExpandBraces(before + ("{" + body + "}" + after)).Ok?
    ensures BraceFree(before) && |Text.Split(body, ',')| >= 2 && AreChoices(Text.Split(body, ','))
    ensures Text.Join(Text.Split(body, ','), ',') == body
    ensures ExpandBraces(after).Ok?
  {
    var choice := Text.Split(body, ',')[0];
    if ExpandBraces(before + choice + after).Err? {
      FirstChoiceDecides(before, body, after);
    }
    GroupBody(before, body, after);
    assert IsChoice(choice);
    if '}' in before {
      Regroup(before, choice, after, "");
      StrayClosingFails(before, choice + after);
    } else {
      PrefixPassesThrough(before + choice, after);
    }
  }

  lemma GroupBody(before: string, body: string, after: string)
    requires '{' !in before && BraceFree(body)
    requires ExpandBraces(before + ("{" + body + "}" + after)).Ok?
    ensures |Text.Split(body, ',')| >= 2 && AreChoices(Text.Split(body, ','))
    ensures Text.Join(Text.Split(body, ','), ',') == body
  {
    ReadsGroup(before, body, after);
    SplitChoices(body);
  }

  /** Only well-formed patterns expand. */
  lemma {:induction false} OnlyWellFormedExpand(s: string) returns (b: Braced)
    requires ExpandBraces(s).Ok?
    ensures WellFormed(b) && Written(b) == s
    decreases Openings(s)
  {
    if '{' !in s {
      b := Plain(s);
    } else {
      if !ShowsGroup(s) {
        UnshownGroupFails(s);
      }
      var before, body, after := FirstGroup(s);
      GroupParts(before, body, after);
      SpliceCount(before, "", after);
      var rest := OnlyWellFormedExpand(after);
      b := Group(before, Text.Split(body, ','), rest);
    }
  }

  /** Expansion succeeds exactly on the well-formed patterns, and then yields their ordered product. */
  lemma ExpansionIsExact(s: string, xs: seq<string>)
    ensures ExpandBraces(s) == Ok(xs) <==> exists b :: WellFormed(b) && Written(b) == s && Product(b) == xs
  {
    if ExpandBraces(s) == Ok(xs) {
      var b := OnlyWellFormedExpand(s);
      ExpandsToProduct(b);
    }
    if exists b :: WellFormed(b) && Written(b) == s && Product(b) == xs {
      var b :| WellFormed(b) && Written(b) == s && Product(b) == xs;
      ExpandsToProduct(b);
    }
  }

  // ----- the order and the number of the expansions

  /** The product of the group sizes. */
  ghost function Size(b: Braced): nat {
    match b
    case Plain(_) => 1
    case Group(_, choices, rest) => |choices| * Size(rest)
  }

  /** One choice per group, the first group first. */
  ghost predicate IsSelection(b: Braced, v: seq<nat>) {
    match b
    case Plain(_) => v == []
    case Group(_, choices, rest) => v != [] && v[0] < |choices| && IsSelection(rest, v[1..])
  }

  ghost function Selected(b: Braced, v: seq<nat>): string
    requires IsSelection(b, v)
  {
    match b
    case Plain(text) => text
    case Group(before, choices, rest) => before + choices[v[0]] + Selected(rest, v[1..])
  }

  /** The place of a selection: a mixed-radix numeral with the first group most significant. */
  ghost function Rank(b: Braced, v: seq<nat>): nat
    requires IsSelection(b, v)
  {
    match b
    case Plain(_) => 0
    case Group(_, choices, rest) => v[0] * Size(rest) + Rank(rest, v[1..])
  }

  lemma {:induction false} RowBound(a: nat, n: nat, r: nat, m: nat)
    requires a < n && r < m
    ensures a * m + r < n * m
    decreases n
  {
    if n > a + 1 {
      RowBound(a, n - 1, r, m);
      assert n * m == (n - 1) * m + m;
    } else {
      assert n * m == a * m + m;
    }
  }

  lemma {:induction false} SpreadAt(before: string, choices: seq<string>, ys: seq<string>, a: nat, r: nat)
    requires a < |choices| && r < |ys|
    ensures |Spread(before, choices, ys)| == |choices| * |ys|
    ensures a * |ys| + r < |choices| * |ys|
    ensures Spread(before, choices, ys)[a * |ys| + r] == before + choices[a] + ys[r]
    decreases |choices|
  {
    SpreadSize(before, choices, ys);
    RowBound(a, |choices|, r, |ys|);
    if a > 0 {
      SpreadAt(before, choices[1..], ys, a - 1, r);
      assert a * |ys| + r == |ys| + ((a - 1) * |ys| + r);
    }
  }

  lemma {:induction false} SpreadSize(before: string, choices: seq<string>, ys: seq<string>)
    ensures |Spread(before, choices, ys)| == |choices| * |ys|
    decreases |choices|
  {
    if choices != [] {
      SpreadSize(before, choices[1..], ys);
      assert |choices| * |ys| == |ys| + (|choices| - 1) * |ys|;
    }
  }

  /** There are as many expansions as selections, and each selection's string stands at its rank. */
  lemma {:induction false} ProductIsOrdered(b: Braced, v: seq<nat>)
    requires IsSelection(b, v)
    ensures |Product(b)| == Size(b) && Rank(b, v) < Size(b)
    ensures Product(b)[Rank(b, v)] == Selected(b, v)
    decreases b
  {
    if b.Group? {
      ProductIsOrdered(b.rest, v[1..]);
      SpreadAt(b.before, b.choices, Product(b.rest), v[0], Rank(b.rest, v[1..]));
    }
  }

  /** Ranks follow the lexicographic order of selections. */
  lemma {:induction false} RankIsLexicographic(b: Braced, v: seq<nat>, w: seq<nat>, k: nat)
    requires IsSelection(b, v) && IsSelection(b, w)
    requires k < |v| && k < |w| && v[..k] == w[..k] && v[k] < w[k]
    ensures Rank(b, v) < Rank(b, w)
    decreases b
  {
    if k == 0 {
      ProductIsOrdered(b.rest, v[1..]);
      RowBound(v[0], w[0], Rank(b.rest, v[1..]), Size(b.rest));
    } else {
      assert v[0] == v[..k][0] == w[..k][0] == w[0];
      assert v[1..][..k - 1] == v[..k][1..] == w[..k][1..] == w[1..][..k - 1];
      RankIsLexicographic(b.rest, v[1..], w[1..], k - 1);
    }
  }

  /** Every place in the list belongs to a selection. */
  lemma {:induction false} EveryPlaceIsSelected(b: Braced, k: nat) returns (v: seq<nat>)
    requires k < Size(b)
    ensures IsSelection(b, v) && Rank(b, v) == k
    decreases b
  {
    match b
    case Plain(_) => v := [];
    case Group(_, choices, rest) =>
      var m := Size(rest);
      var a := RowOf(k, |choices|, m);
      var inner := EveryPlaceIsSelected(rest, k - a * m);
      v := [a] + inner;
      assert v[1..] == inner;
  }

  lemma {:induction false} RowOf(k: nat, n: nat, m: nat) returns (a: nat)
    requires k < n * m
    ensures a < n && a * m <= k < a * m + m
    decreases n
  {
    if k >= (n - 1) * m {
      a := n - 1;
      assert n * m == (n - 1) * m + m;
    } else {
      a := RowOf(k, n - 1, m);
    }
  }

  // ----- consequences used by the selector

  /** Every expansion is brace-free, and there is at least one. */
  lemma ExpansionsAreBraceFree(s: string)
    requires ExpandBraces(s).Ok?
    ensures ExpandBraces(s).value != []
    ensures forall k :: 0 <= k < |ExpandBraces(s).value| ==> BraceFree(ExpandBraces(s).value[k])
  {
    var b := OnlyWellFormedExpand(s);
    ExpandsToProduct(b);
    ProductIsBraceFree(b);
  }

  lemma {:induction false} ProductIsBraceFree(b: Braced)
    requires WellFormed(b)
    ensures Product(b) != []
    ensures forall k :: 0 <= k < |Product(b)| ==> BraceFree(Product(b)[k])
    decreases b
  {
    if b.Group? {
      ProductIsBraceFree(b.rest);
      SpreadIsBraceFree(b.before, b.choices, Product(b.rest));
    }
  }

  lemma {:induction false} SpreadIsBraceFree(before: string, choices: seq<string>, ys: seq<string>)
    requires BraceFree(before) && AreChoices(choices)
    requires forall k :: 0 <= k < |ys| ==> BraceFree(ys[k])
    ensures choices != [] && ys != [] ==> Spread(before, choices, ys) != []
    ensures forall k :: 0 <= k < |Spread(before, choices, ys)| ==> BraceFree(Spread(before, choices, ys)[k])
    decreases |choices|
  {
    if choices != [] {
      assert IsChoice(choices[0]);
      SpreadIsBraceFree(before, choices[1..], ys);
    }
  }

  /** A pattern without braces stands for itself alone. */
  lemma BraceFreeExpandsToItself(s: string)
    requires BraceFree(s)
    ensures ExpandBraces(s) == Ok([s])
  {
  }

  /** A character that is not in the pattern is in none of its expansions. */
  lemma {:induction false} ExpansionsKeepOut(pattern: string, c: char)
    requires c !in pattern && ExpandBraces(pattern).Ok?
    ensures Text.FreeOf(ExpandBraces(pattern).value, c)
    decreases Openings(pattern), 0, 0
  {
    if '{' in pattern {
      if !ShowsGroup(pattern) {
        UnshownGroupFails(pattern);
      }
      var before, body, after := FirstGroup(pattern);
      ReadsGroup(before, body, after);
      assert c !in before && c !in body && c !in after;
      SplitKeepsOut(body, '{');
      SplitKeepsOut(body, c);
      EachKeepsOut(before, Text.Split(body, ','), after, c);
    }
  }

  lemma {:induction false} EachKeepsOut(before: string, choices: seq<string>, after: string, c: char)
    requires Text.FreeOf(choices, '{') && Text.FreeOf(choices, c) && c !in before && c !in after
    requires ExpandEach(before, choices, after).Ok?
    ensures Text.FreeOf(ExpandEach(before, choices, after).value, c)
    decreases Openings(before + after), 1, |choices|
  {
    if choices != [] {
      SpliceCount(before, choices[0], after);
      ExpansionsKeepOut(before + choices[0] + after, c);
      EachKeepsOut(before, choices[1..], after, c);
    }
  }
}
