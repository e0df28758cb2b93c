/** The language of globs without recursion: how classes, tokens and parts are written, and what it takes
    to match, by cutting a word or a path into pieces. */
module GlobLanguage {
  import opened CharClasses
  import opened FiniteAlphabet
  import opened Paths
  import opened Sampling
  import opened Segments
  import Text

  // ----- classes

  /** A member of a class as it is written: one character, or two with a hyphen between them. */
  datatype Member = One(c: char) | Range(lo: char, hi: char)

  ghost function WrittenMembers(members: seq<Member>): string {
    if members == [] then ""
    else
      var rest := WrittenMembers(members[1..]);
      match members[0]
      case One(c) => [c] + rest
      case Range(lo, hi) => [lo, '-', hi] + rest
  }

  /** Members that can be told apart: no single character is followed by a hyphen and something more. */
  ghost predicate AreMembers(members: seq<Member>) {
    members == [] ||
    ((members[0].One? ==> var rest := WrittenMembers(members[1..]); !(|rest| >= 2 && rest[0] == '-'))
     && AreMembers(members[1..]))
  }

  predicate Includes(m: Member, c: char) {
    match m
    case One(x) => c == x
    case Range(lo, hi) => lo <= c <= hi
  }

  ghost predicate SomeIncludes(members: seq<Member>, c: char) {
    exists m :: m in members && Includes(m, c)
  }

  lemma SomeIncludesCons(m: Member, rest: seq<Member>, c: char)
    ensures SomeIncludes([m] + rest, c) <==> Includes(m, c) || SomeIncludes(rest, c)
  {
    assert m in [m] + rest;
  }

  lemma {:induction false} MembersHold(members: seq<Member>, c: char)
    requires AreMembers(members)
    ensures Holds(Items(WrittenMembers(members)), c) <==> SomeIncludes(members, c)
    decreases |members|
  {
    if members != [] {
      var content, rest := WrittenMembers(members), WrittenMembers(members[1..]);
      MembersHold(members[1..], c);
      SomeIncludesCons(members[0], members[1..], c);
      assert [members[0]] + members[1..] == members;
      assert content[0..] == content;
      match members[0]
      case One(x) =>
        assert content[1..] == rest;
        ReadsSingle(content, 0, c);
      case Range(lo, hi) =>
        assert content[3..] == rest;
        ReadsRange(content, 0, c);
    }
  }

  /** Every content of a class is written by members that can be told apart. */
  lemma {:induction false} EveryContentIsMembers(content: string) returns (members: seq<Member>)
    ensures AreMembers(members) && WrittenMembers(members) == content
    decreases |content|
  {
    if content == "" {
      members := [];
    } else if |content| > 2 && content[1] == '-' {
      var rest := EveryContentIsMembers(content[3..]);
      members := [Range(content[0], content[2])] + rest;
      assert members[1..] == rest;
      assert content == [content[0], '-', content[2]] + content[3..];
    } else {
      var rest := EveryContentIsMembers(content[1..]);
      members := [One(content[0])] + rest;
      assert members[1..] == rest;
      assert content == [content[0]] + content[1..];
    }
  }

  /** A class matches what one of its members includes; after a `!` it matches everything else. */
  lemma ClassesMatchThese(members: seq<Member>, c: char)
    requires AreMembers(members)
    ensures Denotes("!" + WrittenMembers(members), c) <==> !SomeIncludes(members, c)
    ensures var content := WrittenMembers(members);
      content == "" || content[0] != '!' ==> (Denotes(content, c) <==> SomeIncludes(members, c))
  {
    var content := WrittenMembers(members);
    MembersHold(members, c);
    assert ("!" + content)[1..] == content && ("!" + content)[0] == '!';
  }

  // ----- tokens

  ghost function WrittenToken(token: Token): string {
    match token
    case Star => "*"
    case AnyChar => "?"
    case Class(specification) => "[" + specification + "]"
    case Literal(c) => [c]
  }

  ghost function WrittenTokens(tokens: seq<Token>): string {
    if tokens == [] then "" else WrittenToken(tokens[0]) + WrittenTokens(tokens[1..])
  }

  /** A class ends with its first closing bracket; an opening bracket stands for itself only when no closing
      one follows; `*` and `?` never stand for themselves. */
  ghost predicate IsTokenBefore(token: Token, rest: string) {
    match token
    case Class(specification) => ']' !in specification
    case Literal(c) => c != '*' && c != '?' && (c == '[' ==> ']' !in rest)
    case _ => true
  }

  ghost predicate AreTokens(tokens: seq<Token>) {
    tokens == [] || (IsTokenBefore(tokens[0], WrittenTokens(tokens[1..])) && AreTokens(tokens[1..]))
  }

  lemma FindShifts(s: string, c: char, i: nat, from: nat)
    requires i <= from <= |s|
    ensures Text.Find(s[i..], c, from - i) == Text.Find(s, c, from) - i
  {
    var k := Text.Find(s, c, from);
    if k < |s| {
      Text.FindIsFirst(s[i..], c, from - i, k - i);
    } else {
      assert forall j :: from - i <= j < |s| - i ==> s[i..][j] == s[i + j];
    }
  }

  lemma TokenShifts(pattern: string, i: nat, j: nat)
    requires i <= j < |pattern|
    ensures TokenAt(pattern[i..], j - i) == TokenAt(pattern, j)
    ensures After(pattern[i..], j - i) == After(pattern, j) - i
  {
    FindShifts(pattern, ']', i, j + 1);
    var tail, k := pattern[i..], Text.Find(pattern, ']', j + 1);
    assert tail[j - i] == pattern[j];
    if k < |pattern| {
      assert tail[j - i + 1..k - i] == pattern[j + 1..k];
    }
  }

  lemma {:induction false} TokensShift(pattern: string, i: nat, j: nat)
    requires i <= j <= |pattern|
    ensures TokensFrom(pattern[i..], j - i) == TokensFrom(pattern, j)
    decreases |pattern| - j
  {
    if j < |pattern| {
      TokenShifts(pattern, i, j);
      TokensShift(pattern, i, After(pattern, j));
    }
  }

  lemma FirstToken(token: Token, rest: string)
    requires IsTokenBefore(token, rest)
    ensures var pattern := WrittenToken(token) + rest;
      pattern != "" && TokenAt(pattern, 0) == token && After(pattern, 0) == |WrittenToken(token)|
  {
    var pattern := WrittenToken(token) + rest;
    match token
    case Class(specification) =>
      var closing := |specification| + 1;
      assert forall k :: 1 <= k < closing ==> pattern[k] == specification[k - 1];
      Text.FindIsFirst(pattern, ']', 1, closing);
      assert pattern[1..closing] == specification;
    case Literal(c) =>
      assert pattern[1..] == rest;
      if c == '[' {
        NoClosing(pattern, rest);
      }
    case _ =>
  }

  lemma NoClosing(pattern: string, rest: string)
    requires |pattern| == |rest| + 1 && pattern[1..] == rest && ']' !in rest
    ensures Text.Find(pattern, ']', 1) == |pattern|
  {
    assert forall k :: 1 <= k < |pattern| ==> pattern[k] == rest[k - 1];
  }

  /** What is written as tokens is read as those tokens. */
  lemma {:induction false} TokensAreRead(tokens: seq<Token>)
    requires AreTokens(tokens)
    ensures TokensFrom(WrittenTokens(tokens), 0) == tokens
    decreases |tokens|
  {
    if tokens != [] {
      var pattern, n := WrittenTokens(tokens), |WrittenToken(tokens[0])|;
      FirstToken(tokens[0], WrittenTokens(tokens[1..]));
      TokensAreRead(tokens[1..]);
      assert pattern[n..] == WrittenTokens(tokens[1..]);
      TokensShift(pattern, n, n);
      assert tokens == [tokens[0]] + tokens[1..];
    }
  }

  lemma WrittenAt(pattern: string, i: nat)
    requires i < |pattern|
    ensures pattern[i..] == WrittenToken(TokenAt(pattern, i)) + pattern[After(pattern, i)..]
    ensures IsTokenBefore(TokenAt(pattern, i), pattern[After(pattern, i)..])
  {
    var k := Text.Find(pattern, ']', i + 1);
    if OpensClass(pattern, i) {
      ClassIsWritten(pattern, i, k);
    } else {
      assert pattern[i..] == [pattern[i]] + pattern[i + 1..];
      if k == |pattern| {
        NoneAfter(pattern, i);
      }
    }
  }

  lemma ClassIsWritten(pattern: string, i: nat, k: nat)
    requires i < k < |pattern| && pattern[i] == '[' && k == Text.Find(pattern, ']', i + 1)
    ensures ']' !in pattern[i + 1..k]
    ensures pattern[i..] == "[" + pattern[i + 1..k] + "]" + pattern[k + 1..]
  {
  }

  lemma NoneAfter(pattern: string, i: nat)
    requires i < |pattern| && Text.Find(pattern, ']', i + 1) == |pattern|
    ensures ']' !in pattern[i + 1..]
  {
  }

  /** Every segment of a glob is written as tokens. */
  lemma {:induction false} EverySegmentIsTokens(pattern: string, i: nat) returns (tokens: seq<Token>)
    requires i <= |pattern|
    ensures AreTokens(tokens) && WrittenTokens(tokens) == pattern[i..]
    decreases |pattern| - i
  {
    if i == |pattern| {
      tokens := [];
    } else {
      var rest := EverySegmentIsTokens(pattern, After(pattern, i));
      WrittenAt(pattern, i);
      tokens := [TokenAt(pattern, i)] + rest;
      assert tokens[1..] == rest;
    }
  }

  // ----- words

  ghost function Concat(pieces: seq<string>): string {
    if pieces == [] then "" else pieces[0] + Concat(pieces[1..])
  }

  /** What one token matches: `*` anything, every other token one character. */
  predicate TokenMatches(token: Token, piece: string) {
    match token
    case Star => true
    case AnyChar => |piece| == 1
    case Class(specification) => |piece| == 1 && Denotes(specification, piece[0])
    case Literal(c) => piece == [c]
  }

  /** The word is cut into pieces, one for each token, which matches it. */
  ghost predicate IsCut(tokens: seq<Token>, pieces: seq<string>, word: string) {
    && |pieces| == |tokens| && Concat(pieces) == word
    && forall k :: 0 <= k < |tokens| ==> TokenMatches(tokens[k], pieces[k])
  }

  lemma CutCons(tokens: seq<Token>, piece: string, pieces: seq<string>, word: string)
    requires tokens != [] && TokenMatches(tokens[0], piece) && IsCut(tokens[1..], pieces, word)
    ensures IsCut(tokens, [piece] + pieces, piece + word)
  {
    assert ([piece] + pieces)[1..] == pieces;
  }

  lemma {:induction false} AcceptedIsCut(tokens: seq<Token>, word: string) returns (pieces: seq<string>)
    requires Accepts(tokens, word)
    ensures IsCut(tokens, pieces, word)
    decreases |tokens| + |word|
  {
    if tokens == [] {
      pieces := [];
    } else if tokens[0] == Star {
      if Accepts(tokens[1..], word) {
        var rest := AcceptedIsCut(tokens[1..], word);
        CutCons(tokens, "", rest, word);
        pieces := [""] + rest;
        assert "" + word == word;
      } else {
        var others := AcceptedIsCut(tokens, word[1..]);
        pieces := [[word[0]] + others[0]] + others[1..];
        LongerFirstPiece(tokens, others, word);
      }
    } else {
      var rest := AcceptedIsCut(tokens[1..], word[1..]);
      CutCons(tokens, [word[0]], rest, word[1..]);
      pieces := [[word[0]]] + rest;
      assert word == [word[0]] + word[1..];
    }
  }

  lemma LongerFirstPiece(tokens: seq<Token>, others: seq<string>, word: string)
    requires tokens != [] && tokens[0] == Star && word != "" && IsCut(tokens, others, word[1..])
    ensures IsCut(tokens, [[word[0]] + others[0]] + others[1..], word)
  {
    var pieces := [[word[0]] + others[0]] + others[1..];
    assert pieces[1..] == others[1..];
    assert word == [word[0]] + word[1..];
    assert Concat(pieces) == [word[0]] + others[0] + Concat(others[1..]);
    assert [word[0]] + (others[0] + Concat(others[1..])) == [word[0]] + others[0] + Concat(others[1..]);
  }

  lemma {:induction false} CutIsAccepted(tokens: seq<Token>, pieces: seq<string>, word: string)
    requires IsCut(tokens, pieces, word)
    ensures Accepts(tokens, word)
    decreases |tokens|
  {
    if tokens != [] {
      var rest := Concat(pieces[1..]);
      CutIsAccepted(tokens[1..], pieces[1..], rest);
      if tokens[0] == Star {
        StarTakes(tokens, pieces[0], rest);
      } else {
        assert word[0] == pieces[0][0] && word[1..] == rest;
      }
    }
  }

  lemma {:induction false} StarTakes(tokens: seq<Token>, run: string, rest: string)
    requires tokens != [] && tokens[0] == Star && Accepts(tokens[1..], rest)
    ensures Accepts(tokens, run + rest)
    decreases |run|
  {
    if run == "" {
      assert run + rest == rest;
    } else {
      StarTakes(tokens, run[1..], rest);
      assert (run + rest)[1..] == run[1..] + rest;
    }
  }

  /** A segment matches a word exactly when the word can be cut into pieces that its tokens match. */
  lemma SegmentsMatchThese(tokens: seq<Token>, word: string)
    requires AreTokens(tokens)
    ensures MatchesSegment(WrittenTokens(tokens), word) <==> exists pieces :: IsCut(tokens, pieces, word)
  {
    TokensAreRead(tokens);
    if Accepts(tokens, word) {
      var pieces := AcceptedIsCut(tokens, word);
    }
    if pieces :| IsCut(tokens, pieces, word) {
      CutIsAccepted(tokens, pieces, word);
    }
  }

  // ----- paths

  ghost function Flat(groups: seq<seq<string>>): seq<string> {
    if groups == [] then [] else groups[0] + Flat(groups[1..])
  }

  /** `**` matches any number of segments, every other part one. */
  predicate PartMatches(part: string, group: seq<string>) {
    part == "**" || (|group| == 1 && MatchesSegment(part, group[0]))
  }

  ghost predicate IsGrouping(parts: seq<string>, groups: seq<seq<string>>, segments: seq<string>) {
    && |groups| == |parts| && Flat(groups) == segments
    && forall k :: 0 <= k < |parts| ==> PartMatches(parts[k], groups[k])
  }

  ghost predicate CanBeGrouped(parts: seq<string>, segments: seq<string>) {
    exists groups :: IsGrouping(parts, groups, segments)
  }

  lemma GroupingCons(parts: seq<string>, group: seq<string>, groups: seq<seq<string>>, segments: seq<string>)
    requires parts != [] && PartMatches(parts[0], group) && IsGrouping(parts[1..], groups, segments)
    ensures IsGrouping(parts, [group] + groups, group + segments)
  {
    assert ([group] + groups)[1..] == groups;
  }

  lemma {:induction false} MatchedIsGrouped(parts: seq<string>, segments: seq<string>)
    returns (groups: seq<seq<string>>)
    requires MatchesParts(parts, segments)
    ensures IsGrouping(parts, groups, segments)
    decreases |parts| + |segments|
  {
    if parts == [] {
      groups := [];
    } else if parts[0] == "**" {
      if MatchesParts(parts[1..], segments) {
        var rest := MatchedIsGrouped(parts[1..], segments);
        GroupingCons(parts, [], rest, segments);
        groups := [[]] + rest;
        assert [] + segments == segments;
      } else {
        var others := MatchedIsGrouped(parts, segments[1..]);
        groups := [[segments[0]] + others[0]] + others[1..];
        LongerFirstGroup(parts, others, segments);
      }
    } else {
      var rest := MatchedIsGrouped(parts[1..], segments[1..]);
      GroupingCons(parts, [segments[0]], rest, segments[1..]);
      groups := [[segments[0]]] + rest;
      assert segments == [segments[0]] + segments[1..];
    }
  }

  lemma LongerFirstGroup(parts: seq<string>, others: seq<seq<string>>, segments: seq<string>)
    requires parts != [] && parts[0] == "**" && segments != [] && IsGrouping(parts, others, segments[1..])
    ensures IsGrouping(parts, [[segments[0]] + others[0]] + others[1..], segments)
  {
    var groups := [[segments[0]] + others[0]] + others[1..];
    assert groups[1..] == others[1..];
    assert segments == [segments[0]] + segments[1..];
    assert Flat(groups) == [segments[0]] + others[0] + Flat(others[1..]);
    assert [segments[0]] + (others[0] + Flat(others[1..])) == [segments[0]] + others[0] + Flat(others[1..]);
  }

  lemma {:induction false} GroupedIsMatched(parts: seq<string>, groups: seq<seq<string>>, segments: seq<string>)
    requires IsGrouping(parts, groups, segments)
    ensures MatchesParts(parts, segments)
    decreases |parts|
  {
    if parts != [] {
      var rest := Flat(groups[1..]);
      GroupedIsMatched(parts[1..], groups[1..], rest);
      if parts[0] == "**" {
        StarsTake(parts, groups[0], rest);
      } else {
        assert segments[0] == groups[0][0] && segments[1..] == rest;
      }
    }
  }

  lemma {:induction false} StarsTake(parts: seq<string>, group: seq<string>, rest: seq<string>)
    requires parts != [] && parts[0] == "**" && MatchesParts(parts[1..], rest)
    ensures MatchesParts(parts, group + rest)
    decreases |group|
  {
    if group == [] {
      assert group + rest == rest;
    } else {
      StarsTake(parts, group[1..], rest);
      assert (group + rest)[1..] == group[1..] + rest;
    }
  }

  /** A brace-free glob matches a path exactly when the segments of the path can be grouped so that each part
      of the glob matches its group. */
  lemma GlobsMatchThese(path: string, pattern: string)
    ensures MatchesExpanded(path, pattern) <==> CanBeGrouped(Text.Split(pattern, '/'), Text.Split(path, '/'))
  {
    var parts, segments := Text.Split(pattern, '/'), Text.Split(path, '/');
    if MatchesParts(parts, segments) {
      var groups := MatchedIsGrouped(parts, segments);
    }
    if groups :| IsGrouping(parts, groups, segments) {
      GroupedIsMatched(parts, groups, segments);
    }
  }

  // ----- the supported classes

  lemma CharAt(s: string, c: char)
    ensures c in s <==> exists a, b :: s == a + [c] + b
  {
    if c in s {
      var k :| 0 <= k < |s| && s[k] == c;
      assert s == s[..k] + [c] + s[k + 1..];
    }
    if a, b :| s == a + [c] + b {
      assert s[|a|] == c;
    }
  }

  lemma DoubleHyphenAt(s: string)
    ensures HasDoubleHyphen(s) <==> exists a, b :: s == a + "--" + b
  {
    if HasDoubleHyphen(s) {
      var k :| 0 <= k < |s| - 1 && s[k] == '-' && s[k + 1] == '-';
      assert s == s[..k] + "--" + s[k + 2..];
    }
    if a, b :| s == a + "--" + b {
      assert s[|a|] == '-' && s[|a| + 1] == '-';
    }
  }

  lemma AscendingAt(s: string)
    ensures Ascending(s) <==> forall a, x, y, b :: s == a + [x, '-', y] + b ==> x <= y
  {
    if Ascending(s) {
      forall a, x, y, b | s == a + [x, '-', y] + b ensures x <= y {
        var k := |a| + 1;
        assert s[k] == '-' && s[k - 1] == x && s[k + 1] == y;
      }
    } else {
      var k :| 0 < k < |s| - 1 && s[k] == '-' && s[k - 1] > s[k + 1];
      assert s == s[..k - 1] + [s[k - 1], '-', s[k + 1]] + s[k + 2..];
    }
  }

  lemma NegatedAt(s: string)
    ensures IsNegated(s) <==> exists b :: s == "!" + b
  {
    if IsNegated(s) {
      assert s == "!" + s[1..];
    }
  }

  /** A plain class is not empty or negated, has no opening bracket and no two hyphens in a row, and wherever
      a hyphen stands between two characters, the first is not larger than the second. */
  lemma PlainClassesAreThese(s: string)
    ensures IsPlainClass(s) <==>
      && s != "" && !(exists b :: s == "!" + b)
      && !(exists a, b :: s == a + ['['] + b) && !(exists a, b :: s == a + "--" + b)
      && forall a, x, y, b :: s == a + [x, '-', y] + b ==> x <= y
  {
    NegatedAt(s);
    CharAt(s, '[');
    DoubleHyphenAt(s);
    AscendingAt(s);
  }

  ghost predicate ClosesPlainly(b: string, specification: string, rest: string) {
    b == specification + "]" + rest && ']' !in specification && IsPlainClass(specification)
  }

  ghost predicate ClosesSomewhere(b: string) {
    exists specification, rest :: ClosesPlainly(b, specification, rest)
  }

  lemma SupportedAtSplits(pattern: string, p: nat)
    requires p < |pattern| && pattern[p] == '['
    ensures SupportedAt(pattern, p) <==> ClosesSomewhere(pattern[p + 1..])
  {
    var b := pattern[p + 1..];
    var k := Text.Find(pattern, ']', p + 1);
    if k < |pattern| {
      assert b == pattern[p + 1..k] + "]" + pattern[k + 1..];
      assert ']' !in pattern[p + 1..k];
      if IsPlainClass(pattern[p + 1..k]) {
        assert ClosesPlainly(b, pattern[p + 1..k], pattern[k + 1..]);
      }
    }
    if specification, rest :| ClosesPlainly(b, specification, rest) {
      ClosesThere(pattern, p, specification, rest);
    }
  }

  lemma ClosesThere(pattern: string, p: nat, specification: string, rest: string)
    requires p < |pattern| && pattern[p + 1..] == specification + "]" + rest && ']' !in specification
    ensures var k := p + 1 + |specification|;
      k < |pattern| && Text.Find(pattern, ']', p + 1) == k && pattern[p + 1..k] == specification
  {
    var k, tail := p + 1 + |specification|, pattern[p + 1..];
    assert tail[|specification|] == ']' && tail[..|specification|] == specification;
    assert forall j :: p + 1 <= j < k ==> pattern[j] == tail[j - p - 1] == specification[j - p - 1];
    assert pattern[k] == tail[|specification|];
    Text.FindIsFirst(pattern, ']', p + 1, k);
    assert pattern[p + 1..k] == tail[..|specification|];
  }

  /** A pattern is supported exactly when behind each of its opening brackets stands a plain class and its
      closing bracket. */
  lemma SupportedPatternsAreThese(pattern: string)
    ensures ClassesAreSupported(pattern) <==> forall a, b :: pattern == a + ['['] + b ==> ClosesSomewhere(b)
  {
    forall p | 0 <= p < |pattern| && pattern[p] == '['
      ensures SupportedAt(pattern, p) <==> ClosesSomewhere(pattern[p + 1..])
    {
      SupportedAtSplits(pattern, p);
    }
    if ClassesAreSupported(pattern) {
      forall a, b | pattern == a + ['['] + b ensures ClosesSomewhere(b) {
        var p := |a|;
        assert pattern[p] == '[' && pattern[p + 1..] == b;
        assert SupportedAt(pattern, p);
      }
    } else {
      var p :| 0 <= p < |pattern| && !SupportedAt(pattern, p);
      assert pattern == pattern[..p] + ['['] + pattern[p + 1..];
    }
  }

  // ----- samples

  /** What a token is replaced by in a sample. */
  function Replacement(token: Token): string {
    match token
    case Star => "sample"
    case AnyChar => "x"
    case Literal(c) => [c]
    case Class(specification) =>
      if specification == "" then ""
      else if specification[0] == '*' then "sample" else if specification[0] == '?' then "x" else [specification[0]]
  }

  function Replacements(tokens: seq<Token>): string {
    if tokens == [] then "" else Replacement(tokens[0]) + Replacements(tokens[1..])
  }

  lemma {:induction false} SampleIsByToken(segment: string, i: nat)
    requires IsSupported(segment) && i <= |segment|
    ensures Filled(SubstituteClasses(segment, i)) == Replacements(TokensFrom(segment, i))
    decreases |segment| - i
  {
    if i < |segment| {
      FilledSplits(segment, i);
      SampleIsByToken(segment, After(segment, i));
      var tokens := TokensFrom(segment, i);
      assert tokens[1..] == TokensFrom(segment, After(segment, i));
    } else {
      assert Filled("") == "";
    }
  }

  /** In a sample path, `**` becomes nothing or one segment, every other part its tokens' replacements. */
  predicate IsSampleGroup(part: string, group: seq<string>) {
    if part == "**" then group == [] || group == ["sample"]
    else group == [Replacements(TokensFrom(part, 0))]
  }

  ghost predicate IsSampleGrouping(parts: seq<string>, groups: seq<seq<string>>, sample: seq<string>) {
    && |groups| == |parts| && Flat(groups) == sample
    && forall k :: 0 <= k < |parts| ==> IsSampleGroup(parts[k], groups[k])
  }

  lemma SampleGroupingCons(parts: seq<string>, group: seq<string>, groups: seq<seq<string>>, sample: seq<string>)
    requires parts != [] && IsSampleGroup(parts[0], group) && IsSampleGrouping(parts[1..], groups, sample)
    ensures IsSampleGrouping(parts, [group] + groups, group + sample)
  {
    assert ([group] + groups)[1..] == groups;
  }

  lemma {:induction false} SampleIsGrouped(parts: seq<string>, sample: seq<string>) returns (groups: seq<seq<string>>)
    requires PartsAreSupported(parts) && IsSample(parts, sample)
    ensures IsSampleGrouping(parts, groups, sample)
    decreases |parts|
  {
    if parts == [] {
      groups := [];
    } else if parts[0] == "**" && IsSample(parts[1..], sample) {
      var rest := SampleIsGrouped(parts[1..], sample);
      SampleGroupingCons(parts, [], rest, sample);
      groups := [[]] + rest;
      assert [] + sample == sample;
    } else {
      var rest := SampleIsGrouped(parts[1..], sample[1..]);
      SampleIsByToken(parts[0], 0);
      SampleGroupingCons(parts, [sample[0]], rest, sample[1..]);
      groups := [[sample[0]]] + rest;
      assert sample == [sample[0]] + sample[1..];
    }
  }

  lemma {:induction false} GroupedIsSample(parts: seq<string>, groups: seq<seq<string>>, sample: seq<string>)
    requires PartsAreSupported(parts) && IsSampleGrouping(parts, groups, sample)
    ensures IsSample(parts, sample)
    decreases |parts|
  {
    if parts != [] {
      var rest := Flat(groups[1..]);
      GroupedIsSample(parts[1..], groups[1..], rest);
      SampleIsByToken(parts[0], 0);
      if groups[0] == [] {
        assert groups[0] + rest == rest;
      } else {
        assert sample == groups[0] + rest && sample[1..] == rest;
      }
    }
  }

  /** The samples of a validated glob's parts are exactly these. */
  lemma SamplesAreThese(parts: seq<string>, sample: seq<string>)
    requires PartsAreSupported(parts)
    ensures IsSample(parts, sample) <==> exists groups :: IsSampleGrouping(parts, groups, sample)
  {
    if IsSample(parts, sample) {
      var groups := SampleIsGrouped(parts, sample);
    }
    if groups :| IsSampleGrouping(parts, groups, sample) {
      GroupedIsSample(parts, groups, sample);
    }
  }
}
