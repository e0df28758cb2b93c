/** Sample paths of a glob, by which the selector checks that a mapping lies in the candidate range. */
module Sampling {
  import opened CharClasses
  import opened FiniteAlphabet
  import opened Paths
  import opened Segments
  import Text

  /** `re.sub` of every non-empty bracket group by its first character. */
  function SubstituteClasses(segment: string, i: nat): string
    decreases |segment| - i
  {
    if i >= |segment| then ""
    else if OpensClass(segment, i) && segment[i + 1] != ']' then
      [segment[i + 1]] + SubstituteClasses(segment, After(segment, i))
    else [segment[i]] + SubstituteClasses(segment, i + 1)
  }

  /** `str.replace` of one character. */
  function Replace(s: string, c: char, filling: string): string {
    if s == "" then "" else (if s[0] == c then filling else [s[0]]) + Replace(s[1..], c, filling)
  }

  function SampleSegment(segment: string): string {
    Replace(Replace(SubstituteClasses(segment, 0), '*', "sample"), '?', "x")
  }

  /** One sample of the parts: `**` becomes nothing or one segment, other parts their sample segment. */
  ghost predicate IsSample(parts: seq<string>, sample: seq<string>) {
    if parts == [] then sample == []
    else if parts[0] == "**" then
      IsSample(parts[1..], sample) || (sample != [] && sample[0] == "sample" && IsSample(parts[1..], sample[1..]))
    else sample != [] && sample[0] == SampleSegment(parts[0]) && IsSample(parts[1..], sample[1..])
  }

  /** The samples of a longer list of parts, read from its end as the source builds them. */
  lemma {:induction false} IsSampleSnoc(parts: seq<string>, last: string, sample: seq<string>)
    ensures IsSample(parts + [last], sample) <==>
              if last == "**" then IsSample(parts, sample) || EndsWith(parts, sample, "sample")
              else EndsWith(parts, sample, SampleSegment(last))
    decreases |parts|
  {
    if parts == [] {
      assert [last][1..] == [];
      assert EndsWith([], sample, "sample") <==> sample == ["sample"];
      assert EndsWith([], sample, SampleSegment(last)) <==> sample == [SampleSegment(last)];
    } else {
      assert (parts + [last])[1..] == parts[1..] + [last];
      IsSampleSnoc(parts[1..], last, sample);
      if sample != [] {
        IsSampleSnoc(parts[1..], last, sample[1..]);
        assert |sample| > 1 ==> sample[1..][..|sample| - 2] == sample[..|sample| - 1][1..];
      }
    }
  }

  ghost predicate EndsWith(parts: seq<string>, sample: seq<string>, segment: string) {
    sample != [] && sample[|sample| - 1] == segment && IsSample(parts, sample[..|sample| - 1])
  }

  /** Every partial sample with one more segment. */
  method AppendToAll(partials: seq<seq<string>>, segment: string) returns (longer: seq<seq<string>>)
    ensures forall v :: v in longer <==> v != [] && v[|v| - 1] == segment && v[..|v| - 1] in partials
  {
    longer := [];
    for k := 0 to |partials|
      invariant forall v :: v in longer <==> v != [] && v[|v| - 1] == segment && v[..|v| - 1] in partials[..k]
    {
      assert partials[..k + 1] == partials[..k] + [partials[k]];
      assert (partials[k] + [segment])[..|partials[k]|] == partials[k];
      assert forall v: seq<string> :: v != [] && v[|v| - 1] == segment && v[..|v| - 1] == partials[k] ==>
          v == partials[k] + [segment];
      longer := longer + [partials[k] + [segment]];
    }
    assert partials[..|partials|] == partials;
  }

  /** The partial samples of one brace-free glob. */
  method SampleParts(parts: seq<string>) returns (partials: seq<seq<string>>)
    ensures forall v :: v in partials <==> IsSample(parts, v)
  {
    partials := [[]];
    for k := 0 to |parts|
      invariant forall v :: v in partials <==> IsSample(parts[..k], v)
    {
      ghost var before := partials;
      var segment := parts[k];
      if segment == "**" {
        var longer := AppendToAll(partials, "sample");
        partials := partials + longer;
      } else {
        partials := AppendToAll(partials, SampleSegment(segment));
      }
      assert parts[..k + 1] == parts[..k] + [segment];
      forall v ensures v in partials <==> IsSample(parts[..k + 1], v) {
        IsSampleSnoc(parts[..k], segment, v);
      }
    }
    assert parts[..|parts|] == parts;
  }

  /** A sample path of a brace-free glob. */
  ghost predicate IsSamplePath(pattern: string, path: string) {
    exists v :: IsSample(Text.Split(pattern, '/'), v) && path == Text.Join(v, '/')
  }

  ghost predicate IsSampleOf(expansions: seq<string>, path: string) {
    exists k :: 0 <= k < |expansions| && IsSamplePath(expansions[k], path)
  }

  method JoinAll(partials: seq<seq<string>>) returns (paths: set<string>)
    ensures forall s :: s in paths <==> exists v :: v in partials && s == Text.Join(v, '/')
  {
    paths := set v | v in partials :: Text.Join(v, '/');
  }

  method SamplePaths(expansions: seq<string>) returns (samples: set<string>)
    ensures forall s :: s in samples <==> IsSampleOf(expansions, s)
  {
    samples := {};
    for k := 0 to |expansions|
      invariant forall s :: s in samples <==> IsSampleOf(expansions[..k], s)
    {
      var partials := SampleParts(Text.Split(expansions[k], '/'));
      var paths := JoinAll(partials);
      assert forall s :: s in paths <==> IsSamplePath(expansions[k], s);
      forall s
        ensures IsSampleOf(expansions[..k + 1], s) <==>
          IsSampleOf(expansions[..k], s) || IsSamplePath(expansions[k], s)
      {
        SampleOfSnoc(expansions, k, s);
      }
      samples := samples + paths;
    }
    assert expansions[..|expansions|] == expansions;
  }

  lemma SampleOfSnoc(expansions: seq<string>, k: nat, path: string)
    requires k < |expansions|
    ensures IsSampleOf(expansions[..k + 1], path) <==>
      IsSampleOf(expansions[..k], path) || IsSamplePath(expansions[k], path)
  {
    assert expansions[..k + 1] == expansions[..k] + [expansions[k]];
    if IsSampleOf(expansions[..k], path) {
      var l :| 0 <= l < k && IsSamplePath(expansions[..k][l], path);
      assert expansions[..k + 1][l] == expansions[..k][l];
    }
    if IsSamplePath(expansions[k], path) {
      assert expansions[..k + 1][k] == expansions[k];
    }
  }

  // ----- samples match their glob

  /** What stands in for a class after the replacements still belongs to it: its first character is not
      `*`, which becomes a word, and where it is `?`, which becomes `x`, the class holds `x`. */
  predicate FitsSample(token: Token) {
    token.Class? && token.specification != "" ==>
      token.specification[0] != '*' && (token.specification[0] == '?' ==> Denotes(token.specification, 'x'))
  }

  predicate AllFitSamples(tokens: seq<Token>) {
    forall k :: 0 <= k < |tokens| ==> FitsSample(tokens[k])
  }

  lemma ReplaceConcat(s: string, t: string, c: char, filling: string)
    ensures Replace(s + t, c, filling) == Replace(s, c, filling) + Replace(t, c, filling)
  {
    if s == "" {
      assert s + t == t;
    } else {
      assert (s + t)[1..] == s[1..] + t;
    }
  }

  ghost function Filled(s: string): string {
    Replace(Replace(s, '*', "sample"), '?', "x")
  }

  lemma FilledCons(c: char, rest: string)
    ensures Filled([c] + rest) == (if c == '*' then "sample" else if c == '?' then "x" else [c]) + Filled(rest)
  {
    var starless := Replace(rest, '*', "sample");
    assert ([c] + rest)[1..] == rest;
    if c == '*' {
      ReplaceConcat("sample", starless, '?', "x");
      NothingToReplace("sample", '?', "x");
    } else {
      assert Replace([c] + rest, '*', "sample") == [c] + starless;
      assert ([c] + starless)[1..] == starless;
    }
  }

  lemma {:induction false} NothingToReplace(s: string, c: char, filling: string)
    requires c !in s
    ensures Replace(s, c, filling) == s
  {
    if s != "" {
      NothingToReplace(s[1..], c, filling);
    }
  }

  lemma {:induction false} StarAbsorbs(tokens: seq<Token>, run: string, word: string)
    requires tokens != [] && tokens[0] == Star && Accepts(tokens, word)
    ensures Accepts(tokens, run + word)
    decreases |run|
  {
    if run == "" {
      assert run + word == word;
    } else {
      StarAbsorbs(tokens, run[1..], word);
      assert (run + word)[1..] == run[1..] + word;
    }
  }

  /** What becomes of the token at a position. */
  lemma FilledSplits(segment: string, i: nat)
    requires i < |segment| && IsSupported(segment)
    ensures TokensFrom(segment, i) == [TokenAt(segment, i)] + TokensFrom(segment, After(segment, i))
    ensures TokenAt(segment, i).Class? ==> IsPlainClass(TokenAt(segment, i).specification)
    ensures var rest := Filled(SubstituteClasses(segment, After(segment, i)));
      Filled(SubstituteClasses(segment, i)) ==
      match TokenAt(segment, i)
      case Star => "sample" + rest
      case AnyChar => "x" + rest
      case Literal(c) => [c] + rest
      case Class(specification) =>
        var c := specification[0];
        (if c == '*' then "sample" else if c == '?' then "x" else [c]) + rest
  {
    var c := if OpensClass(segment, i) then segment[i + 1] else segment[i];
    FilledCons(c, SubstituteClasses(segment, After(segment, i)));
  }

  lemma {:induction false} FilledMatches(segment: string, i: nat)
    requires IsSupported(segment) && AllFitSamples(TokensFrom(segment, i))
    ensures Accepts(TokensFrom(segment, i), Filled(SubstituteClasses(segment, i)))
    decreases |segment| - i
  {
    if i < |segment| {
      var tokens := TokensFrom(segment, i);
      FilledSplits(segment, i);
      assert tokens[1..] == TokensFrom(segment, After(segment, i));
      FilledMatches(segment, After(segment, i));
      var rest := Filled(SubstituteClasses(segment, After(segment, i)));
      if tokens[0] == Star {
        StarAbsorbs(tokens, "sample", rest);
      } else {
        FilledTokenMatches(tokens, rest);
      }
    }
  }

  /** The one character that stands in for a token other than `*`. */
  function StandIn(token: Token): char {
    match token
    case Literal(c) => c
    case Class(specification) => if specification != "" && specification[0] != '?' then specification[0] else 'x'
    case _ => 'x'
  }

  lemma FilledTokenMatches(tokens: seq<Token>, rest: string)
    requires tokens != [] && tokens[0] != Star && FitsSample(tokens[0]) && Accepts(tokens[1..], rest)
    requires tokens[0].Class? ==> IsPlainClass(tokens[0].specification)
    ensures Accepts(tokens, [StandIn(tokens[0])] + rest)
  {
    if tokens[0].Class? {
      PlainClassIsInhabited(tokens[0].specification);
    }
    TakeAccepts(tokens, StandIn(tokens[0]), tokens[1..], rest);
  }

  // ----- without `*`, only they do

  predicate IsStarFree(tokens: seq<Token>) {
    forall k :: 0 <= k < |tokens| ==> tokens[k] != Star
  }

  lemma {:induction false} StarFreeLength(tokens: seq<Token>, word: string)
    requires IsStarFree(tokens) && Accepts(tokens, word)
    ensures |word| == |tokens|
    decreases |tokens|
  {
    if tokens != [] {
      StarFreeLength(tokens[1..], word[1..]);
    }
  }

  lemma {:induction false} FilledIsLongEnough(segment: string, i: nat)
    requires IsSupported(segment) && IsStarFree(TokensFrom(segment, i))
    ensures |Filled(SubstituteClasses(segment, i))| >= |TokensFrom(segment, i)|
    decreases |segment| - i
  {
    if i < |segment| {
      FilledSplits(segment, i);
      assert TokensFrom(segment, i)[1..] == TokensFrom(segment, After(segment, i));
      FilledIsLongEnough(segment, After(segment, i));
    }
  }

  lemma {:induction false} OnlyFittingSamplesMatch(segment: string, i: nat)
    requires IsSupported(segment) && IsStarFree(TokensFrom(segment, i))
    requires Accepts(TokensFrom(segment, i), Filled(SubstituteClasses(segment, i)))
    ensures AllFitSamples(TokensFrom(segment, i))
    decreases |segment| - i
  {
    if i < |segment| {
      var tokens, word := TokensFrom(segment, i), Filled(SubstituteClasses(segment, i));
      var rest := Filled(SubstituteClasses(segment, After(segment, i)));
      FilledSplits(segment, i);
      assert tokens[1..] == TokensFrom(segment, After(segment, i));
      FilledIsLongEnough(segment, After(segment, i));
      StarFreeLength(tokens, word);
      assert word[1..] == rest;
      OnlyFittingSamplesMatch(segment, After(segment, i));
    }
  }

  // ----- whole paths

  ghost predicate PartsFitSamples(parts: seq<string>) {
    forall k :: 0 <= k < |parts| ==> AllFitSamples(TokensFrom(parts[k], 0))
  }

  ghost predicate PartsAreStarFree(parts: seq<string>) {
    forall k :: 0 <= k < |parts| ==> IsStarFree(TokensFrom(parts[k], 0))
  }

  lemma {:induction false} SampleMatchesParts(parts: seq<string>, sample: seq<string>)
    requires PartsAreSupported(parts) && PartsFitSamples(parts) && IsSample(parts, sample)
    ensures MatchesParts(parts, sample)
    decreases |parts|
  {
    if parts == [] {
    } else if parts[0] == "**" {
      if IsSample(parts[1..], sample) {
        SampleMatchesParts(parts[1..], sample);
      } else {
        SampleMatchesParts(parts[1..], sample[1..]);
        AbsorbSegment(parts, "sample", sample[1..]);
        assert ["sample"] + sample[1..] == sample;
      }
    } else {
      FilledMatches(parts[0], 0);
      SampleMatchesParts(parts[1..], sample[1..]);
    }
  }

  lemma {:induction false} OnlyFittingPartsMatch(parts: seq<string>, sample: seq<string>)
    requires PartsAreSupported(parts) && PartsAreStarFree(parts) && IsSample(parts, sample)
    requires MatchesParts(parts, sample)
    ensures PartsFitSamples(parts)
    decreases |parts|
  {
    if parts != [] {
      assert TokensFrom(parts[0], 0) != [] ==> TokensFrom(parts[0], 0)[0] != Star;
      OnlyFittingSamplesMatch(parts[0], 0);
      OnlyFittingPartsMatch(parts[1..], sample[1..]);
    }
  }

  lemma {:induction false} SubstituteHasNoSlash(segment: string, i: nat)
    requires '/' !in segment
    ensures '/' !in SubstituteClasses(segment, i)
    decreases |segment| - i
  {
    if i < |segment| {
      SubstituteHasNoSlash(segment, After(segment, i));
      SubstituteHasNoSlash(segment, i + 1);
    }
  }

  lemma {:induction false} ReplaceHasNoSlash(s: string, c: char, filling: string)
    requires '/' !in s && '/' !in filling
    ensures '/' !in Replace(s, c, filling)
  {
    if s != "" {
      ReplaceHasNoSlash(s[1..], c, filling);
    }
  }

  lemma {:induction false} SampleHasNoSlash(parts: seq<string>, sample: seq<string>)
    requires PartsAreSupported(parts) && IsSample(parts, sample)
    ensures Text.FreeOf(sample, '/')
    decreases |parts|
  {
    if parts != [] {
      if parts[0] == "**" && IsSample(parts[1..], sample) {
        SampleHasNoSlash(parts[1..], sample);
      } else {
        SampleHasNoSlash(parts[1..], sample[1..]);
        SubstituteHasNoSlash(parts[0], 0);
        ReplaceHasNoSlash(SubstituteClasses(parts[0], 0), '*', "sample");
        ReplaceHasNoSlash(Replace(SubstituteClasses(parts[0], 0), '*', "sample"), '?', "x");
        assert sample == [sample[0]] + sample[1..];
        assert '/' !in "sample";
      }
    }
  }

  /** Every sample path is matched by the glob it was sampled from. */
  lemma SampleMatches(pattern: string, path: string)
    requires ClassesAreSupported(pattern) && PartsFitSamples(Text.Split(pattern, '/'))
    requires IsSamplePath(pattern, path)
    ensures MatchesExpanded(path, pattern)
  {
    var parts := Text.Split(pattern, '/');
    var sample :| IsSample(parts, sample) && path == Text.Join(sample, '/');
    SegmentsInheritSupport(pattern);
    SampleMatchesParts(parts, sample);
    if sample == [] {
      AbsorbSegment(parts, "", []);
      assert [""] + [] == Text.Split("", '/');
    } else {
      SampleHasNoSlash(parts, sample);
      Text.SplitOfJoin(sample, '/');
    }
  }

  /** For a glob without `*` the condition is exact: its sample path is matched exactly when every class
      holds what stands in for it. */
  lemma SampleMatchesIffClassesFit(pattern: string, path: string)
    requires ClassesAreSupported(pattern) && PartsAreStarFree(Text.Split(pattern, '/'))
    requires IsSamplePath(pattern, path)
    ensures MatchesExpanded(path, pattern) <==> PartsFitSamples(Text.Split(pattern, '/'))
  {
    var parts := Text.Split(pattern, '/');
    if PartsFitSamples(parts) {
      SampleMatches(pattern, path);
    }
    if MatchesExpanded(path, pattern) {
      var sample :| IsSample(parts, sample) && path == Text.Join(sample, '/');
      SegmentsInheritSupport(pattern);
      SampleHasNoSlash(parts, sample);
      StarFreeSampleIsNotEmpty(parts, sample);
      Text.SplitOfJoin(sample, '/');
      OnlyFittingPartsMatch(parts, sample);
    }
  }

  lemma StarFreeSampleIsNotEmpty(parts: seq<string>, sample: seq<string>)
    requires parts != [] && PartsAreStarFree(parts) && IsSample(parts, sample)
    ensures sample != []
  {
    assert TokensFrom(parts[0], 0) != [] ==> TokensFrom(parts[0], 0)[0] != Star;
  }

  /** The condition is needed: `[*]` matches only a star, yet its sample is the word `sample`. */
  lemma StarClassMissesItsSample()
    ensures ClassesAreSupported("[*]") && IsSamplePath("[*]", "sample")
    ensures !MatchesExpanded("sample", "[*]")
  {
    StarClassTokens();
    StarClassSample();
    Text.SplitOfOne("[*]", '/');
    Text.SplitOfOne("sample", '/');
    assert ["[*]"][0] == "[*]" != "**";
    OnePartSample("[*]", "sample");
    assert !MatchesSegment("[*]", "sample") by {
      assert !Accepts([], "sample"[1..]);
    }
  }

  lemma OnePartSample(pattern: string, sample: string)
    requires '/' !in pattern && pattern != "**" && SampleSegment(pattern) == sample
    ensures IsSamplePath(pattern, sample)
  {
    Text.SplitOfOne(pattern, '/');
    assert [pattern][1..] == [] && [sample][1..] == [];
    assert IsSample([], []);
    assert IsSample([pattern], [sample]);
    assert Text.Join([sample], '/') == sample;
  }

  lemma StarClassTokens()
    ensures ClassesAreSupported("[*]")
    ensures TokensFrom("[*]", 0) == [Class("*")]
  {
    var p := "[*]";
    Text.FindIsFirst(p, ']', 1, 2);
    assert p[1..2] == "*";
    assert TokensFrom(p, 3) == [];
  }

  lemma StarClassSample()
    ensures SampleSegment("[*]") == "sample"
  {
    var p := "[*]";
    Text.FindIsFirst(p, ']', 1, 2);
    assert SubstituteClasses(p, 3) == "";
    assert SubstituteClasses(p, 0) == ['*'] + "";
    FilledCons('*', "");
    assert Filled("") == "";
  }

  /** A star and a class beside it. */
  function BesideStar(specification: string): string {
    "*" + ("[" + specification + "]")
  }

  /** With `*` beside the class the condition is not needed: where a class begins with `*` and holds `e`,
      the star takes most of what stands in for the class, and the last letter belongs to the class. */
  lemma StarBesideClassAbsorbs(specification: string) returns (sample: string)
    requires IsPlainClass(specification) && ']' !in specification && '/' !in specification
    requires specification[0] == '*' && Denotes(specification, 'e')
    ensures var pattern := BesideStar(specification);
      && ClassesAreSupported(pattern) && IsSamplePath(pattern, sample) && MatchesExpanded(sample, pattern)
      && !PartsFitSamples(Text.Split(pattern, '/'))
  {
    var pattern, run := BesideStar(specification), "sample" + "sampl";
    BesideStarTokens(specification);
    BesideStarSample(specification);
    SampleTwice();
    sample := run + "e";
    AnyRunBeforeMember(specification, run);
    MatchedBesideStar(pattern, specification, sample);
  }

  lemma SampleTwice()
    ensures "sample" + ("sample" + "") == "sample" + "sampl" + "e" && '/' !in "sample" + "sampl" + "e"
  {
  }

  lemma MatchedBesideStar(pattern: string, specification: string, sample: string)
    requires '/' !in pattern && pattern != "**" && '/' !in sample && specification != "" && specification[0] == '*'
    requires TokensFrom(pattern, 0) == [Star, Class(specification)]
    requires SampleSegment(pattern) == sample && Accepts([Star, Class(specification)], sample)
    ensures IsSamplePath(pattern, sample) && MatchesExpanded(sample, pattern)
    ensures !PartsFitSamples(Text.Split(pattern, '/'))
  {
    OnePartSample(pattern, sample);
    OneSegmentPath(sample, pattern);
    Text.SplitOfOne(pattern, '/');
    assert Text.Split(pattern, '/')[0] == pattern;
    assert !FitsSample(TokensFrom(pattern, 0)[1]);
  }

  lemma BesideStarTokens(specification: string)
    requires IsPlainClass(specification) && ']' !in specification && '/' !in specification
    ensures var pattern := BesideStar(specification);
      && ClassesAreSupported(pattern) && TokensFrom(pattern, 0) == [Star, Class(specification)]
      && '/' !in pattern && pattern != "**"
  {
    var p, end := BesideStar(specification), |specification| + 2;
    assert p[2..end] == specification && p[0] == '*' && p[1] == '[' && p[end] == ']' && |p| == end + 1;
    assert forall k :: 2 <= k < end ==> p[k] == specification[k - 2];
    Text.FindIsFirst(p, ']', 2, end);
    assert TokensFrom(p, end + 1) == [];
    assert TokensFrom(p, 1) == [Class(specification)];
  }

  lemma AnyRunBeforeMember(specification: string, run: string)
    requires Denotes(specification, 'e')
    ensures Accepts([Star, Class(specification)], run + "e")
  {
    var tokens := [Star, Class(specification)];
    assert tokens[1..] == [Class(specification)];
    OneTokenAccepts(Class(specification), "e");
    StarAbsorbs(tokens, run, "e");
  }

  lemma BesideStarSample(specification: string)
    requires specification != "" && specification[0] == '*' && ']' !in specification
    ensures SampleSegment(BesideStar(specification)) == "sample" + ("sample" + "")
  {
    var p, end := BesideStar(specification), |specification| + 2;
    assert p[0] == '*' && p[1] == '[' && p[2] == '*' && p[end] == ']' && |p| == end + 1;
    assert forall k :: 2 <= k < end ==> p[k] == specification[k - 2];
    Text.FindIsFirst(p, ']', 2, end);
    assert SubstituteClasses(p, end + 1) == "";
    assert SubstituteClasses(p, 1) == ['*'] + "";
    assert SubstituteClasses(p, 0) == ['*'] + (['*'] + "");
    FilledTwice();
  }

  lemma FilledTwice()
    ensures Filled(['*'] + (['*'] + "")) == "sample" + ("sample" + "")
  {
    FilledCons('*', "");
    FilledCons('*', ['*'] + "");
    assert Filled("") == "";
  }

  /** Such classes exist. */
  lemma StarAndMember()
    ensures IsPlainClass("*e") && ']' !in "*e" && '/' !in "*e" && Denotes("*e", 'e')
  {
    assert "*e"[1..] == "e" && "e"[1..] == "";
    HoldsCons(Item('*', '*'), Items("e"), 'e');
    assert Items("e")[0] == Item('e', 'e');
  }

  /** So a glob can match its sample although a class in it does not hold what stands in for it. */
  lemma UnfitClassMayMatch() returns (pattern: string, sample: string)
    ensures ClassesAreSupported(pattern) && IsSamplePath(pattern, sample) && MatchesExpanded(sample, pattern)
    ensures !PartsFitSamples(Text.Split(pattern, '/'))
  {
    StarAndMember();
    pattern := BesideStar("*e");
    sample := StarBesideClassAbsorbs("*e");
  }
}
