/** When an accepted mapping concerns a candidate path at all: validation looks at samples only. */
module CandidateRange {
  import opened Ambiguity
  import opened CharClasses
  import opened Config
  import opened FiniteAlphabet
  import opened OwnRules
  import opened Paths
  import opened Repository
  import opened Results
  import opened Sampling
  import opened Segments
  import Braces
  import Text

  // ----- the exact condition

  /** Every candidate glob is one the overlap search is exact for. */
  ghost predicate RulesAreSupported(rules: PathRules) {
    forall k :: 0 <= k < |rules.candidateGlobs| ==> GlobIsSupported(rules.candidateGlobs[k])
  }

  ghost predicate MatchesSomeCandidate(rules: PathRules, source: string) {
    exists path :: IsCandidate(rules, path) && MatchesGlob(path, source) == Ok(true)
  }

  /** The overlap search, run on the source and a candidate glob, says yes for some pair of expansions. */
  ghost predicate SearchFindsOverlap(source: string, glob: string)
    requires GlobIsSupported(source) && GlobIsSupported(glob)
  {
    exists l: nat, m: nat :: SearchJoins(Braces.ExpandBraces(source).value, Braces.ExpandBraces(glob).value, l, m)
  }

  ghost predicate SearchJoins(lefts: seq<string>, rights: seq<string>, l: nat, m: nat) {
    l < |lefts| && m < |rights| && Joinable(Text.Split(lefts[l], '/'), Text.Split(rights[m], '/'), 0, 0)
  }

  ghost predicate SearchFindsCandidate(rules: PathRules, source: string)
    requires GlobIsSupported(source) && RulesAreSupported(rules)
  {
    exists k :: 0 <= k < |rules.candidateGlobs| && SearchFindsOverlap(source, rules.candidateGlobs[k])
  }

  lemma SearchFindsOverlapIff(source: string, glob: string)
    requires GlobIsSupported(source) && GlobIsSupported(glob)
    ensures SearchFindsOverlap(source, glob) <==> GlobsOverlap(source, glob)
  {
    var lefts, rights := Braces.ExpandBraces(source).value, Braces.ExpandBraces(glob).value;
    GlobsOverlapByExpansion(source, glob);
    forall l: nat, m: nat ensures SearchJoins(lefts, rights, l, m) <==> ExpansionsOverlap(lefts, rights, l, m) {
      if l < |lefts| && m < |rights| {
        OverlapIsExact(lefts[l], rights[m]);
      }
    }
  }

  /** A valid source matches a candidate path exactly when the overlap search finds it to overlap with a
      candidate glob: the question validation could have asked instead of sampling. */
  lemma MatchesSomeCandidateIff(rules: PathRules, source: string)
    requires GlobIsSupported(source) && RulesAreSupported(rules)
    ensures MatchesSomeCandidate(rules, source) <==> SearchFindsCandidate(rules, source)
  {
    if MatchesSomeCandidate(rules, source) {
      var path :| IsCandidate(rules, path) && MatchesGlob(path, source) == Ok(true);
      var k :| 0 <= k < |rules.candidateGlobs| && MatchesGlob(path, rules.candidateGlobs[k]) == Ok(true);
      assert IsMatchedByBoth(path, source, rules.candidateGlobs[k]);
      SearchFindsOverlapIff(source, rules.candidateGlobs[k]);
    }
    if SearchFindsCandidate(rules, source) {
      var k :| 0 <= k < |rules.candidateGlobs| && SearchFindsOverlap(source, rules.candidateGlobs[k]);
      SearchFindsOverlapIff(source, rules.candidateGlobs[k]);
      var path :| IsMatchedByBoth(path, source, rules.candidateGlobs[k]);
      assert IsCandidate(rules, path);
    }
  }

  /** In particular under the selector's own rules. */
  lemma OwnRulesAreSupported()
    ensures RulesAreSupported(PATH_RULES)
  {
    forall k | 0 <= k < |PATH_RULES.candidateGlobs| ensures GlobIsSupported(PATH_RULES.candidateGlobs[k]) {
      CandidateGlobIsSupported(k);
    }
  }

  // ----- a literal name with a class behind it

  /** `name[?]/a` */
  function QuestionGlob(name: string): string {
    QuestionPart(name) + ("/" + "a")
  }

  function QuestionPart(name: string): string {
    name + "[?]"
  }

  lemma QuestionPartAt(name: string)
    ensures var part := QuestionPart(name);
      && |part| == |name| + 3 && part[|name|] == '[' && part[|name| + 1] == '?' && part[|name| + 2] == ']'
      && part[|name| + 1..|name| + 2] == "?" && (forall k :: 0 <= k < |name| ==> part[k] == name[k])
      && Text.Find(part, ']', |name| + 1) == |name| + 2
  {
    var part := QuestionPart(name);
    assert part[|name| + 1..|name| + 2] == "?";
    Text.FindIsFirst(part, ']', |name| + 1, |name| + 2);
  }

  lemma QuestionOnly(c: char)
    ensures Denotes("?", c) <==> c == '?'
  {
    assert "?"[1..] == "";
    HoldsCons(Item('?', '?'), [], c);
    assert [Item('?', '?')] + [] == [Item('?', '?')];
  }

  /** The part matches the name followed by a question mark, and nothing else. */
  lemma {:induction false} QuestionPartReads(name: string, i: nat, word: string)
    requires !HasGlobSyntax(name) && i <= |name|
    ensures Reads(QuestionPart(name), i, word) <==> word == name[i..] + "?"
    decreases |name| - i
  {
    if i < |name| {
      QuestionPartStep(name, i, word);
      if word != "" {
        QuestionPartReads(name, i + 1, word[1..]);
        SpelledOut(name, i, word);
      }
    } else {
      QuestionPartEnd(name, word);
      assert name[|name|..] + "?" == "?";
    }
  }

  lemma QuestionPartStep(name: string, i: nat, word: string)
    requires !HasGlobSyntax(name) && i < |name|
    ensures Reads(QuestionPart(name), i, word) <==>
      word != "" && word[0] == name[i] && Reads(QuestionPart(name), i + 1, word[1..])
  {
    QuestionPartAt(name);
    NoGlobSyntaxAt(name, i);
    TokenReads(QuestionPart(name), i, word);
  }

  lemma SpelledOut(name: string, i: nat, word: string)
    requires i < |name| && word != ""
    ensures word == name[i..] + "?" <==> word[0] == name[i] && word[1..] == name[i + 1..] + "?"
  {
    assert name[i..] + "?" == [name[i]] + (name[i + 1..] + "?");
    assert word == [word[0]] + word[1..];
  }

  lemma QuestionPartEnd(name: string, word: string)
    ensures Reads(QuestionPart(name), |name|, word) <==> word == "?"
  {
    var part := QuestionPart(name);
    QuestionPartAt(name);
    assert TokensFrom(part, |part|) == [];
    assert TokensFrom(part, |name|) == [Class("?")];
    OneTokenAccepts(Class("?"), word);
    if |word| == 1 {
      QuestionOnly(word[0]);
    }
  }

  /** In a sample, `x` stands in for the class. */
  lemma {:induction false} QuestionPartSample(name: string, i: nat)
    requires !HasGlobSyntax(name) && i <= |name|
    ensures Filled(SubstituteClasses(QuestionPart(name), i)) == name[i..] + "x"
    decreases |name| - i
  {
    var part := QuestionPart(name);
    QuestionPartAt(name);
    assert Filled("") == "";
    if i < |name| {
      NoGlobSyntaxAt(name, i);
      QuestionPartSample(name, i + 1);
      FilledCons(part[i], SubstituteClasses(part, i + 1));
    } else {
      assert SubstituteClasses(part, |part|) == "";
      FilledCons('?', "");
    }
  }

  lemma QuestionGlobParts(name: string)
    requires '/' !in name
    ensures Text.Split(QuestionGlob(name), '/') == [QuestionPart(name), "a"]
  {
    var parts := [QuestionPart(name), "a"];
    assert parts[1..] == ["a"];
    assert Text.Join(parts, '/') == QuestionGlob(name);
    Text.SplitOfJoin(parts, '/');
  }

  lemma QuestionGlobMatches(name: string, path: string)
    requires !HasGlobSyntax(name) && '/' !in name && MatchesExpanded(path, QuestionGlob(name))
    ensures Text.Split(path, '/') == [name + "?", "a"]
  {
    var segments := Text.Split(path, '/');
    QuestionGlobParts(name);
    QuestionPartAt(name);
    assert QuestionPart(name) != "**";
    TwoPartsMatch(QuestionPart(name), "a", segments);
    QuestionPartReads(name, 0, segments[0]);
    AIsLiteral();
    LiteralSegmentMatches("a", 0, segments[1]);
    assert name[0..] == name;
  }

  lemma AIsLiteral()
    ensures !HasGlobSyntax("a") && "a"[0..] == "a"
  {
  }

  // ----- a candidate glob matches only paths that begin as it does

  /** The glob begins with a character that stands for itself. */
  predicate BeginsPlainly(glob: string) {
    glob != "" && glob[0] !in ['*', '?', '[', '{', '}', '/']
  }

  lemma FirstCharOfExpanded(path: string, pattern: string)
    requires BeginsPlainly(pattern) && MatchesExpanded(path, pattern)
    ensures path != "" && path[0] == pattern[0]
  {
    var parts, segments := Text.Split(pattern, '/'), Text.Split(path, '/');
    var k, rest := Text.SplitTail(pattern, '/');
    var l, others := Text.SplitTail(path, '/');
    assert parts[0] == pattern[..k] && segments[0] == path[..l];
    assert k > 0 by {
      if k == 0 { EmptyFirstPart(pattern); }
    }
    assert parts[0][0] == pattern[0] && parts[0] != "**";
    TokenReads(parts[0], 0, segments[0]);
  }

  lemma EmptyFirstPart(pattern: string)
    requires pattern != "" && Text.Split(pattern, '/')[0] == ""
    ensures pattern[0] == '/'
  {
    Text.JoinOfSplit(pattern, '/');
  }

  lemma FirstCharOfGlob(path: string, glob: string)
    requires BeginsPlainly(glob) && MatchesGlob(path, glob) == Ok(true)
    ensures path != "" && path[0] == glob[0]
  {
    var k := MatchedExpansion(path, glob);
    var first, rest := [glob[0]], glob[1..];
    assert glob == first + rest;
    Braces.PrefixPassesThrough(first, rest);
    assert Braces.ExpandBraces(glob).value[k] == first + Braces.ExpandBraces(rest).value[k];
    FirstCharOfExpanded(path, Braces.ExpandBraces(glob).value[k]);
  }

  predicate BeginsElsewhere(glob: string) {
    BeginsPlainly(glob) && glob[0] != 'n'
  }

  lemma FirstGlobsBeginElsewhere(k: nat)
    requires k < 13 && k != 2
    ensures BeginsElsewhere(CANDIDATE_GLOBS[k])
  {
    match k {
      case 0 => assert CANDIDATE_GLOBS[0][0] == 's';
      case 1 => assert CANDIDATE_GLOBS[1][0] == 'd';
      case 3 => assert CANDIDATE_GLOBS[3][0] == 'm';
      case 4 => assert CANDIDATE_GLOBS[4][0] == 'm';
      case 5 => assert CANDIDATE_GLOBS[5][0] == 'a';
      case 6 => assert CANDIDATE_GLOBS[6][0] == 'd';
      case 7 => assert CANDIDATE_GLOBS[7][0] == 'D';
      case 8 => assert CANDIDATE_GLOBS[8][0] == 'd';
      case 9 => assert CANDIDATE_GLOBS[9][0] == '.';
      case 10 => assert CANDIDATE_GLOBS[10][0] == 'J';
      case 11 => assert CANDIDATE_GLOBS[11][0] == 'J';
      case 12 => assert CANDIDATE_GLOBS[12][0] == 'p';
    }
  }

  lemma LastGlobsBeginElsewhere(k: nat)
    requires 13 <= k < 26
    ensures BeginsElsewhere(CANDIDATE_GLOBS[k])
  {
    match k {
      case 13 => assert CANDIDATE_GLOBS[13][0] == 'u';
      case 14 => assert CANDIDATE_GLOBS[14][0] == '.';
      case 15 => assert CANDIDATE_GLOBS[15][0] == 's';
      case 16 => assert CANDIDATE_GLOBS[16][0] == 't';
      case 17 => assert CANDIDATE_GLOBS[17][0] == 't';
      case 18 => assert CANDIDATE_GLOBS[18][0] == 'd';
      case 19 =>
        HeavyDirectoriesAreGroup();
        assert "tests/"[0] == 't';
      case 20 => assert CANDIDATE_GLOBS[20][0] == 't';
      case 21 => assert CANDIDATE_GLOBS[21][0] == 't';
      case 22 => assert CANDIDATE_GLOBS[22][0] == 't';
      case 23 => assert CANDIDATE_GLOBS[23][0] == 't';
      case 24 => assert CANDIDATE_GLOBS[24][0] == 't';
      case 25 => assert CANDIDATE_GLOBS[25][0] == 't';
    }
  }

  lemma GlobBeginsElsewhere(k: nat)
    requires k < |CANDIDATE_GLOBS| && k != 2
    ensures BeginsElsewhere(CANDIDATE_GLOBS[k])
  {
    if k < 13 {
      FirstGlobsBeginElsewhere(k);
    } else {
      LastGlobsBeginElsewhere(k);
    }
  }

  // ----- a mapping accepted for a sample it does not match

  lemma NameFacts()
    ensures !HasGlobSyntax("ngin") && !HasGlobSyntax("nginx") && '/' !in "ngin" && '/' !in "nginx"
    ensures "ngin"[0..] == "ngin" && "nginx"[0..] == "nginx" && "ngin" + "x" == "nginx"
  {
  }

  lemma NginxGlob()
    ensures CANDIDATE_GLOBS[2] == "nginx" + "/" + "**"
  {
  }

  /** What the glob matches is no candidate: it begins with `n` like no other candidate glob, and its first
      part is not `nginx`. */
  lemma StrayPathIsNoCandidate(path: string)
    requires MatchesExpanded(path, QuestionGlob("ngin"))
    ensures !IsCandidate(PATH_RULES, path)
  {
    NameFacts();
    QuestionGlobMatches("ngin", path);
    FirstCharOfStray(path);
    forall k | 0 <= k < |PATH_RULES.candidateGlobs|
      ensures MatchesGlob(path, PATH_RULES.candidateGlobs[k]) != Ok(true)
    {
      if MatchesGlob(path, PATH_RULES.candidateGlobs[k]) == Ok(true) {
        if k == 2 {
          StrayIsNotBelowNginx(path);
        } else {
          GlobBeginsElsewhere(k);
          FirstCharOfGlob(path, CANDIDATE_GLOBS[k]);
        }
      }
    }
  }

  lemma FirstCharOfStray(path: string)
    requires Text.Split(path, '/') == ["ngin" + "?", "a"]
    ensures path != "" && path[0] == 'n'
  {
    Text.JoinOfSplit(path, '/');
    assert path == "ngin" + "?" + "/" + Text.Join(["ngin" + "?", "a"][1..], '/');
  }

  lemma StrayIsNotBelowNginx(path: string)
    requires Text.Split(path, '/') == ["ngin" + "?", "a"]
    ensures MatchesGlob(path, CANDIDATE_GLOBS[2]) != Ok(true)
  {
    NginxGlob();
    NameFacts();
    GlobsTo6HaveNoBraces();
    DirectoryGlobParts("nginx");
    NotBelow("nginx", "ngin" + "?", path);
    Braces.BraceFreeExpandsToItself(CANDIDATE_GLOBS[2]);
  }

  lemma GlobsTo6HaveNoBraces()
    ensures Braces.BraceFree(CANDIDATE_GLOBS[2])
  {
    CandidateGlobHasNoBraces(2);
  }

  lemma DirectoryGlobParts(directory: string)
    requires '/' !in directory
    ensures Text.Split(directory + "/" + "**", '/') == [directory, "**"]
  {
    assert [directory, "**"][1..] == ["**"];
    assert Text.Join([directory, "**"], '/') == directory + "/" + "**";
    Text.SplitOfJoin([directory, "**"], '/');
  }

  lemma NotBelow(directory: string, first: string, path: string)
    requires !HasGlobSyntax(directory) && '/' !in directory && first != directory
    requires Text.Split(path, '/')[0] == first
    ensures !MatchesExpanded(path, directory + "/" + "**")
  {
    DirectoryGlobParts(directory);
    LiteralSegmentMatches(directory, 0, first);
    assert directory[0..] == directory;
    if directory != "" {
      NoGlobSyntaxAt(directory, 0);
    }
    assert directory != "**";
  }

  /** Lower-case letters only. */
  predicate IsName(name: string) {
    forall k :: 0 <= k < |name| ==> 'a' <= name[k] <= 'z'
  }

  lemma QuestionGlobChars(name: string)
    requires IsName(name)
    ensures var glob := QuestionGlob(name);
      && |glob| == |name| + 5 && glob[|name| + 1] == '?' && glob[|name| + 2] == ']'
      && glob[|name| + 1..|name| + 2] == "?"
      && (forall k :: 0 <= k < |glob| ==> ' ' <= glob[k] < '{' && glob[k] != '\\' && (glob[k] == '[' <==> k == |name|))
  {
    var glob := QuestionGlob(name);
    assert forall k :: 0 <= k < |name| ==> glob[k] == name[k];
    assert glob[|name|] == '[' && glob[|name| + 1..|name| + 2] == "?";
  }

  lemma QuestionGlobIsValid(name: string)
    requires IsName(name)
    ensures Braces.ExpandBraces(QuestionGlob(name)) == Ok([QuestionGlob(name)]) && IsValidGlob(QuestionGlob(name))
  {
    QuestionGlobChars(name);
    Braces.BraceFreeExpandsToItself(QuestionGlob(name));
    QuestionGlobIsRelative(name);
    QuestionGlobIsSupported(name);
  }

  lemma QuestionGlobIsRelative(name: string)
    requires IsName(name)
    ensures IsRepositoryRelative(QuestionGlob(name), true)
  {
    var glob := QuestionGlob(name);
    QuestionGlobChars(name);
    assert '/' !in name;
    QuestionGlobParts(name);
    QuestionPartAt(name);
    forall k | 0 <= k < |glob| ensures !IsControlOrFormat(glob[k]) {
      PrintableIsNoControl(glob[k]);
    }
  }

  lemma QuestionGlobIsSupported(name: string)
    requires IsName(name)
    ensures ClassesAreSupported(QuestionGlob(name))
  {
    QuestionGlobChars(name);
    Text.FindIsFirst(QuestionGlob(name), ']', |name| + 1, |name| + 2);
  }

  lemma QuestionGlobSample(name: string)
    requires !HasGlobSyntax(name) && '/' !in name
    ensures IsSamplePath(QuestionGlob(name), name + "x" + "/" + "a")
  {
    var first, sample := QuestionPart(name), name + "x";
    QuestionGlobParts(name);
    QuestionPartAt(name);
    QuestionPartSample(name, 0);
    assert name[0..] == name && first != "**";
    AIsLiteral();
    LiteralIsItsSample("a", 0);
    assert [first, "a"][1..] == ["a"] && [sample, "a"][1..] == ["a"];
    assert ["a"][1..] == [] && IsSample([], []);
    assert IsSample(["a"], ["a"]);
    assert IsSample([first, "a"], [sample, "a"]);
    assert Text.Join([sample, "a"], '/') == sample + "/" + "a";
  }

  lemma SampleIsBelowNginx()
    ensures IsCandidate(PATH_RULES, "nginx" + "/" + "a")
  {
    NameFacts();
    LiteralSegmentMatches("nginx", 0, "nginx");
    AnythingBelow("nginx", "a");
    NginxGlob();
    CandidateGlobHasNoBraces(2);
    PlainGlobMatches("nginx" + "/" + "a", CANDIDATE_GLOBS[2]);
  }

  lemma NginIsName()
    ensures IsName("ngin")
  {
  }

  /** Under the selector's own rules a mapping can be accepted for its sample although it matches no
      candidate: `ngin[?]/a` is sampled by `nginx/a`, but matches only `ngin?/a`. */
  lemma AcceptedMappingMayMatchNoCandidate()
    ensures IsValidMapping(PATH_RULES, MappingEntry(QuestionGlob("ngin"), [], None))
    ensures !MatchesSomeCandidate(PATH_RULES, QuestionGlob("ngin"))
  {
    var expansions, sample := [QuestionGlob("ngin")], "nginx" + "/" + "a";
    NginIsName();
    NameFacts();
    QuestionGlobIsValid("ngin");
    QuestionGlobSample("ngin");
    SampleIsBelowNginx();
    assert IsSampleOf(expansions, sample) by {
      assert IsSamplePath(expansions[0], sample);
    }
    assert IsCandidateSample(PATH_RULES, expansions, sample);
    forall path | MatchesGlob(path, QuestionGlob("ngin")) == Ok(true) ensures !IsCandidate(PATH_RULES, path) {
      var k := MatchedExpansion(path, QuestionGlob("ngin"));
      StrayPathIsNoCandidate(path);
    }
  }
}
