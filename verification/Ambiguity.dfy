/** When the ambiguity check refuses a configuration: because of a path the repository can hold, or
    only because of one it cannot. */
module Ambiguity {
  import opened CharClasses
  import opened Config
  import opened FiniteAlphabet
  import opened OwnRules
  import opened Paths
  import opened Repository
  import opened RepositoryOverlap
  import opened Results
  import opened Sampling
  import opened Segments
  import Braces
  import Text

  // ----- exactly when a repository path is behind it

  ghost predicate IsRepositoryPathOfBoth(path: string, left: string, right: string) {
    IsRepositoryRelative(path, false) && IsMatchedByBoth(path, left, right)
  }

  /** The pair of expansions can be joined by plain words. */
  ghost predicate ExpansionsJoin(lefts: seq<string>, rights: seq<string>, k: nat, l: nat) {
    k < |lefts| && l < |rights| && PlainlyJoinable(Text.Split(lefts[k], '/'), Text.Split(rights[l], '/'), 0, 0)
  }

  ghost predicate ShareRepositoryPath(left: string, right: string) {
    exists path :: IsRepositoryPathOfBoth(path, left, right)
  }

  ghost predicate SomeExpansionsJoin(left: string, right: string)
    requires IsValidGlob(left) && IsValidGlob(right)
  {
    exists k: nat, l: nat :: ExpansionsJoin(Braces.ExpandBraces(left).value, Braces.ExpandBraces(right).value, k, l)
  }

  /** Two valid globs both match some path a repository can hold exactly when some pair of their
      expansions can be joined by plain words. */
  lemma RefusalIsRealIff(left: string, right: string)
    requires IsValidGlob(left) && IsValidGlob(right)
    ensures ShareRepositoryPath(left, right) <==> SomeExpansionsJoin(left, right)
  {
    if ShareRepositoryPath(left, right) {
      var path :| IsRepositoryPathOfBoth(path, left, right);
      var k, l := SharedPathJoins(left, right, path);
    }
    if SomeExpansionsJoin(left, right) {
      var k: nat, l: nat :|
        ExpansionsJoin(Braces.ExpandBraces(left).value, Braces.ExpandBraces(right).value, k, l);
      var path := JoinedGlobsSharePath(left, right, k, l);
    }
  }

  lemma SharedPathJoins(left: string, right: string, path: string) returns (k: nat, l: nat)
    requires IsValidGlob(left) && IsValidGlob(right) && IsRepositoryPathOfBoth(path, left, right)
    ensures ExpansionsJoin(Braces.ExpandBraces(left).value, Braces.ExpandBraces(right).value, k, l)
  {
    k := MatchedExpansion(path, left);
    l := MatchedExpansion(path, right);
    RepositoryPathJoins(Braces.ExpandBraces(left).value, Braces.ExpandBraces(right).value, k, l, path);
  }

  lemma JoinedGlobsSharePath(left: string, right: string, k: nat, l: nat) returns (path: string)
    requires IsValidGlob(left) && IsValidGlob(right)
    requires ExpansionsJoin(Braces.ExpandBraces(left).value, Braces.ExpandBraces(right).value, k, l)
    ensures IsRepositoryPathOfBoth(path, left, right)
  {
    path := JoinedRepositoryPath(Braces.ExpandBraces(left).value, Braces.ExpandBraces(right).value, k, l);
    ExpansionMatches(path, left, k);
    ExpansionMatches(path, right, l);
  }

  lemma MatchedExpansion(path: string, glob: string) returns (k: nat)
    requires MatchesGlob(path, glob) == Ok(true)
    ensures k < |Braces.ExpandBraces(glob).value| && MatchesExpanded(path, Braces.ExpandBraces(glob).value[k])
  {
    k :| k < |Braces.ExpandBraces(glob).value| && MatchesExpanded(path, Braces.ExpandBraces(glob).value[k]);
  }

  lemma ExpansionMatches(path: string, glob: string, k: nat)
    requires Braces.ExpandBraces(glob).Ok? && k < |Braces.ExpandBraces(glob).value|
    requires MatchesExpanded(path, Braces.ExpandBraces(glob).value[k])
    ensures MatchesGlob(path, glob) == Ok(true)
  {
  }

  lemma RepositoryPathJoins(lefts: seq<string>, rights: seq<string>, k: nat, l: nat, path: string)
    requires AreValidExpansions(lefts) && AreValidExpansions(rights) && k < |lefts| && l < |rights|
    requires IsSharedRepositoryPath(path, lefts[k], rights[l])
    ensures ExpansionsJoin(lefts, rights, k, l)
  {
    RepositoryOverlapIsExact(lefts[k], rights[l]);
  }

  lemma JoinedRepositoryPath(lefts: seq<string>, rights: seq<string>, k: nat, l: nat) returns (path: string)
    requires AreValidExpansions(lefts) && AreValidExpansions(rights) && ExpansionsJoin(lefts, rights, k, l)
    ensures IsSharedRepositoryPath(path, lefts[k], rights[l])
  {
    RepositoryOverlapIsExact(lefts[k], rights[l]);
    path :| IsSharedRepositoryPath(path, lefts[k], rights[l]);
  }

  // ----- a refusal with no repository path behind it

  /** A glob of one class below `src`. */
  function ClassGlob(specification: string): string {
    "src/" + ("[" + specification + "]")
  }

  lemma ClassGlobParts(specification: string)
    requires '/' !in specification
    ensures Text.Split(ClassGlob(specification), '/') == ["src", "[" + specification + "]"]
  {
    var parts := ["src", "[" + specification + "]"];
    assert parts[1..] == ["[" + specification + "]"];
    assert Text.Join(parts, '/') == ClassGlob(specification);
    Text.SplitOfJoin(parts, '/');
  }

  lemma ClassTokens(specification: string)
    requires ']' !in specification
    ensures TokensFrom("[" + specification + "]", 0) == [Class(specification)]
  {
    var segment := "[" + specification + "]";
    Text.FindIsFirst(segment, ']', 1, |specification| + 1);
    assert segment[1..|specification| + 1] == specification;
    assert TokensFrom(segment, |segment|) == [];
  }

  lemma SourceMatches(word: string)
    ensures MatchesSegment("src", word) <==> word == "src"
  {
    LiteralSegmentMatches("src", 0, word);
  }

  /** What such a glob matches: `src/` and one member of the class. */
  lemma ClassGlobMatches(specification: string, path: string)
    requires '/' !in specification && ']' !in specification
    ensures MatchesExpanded(path, ClassGlob(specification)) <==>
      var segments := Text.Split(path, '/');
      |segments| == 2 && segments[0] == "src" && |segments[1]| == 1 && Denotes(specification, segments[1][0])
  {
    ClassGlobParts(specification);
    ClassTokens(specification);
    var segments, part := Text.Split(path, '/'), "[" + specification + "]";
    assert part[0] == '[' && part != "**";
    TwoPartsMatch("src", part, segments);
    if |segments| == 2 {
      SourceMatches(segments[0]);
      OneTokenAccepts(Class(specification), segments[1]);
    }
  }

  lemma TwoPartsMatch(first: string, second: string, segments: seq<string>)
    requires first != "**" && second != "**"
    ensures MatchesParts([first, second], segments) <==>
      |segments| == 2 && MatchesSegment(first, segments[0]) && MatchesSegment(second, segments[1])
  {
    assert [first, second][1..] == [second];
    if segments != [] {
      LastPartMatches(second, segments[1..]);
    }
  }

  lemma LastPartMatches(part: string, segments: seq<string>)
    requires part != "**"
    ensures MatchesParts([part], segments) <==> |segments| == 1 && MatchesSegment(part, segments[0])
  {
    assert [part][1..] == [];
  }

  // ----- such globs are valid sources

  lemma PrintableIsNoControl(c: char)
    requires ' ' <= c <= '~'
    ensures !IsControlOrFormat(c)
  {
  }

  /** The characters of a class specification that a glob below `src` may hold. */
  predicate IsWritable(specification: string) {
    forall k :: 0 <= k < |specification| ==>
      ' ' <= specification[k] <= '~' && specification[k] !in ['/', '\\', '[', ']', '{', '}']
  }

  lemma ClassGlobChars(specification: string)
    requires IsWritable(specification)
    ensures var glob := ClassGlob(specification);
      && (forall k :: 0 <= k < |glob| ==> ' ' <= glob[k] <= '~' && glob[k] != '\\' && glob[k] != '{' && glob[k] != '}')
      && (forall k :: 0 <= k < |glob| ==> (glob[k] == '[' <==> k == 4))
      && glob[5..5 + |specification|] == specification && |glob| == |specification| + 6
      && glob[5 + |specification|] == ']'
      && (forall k :: 5 <= k < 5 + |specification| ==> glob[k] != ']')
  {
    var glob := ClassGlob(specification);
    assert glob[..5] == "src/[" && glob[5..5 + |specification|] == specification;
    assert forall k :: 0 <= k < 5 ==> glob[k] == "src/["[k];
    assert forall k :: 5 <= k < 5 + |specification| ==> glob[k] == specification[k - 5];
  }

  lemma ClassGlobIsRelative(specification: string)
    requires IsWritable(specification)
    ensures IsRepositoryRelative(ClassGlob(specification), true)
  {
    var glob := ClassGlob(specification);
    ClassGlobChars(specification);
    ClassGlobParts(specification);
    forall k | 0 <= k < |glob| ensures !IsControlOrFormat(glob[k]) {
      PrintableIsNoControl(glob[k]);
    }
    assert ("[" + specification + "]")[0] == '[';
  }

  lemma ClassGlobIsSupported(specification: string)
    requires IsWritable(specification) && IsPlainClass(specification)
    ensures ClassesAreSupported(ClassGlob(specification))
  {
    ClassGlobChars(specification);
    Text.FindIsFirst(ClassGlob(specification), ']', 5, 5 + |specification|);
  }

  lemma ClassGlobExpands(specification: string)
    requires IsWritable(specification)
    ensures Braces.ExpandBraces(ClassGlob(specification)) == Ok([ClassGlob(specification)])
  {
    ClassGlobChars(specification);
    Braces.BraceFreeExpandsToItself(ClassGlob(specification));
  }

  /** A class that begins with `*` is sampled by a word. */
  lemma ClassGlobSample(specification: string)
    requires IsWritable(specification) && specification != "" && specification[0] == '*'
    ensures IsSamplePath(ClassGlob(specification), "src/sample")
  {
    var segment := "[" + specification + "]";
    ClassGlobParts(specification);
    SourceIsItsSample();
    StarredClassSample(specification);
    assert segment[0] == '[' && segment != "**";
    SampleOfTwoParts(ClassGlob(specification), "src", segment, "sample");
    SourceNames();
  }

  lemma SourceNames()
    ensures "src" + "/" + "sample" == "src/sample" && "src" + "/" + "**" == "src/**"
  {
  }

  lemma SampleOfTwoParts(pattern: string, first: string, second: string, name: string)
    requires Text.Split(pattern, '/') == [first, second] && first != "**" && second != "**"
    requires SampleSegment(first) == first && SampleSegment(second) == name
    ensures IsSamplePath(pattern, first + "/" + name)
  {
    assert [first, second][1..] == [second] && [first, name][1..] == [name];
    assert [second][1..] == [] && [name][1..] == [];
    assert IsSample([second], [name]);
    assert IsSample([first, second], [first, name]);
    assert Text.Join([first, name], '/') == first + "/" + name;
  }

  lemma StarredClassSample(specification: string)
    requires specification != "" && specification[0] == '*' && ']' !in specification
    ensures SampleSegment("[" + specification + "]") == "sample"
  {
    var segment := "[" + specification + "]";
    Text.FindIsFirst(segment, ']', 1, |specification| + 1);
    assert SubstituteClasses(segment, |segment|) == "";
    assert SubstituteClasses(segment, 0) == ['*'] + "";
    FilledCons('*', "");
    assert Filled("") == "";
  }

  /** Without glob syntax a segment is its own sample. */
  lemma {:induction false} LiteralIsItsSample(segment: string, i: nat)
    requires !HasGlobSyntax(segment) && i <= |segment|
    ensures Filled(SubstituteClasses(segment, i)) == segment[i..]
    decreases |segment| - i
  {
    if i < |segment| {
      NoGlobSyntaxAt(segment, i);
      LiteralIsItsSample(segment, i + 1);
      FilledCons(segment[i], SubstituteClasses(segment, i + 1));
    } else {
      assert Filled("") == "";
    }
  }

  lemma SourceIsItsSample()
    ensures SampleSegment("src") == "src"
  {
    LiteralIsItsSample("src", 0);
  }

  /** The glob of everything below a directory matches every name in it. */
  lemma AnythingBelow(directory: string, name: string)
    requires directory != "**" && MatchesSegment(directory, directory) && '/' !in directory && '/' !in name
    ensures MatchesExpanded(directory + "/" + name, directory + "/" + "**")
  {
    var parts, segments := [directory, "**"], [directory, name];
    assert parts[1..] == ["**"] && segments[1..] == [name];
    AbsorbSegment(["**"], name, []);
    assert [name] + [] == [name];
    Text.SplitOfJoin(parts, '/');
    Text.SplitOfJoin(segments, '/');
  }

  lemma SampleIsSource()
    ensures MatchesExpanded("src/sample", "src/**")
  {
    SourceMatches("src");
    AnythingBelow("src", "sample");
    SourceNames();
  }

  lemma SampleIsCandidate()
    ensures IsCandidate(PATH_RULES, "src/sample")
  {
    SampleIsSource();
    PlainGlobMatches("src/sample", "src/**");
    FirstCandidateGlobMatches("src/sample");
  }

  lemma FirstCandidateGlobMatches(path: string)
    requires MatchesGlob(path, "src/**") == Ok(true)
    ensures IsCandidate(PATH_RULES, path)
  {
    assert PATH_RULES.candidateGlobs[0] == "src/**";
  }

  lemma PlainGlobMatches(path: string, glob: string)
    requires Braces.BraceFree(glob) && MatchesExpanded(path, glob)
    ensures MatchesGlob(path, glob) == Ok(true)
  {
    Braces.BraceFreeExpandsToItself(glob);
    assert [glob][0] == glob;
  }

  lemma ClassGlobIsSource(specification: string, heavyTests: seq<string>)
    requires IsWritable(specification) && IsPlainClass(specification) && specification[0] == '*'
    requires AreHeavyPaths(PATH_RULES, heavyTests)
    ensures IsValidMapping(PATH_RULES, MappingEntry(ClassGlob(specification), heavyTests, None))
  {
    ClassGlobIsRelative(specification);
    ClassGlobIsSupported(specification);
    ClassGlobExpands(specification);
    ClassGlobSample(specification);
    SampleIsCandidate();
    var expansions := [ClassGlob(specification)];
    assert IsSampleOf(expansions, "src/sample") by {
      assert IsSamplePath(expansions[0], "src/sample");
    }
    assert IsCandidateSample(PATH_RULES, expansions, "src/sample");
  }

  // ----- a HEAVY test to disagree about

  /** A segment with one star matches any run in the place of the star. */
  lemma {:induction false} StarSegmentMatches(a: string, b: string, run: string, i: nat)
    requires !HasGlobSyntax(a) && !HasGlobSyntax(b) && i <= |a|
    ensures Reads(a + "*" + b, i, a[i..] + run + b)
    decreases |a| - i
  {
    var segment, word := a + "*" + b, a[i..] + run + b;
    if i == |a| {
      assert segment[i] == '*' && word == run + b;
      StarReads(segment, i, b);
      SegmentEnd(segment, b, i + 1);
      StarReadsRun(segment, i, run, b);
    } else {
      NoGlobSyntaxAt(a, i);
      assert segment[i] == a[i];
      TokenReads(segment, i, word);
      assert word[1..] == a[i + 1..] + run + b;
      StarSegmentMatches(a, b, run, i + 1);
    }
  }

  /** The literal end of a segment is read by itself. */
  lemma {:induction false} SegmentEnd(segment: string, b: string, i: nat)
    requires !HasGlobSyntax(b) && i <= |segment| && |b| <= |segment| && i >= |segment| - |b|
    requires segment[|segment| - |b|..] == b
    ensures Reads(segment, i, segment[i..])
    decreases |segment| - i
  {
    if i < |segment| {
      NoGlobSyntaxAt(b, i - (|segment| - |b|));
      TokenReads(segment, i, segment[i..]);
      assert segment[i..][1..] == segment[i + 1..];
      SegmentEnd(segment, b, i + 1);
    }
  }

  lemma {:induction false} StarReadsRun(segment: string, i: nat, run: string, word: string)
    requires i < |segment| && segment[i] == '*' && Reads(segment, i, word)
    ensures Reads(segment, i, run + word)
  {
    if run == "" {
      assert run + word == word;
    } else {
      StarReadsRun(segment, i, run[1..], word);
      assert (run + word)[1..] == run[1..] + word;
      StarReads(segment, i, run + word);
    }
  }

  lemma JoinedDirectories(first: string, second: string, names: seq<string>)
    requires names != []
    ensures Text.Join([first, second] + names, '/') == first + "/" + (second + "/" + Text.Join(names, '/'))
  {
    assert ([first, second] + names)[1..] == [second] + names;
    assert ([second] + names)[1..] == names;
  }

  lemma JoinedAnywhere(name: string)
    ensures Text.Join(["**", name], '/') == "**" + ("/" + name) && Text.Join([name], '/') == name
  {
    assert ["**", name][1..] == [name];
  }

  /** A test anywhere below two directories, here directly in the second one. */
  lemma DirectlyBelow(first: string, second: string, a: string, b: string, run: string)
    requires !HasGlobSyntax(first) && !HasGlobSyntax(second) && !HasGlobSyntax(a) && !HasGlobSyntax(b) && a != ""
    ensures MatchesParts([first, second, "**", a + "*" + b], [first, second, a + run + b])
  {
    StarSegmentMatches(a, b, run, 0);
    assert a[0..] == a;
    var last, name := a + "*" + b, a + run + b;
    assert MatchesSegment(last, name);
    NoGlobSyntaxAt(a, 0);
    assert last[0] == a[0];
    LastPartMatches(last, [name]);
    AbsorbNothing(last, [name]);
    LiteralPartTakes(second, ["**", last], [name]);
    LiteralPartTakes(first, [second, "**", last], [second, name]);
    assert [second] + ["**", last] == [second, "**", last] && [second] + [name] == [second, name];
    assert [first] + [second, "**", last] == [first, second, "**", last];
    assert [first] + [second, name] == [first, second, name];
  }

  lemma AbsorbNothing(last: string, segments: seq<string>)
    requires MatchesParts([last], segments)
    ensures MatchesParts(["**", last], segments)
  {
    assert ["**", last][1..] == [last];
  }

  lemma LiteralPartTakes(part: string, parts: seq<string>, segments: seq<string>)
    requires !HasGlobSyntax(part) && MatchesParts(parts, segments)
    ensures MatchesParts([part] + parts, [part] + segments)
  {
    if part != "" {
      NoGlobSyntaxAt(part, 0);
    }
    LiteralSegmentMatches(part, 0, part);
    assert part[0..] == part && ([part] + parts)[1..] == parts;
    TakeSegment([part] + parts, part, segments);
  }

  const HEAVY_TEST := "tests/" + "integration" + "/test_a.py"

  lemma FirstOfProduct(before: string, choices: seq<string>, after: string)
    requires choices != []
    ensures var product := Braces.Product(Braces.Group(before, choices, Braces.Plain(after)));
      product != [] && product[0] == before + choices[0] + after
  {
  }

  lemma HeavyTestParts()
    ensures HEAVY_TEST == Text.Join(["tests", "integration", "test_a.py"], '/')
  {
    JoinedDirectories("tests", "integration", ["test_a.py"]);
    JoinedAnywhere("test_a.py");
    assert ["tests", "integration"] + ["test_a.py"] == ["tests", "integration", "test_a.py"];
  }

  lemma HeavyPatternParts()
    ensures "tests/" + "integration" + "/**/test_*.py" == Text.Join(["tests", "integration", "**", "test_*.py"], '/')
  {
    JoinedDirectories("tests", "integration", ["**", "test_*.py"]);
    JoinedAnywhere("test_*.py");
    assert ["tests", "integration"] + ["**", "test_*.py"] == ["tests", "integration", "**", "test_*.py"];
  }

  lemma JoinedMatch(parts: seq<string>, segments: seq<string>)
    requires parts != [] && segments != [] && Text.FreeOf(parts, '/') && Text.FreeOf(segments, '/')
    requires MatchesParts(parts, segments)
    ensures MatchesExpanded(Text.Join(segments, '/'), Text.Join(parts, '/'))
  {
    Text.SplitOfJoin(parts, '/');
    Text.SplitOfJoin(segments, '/');
  }

  lemma HeavyNames()
    ensures "test_" + "*" + ".py" == "test_*.py" && "test_" + "a" + ".py" == "test_a.py"
  {
  }

  lemma HeavyPartsMatch()
    ensures MatchesParts(["tests", "integration", "**", "test_*.py"], ["tests", "integration", "test_a.py"])
  {
    DirectlyBelow("tests", "integration", "test_", ".py", "a");
    HeavyNames();
  }

  lemma HeavyPartsAreNames()
    ensures Text.FreeOf(["tests", "integration", "**", "test_*.py"], '/')
    ensures Text.FreeOf(["tests", "integration", "test_a.py"], '/')
  {
  }

  lemma HeavyTestIsMatched()
    ensures MatchesExpanded(HEAVY_TEST, "tests/" + "integration" + "/**/test_*.py")
  {
    HeavyPartsMatch();
    HeavyPartsAreNames();
    JoinedMatch(["tests", "integration", "**", "test_*.py"], ["tests", "integration", "test_a.py"]);
    HeavyTestParts();
    HeavyPatternParts();
  }

  lemma HeavyTestIsHeavy()
    ensures IsHeavyTest(PATH_RULES, HEAVY_TEST)
  {
    HeavyGlobExpands();
    FirstOfProduct("tests/", KINDS, "/**/test_*.py");
    HeavyTestIsMatched();
    assert KINDS[0] == "integration";
    ExpansionMatches(HEAVY_TEST, PATH_RULES.heavyGlob, 0);
  }

  lemma NameCharsArePlain(c: char)
    requires 'a' <= c <= 'z' || c == '_' || c == '.'
    ensures IsPlainChar(c)
  {
    PrintableIsNoControl(c);
  }

  lemma NameIsPlainWord(word: string)
    requires |word| > 2 && forall k :: 0 <= k < |word| ==> 'a' <= word[k] <= 'z' || word[k] == '_' || word[k] == '.'
    ensures IsPlainWord(word)
  {
    forall k | 0 <= k < |word| ensures IsPlainChar(word[k]) {
      NameCharsArePlain(word[k]);
    }
  }

  lemma HeavyTestIsRelative()
    ensures IsRepositoryRelative(HEAVY_TEST, false)
  {
    HeavyTestParts();
    NameIsPlainWord("tests");
    NameIsPlainWord("integration");
    NameIsPlainWord("test_a.py");
    Text.SplitOfJoin(["tests", "integration", "test_a.py"], '/');
    PlainWordsMakeRepositoryPath(HEAVY_TEST);
  }

  // ----- the refusal

  lemma StarClasses()
    ensures IsWritable("*") && IsPlainClass("*") && IsWritable("*x") && IsPlainClass("*x")
  {
  }

  lemma StarOnly(c: char)
    ensures Denotes("*", c) <==> c == '*'
    ensures Denotes("*x", '*')
  {
    assert "*"[1..] == "" && "*x"[1..] == "x";
    HoldsCons(Item('*', '*'), [], c);
    HoldsCons(Item('*', '*'), Items("x"), '*');
    assert [Item('*', '*')] + [] == [Item('*', '*')];
  }

  /** The first glob matches nothing but a star below `src`. */
  lemma OnlyAStarIsShared(path: string)
    requires MatchesExpanded(path, ClassGlob("*"))
    ensures !IsRepositoryRelative(path, false)
  {
    var segments := Text.Split(path, '/');
    ClassGlobMatches("*", path);
    StarOnly(segments[1][0]);
    assert !IsPlainChar('*');
    if IsRepositoryRelative(path, false) {
      PartsOfRepositoryPath(path);
    }
  }

  lemma AStarIsShared() returns (path: string)
    ensures MatchesExpanded(path, ClassGlob("*")) && MatchesExpanded(path, ClassGlob("*x"))
  {
    path := Text.Join(["src", "*"], '/');
    Text.SplitOfJoin(["src", "*"], '/');
    ClassGlobMatches("*", path);
    ClassGlobMatches("*x", path);
    StarOnly('*');
  }

  /** Two sources that disagree: `[*]` and `[*x]` below `src`. */
  ghost function DisputedSources(): (MappingEntry, MappingEntry) {
    (MappingEntry(ClassGlob("*"), [], None), MappingEntry(ClassGlob("*x"), [HEAVY_TEST], None))
  }

  lemma DisputedSourcesAreValid()
    ensures IsValidMapping(PATH_RULES, DisputedSources().0) && IsValidMapping(PATH_RULES, DisputedSources().1)
  {
    StarClasses();
    HeavyTestIsHeavy();
    HeavyTestIsRelative();
    ClassGlobIsSource("*", []);
    ClassGlobIsSource("*x", [HEAVY_TEST]);
  }

  lemma DisputedSourcesConflict()
    ensures Conflict(DisputedSources().0, DisputedSources().1)
  {
    StarClasses();
    ClassGlobExpands("*");
    ClassGlobExpands("*x");
    var path := AStarIsShared();
    ExpansionMatches(path, ClassGlob("*"), 0);
    ExpansionMatches(path, ClassGlob("*x"), 0);
    assert IsMatchedByBoth(path, ClassGlob("*"), ClassGlob("*x"));
  }

  /** Under the selector's own rules, two valid mappings can be refused as ambiguous although no path a
      repository can hold is matched by both: only a star below `src` is. */
  lemma RefusalMayConcernNoRepositoryPath()
    ensures var (left, right) := DisputedSources();
      && IsValidMapping(PATH_RULES, left) && IsValidMapping(PATH_RULES, right)
      && Conflict(left, right) && !ShareRepositoryPath(left.sourceGlob, right.sourceGlob)
  {
    DisputedSourcesAreValid();
    DisputedSourcesConflict();
    StarClasses();
    ClassGlobExpands("*");
    if path :| IsRepositoryPathOfBoth(path, ClassGlob("*"), ClassGlob("*x")) {
      var k := MatchedExpansion(path, ClassGlob("*"));
      OnlyAStarIsShared(path);
    }
  }
}
