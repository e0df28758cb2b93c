/** Which paths the selector's own globs tell: HEAVY tests and candidates, spelled out by segments. */
module OwnPaths {
  import opened Ambiguity
  import opened OwnRules
  import opened Paths
  import opened Repository
  import opened Results
  import opened Segments
  import Braces
  import Text

  // ----- what the forms of globs match

  /** The word begins with `a` and ends with `b`, without overlap. */
  predicate Surrounds(a: string, b: string, word: string) {
    |a| + |b| <= |word| && a <= word && word[|word| - |b|..] == b
  }

  lemma {:induction false} StarSegmentReads(a: string, b: string, i: nat, word: string)
    requires !HasGlobSyntax(a) && !HasGlobSyntax(b) && i <= |a|
    ensures Reads(a + "*" + b, i, word) <==> Surrounds(a[i..], b, word)
    decreases |a| - i, |word|
  {
    if i < |a| {
      LiteralStep(a, b, i, word);
      if word != "" {
        StarSegmentReads(a, b, i + 1, word[1..]);
        SurroundsTail(a[i..], b, word);
        assert a[i..][1..] == a[i + 1..];
      }
    } else {
      StarStep(a, b, word);
      if word != "" {
        StarSegmentReads(a, b, i, word[1..]);
        SurroundsOrShorter(b, word);
      }
    }
  }

  lemma LiteralStep(a: string, b: string, i: nat, word: string)
    requires !HasGlobSyntax(a) && i < |a|
    ensures Reads(a + "*" + b, i, word) <==> word != "" && word[0] == a[i] && Reads(a + "*" + b, i + 1, word[1..])
  {
    NoGlobSyntaxAt(a, i);
    assert (a + "*" + b)[i] == a[i];
    TokenReads(a + "*" + b, i, word);
  }

  lemma StarStep(a: string, b: string, word: string)
    requires !HasGlobSyntax(b)
    ensures Reads(a + "*" + b, |a|, word) <==> word == b || (word != "" && Reads(a + "*" + b, |a|, word[1..]))
  {
    var segment := a + "*" + b;
    assert segment[|a|] == '*' && segment[|a| + 1..] == b;
    StarReads(segment, |a|, word);
    EndReads(segment, b, |a| + 1, word);
  }

  lemma SurroundsTail(a: string, b: string, word: string)
    requires a != "" && word != ""
    ensures Surrounds(a, b, word) <==> word[0] == a[0] && Surrounds(a[1..], b, word[1..])
  {
    assert a <= word <==> word[0] == a[0] && a[1..] <= word[1..];
    if |a| + |b| <= |word| {
      assert word[1..][|word| - 1 - |b|..] == word[|word| - |b|..];
    }
  }

  lemma SurroundsOrShorter(b: string, word: string)
    requires word != ""
    ensures Surrounds("", b, word) <==> word == b || Surrounds("", b, word[1..])
  {
    if |b| < |word| {
      assert word[1..][|word| - 1 - |b|..] == word[|word| - |b|..];
    }
  }

  /** The literal end of a segment reads only itself. */
  lemma {:induction false} EndReads(segment: string, b: string, i: nat, word: string)
    requires !HasGlobSyntax(b) && |b| <= |segment| && |segment| - |b| <= i <= |segment|
    requires segment[|segment| - |b|..] == b
    ensures Reads(segment, i, word) <==> word == segment[i..]
    decreases |segment| - i
  {
    if i < |segment| {
      NoGlobSyntaxAt(b, i - (|segment| - |b|));
      TokenReads(segment, i, word);
      if word != "" {
        EndReads(segment, b, i + 1, word[1..]);
        assert segment[i..] == [segment[i]] + segment[i + 1..] && word == [word[0]] + word[1..];
      }
    }
  }

  lemma StarSegmentMatchesThese(a: string, b: string, word: string)
    requires !HasGlobSyntax(a) && !HasGlobSyntax(b)
    ensures MatchesSegment(a + "*" + b, word) <==> Surrounds(a, b, word)
  {
    StarSegmentReads(a, b, 0, word);
    assert a[0..] == a;
  }

  /** Literal parts and then any others. */
  lemma {:induction false} LiteralPartsFirst(names: seq<string>, parts: seq<string>, segments: seq<string>)
    requires AreLiteral(names)
    ensures MatchesParts(names + parts, segments) <==>
      |names| <= |segments| && segments[..|names|] == names && MatchesParts(parts, segments[|names|..])
    decreases |names|
  {
    if names == [] {
      assert names + parts == parts && segments[0..] == segments;
    } else {
      assert (names + parts)[1..] == names[1..] + parts;
      assert (names + parts)[0] == names[0] != "**" by {
        if names[0] == "**" {
          NoGlobSyntaxAt(names[0], 0);
        }
      }
      if segments != [] {
        LiteralSegmentMatches(names[0], 0, segments[0]);
        assert names[0][0..] == names[0];
        LiteralPartsFirst(names[1..], parts, segments[1..]);
        if |names| <= |segments| {
          assert segments[..|names|] == [segments[0]] + segments[1..][..|names| - 1];
          assert segments[1..][|names| - 1..] == segments[|names|..];
          assert names == [names[0]] + names[1..];
        }
      }
    }
  }

  lemma {:induction false} StarsMatchAll(segments: seq<string>)
    ensures MatchesParts(["**"], segments)
    decreases |segments|
  {
    assert ["**"][1..] == [];
    if segments != [] {
      StarsMatchAll(segments[1..]);
    }
  }

  /** `**` and then one part: the part matches the last segment. */
  lemma {:induction false} StarsThenLast(last: string, segments: seq<string>)
    requires last != "**"
    ensures MatchesParts(["**", last], segments) <==>
      segments != [] && MatchesSegment(last, segments[|segments| - 1])
    decreases |segments|
  {
    assert ["**", last][1..] == [last];
    LastPartMatches(last, segments);
    if segments != [] {
      StarsThenLast(last, segments[1..]);
    }
  }

  /** A glob written as parts is split into them. */
  lemma PartsMatch(parts: seq<string>, glob: string, path: string)
    requires parts != [] && Text.FreeOf(parts, '/') && glob == Text.Join(parts, '/')
    ensures MatchesExpanded(path, glob) <==> MatchesParts(parts, Text.Split(path, '/'))
  {
    Text.SplitOfJoin(parts, '/');
  }

  // ----- HEAVY tests

  lemma OneGroupAt(before: string, choices: seq<string>, after: string, k: nat)
    requires k < |choices|
    ensures var product := Braces.Product(Braces.Group(before, choices, Braces.Plain(after)));
      |product| == |choices| && product[k] == before + choices[k] + after
  {
    Braces.SpreadAt(before, choices, [after], k, 0);
  }

  /** The glob of one choice matches. */
  ghost predicate ChoiceMatches(path: string, before: string, choices: seq<string>, after: string, k: nat) {
    k < |choices| && MatchesExpanded(path, before + choices[k] + after)
  }

  lemma OneGroupMatches(path: string, glob: string, before: string, choices: seq<string>, after: string)
    requires choices != []
    requires Braces.ExpandBraces(glob) == Ok(Braces.Product(Braces.Group(before, choices, Braces.Plain(after))))
    ensures MatchesGlob(path, glob) == Ok(true) <==> exists k: nat :: ChoiceMatches(path, before, choices, after, k)
  {
    OneGroupAt(before, choices, after, 0);
    if MatchesGlob(path, glob) == Ok(true) {
      var k := MatchedExpansion(path, glob);
      OneGroupAt(before, choices, after, k);
      assert ChoiceMatches(path, before, choices, after, k);
    }
    if k: nat :| ChoiceMatches(path, before, choices, after, k) {
      OneGroupAt(before, choices, after, k);
      ExpansionMatches(path, glob, k);
    }
  }

  lemma HeavyLiterals()
    ensures !HasGlobSyntax("tests") && '/' !in "tests" && !HasGlobSyntax("test_") && !HasGlobSyntax(".py")
    ensures '/' !in "**" && '/' !in "test_*.py" && "test_" + "*" + ".py" == "test_*.py"
  {
  }

  lemma KindGlob(kind: string)
    ensures "tests/" + kind + "/**/test_*.py" == Text.Join(["tests", kind, "**", "test_*.py"], '/')
  {
    JoinedDirectories("tests", kind, ["**", "test_*.py"]);
    JoinedAnywhere("test_*.py");
    assert ["tests", kind] + ["**", "test_*.py"] == ["tests", kind, "**", "test_*.py"];
    assert "tests" + "/" == "tests/" && "/" + ("**" + ("/" + "test_*.py")) == "/**/test_*.py";
  }

  /** A file at any depth below two directories. */
  lemma FileBelowTwo(first: string, second: string, a: string, b: string, segments: seq<string>)
    requires !HasGlobSyntax(first) && !HasGlobSyntax(second) && !HasGlobSyntax(a) && !HasGlobSyntax(b) && a != ""
    ensures MatchesParts([first, second, "**", a + "*" + b], segments) <==>
      |segments| >= 3 && segments[0] == first && segments[1] == second && Surrounds(a, b, segments[|segments| - 1])
  {
    var last := a + "*" + b;
    NoGlobSyntaxAt(a, 0);
    assert last[0] == a[0] && last != "**";
    assert [first, second] + ["**", last] == [first, second, "**", last];
    TwoNamesThen(first, second, ["**", last], segments);
    if |segments| >= 2 {
      StarsThenLast(last, segments[2..]);
    }
    if |segments| >= 3 {
      assert segments[2..][|segments| - 3] == segments[|segments| - 1];
      StarSegmentMatchesThese(a, b, segments[|segments| - 1]);
    }
  }

  lemma KindMatches(kind: string, path: string)
    requires !HasGlobSyntax(kind) && '/' !in kind
    ensures MatchesExpanded(path, "tests/" + kind + "/**/test_*.py") <==> IsTestBelow(kind, Text.Split(path, '/'))
  {
    KindIsParts(kind, path);
    TestBelowParts(kind, Text.Split(path, '/'));
  }

  lemma KindIsParts(kind: string, path: string)
    requires '/' !in kind
    ensures MatchesExpanded(path, "tests/" + kind + "/**/test_*.py") <==>
      MatchesParts(["tests", kind, "**", "test_*.py"], Text.Split(path, '/'))
  {
    KindGlob(kind);
    KindPartsAreFree(kind);
    PartsMatch(["tests", kind, "**", "test_*.py"], "tests/" + kind + "/**/test_*.py", path);
  }

  lemma TestBelowParts(kind: string, segments: seq<string>)
    requires !HasGlobSyntax(kind)
    ensures MatchesParts(["tests", kind, "**", "test_*.py"], segments) <==> IsTestBelow(kind, segments)
  {
    HeavyLiterals();
    FileBelowTwo("tests", kind, "test_", ".py", segments);
  }

  lemma KindPartsAreFree(kind: string)
    requires '/' !in kind
    ensures Text.FreeOf(["tests", kind, "**", "test_*.py"], '/')
  {
  }

  predicate IsTestBelow(kind: string, segments: seq<string>) {
    |segments| >= 3 && segments[0] == "tests" && segments[1] == kind &&
      Surrounds("test_", ".py", segments[|segments| - 1])
  }

  lemma TwoNamesThen(first: string, second: string, parts: seq<string>, segments: seq<string>)
    requires !HasGlobSyntax(first) && !HasGlobSyntax(second)
    ensures MatchesParts([first, second] + parts, segments) <==>
      |segments| >= 2 && segments[0] == first && segments[1] == second && MatchesParts(parts, segments[2..])
  {
    LiteralPartsFirst([first, second], parts, segments);
    if |segments| >= 2 {
      assert segments[..2] == [segments[0], segments[1]];
    }
  }

  predicate IsKind(name: string) {
    name == "integration" || name == "e2e" || name == "resilience" || name == "load" || name == "mock"
  }

  lemma KindsAreThese(name: string)
    ensures IsKind(name) <==> exists k :: 0 <= k < |KINDS| && KINDS[k] == name
  {
    assert KINDS[0] == "integration" && KINDS[1] == "e2e" && KINDS[2] == "resilience";
    assert KINDS[3] == "load" && KINDS[4] == "mock";
  }

  lemma KindsArePlain(k: nat)
    requires k < |KINDS|
    ensures !HasGlobSyntax(KINDS[k]) && '/' !in KINDS[k]
  {
    match k {
      case 0 => assert !HasGlobSyntax("integration") && '/' !in "integration";
      case 1 => assert !HasGlobSyntax("e2e") && '/' !in "e2e";
      case 2 => assert !HasGlobSyntax("resilience") && '/' !in "resilience";
      case 3 => assert !HasGlobSyntax("load") && '/' !in "load";
      case 4 => assert !HasGlobSyntax("mock") && '/' !in "mock";
    }
  }

  /** A HEAVY test lies below one of five directories of `tests`, at any depth, and its name begins with
      `test_` and ends with `.py`. */
  predicate IsHeavyBySegments(segments: seq<string>) {
    && |segments| >= 3 && segments[0] == "tests" && IsKind(segments[1])
    && Surrounds("test_", ".py", segments[|segments| - 1])
  }

  lemma KindOfChoice(path: string, k: nat)
    requires ChoiceMatches(path, "tests/", KINDS, "/**/test_*.py", k)
    ensures IsHeavyBySegments(Text.Split(path, '/'))
  {
    KindsArePlain(k);
    KindMatches(KINDS[k], path);
    KindsAreThese(Text.Split(path, '/')[1]);
  }

  lemma ChoiceOfKind(path: string) returns (k: nat)
    requires IsHeavyBySegments(Text.Split(path, '/'))
    ensures ChoiceMatches(path, "tests/", KINDS, "/**/test_*.py", k)
  {
    KindsAreThese(Text.Split(path, '/')[1]);
    k :| k < |KINDS| && KINDS[k] == Text.Split(path, '/')[1];
    KindsArePlain(k);
    KindMatches(KINDS[k], path);
  }

  lemma HeavyTestsAreThese(path: string)
    ensures IsHeavyTest(PATH_RULES, path) <==> IsHeavyBySegments(Text.Split(path, '/'))
  {
    HeavyGlobExpands();
    OneGroupMatches(path, PATH_RULES.heavyGlob, "tests/", KINDS, "/**/test_*.py");
    if k: nat :| ChoiceMatches(path, "tests/", KINDS, "/**/test_*.py", k) {
      KindOfChoice(path, k);
    }
    if IsHeavyBySegments(Text.Split(path, '/')) {
      var k := ChoiceOfKind(path);
    }
  }
}
