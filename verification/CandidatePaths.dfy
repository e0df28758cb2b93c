/** Which paths the selector's own candidate globs tell, spelled out by names and segments. */
module CandidatePaths {
  import opened Ambiguity
  import opened CanonicalPaths
  import opened CandidateRange
  import opened OwnPaths
  import opened OwnRules
  import opened Paths
  import opened Repository
  import opened Results
  import Braces
  import Segments
  import Text

  ghost predicate GlobMatches(path: string, k: nat)
    requires k < |CANDIDATE_GLOBS|
  {
    MatchesGlob(path, CANDIDATE_GLOBS[k]) == Ok(true)
  }

  lemma BraceFreeGlobMatches(path: string, glob: string)
    requires Braces.BraceFree(glob)
    ensures MatchesGlob(path, glob) == Ok(true) <==> MatchesExpanded(path, glob)
  {
    Braces.BraceFreeExpandsToItself(glob);
    assert [glob][0] == glob;
  }

  // ----- exact names

  lemma FirstNamesHaveNoStars(k: nat)
    requires k == 3 || k == 5 || k == 7 || k == 9 || k == 10
    ensures '*' !in CANDIDATE_GLOBS[k]
  {
    match k {
      case 3 => assert '*' !in CANDIDATE_GLOBS[3];
      case 5 => assert '*' !in CANDIDATE_GLOBS[5];
      case 7 => assert '*' !in CANDIDATE_GLOBS[7];
      case 9 => assert '*' !in CANDIDATE_GLOBS[9];
      case 10 => assert '*' !in CANDIDATE_GLOBS[10];
    }
  }

  lemma NextNamesHaveNoStars(k: nat)
    requires k == 11 || k == 12 || k == 13 || k == 16
    ensures '*' !in CANDIDATE_GLOBS[k]
  {
    match k {
      case 11 => assert '*' !in CANDIDATE_GLOBS[11];
      case 12 => assert '*' !in CANDIDATE_GLOBS[12];
      case 13 => assert '*' !in CANDIDATE_GLOBS[13];
      case 16 => assert '*' !in CANDIDATE_GLOBS[16];
    }
  }

  lemma LastNamesHaveNoStars(k: nat)
    requires k == 17 || k == 20 || k == 23
    ensures '*' !in CANDIDATE_GLOBS[k]
  {
    match k {
      case 17 => assert '*' !in CANDIDATE_GLOBS[17];
      case 20 => assert '*' !in CANDIDATE_GLOBS[20];
      case 23 => assert '*' !in CANDIDATE_GLOBS[23];
    }
  }

  lemma LongNameHasNoStars()
    ensures '*' !in CANDIDATE_GLOBS[21]
  {
    assert '*' !in "tests/contracts/" && '*' !in "wms_integration/provider_profile_support.py";
  }

  lemma FirstNamesHaveNoQuestions(k: nat)
    requires k == 3 || k == 5 || k == 7 || k == 9 || k == 10
    ensures '?' !in CANDIDATE_GLOBS[k]
  {
    match k {
      case 3 => assert '?' !in CANDIDATE_GLOBS[3];
      case 5 => assert '?' !in CANDIDATE_GLOBS[5];
      case 7 => assert '?' !in CANDIDATE_GLOBS[7];
      case 9 => assert '?' !in CANDIDATE_GLOBS[9];
      case 10 => assert '?' !in CANDIDATE_GLOBS[10];
    }
  }

  lemma NextNamesHaveNoQuestions(k: nat)
    requires k == 11 || k == 12 || k == 13 || k == 16
    ensures '?' !in CANDIDATE_GLOBS[k]
  {
    match k {
      case 11 => assert '?' !in CANDIDATE_GLOBS[11];
      case 12 => assert '?' !in CANDIDATE_GLOBS[12];
      case 13 => assert '?' !in CANDIDATE_GLOBS[13];
      case 16 => assert '?' !in CANDIDATE_GLOBS[16];
    }
  }

  lemma LastNamesHaveNoQuestions(k: nat)
    requires k == 17 || k == 20 || k == 23
    ensures '?' !in CANDIDATE_GLOBS[k]
  {
    match k {
      case 17 => assert '?' !in CANDIDATE_GLOBS[17];
      case 20 => assert '?' !in CANDIDATE_GLOBS[20];
      case 23 => assert '?' !in CANDIDATE_GLOBS[23];
    }
  }

  lemma LongNameHasNoQuestions()
    ensures '?' !in CANDIDATE_GLOBS[21]
  {
    assert '?' !in "tests/contracts/" && '?' !in "wms_integration/provider_profile_support.py";
  }

  lemma FirstNamesHaveNoClosings(k: nat)
    requires k == 3 || k == 5 || k == 7 || k == 9 || k == 10
    ensures ']' !in CANDIDATE_GLOBS[k]
  {
    match k {
      case 3 => assert ']' !in CANDIDATE_GLOBS[3];
      case 5 => assert ']' !in CANDIDATE_GLOBS[5];
      case 7 => assert ']' !in CANDIDATE_GLOBS[7];
      case 9 => assert ']' !in CANDIDATE_GLOBS[9];
      case 10 => assert ']' !in CANDIDATE_GLOBS[10];
    }
  }

  lemma NextNamesHaveNoClosings(k: nat)
    requires k == 11 || k == 12 || k == 13 || k == 16
    ensures ']' !in CANDIDATE_GLOBS[k]
  {
    match k {
      case 11 => assert ']' !in CANDIDATE_GLOBS[11];
      case 12 => assert ']' !in CANDIDATE_GLOBS[12];
      case 13 => assert ']' !in CANDIDATE_GLOBS[13];
      case 16 => assert ']' !in CANDIDATE_GLOBS[16];
    }
  }

  lemma LastNamesHaveNoClosings(k: nat)
    requires k == 17 || k == 20 || k == 23
    ensures ']' !in CANDIDATE_GLOBS[k]
  {
    match k {
      case 17 => assert ']' !in CANDIDATE_GLOBS[17];
      case 20 => assert ']' !in CANDIDATE_GLOBS[20];
      case 23 => assert ']' !in CANDIDATE_GLOBS[23];
    }
  }

  lemma LongNameHasNoClosings()
    ensures ']' !in CANDIDATE_GLOBS[21]
  {
    assert ']' !in "tests/contracts/" && ']' !in "wms_integration/provider_profile_support.py";
  }

  predicate IsExactGlob(k: nat) {
    k == 3 || k == 5 || k == 7 || k == 9 || k == 10 || k == 11 || k == 12 || k == 13 || k == 16 || k == 17
    || k == 20 || k == 21 || k == 23
  }

  lemma ExactGlobHasNoSyntax(k: nat)
    requires IsExactGlob(k)
    ensures !HasGlobSyntax(CANDIDATE_GLOBS[k])
  {
    var glob := CANDIDATE_GLOBS[k];
    CandidateGlobHasNoBraces(k);
    CandidateGlobHasNoClasses(k);
    ExactGlobHasNoRest(k);
    NothingIsSyntax(glob);
  }

  lemma ExactGlobHasNoRest(k: nat)
    requires IsExactGlob(k)
    ensures '*' !in CANDIDATE_GLOBS[k] && '?' !in CANDIDATE_GLOBS[k] && ']' !in CANDIDATE_GLOBS[k]
  {
    if k <= 10 {
      FirstNamesHaveNoStars(k);
      FirstNamesHaveNoQuestions(k);
      FirstNamesHaveNoClosings(k);
    } else if k <= 16 {
      NextNamesHaveNoStars(k);
      NextNamesHaveNoQuestions(k);
      NextNamesHaveNoClosings(k);
    } else if k == 21 {
      LongNameHasNoStars();
      LongNameHasNoQuestions();
      LongNameHasNoClosings();
    } else {
      LastNamesHaveNoStars(k);
      LastNamesHaveNoQuestions(k);
      LastNamesHaveNoClosings(k);
    }
  }

  lemma NothingIsSyntax(glob: string)
    requires Braces.BraceFree(glob) && '[' !in glob && '*' !in glob && '?' !in glob && ']' !in glob
    ensures !HasGlobSyntax(glob)
  {
    HasGlobSyntaxIff(glob);
    forall k | 0 <= k < |glob| ensures !IsGlobChar(glob[k]) {
      assert glob[k] in glob;
    }
  }

  lemma ExactGlobMatches(path: string, k: nat)
    requires IsExactGlob(k)
    ensures GlobMatches(path, k) <==> path == CANDIDATE_GLOBS[k]
  {
    ExactGlobHasNoSyntax(k);
    CandidateGlobHasNoBraces(k);
    BraceFreeGlobMatches(path, CANDIDATE_GLOBS[k]);
    ExactPatternMatches(CANDIDATE_GLOBS[k], path);
  }

  // ----- directories

  lemma DirectoryGlobMatches(path: string, directory: string, k: nat)
    requires k < |CANDIDATE_GLOBS| && k != 18 && k != 19 && CANDIDATE_GLOBS[k] == directory + "/" + "**"
    requires !HasGlobSyntax(directory) && '/' !in directory
    ensures GlobMatches(path, k) <==> Text.Split(path, '/')[0] == directory
  {
    var segments := Text.Split(path, '/');
    CandidateGlobHasNoBraces(k);
    BraceFreeGlobMatches(path, CANDIDATE_GLOBS[k]);
    DirectoryGlobParts(directory);
    assert [directory] + ["**"] == [directory, "**"];
    LiteralPartsFirst([directory], ["**"], segments);
    StarsMatchAll(segments[1..]);
    assert segments[..1] == [segments[0]];
  }

  lemma TwoDirectoriesGlobMatches(path: string, first: string, second: string, k: nat)
    requires k < |CANDIDATE_GLOBS| && k != 18 && k != 19
    requires CANDIDATE_GLOBS[k] == first + "/" + (second + "/" + "**")
    requires !HasGlobSyntax(first) && '/' !in first && !HasGlobSyntax(second) && '/' !in second
    ensures GlobMatches(path, k) <==> LiesBelow(first, second, Text.Split(path, '/'))
  {
    CandidateGlobHasNoBraces(k);
    BraceFreeGlobMatches(path, CANDIDATE_GLOBS[k]);
    TwoDirectoriesMatch(path, first, second);
  }

  predicate LiesBelow(first: string, second: string, segments: seq<string>) {
    |segments| >= 2 && segments[0] == first && segments[1] == second
  }

  lemma TwoDirectoriesMatch(path: string, first: string, second: string)
    requires !HasGlobSyntax(first) && '/' !in first && !HasGlobSyntax(second) && '/' !in second
    ensures MatchesExpanded(path, first + "/" + (second + "/" + "**")) <==>
      LiesBelow(first, second, Text.Split(path, '/'))
  {
    var segments := Text.Split(path, '/');
    JoinedDirectories(first, second, ["**"]);
    assert Text.Join(["**"], '/') == "**" && [first, second] + ["**"] == [first, second, "**"];
    PartsMatch([first, second, "**"], first + "/" + (second + "/" + "**"), path);
    TwoNamesThen(first, second, ["**"], segments);
    if |segments| >= 2 {
      StarsMatchAll(segments[2..]);
    }
  }

  // ----- names with a star

  lemma StarNameGlobMatches(path: string, a: string, b: string, k: nat)
    requires k < |CANDIDATE_GLOBS| && k != 18 && k != 19 && CANDIDATE_GLOBS[k] == a + "*" + b
    requires !HasGlobSyntax(a) && !HasGlobSyntax(b) && '/' !in a && '/' !in b && a != ""
    ensures GlobMatches(path, k) <==> '/' !in path && Surrounds(a, b, path)
  {
    var glob := a + "*" + b;
    NoGlobSyntaxAt(a, 0);
    assert glob[0] == a[0];
    CandidateGlobHasNoBraces(k);
    BraceFreeGlobMatches(path, glob);
    OneSegmentPath(path, glob);
    StarSegmentMatchesThese(a, b, path);
  }

  /** Two names and a name with a star. */
  lemma StarNameBelowTwo(path: string, first: string, second: string, a: string, b: string)
    requires !HasGlobSyntax(first) && '/' !in first && !HasGlobSyntax(second) && '/' !in second
    requires !HasGlobSyntax(a) && !HasGlobSyntax(b) && '/' !in a && '/' !in b && a + "*" + b != "**"
    ensures MatchesExpanded(path, first + "/" + (second + "/" + (a + "*" + b))) <==>
      var segments := Text.Split(path, '/');
      |segments| == 3 && LiesBelow(first, second, segments) && Surrounds(a, b, segments[2])
  {
    var segments, last := Text.Split(path, '/'), a + "*" + b;
    JoinedDirectories(first, second, [last]);
    assert Text.Join([last], '/') == last && [first, second] + [last] == [first, second, last];
    PartsMatch([first, second, last], first + "/" + (second + "/" + last), path);
    TwoNamesThen(first, second, [last], segments);
    if |segments| >= 2 {
      LastPartMatches(last, segments[2..]);
    }
    if |segments| == 3 {
      StarSegmentMatchesThese(a, b, segments[2]);
    }
  }

  /** A name, any name, and a name. */
  lemma AnyNameBetween(path: string, first: string, last: string)
    requires !HasGlobSyntax(first) && '/' !in first && !HasGlobSyntax(last) && '/' !in last && last != ""
    ensures MatchesExpanded(path, first + "/" + ("*" + "/" + last)) <==>
      var segments := Text.Split(path, '/'); |segments| == 3 && segments[0] == first && segments[2] == last
  {
    var segments := Text.Split(path, '/');
    JoinedDirectories(first, "*", [last]);
    assert Text.Join([last], '/') == last && [first, "*"] + [last] == [first, "*", last];
    PartsMatch([first, "*", last], first + "/" + ("*" + "/" + last), path);
    assert [first] + ["*", last] == [first, "*", last];
    LiteralPartsFirst([first], ["*", last], segments);
    assert segments[..1] == [segments[0]];
    NoGlobSyntaxAt(last, 0);
    TwoPartsMatch("*", last, segments[1..]);
    if |segments| == 3 {
      AnyWordMatches(segments[1]);
      LiteralSegmentMatches(last, 0, segments[2]);
      assert last[0..] == last;
    }
  }

  lemma AnyWordMatches(word: string)
    ensures Segments.MatchesSegment("*", word)
  {
    StarSegmentMatchesThese("", "", word);
    assert "" + "*" + "" == "*";
    assert word[|word|..] == "";
  }

  // ----- data files below docs

  predicate IsDataSuffix(suffix: string) {
    suffix == "toml" || suffix == "csv" || suffix == "yaml" || suffix == "yml" || suffix == "json"
  }

  lemma DataSuffixAt(k: nat)
    requires k < |DATA_SUFFIXES|
    ensures IsDataSuffix(DATA_SUFFIXES[k])
  {
  }

  lemma SuffixPlace(suffix: string) returns (k: nat)
    requires IsDataSuffix(suffix)
    ensures k < |DATA_SUFFIXES| && DATA_SUFFIXES[k] == suffix
  {
    assert DATA_SUFFIXES[0] == "toml" && DATA_SUFFIXES[1] == "csv" && DATA_SUFFIXES[2] == "yaml";
    assert DATA_SUFFIXES[3] == "yml" && DATA_SUFFIXES[4] == "json";
    k := if suffix == "toml" then 0 else if suffix == "csv" then 1 else if suffix == "yaml" then 2
         else if suffix == "yml" then 3 else 4;
  }

  /** A file at any depth below a directory. */
  lemma FileBelow(first: string, a: string, b: string, segments: seq<string>)
    requires !HasGlobSyntax(first) && !HasGlobSyntax(a) && !HasGlobSyntax(b) && a + "*" + b != "**"
    ensures MatchesParts([first, "**", a + "*" + b], segments) <==>
      |segments| >= 2 && segments[0] == first && Surrounds(a, b, segments[|segments| - 1])
  {
    var last := a + "*" + b;
    assert [first] + ["**", last] == [first, "**", last];
    LiteralPartsFirst([first], ["**", last], segments);
    if segments != [] {
      assert segments[..1] == [segments[0]];
      StarsThenLast(last, segments[1..]);
    }
    if |segments| >= 2 {
      assert segments[1..][|segments| - 2] == segments[|segments| - 1];
      StarSegmentMatchesThese(a, b, segments[|segments| - 1]);
    }
  }

  // ----- names without glob syntax

  predicate IsSimple(name: string) {
    forall k :: 0 <= k < |name| ==> 'a' <= name[k] <= 'z' || name[k] == '-' || name[k] == '.' || name[k] == '_'
  }

  lemma SimpleIsLiteral(name: string)
    requires IsSimple(name)
    ensures !HasGlobSyntax(name) && '/' !in name
  {
    HasGlobSyntaxIff(name);
  }

  // ----- glob by glob

  lemma SrcGlob(path: string)
    ensures GlobMatches(path, 0) <==> Text.Split(path, '/')[0] == "src"
  {
    assert CANDIDATE_GLOBS[0] == "src" + "/" + "**" && IsSimple("src");
    SimpleIsLiteral("src");
    DirectoryGlobMatches(path, "src", 0);
  }

  lemma DeploymentGlob(path: string)
    ensures GlobMatches(path, 1) <==> Text.Split(path, '/')[0] == "deployment"
  {
    assert CANDIDATE_GLOBS[1] == "deployment" + "/" + "**" && IsSimple("deployment");
    SimpleIsLiteral("deployment");
    DirectoryGlobMatches(path, "deployment", 1);
  }

  lemma NginxGlob(path: string)
    ensures GlobMatches(path, 2) <==> Text.Split(path, '/')[0] == "nginx"
  {
    assert CANDIDATE_GLOBS[2] == "nginx" + "/" + "**" && IsSimple("nginx");
    SimpleIsLiteral("nginx");
    DirectoryGlobMatches(path, "nginx", 2);
  }

  lemma MigrationsGlob(path: string)
    ensures GlobMatches(path, 4) <==> Text.Split(path, '/')[0] == "migrations"
  {
    assert CANDIDATE_GLOBS[4] == "migrations" + "/" + "**" && IsSimple("migrations");
    SimpleIsLiteral("migrations");
    DirectoryGlobMatches(path, "migrations", 4);
  }

  lemma ScriptsGlob(path: string)
    ensures GlobMatches(path, 15) <==> Text.Split(path, '/')[0] == "scripts"
  {
    assert CANDIDATE_GLOBS[15] == "scripts" + "/" + "**" && IsSimple("scripts");
    SimpleIsLiteral("scripts");
    DirectoryGlobMatches(path, "scripts", 15);
  }

  lemma FixturesGlob(path: string)
    ensures GlobMatches(path, 22) <==> LiesBelow("tests", "fixtures", Text.Split(path, '/'))
  {
    assert CANDIDATE_GLOBS[22] == "tests" + "/" + ("fixtures" + "/" + "**");
    assert IsSimple("tests") && IsSimple("fixtures");
    SimpleIsLiteral("tests");
    SimpleIsLiteral("fixtures");
    TwoDirectoriesGlobMatches(path, "tests", "fixtures", 22);
  }

  lemma SupportGlob(path: string)
    ensures GlobMatches(path, 25) <==> LiesBelow("tests", "support", Text.Split(path, '/'))
  {
    assert CANDIDATE_GLOBS[25] == "tests" + "/" + ("support" + "/" + "**") && IsSimple("tests") && IsSimple("support");
    SimpleIsLiteral("tests");
    SimpleIsLiteral("support");
    TwoDirectoriesGlobMatches(path, "tests", "support", 25);
  }

  lemma ComposeGlob(path: string)
    ensures GlobMatches(path, 6) <==> '/' !in path && Surrounds("docker-compose", ".yml", path)
  {
    assert CANDIDATE_GLOBS[6] == "docker-compose" + "*" + ".yml" && IsSimple("docker-compose") && IsSimple(".yml");
    SimpleIsLiteral("docker-compose");
    SimpleIsLiteral(".yml");
    StarNameGlobMatches(path, "docker-compose", ".yml", 6);
  }

  lemma EnvironmentGlob(path: string)
    ensures GlobMatches(path, 14) <==> '/' !in path && Surrounds(".env", "", path)
  {
    assert CANDIDATE_GLOBS[14] == ".env" + "*" + "" && IsSimple(".env") && IsSimple("");
    SimpleIsLiteral(".env");
    SimpleIsLiteral("");
    StarNameGlobMatches(path, ".env", "", 14);
  }

  lemma EntrypointLiteral()
    ensures CANDIDATE_GLOBS[8] == "docker" + "/" + ("test" + "/" + ("" + "*" + ".entrypoint.sh"))
    ensures "" + "*" + ".entrypoint.sh" != "**"
  {
    assert ("" + "*" + ".entrypoint.sh")[1] == '.';
  }

  lemma EntrypointGlob(path: string)
    ensures GlobMatches(path, 8) <==>
      var segments := Text.Split(path, '/');
      |segments| == 3 && LiesBelow("docker", "test", segments) && Surrounds("", ".entrypoint.sh", segments[2])
  {
    assert IsSimple("docker") && IsSimple("test") && IsSimple("") && IsSimple(".entrypoint.sh");
    SimpleIsLiteral("docker");
    SimpleIsLiteral("test");
    SimpleIsLiteral("");
    SimpleIsLiteral(".entrypoint.sh");
    EntrypointLiteral();
    CandidateGlobHasNoBraces(8);
    BraceFreeGlobMatches(path, CANDIDATE_GLOBS[8]);
    StarNameBelowTwo(path, "docker", "test", "", ".entrypoint.sh");
  }

  lemma ConftestGlob(path: string)
    ensures GlobMatches(path, 24) <==>
      var segments := Text.Split(path, '/');
      |segments| == 3 && segments[0] == "tests" && segments[2] == "conftest.py"
  {
    assert IsSimple("tests") && IsSimple("conftest.py");
    assert CANDIDATE_GLOBS[24] == "tests" + "/" + ("*" + "/" + "conftest.py");
    SimpleIsLiteral("tests");
    SimpleIsLiteral("conftest.py");
    CandidateGlobHasNoBraces(24);
    BraceFreeGlobMatches(path, CANDIDATE_GLOBS[24]);
    AnyNameBetween(path, "tests", "conftest.py");
  }

  lemma DataFilesAreGroup()
    ensures Braces.ExpandBraces(CANDIDATE_GLOBS[18])
              == Ok(Braces.Product(Braces.Group("docs/**/*.", DATA_SUFFIXES, Braces.Plain(""))))
  {
    DataSuffixesJoin();
    DataSuffixesAreChoices();
    DataFilesIsGroup();
    OneGroupExpands("docs/**/*.", DATA_SUFFIXES, "", CANDIDATE_GLOBS[18]);
  }

  predicate IsDataFile(suffix: string, segments: seq<string>) {
    |segments| >= 2 && segments[0] == "docs" && Surrounds("", "." + suffix, segments[|segments| - 1])
  }

  lemma DataPattern(suffix: string)
    ensures "docs/**/*." + suffix + "" == Text.Join(["docs", "**", "" + "*" + ("." + suffix)], '/')
  {
    var last := "" + "*" + ("." + suffix);
    JoinedDirectories("docs", "**", [last]);
    assert Text.Join([last], '/') == last && ["docs", "**"] + [last] == ["docs", "**", last];
    assert "docs" + "/" + ("**" + "/") + "*." == "docs/**/*.";
    assert "*" + ("." + suffix) == "*." + suffix;
  }

  lemma DataPatternMatches(path: string, suffix: string)
    requires IsSimple(suffix)
    ensures MatchesExpanded(path, "docs/**/*." + suffix + "") <==> IsDataFile(suffix, Text.Split(path, '/'))
  {
    var last := "" + "*" + ("." + suffix);
    DataPattern(suffix);
    assert IsSimple("docs") && IsSimple("") && IsSimple("." + suffix) && last[1] == '.';
    SimpleIsLiteral("docs");
    SimpleIsLiteral("");
    SimpleIsLiteral("." + suffix);
    PartsMatch(["docs", "**", last], "docs/**/*." + suffix + "", path);
    FileBelow("docs", "", "." + suffix, Text.Split(path, '/'));
  }

  lemma DataSuffixIsSimple(suffix: string)
    requires IsDataSuffix(suffix)
    ensures IsSimple(suffix)
  {
  }

  lemma DataGlob(path: string)
    ensures GlobMatches(path, 18) <==>
      exists suffix :: IsDataSuffix(suffix) && IsDataFile(suffix, Text.Split(path, '/'))
  {
    DataFilesAreGroup();
    OneGroupMatches(path, CANDIDATE_GLOBS[18], "docs/**/*.", DATA_SUFFIXES, "");
    if k: nat :| ChoiceMatches(path, "docs/**/*.", DATA_SUFFIXES, "", k) {
      DataSuffixAt(k);
      DataSuffixIsSimple(DATA_SUFFIXES[k]);
      DataPatternMatches(path, DATA_SUFFIXES[k]);
    }
    if suffix :| IsDataSuffix(suffix) && IsDataFile(suffix, Text.Split(path, '/')) {
      var k := SuffixPlace(suffix);
      DataSuffixIsSimple(suffix);
      DataPatternMatches(path, suffix);
      assert ChoiceMatches(path, "docs/**/*.", DATA_SUFFIXES, "", k);
    }
  }

  lemma HeavyDirectoriesAreProduct()
    ensures Braces.ExpandBraces(CANDIDATE_GLOBS[19])
              == Ok(Braces.Product(Braces.Group("tests/", KINDS, Braces.Plain("/**"))))
  {
    KindsJoin();
    KindsAreChoices();
    KindsInBraces();
    HeavyDirectoriesAreGroup();
    OneGroupExpands("tests/", KINDS, "/**", CANDIDATE_GLOBS[19]);
  }

  lemma KindDirectoryMatches(path: string, kind: string)
    requires !HasGlobSyntax(kind) && '/' !in kind
    ensures MatchesExpanded(path, "tests/" + kind + "/**") <==> LiesBelow("tests", kind, Text.Split(path, '/'))
  {
    assert IsSimple("tests");
    SimpleIsLiteral("tests");
    assert "tests" + "/" == "tests/" && "/" + "**" == "/**";
    assert "tests/" + kind + "/**" == "tests" + "/" + (kind + "/" + "**");
    TwoDirectoriesMatch(path, "tests", kind);
  }

  lemma KindGlobs(path: string)
    ensures GlobMatches(path, 19) <==>
      var segments := Text.Split(path, '/'); |segments| >= 2 && segments[0] == "tests" && IsKind(segments[1])
  {
    var segments := Text.Split(path, '/');
    HeavyDirectoriesAreProduct();
    OneGroupMatches(path, CANDIDATE_GLOBS[19], "tests/", KINDS, "/**");
    if k: nat :| ChoiceMatches(path, "tests/", KINDS, "/**", k) {
      KindsArePlain(k);
      KindDirectoryMatches(path, KINDS[k]);
      KindsAreThese(segments[1]);
    }
    if |segments| >= 2 && segments[0] == "tests" && IsKind(segments[1]) {
      KindsAreThese(segments[1]);
      var k: nat :| k < |KINDS| && KINDS[k] == segments[1];
      KindsArePlain(k);
      KindDirectoryMatches(path, KINDS[k]);
      assert ChoiceMatches(path, "tests/", KINDS, "/**", k);
    }
  }

  // ----- candidates

  predicate IsSingleFile(path: string) {
    || path == "main.py"
    || path == "alembic.ini"
    || path == "Dockerfile"
    || path == ".dockerignore"
    || path == "Jenkinsfile.backend-ci"
    || path == "Jenkinsfile.release-checker-ci"
    || path == "pyproject.toml"
    || path == "uv.lock"
    || path == "tools/release_checker/release_checker.py"
    || path == "tools/release_checker/Dockerfile"
    || path == "tests/api/callback_test_support.py"
    || path == "tests/contracts/" + "wms_integration/provider_profile_support.py"
    || path == "tests/conftest.py"
  }

  lemma FirstSingleFiles()
    ensures CANDIDATE_GLOBS[3] == "main.py"
    ensures CANDIDATE_GLOBS[5] == "alembic.ini"
    ensures CANDIDATE_GLOBS[7] == "Dockerfile"
    ensures CANDIDATE_GLOBS[9] == ".dockerignore"
    ensures CANDIDATE_GLOBS[10] == "Jenkinsfile.backend-ci"
  {
  }

  lemma NextSingleFiles()
    ensures CANDIDATE_GLOBS[11] == "Jenkinsfile.release-checker-ci"
    ensures CANDIDATE_GLOBS[12] == "pyproject.toml"
    ensures CANDIDATE_GLOBS[13] == "uv.lock"
    ensures CANDIDATE_GLOBS[16] == "tools/release_checker/release_checker.py"
  {
  }

  lemma LastSingleFiles()
    ensures CANDIDATE_GLOBS[17] == "tools/release_checker/Dockerfile"
    ensures CANDIDATE_GLOBS[20] == "tests/api/callback_test_support.py"
    ensures CANDIDATE_GLOBS[21] == "tests/contracts/" + "wms_integration/provider_profile_support.py"
    ensures CANDIDATE_GLOBS[23] == "tests/conftest.py"
  {
  }

  lemma SingleFileGlobs(path: string)
    ensures IsSingleFile(path) <==> SingleGlobMatches(path)
  {
    FirstSingleFiles();
    NextSingleFiles();
    LastSingleFiles();
    forall k: nat | IsExactGlob(k) ensures GlobMatches(path, k) <==> path == CANDIDATE_GLOBS[k] {
      ExactGlobMatches(path, k);
    }
    assert forall k: nat :: IsExactGlob(k) && path == CANDIDATE_GLOBS[k] ==> IsSingleFile(path);
    if IsSingleFile(path) {
      var k := SingleFilePlace(path);
    }
  }

  lemma SingleFilePlace(path: string) returns (k: nat)
    requires IsSingleFile(path)
    ensures IsExactGlob(k) && path == CANDIDATE_GLOBS[k]
  {
    FirstSingleFiles();
    NextSingleFiles();
    LastSingleFiles();
    k :=
      if path == "main.py" then 3 else
      if path == "alembic.ini" then 5 else
      if path == "Dockerfile" then 7 else
      if path == ".dockerignore" then 9 else
      if path == "Jenkinsfile.backend-ci" then 10 else
      if path == "Jenkinsfile.release-checker-ci" then 11 else
      if path == "pyproject.toml" then 12 else
      if path == "uv.lock" then 13 else
      if path == "tools/release_checker/release_checker.py" then 16 else
      if path == "tools/release_checker/Dockerfile" then 17 else
      if path == "tests/api/callback_test_support.py" then 20 else
      if path == "tests/contracts/" + "wms_integration/provider_profile_support.py" then 21 else
      23;
  }

  predicate IsSourceDirectory(name: string) {
    name == "src" || name == "deployment" || name == "nginx" || name == "migrations" || name == "scripts"
  }

  /** What lies in a directory of HEAVY tests, in the fixtures or in the support, and every `conftest.py` two
      levels down. */
  predicate IsTestEquipment(segments: seq<string>) {
    || (|segments| >= 2 && segments[0] == "tests" && IsKind(segments[1]))
    || LiesBelow("tests", "fixtures", segments) || LiesBelow("tests", "support", segments)
    || (|segments| == 3 && segments[0] == "tests" && segments[2] == "conftest.py")
  }

  ghost predicate SourceGlobMatches(path: string) {
    || GlobMatches(path, 0) || GlobMatches(path, 1) || GlobMatches(path, 2) || GlobMatches(path, 4)
    || GlobMatches(path, 15)
  }

  lemma SourceGlobs(path: string)
    ensures IsSourceDirectory(Text.Split(path, '/')[0]) <==> SourceGlobMatches(path)
  {
    SrcGlob(path);
    DeploymentGlob(path);
    NginxGlob(path);
    MigrationsGlob(path);
    ScriptsGlob(path);
  }

  ghost predicate SingleGlobMatches(path: string) {
    exists k: nat :: IsExactGlob(k) && GlobMatches(path, k)
  }

  ghost predicate PatternGlobMatches(path: string) {
    GlobMatches(path, 6) || GlobMatches(path, 14) || GlobMatches(path, 8) || GlobMatches(path, 18)
  }

  predicate IsDeploymentFile(path: string) {
    '/' !in path && (Surrounds("docker-compose", ".yml", path) || Surrounds(".env", "", path))
  }

  ghost predicate IsByPattern(path: string, segments: seq<string>) {
    || IsDeploymentFile(path)
    || (|segments| == 3 && LiesBelow("docker", "test", segments) && Surrounds("", ".entrypoint.sh", segments[2]))
    || exists suffix :: IsDataSuffix(suffix) && IsDataFile(suffix, segments)
  }

  lemma PatternGlobs(path: string)
    ensures IsByPattern(path, Text.Split(path, '/')) <==> PatternGlobMatches(path)
  {
    ComposeGlob(path);
    EnvironmentGlob(path);
    EntrypointGlob(path);
    DataGlob(path);
  }

  ghost predicate EquipmentGlobMatches(path: string) {
    GlobMatches(path, 19) || GlobMatches(path, 22) || GlobMatches(path, 25) || GlobMatches(path, 24)
  }

  lemma EquipmentGlobs(path: string)
    ensures IsTestEquipment(Text.Split(path, '/')) <==> EquipmentGlobMatches(path)
  {
    KindGlobs(path);
    FixturesGlob(path);
    SupportGlob(path);
    ConftestGlob(path);
  }

  /** Every candidate glob is of one of these kinds. */
  lemma GlobsByKind(path: string, k: nat)
    requires k < |CANDIDATE_GLOBS| && GlobMatches(path, k)
    ensures SourceGlobMatches(path) || SingleGlobMatches(path) || PatternGlobMatches(path) || EquipmentGlobMatches(path)
  {
    if IsExactGlob(k) {
      assert SingleGlobMatches(path);
    } else {
      assert k in {0, 1, 2, 4, 15, 6, 14, 8, 18, 19, 22, 24, 25};
    }
  }

  lemma KindsAreGlobs(path: string) returns (k: nat)
    requires
      || SourceGlobMatches(path) || SingleGlobMatches(path)
      || PatternGlobMatches(path) || EquipmentGlobMatches(path)
    ensures k < |CANDIDATE_GLOBS| && GlobMatches(path, k)
  {
    if SingleGlobMatches(path) {
      k :| IsExactGlob(k) && GlobMatches(path, k);
    } else {
      k :| k in {0, 1, 2, 4, 15, 6, 14, 8, 18, 19, 22, 24, 25} && GlobMatches(path, k);
    }
  }

  ghost predicate SomeGlobMatches(path: string) {
    exists k: nat :: k < |CANDIDATE_GLOBS| && GlobMatches(path, k)
  }

  lemma CandidateIsSomeGlob(path: string)
    ensures IsCandidate(PATH_RULES, path) <==> SomeGlobMatches(path)
  {
    if IsCandidate(PATH_RULES, path) {
      var k :| 0 <= k < |PATH_RULES.candidateGlobs| && MatchesGlob(path, PATH_RULES.candidateGlobs[k]) == Ok(true);
      assert GlobMatches(path, k);
    }
    if SomeGlobMatches(path) {
      var k: nat :| k < |CANDIDATE_GLOBS| && GlobMatches(path, k);
      assert MatchesGlob(path, PATH_RULES.candidateGlobs[k]) == Ok(true);
    }
  }

  lemma CandidateIsOfAKind(path: string)
    ensures IsCandidate(PATH_RULES, path) <==>
      SourceGlobMatches(path) || SingleGlobMatches(path) || PatternGlobMatches(path) || EquipmentGlobMatches(path)
  {
    CandidateIsSomeGlob(path);
    if k: nat :| k < |CANDIDATE_GLOBS| && GlobMatches(path, k) {
      GlobsByKind(path, k);
    }
    if SourceGlobMatches(path) || SingleGlobMatches(path) || PatternGlobMatches(path) || EquipmentGlobMatches(path) {
      var k := KindsAreGlobs(path);
    }
  }

  /** The candidates under the selector's own rules: what lies below a source directory, single named files,
      deployment and data files by the pattern of their names, and test equipment. */
  lemma CandidatesAreThese(path: string)
    ensures var segments := Text.Split(path, '/');
      IsCandidate(PATH_RULES, path) <==>
      || IsSourceDirectory(segments[0]) || IsSingleFile(path)
      || IsByPattern(path, segments) || IsTestEquipment(segments)
  {
    CandidateIsOfAKind(path);
    SourceGlobs(path);
    SingleFileGlobs(path);
    PatternGlobs(path);
    EquipmentGlobs(path);
  }
}
