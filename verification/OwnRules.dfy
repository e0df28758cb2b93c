/** The selector's own globs: their braces are well-formed, so matching them never fails. */
module OwnRules {
  import opened Braces
  import opened Paths
  import opened Repository
  import opened Results
  import Text

  // ----- globs with one group

  lemma OneGroupExpands(before: string, choices: seq<string>, after: string, glob: string)
    requires BraceFree(before) && |choices| >= 2 && AreChoices(choices) && BraceFree(after)
    requires glob == before + ("{" + Text.Join(choices, ',') + "}" + after)
    ensures ExpandBraces(glob) == Ok(Product(Group(before, choices, Plain(after))))
  {
    assert WellFormed(Plain(after));
    ExpandsToProduct(Group(before, choices, Plain(after)));
  }

  lemma JoinCons(first: string, rest: seq<string>)
    requires rest != []
    ensures Text.Join([first] + rest, ',') == first + "," + Text.Join(rest, ',')
  {
    assert ([first] + rest)[1..] == rest;
  }

  const KINDS := ["integration", "e2e", "resilience", "load", "mock"]

  lemma LastKindsJoin()
    ensures Text.Join(["resilience", "load", "mock"], ',') == "resilience,load,mock"
  {
    JoinCons("resilience", ["load", "mock"]);
    JoinCons("load", ["mock"]);
  }

  lemma KindsJoin()
    ensures Text.Join(KINDS, ',') == "integration,e2e,resilience,load,mock"
  {
    LastKindsJoin();
    JoinCons("integration", ["e2e", "resilience", "load", "mock"]);
    JoinCons("e2e", ["resilience", "load", "mock"]);
  }

  lemma KindsAreChoices()
    ensures AreChoices(KINDS)
  {
  }

  lemma KindsInBraces()
    ensures "{" + "integration,e2e,resilience,load,mock" + "}" == "{integration,e2e,resilience,load,mock}"
  {
  }

  lemma HeavyGlobIsGroup()
    ensures "{integration,e2e,resilience,load,mock}" + "/**/test_*.py" ==
            "{integration,e2e,resilience,load,mock}/**/test_*.py"
  {
  }

  lemma HeavyGlobExpands()
    ensures ExpandBraces(PATH_RULES.heavyGlob) == Ok(Product(Group("tests/", KINDS, Plain("/**/test_*.py"))))
  {
    KindsJoin();
    KindsAreChoices();
    KindsInBraces();
    HeavyGlobIsGroup();
    OneGroupExpands("tests/", KINDS, "/**/test_*.py", PATH_RULES.heavyGlob);
  }

  lemma HeavyDirectoriesAreGroup()
    ensures "tests/" + ("{integration,e2e,resilience,load,mock}" + "/**") ==
            "tests/{integration,e2e,resilience,load,mock}/**"
  {
  }

  lemma HeavyDirectoriesExpand()
    ensures ExpandBraces(CANDIDATE_GLOBS[19]).Ok?
  {
    KindsJoin();
    KindsAreChoices();
    KindsInBraces();
    HeavyDirectoriesAreGroup();
    OneGroupExpands("tests/", KINDS, "/**", CANDIDATE_GLOBS[19]);
  }

  const DATA_SUFFIXES := ["toml", "csv", "yaml", "yml", "json"]

  lemma DataSuffixesJoin()
    ensures Text.Join(DATA_SUFFIXES, ',') == "toml,csv,yaml,yml,json"
  {
    JoinCons("toml", ["csv", "yaml", "yml", "json"]);
    JoinCons("csv", ["yaml", "yml", "json"]);
    JoinCons("yaml", ["yml", "json"]);
    JoinCons("yml", ["json"]);
  }

  lemma DataSuffixesAreChoices()
    ensures AreChoices(DATA_SUFFIXES)
  {
  }

  lemma DataFilesIsGroup()
    ensures "docs/**/*." + ("{" + "toml,csv,yaml,yml,json" + "}" + "") == "docs/**/*.{toml,csv,yaml,yml,json}"
  {
  }

  lemma DataFilesExpand()
    ensures ExpandBraces(CANDIDATE_GLOBS[18]).Ok?
  {
    DataSuffixesJoin();
    DataSuffixesAreChoices();
    DataFilesIsGroup();
    OneGroupExpands("docs/**/*.", DATA_SUFFIXES, "", CANDIDATE_GLOBS[18]);
  }

  // ----- globs without braces

  lemma FirstGlobsHaveNoBraces(k: nat)
    requires k < 7
    ensures BraceFree(CANDIDATE_GLOBS[k])
  {
    match k {
      case 0 => assert BraceFree(CANDIDATE_GLOBS[0]);
      case 1 => assert BraceFree(CANDIDATE_GLOBS[1]);
      case 2 => assert BraceFree(CANDIDATE_GLOBS[2]);
      case 3 => assert BraceFree(CANDIDATE_GLOBS[3]);
      case 4 => assert BraceFree(CANDIDATE_GLOBS[4]);
      case 5 => assert BraceFree(CANDIDATE_GLOBS[5]);
      case 6 => assert BraceFree(CANDIDATE_GLOBS[6]);
    }
  }

  lemma NextGlobsHaveNoBraces(k: nat)
    requires 7 <= k < 10
    ensures BraceFree(CANDIDATE_GLOBS[k])
  {
    match k {
      case 7 => assert BraceFree(CANDIDATE_GLOBS[7]);
      case 8 => assert BraceFree(CANDIDATE_GLOBS[8]);
      case 9 => assert BraceFree(CANDIDATE_GLOBS[9]);
    }
  }

  lemma MiddleGlobsHaveNoBraces(k: nat)
    requires 10 <= k < 14
    ensures BraceFree(CANDIDATE_GLOBS[k])
  {
    match k {
      case 10 => assert BraceFree(CANDIDATE_GLOBS[10]);
      case 11 => assert BraceFree(CANDIDATE_GLOBS[11]);
      case 12 => assert BraceFree(CANDIDATE_GLOBS[12]);
      case 13 => assert BraceFree(CANDIDATE_GLOBS[13]);
    }
  }

  lemma MoreGlobsHaveNoBraces(k: nat)
    requires 14 <= k < 18
    ensures BraceFree(CANDIDATE_GLOBS[k])
  {
    match k {
      case 14 => assert BraceFree(CANDIDATE_GLOBS[14]);
      case 15 => assert BraceFree(CANDIDATE_GLOBS[15]);
      case 16 => assert BraceFree(CANDIDATE_GLOBS[16]);
      case 17 => assert BraceFree(CANDIDATE_GLOBS[17]);
    }
  }

  lemma LastGlobsHaveNoBraces(k: nat)
    requires 20 <= k < 26 && k != 21
    ensures BraceFree(CANDIDATE_GLOBS[k])
  {
    match k {
      case 20 => assert BraceFree(CANDIDATE_GLOBS[20]);
      case 22 => assert BraceFree(CANDIDATE_GLOBS[22]);
      case 23 => assert BraceFree(CANDIDATE_GLOBS[23]);
      case 24 => assert BraceFree(CANDIDATE_GLOBS[24]);
      case 25 => assert BraceFree(CANDIDATE_GLOBS[25]);
    }
  }

  lemma LongNameHasNoBraces()
    ensures BraceFree("wms_integration/provider_profile_support.py")
  {
  }

  lemma LongDirectoryHasNoBraces()
    ensures BraceFree("tests/contracts/")
  {
  }

  lemma LongGlobHasNoBraces()
    ensures BraceFree(CANDIDATE_GLOBS[21])
  {
    LongDirectoryHasNoBraces();
    LongNameHasNoBraces();
  }

  lemma CandidateGlobExpands(k: nat)
    requires k < |CANDIDATE_GLOBS|
    ensures ExpandBraces(CANDIDATE_GLOBS[k]).Ok?
  {
    if k == 18 {
      DataFilesExpand();
    } else if k == 19 {
      HeavyDirectoriesExpand();
    } else {
      CandidateGlobHasNoBraces(k);
      BraceFreeExpandsToItself(CANDIDATE_GLOBS[k]);
    }
  }

  lemma CandidateGlobHasNoBraces(k: nat)
    requires k < |CANDIDATE_GLOBS| && k != 18 && k != 19
    ensures BraceFree(CANDIDATE_GLOBS[k])
  {
    if k < 7 {
      FirstGlobsHaveNoBraces(k);
    } else if k < 10 {
      NextGlobsHaveNoBraces(k);
    } else if k < 14 {
      MiddleGlobsHaveNoBraces(k);
    } else if k < 18 {
      MoreGlobsHaveNoBraces(k);
    } else if k == 21 {
      LongGlobHasNoBraces();
    } else {
      LastGlobsHaveNoBraces(k);
    }
  }

  // ----- globs without classes

  lemma FirstGlobsHaveNoClasses(k: nat)
    requires k < 6
    ensures '[' !in CANDIDATE_GLOBS[k]
  {
    match k {
      case 0 => assert '[' !in CANDIDATE_GLOBS[0];
      case 1 => assert '[' !in CANDIDATE_GLOBS[1];
      case 2 => assert '[' !in CANDIDATE_GLOBS[2];
      case 3 => assert '[' !in CANDIDATE_GLOBS[3];
      case 4 => assert '[' !in CANDIDATE_GLOBS[4];
      case 5 => assert '[' !in CANDIDATE_GLOBS[5];
    }
  }

  lemma NextGlobsHaveNoClasses(k: nat)
    requires 6 <= k < 12
    ensures '[' !in CANDIDATE_GLOBS[k]
  {
    match k {
      case 6 => assert '[' !in CANDIDATE_GLOBS[6];
      case 7 => assert '[' !in CANDIDATE_GLOBS[7];
      case 8 => assert '[' !in CANDIDATE_GLOBS[8];
      case 9 => assert '[' !in CANDIDATE_GLOBS[9];
      case 10 => assert '[' !in CANDIDATE_GLOBS[10];
      case 11 => assert '[' !in CANDIDATE_GLOBS[11];
    }
  }

  lemma MoreGlobsHaveNoClasses(k: nat)
    requires 12 <= k < 18
    ensures '[' !in CANDIDATE_GLOBS[k]
  {
    match k {
      case 12 => assert '[' !in CANDIDATE_GLOBS[12];
      case 13 => assert '[' !in CANDIDATE_GLOBS[13];
      case 14 => assert '[' !in CANDIDATE_GLOBS[14];
      case 15 => assert '[' !in CANDIDATE_GLOBS[15];
      case 16 => assert '[' !in CANDIDATE_GLOBS[16];
      case 17 => assert '[' !in CANDIDATE_GLOBS[17];
    }
  }

  lemma LastGlobsHaveNoClasses(k: nat)
    requires 20 <= k < 26 && k != 21
    ensures '[' !in CANDIDATE_GLOBS[k]
  {
    match k {
      case 20 => assert '[' !in CANDIDATE_GLOBS[20];
      case 22 => assert '[' !in CANDIDATE_GLOBS[22];
      case 23 => assert '[' !in CANDIDATE_GLOBS[23];
      case 24 => assert '[' !in CANDIDATE_GLOBS[24];
      case 25 => assert '[' !in CANDIDATE_GLOBS[25];
    }
  }

  lemma DataFilesHaveNoClasses()
    ensures '[' !in CANDIDATE_GLOBS[18]
  {
  }

  lemma HeavyDirectoriesHaveNoClasses()
    ensures '[' !in CANDIDATE_GLOBS[19]
  {
    HeavyDirectoriesAreGroup();
    assert '[' !in "tests/" && '[' !in "{integration,e2e,resilience,load,mock}" && '[' !in "/**";
  }

  lemma LongGlobHasNoClasses()
    ensures '[' !in CANDIDATE_GLOBS[21]
  {
    assert '[' !in "tests/contracts/" && '[' !in "wms_integration/provider_profile_support.py";
  }

  lemma CandidateGlobHasNoClasses(k: nat)
    requires k < |CANDIDATE_GLOBS|
    ensures '[' !in CANDIDATE_GLOBS[k]
  {
    if k < 6 {
      FirstGlobsHaveNoClasses(k);
    } else if k < 12 {
      NextGlobsHaveNoClasses(k);
    } else if k < 18 {
      MoreGlobsHaveNoClasses(k);
    } else if k == 18 {
      DataFilesHaveNoClasses();
    } else if k == 19 {
      HeavyDirectoriesHaveNoClasses();
    } else if k == 21 {
      LongGlobHasNoClasses();
    } else {
      LastGlobsHaveNoClasses(k);
    }
  }

  /** The candidate globs use no classes, so the overlap search is exact for them. */
  lemma CandidateGlobIsSupported(k: nat)
    requires k < |PATH_RULES.candidateGlobs|
    ensures GlobIsSupported(PATH_RULES.candidateGlobs[k])
  {
    CandidateGlobExpands(k);
    CandidateGlobHasNoClasses(k);
    ExpansionsKeepOut(CANDIDATE_GLOBS[k], '[');
  }

  // ----- matching

  /** Matching any path against the selector's own globs succeeds with yes or no; `IsHeavyTest` and
      `IsCandidate` therefore never read an error as a no. */
  lemma OwnGlobsNeverFail(path: string)
    ensures MatchesGlob(path, PATH_RULES.heavyGlob).Ok?
    ensures forall k :: 0 <= k < |PATH_RULES.candidateGlobs| ==> MatchesGlob(path, PATH_RULES.candidateGlobs[k]).Ok?
  {
    HeavyGlobExpands();
    forall k | 0 <= k < |PATH_RULES.candidateGlobs| ensures MatchesGlob(path, PATH_RULES.candidateGlobs[k]).Ok? {
      CandidateGlobExpands(k);
    }
  }
}
