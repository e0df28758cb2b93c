/** What the selector guarantees under a valid configuration. */
module SelectionTheorems {
  import opened Config
  import opened Paths
  import opened Repository
  import opened Results
  import opened Selection
  import Braces
  import Sorting

  // ----- the classification, stated without the order in which the selector looks

  ghost predicate Applies(mapping: MappingEntry, path: string) {
    MatchesGlob(path, mapping.sourceGlob) == Ok(true)
  }

  ghost predicate IsConfirmed(mapping: MappingEntry, path: string, digests: Digests) {
    mapping.fingerprint.Some? ==> path in digests && digests[path] == mapping.fingerprint.value
  }

  /** Some mapping applies, and the content is the reviewed one wherever a fingerprint is asked for. */
  ghost predicate IsMapped(path: string, mappings: seq<MappingEntry>, digests: Digests) {
    && (exists m :: m in mappings && Applies(m, path))
    && (forall m :: m in mappings && Applies(m, path) ==> IsConfirmed(m, path, digests))
  }

  ghost predicate IsIgnored(path: string, globs: seq<string>) {
    exists glob :: glob in globs && MatchesGlob(path, glob) == Ok(true)
  }

  ghost predicate IsClassified(rules: PathRules, path: string, config: SelectorConfig, digests: Digests) {
    && IsRepositoryRelative(path, false)
    && (IsHeavyTest(rules, path)
        || IsHumanDocument(rules, path)
        || (IsCandidate(rules, path) && IsMapped(path, config.mappings, digests))
        || (!IsCandidate(rules, path) && IsIgnored(path, config.ignoreGlobs)))
  }

  /** The changed path asks for test `t`: it is that test, or a mapped candidate whose mapping lists it. */
  ghost predicate Selects(rules: PathRules, path: string, config: SelectorConfig, t: string) {
    if IsHeavyTest(rules, path) then t == path
    else !IsHumanDocument(rules, path) && IsCandidate(rules, path) && IsMappedTo(path, config.mappings, t)
  }

  ghost predicate IsMappedTo(path: string, mappings: seq<MappingEntry>, t: string) {
    exists m :: m in mappings && Applies(m, path) && t in m.heavyTests
  }

  // ----- the parts of the selector mean the classification

  ghost predicate GlobsExpand(globs: seq<string>) {
    forall k :: 0 <= k < |globs| ==> Braces.ExpandBraces(globs[k]).Ok?
  }

  ghost predicate SourcesExpand(mappings: seq<MappingEntry>) {
    forall k :: 0 <= k < |mappings| ==> Braces.ExpandBraces(mappings[k].sourceGlob).Ok?
  }

  lemma {:induction false} MatchedAreThoseThatApply(path: string, mappings: seq<MappingEntry>)
    requires SourcesExpand(mappings)
    ensures Matched(path, mappings).Ok?
    ensures forall m :: m in Matched(path, mappings).value <==> m in mappings && Applies(m, path)
    decreases |mappings|
  {
    if mappings != [] {
      MatchedAreThoseThatApply(path, mappings[1..]);
      assert Braces.ExpandBraces(mappings[0].sourceGlob).Ok?;
      assert forall m :: m in mappings <==> m == mappings[0] || m in mappings[1..];
    }
  }

  lemma {:induction false} MatchesAnyIsIgnored(path: string, globs: seq<string>)
    requires GlobsExpand(globs)
    ensures MatchesAny(path, globs) == Ok(IsIgnored(path, globs))
    decreases |globs|
  {
    if globs != [] {
      MatchesAnyIsIgnored(path, globs[1..]);
      assert Braces.ExpandBraces(globs[0]).Ok?;
      assert forall glob :: glob in globs <==> glob == globs[0] || glob in globs[1..];
    }
  }

  lemma {:induction false} NoFingerprintErrorMeansConfirmed(path: string, matched: seq<MappingEntry>, digests: Digests)
    ensures FingerprintError(path, matched, digests).None? <==>
      forall m :: m in matched ==> IsConfirmed(m, path, digests)
    ensures FingerprintError(path, matched, digests) != Some(AmbiguousMapping)
    ensures FingerprintError(path, matched, digests) != Some(InvalidOutput)
    decreases |matched|
  {
    if matched != [] {
      NoFingerprintErrorMeansConfirmed(path, matched[1..], digests);
      assert matched[0] in matched;
      assert forall m :: m in matched <==> m == matched[0] || m in matched[1..];
    }
  }

  lemma ValidConfigExpands(rules: PathRules, config: SelectorConfig)
    requires IsValidConfig(rules, config)
    ensures GlobsExpand(config.ignoreGlobs) && SourcesExpand(config.mappings)
  {
    forall k | 0 <= k < |config.ignoreGlobs| ensures Braces.ExpandBraces(config.ignoreGlobs[k]).Ok? {
      assert IsValidGlob(config.ignoreGlobs[k]);
    }
    forall k | 0 <= k < |config.mappings| ensures Braces.ExpandBraces(config.mappings[k].sourceGlob).Ok? {
      assert IsValidMapping(rules, config.mappings[k]);
    }
  }

  /** The run-time ambiguity branch cannot be reached: mappings that match one path list the same tests. */
  lemma MatchedNeverDiffer(rules: PathRules, config: SelectorConfig, path: string)
    requires IsValidConfig(rules, config)
    ensures Matched(path, config.mappings).Ok? && !HeavySetsDiffer(Matched(path, config.mappings).value)
  {
    ValidConfigExpands(rules, config);
    MatchedAreThoseThatApply(path, config.mappings);
    var matched := Matched(path, config.mappings).value;
    forall i, j | 0 <= i < |matched| && 0 <= j < |matched| ensures matched[i].heavyTests == matched[j].heavyTests {
      assert matched[i] in matched && matched[j] in matched;
      ApplyingMappingsAgree(rules, config, path, matched[i], matched[j]);
    }
  }

  lemma ApplyingMappingsAgree(rules: PathRules, config: SelectorConfig, path: string, m: MappingEntry, n: MappingEntry)
    requires IsValidConfig(rules, config) && m in config.mappings && n in config.mappings
    requires Applies(m, path) && Applies(n, path)
    ensures m.heavyTests == n.heavyTests
  {
    var k :| 0 <= k < |config.mappings| && config.mappings[k] == m;
    var l :| 0 <= l < |config.mappings| && config.mappings[l] == n;
    MatchingMappingsAgree(rules, config, path, k, l);
  }

  lemma TestsOfIsMappedTo(path: string, mappings: seq<MappingEntry>, t: string)
    requires SourcesExpand(mappings)
    ensures Matched(path, mappings).Ok?
    ensures t in TestsOf(Matched(path, mappings).value) <==> IsMappedTo(path, mappings, t)
  {
    MatchedAreThoseThatApply(path, mappings);
    var matched := Matched(path, mappings).value;
    if t in TestsOf(matched) {
      var k, l :| 0 <= k < |matched| && 0 <= l < |matched[k].heavyTests| && t == matched[k].heavyTests[l];
      assert matched[k] in matched;
    }
    if IsMappedTo(path, mappings, t) {
      var m :| m in mappings && Applies(m, path) && t in m.heavyTests;
      var k :| 0 <= k < |matched| && matched[k] == m;
      var l :| 0 <= l < |m.heavyTests| && m.heavyTests[l] == t;
    }
  }

  lemma MappedTestsAreExact(rules: PathRules, path: string, config: SelectorConfig, digests: Digests)
    requires IsValidConfig(rules, config)
    ensures var r := MappedTests(path, config.mappings, digests);
      && (r.Ok? <==> IsMapped(path, config.mappings, digests))
      && (r.Ok? ==> forall t :: t in r.value <==> IsMappedTo(path, config.mappings, t))
      && r != Err(AmbiguousMapping) && r != Err(InvalidOutput)
  {
    var mappings := config.mappings;
    ValidConfigExpands(rules, config);
    MatchedAreThoseThatApply(path, mappings);
    MatchedNeverDiffer(rules, config, path);
    var matched := Matched(path, mappings).value;
    NoFingerprintErrorMeansConfirmed(path, matched, digests);
    assert matched != [] ==> matched[0] in matched;
    forall t ensures t in TestsOf(matched) <==> IsMappedTo(path, mappings, t) {
      TestsOfIsMappedTo(path, mappings, t);
    }
  }

  ghost predicate IsExact(
    rules: PathRules, path: string, config: SelectorConfig, digests: Digests, r: Result<set<string>>) {
    && (r.Ok? <==> IsClassified(rules, path, config, digests))
    && (r.Ok? ==> forall t :: t in r.value <==> Selects(rules, path, config, t))
    && r != Err(AmbiguousMapping) && r != Err(InvalidOutput)
  }

  /** Invalid paths, HEAVY tests and documents are settled before mappings and ignores are looked at. */
  predicate IsSettled(rules: PathRules, path: string) {
    !IsRepositoryRelative(path, false) || IsHeavyTest(rules, path) || IsHumanDocument(rules, path)
  }

  lemma SettledContribution(rules: PathRules, path: string, config: SelectorConfig, digests: Digests)
    requires IsSettled(rules, path)
    ensures IsExact(rules, path, config, digests, Contribution(rules, path, config, digests))
  {
  }

  lemma CandidateContribution(rules: PathRules, path: string, config: SelectorConfig, digests: Digests)
    requires IsValidConfig(rules, config) && !IsSettled(rules, path) && IsCandidate(rules, path)
    ensures IsExact(rules, path, config, digests, Contribution(rules, path, config, digests))
  {
    MappedTestsAreExact(rules, path, config, digests);
  }

  lemma OtherContribution(rules: PathRules, path: string, config: SelectorConfig, digests: Digests)
    requires IsValidConfig(rules, config) && !IsSettled(rules, path) && !IsCandidate(rules, path)
    ensures IsExact(rules, path, config, digests, Contribution(rules, path, config, digests))
  {
    ValidConfigExpands(rules, config);
    MatchesAnyIsIgnored(path, config.ignoreGlobs);
  }

  /** One path: the selector succeeds exactly when the path is classified, and contributes exactly
      the tests the path asks for. */
  lemma ContributionIsExact(rules: PathRules, path: string, config: SelectorConfig, digests: Digests)
    requires IsValidConfig(rules, config)
    ensures IsExact(rules, path, config, digests, Contribution(rules, path, config, digests))
  {
    if IsSettled(rules, path) {
      SettledContribution(rules, path, config, digests);
    } else if IsCandidate(rules, path) {
      CandidateContribution(rules, path, config, digests);
    } else {
      OtherContribution(rules, path, config, digests);
    }
  }

  // ----- the whole selection

  ghost predicate AreClassified(rules: PathRules, changed: seq<string>, config: SelectorConfig, digests: Digests) {
    forall path :: path in changed ==> IsClassified(rules, path, config, digests)
  }

  ghost predicate IsSelected(rules: PathRules, changed: seq<string>, config: SelectorConfig, t: string) {
    exists path :: path in changed && Selects(rules, path, config, t)
  }

  lemma {:induction false} AccumulatedIsExact(
    rules: PathRules, changed: seq<string>, config: SelectorConfig, digests: Digests)
    requires IsValidConfig(rules, config)
    ensures var r := Accumulated(rules, changed, config, digests);
      && (r.Ok? <==> AreClassified(rules, changed, config, digests))
      && (r.Ok? ==> forall t :: t in r.value <==> IsSelected(rules, changed, config, t))
      && r != Err(AmbiguousMapping) && r != Err(InvalidOutput)
    decreases |changed|
  {
    if changed != [] {
      ContributionIsExact(rules, changed[0], config, digests);
      AccumulatedIsExact(rules, changed[1..], config, digests);
      assert forall path :: path in changed <==> path == changed[0] || path in changed[1..];
      forall t ensures IsSelected(rules, changed, config, t) <==>
          Selects(rules, changed[0], config, t) || IsSelected(rules, changed[1..], config, t) {
      }
    }
  }

  /** Every selected test is an executable HEAVY path, so the final output check never fires. */
  lemma SelectedIsExecutable(rules: PathRules, path: string, config: SelectorConfig, t: string)
    requires AreValidMappings(rules, config.mappings) && IsRepositoryRelative(path, false)
    requires Selects(rules, path, config, t)
    ensures IsHeavyPath(rules, t)
  {
    if !IsHeavyTest(rules, path) {
      MappedToIsHeavy(rules, path, config.mappings, t);
    }
  }

  lemma MappedToIsHeavy(rules: PathRules, path: string, mappings: seq<MappingEntry>, t: string)
    requires AreValidMappings(rules, mappings) && IsMappedTo(path, mappings, t)
    ensures IsHeavyPath(rules, t)
  {
    var m :| m in mappings && Applies(m, path) && t in m.heavyTests;
    var k :| 0 <= k < |mappings| && mappings[k] == m;
    MappedTestIsHeavy(rules, mappings, k, t);
  }

  lemma MappedTestIsHeavy(rules: PathRules, mappings: seq<MappingEntry>, k: nat, t: string)
    requires AreValidMappings(rules, mappings) && k < |mappings| && t in mappings[k].heavyTests
    ensures IsHeavyPath(rules, t)
  {
    assert IsValidMapping(rules, mappings[k]);
    var l :| 0 <= l < |mappings[k].heavyTests| && mappings[k].heavyTests[l] == t;
  }

  /** Fail-closed and exact: the selection succeeds exactly when every changed path is classified,
      and then holds exactly the tests some changed path asks for. It never reports ambiguity or
      an invalid output. */
  lemma SelectionIsExact(rules: PathRules, changed: seq<string>, config: SelectorConfig, digests: Digests)
    requires IsValidConfig(rules, config)
    ensures var r := SelectedTests(rules, changed, config, digests);
      && (r.Ok? <==> AreClassified(rules, changed, config, digests))
      && (r.Ok? ==> forall t :: t in r.value <==> IsSelected(rules, changed, config, t))
      && r != Err(AmbiguousMapping) && r != Err(InvalidOutput)
  {
    AccumulatedIsExact(rules, changed, config, digests);
    var r := Accumulated(rules, changed, config, digests);
    if r.Ok? {
      forall t | t in r.value ensures IsHeavyPath(rules, t) {
        var path :| path in changed && Selects(rules, path, config, t);
        assert IsClassified(rules, path, config, digests);
        SelectedIsExecutable(rules, path, config, t);
      }
    }
  }

  /** Selection is a homomorphism into unions: selecting for `a` followed by `b` succeeds exactly
      when both parts do, and is then the union of the parts. */
  lemma SelectionOfUnion(rules: PathRules, a: seq<string>, b: seq<string>, config: SelectorConfig, digests: Digests)
    requires IsValidConfig(rules, config)
    ensures var (ra, rb, r) := (SelectedTests(rules, a, config, digests), SelectedTests(rules, b, config, digests),
        SelectedTests(rules, a + b, config, digests));
      (r.Ok? <==> ra.Ok? && rb.Ok?) && (r.Ok? ==> r.value == ra.value + rb.value)
  {
    SelectionIsExact(rules, a, config, digests);
    SelectionIsExact(rules, b, config, digests);
    SelectionIsExact(rules, a + b, config, digests);
    assert forall path :: path in a + b <==> path in a || path in b;
    forall t
      ensures IsSelected(rules, a + b, config, t) <==>
        IsSelected(rules, a, config, t) || IsSelected(rules, b, config, t)
    {
    }
  }

  /** Two configurations with the same mappings and the same ignore globs, in any order. */
  ghost predicate SameEntries(c: SelectorConfig, d: SelectorConfig) {
    && (forall m :: m in c.mappings <==> m in d.mappings)
    && (forall glob :: glob in c.ignoreGlobs <==> glob in d.ignoreGlobs)
  }

  lemma ClassificationIgnoresOrder(
    rules: PathRules, path: string, c: SelectorConfig, d: SelectorConfig, digests: Digests)
    requires SameEntries(c, d)
    ensures IsClassified(rules, path, c, digests) <==> IsClassified(rules, path, d, digests)
    ensures forall t :: Selects(rules, path, c, t) <==> Selects(rules, path, d, t)
  {
    assert IsMapped(path, c.mappings, digests) <==> IsMapped(path, d.mappings, digests);
    assert IsIgnored(path, c.ignoreGlobs) <==> IsIgnored(path, d.ignoreGlobs);
    forall t ensures IsMappedTo(path, c.mappings, t) <==> IsMappedTo(path, d.mappings, t) {
    }
  }

  /** Neither the order nor the multiplicity of changed files matters, nor the order of mappings and
      ignore globs: the same entries give the same outcome. */
  lemma SelectionIgnoresOrder(
    rules: PathRules, a: seq<string>, b: seq<string>, c: SelectorConfig, d: SelectorConfig, digests: Digests)
    requires IsValidConfig(rules, c) && IsValidConfig(rules, d) && SameEntries(c, d)
    requires forall path :: path in a <==> path in b
    ensures var (ra, rb) := (SelectedTests(rules, a, c, digests), SelectedTests(rules, b, d, digests));
      (ra.Ok? <==> rb.Ok?) && (ra.Ok? ==> ra.value == rb.value)
  {
    SelectionIsExact(rules, a, c, digests);
    SelectionIsExact(rules, b, d, digests);
    forall path ensures IsClassified(rules, path, c, digests) <==> IsClassified(rules, path, d, digests)
      ensures forall t :: Selects(rules, path, c, t) <==> Selects(rules, path, d, t)
    {
      ClassificationIgnoresOrder(rules, path, c, d, digests);
    }
    assert forall t :: IsSelected(rules, a, c, t) <==> IsSelected(rules, b, d, t);
  }

  /** Validation, selection and its guarantee, end to end. */
  method LoadAndSelect(rules: PathRules, config: SelectorConfig, changed: seq<string>, digests: Digests)
    returns (result: Result<seq<string>>)
    ensures result.Ok? <==> IsValidConfig(rules, config) && AreClassified(rules, changed, config, digests)
    ensures result.Ok? ==> Sorting.IsAscending(result.value)
    ensures result.Ok? ==> forall t :: t in result.value <==> IsSelected(rules, changed, config, t)
    ensures IsValidConfig(rules, config) ==> result != Err(AmbiguousMapping) && result != Err(InvalidOutput)
  {
    var validated := ValidateConfig(rules, config);
    if validated.Err? { return Err(validated.error); }
    SelectionIsExact(rules, changed, config, digests);
    result := SelectHeavyTests(rules, changed, validated.value, digests);
  }
}
