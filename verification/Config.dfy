/** The machine-readable mapping from source globs to HEAVY tests, and its validation. */
module Config {
  import opened CharClasses
  import opened Hexadecimal
  import opened Paths
  import opened Repository
  import opened Results
  import opened Sampling
  import Braces
  import Text

  datatype MappingEntry = MappingEntry(sourceGlob: string, heavyTests: seq<string>, fingerprint: Option<string>)

  datatype SelectorConfig = SelectorConfig(ignoreGlobs: seq<string>, mappings: seq<MappingEntry>)

  // ----- what a valid configuration is

  ghost predicate AreValidExpansions(expansions: seq<string>) {
    forall k :: 0 <= k < |expansions| ==>
      IsRepositoryRelative(expansions[k], true) && ClassesAreSupported(expansions[k])
  }

  ghost predicate IsValidGlob(pattern: string) {
    && pattern != ""
    && Braces.ExpandBraces(pattern).Ok?
    && AreValidExpansions(Braces.ExpandBraces(pattern).value)
  }

  predicate IsHeavyPath(rules: PathRules, path: string) {
    IsRepositoryRelative(path, false) && IsHeavyTest(rules, path)
  }

  predicate AreHeavyPaths(rules: PathRules, paths: seq<string>) {
    forall k :: 0 <= k < |paths| ==> IsHeavyPath(rules, paths[k])
  }

  /** 64 lower-case hexadecimal digits. */
  predicate IsHexDigest(s: string) {
    |s| == 64 && AreHexDigits(s)
  }

  ghost predicate HasCandidateSample(rules: PathRules, pattern: string)
    requires Braces.ExpandBraces(pattern).Ok?
  {
    exists path :: IsCandidateSample(rules, Braces.ExpandBraces(pattern).value, path)
  }

  ghost predicate IsCandidateSample(rules: PathRules, expansions: seq<string>, path: string) {
    IsSampleOf(expansions, path) && IsCandidate(rules, path)
  }

  /** A fingerprint spells a digest and stands beside an exact path. */
  ghost predicate IsValidFingerprint(mapping: MappingEntry) {
    mapping.fingerprint.Some? ==>
      IsRepositoryRelative(mapping.sourceGlob, false) && SpellsDigest(mapping.fingerprint.value)
  }

  ghost predicate IsValidMapping(rules: PathRules, mapping: MappingEntry) {
    && IsValidGlob(mapping.sourceGlob)
    && HasCandidateSample(rules, mapping.sourceGlob)
    && AreHeavyPaths(rules, mapping.heavyTests)
    && IsValidFingerprint(mapping)
  }

  predicate SamePolicy(left: MappingEntry, right: MappingEntry) {
    left.heavyTests == right.heavyTests && left.fingerprint == right.fingerprint
  }

  /** No path is matched by two mappings that disagree on what to do with it. */
  ghost predicate IsUnambiguous(mappings: seq<MappingEntry>) {
    forall i :: 0 <= i < |mappings| ==> AgreesWithLater(mappings, i)
  }

  ghost predicate AgreesWithLater(mappings: seq<MappingEntry>, i: nat)
    requires i < |mappings|
  {
    forall j :: i < j < |mappings| ==> !Conflict(mappings[i], mappings[j])
  }

  ghost predicate Conflict(left: MappingEntry, right: MappingEntry) {
    !SamePolicy(left, right) && GlobsOverlap(left.sourceGlob, right.sourceGlob)
  }

  ghost predicate AreValidGlobs(patterns: seq<string>) {
    forall k :: 0 <= k < |patterns| ==> IsValidGlob(patterns[k])
  }

  ghost predicate AreValidMappings(rules: PathRules, mappings: seq<MappingEntry>) {
    forall k :: 0 <= k < |mappings| ==> IsValidMapping(rules, mappings[k])
  }

  ghost predicate IsValidConfig(rules: PathRules, config: SelectorConfig) {
    && AreValidGlobs(config.ignoreGlobs)
    && AreValidMappings(rules, config.mappings)
    && IsUnambiguous(config.mappings)
  }

  ghost predicate SourcesAreSupported(mappings: seq<MappingEntry>) {
    forall k :: 0 <= k < |mappings| ==> GlobIsSupported(mappings[k].sourceGlob)
  }

  lemma ValidSourcesAreSupported(rules: PathRules, mappings: seq<MappingEntry>)
    requires AreValidMappings(rules, mappings)
    ensures SourcesAreSupported(mappings)
  {
    forall k | 0 <= k < |mappings| ensures GlobIsSupported(mappings[k].sourceGlob) {
      assert IsValidMapping(rules, mappings[k]);
    }
  }

  // ----- validation

  method ValidateExpansions(expansions: seq<string>) returns (error: Option<SelectorError>)
    ensures error.None? <==> AreValidExpansions(expansions)
    ensures error != Some(AmbiguousConfig)
  {
    for k := 0 to |expansions|
      invariant forall l :: 0 <= l < k ==>
        IsRepositoryRelative(expansions[l], true) && ClassesAreSupported(expansions[l])
    {
      if !IsRepositoryRelative(expansions[k], true) { return Some(InvalidPath); }
      var supported := ValidateClassSyntax(expansions[k]);
      if !supported { return Some(InvalidClass); }
    }
    return None;
  }

  method ValidateGlob(pattern: string) returns (error: Option<SelectorError>)
    ensures error.None? <==> IsValidGlob(pattern)
    ensures error != Some(AmbiguousConfig)
  {
    if pattern == "" { return Some(EmptyGlob); }
    var expanded := Braces.ExpandBraces(pattern);
    if expanded.Err? { return Some(expanded.error); }
    error := ValidateExpansions(expanded.value);
  }

  method SamplesACandidate(rules: PathRules, pattern: string) returns (found: bool)
    requires Braces.ExpandBraces(pattern).Ok?
    ensures found <==> HasCandidateSample(rules, pattern)
  {
    var samples := SamplePaths(Braces.ExpandBraces(pattern).value);
    found := exists s :: s in samples && IsCandidate(rules, s);
    assert forall s :: s in samples && IsCandidate(rules, s) <==>
      IsCandidateSample(rules, Braces.ExpandBraces(pattern).value, s);
  }

  method ValidateHeavyTest(rules: PathRules, path: string) returns (error: Option<SelectorError>)
    ensures error.None? <==> IsHeavyPath(rules, path)
    ensures error != Some(AmbiguousConfig)
  {
    if !IsRepositoryRelative(path, false) { return Some(InvalidPath); }
    if !IsHeavyTest(rules, path) { return Some(NotHeavy); }
    return None;
  }

  method ValidateHeavyTests(rules: PathRules, heavyTests: seq<string>) returns (error: Option<SelectorError>)
    ensures error.None? <==> AreHeavyPaths(rules, heavyTests)
    ensures error != Some(AmbiguousConfig)
  {
    for k := 0 to |heavyTests|
      invariant forall l :: 0 <= l < k ==> IsHeavyPath(rules, heavyTests[l])
    {
      error := ValidateHeavyTest(rules, heavyTests[k]);
      if error.Some? { return; }
    }
    return None;
  }

  method ValidateMapping(rules: PathRules, mapping: MappingEntry) returns (error: Option<SelectorError>)
    ensures error.None? <==> IsValidMapping(rules, mapping)
    ensures error != Some(AmbiguousConfig)
  {
    error := ValidateGlob(mapping.sourceGlob);
    if error.Some? { return; }
    var inRange := SamplesACandidate(rules, mapping.sourceGlob);
    if !inRange { return Some(OutsideCandidates); }
    error := ValidateHeavyTests(rules, mapping.heavyTests);
    if error.Some? { return; }
    if mapping.fingerprint.Some? {
      if !IsRepositoryRelative(mapping.sourceGlob, false) { return Some(FingerprintNeedsExactGlob); }
      DigestSpellings(mapping.fingerprint.value);
      if !IsHexDigest(mapping.fingerprint.value) { return Some(InvalidFingerprint); }
    }
  }

  method PoliciesCollide(left: MappingEntry, right: MappingEntry) returns (conflict: bool)
    requires GlobIsSupported(left.sourceGlob) && GlobIsSupported(right.sourceGlob)
    ensures conflict <==> Conflict(left, right)
  {
    if SamePolicy(left, right) { return false; }
    var overlap := PatternsOverlap(left.sourceGlob, right.sourceGlob);
    return overlap == Ok(true);
  }

  /** The inner loop of the pairwise check: one mapping against all later ones. */
  method ConflictsWithLater(mappings: seq<MappingEntry>, i: nat) returns (conflict: bool)
    requires i < |mappings| && SourcesAreSupported(mappings)
    ensures conflict <==> !AgreesWithLater(mappings, i)
  {
    for j := i + 1 to |mappings|
      invariant forall b :: i < b < j ==> !Conflict(mappings[i], mappings[b])
    {
      conflict := PoliciesCollide(mappings[i], mappings[j]);
      if conflict { return; }
    }
    return false;
  }

  /** The pairwise check: two mappings with different policies must not overlap. */
  method FindConflict(mappings: seq<MappingEntry>) returns (conflict: bool)
    requires SourcesAreSupported(mappings)
    ensures conflict <==> !IsUnambiguous(mappings)
  {
    for i := 0 to |mappings|
      invariant forall a :: 0 <= a < i ==> AgreesWithLater(mappings, a)
    {
      conflict := ConflictsWithLater(mappings, i);
      if conflict { return; }
    }
    return false;
  }

  method ValidateIgnores(ignoreGlobs: seq<string>) returns (error: Option<SelectorError>)
    ensures error.None? <==> AreValidGlobs(ignoreGlobs)
    ensures error != Some(AmbiguousConfig)
  {
    for k := 0 to |ignoreGlobs|
      invariant forall l :: 0 <= l < k ==> IsValidGlob(ignoreGlobs[l])
    {
      error := ValidateGlob(ignoreGlobs[k]);
      if error.Some? { return; }
    }
    return None;
  }

  method ValidateMappings(rules: PathRules, mappings: seq<MappingEntry>) returns (error: Option<SelectorError>)
    ensures error.None? <==> AreValidMappings(rules, mappings)
    ensures error != Some(AmbiguousConfig)
  {
    for k := 0 to |mappings|
      invariant forall l :: 0 <= l < k ==> IsValidMapping(rules, mappings[l])
    {
      error := ValidateMapping(rules, mappings[k]);
      if error.Some? { return; }
    }
    return None;
  }

  /** Accepts exactly the valid configurations; ambiguity is decided on languages, not on samples. */
  method ValidateConfig(rules: PathRules, config: SelectorConfig) returns (result: Result<SelectorConfig>)
    ensures result.Ok? <==> IsValidConfig(rules, config)
    ensures result.Ok? ==> result.value == config
    ensures result == Err(AmbiguousConfig) <==>
      AreValidGlobs(config.ignoreGlobs) && AreValidMappings(rules, config.mappings) && !IsUnambiguous(config.mappings)
  {
    var error := ValidateIgnores(config.ignoreGlobs);
    if error.Some? { return Err(error.value); }
    error := ValidateMappings(rules, config.mappings);
    if error.Some? { return Err(error.value); }
    ValidSourcesAreSupported(rules, config.mappings);
    var conflict := FindConflict(config.mappings);
    if conflict { return Err(AmbiguousConfig); }
    return Ok(config);
  }

  // ----- ambiguity, path by path

  /** Both mappings match the path, and they list different tests or ask for different contents. */
  ghost predicate DisagreeOn(left: MappingEntry, right: MappingEntry, path: string) {
    && MatchesGlob(path, left.sourceGlob) == Ok(true) && MatchesGlob(path, right.sourceGlob) == Ok(true)
    && (left.heavyTests != right.heavyTests || left.fingerprint != right.fingerprint)
  }

  lemma ConflictIsDisagreement(left: MappingEntry, right: MappingEntry)
    ensures Conflict(left, right) <==> exists path :: DisagreeOn(left, right, path)
  {
    if Conflict(left, right) {
      var path :| IsMatchedByBoth(path, left.sourceGlob, right.sourceGlob);
      assert DisagreeOn(left, right, path);
    }
    if path :| DisagreeOn(left, right, path) {
      assert IsMatchedByBoth(path, left.sourceGlob, right.sourceGlob);
    }
  }

  /** Mappings are unambiguous exactly when no two of them disagree on any path. */
  lemma AmbiguityIsDisagreement(mappings: seq<MappingEntry>)
    ensures IsUnambiguous(mappings) <==>
      forall i, j, path :: 0 <= i < j < |mappings| ==> !DisagreeOn(mappings[i], mappings[j], path)
  {
    forall i, j | 0 <= i < j < |mappings|
      ensures Conflict(mappings[i], mappings[j]) <==> exists path :: DisagreeOn(mappings[i], mappings[j], path)
    {
      ConflictIsDisagreement(mappings[i], mappings[j]);
    }
    if IsUnambiguous(mappings) {
      forall i, j, path | 0 <= i < j < |mappings| ensures !DisagreeOn(mappings[i], mappings[j], path) {
        assert AgreesWithLater(mappings, i);
      }
    }
  }

  // ----- what validity buys

  /** All mappings that match a path of a valid configuration agree on its tests and fingerprint. */
  lemma MatchingMappingsAgree(rules: PathRules, config: SelectorConfig, path: string, i: nat, j: nat)
    requires IsValidConfig(rules, config) && i < |config.mappings| && j < |config.mappings|
    requires MatchesGlob(path, config.mappings[i].sourceGlob) == Ok(true)
    requires MatchesGlob(path, config.mappings[j].sourceGlob) == Ok(true)
    ensures config.mappings[i].heavyTests == config.mappings[j].heavyTests
    ensures config.mappings[i].fingerprint == config.mappings[j].fingerprint
  {
    var left, right := config.mappings[i], config.mappings[j];
    assert IsMatchedByBoth(path, left.sourceGlob, right.sourceGlob);
    assert IsMatchedByBoth(path, right.sourceGlob, left.sourceGlob);
    if i < j {
      assert AgreesWithLater(config.mappings, i);
    } else if j < i {
      assert AgreesWithLater(config.mappings, j);
    }
  }

  /** A fingerprinted mapping of a valid configuration concerns exactly one path. */
  lemma FingerprintedMappingIsSingleton(rules: PathRules, mapping: MappingEntry, path: string)
    requires IsValidMapping(rules, mapping) && mapping.fingerprint.Some?
    ensures Braces.ExpandBraces(mapping.sourceGlob) == Ok([mapping.sourceGlob])
    ensures MatchesGlob(path, mapping.sourceGlob) == Ok(path == mapping.sourceGlob)
  {
    ExactGlobIsSingleton(mapping.sourceGlob, path);
  }

  ghost predicate ExpansionsFitSamples(expansions: seq<string>) {
    forall k :: 0 <= k < |expansions| ==> PartsFitSamples(Text.Split(expansions[k], '/'))
  }

  /** A valid mapping whose classes hold what stands in for them in a sample, as they do when none begins
      with `*` or `?`, does match a candidate path. */
  lemma ValidMappingMatchesACandidate(rules: PathRules, mapping: MappingEntry) returns (path: string)
    requires IsValidMapping(rules, mapping)
    requires ExpansionsFitSamples(Braces.ExpandBraces(mapping.sourceGlob).value)
    ensures IsCandidate(rules, path) && MatchesGlob(path, mapping.sourceGlob) == Ok(true)
  {
    var expansions := Braces.ExpandBraces(mapping.sourceGlob).value;
    path :| IsCandidateSample(rules, expansions, path);
    var k :| 0 <= k < |expansions| && IsSamplePath(expansions[k], path);
    SampleMatches(expansions[k], path);
  }
}
