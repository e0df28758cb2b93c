/** Selecting the HEAVY tests affected by a set of changed paths. */
module Selection {
  import opened Config
  import opened Paths
  import opened Repository
  import opened Results
  import Sorting

  /** The SHA-256 of each readable file; a missing entry is a file that cannot be read. */
  type Digests = map<string, string>

  // ----- what one path contributes

  /** The mappings whose glob matches the path, in order. */
  function Matched(path: string, mappings: seq<MappingEntry>): Result<seq<MappingEntry>> {
    if mappings == [] then Ok([])
    else
      var matches := MatchesGlob(path, mappings[0].sourceGlob);
      if matches.Err? then Err(matches.error)
      else
        var rest := Matched(path, mappings[1..]);
        if rest.Err? then rest else Ok((if matches.value then [mappings[0]] else []) + rest.value)
  }

  /** Whether some glob matches; the ones after the first match are not looked at. */
  function MatchesAny(path: string, globs: seq<string>): Result<bool> {
    if globs == [] then Ok(false)
    else
      var matches := MatchesGlob(path, globs[0]);
      if matches == Ok(false) then MatchesAny(path, globs[1..]) else matches
  }

  predicate HeavySetsDiffer(matched: seq<MappingEntry>) {
    exists i, j :: 0 <= i < |matched| && 0 <= j < |matched| && matched[i].heavyTests != matched[j].heavyTests
  }

  /** The first fingerprint that cannot be confirmed. */
  function FingerprintError(path: string, matched: seq<MappingEntry>, digests: Digests): Option<SelectorError> {
    if matched == [] then None
    else if matched[0].fingerprint.Some? && path !in digests then Some(UnreadableContent)
    else if matched[0].fingerprint.Some? && digests[path] != matched[0].fingerprint.value then Some(FingerprintMismatch)
    else FingerprintError(path, matched[1..], digests)
  }

  function TestsOf(matched: seq<MappingEntry>): set<string> {
    set k, l | 0 <= k < |matched| && 0 <= l < |matched[k].heavyTests| :: matched[k].heavyTests[l]
  }

  function MappedTests(path: string, mappings: seq<MappingEntry>, digests: Digests): Result<set<string>> {
    var matched := Matched(path, mappings);
    if matched.Err? then Err(matched.error)
    else if matched.value == [] then Err(UnmappedCandidate)
    else if HeavySetsDiffer(matched.value) then Err(AmbiguousMapping)
    else
      var error := FingerprintError(path, matched.value, digests);
      if error.Some? then Err(error.value) else Ok(TestsOf(matched.value))
  }

  /** Direct HEAVY test, then human document, then candidate mapping, then ignore; anything else fails. */
  function Contribution(rules: PathRules, path: string, config: SelectorConfig, digests: Digests): Result<set<string>> {
    if !IsRepositoryRelative(path, false) then Err(InvalidPath)
    else if IsHeavyTest(rules, path) then Ok({path})
    else if IsHumanDocument(rules, path) then Ok({})
    else if IsCandidate(rules, path) then MappedTests(path, config.mappings, digests)
    else
      var ignored := MatchesAny(path, config.ignoreGlobs);
      if ignored.Err? then Err(ignored.error) else if ignored.value then Ok({}) else Err(Unclassified)
  }

  /** The union of all contributions, or the error of the first path that has one. */
  function Accumulated(
    rules: PathRules, changed: seq<string>, config: SelectorConfig, digests: Digests): Result<set<string>> {
    if changed == [] then Ok({})
    else
      var first := Contribution(rules, changed[0], config, digests);
      if first.Err? then first
      else
        Grown(first.value, Accumulated(rules, changed[1..], config, digests))
  }

  predicate IsExecutable(rules: PathRules, tests: set<string>) {
    forall t :: t in tests ==> IsHeavyPath(rules, t)
  }

  /** What the selector returns, as a set. */
  function SelectedTests(
    rules: PathRules, changed: seq<string>, config: SelectorConfig, digests: Digests): Result<set<string>> {
    var selected := Accumulated(rules, changed, config, digests);
    if selected.Err? then selected
    else if IsExecutable(rules, selected.value) then selected
    else Err(InvalidOutput)
  }

  // ----- the selector

  /** The mapped tests of a candidate path, added to the selection entry by entry. */
  method AddMappedTests(path: string, matched: seq<MappingEntry>, digests: Digests, selected: set<string>)
    returns (result: Result<set<string>>)
    ensures var error := FingerprintError(path, matched, digests);
      result == if error.Some? then Err(error.value) else Ok(selected + TestsOf(matched))
  {
    var grown := selected;
    assert matched[0..] == matched;
    for k := 0 to |matched|
      invariant FingerprintError(path, matched, digests) == FingerprintError(path, matched[k..], digests)
      invariant grown == selected + TestsOf(matched[..k])
    {
      var mapping := matched[k];
      assert matched[k..][1..] == matched[k + 1..];
      if mapping.fingerprint.Some? {
        if path !in digests { return Err(UnreadableContent); }
        if digests[path] != mapping.fingerprint.value { return Err(FingerprintMismatch); }
      }
      TestsOfSnoc(matched, k);
      grown := grown + set l | 0 <= l < |mapping.heavyTests| :: mapping.heavyTests[l];
    }
    assert matched[..|matched|] == matched;
    return Ok(grown);
  }

  lemma TestsOfSnoc(matched: seq<MappingEntry>, k: nat)
    requires k < |matched|
    ensures TestsOf(matched[..k + 1]) ==
            TestsOf(matched[..k]) + set l | 0 <= l < |matched[k].heavyTests| :: matched[k].heavyTests[l]
  {
    assert matched[..k + 1] == matched[..k] + [matched[k]];
    forall t ensures t in TestsOf(matched[..k + 1]) <==> t in TestsOf(matched[..k]) || t in matched[k].heavyTests {
      TestsOfAppend(matched[..k], [matched[k]], t);
      assert t in TestsOf([matched[k]]) <==> t in matched[k].heavyTests;
    }
  }

  lemma TestsOfAppend(xs: seq<MappingEntry>, ys: seq<MappingEntry>, t: string)
    ensures t in TestsOf(xs + ys) <==> t in TestsOf(xs) || t in TestsOf(ys)
  {
    if t in TestsOf(xs) {
      var k, l :| 0 <= k < |xs| && 0 <= l < |xs[k].heavyTests| && t == xs[k].heavyTests[l];
      assert (xs + ys)[k] == xs[k];
    }
    if t in TestsOf(ys) {
      var k, l :| 0 <= k < |ys| && 0 <= l < |ys[k].heavyTests| && t == ys[k].heavyTests[l];
      assert (xs + ys)[|xs| + k] == ys[k];
    }
  }

  function Grown(selected: set<string>, more: Result<set<string>>): Result<set<string>> {
    if more.Err? then more else Ok(selected + more.value)
  }

  lemma GrownTwice(selected: set<string>, more: set<string>, rest: Result<set<string>>)
    ensures Grown(selected, Grown(more, rest)) == Grown(selected + more, rest)
  {
    if rest.Ok? {
      assert selected + (more + rest.value) == selected + more + rest.value;
    }
  }

  lemma GrownByNothing(selected: set<string>, more: Result<set<string>>)
    ensures Grown(selected, Ok({})) == Ok(selected)
    ensures Grown({}, more) == more
  {
    assert selected + {} == selected;
    if more.Ok? {
      assert {} + more.value == more.value;
    }
  }

  /** One changed path. */
  method AddPath(rules: PathRules, path: string, config: SelectorConfig, digests: Digests, selected: set<string>)
    returns (result: Result<set<string>>)
    ensures result == Grown(selected, Contribution(rules, path, config, digests))
  {
    GrownByNothing(selected, Ok({}));
    if !IsRepositoryRelative(path, false) { return Err(InvalidPath); }
    if IsHeavyTest(rules, path) { return Ok(selected + {path}); }
    if IsHumanDocument(rules, path) { return Ok(selected); }
    if IsCandidate(rules, path) {
      var matched := Matched(path, config.mappings);
      if matched.Err? { return Err(matched.error); }
      if matched.value == [] { return Err(UnmappedCandidate); }
      if HeavySetsDiffer(matched.value) { return Err(AmbiguousMapping); }
      result := AddMappedTests(path, matched.value, digests, selected);
      return;
    }
    var ignored := MatchesAny(path, config.ignoreGlobs);
    if ignored.Err? { return Err(ignored.error); }
    return if ignored.value then Ok(selected) else Err(Unclassified);
  }

  method SelectHeavyTests(rules: PathRules, changed: seq<string>, config: SelectorConfig, digests: Digests)
    returns (result: Result<seq<string>>)
    ensures var selection := SelectedTests(rules, changed, config, digests);
      if selection.Err? then result == Err(selection.error)
      else result.Ok? && Sorting.IsSorted(result.value, selection.value)
  {
    var selected: set<string> := {};
    ghost var whole := Accumulated(rules, changed, config, digests);
    assert changed[0..] == changed;
    GrownByNothing({}, whole);
    for k := 0 to |changed|
      invariant whole == Grown(selected, Accumulated(rules, changed[k..], config, digests))
    {
      AccumulatedStep(rules, changed, k, config, digests, selected);
      var added := AddPath(rules, changed[k], config, digests, selected);
      if added.Err? { return Err(added.error); }
      selected := added.value;
    }
    GrownByNothing(selected, Ok({}));
    if !IsExecutable(rules, selected) { return Err(InvalidOutput); }
    var sorted := Sorting.Sorted(selected);
    return Ok(sorted);
  }

  lemma AccumulatedStep(
    rules: PathRules, changed: seq<string>, k: nat, config: SelectorConfig, digests: Digests, selected: set<string>)
    requires k < |changed|
    ensures var first := Contribution(rules, changed[k], config, digests);
      Grown(selected, Accumulated(rules, changed[k..], config, digests)) ==
      if first.Err? then first
      else Grown(selected + first.value, Accumulated(rules, changed[k + 1..], config, digests))
  {
    assert changed[k..][1..] == changed[k + 1..];
    var first := Contribution(rules, changed[k], config, digests);
    if first.Ok? {
      GrownTwice(selected, first.value, Accumulated(rules, changed[k + 1..], config, digests));
    }
  }
}
