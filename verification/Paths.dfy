/** Whole-path globs: which paths a brace-free glob matches, and the search that decides whether
    two globs have a path in common. */
module Paths {
  import opened CharClasses
  import opened Results
  import opened Segments
  import opened FiniteAlphabet
  import Braces
  import Text

  // ----- matching

  /** `**` stands for any number of segments, every other part for one segment it matches. */
  predicate MatchesParts(parts: seq<string>, segments: seq<string>)
    decreases |parts| + |segments|
  {
    if parts == [] then segments == []
    else if parts[0] == "**" then
      MatchesParts(parts[1..], segments) || (segments != [] && MatchesParts(parts, segments[1..]))
    else segments != [] && MatchesSegment(parts[0], segments[0]) && MatchesParts(parts[1..], segments[1..])
  }

  predicate MatchesExpanded(path: string, pattern: string) {
    MatchesParts(Text.Split(pattern, '/'), Text.Split(path, '/'))
  }

  /** A glob matches when one of its brace expansions does; a malformed glob is an error. */
  function MatchesGlob(path: string, pattern: string): Result<bool> {
    var expanded := Braces.ExpandBraces(pattern);
    if expanded.Err? then Err(expanded.error)
    else Ok(exists k :: 0 <= k < |expanded.value| && MatchesExpanded(path, expanded.value[k]))
  }

  // ----- the recursive question the search answers

  /** Whether the remaining parts on both sides can be matched together, decided part by part. */
  ghost predicate Joinable(left: seq<string>, right: seq<string>, i: nat, j: nat)
    requires i <= |left| && j <= |right|
    decreases |left| - i + |right| - j
  {
    if i == |left| && j == |right| then true
    else if i < |left| && left[i] == "**" then
      Joinable(left, right, i + 1, j) || (j < |right| && Joinable(left, right, i, j + 1))
    else if j < |right| && right[j] == "**" then
      Joinable(left, right, i, j + 1) || (i < |left| && Joinable(left, right, i + 1, j))
    else if i == |left| || j == |right| then false
    else
      && Shared(left[i], right[j], Alphabet(left[i], right[j]), (0, 0))
      && Joinable(left, right, i + 1, j + 1)
  }

  ghost predicate InRange(left: seq<string>, right: seq<string>, s: State) {
    s.0 <= |left| && s.1 <= |right|
  }

  ghost predicate JoinableAt(left: seq<string>, right: seq<string>, s: State) {
    InRange(left, right, s) && Joinable(left, right, s.0, s.1)
  }

  /** The states the search appends after visiting `s`. */
  ghost predicate Follows(left: seq<string>, right: seq<string>, s: State, t: State)
    requires InRange(left, right, s)
  {
    var (i, j) := s;
    if i < |left| && left[i] == "**" then t == (i + 1, j) || (j < |right| && t == (i, j + 1))
    else if j < |right| && right[j] == "**" then t == (i, j + 1) || (i < |left| && t == (i + 1, j))
    else
      && i < |left| && j < |right|
      && Shared(left[i], right[j], Alphabet(left[i], right[j]), (0, 0))
      && t == (i + 1, j + 1)
  }

  lemma JoinableFollows(left: seq<string>, right: seq<string>, s: State)
    requires InRange(left, right, s) && s != (|left|, |right|)
    ensures Joinable(left, right, s.0, s.1) <==> exists t :: Follows(left, right, s, t) && JoinableAt(left, right, t)
  {
    var (i, j) := s;
    if Joinable(left, right, i, j) {
      var t :=
        if i < |left| && left[i] == "**" then
          if Joinable(left, right, i + 1, j) then (i + 1, j) else (i, j + 1)
        else if j < |right| && right[j] == "**" then
          if Joinable(left, right, i, j + 1) then (i, j + 1) else (i + 1, j)
        else (i + 1, j + 1);
      assert Follows(left, right, s, t) && JoinableAt(left, right, t);
    }
  }

  ghost predicate PartsInvariant(left: seq<string>, right: seq<string>, visited: set<State>, pending: seq<State>) {
    && (forall s :: s in pending || s in visited ==> InRange(left, right, s))
    && ((0, 0) in pending || (0, 0) in visited)
    && (|left|, |right|) !in visited
    && (forall s :: s in pending && JoinableAt(left, right, s) ==> Joinable(left, right, 0, 0))
    && (forall s, t :: s in visited && Follows(left, right, s, t) ==> t in pending || t in visited)
  }

  lemma {:induction false} VisitedNotJoinable(left: seq<string>, right: seq<string>, visited: set<State>, s: State)
    requires PartsInvariant(left, right, visited, [])
    requires s in visited
    ensures !Joinable(left, right, s.0, s.1)
    decreases |left| + |right| - s.0 - s.1
  {
    JoinableFollows(left, right, s);
    forall t | Follows(left, right, s, t) ensures !JoinableAt(left, right, t) {
      VisitedNotJoinable(left, right, visited, t);
    }
  }

  lemma PartsSkip(left: seq<string>, right: seq<string>, visited: set<State>, pending: seq<State>)
    requires PartsInvariant(left, right, visited, pending) && pending != [] && pending[0] in visited
    ensures PartsInvariant(left, right, visited, pending[1..])
  {
    assert forall s :: s in pending <==> s == pending[0] || s in pending[1..];
  }

  lemma PartsExpand(
    left: seq<string>, right: seq<string>, visited: set<State>, pending: seq<State>, extended: seq<State>)
    requires PartsInvariant(left, right, visited, pending) && pending != [] && pending[0] != (|left|, |right|)
    requires forall t :: t in extended <==> t in pending[1..] || Follows(left, right, pending[0], t)
    ensures PartsInvariant(left, right, visited + {pending[0]}, extended)
  {
    var s := pending[0];
    assert forall t :: t in pending <==> t == s || t in pending[1..];
    JoinableFollows(left, right, s);
    forall t | Follows(left, right, s, t)
      ensures InRange(left, right, t)
      ensures JoinableAt(left, right, t) ==> Joinable(left, right, 0, 0)
    {
      if JoinableAt(left, right, t) {
        assert JoinableAt(left, right, s);
      }
    }
  }

  /** What one visit appends to the queue. */
  method Advance(left: seq<string>, right: seq<string>, state: State, pending: seq<State>)
    returns (extended: seq<State>)
    requires InRange(left, right, state)
    ensures forall t :: t in extended <==>
      t in pending || (state != (|left|, |right|) && Follows(left, right, state, t))
  {
    var (i, j) := state;
    extended := pending;
    if i < |left| && left[i] == "**" {
      extended := extended + [(i + 1, j)];
      if j < |right| {
        extended := extended + [(i, j + 1)];
      }
      return;
    }
    if j < |right| && right[j] == "**" {
      extended := extended + [(i, j + 1)];
      if i < |left| {
        extended := extended + [(i + 1, j)];
      }
      return;
    }
    if i == |left| || j == |right| {
      return;
    }
    var overlap := SegmentPatternsOverlap(left[i], right[j]);
    if overlap {
      extended := extended + [(i + 1, j + 1)];
    }
  }

  /** The worklist search over part positions terminates and answers the recursive question. */
  method ExpandedPatternsOverlap(leftPattern: string, rightPattern: string) returns (overlap: bool)
    ensures overlap <==> Joinable(Text.Split(leftPattern, '/'), Text.Split(rightPattern, '/'), 0, 0)
  {
    var left, right := Text.Split(leftPattern, '/'), Text.Split(rightPattern, '/');
    var pending: seq<State> := [(0, 0)];
    var visited: set<State> := {};
    ghost var grid := set i: nat, j: nat | 0 <= i <= |left| && 0 <= j <= |right| :: (i, j);
    while pending != []
      invariant visited <= grid
      invariant PartsInvariant(left, right, visited, pending)
      decreases grid - visited, |pending|
    {
      var state := pending[0];
      if state in visited {
        PartsSkip(left, right, visited, pending);
        pending := pending[1..];
      } else {
        assert state in grid;
        if state.0 == |left| && state.1 == |right| {
          assert JoinableAt(left, right, state);
          return true;
        }
        var extended := Advance(left, right, state, pending[1..]);
        PartsExpand(left, right, visited, pending, extended);
        visited, pending := visited + {state}, extended;
      }
    }
    VisitedNotJoinable(left, right, visited, (0, 0));
    return false;
  }

  // ----- the recursive question is overlap of languages

  /** Some sequence of `/`-free segments matches both lists of parts. */
  ghost predicate HasCommonPath(left: seq<string>, right: seq<string>) {
    exists segments :: Text.FreeOf(segments, '/') && MatchesParts(left, segments) && MatchesParts(right, segments)
  }

  ghost predicate PartsAreSupported(parts: seq<string>) {
    forall k :: 0 <= k < |parts| ==> '/' !in parts[k] && IsSupported(parts[k])
  }

  ghost predicate IsCommonPath(left: seq<string>, right: seq<string>, segments: seq<string>) {
    Text.FreeOf(segments, '/') && MatchesParts(left, segments) && MatchesParts(right, segments)
  }

  /** From a matching pair of suffixes the search finds its way: matched suffixes are joinable. */
  lemma {:induction false} CommonPathIsFound(
    left: seq<string>, right: seq<string>, i: nat, j: nat, segments: seq<string>)
    requires PartsAreSupported(left) && PartsAreSupported(right) && i <= |left| && j <= |right|
    requires MatchesParts(left[i..], segments) && MatchesParts(right[j..], segments)
    ensures Joinable(left, right, i, j)
    decreases |segments|, |left| - i + |right| - j
  {
    if i < |left| && left[i] == "**" {
      assert left[i..][1..] == left[i + 1..];
      if MatchesParts(left[i + 1..], segments) {
        CommonPathIsFound(left, right, i + 1, j, segments);
      } else if right[j] == "**" && MatchesParts(right[j..][1..], segments) {
        assert right[j..][1..] == right[j + 1..];
        CommonPathIsFound(left, right, i, j + 1, segments);
      } else if right[j] == "**" {
        CommonPathIsFound(left, right, i, j, segments[1..]);
      } else {
        assert right[j..][1..] == right[j + 1..];
        CommonPathIsFound(left, right, i, j + 1, segments[1..]);
      }
    } else if j < |right| && right[j] == "**" {
      assert right[j..][1..] == right[j + 1..];
      if MatchesParts(right[j + 1..], segments) {
        CommonPathIsFound(left, right, i, j + 1, segments);
      } else {
        assert left[i..][1..] == left[i + 1..];
        CommonPathIsFound(left, right, i + 1, j, segments[1..]);
      }
    } else if i < |left| && j < |right| {
      assert left[i..][1..] == left[i + 1..] && right[j..][1..] == right[j + 1..];
      FiniteAlphabetSuffices(left[i], right[j]);
      CommonPathIsFound(left, right, i + 1, j + 1, segments[1..]);
    }
  }

  lemma AbsorbSegment(parts: seq<string>, segment: string, segments: seq<string>)
    requires parts != [] && parts[0] == "**" && MatchesParts(parts, segments)
    ensures MatchesParts(parts, [segment] + segments)
  {
    assert ([segment] + segments)[1..] == segments;
  }

  lemma TakeSegment(parts: seq<string>, segment: string, segments: seq<string>)
    requires parts != [] && parts[0] != "**" && MatchesSegment(parts[0], segment) && MatchesParts(parts[1..], segments)
    ensures MatchesParts(parts, [segment] + segments)
  {
    assert ([segment] + segments)[1..] == segments;
  }

  /** `**` on one side walks over a part of the other: skipped when that is `**` too, and otherwise
      over a word that inhabits it. */
  lemma WalkOver(stars: seq<string>, other: seq<string>, segments: seq<string>) returns (walked: seq<string>)
    requires stars != [] && stars[0] == "**" && other != [] && PartsAreSupported(other)
    requires IsCommonPath(stars, other[1..], segments)
    ensures IsCommonPath(stars, other, walked)
  {
    if other[0] == "**" {
      walked := segments;
    } else {
      var word := SupportedSegmentIsInhabited(other[0]);
      walked := [word] + segments;
      AbsorbSegment(stars, word, segments);
      TakeSegment(other, word, segments);
    }
  }

  lemma MeetAt(left: seq<string>, right: seq<string>, segments: seq<string>) returns (met: seq<string>)
    requires left != [] && right != [] && left[0] != "**" && right[0] != "**"
    requires Shared(left[0], right[0], Alphabet(left[0], right[0]), (0, 0))
    requires IsCommonPath(left[1..], right[1..], segments)
    ensures IsCommonPath(left, right, met)
  {
    var word :| IsOver(word, Alphabet(left[0], right[0])) && Reads(left[0], 0, word) && Reads(right[0], 0, word);
    AlphabetHasNoSlash(left[0], right[0]);
    assert '/' !in word;
    met := [word] + segments;
    TakeSegment(left, word, segments);
    TakeSegment(right, word, segments);
  }

  /** Every way the search finds is walked by an actual path. */
  lemma {:induction false} FoundWayIsCommonPath(left: seq<string>, right: seq<string>, i: nat, j: nat)
    returns (segments: seq<string>)
    requires PartsAreSupported(left) && PartsAreSupported(right) && i <= |left| && j <= |right|
    requires Joinable(left, right, i, j)
    ensures IsCommonPath(left[i..], right[j..], segments)
    decreases |left| - i + |right| - j
  {
    if i == |left| && j == |right| {
      segments := [];
    } else if i < |left| && left[i] == "**" {
      assert left[i..][1..] == left[i + 1..];
      if Joinable(left, right, i + 1, j) {
        segments := FoundWayIsCommonPath(left, right, i + 1, j);
      } else {
        var rest := FoundWayIsCommonPath(left, right, i, j + 1);
        assert right[j..][1..] == right[j + 1..];
        segments := WalkOver(left[i..], right[j..], rest);
      }
    } else if j < |right| && right[j] == "**" {
      assert right[j..][1..] == right[j + 1..];
      if Joinable(left, right, i, j + 1) {
        segments := FoundWayIsCommonPath(left, right, i, j + 1);
      } else {
        var rest := FoundWayIsCommonPath(left, right, i + 1, j);
        assert left[i..][1..] == left[i + 1..];
        segments := WalkOver(right[j..], left[i..], rest);
      }
    } else {
      var rest := FoundWayIsCommonPath(left, right, i + 1, j + 1);
      assert left[i..][1..] == left[i + 1..] && right[j..][1..] == right[j + 1..];
      segments := MeetAt(left[i..], right[j..], rest);
    }
  }

  /** The search decides overlap of supported globs exactly. */
  lemma JoinableIsOverlap(left: seq<string>, right: seq<string>)
    requires PartsAreSupported(left) && PartsAreSupported(right)
    ensures Joinable(left, right, 0, 0) <==> HasCommonPath(left, right)
  {
    assert left[0..] == left && right[0..] == right;
    if Joinable(left, right, 0, 0) {
      var segments := FoundWayIsCommonPath(left, right, 0, 0);
    }
    if HasCommonPath(left, right) {
      var segments :| Text.FreeOf(segments, '/') && MatchesParts(left, segments) && MatchesParts(right, segments);
      CommonPathIsFound(left, right, 0, 0, segments);
    }
  }

  // ----- overlap of glob strings

  lemma {:induction false} SegmentsInheritSupport(pattern: string)
    requires ClassesAreSupported(pattern)
    ensures PartsAreSupported(Text.Split(pattern, '/'))
  {
    var parts := Text.Split(pattern, '/');
    Text.JoinOfSplit(pattern, '/');
    forall k | 0 <= k < |parts| ensures '/' !in parts[k] && IsSupported(parts[k]) {
      var at := Text.PartIsStretch(pattern, '/', k);
      StretchIsSupported(pattern, parts[k], at);
    }
  }

  /** A class that opens and closes inside a stretch of the pattern is the pattern's own class there. */
  lemma StretchIsSupported(pattern: string, part: string, at: nat)
    requires ClassesAreSupported(pattern)
    requires at + |part| <= |pattern| && pattern[at..at + |part|] == part
    ensures IsSupported(part)
  {
    assert forall k :: 0 <= k < |part| ==> part[k] == pattern[at..at + |part|][k] == pattern[at + k];
    forall i | 0 <= i < |part| && OpensClass(part, i)
      ensures IsPlainClass(part[i + 1..Text.Find(part, ']', i + 1)])
    {
      assert SupportedAt(pattern, at + i);
      ClassInStretch(pattern, part, at, i);
    }
  }

  lemma ClassInStretch(pattern: string, part: string, at: nat, i: nat)
    requires at + |part| <= |pattern| && i < |part| && OpensClass(part, i)
    requires forall k :: 0 <= k < |part| ==> part[k] == pattern[at + k]
    ensures Text.Find(pattern, ']', at + i + 1) == at + Text.Find(part, ']', i + 1)
    ensures pattern[at + i + 1..at + Text.Find(part, ']', i + 1)] == part[i + 1..Text.Find(part, ']', i + 1)]
  {
    var closing := Text.Find(part, ']', i + 1);
    assert forall k :: at + i + 1 <= k < at + closing ==> pattern[k] == part[k - at];
    Text.FindIsFirst(pattern, ']', at + i + 1, at + closing);
  }

  lemma EmptyMatchGrows(parts: seq<string>)
    requires parts != [] && MatchesParts(parts, [])
    ensures MatchesParts(parts, ["a"])
  {
    AbsorbSegment(parts, "a", []);
    assert ["a"] + [] == ["a"];
  }

  ghost predicate MatchesBoth(path: string, left: string, right: string) {
    MatchesExpanded(path, left) && MatchesExpanded(path, right)
  }

  /** For supported globs the search says yes exactly when some path matches both. */
  lemma OverlapIsExact(left: string, right: string)
    requires ClassesAreSupported(left) && ClassesAreSupported(right)
    ensures Joinable(Text.Split(left, '/'), Text.Split(right, '/'), 0, 0) <==>
      exists path :: MatchesBoth(path, left, right)
  {
    var leftParts, rightParts := Text.Split(left, '/'), Text.Split(right, '/');
    SegmentsInheritSupport(left);
    SegmentsInheritSupport(right);
    JoinableIsOverlap(leftParts, rightParts);
    if HasCommonPath(leftParts, rightParts) {
      var segments :|
        Text.FreeOf(segments, '/') && MatchesParts(leftParts, segments) && MatchesParts(rightParts, segments);
      if segments == [] {
        EmptyMatchGrows(leftParts);
        EmptyMatchGrows(rightParts);
        segments := ["a"];
      }
      Text.SplitOfJoin(segments, '/');
      assert MatchesBoth(Text.Join(segments, '/'), left, right);
    }
    if exists path :: MatchesBoth(path, left, right) {
      var path :| MatchesBoth(path, left, right);
      Text.JoinOfSplit(path, '/');
      assert HasCommonPath(leftParts, rightParts);
    }
  }

  /** A glob of one segment other than `**` matches only one-segment paths. */
  lemma OneSegmentPath(path: string, pattern: string)
    requires '/' !in pattern && pattern != "**"
    ensures MatchesExpanded(path, pattern) <==> '/' !in path && MatchesSegment(pattern, path)
  {
    Text.SplitOfOne(pattern, '/');
    assert [pattern][1..] == [];
    var segments := Text.Split(path, '/');
    Text.JoinOfSplit(path, '/');
    if '/' !in path {
      Text.SplitOfOne(path, '/');
      assert segments[1..] == [] && segments[0] == path;
      assert MatchesParts([pattern][1..], segments[1..]);
    } else {
      assert |segments| != 1;
      assert !MatchesParts([pattern][1..], segments[1..]);
    }
  }

  /** Every expansion is well-formed and uses supported classes. */
  ghost predicate GlobIsSupported(pattern: string) {
    var expanded := Braces.ExpandBraces(pattern);
    expanded.Ok? && AreSupported(expanded.value)
  }

  /** Some path matches both globs. */
  ghost predicate GlobsOverlap(left: string, right: string) {
    exists path :: IsMatchedByBoth(path, left, right)
  }

  ghost predicate IsMatchedByBoth(path: string, left: string, right: string) {
    MatchesGlob(path, left) == Ok(true) && MatchesGlob(path, right) == Ok(true)
  }

  ghost predicate ExpansionsOverlap(left: seq<string>, right: seq<string>, k: nat, l: nat) {
    k < |left| && l < |right| && exists path :: MatchesBoth(path, left[k], right[l])
  }

  lemma GlobsOverlapByExpansion(left: string, right: string)
    requires Braces.ExpandBraces(left).Ok? && Braces.ExpandBraces(right).Ok?
    ensures var lefts, rights := Braces.ExpandBraces(left).value, Braces.ExpandBraces(right).value;
      GlobsOverlap(left, right) <==> exists k: nat, l: nat :: ExpansionsOverlap(lefts, rights, k, l)
  {
    var lefts, rights := Braces.ExpandBraces(left).value, Braces.ExpandBraces(right).value;
    if GlobsOverlap(left, right) {
      var path :| IsMatchedByBoth(path, left, right);
      var k :| 0 <= k < |lefts| && MatchesExpanded(path, lefts[k]);
      var l :| 0 <= l < |rights| && MatchesExpanded(path, rights[l]);
      assert MatchesBoth(path, lefts[k], rights[l]);
      assert ExpansionsOverlap(lefts, rights, k, l);
    }
    if exists k: nat, l: nat :: ExpansionsOverlap(lefts, rights, k, l) {
      var k: nat, l: nat :| ExpansionsOverlap(lefts, rights, k, l);
      var path :| MatchesBoth(path, lefts[k], rights[l]);
      assert IsMatchedByBoth(path, left, right);
    }
  }

  ghost predicate AreSupported(expansions: seq<string>) {
    forall k :: 0 <= k < |expansions| ==> ClassesAreSupported(expansions[k])
  }

  /** `any` over all pairs of expansions. */
  method AnyExpansionsOverlap(lefts: seq<string>, rights: seq<string>) returns (overlap: bool)
    ensures AreSupported(lefts) && AreSupported(rights) ==>
              (overlap <==> exists k: nat, l: nat :: ExpansionsOverlap(lefts, rights, k, l))
  {
    ghost var supported := AreSupported(lefts) && AreSupported(rights);
    for k := 0 to |lefts|
      invariant supported ==> forall a: nat, l: nat :: a < k ==> !ExpansionsOverlap(lefts, rights, a, l)
    {
      for l := 0 to |rights|
        invariant supported ==> forall b: nat :: b < l ==> !ExpansionsOverlap(lefts, rights, k, b)
      {
        var found := ExpandedPatternsOverlap(lefts[k], rights[l]);
        if supported {
          OverlapIsExact(lefts[k], rights[l]);
          assert found <==> ExpansionsOverlap(lefts, rights, k, l);
        }
        if found {
          return true;
        }
      }
    }
    return false;
  }

  /** Any pair of expansions that overlaps makes the globs overlap. Malformed braces are an error;
      for supported globs the answer is exact. */
  method PatternsOverlap(left: string, right: string) returns (overlap: Result<bool>)
    ensures overlap.Ok? <==> Braces.ExpandBraces(left).Ok? && Braces.ExpandBraces(right).Ok?
    ensures GlobIsSupported(left) && GlobIsSupported(right) ==> (overlap == Ok(true) <==> GlobsOverlap(left, right))
  {
    var lefts := Braces.ExpandBraces(left);
    if lefts.Err? { return Err(lefts.error); }
    var rights := Braces.ExpandBraces(right);
    if rights.Err? { return Err(rights.error); }
    GlobsOverlapByExpansion(left, right);
    var found := AnyExpansionsOverlap(lefts.value, rights.value);
    return Ok(found);
  }
}
