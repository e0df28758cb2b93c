/** One path segment of a glob: its language, and the search that decides whether two segments
    have a word in common. */
module Segments {
  import opened CharClasses
  import Text

  // ----- the language of a segment

  datatype Token = Star | AnyChar | Class(specification: string) | Literal(c: char)

  /** A `[` with a later `]` opens a class; without one it is an ordinary character. */
  predicate OpensClass(pattern: string, i: nat)
    requires i < |pattern|
  {
    pattern[i] == '[' && Text.Find(pattern, ']', i + 1) < |pattern|
  }

  function TokenAt(pattern: string, i: nat): Token
    requires i < |pattern|
  {
    if pattern[i] == '*' then Star
    else if pattern[i] == '?' then AnyChar
    else if OpensClass(pattern, i) then Class(pattern[i + 1..Text.Find(pattern, ']', i + 1)])
    else Literal(pattern[i])
  }

  /** Where the token after the one at `i` starts. */
  function After(pattern: string, i: nat): (j: nat)
    requires i < |pattern|
    ensures i < j <= |pattern|
  {
    if OpensClass(pattern, i) then Text.Find(pattern, ']', i + 1) + 1 else i + 1
  }

  function TokensFrom(pattern: string, i: nat): seq<Token>
    decreases |pattern| - i
  {
    if i >= |pattern| then [] else [TokenAt(pattern, i)] + TokensFrom(pattern, After(pattern, i))
  }

  predicate Fits(token: Token, c: char) {
    match token
    case Star => true
    case AnyChar => true
    case Class(specification) => Denotes(specification, c)
    case Literal(x) => x == c
  }

  /** The words of a token sequence: `*` stands for any run of characters, every other token for
      one character that fits it. */
  predicate Accepts(tokens: seq<Token>, word: string)
    decreases |tokens| + |word|
  {
    if tokens == [] then word == ""
    else if tokens[0] == Star then
      Accepts(tokens[1..], word) || (word != "" && Accepts(tokens, word[1..]))
    else word != "" && Fits(tokens[0], word[0]) && Accepts(tokens[1..], word[1..])
  }

  predicate MatchesSegment(pattern: string, word: string) {
    Accepts(TokensFrom(pattern, 0), word)
  }

  // ----- the position automaton of the source

  /** Positions reachable without reading: the stars that start at `position` may be left. */
  method EpsilonPositions(pattern: string, position: nat) returns (positions: set<nat>)
    ensures positions == Closure(pattern, position)
  {
    var p := position;
    positions := {p};
    while p < |pattern| && pattern[p] == '*'
      invariant position <= p
      invariant p <= position || p <= |pattern|
      invariant StarsBetween(pattern, position, p)
      invariant forall j :: j in positions <==> position <= j <= p
    {
      p := p + 1;
      positions := positions + {p};
    }
    assert forall j: nat :: p < j <= |pattern| ==> !StarsBetween(pattern, position, j) by {
      if p < |pattern| {
        assert pattern[p] != '*';
      }
    }
  }

  predicate StarsBetween(pattern: string, i: nat, j: nat) {
    forall k :: i <= k < j && k < |pattern| ==> pattern[k] == '*'
  }

  function Closure(pattern: string, i: nat): set<nat> {
    {i} + set j: nat | i <= j <= |pattern| && StarsBetween(pattern, i, j)
  }

  function Transitions(pattern: string, position: nat, c: char): set<nat> {
    if position >= |pattern| then {}
    else if pattern[position] == '*' then {position}
    else if pattern[position] == '?' then {position + 1}
    else if OpensClass(pattern, position) then
      var closing := Text.Find(pattern, ']', position + 1);
      if Denotes(pattern[position + 1..closing], c) then {closing + 1} else {}
    else if pattern[position] == c then {position + 1}
    else {}
  }

  /** The word is read from position `i` on. */
  predicate Reads(pattern: string, i: nat, word: string) {
    Accepts(TokensFrom(pattern, i), word)
  }

  lemma StarReads(pattern: string, i: nat, word: string)
    requires i < |pattern| && pattern[i] == '*'
    ensures Reads(pattern, i, word) <==> Reads(pattern, i + 1, word) || (word != "" && Reads(pattern, i, word[1..]))
  {
    assert TokensFrom(pattern, i)[1..] == TokensFrom(pattern, i + 1);
  }

  lemma TokenReads(pattern: string, i: nat, word: string)
    requires i < |pattern| && pattern[i] != '*'
    ensures Reads(pattern, i, word) <==>
              word != "" && Fits(TokenAt(pattern, i), word[0]) && Reads(pattern, After(pattern, i), word[1..])
  {
    assert TokensFrom(pattern, i)[1..] == TokensFrom(pattern, After(pattern, i));
  }

  lemma {:induction false} ClosureReads(pattern: string, i: nat, j: nat, word: string)
    requires j in Closure(pattern, i) && Reads(pattern, j, word)
    ensures Reads(pattern, i, word)
    decreases j - i
  {
    if i < j {
      assert pattern[i] == '*';
      ClosureReads(pattern, i + 1, j, word);
      StarReads(pattern, i, word);
    }
  }

  lemma StepReads(pattern: string, i: nat, c: char, j: nat, word: string)
    requires j in Transitions(pattern, i, c) && Reads(pattern, j, word)
    ensures Reads(pattern, i, [c] + word)
  {
    var longer := [c] + word;
    assert longer[0] == c && longer[1..] == word;
    if pattern[i] == '*' {
      StarReads(pattern, i, longer);
    } else {
      TransitionTakesToken(pattern, i, c, j);
      TokenReads(pattern, i, longer);
    }
  }

  lemma TransitionTakesToken(pattern: string, i: nat, c: char, j: nat)
    requires i < |pattern| && pattern[i] != '*' && j in Transitions(pattern, i, c)
    ensures Fits(TokenAt(pattern, i), c) && j == After(pattern, i)
  {
  }

  /** The empty word is read exactly where only stars are left. */
  lemma {:induction false} EmptyWordReads(pattern: string, i: nat)
    requires i <= |pattern|
    ensures Reads(pattern, i, "") <==> |pattern| in Closure(pattern, i)
    decreases |pattern| - i
  {
    if i < |pattern| {
      if pattern[i] == '*' {
        StarReads(pattern, i, "");
        EmptyWordReads(pattern, i + 1);
        ClosureTail(pattern, i);
      } else {
        TokenReads(pattern, i, "");
      }
    }
  }

  lemma ClosureTail(pattern: string, i: nat)
    requires i < |pattern| && pattern[i] == '*'
    ensures Closure(pattern, i) == {i} + Closure(pattern, i + 1)
  {
    forall j: nat ensures j in Closure(pattern, i) <==> j == i || j in Closure(pattern, i + 1) {
      if i < j && StarsBetween(pattern, i + 1, j) {
        assert StarsBetween(pattern, i, j);
      }
    }
  }

  /** Reading a character: leave some stars, then take one transition. */
  lemma {:induction false} ReadsStep(pattern: string, i: nat, c: char, word: string) returns (k: nat, j: nat)
    requires i <= |pattern| && Reads(pattern, i, [c] + word)
    ensures k in Closure(pattern, i) && j in Transitions(pattern, k, c)
    ensures Reads(pattern, j, word)
    decreases |pattern| - i
  {
    assert ([c] + word)[1..] == word;
    if pattern[i] != '*' {
      TokenReads(pattern, i, [c] + word);
      k, j := i, After(pattern, i);
    } else {
      StarReads(pattern, i, [c] + word);
      if Reads(pattern, i, word) {
        k, j := i, i;
      } else {
        k, j := ReadsStep(pattern, i + 1, c, word);
        ClosureTail(pattern, i);
      }
    }
  }

  lemma TransitionsStayInside(pattern: string, i: nat, c: char)
    ensures forall j :: j in Transitions(pattern, i, c) ==> i <= j <= |pattern|
  {
  }

  lemma ClosureOfClosure(pattern: string, i: nat, j: nat)
    requires j in Closure(pattern, i)
    ensures Closure(pattern, j) <= Closure(pattern, i)
  {
    forall k | k in Closure(pattern, j) ensures k in Closure(pattern, i) {
      assert StarsBetween(pattern, i, k);
    }
  }

  // ----- token boundaries

  /** The positions at which a token starts, and the end. */
  ghost predicate IsBoundary(pattern: string, from: nat, i: nat)
    decreases |pattern| - from
  {
    i == from || (from < |pattern| && IsBoundary(pattern, After(pattern, from), i))
  }

  lemma {:induction false} BoundaryStep(pattern: string, from: nat, i: nat)
    requires IsBoundary(pattern, from, i) && i < |pattern|
    ensures IsBoundary(pattern, from, After(pattern, i))
    decreases |pattern| - from
  {
    if i != from {
      BoundaryStep(pattern, After(pattern, from), i);
    } else {
      assert IsBoundary(pattern, After(pattern, i), After(pattern, i));
    }
  }

  /** The automaton never enters a class: from a token boundary it only reaches token boundaries. */
  lemma AutomatonKeepsBoundaries(pattern: string, i: nat, c: char, j: nat)
    requires IsBoundary(pattern, 0, i)
    requires j in Transitions(pattern, i, c) || j in Closure(pattern, i)
    ensures IsBoundary(pattern, 0, j)
  {
    if j in Closure(pattern, i) {
      ClosureKeepsBoundaries(pattern, i, j);
    } else {
      BoundaryStep(pattern, 0, i);
    }
  }

  lemma {:induction false} ClosureKeepsBoundaries(pattern: string, i: nat, j: nat)
    requires IsBoundary(pattern, 0, i) && j in Closure(pattern, i)
    ensures IsBoundary(pattern, 0, j)
    decreases j - i
  {
    if i < j {
      assert pattern[i] == '*';
      BoundaryStep(pattern, 0, i);
      ClosureKeepsBoundaries(pattern, i + 1, j);
    }
  }

  // ----- the search over pairs of positions

  type State = (nat, nat)

  /** Printable ASCII without `/`, and the characters of both patterns other than the glob syntax. */
  function Alphabet(left: string, right: string): set<char> {
    (set c: char | IsPathAscii(c)) + (set c | c in left + right && c !in "/*?[]!^-")
  }

  predicate IsPathAscii(c: char) {
    ' ' <= c <= '~' && c != '/'
  }

  predicate IsOver(word: string, letters: set<char>) {
    forall k :: 0 <= k < |word| ==> word[k] in letters
  }

  /** Some word over the letters is read from both positions. */
  ghost predicate Shared(left: string, right: string, letters: set<char>, s: State) {
    exists word :: IsOver(word, letters) && Reads(left, s.0, word) && Reads(right, s.1, word)
  }

  ghost predicate InGrid(left: string, right: string, s: State) {
    s.0 <= |left| && s.1 <= |right|
  }

  ghost function Grid(left: string, right: string): set<State> {
    set i: nat, j: nat | 0 <= i <= |left| && 0 <= j <= |right| :: (i, j)
  }

  ghost predicate IsStarPair(left: string, right: string, s: State, t: State) {
    t.0 in Closure(left, s.0) && t.1 in Closure(right, s.1)
  }

  ghost predicate IsSuccessor(left: string, right: string, s: State, c: char, t: State) {
    exists i, j ::
      i in Transitions(left, s.0, c) && j in Transitions(right, s.1, c) && IsStarPair(left, right, (i, j), t)
  }

  ghost predicate ClosedUnderStars(left: string, right: string, known: iset<State>) {
    forall s, t :: s in known && IsStarPair(left, right, s, t) ==> t in known
  }

  ghost predicate Explored(left: string, right: string, letters: set<char>, s: State, known: iset<State>) {
    forall c, t :: c in letters && IsSuccessor(left, right, s, c, t) ==> t in known
  }

  lemma StarPairShares(left: string, right: string, letters: set<char>, s: State, t: State)
    requires IsStarPair(left, right, s, t) && Shared(left, right, letters, t)
    ensures Shared(left, right, letters, s)
  {
    var word :| IsOver(word, letters) && Reads(left, t.0, word) && Reads(right, t.1, word);
    ClosureReads(left, s.0, t.0, word);
    ClosureReads(right, s.1, t.1, word);
  }

  /** Searching forward is sound: a shared word of a successor extends to one of the state. */
  lemma SuccessorShares(left: string, right: string, letters: set<char>, s: State, c: char, t: State)
    requires c in letters && IsSuccessor(left, right, s, c, t) && Shared(left, right, letters, t)
    ensures Shared(left, right, letters, s)
  {
    var i, j :| i in Transitions(left, s.0, c) && j in Transitions(right, s.1, c) && IsStarPair(left, right, (i, j), t);
    StarPairShares(left, right, letters, (i, j), t);
    var word :| IsOver(word, letters) && Reads(left, i, word) && Reads(right, j, word);
    StepReads(left, s.0, c, i, word);
    StepReads(right, s.1, c, j, word);
    assert IsOver([c] + word, letters);
  }

  /** Searching forward is complete: a set of states that is closed under stars and letters and
      misses the accepting state holds no state with a shared word. */
  lemma {:induction false} ClosedSetSharesNothing(
    left: string, right: string, letters: set<char>, known: iset<State>, s: State, word: string)
    requires ClosedUnderStars(left, right, known)
    requires forall t :: t in known ==> InGrid(left, right, t) && Explored(left, right, letters, t, known)
    requires (|left|, |right|) !in known
    requires s in known && IsOver(word, letters)
    ensures !(Reads(left, s.0, word) && Reads(right, s.1, word))
    decreases |word|
  {
    if Reads(left, s.0, word) && Reads(right, s.1, word) {
      if word == "" {
        EmptyWordReads(left, s.0);
        EmptyWordReads(right, s.1);
        assert IsStarPair(left, right, s, (|left|, |right|));
      } else {
        assert word == [word[0]] + word[1..];
        var t := StepStaysKnown(left, right, letters, known, s, word[0], word[1..]);
        ClosedSetSharesNothing(left, right, letters, known, t, word[1..]);
      }
    }
  }

  /** From a known pair, reading a letter on both sides leads to a known pair. */
  lemma StepStaysKnown(
    left: string, right: string, letters: set<char>, known: iset<State>, s: State, c: char, rest: string)
    returns (t: State)
    requires ClosedUnderStars(left, right, known)
    requires s in known && InGrid(left, right, s) && c in letters
    requires forall t :: t in known ==> Explored(left, right, letters, t, known)
    requires Reads(left, s.0, [c] + rest) && Reads(right, s.1, [c] + rest)
    ensures t in known && Reads(left, t.0, rest) && Reads(right, t.1, rest)
  {
    var k, i := ReadsStep(left, s.0, c, rest);
    var l, j := ReadsStep(right, s.1, c, rest);
    t := (i, j);
    assert IsStarPair(left, right, s, (k, l));
    assert IsStarPair(left, right, t, t);
    assert IsSuccessor(left, right, (k, l), c, t);
    assert Explored(left, right, letters, (k, l), known);
  }

  /** `pending.extend` over a set, whose order Python leaves open. */
  method Extend(pending: seq<State>, states: set<State>) returns (extended: seq<State>)
    ensures forall s :: s in extended <==> s in pending || s in states
  {
    extended := pending;
    var rest := states;
    while rest != {}
      invariant rest <= states
      invariant forall s :: s in extended <==> s in pending || s in states - rest
      decreases rest
    {
      var s :| s in rest;
      extended := extended + [s];
      rest := rest - {s};
    }
  }

  /** The star pairs of one pair of positions, appended to the queue. */
  method ExtendWithClosures(left: string, right: string, i: nat, j: nat, pending: seq<State>)
    returns (extended: seq<State>)
    ensures forall t :: t in extended <==> t in pending || IsStarPair(left, right, (i, j), t)
  {
    var lefts := EpsilonPositions(left, i);
    var rights := EpsilonPositions(right, j);
    var states: set<State> := set a, b | a in lefts && b in rights :: (a, b);
    extended := Extend(pending, states);
    forall t: State ensures t in states <==> IsStarPair(left, right, (i, j), t) {
      assert t == (t.0, t.1);
    }
  }

  method ReadLetter(left: string, right: string, state: State, c: char, pending: seq<State>)
    returns (extended: seq<State>)
    ensures forall t :: t in extended <==> t in pending || IsSuccessor(left, right, state, c, t)
  {
    extended := pending;
    var lefts, rights := Transitions(left, state.0, c), Transitions(right, state.1, c);
    if lefts != {} && rights != {} {
      var i :| i in lefts;
      var j :| j in rights;
      SingleTransition(left, state.0, c, i);
      SingleTransition(right, state.1, c, j);
      extended := ExtendWithClosures(left, right, i, j, pending);
    }
  }

  lemma SingleTransition(pattern: string, i: nat, c: char, j: nat)
    requires j in Transitions(pattern, i, c)
    ensures Transitions(pattern, i, c) == {j}
  {
  }

  method ReadLetters(left: string, right: string, letters: set<char>, state: State, pending: seq<State>)
    returns (extended: seq<State>)
    ensures forall t :: t in extended <==>
      t in pending || exists c :: c in letters && IsSuccessor(left, right, state, c, t)
  {
    extended := pending;
    var rest := letters;
    while rest != {}
      invariant rest <= letters
      invariant forall t :: t in extended <==>
        t in pending || exists c :: c in letters - rest && IsSuccessor(left, right, state, c, t)
      decreases rest
    {
      var c :| c in rest;
      ghost var before := extended;
      extended := ReadLetter(left, right, state, c, extended);
      rest := rest - {c};
      forall t
        ensures t in extended <==>
          t in pending || exists d :: d in letters - rest && IsSuccessor(left, right, state, d, t)
      {
        if IsSuccessor(left, right, state, c, t) {
          assert c in letters - rest;
        }
      }
    }
  }

  ghost function Known(visited: set<State>, pending: seq<State>): iset<State> {
    iset s | s in visited || s in pending
  }

  /** What the search keeps: every state it knows is in the grid and leads back to the start, the
      known states are closed under stars, and visited ones are explored and not accepting. */
  ghost predicate SearchInvariant(
    left: string, right: string, letters: set<char>, visited: set<State>, pending: seq<State>) {
    var known := Known(visited, pending);
    && (0, 0) in known
    && (forall s :: s in known ==> InGrid(left, right, s))
    && (forall s :: s in known && Shared(left, right, letters, s) ==> Shared(left, right, letters, (0, 0)))
    && ClosedUnderStars(left, right, known)
    && (forall s :: s in visited ==> Explored(left, right, letters, s, known))
    && (|left|, |right|) !in visited
  }

  lemma SearchStarts(left: string, right: string, letters: set<char>, pending: seq<State>)
    requires forall t :: t in pending <==> IsStarPair(left, right, (0, 0), t)
    ensures SearchInvariant(left, right, letters, {}, pending)
  {
    forall s | s in pending && Shared(left, right, letters, s) ensures Shared(left, right, letters, (0, 0)) {
      StarPairShares(left, right, letters, (0, 0), s);
    }
    forall s, t | s in pending && IsStarPair(left, right, s, t) ensures t in pending {
      ClosureOfClosure(left, 0, s.0);
      ClosureOfClosure(right, 0, s.1);
    }
  }

  lemma SearchSkips(left: string, right: string, letters: set<char>, visited: set<State>, pending: seq<State>)
    requires pending != [] && pending[0] in visited
    requires SearchInvariant(left, right, letters, visited, pending)
    ensures SearchInvariant(left, right, letters, visited, pending[1..])
  {
    assert Known(visited, pending) == Known(visited, pending[1..]);
  }

  lemma SearchExpands(
    left: string, right: string, letters: set<char>, visited: set<State>, pending: seq<State>, extended: seq<State>)
    requires pending != [] && pending[0] != (|left|, |right|)
    requires SearchInvariant(left, right, letters, visited, pending)
    requires forall t :: t in extended <==>
      t in pending[1..] || exists c :: c in letters && IsSuccessor(left, right, pending[0], c, t)
    ensures SearchInvariant(left, right, letters, visited + {pending[0]}, extended)
  {
    var s := pending[0];
    var known, grown := Known(visited, pending), Known(visited + {s}, extended);
    assert known <= grown;
    forall t | t in grown && t !in known
      ensures InGrid(left, right, t)
      ensures Shared(left, right, letters, t) ==> Shared(left, right, letters, (0, 0))
    {
      var c :| c in letters && IsSuccessor(left, right, s, c, t);
      SuccessorInGrid(left, right, s, c, t);
      if Shared(left, right, letters, t) {
        SuccessorShares(left, right, letters, s, c, t);
      }
    }
    forall t, u | t in grown && IsStarPair(left, right, t, u) ensures u in grown {
      if t !in known {
        var c :| c in letters && IsSuccessor(left, right, s, c, t);
        StarPairOfSuccessor(left, right, s, c, t, u);
      }
    }
  }

  lemma SuccessorInGrid(left: string, right: string, s: State, c: char, t: State)
    requires IsSuccessor(left, right, s, c, t)
    ensures InGrid(left, right, t)
  {
    var i, j :| i in Transitions(left, s.0, c) && j in Transitions(right, s.1, c) && IsStarPair(left, right, (i, j), t);
    TransitionsStayInside(left, s.0, c);
    TransitionsStayInside(right, s.1, c);
  }

  lemma StarPairOfSuccessor(left: string, right: string, s: State, c: char, t: State, u: State)
    requires IsSuccessor(left, right, s, c, t) && IsStarPair(left, right, t, u)
    ensures IsSuccessor(left, right, s, c, u)
  {
    var i, j :| i in Transitions(left, s.0, c) && j in Transitions(right, s.1, c) && IsStarPair(left, right, (i, j), t);
    ClosureOfClosure(left, i, t.0);
    ClosureOfClosure(right, j, t.1);
    assert IsStarPair(left, right, (i, j), u);
  }

  lemma SearchEnds(left: string, right: string, letters: set<char>, visited: set<State>)
    requires SearchInvariant(left, right, letters, visited, [])
    ensures !Shared(left, right, letters, (0, 0))
  {
    var known := Known(visited, []);
    forall word | IsOver(word, letters) ensures !(Reads(left, 0, word) && Reads(right, 0, word)) {
      ClosedSetSharesNothing(left, right, letters, known, (0, 0), word);
    }
  }

  lemma AcceptingStateShares(left: string, right: string, letters: set<char>)
    ensures Shared(left, right, letters, (|left|, |right|))
  {
    assert IsOver("", letters) && Reads(left, |left|, "") && Reads(right, |right|, "");
  }

  /** The worklist search terminates and decides whether the two segments share a word over the
      finite alphabet. */
  method SegmentPatternsOverlap(left: string, right: string) returns (overlap: bool)
    ensures overlap <==> Shared(left, right, Alphabet(left, right), (0, 0))
  {
    var alphabet := Alphabet(left, right);
    var pending := ExtendWithClosures(left, right, 0, 0, []);
    var visited: set<State> := {};
    SearchStarts(left, right, alphabet, pending);
    while pending != []
      invariant visited <= Grid(left, right)
      invariant SearchInvariant(left, right, alphabet, visited, pending)
      decreases Grid(left, right) - visited, |pending|
    {
      var state := pending[0];
      if state in visited {
        SearchSkips(left, right, alphabet, visited, pending);
        pending := pending[1..];
      } else {
        if state.0 == |left| && state.1 == |right| {
          AcceptingStateShares(left, right, alphabet);
          assert state in Known(visited, pending);
          return true;
        }
        var extended := ReadLetters(left, right, alphabet, state, pending[1..]);
        SearchExpands(left, right, alphabet, visited, pending, extended);
        assert state in Known(visited, pending) && state in Grid(left, right);
        visited, pending := visited + {state}, extended;
      }
    }
    SearchEnds(left, right, alphabet, visited);
    return false;
  }
}
