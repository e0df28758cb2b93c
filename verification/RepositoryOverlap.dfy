/** Overlap on the paths a repository can hold. The overlap search looks at all paths; a repository path
    has no part `.` or `..` and no glob syntax, backslash, control or format character. */
module RepositoryOverlap {
  import opened CharClasses
  import opened FiniteAlphabet
  import opened Paths
  import opened Repository
  import opened Segments
  import Text

  // ----- repository paths, word by word

  predicate IsPlainChar(c: char) {
    c != '/' && c != '\\' && c !in "*?[]{}" && !IsControlOrFormat(c)
  }

  ghost predicate IsPlainWord(word: string) {
    IsPlainPart(word) && forall k :: 0 <= k < |word| ==> IsPlainChar(word[k])
  }

  ghost predicate ArePlainWords(words: seq<string>) {
    forall k :: 0 <= k < |words| ==> IsPlainWord(words[k])
  }

  lemma {:induction false} CharsOfJoin(parts: seq<string>, k: nat) returns (n: nat, l: nat)
    requires k < |Text.Join(parts, '/')| && Text.Join(parts, '/')[k] != '/'
    ensures n < |parts| && l < |parts[n]| && parts[n][l] == Text.Join(parts, '/')[k]
    decreases |parts|
  {
    if k < |parts[0]| {
      n, l := 0, k;
    } else {
      var m, inner := CharsOfJoin(parts[1..], k - |parts[0]| - 1);
      n, l := m + 1, inner;
    }
  }

  lemma PartsOfRepositoryPath(path: string)
    requires IsRepositoryRelative(path, false)
    ensures ArePlainWords(Text.Split(path, '/'))
  {
    var parts := Text.Split(path, '/');
    Text.JoinOfSplit(path, '/');
    forall n, l | 0 <= n < |parts| && 0 <= l < |parts[n]| ensures IsPlainChar(parts[n][l]) {
      var at := Text.PartIsStretch(path, '/', n);
      assert parts[n][l] == path[at..at + |parts[n]|][l] == path[at + l];
      assert parts[n][l] in path;
    }
  }

  lemma PlainWordsMakeRepositoryPath(path: string)
    requires ArePlainWords(Text.Split(path, '/'))
    ensures IsRepositoryRelative(path, false)
  {
    var parts := Text.Split(path, '/');
    Text.JoinOfSplit(path, '/');
    assert IsPlainWord(parts[0]);
    forall k | 0 <= k < |path| ensures path[k] == '/' || IsPlainChar(path[k]) {
      if path[k] != '/' {
        var n, l := CharsOfJoin(parts, k);
        assert IsPlainWord(parts[n]);
      }
    }
    SlashIsNoControl();
    assert forall k :: 0 <= k < |parts| ==> IsPlainWord(parts[k]);
  }

  lemma SlashIsNoControl()
    ensures !IsControlOrFormat('/') && '/' !in "*?[]{}"
  {
  }

  // ----- the finite alphabet suffices for plain words, too

  /** A part of a canonical glob: supported classes, and nothing that cannot be written in a path. */
  ghost predicate IsCanonicalPart(part: string) {
    '/' !in part && IsSupported(part) && forall k :: 0 <= k < |part| ==> !IsControlOrFormat(part[k])
  }

  ghost predicate AreCanonicalParts(parts: seq<string>) {
    forall k :: 0 <= k < |parts| ==> IsCanonicalPart(parts[k])
  }

  /** All of printable ASCII but `/`, and beyond it only characters a path may contain. */
  ghost predicate AreCanonicalLetters(letters: set<char>) {
    && (forall c :: IsPathAscii(c) ==> c in letters)
    && (forall c :: c in letters && c > '~' ==> IsPlainChar(c))
  }

  lemma BeyondAsciiIsNoSyntax(c: char)
    requires c > '~' && !IsControlOrFormat(c)
    ensures IsPlainChar(c)
  {
    assert forall d :: d in "*?[]{}" ==> d <= '~';
  }

  lemma TildeIsPlain()
    ensures IsPlainChar('~') && IsPlainChar('a') && IsPathAscii('~')
  {
  }

  lemma PlainCharsLieBeyondAscii(c: char, letters: set<char>)
    requires IsPlainChar(c) && c !in letters && AreCanonicalLetters(letters)
    ensures c > '~'
  {
    LowIsControl(c);
    assert !IsPathAscii(c);
  }

  lemma LowIsControl(c: char)
    ensures c < ' ' ==> IsControlOrFormat(c)
  {
    assert CONTROL_AND_FORMAT[0] == CodeRange(0x0, 0x1F);
  }

  /** Two classes that share a character beyond ASCII share one that a path may contain and the letters hold. */
  lemma SharedPlainMember(left: string, right: string, c: char, letters: set<char>) returns (d: char)
    requires !IsNegated(left) && !IsNegated(right) && Denotes(left, c) && Denotes(right, c) && c > '~'
    requires AreCanonicalLetters(letters) && forall x :: x in left || x in right ==> x in letters
    ensures Denotes(left, d) && Denotes(right, d) && d in letters && IsPlainChar(d) && d != '.'
  {
    var i :| 0 <= i < |Items(left)| && Items(left)[i].lo <= c <= Items(left)[i].hi;
    var j :| 0 <= j < |Items(right)| && Items(right)[j].lo <= c <= Items(right)[j].hi;
    var a, b := Items(left)[i], Items(right)[j];
    var lo := if a.lo >= b.lo then a.lo else b.lo;
    TildeIsPlain();
    d := if lo > '~' then lo else '~';
    assert a.lo <= d <= a.hi && b.lo <= d <= b.hi;
    assert Holds(Items(left), d) && Holds(Items(right), d);
  }

  /** Two tokens that fit a common plain character fit a common plain letter; only `.` becomes `.`. */
  lemma CommonPlainLetter(left: Token, right: Token, c: char, letters: set<char>) returns (d: char)
    requires IsWrittenIn(left, letters) && IsWrittenIn(right, letters) && AreCanonicalLetters(letters)
    requires Fits(left, c) && Fits(right, c) && IsPlainChar(c)
    ensures d in letters && Fits(left, d) && Fits(right, d) && IsPlainChar(d) && (d == '.' <==> c == '.')
  {
    if c in letters {
      d := c;
    } else {
      PlainCharsLieBeyondAscii(c, letters);
      TildeIsPlain();
      if left.Class? && right.Class? {
        d := SharedPlainMember(left.specification, right.specification, c, letters);
      } else if left.Class? {
        d := SharedPlainMember(left.specification, left.specification, c, letters);
      } else if right.Class? {
        d := SharedPlainMember(right.specification, right.specification, c, letters);
      } else {
        d := '~';
      }
    }
  }

  ghost predicate IsRespelling(spelled: string, word: string) {
    && |spelled| == |word|
    && forall k :: 0 <= k < |word| ==> IsPlainChar(spelled[k]) && (spelled[k] == '.' <==> word[k] == '.')
  }

  lemma RespellingIsPlain(spelled: string, word: string)
    requires IsRespelling(spelled, word) && IsPlainWord(word)
    ensures IsPlainWord(spelled)
  {
    assert spelled == "." <==> word == ".";
    assert spelled == ".." <==> word == "..";
  }

  lemma {:induction false} RespellPlainly(left: seq<Token>, right: seq<Token>, word: string, letters: set<char>)
    returns (spelled: string)
    requires AreWrittenIn(left, letters) && AreWrittenIn(right, letters) && AreCanonicalLetters(letters)
    requires BothAccept(left, right, word) && forall k :: 0 <= k < |word| ==> IsPlainChar(word[k])
    ensures BothAccept(left, right, spelled) && IsOver(spelled, letters) && IsRespelling(spelled, word)
    decreases |word|, |left| + |right|
  {
    if left != [] && left[0] == Star && Accepts(left[1..], word) {
      spelled := RespellPlainly(left[1..], right, word, letters);
    } else if right != [] && right[0] == Star && Accepts(right[1..], word) {
      spelled := RespellPlainly(left, right[1..], word, letters);
    } else if word == "" {
      spelled := "";
    } else {
      var leftRest := if left[0] == Star then left else left[1..];
      var rightRest := if right[0] == Star then right else right[1..];
      var d := CommonPlainLetter(left[0], right[0], word[0], letters);
      var rest := RespellPlainly(leftRest, rightRest, word[1..], letters);
      TakeAccepts(left, d, leftRest, rest);
      TakeAccepts(right, d, rightRest, rest);
      spelled := [d] + rest;
    }
  }

  /** Some plain word over the finite alphabet matches both parts. */
  ghost predicate MeetPlainly(left: string, right: string) {
    exists word :: IsMeeting(left, right, word) && IsOver(word, Alphabet(left, right))
  }

  ghost predicate IsMeeting(left: string, right: string, word: string) {
    IsPlainWord(word) && MatchesSegment(left, word) && MatchesSegment(right, word)
  }

  lemma AlphabetIsCanonical(left: string, right: string)
    requires IsCanonicalPart(left) && IsCanonicalPart(right)
    ensures AreCanonicalLetters(Alphabet(left, right))
  {
    forall c | c in Alphabet(left, right) && c > '~' ensures IsPlainChar(c) {
      assert c in left || c in right;
      BeyondAsciiIsNoSyntax(c);
    }
  }

  lemma PlainAlphabetSuffices(left: string, right: string, word: string)
    requires IsCanonicalPart(left) && IsCanonicalPart(right) && IsMeeting(left, right, word)
    ensures MeetPlainly(left, right)
  {
    var letters := Alphabet(left, right);
    AlphabetHolds(left, right);
    AlphabetIsCanonical(left, right);
    TokensAreWritten(left, 0, letters);
    TokensAreWritten(right, 0, letters);
    var spelled := RespellPlainly(TokensFrom(left, 0), TokensFrom(right, 0), word, letters);
    RespellingIsPlain(spelled, word);
    assert IsMeeting(left, right, spelled);
  }

  // ----- joining parts by plain words

  ghost predicate HasPlainWord(part: string) {
    MeetPlainly(part, part)
  }

  /** The recursive question of the overlap search, asked of plain words: `**` may walk over a part only
      when a plain word matches that part, and two parts meet only in a plain word. */
  ghost predicate PlainlyJoinable(left: seq<string>, right: seq<string>, i: nat, j: nat)
    requires i <= |left| && j <= |right|
    decreases |left| - i + |right| - j
  {
    if i == |left| && j == |right| then true
    else if i < |left| && left[i] == "**" then
      PlainlyJoinable(left, right, i + 1, j) ||
        (j < |right| && CanWalkOver(right[j]) && PlainlyJoinable(left, right, i, j + 1))
    else if j < |right| && right[j] == "**" then
      PlainlyJoinable(left, right, i, j + 1) ||
        (i < |left| && CanWalkOver(left[i]) && PlainlyJoinable(left, right, i + 1, j))
    else if i == |left| || j == |right| then false
    else MeetPlainly(left[i], right[j]) && PlainlyJoinable(left, right, i + 1, j + 1)
  }

  ghost predicate CanWalkOver(part: string) {
    part == "**" || HasPlainWord(part)
  }

  ghost predicate IsPlainCommonPath(left: seq<string>, right: seq<string>, words: seq<string>) {
    ArePlainWords(words) && MatchesParts(left, words) && MatchesParts(right, words)
  }

  /** A part that matches a plain word can be walked over. */
  lemma WalkedIsInhabited(part: string, word: string)
    requires IsCanonicalPart(part) && IsPlainWord(word) && MatchesSegment(part, word)
    ensures CanWalkOver(part)
  {
    assert IsMeeting(part, part, word);
    PlainAlphabetSuffices(part, part, word);
  }

  lemma {:induction false} PlainPathIsFound(left: seq<string>, right: seq<string>, i: nat, j: nat, words: seq<string>)
    requires AreCanonicalParts(left) && AreCanonicalParts(right) && i <= |left| && j <= |right|
    requires IsPlainCommonPath(left[i..], right[j..], words)
    ensures PlainlyJoinable(left, right, i, j)
    decreases |words|, |left| - i + |right| - j
  {
    if i < |left| && left[i] == "**" {
      assert left[i..][1..] == left[i + 1..];
      if MatchesParts(left[i + 1..], words) {
        PlainPathIsFound(left, right, i + 1, j, words);
      } else {
        assert right[j..][1..] == right[j + 1..];
        if right[j] == "**" && MatchesParts(right[j + 1..], words) {
          PlainPathIsFound(left, right, i, j + 1, words);
        } else if right[j] == "**" {
          PlainPathIsFound(left, right, i, j, words[1..]);
        } else {
          WalkedIsInhabited(right[j], words[0]);
          PlainPathIsFound(left, right, i, j + 1, words[1..]);
        }
      }
    } else if j < |right| && right[j] == "**" {
      assert right[j..][1..] == right[j + 1..];
      if MatchesParts(right[j + 1..], words) {
        PlainPathIsFound(left, right, i, j + 1, words);
      } else {
        assert left[i..][1..] == left[i + 1..];
        WalkedIsInhabited(left[i], words[0]);
        PlainPathIsFound(left, right, i + 1, j, words[1..]);
      }
    } else if i < |left| && j < |right| {
      assert left[i..][1..] == left[i + 1..] && right[j..][1..] == right[j + 1..];
      PlainAlphabetSuffices(left[i], right[j], words[0]);
      PlainPathIsFound(left, right, i + 1, j + 1, words[1..]);
    }
  }

  lemma WalkOverPlainly(stars: seq<string>, other: seq<string>, words: seq<string>) returns (walked: seq<string>)
    requires stars != [] && stars[0] == "**" && other != [] && CanWalkOver(other[0])
    requires IsPlainCommonPath(stars, other[1..], words)
    ensures IsPlainCommonPath(stars, other, walked)
  {
    if other[0] == "**" {
      walked := words;
    } else {
      var word :| IsMeeting(other[0], other[0], word) && IsOver(word, Alphabet(other[0], other[0]));
      walked := [word] + words;
      AbsorbSegment(stars, word, words);
      TakeSegment(other, word, words);
    }
  }

  lemma MeetInPlainWord(left: seq<string>, right: seq<string>, words: seq<string>) returns (met: seq<string>)
    requires left != [] && right != [] && left[0] != "**" && right[0] != "**" && MeetPlainly(left[0], right[0])
    requires IsPlainCommonPath(left[1..], right[1..], words)
    ensures IsPlainCommonPath(left, right, met)
  {
    var word :| IsMeeting(left[0], right[0], word) && IsOver(word, Alphabet(left[0], right[0]));
    met := [word] + words;
    TakeSegment(left, word, words);
    TakeSegment(right, word, words);
  }

  lemma {:induction false} PlainWayIsWalked(left: seq<string>, right: seq<string>, i: nat, j: nat)
    returns (words: seq<string>)
    requires i <= |left| && j <= |right| && PlainlyJoinable(left, right, i, j)
    ensures IsPlainCommonPath(left[i..], right[j..], words)
    decreases |left| - i + |right| - j
  {
    if i == |left| && j == |right| {
      words := [];
    } else if i < |left| && left[i] == "**" {
      assert left[i..][1..] == left[i + 1..];
      if PlainlyJoinable(left, right, i + 1, j) {
        words := PlainWayIsWalked(left, right, i + 1, j);
      } else {
        var rest := PlainWayIsWalked(left, right, i, j + 1);
        assert right[j..][1..] == right[j + 1..];
        words := WalkOverPlainly(left[i..], right[j..], rest);
      }
    } else if j < |right| && right[j] == "**" {
      assert right[j..][1..] == right[j + 1..];
      if PlainlyJoinable(left, right, i, j + 1) {
        words := PlainWayIsWalked(left, right, i, j + 1);
      } else {
        var rest := PlainWayIsWalked(left, right, i + 1, j);
        assert left[i..][1..] == left[i + 1..];
        words := WalkOverPlainly(right[j..], left[i..], rest);
      }
    } else {
      var rest := PlainWayIsWalked(left, right, i + 1, j + 1);
      assert left[i..][1..] == left[i + 1..] && right[j..][1..] == right[j + 1..];
      words := MeetInPlainWord(left[i..], right[j..], rest);
    }
  }

  // ----- globs

  /** A glob the validator accepts as an expansion. */
  ghost predicate IsCanonicalGlob(pattern: string) {
    IsRepositoryRelative(pattern, true) && ClassesAreSupported(pattern)
  }

  lemma PartsAreCanonical(pattern: string)
    requires IsCanonicalGlob(pattern)
    ensures AreCanonicalParts(Text.Split(pattern, '/'))
  {
    var parts := Text.Split(pattern, '/');
    SegmentsInheritSupport(pattern);
    forall n, l | 0 <= n < |parts| && 0 <= l < |parts[n]| ensures !IsControlOrFormat(parts[n][l]) {
      var at := Text.PartIsStretch(pattern, '/', n);
      assert parts[n][l] == pattern[at..at + |parts[n]|][l] == pattern[at + l];
    }
  }

  ghost predicate IsSharedRepositoryPath(path: string, left: string, right: string) {
    IsRepositoryRelative(path, false) && MatchesBoth(path, left, right)
  }

  /** Two valid globs share a path that a repository can hold exactly when their parts can be joined by
      plain words over the finite alphabet. */
  lemma RepositoryOverlapIsExact(left: string, right: string)
    requires IsCanonicalGlob(left) && IsCanonicalGlob(right)
    ensures (exists path :: IsSharedRepositoryPath(path, left, right)) <==>
            PlainlyJoinable(Text.Split(left, '/'), Text.Split(right, '/'), 0, 0)
  {
    var leftParts, rightParts := Text.Split(left, '/'), Text.Split(right, '/');
    assert leftParts[0..] == leftParts && rightParts[0..] == rightParts;
    if exists path :: IsSharedRepositoryPath(path, left, right) {
      var path :| IsSharedRepositoryPath(path, left, right);
      PartsAreCanonical(left);
      PartsAreCanonical(right);
      PartsOfRepositoryPath(path);
      PlainPathIsFound(leftParts, rightParts, 0, 0, Text.Split(path, '/'));
    }
    if PlainlyJoinable(leftParts, rightParts, 0, 0) {
      var words := PlainWayIsWalked(leftParts, rightParts, 0, 0);
      var path := PlainPathOf(left, right, words);
    }
  }

  lemma PlainPathOf(left: string, right: string, words: seq<string>) returns (path: string)
    requires IsPlainCommonPath(Text.Split(left, '/'), Text.Split(right, '/'), words)
    ensures IsSharedRepositoryPath(path, left, right)
  {
    var segments := words;
    if words == [] {
      EmptyMatchGrows(Text.Split(left, '/'));
      EmptyMatchGrows(Text.Split(right, '/'));
      TildeIsPlain();
      segments := ["a"];
      assert IsPlainWord("a");
    }
    path := Text.Join(segments, '/');
    forall k | 0 <= k < |segments| ensures '/' !in segments[k] {
      assert IsPlainWord(segments[k]);
    }
    Text.SplitOfJoin(segments, '/');
    PlainWordsMakeRepositoryPath(path);
  }
}
