/** The finite alphabet of the segment search loses nothing: real paths use all of Unicode, yet two
    supported segments share a word exactly when they share one over the alphabet. */
module FiniteAlphabet {
  import opened CharClasses
  import opened Segments
  import Text

  /** Every class that opens in the segment is plain. */
  ghost predicate IsSupported(pattern: string) {
    forall i :: 0 <= i < |pattern| && OpensClass(pattern, i) ==>
      IsPlainClass(pattern[i + 1..Text.Find(pattern, ']', i + 1)])
  }

  /** What a token is written with belongs to the letters, and its class is not negated. */
  ghost predicate IsWrittenIn(token: Token, letters: set<char>) {
    match token
    case Literal(x) => x in letters
    case Class(specification) => !IsNegated(specification) && forall c :: c in specification ==> c in letters
    case _ => true
  }

  ghost predicate AreWrittenIn(tokens: seq<Token>, letters: set<char>) {
    forall k :: 0 <= k < |tokens| ==> IsWrittenIn(tokens[k], letters)
  }

  /** Two tokens that fit a common character fit a common letter. */
  lemma CommonLetter(left: Token, right: Token, c: char, letters: set<char>) returns (d: char)
    requires IsWrittenIn(left, letters) && IsWrittenIn(right, letters) && 'a' in letters
    requires Fits(left, c) && Fits(right, c)
    ensures d in letters && Fits(left, d) && Fits(right, d)
  {
    if left.Literal? || right.Literal? {
      d := c;
    } else if left.Class? && right.Class? {
      d := SharedEndpoint(left.specification, right.specification, c);
    } else if left.Class? {
      d := WrittenMember(left.specification, c);
    } else if right.Class? {
      d := WrittenMember(right.specification, c);
    } else {
      d := 'a';
    }
  }

  ghost predicate BothAccept(left: seq<Token>, right: seq<Token>, word: string) {
    Accepts(left, word) && Accepts(right, word)
  }

  /** One letter put in front of a word accepted by what is left after it. */
  ghost predicate CanTake(tokens: seq<Token>, c: char, rest: seq<Token>) {
    tokens != [] && Fits(tokens[0], c) && (rest == tokens[1..] || (tokens[0] == Star && rest == tokens))
  }

  lemma TakeAccepts(tokens: seq<Token>, c: char, rest: seq<Token>, word: string)
    requires CanTake(tokens, c, rest) && Accepts(rest, word)
    ensures Accepts(tokens, [c] + word)
  {
    assert ([c] + word)[1..] == word;
    if tokens[0] == Star && rest == tokens[1..] {
      assert Accepts(tokens, word);
    }
  }

  /** Every word of both token sequences can be respelled over the letters. */
  lemma {:induction false} Respell(left: seq<Token>, right: seq<Token>, word: string, letters: set<char>)
    returns (spelled: string)
    requires AreWrittenIn(left, letters) && AreWrittenIn(right, letters) && 'a' in letters
    requires BothAccept(left, right, word)
    ensures BothAccept(left, right, spelled) && IsOver(spelled, letters) && |spelled| == |word|
    decreases |word|, |left| + |right|
  {
    if left != [] && left[0] == Star && Accepts(left[1..], word) {
      spelled := Respell(left[1..], right, word, letters);
    } else if right != [] && right[0] == Star && Accepts(right[1..], word) {
      spelled := Respell(left, right[1..], word, letters);
    } else if word == "" {
      spelled := "";
    } else {
      var leftRest := if left[0] == Star then left else left[1..];
      var rightRest := if right[0] == Star then right else right[1..];
      var d := CommonLetter(left[0], right[0], word[0], letters);
      var rest := Respell(leftRest, rightRest, word[1..], letters);
      TakeAccepts(left, d, leftRest, rest);
      TakeAccepts(right, d, rightRest, rest);
      spelled := [d] + rest;
    }
  }

  lemma {:induction false} TokensAreWritten(pattern: string, i: nat, letters: set<char>)
    requires IsSupported(pattern)
    requires forall c :: c in pattern ==> c in letters
    ensures AreWrittenIn(TokensFrom(pattern, i), letters)
    decreases |pattern| - i
  {
    if i < |pattern| {
      TokensAreWritten(pattern, After(pattern, i), letters);
      var token := TokenAt(pattern, i);
      assert IsWrittenIn(token, letters) by {
        if token.Class? {
          assert forall c :: c in token.specification ==> c in pattern;
        }
      }
    }
  }

  lemma AlphabetHolds(left: string, right: string)
    requires '/' !in left && '/' !in right
    ensures forall c :: c in left || c in right ==> c in Alphabet(left, right)
    ensures 'a' in Alphabet(left, right)
  {
    forall c | c in left || c in right ensures c in Alphabet(left, right) {
      assert c in left + right;
      assert c in "/*?[]!^-" ==> c == '/' || IsPathAscii(c);
    }
    assert IsPathAscii('a');
  }

  /** For supported segments the finite alphabet decides the question for all of Unicode. */
  lemma FiniteAlphabetSuffices(left: string, right: string)
    requires IsSupported(left) && IsSupported(right)
    requires '/' !in left && '/' !in right
    ensures (exists word :: MatchesSegment(left, word) && MatchesSegment(right, word))
       <==> Shared(left, right, Alphabet(left, right), (0, 0))
  {
    var letters := Alphabet(left, right);
    if exists word :: MatchesSegment(left, word) && MatchesSegment(right, word) {
      var word :| MatchesSegment(left, word) && MatchesSegment(right, word);
      AlphabetHolds(left, right);
      TokensAreWritten(left, 0, letters);
      TokensAreWritten(right, 0, letters);
      var spelled := Respell(TokensFrom(left, 0), TokensFrom(right, 0), word, letters);
      assert Reads(left, 0, spelled) && Reads(right, 0, spelled);
    }
    if Shared(left, right, letters, (0, 0)) {
      var word :| IsOver(word, letters) && Reads(left, 0, word) && Reads(right, 0, word);
      assert MatchesSegment(left, word) && MatchesSegment(right, word);
    }
  }

  lemma AlphabetHasNoSlash(left: string, right: string)
    ensures '/' !in Alphabet(left, right)
  {
  }

  /** Why negated classes are refused: `[! -~]` and `?` share a word, but none over the alphabet. */
  lemma NegatedClassDefeatsAlphabet(word: string)
    requires |word| == 1 && word[0] > '~'
    ensures MatchesSegment("[! -~]", word) && MatchesSegment("?", word)
    ensures !Shared("[! -~]", "?", Alphabet("[! -~]", "?"), (0, 0))
  {
    NegatedTokens();
    NegatedDenotes(word[0]);
    OneTokenAccepts(Class("! -~"), word);
    OneTokenAccepts(AnyChar, word);
    var letters := Alphabet("[! -~]", "?");
    NegatedAlphabetIsAscii();
    forall v | IsOver(v, letters) && Reads("[! -~]", 0, v) ensures false {
      OneTokenAccepts(Class("! -~"), v);
      assert v[0] in letters;
      NegatedDenotes(v[0]);
    }
  }

  lemma OneTokenAccepts(token: Token, word: string)
    requires token != Star
    ensures Accepts([token], word) <==> |word| == 1 && Fits(token, word[0])
  {
    assert [token][1..] == [];
    if |word| == 1 {
      assert word[1..] == "";
    }
  }

  lemma NegatedAlphabetIsAscii()
    ensures forall c :: c in Alphabet("[! -~]", "?") ==> ' ' <= c <= '~'
  {
    assert forall c :: c in "[! -~]" + "?" ==> ' ' <= c <= '~';
  }

  lemma NegatedTokens()
    ensures TokensFrom("[! -~]", 0) == [Class("! -~")]
    ensures TokensFrom("?", 0) == [AnyChar]
  {
    assert TokensFrom("?", 1) == [];
    var p := "[! -~]";
    Text.FindIsFirst(p, ']', 1, 5);
    assert p[1..5] == "! -~";
    assert TokensFrom(p, 6) == [];
  }

  lemma NegatedDenotes(c: char)
    ensures Denotes("! -~", c) <==> !(' ' <= c <= '~')
  {
    assert Content("! -~") == " -~";
    assert " -~"[3..] == "";
    assert Items(" -~") == [Item(' ', '~')];
    assert Holds([Item(' ', '~')], c) <==> ' ' <= c <= '~' by {
      HoldsCons(Item(' ', '~'), [], c);
    }
  }

  // ----- supported segments match something

  lemma {:induction false} Inhabit(pattern: string, i: nat) returns (word: string)
    requires IsSupported(pattern) && '/' !in pattern
    ensures Accepts(TokensFrom(pattern, i), word) && '/' !in word
    decreases |pattern| - i
  {
    if i >= |pattern| {
      word := "";
    } else {
      var rest := Inhabit(pattern, After(pattern, i));
      var tokens := TokensFrom(pattern, i);
      var c: char;
      match TokenAt(pattern, i) {
        case Star => c := 'a';
        case AnyChar => c := 'a';
        case Literal(x) => c := x;
        case Class(specification) =>
          PlainClassIsInhabited(specification);
          c := specification[0];
      }
      assert CanTake(tokens, c, tokens[1..]);
      TakeAccepts(tokens, c, tokens[1..], rest);
      word := [c] + rest;
    }
  }

  /** A supported segment matches some `/`-free word: its classes are not empty and their ranges are in order. */
  lemma SupportedSegmentIsInhabited(pattern: string) returns (word: string)
    requires IsSupported(pattern) && '/' !in pattern
    ensures MatchesSegment(pattern, word) && '/' !in word
  {
    word := Inhabit(pattern, 0);
  }
}
