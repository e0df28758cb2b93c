/** Which paths are human documents, told by what their names end in. */
module Documents {
  import opened Repository
  import Text

  // ----- letters in either case

  const UPPER := "ABCDEFGHIJKLMNOPQRSTUVWXYZ"
  const LOWER := "abcdefghijklmnopqrstuvwxyz"

  /** The same character, or an upper-case letter and its lower-case form. */
  ghost predicate IsLetterFor(c: char, d: char) {
    (c == d && c !in UPPER) || exists i :: 0 <= i < 26 && c == UPPER[i] && d == LOWER[i]
  }

  /** The text is the name in lower case. */
  ghost predicate Reads(name: string, text: string) {
    |name| == |text| && forall k :: 0 <= k < |name| ==> IsLetterFor(name[k], text[k])
  }

  lemma LettersAt(i: nat)
    requires i < 26
    ensures UPPER[i] == (i + 'A' as int) as char && LOWER[i] == (i + 'a' as int) as char
  {
  }

  lemma UpperIsRange(c: char)
    ensures c in UPPER <==> 'A' <= c <= 'Z'
  {
    if 'A' <= c <= 'Z' {
      LettersAt((c - 'A') as int);
    }
  }

  lemma LetterIsLower(c: char, d: char)
    ensures IsLetterFor(c, d) <==> d == Lower([c])[0]
  {
    UpperIsRange(c);
    if 'A' <= c <= 'Z' {
      var k := (c - 'A') as int;
      LettersAt(k);
      forall i | 0 <= i < 26 && c == UPPER[i] ensures i == k {
        LettersAt(i);
      }
    } else {
      forall i | 0 <= i < 26 ensures c != UPPER[i] {
        LettersAt(i);
      }
    }
  }

  lemma ReadsIsLower(name: string, text: string)
    ensures Reads(name, text) <==> text == Lower(name)
  {
    if |name| == |text| {
      forall k | 0 <= k < |name| ensures IsLetterFor(name[k], text[k]) <==> text[k] == Lower(name)[k] {
        LetterIsLower(name[k], text[k]);
      }
    }
  }

  // ----- file names and their ends

  /** What stands behind the last slash. */
  ghost predicate IsFileName(path: string, name: string) {
    '/' !in name && (path == name || exists directory :: path == directory + "/" + name)
  }

  lemma FileNameOfJoined(directory: string, name: string)
    requires '/' !in name
    ensures FileName(directory + "/" + name) == name && FileName(name) == name
  {
    var parts := Text.Split(directory, '/');
    Text.JoinOfSplit(directory, '/');
    JoinedWith(parts, name);
    Text.SplitOfJoin(parts + [name], '/');
    Text.SplitOfOne(name, '/');
  }

  lemma {:induction false} JoinedWith(parts: seq<string>, name: string)
    requires parts != []
    ensures Text.Join(parts + [name], '/') == Text.Join(parts, '/') + "/" + name
    decreases |parts|
  {
    assert (parts + [name])[1..] == parts[1..] + [name];
    if |parts| == 1 {
      assert parts[1..] + [name] == [name];
    } else {
      JoinedWith(parts[1..], name);
    }
  }

  lemma FileNameIsBehindLastSlash(path: string)
    ensures IsFileName(path, FileName(path))
  {
    var parts := Text.Split(path, '/');
    Text.JoinOfSplit(path, '/');
    if |parts| > 1 {
      var front := parts[..|parts| - 1];
      assert parts == front + [FileName(path)];
      JoinedWith(front, FileName(path));
      assert path == Text.Join(front, '/') + "/" + FileName(path);
    }
  }

  lemma FileNameIsThat(path: string, name: string)
    ensures IsFileName(path, name) <==> name == FileName(path)
  {
    FileNameIsBehindLastSlash(path);
    if IsFileName(path, name) {
      FileNameOfJoined("", name);
      if directory :| path == directory + "/" + name {
        FileNameOfJoined(directory, name);
      }
    }
  }

  /** In either case of letters, the name is something and then the ending. */
  ghost predicate EndsIn(name: string, ending: string) {
    exists stem, end :: IsEnding(name, stem, end) && Reads(end, ending)
  }

  ghost predicate IsEnding(name: string, stem: string, end: string) {
    stem != "" && name == stem + end
  }

  ghost predicate BeginsWith(name: string, beginning: string) {
    |beginning| <= |name| && Reads(name[..|beginning|], beginning)
  }

  lemma LoweredSuffixIsSuffix(end: string)
    ensures IsSuffix(Lower(end)) <==> IsSuffix(end)
  {
    var text := Lower(end);
    forall k | 0 <= k < |end| ensures text[k] == '.' <==> end[k] == '.' {
    }
    assert |end| > 0 ==> forall k :: 0 <= k < |end| - 1 ==> text[1..][k] == text[k + 1] && end[1..][k] == end[k + 1];
  }

  lemma EndsInSuffix(name: string, ending: string)
    requires IsSuffix(ending)
    ensures EndsIn(name, ending) <==> Lower(Suffix(name)) == ending
  {
    if EndsIn(name, ending) {
      var stem, end :| IsEnding(name, stem, end) && Reads(end, ending);
      ReadsIsLower(end, ending);
      LoweredSuffixIsSuffix(end);
      SuffixIsFound(stem, end);
    }
    if Lower(Suffix(name)) == ending {
      FoundIsSuffix(name);
      ReadsIsLower(Suffix(name), ending);
      assert IsEnding(name, name[..|name| - |Suffix(name)|], Suffix(name));
    }
  }

  lemma BeginsWithPrefix(name: string, beginning: string)
    ensures BeginsWith(name, beginning) <==> beginning <= Lower(name)
  {
    if |beginning| <= |name| {
      ReadsIsLower(name[..|beginning|], beginning);
      assert Lower(name[..|beginning|]) == Lower(name)[..|beginning|];
    }
  }

  // ----- documents

  /** The endings of documents. */
  ghost predicate EndsLikeDocument(name: string) {
    || EndsIn(name, ".md") || EndsIn(name, ".mdx") || EndsIn(name, ".rst")
    || EndsIn(name, ".docx") || EndsIn(name, ".pdf") || EndsIn(name, ".eddx")
  }

  lemma EndingsAreSuffixes()
    ensures IsSuffix(".md") && IsSuffix(".mdx") && IsSuffix(".rst") && IsSuffix(".docx") && IsSuffix(".pdf")
    ensures IsSuffix(".eddx") && IsSuffix(".txt")
  {
  }

  lemma DocumentSuffixes(suffix: string)
    ensures suffix in HUMAN_DOCUMENT_SUFFIXES <==>
      || suffix == ".md" || suffix == ".mdx" || suffix == ".rst"
      || suffix == ".docx" || suffix == ".pdf" || suffix == ".eddx"
  {
    var s := HUMAN_DOCUMENT_SUFFIXES;
    assert s[0] == ".md" && s[1] == ".mdx" && s[2] == ".rst" && s[3] == ".docx" && s[4] == ".pdf" && s[5] == ".eddx";
  }

  lemma EndsLikeDocumentIff(name: string)
    ensures EndsLikeDocument(name) <==> Lower(Suffix(name)) in HUMAN_DOCUMENT_SUFFIXES
  {
    EndingsAreSuffixes();
    DocumentSuffixes(Lower(Suffix(name)));
    EndsInSuffix(name, ".md");
    EndsInSuffix(name, ".mdx");
    EndsInSuffix(name, ".rst");
    EndsInSuffix(name, ".docx");
    EndsInSuffix(name, ".pdf");
    EndsInSuffix(name, ".eddx");
  }

  /** The text files that are documents. */
  ghost predicate IsTextDocument(rules: PathRules, path: string, name: string) {
    && EndsIn(name, ".txt") && !IsCandidate(rules, path)
    && !BeginsWith(name, "requirements") && !BeginsWith(name, "constraints")
  }

  /** A path is a human document exactly when its file name, in either case of letters, is `readme` or
      `license`, or something followed by one of six endings, or something followed by `.txt` that is no
      candidate and does not begin like a list of dependencies. */
  lemma DocumentsAreThese(rules: PathRules, path: string, name: string)
    requires IsFileName(path, name)
    ensures IsHumanDocument(rules, path) <==>
      || Reads(name, "readme") || Reads(name, "license") || EndsLikeDocument(name) || IsTextDocument(rules, path, name)
  {
    FileNameIsThat(path, name);
    ReadsIsLower(name, "readme");
    ReadsIsLower(name, "license");
    EndsLikeDocumentIff(name);
    EndingsAreSuffixes();
    EndsInSuffix(name, ".txt");
    BeginsWithPrefix(name, "requirements");
    BeginsWithPrefix(name, "constraints");
  }
}
