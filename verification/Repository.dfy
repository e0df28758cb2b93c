/** Repository paths as the selector classifies them. */
module Repository {
  import opened Paths
  import opened Results
  import opened Segments
  import Braces
  import Text

  const HUMAN_DOCUMENT_SUFFIXES: seq<string> := [".md", ".mdx", ".rst", ".docx", ".pdf", ".eddx"]

  /** The globs that tell HEAVY tests and candidate paths. Everything below holds for any choice of
      them; `PATH_RULES` is the selector's own. */
  datatype PathRules = PathRules(heavyGlob: string, candidateGlobs: seq<string>)

  const PATH_RULES := PathRules("tests/" + "{integration,e2e,resilience,load,mock}/**/test_*.py", CANDIDATE_GLOBS)

  const CANDIDATE_GLOBS: seq<string> := [
    "src/**",
    "deployment/**",
    "nginx/**",
    "main.py",
    "migrations/**",
    "alembic.ini",
    "docker-compose*.yml",
    "Dockerfile",
    "docker/test/*.entrypoint.sh",
    ".dockerignore",
    "Jenkinsfile.backend-ci",
    "Jenkinsfile.release-checker-ci",
    "pyproject.toml",
    "uv.lock",
    ".env*",
    "scripts/**",
    "tools/release_checker/release_checker.py",
    "tools/release_checker/Dockerfile",
    "docs/**/*.{toml,csv,yaml,yml,json}",
    "tests/{integration,e2e,resilience,load,mock}/**",
    "tests/api/callback_test_support.py",
    "tests/contracts/" + "wms_integration/provider_profile_support.py",
    "tests/fixtures/**",
    "tests/conftest.py",
    "tests/*/conftest.py",
    "tests/support/**"
  ]

  // ----- repository-relative paths

  datatype CodeRange = CodeRange(first: int, last: int)

  /** The characters of the Unicode 15.1 general categories Cc and Cf. Surrogates (Cs) are no
      characters of a Dafny string. */
  const CONTROL_AND_FORMAT: seq<CodeRange> := [
    CodeRange(0x0, 0x1F), CodeRange(0x7F, 0x9F), CodeRange(0xAD, 0xAD), CodeRange(0x600, 0x605),
    CodeRange(0x61C, 0x61C), CodeRange(0x6DD, 0x6DD), CodeRange(0x70F, 0x70F), CodeRange(0x890, 0x891),
    CodeRange(0x8E2, 0x8E2), CodeRange(0x180E, 0x180E), CodeRange(0x200B, 0x200F), CodeRange(0x202A, 0x202E),
    CodeRange(0x2060, 0x2064), CodeRange(0x2066, 0x206F), CodeRange(0xFEFF, 0xFEFF), CodeRange(0xFFF9, 0xFFFB),
    CodeRange(0x110BD, 0x110BD), CodeRange(0x110CD, 0x110CD), CodeRange(0x13430, 0x1343F),
    CodeRange(0x1BCA0, 0x1BCA3), CodeRange(0x1D173, 0x1D17A), CodeRange(0xE0001, 0xE0001), CodeRange(0xE0020, 0xE007F)
  ]

  predicate IsControlOrFormat(c: char) {
    exists k :: 0 <= k < |CONTROL_AND_FORMAT| && CONTROL_AND_FORMAT[k].first <= c as int <= CONTROL_AND_FORMAT[k].last
  }

  predicate IsPlainPart(part: string) {
    part != "" && part != "." && part != ".."
  }

  predicate HasGlobSyntax(value: string) {
    exists k :: 0 <= k < |value| && value[k] in "*?[]{}"
  }

  /** A canonical POSIX path below the repository root: no empty, `.` or `..` part, no backslash, no
      control or format character, and glob syntax only where a glob is allowed. */
  predicate IsRepositoryRelative(value: string, allowGlob: bool) {
    && value != ""
    && '\\' !in value
    && (forall k :: 0 <= k < |value| ==> !IsControlOrFormat(value[k]))
    && (var parts := Text.Split(value, '/'); forall k :: 0 <= k < |parts| ==> IsPlainPart(parts[k]))
    && (allowGlob || !HasGlobSyntax(value))
  }

  // ----- classification; the selector's own globs have well-formed braces, so matching them never fails

  predicate IsHeavyTest(rules: PathRules, path: string) {
    MatchesGlob(path, rules.heavyGlob) == Ok(true)
  }

  predicate IsCandidate(rules: PathRules, path: string) {
    exists k :: 0 <= k < |rules.candidateGlobs| && MatchesGlob(path, rules.candidateGlobs[k]) == Ok(true)
  }

  function Lower(s: string): string {
    seq(|s|, k requires 0 <= k < |s| => if 'A' <= s[k] <= 'Z' then (s[k] as int + 32) as char else s[k])
  }

  function LastDot(name: string, upTo: nat): (k: int)
    requires upTo <= |name|
    ensures -1 <= k < upTo
  {
    if upTo == 0 then -1 else if name[upTo - 1] == '.' then upTo - 1 else LastDot(name, upTo - 1)
  }

  function FileName(path: string): string {
    var parts := Text.Split(path, '/');
    parts[|parts| - 1]
  }

  /** The suffix of a file name: from its last dot on, unless that dot starts or ends the name. */
  function Suffix(name: string): string {
    var dot := LastDot(name, |name|);
    if 0 < dot < |name| - 1 then name[dot..] else ""
  }

  predicate StartsWith(s: string, prefix: string) {
    prefix <= s
  }

  predicate IsHumanDocument(rules: PathRules, path: string) {
    var fileName := Lower(FileName(path));
    var suffix := Lower(Suffix(FileName(path)));
    if suffix in HUMAN_DOCUMENT_SUFFIXES || fileName == "readme" || fileName == "license" then true
    else
      && suffix == ".txt" && !IsCandidate(rules, path)
      && !StartsWith(fileName, "requirements") && !StartsWith(fileName, "constraints")
  }

  lemma {:induction false} LastDotIsLast(name: string, upTo: nat)
    requires upTo <= |name|
    ensures LastDot(name, upTo) >= 0 ==> name[LastDot(name, upTo)] == '.'
    ensures forall k :: LastDot(name, upTo) < k < upTo ==> name[k] != '.'
    decreases upTo
  {
    if upTo > 0 && name[upTo - 1] != '.' {
      LastDotIsLast(name, upTo - 1);
    }
  }

  /** A suffix starts with the only dot in it and has more than the dot. */
  predicate IsSuffix(s: string) {
    |s| > 1 && s[0] == '.' && '.' !in s[1..]
  }

  /** Whatever can be cut off as a suffix, leaving something, is the suffix. */
  lemma SuffixIsFound(stem: string, s: string)
    requires stem != "" && IsSuffix(s)
    ensures Suffix(stem + s) == s
  {
    var name := stem + s;
    var dot := LastDot(name, |name|);
    LastDotIsLast(name, |name|);
    assert name[|stem|] == s[0];
    assert forall k :: |stem| < k < |name| ==> name[k] == s[1..][k - |stem| - 1];
    assert name[|stem|..] == s;
  }

  /** A suffix that is found can be cut off, leaving something. */
  lemma FoundIsSuffix(name: string)
    requires Suffix(name) != ""
    ensures IsSuffix(Suffix(name)) && |Suffix(name)| < |name| && name == name[..|name| - |Suffix(name)|] + Suffix(name)
  {
    var dot := LastDot(name, |name|);
    LastDotIsLast(name, |name|);
    assert name == name[..dot] + name[dot..];
    assert '.' !in name[dot..][1..];
  }

  /** A `.txt` file in the candidate range is never taken for a document, whatever its name. */
  lemma TextCandidateIsNoDocument(rules: PathRules, path: string)
    requires IsCandidate(rules, path) && Lower(Suffix(FileName(path))) == ".txt"
    ensures !IsHumanDocument(rules, path)
  {
    DottedName(FileName(path));
    TextIsNoDocumentSuffix();
  }

  lemma DottedName(name: string)
    requires Suffix(name) != ""
    ensures Lower(name) != "readme" && Lower(name) != "license"
  {
    FoundIsSuffix(name);
    var dot := |name| - |Suffix(name)|;
    assert name[dot] == Suffix(name)[0] == '.';
    assert Lower(name)[dot] == '.';
  }

  lemma TextIsNoDocumentSuffix()
    ensures ".txt" !in HUMAN_DOCUMENT_SUFFIXES
  {
    assert forall k :: 0 <= k < |HUMAN_DOCUMENT_SUFFIXES| ==> HUMAN_DOCUMENT_SUFFIXES[k][1] != 't';
  }

  // ----- exact paths

  lemma NoGlobSyntaxAt(value: string, k: nat)
    requires !HasGlobSyntax(value) && k < |value|
    ensures value[k] != '*' && value[k] != '?' && value[k] != '[' && value[k] != ']'
    ensures value[k] != '{' && value[k] != '}'
  {
    var c := value[k];
    assert "*?[]{}"[0] == '*' && "*?[]{}"[1] == '?' && "*?[]{}"[2] == '[' && "*?[]{}"[3] == ']';
    assert "*?[]{}"[4] == '{' && "*?[]{}"[5] == '}';
  }

  lemma {:induction false} LiteralSegmentMatches(value: string, i: nat, word: string)
    requires !HasGlobSyntax(value) && i <= |value|
    ensures Reads(value, i, word) <==> word == value[i..]
    decreases |value| - i
  {
    if i < |value| {
      NoGlobSyntaxAt(value, i);
      TokenReads(value, i, word);
      if word != "" {
        LiteralSegmentMatches(value, i + 1, word[1..]);
        assert value[i..][1..] == value[i + 1..];
        assert word == value[i..] <==> word[0] == value[i] && word[1..] == value[i + 1..];
      }
    }
  }

  ghost predicate AreLiteral(parts: seq<string>) {
    forall k :: 0 <= k < |parts| ==> !HasGlobSyntax(parts[k])
  }

  lemma {:induction false} LiteralPartsMatch(parts: seq<string>, segments: seq<string>)
    requires AreLiteral(parts)
    ensures MatchesParts(parts, segments) <==> segments == parts
    decreases |parts|
  {
    if parts != [] {
      assert parts[0] != "**" by {
        if parts[0] == "**" {
          NoGlobSyntaxAt(parts[0], 0);
        }
      }
      if segments != [] {
        LiteralSegmentMatches(parts[0], 0, segments[0]);
        LiteralPartsMatch(parts[1..], segments[1..]);
        assert segments == parts <==> segments[0] == parts[0] && segments[1..] == parts[1..];
      }
    }
  }

  lemma PartsHaveNoGlobSyntax(value: string)
    requires !HasGlobSyntax(value)
    ensures AreLiteral(Text.Split(value, '/'))
  {
    var parts := Text.Split(value, '/');
    forall k | 0 <= k < |parts| ensures !HasGlobSyntax(parts[k]) {
      var at := Text.PartIsStretch(value, '/', k);
      forall l | 0 <= l < |parts[k]| ensures parts[k][l] !in "*?[]{}" {
        assert parts[k][l] == value[at..at + |parts[k]|][l] == value[at + l];
      }
    }
  }

  /** A path without glob syntax is a glob for itself alone: it expands to itself and matches
      exactly the one path equal to it. */
  lemma ExactGlobIsSingleton(value: string, path: string)
    requires IsRepositoryRelative(value, false)
    ensures Braces.ExpandBraces(value) == Ok([value])
    ensures MatchesGlob(path, value) == Ok(path == value)
  {
    NoGlobSyntaxIsBraceFree(value);
    Braces.BraceFreeExpandsToItself(value);
    ExactPatternMatches(value, path);
    assert [value][0] == value;
  }

  lemma NoGlobSyntaxIsBraceFree(value: string)
    requires !HasGlobSyntax(value)
    ensures Braces.BraceFree(value)
  {
    forall c | c in value ensures c != '{' && c != '}' {
      var k: nat :| k < |value| && value[k] == c;
      NoGlobSyntaxAt(value, k);
    }
  }

  lemma ExactPatternMatches(value: string, path: string)
    requires !HasGlobSyntax(value)
    ensures MatchesExpanded(path, value) <==> path == value
  {
    PartsHaveNoGlobSyntax(value);
    LiteralPartsMatch(Text.Split(value, '/'), Text.Split(path, '/'));
    Text.JoinOfSplit(value, '/');
    Text.JoinOfSplit(path, '/');
  }
}
