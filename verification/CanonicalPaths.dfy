/** The canonical repository paths, spelled out. */
module CanonicalPaths {
  import opened Repository
  import opened RepositoryOverlap
  import Text

  /** The control characters: C0, DEL and C1. */
  predicate IsControl(c: int) {
    c <= 0x1F || 0x7F <= c <= 0x9F
  }

  /** The format characters of the first plane: soft hyphen, Arabic, Syriac and Mongolian signs, zero-width
      and directional marks, invisible operators, the byte order mark and annotation anchors. */
  predicate IsFormatInFirstPlane(c: int) {
    || c == 0xAD || 0x600 <= c <= 0x605 || c == 0x61C || c == 0x6DD || c == 0x70F || 0x890 <= c <= 0x891 || c == 0x8E2
    || c == 0x180E || 0x200B <= c <= 0x200F || 0x202A <= c <= 0x202E || 0x2060 <= c <= 0x2064 || 0x2066 <= c <= 0x206F
    || c == 0xFEFF || 0xFFF9 <= c <= 0xFFFB
  }

  /** Those beyond: Kaithi, hieroglyphs, shorthand, musical notation and tags. */
  predicate IsFormatBeyond(c: int) {
    || c == 0x110BD || c == 0x110CD || 0x13430 <= c <= 0x1343F || 0x1BCA0 <= c <= 0x1BCA3 || 0x1D173 <= c <= 0x1D17A
    || c == 0xE0001 || 0xE0020 <= c <= 0xE007F
  }

  lemma FirstRanges()
    ensures |CONTROL_AND_FORMAT| == 23
    ensures CONTROL_AND_FORMAT[0] == CodeRange(0x0, 0x1F) && CONTROL_AND_FORMAT[1] == CodeRange(0x7F, 0x9F)
    ensures CONTROL_AND_FORMAT[2] == CodeRange(0xAD, 0xAD) && CONTROL_AND_FORMAT[3] == CodeRange(0x600, 0x605)
    ensures CONTROL_AND_FORMAT[4] == CodeRange(0x61C, 0x61C) && CONTROL_AND_FORMAT[5] == CodeRange(0x6DD, 0x6DD)
    ensures CONTROL_AND_FORMAT[6] == CodeRange(0x70F, 0x70F) && CONTROL_AND_FORMAT[7] == CodeRange(0x890, 0x891)
  {
  }

  lemma MiddleRanges()
    ensures |CONTROL_AND_FORMAT| == 23
    ensures CONTROL_AND_FORMAT[8] == CodeRange(0x8E2, 0x8E2) && CONTROL_AND_FORMAT[9] == CodeRange(0x180E, 0x180E)
    ensures CONTROL_AND_FORMAT[10] == CodeRange(0x200B, 0x200F) && CONTROL_AND_FORMAT[11] == CodeRange(0x202A, 0x202E)
    ensures CONTROL_AND_FORMAT[12] == CodeRange(0x2060, 0x2064) && CONTROL_AND_FORMAT[13] == CodeRange(0x2066, 0x206F)
    ensures CONTROL_AND_FORMAT[14] == CodeRange(0xFEFF, 0xFEFF) && CONTROL_AND_FORMAT[15] == CodeRange(0xFFF9, 0xFFFB)
  {
  }

  lemma LastRanges()
    ensures |CONTROL_AND_FORMAT| == 23
    ensures CONTROL_AND_FORMAT[16] == CodeRange(0x110BD, 0x110BD) &&
      CONTROL_AND_FORMAT[17] == CodeRange(0x110CD, 0x110CD)
    ensures CONTROL_AND_FORMAT[18] == CodeRange(0x13430, 0x1343F) &&
      CONTROL_AND_FORMAT[19] == CodeRange(0x1BCA0, 0x1BCA3)
    ensures CONTROL_AND_FORMAT[20] == CodeRange(0x1D173, 0x1D17A) &&
      CONTROL_AND_FORMAT[21] == CodeRange(0xE0001, 0xE0001)
    ensures CONTROL_AND_FORMAT[22] == CodeRange(0xE0020, 0xE007F)
  {
  }

  /** The refused characters are exactly these. */
  lemma ControlsAreThese(c: char)
    ensures IsControlOrFormat(c) <==> IsRefused(c)
  {
    FirstRanges();
    MiddleRanges();
    LastRanges();
  }

  predicate IsRefused(c: char) {
    var v := c as int;
    IsControl(v) || IsFormatInFirstPlane(v) || IsFormatBeyond(v)
  }

  /** A name that may stand between slashes. */
  ghost predicate IsPathName(name: string) {
    && '/' !in name && name != "" && name != "." && name != ".."
    && forall k :: 0 <= k < |name| ==> name[k] != '\\' && !IsRefused(name[k])
  }

  /** The value is names with slashes between them. */
  ghost predicate IsSpelledBy(value: string, names: seq<string>) {
    names != [] && value == Text.Join(names, '/') && forall n :: 0 <= n < |names| ==> IsPathName(names[n])
  }

  predicate IsGlobChar(c: char) {
    c == '*' || c == '?' || c == '[' || c == ']' || c == '{' || c == '}'
  }

  lemma GlobCharIsSyntax(c: char)
    ensures IsGlobChar(c) <==> c in "*?[]{}"
  {
    var s := "*?[]{}";
    assert s[0] == '*' && s[1] == '?' && s[2] == '[' && s[3] == ']' && s[4] == '{' && s[5] == '}';
  }

  lemma HasGlobSyntaxIff(value: string)
    ensures HasGlobSyntax(value) <==> exists k :: 0 <= k < |value| && IsGlobChar(value[k])
  {
    forall k | 0 <= k < |value| ensures IsGlobChar(value[k]) <==> value[k] in "*?[]{}" {
      GlobCharIsSyntax(value[k]);
    }
  }

  lemma NamesOfRelative(value: string)
    requires IsRepositoryRelative(value, true)
    ensures IsSpelledBy(value, Text.Split(value, '/'))
  {
    var names := Text.Split(value, '/');
    Text.JoinOfSplit(value, '/');
    forall n | 0 <= n < |names| ensures IsPathName(names[n]) {
      var at := Text.PartIsStretch(value, '/', n);
      forall k | 0 <= k < |names[n]| ensures names[n][k] != '\\' && !IsRefused(names[n][k]) {
        assert names[n][k] == value[at..at + |names[n]|][k] == value[at + k];
        ControlsAreThese(value[at + k]);
      }
      assert IsPlainPart(names[n]);
    }
  }

  lemma RelativeOfNames(value: string, names: seq<string>)
    requires IsSpelledBy(value, names)
    ensures IsRepositoryRelative(value, true)
  {
    forall n | 0 <= n < |names| ensures '/' !in names[n] {
      assert IsPathName(names[n]);
    }
    Text.SplitOfJoin(names, '/');
    assert IsPathName(names[0]);
    forall k | 0 <= k < |value| ensures value[k] != '\\' && !IsControlOrFormat(value[k]) {
      ControlsAreThese(value[k]);
      if value[k] != '/' {
        var n, l := CharsOfJoin(names, k);
        assert IsPathName(names[n]);
      }
    }
    forall n | 0 <= n < |names| ensures IsPlainPart(names[n]) {
      assert IsPathName(names[n]);
    }
  }

  /** A value is accepted exactly when it is names with slashes between them, none of them empty, `.` or
      `..` or with a backslash or refused character in it, and no glob syntax unless that is allowed. */
  lemma RelativePathsAreThese(value: string, allowGlob: bool)
    ensures IsRepositoryRelative(value, allowGlob) <==>
      && (exists names :: IsSpelledBy(value, names))
      && (allowGlob || forall k :: 0 <= k < |value| ==> !IsGlobChar(value[k]))
  {
    HasGlobSyntaxIff(value);
    assert IsRepositoryRelative(value, allowGlob) <==>
      IsRepositoryRelative(value, true) && (allowGlob || !HasGlobSyntax(value));
    if IsRepositoryRelative(value, true) {
      NamesOfRelative(value);
    }
    if names :| IsSpelledBy(value, names) {
      RelativeOfNames(value, names);
    }
  }
}
