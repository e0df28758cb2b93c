/** The changed paths as Git reports them, one line each, and what their spelling means for the selection. */
module ChangedFiles {
  import opened Config
  import opened GitQuoting
  import opened Repository
  import opened Results
  import opened Selection
  import opened SelectionTheorems
  import Sorting

  /** The line is the path itself, without quotes at its ends, or a quotation of it. */
  ghost predicate Spells(line: string, path: string) {
    (!StartsQuoted(line) && !EndsQuoted(line) && line == path) || Quotes(line, path)
  }

  ghost predicate IsReadable(line: string) {
    exists path :: Spells(line, path)
  }

  /** Some line of the output, empty lines aside, spells the path. */
  ghost predicate IsListed(lines: seq<string>, path: string) {
    exists line :: line in lines && line != "" && Spells(line, path)
  }

  ghost predicate AreReadable(lines: seq<string>) {
    forall line :: line in lines && line != "" ==> IsReadable(line)
  }

  /** The listed paths, in order and without repetition. */
  ghost predicate IsListing(files: seq<string>, lines: seq<string>) {
    Sorting.IsAscending(files) && forall path :: path in files <==> IsListed(lines, path)
  }

  lemma ListedSnoc(lines: seq<string>, k: nat, path: string)
    requires k < |lines|
    ensures IsListed(lines[..k + 1], path) <==> IsListed(lines[..k], path) || (lines[k] != "" && Spells(lines[k], path))
  {
    assert forall line :: line in lines[..k + 1] <==> line in lines[..k] || line == lines[k];
  }

  method GetChangedFiles(lines: seq<string>) returns (result: Result<seq<string>>)
    ensures result.Ok? <==> AreReadable(lines)
    ensures result.Ok? ==> IsListing(result.value, lines)
  {
    var paths: set<string> := {};
    for k := 0 to |lines|
      invariant AreReadable(lines[..k])
      invariant forall path :: path in paths <==> IsListed(lines[..k], path)
    {
      ghost var before := paths;
      if lines[k] != "" {
        var path := DecodeGitQuotedPath(lines[k]);
        DecodedIsSpelled(lines[k]);
        if path.Err? {
          assert !IsReadable(lines[k]);
          return Err(path.error);
        }
        paths := paths + {path.value};
      }
      forall path ensures path in paths <==> IsListed(lines[..k + 1], path) {
        ListedSnoc(lines, k, path);
        assert path in before <==> IsListed(lines[..k], path);
      }
    }
    assert lines[..|lines|] == lines;
    var files := Sorting.Sorted(paths);
    return Ok(files);
  }

  lemma DecodedIsSpelled(line: string)
    ensures forall path :: DecodedPath(line) == Ok(path) <==> Spells(line, path)
  {
    forall path ensures DecodedPath(line) == Ok(path) <==> Spells(line, path) {
      DecodingIsExact(line, path);
    }
  }

  /** Every line spells one of the paths, and every path is spelled by a line. */
  ghost predicate SpellOut(lines: seq<string>, paths: seq<string>) {
    && (forall line :: line in lines && line != "" ==> exists path :: path in paths && Spells(line, path))
    && (forall path :: path in paths ==> IsListed(lines, path))
  }

  /** A line spells only one path. */
  lemma SpellingIsUnique(line: string, path: string, other: string)
    requires Spells(line, path) && Spells(line, other)
    ensures path == other
  {
    DecodedIsSpelled(line);
  }

  lemma ListedAreThose(lines: seq<string>, paths: seq<string>, path: string)
    requires SpellOut(lines, paths)
    ensures IsListed(lines, path) <==> path in paths
  {
    if IsListed(lines, path) {
      var line :| line in lines && line != "" && Spells(line, path);
      var other :| other in paths && Spells(line, other);
      SpellingIsUnique(line, path, other);
    }
  }

  /** However Git quotes the changed paths, and in whatever order it lists them, they are read back and
      lead to the tests that the paths themselves lead to. */
  lemma SelectionIgnoresQuoting(
    rules: PathRules, config: SelectorConfig, digests: Digests,
    lines: seq<string>, paths: seq<string>, files: seq<string>)
    requires IsValidConfig(rules, config) && SpellOut(lines, paths) && IsListing(files, lines)
    ensures AreReadable(lines)
    ensures var ra := SelectedTests(rules, files, config, digests);
      var rb := SelectedTests(rules, paths, config, digests);
      (ra.Ok? <==> rb.Ok?) && (ra.Ok? ==> ra.value == rb.value)
  {
    forall path ensures path in files <==> path in paths {
      ListedAreThose(lines, paths, path);
    }
    SelectionIgnoresOrder(rules, files, paths, config, config, digests);
  }

  /** From Git's output to the tests, end to end: any spelling of the changed paths gives exactly the
      tests some changed path asks for, or an error when one of them is not classified. */
  method SelectFromGit(
    rules: PathRules, config: SelectorConfig, digests: Digests, lines: seq<string>, ghost paths: seq<string>)
    returns (result: Result<seq<string>>)
    requires SpellOut(lines, paths)
    ensures result.Ok? <==> IsValidConfig(rules, config) && AreClassified(rules, paths, config, digests)
    ensures result.Ok? ==> Sorting.IsAscending(result.value)
    ensures result.Ok? ==> forall t :: t in result.value <==> IsSelected(rules, paths, config, t)
  {
    var files := GetChangedFiles(lines);
    assert AreReadable(lines);
    forall path ensures path in files.value <==> path in paths {
      ListedAreThose(lines, paths, path);
    }
    SameMembers(rules, config, digests, files.value, paths);
    result := LoadAndSelect(rules, config, files.value, digests);
  }

  lemma SameMembers(rules: PathRules, config: SelectorConfig, digests: Digests, files: seq<string>, paths: seq<string>)
    requires forall path :: path in files <==> path in paths
    ensures AreClassified(rules, files, config, digests) <==> AreClassified(rules, paths, config, digests)
    ensures forall t :: IsSelected(rules, files, config, t) <==> IsSelected(rules, paths, config, t)
  {
    forall t ensures IsSelected(rules, files, config, t) <==> IsSelected(rules, paths, config, t) {
    }
  }
}
