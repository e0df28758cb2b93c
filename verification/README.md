# Verified models of the HEAVY-test selector, the Celery async runtime and callback admission

This project models four parts of the backend and proves what they promise.

* **The HEAVY-test selector** (`scripts/select_heavy_tests.py`): brace expansion, the glob language, the
  two-level search that decides whether two globs have a path in common, the configuration validator built
  on it, the decoder for Git's quoted paths, and the fail-closed selection. The main results are about
  languages: a brace pattern stands for an ordered product, both worklist searches decide exactly whether a
  common path over all of Unicode exists although they only try a finite alphabet, an accepted configuration
  can never reach the run-time ambiguity error, and the selection equals a declarative classification of the
  changed paths.
* **The per-process async runtime** (`src/celery_app/async_runtime.py`): a state machine over lifecycle
  steps, forks and any interleaving of processes, with invariants over every run, and a class whose methods
  update the fields as the source does and are proved to follow the machine.
* **Admission over time** (`src/core/api_security.py`): the pruned nonce table against the complete history,
  the clock-skew window together with the nonce's time to live, and the fixed-window rate limiter.
* **The test budget report** (`scripts/check_fast_test_budget.py`): the nearest-rank percentile as a count.

The modules follow the program: `Text`, `Braces`, `CharClasses`, `Segments`, `FiniteAlphabet`, `Paths`,
`Repository`, `OwnRules`, `RepositoryOverlap`, `Sampling`, `Config`, `Ambiguity`, `CandidateRange`, `Sorting`,
`Selection`, `SelectionTheorems`, `Utf8`, `GitQuoting` and `ChangedFiles` for the selector; `RuntimeLifecycle`
(one process), `RuntimeSystem` (all processes) and `RuntimeObject` (the class) for the runtime; `NonceGuard`,
`CallbackAdmission`, `RateLimit` and `RateLimitReach` for admission; `TestBudget` for the report. `GlobLanguage`, `CanonicalPaths`,
`OwnPaths`, `CandidatePaths`, `Documents`, `Hexadecimal` and `Utf8Standard` say once more, in other terms, what
the basic functions of the selector mean. `Results` holds the result types. `dafny verify dfyconfig.toml` checks everything.

## How the source is read

* **Globs.** A path is its segments between slashes. `**` stands for any number of segments, `*` for any run
  of characters inside a segment, `?` for one character, a class for one of its members, and a `[` that is
  not closed in its segment for itself. This is the reading the overlap search itself uses.
* **Strings.** A character is a Unicode scalar value, so surrogates do not occur. Control and format
  characters are those of Unicode 15.1, the version of Python 3.13, which `pyproject.toml` names.
* **Path rules.** The glob of direct HEAVY tests and the candidate globs are a parameter (`PathRules`); the
  repository's own values are the constant `Repository.PATH_RULES`. The same goes for the budgeted
  directories of the report, which must be distinct, as the repository's are
  (`TestBudget.OwnDirectoriesAreDistinct`). Everything is proved for any choice.
* **Errors.** Each `raise` is a constructor of `SelectorError`; texts are not modelled.
* **File contents.** The SHA-256 of every readable file is an input; a missing entry is a file that cannot be read.
* **Runtime stages.** Whether a stage succeeds, fails or times out is an input to each call, and so is what
  the inspection of a failed runner's tasks finds. A runner is identified by its creating process and a serial number.
* **Time.** Clock readings are inputs. Callback admission runs by the wall clock, in real seconds, of which
  the skew check reads the whole ones; the cache drops a nonce 300 real seconds after it was set. The
  in-memory guard and the rate limiter work on whole seconds, as their code does.

## Where the code does less than one might expect

* A sample path need not match the glob it was sampled from (`Sampling.StarClassMissesItsSample`: `[*]` is
  sampled by the word `sample`). Without `*` outside classes, it does exactly when every class holds what
  stands in for it (`Sampling.SampleMatchesIffClassesFit`).
* The docstring of `_sample_paths` says samples recognise overlapping globs; the code uses them only to see
  whether a mapping lies in the candidate range, and so does the model. Overlap is decided on languages.
* Two valid mappings may be refused as ambiguous although no path a repository can hold is matched by both:
  under the selector's own rules `src/[*]` and `src/[*x]` are (`Ambiguity.RefusalMayConcernNoRepositoryPath`).
  A repository path is behind the overlap exactly when some pair of expansions can be joined by words other
  than `.` and `..`, without glob syntax, over the finite alphabet (`Ambiguity.RefusalIsRealIff`).
* The finite alphabet would not be enough for negated classes (`FiniteAlphabet.NegatedClassDefeatsAlphabet`);
  the validator refuses them.
* An accepted mapping need not match any candidate path: `ngin[?]/a` is sampled by `nginx/a` but matches only
  `ngin?/a` (`CandidateRange.AcceptedMappingMayMatchNoCandidate`). It does match one exactly when the overlap
  search finds it to overlap with a candidate glob (`CandidateRange.MatchesSomeCandidateIff`).
* A callback can be admitted twice when a request may take more than 239 seconds from its timestamp check to
  its nonce step; the bound is exact (`CallbackAdmission.AdmissionIsOnceIffDelayIsShort`). It would be 240 if
  every check fell on a whole second, but a reading cuts off up to a second
  (`CallbackAdmission.AdmissionIsOnceIff`).
* A nonce can be refused although its application never used it, because the key joins application and nonce
  with a colon. Every refusal is an actual reuse exactly when no application id is another one followed by a
  colon (`CallbackAdmission.RefusalsAreReusesIff`).
* The nonce guard forgets a live nonce when the clock steps back. Given the times of a run, it gives the
  verdicts of the complete history for all keys and times to live exactly when the times never go back
  (`NonceGuard.VerdictsAgreeIffTimesAscend`); with one fixed, positive time to live, exactly when no entry
  runs out and would still block later (`NonceGuard.VerdictsAgreeIffNothingForgotten`).
* A runner that cannot be closed safely is kept only when nothing was kept before it, so a forked child can
  lose its runner (`RuntimeLifecycle.ForkedChildCanLoseARunner`); and a child whose first lifecycle call is a
  shutdown drops the runner it inherited. For every process of every run, a runner it created or inherited is
  lost exactly in these two cases (`RuntimeSystem.LossIsExact`).
* A failed initialization closes the transport and the device command runtime it built, but neither the
  debug-run service nor the execution runtime; all it built is closed exactly when it failed before the
  debug-run service was there (`RuntimeObject.RollbackIsCompleteIffFailedEarly`).
* The rate limiter lets up to twice its limit through in a sliding window. In a window that starts inside a
  bucket it can get that much exactly when the limits fit each other
  (`RateLimitReach.SlidingBoundIsReachedIff`, `RateLimitReach.TwiceFitsByCounter`). Under the default limits,
  100 a minute and 5000 an hour, every such minute window can be doubled and no hour window can
  (`RateLimitReach.DefaultLimits`).

## Model

| member | source | states |
|---|---|---|
| Braces.ExpandsToProduct | scripts/select_heavy_tests.py:108-117 | a well-formed pattern expands to the Cartesian product of its groups, in declaration order |
| Braces.OnlyWellFormedExpand | scripts/select_heavy_tests.py:100-112 | whatever expands was well-formed: closed, unnested groups of at least two non-empty choices |
| Braces.ExpansionIsExact | scripts/select_heavy_tests.py:98-117 | expansion yields a list if and only if the pattern is a well-formed one with that product; it raises on all others |
| Braces.ProductIsOrdered | scripts/select_heavy_tests.py:114-117 | there are as many expansions as the product of the group sizes, and each selection of choices stands at its rank |
| Braces.RankIsLexicographic | scripts/select_heavy_tests.py:114-117 | ranks follow the lexicographic order of choices, the first group most significant |
| Braces.EveryPlaceIsSelected | scripts/select_heavy_tests.py:114-117 | every place in the list of expansions belongs to a selection |
| Braces.ExpansionsAreBraceFree | scripts/select_heavy_tests.py:98-117 | every expansion is free of braces, and there is at least one |
| Braces.PrefixPassesThrough | scripts/select_heavy_tests.py:114-117 | brace-free text in front of a pattern stays in front of each expansion and changes neither success nor failure |
| Braces.StrayClosingFails | scripts/select_heavy_tests.py:101-104 | a closing brace before the first group makes the whole pattern fail, however many groups follow |
| CharClasses.ClassMatches | scripts/select_heavy_tests.py:207-220 | the index scan decides membership in the set of ranges and single characters written in the class, complemented for `!` |
| CharClasses.RangesAscend | scripts/select_heavy_tests.py:183-185 | no hyphen between two characters has a larger one before it than after it |
| CharClasses.ValidateClassSyntax | scripts/select_heavy_tests.py:166-187 | the scan over classes accepts if and only if every `[` in the pattern, wherever it stands, opens a closed, plain class |
| CharClasses.PlainClassIsInhabited | scripts/select_heavy_tests.py:176-186 | an accepted class matches its own first character, so it is not empty |
| CharClasses.SharedEndpoint | scripts/select_heavy_tests.py:207-220 | two classes without negation that share any character share one that is written in one of them |
| GlobLanguage.ClassesMatchThese | scripts/select_heavy_tests.py:207-220 | a class written as single characters and ranges matches a character if and only if one of them includes it, and after `!` if and only if none does |
| GlobLanguage.EveryContentIsMembers | scripts/select_heavy_tests.py:211-219 | every content of a class is written in that way |
| GlobLanguage.PlainClassesAreThese | scripts/select_heavy_tests.py:173-185 | the accepted classes, by what may not stand in them |
| GlobLanguage.SupportedPatternsAreThese | scripts/select_heavy_tests.py:166-187 | a pattern is accepted if and only if behind each of its opening brackets stands an accepted class and its closing bracket |
| GlobLanguage.SegmentsMatchThese | scripts/select_heavy_tests.py:231-243 | a segment written as tokens matches a word if and only if the word can be cut into pieces, anything for each `*` and one fitting character for each other token |
| GlobLanguage.EverySegmentIsTokens | scripts/select_heavy_tests.py:231-243 | every segment is written as tokens |
| Segments.EpsilonPositions | scripts/select_heavy_tests.py:223-228 | the positions found are the position itself and every one reached across stars only |
| Segments.StepReads | scripts/select_heavy_tests.py:231-243 | a transition on a character, followed by a word read from its target, is that character and word read from its source |
| Segments.ReadsStep | scripts/select_heavy_tests.py:231-243 | conversely every word that is read is read by leaving some stars and taking one transition |
| Segments.EmptyWordReads | scripts/select_heavy_tests.py:223-228 | the empty word is read from a position if and only if the end is reached across stars |
| Segments.AutomatonKeepsBoundaries | scripts/select_heavy_tests.py:223-243 | from token boundaries only token boundaries are reached, never the inside of a class |
| Segments.SuccessorShares | scripts/select_heavy_tests.py:265-274 | a shared word of a successor pair extends to a shared word of the pair itself |
| Segments.ClosedSetSharesNothing | scripts/select_heavy_tests.py:258-275 | a set of pairs closed under stars and letters that misses the accepting pair holds no pair with a shared word |
| Segments.ReadLetters | scripts/select_heavy_tests.py:267-274 | one visit appends exactly the star-closed successors over all letters, in whatever order the sets are walked |
| Segments.SegmentPatternsOverlap | scripts/select_heavy_tests.py:246-275 | the product search ends and says yes if and only if some word over its alphabet is accepted by both segments |
| FiniteAlphabet.CommonLetter | scripts/select_heavy_tests.py:247-250 | two tokens that fit a common Unicode character fit a common letter of the finite alphabet |
| FiniteAlphabet.Respell | scripts/select_heavy_tests.py:247-250 | any common word of two token sequences can be respelled over the letters, at the same length |
| FiniteAlphabet.FiniteAlphabetSuffices | scripts/select_heavy_tests.py:247-250 | two validated segments share a Unicode word if and only if they share one over the finite alphabet |
| FiniteAlphabet.SupportedSegmentIsInhabited | scripts/select_heavy_tests.py:166-187 | every validated segment matches some slash-free word |
| FiniteAlphabet.NegatedClassDefeatsAlphabet | scripts/select_heavy_tests.py:176-182 | a negated class and `?` share words, but none over the alphabet: the reason negation is refused |
| GlobLanguage.GlobsMatchThese | scripts/select_heavy_tests.py:288-305 | a brace-free glob matches a path if and only if the segments of the path can be grouped, any number for each `**` and one matching segment for each other part |
| Paths.CommonPathIsFound | scripts/select_heavy_tests.py:278-306 | any path matched by both lists of parts is a way through the search, `**` on either or both sides included |
| Paths.FoundWayIsCommonPath | scripts/select_heavy_tests.py:278-306 | any way through the search is walked by an actual path that matches both |
| Paths.ExpandedPatternsOverlap | scripts/select_heavy_tests.py:278-306 | the worklist search over part positions ends and answers the recursive question whether the parts can be joined |
| Paths.Advance | scripts/select_heavy_tests.py:292-305 | one visit appends exactly the pairs from which the rest must still be joined |
| Paths.JoinableIsOverlap | scripts/select_heavy_tests.py:278-306 | for validated parts, joinable if and only if some sequence of segments matches both |
| Paths.OverlapIsExact | scripts/select_heavy_tests.py:278-306 | for validated globs the search says yes if and only if some path matches both |
| Paths.StretchIsSupported | scripts/select_heavy_tests.py:166-187 | validating the whole glob validates each of its segments, also when a class spans a slash |
| Paths.GlobsOverlapByExpansion | scripts/select_heavy_tests.py:309-315 | two globs share a path if and only if some pair of their expansions does |
| Paths.PatternsOverlap | scripts/select_heavy_tests.py:309-315 | fails only on malformed braces; for validated globs true if and only if some path matches both globs |
| OwnRules.OwnGlobsNeverFail | scripts/select_heavy_tests.py:120-131 | matching any path against the selector's own globs never raises, so a no from the classification is a no |
| OwnPaths.HeavyTestsAreThese | scripts/select_heavy_tests.py:126-127 | the HEAVY tests by their segments: below one of five directories of `tests`, named `test_*.py` |
| CandidatePaths.CandidatesAreThese | scripts/select_heavy_tests.py:51-78 | the candidates by names and segments: source directories, thirteen single files, deployment and data files by their names, test equipment |
| CanonicalPaths.ControlsAreThese | scripts/select_heavy_tests.py:151 | the refused characters, range by range |
| CanonicalPaths.RelativePathsAreThese | scripts/select_heavy_tests.py:147-163 | a value is accepted if and only if it is names with slashes between them, none empty, `.`, `..` or with a backslash or refused character, and without glob syntax unless that is allowed |
| RepositoryOverlap.PartsOfRepositoryPath | scripts/select_heavy_tests.py:147-163 | the parts of a repository path are words other than `.` and `..`, without glob syntax, backslash, control or format characters |
| RepositoryOverlap.PlainWordsMakeRepositoryPath | scripts/select_heavy_tests.py:147-163 | conversely, a path made of such words is a repository path |
| RepositoryOverlap.PlainAlphabetSuffices | scripts/select_heavy_tests.py:247-250 | two validated parts that share such a word share one over the finite alphabet |
| RepositoryOverlap.RepositoryOverlapIsExact | scripts/select_heavy_tests.py:278-306 | two validated globs share a path that a repository can hold if and only if their parts can be joined by such words over the finite alphabet |
| Repository.ExactGlobIsSingleton | scripts/select_heavy_tests.py:120-123 | a valid path without glob syntax, used as a glob, expands to itself and matches exactly itself |
| Repository.SuffixIsFound | scripts/select_heavy_tests.py:134-138 | whatever can be cut off a name as a suffix, leaving something, is its suffix |
| Repository.FoundIsSuffix | scripts/select_heavy_tests.py:134-138 | a suffix that is found starts at the last dot and leaves something in front |
| Documents.DocumentsAreThese | scripts/select_heavy_tests.py:134-144 | a path is a human document if and only if its file name, in either case of letters, is `readme` or `license`, or something and one of six endings, or something and `.txt` while it is no candidate and does not begin with `requirements` or `constraints` |
| Repository.TextCandidateIsNoDocument | scripts/select_heavy_tests.py:140-144 | a `.txt` file in the candidate range is never taken for a human document |
| Sampling.SampleParts | scripts/select_heavy_tests.py:194-202 | the partial lists are exactly the readings of the parts with each `**` dropped or filled and each other part sampled |
| Sampling.SamplePaths | scripts/select_heavy_tests.py:190-204 | the result holds exactly the sample paths of all expansions |
| GlobLanguage.SamplesAreThese | scripts/select_heavy_tests.py:190-204 | the samples of validated parts are those in which each `**` becomes nothing or `sample`, and every other part its tokens' replacements |
| Sampling.SampleMatches | scripts/select_heavy_tests.py:190-204 | every sample of a validated glob is matched by it when each class holds what stands in for it, in particular when none begins with `*` or `?` |
| Sampling.SampleMatchesIffClassesFit | scripts/select_heavy_tests.py:199-201 | without `*` outside classes the sample is matched if and only if each class holds what stands in for it |
| Sampling.StarClassMissesItsSample | scripts/select_heavy_tests.py:199-200 | the valid glob `[*]` does not match its own sample |
| Sampling.StarBesideClassAbsorbs | scripts/select_heavy_tests.py:199-200 | with `*` in front, a class that begins with `*` and holds `e` matches its sample although it does not hold what stands in for it |
| Hexadecimal.DigestSpellings | scripts/select_heavy_tests.py:351 | the strings of 64 lower-case hexadecimal digits are exactly the spellings of 32 bytes |
| Config.ValidateMapping | scripts/select_heavy_tests.py:330-352 | accepts if and only if the glob is valid, some sample is a candidate, all tests are HEAVY paths and a fingerprint spells 32 bytes and stands beside an exact path |
| Config.FindConflict | scripts/select_heavy_tests.py:354-359 | reports a conflict if and only if some path is matched by two mappings with different policies |
| Config.AmbiguityIsDisagreement | scripts/select_heavy_tests.py:354-359 | mappings are unambiguous if and only if no two of them match one path with different tests or fingerprints |
| Config.ValidateConfig | scripts/select_heavy_tests.py:318-361 | accepts exactly the configurations with valid globs and mappings in which no path has two policies, and returns them unchanged; reports ambiguity exactly when that alone is what is wrong |
| Config.MatchingMappingsAgree | scripts/select_heavy_tests.py:354-359 | in an accepted configuration all mappings that match a path carry the same tests and the same fingerprint |
| Config.FingerprintedMappingIsSingleton | scripts/select_heavy_tests.py:342-352 | an accepted fingerprinted mapping expands to itself and matches exactly the path equal to it |
| Config.ValidMappingMatchesACandidate | scripts/select_heavy_tests.py:336-337 | an accepted mapping whose classes hold what stands in for them matches at least one candidate path |
| CandidateRange.MatchesSomeCandidateIff | scripts/select_heavy_tests.py:336-337 | a valid source matches some candidate path if and only if the overlap search finds it to overlap with a candidate glob |
| CandidateRange.OwnRulesAreSupported | scripts/select_heavy_tests.py:130-131 | the overlap search is exact for each of the selector's own candidate globs |
| CandidateRange.AcceptedMappingMayMatchNoCandidate | scripts/select_heavy_tests.py:336-337 | under the selector's own rules a valid mapping is accepted for its sample although no candidate path is matched by it |
| Ambiguity.RefusalIsRealIff | scripts/select_heavy_tests.py:354-359 | two valid globs both match a path that a repository can hold if and only if some pair of their expansions can be joined by words such a path may contain |
| Ambiguity.RefusalMayConcernNoRepositoryPath | scripts/select_heavy_tests.py:354-359 | under the selector's own rules two valid mappings conflict although only a path with a star in it, which can be no changed path, is matched by both |
| Selection.AddMappedTests | scripts/select_heavy_tests.py:522-534 | adds the tests of all matched mappings, or stops at the first fingerprint that cannot be confirmed |
| Selection.SelectHeavyTests | scripts/select_heavy_tests.py:495-545 | the loop returns, sorted and without repetition, the union of what each path contributes, or the error of the first path that fails |
| SelectionTheorems.MatchedNeverDiffer | scripts/select_heavy_tests.py:516-521 | under an accepted configuration the run-time ambiguity branch is unreachable |
| SelectionTheorems.ContributionIsExact | scripts/select_heavy_tests.py:505-539 | a path succeeds if and only if it is a HEAVY test, a document, a mapped candidate with confirmed content or an ignored non-candidate, and contributes exactly the tests it asks for |
| SelectionTheorems.SelectionIsExact | scripts/select_heavy_tests.py:495-545 | the selection succeeds if and only if every changed path is classified, holds exactly the tests some path asks for, and reports neither ambiguity nor an invalid output |
| SelectionTheorems.SelectedIsExecutable | scripts/select_heavy_tests.py:541-544 | every selected test is a canonical HEAVY path, so the final output check never fires |
| SelectionTheorems.SelectionOfUnion | scripts/select_heavy_tests.py:495-545 | selecting for one list after another succeeds if and only if both parts do, and is then the union of the parts |
| SelectionTheorems.SelectionIgnoresOrder | scripts/select_heavy_tests.py:495-545 | order and repetition of changed paths, of mappings and of ignore globs do not matter |
| SelectionTheorems.LoadAndSelect | scripts/select_heavy_tests.py:318-361 | validation and selection together succeed if and only if the configuration is valid and every path is classified, and return exactly the tests asked for, ascending |
| Sorting.Sorted | scripts/select_heavy_tests.py:545 | the output lists the selection in strictly ascending order |
| Sorting.SortedIsUnique | scripts/select_heavy_tests.py:545 | there is only one such list, so the set of selected tests determines the output |
| Sorting.LessIsLexicographic | scripts/select_heavy_tests.py:545 | the order is lexicographic by code point |
| Utf8.DecodeInvertsEncode | scripts/select_heavy_tests.py:452-455 | a byte string decodes to a text if and only if it is that text's UTF-8 encoding (section 4 of RFC 3629) |
| Utf8Standard.EncodingsAreWellFormed | scripts/select_heavy_tests.py:428 | the encodings of single characters are exactly the sequences of the grammar in section 4 of RFC 3629 |
| Utf8Standard.EncodingKeepsOrder | scripts/select_heavy_tests.py:428 | texts are in code-point order if and only if their encodings are in byte order |
| Utf8Standard.EncodingIsByCharacter | scripts/select_heavy_tests.py:428 | a text is encoded character by character |
| Utf8Standard.EncodingIsUnique | scripts/select_heavy_tests.py:428 | there is only one encoding of characters onto that grammar that keeps their order |
| GitQuoting.NamedEscapesAreThese | scripts/select_heavy_tests.py:411-421 | the named escapes and their bytes: 7 to 13 in C's order, a quote and a backslash for themselves |
| GitQuoting.OctalDigitsAreThese | scripts/select_heavy_tests.py:440-442 | the octal digits |
| GitQuoting.OctalIsByPlace | scripts/select_heavy_tests.py:444 | one, two or three octal digits are read by place |
| GitQuoting.ReadEscape | scripts/select_heavy_tests.py:430-450 | one escape yields a single byte and always advances, or fails where the quoting is malformed |
| GitQuoting.UnescapeContent | scripts/select_heavy_tests.py:422-450 | the loop computes the bytes the quoted content spells, piece by piece from the left |
| GitQuoting.DecodeGitQuotedPath | scripts/select_heavy_tests.py:404-455 | computes the decoding that the next two members characterise |
| GitQuoting.DecodingUndoesQuoting | scripts/select_heavy_tests.py:404-455 | any mixture of raw characters, named and octal escapes that spells a path's UTF-8 bytes decodes to the path |
| GitQuoting.DecodingIsExact | scripts/select_heavy_tests.py:404-455 | a value decodes to a path if and only if it is the path without quotes at its ends or a quotation of the path |
| GitQuoting.EveryByteStringIsQuoted | scripts/select_heavy_tests.py:437-449 | every byte string has a quotation, so every path can be quoted and read back |
| ChangedFiles.GetChangedFiles | scripts/select_heavy_tests.py:491-492 | Git's lines are read if and only if each non-empty one spells a path, and give the spelled paths in ascending order without repetition |
| ChangedFiles.SelectionIgnoresQuoting | scripts/select_heavy_tests.py:491-545 | however Git quotes and orders the changed paths, they are read back and lead to the tests the paths themselves lead to |
| ChangedFiles.SelectFromGit | scripts/select_heavy_tests.py:491-545 | from Git's lines to the output: any spelling of the changed paths succeeds if and only if the configuration is valid and the paths are classified, with exactly the tests asked for |
| RuntimeLifecycle.ActKeepsInvariant | src/celery_app/async_runtime.py:371-458 | every step keeps runner, generation and owner together in READY and CLOSING, the lock holder consistent with the state, and runners used by their creator only |
| RuntimeLifecycle.AccessIsGuarded | src/celery_app/async_runtime.py:83-134 | accessors show services only in READY and only to the owner |
| RuntimeLifecycle.ActConservesRunners | src/celery_app/async_runtime.py:319-339 | in a process that inherited no runner every step leaves each created runner current, a candidate, closed or kept |
| RuntimeLifecycle.UnsafeAbortKeepsIffNothingKept | src/celery_app/async_runtime.py:319-339 | a runner that cannot be closed is kept if and only if nothing was kept before |
| RuntimeLifecycle.AccountChanges | src/celery_app/async_runtime.py:319-339 | in any process a runner it created or inherited stays accounted for in every step, except the abort that cannot close it while another is kept and the shutdown that finds it inherited; a lost one stays lost |
| RuntimeLifecycle.ForkedChildCanLoseARunner | src/celery_app/async_runtime.py:328-337 | in the child of a ready parent a failed initialization loses its runner |
| RuntimeSystem.NextKeepsInvariant | src/celery_app/async_runtime.py:371-622 | any step of any process and any fork keeps the invariants of all processes |
| RuntimeSystem.LifecycleInvariant | src/celery_app/async_runtime.py:58-150 | over every run of steps and forks: fields present together exactly in READY and CLOSING, services shown to the owner only, no runner used outside its creator |
| RuntimeSystem.RunnersAreConserved | src/celery_app/async_runtime.py:386-438 | over every run a process that inherited no runner loses none |
| RuntimeSystem.LossIsExact | src/celery_app/async_runtime.py:319-339 | over every run and for every process, a runner it created or inherited is lost if and only if a failed initialization could not close it while another was kept, or it was inherited and the first lifecycle call was a shutdown |
| RuntimeSystem.NewHoldsNothingOpen | src/celery_app/async_runtime.py:402-428 | over every run, in a process that inherited no runner, a runtime that is NEW with nothing going on has closed every runner it created |
| RuntimeSystem.FailureIsFinalIffUnsafe | src/celery_app/async_runtime.py:402-428 | over every run, after a failed initialization the next one starts over if the runner was never created or had no pending task, and otherwise no runner is created or used there again |
| RuntimeSystem.ClosedIsFinal | src/celery_app/async_runtime.py:542-622 | in a process recorded as shut down no continuation of the run creates or uses a runner, and neither `initialize` nor `run_async` changes anything |
| RuntimeSystem.DescendantsAreShutDown | src/celery_app/async_runtime.py:542-622 | a process forked after a shutdown is shut down from birth |
| RuntimeObject.CeleryAsyncRuntime.ResetForkInheritedState | src/celery_app/async_runtime.py:136-150 | a foreign runtime becomes NEW, its runner is only kept; an own or unowned one is untouched |
| RuntimeObject.CeleryAsyncRuntime.InitializeInfrastructure | src/celery_app/async_runtime.py:195-310 | a service is in the progress record if and only if its stage and all earlier ones pass, the call completes if and only if all stages pass, and nothing is built before the database is up |
| RuntimeObject.CeleryAsyncRuntime.RollbackFailedInitialization | src/celery_app/async_runtime.py:342-363 | whatever the results, every needed cleanup and no other is attempted once, in the documented order, and exactly the failed ones are reported |
| RuntimeObject.CeleryAsyncRuntime.CloseRunnerIfSafe | src/celery_app/async_runtime.py:319-339 | closes only a runner whose tasks are known to be done, otherwise keeps it if nothing is kept |
| RuntimeObject.CeleryAsyncRuntime.AbortInitialization | src/celery_app/async_runtime.py:402-428 | the abort step: rollback when the database had come up, then close or keep the runner, then NEW or CLOSED with everything cleared |
| RuntimeObject.CeleryAsyncRuntime.PublishCandidate | src/celery_app/async_runtime.py:430-438 | the publish step: runner, generation, owner and services appear together with READY |
| RuntimeObject.CeleryAsyncRuntime.InitializeLocked | src/celery_app/async_runtime.py:371-438 | from NEW it succeeds if and only if the runner, all stages and the generation do, and then shows the services built, the owner and the new runner; a failure leaves the events of its rollback and close and NEW or CLOSED; any other state is left as it is |
| RuntimeObject.CeleryAsyncRuntime.RunAsync | src/celery_app/async_runtime.py:440-458 | if the runtime is READY afterwards, exactly one message was run, as the last event and on the current runner, and from READY nothing else was done; otherwise no message was run; it returns if and only if the message ran and succeeded |
| RuntimeObject.CeleryAsyncRuntime.RunShutdownStages | src/celery_app/async_runtime.py:562-599 | attempts every stage in order whatever the ones before did; the last decides how to close |
| RuntimeObject.CeleryAsyncRuntime.ShutdownLocked | src/celery_app/async_runtime.py:542-622 | the call is a sequence of machine steps and leaves the runtime CLOSED from any state and owner |
| RuntimeObject.CeleryAsyncRuntime.ShutDown | src/celery_app/async_runtime.py:534-540 | a ready runtime of its owner goes through each stage there is, once and in the documented order, and then closes the runner, or the loop unless the last stage reports that all tasks stopped; otherwise nothing is done; all fields are cleared |
| RuntimeObject.CeleryAsyncRuntime.ReadServices | src/celery_app/async_runtime.py:83-119 | an accessor refuses exactly the processes that are not the owner, and shows the published services in READY and nothing otherwise |
| RuntimeObject.ShutdownAttemptsEverything | src/celery_app/async_runtime.py:534-622 | a shutdown of a ready runtime runs each stage of the documented order once, then closes the runner, or its loop when tasks refuse to stop |
| RuntimeObject.RollbackIsCompleteIffFailedEarly | src/celery_app/async_runtime.py:342-363 | a full rollback closes the transport and device command runtimes whenever built, and everything that was built if and only if the debug-run service was not |
| RuntimeObject.CallsAreRuns | src/celery_app/async_runtime.py:365-458 | what a call does is a stretch of a system run, including the record of returned shutdown calls |
| RuntimeObject.ShutdownReturns | src/celery_app/async_runtime.py:542-622 | from any state and owner a shutdown call is recorded as returned |
| RuntimeObject.NothingFollowsShutdown | src/celery_app/async_runtime.py:534-622 | after a shutdown call at any point of any run and whatever follows, no runner is created or used in that process again, and `initialize` and `run_async` leave the closed runtime as it is |
| NonceGuard.ConsumedIsFaithful | src/core/api_security.py:82-94 | with time not going back, a use is accepted if and only if the complete history does not block it, and after an acceptance the table holds exactly the live keys |
| NonceGuard.TableRefinesHistory | src/core/api_security.py:76-94 | over every run with non-decreasing time and any times to live the pruned table gives the verdicts of the unbounded history |
| NonceGuard.VerdictsAgreeIffTimesAscend | src/core/api_security.py:82-94 | for given times of a run, the pruned table and the complete history agree for all keys and times to live if and only if time never goes back |
| NonceGuard.VerdictsAgreeIffNothingForgotten | src/core/api_security.py:82-94 | with one fixed, positive time to live and given times, the pruned table and the complete history agree for all keys if and only if no entry runs out at one time and would still block at a later one |
| NonceGuard.InMemoryNonceReplayGuard.Consume | src/core/api_security.py:82-89 | the new table and the answer, and that they are those of the complete history as long as time does not go back |
| NonceGuard.InMemoryNonceReplayGuard.Prune | src/core/api_security.py:91-94 | removes exactly the entries whose time has come |
| CallbackAdmission.GuardedPathsAreThese | src/core/api_security.py:48-55 | with an API path of `base` and any number of slashes, the guarded paths are exactly those that begin with `base/v1/callback/` |
| CallbackAdmission.CallbackWindow | src/core/api_security.py:58-63 | a request on such a path passes the checks before the nonce step if and only if it is authentic and its timestamp is within 30 seconds of the reading, either way |
| CallbackAdmission.CallbackIsAdmittedOnce | src/core/api_security.py:135-199 | two requests on such paths with the same application, nonce and timestamp are not both admitted, as long as each takes fewer than 239 seconds from its skew check to its nonce step |
| CallbackAdmission.AdmissionBlocks | src/core/api_security.py:193-199 | an admitted callback's nonce stays blocked for its whole time to live, whatever other requests do in between |
| CallbackAdmission.ReplaysAreCaught | src/core/api_security.py:135-199 | in any run whose delays between skew check and nonce step, together with what the whole-second readings cut off, stay within 240 seconds, no two callbacks with the same application, nonce and timestamp are admitted |
| CallbackAdmission.DelayedReplayIsAdmittedTwice | src/core/api_security.py:135-199 | beyond that a replay is admitted twice |
| CallbackAdmission.AdmissionIsOnceIff | src/core/api_security.py:58-63 | for checks at most a given fraction of a second after their readings, every run admits each application, nonce and timestamp at most once if and only if delay and fraction together are at most 240 seconds |
| CallbackAdmission.AdmissionIsOnceIffDelayIsShort | src/core/api_security.py:135-142 | by the wall clock a bound on the delay makes every run admit each application, nonce and timestamp at most once if and only if the bound is at most 239 seconds |
| CallbackAdmission.HeldIsAdmitted | src/core/api_security.py:193-199 | whatever nonce the cache holds was put there, with its expiry, by an admitted callback |
| CallbackAdmission.RefusalsAreReusesIff | src/core/api_security.py:193-199 | every refusal for the nonce is a live reuse by the same application if and only if no application id is another one followed by a colon |
| CallbackAdmission.WithoutColonsSeparated | src/core/api_security.py:193-195 | application ids without colons are never confused |
| CallbackAdmission.OtherPathsDoNotInterfere | src/core/api_security.py:165-199 | whatever comes after a run is judged as if only the callbacks of the run had come before it, and requests elsewhere are admitted however often they came before |
| RateLimit.RateLimiter.IncrWithExpire | src/database/redis_cache.py:510-545 | counts one more in the live counter or starts one at 1; only the first increment sets the expiry |
| RateLimit.RateLimiter.CheckRateLimit | src/core/api_security.py:224-247 | the new counters and the verdict of the two-level check |
| RateLimit.CountersMatchLog | src/core/api_security.py:224-247 | over every run with non-decreasing time each counter equals the number of log entries in its bucket that reached it, the hour counter leaving out those rejected by the minute |
| RateLimit.VerdictsFollowLog | src/core/api_security.py:224-247 | each verdict is the one the complete log of earlier requests calls for |
| RateLimit.BucketIsLimited | src/core/api_security.py:224-247 | no minute and no hour bucket admits more than its limit |
| RateLimit.SlidingBounds | src/core/api_security.py:224-247 | any 60 consecutive seconds admit at most twice the minute limit, any 3600 at most twice the hour limit, also when they start between two whole seconds |
| RateLimitReach.BurstIsAdmitted | src/core/api_security.py:230-247 | after any run, as many requests at one time as both counters have room for are all admitted |
| RateLimitReach.FillMinutes | src/core/api_security.py:230-247 | after any run, as many requests as the minutes ahead and the hour have room for are all admitted, minute by minute |
| RateLimitReach.TwiceNeedsFit | src/core/api_security.py:230-247 | a run that gets twice the limit through in a window that starts inside a bucket shows that the limits fit |
| RateLimitReach.SlidingBoundIsReachedIff | src/core/api_security.py:230-247 | for every window that starts inside a bucket, some run gets exactly twice the limit through if and only if the limit fits into the minutes on either side of the boundary and into the hours |
| RateLimitReach.BucketsAreNotDoubled | src/core/api_security.py:230-247 | a window that is itself a bucket is never doubled, unless the limit is 0 |
| RateLimitReach.TwiceFitsByCounter | src/core/api_security.py:230-241 | what fitting means for a minute window and for an hour window |
| RateLimitReach.DefaultLimits | src/app/api_auth/services/app_service.py:264-265 | under the default limits every minute window that starts inside a bucket can be doubled and no hour window can |
| TestBudget.PercentileIsNearestRank | scripts/check_fast_test_budget.py:34-37 | at least ceil(0.95 n) values are at most the percentile and fewer than that are below it |
| TestBudget.CountsDetermineValue | scripts/check_fast_test_budget.py:34-37 | no other value of the list has these two counts |
| TestBudget.VerdictIsCounting | scripts/check_fast_test_budget.py:69-77 | the percentile exceeds a budget if and only if fewer than ceil(0.95 n) values are within it |
| TestBudget.SortedKeepsCounts | scripts/check_fast_test_budget.py:37 | sorting puts the values in order and keeps how many lie at or below any bound |
| TestBudget.ScanCases | scripts/check_fast_test_budget.py:56-67 | groups the durations by budgeted directory in report order and collects the slow cases |
| TestBudget.ReportDirectories | scripts/check_fast_test_budget.py:69-77 | reports, in order, the directories that are too slow by count |
| TestBudget.DurationsAreCounted | scripts/check_fast_test_budget.py:64-67 | the durations kept for a directory are those of the test cases whose class name, with slashes for dots, begins with it |
| TestBudget.CollectViolations | scripts/check_fast_test_budget.py:47-79 | the suite is reported if and only if it took more than 180 seconds, a case if and only if more than 12, a directory if and only if of its at least 30 cases fewer than 95 percent are within 0.1 seconds, with their nearest-rank duration |

## Left out

- Config.ValidMappingMatchesACandidate: one direction only, by a look at the classes; `CandidateRange.MatchesSomeCandidateIff` is exact, by a search.
- Sampling.SampleMatches: one direction for globs with `*` outside classes, where a star next to a class can absorb the difference (`Sampling.StarBesideClassAbsorbs`, `Sampling.UnfitClassMayMatch`); without such a star `Sampling.SampleMatchesIffClassesFit` is exact.
- RuntimeSystem.RunnersAreConserved: speaks of processes that inherited no runner; `RuntimeSystem.LossIsExact` covers all.
- RateLimit.SlidingBounds: the branch that skips the limit while the cache is unavailable is not modelled, and a check reads the clock and increments at one instant, at the whole second; by the wall clock a counter lives up to a second longer, past the same end of its bucket.
- TestBudget.PercentileIsNearestRank: durations are reals and 0.95 is the rational 19/20; binary rounding is not modelled.
- `pathlib`'s own regular expressions and normalisation of paths; globs have the segment-wise meaning given above, under which a trailing `**` also stands for no segment.
- Calling Git and splitting its output into lines, loading TOML, command-line arguments, printing, and the filters on files that no longer exist.
- `@cache`, which is invisible on pure functions.
- In the runtime: asyncio scheduling, actual timeouts, logging, what the stages do, a runner that refuses to run the rollback at all, the check for a running event loop, and the draining of API access logs.
- Signal handlers that call shutdown while the same thread is inside another lifecycle call, and forks from inside one (a child forked while another thread holds the lock can make no lifecycle call).
- Signatures, body hashes, decryption, application lookup, IP lists and permissions, which one flag per request stands for, and the switch that skips authentication.
- Reading the XML report and the sum of its suite times; the total is an input.
- Migrations, wiring and the other scripts, which would add only easy members.
