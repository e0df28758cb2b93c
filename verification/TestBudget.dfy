/** Speed budgets of a test report; the directory budget bounds the 95th percentile by nearest rank. */
module TestBudget {
  import Text

  const SUITE_BUDGET_SECONDS := 180.0
  const CASE_BUDGET_SECONDS := 12.0
  const DIRECTORY_P95_BUDGET_SECONDS := 0.1
  const MINIMUM_DIRECTORY_CASE_COUNT := 30

  /** The directories the repository budgets; everything below holds for any list of them. */
  const P95_BUDGET_DIRECTORIES: seq<string> := ["tests/unit/"]

  // ----- sorting and counting

  function Insert(x: real, sorted: seq<real>): (r: seq<real>)
    ensures |r| == |sorted| + 1
  {
    if sorted == [] || x <= sorted[0] then [x] + sorted else [sorted[0]] + Insert(x, sorted[1..])
  }

  function Sorted(values: seq<real>): (r: seq<real>)
    ensures |r| == |values|
  {
    if values == [] then [] else Insert(values[0], Sorted(values[1..]))
  }

  ghost predicate IsAscending(xs: seq<real>) {
    forall i, j :: 0 <= i < j < |xs| ==> xs[i] <= xs[j]
  }

  function CountAtMost(values: seq<real>, bound: real): (n: nat)
    ensures n <= |values|
  {
    if values == [] then 0 else (if values[0] <= bound then 1 else 0) + CountAtMost(values[1..], bound)
  }

  function CountBelow(values: seq<real>, bound: real): (n: nat)
    ensures n <= |values|
  {
    if values == [] then 0 else (if values[0] < bound then 1 else 0) + CountBelow(values[1..], bound)
  }

  lemma {:induction false} InsertIsAscending(x: real, sorted: seq<real>)
    requires IsAscending(sorted)
    ensures IsAscending(Insert(x, sorted))
    ensures forall y :: y in Insert(x, sorted) <==> y == x || y in sorted
    decreases |sorted|
  {
    if sorted != [] && x > sorted[0] {
      InsertIsAscending(x, sorted[1..]);
      assert forall y :: y in sorted <==> y == sorted[0] || y in sorted[1..];
      var rest := Insert(x, sorted[1..]);
      forall k | 0 <= k < |rest| ensures sorted[0] <= rest[k] {
        assert rest[k] in rest;
      }
    }
  }

  lemma {:induction false} InsertCounts(x: real, sorted: seq<real>, bound: real)
    ensures CountAtMost(Insert(x, sorted), bound) == CountAtMost([x] + sorted, bound)
    ensures CountBelow(Insert(x, sorted), bound) == CountBelow([x] + sorted, bound)
    decreases |sorted|
  {
    assert ([x] + sorted)[1..] == sorted;
    if sorted != [] && x > sorted[0] {
      InsertCounts(x, sorted[1..], bound);
      assert ([x] + sorted[1..])[1..] == sorted[1..];
      assert ([sorted[0]] + Insert(x, sorted[1..]))[1..] == Insert(x, sorted[1..]);
    }
  }

  /** Sorting orders the values and keeps how many lie at or below any bound. */
  lemma {:induction false} SortedKeepsCounts(values: seq<real>, bound: real)
    ensures IsAscending(Sorted(values))
    ensures CountAtMost(Sorted(values), bound) == CountAtMost(values, bound)
    ensures CountBelow(Sorted(values), bound) == CountBelow(values, bound)
    decreases |values|
  {
    if values != [] {
      var rest := Sorted(values[1..]);
      SortedKeepsCounts(values[1..], bound);
      InsertIsAscending(values[0], rest);
      InsertCounts(values[0], rest, bound);
      assert ([values[0]] + rest)[1..] == rest;
    }
  }

  /** In ascending order, the element at place `k` is within a bound exactly when more than `k` are. */
  lemma {:induction false} PlaceMeansCount(xs: seq<real>, k: nat, bound: real)
    requires IsAscending(xs) && k < |xs|
    ensures xs[k] <= bound <==> CountAtMost(xs, bound) > k
    ensures xs[k] < bound <==> CountBelow(xs, bound) > k
    decreases |xs|
  {
    if k == 0 {
      if xs[0] > bound { NoneWithin(xs, bound); }
      if xs[0] >= bound { NoneBelow(xs, bound); }
    } else {
      assert xs[1..][k - 1] == xs[k];
      PlaceMeansCount(xs[1..], k - 1, bound);
      assert xs[0] <= xs[k];
      if xs[0] > bound { NoneWithin(xs, bound); }
      if xs[0] >= bound { NoneBelow(xs, bound); }
    }
  }

  lemma {:induction false} NoneWithin(xs: seq<real>, bound: real)
    requires forall k :: 0 <= k < |xs| ==> xs[k] > bound
    ensures CountAtMost(xs, bound) == 0
    decreases |xs|
  {
    if xs != [] { NoneWithin(xs[1..], bound); }
  }

  lemma {:induction false} NoneBelow(xs: seq<real>, bound: real)
    requires forall k :: 0 <= k < |xs| ==> xs[k] >= bound
    ensures CountBelow(xs, bound) == 0
    decreases |xs|
  {
    if xs != [] { NoneBelow(xs[1..], bound); }
  }

  // ----- the percentile

  /** `ceil(0.95 n)`, with the exact rational 19/20. */
  function Rank(n: nat): (k: nat)
    ensures n > 0 ==> 0 < k <= n
    ensures 20 * k >= 19 * n > 20 * (k - 1)
  {
    (19 * n + 19) / 20
  }

  /** Indexing fails on an empty list. */
  function Percentile95(values: seq<real>): real
    requires values != []
  {
    Sorted(values)[Rank(|values|) - 1]
  }

  /** The nearest-rank value: at least 95 percent of the values are at most it, fewer are below it. */
  lemma PercentileIsNearestRank(values: seq<real>)
    requires values != []
    ensures CountAtMost(values, Percentile95(values)) >= Rank(|values|)
    ensures CountBelow(values, Percentile95(values)) < Rank(|values|)
  {
    var v := Percentile95(values);
    SortedKeepsCounts(values, v);
    RankedVerdict(Sorted(values), Rank(|values|), v);
  }

  /** The two counts determine the value. */
  lemma {:induction false} CountsDetermineValue(values: seq<real>, v: real)
    requires values != [] && v in values
    requires CountAtMost(values, v) >= Rank(|values|) > CountBelow(values, v)
    ensures v == Percentile95(values)
  {
    var p := Percentile95(values);
    SortedKeepsCounts(values, v);
    PlaceMeansCount(Sorted(values), Rank(|values|) - 1, v);
  }

  /** The percentile exceeds a budget exactly when fewer than 95 percent of the values are within it. */
  lemma VerdictIsCounting(values: seq<real>, budget: real)
    requires values != []
    ensures Percentile95(values) > budget <==> CountAtMost(values, budget) < Rank(|values|)
  {
    SortedKeepsCounts(values, budget);
    RankedVerdict(Sorted(values), Rank(|values|), budget);
  }

  lemma RankedVerdict(xs: seq<real>, k: nat, bound: real)
    requires IsAscending(xs) && 0 < k <= |xs|
    ensures xs[k - 1] > bound <==> CountAtMost(xs, bound) < k
    ensures CountAtMost(xs, xs[k - 1]) >= k > CountBelow(xs, xs[k - 1])
  {
    PlaceMeansCount(xs, k - 1, bound);
    PlaceMeansCount(xs, k - 1, xs[k - 1]);
  }

  // ----- the report

  datatype TestCase = TestCase(classname: string, name: string, duration: real)

  datatype Violation =
    | SuiteTooSlow(total: real)
    | CaseTooSlow(classname: string, name: string, duration: real)
    | DirectoryTooSlow(directory: string, p95: real, count: nat)

  function ClassnameToPath(classname: string): string {
    seq(|classname|, k requires 0 <= k < |classname| => if classname[k] == '.' then '/' else classname[k])
  }

  /** The durations of the test cases below a directory, in report order. */
  function Durations(directory: string, cases: seq<TestCase>): seq<real> {
    if cases == [] then []
    else
      Extended(Durations(directory, cases[..|cases| - 1]), directory, cases[|cases| - 1])
  }

  function Extended(durations: seq<real>, directory: string, c: TestCase): seq<real> {
    if directory <= ClassnameToPath(c.classname) then durations + [c.duration] else durations
  }

  function SlowCases(cases: seq<TestCase>): seq<Violation> {
    if cases == [] then []
    else
      var last := cases[|cases| - 1];
      SlowCases(cases[..|cases| - 1])
      + if last.duration > CASE_BUDGET_SECONDS then [CaseTooSlow(last.classname, last.name, last.duration)] else []
  }

  /** A directory with enough cases of which fewer than 95 percent are within the budget. */
  predicate IsTooSlow(durations: seq<real>) {
    |durations| >= MINIMUM_DIRECTORY_CASE_COUNT
    && CountAtMost(durations, DIRECTORY_P95_BUDGET_SECONDS) < Rank(|durations|)
  }

  /** A directory is reported with its percentile exactly when fewer than 95 percent of its at least
      30 durations are within the budget. */
  ghost predicate IsReported(v: Violation, directories: seq<string>, cases: seq<TestCase>) {
    && v.DirectoryTooSlow? && v.directory in directories
    && var durations := Durations(v.directory, cases);
       IsTooSlow(durations) && v.p95 == Percentile95(durations) && v.count == |durations|
  }

  /** The reported directories, in order, judged by counting. */
  ghost function SlowDirectories(directories: seq<string>, cases: seq<TestCase>): seq<Violation> {
    if directories == [] then []
    else
      var directory := directories[|directories| - 1];
      var durations := Durations(directory, cases);
      SlowDirectories(directories[..|directories| - 1], cases)
      + if IsTooSlow(durations) then [DirectoryTooSlow(directory, Percentile95(durations), |durations|)] else []
  }

  lemma {:induction false} SlowDirectoriesAreThose(directories: seq<string>, cases: seq<TestCase>)
    ensures forall v :: v in SlowDirectories(directories, cases) <==> IsReported(v, directories, cases)
    decreases |directories|
  {
    if directories != [] {
      SlowDirectoriesAreThose(directories[..|directories| - 1], cases);
      assert directories == directories[..|directories| - 1] + [directories[|directories| - 1]];
    }
  }

  lemma {:induction false} SlowCasesAreThose(cases: seq<TestCase>)
    ensures forall v :: v in SlowCases(cases) <==>
      v.CaseTooSlow? && TestCase(v.classname, v.name, v.duration) in cases && v.duration > CASE_BUDGET_SECONDS
    decreases |cases|
  {
    if cases != [] {
      SlowCasesAreThose(cases[..|cases| - 1]);
      assert cases == cases[..|cases| - 1] + [cases[|cases| - 1]];
    }
  }

  /** The case's duration, added to every directory that holds it. */
  method AddDuration(durations: map<string, seq<real>>, directories: seq<string>, c: TestCase)
    returns (grown: map<string, seq<real>>)
    requires durations.Keys == set d | d in directories
    requires AreDistinct(directories)
    ensures grown.Keys == durations.Keys
    ensures forall d :: d in directories ==>
      grown[d] == Extended(durations[d], d, c)
  {
    grown := durations;
    for k := 0 to |directories|
      invariant grown.Keys == durations.Keys
      invariant forall l :: k <= l < |directories| ==> grown[directories[l]] == durations[directories[l]]
      invariant forall l :: 0 <= l < k ==>
        grown[directories[l]] == Extended(durations[directories[l]], directories[l], c)
    {
      var d := directories[k];
      if d <= ClassnameToPath(c.classname) {
        grown := grown[d := grown[d] + [c.duration]];
      }
    }
  }

  ghost predicate AreDistinct(directories: seq<string>) {
    forall i, j :: 0 <= i < j < |directories| ==> directories[i] != directories[j]
  }

  // ----- the report, counted in test cases

  lemma PathOfRest(classname: string, k: nat)
    requires k < |classname| && classname[k] == '.' && forall i :: 0 <= i < k ==> classname[i] != '.'
    ensures ClassnameToPath(classname) == classname[..k] + "/" + ClassnameToPath(classname[k + 1..])
  {
    var path := ClassnameToPath(classname);
    assert path[..k] == classname[..k];
    assert path[k + 1..] == ClassnameToPath(classname[k + 1..]);
  }

  lemma {:induction false} PathIsJoined(classname: string)
    ensures ClassnameToPath(classname) == Text.Join(Text.Split(classname, '.'), '/')
    decreases |classname|
  {
    var k := Text.Find(classname, '.', 0);
    var path := ClassnameToPath(classname);
    if k == |classname| {
      assert path == classname;
    } else {
      var rest := classname[k + 1..];
      PathIsJoined(rest);
      PathOfRest(classname, k);
      assert ([classname[..k]] + Text.Split(rest, '.'))[1..] == Text.Split(rest, '.');
    }
  }

  /** The class name, with slashes for dots, begins with the directory. */
  ghost predicate IsBelow(directory: string, c: TestCase) {
    directory <= Text.Join(Text.Split(c.classname, '.'), '/')
  }

  /** The test cases below a directory, by their places in the report. */
  ghost function CasesBelow(directory: string, cases: seq<TestCase>): set<nat> {
    set k: nat | k < |cases| && IsBelow(directory, cases[k])
  }

  /** Those of them that took at most, or less than, so long. */
  ghost function CasesWithin(directory: string, cases: seq<TestCase>, bound: real): set<nat> {
    set k | k in CasesBelow(directory, cases) && cases[k].duration <= bound
  }

  ghost function CasesUnder(directory: string, cases: seq<TestCase>, bound: real): set<nat> {
    set k | k in CasesBelow(directory, cases) && cases[k].duration < bound
  }

  lemma {:induction false} CountsOfLonger(xs: seq<real>, x: real, bound: real)
    ensures CountAtMost(xs + [x], bound) == CountAtMost(xs, bound) + (if x <= bound then 1 else 0)
    ensures CountBelow(xs + [x], bound) == CountBelow(xs, bound) + (if x < bound then 1 else 0)
    decreases |xs|
  {
    if xs == [] {
      assert xs + [x] == [x] && [x][1..] == [];
    } else {
      assert (xs + [x])[1..] == xs[1..] + [x];
      CountsOfLonger(xs[1..], x, bound);
    }
  }

  lemma {:induction false} DurationsAreCounted(directory: string, cases: seq<TestCase>, bound: real)
    ensures |Durations(directory, cases)| == |CasesBelow(directory, cases)|
    ensures CountAtMost(Durations(directory, cases), bound) == |CasesWithin(directory, cases, bound)|
    ensures CountBelow(Durations(directory, cases), bound) == |CasesUnder(directory, cases, bound)|
    decreases |cases|
  {
    if cases != [] {
      var n := |cases| - 1;
      var before, last := cases[..n], cases[n];
      DurationsAreCounted(directory, before, bound);
      PathIsJoined(last.classname);
      CountsOfLonger(Durations(directory, before), last.duration, bound);
      LastCaseBelow(directory, cases);
      LastCaseWithin(directory, cases, bound);
      LastCaseUnder(directory, cases, bound);
    }
  }

  lemma OneMore(smaller: set<nat>, n: nat, added: bool)
    requires n !in smaller
    ensures |smaller + if added then {n} else {}| == |smaller| + if added then 1 else 0
  {
  }

  lemma LastCaseBelow(directory: string, cases: seq<TestCase>)
    requires cases != []
    ensures var (before, last) := (cases[..|cases| - 1], cases[|cases| - 1]);
      |CasesBelow(directory, cases)| == |CasesBelow(directory, before)| + (if IsBelow(directory, last) then 1 else 0)
  {
    var n, before := |cases| - 1, cases[..|cases| - 1];
    OneMore(CasesBelow(directory, before), n, IsBelow(directory, cases[n]));
    CasesBelowSplit(directory, cases);
  }

  lemma CasesBelowSplit(directory: string, cases: seq<TestCase>)
    requires cases != []
    ensures CasesBelow(directory, cases) ==
            CasesBelow(directory, cases[..|cases| - 1])
            + if IsBelow(directory, cases[|cases| - 1]) then {|cases| - 1} else {}
  {
    var n, before := |cases| - 1, cases[..|cases| - 1];
    forall k: nat
      ensures k in CasesBelow(directory, cases) <==>
        k in CasesBelow(directory, before) || (k == n && IsBelow(directory, cases[n]))
    {
      if k < n {
        assert before[k] == cases[k];
      }
    }
  }

  lemma LastCaseWithin(directory: string, cases: seq<TestCase>, bound: real)
    requires cases != []
    ensures var (before, last) := (cases[..|cases| - 1], cases[|cases| - 1]);
      |CasesWithin(directory, cases, bound)| == |CasesWithin(directory, before, bound)|
        + (if IsBelow(directory, last) && last.duration <= bound then 1 else 0)
  {
    var n, before := |cases| - 1, cases[..|cases| - 1];
    var counts := IsBelow(directory, cases[n]) && cases[n].duration <= bound;
    OneMore(CasesWithin(directory, before, bound), n, counts);
    CasesWithinSplit(directory, cases, bound);
  }

  lemma CasesWithinSplit(directory: string, cases: seq<TestCase>, bound: real)
    requires cases != []
    ensures var (n, last) := (|cases| - 1, cases[|cases| - 1]);
      CasesWithin(directory, cases, bound) ==
      CasesWithin(directory, cases[..n], bound) + if IsBelow(directory, last) && last.duration <= bound then {n} else {}
  {
    var n, before := |cases| - 1, cases[..|cases| - 1];
    CasesBelowSplit(directory, cases);
    forall k: nat
      ensures k in CasesWithin(directory, cases, bound) <==>
        || k in CasesWithin(directory, before, bound)
        || (k == n && IsBelow(directory, cases[n]) && cases[n].duration <= bound)
    {
      if k < n {
        assert before[k] == cases[k];
      }
    }
  }

  lemma LastCaseUnder(directory: string, cases: seq<TestCase>, bound: real)
    requires cases != []
    ensures var (before, last) := (cases[..|cases| - 1], cases[|cases| - 1]);
      |CasesUnder(directory, cases, bound)| == |CasesUnder(directory, before, bound)|
        + (if IsBelow(directory, last) && last.duration < bound then 1 else 0)
  {
    var n, before := |cases| - 1, cases[..|cases| - 1];
    var counts := IsBelow(directory, cases[n]) && cases[n].duration < bound;
    OneMore(CasesUnder(directory, before, bound), n, counts);
    CasesUnderSplit(directory, cases, bound);
  }

  lemma CasesUnderSplit(directory: string, cases: seq<TestCase>, bound: real)
    requires cases != []
    ensures var (n, last) := (|cases| - 1, cases[|cases| - 1]);
      CasesUnder(directory, cases, bound) ==
      CasesUnder(directory, cases[..n], bound) + if IsBelow(directory, last) && last.duration < bound then {n} else {}
  {
    var n, before := |cases| - 1, cases[..|cases| - 1];
    CasesBelowSplit(directory, cases);
    forall k: nat
      ensures k in CasesUnder(directory, cases, bound) <==>
        || k in CasesUnder(directory, before, bound)
        || (k == n && IsBelow(directory, cases[n]) && cases[n].duration < bound)
    {
      if k < n {
        assert before[k] == cases[k];
      }
    }
  }

  lemma {:induction false} DurationsAreThose(directory: string, cases: seq<TestCase>, x: real)
    ensures x in Durations(directory, cases) <==>
      exists k :: k in CasesBelow(directory, cases) && cases[k].duration == x
    decreases |cases|
  {
    if cases != [] {
      var n := |cases| - 1;
      var before, last := cases[..n], cases[n];
      DurationsAreThose(directory, before, x);
      PathIsJoined(last.classname);
      assert forall k :: k in CasesBelow(directory, cases) <==>
        k in CasesBelow(directory, before) || (k == n && IsBelow(directory, last));
      if IsBelow(directory, last) {
        assert n in CasesBelow(directory, cases);
      }
    }
  }

  /** At least 30 cases below the directory, fewer than 95 percent of them within 0.1 seconds; the value
      reported is the duration of one of them, at least 95 percent take at most as long, fewer take less. */
  ghost predicate IsReportedByCount(
    directory: string, p95: real, count: nat, directories: seq<string>, cases: seq<TestCase>)
  {
    && directory in directories
    && count == |CasesBelow(directory, cases)| && count >= 30
    && 20 * |CasesWithin(directory, cases, 0.1)| < 19 * count
    && (exists k :: k in CasesBelow(directory, cases) && cases[k].duration == p95)
    && 20 * |CasesWithin(directory, cases, p95)| >= 19 * count > 20 * |CasesUnder(directory, cases, p95)|
  }

  lemma ReportIsByCount(directory: string, p95: real, count: nat, directories: seq<string>, cases: seq<TestCase>)
    ensures IsReported(DirectoryTooSlow(directory, p95, count), directories, cases) <==>
      IsReportedByCount(directory, p95, count, directories, cases)
  {
    var durations := Durations(directory, cases);
    DurationsAreCounted(directory, cases, 0.1);
    DurationsAreCounted(directory, cases, p95);
    DurationsAreThose(directory, cases, p95);
    if durations != [] {
      PercentileIsThat(durations, p95);
    }
  }

  lemma PercentileIsThat(values: seq<real>, v: real)
    requires values != []
    ensures v == Percentile95(values) <==>
      v in values && 20 * CountAtMost(values, v) >= 19 * |values| > 20 * CountBelow(values, v)
  {
    PercentileIsNearestRank(values);
    PercentileIsMember(values);
    if v in values && 20 * CountAtMost(values, v) >= 19 * |values| > 20 * CountBelow(values, v) {
      CountsDetermineValue(values, v);
    }
  }

  lemma {:induction false} SortedHasMembers(values: seq<real>)
    ensures forall x :: x in Sorted(values) <==> x in values
    decreases |values|
  {
    if values != [] {
      SortedHasMembers(values[1..]);
      SortedKeepsCounts(values[1..], 0.0);
      InsertIsAscending(values[0], Sorted(values[1..]));
    }
  }

  lemma PercentileIsMember(values: seq<real>)
    requires values != []
    ensures Percentile95(values) in values
  {
    SortedHasMembers(values);
  }

  lemma OwnDirectoriesAreDistinct()
    ensures AreDistinct(P95_BUDGET_DIRECTORIES)
  {
  }

  /** All budget violations of a report with the given total duration. */
  method CollectViolations(total: real, cases: seq<TestCase>, directories: seq<string>)
    returns (violations: seq<Violation>)
    requires AreDistinct(directories)
    ensures violations == (if total > SUITE_BUDGET_SECONDS then [SuiteTooSlow(total)] else [])
                          + SlowCases(cases) + SlowDirectories(directories, cases)
    ensures forall t :: SuiteTooSlow(t) in violations <==> t == total && total > 180.0
    ensures forall c, n, d :: CaseTooSlow(c, n, d) in violations <==> TestCase(c, n, d) in cases && d > 12.0
    ensures forall directory, p, n :: DirectoryTooSlow(directory, p, n) in violations <==>
      IsReportedByCount(directory, p, n, directories, cases)
  {
    violations := if total > SUITE_BUDGET_SECONDS then [SuiteTooSlow(total)] else [];
    var slow, durations := ScanCases(cases, directories);
    SlowCasesAreThose(cases);
    SlowDirectoriesAreThose(directories, cases);
    var late := ReportDirectories(durations, directories, cases);
    forall directory, p, n: nat ensures IsReported(DirectoryTooSlow(directory, p, n), directories, cases) <==>
        IsReportedByCount(directory, p, n, directories, cases)
    {
      ReportIsByCount(directory, p, n, directories, cases);
    }
    violations := violations + slow + late;
  }

  /** The loop over the test cases. */
  method ScanCases(cases: seq<TestCase>, directories: seq<string>)
    returns (slow: seq<Violation>, durations: map<string, seq<real>>)
    requires AreDistinct(directories)
    ensures slow == SlowCases(cases)
    ensures durations.Keys == set d | d in directories
    ensures forall d :: d in directories ==> durations[d] == Durations(d, cases)
  {
    slow := [];
    durations := map d | d in directories :: [];
    for k := 0 to |cases|
      invariant durations.Keys == set d | d in directories
      invariant forall d :: d in directories ==> durations[d] == Durations(d, cases[..k])
      invariant slow == SlowCases(cases[..k])
    {
      var c := cases[k];
      assert cases[..k + 1][..k] == cases[..k];
      if c.duration > CASE_BUDGET_SECONDS {
        slow := slow + [CaseTooSlow(c.classname, c.name, c.duration)];
      }
      durations := AddDuration(durations, directories, c);
    }
    assert cases[..|cases|] == cases;
  }

  /** The loop over the budgeted directories. */
  method ReportDirectories(durations: map<string, seq<real>>, directories: seq<string>, ghost cases: seq<TestCase>)
    returns (violations: seq<Violation>)
    requires durations.Keys == set d | d in directories
    requires forall d :: d in directories ==> durations[d] == Durations(d, cases)
    ensures violations == SlowDirectories(directories, cases)
  {
    violations := [];
    for k := 0 to |directories|
      invariant violations == SlowDirectories(directories[..k], cases)
    {
      assert directories[..k + 1][..k] == directories[..k];
      var values := durations[directories[k]];
      if |values| >= MINIMUM_DIRECTORY_CASE_COUNT {
        var p95 := Percentile95(values);
        VerdictIsCounting(values, DIRECTORY_P95_BUDGET_SECONDS);
        if p95 > DIRECTORY_P95_BUDGET_SECONDS {
          violations := violations + [DirectoryTooSlow(directories[k], p95, |values|)];
        }
      }
    }
    assert directories[..|directories|] == directories;
  }
}
