/** How much the rate limiter can let through in a window that starts inside a bucket. */
module RateLimitReach {
  import opened RateLimit

  // ----- bursts

  /** `n` requests of one application at one time. */
  function Burst(appId: string, time: int, n: nat): seq<Arrival> {
    if n == 0 then [] else Burst(appId, time, n - 1) + [Arrival(appId, time)]
  }

  ghost function AdmittedBurst(appId: string, time: int, n: nat): (log: seq<Entry>)
    ensures |log| == n
  {
    if n == 0 then [] else AdmittedBurst(appId, time, n - 1) + [Entry(Arrival(appId, time), Admitted)]
  }

  /** The run is in order, over by `time`, and has this log. */
  ghost predicate IsLoggedBy(policy: Policy, run: seq<Arrival>, log: seq<Entry>, time: int) {
    TimesAscend(run) && (run != [] ==> run[|run| - 1].time <= time) && RunLog(policy, run) == log
  }

  ghost predicate HasRoom(policy: Policy, log: seq<Entry>, appId: string, time: int, n: nat) {
    && Tally(log, Minute(appId, time / 60)) + n <= policy(appId).perMinute
    && Tally(log, Hour(appId, time / 3600)) + n <= policy(appId).perHour
  }

  lemma OneIsAdmitted(policy: Policy, run: seq<Arrival>, log: seq<Entry>, appId: string, time: int)
    requires IsLoggedBy(policy, run, log, time) && HasRoom(policy, log, appId, time, 1)
    ensures IsLoggedBy(policy, run + [Arrival(appId, time)], log + [Entry(Arrival(appId, time), Admitted)], time)
  {
    var longer := run + [Arrival(appId, time)];
    assert longer[..|longer| - 1] == run;
    assert TimesAscend(longer);
    VerdictsFollowLog(policy, longer);
  }

  /** A burst is admitted as a whole when both counters have room for it. */
  lemma {:induction false} BurstIsAdmitted(
    policy: Policy, run: seq<Arrival>, log: seq<Entry>, appId: string, time: int, n: nat)
    requires IsLoggedBy(policy, run, log, time) && HasRoom(policy, log, appId, time, n)
    ensures IsLoggedBy(policy, run + Burst(appId, time, n), log + AdmittedBurst(appId, time, n), time)
    decreases n
  {
    if n == 0 {
      assert run + [] == run && log + [] == log;
    } else {
      RoomLeft(policy, log, appId, time, n);
      BurstIsAdmitted(policy, run, log, appId, time, n - 1);
      BurstGrows(run, log, appId, time, n);
      OneIsAdmitted(policy, run + Burst(appId, time, n - 1), log + AdmittedBurst(appId, time, n - 1), appId, time);
    }
  }

  lemma BurstGrows(run: seq<Arrival>, log: seq<Entry>, appId: string, time: int, n: nat)
    requires n > 0
    ensures run + Burst(appId, time, n) == run + Burst(appId, time, n - 1) + [Arrival(appId, time)]
    ensures log + AdmittedBurst(appId, time, n) ==
            log + AdmittedBurst(appId, time, n - 1) + [Entry(Arrival(appId, time), Admitted)]
  {
  }

  lemma RoomLeft(policy: Policy, log: seq<Entry>, appId: string, time: int, n: nat)
    requires n > 0 && HasRoom(policy, log, appId, time, n)
    ensures HasRoom(policy, log, appId, time, n - 1)
    ensures HasRoom(policy, log + AdmittedBurst(appId, time, n - 1), appId, time, 1)
  {
    TallyOfBurst(log, appId, time, n - 1, Minute(appId, time / 60));
    TallyOfBurst(log, appId, time, n - 1, Hour(appId, time / 3600));
  }

  lemma {:induction false} TallyOfBurst(log: seq<Entry>, appId: string, time: int, n: nat, key: CounterKey)
    requires key.appId == appId
    ensures Tally(log + AdmittedBurst(appId, time, n), key) == Tally(log, key) + if IsCurrent(key, time) then n else 0
    decreases n
  {
    if n == 0 {
      assert log + [] == log;
    } else {
      var shorter, e := log + AdmittedBurst(appId, time, n - 1), Entry(Arrival(appId, time), Admitted);
      assert log + AdmittedBurst(appId, time, n) == shorter + [e];
      assert (shorter + [e])[..|shorter|] == shorter;
      TallyOfBurst(log, appId, time, n - 1, key);
      assert CountsFor(e, key) <==> IsCurrent(key, time);
    }
  }

  lemma LaterIsLogged(policy: Policy, run: seq<Arrival>, log: seq<Entry>, time: int, later: int)
    requires IsLoggedBy(policy, run, log, time) && time <= later
    ensures IsLoggedBy(policy, run, log, later)
  {
  }

  // ----- the condition

  /** The start of the bucket after that of `key`. */
  function NextStart(key: CounterKey): int {
    BucketStart(key) + Width(key)
  }

  /** The minutes that a window from `from` on touches before the next bucket starts. */
  function MinutesBefore(key: CounterKey, from: int): int {
    NextStart(key) / 60 - from / 60
  }

  /** The minutes that the window touches from there on. */
  function MinutesAfter(key: CounterKey, from: int): int {
    (from + Width(key) - 1) / 60 - NextStart(key) / 60 + 1
  }

  /** The limit fits into the minutes on either side of the bucket boundary, and into the hours: once
      into each of two hours, or twice into one. */
  predicate TwiceFits(limits: Limits, key: CounterKey, from: int) {
    var n := Limit(limits, key);
    && n <= limits.perMinute * MinutesBefore(key, from)
    && n <= limits.perMinute * MinutesAfter(key, from)
    && if NextStart(key) % 3600 == 0 then n <= limits.perHour else 2 * n <= limits.perHour
  }

  /** For a minute counter the minutes settle themselves and the hours decide; for an hour counter it is
      the other way round. */
  lemma TwiceFitsByCounter(limits: Limits, key: CounterKey, from: int)
    requires IsCurrent(key, from) && from != BucketStart(key)
    ensures TwiceFits(limits, key, from) <==>
      match key
      case Minute(_, slot) =>
        if (slot + 1) % 60 == 0 then limits.perMinute <= limits.perHour else 2 * limits.perMinute <= limits.perHour
      case Hour(_, slot) =>
        && limits.perHour <= limits.perMinute * (60 * (slot + 1) - from / 60)
        && limits.perHour <= limits.perMinute * ((from + 3599) / 60 - 60 * (slot + 1) + 1)
  {
    if key.Minute? {
      MinuteFacts(key, from);
    } else {
      HourFacts(key, from);
    }
  }

  lemma MinuteFacts(key: CounterKey, from: int)
    requires key.Minute? && IsCurrent(key, from) && from != BucketStart(key)
    ensures MinutesBefore(key, from) == 1 && MinutesAfter(key, from) == 1
    ensures NextStart(key) % 3600 == 0 <==> (key.slot + 1) % 60 == 0
  {
    assert NextStart(key) == 60 * (key.slot + 1) && NextStart(key) / 60 == key.slot + 1;
    assert from / 60 == key.slot && (from + 59) / 60 == key.slot + 1;
    SixtyTimes(key.slot + 1);
  }

  lemma SixtyTimes(n: int)
    ensures 60 * n % 3600 == 0 <==> n % 60 == 0
  {
    assert n == 60 * (n / 60) + n % 60;
    assert 60 * n == 3600 * (n / 60) + 60 * (n % 60);
  }

  lemma HourFacts(key: CounterKey, from: int)
    requires key.Hour?
    ensures MinutesBefore(key, from) == 60 * (key.slot + 1) - from / 60
    ensures MinutesAfter(key, from) == (from + 3599) / 60 - 60 * (key.slot + 1) + 1
    ensures NextStart(key) % 3600 == 0
  {
    assert NextStart(key) == 3600 * (key.slot + 1) && NextStart(key) / 60 == 60 * (key.slot + 1);
  }

  // ----- the condition is needed

  lemma WithinIsFewer(log: seq<Entry>, appId: string, from: int, to: int, lo: int, hi: int)
    requires lo <= from <= to <= hi
    ensures AdmittedBetween(log, appId, from, to) <= AdmittedBetween(log, appId, lo, hi)
  {
    BetweenSplits(log, appId, lo, from, hi);
    BetweenSplits(log, appId, from, to, hi);
  }

  lemma MinuteIsLimited(policy: Policy, run: seq<Arrival>, appId: string, slot: int, limit: nat)
    requires TimesAscend(run) && limit == policy(appId).perMinute
    ensures AdmittedBetween(RunLog(policy, run), appId, 60 * slot, 60 * slot + 60) <= limit
  {
    BucketIsLimited(policy, run, Minute(appId, slot));
  }

  lemma {:induction false} LimitedMinutesAdd(log: seq<Entry>, appId: string, slot: int, m: nat, limit: nat)
    requires forall s: int :: AdmittedBetween(log, appId, 60 * s, 60 * s + 60) <= limit
    ensures AdmittedBetween(log, appId, 60 * slot, 60 * slot + 60 * m) <= limit * m
    decreases m
  {
    var start := 60 * slot;
    if m == 0 {
      BetweenSplits(log, appId, start, start, start);
    } else {
      LimitedMinutesAdd(log, appId, slot + 1, m - 1, limit);
      BetweenSplits(log, appId, start, start + 60, start + 60 * m);
      assert limit * m == limit + limit * (m - 1);
    }
  }

  lemma MinutesAreLimited(policy: Policy, run: seq<Arrival>, appId: string, slot: int, m: nat)
    requires TimesAscend(run)
    ensures AdmittedBetween(RunLog(policy, run), appId, 60 * slot, 60 * slot + 60 * m) <= policy(appId).perMinute * m
  {
    var log, limit := RunLog(policy, run), policy(appId).perMinute;
    forall s: int ensures AdmittedBetween(log, appId, 60 * s, 60 * s + 60) <= limit {
      MinuteIsLimited(policy, run, appId, s, limit);
    }
    LimitedMinutesAdd(log, appId, slot, m, limit);
  }

  /** Some stretch of time within given minutes. */
  lemma StretchIsLimited(policy: Policy, run: seq<Arrival>, appId: string, from: int, to: int, slot: int, m: nat)
    requires TimesAscend(run) && 60 * slot <= from <= to <= 60 * (slot + m)
    ensures AdmittedBetween(RunLog(policy, run), appId, from, to) <= policy(appId).perMinute * m
  {
    MinutesAreLimited(policy, run, appId, slot, m);
    WithinIsFewer(RunLog(policy, run), appId, from, to, 60 * slot, 60 * slot + 60 * m);
  }

  lemma HourIsLimited(policy: Policy, run: seq<Arrival>, appId: string, from: int, to: int, slot: int)
    requires TimesAscend(run) && 3600 * slot <= from <= to <= 3600 * (slot + 1)
    ensures AdmittedBetween(RunLog(policy, run), appId, from, to) <= policy(appId).perHour
  {
    BucketIsLimited(policy, run, Hour(appId, slot));
    WithinIsFewer(RunLog(policy, run), appId, from, to, 3600 * slot, 3600 * (slot + 1));
  }

  /** A window that gets twice the limit through gets the limit through on either side of the boundary. */
  lemma HalvesAreFull(policy: Policy, run: seq<Arrival>, key: CounterKey, from: int)
    requires TimesAscend(run) && IsCurrent(key, from)
    requires AdmittedBetween(RunLog(policy, run), key.appId, from, from + Width(key))
               == 2 * Limit(policy(key.appId), key)
    ensures AdmittedBetween(RunLog(policy, run), key.appId, from, NextStart(key)) == Limit(policy(key.appId), key)
    ensures AdmittedBetween(RunLog(policy, run), key.appId, NextStart(key), from + Width(key))
              == Limit(policy(key.appId), key)
  {
    BetweenSplits(RunLog(policy, run), key.appId, from, NextStart(key), from + Width(key));
    FirstHalfIsLimited(policy, run, key, from);
    FirstHalfIsLimited(policy, run, NextBucket(key), NextStart(key));
    var next, end := NextStart(key), NextStart(NextBucket(key));
    WithinIsFewer(RunLog(policy, run), key.appId, next, from + Width(key), next, end);
  }

  lemma FirstHalfIsLimited(policy: Policy, run: seq<Arrival>, key: CounterKey, from: int)
    requires TimesAscend(run) && IsCurrent(key, from)
    ensures AdmittedBetween(RunLog(policy, run), key.appId, from, NextStart(key)) <= Limit(policy(key.appId), key)
  {
    BucketIsLimited(policy, run, key);
    WithinIsFewer(RunLog(policy, run), key.appId, from, NextStart(key), BucketStart(key), NextStart(key));
  }

  lemma TwiceNeedsFit(policy: Policy, run: seq<Arrival>, key: CounterKey, from: int)
    requires TimesAscend(run) && IsCurrent(key, from) && from != BucketStart(key)
    requires AdmittedBetween(RunLog(policy, run), key.appId, from, from + Width(key))
               == 2 * Limit(policy(key.appId), key)
    ensures TwiceFits(policy(key.appId), key, from)
  {
    var next, to := NextStart(key), from + Width(key);
    HalvesAreFull(policy, run, key, from);
    MinutesCoverWindow(key, from);
    StretchIsLimited(policy, run, key.appId, from, next, from / 60, MinutesBefore(key, from));
    StretchIsLimited(policy, run, key.appId, next, to, next / 60, MinutesAfter(key, from));
    HoursAreLimited(policy, run, key, from);
  }

  lemma HoursAreLimited(policy: Policy, run: seq<Arrival>, key: CounterKey, from: int)
    requires TimesAscend(run) && IsCurrent(key, from)
    ensures var (log, next) := (RunLog(policy, run), NextStart(key));
      if next % 3600 == 0 then AdmittedBetween(log, key.appId, from, next) <= policy(key.appId).perHour
      else AdmittedBetween(log, key.appId, from, from + Width(key)) <= policy(key.appId).perHour
  {
    var next := NextStart(key);
    HoursCoverWindow(key, from);
    if next % 3600 == 0 {
      HourIsLimited(policy, run, key.appId, from, next, next / 3600 - 1);
    } else {
      HourIsLimited(policy, run, key.appId, from, from + Width(key), next / 3600);
    }
  }

  lemma NextStartIsMinute(key: CounterKey)
    ensures 60 * (NextStart(key) / 60) == NextStart(key)
  {
    if key.Hour? {
      assert NextStart(key) == 60 * (60 * (key.slot + 1));
    } else {
      assert NextStart(key) == 60 * (key.slot + 1);
    }
  }

  lemma MinutesCoverWindow(key: CounterKey, from: int)
    requires IsCurrent(key, from) && from != BucketStart(key)
    ensures MinutesBefore(key, from) >= 1 && MinutesAfter(key, from) >= 1
    ensures 60 * (from / 60) <= from && 60 * (from / 60 + MinutesBefore(key, from)) == NextStart(key)
    ensures 60 * (NextStart(key) / 60) == NextStart(key)
    ensures 60 * (NextStart(key) / 60 + MinutesAfter(key, from) - 1) < from + Width(key)
    ensures from + Width(key) <= 60 * (NextStart(key) / 60 + MinutesAfter(key, from))
  {
    NextStartIsMinute(key);
  }

  lemma HoursCoverWindow(key: CounterKey, from: int)
    requires IsCurrent(key, from)
    ensures var next := NextStart(key);
      if next % 3600 == 0 then
        next - 3600 <= from && 3600 * (next / 3600) == next
      else
        key.Minute? && 3600 * (next / 3600) <= from && from + 60 <= 3600 * (next / 3600 + 1)
  {
    if key.Hour? {
      assert NextStart(key) == 3600 * (key.slot + 1);
    } else {
      HoursOfMinutes(key.slot + 1);
      assert NextStart(key) == 60 * (key.slot + 1);
    }
  }

  lemma HoursOfMinutes(m: int)
    ensures 60 * m % 3600 == 0 <==> m % 60 == 0
    ensures 60 * m / 3600 == m / 60
    ensures m % 60 != 0 ==> 60 * (m / 60) + 1 <= m <= 60 * (m / 60) + 59
  {
    SixtyTimes(m);
    HourOfMinute(60 * m);
    assert 60 * m / 60 == m;
  }

  // ----- the condition suffices

  /** Entries of the application, all admitted, all from `lo` up to but not including `hi`. */
  ghost predicate AreServed(extra: seq<Entry>, appId: string, lo: int, hi: int) {
    forall k :: 0 <= k < |extra| ==> IsServed(extra[k], appId, lo, hi)
  }

  predicate IsServed(e: Entry, appId: string, lo: int, hi: int) {
    e.verdict == Admitted && e.arrival.appId == appId && lo <= e.arrival.time < hi
  }

  lemma {:induction false} ServedAreAdmitted(
    log: seq<Entry>, extra: seq<Entry>, appId: string, lo: int, hi: int, from: int, to: int)
    requires AreServed(extra, appId, lo, hi) && from <= lo && hi <= to
    ensures AdmittedBetween(log + extra, appId, from, to) == AdmittedBetween(log, appId, from, to) + |extra|
    decreases |extra|
  {
    if extra == [] {
      assert log + extra == log;
    } else {
      var fewer, e := extra[..|extra| - 1], extra[|extra| - 1];
      assert (log + extra)[..|log + extra| - 1] == log + fewer;
      assert IsServed(e, appId, lo, hi);
      ServedAreAdmitted(log, fewer, appId, lo, hi, from, to);
    }
  }

  lemma {:induction false} ServedAreCounted(
    log: seq<Entry>, extra: seq<Entry>, appId: string, lo: int, hi: int, key: CounterKey)
    requires AreServed(extra, appId, lo, hi) && key.appId == appId
    ensures BucketStart(key) <= lo && hi <= NextStart(key) ==> Tally(log + extra, key) == Tally(log, key) + |extra|
    ensures hi <= BucketStart(key) || NextStart(key) <= lo ==> Tally(log + extra, key) == Tally(log, key)
    decreases |extra|
  {
    if extra == [] {
      assert log + extra == log;
    } else {
      var fewer, e := extra[..|extra| - 1], extra[|extra| - 1];
      assert (log + extra)[..|log + extra| - 1] == log + fewer;
      assert IsServed(e, appId, lo, hi);
      ServedAreCounted(log, fewer, appId, lo, hi, key);
      assert CountsFor(e, key) <==> IsCurrent(key, e.arrival.time);
    }
  }

  lemma {:induction false} BurstIsServed(appId: string, time: int, n: nat)
    ensures AreServed(AdmittedBurst(appId, time, n), appId, time, time + 1)
    decreases n
  {
    if n > 0 {
      BurstIsServed(appId, time, n - 1);
    }
  }

  /** No minute from the one of `time` on has seen a request. */
  ghost predicate MinutesAreEmpty(log: seq<Entry>, appId: string, time: int) {
    forall slot :: slot >= time / 60 ==> Tally(log, Minute(appId, slot)) == 0
  }

  /** The start of the `m`-th minute, or `time` itself when it is the first. */
  function LastTime(time: int, m: nat): int {
    if m <= 1 then time else 60 * (time / 60 + m - 1)
  }

  /** `n` requests from `time` on fit into `m` minutes of one hour. */
  ghost predicate MinutesHaveRoom(policy: Policy, log: seq<Entry>, appId: string, time: int, m: nat, n: nat) {
    && m > 0 && n <= policy(appId).perMinute * m
    && 60 * (time / 60 + m) <= 3600 * (time / 3600 + 1)
    && Tally(log, Hour(appId, time / 3600)) + n <= policy(appId).perHour
    && MinutesAreEmpty(log, appId, time)
  }

  /** The first burst leaves room for the rest in the minutes after it. */
  lemma FirstBurstLeavesRoom(policy: Policy, log: seq<Entry>, appId: string, time: int, m: nat, n: nat)
    requires MinutesHaveRoom(policy, log, appId, time, m, n) && n > policy(appId).perMinute
    ensures m > 1
    ensures var k := policy(appId).perMinute;
      MinutesHaveRoom(policy, log + AdmittedBurst(appId, time, k), appId, 60 * (time / 60 + 1), m - 1, n - k)
  {
    var k, later := policy(appId).perMinute, 60 * (time / 60 + 1);
    var longer := log + AdmittedBurst(appId, time, k);
    assert k * m == k * (m - 1) + k;
    SameHour(time, m);
    TallyOfBurst(log, appId, time, k, Hour(appId, time / 3600));
    forall slot | slot >= later / 60 ensures Tally(longer, Minute(appId, slot)) == 0 {
      TallyOfBurst(log, appId, time, k, Minute(appId, slot));
    }
  }

  lemma SameHour(time: int, m: nat)
    requires m > 1 && 60 * (time / 60 + m) <= 3600 * (time / 3600 + 1)
    ensures var later := 60 * (time / 60 + 1);
      later / 60 == time / 60 + 1 && later / 3600 == time / 3600 && time < later
  {
  }

  lemma BurstFits(policy: Policy, log: seq<Entry>, appId: string, time: int, m: nat, n: nat, k: nat)
    requires MinutesHaveRoom(policy, log, appId, time, m, n) && k <= n && k <= policy(appId).perMinute
    ensures HasRoom(policy, log, appId, time, k)
  {
    assert Tally(log, Minute(appId, time / 60)) == 0;
  }

  /** As many requests as fit into the minutes, minute by minute. */
  lemma {:induction false} FillMinutes(
    policy: Policy, run: seq<Arrival>, log: seq<Entry>, appId: string, time: int, m: nat, n: nat)
    returns (filled: seq<Arrival>, extra: seq<Entry>)
    requires IsLoggedBy(policy, run, log, time) && MinutesHaveRoom(policy, log, appId, time, m, n)
    ensures IsLoggedBy(policy, filled, log + extra, 60 * (time / 60 + m))
    ensures |extra| == n && AreServed(extra, appId, time, LastTime(time, m) + 1)
    decreases m
  {
    var k := if n <= policy(appId).perMinute then n else policy(appId).perMinute;
    var first := AdmittedBurst(appId, time, k);
    BurstFits(policy, log, appId, time, m, n, k);
    BurstIsAdmitted(policy, run, log, appId, time, k);
    BurstIsServed(appId, time, k);
    filled := run + Burst(appId, time, k);
    if k == n {
      extra := first;
      LaterIsLogged(policy, filled, log + extra, time, 60 * (time / 60 + m));
    } else {
      var later := 60 * (time / 60 + 1);
      FirstBurstLeavesRoom(policy, log, appId, time, m, n);
      SameHour(time, m);
      LaterIsLogged(policy, filled, log + first, time, later);
      var rest;
      filled, rest := FillMinutes(policy, filled, log + first, appId, later, m - 1, n - k);
      extra := first + rest;
      ServedTogether(log, first, rest, appId, time, later, LastTime(later, m - 1) + 1);
    }
  }

  lemma ServedTogether(
    log: seq<Entry>, first: seq<Entry>, rest: seq<Entry>, appId: string, time: int, later: int, to: int)
    requires AreServed(first, appId, time, time + 1) && AreServed(rest, appId, later, to) && time < later < to
    ensures AreServed(first + rest, appId, time, to)
    ensures log + first + rest == log + (first + rest)
  {
    forall k | 0 <= k < |first + rest| ensures IsServed((first + rest)[k], appId, time, to) {
      if k < |first| {
        assert IsServed(first[k], appId, time, time + 1);
      } else {
        assert IsServed(rest[k - |first|], appId, later, to);
      }
    }
  }

  /** The limit once before the boundary, from the start of the window on. */
  lemma FillBefore(policy: Policy, key: CounterKey, from: int) returns (run: seq<Arrival>, served: seq<Entry>)
    requires IsCurrent(key, from) && from != BucketStart(key) && TwiceFits(policy(key.appId), key, from)
    ensures IsLoggedBy(policy, run, served, NextStart(key)) && |served| == Limit(policy(key.appId), key)
    ensures AreServed(served, key.appId, from, NextStart(key))
  {
    MinutesCoverWindow(key, from);
    HoursCoverWindow(key, from);
    var m := MinutesBefore(key, from);
    HourHoldsMinutes(key, from);
    run, served := FillMinutes(policy, [], [], key.appId, from, m, Limit(policy(key.appId), key));
    assert [] + served == served;
    ServedEarlier(served, key.appId, from, LastTime(from, m) + 1, NextStart(key));
  }

  lemma HourHoldsMinutes(key: CounterKey, from: int)
    requires IsCurrent(key, from) && from != BucketStart(key)
    ensures NextStart(key) <= 3600 * (from / 3600 + 1)
    ensures 60 * (NextStart(key) / 60 + MinutesAfter(key, from)) <= 3600 * (NextStart(key) / 3600 + 1)
    ensures NextStart(key) % 3600 != 0 ==> NextStart(key) / 3600 == from / 3600
    ensures NextStart(key) % 3600 == 0 ==> NextStart(key) / 3600 == from / 3600 + 1
  {
    if key.Hour? {
      HourFacts(key, from);
      assert NextStart(key) / 3600 == key.slot + 1 && from / 3600 == key.slot;
      assert NextStart(key) / 60 == 60 * (key.slot + 1);
      assert (from + 3599) / 60 <= 60 * (key.slot + 1) + 59;
    } else {
      MinuteFacts(key, from);
      HourOfMinute(from);
      HourOfMinute(NextStart(key));
      NextMinute(key.slot);
    }
  }

  lemma HourOfMinute(time: int)
    ensures time / 3600 == time / 60 / 60
  {
  }

  lemma NextMinute(slot: int)
    ensures (slot + 1) % 60 == 0 ==> (slot + 1) / 60 == slot / 60 + 1
    ensures (slot + 1) % 60 != 0 ==> (slot + 1) / 60 == slot / 60
    ensures slot + 1 <= 60 * (slot / 60 + 1) && slot + 2 <= 60 * ((slot + 1) / 60 + 1)
  {
  }

  lemma ServedEarlier(extra: seq<Entry>, appId: string, lo: int, hi: int, to: int)
    requires AreServed(extra, appId, lo, hi) && hi <= to
    ensures AreServed(extra, appId, lo, to)
  {
    forall k | 0 <= k < |extra| ensures IsServed(extra[k], appId, lo, to) {
      assert IsServed(extra[k], appId, lo, hi);
    }
  }

  /** What was served before the boundary leaves the minutes after it empty and the hour with room. */
  lemma RoomAfter(policy: Policy, key: CounterKey, from: int, served: seq<Entry>)
    requires IsCurrent(key, from) && from != BucketStart(key) && TwiceFits(policy(key.appId), key, from)
    requires AreServed(served, key.appId, from, NextStart(key)) && |served| == Limit(policy(key.appId), key)
    ensures MinutesHaveRoom(policy, served, key.appId, NextStart(key), MinutesAfter(key, from), |served|)
  {
    var appId, next := key.appId, NextStart(key);
    assert [] + served == served;
    MinutesCoverWindow(key, from);
    HourHoldsMinutes(key, from);
    ServedAreCounted([], served, appId, from, next, Hour(appId, next / 3600));
    forall slot | slot >= next / 60 ensures Tally(served, Minute(appId, slot)) == 0 {
      ServedAreCounted([], served, appId, from, next, Minute(appId, slot));
    }
  }

  lemma LastMinuteIsInside(key: CounterKey, from: int)
    requires IsCurrent(key, from) && from != BucketStart(key)
    ensures MinutesAfter(key, from) > 0
    ensures NextStart(key) <= LastTime(NextStart(key), MinutesAfter(key, from)) < from + Width(key)
  {
    MinutesCoverWindow(key, from);
  }

  /** The limit once more behind the boundary. */
  lemma FillAfter(policy: Policy, key: CounterKey, from: int, before: seq<Arrival>, served: seq<Entry>)
    returns (run: seq<Arrival>, extra: seq<Entry>)
    requires IsCurrent(key, from) && from != BucketStart(key) && TwiceFits(policy(key.appId), key, from)
    requires IsLoggedBy(policy, before, served, NextStart(key)) && |served| == Limit(policy(key.appId), key)
    requires AreServed(served, key.appId, from, NextStart(key))
    ensures TimesAscend(run) && RunLog(policy, run) == served + extra && |extra| == |served|
    ensures AreServed(extra, key.appId, NextStart(key), from + Width(key))
  {
    var next, m := NextStart(key), MinutesAfter(key, from);
    RoomAfter(policy, key, from, served);
    LastMinuteIsInside(key, from);
    run, extra := FillMinutes(policy, before, served, key.appId, next, m, |served|);
    ServedEarlier(extra, key.appId, next, LastTime(next, m) + 1, from + Width(key));
  }

  /** Some run gets exactly twice the limit through. */
  lemma FillWindow(policy: Policy, key: CounterKey, from: int) returns (run: seq<Arrival>)
    requires IsCurrent(key, from) && from != BucketStart(key) && TwiceFits(policy(key.appId), key, from)
    ensures IsDoubled(policy, run, key, from)
  {
    var before, served := FillBefore(policy, key, from);
    var extra;
    run, extra := FillAfter(policy, key, from, before, served);
    BothSidesAreAdmitted(served, extra, key.appId, from, NextStart(key), from + Width(key));
  }

  lemma BothSidesAreAdmitted(served: seq<Entry>, extra: seq<Entry>, appId: string, from: int, next: int, to: int)
    requires AreServed(served, appId, from, next) && AreServed(extra, appId, next, to) && from < next <= to
    ensures AdmittedBetween(served + extra, appId, from, to) == |served| + |extra|
  {
    assert [] + served == served;
    ServedAreAdmitted([], served, appId, from, next, from, to);
    ServedAreAdmitted(served, extra, appId, next, to, from, to);
  }

  /** The run gets exactly twice the limit through in the window that starts at `from`. */
  ghost predicate IsDoubled(policy: Policy, run: seq<Arrival>, key: CounterKey, from: int) {
    && TimesAscend(run)
    && AdmittedBetween(RunLog(policy, run), key.appId, from, from + Width(key)) == 2 * Limit(policy(key.appId), key)
  }

  /** The sliding bound is reached in a window that starts inside a bucket exactly when the limits fit. */
  lemma SlidingBoundIsReachedIff(policy: Policy, key: CounterKey, from: int)
    requires IsCurrent(key, from) && from != BucketStart(key)
    ensures (exists run :: IsDoubled(policy, run, key, from)) <==> TwiceFits(policy(key.appId), key, from)
  {
    if run :| IsDoubled(policy, run, key, from) {
      TwiceNeedsFit(policy, run, key, from);
    }
    if TwiceFits(policy(key.appId), key, from) {
      var run := FillWindow(policy, key, from);
    }
  }

  /** A window that is a bucket gets at most the limit through, so it is doubled only when that is 0. */
  lemma BucketsAreNotDoubled(policy: Policy, run: seq<Arrival>, key: CounterKey)
    requires IsDoubled(policy, run, key, BucketStart(key))
    ensures Limit(policy(key.appId), key) == 0
  {
    BucketIsLimited(policy, run, key);
  }

  /** Under the limits an application gets by default, 100 a minute and 5000 an hour, every minute window
      that starts inside a bucket can be doubled and no hour window can. */
  lemma DefaultLimits(policy: Policy, key: CounterKey, from: int)
    requires IsCurrent(key, from) && from != BucketStart(key) && policy(key.appId) == Limits(100, 5000)
    ensures (exists run :: IsDoubled(policy, run, key, from)) <==> key.Minute?
  {
    SlidingBoundIsReachedIff(policy, key, from);
    TwiceFitsByCounter(policy(key.appId), key, from);
  }
}
