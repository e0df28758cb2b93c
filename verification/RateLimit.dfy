/** The two-level fixed-window rate limiter on expiring counters. */
module RateLimit {

  // ----- the cache

  datatype CounterKey = Minute(appId: string, slot: int) | Hour(appId: string, slot: int)

  /** A counter and the time at which the cache drops it. */
  datatype Counter = Counter(count: nat, expiresAt: int)

  type Cache = map<CounterKey, Counter>

  /** The cache drops counters whose time has come. */
  function Unexpired(cache: Cache, now: int): Cache {
    map key | key in cache && cache[key].expiresAt > now :: cache[key]
  }

  function Count(cache: Cache, key: CounterKey): nat {
    if key in cache then cache[key].count else 0
  }

  /** `INCR`, with `EXPIRE` only when this was the first increment. */
  function Incremented(cache: Cache, key: CounterKey, expire: int, now: int): Cache {
    var live := Unexpired(cache, now);
    if key in live then live[key := Counter(live[key].count + 1, live[key].expiresAt)]
    else live[key := Counter(1, now + expire)]
  }

  const MINUTE := 60
  const HOUR := 3600

  // ----- the check

  datatype Limits = Limits(perMinute: nat, perHour: nat)

  datatype Verdict = Admitted | MinuteExceeded | HourExceeded

  /** The cache after a check at time `now`, and the verdict. */
  function Check(cache: Cache, appId: string, limits: Limits, now: int): (Cache, Verdict) {
    var minuteKey := Minute(appId, now / 60);
    var afterMinute := Incremented(cache, minuteKey, MINUTE, now);
    if Count(afterMinute, minuteKey) > limits.perMinute then (afterMinute, MinuteExceeded)
    else
      var hourKey := Hour(appId, now / 3600);
      var afterHour := Incremented(afterMinute, hourKey, HOUR, now);
      if Count(afterHour, hourKey) > limits.perHour then (afterHour, HourExceeded) else (afterHour, Admitted)
  }

  class RateLimiter {
    var cache: Cache

    constructor ()
      ensures cache == map[]
    {
      cache := map[];
    }

    method IncrWithExpire(key: CounterKey, expire: int, now: int) returns (count: nat)
      modifies this
      ensures cache == Incremented(old(cache), key, expire, now)
      ensures count == Count(cache, key)
    {
      cache := Unexpired(cache, now);
      count := Count(cache, key) + 1;
      if key !in cache {
        cache := cache[key := Counter(1, now + expire)];
      } else {
        cache := cache[key := Counter(count, cache[key].expiresAt)];
      }
    }

    method CheckRateLimit(appId: string, limits: Limits, now: int) returns (verdict: Verdict)
      modifies this
      ensures (cache, verdict) == Check(old(cache), appId, limits, now)
    {
      var minuteCount := IncrWithExpire(Minute(appId, now / 60), MINUTE, now);
      if minuteCount > limits.perMinute { return MinuteExceeded; }
      var hourCount := IncrWithExpire(Hour(appId, now / 3600), HOUR, now);
      if hourCount > limits.perHour { return HourExceeded; }
      return Admitted;
    }
  }

  // ----- runs and their complete log

  datatype Arrival = Arrival(appId: string, time: int)

  datatype Entry = Entry(arrival: Arrival, verdict: Verdict)

  type Policy = string -> Limits

  function RunCache(policy: Policy, run: seq<Arrival>): Cache {
    if run == [] then map[]
    else
      var last := run[|run| - 1];
      Check(RunCache(policy, run[..|run| - 1]), last.appId, policy(last.appId), last.time).0
  }

  function RunLog(policy: Policy, run: seq<Arrival>): (log: seq<Entry>)
    ensures |log| == |run|
  {
    if run == [] then []
    else
      var last := run[|run| - 1];
      var verdict := Check(RunCache(policy, run[..|run| - 1]), last.appId, policy(last.appId), last.time).1;
      RunLog(policy, run[..|run| - 1]) + [Entry(last, verdict)]
  }

  ghost predicate TimesAscend(run: seq<Arrival>) {
    forall i, j :: 0 <= i < j < |run| ==> run[i].time <= run[j].time
  }

  /** The log entries a counter stands for. A request rejected by the minute check never reaches
      the hour counter. */
  predicate CountsFor(e: Entry, key: CounterKey) {
    match key
    case Minute(appId, slot) => e.arrival.appId == appId && e.arrival.time / 60 == slot
    case Hour(appId, slot) => e.arrival.appId == appId && e.arrival.time / 3600 == slot && e.verdict != MinuteExceeded
  }

  function Tally(log: seq<Entry>, key: CounterKey): nat {
    if log == [] then 0 else Tally(log[..|log| - 1], key) + if CountsFor(log[|log| - 1], key) then 1 else 0
  }

  function Width(key: CounterKey): int {
    if key.Minute? then MINUTE else HOUR
  }

  function BucketStart(key: CounterKey): int {
    if key.Minute? then key.slot * MINUTE else key.slot * HOUR
  }

  /** The bucket of a counter contains the time. */
  predicate IsCurrent(key: CounterKey, now: int) {
    BucketStart(key) <= now < BucketStart(key) + Width(key)
  }

  predicate HasEnded(key: CounterKey, now: int) {
    BucketStart(key) + Width(key) <= now
  }

  /** At time `clock` every counter holds the number of log entries it stands for, plus one for the
      keys in `extra`, and outlives its bucket; counters are missing only when there is nothing to
      count or their bucket has ended. */
  ghost predicate Represents(cache: Cache, log: seq<Entry>, extra: set<CounterKey>, clock: int) {
    && (forall key :: key in cache ==>
          HasEnded(key, cache[key].expiresAt) && cache[key].count == Tally(log, key) + (if key in extra then 1 else 0))
    && (forall key :: key !in cache ==> key !in extra && (Tally(log, key) == 0 || HasEnded(key, clock)))
  }

  lemma TimePasses(cache: Cache, log: seq<Entry>, extra: set<CounterKey>, clock: int, now: int)
    requires Represents(cache, log, extra, clock) && clock <= now
    requires forall key :: key in extra ==> IsCurrent(key, now)
    ensures Represents(Unexpired(cache, now), log, extra, now)
  {
    forall key | key in cache && key !in Unexpired(cache, now) ensures HasEnded(key, now) && key !in extra {
    }
  }

  lemma IncrementKeepsUp(cache: Cache, log: seq<Entry>, extra: set<CounterKey>, clock: int, key: CounterKey, now: int)
    requires Represents(cache, log, extra, clock) && clock <= now
    requires forall k :: k in extra ==> IsCurrent(k, now)
    requires IsCurrent(key, now) && key !in extra
    ensures Represents(Incremented(cache, key, Width(key), now), log, extra + {key}, now)
    ensures Count(Incremented(cache, key, Width(key), now), key) == Tally(log, key) + 1
  {
    TimePasses(cache, log, extra, clock, now);
  }

  /** What one check decides, in terms of the complete log. */
  ghost function Judged(log: seq<Entry>, appId: string, limits: Limits, now: int): Verdict {
    if Tally(log, Minute(appId, now / 60)) >= limits.perMinute then MinuteExceeded
    else if Tally(log, Hour(appId, now / 3600)) >= limits.perHour then HourExceeded
    else Admitted
  }

  lemma LogGrows(cache: Cache, log: seq<Entry>, e: Entry, extra: set<CounterKey>, clock: int)
    requires Represents(cache, log, extra, clock)
    requires forall key :: key in extra <==> CountsFor(e, key)
    ensures Represents(cache, log + [e], {}, clock)
  {
    forall key ensures Tally(log + [e], key) == Tally(log, key) + if key in extra then 1 else 0 {
      assert (log + [e])[..|log|] == log;
    }
  }

  /** One check judges by the complete log and keeps the counters equal to it. */
  lemma CheckIsFaithful(cache: Cache, log: seq<Entry>, clock: int, appId: string, limits: Limits, now: int)
    requires Represents(cache, log, {}, clock) && clock <= now
    ensures var (cache', verdict) := Check(cache, appId, limits, now);
      && verdict == Judged(log, appId, limits, now)
      && Represents(cache', log + [Entry(Arrival(appId, now), verdict)], {}, now)
  {
    var minuteKey, hourKey := Minute(appId, now / 60), Hour(appId, now / 3600);
    IncrementKeepsUp(cache, log, {}, clock, minuteKey, now);
    var afterMinute := Incremented(cache, minuteKey, MINUTE, now);
    assert {} + {minuteKey} == {minuteKey};
    var verdict := Check(cache, appId, limits, now).1;
    var e := Entry(Arrival(appId, now), verdict);
    if verdict == MinuteExceeded {
      LogGrows(afterMinute, log, e, {minuteKey}, now);
    } else {
      IncrementKeepsUp(afterMinute, log, {minuteKey}, now, hourKey, now);
      assert {minuteKey} + {hourKey} == {minuteKey, hourKey};
      LogGrows(Incremented(afterMinute, hourKey, HOUR, now), log, e, {minuteKey, hourKey}, now);
    }
  }

  /** A minute rejection advances no hour counter. */
  lemma MinuteRejectionSparesHour(cache: Cache, appId: string, limits: Limits, now: int, key: CounterKey)
    requires Check(cache, appId, limits, now).1 == MinuteExceeded && key.Hour?
    ensures Count(Check(cache, appId, limits, now).0, key) == Count(Unexpired(cache, now), key)
  {
  }

  /** Over a whole run with non-decreasing time the expiring counters agree with the complete log. */
  lemma {:induction false} CountersMatchLog(policy: Policy, run: seq<Arrival>, now: int)
    requires TimesAscend(run) && (run != [] ==> run[|run| - 1].time <= now)
    ensures Represents(RunCache(policy, run), RunLog(policy, run), {}, now)
    decreases |run|
  {
    if run != [] {
      var before, last := run[..|run| - 1], run[|run| - 1];
      CountersMatchLog(policy, before, last.time);
      var cache, log := RunCache(policy, before), RunLog(policy, before);
      CheckIsFaithful(cache, log, last.time, last.appId, policy(last.appId), last.time);
      assert last == Arrival(last.appId, last.time);
    }
  }

  /** The verdict on each request is the one the complete log of earlier requests calls for. */
  lemma VerdictsFollowLog(policy: Policy, run: seq<Arrival>)
    requires run != [] && TimesAscend(run)
    ensures var (before, last) := (run[..|run| - 1], run[|run| - 1]);
      RunLog(policy, run) == RunLog(policy, before) +
        [Entry(last, Judged(RunLog(policy, before), last.appId, policy(last.appId), last.time))]
  {
    var before, last := run[..|run| - 1], run[|run| - 1];
    CountersMatchLog(policy, before, last.time);
    var cache, log := RunCache(policy, before), RunLog(policy, before);
    CheckIsFaithful(cache, log, last.time, last.appId, policy(last.appId), last.time);
  }

  // ----- how much gets through

  /** Requests of one application admitted at times from `from` up to but not including `to`. */
  function AdmittedBetween(log: seq<Entry>, appId: string, from: int, to: int): nat {
    if log == [] then 0
    else
      var e := log[|log| - 1];
      AdmittedBetween(log[..|log| - 1], appId, from, to)
      + if e.verdict == Admitted && e.arrival.appId == appId && from <= e.arrival.time < to then 1 else 0
  }

  function Limit(limits: Limits, key: CounterKey): nat {
    if key.Minute? then limits.perMinute else limits.perHour
  }

  ghost function AdmittedInBucket(log: seq<Entry>, key: CounterKey): nat {
    AdmittedBetween(log, key.appId, BucketStart(key), BucketStart(key) + Width(key))
  }

  lemma AdmittedIsCounted(e: Entry, key: CounterKey)
    requires e.verdict == Admitted && e.arrival.appId == key.appId
    requires IsCurrent(key, e.arrival.time)
    ensures CountsFor(e, key)
  {
  }

  lemma AdmissionKeepsBound(log: seq<Entry>, e: Entry, limits: Limits, key: CounterKey)
    requires AdmittedInBucket(log, key) <= Tally(log, key) && AdmittedInBucket(log, key) <= Limit(limits, key)
    requires e.arrival.appId == key.appId ==> e.verdict == Judged(log, key.appId, limits, e.arrival.time)
    ensures AdmittedInBucket(log + [e], key) <= Tally(log + [e], key)
    ensures AdmittedInBucket(log + [e], key) <= Limit(limits, key)
  {
    assert (log + [e])[..|log|] == log;
    if AdmittedInBucket(log + [e], key) > AdmittedInBucket(log, key) {
      AdmittedIsCounted(e, key);
      assert key == Minute(key.appId, e.arrival.time / 60) || key == Hour(key.appId, e.arrival.time / 3600);
    }
  }

  /** No bucket admits more than its limit: at most the requests its counter saw, and at most the limit. */
  lemma {:induction false} BucketIsLimited(policy: Policy, run: seq<Arrival>, key: CounterKey)
    requires TimesAscend(run)
    ensures AdmittedInBucket(RunLog(policy, run), key) <= Tally(RunLog(policy, run), key)
    ensures AdmittedInBucket(RunLog(policy, run), key) <= Limit(policy(key.appId), key)
    decreases |run|
  {
    if run != [] {
      var before := run[..|run| - 1];
      BucketIsLimited(policy, before, key);
      VerdictsFollowLog(policy, run);
      var log := RunLog(policy, before);
      AdmissionKeepsBound(log, RunLog(policy, run)[|log|], policy(key.appId), key);
    }
  }

  lemma {:induction false} BetweenSplits(log: seq<Entry>, appId: string, a: int, b: int, c: int)
    requires a <= b <= c
    ensures AdmittedBetween(log, appId, a, c) == AdmittedBetween(log, appId, a, b) + AdmittedBetween(log, appId, b, c)
    decreases |log|
  {
    if log != [] {
      BetweenSplits(log[..|log| - 1], appId, a, b, c);
    }
  }

  lemma TwoBucketsCoverAWindow(log: seq<Entry>, appId: string, start: int, w: nat, from: int, bound: nat)
    requires start <= from < start + w
    requires AdmittedBetween(log, appId, start, start + w) <= bound
    requires AdmittedBetween(log, appId, start + w, start + w + w) <= bound
    ensures AdmittedBetween(log, appId, from, from + w + 1) <= 2 * bound
  {
    BetweenSplits(log, appId, start, from, start + w + w);
    BetweenSplits(log, appId, from, from + w + 1, start + w + w);
    BetweenSplits(log, appId, start, start + w, start + w + w);
  }

  /** Fixed windows give a sliding bound: in any window as long as a bucket, an application gets at
      most twice its limit. Times are the clock's whole seconds; a window of `w` actual seconds shows
      at most `w + 1` of them. */
  lemma SlidingWindowIsLimited(policy: Policy, run: seq<Arrival>, key: CounterKey, from: int)
    requires TimesAscend(run) && IsCurrent(key, from)
    ensures AdmittedBetween(RunLog(policy, run), key.appId, from, from + Width(key) + 1)
              <= 2 * Limit(policy(key.appId), key)
  {
    BucketIsLimited(policy, run, key);
    BucketIsLimited(policy, run, NextBucket(key));
    WindowIsLimited(RunLog(policy, run), key, from, Limit(policy(key.appId), key));
  }

  ghost function NextBucket(key: CounterKey): (next: CounterKey)
    ensures next.appId == key.appId && Width(next) == Width(key) && BucketStart(next) == BucketStart(key) + Width(key)
    ensures next.Minute? == key.Minute?
  {
    key.(slot := key.slot + 1)
  }

  lemma WindowIsLimited(log: seq<Entry>, key: CounterKey, from: int, bound: nat)
    requires IsCurrent(key, from)
    requires AdmittedInBucket(log, key) <= bound && AdmittedInBucket(log, NextBucket(key)) <= bound
    ensures AdmittedBetween(log, key.appId, from, from + Width(key) + 1) <= 2 * bound
  {
    TwoBucketsCoverAWindow(log, key.appId, BucketStart(key), Width(key), from, bound);
  }

  /** In any 60 consecutive seconds and in any 3600 consecutive seconds, wherever between two whole
      seconds they start. */
  lemma SlidingBounds(policy: Policy, run: seq<Arrival>, appId: string, from: int)
    requires TimesAscend(run)
    ensures AdmittedBetween(RunLog(policy, run), appId, from, from + 61) <= 2 * policy(appId).perMinute
    ensures AdmittedBetween(RunLog(policy, run), appId, from, from + 3601) <= 2 * policy(appId).perHour
  {
    SlidingWindowIsLimited(policy, run, Minute(appId, from / 60), from);
    SlidingWindowIsLimited(policy, run, Hour(appId, from / 3600), from);
  }
}
