/** The clock-skew window and the nonce step of signed callback admission, by the wall clock. */
module CallbackAdmission {

  // ----- the cache

  /** The nonces in the cache, each with the time at which the cache drops it. */
  type NonceCache = map<string, real>

  const NONCE_TTL := 300.0

  /** The cache still holds the key. */
  predicate Holds(cache: NonceCache, key: string, now: real) {
    key in cache && cache[key] > now
  }

  /** Set the key unless the cache holds it, and whether it was set. */
  function SetIfAbsent(cache: NonceCache, key: string, now: real): (NonceCache, bool) {
    if Holds(cache, key, now) then (cache, false) else (cache[key := now + NONCE_TTL], true)
  }

  // ----- the checks

  function StripSlashes(s: string): string {
    if s != "" && s[|s| - 1] == '/' then StripSlashes(s[..|s| - 1]) else s
  }

  /** Callback paths must carry a body HMAC and a nonce. */
  predicate IsBodyHmacRequiredPath(apiPath: string, path: string) {
    StripSlashes(apiPath) + "/v1/callback/" <= path
  }

  datatype Skew = Skew(past: int, future: int)

  function SignatureClockSkew(apiPath: string, path: string): Skew {
    if IsBodyHmacRequiredPath(apiPath, path) then Skew(30, 30) else Skew(300, 60)
  }

  predicate IsTimely(skew: Skew, currentTime: int, requestTime: int) {
    currentTime - requestTime <= skew.past && requestTime <= currentTime + skew.future
  }

  function NonceKey(appId: string, nonce: string): string {
    "api_auth:nonce:" + (appId + ":" + nonce)
  }

  /** A signed request: when its timestamp is checked, whether the checks in between (application,
      headers, body hash, signature) pass, when its nonce is consumed, and whether the cache answers then. */
  datatype Request = Request(
    path: string, appId: string, nonce: string, timestamp: int, checkedAt: real, authentic: bool, consumedAt: real,
    cacheAnswers: bool)

  /** The checks before the nonce step. The clock is read in whole seconds. */
  predicate ReachesNonceStep(apiPath: string, r: Request) {
    IsTimely(SignatureClockSkew(apiPath, r.path), r.checkedAt.Floor, r.timestamp) && r.authentic
  }

  /** The nonces after a request, and whether it got past the skew and replay checks. Only callback
      paths consume a nonce; a nonce that cannot be checked is refused. */
  function Process(apiPath: string, cache: NonceCache, r: Request): (NonceCache, bool) {
    if !ReachesNonceStep(apiPath, r) then (cache, false)
    else if IsBodyHmacRequiredPath(apiPath, r.path) then
      if !r.cacheAnswers then (cache, false)
      else SetIfAbsent(cache, NonceKey(r.appId, r.nonce), r.consumedAt)
    else (cache, true)
  }

  // ----- runs

  /** A run of requests in the order in which they reach the nonce step; each takes fewer than
      `delay` seconds to get there from its timestamp check. */
  ghost predicate IsRun(run: seq<Request>, delay: real) {
    && (forall i :: 0 <= i < |run| ==> run[i].checkedAt <= run[i].consumedAt < run[i].checkedAt + delay)
    && StepsAscend(run)
  }

  ghost predicate StepsAscend(run: seq<Request>) {
    forall i, j :: 0 <= i < j < |run| ==> run[i].consumedAt <= run[j].consumedAt
  }

  function CacheAfter(apiPath: string, run: seq<Request>): NonceCache {
    if run == [] then map[] else Process(apiPath, CacheAfter(apiPath, run[..|run| - 1]), run[|run| - 1]).0
  }

  /** The `k`-th request of the run is admitted. */
  predicate IsAdmitted(apiPath: string, run: seq<Request>, k: nat)
    requires k < |run|
  {
    Process(apiPath, CacheAfter(apiPath, run[..k]), run[k]).1
  }

  // ----- replays

  /** Two callbacks with the same application, nonce and timestamp, on whichever callback paths. */
  predicate IsReplay(apiPath: string, a: Request, b: Request) {
    && IsBodyHmacRequiredPath(apiPath, a.path) && IsBodyHmacRequiredPath(apiPath, b.path)
    && a.appId == b.appId && a.nonce == b.nonce && a.timestamp == b.timestamp
  }

  ghost predicate AdmitsCallbacksOnce(apiPath: string, run: seq<Request>) {
    forall i, j :: 0 <= i < j < |run| && IsReplay(apiPath, run[i], run[j]) ==>
      !(IsAdmitted(apiPath, run, i) && IsAdmitted(apiPath, run, j))
  }

  /** An admitted callback blocks its nonce for the whole time to live. */
  lemma {:induction false} AdmissionBlocks(apiPath: string, run: seq<Request>, i: nat, n: nat, now: real)
    requires i < n <= |run| && IsBodyHmacRequiredPath(apiPath, run[i].path) && IsAdmitted(apiPath, run, i)
    requires StepsAscend(run)
    requires run[n - 1].consumedAt <= now < run[i].consumedAt + NONCE_TTL
    ensures Holds(CacheAfter(apiPath, run[..n]), NonceKey(run[i].appId, run[i].nonce), now)
    decreases n
  {
    assert run[..n][..n - 1] == run[..n - 1] && run[..n][n - 1] == run[n - 1];
    if n > i + 1 {
      AdmissionBlocks(apiPath, run, i, n - 1, now);
    }
  }

  /** The timestamp checks of the run come at most `fraction` of a second after the reading they use. */
  ghost predicate IsReadWithin(run: seq<Request>, fraction: real) {
    forall i :: 0 <= i < |run| ==> run[i].checkedAt <= run[i].checkedAt.Floor as real + fraction
  }

  /** The window of 30 seconds to either side puts two readings for one timestamp at most 60 seconds
      apart; the second check may come a fraction of a second after its reading. */
  lemma TimestampsBoundDelay(apiPath: string, a: Request, b: Request, delay: real, fraction: real)
    requires IsReplay(apiPath, a, b) && delay + fraction <= 240.0
    requires ReachesNonceStep(apiPath, a) && ReachesNonceStep(apiPath, b)
    requires b.checkedAt <= b.checkedAt.Floor as real + fraction
    requires a.checkedAt <= a.consumedAt && b.consumedAt < b.checkedAt + delay
    ensures b.consumedAt < a.consumedAt + NONCE_TTL
  {
    assert a.checkedAt.Floor as real <= a.checkedAt;
    assert b.checkedAt.Floor <= a.checkedAt.Floor + 60;
  }

  /** Replays within a run are caught as long as the delay and what the readings cut off stay within 240
      seconds: 239 seconds of delay by the wall clock, 240 when all checks fall on whole seconds. */
  lemma ReplaysAreCaught(apiPath: string, run: seq<Request>, delay: real, fraction: real)
    requires IsRun(run, delay) && IsReadWithin(run, fraction) && delay + fraction <= 240.0
    ensures AdmitsCallbacksOnce(apiPath, run)
  {
    forall i, j | 0 <= i < j < |run| && IsReplay(apiPath, run[i], run[j])
                  && IsAdmitted(apiPath, run, i) && IsAdmitted(apiPath, run, j)
      ensures false
    {
      TimestampsBoundDelay(apiPath, run[i], run[j], delay, fraction);
      AdmissionBlocks(apiPath, run, i, j, run[j].consumedAt);
    }
  }

  /** A check at or after 60 that still reads 60, and comes less than `delay` before 300. */
  function LateCheck(delay: real, fraction: real): real {
    if fraction < 1.0 then 60.0 + fraction else if delay > 240.0 then 60.0 else (361.0 - delay) / 2.0
  }

  /** A request checked 30 seconds early the first time and 30 seconds late, by the reading, the second
      time; its nonce has just expired when it is consumed again. */
  ghost function DelayedReplay(path: string, late: real): seq<Request> {
    [Request(path, "app", "n", 30, 0.0, true, 0.0, true), Request(path, "app", "n", 30, late, true, 300.0, true)]
  }

  lemma DelayedReplayIsAdmittedTwice(apiPath: string, path: string, delay: real, fraction: real)
    requires delay + fraction > 240.0 && 0.0 <= fraction <= 1.0 && IsBodyHmacRequiredPath(apiPath, path)
    ensures var run := DelayedReplay(path, LateCheck(delay, fraction));
      IsRun(run, delay) && IsReadWithin(run, fraction) && !AdmitsCallbacksOnce(apiPath, run)
  {
    var run := DelayedReplay(path, LateCheck(delay, fraction));
    assert LateCheck(delay, fraction).Floor == 60;
    assert run[..0] == [] && run[..1][..0] == [] && run[..1] == [run[0]];
    var key := NonceKey("app", "n");
    assert CacheAfter(apiPath, run[..1]) == map[key := 300.0];
    assert IsReplay(apiPath, run[0], run[1]) && IsAdmitted(apiPath, run, 0) && IsAdmitted(apiPath, run, 1);
  }

  /** Where the checks come at most `fraction` of a second after their readings, bounding the time between
      the two checks below `delay` seconds makes every run admit each application, nonce and timestamp at
      most once exactly when the two together are at most 240 seconds. */
  lemma AdmissionIsOnceIff(apiPath: string, delay: real, fraction: real)
    requires 0.0 <= fraction <= 1.0
    ensures (forall run :: IsRun(run, delay) && IsReadWithin(run, fraction) ==> AdmitsCallbacksOnce(apiPath, run)) <==>
            delay + fraction <= 240.0
  {
    if delay + fraction <= 240.0 {
      forall run | IsRun(run, delay) && IsReadWithin(run, fraction) ensures AdmitsCallbacksOnce(apiPath, run) {
        ReplaysAreCaught(apiPath, run, delay, fraction);
      }
    } else {
      DelayedReplayIsAdmittedTwice(apiPath, StripSlashes(apiPath) + "/v1/callback/", delay, fraction);
    }
  }

  /** By the wall clock the bound is 239 seconds: a reading cuts off up to a second, so the 60 seconds
      between the ends of the skew window are almost 61. */
  lemma AdmissionIsOnceIffDelayIsShort(apiPath: string, delay: real)
    ensures (forall run :: IsRun(run, delay) ==> AdmitsCallbacksOnce(apiPath, run)) <==> delay <= 239.0
  {
    AdmissionIsOnceIff(apiPath, delay, 1.0);
    assert forall run :: IsReadWithin(run, 1.0);
  }

  // ----- the guarded paths, spelled out

  function Slashes(n: nat): string {
    if n == 0 then "" else Slashes(n - 1) + "/"
  }

  lemma {:induction false} SlashesAreStripped(base: string, n: nat)
    requires base == "" || base[|base| - 1] != '/'
    ensures StripSlashes(base + Slashes(n)) == base
    decreases n
  {
    if n == 0 {
      assert base + Slashes(n) == base;
    } else {
      var longer := base + Slashes(n);
      assert longer[|longer| - 1] == '/' && longer[..|longer| - 1] == base + Slashes(n - 1);
      SlashesAreStripped(base, n - 1);
    }
  }

  /** With an API path of `base` and any number of slashes behind it, the guarded paths are exactly those of
      the form `base/v1/callback/...`. */
  lemma GuardedPathsAreThese(base: string, n: nat, path: string)
    requires base == "" || base[|base| - 1] != '/'
    ensures IsBodyHmacRequiredPath(base + Slashes(n), path) <==>
      exists rest :: path == base + "/v1/callback/" + rest
  {
    SlashesAreStripped(base, n);
    var prefix := base + "/v1/callback/";
    if prefix <= path {
      assert path == prefix + path[|prefix|..];
    }
  }

  /** Two requests below `base/v1/callback/` with the same application, nonce and timestamp are not both
      admitted, as long as each consumes its nonce fewer than 239 seconds after its timestamp check. */
  lemma CallbackIsAdmittedOnce(
    base: string, n: nat, run: seq<Request>, i: nat, j: nat, rest: string, other: string)
    requires base == "" || base[|base| - 1] != '/'
    requires IsRun(run, 239.0) && i < j < |run|
    requires run[i].path == base + "/v1/callback/" + rest && run[j].path == base + "/v1/callback/" + other
    requires run[i].appId == run[j].appId && run[i].nonce == run[j].nonce && run[i].timestamp == run[j].timestamp
    ensures !(IsAdmitted(base + Slashes(n), run, i) && IsAdmitted(base + Slashes(n), run, j))
  {
    SlashesAreStripped(base, n);
    assert IsReplay(base + Slashes(n), run[i], run[j]);
    ReplaysAreCaught(base + Slashes(n), run, 239.0, 1.0);
  }

  /** A callback reaches the nonce step exactly when it is authentic and its timestamp is at most 30 seconds
      before or after the reading. */
  lemma CallbackWindow(base: string, n: nat, r: Request, rest: string)
    requires base == "" || base[|base| - 1] != '/'
    requires r.path == base + "/v1/callback/" + rest
    ensures ReachesNonceStep(base + Slashes(n), r) <==>
      r.authentic && r.checkedAt.Floor - 30 <= r.timestamp <= r.checkedAt.Floor + 30
  {
    SlashesAreStripped(base, n);
    assert IsBodyHmacRequiredPath(base + Slashes(n), r.path);
  }

  // ----- refusals

  /** The request reaches the nonce step of a callback, and the cache answers that the nonce is used. */
  predicate IsRefusedForNonce(apiPath: string, run: seq<Request>, n: nat)
    requires n < |run|
  {
    && ReachesNonceStep(apiPath, run[n]) && IsBodyHmacRequiredPath(apiPath, run[n].path) && run[n].cacheAnswers
    && !IsAdmitted(apiPath, run, n)
  }

  /** An earlier callback of the same application with the same nonce was admitted and is still live. */
  ghost predicate IsReuse(apiPath: string, run: seq<Request>, n: nat)
    requires n < |run|
  {
    exists i :: 0 <= i < n && IsAdmittedUse(apiPath, run, i) && IsLiveUse(run[i], run[n])
  }

  predicate IsAdmittedUse(apiPath: string, run: seq<Request>, i: nat)
    requires i < |run|
  {
    IsBodyHmacRequiredPath(apiPath, run[i].path) && IsAdmitted(apiPath, run, i)
  }

  predicate IsLiveUse(a: Request, b: Request) {
    a.appId == b.appId && a.nonce == b.nonce && b.consumedAt < a.consumedAt + NONCE_TTL
  }

  /** Whatever the cache holds was put there by an admitted callback. */
  lemma {:induction false} HeldIsAdmitted(apiPath: string, run: seq<Request>, key: string) returns (i: nat)
    requires key in CacheAfter(apiPath, run)
    ensures i < |run| && IsAdmittedUse(apiPath, run, i)
    ensures NonceKey(run[i].appId, run[i].nonce) == key
    ensures CacheAfter(apiPath, run)[key] == run[i].consumedAt + NONCE_TTL
    decreases |run|
  {
    var before, last := run[..|run| - 1], run[|run| - 1];
    if IsAdmittedUse(apiPath, run, |run| - 1) && NonceKey(last.appId, last.nonce) == key {
      i := |run| - 1;
    } else {
      i := HeldIsAdmitted(apiPath, before, key);
      assert before[..i] == run[..i];
    }
  }

  /** The other application id is this one, a colon and more. */
  predicate Extends(appId: string, other: string) {
    appId + ":" <= other
  }

  ghost predicate AreSeparated(apps: iset<string>) {
    forall a, b :: a in apps && b in apps ==> !Extends(a, b)
  }

  lemma SameKeySamePair(a: string, n: string, b: string, m: string)
    requires NonceKey(a, n) == NonceKey(b, m) && !Extends(a, b) && !Extends(b, a)
    ensures a == b && n == m
  {
    var prefix := "api_auth:nonce:";
    var left, right := a + ":" + n, b + ":" + m;
    assert NonceKey(a, n)[|prefix|..] == left && NonceKey(b, m)[|prefix|..] == right;
    if |a| < |b| {
      ShorterIsExtended(a, n, b, m);
    } else if |b| < |a| {
      ShorterIsExtended(b, m, a, n);
    } else {
      assert a == left[..|a|] == b && n == left[|a| + 1..] == m;
    }
  }

  lemma ShorterIsExtended(a: string, n: string, b: string, m: string)
    requires a + ":" + n == b + ":" + m && |a| < |b|
    ensures Extends(a, b)
  {
    var whole := a + ":" + n;
    assert whole[..|b|] == b && whole[..|a| + 1] == a + ":";
    assert whole[..|b|][..|a| + 1] == whole[..|a| + 1];
  }

  ghost predicate UsesApps(run: seq<Request>, apps: iset<string>) {
    forall k :: 0 <= k < |run| ==> run[k].appId in apps
  }

  lemma RefusalIsReuse(apiPath: string, run: seq<Request>, n: nat, apps: iset<string>)
    requires n < |run| && UsesApps(run, apps) && AreSeparated(apps) && IsRefusedForNonce(apiPath, run, n)
    ensures IsReuse(apiPath, run, n)
  {
    var i := HeldIsAdmitted(apiPath, run[..n], NonceKey(run[n].appId, run[n].nonce));
    assert run[..n][..i] == run[..i];
    SameKeySamePair(run[i].appId, run[i].nonce, run[n].appId, run[n].nonce);
    assert IsAdmittedUse(apiPath, run, i) && IsLiveUse(run[i], run[n]);
  }

  /** Two applications, one of which extends the other, and nonces that make up for it. */
  ghost function ConfusedPair(path: string, a: string, b: string): seq<Request>
    requires Extends(a, b)
  {
    [Request(path, a, b[|a| + 1..] + ":n", 0, 0.0, true, 0.0, true), Request(path, b, "n", 0, 0.0, true, 0.0, true)]
  }

  lemma ConfusedPairIsRefused(apiPath: string, path: string, a: string, b: string)
    requires Extends(a, b) && IsBodyHmacRequiredPath(apiPath, path)
    ensures var run := ConfusedPair(path, a, b); IsRefusedForNonce(apiPath, run, 1) && !IsReuse(apiPath, run, 1)
  {
    var run := ConfusedPair(path, a, b);
    assert run[..1] == [run[0]] && run[..1][..0] == [];
    assert b == a + ":" + b[|a| + 1..];
    assert a + ":" + (b[|a| + 1..] + ":n") == b + ":" + "n";
    assert CacheAfter(apiPath, run[..1]) == map[NonceKey(b, "n") := 300.0];
  }

  /** A refusal for the nonce always means that the same application used it before, exactly when no
      application id is another one followed by a colon; ids without colons are never confused. */
  lemma RefusalsAreReusesIff(apiPath: string, apps: iset<string>)
    ensures AreSeparated(apps) <==>
      forall run, n: nat :: n < |run| && UsesApps(run, apps) && IsRefusedForNonce(apiPath, run, n) ==>
        IsReuse(apiPath, run, n)
  {
    if AreSeparated(apps) {
      forall run, n: nat | n < |run| && UsesApps(run, apps) && IsRefusedForNonce(apiPath, run, n)
        ensures IsReuse(apiPath, run, n)
      {
        RefusalIsReuse(apiPath, run, n, apps);
      }
    } else {
      var a, b :| a in apps && b in apps && Extends(a, b);
      var path := StripSlashes(apiPath) + "/v1/callback/";
      ConfusedPairIsRefused(apiPath, path, a, b);
      assert UsesApps(ConfusedPair(path, a, b), apps);
    }
  }

  lemma WithoutColonsSeparated(apps: iset<string>)
    requires forall a :: a in apps ==> ':' !in a
    ensures AreSeparated(apps)
  {
    forall a, b | a in apps && b in apps ensures !Extends(a, b) {
      if Extends(a, b) {
        ExtensionHoldsColon(a, b);
      }
    }
  }

  lemma ExtensionHoldsColon(a: string, b: string)
    requires Extends(a, b)
    ensures ':' in b
  {
    assert b[|a|] == (a + ":")[|a|];
  }

  // ----- other requests

  /** The callbacks of a run. */
  function CallbacksOf(apiPath: string, run: seq<Request>): seq<Request> {
    if run == [] then []
    else
      var last := run[|run| - 1];
      CallbacksOf(apiPath, run[..|run| - 1]) + if IsBodyHmacRequiredPath(apiPath, last.path) then [last] else []
  }

  lemma {:induction false} CallbacksSuffice(apiPath: string, run: seq<Request>)
    ensures CacheAfter(apiPath, run) == CacheAfter(apiPath, CallbacksOf(apiPath, run))
    decreases |run|
  {
    if run != [] {
      var before, last := run[..|run| - 1], run[|run| - 1];
      CallbacksSuffice(apiPath, before);
      if IsBodyHmacRequiredPath(apiPath, last.path) {
        var callbacks := CallbacksOf(apiPath, before) + [last];
        assert callbacks[..|callbacks| - 1] == CallbacksOf(apiPath, before);
      } else {
        assert CallbacksOf(apiPath, run) == CallbacksOf(apiPath, before);
      }
    }
  }

  /** Requests outside the callback paths neither use up nor block a nonce: whatever comes next is judged
      as if only the callbacks of the run had come before it. They are themselves admitted however often
      they came before, within a wider window that reaches further back than ahead. */
  lemma OtherPathsDoNotInterfere(apiPath: string, run: seq<Request>, next: Request)
    ensures IsAdmitted(apiPath, run + [next], |run|) ==
            IsAdmitted(apiPath, CallbacksOf(apiPath, run) + [next], |CallbacksOf(apiPath, run)|)
    ensures !IsBodyHmacRequiredPath(apiPath, next.path) ==>
      (IsAdmitted(apiPath, run + [next], |run|) <==>
         next.authentic && next.checkedAt.Floor - 300 <= next.timestamp <= next.checkedAt.Floor + 60)
  {
    CallbacksSuffice(apiPath, run);
    LastIsJudgedByCache(apiPath, run, next);
    LastIsJudgedByCache(apiPath, CallbacksOf(apiPath, run), next);
  }

  lemma LastIsJudgedByCache(apiPath: string, run: seq<Request>, next: Request)
    ensures IsAdmitted(apiPath, run + [next], |run|) == Process(apiPath, CacheAfter(apiPath, run), next).1
  {
    assert (run + [next])[..|run|] == run;
  }
}
