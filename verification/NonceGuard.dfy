/** Replay protection: a table of used nonces with expiry times, pruned as it goes. */
module NonceGuard {

  type Table<!K> = map<K, int>

  /** An accepted use of a key, and when it stops counting. */
  datatype Use<K> = Use(key: K, expiresAt: int)

  /** The complete history still blocks `key` at time `now`. */
  ghost predicate IsLive<K>(history: seq<Use<K>>, key: K, now: int) {
    exists k :: 0 <= k < |history| && history[k].key == key && history[k].expiresAt > now
  }

  predicate Blocks<K(==)>(table: Table<K>, key: K, now: int) {
    key in table && table[key] > now
  }

  function Pruned<K(==)>(table: Table<K>, now: int): Table<K> {
    map key | key in table && table[key] > now :: table[key]
  }

  /** The table after one `consume`, and whether the key was accepted. */
  function Consumed<K(==)>(table: Table<K>, key: K, now: int, ttl: int): (Table<K>, bool) {
    if Blocks(table, key, now) then (table, false) else (Pruned(table[key := now + ttl], now), true)
  }

  /** From time `clock` on, the table blocks exactly the keys the complete history blocks. */
  ghost predicate Represents<K(!new)>(table: Table<K>, history: seq<Use<K>>, clock: int) {
    forall key, now {:trigger Blocks(table, key, now)} {:trigger IsLive(history, key, now)} ::
      now >= clock ==> (Blocks(table, key, now) <==> IsLive(history, key, now))
  }

  lemma LiveAfterUse<K>(history: seq<Use<K>>, use: Use<K>, key: K, now: int)
    ensures IsLive(history + [use], key, now) <==> IsLive(history, key, now) || (use.key == key && use.expiresAt > now)
  {
    if IsLive(history, key, now) {
      var k :| 0 <= k < |history| && history[k].key == key && history[k].expiresAt > now;
      assert (history + [use])[k] == history[k];
    }
    if use.key == key && use.expiresAt > now {
      assert (history + [use])[|history|] == use;
    }
  }

  /** One `consume` at a later time accepts exactly when the complete history does not block the key,
      keeps the table faithful to the history, and after an acceptance holds exactly the live keys. */
  lemma ConsumedIsFaithful<K(!new)>(table: Table<K>, history: seq<Use<K>>, clock: int, key: K, now: int, ttl: int)
    requires Represents(table, history, clock) && now >= clock
    ensures var (table', accepted) := Consumed(table, key, now, ttl);
      var history' := if accepted then history + [Use(key, now + ttl)] else history;
      && (accepted <==> !IsLive(history, key, now))
      && Represents(table', history', now)
      && (accepted ==> forall k :: k in table' <==> IsLive(history', k, now))
  {
    var (table', accepted) := Consumed(table, key, now, ttl);
    if accepted {
      var history' := history + [Use(key, now + ttl)];
      forall k, later | later >= now ensures Blocks(table', k, later) <==> IsLive(history', k, later) {
        LiveAfterUse(history, Use(key, now + ttl), k, later);
        assert Blocks(table, k, later) <==> IsLive(history, k, later);
        if k == key && later >= now {
          assert !Blocks(table, key, now);
        }
      }
      forall k ensures k in table' <==> IsLive(history', k, now) {
        assert k in table' <==> Blocks(table', k, now);
      }
    }
  }

  // ----- whole runs

  datatype Attempt<K> = Attempt(key: K, now: int, ttl: int)

  ghost predicate TimesAscend<K>(attempts: seq<Attempt<K>>) {
    forall i, j :: 0 <= i < j < |attempts| ==> attempts[i].now <= attempts[j].now
  }

  /** The table and the verdicts after a run. */
  function RunTable<K(==)>(attempts: seq<Attempt<K>>): (r: (Table<K>, seq<bool>))
    ensures |r.1| == |attempts|
  {
    if attempts == [] then (map[], [])
    else
      var last := attempts[|attempts| - 1];
      var (table, verdicts) := RunTable(attempts[..|attempts| - 1]);
      var (table', accepted) := Consumed(table, last.key, last.now, last.ttl);
      (table', verdicts + [accepted])
  }

  /** The same run judged by its complete history of accepted uses. */
  ghost function RunHistory<K>(attempts: seq<Attempt<K>>): (r: (seq<Use<K>>, seq<bool>))
    ensures |r.1| == |attempts|
  {
    if attempts == [] then ([], [])
    else
      var last := attempts[|attempts| - 1];
      var (history, verdicts) := RunHistory(attempts[..|attempts| - 1]);
      var accepted := !IsLive(history, last.key, last.now);
      (if accepted then history + [Use(last.key, last.now + last.ttl)] else history, verdicts + [accepted])
  }

  /** The pruned table gives the verdicts of the unbounded log, over every run with non-decreasing
      time and any times to live. */
  lemma {:induction false} TableRefinesHistory<K(!new)>(attempts: seq<Attempt<K>>)
    requires TimesAscend(attempts)
    ensures RunTable(attempts).1 == RunHistory(attempts).1
    ensures attempts != [] ==>
      Represents(RunTable(attempts).0, RunHistory(attempts).0, attempts[|attempts| - 1].now)
    decreases |attempts|
  {
    if attempts != [] {
      var before, last := attempts[..|attempts| - 1], attempts[|attempts| - 1];
      TableRefinesHistory(before);
      var (table, history) := (RunTable(before).0, RunHistory(before).0);
      if before == [] {
        assert Represents(table, history, last.now);
        ConsumedIsFaithful(table, history, last.now, last.key, last.now, last.ttl);
      } else {
        ConsumedIsFaithful(table, history, before[|before| - 1].now, last.key, last.now, last.ttl);
      }
    }
  }

  // ----- time must not run backwards

  ghost predicate HasTimes<K>(attempts: seq<Attempt<K>>, times: seq<int>) {
    |attempts| == |times| && forall k :: 0 <= k < |times| ==> attempts[k].now == times[k]
  }

  ghost predicate AreAscending(times: seq<int>) {
    forall i, j :: 0 <= i < j < |times| ==> times[i] <= times[j]
  }

  ghost predicate AgreesWithHistory<K(!new)>(attempts: seq<Attempt<K>>) {
    RunTable(attempts).1 == RunHistory(attempts).1
  }

  /** The verdict at a place is settled by the attempts up to it. */
  lemma {:induction false} VerdictIsSettled<K(!new)>(attempts: seq<Attempt<K>>, n: nat)
    requires n < |attempts|
    ensures RunTable(attempts).1[n] == RunTable(attempts[..n + 1]).1[n]
    ensures RunHistory(attempts).1[n] == RunHistory(attempts[..n + 1]).1[n]
    decreases |attempts|
  {
    if n + 1 == |attempts| {
      assert attempts[..n + 1] == attempts;
    } else {
      var before := attempts[..|attempts| - 1];
      assert before[..n + 1] == attempts[..n + 1];
      VerdictIsSettled(before, n);
    }
  }

  /** One use of `a` at place `i`, tried again at place `j`; all other attempts are for `b`. Nothing lives on. */
  ghost function Disguised<K>(times: seq<int>, i: nat, j: nat, a: K, b: K): (attempts: seq<Attempt<K>>)
    ensures HasTimes(attempts, times)
  {
    seq(|times|, k requires 0 <= k < |times| => Attempt(if k == i || k == j then a else b, times[k], 0))
  }

  /** Before place `i` nobody used `a`; from then on the table has dropped it, the history has not. */
  lemma {:induction false} UseIsForgotten<K(!new)>(times: seq<int>, i: nat, j: nat, a: K, b: K, n: nat)
    requires a != b && i < j < |times| && n <= j
    ensures var attempts := Disguised(times, i, j, a, b)[..n];
      && a !in RunTable(attempts).0
      && (forall use :: use in RunHistory(attempts).0 && use.key == a ==> i < n)
      && (i < n ==> Use(a, times[i]) in RunHistory(attempts).0)
    decreases n
  {
    if n > 0 {
      UseIsForgotten(times, i, j, a, b, n - 1);
      assert Disguised(times, i, j, a, b)[..n][..n - 1] == Disguised(times, i, j, a, b)[..n - 1];
    }
  }

  /** Two times in the wrong order are enough for the table and the history to part. */
  lemma WrongOrderIsNoticed<K(!new)>(times: seq<int>, i: nat, j: nat, a: K, b: K)
    requires a != b && i < j < |times| && times[i] > times[j]
    ensures !AgreesWithHistory(Disguised(times, i, j, a, b))
  {
    var attempts := Disguised(times, i, j, a, b);
    UseIsForgotten(times, i, j, a, b, j);
    assert attempts[..j + 1][..j] == attempts[..j];
    var history := RunHistory(attempts[..j]).0;
    var k :| 0 <= k < |history| && history[k] == Use(a, times[i]);
    assert IsLive(history, a, times[j]);
    VerdictIsSettled(attempts, j);
  }

  /** Given the times of a run, the pruned table gives the verdicts of the complete history for whatever
      keys and times to live, exactly when time never goes back. */
  lemma VerdictsAgreeIffTimesAscend<K(!new)>(times: seq<int>, a: K, b: K)
    requires a != b
    ensures (forall attempts: seq<Attempt<K>> :: HasTimes(attempts, times) ==> AgreesWithHistory(attempts)) <==>
            AreAscending(times)
  {
    if AreAscending(times) {
      forall attempts: seq<Attempt<K>> | HasTimes(attempts, times) ensures AgreesWithHistory(attempts) {
        TableRefinesHistory(attempts);
      }
    } else {
      var i, j :| 0 <= i < j < |times| && times[i] > times[j];
      WrongOrderIsNoticed(times, i, j, a, b);
    }
  }

  // ----- one fixed time to live

  /** Some entry made at `i` runs out by `k`, where it may be pruned, and yet would still block at `j`. */
  ghost predicate IsForgotten(times: seq<int>, ttl: int, i: nat, k: nat, j: nat) {
    i < k < j < |times| && times[k] >= times[i] + ttl > times[j]
  }

  ghost predicate ForgetsNothing(times: seq<int>, ttl: int) {
    forall i, k, j :: !IsForgotten(times, ttl, i, k, j)
  }

  ghost predicate HasTimesAndTtl<K>(attempts: seq<Attempt<K>>, times: seq<int>, ttl: int) {
    HasTimes(attempts, times) && forall k :: 0 <= k < |attempts| ==> attempts[k].ttl == ttl
  }

  /** Every expiry in the table belongs to one of the first `n` times. */
  ghost predicate ExpiriesAreFrom<K>(table: Table<K>, times: seq<int>, ttl: int, n: nat) {
    forall key :: key in table ==> exists i :: 0 <= i < n && i < |times| && table[key] == times[i] + ttl
  }

  /** At each of the times from the `n`-th on, the table blocks exactly what the history blocks. */
  ghost predicate RepresentsLater<K(!new)>(table: Table<K>, history: seq<Use<K>>, times: seq<int>, n: nat) {
    forall key, j :: n <= j < |times| ==> (Blocks(table, key, times[j]) <==> IsLive(history, key, times[j]))
  }

  /** One `consume` of a run that forgets nothing. */
  lemma ConsumedStaysFaithful<K(!new)>(
    table: Table<K>, history: seq<Use<K>>, times: seq<int>, ttl: int, n: nat, key: K)
    requires ttl > 0 && ForgetsNothing(times, ttl) && n < |times|
    requires ExpiriesAreFrom(table, times, ttl, n) && RepresentsLater(table, history, times, n)
    ensures var (table', accepted) := Consumed(table, key, times[n], ttl);
      var history' := if accepted then history + [Use(key, times[n] + ttl)] else history;
      && (accepted <==> !IsLive(history, key, times[n]))
      && ExpiriesAreFrom(table', times, ttl, n + 1) && RepresentsLater(table', history', times, n + 1)
  {
    var use := Use(key, times[n] + ttl);
    assert Blocks(table, key, times[n]) <==> IsLive(history, key, times[n]);
    if !Blocks(table, key, times[n]) {
      var table' := Consumed(table, key, times[n], ttl).0;
      forall other, j | n + 1 <= j < |times|
        ensures Blocks(table', other, times[j]) <==> IsLive(history + [use], other, times[j])
      {
        LiveAfterUse(history, use, other, times[j]);
        assert Blocks(table, other, times[j]) <==> IsLive(history, other, times[j]);
        if other == key {
          BlockedKeyIsRenewed(table, times, ttl, n, key, j);
        } else {
          BlockedKeyIsNotPruned(table, times, ttl, n, other, j);
        }
      }
    }
  }

  /** A key that would still block later is not pruned now. */
  lemma BlockedKeyIsNotPruned<K>(table: Table<K>, times: seq<int>, ttl: int, n: nat, key: K, j: nat)
    requires ForgetsNothing(times, ttl) && n < j < |times| && ExpiriesAreFrom(table, times, ttl, n)
    ensures Blocks(table, key, times[j]) ==> table[key] > times[n]
  {
    if Blocks(table, key, times[j]) {
      var i :| 0 <= i < n && table[key] == times[i] + ttl;
      assert !IsForgotten(times, ttl, i, n, j);
    }
  }

  /** A key that would still block later blocks at least as long once it is used again. */
  lemma BlockedKeyIsRenewed<K>(table: Table<K>, times: seq<int>, ttl: int, n: nat, key: K, j: nat)
    requires ttl > 0 && ForgetsNothing(times, ttl) && n < j < |times| && ExpiriesAreFrom(table, times, ttl, n)
    requires !Blocks(table, key, times[n])
    ensures Blocks(table, key, times[j]) ==> times[n] + ttl > times[j]
  {
    BlockedKeyIsNotPruned(table, times, ttl, n, key, j);
  }

  lemma {:induction false} FaithfulRun<K(!new)>(attempts: seq<Attempt<K>>, times: seq<int>, ttl: int, n: nat)
    requires ttl > 0 && ForgetsNothing(times, ttl) && HasTimesAndTtl(attempts, times, ttl) && n <= |times|
    ensures AgreesWithHistory(attempts[..n])
    ensures ExpiriesAreFrom(RunTable(attempts[..n]).0, times, ttl, n)
    ensures RepresentsLater(RunTable(attempts[..n]).0, RunHistory(attempts[..n]).0, times, n)
    decreases n
  {
    if n > 0 {
      FaithfulRun(attempts, times, ttl, n - 1);
      assert attempts[..n][..n - 1] == attempts[..n - 1];
      var table, history := RunTable(attempts[..n - 1]).0, RunHistory(attempts[..n - 1]).0;
      ConsumedStaysFaithful(table, history, times, ttl, n - 1, attempts[n - 1].key);
    }
  }

  /** `a` is used at `i` and tried again at `j`, `b` is used at `k`, and `c` everywhere else. */
  ghost function Overtaken<K>(
    times: seq<int>, ttl: int, i: nat, k: nat, j: nat, a: K, b: K, c: K): (attempts: seq<Attempt<K>>)
    ensures HasTimesAndTtl(attempts, times, ttl)
  {
    seq(|times|, n requires 0 <= n < |times| =>
      Attempt(if n == i || n == j then a else if n == k then b else c, times[n], ttl))
  }

  /** In the table `b` is new until `k`, and its acceptance there drops `a`. */
  lemma {:induction false} TableDropsOvertaken<K(!new)>(
    times: seq<int>, ttl: int, i: nat, k: nat, j: nat, a: K, b: K, c: K, n: nat)
    requires a != b && a != c && b != c && IsForgotten(times, ttl, i, k, j) && n <= j
    ensures var table := RunTable(Overtaken(times, ttl, i, k, j, a, b, c)[..n]).0;
      && (n <= i || k < n ==> a !in table)
      && (n <= k ==> b !in table)
      && (a in table ==> table[a] == times[i] + ttl)
    decreases n
  {
    if n > 0 {
      TableDropsOvertaken(times, ttl, i, k, j, a, b, c, n - 1);
      var attempts := Overtaken(times, ttl, i, k, j, a, b, c);
      assert attempts[..n][..n - 1] == attempts[..n - 1] && attempts[..n][n - 1] == attempts[n - 1];
    }
  }

  /** The history remembers `a` from `i` on. */
  lemma {:induction false} HistoryKeepsOvertaken<K(!new)>(
    times: seq<int>, ttl: int, i: nat, k: nat, j: nat, a: K, b: K, c: K, n: nat)
    requires a != b && a != c && b != c && IsForgotten(times, ttl, i, k, j) && n <= j
    ensures var history := RunHistory(Overtaken(times, ttl, i, k, j, a, b, c)[..n]).0;
      && (forall use :: use in history && use.key == a ==> i < n)
      && (i < n ==> Use(a, times[i] + ttl) in history)
    decreases n
  {
    if n > 0 {
      HistoryKeepsOvertaken(times, ttl, i, k, j, a, b, c, n - 1);
      var attempts := Overtaken(times, ttl, i, k, j, a, b, c);
      assert attempts[..n][..n - 1] == attempts[..n - 1] && attempts[..n][n - 1] == attempts[n - 1];
    }
  }

  lemma OvertakenIsNoticed<K(!new)>(times: seq<int>, ttl: int, i: nat, k: nat, j: nat, a: K, b: K, c: K)
    requires a != b && a != c && b != c && IsForgotten(times, ttl, i, k, j)
    ensures !AgreesWithHistory(Overtaken(times, ttl, i, k, j, a, b, c))
  {
    var attempts := Overtaken(times, ttl, i, k, j, a, b, c);
    TableDropsOvertaken(times, ttl, i, k, j, a, b, c, j);
    HistoryKeepsOvertaken(times, ttl, i, k, j, a, b, c, j);
    assert attempts[..j + 1][..j] == attempts[..j];
    var history := RunHistory(attempts[..j]).0;
    var l :| 0 <= l < |history| && history[l] == Use(a, times[i] + ttl);
    assert IsLive(history, a, times[j]);
    VerdictIsSettled(attempts, j);
  }

  /** With one fixed, positive time to live, many steps back are harmless: given the times of a run, the
      pruned table gives the verdicts of the complete history for whatever keys exactly when no entry runs
      out at one time and would still block later in the run. */
  lemma VerdictsAgreeIffNothingForgotten<K(!new)>(times: seq<int>, ttl: int, a: K, b: K, c: K)
    requires ttl > 0 && a != b && a != c && b != c
    ensures ForgetsNothing(times, ttl) <==>
      forall attempts: seq<Attempt<K>> :: HasTimesAndTtl(attempts, times, ttl) ==> AgreesWithHistory(attempts)
  {
    if ForgetsNothing(times, ttl) {
      forall attempts: seq<Attempt<K>> | HasTimesAndTtl(attempts, times, ttl) ensures AgreesWithHistory(attempts) {
        FaithfulRun(attempts, times, ttl, |times|);
        assert attempts[..|times|] == attempts;
      }
    } else {
      var i, k, j :| IsForgotten(times, ttl, i, k, j);
      OvertakenIsNoticed(times, ttl, i, k, j, a, b, c);
    }
  }

  // ----- the guard

  type Nonce = (string, string)

  class InMemoryNonceReplayGuard {
    var seen: Table<Nonce>
    ghost var history: seq<Use<Nonce>>
    ghost var clock: int

    /** The table has been faithful to the history since the last use. */
    ghost predicate Valid()
      reads this
    {
      Represents(seen, history, clock)
    }

    /** Time may start anywhere; from then on it does not go backwards. */
    ghost predicate IsInOrder(now: int)
      reads this
    {
      now >= clock || (history == [] && seen == map[])
    }

    constructor ()
      ensures Valid() && seen == map[] && history == []
    {
      seen, history, clock := map[], [], 0;
    }

    /** At any time the guard does what `Consumed` says; as long as time does not go backwards that is
        what the complete history calls for. */
    method Consume(appId: string, nonce: string, now: int, ttl: int) returns (accepted: bool)
      modifies this
      ensures (seen, accepted) == Consumed(old(seen), (appId, nonce), now, ttl)
      ensures clock == now
      ensures history == if accepted then old(history) + [Use((appId, nonce), now + ttl)] else old(history)
      ensures old(Valid()) && old(IsInOrder(now)) ==> Valid()
      ensures old(Valid()) && old(IsInOrder(now)) ==>
        (accepted <==> forall k :: 0 <= k < |old(history)| && old(history)[k].key == (appId, nonce) ==>
                         old(history)[k].expiresAt <= now)
      ensures old(Valid()) && old(IsInOrder(now)) && accepted ==> forall k :: k in seen <==> IsLive(history, k, now)
    {
      var key := (appId, nonce);
      if Valid() && IsInOrder(now) {
        ConsumedIsFaithful(seen, history, if now >= clock then clock else now, key, now, ttl);
      }
      clock := now;
      if key in seen && seen[key] > now {
        return false;
      }
      seen := seen[key := now + ttl];
      Prune(now);
      history := history + [Use(key, now + ttl)];
      return true;
    }

    method Prune(now: int)
      modifies `seen
      ensures seen == Pruned(old(seen), now)
    {
      var expired := set key | key in seen && seen[key] <= now;
      while expired != {}
        invariant forall key :: key in seen ==> key in old(seen) && seen[key] == old(seen)[key]
        invariant forall key :: key in old(seen) && key !in seen ==> old(seen)[key] <= now
        invariant expired == set key | key in seen && seen[key] <= now
        decreases expired
      {
        var key :| key in expired;
        seen := seen - {key};
        expired := expired - {key};
      }
      forall key | key in seen ensures seen[key] > now {
        assert key !in expired;
      }
    }
  }
}
