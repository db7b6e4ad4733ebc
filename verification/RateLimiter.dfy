/** The in-memory fixed-window rate limiter the login falls back to, which prunes expired entries
    once it holds a thousand. */
module RateLimiter {
  import opened Common

  datatype Entry = Entry(attempts: nat, expiresAt: int)

  type Limits = map<string, Entry>

  const PRUNE_FROM: nat := 1000

  function NextEntry(limits: Limits, key: string, windowMs: int, now: int): Entry {
    if key in limits && limits[key].expiresAt > now
    then Entry(limits[key].attempts + 1, limits[key].expiresAt)
    else Entry(1, now + windowMs)
  }

  /** Whether a call is let through. */
  predicate Allows(limits: Limits, key: string, limit: nat, windowMs: int, now: int) {
    NextEntry(limits, key, windowMs, now).attempts <= limit
  }

  function Pruned(limits: Limits, now: int): Limits {
    if |limits| < PRUNE_FROM then limits
    else map k | k in limits && limits[k].expiresAt > now :: limits[k]
  }

  /** The map after a call. */
  function AfterCall(limits: Limits, key: string, windowMs: int, now: int): Limits {
    Pruned(limits[key := NextEntry(limits, key, windowMs, now)], now)
  }

  class Limiter {
    var localRateLimits: Limits

    constructor ()
      ensures localRateLimits == map[]
    {
      localRateLimits := map[];
    }

    /** Returns whether the call is let through; the source throws when it is not. */
    method EnforceLocalRateLimit(key: string, limit: nat, windowMs: int, now: int) returns (allowed: bool)
      modifies this
      ensures allowed <==> Allows(old(localRateLimits), key, limit, windowMs, now)
      ensures localRateLimits == AfterCall(old(localRateLimits), key, windowMs, now)
    {
      var next :=
        if key in localRateLimits && localRateLimits[key].expiresAt > now
        then Entry(localRateLimits[key].attempts + 1, localRateLimits[key].expiresAt)
        else Entry(1, now + windowMs);
      localRateLimits := localRateLimits[key := next];
      PruneLocalRateLimits(now);
      allowed := !(next.attempts > limit);
    }

    /** Deletes the expired entries one by one, in whatever order the map is walked. */
    method PruneLocalRateLimits(now: int)
      modifies this
      ensures localRateLimits == Pruned(old(localRateLimits), now)
    {
      if |localRateLimits| < PRUNE_FROM {
        return;
      }
      var rest := localRateLimits.Keys;
      while rest != {}
        invariant rest <= old(localRateLimits).Keys
        invariant localRateLimits.Keys
          == set k | k in old(localRateLimits) && (k in rest || old(localRateLimits)[k].expiresAt > now)
        invariant forall k | k in localRateLimits :: localRateLimits[k] == old(localRateLimits)[k]
        decreases rest
      {
        var key :| key in rest;
        if localRateLimits[key].expiresAt <= now {
          localRateLimits := localRateLimits - {key};
        }
        rest := rest - {key};
      }
    }
  }

  // ---- runs ----

  datatype Call = Call(key: string, limit: nat, windowMs: int, now: int)

  ghost predicate Monotone(calls: seq<Call>) {
    forall i, j | 0 <= i <= j < |calls| :: calls[i].now <= calls[j].now
  }

  /** The decisions of a run, with or without pruning. */
  function Decisions(limits: Limits, calls: seq<Call>, prune: bool): seq<bool>
    decreases |calls|
  {
    if calls == [] then []
    else
      var c := calls[0];
      var next := NextEntry(limits, c.key, c.windowMs, c.now);
      var after := limits[c.key := next];
      [Allows(limits, c.key, c.limit, c.windowMs, c.now)]
      + Decisions(if prune then Pruned(after, c.now) else after, calls[1..], prune)
  }

  /** Two maps with the same live entries. */
  ghost predicate SameLive(a: Limits, b: Limits, now: int) {
    forall k ::
      (k in a && a[k].expiresAt > now) == (k in b && b[k].expiresAt > now)
      && (k in a && a[k].expiresAt > now ==> a[k] == b[k])
  }

  lemma SameLiveStep(a: Limits, b: Limits, c: Call)
    requires SameLive(a, b, c.now)
    ensures NextEntry(a, c.key, c.windowMs, c.now) == NextEntry(b, c.key, c.windowMs, c.now)
    ensures var e := NextEntry(a, c.key, c.windowMs, c.now);
      SameLive(Pruned(a[c.key := e], c.now), b[c.key := e], c.now)
  {
  }

  lemma {:induction false} SameDecisions(a: Limits, b: Limits, calls: seq<Call>, now: int)
    requires SameLive(a, b, now) && Monotone(calls) && (calls != [] ==> now <= calls[0].now)
    ensures Decisions(a, calls, true) == Decisions(b, calls, false)
    decreases |calls|
  {
    if calls != [] {
      var c := calls[0];
      assert SameLive(a, b, c.now);
      SameLiveStep(a, b, c);
      var e := NextEntry(a, c.key, c.windowMs, c.now);
      assert Monotone(calls[1..]) by {
        forall i, j | 0 <= i <= j < |calls[1..]| ensures calls[1..][i].now <= calls[1..][j].now {
          assert calls[1..][i] == calls[i + 1] && calls[1..][j] == calls[j + 1];
        }
      }
      assert |calls| > 1 ==> calls[0].now <= calls[1].now;
      SameDecisions(Pruned(a[c.key := e], c.now), b[c.key := e], calls[1..], c.now);
    }
  }

  /** While the clock does not run backwards, pruning never changes a decision. */
  lemma PruningIsInvisible(limits: Limits, calls: seq<Call>)
    requires Monotone(calls)
    ensures Decisions(limits, calls, true) == Decisions(limits, calls, false)
  {
    SameDecisions(limits, limits, calls, if calls == [] then 0 else calls[0].now);
  }

  /** From a thousand entries on pruning deletes exactly the expired ones; with fewer it deletes nothing. */
  lemma PrunedMeaning(limits: Limits, now: int)
    ensures var n := Pruned(limits, now);
      && (forall k :: k in n <==> k in limits && (|limits| >= 1000 ==> now < limits[k].expiresAt))
      && (forall k | k in n :: n[k] == limits[k])
  {
  }

  /** A call counts on the entry of its key alone: other entries stay, or are expired ones that go. */
  lemma OtherKeys(limits: Limits, key: string, windowMs: int, now: int, other: string)
    requires other != key
    ensures var n := AfterCall(limits, key, windowMs, now);
      && (other in n ==> other in limits && n[other] == limits[other])
      && (other in limits && now < limits[other].expiresAt ==> other in n)
  {
  }

  /** The calls of one key, as a limit and a window that starts at a given time let them through. */
  ghost predicate OfWindow(calls: seq<Call>, key: string, limit: nat, windowMs: int, start: int) {
    forall i | 0 <= i < |calls| ::
      calls[i].key == key && calls[i].limit == limit && calls[i].windowMs == windowMs
      && start <= calls[i].now < start + windowMs
  }

  lemma {:induction false} WindowGoesOn(limits: Limits, calls: seq<Call>, key: string, limit: nat, windowMs: int,
      start: int)
    requires key in limits && limits[key].expiresAt == start + windowMs
    requires OfWindow(calls, key, limit, windowMs, start)
    ensures |Decisions(limits, calls, false)| == |calls|
    ensures forall i | 0 <= i < |calls| :: Decisions(limits, calls, false)[i] <==> limits[key].attempts + i < limit
    decreases |calls|
  {
    if calls != [] {
      var c := calls[0];
      var after := limits[key := NextEntry(limits, key, windowMs, c.now)];
      assert OfWindow(calls[1..], key, limit, windowMs, start);
      WindowGoesOn(after, calls[1..], key, limit, windowMs, start);
    }
  }

  /** A call that finds no entry, or an expired one, opens a window. Of the calls up to its end the first `limit`
      get through and the others do not. */
  lemma WindowAdmits(limits: Limits, calls: seq<Call>, key: string, limit: nat, windowMs: int, start: int)
    requires key in limits ==> limits[key].expiresAt <= start
    requires calls != [] && calls[0].now == start && OfWindow(calls, key, limit, windowMs, start)
    ensures |Decisions(limits, calls, false)| == |calls|
    ensures forall i | 0 <= i < |calls| :: Decisions(limits, calls, false)[i] <==> i < limit
  {
    var after := limits[key := Entry(1, start + windowMs)];
    assert OfWindow(calls[1..], key, limit, windowMs, start);
    assert NextEntry(limits, key, windowMs, start) == Entry(1, start + windowMs);
    WindowGoesOn(after, calls[1..], key, limit, windowMs, start);
  }

  // ---- how many calls get through ----

  /** All calls of one key use the same limit and window, as the callers' constants do. */
  ghost predicate Fixed(calls: seq<Call>, key: string, limit: nat, windowMs: int) {
    forall i | 0 <= i < |calls| && calls[i].key == key :: calls[i].limit == limit && calls[i].windowMs == windowMs
  }

  /** The calls of a key let through within [from, from + windowMs). */
  function AllowedIn(limits: Limits, calls: seq<Call>, key: string, from: int, windowMs: int): nat
    decreases |calls|
  {
    if calls == [] then 0
    else
      var c := calls[0];
      var next := NextEntry(limits, c.key, c.windowMs, c.now);
      (if c.key == key && Allows(limits, key, c.limit, c.windowMs, c.now) && from <= c.now < from + windowMs
       then 1 else 0)
      + AllowedIn(limits[c.key := next], calls[1..], key, from, windowMs)
  }

  function Left(limit: nat, attempts: nat): nat {
    if attempts < limit then limit - attempts else 0
  }

  /** What the interval can still let through: the rest of the current window, and one more whole
      window if the current one ends inside the interval. */
  function Budget(limits: Limits, key: string, limit: nat, from: int, windowMs: int): nat {
    if key !in limits then limit
    else Left(limit, limits[key].attempts) + if limits[key].expiresAt < from + windowMs then limit else 0
  }

  lemma {:induction false} WithinBudget(limits: Limits, calls: seq<Call>, key: string, limit: nat, from: int,
      windowMs: int)
    requires Monotone(calls) && Fixed(calls, key, limit, windowMs)
    requires forall i | 0 <= i < |calls| :: from <= calls[i].now
    ensures AllowedIn(limits, calls, key, from, windowMs) <= Budget(limits, key, limit, from, windowMs)
    decreases |calls|
  {
    if calls != [] {
      var c, rest := calls[0], calls[1..];
      assert Monotone(rest) && Fixed(rest, key, limit, windowMs) by { Tail(calls, key, limit, windowMs); }
      WithinBudget(limits[c.key := NextEntry(limits, c.key, c.windowMs, c.now)], rest, key, limit, from, windowMs);
      if c.now >= from + windowMs {
        LateCalls(limits[c.key := NextEntry(limits, c.key, c.windowMs, c.now)], rest, key, from, windowMs);
      }
    }
  }

  lemma Tail(calls: seq<Call>, key: string, limit: nat, windowMs: int)
    requires calls != [] && Monotone(calls) && Fixed(calls, key, limit, windowMs)
    ensures Monotone(calls[1..]) && Fixed(calls[1..], key, limit, windowMs)
  {
    var rest := calls[1..];
    forall i, j | 0 <= i <= j < |rest| ensures rest[i].now <= rest[j].now {
      assert rest[i] == calls[i + 1] && rest[j] == calls[j + 1];
    }
    forall i | 0 <= i < |rest| && rest[i].key == key ensures rest[i].limit == limit && rest[i].windowMs == windowMs {
      assert rest[i] == calls[i + 1];
    }
  }

  lemma {:induction false} LateCalls(limits: Limits, calls: seq<Call>, key: string, from: int, windowMs: int)
    requires forall i | 0 <= i < |calls| :: from + windowMs <= calls[i].now
    ensures AllowedIn(limits, calls, key, from, windowMs) == 0
    decreases |calls|
  {
    if calls != [] {
      LateCalls(limits[calls[0].key := NextEntry(limits, calls[0].key, calls[0].windowMs, calls[0].now)],
                calls[1..], key, from, windowMs);
    }
  }

  /** An entry in the map has counted at least one call. */
  ghost predicate Counting(limits: Limits) {
    forall k | k in limits :: limits[k].attempts >= 1
  }

  /** In any interval as long as the window, at most 2 * limit - 1 calls of a key get through. */
  lemma {:induction false} AtMostTwoWindows(limits: Limits, calls: seq<Call>, key: string, limit: nat, from: int,
      windowMs: int)
    requires Counting(limits) && Monotone(calls) && Fixed(calls, key, limit, windowMs) && limit >= 1
    ensures AllowedIn(limits, calls, key, from, windowMs) <= 2 * limit - 1
    decreases |calls|
  {
    if calls != [] {
      if calls[0].now >= from {
        WithinBudget(limits, calls, key, limit, from, windowMs);
      } else {
        Tail(calls, key, limit, windowMs);
        AtMostTwoWindows(limits[calls[0].key := NextEntry(limits, calls[0].key, calls[0].windowMs, calls[0].now)],
                         calls[1..], key, limit, from, windowMs);
      }
    }
  }

  // ---- the bound is reached ----

  function Repeat(c: Call, n: nat): seq<Call> {
    seq(n, _ => c)
  }

  lemma {:induction false} RepeatedCalls(limits: Limits, c: Call, n: nat, rest: seq<Call>, from: int)
    requires c.key in limits && limits[c.key].expiresAt > c.now && limits[c.key].attempts + n <= c.limit
    requires from <= c.now < from + c.windowMs
    ensures var after := limits[c.key := limits[c.key].(attempts := limits[c.key].attempts + n)];
      AllowedIn(limits, Repeat(c, n) + rest, c.key, from, c.windowMs)
        == n + AllowedIn(after, rest, c.key, from, c.windowMs)
  {
    if n == 0 {
      assert Repeat(c, 0) + rest == rest;
      assert limits[c.key := limits[c.key]] == limits;
    } else {
      var calls := Repeat(c, n) + rest;
      assert calls[0] == c && calls[1..] == Repeat(c, n - 1) + rest;
      var next := limits[c.key := Entry(limits[c.key].attempts + 1, limits[c.key].expiresAt)];
      RepeatedCalls(next, c, n - 1, rest, from);
      assert next[c.key := next[c.key].(attempts := next[c.key].attempts + (n - 1))]
        == limits[c.key := limits[c.key].(attempts := limits[c.key].attempts + n)];
    }
  }

  /** One call opens a window, others fill it just before it ends, and the next window is filled at
      once. */
  function TwoWindows(key: string, limit: nat, windowMs: int): seq<Call>
    requires limit >= 1
  {
    [Call(key, limit, windowMs, 0)]
    + (Repeat(Call(key, limit, windowMs, windowMs - 1), limit - 1)
       + ([Call(key, limit, windowMs, windowMs)] + Repeat(Call(key, limit, windowMs, windowMs), limit - 1)))
  }

  lemma TwoWindowsIsRun(key: string, limit: nat, windowMs: int)
    requires limit >= 1 && windowMs >= 2
    ensures Monotone(TwoWindows(key, limit, windowMs)) && Fixed(TwoWindows(key, limit, windowMs), key, limit, windowMs)
  {
    var calls := TwoWindows(key, limit, windowMs);
    forall i | 0 <= i < |calls|
      ensures calls[i] == Call(key, limit, windowMs, if i == 0 then 0 else if i < limit then windowMs - 1 else windowMs)
    {
    }
  }

  /** A run that meets the hypotheses of AtMostTwoWindows: of its calls from the last millisecond of the first
      window on, 2 * limit - 1 get through. */
  lemma BoundIsReached(key: string, limit: nat, windowMs: int)
    requires limit >= 1 && windowMs >= 2
    ensures Counting(map[])
    ensures Monotone(TwoWindows(key, limit, windowMs)) && Fixed(TwoWindows(key, limit, windowMs), key, limit, windowMs)
    ensures AllowedIn(map[], TwoWindows(key, limit, windowMs), key, windowMs - 1, windowMs) == 2 * limit - 1
  {
    TwoWindowsIsRun(key, limit, windowMs);
    var late, next := Call(key, limit, windowMs, windowMs - 1), Call(key, limit, windowMs, windowMs);
    var from := windowMs - 1;
    var tail := [next] + Repeat(next, limit - 1);
    var m0: Limits := map[key := Entry(1, windowMs)];
    var m1: Limits := map[key := Entry(limit, windowMs)];
    var m2: Limits := map[key := Entry(1, 2 * windowMs)];
    FirstCall(map[], Call(key, limit, windowMs, 0), Repeat(late, limit - 1) + tail, m0, from);
    RepeatedCalls(m0, late, limit - 1, tail, from);
    assert m0[key := m0[key].(attempts := limit)] == m1;
    FirstCall(m1, next, Repeat(next, limit - 1), m2, from);
    RepeatedCalls(m2, next, limit - 1, [], from);
    assert Repeat(next, limit - 1) + [] == Repeat(next, limit - 1);
  }

  lemma FirstCall(limits: Limits, c: Call, rest: seq<Call>, after: Limits, from: int)
    requires after == limits[c.key := Entry(1, c.now + c.windowMs)]
    requires c.limit >= 1 && (c.key in limits ==> limits[c.key].expiresAt <= c.now)
    ensures AllowedIn(limits, [c] + rest, c.key, from, c.windowMs)
      == (if from <= c.now < from + c.windowMs then 1 else 0) + AllowedIn(after, rest, c.key, from, c.windowMs)
  {
    assert ([c] + rest)[1..] == rest;
  }
}
