/**
 The strict rate limiter (mojo/decorators/limits.py): each request passes up to four
 sliding-window tiers, each with its own key, and stops at the first that refuses it.
 */
module StrictLimits {
  import opened Wrappers
  import opened SlidingWindow

  /** The window and limit of each key. */
  datatype Plan = Plan(window: string -> real, limit: string -> nat)

  type Logs = map<string, seq<Attempt>>

  /** The checks a request would make: the key, and the time that check reads off the clock. */
  type Request = seq<(string, real)>

  ghost predicate WellFormedPlan(plan: Plan) {
    forall b :: plan.window(b) > 0.0
  }

  function LogOf(logs: Logs, b: string): seq<Attempt> {
    if b in logs then logs[b] else []
  }

  function Checked(logs: Logs, plan: Plan, check: (string, real)): Logs {
    var log := LogOf(logs, check.0);
    logs[check.0 := log + [Attempt(check.1, Passes(log, plan.window(check.0), plan.limit(check.0), check.1))]]
  }

  /** The tiers in order until one refuses: the histories afterwards, and whether the request is served. */
  function TierRun(logs: Logs, plan: Plan, request: Request): (Logs, bool)
    decreases |request|
  {
    if request == [] then (logs, true)
    else
      var (b, now) := request[0];
      if Passes(LogOf(logs, b), plan.window(b), plan.limit(b), now)
      then TierRun(Checked(logs, plan, request[0]), plan, request[1..])
      else (Checked(logs, plan, request[0]), false)
  }

  function AfterAll(requests: seq<Request>, plan: Plan): Logs {
    if requests == [] then map[]
    else TierRun(AfterAll(requests[..|requests| - 1], plan), plan, requests[|requests| - 1]).0
  }

  /** A request that is served or refused leaves alone the histories of keys it was not checked against. */
  lemma {:induction false} OthersUntouched(logs: Logs, plan: Plan, request: Request, b: string)
    requires forall i :: 0 <= i < |request| ==> request[i].0 != b
    ensures LogOf(TierRun(logs, plan, request).0, b) == LogOf(logs, b)
    decreases |request|
  {
    hide Passes;
    if request != [] { OthersUntouched(Checked(logs, plan, request[0]), plan, request[1..], b); }
  }

  lemma {:induction false} FirstRefusal(logs: Logs, plan: Plan, request: Request) returns (j: nat)
    requires !TierRun(logs, plan, request).1
    ensures j < |request| && TierRun(logs, plan, request[..j]).1 && !TierRun(logs, plan, request[..j + 1]).1
    decreases |request|
  {
    hide Passes, Checked;
    var (b, now) := request[0];
    if Passes(LogOf(logs, b), plan.window(b), plan.limit(b), now) {
      var rest := FirstRefusal(Checked(logs, plan, request[0]), plan, request[1..]);
      j := rest + 1;
      assert request[..j][0] == request[0] && request[..j][1..] == request[1..][..rest];
      assert request[..j + 1][0] == request[0] && request[..j + 1][1..] == request[1..][..rest + 1];
    } else {
      j := 0;
      assert request[..0] == [] && request[..1][0] == request[0];
    }
  }

  lemma RefusedCheck(log: seq<Attempt>, window: real, limit: nat, now: real)
    requires !Passes(log, window, limit, now)
    ensures var all := log + [Attempt(now, false)];
            |set i | 0 <= i < |all| && now - window < all[i].at <= now :: all[i].at| > limit
  {
    VerdictIsNotCounted(log, now, window, false);
  }

  /**
   A request is refused by one tier: every tier before it passed, it found more than `limit`
   attempts in its window, itself included, and no later tier recorded anything.
   */
  lemma RefusedByOne(logs: Logs, plan: Plan, request: Request) returns (j: nat)
    requires !TierRun(logs, plan, request).1
    ensures j < |request| && TierRun(logs, plan, request[..j]).1
    ensures var (b, now) := request[j];
            var before := TierRun(logs, plan, request[..j]).0;
            var log := LogOf(before, b) + [Attempt(now, false)];
            && TierRun(logs, plan, request).0 == before[b := log]
            && |set i | 0 <= i < |log| && now - plan.window(b) < log[i].at <= now :: log[i].at| > plan.limit(b)
    ensures forall b :: (forall i :: 0 <= i <= j ==> request[i].0 != b) ==>
              LogOf(TierRun(logs, plan, request).0, b) == LogOf(logs, b)
  {
    hide TierRun, Passes, Recent, LogOf;
    j := FirstRefusal(logs, plan, request);
    var (b, now) := request[j];
    var before := TierRun(logs, plan, request[..j]).0;
    OneMoreTier(logs, plan, request, j);
    RefusalIsFinal(logs, plan, request, j + 1);
    RefusedCheck(LogOf(before, b), plan.window(b), plan.limit(b), now);
    forall c | forall i :: 0 <= i <= j ==> request[i].0 != c
      ensures LogOf(TierRun(logs, plan, request).0, c) == LogOf(logs, c)
    {
      OthersUntouched(logs, plan, request[..j + 1], c);
    }
  }

  /** A served request was within the limit of every key it was checked against, at its turn. */
  lemma {:induction false} ServedPassesAll(logs: Logs, plan: Plan, request: Request, j: nat)
    requires TierRun(logs, plan, request).1 && j < |request|
    ensures TierRun(logs, plan, request[..j]).1
    ensures var (b, now) := request[j];
            var log := LogOf(TierRun(logs, plan, request[..j]).0, b) + [Attempt(now, true)];
            |set i | 0 <= i < |log| && now - plan.window(b) < log[i].at <= now :: log[i].at| <= plan.limit(b)
    decreases |request|
  {
    if j == 0 {
      assert request[..0] == [];
    } else {
      hide Recent;
      ServedPassesAll(Checked(logs, plan, request[0]), plan, request[1..], j - 1);
      assert request[..j][0] == request[0] && request[..j][1..] == request[1..][..j - 1];
    }
  }

  // ---------- the bound on served requests ----------

  predicate ChecksIn(request: Request, b: string, s: Stretch, window: real) {
    exists i :: 0 <= i < |request| && request[i].0 == b && In(request[i].1, s, window)
  }

  /** The served requests that were checked against the key within the stretch. */
  function ServedIn(requests: seq<Request>, plan: Plan, b: string, s: Stretch): nat {
    if requests == [] then 0
    else
      var before, last := requests[..|requests| - 1], requests[|requests| - 1];
      ServedIn(before, plan, b, s)
      + if TierRun(AfterAll(before, plan), plan, last).1 && ChecksIn(last, b, s, plan.window(b)) then 1 else 0
  }

  lemma CheckKeepsGenuine(logs: Logs, plan: Plan, check: (string, real), b: string)
    requires Genuine(LogOf(logs, b), plan.window(b), plan.limit(b))
    ensures Genuine(LogOf(Checked(logs, plan, check), b), plan.window(b), plan.limit(b))
  {
    hide Genuine;
    if check.0 == b { NextIsGenuine(LogOf(logs, b), check.1, plan.window(b), plan.limit(b)); }
  }

  lemma {:induction false} TierRunKeepsGenuine(logs: Logs, plan: Plan, request: Request, b: string)
    requires Genuine(LogOf(logs, b), plan.window(b), plan.limit(b))
    ensures Genuine(LogOf(TierRun(logs, plan, request).0, b), plan.window(b), plan.limit(b))
    decreases |request|
  {
    hide Genuine;
    if request != [] {
      CheckKeepsGenuine(logs, plan, request[0], b);
      TierRunKeepsGenuine(Checked(logs, plan, request[0]), plan, request[1..], b);
    }
  }

  lemma {:induction false} AllGenuine(requests: seq<Request>, plan: Plan, b: string)
    ensures Genuine(LogOf(AfterAll(requests, plan), b), plan.window(b), plan.limit(b))
  {
    if requests != [] {
      AllGenuine(requests[..|requests| - 1], plan, b);
      TierRunKeepsGenuine(AfterAll(requests[..|requests| - 1], plan), plan, requests[|requests| - 1], b);
    }
  }

  lemma CheckedCounts(logs: Logs, plan: Plan, check: (string, real), b: string, s: Stretch)
    ensures AllowedIn(LogOf(Checked(logs, plan, check), b), s, plan.window(b)) ==
            AllowedIn(LogOf(logs, b), s, plan.window(b))
            + if check.0 == b && In(check.1, s, plan.window(b))
                && Passes(LogOf(logs, b), plan.window(b), plan.limit(b), check.1)
              then 1 else 0
  {
    var log, after := LogOf(logs, b), LogOf(Checked(logs, plan, check), b);
    if check.0 == b {
      assert after[..|after| - 1] == log;
    }
  }

  /** A served request leaves an allowed attempt on every key it was checked against. */
  lemma {:induction false} ServedLeavesAttempts(logs: Logs, plan: Plan, request: Request, b: string, s: Stretch)
    ensures AllowedIn(LogOf(TierRun(logs, plan, request).0, b), s, plan.window(b)) >=
            AllowedIn(LogOf(logs, b), s, plan.window(b))
            + if TierRun(logs, plan, request).1 && ChecksIn(request, b, s, plan.window(b)) then 1 else 0
    decreases |request|
  {
    hide AllowedIn, Passes, Checked, In;
    if request != [] {
      var rest := request[1..];
      CheckedCounts(logs, plan, request[0], b, s);
      ServedLeavesAttempts(Checked(logs, plan, request[0]), plan, rest, b, s);
      if ChecksIn(request, b, s, plan.window(b)) && !(request[0].0 == b && In(request[0].1, s, plan.window(b))) {
        var i :| 0 <= i < |request| && request[i].0 == b && In(request[i].1, s, plan.window(b));
        assert rest[i - 1] == request[i];
      }
    }
  }

  lemma {:induction false} ServedAtMostAllowed(requests: seq<Request>, plan: Plan, b: string, s: Stretch)
    ensures ServedIn(requests, plan, b, s) <= AllowedIn(LogOf(AfterAll(requests, plan), b), s, plan.window(b))
  {
    if requests != [] {
      var before := requests[..|requests| - 1];
      ServedAtMostAllowed(before, plan, b, s);
      ServedLeavesAttempts(AfterAll(before, plan), plan, requests[|requests| - 1], b, s);
    }
  }

  // ---------- the clock ----------

  /** The times a request would read for its checks of a key, refused tiers or not. */
  function Readings(request: Request, b: string): seq<real> {
    if request == [] then []
    else (if request[0].0 == b then [request[0].1] else []) + Readings(request[1..], b)
  }

  function AllReadings(requests: seq<Request>, b: string): seq<real> {
    if requests == [] then []
    else AllReadings(requests[..|requests| - 1], b) + Readings(requests[|requests| - 1], b)
  }

  predicate IsTimed(log: seq<Attempt>, times: seq<real>) {
    |log| == |times| && forall i :: 0 <= i < |log| ==> log[i].at == times[i]
  }

  lemma CheckedAppends(logs: Logs, plan: Plan, check: (string, real), b: string) returns (more: seq<Attempt>)
    ensures LogOf(Checked(logs, plan, check), b) == LogOf(logs, b) + more
    ensures IsTimed(more, if check.0 == b then [check.1] else [])
  {
    var log := LogOf(logs, b);
    if check.0 == b {
      more := [Attempt(check.1, Passes(log, plan.window(b), plan.limit(b), check.1))];
    } else {
      more := [];
      assert log + [] == log;
    }
  }

  /** The attempts a request leaves on a key are at the first so many of its readings. */
  lemma {:induction false} TierRunReads(logs: Logs, plan: Plan, request: Request, b: string)
    returns (more: seq<Attempt>)
    ensures LogOf(TierRun(logs, plan, request).0, b) == LogOf(logs, b) + more
    ensures |more| <= |Readings(request, b)| && IsTimed(more, Readings(request, b)[..|more|])
    decreases |request|
  {
    hide Passes, Checked, LogOf;
    if request == [] {
      more := [];
      assert LogOf(logs, b) + [] == LogOf(logs, b);
    } else {
      var (key, now) := request[0];
      var first := CheckedAppends(logs, plan, request[0], b);
      more := first;
      if Passes(LogOf(logs, key), plan.window(key), plan.limit(key), now) {
        var rest := TierRunReads(Checked(logs, plan, request[0]), plan, request[1..], b);
        more := first + rest;
        assert LogOf(logs, b) + first + rest == LogOf(logs, b) + more;
      }
    }
  }

  /** Every attempt is at one of the readings, in their order. */
  lemma {:induction false} LogIsInOrder(requests: seq<Request>, plan: Plan, b: string)
    requires InOrder(AllReadings(requests, b)) && Distinct(AllReadings(requests, b))
    ensures var log := LogOf(AfterAll(requests, plan), b);
            && Ordered(log) && StrictlyOrdered(log)
            && forall i :: 0 <= i < |log| ==> log[i].at in AllReadings(requests, b)
  {
    hide TierRun, Readings;
    if requests != [] {
      var init, last := requests[..|requests| - 1], requests[|requests| - 1];
      var old', new' := AllReadings(init, b), Readings(last, b);
      var all := AllReadings(requests, b);
      assert all == old' + new';
      assert InOrder(old') && Distinct(old') by {
        assert forall i :: 0 <= i < |old'| ==> old'[i] == all[i];
      }
      LogIsInOrder(init, plan, b);
      var before := AfterAll(init, plan);
      var more := TierRunReads(before, plan, last, b);
      OrderGoesOn(LogOf(before, b), more, old', new');
    }
  }

  lemma OrderGoesOn(before: seq<Attempt>, more: seq<Attempt>, past: seq<real>, next: seq<real>)
    requires InOrder(past + next) && Distinct(past + next) && |more| <= |next| && IsTimed(more, next[..|more|])
    requires Ordered(before) && StrictlyOrdered(before)
    requires forall i :: 0 <= i < |before| ==> before[i].at in past
    ensures Ordered(before + more) && StrictlyOrdered(before + more)
    ensures forall i :: 0 <= i < |before + more| ==> (before + more)[i].at in past + next
  {
    var all, after, m := past + next, before + more, |before|;
    forall i | m <= i < |after| ensures after[i].at == all[|past| + (i - m)] {
      assert next[..|more|][i - m] == next[i - m];
    }
    forall i, j | 0 <= i < j < |after| ensures after[i].at < after[j].at {
      if j >= m && i < m {
        var p :| 0 <= p < |past| && past[p] == after[i].at;
        assert all[p] == past[p];
      }
    }
  }

  /**
   Whatever tiers each request has and whichever refuse it: if the clock readings for a key
   never go back and never repeat, at most `limit` requests checked against it are served in
   any half-open stretch one window long.
   */
  lemma StrictBound(requests: seq<Request>, plan: Plan, b: string, s: Stretch)
    requires WellFormedPlan(plan)
    requires InOrder(AllReadings(requests, b)) && Distinct(AllReadings(requests, b))
    ensures ServedIn(requests, plan, b, s) <= plan.limit(b)
  {
    LogIsInOrder(requests, plan, b);
    AllGenuine(requests, plan, b);
    ServedAtMostAllowed(requests, plan, b, s);
    SlidingBound(LogOf(AfterAll(requests, plan), b), s, plan.window(b), plan.limit(b));
  }

  // ---------- the program ----------

  function KeyOf(keys: map<string, Entry>, b: string): Option<Entry> {
    if b in keys then Some(keys[b]) else None
  }

  predicate NoLaterThan(log: seq<Attempt>, now: real) {
    log == [] || log[|log| - 1].at <= now
  }

  /** One key is in step with its history, which ends no later than `now`. */
  ghost predicate InStep(keys: map<string, Entry>, logs: Logs, plan: Plan, now: real, b: string) {
    && Ordered(LogOf(logs, b)) && NoLaterThan(LogOf(logs, b), now)
    && Agrees(KeyOf(keys, b), LogOf(logs, b), plan.window(b))
  }

  /** The clock of a request reads non-negative times in order, from `now` on. */
  predicate Clocked(times: seq<real>, now: real) {
    && (forall i :: 0 <= i < |times| ==> times[i] >= now && times[i] >= 0.0)
    && (forall i, j :: 0 <= i < j < |times| ==> times[i] <= times[j])
  }

  class StrictLimiter {
    var keys: map<string, Entry>
    ghost var logs: Logs
    ghost var clock: real
    ghost const plan: Plan

    ghost predicate Valid()
      reads this
    {
      WellFormedPlan(plan) && forall b :: InStep(keys, logs, plan, clock, b)
    }

    constructor (ghost plan: Plan)
      requires WellFormedPlan(plan)
      ensures Valid() && logs == map[] && this.plan == plan && clock == 0.0
    {
      keys, logs, clock, this.plan := map[], map[], 0.0, plan;
    }

    /** One tier. */
    method CheckTier(b: string, window: real, limit: nat, now: real) returns (allowed: bool)
      requires Valid() && window == plan.window(b) && limit == plan.limit(b) && now >= clock && now >= 0.0
      modifies this
      ensures Valid() && clock == now && logs == Checked(old(logs), plan, (b, now))
      ensures allowed <==> Passes(LogOf(old(logs), b), window, limit, now)
    {
      hide Recent, Ordered, Agrees, CheckSliding;
      var log := LogOf(logs, b);
      assert InStep(keys, logs, plan, clock, b);
      var entry, count;
      entry, count, allowed := CheckKey(KeyOf(keys, b), window, limit, now);
      CheckCountsRecent(KeyOf(keys, b), log, window, now, allowed);
      VerdictIsNotCounted(log, now, window, allowed);
      ghost var keys', logs' := keys[b := entry], Checked(logs, plan, (b, now));
      forall c ensures InStep(keys', logs', plan, now, c) {
        assert InStep(keys, logs, plan, clock, c);
      }
      keys, logs, clock := keys[b := entry], logs', now;
    }

    /** `strict_rate_limit`: tiers in order, the first refusal blocks and later tiers record nothing. */
    method StrictRateLimit(tiers: seq<(string, real, nat)>, times: seq<real>) returns (blockedAt: Option<nat>)
      requires Valid() && |times| == |tiers| && Clocked(times, clock)
      requires forall i :: 0 <= i < |tiers| ==>
                 tiers[i].1 == plan.window(tiers[i].0) && tiers[i].2 == plan.limit(tiers[i].0)
      modifies this
      ensures Valid()
      ensures (logs, blockedAt.None?) == TierRun(old(logs), plan, Checks(tiers, times))
      ensures blockedAt.Some? ==>
                && blockedAt.value < |tiers|
                && TierRun(old(logs), plan, Checks(tiers, times)[..blockedAt.value]).1
                && !TierRun(old(logs), plan, Checks(tiers, times)[..blockedAt.value + 1]).1
    {
      hide InStep, Passes, Checked;
      ghost var request := Checks(tiers, times);
      ghost var start := logs;
      assert request[..0] == [];
      for i := 0 to |tiers|
        invariant Valid() && Clocked(times[i..], clock)
        invariant TierRun(start, plan, request[..i]) == (logs, true)
      {
        ghost var before := logs;
        var allowed := CheckTier(tiers[i].0, tiers[i].1, tiers[i].2, times[i]);
        OneMoreTier(start, plan, request, i);
        if !allowed {
          RefusalIsFinal(start, plan, request, i + 1);
          return Some(i);
        }
      }
      assert request[..|tiers|] == request;
      return None;
    }
  }

  lemma {:induction false} OneMoreTier(logs: Logs, plan: Plan, request: Request, i: nat)
    requires i < |request| && TierRun(logs, plan, request[..i]).1
    ensures var before, (b, now) := TierRun(logs, plan, request[..i]).0, request[i];
            TierRun(logs, plan, request[..i + 1]) ==
            (Checked(before, plan, request[i]), Passes(LogOf(before, b), plan.window(b), plan.limit(b), now))
    decreases i
  {
    hide Passes, Checked;
    if i == 0 {
      assert request[..0] == [] && request[..1] == [request[0]] && [request[0]][1..] == [];
    } else {
      assert request[..i][0] == request[0] && request[..i][1..] == request[1..][..i - 1];
      assert request[..i + 1][0] == request[0] && request[..i + 1][1..] == request[1..][..i];
      OneMoreTier(Checked(logs, plan, request[0]), plan, request[1..], i - 1);
    }
  }

  lemma {:induction false} RefusalIsFinal(logs: Logs, plan: Plan, request: Request, i: nat)
    requires i <= |request| && !TierRun(logs, plan, request[..i]).1
    ensures TierRun(logs, plan, request) == TierRun(logs, plan, request[..i])
    decreases i
  {
    hide Passes, Checked;
    if i > 0 {
      assert request[..i][0] == request[0] && request[..i][1..] == request[1..][..i - 1];
      var (b, now) := request[0];
      if Passes(LogOf(logs, b), plan.window(b), plan.limit(b), now) {
        RefusalIsFinal(Checked(logs, plan, request[0]), plan, request[1..], i - 1);
      }
    }
  }

  function Checks(tiers: seq<(string, real, nat)>, times: seq<real>): (r: Request)
    requires |tiers| == |times|
    ensures |r| == |tiers| && forall i :: 0 <= i < |r| ==> r[i] == (tiers[i].0, times[i])
  {
    if tiers == [] then [] else [(tiers[0].0, times[0])] + Checks(tiers[1..], times[1..])
  }
}
