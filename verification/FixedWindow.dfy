/**
 Fixed-window counters in Redis and the tiered `rate_limit` built on them
 (mojo/decorators/limits.py).

 A counter lives under a bucket name and the start of an aligned window, and it
 expires. What a limiter is meant to count is the history of checks itself; the
 results say that the expiring counters always agree with that history.
 */
module FixedWindow {
  import opened Wrappers

  // ---------- Redis counters with expiry ----------

  datatype Key = Key(bucket: string, start: int)

  datatype Counter = Counter(value: int, expiry: Option<int>)

  type Store = map<Key, Counter>

  predicate Live(store: Store, key: Key, now: int) {
    key in store && (store[key].expiry.None? || now < store[key].expiry.value)
  }

  /** Expired keys are gone for good, wherever the clock goes from here. */
  function Purge(store: Store, now: int): (left: Store)
    ensures forall key :: key in left <==> Live(store, key, now)
    ensures forall key :: key in left ==> key in store && left[key] == store[key]
  {
    map key | key in store && Live(store, key, now) :: store[key]
  }

  /** INCR: a missing key starts over from nothing, without an expiry. */
  function Incr(store: Store, key: Key, now: int): Store {
    var left := Purge(store, now);
    if key in left then left[key := left[key].(value := left[key].value + 1)]
    else left[key := Counter(1, None)]
  }

  /** EXPIRE */
  function Expire(store: Store, key: Key, at: int): Store {
    if key in store then store[key := store[key].(expiry := Some(at))] else store
  }

  // ---------- windows and the history ----------

  function WindowStart(now: int, window: int): int {
    if window > 0 then now / window * window else now
  }

  lemma MulMonotone(a: int, b: int, w: int)
    requires a <= b && 0 <= w
    ensures a * w <= b * w
  {
    assert (b - a) * w >= 0;
  }

  lemma DivUnique(x: int, w: int, q: int)
    requires w > 0 && q * w <= x < q * w + w
    ensures x / w == q
  {
    var p := x / w;
    assert p * w <= x < p * w + w;
    assert (p + 1) * w == p * w + w;
    assert (q + 1) * w == q * w + w;
    if p < q {
      MulMonotone(p + 1, q, w);
    } else if q < p {
      MulMonotone(q + 1, p, w);
    }
  }

  predicate Aligned(start: int, w: int) {
    w > 0 && WindowStart(start, w) == start
  }

  lemma StartIsAligned(now: int, w: int)
    requires w > 0
    ensures Aligned(WindowStart(now, w), w) && WindowStart(now, w) <= now < WindowStart(now, w) + w
  {
    DivUnique(now / w * w, w, now / w);
  }

  /** An aligned window holds exactly the moments that start in it. */
  lemma SameWindow(now: int, start: int, w: int)
    requires Aligned(start, w)
    ensures start <= now < start + w <==> WindowStart(now, w) == start
  {
    if start <= now < start + w {
      DivUnique(now, w, start / w);
    } else {
      StartIsAligned(now, w);
    }
  }

  lemma NextWindow(start: int, w: int)
    requires Aligned(start, w)
    ensures Aligned(start + w, w)
  {
    var k := start / w;
    assert (k + 1) * w == k * w + w;
    DivUnique(start + w, w, k + 1);
  }

  datatype Check = Check(bucket: string, at: int, allowed: bool)

  /** Every bucket has one window length and one limit. */
  datatype Plan = Plan(window: string -> int, limit: string -> int)

  ghost predicate WellFormedPlan(plan: Plan) {
    forall b :: plan.window(b) > 0
  }

  predicate Counts(c: Check, plan: Plan, key: Key) {
    c.bucket == key.bucket && WindowStart(c.at, plan.window(c.bucket)) == key.start
  }

  /** All checks of a bucket in one aligned window, let through or not. */
  function Hits(log: seq<Check>, plan: Plan, key: Key): nat {
    if log == [] then 0
    else Hits(log[..|log| - 1], plan, key) + if Counts(log[|log| - 1], plan, key) then 1 else 0
  }

  /** Those of them that were let through. */
  function Passed(log: seq<Check>, plan: Plan, key: Key): nat {
    if log == [] then 0
    else
      var c := log[|log| - 1];
      Passed(log[..|log| - 1], plan, key) + if Counts(c, plan, key) && c.allowed then 1 else 0
  }

  /** Checks of a bucket let through in [lo, hi). */
  function PassedIn(log: seq<Check>, b: string, lo: int, hi: int): nat {
    if log == [] then 0
    else
      var c := log[|log| - 1];
      PassedIn(log[..|log| - 1], b, lo, hi) + if c.bucket == b && lo <= c.at < hi && c.allowed then 1 else 0
  }

  lemma Snoc(log: seq<Check>, c: Check, plan: Plan, key: Key)
    ensures Hits(log + [c], plan, key) == Hits(log, plan, key) + if Counts(c, plan, key) then 1 else 0
    ensures Passed(log + [c], plan, key) == Passed(log, plan, key) + if Counts(c, plan, key) && c.allowed then 1 else 0
  {
    assert (log + [c])[..|log|] == log;
  }

  /** The checks of a bucket in [lo, hi), by their place in the log. */
  function ChecksIn(log: seq<Check>, b: string, lo: int, hi: int): set<int> {
    set i | 0 <= i < |log| && log[i].bucket == b && lo <= log[i].at < hi
  }

  lemma ChecksSnoc(log: seq<Check>, c: Check, b: string, lo: int, hi: int)
    ensures |ChecksIn(log + [c], b, lo, hi)| ==
            |ChecksIn(log, b, lo, hi)| + if c.bucket == b && lo <= c.at < hi then 1 else 0
  {
    var n := |log|;
    assert n !in ChecksIn(log, b, lo, hi);
    assert ChecksIn(log + [c], b, lo, hi) ==
           ChecksIn(log, b, lo, hi) + if c.bucket == b && lo <= c.at < hi then {n} else {};
  }

  /** The hits of an aligned window, by the times of the checks alone. */
  lemma {:induction false} HitsAreChecksIn(log: seq<Check>, plan: Plan, b: string, start: int)
    requires Aligned(start, plan.window(b))
    ensures Hits(log, plan, Key(b, start)) ==
            |set i | 0 <= i < |log| && log[i].bucket == b && start <= log[i].at < start + plan.window(b)|
  {
    var w := plan.window(b);
    if log == [] {
      assert ChecksIn(log, b, start, start + w) == {};
    } else {
      var init, c := log[..|log| - 1], log[|log| - 1];
      HitsAreChecksIn(init, plan, b, start);
      SameWindow(c.at, start, w);
      ChecksSnoc(init, c, b, start, start + w);
      assert init + [c] == log;
      assert |ChecksIn(init, b, start, start + w)| == Hits(init, plan, Key(b, start));
      hide ChecksIn, WindowStart;
    }
    assert ChecksIn(log, b, start, start + w) ==
           set i | 0 <= i < |log| && log[i].bucket == b && start <= log[i].at < start + w;
  }

  // ---------- counters agree with the history ----------

  /** The clock has been as far as t. */
  predicate Seen(log: seq<Check>, t: int) {
    exists i :: 0 <= i < |log| && log[i].at >= t
  }

  /** The clock is at most one window behind the furthest it has been. */
  predicate Steady(log: seq<Check>, now: int, w: int) {
    forall i :: 0 <= i < |log| ==> log[i].at <= now + w
  }

  /**
   A stored counter holds its window's hits and outlives the window by another; no
   counter means no hits, or that the clock has seen the end of that time.
   */
  ghost predicate Agrees(store: Store, log: seq<Check>, plan: Plan) {
    && (forall key :: key in store ==>
          && store[key].value == Hits(log, plan, key)
          && store[key].expiry.Some?
          && store[key].expiry.value >= key.start + 2 * plan.window(key.bucket))
    && (forall key: Key {:trigger Hits(log, plan, key)} :: 
          key !in store ==> Hits(log, plan, key) == 0 || Seen(log, key.start + 2 * plan.window(key.bucket)))
  }

  /** `_incr_fixed` */
  function IncrFixed(store: Store, key: Key, window: int, now: int): (Store, int) {
    var counted := Incr(store, key, now);
    var count := counted[key].value;
    (if count == 1 then Expire(counted, key, now + 2 * window) else counted, count)
  }

  /** A check of bucket b at `now`: the counter it hits and the record it leaves. */
  function KeyFor(b: string, now: int, plan: Plan): Key {
    Key(b, WindowStart(now, plan.window(b)))
  }

  /** A counter of a window the clock is in is there unless the window has had no hits. */
  lemma CounterIsThere(store: Store, log: seq<Check>, plan: Plan, b: string, now: int)
    requires WellFormedPlan(plan) && Agrees(store, log, plan) && Steady(log, now, plan.window(b))
    ensures var key := KeyFor(b, now, plan);
            (key in store ==> Live(store, key, now)) && (key !in store ==> Hits(log, plan, key) == 0)
  {
    var w := plan.window(b);
    StartIsAligned(now, w);
    hide WindowStart, Hits;
    assert forall key: Key :: Seen(log, key.start + 2 * w) ==> now >= key.start + w;
  }

  /** One more hit on a key, and the store that shows it; what else was dropped had expired. */
  lemma HitKeepsAgrees(store: Store, store': Store, log: seq<Check>, plan: Plan, c: Check)
    requires WellFormedPlan(plan) && Agrees(store, log, plan)
    requires var key := KeyFor(c.bucket, c.at, plan);
             && key in store' && store'[key].value == Hits(log, plan, key) + 1
             && store'[key].expiry.Some? && store'[key].expiry.value >= key.start + 2 * plan.window(c.bucket)
             && forall k :: k != key ==>
                  && (k in store' <==> k in store && Live(store, k, c.at))
                  && (k in store' ==> store'[k] == store[k])
    ensures Agrees(store', log + [c], plan)
  {
    hide WindowStart, Hits;
    var key := KeyFor(c.bucket, c.at, plan);
    var log' := log + [c];
    forall k: Key ensures Hits(log', plan, k) == Hits(log, plan, k) + if k == key then 1 else 0 {
      Snoc(log, c, plan, k);
    }
    forall k: Key | k !in store' && Hits(log', plan, k) != 0 ensures Seen(log', k.start + 2 * plan.window(k.bucket)) {
      if k in store {
        assert log'[|log|].at >= store[k].expiry.value;
      } else {
        var i :| 0 <= i < |log| && log[i].at >= k.start + 2 * plan.window(k.bucket);
        assert log'[i] == log[i];
      }
    }
  }

  /** The counter is alive whenever its own window is hit again, so the count is exact. */
  lemma IncrFixedCounts(store: Store, log: seq<Check>, plan: Plan, b: string, now: int, allowed: bool)
    requires WellFormedPlan(plan) && Agrees(store, log, plan) && Steady(log, now, plan.window(b))
    ensures var key := KeyFor(b, now, plan);
            var (store', count) := IncrFixed(store, key, plan.window(b), now);
            count == Hits(log, plan, key) + 1 && Agrees(store', log + [Check(b, now, allowed)], plan)
  {
    CounterIsThere(store, log, plan, b, now);
    StartIsAligned(now, plan.window(b));
    hide WindowStart, Hits;
    var key := KeyFor(b, now, plan);
    var (store', count) := IncrFixed(store, key, plan.window(b), now);
    HitKeepsAgrees(store, store', log, plan, Check(b, now, allowed));
  }

  /** One moment further back is too far: a window already hit is counted afresh. */
  lemma ClockTooFarBackForgets(b: string, w: int, n: nat)
    requires w > 0
    ensures var key := Key(b, n * w);
            var late := key.start + 2 * w;
            var first := IncrFixed(map[], key, w, key.start).0;
            var second := IncrFixed(first, Key(b, late), w, late).0;
            && late == (key.start + w - 1) + w + 1 && WindowStart(key.start + w - 1, w) == key.start
            && first[key].value == 1 && key !in second && IncrFixed(second, key, w, key.start + w - 1).1 == 1
  {
    DivUnique(n * w + w - 1, w, n);
  }

  // ---------- the bound ----------

  function AtLeastZero(n: int): nat {
    if n < 0 then 0 else n
  }

  function Min(a: int, b: int): int {
    if a <= b then a else b
  }

  /** In each aligned window exactly the first `limit` checks were let through. */
  ghost predicate FirstLimitPassed(log: seq<Check>, plan: Plan) {
    forall key: Key :: Passed(log, plan, key) == Min(Hits(log, plan, key), AtLeastZero(plan.limit(key.bucket)))
  }

  lemma CheckKeepsFirstLimit(log: seq<Check>, plan: Plan, b: string, now: int)
    requires FirstLimitPassed(log, plan)
    ensures FirstLimitPassed(log + [Check(b, now, Hits(log, plan, KeyFor(b, now, plan)) + 1 <= plan.limit(b))], plan)
  {
    var c := Check(b, now, Hits(log, plan, KeyFor(b, now, plan)) + 1 <= plan.limit(b));
    forall key: Key
      ensures Passed(log + [c], plan, key) == Min(Hits(log + [c], plan, key), AtLeastZero(plan.limit(key.bucket)))
    {
      Snoc(log, c, plan, key);
      assert Counts(c, plan, key) ==> key == KeyFor(b, now, plan);
    }
  }

  lemma {:induction false} PassedInSplits(log: seq<Check>, b: string, lo: int, mid: int, hi: int)
    requires lo <= mid <= hi
    ensures PassedIn(log, b, lo, hi) == PassedIn(log, b, lo, mid) + PassedIn(log, b, mid, hi)
  {
    if log != [] { PassedInSplits(log[..|log| - 1], b, lo, mid, hi); }
  }

  lemma {:induction false} PassedInWidens(log: seq<Check>, b: string, lo: int, hi: int, lo': int, hi': int)
    requires lo' <= lo && hi <= hi'
    ensures PassedIn(log, b, lo, hi) <= PassedIn(log, b, lo', hi')
  {
    if log != [] { PassedInWidens(log[..|log| - 1], b, lo, hi, lo', hi'); }
  }

  lemma {:induction false} PassedInWindow(log: seq<Check>, plan: Plan, b: string, start: int)
    requires Aligned(start, plan.window(b))
    ensures PassedIn(log, b, start, start + plan.window(b)) == Passed(log, plan, Key(b, start))
  {
    if log != [] {
      var c := log[|log| - 1];
      SameWindow(c.at, start, plan.window(b));
      PassedInWindow(log[..|log| - 1], plan, b, start);
    }
  }

  /** m consecutive aligned windows let at most m times the limit through. */
  lemma {:induction false} PassedInWindows(log: seq<Check>, plan: Plan, b: string, start: int, end: int, m: nat)
    requires WellFormedPlan(plan) && FirstLimitPassed(log, plan)
    requires Aligned(start, plan.window(b)) && end == start + m * plan.window(b)
    ensures PassedIn(log, b, start, end) <= m * AtLeastZero(plan.limit(b))
    decreases m
  {
    hide FirstLimitPassed, WindowStart, PassedIn, Passed;
    var w, l := plan.window(b), AtLeastZero(plan.limit(b));
    if m == 0 {
      PassedInNothing(log, b, start);
    } else {
      MulMonotone(0, m - 1, w);
      assert m * w == (m - 1) * w + w;
      PassedInSplits(log, b, start, start + w, end);
      PassedInWindow(log, plan, b, start);
      WindowAtMostLimit(log, plan, Key(b, start));
      NextWindow(start, w);
      PassedInWindows(log, plan, b, start + w, end, m - 1);
      assert m * l == (m - 1) * l + l;
    }
  }

  lemma WindowAtMostLimit(log: seq<Check>, plan: Plan, key: Key)
    requires FirstLimitPassed(log, plan)
    ensures Passed(log, plan, key) <= AtLeastZero(plan.limit(key.bucket))
  {}

  lemma {:induction false} PassedInNothing(log: seq<Check>, b: string, at: int)
    ensures PassedIn(log, b, at, at) == 0
  {
    if log != [] { PassedInNothing(log[..|log| - 1], b, at); }
  }

  /** At most `limit` per aligned window, and at most (k + 1) * `limit` in any stretch of k windows. */
  lemma FixedWindowBound(log: seq<Check>, plan: Plan, b: string, from: int, k: nat)
    requires WellFormedPlan(plan) && FirstLimitPassed(log, plan)
    ensures Passed(log, plan, KeyFor(b, from, plan)) <= AtLeastZero(plan.limit(b))
    ensures PassedIn(log, b, from, from + k * plan.window(b)) <= (k + 1) * AtLeastZero(plan.limit(b))
  {
    hide FirstLimitPassed, WindowStart, PassedIn, Passed;
    var w := plan.window(b);
    var start := WindowStart(from, w);
    StartIsAligned(from, w);
    WindowAtMostLimit(log, plan, KeyFor(b, from, plan));
    var end := start + (k + 1) * w;
    PassedInWindows(log, plan, b, start, end, k + 1);
    assert (k + 1) * w == k * w + w;
    PassedInWidens(log, b, from, from + k * w, start, end);
  }

  // ---------- the bound is reached ----------

  /** n checks of a bucket at one moment, all let through. */
  function Burst(b: string, at: int, n: nat): seq<Check> {
    if n == 0 then [] else Burst(b, at, n - 1) + [Check(b, at, true)]
  }

  /** The limit at the last moment of window 0 and at the first of each window up to number k. */
  function Peaks(b: string, w: int, limit: nat, k: nat): seq<Check> {
    if k == 0 then Burst(b, w - 1, limit) else Peaks(b, w, limit, k - 1) + Burst(b, k * w, limit)
  }

  lemma {:induction false} BurstAdds(
    log: seq<Check>, plan: Plan, b: string, at: int, n: nat, key: Key, lo: int, hi: int)
    ensures var all := log + Burst(b, at, n);
            var counted := if Counts(Check(b, at, true), plan, key) then n else 0;
            && Hits(all, plan, key) == Hits(log, plan, key) + counted
            && Passed(all, plan, key) == Passed(log, plan, key) + counted
            && PassedIn(all, b, lo, hi) == PassedIn(log, b, lo, hi) + (if lo <= at < hi then n else 0)
  {
    hide Hits, Passed, PassedIn, Counts;
    if n == 0 {
      assert log + Burst(b, at, n) == log;
    } else {
      var init, c := log + Burst(b, at, n - 1), Check(b, at, true);
      Assoc(log, Burst(b, at, n - 1), [c]);
      hide Burst;
      BurstAdds(log, plan, b, at, n - 1, key, lo, hi);
      Snoc(init, c, plan, key);
      PassedInSnoc(init, c, b, lo, hi);
    }
  }

  lemma PassedInSnoc(log: seq<Check>, c: Check, b: string, lo: int, hi: int)
    ensures PassedIn(log + [c], b, lo, hi) ==
            PassedIn(log, b, lo, hi) + if c.bucket == b && lo <= c.at < hi && c.allowed then 1 else 0
  {
    assert (log + [c])[..|log|] == log;
  }

  lemma {:induction false} PeaksCount(plan: Plan, b: string, k: nat, key: Key)
    requires plan.window(b) >= 2 && plan.limit(b) >= 0
    ensures var w, limit := plan.window(b), plan.limit(b);
            var log := Peaks(b, w, limit, k);
            && Passed(log, plan, key) == Hits(log, plan, key)
            && Hits(log, plan, key) <= (if key.bucket == b && key.start <= k * w then limit else 0)
  {
    hide PassedIn, WindowStart, Burst, Hits, Passed;
    var w, limit := plan.window(b), plan.limit(b);
    if k == 0 {
      LastMoment(w);
      BurstAdds([], plan, b, w - 1, limit, key, 0, 0);
      assert [] + Burst(b, w - 1, limit) == Burst(b, w - 1, limit);
      NothingYet(plan, key, b, 0, 0);
    } else {
      FirstMoment(k, w);
      PeaksCount(plan, b, k - 1, key);
      BurstAdds(Peaks(b, w, limit, k - 1), plan, b, k * w, limit, key, 0, 0);
      assert k * w == (k - 1) * w + w;
    }
  }

  lemma NothingYet(plan: Plan, key: Key, b: string, lo: int, hi: int)
    ensures Hits([], plan, key) == 0 && Passed([], plan, key) == 0 && PassedIn([], b, lo, hi) == 0
  {}

  lemma LastMoment(w: int)
    requires w > 0
    ensures WindowStart(w - 1, w) == 0
  {
    DivUnique(w - 1, w, 0);
  }

  lemma FirstMoment(k: nat, w: int)
    requires w > 0
    ensures WindowStart(k * w, w) == k * w
  {
    DivUnique(k * w, w, k);
  }

  lemma {:induction false} PeaksPass(plan: Plan, b: string, k: nat, hi: int)
    requires plan.window(b) >= 2 && plan.limit(b) >= 0 && hi > plan.window(b) - 1 && hi > k * plan.window(b)
    ensures PassedIn(Peaks(b, plan.window(b), plan.limit(b), k), b, plan.window(b) - 1, hi) == (k + 1) * plan.limit(b)
  {
    hide Hits, Passed, WindowStart, Burst, PassedIn;
    var w, limit := plan.window(b), plan.limit(b);
    if k == 0 {
      BurstAdds([], plan, b, w - 1, limit, Key(b, 0), w - 1, hi);
      assert [] + Burst(b, w - 1, limit) == Burst(b, w - 1, limit);
      NothingYet(plan, Key(b, 0), b, w - 1, hi);
    } else {
      MulMonotone(1, k, w);
      assert k * w == (k - 1) * w + w;
      PeaksPass(plan, b, k - 1, hi);
      BurstAdds(Peaks(b, w, limit, k - 1), plan, b, k * w, limit, Key(b, 0), w - 1, hi);
      assert (k + 1) * limit == k * limit + limit;
    }
  }

  /** The peaks are let through by count, and (k + 1) * `limit` of them lie in one stretch of k windows. */
  lemma PeaksReachBound(plan: Plan, b: string, k: nat)
    requires plan.window(b) >= 2 && plan.limit(b) >= 0 && k >= 1
    ensures var w := plan.window(b);
            var log := Peaks(b, w, plan.limit(b), k);
            FirstLimitPassed(log, plan) && PassedIn(log, b, w - 1, w - 1 + k * w) == (k + 1) * plan.limit(b)
  {
    hide Peaks, Hits, Passed, PassedIn;
    forall key: Key
      ensures var log := Peaks(b, plan.window(b), plan.limit(b), k);
              Passed(log, plan, key) == Min(Hits(log, plan, key), AtLeastZero(plan.limit(key.bucket)))
    {
      PeaksCount(plan, b, k, key);
    }
    MulMonotone(1, k, plan.window(b));
    PeaksPass(plan, b, k, plan.window(b) - 1 + k * plan.window(b));
  }

  // ---------- tiers ----------

  /** A request names the buckets it is checked against, in order. */
  datatype Request = Request(buckets: seq<string>, at: int, served: bool)

  /** The checks a request makes: every tier up to and including the first that blocks. */
  function TierChecks(buckets: seq<string>, now: int, log: seq<Check>, plan: Plan): seq<Check> {
    if buckets == [] then []
    else
      var ok := Hits(log, plan, KeyFor(buckets[0], now, plan)) + 1 <= plan.limit(buckets[0]);
      var c := Check(buckets[0], now, ok);
      [c] + if ok then TierChecks(buckets[1..], now, log + [c], plan) else []
  }

  function Served(buckets: seq<string>, now: int, log: seq<Check>, plan: Plan): bool {
    forall c :: c in TierChecks(buckets, now, log, plan) ==> c.allowed
  }

  class RateLimiter {
    var store: Store
    ghost var log: seq<Check>
    ghost const plan: Plan

    ghost predicate Valid()
      reads this
    {
      WellFormedPlan(plan) && Agrees(store, log, plan) && FirstLimitPassed(log, plan)
    }

    constructor (ghost plan: Plan)
      requires WellFormedPlan(plan)
      ensures Valid() && log == [] && this.plan == plan
    {
      store := map[];
      log := [];
      this.plan := plan;
    }

    /** One tier: count the check in Redis and compare with the limit. */
    method CheckTier(b: string, window: int, limit: int, now: int) returns (allowed: bool)
      requires Valid() && window == plan.window(b) && limit == plan.limit(b) && Steady(log, now, window)
      modifies this
      ensures Valid() && log == old(log) + [Check(b, now, allowed)]
      ensures allowed <==> Hits(old(log), plan, KeyFor(b, now, plan)) + 1 <= limit
      ensures store == IncrFixed(old(store), KeyFor(b, now, plan), window, now).0
    {
      hide Agrees, FirstLimitPassed, WindowStart, Hits, Purge, Steady;
      var key := Key(b, WindowStart(now, window));
      var counted := Incr(store, key, now);
      var count := counted[key].value;
      if count == 1 {
        counted := Expire(counted, key, now + 2 * window);
      }
      allowed := count <= limit;
      IncrFixedCounts(store, log, plan, b, now, allowed);
      CheckKeepsFirstLimit(log, plan, b, now);
      store := counted;
      log := log + [Check(b, now, allowed)];
    }

    /**
     `rate_limit`: tiers in order, the first one over its limit blocks the request and
     leaves the later ones uncounted.
     */
    method RateLimit(tiers: seq<(string, int, int)>, now: int) returns (blockedAt: Option<nat>)
      requires Valid()
      requires forall i :: 0 <= i < |tiers| ==>
                 && tiers[i].1 == plan.window(tiers[i].0) && tiers[i].2 == plan.limit(tiers[i].0)
                 && Steady(log, now, tiers[i].1)
      modifies this
      ensures Valid()
      ensures log == old(log) + TierChecks(Names(tiers), now, old(log), plan)
      ensures blockedAt.None? <==> Served(Names(tiers), now, old(log), plan)
      ensures blockedAt.None? ==> |log| == |old(log)| + |tiers|
      ensures blockedAt.Some? ==>
                blockedAt.value < |tiers| && |log| == |old(log)| + blockedAt.value + 1
                && log[|log| - 1] == Check(tiers[blockedAt.value].0, now, false)
    {
      hide Agrees, FirstLimitPassed, TierChecks, Progress, Served;
      ghost var names := Names(tiers);
      ghost var start := log;
      ghost var made: seq<Check> := [];
      FirstTier(names, now, start, plan);
      for i := 0 to |tiers|
        invariant Valid() && log == start + made && |made| == i
        invariant forall c :: c in made ==> c.at == now
        invariant Progress(names, now, start, plan, made)
      {
        ghost var before := log;
        SteadyOn(start, made, now, tiers[i].1);
        var allowed := CheckTier(tiers[i].0, tiers[i].1, tiers[i].2, now);
        NextTier(names, now, start, plan, made);
        made := made + [Check(tiers[i].0, now, allowed)];
        assert log == start + made;
        if !allowed {
          return Some(i);
        }
      }
      NoMoreTiers(names, now, start, plan, made);
      return None;
    }
  }

  /** The checks made so far were all let through and are the first of those the request makes. */
  ghost predicate Progress(names: seq<string>, now: int, start: seq<Check>, plan: Plan, made: seq<Check>) {
    && |made| <= |names| && (forall c :: c in made ==> c.allowed)
    && TierChecks(names, now, start, plan) == made + TierChecks(names[|made|..], now, start + made, plan)
  }

  lemma FirstTier(names: seq<string>, now: int, start: seq<Check>, plan: Plan)
    ensures Progress(names, now, start, plan, [])
  {
    assert names[0..] == names && start + [] == start;
  }

  lemma NextTier(names: seq<string>, now: int, start: seq<Check>, plan: Plan, made: seq<Check>)
    requires |made| < |names| && Progress(names, now, start, plan, made)
    ensures var ok := Hits(start + made, plan, KeyFor(names[|made|], now, plan)) + 1 <= plan.limit(names[|made|]);
            var made' := made + [Check(names[|made|], now, ok)];
            if ok then Progress(names, now, start, plan, made')
            else TierChecks(names, now, start, plan) == made' && !Served(names, now, start, plan)
  {
    var log, b := start + made, names[|made|];
    var ok := Hits(log, plan, KeyFor(b, now, plan)) + 1 <= plan.limit(b);
    var c := Check(b, now, ok);
    TierChecksFrom(names, |made|, now, log, plan);
    hide KeyFor, Hits, TierChecks, Served, Progress;
    if ok {
      PassGoesOn(names, now, start, plan, made, c);
    } else {
      RefusalIsLast(names, now, start, plan, made, c);
    }
  }

  lemma PassGoesOn(names: seq<string>, now: int, start: seq<Check>, plan: Plan, made: seq<Check>, c: Check)
    requires |made| < |names| && Progress(names, now, start, plan, made) && c.allowed
    requires TierChecks(names[|made|..], now, start + made, plan) ==
             [c] + TierChecks(names[|made| + 1..], now, start + made + [c], plan)
    ensures Progress(names, now, start, plan, made + [c])
  {
    hide TierChecks;
    var more := TierChecks(names[|made| + 1..], now, start + made + [c], plan);
    Assoc(start, made, [c]);
    Assoc(made, [c], more);
    assert |made + [c]| == |made| + 1;
  }

  lemma RefusalIsLast(names: seq<string>, now: int, start: seq<Check>, plan: Plan, made: seq<Check>, c: Check)
    requires Progress(names, now, start, plan, made) && !c.allowed
    requires TierChecks(names[|made|..], now, start + made, plan) == [c]
    ensures TierChecks(names, now, start, plan) == made + [c] && !Served(names, now, start, plan)
  {
    hide TierChecks;
    assert c in made + [c];
  }

  lemma Assoc(a: seq<Check>, b: seq<Check>, c: seq<Check>)
    ensures a + b + c == a + (b + c)
  {}

  lemma TierChecksFrom(names: seq<string>, i: nat, now: int, log: seq<Check>, plan: Plan)
    requires i < |names|
    ensures var ok := Hits(log, plan, KeyFor(names[i], now, plan)) + 1 <= plan.limit(names[i]);
            var c := Check(names[i], now, ok);
            TierChecks(names[i..], now, log, plan) ==
            if ok then [c] + TierChecks(names[i + 1..], now, log + [c], plan) else [c]
  {
    hide KeyFor, Hits;
    assert names[i..][1..] == names[i + 1..];
  }

  lemma NoMoreTiers(names: seq<string>, now: int, start: seq<Check>, plan: Plan, made: seq<Check>)
    requires |made| == |names| && Progress(names, now, start, plan, made)
    ensures TierChecks(names, now, start, plan) == made && Served(names, now, start, plan)
  {
    assert names[|made|..] == [];
  }

  lemma SteadyOn(start: seq<Check>, made: seq<Check>, now: int, w: int)
    requires w > 0 && Steady(start, now, w) && forall c :: c in made ==> c.at == now
    ensures Steady(start + made, now, w)
  {}

  /** The bucket names of a list of (bucket, window, limit) tiers. */
  function Names(tiers: seq<(string, int, int)>): (r: seq<string>)
    ensures |r| == |tiers| && forall i :: 0 <= i < |r| ==> r[i] == tiers[i].0
  {
    if tiers == [] then [] else [tiers[0].0] + Names(tiers[1..])
  }

  // ---------- requests ----------

  /** Served requests that were checked against a bucket in [lo, hi). */
  function ServedIn(requests: seq<Request>, b: string, lo: int, hi: int): nat {
    if requests == [] then 0
    else
      var r := requests[|requests| - 1];
      ServedIn(requests[..|requests| - 1], b, lo, hi) + if r.served && b in r.buckets && lo <= r.at < hi then 1 else 0
  }

  /** The log that a sequence of requests leaves behind. */
  function LogOf(requests: seq<Request>, plan: Plan): seq<Check> {
    if requests == [] then []
    else
      var before := LogOf(requests[..|requests| - 1], plan);
      var r := requests[|requests| - 1];
      before + TierChecks(r.buckets, r.at, before, plan)
  }

  /** Requests are served exactly when every tier lets them through. */
  ghost predicate Truthful(requests: seq<Request>, plan: Plan) {
    forall i :: 0 <= i < |requests| ==>
      requests[i].served == Served(requests[i].buckets, requests[i].at, LogOf(requests[..i], plan), plan)
  }

  lemma {:induction false} TierChecksKeepFirstLimit(buckets: seq<string>, now: int, log: seq<Check>, plan: Plan)
    requires FirstLimitPassed(log, plan)
    ensures FirstLimitPassed(log + TierChecks(buckets, now, log, plan), plan)
  {
    hide Hits, KeyFor, FirstLimitPassed;
    if buckets == [] {
      assert log + [] == log;
    } else {
      var ok := Hits(log, plan, KeyFor(buckets[0], now, plan)) + 1 <= plan.limit(buckets[0]);
      var c := Check(buckets[0], now, ok);
      CheckKeepsFirstLimit(log, plan, buckets[0], now);
      if ok {
        TierChecksKeepFirstLimit(buckets[1..], now, log + [c], plan);
        Assoc(log, [c], TierChecks(buckets[1..], now, log + [c], plan));
      } else {
        assert [c] + [] == [c];
      }
    }
  }

  lemma {:induction false} LogKeepsFirstLimit(requests: seq<Request>, plan: Plan)
    ensures FirstLimitPassed(LogOf(requests, plan), plan)
  {
    if requests != [] {
      LogKeepsFirstLimit(requests[..|requests| - 1], plan);
      var r := requests[|requests| - 1];
      TierChecksKeepFirstLimit(r.buckets, r.at, LogOf(requests[..|requests| - 1], plan), plan);
    }
  }

  lemma {:induction false} PassedInAppend(a: seq<Check>, c: seq<Check>, b: string, lo: int, hi: int)
    ensures PassedIn(a + c, b, lo, hi) == PassedIn(a, b, lo, hi) + PassedIn(c, b, lo, hi)
  {
    if c == [] {
      assert a + c == a;
    } else {
      assert (a + c)[..|a + c| - 1] == a + c[..|c| - 1];
      PassedInAppend(a, c[..|c| - 1], b, lo, hi);
    }
  }

  /** A served request leaves one let-through check for each of its buckets. */
  lemma {:induction false} ServedLeavesChecks(
    buckets: seq<string>, now: int, log: seq<Check>, plan: Plan, b: string, lo: int, hi: int)
    requires b in buckets && lo <= now < hi && Served(buckets, now, log, plan)
    ensures PassedIn(TierChecks(buckets, now, log, plan), b, lo, hi) >= 1
  {
    var ok := Hits(log, plan, KeyFor(buckets[0], now, plan)) + 1 <= plan.limit(buckets[0]);
    var c := Check(buckets[0], now, ok);
    var rest := if ok then TierChecks(buckets[1..], now, log + [c], plan) else [];
    assert TierChecks(buckets, now, log, plan) == [c] + rest;
    assert c in TierChecks(buckets, now, log, plan);
    PassedInAppend([c], rest, b, lo, hi);
    assert [c][..0] == [];
    if buckets[0] != b {
      assert b in buckets[1..];
      forall d | d in rest ensures d.allowed {
        assert d in TierChecks(buckets, now, log, plan);
      }
      ServedLeavesChecks(buckets[1..], now, log + [c], plan, b, lo, hi);
    }
  }

  lemma {:induction false} ServedAtMostPassed(requests: seq<Request>, plan: Plan, b: string, lo: int, hi: int)
    requires Truthful(requests, plan)
    ensures ServedIn(requests, b, lo, hi) <= PassedIn(LogOf(requests, plan), b, lo, hi)
  {
    if requests != [] {
      var init, r := requests[..|requests| - 1], requests[|requests| - 1];
      var before := LogOf(init, plan);
      assert Truthful(init, plan) by {
        forall i | 0 <= i < |init|
          ensures init[i].served == Served(init[i].buckets, init[i].at, LogOf(init[..i], plan), plan)
        {
          assert init[..i] == requests[..i] && init[i] == requests[i];
        }
      }
      ServedAtMostPassed(init, plan, b, lo, hi);
      PassedInAppend(before, TierChecks(r.buckets, r.at, before, plan), b, lo, hi);
      if r.served && b in r.buckets && lo <= r.at < hi {
        ServedLeavesChecks(r.buckets, r.at, before, plan, b, lo, hi);
      }
    }
  }

  /**
   Whatever their tiers, requests whose checks are counted exactly are served against a
   bucket at most (k + 1) * `limit` times in any stretch of k windows, and at most `limit`
   times in an aligned window.
   */
  lemma ServedRequestsBound(requests: seq<Request>, plan: Plan, b: string, from: int, k: nat)
    requires WellFormedPlan(plan) && Truthful(requests, plan)
    ensures ServedIn(requests, b, from, from + k * plan.window(b)) <= (k + 1) * AtLeastZero(plan.limit(b))
    ensures var start := WindowStart(from, plan.window(b));
            ServedIn(requests, b, start, start + plan.window(b)) <= AtLeastZero(plan.limit(b))
  {
    hide FirstLimitPassed, WindowStart, PassedIn, Passed, LogOf, Truthful, ServedIn;
    var log := LogOf(requests, plan);
    var w := plan.window(b);
    var start := WindowStart(from, w);
    LogKeepsFirstLimit(requests, plan);
    FixedWindowBound(log, plan, b, from, k);
    ServedAtMostPassed(requests, plan, b, from, from + k * w);
    ServedAtMostPassed(requests, plan, b, start, start + w);
    StartIsAligned(from, w);
    PassedInWindow(log, plan, b, start);
    WindowAtMostLimit(log, plan, Key(b, start));
  }

  // ---------- the bound is reached by requests ----------

  /** One request with one tier for each check. */
  function Requests(log: seq<Check>): seq<Request> {
    if log == [] then []
    else
      var c := log[|log| - 1];
      Requests(log[..|log| - 1]) + [Request([c.bucket], c.at, c.allowed)]
  }

  predicate AllPass(log: seq<Check>) {
    forall i :: 0 <= i < |log| ==> log[i].allowed
  }

  /** No window has had more hits than the limit. */
  ghost predicate WithinLimits(log: seq<Check>, plan: Plan) {
    forall key :: Hits(log, plan, key) <= AtLeastZero(plan.limit(key.bucket))
  }

  lemma LastWithinLimits(log: seq<Check>, plan: Plan)
    requires log != [] && AllPass(log) && WithinLimits(log, plan)
    ensures var init, c := log[..|log| - 1], log[|log| - 1];
            && AllPass(init) && WithinLimits(init, plan)
            && c.allowed && Hits(init, plan, KeyFor(c.bucket, c.at, plan)) + 1 <= plan.limit(c.bucket)
  {
    hide WindowStart;
    var init, c := log[..|log| - 1], log[|log| - 1];
    forall key ensures Hits(init, plan, key) <= AtLeastZero(plan.limit(key.bucket)) {
      assert Hits(init, plan, key) <= Hits(log, plan, key);
    }
    var key := KeyFor(c.bucket, c.at, plan);
    assert Hits(log, plan, key) == Hits(init, plan, key) + 1;
  }

  lemma NoRequests(plan: Plan)
    ensures LogOf(Requests([]), plan) == [] && Truthful(Requests([]), plan)
  {
    assert Requests([]) == [];
    hide Requests;
  }

  lemma OneMoreRequest(log: seq<Check>, c: Check, plan: Plan)
    requires LogOf(Requests(log), plan) == log && Truthful(Requests(log), plan)
    requires c.allowed && Hits(log, plan, KeyFor(c.bucket, c.at, plan)) + 1 <= plan.limit(c.bucket)
    ensures LogOf(Requests(log + [c]), plan) == log + [c] && Truthful(Requests(log + [c]), plan)
  {
    assert (log + [c])[..|log|] == log;
    OneTier(c, log, plan);
    hide LogOf, TierChecks, Served, Hits, KeyFor, Truthful;
    LogOfSnoc(Requests(log), Request([c.bucket], c.at, true), plan);
    TruthfulSnoc(Requests(log), Request([c.bucket], c.at, true), plan);
  }

  /** As long as no window has had more than the limit, requests of one tier each are all served. */
  lemma {:induction false} RequestsMakeLog(log: seq<Check>, plan: Plan)
    requires AllPass(log) && WithinLimits(log, plan)
    ensures LogOf(Requests(log), plan) == log && Truthful(Requests(log), plan)
  {
    hide *;
    if log == [] {
      NoRequests(plan);
    } else {
      LastWithinLimits(log, plan);
      RequestsMakeLog(log[..|log| - 1], plan);
      OneMoreRequest(log[..|log| - 1], log[|log| - 1], plan);
      assert log[..|log| - 1] + [log[|log| - 1]] == log;
    }
  }

  lemma OneTier(c: Check, log: seq<Check>, plan: Plan)
    requires c.allowed && Hits(log, plan, KeyFor(c.bucket, c.at, plan)) + 1 <= plan.limit(c.bucket)
    ensures TierChecks([c.bucket], c.at, log, plan) == [c] && Served([c.bucket], c.at, log, plan)
  {
    assert [c.bucket][1..] == [];
  }

  lemma LogOfSnoc(requests: seq<Request>, r: Request, plan: Plan)
    ensures LogOf(requests + [r], plan) ==
            LogOf(requests, plan) + TierChecks(r.buckets, r.at, LogOf(requests, plan), plan)
  {
    assert (requests + [r])[..|requests|] == requests;
  }

  lemma TruthfulSnoc(requests: seq<Request>, r: Request, plan: Plan)
    requires Truthful(requests, plan) && r.served == Served(r.buckets, r.at, LogOf(requests, plan), plan)
    ensures Truthful(requests + [r], plan)
  {
    hide LogOf, Served;
    var all := requests + [r];
    forall i | 0 <= i < |all| ensures all[i].served == Served(all[i].buckets, all[i].at, LogOf(all[..i], plan), plan) {
      assert all[..i] == if i < |requests| then requests[..i] else requests;
    }
  }

  lemma {:induction false} ServedArePassed(log: seq<Check>, b: string, lo: int, hi: int)
    ensures ServedIn(Requests(log), b, lo, hi) == PassedIn(log, b, lo, hi)
  {
    if log != [] {
      var before := Requests(log[..|log| - 1]);
      ServedArePassed(log[..|log| - 1], b, lo, hi);
      assert Requests(log)[..|before|] == before && Requests(log)[|before|] == Requests(log)[|Requests(log)| - 1];
    }
  }

  lemma {:induction false} PeaksPassAll(b: string, w: int, limit: nat, k: nat)
    ensures AllPass(Peaks(b, w, limit, k))
  {
    BurstPasses(b, if k == 0 then w - 1 else k * w, limit);
    if k > 0 { PeaksPassAll(b, w, limit, k - 1); }
  }

  lemma {:induction false} BurstPasses(b: string, at: int, n: nat)
    ensures AllPass(Burst(b, at, n))
  {
    if n > 0 { BurstPasses(b, at, n - 1); }
  }

  /**
   For every plan, bucket and k the bound is reached: there are requests of which exactly
   (k + 1) * `limit` are served in a stretch of k windows. A window of one moment has no two
   parts to straddle.
   */
  lemma BoundIsReached(plan: Plan, b: string, k: nat)
    requires plan.window(b) >= 2 && plan.limit(b) >= 0 && k >= 1
    ensures var w := plan.window(b);
            var requests := Requests(Peaks(b, w, plan.limit(b), k));
            Truthful(requests, plan) && ServedIn(requests, b, w - 1, w - 1 + k * w) == (k + 1) * plan.limit(b)
  {
    hide Peaks, Requests, Hits, Passed, PassedIn, ServedIn, Truthful, LogOf;
    var w := plan.window(b);
    var log := Peaks(b, w, plan.limit(b), k);
    PeaksReachBound(plan, b, k);
    PeaksPassAll(b, w, plan.limit(b), k);
    forall key ensures Hits(log, plan, key) <= AtLeastZero(plan.limit(key.bucket)) {
      PeaksCount(plan, b, k, key);
    }
    assert WithinLimits(log, plan);
    RequestsMakeLog(log, plan);
    ServedArePassed(log, b, w - 1, w - 1 + k * w);
  }
}
