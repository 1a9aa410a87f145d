/**
 The per-identity API throttle and its traffic accounting
 (`check_api_throttle`, mojo/decorators/limits.py).

 The first request of a new window flushes the previous window's count into an
 accounting set. What is proved is that nothing is credited twice, nothing early,
 and nothing that should be credited is lost to an expiring key.
 */
module Traffic {
  import opened Wrappers
  import opened FixedWindow

  const BUCKET_SECONDS := 300
  const KEY_TTL := 3600
  const TOTAL := "traffic:total"

  /** One credit to an accounting set: whose window, how much, and when it was made. */
  datatype Flush = Flush(ident: string, start: int, amount: int, at: int)

  /** The accounting sets: a score per reporting bucket and identity. */
  type Scores = map<(int, string), int>

  function Score(top: Scores, bucket: int, ident: string): int {
    if (bucket, ident) in top then top[(bucket, ident)] else 0
  }

  /** Redis as the throttle sees it. */
  datatype Redis = Redis(counters: Store, totals: Store, top: Scores)

  /** The counter a previous window left, when its key is still there. */
  function PreviousCount(counters: Store, key: Key, now: int): Option<int> {
    if Live(counters, key, now) then Some(counters[key].value) else None
  }

  /** INCR and EXPIRE, as every request does for its identity. */
  function Hit(store: Store, key: Key, now: int, ttl: int): Store {
    Expire(Incr(store, key, now), key, now + ttl)
  }

  /** What one counted request of `ident` flushes. */
  function FlushOf(counters: Store, ident: string, window: int, floor: int, now: int): Option<Flush> {
    var key := Key(ident, WindowStart(now, window));
    var after := Hit(counters, key, now, 2 * window);
    if after[key].value != 1 then None
    else
      var prev := PreviousCount(after, Key(ident, key.start - window), now);
      if prev.Some? && prev.value != 0 && prev.value >= floor
      then Some(Flush(ident, key.start - window, prev.value, now)) else None
  }

  // ---------- counting ----------

  lemma HitCounts(store: Store, log: seq<Check>, plan: Plan, b: string, now: int, ttl: int, allowed: bool)
    requires WellFormedPlan(plan) && Agrees(store, log, plan) && ttl >= 2 * plan.window(b) && NoLaterThan(log, now)
    ensures var key := KeyFor(b, now, plan);
            var store' := Hit(store, key, now, ttl);
            key in store' && store'[key].value == Hits(log, plan, key) + 1
            && Agrees(store', log + [Check(b, now, allowed)], plan)
  {
    CounterIsThere(store, log, plan, b, now);
    StartIsAligned(now, plan.window(b));
    hide WindowStart, Hits;
    HitKeepsAgrees(store, Hit(store, KeyFor(b, now, plan), now, ttl), log, plan, Check(b, now, allowed));
  }

  /** Times never run backwards and are not negative. */
  predicate Ordered(log: seq<Check>) {
    && (forall i :: 0 <= i < |log| ==> log[i].at >= 0)
    && (forall i, j :: 0 <= i < j < |log| ==> log[i].at <= log[j].at)
  }

  predicate NoLaterThan(log: seq<Check>, now: int) {
    forall i :: 0 <= i < |log| ==> log[i].at <= now
  }

  lemma {:induction false} NoHitsOutside(log: seq<Check>, plan: Plan, key: Key, now: int)
    requires WellFormedPlan(plan) && Ordered(log) && NoLaterThan(log, now)
    requires key.start > now || key.start + plan.window(key.bucket) <= 0
    ensures Hits(log, plan, key) == 0
  {
    if log != [] {
      var c := log[|log| - 1];
      StartIsAligned(c.at, plan.window(c.bucket));
      NoHitsOutside(log[..|log| - 1], plan, key, now);
    }
  }

  /** The previous window's key is alive throughout the window after it, so its count is read in full. */
  lemma PreviousIsExact(store: Store, log: seq<Check>, plan: Plan, b: string, now: int)
    requires WellFormedPlan(plan) && Agrees(store, log, plan) && NoLaterThan(log, now)
    ensures var key := Key(b, WindowStart(now, plan.window(b)) - plan.window(b));
            var prev := PreviousCount(store, key, now);
            && (if prev.Some? then prev.value else 0) == Hits(log, plan, key)
            && (key in store ==> now < store[key].expiry.value)
  {
    var w := plan.window(b);
    var key := Key(b, WindowStart(now, w) - w);
    StartIsAligned(now, w);
    hide WindowStart;
    if key in store {
      assert now < key.start + 2 * w <= store[key].expiry.value;
    } else {
      assert Hits(log, plan, key) == 0;
    }
  }

  // ---------- what should be credited ----------

  /** The number of the window a moment lies in. */
  function WindowNo(now: int, w: int): int {
    if w > 0 then now / w else 0
  }

  /** The hits in window number k of a bucket. */
  function HitsNo(log: seq<Check>, plan: Plan, b: string, k: int): nat {
    Hits(log, plan, Key(b, k * plan.window(b)))
  }

  /** The count of window number k, when it reaches the floor and window k + 1 saw activity. */
  function Due(log: seq<Check>, plan: Plan, floor: int, b: string, k: int): int {
    var count := HitsNo(log, plan, b, k);
    var next := HitsNo(log, plan, b, k + 1);
    if count >= 1 && count >= floor && next >= 1 then count else 0
  }

  /** A stretch of time that windows are picked by where they start. */
  datatype Span = Always | Between(lo: int, hi: int)

  predicate Within(start: int, span: Span) {
    span.Between? ==> span.lo <= start < span.hi
  }

  function StartOf(k: int, w: int): int {
    k * w
  }

  /** The sum over those of the windows 0 .. n - 1 that start within the span. */
  function TotalDue(log: seq<Check>, plan: Plan, floor: int, b: string, n: nat, span: Span): int {
    if n == 0 then 0
    else
      TotalDue(log, plan, floor, b, n - 1, span)
      + if Within(StartOf(n - 1, plan.window(b)), span) then Due(log, plan, floor, b, n - 1) else 0
  }

  /** What was credited to an identity for windows that start within the span. */
  function Credit(flushes: seq<Flush>, b: string, span: Span): int {
    if flushes == [] then 0
    else
      var f := flushes[|flushes| - 1];
      Credit(flushes[..|flushes| - 1], b, span) + if f.ident == b && Within(f.start, span) then f.amount else 0
  }

  /** Two sums whose terms agree except at one place differ by what that place differs. */
  lemma {:induction false} SumsDiffer(
    log: seq<Check>, log': seq<Check>, plan: Plan, floor: int, b: string, n: nat, span: Span, j: int, d: int)
    requires forall k :: 0 <= k < n && k != j ==> Due(log', plan, floor, b, k) == Due(log, plan, floor, b, k)
    requires 0 <= j ==> Due(log', plan, floor, b, j) == Due(log, plan, floor, b, j) + d
    requires j < 0 ==> d == 0
    ensures TotalDue(log', plan, floor, b, n, span) ==
            TotalDue(log, plan, floor, b, n, span) + if j < n && Within(StartOf(j, plan.window(b)), span) then d else 0
  {
    hide Due, Within, StartOf;
    if n > 0 { SumsDiffer(log, log', plan, floor, b, n - 1, span, j, d); }
  }

  /** The windows of one length are told apart by their numbers. */
  lemma StartNumber(now: int, w: int, k: int)
    requires w > 0
    ensures WindowStart(now, w) == k * w <==> k == WindowNo(now, w)
  {
    if WindowStart(now, w) == k * w {
      DivUnique(k * w, w, k);
      DivUnique(now / w * w, w, now / w);
    }
  }

  lemma HitsAfter(log: seq<Check>, plan: Plan, c: Check, b: string, k: int)
    requires WellFormedPlan(plan)
    ensures HitsNo(log + [c], plan, b, k) ==
            HitsNo(log, plan, b, k) + if c.bucket == b && k == WindowNo(c.at, plan.window(b)) then 1 else 0
  {
    Snoc(log, c, plan, Key(b, k * plan.window(b)));
    StartNumber(c.at, plan.window(c.bucket), k);
  }

  lemma FutureIsEmpty(log: seq<Check>, plan: Plan, b: string, now: int, k: int)
    requires WellFormedPlan(plan) && Ordered(log) && NoLaterThan(log, now) && now >= 0
    requires k > WindowNo(now, plan.window(b)) || k < 0
    ensures HitsNo(log, plan, b, k) == 0
  {
    var w := plan.window(b);
    if k > now / w {
      MulMonotone(now / w + 1, k, w);
      assert (now / w + 1) * w == now / w * w + w;
    } else {
      MulMonotone(k + 1, 0, w);
      assert (k + 1) * w == k * w + w;
    }
    NoHitsOutside(log, plan, Key(b, k * w), now);
  }

  /** What the first request of a window adds to the sum: the whole count of the window before. */
  function Newly(log: seq<Check>, plan: Plan, floor: int, b: string, now: int): int {
    var k := WindowNo(now, plan.window(b));
    var prev := HitsNo(log, plan, b, k - 1);
    if HitsNo(log, plan, b, k) == 0 && prev >= 1 && prev >= floor then prev else 0
  }

  /** Where the window before the current one starts. */
  function Before(now: int, w: int): int {
    StartOf(WindowNo(now, w) - 1, w)
  }

  lemma TotalDueAfter(log: seq<Check>, plan: Plan, floor: int, c: Check, b: string, n: nat, span: Span)
    requires WellFormedPlan(plan) && Ordered(log) && NoLaterThan(log, c.at) && c.at >= 0
    requires b == c.bucket ==> n > WindowNo(c.at, plan.window(b))
    ensures TotalDue(log + [c], plan, floor, b, n, span)
            == TotalDue(log, plan, floor, b, n, span)
               + if b == c.bucket && Within(Before(c.at, plan.window(b)), span)
                 then Newly(log, plan, floor, b, c.at) else 0
  {
    assert WindowNo(c.at, plan.window(b)) >= 0;
    hide HitsNo, Ordered, NoLaterThan, WellFormedPlan, Newly, Due, WindowNo, Within, TotalDue, StartOf;
    var k0 := WindowNo(c.at, plan.window(b));
    var d := if b == c.bucket then Newly(log, plan, floor, b, c.at) else 0;
    forall k | 0 <= k < n && k != k0 - 1 ensures Due(log + [c], plan, floor, b, k) == Due(log, plan, floor, b, k) {
      DueAfter(log, plan, floor, c, b, k);
    }
    DueAfter(log, plan, floor, c, b, k0 - 1);
    NothingBeforeTime(log, plan, floor, c, b);
    SumsDiffer(log, log + [c], plan, floor, b, n, span, k0 - 1, if k0 == 0 then 0 else d);
  }

  /** A new hit changes what is due for one window only: the one before its own. */
  lemma DueAfter(log: seq<Check>, plan: Plan, floor: int, c: Check, b: string, k: int)
    requires WellFormedPlan(plan) && Ordered(log) && NoLaterThan(log, c.at) && c.at >= 0
    ensures var k0 := WindowNo(c.at, plan.window(b));
            Due(log + [c], plan, floor, b, k)
            == Due(log, plan, floor, b, k)
               + if b == c.bucket && k == k0 - 1 then Newly(log, plan, floor, b, c.at) else 0
  {
    hide HitsNo, Ordered, NoLaterThan, WellFormedPlan, WindowNo;
    HitsAfter(log, plan, c, b, k);
    HitsAfter(log, plan, c, b, k + 1);
    FutureIsEmpty(log, plan, b, c.at, WindowNo(c.at, plan.window(b)) + 1);
  }

  lemma NothingBeforeTime(log: seq<Check>, plan: Plan, floor: int, c: Check, b: string)
    requires WellFormedPlan(plan) && Ordered(log) && NoLaterThan(log, c.at) && c.at >= 0
    ensures WindowNo(c.at, plan.window(b)) == 0 ==> Newly(log, plan, floor, b, c.at) == 0
  {
    FutureIsEmpty(log, plan, b, c.at, -1);
  }

  // ---------- the books ----------

  /** A flush took a whole, finished count that qualified, after its window and before its key expired. */
  ghost predicate Sound(f: Flush, log: seq<Check>, plan: Plan, floor: int) {
    var w := plan.window(f.ident);
    && Aligned(f.start, w)
    && f.amount == Hits(log, plan, Key(f.ident, f.start)) && f.amount >= 1 && f.amount >= floor
    && f.start + w <= f.at < f.start + 2 * w
    && Hits(log, plan, Key(f.ident, f.start + w)) >= 1
  }

  ghost predicate AllSound(flushes: seq<Flush>, log: seq<Check>, plan: Plan, floor: int) {
    forall i :: 0 <= i < |flushes| ==> Sound(flushes[i], log, plan, floor)
  }

  /** No window of an identity is flushed twice. */
  ghost predicate OnceEach(flushes: seq<Flush>) {
    forall i, j :: 0 <= i < j < |flushes| ==>
        flushes[i].ident != flushes[j].ident || flushes[i].start != flushes[j].start
  }

  ghost predicate Covers(log: seq<Check>, plan: Plan, b: string, n: int) {
    forall i :: 0 <= i < |log| ==> WindowNo(log[i].at, plan.window(b)) < n
  }

  /** In every span an identity's credit is the sum of its due windows, however far one sums. */
  ghost predicate Balanced(flushes: seq<Flush>, log: seq<Check>, plan: Plan, floor: int) {
    forall b, n: nat, span ::
      Covers(log, plan, b, n) ==> Credit(flushes, b, span) == TotalDue(log, plan, floor, b, n, span)
  }

  function ReportBucket(start: int): int {
    WindowStart(start, BUCKET_SECONDS)
  }

  /** What the flushes put into one accounting set for one identity. */
  function CreditIn(flushes: seq<Flush>, bucket: int, b: string): int {
    if flushes == [] then 0
    else
      var f := flushes[|flushes| - 1];
      CreditIn(flushes[..|flushes| - 1], bucket, b)
      + if f.ident == b && ReportBucket(f.start) == bucket then f.amount else 0
  }

  ghost predicate ScoresMatch(top: Scores, flushes: seq<Flush>) {
    forall bucket, b :: Score(top, bucket, b) == CreditIn(flushes, bucket, b)
  }

  lemma SoundStays(f: Flush, log: seq<Check>, plan: Plan, floor: int, c: Check)
    requires WellFormedPlan(plan) && Sound(f, log, plan, floor) && f.at <= c.at
    ensures Sound(f, log + [c], plan, floor)
  {
    var w := plan.window(f.ident);
    Snoc(log, c, plan, Key(f.ident, f.start));
    Snoc(log, c, plan, Key(f.ident, f.start + w));
    SameWindow(c.at, f.start, w);
  }

  /** One counted request keeps the books: `made` is what it flushed, if anything. */
  lemma RequestKeepsBooks(flushes: seq<Flush>, log: seq<Check>, plan: Plan, floor: int, c: Check, store: Store)
    requires WellFormedPlan(plan) && Ordered(log) && NoLaterThan(log, c.at) && c.at >= 0
    requires Agrees(store, log, plan)
    requires AllSound(flushes, log, plan, floor) && OnceEach(flushes) && Balanced(flushes, log, plan, floor)
    requires forall i :: 0 <= i < |flushes| ==> flushes[i].at <= c.at
    ensures var made := FlushOf(store, c.bucket, plan.window(c.bucket), floor, c.at);
            var flushes' := flushes + if made.Some? then [made.value] else [];
            && AllSound(flushes', log + [c], plan, floor) && OnceEach(flushes')
            && Balanced(flushes', log + [c], plan, floor)
            && forall i :: 0 <= i < |flushes'| ==> flushes'[i].at <= c.at
  {
    var made := FlushOf(store, c.bucket, plan.window(c.bucket), floor, c.at);
    var flushes' := flushes + if made.Some? then [made.value] else [];
    FlushIsDue(log, plan, floor, c, store);
    forall i | 0 <= i < |flushes| ensures Sound(flushes[i], log + [c], plan, floor) {
      SoundStays(flushes[i], log, plan, floor, c);
    }
    assert AllSound(flushes', log + [c], plan, floor);
    assert OnceEach(flushes') by {
      if made.Some? {
        forall i | 0 <= i < |flushes|
          ensures flushes[i].ident != made.value.ident || flushes[i].start != made.value.start
        {
          assert Sound(flushes[i], log, plan, floor);
        }
      }
    }
    BalancedAfter(flushes, made, log, plan, floor, c);
  }

  lemma BalancedAfter(flushes: seq<Flush>, made: Option<Flush>, log: seq<Check>, plan: Plan, floor: int, c: Check)
    requires WellFormedPlan(plan) && Ordered(log) && NoLaterThan(log, c.at) && c.at >= 0
    requires Balanced(flushes, log, plan, floor)
    requires (if made.Some? then made.value.amount else 0) == Newly(log, plan, floor, c.bucket, c.at)
    requires made.Some? ==>
               made.value.ident == c.bucket && made.value.start == Before(c.at, plan.window(c.bucket))
    ensures Balanced(flushes + if made.Some? then [made.value] else [], log + [c], plan, floor)
  {
    hide Newly, TotalDue, Ordered, NoLaterThan, WindowNo, Within, Before, Credit;
    var flushes' := flushes + if made.Some? then [made.value] else [];
    forall b, n: nat, span | Covers(log + [c], plan, b, n)
      ensures Credit(flushes', b, span) == TotalDue(log + [c], plan, floor, b, n, span)
    {
      assert (log + [c])[|log|] == c;
      assert Covers(log, plan, b, n) by {
        forall i | 0 <= i < |log| ensures WindowNo(log[i].at, plan.window(b)) < n { assert (log + [c])[i] == log[i]; }
      }
      TotalDueAfter(log, plan, floor, c, b, n, span);
      CreditSnoc(flushes, made, b, span);
    }
  }

  lemma CreditSnoc(flushes: seq<Flush>, made: Option<Flush>, b: string, span: Span)
    ensures Credit(flushes + if made.Some? then [made.value] else [], b, span)
            == Credit(flushes, b, span)
               + if made.Some? && made.value.ident == b && Within(made.value.start, span) then made.value.amount else 0
  {
    if made.Some? {
      assert (flushes + [made.value])[..|flushes|] == flushes;
    } else {
      assert flushes + [] == flushes;
    }
  }

  /** What a request flushes, said with the history: the previous window's hits, at the first of its own. */
  lemma FlushSaid(log: seq<Check>, plan: Plan, floor: int, c: Check, store: Store)
    requires WellFormedPlan(plan) && Agrees(store, log, plan) && NoLaterThan(log, c.at)
    ensures var key := KeyFor(c.bucket, c.at, plan);
            var prev := Key(c.bucket, key.start - plan.window(c.bucket));
            var n := Hits(log, plan, prev);
            FlushOf(store, c.bucket, plan.window(c.bucket), floor, c.at) ==
            if Hits(log, plan, key) == 0 && n != 0 && n >= floor
            then Some(Flush(c.bucket, prev.start, n, c.at)) else None
  {
    var b, now := c.bucket, c.at;
    var w := plan.window(b);
    var key := KeyFor(b, now, plan);
    HitCounts(store, log, plan, b, now, 2 * w, c.allowed);
    assert NoLaterThan(log + [Check(b, now, c.allowed)], now);
    PreviousIsExact(Hit(store, key, now, 2 * w), log + [Check(b, now, c.allowed)], plan, b, now);
    Snoc(log, Check(b, now, c.allowed), plan, Key(b, key.start - w));
    hide WindowStart, Hits, Agrees, Hit;
  }

  /** A request flushes exactly what its window's start makes due, and soundly. */
  lemma FlushIsDue(log: seq<Check>, plan: Plan, floor: int, c: Check, store: Store)
    requires WellFormedPlan(plan) && Agrees(store, log, plan) && NoLaterThan(log, c.at)
    ensures var made := FlushOf(store, c.bucket, plan.window(c.bucket), floor, c.at);
            var w := plan.window(c.bucket);
            && (if made.Some? then made.value.amount else 0) == Newly(log, plan, floor, c.bucket, c.at)
            && (made.Some? ==>
                  && made.value.ident == c.bucket && made.value.at == c.at && made.value.start == Before(c.at, w)
                  && Sound(made.value, log + [c], plan, floor)
                  && Hits(log, plan, Key(c.bucket, made.value.start + w)) == 0)
  {
    hide WindowStart, WindowNo, Hits, Agrees, FlushOf;
    var w := plan.window(c.bucket);
    var key := KeyFor(c.bucket, c.at, plan);
    FlushSaid(log, plan, floor, c, store);
    Snoc(log, c, plan, key);
    Snoc(log, c, plan, Key(c.bucket, key.start - w));
    StartIsAligned(c.at, w);
    PreviousStart(c.at, w);
  }

  lemma PreviousStart(now: int, w: int)
    requires w > 0
    ensures WindowStart(now, w) == WindowNo(now, w) * w
    ensures WindowStart(now, w) - w == (WindowNo(now, w) - 1) * w
    ensures Aligned(WindowStart(now, w) - w, w)
  {
    assert (now / w - 1) * w == now / w * w - w;
    DivUnique(WindowStart(now, w) - w, w, now / w - 1);
  }

  // ---------- the throttle ----------

  const TOTAL_PLAN := Plan(b => BUCKET_SECONDS, b => 0)

  function Totals(log: seq<Check>): seq<Check> {
    if log == [] then [] else Totals(log[..|log| - 1]) + [log[|log| - 1].(bucket := TOTAL)]
  }

  lemma {:induction false} TotalsNoLater(log: seq<Check>, now: int)
    requires NoLaterThan(log, now)
    ensures NoLaterThan(Totals(log), now)
  {
    if log != [] { TotalsNoLater(log[..|log| - 1], now); }
  }

  /** What one counted request does to Redis. */
  function NextRedis(redis: Redis, b: string, window: int, floor: int, now: int): Redis {
    var made := FlushOf(redis.counters, b, window, floor, now);
    Redis(
      Hit(redis.counters, Key(b, WindowStart(now, window)), now, 2 * window),
      Hit(redis.totals, Key(TOTAL, WindowStart(now, BUCKET_SECONDS)), now, KEY_TTL),
      if made.None? then redis.top
      else
        var at := (ReportBucket(made.value.start), b);
        redis.top[at := Score(redis.top, at.0, b) + made.value.amount])
  }

  /** Redis, the request history and the flush history all tell the same story. */
  ghost predicate Consistent(redis: Redis, log: seq<Check>, flushes: seq<Flush>, plan: Plan, floor: int) {
    && WellFormedPlan(plan) && Ordered(log)
    && Agrees(redis.counters, log, plan)
    && Agrees(redis.totals, Totals(log), TOTAL_PLAN)
    && AllSound(flushes, log, plan, floor) && OnceEach(flushes) && Balanced(flushes, log, plan, floor)
    && ScoresMatch(redis.top, flushes)
    && forall i :: 0 <= i < |flushes| ==> log != [] && flushes[i].at <= log[|log| - 1].at
  }

  lemma RequestKeepsConsistent(redis: Redis, log: seq<Check>, flushes: seq<Flush>, plan: Plan, floor: int, c: Check)
    requires Consistent(redis, log, flushes, plan, floor) && NoLaterThan(log, c.at) && c.at >= 0
    ensures var w := plan.window(c.bucket);
            var made := FlushOf(redis.counters, c.bucket, w, floor, c.at);
            Consistent(NextRedis(redis, c.bucket, w, floor, c.at), log + [c],
                       flushes + if made.Some? then [made.value] else [], plan, floor)
  {
    hide Agrees, Hits, WindowStart, Balanced, AllSound, OnceEach, ScoresMatch, Ordered, FlushOf, Totals, Hit, Sound;
    var b, now := c.bucket, c.at;
    var w := plan.window(b);
    var made := FlushOf(redis.counters, b, w, floor, now);
    HitCounts(redis.counters, log, plan, b, now, 2 * w, c.allowed);
    TotalsNoLater(log, now);
    HitCounts(redis.totals, Totals(log), TOTAL_PLAN, TOTAL, now, KEY_TTL, c.allowed);
    assert Check(b, now, c.allowed) == c;
    forall i | 0 <= i < |flushes| ensures flushes[i].at <= now {}
    RequestKeepsBooks(flushes, log, plan, floor, c, redis.counters);
    FlushIsDue(log, plan, floor, c, redis.counters);
    ScoresAfter(redis.top, NextRedis(redis, b, w, floor, now).top, flushes, made);
    LogGrows(log, c);
    assert (log + [c])[|log|] == c;
  }

  class ApiThrottle {
    var redis: Redis
    const floor: int
    ghost const plan: Plan
    ghost var log: seq<Check>
    ghost var flushes: seq<Flush>

    ghost predicate Valid()
      reads this
    {
      Consistent(redis, log, flushes, plan, floor)
    }

    constructor (ghost plan: Plan, floor: int)
      requires WellFormedPlan(plan)
      ensures Valid() && log == [] && flushes == [] && this.plan == plan && this.floor == floor
    {
      redis := Redis(map[], map[], map[]);
      log, flushes := [], [];
      this.plan, this.floor := plan, floor;
      new;
      forall b, n: nat, span ensures TotalDue([], plan, floor, b, n, span) == 0 {
        NothingDue(plan, floor, b, n, span);
      }
    }

    /** `check_api_throttle` */
    method CheckApiThrottle(ident: Option<string>, window: int, limit: int, exempt: bool, enabled: bool, now: int)
      returns (blocked: bool)
      requires Valid() && now >= 0 && NoLaterThan(log, now)
      requires ident.Some? ==> window == plan.window(ident.value)
      modifies this
      ensures Valid()
      ensures ident.None? || limit <= 0 || exempt ==> !blocked && unchanged(this)
      ensures !(ident.None? || limit <= 0 || exempt) ==>
                && log == old(log) + [Check(ident.value, now, !blocked)]
                && (blocked <==> enabled && Hits(old(log), plan, KeyFor(ident.value, now, plan)) + 1 > limit)
                && (var made := FlushOf(old(redis.counters), ident.value, window, floor, now);
                    flushes == old(flushes) + if made.Some? then [made.value] else [])
                && redis == NextRedis(old(redis), ident.value, window, floor, now)
    {
      hide Consistent, NextRedis, FlushOf, Hits, WindowStart, NoLaterThan, Hit, KeyFor;
      if ident.None? || limit <= 0 || exempt {
        return false;
      }
      var b := ident.value;
      var next, count := Count(redis, b, window, floor, now);
      blocked := enabled && count > limit;
      ghost var made := FlushOf(redis.counters, b, window, floor, now);
      ConsistentCounts(redis, log, flushes, plan, floor, b, now);
      RequestKeepsConsistent(redis, log, flushes, plan, floor, Check(b, now, !blocked));
      redis := next;
      log := log + [Check(b, now, !blocked)];
      flushes := flushes + if made.Some? then [made.value] else [];
    }
  }

  /** The count a request gets is the number of its window's requests, itself included. */
  lemma ConsistentCounts(
    redis: Redis, log: seq<Check>, flushes: seq<Flush>, plan: Plan, floor: int, b: string, now: int)
    requires Consistent(redis, log, flushes, plan, floor) && NoLaterThan(log, now)
    ensures KeyFor(b, now, plan) == Key(b, WindowStart(now, plan.window(b)))
    ensures var after := Hit(redis.counters, KeyFor(b, now, plan), now, 2 * plan.window(b));
            && KeyFor(b, now, plan) in after
            && after[KeyFor(b, now, plan)].value == Hits(log, plan, KeyFor(b, now, plan)) + 1
  {
    HitCounts(redis.counters, log, plan, b, now, 2 * plan.window(b), true);
    hide Agrees, Hits, WindowStart, Hit;
  }

  /** The two pipelines of a counted request: count it, then flush if it opened its window. */
  method Count(redis: Redis, b: string, window: int, floor: int, now: int) returns (next: Redis, count: int)
    ensures next == NextRedis(redis, b, window, floor, now)
    ensures var key := Key(b, WindowStart(now, window)); count == Hit(redis.counters, key, now, 2 * window)[key].value
  {
    hide WindowStart;
    var key := Key(b, WindowStart(now, window));
    var bucket := WindowStart(now, BUCKET_SECONDS);
    var counters := Hit(redis.counters, key, now, 2 * window);
    var totals := Hit(redis.totals, Key(TOTAL, bucket), now, KEY_TTL);
    count := counters[key].value;
    var top := redis.top;
    if count == 1 {
      var prev := PreviousCount(counters, Key(b, key.start - window), now);
      if prev.Some? && prev.value != 0 && prev.value >= floor {
        var report := WindowStart(key.start - window, BUCKET_SECONDS);
        top := top[(report, b) := Score(top, report, b) + prev.value];
      }
    }
    next := Redis(counters, totals, top);
  }

  lemma LogGrows(log: seq<Check>, c: Check)
    requires Ordered(log) && NoLaterThan(log, c.at) && c.at >= 0
    ensures Ordered(log + [c]) && Totals(log + [c]) == Totals(log) + [Check(TOTAL, c.at, c.allowed)]
  {
    assert (log + [c])[..|log|] == log;
    assert (log + [c])[|log|] == c;
  }

  lemma ScoresAfter(top: Scores, top': Scores, flushes: seq<Flush>, made: Option<Flush>)
    requires ScoresMatch(top, flushes)
    requires made.None? ==> top' == top
    requires made.Some? ==>
               var at := (ReportBucket(made.value.start), made.value.ident);
               top' == top[at := Score(top, at.0, at.1) + made.value.amount]
    ensures ScoresMatch(top', flushes + if made.Some? then [made.value] else [])
  {
    if made.Some? {
      var f := made.value;
      assert (flushes + [f])[..|flushes|] == flushes && (flushes + [f])[|flushes|] == f;
      forall bucket, b ensures Score(top', bucket, b) == CreditIn(flushes + [f], bucket, b) {
        assert Score(top, bucket, b) == CreditIn(flushes, bucket, b);
      }
    } else {
      assert flushes + [] == flushes;
    }
  }

  lemma {:induction false} NothingDue(plan: Plan, floor: int, b: string, n: nat, span: Span)
    ensures TotalDue([], plan, floor, b, n, span) == 0
  {
    if n > 0 { NothingDue(plan, floor, b, n - 1, span); }
  }

  // ---------- whole runs ----------

  datatype World = World(redis: Redis, log: seq<Check>, flushes: seq<Flush>)

  /** Redis and both histories after a run of counted requests. */
  function After(log: seq<Check>, plan: Plan, floor: int): World {
    if log == [] then World(Redis(map[], map[], map[]), [], [])
    else
      var before := After(log[..|log| - 1], plan, floor);
      var c := log[|log| - 1];
      var w := plan.window(c.bucket);
      var made := FlushOf(before.redis.counters, c.bucket, w, floor, c.at);
      var flushes := before.flushes + if made.Some? then [made.value] else [];
      World(NextRedis(before.redis, c.bucket, w, floor, c.at), log, flushes)
  }

  lemma EmptyIsConsistent(plan: Plan, floor: int)
    requires WellFormedPlan(plan)
    ensures Consistent(Redis(map[], map[], map[]), [], [], plan, floor)
  {
    forall b, n: nat, span ensures TotalDue([], plan, floor, b, n, span) == 0 {
      NothingDue(plan, floor, b, n, span);
    }
  }

  lemma {:induction false} RunIsConsistent(log: seq<Check>, plan: Plan, floor: int)
    requires WellFormedPlan(plan) && Ordered(log)
    ensures After(log, plan, floor).log == log
    ensures Consistent(After(log, plan, floor).redis, log, After(log, plan, floor).flushes, plan, floor)
  {
    if log == [] {
      EmptyIsConsistent(plan, floor);
    } else {
      var init, c := log[..|log| - 1], log[|log| - 1];
      assert Ordered(init) && NoLaterThan(init, c.at) && c.at >= 0;
      hide NextRedis, FlushOf, Ordered, NoLaterThan, WellFormedPlan, Consistent;
      RunIsConsistent(init, plan, floor);
      assert init + [c] == log;
      RequestKeepsConsistent(After(init, plan, floor).redis, init, After(init, plan, floor).flushes, plan, floor, c);
    }
  }

  /**
   After any run of requests in time order, every identity has been credited exactly
   the sum of its due windows, each once, each whole, and each before its key expired.
   */
  lemma RunCreditsDueWindows(log: seq<Check>, plan: Plan, floor: int, b: string, n: nat)
    requires WellFormedPlan(plan) && Ordered(log) && Covers(log, plan, b, n)
    ensures Credit(After(log, plan, floor).flushes, b, Always) == TotalDue(log, plan, floor, b, n, Always)
    ensures AllSound(After(log, plan, floor).flushes, log, plan, floor) && OnceEach(After(log, plan, floor).flushes)
  {
    hide After, Ordered, WellFormedPlan, AllSound, OnceEach, Covers, TotalDue, Credit, ScoresMatch, Agrees;
    RunIsConsistent(log, plan, floor);
  }

  // ---------- the accounting sets ----------

  lemma {:induction false} CreditInSpan(flushes: seq<Flush>, bucket: int, b: string)
    requires Aligned(bucket, BUCKET_SECONDS)
    ensures CreditIn(flushes, bucket, b) == Credit(flushes, b, Between(bucket, bucket + BUCKET_SECONDS))
  {
    if flushes != [] {
      SameWindow(flushes[|flushes| - 1].start, bucket, BUCKET_SECONDS);
      CreditInSpan(flushes[..|flushes| - 1], bucket, b);
    }
  }

  /** The count of a window is the number of its requests, by their times. */
  lemma HitsNoCounts(log: seq<Check>, plan: Plan, b: string, k: int)
    requires WellFormedPlan(plan)
    ensures var w := plan.window(b);
            HitsNo(log, plan, b, k) == |set i | 0 <= i < |log| && log[i].bucket == b && k * w <= log[i].at < k * w + w|
  {
    var w := plan.window(b);
    DivUnique(k * w, w, k);
    HitsAreChecksIn(log, plan, b, k * w);
  }

  /** What a window owes, by the times of the requests alone. */
  lemma DueExactly(log: seq<Check>, plan: Plan, floor: int, b: string, k: int)
    requires WellFormedPlan(plan)
    ensures var w := plan.window(b);
            var mine := set i | 0 <= i < |log| && log[i].bucket == b && k * w <= log[i].at < k * w + w;
            var next := set i | 0 <= i < |log| && log[i].bucket == b && (k + 1) * w <= log[i].at < (k + 1) * w + w;
            Due(log, plan, floor, b, k) == if |mine| >= 1 && |mine| >= floor && |next| >= 1 then |mine| else 0
  {
    HitsNoCounts(log, plan, b, k);
    HitsNoCounts(log, plan, b, k + 1);
    hide HitsNo;
  }

  /**
   After any run of requests in time order, the score of an identity in an accounting set is
   the sum of its due windows that start in that set's five minutes.
   */
  lemma RunScoresDueWindows(log: seq<Check>, plan: Plan, floor: int, b: string, n: nat, bucket: int)
    requires WellFormedPlan(plan) && Ordered(log) && Covers(log, plan, b, n)
    requires bucket % 300 == 0
    ensures Score(After(log, plan, floor).redis.top, bucket, b) ==
            TotalDue(log, plan, floor, b, n, Between(bucket, bucket + 300))
  {
    hide After, Ordered, WellFormedPlan, AllSound, OnceEach, Covers, TotalDue, Credit, Agrees, CreditIn, Score;
    RunIsConsistent(log, plan, floor);
    CreditInSpan(After(log, plan, floor).flushes, bucket, b);
  }
}
