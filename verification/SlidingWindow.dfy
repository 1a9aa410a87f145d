/**
 The sliding-window limiter over a Redis sorted set (mojo/decorators/limits.py).

 The sorted set is keyed by the printed timestamp, and printing a float is
 injective, so the set is modelled as the set of timestamps it holds. Two attempts
 at one and the same timestamp therefore occupy one entry.
 */
module SlidingWindow {
  import opened Wrappers
  import Sets

  /** A sorted set and the moment its key expires. */
  datatype Entry = Entry(scores: set<real>, expiry: real)

  datatype Attempt = Attempt(at: real, allowed: bool)

  // ---------- the Redis program of one check ----------

  function LiveScores(key: Option<Entry>, now: real): set<real> {
    if key.Some? && now < key.value.expiry then key.value.scores else {}
  }

  /** ZREMRANGEBYSCORE key 0 cutoff */
  function Trim(scores: set<real>, cutoff: real): set<real> {
    set s | s in scores && !(0.0 <= s <= cutoff)
  }

  /** `_check_sliding`: the key afterwards, and how many attempts it counted. */
  function CheckSliding(key: Option<Entry>, window: real, now: real): (Entry, nat) {
    var scores := Trim(LiveScores(key, now), now - window) + {now};
    (Entry(scores, now + 2.0 * window), |scores|)
  }

  // ---------- the history ----------

  /** Attempts arrive in time order, after the epoch. */
  predicate Ordered(log: seq<Attempt>) {
    && (forall i :: 0 <= i < |log| ==> log[i].at >= 0.0)
    && (forall i, j :: 0 <= i < j < |log| ==> log[i].at <= log[j].at)
  }

  predicate StrictlyOrdered(log: seq<Attempt>) {
    forall i, j :: 0 <= i < j < |log| ==> log[i].at < log[j].at
  }

  /** The timestamps of all attempts, let through or not, less than one window before `now`. */
  function Recent(log: seq<Attempt>, now: real, window: real): set<real> {
    set i | 0 <= i < |log| && now - window < log[i].at <= now :: log[i].at
  }

  /** Each verdict compares the attempts of the window ending there with the limit. */
  ghost predicate Genuine(log: seq<Attempt>, window: real, limit: int) {
    forall i :: 0 <= i < |log| ==> log[i].allowed == (|Recent(log[..i + 1], log[i].at, window)| <= limit)
  }

  /** The stored set is exactly the recent attempts as of the last one. */
  ghost predicate Agrees(key: Option<Entry>, log: seq<Attempt>, window: real) {
    if log == [] then key.None?
    else
      var last := log[|log| - 1].at;
      key.Some? && key.value.scores == Recent(log, last, window) && key.value.expiry == last + 2.0 * window
  }

  /** Trimming and expiry together lose nothing that is still in the window. */
  lemma TrimmedIsRecent(key: Option<Entry>, log: seq<Attempt>, window: real, now: real)
    requires window > 0.0 && Ordered(log) && Agrees(key, log, window)
    requires log == [] || log[|log| - 1].at <= now
    ensures Trim(LiveScores(key, now), now - window) == Recent(log, now, window)
  {
    if log != [] {
      var last := log[|log| - 1].at;
      forall i | 0 <= i < |log| ensures log[i].at <= last {}
    }
  }

  lemma RecentSnoc(log: seq<Attempt>, a: Attempt, window: real)
    requires window > 0.0
    ensures Recent(log + [a], a.at, window) == Recent(log, a.at, window) + {a.at}
  {
    var all := log + [a];
    forall t | t in Recent(log, a.at, window) + {a.at} ensures t in Recent(all, a.at, window) {
      if t == a.at {
        assert all[|log|] == a;
      } else {
        var i :| 0 <= i < |log| && log[i].at == t;
        assert all[i] == log[i];
      }
    }
  }

  /** One check counts the window's attempts, itself included, and keeps the set in step with them. */
  lemma CheckCountsRecent(key: Option<Entry>, log: seq<Attempt>, window: real, now: real, allowed: bool)
    requires window > 0.0 && Ordered(log) && Agrees(key, log, window)
    requires now >= 0.0 && (log == [] || log[|log| - 1].at <= now)
    ensures var (entry, count) := CheckSliding(key, window, now);
            var log' := log + [Attempt(now, allowed)];
            count == |Recent(log', now, window)| && Agrees(Some(entry), log', window) && Ordered(log')
  {
    hide Trim, LiveScores, Recent, Ordered;
    var a := Attempt(now, allowed);
    var log' := log + [a];
    TrimmedIsRecent(key, log, window, now);
    RecentSnoc(log, a, window);
    OrderedSnoc(log, a);
    var (entry, count) := CheckSliding(key, window, now);
    assert entry.scores == Recent(log', now, window);
    assert log'[|log'| - 1] == a;
  }

  lemma OrderedSnoc(log: seq<Attempt>, a: Attempt)
    requires Ordered(log) && a.at >= 0.0 && (log == [] || log[|log| - 1].at <= a.at)
    ensures Ordered(log + [a])
  {}

  lemma GenuineSnoc(log: seq<Attempt>, a: Attempt, window: real, limit: int)
    requires Genuine(log, window, limit)
    requires a.allowed == (|Recent(log + [a], a.at, window)| <= limit)
    ensures Genuine(log + [a], window, limit)
  {
    var all := log + [a];
    forall i | 0 <= i < |all| ensures all[i].allowed == (|Recent(all[..i + 1], all[i].at, window)| <= limit) {
      if i < |log| {
        assert all[..i + 1] == log[..i + 1];
      } else {
        assert all[..i + 1] == all;
      }
    }
  }

  class SlidingLimiter {
    var key: Option<Entry>
    ghost var log: seq<Attempt>
    const window: real
    const limit: int

    ghost predicate Valid()
      reads this
    {
      window > 0.0 && Ordered(log) && Agrees(key, log, window) && Genuine(log, window, limit)
    }

    constructor (window: real, limit: int)
      requires window > 0.0
      ensures Valid() && log == [] && this.window == window && this.limit == limit
    {
      this.window, this.limit := window, limit;
      key, log := None, [];
    }

    /** `_check_sliding` on the key of one identity. */
    method Check(now: real) returns (count: nat, allowed: bool)
      requires Valid() && now >= 0.0 && (log == [] || log[|log| - 1].at <= now)
      modifies this
      ensures Valid() && log == old(log) + [Attempt(now, allowed)]
      ensures count == |Recent(log, now, window)|
    {
      hide Recent, Genuine, Ordered, Agrees, CheckSliding;
      var entry;
      entry, count, allowed := CheckKey(key, window, limit, now);
      CheckCountsRecent(key, log, window, now, allowed);
      GenuineSnoc(log, Attempt(now, allowed), window, limit);
      key := Some(entry);
      log := log + [Attempt(now, allowed)];
    }
  }

  /** The commands of `_check_sliding`, one after the other. */
  method CheckKey(key: Option<Entry>, window: real, limit: int, now: real)
      returns (entry: Entry, count: nat, allowed: bool)
    ensures (entry, count) == CheckSliding(key, window, now) && (allowed <==> count <= limit)
  {
    hide Trim, LiveScores;
    var cutoff := now - window;
    var scores := Trim(LiveScores(key, now), cutoff);
    scores := scores + {now};
    count := |scores|;
    entry := Entry(scores, now + 2.0 * window);
    allowed := count <= limit;
  }

  // ---------- the bound ----------

  /** A stretch of time one window long, open at one end. */
  datatype Stretch = From(lo: real) | UpTo(hi: real)

  predicate In(t: real, s: Stretch, window: real) {
    match s
    case From(lo) => lo <= t < lo + window
    case UpTo(hi) => hi - window < t <= hi
  }

  function AllowedIn(log: seq<Attempt>, s: Stretch, window: real): nat {
    if log == [] then 0
    else
      var a := log[|log| - 1];
      AllowedIn(log[..|log| - 1], s, window) + if a.allowed && In(a.at, s, window) then 1 else 0
  }

  /** The distinct timestamps at which attempts were let through. */
  function AllowedTimes(log: seq<Attempt>, s: Stretch, window: real): set<real> {
    set i | 0 <= i < |log| && log[i].allowed && In(log[i].at, s, window) :: log[i].at
  }

  lemma AllowedTimesSnoc(log: seq<Attempt>, s: Stretch, window: real)
    requires log != []
    ensures var a := log[|log| - 1];
            AllowedTimes(log, s, window) ==
            AllowedTimes(log[..|log| - 1], s, window) + if a.allowed && In(a.at, s, window) then {a.at} else {}
  {
    var init, a := log[..|log| - 1], log[|log| - 1];
    forall t | t in AllowedTimes(init, s, window) ensures t in AllowedTimes(log, s, window) {
      var i :| 0 <= i < |init| && init[i].allowed && In(init[i].at, s, window) && init[i].at == t;
      assert log[i] == init[i];
    }
  }

  lemma GenuineInit(log: seq<Attempt>, window: real, limit: int)
    requires log != [] && Genuine(log, window, limit) && Ordered(log)
    ensures Genuine(log[..|log| - 1], window, limit) && Ordered(log[..|log| - 1])
  {
    var init := log[..|log| - 1];
    forall i | 0 <= i < |init| ensures init[i].allowed == (|Recent(init[..i + 1], init[i].at, window)| <= limit) {
      assert init[..i + 1] == log[..i + 1] && init[i] == log[i];
    }
  }

  /** In any stretch one window long, attempts pass at no more than `limit` distinct moments. */
  lemma {:induction false} SlidingBoundOnMoments(log: seq<Attempt>, s: Stretch, window: real, limit: nat)
    requires window > 0.0 && Ordered(log) && Genuine(log, window, limit)
    ensures |AllowedTimes(log, s, window)| <= limit
  {
    if log != [] {
      var init, a := log[..|log| - 1], log[|log| - 1];
      if a.allowed && In(a.at, s, window) {
        assert log[..|log| - 1 + 1] == log;
        forall t | t in AllowedTimes(log, s, window) ensures t in Recent(log, a.at, window) {
          var i :| 0 <= i < |log| && log[i].allowed && In(log[i].at, s, window) && log[i].at == t;
          assert log[i].at <= a.at;
        }
        Sets.SubsetSize(AllowedTimes(log, s, window), Recent(log, a.at, window));
      } else {
        GenuineInit(log, window, limit);
        SlidingBoundOnMoments(init, s, window, limit);
        AllowedTimesSnoc(log, s, window);
      }
    } else {
      assert AllowedTimes(log, s, window) == {};
    }
  }

  /** With pairwise different timestamps, moments and attempts number the same. */
  lemma {:induction false} MomentsAreAttempts(log: seq<Attempt>, s: Stretch, window: real)
    requires StrictlyOrdered(log)
    ensures AllowedIn(log, s, window) == |AllowedTimes(log, s, window)|
  {
    if log == [] {
      assert AllowedTimes(log, s, window) == {};
    } else {
      var init, a := log[..|log| - 1], log[|log| - 1];
      MomentsAreAttempts(init, s, window);
      AllowedTimesSnoc(log, s, window);
      assert a.at !in AllowedTimes(init, s, window) by {
        forall i | 0 <= i < |init| ensures init[i].at != a.at {
          assert log[i].at < log[|log| - 1].at;
        }
      }
    }
  }

  /** With pairwise different timestamps, at most `limit` attempts pass in any such stretch. */
  lemma SlidingBound(log: seq<Attempt>, s: Stretch, window: real, limit: nat)
    requires window > 0.0 && Ordered(log) && StrictlyOrdered(log) && Genuine(log, window, limit)
    ensures AllowedIn(log, s, window) <= limit
  {
    SlidingBoundOnMoments(log, s, window, limit);
    MomentsAreAttempts(log, s, window);
  }

  // ---------- why the timestamps must differ ----------

  function Burst(n: nat, at: real): seq<Attempt> {
    if n == 0 then [] else Burst(n - 1, at) + [Attempt(at, true)]
  }

  lemma {:induction false} BurstShape(n: nat, at: real)
    requires at >= 0.0
    ensures |Burst(n, at)| == n && (forall i :: 0 <= i < n ==> Burst(n, at)[i] == Attempt(at, true))
    ensures Ordered(Burst(n, at))
  {
    if n > 0 { BurstShape(n - 1, at); }
  }

  lemma {:induction false} BurstAllowed(n: nat, at: real, window: real)
    requires window > 0.0
    ensures AllowedIn(Burst(n, at), UpTo(at), window) == n
  {
    if n > 0 {
      var init, a := Burst(n - 1, at), Attempt(at, true);
      BurstAllowed(n - 1, at, window);
      assert In(a.at, UpTo(at), window);
      assert (init + [a])[..|init + [a]| - 1] == init;
    }
  }

  lemma {:induction false} BurstGenuine(n: nat, at: real, window: real, limit: int)
    requires window > 0.0 && limit >= 1 && at >= 0.0
    ensures Genuine(Burst(n, at), window, limit)
  {
    if n > 0 {
      var init, a := Burst(n - 1, at), Attempt(at, true);
      BurstShape(n - 1, at);
      assert Recent(init, at, window) <= {at};
      hide Genuine, Recent, Ordered;
      BurstGenuine(n - 1, at, window, limit);
      RecentSnoc(init, a, window);
      assert Recent(init + [a], at, window) == {at};
      GenuineSnoc(init, a, window, limit);
    }
  }

  /** Any number of attempts at one timestamp all pass any positive limit. */
  lemma BurstAllPasses(n: nat, at: real, window: real, limit: int)
    requires window > 0.0 && limit >= 1 && at >= 0.0
    ensures Ordered(Burst(n, at)) && Genuine(Burst(n, at), window, limit)
    ensures AllowedIn(Burst(n, at), UpTo(at), window) == n
  {
    BurstShape(n, at);
    BurstAllowed(n, at, window);
    BurstGenuine(n, at, window, limit);
  }

  // ---------- exactly when the bound holds ----------

  /** Whether a check finds at most `limit` attempts in its window, itself included. */
  predicate Passes(log: seq<Attempt>, window: real, limit: nat, now: real) {
    |Recent(log + [Attempt(now, true)], now, window)| <= limit
  }

  lemma VerdictIsNotCounted(log: seq<Attempt>, now: real, window: real, allowed: bool)
    ensures Recent(log + [Attempt(now, allowed)], now, window) == Recent(log + [Attempt(now, true)], now, window)
  {
    var a, b := log + [Attempt(now, allowed)], log + [Attempt(now, true)];
    forall i | 0 <= i < |a| ensures a[i].at == b[i].at {}
  }

  /** The attempts at the given times, with the verdicts the limiter gives them. */
  function Verdicts(times: seq<real>, window: real, limit: nat): seq<Attempt> {
    if times == [] then []
    else
      var before, now := Verdicts(times[..|times| - 1], window, limit), times[|times| - 1];
      before + [Attempt(now, Passes(before, window, limit, now))]
  }

  /** A clock that does not run backwards gives these. */
  predicate InOrder(times: seq<real>) {
    && (forall i :: 0 <= i < |times| ==> times[i] >= 0.0)
    && (forall i, j :: 0 <= i < j < |times| ==> times[i] <= times[j])
  }

  predicate Distinct(times: seq<real>) {
    forall i, j :: 0 <= i < j < |times| ==> times[i] != times[j]
  }

  /** Whatever the window and the positive limit, no stretch one window long sees more than `limit` pass. */
  ghost predicate KeepsBound(times: seq<real>) {
    forall window: real, limit: nat, s: Stretch ::
      window > 0.0 && limit > 0 ==> AllowedIn(Verdicts(times, window, limit), s, window) <= limit
  }

  lemma {:induction false} VerdictsShape(times: seq<real>, window: real, limit: nat)
    ensures |Verdicts(times, window, limit)| == |times|
    ensures forall i :: 0 <= i < |times| ==> Verdicts(times, window, limit)[i].at == times[i]
  {
    hide Passes;
    if times != [] { VerdictsShape(times[..|times| - 1], window, limit); }
  }

  lemma {:induction false} VerdictsAreGenuine(times: seq<real>, window: real, limit: nat)
    ensures Genuine(Verdicts(times, window, limit), window, limit)
  {
    if times != [] {
      var init, now := times[..|times| - 1], times[|times| - 1];
      VerdictsAreGenuine(init, window, limit);
      NextIsGenuine(Verdicts(init, window, limit), now, window, limit);
    }
  }

  lemma NextIsGenuine(log: seq<Attempt>, now: real, window: real, limit: nat)
    requires Genuine(log, window, limit)
    ensures Genuine(log + [Attempt(now, Passes(log, window, limit, now))], window, limit)
  {
    hide Genuine, Recent;
    var a := Attempt(now, Passes(log, window, limit, now));
    VerdictIsNotCounted(log, now, window, a.allowed);
    GenuineSnoc(log, a, window, limit);
  }

  lemma {:induction false} AllowedGrows(times: seq<real>, k: nat, s: Stretch, window: real, limit: nat)
    requires k <= |times|
    ensures AllowedIn(Verdicts(times[..k], window, limit), s, window)
            <= AllowedIn(Verdicts(times, window, limit), s, window)
  {
    hide Passes, In;
    if k < |times| {
      var init := times[..|times| - 1];
      AllowedGrows(init, k, s, window, limit);
      assert init[..k] == times[..k];
      var log, before := Verdicts(times, window, limit), Verdicts(init, window, limit);
      assert log[..|log| - 1] == before;
    } else {
      assert times[..k] == times;
    }
  }

  /**
   Two equal timestamps in a row: a limit of one lets both pass, in a window that ends there and
   holds nothing else.
   */
  lemma RepeatPasses(times: seq<real>, i: nat)
    requires InOrder(times) && i + 1 < |times| && times[i] == times[i + 1]
    requires i > 0 ==> times[i - 1] < times[i]
    ensures !KeepsBound(times)
  {
    hide Passes, In;
    var t := times[i];
    var window := if i > 0 then t - times[i - 1] else 1.0;
    var zero, one := Verdicts(times[..i], window, 1), Verdicts(times[..i + 1], window, 1);
    VerdictsShape(times[..i], window, 1);
    OnlyOneMoment(zero, t, window);
    assert times[..i + 1][..i] == times[..i] && times[..i + 2][..i + 1] == times[..i + 1];
    OnlyOneMoment(one, t, window);
    TwoMore(zero, t, window);
    assert Verdicts(times[..i + 2], window, 1) == zero + [Attempt(t, true)] + [Attempt(t, true)];
    AllowedGrows(times, i + 2, UpTo(t), window, 1);
    assert AllowedIn(Verdicts(times, window, 1), UpTo(t), window) > 1;
  }

  lemma TwoMore(log: seq<Attempt>, t: real, window: real)
    requires window > 0.0
    ensures AllowedIn(log + [Attempt(t, true)] + [Attempt(t, true)], UpTo(t), window) >= 2
  {
    var a := Attempt(t, true);
    assert (log + [a])[..|log|] == log && (log + [a] + [a])[..|log| + 1] == log + [a];
  }

  lemma OnlyOneMoment(log: seq<Attempt>, t: real, window: real)
    requires window > 0.0 && forall j :: 0 <= j < |log| ==> log[j].at <= t - window || log[j].at == t
    ensures Passes(log, window, 1, t)
  {
    var all := log + [Attempt(t, true)];
    assert all[|log|].at == t;
    assert Recent(all, t, window) == {t};
  }

  lemma {:induction false} FirstRepeat(times: seq<real>) returns (i: nat)
    requires InOrder(times) && !Distinct(times)
    ensures i + 1 < |times| && times[i] == times[i + 1] && (i > 0 ==> times[i - 1] < times[i])
  {
    var init := times[..|times| - 1];
    if !Distinct(init) {
      i := FirstRepeat(init);
    } else {
      i := |times| - 2;
    }
  }

  /** The bound holds for every window and limit exactly when no two attempts share a timestamp. */
  lemma BoundExactlyWhenDistinct(times: seq<real>)
    requires InOrder(times)
    ensures KeepsBound(times) <==> Distinct(times)
  {
    if Distinct(times) {
      forall window: real, limit: nat, s: Stretch | window > 0.0 && limit > 0
        ensures AllowedIn(Verdicts(times, window, limit), s, window) <= limit
      {
        VerdictsShape(times, window, limit);
        VerdictsAreGenuine(times, window, limit);
        SlidingBound(Verdicts(times, window, limit), s, window, limit);
      }
    } else {
      var i := FirstRepeat(times);
      RepeatPasses(times, i);
    }
  }

  /** The attempts up to number i in the window ending with it, its start left out. */
  function Near(times: seq<real>, window: real, i: nat): set<nat>
    requires i < |times|
  {
    set j: nat | 0 <= j <= i && times[i] - window < times[j]
  }

  /**
   Among different times, an attempt passes exactly when at most `limit` attempts, itself
   included and refused ones too, lie in its window.
   */
  lemma PassesExactlyWhen(times: seq<real>, window: real, limit: nat, i: nat)
    requires InOrder(times) && Distinct(times) && i < |times| && window > 0.0
    ensures |Verdicts(times, window, limit)| == |times|
    ensures Verdicts(times, window, limit)[i].allowed <==>
            |set j: nat | 0 <= j <= i && times[i] - window < times[j]| <= limit
  {
    var log := Verdicts(times, window, limit);
    VerdictsShape(times, window, limit);
    VerdictsAreGenuine(times, window, limit);
    hide Verdicts, Recent;
    assert log[i].allowed <==> |Recent(log[..i + 1], times[i], window)| <= limit;
    hide Genuine, InOrder;
    RecentTimes(log[..i + 1], times, window, i);
    SameSize(times, Near(times, window, i));
  }

  lemma RecentTimes(log: seq<Attempt>, times: seq<real>, window: real, i: nat)
    requires InOrder(times) && i < |times| && |log| == i + 1
    requires forall j :: 0 <= j <= i ==> log[j].at == times[j]
    ensures Recent(log, times[i], window) == set j | j in Near(times, window, i) :: times[j]
  {
    assert forall j :: 0 <= j < |log| ==> log[j].at == times[j] && log[j].at <= times[i];
    forall j | 0 <= j < |log| && times[i] - window < log[j].at ensures j in Near(times, window, i) {}
  }

  lemma {:induction false} SameSize(times: seq<real>, mine: set<nat>)
    requires Distinct(times) && forall j :: j in mine ==> j < |times|
    ensures |set j | j in mine :: times[j]| == |mine|
    decreases |mine|
  {
    var image := set j | j in mine :: times[j];
    if mine == {} {
      assert image == {};
    } else {
      var j :| j in mine;
      var rest := mine - {j};
      SameSize(times, rest);
      var others := set i | i in rest :: times[i];
      assert image == others + {times[j]} && times[j] !in others;
    }
  }
}
