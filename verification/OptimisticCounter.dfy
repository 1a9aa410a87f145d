/**
 Counting in a shared cache by optimistic transactions (mojo/cache/redis.py): `incr`
 watches the key, reads it and writes the sum back only if nobody touched it meanwhile.

 Commands of any number of clients interleave; each command is atomic at the server.
 Keys do not expire here. A Boolean counts as the integer it is.
 */
module OptimisticCounter {
  import opened Wrappers

  type Key = string

  type Client = nat

  datatype Value = Int(n: int) | Other(content: string)

  /** Where a client's `incr` stands; `dirty` is the server's mark that the watched key was touched. */
  datatype Call =
    | Idle
    | Watching(key: Key, delta: int, dirty: bool)
    | Queued(key: Key, delta: int, seen: int, dirty: bool)

  /** What happened to the data, in order. */
  datatype Effect =
    | Wrote(key: Key, value: Value)
    | Deleted(key: Key)
    | Committed(key: Key, delta: int, client: Client, returned: int)

  /** `log` and `since`, the length of the log when a client began to watch, only record what happened. */
  datatype State = State(store: map<Key, Value>, calls: map<Client, Call>, log: seq<Effect>, since: map<Client, nat>)

  datatype Event =
    | Set(key: Key, value: Value)
    | Delete(key: Key)
    | Watch(client: Client, key: Key, delta: int)
    | Read(client: Client)
    | Exec(client: Client)
    | Lose(client: Client)

  /** How a call ends, as its caller sees it. */
  datatype Reply = Pending | Returned(value: int) | NotFound | NotAnInteger | WatchError | ConnectionError

  function Stored(s: State, k: Key): Option<Value> {
    if k in s.store then Some(s.store[k]) else None
  }

  function CallOf(s: State, c: Client): Call {
    if c in s.calls then s.calls[c] else Idle
  }

  function Since(s: State, c: Client): nat {
    if c in s.since then s.since[c] else 0
  }

  function Marked(call: Call, k: Key): Call {
    if call.Idle? || call.key != k then call else call.(dirty := true)
  }

  /** A write marks everyone watching the key. */
  function Touch(calls: map<Client, Call>, k: Key): map<Client, Call> {
    map c | c in calls :: Marked(calls[c], k)
  }

  predicate Enabled(s: State, e: Event) {
    match e
    case Set(_, _) => true
    case Delete(_) => true
    case Watch(c, _, _) => CallOf(s, c).Idle?
    case Read(c) => CallOf(s, c).Watching?
    case Exec(c) => CallOf(s, c).Queued?
    case Lose(c) => !CallOf(s, c).Idle?
  }

  function Step(s: State, e: Event): (State, Reply)
    requires Enabled(s, e)
  {
    match e
    case Set(k, v) =>
      (State(s.store[k := v], Touch(s.calls, k), s.log + [Wrote(k, v)], s.since), Pending)
    case Delete(k) =>
      if k !in s.store then (s, Pending)
      else (State(s.store - {k}, Touch(s.calls, k), s.log + [Deleted(k)], s.since), Pending)
    case Watch(c, k, delta) =>
      (s.(calls := s.calls[c := Watching(k, delta, false)], since := s.since[c := |s.log|]), Pending)
    case Read(c) =>
      var call := CallOf(s, c);
      (match Stored(s, call.key)
       case None => (s.(calls := s.calls[c := Idle]), NotFound)
       case Some(Other(_)) => (s.(calls := s.calls[c := Idle]), NotAnInteger)
       case Some(Int(n)) => (s.(calls := s.calls[c := Queued(call.key, call.delta, n, call.dirty)]), Pending))
    case Exec(c) =>
      var call := CallOf(s, c);
      if call.dirty then (s.(calls := s.calls[c := Idle]), WatchError)
      else
        var sum := call.seen + call.delta;
        var log := s.log + [Committed(call.key, call.delta, c, sum)];
        (State(s.store[call.key := Int(sum)], Touch(s.calls[c := Idle], call.key), log, s.since),
         Returned(sum))
    case Lose(c) => (s.(calls := s.calls[c := Idle]), ConnectionError)
  }

  // ---------- what the log says ----------

  /** The value last set for the key, or the one it started with. */
  function LastSet(base: Option<Value>, log: seq<Effect>, k: Key): Option<Value> {
    if log == [] then base
    else
      var e := log[|log| - 1];
      if e.key == k && e.Wrote? then Some(e.value)
      else if e.key == k && e.Deleted? then None
      else LastSet(base, log[..|log| - 1], k)
  }

  /** The deltas committed to the key after it was last set. */
  function Deltas(log: seq<Effect>, k: Key): seq<int> {
    if log == [] then []
    else
      var e := log[|log| - 1];
      if e.key != k then Deltas(log[..|log| - 1], k)
      else if e.Committed? then Deltas(log[..|log| - 1], k) + [e.delta]
      else []
  }

  function Sum(xs: seq<int>): int {
    if xs == [] then 0 else Sum(xs[..|xs| - 1]) + xs[|xs| - 1]
  }

  /** The last set value plus every delta committed after it; nothing commits to what is not an integer. */
  predicate Accounts(base: Option<Value>, log: seq<Effect>, k: Key, stored: Option<Value>) {
    match LastSet(base, log, k)
    case Some(Int(n)) => stored == Some(Int(n + Sum(Deltas(log, k))))
    case other => stored == other && Deltas(log, k) == []
  }

  /** Each value a call returned is the key's value at that point of the log. */
  predicate Explained(base: Option<Value>, log: seq<Effect>, i: nat)
    requires i < |log|
  {
    log[i].Committed? ==>
      && Accounts(base, log[..i + 1], log[i].key, Some(Int(log[i].returned)))
      && Accounts(base, log[..i], log[i].key, Some(Int(log[i].returned - log[i].delta)))
  }

  predicate Touches(log: seq<Effect>, since: nat, k: Key) {
    exists i :: since <= i < |log| && log[i].key == k
  }

  /** The mark is set exactly when the key was touched since the watch; unmarked, the value read is still there. */
  predicate CallOk(s: State, call: Call, since: nat) {
    call.Idle? ||
    (&& since <= |s.log|
     && (call.dirty <==> Touches(s.log, since, call.key))
     && (call.Queued? && !call.dirty ==> Stored(s, call.key) == Some(Int(call.seen))))
  }

  ghost predicate Inv(base: map<Key, Value>, s: State) {
    && (forall k: Key :: Accounts(At(base, k), s.log, k, Stored(s, k)))
    && (forall c :: c in s.calls ==> CallOk(s, s.calls[c], Since(s, c)))
    && (forall i :: 0 <= i < |s.log| && s.log[i].Committed? ==> Explained(At(base, s.log[i].key), s.log, i))
  }

  function At(m: map<Key, Value>, k: Key): Option<Value> {
    if k in m then Some(m[k]) else None
  }

  // ---------- one effect ----------

  function Grown(s: State, e: Effect, calls: map<Client, Call>): State {
    State(match e
          case Wrote(k, v) => s.store[k := v]
          case Deleted(k) => s.store - {k}
          case Committed(k, _, _, returned) => s.store[k := Int(returned)],
          Touch(calls, e.key), s.log + [e], s.since)
  }

  lemma SumSnoc(xs: seq<int>, x: int)
    ensures Sum(xs + [x]) == Sum(xs) + x
  {
    assert (xs + [x])[..|xs|] == xs;
  }

  lemma AccountsGrow(
    base: Option<Value>, log: seq<Effect>, e: Effect, k: Key, before: Option<Value>, after: Option<Value>)
    requires Accounts(base, log, k, before)
    requires e.key != k ==> after == before
    requires e.key == k ==>
               match e
               case Wrote(_, v) => after == Some(v)
               case Deleted(_) => after == None
               case Committed(_, delta, _, returned) =>
                 before == Some(Int(returned - delta)) && after == Some(Int(returned))
    ensures Accounts(base, log + [e], k, after)
  {
    hide Sum;
    assert (log + [e])[..|log|] == log;
    if e.key == k && e.Committed? {
      SumSnoc(Deltas(log, k), e.delta);
    } else if e.key == k {
      assert Deltas(log + [e], k) == [] && Sum([]) == 0 by { NoSum(); }
    }
  }

  lemma NoSum()
    ensures Sum([]) == 0
  {}

  lemma TouchesGrow(log: seq<Effect>, e: Effect, since: nat, k: Key)
    requires since <= |log|
    ensures Touches(log + [e], since, k) <==> Touches(log, since, k) || e.key == k
  {
    var grown := log + [e];
    if Touches(log, since, k) {
      var i :| since <= i < |log| && log[i].key == k;
      assert grown[i].key == k;
    }
    assert grown[|log|] == e;
  }

  lemma CallGrows(s: State, e: Effect, calls: map<Client, Call>, call: Call, since: nat)
    requires CallOk(s, call, since)
    ensures CallOk(Grown(s, e, calls), Marked(call, e.key), since)
  {
    if !call.Idle? {
      TouchesGrow(s.log, e, since, call.key);
    }
  }

  lemma ExplainedGrows(base: Option<Value>, log: seq<Effect>, e: Effect, i: nat)
    requires i < |log| && Explained(base, log, i)
    ensures Explained(base, log + [e], i)
  {
    assert (log + [e])[..i + 1] == log[..i + 1] && (log + [e])[..i] == log[..i];
  }

  lemma NewIsExplained(base: Option<Value>, log: seq<Effect>, e: Effect)
    requires e.Committed?
    requires Accounts(base, log, e.key, Some(Int(e.returned - e.delta)))
    ensures Explained(base, log + [e], |log|)
  {
    AccountsGrow(base, log, e, e.key, Some(Int(e.returned - e.delta)), Some(Int(e.returned)));
    assert (log + [e])[..|log| + 1] == log + [e] && (log + [e])[..|log|] == log;
  }

  lemma GrowKeepsInv(base: map<Key, Value>, s: State, e: Effect, calls: map<Client, Call>)
    requires Inv(base, s) && forall c :: c in calls ==> CallOk(s, calls[c], Since(s, c))
    requires e.Committed? ==> Stored(s, e.key) == Some(Int(e.returned - e.delta))
    ensures Inv(base, Grown(s, e, calls))
  {
    hide Accounts, CallOk, Explained;
    var t := Grown(s, e, calls);
    forall k: Key ensures Accounts(At(base, k), t.log, k, Stored(t, k)) {
      AccountsGrow(At(base, k), s.log, e, k, Stored(s, k), Stored(t, k));
    }
    forall c | c in t.calls ensures CallOk(t, t.calls[c], Since(t, c)) {
      CallGrows(s, e, calls, calls[c], Since(s, c));
    }
    forall i | 0 <= i < |t.log| && t.log[i].Committed? ensures Explained(At(base, t.log[i].key), t.log, i) {
      if i < |s.log| {
        ExplainedGrows(At(base, s.log[i].key), s.log, e, i);
      } else {
        NewIsExplained(At(base, e.key), s.log, e);
      }
    }
  }

  // ---------- every run ----------

  /** An executed transaction is one effect. */
  lemma ExecIsGrowth(s: State, c: Client)
    requires CallOf(s, c).Queued? && !CallOf(s, c).dirty
    ensures var call := CallOf(s, c);
            var e := Committed(call.key, call.delta, c, call.seen + call.delta);
            Step(s, Exec(c)).0 == Grown(s, e, s.calls[c := Idle])
  {
    hide Touch;
  }

  lemma StepKeepsInv(base: map<Key, Value>, s: State, e: Event)
    requires Inv(base, s) && Enabled(s, e)
    ensures Inv(base, Step(s, e).0)
  {
    hide Accounts, Explained, Touch, Touches;
    match e {
      case Set(k, v) => GrowKeepsInv(base, s, Wrote(k, v), s.calls);
      case Delete(k) => if k in s.store { GrowKeepsInv(base, s, Deleted(k), s.calls); }
      case Exec(c) => {
        var call := CallOf(s, c);
        if !call.dirty {
          hide Step;
          ExecIsGrowth(s, c);
          GrowKeepsInv(base, s, Committed(call.key, call.delta, c, call.seen + call.delta), s.calls[c := Idle]);
        } else {
          CallsKeepInv(base, s, Step(s, e).0, c);
        }
      }
      case Watch(c, k, delta) => WatchIsClean(s, c, k, delta); CallsKeepInv(base, s, Step(s, e).0, c);
      case Read(c) => CallsKeepInv(base, s, Step(s, e).0, c);
      case Lose(c) => CallsKeepInv(base, s, Step(s, e).0, c);
    }
  }

  lemma WatchIsClean(s: State, c: Client, k: Key, delta: int)
    ensures CallOk(s, Watching(k, delta, false), |s.log|)
  {}

  /** A step that only moves one client's call. */
  lemma CallsKeepInv(base: map<Key, Value>, s: State, t: State, c: Client)
    requires Inv(base, s) && t.store == s.store && t.log == s.log
    requires c in t.calls && CallOk(s, t.calls[c], Since(t, c))
    requires forall d :: d != c && d in t.calls ==>
               d in s.calls && t.calls[d] == s.calls[d] && Since(t, d) == Since(s, d)
    ensures Inv(base, t)
  {
    hide Accounts, Explained, Touches;
    forall d | d in t.calls ensures CallOk(t, t.calls[d], Since(t, d)) {
      assert CallOk(s, t.calls[d], Since(t, d));
    }
    forall k: Key ensures Accounts(At(base, k), t.log, k, Stored(t, k)) {
      assert Accounts(At(base, k), s.log, k, Stored(s, k));
    }
  }

  predicate Runs(s: State, events: seq<Event>)
    decreases |events|, 0
  {
    events == [] || (Runs(s, events[..|events| - 1]) && Enabled(After(s, events[..|events| - 1]), events[|events| - 1]))
  }

  function After(s: State, events: seq<Event>): State
    requires Runs(s, events)
    decreases |events|, 1
  {
    if events == [] then s else Step(After(s, events[..|events| - 1]), events[|events| - 1]).0
  }

  lemma {:induction false} RunKeepsInv(base: map<Key, Value>, s: State, events: seq<Event>)
    requires Inv(base, s) && Runs(s, events)
    ensures Inv(base, After(s, events))
  {
    if events != [] {
      RunKeepsInv(base, s, events[..|events| - 1]);
      StepKeepsInv(base, After(s, events[..|events| - 1]), events[|events| - 1]);
    }
  }

  function Start(store: map<Key, Value>): State {
    State(store, map[], [], map[])
  }

  lemma StartKeepsInv(store: map<Key, Value>)
    ensures Inv(store, Start(store))
  {}

  /** However calls interleave, every key holds its last set value plus the deltas committed after it. */
  lemma StoredIsLastSetPlusCommits(store: map<Key, Value>, events: seq<Event>, k: Key)
    requires Runs(Start(store), events)
    ensures var s := After(Start(store), events);
            Accounts(At(store, k), s.log, k, Stored(s, k))
  {
    RunKeepsInv(store, Start(store), events);
  }

  /** Every returned value is the key's value right after that call, in one order that explains them all. */
  lemma ReturnsAreExplained(store: map<Key, Value>, events: seq<Event>, i: nat)
    requires Runs(Start(store), events) && i < |After(Start(store), events).log|
    ensures var log := After(Start(store), events).log;
            Explained(At(store, log[i].key), log, i)
  {
    RunKeepsInv(store, Start(store), events);
  }

  /** A call commits exactly when nobody touched its key since it began to watch; otherwise it changes nothing. */
  lemma CommitsExactlyWhenUntouched(store: map<Key, Value>, events: seq<Event>, c: Client)
    requires Runs(Start(store), events) && Enabled(After(Start(store), events), Exec(c))
    ensures var s := After(Start(store), events);
            var (t, reply) := Step(s, Exec(c));
            var call := CallOf(s, c);
            if Touches(s.log, Since(s, c), call.key)
            then reply == WatchError && t.store == s.store && t.log == s.log
            else && s.store[call.key := Int(call.seen)] == s.store
                 && reply == Returned(call.seen + call.delta)
                 && Stored(t, call.key) == Some(Int(call.seen + call.delta))
                 && t.log == s.log + [Committed(call.key, call.delta, c, call.seen + call.delta)]
  {
    hide Touches, Touch, Accounts, Explained, After;
    StartKeepsInv(store);
    RunKeepsInv(store, Start(store), events);
    var s := After(Start(store), events);
    assert CallOk(s, CallOf(s, c), Since(s, c));
  }

  /** Only a set, a delete of what exists, and a commit change the data, and each is one entry of the log. */
  lemma OtherwiseNothingChanges(s: State, e: Event)
    requires Enabled(s, e)
    ensures var (t, reply) := Step(s, e);
            if e.Set? || (e.Delete? && e.key in s.store) || reply.Returned?
            then exists effect ::
                   t.log == s.log + [effect] && forall k :: k != effect.key ==> Stored(t, k) == Stored(s, k)
            else t.log == s.log && t.store == s.store
  {
    var (t, reply) := Step(s, e);
    if e.Set? || (e.Delete? && e.key in s.store) || reply.Returned? {
      var effect := t.log[|s.log|];
      assert t.log == s.log + [effect];
    }
  }

  // ---------- what the callers asked for ----------

  /** What a client's latest call asked for: the key and the delta of its watch. */
  function Asked(events: seq<Event>, c: Client): Option<(Key, int)> {
    if events == [] then None
    else
      var e := events[|events| - 1];
      if e.Watch? && e.client == c then Some((e.key, e.delta)) else Asked(events[..|events| - 1], c)
  }

  /** The executions that committed, by their place in the run. */
  function Commits(s: State, events: seq<Event>): set<nat>
    requires Runs(s, events)
    decreases events
  {
    if events == [] then {}
    else
      var init, e := events[..|events| - 1], events[|events| - 1];
      Commits(s, init) + if e.Exec? && Step(After(s, init), e).1.Returned? then {|init|} else {}
  }

  /** The value the callers last set for the key, a delete being no value. */
  function LastSetBy(base: Option<Value>, events: seq<Event>, k: Key): Option<Value> {
    if events == [] then base
    else
      var e := events[|events| - 1];
      if e.Set? && e.key == k then Some(e.value)
      else if e.Delete? && e.key == k then None
      else LastSetBy(base, events[..|events| - 1], k)
  }

  /** The deltas asked for by the calls that committed to the key after it was last set. */
  function DeltasBy(events: seq<Event>, commits: set<nat>, k: Key): seq<int> {
    if events == [] then []
    else
      var init, e := events[..|events| - 1], events[|events| - 1];
      if (e.Set? || e.Delete?) && e.key == k then []
      else if e.Exec? && |init| in commits && Asked(init, e.client).Some? && Asked(init, e.client).value.0 == k
      then DeltasBy(init, commits, k) + [Asked(init, e.client).value.1]
      else DeltasBy(init, commits, k)
  }

  /** A call works on the key and with the delta its client last asked for. */
  ghost predicate CallsAsAsked(s: State, events: seq<Event>) {
    forall c :: !CallOf(s, c).Idle? ==> Asked(events, c) == Some((CallOf(s, c).key, CallOf(s, c).delta))
  }

  predicate KeyAsAsked(base: Option<Value>, stored: Option<Value>, events: seq<Event>, commits: set<nat>, k: Key) {
    match LastSetBy(base, events, k)
    case Some(Int(n)) => stored == Some(Int(n + Sum(DeltasBy(events, commits, k))))
    case other => stored == other && DeltasBy(events, commits, k) == []
  }

  ghost predicate StoredAsAsked(base: map<Key, Value>, s: State, events: seq<Event>, commits: set<nat>) {
    forall k: Key :: KeyAsAsked(At(base, k), Stored(s, k), events, commits, k)
  }

  lemma {:induction false} EarlierCommits(s: State, events: seq<Event>)
    requires Runs(s, events)
    ensures forall i :: i in Commits(s, events) ==> i < |events|
    decreases events
  {
    if events != [] { EarlierCommits(s, events[..|events| - 1]); }
  }

  /** Commits of later executions do not change which deltas count. */
  lemma {:induction false} DeltasLocal(events: seq<Event>, a: set<nat>, b: set<nat>, k: Key)
    requires forall i :: 0 <= i < |events| ==> (i in a <==> i in b)
    ensures DeltasBy(events, a, k) == DeltasBy(events, b, k)
  {
    if events != [] { DeltasLocal(events[..|events| - 1], a, b, k); }
  }

  lemma TouchKeepsCalls(s: State, k: Key, c: Client)
    ensures var call := CallOf(s.(calls := Touch(s.calls, k)), c);
            && call.Idle? == CallOf(s, c).Idle?
            && (!call.Idle? ==> call.key == CallOf(s, c).key && call.delta == CallOf(s, c).delta)
  {}

  lemma StepKeepsAsked(s: State, events: seq<Event>, e: Event)
    requires CallsAsAsked(s, events) && Enabled(s, e)
    ensures CallsAsAsked(Step(s, e).0, events + [e])
  {
    var t := Step(s, e).0;
    assert (events + [e])[..|events|] == events;
    forall c | !CallOf(t, c).Idle? ensures Asked(events + [e], c) == Some((CallOf(t, c).key, CallOf(t, c).delta)) {
      if e.Set? || e.Delete? {
        TouchKeepsCalls(s, e.key, c);
      } else if e.Exec? {
        TouchKeepsCalls(s.(calls := s.calls[e.client := Idle]), CallOf(s, e.client).key, c);
      }
    }
  }

  /** One step in terms of what was asked for. */
  lemma StepStoresAsked(base: map<Key, Value>, s: State, events: seq<Event>, e: Event, commits: set<nat>, k: Key)
    requires Inv(base, s) && Enabled(s, e) && CallsAsAsked(s, events)
    requires KeyAsAsked(At(base, k), Stored(s, k), events, commits, k) && |events| !in commits
    ensures var (t, reply) := Step(s, e);
            var all := commits + if e.Exec? && reply.Returned? then {|events|} else {};
            KeyAsAsked(At(base, k), Stored(t, k), events + [e], all, k)
  {
    hide Accounts, Explained, Touches, Touch, Sum;
    var (t, reply) := Step(s, e);
    var all := commits + if e.Exec? && reply.Returned? then {|events|} else {};
    assert (events + [e])[..|events|] == events;
    DeltasLocal(events, commits, all, k);
    NoSum();
    if e.Exec? {
      var call := CallOf(s, e.client);
      assert CallOk(s, call, Since(s, e.client));
      SumSnoc(DeltasBy(events, commits, k), call.delta);
    }
  }

  lemma StepsAsAsked(base: map<Key, Value>, s: State, events: seq<Event>, e: Event, commits: set<nat>)
    requires Inv(base, s) && Enabled(s, e) && CallsAsAsked(s, events)
    requires StoredAsAsked(base, s, events, commits) && forall i :: i in commits ==> i < |events|
    ensures var (t, reply) := Step(s, e);
            var all := commits + if e.Exec? && reply.Returned? then {|events|} else {};
            CallsAsAsked(t, events + [e]) && StoredAsAsked(base, t, events + [e], all)
  {
    hide Inv, Step, CallsAsAsked, KeyAsAsked, Enabled, Stored;
    StepKeepsAsked(s, events, e);
    var (t, reply) := Step(s, e);
    var all := commits + if e.Exec? && reply.Returned? then {|events|} else {};
    forall k: Key ensures KeyAsAsked(At(base, k), Stored(t, k), events + [e], all, k) {
      StepStoresAsked(base, s, events, e, commits, k);
    }
  }

  lemma NothingAsked(store: map<Key, Value>)
    ensures CallsAsAsked(Start(store), []) && StoredAsAsked(store, Start(store), [], {})
  {
    NoSum();
  }

  lemma {:induction false} RunStoresAsked(store: map<Key, Value>, events: seq<Event>)
    requires Runs(Start(store), events)
    ensures CallsAsAsked(After(Start(store), events), events)
    ensures StoredAsAsked(store, After(Start(store), events), events, Commits(Start(store), events))
    decreases events
  {
    hide Inv, Step, CallsAsAsked, StoredAsAsked, Enabled, Start;
    if events == [] {
      NothingAsked(store);
    } else {
      var init, e := events[..|events| - 1], events[|events| - 1];
      StartKeepsInv(store);
      RunKeepsInv(store, Start(store), init);
      RunStoresAsked(store, init);
      EarlierCommits(Start(store), init);
      StepsAsAsked(store, After(Start(store), init), init, e, Commits(Start(store), init));
      assert init + [e] == events;
    }
  }

  /**
   From the callers' side: however calls interleave, every key holds the value somebody
   last set, plus the deltas asked for by exactly the calls that committed after it.
   */
  lemma StoredIsWhatWasAsked(store: map<Key, Value>, events: seq<Event>, k: Key)
    requires Runs(Start(store), events)
    ensures var stored := Stored(After(Start(store), events), k);
            var deltas := DeltasBy(events, Commits(Start(store), events), k);
            match LastSetBy(At(store, k), events, k)
            case Some(Int(n)) => stored == Some(Int(n + Sum(deltas)))
            case other => stored == other && deltas == []
  {
    RunStoresAsked(store, events);
    assert KeyAsAsked(At(store, k), Stored(After(Start(store), events), k), events, Commits(Start(store), events), k);
  }

  lemma StepIsLogged(s: State, events: seq<Event>, e: Event)
    requires CallsAsAsked(s, events) && Enabled(s, e)
    ensures var (t, reply) := Step(s, e);
            var asked := if e.Exec? then Asked(events, e.client) else None;
            && (e.Set? ==> t.log == s.log + [Wrote(e.key, e.value)])
            && (e.Delete? ==> t.log == s.log + if e.key in s.store then [Deleted(e.key)] else [])
            && (e.Exec? && reply.Returned? ==>
                  asked.Some? && t.log == s.log + [Committed(asked.value.0, asked.value.1, e.client, reply.value)])
            && (e.Watch? || e.Read? || e.Lose? || (e.Exec? && !reply.Returned?) ==> t.log == s.log)
  {
    hide Touch, Asked;
    assert e.Delete? ==> s.log + [] == s.log;
  }

  /** What one event puts in the log: sets and deletes as asked, and a commit of what its client last asked for. */
  lemma EventIsLogged(store: map<Key, Value>, events: seq<Event>, e: Event)
    requires Runs(Start(store), events) && Enabled(After(Start(store), events), e)
    ensures var s := After(Start(store), events);
            var (t, reply) := Step(s, e);
            var asked := if e.Exec? then Asked(events, e.client) else None;
            && (e.Set? ==> t.log == s.log + [Wrote(e.key, e.value)])
            && (e.Delete? ==> t.log == s.log + if e.key in s.store then [Deleted(e.key)] else [])
            && (e.Exec? && reply.Returned? ==>
                  asked.Some? && t.log == s.log + [Committed(asked.value.0, asked.value.1, e.client, reply.value)])
            && (e.Watch? || e.Read? || e.Lose? || (e.Exec? && !reply.Returned?) ==> t.log == s.log)
  {
    hide Step, Touch, After, StoredAsAsked, CallsAsAsked, Asked;
    RunStoresAsked(store, events);
    StepIsLogged(After(Start(store), events), events, e);
  }

  /** A call left alone: incr adds its delta and decr, which asks for the opposite, takes it away. */
  lemma LoneCallCounts(s: State, c: Client, k: Key, n: int, delta: int)
    requires CallOf(s, c).Idle? && Stored(s, k) == Some(Int(n))
    ensures var watched := Step(s, Event.Watch(c, k, delta)).0;
            && Enabled(watched, Event.Read(c))
            && (var read := Step(watched, Event.Read(c)).0;
                && Enabled(read, Event.Exec(c))
                && (var (after, reply) := Step(read, Event.Exec(c));
                    reply == Returned(n + delta) && after.store == s.store[k := Int(n + delta)]))
  {
    hide Touch;
  }

  /** A read ends the call exactly when the key is missing or holds no integer, and says which. */
  lemma ReadEndsExactlyWhen(s: State, c: Client)
    requires CallOf(s, c).Watching?
    ensures var (t, reply) := Step(s, Event.Read(c));
            var k := CallOf(s, c).key;
            && t.store == s.store && t.log == s.log
            && (reply == NotFound <==> k !in s.store)
            && (reply == NotAnInteger <==> k in s.store && s.store[k].Other?)
            && (reply == Pending <==> k in s.store && s.store[k].Int?)
            && CallOf(t, c).Idle? == (reply != Pending)
  {}

  // ---------- the program ----------

  class Cache {
    var store: map<Key, Value>
    var calls: map<Client, Call>
    ghost var log: seq<Effect>
    ghost var since: map<Client, nat>
    ghost const base: map<Key, Value>

    ghost function View(): State
      reads this
    {
      State(store, calls, log, since)
    }

    ghost predicate Valid()
      reads this
    {
      Inv(base, View())
    }

    constructor (store: map<Key, Value>)
      ensures Valid() && View() == Start(store) && base == store
    {
      this.store, calls, log, since, base := store, map[], [], map[], store;
    }

    /** `set` with any timeout but zero */
    method SetValue(key: Key, value: Value)
      requires Valid()
      modifies this
      ensures Valid() && View() == Step(old(View()), Set(key, value)).0
    {
      StepKeepsInv(base, View(), Set(key, value));
      store := store[key := value];
      calls := Touch(calls, key);
      log := log + [Wrote(key, value)];
    }

    /** `delete`, and `set` with a timeout of zero */
    method Remove(key: Key)
      requires Valid()
      modifies this
      ensures Valid() && View() == Step(old(View()), Delete(key)).0
    {
      StepKeepsInv(base, View(), Delete(key));
      if key in store {
        store := store - {key};
        calls := Touch(calls, key);
        log := log + [Deleted(key)];
      }
    }

    /** `incr` up to its watch */
    method Watch(client: Client, key: Key, delta: int)
      requires Valid() && CallOf(View(), client).Idle?
      modifies this
      ensures Valid() && View() == Step(old(View()), Event.Watch(client, key, delta)).0
    {
      StepKeepsInv(base, View(), Event.Watch(client, key, delta));
      calls := calls[client := Watching(key, delta, false)];
      since := since[client := |log|];
    }

    /** `decr` is `incr` of the opposite delta. */
    method WatchDecr(client: Client, key: Key, delta: int)
      requires Valid() && CallOf(View(), client).Idle?
      modifies this
      ensures Valid() && View() == Step(old(View()), Event.Watch(client, key, -delta)).0
    {
      Watch(client, key, -delta);
    }

    /** `incr` from its read to the queued write */
    method Read(client: Client) returns (reply: Reply)
      requires Valid() && CallOf(View(), client).Watching?
      modifies this
      ensures Valid() && (View(), reply) == Step(old(View()), Event.Read(client))
    {
      StepKeepsInv(base, View(), Event.Read(client));
      var call := calls[client];
      if call.key !in store {
        calls := calls[client := Idle];
        return NotFound;
      }
      var value := store[call.key];
      if !value.Int? {
        calls := calls[client := Idle];
        return NotAnInteger;
      }
      calls := calls[client := Queued(call.key, call.delta, value.n, call.dirty)];
      return Pending;
    }

    /** `incr` from its execute to its end */
    method Exec(client: Client) returns (reply: Reply)
      requires Valid() && CallOf(View(), client).Queued?
      modifies this
      ensures Valid() && (View(), reply) == Step(old(View()), Event.Exec(client))
    {
      hide Inv, Touch;
      StepKeepsInv(base, View(), Event.Exec(client));
      var call := calls[client];
      calls := calls[client := Idle];
      if call.dirty {
        return WatchError;
      }
      var sum := call.seen + call.delta;
      store := store[call.key := Int(sum)];
      calls := Touch(calls, call.key);
      log := log + [Committed(call.key, call.delta, client, sum)];
      return Returned(sum);
    }
  }
}
