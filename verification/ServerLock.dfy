/**
 The writer-preferring reader/writer lock that keeps server restarts away from
 live requests (testit/server_lock.py).

 A monitor method runs undisturbed from one wait on the condition to the next, so
 each such stretch is one step. A thread that goes to sleep leaves the monitor; it
 takes its next step when it was notified, when its timeout ran out, or for no
 reason at all. `late` says that no time is left at the moment the guard is tested.
 */
module ServerLock {
  import opened Wrappers

  type Tid = nat

  /** What a thread is doing with the lock; a sleeper records whether it was notified. */
  datatype Status = Idle | AwaitRead(notified: bool) | AwaitWrite(notified: bool)

  datatype Outcome = Acquired | TimedOut | Sleeping

  /**
   The four fields of the lock, what every thread is doing, and one entry per
   outstanding shared hold, tagged with the thread that took it.
   */
  datatype World = World(
    readers: int, writer: bool, writersWaiting: int, writerThread: Option<Tid>,
    status: map<Tid, Status>, holds: multiset<Tid>)

  function StatusOf(w: World, t: Tid): Status {
    if t in w.status then w.status[t] else Idle
  }

  function NotifyAll(status: map<Tid, Status>): map<Tid, Status> {
    map t | t in status ::
      match status[t]
      case Idle => Idle
      case AwaitRead(_) => AwaitRead(true)
      case AwaitWrite(_) => AwaitWrite(true)
  }

  // ---------- the monitor's steps ----------

  predicate ReadBlocked(w: World) {
    w.writer || w.writersWaiting > 0
  }

  predicate WriteBlocked(w: World) {
    w.writer || w.readers > 0
  }

  function TakeRead(w: World, t: Tid): World {
    w.(readers := w.readers + 1, holds := w.holds + multiset{t}, status := w.status[t := Idle])
  }

  /** One pass of the loop in `acquire_read`. */
  function ReadCheck(w: World, t: Tid, late: bool): (World, Outcome) {
    if !ReadBlocked(w) then (TakeRead(w, t), Acquired)
    else if late then (w.(status := w.status[t := Idle]), TimedOut)
    else (w.(status := w.status[t := AwaitRead(false)]), Sleeping)
  }

  function EnterRead(w: World, t: Tid, late: bool): (World, Outcome) {
    if w.writer && w.writerThread == Some(t) then (TakeRead(w, t), Acquired) else ReadCheck(w, t, late)
  }

  /** The `finally` of `acquire_write`. */
  function LeaveWrite(w: World, t: Tid): World {
    w.(writersWaiting := w.writersWaiting - 1, status := NotifyAll(w.status[t := Idle]))
  }

  /** One pass of the loop in `acquire_write`; the thread already counts as waiting. */
  function WriteCheck(w: World, t: Tid, late: bool): (World, Outcome) {
    if !WriteBlocked(w) then (LeaveWrite(w.(writer := true, writerThread := Some(t)), t), Acquired)
    else if late then (LeaveWrite(w, t), TimedOut)
    else (w.(status := w.status[t := AwaitWrite(false)]), Sleeping)
  }

  function EnterWrite(w: World, t: Tid, late: bool): (World, Outcome) {
    WriteCheck(w.(writersWaiting := w.writersWaiting + 1), t, late)
  }

  function ReleaseRead(w: World, owner: Tid): World {
    var left := if w.readers > 0 then w.readers - 1 else w.readers;
    w.(readers := left, holds := w.holds - multiset{owner},
       status := if left == 0 then NotifyAll(w.status) else w.status)
  }

  function ReleaseWrite(w: World): World {
    w.(writer := false, writerThread := None, status := NotifyAll(w.status))
  }

  datatype Action =
    | CallRead(t: Tid, late: bool)
    | WakeRead(t: Tid, late: bool)
    | EndRead(owner: Tid)
    | CallWrite(t: Tid, late: bool)
    | WakeWrite(t: Tid, late: bool)
    | EndWrite(t: Tid)

  /** Sleeping threads only wake; a hold is released only by whoever acquired one. */
  predicate Enabled(w: World, a: Action) {
    match a
    case CallRead(t, _) => StatusOf(w, t).Idle?
    case WakeRead(t, _) => StatusOf(w, t).AwaitRead?
    case EndRead(owner) => owner in w.holds
    case CallWrite(t, _) => StatusOf(w, t).Idle?
    case WakeWrite(t, _) => StatusOf(w, t).AwaitWrite?
    case EndWrite(t) => w.writer && w.writerThread == Some(t) && StatusOf(w, t).Idle?
  }

  function Next(w: World, a: Action): World {
    match a
    case CallRead(t, late) => EnterRead(w, t, late).0
    case WakeRead(t, late) => ReadCheck(w, t, late).0
    case EndRead(owner) => ReleaseRead(w, owner)
    case CallWrite(t, late) => EnterWrite(w, t, late).0
    case WakeWrite(t, late) => WriteCheck(w, t, late).0
    case EndWrite(_) => ReleaseWrite(w)
  }

  // ---------- the invariant ----------

  function WaitingWriters(status: map<Tid, Status>): set<Tid> {
    set t | t in status && status[t].AwaitWrite?
  }

  /** The counters count what they are meant to count. */
  ghost predicate CountsRight(w: World) {
    && w.readers == |w.holds|
    && w.writersWaiting == |WaitingWriters(w.status)|
  }

  /** While a writer holds the lock, every outstanding shared hold is its own. */
  ghost predicate Excludes(w: World) {
    && (w.writer <==> w.writerThread.Some?)
    && (w.writer ==> forall t :: t in w.holds ==> Some(t) == w.writerThread)
  }

  /** A thread asleep and not notified has every reason to be asleep. */
  ghost predicate NoLostWakeup(w: World) {
    && (forall t :: t in w.status && w.status[t] == AwaitRead(false) ==> ReadBlocked(w))
    && (forall t :: t in w.status && w.status[t] == AwaitWrite(false) ==> WriteBlocked(w))
  }

  ghost predicate Inv(w: World) {
    CountsRight(w) && Excludes(w) && NoLostWakeup(w)
  }

  const FRESH := World(0, false, 0, None, map[], multiset{})

  lemma NotifyKeepsWriters(status: map<Tid, Status>)
    ensures WaitingWriters(NotifyAll(status)) == WaitingWriters(status)
  {}

  lemma UpdateWriters(status: map<Tid, Status>, t: Tid, s: Status)
    ensures WaitingWriters(status[t := s]) ==
            if s.AwaitWrite? then WaitingWriters(status) + {t} else WaitingWriters(status) - {t}
  {}

  lemma TakeReadKeepsInv(w: World, t: Tid)
    requires Inv(w) && !StatusOf(w, t).AwaitWrite?
    requires !ReadBlocked(w) || (w.writer && w.writerThread == Some(t))
    ensures Inv(TakeRead(w, t))
  {
    UpdateWriters(w.status, t, Idle);
    assert WaitingWriters(w.status) - {t} == WaitingWriters(w.status);
  }

  /** A read that does not get in only changes what its own thread is doing. */
  lemma RefusedReadKeepsInv(w: World, t: Tid, s: Status)
    requires Inv(w) && !StatusOf(w, t).AwaitWrite? && ReadBlocked(w) && (s == Idle || s == AwaitRead(false))
    ensures Inv(w.(status := w.status[t := s]))
  {
    UpdateWriters(w.status, t, s);
    assert WaitingWriters(w.status) - {t} == WaitingWriters(w.status);
  }

  lemma ReadKeepsInv(w: World, t: Tid, late: bool)
    requires Inv(w) && !StatusOf(w, t).AwaitWrite?
    ensures Inv(ReadCheck(w, t, late).0)
  {
    hide Inv, TakeRead;
    if !ReadBlocked(w) {
      TakeReadKeepsInv(w, t);
    } else {
      RefusedReadKeepsInv(w, t, if late then Idle else AwaitRead(false));
    }
  }

  lemma EndReadKeepsInv(w: World, owner: Tid)
    requires Inv(w) && owner in w.holds
    ensures Inv(ReleaseRead(w, owner))
  {
    NotifyKeepsWriters(w.status);
  }

  /** Leaving `acquire_write` wakes everybody, so nobody can be left asleep wrongly. */
  lemma LeaveWriteKeepsInv(w: World, t: Tid)
    requires w.readers == |w.holds| && Excludes(w)
    requires w.writersWaiting == |WaitingWriters(w.status) + {t}|
    ensures Inv(LeaveWrite(w, t))
  {
    hide NotifyAll;
    UpdateWriters(w.status, t, Idle);
    NotifyKeepsWriters(w.status[t := Idle]);
    AllNotified(w.status[t := Idle]);
    DropOne(WaitingWriters(w.status), t);
  }

  lemma AllNotified(status: map<Tid, Status>)
    ensures forall t :: t in NotifyAll(status) ==>
              NotifyAll(status)[t] != AwaitRead(false) && NotifyAll(status)[t] != AwaitWrite(false)
  {}

  lemma DropOne(s: set<Tid>, t: Tid)
    ensures |s + {t}| == |s - {t}| + 1
  {
    assert s + {t} == (s - {t}) + {t};
  }

  /** The thread being checked counts as waiting, asleep or not. */
  lemma WriteKeepsInv(w: World, t: Tid, late: bool)
    requires w.readers == |w.holds| && Excludes(w) && NoLostWakeup(w)
    requires w.writersWaiting == |WaitingWriters(w.status) + {t}|
    ensures Inv(WriteCheck(w, t, late).0)
  {
    if !WriteBlocked(w) {
      assert w.holds == multiset{};
      LeaveWriteKeepsInv(w.(writer := true, writerThread := Some(t)), t);
    } else if late {
      LeaveWriteKeepsInv(w, t);
    } else {
      UpdateWriters(w.status, t, AwaitWrite(false));
    }
  }

  lemma EndWriteKeepsInv(w: World)
    requires Inv(w)
    ensures Inv(ReleaseWrite(w))
  {
    NotifyKeepsWriters(w.status);
  }

  lemma StepKeepsInv(w: World, a: Action)
    requires Inv(w) && Enabled(w, a)
    ensures Inv(Next(w, a))
  {
    match a
    case CallRead(t, late) =>
      ReadKeepsInv(w, t, late);
      if w.writer && w.writerThread == Some(t) { TakeReadKeepsInv(w, t); }
    case WakeRead(t, late) => ReadKeepsInv(w, t, late);
    case EndRead(owner) => EndReadKeepsInv(w, owner);
    case CallWrite(t, late) =>
      assert t !in WaitingWriters(w.status);
      WriteKeepsInv(w.(writersWaiting := w.writersWaiting + 1), t, late);
    case WakeWrite(t, late) =>
      assert WaitingWriters(w.status) + {t} == WaitingWriters(w.status);
      WriteKeepsInv(w, t, late);
    case EndWrite(t) => EndWriteKeepsInv(w);
  }

  lemma NoHoldsWhenFree(w: World)
    requires CountsRight(w)
    ensures w.readers <= 0 ==> w.holds == multiset{}
  {}

  // ---------- whole runs ----------

  predicate ValidRun(w: World, run: seq<Action>)
    decreases run
  {
    run == [] || (Enabled(w, run[0]) && ValidRun(Next(w, run[0]), run[1..]))
  }

  function Run(w: World, run: seq<Action>): World
    decreases run
  {
    if run == [] then w else Run(Next(w, run[0]), run[1..])
  }

  lemma {:induction false} RunKeepsInv(w: World, run: seq<Action>)
    requires Inv(w) && ValidRun(w, run)
    ensures Inv(Run(w, run))
    decreases run
  {
    hide Inv, Enabled, Next;
    if run != [] {
      StepKeepsInv(w, run[0]);
      RunKeepsInv(Next(w, run[0]), run[1..]);
    }
  }

  /**
   In every reachable state readers are the outstanding holds and waiting writers the
   threads asleep in `acquire_write`; while a thread holds exclusively all shared holds are
   its own; and whoever sleeps without having been notified still has to wait.
   */
  lemma ReachableIsSafe(run: seq<Action>)
    requires ValidRun(FRESH, run)
    ensures var w := Run(FRESH, run);
            && Inv(w)
            && w.readers == |w.holds|
            && w.writersWaiting == |set t | t in w.status && w.status[t].AwaitWrite?|
            && (w.writer <==> w.writerThread.Some?)
            && (w.writer ==> forall t :: t in w.holds ==> w.writerThread == Some(t))
            && (forall t :: t in w.status && w.status[t] == AwaitRead(false) ==>
                  w.writer || exists u :: u in w.status && w.status[u].AwaitWrite?)
            && (forall t :: t in w.status && w.status[t] == AwaitWrite(false) ==> w.writer || w.holds != multiset{})
  {
    assert Inv(FRESH);
    RunKeepsInv(FRESH, run);
    var w := Run(FRESH, run);
    NoneWaits(w);
    assert WaitingWriters(w.status) == set t | t in w.status && w.status[t].AwaitWrite?;
    hide Run;
  }

  // ---------- what each call comes to ----------

  /** Nobody is inside `acquire_write`, waiting. */
  predicate NoWriterWaits(status: map<Tid, Status>) {
    forall t :: t in status ==> !status[t].AwaitWrite?
  }

  /** Every sleeper in `before` is notified in `after`. */
  predicate AllWoken(before: map<Tid, Status>, after: map<Tid, Status>) {
    && after.Keys == before.Keys
    && forall u :: u in before ==>
         after[u] ==
         if before[u].AwaitRead? then AwaitRead(true) else if before[u].AwaitWrite? then AwaitWrite(true) else Idle
  }

  lemma NoneWaits(w: World)
    requires Inv(w)
    ensures w.writersWaiting > 0 <==> !NoWriterWaits(w.status)
    ensures w.readers > 0 <==> w.holds != multiset{}
  {
    forall t | t in w.status && w.status[t].AwaitWrite? ensures t in WaitingWriters(w.status) {}
    if w.writersWaiting > 0 {
      var t :| t in WaitingWriters(w.status);
    } else {
      assert WaitingWriters(w.status) == {};
    }
    NoHoldsWhenFree(w);
  }

  /**
   A shared hold is acquired exactly when the caller holds the lock exclusively, or nobody
   does and no writer waits; after a wait only the latter. Else the call times out exactly
   when no time is left, and sleeps exactly when some is.
   */
  lemma ReadOutcome(w: World, t: Tid, late: bool, resumed: bool)
    requires Inv(w) && (if resumed then StatusOf(w, t).AwaitRead? else StatusOf(w, t).Idle?)
    ensures var (after, outcome) := if resumed then ReadCheck(w, t, late) else EnterRead(w, t, late);
            var open := (!w.writer && NoWriterWaits(w.status)) || (!resumed && w.writer && w.writerThread == Some(t));
            && (outcome == Acquired <==> open)
            && (outcome == TimedOut <==> !open && late)
            && (outcome == Sleeping <==> !open && !late)
            && after.holds == (if open then w.holds + multiset{t} else w.holds) && after.readers == |after.holds|
            && after.writer == w.writer && after.writerThread == w.writerThread
            && after.writersWaiting == w.writersWaiting
            && after.status == w.status[t := if outcome == Sleeping then AwaitRead(false) else Idle]
  {
    NoneWaits(w);
  }

  /**
   The exclusive hold is acquired exactly when nobody holds the lock in any way. Else the
   call times out exactly when no time is left, and sleeps, waiting, exactly when some is.
   Whoever leaves notifies all sleepers.
   */
  lemma WriteOutcome(w: World, t: Tid, late: bool, resumed: bool)
    requires Inv(w) && (if resumed then StatusOf(w, t).AwaitWrite? else StatusOf(w, t).Idle?)
    ensures var (after, outcome) := if resumed then WriteCheck(w, t, late) else EnterWrite(w, t, late);
            var open := !w.writer && w.holds == multiset{};
            && (outcome == Acquired <==> open)
            && (outcome == TimedOut <==> !open && late)
            && (outcome == Sleeping <==> !open && !late)
            && after.holds == w.holds && after.readers == w.readers
            && after.writer == (w.writer || open) && after.writerThread == (if open then Some(t) else w.writerThread)
            && (outcome == Sleeping ==> after.status == w.status[t := AwaitWrite(false)])
            && (outcome != Sleeping ==> AllWoken(w.status[t := Idle], after.status))
            && after.writersWaiting == |WaitingWriters(after.status)|
            && WaitingWriters(after.status) ==
               (WaitingWriters(w.status) - {t}) + if outcome == Sleeping then {t} else {}
  {
    NoneWaits(w);
    var entered := if resumed then w else w.(writersWaiting := w.writersWaiting + 1);
    WriteChecks(entered, t, late);
    StepKeepsInv(w, if resumed then WakeWrite(t, late) else CallWrite(t, late));
    assert Next(w, if resumed then WakeWrite(t, late) else CallWrite(t, late)) == WriteCheck(entered, t, late).0;
    Counts(WriteCheck(entered, t, late).0);
    hide Inv, WaitingWriters, AllWoken, NoWriterWaits, WriteCheck;
  }

  /** One pass of the writer's loop, in the fields alone. */
  lemma WriteChecks(w: World, t: Tid, late: bool)
    ensures var (after, outcome) := WriteCheck(w, t, late);
            var open := !w.writer && w.readers <= 0;
            && outcome == (if open then Acquired else if late then TimedOut else Sleeping)
            && after.holds == w.holds && after.readers == w.readers
            && after.writer == (w.writer || open) && after.writerThread == (if open then Some(t) else w.writerThread)
            && (outcome == Sleeping ==> after.status == w.status[t := AwaitWrite(false)])
            && (outcome != Sleeping ==> AllWoken(w.status[t := Idle], after.status))
            && WaitingWriters(after.status) ==
               (WaitingWriters(w.status) - {t}) + if outcome == Sleeping then {t} else {}
  {
    UpdateWriters(w.status, t, Idle);
    UpdateWriters(w.status, t, AwaitWrite(false));
    NotifyKeepsWriters(w.status[t := Idle]);
    NotifyWakes(w.status[t := Idle]);
    hide WaitingWriters, NotifyAll, AllWoken;
  }

  lemma NotifyWakes(status: map<Tid, Status>)
    ensures AllWoken(status, NotifyAll(status))
  {}

  lemma Counts(w: World)
    requires Inv(w)
    ensures w.writersWaiting == |WaitingWriters(w.status)|
  {}

  /** Giving a hold up takes just that hold; giving up the last one, like the exclusive one, wakes everybody. */
  lemma ReleaseOutcome(w: World, owner: Tid)
    requires Inv(w)
    ensures owner in w.holds ==>
              var after := ReleaseRead(w, owner);
              && after.holds == w.holds - multiset{owner} && after.readers == w.readers - 1
              && after.writer == w.writer && after.writerThread == w.writerThread
              && (if after.readers == 0 then AllWoken(w.status, after.status) else after.status == w.status)
    ensures var after := ReleaseWrite(w);
            && !after.writer && after.writerThread == None && after.holds == w.holds && after.readers == w.readers
            && AllWoken(w.status, after.status)
  {}

  /** Nobody sleeps while the lock is free for them: each such sleeper is notified and would acquire. */
  lemma FreeLockWakesSomeone(w: World, t: Tid, late: bool)
    requires Inv(w) && !WriteBlocked(w)
    ensures StatusOf(w, t).AwaitWrite? ==> StatusOf(w, t).notified && WriteCheck(w, t, late).1 == Acquired
    ensures StatusOf(w, t).AwaitRead? && WaitingWriters(w.status) == {} ==>
              StatusOf(w, t).notified && ReadCheck(w, t, late).1 == Acquired
  {
    NoHoldsWhenFree(w);
  }

  // ---------- writer preference ----------

  /** In every state of the run a writer waits and none holds. */
  predicate Contended(w: World, run: seq<Action>)
    decreases run
  {
    w.writersWaiting > 0 && !w.writer && (run == [] || Contended(Next(w, run[0]), run[1..]))
  }

  function Releases(run: seq<Action>): nat {
    if run == [] then 0 else (if run[0].EndRead? then 1 else 0) + Releases(run[1..])
  }

  lemma ContendedStep(w: World, a: Action)
    requires Inv(w) && Enabled(w, a) && w.writersWaiting > 0 && !w.writer && !Next(w, a).writer
    ensures Next(w, a).readers == w.readers - if a.EndRead? then 1 else 0
  {}

  /**
   While a writer waits nobody else gets in: each shared release brings it one step
   closer, and it may enter exactly when as many releases happened as there were holds.
   */
  lemma {:induction false} WaitingWriterDrainsReaders(w: World, run: seq<Action>)
    requires Inv(w) && ValidRun(w, run) && Contended(w, run)
    ensures Run(w, run).readers == w.readers - Releases(run)
    ensures !WriteBlocked(Run(w, run)) <==> Releases(run) == |w.holds|
    decreases run
  {
    hide Enabled, Next;
    if run != [] {
      ContendedStep(w, run[0]);
      StepKeepsInv(w, run[0]);
      WaitingWriterDrainsReaders(Next(w, run[0]), run[1..]);
    }
  }

  /** A new writer starts with no shared hold outstanding, and keeps everyone but itself out. */
  lemma WriterIsAlone(w: World, t: Tid, a: Action)
    requires Inv(w) && Enabled(w, a) && ((a.CallWrite? || a.WakeWrite?) && a.t == t)
    requires Next(w, a).writer && !w.writer
    ensures Next(w, a).holds == multiset{} && Next(w, a).writerThread == Some(t)
    ensures forall u, late :: u != t ==> EnterRead(Next(w, a), u, late).1 != Acquired
                                         && EnterWrite(Next(w, a), u, late).1 != Acquired
    ensures forall late :: EnterRead(Next(w, a), t, late).1 == Acquired
  {
    NoHoldsWhenFree(w);
  }

  // ---------- the lock object ----------

  class ServerRestartLock {
    var readers: int
    var writer: bool
    var writersWaiting: int
    var writerThread: Option<Tid>
    ghost var status: map<Tid, Status>
    ghost var holds: multiset<Tid>

    ghost function View(): World
      reads this
    {
      World(readers, writer, writersWaiting, writerThread, status, holds)
    }

    constructor ()
      ensures View() == FRESH && Inv(View())
    {
      readers, writer, writersWaiting, writerThread := 0, false, 0, None;
      status, holds := map[], multiset{};
    }

    /** The loop body of `acquire_read`, from entry or wake-up to return or sleep. */
    method CheckRead(t: Tid, late: bool) returns (outcome: Outcome)
      modifies this
      ensures (View(), outcome) == ReadCheck(old(View()), t, late)
    {
      if writer || writersWaiting > 0 {
        if late {
          status := status[t := Idle];
          return TimedOut;
        }
        status := status[t := AwaitRead(false)];
        return Sleeping;
      }
      readers := readers + 1;
      status, holds := status[t := Idle], holds + multiset{t};
      return Acquired;
    }

    /** `acquire_read`, up to its first wait. */
    method AcquireRead(t: Tid, late: bool) returns (outcome: Outcome)
      requires Inv(View()) && Enabled(View(), CallRead(t, late))
      modifies this
      ensures (View(), outcome) == EnterRead(old(View()), t, late) && Inv(View())
      ensures var open := (!old(writer) && NoWriterWaits(old(status))) || (old(writer) && old(writerThread) == Some(t));
              outcome == if open then Acquired else if late then TimedOut else Sleeping
    {
      ghost var was := View();
      ReadOutcome(was, t, late, false);
      if writer && writerThread == Some(t) {
        readers := readers + 1;
        status, holds := status[t := Idle], holds + multiset{t};
        outcome := Acquired;
      } else {
        outcome := CheckRead(t, late);
      }
      StepKeepsInv(was, CallRead(t, late));
    }

    /** `acquire_read`, after a wait. */
    method ResumeRead(t: Tid, late: bool) returns (outcome: Outcome)
      requires Inv(View()) && Enabled(View(), WakeRead(t, late))
      modifies this
      ensures (View(), outcome) == ReadCheck(old(View()), t, late) && Inv(View())
      ensures var open := !old(writer) && NoWriterWaits(old(status));
              outcome == if open then Acquired else if late then TimedOut else Sleeping
    {
      ReadOutcome(View(), t, late, true);
      StepKeepsInv(View(), WakeRead(t, late));
      outcome := CheckRead(t, late);
    }

    method EndRead(ghost owner: Tid)
      requires Inv(View()) && Enabled(View(), Action.EndRead(owner))
      modifies this
      ensures View() == ReleaseRead(old(View()), owner) && Inv(View())
    {
      hide Inv, NotifyAll;
      EndReadKeepsInv(View(), owner);
      if readers > 0 {
        readers := readers - 1;
      }
      holds := holds - multiset{owner};
      if readers == 0 {
        status := NotifyAll(status);
      }
    }

    /** The loop body and the `finally` of `acquire_write`. */
    method CheckWrite(t: Tid, late: bool) returns (outcome: Outcome)
      modifies this
      ensures (View(), outcome) == WriteCheck(old(View()), t, late)
    {
      if writer || readers > 0 {
        if !late {
          status := status[t := AwaitWrite(false)];
          return Sleeping;
        }
        outcome := TimedOut;
      } else {
        writer, writerThread := true, Some(t);
        outcome := Acquired;
      }
      writersWaiting := writersWaiting - 1;
      status := NotifyAll(status[t := Idle]);
    }

    /** `acquire_write`, up to its first wait. */
    method AcquireWrite(t: Tid, late: bool) returns (outcome: Outcome)
      requires Inv(View()) && Enabled(View(), CallWrite(t, late))
      modifies this
      ensures (View(), outcome) == EnterWrite(old(View()), t, late) && Inv(View())
      ensures var open := !old(writer) && old(holds) == multiset{};
              outcome == if open then Acquired else if late then TimedOut else Sleeping
    {
      WriteOutcome(View(), t, late, false);
      StepKeepsInv(View(), CallWrite(t, late));
      writersWaiting := writersWaiting + 1;
      outcome := CheckWrite(t, late);
    }

    /** `acquire_write`, after a wait. */
    method ResumeWrite(t: Tid, late: bool) returns (outcome: Outcome)
      requires Inv(View()) && Enabled(View(), WakeWrite(t, late))
      modifies this
      ensures (View(), outcome) == WriteCheck(old(View()), t, late) && Inv(View())
      ensures var open := !old(writer) && old(holds) == multiset{};
              outcome == if open then Acquired else if late then TimedOut else Sleeping
    {
      WriteOutcome(View(), t, late, true);
      StepKeepsInv(View(), WakeWrite(t, late));
      outcome := CheckWrite(t, late);
    }

    method EndWrite(ghost t: Tid)
      requires Inv(View()) && Enabled(View(), Action.EndWrite(t))
      modifies this
      ensures View() == ReleaseWrite(old(View())) && Inv(View())
    {
      StepKeepsInv(View(), Action.EndWrite(t));
      writer, writerThread := false, None;
      status := NotifyAll(status);
    }

    /** `exclusive` around an empty body: what was not acquired is not released. */
    method LeaveExclusive(t: Tid, acquired: bool)
      requires Inv(View()) && (acquired ==> Enabled(View(), Action.EndWrite(t)))
      modifies this
      ensures View() == if acquired then ReleaseWrite(old(View())) else old(View())
      ensures Inv(View())
    {
      if acquired {
        EndWrite(t);
      }
    }
  }
}
