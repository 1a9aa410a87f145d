/**
 Per-checkout test slots and Redis ownership stamps (testit/testenv.py,
 bin/testit.py).

 A registry gives each checkout a Redis index and a port; a stamp inside each Redis
 database backs the registry up. Checkouts are named by their real paths. Each
 operation holds the registry lock, or talks to one Redis database, so it is one
 step; claiming, flushing and stamping an index before a suite is one step too.
 */
module SlotAllocator {
  import opened Wrappers

  type Root = string

  const REDIS_FIRST_INDEX := 1
  const PORT_BASE := 5600
  const PORT_RANGE := 100

  datatype Slot = Slot(base: string, index: int, port: int)

  type Registry = map<Root, Slot>

  /** What asking a Redis database for its owner gives. */
  datatype Probe = Owner(root: Option<Root>) | Unreachable(refused: bool)

  datatype Error = NoBaseName | Exhausted | RedisUnreachable | NoFreePort

  /** Only a stamp of another checkout that still exists keeps an index from `root`. */
  predicate FreeFor(owner: Option<Root>, root: Root, dirs: set<Root>) {
    owner.None? || owner.value == root || owner.value !in dirs
  }

  // ---------- picking ----------

  predicate Offers(probe: Probe, root: Root, dirs: set<Root>) {
    probe.Owner? && FreeFor(probe.root, root, dirs)
  }

  predicate IsCandidate(index: int, taken: set<int>, limit: int) {
    REDIS_FIRST_INDEX <= index < limit && index !in taken
  }

  /** `_pick_redis_index`: the first untaken index whose stamp lets `root` have it. */
  method PickRedisIndex(taken: set<int>, limit: int, root: Root, probe: int -> Probe, dirs: set<Root>)
    returns (r: Result<int, Error>)
    ensures r.Ok? ==>
              && IsCandidate(r.value, taken, limit) && Offers(probe(r.value), root, dirs)
              && forall i :: IsCandidate(i, taken, r.value) ==>
                   !Offers(probe(i), root, dirs) && !(probe(i).Unreachable? && probe(i).refused)
    ensures r == Err(Exhausted) ==>
              forall i :: IsCandidate(i, taken, limit) ==> probe(i).Owner? && !FreeFor(probe(i).root, root, dirs)
    ensures r == Err(RedisUnreachable) ==>
              exists i ::
                && IsCandidate(i, taken, limit) && probe(i).Unreachable?
                && (probe(i).refused || forall j :: IsCandidate(j, taken, limit) ==> !Offers(probe(j), root, dirs))
    ensures r.Err? ==> r.error == Exhausted || r.error == RedisUnreachable
  {
    var unreachable: Option<int> := None;
    var index := REDIS_FIRST_INDEX;
    while index < limit
      invariant REDIS_FIRST_INDEX <= index
      invariant forall i :: IsCandidate(i, taken, limit) && i < index ==>
                  !Offers(probe(i), root, dirs) && (unreachable.None? ==> probe(i).Owner?)
                  && !(probe(i).Unreachable? && probe(i).refused)
      invariant unreachable.Some? ==>
                  IsCandidate(unreachable.value, taken, limit) && probe(unreachable.value).Unreachable?
    {
      if index !in taken {
        var answer := probe(index);
        if answer.Unreachable? {
          if answer.refused {
            return Err(RedisUnreachable);
          }
          unreachable := Some(index);
        } else if FreeFor(answer.root, root, dirs) {
          return Ok(index);
        }
      }
      index := index + 1;
    }
    r := Err(if unreachable.Some? then RedisUnreachable else Exhausted);
  }

  /** `_pick_port`: the first untaken port that can be bound. */
  method PickPort(taken: set<int>, bindable: int -> bool) returns (r: Result<int, Error>)
    ensures r.Ok? ==>
              && PORT_BASE <= r.value < PORT_BASE + PORT_RANGE && r.value !in taken && bindable(r.value)
              && forall p :: PORT_BASE <= p < r.value && p !in taken ==> !bindable(p)
    ensures r.Err? ==>
              && r.error == NoFreePort
              && forall p :: PORT_BASE <= p < PORT_BASE + PORT_RANGE && p !in taken ==> !bindable(p)
  {
    for port := PORT_BASE to PORT_BASE + PORT_RANGE
      invariant forall p :: PORT_BASE <= p < port && p !in taken ==> !bindable(p)
    {
      if port !in taken && bindable(port) {
        return Ok(port);
      }
    }
    r := Err(NoFreePort);
  }

  function TakenIndexes(reg: Registry): set<int> {
    set root | root in reg :: reg[root].index
  }

  function TakenPorts(reg: Registry): set<int> {
    set root | root in reg :: reg[root].port
  }

  // ---------- the system ----------

  /**
   The registry, the stamps by index, the checkouts on disk, and who flushed what, in
   order; no allocation is made with a limit above `ceiling`.
   */
  datatype System = System(
    registry: Registry,
    stamps: map<int, Root>,
    dirs: set<Root>,
    flushes: seq<(Root, int)>,
    ceiling: int)

  function Stamp(s: System, index: int): Option<Root> {
    if index in s.stamps then Some(s.stamps[index]) else None
  }

  datatype Action =
    /** A fresh allocation recorded for `root`. */
    | Allocate(root: Root, slot: Slot)
    | Release(root: Root)
    | Prune
    /** The registry file is lost, truncated or unreadable. */
    | LoseRegistry
    /** A suite of `root` runs against an index: it flushes only if it may claim it. */
    | RunSuite(root: Root, index: int)
    | AddCheckout(root: Root)
    | DeleteCheckout(root: Root)

  /** `claim_redis_index`, with Redis answering. */
  predicate MayClaim(s: System, root: Root, index: int) {
    index >= REDIS_FIRST_INDEX && FreeFor(Stamp(s, index), root, s.dirs)
  }

  /** What `allocate` checks before it records a slot; probes are on and answer. */
  predicate Enabled(s: System, a: Action) {
    match a
    case Allocate(root, slot) =>
      && root !in s.registry
      && REDIS_FIRST_INDEX <= slot.index < s.ceiling && slot.index !in TakenIndexes(s.registry)
      && FreeFor(Stamp(s, slot.index), root, s.dirs)
      && PORT_BASE <= slot.port < PORT_BASE + PORT_RANGE && slot.port !in TakenPorts(s.registry)
    case _ => true
  }

  function Next(s: System, a: Action): System {
    match a
    case Allocate(root, slot) => s.(registry := s.registry[root := slot])
    case Release(root) => s.(registry := s.registry - {root})
    case Prune => s.(registry := map root | root in s.registry && root in s.dirs :: s.registry[root])
    case LoseRegistry => s.(registry := map[])
    case RunSuite(root, index) =>
      if !MayClaim(s, root, index) then s
      else s.(stamps := s.stamps[index := root], flushes := s.flushes + [(root, index)])
    case AddCheckout(root) => s.(dirs := s.dirs + {root})
    case DeleteCheckout(root) => s.(dirs := s.dirs - {root})
  }

  /** No two checkouts share an index or a port, and every slot lies in its range. */
  ghost predicate Apart(reg: Registry, ceiling: int) {
    && (forall a, b :: a in reg && b in reg && a != b ==> reg[a].index != reg[b].index && reg[a].port != reg[b].port)
    && (forall a :: a in reg ==>
          && REDIS_FIRST_INDEX <= reg[a].index < ceiling
          && PORT_BASE <= reg[a].port < PORT_BASE + PORT_RANGE)
  }

  lemma StepKeepsApart(s: System, a: Action)
    requires Apart(s.registry, s.ceiling) && Enabled(s, a)
    ensures Apart(Next(s, a).registry, s.ceiling)
  {
    if a.Allocate? {
      forall r | r in s.registry ensures s.registry[r].index != a.slot.index && s.registry[r].port != a.slot.port {
        assert s.registry[r].index in TakenIndexes(s.registry) && s.registry[r].port in TakenPorts(s.registry);
      }
    }
  }

  /** What each step leaves of the registry, record by record; a removed record's index and port are free again. */
  lemma RegistryAfter(s: System, a: Action, root: Root)
    requires Apart(s.registry, s.ceiling) && Enabled(s, a)
    ensures var after := Next(s, a).registry;
            var kept := root in s.registry && root in after && after[root] == s.registry[root];
            match a
            case Allocate(r, slot) =>
              if root == r then root in after && after[root] == slot
              else (root in s.registry <==> kept) && (root in after <==> kept)
            case Release(r) =>
              if root == r then root !in after else (root in s.registry <==> kept) && (root in after <==> kept)
            case Prune => (root in after <==> kept) && (kept <==> root in s.registry && root in s.dirs)
            case LoseRegistry => root !in after
            case _ => after == s.registry
    ensures var after := Next(s, a).registry;
            root in s.registry && root !in after ==>
              s.registry[root].index !in TakenIndexes(after) && s.registry[root].port !in TakenPorts(after)
  {}

  /** An index may be claimed exactly when it is the bench's own to give and no other living checkout stamped it. */
  lemma ClaimedExactlyWhen(s: System, root: Root, index: int)
    ensures MayClaim(s, root, index) <==>
              index >= 1 && !(index in s.stamps && s.stamps[index] != root && s.stamps[index] in s.dirs)
    ensures FreeFor(Stamp(s, index), root, s.dirs) <==>
              !(index in s.stamps && s.stamps[index] != root && s.stamps[index] in s.dirs)
    ensures var t := Next(s, RunSuite(root, index));
            if MayClaim(s, root, index)
            then t == s.(stamps := s.stamps[index := root], flushes := s.flushes + [(root, index)]) else t == s
  {}

  predicate ValidRun(s: System, run: seq<Action>)
    decreases run
  {
    run == [] || (Enabled(s, run[0]) && ValidRun(Next(s, run[0]), run[1..]))
  }

  function Run(s: System, run: seq<Action>): System
    decreases run
  {
    if run == [] then s else Run(Next(s, run[0]), run[1..])
  }

  /** What takes a record away. */
  predicate Removes(s: System, a: Action, root: Root) {
    a == Release(root) || a.LoseRegistry? || (a.Prune? && root !in s.dirs)
  }

  predicate NeverRemoved(s: System, run: seq<Action>, root: Root)
    decreases run
  {
    run == [] || (!Removes(s, run[0], root) && NeverRemoved(Next(s, run[0]), run[1..], root))
  }

  /** Over any run slots stay apart, and a record stays as it is until something removes it. */
  lemma {:induction false} RunKeepsSlots(s: System, run: seq<Action>, root: Root)
    requires Apart(s.registry, s.ceiling) && ValidRun(s, run)
    ensures Apart(Run(s, run).registry, s.ceiling)
    ensures root in s.registry && NeverRemoved(s, run, root) ==>
              root in Run(s, run).registry && Run(s, run).registry[root] == s.registry[root]
    decreases run
  {
    if run != [] {
      StepKeepsApart(s, run[0]);
      RunKeepsSlots(Next(s, run[0]), run[1..], root);
    }
  }

  // ---------- what the stamp protects ----------

  /** The checkout is never deleted during the run. */
  predicate Survives(run: seq<Action>, owner: Root) {
    forall i :: 0 <= i < |run| ==> run[i] != DeleteCheckout(owner)
  }

  /** No step of the run gives the index to anybody but `owner`, by allocation or by a flush. */
  predicate LeftAlone(s: System, run: seq<Action>, index: int, owner: Root)
    decreases run
  {
    run == [] ||
    ( && (run[0].Allocate? && run[0].slot.index == index ==> run[0].root == owner)
      && (forall f :: f in Next(s, run[0]).flushes[|s.flushes|..] && f.1 == index ==> f.0 == owner)
      && LeftAlone(Next(s, run[0]), run[1..], index, owner))
  }

  /**
   Once a living checkout has stamped an index, no run, lost registries included,
   allocates it to another, flushes it for another, or takes the stamp off.
   */
  lemma {:induction false} StampProtects(s: System, run: seq<Action>, index: int, owner: Root)
    requires ValidRun(s, run) && Survives(run, owner)
    requires Stamp(s, index) == Some(owner) && owner in s.dirs
    ensures LeftAlone(s, run, index, owner)
    ensures Stamp(Run(s, run), index) == Some(owner) && owner in Run(s, run).dirs
    decreases run
  {
    if run != [] {
      assert run[0] != DeleteCheckout(owner);
      assert Survives(run[1..], owner) by {
        forall i | 0 <= i < |run[1..]| ensures run[1..][i] != DeleteCheckout(owner) {
          assert run[1..][i] == run[i + 1];
        }
      }
      StampProtects(Next(s, run[0]), run[1..], index, owner);
    }
  }

  /** A suite that ran leaves its own stamp, so the guarantee starts there. */
  lemma SuiteIsProtected(s: System, run: seq<Action>, index: int, owner: Root)
    requires MayClaim(s, owner, index) && owner in s.dirs && Survives(run, owner)
    requires ValidRun(Next(s, RunSuite(owner, index)), run)
    ensures LeftAlone(Next(s, RunSuite(owner, index)), run, index, owner)
  {
    StampProtects(Next(s, RunSuite(owner, index)), run, index, owner);
  }

  /** Without a stamp the lost registry is real: the index goes to another checkout, which may flush it. */
  lemma UnstampedIsUnprotected(s: System, slot: Slot, other: Root, index: int)
    requires Stamp(s, index).None? && REDIS_FIRST_INDEX <= index < s.ceiling && slot.index == index
    requires PORT_BASE <= slot.port < PORT_BASE + PORT_RANGE
    ensures ValidRun(s, [LoseRegistry, Allocate(other, slot), RunSuite(other, index)])
    ensures Run(s, [LoseRegistry, Allocate(other, slot), RunSuite(other, index)]).flushes
              == s.flushes + [(other, index)]
  {
    var run := [LoseRegistry, Allocate(other, slot), RunSuite(other, index)];
    var s1 := Next(s, run[0]);
    var s2 := Next(s1, run[1]);
    assert run[1..] == [run[1], run[2]] && run[1..][1..] == [run[2]] && [run[2]][1..] == [];
    assert Run(s2, [run[2]]) == Run(Next(s2, run[2]), []);
    assert ValidRun(s2, [run[2]]);
    assert ValidRun(s1, run[1..]) && Run(s1, run[1..]) == Run(s2, [run[2]]);
  }

  // ---------- the operations ----------

  class Bench {
    var registry: Registry
    var stamps: map<int, Root>
    var dirs: set<Root>
    ghost var flushes: seq<(Root, int)>
    ghost const ceiling: int

    ghost function View(): System
      reads this
    {
      System(registry, stamps, dirs, flushes, ceiling)
    }

    constructor (ghost ceiling: int)
      ensures View() == System(map[], map[], {}, [], ceiling) && Apart(registry, ceiling)
    {
      registry, stamps, dirs, flushes, this.ceiling := map[], map[], {}, [], ceiling;
    }

    /** `allocate`: idempotent for a root on record; otherwise a fresh slot or no change at all. */
    method Allocate(root: Root, base: string, limit: int, probe: int -> Probe, bindable: int -> bool)
      returns (r: Result<Slot, Error>)
      requires Apart(registry, ceiling) && limit <= ceiling
      requires forall i :: probe(i).Owner? ==> probe(i).root == Stamp(View(), i)
      modifies `registry
      ensures Apart(registry, ceiling)
      ensures base == "" ==> r == Err(NoBaseName) && View() == old(View())
      ensures base != "" && root in old(registry) ==> r == Ok(old(registry)[root]) && View() == old(View())
      ensures base != "" && root !in old(registry) && r.Ok? ==>
                && Enabled(old(View()), Action.Allocate(root, r.value)) && r.value.index < limit && r.value.base == base
                && 5600 <= r.value.port < 5700 && bindable(r.value.port)
                && View() == Next(old(View()), Action.Allocate(root, r.value))
      ensures r.Err? ==> View() == old(View())
      ensures base != "" && root !in old(registry) && r.Ok? ==>
                forall i :: 1 <= i < r.value.index && i !in TakenIndexes(old(registry)) && probe(i).Owner? ==>
                  i in stamps && stamps[i] != root && stamps[i] in dirs
      ensures r == Err(Exhausted) ==>
                forall i :: 1 <= i < limit && i !in TakenIndexes(old(registry)) ==>
                  i in stamps && stamps[i] != root && stamps[i] in dirs
    {
      if base == "" {
        return Err(NoBaseName);
      }
      if root in registry {
        return Ok(registry[root]);
      }
      var index := PickRedisIndex(TakenIndexes(registry), limit, root, probe, dirs);
      forall i | 1 <= i < limit && i !in TakenIndexes(registry)
        ensures IsCandidate(i, TakenIndexes(registry), limit)
        ensures index.Ok? && i < index.value ==> IsCandidate(i, TakenIndexes(registry), index.value)
      {}
      if index.Err? {
        return Err(index.error);
      }
      var port := PickPort(TakenPorts(registry), bindable);
      if port.Err? {
        return Err(port.error);
      }
      var slot := Slot(base, index.value, port.value);
      StepKeepsApart(View(), Action.Allocate(root, slot));
      registry := registry[root := slot];
      return Ok(slot);
    }

    /** `release` */
    method Release(root: Root) returns (removed: bool)
      modifies `registry
      ensures View() == Next(old(View()), Action.Release(root)) && (removed <==> root in old(registry))
      ensures Apart(old(registry), ceiling) ==> Apart(registry, ceiling)
    {
      removed := root in registry;
      registry := registry - {root};
    }

    /** `prune`: drop the records of checkouts that are gone, and return exactly those. */
    method Prune() returns (gone: map<Root, Slot>)
      modifies `registry
      ensures View() == Next(old(View()), Action.Prune)
      ensures gone == map root | root in old(registry) && root !in dirs :: old(registry)[root]
      ensures Apart(old(registry), ceiling) ==> Apart(registry, ceiling)
    {
      ghost var was := registry;
      var left := registry;
      var todo := registry.Keys;
      gone := map[];
      while todo != {}
        invariant todo <= was.Keys
        invariant left == map root | root in was && (root in dirs || root in todo) :: was[root]
        invariant gone == map root | root in was && root !in dirs && root !in todo :: was[root]
        decreases todo
      {
        var path :| path in todo;
        if path !in dirs {
          gone := gone[path := left[path]];
          left := left - {path};
        }
        todo := todo - {path};
      }
      registry := left;
    }

    /** The part of bin/testit.py before a suite: claim the index and, unless continuing, flush and stamp it. */
    method RunSuite(root: Root, index: int, continuing: bool) returns (refused: bool)
      modifies `stamps, `flushes
      ensures View() == if continuing then old(View()) else Next(old(View()), Action.RunSuite(root, index))
      ensures refused <==> !MayClaim(old(View()), root, index)
    {
      if index < REDIS_FIRST_INDEX {
        return true;
      }
      var owner := if index in stamps then Some(stamps[index]) else None;
      if owner.Some? && owner.value != root && owner.value in dirs {
        return true;
      }
      if continuing {
        return false;
      }
      flushes := flushes + [(root, index)];
      stamps := stamps - {index};
      stamps := stamps[index := root];
      return false;
    }
  }
}
