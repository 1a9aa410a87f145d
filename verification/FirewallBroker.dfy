/**
 The semantic firewall broker (mojo/deploy/firewall_broker.py): requests become
 ipset programs and iptables calls, run here by a small interpreter.

 The kernel state is a map of hash:net sets and the INPUT rules that drop by set,
 in order. A rule refers to a set by name, so it follows a swap.
 */
module FirewallBroker {
  import opened Wrappers

  type Nets = set<string>

  datatype Kernel = Kernel(sets: map<string, Nets>, rules: seq<string>)

  datatype Command =
    | Create(name: string)
    | Flush(name: string)
    | Add(name: string, net: string, exist: bool)
    | Del(name: string, net: string)
    | Swap(name: string, other: string)
    | Destroy(name: string)
    | InsertRule(name: string)
    | DeleteRule(name: string)

  datatype ToolError = Missing | Unstorable | Duplicate | Full | InUse

  /** How many networks a hash:net set holds when its creation does not say. */
  const MAX_ELEM: nat := 65536

  /** A hash:net set whose creation names no family holds IPv4 networks, and no prefix of length zero. */
  predicate IsStorable(net: string) {
    ':' !in net && !(|net| >= 2 && net[|net| - 2..] == "/0")
  }

  function RemoveFirst(rules: seq<string>, name: string): seq<string> {
    if rules == [] then [] else if rules[0] == name then rules[1..] else [rules[0]] + RemoveFirst(rules[1..], name)
  }

  /**
   One ipset or iptables command; create and del are always issued with -exist, and
   deleting an absent rule changes nothing.
   */
  function Exec(k: Kernel, c: Command): Result<Kernel, ToolError> {
    match c
    case Create(n) => Ok(if n in k.sets then k else k.(sets := k.sets[n := {}]))
    case Flush(n) => if n !in k.sets then Err(Missing) else Ok(k.(sets := k.sets[n := {}]))
    case Add(n, x, exist) =>
      if n !in k.sets then Err(Missing)
      else if !IsStorable(x) then Err(Unstorable)
      else if x in k.sets[n] && !exist then Err(Duplicate)
      else if x !in k.sets[n] && |k.sets[n]| >= MAX_ELEM then Err(Full)
      else Ok(k.(sets := k.sets[n := k.sets[n] + {x}]))
    case Del(n, x) =>
      if n !in k.sets then Err(Missing)
      else if !IsStorable(x) then Err(Unstorable)
      else Ok(k.(sets := k.sets[n := k.sets[n] - {x}]))
    case Swap(a, b) =>
      if a !in k.sets || b !in k.sets then Err(Missing)
      else Ok(k.(sets := k.sets[a := k.sets[b]][b := k.sets[a]]))
    case Destroy(n) =>
      if n !in k.sets then Err(Missing)
      else if n in k.rules then Err(InUse)
      else Ok(k.(sets := k.sets - {n}))
    case InsertRule(n) => if n !in k.sets then Err(Missing) else Ok(k.(rules := [n] + k.rules))
    case DeleteRule(n) => if n !in k.sets then Err(Missing) else Ok(k.(rules := RemoveFirst(k.rules, n)))
  }

  /** `ipset restore`: commands in order, stopping at the first error. */
  function RunProgram(k: Kernel, program: seq<Command>): (Kernel, bool)
    decreases |program|
  {
    if program == [] then (k, true)
    else
      match Exec(k, program[0])
      case Ok(k') => RunProgram(k', program[1..])
      case Err(_) => (k, false)
  }

  lemma {:induction false} RunAppend(k: Kernel, a: seq<Command>, b: seq<Command>)
    ensures RunProgram(k, a + b) == if RunProgram(k, a).1 then RunProgram(RunProgram(k, a).0, b) else RunProgram(k, a)
    decreases |a|
  {
    if a == [] {
      assert a + b == b;
    } else {
      assert (a + b)[0] == a[0] && (a + b)[1..] == a[1..] + b;
      if Exec(k, a[0]).Ok? { RunAppend(Exec(k, a[0]).value, a[1..], b); }
    }
  }

  lemma RunOne(k: Kernel, c: Command)
    ensures RunProgram(k, [c]) == match Exec(k, c) case Ok(k') => (k', true) case Err(_) => (k, false)
  {
    assert [c][1..] == [];
  }

  /** A program that ran i commands goes on with the next. */
  lemma RunNext(k: Kernel, p: seq<Command>, i: nat, k1: Kernel)
    requires i < |p| && RunProgram(k, p[..i]) == (k1, true)
    ensures RunProgram(k, p[..i + 1]) == match Exec(k1, p[i]) case Ok(k') => (k', true) case Err(_) => (k1, false)
  {
    hide Exec, RunProgram;
    assert p[..i + 1] == p[..i] + [p[i]];
    RunAppend(k, p[..i], [p[i]]);
    RunOne(k1, p[i]);
  }

  /** A program that failed stays where it was. */
  lemma RunStays(k: Kernel, p: seq<Command>, i: nat, n: nat)
    requires i <= n <= |p| && !RunProgram(k, p[..i]).1
    ensures RunProgram(k, p[..n]) == RunProgram(k, p[..i])
  {
    hide RunProgram;
    assert p[..n] == p[..i] + p[i..n];
    RunAppend(k, p[..i], p[i..n]);
  }

  // ---------- building the replace program ----------

  const MAX_CIDRS := 250000
  const MAX_RESTORE_BYTES := 24 * 1024 * 1024
  const MAX_SET_NAME := 31

  predicate NameChar(c: char) {
    'A' <= c <= 'Z' || 'a' <= c <= 'z' || '0' <= c <= '9' || c == '_' || c == '-'
  }

  /** `_set_name` */
  predicate ValidName(name: string, temporary: bool) {
    && 1 <= |name| <= MAX_SET_NAME && (forall i :: 0 <= i < |name| ==> NameChar(name[i]))
    && (temporary ==> |name| + 4 <= MAX_SET_NAME)
  }

  function Temp(name: string): string {
    name + "_tmp"
  }

  predicate LexLess(a: string, b: string) {
    b != "" && (a == "" || a[0] < b[0] || (a[0] == b[0] && LexLess(a[1..], b[1..])))
  }

  /** The order of the first character that differs, or the proper prefix first. */
  lemma {:induction false} LexLessExactlyWhen(a: string, b: string)
    ensures LexLess(a, b) <==>
            exists i :: 0 <= i < |b| && i <= |a| && a[..i] == b[..i] && (i == |a| || a[i] < b[i])
  {
    if a != "" && b != "" && a[0] == b[0] {
      LexLessExactlyWhen(a[1..], b[1..]);
      if LexLess(a[1..], b[1..]) {
        var a', b' := a[1..], b[1..];
        var i :| 0 <= i < |b'| && i <= |a'| && a'[..i] == b'[..i] && (i == |a'| || a'[i] < b'[i]);
        assert a[..i + 1] == [a[0]] + a[1..][..i] && b[..i + 1] == [b[0]] + b[1..][..i];
      }
      if exists i :: 0 <= i < |b| && i <= |a| && a[..i] == b[..i] && (i == |a| || a[i] < b[i]) {
        var i :| 0 <= i < |b| && i <= |a| && a[..i] == b[..i] && (i == |a| || a[i] < b[i]);
        assert i > 0;
        assert a[1..][..i - 1] == a[..i][1..] && b[1..][..i - 1] == b[..i][1..];
      }
    } else if b != "" {
      assert a[..0] == b[..0];
      forall i | 0 < i < |b| && i <= |a| ensures a[..i] != b[..i] {
        assert a[..i][0] == a[0] && b[..i][0] == b[0];
      }
    }
  }

  function Insert(x: string, s: seq<string>): seq<string> {
    if s == [] || LexLess(x, s[0]) then [x] + s
    else if x == s[0] then s
    else [s[0]] + Insert(x, s[1..])
  }

  function ToSet(s: seq<string>): Nets {
    set x | x in s
  }

  predicate Sorted(s: seq<string>) {
    forall i, j :: 0 <= i < j < |s| ==> LexLess(s[i], s[j])
  }

  lemma {:induction false} LexTransitive(a: string, b: string, c: string)
    requires LexLess(a, b) && LexLess(b, c)
    ensures LexLess(a, c)
  {
    if a != "" && a[0] == b[0] && b[0] == c[0] { LexTransitive(a[1..], b[1..], c[1..]); }
  }

  lemma {:induction false} LexTotal(a: string, b: string)
    ensures a == b || LexLess(a, b) || LexLess(b, a)
    ensures !LexLess(a, a)
  {
    if a != "" {
      LexTotal(a[1..], a[1..]);
      if b != "" && a[0] == b[0] {
        LexTotal(a[1..], b[1..]);
        assert a == [a[0]] + a[1..] && b == [b[0]] + b[1..];
      }
    }
  }

  lemma ToSetCons(x: string, s: seq<string>)
    ensures ToSet([x] + s) == {x} + ToSet(s)
  {
    forall y | y in ToSet(s) ensures y in [x] + s {
      var i :| 0 <= i < |s| && s[i] == y;
      assert ([x] + s)[i + 1] == y;
    }
    assert ([x] + s)[0] == x;
  }

  lemma SortedCons(x: string, s: seq<string>)
    requires Sorted(s) && forall y :: y in s ==> LexLess(x, y)
    ensures Sorted([x] + s)
  {
    hide LexLess;
  }

  lemma {:induction false} InsertSet(x: string, s: seq<string>)
    ensures ToSet(Insert(x, s)) == ToSet(s) + {x}
  {
    hide LexLess, ToSet;
    ToSetCons(x, s);
    if s != [] && !LexLess(x, s[0]) {
      assert s == [s[0]] + s[1..];
      ToSetCons(s[0], s[1..]);
      if x != s[0] {
        InsertSet(x, s[1..]);
        ToSetCons(s[0], Insert(x, s[1..]));
      }
    }
  }

  lemma {:induction false} InsertSorts(x: string, s: seq<string>)
    requires Sorted(s)
    ensures Sorted(Insert(x, s)) && ToSet(Insert(x, s)) == ToSet(s) + {x}
  {
    hide LexLess;
    InsertSet(x, s);
    if s == [] {
    } else if LexLess(x, s[0]) {
      forall y | y in s ensures LexLess(x, y) {
        if y != s[0] { LexTransitive(x, s[0], y); }
      }
      SortedCons(x, s);
    } else if x != s[0] {
      LexTotal(x, s[0]);
      InsertSorts(x, s[1..]);
      forall y | y in Insert(x, s[1..]) ensures LexLess(s[0], y) {
        assert y in ToSet(Insert(x, s[1..]));
        assert y == x || y in s[1..];
      }
      SortedCons(s[0], Insert(x, s[1..]));
    }
  }

  /** `sorted(set(_network(item) for item in cidrs))`; None when an item is no network. */
  function Normalize(cidrs: seq<string>, network: string -> Option<string>): Option<seq<string>> {
    if cidrs == [] then Some([])
    else
      var rest := Normalize(cidrs[1..], network);
      if network(cidrs[0]).None? || rest.None? then None else Some(Insert(network(cidrs[0]).value, rest.value))
  }

  /** The networks a request asks for. */
  function Wanted(cidrs: seq<string>, network: string -> Option<string>): Nets {
    set i | 0 <= i < |cidrs| && network(cidrs[i]).Some? :: network(cidrs[i]).value
  }

  lemma {:induction false} NormalizeIsSortedSet(cidrs: seq<string>, network: string -> Option<string>)
    ensures Normalize(cidrs, network).None? <==> exists i :: 0 <= i < |cidrs| && network(cidrs[i]).None?
    ensures Normalize(cidrs, network).Some? ==>
              && Sorted(Normalize(cidrs, network).value)
              && ToSet(Normalize(cidrs, network).value) == Wanted(cidrs, network)
  {
    if cidrs != [] {
      var tail := cidrs[1..];
      NormalizeIsSortedSet(tail, network);
      assert forall i :: 0 <= i < |tail| ==> tail[i] == cidrs[i + 1];
      if network(cidrs[0]).Some? && Normalize(tail, network).Some? {
        InsertSorts(network(cidrs[0]).value, Normalize(tail, network).value);
        WantedHead(cidrs, network);
      }
    }
  }

  lemma WantedHead(cidrs: seq<string>, network: string -> Option<string>)
    requires cidrs != [] && network(cidrs[0]).Some?
    ensures Wanted(cidrs, network) == Wanted(cidrs[1..], network) + {network(cidrs[0]).value}
  {
    var tail := cidrs[1..];
    forall x | x in Wanted(cidrs, network) ensures x in Wanted(tail, network) + {network(cidrs[0]).value} {
      var i :| 0 <= i < |cidrs| && network(cidrs[i]).Some? && network(cidrs[i]).value == x;
      if i > 0 { assert tail[i - 1] == cidrs[i]; }
    }
    forall x | x in Wanted(tail, network) ensures x in Wanted(cidrs, network) {
      var i :| 0 <= i < |tail| && network(tail[i]).Some? && network(tail[i]).value == x;
      assert cidrs[i + 1] == tail[i];
    }
  }

  function Adds(name: string, nets: seq<string>): seq<Command> {
    seq(|nets|, i requires 0 <= i < |nets| => Add(name, nets[i], false))
  }

  function ReplaceProgram(name: string, nets: seq<string>): seq<Command> {
    [Create(name), Create(Temp(name)), Flush(Temp(name))] + Adds(Temp(name), nets)
    + [Swap(name, Temp(name)), Destroy(Temp(name))]
  }

  /** A line of the restore input; rule commands are no such lines. */
  function LineText(c: Command): string {
    match c
    case Create(n) => "create " + n + " hash:net -exist\n"
    case Flush(n) => "flush " + n + "\n"
    case Add(n, x, _) => "add " + n + " " + x + "\n"
    case Del(n, x) => "del " + n + " " + x + "\n"
    case Swap(a, b) => "swap " + a + " " + b + "\n"
    case Destroy(n) => "destroy " + n + "\n"
    case _ => ""
  }

  /** The restore input; names and networks are ASCII, so it is its own encoding. */
  function ProgramText(program: seq<Command>): string {
    if program == [] then "" else LineText(program[0]) + ProgramText(program[1..])
  }

  function AddLines(name: string, nets: seq<string>): string {
    if nets == [] then "" else "add " + name + "_tmp " + nets[0] + "\n" + AddLines(name, nets[1..])
  }

  lemma {:induction false} TextAppends(a: seq<Command>, b: seq<Command>)
    ensures ProgramText(a + b) == ProgramText(a) + ProgramText(b)
  {
    hide LineText;
    if a == [] {
      assert a + b == b;
    } else {
      assert (a + b)[1..] == a[1..] + b;
      TextAppends(a[1..], b);
    }
  }

  lemma {:induction false} AddsText(name: string, nets: seq<string>)
    ensures ProgramText(Adds(Temp(name), nets)) == AddLines(name, nets)
  {
    if nets != [] {
      var adds := Adds(Temp(name), nets);
      assert adds[1..] == Adds(Temp(name), nets[1..]);
      AddsText(name, nets[1..]);
      assert LineText(adds[0]) == "add " + name + "_tmp " + nets[0] + "\n" by {
        assert "add " + (name + "_tmp") + " " + nets[0] + "\n" == "add " + name + "_tmp " + nets[0] + "\n";
      }
    }
  }

  /** The restore input of a replace, line by line. */
  lemma ReplaceText(name: string, nets: seq<string>)
    ensures ProgramText(ReplaceProgram(name, nets)) ==
            ("create " + name + " hash:net -exist\n") + ("create " + (name + "_tmp") + " hash:net -exist\n")
            + ("flush " + (name + "_tmp") + "\n") + AddLines(name, nets)
            + ("swap " + name + " " + (name + "_tmp") + "\n") + ("destroy " + (name + "_tmp") + "\n")
  {
    hide ProgramText, AddLines, ReplaceProgram;
    ReplaceLines(name, nets);
  }

  lemma ReplaceLines(name: string, nets: seq<string>)
    ensures var t := Temp(name);
            ProgramText(ReplaceProgram(name, nets)) ==
            LineText(Create(name)) + LineText(Create(t)) + LineText(Flush(t)) + AddLines(name, nets)
            + LineText(Swap(name, t)) + LineText(Destroy(t))
  {
    var t := Temp(name);
    var first, last := [Create(name), Create(t), Flush(t)], [Swap(name, t), Destroy(t)];
    AddsText(name, nets);
    hide ProgramText, AddLines, Adds, LineText, Temp;
    var adds := Adds(t, nets);
    assert ReplaceProgram(name, nets) == first + adds + last;
    TextAppends(first + adds, last);
    TextAppends(first, adds);
    ThreeLines(Create(name), Create(t), Flush(t));
    TwoLines(Swap(name, t), Destroy(t));
    var head, tail := LineText(Create(name)) + LineText(Create(t)) + LineText(Flush(t)), LineText(Swap(name, t));
    assert ProgramText(first + adds + last) == (head + ProgramText(adds)) + (tail + LineText(Destroy(t)));
    assert ProgramText(adds) == AddLines(name, nets);
    Flatten(head, AddLines(name, nets), tail, LineText(Destroy(t)));
  }

  lemma Flatten(a: string, b: string, c: string, d: string)
    ensures a + b + (c + d) == a + b + c + d
  {}

  lemma TwoLines(a: Command, b: Command)
    ensures ProgramText([a, b]) == LineText(a) + LineText(b)
  {
    hide LineText;
    assert [a, b][1..] == [b] && [b][1..] == [];
    assert ProgramText([b]) == LineText(b) + ProgramText([]);
    assert ProgramText([]) == "" && LineText(b) + "" == LineText(b);
    assert ProgramText([a, b]) == LineText(a) + ProgramText([b]);
  }

  lemma ThreeLines(a: Command, b: Command, c: Command)
    ensures ProgramText([a, b, c]) == LineText(a) + LineText(b) + LineText(c)
  {
    hide LineText;
    assert [a, b, c][1..] == [b, c];
    TwoLines(b, c);
  }

  // ---------- what the replace program does ----------

  function OldNets(k: Kernel, name: string): Nets {
    if name in k.sets then k.sets[name] else {}
  }

  function WithTemp(k: Kernel, name: string, nets: Nets): Kernel {
    k.(sets := k.sets[name := OldNets(k, name)][Temp(name) := nets])
  }

  function Swapped(k: Kernel, name: string, nets: Nets): Kernel {
    k.(sets := k.sets[name := nets][Temp(name) := OldNets(k, name)])
  }

  function Replaced(k: Kernel, name: string, nets: Nets): Kernel {
    k.(sets := k.sets[name := nets] - {Temp(name)})
  }

  /** The kernel after the first n commands of the program, when none of them fails. */
  function ReplaceState(k: Kernel, name: string, nets: seq<string>, n: nat): Kernel {
    if n == 0 then k
    else if n == 1 then k.(sets := k.sets[name := OldNets(k, name)])
    else if n == 2 then WithTemp(k, name, OldNets(k, Temp(name)))
    else if n <= |nets| + 3 then WithTemp(k, name, ToSet(nets[..n - 3]))
    else if n == |nets| + 4 then Swapped(k, name, ToSet(nets))
    else Replaced(k, name, ToSet(nets))
  }

  lemma TempDiffers(name: string)
    ensures Temp(name) != name
  {
    assert |Temp(name)| == |name| + 4;
  }

  lemma ProgramAt(name: string, nets: seq<string>, n: nat)
    requires n < |nets| + 5
    ensures |ReplaceProgram(name, nets)| == |nets| + 5
    ensures ReplaceProgram(name, nets)[n] ==
            if n == 0 then Create(name) else if n == 1 then Create(Temp(name)) else if n == 2 then Flush(Temp(name))
            else if n < |nets| + 3 then Add(Temp(name), nets[n - 3], false)
            else if n == |nets| + 3 then Swap(name, Temp(name)) else Destroy(Temp(name))
  {}

  /** Networks a fresh set can hold. */
  predicate Fit(nets: seq<string>) {
    |nets| <= MAX_ELEM && forall i :: 0 <= i < |nets| ==> IsStorable(nets[i])
  }

  /** How many of the networks from number i on go into a fresh set before one is refused. */
  function TakenFrom(nets: seq<string>, i: nat): (n: nat)
    requires i <= |nets| && i <= MAX_ELEM
    ensures i <= n <= |nets| && n <= MAX_ELEM
    ensures forall j :: i <= j < n ==> IsStorable(nets[j])
    ensures n < |nets| ==> n == MAX_ELEM || !IsStorable(nets[n])
    decreases |nets| - i
  {
    if i == |nets| || i == MAX_ELEM || !IsStorable(nets[i]) then i else TakenFrom(nets, i + 1)
  }

  function Taken(nets: seq<string>): (n: nat)
    ensures n <= |nets| && n <= MAX_ELEM
    ensures forall j :: 0 <= j < n ==> IsStorable(nets[j])
    ensures n < |nets| ==> n == MAX_ELEM || !IsStorable(nets[n])
    ensures n == |nets| <==> Fit(nets)
  {
    TakenFrom(nets, 0)
  }

  /** The add of the first network that is not taken. */
  predicate IsRefused(nets: seq<string>, n: nat) {
    Taken(nets) < |nets| && n == Taken(nets) + 3
  }

  /** What command number n does in its state, when nothing was refused before. */
  predicate StepsOn(k: Kernel, name: string, nets: seq<string>, n: nat, c: Command) {
    Exec(ReplaceState(k, name, nets, n), c) ==
    if IsRefused(nets, n) then Err(if IsStorable(nets[n - 3]) then Full else Unstorable)
    else if n == |nets| + 4 && Temp(name) in k.rules then Err(InUse)
    else Ok(ReplaceState(k, name, nets, n + 1))
  }

  /**
   One command takes each state of the program to the next; what can be refused is the add of
   a network a set cannot hold or has no room for, and the last.
   */
  lemma ReplaceStep(k: Kernel, name: string, nets: seq<string>, n: nat)
    requires Sorted(nets) && n < |nets| + 5 && (n > Taken(nets) + 3 ==> Fit(nets))
    ensures n < |ReplaceProgram(name, nets)| && StepsOn(k, name, nets, n, ReplaceProgram(name, nets)[n])
  {
    ProgramAt(name, nets, n);
    hide ReplaceProgram, StepsOn, Temp, Sorted;
    if n < 3 {
      FirstSteps(k, name, nets);
    } else if n < |nets| + 3 {
      AddSteps(k, name, nets, n - 3);
    } else {
      LastSteps(k, name, nets);
    }
  }

  lemma FirstSteps(k: Kernel, name: string, nets: seq<string>)
    ensures StepsOn(k, name, nets, 0, Create(name)) && StepsOn(k, name, nets, 1, Create(Temp(name)))
    ensures StepsOn(k, name, nets, 2, Flush(Temp(name)))
  {
    StartsAsIs(k, name, nets);
    FirstLines(k, name, nets);
    hide ReplaceState, Exec, Temp;
  }

  lemma AddSteps(k: Kernel, name: string, nets: seq<string>, i: nat)
    requires Sorted(nets) && i < |nets| && (i > Taken(nets) ==> Fit(nets))
    ensures StepsOn(k, name, nets, i + 3, Add(Temp(name), nets[i], false))
  {
    AddStep(k, name, nets, i);
    hide Exec, WithTemp, Swapped, Replaced, Temp, ToSet, Sorted, OldNets;
  }

  lemma LastSteps(k: Kernel, name: string, nets: seq<string>)
    requires Fit(nets)
    ensures StepsOn(k, name, nets, |nets| + 3, Swap(name, Temp(name)))
    ensures StepsOn(k, name, nets, |nets| + 4, Destroy(Temp(name)))
  {
    LastLines(k, name, nets);
    hide Exec, WithTemp, Swapped, Replaced, Temp, ToSet, OldNets;
  }

  lemma StartsAsIs(k: Kernel, name: string, nets: seq<string>)
    ensures ReplaceState(k, name, nets, 0) == k
  {}

  lemma FirstLines(k: Kernel, name: string, nets: seq<string>)
    ensures Exec(k, Create(name)) == Ok(ReplaceState(k, name, nets, 1))
    ensures Exec(ReplaceState(k, name, nets, 1), Create(Temp(name))) == Ok(ReplaceState(k, name, nets, 2))
    ensures Exec(ReplaceState(k, name, nets, 2), Flush(Temp(name))) == Ok(ReplaceState(k, name, nets, 3))
  {
    TempDiffers(name);
    hide Temp, ToSet;
    NothingWanted(nets);
    var one, two := ReplaceState(k, name, nets, 1), ReplaceState(k, name, nets, 2);
    var three := ReplaceState(k, name, nets, 3);
    assert Exec(k, Create(name)).value.sets == one.sets;
    assert Exec(one, Create(Temp(name))).value.sets == two.sets;
    assert Exec(two, Flush(Temp(name))).value.sets == three.sets;
  }

  lemma NothingWanted(nets: seq<string>)
    ensures ToSet(nets[..0]) == {}
  {}

  lemma LastLines(k: Kernel, name: string, nets: seq<string>)
    ensures var full, swapped := WithTemp(k, name, ToSet(nets[..|nets|])), Swapped(k, name, ToSet(nets));
            && Exec(full, Swap(name, Temp(name))) == Ok(swapped)
            && Exec(swapped, Destroy(Temp(name))) ==
               if Temp(name) in k.rules then Err(InUse) else Ok(Replaced(k, name, ToSet(nets)))
  {
    TempDiffers(name);
    hide Temp, ToSet;
    assert nets[..|nets|] == nets;
    var full, swapped := WithTemp(k, name, ToSet(nets)), Swapped(k, name, ToSet(nets));
    assert Exec(full, Swap(name, Temp(name))).value.sets == swapped.sets;
    assert swapped.sets - {Temp(name)} == Replaced(k, name, ToSet(nets)).sets;
  }

  lemma AddStep(k: Kernel, name: string, nets: seq<string>, i: nat)
    requires Sorted(nets) && i < |nets|
    ensures Exec(WithTemp(k, name, ToSet(nets[..i])), Add(Temp(name), nets[i], false)) ==
            if !IsStorable(nets[i]) then Err(Unstorable)
            else if i >= MAX_ELEM then Err(Full)
            else Ok(WithTemp(k, name, ToSet(nets[..i + 1])))
  {
    NextNet(nets, i);
    TempDiffers(name);
    hide Temp, Sorted, ToSet;
    var before, after := WithTemp(k, name, ToSet(nets[..i])), WithTemp(k, name, ToSet(nets[..i + 1]));
    assert before.sets[Temp(name)] == ToSet(nets[..i]);
    assert before.sets[Temp(name) := ToSet(nets[..i + 1])] == after.sets;
  }

  lemma {:induction false} NextNet(nets: seq<string>, i: nat)
    requires i < |nets| && Sorted(nets)
    ensures nets[i] !in ToSet(nets[..i]) && ToSet(nets[..i + 1]) == ToSet(nets[..i]) + {nets[i]}
    ensures |ToSet(nets[..i])| == i
  {
    LexTotal(nets[i], nets[i]);
    hide LexLess;
    assert nets[..i + 1] == nets[..i] + [nets[i]];
    if i > 0 { NextNet(nets, i - 1); } else { assert ToSet(nets[..0]) == {}; }
  }

  lemma {:induction false} ReplacePrefix(k: Kernel, name: string, nets: seq<string>, n: nat)
    requires Sorted(nets) && n <= |nets| + 5 && (n > Taken(nets) + 3 ==> Fit(nets))
    requires n == |nets| + 5 ==> Temp(name) !in k.rules
    ensures n <= |ReplaceProgram(name, nets)|
    ensures RunProgram(k, ReplaceProgram(name, nets)[..n]) == (ReplaceState(k, name, nets, n), true)
  {
    if n > 0 {
      ProgramAt(name, nets, n - 1);
      ReplacePrefix(k, name, nets, n - 1);
      ReplaceStep(k, name, nets, n - 1);
      hide ReplaceProgram, ReplaceState, Exec;
      RunNext(k, ReplaceProgram(name, nets), n - 1, ReplaceState(k, name, nets, n - 1));
    }
  }

  /**
   Where the program stops: at the first network that is not taken, at the last line when a rule
   uses the temporary set, or never.
   */
  function StopsAt(k: Kernel, name: string, nets: seq<string>): nat {
    if !Fit(nets) then Taken(nets) + 3 else if Temp(name) in k.rules then |nets| + 4 else |nets| + 5
  }

  lemma ReplaceRuns(k: Kernel, name: string, nets: seq<string>, n: nat)
    requires Sorted(nets) && n <= |ReplaceProgram(name, nets)|
    ensures RunProgram(k, ReplaceProgram(name, nets)[..n]) ==
            if n <= StopsAt(k, name, nets) then (ReplaceState(k, name, nets, n), true)
            else (ReplaceState(k, name, nets, StopsAt(k, name, nets)), false)
  {
    var p, stop := ReplaceProgram(name, nets), StopsAt(k, name, nets);
    ProgramAt(name, nets, 0);
    if n <= stop {
      ReplacePrefix(k, name, nets, n);
    } else {
      ReplacePrefix(k, name, nets, stop);
      ReplaceStep(k, name, nets, stop);
      hide ReplaceProgram, Exec, ReplaceState, RunProgram;
      RunNext(k, p, stop, ReplaceState(k, name, nets, stop));
      RunStays(k, p, stop + 1, n);
    }
  }

  /**
   From any kernel state the replace program runs without error exactly when a set can
   hold each network, has room for them all, and no rule uses the temporary one. Then it
   leaves the named set equal to the requested networks, the temporary set gone and
   everything else as it was. The first network that is refused leaves the named set's
   contents alone and the temporary set behind, with the networks before it.
   */
  lemma ReplaceProgramReplaces(k: Kernel, name: string, nets: seq<string>)
    requires Sorted(nets)
    ensures RunProgram(k, ReplaceProgram(name, nets)) ==
            if !Fit(nets) then (WithTemp(k, name, ToSet(nets[..Taken(nets)])), false)
            else if Temp(name) in k.rules then (Swapped(k, name, ToSet(nets)), false)
            else (Replaced(k, name, ToSet(nets)), true)
  {
    var p := ReplaceProgram(name, nets);
    ProgramAt(name, nets, 0);
    assert p[..|p|] == p;
    ReplaceRuns(k, name, nets, |p|);
  }

  /**
   One network of the wrong kind anywhere in a request, an IPv6 one say, and the whole
   request changes nothing, from any state and however often it is sent.
   */
  lemma OneUnstorableSpoilsAll(k: Kernel, name: string, nets: seq<string>, i: nat)
    requires Sorted(nets) && i < |nets| && (':' in nets[i] || nets[i] == "0.0.0.0/0")
    ensures var (after, ok) := RunProgram(k, ReplaceProgram(name, nets));
            !ok && OldNets(after, name) == OldNets(k, name) && Temp(name) in after.sets
    ensures Effect(k, ReplaceAll(name, nets)).1 == Done(false)
  {
    hide RunProgram, ReplaceProgram;
    ReplaceProgramReplaces(k, name, nets);
    TempDiffers(name);
    assert nets[i] == "0.0.0.0/0" ==> nets[i][|nets[i]| - 2..] == "/0";
    assert !IsStorable(nets[i]);
  }

  /** Killed after any number of commands, the named set is what it was or complete, never in between. */
  lemma ReplaceIsAtomic(k: Kernel, name: string, nets: seq<string>, n: nat)
    requires Sorted(nets) && n <= |ReplaceProgram(name, nets)|
    ensures var after := RunProgram(k, ReplaceProgram(name, nets)[..n]).0;
            && (OldNets(after, name) == OldNets(k, name) || (name in after.sets && after.sets[name] == ToSet(nets)))
            && (name in k.sets ==> name in after.sets)
            && after.rules == k.rules
            && (forall other :: other != name && other != Temp(name) ==>
                  && (other in after.sets <==> other in k.sets)
                  && (other in k.sets ==> after.sets[other] == k.sets[other]))
  {
    ProgramAt(name, nets, 0);
    TempDiffers(name);
    ReplaceRuns(k, name, nets, n);
    hide ReplaceProgram, RunProgram;
  }

  // ---------- operations ----------

  datatype Request =
    | SetAdd(name: string, source: string)
    | SetDelete(name: string, source: string)
    | SetReplace(name: string, cidrs: seq<string>)
    | SetRemove(name: string)
    | RuleEnsure(name: string)

  datatype Operation =
    | AddOne(name: string, net: string)
    | DeleteOne(name: string, net: string)
    | ReplaceAll(name: string, nets: seq<string>)
    | RemoveSet(name: string)
    | EnsureRule(name: string)

  /** `build_operation`, for the operations on sets; None is a refused request. */
  function BuildOperation(r: Request, network: string -> Option<string>): Option<Operation> {
    if !ValidName(r.name, r.SetReplace?) then None
    else
      match r
      case SetAdd(n, s) => if network(s).None? then None else Some(AddOne(n, network(s).value))
      case SetDelete(n, s) => if network(s).None? then None else Some(DeleteOne(n, network(s).value))
      case SetReplace(n, cidrs) =>
        var nets := Normalize(cidrs, network);
        if |cidrs| > MAX_CIDRS || nets.None? then None
        else if |ProgramText(ReplaceProgram(n, nets.value))| > MAX_RESTORE_BYTES then None
        else Some(ReplaceAll(n, nets.value))
      case SetRemove(n) => Some(RemoveSet(n))
      case RuleEnsure(n) => Some(EnsureRule(n))
  }

  predicate WellFormed(op: Operation) {
    op.ReplaceAll? ==> Sorted(op.nets)
  }

  lemma BuiltIsWellFormed(r: Request, network: string -> Option<string>)
    requires BuildOperation(r, network).Some?
    ensures WellFormed(BuildOperation(r, network).value) && BuildOperation(r, network).value.name == r.name
    ensures r.SetReplace? ==> ToSet(BuildOperation(r, network).value.nets) == Wanted(r.cidrs, network)
  {
    if r.SetReplace? { NormalizeIsSortedSet(r.cidrs, network); }
  }

  /** A request is refused exactly when its name or a network is invalid, or a replace is too large. */
  lemma RefusedExactlyWhen(r: Request, network: string -> Option<string>)
    ensures BuildOperation(r, network).None? <==>
              || |r.name| < 1 || |r.name| > (if r.SetReplace? then 27 else 31)
              || (exists c :: c in r.name && c != '_' && c != '-'
                              && !('A' <= c <= 'Z' || 'a' <= c <= 'z' || '0' <= c <= '9'))
              || ((r.SetAdd? || r.SetDelete?) && network(r.source).None?)
              || (r.SetReplace? && (exists i :: 0 <= i < |r.cidrs| && network(r.cidrs[i]).None?))
              || (r.SetReplace? && |r.cidrs| > 250000)
              || (r.SetReplace? && Normalize(r.cidrs, network).Some? &&
                  |ProgramText(ReplaceProgram(r.name, Normalize(r.cidrs, network).value))| > 25165824)
  {
    hide ReplaceProgram, ProgramText, Normalize;
    if r.SetReplace? { NormalizeIsSortedSet(r.cidrs, network); }
    assert (forall i :: 0 <= i < |r.name| ==> NameChar(r.name[i])) <==> !(exists c :: c in r.name && !NameChar(c));
  }

  /** How an operation ends: the broker raises, or reports success or failure. */
  datatype Report = Raised | Done(ok: bool)

  /** What `execute` amounts to when nothing times out. */
  function Effect(k: Kernel, op: Operation): (Kernel, Report) {
    match op
    case AddOne(n, x) =>
      var fits := IsStorable(x) && (x in OldNets(k, n) || |OldNets(k, n)| < MAX_ELEM);
      (k.(sets := k.sets[n := OldNets(k, n) + if fits then {x} else {}]), Done(fits))
    case DeleteOne(n, x) =>
      if n in k.sets && IsStorable(x) then (k.(sets := k.sets[n := k.sets[n] - {x}]), Done(true)) else (k, Done(false))
    case ReplaceAll(n, nets) =>
      if !Fit(nets) then (WithTemp(k, n, ToSet(nets[..Taken(nets)])), Done(false))
      else if Temp(n) in k.rules then (Swapped(k, n, ToSet(nets)), Done(false))
      else (Replaced(k, n, ToSet(nets)), Done(true))
    case RemoveSet(n) =>
      if n !in k.sets then (k, Raised)
      else
        var rules := RemoveFirst(k.rules, n);
        if n in rules then (Kernel(k.sets[n := {}], rules), Done(false)) else (Kernel(k.sets - {n}, rules), Done(true))
    case EnsureRule(n) =>
      if n !in k.sets then (k, Done(false))
      else if n in k.rules then (k, Done(true))
      else (k.(rules := [n] + k.rules), Done(true))
  }

  /** The commands of an operation that change the kernel, in order; each takes effect whole or not at all. */
  function Script(k: Kernel, op: Operation): seq<Command> {
    match op
    case AddOne(n, x) => [Create(n), Add(n, x, true)]
    case DeleteOne(n, x) => [Del(n, x)]
    case ReplaceAll(n, nets) => ReplaceProgram(n, nets)
    case RemoveSet(n) => [DeleteRule(n), Flush(n), Destroy(n)]
    case EnsureRule(n) => if n in k.sets && n !in k.rules then [InsertRule(n)] else []
  }

  /** The kernel an operation leaves when it is stopped after n of its commands took effect. */
  function Stopped(k: Kernel, op: Operation, n: nat): Kernel {
    RunProgram(k, if n < |Script(k, op)| then Script(k, op)[..n] else Script(k, op)).0
  }

  /** Some point at which the operation may have stopped. */
  ghost predicate MayLeave(k: Kernel, op: Operation, after: Kernel) {
    exists n :: after == Stopped(k, op, n)
  }

  /** n commands of the operation took effect and led to `at`. */
  predicate IsAt(k: Kernel, op: Operation, n: nat, at: Kernel) {
    n <= |Script(k, op)| && RunProgram(k, Script(k, op)[..n]) == (at, true)
  }

  lemma StartsThere(k: Kernel, op: Operation)
    ensures IsAt(k, op, 0, k)
  {}

  lemma GoesOn(k: Kernel, op: Operation, n: nat, at: Kernel)
    requires IsAt(k, op, n, at) && n < |Script(k, op)| && Exec(at, Script(k, op)[n]).Ok?
    ensures IsAt(k, op, n + 1, Exec(at, Script(k, op)[n]).value)
  {
    RunNext(k, Script(k, op), n, at);
  }

  lemma StopsThere(k: Kernel, op: Operation, n: nat, at: Kernel)
    requires IsAt(k, op, n, at)
    ensures MayLeave(k, op, at)
  {
    var p := Script(k, op);
    assert n == |p| ==> p[..n] == p;
    assert at == Stopped(k, op, n);
  }

  // ---------- the invariant of the rule list ----------

  predicate Distinct(rules: seq<string>) {
    forall i, j :: 0 <= i < j < |rules| ==> rules[i] != rules[j]
  }

  /** Each set has at most one INPUT rule, and every rule names a set that exists. */
  predicate Coherent(k: Kernel) {
    Distinct(k.rules) && forall n :: n in k.rules ==> n in k.sets
  }

  lemma {:induction false} RemoveFirstRemoves(rules: seq<string>, name: string)
    requires Distinct(rules)
    ensures Distinct(RemoveFirst(rules, name))
    ensures forall n :: n in RemoveFirst(rules, name) <==> n in rules && n != name
  {
    if rules != [] && rules[0] != name {
      RemoveFirstRemoves(rules[1..], name);
      assert rules == [rules[0]] + rules[1..];
      assert rules[0] !in rules[1..];
    }
  }

  lemma ExecKeepsCoherent(k: Kernel, c: Command)
    requires Coherent(k) && Exec(k, c).Ok?
    requires c.InsertRule? ==> c.name !in k.rules
    ensures Coherent(Exec(k, c).value)
  {
    if c.DeleteRule? { RemoveFirstRemoves(k.rules, c.name); }
  }

  lemma {:induction false} ProgramKeepsCoherent(k: Kernel, program: seq<Command>)
    requires Coherent(k) && forall i :: 0 <= i < |program| ==> !program[i].InsertRule?
    ensures Coherent(RunProgram(k, program).0)
    ensures forall n :: n in RunProgram(k, program).0.rules ==> n in k.rules
    decreases |program|
  {
    if program != [] && Exec(k, program[0]).Ok? {
      ExecKeepsCoherent(k, program[0]);
      if program[0].DeleteRule? { RemoveFirstRemoves(k.rules, program[0].name); }
      ProgramKeepsCoherent(Exec(k, program[0]).value, program[1..]);
    }
  }

  /** Wherever an operation stops, the rules stay coherent and name no set it was not about. */
  lemma StoppedKeepsCoherent(k: Kernel, op: Operation, n: nat)
    requires Coherent(k)
    ensures Coherent(Stopped(k, op, n))
    ensures forall x :: x in Stopped(k, op, n).rules ==> x in k.rules || x == op.name
  {
    var p := Script(k, op);
    if op.EnsureRule? {
      if p != [] {
        RunOne(k, p[0]);
        assert p[..0] == [];
      }
    } else {
      ProgramKeepsCoherent(k, if n < |p| then p[..n] else p);
    }
  }

  /** Left alone, an operation runs all its commands. */
  lemma EffectIsWholeScript(k: Kernel, op: Operation)
    requires WellFormed(op) && Coherent(k)
    ensures Effect(k, op).0 == Stopped(k, op, |Script(k, op)|)
  {
    var p := Script(k, op);
    match op {
      case AddOne(n, x) => AddRunsWhole(k, n, x);
      case DeleteOne(n, x) => RunOne(k, p[0]);
      case ReplaceAll(n, nets) => ReplaceProgramReplaces(k, n, nets);
      case RemoveSet(n) => RemoveRunsWhole(k, n);
      case EnsureRule(n) => if p != [] { RunOne(k, p[0]); }
    }
  }

  lemma AddRunsWhole(k: Kernel, n: string, x: string)
    ensures Effect(k, AddOne(n, x)).0 == RunProgram(k, [Create(n), Add(n, x, true)]).0
  {
    AddOutcome(k, n, x);
    hide Exec, Effect, RunProgram;
    TwoCommands(k, Create(n), Add(n, x, true));
    RunOne(Exec(k, Create(n)).value, Add(n, x, true));
  }

  lemma RemoveRunsWhole(k: Kernel, n: string)
    requires Coherent(k)
    ensures Effect(k, RemoveSet(n)).0 == RunProgram(k, [DeleteRule(n), Flush(n), Destroy(n)]).0
  {
    RemoveFirstRemoves(k.rules, n);
    hide RemoveFirst, Coherent, Distinct;
    ThreeCommands(k, DeleteRule(n), Flush(n), Destroy(n));
    if n in k.sets {
      var dropped := k.(rules := RemoveFirst(k.rules, n));
      var emptied := dropped.(sets := k.sets[n := {}]);
      assert Exec(k, DeleteRule(n)) == Ok(dropped) && Exec(dropped, Flush(n)) == Ok(emptied);
      assert emptied.sets - {n} == k.sets - {n};
      assert Exec(emptied, Destroy(n)) == Ok(Kernel(k.sets - {n}, dropped.rules));
      hide Exec, RunProgram;
    } else {
      hide RunProgram;
    }
  }

  /**
   From request to kernel: what an accepted request that is left alone and reports success
   has done, and to nothing else.
   */
  lemma RequestDoes(k: Kernel, r: Request, network: string -> Option<string>)
    requires Coherent(k) && BuildOperation(r, network).Some?
    ensures var (after, report) := Effect(k, BuildOperation(r, network).value);
            report == Done(true) ==>
              match r
              case SetAdd(n, source) =>
                after == Kernel(k.sets[n := (if n in k.sets then k.sets[n] else {}) + {network(source).value}], k.rules)
              case SetDelete(n, source) =>
                n in k.sets && after == Kernel(k.sets[n := k.sets[n] - {network(source).value}], k.rules)
              case SetReplace(n, cidrs) =>
                && n in after.sets && n + "_tmp" !in after.sets && after.rules == k.rules
                && (forall x :: x in after.sets[n] <==> exists i :: 0 <= i < |cidrs| && network(cidrs[i]) == Some(x))
                && (forall m :: m != n && m != n + "_tmp" ==>
                      (m in after.sets <==> m in k.sets) && (m in k.sets ==> after.sets[m] == k.sets[m]))
              case SetRemove(n) =>
                && after.sets == k.sets - {n} && n !in after.rules
                && (forall m :: m != n ==> (m in after.rules <==> m in k.rules))
              case RuleEnsure(n) =>
                && after.sets == k.sets && n in k.sets
                && after.rules == (if n in k.rules then k.rules else [n] + k.rules)
                && (exists i :: 0 <= i < |after.rules| && after.rules[i] == n)
                && (forall i, j :: 0 <= i < j < |after.rules| ==> !(after.rules[i] == n && after.rules[j] == n))
  {
    var op := BuildOperation(r, network).value;
    match r {
      case SetReplace(n, cidrs) =>
        BuiltIsWellFormed(r, network);
        TempDiffers(n);
        WantedHolds(cidrs, network);
        hide Wanted;
      case SetRemove(n) => RemoveFirstRemoves(k.rules, n);
      case RuleEnsure(n) => assert n !in k.rules ==> ([n] + k.rules)[0] == n;
      case _ => {}
    }
  }

  lemma WantedHolds(cidrs: seq<string>, network: string -> Option<string>)
    ensures forall x :: x in Wanted(cidrs, network) <==> exists i :: 0 <= i < |cidrs| && network(cidrs[i]) == Some(x)
  {
    forall x | exists i :: 0 <= i < |cidrs| && network(cidrs[i]) == Some(x) ensures x in Wanted(cidrs, network) {
      var i :| 0 <= i < |cidrs| && network(cidrs[i]) == Some(x);
      assert network(cidrs[i]).Some? && network(cidrs[i]).value == x;
    }
  }

  /** When an accepted request succeeds, left alone. */
  lemma SucceedsExactlyWhen(k: Kernel, r: Request, network: string -> Option<string>)
    requires Coherent(k) && BuildOperation(r, network).Some?
    ensures var report := Effect(k, BuildOperation(r, network).value).1;
            match r
            case SetAdd(n, source) =>
              var x, old' := network(source).value, if n in k.sets then k.sets[n] else {};
              report == Done(true) <==> IsStorable(x) && (x in old' || |old'| < 65536)
            case SetDelete(n, source) => report == Done(true) <==> n in k.sets && IsStorable(network(source).value)
            case SetReplace(n, cidrs) =>
              report == Done(true) <==>
              && |Wanted(cidrs, network)| <= 65536 && n + "_tmp" !in k.rules
              && forall i, x :: 0 <= i < |cidrs| && network(cidrs[i]) == Some(x) ==> IsStorable(x)
            case SetRemove(n) => report == Done(true) <==> n in k.sets
            case RuleEnsure(n) => report == Done(true) <==> n in k.sets
    ensures Effect(k, BuildOperation(r, network).value).1 == Raised <==> r.SetRemove? && r.name !in k.sets
  {
    match r {
      case SetReplace(n, cidrs) => FitsExactlyWhen(n, cidrs, network);
      case SetRemove(n) => RemoveFirstRemoves(k.rules, n);
      case _ => {}
    }
  }

  lemma FitsExactlyWhen(name: string, cidrs: seq<string>, network: string -> Option<string>)
    requires BuildOperation(SetReplace(name, cidrs), network).Some?
    ensures var nets := Normalize(cidrs, network).value;
            Fit(nets) <==>
            && |Wanted(cidrs, network)| <= MAX_ELEM
            && forall i, x :: 0 <= i < |cidrs| && network(cidrs[i]) == Some(x) ==> IsStorable(x)
  {
    hide IsStorable, ReplaceProgram, ProgramText, Normalize;
    var nets := Normalize(cidrs, network).value;
    NormalizeIsSortedSet(cidrs, network);
    SortedSize(nets);
    WantedHolds(cidrs, network);
    hide Wanted;
    assert forall x :: x in Wanted(cidrs, network) <==> x in nets;
    if forall i, x :: 0 <= i < |cidrs| && network(cidrs[i]) == Some(x) ==> IsStorable(x) {
      forall j | 0 <= j < |nets| ensures IsStorable(nets[j]) {
        assert nets[j] in Wanted(cidrs, network);
      }
    }
    if forall j :: 0 <= j < |nets| ==> IsStorable(nets[j]) {
      forall i, x | 0 <= i < |cidrs| && network(cidrs[i]) == Some(x) ensures IsStorable(x) {
        assert x in Wanted(cidrs, network) && x in nets;
      }
    }
  }

  lemma SortedSize(nets: seq<string>)
    requires Sorted(nets)
    ensures |ToSet(nets)| == |nets|
  {
    if nets != [] {
      NextNet(nets, |nets| - 1);
      assert nets[..|nets| - 1 + 1] == nets;
    } else {
      NothingWanted(nets);
      assert nets[..0] == nets;
    }
  }

  lemma TwoCommands(k: Kernel, a: Command, b: Command)
    ensures RunProgram(k, [a, b]) == if Exec(k, a).Err? then (k, false) else RunProgram(Exec(k, a).value, [b])
  {
    assert [a, b][1..] == [b];
  }

  lemma ThreeCommands(k: Kernel, a: Command, b: Command, c: Command)
    ensures RunProgram(k, [a, b, c]) == if Exec(k, a).Err? then (k, false) else RunProgram(Exec(k, a).value, [b, c])
    ensures forall k' ::
              RunProgram(k', [b, c]) == if Exec(k', b).Err? then (k', false) else RunProgram(Exec(k', b).value, [c])
    ensures forall k' :: RunProgram(k', [c]) == match Exec(k', c) case Ok(k'') => (k'', true) case Err(_) => (k', false)
  {
    hide Exec;
    assert [a, b, c][1..] == [b, c] && [b, c][1..] == [c] && [c][1..] == [];
  }

  /** Operations, each stopped after some number of its commands; a large number stops none. */
  function RunAll(k: Kernel, ops: seq<(Operation, nat)>): Kernel
    decreases |ops|
  {
    if ops == [] then k else RunAll(Stopped(k, ops[0].0, ops[0].1), ops[1..])
  }

  /** No managed set bears the temporary name of another. */
  predicate NoTempNames(names: set<string>) {
    forall n :: n in names ==> Temp(n) !in names
  }

  predicate RulesWithin(k: Kernel, names: set<string>) {
    forall n :: n in k.rules ==> n in names
  }

  /** Over any run, whatever stops where, the rule list stays coherent and names operated sets only. */
  lemma {:induction false} RunsStayCoherent(k: Kernel, ops: seq<(Operation, nat)>, names: set<string>)
    requires Coherent(k) && RulesWithin(k, names)
    requires forall i :: 0 <= i < |ops| ==> ops[i].0.name in names
    ensures Coherent(RunAll(k, ops)) && RulesWithin(RunAll(k, ops), names)
    decreases |ops|
  {
    hide Stopped;
    if ops != [] {
      StoppedKeepsCoherent(k, ops[0].0, ops[0].1);
      RunsStayCoherent(Stopped(k, ops[0].0, ops[0].1), ops[1..], names);
    }
  }

  /**
   After any run from an empty firewall, whatever stopped where: removing an existing set
   leaves neither the set nor a rule for it, and replacing a set succeeds exactly when a set
   can hold the networks and has room for them.
   */
  lemma RemoveRemovesBoth(ops: seq<(Operation, nat)>, names: set<string>, name: string, nets: seq<string>)
    requires forall i :: 0 <= i < |ops| ==> ops[i].0.name in names
    ensures var k := RunAll(Kernel(map[], []), ops);
            name in k.sets ==>
              var (after, report) := Effect(k, RemoveSet(name));
              report == Done(true) && name !in after.sets && name !in after.rules
    ensures var k := RunAll(Kernel(map[], []), ops);
            NoTempNames(names) && name in names && Sorted(nets) ==>
              Effect(k, ReplaceAll(name, nets)) ==
              if Fit(nets) then (Replaced(k, name, ToSet(nets)), Done(true))
              else (WithTemp(k, name, ToSet(nets[..Taken(nets)])), Done(false))
  {
    hide RunAll, Replaced, WithTemp;
    var k := RunAll(Kernel(map[], []), ops);
    RunsStayCoherent(Kernel(map[], []), ops, names);
    RemoveFirstRemoves(k.rules, name);
  }

  // ---------- execution ----------

  /** What one child process came to. */
  datatype Child = Child(returncode: int, ok: bool)

  class Firewall {
    var kernel: Kernel
    /** How many more commands complete before one times out; None when none does. */
    var alive: Option<nat>
    /** Whether a command that timed out took effect all the same. */
    var acts: bool
    var children: seq<Child>

    constructor ()
      ensures kernel == Kernel(map[], []) && Coherent(kernel) && alive.None?
    {
      kernel, alive, acts, children := Kernel(map[], []), None, false, [];
    }

    /** One command at the kernel; the error tells an expected absence from other failures. */
    method Issue(c: Command) returns (error: Option<ToolError>, completed: bool)
      requires Coherent(kernel) && (c.InsertRule? ==> c.name !in kernel.rules)
      modifies `kernel, `alive
      ensures Coherent(kernel)
      ensures completed ==>
                match Exec(old(kernel), c)
                case Ok(k) => kernel == k && error.None?
                case Err(e) => kernel == old(kernel) && error == Some(e)
      ensures !completed ==> error.None? && (kernel == old(kernel) || Exec(old(kernel), c) == Ok(kernel))
      ensures old(alive).None? ==> completed && alive.None?
    {
      completed := alive.None? || alive.value > 0;
      alive := if alive.None? || alive.value == 0 then alive else Some(alive.value - 1);
      error := None;
      if completed || acts {
        match Exec(kernel, c) {
          case Ok(k) =>
            ExecKeepsCoherent(kernel, c);
            kernel := k;
          case Err(e) =>
            error := if completed then Some(e) else None;
        }
      }
    }

    /** One ipset child. */
    method Ipset(c: Command) returns (child: Child, error: Option<ToolError>, completed: bool)
      requires Coherent(kernel) && !c.InsertRule? && !c.DeleteRule?
      modifies `kernel, `alive, `children
      ensures Coherent(kernel)
      ensures completed ==>
                match Exec(old(kernel), c)
                case Ok(k) => kernel == k && error.None? && child == Child(0, true)
                case Err(e) => kernel == old(kernel) && error == Some(e) && child == Child(1, false)
      ensures !completed ==>
                && error.None? && child == Child(-1, false)
                && (kernel == old(kernel) || Exec(old(kernel), c) == Ok(kernel))
      ensures children == old(children) + [child]
      ensures old(alive).None? ==> completed && alive.None?
    {
      error, completed := Issue(c);
      child := if !completed then Child(-1, false) else if error.Some? then Child(1, false) else Child(0, true);
      children := children + [child];
    }

    /** `ipset restore`: the program runs until it ends, fails or is killed. */
    method Restore(program: seq<Command>) returns (child: Child, completed: bool)
      requires Coherent(kernel) && forall i :: 0 <= i < |program| ==> !program[i].InsertRule?
      modifies `kernel, `alive, `children
      ensures Coherent(kernel)
      ensures exists n :: 0 <= n <= |program| && kernel == RunProgram(old(kernel), program[..n]).0
      ensures completed ==> (kernel, child.ok) == RunProgram(old(kernel), program)
      ensures !completed ==> child == Child(-1, false)
      ensures child.ok <==> child.returncode == 0
      ensures children == old(children) + [child]
      ensures old(alive).None? ==> completed && alive.None?
    {
      hide Exec, Coherent;
      ghost var start := kernel;
      ghost var n := 0;
      var i := 0;
      var failed := false;
      completed := true;
      assert RunProgram(start, program[..0]) == (start, true);
      while i < |program| && !failed && completed
        invariant 0 <= i <= |program| && 0 <= n <= |program| && Coherent(kernel) && children == old(children)
        invariant RunProgram(start, program[..n]).0 == kernel
        invariant completed ==> n == i && RunProgram(start, program[..n]).1 == !failed
        invariant old(alive).None? ==> completed && alive.None?
        decreases |program| - i, !failed && completed
      {
        RunNext(start, program, i, kernel);
        ghost var before := kernel;
        var error;
        error, completed := Issue(program[i]);
        if completed {
          failed := error.Some?;
          i := i + 1;
          n := i;
        } else if kernel != before {
          n := i + 1;
        }
      }
      if completed {
        assert program[..|program|] == program;
        if failed { RunStays(start, program, i, |program|); }
      }
      child := if !completed then Child(-1, false) else if failed then Child(1, false) else Child(0, true);
      children := children + [child];
    }

    /** `iptables -C`: 0 when the rule is there, 1 when it is not, 2 when the set does not exist. */
    method CheckRule(name: string) returns (child: Child, completed: bool)
      modifies `alive, `children
      ensures completed ==>
                child.returncode == if name !in kernel.sets then 2 else if name in kernel.rules then 0 else 1
      ensures !completed ==> child.returncode == -1
      ensures child.ok <==> child.returncode == 0
      ensures children == old(children) + [child]
      ensures old(alive).None? ==> completed && alive.None?
    {
      completed := alive.None? || alive.value > 0;
      alive := if alive.None? || alive.value == 0 then alive else Some(alive.value - 1);
      var rc := if !completed then -1 else if name !in kernel.sets then 2 else if name in kernel.rules then 0 else 1;
      child := Child(rc, rc == 0);
      children := children + [child];
    }

    /** `iptables -I INPUT`, issued only when the check found no such rule. */
    method AddRule(name: string) returns (child: Child, completed: bool)
      requires Coherent(kernel) && name in kernel.sets && name !in kernel.rules
      modifies `kernel, `alive, `children
      ensures Coherent(kernel)
      ensures completed ==> kernel == old(kernel).(rules := [name] + old(kernel).rules) && child == Child(0, true)
      ensures !completed ==>
                && child == Child(-1, false)
                && (kernel == old(kernel) || Exec(old(kernel), InsertRule(name)) == Ok(kernel))
      ensures children == old(children) + [child]
      ensures old(alive).None? ==> completed && alive.None?
    {
      var error;
      error, completed := Issue(InsertRule(name));
      child := if completed then Child(0, true) else Child(-1, false);
      children := children + [child];
    }

    /** `iptables -D INPUT`: 1 when there is no such rule, 2 when the set does not exist. */
    method DropRule(name: string) returns (child: Child, completed: bool)
      requires Coherent(kernel)
      modifies `kernel, `alive, `children
      ensures Coherent(kernel)
      ensures completed ==>
                && child.returncode ==
                   (if name !in old(kernel).sets then 2 else if name in old(kernel).rules then 0 else 1)
                && kernel == old(kernel).(rules := if child.returncode == 2 then old(kernel).rules
                                                   else RemoveFirst(old(kernel).rules, name))
      ensures !completed ==>
                child.returncode == -1 && (kernel == old(kernel) || Exec(old(kernel), DeleteRule(name)) == Ok(kernel))
      ensures child.ok <==> child.returncode == 0
      ensures children == old(children) + [child]
      ensures old(alive).None? ==> completed && alive.None?
    {
      var there := name in kernel.rules;
      var error;
      error, completed := Issue(DeleteRule(name));
      var rc := if !completed then -1 else if error.Some? then 2 else if there then 0 else 1;
      child := Child(rc, rc == 0);
      children := children + [child];
    }

    method MarkLastOk()
      requires children != []
      modifies `children
      ensures children == old(children)[|old(children)| - 1 := old(children)[|old(children)| - 1].(ok := true)]
    {
      children := children[|children| - 1 := children[|children| - 1].(ok := true)];
    }

    /**
     `execute`: whatever times out, and whether or not it acted, the kernel is left as the
     operation stopped at some command leaves it; when nothing does, it changes exactly as
     the operation says, and success means every child was ok.
     */
    method Execute(op: Operation) returns (report: Report)
      requires Coherent(kernel) && WellFormed(op)
      modifies `kernel, `alive, `children
      ensures Coherent(kernel) && MayLeave(old(kernel), op, kernel)
      ensures old(alive).None? ==> (kernel, report) == Effect(old(kernel), op)
      ensures report == Done(true) ==> forall i :: 0 <= i < |children| ==> children[i].ok
    {
      children := [];
      match op
      case AddOne(n, x) => report := ExecuteAdd(n, x);
      case DeleteOne(n, x) => report := ExecuteDelete(n, x);
      case ReplaceAll(n, nets) => report := ExecuteReplace(n, nets);
      case RemoveSet(n) => report := ExecuteRemove(n);
      case EnsureRule(n) => report := ExecuteEnsure(n);
    }

    /** A request from its arrival on: refused and nothing done, or built and executed. */
    method Handle(r: Request, network: string -> Option<string>) returns (report: Option<Report>)
      requires Coherent(kernel)
      modifies `kernel, `alive, `children
      ensures Coherent(kernel)
      ensures report.None? <==> BuildOperation(r, network).None?
      ensures report.None? ==> kernel == old(kernel) && children == old(children)
      ensures report.Some? ==>
                var op := BuildOperation(r, network).value;
                && MayLeave(old(kernel), op, kernel)
                && (old(alive).None? ==> (kernel, report.value) == Effect(old(kernel), op))
    {
      var op := BuildOperation(r, network);
      if op.None? {
        return None;
      }
      BuiltIsWellFormed(r, network);
      var done := Execute(op.value);
      return Some(done);
    }

    /** `execute` for set.add: the set first, then the network. */
    method ExecuteAdd(n: string, x: string) returns (report: Report)
      requires Coherent(kernel) && children == []
      modifies `kernel, `alive, `children
      ensures Coherent(kernel) && MayLeave(old(kernel), AddOne(n, x), kernel)
      ensures old(alive).None? ==> (kernel, report) == Effect(old(kernel), AddOne(n, x))
      ensures report == Done(true) ==> forall i :: 0 <= i < |children| ==> children[i].ok
    {
      hide Coherent, RunProgram, MayLeave, IsAt;
      ghost var was, op := kernel, AddOne(n, x);
      AddStates(was, n, x);
      var child, error, completed := Ipset(Create(n));
      if !child.ok {
        return Raised;
      }
      child, error, completed := Ipset(Add(n, x, true));
      return if completed then Done(child.ok) else Raised;
    }

    /** `execute` for set.delete */
    method ExecuteDelete(n: string, x: string) returns (report: Report)
      requires Coherent(kernel) && children == []
      modifies `kernel, `alive, `children
      ensures Coherent(kernel) && MayLeave(old(kernel), DeleteOne(n, x), kernel)
      ensures old(alive).None? ==> (kernel, report) == Effect(old(kernel), DeleteOne(n, x))
      ensures report == Done(true) ==> forall i :: 0 <= i < |children| ==> children[i].ok
    {
      hide Coherent, RunProgram, MayLeave, IsAt;
      ghost var was, op := kernel, DeleteOne(n, x);
      StartsThere(was, op);
      StopsThere(was, op, 0, was);
      var child, error, completed := Ipset(Del(n, x));
      if kernel != was {
        GoesOn(was, op, 0, was);
        StopsThere(was, op, 1, kernel);
      }
      return if completed then Done(child.ok) else Raised;
    }

    /** `execute` for set.replace */
    method ExecuteReplace(n: string, nets: seq<string>) returns (report: Report)
      requires Coherent(kernel) && children == [] && Sorted(nets)
      modifies `kernel, `alive, `children
      ensures Coherent(kernel) && MayLeave(old(kernel), ReplaceAll(n, nets), kernel)
      ensures old(alive).None? ==> (kernel, report) == Effect(old(kernel), ReplaceAll(n, nets))
      ensures report == Done(true) ==> forall i :: 0 <= i < |children| ==> children[i].ok
    {
      ghost var was := kernel;
      ReplaceProgramReplaces(kernel, n, nets);
      assert forall i :: 0 <= i < |ReplaceProgram(n, nets)| ==> !ReplaceProgram(n, nets)[i].InsertRule?;
      hide Coherent, RunProgram, ReplaceProgram;
      var child, completed := Restore(ReplaceProgram(n, nets));
      ghost var p := ReplaceProgram(n, nets);
      ghost var i :| 0 <= i <= |p| && kernel == RunProgram(was, p[..i]).0;
      assert i == |p| ==> p[..i] == p;
      assert kernel == Stopped(was, ReplaceAll(n, nets), i);
      return if completed then Done(child.ok) else Raised;
    }

    /** `execute` for set.rule_ensure: the rule is inserted where the check finds none. */
    method ExecuteEnsure(n: string) returns (report: Report)
      requires Coherent(kernel) && children == []
      modifies `kernel, `alive, `children
      ensures Coherent(kernel) && MayLeave(old(kernel), EnsureRule(n), kernel)
      ensures old(alive).None? ==> (kernel, report) == Effect(old(kernel), EnsureRule(n))
      ensures report == Done(true) ==> forall i :: 0 <= i < |children| ==> children[i].ok
    {
      hide Coherent, RunProgram, MayLeave, IsAt;
      ghost var was, op := kernel, EnsureRule(n);
      StartsThere(was, op);
      StopsThere(was, op, 0, was);
      var child, completed := CheckRule(n);
      if !completed {
        return Raised;
      }
      if child.returncode == 1 {
        MarkLastOk();
        child, completed := AddRule(n);
        if kernel != was {
          GoesOn(was, op, 0, was);
          StopsThere(was, op, 1, kernel);
        }
      }
      return if completed then Done(child.ok) else Raised;
    }

    /** `execute` for set.remove: the rule first, then the contents, then the set. */
    method ExecuteRemove(n: string) returns (report: Report)
      requires Coherent(kernel) && children == []
      modifies `kernel, `alive, `children
      ensures Coherent(kernel) && MayLeave(old(kernel), RemoveSet(n), kernel)
      ensures old(alive).None? ==> (kernel, report) == Effect(old(kernel), RemoveSet(n))
      ensures report == Done(true) ==> forall i :: 0 <= i < |children| ==> children[i].ok
    {
      ghost var was := kernel;
      RemoveFirstRemoves(kernel.rules, n);
      hide Coherent, RunProgram, MayLeave, IsAt, RemoveFirst;
      RemoveStates(was, n);
      var child, completed := DropRule(n);
      if child.returncode == 1 {
        MarkLastOk();
      } else if !child.ok {
        return Raised;
      }
      var error;
      child, error, completed := Ipset(Flush(n));
      // Deleting the rule found the set, so neither the flush nor the destroy can miss it.
      assert error.None?;
      if !child.ok {
        return Raised;
      }
      child, error, completed := Ipset(Destroy(n));
      if !completed {
        return Raised;
      }
      assert error != Some(Missing);
      return Done(child.ok);
    }
  }

  /** Every kernel an add passes through is one it may leave. */
  lemma AddStates(k: Kernel, n: string, x: string)
    ensures MayLeave(k, AddOne(n, x), k)
    ensures var created := Exec(k, Create(n)).value;
            var added := Exec(created, Add(n, x, true));
            && MayLeave(k, AddOne(n, x), created) && (added.Ok? ==> MayLeave(k, AddOne(n, x), added.value))
            && Effect(k, AddOne(n, x)) == if added.Ok? then (added.value, Done(true)) else (created, Done(false))
  {
    var op := AddOne(n, x);
    var created := Exec(k, Create(n)).value;
    StartsThere(k, op);
    StopsThere(k, op, 0, k);
    hide MayLeave, IsAt, RunProgram;
    AddOutcome(k, n, x);
    hide Exec;
    GoesOn(k, op, 0, k);
    StopsThere(k, op, 1, created);
    if Exec(created, Add(n, x, true)).Ok? {
      GoesOn(k, op, 1, created);
      StopsThere(k, op, 2, Exec(created, Add(n, x, true)).value);
    }
  }

  lemma AddOutcome(k: Kernel, n: string, x: string)
    ensures Exec(k, Create(n)).Ok?
    ensures var created := Exec(k, Create(n)).value;
            var added := Exec(created, Add(n, x, true));
            Effect(k, AddOne(n, x)) == if added.Ok? then (added.value, Done(true)) else (created, Done(false))
  {
    var created := Exec(k, Create(n)).value;
    var old' := OldNets(k, n);
    assert created.sets == k.sets[n := old'];
    assert old' + {} == old' && (x in old' ==> old' + {x} == old');
    assert k.sets[n := old'][n := old' + {x}] == k.sets[n := old' + {x}];
  }

  /** Every kernel a removal passes through is one it may leave. */
  lemma RemoveStates(k: Kernel, n: string)
    ensures MayLeave(k, RemoveSet(n), k)
    ensures n in k.sets ==>
              var dropped := k.(rules := RemoveFirst(k.rules, n));
              var emptied := dropped.(sets := k.sets[n := {}]);
              var gone := emptied.(sets := emptied.sets - {n});
              && MayLeave(k, RemoveSet(n), dropped) && MayLeave(k, RemoveSet(n), emptied)
              && (n !in dropped.rules ==> MayLeave(k, RemoveSet(n), gone))
              && gone.sets == k.sets - {n}
  {
    var op := RemoveSet(n);
    StartsThere(k, op);
    StopsThere(k, op, 0, k);
    assert Script(k, op) == [DeleteRule(n), Flush(n), Destroy(n)];
    if n in k.sets {
      var dropped := k.(rules := RemoveFirst(k.rules, n));
      var emptied := dropped.(sets := k.sets[n := {}]);
      var gone := emptied.(sets := emptied.sets - {n});
      assert Exec(k, DeleteRule(n)) == Ok(dropped) && Exec(dropped, Flush(n)) == Ok(emptied);
      assert n !in dropped.rules ==> Exec(emptied, Destroy(n)) == Ok(gone);
      assert gone.sets == k.sets - {n};
      hide MayLeave, IsAt, RunProgram, RemoveFirst, Script, Exec;
      GoesOn(k, op, 0, k);
      StopsThere(k, op, 1, dropped);
      GoesOn(k, op, 1, dropped);
      StopsThere(k, op, 2, emptied);
      if n !in dropped.rules {
        GoesOn(k, op, 2, emptied);
        StopsThere(k, op, 3, gone);
      }
    }
  }
}
