/**
 Settings contexts sharing one django.conf (testit/helpers.py).

 Applying and restoring are each one step, because both run under _CONF_MUTEX.
 A context that is open holds the lines it captured; closing it takes off its own
 keys and nothing else.
 */
module ConfOverlay {
  import opened Wrappers
  import opened Text
  import opened ConfLines
  import opened ConfValues

  datatype Context = Context(overrides: Overrides, snapshot: Snapshot)

  /** The file and the open contexts, in the order they were opened. */
  datatype State = State(text: string, contexts: seq<Context>)

  /** A context is closed by its place among the open ones. */
  datatype Step = Open(overrides: Overrides) | Close(at: nat)

  ghost predicate Possible(s: State, step: Step) {
    match step
    case Open(ov) => WellFormedOverrides(ov)
    case Close(i) => i < |s.contexts|
  }

  predicate Apart(a: Context, b: Context) {
    a.overrides.at.Keys !! b.overrides.at.Keys
  }

  /** Of the contexts that share a key, the last opened closes first. */
  ghost predicate Enabled(s: State, step: Step) {
    && Possible(s, step)
    && (step.Close? ==> forall j :: step.at < j < |s.contexts| ==> Apart(s.contexts[step.at], s.contexts[j]))
  }

  /** The contexts left when one closes. */
  function Without(contexts: seq<Context>, i: nat): seq<Context>
    requires i < |contexts|
  {
    contexts[..i] + contexts[i + 1..]
  }

  function Next(s: State, step: Step): State {
    match step
    case Open(ov) =>
      State(ApplyText(s.text, ov), s.contexts + [Context(ov, CaptureText(s.text, ov.order))])
    case Close(i) =>
      if i >= |s.contexts| then s
      else State(RestoreText(s.text, s.contexts[i].snapshot), Without(s.contexts, i))
  }

  ghost predicate PossibleRun(s: State, steps: seq<Step>)
    decreases steps
  {
    steps == [] || (Possible(s, steps[0]) && PossibleRun(Next(s, steps[0]), steps[1..]))
  }

  ghost predicate ValidRun(s: State, steps: seq<Step>)
    decreases steps
  {
    steps == [] || (Enabled(s, steps[0]) && ValidRun(Next(s, steps[0]), steps[1..]))
  }

  function Run(s: State, steps: seq<Step>): State
    decreases steps
  {
    if steps == [] then s else Run(Next(s, steps[0]), steps[1..])
  }

  // ---------- the overlay invariant ----------

  /** What a key should read as: what the base file says, or an override's value. */
  datatype Reading = FromBase(text: Option<string>) | FromOverride(value: Value)

  /** The innermost open override, else the base file. */
  function Reads(base: string, contexts: seq<Context>, k: string): Reading {
    if contexts == [] then FromBase(TextSetting(base, k))
    else
      var last := contexts[|contexts| - 1];
      if k in last.overrides.at then FromOverride(last.overrides.at[k])
      else Reads(base, contexts[..|contexts| - 1], k)
  }

  /** The text of a setting does so: it is the base's own, or the loader reads the value from it. */
  predicate Matches(text: Option<string>, r: Reading) {
    match r
    case FromBase(t) => text == t
    case FromOverride(v) => Parsed(text) == Some(ReadAs(v))
  }

  function Meaning(r: Reading): Option<Typed> {
    match r
    case FromBase(t) => Parsed(t)
    case FromOverride(v) => Some(ReadAs(v))
  }

  /** A context's captured lines still say what its keys read before it opened. */
  ghost predicate HoldsOuter(base: string, contexts: seq<Context>, i: nat)
    requires i < |contexts|
  {
    var c := contexts[i];
    && WellFormedOverrides(c.overrides)
    && WellFormedSnapshot(c.snapshot)
    && c.snapshot.at.Keys == c.overrides.at.Keys
    && forall k :: k in c.snapshot.at ==> Matches(ValueOf(c.snapshot.at[k]), Reads(base, contexts[..i], k))
  }

  ghost predicate Inv(base: string, s: State) {
    && (forall k :: Matches(TextSetting(s.text, k), Reads(base, s.contexts, k)))
    && (forall i :: 0 <= i < |s.contexts| ==> HoldsOuter(base, s.contexts, i))
  }

  lemma OpenKeepsInv(base: string, s: State, ov: Overrides)
    requires Inv(base, s) && Enabled(s, Open(ov))
    ensures Inv(base, Next(s, Open(ov)))
  {
    hide WellFormedOverrides, WellFormedSnapshot, ApplyText, CaptureText, TextSetting;
    hide ReadAs, Strip, ValueOf, ParseValue, FloatText;
    var s' := Next(s, Open(ov));
    var n := |s.contexts|;
    CaptureTextSettings(s.text, ov);
    assert s'.contexts[..n] == s.contexts;
    forall i | 0 <= i < |s'.contexts| ensures HoldsOuter(base, s'.contexts, i) {
      if i < n {
        assert HoldsOuter(base, s.contexts, i) && s'.contexts[..i] == s.contexts[..i];
      }
    }
    forall k ensures Matches(TextSetting(s'.text, k), Reads(base, s'.contexts, k)) {
      ApplyTextSettings(s.text, ov, k);
    }
  }

  /** Taking a context out changes nothing for keys it does not have. */
  lemma {:induction false} ReadsPast(base: string, outer: seq<Context>, c: Context, inner: seq<Context>, k: string)
    requires k !in c.overrides.at
    ensures Reads(base, outer + inner, k) == Reads(base, outer + [c] + inner, k)
  {
    hide TextSetting;
    if inner == [] {
      assert outer + inner == outer && (outer + [c] + inner)[..|outer|] == outer;
    } else {
      var n := |inner| - 1;
      ReadsPast(base, outer, c, inner[..n], k);
      assert (outer + inner)[..|outer| + n] == outer + inner[..n];
      assert (outer + [c] + inner)[..|outer| + 1 + n] == outer + [c] + inner[..n];
    }
  }

  /** A key that no inner context has reads as it does outside them. */
  lemma {:induction false} ReadsOuter(base: string, outer: seq<Context>, inner: seq<Context>, k: string)
    requires forall j :: 0 <= j < |inner| ==> k !in inner[j].overrides.at
    ensures Reads(base, outer + inner, k) == Reads(base, outer, k)
  {
    hide TextSetting;
    if inner == [] {
      assert outer + inner == outer;
    } else {
      var n := |inner| - 1;
      ReadsOuter(base, outer, inner[..n], k);
      assert (outer + inner)[..|outer| + n] == outer + inner[..n];
    }
  }

  /** Taking a context out that shares no key with the inner ones gives back, for its keys, what it captured. */
  lemma ReadsWithout(base: string, outer: seq<Context>, c: Context, inner: seq<Context>, k: string)
    requires forall j :: 0 <= j < |inner| ==> Apart(c, inner[j])
    ensures Reads(base, outer + inner, k) ==
            if k in c.overrides.at then Reads(base, outer, k) else Reads(base, outer + [c] + inner, k)
  {
    if k in c.overrides.at {
      forall j | 0 <= j < |inner| ensures k !in inner[j].overrides.at { assert Apart(c, inner[j]); }
      ReadsOuter(base, outer, inner, k);
    } else {
      ReadsPast(base, outer, c, inner, k);
    }
  }

  lemma CloseKeepsInv(base: string, s: State, i: nat)
    requires Inv(base, s) && Enabled(s, Close(i))
    ensures Inv(base, Next(s, Close(i)))
  {
    hide WellFormedOverrides, WellFormedSnapshot, RestoreText, TextSetting, Reads, ValueOf, Matches;
    var s' := Next(s, Close(i));
    var c := s.contexts[i];
    assert HoldsOuter(base, s.contexts, i);
    forall k ensures Matches(TextSetting(s'.text, k), Reads(base, s'.contexts, k)) {
      RestoreTextSettings(s.text, c.snapshot, k);
      ReadsWithout(base, s.contexts[..i], c, s.contexts[i + 1..], k);
      assert s.contexts[..i] + [c] + s.contexts[i + 1..] == s.contexts;
    }
    forall j | 0 <= j < |s'.contexts| ensures HoldsOuter(base, s'.contexts, j) {
      if j < i {
        assert HoldsOuter(base, s.contexts, j) && s'.contexts[..j] == s.contexts[..j];
      } else {
        StillHoldsOuter(base, s, i, j);
      }
    }
  }

  /** What matches a reading has its meaning. */
  lemma MatchesMeans(text: Option<string>, r: Reading)
    requires Matches(text, r)
    ensures Parsed(text) == Meaning(r)
  {
    hide ReadAs, ParseValue;
  }

  /**
   Closing a context, wherever it stands, leaves every key meaning what its innermost open
   override does exactly when each of its keys meant the same before it opened as it does
   in the contexts that are left.
   */
  lemma CloseOverlaysExactlyWhen(base: string, s: State, i: nat)
    requires Inv(base, s) && i < |s.contexts|
    ensures var s' := Next(s, Close(i));
            && s'.contexts == Without(s.contexts, i)
            && ((forall k :: TypedSetting(s'.text, k) == Meaning(Reads(base, s'.contexts, k))) <==>
                (forall k :: k in s.contexts[i].overrides.at ==>
                   Meaning(Reads(base, s.contexts[..i], k)) == Meaning(Reads(base, Without(s.contexts, i), k))))
  {
    hide WellFormedOverrides, WellFormedSnapshot, RestoreText, TextSetting, Reads, ValueOf, Matches, Meaning, Parsed;
    var s' := Next(s, Close(i));
    var c := s.contexts[i];
    assert HoldsOuter(base, s.contexts, i);
    assert s.contexts[..i] + [c] + s.contexts[i + 1..] == s.contexts;
    forall k
      ensures TypedSetting(s'.text, k) ==
              Meaning(Reads(base, if k in c.overrides.at then s.contexts[..i] else s'.contexts, k))
    {
      RestoreTextSettings(s.text, c.snapshot, k);
      if k in c.overrides.at {
        MatchesMeans(ValueOf(c.snapshot.at[k]), Reads(base, s.contexts[..i], k));
      } else {
        ReadsPast(base, s.contexts[..i], c, s.contexts[i + 1..], k);
        MatchesMeans(TextSetting(s.text, k), Reads(base, s.contexts, k));
      }
    }
  }

  lemma StillHoldsOuter(base: string, s: State, i: nat, j: nat)
    requires Inv(base, s) && Enabled(s, Close(i)) && i <= j && j + 1 < |s.contexts|
    ensures HoldsOuter(base, s.contexts[..i] + s.contexts[i + 1..], j)
  {
    hide WellFormedOverrides, WellFormedSnapshot, TextSetting, Reads, ValueOf, Matches;
    var rest := s.contexts[..i] + s.contexts[i + 1..];
    assert HoldsOuter(base, s.contexts, j + 1) && rest[j] == s.contexts[j + 1];
    assert Apart(s.contexts[i], s.contexts[j + 1]);
    forall k | k in rest[j].snapshot.at ensures Reads(base, rest[..j], k) == Reads(base, s.contexts[..j + 1], k) {
      var inner := s.contexts[i + 1..j + 1];
      ReadsWithout(base, s.contexts[..i], s.contexts[i], inner, k);
      assert rest[..j] == s.contexts[..i] + inner;
      assert s.contexts[..j + 1] == s.contexts[..i] + [s.contexts[i]] + inner;
    }
  }

  /**
   At every step of every interleaving in which contexts sharing a key nest, each key
   reads as its innermost open override, and as the base where there is none.
   */
  lemma {:induction false} RunReadsOverlay(base: string, s: State, steps: seq<Step>)
    requires Inv(base, s) && ValidRun(s, steps)
    ensures Inv(base, Run(s, steps))
    decreases steps
  {
    hide Inv, Enabled, Next;
    if steps != [] {
      match steps[0] {
        case Open(ov) => OpenKeepsInv(base, s, ov);
        case Close(i) => CloseKeepsInv(base, s, i);
      }
      RunReadsOverlay(base, Next(s, steps[0]), steps[1..]);
    }
  }

  /** From a file nobody has overridden, any such run overlays, and closing everything restores. */
  lemma ContextsRestoreBase(base: string, steps: seq<Step>)
    requires ValidRun(State(base, []), steps)
    ensures var s := Run(State(base, []), steps);
            && (forall k :: TypedSetting(s.text, k) == Meaning(Reads(base, s.contexts, k)))
            && (s.contexts == [] ==> forall k :: TextSetting(s.text, k) == TextSetting(base, k))
  {
    hide ReadAs, ParseValue, TextSetting;
    RunReadsOverlay(base, State(base, []), steps);
  }

  // ---------- contexts with different keys ----------

  predicate AllApart(contexts: seq<Context>) {
    forall i, j :: 0 <= i < j < |contexts| ==> Apart(contexts[i], contexts[j])
  }

  /** Contexts open only with keys no open one has, and close in any order whatever. */
  ghost predicate DisjointRun(s: State, steps: seq<Step>)
    decreases steps
  {
    steps == [] ||
    ( && Possible(s, steps[0])
      && (steps[0].Open? ==> forall i :: 0 <= i < |s.contexts| ==>
            s.contexts[i].overrides.at.Keys !! steps[0].overrides.at.Keys)
      && DisjointRun(Next(s, steps[0]), steps[1..]))
  }

  lemma {:induction false} DisjointRunsAreValid(s: State, steps: seq<Step>)
    requires AllApart(s.contexts) && DisjointRun(s, steps)
    ensures ValidRun(s, steps) && AllApart(Run(s, steps).contexts)
    decreases steps
  {
    hide ApplyText, CaptureText, RestoreText, WellFormedOverrides;
    if steps != [] { DisjointRunsAreValid(Next(s, steps[0]), steps[1..]); }
  }

  lemma {:induction false} ReadsOwn(base: string, contexts: seq<Context>, i: nat, k: string)
    requires AllApart(contexts) && i < |contexts| && k in contexts[i].overrides.at
    ensures Reads(base, contexts, k) == FromOverride(contexts[i].overrides.at[k])
  {
    var n := |contexts| - 1;
    if i < n {
      assert Apart(contexts[i], contexts[n]);
      ReadsOwn(base, contexts[..n], i, k);
    }
  }

  /** With different keys every open context reads its own values, however the others come and go. */
  lemma DisjointContextsReadTheirOwn(base: string, steps: seq<Step>, i: nat, k: string)
    requires DisjointRun(State(base, []), steps)
    ensures var s := Run(State(base, []), steps);
            && (i < |s.contexts| && k in s.contexts[i].overrides.at ==>
                  TypedSetting(s.text, k) == Some(ReadAs(s.contexts[i].overrides.at[k])))
            && (s.contexts == [] ==> TextSetting(s.text, k) == TextSetting(base, k))
  {
    hide TextSetting, ReadAs, ParseValue, Reads;
    DisjointRunsAreValid(State(base, []), steps);
    ContextsRestoreBase(base, steps);
    var s := Run(State(base, []), steps);
    if i < |s.contexts| && k in s.contexts[i].overrides.at { ReadsOwn(base, s.contexts, i, k); }
  }

  // ---------- lines nobody captured ----------

  /** The lines of keys outside K, in order. */
  function Others(ls: seq<string>, K: set<string>): seq<string> {
    if ls == [] then []
    else (if ConfLineKey(ls[0]).Some? && ConfLineKey(ls[0]).value in K then [] else [ls[0]]) + Others(ls[1..], K)
  }

  lemma {:induction false} OthersAppend(a: seq<string>, b: seq<string>, K: set<string>)
    ensures Others(a + b, K) == Others(a, K) + Others(b, K)
  {
    hide ConfLineKey;
    if a == [] {
      assert a + b == b;
    } else {
      assert (a + b)[1..] == a[1..] + b;
      OthersAppend(a[1..], b, K);
    }
  }

  lemma OverrideLineKey(k: string, v: Value)
    requires WellFormedKey(k) && IsOneLine(v)
    ensures ConfLineKey(OverrideLine(k, v)) == Some(k)
  {
    OverrideLineShape(k, v);
    ConfLineKeyAgrees(OverrideLine(k, v), k);
  }

  lemma {:induction false} OthersReplaced(ls: seq<string>, ov: Overrides, K: set<string>)
    requires WellFormedOverrides(ov) && ov.at.Keys <= K
    ensures Others(Replaced(ls, ov), K) == Others(ls, K)
  {
    hide ConfLineKey, OverrideLine;
    if ls != [] {
      OthersReplaced(ls[1..], ov, K);
      var c := ConfLineKey(ls[0]);
      if c.Some? && c.value in ov.at { OverrideLineKey(c.value, ov.at[c.value]); }
      assert Replaced(ls, ov)[1..] == Replaced(ls[1..], ov);
    }
  }

  lemma {:induction false} OthersMissing(ls: seq<string>, order: seq<string>, ov: Overrides, K: set<string>)
    requires WellFormedOverrides(ov) && ov.at.Keys <= K
    ensures Others(Missing(ls, order, ov.at), K) == []
  {
    hide ConfLineKey, OverrideLine, LastLine;
    if order != [] {
      var x := order[0];
      var part, rest := MissingPart(ls, x, ov.at), Missing(ls, order[1..], ov.at);
      OthersMissing(ls, order[1..], ov, K);
      OthersAppend(part, rest, K);
      if x in ov.at { OverrideLineKey(x, ov.at[x]); }
      assert part != [] ==> part[1..] == [];
    }
  }

  lemma SnapshotLineKey(snap: Snapshot, k: string)
    requires WellFormedSnapshot(snap) && k in snap.at && snap.at[k].Some?
    ensures ConfLineKey(snap.at[k].value) == Some(k)
  {
    ConfLineKeyAgrees(snap.at[k].value, k);
  }

  lemma {:induction false} OthersKept(ls: seq<string>, snap: Snapshot, K: set<string>)
    requires WellFormedSnapshot(snap) && snap.at.Keys <= K
    ensures Others(Kept(ls, snap), K) == Others(ls, K)
  {
    hide ConfLineKey, LastLine;
    if ls != [] {
      var part, rest := KeptPart(ls[0], ls[1..], snap), Kept(ls[1..], snap);
      OthersKept(ls[1..], snap, K);
      OthersAppend(part, rest, K);
      var c := ConfLineKey(ls[0]);
      if c.Some? && c.value in snap.at && snap.at[c.value].Some? { SnapshotLineKey(snap, c.value); }
      assert part != [] ==> part[1..] == [];
    }
  }

  lemma {:induction false} OthersVanished(ls: seq<string>, order: seq<string>, snap: Snapshot, K: set<string>)
    requires WellFormedSnapshot(snap) && snap.at.Keys <= K
    ensures Others(Vanished(ls, order, snap.at), K) == []
  {
    hide ConfLineKey, LastLine;
    if order != [] {
      var x := order[0];
      var part, rest := VanishedPart(ls, x, snap.at), Vanished(ls, order[1..], snap.at);
      OthersVanished(ls, order[1..], snap, K);
      OthersAppend(part, rest, K);
      if x in snap.at && snap.at[x].Some? { SnapshotLineKey(snap, x); }
      assert part != [] ==> part[1..] == [];
    }
  }

  /** Every line of the text ends in a newline. */
  ghost predicate Newlined(t: string) {
    forall i :: 0 <= i < |SplitLines(t)| ==> EndsInNewline(SplitLines(t)[i])
  }

  ghost predicate SnapshotNewlined(snap: Snapshot) {
    forall k :: k in snap.at && snap.at[k].Some? ==> EndsInNewline(snap.at[k].value)
  }

  lemma ApplyKeepsOthers(t: string, ov: Overrides, K: set<string>)
    requires WellFormedOverrides(ov) && ov.at.Keys <= K && Newlined(t)
    ensures Newlined(ApplyText(t, ov)) && SnapshotNewlined(CaptureText(t, ov.order))
    ensures Others(SplitLines(ApplyText(t, ov)), K) == Others(SplitLines(t), K)
  {
    hide SplitLines, WellFormedOverrides, LastLine, ConfLineKey, Others, EndsInNewline, Replaced, Missing, IsLine;
    var ls := SplitLines(t);
    SplitLinesShape(t);
    AppliedTextSplits(ls, ov);
    ReplacedAreLines(ls, ov);
    MissingAreLines(ls, ov.order, ov);
    OthersReplaced(ls, ov, K);
    OthersMissing(ls, ov.order, ov, K);
    OthersAppend(Replaced(ls, ov), Missing(ls, ov.order, ov.at), K);
  }

  lemma {:induction false} KeptNewlined(ls: seq<string>, snap: Snapshot)
    requires SnapshotNewlined(snap) && forall i :: 0 <= i < |ls| ==> EndsInNewline(ls[i])
    ensures forall i :: 0 <= i < |Kept(ls, snap)| ==> EndsInNewline(Kept(ls, snap)[i])
  {
    if ls != [] { KeptNewlined(ls[1..], snap); }
  }

  lemma {:induction false} VanishedNewlined(ls: seq<string>, order: seq<string>, snap: Snapshot)
    requires SnapshotNewlined(snap)
    ensures forall i :: 0 <= i < |Vanished(ls, order, snap.at)| ==> EndsInNewline(Vanished(ls, order, snap.at)[i])
  {
    if order != [] { VanishedNewlined(ls, order[1..], snap); }
  }

  lemma RestoreKeepsOthers(t: string, snap: Snapshot, K: set<string>)
    requires WellFormedSnapshot(snap) && snap.at.Keys <= K && Newlined(t) && SnapshotNewlined(snap)
    ensures Newlined(RestoreText(t, snap))
    ensures Others(SplitLines(RestoreText(t, snap)), K) == Others(SplitLines(t), K)
  {
    hide SplitLines, WellFormedSnapshot, LastLine, ConfLineKey, Others, EndsInNewline, Kept, Vanished, IsLine;
    if snap.order != [] {
      var ls := SplitLines(t);
      SplitLinesShape(t);
      KeptNewlined(ls, snap);
      VanishedNewlined(ls, snap.order, snap);
      RestoreLinesAreLines(ls, snap);
      SplitJoined(RestoreLines(ls, snap));
      ResplitIdentity(RestoreLines(ls, snap));
      OthersKept(ls, snap, K);
      OthersVanished(ls, snap.order, snap, K);
      OthersAppend(Kept(ls, snap), Vanished(ls, snap.order, snap.at), K);
    }
  }

  /** The keys a run ever overrides all lie in K. */
  ghost predicate KeysWithin(steps: seq<Step>, K: set<string>) {
    forall i :: 0 <= i < |steps| && steps[i].Open? ==> steps[i].overrides.at.Keys <= K
  }

  ghost predicate ContextsWithin(s: State, K: set<string>) {
    forall i :: 0 <= i < |s.contexts| ==>
      && WellFormedSnapshot(s.contexts[i].snapshot)
      && s.contexts[i].snapshot.at.Keys <= K && SnapshotNewlined(s.contexts[i].snapshot)
  }

  lemma StepKeepsOthers(s: State, step: Step, K: set<string>)
    requires Possible(s, step) && ContextsWithin(s, K) && Newlined(s.text)
    requires step.Open? ==> step.overrides.at.Keys <= K
    ensures ContextsWithin(Next(s, step), K) && Newlined(Next(s, step).text)
    ensures Others(SplitLines(Next(s, step).text), K) == Others(SplitLines(s.text), K)
  {
    hide SplitLines, Others, Newlined, ApplyText, RestoreText, CaptureText, WellFormedOverrides, WellFormedSnapshot;
    hide SnapshotNewlined, TextSetting, ValueOf;
    match step
    case Open(ov) =>
      ApplyKeepsOthers(s.text, ov, K);
      CaptureTextSettings(s.text, ov);
    case Close(i) =>
      RestoreKeepsOthers(s.text, s.contexts[i].snapshot, K);
  }

  /** Lines of keys no context ever overrides keep their bytes and their order, whatever closes when. */
  lemma {:induction false} RunKeepsOthers(s: State, steps: seq<Step>, K: set<string>)
    requires PossibleRun(s, steps) && KeysWithin(steps, K) && ContextsWithin(s, K) && Newlined(s.text)
    ensures Others(SplitLines(Run(s, steps).text), K) == Others(SplitLines(s.text), K)
    decreases steps
  {
    hide SplitLines, Others, Newlined, ContextsWithin, Possible, Next;
    if steps != [] {
      assert steps[0].Open? ==> steps[0].overrides.at.Keys <= K;
      StepKeepsOthers(s, steps[0], K);
      assert KeysWithin(steps[1..], K) by {
        forall i | 0 <= i < |steps[1..]| && steps[1..][i].Open? ensures steps[1..][i].overrides.at.Keys <= K {
          assert steps[1..][i] == steps[i + 1];
        }
      }
      RunKeepsOthers(Next(s, steps[0]), steps[1..], K);
    }
  }

  // ---------- why the order matters ----------

  /** Two contexts on one key that close in the order they opened leave the first one's value behind. */
  lemma OverlapStrandsOverride(t: string, a: Overrides, b: Overrides, k: string)
    requires WellFormedOverrides(a) && WellFormedOverrides(b) && k in a.at && k in b.at
    ensures
      var t1 := ApplyText(t, a);
      var t2 := ApplyText(t1, b);
      var t3 := RestoreText(t2, CaptureText(t, a.order));
      var t4 := RestoreText(t3, CaptureText(t1, b.order));
      && TypedSetting(t4, k) == Some(ReadAs(a.at[k]))
      && (TypedSetting(t4, k) == TypedSetting(t, k) <==> TypedSetting(t, k) == Some(ReadAs(a.at[k])))
  {
    var t1 := ApplyText(t, a);
    var t2 := ApplyText(t1, b);
    var t3 := RestoreText(t2, CaptureText(t, a.order));
    CaptureTextSettings(t1, b);
    RestoreTextSettings(t3, CaptureText(t1, b.order), k);
    ApplyTextSettings(t, a, k);
  }

  // ---------- the file on disk and one context's exit paths ----------

  /** What the worker announces about itself; the fingerprint stands for the bytes it hashes. */
  datatype Signal = Signal(pid: int, fingerprint: Option<string>)

  /**
   How the wait for the overrides ends: the worker is there, the wait gives up in the way
   that is handled, or it is torn down by an interrupt or a raise nothing handles.
   */
  datatype Wait = Up | GivesUp | Torn

  /**
   What one context meets on its way: the signal found first, how each wait and the body
   end, and whether looking at the signal again after the body is cut off.
   */
  datatype Course = Course(before: Option<Signal>, wait: Wait, bodyRaises: bool, cutOff: bool, comesBack: bool)

  datatype Outcome = Completed | BodyRaised | NeverUp | Unverified | NeverBack | LeftOpen

  /** The file means what it meant before, byte for byte where the round trip is exact. */
  ghost predicate IsBack(was: string, ov: Overrides, text: string) {
    && (forall k :: TextSetting(text, k) == TextSetting(was, k))
    && (AssignedOnce(SplitLines(was), ov) && NewlineTerminated(SplitLines(was), ov) ==> text == was)
  }

  /** The file means what it meant before under exactly the overrides. */
  ghost predicate ReadsUnder(was: string, ov: Overrides, text: string) {
    forall k ::
      if k in ov.at then TypedSetting(text, k) == Some(ReadAs(ov.at[k]))
      else TextSetting(text, k) == TextSetting(was, k)
  }

  lemma ContextComesBack(was: string, ov: Overrides)
    requires WellFormedOverrides(ov)
    ensures WellFormedSnapshot(CaptureText(was, ov.order))
    ensures ReadsUnder(was, ov, ApplyText(was, ov))
    ensures IsBack(was, ov, RestoreText(ApplyText(was, ov), CaptureText(was, ov.order)))
  {
    hide ApplyText, RestoreText, CaptureText, TextSetting, SplitLines, AssignedOnce, NewlineTerminated;
    hide ReadAs, ParseValue, Strip, FloatText, WellFormedOverrides, WellFormedSnapshot;
    CaptureTextSettings(was, ov);
    forall k
      ensures if k in ov.at then TypedSetting(ApplyText(was, ov), k) == Some(ReadAs(ov.at[k]))
              else TextSetting(ApplyText(was, ov), k) == TextSetting(was, k)
    {
      ApplyTextSettings(was, ov, k);
    }
    var back := RestoreText(ApplyText(was, ov), CaptureText(was, ov.order));
    forall k ensures TextSetting(back, k) == TextSetting(was, k) {
      RoundTripKeepsMeaning(was, ov, k);
    }
    if AssignedOnce(SplitLines(was), ov) && NewlineTerminated(SplitLines(was), ov) {
      RoundTripKeepsBytes(was, ov);
    }
  }

  class ConfFile {
    var text: string

    constructor (text: string)
      ensures this.text == text
    {
      this.text := text;
    }

    /** `_conf_write`: returns the fingerprint and whether a write happened. */
    method Write(newText: string) returns (sha: string, changed: bool)
      modifies this
      ensures text == newText && sha == newText && (changed <==> newText != old(text))
    {
      changed := newText != text;
      if changed {
        text := newText;
      }
      sha := newText;
    }

    /** `_conf_apply` */
    method Apply(ov: Overrides) returns (snap: Snapshot, sha: string, changed: bool)
      requires WellFormedOverrides(ov)
      modifies this
      ensures text == ApplyText(old(text), ov) && snap == CaptureText(old(text), ov.order)
      ensures sha == text && (changed <==> text != old(text))
    {
      snap := CaptureConfLines(text, ov);
      var newText := ApplyConfOverrides(text, ov);
      sha, changed := Write(newText);
    }

    /** `_conf_restore` */
    method Restore(snap: Snapshot) returns (sha: string, changed: bool)
      requires WellFormedSnapshot(snap)
      modifies this
      ensures text == RestoreText(old(text), snap)
      ensures sha == text && (changed <==> text != old(text))
    {
      var newText := RestoreConfOverrides(text, snap);
      sha, changed := Write(newText);
    }

    /**
     `server_settings` running alone: the file means what it meant before, unless the first
     wait is torn down or the look at the signal after the body is cut off; exactly then
     the overrides stay on it. The body, when it runs, runs under exactly the overrides.
     */
    method ServerSettings(ov: Overrides, course: Course) returns (outcome: Outcome, during: Option<string>)
      requires WellFormedOverrides(ov)
      modifies this
      ensures var applied := ApplyText(old(text), ov);
              var waits := course.before.None? || applied != old(text);
              var stale := !waits && course.before.value.fingerprint !in {None, Some(applied)};
              var starts := if waits then course.wait.Up? else !stale;
              && (outcome == Unverified <==> stale)
              && (outcome == NeverUp <==> waits && course.wait.GivesUp?)
              && (outcome == LeftOpen <==>
                  (waits && course.wait.Torn?) || (starts && course.before.Some? && course.cutOff))
              && (during.Some? <==> starts)
              && (outcome in {Completed, BodyRaised, NeverBack} <==> starts && !(course.before.Some? && course.cutOff))
      ensures outcome == LeftOpen ==> text == ApplyText(old(text), ov)
      ensures outcome != LeftOpen ==> IsBack(old(text), ov, text)
      ensures during.Some? ==> ReadsUnder(old(text), ov, during.value)
      ensures outcome == BodyRaised ==> course.bodyRaises
      ensures outcome == Completed ==> !course.bodyRaises
      ensures outcome == NeverBack ==> !course.comesBack
    {
      ghost var was := text;
      during := None;
      var snap, sha, changed := Apply(ov);
      var applied := text;
      ContextComesBack(was, ov);
      hide ApplyText, RestoreText, CaptureText, IsBack, ReadsUnder, WellFormedOverrides, WellFormedSnapshot;
      var unused, restored;
      if course.before.None? || changed {
        if course.wait.Torn? {
          return LeftOpen, None;
        } else if course.wait.GivesUp? {
          unused, restored := Restore(snap);
          return NeverUp, None;
        }
      } else if course.before.value.fingerprint.Some? && course.before.value.fingerprint.value != sha {
        unused, restored := Restore(snap);
        return Unverified, None;
      }
      during := Some(applied);
      if course.before.Some? && course.cutOff {
        return LeftOpen, during;
      }
      outcome := if course.bodyRaises then BodyRaised else Completed;
      unused, restored := Restore(snap);
      if (course.before.None? || restored) && !course.comesBack {
        outcome := NeverBack;
      }
    }
  }
}
