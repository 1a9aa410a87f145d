/**
 Installing a Linux Audit policy with rollback (mojo/deploy/audit.py).

 The rules directory is a map from paths to contents; paths are numbered in the
 order a sorted listing gives. Digests are modelled by the digested values
 themselves. `augenrules --load` is a fixed function of the rule files. Every step
 that can raise may do so, and the process may be killed between any two changes:
 the trace holds the state after each single change.
 */
module AuditPolicy {
  import opened Wrappers
  import Sets
  import opened Text

  type Path = nat

  const MANAGED_PATH: Path := 70
  const MANAGED_MARKER := "# managed-by: django-mojo mojosec-audit-v1"
  const SEED_DIRECTIVES := {"-D", "-a task,never", "-a never,task"}
  const SEED_ACTIVE := {"-a task,never", "-a never,task"}

  // ---------- contents ----------

  const PREAMBLE := "\n-D\n-b 8192\n-f 1\n-r 0\n"

  const SUDO_RULE := "-w /usr/bin/sudo -p x -k mojosec-sudo\n"

  function RootRule(arch: string, uid: string): string {
    "-a always,exit -F arch=" + arch + " -S execve,execveat -F euid=0 -F auid!=" + uid + " -k mojosec-root-exec\n"
  }

  function AppRule(arch: string, uid: string): string {
    "-a always,exit -F arch=" + arch + " -S execve,execveat -F auid=" + uid +
    " -F auid!=4294967295 -F exe!=/usr/bin/sudo -k mojosec-app-exec\n"
  }

  function ArchRules(arch: string, uid: string): string {
    RootRule(arch, uid) + AppRule(arch, uid)
  }

  /** `render_policy` */
  function RenderPolicy(uid: int): Result<string, string> {
    if !(1 <= uid < 4294967295) then Err("application UID is invalid")
    else Ok(MANAGED_MARKER + PolicyBody(NatText(uid)))
  }

  function PolicyBody(uid: string): string {
    PREAMBLE + ArchRules("b64", uid) + ArchRules("b32", uid) + SUDO_RULE
  }

  predicate IsManaged(content: string) {
    MANAGED_MARKER <= content
  }

  lemma PolicyIsManaged(uid: int)
    requires RenderPolicy(uid).Ok?
    ensures IsManaged(RenderPolicy(uid).value)
  {
    hide PolicyBody;
  }

  /** Both architectures have their rules, for root and for the application's user, and sudo is watched. */
  lemma PolicyWatches(uid: int, arch: string)
    requires RenderPolicy(uid).Ok? && (arch == "b64" || arch == "b32")
    ensures
      var policy, id := RenderPolicy(uid).value, NatText(uid);
      && Has(policy, "-a always,exit -F arch=" + arch + " -S execve,execveat -F euid=0 -F auid!=" + id +
                     " -k mojosec-root-exec\n")
      && Has(policy, "-a always,exit -F arch=" + arch + " -S execve,execveat -F auid=" + id +
                     " -F auid!=4294967295 -F exe!=/usr/bin/sudo -k mojosec-app-exec\n")
      && Has(policy, "-w /usr/bin/sudo -p x -k mojosec-sudo\n")
      && Has(policy, "\n-D\n-b 8192\n-f 1\n-r 0\n")
  {
    hide NatText, RenderPolicy, Has;
    PolicyHasRules(uid, arch);
  }

  lemma PolicyHasRules(uid: int, arch: string)
    requires RenderPolicy(uid).Ok? && (arch == "b64" || arch == "b32")
    ensures var policy, id := RenderPolicy(uid).value, NatText(uid);
            && Has(policy, RootRule(arch, id)) && Has(policy, AppRule(arch, id))
            && Has(policy, SUDO_RULE) && Has(policy, PREAMBLE)
  {
    hide NatText, MANAGED_MARKER, PREAMBLE, Has, RootRule, AppRule, SUDO_RULE;
    var id := NatText(uid);
    var root64, app64 := RootRule("b64", id), AppRule("b64", id);
    PolicyParts(MANAGED_MARKER, PREAMBLE, root64, app64, RootRule("b32", id), AppRule("b32", id), SUDO_RULE);
  }

  lemma PolicyParts(m: string, p: string, r1: string, a1: string, r2: string, a2: string, s: string)
    ensures var policy := m + (p + (r1 + a1) + (r2 + a2) + s);
            Has(policy, p) && Has(policy, r1) && Has(policy, a1) && Has(policy, r2) && Has(policy, a2) && Has(policy, s)
  {
    var policy := m + (p + (r1 + a1) + (r2 + a2) + s);
    assert policy == m + p + (r1 + a1 + r2 + a2 + s);
    assert policy == (m + p) + r1 + (a1 + r2 + a2 + s);
    assert policy == (m + p + r1) + a1 + (r2 + a2 + s);
    assert policy == (m + p + r1 + a1) + r2 + (a2 + s);
    assert policy == (m + p + r1 + a1 + r2) + a2 + s;
    assert policy == (m + p + r1 + a1 + r2 + a2) + s + [];
  }

  ghost predicate Has(text: string, part: string) {
    exists a, b :: text == a + part + b
  }

  function Newlines(s: string): string {
    seq(|s|, i requires 0 <= i < |s| => if s[i] == '\r' then '\n' else s[i])
  }

  function EffectiveDirectives(lines: seq<string>): seq<string> {
    if lines == [] then []
    else
      var line := Join(" ", Words(lines[0]));
      (if line == "" || line[0] == '#' then [] else [line]) + EffectiveDirectives(lines[1..])
  }

  /** `_is_seed_form` */
  predicate IsSeedForm(content: string) {
    forall line :: line in EffectiveDirectives(SplitLines(Newlines(content))) ==> line in SEED_DIRECTIVES
  }

  predicate Contains(text: string, needle: string) {
    exists i :: 0 <= i <= |text| && needle <= text[i..]
  }

  predicate NeverAudits(active: string) {
    Contains(active, "task,never") || Contains(active, "never,task")
  }

  // ---------- the host ----------

  type Files = map<Path, string>

  /** What `augenrules --load` generates and makes active. */
  type Loader = Files -> (Option<string>, string)

  datatype Inventory = Inventory(sources: Files, generated: Option<string>, active: string)

  datatype Record = Record(prior: Inventory, previous: Inventory, generation: string)

  datatype Host = Host(files: Files, generated: Option<string>, active: string, record: Option<Record>)

  datatype Kind = Seed | Managed

  function ManagedPaths(files: Files): set<Path> {
    set p | p in files && IsManaged(files[p])
  }

  /** `inventory_sources`, as far as it can refuse or classify. */
  function Classify(files: Files, active: string): Option<Kind> {
    if (exists p :: p in files && !IsManaged(files[p]) && !IsSeedForm(files[p])) || |ManagedPaths(files)| > 1 then None
    else if ManagedPaths(files) != {} then Some(Managed)
    else if Strip(active) in SEED_ACTIVE then Some(Seed)
    else None
  }

  function InventoryOf(h: Host): Inventory {
    Inventory(h.files, h.generated, h.active)
  }

  /** The first source a sorted listing gives is the generation the record names. */
  ghost predicate FirstIs(files: Files, content: string) {
    exists p :: p in files && files[p] == content && forall q :: q in files ==> p <= q
  }

  /** What `converge` demands of the host before it changes anything. */
  ghost predicate Acceptable(h: Host, uid: int) {
    && RenderPolicy(uid).Ok?
    && match Classify(h.files, h.active)
       case None => false
       case Some(Seed) => h.record.None?
       case Some(Managed) => h.record.Some? && FirstIs(h.files, h.record.value.generation)
  }

  /** The sources once everything that is not managed is gone and the policy is in place. */
  function WithPolicy(files: Files, policy: string): Files {
    (map p | p in files && IsManaged(files[p]) :: files[p])[MANAGED_PATH := policy]
  }

  /** What `auditctl -s` reports. */
  datatype Status = Status(failure: int, rateLimit: int, backlogLimit: int, lost: int)

  predicate IsHealthy(status: Status) {
    status.failure == 1 && status.rateLimit == 0 && status.backlogLimit >= 8192 && status.lost == 0
  }

  /** The policy verifies: it is the only source left, the status is healthy and auditing is on. */
  predicate Verifies(load: Loader, files: Files, policy: string, status: Status) {
    && WithPolicy(files, policy) == map[MANAGED_PATH := policy]
    && IsHealthy(status)
    && !NeverAudits(load(WithPolicy(files, policy)).1)
  }

  datatype Mutation = PutRecord(r: Record) | DropRecord | Unlink(p: Path) | Put(p: Path, content: string) | Load

  function Do(load: Loader, h: Host, m: Mutation): Host {
    match m
    case PutRecord(r) => h.(record := Some(r))
    case DropRecord => h.(record := None)
    case Unlink(p) => h.(files := h.files - {p})
    case Put(p, content) => h.(files := h.files[p := content])
    case Load => h.(generated := load(h.files).0, active := load(h.files).1)
  }

  // ---------- restoring ----------

  /** `_restore_inventory`: unknown sources stop it before anything changes. */
  predicate MayRestore(h: Host, inv: Inventory) {
    forall p :: p in h.files ==> p == MANAGED_PATH || p in inv.sources
  }

  function Restored(load: Loader, h: Host, inv: Inventory): Host {
    h.(files := inv.sources, generated := load(inv.sources).0, active := load(inv.sources).1)
  }

  predicate RestoreVerifies(h: Host, inv: Inventory) {
    && (inv.generated.Some? ==> h.generated == inv.generated)
    && Strip(h.active) == Strip(inv.active)
  }

  datatype AuditError = NoRecord | UnknownSource | Unverified | Fault

  /** `restore_prior` when no step of its own raises. */
  function RestorePriorResult(load: Loader, h: Host): Result<Host, AuditError> {
    if h.record.None? then Err(NoRecord)
    else
      var prior := h.record.value.prior;
      if !MayRestore(h, prior) then Err(UnknownSource)
      else
        var r := Restored(load, h, prior);
        if RestoreVerifies(r, prior) then Ok(r.(record := None)) else Err(Unverified)
  }

  // ---------- what every kill point keeps ----------

  /** The loaded rules are those of the files. */
  predicate Settled(load: Loader, h: Host) {
    (h.generated, h.active) == load(h.files)
  }

  predicate IsSeedHost(seed: Host) {
    seed.record.None? && Classify(seed.files, seed.active) == Some(Seed)
  }

  /** Loading the host's files gives its generated file, if it has one, and its active rules again. */
  predicate Reproduces(load: Loader, h: Host) {
    RestoreVerifies(Restored(load, h, InventoryOf(h)), InventoryOf(h))
  }

  /** The host with its own files loaded. */
  function Reloaded(load: Loader, h: Host): Host {
    Restored(load, h, InventoryOf(h))
  }

  /** The seed as it was, or as loading its files gives it where that passes for the same. */
  predicate IsSeedAgain(load: Loader, seed: Host, h: Host) {
    h == seed || (Reproduces(load, seed) && h == Reloaded(load, seed))
  }

  predicate HoldsSeed(load: Loader, seed: Host, prior: Inventory) {
    prior == InventoryOf(seed) || (Reproduces(load, seed) && prior == InventoryOf(Reloaded(load, seed)))
  }

  /** Either nothing has changed, or the record holds the seed and no foreign source stands in its way. */
  predicate Recoverable(load: Loader, seed: Host, h: Host) {
    || IsSeedAgain(load, seed, h)
    || (h.record.Some? && HoldsSeed(load, seed, h.record.value.prior)
        && h.files.Keys <= seed.files.Keys + {MANAGED_PATH})
  }

  /** The changes a process may make that found the host in state h0. */
  ghost predicate Allowed(load: Loader, h0: Host, h: Host, m: Mutation) {
    match m
    case PutRecord(r) =>
      if h0.record.Some? then r.prior == h0.record.value.prior else h == h0 && r.prior == InventoryOf(h0)
    case Unlink(_) => h.record.Some?
    case Put(p, _) => h.record.Some? && (p in h0.files || p == MANAGED_PATH || p in h.record.value.prior.sources)
    case Load => h.record.Some?
    case DropRecord =>
      && h.record.Some? && Settled(load, h)
      && h.files == h.record.value.prior.sources && RestoreVerifies(h, h.record.value.prior)
  }

  /** Whatever a process changes, wherever it is stopped, the seed stays recoverable. */
  lemma ChangeKeepsRecoverable(load: Loader, seed: Host, h0: Host, h: Host, m: Mutation)
    requires IsSeedHost(seed) && Recoverable(load, seed, h0) && Recoverable(load, seed, h) && Allowed(load, h0, h, m)
    ensures Recoverable(load, seed, Do(load, h, m))
  {
    hide Classify, Strip;
  }

  /**
   From every recoverable state with a record, restoring the prior succeeds exactly when
   loading the seed's files reproduces the seed, and then gives it back.
   */
  lemma RestorePriorRecovers(load: Loader, seed: Host, h: Host)
    requires IsSeedHost(seed) && Recoverable(load, seed, h) && h.record.Some?
    ensures RestorePriorResult(load, h) == if Reproduces(load, seed) then Ok(Reloaded(load, seed)) else Err(Unverified)
  {
    hide Classify, Strip;
  }

  /** Without a record, or with a source that is neither the policy's nor the prior's, nothing is restored. */
  lemma RestorePriorRefuses(load: Loader, h: Host)
    ensures RestorePriorResult(load, h) == Err(NoRecord) <==> h.record.None?
    ensures RestorePriorResult(load, h) == Err(UnknownSource) <==>
            h.record.Some? && exists p :: p in h.files && p != MANAGED_PATH && p !in h.record.value.prior.sources
  {
    hide Strip;
  }

  /** What is given back has the seed's files and passes the same verification; a settled seed comes back exactly. */
  lemma ReloadedIsSeed(load: Loader, seed: Host)
    ensures Reloaded(load, seed).files == seed.files && Reloaded(load, seed).record == seed.record
    ensures Settled(load, Reloaded(load, seed))
    ensures Reproduces(load, seed) <==>
              && (seed.generated.Some? ==> load(seed.files).0 == seed.generated)
              && Strip(load(seed.files).1) == Strip(seed.active)
    ensures Reloaded(load, seed) == seed <==> Settled(load, seed)
  {}

  // ---------- whole runs, killed anywhere ----------

  /** One process found the host as h0 and made some allowed changes before it ended or was killed. */
  ghost predicate ProcessRun(load: Loader, h0: Host, changes: seq<Mutation>)
    decreases |changes|
  {
    changes == [] || (ProcessRun(load, h0, changes[..|changes| - 1])
                      && Allowed(load, h0, After(load, h0, changes[..|changes| - 1]), changes[|changes| - 1]))
  }

  function After(load: Loader, h0: Host, changes: seq<Mutation>): Host
    decreases |changes|
  {
    if changes == [] then h0 else Do(load, After(load, h0, changes[..|changes| - 1]), changes[|changes| - 1])
  }

  lemma {:induction false} RunKeepsRecoverable(load: Loader, seed: Host, h0: Host, changes: seq<Mutation>)
    requires IsSeedHost(seed) && Recoverable(load, seed, h0) && ProcessRun(load, h0, changes)
    ensures Recoverable(load, seed, After(load, h0, changes))
    decreases |changes|
  {
    if changes != [] {
      var init := changes[..|changes| - 1];
      RunKeepsRecoverable(load, seed, h0, init);
      ChangeKeepsRecoverable(load, seed, h0, After(load, h0, init), changes[|changes| - 1]);
    }
  }

  /** A history of processes, each finished, rolled back or killed. */
  ghost predicate History(load: Loader, h: Host, runs: seq<seq<Mutation>>)
    decreases |runs|
  {
    runs == [] || (ProcessRun(load, h, runs[0]) && History(load, After(load, h, runs[0]), runs[1..]))
  }

  function End(load: Loader, h: Host, runs: seq<seq<Mutation>>): Host
    decreases |runs|
  {
    if runs == [] then h else End(load, After(load, h, runs[0]), runs[1..])
  }

  lemma {:induction false} HistoryKeepsRecoverable(load: Loader, seed: Host, h: Host, runs: seq<seq<Mutation>>)
    requires IsSeedHost(seed) && Recoverable(load, seed, h) && History(load, h, runs)
    ensures Recoverable(load, seed, End(load, h, runs))
    decreases |runs|
  {
    if runs != [] {
      RunKeepsRecoverable(load, seed, h, runs[0]);
      HistoryKeepsRecoverable(load, seed, After(load, h, runs[0]), runs[1..]);
    }
  }

  /**
   After any history of converges and restores, whatever their users and however they
   ended, the host is the seed again, or its record holds the seed and `restore_prior`
   brings it back exactly when loading the seed's files reproduces it.
   */
  lemma SeedIsAlwaysRecoverable(load: Loader, seed: Host, runs: seq<seq<Mutation>>)
    requires IsSeedHost(seed) && History(load, seed, runs)
    ensures var h := End(load, seed, runs);
            if h.record.None? then IsSeedAgain(load, seed, h)
            else && HoldsSeed(load, seed, h.record.value.prior)
                 && RestorePriorResult(load, h) ==
                    if Reproduces(load, seed) then Ok(Reloaded(load, seed)) else Err(Unverified)
  {
    HistoryKeepsRecoverable(load, seed, seed, runs);
    var h := End(load, seed, runs);
    if h.record.Some? { RestorePriorRecovers(load, seed, h); }
  }

  /** An empty rules directory under a loaded seed rule is accepted, and cannot be restored. */
  lemma EmptySeedIsNotReproduced(load: Loader, uid: int, changes: seq<Mutation>)
    requires load(map[]) == (None, "") && RenderPolicy(uid).Ok?
    ensures var seed := Host(map[], None, "-a task,never", None);
            && IsSeedHost(seed) && Acceptable(seed, uid) && !Reproduces(load, seed)
            && (ProcessRun(load, seed, changes) && After(load, seed, changes).record.Some? ==>
                  RestorePriorResult(load, After(load, seed, changes)) == Err(Unverified))
  {
    hide RenderPolicy, IsManaged, IsSeedForm, Strip;
    var seed := Host(map[], None, "-a task,never", None);
    SeedRuleStrips();
    assert ManagedPaths(seed.files) == {};
    if ProcessRun(load, seed, changes) {
      RunKeepsRecoverable(load, seed, seed, changes);
      if After(load, seed, changes).record.Some? {
        RestorePriorRecovers(load, seed, After(load, seed, changes));
      }
    }
  }

  lemma SeedRuleStrips()
    ensures Strip("-a task,never") == "-a task,never" && Strip("-a task,never") in SEED_ACTIVE && Strip("") == ""
  {}

  // ---------- which hosts are taken over ----------

  /** Blank, a comment, or one of the three directives the distribution's own files hold. */
  predicate IsHarmless(line: string) {
    || Words(line) == []
    || (Strip(line) != "" && Strip(line)[0] == '#')
    || Words(line) == ["-D"] || Words(line) == ["-a", "task,never"] || Words(line) == ["-a", "never,task"]
  }

  /** The lines of a file read as bytes, where a carriage return ends one too. */
  function FileLines(content: string): seq<string> {
    SplitLines(Newlines(content))
  }

  lemma {:induction false} FirstWordStarts(line: string)
    ensures Words(line) == [] <==> Strip(line) == ""
    ensures Words(line) != [] ==> Words(line)[0] != "" && Strip(line) != "" && Words(line)[0][0] == Strip(line)[0]
    decreases |line|
  {
    if line != "" && IsSpace(line[0]) {
      FirstWordStarts(line[1..]);
    } else if line != "" {
      assert line == [] + [line[0]] + line[1..];
      StripAround([], line[0], line[1..]);
    }
  }

  lemma JoinedStarts(words: seq<string>)
    requires words != [] && words[0] != ""
    ensures Join(" ", words) != "" && Join(" ", words)[0] == words[0][0]
  {}

  lemma OneWord(a: string)
    requires IsWord(a)
    ensures Words(a) == [a] && Join(" ", [a]) == a
  {
    assert AreWords([a]);
    WordsOfJoin([a]);
  }

  lemma TwoWords(a: string, b: string)
    requires IsWord(a) && IsWord(b)
    ensures Words(a + " " + b) == [a, b] && Join(" ", [a, b]) == a + " " + b
  {
    assert AreWords([a, b]);
    WordsOfJoin([a, b]);
    assert [a, b][1..] == [b];
  }

  /** A list of words is that of a directive exactly when it joins to it. */
  lemma JoinsTo(words: seq<string>, directive: string, parts: seq<string>)
    requires Words(Join(" ", words)) == words
    requires Words(directive) == parts && Join(" ", parts) == directive
    ensures Join(" ", words) == directive <==> words == parts
  {}

  lemma SeedWords()
    ensures IsWord("-D") && IsWord("-a") && IsWord("task,never") && IsWord("never,task")
    ensures "-a" + " " + "task,never" == "-a task,never" && "-a" + " " + "never,task" == "-a never,task"
  {
    PlainIsWord("-D");
    PlainIsWord("-a");
    PlainIsWord("task,never");
    PlainIsWord("never,task");
    hide IsWord;
  }

  lemma JoinsToD(words: seq<string>)
    requires Words(Join(" ", words)) == words
    ensures Join(" ", words) == "-D" <==> words == ["-D"]
  {
    hide Words, Join, IsWord;
    SeedWords();
    OneWord("-D");
    JoinsTo(words, "-D", ["-D"]);
  }

  lemma JoinsToTaskNever(words: seq<string>)
    requires Words(Join(" ", words)) == words
    ensures Join(" ", words) == "-a task,never" <==> words == ["-a", "task,never"]
  {
    hide Words, Join, IsWord;
    SeedWords();
    TwoWords("-a", "task,never");
    JoinsTo(words, "-a task,never", ["-a", "task,never"]);
  }

  lemma JoinsToNeverTask(words: seq<string>)
    requires Words(Join(" ", words)) == words
    ensures Join(" ", words) == "-a never,task" <==> words == ["-a", "never,task"]
  {
    hide Words, Join, IsWord;
    SeedWords();
    TwoWords("-a", "never,task");
    JoinsTo(words, "-a never,task", ["-a", "never,task"]);
  }

  lemma IsSeedDirective(d: string)
    ensures d in SEED_DIRECTIVES <==> d == "-D" || d == "-a task,never" || d == "-a never,task"
  {}

  lemma HarmlessExactlyWhen(line: string)
    ensures var words := Join(" ", Words(line));
            IsHarmless(line) <==> words == "" || words[0] == '#' || words in SEED_DIRECTIVES
  {
    hide Words, Strip, Join, SEED_DIRECTIVES;
    var words := Words(line);
    FirstWordStarts(line);
    IsSeedDirective(Join(" ", words));
    if words == [] {
      NoWords();
    } else {
      JoinedStarts(words);
      WordsAreWords(line);
      WordsOfJoin(words);
      JoinsToD(words);
      JoinsToTaskNever(words);
      JoinsToNeverTask(words);
    }
  }

  lemma NoWords()
    ensures Join(" ", []) == ""
  {}

  lemma {:induction false} DirectivesHold(lines: seq<string>)
    ensures (forall d :: d in EffectiveDirectives(lines) ==> d in SEED_DIRECTIVES) <==>
            (forall i :: 0 <= i < |lines| ==> IsHarmless(lines[i]))
  {
    if lines != [] {
      HarmlessExactlyWhen(lines[0]);
      DirectivesHold(lines[1..]);
      hide IsHarmless, Words, Join;
      assert (forall i :: 0 <= i < |lines| ==> IsHarmless(lines[i])) <==>
             IsHarmless(lines[0]) && (forall i :: 0 <= i < |lines[1..]| ==> IsHarmless(lines[1..][i])) by {
        assert forall i :: 1 <= i < |lines| ==> lines[i] == lines[1..][i - 1];
      }
    }
  }

  /** Every line of every file that is not managed is harmless. */
  predicate OnlyHarmless(files: Files) {
    forall p, line :: p in files && !(MANAGED_MARKER <= files[p]) && line in FileLines(files[p]) ==> IsHarmless(line)
  }

  lemma ClassifiedExactlyWhen(files: Files, active: string)
    ensures var managed := set p | p in files && MANAGED_MARKER <= files[p];
            && (Classify(files, active) == Some(Managed) <==> OnlyHarmless(files) && |managed| == 1)
            && (Classify(files, active) == Some(Seed) <==>
                && OnlyHarmless(files) && managed == {}
                && (Strip(active) == "-a task,never" || Strip(active) == "-a never,task"))
  {
    var managed := set p | p in files && MANAGED_MARKER <= files[p];
    assert managed == ManagedPaths(files);
    FilesHold(files);
    ActiveSeed(Strip(active));
    assert |managed| == 0 <==> managed == {};
    hide IsHarmless, FileLines, IsSeedForm, Strip, SEED_ACTIVE, MANAGED_MARKER;
  }

  /** What `inventory_sources` and `converge` take over, in the lines of the files themselves. */
  lemma AcceptedExactlyWhen(h: Host, uid: int)
    ensures var managed := set p | p in h.files && MANAGED_MARKER <= h.files[p];
            var seeded := Strip(h.active) == "-a task,never" || Strip(h.active) == "-a never,task";
            Acceptable(h, uid) <==>
              && 1 <= uid < 4294967295
              && (forall p, line :: p in h.files && !(MANAGED_MARKER <= h.files[p]) && line in FileLines(h.files[p]) ==>
                    IsHarmless(line))
              && if managed == {} then h.record.None? && seeded
                 else && |managed| == 1 && h.record.Some?
                      && exists p :: && p in h.files && h.files[p] == h.record.value.generation
                                     && forall q :: q in h.files ==> p <= q
  {
    hide Classify, IsHarmless, FileLines, Strip, MANAGED_MARKER;
    ClassifiedExactlyWhen(h.files, h.active);
    PolicyRenders(uid);
    hide RenderPolicy;
  }

  lemma PolicyRenders(uid: int)
    ensures RenderPolicy(uid).Ok? <==> 1 <= uid < 4294967295
  {
    hide PolicyBody, MANAGED_MARKER;
  }

  lemma ActiveSeed(a: string)
    ensures a in SEED_ACTIVE <==> a == "-a task,never" || a == "-a never,task"
  {}

  lemma FilesHold(files: Files)
    ensures (exists p :: p in files && !IsManaged(files[p]) && !IsSeedForm(files[p])) <==>
            (exists p, line :: p in files && !IsManaged(files[p]) && line in FileLines(files[p]) && !IsHarmless(line))
  {
    hide IsHarmless, IsManaged;
    forall p | p in files
      ensures IsSeedForm(files[p]) <==> forall line :: line in FileLines(files[p]) ==> IsHarmless(line)
    {
      DirectivesHold(FileLines(files[p]));
    }
    hide FileLines, IsSeedForm;
  }

  /** A file that is not managed and has any other line keeps the host from being taken over. */
  lemma ForeignLineRefuses(h: Host, uid: int, p: Path, line: string)
    requires p in h.files && !(MANAGED_MARKER <= h.files[p]) && line in FileLines(h.files[p]) && !IsHarmless(line)
    ensures !Acceptable(h, uid)
  {
    hide Acceptable, IsHarmless, FileLines;
    AcceptedExactlyWhen(h, uid);
  }

  /** The policy verifies exactly when no other file is managed, the status is healthy and auditing is on. */
  lemma VerifiesExactlyWhen(load: Loader, files: Files, policy: string, status: Status)
    ensures Verifies(load, files, policy, status) <==>
              && (forall p :: p in files && MANAGED_MARKER <= files[p] ==> p == MANAGED_PATH)
              && status.failure == 1 && status.rateLimit == 0 && status.backlogLimit >= 8192 && status.lost == 0
              && !NeverAudits(load(map[MANAGED_PATH := policy]).1)
  {
    hide NeverAudits, MANAGED_MARKER;
    var left := WithPolicy(files, policy);
    if forall p :: p in files && IsManaged(files[p]) ==> p == MANAGED_PATH {
      assert left == map[MANAGED_PATH := policy];
    } else {
      var p :| p in files && IsManaged(files[p]) && p != MANAGED_PATH;
      assert p in left;
    }
  }

  lemma ContainsExactlyWhen(text: string, needle: string)
    ensures Contains(text, needle) <==> exists a, b :: text == a + needle + b
  {
    if Contains(text, needle) {
      var i :| 0 <= i <= |text| && needle <= text[i..];
      assert text == text[..i] + needle + text[i + |needle|..];
    }
    if exists a, b :: text == a + needle + b {
      var a, b :| text == a + needle + b;
      assert text[|a|..] == needle + b;
    }
  }

  /** Auditing is off when the active rules say so anywhere. */
  lemma NeverAuditsExactlyWhen(active: string)
    ensures NeverAudits(active) <==>
            (exists a, b :: active == a + "task,never" + b) || (exists a, b :: active == a + "never,task" + b)
  {
    ContainsExactlyWhen(active, "task,never");
    ContainsExactlyWhen(active, "never,task");
    hide Contains;
  }

  // ---------- the programs ----------

  lemma {:induction false} LeastPath(paths: set<Path>) returns (least: Path)
    requires paths != {}
    ensures least in paths && forall q :: q in paths ==> least <= q
    decreases |paths|
  {
    var p :| p in paths;
    var rest := paths - {p};
    assert forall q :: q in paths ==> q == p || q in rest;
    least := p;
    if rest != {} {
      var r := LeastPath(rest);
      least := if p <= r then p else r;
    }
  }

  datatype Outcome = Refused | Installed | RolledBack | Stuck

  class AuditHost {
    var files: Files
    var generated: Option<string>
    var active: string
    var record: Option<Record>
    const load: Loader
    /** The steps still to come that raise; none raises once it is empty. */
    var faults: seq<bool>
    ghost const seed: Host
    /** Every state the host has been in, one entry per change. */
    ghost var trace: seq<Host>

    ghost function View(): Host
      reads this
    {
      Host(files, generated, active, record)
    }

    /** Now and at every kill point so far the seed is recoverable. */
    ghost predicate Valid()
      reads this
    {
      && IsSeedHost(seed) && Recoverable(load, seed, View())
      && forall i :: 0 <= i < |trace| ==> Recoverable(load, seed, trace[i])
    }

    constructor (load: Loader, seed: Host)
      requires IsSeedHost(seed)
      ensures Valid() && View() == seed && this.seed == seed && this.load == load && faults == []
    {
      this.load, this.seed := load, seed;
      files, generated, active, record := seed.files, seed.generated, seed.active, seed.record;
      faults, trace := [], [];
    }

    /** One change on disk. */
    method Change(m: Mutation, ghost h0: Host)
      requires Valid() && Recoverable(load, seed, h0) && Allowed(load, h0, View(), m)
      modifies `files, `generated, `active, `record, `trace
      ensures Valid() && View() == Do(load, old(View()), m) && trace == old(trace) + [View()]
    {
      ChangeKeepsRecoverable(load, seed, h0, View(), m);
      match m {
        case PutRecord(r) => record := Some(r);
        case DropRecord => record := None;
        case Unlink(p) => files := files - {p};
        case Put(p, content) => files := files[p := content];
        case Load => generated, active := load(files).0, load(files).1;
      }
      trace := trace + [View()];
    }

    method Raises() returns (raised: bool)
      modifies `faults
      ensures old(faults) == [] ==> !raised && faults == []
    {
      raised := faults != [] && faults[0];
      faults := if faults == [] then [] else faults[1..];
    }

    /** Remove the given sources, one by one. */
    method UnlinkAll(paths: set<Path>, ghost h0: Host) returns (ok: bool)
      requires Valid() && Recoverable(load, seed, h0) && record.Some? && paths <= files.Keys
      modifies `files, `generated, `active, `record, `trace, `faults
      ensures Valid() && record == old(record) && files.Keys <= old(files).Keys
      ensures ok ==> View() == old(View()).(files := old(files) - paths)
      ensures old(faults) == [] ==> ok && faults == []
    {
      hide IsSeedHost, Recoverable;
      ghost var was := View();
      var todo := paths;
      while todo != {}
        invariant Valid() && todo <= paths
        invariant View() == was.(files := was.files - (paths - todo))
        invariant old(faults) == [] ==> faults == []
        decreases todo
      {
        var p :| p in todo;
        var raised := Raises();
        if raised {
          return false;
        }
        assert (was.files - (paths - todo)) - {p} == was.files - (paths - (todo - {p}));
        Change(Unlink(p), h0);
        todo := todo - {p};
      }
      return true;
    }

    /** Write the given sources into an empty directory, one by one. */
    method PutAll(sources: Files, ghost h0: Host) returns (ok: bool)
      requires Valid() && Recoverable(load, seed, h0) && record.Some? && files == map[]
      requires forall p :: p in sources ==> p in h0.files || p == MANAGED_PATH || p in record.value.prior.sources
      modifies `files, `generated, `active, `record, `trace, `faults
      ensures Valid() && record == old(record)
      ensures ok ==> View() == old(View()).(files := sources)
      ensures old(faults) == [] ==> ok && faults == []
    {
      hide IsSeedHost, Recoverable;
      ghost var was := View();
      var todo := sources.Keys;
      while todo != {}
        invariant Valid() && todo <= sources.Keys
        invariant View() == was.(files := sources - todo)
        invariant old(faults) == [] ==> faults == []
        decreases todo
      {
        var p :| p in todo;
        var raised := Raises();
        if raised {
          return false;
        }
        assert (sources - todo)[p := sources[p]] == sources - (todo - {p});
        Change(Put(p, sources[p]), h0);
        todo := todo - {p};
      }
      assert sources - {} == sources;
      return true;
    }

    /** `_restore_inventory` */
    method RestoreInventory(inv: Inventory, ghost h0: Host) returns (ok: bool)
      requires Valid() && Recoverable(load, seed, h0) && record.Some?
      requires forall p :: p in inv.sources ==> p in h0.files || p == MANAGED_PATH || p in record.value.prior.sources
      modifies `files, `generated, `active, `record, `trace, `faults
      ensures Valid() && record == old(record)
      ensures ok ==>
                && MayRestore(old(View()), inv)
                && View() == Restored(load, old(View()), inv) && RestoreVerifies(View(), inv)
      ensures old(faults) == [] ==> faults == []
      ensures old(faults) == [] && MayRestore(old(View()), inv) ==>
                View() == Restored(load, old(View()), inv) && (ok <==> RestoreVerifies(View(), inv))
      ensures !MayRestore(old(View()), inv) ==> !ok && View() == old(View())
    {
      if exists p :: p in files && p != MANAGED_PATH && p !in inv.sources {
        return false;
      }
      hide IsSeedHost, Recoverable, Strip;
      ok := UnlinkAll(files.Keys, h0);
      if !ok {
        return;
      }
      assert files == map[];
      ok := PutAll(inv.sources, h0);
      if !ok {
        return;
      }
      var raised := Raises();
      if raised {
        return false;
      }
      Change(Load, h0);
      raised := Raises();
      ok := !raised && (inv.generated.None? || generated == inv.generated) && Strip(active) == Strip(inv.active);
    }

    /** The `try` block of `converge`: replace the sources by the policy, load it and verify. */
    method Install(policy: string, status: Status, ghost h0: Host) returns (ok: bool)
      requires Valid() && Recoverable(load, seed, h0) && record.Some? && IsManaged(policy)
      modifies `files, `generated, `active, `record, `trace, `faults
      ensures Valid() && record == old(record) && files.Keys <= old(files).Keys + {MANAGED_PATH}
      ensures ok ==>
                && files == map[MANAGED_PATH := policy]
                && Settled(load, View()) && IsHealthy(status) && !NeverAudits(active)
      ensures old(faults) == [] ==> faults == [] && (ok <==> Verifies(load, old(files), policy, status))
    {
      hide IsSeedHost, Recoverable, Strip, IsManaged, IsSeedForm;
      ghost var was := files;
      var foreign := set p | p in files && !IsManaged(files[p]);
      ok := UnlinkAll(foreign, h0);
      if !ok {
        return;
      }
      var raised := Raises();
      if raised {
        return false;
      }
      Change(Put(MANAGED_PATH, policy), h0);
      assert files == WithPolicy(was, policy);
      raised := Raises();
      if raised {
        return false;
      }
      Change(Load, h0);
      raised := Raises();
      OnlyPolicyIsManaged(files, active, policy);
      if raised || !IsHealthy(status) || NeverAudits(active) || Classify(files, active) != Some(Managed) {
        return false;
      }
    }

    /** The record of a managed host must name its first source; a seed must have none. */
    method PriorOf(kind: Kind) returns (prior: Option<Inventory>)
      requires Classify(files, active) == Some(kind)
      ensures prior.Some? <==>
              if kind.Seed? then record.None? else record.Some? && FirstIs(files, record.value.generation)
      ensures prior.Some? ==> prior.value == if record.Some? then record.value.prior else InventoryOf(View())
    {
      if kind.Seed? {
        return if record.None? then Some(Inventory(files, generated, active)) else None;
      }
      if record.None? {
        return None;
      }
      ManagedHasFiles(files, active);
      hide Classify;
      ghost var least := LeastPath(files.Keys);
      var first :| first in files.Keys && forall q :: q in files.Keys ==> first <= q;
      return if files[first] == record.value.generation then Some(record.value.prior) else None;
    }

    /** The checks of `converge` before it changes anything, and the record it then writes. */
    method Preflight(uid: int) returns (plan: Option<Record>)
      requires Valid()
      modifies `faults
      ensures Valid()
      ensures plan.Some? ==>
                && RenderPolicy(uid).Ok? && IsManaged(RenderPolicy(uid).value)
                && plan.value == Record(if record.Some? then record.value.prior else InventoryOf(View()),
                                        InventoryOf(View()), RenderPolicy(uid).value)
      ensures plan.Some? ==> Acceptable(View(), uid)
      ensures old(faults) == [] ==> faults == [] && (plan.Some? <==> Acceptable(View(), uid))
    {
      hide Classify, RenderPolicy, IsManaged, Recoverable, IsSeedHost, FirstIs;
      var raised := Raises();
      var kind := Classify(files, active);
      var policy := RenderPolicy(uid);
      if raised || kind.None? || policy.Err? {
        return None;
      }
      PolicyIsManaged(uid);
      var prior := PriorOf(kind.value);
      if prior.None? {
        return None;
      }
      raised := Raises();
      plan := if raised then None else Some(Record(prior.value, Inventory(files, generated, active), policy.value));
    }

    /** `converge` */
    method Converge(uid: int, status: Status) returns (outcome: Outcome)
      requires Valid()
      modifies `files, `generated, `active, `record, `trace, `faults
      ensures Valid()
      ensures outcome == Refused ==> View() == old(View()) && trace == old(trace)
      ensures !Acceptable(old(View()), uid) ==> outcome == Refused
      ensures (exists p, line :: p in old(files) && !(MANAGED_MARKER <= old(files)[p])
                                 && line in FileLines(old(files)[p]) && !IsHarmless(line)) ==>
                outcome == Refused && View() == old(View())
      ensures outcome == Installed ==>
                && RenderPolicy(uid).Ok? && files == map[MANAGED_PATH := RenderPolicy(uid).value]
                && (generated, active) == load(files) && !NeverAudits(active)
                && status.failure == 1 && status.rateLimit == 0 && status.backlogLimit >= 8192 && status.lost == 0
                && (var before := InventoryOf(old(View()));
                    var prior := if old(record).Some? then old(record).value.prior else before;
                    record == Some(Record(prior, before, RenderPolicy(uid).value)))
      ensures outcome == RolledBack ==>
                && files == old(files) && record == old(record)
                && (old(generated).Some? ==> generated == old(generated)) && Strip(active) == Strip(old(active))
      ensures old(faults) == [] ==> (outcome != Refused <==> Acceptable(old(View()), uid))
      ensures old(faults) == [] && Acceptable(old(View()), uid) ==>
                (outcome == Installed <==> Verifies(load, old(files), RenderPolicy(uid).value, status))
      ensures old(faults) == [] ==>
                (outcome == Stuck <==> && Acceptable(old(View()), uid) && !Reproduces(load, old(View()))
                                       && !Verifies(load, old(files), RenderPolicy(uid).value, status))
      ensures old(faults) == [] ==> faults == []
    {
      hide Classify, RenderPolicy, IsManaged, Strip, IsSeedHost;
      ghost var h0 := View();
      forall p, line | p in files && !(MANAGED_MARKER <= files[p]) && line in FileLines(files[p]) && !IsHarmless(line)
        ensures !Acceptable(View(), uid)
      {
        ForeignLineRefuses(View(), uid, p, line);
      }
      hide FileLines, IsHarmless, Acceptable;
      var before := record;
      var inventory := Inventory(files, generated, active);
      var plan := Preflight(uid);
      if plan.None? {
        return Refused;
      }
      Change(PutRecord(plan.value), h0);
      var ok := Install(plan.value.generation, status, h0);
      if ok {
        return Installed;
      }
      var restored := RestoreInventory(inventory, h0);
      if !restored {
        return Stuck;
      }
      var raised := Raises();
      if raised {
        return Stuck;
      }
      if before.None? {
        Change(DropRecord, h0);
      } else {
        Change(PutRecord(before.value), h0);
      }
      return RolledBack;
    }

    /** `restore_prior` */
    method RestorePrior() returns (error: Option<AuditError>)
      requires Valid()
      modifies `files, `generated, `active, `record, `trace, `faults
      ensures Valid()
      ensures old(faults) == [] ==>
                match RestorePriorResult(load, old(View()))
                case Ok(h) => error.None? && View() == h
                case Err(e) => error == Some(e)
      ensures error == Some(NoRecord) || error == Some(UnknownSource) ==> View() == old(View())
    {
      ghost var h0 := View();
      if record.None? {
        return Some(NoRecord);
      }
      var prior := record.value.prior;
      if exists p :: p in files && p != MANAGED_PATH && p !in prior.sources {
        return Some(UnknownSource);
      }
      hide Strip, IsSeedHost, Recoverable;
      var clean := faults == [];
      var ok := RestoreInventory(prior, h0);
      if !ok {
        return Some(if clean then Unverified else Fault);
      }
      var raised := Raises();
      if raised {
        return Some(Fault);
      }
      Change(DropRecord, h0);
      return None;
    }

    /**
     Any number of converges, with whatever faults, then one undisturbed restore: the
     seed is back exactly when it was never given up or loading its files reproduces it.
     */
    method Campaign(converges: seq<(int, Status, seq<bool>)>)
      requires Valid()
      modifies this
      ensures Valid()
      ensures record.None? ==> IsSeedAgain(load, seed, View())
      ensures Reproduces(load, seed) ==> record.None?
      ensures !Reproduces(load, seed) ==> View() == seed || (record.Some? && HoldsSeed(load, seed, record.value.prior))
    {
      for i := 0 to |converges|
        invariant Valid()
      {
        faults := converges[i].2;
        var unused := Converge(converges[i].0, converges[i].1);
      }
      faults := [];
      if record.Some? {
        RestorePriorRecovers(load, seed, View());
        var unused := RestorePrior();
      }
    }
  }

  /** Among managed sources only, the classification says "managed" exactly when the policy is alone. */
  lemma OnlyPolicyIsManaged(files: Files, active: string, policy: string)
    requires MANAGED_PATH in files && files[MANAGED_PATH] == policy
    requires forall p :: p in files ==> IsManaged(files[p])
    ensures Classify(files, active) == Some(Managed) <==> files == map[MANAGED_PATH := policy]
  {
    hide IsManaged, IsSeedForm;
    assert ManagedPaths(files) == files.Keys;
    assert MANAGED_PATH in ManagedPaths(files);
    if |files.Keys| <= 1 {
      forall p | p in files ensures p == MANAGED_PATH {
        if p != MANAGED_PATH {
          Sets.SubsetSize({p, MANAGED_PATH}, files.Keys);
        }
      }
    }
    assert files == map[MANAGED_PATH := policy] ==> files.Keys == {MANAGED_PATH};
  }

  lemma ManagedHasFiles(files: Files, active: string)
    requires Classify(files, active) == Some(Managed)
    ensures files.Keys != {}
  {
    var p :| p in ManagedPaths(files);
    assert p in files.Keys;
  }
}
