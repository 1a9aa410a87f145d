# Verified models of django-mojo's stateful cores

django-mojo is a Django framework with its own test bench, deployment tools and caches. This
project models the parts of it that change shared state over many steps and proves what they keep
over whole runs. Each module stands for one of them.

- `ConfValues`, `ConfLines`, `ConfOverlay`: test threads override settings in one shared `django.conf` and later
  take only their own keys back. A file is text; its meaning is the loader's last-wins reading.
- `ServerLock`: the writer-preferring reader/writer lock around server restarts, as a transition
  system over threads with a condition variable. The code between two waits is one step.
- `FixedWindow`, `SlidingWindow`, `StrictLimits`, `Traffic`: rate limiting and traffic accounting over expiring
  Redis keys, proved against the plain history of requests.
- `AuditPolicy`: installing an audit policy with rollback, where any step may fail and the process
  may be killed between any two changes.
- `FirewallBroker`: requests compiled to ipset programs and iptables calls, and a small kernel that
  interprets them.
- `SlotAllocator`: Redis indexes and ports for checkouts, with ownership stamps as a second guard.
- `CertSync`: a certificate lineage pushed to and pulled from a bucket, dying between any two files.
- `Packing`, `SkillFrontmatter`: greedy packing, and skill files printed and read back.
- `OptimisticCounter`: `incr` and `decr` as optimistic transactions between interleaving clients.

`Text` holds the string operations of the modelled programs; `Wrappers` and `Sets` hold general helpers.
`dafny verify dfyconfig.toml` checks everything.

How the models meet the code:

- Code that updates fields, files, sets or keys is a class or a method with loops, proved equal to a
  function of the old state; the theorems over runs are about those functions.
- Time is a parameter. The fixed-window limiter takes a clock that is at most one window behind the
  furthest it has been; the sliding window and the throttle take one that does not run backwards.
- Choices of the outside world are parameters: what a download finds, which child times out
  (`alive`) and whether it acted (`acts`), which audit step fails (`faults`), whether a wait ended late (`late`), how a settings
  context leaves (`Course`). Every kill point of the audit installer is a state of `trace`.
- Digests stand for the content they are taken of.

Results that differ from what the code or its documentation says:

- `_conf_line_key` says it reads lines as the settings loader does. It does not: the loader
  (`mojo/helpers/settings/parser.py:58-62`) also takes `# KEY = value` as an assignment, to the key
  `# KEY` (`ConfLines.CommentsReadDifferently`). The two agree on every key that can be overridden
  (`ConfLines.ConfLineKeyAgrees`).
- Not every override is read back as it was given: a float that prints without a point (`1e+16`) and
  None come out as strings (`ConfValues.ReadsItselfExactlyWhen`).
- Two settings contexts on one key that close in the order they opened strand the first override
  (`ConfOverlay.OverlapStrandsOverride`); closed in the opposite order they do not.
  `ConfOverlay.CloseOverlaysExactlyWhen` says for any number of contexts which closings do harm.
- `server_settings` does not always put the file back. Of the exits modelled, two leave the
  overrides: an interrupt (in the fallback without a readiness signal, any raise) that ends the wait
  after they were written, and anything that cuts off the look at the readiness signal between the
  body and the restore (`ConfOverlay.ConfFile.ServerSettings`).
- `_check_sliding` uses the timestamp as the member. Attempts at one timestamp collapse into one and
  all pass (`SlidingWindow.BurstAllPasses`); the bound holds exactly when all timestamps differ
  (`SlidingWindow.BoundExactlyWhenDistinct`).
- The seed classification accepts seeds whose active rules are not what loading their files gives,
  an empty directory among them. Those cannot be restored; `AuditPolicy.SeedIsAlwaysRecoverable`
  gives the exact condition and `AuditPolicy.EmptySeedIsNotReproduced` a seed that fails it.
- `set.replace` fails in three ways, and in no other (`FirewallBroker.ReplaceProgramReplaces`). It
  accepts IPv6 networks and 0.0.0.0/0, but creates sets without a family, which hold neither
  (`FirewallBroker.OneUnstorableSpoilsAll`). It accepts 250,000 networks, but creates sets without a
  size, which hold 65,536. In both cases the named set keeps its contents and the temporary set is
  left behind with the networks before the refused one. It also fails on its last line when a rule
  uses the temporary set; the named set is complete then.
- A pull that races an upload can install an outdated `cert.pem` or `chain.pem` beside the new pair,
  and no later pull replaces it (`CertSync.StaleCertSticks`). `CertSync.PullInstallsExactlyWhen`
  says when every published file ends up installed. A push that died between the full chain and the
  key is not repaired by pushing again (`CertSync.HalfUploadIsStuckButHarmless`).
- A skill name is printed unquoted; it is read back exactly when it needs no quoting
  (`SkillFrontmatter.RenderedNameParses`).

## Model

| member | source | states |
|---|---|---|
| ConfValues.FormattedReads | testit/helpers.py:623-628 | what an override's text parses to is the value it reads as |
| ConfValues.ReadsItselfExactlyWhen | testit/helpers.py:623-628 | Booleans, one-line strings and integers are read as themselves, floats exactly when they print with a point, None never |
| ConfValues.BooleansExactlyWhen | mojo/helpers/settings/parser.py:103-105 | a Boolean is read exactly from true or false in any case |
| ConfValues.NumberReads | mojo/helpers/settings/parser.py:135-143 | every integer, printed, is read as that integer |
| ConfValues.FloatReads | mojo/helpers/settings/parser.py:135-143 | a float with a point is read as a number, one without as a string |
| ConfValues.QuotedReads | mojo/helpers/settings/parser.py:94-97 | a string between quotes is read as it stands, quotes of its own included |
| ConfLines.ConfLineKeyAgrees | testit/helpers.py:631-641 | on every key that can be overridden, the helpers' reading of a line and the loader's agree |
| ConfLines.CommentsReadDifferently | testit/helpers.py:634-640 | on a comment with an = they do not: the helpers read nothing, the loader an assignment |
| ConfLines.LoadConfig | mojo/helpers/settings/parser.py:56-74 | the loader's loop yields exactly the last-wins meaning of the text, each value typed |
| ConfLines.AssignsExactlyWhen | mojo/helpers/settings/parser.py:59 | a line assigns exactly when it has an = anywhere |
| ConfLines.JoinParts | testit/helpers.py:644-652 | the join gives each part but the last its missing newline and changes nothing else |
| ConfLines.SplitJoined | testit/helpers.py:644-652 | splitting a joined text gives back the parts, cut where a part holds an exotic line boundary |
| ConfLines.ResplitKeepsSettings | testit/helpers.py:644-652 | those cuts change no setting |
| ConfLines.ReplaceLines | testit/helpers.py:656-665 | the first loop of apply rewrites exactly the lines of overridden keys and finds which keys occur |
| ConfLines.ApplyConfOverrides | testit/helpers.py:655-669 | the loops compute the specified text: replaced lines, then one line per missing key in order |
| ConfLines.ApplyTextSettings | testit/helpers.py:655-669 | for every file: after apply the loader reads each override as its own value (a Boolean as that Boolean, a string as that string, an integer as that integer, a float as the number exactly when it prints with a point) and every other key as before |
| ConfLines.CaptureConfLines | testit/helpers.py:672-685 | the capture loop keeps, per key, the last line assigning it, or nothing |
| ConfLines.CaptureTextSettings | testit/helpers.py:672-685 | a capture holds exactly the meaning the overridden keys had |
| ConfLines.LastIndexes | testit/helpers.py:700-704 | the index loop finds the last line of each captured key |
| ConfLines.KeepLines | testit/helpers.py:706-719 | the filter loop drops, collapses or puts back captured lines and keeps all others |
| ConfLines.RestoreConfOverrides | testit/helpers.py:688-724 | the three loops together compute the specified restored text |
| ConfLines.RestoreTextSettings | testit/helpers.py:688-724 | after restore, captured keys have their captured meaning and all others the current one, for every text |
| ConfLines.KeptStandsLast | testit/helpers.py:706-716 | a captured line goes back where the key's last line stands, and nowhere else |
| ConfLines.RoundTripKeepsMeaning | testit/helpers.py:655-724 | capture, apply, restore leaves the loader's reading of every key unchanged, for every file and override set |
| ConfLines.RoundTripKeepsBytes | testit/helpers.py:655-724 | and gives the same bytes when lines end in newlines and no overridden key is assigned twice |
| ConfOverlay.OpenKeepsInv | testit/helpers.py:752-765 | opening a context, whatever keys it shares, keeps: each key reads as its innermost open override, else as the base, and each context holds what its keys read before it |
| ConfOverlay.CloseKeepsInv | testit/helpers.py:768-777 | closing a context keeps this when no later one shares a key with it, wherever it stands among the open ones |
| ConfOverlay.CloseOverlaysExactlyWhen | testit/helpers.py:768-777 | closing any context at all leaves every key meaning what its innermost override does exactly when its keys meant the same before it opened as in the contexts left |
| ConfOverlay.RunReadsOverlay | testit/helpers.py:752-777 | so it holds at every step of every run in which contexts sharing a key close last-opened-first |
| ConfOverlay.ContextsRestoreBase | testit/helpers.py:752-777 | starting from a file nobody has overridden, every key reads so, and as the base once all contexts are closed |
| ConfOverlay.DisjointRunsAreValid | testit/helpers.py:752-777 | contexts with pairwise different keys may close in any order whatever |
| ConfOverlay.DisjointContextsReadTheirOwn | testit/helpers.py:752-777 | at every step of any interleaving of such contexts the loader reads each one's own values, and the base text is back once all are closed |
| ConfOverlay.RunKeepsOthers | testit/helpers.py:688-724 | lines of keys nobody overrides keep their bytes and order throughout, in whatever order contexts close |
| ConfOverlay.OverlapStrandsOverride | testit/helpers.py:734-777 | contexts sharing a key and closed in opening order leave the first override behind, and when that shows |
| ConfOverlay.ConfFile.Write | testit/helpers.py:736-749 | the file holds the new text; a write happens exactly when it differs |
| ConfOverlay.ConfFile.Apply | testit/helpers.py:752-765 | snapshot of the old text, overrides in the new one, and whether it changed |
| ConfOverlay.ConfFile.Restore | testit/helpers.py:768-777 | the overrides are subtracted from the file as it stands |
| ConfOverlay.ConfFile.ServerSettings | testit/helpers.py:997-1067 | alone on the file, a context leaves its meaning as before (and its bytes where the round trip is exact) unless the wait for the overrides is torn down or the look at the signal after the body is cut off; exactly then the overrides stay; the body runs under exactly the overrides |
| ServerLock.StepKeepsInv | testit/server_lock.py:61-111 | every step of any thread keeps: counts equal holds and waiting writers, exclusion, no lost wakeup |
| ServerLock.RunKeepsInv | testit/server_lock.py:61-111 | so does every run |
| ServerLock.ReachableIsSafe | testit/server_lock.py:54-111 | from a fresh lock: readers are the outstanding holds, waiting writers the threads inside acquire_write, while a thread holds exclusively all shared holds are its own, and un-notified sleepers still have to wait |
| ServerLock.ReadOutcome | testit/server_lock.py:61-80 | a shared hold is acquired exactly when the caller holds exclusively (on entry) or nobody does and no writer waits; else the call times out exactly when no time is left and sleeps exactly when some is; with what each leaves |
| ServerLock.WriteOutcome | testit/server_lock.py:89-105 | the exclusive hold is acquired exactly when nobody holds in any way; else the call times out or sleeps by the time left; leaving wakes every sleeper |
| ServerLock.ReleaseOutcome | testit/server_lock.py:82-111 | a release takes just the hold; the last shared one and the exclusive one wake every sleeper |
| ServerLock.FreeLockWakesSomeone | testit/server_lock.py:74-105 | a sleeper the lock is free for has been notified and acquires when it runs |
| ServerLock.WaitingWriterDrainsReaders | testit/server_lock.py:74-105 | while a writer waits no reader enters, each release lowers the count by one, and the writer may enter exactly when all holds are gone |
| ServerLock.WriterIsAlone | testit/server_lock.py:71-102 | a writer enters with no hold outstanding; others are refused, its own reads are not |
| ServerLock.ServerRestartLock.CheckRead | testit/server_lock.py:71-80 | from entry or wake-up: acquire, sleep or time out, with the whole new state |
| ServerLock.ServerRestartLock.AcquireRead | testit/server_lock.py:61-80 | the call up to its first wait keeps the invariant and acquires, times out or sleeps exactly when it should |
| ServerLock.ServerRestartLock.ResumeRead | testit/server_lock.py:74-80 | the same from a wake-up on |
| ServerLock.ServerRestartLock.EndRead | testit/server_lock.py:82-87 | a hold is given up, and the last one notifies everybody |
| ServerLock.ServerRestartLock.CheckWrite | testit/server_lock.py:95-105 | acquire, sleep or time out; leaving uncounts the writer and notifies on every path |
| ServerLock.ServerRestartLock.AcquireWrite | testit/server_lock.py:89-105 | the call up to its first wait keeps the invariant and acquires, times out or sleeps exactly when it should |
| ServerLock.ServerRestartLock.ResumeWrite | testit/server_lock.py:95-105 | the same from a wake-up on |
| ServerLock.ServerRestartLock.EndWrite | testit/server_lock.py:107-111 | the exclusive hold ends and everybody is notified |
| ServerLock.ServerRestartLock.LeaveExclusive | testit/server_lock.py:144-148 | what was not acquired is not released |
| FixedWindow.IncrFixedCounts | mojo/decorators/limits.py:59-67 | with expired keys really gone, the counter returns exactly the number of checks of its window as long as the clock is at most one window behind its furthest |
| FixedWindow.ClockTooFarBackForgets | mojo/decorators/limits.py:59-67 | one moment more and a window already hit is counted afresh |
| FixedWindow.CheckKeepsFirstLimit | mojo/decorators/limits.py:199-232 | comparing that count with the limit lets exactly the first `limit` checks of each window through |
| FixedWindow.HitsAreChecksIn | mojo/decorators/limits.py:201-204 | a window's hits are the checks whose times lie in it |
| FixedWindow.FixedWindowBound | mojo/decorators/limits.py:199-232 | at most `limit` per aligned window and (k+1) times `limit` in any stretch of k windows |
| FixedWindow.BoundIsReached | mojo/decorators/limits.py:199-232 | for every plan, limit and k there are requests of which (k+1) times `limit` are served in a stretch of k windows of at least two moments |
| FixedWindow.ServedRequestsBound | mojo/decorators/limits.py:199-232 | the same bounds for requests served through all their tiers |
| FixedWindow.RateLimiter.CheckTier | mojo/decorators/limits.py:201-204 | under such a clock one tier counts the check and passes it exactly when it is among the first `limit` of its window |
| FixedWindow.RateLimiter.RateLimit | mojo/decorators/limits.py:199-232 | tiers run in order, the first over its limit blocks, later ones are not counted |
| SlidingWindow.TrimmedIsRecent | mojo/decorators/limits.py:76-79 | expiry and trimming together leave exactly the timestamps of the window |
| SlidingWindow.CheckCountsRecent | mojo/decorators/limits.py:76-85 | a check counts all attempts of the window, refused ones included, and keeps the stored set equal to them |
| SlidingWindow.SlidingLimiter.Check | mojo/decorators/limits.py:70-85 | over any run with a monotone clock, each verdict compares that count with the limit |
| SlidingWindow.SlidingBoundOnMoments | mojo/decorators/limits.py:70-85 | in any half-open stretch one window long, attempts pass at no more than `limit` distinct moments |
| SlidingWindow.MomentsAreAttempts | mojo/decorators/limits.py:78 | with distinct timestamps, moments and attempts number the same |
| SlidingWindow.SlidingBound | mojo/decorators/limits.py:70-85 | hence at most `limit` attempts pass in any such stretch |
| SlidingWindow.BurstAllPasses | mojo/decorators/limits.py:78 | without distinct timestamps any number of attempts passes |
| SlidingWindow.BoundExactlyWhenDistinct | mojo/decorators/limits.py:70-85 | for times in order, the bound holds for every window, stretch and positive limit exactly when the times are pairwise different |
| SlidingWindow.PassesExactlyWhen | mojo/decorators/limits.py:70-85 | among different times an attempt passes exactly when at most `limit` attempts, itself and refused ones included, lie in its window |
| StrictLimits.ServedLeavesAttempts | mojo/decorators/limits.py:281-318 | a served request leaves an allowed attempt on every key it was checked against |
| StrictLimits.RefusedByOne | mojo/decorators/limits.py:281-318 | a refusal is by one tier that found more than `limit`, every tier before it passed, and later tiers recorded nothing |
| StrictLimits.ServedPassesAll | mojo/decorators/limits.py:281-318 | a served request was within the limit of every key it was checked against |
| StrictLimits.OthersUntouched | mojo/decorators/limits.py:281-318 | keys a request is not checked against keep their history |
| StrictLimits.AllGenuine | mojo/decorators/limits.py:281-318 | over any run of requests every recorded verdict is the window's count against the limit |
| StrictLimits.LogIsInOrder | mojo/decorators/limits.py:76 | every attempt is recorded at one of the readings, in their order |
| StrictLimits.StrictBound | mojo/decorators/limits.py:242-322 | if the clock readings for a key never go back or repeat, at most `limit` requests checked against it are served in any half-open stretch one window long, whatever their other tiers do |
| StrictLimits.StrictLimiter.CheckTier | mojo/decorators/limits.py:284-288 | one tier records the attempt and passes it exactly when its window holds at most `limit` |
| StrictLimits.StrictLimiter.StrictRateLimit | mojo/decorators/limits.py:281-318 | tiers run in order, the index given is that of the first refusal, later tiers record nothing |
| Traffic.HitCounts | mojo/decorators/limits.py:571-579 | incrementing and renewing the expiry on every request keeps the counter equal to the window's requests |
| Traffic.PreviousIsExact | mojo/decorators/limits.py:584 | throughout the next window the previous key is alive and holds its whole count |
| Traffic.FlushIsDue | mojo/decorators/limits.py:581-585 | a request flushes exactly what the start of its window makes due, when that count is final |
| Traffic.TotalDueAfter | mojo/decorators/limits.py:581-591 | a request changes what its identity is owed by that amount, in the spans the previous window starts in, and what others are owed not at all |
| Traffic.RequestKeepsBooks | mojo/decorators/limits.py:568-596 | a request keeps, in every span of time: credits equal dues, each window flushed once, whole, and before its key expired |
| Traffic.RequestKeepsConsistent | mojo/decorators/limits.py:568-596 | and keeps the stored counters, totals and scores in step with that history |
| Traffic.Count | mojo/decorators/limits.py:573-596 | the two pipelines compute the specified next state and the count |
| Traffic.ApiThrottle.CheckApiThrottle | mojo/decorators/limits.py:548-601 | unlimited and exempt callers cost nothing; others are accounted for even when not enforced, and blocked exactly when over the limit and enabled |
| Traffic.RunIsConsistent | mojo/decorators/limits.py:568-596 | every run in time order ends consistent |
| Traffic.RunCreditsDueWindows | mojo/decorators/limits.py:568-596 | so each identity is credited exactly the sum of its windows at or above the floor that had activity in the next one |
| Traffic.DueExactly | mojo/decorators/limits.py:581-585 | what a window owes, by the times of the requests in it and in the next |
| Traffic.RunScoresDueWindows | mojo/decorators/limits.py:586-591 | the score of an identity in an accounting set is the sum of its due windows that start in that set's five minutes |
| AuditPolicy.PolicyIsManaged | mojo/deploy/audit.py:75-98 | a rendered policy is always recognised as managed |
| AuditPolicy.PolicyWatches | mojo/deploy/audit.py:75-98 | the policy holds the root and the application rule of both architectures, with the user, and the sudo watch |
| AuditPolicy.AcceptedExactlyWhen | mojo/deploy/audit.py:143-163 | a host is taken over exactly when its user is valid, each line of each unmanaged file is blank, a comment or one of the three directives, and it is a recordless host under an active seed rule or has one managed file and a record naming its first source |
| AuditPolicy.ForeignLineRefuses | mojo/deploy/audit.py:147-151 | any other line in an unmanaged file keeps the host from being taken over |
| AuditPolicy.VerifiesExactlyWhen | mojo/deploy/audit.py:396-407 | the policy verifies exactly when no other file is managed, the status has the four values asked for, and loading it alone does not turn auditing off |
| AuditPolicy.NeverAuditsExactlyWhen | mojo/deploy/audit.py:398-400 | auditing is off when the active rules contain either text anywhere |
| AuditPolicy.ChangeKeepsRecoverable | mojo/deploy/audit.py:328-441 | no single change a converge or restore makes loses the seed |
| AuditPolicy.RunKeepsRecoverable | mojo/deploy/audit.py:356-441 | so a process stopped after any number of changes leaves it recoverable |
| AuditPolicy.HistoryKeepsRecoverable | mojo/deploy/audit.py:356-441 | and so does any sequence of such processes |
| AuditPolicy.RestorePriorRecovers | mojo/deploy/audit.py:432-441 | from every recoverable state with a record, restore_prior succeeds exactly when loading the seed's files reproduces its generated file, if any, and its stripped active rules; then the seed is back and no record is left |
| AuditPolicy.RestorePriorRefuses | mojo/deploy/audit.py:432-438 | without a record, or with a foreign source, nothing is restored |
| AuditPolicy.ReloadedIsSeed | mojo/deploy/audit.py:338-353 | reproducing means the generated file, if any, and the stripped active rules; what is given back has the seed's files, and is the seed itself exactly when the seed was loaded from them |
| AuditPolicy.SeedIsAlwaysRecoverable | mojo/deploy/audit.py:356-441 | after any history, for every seed the inventory accepts: the seed is still or again there, or the record holds it and restore_prior brings it back exactly under that condition |
| AuditPolicy.EmptySeedIsNotReproduced | mojo/deploy/audit.py:154-161 | an empty rules directory under a loaded seed rule is accepted, and whatever is done to it cannot be restored where loading no files gives no rules |
| AuditPolicy.OnlyPolicyIsManaged | mojo/deploy/audit.py:402-407 | among managed sources the final verification passes exactly when the policy is the only file |
| AuditPolicy.AuditHost.UnlinkAll | mojo/deploy/audit.py:336-337 | files are removed one by one, recoverable after each |
| AuditPolicy.AuditHost.PutAll | mojo/deploy/audit.py:338-340 | files are written one by one, recoverable after each |
| AuditPolicy.AuditHost.RestoreInventory | mojo/deploy/audit.py:328-353 | succeeds exactly when no unknown file appeared and loading reproduces the inventory, which it then has restored |
| AuditPolicy.AuditHost.Install | mojo/deploy/audit.py:390-407 | success means the policy is the only source, loaded, with a healthy status; without faults it succeeds exactly when verification holds |
| AuditPolicy.AuditHost.PriorOf | mojo/deploy/audit.py:369-378 | a managed host must have a record naming its first source, a seed must have none |
| AuditPolicy.AuditHost.Preflight | mojo/deploy/audit.py:365-387 | accepts exactly the hosts it may manage, and writes down the recorded prior, or the host as found where there is no record |
| AuditPolicy.AuditHost.Converge | mojo/deploy/audit.py:356-419 | a host with a foreign line, or otherwise not acceptable, is refused and nothing changes; installed, rolled back and stuck are told apart, each exactly when; every state on the way is recoverable |
| AuditPolicy.AuditHost.RestorePrior | mojo/deploy/audit.py:432-441 | without faults it does exactly what its specification says |
| AuditPolicy.AuditHost.Campaign | mojo/deploy/audit.py:356-441 | any number of converges with any users and faults, then one undisturbed restore, ends in the seed exactly when it was never given up or loading its files reproduces it |
| FirewallBroker.InsertSorts | mojo/deploy/firewall_broker.py:198 | inserting keeps the sequence sorted without duplicates and adds just that element |
| FirewallBroker.LexLessExactlyWhen | mojo/deploy/firewall_broker.py:198 | the order is that of the first differing character, a proper prefix first |
| FirewallBroker.NormalizeIsSortedSet | mojo/deploy/firewall_broker.py:194-198 | the networks are refused exactly when one is invalid; otherwise they are the requested set, sorted |
| FirewallBroker.BuiltIsWellFormed | mojo/deploy/firewall_broker.py:185-218 | a built operation has a valid name and, for a replace, exactly the requested networks |
| FirewallBroker.RefusedExactlyWhen | mojo/deploy/firewall_broker.py:119-133 | a request is refused exactly when its name or a network is invalid or a replace is too large |
| FirewallBroker.ReplaceText | mojo/deploy/firewall_broker.py:199-204 | the restore input, line by line |
| FirewallBroker.RequestDoes | mojo/deploy/firewall_broker.py:162-219 | from request to kernel: what each kind of accepted request, left alone and reporting success, has done, and to nothing else |
| FirewallBroker.SucceedsExactlyWhen | mojo/deploy/firewall_broker.py:366-433 | when each kind of accepted request succeeds, and which one raises |
| FirewallBroker.ReplaceStep | mojo/deploy/firewall_broker.py:199-204 | each program line takes one described state to the next; refused are only the add of a network a set cannot hold or has no room for, and a destroy of a set in use |
| FirewallBroker.ReplacePrefix | mojo/deploy/firewall_broker.py:199-204 | hence every prefix up to the first refusal runs to the described state |
| FirewallBroker.ReplaceProgramReplaces | mojo/deploy/firewall_broker.py:192-209 | from any kernel state it succeeds exactly when a set can hold each network, has room for all, and no rule uses the temporary one; then the named set equals them, the temporary one is gone, the rest unchanged; otherwise exactly what is left |
| FirewallBroker.OneUnstorableSpoilsAll | mojo/deploy/firewall_broker.py:119-125 | one IPv6 network or 0.0.0.0/0, both accepted, makes the whole replace fail from any state, the named set keeping its contents |
| FirewallBroker.ReplaceIsAtomic | mojo/deploy/firewall_broker.py:199-204 | after any prefix the named set is its old self or complete |
| FirewallBroker.StoppedKeepsCoherent | mojo/deploy/firewall_broker.py:373-425 | wherever an operation stops: at most one rule per set, every rule names an existing set |
| FirewallBroker.EffectIsWholeScript | mojo/deploy/firewall_broker.py:373-425 | an operation left alone runs all its commands, with the stated effect |
| FirewallBroker.RunsStayCoherent | mojo/deploy/firewall_broker.py:366-451 | so does every run of operations, each stopped after any of its commands, and rules only name operated sets |
| FirewallBroker.RemoveRemovesBoth | mojo/deploy/firewall_broker.py:380-397 | after any such run from an empty firewall, removing an existing set leaves neither it nor its rule, and replacing a set succeeds exactly when a set can hold the networks and has room for them |
| FirewallBroker.Firewall.Ipset | mojo/deploy/firewall_broker.py:375-379 | a child changes the kernel as its command says, or not at all when it fails; one that times out may have done either |
| FirewallBroker.Firewall.Restore | mojo/deploy/firewall_broker.py:400-405 | a restore runs the program, or a prefix of it when it fails or is killed |
| FirewallBroker.Firewall.CheckRule | mojo/deploy/firewall_broker.py:216-217 | the return code tells a missing set, a missing rule and a present rule apart |
| FirewallBroker.Firewall.AddRule | mojo/deploy/firewall_broker.py:413-417 | the rule is put first, only where there was none |
| FirewallBroker.Firewall.DropRule | mojo/deploy/firewall_broker.py:381-384 | the rule is deleted where there is one; return codes as for the check |
| FirewallBroker.Firewall.ExecuteAdd | mojo/deploy/firewall_broker.py:374-379 | the set is created before the network is added to it |
| FirewallBroker.Firewall.ExecuteDelete | mojo/deploy/firewall_broker.py:187-191 | the network is deleted from an existing set |
| FirewallBroker.Firewall.ExecuteReplace | mojo/deploy/firewall_broker.py:400-405 | the replace program is run, whole or to a prefix |
| FirewallBroker.Firewall.ExecuteEnsure | mojo/deploy/firewall_broker.py:411-418 | the rule is there once, inserted only where the check found none |
| FirewallBroker.Firewall.ExecuteRemove | mojo/deploy/firewall_broker.py:380-423 | rule, contents, set, in this order, with the expected absences accepted |
| FirewallBroker.Firewall.Execute | mojo/deploy/firewall_broker.py:366-451 | whatever times out, acting or not, the kernel is left as the operation stopped at some command leaves it; otherwise exactly as specified, and success means every child was ok |
| FirewallBroker.Firewall.Handle | mojo/deploy/firewall_broker.py:366-451 | a refused request does nothing; a built one is executed |
| SlotAllocator.PickRedisIndex | testit/testenv.py:717-743 | the first index neither taken nor stamped by a living checkout; every error means what it says about all candidates |
| SlotAllocator.PickPort | testit/testenv.py:761-769 | the first untaken port that can be bound, or none in the range can |
| SlotAllocator.StepKeepsApart | testit/testenv.py:776-868 | every step keeps indexes and ports different and within their ranges |
| SlotAllocator.RegistryAfter | testit/testenv.py:776-868 | what each step leaves of every record; a removed record's index and port are free again |
| SlotAllocator.ClaimedExactlyWhen | testit/testenv.py:630-636 | an index may be claimed exactly when it is 1 or more and no other living checkout stamped it, and only then is it flushed and stamped |
| SlotAllocator.RunKeepsSlots | testit/testenv.py:776-868 | so does every run, and a record never changes until something removes it |
| SlotAllocator.StampProtects | testit/testenv.py:599-646 | a living checkout's stamp keeps its index from being allocated to or flushed by others in any run, lost registries included |
| SlotAllocator.SuiteIsProtected | bin/testit.py:97-129 | a suite that ran enjoys this from then on |
| SlotAllocator.UnstampedIsUnprotected | testit/testenv.py:599-646 | without a stamp a lost registry does give the index away |
| SlotAllocator.Bench.Allocate | testit/testenv.py:776-824 | the recorded slot for a known root, a fresh one otherwise, or an error and no change |
| SlotAllocator.Bench.Release | testit/testenv.py:827-835 | removes just that record and says whether it was there |
| SlotAllocator.Bench.Prune | testit/testenv.py:844-868 | drops and returns exactly the records of checkouts that are gone |
| SlotAllocator.Bench.RunSuite | bin/testit.py:97-129 | refuses what may not be claimed; otherwise flushes and stamps that index, or leaves it alone when continuing |
| CertSync.InstalledAt | mojo/deploy/certbot_sync.py:454-458 | after any number of installs, which files are new and which are untouched |
| CertSync.ReloadsSeeMatchingPairs | mojo/deploy/certbot_sync.py:381-486 | whatever each request finds and wherever pulls die, nginx is only reloaded on a full chain and key with the same public key |
| CertSync.PullInstallsExactlyWhen | mojo/deploy/certbot_sync.py:381-457 | against a stable publication, every published file ends up installed exactly when they all were, or the pair on disk does not match, or its full chain is another and older |
| CertSync.DyingPullStaysOnTheWay | mojo/deploy/certbot_sync.py:454-458 | a pull that dies anywhere leaves a state a later pull will finish |
| CertSync.PullRepairsAnyCrash | mojo/deploy/certbot_sync.py:285-307 | after any number of dying pulls, one undisturbed pull has the replica serve the publication; the published key file is there exactly unless another that matches already was |
| CertSync.CurrentNeverChanges | mojo/deploy/certbot_sync.py:391-393 | a replica that looks current is never touched again |
| CertSync.StaleCertSticks | mojo/deploy/certbot_sync.py:285-307 | so a stale cert.pem taken during an upload stays |
| CertSync.PushPublishesExactlyWhen | mojo/deploy/certbot_sync.py:345-378 | a push ends with the local lineage in the bucket unless it skipped one that differs, and with a proper publication when the local pair matches |
| CertSync.PushUploadsExactlyWhen | mojo/deploy/certbot_sync.py:345-378 | a full chain newer than the bucket's, different from it or not there yet is uploaded with all local files; otherwise the bucket is left alone |
| CertSync.HalfUploadIsStuckButHarmless | mojo/deploy/certbot_sync.py:353-359 | an upload dead between full chain and key is never redone, and no replica installs it |
| CertSync.ReplicaNode.Stage | mojo/deploy/certbot_sync.py:414-430 | all downloads are staged, optional ones if they exist, or one raised and nothing is |
| CertSync.ReplicaNode.Install | mojo/deploy/certbot_sync.py:454-458 | staged files go in lineage order until the process dies |
| CertSync.ReplicaNode.Pull | mojo/deploy/certbot_sync.py:381-486 | the whole of one pull, its exit code, and that success leaves a matching pair reloaded |
| CertSync.PrimaryNode.Push | mojo/deploy/certbot_sync.py:345-378 | the whole of one push, dying anywhere |
| Packing.PackIsGreedy | scripts/build_django_mojo_site.py:267-284 | the pieces hold the items in order, none over the limit but single items, none with room for what follows |
| Packing.PackIsOptimal | scripts/build_django_mojo_site.py:267-284 | no consecutive packing within the limit has fewer pieces |
| Packing.PackIsTheMaximalOne | scripts/build_django_mojo_site.py:267-284 | only one packing has no room left anywhere |
| Packing.PackedExactlyWhen | scripts/build_django_mojo_site.py:267-284 | so the loops' result is fully determined by order, limit and fullness |
| Packing.ShardsAreOptimal | scripts/build_django_mojo_site.py:267-284 | every shard is within 145,000 bytes or a single entry, entries keep their order, and no such split has fewer shards |
| Packing.WrittenAt | scripts/build_django_mojo_site.py:287-297 | each shard is found under its own name and no other file changes |
| Packing.ShardEntries | scripts/build_django_mojo_site.py:267-284 | the loop writes exactly the greedy shards, numbered from zero |
| Packing.YamlBlock | scripts/sync_maestro_skills.py:133-149 | the loop with its running length lays out exactly the greedy lines |
| Packing.FoldedLinesAreOptimal | scripts/sync_maestro_skills.py:133-149 | each line holds at most 76 columns beside the indent, or one longer word, and no such layout has fewer lines |
| SkillFrontmatter.JoinLines | scripts/sync_maestro_skills.py:98-106 | splitting a text into lines and joining them is the identity but for its last newline |
| SkillFrontmatter.ReadScalar | scripts/sync_maestro_skills.py:109-123 | the loops find the specified value, block or plain, or the missing key |
| SkillFrontmatter.SplitsExactlyWhen | scripts/sync_maestro_skills.py:98-106 | frontmatter lies between a first line --- and the next one; each lack is its own error |
| SkillFrontmatter.ScalarAt | scripts/sync_maestro_skills.py:109-122 | the first line with the key decides, block or plain |
| SkillFrontmatter.ScalarMissing | scripts/sync_maestro_skills.py:123 | without such a line the key is missing |
| SkillFrontmatter.ContinuationExactly | scripts/sync_maestro_skills.py:116-120 | a block is all lines up to the first that starts in column one, stripped |
| SkillFrontmatter.NonEmptyExactly | scripts/sync_maestro_skills.py:121 | blank parts drop out, the others keep their order |
| SkillFrontmatter.StripQuotesSplits | scripts/sync_maestro_skills.py:122 | stripping takes off the quotes at both ends, all of them and nothing else |
| SkillFrontmatter.QuotedValueReads | scripts/sync_maestro_skills.py:115-122 | a quoted plain value is read without its quotes |
| SkillFrontmatter.RenderedSplits | scripts/sync_maestro_skills.py:187-197 | a printed skill splits into exactly the printed fields and the text after them |
| SkillFrontmatter.RenderedDescriptionParses | scripts/sync_maestro_skills.py:98-197 | every description is read back with its whitespace runs collapsed |
| SkillFrontmatter.YamlReadsDescription | scripts/sync_maestro_skills.py:187-193 | a reader of folded, strip-chomped block scalars (sections 8.1.3 and 8.1.1.2 of YAML 1.2.2) finds the same description as scalar |
| SkillFrontmatter.RenderedNameParses | scripts/sync_maestro_skills.py:187-190 | the name is read back exactly when it needs no quoting |
| SkillFrontmatter.RenderedBodyParses | scripts/sync_maestro_skills.py:187-197 | note and body are read back as printed |
| SkillFrontmatter.RerenderIsStable | scripts/sync_maestro_skills.py:98-197 | printing what was read prints the same text |
| SkillFrontmatter.NoteSays | scripts/sync_maestro_skills.py:178-188 | the note names the source and, if there is one, the version |
| SkillFrontmatter.VersionAt | scripts/sync_maestro_skills.py:126-129 | the version is what follows the key on its first line |
| SkillFrontmatter.VersionMissing | scripts/sync_maestro_skills.py:130 | without such a line it is unknown |
| SkillFrontmatter.RenderSkill | scripts/sync_maestro_skills.py:171-197 | succeeds exactly on sources with frontmatter, this name and a description; the output reads back as that description |
| OptimisticCounter.StepKeepsInv | mojo/cache/redis.py:192-224 | every command of every client keeps values accounted for and marks exact |
| OptimisticCounter.RunKeepsInv | mojo/cache/redis.py:192-224 | so does every interleaving |
| OptimisticCounter.StoredIsLastSetPlusCommits | mojo/cache/redis.py:192-224 | every key holds its last set value plus the deltas of exactly the calls committed after it |
| OptimisticCounter.StoredIsWhatWasAsked | mojo/cache/redis.py:192-224 | from the callers' side: every key holds the value somebody last set plus the deltas asked for by exactly the calls that committed after it |
| OptimisticCounter.EventIsLogged | mojo/cache/redis.py:192-224 | sets and deletes are logged as asked, and a commit with the key and delta its client last asked for |
| OptimisticCounter.LoneCallCounts | mojo/cache/redis.py:206-214 | a call left alone adds its delta and returns the sum |
| OptimisticCounter.ReadEndsExactlyWhen | mojo/cache/redis.py:198-204 | a read ends the call exactly when the key is missing or holds no integer, and says which |
| OptimisticCounter.ReturnsAreExplained | mojo/cache/redis.py:206-214 | each returned value is the key's value right after that call, in one order for all |
| OptimisticCounter.CommitsExactlyWhenUntouched | mojo/cache/redis.py:197-214 | a call commits exactly when nobody touched its key since the watch; otherwise it changes nothing |
| OptimisticCounter.OtherwiseNothingChanges | mojo/cache/redis.py:192-224 | failed, aborted and unfinished calls leave no effect, and effects touch one key |
| OptimisticCounter.Cache.SetValue | mojo/cache/redis.py:65-80 | a set replaces the value and marks those watching the key |
| OptimisticCounter.Cache.Remove | mojo/cache/redis.py:97-103 | a delete does so when there is something to delete |
| OptimisticCounter.Cache.Watch | mojo/cache/redis.py:192-197 | the call begins to watch, unmarked |
| OptimisticCounter.Cache.WatchDecr | mojo/cache/redis.py:223-224 | decr is incr of the opposite delta |
| OptimisticCounter.Cache.Read | mojo/cache/redis.py:198-209 | missing and non-integer keys end the call; otherwise the sum is queued |
| OptimisticCounter.Cache.Exec | mojo/cache/redis.py:209-214 | a marked call is refused and changes nothing; otherwise the sum is stored and returned |

## Left out

- ConfValues: lists, dicts and f-strings are known by their text, and an override that prints as one reads as that text parses. A float stands for its printed form. Integers are spelled in ASCII digits, of any length.
- ConfLines: override keys are identifiers or the like (non-empty, stripped, no `=`, no line boundary, no leading `#`) and values hold no line boundary, `\r` included. Text is what a universal-newline read returns, so `\r` ends no line.
- ConfOverlay: the serialization lock of `server_settings`, readiness files and waiting for a worker are reduced to the outcomes that matter (`Course`); an interrupt inside applying or restoring itself is not among them.
- ServerLock: calls of `release_read` or `release_write` by a thread that holds nothing. Fairness between waiting writers is not promised by the code.
- FixedWindow.RateLimiter.RateLimit: the tiers are given; how a request and its API key choose them is not modelled.
- StrictLimits.StrictLimiter.StrictRateLimit: likewise.
- FixedWindow, StrictLimits: Redis errors fail open and are not modelled; one window and limit per key throughout a run; Redis and the application read one clock.
- SlidingWindow: a window of zero or less, and clocks that run backwards.
- Traffic.Count: credits the identity only, not its current IP, and does not let the totals and top-talker sets expire.
- Traffic.ApiThrottle.CheckApiThrottle: identity, limit and exemption are given; a window length that changes during a run is not modelled.
- AuditPolicy.AuditHost.Preflight: the second inventory before the first change is one step that may raise; others changing the sources in between only make it refuse.
- AuditPolicy: file modes, owners and unsafe file types, `restore_immediate`, `publish_health` and the state file's own format. `augenrules --load` is a fixed function of the files.
- FirewallBroker.Firewall.Execute: not the operations without a set (`rule.insert`, `rule.delete`, `rules.contains`), which add no interplay.
- FirewallBroker: request parsing, contexts, receipts, and other processes changing the firewall at the same time. Every set is one the broker would create: IPv4, with the default capacity.
- SlotAllocator: `MOJO_TESTENV_NO_REDIS`, stamps that do not resolve to a path, a corrupt registry's backup, and the registry's file format. Claim, flush and stamp of a suite are one step; over runs, probes answer.
- CertSync: dry runs, the change journal, leftover staging directories, file modes, and renewal. A crash between the last install and the reload is not retried by the code, and nothing here says nginx catches up.
- Packing: JSON and UTF-8 encoding; entries and the commit are their encoded bytes. Shard names are a prefix and a number.
- SkillFrontmatter: the command substitutions, which are parameters. Of YAML, only folded block scalars with strip chomping are read.
- OptimisticCounter.Cache.SetValue: does not let the key expire.
- OptimisticCounter.Cache.Exec: does not renew an expiry.
- OptimisticCounter: `add` and bulk operations, and a connection lost between the server's commit and the client's reply.
