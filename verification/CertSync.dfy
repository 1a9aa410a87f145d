/**
 Distributing a certificate lineage through a bucket (mojo/deploy/certbot_sync.py).

 Uploads, downloads and installs are single-file steps and a process may die between
 any two. A replica sees the bucket only through its own requests, so every
 interleaving with uploads is covered by letting each request find anything. A
 digest stands for the content it was taken of.
 */
module CertSync {
  import opened Wrappers

  /** A file's content: the public key openssl reads off it as a certificate, as a key, and the rest. */
  datatype Blob = Blob(certKey: Option<int>, pairKey: Option<int>, body: int)

  datatype Name = Cert | Chain | Fullchain | Privkey

  const LINEAGE: seq<Name> := [Cert, Chain, Fullchain, Privkey]

  predicate Required(n: Name) {
    n == Fullchain || n == Privkey
  }

  /** `pair_matches` */
  predicate PairMatches(cert: Blob, key: Blob) {
    cert.certKey.Some? && key.pairKey.Some? && cert.certKey == key.pairKey
  }

  datatype Object = Object(content: Blob, created: int, sha: Option<Blob>)

  type Bucket = map<Name, Object>

  datatype File = File(content: Blob, mtime: int)

  type Disk = map<Name, File>

  // ---------- deciding whether to pull ----------

  /** `remote_metadata` */
  function RemoteMetadata(head: Option<Object>): (int, Option<Blob>) {
    if head.Some? then (head.value.created, head.value.sha) else (0, None)
  }

  function Mtime(disk: Disk, n: Name): int {
    if n in disk then disk[n].mtime else 0
  }

  /** `pair_on_disk_ok` */
  predicate PairOnDisk(disk: Disk) {
    Fullchain in disk && Privkey in disk && PairMatches(disk[Fullchain].content, disk[Privkey].content)
  }

  /** `is_current` */
  predicate IsCurrent(disk: Disk, sha: Option<Blob>) {
    sha.Some? && Fullchain in disk && disk[Fullchain].content == sha.value && PairOnDisk(disk)
  }

  predicate Skips(disk: Disk, head: Option<Object>) {
    var (created, sha) := RemoteMetadata(head);
    created == 0 || IsCurrent(disk, sha) || (created <= Mtime(disk, Fullchain) && PairOnDisk(disk))
  }

  /** The downloads make an installable lineage: both required files, and they match. */
  predicate Installable(got: map<Name, Blob>) {
    Fullchain in got && Privkey in got && PairMatches(got[Fullchain], got[Privkey])
  }

  // ---------- installing ----------

  /** The disk after the first n lineage files were dealt with. */
  function InstallFirst(disk: Disk, got: map<Name, Blob>, now: int, n: nat): Disk
    requires n <= |LINEAGE|
  {
    if n == 0 then disk
    else
      var before := InstallFirst(disk, got, now, n - 1);
      var name := LINEAGE[n - 1];
      if name in got then before[name := File(got[name], now)] else before
  }

  lemma {:induction false} InstalledAt(disk: Disk, got: map<Name, Blob>, now: int, n: nat, name: Name)
    requires n <= |LINEAGE|
    ensures name in InstallFirst(disk, got, now, n) <==> name in disk || (name in got && name in LINEAGE[..n])
    ensures name in InstallFirst(disk, got, now, n) ==>
              InstallFirst(disk, got, now, n)[name] ==
              if name in got && name in LINEAGE[..n] then File(got[name], now) else disk[name]
  {
    if n > 0 {
      InstalledAt(disk, got, now, n - 1, name);
      assert LINEAGE[..n] == LINEAGE[..n - 1] + [LINEAGE[n - 1]];
    }
  }

  // ---------- a replica over many pulls ----------

  /** The disk, and the disk as nginx saw it at each reload `pull` performed. */
  datatype Replica = Replica(disk: Disk, reloads: seq<Disk>)

  /**
   One run of `pull`: what each request found, the time, and after how many of the
   four lineage files it died (four: the installs finished; five: it also reached
   the reload). `nginxOk` is the outcome of the configuration test.
   */
  datatype PullRun = PullRun(head: Option<Object>, got: map<Name, Blob>, now: int, died: nat, nginxOk: bool)

  function AfterPull(r: Replica, p: PullRun): Replica {
    if Skips(r.disk, p.head) || !Installable(p.got) then r
    else if p.died <= 4 then r.(disk := InstallFirst(r.disk, p.got, p.now, p.died))
    else
      var disk := InstallFirst(r.disk, p.got, p.now, 4);
      Replica(disk, if p.nginxOk then r.reloads + [disk] else r.reloads)
  }

  function AfterPulls(r: Replica, pulls: seq<PullRun>): Replica {
    if pulls == [] then r else AfterPull(AfterPulls(r, pulls[..|pulls| - 1]), pulls[|pulls| - 1])
  }

  ghost predicate SafeReloads(r: Replica) {
    forall i :: 0 <= i < |r.reloads| ==> PairOnDisk(r.reloads[i])
  }

  /** Whatever was uploaded meanwhile and wherever pulls died, nginx is only ever reloaded on a matching pair. */
  lemma {:induction false} ReloadsSeeMatchingPairs(r: Replica, pulls: seq<PullRun>)
    requires SafeReloads(r)
    ensures SafeReloads(AfterPulls(r, pulls))
    ensures forall disk: Disk :: disk in AfterPulls(r, pulls).reloads ==>
              && Fullchain in disk && Privkey in disk
              && disk[Fullchain].content.certKey.Some?
              && disk[Fullchain].content.certKey == disk[Privkey].content.pairKey
  {
    if pulls != [] {
      var before, p := AfterPulls(r, pulls[..|pulls| - 1]), pulls[|pulls| - 1];
      ReloadsSeeMatchingPairs(r, pulls[..|pulls| - 1]);
      InstalledAt(before.disk, p.got, p.now, 4, Fullchain);
      InstalledAt(before.disk, p.got, p.now, 4, Privkey);
      assert LINEAGE[..4] == LINEAGE && Fullchain in LINEAGE && Privkey in LINEAGE by {
        assert LINEAGE[2] == Fullchain && LINEAGE[3] == Privkey;
      }
    }
  }

  // ---------- convergence ----------

  /** A finished, matching publication whose digests are those of its contents. */
  predicate Published(b: Bucket) {
    && Fullchain in b && Privkey in b
    && b[Fullchain].created > 0 && b[Fullchain].sha == Some(b[Fullchain].content)
    && PairMatches(b[Fullchain].content, b[Privkey].content)
  }

  function Contents(b: Bucket): map<Name, Blob> {
    map n | n in b :: b[n].content
  }

  /** A pull that finds the bucket unchanged throughout. */
  function StablePull(b: Bucket, now: int, died: nat, nginxOk: bool): PullRun
    requires Fullchain in b
  {
    PullRun(Some(b[Fullchain]), Contents(b), now, died, nginxOk)
  }

  predicate Holds(disk: Disk, b: Bucket, n: Name) {
    n in b ==> n in disk && disk[n].content == b[n].content
  }

  predicate HoldsAll(disk: Disk, b: Bucket) {
    Holds(disk, b, Cert) && Holds(disk, b, Chain) && Holds(disk, b, Fullchain) && Holds(disk, b, Privkey)
  }

  lemma InstallAllHolds(disk: Disk, b: Bucket, now: int)
    ensures HoldsAll(InstallFirst(disk, Contents(b), now, 4), b)
  {
    forall n: Name ensures Holds(InstallFirst(disk, Contents(b), now, 4), b, n) {
      InstalledAt(disk, Contents(b), now, 4, n);
      InLineage(n);
    }
  }

  lemma InLineage(n: Name)
    ensures n in LINEAGE[..4]
  {
    assert LINEAGE[..4] == LINEAGE;
    assert LINEAGE[0] == Cert && LINEAGE[1] == Chain && LINEAGE[2] == Fullchain && LINEAGE[3] == Privkey;
  }

  /**
   Against a stable publication, an undisturbed pull leaves every published file
   installed exactly when they all were, or the pair on disk does not match, or its full
   chain is another and older one.
   */
  lemma PullInstallsExactlyWhen(r: Replica, b: Bucket, now: int, nginxOk: bool)
    requires Published(b)
    ensures var after := AfterPull(r, StablePull(b, now, 5, nginxOk)).disk;
            var paired := && Fullchain in r.disk && Privkey in r.disk
                          && r.disk[Fullchain].content.certKey.Some?
                          && r.disk[Fullchain].content.certKey == r.disk[Privkey].content.pairKey;
            (forall n :: n in b ==> n in after && after[n].content == b[n].content) <==>
            || (forall n :: n in b ==> n in r.disk && r.disk[n].content == b[n].content)
            || !paired
            || (r.disk[Fullchain].content != b[Fullchain].content && r.disk[Fullchain].mtime < b[Fullchain].created)
  {
    InstallAllHolds(r.disk, b, now);
    HoldsEach(r.disk, b);
    HoldsEach(AfterPull(r, StablePull(b, now, 5, nginxOk)).disk, b);
    hide InstallFirst;
  }

  lemma HoldsEach(disk: Disk, b: Bucket)
    ensures HoldsAll(disk, b) <==> forall n :: n in b ==> n in disk && disk[n].content == b[n].content
  {
    forall n | n in b && HoldsAll(disk, b) ensures n in disk && disk[n].content == b[n].content {
      match n
      case Cert => assert Holds(disk, b, Cert);
      case Chain => assert Holds(disk, b, Chain);
      case Fullchain => assert Holds(disk, b, Fullchain);
      case Privkey => assert Holds(disk, b, Privkey);
    }
  }

  /**
   The states a replica can be in after pulls of this publication that died anywhere:
   its full chain is still another, older one; or only the key may still be missing.
   */
  predicate OnTheWay(disk: Disk, b: Bucket) {
    if Fullchain in disk && Fullchain in b && disk[Fullchain].content == b[Fullchain].content
    then Holds(disk, b, Cert) && Holds(disk, b, Chain)
    else Fullchain in b && Mtime(disk, Fullchain) < b[Fullchain].created
  }

  lemma DyingPullStaysOnTheWay(r: Replica, b: Bucket, now: int, died: nat, nginxOk: bool)
    requires Published(b) && OnTheWay(r.disk, b)
    ensures OnTheWay(AfterPull(r, StablePull(b, now, died, nginxOk)).disk, b)
  {
    var n := if died <= 4 then died else 4;
    var after := InstallFirst(r.disk, Contents(b), now, n);
    InstalledAt(r.disk, Contents(b), now, n, Fullchain);
    InstalledAt(r.disk, Contents(b), now, n, Cert);
    InstalledAt(r.disk, Contents(b), now, n, Chain);
    PrefixOrder(n);
    assert OnTheWay(after, b);
  }

  lemma PrefixOrder(n: nat)
    requires n <= 4
    ensures Fullchain in LINEAGE[..n] ==> Cert in LINEAGE[..n] && Chain in LINEAGE[..n]
  {
    assert forall i :: 0 <= i < n ==> LINEAGE[..n][i] == LINEAGE[i];
    if n >= 3 {
      assert LINEAGE[..n][0] == Cert && LINEAGE[..n][1] == Chain;
    }
  }

  /** A key file that serves the certificate is the published key, whatever its encoding. */
  predicate Serves(disk: Disk, b: Bucket) {
    && Holds(disk, b, Cert) && Holds(disk, b, Chain) && Holds(disk, b, Fullchain)
    && Fullchain in b && Privkey in disk && PairMatches(b[Fullchain].content, disk[Privkey].content)
  }

  function DyingPulls(r: Replica, b: Bucket, deaths: seq<(int, nat)>): Replica
    requires Fullchain in b
  {
    if deaths == [] then r
    else
      var d := deaths[|deaths| - 1];
      AfterPull(DyingPulls(r, b, deaths[..|deaths| - 1]), StablePull(b, d.0, d.1, true))
  }

  lemma {:induction false} DyingPullsStayOnTheWay(r: Replica, b: Bucket, deaths: seq<(int, nat)>)
    requires Published(b) && OnTheWay(r.disk, b)
    ensures OnTheWay(DyingPulls(r, b, deaths).disk, b)
  {
    if deaths != [] {
      var d := deaths[|deaths| - 1];
      DyingPullsStayOnTheWay(r, b, deaths[..|deaths| - 1]);
      DyingPullStaysOnTheWay(DyingPulls(r, b, deaths[..|deaths| - 1]), b, d.0, d.1, true);
    }
  }

  /**
   However often pulls of a publication died part-way, one undisturbed pull leaves the
   replica serving it: certificate, chain and full chain in place and the key matching. The
   published key file itself is there exactly unless another that matches already was.
   */
  lemma PullRepairsAnyCrash(r: Replica, b: Bucket, deaths: seq<(int, nat)>, now: int, nginxOk: bool)
    requires Published(b) && OnTheWay(r.disk, b)
    ensures var crashed := DyingPulls(r, b, deaths);
            var after := AfterPull(crashed, StablePull(b, now, 5, nginxOk)).disk;
            && Serves(after, b)
            && (HoldsAll(after, b) <==> Holds(crashed.disk, b, Privkey) || !IsCurrent(crashed.disk, b[Fullchain].sha))
  {
    var crashed := DyingPulls(r, b, deaths);
    DyingPullsStayOnTheWay(r, b, deaths);
    InstallAllHolds(crashed.disk, b, now);
    assert Installable(Contents(b));
  }

  // ---------- where it does not converge ----------

  function StablePulls(r: Replica, b: Bucket, times: seq<int>): Replica
    requires Fullchain in b
  {
    if times == [] then r
    else AfterPull(StablePulls(r, b, times[..|times| - 1]), StablePull(b, times[|times| - 1], 5, true))
  }

  lemma {:induction false} CurrentNeverChanges(r: Replica, b: Bucket, times: seq<int>)
    requires Fullchain in b && IsCurrent(r.disk, b[Fullchain].sha)
    ensures StablePulls(r, b, times) == r
  {
    if times != [] { CurrentNeverChanges(r, b, times[..|times| - 1]); }
  }

  /**
   A pull racing the upload can take the old cert.pem and the new full chain and key.
   The pair matches, so it is installed; from then on the replica looks current and
   no later pull ever replaces cert.pem.
   */
  lemma StaleCertSticks(r: Replica, b: Bucket, stale: Blob, now: int, times: seq<int>)
    requires Published(b) && Cert in b && stale != b[Cert].content && !Skips(r.disk, Some(b[Fullchain]))
    ensures var raced := AfterPull(r, PullRun(Some(b[Fullchain]), Contents(b)[Cert := stale], now, 5, true));
            !Holds(StablePulls(raced, b, times).disk, b, Cert)
  {
    var got := Contents(b)[Cert := stale];
    var raced := AfterPull(r, PullRun(Some(b[Fullchain]), got, now, 5, true));
    forall n: Name ensures n in LINEAGE[..4] { InLineage(n); }
    InstalledAt(r.disk, got, now, 4, Cert);
    InstalledAt(r.disk, got, now, 4, Fullchain);
    InstalledAt(r.disk, got, now, 4, Privkey);
    CurrentNeverChanges(raced, b, times);
  }

  // ---------- publishing ----------

  function Uploaded(local: Disk, name: Name): Object
    requires name in local
  {
    Object(local[name].content, Mtime(local, Fullchain), Some(local[name].content))
  }

  function UploadFirst(b: Bucket, local: Disk, n: nat): Bucket
    requires n <= |LINEAGE|
  {
    if n == 0 then b
    else
      var before := UploadFirst(b, local, n - 1);
      var name := LINEAGE[n - 1];
      if name in local then before[name := Uploaded(local, name)] else before
  }

  predicate PushSkips(b: Bucket, local: Disk) {
    || Mtime(local, Fullchain) == 0
    || (var (created, sha) := RemoteMetadata(if Fullchain in b then Some(b[Fullchain]) else None);
        created >= Mtime(local, Fullchain) &&
        sha == (if Fullchain in local then Some(local[Fullchain].content) else None))
  }

  /** `push`, dying after `died` of the four lineage files. */
  function AfterPush(b: Bucket, local: Disk, died: nat): Bucket {
    if PushSkips(b, local) then b else UploadFirst(b, local, if died <= 4 then died else 4)
  }

  lemma {:induction false} UploadedAt(b: Bucket, local: Disk, n: nat, name: Name)
    requires n <= |LINEAGE|
    ensures name in UploadFirst(b, local, n) <==> name in b || (name in local && name in LINEAGE[..n])
    ensures name in UploadFirst(b, local, n) ==>
              UploadFirst(b, local, n)[name] ==
              if name in local && name in LINEAGE[..n] then Uploaded(local, name) else b[name]
  {
    if n > 0 {
      UploadedAt(b, local, n - 1, name);
      assert LINEAGE[..n] == LINEAGE[..n - 1] + [LINEAGE[n - 1]];
    }
  }

  predicate Carries(b: Bucket, local: Disk) {
    forall n :: n in local ==> n in b && b[n].content == local[n].content
  }

  /**
   An undisturbed push leaves the bucket carrying the local lineage exactly unless it skips a
   bucket that does not.
   */
  lemma PushPublishesExactlyWhen(b: Bucket, local: Disk)
    ensures Carries(AfterPush(b, local, 4), local) <==> Carries(b, local) || !PushSkips(b, local)
    ensures
      !PushSkips(b, local) && Mtime(local, Fullchain) > 0 && PairOnDisk(local) ==> Published(AfterPush(b, local, 4))
  {
    forall n: Name ensures n in LINEAGE[..4] { InLineage(n); }
    forall n: Name
      ensures n in local ==> n in UploadFirst(b, local, 4)
                             && UploadFirst(b, local, 4)[n] == Uploaded(local, n)
    {
      UploadedAt(b, local, 4, n);
    }
  }

  /**
   A full chain newer than the bucket's, or different from it, or from a bucket without one,
   is uploaded with all local files beside it, under its own time and digests; otherwise the
   bucket is left alone.
   */
  lemma PushUploadsExactlyWhen(b: Bucket, local: Disk, name: Name)
    requires Fullchain in local && local[Fullchain].mtime != 0
    ensures var after := AfterPush(b, local, 4);
            var due := || Fullchain !in b || b[Fullchain].created < local[Fullchain].mtime
                       || b[Fullchain].sha != Some(local[Fullchain].content);
            if due && name in local
            then && name in after
                 && after[name] == Object(local[name].content, local[Fullchain].mtime, Some(local[name].content))
            else (name in after <==> name in b) && (name in b ==> after[name] == b[name])
  {
    UploadedAt(b, local, 4, name);
    InLineage(name);
  }

  /**
   A push that dies between full chain and key is never repaired, because later pushes
   look at the full chain only; meanwhile no replica installs the mismatched pair.
   */
  lemma HalfUploadIsStuckButHarmless(b: Bucket, local: Disk, r: Replica, now: int, died: nat, nginxOk: bool)
    requires !PushSkips(b, local) && Fullchain in local && Privkey in local
    requires Privkey in b && !PairMatches(local[Fullchain].content, b[Privkey].content)
    ensures var half := AfterPush(b, local, 3);
            && Fullchain in half && Privkey in half
            && half[Fullchain].content == local[Fullchain].content && half[Privkey] == b[Privkey]
            && (forall again :: AfterPush(half, local, again) == half)
            && AfterPull(r, StablePull(half, now, died, nginxOk)) == r
  {
    UploadedAt(b, local, 3, Fullchain);
    UploadedAt(b, local, 3, Privkey);
    assert LINEAGE[..3] == [Cert, Chain, Fullchain];
    assert [Cert, Chain, Fullchain][2] == Fullchain;
  }

  // ---------- the programs ----------

  class ReplicaNode {
    var disk: Disk
    ghost var reloads: seq<Disk>

    ghost function View(): Replica
      reads this
    {
      Replica(disk, reloads)
    }

    constructor (disk: Disk)
      ensures View() == Replica(disk, [])
    {
      this.disk := disk;
      reloads := [];
    }

    /**
     The downloads of `pull`: a missing optional file is skipped, a missing required
     one, and any other error, ends the run.
     */
    method Stage(store: Name -> Answer) returns (staged: Option<map<Name, Blob>>)
      ensures staged == if AnyRaises(store) then None else Some(Answers(store))
    {
      var files: map<Name, Blob> := map[];
      for i := 0 to |LINEAGE|
        invariant files == AnswersUpTo(store, i)
        invariant forall j :: 0 <= j < i ==> !Raises(store, LINEAGE[j])
      {
        var name := LINEAGE[i];
        var found := store(name);
        if found.Failed? || (found.Missing? && Required(name)) {
          RaisesInLineage(store, i);
          return None;
        }
        if found.Found? {
          files := files[name := found.content];
        }
        AnswersStep(store, i);
      }
      assert !AnyRaises(store) by {
        assert LINEAGE[0] == Cert && LINEAGE[1] == Chain && LINEAGE[2] == Fullchain && LINEAGE[3] == Privkey;
      }
      AllAnswers(store);
      return Some(files);
    }

    /** The installs of `pull`, taking each staged file away as it goes; stops when the process dies. */
    method Install(got: map<Name, Blob>, now: int, died: nat) returns (done: bool)
      modifies this
      ensures reloads == old(reloads) && done == (died >= 4)
      ensures disk == InstallFirst(old(disk), got, now, if done then 4 else died)
    {
      var staged := got;
      for i := 0 to |LINEAGE|
        invariant disk == InstallFirst(old(disk), got, now, i) && i <= died
        invariant forall j :: i <= j < |LINEAGE| ==> Staged(staged, LINEAGE[j]) == Staged(got, LINEAGE[j])
        invariant reloads == old(reloads)
      {
        if i == died {
          return false;
        }
        var name := LINEAGE[i];
        assert Staged(staged, name) == Staged(got, name);
        if name in staged {
          var blob := staged[name];
          disk := disk[name := File(blob, now)];
          staged := staged - {name};
        }
        forall j | i < j < |LINEAGE| ensures LINEAGE[j] != name { LineageIsDistinct(i, j); }
      }
      return true;
    }

    /**
     `pull`: `store` answers each download. Returns the exit code, or None when the
     process died or a download raised.
     */
    method Pull(head: Option<Object>, store: Name -> Answer, now: int, died: nat, nginxOk: bool)
        returns (code: Option<int>)
      modifies this
      ensures View() == AfterPull(old(View()), PullRun(head, Answers(store), now, died, nginxOk))
      ensures Skips(old(disk), head) ==> code == Some(0)
      ensures !Skips(old(disk), head) && AnyRaises(store) ==> code == None && disk == old(disk)
      ensures code == None <==>
              && !Skips(old(disk), head)
              && (store(Cert).Failed? || store(Chain).Failed? || !store(Fullchain).Found? || !store(Privkey).Found?
                  || (died < 5 && PairMatches(store(Fullchain).content, store(Privkey).content)))
      ensures !nginxOk || code != Some(0) ==> reloads == old(reloads)
      ensures code == Some(0) && !Skips(old(disk), head) ==> PairOnDisk(disk) && reloads == old(reloads) + [disk]
    {
      hide InstallFirst;
      var (created, sha) := RemoteMetadata(head);
      if created == 0 {
        return Some(0);
      }
      if IsCurrent(disk, sha) {
        return Some(0);
      }
      if created <= Mtime(disk, Fullchain) && PairOnDisk(disk) {
        return Some(0);
      }
      var staged := Stage(store);
      if staged.None? {
        return None;
      }
      if !PairMatches(staged.value[Fullchain], staged.value[Privkey]) {
        return Some(1);
      }
      ghost var was := disk;
      var done := Install(staged.value, now, died);
      if died <= 4 {
        return None;
      }
      InLineage(Fullchain);
      InLineage(Privkey);
      InstalledAt(was, staged.value, now, 4, Fullchain);
      InstalledAt(was, staged.value, now, 4, Privkey);
      if nginxOk {
        reloads := reloads + [disk];
      }
      return Some(if nginxOk then 0 else 1);
    }
  }

  /** What a download comes to; `Failed` is any error but a missing object. */
  datatype Answer = Found(content: Blob) | Missing | Failed

  predicate Raises(store: Name -> Answer, n: Name) {
    store(n).Failed? || (store(n).Missing? && Required(n))
  }

  predicate AnyRaises(store: Name -> Answer) {
    Raises(store, Cert) || Raises(store, Chain) || Raises(store, Fullchain) || Raises(store, Privkey)
  }

  /** The files a run of downloads ends with: none if one raised. */
  function Answers(store: Name -> Answer): map<Name, Blob> {
    if AnyRaises(store) then map[]
    else map n: Name | n in {Cert, Chain, Fullchain, Privkey} && store(n).Found? :: store(n).content
  }

  function AnswersUpTo(store: Name -> Answer, n: nat): map<Name, Blob>
    requires n <= |LINEAGE|
  {
    map name | name in LINEAGE[..n] && store(name).Found? :: store(name).content
  }

  lemma AnswersStep(store: Name -> Answer, i: nat)
    requires i < |LINEAGE|
    ensures AnswersUpTo(store, i + 1) ==
            if store(LINEAGE[i]).Found? then AnswersUpTo(store, i)[LINEAGE[i] := store(LINEAGE[i]).content]
            else AnswersUpTo(store, i)
  {
    assert LINEAGE[..i + 1] == LINEAGE[..i] + [LINEAGE[i]];
  }

  lemma RaisesInLineage(store: Name -> Answer, i: nat)
    requires i < |LINEAGE| && Raises(store, LINEAGE[i])
    ensures AnyRaises(store)
  {}

  lemma AllAnswers(store: Name -> Answer)
    requires !AnyRaises(store)
    ensures AnswersUpTo(store, 4) == Answers(store)
  {
    forall n: Name ensures n in LINEAGE[..4] { InLineage(n); }
  }

  function Staged(staged: map<Name, Blob>, n: Name): Option<Blob> {
    if n in staged then Some(staged[n]) else None
  }

  lemma LineageIsDistinct(i: nat, j: nat)
    requires i < j < |LINEAGE|
    ensures LINEAGE[i] != LINEAGE[j]
  {}

  class PrimaryNode {
    var bucket: Bucket

    constructor (bucket: Bucket)
      ensures this.bucket == bucket
    {
      this.bucket := bucket;
    }

    /** `push` */
    method Push(local: Disk, died: nat) returns (code: Option<int>)
      modifies this
      ensures bucket == AfterPush(old(bucket), local, died)
      ensures code == None <==> !PushSkips(old(bucket), local) && died < 4
    {
      var localMtime := Mtime(local, Fullchain);
      if localMtime == 0 {
        return Some(0);
      }
      var (created, sha) := RemoteMetadata(if Fullchain in bucket then Some(bucket[Fullchain]) else None);
      var localSha := if Fullchain in local then Some(local[Fullchain].content) else None;
      if created >= localMtime && sha == localSha {
        return Some(0);
      }
      ghost var was := bucket;
      for i := 0 to |LINEAGE|
        invariant bucket == UploadFirst(was, local, i) && i <= died
      {
        if i == died {
          return None;
        }
        var name := LINEAGE[i];
        if name in local {
          bucket := bucket[name := Object(local[name].content, localMtime, Some(local[name].content))];
        }
      }
      return Some(0);
    }
  }
}
