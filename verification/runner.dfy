/** The `run` command of `cmd/main.go`: a loop that fingerprints the spec
    files, syncs when the fingerprint moved or the forced-resync deadline
    passed, and records a watermark only after a sync that succeeded; and the
    allow-list policy `runImport` applies to imported groups. Clock readings,
    the glob, the file contents and the parsed specs of each pass are inputs
    (`Tick`); time is whole seconds. */
module Runner {
  import opened Wrappers
  import opened GroupSpecs
  import opened Directory
  import opened Syncer
  import opened Fingerprint

  /** `-10 * time.Minute`: the first deadline lies this far before the start. */
  const InitialLead: int := 600
  /** Default `--forced-sync-period`: four hours. */
  const DefaultForcedResyncPeriod: int := 14400
  /** Default `--sync-period`: thirty seconds between passes. */
  const DefaultSyncPeriod: int := 30

  datatype Options = Options(continuous: bool, syncPeriod: int, forcedResyncPeriod: int)

  /** `lastHash` (a Go string of the digest bytes, empty at first) and
      `nextResyncTime`. */
  datatype Watermark = Watermark(lastHash: seq<byte>, nextResyncTime: int)

  function Initial(start: int): (w: Watermark)
    ensures w.lastHash == [] && w.nextResyncTime < start
  {
    Watermark([], start - InitialLead)
  }

  /** What one pass observes: the glob's result, the files' contents, the
      specs `ReadGroups` parses, the clock at the check and the clock once the
      sync returns. */
  datatype Tick = Tick(glob: Result<seq<string>, string>, fs: FileSystem, specs: seq<GroupSpec>, now: int, syncedAt: int)

  /** A sync is due when the fingerprint differs from the last one recorded,
      or the clock is strictly after the deadline. */
  predicate SyncNeeded(w: Watermark, newHash: seq<byte>, now: int)
  {
    newHash != w.lastHash || now > w.nextResyncTime
  }

  /** `runSync`: no specs counts as success with no calls; otherwise `Sync`. */
  function RunSync(clients: Clients, specs: seq<GroupSpec>, dir: Directory, faults: Faults): (r: Step)
    ensures |specs| == 0 ==> r == Step(None, dir, [])
    ensures r.err.Some? <==> |specs| > 0 && (clients.adminErr.Some? || clients.settingsErr.Some?)
    ensures r.err.Some? ==> r.dir == dir && r.calls == []
  {
    if |specs| == 0 then Step(None, dir, []) else Sync(clients, specs, dir, faults)
  }

  /** The state one pass of the loop leaves: whether the loop returns, the
      watermark, the remote directory and whether a sync was attempted. */
  datatype Pass = Pass(stopped: bool, mark: Watermark, dir: Directory, synced: bool)

  /** One pass of the loop body. */
  function RunPass(opts: Options, w: Watermark, t: Tick, clients: Clients, dir: Directory,
                   faults: Faults, sha: Sha256): (p: Pass)
    ensures t.glob.Err? ==> p == Pass(true, w, dir, false)
    ensures t.glob.Ok? && ContentHash(t.fs, t.glob.value, sha).failed.Some? ==> p == Pass(true, w, dir, false)
    ensures t.glob.Ok? && ContentHash(t.fs, t.glob.value, sha).failed.None? ==>
      var newHash := ContentHash(t.fs, t.glob.value, sha).sum;
      && p.stopped == !opts.continuous
      && (p.synced <==> SyncNeeded(w, newHash, t.now))
      && (p.synced && RunSync(clients, t.specs, dir, faults).err.None? ==>
            p.mark == Watermark(newHash, t.syncedAt + opts.forcedResyncPeriod))
      && (!p.synced || RunSync(clients, t.specs, dir, faults).err.Some? ==> p.mark == w)
      && (!p.synced ==> p.dir == dir)
      && (p.synced ==> p.dir == RunSync(clients, t.specs, dir, faults).dir)
  {
    match t.glob
    case Err(_) => Pass(true, w, dir, false)
    case Ok(matches) =>
      var h := ContentHash(t.fs, matches, sha);
      if h.failed.Some? then Pass(true, w, dir, false)
      else if SyncNeeded(w, h.sum, t.now) then
        var s := RunSync(clients, t.specs, dir, faults);
        var w' := if s.err.None? then Watermark(h.sum, t.syncedAt + opts.forcedResyncPeriod) else w;
        Pass(!opts.continuous, w', s.dir, true)
      else Pass(!opts.continuous, w, dir, false)
  }

  /** `m` is the watermark a successful sync in pass `t` records: the pass's
      fingerprint and its deadline. */
  predicate RecordedBy(opts: Options, t: Tick, sha: Sha256, m: Watermark)
  {
    && t.glob.Ok?
    && m == Watermark(ContentHash(t.fs, t.glob.value, sha).sum, t.syncedAt + opts.forcedResyncPeriod)
  }

  /** The state after the loop has consumed some passes. */
  datatype Run = Run(passes: nat, stopped: bool, mark: Watermark, dir: Directory)

  /** The loop fed one `Tick` per pass, until it returns or the ticks run
      out. Each pass starts from the watermark and directory the previous
      one left, so the final watermark is the initial one or one recorded by
      a pass that ran. */
  function RunLoop(opts: Options, w: Watermark, ticks: seq<Tick>, clients: Clients, dir: Directory,
                   faults: Faults, sha: Sha256): (r: Run)
    ensures r.passes <= |ticks|
    ensures r.passes < |ticks| ==> r.stopped
    ensures r.mark == w || exists i :: 0 <= i < r.passes && RecordedBy(opts, ticks[i], sha, r.mark)
    decreases |ticks|
  {
    if |ticks| == 0 then Run(0, false, w, dir)
    else
      var p := RunPass(opts, w, ticks[0], clients, dir, faults, sha);
      assert p.mark == w || RecordedBy(opts, ticks[0], sha, p.mark);
      if p.stopped then Run(1, true, p.mark, p.dir)
      else
        var rest := RunLoop(opts, p.mark, ticks[1..], clients, p.dir, faults, sha);
        assert rest.mark == p.mark || exists i :: 0 <= i < rest.passes + 1 && RecordedBy(opts, ticks[i], sha, rest.mark) by {
          if rest.mark != p.mark {
            var j :| 0 <= j < rest.passes && RecordedBy(opts, ticks[1..][j], sha, rest.mark);
            assert ticks[1..][j] == ticks[j + 1];
          }
        }
        Run(rest.passes + 1, rest.stopped, rest.mark, rest.dir)
  }

  /** `run` from its initial watermark: never more passes than ticks, and
      the watermark it ends with is the initial one or one a pass recorded. */
  function RunFrom(opts: Options, start: int, ticks: seq<Tick>, clients: Clients, dir: Directory,
                   faults: Faults, sha: Sha256): (r: Run)
    ensures r.passes <= |ticks|
    ensures r.passes < |ticks| ==> r.stopped
    ensures r.mark == Initial(start) || exists i :: 0 <= i < r.passes && RecordedBy(opts, ticks[i], sha, r.mark)
  {
    RunLoop(opts, Initial(start), ticks, clients, dir, faults, sha)
  }

  /** Without `--continuous` the loop body runs exactly once. */
  lemma OneShotRunsOnce(opts: Options, start: int, ticks: seq<Tick>, clients: Clients, dir: Directory,
                        faults: Faults, sha: Sha256)
    requires !opts.continuous && |ticks| > 0
    ensures RunFrom(opts, start, ticks, clients, dir, faults, sha).passes == 1
    ensures RunFrom(opts, start, ticks, clients, dir, faults, sha).stopped
  {
    var p := RunPass(opts, Initial(start), ticks[0], clients, dir, faults, sha);
    assert p.stopped;
  }

  /** Two continuous passes over the same files: the first syncs and records
      the fingerprint with its deadline; the second, reached before that
      deadline, finds nothing to do, so the run ends with the first pass's
      watermark and directory. */
  lemma UnchangedSecondPassSkips(opts: Options, start: int, t1: Tick, t2: Tick, dir: Directory,
                                 faults: Faults, sha: Sha256)
    requires opts.continuous
    requires t1.glob.Ok? && ContentHash(t1.fs, t1.glob.value, sha).failed.None?
    requires t2.glob == t1.glob && t2.fs == t1.fs
    requires t2.now <= t1.syncedAt + opts.forcedResyncPeriod
    ensures var clients := Clients(None, None);
      RunFrom(opts, start, [t1, t2], clients, dir, faults, sha) ==
        Run(2, false, Watermark(ContentHash(t1.fs, t1.glob.value, sha).sum, t1.syncedAt + opts.forcedResyncPeriod),
            RunSync(clients, t1.specs, dir, faults).dir)
  {
    var clients := Clients(None, None);
    var ticks := [t1, t2];
    FirstPassSyncs(opts, start, t1, clients, dir, faults, sha);
    var p1 := RunPass(opts, Initial(start), t1, clients, dir, faults, sha);
    GroupFailuresStillAdvance(opts, Initial(start), t1, clients, dir, faults, sha);
    QuietWhileUnchanged(opts, p1.mark, t2, clients, p1.dir, faults, sha);
    var p2 := RunPass(opts, p1.mark, t2, clients, p1.dir, faults, sha);
    assert [t2][1..] == [];
    assert RunLoop(opts, p2.mark, [], clients, p2.dir, faults, sha) == Run(0, false, p1.mark, p1.dir);
    assert ticks[1..] == [t2];
    assert RunLoop(opts, p1.mark, [t2], clients, p1.dir, faults, sha) == Run(1, false, p1.mark, p1.dir);
  }

  /** In continuous mode the loop goes on until the glob or the hash fails:
      it runs every tick when all of them read cleanly. */
  lemma {:induction false} ContinuousRunsAll(opts: Options, w: Watermark, ticks: seq<Tick>, clients: Clients,
                                             dir: Directory, faults: Faults, sha: Sha256)
    requires opts.continuous
    requires forall i :: 0 <= i < |ticks| ==>
      ticks[i].glob.Ok? && ContentHash(ticks[i].fs, ticks[i].glob.value, sha).failed.None?
    ensures RunLoop(opts, w, ticks, clients, dir, faults, sha).passes == |ticks|
    ensures !RunLoop(opts, w, ticks, clients, dir, faults, sha).stopped
    decreases |ticks|
  {
    if |ticks| > 0 {
      var p := RunPass(opts, w, ticks[0], clients, dir, faults, sha);
      ContinuousRunsAll(opts, p.mark, ticks[1..], clients, p.dir, faults, sha);
    }
  }

  /** The first pass always syncs: any digest is 32 bytes, never the empty
      initial hash. */
  lemma FirstPassSyncs(opts: Options, start: int, t: Tick, clients: Clients, dir: Directory,
                       faults: Faults, sha: Sha256)
    requires t.glob.Ok? && ContentHash(t.fs, t.glob.value, sha).failed.None?
    ensures RunPass(opts, Initial(start), t, clients, dir, faults, sha).synced
  {
    assert |ContentHash(t.fs, t.glob.value, sha).sum| == 32;
  }

  /** Unchanged files before the deadline: no sync and no change. */
  lemma QuietWhileUnchanged(opts: Options, w: Watermark, t: Tick, clients: Clients, dir: Directory,
                            faults: Faults, sha: Sha256)
    requires t.glob.Ok? && ContentHash(t.fs, t.glob.value, sha).failed.None?
    requires ContentHash(t.fs, t.glob.value, sha).sum == w.lastHash && t.now <= w.nextResyncTime
    ensures RunPass(opts, w, t, clients, dir, faults, sha) == Pass(!opts.continuous, w, dir, false)
  {
  }

  /** Once both clients exist the sync reports success even when groups fail,
      so any sync that is due advances the watermark, whatever the remote
      calls do. */
  lemma GroupFailuresStillAdvance(opts: Options, w: Watermark, t: Tick, clients: Clients, dir: Directory,
                                  faults: Faults, sha: Sha256)
    requires clients == Clients(None, None)
    requires t.glob.Ok? && ContentHash(t.fs, t.glob.value, sha).failed.None?
    requires SyncNeeded(w, ContentHash(t.fs, t.glob.value, sha).sum, t.now)
    ensures RunPass(opts, w, t, clients, dir, faults, sha).mark ==
      Watermark(ContentHash(t.fs, t.glob.value, sha).sum, t.syncedAt + opts.forcedResyncPeriod)
  {
  }

  /** When no spec matches, a due sync makes no remote call and still
      advances the watermark, whether or not the clients could be built. */
  lemma NoSpecsAdvance(opts: Options, w: Watermark, t: Tick, clients: Clients, dir: Directory,
                       faults: Faults, sha: Sha256)
    requires t.specs == []
    requires t.glob.Ok? && ContentHash(t.fs, t.glob.value, sha).failed.None?
    requires SyncNeeded(w, ContentHash(t.fs, t.glob.value, sha).sum, t.now)
    ensures RunPass(opts, w, t, clients, dir, faults, sha).mark ==
      Watermark(ContentHash(t.fs, t.glob.value, sha).sum, t.syncedAt + opts.forcedResyncPeriod)
    ensures RunPass(opts, w, t, clients, dir, faults, sha).dir == dir
  {
  }

  /** A failed client build leaves the watermark where it was, so the next
      pass tries again. */
  lemma FailedSyncRetries(opts: Options, w: Watermark, t: Tick, clients: Clients, dir: Directory,
                          faults: Faults, sha: Sha256)
    requires clients.adminErr.Some? && |t.specs| > 0
    ensures RunPass(opts, w, t, clients, dir, faults, sha).mark == w
    ensures RunPass(opts, w, t, clients, dir, faults, sha).dir == dir
  {
  }

  /** The groups whose imported members are kept. */
  const ImportAllowList: set<string> := {
    "calendar-admins@kubeflow.org",
    "ci-team@kubeflow.org",
    "ci-viewer@kubeflow.org",
    "code-search-team@kubeflow.org",
    "community-meeting-hosts@kubeflow.org",
    "devrel-team@kubeflow.org",
    "devstats@kubeflow.org",
    "drive-content-managers@kubeflow.org",
    "example-maintainers@kubeflow.org",
    "feast-team@kubeflow.org",
    "github-team@kubeflow.org",
    "google-codelab-projects-owners@kubeflow.org",
    "kf-demo-owners@kubeflow.org",
    "kf-kcc-admins@kubeflow.org",
    "release-team@kubeflow.org"
  }

  /** The policy applied to imported specs: a group off the allow-list loses
      its members and has auto-sync turned off; an allow-listed one is left
      as imported. */
  function StripUnlisted(groups: seq<GroupSpec>): (r: seq<GroupSpec>)
    ensures |r| == |groups|
    ensures forall i :: 0 <= i < |groups| && groups[i].email in ImportAllowList ==> r[i] == groups[i]
    ensures forall i :: 0 <= i < |groups| && groups[i].email !in ImportAllowList ==>
      r[i].members == [] && r[i].autoSync == Some(false) &&
      r[i] == groups[i].(members := r[i].members, autoSync := r[i].autoSync)
  {
    seq(|groups|, i requires 0 <= i < |groups| =>
      if groups[i].email in ImportAllowList then groups[i]
      else groups[i].(members := [], autoSync := Some(false)))
  }

  /** Applying the policy twice is applying it once. */
  lemma StripUnlistedIdempotent(groups: seq<GroupSpec>)
    ensures StripUnlisted(StripUnlisted(groups)) == StripUnlisted(groups)
  {
    var once := StripUnlisted(groups);
    var twice := StripUnlisted(once);
    forall i | 0 <= i < |groups| ensures twice[i] == once[i] {
      assert once[i].email == groups[i].email;
    }
  }

  /** Syncing the imported specs afterwards touches only allow-listed
      groups: every other spec opts out of auto-sync. */
  lemma ImportedSyncTouchesAllowListOnly(groups: seq<GroupSpec>, clients: Clients, dir: Directory, faults: Faults)
    ensures forall c :: c in Sync(clients, StripUnlisted(groups), dir, faults).calls ==> c.group in ImportAllowList
  {
    var specs := StripUnlisted(groups);
    forall c | c in Sync(clients, specs, dir, faults).calls ensures c.group in ImportAllowList {
      var i :| 0 <= i < |specs| && AutoSyncEnabled(specs[i]) && c.group == specs[i].email;
      assert specs[i].email == groups[i].email;
    }
  }
}
