/** What the stores hold over whole runs: every installed package is what an artifact
    published under its recorded digest unpacks to (cmd/binman/install.go). */
module Contents {
  import opened Options
  import opened Lexical
  import opened FileTree
  import opened Extract
  import Collect
  import opened Aggregate
  import opened Prefix
  import opened Install
  import opened Lifecycle
  import opened Plan
  import opened Commands
  import opened ManifestPlan
  import opened Manifest
  import opened StoreContents
  import Outcomes

  /** Unpacking the entries into some empty directory gives this tree, record aside. */
  ghost predicate UnpackedFrom(limit: nat, fs: FS, store: Path, entries: seq<Entry>) {
    exists empty, dir :: UnpacksTo(limit, empty, dir, entries, fs, store)
  }

  ghost predicate UnpacksTo(limit: nat, empty: FS, dir: Path, entries: seq<Entry>, fs: FS, store: Path) {
    && WF(empty) && RealDir(empty, dir) && Childless(empty, dir)
    && ExtractAll(limit, empty, dir, entries).ok
    && SameTree(ExtractAll(limit, empty, dir, entries).fs, dir, fs, store)
  }

  ghost predicate IsArtifact(limit: nat, fs: FS, store: Path, digest: string, a: Artifact) {
    a.digest == digest && UnpackedFrom(limit, fs, store, a.entries)
  }

  /** If n is installed, its store is what an artifact with the recorded digest unpacks to. */
  ghost predicate Genuine(limit: nat, fs: FS, prefix: Path, published: set<Artifact>, n: string) {
    Installed(fs, prefix, n) ==>
      exists a :: a in published && IsArtifact(limit, fs, StorePath(prefix, n), PlainMeta(fs, prefix, n).value.digest, a)
  }

  ghost predicate AllGenuine(limit: nat, fs: FS, prefix: Path, published: set<Artifact>) {
    forall n :: Genuine(limit, fs, prefix, published, n)
  }

  // ----- frames -----

  lemma TreeThen(x: FS, a: Path, y: FS, b: Path, z: FS, c: Path)
    requires SameTree(x, a, y, b) && SameTree(y, b, z, c)
    ensures SameTree(x, a, z, c)
  {}

  lemma UnderIsTree(fs: FS, fs': FS, d: Path)
    requires SameUnder(fs, fs', d)
    ensures SameTree(fs, d, fs', d)
  {
    forall r: Path | r != [Collect.META_FILE]
      ensures d + r in fs' <==> d + r in fs
      ensures d + r in fs' ==> fs'[d + r] == fs[d + r]
    {
      assert SameAt(fs, fs', d + r);
    }
  }

  /** A package whose store and digest stay is as genuine as before. */
  lemma GenuineStays(limit: nat, fs: FS, fs': FS, prefix: Path, published: set<Artifact>, n: string)
    requires Genuine(limit, fs, prefix, published, n) && SameTree(fs, StorePath(prefix, n), fs', StorePath(prefix, n))
    requires Installed(fs', prefix, n) ==>
      Installed(fs, prefix, n) && PlainMeta(fs', prefix, n).value.digest == PlainMeta(fs, prefix, n).value.digest
    ensures Genuine(limit, fs', prefix, published, n)
  {
    if Installed(fs', prefix, n) {
      var store := StorePath(prefix, n);
      var a :| a in published && IsArtifact(limit, fs, store, PlainMeta(fs, prefix, n).value.digest, a);
      var empty, dir :| UnpacksTo(limit, empty, dir, a.entries, fs, store);
      TreeThen(ExtractAll(limit, empty, dir, a.entries).fs, dir, fs, store, fs', store);
      assert UnpacksTo(limit, empty, dir, a.entries, fs', store);
      assert IsArtifact(limit, fs', store, PlainMeta(fs', prefix, n).value.digest, a);
    }
  }

  lemma GenuineUntouched(limit: nat, fs: FS, fs': FS, prefix: Path, published: set<Artifact>, n: string)
    requires Genuine(limit, fs, prefix, published, n) && SameUnder(fs, fs', StorePath(prefix, n))
    ensures Genuine(limit, fs', prefix, published, n)
  {
    assert StorePath(prefix, n) <= MetaPath(prefix, n);
    assert SameAt(fs, fs', MetaPath(prefix, n));
    UnderIsTree(fs, fs', StorePath(prefix, n));
    GenuineStays(limit, fs, fs', prefix, published, n);
  }

  // ----- one job -----

  lemma FetchedGenuine(limit: nat, fs: FS, prefix: Path, job: Job, suffix: string, published: set<Artifact>)
    requires Ready(fs, prefix) && Installable(prefix, job, suffix) && job.fetch && job.artifact in published
    requires CommitJob(limit, fs, prefix, job, suffix).ok
    requires PlainMeta(CommitJob(limit, fs, prefix, job, suffix).fs, prefix, job.name) == Some(JobMeta(job))
    ensures Genuine(limit, CommitJob(limit, fs, prefix, job, suffix).fs, prefix, published, job.name)
  {
    var fs' := CommitJob(limit, fs, prefix, job, suffix).fs;
    var stage := StagePath(prefix, job.name, suffix);
    FetchedStore(limit, fs, prefix, job, suffix);
    WithStageEffect(fs, prefix, job.name, suffix);
    assert UnpacksTo(limit, WithStage(fs, prefix, stage), stage, job.artifact.entries, fs', StorePath(prefix, job.name));
    assert IsArtifact(limit, fs', StorePath(prefix, job.name), job.artifact.digest, job.artifact);
  }

  lemma OwnGenuine(limit: nat, fs: FS, prefix: Path, job: Job, suffix: string, published: set<Artifact>)
    requires Inv(limit, fs, prefix) && JobReady(limit, fs, prefix, job, suffix) && job.artifact in published
    requires Genuine(limit, fs, prefix, published, job.name) && CommitJob(limit, fs, prefix, job, suffix).ok
    requires PlainMeta(CommitJob(limit, fs, prefix, job, suffix).fs, prefix, job.name) == Some(JobMeta(job))
    ensures Genuine(limit, CommitJob(limit, fs, prefix, job, suffix).fs, prefix, published, job.name)
  {
    if job.fetch {
      FetchedGenuine(limit, fs, prefix, job, suffix, published);
    } else {
      RelinkKeepsStore(limit, fs, prefix, job, suffix);
      GenuineStays(limit, fs, CommitJob(limit, fs, prefix, job, suffix).fs, prefix, published, job.name);
    }
  }

  lemma OtherStoreSame(fs: FS, fs': FS, prefix: Path, name: string, n: string)
    requires OnlyStore(fs, fs', prefix, name) && n != name
    ensures SameUnder(fs, fs', StorePath(prefix, n))
  {
    var d := StorePath(prefix, n);
    forall p | d <= p ensures SameAt(fs, fs', p) {
      assert p[|prefix|] == "store" && p[|prefix| + 1] == d[|prefix| + 1] == n;
      assert StorePath(prefix, name)[|prefix| + 1] == name && |p| > |prefix + ["store"]|;
    }
  }

  lemma JobGenuine(limit: nat, fs: FS, prefix: Path, job: Job, suffix: string, published: set<Artifact>)
    requires Inv(limit, fs, prefix) && JobReady(limit, fs, prefix, job, suffix) && job.artifact in published
    requires AllGenuine(limit, fs, prefix, published) && CommitJob(limit, fs, prefix, job, suffix).ok
    requires JobDone(limit, fs, CommitJob(limit, fs, prefix, job, suffix).fs, prefix, job)
    ensures AllGenuine(limit, CommitJob(limit, fs, prefix, job, suffix).fs, prefix, published)
  {
    var fs' := CommitJob(limit, fs, prefix, job, suffix).fs;
    forall n ensures Genuine(limit, fs', prefix, published, n) {
      if n == job.name {
        OwnGenuine(limit, fs, prefix, job, suffix, published);
      } else {
        OtherStoreSame(fs, fs', prefix, job.name, n);
        GenuineUntouched(limit, fs, fs', prefix, published, n);
      }
    }
  }

  // ----- plans -----

  predicate AllPublishedIn(jobs: seq<Job>, published: set<Artifact>) {
    forall i :: 0 <= i < |jobs| ==> jobs[i].artifact in published
  }

  /** In a state that is good for its turn, job i leaves one good for the next, if it succeeds. */
  ghost predicate Leaves(limit: nat, prefix: Path, jobs: seq<Job>, i: nat, suffix: string, good: (nat, FS) -> bool, x: FS)
    requires AllInstallable(prefix, jobs, suffix) && i < |jobs|
  {
    Ready(x, prefix) && good(i, x) ==>
      var s := CommitJob(limit, x, prefix, jobs[i], suffix); s.ok ==> good(i + 1, s.fs)
  }

  lemma {:induction false} LoopLeaves(limit: nat, fs: FS, prefix: Path, jobs: seq<Job>, k: nat, suffix: string, good: (nat, FS) -> bool)
    requires AllInstallable(prefix, jobs, suffix) && k <= |jobs| && Ready(fs, prefix) && good(k, fs)
    requires forall i: nat, x :: i < |jobs| ==> Leaves(limit, prefix, jobs, i, suffix, good, x)
    requires CommitFrom(limit, fs, prefix, jobs, k, suffix).ok
    ensures good(|jobs|, CommitFrom(limit, fs, prefix, jobs, k, suffix).fs)
    decreases |jobs| - k
  {
    if k < |jobs| {
      assert Leaves(limit, prefix, jobs, k, suffix, good, fs);
      CommitJobReady(limit, fs, prefix, jobs[k], suffix);
      LoopLeaves(limit, CommitJob(limit, fs, prefix, jobs[k], suffix).fs, prefix, jobs, k + 1, suffix, good);
    }
  }

  ghost predicate GenuineSoFar(limit: nat, fs: FS, prefix: Path, jobs: seq<Job>, k: nat, suffix: string, published: set<Artifact>) {
    Starts(limit, fs, prefix, jobs, k, suffix) && AllGenuine(limit, fs, prefix, published)
  }

  lemma NextGenuine(limit: nat, fs: FS, prefix: Path, jobs: seq<Job>, k: nat, suffix: string, published: set<Artifact>)
    requires GenuineSoFar(limit, fs, prefix, jobs, k, suffix, published) && k < |jobs| && jobs[k].artifact in published
    requires CommitJob(limit, fs, prefix, jobs[k], suffix).ok
    ensures GenuineSoFar(limit, CommitJob(limit, fs, prefix, jobs[k], suffix).fs, prefix, jobs, k + 1, suffix, published)
  {
    NextStarts(limit, fs, prefix, jobs, k, suffix);
    JobGenuine(limit, fs, prefix, jobs[k], suffix, published);
  }

  lemma CommitGenuine(limit: nat, fs: FS, prefix: Path, jobs: seq<Job>, suffix: string, published: set<Artifact>)
    requires GenuineSoFar(limit, fs, prefix, jobs, 0, suffix, published) && AllPublishedIn(jobs, published)
    requires CommitFrom(limit, fs, prefix, jobs, 0, suffix).ok
    ensures AllGenuine(limit, CommitFrom(limit, fs, prefix, jobs, 0, suffix).fs, prefix, published)
  {
    var good := (i: nat, x: FS) => GenuineSoFar(limit, x, prefix, jobs, i, suffix, published);
    forall i: nat, x: FS | i < |jobs| ensures Leaves(limit, prefix, jobs, i, suffix, good, x) {
      if good(i, x) && Ready(x, prefix) && CommitJob(limit, x, prefix, jobs[i], suffix).ok {
        NextGenuine(limit, x, prefix, jobs, i, suffix, published);
      }
    }
    LoopLeaves(limit, fs, prefix, jobs, 0, suffix, good);
  }

  /** Dropping a store leaves no package of that name and the others as they are. */
  lemma DroppedGenuine(limit: nat, fs: FS, prefix: Path, published: set<Artifact>, n: string)
    requires AllGenuine(limit, fs, prefix, published)
    ensures AllGenuine(limit, RemoveTree(fs, StorePath(prefix, n)), prefix, published)
  {
    var fs' := RemoveTree(fs, StorePath(prefix, n));
    forall m ensures Genuine(limit, fs', prefix, published, m) {
      if m == n {
        assert StorePath(prefix, n) <= MetaPath(prefix, n);
      } else {
        forall p | StorePath(prefix, m) <= p ensures SameAt(fs, fs', p) {
          assert p[|prefix| + 1] == StorePath(prefix, m)[|prefix| + 1] == m && StorePath(prefix, n)[|prefix| + 1] == n;
        }
        GenuineUntouched(limit, fs, fs', prefix, published, m);
      }
    }
  }

  lemma {:induction false} PrepareGenuine(limit: nat, fs: FS, prefix: Path, ts: seq<Target>, reg: Registry, force: bool, published: set<Artifact>)
    requires AllPublished(ts, reg) && AllGenuine(limit, fs, prefix, published)
    requires Prepare(limit, fs, prefix, ts, reg, force).ok
    ensures AllGenuine(limit, Prepare(limit, fs, prefix, ts, reg, force).fs, prefix, published)
    decreases |ts|
  {
    if ts != [] {
      DroppedGenuine(limit, fs, prefix, published, ts[0].name);
      PrepareGenuine(limit, PrepareOne(limit, fs, prefix, ts[0].name).fs, prefix, ts[1..], reg, force, published);
    }
  }

  lemma PlanGenuine(limit: nat, fs: FS, prefix: Path, targets: seq<Target>, arch: string, force: bool,
                    reg: Registry, suffix: string, published: set<Artifact>)
    requires Inv(limit, fs, prefix) && TameRegistry(prefix, reg, suffix) && DistinctTargets(targets)
    requires AllGenuine(limit, fs, prefix, published) && reg.Values <= published
    requires InstallPlan(limit, fs, prefix, targets, arch, force, reg, suffix).ok
    ensures AllGenuine(limit, InstallPlan(limit, fs, prefix, targets, arch, force, reg, suffix).fs, prefix, published)
  {
    Outcomes.PlanStarts(limit, fs, prefix, targets, arch, force, reg, suffix);
    var ts := ResolveTargets(targets, arch).value;
    var p := Prepare(limit, fs, prefix, ts, reg, force);
    PrepareGenuine(limit, fs, prefix, ts, reg, force, published);
    forall i | 0 <= i < |p.jobs| ensures p.jobs[i].artifact in published {
      assert reg[(ts[i].name, ts[i].arch)] in reg.Values;
    }
    CommitGenuine(limit, p.fs, prefix, p.jobs, suffix, published);
  }

  // ----- the other commands -----

  lemma ProfileOnlyGenuine(limit: nat, fs: FS, fs': FS, prefix: Path, published: set<Artifact>)
    requires AllGenuine(limit, fs, prefix, published) && ProfileOnly(fs, fs', prefix)
    ensures AllGenuine(limit, fs', prefix, published)
  {
    forall n ensures Genuine(limit, fs', prefix, published, n) {
      ProfileOnlySameStore(fs, fs', prefix, n);
      GenuineUntouched(limit, fs, fs', prefix, published, n);
    }
  }

  lemma RootOnlyGenuine(limit: nat, fs: FS, fs': FS, prefix: Path, published: set<Artifact>)
    requires AllGenuine(limit, fs, prefix, published) && RootOnly(fs, fs', prefix)
    ensures AllGenuine(limit, fs', prefix, published)
  {
    forall n ensures Genuine(limit, fs', prefix, published, n) {
      RootOnlySameStore(fs, fs', prefix, n);
      GenuineUntouched(limit, fs, fs', prefix, published, n);
    }
  }

  lemma RemoveGenuine(limit: nat, fs: FS, prefix: Path, n: string, published: set<Artifact>)
    requires Inv(limit, fs, prefix) && AllGenuine(limit, fs, prefix, published) && Remove(limit, fs, prefix, n).ok
    ensures AllGenuine(limit, Remove(limit, fs, prefix, n).fs, prefix, published)
  {
    var fs1, fs2, profiles := Outcomes.RemovePhases(limit, fs, prefix, n);
    RootOnlyGenuine(limit, fs, fs1, prefix, published);
    UnlinkProfilesKeeps(limit, fs1, prefix, n, profiles);
    ProfileOnlyGenuine(limit, fs1, fs2, prefix, published);
    DroppedGenuine(limit, fs2, prefix, published, n);
  }

  lemma {:induction false} PruneGenuine(limit: nat, fs: FS, prefix: Path, installed: seq<string>, wanted: set<string>, published: set<Artifact>)
    requires Inv(limit, fs, prefix) && AllGenuine(limit, fs, prefix, published)
    requires PruneAll(limit, fs, prefix, installed, wanted).ok
    ensures AllGenuine(limit, PruneAll(limit, fs, prefix, installed, wanted).fs, prefix, published)
    decreases |installed|
  {
    if installed != [] {
      if installed[0] in wanted {
        PruneGenuine(limit, fs, prefix, installed[1..], wanted, published);
      } else {
        RemoveKeeps(limit, fs, prefix, installed[0]);
        RemoveGenuine(limit, fs, prefix, installed[0], published);
        PruneGenuine(limit, Remove(limit, fs, prefix, installed[0]).fs, prefix, installed[1..], wanted, published);
      }
    }
  }

  lemma SyncGenuine(limit: nat, fs: FS, prefix: Path, config: Config, arch: string, archSet: bool, force: bool, prune: bool,
                    reg: Registry, suffix: string, published: set<Artifact>)
    requires Inv(limit, fs, prefix) && TameRegistry(prefix, reg, suffix)
    requires AllGenuine(limit, fs, prefix, published) && reg.Values <= published
    requires Sync(limit, fs, prefix, config, arch, archSet, force, prune, reg, suffix).ok
    ensures AllGenuine(limit, Sync(limit, fs, prefix, config, arch, archSet, force, prune, reg, suffix).fs, prefix, published)
  {
    var plan, a := PlanOf(config), SyncArch(config, arch, archSet);
    PlanGenuine(limit, fs, prefix, plan, a, force, reg, suffix, published);
    InstallPlanKeeps(limit, fs, prefix, plan, a, force, reg, suffix);
    var s1 := InstallPlan(limit, fs, prefix, plan, a, force, reg, suffix);
    RebuildKeeps(limit, s1.fs, prefix, config);
    var s2 := RebuildProfiles(limit, s1.fs, prefix, config);
    ProfileOnlyGenuine(limit, s1.fs, s2.fs, prefix, published);
    if prune {
      PruneGenuine(limit, s2.fs, prefix, InstalledNames(limit, s2.fs, prefix).value, PlanNames(config), published);
    }
  }

  // ----- runs of commands -----

  /** The registry a command sees publishes only known artifacts. */
  predicate Publishes(c: Command, published: set<Artifact>) {
    c.RemoveCmd? || c.reg.Values <= published
  }

  lemma CommandGenuine(limit: nat, fs: FS, prefix: Path, c: Command, published: set<Artifact>)
    requires Inv(limit, fs, prefix) && TameCommand(prefix, c) && Execute(limit, fs, prefix, c).ok
    requires AllGenuine(limit, fs, prefix, published) && Publishes(c, published)
    ensures AllGenuine(limit, Execute(limit, fs, prefix, c).fs, prefix, published)
  {
    match c {
      case InstallCmd(names, arch, linked, force, reg, suffix) =>
        PlanGenuine(limit, fs, prefix, InstallTargets(names, arch, linked, {}), arch, force, reg, suffix, published);
      case UpgradeCmd(arch, names, reg, suffix) =>
        var all := if names == [] then InstalledNames(limit, fs, prefix).value else names;
        if all != [] {
          PlanGenuine(limit, fs, prefix, UpgradeTargets(limit, fs, prefix, arch, all, {}).value, arch, false, reg, suffix, published);
        }
      case RemoveCmd(name) => RemoveGenuine(limit, fs, prefix, name, published);
      case SyncCmd(config, arch, archSet, force, prune, reg, suffix) =>
        SyncGenuine(limit, fs, prefix, config, arch, archSet, force, prune, reg, suffix, published);
    }
  }

  lemma {:induction false} RunGenuine(limit: nat, fs: FS, prefix: Path, cs: seq<Command>, fs': FS, published: set<Artifact>)
    requires Inv(limit, fs, prefix) && AllGenuine(limit, fs, prefix, published) && Runs(limit, fs, prefix, cs, fs')
    requires forall i :: 0 <= i < |cs| ==> Publishes(cs[i], published)
    ensures AllGenuine(limit, fs', prefix, published)
    decreases |cs|
  {
    if cs != [] {
      CommandKeeps(limit, fs, prefix, cs[0]);
      CommandGenuine(limit, fs, prefix, cs[0], published);
      RunGenuine(limit, Execute(limit, fs, prefix, cs[0]).fs, prefix, cs[1..], fs', published);
    }
  }

  /** From an empty prefix, after any run of successful commands, every installed package's
      store holds exactly what an artifact published under its recorded digest unpacks
      to, whatever was fetched, skipped, relinked, replaced or removed on the way. */
  lemma EveryStoreIsGenuine(limit: nat, fs: FS, prefix: Path, cs: seq<Command>, fs': FS, published: set<Artifact>, n: string)
    requires WF(fs) && RealDir(fs, prefix) && Childless(fs, prefix) && Runs(limit, fs, prefix, cs, fs')
    requires forall i :: 0 <= i < |cs| ==> Publishes(cs[i], published)
    requires Installed(fs', prefix, n)
    ensures exists a :: a in published && IsArtifact(limit, fs', StorePath(prefix, n), PlainMeta(fs', prefix, n).value.digest, a)
  {
    EmptyPrefix(limit, fs, prefix);
    forall m ensures Genuine(limit, fs, prefix, published, m) { assert prefix < MetaPath(prefix, m); }
    RunGenuine(limit, fs, prefix, cs, fs', published);
    assert Genuine(limit, fs', prefix, published, n);
  }
}
