/** A removal, and with it a prune, that a link of another package's profile stands in the
    way of (cmd/binman/install.go, cmd/binman/manifest.go). */
module StuckPrune {
  import opened Options
  import opened Lexical
  import opened FileTree
  import Order
  import Aggregate
  import opened Prefix
  import opened Install
  import opened Lifecycle
  import opened Plan
  import opened Commands
  import opened ManifestPlan
  import opened Manifest
  import Outcomes
  import Settle
  import Converge
  import Fixpoint
  import Profiles
  import Rebuilding
  import opened Sturdy
  import Removal
  import opened Succeeds
  import opened SyncSucceeds
  import PlanOrder
  import opened OneFile
  import opened TwoPackages

  // ----- after any sync -----

  lemma SyncBuilds(limit: nat, fs: FS, prefix: Path, config: Config, arch: string, archSet: bool, force: bool, prune: bool,
                   reg: Registry, suffix: string)
    requires IsSturdy(limit, fs, prefix) && TameRegistry(prefix, reg, suffix)
    requires Sync(limit, fs, prefix, config, arch, archSet, force, prune, reg, suffix).ok
    ensures var fs' := Sync(limit, fs, prefix, config, arch, archSet, force, prune, reg, suffix).fs;
      IsSturdy(limit, fs', prefix) && Built(limit, fs', prefix, config)
  {
    var fs' := Sync(limit, fs, prefix, config, arch, archSet, force, prune, reg, suffix).fs;
    SyncKeepsSturdy(limit, fs, prefix, config, arch, archSet, force, prune, reg, suffix);
    forall x, q ensures if x in config.profiles then Profiles.Exposes(limit, fs', prefix, x, config.profiles[x], q)
                        else ProfilePath(prefix, x) + q !in fs'
    {
      Profiles.SyncExposes(limit, fs, prefix, config, arch, archSet, force, prune, reg, suffix, x, q);
    }
  }

  lemma BuiltBlocks(limit: nat, fs: FS, prefix: Path, config: Config, x: string, q: Path, n: string, q': Path)
    requires IsSturdy(limit, fs, prefix) && Built(limit, fs, prefix, config)
    requires ShowsLink(limit, fs, prefix, config, x, q) && Profiles.OffersFile(limit, fs, prefix, n, q') && q < q'
    ensures !Remove(limit, fs, prefix, n).ok
  {
    BuiltPassable(limit, fs, prefix, config, n);
    Removal.RemoveSucceedsExactly(limit, fs, prefix, n);
    assert !LetsThrough(limit, fs, prefix, config, x, q');
  }

  /** After any successful sync, a package with a path below a link that some profile shows
      cannot be removed. */
  lemma ShownLinkBlocksRemoval(limit: nat, fs: FS, prefix: Path, config: Config, arch: string, archSet: bool, force: bool, prune: bool,
                               reg: Registry, suffix: string, x: string, q: Path, n: string, q': Path)
    requires IsSturdy(limit, fs, prefix) && TameRegistry(prefix, reg, suffix)
    requires Sync(limit, fs, prefix, config, arch, archSet, force, prune, reg, suffix).ok
    requires var fs' := Sync(limit, fs, prefix, config, arch, archSet, force, prune, reg, suffix).fs;
      ShowsLink(limit, fs', prefix, config, x, q) && Profiles.OffersFile(limit, fs', prefix, n, q') && q < q'
    ensures !Remove(limit, Sync(limit, fs, prefix, config, arch, archSet, force, prune, reg, suffix).fs, prefix, n).ok
  {
    SyncBuilds(limit, fs, prefix, config, arch, archSet, force, prune, reg, suffix);
    BuiltBlocks(limit, Sync(limit, fs, prefix, config, arch, archSet, force, prune, reg, suffix).fs, prefix, config, x, q, n, q');
  }

  // ----- a package in a profile, and one that is only installed -----

  const PROFILE := "p"

  /** The manifest with u in the profile and v under unlink, and the one without v. */
  function WithBoth(u: string, v: string): Config {
    Config("", [], [v], map[PROFILE := [u]])
  }

  function WithoutSecond(u: string): Config {
    Config("", [], [], map[PROFILE := [u]])
  }

  function Unlinked(n: string): Target {
    Target(n, ARCH, false)
  }

  lemma OneProfileName(config: Config, u: string)
    requires config.profiles == map[PROFILE := [u]]
    ensures ProfileNames(config) == [PROFILE] && Concat(config.profiles, [PROFILE]) == [u]
  {
    var ps := ProfileNames(config);
    Order.SortedLength(config.profiles.Keys);
    assert config.profiles.Keys == {PROFILE};
    assert PROFILE in ps && |ps| == 1;
    assert [PROFILE][1..] == [] && Concat(config.profiles, []) == [];
  }

  lemma BothPlan(u: string, v: string)
    requires ValidName(u) && ValidName(v) && u != v
    ensures var config := WithBoth(u, v);
      && ValidConfig(config) && PlanOf(config) == [Target(v, "", false), Target(u, "", false)]
      && ResolveTargets(PlanOf(config), ARCH) == Ok([Unlinked(v), Unlinked(u)])
  {
    var config := WithBoth(u, v);
    OneProfileName(config, u);
    assert AllNames(config) == [v, u];
    FirstsOfTwo(v, u);
    var t, t' := Target(v, "", false), Target(u, "", false);
    assert PlanOf(config) == [t, t'];
    assert ValidArch(ARCH) && ResolveTargets([], ARCH) == Ok([]);
    ResolveNext(t', [], []);
    assert [Unlinked(u)] + [] == [Unlinked(u)] && [Unlinked(v)] + [Unlinked(u)] == [Unlinked(v), Unlinked(u)];
    ResolveNext(t, [t'], [Unlinked(u)]);
    assert [t'] + [] == [t'] && [t] + [t'] == [t, t'];
  }

  lemma OnePlan(u: string)
    requires ValidName(u)
    ensures var config := WithoutSecond(u);
      && ValidConfig(config) && PlanNames(config) == {u} && PlanOf(config) == [Target(u, "", false)]
      && ResolveTargets(PlanOf(config), ARCH) == Ok([Unlinked(u)])
  {
    var config := WithoutSecond(u);
    OneProfileName(config, u);
    assert AllNames(config) == [u];
    assert [u][..0] == [] && FirstOccurrences([]) == [] && FirstOccurrences([u]) == [u];
    var t := Target(u, "", false);
    assert PlanOf(config) == [t];
    assert ValidArch(ARCH) && ResolveTargets([], ARCH) == Ok([]);
    ResolveNext(t, [], []);
    assert [t] + [] == [t] && [Unlinked(u)] + [] == [Unlinked(u)];
  }

  /** In an empty prefix an unlinked job with one file is clear, and offers it. */
  lemma UnlinkedClear(limit: nat, fs: FS, prefix: Path, job: Job, suffix: string, rel: Path, content: Content)
    requires WF(fs) && RealDir(fs, prefix) && Childless(fs, prefix) && Names(prefix) && ValidName(job.name)
    requires job.fetch && !job.linked && PlainRel(rel) && job.artifact.entries == [FileEntry(job.name, rel, content)]
    ensures Clear(limit, fs, prefix, job, suffix)
    ensures Offered(limit, fs, prefix, job, suffix).Ok? && forall q :: q in Offered(limit, fs, prefix, job, suffix).value <==> q == rel
  {
    Settle.ValidIsName(job.name);
    assert prefix < StagePath(prefix, job.name, suffix);
    forall q ensures Offered(limit, fs, prefix, job, suffix).Ok? && (q in Offered(limit, fs, prefix, job, suffix).value <==> q == rel) {
      OneFileOffers(limit, fs, prefix, job, suffix, job.name, rel, content, q);
    }
    OneFileOffers(limit, fs, prefix, job, suffix, job.name, rel, content, rel);
  }

  lemma UnlinkedClearAt(limit: nat, fs: FS, prefix: Path, jobs: seq<Job>, suffix: string, i: nat)
    requires AllNamed(prefix, jobs) && i < |jobs| && !jobs[i].linked && Clear(limit, fs, prefix, jobs[i], suffix)
    ensures ClearAt(limit, fs, prefix, jobs, 0, i, suffix)
  {}

  lemma BothJobs(fs: FS, prefix: Path, u: string, ru: Path, v: string, rv: Path, content: Content, force: bool)
    requires WF(fs) && RealDir(fs, prefix) && Childless(fs, prefix) && Two(prefix, u, ru, v, rv)
    ensures var reg := PairRegistry(u, ru, v, rv, content);
      && AllPublished([Unlinked(v), Unlinked(u)], reg)
      && PlannedJobs(fs, prefix, [Unlinked(v), Unlinked(u)], reg, force) ==
           [Job(v, ARCH, false, reg[(v, ARCH)], None, true), Job(u, ARCH, false, reg[(u, ARCH)], None, true)]
  {
    assert prefix < MetaPath(prefix, u) && prefix < MetaPath(prefix, v);
    assert PlainMeta(fs, prefix, u) == None && PlainMeta(fs, prefix, v) == None;
  }

  lemma BothCanInstall(limit: nat, fs: FS, prefix: Path, u: string, ru: Path, v: string, rv: Path, content: Content, force: bool, suffix: string)
    requires WF(fs) && RealDir(fs, prefix) && Childless(fs, prefix) && Two(prefix, u, ru, v, rv)
    ensures CanInstall(limit, fs, prefix, [Unlinked(v), Unlinked(u)], PairRegistry(u, ru, v, rv, content), force, suffix)
  {
    var reg := PairRegistry(u, ru, v, rv, content);
    BothJobs(fs, prefix, u, ru, v, rv, content, force);
    BothClear(limit, fs, prefix, PlannedJobs(fs, prefix, [Unlinked(v), Unlinked(u)], reg, force), suffix, ru, rv, content);
  }

  lemma BothClear(limit: nat, fs: FS, prefix: Path, jobs: seq<Job>, suffix: string, ru: Path, rv: Path, content: Content)
    requires WF(fs) && RealDir(fs, prefix) && Childless(fs, prefix) && AllNamed(prefix, jobs) && |jobs| == 2
    requires PlainRel(rv) && jobs[0].fetch && !jobs[0].linked && jobs[0].artifact.entries == [FileEntry(jobs[0].name, rv, content)]
    requires PlainRel(ru) && jobs[1].fetch && !jobs[1].linked && jobs[1].artifact.entries == [FileEntry(jobs[1].name, ru, content)]
    ensures AllClear(limit, fs, prefix, jobs, 0, suffix)
  {
    UnlinkedIsClear(limit, fs, prefix, jobs[0], suffix, rv, content);
    UnlinkedIsClear(limit, fs, prefix, jobs[1], suffix, ru, content);
    forall i: nat | i < |jobs| ensures ClearAt(limit, fs, prefix, jobs, 0, i, suffix) {
      assert i == 0 || i == 1;
      UnlinkedClearAt(limit, fs, prefix, jobs, suffix, i);
    }
  }

  lemma UnlinkedIsClear(limit: nat, fs: FS, prefix: Path, job: Job, suffix: string, rel: Path, content: Content)
    requires WF(fs) && RealDir(fs, prefix) && Childless(fs, prefix) && Names(prefix) && ValidName(job.name)
    requires job.fetch && !job.linked && PlainRel(rel) && job.artifact.entries == [FileEntry(job.name, rel, content)]
    ensures Clear(limit, fs, prefix, job, suffix)
  {
    UnlinkedClear(limit, fs, prefix, job, suffix, rel, content);
  }

  /** Both are installed, unlinked, and offer their one file each. */
  ghost predicate BothThere(limit: nat, fs: FS, prefix: Path, u: string, ru: Path, v: string, rv: Path) {
    && Installed(fs, prefix, u) && Installed(fs, prefix, v) && !PlainMeta(fs, prefix, v).value.linked
    && Files(limit, fs, prefix, u).Ok? && (forall q :: q in Files(limit, fs, prefix, u).value <==> q == ru)
    && Files(limit, fs, prefix, v).Ok? && (forall q :: q in Files(limit, fs, prefix, v).value <==> q == rv)
  }

  lemma BothInstall(limit: nat, fs: FS, prefix: Path, u: string, ru: Path, v: string, rv: Path, content: Content, force: bool, suffix: string)
    requires WF(fs) && RealDir(fs, prefix) && Childless(fs, prefix) && Two(prefix, u, ru, v, rv)
    ensures IsSturdy(limit, fs, prefix) && TameRegistry(prefix, PairRegistry(u, ru, v, rv, content), suffix)
    ensures InstallPlan(limit, fs, prefix, PlanOf(WithBoth(u, v)), ARCH, force, PairRegistry(u, ru, v, rv, content), suffix).ok
  {
    BothPlan(u, v);
    TwoTame(prefix, u, ru, v, rv, content, suffix);
    EmptyIsSturdy(limit, fs, prefix);
    BothCanInstall(limit, fs, prefix, u, ru, v, rv, content, force, suffix);
    PlanSucceedsExactly(limit, fs, prefix, PlanOf(WithBoth(u, v)), ARCH, force, PairRegistry(u, ru, v, rv, content), suffix);
  }

  lemma BothInstalled(limit: nat, fs: FS, prefix: Path, u: string, ru: Path, v: string, rv: Path, content: Content, force: bool, suffix: string)
    requires WF(fs) && RealDir(fs, prefix) && Childless(fs, prefix) && Two(prefix, u, ru, v, rv)
    requires TameRegistry(prefix, PairRegistry(u, ru, v, rv, content), suffix)
    requires InstallPlan(limit, fs, prefix, PlanOf(WithBoth(u, v)), ARCH, force, PairRegistry(u, ru, v, rv, content), suffix).ok
    ensures BothThere(limit, InstallPlan(limit, fs, prefix, PlanOf(WithBoth(u, v)), ARCH, force, PairRegistry(u, ru, v, rv, content), suffix).fs,
                      prefix, u, ru, v, rv)
  {
    var reg, plan := PairRegistry(u, ru, v, rv, content), PlanOf(WithBoth(u, v));
    BothPlan(u, v);
    EmptyIsSturdy(limit, fs, prefix);
    BothJobs(fs, prefix, u, ru, v, rv, content, force);
    var jobs := PlannedJobs(fs, prefix, [Unlinked(v), Unlinked(u)], reg, force);
    UnlinkedClear(limit, fs, prefix, jobs[0], suffix, rv, content);
    UnlinkedClear(limit, fs, prefix, jobs[1], suffix, ru, content);
    PlanOrder.PlanOffers(limit, fs, prefix, plan, ARCH, force, reg, suffix, 0);
    PlanOrder.PlanOffers(limit, fs, prefix, plan, ARCH, force, reg, suffix, 1);
    Outcomes.TargetOutcome(limit, fs, prefix, plan, ARCH, force, reg, suffix, 0);
    Outcomes.TargetOutcome(limit, fs, prefix, plan, ARCH, force, reg, suffix, 1);
  }

  // ----- the sync, and then the removal -----

  lemma OneFits(limit: nat, fs: FS, prefix: Path, config: Config, u: string)
    requires config.profiles == map[PROFILE := [u]] && Files(limit, fs, prefix, u).Ok?
    ensures Rebuilding.ProfilesFit(limit, fs, prefix, config)
  {
    Rebuilding.FirstIsFree(limit, fs, prefix, [u]);
  }

  lemma OneShown(limit: nat, fs: FS, prefix: Path, config: Config, u: string, ru: Path)
    requires config.profiles == map[PROFILE := [u]] && Files(limit, fs, prefix, u).Ok?
    requires forall q :: q in Files(limit, fs, prefix, u).value <==> q == ru
    ensures ShowsLink(limit, fs, prefix, config, PROFILE, ru)
  {
    Rebuilding.OnePackage(limit, fs, prefix, [u], ru);
    var files := Files(limit, fs, prefix, u).value;
    forall i | 0 <= i < |files| ensures !(ru < [] + files[i]) { assert files[i] in files && [] + files[i] == files[i]; }
  }

  lemma BothStay(limit: nat, fs: FS, fs': FS, prefix: Path, u: string, ru: Path, v: string, rv: Path)
    requires BothThere(limit, fs, prefix, u, ru, v, rv) && StoresSame(limit, fs, fs', prefix)
    ensures BothThere(limit, fs', prefix, u, ru, v, rv)
  {}

  /** The first sync succeeds and leaves both packages there. */
  lemma BothSync(limit: nat, fs: FS, prefix: Path, u: string, ru: Path, v: string, rv: Path, content: Content, force: bool, suffix: string)
    requires WF(fs) && RealDir(fs, prefix) && Childless(fs, prefix) && Two(prefix, u, ru, v, rv)
    ensures IsSturdy(limit, fs, prefix) && TameRegistry(prefix, PairRegistry(u, ru, v, rv, content), suffix)
    ensures var s := Sync(limit, fs, prefix, WithBoth(u, v), ARCH, true, force, false, PairRegistry(u, ru, v, rv, content), suffix);
      s.ok && BothThere(limit, s.fs, prefix, u, ru, v, rv)
  {
    var reg, config := PairRegistry(u, ru, v, rv, content), WithBoth(u, v);
    BothInstall(limit, fs, prefix, u, ru, v, rv, content, force, suffix);
    BothInstalled(limit, fs, prefix, u, ru, v, rv, content, force, suffix);
    BothPlan(u, v);
    var s1 := InstallPlan(limit, fs, prefix, PlanOf(config), ARCH, force, reg, suffix);
    OneFits(limit, s1.fs, prefix, config, u);
    SyncSucceedsExactly(limit, fs, prefix, config, ARCH, true, force, false, reg, suffix);
    InstallPlanKeeps(limit, fs, prefix, PlanOf(config), ARCH, force, reg, suffix);
    RebuildKeeps(limit, s1.fs, prefix, config);
    BothStay(limit, s1.fs, RebuildProfiles(limit, s1.fs, prefix, config).fs, prefix, u, ru, v, rv);
  }

  /** In the trees as synced, v cannot be removed if its file lies below u's, and trying
      changes nothing. */
  lemma SecondIsStuck(limit: nat, fs: FS, prefix: Path, config: Config, u: string, ru: Path, v: string, rv: Path)
    requires IsSturdy(limit, fs, prefix) && Built(limit, fs, prefix, config) && config.profiles == map[PROFILE := [u]]
    requires ValidName(v) && BothThere(limit, fs, prefix, u, ru, v, rv) && ru < rv
    ensures Remove(limit, fs, prefix, v) == Step(fs, false)
  {
    OneShown(limit, fs, prefix, config, u, ru);
    BuiltBlocks(limit, fs, prefix, config, PROFILE, ru, v, rv);
    Outcomes.ReadMetaIsPlainFor(limit, fs, prefix, v);
    InstalledIsReal(fs, prefix, v);
    EvalPhysical(limit, fs, Aggregate.StorePath(prefix, v));
    var parent := prefix + ["profile"];
    var profiles := DirNames(fs, parent, ReadDir(fs, parent));
    Removal.ProfilesListed(fs, prefix);
    LinkHasTree(limit, fs, prefix, config, PROFILE, ru);
    TreeIsThere(limit, fs, prefix, config, PROFILE);
    assert PROFILE in profiles;
    assert profiles[0] == PROFILE by {
      TreeIsThere(limit, fs, prefix, config, profiles[0]);
      assert profiles[0] in profiles;
    }
    UnlinkIsStuck(limit, fs, prefix, config, u, ru, v, rv);
  }

  lemma UnlinkIsStuck(limit: nat, fs: FS, prefix: Path, config: Config, u: string, ru: Path, v: string, rv: Path)
    requires Built(limit, fs, prefix, config) && ShowsLink(limit, fs, prefix, config, PROFILE, ru)
    requires BothThere(limit, fs, prefix, u, ru, v, rv) && ru < rv
    ensures Aggregate.UnlinkPkgFrom(limit, fs, prefix, v, ProfilePath(prefix, PROFILE)) == Step(fs, false)
  {
    var files := Files(limit, fs, prefix, v).value;
    assert rv in files && files[0] in files;
    PathPasses(limit, fs, prefix, config, PROFILE, rv);
    assert !LetsThrough(limit, fs, prefix, config, PROFILE, rv);
    assert Aggregate.UnlinkOne(fs, ProfilePath(prefix, PROFILE), Aggregate.StorePath(prefix, v), files[0]) == Step(fs, false);
  }

  /** A prune that meets only packages that are wanted or stuck does nothing and fails. */
  lemma {:induction false} PruneIsStuck(limit: nat, fs: FS, prefix: Path, installed: seq<string>, wanted: set<string>, v: string)
    requires v in installed && v !in wanted
    requires forall n :: n in installed && n !in wanted ==> Remove(limit, fs, prefix, n) == Step(fs, false)
    ensures PruneAll(limit, fs, prefix, installed, wanted) == Step(fs, false)
  {
    assert forall m :: m in installed <==> m == installed[0] || m in installed[1..];
    if installed[0] in wanted { PruneIsStuck(limit, fs, prefix, installed[1..], wanted, v); }
  }

  // ----- the sync that prunes -----

  /** A plan makes no record for a package it does not name. */
  lemma PlanLeavesRecord(limit: nat, fs: FS, prefix: Path, targets: seq<Target>, arch: string, force: bool, reg: Registry, suffix: string, n: string)
    requires Inv(limit, fs, prefix) && TameRegistry(prefix, reg, suffix) && DistinctTargets(targets)
    requires InstallPlan(limit, fs, prefix, targets, arch, force, reg, suffix).ok && !Outcomes.Targeted(targets, n)
    ensures SameAt(fs, InstallPlan(limit, fs, prefix, targets, arch, force, reg, suffix).fs, MetaPath(prefix, n))
  {
    var ts := ResolveTargets(targets, arch).value;
    Outcomes.PlanStarts(limit, fs, prefix, targets, arch, force, reg, suffix);
    var p := Prepare(limit, fs, prefix, ts, reg, force);
    RecordElsewhere(prefix, targets, ts, n);
    PrepareElsewhere(limit, fs, prefix, ts, reg, force, MetaPath(prefix, n));
    forall i | 0 <= i < |p.jobs| ensures p.jobs[i].name != n { assert targets[i].name == ts[i].name; }
    var states := RunIsTraced(limit, p.fs, prefix, p.jobs, suffix);
    Settle.RunLeavesOthers(limit, states, prefix, p.jobs, 0, n);
  }

  lemma RecordElsewhere(prefix: Path, targets: seq<Target>, ts: seq<Target>, n: string)
    requires |ts| == |targets| && (forall i :: 0 <= i < |ts| ==> ts[i].name == targets[i].name) && !Outcomes.Targeted(targets, n)
    ensures Elsewhere(prefix, ts, MetaPath(prefix, n))
  {
    forall i | 0 <= i < |ts| ensures !(Aggregate.StorePath(prefix, ts[i].name) <= MetaPath(prefix, n)) {
      assert targets[i].name != n;
      assert MetaPath(prefix, n)[|prefix| + 1] == n && Aggregate.StorePath(prefix, ts[i].name)[|prefix| + 1] == ts[i].name;
    }
  }

  /** Nothing but the two packages has a record after the first sync. */
  lemma OnlyBoth(limit: nat, fs: FS, prefix: Path, u: string, ru: Path, v: string, rv: Path, content: Content, force: bool, suffix: string, n: string)
    requires WF(fs) && RealDir(fs, prefix) && Childless(fs, prefix) && Two(prefix, u, ru, v, rv) && n != u && n != v
    requires Inv(limit, fs, prefix) && TameRegistry(prefix, PairRegistry(u, ru, v, rv, content), suffix)
    requires Sync(limit, fs, prefix, WithBoth(u, v), ARCH, true, force, false, PairRegistry(u, ru, v, rv, content), suffix).ok
    ensures MetaPath(prefix, n) !in Sync(limit, fs, prefix, WithBoth(u, v), ARCH, true, force, false, PairRegistry(u, ru, v, rv, content), suffix).fs
  {
    var reg, config := PairRegistry(u, ru, v, rv, content), WithBoth(u, v);
    NoRecordYet(fs, prefix, n);
    BothPlan(u, v);
    NotOfPair(u, v, n);
    PlanLeavesRecord(limit, fs, prefix, PlanOf(config), ARCH, force, reg, suffix, n);
    InstallPlanKeeps(limit, fs, prefix, PlanOf(config), ARCH, force, reg, suffix);
    RebuildLeavesRecord(limit, InstallPlan(limit, fs, prefix, PlanOf(config), ARCH, force, reg, suffix).fs, prefix, config, n);
  }

  lemma NoRecordYet(fs: FS, prefix: Path, n: string)
    requires Childless(fs, prefix)
    ensures MetaPath(prefix, n) !in fs
  {
    assert prefix < MetaPath(prefix, n);
  }

  lemma NotOfPair(u: string, v: string, n: string)
    requires n != u && n != v
    ensures !Outcomes.Targeted([Target(v, "", false), Target(u, "", false)], n)
  {}

  lemma RebuildLeavesRecord(limit: nat, fs: FS, prefix: Path, config: Config, n: string)
    requires Inv(limit, fs, prefix) && ValidConfig(config)
    ensures SameAt(fs, RebuildProfiles(limit, fs, prefix, config).fs, MetaPath(prefix, n))
  {
    RebuildKeeps(limit, fs, prefix, config);
  }

  /** The shorter manifest has nothing to install. */
  lemma OneSettled(limit: nat, fs: FS, prefix: Path, u: string, v: string, reg: Registry)
    requires Converge.Settled(limit, fs, prefix, [Unlinked(v), Unlinked(u)], reg)
    ensures Converge.Settled(limit, fs, prefix, [Unlinked(u)], reg) && Settle.NoClash(limit, fs, prefix, [Unlinked(u)])
  {
    var ts, one := [Unlinked(v), Unlinked(u)], [Unlinked(u)];
    assert one[0] == ts[1];
    forall i | 0 <= i < |one| ensures PlainMeta(fs, prefix, one[i].name) == Some(Converge.TargetMeta(one[i], reg)) { assert one[i] == ts[1]; }
    forall q ensures Settle.Owner(limit, fs, prefix, one, 1, q) == None {
      assert Settle.Owner(limit, fs, prefix, one, 0, q) == None;
    }
  }

  /** And its profiles are the same. */
  lemma SameRebuild(limit: nat, fs: FS, prefix: Path, a: Config, b: Config)
    requires Ready(fs, prefix) && ValidConfig(a) && ValidConfig(b) && a.profiles == b.profiles
    ensures RebuildProfiles(limit, fs, prefix, a) == RebuildProfiles(limit, fs, prefix, b)
  {}

  /** In such a state the sync that prunes v away installs nothing, rebuilds what is there
      and fails at the removal, and everything is as it was. */
  lemma PruneSyncIsStuck(limit: nat, fs: FS, prefix: Path, u: string, ru: Path, v: string, rv: Path, reg: Registry, suffix: string)
    requires IsSturdy(limit, fs, prefix) && ValidName(u) && ValidName(v) && u != v && ru < rv && TameRegistry(prefix, reg, suffix)
    requires Fixpoint.Synced(limit, fs, prefix, WithBoth(u, v), [Unlinked(v), Unlinked(u)], reg) && Built(limit, fs, prefix, WithBoth(u, v))
    requires BothThere(limit, fs, prefix, u, ru, v, rv) && forall n :: MetaPath(prefix, n) in fs ==> n == u || n == v
    ensures Sync(limit, fs, prefix, WithoutSecond(u), ARCH, true, false, true, reg, suffix) == Step(fs, false)
  {
    var config := WithoutSecond(u);
    OnePlan(u);
    OneSettled(limit, fs, prefix, u, v, reg);
    Converge.InstallPlanAgain(limit, fs, prefix, PlanOf(config), ARCH, reg, suffix);
    SameRebuild(limit, fs, prefix, config, WithBoth(u, v));
    SecondIsStuck(limit, fs, prefix, WithBoth(u, v), u, ru, v, rv);
    UnwantedIsStuck(limit, fs, prefix, config, u, v);
  }

  lemma UnwantedIsStuck(limit: nat, fs: FS, prefix: Path, config: Config, u: string, v: string)
    requires Inv(limit, fs, prefix) && Installed(fs, prefix, v) && PlanNames(config) == {u} && u != v
    requires Remove(limit, fs, prefix, v) == Step(fs, false) && forall n :: MetaPath(prefix, n) in fs ==> n == u || n == v
    ensures PruneUnwanted(limit, fs, prefix, config) == Step(fs, false)
  {
    InstalledNamesMeans(limit, fs, prefix);
    var installed := InstalledNames(limit, fs, prefix).value;
    assert MetaPath(prefix, v) in fs;
    PruneIsStuck(limit, fs, prefix, installed, {u}, v);
  }

  /** Two packages of one file each, u in a profile and v under unlink, with v's file below
      u's: from an empty prefix the sync succeeds, then v cannot be removed, and the sync of
      the manifest without v, pruning, fails and leaves everything as it was, so that it
      fails again however often it is repeated. */
  lemma ProfileBlocksPrune(limit: nat, fs: FS, prefix: Path, u: string, ru: Path, v: string, rv: Path, content: Content, force: bool,
                           suffix: string, suffix': string)
    requires WF(fs) && RealDir(fs, prefix) && Childless(fs, prefix) && Two(prefix, u, ru, v, rv) && ru < rv
    ensures var reg := PairRegistry(u, ru, v, rv, content);
      && IsSturdy(limit, fs, prefix) && TameRegistry(prefix, reg, suffix) && TameRegistry(prefix, reg, suffix')
      && var first := Sync(limit, fs, prefix, WithBoth(u, v), ARCH, true, force, false, reg, suffix);
         && first.ok && Ready(first.fs, prefix)
         && Remove(limit, first.fs, prefix, v) == Step(first.fs, false)
         && Sync(limit, first.fs, prefix, WithoutSecond(u), ARCH, true, false, true, reg, suffix') == Step(first.fs, false)
  {
    var reg, config := PairRegistry(u, ru, v, rv, content), WithBoth(u, v);
    TwoTame(prefix, u, ru, v, rv, content, suffix');
    BothSync(limit, fs, prefix, u, ru, v, rv, content, force, suffix);
    var fs' := Sync(limit, fs, prefix, config, ARCH, true, force, false, reg, suffix).fs;
    SyncBuilds(limit, fs, prefix, config, ARCH, true, force, false, reg, suffix);
    Fixpoint.SyncSettles(limit, fs, prefix, config, ARCH, true, force, false, reg, suffix);
    BothPlan(u, v);
    SecondIsStuck(limit, fs', prefix, config, u, ru, v, rv);
    forall n | MetaPath(prefix, n) in fs' ensures n == u || n == v {
      if n != u && n != v { OnlyBoth(limit, fs, prefix, u, ru, v, rv, content, force, suffix, n); }
    }
    PruneSyncIsStuck(limit, fs', prefix, u, ru, v, rv, reg, suffix');
  }

  /** Concretely: "a" with the file x in the profile, and "b" with x/y. */
  lemma StuckExample(limit: nat, fs: FS, prefix: Path, content: Content, suffix: string, suffix': string)
    requires WF(fs) && RealDir(fs, prefix) && Childless(fs, prefix)
    ensures var reg := PairRegistry("a", ["x"], "b", ["x", "y"], content);
      && IsSturdy(limit, fs, prefix) && TameRegistry(prefix, reg, suffix) && TameRegistry(prefix, reg, suffix')
      && var first := Sync(limit, fs, prefix, WithBoth("a", "b"), ARCH, true, false, false, reg, suffix);
         && first.ok && Ready(first.fs, prefix) && !Remove(limit, first.fs, prefix, "b").ok
         && Sync(limit, first.fs, prefix, WithoutSecond("a"), ARCH, true, false, true, reg, suffix') == Step(first.fs, false)
  {
    assert ["x"] < ["x", "y"];
    assert Names(prefix);
    ProfileBlocksPrune(limit, fs, prefix, "a", ["x"], "b", ["x", "y"], content, false, suffix, suffix');
  }
}
