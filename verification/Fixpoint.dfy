/** After a successful `sync`, the same `sync` again fetches nothing and leaves every
    path as it is, exactly when no package offers a path above another's. */
module Fixpoint {
  import opened Options
  import opened Lexical
  import opened FileTree
  import Prefix
  import opened Install
  import opened Lifecycle
  import opened Plan
  import opened Commands
  import opened Manifest
  import opened ManifestPlan
  import Settle
  import opened Converge
  import opened Resync

  /** The targets a manifest resolves to, and the names among them. */
  lemma PlanTargets(config: Config, arch: string)
    requires ResolveTargets(PlanOf(config), arch).Ok?
    ensures var ts := ResolveTargets(PlanOf(config), arch).value;
      && Settle.NamedTargets(ts) && (forall i :: 0 <= i < |ts| ==> ts[i].name in PlanNames(config))
      && forall n :: n in PlanNames(config) ==> exists i :: 0 <= i < |ts| && ts[i].name == n
  {
    var ts := ResolveTargets(PlanOf(config), arch).value;
    var names := FirstOccurrences(AllNames(config));
    ResolvedNamed(PlanOf(config), arch);
    forall i | 0 <= i < |ts| ensures ts[i].name in PlanNames(config) { assert names[i] in names; }
    forall n | n in PlanNames(config) ensures exists i :: 0 <= i < |ts| && ts[i].name == n {
      var i :| 0 <= i < |names| && names[i] == n;
      assert ts[i].name == n;
    }
  }

  lemma SettledOffers(limit: nat, prefix: Path, ts: seq<Target>, reg: Registry, names: set<string>, x: FS, y: FS)
    requires Settled(limit, x, prefix, ts, reg) && Settled(limit, y, prefix, ts, reg) && SamePackages(limit, x, y, prefix, ts)
    requires forall n :: n in names ==> exists i :: 0 <= i < |ts| && ts[i].name == n
    ensures SameOffers(limit, prefix, names, x, y)
  {
    forall n | n in names
      ensures Installed(x, prefix, n) && Installed(y, prefix, n) && Files(limit, x, prefix, n) == Files(limit, y, prefix, n)
    {
      var i :| 0 <= i < |ts| && ts[i].name == n;
      assert PlainMeta(x, prefix, ts[i].name) == Some(TargetMeta(ts[i], reg));
    }
  }

  /** Rebuilding the profiles of a settled plan keeps it settled. */
  lemma RebuildSettled(limit: nat, fs: FS, prefix: Path, config: Config, ts: seq<Target>, reg: Registry)
    requires ValidConfig(config) && Settled(limit, fs, prefix, ts, reg) && RebuildProfiles(limit, fs, prefix, config).ok
    requires forall n :: n in PlanNames(config) ==> exists i :: 0 <= i < |ts| && ts[i].name == n
    ensures var fs' := RebuildProfiles(limit, fs, prefix, config).fs;
      Kept(limit, fs', prefix, ts, reg, PlanNames(config), fs') && SamePackages(limit, fs, fs', prefix, ts)
  {
    var fs' := RebuildProfiles(limit, fs, prefix, config).fs;
    RebuildKeeps(limit, fs, prefix, config);
    SettledOffers(limit, prefix, ts, reg, PlanNames(config), fs, fs);
    RebuildBoth(limit, prefix, config, fs, fs);
    forall i | 0 <= i < |ts|
      ensures PlainMeta(fs', prefix, ts[i].name) == PlainMeta(fs, prefix, ts[i].name)
      ensures Files(limit, fs', prefix, ts[i].name) == Files(limit, fs, prefix, ts[i].name)
    {
      assert PlainMeta(fs, prefix, ts[i].name) == Some(TargetMeta(ts[i], reg));
    }
    ProfileOnlyFrames(fs, fs', prefix);
    forall i | 0 <= i < |ts| ensures ts[i].name != "" { assert Prefix.ValidName(ts[i].name); }
    SettledFrame(limit, fs, fs', prefix, ts, reg, "");
  }

  /** The state a sync leaves: settled, with profiles that a rebuild does not change. */
  ghost predicate Synced(limit: nat, fs: FS, prefix: Path, config: Config, ts: seq<Target>, reg: Registry) {
    && Settled(limit, fs, prefix, ts, reg) && ValidConfig(config)
    && RebuildProfiles(limit, fs, prefix, config) == Step(fs, true)
  }

  /** The packages that have metadata are exactly those the manifest names. */
  ghost predicate InstalledIsPlan(limit: nat, fs: FS, prefix: Path, config: Config) {
    && InstalledNames(limit, fs, prefix).Ok?
    && forall n :: n in InstalledNames(limit, fs, prefix).value <==> n in PlanNames(config)
  }

  lemma KeptSynced(limit: nat, before: FS, built: FS, fs: FS, prefix: Path, config: Config, ts: seq<Target>, reg: Registry)
    requires ValidConfig(config) && Settled(limit, before, prefix, ts, reg)
    requires RebuildProfiles(limit, before, prefix, config) == Step(built, true)
    requires SamePackages(limit, before, built, prefix, ts) && Kept(limit, built, prefix, ts, reg, PlanNames(config), fs)
    requires forall n :: n in PlanNames(config) ==> exists i :: 0 <= i < |ts| && ts[i].name == n
    ensures Synced(limit, fs, prefix, config, ts, reg)
  {
    assert SamePackages(limit, before, fs, prefix, ts);
    SettledOffers(limit, prefix, ts, reg, PlanNames(config), before, fs);
    RebuildAgain(limit, prefix, config, before, fs);
  }

  lemma PrunedIsPlan(limit: nat, fs: FS, prefix: Path, config: Config, ts: seq<Target>, reg: Registry)
    requires Kept(limit, fs, prefix, ts, reg, PlanNames(config), fs) && PruneUnwanted(limit, fs, prefix, config).ok
    requires forall i :: 0 <= i < |ts| ==> ts[i].name in PlanNames(config)
    requires forall n :: n in PlanNames(config) ==> exists i :: 0 <= i < |ts| && ts[i].name == n
    ensures var fs' := PruneUnwanted(limit, fs, prefix, config).fs;
      Kept(limit, fs, prefix, ts, reg, PlanNames(config), fs') && InstalledIsPlan(limit, fs', prefix, config)
  {
    InstalledNamesMeans(limit, fs, prefix);
    var installed := InstalledNames(limit, fs, prefix).value;
    var fs' := PruneUnwanted(limit, fs, prefix, config).fs;
    PruneKeepsPlan(limit, fs, prefix, ts, reg, PlanNames(config), installed);
    PruneClears(limit, fs, prefix, installed, PlanNames(config), PlanNames(config));
    InstalledNamesMeans(limit, fs', prefix);
    forall n | n in PlanNames(config) ensures Prefix.MetaPath(prefix, n) in fs' {
      var i :| 0 <= i < |ts| && ts[i].name == n;
      assert PlainMeta(fs', prefix, ts[i].name) == Some(TargetMeta(ts[i], reg));
    }
  }

  /** A successful sync leaves a synced prefix; with pruning the installed packages are
      exactly those the manifest names. */
  lemma SyncSettles(limit: nat, fs: FS, prefix: Path, config: Config, arch: string, archSet: bool, force: bool, prune: bool,
                    reg: Registry, suffix: string)
    requires Inv(limit, fs, prefix) && TameRegistry(prefix, reg, suffix)
    requires Sync(limit, fs, prefix, config, arch, archSet, force, prune, reg, suffix).ok
    ensures var fs' := Sync(limit, fs, prefix, config, arch, archSet, force, prune, reg, suffix).fs;
      var ts := ResolveTargets(PlanOf(config), SyncArch(config, arch, archSet));
      && ts.Ok? && Synced(limit, fs', prefix, config, ts.value, reg)
      && (prune ==> InstalledIsPlan(limit, fs', prefix, config))
  {
    var plan := PlanOf(config);
    var a := SyncArch(config, arch, archSet);
    var s1 := InstallPlan(limit, fs, prefix, plan, a, force, reg, suffix);
    InstallPlanSettles(limit, fs, prefix, plan, a, force, reg, suffix);
    var ts := ResolveTargets(plan, a).value;
    PlanTargets(config, a);
    var s2 := RebuildProfiles(limit, s1.fs, prefix, config);
    RebuildSettled(limit, s1.fs, prefix, config, ts, reg);
    if prune { PrunedIsPlan(limit, s2.fs, prefix, config, ts, reg); }
    KeptSynced(limit, s1.fs, s2.fs, Sync(limit, fs, prefix, config, arch, archSet, force, prune, reg, suffix).fs,
               prefix, config, ts, reg);
  }

  lemma SyncOnce(limit: nat, fs: FS, prefix: Path, config: Config, ts: seq<Target>, prune: bool, reg: Registry)
    requires Synced(limit, fs, prefix, config, ts, reg) && (prune ==> InstalledIsPlan(limit, fs, prefix, config))
    ensures prune ==> PruneUnwanted(limit, fs, prefix, config) == Step(fs, true)
  {
    if prune { PruneNothing(limit, fs, prefix, InstalledNames(limit, fs, prefix).value, PlanNames(config)); }
  }

  lemma SyncSynced(limit: nat, fs: FS, prefix: Path, config: Config, arch: string, archSet: bool, prune: bool,
                   reg: Registry, suffix: string)
    requires ResolveTargets(PlanOf(config), SyncArch(config, arch, archSet)).Ok? && TameRegistry(prefix, reg, suffix)
    requires Synced(limit, fs, prefix, config, ResolveTargets(PlanOf(config), SyncArch(config, arch, archSet)).value, reg)
    requires prune ==> InstalledIsPlan(limit, fs, prefix, config)
    ensures var s := Sync(limit, fs, prefix, config, arch, archSet, false, prune, reg, suffix);
      && (s.ok <==> Settle.NoClash(limit, fs, prefix, ResolveTargets(PlanOf(config), SyncArch(config, arch, archSet)).value))
      && (s.ok ==> s.fs == fs)
  {
    var a := SyncArch(config, arch, archSet);
    InstallPlanAgain(limit, fs, prefix, PlanOf(config), a, reg, suffix);
    SyncOnce(limit, fs, prefix, config, ResolveTargets(PlanOf(config), a).value, prune, reg);
  }

  /** The same sync again, without --force and against the same registry: it succeeds
      exactly when no package offers a path above another's, and then the whole file
      system is as the first one left it. */
  lemma SyncConverges(limit: nat, fs: FS, prefix: Path, config: Config, arch: string, archSet: bool, force: bool, prune: bool,
                      reg: Registry, suffix: string, suffix': string)
    requires Inv(limit, fs, prefix) && TameRegistry(prefix, reg, suffix) && TameRegistry(prefix, reg, suffix')
    requires Sync(limit, fs, prefix, config, arch, archSet, force, prune, reg, suffix).ok
    ensures Prefix.Ready(Sync(limit, fs, prefix, config, arch, archSet, force, prune, reg, suffix).fs, prefix)
    ensures ResolveTargets(PlanOf(config), SyncArch(config, arch, archSet)).Ok?
    ensures var synced := Sync(limit, fs, prefix, config, arch, archSet, force, prune, reg, suffix).fs;
      var again := Sync(limit, synced, prefix, config, arch, archSet, false, prune, reg, suffix');
      && (again.ok <==> Settle.NoClash(limit, synced, prefix, ResolveTargets(PlanOf(config), SyncArch(config, arch, archSet)).value))
      && (again.ok ==> again.fs == synced)
  {
    SyncSettles(limit, fs, prefix, config, arch, archSet, force, prune, reg, suffix);
    var synced := Sync(limit, fs, prefix, config, arch, archSet, force, prune, reg, suffix).fs;
    SyncSynced(limit, synced, prefix, config, arch, archSet, prune, reg, suffix');
  }

  /** And it has nothing to fetch. */
  lemma SyncFetchesNothing(limit: nat, fs: FS, prefix: Path, config: Config, arch: string, archSet: bool, force: bool, prune: bool,
                           reg: Registry, suffix: string)
    requires Inv(limit, fs, prefix) && TameRegistry(prefix, reg, suffix)
    requires Sync(limit, fs, prefix, config, arch, archSet, force, prune, reg, suffix).ok
    ensures var synced := Sync(limit, fs, prefix, config, arch, archSet, force, prune, reg, suffix).fs;
      var r := ResolveTargets(PlanOf(config), SyncArch(config, arch, archSet));
      && r.Ok? && AllPublished(r.value, reg)
      && var p := Prepare(limit, synced, prefix, r.value, reg, false);
         p == Prepared(synced, true, p.jobs) && |p.jobs| == |r.value| && forall i :: 0 <= i < |p.jobs| ==> !p.jobs[i].fetch
  {
    SyncSettles(limit, fs, prefix, config, arch, archSet, force, prune, reg, suffix);
    var synced := Sync(limit, fs, prefix, config, arch, archSet, force, prune, reg, suffix).fs;
    PrepareSettled(limit, synced, prefix, ResolveTargets(PlanOf(config), SyncArch(config, arch, archSet)).value, reg);
  }
}
