/** What a successful `sync` leaves, package by package (cmd/binman/manifest.go). */
module SyncMeans {
  import opened Options
  import opened Lexical
  import opened FileTree
  import Order
  import opened Aggregate
  import opened Prefix
  import opened Install
  import opened Lifecycle
  import opened Plan
  import opened Commands
  import opened ManifestPlan
  import opened Manifest
  import Outcomes
  import opened Fetching

  // ----- the two phases after the plan -----

  lemma MetaUnder(x: FS, y: FS, prefix: Path, n: string)
    requires SameUnder(x, y, StorePath(prefix, n))
    ensures PlainMeta(y, prefix, n) == PlainMeta(x, prefix, n) && SameAt(x, y, MetaPath(prefix, n))
  {
    assert StorePath(prefix, n) <= MetaPath(prefix, n);
    assert SameAt(x, y, MetaPath(prefix, n));
  }

  /** Removing another package leaves a store as it is. */
  lemma RemoveLeavesStore(limit: nat, fs: FS, prefix: Path, m: string, n: string)
    requires Inv(limit, fs, prefix) && Remove(limit, fs, prefix, m).ok && m != n
    ensures SameUnder(fs, Remove(limit, fs, prefix, m).fs, StorePath(prefix, n))
  {
    var fs1, fs2, profiles := Outcomes.RemovePhases(limit, fs, prefix, m);
    RootOnlySameStore(fs, fs1, prefix, n);
    UnlinkProfilesKeeps(limit, fs1, prefix, m, profiles);
    ProfileOnlySameStore(fs1, fs2, prefix, n);
    DroppedStores(fs2, prefix, m, n);
    UnderThen(fs, fs1, fs2, StorePath(prefix, n));
    UnderThen(fs, fs2, Remove(limit, fs, prefix, m).fs, StorePath(prefix, n));
  }

  lemma {:induction false} PruneLeavesStore(limit: nat, fs: FS, prefix: Path, installed: seq<string>, wanted: set<string>, n: string)
    requires Inv(limit, fs, prefix) && PruneAll(limit, fs, prefix, installed, wanted).ok
    requires n in wanted || n !in installed
    ensures SameUnder(fs, PruneAll(limit, fs, prefix, installed, wanted).fs, StorePath(prefix, n))
    decreases |installed|
  {
    if installed != [] {
      var m := installed[0];
      assert installed == [m] + installed[1..];
      if m in wanted {
        PruneLeavesStore(limit, fs, prefix, installed[1..], wanted, n);
      } else {
        RemoveKeeps(limit, fs, prefix, m);
        RemoveLeavesStore(limit, fs, prefix, m, n);
        var mid := Remove(limit, fs, prefix, m).fs;
        PruneLeavesStore(limit, mid, prefix, installed[1..], wanted, n);
        UnderThen(fs, mid, PruneAll(limit, fs, prefix, installed, wanted).fs, StorePath(prefix, n));
      }
    }
  }

  lemma {:induction false} PruneDropsStore(limit: nat, fs: FS, prefix: Path, installed: seq<string>, wanted: set<string>, n: string)
    requires Inv(limit, fs, prefix) && PruneAll(limit, fs, prefix, installed, wanted).ok && Order.Distinct(installed)
    requires n in installed && n !in wanted
    ensures forall p :: StorePath(prefix, n) <= p ==> p !in PruneAll(limit, fs, prefix, installed, wanted).fs
    decreases |installed|
  {
    var m := installed[0];
    var fs' := PruneAll(limit, fs, prefix, installed, wanted).fs;
    var mid := if m in wanted then fs else Remove(limit, fs, prefix, m).fs;
    if m !in wanted { RemoveKeeps(limit, fs, prefix, m); }
    if m == n {
      PruneLeavesStore(limit, mid, prefix, installed[1..], wanted, n);
      forall p | StorePath(prefix, n) <= p ensures p !in fs' { assert SameAt(mid, fs', p); }
    } else {
      assert installed == [m] + installed[1..];
      PruneDropsStore(limit, mid, prefix, installed[1..], wanted, n);
    }
  }

  /** After a prune the named packages' stores are as before, and so is every store without
      a record; the other packages are gone. */
  lemma PruneStores(limit: nat, fs: FS, prefix: Path, config: Config, n: string)
    requires Inv(limit, fs, prefix) && PruneUnwanted(limit, fs, prefix, config).ok
    ensures var fs' := PruneUnwanted(limit, fs, prefix, config).fs;
      if n in AllNames(config) || MetaPath(prefix, n) !in fs then SameUnder(fs, fs', StorePath(prefix, n))
      else forall p :: StorePath(prefix, n) <= p ==> p !in fs'
  {
    InstalledNamesMeans(limit, fs, prefix);
    var installed := InstalledNames(limit, fs, prefix).value;
    assert n in PlanNames(config) <==> n in AllNames(config);
    if n in AllNames(config) || MetaPath(prefix, n) !in fs {
      PruneLeavesStore(limit, fs, prefix, installed, PlanNames(config), n);
    } else {
      PruneDropsStore(limit, fs, prefix, installed, PlanNames(config), n);
    }
  }

  // ----- a whole sync -----

  /** The states between the phases. */
  lemma SyncPhases(limit: nat, fs: FS, prefix: Path, config: Config, arch: string, archSet: bool, force: bool, prune: bool,
                   reg: Registry, suffix: string) returns (a: string, planned: FS, built: FS)
    requires Inv(limit, fs, prefix) && TameRegistry(prefix, reg, suffix)
    requires Sync(limit, fs, prefix, config, arch, archSet, force, prune, reg, suffix).ok
    ensures a == if archSet || config.arch == "" then arch else config.arch
    ensures InstallPlan(limit, fs, prefix, PlanOf(config), a, force, reg, suffix) == Step(planned, true)
    ensures Inv(limit, built, prefix) && forall n :: SameUnder(planned, built, StorePath(prefix, n))
    ensures var s := Sync(limit, fs, prefix, config, arch, archSet, force, prune, reg, suffix);
      if prune then PruneUnwanted(limit, built, prefix, config) == s else s.fs == built
  {
    a := SyncArch(config, arch, archSet);
    planned := InstallPlan(limit, fs, prefix, PlanOf(config), a, force, reg, suffix).fs;
    InstallPlanKeeps(limit, fs, prefix, PlanOf(config), a, force, reg, suffix);
    RebuildKeeps(limit, planned, prefix, config);
    built := RebuildProfiles(limit, planned, prefix, config).fs;
    forall n ensures SameUnder(planned, built, StorePath(prefix, n)) { ProfileOnlySameStore(planned, built, prefix, n); }
  }

  lemma NamedIsTargeted(config: Config, n: string)
    ensures Outcomes.Targeted(PlanOf(config), n) <==> n in AllNames(config)
    ensures forall i :: 0 <= i < |PlanOf(config)| && PlanOf(config)[i].name == n ==>
      PlanOf(config)[i] == Target(n, "", n in config.link)
  {
    var names := FirstOccurrences(AllNames(config));
    if n in AllNames(config) {
      var i :| 0 <= i < |names| && names[i] == n;
      assert PlanOf(config)[i].name == n;
    }
    if Outcomes.Targeted(PlanOf(config), n) {
      var i :| 0 <= i < |PlanOf(config)| && PlanOf(config)[i].name == n;
      assert names[i] in names;
    }
  }

  /** What the plan of a sync makes of the package, for the architecture a. */
  lemma PlanMakes(limit: nat, fs: FS, prefix: Path, config: Config, a: string, force: bool, reg: Registry, suffix: string, n: string)
    requires Inv(limit, fs, prefix) && TameRegistry(prefix, reg, suffix)
    requires InstallPlan(limit, fs, prefix, PlanOf(config), a, force, reg, suffix).ok
    ensures var fs' := InstallPlan(limit, fs, prefix, PlanOf(config), a, force, reg, suffix).fs;
      if n in AllNames(config) then
        && (n, a) in reg && PlainMeta(fs', prefix, n) == Some(Meta(n, a, reg[(n, a)].digest, n in config.link))
        && StoreAfter(limit, fs, fs', prefix, n, reg[(n, a)], force)
      else SameUnder(fs, fs', StorePath(prefix, n))
  {
    var plan := PlanOf(config);
    NamedIsTargeted(config, n);
    PlanStores(limit, fs, prefix, plan, a, force, reg, suffix, n);
    Outcomes.PlanOutcome(limit, fs, prefix, plan, a, force, reg, suffix, n);
    if n in AllNames(config) { var i :| 0 <= i < |plan| && plan[i].name == n; }
  }

  /** A sync installs each package the manifest mentions for the architecture of the flag, or,
      without one, of the manifest if it has one, linked exactly when it is listed under
      link; it downloads what is forced or out of date. With pruning every other package is
      gone, and otherwise its store is as it was. */
  lemma SyncMeans(limit: nat, fs: FS, prefix: Path, config: Config, arch: string, archSet: bool, force: bool, prune: bool,
                  reg: Registry, suffix: string, n: string)
    requires Inv(limit, fs, prefix) && TameRegistry(prefix, reg, suffix)
    requires Sync(limit, fs, prefix, config, arch, archSet, force, prune, reg, suffix).ok
    ensures var fs' := Sync(limit, fs, prefix, config, arch, archSet, force, prune, reg, suffix).fs;
      var a := if archSet || config.arch == "" then arch else config.arch;
      if Mentioned(config, n) then
        && (n, a) in reg && PlainMeta(fs', prefix, n) == Some(Meta(n, a, reg[(n, a)].digest, n in config.link))
        && StoreAfter(limit, fs, fs', prefix, n, reg[(n, a)], force)
      else if prune && MetaPath(prefix, n) in fs then forall p :: StorePath(prefix, n) <= p ==> p !in fs'
      else SameUnder(fs, fs', StorePath(prefix, n)) && Outcomes.PackageSame(limit, fs, fs', prefix, n)
  {
    var a, planned, built := SyncPhases(limit, fs, prefix, config, arch, archSet, force, prune, reg, suffix);
    MentionedExactly(config, n);
    var fs' := Sync(limit, fs, prefix, config, arch, archSet, force, prune, reg, suffix).fs;
    PlanMakes(limit, fs, prefix, config, a, force, reg, suffix, n);
    assert SameUnder(planned, built, StorePath(prefix, n));
    MetaUnder(planned, built, prefix, n);
    if prune { PruneStores(limit, built, prefix, config, n); }
    if n in AllNames(config) {
      SyncedStore(limit, fs, planned, built, fs', prefix, n, reg[(n, a)], force);
    } else {
      MetaUnder(fs, planned, prefix, n);
      UnderThen(fs, planned, built, StorePath(prefix, n));
      if !prune || MetaPath(prefix, n) !in fs {
        UnderThen(fs, built, fs', StorePath(prefix, n));
        SyncKeeps(limit, fs, prefix, config, arch, archSet, force, prune, reg, suffix);
        SameUnderIsSame(limit, fs, fs', prefix, n);
      }
    }
  }

  lemma SameUnderIsSame(limit: nat, fs: FS, fs': FS, prefix: Path, n: string)
    requires Inv(limit, fs, prefix) && Inv(limit, fs', prefix) && SameUnder(fs, fs', StorePath(prefix, n))
    ensures Outcomes.PackageSame(limit, fs, fs', prefix, n)
  {
    MetaUnder(fs, fs', prefix, n);
    if Installed(fs, prefix, n) {
      InstalledIsReal(fs, prefix, n);
      SameIsAlike(fs, fs', StorePath(prefix, n));
      FilesStable(limit, fs, fs', prefix, n);
    }
  }

  lemma SyncedStore(limit: nat, fs: FS, planned: FS, built: FS, fs': FS, prefix: Path, n: string, artifact: Artifact, force: bool)
    requires StoreAfter(limit, fs, planned, prefix, n, artifact, force)
    requires SameUnder(planned, built, StorePath(prefix, n)) && SameUnder(built, fs', StorePath(prefix, n))
    ensures StoreAfter(limit, fs, fs', prefix, n, artifact, force) && PlainMeta(fs', prefix, n) == PlainMeta(planned, prefix, n)
  {
    UnderThen(planned, built, fs', StorePath(prefix, n));
    StoreAfterStays(limit, fs, planned, fs', prefix, n, artifact, force);
    MetaUnder(planned, fs', prefix, n);
  }
}
