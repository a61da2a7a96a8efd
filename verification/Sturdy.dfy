/** A linked package can always be unlinked again: over every run its files can be
    collected and only real directories lie above its links (cmd/binman/install.go). */
module Sturdy {
  import opened Lexical
  import opened FileTree
  import opened Aggregate
  import opened Prefix
  import opened Install
  import opened Lifecycle
  import opened Plan
  import opened Commands
  import opened ManifestPlan
  import opened Manifest
  import opened Outcomes

  /** If n is installed and linked, it can be collected and its links have real parents. */
  ghost predicate LinkedReal(limit: nat, fs: FS, prefix: Path, n: string) {
    Installed(fs, prefix, n) && PlainMeta(fs, prefix, n).value.linked ==>
      && Files(limit, fs, prefix, n).Ok?
      && forall p :: IsAbove(prefix, Files(limit, fs, prefix, n).value, p) ==> RealDir(fs, p)
  }

  ghost predicate AllLinkedReal(limit: nat, fs: FS, prefix: Path) {
    forall n :: LinkedReal(limit, fs, prefix, n)
  }

  ghost predicate IsSturdy(limit: nat, fs: FS, prefix: Path) {
    Inv(limit, fs, prefix) && AllLinkedReal(limit, fs, prefix)
  }

  /** Directories at the root of the prefix and above it stay. */
  ghost predicate RootDirsStay(fs: FS, fs': FS, prefix: Path) {
    forall p :: RealDir(fs, p) && (InRoot(prefix, p) || p <= prefix) ==> RealDir(fs', p)
  }

  lemma StaysLinkedReal(limit: nat, fs: FS, fs': FS, prefix: Path, n: string)
    requires Ready(fs, prefix) && LinkedReal(limit, fs, prefix, n) && RootDirsStay(fs, fs', prefix)
    requires PackageSame(limit, fs, fs', prefix, n)
    ensures LinkedReal(limit, fs', prefix, n)
  {
    if Installed(fs', prefix, n) && PlainMeta(fs', prefix, n).value.linked {
      InstalledIsReal(fs, prefix, n);
      FilesInRoot(limit, fs, prefix, n);
      forall p | IsAbove(prefix, Files(limit, fs, prefix, n).value, p) ensures RealDir(fs', p) {
        assert RealDir(fs, p) && (InRoot(prefix, p) || p <= prefix);
      }
    }
  }

  /** Unlinking a linked package at the root never fails. */
  lemma UnlinkSucceeds(limit: nat, fs: FS, prefix: Path, n: string)
    requires Ready(fs, prefix) && LinkedReal(limit, fs, prefix, n)
    requires Installed(fs, prefix, n) && PlainMeta(fs, prefix, n).value.linked
    ensures UnlinkPkgFrom(limit, fs, prefix, n, prefix).ok
  {
    InstalledIsReal(fs, prefix, n);
    FilesInRoot(limit, fs, prefix, n);
    var files := Files(limit, fs, prefix, n).value;
    AllRealAllows(fs, prefix, files);
    UnlinkFilesEffect(fs, prefix, StorePath(prefix, n), files);
  }

  // ----- every step keeps it -----

  lemma JobKeepsSturdy(limit: nat, fs: FS, fs': FS, prefix: Path, job: Job)
    requires IsSturdy(limit, fs, prefix) && JobDone(limit, fs, fs', prefix, job)
    ensures IsSturdy(limit, fs', prefix)
  {
    JobKeepsInv(limit, fs, fs', prefix, job);
    assert |prefix| < |StorePath(prefix, job.name)|;
    forall n ensures LinkedReal(limit, fs', prefix, n) {
      if n != job.name {
        OthersStable(limit, fs, fs', prefix, job.name, n);
        assert StorePath(prefix, job.name)[|prefix|] == "store";
        StaysLinkedReal(limit, fs, fs', prefix, n);
      }
    }
  }

  /** Dropping a store nothing links to, or changing profile trees only. */
  lemma FrameKeepsSturdy(limit: nat, fs: FS, fs': FS, prefix: Path, gone: string)
    requires IsSturdy(limit, fs, prefix) && Inv(limit, fs', prefix) && RootDirsStay(fs, fs', prefix)
    requires forall n :: n != gone ==> PackageSame(limit, fs, fs', prefix, n)
    requires PackageSame(limit, fs, fs', prefix, gone) || !Installed(fs', prefix, gone)
    ensures IsSturdy(limit, fs', prefix)
  {
    forall n ensures LinkedReal(limit, fs', prefix, n) {
      if Installed(fs', prefix, n) { StaysLinkedReal(limit, fs, fs', prefix, n); }
    }
  }

  lemma PrepareOneKeepsSturdy(limit: nat, fs: FS, prefix: Path, n: string)
    requires IsSturdy(limit, fs, prefix) && ValidName(n) && PrepareOne(limit, fs, prefix, n).ok
    ensures IsSturdy(limit, PrepareOne(limit, fs, prefix, n).fs, prefix)
  {
    var fs' := PrepareOne(limit, fs, prefix, n).fs;
    PrepareOneKeeps(limit, fs, prefix, n);
    forall m ensures PackageSame(limit, fs, fs', prefix, m) { PrepareOneLeaves(limit, fs, prefix, n, m); }
    assert |prefix| < |StorePath(prefix, n)| && StorePath(prefix, n)[|prefix|] == "store";
    FrameKeepsSturdy(limit, fs, fs', prefix, n);
  }

  lemma {:induction false} PrepareKeepsSturdy(limit: nat, fs: FS, prefix: Path, ts: seq<Target>, reg: Registry, force: bool)
    requires AllPublished(ts, reg) && IsSturdy(limit, fs, prefix) && Prepare(limit, fs, prefix, ts, reg, force).ok
    requires forall i :: 0 <= i < |ts| ==> ValidName(ts[i].name)
    ensures IsSturdy(limit, Prepare(limit, fs, prefix, ts, reg, force).fs, prefix)
    decreases |ts|
  {
    if ts != [] {
      PrepareOneKeepsSturdy(limit, fs, prefix, ts[0].name);
      PrepareKeepsSturdy(limit, PrepareOne(limit, fs, prefix, ts[0].name).fs, prefix, ts[1..], reg, force);
    }
  }

  lemma {:induction false} TraceIsSturdy(limit: nat, states: seq<FS>, prefix: Path, jobs: seq<Job>, k: nat)
    requires Trace(limit, states, prefix, jobs) && k <= |jobs| && IsSturdy(limit, states[0], prefix)
    ensures IsSturdy(limit, states[k], prefix)
  {
    if k > 0 {
      TraceIsSturdy(limit, states, prefix, jobs, k - 1);
      StepOf(limit, states, prefix, jobs, k - 1);
      JobKeepsSturdy(limit, states[k - 1], states[k], prefix, jobs[k - 1]);
    }
  }

  lemma PlanKeepsSturdy(limit: nat, fs: FS, prefix: Path, targets: seq<Target>, arch: string, force: bool, reg: Registry, suffix: string)
    requires IsSturdy(limit, fs, prefix) && TameRegistry(prefix, reg, suffix) && DistinctTargets(targets)
    requires InstallPlan(limit, fs, prefix, targets, arch, force, reg, suffix).ok
    ensures IsSturdy(limit, InstallPlan(limit, fs, prefix, targets, arch, force, reg, suffix).fs, prefix)
  {
    PlanStarts(limit, fs, prefix, targets, arch, force, reg, suffix);
    var ts := ResolveTargets(targets, arch).value;
    PrepareKeepsSturdy(limit, fs, prefix, ts, reg, force);
    var p := Prepare(limit, fs, prefix, ts, reg, force);
    var states := RunIsTraced(limit, p.fs, prefix, p.jobs, suffix);
    TraceIsSturdy(limit, states, prefix, p.jobs, |p.jobs|);
  }

  lemma RemoveKeepsSturdy(limit: nat, fs: FS, prefix: Path, n: string)
    requires IsSturdy(limit, fs, prefix) && Remove(limit, fs, prefix, n).ok
    ensures IsSturdy(limit, Remove(limit, fs, prefix, n).fs, prefix)
  {
    var fs' := Remove(limit, fs, prefix, n).fs;
    RemoveKeeps(limit, fs, prefix, n);
    assert |prefix| < |StorePath(prefix, n)| && StorePath(prefix, n)[|prefix|] == "store";
    forall p | RealDir(fs, p) && (InRoot(prefix, p) || p <= prefix) ensures RealDir(fs', p) {
      RemoveTakesOnly(limit, fs, prefix, n, p);
    }
    FrameKeepsSturdy(limit, fs, fs', prefix, n);
  }

  lemma {:induction false} PruneKeepsSturdy(limit: nat, fs: FS, prefix: Path, installed: seq<string>, wanted: set<string>)
    requires IsSturdy(limit, fs, prefix) && PruneAll(limit, fs, prefix, installed, wanted).ok
    ensures IsSturdy(limit, PruneAll(limit, fs, prefix, installed, wanted).fs, prefix)
    decreases |installed|
  {
    if installed != [] {
      if installed[0] in wanted {
        PruneKeepsSturdy(limit, fs, prefix, installed[1..], wanted);
      } else {
        RemoveKeepsSturdy(limit, fs, prefix, installed[0]);
        PruneKeepsSturdy(limit, Remove(limit, fs, prefix, installed[0]).fs, prefix, installed[1..], wanted);
      }
    }
  }

  lemma RebuildKeepsSturdy(limit: nat, fs: FS, prefix: Path, config: Config)
    requires IsSturdy(limit, fs, prefix) && ValidConfig(config)
    ensures IsSturdy(limit, RebuildProfiles(limit, fs, prefix, config).fs, prefix)
  {
    var fs' := RebuildProfiles(limit, fs, prefix, config).fs;
    RebuildKeeps(limit, fs, prefix, config);
    ProfileOnlyFrames(fs, fs', prefix);
    FrameKeepsSturdy(limit, fs, fs', prefix, "");
  }

  lemma SyncKeepsSturdy(limit: nat, fs: FS, prefix: Path, config: Config, arch: string, archSet: bool, force: bool, prune: bool,
                        reg: Registry, suffix: string)
    requires IsSturdy(limit, fs, prefix) && TameRegistry(prefix, reg, suffix)
    requires Sync(limit, fs, prefix, config, arch, archSet, force, prune, reg, suffix).ok
    ensures IsSturdy(limit, Sync(limit, fs, prefix, config, arch, archSet, force, prune, reg, suffix).fs, prefix)
  {
    var plan, a := PlanOf(config), SyncArch(config, arch, archSet);
    PlanKeepsSturdy(limit, fs, prefix, plan, a, force, reg, suffix);
    var s1 := InstallPlan(limit, fs, prefix, plan, a, force, reg, suffix);
    RebuildKeepsSturdy(limit, s1.fs, prefix, config);
    var s2 := RebuildProfiles(limit, s1.fs, prefix, config);
    if prune {
      PruneKeepsSturdy(limit, s2.fs, prefix, InstalledNames(limit, s2.fs, prefix).value, PlanNames(config));
    }
  }

  lemma CommandKeepsSturdy(limit: nat, fs: FS, prefix: Path, c: Command)
    requires IsSturdy(limit, fs, prefix) && TameCommand(prefix, c) && Execute(limit, fs, prefix, c).ok
    ensures IsSturdy(limit, Execute(limit, fs, prefix, c).fs, prefix)
  {
    match c {
      case InstallCmd(names, arch, linked, force, reg, suffix) =>
        PlanKeepsSturdy(limit, fs, prefix, InstallTargets(names, arch, linked, {}), arch, force, reg, suffix);
      case UpgradeCmd(arch, names, reg, suffix) =>
        var all := if names == [] then InstalledNames(limit, fs, prefix).value else names;
        if all != [] {
          PlanKeepsSturdy(limit, fs, prefix, UpgradeTargets(limit, fs, prefix, arch, all, {}).value, arch, false, reg, suffix);
        }
      case RemoveCmd(name) => RemoveKeepsSturdy(limit, fs, prefix, name);
      case SyncCmd(config, arch, archSet, force, prune, reg, suffix) =>
        SyncKeepsSturdy(limit, fs, prefix, config, arch, archSet, force, prune, reg, suffix);
    }
  }

  lemma {:induction false} RunKeepsSturdy(limit: nat, fs: FS, prefix: Path, cs: seq<Command>, fs': FS)
    requires IsSturdy(limit, fs, prefix) && Runs(limit, fs, prefix, cs, fs')
    ensures IsSturdy(limit, fs', prefix)
    decreases |cs|
  {
    if cs != [] {
      CommandKeepsSturdy(limit, fs, prefix, cs[0]);
      RunKeepsSturdy(limit, Execute(limit, fs, prefix, cs[0]).fs, prefix, cs[1..], fs');
    }
  }

  /** From an empty prefix, after any run of successful commands, every linked package can
      be unlinked at the root again. */
  lemma LinkedCanBeUnlinked(limit: nat, fs: FS, prefix: Path, cs: seq<Command>, fs': FS, n: string)
    requires WF(fs) && RealDir(fs, prefix) && Childless(fs, prefix) && Runs(limit, fs, prefix, cs, fs')
    requires Installed(fs', prefix, n) && PlainMeta(fs', prefix, n).value.linked
    ensures UnlinkPkgFrom(limit, fs', prefix, n, prefix).ok
  {
    EmptyPrefix(limit, fs, prefix);
    EmptyIsSturdy(limit, fs, prefix);
    RunKeepsSturdy(limit, fs, prefix, cs, fs');
    UnlinkSucceeds(limit, fs', prefix, n);
  }

  lemma EmptyIsSturdy(limit: nat, fs: FS, prefix: Path)
    requires WF(fs) && RealDir(fs, prefix) && Childless(fs, prefix)
    ensures IsSturdy(limit, fs, prefix)
  {
    EmptyPrefix(limit, fs, prefix);
    forall n ensures LinkedReal(limit, fs, prefix, n) { assert prefix < MetaPath(prefix, n); }
  }
}
