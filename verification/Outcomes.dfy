/** What install, upgrade and remove leave behind, package by package
    (cmd/binman/install.go). */
module Outcomes {
  import opened Options
  import opened Lexical
  import opened FileTree
  import opened Aggregate
  import opened Prefix
  import opened Install
  import opened Lifecycle
  import opened Plan
  import opened Commands
  import Settle
  import Converge

  ghost predicate Targeted(ts: seq<Target>, n: string) {
    exists i :: 0 <= i < |ts| && ts[i].name == n
  }

  /** The package's record, and what it offers if installed, are as before. */
  ghost predicate PackageSame(limit: nat, fs: FS, fs': FS, prefix: Path, n: string) {
    && PlainMeta(fs', prefix, n) == PlainMeta(fs, prefix, n)
    && (Installed(fs, prefix, n) ==> Files(limit, fs', prefix, n) == Files(limit, fs, prefix, n))
  }

  // ----- an install plan -----

  lemma PrepareOneLeaves(limit: nat, fs: FS, prefix: Path, n: string, m: string)
    requires Inv(limit, fs, prefix) && ValidName(n) && PrepareOne(limit, fs, prefix, n).ok
    ensures PackageSame(limit, fs, PrepareOne(limit, fs, prefix, n).fs, prefix, m)
  {
    PrepareOneKeeps(limit, fs, prefix, n);
    if PlainMeta(fs, prefix, n).None? {
      InvListsOwnLinks(limit, fs, prefix, n);
      RemoveStoreKeepsInv(limit, fs, prefix, n);
    }
  }

  lemma {:induction false} PrepareLeaves(limit: nat, fs: FS, prefix: Path, ts: seq<Target>, reg: Registry, force: bool, m: string)
    requires AllPublished(ts, reg) && Inv(limit, fs, prefix) && Prepare(limit, fs, prefix, ts, reg, force).ok
    requires forall i :: 0 <= i < |ts| ==> ValidName(ts[i].name)
    ensures PackageSame(limit, fs, Prepare(limit, fs, prefix, ts, reg, force).fs, prefix, m)
    decreases |ts|
  {
    if ts != [] {
      PrepareOneKeeps(limit, fs, prefix, ts[0].name);
      PrepareOneLeaves(limit, fs, prefix, ts[0].name, m);
      PrepareLeaves(limit, PrepareOne(limit, fs, prefix, ts[0].name).fs, prefix, ts[1..], reg, force, m);
    }
  }

  lemma CommitLeaves(limit: nat, fs: FS, prefix: Path, jobs: seq<Job>, suffix: string, n: string)
    requires Starts(limit, fs, prefix, jobs, 0, suffix) && CommitFrom(limit, fs, prefix, jobs, 0, suffix).ok
    requires forall i :: 0 <= i < |jobs| ==> jobs[i].name != n
    ensures PackageSame(limit, fs, CommitFrom(limit, fs, prefix, jobs, 0, suffix).fs, prefix, n)
  {
    var states := RunIsTraced(limit, fs, prefix, jobs, suffix);
    Settle.RunLeavesOthers(limit, states, prefix, jobs, 0, n);
  }

  /** The commit loop starts with what it needs. */
  lemma PlanStarts(limit: nat, fs: FS, prefix: Path, targets: seq<Target>, arch: string, force: bool, reg: Registry, suffix: string)
    requires Inv(limit, fs, prefix) && TameRegistry(prefix, reg, suffix) && DistinctTargets(targets)
    requires InstallPlan(limit, fs, prefix, targets, arch, force, reg, suffix).ok
    ensures ResolveTargets(targets, arch).Ok? && AllPublished(ResolveTargets(targets, arch).value, reg)
    ensures var ts := ResolveTargets(targets, arch).value;
      var p := Prepare(limit, fs, prefix, ts, reg, force);
      && p.ok && JobsFor(p.jobs, ts, reg, force) && Starts(limit, p.fs, prefix, p.jobs, 0, suffix)
      && CommitFrom(limit, p.fs, prefix, p.jobs, 0, suffix) == InstallPlan(limit, fs, prefix, targets, arch, force, reg, suffix)
  {
    var ts := ResolveTargets(targets, arch).value;
    Converge.ResolvedNamed(targets, arch);
    Prepares(limit, fs, prefix, ts, reg, force);
    JobsInstallable(prefix, Prepare(limit, fs, prefix, ts, reg, force).jobs, ts, reg, force, suffix);
  }

  ghost predicate RecordedAs(fs': FS, prefix: Path, t: Target, arch: string, reg: Registry) {
    var a := if t.arch == "" then arch else t.arch;
    (t.name, a) in reg && PlainMeta(fs', prefix, t.name) == Some(Meta(t.name, a, reg[(t.name, a)].digest, t.linked))
  }

  lemma TargetOutcome(limit: nat, fs: FS, prefix: Path, targets: seq<Target>, arch: string, force: bool,
                      reg: Registry, suffix: string, i: nat)
    requires Inv(limit, fs, prefix) && TameRegistry(prefix, reg, suffix) && DistinctTargets(targets) && i < |targets|
    requires InstallPlan(limit, fs, prefix, targets, arch, force, reg, suffix).ok
    ensures RecordedAs(InstallPlan(limit, fs, prefix, targets, arch, force, reg, suffix).fs, prefix, targets[i], arch, reg)
  {
    Converge.InstallPlanSettles(limit, fs, prefix, targets, arch, force, reg, suffix);
    var ts := ResolveTargets(targets, arch).value;
    assert ts[i].name == targets[i].name;
  }

  lemma OthersOutcome(limit: nat, fs: FS, prefix: Path, targets: seq<Target>, arch: string, force: bool,
                      reg: Registry, suffix: string, n: string)
    requires Inv(limit, fs, prefix) && TameRegistry(prefix, reg, suffix) && DistinctTargets(targets)
    requires InstallPlan(limit, fs, prefix, targets, arch, force, reg, suffix).ok && !Targeted(targets, n)
    ensures PackageSame(limit, fs, InstallPlan(limit, fs, prefix, targets, arch, force, reg, suffix).fs, prefix, n)
  {
    var ts := ResolveTargets(targets, arch).value;
    PlanStarts(limit, fs, prefix, targets, arch, force, reg, suffix);
    PrepareLeaves(limit, fs, prefix, ts, reg, force, n);
    var p := Prepare(limit, fs, prefix, ts, reg, force);
    forall i | 0 <= i < |p.jobs| ensures p.jobs[i].name != n { assert targets[i].name == ts[i].name; }
    CommitLeaves(limit, p.fs, prefix, p.jobs, suffix, n);
  }

  /** A plan records each target as published and leaves every other package alone. */
  lemma PlanOutcome(limit: nat, fs: FS, prefix: Path, targets: seq<Target>, arch: string, force: bool,
                    reg: Registry, suffix: string, n: string)
    requires Inv(limit, fs, prefix) && TameRegistry(prefix, reg, suffix) && DistinctTargets(targets)
    requires InstallPlan(limit, fs, prefix, targets, arch, force, reg, suffix).ok
    ensures var fs' := InstallPlan(limit, fs, prefix, targets, arch, force, reg, suffix).fs;
      && (!Targeted(targets, n) ==> PackageSame(limit, fs, fs', prefix, n))
      && (forall i :: 0 <= i < |targets| && targets[i].name == n ==> RecordedAs(fs', prefix, targets[i], arch, reg))
  {
    if !Targeted(targets, n) { OthersOutcome(limit, fs, prefix, targets, arch, force, reg, suffix, n); }
    forall i | 0 <= i < |targets| && targets[i].name == n
      ensures RecordedAs(InstallPlan(limit, fs, prefix, targets, arch, force, reg, suffix).fs, prefix, targets[i], arch, reg)
    {
      TargetOutcome(limit, fs, prefix, targets, arch, force, reg, suffix, i);
    }
  }

  // ----- install and upgrade -----

  lemma {:induction false} InstallTargetsMean(names: seq<string>, arch: string, linked: bool, seen: set<string>, n: string)
    ensures var ts := InstallTargets(names, arch, linked, seen);
      && (Targeted(ts, n) <==> n in names && n !in seen)
      && (forall i :: 0 <= i < |ts| ==> ts[i].arch == arch && ts[i].linked == linked)
    decreases |names|
  {
    if names != [] {
      var first := names[0];
      var rest := InstallTargets(names[1..], arch, linked, if first in seen then seen else seen + {first});
      InstallTargetsMean(names[1..], arch, linked, if first in seen then seen else seen + {first}, n);
      if first !in seen { TargetedCons(Target(first, arch, linked), rest, n); }
    }
  }

  lemma TargetedCons(t: Target, rest: seq<Target>, n: string)
    ensures Targeted([t] + rest, n) <==> t.name == n || Targeted(rest, n)
  {
    var ts := [t] + rest;
    assert ts[0] == t && forall i :: 0 <= i < |rest| ==> ts[i + 1] == rest[i];
    if Targeted(rest, n) {
      var i :| 0 <= i < |rest| && rest[i].name == n;
      assert ts[i + 1].name == n;
    }
  }

  /** Every name is installed from the published artifact with the asked link state. */
  lemma InstallMeans(limit: nat, fs: FS, prefix: Path, names: seq<string>, arch: string, linked: bool, force: bool,
                     reg: Registry, suffix: string, n: string)
    requires Inv(limit, fs, prefix) && TameRegistry(prefix, reg, suffix)
    requires InstallPackages(limit, fs, prefix, names, arch, linked, force, reg, suffix).ok
    ensures var fs' := InstallPackages(limit, fs, prefix, names, arch, linked, force, reg, suffix).fs;
      if n in names then (n, arch) in reg && PlainMeta(fs', prefix, n) == Some(Meta(n, arch, reg[(n, arch)].digest, linked))
      else PackageSame(limit, fs, fs', prefix, n)
  {
    var ts := InstallTargets(names, arch, linked, {});
    InstallTargetsMean(names, arch, linked, {}, n);
    PlanOutcome(limit, fs, prefix, ts, arch, force, reg, suffix, n);
    if n in names { var i :| 0 <= i < |ts| && ts[i].name == n; }
  }

  /** The target asks for what is on record, with another architecture if one is given. */
  ghost predicate AsRecorded(limit: nat, fs: FS, prefix: Path, arch: string, t: Target) {
    var was := ReadMeta(limit, fs, prefix, t.name);
    was.Some? && ValidName(t.name) && t.linked == was.value.linked && t.arch == if arch != "" then arch else was.value.arch
  }

  lemma {:induction false} UpgradeTargetsMean(limit: nat, fs: FS, prefix: Path, arch: string, names: seq<string>,
                                              seen: set<string>, n: string)
    requires UpgradeTargets(limit, fs, prefix, arch, names, seen).Ok?
    ensures var ts := UpgradeTargets(limit, fs, prefix, arch, names, seen).value;
      && (Targeted(ts, n) <==> n in names && n !in seen)
      && (forall i :: 0 <= i < |ts| ==> AsRecorded(limit, fs, prefix, arch, ts[i]))
    decreases |names|
  {
    if names != [] {
      var first := names[0];
      var seen' := if first in seen then seen else seen + {first};
      UpgradeTargetsMean(limit, fs, prefix, arch, names[1..], seen', n);
      if first !in seen {
        var metadata := ReadMeta(limit, fs, prefix, first).value;
        TargetedCons(Target(first, if arch != "" then arch else metadata.arch, metadata.linked),
                     UpgradeTargets(limit, fs, prefix, arch, names[1..], seen').value, n);
      }
    }
  }

  /** The names an upgrade is about: those given, or else every installed package. */
  function Upgraded(limit: nat, fs: FS, prefix: Path, names: seq<string>): Result<seq<string>> {
    if names == [] then InstalledNames(limit, fs, prefix) else Ok(names)
  }

  ghost predicate UpgradedTo(fs: FS, fs': FS, prefix: Path, arch: string, reg: Registry, n: string) {
    var was := PlainMeta(fs, prefix, n);
    was.Some? &&
    var a := if arch != "" then arch else was.value.arch;
    (n, a) in reg && PlainMeta(fs', prefix, n) == Some(Meta(n, a, reg[(n, a)].digest, was.value.linked))
  }

  lemma UpgradeOutcome(limit: nat, fs: FS, prefix: Path, arch: string, ts: seq<Target>, reg: Registry, suffix: string, n: string)
    requires Inv(limit, fs, prefix) && TameRegistry(prefix, reg, suffix) && DistinctTargets(ts)
    requires InstallPlan(limit, fs, prefix, ts, arch, false, reg, suffix).ok
    requires forall i :: 0 <= i < |ts| ==> AsRecorded(limit, fs, prefix, arch, ts[i])
    ensures var fs' := InstallPlan(limit, fs, prefix, ts, arch, false, reg, suffix).fs;
      if Targeted(ts, n) then UpgradedTo(fs, fs', prefix, arch, reg, n) else PackageSame(limit, fs, fs', prefix, n)
  {
    PlanOutcome(limit, fs, prefix, ts, arch, false, reg, suffix, n);
    if Targeted(ts, n) {
      var i :| 0 <= i < |ts| && ts[i].name == n;
      assert AsRecorded(limit, fs, prefix, arch, ts[i]);
      TargetReads(limit, fs, prefix, n);
    }
  }

  /** Upgrading installs nothing new, keeps each package's link state and (unless one is
      given) its architecture, and brings its record to what is published. */
  lemma UpgradeMeans(limit: nat, fs: FS, prefix: Path, arch: string, names: seq<string>, reg: Registry, suffix: string, n: string)
    requires Inv(limit, fs, prefix) && TameRegistry(prefix, reg, suffix)
    requires Upgrade(limit, fs, prefix, arch, names, reg, suffix).ok
    ensures Upgraded(limit, fs, prefix, names).Ok?
    ensures var fs' := Upgrade(limit, fs, prefix, arch, names, reg, suffix).fs;
      if n in Upgraded(limit, fs, prefix, names).value then UpgradedTo(fs, fs', prefix, arch, reg, n)
      else PackageSame(limit, fs, fs', prefix, n)
  {
    var all := Upgraded(limit, fs, prefix, names).value;
    if all != [] {
      UpgradeTargetsMean(limit, fs, prefix, arch, all, {}, n);
      UpgradeOutcome(limit, fs, prefix, arch, UpgradeTargets(limit, fs, prefix, arch, all, {}).value, reg, suffix, n);
    }
  }

  // ----- remove -----

  /** Nothing but links that lexically name something inside the store is gone. */
  ghost predicate RemovesLinks(fs: FS, fs': FS, store: Path) {
    forall p :: SameAt(fs, fs', p) || (p !in fs' && LinksInto(fs, p, store))
  }

  predicate LinksInto(fs: FS, p: Path, store: Path) {
    p in fs && fs[p].Link? && store < LinkTarget(Parent(p), fs[p].text)
  }

  lemma UnlinkRemoves(fs: FS, fs': FS, root: Path, store: Path, files: seq<Path>)
    requires Unlinked(fs, fs', root, store, files) && forall i :: 0 <= i < |files| ==> files[i] != []
    ensures RemovesLinks(fs, fs', store)
  {
    forall p ensures SameAt(fs, fs', p) || (p !in fs' && LinksInto(fs, p, store)) {
      if Owned(fs, root, store, files, p) {
        var i :| 0 <= i < |files| && p == root + files[i] && PointsTo(fs, p, store + files[i]);
        assert store < store + files[i];
      }
    }
  }

  lemma RemovesTwice(fs: FS, mid: FS, fs': FS, store: Path)
    requires RemovesLinks(fs, mid, store) && RemovesLinks(mid, fs', store)
    ensures RemovesLinks(fs, fs', store)
  {
    forall p ensures SameAt(fs, fs', p) || (p !in fs' && LinksInto(fs, p, store)) {
      assert SameAt(fs, mid, p) || (p !in mid && LinksInto(fs, p, store));
      assert SameAt(mid, fs', p) || (p !in fs' && LinksInto(mid, p, store));
    }
  }

  lemma UnlinkedRoot(limit: nat, fs: FS, prefix: Path, n: string)
    requires Ready(fs, prefix) && IsName(n) && UnlinkPkgFrom(limit, fs, prefix, n, prefix).ok
    ensures RemovesLinks(fs, UnlinkPkgFrom(limit, fs, prefix, n, prefix).fs, StorePath(prefix, n))
  {
    UnlinkRoot(limit, fs, prefix, n);
    FilesInRoot(limit, fs, prefix, n);
    UnlinkRemoves(fs, UnlinkPkgFrom(limit, fs, prefix, n, prefix).fs, prefix, StorePath(prefix, n), Files(limit, fs, prefix, n).value);
  }

  /** Unlinking from one profile of the list, for an installed package. */
  lemma FirstUnlinked(limit: nat, fs: FS, prefix: Path, n: string, profiles: seq<string>) returns (mid: FS)
    requires Inv(limit, fs, prefix) && Installed(fs, prefix, n) && profiles != []
    requires UnlinkProfiles(limit, fs, prefix, n, profiles).ok
    ensures Inv(limit, mid, prefix) && Installed(mid, prefix, n) && Files(limit, mid, prefix, n) == Files(limit, fs, prefix, n)
    ensures UnlinkProfiles(limit, mid, prefix, n, profiles[1..]) == UnlinkProfiles(limit, fs, prefix, n, profiles)
    ensures RemovesLinks(fs, mid, StorePath(prefix, n))
    ensures Files(limit, fs, prefix, n).Ok?
    ensures Unlinked(fs, mid, ProfilePath(prefix, profiles[0]), StorePath(prefix, n), Files(limit, fs, prefix, n).value)
  {
    InstalledIsReal(fs, prefix, n);
    var root := ProfilePath(prefix, profiles[0]);
    UnlinkFromProfile(limit, fs, prefix, n, profiles[0]);
    FilesInRoot(limit, fs, prefix, n);
    mid := UnlinkPkgFrom(limit, fs, prefix, n, root).fs;
    UnlinkRemoves(fs, mid, root, StorePath(prefix, n), Files(limit, fs, prefix, n).value);
    ProfileOnlyKeepsInv(limit, fs, mid, prefix);
  }

  lemma {:induction false} UnlinkProfilesRemoves(limit: nat, fs: FS, prefix: Path, n: string, profiles: seq<string>)
    requires Inv(limit, fs, prefix) && Installed(fs, prefix, n) && UnlinkProfiles(limit, fs, prefix, n, profiles).ok
    ensures RemovesLinks(fs, UnlinkProfiles(limit, fs, prefix, n, profiles).fs, StorePath(prefix, n))
    decreases |profiles|
  {
    if profiles != [] {
      var mid := FirstUnlinked(limit, fs, prefix, n, profiles);
      UnlinkProfilesRemoves(limit, mid, prefix, n, profiles[1..]);
      RemovesTwice(fs, mid, UnlinkProfiles(limit, fs, prefix, n, profiles).fs, StorePath(prefix, n));
    }
  }

  /** No profile of the list still links q to the package's file. */
  lemma {:induction false} UnlinkProfilesClears(limit: nat, fs: FS, prefix: Path, n: string, profiles: seq<string>, x: string, q: Path)
    requires Inv(limit, fs, prefix) && Installed(fs, prefix, n) && UnlinkProfiles(limit, fs, prefix, n, profiles).ok
    requires x in profiles && Files(limit, fs, prefix, n).Ok? && q in Files(limit, fs, prefix, n).value
    ensures !PointsTo(UnlinkProfiles(limit, fs, prefix, n, profiles).fs, ProfilePath(prefix, x) + q, StorePath(prefix, n) + q)
    decreases |profiles|
  {
    var mid := FirstUnlinked(limit, fs, prefix, n, profiles);
    if x == profiles[0] {
      UnlinkedAt(fs, mid, ProfilePath(prefix, x), StorePath(prefix, n), Files(limit, fs, prefix, n).value, q);
      UnlinkProfilesRemoves(limit, mid, prefix, n, profiles[1..]);
      var fs' := UnlinkProfiles(limit, fs, prefix, n, profiles).fs;
      var p := ProfilePath(prefix, x) + q;
      assert SameAt(mid, fs', p) || (p !in fs' && LinksInto(mid, p, StorePath(prefix, n)));
    } else {
      UnlinkProfilesClears(limit, mid, prefix, n, profiles[1..], x, q);
    }
  }

  lemma UnlinkedAt(fs: FS, fs': FS, root: Path, store: Path, files: seq<Path>, q: Path)
    requires Unlinked(fs, fs', root, store, files) && q in files
    ensures !PointsTo(fs', root + q, store + q)
  {
    var i :| 0 <= i < |files| && files[i] == q;
    assert PointsTo(fs, root + files[i], store + files[i]) ==> Owned(fs, root, store, files, root + q);
    assert !Owned(fs, root, store, files, root + q) ==> SameAt(fs, fs', root + q);
  }

  /** The two unlinking phases of a removal. */
  lemma RemovePhases(limit: nat, fs: FS, prefix: Path, n: string) returns (fs1: FS, fs2: FS, profiles: seq<string>)
    requires Inv(limit, fs, prefix) && Remove(limit, fs, prefix, n).ok
    ensures Installed(fs, prefix, n) && IsName(n)
    ensures Inv(limit, fs1, prefix) && Installed(fs1, prefix, n) && RootOnly(fs, fs1, prefix)
    ensures RemovesLinks(fs, fs1, StorePath(prefix, n))
    ensures Files(limit, fs1, prefix, n) == Files(limit, fs, prefix, n)
    ensures UnlinkProfiles(limit, fs1, prefix, n, profiles) == Step(fs2, true)
    ensures forall x :: x in profiles <==> RealDir(fs1, ProfilePath(prefix, x))
    ensures Remove(limit, fs, prefix, n) == Step(RemoveTree(fs2, StorePath(prefix, n)), true)
  {
    ReadMetaIsPlainFor(limit, fs, prefix, n);
    var linked := ReadMeta(limit, fs, prefix, n).value.linked;
    fs1 := if linked then UnlinkPkgFrom(limit, fs, prefix, n, prefix).fs else fs;
    if linked {
      UnlinkKeepsInv(limit, fs, prefix, n);
      UnlinkedRoot(limit, fs, prefix, n);
    }
    RootOnlyStores(limit, fs, fs1, prefix, n);
    var parent := prefix + ["profile"];
    profiles := DirNames(fs1, parent, ReadDir(fs1, parent));
    fs2 := UnlinkProfiles(limit, fs1, prefix, n, profiles).fs;
    forall x ensures x in profiles <==> RealDir(fs1, ProfilePath(prefix, x)) {
      assert parent + [x] == ProfilePath(prefix, x);
    }
  }

  lemma ReadMetaIsPlainFor(limit: nat, fs: FS, prefix: Path, n: string)
    requires Inv(limit, fs, prefix) && ValidName(n)
    ensures ReadMeta(limit, fs, prefix, n) == PlainMeta(fs, prefix, n) && IsName(n)
  {
    TargetReads(limit, fs, prefix, n);
    Settle.ValidIsName(n);
  }

  /** Removing a package takes away its store, the links that name something in it, and
      nothing else. */
  lemma RemoveTakesOnly(limit: nat, fs: FS, prefix: Path, n: string, p: Path)
    requires Inv(limit, fs, prefix) && Remove(limit, fs, prefix, n).ok
    ensures var fs' := Remove(limit, fs, prefix, n).fs;
      if StorePath(prefix, n) <= p then p !in fs'
      else SameAt(fs, fs', p) || (p !in fs' && LinksInto(fs, p, StorePath(prefix, n)))
  {
    var fs1, fs2, profiles := RemovePhases(limit, fs, prefix, n);
    UnlinkProfilesRemoves(limit, fs1, prefix, n, profiles);
    RemovesTwice(fs, fs1, fs2, StorePath(prefix, n));
    assert SameAt(fs, fs2, p) || (p !in fs2 && LinksInto(fs, p, StorePath(prefix, n)));
  }

  /** Afterwards neither the root nor any profile directory links to what it offered. */
  lemma RemoveClears(limit: nat, fs: FS, prefix: Path, n: string, q: Path)
    requires Inv(limit, fs, prefix) && Remove(limit, fs, prefix, n).ok
    ensures var fs' := Remove(limit, fs, prefix, n).fs;
      var file := StorePath(prefix, n) + q;
      && (InRoot(prefix, prefix + q) ==> !PointsTo(fs', prefix + q, file))
      && (forall x :: RealDir(fs, ProfilePath(prefix, x)) && Files(limit, fs, prefix, n).Ok? && q in Files(limit, fs, prefix, n).value ==>
            !PointsTo(fs', ProfilePath(prefix, x) + q, file))
  {
    var fs' := Remove(limit, fs, prefix, n).fs;
    var fs1, fs2, profiles := RemovePhases(limit, fs, prefix, n);
    RemoveKeeps(limit, fs, prefix, n);
    InvListsOwnLinks(limit, fs', prefix, n);
    assert (prefix + q)[|prefix|..] == q;
    assert InRoot(prefix, prefix + q) ==> !NamesOwn(fs', prefix, n, prefix + q);
    forall x | RealDir(fs, ProfilePath(prefix, x)) && Files(limit, fs, prefix, n).Ok? && q in Files(limit, fs, prefix, n).value
      ensures !PointsTo(fs', ProfilePath(prefix, x) + q, StorePath(prefix, n) + q)
    {
      assert ProfilePath(prefix, x)[|prefix|] == "profile";
      assert SameAt(fs, fs1, ProfilePath(prefix, x));
      UnlinkProfilesClears(limit, fs1, prefix, n, profiles, x, q);
    }
  }
}
