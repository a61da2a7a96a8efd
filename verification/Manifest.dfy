/** `sync` against a manifest (cmd/binman/manifest.go), and every run of commands. */
module Manifest {
  import opened Lexical
  import opened FileTree
  import Collect
  import opened Aggregate
  import opened Prefix
  import opened Install
  import opened Lifecycle
  import opened Plan
  import opened Commands
  import opened ManifestPlan

  // ----- the profile trees -----

  /** Each profile directory that exists is real. */
  ghost predicate ProfilesReal(fs: FS, prefix: Path) {
    forall x :: ProfilePath(prefix, x) in fs ==> RealDir(fs, ProfilePath(prefix, x))
  }

  lemma ProfileRootable(fs: FS, prefix: Path, profile: string)
    requires Ready(fs, prefix) && ProfilesReal(fs, prefix) && IsName(profile)
    ensures Rootable(fs, ProfilePath(prefix, profile))
  {
    var root := ProfilePath(prefix, profile);
    var parent := prefix + ["profile"];
    assert Names(prefix) && Parent(root) == parent && Parent(parent) == prefix;
    ParentIsReal(fs, parent);
    forall q | q < root && q in fs ensures fs[q].Dir? {
      PrefixStep(q, root);
      if q != parent { assert q < parent; }
    }
  }

  /** Links the packages into one profile root, in order. */
  function LinkInto(limit: nat, fs: FS, prefix: Path, profile: string, packages: seq<string>): Step
    requires Ready(fs, prefix) && ProfilesReal(fs, prefix) && IsName(profile)
    requires forall i :: 0 <= i < |packages| ==> ValidName(packages[i])
    decreases |packages|
  {
    if packages == [] then Step(fs, true)
    else
      ProfileRootable(fs, prefix, profile);
      var s := LinkPkgInto(limit, fs, prefix, packages[0], ProfilePath(prefix, profile));
      ProfileLink(limit, fs, prefix, packages[0], profile);
      if s.ok then LinkInto(limit, s.fs, prefix, profile, packages[1..]) else s
  }

  lemma ProfileLink(limit: nat, fs: FS, prefix: Path, name: string, profile: string)
    requires Ready(fs, prefix) && ProfilesReal(fs, prefix) && IsName(profile) && ValidName(name)
    requires Rootable(fs, ProfilePath(prefix, profile))
    ensures var root := ProfilePath(prefix, profile);
      var s := LinkPkgInto(limit, fs, prefix, name, root);
      var r := Files(limit, fs, prefix, name);
      && Ready(s.fs, prefix) && ProfilesReal(s.fs, prefix) && ProfileOnly(fs, s.fs, prefix)
      && (s.ok <==> r.Ok? && forall i :: 0 <= i < |r.value| ==> !RealDir(fs, root + r.value[i]))
      && (s.ok ==> Collect.Linkable(r.value) && Linked(fs, s.fs, root, StorePath(prefix, name), r.value))
  {
    var root := ProfilePath(prefix, profile);
    var store := StorePath(prefix, name);
    assert Names(prefix);
    StageIsNamed(prefix, name, "");
    FilesInRoot(limit, fs, prefix, name);
    var s := LinkPkgInto(limit, fs, prefix, name, root);
    var r := Files(limit, fs, prefix, name);
    if r.Ok? {
      LinkFilesEffect(limit, fs, root, store, r.value);
      ProfileLinkZone(fs, s.fs, prefix, profile, r.value);
    }
  }

  lemma ProfileLinkZone(fs: FS, fs': FS, prefix: Path, profile: string, files: seq<Path>)
    requires Ready(fs, prefix) && ProfilesReal(fs, prefix) && WF(fs') && Rootable(fs', ProfilePath(prefix, profile))
    requires Collect.Linkable(files) && DirsStay(fs, fs') && Untouched(fs, fs', ProfilePath(prefix, profile), files)
    ensures Ready(fs', prefix) && ProfilesReal(fs', prefix) && ProfileOnly(fs, fs', prefix)
  {
    var root := ProfilePath(prefix, profile);
    var parent := prefix + ["profile"];
    assert parent < root;
    forall p | !InProfile(prefix, p) ensures SameAt(fs, fs', p) {
      DestUnderRoot(root, files, p);
      if p < parent {
        PrefixStep(p, parent);
        assert Parent(parent) == prefix;
        if p != prefix { AncestorOf(fs, p, prefix); }
        assert RealDir(fs', p);
      }
    }
    assert parent in fs' ==> RealDir(fs', parent);
    ProfileOnlyKeepsReady(fs, fs', prefix);
    forall x | ProfilePath(prefix, x) in fs' ensures RealDir(fs', ProfilePath(prefix, x)) {
      var p := ProfilePath(prefix, x);
      assert p[|prefix| + 1] == x && root[|prefix| + 1] == profile;
      if x != profile {
        DestUnderRoot(root, files, p);
        assert SameAt(fs, fs', p);
      }
    }
  }

  lemma DestUnderRoot(root: Path, files: seq<Path>, p: Path)
    requires Collect.Linkable(files)
    ensures IsDest(root, files, p) ==> root < p
    ensures IsAbove(root, files, p) ==> root <= p || p < root
  {
    if IsAbove(root, files, p) {
      var i :| 0 <= i < |files| && p < root + files[i];
      if |p| >= |root| { assert p[..|root|] == (root + files[i])[..|root|] == root; }
      else { assert p == (root + files[i])[..|p|] == root[..|p|]; }
    }
  }

  lemma {:induction false} LinkIntoReady(limit: nat, fs: FS, prefix: Path, profile: string, packages: seq<string>)
    requires Ready(fs, prefix) && ProfilesReal(fs, prefix) && IsName(profile)
    requires forall i :: 0 <= i < |packages| ==> ValidName(packages[i])
    ensures var s := LinkInto(limit, fs, prefix, profile, packages);
      Ready(s.fs, prefix) && ProfilesReal(s.fs, prefix) && ProfileOnly(fs, s.fs, prefix)
    decreases |packages|
  {
    if packages != [] {
      ProfileRootable(fs, prefix, profile);
      ProfileLink(limit, fs, prefix, packages[0], profile);
      var s := LinkPkgInto(limit, fs, prefix, packages[0], ProfilePath(prefix, profile));
      if s.ok {
        LinkIntoReady(limit, s.fs, prefix, profile, packages[1..]);
        var t := LinkInto(limit, s.fs, prefix, profile, packages[1..]);
        forall p | !InProfile(prefix, p) ensures SameAt(fs, t.fs, p) { assert SameAt(fs, s.fs, p) && SameAt(s.fs, t.fs, p); }
      }
    }
  }

  ghost predicate ProfilesNamed(profiles: map<string, seq<string>>, ps: seq<string>) {
    forall j :: 0 <= j < |ps| ==>
      && ps[j] in profiles && IsName(ps[j])
      && forall i :: 0 <= i < |profiles[ps[j]]| ==> ValidName(profiles[ps[j]][i])
  }

  function LinkProfiles(limit: nat, fs: FS, prefix: Path, profiles: map<string, seq<string>>, ps: seq<string>): Step
    requires Ready(fs, prefix) && ProfilesReal(fs, prefix) && ProfilesNamed(profiles, ps)
    decreases |ps|
  {
    if ps == [] then Step(fs, true)
    else
      var s := LinkInto(limit, fs, prefix, ps[0], profiles[ps[0]]);
      LinkIntoReady(limit, fs, prefix, ps[0], profiles[ps[0]]);
      if s.ok then LinkProfiles(limit, s.fs, prefix, profiles, ps[1..]) else s
  }

  lemma {:induction false} LinkProfilesReady(limit: nat, fs: FS, prefix: Path, profiles: map<string, seq<string>>, ps: seq<string>)
    requires Ready(fs, prefix) && ProfilesReal(fs, prefix) && ProfilesNamed(profiles, ps)
    ensures var s := LinkProfiles(limit, fs, prefix, profiles, ps);
      Ready(s.fs, prefix) && ProfilesReal(s.fs, prefix) && ProfileOnly(fs, s.fs, prefix)
    decreases |ps|
  {
    if ps != [] {
      var s := LinkInto(limit, fs, prefix, ps[0], profiles[ps[0]]);
      LinkIntoReady(limit, fs, prefix, ps[0], profiles[ps[0]]);
      if s.ok {
        LinkProfilesReady(limit, s.fs, prefix, profiles, ps[1..]);
        var t := LinkProfiles(limit, s.fs, prefix, profiles, ps[1..]);
        forall p | !InProfile(prefix, p) ensures SameAt(fs, t.fs, p) { assert SameAt(fs, s.fs, p) && SameAt(s.fs, t.fs, p); }
      }
    }
  }

  /** RemoveAll of the profile tree before it is rebuilt. */
  function DropProfiles(fs: FS, prefix: Path): FS {
    RemoveTree(fs, prefix + ["profile"])
  }

  lemma DropProfilesReady(fs: FS, prefix: Path)
    requires Ready(fs, prefix)
    ensures var fs' := DropProfiles(fs, prefix);
      Ready(fs', prefix) && ProfilesReal(fs', prefix) && ProfileOnly(fs, fs', prefix)
      && forall p :: InProfile(prefix, p) ==> p !in fs'
  {
    var fs' := DropProfiles(fs, prefix);
    RemoveTreeWF(fs, prefix + ["profile"]);
    ProfileOnlyKeepsReady(fs, fs', prefix);
    forall x ensures ProfilePath(prefix, x) !in fs' { assert InProfile(prefix, ProfilePath(prefix, x)); }
  }

  lemma ConfigProfilesNamed(config: Config)
    requires ValidConfig(config)
    ensures ProfilesNamed(config.profiles, ProfileNames(config))
  {
    var ps := ProfileNames(config);
    forall j | 0 <= j < |ps| ensures ps[j] in config.profiles && IsName(ps[j]) &&
      forall i :: 0 <= i < |config.profiles[ps[j]]| ==> ValidName(config.profiles[ps[j]][i])
    {
      assert ps[j] in ps;
      var packages := config.profiles[ps[j]];
      forall i | 0 <= i < |packages| ensures ValidName(packages[i]) { assert packages[i] in packages; }
    }
  }

  // ----- sync -----

  /** Removes the installed packages that the plan does not want. */
  function PruneAll(limit: nat, fs: FS, prefix: Path, installed: seq<string>, wanted: set<string>): Step
    decreases |installed|
  {
    if installed == [] then Step(fs, true)
    else if installed[0] in wanted then PruneAll(limit, fs, prefix, installed[1..], wanted)
    else
      var s := Remove(limit, fs, prefix, installed[0]);
      if s.ok then PruneAll(limit, s.fs, prefix, installed[1..], wanted) else s
  }

  function PlanNames(config: Config): set<string> {
    set n | n in AllNames(config)
  }

  /** The flag's architecture unless only the manifest names one. */
  function SyncArch(config: Config, arch: string, archSet: bool): string {
    if !archSet && config.arch != "" then config.arch else arch
  }

  function RebuildProfiles(limit: nat, fs: FS, prefix: Path, config: Config): Step
    requires Ready(fs, prefix) && ValidConfig(config)
  {
    DropProfilesReady(fs, prefix);
    ConfigProfilesNamed(config);
    LinkProfiles(limit, DropProfiles(fs, prefix), prefix, config.profiles, ProfileNames(config))
  }

  function PruneUnwanted(limit: nat, fs: FS, prefix: Path, config: Config): Step {
    match InstalledNames(limit, fs, prefix)
    case Err => Step(fs, false)
    case Ok(installed) => PruneAll(limit, fs, prefix, installed, PlanNames(config))
  }

  function Sync(limit: nat, fs: FS, prefix: Path, config: Config, arch: string, archSet: bool, force: bool, prune: bool,
                reg: Registry, suffix: string): Step
    requires Ready(fs, prefix) && TameRegistry(prefix, reg, suffix)
  {
    if !ValidConfig(config) then Step(fs, false)
    else
      var s1 := InstallPlan(limit, fs, prefix, PlanOf(config), SyncArch(config, arch, archSet), force, reg, suffix);
      InstallPlanReady(limit, fs, prefix, PlanOf(config), SyncArch(config, arch, archSet), force, reg, suffix);
      if !s1.ok then s1
      else
        var s2 := RebuildProfiles(limit, s1.fs, prefix, config);
        if s2.ok && prune then PruneUnwanted(limit, s2.fs, prefix, config) else s2
  }

  lemma {:induction false} CommitFromReady(limit: nat, fs: FS, prefix: Path, jobs: seq<Job>, k: nat, suffix: string)
    requires Ready(fs, prefix) && AllInstallable(prefix, jobs, suffix)
    ensures CommitFrom(limit, fs, prefix, jobs, k, suffix).ok ==>
      Ready(CommitFrom(limit, fs, prefix, jobs, k, suffix).fs, prefix)
    decreases |jobs| - k
  {
    if k < |jobs| {
      CommitJobReady(limit, fs, prefix, jobs[k], suffix);
      var s := CommitJob(limit, fs, prefix, jobs[k], suffix);
      if s.ok { CommitFromReady(limit, s.fs, prefix, jobs, k + 1, suffix); }
    }
  }

  lemma InstallPlanReady(limit: nat, fs: FS, prefix: Path, targets: seq<Target>, arch: string, force: bool,
                         reg: Registry, suffix: string)
    requires Ready(fs, prefix) && TameRegistry(prefix, reg, suffix)
    ensures var s := InstallPlan(limit, fs, prefix, targets, arch, force, reg, suffix); s.ok ==> Ready(s.fs, prefix)
  {
    var r := ResolveTargets(targets, arch);
    if r.Ok? && AllPublished(r.value, reg) {
      var p := Prepare(limit, fs, prefix, r.value, reg, force);
      PrepareReady(limit, fs, prefix, r.value, reg, force);
      if p.ok {
        JobsInstallable(prefix, p.jobs, r.value, reg, force, suffix);
        CommitFromReady(limit, p.fs, prefix, p.jobs, 0, suffix);
      }
    }
  }

  // ----- sync keeps the invariant, and so does every run of commands -----

  lemma RebuildKeeps(limit: nat, fs: FS, prefix: Path, config: Config)
    requires Inv(limit, fs, prefix) && ValidConfig(config)
    ensures var s := RebuildProfiles(limit, fs, prefix, config);
      && Inv(limit, s.fs, prefix) && ProfileOnly(fs, s.fs, prefix) && StoresSame(limit, fs, s.fs, prefix)
  {
    DropProfilesReady(fs, prefix);
    ConfigProfilesNamed(config);
    var dropped := DropProfiles(fs, prefix);
    LinkProfilesReady(limit, dropped, prefix, config.profiles, ProfileNames(config));
    var s := RebuildProfiles(limit, fs, prefix, config);
    forall p | !InProfile(prefix, p) ensures SameAt(fs, s.fs, p) { assert SameAt(fs, dropped, p) && SameAt(dropped, s.fs, p); }
    ProfileOnlyKeepsInv(limit, fs, s.fs, prefix);
  }

  lemma {:induction false} PruneAllKeeps(limit: nat, fs: FS, prefix: Path, installed: seq<string>, wanted: set<string>)
    requires Inv(limit, fs, prefix) && PruneAll(limit, fs, prefix, installed, wanted).ok
    ensures Inv(limit, PruneAll(limit, fs, prefix, installed, wanted).fs, prefix)
    decreases |installed|
  {
    if installed != [] {
      if installed[0] in wanted {
        PruneAllKeeps(limit, fs, prefix, installed[1..], wanted);
      } else {
        RemoveKeeps(limit, fs, prefix, installed[0]);
        PruneAllKeeps(limit, Remove(limit, fs, prefix, installed[0]).fs, prefix, installed[1..], wanted);
      }
    }
  }

  lemma SyncKeeps(limit: nat, fs: FS, prefix: Path, config: Config, arch: string, archSet: bool, force: bool, prune: bool,
                  reg: Registry, suffix: string)
    requires Inv(limit, fs, prefix) && TameRegistry(prefix, reg, suffix)
    requires Sync(limit, fs, prefix, config, arch, archSet, force, prune, reg, suffix).ok
    ensures Inv(limit, Sync(limit, fs, prefix, config, arch, archSet, force, prune, reg, suffix).fs, prefix)
  {
    var plan := PlanOf(config);
    InstallPlanKeeps(limit, fs, prefix, plan, SyncArch(config, arch, archSet), force, reg, suffix);
    var s1 := InstallPlan(limit, fs, prefix, plan, SyncArch(config, arch, archSet), force, reg, suffix);
    RebuildKeeps(limit, s1.fs, prefix, config);
    var s2 := RebuildProfiles(limit, s1.fs, prefix, config);
    if prune {
      PruneAllKeeps(limit, s2.fs, prefix, InstalledNames(limit, s2.fs, prefix).value, PlanNames(config));
    }
  }

  /** One command line, with what the registry publishes while it runs and the suffix
      of the staging directories it makes. */
  datatype Command =
    | InstallCmd(names: seq<string>, arch: string, linked: bool, force: bool, reg: Registry, suffix: string)
    | UpgradeCmd(arch: string, names: seq<string>, reg: Registry, suffix: string)
    | RemoveCmd(name: string)
    | SyncCmd(config: Config, arch: string, archSet: bool, force: bool, prune: bool, reg: Registry, suffix: string)

  ghost predicate TameCommand(prefix: Path, c: Command) {
    c.RemoveCmd? || TameRegistry(prefix, c.reg, c.suffix)
  }

  function Execute(limit: nat, fs: FS, prefix: Path, c: Command): Step
    requires Ready(fs, prefix) && TameCommand(prefix, c)
  {
    match c
    case InstallCmd(names, arch, linked, force, reg, suffix) =>
      InstallPackages(limit, fs, prefix, names, arch, linked, force, reg, suffix)
    case UpgradeCmd(arch, names, reg, suffix) => Upgrade(limit, fs, prefix, arch, names, reg, suffix)
    case RemoveCmd(name) => Remove(limit, fs, prefix, name)
    case SyncCmd(config, arch, archSet, force, prune, reg, suffix) =>
      Sync(limit, fs, prefix, config, arch, archSet, force, prune, reg, suffix)
  }

  lemma CommandKeeps(limit: nat, fs: FS, prefix: Path, c: Command)
    requires Inv(limit, fs, prefix) && TameCommand(prefix, c) && Execute(limit, fs, prefix, c).ok
    ensures Inv(limit, Execute(limit, fs, prefix, c).fs, prefix)
  {
    match c {
      case InstallCmd(names, arch, linked, force, reg, suffix) =>
        InstallPlanKeeps(limit, fs, prefix, InstallTargets(names, arch, linked, {}), arch, force, reg, suffix);
      case UpgradeCmd(arch, names, reg, suffix) =>
        var all := if names == [] then InstalledNames(limit, fs, prefix).value else names;
        if all != [] {
          InstallPlanKeeps(limit, fs, prefix, UpgradeTargets(limit, fs, prefix, arch, all, {}).value, arch, false, reg, suffix);
        }
      case RemoveCmd(name) => RemoveKeeps(limit, fs, prefix, name);
      case SyncCmd(config, arch, archSet, force, prune, reg, suffix) =>
        SyncKeeps(limit, fs, prefix, config, arch, archSet, force, prune, reg, suffix);
    }
  }

  /** `fs'` is reached from `fs` by running the commands, each returning nil. */
  ghost predicate Runs(limit: nat, fs: FS, prefix: Path, cs: seq<Command>, fs': FS)
    decreases |cs|
  {
    if cs == [] then fs' == fs
    else
      && Ready(fs, prefix) && TameCommand(prefix, cs[0]) && Execute(limit, fs, prefix, cs[0]).ok
      && Runs(limit, Execute(limit, fs, prefix, cs[0]).fs, prefix, cs[1..], fs')
  }

  lemma {:induction false} RunKeeps(limit: nat, fs: FS, prefix: Path, cs: seq<Command>, fs': FS)
    requires Inv(limit, fs, prefix) && Runs(limit, fs, prefix, cs, fs')
    ensures Inv(limit, fs', prefix)
    decreases |cs|
  {
    if cs != [] {
      CommandKeeps(limit, fs, prefix, cs[0]);
      RunKeeps(limit, Execute(limit, fs, prefix, cs[0]).fs, prefix, cs[1..], fs');
    }
  }

  /** From an empty prefix, after any run of successful commands, each link outside
      the stores and profiles names, lexically, a file that is still collected from
      the store of an installed package whose metadata says linked. */
  lemma EveryLinkHasAnOwner(limit: nat, fs: FS, prefix: Path, cs: seq<Command>, fs': FS, p: Path)
    requires WF(fs) && RealDir(fs, prefix) && Childless(fs, prefix) && Runs(limit, fs, prefix, cs, fs')
    requires InRoot(prefix, p) && p in fs' && fs'[p].Link?
    ensures exists n ::
      && OwnedBy(limit, fs', prefix, p[|prefix|..], n)
      && LinkTarget(Parent(p), fs'[p].text) == StorePath(prefix, n) + p[|prefix|..]
  {
    EmptyPrefix(limit, fs, prefix);
    RunKeeps(limit, fs, prefix, cs, fs');
    var n :| OwnedBy(limit, fs', prefix, p[|prefix|..], n);
    OwnedNames(limit, fs', prefix, p, n);
  }
}
