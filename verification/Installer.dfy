/** binman's commands as they run on a volume (cmd/binman/install.go,
    cmd/binman/manifest.go), proved to do what their specification functions say. */
module Installer {
  import opened Options
  import opened Lexical
  import opened FileTree
  import Extract
  import Aggregate
  import opened Prefix
  import opened Install
  import opened Plan
  import opened Commands
  import opened ManifestPlan
  import opened Manifest
  import opened Disk

  // ----- installPackagePlan -----

  function PrependTargets(done: seq<Target>, r: Result<seq<Target>>): Result<seq<Target>> {
    match r
    case Ok(rest) => Ok(done + rest)
    case Err => Err
  }

  lemma PrependTargetsTwice(a: seq<Target>, b: seq<Target>, r: Result<seq<Target>>)
    ensures PrependTargets(a, PrependTargets(b, r)) == PrependTargets(a + b, r) && PrependTargets([], r) == r
  {
    if r.Ok? {
      assert [] + r.value == r.value;
      assert a + (b + r.value) == a + b + r.value;
    }
  }

  /** The checks on the plan's names and architectures. */
  method Resolve(targets: seq<Target>, arch: string) returns (r: Result<seq<Target>>)
    ensures r == ResolveTargets(targets, arch)
  {
    if arch != "" && !ValidArch(arch) { return Err; }
    var plan := [];
    assert targets[0..] == targets;
    PrependTargetsTwice([], [], ResolveTargets(targets, arch));
    for i := 0 to |targets|
      invariant ResolveTargets(targets, arch) == PrependTargets(plan, ResolveTargets(targets[i..], arch))
    {
      var t := targets[i];
      assert targets[i..][0] == t && targets[i..][1..] == targets[i + 1..];
      var a := if t.arch == "" then arch else t.arch;
      if !ValidName(t.name) || !ValidArch(a) { return Err; }
      PrependTargetsTwice(plan, [Target(t.name, a, t.linked)], ResolveTargets(targets[i + 1..], arch));
      plan := plan + [Target(t.name, a, t.linked)];
    }
    assert targets[|targets|..] == [] && plan + [] == plan;
    r := Ok(plan);
  }

  lemma {:induction false} FetchesConcat(a: seq<Job>, b: seq<Job>)
    ensures Fetches(a + b) == Fetches(a) + Fetches(b)
  {
    if a == [] {
      assert a + b == b;
    } else {
      assert (a + b)[1..] == a[1..] + b;
      FetchesConcat(a[1..], b);
    }
  }

  function Joined(jobs: seq<Job>, p: Prepared): Prepared {
    Prepared(p.fs, p.ok, jobs + p.jobs)
  }

  /** Reads what is installed for each target and decides what to fetch. */
  method PrepareAll(disk: Volume, prefix: Path, targets: seq<Target>, reg: Registry, force: bool)
    returns (ok: bool, jobs: seq<Job>, fetchCount: nat)
    requires AllPublished(targets, reg)
    modifies disk
    ensures var p := Prepare(disk.limit, old(disk.fs), prefix, targets, reg, force);
      disk.fs == p.fs && ok == p.ok && (ok ==> jobs == p.jobs && fetchCount == Fetches(jobs))
  {
    jobs, fetchCount := [], 0;
    assert targets[0..] == targets;
    for i := 0 to |targets|
      invariant fetchCount == Fetches(jobs)
      invariant Joined(jobs, Prepare(disk.limit, disk.fs, prefix, targets[i..], reg, force)) ==
        Prepare(disk.limit, old(disk.fs), prefix, targets, reg, force)
    {
      var t := targets[i];
      assert targets[i..][0] == t && targets[i..][1..] == targets[i + 1..];
      var job := Job(t.name, t.arch, t.linked, reg[(t.name, t.arch)], None, false);
      var store := Aggregate.StorePath(prefix, t.name);
      var metadata := ReadMeta(disk.limit, disk.fs, prefix, t.name);
      if metadata.Some? {
        job := job.(current := metadata);
      } else {
        var stat := Eval(disk.limit, disk.fs, store);
        if stat.At? {
          disk.fs := RemoveTree(disk.fs, store);
        } else if !stat.NoEntry? {
          return false, jobs, fetchCount;
        }
      }
      if force || job.current.None? || job.current.value.digest != job.artifact.digest {
        job := job.(fetch := true);
        fetchCount := fetchCount + 1;
      }
      FetchesConcat(jobs, [job]);
      JoinedNext(jobs, job, Prepare(disk.limit, disk.fs, prefix, targets[i + 1..], reg, force));
      jobs := jobs + [job];
    }
    assert targets[|targets|..] == [] && jobs + [] == jobs;
    ok := true;
  }

  lemma JoinedNext(jobs: seq<Job>, job: Job, p: Prepared)
    ensures Joined(jobs, Prepared(p.fs, p.ok, [job] + p.jobs)) == Joined(jobs + [job], p)
  {
    assert jobs + ([job] + p.jobs) == jobs + [job] + p.jobs;
  }

  /** Stage, unpack, write the metadata and swap; whatever fails, the staging directory goes. */
  method CommitFetchedAt(disk: Volume, prefix: Path, job: Job, suffix: string) returns (ok: bool)
    requires Ready(disk.fs, prefix) && job.fetch && Installable(prefix, job, suffix)
    modifies disk
    ensures Step(disk.fs, ok) == CommitFetched(disk.limit, old(disk.fs), prefix, job, suffix)
  {
    var staged := StagePath(prefix, job.name, suffix);
    if staged in disk.fs { return false; }
    WithStageEffect(disk.fs, prefix, job.name, suffix);
    FilledReady(disk.limit, WithStage(disk.fs, prefix, staged), prefix, job, suffix);
    disk.fs := MkDirs(disk.fs, prefix + ["store"]);
    disk.fs := disk.fs[staged := Dir];
    ok := FillStageAt(disk, staged, job);
    if ok { ok := disk.PlaceStoreAt(prefix, job.name, suffix, WasLinked(job), job.linked); }
    if !ok { disk.fs := RemoveTree(disk.fs, staged); }
  }

  method FillStageAt(disk: Volume, staged: Path, job: Job) returns (ok: bool)
    requires WF(disk.fs) && RealDir(disk.fs, staged)
    modifies disk
    ensures Step(disk.fs, ok) == FillStage(disk.limit, old(disk.fs), staged, job)
  {
    Extract.ExtractAllKeeps(disk.limit, disk.fs, staged, job.artifact.entries);
    ok := disk.ExtractTarGz(staged, job.artifact.entries);
    if ok {
      DirAbove(disk.fs, staged);
      var written := WriteMeta(disk.limit, disk.fs, staged, JobMeta(job));
      disk.fs, ok := written.fs, written.ok;
    }
  }

  method CommitRelinkAt(disk: Volume, prefix: Path, job: Job) returns (ok: bool)
    requires Ready(disk.fs, prefix) && ValidName(job.name) && job.current.Some?
    modifies disk
    ensures Step(disk.fs, ok) == CommitRelink(disk.limit, old(disk.fs), prefix, job)
  {
    var current := job.current.value;
    UnlinkRoot(disk.limit, disk.fs, prefix, job.name);
    if current.linked && !job.linked {
      ok := disk.UnlinkPkg(prefix, job.name, prefix);
      if !ok { return; }
    }
    RootRootable(disk.fs, prefix);
    LinkRoot(disk.limit, disk.fs, prefix, job.name);
    if job.linked {
      ok := disk.LinkPkg(prefix, job.name, prefix);
      if !ok { return; }
    }
    if current.arch != job.arch || current.linked != job.linked {
      StoreAbove(disk.fs, prefix, job.name);
      var written := WriteMeta(disk.limit, disk.fs, Aggregate.StorePath(prefix, job.name), JobMeta(job));
      disk.fs := written.fs;
      return written.ok;
    }
    ok := true;
  }

  method CommitAll(disk: Volume, prefix: Path, jobs: seq<Job>, suffix: string) returns (ok: bool)
    requires Ready(disk.fs, prefix) && AllInstallable(prefix, jobs, suffix)
    modifies disk
    ensures Step(disk.fs, ok) == CommitFrom(disk.limit, old(disk.fs), prefix, jobs, 0, suffix)
  {
    for k := 0 to |jobs|
      invariant Ready(disk.fs, prefix)
      invariant CommitFrom(disk.limit, disk.fs, prefix, jobs, k, suffix) == CommitFrom(disk.limit, old(disk.fs), prefix, jobs, 0, suffix)
    {
      CommitJobReady(disk.limit, disk.fs, prefix, jobs[k], suffix);
      if jobs[k].fetch {
        ok := CommitFetchedAt(disk, prefix, jobs[k], suffix);
      } else {
        ok := CommitRelinkAt(disk, prefix, jobs[k]);
      }
      if !ok { return; }
    }
    ok := true;
  }

  /** `fetchCount` is what the run reports as installed when it succeeds. */
  method InstallPackagePlan(disk: Volume, prefix: Path, targets: seq<Target>, arch: string, force: bool,
                            reg: Registry, suffix: string) returns (ok: bool, fetchCount: nat)
    requires Ready(disk.fs, prefix) && TameRegistry(prefix, reg, suffix)
    modifies disk
    ensures Step(disk.fs, ok) == InstallPlan(disk.limit, old(disk.fs), prefix, targets, arch, force, reg, suffix)
    ensures ok ==> ResolveTargets(targets, arch).Ok? && AllPublished(ResolveTargets(targets, arch).value, reg)
    ensures ok ==>
      fetchCount == Fetches(Prepare(disk.limit, old(disk.fs), prefix, ResolveTargets(targets, arch).value, reg, force).jobs)
  {
    var plan := Resolve(targets, arch);
    if plan.Err? || !AllPublished(plan.value, reg) { return false, 0; }
    PrepareReady(disk.limit, disk.fs, prefix, plan.value, reg, force);
    var jobs;
    ok, jobs, fetchCount := PrepareAll(disk, prefix, plan.value, reg, force);
    if !ok { return; }
    JobsInstallable(prefix, jobs, plan.value, reg, force, suffix);
    ok := CommitAll(disk, prefix, jobs, suffix);
  }

  // ----- install and upgrade -----

  method InstallNamed(disk: Volume, prefix: Path, names: seq<string>, arch: string, linked: bool, force: bool,
                      reg: Registry, suffix: string) returns (ok: bool)
    requires Ready(disk.fs, prefix) && TameRegistry(prefix, reg, suffix)
    modifies disk
    ensures Step(disk.fs, ok) == InstallPackages(disk.limit, old(disk.fs), prefix, names, arch, linked, force, reg, suffix)
  {
    var plan := PlanNamed(names, arch, linked);
    var fetchCount;
    ok, fetchCount := InstallPackagePlan(disk, prefix, plan, arch, force, reg, suffix);
  }

  method PlanNamed(names: seq<string>, arch: string, linked: bool) returns (plan: seq<Target>)
    ensures plan == InstallTargets(names, arch, linked, {})
  {
    plan := [];
    var seen: set<string> := {};
    assert names[0..] == names;
    for i := 0 to |names|
      invariant plan + InstallTargets(names[i..], arch, linked, seen) == InstallTargets(names, arch, linked, {})
    {
      NextNamed(names, i, arch, linked, seen, plan);
      if names[i] in seen { continue; }
      seen := seen + {names[i]};
      plan := plan + [Target(names[i], arch, linked)];
    }
    assert names[|names|..] == [];
  }

  /** What the i-th name adds to the targets collected before it. */
  lemma NextNamed(names: seq<string>, i: nat, arch: string, linked: bool, seen: set<string>, plan: seq<Target>)
    requires i < |names|
    ensures plan + InstallTargets(names[i..], arch, linked, seen) ==
      if names[i] in seen then plan + InstallTargets(names[i + 1..], arch, linked, seen)
      else plan + [Target(names[i], arch, linked)] + InstallTargets(names[i + 1..], arch, linked, seen + {names[i]})
  {
    assert names[i..][0] == names[i] && names[i..][1..] == names[i + 1..];
  }

  method UpgradeNamed(disk: Volume, prefix: Path, arch: string, names: seq<string>, reg: Registry, suffix: string) returns (ok: bool)
    requires Ready(disk.fs, prefix) && TameRegistry(prefix, reg, suffix)
    modifies disk
    ensures Step(disk.fs, ok) == Upgrade(disk.limit, old(disk.fs), prefix, arch, names, reg, suffix)
  {
    var all := names;
    if names == [] {
      var installed := InstalledPackages(disk, prefix);
      if installed.Err? { return false; }
      all := installed.value;
      if all == [] { return true; }
    }
    var plan := PlanUpgrade(disk, prefix, arch, all);
    if plan.Err? { return false; }
    var fetchCount;
    ok, fetchCount := InstallPackagePlan(disk, prefix, plan.value, arch, false, reg, suffix);
  }

  method PlanUpgrade(disk: Volume, prefix: Path, arch: string, names: seq<string>) returns (r: Result<seq<Target>>)
    ensures r == UpgradeTargets(disk.limit, disk.fs, prefix, arch, names, {})
  {
    var plan := [];
    var seen: set<string> := {};
    assert names[0..] == names;
    PrependTargetsTwice([], [], UpgradeTargets(disk.limit, disk.fs, prefix, arch, names, {}));
    for i := 0 to |names|
      invariant PrependTargets(plan, UpgradeTargets(disk.limit, disk.fs, prefix, arch, names[i..], seen)) ==
        UpgradeTargets(disk.limit, disk.fs, prefix, arch, names, {})
    {
      var n := names[i];
      assert names[i..][0] == n && names[i..][1..] == names[i + 1..];
      if !ValidName(n) { return Err; }
      if n in seen { continue; }
      seen := seen + {n};
      var metadata := ReadMeta(disk.limit, disk.fs, prefix, n);
      if metadata.None? { return Err; }
      var target := Target(n, if arch != "" then arch else metadata.value.arch, metadata.value.linked);
      PrependTargetsTwice(plan, [target], UpgradeTargets(disk.limit, disk.fs, prefix, arch, names[i + 1..], seen));
      plan := plan + [target];
    }
    assert names[|names|..] == [] && plan + [] == plan;
    r := Ok(plan);
  }

  // ----- remove -----

  method RemovePackage(disk: Volume, prefix: Path, name: string) returns (ok: bool)
    requires Ready(disk.fs, prefix)
    modifies disk
    ensures Step(disk.fs, ok) == Remove(disk.limit, old(disk.fs), prefix, name) && (ok ==> Ready(disk.fs, prefix))
  {
    if !ValidName(name) { return false; }
    var store := Aggregate.StorePath(prefix, name);
    if !Eval(disk.limit, disk.fs, store).At? { return false; }
    var metadata := ReadMeta(disk.limit, disk.fs, prefix, name);
    if metadata.None? { return false; }
    assert Names(prefix);
    StageIsNamed(prefix, name, "");
    UnlinkRoot(disk.limit, disk.fs, prefix, name);
    if metadata.value.linked {
      ok := disk.UnlinkPkg(prefix, name, prefix);
      if !ok { return; }
    }
    var parent := prefix + ["profile"];
    ok := UnlinkFromProfiles(disk, prefix, name, DirNames(disk.fs, parent, ReadDir(disk.fs, parent)));
    if ok {
      RemoveStoreReady(disk.fs, prefix, name);
      disk.fs := RemoveTree(disk.fs, store);
    }
  }

  method UnlinkFromProfiles(disk: Volume, prefix: Path, name: string, profiles: seq<string>) returns (ok: bool)
    requires Ready(disk.fs, prefix) && IsName(name)
    modifies disk
    ensures Step(disk.fs, ok) == UnlinkProfiles(disk.limit, old(disk.fs), prefix, name, profiles) && Ready(disk.fs, prefix)
  {
    assert profiles[0..] == profiles;
    for i := 0 to |profiles|
      invariant Ready(disk.fs, prefix)
      invariant UnlinkProfiles(disk.limit, disk.fs, prefix, name, profiles[i..]) ==
        UnlinkProfiles(disk.limit, old(disk.fs), prefix, name, profiles)
    {
      assert profiles[i..][0] == profiles[i] && profiles[i..][1..] == profiles[i + 1..];
      UnlinkFromProfile(disk.limit, disk.fs, prefix, name, profiles[i]);
      ok := disk.UnlinkPkg(prefix, name, ProfilePath(prefix, profiles[i]));
      if !ok { return; }
    }
    assert profiles[|profiles|..] == [];
    ok := true;
  }

  // ----- which packages are installed -----

  function PrependNames(done: seq<string>, r: Result<seq<string>>): Result<seq<string>> {
    match r
    case Ok(rest) => Ok(done + rest)
    case Err => Err
  }

  lemma PrependNamesTwice(a: seq<string>, b: seq<string>, r: Result<seq<string>>)
    ensures PrependNames(a, PrependNames(b, r)) == PrependNames(a + b, r) && PrependNames([], r) == r
  {
    if r.Ok? {
      assert [] + r.value == r.value;
      assert a + (b + r.value) == a + b + r.value;
    }
  }

  method InstalledPackages(disk: Volume, prefix: Path) returns (r: Result<seq<string>>)
    ensures r == InstalledNames(disk.limit, disk.fs, prefix)
  {
    var entries := ReadDir(disk.fs, prefix + ["store"]);
    var names := [];
    assert entries[0..] == entries;
    PrependNamesTwice([], [], InstalledNames(disk.limit, disk.fs, prefix));
    for i := 0 to |entries|
      invariant PrependNames(names, InstalledFrom(disk.limit, disk.fs, prefix, entries[i..])) ==
        InstalledNames(disk.limit, disk.fs, prefix)
    {
      assert entries[i..][0] == entries[i] && entries[i..][1..] == entries[i + 1..];
      if RealDir(disk.fs, Aggregate.StorePath(prefix, entries[i])) {
        var stat := Eval(disk.limit, disk.fs, MetaPath(prefix, entries[i]));
        if stat.At? {
          PrependNamesTwice(names, [entries[i]], InstalledFrom(disk.limit, disk.fs, prefix, entries[i + 1..]));
          names := names + [entries[i]];
        } else if !stat.NoEntry? {
          return Err;
        }
      }
    }
    assert entries[|entries|..] == [] && names + [] == names;
    r := Ok(names);
  }

  // ----- sync -----

  method LinkProfile(disk: Volume, prefix: Path, profile: string, packages: seq<string>) returns (ok: bool)
    requires Ready(disk.fs, prefix) && ProfilesReal(disk.fs, prefix) && IsName(profile)
    requires forall i :: 0 <= i < |packages| ==> ValidName(packages[i])
    modifies disk
    ensures Step(disk.fs, ok) == LinkInto(disk.limit, old(disk.fs), prefix, profile, packages)
  {
    assert packages[0..] == packages;
    for i := 0 to |packages|
      invariant Ready(disk.fs, prefix) && ProfilesReal(disk.fs, prefix)
      invariant LinkInto(disk.limit, disk.fs, prefix, profile, packages[i..]) ==
        LinkInto(disk.limit, old(disk.fs), prefix, profile, packages)
    {
      assert packages[i..][0] == packages[i] && packages[i..][1..] == packages[i + 1..];
      ProfileRootable(disk.fs, prefix, profile);
      ProfileLink(disk.limit, disk.fs, prefix, packages[i], profile);
      ok := disk.LinkPkg(prefix, packages[i], ProfilePath(prefix, profile));
      if !ok { return; }
    }
    assert packages[|packages|..] == [];
    ok := true;
  }

  method RebuildAllProfiles(disk: Volume, prefix: Path, config: Config) returns (ok: bool)
    requires Ready(disk.fs, prefix) && ValidConfig(config)
    modifies disk
    ensures Step(disk.fs, ok) == RebuildProfiles(disk.limit, old(disk.fs), prefix, config)
  {
    DropProfilesReady(disk.fs, prefix);
    ConfigProfilesNamed(config);
    disk.fs := RemoveTree(disk.fs, prefix + ["profile"]);
    ok := LinkAllProfiles(disk, prefix, config.profiles, ProfileNames(config));
  }

  method LinkAllProfiles(disk: Volume, prefix: Path, profiles: map<string, seq<string>>, names: seq<string>) returns (ok: bool)
    requires Ready(disk.fs, prefix) && ProfilesReal(disk.fs, prefix) && ProfilesNamed(profiles, names)
    modifies disk
    ensures Step(disk.fs, ok) == LinkProfiles(disk.limit, old(disk.fs), prefix, profiles, names)
  {
    assert names[0..] == names;
    for i := 0 to |names|
      invariant Ready(disk.fs, prefix) && ProfilesReal(disk.fs, prefix) && ProfilesNamed(profiles, names[i..])
      invariant LinkProfiles(disk.limit, disk.fs, prefix, profiles, names[i..]) ==
        LinkProfiles(disk.limit, old(disk.fs), prefix, profiles, names)
    {
      NamedTail(profiles, names, i);
      LinkIntoReady(disk.limit, disk.fs, prefix, names[i], profiles[names[i]]);
      ok := LinkProfile(disk, prefix, names[i], profiles[names[i]]);
      if !ok { return; }
    }
    assert names[|names|..] == [];
    ok := true;
  }

  lemma NamedTail(profiles: map<string, seq<string>>, names: seq<string>, i: nat)
    requires i < |names| && ProfilesNamed(profiles, names[i..])
    ensures names[i..] != [] && names[i..][0] == names[i] && names[i..][1..] == names[i + 1..]
    ensures names[i] in profiles && IsName(names[i]) && ProfilesNamed(profiles, names[i + 1..])
    ensures forall k :: 0 <= k < |profiles[names[i]]| ==> ValidName(profiles[names[i]][k])
  {
    var rest := names[i..];
    assert rest[0] == names[i] && rest[1..] == names[i + 1..];
    assert forall j :: 0 <= j < |rest| - 1 ==> rest[1..][j] == rest[j + 1];
  }

  method PruneInstalled(disk: Volume, prefix: Path, installed: seq<string>, wanted: set<string>) returns (ok: bool)
    requires Ready(disk.fs, prefix)
    modifies disk
    ensures Step(disk.fs, ok) == PruneAll(disk.limit, old(disk.fs), prefix, installed, wanted)
  {
    assert installed[0..] == installed;
    for i := 0 to |installed|
      invariant Ready(disk.fs, prefix)
      invariant PruneAll(disk.limit, disk.fs, prefix, installed[i..], wanted) ==
        PruneAll(disk.limit, old(disk.fs), prefix, installed, wanted)
    {
      assert installed[i..][0] == installed[i] && installed[i..][1..] == installed[i + 1..];
      if installed[i] in wanted { continue; }
      ok := RemovePackage(disk, prefix, installed[i]);
      if !ok { return; }
    }
    assert installed[|installed|..] == [];
    ok := true;
  }

  method SyncPackages(disk: Volume, prefix: Path, config: Config, arch: string, archSet: bool, force: bool, prune: bool,
                      reg: Registry, suffix: string) returns (ok: bool)
    requires Ready(disk.fs, prefix) && TameRegistry(prefix, reg, suffix)
    modifies disk
    ensures Step(disk.fs, ok) == Sync(disk.limit, old(disk.fs), prefix, config, arch, archSet, force, prune, reg, suffix)
  {
    if !ValidConfig(config) { return false; }
    var planArch := if !archSet && config.arch != "" then config.arch else arch;
    var plan := InstallPlanOf(config);
    InstallPlanReady(disk.limit, disk.fs, prefix, plan, planArch, force, reg, suffix);
    var fetchCount;
    ok, fetchCount := InstallPackagePlan(disk, prefix, plan, planArch, force, reg, suffix);
    if !ok { return; }
    RebuildReady(disk.limit, disk.fs, prefix, config);
    ok := RebuildAllProfiles(disk, prefix, config);
    if !ok || !prune { return; }
    ok := PruneUnwantedAt(disk, prefix, config);
  }

  method PruneUnwantedAt(disk: Volume, prefix: Path, config: Config) returns (ok: bool)
    requires Ready(disk.fs, prefix)
    modifies disk
    ensures Step(disk.fs, ok) == PruneUnwanted(disk.limit, old(disk.fs), prefix, config)
  {
    var wanted := set n | n in AllNames(config);
    var installed := InstalledPackages(disk, prefix);
    if installed.Err? { return false; }
    ok := PruneInstalled(disk, prefix, installed.value, wanted);
  }

  lemma RebuildReady(limit: nat, fs: FS, prefix: Path, config: Config)
    requires Ready(fs, prefix) && ValidConfig(config)
    ensures Ready(RebuildProfiles(limit, fs, prefix, config).fs, prefix)
  {
    DropProfilesReady(fs, prefix);
    ConfigProfilesNamed(config);
    LinkProfilesReady(limit, DropProfiles(fs, prefix), prefix, config.profiles, ProfileNames(config));
  }
}
