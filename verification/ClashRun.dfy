/** In which order packages with clashing paths can be installed, and what a second run
    then does (cmd/binman/install.go, cmd/binman/manifest.go). */
module ClashRun {
  import opened Options
  import opened Lexical
  import opened FileTree
  import opened Prefix
  import opened Install
  import opened Lifecycle
  import opened Plan
  import opened ManifestPlan
  import opened Manifest
  import Outcomes
  import opened Settle
  import Fixpoint
  import Sturdy
  import opened Succeeds
  import opened OneFile
  import PlanOrder
  import opened TwoPackages

  // ----- two packages of one file each -----

  /** A manifest that links both, in this order. */
  function TwoLinked(u: string, v: string): Config {
    Config("", [u, v], [], map[])
  }

  function TwoTargets(u: string, v: string): seq<Target> {
    [Target(u, ARCH, true), Target(v, ARCH, true)]
  }

  lemma TwoPlan(u: string, v: string)
    requires ValidName(u) && ValidName(v) && u != v
    ensures var config := TwoLinked(u, v);
      && ValidConfig(config) && ProfileNames(config) == []
      && PlanOf(config) == [Target(u, "", true), Target(v, "", true)]
      && ResolveTargets(PlanOf(config), ARCH) == Ok(TwoTargets(u, v))
  {
    var config := TwoLinked(u, v);
    assert config.profiles.Keys == {};
    assert AllNames(config) == [u, v];
    FirstsOfTwo(u, v);
    var t, t' := Target(u, "", true), Target(v, "", true);
    assert PlanOf(config) == [t, t'];
    assert ValidArch(ARCH);
    assert ResolveTargets([], ARCH) == Ok([]);
    ResolveNext(t', [], []);
    assert [Target(v, ARCH, true)] + [] == [Target(v, ARCH, true)] && [Target(u, ARCH, true)] + [Target(v, ARCH, true)] == TwoTargets(u, v);
    ResolveNext(t, [t'], [Target(v, ARCH, true)]);
    assert [t'] + [] == [t'] && [t] + [t'] == [t, t'];
  }

  /** The jobs of the first run: both packages are fetched. */
  lemma TwoJobs(fs: FS, prefix: Path, u: string, ru: Path, v: string, rv: Path, content: Content, force: bool)
    requires WF(fs) && RealDir(fs, prefix) && Childless(fs, prefix) && Two(prefix, u, ru, v, rv)
    ensures var reg := PairRegistry(u, ru, v, rv, content);
      && AllPublished(TwoTargets(u, v), reg)
      && PlannedJobs(fs, prefix, TwoTargets(u, v), reg, force) ==
           [Job(u, ARCH, true, reg[(u, ARCH)], None, true), Job(v, ARCH, true, reg[(v, ARCH)], None, true)]
  {
    assert prefix < MetaPath(prefix, u) && prefix < MetaPath(prefix, v);
    assert PlainMeta(fs, prefix, u) == None && PlainMeta(fs, prefix, v) == None;
  }

  /** In an empty prefix such a job is clear by itself, and brings its file. */
  lemma OneFileClear(limit: nat, fs: FS, prefix: Path, job: Job, suffix: string, rel: Path, content: Content)
    requires WF(fs) && RealDir(fs, prefix) && Childless(fs, prefix) && Names(prefix) && ValidName(job.name)
    requires job.fetch && job.linked && PlainRel(rel) && job.artifact.entries == [FileEntry(job.name, rel, content)]
    ensures Clear(limit, fs, prefix, job, suffix)
    ensures forall q :: Brings(limit, fs, prefix, job, suffix, q) <==> q == rel
  {
    ValidIsName(job.name);
    assert prefix < StagePath(prefix, job.name, suffix);
    forall q ensures Brings(limit, fs, prefix, job, suffix, q) <==> q == rel {
      OneFileOffers(limit, fs, prefix, job, suffix, job.name, rel, content, q);
    }
    OneFileOffers(limit, fs, prefix, job, suffix, job.name, rel, content, rel);
    var files := Offered(limit, fs, prefix, job, suffix).value;
    forall i | 0 <= i < |files| ensures !RealDir(fs, prefix + files[i]) {
      assert Brings(limit, fs, prefix, job, suffix, files[i]);
      assert prefix < prefix + rel;
    }
  }

  lemma FirstClear(limit: nat, fs: FS, prefix: Path, jobs: seq<Job>, suffix: string)
    requires AllNamed(prefix, jobs) && |jobs| > 0 && Clear(limit, fs, prefix, jobs[0], suffix)
    ensures ClearAt(limit, fs, prefix, jobs, 0, 0, suffix)
  {}

  lemma SecondClear(limit: nat, fs: FS, prefix: Path, jobs: seq<Job>, suffix: string, ru: Path, rv: Path)
    requires AllNamed(prefix, jobs) && |jobs| == 2 && Clear(limit, fs, prefix, jobs[1], suffix)
    requires forall q :: Brings(limit, fs, prefix, jobs[0], suffix, q) <==> q == ru
    requires forall q :: Brings(limit, fs, prefix, jobs[1], suffix, q) <==> q == rv
    ensures ClearAt(limit, fs, prefix, jobs, 0, 1, suffix) <==> !(rv < ru)
  {
    if rv < ru { assert Brings(limit, fs, prefix, jobs[0], suffix, ru); }
    assert BringsBelow(limit, fs, prefix, jobs[0], suffix, rv) <==> rv < ru;
    assert Blocked(limit, fs, prefix, jobs, 0, 1, suffix, rv) <==> BringsBelow(limit, fs, prefix, jobs[0], suffix, rv);
    assert Brings(limit, fs, prefix, jobs[1], suffix, rv);
  }

  lemma TwoClear(limit: nat, fs: FS, prefix: Path, jobs: seq<Job>, suffix: string, ru: Path, rv: Path)
    requires AllNamed(prefix, jobs) && |jobs| == 2
    requires Clear(limit, fs, prefix, jobs[0], suffix) && Clear(limit, fs, prefix, jobs[1], suffix)
    requires forall q :: Brings(limit, fs, prefix, jobs[0], suffix, q) <==> q == ru
    requires forall q :: Brings(limit, fs, prefix, jobs[1], suffix, q) <==> q == rv
    ensures AllClear(limit, fs, prefix, jobs, 0, suffix) <==> !(rv < ru)
  {
    FirstClear(limit, fs, prefix, jobs, suffix);
    SecondClear(limit, fs, prefix, jobs, suffix, ru, rv);
  }

  lemma TwoCanInstall(limit: nat, fs: FS, prefix: Path, u: string, ru: Path, v: string, rv: Path, content: Content, force: bool, suffix: string)
    requires WF(fs) && RealDir(fs, prefix) && Childless(fs, prefix) && Two(prefix, u, ru, v, rv)
    ensures CanInstall(limit, fs, prefix, TwoTargets(u, v), PairRegistry(u, ru, v, rv, content), force, suffix) <==> !(rv < ru)
  {
    var reg := PairRegistry(u, ru, v, rv, content);
    TwoJobs(fs, prefix, u, ru, v, rv, content, force);
    var jobs := PlannedJobs(fs, prefix, TwoTargets(u, v), reg, force);
    TwoJobsClear(limit, fs, prefix, jobs, suffix, ru, rv, content);
  }

  lemma TwoJobsClear(limit: nat, fs: FS, prefix: Path, jobs: seq<Job>, suffix: string, ru: Path, rv: Path, content: Content)
    requires WF(fs) && RealDir(fs, prefix) && Childless(fs, prefix) && AllNamed(prefix, jobs) && |jobs| == 2
    requires PlainRel(ru) && jobs[0].fetch && jobs[0].linked && jobs[0].artifact.entries == [FileEntry(jobs[0].name, ru, content)]
    requires PlainRel(rv) && jobs[1].fetch && jobs[1].linked && jobs[1].artifact.entries == [FileEntry(jobs[1].name, rv, content)]
    ensures AllClear(limit, fs, prefix, jobs, 0, suffix) <==> !(rv < ru)
  {
    OneFileClear(limit, fs, prefix, jobs[0], suffix, ru, content);
    OneFileClear(limit, fs, prefix, jobs[1], suffix, rv, content);
    TwoClear(limit, fs, prefix, jobs, suffix, ru, rv);
  }

  /** The first install succeeds unless the second package's file lies above the first's. */
  lemma TwoInstall(limit: nat, fs: FS, prefix: Path, u: string, ru: Path, v: string, rv: Path, content: Content, force: bool, suffix: string)
    requires WF(fs) && RealDir(fs, prefix) && Childless(fs, prefix) && Two(prefix, u, ru, v, rv)
    ensures Sturdy.IsSturdy(limit, fs, prefix) && TameRegistry(prefix, PairRegistry(u, ru, v, rv, content), suffix)
    ensures InstallPlan(limit, fs, prefix, PlanOf(TwoLinked(u, v)), ARCH, force, PairRegistry(u, ru, v, rv, content), suffix).ok <==> !(rv < ru)
  {
    var reg := PairRegistry(u, ru, v, rv, content);
    TwoPlan(u, v);
    TwoTame(prefix, u, ru, v, rv, content, suffix);
    Sturdy.EmptyIsSturdy(limit, fs, prefix);
    TwoCanInstall(limit, fs, prefix, u, ru, v, rv, content, force, suffix);
    PlanSucceedsExactly(limit, fs, prefix, PlanOf(TwoLinked(u, v)), ARCH, force, reg, suffix);
  }

  /** With both installed, their packages offer their one file each. */
  lemma TwoOffer(limit: nat, fs: FS, prefix: Path, u: string, ru: Path, v: string, rv: Path, content: Content, force: bool, suffix: string, q: Path)
    requires WF(fs) && RealDir(fs, prefix) && Childless(fs, prefix) && Two(prefix, u, ru, v, rv)
    requires TameRegistry(prefix, PairRegistry(u, ru, v, rv, content), suffix)
    requires InstallPlan(limit, fs, prefix, PlanOf(TwoLinked(u, v)), ARCH, force, PairRegistry(u, ru, v, rv, content), suffix).ok
    ensures var fs' := InstallPlan(limit, fs, prefix, PlanOf(TwoLinked(u, v)), ARCH, force, PairRegistry(u, ru, v, rv, content), suffix).fs;
      && (Offers(limit, fs', prefix, TwoTargets(u, v)[0], q) <==> q == ru)
      && (Offers(limit, fs', prefix, TwoTargets(u, v)[1], q) <==> q == rv)
  {
    var reg := PairRegistry(u, ru, v, rv, content);
    TwoPlan(u, v);
    Sturdy.EmptyIsSturdy(limit, fs, prefix);
    TwoJobs(fs, prefix, u, ru, v, rv, content, force);
    var jobs := PlannedJobs(fs, prefix, TwoTargets(u, v), reg, force);
    OneFileClear(limit, fs, prefix, jobs[0], suffix, ru, content);
    OneFileClear(limit, fs, prefix, jobs[1], suffix, rv, content);
    PlanOrder.PlanOffers(limit, fs, prefix, PlanOf(TwoLinked(u, v)), ARCH, force, reg, suffix, 0);
    PlanOrder.PlanOffers(limit, fs, prefix, PlanOf(TwoLinked(u, v)), ARCH, force, reg, suffix, 1);
    assert Brings(limit, fs, prefix, jobs[0], suffix, q) <==> q == ru;
    assert Brings(limit, fs, prefix, jobs[1], suffix, q) <==> q == rv;
  }

  /** Without profiles and pruning a sync is its install plan, and then drops the profiles. */
  lemma PlainSync(limit: nat, fs: FS, prefix: Path, u: string, v: string, force: bool, reg: Registry, suffix: string)
    requires Inv(limit, fs, prefix) && TameRegistry(prefix, reg, suffix) && ValidName(u) && ValidName(v) && u != v
    ensures var s := Sync(limit, fs, prefix, TwoLinked(u, v), ARCH, true, force, false, reg, suffix);
      var p := InstallPlan(limit, fs, prefix, PlanOf(TwoLinked(u, v)), ARCH, force, reg, suffix);
      && (s.ok <==> p.ok)
      && (s.ok ==> forall n :: Outcomes.PackageSame(limit, p.fs, s.fs, prefix, n))
  {
    var config := TwoLinked(u, v);
    TwoPlan(u, v);
    InstallPlanKeeps(limit, fs, prefix, PlanOf(config), ARCH, force, reg, suffix);
    var p := InstallPlan(limit, fs, prefix, PlanOf(config), ARCH, force, reg, suffix);
    if p.ok { RebuildKeeps(limit, p.fs, prefix, config); }
  }

  /** Two packages of one file each, synced into an empty prefix: the first sync succeeds
      unless the file of the package listed second lies above the other's, and the same
      sync again unless either lies above the other. */
  lemma TwoPackagesSync(limit: nat, fs: FS, prefix: Path, u: string, ru: Path, v: string, rv: Path, content: Content, force: bool,
                        suffix: string, suffix': string)
    requires WF(fs) && RealDir(fs, prefix) && Childless(fs, prefix) && Two(prefix, u, ru, v, rv)
    ensures var reg := PairRegistry(u, ru, v, rv, content);
      && Inv(limit, fs, prefix) && TameRegistry(prefix, reg, suffix) && TameRegistry(prefix, reg, suffix')
      && var first := Sync(limit, fs, prefix, TwoLinked(u, v), ARCH, true, force, false, reg, suffix);
         && (first.ok <==> !(rv < ru))
         && (first.ok ==>
               && Ready(first.fs, prefix)
               && (Sync(limit, first.fs, prefix, TwoLinked(u, v), ARCH, true, false, false, reg, suffix').ok <==> !(ru < rv) && !(rv < ru)))
  {
    var reg := PairRegistry(u, ru, v, rv, content);
    TwoTame(prefix, u, ru, v, rv, content, suffix);
    TwoTame(prefix, u, ru, v, rv, content, suffix');
    TwoInstall(limit, fs, prefix, u, ru, v, rv, content, force, suffix);
    PlainSync(limit, fs, prefix, u, v, force, reg, suffix);
    var first := Sync(limit, fs, prefix, TwoLinked(u, v), ARCH, true, force, false, reg, suffix);
    if first.ok {
      TwoPlan(u, v);
      Fixpoint.SyncConverges(limit, fs, prefix, TwoLinked(u, v), ARCH, true, force, false, reg, suffix, suffix');
      TwoClash(limit, fs, first.fs, prefix, u, ru, v, rv, content, force, suffix);
    }
  }

  lemma TwoClash(limit: nat, fs: FS, synced: FS, prefix: Path, u: string, ru: Path, v: string, rv: Path, content: Content, force: bool, suffix: string)
    requires WF(fs) && RealDir(fs, prefix) && Childless(fs, prefix) && Two(prefix, u, ru, v, rv)
    requires TameRegistry(prefix, PairRegistry(u, ru, v, rv, content), suffix) && Inv(limit, fs, prefix)
    requires Sync(limit, fs, prefix, TwoLinked(u, v), ARCH, true, force, false, PairRegistry(u, ru, v, rv, content), suffix) == Step(synced, true)
    ensures NoClash(limit, synced, prefix, TwoTargets(u, v)) <==> !(ru < rv) && !(rv < ru)
  {
    forall q ensures Offers(limit, synced, prefix, TwoTargets(u, v)[0], q) <==> q == ru
      ensures Offers(limit, synced, prefix, TwoTargets(u, v)[1], q) <==> q == rv
    {
      SyncedOffer(limit, fs, synced, prefix, u, ru, v, rv, content, force, suffix, q);
    }
    ClashOfTwo(limit, synced, prefix, TwoTargets(u, v), ru, rv);
  }

  lemma SyncedOffer(limit: nat, fs: FS, synced: FS, prefix: Path, u: string, ru: Path, v: string, rv: Path, content: Content, force: bool,
                    suffix: string, q: Path)
    requires WF(fs) && RealDir(fs, prefix) && Childless(fs, prefix) && Two(prefix, u, ru, v, rv)
    requires TameRegistry(prefix, PairRegistry(u, ru, v, rv, content), suffix) && Inv(limit, fs, prefix)
    requires Sync(limit, fs, prefix, TwoLinked(u, v), ARCH, true, force, false, PairRegistry(u, ru, v, rv, content), suffix) == Step(synced, true)
    ensures Offers(limit, synced, prefix, TwoTargets(u, v)[0], q) <==> q == ru
    ensures Offers(limit, synced, prefix, TwoTargets(u, v)[1], q) <==> q == rv
  {
    var reg := PairRegistry(u, ru, v, rv, content);
    PlainSync(limit, fs, prefix, u, v, force, reg, suffix);
    TwoInstalled(limit, fs, prefix, u, ru, v, rv, content, force, suffix);
    TwoOffer(limit, fs, prefix, u, ru, v, rv, content, force, suffix, q);
    var before := InstallPlan(limit, fs, prefix, PlanOf(TwoLinked(u, v)), ARCH, force, reg, suffix).fs;
    assert Outcomes.PackageSame(limit, before, synced, prefix, u) && Outcomes.PackageSame(limit, before, synced, prefix, v);
  }

  lemma ClashOfTwo(limit: nat, fs: FS, prefix: Path, ts: seq<Target>, ru: Path, rv: Path)
    requires |ts| == 2
    requires forall q :: Offers(limit, fs, prefix, ts[0], q) <==> q == ru
    requires forall q :: Offers(limit, fs, prefix, ts[1], q) <==> q == rv
    ensures NoClash(limit, fs, prefix, ts) <==> !(ru < rv) && !(rv < ru)
  {
    var t, t' := ts[0], ts[1];
    assert Offers(limit, fs, prefix, t, ru) && Offers(limit, fs, prefix, t', rv);
    if !(ru < rv) && !(rv < ru) {
      forall i, j, q, q' | 0 <= i < |ts| && 0 <= j < |ts| && Offers(limit, fs, prefix, ts[i], q) && Offers(limit, fs, prefix, ts[j], q')
        ensures !(q < q')
      {
        OfferedByOne(limit, fs, prefix, ts, ru, rv, i, q);
        OfferedByOne(limit, fs, prefix, ts, ru, rv, j, q');
      }
    }
  }

  lemma OfferedByOne(limit: nat, fs: FS, prefix: Path, ts: seq<Target>, ru: Path, rv: Path, i: nat, q: Path)
    requires |ts| == 2 && i < 2 && Offers(limit, fs, prefix, ts[i], q)
    requires forall x :: Offers(limit, fs, prefix, ts[0], x) <==> x == ru
    requires forall x :: Offers(limit, fs, prefix, ts[1], x) <==> x == rv
    ensures q == if i == 0 then ru else rv
  {}

  lemma TwoInstalled(limit: nat, fs: FS, prefix: Path, u: string, ru: Path, v: string, rv: Path, content: Content, force: bool, suffix: string)
    requires WF(fs) && RealDir(fs, prefix) && Childless(fs, prefix) && Two(prefix, u, ru, v, rv) && Inv(limit, fs, prefix)
    requires TameRegistry(prefix, PairRegistry(u, ru, v, rv, content), suffix)
    requires InstallPlan(limit, fs, prefix, PlanOf(TwoLinked(u, v)), ARCH, force, PairRegistry(u, ru, v, rv, content), suffix).ok
    ensures var fs' := InstallPlan(limit, fs, prefix, PlanOf(TwoLinked(u, v)), ARCH, force, PairRegistry(u, ru, v, rv, content), suffix).fs;
      Installed(fs', prefix, u) && Installed(fs', prefix, v)
  {
    var reg := PairRegistry(u, ru, v, rv, content);
    TwoPlan(u, v);
    Outcomes.TargetOutcome(limit, fs, prefix, PlanOf(TwoLinked(u, v)), ARCH, force, reg, suffix, 0);
    Outcomes.TargetOutcome(limit, fs, prefix, PlanOf(TwoLinked(u, v)), ARCH, force, reg, suffix, 1);
  }

  /** A package "a" with the file x and a package "b" with the file x/y, into an empty
      prefix. Listed in this order the first sync succeeds and the same sync again fails;
      listed the other way round the first sync fails already. */
  lemma ClashingSync(limit: nat, fs: FS, prefix: Path, content: Content, force: bool, suffix: string, suffix': string)
    requires WF(fs) && RealDir(fs, prefix) && Childless(fs, prefix)
    ensures var reg := PairRegistry("a", ["x"], "b", ["x", "y"], content);
      && Inv(limit, fs, prefix) && TameRegistry(prefix, reg, suffix) && TameRegistry(prefix, reg, suffix')
      && var first := Sync(limit, fs, prefix, TwoLinked("a", "b"), ARCH, true, force, false, reg, suffix);
         && first.ok && Ready(first.fs, prefix)
         && !Sync(limit, first.fs, prefix, TwoLinked("a", "b"), ARCH, true, false, false, reg, suffix').ok
    ensures var reg := PairRegistry("b", ["x", "y"], "a", ["x"], content);
      TameRegistry(prefix, reg, suffix) && !Sync(limit, fs, prefix, TwoLinked("b", "a"), ARCH, true, force, false, reg, suffix).ok
  {
    assert ["x"] < ["x", "y"] && !(["x", "y"] < ["x"]);
    assert Names(prefix);
    TwoPackagesSync(limit, fs, prefix, "a", ["x"], "b", ["x", "y"], content, force, suffix, suffix');
    TwoPackagesSync(limit, fs, prefix, "b", ["x", "y"], "a", ["x"], content, force, suffix, suffix');
  }
}
