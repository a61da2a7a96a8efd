/** Which packages an install plan downloads, and what each store holds afterwards
    (cmd/binman/install.go). */
module Fetching {
  import opened Lexical
  import opened FileTree
  import Extract
  import opened Aggregate
  import opened Prefix
  import opened Install
  import opened Lifecycle
  import opened Plan
  import opened Commands
  import opened StoreContents
  import opened Contents
  import opened Outcomes

  /** The package is forced, not on record, or on record with another digest. */
  predicate OutOfDate(fs: FS, prefix: Path, n: string, artifact: Artifact, force: bool) {
    var was := PlainMeta(fs, prefix, n);
    force || was.None? || was.value.digest != artifact.digest
  }

  // ----- the decision -----

  /** Every target becomes a job for what is published, which is fetched exactly when it is
      forced, the package is not on record, or its record has another digest. */
  lemma FetchDecision(limit: nat, fs: FS, prefix: Path, ts: seq<Target>, reg: Registry, force: bool, i: nat)
    requires AllPublished(ts, reg) && Inv(limit, fs, prefix) && i < |ts|
    requires forall j :: 0 <= j < |ts| ==> ValidName(ts[j].name)
    requires Prepare(limit, fs, prefix, ts, reg, force).ok
    ensures var jobs := Prepare(limit, fs, prefix, ts, reg, force).jobs;
      && |jobs| == |ts| && jobs[i].name == ts[i].name && jobs[i].arch == ts[i].arch && jobs[i].linked == ts[i].linked
      && jobs[i].artifact == reg[(ts[i].name, ts[i].arch)] && jobs[i].current == PlainMeta(fs, prefix, ts[i].name)
      && (jobs[i].fetch <==>
            || force
            || PlainMeta(fs, prefix, ts[i].name).None?
            || PlainMeta(fs, prefix, ts[i].name).value.digest != reg[(ts[i].name, ts[i].arch)].digest)
  {
    PrepareReady(limit, fs, prefix, ts, reg, force);
    PrepareReads(limit, fs, prefix, ts, reg, force, i);
  }

  /** The targets that are out of date, by position. */
  function Outdated(fs: FS, prefix: Path, ts: seq<Target>, reg: Registry, force: bool): set<nat>
    requires AllPublished(ts, reg)
  {
    set i: nat | i < |ts| && OutOfDate(fs, prefix, ts[i].name, reg[(ts[i].name, ts[i].arch)], force)
  }

  lemma {:induction false} FetchesCounts(jobs: seq<Job>, fetched: set<nat>)
    requires forall i: nat :: i in fetched <==> i < |jobs| && jobs[i].fetch
    ensures Fetches(jobs) == |fetched|
    decreases |jobs|
  {
    if jobs == [] {
      assert fetched == {};
    } else {
      var init, last := jobs[..|jobs| - 1], |jobs| - 1;
      FetchesCounts(init, fetched - {last});
      FetchesLast(init, jobs[last]);
      assert init + [jobs[last]] == jobs;
      if last !in fetched { assert fetched - {last} == fetched; }
    }
  }

  lemma {:induction false} FetchesLast(jobs: seq<Job>, job: Job)
    ensures Fetches(jobs + [job]) == Fetches(jobs) + if job.fetch then 1 else 0
    decreases |jobs|
  {
    if jobs != [] {
      assert (jobs + [job])[1..] == jobs[1..] + [job];
      FetchesLast(jobs[1..], job);
    }
  }

  /** As many packages are downloaded as are out of date: with --force, all of them. */
  lemma FetchCount(limit: nat, fs: FS, prefix: Path, ts: seq<Target>, reg: Registry, force: bool)
    requires AllPublished(ts, reg) && Inv(limit, fs, prefix)
    requires forall j :: 0 <= j < |ts| ==> ValidName(ts[j].name)
    requires Prepare(limit, fs, prefix, ts, reg, force).ok
    ensures Fetches(Prepare(limit, fs, prefix, ts, reg, force).jobs) == |Outdated(fs, prefix, ts, reg, force)|
    ensures force ==> Fetches(Prepare(limit, fs, prefix, ts, reg, force).jobs) == |ts|
  {
    var jobs := Prepare(limit, fs, prefix, ts, reg, force).jobs;
    PrepareReady(limit, fs, prefix, ts, reg, force);
    forall i: nat ensures i in Outdated(fs, prefix, ts, reg, force) <==> i < |jobs| && jobs[i].fetch {
      if i < |ts| { FetchDecision(limit, fs, prefix, ts, reg, force, i); }
    }
    FetchesCounts(jobs, Outdated(fs, prefix, ts, reg, force));
    if force { AllBelow(|ts|, Outdated(fs, prefix, ts, reg, force)); }
  }

  lemma {:induction false} AllBelow(n: nat, s: set<nat>)
    requires forall i: nat :: i in s <==> i < n
    ensures |s| == n
  {
    if n == 0 { assert s == {}; } else { AllBelow(n - 1, s - {n - 1}); }
  }

  // ----- what the stores hold -----

  /** A fetched package's store is what its archive unpacks to, whatever lay there before;
      one that is up to date keeps its store, record aside. */
  ghost predicate StoreAfter(limit: nat, fs: FS, fs': FS, prefix: Path, n: string, artifact: Artifact, force: bool) {
    var store := StorePath(prefix, n);
    if OutOfDate(fs, prefix, n, artifact, force) then UnpackedFrom(limit, fs', store, artifact.entries)
    else SameTree(fs, store, fs', store)
  }

  lemma UnderThen(x: FS, y: FS, z: FS, d: Path)
    requires SameUnder(x, y, d) && SameUnder(y, z, d)
    ensures SameUnder(x, z, d)
  {
    forall p | d <= p ensures SameAt(x, z, p) { assert SameAt(x, y, p) && SameAt(y, z, p); }
  }

  lemma UnpackedStays(limit: nat, fs: FS, fs': FS, store: Path, entries: seq<Extract.Entry>)
    requires UnpackedFrom(limit, fs, store, entries) && SameTree(fs, store, fs', store)
    ensures UnpackedFrom(limit, fs', store, entries)
  {
    var empty, dir :| UnpacksTo(limit, empty, dir, entries, fs, store);
    TreeThen(Extract.ExtractAll(limit, empty, dir, entries).fs, dir, fs, store, fs', store);
    assert UnpacksTo(limit, empty, dir, entries, fs', store);
  }

  lemma StoreAfterStays(limit: nat, fs: FS, mid: FS, fs': FS, prefix: Path, n: string, artifact: Artifact, force: bool)
    requires StoreAfter(limit, fs, mid, prefix, n, artifact, force) && SameUnder(mid, fs', StorePath(prefix, n))
    ensures StoreAfter(limit, fs, fs', prefix, n, artifact, force)
  {
    var store := StorePath(prefix, n);
    UnderIsTree(mid, fs', store);
    if OutOfDate(fs, prefix, n, artifact, force) { UnpackedStays(limit, mid, fs', store, artifact.entries); }
    else { TreeThen(fs, store, mid, store, fs', store); }
  }

  /** What the store of n has become once the first k jobs are committed, if the j-th is its own. */
  ghost predicate StoreSoFar(limit: nat, fs: FS, prefix: Path, jobs: seq<Job>, j: nat, n: string, k: nat, x: FS)
    requires j < |jobs| ==> jobs[j].name == n
  {
    if j < |jobs| && j < k then
      if jobs[j].fetch then UnpackedFrom(limit, x, StorePath(prefix, n), jobs[j].artifact.entries)
      else SameTree(fs, StorePath(prefix, n), x, StorePath(prefix, n))
    else SameUnder(fs, x, StorePath(prefix, n))
  }

  lemma OwnStore(limit: nat, fs: FS, x: FS, prefix: Path, jobs: seq<Job>, j: nat, suffix: string)
    requires Starts(limit, x, prefix, jobs, j, suffix) && j < |jobs| && CommitJob(limit, x, prefix, jobs[j], suffix).ok
    requires SameUnder(fs, x, StorePath(prefix, jobs[j].name))
    ensures StoreSoFar(limit, fs, prefix, jobs, j, jobs[j].name, j + 1, CommitJob(limit, x, prefix, jobs[j], suffix).fs)
  {
    var job := jobs[j];
    var x' := CommitJob(limit, x, prefix, job, suffix).fs;
    var store := StorePath(prefix, job.name);
    if job.fetch {
      var stage := StagePath(prefix, job.name, suffix);
      FetchedStore(limit, x, prefix, job, suffix);
      WithStageEffect(x, prefix, job.name, suffix);
      assert UnpacksTo(limit, WithStage(x, prefix, stage), stage, job.artifact.entries, x', store);
    } else {
      RelinkKeepsStore(limit, x, prefix, job, suffix);
      UnderIsTree(fs, x, store);
      TreeThen(fs, store, x, store, x', store);
    }
  }

  lemma OtherStore(limit: nat, fs: FS, x: FS, x': FS, prefix: Path, jobs: seq<Job>, j: nat, n: string, k: nat)
    requires k < |jobs| && (j < |jobs| ==> jobs[j].name == n) && jobs[k].name != n
    requires OnlyStore(x, x', prefix, jobs[k].name) && StoreSoFar(limit, fs, prefix, jobs, j, n, k, x)
    ensures StoreSoFar(limit, fs, prefix, jobs, j, n, k + 1, x')
  {
    var store := StorePath(prefix, n);
    OtherStoreSame(x, x', prefix, jobs[k].name, n);
    if j < |jobs| && j < k {
      UnderIsTree(x, x', store);
      if jobs[j].fetch { UnpackedStays(limit, x, x', store, jobs[j].artifact.entries); }
      else { TreeThen(fs, store, x, store, x', store); }
    } else {
      UnderThen(fs, x, x', store);
    }
  }

  /** Job j, if there is one that far, is the package's own, and no other. */
  ghost predicate OwnJob(jobs: seq<Job>, j: nat, n: string) {
    j <= |jobs| && forall i :: 0 <= i < |jobs| ==> (jobs[i].name == n <==> i == j)
  }

  lemma StoreNext(limit: nat, fs: FS, x: FS, prefix: Path, jobs: seq<Job>, j: nat, n: string, k: nat, suffix: string)
    requires OwnJob(jobs, j, n) && k < |jobs| && Starts(limit, x, prefix, jobs, k, suffix)
    requires StoreSoFar(limit, fs, prefix, jobs, j, n, k, x) && CommitJob(limit, x, prefix, jobs[k], suffix).ok
    ensures Starts(limit, CommitJob(limit, x, prefix, jobs[k], suffix).fs, prefix, jobs, k + 1, suffix)
    ensures StoreSoFar(limit, fs, prefix, jobs, j, n, k + 1, CommitJob(limit, x, prefix, jobs[k], suffix).fs)
  {
    NextStarts(limit, x, prefix, jobs, k, suffix);
    if k == j {
      OwnStore(limit, fs, x, prefix, jobs, j, suffix);
    } else {
      OtherStore(limit, fs, x, CommitJob(limit, x, prefix, jobs[k], suffix).fs, prefix, jobs, j, n, k);
    }
  }

  lemma CommitStores(limit: nat, fs: FS, prefix: Path, jobs: seq<Job>, suffix: string, j: nat, n: string)
    requires OwnJob(jobs, j, n) && Starts(limit, fs, prefix, jobs, 0, suffix) && CommitFrom(limit, fs, prefix, jobs, 0, suffix).ok
    ensures StoreSoFar(limit, fs, prefix, jobs, j, n, |jobs|, CommitFrom(limit, fs, prefix, jobs, 0, suffix).fs)
  {
    var good := (i: nat, x: FS) => Starts(limit, x, prefix, jobs, i, suffix) && StoreSoFar(limit, fs, prefix, jobs, j, n, i, x);
    forall i: nat, x: FS | i < |jobs| ensures Leaves(limit, prefix, jobs, i, suffix, good, x) {
      if good(i, x) && Ready(x, prefix) && CommitJob(limit, x, prefix, jobs[i], suffix).ok {
        StoreNext(limit, fs, x, prefix, jobs, j, n, i, suffix);
      }
    }
    LoopLeaves(limit, fs, prefix, jobs, 0, suffix, good);
  }

  // ----- preparation leaves what is installed -----

  lemma DroppedStores(fs: FS, prefix: Path, m: string, n: string)
    requires m != n
    ensures SameUnder(fs, RemoveTree(fs, StorePath(prefix, m)), StorePath(prefix, n))
  {
    forall p | StorePath(prefix, n) <= p ensures SameAt(fs, RemoveTree(fs, StorePath(prefix, m)), p) {
      assert p[|prefix| + 1] == StorePath(prefix, n)[|prefix| + 1] == n && StorePath(prefix, m)[|prefix| + 1] == m;
    }
  }

  lemma PrepareOneStore(limit: nat, fs: FS, prefix: Path, m: string, n: string)
    requires Inv(limit, fs, prefix) && ValidName(m) && PrepareOne(limit, fs, prefix, m).ok
    requires Installed(fs, prefix, n) || m != n
    ensures SameUnder(fs, PrepareOne(limit, fs, prefix, m).fs, StorePath(prefix, n))
  {
    TargetReads(limit, fs, prefix, m);
    if m != n { DroppedStores(fs, prefix, m, n); }
  }

  lemma {:induction false} PrepareStores(limit: nat, fs: FS, prefix: Path, ts: seq<Target>, reg: Registry, force: bool, n: string)
    requires AllPublished(ts, reg) && Inv(limit, fs, prefix) && Prepare(limit, fs, prefix, ts, reg, force).ok
    requires forall i :: 0 <= i < |ts| ==> ValidName(ts[i].name)
    requires Installed(fs, prefix, n) || !Targeted(ts, n)
    ensures SameUnder(fs, Prepare(limit, fs, prefix, ts, reg, force).fs, StorePath(prefix, n))
    decreases |ts|
  {
    if ts != [] {
      var m := ts[0].name;
      var mid := PrepareOne(limit, fs, prefix, m).fs;
      PrepareOneKeeps(limit, fs, prefix, m);
      assert ts == [ts[0]] + ts[1..];
      TargetedCons(ts[0], ts[1..], n);
      PrepareOneStore(limit, fs, prefix, m, n);
      PrepareStores(limit, mid, prefix, ts[1..], reg, force, n);
      UnderThen(fs, mid, Prepare(limit, fs, prefix, ts, reg, force).fs, StorePath(prefix, n));
    }
  }

  // ----- a whole plan -----

  /** What the plan made of the store of n, seen from the state before it. */
  ghost predicate StoreOutcome(limit: nat, fs: FS, fs': FS, prefix: Path, ts: seq<Target>, arch: string, force: bool,
                               reg: Registry, n: string) {
    && (!Targeted(ts, n) ==> SameUnder(fs, fs', StorePath(prefix, n)))
    && (forall i :: 0 <= i < |ts| && ts[i].name == n ==>
          var a := if ts[i].arch == "" then arch else ts[i].arch;
          (n, a) in reg && StoreAfter(limit, fs, fs', prefix, n, reg[(n, a)], force))
  }

  lemma UntargetedStore(limit: nat, fs: FS, prefix: Path, targets: seq<Target>, arch: string, force: bool,
                        reg: Registry, suffix: string, n: string)
    requires Inv(limit, fs, prefix) && TameRegistry(prefix, reg, suffix) && DistinctTargets(targets)
    requires InstallPlan(limit, fs, prefix, targets, arch, force, reg, suffix).ok && !Targeted(targets, n)
    ensures SameUnder(fs, InstallPlan(limit, fs, prefix, targets, arch, force, reg, suffix).fs, StorePath(prefix, n))
  {
    PlanStarts(limit, fs, prefix, targets, arch, force, reg, suffix);
    var ts := ResolveTargets(targets, arch).value;
    var p := Prepare(limit, fs, prefix, ts, reg, force);
    forall i | 0 <= i < |ts| ensures ts[i].name != n { assert targets[i].name == ts[i].name; }
    PrepareStores(limit, fs, prefix, ts, reg, force, n);
    CommitStores(limit, p.fs, prefix, p.jobs, suffix, |p.jobs|, n);
    UnderThen(fs, p.fs, InstallPlan(limit, fs, prefix, targets, arch, force, reg, suffix).fs, StorePath(prefix, n));
  }

  lemma TargetStore(limit: nat, fs: FS, prefix: Path, targets: seq<Target>, arch: string, force: bool,
                    reg: Registry, suffix: string, i: nat)
    requires Inv(limit, fs, prefix) && TameRegistry(prefix, reg, suffix) && DistinctTargets(targets) && i < |targets|
    requires InstallPlan(limit, fs, prefix, targets, arch, force, reg, suffix).ok
    ensures var a := if targets[i].arch == "" then arch else targets[i].arch;
      (targets[i].name, a) in reg &&
      StoreAfter(limit, fs, InstallPlan(limit, fs, prefix, targets, arch, force, reg, suffix).fs, prefix, targets[i].name,
                 reg[(targets[i].name, a)], force)
  {
    PlanStarts(limit, fs, prefix, targets, arch, force, reg, suffix);
    var ts := ResolveTargets(targets, arch).value;
    var p := Prepare(limit, fs, prefix, ts, reg, force);
    FetchDecision(limit, fs, prefix, ts, reg, force, i);
    forall k | 0 <= k < |p.jobs| ensures p.jobs[k].name == ts[i].name <==> k == i { assert p.jobs[k].name == ts[k].name; }
    CommitStores(limit, p.fs, prefix, p.jobs, suffix, i, ts[i].name);
    if !p.jobs[i].fetch {
      var store := StorePath(prefix, ts[i].name);
      PrepareStores(limit, fs, prefix, ts, reg, force, ts[i].name);
      UnderIsTree(fs, p.fs, store);
      TreeThen(fs, store, p.fs, store, InstallPlan(limit, fs, prefix, targets, arch, force, reg, suffix).fs, store);
    }
  }

  /** After a plan the store of each target that was out of date is what its published
      archive unpacks to, whatever lay there before, and every other store is as it was. */
  lemma PlanStores(limit: nat, fs: FS, prefix: Path, targets: seq<Target>, arch: string, force: bool,
                   reg: Registry, suffix: string, n: string)
    requires Inv(limit, fs, prefix) && TameRegistry(prefix, reg, suffix) && DistinctTargets(targets)
    requires InstallPlan(limit, fs, prefix, targets, arch, force, reg, suffix).ok
    ensures StoreOutcome(limit, fs, InstallPlan(limit, fs, prefix, targets, arch, force, reg, suffix).fs, prefix, targets, arch,
                         force, reg, n)
  {
    if !Targeted(targets, n) { UntargetedStore(limit, fs, prefix, targets, arch, force, reg, suffix, n); }
    forall i | 0 <= i < |targets| && targets[i].name == n
      ensures var a := if targets[i].arch == "" then arch else targets[i].arch;
        (n, a) in reg && StoreAfter(limit, fs, InstallPlan(limit, fs, prefix, targets, arch, force, reg, suffix).fs, prefix, n,
                                    reg[(n, a)], force)
    {
      TargetStore(limit, fs, prefix, targets, arch, force, reg, suffix, i);
    }
  }

  // ----- install and upgrade -----

  /** An install downloads what is forced or out of date and leaves every other store alone. */
  lemma InstallStores(limit: nat, fs: FS, prefix: Path, names: seq<string>, arch: string, linked: bool, force: bool,
                      reg: Registry, suffix: string, n: string)
    requires Inv(limit, fs, prefix) && TameRegistry(prefix, reg, suffix)
    requires InstallPackages(limit, fs, prefix, names, arch, linked, force, reg, suffix).ok
    ensures var fs' := InstallPackages(limit, fs, prefix, names, arch, linked, force, reg, suffix).fs;
      if n in names then (n, arch) in reg && StoreAfter(limit, fs, fs', prefix, n, reg[(n, arch)], force)
      else SameUnder(fs, fs', StorePath(prefix, n))
  {
    var ts := InstallTargets(names, arch, linked, {});
    InstallTargetsMean(names, arch, linked, {}, n);
    PlanStores(limit, fs, prefix, ts, arch, force, reg, suffix, n);
    if n in names { var i :| 0 <= i < |ts| && ts[i].name == n; }
  }

  /** An upgrade downloads only what is published with another digest than is on record. */
  lemma UpgradeStores(limit: nat, fs: FS, prefix: Path, arch: string, names: seq<string>, reg: Registry, suffix: string, n: string)
    requires Inv(limit, fs, prefix) && TameRegistry(prefix, reg, suffix)
    requires Upgrade(limit, fs, prefix, arch, names, reg, suffix).ok
    ensures Upgraded(limit, fs, prefix, names).Ok?
    ensures var fs' := Upgrade(limit, fs, prefix, arch, names, reg, suffix).fs;
      if n in Upgraded(limit, fs, prefix, names).value then
        UpgradedTo(fs, fs', prefix, arch, reg, n) &&
        var a := if arch != "" then arch else PlainMeta(fs, prefix, n).value.arch;
        StoreAfter(limit, fs, fs', prefix, n, reg[(n, a)], false)
      else SameUnder(fs, fs', StorePath(prefix, n))
  {
    UpgradeMeans(limit, fs, prefix, arch, names, reg, suffix, n);
    var all := Upgraded(limit, fs, prefix, names).value;
    if all != [] {
      var ts := UpgradeTargets(limit, fs, prefix, arch, all, {}).value;
      UpgradeTargetsMean(limit, fs, prefix, arch, all, {}, n);
      PlanStores(limit, fs, prefix, ts, arch, false, reg, suffix, n);
      if n in all {
        var i :| 0 <= i < |ts| && ts[i].name == n;
        assert AsRecorded(limit, fs, prefix, arch, ts[i]);
        TargetReads(limit, fs, prefix, n);
      }
    }
  }
}
