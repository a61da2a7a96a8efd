/** What a committed plan leaves its packages offering, and in which order clashing
    packages must be listed (cmd/binman/install.go). */
module PlanOrder {
  import opened Lexical
  import opened FileTree
  import Collect
  import Aggregate
  import Prefix
  import opened Install
  import opened Lifecycle
  import opened Plan
  import Outcomes
  import Contents
  import opened Settle
  import Converge
  import Sturdy
  import opened Succeeds

  // ----- a committed plan offers what its archives hold -----

  /** Between the k-th job and the i-th the package n has been left alone. */
  ghost predicate LeftSoFar(limit: nat, fs: FS, prefix: Path, jobs: seq<Job>, k: nat, suffix: string, n: string, i: nat, x: FS) {
    k <= i && Underway(limit, x, prefix, jobs, i, suffix) && Outcomes.PackageSame(limit, fs, x, prefix, n)
  }

  lemma NextLeft(limit: nat, fs: FS, prefix: Path, jobs: seq<Job>, k: nat, suffix: string, n: string, i: nat, x: FS)
    requires LeftSoFar(limit, fs, prefix, jobs, k, suffix, n, i, x) && i < |jobs| && jobs[i].name != n
    requires CommitJob(limit, x, prefix, jobs[i], suffix).ok
    ensures LeftSoFar(limit, fs, prefix, jobs, k, suffix, n, i + 1, CommitJob(limit, x, prefix, jobs[i], suffix).fs)
  {
    NextUnderway(limit, x, prefix, jobs, i, suffix);
    OthersStable(limit, x, CommitJob(limit, x, prefix, jobs[i], suffix).fs, prefix, jobs[i].name, n);
  }

  lemma LaterLeave(limit: nat, fs: FS, prefix: Path, jobs: seq<Job>, k: nat, suffix: string, n: string)
    requires Underway(limit, fs, prefix, jobs, k, suffix) && CommitFrom(limit, fs, prefix, jobs, k, suffix).ok && k <= |jobs|
    requires forall i :: k <= i < |jobs| ==> jobs[i].name != n
    ensures Outcomes.PackageSame(limit, fs, CommitFrom(limit, fs, prefix, jobs, k, suffix).fs, prefix, n)
  {
    var good := (i: nat, x: FS) => LeftSoFar(limit, fs, prefix, jobs, k, suffix, n, i, x);
    forall i: nat, x: FS | i < |jobs| ensures Contents.Leaves(limit, prefix, jobs, i, suffix, good, x) {
      if Prefix.Ready(x, prefix) && good(i, x) && CommitJob(limit, x, prefix, jobs[i], suffix).ok {
        NextLeft(limit, fs, prefix, jobs, k, suffix, n, i, x);
      }
    }
    Contents.LoopLeaves(limit, fs, prefix, jobs, k, suffix, good);
  }

  lemma {:induction false} CommittedOffers(limit: nat, fs: FS, prefix: Path, jobs: seq<Job>, k: nat, suffix: string, i: nat)
    requires Underway(limit, fs, prefix, jobs, k, suffix) && CommitFrom(limit, fs, prefix, jobs, k, suffix).ok && k <= i < |jobs|
    ensures Files(limit, CommitFrom(limit, fs, prefix, jobs, k, suffix).fs, prefix, jobs[i].name) == Offered(limit, fs, prefix, jobs[i], suffix)
    decreases |jobs| - k
  {
    NextUnderway(limit, fs, prefix, jobs, k, suffix);
    var fs' := CommitJob(limit, fs, prefix, jobs[k], suffix).fs;
    if i == k {
      JobOffers(limit, fs, prefix, jobs[k], suffix);
      LaterLeave(limit, fs', prefix, jobs, k + 1, suffix, jobs[k].name);
    } else {
      CommittedOffers(limit, fs', prefix, jobs, k + 1, suffix, i);
      LaterIsSame(limit, fs, fs', prefix, jobs, k, suffix);
    }
  }

  lemma PlanOffers(limit: nat, fs: FS, prefix: Path, targets: seq<Target>, arch: string, force: bool, reg: Registry, suffix: string, i: nat)
    requires Sturdy.IsSturdy(limit, fs, prefix) && Names(prefix) && TameRegistry(prefix, reg, suffix) && DistinctTargets(targets) && i < |targets|
    requires InstallPlan(limit, fs, prefix, targets, arch, force, reg, suffix).ok
    ensures ResolveTargets(targets, arch).Ok? && AllPublished(ResolveTargets(targets, arch).value, reg)
    ensures var job := PlannedJobs(fs, prefix, ResolveTargets(targets, arch).value, reg, force)[i];
      Prefix.ValidName(job.name) &&
      Files(limit, InstallPlan(limit, fs, prefix, targets, arch, force, reg, suffix).fs, prefix, targets[i].name) == Offered(limit, fs, prefix, job, suffix)
  {
    var ts := ResolveTargets(targets, arch).value;
    Converge.ResolvedNamed(targets, arch);
    PreparedStarts(limit, fs, prefix, ts, reg, force, suffix);
    PreparedAlike(limit, fs, prefix, ts, reg, force, suffix);
    var p := Prepare(limit, fs, prefix, ts, reg, force);
    CommittedOffers(limit, p.fs, prefix, p.jobs, 0, suffix, i);
  }

  lemma ClearOrders(limit: nat, fs: FS, prefix: Path, jobs: seq<Job>, suffix: string, i: nat, j: nat, q: Path, q': Path)
    requires AllNamed(prefix, jobs) && AllClear(limit, fs, prefix, jobs, 0, suffix) && i < |jobs| && j < |jobs| && q < q'
    requires Brings(limit, fs, prefix, jobs[i], suffix, q) && Brings(limit, fs, prefix, jobs[j], suffix, q')
    ensures i <= j
  {
    assert BringsBelow(limit, fs, prefix, jobs[j], suffix, q);
    assert ClearAt(limit, fs, prefix, jobs, 0, i, suffix);
  }

  lemma NoneAboveInOne(limit: nat, fs: FS, prefix: Path, n: string, q: Path, q': Path)
    requires WF(fs) && Files(limit, fs, prefix, n).Ok? && q in Files(limit, fs, prefix, n).value && q' in Files(limit, fs, prefix, n).value
    ensures !(q < q')
  {
    Collect.CollectedAreLinkable(limit, fs, Aggregate.StorePath(prefix, n));
    var files := Files(limit, fs, prefix, n).value;
    var a :| 0 <= a < |files| && files[a] == q;
    var b :| 0 <= b < |files| && files[b] == q';
  }

  lemma PlanBrings(limit: nat, fs: FS, prefix: Path, targets: seq<Target>, arch: string, force: bool, reg: Registry, suffix: string,
                   i: nat, q: Path)
    requires Sturdy.IsSturdy(limit, fs, prefix) && Names(prefix) && TameRegistry(prefix, reg, suffix) && DistinctTargets(targets)
    requires InstallPlan(limit, fs, prefix, targets, arch, force, reg, suffix).ok && i < |targets|
    requires Offers(limit, InstallPlan(limit, fs, prefix, targets, arch, force, reg, suffix).fs, prefix, targets[i], q)
    ensures ResolveTargets(targets, arch).Ok? && AllPublished(ResolveTargets(targets, arch).value, reg)
    ensures var jobs := PlannedJobs(fs, prefix, ResolveTargets(targets, arch).value, reg, force);
      AllNamed(prefix, jobs) && Brings(limit, fs, prefix, jobs[i], suffix, q)
  {
    PlanOffers(limit, fs, prefix, targets, arch, force, reg, suffix, i);
  }

  /** Where a plan succeeds although one package's path lies above another's, the package
      with the upper path comes first. */
  lemma UpperComesFirst(limit: nat, fs: FS, prefix: Path, targets: seq<Target>, arch: string, force: bool, reg: Registry, suffix: string,
                        i: nat, j: nat, q: Path, q': Path)
    requires Sturdy.IsSturdy(limit, fs, prefix) && Names(prefix) && TameRegistry(prefix, reg, suffix) && DistinctTargets(targets)
    requires InstallPlan(limit, fs, prefix, targets, arch, force, reg, suffix).ok && i < |targets| && j < |targets| && q < q'
    requires Offers(limit, InstallPlan(limit, fs, prefix, targets, arch, force, reg, suffix).fs, prefix, targets[i], q)
    requires Offers(limit, InstallPlan(limit, fs, prefix, targets, arch, force, reg, suffix).fs, prefix, targets[j], q')
    ensures i < j
  {
    PlanBrings(limit, fs, prefix, targets, arch, force, reg, suffix, i, q);
    PlanBrings(limit, fs, prefix, targets, arch, force, reg, suffix, j, q');
    PlanSucceedsExactly(limit, fs, prefix, targets, arch, force, reg, suffix);
    InstallPlanKeeps(limit, fs, prefix, targets, arch, force, reg, suffix);
    ClearOrders(limit, fs, prefix, PlannedJobs(fs, prefix, ResolveTargets(targets, arch).value, reg, force), suffix, i, j, q, q');
    NotTheSame(limit, InstallPlan(limit, fs, prefix, targets, arch, force, reg, suffix).fs, prefix, targets, i, j, q, q');
  }

  lemma NotTheSame(limit: nat, fs': FS, prefix: Path, targets: seq<Target>, i: nat, j: nat, q: Path, q': Path)
    requires WF(fs') && i < |targets| && j < |targets| && q < q'
    requires Offers(limit, fs', prefix, targets[i], q) && Offers(limit, fs', prefix, targets[j], q')
    ensures i != j
  {
    if i == j { NoneAboveInOne(limit, fs', prefix, targets[i].name, q, q'); }
  }
}
