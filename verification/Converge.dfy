/** An installed plan is a fixed point of installing it again, exactly when no
    package offers a path above another's. */
module Converge {
  import opened Options
  import opened Lexical
  import opened FileTree
  import opened Prefix
  import opened Install
  import opened Lifecycle
  import opened Plan
  import opened Settle
  import opened Again

  function TargetMeta(t: Target, reg: Registry): Meta
    requires (t.name, t.arch) in reg
  {
    Meta(t.name, t.arch, reg[(t.name, t.arch)].digest, t.linked)
  }

  /** The metadata on disk is what the registry publishes for each target. */
  ghost predicate Recorded(fs: FS, prefix: Path, ts: seq<Target>, reg: Registry)
    requires AllPublished(ts, reg)
  {
    forall i :: 0 <= i < |ts| ==> PlainMeta(fs, prefix, ts[i].name) == Some(TargetMeta(ts[i], reg))
  }

  /** The state a successful run of the plan leaves. */
  ghost predicate Settled(limit: nat, fs: FS, prefix: Path, ts: seq<Target>, reg: Registry) {
    && Inv(limit, fs, prefix) && NamedTargets(ts) && AllPublished(ts, reg) && Recorded(fs, prefix, ts, reg)
    && DirsSettled(limit, fs, prefix, ts)
    && (NoClash(limit, fs, prefix, ts) ==> LinksSettled(limit, fs, fs, prefix, ts, |ts|))
  }

  // ----- the first run settles the plan -----

  lemma JobsMatch(prefix: Path, jobs: seq<Job>, ts: seq<Target>, reg: Registry, force: bool, suffix: string)
    requires AllPublished(ts, reg) && JobsFor(jobs, ts, reg, force) && TameRegistry(prefix, reg, suffix) && NamedTargets(ts)
    ensures Matches(jobs, ts) && DistinctJobs(jobs) && AllInstallable(prefix, jobs, suffix) && SkipsAreCurrent(jobs)
    ensures forall i :: 0 <= i < |ts| ==> JobMeta(jobs[i]) == TargetMeta(ts[i], reg)
  {
    JobsInstallable(prefix, jobs, ts, reg, force, suffix);
  }

  lemma TraceSettles(limit: nat, states: seq<FS>, prefix: Path, jobs: seq<Job>, ts: seq<Target>, reg: Registry)
    requires Trace(limit, states, prefix, jobs) && DistinctJobs(jobs) && Matches(jobs, ts) && NamedTargets(ts)
    requires AllPublished(ts, reg) && forall i :: 0 <= i < |ts| ==> JobMeta(jobs[i]) == TargetMeta(ts[i], reg)
    ensures Settled(limit, states[|jobs|], prefix, ts, reg)
  {
    var fin := states[|jobs|];
    forall i | 0 <= i < |ts|
      ensures PlainMeta(fin, prefix, ts[i].name) == Some(TargetMeta(ts[i], reg))
      ensures DirsReal(limit, fin, prefix, ts[i])
    {
      JobStays(limit, states, prefix, jobs, i);
      RunSettlesDirs(limit, states, prefix, jobs, ts[i], i);
    }
    SoundOf(limit, states, prefix, jobs, |jobs|);
    if NoClash(limit, fin, prefix, ts) { RunSettlesLinks(limit, states, prefix, jobs, ts, |ts|); }
  }

  lemma RunSettles(limit: nat, fs: FS, prefix: Path, jobs: seq<Job>, ts: seq<Target>, reg: Registry, force: bool, suffix: string)
    requires Inv(limit, fs, prefix) && AllPublished(ts, reg) && JobsFor(jobs, ts, reg, force)
    requires TameRegistry(prefix, reg, suffix) && NamedTargets(ts) && JobsCurrent(fs, prefix, jobs)
    requires AllInstallable(prefix, jobs, suffix) && CommitFrom(limit, fs, prefix, jobs, 0, suffix).ok
    ensures Settled(limit, CommitFrom(limit, fs, prefix, jobs, 0, suffix).fs, prefix, ts, reg)
  {
    JobsMatch(prefix, jobs, ts, reg, force, suffix);
    var states := RunIsTraced(limit, fs, prefix, jobs, suffix);
    TraceSettles(limit, states, prefix, jobs, ts, reg);
  }

  lemma ResolvedNamed(targets: seq<Target>, arch: string)
    requires ResolveTargets(targets, arch).Ok? && DistinctTargets(targets)
    ensures NamedTargets(ResolveTargets(targets, arch).value)
  {}

  lemma InstallPlanSettles(limit: nat, fs: FS, prefix: Path, targets: seq<Target>, arch: string, force: bool,
                           reg: Registry, suffix: string)
    requires Inv(limit, fs, prefix) && TameRegistry(prefix, reg, suffix) && DistinctTargets(targets)
    requires InstallPlan(limit, fs, prefix, targets, arch, force, reg, suffix).ok
    ensures ResolveTargets(targets, arch).Ok?
    ensures Settled(limit, InstallPlan(limit, fs, prefix, targets, arch, force, reg, suffix).fs, prefix,
                    ResolveTargets(targets, arch).value, reg)
  {
    var ts := ResolveTargets(targets, arch).value;
    ResolvedNamed(targets, arch);
    var p := Prepare(limit, fs, prefix, ts, reg, force);
    Prepares(limit, fs, prefix, ts, reg, force);
    JobsInstallable(prefix, p.jobs, ts, reg, force, suffix);
    RunSettles(limit, p.fs, prefix, p.jobs, ts, reg, force, suffix);
  }

  // ----- the second run -----

  /** A settled target is left as it is, and its job has nothing to do but its links. */
  lemma SettledTarget(limit: nat, fs: FS, prefix: Path, t: Target, reg: Registry)
    requires Inv(limit, fs, prefix) && ValidName(t.name) && (t.name, t.arch) in reg
    requires PlainMeta(fs, prefix, t.name) == Some(TargetMeta(t, reg))
    ensures PrepareOne(limit, fs, prefix, t.name) == Step(fs, true)
    ensures ReadMeta(limit, fs, prefix, t.name) == Some(TargetMeta(t, reg))
    ensures UpToDate(MakeJob(t, reg[(t.name, t.arch)], ReadMeta(limit, fs, prefix, t.name), false))
  {
    TargetReads(limit, fs, prefix, t.name);
  }

  lemma RecordedTail(fs: FS, prefix: Path, ts: seq<Target>, reg: Registry)
    requires AllPublished(ts, reg) && Recorded(fs, prefix, ts, reg) && ts != []
    ensures AllPublished(ts[1..], reg) && Recorded(fs, prefix, ts[1..], reg)
    ensures PlainMeta(fs, prefix, ts[0].name) == Some(TargetMeta(ts[0], reg))
  {
    assert forall i :: 0 <= i < |ts| - 1 ==> ts[1..][i] == ts[i + 1];
  }

  /** Preparing a settled plan changes nothing and leaves nothing to fetch. */
  lemma {:induction false} PrepareSettled(limit: nat, fs: FS, prefix: Path, ts: seq<Target>, reg: Registry)
    requires Inv(limit, fs, prefix) && AllPublished(ts, reg) && Recorded(fs, prefix, ts, reg)
    requires forall i :: 0 <= i < |ts| ==> ValidName(ts[i].name)
    ensures var p := Prepare(limit, fs, prefix, ts, reg, false);
      p.ok && p.fs == fs && JobsFor(p.jobs, ts, reg, false) && forall i :: 0 <= i < |p.jobs| ==> UpToDate(p.jobs[i])
    decreases |ts|
  {
    if ts != [] {
      RecordedTail(fs, prefix, ts, reg);
      SettledTarget(limit, fs, prefix, ts[0], reg);
      PrepareSettled(limit, fs, prefix, ts[1..], reg);
    }
  }

  lemma SettledCommitted(limit: nat, fs: FS, prefix: Path, ts: seq<Target>, reg: Registry)
    requires Settled(limit, fs, prefix, ts, reg) && NoClash(limit, fs, prefix, ts)
    ensures Committed(limit, fs, prefix, ts)
  {}

  lemma CommitAgain(limit: nat, fs: FS, prefix: Path, jobs: seq<Job>, ts: seq<Target>, reg: Registry, suffix: string)
    requires Settled(limit, fs, prefix, ts, reg) && Matches(jobs, ts) && AllInstallable(prefix, jobs, suffix)
    requires forall i :: 0 <= i < |jobs| ==> UpToDate(jobs[i])
    ensures var s := CommitFrom(limit, fs, prefix, jobs, 0, suffix);
      (s.ok <==> NoClash(limit, fs, prefix, ts)) && (s.ok ==> s.fs == fs)
  {
    if NoClash(limit, fs, prefix, ts) {
      SettledCommitted(limit, fs, prefix, ts, reg);
      RerunChangesNothing(limit, fs, prefix, jobs, ts, suffix);
    } else {
      forall i | 0 <= i < |jobs| ensures Installed(fs, prefix, jobs[i].name) {
        assert PlainMeta(fs, prefix, ts[i].name) == Some(TargetMeta(ts[i], reg));
      }
      RerunFails(limit, fs, prefix, jobs, ts, suffix);
    }
  }

  /** Installing a settled plan again succeeds exactly when no package offers a path
      above another's, and then nothing at all has changed. */
  lemma InstallPlanAgain(limit: nat, fs: FS, prefix: Path, targets: seq<Target>, arch: string, reg: Registry, suffix: string)
    requires ResolveTargets(targets, arch).Ok? && TameRegistry(prefix, reg, suffix)
    requires Settled(limit, fs, prefix, ResolveTargets(targets, arch).value, reg)
    ensures var s := InstallPlan(limit, fs, prefix, targets, arch, false, reg, suffix);
      (s.ok <==> NoClash(limit, fs, prefix, ResolveTargets(targets, arch).value)) && (s.ok ==> s.fs == fs)
  {
    var ts := ResolveTargets(targets, arch).value;
    var p := Prepare(limit, fs, prefix, ts, reg, false);
    PrepareSettled(limit, fs, prefix, ts, reg);
    JobsMatch(prefix, p.jobs, ts, reg, false, suffix);
    CommitAgain(limit, fs, prefix, p.jobs, ts, reg, suffix);
  }
}
