/** What a loop that stops at its first error leaves: the elements before that one have been
    dealt with, that one has failed, and nothing has been done for those after it
    (cmd/binman/store.go, cmd/binman/install.go, cmd/binman/manifest.go, cmd/artifact/normalize.go). */
module FirstError {
  import opened Lexical
  import opened FileTree
  import opened Extract
  import opened Collect
  import opened Aggregate
  import opened Prefix
  import opened Install
  import opened Plan
  import opened Commands
  import opened Manifest
  import Normalize

  /** extractTarGz. */
  lemma {:induction false} ExtractionStops(limit: nat, fs: FS, dst: Path, es: seq<Entry>) returns (k: nat)
    requires WF(fs) && RealDir(fs, dst) && !ExtractAll(limit, fs, dst, es).ok
    ensures k < |es|
    ensures var before := ExtractAll(limit, fs, dst, es[..k]);
      && before.ok && WF(before.fs) && RealDir(before.fs, dst) && !ExtractEntry(limit, before.fs, dst, es[k]).ok
      && ExtractAll(limit, fs, dst, es) == ExtractEntry(limit, before.fs, dst, es[k])
    decreases |es|
  {
    var s := ExtractEntry(limit, fs, dst, es[0]);
    ExtractEntryKeeps(limit, fs, dst, es[0]);
    k := 0;
    if s.ok {
      k := ExtractionStops(limit, s.fs, dst, es[1..]);
      k := k + 1;
      assert es[..k][0] == es[0] && es[..k][1..] == es[1..][..k - 1];
    }
  }

  lemma LinkableParts(files: seq<Path>, k: nat)
    requires Linkable(files) && k <= |files|
    ensures Linkable(files[..k]) && Linkable(files[k..])
  {}

  /** One file more at the front. */
  lemma LinkFirst(limit: nat, fs: FS, root: Path, store: Path, files: seq<Path>)
    requires WF(fs) && Rootable(fs, root) && Linkable(files) && files != []
    ensures var s := LinkOne(limit, fs, root, store, files[0]);
      && WF(s.fs) && Rootable(s.fs, root) && Linkable(files[1..]) && (s.ok <==> !RealDir(fs, root + files[0]))
      && LinkFiles(limit, fs, root, store, files) == if s.ok then LinkFiles(limit, s.fs, root, store, files[1..]) else s
  {
    LinkOneEffect(limit, fs, root, store, files[0]);
    RootStays(fs, LinkOne(limit, fs, root, store, files[0]).fs, root, files[0]);
    LinkableParts(files, 1);
  }

  /** The files before the k-th are linked, and a directory stands in the k-th one's place. */
  ghost predicate LinkStopsAt(limit: nat, fs: FS, root: Path, store: Path, files: seq<Path>, k: nat)
    requires WF(fs) && Rootable(fs, root) && Linkable(files)
  {
    && k < |files| && Linkable(files[..k])
    && var before := LinkFiles(limit, fs, root, store, files[..k]);
       && before.ok && WF(before.fs) && Rootable(before.fs, root) && RealDir(before.fs, root + files[k])
       && LinkFiles(limit, fs, root, store, files) == LinkOne(limit, before.fs, root, store, files[k])
  }

  lemma LinkStopsNext(limit: nat, fs: FS, root: Path, store: Path, files: seq<Path>, k: nat)
    requires WF(fs) && Rootable(fs, root) && Linkable(files) && files != [] && Linkable(files[1..])
    requires var s := LinkOne(limit, fs, root, store, files[0]);
      s.ok && WF(s.fs) && Rootable(s.fs, root) && LinkStopsAt(limit, s.fs, root, store, files[1..], k)
    ensures LinkStopsAt(limit, fs, root, store, files, k + 1)
  {
    LinkFirst(limit, fs, root, store, files);
    LinkableParts(files, k + 1);
    LinkFirst(limit, fs, root, store, files[..k + 1]);
    assert files[..k + 1][1..] == files[1..][..k];
  }

  /** linkPkgInto. */
  lemma {:induction false} LinkingStops(limit: nat, fs: FS, root: Path, store: Path, files: seq<Path>) returns (k: nat)
    requires WF(fs) && Rootable(fs, root) && Linkable(files) && !LinkFiles(limit, fs, root, store, files).ok
    ensures LinkStopsAt(limit, fs, root, store, files, k)
    decreases |files|
  {
    LinkFirst(limit, fs, root, store, files);
    k := 0;
    if LinkOne(limit, fs, root, store, files[0]).ok {
      k := LinkingStops(limit, LinkOne(limit, fs, root, store, files[0]).fs, root, store, files[1..]);
      LinkStopsNext(limit, fs, root, store, files, k);
      k := k + 1;
    }
  }

  /** unlinkPkgFrom. */
  lemma {:induction false} UnlinkingStops(fs: FS, root: Path, store: Path, files: seq<Path>) returns (k: nat)
    requires !UnlinkFiles(fs, root, store, files).ok
    ensures k < |files|
    ensures var before := UnlinkFiles(fs, root, store, files[..k]);
      && before.ok && !ParentsOk(before.fs, root + files[k], |root| + 1)
      && UnlinkFiles(fs, root, store, files) == Step(before.fs, false)
    decreases |files|
  {
    var s := UnlinkOne(fs, root, store, files[0]);
    k := 0;
    if s.ok {
      k := UnlinkingStops(s.fs, root, store, files[1..]);
      k := k + 1;
      assert files[..k][0] == files[0] && files[..k][1..] == files[1..][..k - 1];
    }
  }

  /** The commit loop of installPackagePlan. */
  lemma {:induction false} CommittingStops(limit: nat, fs: FS, prefix: Path, jobs: seq<Job>, k: nat, suffix: string) returns (j: nat)
    requires Ready(fs, prefix) && AllInstallable(prefix, jobs, suffix) && !CommitFrom(limit, fs, prefix, jobs, k, suffix).ok
    ensures k <= j < |jobs| && AllInstallable(prefix, jobs[..j], suffix)
    ensures var before := CommitFrom(limit, fs, prefix, jobs[..j], k, suffix);
      && before.ok && Ready(before.fs, prefix) && !CommitJob(limit, before.fs, prefix, jobs[j], suffix).ok
      && CommitFrom(limit, fs, prefix, jobs, k, suffix) == CommitJob(limit, before.fs, prefix, jobs[j], suffix)
    decreases |jobs| - k
  {
    var s := CommitJob(limit, fs, prefix, jobs[k], suffix);
    CommitJobReady(limit, fs, prefix, jobs[k], suffix);
    j := k;
    if s.ok { j := CommittingStops(limit, s.fs, prefix, jobs, k + 1, suffix); }
  }

  /** A plan with a target that is invalid or not published is refused before anything is done. */
  lemma RefusedPlanChangesNothing(limit: nat, fs: FS, prefix: Path, targets: seq<Target>, arch: string, force: bool,
                                  reg: Registry, suffix: string, t: Target)
    requires Ready(fs, prefix) && TameRegistry(prefix, reg, suffix) && t in targets
    requires var a := if t.arch == "" then arch else t.arch; !ValidName(t.name) || !ValidArch(a) || (t.name, a) !in reg
    ensures InstallPlan(limit, fs, prefix, targets, arch, force, reg, suffix) == Step(fs, false)
  {
    ResolvesExactly(targets, arch);
    var i :| 0 <= i < |targets| && targets[i] == t;
    if ResolveTargets(targets, arch).Ok? {
      var r := ResolveTargets(targets, arch).value[i];
      assert r.name == t.name && (r.name, r.arch) !in reg;
    }
  }

  /** The removals of a prune. */
  lemma {:induction false} PruningStops(limit: nat, fs: FS, prefix: Path, installed: seq<string>, wanted: set<string>) returns (k: nat)
    requires !PruneAll(limit, fs, prefix, installed, wanted).ok
    ensures k < |installed| && installed[k] !in wanted
    ensures var before := PruneAll(limit, fs, prefix, installed[..k], wanted);
      && before.ok && !Remove(limit, before.fs, prefix, installed[k]).ok
      && PruneAll(limit, fs, prefix, installed, wanted) == Remove(limit, before.fs, prefix, installed[k])
    decreases |installed|
  {
    k := 0;
    if installed[0] in wanted || Remove(limit, fs, prefix, installed[0]).ok {
      var fs' := if installed[0] in wanted then fs else Remove(limit, fs, prefix, installed[0]).fs;
      k := PruningStops(limit, fs', prefix, installed[1..], wanted);
      k := k + 1;
      assert installed[..k][0] == installed[0] && installed[..k][1..] == installed[1..][..k - 1];
    }
  }

  ghost predicate CanLinkTo(fs: FS, prefix: Path, profile: string, packages: seq<string>) {
    && Ready(fs, prefix) && ProfilesReal(fs, prefix) && IsName(profile)
    && forall i :: 0 <= i < |packages| ==> ValidName(packages[i])
  }

  /** One package more at the front. */
  lemma ProfileFirst(limit: nat, fs: FS, prefix: Path, profile: string, packages: seq<string>)
    requires CanLinkTo(fs, prefix, profile, packages) && packages != []
    ensures Rootable(fs, ProfilePath(prefix, profile))
    ensures var s := LinkPkgInto(limit, fs, prefix, packages[0], ProfilePath(prefix, profile));
      && CanLinkTo(s.fs, prefix, profile, packages[1..])
      && LinkInto(limit, fs, prefix, profile, packages) == if s.ok then LinkInto(limit, s.fs, prefix, profile, packages[1..]) else s
  {
    ProfileRootable(fs, prefix, profile);
    ProfileLink(limit, fs, prefix, packages[0], profile);
  }

  /** The packages before the k-th are linked, and the k-th fails. */
  ghost predicate ProfileStopsAt(limit: nat, fs: FS, prefix: Path, profile: string, packages: seq<string>, k: nat)
    requires CanLinkTo(fs, prefix, profile, packages)
  {
    k < |packages|
    && var before := LinkInto(limit, fs, prefix, profile, packages[..k]);
       && before.ok && WF(before.fs) && Rootable(before.fs, ProfilePath(prefix, profile))
       && var last := LinkPkgInto(limit, before.fs, prefix, packages[k], ProfilePath(prefix, profile));
          !last.ok && LinkInto(limit, fs, prefix, profile, packages) == last
  }

  lemma ProfileStopsNext(limit: nat, fs: FS, prefix: Path, profile: string, packages: seq<string>, k: nat)
    requires CanLinkTo(fs, prefix, profile, packages) && packages != [] && Rootable(fs, ProfilePath(prefix, profile))
    requires var s := LinkPkgInto(limit, fs, prefix, packages[0], ProfilePath(prefix, profile));
      s.ok && CanLinkTo(s.fs, prefix, profile, packages[1..]) && ProfileStopsAt(limit, s.fs, prefix, profile, packages[1..], k)
    ensures ProfileStopsAt(limit, fs, prefix, profile, packages, k + 1)
  {
    ProfileFirst(limit, fs, prefix, profile, packages);
    ProfileFirst(limit, fs, prefix, profile, packages[..k + 1]);
    assert packages[..k + 1][1..] == packages[1..][..k];
  }

  /** The links of one profile. */
  lemma {:induction false} ProfileStops(limit: nat, fs: FS, prefix: Path, profile: string, packages: seq<string>) returns (k: nat)
    requires CanLinkTo(fs, prefix, profile, packages) && !LinkInto(limit, fs, prefix, profile, packages).ok
    ensures ProfileStopsAt(limit, fs, prefix, profile, packages, k)
    decreases |packages|
  {
    ProfileFirst(limit, fs, prefix, profile, packages);
    var s := LinkPkgInto(limit, fs, prefix, packages[0], ProfilePath(prefix, profile));
    k := 0;
    if s.ok {
      k := ProfileStops(limit, s.fs, prefix, profile, packages[1..]);
      ProfileStopsNext(limit, fs, prefix, profile, packages, k);
      k := k + 1;
    }
  }

  /** The walk of removeDanglingSymlinks, over the paths it visits. */
  lemma {:induction false} VisitingStops(limit: nat, fs: FS, ps: seq<Path>) returns (k: nat)
    requires !Normalize.VisitAll(limit, fs, ps).ok
    ensures k < |ps|
    ensures var before := Normalize.VisitAll(limit, fs, ps[..k]);
      && before.ok && !Normalize.Visit(limit, before.fs, ps[k]).ok
      && Normalize.VisitAll(limit, fs, ps) == Step(before.fs, false)
    decreases |ps|
  {
    var s := Normalize.Visit(limit, fs, ps[0]);
    k := 0;
    if s.ok {
      k := VisitingStops(limit, s.fs, ps[1..]);
      k := k + 1;
      assert ps[..k][0] == ps[0] && ps[..k][1..] == ps[1..][..k - 1];
    }
  }
}
