/** Exactly when an install plan succeeds (cmd/binman/install.go): every archive unpacks,
    and no path a package links is a directory or lies above one linked before it. */
module Succeeds {
  import opened Lexical
  import opened FileTree
  import opened Collect
  import opened Aggregate
  import opened Prefix
  import opened Install
  import opened Lifecycle
  import opened Plan
  import opened StoreContents
  import Settle
  import Converge
  import Outcomes
  import Unpacking
  import opened Sturdy

  // ----- what a job would offer -----

  /** A file system that holds the directory and nothing else. */
  function Blank(d: Path): FS {
    MkDirs(map[[] := Dir], d)
  }

  lemma BlankIsEmpty(d: Path)
    requires Names(d)
    ensures WF(Blank(d)) && RealDir(Blank(d), d) && Childless(Blank(d), d)
  {
    MkDirsEffect(map[[] := Dir], d);
  }

  /** The job's staging directory, filled in a file system that holds nothing else. */
  function Filled(limit: nat, stage: Path, job: Job): Step
    requires Names(stage)
  {
    BlankIsEmpty(stage);
    FillStage(limit, Blank(stage), stage, job)
  }

  /** The files the job's package will offer: those of its archive if it is fetched, and
      otherwise those of its store. */
  function Offered(limit: nat, fs: FS, prefix: Path, job: Job, suffix: string): Result<seq<Path>>
    requires Names(prefix) && ValidName(job.name)
  {
    StageIsNamed(prefix, job.name, suffix);
    if job.fetch then CollectFiles(limit, Filled(limit, StagePath(prefix, job.name, suffix), job).fs, StagePath(prefix, job.name, suffix))
    else Files(limit, fs, prefix, job.name)
  }

  ghost predicate NoDirs(fs: FS, prefix: Path, files: seq<Path>) {
    forall i :: 0 <= i < |files| ==> !RealDir(fs, prefix + files[i])
  }

  /** The archive unpacks into a fresh staging directory, if the job is fetched, and no
      path it links is a directory. */
  ghost predicate Clear(limit: nat, fs: FS, prefix: Path, job: Job, suffix: string)
    requires Names(prefix) && ValidName(job.name)
  {
    StageIsNamed(prefix, job.name, suffix);
    && (job.fetch ==> Fetchable(limit, fs, prefix, job, suffix))
    && (job.linked ==> Offered(limit, fs, prefix, job, suffix).Ok? && NoDirs(fs, prefix, Offered(limit, fs, prefix, job, suffix).value))
  }

  predicate Fetchable(limit: nat, fs: FS, prefix: Path, job: Job, suffix: string)
    requires Names(prefix) && ValidName(job.name)
  {
    StageIsNamed(prefix, job.name, suffix);
    StagePath(prefix, job.name, suffix) !in fs && Filled(limit, StagePath(prefix, job.name, suffix), job).ok
  }

  // ----- one job -----

  lemma RootDirsSame(fs: FS, fs': FS, prefix: Path, n: string, files: seq<Path>)
    requires OnlyStaleGone(fs, fs', prefix, n)
    requires forall i :: 0 <= i < |files| ==> InRoot(prefix, prefix + files[i])
    ensures NoDirs(fs, prefix, files) <==> NoDirs(fs', prefix, files)
  {
    forall i | 0 <= i < |files| ensures RealDir(fs, prefix + files[i]) <==> RealDir(fs', prefix + files[i]) {
      assert SameAt(fs, fs', prefix + files[i]) || (prefix + files[i] !in fs' && NamesOwn(fs, prefix, n, prefix + files[i]));
    }
  }

  /** The staged tree offers, once it is the store, what it offered on its own. */
  lemma SwappedOffers(limit: nat, fs: FS, filled: FS, cleared: FS, swapped: FS, prefix: Path, job: Job, suffix: string)
    requires Names(prefix) && ValidName(job.name) && Names(StagePath(prefix, job.name, suffix)) && job.fetch
    requires Unpacking.SameDir(Filled(limit, StagePath(prefix, job.name, suffix), job).fs, filled, StagePath(prefix, job.name, suffix))
    requires Confined(Filled(limit, StagePath(prefix, job.name, suffix), job).fs, StagePath(prefix, job.name, suffix))
    requires RootOnly(filled, cleared, prefix)
    requires Swapped(cleared, swapped, StagePath(prefix, job.name, suffix), StorePath(prefix, job.name))
    requires WF(swapped) && RealDir(swapped, StorePath(prefix, job.name))
    ensures Files(limit, swapped, prefix, job.name) == Offered(limit, fs, prefix, job, suffix)
  {
    var stage := StagePath(prefix, job.name, suffix);
    var store := StorePath(prefix, job.name);
    var alone := Filled(limit, stage, job).fs;
    assert stage[|prefix|] == "store";
    forall r: Path ensures stage + r in alone <==> store + r in swapped
      ensures stage + r in alone ==> SameShape(alone[stage + r], swapped[store + r])
    {
      assert (stage + r)[|prefix|] == "store";
      assert SameAt(alone, filled, stage + r) && SameAt(filled, cleared, stage + r);
    }
    CollectRelocates(limit, alone, stage, swapped, store);
  }

  /** While staging, the package's own store and the root stay as they are. */
  lemma StagedSame(limit: nat, fs: FS, filled: FS, prefix: Path, job: Job, suffix: string)
    requires IsSturdy(limit, fs, prefix) && ValidName(job.name) && Ready(filled, prefix)
    requires StagedFrom(fs, filled, prefix, StagePath(prefix, job.name, suffix))
    ensures LinkedReal(limit, filled, prefix, job.name) && PlainMeta(filled, prefix, job.name) == PlainMeta(fs, prefix, job.name)
  {
    var n := job.name;
    var store := StorePath(prefix, n);
    var stage := StagePath(prefix, n, suffix);
    Apart(prefix, n, suffix);
    assert stage[|prefix|] == "store" && (prefix + ["store"])[|prefix|] == "store";
    forall p | store <= p ensures SameAt(fs, filled, p) { assert |p| > |prefix + ["store"]|; }
    assert store <= MetaPath(prefix, n);
    assert SameAt(fs, filled, MetaPath(prefix, n));
    if Installed(fs, prefix, n) {
      InstalledIsReal(fs, prefix, n);
      SameIsAlike(fs, filled, store);
      FilesStable(limit, fs, filled, prefix, n);
    }
    forall p | RealDir(fs, p) && (InRoot(prefix, p) || p <= prefix) ensures RealDir(filled, p) { assert SameAt(fs, filled, p); }
    StaysLinkedReal(limit, fs, filled, prefix, n);
  }

  lemma FillAlone(limit: nat, fs: FS, prefix: Path, job: Job, suffix: string)
    requires Ready(fs, prefix) && Names(prefix) && ValidName(job.name) && Names(StagePath(prefix, job.name, suffix))
    requires StagePath(prefix, job.name, suffix) !in fs && Tame(StagePath(prefix, job.name, suffix), job.artifact.entries)
    ensures WF(WithStage(fs, prefix, StagePath(prefix, job.name, suffix)))
    ensures RealDir(WithStage(fs, prefix, StagePath(prefix, job.name, suffix)), StagePath(prefix, job.name, suffix))
    ensures var stage := StagePath(prefix, job.name, suffix);
      var s := FillStage(limit, WithStage(fs, prefix, stage), stage, job);
      && Unpacking.SameStep(Filled(limit, stage, job), s, stage)
      && (s.ok ==> Confined(Filled(limit, stage, job).fs, stage))
  {
    var stage := StagePath(prefix, job.name, suffix);
    WithStageEffect(fs, prefix, job.name, suffix);
    BlankIsEmpty(stage);
    Unpacking.FillLocal(limit, Blank(stage), WithStage(fs, prefix, stage), stage, job);
    FillStageEffect(limit, Blank(stage), stage, job);
  }

  /** Everything needed of a staging directory filled in fs. */
  ghost predicate Staged(limit: nat, fs: FS, filled: FS, prefix: Path, job: Job, suffix: string) {
    var stage := StagePath(prefix, job.name, suffix);
    && Names(prefix) && Names(stage) && job.fetch && ValidName(job.name) && stage !in fs
    && Ready(filled, prefix) && StagedFrom(fs, filled, prefix, stage)
    && Unpacking.SameDir(Filled(limit, stage, job).fs, filled, stage) && Confined(Filled(limit, stage, job).fs, stage)
  }

  /** Unlinking before the swap succeeds. */
  lemma ClearedBeforeSwap(limit: nat, fs: FS, filled: FS, prefix: Path, job: Job, suffix: string) returns (cleared: FS)
    requires IsSturdy(limit, fs, prefix) && JobReady(limit, fs, prefix, job, suffix) && Staged(limit, fs, filled, prefix, job, suffix)
    ensures (if WasLinked(job) then UnlinkPkgFrom(limit, filled, prefix, job.name, prefix) else Step(filled, true)) == Step(cleared, true)
    ensures Ready(cleared, prefix) && RootOnly(filled, cleared, prefix)
    ensures OnlyStaleGone(fs, cleared, prefix, job.name) && NoOwnLinks(cleared, prefix, job.name)
  {
    StagedSame(limit, fs, filled, prefix, job, suffix);
    if WasLinked(job) { UnlinkSucceeds(limit, filled, prefix, job.name); }
    cleared := UnlinkStaged(limit, fs, filled, prefix, job, suffix);
  }

  /** What is left of placing is linking the swapped-in store, if it is to be linked. */
  lemma PlaceIsLink(limit: nat, fs: FS, filled: FS, prefix: Path, job: Job, suffix: string) returns (swapped: FS)
    requires IsSturdy(limit, fs, prefix) && JobReady(limit, fs, prefix, job, suffix) && Staged(limit, fs, filled, prefix, job, suffix)
    ensures Ready(swapped, prefix) && OnlyStaleGone(fs, swapped, prefix, job.name)
    ensures Files(limit, swapped, prefix, job.name) == Offered(limit, fs, prefix, job, suffix)
    ensures PlaceStore(limit, filled, prefix, job.name, suffix, WasLinked(job), job.linked).ok <==>
      (job.linked ==> Rootable(swapped, prefix) && LinkPkgInto(limit, swapped, prefix, job.name, prefix).ok)
  {
    var cleared := ClearedBeforeSwap(limit, fs, filled, prefix, job, suffix);
    swapped := SwappedReadied(limit, fs, filled, cleared, prefix, job, suffix);
    RootRootable(swapped, prefix);
  }

  lemma StageBelow(prefix: Path, name: string, suffix: string)
    ensures prefix + ["store"] < StagePath(prefix, name, suffix)
  {
    var stage := StagePath(prefix, name, suffix);
    assert stage[..|prefix| + 1] == prefix + ["store"];
  }

  lemma SwappedReadied(limit: nat, fs: FS, filled: FS, cleared: FS, prefix: Path, job: Job, suffix: string) returns (swapped: FS)
    requires Staged(limit, fs, filled, prefix, job, suffix)
    requires Ready(cleared, prefix) && RootOnly(filled, cleared, prefix)
    requires OnlyStaleGone(fs, cleared, prefix, job.name) && NoOwnLinks(cleared, prefix, job.name)
    ensures RealDir(cleared, StagePath(prefix, job.name, suffix))
    ensures swapped == Swap(cleared, StagePath(prefix, job.name, suffix), StorePath(prefix, job.name))
    ensures Ready(swapped, prefix) && OnlyStaleGone(fs, swapped, prefix, job.name)
    ensures Files(limit, swapped, prefix, job.name) == Offered(limit, fs, prefix, job, suffix)
  {
    var n := job.name;
    var stage := StagePath(prefix, n, suffix);
    assert stage[|prefix|] == "store" && SameAt(filled, cleared, stage);
    SwapEffect(cleared, prefix, n, suffix);
    swapped := Swap(cleared, stage, StorePath(prefix, n));
    StageBelow(prefix, n, suffix);
    SwapRoot(fs, cleared, swapped, prefix, n, stage);
    SwappedOffers(limit, fs, filled, cleared, swapped, prefix, job, suffix);
  }

  /** Linking at the root fails only over a directory that was there before. */
  lemma LinkSucceeds(limit: nat, fs: FS, swapped: FS, prefix: Path, n: string)
    requires Ready(swapped, prefix) && Rootable(swapped, prefix) && IsName(n) && OnlyStaleGone(fs, swapped, prefix, n)
    ensures var r := Files(limit, swapped, prefix, n);
      LinkPkgInto(limit, swapped, prefix, n, prefix).ok <==> r.Ok? && NoDirs(fs, prefix, r.value)
  {
    LinkRoot(limit, swapped, prefix, n);
    FilesInRoot(limit, swapped, prefix, n);
    var r := Files(limit, swapped, prefix, n);
    if r.Ok? {
      forall i | 0 <= i < |r.value| ensures InRoot(prefix, prefix + r.value[i]) { assert IsDest(prefix, r.value, prefix + r.value[i]); }
      RootDirsSame(fs, swapped, prefix, n, r.value);
    }
  }

  /** Placing a staged package fails only where it must link over a directory. */
  lemma PlaceSucceeds(limit: nat, fs: FS, filled: FS, prefix: Path, job: Job, suffix: string)
    requires IsSturdy(limit, fs, prefix) && JobReady(limit, fs, prefix, job, suffix) && Staged(limit, fs, filled, prefix, job, suffix)
    ensures PlaceStore(limit, filled, prefix, job.name, suffix, WasLinked(job), job.linked).ok <==>
      (job.linked ==> Offered(limit, fs, prefix, job, suffix).Ok? && NoDirs(fs, prefix, Offered(limit, fs, prefix, job, suffix).value))
  {
    StageIsNamed(prefix, job.name, suffix);
    var swapped := PlaceIsLink(limit, fs, filled, prefix, job, suffix);
    RootRootable(swapped, prefix);
    LinkSucceeds(limit, fs, swapped, prefix, job.name);
  }

  lemma FetchSucceeds(limit: nat, fs: FS, prefix: Path, job: Job, suffix: string)
    requires IsSturdy(limit, fs, prefix) && JobReady(limit, fs, prefix, job, suffix) && job.fetch && Names(prefix)
    ensures CommitJob(limit, fs, prefix, job, suffix).ok <==> Clear(limit, fs, prefix, job, suffix)
  {
    var stage := StagePath(prefix, job.name, suffix);
    StageIsNamed(prefix, job.name, suffix);
    if stage !in fs {
      StagingDone(limit, fs, prefix, job, suffix);
      FillAlone(limit, fs, prefix, job, suffix);
      var filled := FillStage(limit, WithStage(fs, prefix, stage), stage, job);
      if filled.ok { PlaceSucceeds(limit, fs, filled.fs, prefix, job, suffix); }
    }
  }

  lemma RelinkSucceeds(limit: nat, fs: FS, prefix: Path, job: Job, suffix: string)
    requires IsSturdy(limit, fs, prefix) && JobReady(limit, fs, prefix, job, suffix) && !job.fetch && Names(prefix)
    ensures CommitJob(limit, fs, prefix, job, suffix).ok <==> Clear(limit, fs, prefix, job, suffix)
  {
    var n := job.name;
    StageIsNamed(prefix, n, suffix);
    InstalledIsReal(fs, prefix, n);
    RootRootable(fs, prefix);
    LinkRoot(limit, fs, prefix, n);
    UnlinkRoot(limit, fs, prefix, n);
    if job.current.value.linked && !job.linked { UnlinkSucceeds(limit, fs, prefix, n); }
    var s1 := if job.current.value.linked && !job.linked then UnlinkPkgFrom(limit, fs, prefix, n, prefix) else Step(fs, true);
    var s2 := if job.linked then LinkPkgInto(limit, fs, prefix, n, prefix) else s1;
    StoreAbove(s2.fs, prefix, n);
    RootOnlyKeepsStores(limit, fs, s2.fs, prefix, n);
    MetaRewritten(limit, s2.fs, prefix, n, JobMeta(job));
  }

  /** A job succeeds exactly when it is clear. */
  lemma JobSucceeds(limit: nat, fs: FS, prefix: Path, job: Job, suffix: string)
    requires IsSturdy(limit, fs, prefix) && JobReady(limit, fs, prefix, job, suffix) && Names(prefix)
    ensures CommitJob(limit, fs, prefix, job, suffix).ok <==> Clear(limit, fs, prefix, job, suffix)
  {
    if job.fetch { FetchSucceeds(limit, fs, prefix, job, suffix); } else { RelinkSucceeds(limit, fs, prefix, job, suffix); }
  }

  // ----- what a committed job changes for the later ones -----

  /** The committed store offers what the job was to offer. */
  lemma FetchOffers(limit: nat, fs: FS, prefix: Path, job: Job, suffix: string)
    requires Inv(limit, fs, prefix) && JobReady(limit, fs, prefix, job, suffix) && job.fetch && Names(prefix)
    requires CommitJob(limit, fs, prefix, job, suffix).ok
    ensures Files(limit, CommitJob(limit, fs, prefix, job, suffix).fs, prefix, job.name) == Offered(limit, fs, prefix, job, suffix)
  {
    var stage := StagePath(prefix, job.name, suffix);
    var store := StorePath(prefix, job.name);
    var fs' := CommitJob(limit, fs, prefix, job, suffix).fs;
    StageIsNamed(prefix, job.name, suffix);
    FetchedStore(limit, fs, prefix, job, suffix);
    FilledHolds(limit, fs, prefix, job, suffix);
    FillAlone(limit, fs, prefix, job, suffix);
    CommitJobKeeps(limit, fs, prefix, job, suffix);
    var alone := Filled(limit, stage, job).fs;
    var filled := FillStage(limit, WithStage(fs, prefix, stage), stage, job).fs;
    StoredAlike(alone, filled, Unpack(limit, fs, prefix, job, suffix).fs, fs', stage, prefix, job);
    CollectRelocates(limit, alone, stage, fs', store);
  }

  lemma StoredAlike(alone: FS, filled: FS, unpacked: FS, fs': FS, stage: Path, prefix: Path, job: Job)
    requires SameUnder(alone, filled, stage) && filled == unpacked[stage + [META_FILE] := MetaNode(JobMeta(job))]
    requires SameTree(unpacked, stage, fs', StorePath(prefix, job.name)) && Installed(fs', prefix, job.name)
    ensures Alike(alone, stage, fs', StorePath(prefix, job.name))
  {
    var store := StorePath(prefix, job.name);
    forall r: Path ensures stage + r in alone <==> store + r in fs'
      ensures stage + r in alone ==> SameShape(alone[stage + r], fs'[store + r])
    {
      assert SameAt(alone, filled, stage + r);
      assert (stage + r)[|stage|..] == r;
      if r != [META_FILE] { assert stage + r != stage + [META_FILE]; }
    }
  }

  lemma RelinkOffers(limit: nat, fs: FS, prefix: Path, job: Job, suffix: string)
    requires Inv(limit, fs, prefix) && JobReady(limit, fs, prefix, job, suffix) && !job.fetch
    requires CommitJob(limit, fs, prefix, job, suffix).ok
    ensures Files(limit, CommitJob(limit, fs, prefix, job, suffix).fs, prefix, job.name) == Files(limit, fs, prefix, job.name)
  {
    var store := StorePath(prefix, job.name);
    var fs' := CommitJob(limit, fs, prefix, job, suffix).fs;
    RelinkKeepsStore(limit, fs, prefix, job, suffix);
    CommitJobKeeps(limit, fs, prefix, job, suffix);
    InstalledIsReal(fs, prefix, job.name);
    forall r: Path ensures store + r in fs <==> store + r in fs'
      ensures store + r in fs ==> SameShape(fs[store + r], fs'[store + r])
    {
      if r == [META_FILE] { assert store + r == MetaPath(prefix, job.name); }
    }
    FilesStable(limit, fs, fs', prefix, job.name);
  }

  lemma JobOffers(limit: nat, fs: FS, prefix: Path, job: Job, suffix: string)
    requires Inv(limit, fs, prefix) && JobReady(limit, fs, prefix, job, suffix) && Names(prefix)
    requires CommitJob(limit, fs, prefix, job, suffix).ok
    ensures Files(limit, CommitJob(limit, fs, prefix, job, suffix).fs, prefix, job.name) == Offered(limit, fs, prefix, job, suffix)
  {
    if job.fetch { FetchOffers(limit, fs, prefix, job, suffix); } else { RelinkOffers(limit, fs, prefix, job, suffix); }
  }

  /** The new directories at the root are those above the job's links. */
  lemma DirsAfter(limit: nat, fs: FS, fs': FS, prefix: Path, job: Job, p: Path)
    requires JobDone(limit, fs, fs', prefix, job) && InRoot(prefix, p)
    ensures var r := Files(limit, fs', prefix, job.name);
      RealDir(fs', p) <==> RealDir(fs, p) || (job.linked && r.Ok? && IsAbove(prefix, r.value, p))
  {
    var r := Files(limit, fs', prefix, job.name);
    assert StorePath(prefix, job.name)[|prefix|] == "store";
    assert RealDir(fs, p) ==> RealDir(fs', p);
    if !Claimed(prefix, job, r, p) {
      assert SameAt(fs, fs', p) || p !in fs';
    } else if IsDest(prefix, r.value, p) {
      var i :| 0 <= i < |r.value| && p == prefix + r.value[i];
      assert !RealDir(fs', p);
    }
  }

  /** The offered paths are destinations at the root of the prefix. */
  lemma OfferedAtRoot(limit: nat, fs: FS, prefix: Path, job: Job, suffix: string, i: nat)
    requires Ready(fs, prefix) && Names(prefix) && Installable(prefix, job, suffix)
    requires Offered(limit, fs, prefix, job, suffix).Ok? && i < |Offered(limit, fs, prefix, job, suffix).value|
    ensures InRoot(prefix, prefix + Offered(limit, fs, prefix, job, suffix).value[i])
  {
    var stage := StagePath(prefix, job.name, suffix);
    StageIsNamed(prefix, job.name, suffix);
    if job.fetch {
      BlankIsEmpty(stage);
      FillStageEffect(limit, Blank(stage), stage, job);
      var alone := Filled(limit, stage, job).fs;
      DirAbove(alone, stage);
      CollectedHeads(limit, alone, stage);
    } else {
      FilesInRoot(limit, fs, prefix, job.name);
      assert IsDest(prefix, Files(limit, fs, prefix, job.name).value, prefix + Files(limit, fs, prefix, job.name).value[i]);
    }
  }

  // ----- a whole plan -----

  /** The job links q. */
  ghost predicate Brings(limit: nat, fs: FS, prefix: Path, job: Job, suffix: string, q: Path)
    requires Names(prefix) && ValidName(job.name)
  {
    job.linked && Offered(limit, fs, prefix, job, suffix).Ok? && q in Offered(limit, fs, prefix, job, suffix).value
  }

  ghost predicate BringsBelow(limit: nat, fs: FS, prefix: Path, job: Job, suffix: string, q: Path)
    requires Names(prefix) && ValidName(job.name)
  {
    exists q' :: Brings(limit, fs, prefix, job, suffix, q') && q < q'
  }

  ghost predicate AllNamed(prefix: Path, jobs: seq<Job>) {
    Names(prefix) && forall i :: 0 <= i < |jobs| ==> ValidName(jobs[i].name)
  }

  /** A job from the k-th on, but before the i-th, links something below q. */
  ghost predicate Blocked(limit: nat, fs: FS, prefix: Path, jobs: seq<Job>, k: nat, i: nat, suffix: string, q: Path)
    requires AllNamed(prefix, jobs) && i <= |jobs|
  {
    exists j: nat :: k <= j < i && BringsBelow(limit, fs, prefix, jobs[j], suffix, q)
  }

  /** Job i is clear in fs, and no job from the k-th to it links below what it links. */
  ghost predicate ClearAt(limit: nat, fs: FS, prefix: Path, jobs: seq<Job>, k: nat, i: nat, suffix: string)
    requires AllNamed(prefix, jobs) && i < |jobs|
  {
    && Clear(limit, fs, prefix, jobs[i], suffix)
    && forall q :: Brings(limit, fs, prefix, jobs[i], suffix, q) ==> !Blocked(limit, fs, prefix, jobs, k, i, suffix, q)
  }

  ghost predicate AllClear(limit: nat, fs: FS, prefix: Path, jobs: seq<Job>, k: nat, suffix: string)
    requires AllNamed(prefix, jobs)
  {
    forall i: nat :: k <= i < |jobs| ==> ClearAt(limit, fs, prefix, jobs, k, i, suffix)
  }

  /** Another job's package and staging directory are left alone. */
  lemma OtherJobSame(limit: nat, fs: FS, fs': FS, prefix: Path, done: Job, job: Job, suffix: string)
    requires Inv(limit, fs, prefix) && Names(prefix) && JobDone(limit, fs, fs', prefix, done) && ValidName(done.name)
    requires ValidName(job.name) && job.name != done.name && (!job.fetch ==> Installed(fs, prefix, job.name))
    ensures Offered(limit, fs', prefix, job, suffix) == Offered(limit, fs, prefix, job, suffix)
    ensures Fetchable(limit, fs', prefix, job, suffix) <==> Fetchable(limit, fs, prefix, job, suffix)
  {
    var stage := StagePath(prefix, job.name, suffix);
    OthersStable(limit, fs, fs', prefix, done.name, job.name);
    assert stage[|prefix|] == "store" && |stage| > |prefix + ["store"]|;
    assert stage[|prefix| + 1][0] == '.' && StorePath(prefix, done.name)[|prefix| + 1] == done.name;
    assert SameAt(fs, fs', stage);
  }

  lemma BringsBelowMeans(limit: nat, fs: FS, prefix: Path, job: Job, suffix: string, q: Path)
    requires Names(prefix) && ValidName(job.name)
    ensures var r := Offered(limit, fs, prefix, job, suffix);
      BringsBelow(limit, fs, prefix, job, suffix, q) <==> job.linked && r.Ok? && IsAbove([], r.value, q)
  {
    var r := Offered(limit, fs, prefix, job, suffix);
    if job.linked && r.Ok? {
      assert forall i :: 0 <= i < |r.value| ==> [] + r.value[i] == r.value[i];
      if IsAbove([], r.value, q) {
        var i :| 0 <= i < |r.value| && q < [] + r.value[i];
        assert Brings(limit, fs, prefix, job, suffix, r.value[i]);
      }
      if BringsBelow(limit, fs, prefix, job, suffix, q) {
        var q' :| Brings(limit, fs, prefix, job, suffix, q') && q < q';
        var i :| 0 <= i < |r.value| && r.value[i] == q';
        assert q < [] + r.value[i];
      }
    }
  }

  /** For a path q the job is to link: a directory there now is one from before, or made
      above what was just linked. */
  lemma DirThere(limit: nat, fs: FS, fs': FS, prefix: Path, done: Job, suffix: string, q: Path)
    requires Names(prefix) && JobDone(limit, fs, fs', prefix, done) && ValidName(done.name) && InRoot(prefix, prefix + q)
    requires Files(limit, fs', prefix, done.name) == Offered(limit, fs, prefix, done, suffix)
    ensures RealDir(fs', prefix + q) <==> RealDir(fs, prefix + q) || BringsBelow(limit, fs, prefix, done, suffix, q)
  {
    var r := Files(limit, fs', prefix, done.name);
    DirsAfter(limit, fs, fs', prefix, done, prefix + q);
    BringsBelowMeans(limit, fs, prefix, done, suffix, q);
    if r.Ok? { AboveUnder(prefix, r.value, q); }
  }

  /** What the jobs have in common before and after the k-th: the later ones are as they were. */
  ghost predicate LaterSame(limit: nat, fs: FS, fs': FS, prefix: Path, jobs: seq<Job>, k: nat, suffix: string)
    requires AllNamed(prefix, jobs)
  {
    forall j: nat :: k < j < |jobs| ==>
      && Offered(limit, fs', prefix, jobs[j], suffix) == Offered(limit, fs, prefix, jobs[j], suffix)
      && (Fetchable(limit, fs', prefix, jobs[j], suffix) <==> Fetchable(limit, fs, prefix, jobs[j], suffix))
  }

  lemma BelowSame(limit: nat, fs: FS, fs': FS, prefix: Path, job: Job, suffix: string, q: Path)
    requires Names(prefix) && ValidName(job.name)
    requires Offered(limit, fs', prefix, job, suffix) == Offered(limit, fs, prefix, job, suffix)
    ensures BringsBelow(limit, fs, prefix, job, suffix, q) <==> BringsBelow(limit, fs', prefix, job, suffix, q)
  {
    BringsBelowMeans(limit, fs, prefix, job, suffix, q);
    BringsBelowMeans(limit, fs', prefix, job, suffix, q);
  }

  /** A later job that brings something below q does so before and after. */
  lemma BlockedLater(limit: nat, fs: FS, fs': FS, prefix: Path, jobs: seq<Job>, k: nat, i: nat, suffix: string, q: Path)
    requires AllNamed(prefix, jobs) && k < i <= |jobs| && LaterSame(limit, fs, fs', prefix, jobs, k, suffix)
    ensures Blocked(limit, fs, prefix, jobs, k + 1, i, suffix, q) <==> Blocked(limit, fs', prefix, jobs, k + 1, i, suffix, q)
  {
    forall j: nat | k + 1 <= j < i
      ensures BringsBelow(limit, fs, prefix, jobs[j], suffix, q) <==> BringsBelow(limit, fs', prefix, jobs[j], suffix, q)
    {
      BelowSame(limit, fs, fs', prefix, jobs[j], suffix, q);
    }
  }

  lemma BlockedSplit(limit: nat, fs: FS, prefix: Path, jobs: seq<Job>, k: nat, i: nat, suffix: string, q: Path)
    requires AllNamed(prefix, jobs) && k < i <= |jobs|
    ensures Blocked(limit, fs, prefix, jobs, k, i, suffix, q) <==>
      BringsBelow(limit, fs, prefix, jobs[k], suffix, q) || Blocked(limit, fs, prefix, jobs, k + 1, i, suffix, q)
  {
    if Blocked(limit, fs, prefix, jobs, k, i, suffix, q) {
      var j: nat :| k <= j < i && BringsBelow(limit, fs, prefix, jobs[j], suffix, q);
      assert j == k || k + 1 <= j;
    }
  }

  lemma BlockedNext(limit: nat, fs: FS, fs': FS, prefix: Path, jobs: seq<Job>, k: nat, i: nat, suffix: string, q: Path)
    requires AllNamed(prefix, jobs) && k < i <= |jobs| && LaterSame(limit, fs, fs', prefix, jobs, k, suffix)
    ensures Blocked(limit, fs, prefix, jobs, k, i, suffix, q) <==>
      BringsBelow(limit, fs, prefix, jobs[k], suffix, q) || Blocked(limit, fs', prefix, jobs, k + 1, i, suffix, q)
  {
    BlockedSplit(limit, fs, prefix, jobs, k, i, suffix, q);
    BlockedLater(limit, fs, fs', prefix, jobs, k, i, suffix, q);
  }

  /** Whether a later job is clear can be said before the k-th job or after it. */
  lemma ClearNext(limit: nat, fs: FS, fs': FS, prefix: Path, jobs: seq<Job>, k: nat, i: nat, suffix: string)
    requires AllNamed(prefix, jobs) && k < i < |jobs| && LaterSame(limit, fs, fs', prefix, jobs, k, suffix)
    requires Ready(fs, prefix) && JobDone(limit, fs, fs', prefix, jobs[k]) && Installable(prefix, jobs[i], suffix)
    requires Files(limit, fs', prefix, jobs[k].name) == Offered(limit, fs, prefix, jobs[k], suffix)
    ensures ClearAt(limit, fs, prefix, jobs, k, i, suffix) <==> ClearAt(limit, fs', prefix, jobs, k + 1, i, suffix)
  {
    var r := Offered(limit, fs, prefix, jobs[i], suffix);
    if jobs[i].linked && r.Ok? {
      forall f | 0 <= f < |r.value|
        ensures PathClear(limit, fs, prefix, jobs, k, i, suffix, r.value[f]) <==> PathClear(limit, fs', prefix, jobs, k + 1, i, suffix, r.value[f])
      {
        OfferedAtRoot(limit, fs, prefix, jobs[i], suffix, f);
        DirThere(limit, fs, fs', prefix, jobs[k], suffix, r.value[f]);
        BlockedNext(limit, fs, fs', prefix, jobs, k, i, suffix, r.value[f]);
      }
    }
    PathsClear(limit, fs, prefix, jobs, k, i, suffix);
    PathsClear(limit, fs', prefix, jobs, k + 1, i, suffix);
  }

  ghost predicate PathClear(limit: nat, fs: FS, prefix: Path, jobs: seq<Job>, k: nat, i: nat, suffix: string, q: Path)
    requires AllNamed(prefix, jobs) && i <= |jobs|
  {
    !RealDir(fs, prefix + q) && !Blocked(limit, fs, prefix, jobs, k, i, suffix, q)
  }

  /** Job i is clear when it can be fetched and each of its paths is clear. */
  lemma PathsClear(limit: nat, fs: FS, prefix: Path, jobs: seq<Job>, k: nat, i: nat, suffix: string)
    requires AllNamed(prefix, jobs) && i < |jobs|
    ensures var r := Offered(limit, fs, prefix, jobs[i], suffix);
      ClearAt(limit, fs, prefix, jobs, k, i, suffix) <==>
        && (jobs[i].fetch ==> Fetchable(limit, fs, prefix, jobs[i], suffix))
        && (jobs[i].linked ==> r.Ok? && forall f :: 0 <= f < |r.value| ==> PathClear(limit, fs, prefix, jobs, k, i, suffix, r.value[f]))
  {
    var r := Offered(limit, fs, prefix, jobs[i], suffix);
    if ClearAt(limit, fs, prefix, jobs, k, i, suffix) && jobs[i].linked {
      forall f | 0 <= f < |r.value| ensures PathClear(limit, fs, prefix, jobs, k, i, suffix, r.value[f]) {
        assert Brings(limit, fs, prefix, jobs[i], suffix, r.value[f]);
      }
    }
  }

  /** In a sturdy prefix, ready for its k-th job. */
  ghost predicate Underway(limit: nat, fs: FS, prefix: Path, jobs: seq<Job>, k: nat, suffix: string) {
    Starts(limit, fs, prefix, jobs, k, suffix) && IsSturdy(limit, fs, prefix) && AllNamed(prefix, jobs)
  }

  lemma JobClears(limit: nat, fs: FS, prefix: Path, jobs: seq<Job>, k: nat, suffix: string)
    requires Underway(limit, fs, prefix, jobs, k, suffix) && k < |jobs|
    ensures CommitJob(limit, fs, prefix, jobs[k], suffix).ok <==> ClearAt(limit, fs, prefix, jobs, k, k, suffix)
  {
    JobSucceeds(limit, fs, prefix, jobs[k], suffix);
  }

  lemma NextUnderway(limit: nat, fs: FS, prefix: Path, jobs: seq<Job>, k: nat, suffix: string)
    requires Underway(limit, fs, prefix, jobs, k, suffix) && k < |jobs| && CommitJob(limit, fs, prefix, jobs[k], suffix).ok
    ensures Underway(limit, CommitJob(limit, fs, prefix, jobs[k], suffix).fs, prefix, jobs, k + 1, suffix)
    ensures JobDone(limit, fs, CommitJob(limit, fs, prefix, jobs[k], suffix).fs, prefix, jobs[k])
  {
    NextStarts(limit, fs, prefix, jobs, k, suffix);
    JobKeepsSturdy(limit, fs, CommitJob(limit, fs, prefix, jobs[k], suffix).fs, prefix, jobs[k]);
  }

  lemma LaterIsSame(limit: nat, fs: FS, fs': FS, prefix: Path, jobs: seq<Job>, k: nat, suffix: string)
    requires Underway(limit, fs, prefix, jobs, k, suffix) && k < |jobs| && JobDone(limit, fs, fs', prefix, jobs[k])
    ensures LaterSame(limit, fs, fs', prefix, jobs, k, suffix)
  {
    forall j: nat | k < j < |jobs|
      ensures Offered(limit, fs', prefix, jobs[j], suffix) == Offered(limit, fs, prefix, jobs[j], suffix)
      ensures Fetchable(limit, fs', prefix, jobs[j], suffix) <==> Fetchable(limit, fs, prefix, jobs[j], suffix)
    {
      OtherJobSame(limit, fs, fs', prefix, jobs[k], jobs[j], suffix);
    }
  }

  lemma LaterClear(limit: nat, fs: FS, prefix: Path, jobs: seq<Job>, k: nat, i: nat, suffix: string)
    requires Underway(limit, fs, prefix, jobs, k, suffix) && k < i < |jobs| && CommitJob(limit, fs, prefix, jobs[k], suffix).ok
    ensures ClearAt(limit, fs, prefix, jobs, k, i, suffix) <==>
      ClearAt(limit, CommitJob(limit, fs, prefix, jobs[k], suffix).fs, prefix, jobs, k + 1, i, suffix)
  {
    var fs' := CommitJob(limit, fs, prefix, jobs[k], suffix).fs;
    NextUnderway(limit, fs, prefix, jobs, k, suffix);
    JobOffers(limit, fs, prefix, jobs[k], suffix);
    LaterIsSame(limit, fs, fs', prefix, jobs, k, suffix);
    ClearNext(limit, fs, fs', prefix, jobs, k, i, suffix);
  }

  lemma AllClearNext(limit: nat, fs: FS, fs': FS, prefix: Path, jobs: seq<Job>, k: nat, suffix: string)
    requires AllNamed(prefix, jobs) && k < |jobs| && ClearAt(limit, fs, prefix, jobs, k, k, suffix)
    requires forall i: nat :: k < i < |jobs| ==>
      (ClearAt(limit, fs, prefix, jobs, k, i, suffix) <==> ClearAt(limit, fs', prefix, jobs, k + 1, i, suffix))
    ensures AllClear(limit, fs, prefix, jobs, k, suffix) <==> AllClear(limit, fs', prefix, jobs, k + 1, suffix)
  {
    if AllClear(limit, fs, prefix, jobs, k, suffix) {
      var next := k + 1;
      forall i: nat | next <= i < |jobs| ensures ClearAt(limit, fs', prefix, jobs, next, i, suffix) {
        assert ClearAt(limit, fs, prefix, jobs, k, i, suffix);
      }
    }
    if AllClear(limit, fs', prefix, jobs, k + 1, suffix) {
      forall i: nat | k <= i < |jobs| ensures ClearAt(limit, fs, prefix, jobs, k, i, suffix) {
        assert i > k ==> ClearAt(limit, fs', prefix, jobs, k + 1, i, suffix);
      }
    }
  }

  /** After the k-th job the rest is clear exactly if it was before. */
  lemma RestClear(limit: nat, fs: FS, prefix: Path, jobs: seq<Job>, k: nat, suffix: string)
    requires Underway(limit, fs, prefix, jobs, k, suffix) && k < |jobs| && CommitJob(limit, fs, prefix, jobs[k], suffix).ok
    ensures AllClear(limit, fs, prefix, jobs, k, suffix) <==>
      AllClear(limit, CommitJob(limit, fs, prefix, jobs[k], suffix).fs, prefix, jobs, k + 1, suffix)
  {
    var fs' := CommitJob(limit, fs, prefix, jobs[k], suffix).fs;
    JobClears(limit, fs, prefix, jobs, k, suffix);
    forall i: nat | k < i < |jobs|
      ensures ClearAt(limit, fs, prefix, jobs, k, i, suffix) <==> ClearAt(limit, fs', prefix, jobs, k + 1, i, suffix)
    {
      LaterClear(limit, fs, prefix, jobs, k, i, suffix);
    }
    AllClearNext(limit, fs, fs', prefix, jobs, k, suffix);
  }

  lemma {:induction false} CommitsExactly(limit: nat, fs: FS, prefix: Path, jobs: seq<Job>, k: nat, suffix: string)
    requires Underway(limit, fs, prefix, jobs, k, suffix)
    ensures CommitFrom(limit, fs, prefix, jobs, k, suffix).ok <==> AllClear(limit, fs, prefix, jobs, k, suffix)
    decreases |jobs| - k
  {
    if k < |jobs| {
      JobClears(limit, fs, prefix, jobs, k, suffix);
      if CommitJob(limit, fs, prefix, jobs[k], suffix).ok {
        NextUnderway(limit, fs, prefix, jobs, k, suffix);
        RestClear(limit, fs, prefix, jobs, k, suffix);
        CommitsExactly(limit, CommitJob(limit, fs, prefix, jobs[k], suffix).fs, prefix, jobs, k + 1, suffix);
      }
    }
  }

  // ----- preparation -----

  /** Looking at the targets never fails in a sound prefix. */
  lemma PrepareOneSucceeds(limit: nat, fs: FS, prefix: Path, n: string)
    requires Inv(limit, fs, prefix) && ValidName(n)
    ensures PrepareOne(limit, fs, prefix, n).ok
  {
    var store := StorePath(prefix, n);
    assert Names(prefix);
    StageIsNamed(prefix, n, "");
    StoreAbove(fs, prefix, n);
    if store in fs { EvalPhysical(limit, fs, store); } else { EvalMissing(limit, fs, store); }
  }

  /** Nothing but stores of the targets can be dropped. */
  ghost predicate Elsewhere(prefix: Path, ts: seq<Target>, p: Path) {
    forall i :: 0 <= i < |ts| ==> !(StorePath(prefix, ts[i].name) <= p)
  }

  lemma {:induction false} PrepareSucceeds(limit: nat, fs: FS, prefix: Path, ts: seq<Target>, reg: Registry, force: bool)
    requires AllPublished(ts, reg) && Inv(limit, fs, prefix) && forall i :: 0 <= i < |ts| ==> ValidName(ts[i].name)
    ensures Prepare(limit, fs, prefix, ts, reg, force).ok
    decreases |ts|
  {
    if ts != [] {
      PrepareOneSucceeds(limit, fs, prefix, ts[0].name);
      PrepareOneKeeps(limit, fs, prefix, ts[0].name);
      PrepareSucceeds(limit, PrepareOne(limit, fs, prefix, ts[0].name).fs, prefix, ts[1..], reg, force);
    }
  }

  lemma {:induction false} PrepareElsewhere(limit: nat, fs: FS, prefix: Path, ts: seq<Target>, reg: Registry, force: bool, p: Path)
    requires AllPublished(ts, reg) && Elsewhere(prefix, ts, p)
    ensures SameAt(fs, Prepare(limit, fs, prefix, ts, reg, force).fs, p)
    decreases |ts|
  {
    if ts != [] {
      var s := PrepareOne(limit, fs, prefix, ts[0].name);
      assert SameAt(fs, s.fs, p);
      if s.ok {
        assert forall i :: 0 <= i < |ts[1..]| ==> ts[1..][i] == ts[i + 1];
        PrepareElsewhere(limit, s.fs, prefix, ts[1..], reg, force, p);
      }
    }
  }

  /** The jobs of a plan: what is published for each target, and what is on record. */
  function PlannedJobs(fs: FS, prefix: Path, ts: seq<Target>, reg: Registry, force: bool): (jobs: seq<Job>)
    requires AllPublished(ts, reg)
    ensures |jobs| == |ts|
    ensures forall i :: 0 <= i < |ts| ==> jobs[i].name == ts[i].name && jobs[i].linked == ts[i].linked
  {
    seq(|ts|, i requires 0 <= i < |ts| => MakeJob(ts[i], reg[(ts[i].name, ts[i].arch)], PlainMeta(fs, prefix, ts[i].name), force))
  }

  lemma PreparedJobs(limit: nat, fs: FS, prefix: Path, ts: seq<Target>, reg: Registry, force: bool)
    requires AllPublished(ts, reg) && Inv(limit, fs, prefix) && forall i :: 0 <= i < |ts| ==> ValidName(ts[i].name)
    ensures var p := Prepare(limit, fs, prefix, ts, reg, force);
      p.ok && p.jobs == PlannedJobs(fs, prefix, ts, reg, force) && JobsFor(p.jobs, ts, reg, force)
  {
    PrepareSucceeds(limit, fs, prefix, ts, reg, force);
    Prepares(limit, fs, prefix, ts, reg, force);
    PrepareKeeps(limit, fs, prefix, ts, reg, force);
  }

  lemma PreparedStarts(limit: nat, fs: FS, prefix: Path, ts: seq<Target>, reg: Registry, force: bool, suffix: string)
    requires AllPublished(ts, reg) && IsSturdy(limit, fs, prefix) && Settle.NamedTargets(ts) && TameRegistry(prefix, reg, suffix)
    ensures var p := Prepare(limit, fs, prefix, ts, reg, force);
      p.ok && p.jobs == PlannedJobs(fs, prefix, ts, reg, force) && Underway(limit, p.fs, prefix, p.jobs, 0, suffix)
  {
    PreparedJobs(limit, fs, prefix, ts, reg, force);
    var p := Prepare(limit, fs, prefix, ts, reg, force);
    Prepares(limit, fs, prefix, ts, reg, force);
    JobsInstallable(prefix, p.jobs, ts, reg, force, suffix);
    PrepareKeepsSturdy(limit, fs, prefix, ts, reg, force);
    assert Names(prefix);
  }

  /** The jobs are seen alike in both file systems. */
  ghost predicate SeenAlike(limit: nat, fs: FS, fs': FS, prefix: Path, jobs: seq<Job>, suffix: string)
    requires AllNamed(prefix, jobs)
  {
    && (forall j: nat :: j < |jobs| ==>
          && Offered(limit, fs', prefix, jobs[j], suffix) == Offered(limit, fs, prefix, jobs[j], suffix)
          && (Fetchable(limit, fs', prefix, jobs[j], suffix) <==> Fetchable(limit, fs, prefix, jobs[j], suffix)))
    && (forall p :: InRoot(prefix, p) ==> SameAt(fs, fs', p))
  }

  lemma AlikeBlocked(limit: nat, fs: FS, fs': FS, prefix: Path, jobs: seq<Job>, i: nat, suffix: string, q: Path)
    requires AllNamed(prefix, jobs) && i <= |jobs| && SeenAlike(limit, fs, fs', prefix, jobs, suffix)
    ensures Blocked(limit, fs, prefix, jobs, 0, i, suffix, q) <==> Blocked(limit, fs', prefix, jobs, 0, i, suffix, q)
  {
    forall j: nat | j < i
      ensures BringsBelow(limit, fs, prefix, jobs[j], suffix, q) <==> BringsBelow(limit, fs', prefix, jobs[j], suffix, q)
    {
      BelowSame(limit, fs, fs', prefix, jobs[j], suffix, q);
    }
  }

  lemma AlikeClearAt(limit: nat, fs: FS, fs': FS, prefix: Path, jobs: seq<Job>, i: nat, suffix: string)
    requires AllNamed(prefix, jobs) && i < |jobs| && SeenAlike(limit, fs, fs', prefix, jobs, suffix)
    requires Ready(fs, prefix) && Installable(prefix, jobs[i], suffix)
    ensures ClearAt(limit, fs, prefix, jobs, 0, i, suffix) <==> ClearAt(limit, fs', prefix, jobs, 0, i, suffix)
  {
    var r := Offered(limit, fs, prefix, jobs[i], suffix);
    if jobs[i].linked && r.Ok? {
      forall f | 0 <= f < |r.value|
        ensures PathClear(limit, fs, prefix, jobs, 0, i, suffix, r.value[f]) <==> PathClear(limit, fs', prefix, jobs, 0, i, suffix, r.value[f])
      {
        OfferedAtRoot(limit, fs, prefix, jobs[i], suffix, f);
        assert SameAt(fs, fs', prefix + r.value[f]);
        AlikeBlocked(limit, fs, fs', prefix, jobs, i, suffix, r.value[f]);
      }
    }
    PathsClear(limit, fs, prefix, jobs, 0, i, suffix);
    PathsClear(limit, fs', prefix, jobs, 0, i, suffix);
  }

  lemma PreparedAlike(limit: nat, fs: FS, prefix: Path, ts: seq<Target>, reg: Registry, force: bool, suffix: string)
    requires AllPublished(ts, reg) && IsSturdy(limit, fs, prefix) && Settle.NamedTargets(ts) && TameRegistry(prefix, reg, suffix)
    requires AllNamed(prefix, PlannedJobs(fs, prefix, ts, reg, force))
    ensures SeenAlike(limit, fs, Prepare(limit, fs, prefix, ts, reg, force).fs, prefix, PlannedJobs(fs, prefix, ts, reg, force), suffix)
  {
    var p := Prepare(limit, fs, prefix, ts, reg, force);
    var jobs := PlannedJobs(fs, prefix, ts, reg, force);
    PreparedJobs(limit, fs, prefix, ts, reg, force);
    forall q | InRoot(prefix, q) ensures SameAt(fs, p.fs, q) {
      assert forall i :: 0 <= i < |ts| ==> StorePath(prefix, ts[i].name)[|prefix|] == "store";
      PrepareElsewhere(limit, fs, prefix, ts, reg, force, q);
    }
    forall j: nat | j < |jobs|
      ensures Offered(limit, p.fs, prefix, jobs[j], suffix) == Offered(limit, fs, prefix, jobs[j], suffix)
      ensures Fetchable(limit, p.fs, prefix, jobs[j], suffix) <==> Fetchable(limit, fs, prefix, jobs[j], suffix)
    {
      var stage := StagePath(prefix, jobs[j].name, suffix);
      Outcomes.PrepareLeaves(limit, fs, prefix, ts, reg, force, jobs[j].name);
      StageElsewhere(prefix, ts, jobs[j].name, suffix);
      PrepareElsewhere(limit, fs, prefix, ts, reg, force, stage);
    }
  }

  lemma StageElsewhere(prefix: Path, ts: seq<Target>, name: string, suffix: string)
    requires forall i :: 0 <= i < |ts| ==> ValidName(ts[i].name)
    ensures Elsewhere(prefix, ts, StagePath(prefix, name, suffix))
  {
    var stage := StagePath(prefix, name, suffix);
    forall i | 0 <= i < |ts| ensures !(StorePath(prefix, ts[i].name) <= stage) {
      assert stage[|prefix| + 1][0] == '.' && StorePath(prefix, ts[i].name)[|prefix| + 1] == ts[i].name;
    }
  }

  lemma PreparedClear(limit: nat, fs: FS, prefix: Path, ts: seq<Target>, reg: Registry, force: bool, suffix: string)
    requires AllPublished(ts, reg) && IsSturdy(limit, fs, prefix) && Settle.NamedTargets(ts) && TameRegistry(prefix, reg, suffix)
    requires AllNamed(prefix, PlannedJobs(fs, prefix, ts, reg, force))
    ensures var jobs := PlannedJobs(fs, prefix, ts, reg, force);
      AllClear(limit, fs, prefix, jobs, 0, suffix) <==>
      AllClear(limit, Prepare(limit, fs, prefix, ts, reg, force).fs, prefix, jobs, 0, suffix)
  {
    var p := Prepare(limit, fs, prefix, ts, reg, force);
    var jobs := PlannedJobs(fs, prefix, ts, reg, force);
    PreparedStarts(limit, fs, prefix, ts, reg, force, suffix);
    PreparedAlike(limit, fs, prefix, ts, reg, force, suffix);
    forall i: nat | i < |jobs|
      ensures ClearAt(limit, fs, prefix, jobs, 0, i, suffix) <==> ClearAt(limit, p.fs, prefix, jobs, 0, i, suffix)
    {
      AlikeClearAt(limit, fs, p.fs, prefix, jobs, i, suffix);
    }
  }

  // ----- the plan -----

  /** What must hold before the run, in terms of the prefix as it is, the targets in their
      order and what is published: each archive unpacks, each store can be collected, and
      no linked path is a directory or lies above one that a target before it links. */
  ghost predicate CanInstall(limit: nat, fs: FS, prefix: Path, ts: seq<Target>, reg: Registry, force: bool, suffix: string)
    requires Names(prefix) && forall i :: 0 <= i < |ts| ==> ValidName(ts[i].name)
  {
    && AllPublished(ts, reg)
    && AllClear(limit, fs, prefix, PlannedJobs(fs, prefix, ts, reg, force), 0, suffix)
  }

  lemma ResolvedSucceeds(limit: nat, fs: FS, prefix: Path, ts: seq<Target>, reg: Registry, force: bool, suffix: string)
    requires IsSturdy(limit, fs, prefix) && Names(prefix) && TameRegistry(prefix, reg, suffix) && Settle.NamedTargets(ts) && AllPublished(ts, reg)
    ensures var p := Prepare(limit, fs, prefix, ts, reg, force);
      p.ok && Ready(p.fs, prefix) && AllInstallable(prefix, p.jobs, suffix) &&
      (CommitFrom(limit, p.fs, prefix, p.jobs, 0, suffix).ok <==> CanInstall(limit, fs, prefix, ts, reg, force, suffix))
  {
    var p := Prepare(limit, fs, prefix, ts, reg, force);
    PreparedStarts(limit, fs, prefix, ts, reg, force, suffix);
    CommitsExactly(limit, p.fs, prefix, p.jobs, 0, suffix);
    PreparedClear(limit, fs, prefix, ts, reg, force, suffix);
  }

  /** An install plan succeeds exactly when its targets resolve and can be installed. */
  lemma PlanSucceedsExactly(limit: nat, fs: FS, prefix: Path, targets: seq<Target>, arch: string, force: bool, reg: Registry, suffix: string)
    requires IsSturdy(limit, fs, prefix) && Names(prefix) && TameRegistry(prefix, reg, suffix) && DistinctTargets(targets)
    ensures InstallPlan(limit, fs, prefix, targets, arch, force, reg, suffix).ok <==>
      var ts := ResolveTargets(targets, arch); ts.Ok? && CanInstall(limit, fs, prefix, ts.value, reg, force, suffix)
  {
    var ts := ResolveTargets(targets, arch);
    if ts.Ok? && AllPublished(ts.value, reg) {
      Converge.ResolvedNamed(targets, arch);
      ResolvedSucceeds(limit, fs, prefix, ts.value, reg, force, suffix);
    }
  }
}
