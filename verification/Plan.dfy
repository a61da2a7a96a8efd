/** Running an install plan: read what is installed, then commit job by job
    (cmd/binman/install.go). */
module Plan {
  import opened Options
  import opened Lexical
  import opened FileTree
  import opened Extract
  import opened Aggregate
  import opened Prefix
  import opened Install
  import opened Lifecycle

  // ----- resolving the targets -----

  /** Name and architecture checks; a target without an architecture takes the plan's. */
  function ResolveTargets(targets: seq<Target>, arch: string): (r: Result<seq<Target>>)
    ensures r.Ok? ==> |r.value| == |targets| && forall i :: 0 <= i < |targets| ==>
      r.value[i].name == targets[i].name && r.value[i].linked == targets[i].linked &&
      ValidName(r.value[i].name) && ValidArch(r.value[i].arch) &&
      r.value[i].arch == if targets[i].arch == "" then arch else targets[i].arch
  {
    if arch != "" && !ValidArch(arch) then Err
    else if targets == [] then Ok([])
    else
      var t := targets[0];
      var a := if t.arch == "" then arch else t.arch;
      if !ValidName(t.name) || !ValidArch(a) then Err
      else
        match ResolveTargets(targets[1..], arch)
        case Err => Err
        case Ok(rest) => Ok([Target(t.name, a, t.linked)] + rest)
  }

  /** A plan is refused exactly for an invalid architecture of its own, or for a target whose
      name is invalid or whose architecture, its own or else the plan's, is. */
  lemma {:induction false} ResolvesExactly(targets: seq<Target>, arch: string)
    ensures ResolveTargets(targets, arch).Ok? <==>
      && (arch == "" || ValidArch(arch))
      && forall t :: t in targets ==> ValidName(t.name) && ValidArch(if t.arch == "" then arch else t.arch)
    decreases |targets|
  {
    if targets != [] {
      assert targets == [targets[0]] + targets[1..];
      ResolvesExactly(targets[1..], arch);
    }
  }

  /** resolveArtifacts: every target must be published, or nothing happens. */
  predicate AllPublished(targets: seq<Target>, reg: Registry) {
    forall i :: 0 <= i < |targets| ==> (targets[i].name, targets[i].arch) in reg
  }

  ghost predicate TameRegistry(prefix: Path, reg: Registry, suffix: string) {
    forall k :: k in reg ==> Tame(StagePath(prefix, k.0, suffix), reg[k].entries)
  }

  // ----- reading what is installed -----

  datatype Prepared = Prepared(fs: FS, ok: bool, jobs: seq<Job>)

  function MakeJob(t: Target, artifact: Artifact, current: Option<Meta>, force: bool): Job {
    Job(t.name, t.arch, t.linked, artifact, current, force || current.None? || current.value.digest != artifact.digest)
  }

  /** Looks at one target; a store without metadata is a leftover and is dropped. */
  function PrepareOne(limit: nat, fs: FS, prefix: Path, n: string): Step {
    var stat := Eval(limit, fs, StorePath(prefix, n));
    if ReadMeta(limit, fs, prefix, n).Some? || stat.NoEntry? then Step(fs, true)
    else if stat.At? then Step(RemoveTree(fs, StorePath(prefix, n)), true)
    else Step(fs, false)
  }

  /** Reads the metadata of each target in turn. */
  function Prepare(limit: nat, fs: FS, prefix: Path, targets: seq<Target>, reg: Registry, force: bool): Prepared
    requires AllPublished(targets, reg)
  {
    if targets == [] then Prepared(fs, true, [])
    else
      var t := targets[0];
      var current := ReadMeta(limit, fs, prefix, t.name);
      var s := PrepareOne(limit, fs, prefix, t.name);
      if !s.ok then Prepared(s.fs, false, [])
      else
        var rest := Prepare(limit, s.fs, prefix, targets[1..], reg, force);
        Prepared(rest.fs, rest.ok, [MakeJob(t, reg[(t.name, t.arch)], current, force)] + rest.jobs)
  }

  /** How many packages will be downloaded. */
  function Fetches(jobs: seq<Job>): nat {
    if jobs == [] then 0 else (if jobs[0].fetch then 1 else 0) + Fetches(jobs[1..])
  }

  lemma RemoveStoreReady(fs: FS, prefix: Path, n: string)
    requires Ready(fs, prefix)
    ensures Ready(RemoveTree(fs, StorePath(prefix, n)), prefix)
  {
    var store := StorePath(prefix, n);
    var fs' := RemoveTree(fs, store);
    RemoveTreeWF(fs, store);
    assert |store| == |prefix| + 2;
    forall m ensures StorePath(prefix, m) in fs' ==> !fs'[StorePath(prefix, m)].Link?
      ensures NoReserved(fs', StorePath(prefix, m))
    {
      assert NoReserved(fs, StorePath(prefix, m));
    }
  }

  /** Dropping a store leaves the other packages alone. */
  lemma RemoveStoreOthers(limit: nat, fs: FS, prefix: Path, n: string, m: string)
    requires Ready(fs, prefix) && m != n
    ensures var fs' := RemoveTree(fs, StorePath(prefix, n));
      && PlainMeta(fs', prefix, m) == PlainMeta(fs, prefix, m) && SameAt(fs, fs', MetaPath(prefix, m))
      && (Installed(fs, prefix, m) && Confined(fs, StorePath(prefix, m)) ==>
            Confined(fs', StorePath(prefix, m)) && Files(limit, fs', prefix, m) == Files(limit, fs, prefix, m))
  {
    var store := StorePath(prefix, n);
    var fs' := RemoveTree(fs, store);
    RemoveTreeWF(fs, store);
    assert |store| == |prefix| + 2;
    assert OnlyStore(fs, fs', prefix, n);
    OthersStable(limit, fs, fs', prefix, n, m);
  }

  lemma RemoveStoreOwner(limit: nat, fs: FS, prefix: Path, n: string, p: Path)
    requires Ready(fs, prefix) && StoresAreSound(fs, prefix) && InRoot(prefix, p)
    requires HasOwner(limit, fs, prefix, p) && !NamesOwn(fs, prefix, n, p)
    ensures HasOwner(limit, RemoveTree(fs, StorePath(prefix, n)), prefix, p)
  {
    var fs' := RemoveTree(fs, StorePath(prefix, n));
    assert StorePath(prefix, n)[|prefix|] == "store";
    assert SameAt(fs, fs', p);
    var m :| OwnedBy(limit, fs, prefix, p[|prefix|..], m);
    assert prefix + p[|prefix|..] == p;
    OwnedNames(limit, fs, prefix, p, m);
    RemoveStoreOthers(limit, fs, prefix, n, m);
    assert OwnedBy(limit, fs', prefix, p[|prefix|..], m);
  }

  /** Dropping a store that no link names keeps the invariant. */
  lemma RemoveStoreKeepsInv(limit: nat, fs: FS, prefix: Path, n: string)
    requires Inv(limit, fs, prefix) && NoOwnLinks(fs, prefix, n)
    ensures var fs' := RemoveTree(fs, StorePath(prefix, n));
      && Inv(limit, fs', prefix) && PlainMeta(fs', prefix, n) == None
      && (forall m :: m != n ==> PlainMeta(fs', prefix, m) == PlainMeta(fs, prefix, m))
      && (forall m :: m != n && Installed(fs, prefix, m) ==> Files(limit, fs', prefix, m) == Files(limit, fs, prefix, m))
  {
    var fs' := RemoveTree(fs, StorePath(prefix, n));
    RemoveStoreReady(fs, prefix, n);
    assert StorePath(prefix, n) <= MetaPath(prefix, n);
    forall m | m != n
      ensures PlainMeta(fs', prefix, m) == PlainMeta(fs, prefix, m) && SameAt(fs, fs', MetaPath(prefix, m))
      ensures Installed(fs, prefix, m) ==>
        Confined(fs', StorePath(prefix, m)) && Files(limit, fs', prefix, m) == Files(limit, fs, prefix, m)
    {
      RemoveStoreOthers(limit, fs, prefix, n, m);
    }
    forall p | InRoot(prefix, p) && p in fs' && fs'[p].Link? ensures HasOwner(limit, fs', prefix, p) {
      RemoveStoreOwner(limit, fs, prefix, n, p);
    }
  }

  /** After preparation each job holds the metadata that is on disk. */
  ghost predicate JobsCurrent(fs: FS, prefix: Path, jobs: seq<Job>) {
    forall i :: 0 <= i < |jobs| ==> jobs[i].current == PlainMeta(fs, prefix, jobs[i].name)
  }

  /** The job for a target is what the registry publishes, fetched unless up to date. */
  ghost predicate JobsFor(jobs: seq<Job>, targets: seq<Target>, reg: Registry, force: bool)
    requires AllPublished(targets, reg)
  {
    |jobs| == |targets| && forall i :: 0 <= i < |jobs| ==>
      jobs[i] == MakeJob(targets[i], reg[(targets[i].name, targets[i].arch)], jobs[i].current, force)
  }

  lemma PrepareReady(limit: nat, fs: FS, prefix: Path, targets: seq<Target>, reg: Registry, force: bool)
    requires AllPublished(targets, reg) && Ready(fs, prefix)
    ensures var p := Prepare(limit, fs, prefix, targets, reg, force);
      Ready(p.fs, prefix) && (p.ok ==> JobsFor(p.jobs, targets, reg, force))
  {
    if targets != [] {
      RemoveStoreReady(fs, prefix, targets[0].name);
    }
  }

  /** A target without metadata has no links, so dropping its leftover store is safe. */
  lemma DropLeftover(limit: nat, fs: FS, prefix: Path, n: string)
    requires Inv(limit, fs, prefix) && PlainMeta(fs, prefix, n) == None
    ensures Inv(limit, RemoveTree(fs, StorePath(prefix, n)), prefix)
    ensures forall m :: PlainMeta(RemoveTree(fs, StorePath(prefix, n)), prefix, m) == PlainMeta(fs, prefix, m)
  {
    InvListsOwnLinks(limit, fs, prefix, n);
    RemoveStoreKeepsInv(limit, fs, prefix, n);
  }

  lemma TargetReads(limit: nat, fs: FS, prefix: Path, n: string)
    requires Inv(limit, fs, prefix) && ValidName(n)
    ensures ReadMeta(limit, fs, prefix, n) == PlainMeta(fs, prefix, n)
  {
    assert Names(prefix);
    StageIsNamed(prefix, n, "");
    ReadMetaIsPlain(limit, fs, prefix, n);
  }

  lemma PrepareOneKeeps(limit: nat, fs: FS, prefix: Path, n: string)
    requires Inv(limit, fs, prefix) && ValidName(n) && PrepareOne(limit, fs, prefix, n).ok
    ensures Inv(limit, PrepareOne(limit, fs, prefix, n).fs, prefix)
    ensures forall m :: PlainMeta(PrepareOne(limit, fs, prefix, n).fs, prefix, m) == PlainMeta(fs, prefix, m)
    ensures ReadMeta(limit, fs, prefix, n) == PlainMeta(fs, prefix, n)
  {
    TargetReads(limit, fs, prefix, n);
    if PlainMeta(fs, prefix, n).None? { DropLeftover(limit, fs, prefix, n); }
  }

  lemma {:induction false} PrepareKeepsInv(limit: nat, fs: FS, prefix: Path, targets: seq<Target>, reg: Registry, force: bool)
    requires AllPublished(targets, reg) && Inv(limit, fs, prefix)
    requires forall i :: 0 <= i < |targets| ==> ValidName(targets[i].name)
    ensures var p := Prepare(limit, fs, prefix, targets, reg, force);
      p.ok ==> Inv(limit, p.fs, prefix) && forall m :: PlainMeta(p.fs, prefix, m) == PlainMeta(fs, prefix, m)
    decreases |targets|
  {
    if targets != [] {
      var s := PrepareOne(limit, fs, prefix, targets[0].name);
      if s.ok {
        PrepareOneKeeps(limit, fs, prefix, targets[0].name);
        PrepareKeepsInv(limit, s.fs, prefix, targets[1..], reg, force);
      }
    }
  }

  lemma PrepareKeeps(limit: nat, fs: FS, prefix: Path, targets: seq<Target>, reg: Registry, force: bool)
    requires AllPublished(targets, reg) && Inv(limit, fs, prefix)
    requires forall i :: 0 <= i < |targets| ==> ValidName(targets[i].name)
    ensures var p := Prepare(limit, fs, prefix, targets, reg, force);
      p.ok ==>
        && Inv(limit, p.fs, prefix) && JobsFor(p.jobs, targets, reg, force)
        && forall m :: PlainMeta(p.fs, prefix, m) == PlainMeta(fs, prefix, m)
  {
    PrepareKeepsInv(limit, fs, prefix, targets, reg, force);
    PrepareReady(limit, fs, prefix, targets, reg, force);
  }

  lemma PrepareCons(limit: nat, fs: FS, prefix: Path, targets: seq<Target>, reg: Registry, force: bool) returns (job: Job)
    requires AllPublished(targets, reg) && Prepare(limit, fs, prefix, targets, reg, force).ok && targets != []
    ensures job.name == targets[0].name && job.current == ReadMeta(limit, fs, prefix, job.name)
    ensures var s := PrepareOne(limit, fs, prefix, targets[0].name);
      var rest := Prepare(limit, s.fs, prefix, targets[1..], reg, force);
      s.ok && rest.ok && Prepare(limit, fs, prefix, targets, reg, force).jobs == [job] + rest.jobs
  {
    var t := targets[0];
    job := MakeJob(t, reg[(t.name, t.arch)], ReadMeta(limit, fs, prefix, t.name), force);
  }

  /** After preparation each job carries the metadata that is on disk. */
  lemma {:induction false} PrepareReads(limit: nat, fs: FS, prefix: Path, targets: seq<Target>, reg: Registry, force: bool, k: nat)
    requires AllPublished(targets, reg) && Inv(limit, fs, prefix)
    requires forall i :: 0 <= i < |targets| ==> ValidName(targets[i].name)
    requires Prepare(limit, fs, prefix, targets, reg, force).ok && k < |Prepare(limit, fs, prefix, targets, reg, force).jobs|
    ensures var job := Prepare(limit, fs, prefix, targets, reg, force).jobs[k];
      job.current == PlainMeta(fs, prefix, job.name)
    decreases |targets|
  {
    var job := PrepareCons(limit, fs, prefix, targets, reg, force);
    PrepareOneKeeps(limit, fs, prefix, targets[0].name);
    if k > 0 { PrepareReads(limit, PrepareOne(limit, fs, prefix, targets[0].name).fs, prefix, targets[1..], reg, force, k - 1); }
  }

  lemma Prepares(limit: nat, fs: FS, prefix: Path, targets: seq<Target>, reg: Registry, force: bool)
    requires AllPublished(targets, reg) && Inv(limit, fs, prefix)
    requires forall i :: 0 <= i < |targets| ==> ValidName(targets[i].name)
    ensures var p := Prepare(limit, fs, prefix, targets, reg, force);
      p.ok ==> Inv(limit, p.fs, prefix) && JobsFor(p.jobs, targets, reg, force) && JobsCurrent(p.fs, prefix, p.jobs)
  {
    var p := Prepare(limit, fs, prefix, targets, reg, force);
    if p.ok {
      PrepareKeeps(limit, fs, prefix, targets, reg, force);
      forall i | 0 <= i < |p.jobs| ensures p.jobs[i].current == PlainMeta(p.fs, prefix, p.jobs[i].name) {
        PrepareReads(limit, fs, prefix, targets, reg, force, i);
      }
    }
  }

  // ----- the commit loop -----

  ghost predicate AllInstallable(prefix: Path, jobs: seq<Job>, suffix: string) {
    forall i :: 0 <= i < |jobs| ==> Installable(prefix, jobs[i], suffix) && (!jobs[i].fetch ==> jobs[i].current.Some?)
  }

  lemma WriteMetaReady(limit: nat, fs: FS, prefix: Path, n: string, m: Meta)
    requires Ready(fs, prefix) && IsName(n) && RealAbove(fs, StorePath(prefix, n))
    ensures WriteMeta(limit, fs, StorePath(prefix, n), m).ok ==>
      Ready(WriteMeta(limit, fs, StorePath(prefix, n), m).fs, prefix)
  {
    var store := StorePath(prefix, n);
    var s := WriteMeta(limit, fs, store, m);
    if s.ok {
      assert Names(prefix);
      StoreIsNamed(prefix, n);
      MkDirsEffect(fs, store);
      var made := MkDirs(fs, store);
      assert MkdirAll(limit, fs, store) == Step(made, true);
      PutMetaWF(made, store, m);
      assert NoReserved(fs, store) && store <= MetaPath(prefix, n) && Parent(store) == prefix + ["store"];
      assert (store + ["store"])[|store|] == "store" && (store + ["profile"])[|store|] == "profile";
      forall p | !(store <= p) && p != prefix + ["store"] ensures SameAt(fs, s.fs, p) {
        if p <= store {
          PrefixStep(p, store);
          PrefixStep(p, prefix + ["store"]);
          assert Parent(prefix + ["store"]) == prefix;
          if p != prefix { AncestorOf(fs, p, prefix); }
        }
      }
      ReadyExceptStore(fs, s.fs, prefix, n);
    }
  }

  lemma CommitRelinkReady(limit: nat, fs: FS, prefix: Path, job: Job)
    requires Ready(fs, prefix) && ValidName(job.name) && job.current.Some?
    ensures CommitRelink(limit, fs, prefix, job).ok ==> Ready(CommitRelink(limit, fs, prefix, job).fs, prefix)
  {
    UnlinkRoot(limit, fs, prefix, job.name);
    var s1 := if job.current.value.linked && !job.linked then UnlinkPkgFrom(limit, fs, prefix, job.name, prefix)
              else Step(fs, true);
    RootRootable(s1.fs, prefix);
    LinkRoot(limit, s1.fs, prefix, job.name);
    var s2 := if s1.ok && job.linked then LinkPkgInto(limit, s1.fs, prefix, job.name, prefix) else s1;
    StoreAbove(s2.fs, prefix, job.name);
    WriteMetaReady(limit, s2.fs, prefix, job.name, JobMeta(job));
  }

  lemma PlaceStoreReady(limit: nat, fs: FS, prefix: Path, name: string, suffix: string, wasLinked: bool, linked: bool)
    requires Ready(fs, prefix) && ValidName(name) && RealDir(fs, StagePath(prefix, name, suffix))
    ensures PlaceStore(limit, fs, prefix, name, suffix, wasLinked, linked).ok ==>
      Ready(PlaceStore(limit, fs, prefix, name, suffix, wasLinked, linked).fs, prefix)
  {
    var stage := StagePath(prefix, name, suffix);
    assert Names(prefix);
    StageIsNamed(prefix, name, suffix);
    UnlinkRoot(limit, fs, prefix, name);
    var s := if wasLinked then UnlinkPkgFrom(limit, fs, prefix, name, prefix) else Step(fs, true);
    if s.ok {
      assert stage[|prefix|] == "store" && SameAt(fs, s.fs, stage);
      SwapEffect(s.fs, prefix, name, suffix);
      var swapped := Swap(s.fs, stage, StorePath(prefix, name));
      RootRootable(swapped, prefix);
      LinkRoot(limit, swapped, prefix, name);
    }
  }

  lemma CommitJobReady(limit: nat, fs: FS, prefix: Path, job: Job, suffix: string)
    requires Ready(fs, prefix) && Installable(prefix, job, suffix) && (!job.fetch ==> job.current.Some?)
    ensures CommitJob(limit, fs, prefix, job, suffix).ok ==> Ready(CommitJob(limit, fs, prefix, job, suffix).fs, prefix)
  {
    if job.fetch {
      var stage := StagePath(prefix, job.name, suffix);
      if stage !in fs {
        StagingDone(limit, fs, prefix, job, suffix);
        var filled := FillStage(limit, WithStage(fs, prefix, stage), stage, job);
        PlaceStoreReady(limit, filled.fs, prefix, job.name, suffix, WasLinked(job), job.linked);
      }
    } else {
      CommitRelinkReady(limit, fs, prefix, job);
    }
  }

  /** The jobs from the k-th on commit one by one; the first error stops the run. */
  function CommitFrom(limit: nat, fs: FS, prefix: Path, jobs: seq<Job>, k: nat, suffix: string): Step
    requires Ready(fs, prefix) && AllInstallable(prefix, jobs, suffix)
    decreases |jobs| - k
  {
    if k >= |jobs| then Step(fs, true)
    else
      var s := CommitJob(limit, fs, prefix, jobs[k], suffix);
      CommitJobReady(limit, fs, prefix, jobs[k], suffix);
      if s.ok then CommitFrom(limit, s.fs, prefix, jobs, k + 1, suffix) else s
  }

  ghost predicate DistinctJobs(jobs: seq<Job>) {
    forall i, j :: 0 <= i < j < |jobs| ==> jobs[i].name != jobs[j].name
  }

  /** A fetch is skipped only for a package whose recorded digest is the published one. */
  ghost predicate SkipsAreCurrent(jobs: seq<Job>) {
    forall i :: 0 <= i < |jobs| && !jobs[i].fetch ==>
      jobs[i].current.Some? && jobs[i].current.value.digest == jobs[i].artifact.digest
  }

  /** Everything the commit loop needs when it reaches the k-th job: in particular the
      metadata read before the loop is still what is on disk for this and later jobs. */
  ghost predicate Starts(limit: nat, fs: FS, prefix: Path, jobs: seq<Job>, k: nat, suffix: string) {
    && Inv(limit, fs, prefix) && AllInstallable(prefix, jobs, suffix) && DistinctJobs(jobs) && SkipsAreCurrent(jobs)
    && forall i :: k <= i < |jobs| ==> jobs[i].current == PlainMeta(fs, prefix, jobs[i].name)
  }

  /** A committed job leaves the records of the later ones alone. */
  lemma NextStarts(limit: nat, fs: FS, prefix: Path, jobs: seq<Job>, k: nat, suffix: string)
    requires Starts(limit, fs, prefix, jobs, k, suffix) && k < |jobs| && CommitJob(limit, fs, prefix, jobs[k], suffix).ok
    ensures var fs' := CommitJob(limit, fs, prefix, jobs[k], suffix).fs;
      Starts(limit, fs', prefix, jobs, k + 1, suffix) && JobDone(limit, fs, fs', prefix, jobs[k])
  {
    var fs' := CommitJob(limit, fs, prefix, jobs[k], suffix).fs;
    CommitJobKeeps(limit, fs, prefix, jobs[k], suffix);
    forall i | k + 1 <= i < |jobs| ensures jobs[i].current == PlainMeta(fs', prefix, jobs[i].name) {
      OthersStable(limit, fs, fs', prefix, jobs[k].name, jobs[i].name);
    }
  }

  lemma StartsReadsCurrent(limit: nat, fs: FS, prefix: Path, jobs: seq<Job>, k: nat, suffix: string)
    requires Starts(limit, fs, prefix, jobs, k, suffix) && k < |jobs|
    ensures jobs[k].current == ReadMeta(limit, fs, prefix, jobs[k].name)
  {
    assert Installable(prefix, jobs[k], suffix);
    TargetReads(limit, fs, prefix, jobs[k].name);
  }

  /** At every commit of the loop the metadata the job carries is what is on disk. */
  ghost predicate CurrentThroughout(limit: nat, fs: FS, prefix: Path, jobs: seq<Job>, k: nat, suffix: string)
    requires AllInstallable(prefix, jobs, suffix)
    decreases |jobs| - k
  {
    k < |jobs| ==>
      && Ready(fs, prefix)
      && jobs[k].current == ReadMeta(limit, fs, prefix, jobs[k].name)
      && var s := CommitJob(limit, fs, prefix, jobs[k], suffix);
         s.ok ==> CurrentThroughout(limit, s.fs, prefix, jobs, k + 1, suffix)
  }

  /** The metadata read up front, before any job committed, is still the metadata on
      disk when its job commits, because the names are distinct. */
  lemma {:induction false} MetadataStillCurrent(limit: nat, fs: FS, prefix: Path, jobs: seq<Job>, k: nat, suffix: string)
    requires Starts(limit, fs, prefix, jobs, k, suffix)
    ensures CurrentThroughout(limit, fs, prefix, jobs, k, suffix)
    decreases |jobs| - k
  {
    if k < |jobs| {
      StartsReadsCurrent(limit, fs, prefix, jobs, k, suffix);
      var s := CommitJob(limit, fs, prefix, jobs[k], suffix);
      if s.ok {
        NextStarts(limit, fs, prefix, jobs, k, suffix);
        MetadataStillCurrent(limit, s.fs, prefix, jobs, k + 1, suffix);
      }
    }
  }

  /** The states of a successful run of all the jobs: job i takes states[i] to states[i + 1]. */
  ghost predicate Trace(limit: nat, states: seq<FS>, prefix: Path, jobs: seq<Job>) {
    && |states| == |jobs| + 1
    && (forall i: nat :: i < |jobs| ==> StepAt(limit, states, prefix, jobs, i))
    && (forall i: nat :: i <= |jobs| ==> SoundAt(limit, states, prefix, i))
  }

  ghost predicate StepAt(limit: nat, states: seq<FS>, prefix: Path, jobs: seq<Job>, i: nat)
    requires i < |jobs| && |states| == |jobs| + 1
  {
    JobDone(limit, states[i], states[i + 1], prefix, jobs[i])
  }

  ghost predicate SoundAt(limit: nat, states: seq<FS>, prefix: Path, i: nat)
    requires i < |states|
  {
    Inv(limit, states[i], prefix)
  }

  lemma StepOf(limit: nat, states: seq<FS>, prefix: Path, jobs: seq<Job>, k: nat)
    requires Trace(limit, states, prefix, jobs) && k < |jobs|
    ensures JobDone(limit, states[k], states[k + 1], prefix, jobs[k])
  {
    var at := StepAt(limit, states, prefix, jobs, k);
  }

  lemma SoundOf(limit: nat, states: seq<FS>, prefix: Path, jobs: seq<Job>, k: nat)
    requires Trace(limit, states, prefix, jobs) && k <= |jobs|
    ensures Inv(limit, states[k], prefix)
  {
    var at := SoundAt(limit, states, prefix, k);
  }

  /** A run whose every state allows a next one passes through a sequence of states. */
  lemma {:induction false} Chain<S(!new)>(good: (nat, S) -> bool, next: (nat, S, S) -> bool, s: S, k: nat, n: nat) returns (states: seq<S>)
    requires k <= n && good(k, s)
    requires forall i: nat, x :: i < n && good(i, x) ==> exists y :: next(i, x, y) && good(i + 1, y)
    ensures |states| == n + 1 && states[k] == s
    ensures forall i: nat :: k <= i < n ==> next(i, states[i], states[i + 1])
    ensures forall i: nat :: k <= i <= n ==> good(i, states[i])
    decreases n - k
  {
    if k == n {
      states := seq(n + 1, _ => s);
    } else {
      var y :| next(k, s, y) && good(k + 1, y);
      states := Chain(good, next, y, k + 1, n);
      states := states[k := s];
    }
  }

  /** The run is ready for its k-th job in `fs` and leads from there to `fin`. */
  ghost predicate EndsIn(limit: nat, fs: FS, prefix: Path, jobs: seq<Job>, k: nat, suffix: string, fin: FS) {
    Starts(limit, fs, prefix, jobs, k, suffix) && CommitFrom(limit, fs, prefix, jobs, k, suffix) == Step(fin, true)
  }

  lemma LeadsOn(limit: nat, fs: FS, prefix: Path, jobs: seq<Job>, k: nat, suffix: string, fin: FS) returns (mid: FS)
    requires EndsIn(limit, fs, prefix, jobs, k, suffix, fin) && k < |jobs|
    ensures JobDone(limit, fs, mid, prefix, jobs[k]) && EndsIn(limit, mid, prefix, jobs, k + 1, suffix, fin)
  {
    NextStarts(limit, fs, prefix, jobs, k, suffix);
    mid := CommitJob(limit, fs, prefix, jobs[k], suffix).fs;
  }

  /** The run of the jobs as a chain: what is good for the i-th turn, and what the turn does. */
  ghost predicate RunChain(limit: nat, prefix: Path, jobs: seq<Job>, suffix: string, fin: FS,
                           good: (nat, FS) -> bool, next: (nat, FS, FS) -> bool) {
    && (forall i: nat, x :: good(i, x) <==> EndsIn(limit, x, prefix, jobs, i, suffix, fin))
    && (forall i: nat, x, y :: next(i, x, y) <==> i < |jobs| && JobDone(limit, x, y, prefix, jobs[i]))
  }

  lemma ChainGoesOn(limit: nat, prefix: Path, jobs: seq<Job>, suffix: string, fin: FS,
                    good: (nat, FS) -> bool, next: (nat, FS, FS) -> bool)
    requires RunChain(limit, prefix, jobs, suffix, fin, good, next)
    ensures forall i: nat, x :: i < |jobs| && good(i, x) ==> exists y :: next(i, x, y) && good(i + 1, y)
  {
    forall i: nat, x: FS | i < |jobs| && good(i, x) ensures exists y :: next(i, x, y) && good(i + 1, y) {
      var y := LeadsOn(limit, x, prefix, jobs, i, suffix, fin);
      assert next(i, x, y) && good(i + 1, y);
    }
  }

  ghost predicate Follows(states: seq<FS>, n: nat, good: (nat, FS) -> bool, next: (nat, FS, FS) -> bool) {
    && |states| == n + 1
    && (forall i: nat :: i < n ==> next(i, states[i], states[i + 1]))
    && (forall i: nat :: i <= n ==> good(i, states[i]))
  }

  lemma ChainIsTrace(limit: nat, states: seq<FS>, prefix: Path, jobs: seq<Job>, suffix: string, fin: FS,
                     good: (nat, FS) -> bool, next: (nat, FS, FS) -> bool)
    requires RunChain(limit, prefix, jobs, suffix, fin, good, next) && Follows(states, |jobs|, good, next)
    ensures Trace(limit, states, prefix, jobs) && states[|jobs|] == fin
  {
    forall i: nat | i < |jobs| ensures StepAt(limit, states, prefix, jobs, i) {
      assert next(i, states[i], states[i + 1]);
    }
    forall i: nat | i <= |jobs| ensures SoundAt(limit, states, prefix, i) {
      assert good(i, states[i]);
    }
    assert good(|jobs|, states[|jobs|]);
  }

  /** The chain with its two properties, and nothing about how they were obtained. */
  lemma RunAsChain(limit: nat, fs: FS, prefix: Path, jobs: seq<Job>, suffix: string, fin: FS)
    returns (good: (nat, FS) -> bool, next: (nat, FS, FS) -> bool)
    requires EndsIn(limit, fs, prefix, jobs, 0, suffix, fin)
    ensures good(0, fs)
    ensures forall i: nat, x :: i < |jobs| && good(i, x) ==> exists y :: next(i, x, y) && good(i + 1, y)
    ensures forall states :: Follows(states, |jobs|, good, next) ==> Trace(limit, states, prefix, jobs) && states[|jobs|] == fin
  {
    good := (i: nat, x: FS) => EndsIn(limit, x, prefix, jobs, i, suffix, fin);
    next := (i: nat, x: FS, y: FS) => i < |jobs| && JobDone(limit, x, y, prefix, jobs[i]);
    assert good(0, fs);
    ChainGoesOn(limit, prefix, jobs, suffix, fin, good, next);
    forall states | Follows(states, |jobs|, good, next) ensures Trace(limit, states, prefix, jobs) && states[|jobs|] == fin {
      ChainIsTrace(limit, states, prefix, jobs, suffix, fin, good, next);
    }
  }

  /** Each job of a successful run does what it should, in a prefix that is sound throughout. */
  lemma RunIsTraced(limit: nat, fs: FS, prefix: Path, jobs: seq<Job>, suffix: string) returns (states: seq<FS>)
    requires Starts(limit, fs, prefix, jobs, 0, suffix) && CommitFrom(limit, fs, prefix, jobs, 0, suffix).ok
    ensures Trace(limit, states, prefix, jobs)
    ensures states[0] == fs && states[|jobs|] == CommitFrom(limit, fs, prefix, jobs, 0, suffix).fs
  {
    var fin := CommitFrom(limit, fs, prefix, jobs, 0, suffix).fs;
    states := LeadingRun(limit, fs, prefix, jobs, suffix, fin);
  }

  lemma LeadingRun(limit: nat, fs: FS, prefix: Path, jobs: seq<Job>, suffix: string, fin: FS) returns (states: seq<FS>)
    requires EndsIn(limit, fs, prefix, jobs, 0, suffix, fin)
    ensures Trace(limit, states, prefix, jobs) && states[0] == fs && states[|jobs|] == fin
  {
    var good, next := RunAsChain(limit, fs, prefix, jobs, suffix, fin);
    states := Chain(good, next, fs, 0, |jobs|);
    assert Follows(states, |jobs|, good, next);
  }

  // ----- installPackagePlan -----

  predicate DistinctTargets(targets: seq<Target>) {
    forall i, j :: 0 <= i < j < |targets| ==> targets[i].name != targets[j].name
  }

  lemma JobsInstallable(prefix: Path, jobs: seq<Job>, targets: seq<Target>, reg: Registry, force: bool, suffix: string)
    requires AllPublished(targets, reg) && JobsFor(jobs, targets, reg, force) && TameRegistry(prefix, reg, suffix)
    requires forall i :: 0 <= i < |targets| ==> ValidName(targets[i].name)
    ensures AllInstallable(prefix, jobs, suffix) && SkipsAreCurrent(jobs)
    ensures DistinctTargets(targets) ==> DistinctJobs(jobs)
  {
    forall i | 0 <= i < |jobs| ensures Installable(prefix, jobs[i], suffix) {
      assert (targets[i].name, targets[i].arch) in reg;
    }
  }

  function InstallPlan(limit: nat, fs: FS, prefix: Path, targets: seq<Target>, arch: string, force: bool,
                       reg: Registry, suffix: string): Step
    requires Ready(fs, prefix) && TameRegistry(prefix, reg, suffix)
  {
    match ResolveTargets(targets, arch)
    case Err => Step(fs, false)
    case Ok(resolved) =>
      if !AllPublished(resolved, reg) then Step(fs, false)
      else
        var p := Prepare(limit, fs, prefix, resolved, reg, force);
        PrepareReady(limit, fs, prefix, resolved, reg, force);
        if !p.ok then Step(p.fs, false)
        else
          JobsInstallable(prefix, p.jobs, resolved, reg, force, suffix);
          CommitFrom(limit, p.fs, prefix, p.jobs, 0, suffix)
  }

  lemma {:induction false} CommitFromKeeps(limit: nat, fs: FS, prefix: Path, jobs: seq<Job>, k: nat, suffix: string)
    requires Starts(limit, fs, prefix, jobs, k, suffix)
    ensures CommitFrom(limit, fs, prefix, jobs, k, suffix).ok ==>
      Inv(limit, CommitFrom(limit, fs, prefix, jobs, k, suffix).fs, prefix)
    decreases |jobs| - k
  {
    if k < |jobs| {
      var s := CommitJob(limit, fs, prefix, jobs[k], suffix);
      if s.ok {
        NextStarts(limit, fs, prefix, jobs, k, suffix);
        CommitFromKeeps(limit, s.fs, prefix, jobs, k + 1, suffix);
      }
    }
  }

  lemma InstallPlanKeeps(limit: nat, fs: FS, prefix: Path, targets: seq<Target>, arch: string, force: bool,
                         reg: Registry, suffix: string)
    requires Inv(limit, fs, prefix) && TameRegistry(prefix, reg, suffix) && DistinctTargets(targets)
    ensures var s := InstallPlan(limit, fs, prefix, targets, arch, force, reg, suffix);
      s.ok ==> Inv(limit, s.fs, prefix)
  {
    var r := ResolveTargets(targets, arch);
    if r.Ok? && AllPublished(r.value, reg) {
      var p := Prepare(limit, fs, prefix, r.value, reg, force);
      Prepares(limit, fs, prefix, r.value, reg, force);
      if p.ok {
        JobsInstallable(prefix, p.jobs, r.value, reg, force, suffix);
        CommitFromKeeps(limit, p.fs, prefix, p.jobs, 0, suffix);
      }
    }
  }
}
