/** Running a committed plan a second time: it changes nothing unless two packages
    offer paths of which one lies above the other, and then it fails. */
module Again {
  import opened Options
  import opened Lexical
  import opened FileTree
  import opened Aggregate
  import opened Prefix
  import opened Install
  import opened Lifecycle
  import opened Plan
  import opened Commands
  import opened Settle

  // ----- induction over the commit loop -----

  /** In a state that is good for its turn, job i succeeds and leaves a state good for the next. */
  ghost predicate StepsOn(limit: nat, prefix: Path, jobs: seq<Job>, i: nat, suffix: string, good: (nat, FS) -> bool, x: FS)
    requires AllInstallable(prefix, jobs, suffix) && i < |jobs|
  {
    Ready(x, prefix) && good(i, x) ==>
      var s := CommitJob(limit, x, prefix, jobs[i], suffix); s.ok && good(i + 1, s.fs)
  }

  /** Then all the jobs succeed, and the last state is good. */
  lemma {:induction false} LoopKeeps(limit: nat, fs: FS, prefix: Path, jobs: seq<Job>, k: nat, suffix: string,
                                     good: (nat, FS) -> bool)
    requires AllInstallable(prefix, jobs, suffix) && k <= |jobs| && Ready(fs, prefix) && good(k, fs)
    requires forall i: nat, x :: i < |jobs| ==> StepsOn(limit, prefix, jobs, i, suffix, good, x)
    ensures CommitFrom(limit, fs, prefix, jobs, k, suffix).ok
    ensures good(|jobs|, CommitFrom(limit, fs, prefix, jobs, k, suffix).fs)
    decreases |jobs| - k
  {
    if k < |jobs| {
      assert StepsOn(limit, prefix, jobs, k, suffix, good, fs);
      CommitJobReady(limit, fs, prefix, jobs[k], suffix);
      LoopKeeps(limit, CommitJob(limit, fs, prefix, jobs[k], suffix).fs, prefix, jobs, k + 1, suffix, good);
    }
  }

  /** In a good state a job that succeeds leaves a good state, and job n never succeeds. */
  ghost predicate StopsAt(limit: nat, prefix: Path, jobs: seq<Job>, n: nat, suffix: string, good: FS -> bool, i: nat, x: FS)
    requires AllInstallable(prefix, jobs, suffix) && i < |jobs|
  {
    Ready(x, prefix) && good(x) ==>
      var s := CommitJob(limit, x, prefix, jobs[i], suffix); s.ok ==> i != n && good(s.fs)
  }

  lemma {:induction false} LoopFails(limit: nat, fs: FS, prefix: Path, jobs: seq<Job>, k: nat, suffix: string,
                                     good: FS -> bool, n: nat)
    requires AllInstallable(prefix, jobs, suffix) && k <= n < |jobs| && Ready(fs, prefix) && good(fs)
    requires forall i: nat, x :: i < |jobs| ==> StopsAt(limit, prefix, jobs, n, suffix, good, i, x)
    ensures !CommitFrom(limit, fs, prefix, jobs, k, suffix).ok
    decreases |jobs| - k
  {
    assert StopsAt(limit, prefix, jobs, n, suffix, good, k, fs);
    if CommitJob(limit, fs, prefix, jobs[k], suffix).ok {
      CommitJobReady(limit, fs, prefix, jobs[k], suffix);
      LoopFails(limit, CommitJob(limit, fs, prefix, jobs[k], suffix).fs, prefix, jobs, k + 1, suffix, good, n);
    }
  }

  // ----- a job with nothing to fetch whose metadata is already right -----

  predicate UpToDate(job: Job) {
    !job.fetch && job.current == Some(JobMeta(job))
  }

  /** Committing it only makes its links again. */
  lemma UpToDateCommit(limit: nat, fs: FS, prefix: Path, job: Job, suffix: string)
    requires Ready(fs, prefix) && Installable(prefix, job, suffix) && UpToDate(job) && Rootable(fs, prefix)
    ensures CommitJob(limit, fs, prefix, job, suffix) ==
      if job.linked then LinkPkgInto(limit, fs, prefix, job.name, prefix) else Step(fs, true)
  {}

  // ----- relinking in the same order restores every link -----

  /** Relinking target k extends the settled part by that target. */
  lemma RelinkSettles(limit: nat, fs: FS, cur: FS, prefix: Path, ts: seq<Target>, k: nat)
    requires Committed(limit, fs, prefix, ts) && Ready(cur, prefix) && Rootable(cur, prefix)
    requires Near(limit, fs, cur, prefix, ts) && k < |ts| && ts[k].linked
    requires LinksSettled(limit, fs, cur, prefix, ts, k) && LinkPkgInto(limit, cur, prefix, ts[k].name, prefix).ok
    ensures LinksSettled(limit, fs, LinkPkgInto(limit, cur, prefix, ts[k].name, prefix).fs, prefix, ts, k + 1)
  {
    var n := ts[k].name;
    var fs' := LinkPkgInto(limit, cur, prefix, n, prefix).fs;
    NearStores(limit, fs, cur, prefix, ts, n);
    ValidIsName(n);
    LinkRoot(limit, cur, prefix, n);
    forall q | Owner(limit, fs, prefix, ts, k + 1, q).Some?
      ensures prefix + q in fs'
      ensures fs'[prefix + q] == LinkTo(prefix, StorePath(prefix, Owner(limit, fs, prefix, ts, k + 1, q).value), q)
    {
      RelinkSettlesAt(limit, fs, cur, fs', prefix, ts, k, q);
    }
  }

  lemma RelinkSettlesAt(limit: nat, fs: FS, cur: FS, fs': FS, prefix: Path, ts: seq<Target>, k: nat, q: Path)
    requires NoClash(limit, fs, prefix, ts) && k < |ts| && ts[k].linked && Files(limit, fs, prefix, ts[k].name).Ok?
    requires LinksSettled(limit, fs, cur, prefix, ts, k) && Owner(limit, fs, prefix, ts, k + 1, q).Some?
    requires Linked(cur, fs', prefix, StorePath(prefix, ts[k].name), Files(limit, fs, prefix, ts[k].name).value)
    ensures prefix + q in fs'
    ensures fs'[prefix + q] == LinkTo(prefix, StorePath(prefix, Owner(limit, fs, prefix, ts, k + 1, q).value), q)
  {
    var files := Files(limit, fs, prefix, ts[k].name).value;
    if Offers(limit, fs, prefix, ts[k], q) {
      var i :| 0 <= i < |files| && files[i] == q;
    } else {
      ClaimedOffers(limit, fs, prefix, ts[k], q);
      NotAboveOffered(limit, fs, prefix, ts, k, q);
      assert SameAt(cur, fs', prefix + q);
    }
  }

  /** A settled path does not lie above a file of another target. */
  lemma NotAboveOffered(limit: nat, fs: FS, prefix: Path, ts: seq<Target>, k: nat, q: Path)
    requires NoClash(limit, fs, prefix, ts) && k < |ts| && Owner(limit, fs, prefix, ts, k, q).Some?
    requires ts[k].linked && Files(limit, fs, prefix, ts[k].name).Ok?
    ensures !IsAbove(prefix, Files(limit, fs, prefix, ts[k].name).value, prefix + q)
  {
    var files := Files(limit, fs, prefix, ts[k].name).value;
    var i := OwnerOffers(limit, fs, prefix, ts, k, q);
    forall j | 0 <= j < |files| ensures !(prefix + q < prefix + files[j]) {
      assert Offers(limit, fs, prefix, ts[k], files[j]);
      if prefix + q < prefix + files[j] { PrefixBelow(prefix, q, files[j]); }
    }
  }

  /** Near and settled is the same. */
  lemma NearAndSettled(limit: nat, fs: FS, cur: FS, prefix: Path, ts: seq<Target>)
    requires LinksSettled(limit, fs, fs, prefix, ts, |ts|) && LinksSettled(limit, fs, cur, prefix, ts, |ts|)
    requires Near(limit, fs, cur, prefix, ts)
    ensures cur == fs
  {
    forall p ensures SameAt(fs, cur, p) {
      if RelinkedAt(limit, fs, cur, prefix, ts, p) { assert prefix + p[|prefix|..] == p; }
    }
    assert forall p :: p in fs ==> SameAt(fs, cur, p);
    assert forall p :: p in cur ==> SameAt(fs, cur, p);
  }

  /** What the second run keeps: near the committed state, with the first k targets relinked. */
  ghost predicate Rerun(limit: nat, fs: FS, prefix: Path, ts: seq<Target>, k: nat, cur: FS) {
    k <= |ts| && Near(limit, fs, cur, prefix, ts) && LinksSettled(limit, fs, cur, prefix, ts, k)
  }

  lemma RerunStep(limit: nat, fs: FS, prefix: Path, jobs: seq<Job>, ts: seq<Target>, i: nat, suffix: string, cur: FS)
    requires Committed(limit, fs, prefix, ts) && Matches(jobs, ts) && AllInstallable(prefix, jobs, suffix)
    requires i < |jobs| && UpToDate(jobs[i]) && Ready(cur, prefix) && Rerun(limit, fs, prefix, ts, i, cur)
    ensures var s := CommitJob(limit, cur, prefix, jobs[i], suffix);
      s.ok && Rerun(limit, fs, prefix, ts, i + 1, s.fs)
  {
    RootRootable(cur, prefix);
    UpToDateCommit(limit, cur, prefix, jobs[i], suffix);
    if jobs[i].linked {
      RelinkStaysNear(limit, fs, cur, prefix, ts, i);
      RelinkSettles(limit, fs, cur, prefix, ts, i);
    }
  }

  lemma RerunStepsOn(limit: nat, fs: FS, prefix: Path, jobs: seq<Job>, ts: seq<Target>, suffix: string,
                     good: (nat, FS) -> bool, i: nat, x: FS)
    requires Committed(limit, fs, prefix, ts) && Matches(jobs, ts) && AllInstallable(prefix, jobs, suffix)
    requires i < |jobs| && UpToDate(jobs[i])
    requires forall k: nat, y :: good(k, y) <==> Rerun(limit, fs, prefix, ts, k, y)
    ensures StepsOn(limit, prefix, jobs, i, suffix, good, x)
  {
    if Ready(x, prefix) && good(i, x) { RerunStep(limit, fs, prefix, jobs, ts, i, suffix, x); }
  }

  /** Without a clash the second run succeeds and leaves the file system as it was. */
  lemma RerunChangesNothing(limit: nat, fs: FS, prefix: Path, jobs: seq<Job>, ts: seq<Target>, suffix: string)
    requires Committed(limit, fs, prefix, ts) && Matches(jobs, ts) && AllInstallable(prefix, jobs, suffix)
    requires forall i :: 0 <= i < |jobs| ==> UpToDate(jobs[i])
    ensures CommitFrom(limit, fs, prefix, jobs, 0, suffix) == Step(fs, true)
  {
    var good := (i: nat, x: FS) => Rerun(limit, fs, prefix, ts, i, x);
    forall i: nat, x: FS | i < |jobs| ensures StepsOn(limit, prefix, jobs, i, suffix, good, x) {
      RerunStepsOn(limit, fs, prefix, jobs, ts, suffix, good, i, x);
    }
    assert good(0, fs);
    LoopKeeps(limit, fs, prefix, jobs, 0, suffix, good);
    var end := CommitFrom(limit, fs, prefix, jobs, 0, suffix).fs;
    assert good(|jobs|, end);
    NearAndSettled(limit, fs, end, prefix, ts);
  }

  // ----- with a clash the second run fails -----

  /** A file that target i offers lies above one that target j offers. */
  ghost predicate Clash(limit: nat, fs: FS, prefix: Path, ts: seq<Target>, i: nat, j: nat, q: Path, q': Path) {
    i < |ts| && j < |ts| && q < q' && Offers(limit, fs, prefix, ts[i], q) && Offers(limit, fs, prefix, ts[j], q')
  }

  lemma ClashIsDir(limit: nat, fs: FS, prefix: Path, ts: seq<Target>, i: nat, j: nat, q: Path, q': Path)
    requires DirsSettled(limit, fs, prefix, ts) && Clash(limit, fs, prefix, ts, i, j, q, q')
    ensures RealDir(fs, prefix + q)
  {
    assert DirsReal(limit, fs, prefix, ts[j]);
    var files := Files(limit, fs, prefix, ts[j].name).value;
    var f :| 0 <= f < |files| && files[f] == q';
    Incomparable(prefix, q, q');
    assert prefix + q < prefix + files[f];
    assert IsAbove(prefix, files, prefix + q);
  }

  /** What the second run keeps on the way to the job that fails. */
  ghost predicate RootDirsKept(fs: FS, prefix: Path, cur: FS) {
    RootOnly(fs, cur, prefix) && DirsStay(fs, cur)
  }

  lemma RelinkKeepsDirs(limit: nat, fs: FS, prefix: Path, job: Job, suffix: string, cur: FS)
    requires Ready(cur, prefix) && Installable(prefix, job, suffix) && UpToDate(job) && RootDirsKept(fs, prefix, cur)
    ensures RootDirsKept(fs, prefix, CommitJob(limit, cur, prefix, job, suffix).fs)
  {
    RootRootable(cur, prefix);
    UpToDateCommit(limit, cur, prefix, job, suffix);
    var fs' := CommitJob(limit, cur, prefix, job, suffix).fs;
    if job.linked {
      ValidIsName(job.name);
      LinkRoot(limit, cur, prefix, job.name);
      forall p | !InRoot(prefix, p) ensures SameAt(fs, fs', p) { assert SameAt(fs, cur, p) && SameAt(cur, fs', p); }
    }
  }

  lemma ClashFails(limit: nat, fs: FS, prefix: Path, job: Job, suffix: string, q: Path, cur: FS)
    requires WF(fs) && StoresAreSound(fs, prefix) && Installed(fs, prefix, job.name)
    requires Files(limit, fs, prefix, job.name).Ok? && q in Files(limit, fs, prefix, job.name).value && RealDir(fs, prefix + q)
    requires Ready(cur, prefix) && Installable(prefix, job, suffix) && UpToDate(job) && job.linked
    requires RootDirsKept(fs, prefix, cur)
    ensures !CommitJob(limit, cur, prefix, job, suffix).ok
  {
    RootRootable(cur, prefix);
    UpToDateCommit(limit, cur, prefix, job, suffix);
    ValidIsName(job.name);
    RootOnlyStores(limit, fs, cur, prefix, job.name);
    LinkRoot(limit, cur, prefix, job.name);
    var files := Files(limit, fs, prefix, job.name).value;
    var f :| 0 <= f < |files| && files[f] == q;
    assert RealDir(cur, prefix + files[f]);
  }

  lemma ClashStopsAt(limit: nat, fs: FS, prefix: Path, jobs: seq<Job>, n: nat, suffix: string, q: Path,
                     good: FS -> bool, i: nat, x: FS)
    requires Inv(limit, fs, prefix) && AllInstallable(prefix, jobs, suffix) && i < |jobs| && UpToDate(jobs[i])
    requires n < |jobs| && jobs[n].linked && Installed(fs, prefix, jobs[n].name)
    requires Files(limit, fs, prefix, jobs[n].name).Ok? && q in Files(limit, fs, prefix, jobs[n].name).value
    requires RealDir(fs, prefix + q) && forall y :: good(y) <==> RootDirsKept(fs, prefix, y)
    ensures StopsAt(limit, prefix, jobs, n, suffix, good, i, x)
  {
    if Ready(x, prefix) && good(x) {
      RelinkKeepsDirs(limit, fs, prefix, jobs[i], suffix, x);
      if i == n { ClashFails(limit, fs, prefix, jobs[i], suffix, q, x); }
    }
  }

  lemma RerunStopsAt(limit: nat, fs: FS, prefix: Path, jobs: seq<Job>, n: nat, suffix: string, q: Path)
    requires Inv(limit, fs, prefix) && AllInstallable(prefix, jobs, suffix)
    requires forall i :: 0 <= i < |jobs| ==> UpToDate(jobs[i])
    requires n < |jobs| && jobs[n].linked && Installed(fs, prefix, jobs[n].name)
    requires Files(limit, fs, prefix, jobs[n].name).Ok? && q in Files(limit, fs, prefix, jobs[n].name).value
    requires RealDir(fs, prefix + q)
    ensures !CommitFrom(limit, fs, prefix, jobs, 0, suffix).ok
  {
    var good := (x: FS) => RootDirsKept(fs, prefix, x);
    forall i: nat, x: FS | i < |jobs| ensures StopsAt(limit, prefix, jobs, n, suffix, good, i, x) {
      ClashStopsAt(limit, fs, prefix, jobs, n, suffix, q, good, i, x);
    }
    assert good(fs);
    LoopFails(limit, fs, prefix, jobs, 0, suffix, good, n);
  }

  lemma FindClash(limit: nat, fs: FS, prefix: Path, ts: seq<Target>) returns (i: nat, j: nat, q: Path, q': Path)
    requires !NoClash(limit, fs, prefix, ts)
    ensures Clash(limit, fs, prefix, ts, i, j, q, q')
  {
    var a, b, x, y :| && 0 <= a < |ts| && 0 <= b < |ts| && x < y
      && Offers(limit, fs, prefix, ts[a], x) && Offers(limit, fs, prefix, ts[b], y);
    i, j, q, q' := a, b, x, y;
  }

  /** With a clash the second run fails: a directory stands where a link must go. */
  lemma RerunFails(limit: nat, fs: FS, prefix: Path, jobs: seq<Job>, ts: seq<Target>, suffix: string)
    requires Inv(limit, fs, prefix) && Matches(jobs, ts) && AllInstallable(prefix, jobs, suffix)
    requires forall i :: 0 <= i < |jobs| ==> UpToDate(jobs[i]) && Installed(fs, prefix, jobs[i].name)
    requires DirsSettled(limit, fs, prefix, ts) && !NoClash(limit, fs, prefix, ts)
    ensures !CommitFrom(limit, fs, prefix, jobs, 0, suffix).ok
  {
    var i, j, q, q' := FindClash(limit, fs, prefix, ts);
    ClashIsDir(limit, fs, prefix, ts, i, j, q, q');
    RerunStopsAt(limit, fs, prefix, jobs, i, suffix, q);
  }
}
