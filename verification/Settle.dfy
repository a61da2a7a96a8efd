/** Why running the same plan twice changes nothing: after a successful run each
    destination belongs to the last package that offers it, and relinking in the
    same order restores exactly that. */
module Settle {
  import opened Options
  import opened Lexical
  import opened FileTree
  import opened Aggregate
  import opened Prefix
  import opened Install
  import opened Lifecycle
  import opened Plan

  /** The target is linked and its store offers the file q. */
  predicate Offers(limit: nat, fs: FS, prefix: Path, t: Target, q: Path) {
    t.linked && Files(limit, fs, prefix, t.name).Ok? && q in Files(limit, fs, prefix, t.name).value
  }

  /** The last linked target among the first k that offers q. */
  function Owner(limit: nat, fs: FS, prefix: Path, ts: seq<Target>, k: nat, q: Path): Option<string>
    requires k <= |ts|
  {
    if k == 0 then None
    else if Offers(limit, fs, prefix, ts[k - 1], q) then Some(ts[k - 1].name)
    else Owner(limit, fs, prefix, ts, k - 1, q)
  }

  lemma {:induction false} OwnerOffers(limit: nat, fs: FS, prefix: Path, ts: seq<Target>, k: nat, q: Path) returns (i: nat)
    requires k <= |ts| && Owner(limit, fs, prefix, ts, k, q).Some?
    ensures i < k && Offers(limit, fs, prefix, ts[i], q) && Owner(limit, fs, prefix, ts, k, q) == Some(ts[i].name)
  {
    i := k - 1;
    if !Offers(limit, fs, prefix, ts[i], q) { i := OwnerOffers(limit, fs, prefix, ts, k - 1, q); }
  }

  lemma {:induction false} OfferedIsOwned(limit: nat, fs: FS, prefix: Path, ts: seq<Target>, k: nat, q: Path, i: nat)
    requires i < k <= |ts| && Offers(limit, fs, prefix, ts[i], q)
    ensures Owner(limit, fs, prefix, ts, k, q).Some?
  {
    if i < k - 1 { OfferedIsOwned(limit, fs, prefix, ts, k - 1, q, i); }
  }

  /** No offered file lies above another: no package file path is a proper prefix of another's. */
  ghost predicate NoClash(limit: nat, fs: FS, prefix: Path, ts: seq<Target>) {
    forall i, j, q, q' | 0 <= i < |ts| && 0 <= j < |ts| ::
      (Offers(limit, fs, prefix, ts[i], q) && Offers(limit, fs, prefix, ts[j], q')) ==> !(q < q')
  }

  /** Seen with the stores of `fin`: each path the first k targets offer links to its owner's file. */
  ghost predicate LinksSettled(limit: nat, fin: FS, fs: FS, prefix: Path, ts: seq<Target>, k: nat)
    requires k <= |ts|
  {
    forall q :: Owner(limit, fin, prefix, ts, k, q).Some? ==>
      prefix + q in fs &&
      fs[prefix + q] == LinkTo(prefix, StorePath(prefix, Owner(limit, fin, prefix, ts, k, q).value), q)
  }

  /** The target, if linked, can be collected, and real directories lie above its files. */
  ghost predicate DirsReal(limit: nat, fs: FS, prefix: Path, t: Target) {
    t.linked ==>
      && Files(limit, fs, prefix, t.name).Ok?
      && forall p :: IsAbove(prefix, Files(limit, fs, prefix, t.name).value, p) ==> RealDir(fs, p)
  }

  ghost predicate DirsSettled(limit: nat, fs: FS, prefix: Path, ts: seq<Target>) {
    forall i :: 0 <= i < |ts| ==> DirsReal(limit, fs, prefix, ts[i])
  }

  ghost predicate NamedTargets(ts: seq<Target>) {
    DistinctTargets(ts) && forall i :: 0 <= i < |ts| ==> ValidName(ts[i].name)
  }

  lemma ValidIsName(n: string)
    requires ValidName(n)
    ensures IsName(n)
  {}

  lemma OfferedInRoot(limit: nat, fin: FS, prefix: Path, t: Target, q: Path)
    requires Ready(fin, prefix) && ValidName(t.name) && Offers(limit, fin, prefix, t, q)
    ensures InRoot(prefix, prefix + q) && (prefix + q)[|prefix|..] == q && q != [] && Names(q)
  {
    ValidIsName(t.name);
    FilesInRoot(limit, fin, prefix, t.name);
    var files := Files(limit, fin, prefix, t.name).value;
    var i :| 0 <= i < |files| && files[i] == q;
    assert IsDest(prefix, files, prefix + q);
  }

  /** One committed job extends the settled part by its target. */
  lemma SettleStep(limit: nat, fin: FS, fs: FS, fs': FS, prefix: Path, ts: seq<Target>, k: nat, job: Job)
    requires Ready(fin, prefix) && Ready(fs, prefix) && JobDone(limit, fs, fs', prefix, job)
    requires NamedTargets(ts) && k < |ts| && job.name == ts[k].name && job.linked == ts[k].linked
    requires Files(limit, fs', prefix, ts[k].name) == Files(limit, fin, prefix, ts[k].name)
    requires NoClash(limit, fin, prefix, ts) && LinksSettled(limit, fin, fs, prefix, ts, k)
    ensures LinksSettled(limit, fin, fs', prefix, ts, k + 1)
  {
    forall q | Owner(limit, fin, prefix, ts, k + 1, q).Some?
      ensures prefix + q in fs'
      ensures fs'[prefix + q] == LinkTo(prefix, StorePath(prefix, Owner(limit, fin, prefix, ts, k + 1, q).value), q)
    {
      if Offers(limit, fin, prefix, ts[k], q) {
        var files := Files(limit, fs', prefix, ts[k].name).value;
        var i :| 0 <= i < |files| && files[i] == q;
      } else {
        SettledLinkStays(limit, fin, fs, fs', prefix, ts, k, job, q);
      }
    }
  }

  lemma SettledLinkStays(limit: nat, fin: FS, fs: FS, fs': FS, prefix: Path, ts: seq<Target>, k: nat, job: Job, q: Path)
    requires Ready(fin, prefix) && Ready(fs, prefix) && JobDone(limit, fs, fs', prefix, job)
    requires NamedTargets(ts) && k < |ts| && job.name == ts[k].name && job.linked == ts[k].linked
    requires Files(limit, fs', prefix, ts[k].name) == Files(limit, fin, prefix, ts[k].name)
    requires NoClash(limit, fin, prefix, ts) && LinksSettled(limit, fin, fs, prefix, ts, k)
    requires Owner(limit, fin, prefix, ts, k, q).Some? && !Offers(limit, fin, prefix, ts[k], q)
    ensures SameAt(fs, fs', prefix + q)
  {
    var p := prefix + q;
    var r := Files(limit, fs', prefix, ts[k].name);
    var i := OwnerOffers(limit, fin, prefix, ts, k, q);
    OfferedInRoot(limit, fin, prefix, ts[i], q);
    if Claimed(prefix, job, r, p) {
      ClaimedOffers(limit, fin, prefix, ts[k], q);
      if IsAbove(prefix, r.value, p) {
        var j :| 0 <= j < |r.value| && p < prefix + r.value[j];
        PrefixBelow(prefix, q, r.value[j]);
        assert Offers(limit, fin, prefix, ts[k], r.value[j]);
        assert false;
      }
    } else {
      NotItsLink(fs, prefix, ts[i].name, ts[k].name, q);
    }
  }

  lemma PrefixBelow(prefix: Path, a: Path, b: Path)
    requires prefix + a < prefix + b
    ensures a < b
  {
    Incomparable(prefix, a, b);
  }

  /** A destination of the target is a file it offers. */
  lemma ClaimedOffers(limit: nat, fin: FS, prefix: Path, t: Target, q: Path)
    requires t.linked && Files(limit, fin, prefix, t.name).Ok?
    requires !Offers(limit, fin, prefix, t, q)
    ensures !IsDest(prefix, Files(limit, fin, prefix, t.name).value, prefix + q)
  {
    var files := Files(limit, fin, prefix, t.name).value;
    forall i | 0 <= i < |files| ensures prefix + q != prefix + files[i] {
      assert (prefix + q)[|prefix|..] == q && (prefix + files[i])[|prefix|..] == files[i];
      assert files[i] in files;
    }
  }

  /** A link to one package's file does not name another package. */
  lemma NotItsLink(fs: FS, prefix: Path, m: string, n: string, q: Path)
    requires WF(fs) && m != n && IsName(m) && Names(prefix) && Names(q)
    requires prefix + q in fs && fs[prefix + q] == LinkTo(prefix, StorePath(prefix, m), q)
    ensures !NamesOwn(fs, prefix, n, prefix + q)
  {
    StoreIsNamed(prefix, m);
    assert Names(StorePath(prefix, m) + q);
    RelRoundTrip(Parent(prefix + q), StorePath(prefix, m) + q);
    assert (prefix + q)[|prefix|..] == q;
    assert (StorePath(prefix, m) + q)[|prefix| + 1] == m && (StorePath(prefix, n) + q)[|prefix| + 1] == n;
  }

  /** A real directory at or above the aggregate zone stays one. */
  lemma DirStays(fs: FS, fs': FS, prefix: Path, n: string, p: Path)
    requires OnlyStore(fs, fs', prefix, n) && RealDir(fs, p) && (InRoot(prefix, p) || p <= prefix)
    ensures RealDir(fs', p)
  {
    assert StorePath(prefix, n)[|prefix|] == "store";
  }

  lemma AboveInRoot(limit: nat, fin: FS, prefix: Path, n: string, p: Path)
    requires Ready(fin, prefix) && ValidName(n) && Files(limit, fin, prefix, n).Ok?
    requires IsAbove(prefix, Files(limit, fin, prefix, n).value, p)
    ensures InRoot(prefix, p) || p <= prefix
  {
    ValidIsName(n);
    FilesInRoot(limit, fin, prefix, n);
  }

  // ----- a whole run -----

  /** A run leaves the packages it does not name alone. */
  lemma {:induction false} RunLeavesOthers(limit: nat, states: seq<FS>, prefix: Path, jobs: seq<Job>, k: nat, n: string)
    requires Trace(limit, states, prefix, jobs) && k <= |jobs|
    requires forall i :: k <= i < |jobs| ==> jobs[i].name != n
    ensures var fs, fin := states[k], states[|jobs|];
      && PlainMeta(fin, prefix, n) == PlainMeta(fs, prefix, n)
      && SameAt(fs, fin, MetaPath(prefix, n))
      && (Installed(fs, prefix, n) ==> Files(limit, fin, prefix, n) == Files(limit, fs, prefix, n))
    decreases |jobs| - k
  {
    if k < |jobs| {
      StepLeavesOthers(limit, states, prefix, jobs, k, n);
      RunLeavesOthers(limit, states, prefix, jobs, k + 1, n);
    }
  }

  lemma StepLeavesOthers(limit: nat, states: seq<FS>, prefix: Path, jobs: seq<Job>, k: nat, n: string)
    requires Trace(limit, states, prefix, jobs) && k < |jobs| && jobs[k].name != n
    ensures var fs, fs' := states[k], states[k + 1];
      && PlainMeta(fs', prefix, n) == PlainMeta(fs, prefix, n)
      && SameAt(fs, fs', MetaPath(prefix, n))
      && (Installed(fs, prefix, n) ==> Files(limit, fs', prefix, n) == Files(limit, fs, prefix, n))
  {
    StepOf(limit, states, prefix, jobs, k);
    SoundOf(limit, states, prefix, jobs, k);
    OthersStable(limit, states[k], states[k + 1], prefix, jobs[k].name, n);
  }

  ghost predicate Matches(jobs: seq<Job>, ts: seq<Target>) {
    |jobs| == |ts| && forall i :: 0 <= i < |jobs| ==> jobs[i].name == ts[i].name && jobs[i].linked == ts[i].linked
  }

  /** The package just committed is still as it is at the end. */
  lemma JobStays(limit: nat, states: seq<FS>, prefix: Path, jobs: seq<Job>, k: nat)
    requires Trace(limit, states, prefix, jobs) && DistinctJobs(jobs) && k < |jobs|
    ensures Files(limit, states[k + 1], prefix, jobs[k].name) == Files(limit, states[|jobs|], prefix, jobs[k].name)
    ensures PlainMeta(states[|jobs|], prefix, jobs[k].name) == Some(JobMeta(jobs[k]))
  {
    StepOf(limit, states, prefix, jobs, k);
    RunLeavesOthers(limit, states, prefix, jobs, k + 1, jobs[k].name);
  }

  lemma LinksNext(limit: nat, states: seq<FS>, prefix: Path, jobs: seq<Job>, ts: seq<Target>, k: nat)
    requires Trace(limit, states, prefix, jobs) && DistinctJobs(jobs) && Matches(jobs, ts) && NamedTargets(ts) && k < |ts|
    requires NoClash(limit, states[|jobs|], prefix, ts)
    requires LinksSettled(limit, states[|jobs|], states[k], prefix, ts, k)
    ensures LinksSettled(limit, states[|jobs|], states[k + 1], prefix, ts, k + 1)
  {
    JobStays(limit, states, prefix, jobs, k);
    StepOf(limit, states, prefix, jobs, k);
    SoundOf(limit, states, prefix, jobs, k);
    SoundOf(limit, states, prefix, jobs, |jobs|);
    SettleStep(limit, states[|jobs|], states[k], states[k + 1], prefix, ts, k, jobs[k]);
  }

  lemma {:induction false} DirStaysToEnd(limit: nat, states: seq<FS>, prefix: Path, jobs: seq<Job>, k: nat, p: Path)
    requires Trace(limit, states, prefix, jobs) && k <= |jobs|
    requires RealDir(states[k], p) && (InRoot(prefix, p) || p <= prefix)
    ensures RealDir(states[|jobs|], p)
    decreases |jobs| - k
  {
    if k < |jobs| {
      StepKeepsDir(limit, states, prefix, jobs, k, p);
      DirStaysToEnd(limit, states, prefix, jobs, k + 1, p);
    }
  }

  lemma StepKeepsDir(limit: nat, states: seq<FS>, prefix: Path, jobs: seq<Job>, k: nat, p: Path)
    requires Trace(limit, states, prefix, jobs) && k < |jobs|
    requires RealDir(states[k], p) && (InRoot(prefix, p) || p <= prefix)
    ensures RealDir(states[k + 1], p)
  {
    StepOf(limit, states, prefix, jobs, k);
    DirStays(states[k], states[k + 1], prefix, jobs[k].name, p);
  }

  /** A run that succeeds leaves real directories above every file of the plan. */
  lemma RunSettlesDirs(limit: nat, states: seq<FS>, prefix: Path, jobs: seq<Job>, t: Target, k: nat)
    requires Trace(limit, states, prefix, jobs) && DistinctJobs(jobs)
    requires k < |jobs| && jobs[k].name == t.name && jobs[k].linked == t.linked && ValidName(t.name)
    ensures DirsReal(limit, states[|jobs|], prefix, t)
  {
    if t.linked {
      JobStays(limit, states, prefix, jobs, k);
      StepOf(limit, states, prefix, jobs, k);
      SoundOf(limit, states, prefix, jobs, |jobs|);
      forall p | IsAbove(prefix, Files(limit, states[|jobs|], prefix, t.name).value, p) ensures RealDir(states[|jobs|], p) {
        AboveInRoot(limit, states[|jobs|], prefix, t.name, p);
        DirStaysToEnd(limit, states, prefix, jobs, k + 1, p);
      }
    }
  }

  /** If no files clash it leaves every offered path linked to its owner's file. */
  lemma {:induction false} RunSettlesLinks(limit: nat, states: seq<FS>, prefix: Path, jobs: seq<Job>, ts: seq<Target>, k: nat)
    requires Trace(limit, states, prefix, jobs) && DistinctJobs(jobs) && Matches(jobs, ts) && NamedTargets(ts) && k <= |ts|
    requires NoClash(limit, states[|jobs|], prefix, ts)
    ensures LinksSettled(limit, states[|jobs|], states[k], prefix, ts, k)
  {
    if k > 0 {
      RunSettlesLinks(limit, states, prefix, jobs, ts, k - 1);
      LinksNext(limit, states, prefix, jobs, ts, k - 1);
    }
  }

  // ----- running a settled plan again -----

  /** The file systems agree except that offered paths may link to different owners. */
  ghost predicate Near(limit: nat, fs: FS, cur: FS, prefix: Path, ts: seq<Target>) {
    forall p :: SameAt(fs, cur, p) || RelinkedAt(limit, fs, cur, prefix, ts, p)
  }

  ghost predicate RelinkedAt(limit: nat, fs: FS, cur: FS, prefix: Path, ts: seq<Target>, p: Path) {
    && prefix <= p && Owner(limit, fs, prefix, ts, |ts|, p[|prefix|..]).Some?
    && p in fs && fs[p].Link? && p in cur && cur[p].Link?
  }

  lemma NearStores(limit: nat, fs: FS, cur: FS, prefix: Path, ts: seq<Target>, n: string)
    requires Inv(limit, fs, prefix) && WF(cur) && NamedTargets(ts) && Near(limit, fs, cur, prefix, ts)
    requires Installed(fs, prefix, n)
    ensures Files(limit, cur, prefix, n) == Files(limit, fs, prefix, n)
  {
    var d := StorePath(prefix, n);
    forall p | d <= p ensures SameAt(fs, cur, p) {
      assert p[|prefix|] == d[|prefix|] == "store" && prefix + p[|prefix|..] == p;
      if RelinkedAt(limit, fs, cur, prefix, ts, p) {
        var i := OwnerOffers(limit, fs, prefix, ts, |ts|, p[|prefix|..]);
        OfferedInRoot(limit, fs, prefix, ts[i], p[|prefix|..]);
      }
    }
    InstalledIsReal(fs, prefix, n);
    SameIsAlike(fs, cur, d);
    FilesStable(limit, fs, cur, prefix, n);
  }

  /** The whole plan was committed before, and nothing clashes. */
  ghost predicate Committed(limit: nat, fs: FS, prefix: Path, ts: seq<Target>) {
    && Inv(limit, fs, prefix) && NamedTargets(ts)
    && DirsSettled(limit, fs, prefix, ts) && LinksSettled(limit, fs, fs, prefix, ts, |ts|)
    && NoClash(limit, fs, prefix, ts)
    && forall i :: 0 <= i < |ts| ==> Installed(fs, prefix, ts[i].name)
  }

  lemma NearLink(limit: nat, fs: FS, cur: FS, prefix: Path, ts: seq<Target>, k: nat, f: nat)
    requires LinksSettled(limit, fs, fs, prefix, ts, |ts|) && Near(limit, fs, cur, prefix, ts)
    requires k < |ts| && ts[k].linked && Files(limit, fs, prefix, ts[k].name).Ok?
    requires f < |Files(limit, fs, prefix, ts[k].name).value|
    ensures var p := prefix + Files(limit, fs, prefix, ts[k].name).value[f];
      p in fs && fs[p].Link? && p in cur && cur[p].Link? && prefix <= p && Owner(limit, fs, prefix, ts, |ts|, p[|prefix|..]).Some?
  {
    var q := Files(limit, fs, prefix, ts[k].name).value[f];
    assert Offers(limit, fs, prefix, ts[k], q);
    OfferedIsOwned(limit, fs, prefix, ts, |ts|, q, k);
    assert (prefix + q)[|prefix|..] == q;
    var p := prefix + q;
    assert p in fs && fs[p].Link?;
    if !SameAt(fs, cur, p) { assert RelinkedAt(limit, fs, cur, prefix, ts, p); }
  }

  /** Relinking one target of a committed plan succeeds and stays near. */
  lemma RelinkStaysNear(limit: nat, fs: FS, cur: FS, prefix: Path, ts: seq<Target>, k: nat)
    requires Committed(limit, fs, prefix, ts) && Ready(cur, prefix) && Rootable(cur, prefix)
    requires Near(limit, fs, cur, prefix, ts) && k < |ts| && ts[k].linked
    ensures var s := LinkPkgInto(limit, cur, prefix, ts[k].name, prefix);
      s.ok && Near(limit, fs, s.fs, prefix, ts)
  {
    var n := ts[k].name;
    var r := Files(limit, fs, prefix, n);
    assert DirsReal(limit, fs, prefix, ts[k]);
    NearStores(limit, fs, cur, prefix, ts, n);
    ValidIsName(n);
    LinkRoot(limit, cur, prefix, n);
    var s := LinkPkgInto(limit, cur, prefix, n, prefix);
    forall f | 0 <= f < |r.value| ensures !RealDir(cur, prefix + r.value[f]) {
      NearLink(limit, fs, cur, prefix, ts, k, f);
    }
    forall p ensures SameAt(fs, s.fs, p) || RelinkedAt(limit, fs, s.fs, prefix, ts, p) {
      RelinkPoint(limit, fs, cur, s.fs, prefix, ts, k, p);
    }
  }

  lemma RelinkPoint(limit: nat, fs: FS, cur: FS, fs': FS, prefix: Path, ts: seq<Target>, k: nat, p: Path)
    requires Committed(limit, fs, prefix, ts) && Ready(cur, prefix) && Near(limit, fs, cur, prefix, ts)
    requires k < |ts| && ts[k].linked && Files(limit, fs, prefix, ts[k].name).Ok?
    requires Linked(cur, fs', prefix, StorePath(prefix, ts[k].name), Files(limit, fs, prefix, ts[k].name).value)
    ensures SameAt(fs, fs', p) || RelinkedAt(limit, fs, fs', prefix, ts, p)
  {
    assert DirsReal(limit, fs, prefix, ts[k]);
    var files := Files(limit, fs, prefix, ts[k].name).value;
    if IsDest(prefix, files, p) {
      var f :| 0 <= f < |files| && p == prefix + files[f];
      NearLink(limit, fs, cur, prefix, ts, k, f);
    } else if IsAbove(prefix, files, p) {
      assert RealDir(fs, p) && RealDir(fs', p);
    } else {
      assert SameAt(cur, fs', p);
      if !SameAt(fs, cur, p) { assert RelinkedAt(limit, fs, cur, prefix, ts, p); }
    }
  }
}
