/** What every successful operation on a prefix keeps: each link at its root names
    a file that an installed, linked package still offers. */
module Lifecycle {
  import opened Options
  import opened Lexical
  import opened FileTree
  import opened Collect
  import opened Aggregate
  import opened Prefix
  import opened Install

  /** The metadata record that lies in the package's own store. */
  function PlainMeta(fs: FS, prefix: Path, n: string): Option<Meta> {
    var p := MetaPath(prefix, n);
    if p in fs && fs[p].File? && fs[p].content.Record? then Some(fs[p].content.meta) else None
  }

  ghost predicate Installed(fs: FS, prefix: Path, n: string) {
    PlainMeta(fs, prefix, n).Some?
  }

  function Files(limit: nat, fs: FS, prefix: Path, n: string): Result<seq<Path>> {
    CollectFiles(limit, fs, StorePath(prefix, n))
  }

  /** Package n is installed and linked, offers the file q, and q's link names it. */
  ghost predicate OwnedBy(limit: nat, fs: FS, prefix: Path, q: Path, n: string) {
    && Installed(fs, prefix, n) && PlainMeta(fs, prefix, n).value.linked
    && Files(limit, fs, prefix, n).Ok? && q in Files(limit, fs, prefix, n).value
    && prefix + q in fs && fs[prefix + q] == LinkTo(prefix, StorePath(prefix, n), q)
  }

  ghost predicate HasOwner(limit: nat, fs: FS, prefix: Path, p: Path) {
    prefix <= p && exists n :: OwnedBy(limit, fs, prefix, p[|prefix|..], n)
  }

  ghost predicate LinksAreOwned(limit: nat, fs: FS, prefix: Path) {
    forall p :: InRoot(prefix, p) && p in fs && fs[p].Link? ==> HasOwner(limit, fs, prefix, p)
  }

  ghost predicate StoresAreSound(fs: FS, prefix: Path) {
    && (forall n :: MetaPath(prefix, n) in fs ==> fs[MetaPath(prefix, n)].File?)
    && (forall n :: Installed(fs, prefix, n) ==>
          PlainMeta(fs, prefix, n).value.name == n && Confined(fs, StorePath(prefix, n)))
  }

  ghost predicate Inv(limit: nat, fs: FS, prefix: Path) {
    Ready(fs, prefix) && StoresAreSound(fs, prefix) && LinksAreOwned(limit, fs, prefix)
  }

  /** An empty prefix satisfies the invariant. */
  lemma EmptyPrefix(limit: nat, fs: FS, prefix: Path)
    requires WF(fs) && RealDir(fs, prefix) && Childless(fs, prefix)
    ensures Inv(limit, fs, prefix)
  {
    assert prefix < prefix + ["store"] && prefix < prefix + ["profile"];
    forall n ensures StorePath(prefix, n) !in fs && MetaPath(prefix, n) !in fs && NoReserved(fs, StorePath(prefix, n)) {
      assert prefix < StorePath(prefix, n) && prefix < MetaPath(prefix, n);
      assert prefix < StorePath(prefix, n) + ["store"] && prefix < StorePath(prefix, n) + ["profile"];
    }
  }

  // ----- frames -----

  lemma InstalledIsReal(fs: FS, prefix: Path, n: string)
    requires WF(fs) && MetaPath(prefix, n) in fs
    ensures RealDir(fs, StorePath(prefix, n)) && IsName(n)
  {
    AncestorOf(fs, StorePath(prefix, n), MetaPath(prefix, n));
    assert StorePath(prefix, n)[|prefix| + 1] == n;
  }

  lemma FilesStable(limit: nat, fs: FS, fs': FS, prefix: Path, n: string)
    requires WF(fs) && WF(fs') && RealDir(fs, StorePath(prefix, n)) && Confined(fs, StorePath(prefix, n))
    requires Alike(fs, StorePath(prefix, n), fs', StorePath(prefix, n))
    ensures Files(limit, fs, prefix, n) == Files(limit, fs', prefix, n)
    ensures Confined(fs', StorePath(prefix, n)) && RealDir(fs', StorePath(prefix, n))
  {
    var d := StorePath(prefix, n);
    assert d + [] == d;
    CollectRelocates(limit, fs, d, fs', d);
    forall p | p in fs' && d < p && fs'[p].Link? ensures LinkOk(fs'[p].text, |p| - 1 - |d|) {
      assert d + p[|d|..] == p;
    }
  }

  lemma SameIsAlike(fs: FS, fs': FS, d: Path)
    requires SameUnder(fs, fs', d)
    ensures Alike(fs, d, fs', d)
  {
    forall r: Path ensures d + r in fs <==> d + r in fs'
      ensures d + r in fs ==> SameShape(fs[d + r], fs'[d + r])
    {
      assert SameAt(fs, fs', d + r);
    }
  }

  lemma ReadMetaIsPlain(limit: nat, fs: FS, prefix: Path, n: string)
    requires Ready(fs, prefix) && StoresAreSound(fs, prefix) && IsName(n)
    ensures ReadMeta(limit, fs, prefix, n) == PlainMeta(fs, prefix, n)
  {
    var store := StorePath(prefix, n);
    var p := MetaPath(prefix, n);
    if p in fs {
      EvalPhysical(limit, fs, p);
    } else {
      StoreAbove(fs, prefix, n);
      assert Names(prefix);
      StoreIsNamed(prefix, n);
      if store in fs && fs[store].File? {
        AncestorOf(fs, prefix + ["store"], store);
        assert p == prefix + ["store"] + [n, META_FILE] && store == prefix + ["store"] + [n];
        EvalBelow(limit, fs, prefix + ["store"], [n, META_FILE]);
      } else {
        forall q | q < p && q in fs ensures fs[q].Dir? {
          assert Parent(p) == store;
          PrefixStep(q, p);
          if q != store { assert q < store; }
        }
        EvalMissing(limit, fs, p);
      }
    }
  }

  // ----- what one committed job leaves -----

  /** Outside the aggregate zone only the package's own store may differ (and the
      directory holding the stores may have been created). */
  ghost predicate OnlyStore(fs: FS, fs': FS, prefix: Path, n: string) {
    && (forall p :: !InRoot(prefix, p) && !(StorePath(prefix, n) <= p) && p != prefix + ["store"] ==> SameAt(fs, fs', p))
    && (forall p :: RealDir(fs, p) && !(StorePath(prefix, n) <= p) ==> RealDir(fs', p))
  }

  /** The package is installed as the job says. */
  ghost predicate StoreDone(fs': FS, prefix: Path, job: Job) {
    && RealDir(fs', StorePath(prefix, job.name)) && Confined(fs', StorePath(prefix, job.name))
    && (MetaPath(prefix, job.name) in fs' ==> fs'[MetaPath(prefix, job.name)].File?)
    && PlainMeta(fs', prefix, job.name) == Some(JobMeta(job))
  }

  /** The path is one of the destinations the job links, or lies above one. */
  ghost predicate Claimed(prefix: Path, job: Job, r: Result<seq<Path>>, p: Path) {
    job.linked && r.Ok? && (IsDest(prefix, r.value, p) || IsAbove(prefix, r.value, p))
  }

  /** The link at `p` names the package's file of the same relative path. */
  ghost predicate NamesOwn(fs: FS, prefix: Path, n: string, p: Path) {
    prefix <= p && PointsTo(fs, p, StorePath(prefix, n) + p[|prefix|..])
  }

  /** The job's links are in place, with real directories above them. */
  ghost predicate LinksInPlace(fs': FS, prefix: Path, job: Job, r: Result<seq<Path>>) {
    job.linked ==>
      && r.Ok?
      && (forall i :: 0 <= i < |r.value| ==>
            prefix + r.value[i] in fs' && fs'[prefix + r.value[i]] == LinkTo(prefix, StorePath(prefix, job.name), r.value[i]))
      && (forall p :: IsAbove(prefix, r.value, p) ==> RealDir(fs', p))
  }

  /** What the job does not claim is as before, or was a stale link to its package. */
  ghost predicate RestKept(fs: FS, fs': FS, prefix: Path, job: Job, r: Result<seq<Path>>) {
    forall p :: InRoot(prefix, p) && !Claimed(prefix, job, r, p) ==>
      SameAt(fs, fs', p) || (p !in fs' && NamesOwn(fs, prefix, job.name, p))
  }

  /** No other link names the package. */
  ghost predicate NoOtherLinks(fs': FS, prefix: Path, job: Job, r: Result<seq<Path>>) {
    forall p :: InRoot(prefix, p) && NamesOwn(fs', prefix, job.name, p) ==> job.linked && r.Ok? && IsDest(prefix, r.value, p)
  }

  ghost predicate RootDone(limit: nat, fs: FS, fs': FS, prefix: Path, job: Job) {
    var r := Files(limit, fs', prefix, job.name);
    LinksInPlace(fs', prefix, job, r) && RestKept(fs, fs', prefix, job, r) && NoOtherLinks(fs', prefix, job, r)
  }

  ghost predicate JobDone(limit: nat, fs: FS, fs': FS, prefix: Path, job: Job) {
    && Ready(fs', prefix) && OnlyStore(fs, fs', prefix, job.name)
    && StoreDone(fs', prefix, job) && RootDone(limit, fs, fs', prefix, job)
  }

  lemma OwnedNames(limit: nat, fs: FS, prefix: Path, p: Path, n: string)
    requires WF(fs) && InRoot(prefix, p) && OwnedBy(limit, fs, prefix, p[|prefix|..], n)
    ensures PointsTo(fs, p, StorePath(prefix, n) + p[|prefix|..])
    ensures forall m :: NamesOwn(fs, prefix, m, p) ==> m == n
  {
    var q := p[|prefix|..];
    assert prefix + q == p;
    InstalledIsReal(fs, prefix, n);
    assert Names(p) && forall i :: 0 <= i < |q| ==> q[i] == p[|prefix| + i];
    assert Names(StorePath(prefix, n) + q);
    RelRoundTrip(Parent(p), StorePath(prefix, n) + q);
    forall m | NamesOwn(fs, prefix, m, p) ensures m == n {
      assert (StorePath(prefix, m) + q)[|prefix| + 1] == m && (StorePath(prefix, n) + q)[|prefix| + 1] == n;
    }
  }

  /** The other packages do not notice the job. */
  lemma OthersStable(limit: nat, fs: FS, fs': FS, prefix: Path, name: string, n: string)
    requires WF(fs) && WF(fs') && OnlyStore(fs, fs', prefix, name) && n != name
    ensures PlainMeta(fs', prefix, n) == PlainMeta(fs, prefix, n)
    ensures SameAt(fs, fs', MetaPath(prefix, n))
    ensures Installed(fs, prefix, n) && Confined(fs, StorePath(prefix, n)) ==>
      Confined(fs', StorePath(prefix, n)) && Files(limit, fs', prefix, n) == Files(limit, fs, prefix, n)
  {
    var d := StorePath(prefix, n);
    forall p | d <= p ensures SameAt(fs, fs', p) {
      assert p[|prefix|] == "store" && p[|prefix| + 1] == d[|prefix| + 1] == n;
      assert StorePath(prefix, name)[|prefix| + 1] == name;
      assert |p| > |prefix + ["store"]|;
    }
    assert d <= MetaPath(prefix, n) && SameAt(fs, fs', MetaPath(prefix, n));
    if Installed(fs, prefix, n) && Confined(fs, d) {
      InstalledIsReal(fs, prefix, n);
      SameIsAlike(fs, fs', d);
      FilesStable(limit, fs, fs', prefix, n);
    }
  }

  /** A committed job keeps the invariant. */
  lemma JobKeepsInv(limit: nat, fs: FS, fs': FS, prefix: Path, job: Job)
    requires Inv(limit, fs, prefix) && JobDone(limit, fs, fs', prefix, job)
    ensures Inv(limit, fs', prefix)
  {
    forall n | MetaPath(prefix, n) in fs'
      ensures fs'[MetaPath(prefix, n)].File?
      ensures Installed(fs', prefix, n) ==> PlainMeta(fs', prefix, n).value.name == n && Confined(fs', StorePath(prefix, n))
    {
      if n != job.name { OthersStable(limit, fs, fs', prefix, job.name, n); }
    }
    forall p | InRoot(prefix, p) && p in fs' && fs'[p].Link?
      ensures HasOwner(limit, fs', prefix, p)
    {
      JobLinkOwned(limit, fs, fs', prefix, job, p);
    }
  }

  lemma JobLinkOwned(limit: nat, fs: FS, fs': FS, prefix: Path, job: Job, p: Path)
    requires Inv(limit, fs, prefix) && JobDone(limit, fs, fs', prefix, job)
    requires InRoot(prefix, p) && p in fs' && fs'[p].Link?
    ensures HasOwner(limit, fs', prefix, p)
  {
    var r := Files(limit, fs', prefix, job.name);
    if Claimed(prefix, job, r, p) {
      assert IsAbove(prefix, r.value, p) ==> RealDir(fs', p);
      var i :| 0 <= i < |r.value| && p == prefix + r.value[i];
      assert (prefix + r.value[i])[|prefix|..] == r.value[i];
      assert OwnedBy(limit, fs', prefix, p[|prefix|..], job.name);
    } else {
      assert SameAt(fs, fs', p) && !NamesOwn(fs', prefix, job.name, p);
      OtherOwner(limit, fs, fs', prefix, job.name, p);
    }
  }

  /** A link that names another package keeps its owner. */
  lemma OtherOwner(limit: nat, fs: FS, fs': FS, prefix: Path, name: string, p: Path)
    requires WF(fs) && WF(fs') && StoresAreSound(fs, prefix) && OnlyStore(fs, fs', prefix, name) && InRoot(prefix, p)
    requires HasOwner(limit, fs, prefix, p) && SameAt(fs, fs', p) && !NamesOwn(fs', prefix, name, p)
    ensures HasOwner(limit, fs', prefix, p)
  {
    assert prefix + p[|prefix|..] == p;
    var n :| OwnedBy(limit, fs, prefix, p[|prefix|..], n);
    OwnedNames(limit, fs, prefix, p, n);
    OthersStable(limit, fs, fs', prefix, name, n);
    assert OwnedBy(limit, fs', prefix, p[|prefix|..], n);
  }

  // ----- a successful commit leaves a done job -----

  /** Every link that names the package is one of its destinations. */
  ghost predicate OwnLinksListed(limit: nat, fs: FS, prefix: Path, n: string) {
    forall p :: InRoot(prefix, p) && NamesOwn(fs, prefix, n, p) ==>
      Files(limit, fs, prefix, n).Ok? && IsDest(prefix, Files(limit, fs, prefix, n).value, p)
  }

  ghost predicate NoOwnLinks(fs: FS, prefix: Path, n: string) {
    forall p :: InRoot(prefix, p) ==> !NamesOwn(fs, prefix, n, p)
  }

  lemma InvListsOwnLinks(limit: nat, fs: FS, prefix: Path, n: string)
    requires Inv(limit, fs, prefix)
    ensures OwnLinksListed(limit, fs, prefix, n)
    ensures !(Installed(fs, prefix, n) && PlainMeta(fs, prefix, n).value.linked) ==> NoOwnLinks(fs, prefix, n)
  {
    forall p | InRoot(prefix, p) && NamesOwn(fs, prefix, n, p)
      ensures OwnedBy(limit, fs, prefix, p[|prefix|..], n)
    {
      var m :| OwnedBy(limit, fs, prefix, p[|prefix|..], m);
      OwnedNames(limit, fs, prefix, p, m);
    }
    forall p | InRoot(prefix, p) && NamesOwn(fs, prefix, n, p)
      ensures Files(limit, fs, prefix, n).Ok? && IsDest(prefix, Files(limit, fs, prefix, n).value, p)
    {
      var q := p[|prefix|..];
      assert OwnedBy(limit, fs, prefix, q, n) && prefix + q == p;
      var i :| 0 <= i < |Files(limit, fs, prefix, n).value| && Files(limit, fs, prefix, n).value[i] == q;
    }
  }

  /** Either untouched, or a link to the package that is gone. */
  ghost predicate OnlyStaleGone(fs: FS, fs': FS, prefix: Path, n: string) {
    forall p :: InRoot(prefix, p) ==> SameAt(fs, fs', p) || (p !in fs' && NamesOwn(fs, prefix, n, p))
  }

  lemma UnlinkClears(limit: nat, fs: FS, prefix: Path, n: string)
    requires Ready(fs, prefix) && IsName(n) && OwnLinksListed(limit, fs, prefix, n)
    requires UnlinkPkgFrom(limit, fs, prefix, n, prefix).ok
    ensures var fs' := UnlinkPkgFrom(limit, fs, prefix, n, prefix).fs;
      NoOwnLinks(fs', prefix, n) && OnlyStaleGone(fs, fs', prefix, n)
  {
    UnlinkRoot(limit, fs, prefix, n);
    var fs' := UnlinkPkgFrom(limit, fs, prefix, n, prefix).fs;
    var files := Files(limit, fs, prefix, n).value;
    var store := StorePath(prefix, n);
    forall p | InRoot(prefix, p)
      ensures !NamesOwn(fs', prefix, n, p)
      ensures SameAt(fs, fs', p) || (p !in fs' && NamesOwn(fs, prefix, n, p))
    {
      if NamesOwn(fs, prefix, n, p) { ListedIsOwned(fs, prefix, n, files, p); }
      if Owned(fs, prefix, store, files, p) {
        var i :| 0 <= i < |files| && p == prefix + files[i] && PointsTo(fs, p, store + files[i]);
        assert p[|prefix|..] == files[i];
      } else {
        assert SameAt(fs, fs', p);
      }
    }
  }

  lemma ListedIsOwned(fs: FS, prefix: Path, n: string, files: seq<Path>, p: Path)
    requires IsDest(prefix, files, p) && NamesOwn(fs, prefix, n, p)
    ensures Owned(fs, prefix, StorePath(prefix, n), files, p)
  {
    var i :| 0 <= i < |files| && p == prefix + files[i];
    assert p[|prefix|..] == files[i];
  }

  /** Linking from a state without foreign links to the package finishes the zone. */
  lemma LinkFinishes(limit: nat, fs: FS, mid: FS, prefix: Path, job: Job)
    requires Ready(mid, prefix) && Rootable(mid, prefix) && IsName(job.name) && job.linked
    requires OnlyStaleGone(fs, mid, prefix, job.name)
    requires OwnLinksListed(limit, mid, prefix, job.name)
    requires RealDir(mid, StorePath(prefix, job.name)) && Confined(mid, StorePath(prefix, job.name))
    requires LinkPkgInto(limit, mid, prefix, job.name, prefix).ok
    ensures RootDone(limit, fs, LinkPkgInto(limit, mid, prefix, job.name, prefix).fs, prefix, job)
  {
    var n := job.name;
    var store := StorePath(prefix, n);
    LinkRoot(limit, mid, prefix, n);
    FilesInRoot(limit, mid, prefix, n);
    var fs' := LinkPkgInto(limit, mid, prefix, n, prefix).fs;
    RootOnlySameStore(mid, fs', prefix, n);
    FilesStable(limit, mid, fs', prefix, n);
    var r := Files(limit, mid, prefix, n);
    var files := r.value;
    forall p | InRoot(prefix, p) && !Claimed(prefix, job, r, p)
      ensures SameAt(fs, fs', p) || (p !in fs' && NamesOwn(fs, prefix, n, p))
    {
      assert SameAt(mid, fs', p);
    }
    forall p | InRoot(prefix, p) && NamesOwn(fs', prefix, n, p) ensures IsDest(prefix, files, p) {
      assert IsAbove(prefix, files, p) ==> RealDir(fs', p);
      assert !IsDest(prefix, files, p) && !IsAbove(prefix, files, p) ==> SameAt(mid, fs', p);
      assert SameAt(mid, fs', p) ==> NamesOwn(mid, prefix, n, p);
    }
  }

  lemma RootOnlySameStore(fs: FS, fs': FS, prefix: Path, n: string)
    requires RootOnly(fs, fs', prefix)
    ensures SameUnder(fs, fs', StorePath(prefix, n)) && Alike(fs, StorePath(prefix, n), fs', StorePath(prefix, n))
  {
    forall p | StorePath(prefix, n) <= p ensures SameAt(fs, fs', p) {
      assert p[|prefix|] == StorePath(prefix, n)[|prefix|] == "store";
    }
    SameIsAlike(fs, fs', StorePath(prefix, n));
  }

  lemma NothingToLink(limit: nat, fs: FS, mid: FS, prefix: Path, job: Job)
    requires !job.linked && OnlyStaleGone(fs, mid, prefix, job.name) && NoOwnLinks(mid, prefix, job.name)
    ensures RootDone(limit, fs, mid, prefix, job)
  {}

  /** Changing nothing at the root and nothing but contents in the store keeps the zone done. */
  lemma RootDoneStays(limit: nat, fs: FS, mid: FS, fs': FS, prefix: Path, job: Job)
    requires Ready(mid, prefix) && IsName(job.name) && RootDone(limit, fs, mid, prefix, job)
    requires forall p :: !(StorePath(prefix, job.name) <= p) ==> SameAt(mid, fs', p)
    requires Files(limit, mid, prefix, job.name) == Files(limit, fs', prefix, job.name)
    ensures RootDone(limit, fs, fs', prefix, job)
  {
    var r := Files(limit, fs', prefix, job.name);
    OutsideStore(mid, fs', prefix, job.name);
    if job.linked {
      FilesInRoot(limit, mid, prefix, job.name);
      LinksStay(mid, fs', prefix, job, r);
    }
  }

  lemma OutsideStore(mid: FS, fs': FS, prefix: Path, n: string)
    requires forall p :: !(StorePath(prefix, n) <= p) ==> SameAt(mid, fs', p)
    ensures forall p :: InRoot(prefix, p) || p <= prefix ==> SameAt(mid, fs', p)
    ensures forall p :: InRoot(prefix, p) ==> (NamesOwn(mid, prefix, n, p) <==> NamesOwn(fs', prefix, n, p))
  {
    var store := StorePath(prefix, n);
    assert store[|prefix|] == "store" && |store| == |prefix| + 2;
    forall p | InRoot(prefix, p) || p <= prefix ensures SameAt(mid, fs', p) {}
  }

  lemma LinksStay(mid: FS, fs': FS, prefix: Path, job: Job, r: Result<seq<Path>>)
    requires forall p :: InRoot(prefix, p) || p <= prefix ==> SameAt(mid, fs', p)
    requires r.Ok? && (forall p :: IsDest(prefix, r.value, p) ==> InRoot(prefix, p))
    requires forall p :: IsAbove(prefix, r.value, p) ==> InRoot(prefix, p) || p <= prefix
    requires LinksInPlace(mid, prefix, job, r)
    ensures LinksInPlace(fs', prefix, job, r)
  {
    if job.linked {
      forall i | 0 <= i < |r.value|
        ensures prefix + r.value[i] in fs'
        ensures fs'[prefix + r.value[i]] == LinkTo(prefix, StorePath(prefix, job.name), r.value[i])
      {
        assert IsDest(prefix, r.value, prefix + r.value[i]);
        assert SameAt(mid, fs', prefix + r.value[i]);
      }
      forall p | IsAbove(prefix, r.value, p) ensures RealDir(fs', p) {
        assert SameAt(mid, fs', p) && RealDir(mid, p);
      }
    }
  }

  lemma RootOnlyKeepsStores(limit: nat, fs: FS, fs': FS, prefix: Path, n: string)
    requires WF(fs) && WF(fs') && RootOnly(fs, fs', prefix) && RealDir(fs, StorePath(prefix, n)) && Confined(fs, StorePath(prefix, n))
    ensures Files(limit, fs, prefix, n) == Files(limit, fs', prefix, n)
    ensures RealDir(fs', StorePath(prefix, n)) && Confined(fs', StorePath(prefix, n))
    ensures SameAt(fs, fs', MetaPath(prefix, n)) && PlainMeta(fs, prefix, n) == PlainMeta(fs', prefix, n)
  {
    RootOnlySameStore(fs, fs', prefix, n);
    FilesStable(limit, fs, fs', prefix, n);
    assert StorePath(prefix, n) <= MetaPath(prefix, n);
  }

  /** Putting a record where one lies changes nothing but that file. */
  lemma MetaWritten(limit: nat, fs: FS, store: Path, m: Meta)
    requires WF(fs) && RealDir(fs, store) && RealAbove(fs, store) && store + [META_FILE] in fs && fs[store + [META_FILE]].File?
    ensures WriteMeta(limit, fs, store, m) == Step(fs[store + [META_FILE] := MetaNode(m)], true)
    ensures WF(fs[store + [META_FILE] := MetaNode(m)])
  {
    PutMetaWF(fs, store, m);
  }

  lemma MetaKeepsShape(fs: FS, fs': FS, store: Path, m: Meta)
    requires store + [META_FILE] in fs && fs[store + [META_FILE]].File? && fs' == fs[store + [META_FILE] := MetaNode(m)]
    ensures Alike(fs, store, fs', store)
  {
    forall r: Path ensures store + r in fs <==> store + r in fs'
      ensures store + r in fs ==> SameShape(fs[store + r], fs'[store + r])
    {}
  }

  lemma MetaKeepsReady(fs: FS, fs': FS, prefix: Path, n: string, m: Meta)
    requires Ready(fs, prefix) && RealDir(fs, StorePath(prefix, n)) && MetaPath(prefix, n) in fs && WF(fs')
    requires fs' == fs[MetaPath(prefix, n) := MetaNode(m)]
    ensures Ready(fs', prefix)
  {
    var store := StorePath(prefix, n);
    var p := MetaPath(prefix, n);
    assert store <= p && NoReserved(fs, store) && |store| < |p|;
    assert (store + ["store"])[|store|] == "store" && (store + ["profile"])[|store|] == "profile" && p[|store|] == META_FILE;
    ReadyExceptStore(fs, fs', prefix, n);
  }

  /** Rewriting the metadata record of an installed package. */
  lemma MetaRewritten(limit: nat, fs: FS, prefix: Path, n: string, m: Meta)
    requires Ready(fs, prefix) && RealDir(fs, StorePath(prefix, n)) && Confined(fs, StorePath(prefix, n))
    requires RealAbove(fs, StorePath(prefix, n))
    requires MetaPath(prefix, n) in fs && fs[MetaPath(prefix, n)].File?
    ensures var s := WriteMeta(limit, fs, StorePath(prefix, n), m);
      && s.ok && Ready(s.fs, prefix)
      && RealDir(s.fs, StorePath(prefix, n)) && Confined(s.fs, StorePath(prefix, n))
      && MetaPath(prefix, n) in s.fs && s.fs[MetaPath(prefix, n)] == MetaNode(m)
      && (forall p :: p != MetaPath(prefix, n) ==> SameAt(fs, s.fs, p))
      && Files(limit, s.fs, prefix, n) == Files(limit, fs, prefix, n)
  {
    var store := StorePath(prefix, n);
    var fs' := fs[MetaPath(prefix, n) := MetaNode(m)];
    assert store + [META_FILE] == MetaPath(prefix, n);
    MetaWritten(limit, fs, store, m);
    MetaKeepsShape(fs, fs', store, m);
    FilesStable(limit, fs, fs', prefix, n);
    MetaKeepsReady(fs, fs', prefix, n, m);
  }

  ghost predicate JobReady(limit: nat, fs: FS, prefix: Path, job: Job, suffix: string) {
    && Installable(prefix, job, suffix)
    && job.current == PlainMeta(fs, prefix, job.name)
    && (!job.fetch ==> job.current.Some? && job.current.value.digest == job.artifact.digest)
  }

  lemma RelinkRoot(limit: nat, fs: FS, prefix: Path, job: Job) returns (mid: FS)
    requires Inv(limit, fs, prefix) && !job.fetch && ValidName(job.name) && job.current.Some?
    requires job.current == PlainMeta(fs, prefix, job.name)
    requires CommitRelink(limit, fs, prefix, job).ok
    ensures Ready(mid, prefix) && RootOnly(fs, mid, prefix) && DirsStay(fs, mid)
    ensures RootDone(limit, fs, mid, prefix, job)
    ensures RealAbove(mid, StorePath(prefix, job.name))
    ensures var s := CommitRelink(limit, fs, prefix, job);
      if job.current.value.arch != job.arch || job.current.value.linked != job.linked
      then s == WriteMeta(limit, mid, StorePath(prefix, job.name), JobMeta(job)) else s.fs == mid
  {
    var n := job.name;
    InstalledIsReal(fs, prefix, n);
    InvListsOwnLinks(limit, fs, prefix, n);
    UnlinkRoot(limit, fs, prefix, n);
    RootRootable(fs, prefix);
    LinkRoot(limit, fs, prefix, n);
    mid := fs;
    if job.current.value.linked && !job.linked {
      UnlinkClears(limit, fs, prefix, n);
      mid := UnlinkPkgFrom(limit, fs, prefix, n, prefix).fs;
      NothingToLink(limit, fs, mid, prefix, job);
    } else if job.linked {
      LinkFinishes(limit, fs, fs, prefix, job);
      mid := LinkPkgInto(limit, fs, prefix, n, prefix).fs;
    } else {
      NothingToLink(limit, fs, fs, prefix, job);
    }
    StoreAbove(mid, prefix, n);
  }

  lemma RelinkDone(limit: nat, fs: FS, prefix: Path, job: Job, suffix: string)
    requires Inv(limit, fs, prefix) && JobReady(limit, fs, prefix, job, suffix) && !job.fetch
    requires CommitRelink(limit, fs, prefix, job).ok
    ensures JobDone(limit, fs, CommitRelink(limit, fs, prefix, job).fs, prefix, job)
  {
    var n := job.name;
    var fs' := CommitRelink(limit, fs, prefix, job).fs;
    InstalledIsReal(fs, prefix, n);
    var mid := RelinkRoot(limit, fs, prefix, job);
    RootOnlyKeepsStores(limit, fs, mid, prefix, n);
    if job.current.value.arch != job.arch || job.current.value.linked != job.linked {
      MetaRewritten(limit, mid, prefix, n, JobMeta(job));
      assert StorePath(prefix, n) <= MetaPath(prefix, n);
      RootDoneStays(limit, fs, mid, fs', prefix, job);
      forall p | !InRoot(prefix, p) && !(StorePath(prefix, n) <= p) ensures SameAt(fs, fs', p) {
        assert SameAt(fs, mid, p) && SameAt(mid, fs', p);
      }
      forall p | RealDir(fs, p) && !(StorePath(prefix, n) <= p) ensures RealDir(fs', p) {
        assert RealDir(mid, p) && SameAt(mid, fs', p);
      }
    } else {
      assert job.current.value == JobMeta(job);
    }
  }

  /** While the staging directory is filled nothing else changes. */
  ghost predicate StagedFrom(fs: FS, filled: FS, prefix: Path, stage: Path) {
    forall p :: !(stage <= p) && p != prefix + ["store"] ==> SameAt(fs, filled, p)
  }

  lemma StagingDone(limit: nat, fs: FS, prefix: Path, job: Job, suffix: string)
    requires Ready(fs, prefix) && job.fetch && Installable(prefix, job, suffix)
    requires StagePath(prefix, job.name, suffix) !in fs
    ensures WF(WithStage(fs, prefix, StagePath(prefix, job.name, suffix)))
    ensures RealDir(WithStage(fs, prefix, StagePath(prefix, job.name, suffix)), StagePath(prefix, job.name, suffix))
    ensures var stage := StagePath(prefix, job.name, suffix);
      var s := FillStage(limit, WithStage(fs, prefix, stage), stage, job);
      && Ready(s.fs, prefix) && RealDir(s.fs, stage) && StagedFrom(fs, s.fs, prefix, stage)
      && RealDir(s.fs, prefix + ["store"])
      && (s.ok ==> Confined(s.fs, stage) && stage + [META_FILE] in s.fs && s.fs[stage + [META_FILE]] == MetaNode(JobMeta(job)))
  {
    var stage := StagePath(prefix, job.name, suffix);
    WithStageEffect(fs, prefix, job.name, suffix);
    var staged := WithStage(fs, prefix, stage);
    FillStageEffect(limit, staged, stage, job);
    FilledReady(limit, staged, prefix, job, suffix);
    var s := FillStage(limit, staged, stage, job);
    assert |prefix + ["store"]| < |stage|;
    forall p | !(stage <= p) && p != prefix + ["store"] ensures SameAt(fs, s.fs, p) {
      assert SameAt(fs, staged, p) && SameAt(staged, s.fs, p);
    }
    assert SameAt(staged, s.fs, prefix + ["store"]);
  }

  /** The old links are cleared whether or not the package was linked before. */
  lemma StagedListsOwnLinks(limit: nat, fs: FS, filled: FS, prefix: Path, job: Job, suffix: string)
    requires Inv(limit, fs, prefix) && JobReady(limit, fs, prefix, job, suffix) && Ready(filled, prefix)
    requires StagedFrom(fs, filled, prefix, StagePath(prefix, job.name, suffix))
    ensures OwnLinksListed(limit, filled, prefix, job.name)
    ensures !WasLinked(job) ==> NoOwnLinks(filled, prefix, job.name)
    ensures forall p :: InRoot(prefix, p) ==> SameAt(fs, filled, p)
  {
    var n := job.name;
    var store := StorePath(prefix, n);
    var stage := StagePath(prefix, n, suffix);
    InvListsOwnLinks(limit, fs, prefix, n);
    Apart(prefix, n, suffix);
    assert stage[|prefix|] == "store" && (prefix + ["store"])[|prefix|] == "store";
    forall p | InRoot(prefix, p) ensures SameAt(fs, filled, p) {}
    forall p | store <= p ensures SameAt(fs, filled, p) {
      assert |p| > |prefix + ["store"]|;
    }
    if Installed(fs, prefix, n) {
      InstalledIsReal(fs, prefix, n);
      SameIsAlike(fs, filled, store);
      FilesStable(limit, fs, filled, prefix, n);
    }
    forall p | InRoot(prefix, p) ensures NamesOwn(filled, prefix, n, p) <==> NamesOwn(fs, prefix, n, p) {
      assert SameAt(fs, filled, p);
    }
  }

  /** Once staged, unlinked and swapped, the prefix is ready for the new links. */
  ghost predicate SwappedIn(limit: nat, fs: FS, fs': FS, prefix: Path, job: Job) {
    && Ready(fs', prefix) && OnlyStore(fs, fs', prefix, job.name)
    && StoreDone(fs', prefix, job)
    && OnlyStaleGone(fs, fs', prefix, job.name) && NoOwnLinks(fs', prefix, job.name)
  }

  lemma UnlinkStaged(limit: nat, fs: FS, filled: FS, prefix: Path, job: Job, suffix: string) returns (cleared: FS)
    requires Inv(limit, fs, prefix) && JobReady(limit, fs, prefix, job, suffix) && Ready(filled, prefix)
    requires StagedFrom(fs, filled, prefix, StagePath(prefix, job.name, suffix))
    requires WasLinked(job) ==> UnlinkPkgFrom(limit, filled, prefix, job.name, prefix).ok
    ensures cleared == if WasLinked(job) then UnlinkPkgFrom(limit, filled, prefix, job.name, prefix).fs else filled
    ensures Ready(cleared, prefix) && RootOnly(filled, cleared, prefix) && DirsStay(filled, cleared)
    ensures OnlyStaleGone(fs, cleared, prefix, job.name) && NoOwnLinks(cleared, prefix, job.name)
  {
    var n := job.name;
    StagedListsOwnLinks(limit, fs, filled, prefix, job, suffix);
    assert Names(prefix);
    StageIsNamed(prefix, n, suffix);
    cleared := filled;
    if WasLinked(job) {
      UnlinkRoot(limit, filled, prefix, n);
      UnlinkClears(limit, filled, prefix, n);
      cleared := UnlinkPkgFrom(limit, filled, prefix, n, prefix).fs;
      forall p | InRoot(prefix, p) ensures SameAt(fs, cleared, p) || (p !in cleared && NamesOwn(fs, prefix, n, p)) {
        assert SameAt(fs, filled, p);
      }
    }
  }

  lemma SwapFinishes(limit: nat, fs: FS, filled: FS, cleared: FS, prefix: Path, job: Job, suffix: string)
    requires Ready(fs, prefix) && ValidName(job.name) && StagePath(prefix, job.name, suffix) !in fs
    requires Ready(filled, prefix) && StagedFrom(fs, filled, prefix, StagePath(prefix, job.name, suffix))
    requires RealDir(filled, StagePath(prefix, job.name, suffix)) && Confined(filled, StagePath(prefix, job.name, suffix))
    requires StagePath(prefix, job.name, suffix) + [META_FILE] in filled
    requires filled[StagePath(prefix, job.name, suffix) + [META_FILE]] == MetaNode(JobMeta(job))
    requires Ready(cleared, prefix) && RootOnly(filled, cleared, prefix) && DirsStay(filled, cleared)
    requires OnlyStaleGone(fs, cleared, prefix, job.name) && NoOwnLinks(cleared, prefix, job.name)
    requires RealDir(cleared, StagePath(prefix, job.name, suffix))
    ensures SwappedIn(limit, fs, Swap(cleared, StagePath(prefix, job.name, suffix), StorePath(prefix, job.name)), prefix, job)
  {
    var n := job.name;
    var stage := StagePath(prefix, n, suffix);
    var store := StorePath(prefix, n);
    var fs' := Swap(cleared, stage, store);
    SwapEffect(cleared, prefix, n, suffix);
    Apart(prefix, n, suffix);
    SwapRoot(fs, cleared, fs', prefix, n, stage);
    SwapKeepsOutside(fs, filled, cleared, fs', prefix, n, suffix);
    SwapKeepsDirs(fs, filled, cleared, fs', prefix, n, suffix);
    SwapStoreDone(filled, cleared, fs', prefix, job, suffix);
  }

  lemma SwapRoot(fs: FS, cleared: FS, fs': FS, prefix: Path, n: string, stage: Path)
    requires Swapped(cleared, fs', stage, StorePath(prefix, n)) && prefix + ["store"] < stage
    requires OnlyStaleGone(fs, cleared, prefix, n) && NoOwnLinks(cleared, prefix, n)
    ensures OnlyStaleGone(fs, fs', prefix, n) && NoOwnLinks(fs', prefix, n)
  {
    assert stage[|prefix|] == (prefix + ["store"])[|prefix|] == "store" && StorePath(prefix, n)[|prefix|] == "store";
    forall p | InRoot(prefix, p)
      ensures SameAt(fs, fs', p) || (p !in fs' && NamesOwn(fs, prefix, n, p))
      ensures !NamesOwn(fs', prefix, n, p)
    {
      assert SameAt(cleared, fs', p) && !NamesOwn(cleared, prefix, n, p);
    }
  }

  lemma SwapKeepsOutside(fs: FS, filled: FS, cleared: FS, fs': FS, prefix: Path, n: string, suffix: string)
    requires WF(fs) && StagePath(prefix, n, suffix) !in fs && StagedFrom(fs, filled, prefix, StagePath(prefix, n, suffix))
    requires RootOnly(filled, cleared, prefix) && Swapped(cleared, fs', StagePath(prefix, n, suffix), StorePath(prefix, n))
    ensures forall p :: !InRoot(prefix, p) && !(StorePath(prefix, n) <= p) && p != prefix + ["store"] ==> SameAt(fs, fs', p)
  {
    var stage := StagePath(prefix, n, suffix);
    forall p | !InRoot(prefix, p) && !(StorePath(prefix, n) <= p) && p != prefix + ["store"] ensures SameAt(fs, fs', p) {
      if stage <= p {
        if p in fs { NotBelowMissing(fs, stage, p); }
      } else {
        assert SameAt(fs, filled, p) && SameAt(filled, cleared, p) && SameAt(cleared, fs', p);
      }
    }
  }

  lemma NotBelowMissing(fs: FS, stage: Path, p: Path)
    requires WF(fs) && stage !in fs && p in fs
    ensures !(stage <= p)
  {
    if stage <= p && stage != p { AncestorOf(fs, stage, p); }
  }

  lemma SwapKeepsDirs(fs: FS, filled: FS, cleared: FS, fs': FS, prefix: Path, n: string, suffix: string)
    requires WF(fs) && StagePath(prefix, n, suffix) !in fs && StagedFrom(fs, filled, prefix, StagePath(prefix, n, suffix))
    requires DirsStay(filled, cleared) && Swapped(cleared, fs', StagePath(prefix, n, suffix), StorePath(prefix, n))
    requires WF(fs') && RealDir(fs', StorePath(prefix, n))
    ensures forall p :: RealDir(fs, p) && !(StorePath(prefix, n) <= p) ==> RealDir(fs', p)
  {
    var stage := StagePath(prefix, n, suffix);
    forall p | RealDir(fs, p) && !(StorePath(prefix, n) <= p) ensures RealDir(fs', p) {
      if p == prefix + ["store"] {
        AncestorOf(fs', p, StorePath(prefix, n));
      } else {
        NotBelowMissing(fs, stage, p);
        assert SameAt(fs, filled, p) && RealDir(filled, p) && RealDir(cleared, p) && SameAt(cleared, fs', p);
      }
    }
  }

  lemma SwapStoreDone(filled: FS, cleared: FS, fs': FS, prefix: Path, job: Job, suffix: string)
    requires RootOnly(filled, cleared, prefix) && Swapped(cleared, fs', StagePath(prefix, job.name, suffix), StorePath(prefix, job.name))
    requires Confined(filled, StagePath(prefix, job.name, suffix)) && RealDir(fs', StorePath(prefix, job.name))
    requires StagePath(prefix, job.name, suffix) + [META_FILE] in filled
    requires filled[StagePath(prefix, job.name, suffix) + [META_FILE]] == MetaNode(JobMeta(job))
    ensures StoreDone(fs', prefix, job)
  {
    var stage := StagePath(prefix, job.name, suffix);
    var store := StorePath(prefix, job.name);
    assert stage[|prefix|] == "store";
    forall p | stage <= p ensures SameAt(filled, cleared, p) { assert p[|prefix|] == "store"; }
    assert |stage| == |store|;
    SwapConfines(filled, cleared, fs', stage, store);
    assert SameAt(filled, cleared, stage + [META_FILE]);
    assert store + [META_FILE] == MetaPath(prefix, job.name);
    assert stage + [META_FILE] in cleared;
  }

  lemma SwapConfines(filled: FS, cleared: FS, fs': FS, stage: Path, store: Path)
    requires SameUnder(filled, cleared, stage) && Swapped(cleared, fs', stage, store) && Confined(filled, stage)
    requires |stage| == |store|
    ensures Confined(fs', store)
  {
    forall p | p in fs' && store < p && fs'[p].Link? ensures LinkOk(fs'[p].text, |p| - 1 - |store|) {
      assert store + p[|store|..] == p;
      SwappedLink(filled, cleared, fs', stage, store, p[|store|..]);
    }
  }

  lemma SwappedLink(filled: FS, cleared: FS, fs': FS, stage: Path, store: Path, r: Path)
    requires SameUnder(filled, cleared, stage) && Swapped(cleared, fs', stage, store) && Confined(filled, stage)
    requires r != [] && store + r in fs' && fs'[store + r].Link? && |stage| == |store|
    ensures LinkOk(fs'[store + r].text, |r| - 1)
  {
    assert stage + r in cleared && fs'[store + r] == cleared[stage + r];
    assert SameAt(filled, cleared, stage + r) && stage < stage + r;
  }

  lemma FetchedDone(limit: nat, fs: FS, prefix: Path, job: Job, suffix: string)
    requires Inv(limit, fs, prefix) && JobReady(limit, fs, prefix, job, suffix) && job.fetch
    requires CommitFetched(limit, fs, prefix, job, suffix).ok
    ensures JobDone(limit, fs, CommitFetched(limit, fs, prefix, job, suffix).fs, prefix, job)
  {
    var n := job.name;
    var stage := StagePath(prefix, n, suffix);
    StagingDone(limit, fs, prefix, job, suffix);
    var filled := FillStage(limit, WithStage(fs, prefix, stage), stage, job).fs;
    PlacedDone(limit, fs, filled, prefix, job, suffix);
  }

  lemma PlacedDone(limit: nat, fs: FS, filled: FS, prefix: Path, job: Job, suffix: string)
    requires Inv(limit, fs, prefix) && JobReady(limit, fs, prefix, job, suffix) && StagePath(prefix, job.name, suffix) !in fs
    requires Ready(filled, prefix) && StagedFrom(fs, filled, prefix, StagePath(prefix, job.name, suffix))
    requires RealDir(filled, StagePath(prefix, job.name, suffix)) && Confined(filled, StagePath(prefix, job.name, suffix))
    requires StagePath(prefix, job.name, suffix) + [META_FILE] in filled
    requires filled[StagePath(prefix, job.name, suffix) + [META_FILE]] == MetaNode(JobMeta(job))
    requires PlaceStore(limit, filled, prefix, job.name, suffix, WasLinked(job), job.linked).ok
    ensures JobDone(limit, fs, PlaceStore(limit, filled, prefix, job.name, suffix, WasLinked(job), job.linked).fs, prefix, job)
  {
    var n := job.name;
    var stage := StagePath(prefix, n, suffix);
    assert Names(prefix);
    StageIsNamed(prefix, n, suffix);
    UnlinkRoot(limit, filled, prefix, n);
    var cleared := UnlinkStaged(limit, fs, filled, prefix, job, suffix);
    assert stage[|prefix|] == "store" && SameAt(filled, cleared, stage);
    SwapFinishes(limit, fs, filled, cleared, prefix, job, suffix);
    var swapped := Swap(cleared, stage, StorePath(prefix, n));
    RootRootable(swapped, prefix);
    if job.linked {
      LinkLast(limit, fs, swapped, prefix, job);
    } else {
      NothingToLink(limit, fs, swapped, prefix, job);
    }
  }

  lemma LinkLast(limit: nat, fs: FS, swapped: FS, prefix: Path, job: Job)
    requires SwappedIn(limit, fs, swapped, prefix, job) && Rootable(swapped, prefix) && IsName(job.name) && job.linked
    requires LinkPkgInto(limit, swapped, prefix, job.name, prefix).ok
    ensures JobDone(limit, fs, LinkPkgInto(limit, swapped, prefix, job.name, prefix).fs, prefix, job)
  {
    var n := job.name;
    var fs' := LinkPkgInto(limit, swapped, prefix, n, prefix).fs;
    LinkRoot(limit, swapped, prefix, n);
    LinkFinishes(limit, fs, swapped, prefix, job);
    RootOnlyKeepsStores(limit, swapped, fs', prefix, n);
    forall p | !InRoot(prefix, p) && !(StorePath(prefix, n) <= p) && p != prefix + ["store"] ensures SameAt(fs, fs', p) {
      assert SameAt(fs, swapped, p) && SameAt(swapped, fs', p);
    }
    forall p | RealDir(fs, p) && !(StorePath(prefix, n) <= p) ensures RealDir(fs', p) {
      assert RealDir(swapped, p);
    }
  }

  /** Committing a job, fetched or not, leaves it done and the invariant kept. */
  lemma CommitJobKeeps(limit: nat, fs: FS, prefix: Path, job: Job, suffix: string)
    requires Inv(limit, fs, prefix) && JobReady(limit, fs, prefix, job, suffix)
    requires CommitJob(limit, fs, prefix, job, suffix).ok
    ensures var fs' := CommitJob(limit, fs, prefix, job, suffix).fs;
      JobDone(limit, fs, fs', prefix, job) && Inv(limit, fs', prefix)
  {
    if job.fetch { FetchedDone(limit, fs, prefix, job, suffix); } else { RelinkDone(limit, fs, prefix, job, suffix); }
    JobKeepsInv(limit, fs, CommitJob(limit, fs, prefix, job, suffix).fs, prefix, job);
  }
}
