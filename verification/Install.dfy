/** Installing, relinking and removing packages in a prefix (cmd/binman/install.go). */
module Install {
  import opened Options
  import opened Lexical
  import opened FileTree
  import opened Extract
  import opened Collect
  import opened Aggregate
  import opened Prefix

  /** What the registry publishes for a package and architecture. */
  datatype Artifact = Artifact(digest: string, entries: seq<Entry>)

  type Registry = map<(string, string), Artifact>

  datatype Target = Target(name: string, arch: string, linked: bool)

  datatype Job = Job(name: string, arch: string, linked: bool, artifact: Artifact, current: Option<Meta>, fetch: bool)

  function JobMeta(job: Job): Meta {
    Meta(job.name, job.arch, job.artifact.digest, job.linked)
  }

  /** The staging directory MkdirTemp makes beside the stores. */
  function StagePath(prefix: Path, name: string, suffix: string): Path {
    StorePath(prefix, "." + name + ".stage-" + suffix)
  }

  // ----- archives the model speaks about -----

  function EntryTarget(dst: Path, e: Entry): Result<Path> {
    SafeArchivePath(dst, StripFirst(e.name))
  }

  /** No entry lies under a top-level "store" or "profile", and no hard link names a
      path at which the archive also puts a symbolic link. */
  ghost predicate Tame(dst: Path, es: seq<Entry>) {
    && (forall e :: e in es && EntryTarget(dst, e).Ok? ==>
          var t := EntryTarget(dst, e).value;
          t[|dst|] != "store" && t[|dst|] != "profile")
    && (forall e, l :: e in es && l in es && e.body.HardBody? && l.body.SymBody? && EntryTarget(dst, l).Ok? ==>
          SafeArchivePath(dst, StripFirst(e.body.link)) != EntryTarget(dst, l))
  }

  /** Every link below `dst` stands where the archive puts a symbolic link. */
  ghost predicate LinksFrom(fs: FS, dst: Path, es: seq<Entry>) {
    forall p :: p in fs && dst < p && fs[p].Link? ==>
      exists l :: l in es && l.body.SymBody? && EntryTarget(dst, l) == Ok(p)
  }

  lemma TameStep(limit: nat, fs: FS, dst: Path, all: seq<Entry>, e: Entry)
    requires WF(fs) && RealDir(fs, dst) && Tame(dst, all) && e in all
    requires LinksFrom(fs, dst, all) && NoReserved(fs, dst) && Confined(fs, dst)
    ensures var s := ExtractEntry(limit, fs, dst, e);
      LinksFrom(s.fs, dst, all) && NoReserved(s.fs, dst) && Confined(s.fs, dst)
  {
    var s := ExtractEntry(limit, fs, dst, e);
    ExtractEntryKeeps(limit, fs, dst, e);
    assert PlainSource(fs, dst, e);
    if s.fs != fs {
      var target := EntryTarget(dst, e).value;
      ParentsOkIsRealAbove(fs, dst, target);
      WalkIsNames(dst, StripFirst(e.name));
      ExtractBodyKeeps(limit, fs, dst, target, e.body);
      LinksStep(limit, fs, dst, target, all, e);
      forall x | x == "store" || x == "profile" ensures dst + [x] !in s.fs {
        assert (dst + [x])[|dst|] == x;
      }
    }
  }

  lemma LinksStep(limit: nat, fs: FS, dst: Path, target: Path, all: seq<Entry>, e: Entry)
    requires WF(fs) && RealDir(fs, dst) && dst < target && RealAbove(fs, target) && Names(target)
    requires e in all && EntryTarget(dst, e) == Ok(target) && PlainSource(fs, dst, e) && LinksFrom(fs, dst, all)
    ensures LinksFrom(ExtractBody(limit, fs, dst, target, e.body).fs, dst, all)
  {
    var s := ExtractBody(limit, fs, dst, target, e.body);
    ExtractBodyKeeps(limit, fs, dst, target, e.body);
    if e.body.HardBody? && SafeArchivePath(dst, StripFirst(e.body.link)).Ok? {
      var source := SafeArchivePath(dst, StripFirst(e.body.link)).value;
      ParentsOkIsRealAbove(fs, dst, source);
      if RealAbove(fs, source) { HardLinkKeeps(fs, dst, source, target); }
    }
    if e.body.DirBody? && s.fs != fs { MkDirsEffect(fs, target); }
    forall p | p in s.fs && dst < p && s.fs[p].Link?
      ensures exists l :: l in all && l.body.SymBody? && EntryTarget(dst, l) == Ok(p)
    {
      if p == target && !SameAt(fs, s.fs, p) {
        assert e.body.SymBody?;
      } else {
        assert SameAt(fs, s.fs, p);
      }
    }
  }

  lemma {:induction false} TameExtract(limit: nat, fs: FS, dst: Path, all: seq<Entry>, es: seq<Entry>)
    requires WF(fs) && RealDir(fs, dst) && Tame(dst, all) && forall e :: e in es ==> e in all
    requires LinksFrom(fs, dst, all) && NoReserved(fs, dst) && Confined(fs, dst)
    ensures var s := ExtractAll(limit, fs, dst, es);
      && WF(s.fs) && RealDir(s.fs, dst) && SameOutside(fs, s.fs, dst)
      && NoReserved(s.fs, dst) && Confined(s.fs, dst)
    decreases |es|
  {
    ExtractAllKeeps(limit, fs, dst, es);
    if es != [] {
      TameStep(limit, fs, dst, all, es[0]);
      ExtractEntryKeeps(limit, fs, dst, es[0]);
      var s := ExtractEntry(limit, fs, dst, es[0]);
      if s.ok {
        TameExtract(limit, s.fs, dst, all, es[1..]);
      }
    }
  }

  // ----- installing a fetched package -----

  lemma StageIsNamed(prefix: Path, name: string, suffix: string)
    requires Names(prefix) && ValidName(name)
    ensures IsName(name) && Names(StagePath(prefix, name, suffix)) && Names(StorePath(prefix, name))
    ensures StagePath(prefix, name, suffix) != StorePath(prefix, name)
  {
    var x := "." + name + ".stage-" + suffix;
    assert x[0] == '.' && |x| > 2;
    assert StagePath(prefix, name, suffix)[|prefix| + 1] == x;
    assert StorePath(prefix, name)[|prefix| + 1] == name;
  }

  /** The prefix once its store directory exists and the staging directory is made. */
  function WithStage(fs: FS, prefix: Path, stage: Path): FS {
    MkDirs(fs, prefix + ["store"])[stage := Dir]
  }

  lemma WithStageEffect(fs: FS, prefix: Path, name: string, suffix: string)
    requires Ready(fs, prefix) && ValidName(name) && StagePath(prefix, name, suffix) !in fs
    ensures var stage := StagePath(prefix, name, suffix);
      var fs' := WithStage(fs, prefix, stage);
      && Ready(fs', prefix) && RealDir(fs', stage) && Childless(fs', stage)
      && RealDir(fs', prefix + ["store"])
      && (forall p :: p != stage && p != prefix + ["store"] ==> SameAt(fs, fs', p))
  {
    var stage := StagePath(prefix, name, suffix);
    var parent := prefix + ["store"];
    var made := MkDirs(fs, parent);
    var fs' := WithStage(fs, prefix, stage);
    StageIsNamed(prefix, name, suffix);
    StoreAbove(fs, prefix, name);
    assert Parent(stage) == parent && Parent(parent) == prefix;
    assert Names(parent) by { assert parent == Parent(stage); }
    MkDirsEffect(fs, parent);
    forall p | p != parent ensures SameAt(fs, made, p) {
      if p <= parent { PrefixStep(p, parent); if p != prefix { AncestorOf(fs, p, prefix); } }
    }
    FileIsChildless(made, stage);
    PutLeafWF(made, stage, Dir);
    forall p | p != stage && p != parent ensures SameAt(fs, fs', p) { assert SameAt(fs, made, p); }
    assert stage < stage + ["store"] && stage < stage + ["profile"];
    ReadyExceptStore(fs, fs', prefix, "." + name + ".stage-" + suffix);
  }

  /** One store may change as it likes, as long as it stays a package directory. */
  lemma ReadyExceptStore(fs: FS, fs': FS, prefix: Path, x: string)
    requires Ready(fs, prefix) && WF(fs') && RealDir(fs', StorePath(prefix, x)) && NoReserved(fs', StorePath(prefix, x))
    requires forall p :: !(StorePath(prefix, x) <= p) && p != prefix + ["store"] ==> SameAt(fs, fs', p)
    ensures Ready(fs', prefix)
  {
    assert (prefix + ["profile"])[|prefix|] != (prefix + ["store"])[|prefix|];
    assert |StorePath(prefix, x)| == |prefix| + 2;
    assert SameAt(fs, fs', prefix) && SameAt(fs, fs', prefix + ["profile"]);
    AncestorOf(fs', prefix + ["store"], StorePath(prefix, x));
    forall n ensures StorePath(prefix, n) in fs' ==> !fs'[StorePath(prefix, n)].Link?
      ensures NoReserved(fs', StorePath(prefix, n))
    {
      var d := StorePath(prefix, n);
      assert d[|prefix| + 1] == n && StorePath(prefix, x)[|prefix| + 1] == x;
      if n != x {
        assert NoReserved(fs, d);
        assert SameAt(fs, fs', d) && SameAt(fs, fs', d + ["store"]) && SameAt(fs, fs', d + ["profile"]);
      }
    }
  }

  /** Unpack into the staging directory and write the metadata there. */
  function FillStage(limit: nat, fs: FS, stage: Path, job: Job): Step
    requires WF(fs) && RealDir(fs, stage)
  {
    var s := ExtractAll(limit, fs, stage, job.artifact.entries);
    ExtractAllKeeps(limit, fs, stage, job.artifact.entries);
    if !s.ok then s
    else
      DirAbove(s.fs, stage);
      WriteMeta(limit, s.fs, stage, JobMeta(job))
  }

  lemma DirAbove(fs: FS, d: Path)
    requires WF(fs) && RealDir(fs, d)
    ensures RealAbove(fs, d)
  {
    forall q | q < d && q in fs ensures fs[q].Dir? { AncestorOf(fs, q, d); }
  }

  lemma PutMetaWF(fs: FS, d: Path, m: Meta)
    requires WF(fs) && RealDir(fs, d) && !RealDir(fs, d + [META_FILE])
    ensures WF(fs[d + [META_FILE] := MetaNode(m)])
  {
    assert Parent(d + [META_FILE]) == d;
    FileIsChildless(fs, d + [META_FILE]);
    PutLeafWF(fs, d + [META_FILE], MetaNode(m));
  }

  lemma FillStageEffect(limit: nat, fs: FS, stage: Path, job: Job)
    requires WF(fs) && RealDir(fs, stage) && Childless(fs, stage) && Tame(stage, job.artifact.entries)
    ensures var s := FillStage(limit, fs, stage, job);
      && WF(s.fs) && RealDir(s.fs, stage) && SameOutside(fs, s.fs, stage) && NoReserved(s.fs, stage)
      && (s.ok ==>
            && Confined(s.fs, stage)
            && stage + [META_FILE] in s.fs && s.fs[stage + [META_FILE]] == MetaNode(JobMeta(job)))
  {
    var es := job.artifact.entries;
    var t := ExtractAll(limit, fs, stage, es);
    assert stage < stage + ["store"] && stage < stage + ["profile"];
    TameExtract(limit, fs, stage, es, es);
    if t.ok {
      var p := stage + [META_FILE];
      DirAbove(t.fs, stage);
      var s := FillStage(limit, fs, stage, job);
      assert (stage + ["store"])[|stage|] == "store" && (stage + ["profile"])[|stage|] == "profile" && p[|stage|] == META_FILE;
      if s.ok {
        PutMetaWF(t.fs, stage, JobMeta(job));
        assert stage < p;
        forall q | !(stage < q) ensures SameAt(fs, s.fs, q) { assert SameAt(fs, t.fs, q); }
      }
    }
  }

  /** The staged tree takes the place of the old store. */
  function Swap(fs: FS, stage: Path, store: Path): FS {
    Rename(RemoveTree(fs, store), stage, store)
  }

  /** placeStore: unlink the old store's files, swap the stores, link the new one's. */
  function PlaceStore(limit: nat, fs: FS, prefix: Path, name: string, suffix: string, wasLinked: bool, linked: bool): Step
    requires Ready(fs, prefix) && ValidName(name)
    requires RealDir(fs, StagePath(prefix, name, suffix))
  {
    var store := StorePath(prefix, name);
    var stage := StagePath(prefix, name, suffix);
    StageIsNamed(prefix, name, suffix);
    UnlinkRoot(limit, fs, prefix, name);
    var s := if wasLinked then UnlinkPkgFrom(limit, fs, prefix, name, prefix) else Step(fs, true);
    if !s.ok then s
    else
      assert SameAt(fs, s.fs, stage);
      SwapEffect(s.fs, prefix, name, suffix);
      RootRootable(Swap(s.fs, stage, store), prefix);
      var swapped := Swap(s.fs, stage, store);
      if linked then LinkPkgInto(limit, swapped, prefix, name, prefix) else Step(swapped, true)
  }

  lemma SwapAt(fs: FS, stage: Path, store: Path, p: Path)
    requires !(stage <= store) && !(store <= stage)
    ensures var fs' := Swap(fs, stage, store);
      && (store <= p ==> (p in fs' <==> stage + p[|store|..] in fs) && (p in fs' ==> fs'[p] == fs[stage + p[|store|..]]))
      && (stage <= p ==> p !in fs')
      && (!(store <= p) && !(stage <= p) ==> SameAt(fs, fs', p))
  {
    var cleared := RemoveTree(fs, store);
    if store <= p {
      var r := p[|store|..];
      assert store + r == p;
      MovedAt(cleared, stage, store, r);
      assert !(store <= stage + r) by { Diverge(store, stage, r); }
    } else {
      assert p !in Moved(cleared, stage, store);
    }
  }

  lemma Diverge(a: Path, b: Path, r: Path)
    requires !(a <= b) && !(b <= a)
    ensures !(a <= b + r)
  {}

  lemma Apart(prefix: Path, name: string, suffix: string)
    requires ValidName(name)
    ensures var stage := StagePath(prefix, name, suffix);
      var store := StorePath(prefix, name);
      !(stage <= store) && !(store <= stage) && Parent(stage) == Parent(store) == prefix + ["store"]
  {
    var stage := StagePath(prefix, name, suffix);
    var store := StorePath(prefix, name);
    assert stage[|prefix| + 1] != store[|prefix| + 1] by {
      assert stage[|prefix| + 1][0] == '.';
    }
  }

  ghost predicate Swapped(fs: FS, fs': FS, stage: Path, store: Path) {
    && (forall p :: !(store <= p) && !(stage <= p) ==> SameAt(fs, fs', p))
    && (forall p :: stage <= p ==> p !in fs')
    && (forall r :: store + r in fs' <==> stage + r in fs)
    && (forall r :: store + r in fs' ==> fs'[store + r] == fs[stage + r])
  }

  lemma SwapIsSwapped(fs: FS, stage: Path, store: Path)
    requires !(stage <= store) && !(store <= stage)
    ensures Swapped(fs, Swap(fs, stage, store), stage, store)
  {
    var fs' := Swap(fs, stage, store);
    forall p ensures !(store <= p) && !(stage <= p) ==> SameAt(fs, fs', p)
      ensures stage <= p ==> p !in fs'
    {
      SwapAt(fs, stage, store, p);
    }
    forall r ensures store + r in fs' <==> stage + r in fs
      ensures store + r in fs' ==> fs'[store + r] == fs[stage + r]
    {
      SwapAt(fs, stage, store, store + r);
      assert (store + r)[|store|..] == r;
    }
  }

  lemma SwappedWF(fs: FS, fs': FS, stage: Path, store: Path)
    requires WF(fs) && RealDir(fs, stage) && Names(store) && stage != [] && store != []
    requires !(stage <= store) && !(store <= stage) && Parent(stage) == Parent(store)
    requires Swapped(fs, fs', stage, store)
    ensures WF(fs') && RealDir(fs', store)
  {
    assert store + [] == store && stage + [] == stage;
    forall p | p in fs' ensures Names(p) {
      if store <= p { assert store + p[|store|..] == p; SwappedNames(fs, fs', stage, store, p[|store|..]); }
      else { assert SameAt(fs, fs', p); }
    }
    forall p | p in fs' && p != [] ensures RealDir(fs', Parent(p)) {
      if store < p {
        assert store + p[|store|..] == p;
        SwappedParentBelow(fs, fs', stage, store, p[|store|..]);
      } else if p == store {
        assert |Parent(stage)| < |stage| && |Parent(stage)| < |store|;
        assert SameAt(fs, fs', Parent(stage));
      } else {
        assert Parent(p) < p;
        assert SameAt(fs, fs', p) && SameAt(fs, fs', Parent(p));
      }
    }
    assert SameAt(fs, fs', []);
  }

  lemma SwappedNames(fs: FS, fs': FS, stage: Path, store: Path, r: Path)
    requires WF(fs) && Names(store) && Swapped(fs, fs', stage, store) && store + r in fs'
    ensures Names(store + r)
  {
    assert Names(stage + r);
    assert forall i :: 0 <= i < |r| ==> r[i] == (stage + r)[|stage| + i];
  }

  lemma SwappedParentBelow(fs: FS, fs': FS, stage: Path, store: Path, r: Path)
    requires WF(fs) && Swapped(fs, fs', stage, store) && r != [] && store + r in fs'
    ensures RealDir(fs', Parent(store + r))
  {
    assert Parent(store + r) == store + Parent(r) && Parent(stage + r) == stage + Parent(r);
    assert stage + r in fs;
  }

  lemma SwapEffect(fs: FS, prefix: Path, name: string, suffix: string)
    requires Ready(fs, prefix) && ValidName(name) && RealDir(fs, StagePath(prefix, name, suffix))
    ensures var stage := StagePath(prefix, name, suffix);
      var store := StorePath(prefix, name);
      var fs' := Swap(fs, stage, store);
      && Ready(fs', prefix) && RealDir(fs', store)
      && Swapped(fs, fs', stage, store)
  {
    var stage := StagePath(prefix, name, suffix);
    var store := StorePath(prefix, name);
    var fs' := Swap(fs, stage, store);
    Apart(prefix, name, suffix);
    StageIsNamed(prefix, name, suffix);
    SwapIsSwapped(fs, stage, store);
    SwappedWF(fs, fs', stage, store);
    SwappedReady(fs, fs', prefix, name, suffix);
  }

  lemma SwappedReady(fs: FS, fs': FS, prefix: Path, name: string, suffix: string)
    requires Ready(fs, prefix) && WF(fs') && ValidName(name)
    requires RealDir(fs', StorePath(prefix, name)) && RealDir(fs, StagePath(prefix, name, suffix))
    requires Swapped(fs, fs', StagePath(prefix, name, suffix), StorePath(prefix, name))
    ensures Ready(fs', prefix)
  {
    var x := "." + name + ".stage-" + suffix;
    assert SameAt(fs, fs', prefix) && SameAt(fs, fs', prefix + ["store"]) && SameAt(fs, fs', prefix + ["profile"]);
    forall n ensures StorePath(prefix, n) in fs' ==> !fs'[StorePath(prefix, n)].Link?
      ensures NoReserved(fs', StorePath(prefix, n))
    {
      var d := StorePath(prefix, n);
      assert d[|prefix| + 1] == n && StorePath(prefix, x)[|prefix| + 1] == x && StorePath(prefix, name)[|prefix| + 1] == name;
      assert NoReserved(fs, StorePath(prefix, x)) && NoReserved(fs, d);
      if n != name && n != x {
        assert SameAt(fs, fs', d) && SameAt(fs, fs', d + ["store"]) && SameAt(fs, fs', d + ["profile"]);
      }
    }
  }

  // ----- the commit step of one job -----

  function WasLinked(job: Job): bool {
    job.current.Some? && job.current.value.linked
  }

  ghost predicate Installable(prefix: Path, job: Job, suffix: string) {
    ValidName(job.name) && (job.fetch ==> Tame(StagePath(prefix, job.name, suffix), job.artifact.entries))
  }

  /** Stage, unpack, write metadata, swap; the staging directory goes if anything fails. */
  function CommitFetched(limit: nat, fs: FS, prefix: Path, job: Job, suffix: string): Step
    requires Ready(fs, prefix) && job.fetch && Installable(prefix, job, suffix)
  {
    var stage := StagePath(prefix, job.name, suffix);
    if stage in fs then Step(fs, false)
    else
      WithStageEffect(fs, prefix, job.name, suffix);
      var staged := WithStage(fs, prefix, stage);
      var filled := FillStage(limit, staged, stage, job);
      FilledReady(limit, staged, prefix, job, suffix);
      if !filled.ok then Step(RemoveTree(filled.fs, stage), false)
      else
        var placed := PlaceStore(limit, filled.fs, prefix, job.name, suffix, WasLinked(job), job.linked);
        if placed.ok then placed else Step(RemoveTree(placed.fs, stage), false)
  }

  lemma FilledReady(limit: nat, fs: FS, prefix: Path, job: Job, suffix: string)
    requires Ready(fs, prefix) && ValidName(job.name)
    requires Tame(StagePath(prefix, job.name, suffix), job.artifact.entries)
    requires RealDir(fs, StagePath(prefix, job.name, suffix)) && Childless(fs, StagePath(prefix, job.name, suffix))
    ensures Ready(FillStage(limit, fs, StagePath(prefix, job.name, suffix), job).fs, prefix)
    ensures RealDir(FillStage(limit, fs, StagePath(prefix, job.name, suffix), job).fs, StagePath(prefix, job.name, suffix))
  {
    var stage := StagePath(prefix, job.name, suffix);
    FillStageEffect(limit, fs, stage, job);
    var fs' := FillStage(limit, fs, stage, job).fs;
    forall p | !(stage <= p) ensures SameAt(fs, fs', p) {}
    ReadyExceptStore(fs, fs', prefix, "." + job.name + ".stage-" + suffix);
  }

  /** An up-to-date package: adjust its links and, if they changed, its metadata. */
  function CommitRelink(limit: nat, fs: FS, prefix: Path, job: Job): Step
    requires Ready(fs, prefix) && ValidName(job.name) && job.current.Some?
  {
    UnlinkRoot(limit, fs, prefix, job.name);
    var s1 := if job.current.value.linked && !job.linked then UnlinkPkgFrom(limit, fs, prefix, job.name, prefix)
              else Step(fs, true);
    RootRootable(s1.fs, prefix);
    LinkRoot(limit, s1.fs, prefix, job.name);
    var s2 := if s1.ok && job.linked then LinkPkgInto(limit, s1.fs, prefix, job.name, prefix) else s1;
    if s2.ok && (job.current.value.arch != job.arch || job.current.value.linked != job.linked) then
      StoreAbove(s2.fs, prefix, job.name);
      WriteMeta(limit, s2.fs, StorePath(prefix, job.name), JobMeta(job))
    else s2
  }

  function CommitJob(limit: nat, fs: FS, prefix: Path, job: Job, suffix: string): Step
    requires Ready(fs, prefix) && Installable(prefix, job, suffix) && (!job.fetch ==> job.current.Some?)
  {
    if job.fetch then CommitFetched(limit, fs, prefix, job, suffix) else CommitRelink(limit, fs, prefix, job)
  }
}
