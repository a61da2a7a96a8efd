/** Packages without links, and archives of a single file: what they unpack to and offer
    (cmd/binman/store.go, cmd/artifact/archive.go). */
module OneFile {
  import opened Lexical
  import opened FileTree
  import opened Extract
  import opened Collect
  import opened Prefix
  import opened Install
  import opened Succeeds

  // ----- packages without links -----

  ghost predicate LinkFree(fs: FS, store: Path) {
    forall p :: p in fs && store < p ==> !fs[p].Link?
  }

  ghost predicate AllFiles(fs: FS, store: Path, files: seq<Path>) {
    forall i :: 0 <= i < |files| ==> store + files[i] in fs && fs[store + files[i]].File?
  }

  lemma {:induction false} FreeDir(limit: nat, fs: FS, store: Path, rel: Path, active: set<Path>)
    requires WF(fs) && LinkFree(fs, store) && RealDir(fs, store + rel) && forall d :: d in active ==> d < store + rel
    ensures var r := WalkDir(limit, fs, store, store, rel, active); r.Ok? && AllFiles(fs, store, r.value)
    decreases |Dirs(fs) - active|, 0
  {
    var dir := store + rel;
    FreeMayOpen(limit, fs, store, rel, active);
    FreeEntries(limit, fs, store, rel, active + {dir}, ReadDir(fs, dir));
  }

  /** A directory below the open ones can be opened. */
  lemma FreeMayOpen(limit: nat, fs: FS, store: Path, rel: Path, active: set<Path>)
    requires WF(fs) && RealDir(fs, store + rel) && forall d :: d in active ==> d < store + rel
    ensures Eval(limit, fs, store + rel) == At(store + rel) && MayOpen(fs, store, store + rel, active)
    ensures |Dirs(fs) - (active + {store + rel})| < |Dirs(fs) - active|
  {
    EvalPhysical(limit, fs, store + rel);
    ActiveGrows(fs, active, store + rel);
  }

  lemma {:induction false} FreeEntries(limit: nat, fs: FS, store: Path, rel: Path, active: set<Path>, ns: seq<string>)
    requires WF(fs) && LinkFree(fs, store) && RealDir(fs, store + rel) && forall d :: d in active ==> d <= store + rel
    requires forall i :: 0 <= i < |ns| ==> store + rel + [ns[i]] in fs
    ensures var r := WalkEntries(limit, fs, store, store, rel, store + rel, active, ns); r.Ok? && AllFiles(fs, store, r.value)
    decreases |Dirs(fs) - active|, 1 + |ns|
  {
    if ns != [] {
      var child := rel + [ns[0]];
      assert store + rel + [ns[0]] == store + child && store < store + child;
      if child != [META_FILE] && fs[store + child].Dir? { FreeDir(limit, fs, store, child, active); }
      FreeEntries(limit, fs, store, rel, active, ns[1..]);
    }
  }

  /** A package without links can always be collected, and offers files only. */
  lemma LinkFreeCollects(limit: nat, fs: FS, store: Path)
    requires WF(fs) && RealDir(fs, store) && LinkFree(fs, store)
    ensures CollectFiles(limit, fs, store).Ok? && AllFiles(fs, store, CollectFiles(limit, fs, store).value)
  {
    EvalPhysical(limit, fs, store);
    assert store + [] == store;
    FreeDir(limit, fs, store, [], {});
  }

  // ----- archives of one file -----

  /** The header and body of one file, packed under a top directory. */
  function FileEntry(top: string, rel: Path, content: Content): Entry {
    Entry([top] + rel, RegBody(content, 0x1A4))
  }

  predicate PlainRel(rel: Path) {
    rel != [] && Names(rel) && rel[0] != META_FILE && rel[0] != "store" && rel[0] != "profile"
  }

  lemma OneFileTarget(stage: Path, top: string, rel: Path, content: Content)
    requires IsName(top) && PlainRel(rel)
    ensures StripFirst(FileEntry(top, rel, content).name) == rel && rel != [""]
    ensures SafeArchivePath(stage, rel) == Ok(stage + rel)
    ensures Tame(stage, [FileEntry(top, rel, content)])
  {
    var name := [top] + rel;
    assert name[1..] == rel;
    WalkNames(stage, rel);
    assert (stage + rel)[|stage|] == rel[0];
  }

  /** Nothing is in the way below an empty directory. */
  lemma FreshTarget(fs: FS, stage: Path, target: Path)
    requires WF(fs) && RealDir(fs, stage) && Childless(fs, stage) && stage < target
    ensures target !in fs && RealAbove(fs, target) && Childless(fs, target)
  {
    forall q | q < target && q in fs ensures fs[q].Dir? {
      if !(stage < q) {
        assert q == target[..|q|] && stage == target[..|stage|];
        if q != stage { AncestorOf(fs, q, stage); }
      }
    }
    FileIsChildless(fs, target);
  }

  /** Unpacking makes the file and the directories above it. */
  lemma OneFileUnpacks(limit: nat, fs: FS, stage: Path, top: string, rel: Path, content: Content)
    requires WF(fs) && RealDir(fs, stage) && Childless(fs, stage) && Names(stage) && IsName(top) && PlainRel(rel)
    ensures ExtractAll(limit, fs, stage, [FileEntry(top, rel, content)]) ==
      Step(Put(fs, stage + rel, File(content, 0x1A4)), true)
  {
    var e := FileEntry(top, rel, content);
    var target := stage + rel;
    OneFileTarget(stage, top, rel, content);
    assert stage < target;
    FreshTarget(fs, stage, target);
    ParentsOkIsRealAbove(fs, stage, target);
    assert 0x1A4 as bv16 & 0x1FF == 0x1A4;
    assert ExtractEntry(limit, fs, stage, e) == Step(Put(fs, target, File(content, 0x1A4)), true);
    ExtractEntryKeeps(limit, fs, stage, e);
    assert [e][1..] == [];
  }

  /** Below the directory there are the file and the directories above it. */
  ghost predicate HoldsOne(fs: FS, stage: Path, rel: Path) {
    && WF(fs) && RealDir(fs, stage)
    && (forall q :: stage < q && q in fs ==> q <= stage + rel)
    && stage + rel in fs && fs[stage + rel].File?
    && (forall q :: q < stage + rel ==> RealDir(fs, q))
  }

  lemma OneFileTree(fs: FS, stage: Path, rel: Path, node: Node)
    requires WF(fs) && RealDir(fs, stage) && Childless(fs, stage) && Names(stage) && PlainRel(rel) && node.File?
    ensures HoldsOne(Put(fs, stage + rel, node), stage, rel)
  {
    var target := stage + rel;
    assert stage < target && Names(target);
    FreshTarget(fs, stage, target);
    PutEffect(fs, target, node);
  }

  /** And the same with the metadata record beside it. */
  ghost predicate HoldsOneAndRecord(fs: FS, stage: Path, rel: Path) {
    && WF(fs) && RealDir(fs, stage)
    && (forall q :: stage < q && q in fs ==> q <= stage + rel || q == stage + [META_FILE])
    && stage + rel in fs && fs[stage + rel].File?
    && (forall q :: q < stage + rel ==> RealDir(fs, q))
    && stage + [META_FILE] in fs && fs[stage + [META_FILE]].File?
  }

  lemma RecordBeside(stage: Path, rel: Path)
    requires PlainRel(rel)
    ensures stage < stage + [META_FILE] && !(stage + [META_FILE] <= stage + rel)
  {
    assert (stage + [META_FILE])[|stage|] == META_FILE && (stage + rel)[|stage|] == rel[0];
  }

  lemma OneFileRecorded(t: FS, stage: Path, rel: Path, m: Meta)
    requires HoldsOne(t, stage, rel) && PlainRel(rel)
    ensures stage + [META_FILE] !in t
    ensures HoldsOneAndRecord(t[stage + [META_FILE] := MetaNode(m)], stage, rel)
  {
    var p := stage + [META_FILE];
    var t' := t[p := MetaNode(m)];
    RecordBeside(stage, rel);
    PutMetaWF(t, stage, m);
    assert p != stage && p != stage + rel;
    forall q | q < stage + rel ensures RealDir(t', q) { assert q != p && RealDir(t, q); }
  }

  /** The filled staging directory holds the file, the record, and directories. */
  lemma OneFileFills(limit: nat, stage: Path, job: Job, top: string, rel: Path, content: Content)
    requires Names(stage) && IsName(top) && PlainRel(rel) && job.artifact.entries == [FileEntry(top, rel, content)]
    ensures var s := Filled(limit, stage, job); s.ok && HoldsOneAndRecord(s.fs, stage, rel)
  {
    var blank := Blank(stage);
    BlankIsEmpty(stage);
    OneFileUnpacks(limit, blank, stage, top, rel, content);
    OneFileTree(blank, stage, rel, File(content, 0x1A4));
    var t := Put(blank, stage + rel, File(content, 0x1A4));
    OneFileRecorded(t, stage, rel, JobMeta(job));
    DirAbove(t, stage);
    assert Filled(limit, stage, job) == Step(t[stage + [META_FILE] := MetaNode(JobMeta(job))], true);
  }

  /** It offers that file and nothing else. */
  lemma OneFileOffers(limit: nat, fs: FS, prefix: Path, job: Job, suffix: string, top: string, rel: Path, content: Content, q: Path)
    requires Names(prefix) && ValidName(job.name) && job.fetch && IsName(top) && PlainRel(rel)
    requires job.artifact.entries == [FileEntry(top, rel, content)] && StagePath(prefix, job.name, suffix) !in fs
    ensures Fetchable(limit, fs, prefix, job, suffix)
    ensures var r := Offered(limit, fs, prefix, job, suffix); r.Ok? && (q in r.value <==> q == rel)
  {
    var stage := StagePath(prefix, job.name, suffix);
    StageIsNamed(prefix, job.name, suffix);
    OneFileFills(limit, stage, job, top, rel, content);
    var alone := Filled(limit, stage, job).fs;
    FilledIsLinkFree(alone, stage, rel);
    LinkFreeCollects(limit, alone, stage);
    OneFileCollected(limit, alone, stage, rel, q);
  }

  lemma FilledIsLinkFree(fs: FS, stage: Path, rel: Path)
    requires forall p :: stage < p && p in fs ==> p <= stage + rel || p == stage + [META_FILE]
    requires forall p :: p < stage + rel ==> RealDir(fs, p)
    requires stage + rel in fs && fs[stage + rel].File? && stage + [META_FILE] in fs && fs[stage + [META_FILE]].File?
    ensures LinkFree(fs, stage)
  {
    forall p | p in fs && stage < p ensures !fs[p].Link? {
      if p != stage + [META_FILE] && p != stage + rel {
        assert p < stage + rel && RealDir(fs, p);
      }
    }
  }

  lemma OneFileCollected(limit: nat, fs: FS, stage: Path, rel: Path, q: Path)
    requires WF(fs) && RealDir(fs, stage) && PlainRel(rel) && stage + rel in fs && fs[stage + rel].File?
    requires forall p :: stage < p && p in fs ==> p <= stage + rel || p == stage + [META_FILE]
    requires forall p :: p < stage + rel ==> RealDir(fs, p)
    requires CollectFiles(limit, fs, stage).Ok? && AllFiles(fs, stage, CollectFiles(limit, fs, stage).value)
    ensures q in CollectFiles(limit, fs, stage).value <==> q == rel
  {
    var files := CollectFiles(limit, fs, stage).value;
    EvalPhysical(limit, fs, stage + rel);
    CollectIsComplete(limit, fs, stage, rel);
    CollectedAreLinkable(limit, fs, stage);
    if q in files {
      var i :| 0 <= i < |files| && files[i] == q;
      assert q != [] && q != [META_FILE] && stage < stage + q;
      assert (stage + q)[|stage|..] == q && (stage + rel)[|stage|..] == rel && (stage + [META_FILE])[|stage|..] == [META_FILE];
    }
  }
}
