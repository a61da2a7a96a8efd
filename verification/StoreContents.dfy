/** What a store holds after each step that touches it (cmd/binman/install.go). */
module StoreContents {
  import opened Lexical
  import opened FileTree
  import Extract
  import opened Archive
  import opened Collect
  import opened Aggregate
  import opened Prefix
  import opened Install
  import opened Lifecycle
  import Plan

  /** Apart from the metadata record, `a` in fs and `b` in fs' hold the same tree. */
  ghost predicate SameTree(fs: FS, a: Path, fs': FS, b: Path) {
    forall r: Path :: r != [META_FILE] ==>
      (b + r in fs' <==> a + r in fs) && (b + r in fs' ==> fs'[b + r] == fs[a + r])
  }

  /** The staging directory just before the archive is unpacked into it, and after. */
  function Unpack(limit: nat, fs: FS, prefix: Path, job: Job, suffix: string): Step
    requires Ready(fs, prefix) && ValidName(job.name) && StagePath(prefix, job.name, suffix) !in fs
  {
    var stage := StagePath(prefix, job.name, suffix);
    WithStageEffect(fs, prefix, job.name, suffix);
    Extract.ExtractAll(limit, WithStage(fs, prefix, stage), stage, job.artifact.entries)
  }

  lemma FilledHolds(limit: nat, fs: FS, prefix: Path, job: Job, suffix: string)
    requires Ready(fs, prefix) && Installable(prefix, job, suffix) && job.fetch
    requires StagePath(prefix, job.name, suffix) !in fs
    ensures WF(WithStage(fs, prefix, StagePath(prefix, job.name, suffix)))
    ensures RealDir(WithStage(fs, prefix, StagePath(prefix, job.name, suffix)), StagePath(prefix, job.name, suffix))
    ensures var stage := StagePath(prefix, job.name, suffix);
      var filled := FillStage(limit, WithStage(fs, prefix, stage), stage, job);
      var unpacked := Unpack(limit, fs, prefix, job, suffix);
      filled.ok ==> unpacked.ok && filled.fs == unpacked.fs[stage + [META_FILE] := MetaNode(JobMeta(job))]
  {
    var stage := StagePath(prefix, job.name, suffix);
    WithStageEffect(fs, prefix, job.name, suffix);
    Extract.ExtractAllKeeps(limit, WithStage(fs, prefix, stage), stage, job.artifact.entries);
  }

  lemma SwapHolds(x: FS, filled: FS, cleared: FS, fs': FS, prefix: Path, name: string, stage: Path, m: Meta)
    requires |prefix| < |stage| && stage[|prefix|] == "store" && filled == x[stage + [META_FILE] := MetaNode(m)]
    requires RootOnly(filled, cleared, prefix) && Swapped(cleared, fs', stage, StorePath(prefix, name))
    ensures SameTree(x, stage, fs', StorePath(prefix, name))
  {
    var store := StorePath(prefix, name);
    forall r: Path | r != [META_FILE]
      ensures store + r in fs' <==> stage + r in x
      ensures store + r in fs' ==> fs'[store + r] == x[stage + r]
    {
      assert (stage + r)[|stage|..] == r;
      assert (stage + r)[|prefix|] == "store";
      assert SameAt(filled, cleared, stage + r);
    }
  }

  lemma LinkedHolds(x: FS, stage: Path, mid: FS, fs': FS, prefix: Path, name: string)
    requires SameTree(x, stage, mid, StorePath(prefix, name)) && RootOnly(mid, fs', prefix)
    ensures SameTree(x, stage, fs', StorePath(prefix, name))
  {
    RootOnlySameStore(mid, fs', prefix, name);
    var store := StorePath(prefix, name);
    forall r: Path | r != [META_FILE]
      ensures store + r in fs' <==> stage + r in x
      ensures store + r in fs' ==> fs'[store + r] == x[stage + r]
    {
      assert SameAt(mid, fs', store + r);
    }
  }

  /** The unlinking before the swap leaves the staging directory alone. */
  lemma ClearedStage(limit: nat, filled: FS, prefix: Path, job: Job, suffix: string) returns (cleared: FS)
    requires Ready(filled, prefix) && ValidName(job.name) && RealDir(filled, StagePath(prefix, job.name, suffix))
    ensures cleared == if WasLinked(job) then UnlinkPkgFrom(limit, filled, prefix, job.name, prefix).fs else filled
    ensures RootOnly(filled, cleared, prefix) && Ready(cleared, prefix)
    ensures RealDir(cleared, StagePath(prefix, job.name, suffix))
  {
    var stage := StagePath(prefix, job.name, suffix);
    assert Names(prefix);
    StageIsNamed(prefix, job.name, suffix);
    UnlinkRoot(limit, filled, prefix, job.name);
    cleared := if WasLinked(job) then UnlinkPkgFrom(limit, filled, prefix, job.name, prefix).fs else filled;
    assert stage[|prefix|] == "store" && SameAt(filled, cleared, stage);
  }

  /** The linking after the swap leaves the store alone. */
  lemma LinkedLast(limit: nat, x: FS, stage: Path, swapped: FS, prefix: Path, name: string)
    requires Ready(swapped, prefix) && ValidName(name) && SameTree(x, stage, swapped, StorePath(prefix, name))
    requires Rootable(swapped, prefix)
    ensures SameTree(x, stage, LinkPkgInto(limit, swapped, prefix, name, prefix).fs, StorePath(prefix, name))
  {
    assert Names(prefix);
    StageIsNamed(prefix, name, "");
    LinkRoot(limit, swapped, prefix, name);
    LinkedHolds(x, stage, swapped, LinkPkgInto(limit, swapped, prefix, name, prefix).fs, prefix, name);
  }

  /** The swap puts the staged tree, apart from the record, where the store was. */
  lemma SwapStep(x: FS, filled: FS, cleared: FS, prefix: Path, job: Job, suffix: string) returns (swapped: FS)
    requires filled == x[StagePath(prefix, job.name, suffix) + [META_FILE] := MetaNode(JobMeta(job))]
    requires RootOnly(filled, cleared, prefix) && Ready(cleared, prefix) && ValidName(job.name)
    requires RealDir(cleared, StagePath(prefix, job.name, suffix))
    ensures swapped == Swap(cleared, StagePath(prefix, job.name, suffix), StorePath(prefix, job.name))
    ensures Ready(swapped, prefix) && SameTree(x, StagePath(prefix, job.name, suffix), swapped, StorePath(prefix, job.name))
  {
    var stage := StagePath(prefix, job.name, suffix);
    SwapEffect(cleared, prefix, job.name, suffix);
    swapped := Swap(cleared, stage, StorePath(prefix, job.name));
    assert stage[|prefix|] == "store";
    SwapHolds(x, filled, cleared, swapped, prefix, job.name, stage, JobMeta(job));
  }

  lemma PlacedHolds(limit: nat, x: FS, filled: FS, prefix: Path, job: Job, suffix: string)
    requires Ready(filled, prefix) && ValidName(job.name) && RealDir(filled, StagePath(prefix, job.name, suffix))
    requires filled == x[StagePath(prefix, job.name, suffix) + [META_FILE] := MetaNode(JobMeta(job))]
    requires PlaceStore(limit, filled, prefix, job.name, suffix, WasLinked(job), job.linked).ok
    ensures SameTree(x, StagePath(prefix, job.name, suffix),
      PlaceStore(limit, filled, prefix, job.name, suffix, WasLinked(job), job.linked).fs, StorePath(prefix, job.name))
  {
    var cleared := ClearedStage(limit, filled, prefix, job, suffix);
    var swapped := SwapStep(x, filled, cleared, prefix, job, suffix);
    RootRootable(swapped, prefix);
    LinkedLast(limit, x, StagePath(prefix, job.name, suffix), swapped, prefix, job.name);
  }

  /** A fetched package's store holds what its archive unpacks to, whatever was there before. */
  lemma FetchedStore(limit: nat, fs: FS, prefix: Path, job: Job, suffix: string)
    requires Ready(fs, prefix) && Installable(prefix, job, suffix) && job.fetch
    requires CommitJob(limit, fs, prefix, job, suffix).ok
    ensures StagePath(prefix, job.name, suffix) !in fs
    ensures var unpacked := Unpack(limit, fs, prefix, job, suffix);
      unpacked.ok &&
      SameTree(unpacked.fs, StagePath(prefix, job.name, suffix),
               CommitJob(limit, fs, prefix, job, suffix).fs, StorePath(prefix, job.name))
  {
    var stage := StagePath(prefix, job.name, suffix);
    StagingDone(limit, fs, prefix, job, suffix);
    FilledHolds(limit, fs, prefix, job, suffix);
    var filled := FillStage(limit, WithStage(fs, prefix, stage), stage, job);
    PlacedHolds(limit, Unpack(limit, fs, prefix, job, suffix).fs, filled.fs, prefix, job, suffix);
  }

  // ----- from the packed tree to the store -----

  /** A link text written for one directory is the text another would get. */
  lemma RestoredAnywhere(a: Path, b: Path, r: Path, node: Node)
    requires r != [] && InTreeLink(r, node)
    ensures Restored(a, r, node) == Restored(b, r, node)
  {
    assert Parent(a + r) == a + Parent(r) && Parent(b + r) == b + Parent(r);
    if node.Link? {
      NeverClimbsShifts(a, Parent(r), node.text);
      NeverClimbsShifts(b, Parent(r), node.text);
      RelRelocates(a, b, Parent(r), Walk(Parent(r), node.text));
    }
  }

  /** Both programs together: a tree packed by one and fetched by the other lies in
      the package's store, its links naming the same places inside the package. */
  lemma InstalledIsPacked(limit: nat, src: FS, root: Path, top: string, fs: FS, prefix: Path, job: Job, suffix: string)
    requires WF(src) && RealDir(src, root) && IsName(top)
    requires forall p :: p in src && root < p ==> InTreeLink(p[|root|..], src[p])
    requires Ready(fs, prefix) && Installable(prefix, job, suffix) && job.fetch
    requires job.artifact.entries == CreateArchive(src, root, top)
    requires CommitJob(limit, fs, prefix, job, suffix).ok
    ensures var fs' := CommitJob(limit, fs, prefix, job, suffix).fs;
      var store := StorePath(prefix, job.name);
      forall r :: r != [] && r != [META_FILE] ==>
        (root + r in src <==> store + r in fs') &&
        (root + r in src ==> SameUpToMode(root, store, r, src[root + r], fs'[store + r]))
  {
    var fs' := CommitJob(limit, fs, prefix, job, suffix).fs;
    var stage := StagePath(prefix, job.name, suffix);
    var store := StorePath(prefix, job.name);
    FetchedStore(limit, fs, prefix, job, suffix);
    WithStageEffect(fs, prefix, job.name, suffix);
    assert Names(prefix);
    StageIsNamed(prefix, job.name, suffix);
    UnpackPacked(limit, src, root, top, WithStage(fs, prefix, stage), stage);
    forall r: Path | r != [] && r != [META_FILE] && root + r in src
      ensures SameUpToMode(root, store, r, src[root + r], Restored(stage, r, src[root + r]))
    {
      PackedAt(src, root, stage, store, r);
    }
  }

  lemma PackedAt(src: FS, root: Path, stage: Path, store: Path, r: Path)
    requires WF(src) && r != [] && root + r in src && Names(store)
    requires forall p :: p in src && root < p ==> InTreeLink(p[|root|..], src[p])
    ensures SameUpToMode(root, store, r, src[root + r], Restored(stage, r, src[root + r]))
  {
    assert (root + r)[|root|..] == r && root < root + r;
    assert Names(root + r) && forall i :: 0 <= i < |r| ==> r[i] == (root + r)[|root| + i];
    RestoredAnywhere(stage, store, r, src[root + r]);
    InTreeLinkFits(root, store, r, src[root + r]);
  }

  // ----- the other steps -----

  /** A package that is not fetched keeps its store, apart from the record. */
  lemma RelinkKeepsStore(limit: nat, fs: FS, prefix: Path, job: Job, suffix: string)
    requires Inv(limit, fs, prefix) && JobReady(limit, fs, prefix, job, suffix) && !job.fetch
    requires CommitJob(limit, fs, prefix, job, suffix).ok
    ensures SameTree(fs, StorePath(prefix, job.name), CommitJob(limit, fs, prefix, job, suffix).fs, StorePath(prefix, job.name))
  {
    var store := StorePath(prefix, job.name);
    InstalledIsReal(fs, prefix, job.name);
    var mid := RelinkRoot(limit, fs, prefix, job);
    RootOnlyKeepsStores(limit, fs, mid, prefix, job.name);
    MetaRewritten(limit, mid, prefix, job.name, JobMeta(job));
    var fs' := CommitJob(limit, fs, prefix, job, suffix).fs;
    RootOnlySameStore(fs, mid, prefix, job.name);
    forall r: Path | r != [META_FILE]
      ensures store + r in fs' <==> store + r in fs
      ensures store + r in fs' ==> fs'[store + r] == fs[store + r]
    {
      assert (store + r)[|store|..] == r;
      assert SameAt(fs, mid, store + r) && SameAt(mid, fs', store + r);
    }
  }

  /** Looking at a target drops a store that has no metadata, and nothing else. */
  lemma LeftoverDropped(limit: nat, fs: FS, prefix: Path, n: string)
    requires Inv(limit, fs, prefix) && ValidName(n) && Plan.PrepareOne(limit, fs, prefix, n).ok
    ensures var fs' := Plan.PrepareOne(limit, fs, prefix, n).fs;
      && (Installed(fs, prefix, n) ==> fs' == fs)
      && (!Installed(fs, prefix, n) ==> forall p :: if StorePath(prefix, n) <= p then p !in fs' else SameAt(fs, fs', p))
  {
    var store := StorePath(prefix, n);
    Plan.TargetReads(limit, fs, prefix, n);
    StoreAbove(fs, prefix, n);
    if store in fs {
      EvalPhysical(limit, fs, store);
    } else {
      forall p | store <= p ensures p !in fs {
        if p in fs && p != store { AncestorOf(fs, store, p); }
      }
    }
  }

  // ----- the staging directory -----

  lemma PlacedStageGone(limit: nat, filled: FS, prefix: Path, job: Job, suffix: string, p: Path)
    requires Ready(filled, prefix) && ValidName(job.name) && RealDir(filled, StagePath(prefix, job.name, suffix))
    requires PlaceStore(limit, filled, prefix, job.name, suffix, WasLinked(job), job.linked).ok
    requires StagePath(prefix, job.name, suffix) <= p
    ensures p !in PlaceStore(limit, filled, prefix, job.name, suffix, WasLinked(job), job.linked).fs
  {
    var stage := StagePath(prefix, job.name, suffix);
    var cleared := ClearedStage(limit, filled, prefix, job, suffix);
    SwapEffect(cleared, prefix, job.name, suffix);
    var swapped := Swap(cleared, stage, StorePath(prefix, job.name));
    RootRootable(swapped, prefix);
    assert Names(prefix);
    StageIsNamed(prefix, job.name, suffix);
    LinkRoot(limit, swapped, prefix, job.name);
    assert p[|prefix|] == stage[|prefix|] == "store";
    assert SameAt(swapped, PlaceStore(limit, filled, prefix, job.name, suffix, WasLinked(job), job.linked).fs, p);
  }

  lemma StageEmptied(limit: nat, fs: FS, prefix: Path, job: Job, suffix: string, p: Path)
    requires Ready(fs, prefix) && Installable(prefix, job, suffix) && job.fetch
    requires StagePath(prefix, job.name, suffix) !in fs && StagePath(prefix, job.name, suffix) <= p
    ensures p !in CommitJob(limit, fs, prefix, job, suffix).fs
  {
    var stage := StagePath(prefix, job.name, suffix);
    WithStageEffect(fs, prefix, job.name, suffix);
    var staged := WithStage(fs, prefix, stage);
    FilledReady(limit, staged, prefix, job, suffix);
    if CommitJob(limit, fs, prefix, job, suffix).ok {
      PlacedStageGone(limit, FillStage(limit, staged, stage, job).fs, prefix, job, suffix, p);
    }
  }

  lemma StageTaken(limit: nat, fs: FS, prefix: Path, job: Job, suffix: string)
    requires Ready(fs, prefix) && Installable(prefix, job, suffix) && job.fetch && StagePath(prefix, job.name, suffix) in fs
    ensures CommitJob(limit, fs, prefix, job, suffix) == Step(fs, false)
  {}

  lemma NothingUnder(fs: FS, fs': FS, d: Path)
    requires WF(fs) && d !in fs && forall p :: d <= p ==> p !in fs'
    ensures SameUnder(fs, fs', d)
  {
    forall p | d <= p ensures p !in fs { if p in fs { NotBelowMissing(fs, d, p); } }
  }

  /** However a fetched package's commit ends, at and below its staging directory there is
      just what was there before, which is nothing unless the directory could not be made. */
  lemma NoStageLeft(limit: nat, fs: FS, prefix: Path, job: Job, suffix: string)
    requires Ready(fs, prefix) && Installable(prefix, job, suffix) && job.fetch
    ensures SameUnder(fs, CommitJob(limit, fs, prefix, job, suffix).fs, StagePath(prefix, job.name, suffix))
    ensures CommitJob(limit, fs, prefix, job, suffix).ok ==> StagePath(prefix, job.name, suffix) !in fs
  {
    if StagePath(prefix, job.name, suffix) in fs {
      StageTaken(limit, fs, prefix, job, suffix);
    } else {
      forall p | StagePath(prefix, job.name, suffix) <= p ensures p !in CommitJob(limit, fs, prefix, job, suffix).fs {
        StageEmptied(limit, fs, prefix, job, suffix, p);
      }
      NothingUnder(fs, CommitJob(limit, fs, prefix, job, suffix).fs, StagePath(prefix, job.name, suffix));
    }
  }

  /** A commit whose archive does not unpack changes nothing but that the directory of the
      stores now exists. */
  lemma FailedUnpackChangesNothing(limit: nat, fs: FS, prefix: Path, job: Job, suffix: string, p: Path)
    requires Ready(fs, prefix) && Installable(prefix, job, suffix) && job.fetch
    requires StagePath(prefix, job.name, suffix) !in fs && !Unpack(limit, fs, prefix, job, suffix).ok
    ensures var s := CommitJob(limit, fs, prefix, job, suffix);
      !s.ok && (p != prefix + ["store"] ==> SameAt(fs, s.fs, p))
  {
    var stage := StagePath(prefix, job.name, suffix);
    NoStageLeft(limit, fs, prefix, job, suffix);
    WithStageEffect(fs, prefix, job.name, suffix);
    var staged := WithStage(fs, prefix, stage);
    FillStageEffect(limit, staged, stage, job);
    Extract.ExtractAllKeeps(limit, staged, stage, job.artifact.entries);
    var filled := FillStage(limit, staged, stage, job);
    assert p != stage && p != prefix + ["store"] ==> SameAt(fs, staged, p);
    assert !(stage < p) ==> SameAt(staged, filled.fs, p);
  }
}
