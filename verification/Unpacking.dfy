/** Whether and how an archive unpacks depends on the archive and the directory's path
    alone: what lies outside the directory makes no difference. */
module Unpacking {
  import opened Lexical
  import opened FileTree
  import opened Extract
  import opened Collect
  import opened Prefix
  import opened Install
  import opened Lifecycle

  /** The same directory in two file systems. */
  ghost predicate SameDir(fs: FS, fs': FS, dst: Path) {
    WF(fs) && WF(fs') && RealDir(fs, dst) && RealDir(fs', dst) && SameUnder(fs, fs', dst)
  }

  lemma SameAbove(fs: FS, fs': FS, dst: Path, target: Path)
    requires SameDir(fs, fs', dst) && dst <= target
    ensures RealAbove(fs, target) <==> RealAbove(fs', target)
  {
    forall q | q < target ensures q in fs && !fs[q].Dir? <==> q in fs' && !fs'[q].Dir? {
      if dst <= q { assert SameAt(fs, fs', q); }
      else {
        assert q == target[..|q|] && dst == target[..|dst|];
        assert q < dst;
        AncestorOf(fs, q, dst);
        AncestorOf(fs', q, dst);
      }
    }
  }

  lemma MkDirsLocal(fs: FS, fs': FS, dst: Path, p: Path)
    requires SameDir(fs, fs', dst) && dst <= p && RealAbove(fs, p) && RealAbove(fs', p) && Names(p)
    requires p in fs ==> fs[p].Dir?
    ensures SameDir(MkDirs(fs, p), MkDirs(fs', p), dst)
  {
    assert SameAt(fs, fs', p);
    MkDirsEffect(fs, p);
    MkDirsEffect(fs', p);
    forall q | dst <= q ensures SameAt(MkDirs(fs, p), MkDirs(fs', p), q) { assert SameAt(fs, fs', q); }
  }

  lemma PutLocal(fs: FS, fs': FS, dst: Path, p: Path, node: Node)
    requires SameDir(fs, fs', dst) && dst < p && RealAbove(fs, p) && RealAbove(fs', p) && Names(p)
    requires Childless(fs, p) && Childless(fs', p)
    ensures SameDir(Put(fs, p, node), Put(fs', p, node), dst)
  {
    PutEffect(fs, p, node);
    PutEffect(fs', p, node);
    var x, y := Put(fs, p, node), Put(fs', p, node);
    forall q | dst <= q ensures SameAt(x, y, q) {
      assert SameAt(fs, fs', q);
      if q == p {
        assert x[q] == node && y[q] == node;
      } else if q in fs {
        assert q in fs' && x[q] == fs[q] && y[q] == fs'[q];
      } else if q < p {
        assert x[q] == Dir && y[q] == Dir;
      }
    }
  }

  lemma ChildlessLocal(fs: FS, fs': FS, dst: Path, p: Path)
    requires SameDir(fs, fs', dst) && dst <= p
    ensures Childless(fs, p) <==> Childless(fs', p)
  {
    forall q | p < q ensures q in fs <==> q in fs' { assert SameAt(fs, fs', q); }
  }

  /** Links that stay in the directory lead to the same place. */
  lemma EvalLocal(limit: nat, fs: FS, fs': FS, dst: Path, p: Path)
    requires SameDir(fs, fs', dst) && Confined(fs, dst) && dst <= p && Names(p)
    ensures Eval(limit, fs', p) == Eval(limit, fs, p)
    ensures Eval(limit, fs, p).At? ==> (RealDir(fs, Eval(limit, fs, p).path) <==> RealDir(fs', Eval(limit, fs, p).path))
  {
    var rest := p[|dst|..];
    assert dst + rest == p && dst + [] == dst;
    EvalBelow(limit, fs, dst, rest);
    EvalBelow(limit, fs', dst, rest);
    SameIsAlike(fs, fs', dst);
    UpsThenNames(0, rest);
    assert Ups(0) + rest == rest;
    var r := ResolveAlike(fs, dst, fs', dst, [], rest, limit);
    assert SameAt(fs, fs', dst + r);
  }

  ghost predicate SameStep(s: Step, s': Step, dst: Path) {
    s.ok == s'.ok && SameDir(s.fs, s'.fs, dst)
  }

  lemma MkdirAllLocal(limit: nat, fs: FS, fs': FS, dst: Path, p: Path)
    requires SameDir(fs, fs', dst) && Confined(fs, dst) && dst <= p && Names(p) && RealAbove(fs, p) && RealAbove(fs', p)
    ensures SameStep(MkdirAll(limit, fs, p), MkdirAll(limit, fs', p), dst)
  {
    assert SameAt(fs, fs', p);
    if p !in fs { MkDirsLocal(fs, fs', dst, p); }
    else if fs[p].Link? { EvalLocal(limit, fs, fs', dst, p); }
  }

  lemma HardLinkLocal(fs: FS, fs': FS, dst: Path, source: Path, p: Path)
    requires SameDir(fs, fs', dst) && dst < p && dst < source && Names(p)
    requires RealAbove(fs, p) && RealAbove(fs', p) && RealAbove(fs, source) && RealAbove(fs', source)
    ensures SameStep(HardLink(fs, source, p), HardLink(fs', source, p), dst)
  {
    var d := Parent(p);
    assert d < p && dst <= d;
    assert SameAt(fs, fs', d);
    MkDirsLocal(fs, fs', dst, d);
    MkDirsEffect(fs, d);
    MkDirsEffect(fs', d);
    var made, made' := MkDirs(fs, d), MkDirs(fs', d);
    assert SameAt(made, made', source) && SameAt(made, made', p);
    if HardLink(fs, source, p).ok {
      FileIsChildless(fs, p);
      FileIsChildless(fs', p);
      PutLocal(fs, fs', dst, p, made[source]);
      assert Put(fs, p, made[source]) == made[p := made[source]] && Put(fs', p, made[source]) == made'[p := made[source]];
    }
  }

  lemma BodyLocal(limit: nat, fs: FS, fs': FS, dst: Path, target: Path, body: Body)
    requires SameDir(fs, fs', dst) && Confined(fs, dst) && dst < target && Names(target)
    requires RealAbove(fs, target) && RealAbove(fs', target)
    ensures SameStep(ExtractBody(limit, fs, dst, target, body), ExtractBody(limit, fs', dst, target, body), dst)
  {
    assert SameAt(fs, fs', target);
    ChildlessLocal(fs, fs', dst, target);
    if target !in fs || !fs[target].Dir? {
      FileIsChildless(fs, target);
      FileIsChildless(fs', target);
    }
    match body {
      case DirBody => MkdirAllLocal(limit, fs, fs', dst, target);
      case RegBody(content, mode) =>
        var s := ExtractBody(limit, fs, dst, target, body);
        if s.ok { PutLocal(fs, fs', dst, target, s.fs[target]); }
      case SymBody(link) =>
        var linkTarget := SafeSymlinkTarget(dst, target, link);
        if linkTarget.Ok? && Childless(fs, target) { PutLocal(fs, fs', dst, target, Link(Rel(Parent(target), linkTarget.value))); }
      case HardBody(link) =>
        var source := SafeArchivePath(dst, StripFirst(link));
        if source.Ok? {
          ParentsOkIsRealAbove(fs, dst, source.value);
          ParentsOkIsRealAbove(fs', dst, source.value);
          SameAbove(fs, fs', dst, source.value);
          if RealAbove(fs, source.value) { HardLinkLocal(fs, fs', dst, source.value, target); }
        }
      case OtherBody =>
    }
  }

  lemma EntryLocal(limit: nat, fs: FS, fs': FS, dst: Path, e: Entry)
    requires SameDir(fs, fs', dst) && Confined(fs, dst)
    ensures SameStep(ExtractEntry(limit, fs, dst, e), ExtractEntry(limit, fs', dst, e), dst)
  {
    var rel := StripFirst(e.name);
    var target := SafeArchivePath(dst, rel);
    if rel != [""] && target.Ok? {
      ParentsOkIsRealAbove(fs, dst, target.value);
      ParentsOkIsRealAbove(fs', dst, target.value);
      SameAbove(fs, fs', dst, target.value);
      if RealAbove(fs, target.value) {
        WalkIsNames(dst, rel);
        BodyLocal(limit, fs, fs', dst, target.value, e.body);
      }
    }
  }

  lemma {:induction false} ExtractLocal(limit: nat, fs: FS, fs': FS, dst: Path, all: seq<Entry>, es: seq<Entry>)
    requires SameDir(fs, fs', dst) && Tame(dst, all) && forall e :: e in es ==> e in all
    requires LinksFrom(fs, dst, all) && NoReserved(fs, dst) && Confined(fs, dst)
    ensures SameStep(ExtractAll(limit, fs, dst, es), ExtractAll(limit, fs', dst, es), dst)
    decreases |es|
  {
    if es != [] {
      EntryLocal(limit, fs, fs', dst, es[0]);
      TameStep(limit, fs, dst, all, es[0]);
      var s, s' := ExtractEntry(limit, fs, dst, es[0]), ExtractEntry(limit, fs', dst, es[0]);
      if s.ok { ExtractLocal(limit, s.fs, s'.fs, dst, all, es[1..]); }
    }
  }

  /** Filling an empty staging directory goes the same way in any file system. */
  lemma FillLocal(limit: nat, fs: FS, fs': FS, stage: Path, job: Job)
    requires WF(fs) && WF(fs') && RealDir(fs, stage) && RealDir(fs', stage) && Childless(fs, stage) && Childless(fs', stage)
    requires Tame(stage, job.artifact.entries)
    ensures SameStep(FillStage(limit, fs, stage, job), FillStage(limit, fs', stage, job), stage)
  {
    var es := job.artifact.entries;
    forall q | stage <= q ensures SameAt(fs, fs', q) { assert q == stage || stage < q; }
    assert stage < stage + ["store"] && stage < stage + ["profile"];
    ExtractLocal(limit, fs, fs', stage, es, es);
    var t, t' := ExtractAll(limit, fs, stage, es), ExtractAll(limit, fs', stage, es);
    if t.ok {
      DirAbove(t.fs, stage);
      DirAbove(t'.fs, stage);
      assert stage < stage + [META_FILE] && SameAt(t.fs, t'.fs, stage + [META_FILE]);
      if !RealDir(t.fs, stage + [META_FILE]) {
        PutMetaWF(t.fs, stage, JobMeta(job));
        PutMetaWF(t'.fs, stage, JobMeta(job));
        FilledSame(t.fs, t'.fs, FillStage(limit, fs, stage, job).fs, FillStage(limit, fs', stage, job).fs, stage, MetaNode(JobMeta(job)));
      }
    }
  }

  lemma FilledSame(fs: FS, fs': FS, x: FS, x': FS, stage: Path, node: Node)
    requires SameUnder(fs, fs', stage)
    requires x == fs[stage + [META_FILE] := node] && x' == fs'[stage + [META_FILE] := node]
    ensures SameUnder(x, x', stage)
  {
    forall q | stage <= q ensures SameAt(x, x', q) { assert SameAt(fs, fs', q); }
  }
}
