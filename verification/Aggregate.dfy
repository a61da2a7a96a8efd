/** Linking a stored package into an aggregate tree and unlinking it again
    (cmd/binman/store.go), with closed forms for what each call leaves. */
module Aggregate {
  import opened Lexical
  import opened FileTree
  import opened Extract
  import opened Collect

  // ----- ensureAggregateDir -----

  /** Whatever is at `p` gives way to a directory. */
  function MakeReal(fs: FS, p: Path): FS {
    if RealDir(fs, p) then fs else RemoveTree(fs, p)[p := Dir]
  }

  function EnsureFrom(fs: FS, dir: Path, k: nat): FS
    decreases |dir| + 1 - k
  {
    if k > |dir| then fs else EnsureFrom(MakeReal(fs, dir[..k]), dir, k + 1)
  }

  function EnsureAggregateDir(limit: nat, fs: FS, root: Path, dir: Path): Step
    requires WF(fs) && RealAbove(fs, root)
  {
    if Rel(root, dir)[0] == ".." then Step(fs, false)
    else
      var made := MkdirAll(limit, fs, root);
      if made.ok then Step(EnsureFrom(made.fs, dir, |root| + 1), true) else made
  }

  lemma RelDown(root: Path, dir: Path)
    requires Names(dir) && root <= dir
    ensures Rel(root, dir)[0] != ".."
  {
    CommonAtLeast(root, root, dir);
    var rest := dir[Common(root, dir)..];
    assert Ups(0) + rest == rest;
    assert rest != [] ==> rest[0] == dir[Common(root, dir)];
  }

  lemma RelUp(root: Path, dir: Path)
    requires !(root <= dir)
    ensures Rel(root, dir)[0] == ".."
  {
    var c := Common(root, dir);
    assert root[..c] == dir[..c] && root[..|root|] == root;
    assert (Ups(|root| - c) + dir[c..])[0] == Ups(|root| - c)[0];
  }

  /** Rel starts with ".." exactly when the directory is not at or below the root. */
  lemma RelEscapes(root: Path, dir: Path)
    requires Names(dir)
    ensures Rel(root, dir)[0] == ".." <==> !(root <= dir)
  {
    if root <= dir { RelDown(root, dir); } else { RelUp(root, dir); }
  }

  /** `fs'` is `fs` with `d` and everything above it turned into directories. */
  ghost predicate Forced(fs: FS, fs': FS, d: Path) {
    && WF(fs')
    && (forall q :: q in fs' <==> q in fs || q <= d)
    && (forall q :: q in fs' && q <= d ==> fs'[q].Dir?)
    && (forall q :: q in fs && !(q <= d) ==> fs'[q] == fs[q])
  }

  lemma MakeRealIs(cur: FS, p: Path)
    requires WF(cur) && p != [] && Names(p) && RealDir(cur, Parent(p))
    ensures MakeReal(cur, p) == cur[p := Dir] && WF(cur[p := Dir])
  {
    PutLeafWF(cur, p, Dir);
    if !RealDir(cur, p) {
      FileIsChildless(cur, p);
      assert forall q :: q in cur && p <= q ==> q == p;
    }
  }

  lemma MakeRealForces(fs: FS, cur: FS, p: Path)
    requires WF(fs) && p != [] && Names(p) && Forced(fs, cur, Parent(p))
    ensures Forced(fs, MakeReal(cur, p), p)
  {
    MakeRealIs(cur, p);
    var fs' := cur[p := Dir];
    forall q ensures q in fs' <==> q in fs || q <= p { PrefixStep(q, p); }
    forall q | q in fs' && q <= p ensures fs'[q].Dir? { PrefixStep(q, p); }
    forall q | q in fs && !(q <= p) ensures fs'[q] == fs[q] { PrefixStep(q, p); }
  }

  lemma {:induction false} EnsureForces(fs: FS, cur: FS, dir: Path, k: nat)
    requires WF(fs) && Names(dir) && 1 <= k <= |dir| + 1 && Forced(fs, cur, dir[..k - 1])
    ensures Forced(fs, EnsureFrom(cur, dir, k), dir)
    decreases |dir| + 1 - k
  {
    if k > |dir| {
      assert dir[..k - 1] == dir;
    } else {
      assert Parent(dir[..k]) == dir[..k - 1];
      MakeRealForces(fs, cur, dir[..k]);
      EnsureForces(fs, MakeReal(cur, dir[..k]), dir, k + 1);
    }
  }

  /** A root that is a real directory, or can become one without touching a file or link. */
  ghost predicate Rootable(fs: FS, root: Path) {
    Names(root) && RealAbove(fs, root) && (root in fs ==> fs[root].Dir?)
  }

  lemma EnsureEffect(limit: nat, fs: FS, root: Path, dir: Path)
    requires WF(fs) && Rootable(fs, root) && root <= dir && Names(dir)
    ensures var s := EnsureAggregateDir(limit, fs, root, dir); s.ok && Forced(fs, s.fs, dir)
  {
    RelEscapes(root, dir);
    MkDirsEffect(fs, root);
    assert dir[..|root|] == root;
    EnsureForces(fs, MkDirs(fs, root), dir, |root| + 1);
  }

  // ----- linkPkgInto -----

  function StorePath(prefix: Path, name: string): Path {
    prefix + ["store", name]
  }

  /** The link that makes `root + rel` name the package's file `store + rel`. */
  function LinkTo(root: Path, store: Path, rel: Path): Node {
    Link(Rel(Parent(root + rel), store + rel))
  }

  function LinkOne(limit: nat, fs: FS, root: Path, store: Path, rel: Path): Step
    requires WF(fs) && RealAbove(fs, root)
  {
    var dest := root + rel;
    var dirs := EnsureAggregateDir(limit, fs, root, Parent(dest));
    if !dirs.ok || RealDir(dirs.fs, dest) then Step(dirs.fs, false)
    else Step(dirs.fs[dest := LinkTo(root, store, rel)], true)
  }

  /** The commit loop of linkPkgInto; it stops at the first error. */
  function LinkFiles(limit: nat, fs: FS, root: Path, store: Path, files: seq<Path>): Step
    requires WF(fs) && Rootable(fs, root) && Linkable(files)
    decreases |files|
  {
    if files == [] then Step(fs, true)
    else
      var s := LinkOne(limit, fs, root, store, files[0]);
      LinkOneEffect(limit, fs, root, store, files[0]);
      RootStays(fs, s.fs, root, files[0]);
      if s.ok then LinkFiles(limit, s.fs, root, store, files[1..]) else s
  }

  function LinkPkgInto(limit: nat, fs: FS, prefix: Path, name: string, root: Path): Step
    requires WF(fs) && Rootable(fs, root)
  {
    match CollectFiles(limit, fs, StorePath(prefix, name))
    case Ok(files) =>
      CollectedAreLinkable(limit, fs, StorePath(prefix, name));
      LinkFiles(limit, fs, root, StorePath(prefix, name), files)
    case Err => Step(fs, false)
  }

  /** What linking one file does to the tree, succeeding exactly when no real
      directory is in the way of the link. */
  ghost predicate LinkedOne(fs: FS, s: Step, root: Path, store: Path, rel: Path) {
    && WF(s.fs)
    && (s.ok <==> !RealDir(fs, root + rel))
    && (s.ok ==> root + rel in s.fs && s.fs[root + rel] == LinkTo(root, store, rel))
    && (forall p :: p < root + rel ==> RealDir(s.fs, p))
    && (forall p :: !(p <= root + rel) ==> SameAt(fs, s.fs, p))
    && (!s.ok ==> SameAt(fs, s.fs, root + rel))
  }

  lemma LinkOneEffect(limit: nat, fs: FS, root: Path, store: Path, rel: Path)
    requires WF(fs) && Rootable(fs, root) && rel != [] && Names(rel)
    ensures LinkedOne(fs, LinkOne(limit, fs, root, store, rel), root, store, rel)
  {
    var dest := root + rel;
    var d := Parent(dest);
    assert root <= d && Names(dest) && Names(d);
    EnsureEffect(limit, fs, root, d);
    PutLink(fs, EnsureAggregateDir(limit, fs, root, d).fs, root, store, rel);
  }

  lemma PutLink(fs: FS, made: FS, root: Path, store: Path, rel: Path)
    requires rel != [] && Names(root + rel) && Forced(fs, made, Parent(root + rel))
    ensures var dest := root + rel;
      var s := if RealDir(made, dest) then Step(made, false) else Step(made[dest := LinkTo(root, store, rel)], true);
      LinkedOne(fs, s, root, store, rel)
  {
    var dest := root + rel;
    ForcedAround(fs, made, dest);
    if !RealDir(made, dest) { PutLinkThere(fs, made, made[dest := LinkTo(root, store, rel)], dest); }
  }

  lemma PutLinkThere(fs: FS, made: FS, fs': FS, dest: Path)
    requires dest != [] && Names(dest) && WF(made) && RealDir(made, Parent(dest)) && !RealDir(made, dest)
    requires (forall p :: p < dest ==> RealDir(made, p)) && forall p :: !(p <= dest) ==> SameAt(fs, made, p)
    requires dest in fs' && fs' == made[dest := fs'[dest]]
    ensures WF(fs') && (forall p :: p < dest ==> RealDir(fs', p)) && forall p :: !(p <= dest) ==> SameAt(fs, fs', p)
  {
    assert Parent(dest) < dest;
    FileIsChildless(made, dest);
    PutLeafWF(made, dest, fs'[dest]);
    forall p | p < dest ensures RealDir(fs', p) { assert RealDir(made, p); }
    forall p | !(p <= dest) ensures SameAt(fs, fs', p) { assert SameAt(fs, made, p); }
  }

  lemma ForcedAround(fs: FS, made: FS, dest: Path)
    requires dest != [] && Forced(fs, made, Parent(dest))
    ensures SameAt(fs, made, dest) && (forall p :: p < dest ==> RealDir(made, p))
    ensures forall p :: !(p <= dest) ==> SameAt(fs, made, p)
  {
    forall p | p < dest ensures RealDir(made, p) { PrefixStep(p, dest); }
    forall p | !(p <= dest) ensures SameAt(fs, made, p) { PrefixStep(p, dest); }
  }

  lemma RootStays(fs: FS, fs': FS, root: Path, rel: Path)
    requires Rootable(fs, root) && rel != [] && forall p :: p < root + rel ==> RealDir(fs', p)
    ensures Rootable(fs', root) && RealDir(fs', root)
  {
    assert root < root + rel && RealDir(fs', root);
    forall q | q < root && q in fs' ensures fs'[q].Dir? { assert q < root + rel && RealDir(fs', q); }
  }

  ghost predicate IsDest(root: Path, files: seq<Path>, p: Path) {
    exists i :: 0 <= i < |files| && p == root + files[i]
  }

  ghost predicate IsAbove(root: Path, files: seq<Path>, p: Path) {
    exists i :: 0 <= i < |files| && p < root + files[i]
  }

  /** Directories are never turned into anything else. */
  ghost predicate DirsStay(fs: FS, fs': FS) {
    forall p :: RealDir(fs, p) ==> RealDir(fs', p)
  }

  ghost predicate Untouched(fs: FS, fs': FS, root: Path, files: seq<Path>) {
    forall p :: !IsDest(root, files, p) && !IsAbove(root, files, p) ==> SameAt(fs, fs', p)
  }

  /** Every destination links to its own file with real directories above it, and
      every other path is as it was. */
  ghost predicate Linked(fs: FS, fs': FS, root: Path, store: Path, files: seq<Path>) {
    && (forall i :: 0 <= i < |files| ==>
          root + files[i] in fs' && fs'[root + files[i]] == LinkTo(root, store, files[i]))
    && (forall p :: IsAbove(root, files, p) ==> RealDir(fs', p))
    && Untouched(fs, fs', root, files)
  }

  lemma Incomparable(root: Path, a: Path, b: Path)
    ensures root + a <= root + b <==> a <= b
  {
    assert (root + a)[|root|..] == a && (root + b)[|root|..] == b;
    if root + a <= root + b { assert (root + b)[..|root + a|] == root + a; assert b[..|a|] == a; }
    if a <= b { assert root + b == root + a + b[|a|..]; }
  }

  lemma AboveUnder(root: Path, files: seq<Path>, q: Path)
    ensures IsAbove(root, files, root + q) <==> IsAbove([], files, q)
  {
    forall i | 0 <= i < |files| ensures root + q < root + files[i] <==> q < [] + files[i] {
      assert [] + files[i] == files[i];
      Incomparable(root, q, files[i]);
      Incomparable(root, files[i], q);
    }
    if IsAbove(root, files, root + q) { var i :| 0 <= i < |files| && root + q < root + files[i]; }
    if IsAbove([], files, q) { var i :| 0 <= i < |files| && q < [] + files[i]; }
  }

  lemma DestCons(root: Path, files: seq<Path>, p: Path)
    requires files != []
    ensures IsDest(root, files, p) <==> p == root + files[0] || IsDest(root, files[1..], p)
  {
    if IsDest(root, files[1..], p) {
      var i :| 0 <= i < |files| - 1 && p == root + files[1..][i];
      assert p == root + files[i + 1];
    }
    if IsDest(root, files, p) {
      var i :| 0 <= i < |files| && p == root + files[i];
      if i > 0 { assert p == root + files[1..][i - 1]; }
    }
  }

  lemma AboveCons(root: Path, files: seq<Path>, p: Path)
    requires files != []
    ensures IsAbove(root, files, p) <==> p < root + files[0] || IsAbove(root, files[1..], p)
  {
    if IsAbove(root, files[1..], p) {
      var i :| 0 <= i < |files| - 1 && p < root + files[1..][i];
      assert p < root + files[i + 1];
    }
    if IsAbove(root, files, p) {
      var i :| 0 <= i < |files| && p < root + files[i];
      if i > 0 { assert p < root + files[1..][i - 1]; }
    }
  }

  lemma LinkOneKeepsDirs(fs: FS, s: Step, root: Path, store: Path, rel: Path)
    requires WF(fs) && LinkedOne(fs, s, root, store, rel)
    ensures DirsStay(fs, s.fs)
  {
    forall p | RealDir(fs, p) ensures RealDir(s.fs, p) {
      if p != root + rel && !(p < root + rel) { assert SameAt(fs, s.fs, p); }
    }
  }

  /** linkPkgInto's loop in closed form: it succeeds exactly when no destination is a
      real directory beforehand, and then the order of the files does not matter. */
  lemma {:induction false} LinkFilesEffect(limit: nat, fs: FS, root: Path, store: Path, files: seq<Path>)
    requires WF(fs) && Rootable(fs, root) && Linkable(files)
    ensures var s := LinkFiles(limit, fs, root, store, files);
      && WF(s.fs) && Rootable(s.fs, root) && DirsStay(fs, s.fs) && Untouched(fs, s.fs, root, files)
      && (s.ok <==> forall i :: 0 <= i < |files| ==> !RealDir(fs, root + files[i]))
      && (s.ok ==> Linked(fs, s.fs, root, store, files))
    decreases |files|
  {
    if files != [] {
      var s := LinkOne(limit, fs, root, store, files[0]);
      LinkOneEffect(limit, fs, root, store, files[0]);
      RootStays(fs, s.fs, root, files[0]);
      LinkOneKeepsDirs(fs, s, root, store, files[0]);
      if s.ok {
        LinkFilesEffect(limit, s.fs, root, store, files[1..]);
        LinkStep(fs, s, LinkFiles(limit, s.fs, root, store, files[1..]), root, store, files);
      } else {
        forall p | !IsDest(root, files, p) && !IsAbove(root, files, p) ensures SameAt(fs, s.fs, p) {
          assert p != root + files[0] && !(p < root + files[0]);
        }
      }
    }
  }

  lemma LinkStep(fs: FS, s: Step, t: Step, root: Path, store: Path, files: seq<Path>)
    requires files != [] && Linkable(files)
    requires s.ok && LinkedOne(fs, s, root, store, files[0])
    requires DirsStay(s.fs, t.fs) && Untouched(s.fs, t.fs, root, files[1..])
    requires t.ok <==> forall i :: 0 <= i < |files| - 1 ==> !RealDir(s.fs, root + files[1..][i])
    requires t.ok ==> Linked(s.fs, t.fs, root, store, files[1..])
    ensures Untouched(fs, t.fs, root, files)
    ensures t.ok <==> forall i :: 0 <= i < |files| ==> !RealDir(fs, root + files[i])
    ensures t.ok ==> Linked(fs, t.fs, root, store, files)
  {
    var rest := files[1..];
    var d0 := root + files[0];
    forall i | 1 <= i < |files|
      ensures !(root + files[i] <= d0) && !(d0 <= root + files[i])
      ensures SameAt(fs, s.fs, root + files[i])
    {
      Incomparable(root, files[i], files[0]);
      Incomparable(root, files[0], files[i]);
    }
    assert forall i :: 0 <= i < |rest| ==> rest[i] == files[i + 1];
    assert forall i :: 1 <= i < |files| ==> files[i] == rest[i - 1];
    forall p ensures IsDest(root, files, p) <==> p == d0 || IsDest(root, rest, p) { DestCons(root, files, p); }
    forall p ensures IsAbove(root, files, p) <==> p < d0 || IsAbove(root, rest, p) { AboveCons(root, files, p); }
    assert !IsDest(root, rest, d0) && !IsAbove(root, rest, d0);
    forall p | !IsDest(root, files, p) && !IsAbove(root, files, p) ensures SameAt(fs, t.fs, p) {
      assert SameAt(fs, s.fs, p) && SameAt(s.fs, t.fs, p);
    }
    if t.ok {
      assert SameAt(s.fs, t.fs, d0);
      forall i | 0 <= i < |files|
        ensures root + files[i] in t.fs && t.fs[root + files[i]] == LinkTo(root, store, files[i])
      {
        if i > 0 { assert files[i] == rest[i - 1]; }
      }
    }
  }

  // ----- unlinkPkgFrom -----

  /** symlinkPointsTo: the destination is a link that lexically names `target`. */
  predicate PointsTo(fs: FS, dest: Path, target: Path) {
    dest in fs && fs[dest].Link? && LinkTarget(Parent(dest), fs[dest].text) == target
  }

  function UnlinkOne(fs: FS, root: Path, store: Path, rel: Path): Step {
    var dest := root + rel;
    if !ParentsOk(fs, dest, |root| + 1) then Step(fs, false)
    else if PointsTo(fs, dest, store + rel) then Step(fs - {dest}, true)
    else Step(fs, true)
  }

  function UnlinkFiles(fs: FS, root: Path, store: Path, files: seq<Path>): Step
    decreases |files|
  {
    if files == [] then Step(fs, true)
    else
      var s := UnlinkOne(fs, root, store, files[0]);
      if s.ok then UnlinkFiles(s.fs, root, store, files[1..]) else s
  }

  function UnlinkPkgFrom(limit: nat, fs: FS, prefix: Path, name: string, root: Path): Step {
    match CollectFiles(limit, fs, StorePath(prefix, name))
    case Ok(files) => UnlinkFiles(fs, root, StorePath(prefix, name), files)
    case Err => Step(fs, false)
  }

  /** A destination of the package that is a link naming the package's own file. */
  ghost predicate Owned(fs: FS, root: Path, store: Path, files: seq<Path>, p: Path) {
    exists i :: 0 <= i < |files| && p == root + files[i] && PointsTo(fs, p, store + files[i])
  }

  /** Exactly the owned destinations are gone; every other path is as it was. */
  ghost predicate Unlinked(fs: FS, fs': FS, root: Path, store: Path, files: seq<Path>) {
    forall p :: if Owned(fs, root, store, files, p) then p !in fs' else SameAt(fs, fs', p)
  }

  ghost predicate ParentsAllow(fs: FS, root: Path, files: seq<Path>) {
    forall i :: 0 <= i < |files| ==> ParentsOk(fs, root + files[i], |root| + 1)
  }

  /** Removing a path does not change the check on a target it does not lie above. */
  lemma ParentsOkAfterRemove(fs: FS, p: Path, target: Path, k: nat)
    requires WF(fs) && WF(fs - {p}) && !(p < target)
    ensures ParentsOk(fs - {p}, target, k) <==> ParentsOk(fs, target, k)
  {
    ParentsOkFrom(fs, target, k);
    ParentsOkFrom(fs - {p}, target, k);
    assert forall j :: 0 <= j < |target| ==> target[..j] < target;
  }

  lemma {:induction false} UnlinkFilesEffect(fs: FS, root: Path, store: Path, files: seq<Path>)
    requires WF(fs) && Antichain(files)
    ensures var s := UnlinkFiles(fs, root, store, files);
      && WF(s.fs) && DirsStay(fs, s.fs)
      && (s.ok <==> ParentsAllow(fs, root, files))
      && (s.ok ==> Unlinked(fs, s.fs, root, store, files))
      && (forall p :: !IsDest(root, files, p) ==> SameAt(fs, s.fs, p))
    decreases |files|
  {
    if files != [] {
      var s := UnlinkOne(fs, root, store, files[0]);
      var d0 := root + files[0];
      if s.ok {
        if PointsTo(fs, d0, store + files[0]) { RemoveLinkWF(fs, d0); }
        var t := UnlinkFiles(s.fs, root, store, files[1..]);
        UnlinkFilesEffect(s.fs, root, store, files[1..]);
        UnlinkStep(fs, s, t, root, store, files);
      }
    }
  }

  lemma UnlinkStep(fs: FS, s: Step, t: Step, root: Path, store: Path, files: seq<Path>)
    requires WF(fs) && WF(s.fs) && Antichain(files) && files != []
    requires s.ok && s == UnlinkOne(fs, root, store, files[0])
    requires DirsStay(s.fs, t.fs)
    requires t.ok <==> ParentsAllow(s.fs, root, files[1..])
    requires t.ok ==> Unlinked(s.fs, t.fs, root, store, files[1..])
    requires forall p :: !IsDest(root, files[1..], p) ==> SameAt(s.fs, t.fs, p)
    ensures DirsStay(fs, t.fs)
    ensures t.ok <==> ParentsAllow(fs, root, files)
    ensures t.ok ==> Unlinked(fs, t.fs, root, store, files)
    ensures forall p :: !IsDest(root, files, p) ==> SameAt(fs, t.fs, p)
  {
    ParentsAllowStep(fs, s.fs, root, files);
    forall p ensures IsDest(root, files, p) <==> p == root + files[0] || IsDest(root, files[1..], p) {
      DestCons(root, files, p);
    }
    forall p ensures Owned(fs, root, store, files, p) <==>
      (p == root + files[0] && PointsTo(fs, p, store + files[0])) || Owned(s.fs, root, store, files[1..], p)
    {
      OwnedCons(fs, s.fs, root, store, files, p);
    }
    forall p | RealDir(fs, p) ensures RealDir(t.fs, p) { assert RealDir(s.fs, p); }
    forall p | !IsDest(root, files, p) ensures SameAt(fs, t.fs, p) { assert SameAt(s.fs, t.fs, p); }
    if t.ok {
      forall p ensures if Owned(fs, root, store, files, p) then p !in t.fs else SameAt(fs, t.fs, p) {
        if !Owned(s.fs, root, store, files[1..], p) { assert SameAt(s.fs, t.fs, p); }
      }
    }
  }

  /** `fs'` is `fs` or `fs` without the first destination. */
  ghost predicate FirstGone(fs: FS, fs': FS, root: Path, files: seq<Path>)
    requires files != []
  {
    WF(fs') && (fs' == fs || fs' == fs - {root + files[0]})
  }

  lemma ParentsAllowStep(fs: FS, fs': FS, root: Path, files: seq<Path>)
    requires WF(fs) && Antichain(files) && files != [] && FirstGone(fs, fs', root, files)
    requires ParentsOk(fs, root + files[0], |root| + 1)
    ensures ParentsAllow(fs', root, files[1..]) <==> ParentsAllow(fs, root, files)
  {
    forall i | 1 <= i < |files|
      ensures ParentsOk(fs', root + files[1..][i - 1], |root| + 1) <==> ParentsOk(fs, root + files[i], |root| + 1)
    {
      Incomparable(root, files[0], files[i]);
      if fs' != fs { ParentsOkAfterRemove(fs, root + files[0], root + files[i], |root| + 1); }
    }
    if ParentsAllow(fs', root, files[1..]) {
      forall i | 0 <= i < |files| ensures ParentsOk(fs, root + files[i], |root| + 1) {
        if i > 0 { assert ParentsOk(fs', root + files[1..][i - 1], |root| + 1); }
      }
    }
    if ParentsAllow(fs, root, files) {
      forall i | 0 <= i < |files| - 1 ensures ParentsOk(fs', root + files[1..][i], |root| + 1) {
        assert ParentsOk(fs, root + files[i + 1], |root| + 1);
      }
    }
  }

  lemma OwnedCons(fs: FS, fs': FS, root: Path, store: Path, files: seq<Path>, p: Path)
    requires WF(fs) && Antichain(files) && files != [] && FirstGone(fs, fs', root, files)
    requires fs' == fs <==> !PointsTo(fs, root + files[0], store + files[0])
    ensures Owned(fs, root, store, files, p) <==>
      (p == root + files[0] && PointsTo(fs, p, store + files[0])) || Owned(fs', root, store, files[1..], p)
  {
    if Owned(fs', root, store, files[1..], p) {
      var i :| 0 <= i < |files| - 1 && p == root + files[1..][i] && PointsTo(fs', p, store + files[1..][i]);
      assert p == root + files[i + 1] && PointsTo(fs, p, store + files[i + 1]);
    }
    if Owned(fs, root, store, files, p) {
      var i :| 0 <= i < |files| && p == root + files[i] && PointsTo(fs, p, store + files[i]);
      if i > 0 {
        Incomparable(root, files[0], files[i]);
        assert p == root + files[1..][i - 1] && PointsTo(fs', p, store + files[1..][i - 1]);
      }
    }
  }

  // ----- the two together -----

  lemma LinkedIsOwned(fs: FS, fs': FS, root: Path, store: Path, files: seq<Path>, i: nat)
    requires Linked(fs, fs', root, store, files) && Linkable(files) && Names(store) && i < |files|
    ensures PointsTo(fs', root + files[i], store + files[i])
  {
    RelRoundTrip(Parent(root + files[i]), store + files[i]);
  }

  lemma AllRealAllows(fs: FS, root: Path, files: seq<Path>)
    requires WF(fs) && forall p :: IsAbove(root, files, p) ==> RealDir(fs, p)
    ensures ParentsAllow(fs, root, files)
  {
    forall i | 0 <= i < |files| ensures ParentsOk(fs, root + files[i], |root| + 1) {
      var target := root + files[i];
      ParentsOkFrom(fs, target, |root| + 1);
      forall j | |root| + 1 <= j < |target| ensures RealDir(fs, target[..j]) {
        assert target[..j] < target;
        assert IsAbove(root, files, target[..j]);
      }
    }
  }

  /** Unlinking undoes linking: it succeeds, every destination is gone, and only the
      directories made for them and what the links replaced differ from before. */
  lemma UnlinkUndoesLink(limit: nat, fs: FS, root: Path, store: Path, files: seq<Path>)
    requires WF(fs) && Rootable(fs, root) && Linkable(files) && Names(store)
    requires LinkFiles(limit, fs, root, store, files).ok
    ensures var linked := LinkFiles(limit, fs, root, store, files).fs;
      var s := UnlinkFiles(linked, root, store, files);
      && s.ok
      && (forall p :: IsDest(root, files, p) ==> p !in s.fs)
      && (forall p :: IsAbove(root, files, p) ==> RealDir(s.fs, p))
      && Untouched(fs, s.fs, root, files)
  {
    LinkFilesEffect(limit, fs, root, store, files);
    var linked := LinkFiles(limit, fs, root, store, files).fs;
    AllRealAllows(linked, root, files);
    UnlinkFilesEffect(linked, root, store, files);
    var s := UnlinkFiles(linked, root, store, files);
    forall p | IsDest(root, files, p) ensures p !in s.fs {
      var i :| 0 <= i < |files| && p == root + files[i];
      LinkedIsOwned(fs, linked, root, store, files, i);
      assert Owned(linked, root, store, files, p);
    }
    forall p | !IsDest(root, files, p) && !IsAbove(root, files, p) ensures SameAt(fs, s.fs, p) {
      assert SameAt(fs, linked, p) && SameAt(linked, s.fs, p);
    }
  }

  /** Any link or unlink call on one aggregate root. */
  datatype AggregateOp = LinkCall(store: Path, files: seq<Path>) | UnlinkCall(store: Path, files: seq<Path>)

  function RunOps(limit: nat, fs: FS, root: Path, ops: seq<AggregateOp>): FS
    requires WF(fs) && Rootable(fs, root) && forall i :: 0 <= i < |ops| ==> Linkable(ops[i].files)
    decreases |ops|
  {
    if ops == [] then fs
    else
      OpKeepsDirs(limit, fs, root, ops[0]);
      RunOps(limit, RunOp(limit, fs, root, ops[0]), root, ops[1..])
  }

  function RunOp(limit: nat, fs: FS, root: Path, op: AggregateOp): FS
    requires WF(fs) && Rootable(fs, root) && Linkable(op.files)
  {
    match op
    case LinkCall(store, files) => LinkFiles(limit, fs, root, store, files).fs
    case UnlinkCall(store, files) => UnlinkFiles(fs, root, store, files).fs
  }

  lemma OpKeepsDirs(limit: nat, fs: FS, root: Path, op: AggregateOp)
    requires WF(fs) && Rootable(fs, root) && Linkable(op.files)
    ensures var fs' := RunOp(limit, fs, root, op); WF(fs') && Rootable(fs', root) && DirsStay(fs, fs')
  {
    match op {
      case LinkCall(store, files) => LinkFilesEffect(limit, fs, root, store, files);
      case UnlinkCall(store, files) =>
        UnlinkFilesEffect(fs, root, store, files);
        var fs' := RunOp(limit, fs, root, op);
        forall q | q <= root && q in fs' ensures fs'[q].Dir? {
          assert !IsDest(root, files, q);
          assert SameAt(fs, fs', q);
          assert q == root || q < root;
        }
    }
  }

  lemma {:induction false} RunKeepsDirs(limit: nat, fs: FS, root: Path, ops: seq<AggregateOp>)
    requires WF(fs) && Rootable(fs, root) && forall i :: 0 <= i < |ops| ==> Linkable(ops[i].files)
    ensures WF(RunOps(limit, fs, root, ops)) && DirsStay(fs, RunOps(limit, fs, root, ops))
    decreases |ops|
  {
    if ops != [] {
      OpKeepsDirs(limit, fs, root, ops[0]);
      RunKeepsDirs(limit, RunOp(limit, fs, root, ops[0]), root, ops[1..]);
    }
  }

  /** Once a package is linked, unlinking it never fails on an unsafe parent, whatever
      was linked or unlinked there in between, even by calls that failed half way. */
  lemma UnlinkNeverBlocked(limit: nat, fs: FS, root: Path, store: Path, files: seq<Path>, ops: seq<AggregateOp>)
    requires WF(fs) && Rootable(fs, root) && Linkable(files) && LinkFiles(limit, fs, root, store, files).ok
    requires WF(LinkFiles(limit, fs, root, store, files).fs) && Rootable(LinkFiles(limit, fs, root, store, files).fs, root)
    requires forall i :: 0 <= i < |ops| ==> Linkable(ops[i].files)
    ensures UnlinkFiles(RunOps(limit, LinkFiles(limit, fs, root, store, files).fs, root, ops), root, store, files).ok
  {
    LinkFilesEffect(limit, fs, root, store, files);
    var linked := LinkFiles(limit, fs, root, store, files).fs;
    RunKeepsDirs(limit, linked, root, ops);
    var fs' := RunOps(limit, linked, root, ops);
    forall p | IsAbove(root, files, p) ensures RealDir(fs', p) { assert RealDir(linked, p); }
    AllRealAllows(fs', root, files);
    UnlinkFilesEffect(fs', root, store, files);
  }

  /** Moving the whole prefix keeps every link text. */
  lemma LinksRelocate(pre: Path, pre': Path, root: Path, store: Path, rel: Path)
    requires rel != []
    ensures LinkTo(pre + root, pre + store, rel) == LinkTo(pre' + root, pre' + store, rel)
  {
    LinkToUnder(pre, root, store, rel);
    LinkToUnder(pre', root, store, rel);
  }

  lemma ParentUnder(pre: Path, root: Path, rel: Path)
    requires rel != []
    ensures pre + root + rel == pre + (root + rel) && Parent(pre + root + rel) == pre + Parent(root + rel)
  {}

  lemma LinkToUnder(pre: Path, root: Path, store: Path, rel: Path)
    requires rel != []
    ensures LinkTo(pre + root, pre + store, rel) == LinkTo(root, store, rel)
  {
    ParentUnder(pre, root, rel);
    ParentUnder(pre, store, rel);
    RelUnder(pre, Parent(root + rel), store + rel);
  }

  /** Linking a package that offers a path below one of `files` blocks linking `files` again. */
  lemma ClashBlocks(limit: nat, fs: FS, root: Path, store: Path, files: seq<Path>, store': Path, files': seq<Path>, i: nat, j: nat)
    requires WF(fs) && Rootable(fs, root) && Linkable(files) && Linkable(files')
    requires i < |files| && j < |files'| && files[i] < files'[j] && LinkFiles(limit, fs, root, store', files').ok
    ensures var s := LinkFiles(limit, fs, root, store', files');
      WF(s.fs) && Rootable(s.fs, root) && !LinkFiles(limit, s.fs, root, store, files).ok
  {
    LinkFilesEffect(limit, fs, root, store', files');
    var s := LinkFiles(limit, fs, root, store', files');
    Incomparable(root, files[i], files'[j]);
    assert root + files[i] < root + files'[j];
    assert IsAbove(root, files', root + files[i]);
    LinkFilesEffect(limit, s.fs, root, store, files);
  }

  lemma LinkOneName(limit: nat, fs: FS, root: Path, store: Path, name: string)
    requires WF(fs) && Rootable(fs, root) && Childless(fs, root) && IsName(name) && name != META_FILE
    ensures Linkable([[name]])
    ensures var s := LinkFiles(limit, fs, root, store, [[name]]);
      s.ok && WF(s.fs) && Rootable(s.fs, root) && Childless(s.fs, root + [name])
  {
    var files := [[name]];
    assert root < root + files[0];
    LinkFilesEffect(limit, fs, root, store, files);
    var s := LinkFiles(limit, fs, root, store, files);
    assert s.fs[root + files[0]] == LinkTo(root, store, files[0]);
    FileIsChildless(s.fs, root + files[0]);
  }

  lemma LinkBelowName(limit: nat, fs: FS, root: Path, store: Path, name: string, below: string)
    requires WF(fs) && Rootable(fs, root) && Childless(fs, root + [name]) && IsName(name) && IsName(below) && name != META_FILE
    ensures Linkable([[name, below]])
    ensures var s := LinkFiles(limit, fs, root, store, [[name, below]]);
      s.ok && WF(s.fs) && Rootable(s.fs, root)
  {
    var files := [[name, below]];
    assert root + [name] < root + files[0];
    LinkFilesEffect(limit, fs, root, store, files);
  }

  /** Two packages of which one offers "x" and the other "x/y" can be linked one after
      the other, but then the first cannot be linked again. */
  lemma ClashExample(limit: nat, fs: FS, root: Path, store: Path, store': Path)
    requires WF(fs) && Rootable(fs, root) && Childless(fs, root)
    ensures Linkable([["x"]]) && Linkable([["x", "y"]])
    ensures var s := LinkFiles(limit, fs, root, store, [["x"]]);
      && s.ok && WF(s.fs) && Rootable(s.fs, root)
      && var t := LinkFiles(limit, s.fs, root, store', [["x", "y"]]);
         && t.ok && WF(t.fs) && Rootable(t.fs, root)
         && !LinkFiles(limit, t.fs, root, store, [["x"]]).ok
  {
    var one, two := [["x"]], [["x", "y"]];
    LinkOneName(limit, fs, root, store, "x");
    var s := LinkFiles(limit, fs, root, store, one);
    LinkBelowName(limit, s.fs, root, store', "x", "y");
    ClashBlocks(limit, s.fs, root, store, one, store', two, 0, 0);
  }
}
