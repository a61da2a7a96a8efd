/** Exactly when copyTree (cmd/artifact/normalize.go) succeeds: no directory can be
    entered again below itself, and no link on the way fails to resolve. */
module CopyCycles {
  import opened Lexical
  import opened FileTree
  import opened Order
  import opened Collect
  import opened CopyTree

  /** The entry n of the directory d is the directory e, or a followed link to it. */
  predicate Enters(limit: nat, fs: FS, root: Path, d: Path, n: string, e: Path) {
    && d + [n] in fs && RealDir(fs, e)
    && (e == d + [n] || (Followed(limit, fs, root, d + [n]) && Eval(limit, fs, d + [n]) == At(e)))
  }

  ghost predicate Edge(limit: nat, fs: FS, root: Path, d: Path, e: Path) {
    RealDir(fs, d) && exists n :: Enters(limit, fs, root, d, n, e)
  }

  /** A link that can neither be followed nor misses its target. */
  predicate Unresolvable(limit: nat, fs: FS, p: Path) {
    p in fs && fs[p].Link? && !Eval(limit, fs, p).At? && !Eval(limit, fs, p).NoEntry?
  }

  ghost predicate Stuck(limit: nat, fs: FS, d: Path) {
    exists n :: Unresolvable(limit, fs, d + [n])
  }

  ghost predicate Steps(limit: nat, fs: FS, root: Path, t: seq<Path>) {
    forall i :: 0 <= i < |t| - 1 ==> Edge(limit, fs, root, t[i], t[i + 1])
  }

  /** The directories the copy enters one below the other, from the root on. */
  ghost predicate Trail(limit: nat, fs: FS, root: Path, t: seq<Path>) {
    t != [] && t[0] == root && Steps(limit, fs, root, t)
  }

  /** No trail enters a directory twice, and none ends at a link that does not resolve. */
  ghost predicate NoCycle(limit: nat, fs: FS, root: Path) {
    forall t :: Trail(limit, fs, root, t) ==> Distinct(t) && !Stuck(limit, fs, t[|t| - 1])
  }

  // ----- a copy that succeeds has met no cycle -----

  lemma NodeEntered(limit: nat, fs: FS, root: Path, d: Path, dest: Path, active: set<Path>, n: string, e: Path)
    requires WF(fs) && Enters(limit, fs, root, d, n, e) && CopyNode(limit, fs, root, d + [n], dest, active).Ok?
    ensures CopyNode(limit, fs, root, e, dest, active).Ok?
  {
    if e != d + [n] { ResolvedIsPhysical(fs, [], d + [n], limit); }
  }

  lemma EdgeEntered(limit: nat, fs: FS, root: Path, d: Path, dest: Path, active: set<Path>, n: string, e: Path)
    requires WF(fs) && RealDir(fs, d) && CopyNode(limit, fs, root, d, dest, active).Ok? && Enters(limit, fs, root, d, n, e)
    ensures d !in active && CopyNode(limit, fs, root, e, dest + [n], active + {d}).Ok?
  {
    DirEntry(limit, fs, root, d, dest, active, [n]);
    NodeEntered(limit, fs, root, d, dest + [n], active + {d}, n, e);
  }

  lemma CopiedIsNotStuck(limit: nat, fs: FS, root: Path, d: Path, dest: Path, active: set<Path>)
    requires WF(fs) && RealDir(fs, d) && CopyNode(limit, fs, root, d, dest, active).Ok?
    ensures d !in active && !Stuck(limit, fs, d)
  {
    forall n | d + [n] in fs ensures !Unresolvable(limit, fs, d + [n]) {
      DirEntry(limit, fs, root, d, dest, active, [n]);
    }
  }

  lemma {:induction false} CopiedTrail(limit: nat, fs: FS, root: Path, dest: Path, active: set<Path>, t: seq<Path>)
    requires WF(fs) && t != [] && Steps(limit, fs, root, t) && RealDir(fs, t[0])
    requires CopyNode(limit, fs, root, t[0], dest, active).Ok?
    ensures Distinct(t) && !Stuck(limit, fs, t[|t| - 1]) && forall i :: 0 <= i < |t| ==> t[i] !in active
    decreases |t|
  {
    CopiedIsNotStuck(limit, fs, root, t[0], dest, active);
    if |t| > 1 {
      assert Edge(limit, fs, root, t[0], t[1]);
      var n :| Enters(limit, fs, root, t[0], n, t[1]);
      EdgeEntered(limit, fs, root, t[0], dest, active, n, t[1]);
      var rest := t[1..];
      forall i | 0 <= i < |rest| - 1 ensures Edge(limit, fs, root, rest[i], rest[i + 1]) {
        assert Edge(limit, fs, root, t[i + 1], t[i + 2]);
      }
      CopiedTrail(limit, fs, root, dest + [n], active + {t[0]}, rest);
      forall i | 1 <= i < |t| ensures t[i] !in active && t[i] != t[0] { assert t[i] == rest[i - 1]; }
      forall i, j | 0 <= i < j < |t| ensures t[i] != t[j] { assert i > 0 ==> rest[i - 1] != rest[j - 1]; }
    }
  }

  lemma RootEntered(limit: nat, fs: FS, source: Path, dest: Path, n: string, e: Path)
    requires WF(fs) && Copy(limit, fs, source, dest).Ok? && Enters(limit, fs, Eval(limit, fs, source).path, Eval(limit, fs, source).path, n, e)
    ensures CopyNode(limit, fs, Eval(limit, fs, source).path, e, dest + [n], {}).Ok?
  {
    var root := Eval(limit, fs, source).path;
    TopEntry(limit, fs, source, dest, [n]);
    NodeEntered(limit, fs, root, root, dest + [n], {}, n, e);
  }

  lemma RootIsNotStuck(limit: nat, fs: FS, source: Path, dest: Path)
    requires WF(fs) && Copy(limit, fs, source, dest).Ok?
    ensures !Stuck(limit, fs, Eval(limit, fs, source).path)
  {
    var root := Eval(limit, fs, source).path;
    forall n | root + [n] in fs ensures !Unresolvable(limit, fs, root + [n]) {
      TopEntry(limit, fs, source, dest, [n]);
    }
  }

  /** The root itself is never marked as open; a trail back to it would go on to enter the
      directory after it a second time. */
  lemma CopiedTopTrail(limit: nat, fs: FS, source: Path, dest: Path, t: seq<Path>)
    requires WF(fs) && Copy(limit, fs, source, dest).Ok? && Trail(limit, fs, Eval(limit, fs, source).path, t)
    ensures Distinct(t) && !Stuck(limit, fs, t[|t| - 1])
  {
    var root := Eval(limit, fs, source).path;
    RootIsNotStuck(limit, fs, source, dest);
    if |t| > 1 {
      assert Edge(limit, fs, root, t[0], t[1]);
      var n :| Enters(limit, fs, root, root, n, t[1]);
      RootEntered(limit, fs, source, dest, n, t[1]);
      var rest := t[1..];
      forall i | 0 <= i < |rest| - 1 ensures Edge(limit, fs, root, rest[i], rest[i + 1]) {
        assert Edge(limit, fs, root, t[i + 1], t[i + 2]);
      }
      CopiedTrail(limit, fs, root, dest + [n], {}, rest);
      forall j | 1 <= j < |t| ensures t[j] != root {
        if t[j] == root { BackAtRoot(limit, fs, root, dest + [n], t, j); }
      }
      forall i, j | 0 <= i < j < |t| ensures t[i] != t[j] { assert i > 0 ==> rest[i - 1] != rest[j - 1]; }
    }
  }

  lemma BackAtRoot(limit: nat, fs: FS, root: Path, dest: Path, t: seq<Path>, j: nat)
    requires WF(fs) && Trail(limit, fs, root, t) && 1 <= j < |t| && t[j] == root
    ensures CopyNode(limit, fs, root, t[1], dest, {}).Err?
  {
    var round := t[1..j + 1] + [t[1]];
    assert Edge(limit, fs, root, t[0], t[1]);
    var n :| Enters(limit, fs, root, root, n, t[1]);
    forall i | 0 <= i < |round| - 1 ensures Edge(limit, fs, root, round[i], round[i + 1]) {
      assert i + 1 < j ==> Edge(limit, fs, root, t[i + 1], t[i + 2]);
    }
    assert round[0] == round[|round| - 1];
    if CopyNode(limit, fs, root, t[1], dest, {}).Ok? { CopiedTrail(limit, fs, root, dest, {}, round); }
  }

  // ----- without a cycle the copy succeeds -----

  lemma TrailGrows(limit: nat, fs: FS, root: Path, t: seq<Path>, n: string, e: Path)
    requires Trail(limit, fs, root, t) && RealDir(fs, t[|t| - 1]) && Enters(limit, fs, root, t[|t| - 1], n, e)
    ensures Trail(limit, fs, root, t + [e])
  {
    var longer := t + [e];
    forall i | 0 <= i < |longer| - 1 ensures Edge(limit, fs, root, longer[i], longer[i + 1]) {
      assert i < |t| - 1 ==> Edge(limit, fs, root, t[i], t[i + 1]);
    }
  }

  lemma LastIsNew(t: seq<Path>, x: Path)
    requires Distinct(t + [x])
    ensures x !in t
  {
    var longer := t + [x];
    forall i | 0 <= i < |t| ensures t[i] != x { assert longer[i] != longer[|t|]; }
  }

  lemma TrailIsGood(limit: nat, fs: FS, root: Path, t: seq<Path>, n: string)
    requires NoCycle(limit, fs, root) && Trail(limit, fs, root, t)
    ensures Distinct(t) && !Unresolvable(limit, fs, t[|t| - 1] + [n])
  {}

  lemma {:induction false} EnteredSucceeds(limit: nat, fs: FS, root: Path, source: Path, dest: Path, active: set<Path>, t: seq<Path>)
    requires WF(fs) && NoCycle(limit, fs, root) && RealDir(fs, source) && Trail(limit, fs, root, t + [source])
    requires forall d :: d in active ==> d in t
    ensures CopyNode(limit, fs, root, source, dest, active).Ok?
    decreases |Dirs(fs) - active|, 1, 0
  {
    TrailIsGood(limit, fs, root, t + [source], "");
    LastIsNew(t, source);
    ActiveGrows(fs, active, source);
    EnteredEntriesSucceed(limit, fs, root, source, dest, active + {source}, t + [source], ReadDir(fs, source));
  }

  lemma {:induction false} EntrySucceeds(limit: nat, fs: FS, root: Path, source: Path, dest: Path, active: set<Path>,
                                         t: seq<Path>, n: string)
    requires WF(fs) && NoCycle(limit, fs, root) && RealDir(fs, source) && Trail(limit, fs, root, t) && t[|t| - 1] == source
    requires (forall d :: d in active ==> d in t) && source + [n] in fs
    ensures CopyNode(limit, fs, root, source + [n], dest, active).Ok?
    decreases |Dirs(fs) - active|, 2, 0
  {
    var p := source + [n];
    TrailIsGood(limit, fs, root, t, n);
    if fs[p].Dir? {
      TrailGrows(limit, fs, root, t, n, p);
      EnteredSucceeds(limit, fs, root, p, dest, active, t);
    } else if Followed(limit, fs, root, p) {
      var target := Eval(limit, fs, p).path;
      ResolvedIsPhysical(fs, [], p, limit);
      if fs[target].Dir? {
        TrailGrows(limit, fs, root, t, n, target);
        EnteredSucceeds(limit, fs, root, target, dest, active, t);
      }
    }
  }

  lemma {:induction false} EnteredEntriesSucceed(limit: nat, fs: FS, root: Path, source: Path, dest: Path, active: set<Path>,
                                                 t: seq<Path>, names: seq<string>)
    requires WF(fs) && NoCycle(limit, fs, root) && RealDir(fs, source) && Trail(limit, fs, root, t) && t[|t| - 1] == source
    requires forall d :: d in active ==> d in t
    requires forall n :: n in names ==> source + [n] in fs
    ensures CopyEntries(limit, fs, root, source, dest, active, names).Ok?
    decreases |Dirs(fs) - active|, 3, |names|
  {
    if names != [] {
      assert names[0] in names;
      EntrySucceeds(limit, fs, root, source, dest + [names[0]], active, t, names[0]);
      EnteredEntriesSucceed(limit, fs, root, source, dest, active, t, names[1..]);
    }
  }

  /** A copy succeeds exactly when no directory can be entered again below itself, through
      child directories and followed links, and every link met on the way can be followed
      or misses its target. */
  lemma CopySucceedsExactly(limit: nat, fs: FS, source: Path, dest: Path)
    requires WF(fs) && Eval(limit, fs, source).At? && RealDir(fs, Eval(limit, fs, source).path)
    ensures Copy(limit, fs, source, dest).Ok? <==> NoCycle(limit, fs, Eval(limit, fs, source).path)
  {
    var root := Eval(limit, fs, source).path;
    if Copy(limit, fs, source, dest).Ok? {
      forall t | Trail(limit, fs, root, t) ensures Distinct(t) && !Stuck(limit, fs, t[|t| - 1]) {
        CopiedTopTrail(limit, fs, source, dest, t);
      }
    }
    if NoCycle(limit, fs, root) {
      assert Trail(limit, fs, root, [root]);
      EnteredEntriesSucceed(limit, fs, root, root, dest, {}, [root], ReadDir(fs, root));
    }
  }

  // ----- two consequences -----

  /** No link below the root leads out of the tree, or by an absolute text, to a directory. */
  ghost predicate NoDetours(limit: nat, fs: FS, root: Path) {
    forall p :: p in fs && root < p && fs[p].Link? ==> NoDetour(limit, fs, root, p)
  }

  ghost predicate NoDetour(limit: nat, fs: FS, root: Path, p: Path) {
    match Eval(limit, fs, p)
    case At(target) => Followed(limit, fs, root, p) ==> !RealDir(fs, target)
    case NoEntry => true
    case _ => false
  }

  lemma {:induction false} TrailGoesDown(limit: nat, fs: FS, root: Path, t: seq<Path>, k: nat)
    requires WF(fs) && NoDetours(limit, fs, root) && Trail(limit, fs, root, t) && k < |t|
    ensures root <= t[k] && |t[k]| == |root| + k
  {
    if k > 0 {
      TrailGoesDown(limit, fs, root, t, k - 1);
      assert Edge(limit, fs, root, t[k - 1], t[k]);
      var n :| Enters(limit, fs, root, t[k - 1], n, t[k]);
      assert root < t[k - 1] + [n];
    }
  }

  /** A tree whose links to directories all stay in it is copied without error. */
  lemma CopySucceeds(limit: nat, fs: FS, source: Path, dest: Path)
    requires WF(fs) && Eval(limit, fs, source).At? && RealDir(fs, Eval(limit, fs, source).path)
    requires NoDetours(limit, fs, Eval(limit, fs, source).path)
    ensures Copy(limit, fs, source, dest).Ok?
  {
    var root := Eval(limit, fs, source).path;
    forall t | Trail(limit, fs, root, t) ensures Distinct(t) && !Stuck(limit, fs, t[|t| - 1]) {
      forall i | 0 <= i < |t| ensures root <= t[i] && |t[i]| == |root| + i { TrailGoesDown(limit, fs, root, t, i); }
      var last := t[|t| - 1];
      forall n ensures !Unresolvable(limit, fs, last + [n]) { assert root < last + [n]; }
    }
    CopySucceedsExactly(limit, fs, source, dest);
  }

  /** The directories above root + r, from the root on. */
  function Down(root: Path, r: Path): (t: seq<Path>)
    requires r != []
    ensures |t| == |r| && forall i :: 0 <= i < |t| ==> t[i] == root + r[..i]
  {
    seq(|r|, i requires 0 <= i < |r| => root + r[..i])
  }

  lemma DownIsTrail(limit: nat, fs: FS, root: Path, r: Path)
    requires WF(fs) && r != [] && root + r in fs
    ensures Trail(limit, fs, root, Down(root, r)) && forall i :: 0 <= i < |r| ==> RealDir(fs, root + r[..i])
  {
    var t := Down(root, r);
    forall i | 0 <= i < |r| ensures RealDir(fs, root + r[..i]) { AncestorOf(fs, root + r[..i], root + r); }
    forall i | 0 <= i < |t| - 1 ensures Edge(limit, fs, root, t[i], t[i + 1]) {
      assert t[i] + [r[i]] == t[i + 1];
      assert Enters(limit, fs, root, t[i], r[i], t[i + 1]);
    }
    assert root + r[..0] == root;
  }

  /** A followed link back to a directory that holds it, the root included, is a cycle: the
      copy fails instead of going round. */
  lemma CycleFails(limit: nat, fs: FS, source: Path, dest: Path, r: Path, k: nat)
    requires WF(fs) && Eval(limit, fs, source).At? && k < |r| && Eval(limit, fs, source).path + r in fs
    requires var root := Eval(limit, fs, source).path;
      Followed(limit, fs, root, root + r) && Eval(limit, fs, root + r) == At(root + r[..k])
    ensures Copy(limit, fs, source, dest).Err?
  {
    var root := Eval(limit, fs, source).path;
    var t, n := Down(root, r), r[|r| - 1];
    DownIsTrail(limit, fs, root, r);
    assert root + r[..0] == root && t[|t| - 1] + [n] == root + r;
    TrailGrows(limit, fs, root, t, n, t[k]);
    var longer := t + [t[k]];
    assert longer[k] == longer[|t|] && !Distinct(longer);
    CopySucceedsExactly(limit, fs, source, dest);
  }
}
