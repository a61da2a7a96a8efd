/** collectPkgFiles (cmd/binman/store.go): which relative paths a stored package
    offers for linking, following directory links inside the package. */
module Collect {
  import opened Lexical
  import opened FileTree
  import opened Order
  import opened Extract

  const META_FILE := ".binman-meta"

  function Dirs(fs: FS): set<Path> {
    set p | p in fs && fs[p].Dir?
  }

  /** A store is the real directory its path names; `active` are the physical
      directories that are open above this one. */
  function WalkDir(limit: nat, fs: FS, store: Path, realStore: Path, rel: Path, active: set<Path>): Result<seq<Path>>
    decreases |Dirs(fs) - active|, 0
  {
    match Eval(limit, fs, store + rel)
    case At(dir) =>
      if !MayOpen(fs, realStore, dir, active) then Err
      else
        ActiveGrows(fs, active, dir);
        WalkEntries(limit, fs, store, realStore, rel, dir, active + {dir}, ReadDir(fs, dir))
    case _ => Err
  }

  /** The directory lies in the package, is not open already, and is one. */
  predicate MayOpen(fs: FS, realStore: Path, dir: Path, active: set<Path>) {
    (dir == realStore || WithinRoot(realStore, dir)) && dir !in active && RealDir(fs, dir)
  }

  function WalkEntries(limit: nat, fs: FS, store: Path, realStore: Path, rel: Path, dir: Path,
                       active: set<Path>, ns: seq<string>): Result<seq<Path>>
    requires forall i :: 0 <= i < |ns| ==> dir + [ns[i]] in fs
    decreases |Dirs(fs) - active|, 1 + |ns|
  {
    if ns == [] then Ok([])
    else
      var head := WalkEntry(limit, fs, store, realStore, rel, dir, active, ns[0]);
      if head.Err? then Err
      else
        var tail := WalkEntries(limit, fs, store, realStore, rel, dir, active, ns[1..]);
        if tail.Err? then Err else Ok(head.value + tail.value)
  }

  function WalkEntry(limit: nat, fs: FS, store: Path, realStore: Path, rel: Path, dir: Path,
                     active: set<Path>, n: string): Result<seq<Path>>
    requires dir + [n] in fs
    decreases |Dirs(fs) - active|, 1
  {
    var child := rel + [n];
    if child == [META_FILE] then Ok([])
    else
      match fs[dir + [n]]
      case Dir => WalkDir(limit, fs, store, realStore, child, active)
      case File(_, _) => Ok([child])
      case Link(_) =>
        match Eval(limit, fs, store + child)
        case At(t) => if RealDir(fs, t) then WalkDir(limit, fs, store, realStore, child, active) else Ok([child])
        case NoEntry => Ok([child])
        case _ => Err
  }

  /** The measure of the walk: directories that are not open. */
  lemma ActiveGrows(fs: FS, active: set<Path>, dir: Path)
    requires RealDir(fs, dir) && dir !in active
    ensures |Dirs(fs) - (active + {dir})| < |Dirs(fs) - active|
  {
    assert dir in Dirs(fs) - active;
    assert Dirs(fs) - (active + {dir}) == (Dirs(fs) - active) - {dir};
  }

  function CollectFiles(limit: nat, fs: FS, store: Path): Result<seq<Path>> {
    match Eval(limit, fs, store)
    case At(resolved) => WalkDir(limit, fs, store, resolved, [], {})
    case _ => Err
  }

  // ----- the collected paths are distinct and none lies above another -----

  ghost predicate Antichain(files: seq<Path>) {
    forall i, j :: 0 <= i < |files| && 0 <= j < |files| && i != j ==> !(files[i] <= files[j])
  }

  /** Paths through one of the names `ns` below `rel`, all usable as destinations. */
  ghost predicate Through(rel: Path, ns: seq<string>, files: seq<Path>) {
    forall i :: 0 <= i < |files| ==>
      rel < files[i] && files[i][|rel|] in ns && Names(files[i]) && files[i] != [META_FILE]
  }

  lemma {:induction false} WalkDirShape(limit: nat, fs: FS, store: Path, realStore: Path, rel: Path, active: set<Path>)
    requires WF(fs) && Names(rel)
    ensures var r := WalkDir(limit, fs, store, realStore, rel, active);
      r.Ok? ==> Antichain(r.value) && exists ns :: Through(rel, ns, r.value)
    decreases |Dirs(fs) - active|, 0
  {
    var r := WalkDir(limit, fs, store, realStore, rel, active);
    if r.Ok? {
      var dir := Eval(limit, fs, store + rel).path;
      ActiveGrows(fs, active, dir);
      WalkEntriesShape(limit, fs, store, realStore, rel, dir, active + {dir}, ReadDir(fs, dir));
      assert Through(rel, ReadDir(fs, dir), r.value);
    }
  }

  lemma {:induction false} WalkEntriesShape(limit: nat, fs: FS, store: Path, realStore: Path, rel: Path, dir: Path,
                                            active: set<Path>, ns: seq<string>)
    requires WF(fs) && Names(rel) && Distinct(ns) && forall i :: 0 <= i < |ns| ==> dir + [ns[i]] in fs
    ensures var r := WalkEntries(limit, fs, store, realStore, rel, dir, active, ns);
      r.Ok? ==> Antichain(r.value) && Through(rel, ns, r.value)
    decreases |Dirs(fs) - active|, 1 + |ns|
  {
    if ns != [] {
      var head := WalkEntry(limit, fs, store, realStore, rel, dir, active, ns[0]);
      var tail := WalkEntries(limit, fs, store, realStore, rel, dir, active, ns[1..]);
      WalkEntryShape(limit, fs, store, realStore, rel, dir, active, ns[0]);
      WalkEntriesShape(limit, fs, store, realStore, rel, dir, active, ns[1..]);
      if head.Ok? && tail.Ok? {
        ShapesJoin(rel, ns, head.value, tail.value);
      }
    }
  }

  lemma ShapesJoin(rel: Path, ns: seq<string>, head: seq<Path>, tail: seq<Path>)
    requires ns != [] && Distinct(ns)
    requires Antichain(head) && Through(rel, [ns[0]], head)
    requires Antichain(tail) && Through(rel, ns[1..], tail)
    ensures Antichain(head + tail) && Through(rel, ns, head + tail)
  {
    var files := head + tail;
    forall i, j | 0 <= i < |files| && 0 <= j < |files| && i != j ensures !(files[i] <= files[j]) {
      if i < |head| <= j || j < |head| <= i {
        assert files[i][|rel|] != files[j][|rel|];
      }
    }
  }

  lemma {:induction false} WalkEntryShape(limit: nat, fs: FS, store: Path, realStore: Path, rel: Path, dir: Path,
                                          active: set<Path>, n: string)
    requires WF(fs) && Names(rel) && dir + [n] in fs
    ensures var r := WalkEntry(limit, fs, store, realStore, rel, dir, active, n);
      r.Ok? ==> Antichain(r.value) && Through(rel, [n], r.value)
    decreases |Dirs(fs) - active|, 1
  {
    var child := rel + [n];
    assert (dir + [n])[|dir|] == n && Names(child);
    var r := WalkEntry(limit, fs, store, realStore, rel, dir, active, n);
    if r.Ok? && r.value != [] && r.value != [child] {
      WalkDirShape(limit, fs, store, realStore, child, active);
      var ns :| Through(child, ns, r.value);
    }
  }

  /** Destinations for one package: distinct, none above another, all real names. */
  ghost predicate Linkable(files: seq<Path>) {
    && Antichain(files)
    && forall i :: 0 <= i < |files| ==> files[i] != [] && Names(files[i]) && files[i] != [META_FILE]
  }

  lemma CollectedAreLinkable(limit: nat, fs: FS, store: Path)
    requires WF(fs)
    ensures CollectFiles(limit, fs, store).Ok? ==> Linkable(CollectFiles(limit, fs, store).value)
  {
    var resolved := Eval(limit, fs, store);
    if resolved.At? { WalkDirShape(limit, fs, store, resolved.path, [], {}); }
  }

  /** Each collected path starts with a name that the package has at its top. */
  lemma CollectedHeads(limit: nat, fs: FS, store: Path)
    requires WF(fs) && RealAbove(fs, store) && Names(store) && (store in fs ==> !fs[store].Link?)
    ensures var r := CollectFiles(limit, fs, store);
      r.Ok? ==> RealDir(fs, store) && forall i :: 0 <= i < |r.value| ==> r.value[i] != [] && store + [r.value[i][0]] in fs
  {
    var r := CollectFiles(limit, fs, store);
    if store !in fs {
      EvalMissing(limit, fs, store);
    } else {
      EvalPhysical(limit, fs, store);
      assert store + [] == store;
      if r.Ok? {
        var ns := ReadDir(fs, store);
        ActiveGrows(fs, {}, store);
        assert {} + {store} == {store};
        WalkEntriesShape(limit, fs, store, store, [], store, {store}, ns);
        forall i | 0 <= i < |r.value| ensures r.value[i] != [] && store + [r.value[i][0]] in fs {
          assert r.value[i][0] in ns;
        }
      }
    }
  }

  // ----- a confined package collects the same files wherever it lies -----

  ghost predicate Twins(fs: FS, d: Path, fs': FS, d': Path) {
    WF(fs) && WF(fs') && RealDir(fs, d) && RealDir(fs', d') && Alike(fs, d, fs', d') && Confined(fs, d)
  }

  function Shift(d: Path, rs: set<Path>): set<Path> {
    set r | r in rs :: d + r
  }

  lemma EvalTwins(limit: nat, fs: FS, d: Path, fs': FS, d': Path, rel: Path) returns (r: Path)
    requires Twins(fs, d, fs', d') && Names(rel)
    ensures SameResolved(Eval(limit, fs, d + rel), d, Eval(limit, fs', d' + rel), d', r)
  {
    EvalBelow(limit, fs, d, rel);
    EvalBelow(limit, fs', d', rel);
    UpsThenNames(0, rel);
    assert Ups(0) + rel == rel && d + [] == d && d' + [] == d';
    r := ResolveAlike(fs, d, fs', d', [], rel, limit);
  }

  lemma ShiftIn(d: Path, rs: set<Path>, r: Path)
    ensures d + r in Shift(d, rs) <==> r in rs
  {
    if d + r in Shift(d, rs) {
      var x :| x in rs && d + x == d + r;
      assert (d + x)[|d|..] == x && (d + r)[|d|..] == r;
    }
  }

  lemma ReadDirTwins(fs: FS, d: Path, fs': FS, d': Path, r: Path)
    requires Twins(fs, d, fs', d')
    ensures ReadDir(fs, d + r) == ReadDir(fs', d' + r)
  {
    forall n ensures d + r + [n] in fs <==> d' + r + [n] in fs' {
      assert d + r + [n] == d + (r + [n]) && d' + r + [n] == d' + (r + [n]);
    }
    assert Children(fs, d + r) == Children(fs', d' + r);
  }

  lemma {:induction false} WalkDirTwins(limit: nat, fs: FS, d: Path, fs': FS, d': Path, rel: Path, active: set<Path>)
    requires Twins(fs, d, fs', d') && Names(rel)
    ensures WalkDir(limit, fs, d, d, rel, Shift(d, active)) == WalkDir(limit, fs', d', d', rel, Shift(d', active))
    decreases |Dirs(fs) - Shift(d, active)|, 0
  {
    var r := EvalTwins(limit, fs, d, fs', d', rel);
    if Eval(limit, fs, d + rel).At? {
      MayOpenTwins(fs, d, fs', d', r, active);
      if MayOpen(fs, d, d + r, Shift(d, active)) {
        ActiveGrows(fs, Shift(d, active), d + r);
        ActiveGrows(fs', Shift(d', active), d' + r);
        WalkEntriesTwins(limit, fs, d, fs', d', rel, r, active + {r}, ReadDir(fs, d + r));
      }
    }
  }

  lemma MayOpenTwins(fs: FS, d: Path, fs': FS, d': Path, r: Path, active: set<Path>)
    requires Twins(fs, d, fs', d')
    ensures MayOpen(fs, d, d + r, Shift(d, active)) <==> MayOpen(fs', d', d' + r, Shift(d', active))
    ensures Shift(d, active) + {d + r} == Shift(d, active + {r})
    ensures Shift(d', active) + {d' + r} == Shift(d', active + {r})
    ensures ReadDir(fs, d + r) == ReadDir(fs', d' + r)
  {
    ShiftIn(d, active, r);
    ShiftIn(d', active, r);
    ReadDirTwins(fs, d, fs', d', r);
    assert d <= d + r && d' <= d' + r;
    assert r == [] ==> d + r == d && d' + r == d';
    assert RealDir(fs, d + r) <==> RealDir(fs', d' + r);
  }

  lemma {:induction false} WalkEntriesTwins(limit: nat, fs: FS, d: Path, fs': FS, d': Path, rel: Path, r: Path,
                                            active: set<Path>, ns: seq<string>)
    requires Twins(fs, d, fs', d') && Names(rel)
    requires forall i :: 0 <= i < |ns| ==> d + r + [ns[i]] in fs && d' + r + [ns[i]] in fs'
    ensures WalkEntries(limit, fs, d, d, rel, d + r, Shift(d, active), ns)
         == WalkEntries(limit, fs', d', d', rel, d' + r, Shift(d', active), ns)
    decreases |Dirs(fs) - Shift(d, active)|, 1 + |ns|
  {
    if ns != [] {
      WalkEntryTwins(limit, fs, d, fs', d', rel, r, active, ns[0]);
      WalkEntriesTwins(limit, fs, d, fs', d', rel, r, active, ns[1..]);
    }
  }

  lemma {:induction false} WalkEntryTwins(limit: nat, fs: FS, d: Path, fs': FS, d': Path, rel: Path, r: Path,
                                          active: set<Path>, n: string)
    requires Twins(fs, d, fs', d') && Names(rel) && d + r + [n] in fs && d' + r + [n] in fs'
    ensures WalkEntry(limit, fs, d, d, rel, d + r, Shift(d, active), n)
         == WalkEntry(limit, fs', d', d', rel, d' + r, Shift(d', active), n)
    decreases |Dirs(fs) - Shift(d, active)|, 1
  {
    var child := rel + [n];
    assert d + r + [n] == d + (r + [n]) && d' + r + [n] == d' + (r + [n]);
    assert Names(child) by { assert (d + r + [n])[|d + r|] == n; }
    var t := EvalTwins(limit, fs, d, fs', d', child);
    WalkDirTwins(limit, fs, d, fs', d', child, active);
  }

  /** Relocating a confined package, or changing only what its files hold, does not
      change what it offers for linking. */
  lemma CollectRelocates(limit: nat, fs: FS, d: Path, fs': FS, d': Path)
    requires Twins(fs, d, fs', d')
    ensures CollectFiles(limit, fs, d) == CollectFiles(limit, fs', d')
  {
    EvalPhysical(limit, fs, d);
    EvalPhysical(limit, fs', d');
    assert Shift(d, {}) == {} && Shift(d', {}) == {};
    WalkDirTwins(limit, fs, d, fs', d', [], {});
  }

  // ----- nothing the package holds is missed -----

  lemma {:induction false} EntriesInclude(limit: nat, fs: FS, store: Path, realStore: Path, rel: Path, dir: Path,
                                          active: set<Path>, ns: seq<string>, k: nat)
    requires k < |ns| && forall i :: 0 <= i < |ns| ==> dir + [ns[i]] in fs
    requires WalkEntries(limit, fs, store, realStore, rel, dir, active, ns).Ok?
    ensures var head := WalkEntry(limit, fs, store, realStore, rel, dir, active, ns[k]);
      head.Ok? && forall f :: f in head.value ==> f in WalkEntries(limit, fs, store, realStore, rel, dir, active, ns).value
    decreases |ns|
  {
    if k > 0 {
      EntriesInclude(limit, fs, store, realStore, rel, dir, active, ns[1..], k - 1);
    }
  }

  lemma {:induction false} WalkFinds(limit: nat, fs: FS, store: Path, rel: Path, active: set<Path>, p: Path)
    requires WF(fs) && RealDir(fs, store + rel) && rel < p && store + p in fs && !fs[store + p].Dir?
    requires p[0] != META_FILE && !(Eval(limit, fs, store + p).At? && RealDir(fs, Eval(limit, fs, store + p).path))
    requires WalkDir(limit, fs, store, store, rel, active).Ok?
    ensures p in WalkDir(limit, fs, store, store, rel, active).value
    decreases |p| - |rel|
  {
    EvalPhysical(limit, fs, store + rel);
    var dir := store + rel;
    var n := p[|rel|];
    var child := rel + [n];
    assert child <= p && store + child <= store + p && dir + [n] == store + child && child[0] == p[0];
    if child != p {
      assert store + child != store + p by { assert |store + child| < |store + p|; }
      AncestorOf(fs, store + child, store + p);
    }
    var k :| 0 <= k < |ReadDir(fs, dir)| && ReadDir(fs, dir)[k] == n;
    EntriesInclude(limit, fs, store, store, rel, dir, active + {dir}, ReadDir(fs, dir), k);
    var head := WalkEntry(limit, fs, store, store, rel, dir, active + {dir}, n);
    if child != p {
      assert head == WalkDir(limit, fs, store, store, child, active + {dir});
      WalkFinds(limit, fs, store, child, active + {dir}, p);
    } else {
      assert head == Ok([p]) && p in head.value;
    }
  }

  /** Every file of the package, and every link that does not lead to a directory,
      is offered under its own relative path. */
  lemma CollectIsComplete(limit: nat, fs: FS, store: Path, p: Path)
    requires WF(fs) && RealDir(fs, store) && CollectFiles(limit, fs, store).Ok?
    requires p != [] && p[0] != META_FILE && store + p in fs && !fs[store + p].Dir?
    requires !(Eval(limit, fs, store + p).At? && RealDir(fs, Eval(limit, fs, store + p).path))
    ensures p in CollectFiles(limit, fs, store).value
  {
    EvalPhysical(limit, fs, store);
    assert store + [] == store;
    WalkFinds(limit, fs, store, [], {}, p);
  }
}
