/** What collectPkgFiles (cmd/binman/store.go) returns, read off the package by resolving
    paths alone: exactly which paths, and exactly when it fails. */
module Collected {
  import opened Lexical
  import opened FileTree
  import opened Extract
  import opened Collect

  /** The physical place a path leads to. */
  function Place(limit: nat, fs: FS, p: Path): Path {
    match Eval(limit, fs, p)
    case At(q) => q
    case _ => []
  }

  /** The path does not go through the metadata file, and above it are directories, entered
      by their names or through links. */
  ghost predicate BelowDirs(limit: nat, fs: FS, store: Path, r: Path) {
    Names(r) && (r != [] ==> r[0] != META_FILE) && forall k :: 0 <= k < |r| ==> LeadsToDir(limit, fs, store + r[..k])
  }

  /** The last name of p is, in the directory the rest of p leads to, a file or a link that
      leads to no directory. */
  ghost predicate Offers(limit: nat, fs: FS, store: Path, p: Path) {
    && p != [] && BelowDirs(limit, fs, store, p)
    && var entry := Place(limit, fs, store + Parent(p)) + [p[|p| - 1]];
       entry in fs && (fs[entry].File? || (fs[entry].Link? && !LeadsToDir(limit, fs, store + p)))
  }

  /** The directory that r leads to lies in the package, is none of those above it, and each
      link in it can be followed or misses its target. */
  ghost predicate Passable(limit: nat, fs: FS, store: Path, r: Path) {
    var dir, root := Place(limit, fs, store + r), Place(limit, fs, store);
    && (dir == root || WithinRoot(root, dir))
    && (forall k :: 0 <= k < |r| ==> Place(limit, fs, store + r[..k]) != dir)
    && (forall n :: dir + [n] in fs && fs[dir + [n]].Link? && r + [n] != [META_FILE] ==>
          var target := Eval(limit, fs, store + (r + [n]));
          target.At? || target.NoEntry?)
  }

  ghost predicate Walkable(limit: nat, fs: FS, store: Path) {
    && LeadsToDir(limit, fs, store)
    && forall r :: BelowDirs(limit, fs, store, r) && LeadsToDir(limit, fs, store + r) ==> Passable(limit, fs, store, r)
  }

  // ----- one more name on a path that leads to a directory -----

  lemma {:induction false} ResolveOnFrom(fs: FS, cur: Path, a: Text, b: Text, fuel: nat, dir: Path) returns (left: nat)
    requires Resolve(fs, cur, a, fuel) == At(dir) && RealDir(fs, dir)
    ensures Resolve(fs, cur, a + b, fuel) == Resolve(fs, dir, b, left)
    decreases fuel, |a|
  {
    if a == [] {
      assert a + b == b;
      left := fuel;
    } else {
      assert (a + b)[0] == a[0] && (a + b)[1..] == a[1..] + b;
      var child := cur + [a[0]];
      if !IsName(a[0]) {
        left := ResolveOnFrom(fs, Advance(cur, a[0]), a[1..], b, fuel, dir);
      } else if fs[child].Dir? {
        left := ResolveOnFrom(fs, child, a[1..], b, fuel, dir);
      } else {
        var text := fs[child].text;
        assert text + (a[1..] + b) == text + a[1..] + b;
        left := ResolveOnFrom(fs, if IsAbs(text) then [] else cur, text + a[1..], b, fuel - 1, dir);
      }
    }
  }

  /** An entry of the directory that p leads to, reached through p. */
  lemma EntryEval(limit: nat, fs: FS, p: Path, n: string)
    requires LeadsToDir(limit, fs, p) && IsName(n)
    ensures var e := Place(limit, fs, p) + [n];
      if e !in fs then Eval(limit, fs, p + [n]) == NoEntry
      else !fs[e].Link? ==> Eval(limit, fs, p + [n]) == At(e)
  {
    var left := ResolveOnFrom(fs, [], p, [n], limit, Place(limit, fs, p));
  }

  lemma ChildBelowDirs(limit: nat, fs: FS, store: Path, rel: Path, n: string)
    requires BelowDirs(limit, fs, store, rel) && LeadsToDir(limit, fs, store + rel)
    requires IsName(n) && rel + [n] != [META_FILE]
    ensures BelowDirs(limit, fs, store, rel + [n])
  {
    var child := rel + [n];
    forall k | 0 <= k < |child| ensures LeadsToDir(limit, fs, store + child[..k]) {
      if k == |rel| { assert child[..k] == rel; } else { assert child[..k] == rel[..k]; }
    }
  }

  lemma ParentBelowDirs(limit: nat, fs: FS, store: Path, r: Path)
    requires BelowDirs(limit, fs, store, r) && r != []
    ensures BelowDirs(limit, fs, store, Parent(r)) && LeadsToDir(limit, fs, store + Parent(r))
    ensures store + r == store + Parent(r) + [r[|r| - 1]] && Parent(r) + [r[|r| - 1]] == r
  {
    var q := Parent(r);
    assert r[..|q|] == q;
    forall k | 0 <= k < |q| ensures LeadsToDir(limit, fs, store + q[..k]) { assert q[..k] == r[..k]; }
  }

  // ----- only what the package offers is collected -----

  lemma {:induction false} WalkDirOffers(limit: nat, fs: FS, store: Path, realStore: Path, rel: Path, active: set<Path>, p: Path)
    requires WF(fs) && BelowDirs(limit, fs, store, rel)
    requires WalkDir(limit, fs, store, realStore, rel, active).Ok? && p in WalkDir(limit, fs, store, realStore, rel, active).value
    ensures Offers(limit, fs, store, p)
    decreases |Dirs(fs) - active|, 0
  {
    var dir := Place(limit, fs, store + rel);
    ActiveGrows(fs, active, dir);
    WalkEntriesOffers(limit, fs, store, realStore, rel, active + {dir}, ReadDir(fs, dir), p);
  }

  lemma {:induction false} WalkEntriesOffers(limit: nat, fs: FS, store: Path, realStore: Path, rel: Path, active: set<Path>,
                                             ns: seq<string>, p: Path)
    requires WF(fs) && BelowDirs(limit, fs, store, rel) && LeadsToDir(limit, fs, store + rel)
    requires forall i :: 0 <= i < |ns| ==> Place(limit, fs, store + rel) + [ns[i]] in fs
    requires var r := WalkEntries(limit, fs, store, realStore, rel, Place(limit, fs, store + rel), active, ns); r.Ok? && p in r.value
    ensures Offers(limit, fs, store, p)
    decreases |Dirs(fs) - active|, 1 + |ns|
  {
    if p in WalkEntry(limit, fs, store, realStore, rel, Place(limit, fs, store + rel), active, ns[0]).value {
      WalkEntryOffers(limit, fs, store, realStore, rel, active, ns[0], p);
    } else {
      WalkEntriesOffers(limit, fs, store, realStore, rel, active, ns[1..], p);
    }
  }

  lemma {:induction false} WalkEntryOffers(limit: nat, fs: FS, store: Path, realStore: Path, rel: Path, active: set<Path>,
                                           n: string, p: Path)
    requires WF(fs) && BelowDirs(limit, fs, store, rel) && LeadsToDir(limit, fs, store + rel)
    requires Place(limit, fs, store + rel) + [n] in fs
    requires var r := WalkEntry(limit, fs, store, realStore, rel, Place(limit, fs, store + rel), active, n); r.Ok? && p in r.value
    ensures Offers(limit, fs, store, p)
    decreases |Dirs(fs) - active|, 1
  {
    var child, dir := rel + [n], Place(limit, fs, store + rel);
    assert IsName(n) by { assert (dir + [n])[|dir|] == n; }
    assert store + child == store + rel + [n] && Parent(child) == rel;
    ChildBelowDirs(limit, fs, store, rel, n);
    if fs[dir + [n]].Dir? || (fs[dir + [n]].Link? && LeadsToDir(limit, fs, store + child)) {
      WalkDirOffers(limit, fs, store, realStore, child, active, p);
    }
  }

  // ----- everything the package offers is collected -----

  /** The directories that are open above r. */
  function Above(limit: nat, fs: FS, store: Path, r: Path): set<Path> {
    set k | 0 <= k < |r| :: Place(limit, fs, store + r[..k])
  }

  lemma AboveGrows(limit: nat, fs: FS, store: Path, r: Path, n: string)
    ensures Above(limit, fs, store, r + [n]) == Above(limit, fs, store, r) + {Place(limit, fs, store + r)}
  {
    var child := r + [n];
    forall k | 0 <= k < |r| ensures child[..k] == r[..k] {}
    assert child[..|r|] == r;
    forall d | d in Above(limit, fs, store, r) ensures d in Above(limit, fs, store, child) {
      var k :| 0 <= k < |r| && d == Place(limit, fs, store + r[..k]);
      assert d == Place(limit, fs, store + child[..k]);
    }
    assert Place(limit, fs, store + child[..|r|]) in Above(limit, fs, store, child);
  }

  /** What one entry of the directory at r adds, once the walk of r succeeded. */
  lemma EntryTaken(limit: nat, fs: FS, store: Path, realStore: Path, r: Path, n: string)
    requires WalkDir(limit, fs, store, realStore, r, Above(limit, fs, store, r)).Ok?
    requires Place(limit, fs, store + r) + [n] in fs
    ensures var dir := Place(limit, fs, store + r);
      var head := WalkEntry(limit, fs, store, realStore, r, dir, Above(limit, fs, store, r + [n]), n);
      head.Ok? && forall f :: f in head.value ==> f in WalkDir(limit, fs, store, realStore, r, Above(limit, fs, store, r)).value
  {
    var dir, active := Place(limit, fs, store + r), Above(limit, fs, store, r);
    ActiveGrows(fs, active, dir);
    AboveGrows(limit, fs, store, r, n);
    var ns := ReadDir(fs, dir);
    var k :| 0 <= k < |ns| && ns[k] == n;
    EntriesInclude(limit, fs, store, realStore, r, dir, active + {dir}, ns, k);
  }

  lemma {:induction false} Reaches(limit: nat, fs: FS, store: Path, realStore: Path, r: Path)
    requires WF(fs) && WalkDir(limit, fs, store, realStore, [], {}).Ok?
    requires BelowDirs(limit, fs, store, r) && LeadsToDir(limit, fs, store + r)
    ensures var here := WalkDir(limit, fs, store, realStore, r, Above(limit, fs, store, r));
      here.Ok? && forall f :: f in here.value ==> f in WalkDir(limit, fs, store, realStore, [], {}).value
    decreases |r|
  {
    if r == [] {
      assert Above(limit, fs, store, r) == {};
    } else {
      var q, n := Parent(r), r[|r| - 1];
      ParentBelowDirs(limit, fs, store, r);
      Reaches(limit, fs, store, realStore, q);
      EntryEval(limit, fs, store + q, n);
      EntryTaken(limit, fs, store, realStore, q, n);
    }
  }

  lemma OfferedIsCollected(limit: nat, fs: FS, store: Path, realStore: Path, p: Path)
    requires WF(fs) && WalkDir(limit, fs, store, realStore, [], {}).Ok? && Offers(limit, fs, store, p)
    ensures p in WalkDir(limit, fs, store, realStore, [], {}).value
  {
    var q, n := Parent(p), p[|p| - 1];
    ParentBelowDirs(limit, fs, store, p);
    Reaches(limit, fs, store, realStore, q);
    EntryTaken(limit, fs, store, realStore, q, n);
    var head := WalkEntry(limit, fs, store, realStore, q, Place(limit, fs, store + q), Above(limit, fs, store, p), n);
    assert head == Ok([p]) && p in head.value;
  }

  /** A path is collected exactly when its last name is a file, or a link to no directory,
      in a directory that the names before it lead to, through links or not. */
  lemma CollectedExactly(limit: nat, fs: FS, store: Path, p: Path)
    requires WF(fs) && CollectFiles(limit, fs, store).Ok?
    ensures p in CollectFiles(limit, fs, store).value <==> Offers(limit, fs, store, p)
  {
    var realStore := Place(limit, fs, store);
    assert store + [] == store;
    if p in CollectFiles(limit, fs, store).value { WalkDirOffers(limit, fs, store, realStore, [], {}, p); }
    if Offers(limit, fs, store, p) { OfferedIsCollected(limit, fs, store, realStore, p); }
  }

  // ----- when the walk succeeds -----

  lemma PassedOn(limit: nat, fs: FS, store: Path, r: Path)
    requires WF(fs) && CollectFiles(limit, fs, store).Ok?
    requires BelowDirs(limit, fs, store, r) && LeadsToDir(limit, fs, store + r)
    ensures Passable(limit, fs, store, r)
  {
    var root, dir := Place(limit, fs, store), Place(limit, fs, store + r);
    Reaches(limit, fs, store, root, r);
    forall k | 0 <= k < |r| ensures Place(limit, fs, store + r[..k]) != dir {
      assert Place(limit, fs, store + r[..k]) in Above(limit, fs, store, r);
    }
    forall n | dir + [n] in fs && fs[dir + [n]].Link? && r + [n] != [META_FILE]
      ensures var target := Eval(limit, fs, store + (r + [n])); target.At? || target.NoEntry?
    {
      EntryTaken(limit, fs, store, root, r, n);
    }
  }

  lemma {:induction false} DirPasses(limit: nat, fs: FS, store: Path, r: Path, active: set<Path>)
    requires WF(fs) && Walkable(limit, fs, store) && active == Above(limit, fs, store, r)
    requires BelowDirs(limit, fs, store, r) && LeadsToDir(limit, fs, store + r)
    ensures WalkDir(limit, fs, store, Place(limit, fs, store), r, active).Ok?
    decreases |Dirs(fs) - active|, 0
  {
    var dir := Place(limit, fs, store + r);
    assert Passable(limit, fs, store, r);
    ActiveGrows(fs, active, dir);
    EntriesPass(limit, fs, store, r, active + {dir}, ReadDir(fs, dir));
  }

  lemma {:induction false} EntriesPass(limit: nat, fs: FS, store: Path, r: Path, active: set<Path>, ns: seq<string>)
    requires WF(fs) && Walkable(limit, fs, store) && active == Above(limit, fs, store, r) + {Place(limit, fs, store + r)}
    requires BelowDirs(limit, fs, store, r) && LeadsToDir(limit, fs, store + r)
    requires forall i :: 0 <= i < |ns| ==> Place(limit, fs, store + r) + [ns[i]] in fs
    ensures WalkEntries(limit, fs, store, Place(limit, fs, store), r, Place(limit, fs, store + r), active, ns).Ok?
    decreases |Dirs(fs) - active|, 1 + |ns|
  {
    if ns != [] {
      EntryPasses(limit, fs, store, r, active, ns[0]);
      EntriesPass(limit, fs, store, r, active, ns[1..]);
    }
  }

  lemma {:induction false} EntryPasses(limit: nat, fs: FS, store: Path, r: Path, active: set<Path>, n: string)
    requires WF(fs) && Walkable(limit, fs, store) && active == Above(limit, fs, store, r) + {Place(limit, fs, store + r)}
    requires BelowDirs(limit, fs, store, r) && LeadsToDir(limit, fs, store + r) && Place(limit, fs, store + r) + [n] in fs
    ensures WalkEntry(limit, fs, store, Place(limit, fs, store), r, Place(limit, fs, store + r), active, n).Ok?
    decreases |Dirs(fs) - active|, 1
  {
    var dir, child := Place(limit, fs, store + r), r + [n];
    if child != [META_FILE] {
      assert IsName(n) by { assert (dir + [n])[|dir|] == n; }
      assert store + child == store + r + [n] && Passable(limit, fs, store, r);
      EntryEval(limit, fs, store + r, n);
      if LeadsToDir(limit, fs, store + child) {
        ChildBelowDirs(limit, fs, store, r, n);
        AboveGrows(limit, fs, store, r, n);
        DirPasses(limit, fs, store, child, active);
      }
    }
  }

  /** The walk succeeds exactly when no path through the package comes to a directory again
      below itself or to one outside, and every link on the way can be followed or misses. */
  lemma CollectSucceedsExactly(limit: nat, fs: FS, store: Path)
    requires WF(fs)
    ensures CollectFiles(limit, fs, store).Ok? <==> Walkable(limit, fs, store)
  {
    assert store + [] == store;
    if CollectFiles(limit, fs, store).Ok? {
      forall r | BelowDirs(limit, fs, store, r) && LeadsToDir(limit, fs, store + r) ensures Passable(limit, fs, store, r) {
        PassedOn(limit, fs, store, r);
      }
    }
    if Walkable(limit, fs, store) {
      assert Above(limit, fs, store, []) == {};
      DirPasses(limit, fs, store, [], {});
    }
  }
}
