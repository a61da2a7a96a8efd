/** The order of the walks: archives (cmd/artifact/archive.go) and what a package offers
    (cmd/binman/store.go) are listed by names, directory by directory. */
module Walks {
  import opened Lexical
  import opened FileTree
  import opened Order
  import Extract
  import opened Archive
  import opened Collect

  /** The paths agree up to the k-th name, and there a's comes first. */
  predicate Parts(a: Path, b: Path, k: nat) {
    k < |a| && k < |b| && a[..k] == b[..k] && Less(a[k], b[k])
  }

  /** a lies above b, or comes first by name where they part. */
  ghost predicate Precedes(a: Path, b: Path) {
    a < b || exists k :: Parts(a, b, k)
  }

  ghost predicate InOrder(ps: seq<Path>) {
    forall i, j :: 0 <= i < j < |ps| ==> Precedes(ps[i], ps[j])
  }

  predicate Increasing(ns: seq<string>) {
    forall i, j :: 0 <= i < j < |ns| ==> Less(ns[i], ns[j])
  }

  lemma ReadDirIncreasing(fs: FS, d: Path)
    ensures Increasing(ReadDir(fs, d))
  {}

  /** Everything in the first list goes through the name n, everything in the second through
      later ones. */
  lemma BlocksInOrder(p: Path, n: string, ns: seq<string>, first: seq<Path>, rest: seq<Path>)
    requires InOrder(first) && InOrder(rest)
    requires forall x :: x in first ==> p + [n] <= x
    requires forall y :: y in rest ==> p < y && y[|p|] in ns
    requires forall m :: m in ns ==> Less(n, m)
    ensures InOrder(first + rest)
  {
    var all := first + rest;
    forall i, j | 0 <= i < j < |all| ensures Precedes(all[i], all[j]) {
      if i < |first| <= j {
        assert all[i] in first && all[j] in rest;
        assert all[i][|p|] == (p + [n])[|p|] == n && all[i][..|p|] == p == all[j][..|p|];
        assert Parts(all[i], all[j], |p|);
      } else if j < |first| {
        assert all[i] == first[i] && all[j] == first[j];
      } else {
        assert all[i] == rest[i - |first|] && all[j] == rest[j - |first|];
      }
    }
  }

  lemma IncreasingTail(ns: seq<string>)
    requires Increasing(ns) && ns != []
    ensures Increasing(ns[1..]) && Distinct(ns) && forall m :: m in ns[1..] ==> Less(ns[0], m)
  {}

  lemma TopFirst(p: Path, rest: seq<Path>)
    requires InOrder(rest) && forall x :: x in rest ==> p < x
    ensures InOrder([p] + rest)
  {
    var all := [p] + rest;
    forall i, j | 0 <= i < j < |all| ensures Precedes(all[i], all[j]) {
      assert all[j] == rest[j - 1] && rest[j - 1] in rest;
      assert i > 0 ==> all[i] == rest[i - 1];
    }
  }

  // ----- the archive's walk -----

  lemma {:induction false} PreorderInOrder(fs: FS, p: Path)
    requires WF(fs) && p in fs
    ensures InOrder(Preorder(fs, p))
    decreases |Below(fs, p)|, 1, 0
  {
    if fs[p].Dir? {
      var ns := ReadDir(fs, p);
      ReadDirIncreasing(fs, p);
      PreorderAllInOrder(fs, p, ns);
      PreorderAllFacts(fs, p, ns);
      TopFirst(p, PreorderAll(fs, p, ns));
    }
  }

  lemma {:induction false} PreorderAllInOrder(fs: FS, p: Path, ns: seq<string>)
    requires WF(fs) && p in fs && Increasing(ns) && forall n :: n in ns ==> p + [n] in fs
    ensures InOrder(PreorderAll(fs, p, ns))
    decreases |Below(fs, p)|, 0, |ns|
  {
    if ns != [] {
      BelowShrinks(fs, p, ns[0]);
      IncreasingTail(ns);
      PreorderInOrder(fs, p + [ns[0]]);
      PreorderAllInOrder(fs, p, ns[1..]);
      PreorderFacts(fs, p + [ns[0]]);
      PreorderAllFacts(fs, p, ns[1..]);
      BlocksInOrder(p, ns[0], ns[1..], Preorder(fs, p + [ns[0]]), PreorderAll(fs, p, ns[1..]));
    }
  }

  /** The header names the node by its path below the archive's name, a directory with a slash
      at the end, and the body is the node's; a file may always be written by its owner. */
  predicate IsEntryOf(e: Extract.Entry, name: string, r: Path, node: Node) {
    && e.name == [name] + r + (if node.Dir? then [""] else [])
    && match node
       case Dir => e.body.DirBody?
       case File(content, mode) => e.body == Extract.RegBody(content, mode | 0x80)
       case Link(text) => e.body == Extract.SymBody(text)
  }

  lemma {:induction false} EntriesAre(fs: FS, root: Path, name: string, ps: seq<Path>, k: nat, i: nat)
    requires AllUnder(fs, root, ps) && k + i < |ps|
    ensures var es := EntriesFrom(fs, root, name, ps, k);
      |es| == |ps| - k && IsEntryOf(es[i], name, ps[k + i][|root|..], fs[ps[k + i]])
    decreases |ps| - k
  {
    if i > 0 { EntriesAre(fs, root, name, ps, k + 1, i - 1); }
    else if k + 1 < |ps| { EntriesAre(fs, root, name, ps, k + 1, 0); }
  }

  lemma PrecedesBelow(root: Path, a: Path, b: Path)
    requires Precedes(root + a, root + b)
    ensures Precedes(a, b)
  {
    var x, y := root + a, root + b;
    assert x[|root|..] == a && y[|root|..] == b;
    if !(x < y) {
      var k: nat :| Parts(x, y, k);
      assert x[k] != y[k] && k >= |root|;
      assert Parts(a, b, k - |root|) by {
        assert a[..k - |root|] == x[..k][|root|..] && b[..k - |root|] == y[..k][|root|..];
      }
    }
  }

  /** The paths as seen from the root. */
  function Relatives(root: Path, ps: seq<Path>): (rs: seq<Path>)
    requires forall i :: 0 <= i < |ps| ==> root <= ps[i]
    ensures |rs| == |ps| && forall i :: 0 <= i < |rs| ==> rs[i] == ps[i][|root|..]
  {
    seq(|ps|, i requires 0 <= i < |ps| => ps[i][|root|..])
  }

  lemma RelativesInOrder(root: Path, ps: seq<Path>)
    requires InOrder(ps) && forall i :: 0 <= i < |ps| ==> root <= ps[i]
    ensures InOrder(Relatives(root, ps))
  {
    var rs := Relatives(root, ps);
    forall i, j | 0 <= i < j < |rs| ensures Precedes(rs[i], rs[j]) {
      assert root + rs[i] == ps[i] && root + rs[j] == ps[j];
      PrecedesBelow(root, rs[i], rs[j]);
    }
  }

  lemma RelativesAre(fs: FS, root: Path, ps: seq<Path>, r: Path)
    requires (forall i :: 0 <= i < |ps| ==> root <= ps[i]) && forall q :: q in ps <==> q in fs && root <= q
    ensures r in Relatives(root, ps) <==> root + r in fs
  {
    var rs := Relatives(root, ps);
    if root + r in fs {
      assert root + r in ps;
      var i :| 0 <= i < |ps| && ps[i] == root + r;
      assert rs[i] == r;
    }
    if r in rs {
      var i :| 0 <= i < |rs| && rs[i] == r;
      assert root + r == ps[i] && ps[i] in ps;
    }
  }

  /** The paths of the tree as the archive's walk finds them. */
  ghost predicate Walked(fs: FS, root: Path, ps: seq<Path>) {
    AllUnder(fs, root, ps) && InOrder(ps) && forall q :: q in ps <==> q in fs && root <= q
  }

  lemma PreorderIsWalked(fs: FS, root: Path)
    requires WF(fs) && RealDir(fs, root)
    ensures Walked(fs, root, Preorder(fs, root))
  {
    PreorderFacts(fs, root);
    PreorderInOrder(fs, root);
    var ps := Preorder(fs, root);
    forall i | 0 <= i < |ps| ensures ps[i] in fs && root <= ps[i] { assert ps[i] in ps; }
  }

  /** The entries es are those of the nodes at rs, in order, and these are all. */
  ghost predicate Lists(fs: FS, root: Path, name: string, es: seq<Extract.Entry>, rs: seq<Path>) {
    && InOrder(rs) && (forall r :: r in rs <==> root + r in fs) && |es| == |rs|
    && forall i :: 0 <= i < |es| ==> root + rs[i] in fs && IsEntryOf(es[i], name, rs[i], fs[root + rs[i]])
  }

  lemma EntriesList(fs: FS, root: Path, name: string, ps: seq<Path>)
    requires Walked(fs, root, ps) && ps != []
    ensures Lists(fs, root, name, EntriesFrom(fs, root, name, ps, 0), Relatives(root, ps))
  {
    var es, rs := EntriesFrom(fs, root, name, ps, 0), Relatives(root, ps);
    RelativesInOrder(root, ps);
    forall r ensures r in rs <==> root + r in fs { RelativesAre(fs, root, ps, r); }
    EntriesAre(fs, root, name, ps, 0, 0);
    forall i | 0 <= i < |es| ensures root + rs[i] in fs && IsEntryOf(es[i], name, rs[i], fs[root + rs[i]]) {
      EntriesAre(fs, root, name, ps, 0, i);
      assert root + rs[i] == ps[i];
    }
  }

  /** An archive has one entry for each node of the tree, named by where it lies, and lists
      them by names, a directory before what it holds. */
  lemma ArchiveLists(fs: FS, root: Path, name: string) returns (rs: seq<Path>)
    requires WF(fs) && RealDir(fs, root)
    ensures Lists(fs, root, name, CreateArchive(fs, root, name), rs)
  {
    PreorderIsWalked(fs, root);
    rs := Relatives(root, Preorder(fs, root));
    EntriesList(fs, root, name, Preorder(fs, root));
  }

  // ----- the walk over a package -----

  lemma ThroughMembers(rel: Path, ns: seq<string>, files: seq<Path>)
    requires Through(rel, ns, files)
    ensures forall x :: x in files ==> rel < x && x[|rel|] in ns
  {}

  lemma ThroughOne(rel: Path, n: string, files: seq<Path>)
    requires Through(rel, [n], files)
    ensures forall x :: x in files ==> rel + [n] <= x
  {
    forall x | x in files ensures rel + [n] <= x { assert rel < x && x[|rel|] in [n]; }
  }

  lemma {:induction false} WalkDirInOrder(limit: nat, fs: FS, store: Path, realStore: Path, rel: Path, active: set<Path>)
    requires WF(fs) && Names(rel) && WalkDir(limit, fs, store, realStore, rel, active).Ok?
    ensures InOrder(WalkDir(limit, fs, store, realStore, rel, active).value)
    decreases |Dirs(fs) - active|, 0
  {
    var dir := Eval(limit, fs, store + rel).path;
    ActiveGrows(fs, active, dir);
    ReadDirIncreasing(fs, dir);
    WalkEntriesInOrder(limit, fs, store, realStore, rel, dir, active + {dir}, ReadDir(fs, dir));
  }

  lemma {:induction false} WalkEntriesInOrder(limit: nat, fs: FS, store: Path, realStore: Path, rel: Path, dir: Path,
                                              active: set<Path>, ns: seq<string>)
    requires WF(fs) && Names(rel) && Increasing(ns) && forall i :: 0 <= i < |ns| ==> dir + [ns[i]] in fs
    requires WalkEntries(limit, fs, store, realStore, rel, dir, active, ns).Ok?
    ensures InOrder(WalkEntries(limit, fs, store, realStore, rel, dir, active, ns).value)
    decreases |Dirs(fs) - active|, 1 + |ns|
  {
    if ns != [] {
      IncreasingTail(ns);
      var head := WalkEntry(limit, fs, store, realStore, rel, dir, active, ns[0]).value;
      var tail := WalkEntries(limit, fs, store, realStore, rel, dir, active, ns[1..]).value;
      WalkEntryInOrder(limit, fs, store, realStore, rel, dir, active, ns[0]);
      WalkEntriesInOrder(limit, fs, store, realStore, rel, dir, active, ns[1..]);
      WalkEntryShape(limit, fs, store, realStore, rel, dir, active, ns[0]);
      WalkEntriesShape(limit, fs, store, realStore, rel, dir, active, ns[1..]);
      ThroughOne(rel, ns[0], head);
      ThroughMembers(rel, ns[1..], tail);
      BlocksInOrder(rel, ns[0], ns[1..], head, tail);
    }
  }

  lemma {:induction false} WalkEntryInOrder(limit: nat, fs: FS, store: Path, realStore: Path, rel: Path, dir: Path,
                                            active: set<Path>, n: string)
    requires WF(fs) && Names(rel) && dir + [n] in fs && WalkEntry(limit, fs, store, realStore, rel, dir, active, n).Ok?
    ensures InOrder(WalkEntry(limit, fs, store, realStore, rel, dir, active, n).value)
    decreases |Dirs(fs) - active|, 1
  {
    var child := rel + [n];
    assert Names(child) by { assert (dir + [n])[|dir|] == n; }
    var r := WalkEntry(limit, fs, store, realStore, rel, dir, active, n);
    if r.value != [] && r.value != [child] { WalkDirInOrder(limit, fs, store, realStore, child, active); }
  }

  /** A package's files are collected by names, directory by directory. */
  lemma CollectedInOrder(limit: nat, fs: FS, store: Path)
    requires WF(fs) && CollectFiles(limit, fs, store).Ok?
    ensures InOrder(CollectFiles(limit, fs, store).value)
  {
    WalkDirInOrder(limit, fs, store, Eval(limit, fs, store).path, [], {});
  }
}
