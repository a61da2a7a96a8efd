/** What an archive says about the tree it was made from: the same trees, and only
    they, give the same archive (cmd/artifact/archive.go, cmd/artifact/normalize.go). */
module Reproducible {
  import opened Lexical
  import opened FileTree
  import opened Extract
  import opened Archive
  import opened Normalize

  /** Nodes an archive does not tell apart: modes count up to the forced owner-write bit. */
  predicate SamePacked(a: Node, b: Node) {
    match a
    case Dir => b.Dir?
    case File(content, mode) => b.File? && b.content == content && b.mode | 0x80 == mode | 0x80
    case Link(_) => a == b
  }

  ghost predicate SameToPack(fs: FS, root: Path, fs': FS, root': Path) {
    forall r: Path :: (root + r in fs <==> root' + r in fs') && (root + r in fs ==> SamePacked(fs[root + r], fs'[root' + r]))
  }

  // ----- the same tree, the same archive -----

  /** Path by path the same below the two roots. */
  ghost predicate Parallel(root: Path, root': Path, ps: seq<Path>, ps': seq<Path>) {
    |ps| == |ps'| && forall i :: 0 <= i < |ps| ==>
      root <= ps[i] && root' <= ps'[i] && ps[i][|root|..] == ps'[i][|root'|..]
  }

  lemma SameNames(fs: FS, root: Path, fs': FS, root': Path, r: Path)
    requires SameToPack(fs, root, fs', root')
    ensures ReadDir(fs, root + r) == ReadDir(fs', root' + r)
  {
    forall n ensures root + r + [n] in fs <==> root' + r + [n] in fs' {
      assert root + r + [n] == root + (r + [n]) && root' + r + [n] == root' + (r + [n]);
    }
    assert Children(fs, root + r) == Children(fs', root' + r);
  }

  lemma {:induction false} SamePreorder(fs: FS, root: Path, fs': FS, root': Path, r: Path)
    requires SameToPack(fs, root, fs', root') && root + r in fs && root' + r in fs'
    ensures Parallel(root, root', Preorder(fs, root + r), Preorder(fs', root' + r))
    decreases |Below(fs, root + r)|, 1, 0
  {
    assert (root + r)[|root|..] == r && (root' + r)[|root'|..] == r;
    if fs[root + r].Dir? {
      SameNames(fs, root, fs', root', r);
      SamePreorderAll(fs, root, fs', root', r, ReadDir(fs, root + r));
    }
  }

  lemma {:induction false} SamePreorderAll(fs: FS, root: Path, fs': FS, root': Path, r: Path, ns: seq<string>)
    requires SameToPack(fs, root, fs', root') && root + r in fs && root' + r in fs'
    requires forall n :: n in ns ==> root + r + [n] in fs && root' + r + [n] in fs'
    ensures Parallel(root, root', PreorderAll(fs, root + r, ns), PreorderAll(fs', root' + r, ns))
    decreases |Below(fs, root + r)|, 0, |ns|
  {
    if ns != [] {
      BelowShrinks(fs, root + r, ns[0]);
      assert root + r + [ns[0]] == root + (r + [ns[0]]) && root' + r + [ns[0]] == root' + (r + [ns[0]]);
      SamePreorder(fs, root, fs', root', r + [ns[0]]);
      SamePreorderAll(fs, root, fs', root', r, ns[1..]);
    }
  }

  lemma {:induction false} SameEntries(fs: FS, root: Path, fs': FS, root': Path, name: string, ps: seq<Path>, ps': seq<Path>, k: nat)
    requires SameToPack(fs, root, fs', root') && Parallel(root, root', ps, ps')
    requires AllUnder(fs, root, ps) && AllUnder(fs', root', ps')
    ensures EntriesFrom(fs, root, name, ps, k) == EntriesFrom(fs', root', name, ps', k)
    decreases |ps| - k
  {
    if k < |ps| {
      var r := ps[k][|root|..];
      assert root + r == ps[k] && root' + r == ps'[k];
      SameEntries(fs, root, fs', root', name, ps, ps', k + 1);
    }
  }

  // ----- the same archive, the same tree -----

  lemma EntryTells(name: string, r: Path, a: Node, r': Path, b: Node)
    requires EntryFor(name, r, a) == EntryFor(name, r', b)
    ensures r == r' && SamePacked(a, b)
  {
    var n, n' := EntryFor(name, r, a).name, EntryFor(name, r', b).name;
    assert n[1..1 + |r|] == r && n'[1..1 + |r'|] == r';
  }

  lemma {:induction false} NthEntry(fs: FS, root: Path, name: string, ps: seq<Path>, k: nat, i: nat)
    requires AllUnder(fs, root, ps) && k <= |ps| && i < |ps| - k
    ensures var es := EntriesFrom(fs, root, name, ps, k);
      |es| == |ps| - k && es[i] == EntryFor(name, ps[k + i][|root|..], fs[ps[k + i]])
    decreases |ps| - k
  {
    if i > 0 { NthEntry(fs, root, name, ps, k + 1, i - 1); }
    else if k + 1 < |ps| { NthEntry(fs, root, name, ps, k + 1, 0); }
  }

  /** Each node of the tree has its entry. */
  lemma EntryOf(fs: FS, root: Path, name: string, r: Path)
    requires WF(fs) && RealDir(fs, root) && root + r in fs
    ensures EntryFor(name, r, fs[root + r]) in CreateArchive(fs, root, name)
  {
    PreorderFacts(fs, root);
    var ps := Preorder(fs, root);
    assert forall i :: 0 <= i < |ps| ==> ps[i] in ps;
    assert root + r in ps;
    var i :| 0 <= i < |ps| && ps[i] == root + r;
    NthEntry(fs, root, name, ps, 0, i);
    assert (root + r)[|root|..] == r;
  }

  lemma Listed(fs: FS, root: Path, i: nat)
    requires WF(fs) && RealDir(fs, root) && i < |Preorder(fs, root)|
    ensures var p := Preorder(fs, root)[i]; p in fs && root <= p && root + p[|root|..] == p
  {
    PreorderFacts(fs, root);
    assert Preorder(fs, root)[i] in Preorder(fs, root);
  }

  /** Each entry is that of a node of the tree. */
  lemma NodeOf(fs: FS, root: Path, name: string, e: Entry) returns (r: Path)
    requires WF(fs) && RealDir(fs, root) && e in CreateArchive(fs, root, name)
    ensures root + r in fs && e == EntryFor(name, r, fs[root + r])
  {
    var ps := Preorder(fs, root);
    forall i | 0 <= i < |ps| ensures ps[i] in fs && root <= ps[i] { Listed(fs, root, i); }
    var es := EntriesFrom(fs, root, name, ps, 0);
    NthEntry(fs, root, name, ps, 0, 0);
    var i :| 0 <= i < |es| && es[i] == e;
    NthEntry(fs, root, name, ps, 0, i);
    Listed(fs, root, i);
    r := ps[i][|root|..];
  }

  lemma ArchiveTells(fs: FS, root: Path, fs': FS, root': Path, name: string, r: Path)
    requires WF(fs) && RealDir(fs, root) && WF(fs') && RealDir(fs', root')
    requires CreateArchive(fs, root, name) == CreateArchive(fs', root', name) && root + r in fs
    ensures root' + r in fs' && SamePacked(fs[root + r], fs'[root' + r])
  {
    EntryOf(fs, root, name, r);
    var r' := NodeOf(fs', root', name, EntryFor(name, r, fs[root + r]));
    EntryTells(name, r, fs[root + r], r', fs'[root' + r']);
  }

  /** Wherever they lie, two trees have the same archive exactly when they hold the same
      paths, contents, link texts and, up to the owner-write bit, modes. */
  lemma ArchiveIsCanonical(fs: FS, root: Path, fs': FS, root': Path, name: string)
    requires WF(fs) && RealDir(fs, root) && WF(fs') && RealDir(fs', root')
    ensures CreateArchive(fs, root, name) == CreateArchive(fs', root', name) <==> SameToPack(fs, root, fs', root')
  {
    if SameToPack(fs, root, fs', root') {
      PreorderFacts(fs, root);
      PreorderFacts(fs', root');
      assert root + [] == root && root' + [] == root';
      SamePreorder(fs, root, fs', root', []);
      var ps, ps' := Preorder(fs, root), Preorder(fs', root');
      assert (forall i :: 0 <= i < |ps| ==> ps[i] in ps) && forall i :: 0 <= i < |ps'| ==> ps'[i] in ps';
      SameEntries(fs, root, fs', root', name, ps, ps', 0);
    }
    if CreateArchive(fs, root, name) == CreateArchive(fs', root', name) {
      forall r: Path ensures root + r in fs <==> root' + r in fs'
        ensures root + r in fs ==> SamePacked(fs[root + r], fs'[root' + r])
      {
        if root + r in fs { ArchiveTells(fs, root, fs', root', name, r); }
        if root' + r in fs' { ArchiveTells(fs', root', fs, root, name, r); }
      }
    }
  }

  // ----- with the modes made normal -----

  /** The same apart from modes, of which only executability counts. */
  predicate SameArtifact(a: Node, b: Node) {
    match a
    case Dir => b.Dir?
    case File(content, mode) => b.File? && b.content == content && (Executable(b.mode) <==> Executable(mode))
    case Link(_) => a == b
  }

  ghost predicate SameArtifacts(fs: FS, root: Path, fs': FS, root': Path) {
    forall r: Path :: (root + r in fs <==> root' + r in fs') && (root + r in fs ==> SameArtifact(fs[root + r], fs'[root' + r]))
  }

  lemma NormalPacked(a: Node, b: Node)
    ensures SamePacked(NormalNode(a), NormalNode(b)) <==> SameArtifact(a, b)
  {}

  /** What a normalized tree's archive depends on: paths, contents, link texts, and which
      files are executable; not where the tree lies or what its modes were. */
  lemma ArtifactIsCanonical(fs: FS, root: Path, fs': FS, root': Path, name: string)
    requires WF(fs) && RealDir(fs, root) && WF(fs') && RealDir(fs', root')
    ensures WF(NormalModes(fs, root)) && RealDir(NormalModes(fs, root), root)
    ensures WF(NormalModes(fs', root')) && RealDir(NormalModes(fs', root'), root')
    ensures CreateArchive(NormalModes(fs, root), root, name) == CreateArchive(NormalModes(fs', root'), root', name)
      <==> SameArtifacts(fs, root, fs', root')
  {
    NormalModesWF(fs, root);
    NormalModesWF(fs', root');
    var x, x' := NormalModes(fs, root), NormalModes(fs', root');
    ArchiveIsCanonical(x, root, x', root', name);
    forall r: Path | root + r in fs && root' + r in fs'
      ensures SamePacked(x[root + r], x'[root' + r]) <==> SameArtifact(fs[root + r], fs'[root' + r])
    {
      assert root <= root + r && root' <= root' + r;
      NormalPacked(fs[root + r], fs'[root' + r]);
    }
  }
}
