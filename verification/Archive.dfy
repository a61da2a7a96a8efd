/** Packing a directory tree into an entry sequence (cmd/artifact/archive.go) and
    its round trip through binman's extractor. */
module Archive {
  import opened Lexical
  import opened FileTree
  import opened Order
  import opened Extract

  function Below(fs: FS, p: Path): set<Path> {
    set q | q in fs && p <= q
  }

  lemma BelowShrinks(fs: FS, p: Path, n: string)
    requires p in fs
    ensures |Below(fs, p + [n])| < |Below(fs, p)|
  {
    assert p in Below(fs, p) && p !in Below(fs, p + [n]);
    forall q | q in Below(fs, p + [n]) ensures q in Below(fs, p) { assert p <= p + [n] <= q; }
    SubsetIsSmaller(Below(fs, p + [n]), Below(fs, p));
  }

  lemma SubsetIsSmaller(a: set<Path>, b: set<Path>)
    requires a < b
    ensures |a| < |b|
  {
    assert |b| == |a| + |b - a| by { assert b == a + (b - a); }
    assert b - a != {};
  }

  /** WalkDir: a directory before its contents, names in sorted order. */
  function Preorder(fs: FS, p: Path): seq<Path>
    requires p in fs
    decreases |Below(fs, p)|, 1, 0
  {
    [p] + if fs[p].Dir? then PreorderAll(fs, p, ReadDir(fs, p)) else []
  }

  function PreorderAll(fs: FS, p: Path, ns: seq<string>): seq<Path>
    requires p in fs && forall n :: n in ns ==> p + [n] in fs
    decreases |Below(fs, p)|, 0, |ns|
  {
    if ns == [] then []
    else
      BelowShrinks(fs, p, ns[0]);
      Preorder(fs, p + [ns[0]]) + PreorderAll(fs, p, ns[1..])
  }

  /** The header and body written for the node at `root + r`. */
  function EntryFor(name: string, r: Path, node: Node): Entry {
    match node
    case Dir => Entry([name] + r + [""], DirBody)
    case File(content, mode) => Entry([name] + r, RegBody(content, mode | 0x80))
    case Link(text) => Entry([name] + r, SymBody(text))
  }

  /** createArchive's entry sequence for the tree at `root`. */
  function CreateArchive(fs: FS, root: Path, name: string): seq<Entry>
    requires WF(fs) && RealDir(fs, root)
  {
    PreorderFacts(fs, root);
    assert forall i :: 0 <= i < |Preorder(fs, root)| ==> Preorder(fs, root)[i] in Preorder(fs, root);
    EntriesFrom(fs, root, name, Preorder(fs, root), 0)
  }

  predicate AllUnder(fs: FS, root: Path, ps: seq<Path>) {
    forall i :: 0 <= i < |ps| ==> ps[i] in fs && root <= ps[i]
  }

  /** The entries of the paths from the k-th on. */
  function EntriesFrom(fs: FS, root: Path, name: string, ps: seq<Path>, k: nat): seq<Entry>
    requires AllUnder(fs, root, ps)
    decreases |ps| - k
  {
    if k >= |ps| then []
    else [EntryFor(name, ps[k][|root|..], fs[ps[k]])] + EntriesFrom(fs, root, name, ps, k + 1)
  }

  lemma {:induction false} EntriesShift(fs: FS, root: Path, name: string, ps: seq<Path>, k: nat)
    requires AllUnder(fs, root, ps) && 1 <= k <= |ps|
    ensures EntriesFrom(fs, root, name, ps, k) == EntriesFrom(fs, root, name, ps[1..], k - 1)
    decreases |ps| - k
  {
    if k < |ps| { EntriesShift(fs, root, name, ps, k + 1); }
  }

  // ----- the walk lists every path once, parents first -----

  ghost predicate ParentsFirst(top: Path, ps: seq<Path>) {
    forall i :: 0 <= i < |ps| ==> Parent(ps[i]) == top || Parent(ps[i]) in ps[..i]
  }

  lemma ParentsFirstConcat(top: Path, ps: seq<Path>, qs: seq<Path>)
    requires ParentsFirst(top, ps) && ParentsFirst(top, qs)
    ensures ParentsFirst(top, ps + qs)
  {
    forall i | 0 <= i < |ps + qs|
      ensures Parent((ps + qs)[i]) == top || Parent((ps + qs)[i]) in (ps + qs)[..i]
    {
      if i < |ps| {
        assert (ps + qs)[..i] == ps[..i];
      } else {
        var j := i - |ps|;
        assert (ps + qs)[i] == qs[j] && (ps + qs)[..i] == ps + qs[..j];
      }
    }
  }

  lemma ChildAbove(fs: FS, p: Path, q: Path)
    requires WF(fs) && q in fs && p < q
    ensures p + [q[|p|]] in fs
  {
    var c := p + [q[|p|]];
    assert c <= q;
    if c != q { AncestorOf(fs, c, q); }
  }

  ghost predicate ListsBelow(fs: FS, p: Path, ps: seq<Path>) {
    && (forall q :: q in ps <==> q in fs && p <= q)
    && Distinct(ps)
    && ps != [] && ps[0] == p && ParentsFirst(p, ps[1..])
  }

  ghost predicate ListsChildren(fs: FS, p: Path, ns: seq<string>, ps: seq<Path>) {
    && (forall q :: q in ps <==> q in fs && p < q && q[|p|] in ns)
    && Distinct(ps) && ParentsFirst(p, ps)
  }

  lemma ListTop(fs: FS, p: Path, ns: seq<string>, rest: seq<Path>)
    requires WF(fs) && p in fs && ListsChildren(fs, p, ns, rest)
    requires forall n :: p + [n] in fs ==> n in ns
    ensures ListsBelow(fs, p, [p] + rest)
  {
    forall q ensures q in [p] + rest <==> q in fs && p <= q {
      if q in fs && p < q { ChildAbove(fs, p, q); }
      assert q in [p] + rest <==> q == p || q in rest;
    }
    assert p !in rest;
    assert ([p] + rest)[1..] == rest;
  }

  lemma {:induction false} PreorderFacts(fs: FS, p: Path)
    requires WF(fs) && p in fs
    ensures ListsBelow(fs, p, Preorder(fs, p))
    decreases |Below(fs, p)|, 1, 0
  {
    if fs[p].Dir? {
      PreorderAllFacts(fs, p, ReadDir(fs, p));
      ListTop(fs, p, ReadDir(fs, p), PreorderAll(fs, p, ReadDir(fs, p)));
    } else {
      FileIsChildless(fs, p);
      assert Preorder(fs, p) == [p];
      forall q ensures q in [p] <==> q in fs && p <= q {
        assert q in fs && p <= q ==> q == p;
      }
    }
  }

  lemma ListMore(fs: FS, p: Path, ns: seq<string>, first: seq<Path>, rest: seq<Path>)
    requires WF(fs) && Distinct(ns) && ns != []
    requires ListsBelow(fs, p + [ns[0]], first) && ListsChildren(fs, p, ns[1..], rest)
    ensures ListsChildren(fs, p, ns, first + rest)
  {
    var n := ns[0];
    ParentsFirstBelow(p, n, first);
    ParentsFirstConcat(p, first, rest);
    assert n !in ns[1..];
    forall q ensures q in first + rest <==> q in fs && p < q && q[|p|] in ns {
      assert q in first + rest <==> q in first || q in rest;
      assert p + [n] <= q <==> p < q && q[|p|] == n;
    }
    forall i, j | 0 <= i < |first| <= j < |first + rest| ensures (first + rest)[i] != (first + rest)[j] {
      assert first[i] in first && rest[j - |first|] in rest;
    }
  }

  lemma {:induction false} PreorderAllFacts(fs: FS, p: Path, ns: seq<string>)
    requires WF(fs) && p in fs && Distinct(ns) && forall n :: n in ns ==> p + [n] in fs
    ensures ListsChildren(fs, p, ns, PreorderAll(fs, p, ns))
    decreases |Below(fs, p)|, 0, |ns|
  {
    if ns != [] {
      var n := ns[0];
      BelowShrinks(fs, p, n);
      PreorderFacts(fs, p + [n]);
      PreorderAllFacts(fs, p, ns[1..]);
      ListMore(fs, p, ns, Preorder(fs, p + [n]), PreorderAll(fs, p, ns[1..]));
    }
  }

  lemma ParentsFirstBelow(p: Path, n: string, first: seq<Path>)
    requires first != [] && first[0] == p + [n] && ParentsFirst(p + [n], first[1..])
    ensures ParentsFirst(p, first)
  {
    var rest := first[1..];
    assert Parent(p + [n]) == p && first == [p + [n]] + rest;
    forall i | 0 <= i < |first| ensures Parent(first[i]) == p || Parent(first[i]) in first[..i] {
      if i > 0 { ParentAmong(p + [n], rest, first, i); }
    }
  }

  lemma ParentAmong(top: Path, rest: seq<Path>, first: seq<Path>, i: nat)
    requires first == [top] + rest && ParentsFirst(top, rest) && 0 < i < |first|
    ensures Parent(first[i]) in first[..i]
  {
    assert first[i] == rest[i - 1] && first[..i] == [top] + rest[..i - 1];
    if Parent(rest[i - 1]) != top {
      assert Parent(rest[i - 1]) in rest[..i - 1];
    }
  }

  // ----- unpacking what was packed -----

  /** What the extractor makes of a packed node at `dst + r`. */
  function Restored(dst: Path, r: Path, node: Node): Node {
    match node
    case Dir => Dir
    case File(content, mode) => File(content, (mode | 0x80) & 0x1FF)
    case Link(text) => Link(Rel(Parent(dst + r), Walk(Parent(dst + r), text)))
  }

  /** The extractor takes this node's link text at `dst + r`. */
  predicate LinkFits(dst: Path, r: Path, node: Node) {
    node.Link? ==> !IsAbs(node.text) && dst < Walk(Parent(dst + r), node.text)
  }

  lemma WalkTrailing(cur: Path, r: Path)
    requires Names(r)
    ensures Walk(cur, r) == cur + r && Walk(cur, r + [""]) == cur + r
  {
    WalkNames(cur, r);
    WalkConcat(cur, r, [""]);
    assert Walk(cur + r, [""]) == Walk(cur + r, []);
  }

  lemma StripPacked(name: string, r: Path)
    requires IsName(name)
    ensures r != [] ==> StripFirst([name] + r) == r
    ensures StripFirst([name] + r + [""]) == r + [""]
  {
    assert ([name] + r)[1..] == r;
    assert ([name] + r + [""])[1..] == r + [""];
  }

  lemma PackedTarget(dst: Path, name: string, r: Path, node: Node)
    requires IsName(name) && Names(r) && r != []
    ensures StripFirst(EntryFor(name, r, node).name) != [""]
    ensures SafeArchivePath(dst, StripFirst(EntryFor(name, r, node).name)) == Ok(dst + r)
  {
    StripPacked(name, r);
    WalkTrailing(dst, r);
    assert r[0] != "" && (r + [""])[0] != "";
  }

  lemma RestoreBody(limit: nat, cur: FS, dst: Path, target: Path, body: Body)
    requires WF(cur) && RealDir(cur, dst) && dst < target && RealAbove(cur, target)
    requires RealDir(cur, Parent(target)) && target !in cur
    ensures var s := ExtractBody(limit, cur, dst, target, body);
      match body
      case DirBody => s == Step(cur[target := Dir], true)
      case RegBody(content, mode) => s == Step(cur[target := File(content, mode & 0x1FF)], true)
      case SymBody(link) =>
        && (s.ok <==> SafeSymlinkTarget(dst, target, link).Ok?)
        && (s.ok ==> s.fs == cur[target := Link(Rel(Parent(target), Walk(Parent(target), link)))])
      case _ => true
  {
    assert MkDirs(cur, Parent(target)) == cur;
    assert MkDirs(cur, target) == cur[target := Dir];
  }

  lemma RestoreOne(limit: nat, cur: FS, dst: Path, name: string, r: Path, node: Node)
    requires WF(cur) && RealDir(cur, dst) && IsName(name) && Names(r) && r != []
    requires RealDir(cur, dst + Parent(r)) && dst + r !in cur
    ensures var s := ExtractEntry(limit, cur, dst, EntryFor(name, r, node));
      && (s.ok <==> LinkFits(dst, r, node))
      && (s.ok ==> s.fs == cur[dst + r := Restored(dst, r, node)])
  {
    var target := dst + r;
    assert Parent(target) == dst + Parent(r);
    PackedTarget(dst, name, r, node);
    ParentIsReal(cur, target);
    ParentsOkIsRealAbove(cur, dst, target);
    RestoreBody(limit, cur, dst, target, EntryFor(name, r, node).body);
  }

  /** Below `dst` there are exactly the relative paths `done`, each as restored. */
  ghost predicate RestoredUpTo(fs: FS, root: Path, cur: FS, dst: Path, done: set<Path>) {
    && WF(cur) && RealDir(cur, dst)
    && (forall r: Path :: r != [] ==> (dst + r in cur <==> r in done))
    && (forall r :: r in done ==> r != [] && root + r in fs && cur[dst + r] == Restored(dst, r, fs[root + r]))
  }

  lemma RestoreStep(limit: nat, fs: FS, root: Path, name: string, cur: FS, dst: Path, done: set<Path>, r: Path)
    requires WF(fs) && IsName(name) && root + r in fs && r != [] && r !in done
    requires Parent(r) == [] || Parent(r) in done
    requires RestoredUpTo(fs, root, cur, dst, done)
    ensures var s := ExtractEntry(limit, cur, dst, EntryFor(name, r, fs[root + r]));
      && (s.ok <==> LinkFits(dst, r, fs[root + r]))
      && (s.ok ==> RestoredUpTo(fs, root, s.fs, dst, done + {r}))
  {
    var p := root + r;
    assert Names(p) && forall i :: 0 <= i < |r| ==> r[i] == p[|root| + i];
    assert root + Parent(r) == Parent(p);
    if Parent(r) == [] { assert dst + Parent(r) == dst; }
    RestoreOne(limit, cur, dst, name, r, fs[p]);
    ExtractEntryKeeps(limit, cur, dst, EntryFor(name, r, fs[p]));
    var s := ExtractEntry(limit, cur, dst, EntryFor(name, r, fs[p]));
    if s.ok { RestoredGrows(fs, root, cur, s.fs, dst, done, r); }
  }

  lemma RestoredGrows(fs: FS, root: Path, cur: FS, cur': FS, dst: Path, done: set<Path>, r: Path)
    requires RestoredUpTo(fs, root, cur, dst, done) && WF(cur') && RealDir(cur', dst)
    requires root + r in fs && r != [] && r !in done && cur' == cur[dst + r := Restored(dst, r, fs[root + r])]
    ensures RestoredUpTo(fs, root, cur', dst, done + {r})
  {
    forall x: Path | x != [] ensures dst + x in cur' <==> x in done + {r}
      ensures dst + x == dst + r <==> x == r
    {
      assert (dst + x)[|dst|..] == x && (dst + r)[|dst|..] == r;
    }
  }

  ghost predicate Restorable(fs: FS, root: Path, ps: seq<Path>) {
    Distinct(ps) && ParentsFirst(root, ps) && AllUnder(fs, root, ps) && root !in ps
  }

  function Relative(root: Path, ps: seq<Path>, k: nat): (rs: set<Path>)
    requires k <= |ps| && forall i :: 0 <= i < |ps| ==> root <= ps[i]
    ensures forall i :: 0 <= i < k ==> ps[i][|root|..] in rs
    ensures forall r :: r in rs ==> root + r in ps[..k]
  {
    if k == 0 then {}
    else
      assert forall p :: p in ps[..k] <==> p == ps[k - 1] || p in ps[..k - 1];
      assert root + ps[k - 1][|root|..] == ps[k - 1];
      Relative(root, ps, k - 1) + {ps[k - 1][|root|..]}
  }

  predicate AllFit(fs: FS, root: Path, dst: Path, ps: seq<Path>, k: nat)
    requires AllUnder(fs, root, ps)
    decreases |ps| - k
  {
    k >= |ps| || (LinkFits(dst, ps[k][|root|..], fs[ps[k]]) && AllFit(fs, root, dst, ps, k + 1))
  }

  lemma {:induction false} AllFitMeans(fs: FS, root: Path, dst: Path, ps: seq<Path>, k: nat)
    requires AllUnder(fs, root, ps)
    ensures AllFit(fs, root, dst, ps, k) <==> forall i :: k <= i < |ps| ==> LinkFits(dst, ps[i][|root|..], fs[ps[i]])
    decreases |ps| - k
  {
    if k < |ps| { AllFitMeans(fs, root, dst, ps, k + 1); }
  }

  lemma {:induction false} RestoreFrom(limit: nat, fs: FS, root: Path, name: string, cur: FS, dst: Path,
                                       ps: seq<Path>, k: nat)
    requires WF(fs) && IsName(name) && Restorable(fs, root, ps) && k <= |ps|
    requires RestoredUpTo(fs, root, cur, dst, Relative(root, ps, k))
    ensures var s := ExtractAll(limit, cur, dst, EntriesFrom(fs, root, name, ps, k));
      && (s.ok <==> AllFit(fs, root, dst, ps, k))
      && (s.ok ==> RestoredUpTo(fs, root, s.fs, dst, Relative(root, ps, |ps|)))
    decreases |ps| - k
  {
    if k < |ps| {
      RestoreNth(limit, fs, root, name, cur, dst, ps, k);
      var s := ExtractEntry(limit, cur, dst, EntryFor(name, ps[k][|root|..], fs[ps[k]]));
      ExtractPacked(limit, fs, root, name, cur, dst, ps, k);
      if s.ok { RestoreFrom(limit, fs, root, name, s.fs, dst, ps, k + 1); }
    }
  }

  lemma RestoreNth(limit: nat, fs: FS, root: Path, name: string, cur: FS, dst: Path, ps: seq<Path>, k: nat)
    requires WF(fs) && IsName(name) && Restorable(fs, root, ps) && k < |ps|
    requires RestoredUpTo(fs, root, cur, dst, Relative(root, ps, k))
    ensures var s := ExtractEntry(limit, cur, dst, EntryFor(name, ps[k][|root|..], fs[ps[k]]));
      && (s.ok <==> LinkFits(dst, ps[k][|root|..], fs[ps[k]]))
      && (s.ok ==> RestoredUpTo(fs, root, s.fs, dst, Relative(root, ps, k + 1)))
  {
    var r := ps[k][|root|..];
    assert root + r == ps[k];
    ParentDone(root, ps, k);
    RestoreStep(limit, fs, root, name, cur, dst, Relative(root, ps, k), r);
  }

  lemma ParentDone(root: Path, ps: seq<Path>, k: nat)
    requires k < |ps| && Distinct(ps) && ParentsFirst(root, ps) && root !in ps
    requires forall i :: 0 <= i < |ps| ==> root <= ps[i]
    ensures var r := ps[k][|root|..];
      r != [] && r !in Relative(root, ps, k) && (Parent(r) == [] || Parent(r) in Relative(root, ps, k))
  {
    var r := ps[k][|root|..];
    assert root + r == ps[k] && root + [] == root;
    assert Parent(ps[k]) == root + Parent(r);
    if Parent(ps[k]) == root {
      assert (root + Parent(r))[|root|..] == Parent(r);
    } else {
      var j :| 0 <= j < k && ps[j] == Parent(ps[k]);
      assert ps[j][|root|..] == Parent(r);
    }
  }

  /** One step of extracting the entries from k on. */
  lemma ExtractPacked(limit: nat, fs: FS, root: Path, name: string, cur: FS, dst: Path, ps: seq<Path>, k: nat)
    requires WF(cur) && RealDir(cur, dst) && k < |ps| && AllUnder(fs, root, ps)
    ensures var s := ExtractEntry(limit, cur, dst, EntryFor(name, ps[k][|root|..], fs[ps[k]]));
      WF(s.fs) && RealDir(s.fs, dst) &&
      ExtractAll(limit, cur, dst, EntriesFrom(fs, root, name, ps, k)) ==
        if s.ok then ExtractAll(limit, s.fs, dst, EntriesFrom(fs, root, name, ps, k + 1)) else s
  {
    var es := EntriesFrom(fs, root, name, ps, k);
    assert es[0] == EntryFor(name, ps[k][|root|..], fs[ps[k]]);
    assert es[1..] == EntriesFrom(fs, root, name, ps, k + 1);
    ExtractEntryKeeps(limit, cur, dst, es[0]);
  }

  /** The root's own entry is skipped. */
  lemma ExtractRootEntry(limit: nat, fs: FS, root: Path, name: string, fs0: FS, dst: Path)
    requires WF(fs) && RealDir(fs, root) && IsName(name) && WF(fs0) && RealDir(fs0, dst)
    ensures ListsBelow(fs, root, Preorder(fs, root)) && AllUnder(fs, root, Preorder(fs, root))
    ensures ExtractAll(limit, fs0, dst, CreateArchive(fs, root, name)) ==
      ExtractAll(limit, fs0, dst, EntriesFrom(fs, root, name, Preorder(fs, root)[1..], 0))
  {
    PreorderFacts(fs, root);
    var ps := Preorder(fs, root);
    assert forall i :: 0 <= i < |ps| ==> ps[i] in ps;
    assert root[|root|..] == [];
    StripPacked(name, []);
    assert ExtractEntry(limit, fs0, dst, EntryFor(name, [], Dir)) == Step(fs0, true);
    ExtractPacked(limit, fs, root, name, fs0, dst, ps, 0);
    EntriesShift(fs, root, name, ps, 1);
  }

  /** Unpacking a packed tree into an empty directory succeeds exactly when every
      link text is relative and names something below the destination; then the
      destination holds each packed path, and nothing else. */
  lemma UnpackPacked(limit: nat, fs: FS, root: Path, name: string, fs0: FS, dst: Path)
    requires WF(fs) && RealDir(fs, root) && IsName(name)
    requires WF(fs0) && RealDir(fs0, dst) && Childless(fs0, dst)
    ensures var s := ExtractAll(limit, fs0, dst, CreateArchive(fs, root, name));
      && (s.ok <==> forall p :: p in fs && root < p ==> LinkFits(dst, p[|root|..], fs[p]))
      && (s.ok ==> forall r :: r != [] ==>
            (root + r in fs <==> dst + r in s.fs) &&
            (root + r in fs ==> s.fs[dst + r] == Restored(dst, r, fs[root + r])))
      && SameOutside(fs0, s.fs, dst)
  {
    ExtractRootEntry(limit, fs, root, name, fs0, dst);
    var rest := Preorder(fs, root)[1..];
    PackedList(fs, root);
    UnpackList(limit, fs, root, name, fs0, dst, rest);
    ExtractAllKeeps(limit, fs0, dst, CreateArchive(fs, root, name));
  }

  /** Without the root itself the walk lists what lies below it, parents first. */
  lemma PackedList(fs: FS, root: Path)
    requires WF(fs) && RealDir(fs, root)
    ensures var rest := Preorder(fs, root)[1..];
      Restorable(fs, root, rest) && forall q :: q in rest <==> q in fs && root < q
  {
    PreorderFacts(fs, root);
    DropTop(fs, root, Preorder(fs, root));
  }

  lemma DropTop(fs: FS, root: Path, ps: seq<Path>)
    requires ListsBelow(fs, root, ps)
    ensures Restorable(fs, root, ps[1..]) && forall q :: q in ps[1..] <==> q in fs && root < q
  {
    var rest := ps[1..];
    assert ps == [root] + rest;
    assert root !in rest by { assert forall i :: 0 <= i < |rest| ==> rest[i] == ps[i + 1]; }
    forall q ensures q in rest <==> q in fs && root < q {
      assert q in ps <==> q == root || q in rest;
    }
    forall i | 0 <= i < |rest| ensures rest[i] in fs && root <= rest[i] { assert rest[i] in rest; }
  }

  lemma UnpackList(limit: nat, fs: FS, root: Path, name: string, fs0: FS, dst: Path, rest: seq<Path>)
    requires WF(fs) && RealDir(fs, root) && IsName(name) && Restorable(fs, root, rest)
    requires WF(fs0) && RealDir(fs0, dst) && Childless(fs0, dst)
    requires forall q :: q in rest <==> q in fs && root < q
    ensures var s := ExtractAll(limit, fs0, dst, EntriesFrom(fs, root, name, rest, 0));
      && (s.ok <==> forall p :: p in fs && root < p ==> LinkFits(dst, p[|root|..], fs[p]))
      && (s.ok ==> forall r :: r != [] ==>
            (root + r in fs <==> dst + r in s.fs) &&
            (root + r in fs ==> s.fs[dst + r] == Restored(dst, r, fs[root + r])))
  {
    assert Relative(root, rest, 0) == {};
    forall r: Path | r != [] ensures dst + r !in fs0 { assert dst < dst + r; }
    RestoreFrom(limit, fs, root, name, fs0, dst, rest, 0);
    RelativeAll(fs, root, rest);
    AllFitAll(fs, root, dst, rest);
  }

  lemma AllFitAll(fs: FS, root: Path, dst: Path, rest: seq<Path>)
    requires forall q :: q in rest <==> q in fs && root < q
    requires AllUnder(fs, root, rest)
    ensures AllFit(fs, root, dst, rest, 0) <==> forall p :: p in fs && root < p ==> LinkFits(dst, p[|root|..], fs[p])
  {
    AllFitMeans(fs, root, dst, rest, 0);
    assert forall i :: 0 <= i < |rest| ==> rest[i] in rest;
  }

  lemma RelativeAll(fs: FS, root: Path, rest: seq<Path>)
    requires forall q :: q in rest <==> q in fs && root < q
    requires forall i :: 0 <= i < |rest| ==> root <= rest[i]
    ensures forall r: Path :: r != [] ==> (r in Relative(root, rest, |rest|) <==> root + r in fs)
  {
    forall r: Path | r != [] && root + r in fs ensures r in Relative(root, rest, |rest|) {
      assert root < root + r && root + r in rest;
      var i :| 0 <= i < |rest| && rest[i] == root + r;
      assert rest[i][|root|..] == r;
    }
    assert rest[..|rest|] == rest;
  }

  /** A walk that never climbs above where the tree starts. */
  predicate NeverClimbs(cur: Path, t: Text)
    decreases |t|
  {
    t == [] || ((t[0] == ".." ==> cur != []) && NeverClimbs(Advance(cur, t[0]), t[1..]))
  }

  lemma {:induction false} NeverClimbsShifts(d: Path, cur: Path, t: Text)
    requires NeverClimbs(cur, t)
    ensures Walk(d + cur, t) == d + Walk(cur, t)
    decreases |t|
  {
    if t != [] {
      assert Advance(d + cur, t[0]) == d + Advance(cur, t[0]);
      NeverClimbsShifts(d, Advance(cur, t[0]), t[1..]);
    }
  }

  /** The link at depth r of a tree names something strictly below the tree's root. */
  predicate InTreeLink(r: Path, node: Node) {
    node.Link? ==> !IsAbs(node.text) && NeverClimbs(Parent(r), node.text) && Walk(Parent(r), node.text) != []
  }

  /** Same kind and contents, the mode up to the forced owner-write bit, and a
      link's text names the same place relative to each root. */
  predicate SameUpToMode(root: Path, dst: Path, r: Path, a: Node, b: Node) {
    match a
    case Dir => b.Dir?
    case File(content, mode) => b == File(content, (mode | 0x80) & 0x1FF)
    case Link(text) =>
      && b.Link?
      && LinkTarget(Parent(root + r), text) == root + Walk(Parent(r), text)
      && LinkTarget(Parent(dst + r), b.text) == dst + Walk(Parent(r), text)
  }

  /** The round trip: a tree whose links stay below its root comes back the same. */
  lemma RoundTrip(limit: nat, fs: FS, root: Path, name: string, fs0: FS, dst: Path)
    requires WF(fs) && RealDir(fs, root) && IsName(name)
    requires WF(fs0) && RealDir(fs0, dst) && Childless(fs0, dst)
    requires forall p :: p in fs && root < p ==> InTreeLink(p[|root|..], fs[p])
    ensures var s := ExtractAll(limit, fs0, dst, CreateArchive(fs, root, name));
      && s.ok
      && (forall r :: r != [] ==>
            (root + r in fs <==> dst + r in s.fs) &&
            (root + r in fs ==> SameUpToMode(root, dst, r, fs[root + r], s.fs[dst + r])))
  {
    UnpackPacked(limit, fs, root, name, fs0, dst);
    ExtractAllKeeps(limit, fs0, dst, CreateArchive(fs, root, name));
    forall p | p in fs && root < p ensures LinkFits(dst, p[|root|..], fs[p]) {
      InTreeLinkFits(root, dst, p[|root|..], fs[p]);
    }
    forall r: Path | r != [] && root + r in fs
      ensures SameUpToMode(root, dst, r, fs[root + r], Restored(dst, r, fs[root + r]))
    {
      assert (root + r)[|root|..] == r && root < root + r;
      assert Names(dst);
      InTreeLinkFits(root, dst, r, fs[root + r]);
    }
  }

  lemma InTreeLinkFits(root: Path, dst: Path, r: Path, node: Node)
    requires r != [] && Names(r) && InTreeLink(r, node)
    ensures LinkFits(dst, r, node)
    ensures Names(dst) ==> SameUpToMode(root, dst, r, node, Restored(dst, r, node))
  {
    assert Parent(dst + r) == dst + Parent(r) && Parent(root + r) == root + Parent(r);
    if node.Link? {
      NeverClimbsShifts(dst, Parent(r), node.text);
      NeverClimbsShifts(root, Parent(r), node.text);
      if Names(dst) {
        WalkIsNames(dst + Parent(r), node.text);
        RelRoundTrip(dst + Parent(r), dst + Walk(Parent(r), node.text));
      }
    }
  }

  // ----- the walk as it runs -----

  /** The walk's callback for one path: fill in the header and write the body. */
  method PackOne(name: string, relative: Path, node: Node) returns (entry: Entry)
    ensures entry == EntryFor(name, relative, node)
  {
    var archiveName := [name] + relative;
    match node {
      case Dir => entry := Entry(archiveName + [""], DirBody);
      case File(content, mode) => entry := Entry(archiveName, RegBody(content, mode | 0x80));
      case Link(text) => entry := Entry(archiveName, SymBody(text));
    }
  }

  method WriteArchive(fs: FS, root: Path, name: string) returns (entries: seq<Entry>)
    requires WF(fs) && RealDir(fs, root)
    ensures entries == CreateArchive(fs, root, name)
  {
    PreorderFacts(fs, root);
    var paths := Preorder(fs, root);
    assert AllUnder(fs, root, paths) by { assert forall i :: 0 <= i < |paths| ==> paths[i] in paths; }
    entries := PackAll(fs, root, name, paths);
  }

  method PackAll(fs: FS, root: Path, name: string, paths: seq<Path>) returns (entries: seq<Entry>)
    requires AllUnder(fs, root, paths)
    ensures entries == EntriesFrom(fs, root, name, paths, 0)
  {
    entries := [];
    for k := 0 to |paths|
      invariant entries + EntriesFrom(fs, root, name, paths, k) == EntriesFrom(fs, root, name, paths, 0)
    {
      var entry := PackOne(name, paths[k][|root|..], fs[paths[k]]);
      ghost var rest := EntriesFrom(fs, root, name, paths, k + 1);
      assert entries + ([entry] + rest) == entries + [entry] + rest;
      entries := entries + [entry];
    }
  }
}
