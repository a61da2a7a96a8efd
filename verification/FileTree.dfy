/** A file system as a map from physical paths to nodes, and how the kernel
    resolves a path in it, component by component, through symbolic links. */
module FileTree {
  import opened Lexical
  import opened Order

  /** The metadata binman keeps beside each installed package. */
  datatype Meta = Meta(name: string, arch: string, digest: string, linked: bool)

  /** What a regular file holds: bytes, or a metadata record (its JSON is not modelled). */
  datatype Content = Bytes(bytes: seq<bv8>) | Record(meta: Meta)

  datatype Node = Dir | File(content: Content, mode: bv16) | Link(text: Text)

  type FS = map<Path, Node>

  /** An operation's outcome: the file system it leaves and whether it returned nil. */
  datatype Step = Step(fs: FS, ok: bool)

  datatype Result<T> = Ok(value: T) | Err

  /** Every path has a real directory as its parent. */
  ghost predicate WF(fs: FS) {
    && [] in fs && fs[[]].Dir?
    && (forall p :: p in fs ==> Names(p))
    && (forall p {:trigger Parent(p)} :: p in fs && p != [] ==> Parent(p) in fs && fs[Parent(p)].Dir?)
  }

  lemma {:induction false} Ancestor(fs: FS, p: Path, k: nat)
    requires WF(fs) && p in fs && k < |p|
    ensures p[..k] in fs && fs[p[..k]].Dir?
    decreases |p|
  {
    if k < |p| - 1 {
      Ancestor(fs, Parent(p), k);
      assert Parent(p)[..k] == p[..k];
    } else {
      assert Parent(p) == p[..k];
    }
  }

  lemma AncestorOf(fs: FS, q: Path, p: Path)
    requires WF(fs) && p in fs && q < p
    ensures q in fs && fs[q].Dir?
  {
    Ancestor(fs, p, |q|);
    assert p[..|q|] == q;
  }

  predicate RealDir(fs: FS, p: Path) {
    p in fs && fs[p].Dir?
  }

  /** No proper ancestor of `p` is a file or a link; some may be missing. */
  ghost predicate RealAbove(fs: FS, p: Path) {
    forall q :: q < p && q in fs ==> fs[q].Dir?
  }

  ghost predicate SameAt(fs: FS, fs': FS, p: Path) {
    (p in fs <==> p in fs') && (p in fs ==> fs[p] == fs'[p])
  }

  ghost predicate SameOutside(fs: FS, fs': FS, root: Path) {
    forall p :: !(root < p) ==> SameAt(fs, fs', p)
  }

  predicate Childless(fs: FS, p: Path) {
    forall q :: q in fs ==> !(p < q)
  }

  lemma FileIsChildless(fs: FS, p: Path)
    requires WF(fs) && (p in fs ==> !fs[p].Dir?)
    ensures Childless(fs, p)
  {
    forall q | q in fs ensures !(p < q) {
      if p < q { AncestorOf(fs, p, q); }
    }
  }

  /** A node below a real directory can be put where nothing lies beneath. */
  lemma PutLeafWF(fs: FS, p: Path, node: Node)
    requires WF(fs) && p != [] && Names(p) && RealDir(fs, Parent(p))
    requires node.Dir? || Childless(fs, p)
    ensures WF(fs[p := node])
  {
    var fs' := fs[p := node];
    assert Parent(p) != p;
    forall q | q in fs' && q != [] ensures Parent(q) in fs' && fs'[Parent(q)].Dir? {
      assert Parent(q) < q;
    }
  }

  lemma RemoveLinkWF(fs: FS, p: Path)
    requires WF(fs) && p in fs && fs[p].Link?
    ensures WF(fs - {p})
  {
    FileIsChildless(fs, p);
    var fs' := fs - {p};
    forall q | q in fs' && q != [] ensures Parent(q) in fs' && fs'[Parent(q)].Dir? {
      assert Parent(q) < q;
    }
  }

  lemma PrefixStep(q: Path, p: Path)
    requires p != []
    ensures q <= p <==> q <= Parent(p) || q == p
  {}

  lemma ParentIsReal(cur: FS, target: Path)
    requires WF(cur) && target != [] && RealDir(cur, Parent(target))
    ensures RealAbove(cur, target)
  {
    forall q | q < target && q in cur ensures cur[q].Dir? {
      PrefixStep(q, target);
      if q != Parent(target) { AncestorOf(cur, q, Parent(target)); }
    }
  }

  /** MkdirAll of a path whose existing ancestors are real directories. */
  function MkDirs(fs: FS, p: Path): FS
    decreases |p|
  {
    if p in fs || p == [] then fs else MkDirs(fs, Parent(p))[p := Dir]
  }

  lemma {:induction false} MkDirsEffect(fs: FS, p: Path)
    requires WF(fs) && Names(p) && RealAbove(fs, p)
    requires p in fs ==> fs[p].Dir?
    ensures WF(MkDirs(fs, p))
    ensures forall q :: q in MkDirs(fs, p) <==> q in fs || q <= p
    ensures forall q :: q in fs ==> MkDirs(fs, p)[q] == fs[q]
    ensures forall q :: q <= p ==> MkDirs(fs, p)[q].Dir?
    decreases |p|
  {
    if p in fs {
      forall q | q <= p ensures q in fs && fs[q].Dir? {
        if q != p { AncestorOf(fs, q, p); }
      }
    } else {
      MkDirsEffect(fs, Parent(p));
      forall q ensures q in MkDirs(fs, p) <==> q in fs || q <= p { PrefixStep(q, p); }
      forall q ensures q <= p ==> MkDirs(fs, p)[q].Dir? { PrefixStep(q, p); }
    }
  }

  /** RemoveAll. */
  function RemoveTree(fs: FS, p: Path): FS {
    map q | q in fs && !(p <= q) :: fs[q]
  }

  lemma RemoveTreeWF(fs: FS, p: Path)
    requires WF(fs) && p != []
    ensures WF(RemoveTree(fs, p))
  {
    forall q | q in RemoveTree(fs, p) && q != []
      ensures Parent(q) in RemoveTree(fs, p)
    {
      assert !(p <= Parent(q));
    }
  }

  /** Rename of a directory tree onto a path where nothing is. */
  function Rename(fs: FS, a: Path, b: Path): FS {
    RemoveTree(fs, a) + Moved(fs, a, b)
  }

  function MovedKeys(fs: FS, a: Path, b: Path): (ks: set<Path>)
    ensures forall k :: k in ks ==> b <= k && a + k[|b|..] in fs
  {
    var ks := set q | q in fs && a <= q :: b + q[|a|..];
    assert forall q :: q in fs && a <= q ==> a + (b + q[|a|..])[|b|..] == q;
    ks
  }

  function Moved(fs: FS, a: Path, b: Path): FS {
    map k | k in MovedKeys(fs, a, b) :: fs[a + k[|b|..]]
  }

  lemma MovedAt(fs: FS, a: Path, b: Path, r: Path)
    ensures b + r in Moved(fs, a, b) <==> a + r in fs
    ensures a + r in fs ==> Moved(fs, a, b)[b + r] == fs[a + r]
  {
    assert (b + r)[|b|..] == r && (a + r)[|a|..] == r;
  }

  function Children(fs: FS, d: Path): (ns: set<string>)
    ensures forall n :: n in ns <==> d + [n] in fs
  {
    assert forall n :: (d + [n])[|d|] == n && d < d + [n];
    assert forall q: Path :: q in fs && |q| == |d| + 1 && d < q ==> q == d + [q[|d|]];
    set q | q in fs && |q| == |d| + 1 && d < q :: q[|d|]
  }

  /** ReadDir: the names in a directory, sorted. */
  function ReadDir(fs: FS, d: Path): (ns: seq<string>)
    ensures Distinct(ns) && forall n :: n in ns <==> d + [n] in fs
  {
    Sorted(Children(fs, d))
  }

  datatype Resolved = At(path: Path) | NoEntry | NotDir | Loop

  /** The kernel's walk: `cur` is a real directory, `todo` what is still to be
      followed, `fuel` how many more links it will follow. */
  function Resolve(fs: FS, cur: Path, todo: Text, fuel: nat): Resolved
    decreases fuel, |todo|
  {
    if todo == [] then At(cur)
    else if !IsName(todo[0]) then Resolve(fs, Advance(cur, todo[0]), todo[1..], fuel)
    else
      var child := cur + [todo[0]];
      if child !in fs then NoEntry
      else match fs[child]
        case Dir => Resolve(fs, child, todo[1..], fuel)
        case File(_, _) => if |todo| == 1 then At(child) else NotDir
        case Link(text) =>
          if fuel == 0 then Loop
          else Resolve(fs, if IsAbs(text) then [] else cur, text + todo[1..], fuel - 1)
  }

  /** Stat or EvalSymlinks of an absolute path, following at most `limit` links. */
  function Eval(limit: nat, fs: FS, p: Path): Resolved {
    Resolve(fs, [], p, limit)
  }

  /** Every directory that `Resolve` visits on the way is `root` or below it. */
  ghost predicate StaysIn(fs: FS, root: Path, cur: Path, todo: Text, fuel: nat)
    decreases fuel, |todo|
  {
    root <= cur &&
    if todo == [] then true
    else if !IsName(todo[0]) then StaysIn(fs, root, Advance(cur, todo[0]), todo[1..], fuel)
    else
      var child := cur + [todo[0]];
      child in fs ==>
        match fs[child]
        case Dir => StaysIn(fs, root, child, todo[1..], fuel)
        case File(_, _) => true
        case Link(text) =>
          fuel > 0 ==> StaysIn(fs, root, if IsAbs(text) then [] else cur, text + todo[1..], fuel - 1)
  }

  /** A link text that cannot climb out of a tree it lies `depth` levels below. */
  predicate LinkOk(t: Text, depth: int) {
    !IsAbs(t) && ClimbsFirst(t, depth)
  }

  ghost predicate Confined(fs: FS, root: Path) {
    forall p :: p in fs && root < p && fs[p].Link? ==> LinkOk(fs[p].text, |p| - 1 - |root|)
  }

  lemma ClimbsTail(t: Text, depth: int)
    requires ClimbsFirst(t, depth) && t != []
    ensures ClimbsFirst(t[1..], if t[0] == ".." then depth - 1 else depth)
  {
    forall i, j | 0 <= j <= i < |t| - 1 && t[1..][i] == ".."
      ensures t[0] == ".." && i < depth - 1 && t[1..][j] == ".."
    {
      assert t[i + 1] == ".." && t[j + 1] == t[1..][j];
    }
  }

  lemma ClimbsThroughLink(text: Text, todo: Text, depth: int)
    requires ClimbsFirst(text, depth) && todo != [] && ClimbsFirst(todo, depth) && IsName(todo[0])
    ensures ClimbsFirst(text + todo[1..], depth)
  {
    forall i | 0 <= i < |todo| ensures todo[i] != ".." { assert todo[0] != ".."; }
    assert forall i :: 0 <= i < |todo| - 1 ==> todo[1..][i] == todo[i + 1];
  }

  /** Inside a confined tree no path that starts in it and does not climb out by
      itself can leave it, whatever links it crosses. */
  lemma {:induction false} ResolutionStaysIn(fs: FS, root: Path, cur: Path, todo: Text, fuel: nat)
    requires Confined(fs, root) && root <= cur
    requires ClimbsFirst(todo, |cur| - |root|)
    ensures StaysIn(fs, root, cur, todo, fuel)
    decreases fuel, |todo|
  {
    if todo != [] {
      ClimbsTail(todo, |cur| - |root|);
      var child := cur + [todo[0]];
      if !IsName(todo[0]) {
        ResolutionStaysIn(fs, root, Advance(cur, todo[0]), todo[1..], fuel);
      } else if child in fs && fs[child].Dir? {
        ResolutionStaysIn(fs, root, child, todo[1..], fuel);
      } else if child in fs && fs[child].Link? && fuel > 0 {
        ClimbsThroughLink(fs[child].text, todo, |cur| - |root|);
        ResolutionStaysIn(fs, root, cur, fs[child].text + todo[1..], fuel - 1);
      }
    }
  }

  lemma {:induction false} StaysInEnds(fs: FS, root: Path, cur: Path, todo: Text, fuel: nat)
    requires StaysIn(fs, root, cur, todo, fuel)
    ensures Resolve(fs, cur, todo, fuel).At? ==> root <= Resolve(fs, cur, todo, fuel).path
    decreases fuel, |todo|
  {
    if todo != [] {
      var child := cur + [todo[0]];
      if !IsName(todo[0]) {
        StaysInEnds(fs, root, Advance(cur, todo[0]), todo[1..], fuel);
      } else if child in fs && fs[child].Dir? {
        StaysInEnds(fs, root, child, todo[1..], fuel);
      } else if child in fs && fs[child].Link? && fuel > 0 {
        var text := fs[child].text;
        StaysInEnds(fs, root, if IsAbs(text) then [] else cur, text + todo[1..], fuel - 1);
      }
    }
  }

  lemma ResolveIntoDir(fs: FS, cur: Path, n: string, rest: Text, fuel: nat)
    requires IsName(n) && cur + [n] in fs && fs[cur + [n]].Dir?
    ensures Resolve(fs, cur, [n] + rest, fuel) == Resolve(fs, cur + [n], rest, fuel)
  {
    assert ([n] + rest)[1..] == rest;
  }

  /** Real directories resolve to themselves and use no fuel. */
  lemma {:induction false} ResolveDown(fs: FS, p: Path, k: nat, rest: Text, fuel: nat)
    requires WF(fs) && p in fs && fs[p].Dir? && k <= |p|
    ensures Resolve(fs, p[..k], p[k..] + rest, fuel) == Resolve(fs, p, rest, fuel)
    decreases |p| - k
  {
    if k == |p| {
      assert p[..k] == p && p[k..] + rest == rest;
    } else {
      var child := p[..k + 1];
      assert p[..k] + [p[k]] == child;
      assert p[k..] + rest == [p[k]] + (p[k + 1..] + rest);
      if k + 1 < |p| { Ancestor(fs, p, k + 1); } else { assert child == p; }
      ResolveIntoDir(fs, p[..k], p[k], p[k + 1..] + rest, fuel);
      ResolveDown(fs, p, k + 1, rest, fuel);
    }
  }

  /** A path below a real directory resolves from that directory. */
  lemma EvalBelow(limit: nat, fs: FS, d: Path, rest: Text)
    requires WF(fs) && d in fs && fs[d].Dir?
    ensures Eval(limit, fs, d + rest) == Resolve(fs, d, rest, limit)
  {
    assert d[..0] == [] && d[0..] == d;
    ResolveDown(fs, d, 0, rest, limit);
  }

  /** A path that is not a link resolves to itself: the keys are physical paths. */
  lemma EvalPhysical(limit: nat, fs: FS, p: Path)
    requires WF(fs) && p in fs && !fs[p].Link?
    ensures Eval(limit, fs, p) == At(p)
  {
    if fs[p].Dir? {
      EvalBelow(limit, fs, p, []);
      assert p + [] == p;
    } else {
      var d := Parent(p);
      assert d + [p[|p| - 1]] == p;
      EvalBelow(limit, fs, d, [p[|p| - 1]]);
    }
  }

  /** Where only real directories lie above, a missing path is just missing. */
  lemma EvalMissing(limit: nat, fs: FS, p: Path)
    requires WF(fs) && RealAbove(fs, p) && Names(p) && p !in fs
    ensures Eval(limit, fs, p) == NoEntry
  {
    var k := FirstMissing(fs, p, 0);
    assert p[..k] < p;
    assert p[..k] + p[k..] == p && p[..k] + [p[k]] == p[..k + 1];
    EvalBelow(limit, fs, p[..k], p[k..]);
  }

  lemma {:induction false} FirstMissing(fs: FS, p: Path, from: nat) returns (k: nat)
    requires p !in fs && from < |p| && p[..from] in fs
    ensures k < |p| && p[..k] in fs && p[..k + 1] !in fs
    decreases |p| - from
  {
    assert p[..|p|] == p;
    if p[..from + 1] !in fs { k := from; }
    else {
      k := FirstMissing(fs, p, from + 1);
    }
  }

  predicate SameShape(a: Node, b: Node) {
    match a
    case Dir => b.Dir?
    case File(_, _) => b.File?
    case Link(_) => a == b
  }

  /** The tree under d and the tree under d' have the same names, kinds and link texts. */
  ghost predicate Alike(fs: FS, d: Path, fs': FS, d': Path) {
    forall r: Path :: (d + r in fs <==> d' + r in fs') && (d + r in fs ==> SameShape(fs[d + r], fs'[d' + r]))
  }

  ghost predicate SameResolved(a: Resolved, d: Path, a': Resolved, d': Path, r: Path) {
    if a.At? then a == At(d + r) && a' == At(d' + r) else a' == a
  }

  lemma AdvanceShift(d: Path, c: Path, n: string)
    requires n == ".." ==> c != []
    ensures Advance(d + c, n) == d + Advance(c, n)
  {
    assert c != [] ==> Parent(d + c) == d + Parent(c);
    assert d + c + [n] == d + (c + [n]);
  }

  /** A confined tree resolves its paths the same way wherever it is placed. */
  lemma {:induction false} ResolveAlike(fs: FS, d: Path, fs': FS, d': Path, c: Path, todo: Text, fuel: nat) returns (r: Path)
    requires Alike(fs, d, fs', d') && Confined(fs, d)
    requires ClimbsFirst(todo, |c|)
    ensures SameResolved(Resolve(fs, d + c, todo, fuel), d, Resolve(fs', d' + c, todo, fuel), d', r)
    decreases fuel, |todo|
  {
    r := c;
    if todo != [] {
      var n := todo[0];
      ClimbsTail(todo, |c|);
      AdvanceShift(d, c, n);
      AdvanceShift(d', c, n);
      var c' := Advance(c, n);
      if !IsName(n) || RealDir(fs, d + c') {
        r := ResolveAlike(fs, d, fs', d', c', todo[1..], fuel);
      } else if d + c' in fs && fs[d + c'].Link? {
        if fuel > 0 {
          ClimbsThroughLink(fs[d + c'].text, todo, |c|);
          r := ResolveAlike(fs, d, fs', d', c, fs[d + c'].text + todo[1..], fuel - 1);
        }
      } else {
        r := c';
      }
    }
  }
}
