/** copyTree (cmd/artifact/normalize.go): copying a package tree, following links that
    leave it, with a guard against directory cycles. */
module CopyTree {
  import opened Lexical
  import opened FileTree
  import opened Order
  import Aggregate
  import opened Collect

  /** isWithin: the root itself counts. */
  predicate IsWithin(root: Path, p: Path) {
    root <= p
  }

  /** Exactly when the path as seen from the root does not begin by climbing. */
  lemma WithinByRel(root: Path, p: Path)
    requires Names(p)
    ensures IsWithin(root, p) <==> Rel(root, p)[0] != ".."
  {
    Aggregate.RelEscapes(root, p);
  }

  lemma {:induction false} ResolvedIsPhysical(fs: FS, cur: Path, todo: Text, fuel: nat)
    requires WF(fs) && RealDir(fs, cur)
    ensures var r := Resolve(fs, cur, todo, fuel); r.At? ==> r.path in fs && !fs[r.path].Link?
    decreases fuel, |todo|
  {
    if todo != [] {
      var child := cur + [todo[0]];
      if !IsName(todo[0]) {
        assert todo[0] == ".." && cur != [] ==> Parent(cur) in fs;
        ResolvedIsPhysical(fs, Advance(cur, todo[0]), todo[1..], fuel);
      } else if child in fs && fs[child].Dir? {
        ResolvedIsPhysical(fs, child, todo[1..], fuel);
      } else if child in fs && fs[child].Link? && fuel > 0 {
        ResolvedIsPhysical(fs, if IsAbs(fs[child].text) then [] else cur, fs[child].text + todo[1..], fuel - 1);
      }
    }
  }

  /** Directories that are not open, then whether this is a link, then the entries left. */
  function CopyNode(limit: nat, fs: FS, root: Path, source: Path, dest: Path, active: set<Path>): Result<FS>
    requires WF(fs)
    decreases |Dirs(fs) - active|, if source in fs && fs[source].Link? then 1 else 0, 0
  {
    if source !in fs then Ok(map[])
    else
      match fs[source]
      case File(content, mode) => Ok(map[dest := File(content, (mode & 0x1FF) | 0x80)])
      case Link(text) =>
        (match Eval(limit, fs, source)
         case At(target) =>
           ResolvedIsPhysical(fs, [], source, limit);
           if !IsAbs(text) && IsWithin(root, target) then Ok(map[dest := Link(text)])
           else CopyNode(limit, fs, root, target, dest, active)
         case NoEntry => Ok(map[])
         case _ => Err)
      case Dir =>
        if source in active then Err
        else
          ActiveGrows(fs, active, source);
          match CopyEntries(limit, fs, root, source, dest, active + {source}, ReadDir(fs, source))
          case Err => Err
          case Ok(rest) => Ok(map[dest := Dir] + rest)
  }

  function CopyEntries(limit: nat, fs: FS, root: Path, source: Path, dest: Path, active: set<Path>, names: seq<string>): Result<FS>
    requires WF(fs)
    decreases |Dirs(fs) - active|, 2, |names|
  {
    if names == [] then Ok(map[])
    else
      match CopyNode(limit, fs, root, source + [names[0]], dest + [names[0]], active)
      case Err => Err
      case Ok(first) =>
        match CopyEntries(limit, fs, root, source, dest, active, names[1..])
        case Err => Err
        case Ok(rest) => Ok(first + rest)
  }

  /** The whole tree: the source's own directory is not marked as open. */
  function Copy(limit: nat, fs: FS, source: Path, dest: Path): Result<FS>
    requires WF(fs)
  {
    match Eval(limit, fs, source)
    case At(root) =>
      if !RealDir(fs, root) then Err
      else
        (match CopyEntries(limit, fs, root, root, dest, {}, ReadDir(fs, root))
         case Err => Err
         case Ok(rest) => Ok(map[dest := Dir] + rest))
    case _ => Err
  }

  // ----- where the copy lies -----

  ghost predicate Under(tree: FS, dest: Path) {
    forall p :: p in tree ==> dest <= p
  }

  ghost predicate UnderNames(tree: FS, dest: Path, names: seq<string>) {
    forall p :: p in tree ==> dest < p && p[|dest|] in names
  }

  lemma {:induction false} CopyUnder(limit: nat, fs: FS, root: Path, source: Path, dest: Path, active: set<Path>)
    requires WF(fs)
    ensures var r := CopyNode(limit, fs, root, source, dest, active); r.Ok? ==> Under(r.value, dest)
    decreases |Dirs(fs) - active|, if source in fs && fs[source].Link? then 1 else 0, 0
  {
    if source in fs && fs[source].Dir? && source !in active {
      ActiveGrows(fs, active, source);
      EntriesUnder(limit, fs, root, source, dest, active + {source}, ReadDir(fs, source));
    } else if source in fs && fs[source].Link? && Eval(limit, fs, source).At? {
      ResolvedIsPhysical(fs, [], source, limit);
      CopyUnder(limit, fs, root, Eval(limit, fs, source).path, dest, active);
    }
  }

  lemma {:induction false} EntriesUnder(limit: nat, fs: FS, root: Path, source: Path, dest: Path, active: set<Path>, names: seq<string>)
    requires WF(fs)
    ensures var r := CopyEntries(limit, fs, root, source, dest, active, names); r.Ok? ==> UnderNames(r.value, dest, names)
    decreases |Dirs(fs) - active|, 2, |names|
  {
    if names != [] {
      CopyUnder(limit, fs, root, source + [names[0]], dest + [names[0]], active);
      EntriesUnder(limit, fs, root, source, dest, active, names[1..]);
      var first := CopyNode(limit, fs, root, source + [names[0]], dest + [names[0]], active);
      if first.Ok? {
        forall p | p in first.value ensures dest < p && p[|dest|] == names[0] {
          assert dest + [names[0]] <= p && (dest + [names[0]])[|dest|] == names[0];
        }
      }
    }
  }

  /** Each entry's copy is what the whole has below its name. */
  lemma {:induction false} EntryAt(limit: nat, fs: FS, root: Path, source: Path, dest: Path, active: set<Path>, names: seq<string>, k: nat)
    requires WF(fs) && Distinct(names) && k < |names| && CopyEntries(limit, fs, root, source, dest, active, names).Ok?
    ensures var node := CopyNode(limit, fs, root, source + [names[k]], dest + [names[k]], active);
      node.Ok? && forall p :: dest + [names[k]] <= p ==>
        SameAt(node.value, CopyEntries(limit, fs, root, source, dest, active, names).value, p)
    decreases |names|
  {
    CopyUnder(limit, fs, root, source + [names[0]], dest + [names[0]], active);
    EntriesUnder(limit, fs, root, source, dest, active, names[1..]);
    var rest := names[1..];
    assert names[0] !in rest by { assert forall j :: 0 <= j < |rest| ==> rest[j] == names[j + 1]; }
    if k > 0 { EntryAt(limit, fs, root, source, dest, active, rest, k - 1); }
    var d := dest + [names[k]];
    forall p | d <= p ensures p[|dest|] == names[k] { assert d[|dest|] == names[k]; }
    forall p | dest + [names[0]] <= p ensures p[|dest|] == names[0] { assert (dest + [names[0]])[|dest|] == names[0]; }
    assert k > 0 ==> names[k] == rest[k - 1];
  }

  // ----- what the copied links are -----

  /** A link of the copy is the text of a link in the tree that is relative and leads into it. */
  ghost predicate LinkKept(limit: nat, fs: FS, root: Path, node: Node) {
    node.Link? ==> !IsAbs(node.text) && exists s :: LeadsIntoTree(limit, fs, root, node.text, s)
  }

  ghost predicate LeadsIntoTree(limit: nat, fs: FS, root: Path, text: Text, s: Path) {
    s in fs && fs[s] == Link(text) && Eval(limit, fs, s).At? && IsWithin(root, Eval(limit, fs, s).path)
  }

  lemma {:induction false} CopyKeepsLinks(limit: nat, fs: FS, root: Path, source: Path, dest: Path, active: set<Path>, p: Path)
    requires WF(fs) && CopyNode(limit, fs, root, source, dest, active).Ok?
    requires p in CopyNode(limit, fs, root, source, dest, active).value
    ensures LinkKept(limit, fs, root, CopyNode(limit, fs, root, source, dest, active).value[p])
    decreases |Dirs(fs) - active|, if source in fs && fs[source].Link? then 1 else 0, 0
  {
    match fs[source] {
      case File(_, _) =>
      case Dir =>
        ActiveGrows(fs, active, source);
        var rest := CopyEntries(limit, fs, root, source, dest, active + {source}, ReadDir(fs, source)).value;
        if p in rest { EntriesKeepLinks(limit, fs, root, source, dest, active + {source}, ReadDir(fs, source), p); }
      case Link(text) =>
        ResolvedIsPhysical(fs, [], source, limit);
        var target := Eval(limit, fs, source).path;
        if !IsAbs(text) && IsWithin(root, target) {
          assert LeadsIntoTree(limit, fs, root, text, source);
        } else {
          CopyKeepsLinks(limit, fs, root, target, dest, active, p);
        }
    }
  }

  lemma {:induction false} EntriesKeepLinks(limit: nat, fs: FS, root: Path, source: Path, dest: Path, active: set<Path>,
                                            names: seq<string>, p: Path)
    requires WF(fs) && CopyEntries(limit, fs, root, source, dest, active, names).Ok?
    requires p in CopyEntries(limit, fs, root, source, dest, active, names).value
    ensures LinkKept(limit, fs, root, CopyEntries(limit, fs, root, source, dest, active, names).value[p])
    decreases |Dirs(fs) - active|, 2, |names|
  {
    if p in CopyEntries(limit, fs, root, source, dest, active, names[1..]).value {
      EntriesKeepLinks(limit, fs, root, source, dest, active, names[1..], p);
    } else {
      CopyKeepsLinks(limit, fs, root, source + [names[0]], dest + [names[0]], active, p);
    }
  }

  // ----- what the copied files hold -----

  lemma {:induction false} MoreFuel(fs: FS, cur: Path, todo: Text, fuel: nat, more: nat)
    requires Resolve(fs, cur, todo, fuel).At?
    ensures Resolve(fs, cur, todo, fuel + more) == Resolve(fs, cur, todo, fuel)
    decreases fuel, |todo|
  {
    if todo != [] {
      var child := cur + [todo[0]];
      if !IsName(todo[0]) {
        MoreFuel(fs, Advance(cur, todo[0]), todo[1..], fuel, more);
      } else if fs[child].Dir? {
        MoreFuel(fs, child, todo[1..], fuel, more);
      } else if fs[child].Link? {
        MoreFuel(fs, if IsAbs(fs[child].text) then [] else cur, fs[child].text + todo[1..], fuel - 1, more);
      }
    }
  }

  /** Walking on from a directory that was reached is walking the longer path. */
  lemma {:induction false} ResolveOn(fs: FS, cur: Path, a: Text, b: Text, fuel: nat, more: nat, dir: Path)
    requires Resolve(fs, cur, a, fuel) == At(dir) && RealDir(fs, dir) && Resolve(fs, dir, b, more).At?
    ensures Resolve(fs, cur, a + b, fuel + more) == Resolve(fs, dir, b, more)
    decreases fuel, |a|
  {
    if a == [] {
      assert a + b == b;
      MoreFuel(fs, dir, b, more, fuel);
    } else {
      assert (a + b)[0] == a[0] && (a + b)[1..] == a[1..] + b;
      var child := cur + [a[0]];
      if !IsName(a[0]) {
        ResolveOn(fs, Advance(cur, a[0]), a[1..], b, fuel, more, dir);
      } else if fs[child].Dir? {
        ResolveOn(fs, child, a[1..], b, fuel, more, dir);
      } else if fs[child].Link? {
        var text := fs[child].text;
        assert text + (a[1..] + b) == text + a[1..] + b;
        ResolveOn(fs, if IsAbs(text) then [] else cur, text + a[1..], b, fuel - 1, more, dir);
      }
    }
  }

  /** What is at the path, its last component not followed when a link is asked for:
      the same link, a directory, or a file with this content and these mode bits. */
  ghost predicate FoundAt(fs: FS, path: Path, node: Node) {
    if node.Link? then path != [] && exists k: nat :: LinkAt(fs, Eval(k, fs, Parent(path)), path[|path| - 1], node)
    else exists k: nat :: NodeAt(fs, Eval(k, fs, path), node)
  }

  predicate NodeAt(fs: FS, r: Resolved, node: Node) {
    r.At? && r.path in fs &&
    match node
    case Dir => fs[r.path].Dir?
    case File(content, mode) => fs[r.path].File? && content == fs[r.path].content && mode == (fs[r.path].mode & 0x1FF) | 0x80
    case Link(_) => false
  }

  predicate LinkAt(fs: FS, dir: Resolved, name: string, node: Node) {
    dir.At? && dir.path + [name] in fs && fs[dir.path + [name]] == node
  }

  lemma FollowLink(limit: nat, fs: FS, source: Path, target: Path, r: Path, node: Node)
    requires WF(fs) && Eval(limit, fs, source) == At(target) && target in fs && !fs[target].Link? && FoundAt(fs, target + r, node)
    requires r != [] ==> RealDir(fs, target)
    ensures FoundAt(fs, source + r, node)
  {
    if r == [] {
      FollowedEnd(limit, fs, source, target, node);
    } else if node.Link? {
      assert Parent(target + r) == target + Parent(r) && Parent(source + r) == source + Parent(r);
      var k: nat :| LinkAt(fs, Eval(k, fs, Parent(target + r)), (target + r)[|target + r| - 1], node);
      ResolveThrough(limit, fs, source, target, Parent(r), k);
      assert LinkAt(fs, Eval(limit + k, fs, Parent(source + r)), (source + r)[|source + r| - 1], node);
    } else {
      var k: nat :| NodeAt(fs, Eval(k, fs, target + r), node);
      ResolveThrough(limit, fs, source, target, r, k);
      assert NodeAt(fs, Eval(limit + k, fs, source + r), node);
    }
  }

  lemma ResolveThrough(limit: nat, fs: FS, source: Path, target: Path, r: Path, k: nat)
    requires WF(fs) && Eval(limit, fs, source) == At(target) && RealDir(fs, target) && Eval(k, fs, target + r).At?
    ensures Eval(limit + k, fs, source + r) == Eval(k, fs, target + r)
  {
    EvalBelow(k, fs, target, r);
    ResolveOn(fs, [], source, r, limit, k, target);
  }

  lemma FollowedEnd(limit: nat, fs: FS, source: Path, target: Path, node: Node)
    requires WF(fs) && Eval(limit, fs, source) == At(target) && target in fs && !fs[target].Link? && FoundAt(fs, target + [], node)
    ensures FoundAt(fs, source + [], node)
  {
    assert target + [] == target && source + [] == source;
    if node.Link? {
      assert Parent(target) < target && Parent(target) + [target[|target| - 1]] == target;
      AncestorOf(fs, Parent(target), target);
      var k: nat :| LinkAt(fs, Eval(k, fs, Parent(target)), target[|target| - 1], node);
      EvalPhysical(k, fs, Parent(target));
    } else {
      var k: nat :| NodeAt(fs, Eval(k, fs, target), node);
      EvalPhysical(k, fs, target);
      assert NodeAt(fs, Eval(limit, fs, source), node);
    }
  }

  /** A directory's copy holds, below each name, the copy of that entry. */
  lemma DirEntry(limit: nat, fs: FS, root: Path, source: Path, dest: Path, active: set<Path>, r: Path)
    requires WF(fs) && RealDir(fs, source) && CopyNode(limit, fs, root, source, dest, active).Ok?
    requires r != [] && source + [r[0]] in fs
    ensures |Dirs(fs) - (active + {source})| < |Dirs(fs) - active|
    ensures source + r == source + [r[0]] + r[1..] && dest + r == dest + [r[0]] + r[1..]
    ensures var child := CopyNode(limit, fs, root, source + [r[0]], dest + [r[0]], active + {source});
      child.Ok? && SameAt(child.value, CopyNode(limit, fs, root, source, dest, active).value, dest + r)
  {
    ActiveGrows(fs, active, source);
    SplitHead(dest, r);
    SplitHead(source, r);
    var names := ReadDir(fs, source);
    var k :| 0 <= k < |names| && names[k] == r[0];
    EntryAt(limit, fs, root, source, dest, active + {source}, names, k);
    var child := CopyNode(limit, fs, root, source + [r[0]], dest + [r[0]], active + {source});
    var rest := CopyEntries(limit, fs, root, source, dest, active + {source}, names).value;
    assert SameAt(child.value, rest, dest + r) && dest + r != dest;
  }

  /** What a directory's copy holds beside the directory itself comes from its entries. */
  lemma DirNames(limit: nat, fs: FS, root: Path, source: Path, dest: Path, active: set<Path>, r: Path)
    requires WF(fs) && RealDir(fs, source) && CopyNode(limit, fs, root, source, dest, active).Ok?
    requires dest + r in CopyNode(limit, fs, root, source, dest, active).value && r != []
    ensures source + [r[0]] in fs
  {
    EntriesUnder(limit, fs, root, source, dest, active + {source}, ReadDir(fs, source));
    assert (dest + r)[|dest|] == r[0] && dest + r != dest;
  }

  lemma SplitHead(d: Path, r: Path)
    requires r != []
    ensures d + r == d + [r[0]] + r[1..] && d + [r[0]] <= d + r && d < d + r
  {}

  /** Everything in the copy is what the same path in the source tree leads to. */
  lemma {:induction false} CopyKeepsNodes(limit: nat, fs: FS, root: Path, source: Path, dest: Path, active: set<Path>, r: Path)
    requires WF(fs) && CopyNode(limit, fs, root, source, dest, active).Ok?
    requires dest + r in CopyNode(limit, fs, root, source, dest, active).value
    ensures FoundAt(fs, source + r, CopyNode(limit, fs, root, source, dest, active).value[dest + r])
    decreases |Dirs(fs) - active|, if source in fs && fs[source].Link? then 1 else 0, 0
  {
    var node := CopyNode(limit, fs, root, source, dest, active).value[dest + r];
    if r == [] && !Followed(limit, fs, root, source) {
      CopiedItself(limit, fs, root, source, dest, active);
    } else if fs[source].Link? {
      LinkFollowed(limit, fs, root, source, dest, active, r);
      CopyKeepsNodes(limit, fs, root, Eval(limit, fs, source).path, dest, active, r);
      FollowLink(limit, fs, source, Eval(limit, fs, source).path, r, node);
    } else {
      assert |dest + r| > |dest|;
      DirNames(limit, fs, root, source, dest, active, r);
      DirEntry(limit, fs, root, source, dest, active, r);
      CopyKeepsNodes(limit, fs, root, source + [r[0]], dest + [r[0]], active + {source}, r[1..]);
    }
  }

  /** The link at `source` is absolute or leads out of the tree. */
  predicate Followed(limit: nat, fs: FS, root: Path, source: Path) {
    source in fs && fs[source].Link? && Eval(limit, fs, source).At? &&
    (IsAbs(fs[source].text) || !IsWithin(root, Eval(limit, fs, source).path))
  }

  lemma CopiedItself(limit: nat, fs: FS, root: Path, source: Path, dest: Path, active: set<Path>)
    requires WF(fs) && CopyNode(limit, fs, root, source, dest, active).Ok? && !Followed(limit, fs, root, source)
    requires dest + [] in CopyNode(limit, fs, root, source, dest, active).value
    ensures FoundAt(fs, source + [], CopyNode(limit, fs, root, source, dest, active).value[dest + []])
  {
    assert dest + [] == dest && source + [] == source;
    var node := CopyNode(limit, fs, root, source, dest, active).value[dest];
    if fs[source].Link? {
      assert Parent(source) < source && Parent(source) + [source[|source| - 1]] == source;
      AncestorOf(fs, Parent(source), source);
      EvalPhysical(0, fs, Parent(source));
      assert LinkAt(fs, Eval(0, fs, Parent(source)), source[|source| - 1], node);
    } else {
      if fs[source].Dir? { EntriesUnder(limit, fs, root, source, dest, active + {source}, ReadDir(fs, source)); }
      EvalPhysical(0, fs, source);
      assert NodeAt(fs, Eval(0, fs, source), node);
    }
  }

  /** A link whose copy is not that link has been followed, and only a directory has more below it. */
  lemma LinkFollowed(limit: nat, fs: FS, root: Path, source: Path, dest: Path, active: set<Path>, r: Path)
    requires WF(fs) && source in fs && fs[source].Link? && CopyNode(limit, fs, root, source, dest, active).Ok?
    requires dest + r in CopyNode(limit, fs, root, source, dest, active).value
    requires r != [] || Followed(limit, fs, root, source)
    ensures Eval(limit, fs, source).At?
    ensures var target := Eval(limit, fs, source).path;
      && target in fs && !fs[target].Link? && (r != [] ==> RealDir(fs, target))
      && CopyNode(limit, fs, root, source, dest, active) == CopyNode(limit, fs, root, target, dest, active)
  {
    ResolvedIsPhysical(fs, [], source, limit);
    assert r != [] ==> dest + r != dest;
  }

  /** What the tree's own node at `p` becomes: a file keeps its content, a relative link
      that leads into the tree stays, any other link becomes what it leads to. */
  ghost predicate CopiedAs(limit: nat, fs: FS, root: Path, p: Path, tree: FS, d: Path)
    requires p in fs
  {
    match fs[p]
    case Dir => d in tree && tree[d] == Dir
    case File(content, mode) => d in tree && tree[d] == File(content, (mode & 0x1FF) | 0x80)
    case Link(text) =>
      match Eval(limit, fs, p)
      case At(target) =>
        if !IsAbs(text) && IsWithin(root, target) then d in tree && tree[d] == Link(text)
        else d in tree && NodeAt(fs, At(target), tree[d])
      case NoEntry => d !in tree
      case _ => false
  }

  lemma CopiedHere(limit: nat, fs: FS, root: Path, source: Path, dest: Path, active: set<Path>)
    requires WF(fs) && CopyNode(limit, fs, root, source, dest, active).Ok? && source in fs
    ensures CopiedAs(limit, fs, root, source, CopyNode(limit, fs, root, source, dest, active).value, dest)
  {
    if fs[source].Dir? {
      EntriesUnder(limit, fs, root, source, dest, active + {source}, ReadDir(fs, source));
    } else if Followed(limit, fs, root, source) {
      ResolvedIsPhysical(fs, [], source, limit);
      var target := Eval(limit, fs, source).path;
      if fs[target].Dir? { EntriesUnder(limit, fs, root, target, dest, active + {target}, ReadDir(fs, target)); }
    }
  }

  /** Everything that lies in the tree itself is copied to the same relative path. */
  lemma {:induction false} CopyIsComplete(limit: nat, fs: FS, root: Path, source: Path, dest: Path, active: set<Path>, r: Path)
    requires WF(fs) && CopyNode(limit, fs, root, source, dest, active).Ok? && source + r in fs
    ensures CopiedAs(limit, fs, root, source + r, CopyNode(limit, fs, root, source, dest, active).value, dest + r)
    decreases |r|
  {
    if r == [] {
      assert source + r == source && dest + r == dest;
      CopiedHere(limit, fs, root, source, dest, active);
    } else {
      SplitHead(source, r);
      AncestorOf(fs, source, source + r);
      if source + [r[0]] != source + r { AncestorOf(fs, source + [r[0]], source + r); }
      DirEntry(limit, fs, root, source, dest, active, r);
      CopyIsComplete(limit, fs, root, source + [r[0]], dest + [r[0]], active + {source}, r[1..]);
    }
  }

  // ----- the whole copy -----

  lemma TopEntry(limit: nat, fs: FS, source: Path, dest: Path, r: Path)
    requires WF(fs) && Copy(limit, fs, source, dest).Ok? && r != [] && Eval(limit, fs, source).path + [r[0]] in fs
    ensures var root := Eval(limit, fs, source).path;
      && root + r == root + [r[0]] + r[1..] && dest + r == dest + [r[0]] + r[1..]
      && var child := CopyNode(limit, fs, root, root + [r[0]], dest + [r[0]], {});
         child.Ok? && SameAt(child.value, Copy(limit, fs, source, dest).value, dest + r)
  {
    var root := Eval(limit, fs, source).path;
    SplitHead(dest, r);
    SplitHead(root, r);
    var names := ReadDir(fs, root);
    var k :| 0 <= k < |names| && names[k] == r[0];
    EntryAt(limit, fs, root, root, dest, {}, names, k);
    var child := CopyNode(limit, fs, root, root + [r[0]], dest + [r[0]], {});
    var rest := CopyEntries(limit, fs, root, root, dest, {}, names).value;
    assert SameAt(child.value, rest, dest + r) && dest + r != dest;
  }

  /** Each node of a copied tree is what the same path in the source tree leads to, and a
      copied link is relative and was one that leads into the tree. */
  lemma CopyIsFaithful(limit: nat, fs: FS, source: Path, dest: Path, r: Path)
    requires WF(fs) && Copy(limit, fs, source, dest).Ok? && r != [] && dest + r in Copy(limit, fs, source, dest).value
    ensures var root := Eval(limit, fs, source).path;
      var node := Copy(limit, fs, source, dest).value[dest + r];
      FoundAt(fs, root + r, node) && LinkKept(limit, fs, root, node)
  {
    var root := Eval(limit, fs, source).path;
    EntriesUnder(limit, fs, root, root, dest, {}, ReadDir(fs, root));
    assert (dest + r)[|dest|] == r[0] && dest + r != dest;
    TopEntry(limit, fs, source, dest, r);
    CopyKeepsLinks(limit, fs, root, root + [r[0]], dest + [r[0]], {}, dest + r);
    CopyKeepsNodes(limit, fs, root, root + [r[0]], dest + [r[0]], {}, r[1..]);
  }

  /** Each file, directory and link that lies in the source tree itself is in the copy,
      except a link that leads nowhere. */
  lemma CopyIsWhole(limit: nat, fs: FS, source: Path, dest: Path, r: Path)
    requires WF(fs) && Copy(limit, fs, source, dest).Ok? && r != []
    requires Eval(limit, fs, source).path + r in fs
    ensures var root := Eval(limit, fs, source).path;
      CopiedAs(limit, fs, root, root + r, Copy(limit, fs, source, dest).value, dest + r)
  {
    var root := Eval(limit, fs, source).path;
    SplitHead(root, r);
    if root + [r[0]] != root + r { AncestorOf(fs, root + [r[0]], root + r); }
    TopEntry(limit, fs, source, dest, r);
    CopyIsComplete(limit, fs, root, root + [r[0]], dest + [r[0]], {}, r[1..]);
  }

  // ----- the copy as it runs -----

  function Join(found: FS, r: Result<FS>): Result<FS> {
    match r
    case Ok(rest) => Ok(found + rest)
    case Err => Err
  }

  /** The k-th entry either fails the copy or adds its part to what was found before. */
  lemma EntriesNext(limit: nat, fs: FS, root: Path, source: Path, dest: Path, active: set<Path>, names: seq<string>, k: nat, found: FS)
    requires WF(fs) && k < |names|
    ensures var first := CopyNode(limit, fs, root, source + [names[k]], dest + [names[k]], active);
      var here := CopyEntries(limit, fs, root, source, dest, active, names[k..]);
      if first.Err? then here.Err?
      else Join(found, here) == Join(found + first.value, CopyEntries(limit, fs, root, source, dest, active, names[k + 1..]))
  {
    assert names[k..][0] == names[k] && names[k..][1..] == names[k + 1..];
    var first := CopyNode(limit, fs, root, source + [names[k]], dest + [names[k]], active);
    var rest := CopyEntries(limit, fs, root, source, dest, active, names[k + 1..]);
    if first.Ok? && rest.Ok? { assert found + (first.value + rest.value) == found + first.value + rest.value; }
  }

  /** Nothing lies at or below the places where the entries from the k-th on will be copied. */
  ghost predicate RoomFor(out: FS, dest: Path, names: seq<string>, k: nat) {
    forall i, p :: k <= i < |names| && p in out ==> !(dest + [names[i]] <= p)
  }

  lemma RoomStays(out: FS, first: FS, dest: Path, names: seq<string>, k: nat)
    requires k < |names| && Distinct(names) && RoomFor(out, dest, names, k) && Under(first, dest + [names[k]])
    ensures RoomFor(out + first, dest, names, k + 1)
  {
    forall i, p | k + 1 <= i < |names| && p in out + first ensures !(dest + [names[i]] <= p) {
      assert (dest + [names[i]])[|dest|] == names[i] && (dest + [names[k]])[|dest|] == names[k];
    }
  }

  /** Making the destination directory leaves room for all its entries. */
  lemma RoomAtFirst(out: FS, out': FS, dest: Path, names: seq<string>)
    requires dest != [] && Parent(dest) in out && (forall p :: p in out ==> !(dest <= p)) && out' == MkDirs(out, dest)
    ensures out' == out + map[dest := Dir] && RoomFor(out', dest, names, 0)
  {
    assert dest !in out by { assert dest <= dest; }
    assert out' == out[dest := Dir] == out + map[dest := Dir];
    forall i, p | 0 <= i < |names| && p in out' ensures !(dest + [names[i]] <= p) {
      assert dest < dest + [names[i]];
    }
  }

  /** `out'` has, beyond `out`, what `found'` has beyond `found`. */
  ghost predicate AddsUp(out: FS, found: FS, out': FS, found': FS) {
    exists more :: found' == found + more && out' == out + more
  }

  lemma AddedUp(start: FS, out: FS, found: FS, out': FS, found': FS)
    requires out == start + found && AddsUp(out, found, out', found')
    ensures out' == start + found'
  {
    var more :| found' == found + more && out' == out + more;
    assert start + found + more == start + (found + more);
  }

  /** The output tree and the set of open directories that copyNode passes along. */
  class TreeCopier {
    const limit: nat
    const fs: FS
    const root: Path
    var out: FS
    var active: set<Path>

    constructor (limit: nat, fs: FS, root: Path, out: FS)
      ensures this.limit == limit && this.fs == fs && this.root == root && this.out == out && active == {}
    {
      this.limit, this.fs, this.root, this.out, active := limit, fs, root, out, {};
    }

    /** Whatever happens, the directories opened on the way are closed again. */
    method CopyNodeTo(source: Path, dest: Path) returns (ok: bool)
      requires WF(fs) && dest != [] && Parent(dest) in out && forall p :: p in out ==> !(dest <= p)
      modifies this
      ensures active == old(active)
      ensures var r := CopyNode(limit, fs, root, source, dest, active);
        ok == r.Ok? && (ok ==> out == old(out) + r.value)
      decreases |Dirs(fs) - active|, if source in fs && fs[source].Link? then 1 else 0, 1
    {
      if source !in fs {
        assert out + map[] == out;
        return true;
      }
      match fs[source] {
        case Link(_) => ok := CopyLinkTo(source, dest);
        case Dir =>
          if source in active { return false; }
          ok := CopyDirTo(source, dest);
        case File(content, mode) =>
          out := out[dest := File(content, (mode & 0x1FF) | 0x80)];
          ok := true;
      }
    }

    method CopyLinkTo(source: Path, dest: Path) returns (ok: bool)
      requires WF(fs) && dest != [] && Parent(dest) in out && forall p :: p in out ==> !(dest <= p)
      requires source in fs && fs[source].Link?
      modifies this
      ensures active == old(active)
      ensures var r := CopyNode(limit, fs, root, source, dest, active);
        ok == r.Ok? && (ok ==> out == old(out) + r.value)
      decreases |Dirs(fs) - active|, 1, 0
    {
      var target := Eval(limit, fs, source);
      if target.NoEntry? {
        assert out + map[] == out;
        return true;
      }
      if !target.At? { return false; }
      ResolvedIsPhysical(fs, [], source, limit);
      var link := fs[source].text;
      if !IsAbs(link) && IsWithin(root, target.path) {
        out := out[dest := Link(link)];
        return true;
      }
      ok := CopyNodeTo(target.path, dest);
    }

    method CopyDirTo(source: Path, dest: Path) returns (ok: bool)
      requires WF(fs) && dest != [] && Parent(dest) in out && forall p :: p in out ==> !(dest <= p)
      requires RealDir(fs, source) && source !in active
      modifies this
      ensures active == old(active)
      ensures var r := CopyNode(limit, fs, root, source, dest, active);
        ok == r.Ok? && (ok ==> out == old(out) + r.value)
      decreases |Dirs(fs) - active|, 0, 0
    {
      var names := ReadDir(fs, source);
      ActiveGrows(fs, active, source);
      active := active + {source};
      out := MkDirs(out, dest);
      RoomAtFirst(old(out), out, dest, names);
      ok := CopyEntriesTo(source, dest, names);
      active := active - {source};
      DirAdded(old(out), dest, CopyEntries(limit, fs, root, source, dest, old(active) + {source}, names));
    }

    method CopyEntriesTo(source: Path, dest: Path, names: seq<string>) returns (ok: bool)
      requires WF(fs) && dest in out && Distinct(names) && RoomFor(out, dest, names, 0)
      modifies this
      ensures active == old(active)
      ensures var r := CopyEntries(limit, fs, root, source, dest, active, names);
        ok == r.Ok? && (ok ==> out == old(out) + r.value)
      decreases |Dirs(fs) - active|, 3, 0
    {
      ghost var found: FS := map[];
      assert names[0..] == names;
      assert out + map[] == out;
      JoinNothing(CopyEntries(limit, fs, root, source, dest, active, names));
      for k := 0 to |names|
        invariant active == old(active) && dest in out && RoomFor(out, dest, names, k) && out == old(out) + found
        invariant CopyEntries(limit, fs, root, source, dest, active, names) ==
          Join(found, CopyEntries(limit, fs, root, source, dest, active, names[k..]))
      {
        ghost var out0, found0 := out, found;
        ok, found := CopyNth(source, dest, names, k, found);
        if !ok { return; }
        AddedUp(old(out), out0, found0, out, found);
      }
      assert names[|names|..] == [];
      ok := true;
    }

    /** One turn of the loop; `found` is what the earlier turns added. */
    method CopyNth(source: Path, dest: Path, names: seq<string>, k: nat, ghost found: FS) returns (ok: bool, ghost found': FS)
      requires WF(fs) && dest in out && Distinct(names) && k < |names| && RoomFor(out, dest, names, k)
      modifies this
      ensures active == old(active)
      ensures var here := CopyEntries(limit, fs, root, source, dest, active, names[k..]);
        if ok then
          && AddsUp(old(out), found, out, found') && dest in out && RoomFor(out, dest, names, k + 1)
          && Join(found, here) == Join(found', CopyEntries(limit, fs, root, source, dest, active, names[k + 1..]))
        else here.Err?
      decreases |Dirs(fs) - active|, 2, 0
    {
      EntriesNext(limit, fs, root, source, dest, active, names, k, found);
      CopyUnder(limit, fs, root, source + [names[k]], dest + [names[k]], active);
      assert Parent(dest + [names[k]]) == dest;
      ghost var first := CopyNode(limit, fs, root, source + [names[k]], dest + [names[k]], active);
      if first.Ok? { RoomStays(out, first.value, dest, names, k); }
      ok := CopyNodeTo(source + [names[k]], dest + [names[k]]);
      found' := if first.Ok? then found + first.value else found;
    }
  }

  lemma DirAdded(out: FS, dest: Path, r: Result<FS>)
    ensures r.Ok? ==> out + map[dest := Dir] + r.value == out + (map[dest := Dir] + r.value)
  {}

  lemma JoinNothing(r: Result<FS>)
    ensures Join(map[], r) == r
  {
    if r.Ok? { assert map[] + r.value == r.value; }
  }

  /** copyTree into a destination that is not there yet. */
  method CopyAll(limit: nat, fs: FS, source: Path, dest: Path, out: FS) returns (ok: bool, out': FS)
    requires WF(fs) && dest != [] && Parent(dest) in out && forall p :: p in out ==> !(dest <= p)
    ensures var r := Copy(limit, fs, source, dest); ok == r.Ok? && (ok ==> out' == out + r.value)
  {
    var root := Eval(limit, fs, source);
    if !root.At? || !RealDir(fs, root.path) { return false, out; }
    var names := ReadDir(fs, root.path);
    RoomAtFirst(out, MkDirs(out, dest), dest, names);
    var copier := new TreeCopier(limit, fs, root.path, MkDirs(out, dest));
    ok := copier.CopyEntriesTo(root.path, dest, names);
    out' := copier.out;
    DirAdded(out, dest, CopyEntries(limit, fs, root.path, root.path, dest, {}, names));
  }
}
