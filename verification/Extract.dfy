/** Unpacking an archive's entry sequence below a destination directory
    (cmd/binman/store.go), and why nothing can leave that directory. */
module Extract {
  import opened Lexical
  import opened FileTree

  datatype Body =
    | DirBody
    | RegBody(content: Content, mode: bv16)
    | SymBody(link: Text)
    | HardBody(link: Text)
    | OtherBody

  datatype Entry = Entry(name: Text, body: Body)

  /** Drops a leading "./" and then the first component; the empty text is `[""]`. */
  function StripFirst(name: Text): Text {
    var t := if |name| >= 2 && name[0] == "." then name[1..] else name;
    if |t| < 2 then [""] else t[1..]
  }

  predicate WithinRoot(root: Path, p: Path) {
    root < p
  }

  function SafeArchivePath(root: Path, rel: Text): Result<Path> {
    if IsAbs(rel) then Err
    else
      var target := Walk(root, rel);
      if WithinRoot(root, target) then Ok(target) else Err
  }

  function SafeSymlinkTarget(root: Path, linkPath: Path, linkname: Text): Result<Path> {
    if IsAbs(linkname) then Err
    else
      var target := Walk(Parent(linkPath), linkname);
      if WithinRoot(root, target) then Ok(target) else Err
  }

  /** rejectSymlinkParents from the ancestor of length k on: a missing ancestor
      ends the search, anything but a directory fails it. */
  predicate ParentsOk(fs: FS, target: Path, k: nat)
    decreases |target| - k
  {
    if k >= |target| || target[..k] !in fs then true
    else fs[target[..k]].Dir? && ParentsOk(fs, target, k + 1)
  }

  lemma {:induction false} ParentsOkFrom(fs: FS, target: Path, k: nat)
    requires WF(fs)
    ensures ParentsOk(fs, target, k) <==> forall j :: k <= j < |target| && target[..j] in fs ==> fs[target[..j]].Dir?
    decreases |target| - k
  {
    if k < |target| {
      if target[..k] in fs {
        ParentsOkFrom(fs, target, k + 1);
      } else {
        forall j | k <= j < |target| ensures target[..j] !in fs {
          assert target[..j][..k] == target[..k];
          if target[..j] in fs && k < j { Ancestor(fs, target[..j], k); }
        }
      }
    }
  }

  /** The check accepts exactly the targets with no file or link above them. */
  lemma ParentsOkIsRealAbove(fs: FS, root: Path, target: Path)
    requires WF(fs) && root in fs && fs[root].Dir? && root <= target
    ensures ParentsOk(fs, target, |root| + 1) <==> RealAbove(fs, target)
  {
    ParentsOkFrom(fs, target, |root| + 1);
    if ParentsOk(fs, target, |root| + 1) {
      forall q | q < target && q in fs ensures fs[q].Dir? {
        assert q == target[..|q|];
        if |q| <= |root| && q != root {
          assert q == root[..|q|];
          Ancestor(fs, root, |q|);
        }
      }
    } else {
      var j :| |root| + 1 <= j < |target| && target[..j] in fs && !fs[target[..j]].Dir?;
      assert target[..j] < target;
    }
  }

  /** MkdirAll: an existing link is accepted when it leads to a directory. */
  function MkdirAll(limit: nat, fs: FS, p: Path): Step
    requires WF(fs) && RealAbove(fs, p)
  {
    if p !in fs then Step(MkDirs(fs, p), true)
    else match fs[p]
      case Dir => Step(fs, true)
      case File(_, _) => Step(fs, false)
      case Link(_) =>
        var r := Eval(limit, fs, p);
        Step(fs, r.At? && r.path in fs && fs[r.path].Dir?)
  }

  /** Creates the missing parents of `p`, then puts `node` there. */
  function Put(fs: FS, p: Path, node: Node): FS {
    MkDirs(fs, Parent(p))[p := node]
  }

  /** writeFile: a new file gets `mode`, an existing one keeps its own. */
  function WriteFile(fs: FS, p: Path, content: Content, mode: bv16): Step
    requires WF(fs) && RealAbove(fs, p) && (p in fs ==> !fs[p].Link?)
  {
    if p !in fs then Step(Put(fs, p, File(content, mode)), true)
    else if fs[p].Dir? then Step(fs, false)
    else Step(Put(fs, p, File(content, fs[p].mode)), true)
  }

  /** Remove whatever is at `p`, unless it is a directory with something in it,
      and put a symbolic link there. */
  function ReplaceByLink(fs: FS, p: Path, text: Text): Step
    requires WF(fs) && RealAbove(fs, p)
  {
    if p in fs && fs[p].Dir? && !Childless(fs, p) then Step(fs, false)
    else Step(Put(fs, p, Link(text)), true)
  }

  /** link(2): a second name for what `source` names. */
  function HardLink(fs: FS, source: Path, p: Path): Step
    requires WF(fs) && RealAbove(fs, p) && RealAbove(fs, source)
  {
    var made := MkDirs(fs, Parent(p));
    if source !in made || made[source].Dir? || p in made then Step(made, false)
    else Step(made[p := made[source]], true)
  }

  function ExtractEntry(limit: nat, fs: FS, dst: Path, e: Entry): Step
    requires WF(fs) && RealDir(fs, dst)
  {
    var rel := StripFirst(e.name);
    if rel == [""] then Step(fs, true)
    else
      match SafeArchivePath(dst, rel)
      case Err => Step(fs, false)
      case Ok(target) =>
        ParentsOkIsRealAbove(fs, dst, target);
        if !ParentsOk(fs, target, |dst| + 1) then Step(fs, false)
        else ExtractBody(limit, fs, dst, target, e.body)
  }

  function ExtractBody(limit: nat, fs: FS, dst: Path, target: Path, body: Body): Step
    requires WF(fs) && RealDir(fs, dst) && dst < target && RealAbove(fs, target)
  {
    match body
    case DirBody => MkdirAll(limit, fs, target)
    case RegBody(content, mode) =>
      if target in fs && fs[target].Link? then Step(fs, false)
      else WriteFile(fs, target, content, mode & 0x1FF)
    case SymBody(link) =>
      (match SafeSymlinkTarget(dst, target, link)
       case Err => Step(fs, false)
       case Ok(linkTarget) => ReplaceByLink(fs, target, Rel(Parent(target), linkTarget)))
    case HardBody(link) =>
      var linkRel := StripFirst(link);
      if linkRel == [""] then Step(fs, false)
      else
        (match SafeArchivePath(dst, linkRel)
         case Err => Step(fs, false)
         case Ok(source) =>
           ParentsOkIsRealAbove(fs, dst, source);
           if !ParentsOk(fs, source, |dst| + 1) then Step(fs, false)
           else HardLink(fs, source, target))
    case OtherBody => Step(fs, false)
  }

  /** extractTarGz: entry by entry, stopping at the first error. */
  function ExtractAll(limit: nat, fs: FS, dst: Path, es: seq<Entry>): Step
    requires WF(fs) && RealDir(fs, dst)
    decreases |es|
  {
    if es == [] then Step(fs, true)
    else
      var s := ExtractEntry(limit, fs, dst, es[0]);
      ExtractEntryKeeps(limit, fs, dst, es[0]);
      if s.ok then ExtractAll(limit, s.fs, dst, es[1..]) else s
  }

  // ----- what every entry keeps -----

  lemma {:induction false} WalkIsNames(cur: Path, t: Text)
    requires Names(cur)
    ensures Names(Walk(cur, t))
    decreases |t|
  {
    if t != [] { WalkIsNames(Advance(cur, t[0]), t[1..]); }
  }

  lemma PutEffect(fs: FS, p: Path, node: Node)
    requires WF(fs) && Names(p) && RealAbove(fs, p) && p != [] && Childless(fs, p)
    ensures WF(Put(fs, p, node))
    ensures forall q :: q in Put(fs, p, node) <==> q in fs || q <= p
    ensures Put(fs, p, node)[p] == node
    ensures forall q :: q in fs && q != p ==> Put(fs, p, node)[q] == fs[q]
    ensures forall q :: q < p ==> Put(fs, p, node)[q] == Dir
  {
    var d := Parent(p);
    assert d < p;
    MkDirsEffect(fs, d);
    var fs' := Put(fs, p, node);
    forall q ensures q in fs' <==> q in fs || q <= p { PrefixStep(q, p); }
    forall q | q < p ensures fs'[q] == Dir { PrefixStep(q, p); }
    forall q | q in fs' && q != [] ensures Parent(q) in fs' && fs'[Parent(q)].Dir? {
      assert Parent(q) < q;
      assert Parent(q) != p;
      PrefixStep(q, p);
    }
  }

  /** A step that only creates directories and at most one node, below `dst`. */
  ghost predicate Grows(fs: FS, fs': FS, dst: Path, target: Path) {
    && WF(fs')
    && SameOutside(fs, fs', dst)
    && (forall q :: q in fs' ==> q in fs || q <= target)
    && (forall q :: q in fs && fs[q].Dir? && q != target ==> q in fs' && fs'[q].Dir?)
    && (forall q :: q in fs' && q != target ==> SameAt(fs, fs', q) || fs'[q].Dir?)
  }

  lemma PutGrows(fs: FS, dst: Path, p: Path, node: Node)
    requires WF(fs) && Names(p) && RealAbove(fs, p) && Childless(fs, p)
    requires RealDir(fs, dst) && dst < p
    ensures Grows(fs, Put(fs, p, node), dst, p) && Put(fs, p, node)[p] == node
  {
    PutEffect(fs, p, node);
    var fs' := Put(fs, p, node);
    forall q | !(dst < q) ensures SameAt(fs, fs', q) {
      if q <= p && q != dst { AncestorOf(fs, q, dst); }
    }
    forall q | q in fs' && q != p ensures SameAt(fs, fs', q) || fs'[q].Dir? {}
  }

  lemma MkDirsGrows(fs: FS, dst: Path, p: Path, target: Path)
    requires WF(fs) && Names(p) && RealAbove(fs, p) && (p in fs ==> fs[p].Dir?)
    requires RealDir(fs, dst) && dst <= p <= target
    ensures Grows(fs, MkDirs(fs, p), dst, target)
  {
    MkDirsEffect(fs, p);
    var fs' := MkDirs(fs, p);
    forall q | !(dst < q) ensures SameAt(fs, fs', q) {
      if q <= p && q != dst { AncestorOf(fs, q, dst); }
    }
  }

  lemma ConfinedGrows(fs: FS, fs': FS, dst: Path, target: Path)
    requires Confined(fs, dst) && Grows(fs, fs', dst, target)
    requires target in fs' && fs'[target].Link? ==> LinkOk(fs'[target].text, |target| - 1 - |dst|)
    ensures Confined(fs', dst)
  {
    forall p | p in fs' && dst < p && fs'[p].Link? ensures LinkOk(fs'[p].text, |p| - 1 - |dst|) {
      if p != target { assert SameAt(fs, fs', p); }
    }
  }

  /** The hard link, if this is one, does not name a symbolic link. */
  ghost predicate PlainSource(fs: FS, dst: Path, e: Entry) {
    e.body.HardBody? ==>
      var source := SafeArchivePath(dst, StripFirst(e.body.link));
      source.Ok? && source.value in fs ==> !fs[source.value].Link?
  }

  lemma ExtractBodyKeeps(limit: nat, fs: FS, dst: Path, target: Path, body: Body)
    requires WF(fs) && RealDir(fs, dst) && dst < target && RealAbove(fs, target) && Names(target)
    ensures Grows(fs, ExtractBody(limit, fs, dst, target, body).fs, dst, target)
    ensures Confined(fs, dst) && PlainSource(fs, dst, Entry([], body)) ==>
      Confined(ExtractBody(limit, fs, dst, target, body).fs, dst)
  {
    var s := ExtractBody(limit, fs, dst, target, body);
    if s.fs != fs {
      match body {
        case DirBody =>
          MkDirsGrows(fs, dst, target, target);
          MkDirsEffect(fs, target);
        case RegBody(content, mode) =>
          FileIsChildless(fs, target);
          PutGrows(fs, dst, target, s.fs[target]);
        case SymBody(link) =>
          var linkTarget := SafeSymlinkTarget(dst, target, link).value;
          var text := Rel(Parent(target), linkTarget);
          if target !in fs || !fs[target].Dir? { FileIsChildless(fs, target); }
          PutGrows(fs, dst, target, Link(text));
          assert Names(Parent(target));
          WalkIsNames(Parent(target), link);
          RelClimbs(dst, Parent(target), linkTarget);
        case HardBody(link) =>
          var source := SafeArchivePath(dst, StripFirst(link)).value;
          ParentsOkIsRealAbove(fs, dst, source);
          HardLinkKeeps(fs, dst, source, target);
        case OtherBody =>
      }
      if Confined(fs, dst) && PlainSource(fs, dst, Entry([], body)) {
        ConfinedGrows(fs, s.fs, dst, target);
      }
    }
  }

  lemma HardLinkKeeps(fs: FS, dst: Path, source: Path, p: Path)
    requires WF(fs) && RealDir(fs, dst) && dst < p && RealAbove(fs, p) && RealAbove(fs, source) && Names(p)
    ensures var s := HardLink(fs, source, p);
      && Grows(fs, s.fs, dst, p)
      && ((source in fs ==> !fs[source].Link?) ==> p in s.fs && s.fs[p].Link? ==> SameAt(fs, s.fs, p))
  {
    var d := Parent(p);
    var s := HardLink(fs, source, p);
    assert d < p;
    MkDirsGrows(fs, dst, d, p);
    MkDirsEffect(fs, d);
    if s.ok {
      if p in fs { assert false; }
      FileIsChildless(fs, p);
      PutGrows(fs, dst, p, s.fs[p]);
      assert s.fs == Put(fs, p, s.fs[p]);
    }
  }

  lemma ExtractEntryKeeps(limit: nat, fs: FS, dst: Path, e: Entry)
    requires WF(fs) && RealDir(fs, dst)
    ensures var s := ExtractEntry(limit, fs, dst, e);
      && WF(s.fs) && RealDir(s.fs, dst) && SameOutside(fs, s.fs, dst)
      && (Confined(fs, dst) && PlainSource(fs, dst, e) ==> Confined(s.fs, dst))
  {
    var rel := StripFirst(e.name);
    var target := SafeArchivePath(dst, rel);
    if rel != [""] && target.Ok? {
      ParentsOkIsRealAbove(fs, dst, target.value);
      if ParentsOk(fs, target.value, |dst| + 1) {
        WalkIsNames(dst, rel);
        ExtractBodyKeeps(limit, fs, dst, target.value, e.body);
      }
    }
    var s := ExtractEntry(limit, fs, dst, e);
    assert SameAt(fs, s.fs, dst);
  }

  // ----- what one entry leaves -----

  /** Beyond the target itself only missing directories above it have been made. */
  ghost predicate OnlyTarget(fs: FS, fs': FS, target: Path) {
    && (forall p :: !(p <= target) ==> SameAt(fs, fs', p))
    && (forall p :: p < target ==> RealDir(fs', p))
  }

  /** What is at the target once an entry with this body has been unpacked. */
  ghost predicate Unpacked(limit: nat, fs: FS, fs': FS, dst: Path, target: Path, body: Body) {
    && target in fs'
    && match body
       case DirBody => fs'[target].Dir? || (SameAt(fs, fs', target) && LeadsToDir(limit, fs, target))
       case RegBody(content, mode) =>
         fs'[target] == File(content, if target in fs && fs[target].File? then fs[target].mode else mode & 0x1FF)
       case SymBody(link) =>
         && fs'[target].Link? && !IsAbs(fs'[target].text)
         && SafeSymlinkTarget(dst, target, link) == Ok(LinkTarget(Parent(target), fs'[target].text))
       case HardBody(link) =>
         var source := SafeArchivePath(dst, StripFirst(link));
         source.Ok? && source.value in fs && !fs[source.value].Dir? && target !in fs && fs'[target] == fs[source.value]
       case OtherBody => false
  }

  predicate LeadsToDir(limit: nat, fs: FS, p: Path) {
    var r := Eval(limit, fs, p);
    r.At? && RealDir(fs, r.path)
  }

  lemma PutOnlyTarget(fs: FS, p: Path, node: Node)
    requires WF(fs) && Names(p) && RealAbove(fs, p) && p != [] && Childless(fs, p)
    ensures OnlyTarget(fs, Put(fs, p, node), p) && p in Put(fs, p, node) && Put(fs, p, node)[p] == node
  {
    PutEffect(fs, p, node);
  }

  lemma DirEffect(limit: nat, fs: FS, dst: Path, target: Path)
    requires WF(fs) && RealDir(fs, dst) && dst < target && RealAbove(fs, target) && Names(target)
    requires MkdirAll(limit, fs, target).ok
    ensures var fs' := MkdirAll(limit, fs, target).fs;
      OnlyTarget(fs, fs', target) && Unpacked(limit, fs, fs', dst, target, DirBody)
  {
    if target !in fs {
      MkDirsEffect(fs, target);
    } else {
      forall p | p < target ensures RealDir(fs, p) { AncestorOf(fs, p, target); }
    }
  }

  lemma LinkEffect(limit: nat, fs: FS, dst: Path, target: Path, link: Text)
    requires WF(fs) && RealDir(fs, dst) && dst < target && RealAbove(fs, target) && Names(target)
    requires ExtractBody(limit, fs, dst, target, SymBody(link)).ok
    ensures var fs' := ExtractBody(limit, fs, dst, target, SymBody(link)).fs;
      OnlyTarget(fs, fs', target) && Unpacked(limit, fs, fs', dst, target, SymBody(link))
  {
    var linkTarget := SafeSymlinkTarget(dst, target, link).value;
    if target !in fs || !fs[target].Dir? { FileIsChildless(fs, target); }
    PutOnlyTarget(fs, target, Link(Rel(Parent(target), linkTarget)));
    assert Names(Parent(target));
    WalkIsNames(Parent(target), link);
    RelRoundTrip(Parent(target), linkTarget);
    RelClimbs(dst, Parent(target), linkTarget);
  }

  lemma HardLinkEffect(limit: nat, fs: FS, dst: Path, target: Path, link: Text)
    requires WF(fs) && RealDir(fs, dst) && dst < target && RealAbove(fs, target) && Names(target)
    requires ExtractBody(limit, fs, dst, target, HardBody(link)).ok
    ensures var fs' := ExtractBody(limit, fs, dst, target, HardBody(link)).fs;
      OnlyTarget(fs, fs', target) && Unpacked(limit, fs, fs', dst, target, HardBody(link))
  {
    var source := SafeArchivePath(dst, StripFirst(link)).value;
    ParentsOkIsRealAbove(fs, dst, source);
    var fs' := HardLink(fs, source, target).fs;
    assert Parent(target) < target;
    MkDirsEffect(fs, Parent(target));
    FileIsChildless(fs, target);
    assert fs' == Put(fs, target, fs'[target]);
    PutOnlyTarget(fs, target, fs'[target]);
  }

  /** A successful entry leaves exactly what it says at its target. */
  lemma BodyEffect(limit: nat, fs: FS, dst: Path, target: Path, body: Body)
    requires WF(fs) && RealDir(fs, dst) && dst < target && RealAbove(fs, target) && Names(target)
    requires ExtractBody(limit, fs, dst, target, body).ok
    ensures var fs' := ExtractBody(limit, fs, dst, target, body).fs;
      OnlyTarget(fs, fs', target) && Unpacked(limit, fs, fs', dst, target, body)
  {
    match body {
      case DirBody => DirEffect(limit, fs, dst, target);
      case RegBody(content, mode) =>
        FileIsChildless(fs, target);
        PutOnlyTarget(fs, target, ExtractBody(limit, fs, dst, target, body).fs[target]);
      case SymBody(link) => LinkEffect(limit, fs, dst, target, link);
      case HardBody(link) => HardLinkEffect(limit, fs, dst, target, link);
      case OtherBody =>
    }
  }

  /** An entry is accepted only for a place below `dst` with no file or link above
      it, and then leaves what it says there and nothing anywhere else. */
  lemma EntryEffect(limit: nat, fs: FS, dst: Path, e: Entry)
    requires WF(fs) && RealDir(fs, dst)
    requires ExtractEntry(limit, fs, dst, e).ok && StripFirst(e.name) != [""]
    ensures var target := SafeArchivePath(dst, StripFirst(e.name));
      var fs' := ExtractEntry(limit, fs, dst, e).fs;
      && target.Ok? && dst < target.value && RealAbove(fs, target.value)
      && OnlyTarget(fs, fs', target.value)
      && Unpacked(limit, fs, fs', dst, target.value, e.body)
  {
    var target := SafeArchivePath(dst, StripFirst(e.name)).value;
    ParentsOkIsRealAbove(fs, dst, target);
    WalkIsNames(dst, StripFirst(e.name));
    BodyEffect(limit, fs, dst, target, e.body);
  }

  // ----- when an entry is accepted -----

  /** The text names a place strictly below `dst` above which there is no file or link. */
  ghost predicate Reachable(fs: FS, dst: Path, rel: Text) {
    !IsAbs(rel) && dst < Walk(dst, rel) && RealAbove(fs, Walk(dst, rel))
  }

  /** What may be at the target, and what a link may name, for each kind of entry. */
  ghost predicate BodyFits(limit: nat, fs: FS, dst: Path, target: Path, body: Body) {
    match body
    case DirBody => target in fs && !fs[target].Dir? ==> fs[target].Link? && LeadsToDir(limit, fs, target)
    case RegBody(_, _) => target in fs ==> fs[target].File?
    case SymBody(link) =>
      && !IsAbs(link) && dst < Walk(Parent(target), link)
      && (RealDir(fs, target) ==> Childless(fs, target))
    case HardBody(link) =>
      && StripFirst(link) != [""] && Reachable(fs, dst, StripFirst(link)) && target !in fs
      && var source := Walk(dst, StripFirst(link));
         source in fs && !fs[source].Dir?
    case OtherBody => false
  }

  lemma HardLinkSucceedsExactly(fs: FS, source: Path, target: Path)
    requires WF(fs) && Names(target) && target != [] && RealAbove(fs, target) && RealAbove(fs, source)
    ensures HardLink(fs, source, target).ok <==> source in fs && !fs[source].Dir? && target !in fs
  {
    var d := Parent(target);
    assert d < target;
    MkDirsEffect(fs, d);
    if target in fs { AncestorOf(fs, d, target); }
  }

  lemma BodySucceedsExactly(limit: nat, fs: FS, dst: Path, target: Path, body: Body)
    requires WF(fs) && RealDir(fs, dst) && dst < target && RealAbove(fs, target) && Names(target)
    ensures ExtractBody(limit, fs, dst, target, body).ok <==> BodyFits(limit, fs, dst, target, body)
  {
    if body.HardBody? && StripFirst(body.link) != [""] && SafeArchivePath(dst, StripFirst(body.link)).Ok? {
      var source := SafeArchivePath(dst, StripFirst(body.link)).value;
      ParentsOkIsRealAbove(fs, dst, source);
      if RealAbove(fs, source) { HardLinkSucceedsExactly(fs, source, target); }
    }
  }

  /** An entry is accepted exactly when its name is empty without the first component, or
      names a place below `dst` with no file or link above it where its kind fits: a directory
      where nothing, a directory or a link to one is; a file where nothing or a file is; a
      symbolic link that names a place below `dst` where no full directory is; a hard link
      where nothing is, to something below `dst` that is no directory, wherever it lies. */
  lemma EntrySucceedsExactly(limit: nat, fs: FS, dst: Path, e: Entry)
    requires WF(fs) && RealDir(fs, dst)
    ensures var rel := StripFirst(e.name);
      ExtractEntry(limit, fs, dst, e).ok <==>
        rel == [""] || (Reachable(fs, dst, rel) && BodyFits(limit, fs, dst, Walk(dst, rel), e.body))
  {
    var rel := StripFirst(e.name);
    var target := SafeArchivePath(dst, rel);
    if rel != [""] && target.Ok? {
      ParentsOkIsRealAbove(fs, dst, target.value);
      WalkIsNames(dst, rel);
      if RealAbove(fs, target.value) { BodySucceedsExactly(limit, fs, dst, target.value, e.body); }
    }
  }

  // ----- confinement over whole archives -----

  /** No hard link of the sequence names a symbolic link when it is reached. */
  ghost predicate PlainSources(limit: nat, fs: FS, dst: Path, es: seq<Entry>)
    requires WF(fs) && RealDir(fs, dst)
    decreases |es|
  {
    es == [] ||
    (PlainSource(fs, dst, es[0]) &&
     (ExtractEntryKeeps(limit, fs, dst, es[0]);
      PlainSources(limit, ExtractEntry(limit, fs, dst, es[0]).fs, dst, es[1..])))
  }

  lemma {:induction false} ExtractAllKeeps(limit: nat, fs: FS, dst: Path, es: seq<Entry>)
    requires WF(fs) && RealDir(fs, dst)
    ensures var s := ExtractAll(limit, fs, dst, es);
      && WF(s.fs) && RealDir(s.fs, dst) && SameOutside(fs, s.fs, dst)
      && (Confined(fs, dst) && PlainSources(limit, fs, dst, es) ==> Confined(s.fs, dst))
    decreases |es|
  {
    if es != [] {
      var s := ExtractEntry(limit, fs, dst, es[0]);
      ExtractEntryKeeps(limit, fs, dst, es[0]);
      if s.ok {
        ExtractAllKeeps(limit, s.fs, dst, es[1..]);
        var t := ExtractAll(limit, s.fs, dst, es[1..]);
        forall p | !(dst < p) ensures SameAt(fs, t.fs, p) {
          assert SameAt(fs, s.fs, p) && SameAt(s.fs, t.fs, p);
        }
      }
    }
  }

  /** Whatever the archive holds and wherever it stops, nothing outside `dst` has
      changed, and no path from `dst` leaves `dst` through the links it created. */
  lemma ExtractionIsConfined(limit: nat, fs: FS, dst: Path, es: seq<Entry>, path: Path, fuel: nat)
    requires WF(fs) && RealDir(fs, dst) && Confined(fs, dst)
    requires PlainSources(limit, fs, dst, es) && Names(path)
    ensures var fs' := ExtractAll(limit, fs, dst, es).fs;
      && SameOutside(fs, fs', dst)
      && StaysIn(fs', dst, dst, path, fuel)
      && (Eval(fuel, fs', dst + path).At? ==> dst <= Eval(fuel, fs', dst + path).path)
  {
    var fs' := ExtractAll(limit, fs, dst, es).fs;
    ExtractAllKeeps(limit, fs, dst, es);
    UpsThenNames(0, path);
    assert Ups(0) + path == path;
    ResolutionStaysIn(fs', dst, dst, path, fuel);
    StaysInEnds(fs', dst, dst, path, fuel);
    EvalBelow(fuel, fs', dst, path);
  }
}
