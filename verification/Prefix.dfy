/** An installation prefix: its package stores, their metadata, and which part of
    the tree each operation may change. */
module Prefix {
  import opened Options
  import opened Lexical
  import opened FileTree
  import opened Extract
  import opened Collect
  import opened Aggregate

  predicate IsAlnum(c: char) {
    'a' <= c <= 'z' || 'A' <= c <= 'Z' || '0' <= c <= '9'
  }

  /** A letter or digit, then letters, digits, '.', '_' and '-'. */
  predicate ValidName(n: string) {
    n != "" && IsAlnum(n[0]) && forall i :: 0 <= i < |n| ==> IsAlnum(n[i]) || n[i] in "._-"
  }

  /** Neither a path nor an option nor hidden: a valid name is one path component that begins
      with neither '.' nor '-' and holds no slash, no space and no control character. */
  lemma ValidNameIsPlain(n: string)
    requires ValidName(n)
    ensures IsName(n) && n[0] != '.' && n[0] != '-' && forall i :: 0 <= i < |n| ==> ' ' < n[i] <= 'z' && n[i] != '/'
  {}

  /** The names the pattern accepts, character by character: a letter or digit, then letters,
      digits and three signs. */
  lemma ValidNameGrows(n: string, c: char)
    ensures var letterOrDigit := 'a' <= c <= 'z' || 'A' <= c <= 'Z' || '0' <= c <= '9';
      && (ValidName([c]) <==> letterOrDigit)
      && (n != "" ==> (ValidName(n + [c]) <==> ValidName(n) && (letterOrDigit || c == '.' || c == '_' || c == '-')))
  {
    var longer := n + [c];
    assert longer[|n|] == c;
    assert forall i :: 0 <= i < |n| ==> longer[i] == n[i];
  }

  predicate ValidArch(arch: string) {
    arch == "linux-x86_64" || arch == "linux-arm64" || arch == "darwin-arm64"
  }

  function MetaPath(prefix: Path, name: string): Path {
    StorePath(prefix, name) + [META_FILE]
  }

  /** readMeta; None stands for a missing or unreadable record. */
  function ReadMeta(limit: nat, fs: FS, prefix: Path, name: string): Option<Meta> {
    var r := Eval(limit, fs, MetaPath(prefix, name));
    if r.At? && r.path in fs && fs[r.path].File? && fs[r.path].content.Record?
    then Some(fs[r.path].content.meta)
    else None
  }

  function MetaNode(m: Meta): Node {
    File(Record(m), 0x1A4)
  }

  /** writeMetaAt: the record replaces a file or link, never a directory. */
  function WriteMeta(limit: nat, fs: FS, store: Path, m: Meta): Step
    requires WF(fs) && RealAbove(fs, store) && (store in fs ==> !fs[store].Link?)
  {
    var made := MkdirAll(limit, fs, store);
    var p := store + [META_FILE];
    if !made.ok || RealDir(made.fs, p) then Step(made.fs, false)
    else Step(made.fs[p := MetaNode(m)], true)
  }

  // ----- the zones of a prefix -----

  predicate InRoot(prefix: Path, p: Path) {
    prefix < p && p[|prefix|] != "store" && p[|prefix|] != "profile"
  }

  predicate InProfile(prefix: Path, p: Path) {
    prefix + ["profile"] <= p
  }

  /** Only the aggregate tree at the root of the prefix differs. */
  ghost predicate RootOnly(fs: FS, fs': FS, prefix: Path) {
    forall p :: !InRoot(prefix, p) ==> SameAt(fs, fs', p)
  }

  /** Below `d` both file systems hold the same. */
  ghost predicate SameUnder(fs: FS, fs': FS, d: Path) {
    forall p :: d <= p ==> SameAt(fs, fs', p)
  }

  /** No entry named "store" or "profile" at the top of a package. */
  ghost predicate NoReserved(fs: FS, d: Path) {
    d + ["store"] !in fs && d + ["profile"] !in fs
  }

  /** The prefix and its two bookkeeping directories are real, stores are not links,
      and no package has a top-level entry that would clash with them. */
  ghost predicate Ready(fs: FS, prefix: Path) {
    && WF(fs) && RealDir(fs, prefix)
    && (prefix + ["store"] in fs ==> RealDir(fs, prefix + ["store"]))
    && (prefix + ["profile"] in fs ==> RealDir(fs, prefix + ["profile"]))
    && (forall n :: StorePath(prefix, n) in fs ==> !fs[StorePath(prefix, n)].Link?)
    && (forall n :: NoReserved(fs, StorePath(prefix, n)))
  }

  lemma StoreAbove(fs: FS, prefix: Path, n: string)
    requires Ready(fs, prefix)
    ensures RealAbove(fs, prefix + ["store"]) && RealAbove(fs, StorePath(prefix, n))
  {
    var parent := prefix + ["store"];
    var store := StorePath(prefix, n);
    assert Parent(parent) == prefix && Parent(store) == parent;
    ParentIsReal(fs, parent);
    forall q | q < store && q in fs ensures fs[q].Dir? {
      PrefixStep(q, store);
      if q != parent { assert q < parent; }
    }
  }

  lemma StoreIsNamed(prefix: Path, n: string)
    requires Names(prefix) && IsName(n)
    ensures Names(StorePath(prefix, n)) && Names(prefix + ["store"]) && Names(MetaPath(prefix, n))
  {}

  lemma RootRootable(fs: FS, prefix: Path)
    requires WF(fs) && RealDir(fs, prefix)
    ensures Rootable(fs, prefix)
  {
    forall q | q < prefix && q in fs ensures fs[q].Dir? { AncestorOf(fs, q, prefix); }
  }

  /** The destinations of an installed package lie in the aggregate zone. */
  lemma FilesInRoot(limit: nat, fs: FS, prefix: Path, n: string)
    requires Ready(fs, prefix) && IsName(n)
    ensures var r := CollectFiles(limit, fs, StorePath(prefix, n));
      r.Ok? ==>
        && RealDir(fs, StorePath(prefix, n)) && Linkable(r.value)
        && (forall p :: IsDest(prefix, r.value, p) ==> InRoot(prefix, p))
        && (forall p :: IsAbove(prefix, r.value, p) ==> InRoot(prefix, p) || p <= prefix)
  {
    var store := StorePath(prefix, n);
    StoreAbove(fs, prefix, n);
    assert Names(prefix);
    StoreIsNamed(prefix, n);
    CollectedHeads(limit, fs, store);
    CollectedAreLinkable(limit, fs, store);
    var r := CollectFiles(limit, fs, store);
    if r.Ok? {
      assert NoReserved(fs, store);
      forall i | 0 <= i < |r.value| ensures r.value[i] != [] && r.value[i][0] != "store" && r.value[i][0] != "profile" {}
      forall p | IsAbove(prefix, r.value, p) ensures InRoot(prefix, p) || p <= prefix {
        var i :| 0 <= i < |r.value| && p < prefix + r.value[i];
        if |p| > |prefix| { assert p[..|prefix|] == (prefix + r.value[i])[..|prefix|] == prefix; }
        else { assert p == (prefix + r.value[i])[..|p|] == prefix[..|p|]; }
      }
    }
  }

  lemma RootOnlyKeepsReady(fs: FS, fs': FS, prefix: Path)
    requires Ready(fs, prefix) && WF(fs') && RootOnly(fs, fs', prefix)
    ensures Ready(fs', prefix)
  {
    assert SameAt(fs, fs', prefix) && SameAt(fs, fs', prefix + ["store"]) && SameAt(fs, fs', prefix + ["profile"]);
    forall n ensures StorePath(prefix, n) in fs' ==> !fs'[StorePath(prefix, n)].Link? {
      assert SameAt(fs, fs', StorePath(prefix, n));
    }
    forall n ensures NoReserved(fs', StorePath(prefix, n)) {
      assert NoReserved(fs, StorePath(prefix, n));
      assert SameAt(fs, fs', StorePath(prefix, n) + ["store"]) && SameAt(fs, fs', StorePath(prefix, n) + ["profile"]);
    }
  }

  /** linkPkg at the root of the prefix: closed form and zone. */
  lemma LinkRoot(limit: nat, fs: FS, prefix: Path, n: string)
    requires Ready(fs, prefix) && IsName(n) && Rootable(fs, prefix)
    ensures var s := LinkPkgInto(limit, fs, prefix, n, prefix);
      var r := CollectFiles(limit, fs, StorePath(prefix, n));
      && RootOnly(fs, s.fs, prefix) && Ready(s.fs, prefix) && DirsStay(fs, s.fs)
      && (s.ok ==> r.Ok? && Linked(fs, s.fs, prefix, StorePath(prefix, n), r.value))
      && (s.ok <==> r.Ok? && forall i :: 0 <= i < |r.value| ==> !RealDir(fs, prefix + r.value[i]))
  {
    FilesInRoot(limit, fs, prefix, n);
    var s := LinkPkgInto(limit, fs, prefix, n, prefix);
    var r := CollectFiles(limit, fs, StorePath(prefix, n));
    if r.Ok? {
      LinkFilesEffect(limit, fs, prefix, StorePath(prefix, n), r.value);
      forall p | !InRoot(prefix, p) ensures SameAt(fs, s.fs, p) {
        if p <= prefix {
          if p != prefix { AncestorOf(fs, p, prefix); }
          assert RealDir(s.fs, p);
        }
      }
      RootOnlyKeepsReady(fs, s.fs, prefix);
    }
  }

  /** unlinkPkg at the root of the prefix: closed form and zone. */
  lemma UnlinkRoot(limit: nat, fs: FS, prefix: Path, n: string)
    requires Ready(fs, prefix) && IsName(n)
    ensures var s := UnlinkPkgFrom(limit, fs, prefix, n, prefix);
      var r := CollectFiles(limit, fs, StorePath(prefix, n));
      && RootOnly(fs, s.fs, prefix) && Ready(s.fs, prefix) && DirsStay(fs, s.fs)
      && (s.ok ==> r.Ok? && Unlinked(fs, s.fs, prefix, StorePath(prefix, n), r.value))
  {
    FilesInRoot(limit, fs, prefix, n);
    var s := UnlinkPkgFrom(limit, fs, prefix, n, prefix);
    var r := CollectFiles(limit, fs, StorePath(prefix, n));
    if r.Ok? {
      UnlinkFilesEffect(fs, prefix, StorePath(prefix, n), r.value);
      RootOnlyKeepsReady(fs, s.fs, prefix);
    }
  }
}
