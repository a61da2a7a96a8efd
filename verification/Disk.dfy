/** binman's store operations as they run: loops of system calls on one file system,
    updated in place, each proved to do what its specification function says
    (cmd/binman/store.go). */
module Disk {
  import opened Lexical
  import opened FileTree
  import opened Extract
  import opened Collect
  import opened Aggregate
  import opened Prefix
  import opened Install
  import opened Walker

  lemma LinkableTail(files: seq<Path>, i: nat)
    requires i < |files| && Linkable(files)
    ensures files[i..] != [] && files[i..][0] == files[i] && files[i..][1..] == files[i + 1..]
    ensures Linkable(files[i + 1..]) && files[i] != [] && Names(files[i])
  {
    var rest := files[i + 1..];
    assert forall j :: 0 <= j < |rest| ==> rest[j] == files[i + 1 + j];
  }

  class Volume {
    const limit: nat
    var fs: FS

    constructor (limit: nat, fs: FS)
      ensures this.limit == limit && this.fs == fs
    {
      this.limit, this.fs := limit, fs;
    }

    // ----- unpacking -----

    method RejectSymlinkParents(root: Path, target: Path) returns (ok: bool)
      requires |root| < |target|
      ensures ok == ParentsOk(fs, target, |root| + 1)
    {
      var k := |root| + 1;
      while k < |target|
        invariant |root| < k <= |target| && ParentsOk(fs, target, |root| + 1) == ParentsOk(fs, target, k)
      {
        var current := target[..k];
        if current !in fs { return true; }
        if !fs[current].Dir? { return false; }
        k := k + 1;
      }
      return true;
    }

    /** The system calls for one entry whose target has passed the checks. */
    method Unpack(dst: Path, target: Path, body: Body) returns (ok: bool)
      requires WF(fs) && RealDir(fs, dst) && dst < target && RealAbove(fs, target) && Names(target)
      modifies this
      ensures Step(fs, ok) == ExtractBody(limit, old(fs), dst, target, body)
    {
      match body {
        case DirBody =>
          var made := MkdirAll(limit, fs, target);
          fs, ok := made.fs, made.ok;
        case RegBody(content, mode) =>
          if target in fs && fs[target].Link? { return false; }
          var written := WriteFile(fs, target, content, mode & 0x1FF);
          fs, ok := written.fs, written.ok;
        case SymBody(link) =>
          var linkTarget := SafeSymlinkTarget(dst, target, link);
          if linkTarget.Err? { return false; }
          ok := ReplaceWithLink(dst, target, Rel(Parent(target), linkTarget.value));
        case HardBody(link) =>
          var linkRel := StripFirst(link);
          if linkRel == [""] { return false; }
          var source := SafeArchivePath(dst, linkRel);
          if source.Err? { return false; }
          var safe := RejectSymlinkParents(dst, source.value);
          if !safe { return false; }
          ParentsOkIsRealAbove(fs, dst, source.value);
          MakeParent(dst, target);
          if source.value !in fs || fs[source.value].Dir? || target in fs { return false; }
          fs := fs[target := fs[source.value]];
          ok := true;
        case OtherBody => ok := false;
      }
    }

    /** Removes what is at `target`, unless it is a directory with something in it, and
        makes a symbolic link there. */
    method ReplaceWithLink(dst: Path, target: Path, text: Text) returns (ok: bool)
      requires WF(fs) && RealDir(fs, dst) && dst < target && RealAbove(fs, target) && Names(target)
      modifies this
      ensures Step(fs, ok) == ReplaceByLink(old(fs), target, text)
    {
      assert Parent(target) < target;
      if target in fs { AncestorOf(fs, Parent(target), target); }
      MakeParent(dst, target);
      assert target in old(fs) ==> fs == old(fs);
      if target in fs {
        if fs[target].Dir? && !Childless(fs, target) { return false; }
        fs := fs - {target};
      }
      fs := fs[target := Link(text)];
      ok := true;
    }

    /** MkdirAll of the directory that will hold `target`. */
    method MakeParent(dst: Path, target: Path)
      requires WF(fs) && RealDir(fs, dst) && dst < target && RealAbove(fs, target) && Names(target)
      modifies this
      ensures fs == MkDirs(old(fs), Parent(target)) && WF(fs) && (target in fs <==> target in old(fs))
    {
      assert Parent(target) < target;
      MkDirsEffect(fs, Parent(target));
      fs := MkDirs(fs, Parent(target));
    }

    method ExtractTarGz(dst: Path, entries: seq<Entry>) returns (ok: bool)
      requires WF(fs) && RealDir(fs, dst)
      modifies this
      ensures Step(fs, ok) == ExtractAll(limit, old(fs), dst, entries)
    {
      assert entries[0..] == entries;
      for i := 0 to |entries|
        invariant WF(fs) && RealDir(fs, dst)
        invariant ExtractAll(limit, fs, dst, entries[i..]) == ExtractAll(limit, old(fs), dst, entries)
      {
        var e := entries[i];
        assert entries[i..][0] == e && entries[i..][1..] == entries[i + 1..];
        ExtractEntryKeeps(limit, fs, dst, e);
        ok := ExtractOne(dst, e);
        if !ok { return; }
      }
      assert entries[|entries|..] == [];
      ok := true;
    }

    method ExtractOne(dst: Path, e: Entry) returns (ok: bool)
      requires WF(fs) && RealDir(fs, dst)
      modifies this
      ensures Step(fs, ok) == ExtractEntry(limit, old(fs), dst, e)
    {
      var rel := StripFirst(e.name);
      if rel == [""] { return true; }
      var target := SafeArchivePath(dst, rel);
      if target.Err? { return false; }
      var safe := RejectSymlinkParents(dst, target.value);
      if !safe { return false; }
      ParentsOkIsRealAbove(fs, dst, target.value);
      WalkIsNames(dst, rel);
      ok := Unpack(dst, target.value, e.body);
    }

    // ----- the aggregate tree -----

    method EnsureAggregateDirAt(root: Path, dir: Path) returns (ok: bool)
      requires WF(fs) && Rootable(fs, root) && Names(dir)
      modifies this
      ensures Step(fs, ok) == EnsureAggregateDir(limit, old(fs), root, dir)
    {
      if Rel(root, dir)[0] == ".." { return false; }
      RelEscapes(root, dir);
      MkDirsEffect(fs, root);
      fs := MkDirs(fs, root);
      MakeRealBelow(root, dir);
      ok := true;
    }

    /** Component by component from the root down to `dir`. */
    method MakeRealBelow(root: Path, dir: Path)
      requires WF(fs) && RealDir(fs, root) && root <= dir && Names(dir)
      modifies this
      ensures fs == EnsureFrom(old(fs), dir, |root| + 1)
    {
      assert dir[..|root|] == root;
      var k := |root| + 1;
      while k <= |dir|
        invariant |root| < k <= |dir| + 1 && WF(fs) && RealDir(fs, dir[..k - 1])
        invariant EnsureFrom(fs, dir, k) == EnsureFrom(old(fs), dir, |root| + 1)
      {
        assert Parent(dir[..k]) == dir[..k - 1];
        MakeRealAt(dir[..k]);
        k := k + 1;
      }
    }

    /** A missing directory is made; a file or link in its place goes first. */
    method MakeRealAt(current: Path)
      requires WF(fs) && current != [] && Names(current) && RealDir(fs, Parent(current))
      modifies this
      ensures fs == MakeReal(old(fs), current) && WF(fs) && RealDir(fs, current)
    {
      MakeRealIs(fs, current);
      if current !in fs {
        fs := fs[current := Dir];
      } else if !fs[current].Dir? {
        fs := RemoveTree(fs, current);
        fs := fs[current := Dir];
      }
    }

    method LinkPkg(prefix: Path, name: string, root: Path) returns (ok: bool)
      requires WF(fs) && Rootable(fs, root)
      modifies this
      ensures Step(fs, ok) == LinkPkgInto(limit, old(fs), prefix, name, root)
    {
      var store := StorePath(prefix, name);
      var collected := CollectPkgFiles(limit, fs, store);
      CollectedAreLinkable(limit, fs, store);
      if collected.Err? { return false; }
      var files := collected.value;
      assert files[0..] == files;
      for i := 0 to |files|
        invariant WF(fs) && Rootable(fs, root) && Linkable(files[i..])
        invariant LinkFiles(limit, fs, root, store, files[i..]) == LinkFiles(limit, old(fs), root, store, files)
      {
        LinkableTail(files, i);
        var linked := LinkOneAt(root, store, files[i]);
        if !linked { return false; }
      }
      assert files[|files|..] == [];
      ok := true;
    }

    method LinkOneAt(root: Path, store: Path, rel: Path) returns (ok: bool)
      requires WF(fs) && Rootable(fs, root) && rel != [] && Names(rel)
      modifies this
      ensures Step(fs, ok) == LinkOne(limit, old(fs), root, store, rel)
      ensures WF(fs) && Rootable(fs, root)
    {
      LinkOneEffect(limit, fs, root, store, rel);
      RootStays(fs, LinkOne(limit, fs, root, store, rel).fs, root, rel);
      var dest := root + rel;
      assert Names(Parent(dest));
      ok := EnsureAggregateDirAt(root, Parent(dest));
      if !ok { return; }
      if dest in fs && fs[dest].Dir? { return false; }
      fs := fs - {dest};
      fs := fs[dest := Link(Rel(Parent(dest), store + rel))];
    }

    method UnlinkPkg(prefix: Path, name: string, root: Path) returns (ok: bool)
      requires WF(fs)
      modifies this
      ensures Step(fs, ok) == UnlinkPkgFrom(limit, old(fs), prefix, name, root)
    {
      var store := StorePath(prefix, name);
      var collected := CollectPkgFiles(limit, fs, store);
      CollectedAreLinkable(limit, fs, store);
      if collected.Err? { return false; }
      var files := collected.value;
      assert files[0..] == files;
      for i := 0 to |files|
        invariant UnlinkFiles(fs, root, store, files[i..]) == UnlinkFiles(old(fs), root, store, files)
      {
        assert files[i..][0] == files[i] && files[i..][1..] == files[i + 1..];
        var dest := root + files[i];
        var safe := RejectSymlinkParents(root, dest);
        if !safe { return false; }
        if dest in fs && fs[dest].Link? && LinkTarget(Parent(dest), fs[dest].text) == store + files[i] {
          fs := fs - {dest};
        }
      }
      assert files[|files|..] == [];
      ok := true;
    }

    // ----- swapping stores -----

    method PlaceStoreAt(prefix: Path, name: string, suffix: string, wasLinked: bool, linked: bool) returns (ok: bool)
      requires Ready(fs, prefix) && ValidName(name) && RealDir(fs, StagePath(prefix, name, suffix))
      modifies this
      ensures Step(fs, ok) == PlaceStore(limit, old(fs), prefix, name, suffix, wasLinked, linked)
    {
      var store := StorePath(prefix, name);
      var staged := StagePath(prefix, name, suffix);
      StageIsNamed(prefix, name, suffix);
      UnlinkRoot(limit, fs, prefix, name);
      if wasLinked {
        ok := UnlinkPkg(prefix, name, prefix);
        if !ok { return; }
      }
      assert staged[|prefix|] == "store" && SameAt(old(fs), fs, staged);
      SwapEffect(fs, prefix, name, suffix);
      fs := RemoveTree(fs, store);
      fs := Rename(fs, staged, store);
      RootRootable(fs, prefix);
      ok := true;
      if linked { ok := LinkPkg(prefix, name, prefix); }
    }
  }
}
