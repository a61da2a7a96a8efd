/** collectPkgFiles as it runs: a recursive walk that appends to one list and keeps a
    set of open directories (cmd/binman/store.go). */
module Walker {
  import opened Lexical
  import opened FileTree
  import opened Extract
  import opened Collect

  /** collectPkgFiles' walk: the list it appends to and the directories that are open. */
  class PackageWalker {
    const limit: nat
    const fs: FS
    const store: Path
    const resolvedStore: Path
    var files: seq<Path>
    var active: set<Path>

    constructor (limit: nat, fs: FS, store: Path, resolvedStore: Path)
      ensures this.limit == limit && this.fs == fs && this.store == store && this.resolvedStore == resolvedStore
      ensures files == [] && active == {}
    {
      this.limit, this.fs, this.store, this.resolvedStore := limit, fs, store, resolvedStore;
      files, active := [], {};
    }

    /** Every directory opened on the way is closed again, also when the walk fails. */
    method WalkPath(rel: Path) returns (ok: bool)
      modifies this
      ensures active == old(active)
      ensures var r := WalkDir(limit, fs, store, resolvedStore, rel, old(active));
        ok == r.Ok? && (ok ==> files == old(files) + r.value)
      decreases |Dirs(fs) - active|, 0
    {
      var resolved := Eval(limit, fs, store + rel);
      if !resolved.At? || !(resolved.path == resolvedStore || WithinRoot(resolvedStore, resolved.path)) { return false; }
      if resolved.path in active || !RealDir(fs, resolved.path) { return false; }
      var dir := resolved.path;
      ActiveGrows(fs, active, dir);
      active := active + {dir};
      ok := WalkNames(rel, dir, ReadDir(fs, dir));
      active := active - {dir};
    }

    method WalkNames(rel: Path, dir: Path, names: seq<string>) returns (ok: bool)
      requires forall i :: 0 <= i < |names| ==> dir + [names[i]] in fs
      modifies this
      ensures active == old(active)
      ensures var r := WalkEntries(limit, fs, store, resolvedStore, rel, dir, old(active), names);
        ok == r.Ok? && (ok ==> files == old(files) + r.value)
      decreases |Dirs(fs) - active|, 2, 1
    {
      ghost var found: seq<Path> := [];
      assert names[0..] == names;
      PrependTwice([], [], WalkEntries(limit, fs, store, resolvedStore, rel, dir, active, names));
      for i := 0 to |names|
        invariant active == old(active) && files == old(files) + found
        invariant WalkEntries(limit, fs, store, resolvedStore, rel, dir, active, names) ==
          Prepend(found, WalkEntries(limit, fs, store, resolvedStore, rel, dir, active, names[i..]))
      {
        ok, found := WalkNth(rel, dir, names, i, found);
        if !ok { return; }
      }
      assert names[|names|..] == [];
      ok := true;
    }

    /** One turn of the loop; `found` is what the earlier turns added. */
    method WalkNth(rel: Path, dir: Path, names: seq<string>, i: nat, ghost found: seq<Path>) returns (ok: bool, ghost found': seq<Path>)
      requires i < |names| && forall i :: 0 <= i < |names| ==> dir + [names[i]] in fs
      modifies this
      ensures active == old(active)
      ensures var here := WalkEntries(limit, fs, store, resolvedStore, rel, dir, old(active), names[i..]);
        var next := WalkEntries(limit, fs, store, resolvedStore, rel, dir, old(active), names[i + 1..]);
        if ok then
          && found <= found' && files == old(files) + found'[|found|..]
          && Prepend(found, here) == Prepend(found', next)
        else here.Err?
      decreases |Dirs(fs) - active|, 2, 0
    {
      ok := WalkName(rel, dir, names[i]);
      found' := EntriesNext(limit, fs, store, resolvedStore, rel, dir, active, names, i, found);
    }

    method WalkName(rel: Path, dir: Path, name: string) returns (ok: bool)
      requires dir + [name] in fs
      modifies this
      ensures active == old(active)
      ensures var r := WalkEntry(limit, fs, store, resolvedStore, rel, dir, old(active), name);
        ok == r.Ok? && (ok ==> files == old(files) + r.value)
      decreases |Dirs(fs) - active|, 1
    {
      var child := rel + [name];
      if child == [META_FILE] { return true; }
      var node := fs[dir + [name]];
      if node.Link? {
        var info := Eval(limit, fs, store + child);
        if info.At? && RealDir(fs, info.path) {
          ok := WalkPath(child);
          return;
        }
        if !info.At? && !info.NoEntry? { return false; }
      } else if node.Dir? {
        ok := WalkPath(child);
        return;
      }
      files := files + [child];
      ok := true;
    }
  }

  /** The i-th entry either fails the walk or adds its files to those found. */
  lemma EntriesNext(limit: nat, fs: FS, store: Path, realStore: Path, rel: Path, dir: Path, active: set<Path>,
                    names: seq<string>, i: nat, found: seq<Path>) returns (found': seq<Path>)
    requires i < |names| && forall i :: 0 <= i < |names| ==> dir + [names[i]] in fs
    ensures var head := WalkEntry(limit, fs, store, realStore, rel, dir, active, names[i]);
      var here := WalkEntries(limit, fs, store, realStore, rel, dir, active, names[i..]);
      if head.Err? then here.Err?
      else
        && found' == found + head.value
        && Prepend(found, here) == Prepend(found', WalkEntries(limit, fs, store, realStore, rel, dir, active, names[i + 1..]))
  {
    assert names[i..][0] == names[i] && names[i..][1..] == names[i + 1..];
    var head := WalkEntry(limit, fs, store, realStore, rel, dir, active, names[i]);
    found' := found;
    if head.Ok? {
      found' := found + head.value;
      PrependTwice(found, head.value, WalkEntries(limit, fs, store, realStore, rel, dir, active, names[i + 1..]));
    }
  }

  lemma PrependTwice(a: seq<Path>, b: seq<Path>, r: Result<seq<Path>>)
    ensures Prepend(a, Prepend(b, r)) == Prepend(a + b, r) && Prepend([], r) == r
  {
    if r.Ok? { assert [] + r.value == r.value; }
    if r.Ok? { assert a + (b + r.value) == a + b + r.value; }
  }

  function Prepend(files: seq<Path>, r: Result<seq<Path>>): Result<seq<Path>> {
    match r
    case Ok(rest) => Ok(files + rest)
    case Err => Err
  }

  method CollectPkgFiles(limit: nat, fs: FS, store: Path) returns (r: Result<seq<Path>>)
    ensures r == CollectFiles(limit, fs, store)
  {
    var resolved := Eval(limit, fs, store);
    if !resolved.At? { return Err; }
    var walker := new PackageWalker(limit, fs, store, resolved.path);
    var ok := walker.WalkPath([]);
    PrependTwice([], [], CollectFiles(limit, fs, store));
    r := if ok then Ok(walker.files) else Err;
  }
}
