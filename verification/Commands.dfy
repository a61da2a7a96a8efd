/** The commands that change a prefix: install, upgrade and remove
    (cmd/binman/install.go). */
module Commands {
  import opened Options
  import opened Lexical
  import opened FileTree
  import opened Order
  import opened Aggregate
  import opened Prefix
  import opened Install
  import opened Lifecycle
  import opened Plan

  function ProfilePath(prefix: Path, profile: string): Path {
    prefix + ["profile", profile]
  }

  // ----- remove -----

  function DirNames(fs: FS, d: Path, ns: seq<string>): (r: seq<string>)
    ensures forall n :: n in r <==> n in ns && RealDir(fs, d + [n])
  {
    if ns == [] then []
    else if RealDir(fs, d + [ns[0]]) then [ns[0]] + DirNames(fs, d, ns[1..])
    else DirNames(fs, d, ns[1..])
  }

  /** Unlinks the package from each of the profile trees. */
  function UnlinkProfiles(limit: nat, fs: FS, prefix: Path, name: string, profiles: seq<string>): Step
    decreases |profiles|
  {
    if profiles == [] then Step(fs, true)
    else
      var s := UnlinkPkgFrom(limit, fs, prefix, name, ProfilePath(prefix, profiles[0]));
      if s.ok then UnlinkProfiles(limit, s.fs, prefix, name, profiles[1..]) else s
  }

  function Remove(limit: nat, fs: FS, prefix: Path, name: string): Step {
    var metadata := ReadMeta(limit, fs, prefix, name);
    if !ValidName(name) || !Eval(limit, fs, StorePath(prefix, name)).At? || metadata.None? then Step(fs, false)
    else
      var s1 := if metadata.value.linked then UnlinkPkgFrom(limit, fs, prefix, name, prefix) else Step(fs, true);
      if !s1.ok then s1
      else
        var parent := prefix + ["profile"];
        var s2 := UnlinkProfiles(limit, s1.fs, prefix, name, DirNames(s1.fs, parent, ReadDir(s1.fs, parent)));
        if !s2.ok then s2 else Step(RemoveTree(s2.fs, StorePath(prefix, name)), true)
  }

  /** Only the profile trees differ. */
  ghost predicate ProfileOnly(fs: FS, fs': FS, prefix: Path) {
    forall p :: !InProfile(prefix, p) ==> SameAt(fs, fs', p)
  }

  lemma ProfileOnlyFrames(fs: FS, fs': FS, prefix: Path)
    requires ProfileOnly(fs, fs', prefix)
    ensures forall p :: InRoot(prefix, p) || p <= prefix || prefix + ["store"] <= p ==> SameAt(fs, fs', p)
  {
    forall p | InRoot(prefix, p) || p <= prefix || prefix + ["store"] <= p ensures SameAt(fs, fs', p) {
      assert (prefix + ["profile"])[|prefix|] == "profile" && (prefix + ["store"])[|prefix|] == "store";
    }
  }

  lemma ProfileOnlySameStore(fs: FS, fs': FS, prefix: Path, n: string)
    requires ProfileOnly(fs, fs', prefix)
    ensures SameUnder(fs, fs', StorePath(prefix, n)) && SameAt(fs, fs', MetaPath(prefix, n))
  {
    ProfileOnlyFrames(fs, fs', prefix);
    var d := StorePath(prefix, n);
    forall p | d <= p ensures SameAt(fs, fs', p) { assert prefix + ["store"] <= d <= p; }
    assert d <= MetaPath(prefix, n);
  }

  lemma ProfileOnlyKeepsStore(limit: nat, fs: FS, fs': FS, prefix: Path, n: string)
    requires WF(fs) && WF(fs') && ProfileOnly(fs, fs', prefix)
    ensures PlainMeta(fs', prefix, n) == PlainMeta(fs, prefix, n) && SameAt(fs, fs', MetaPath(prefix, n))
    ensures RealDir(fs, StorePath(prefix, n)) && Confined(fs, StorePath(prefix, n)) ==>
      Files(limit, fs', prefix, n) == Files(limit, fs, prefix, n) && Confined(fs', StorePath(prefix, n))
  {
    var d := StorePath(prefix, n);
    ProfileOnlySameStore(fs, fs', prefix, n);
    if RealDir(fs, d) && Confined(fs, d) {
      SameIsAlike(fs, fs', d);
      FilesStable(limit, fs, fs', prefix, n);
    }
  }

  /** Metadata, confinement and offered files of every package are as before. */
  ghost predicate StoresSame(limit: nat, fs: FS, fs': FS, prefix: Path) {
    forall n ::
      && SameAt(fs, fs', MetaPath(prefix, n)) && PlainMeta(fs', prefix, n) == PlainMeta(fs, prefix, n)
      && (Installed(fs, prefix, n) ==>
            Files(limit, fs', prefix, n) == Files(limit, fs, prefix, n) &&
            (Confined(fs, StorePath(prefix, n)) ==> Confined(fs', StorePath(prefix, n))))
  }

  lemma FrameLinks(limit: nat, fs: FS, fs': FS, prefix: Path)
    requires LinksAreOwned(limit, fs, prefix) && StoresSame(limit, fs, fs', prefix)
    requires forall p :: InRoot(prefix, p) && p in fs' && fs'[p].Link? ==> SameAt(fs, fs', p)
    ensures LinksAreOwned(limit, fs', prefix)
  {
    forall p | InRoot(prefix, p) && p in fs' && fs'[p].Link? ensures HasOwner(limit, fs', prefix, p) {
      FrameOwner(limit, fs, fs', prefix, p);
    }
  }

  lemma FrameOwner(limit: nat, fs: FS, fs': FS, prefix: Path, p: Path)
    requires StoresSame(limit, fs, fs', prefix)
    requires HasOwner(limit, fs, prefix, p) && SameAt(fs, fs', p)
    ensures HasOwner(limit, fs', prefix, p)
  {
    assert prefix + p[|prefix|..] == p;
    var n :| OwnedBy(limit, fs, prefix, p[|prefix|..], n);
    assert OwnedBy(limit, fs', prefix, p[|prefix|..], n);
  }

  lemma FrameStores(limit: nat, fs: FS, fs': FS, prefix: Path)
    requires StoresAreSound(fs, prefix) && StoresSame(limit, fs, fs', prefix)
    ensures StoresAreSound(fs', prefix)
  {
    forall n ensures MetaPath(prefix, n) in fs' ==> fs'[MetaPath(prefix, n)].File?
      ensures Installed(fs', prefix, n) ==> PlainMeta(fs', prefix, n).value.name == n && Confined(fs', StorePath(prefix, n))
    {
      assert SameAt(fs, fs', MetaPath(prefix, n));
    }
  }

  /** The invariant survives when the stores do and no link at the root is new. */
  lemma InvFrame(limit: nat, fs: FS, fs': FS, prefix: Path)
    requires Inv(limit, fs, prefix) && Ready(fs', prefix) && StoresSame(limit, fs, fs', prefix)
    requires forall p :: InRoot(prefix, p) && p in fs' && fs'[p].Link? ==> SameAt(fs, fs', p)
    ensures Inv(limit, fs', prefix)
  {
    FrameStores(limit, fs, fs', prefix);
    FrameLinks(limit, fs, fs', prefix);
  }

  /** Whatever happens inside the profile trees, the rest of the prefix keeps its invariant. */
  lemma ProfileOnlyKeepsInv(limit: nat, fs: FS, fs': FS, prefix: Path)
    requires Inv(limit, fs, prefix) && WF(fs') && ProfileOnly(fs, fs', prefix)
    requires prefix + ["profile"] in fs' ==> RealDir(fs', prefix + ["profile"])
    ensures Inv(limit, fs', prefix) && StoresSame(limit, fs, fs', prefix)
  {
    ProfileOnlyKeepsReady(fs, fs', prefix);
    ProfileOnlyFrames(fs, fs', prefix);
    forall n
      ensures SameAt(fs, fs', MetaPath(prefix, n)) && PlainMeta(fs', prefix, n) == PlainMeta(fs, prefix, n)
      ensures Installed(fs, prefix, n) ==>
        Files(limit, fs', prefix, n) == Files(limit, fs, prefix, n) && Confined(fs', StorePath(prefix, n))
    {
      ProfileOnlyKeepsStore(limit, fs, fs', prefix, n);
      if Installed(fs, prefix, n) { InstalledIsReal(fs, prefix, n); }
    }
    InvFrame(limit, fs, fs', prefix);
  }

  lemma ProfileOnlyKeepsReady(fs: FS, fs': FS, prefix: Path)
    requires Ready(fs, prefix) && WF(fs') && ProfileOnly(fs, fs', prefix)
    requires prefix + ["profile"] in fs' ==> RealDir(fs', prefix + ["profile"])
    ensures Ready(fs', prefix)
  {
    ProfileOnlyFrames(fs, fs', prefix);
    assert SameAt(fs, fs', prefix) && SameAt(fs, fs', prefix + ["store"]);
    forall n ensures StorePath(prefix, n) in fs' ==> !fs'[StorePath(prefix, n)].Link?
      ensures NoReserved(fs', StorePath(prefix, n))
    {
      var d := StorePath(prefix, n);
      assert prefix + ["store"] <= d && prefix + ["store"] <= d + ["store"] && prefix + ["store"] <= d + ["profile"];
      assert NoReserved(fs, d) && SameAt(fs, fs', d) && SameAt(fs, fs', d + ["store"]) && SameAt(fs, fs', d + ["profile"]);
    }
  }

  lemma UnlinkFromProfile(limit: nat, fs: FS, prefix: Path, name: string, profile: string)
    requires Ready(fs, prefix) && IsName(name)
    ensures var root := ProfilePath(prefix, profile);
      var s := UnlinkPkgFrom(limit, fs, prefix, name, root);
      && WF(s.fs) && ProfileOnly(fs, s.fs, prefix) && Ready(s.fs, prefix) && DirsStay(fs, s.fs)
      && (s.ok ==> Files(limit, fs, prefix, name).Ok?)
      && (s.ok ==> Unlinked(fs, s.fs, root, StorePath(prefix, name), Files(limit, fs, prefix, name).value))
  {
    var root := ProfilePath(prefix, profile);
    FilesInRoot(limit, fs, prefix, name);
    var r := Files(limit, fs, prefix, name);
    if r.Ok? {
      UnlinkFilesEffect(fs, root, StorePath(prefix, name), r.value);
      var s := UnlinkPkgFrom(limit, fs, prefix, name, root);
      assert prefix + ["profile"] < root;
      forall p | !InProfile(prefix, p) || p == prefix + ["profile"] ensures SameAt(fs, s.fs, p) {
        assert !IsDest(root, r.value, p);
      }
      assert SameAt(fs, s.fs, prefix + ["profile"]);
      ProfileOnlyKeepsReady(fs, s.fs, prefix);
    }
  }

  lemma {:induction false} UnlinkProfilesKeeps(limit: nat, fs: FS, prefix: Path, name: string, profiles: seq<string>)
    requires Inv(limit, fs, prefix) && IsName(name)
    ensures var s := UnlinkProfiles(limit, fs, prefix, name, profiles);
      Inv(limit, s.fs, prefix) && ProfileOnly(fs, s.fs, prefix)
    decreases |profiles|
  {
    if profiles != [] {
      var s := UnlinkPkgFrom(limit, fs, prefix, name, ProfilePath(prefix, profiles[0]));
      UnlinkFromProfile(limit, fs, prefix, name, profiles[0]);
      ProfileOnlyKeepsInv(limit, fs, s.fs, prefix);
      if s.ok {
        UnlinkProfilesKeeps(limit, s.fs, prefix, name, profiles[1..]);
        var t := UnlinkProfiles(limit, s.fs, prefix, name, profiles[1..]);
        forall p | !InProfile(prefix, p) ensures SameAt(fs, t.fs, p) {
          assert SameAt(fs, s.fs, p) && SameAt(s.fs, t.fs, p);
        }
      }
    }
  }

  /** After unlinking at the root the invariant still holds, and no link names the package. */
  lemma UnlinkKeepsInv(limit: nat, fs: FS, prefix: Path, n: string)
    requires Inv(limit, fs, prefix) && IsName(n) && UnlinkPkgFrom(limit, fs, prefix, n, prefix).ok
    ensures var fs' := UnlinkPkgFrom(limit, fs, prefix, n, prefix).fs;
      Inv(limit, fs', prefix) && NoOwnLinks(fs', prefix, n) && OnlyStaleGone(fs, fs', prefix, n) && RootOnly(fs, fs', prefix)
  {
    var fs' := UnlinkPkgFrom(limit, fs, prefix, n, prefix).fs;
    InvListsOwnLinks(limit, fs, prefix, n);
    UnlinkRoot(limit, fs, prefix, n);
    UnlinkClears(limit, fs, prefix, n);
    forall m
      ensures SameAt(fs, fs', MetaPath(prefix, m)) && PlainMeta(fs', prefix, m) == PlainMeta(fs, prefix, m)
      ensures Installed(fs, prefix, m) ==>
        Files(limit, fs', prefix, m) == Files(limit, fs, prefix, m) && Confined(fs', StorePath(prefix, m))
    {
      RootOnlyStores(limit, fs, fs', prefix, m);
    }
    InvFrame(limit, fs, fs', prefix);
  }

  lemma RootOnlyStores(limit: nat, fs: FS, fs': FS, prefix: Path, m: string)
    requires WF(fs) && WF(fs') && RootOnly(fs, fs', prefix) && StoresAreSound(fs, prefix)
    ensures PlainMeta(fs', prefix, m) == PlainMeta(fs, prefix, m) && SameAt(fs, fs', MetaPath(prefix, m))
    ensures Installed(fs, prefix, m) ==>
      Files(limit, fs', prefix, m) == Files(limit, fs, prefix, m) && Confined(fs', StorePath(prefix, m))
  {
    RootOnlySameStore(fs, fs', prefix, m);
    assert StorePath(prefix, m) <= MetaPath(prefix, m);
    assert SameAt(fs, fs', MetaPath(prefix, m));
    if Installed(fs, prefix, m) {
      InstalledIsReal(fs, prefix, m);
      RootOnlyKeepsStores(limit, fs, fs', prefix, m);
    }
  }

  /** Removing a package keeps the invariant; its store is gone, the other packages stay. */
  lemma RemoveKeeps(limit: nat, fs: FS, prefix: Path, n: string)
    requires Inv(limit, fs, prefix) && Remove(limit, fs, prefix, n).ok
    ensures var fs' := Remove(limit, fs, prefix, n).fs;
      && Inv(limit, fs', prefix)
      && (forall p :: StorePath(prefix, n) <= p ==> p !in fs') && PlainMeta(fs', prefix, n) == None
      && (forall m :: m != n ==> PlainMeta(fs', prefix, m) == PlainMeta(fs, prefix, m))
      && (forall m :: m != n && Installed(fs, prefix, m) ==> Files(limit, fs', prefix, m) == Files(limit, fs, prefix, m))
      && OnlyStaleGone(fs, fs', prefix, n)
  {
    assert Names(prefix);
    StageIsNamed(prefix, n, "");
    ReadMetaIsPlain(limit, fs, prefix, n);
    InvListsOwnLinks(limit, fs, prefix, n);
    var s1 := if ReadMeta(limit, fs, prefix, n).value.linked then UnlinkPkgFrom(limit, fs, prefix, n, prefix) else Step(fs, true);
    if ReadMeta(limit, fs, prefix, n).value.linked { UnlinkKeepsInv(limit, fs, prefix, n); }
    var parent := prefix + ["profile"];
    var s2 := UnlinkProfiles(limit, s1.fs, prefix, n, DirNames(s1.fs, parent, ReadDir(s1.fs, parent)));
    UnlinkProfilesKeeps(limit, s1.fs, prefix, n, DirNames(s1.fs, parent, ReadDir(s1.fs, parent)));
    RemoveFinishes(limit, fs, s1.fs, s2.fs, prefix, n);
  }

  lemma RemoveFinishes(limit: nat, fs: FS, fs1: FS, fs2: FS, prefix: Path, n: string)
    requires Inv(limit, fs, prefix) && Inv(limit, fs1, prefix) && Inv(limit, fs2, prefix)
    requires RootOnly(fs, fs1, prefix) && OnlyStaleGone(fs, fs1, prefix, n) && NoOwnLinks(fs1, prefix, n)
    requires ProfileOnly(fs1, fs2, prefix)
    ensures var fs' := RemoveTree(fs2, StorePath(prefix, n));
      && Inv(limit, fs', prefix)
      && PlainMeta(fs', prefix, n) == None
      && (forall m :: m != n ==> PlainMeta(fs', prefix, m) == PlainMeta(fs, prefix, m))
      && (forall m :: m != n && Installed(fs, prefix, m) ==> Files(limit, fs', prefix, m) == Files(limit, fs, prefix, m))
      && OnlyStaleGone(fs, fs', prefix, n)
  {
    var fs' := RemoveTree(fs2, StorePath(prefix, n));
    ProfileOnlyFrames(fs1, fs2, prefix);
    forall p | InRoot(prefix, p) ensures !NamesOwn(fs2, prefix, n, p) {
      assert SameAt(fs1, fs2, p) && !NamesOwn(fs1, prefix, n, p);
    }
    RemoveStoreKeepsInv(limit, fs2, prefix, n);
    forall m | m != n
      ensures PlainMeta(fs', prefix, m) == PlainMeta(fs, prefix, m)
      ensures Installed(fs, prefix, m) ==> Files(limit, fs', prefix, m) == Files(limit, fs, prefix, m)
    {
      RootOnlyStores(limit, fs, fs1, prefix, m);
      ProfileOnlyKeepsStore(limit, fs1, fs2, prefix, m);
      if Installed(fs, prefix, m) { InstalledIsReal(fs1, prefix, m); }
    }
    assert StorePath(prefix, n)[|prefix|] == "store";
    forall p | InRoot(prefix, p) ensures SameAt(fs, fs', p) || (p !in fs' && NamesOwn(fs, prefix, n, p)) {
      assert SameAt(fs1, fs2, p) && SameAt(fs2, fs', p);
    }
  }

  // ----- which packages are installed -----

  /** Directories under the stores that hold a metadata file; names in sorted order. */
  function InstalledFrom(limit: nat, fs: FS, prefix: Path, ns: seq<string>): Result<seq<string>> {
    if ns == [] then Ok([])
    else
      var rest := InstalledFrom(limit, fs, prefix, ns[1..]);
      if !RealDir(fs, StorePath(prefix, ns[0])) then rest
      else
        var stat := Eval(limit, fs, MetaPath(prefix, ns[0]));
        if rest.Err? || (!stat.At? && !stat.NoEntry?) then Err
        else if stat.At? then Ok([ns[0]] + rest.value)
        else rest
  }

  function InstalledNames(limit: nat, fs: FS, prefix: Path): Result<seq<string>> {
    InstalledFrom(limit, fs, prefix, ReadDir(fs, prefix + ["store"]))
  }

  lemma {:induction false} InstalledFromMeans(limit: nat, fs: FS, prefix: Path, ns: seq<string>)
    requires Inv(limit, fs, prefix) && Distinct(ns) && forall n :: n in ns ==> StorePath(prefix, n) in fs
    ensures var r := InstalledFrom(limit, fs, prefix, ns);
      r.Ok? && Distinct(r.value) && forall n :: n in r.value <==> n in ns && MetaPath(prefix, n) in fs
  {
    if ns != [] {
      InstalledFromMeans(limit, fs, prefix, ns[1..]);
      var n := ns[0];
      assert n in ns && forall m :: m in ns <==> m == n || m in ns[1..];
      if MetaPath(prefix, n) in fs {
        InstalledIsReal(fs, prefix, n);
        EvalPhysical(limit, fs, MetaPath(prefix, n));
      } else if RealDir(fs, StorePath(prefix, n)) {
        DirAbove(fs, StorePath(prefix, n));
        ParentIsReal(fs, MetaPath(prefix, n)) by { assert Parent(MetaPath(prefix, n)) == StorePath(prefix, n); }
        assert Names(MetaPath(prefix, n)) by { assert Names(StorePath(prefix, n)); }
        EvalMissing(limit, fs, MetaPath(prefix, n));
      }
    }
  }

  /** A sound prefix lists exactly the packages that have a metadata file, each once. */
  lemma InstalledNamesMeans(limit: nat, fs: FS, prefix: Path)
    requires Inv(limit, fs, prefix)
    ensures var r := InstalledNames(limit, fs, prefix);
      r.Ok? && Distinct(r.value) && forall n :: n in r.value <==> MetaPath(prefix, n) in fs
  {
    var ns := ReadDir(fs, prefix + ["store"]);
    forall n ensures n in ns <==> StorePath(prefix, n) in fs {
      assert prefix + ["store"] + [n] == StorePath(prefix, n);
    }
    InstalledFromMeans(limit, fs, prefix, ns);
    forall n | MetaPath(prefix, n) in fs ensures n in ns { InstalledIsReal(fs, prefix, n); }
  }

  // ----- upgrade and install -----

  /** The upgrade plan: each name once, with the architecture and link state on record. */
  function UpgradeTargets(limit: nat, fs: FS, prefix: Path, arch: string, names: seq<string>, seen: set<string>): (r: Result<seq<Target>>)
    ensures r.Ok? ==> DistinctTargets(r.value) && forall i :: 0 <= i < |r.value| ==> r.value[i].name !in seen
    decreases |names|
  {
    if names == [] then Ok([])
    else
      var n := names[0];
      if !ValidName(n) then Err
      else if n in seen then UpgradeTargets(limit, fs, prefix, arch, names[1..], seen)
      else
        var metadata := ReadMeta(limit, fs, prefix, n);
        if metadata.None? then Err
        else
          match UpgradeTargets(limit, fs, prefix, arch, names[1..], seen + {n})
          case Err => Err
          case Ok(rest) =>
            Ok([Target(n, if arch != "" then arch else metadata.value.arch, metadata.value.linked)] + rest)
  }

  /** Without names every installed package is upgraded. */
  function Upgrade(limit: nat, fs: FS, prefix: Path, arch: string, names: seq<string>, reg: Registry, suffix: string): Step
    requires Ready(fs, prefix) && TameRegistry(prefix, reg, suffix)
  {
    match if names == [] then InstalledNames(limit, fs, prefix) else Ok(names)
    case Err => Step(fs, false)
    case Ok(all) =>
      if all == [] then Step(fs, true)
      else
        match UpgradeTargets(limit, fs, prefix, arch, all, {})
        case Err => Step(fs, false)
        case Ok(targets) => InstallPlan(limit, fs, prefix, targets, arch, false, reg, suffix)
  }

  function InstallTargets(names: seq<string>, arch: string, linked: bool, seen: set<string>): (r: seq<Target>)
    ensures DistinctTargets(r) && forall i :: 0 <= i < |r| ==> r[i].name !in seen
    decreases |names|
  {
    if names == [] then []
    else if names[0] in seen then InstallTargets(names[1..], arch, linked, seen)
    else [Target(names[0], arch, linked)] + InstallTargets(names[1..], arch, linked, seen + {names[0]})
  }

  function InstallPackages(limit: nat, fs: FS, prefix: Path, names: seq<string>, arch: string, linked: bool, force: bool,
                           reg: Registry, suffix: string): Step
    requires Ready(fs, prefix) && TameRegistry(prefix, reg, suffix)
  {
    InstallPlan(limit, fs, prefix, InstallTargets(names, arch, linked, {}), arch, force, reg, suffix)
  }
}
