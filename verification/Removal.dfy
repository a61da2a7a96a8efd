/** Exactly when a package can be removed (cmd/binman/install.go): a link in some profile
    that lies above one of its paths, though it belongs to another package, is in the way. */
module Removal {
  import opened Lexical
  import opened FileTree
  import Order
  import Extract
  import opened Aggregate
  import opened Prefix
  import opened Lifecycle
  import opened Commands
  import Outcomes
  import Sturdy

  /** Unlinking in the profile x meets no file or link above the package's paths. */
  ghost predicate Passable(fs: FS, prefix: Path, x: string, files: seq<Path>) {
    ParentsAllow(fs, ProfilePath(prefix, x), files)
  }

  lemma {:induction false} SameParents(fs: FS, fs': FS, target: Path, k: nat)
    requires forall j :: k <= j < |target| ==> SameAt(fs, fs', target[..j])
    ensures Extract.ParentsOk(fs, target, k) <==> Extract.ParentsOk(fs', target, k)
    decreases |target| - k
  {
    if k < |target| {
      assert SameAt(fs, fs', target[..k]);
      SameParents(fs, fs', target, k + 1);
    }
  }

  /** What happens outside a profile does not matter for it. */
  lemma SamePassable(fs: FS, fs': FS, prefix: Path, x: string, files: seq<Path>)
    requires forall p :: ProfilePath(prefix, x) < p ==> SameAt(fs, fs', p)
    ensures Passable(fs, prefix, x, files) <==> Passable(fs', prefix, x, files)
  {
    var root := ProfilePath(prefix, x);
    forall i | 0 <= i < |files| ensures Extract.ParentsOk(fs, root + files[i], |root| + 1) <==> Extract.ParentsOk(fs', root + files[i], |root| + 1) {
      var target := root + files[i];
      forall j | |root| + 1 <= j < |target| ensures SameAt(fs, fs', target[..j]) {
        assert target[..j][..|root|] == root;
        assert root < target[..j];
      }
      SameParents(fs, fs', target, |root| + 1);
    }
  }

  lemma OtherProfileSame(limit: nat, fs: FS, prefix: Path, n: string, profile: string, x: string, files: seq<Path>)
    requires Ready(fs, prefix) && IsName(n) && profile != x && Files(limit, fs, prefix, n) == Ok(files)
    ensures Passable(UnlinkPkgFrom(limit, fs, prefix, n, ProfilePath(prefix, profile)).fs, prefix, x, files) <==> Passable(fs, prefix, x, files)
  {
    var root := ProfilePath(prefix, profile);
    var s := UnlinkPkgFrom(limit, fs, prefix, n, root);
    FilesInRoot(limit, fs, prefix, n);
    UnlinkFilesEffect(fs, root, StorePath(prefix, n), files);
    forall p | ProfilePath(prefix, x) < p ensures SameAt(fs, s.fs, p) {
      assert p[|prefix| + 1] == x && root[|prefix| + 1] == profile;
      assert !IsDest(root, files, p);
    }
    SamePassable(fs, s.fs, prefix, x, files);
  }

  lemma OneProfile(limit: nat, fs: FS, prefix: Path, n: string, profile: string)
    requires Ready(fs, prefix) && IsName(n)
    ensures var r := Files(limit, fs, prefix, n);
      UnlinkPkgFrom(limit, fs, prefix, n, ProfilePath(prefix, profile)).ok <==> r.Ok? && Passable(fs, prefix, profile, r.value)
  {
    var r := Files(limit, fs, prefix, n);
    FilesInRoot(limit, fs, prefix, n);
    if r.Ok? { UnlinkFilesEffect(fs, ProfilePath(prefix, profile), StorePath(prefix, n), r.value); }
  }

  /** Unlinking from every profile of a list. */
  ghost predicate AllPassable(limit: nat, fs: FS, prefix: Path, n: string, profiles: seq<string>) {
    profiles != [] ==>
      var r := Files(limit, fs, prefix, n);
      r.Ok? && forall i :: 0 <= i < |profiles| ==> Passable(fs, prefix, profiles[i], r.value)
  }

  lemma {:induction false} ProfilesExactly(limit: nat, fs: FS, prefix: Path, n: string, profiles: seq<string>)
    requires Inv(limit, fs, prefix) && Installed(fs, prefix, n) && Order.Distinct(profiles)
    ensures UnlinkProfiles(limit, fs, prefix, n, profiles).ok <==> AllPassable(limit, fs, prefix, n, profiles)
    decreases |profiles|
  {
    if profiles != [] {
      var x, rest := profiles[0], profiles[1..];
      var s := UnlinkPkgFrom(limit, fs, prefix, n, ProfilePath(prefix, x));
      InstalledIsReal(fs, prefix, n);
      OneProfile(limit, fs, prefix, n, x);
      if s.ok {
        UnlinkFromProfile(limit, fs, prefix, n, x);
        ProfileOnlyKeepsInv(limit, fs, s.fs, prefix);
        ProfilesExactly(limit, s.fs, prefix, n, rest);
        var files := Files(limit, fs, prefix, n).value;
        forall i | 0 <= i < |rest| ensures Passable(s.fs, prefix, rest[i], files) <==> Passable(fs, prefix, rest[i], files) {
          assert profiles[0] != profiles[i + 1];
          OtherProfileSame(limit, fs, prefix, n, x, rest[i], files);
        }
        PassableCons(fs, s.fs, prefix, profiles, files);
      }
    }
  }

  lemma PassableCons(fs: FS, mid: FS, prefix: Path, profiles: seq<string>, files: seq<Path>)
    requires profiles != [] && Passable(fs, prefix, profiles[0], files)
    requires var rest := profiles[1..];
      forall i :: 0 <= i < |rest| ==> (Passable(mid, prefix, rest[i], files) <==> Passable(fs, prefix, rest[i], files))
    ensures (forall i :: 0 <= i < |profiles| ==> Passable(fs, prefix, profiles[i], files)) <==>
      forall i :: 0 <= i < |profiles[1..]| ==> Passable(mid, prefix, profiles[1..][i], files)
  {
    var rest := profiles[1..];
    if forall i :: 0 <= i < |profiles| ==> Passable(fs, prefix, profiles[i], files) {
      forall i | 0 <= i < |rest| ensures Passable(mid, prefix, rest[i], files) { assert profiles[i + 1] == rest[i]; }
    }
    if forall i :: 0 <= i < |rest| ==> Passable(mid, prefix, rest[i], files) {
      forall i | 0 <= i < |profiles| ensures Passable(fs, prefix, profiles[i], files) {
        if i > 0 { assert rest[i - 1] == profiles[i] && Passable(mid, prefix, rest[i - 1], files); }
      }
    }
  }

  lemma {:induction false} DirNamesDistinct(fs: FS, d: Path, ns: seq<string>)
    requires Order.Distinct(ns)
    ensures Order.Distinct(DirNames(fs, d, ns))
  {
    if ns != [] {
      assert forall i :: 0 <= i < |ns[1..]| ==> ns[1..][i] == ns[i + 1];
      DirNamesDistinct(fs, d, ns[1..]);
      var rest := DirNames(fs, d, ns[1..]);
      assert forall i :: 0 <= i < |rest| ==> rest[i] in rest;
    }
  }

  /** In every profile directory there is no file or link above the package's paths. */
  ghost predicate ProfilesPassable(limit: nat, fs: FS, prefix: Path, n: string) {
    forall x :: RealDir(fs, ProfilePath(prefix, x)) ==>
      Files(limit, fs, prefix, n).Ok? && Passable(fs, prefix, x, Files(limit, fs, prefix, n).value)
  }

  /** After unlinking at the root. */
  lemma RootUnlinked(limit: nat, fs: FS, prefix: Path, n: string) returns (fs1: FS)
    requires Sturdy.IsSturdy(limit, fs, prefix) && Installed(fs, prefix, n) && IsName(n)
    ensures Inv(limit, fs1, prefix) && RootOnly(fs, fs1, prefix) && Installed(fs1, prefix, n)
    ensures Files(limit, fs1, prefix, n) == Files(limit, fs, prefix, n)
    ensures (if PlainMeta(fs, prefix, n).value.linked then UnlinkPkgFrom(limit, fs, prefix, n, prefix) else Step(fs, true)) == Step(fs1, true)
  {
    fs1 := fs;
    if PlainMeta(fs, prefix, n).value.linked {
      Sturdy.UnlinkSucceeds(limit, fs, prefix, n);
      UnlinkKeepsInv(limit, fs, prefix, n);
      fs1 := UnlinkPkgFrom(limit, fs, prefix, n, prefix).fs;
    }
    RootOnlyStores(limit, fs, fs1, prefix, n);
  }

  lemma RootOnlyPassable(limit: nat, fs: FS, fs1: FS, prefix: Path, n: string, profiles: seq<string>)
    requires RootOnly(fs, fs1, prefix) && Files(limit, fs1, prefix, n) == Files(limit, fs, prefix, n)
    requires forall x :: x in profiles <==> RealDir(fs1, ProfilePath(prefix, x))
    ensures AllPassable(limit, fs1, prefix, n, profiles) <==> ProfilesPassable(limit, fs, prefix, n)
  {
    var r := Files(limit, fs, prefix, n);
    forall x ensures RealDir(fs, ProfilePath(prefix, x)) <==> x in profiles
      ensures r.Ok? ==> (Passable(fs1, prefix, x, r.value) <==> Passable(fs, prefix, x, r.value))
    {
      assert ProfilePath(prefix, x)[|prefix|] == "profile";
      assert SameAt(fs, fs1, ProfilePath(prefix, x));
      forall p | ProfilePath(prefix, x) < p ensures SameAt(fs, fs1, p) { assert p[|prefix|] == "profile"; }
      if r.Ok? { SamePassable(fs, fs1, prefix, x, r.value); }
    }
    if ProfilesPassable(limit, fs, prefix, n) {
      if profiles != [] { assert profiles[0] in profiles; }
      forall i | 0 <= i < |profiles| ensures r.Ok? && Passable(fs1, prefix, profiles[i], r.value) { assert profiles[i] in profiles; }
    }
    if AllPassable(limit, fs1, prefix, n, profiles) {
      forall x | RealDir(fs, ProfilePath(prefix, x)) ensures r.Ok? && Passable(fs, prefix, x, r.value) {
        var i :| 0 <= i < |profiles| && profiles[i] == x;
        assert Passable(fs1, prefix, profiles[i], r.value);
      }
    }
  }

  lemma RemoveIsPhases(limit: nat, fs: FS, prefix: Path, n: string)
    requires Sturdy.IsSturdy(limit, fs, prefix) && Installed(fs, prefix, n) && ValidName(n)
    ensures Remove(limit, fs, prefix, n).ok <==> ProfilesPassable(limit, fs, prefix, n)
  {
    Outcomes.ReadMetaIsPlainFor(limit, fs, prefix, n);
    InstalledIsReal(fs, prefix, n);
    EvalPhysical(limit, fs, StorePath(prefix, n));
    var fs1 := RootUnlinked(limit, fs, prefix, n);
    ProfilePhase(limit, fs, fs1, prefix, n);
  }

  lemma ProfilesListed(fs: FS, prefix: Path)
    ensures var parent := prefix + ["profile"];
      forall x :: x in DirNames(fs, parent, ReadDir(fs, parent)) <==> RealDir(fs, ProfilePath(prefix, x))
  {
    var parent := prefix + ["profile"];
    forall x ensures x in DirNames(fs, parent, ReadDir(fs, parent)) <==> RealDir(fs, ProfilePath(prefix, x)) {
      assert parent + [x] == ProfilePath(prefix, x);
    }
  }

  lemma ProfilePhase(limit: nat, fs: FS, fs1: FS, prefix: Path, n: string)
    requires Inv(limit, fs1, prefix) && Installed(fs1, prefix, n) && RootOnly(fs, fs1, prefix)
    requires Files(limit, fs1, prefix, n) == Files(limit, fs, prefix, n)
    ensures var parent := prefix + ["profile"];
      UnlinkProfiles(limit, fs1, prefix, n, DirNames(fs1, parent, ReadDir(fs1, parent))).ok <==> ProfilesPassable(limit, fs, prefix, n)
  {
    var parent := prefix + ["profile"];
    var profiles := DirNames(fs1, parent, ReadDir(fs1, parent));
    DirNamesDistinct(fs1, parent, ReadDir(fs1, parent));
    ProfilesExactly(limit, fs1, prefix, n, profiles);
    ProfilesListed(fs1, prefix);
    RootOnlyPassable(limit, fs, fs1, prefix, n, profiles);
  }

  /** A package is removed exactly when it is installed under a valid name and, if there are
      profile directories, it can be collected and in none of them a file or link, whosever
      it is, lies above one of its paths. */
  lemma RemoveSucceedsExactly(limit: nat, fs: FS, prefix: Path, n: string)
    requires Sturdy.IsSturdy(limit, fs, prefix)
    ensures Remove(limit, fs, prefix, n).ok <==>
      ValidName(n) && Installed(fs, prefix, n) && ProfilesPassable(limit, fs, prefix, n)
  {
    if ValidName(n) {
      Outcomes.ReadMetaIsPlainFor(limit, fs, prefix, n);
      if Installed(fs, prefix, n) { RemoveIsPhases(limit, fs, prefix, n); }
    }
  }
}
