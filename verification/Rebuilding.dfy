/** Exactly when the profile trees can be rebuilt (cmd/binman/manifest.go): no package of a
    profile offers a path above one that a package listed before it offers. */
module Rebuilding {
  import opened Options
  import opened Lexical
  import opened FileTree
  import Order
  import Collect
  import opened Aggregate
  import Prefix
  import opened Lifecycle
  import opened Commands
  import opened ManifestPlan
  import opened Manifest
  import opened Profiles

  // ----- one profile -----

  /** Package i of the list can be collected, and none of its paths lies above one that a
      package before it offers. */
  ghost predicate FitsAt(limit: nat, fs: FS, prefix: Path, packages: seq<string>, i: nat)
    requires i < |packages|
  {
    var r := Files(limit, fs, prefix, packages[i]);
    r.Ok? && forall q :: q in r.value ==> !Covered(limit, fs, prefix, packages, i, q)
  }

  /** One of the first i packages offers a path below q. */
  ghost predicate Covered(limit: nat, fs: FS, prefix: Path, packages: seq<string>, i: nat, q: Path)
    requires i <= |packages|
  {
    exists j: nat :: j < i && OffersBelow(limit, fs, prefix, packages[j], q)
  }

  ghost predicate ListFits(limit: nat, fs: FS, prefix: Path, packages: seq<string>) {
    forall i: nat :: i < |packages| ==> FitsAt(limit, fs, prefix, packages, i)
  }

  /** In the profile as it is no directory stands where a link of package i must go. */
  ghost predicate RoomAt(limit: nat, fs: FS, prefix: Path, profile: string, packages: seq<string>, i: nat)
    requires i < |packages|
  {
    var r := Files(limit, fs, prefix, packages[i]);
    r.Ok? ==> forall q :: q in r.value ==> !RealDir(fs, ProfilePath(prefix, profile) + q)
  }

  /** Both: the list can be linked into the profile as it is. */
  ghost predicate CanLinkAt(limit: nat, fs: FS, prefix: Path, profile: string, packages: seq<string>, i: nat)
    requires i < |packages|
  {
    FitsAt(limit, fs, prefix, packages, i) && RoomAt(limit, fs, prefix, profile, packages, i)
  }

  ghost predicate CanLinkList(limit: nat, fs: FS, prefix: Path, profile: string, packages: seq<string>) {
    forall i: nat :: i < |packages| ==> CanLinkAt(limit, fs, prefix, profile, packages, i)
  }

  lemma CoveredNext(limit: nat, fs: FS, mid: FS, prefix: Path, packages: seq<string>, i: nat, q: Path)
    requires i < |packages|
    requires forall j :: 0 <= j < |packages| ==> Files(limit, mid, prefix, packages[j]) == Files(limit, fs, prefix, packages[j])
    ensures Covered(limit, fs, prefix, packages, i + 1, q) <==>
      OffersBelow(limit, fs, prefix, packages[0], q) || Covered(limit, mid, prefix, packages[1..], i, q)
  {
    var rest := packages[1..];
    forall j: nat | j < i ensures OffersBelow(limit, mid, prefix, rest[j], q) <==> OffersBelow(limit, fs, prefix, packages[j + 1], q) {
      assert rest[j] == packages[j + 1];
    }
    if Covered(limit, fs, prefix, packages, i + 1, q) {
      var j: nat :| j < i + 1 && OffersBelow(limit, fs, prefix, packages[j], q);
      if j > 0 { assert OffersBelow(limit, mid, prefix, rest[j - 1], q); }
    }
    if Covered(limit, mid, prefix, rest, i, q) {
      var j: nat :| j < i && OffersBelow(limit, mid, prefix, rest[j], q);
      assert OffersBelow(limit, fs, prefix, packages[j + 1], q);
    }
  }

  /** The directories in the profile after the first package. */
  ghost predicate DirsWith(limit: nat, fs: FS, mid: FS, prefix: Path, profile: string, n: string) {
    forall q :: q != [] ==>
      (RealDir(mid, ProfilePath(prefix, profile) + q) <==>
        RealDir(fs, ProfilePath(prefix, profile) + q) || OffersBelow(limit, fs, prefix, n, q))
  }

  lemma CanLinkNext(limit: nat, fs: FS, mid: FS, prefix: Path, profile: string, packages: seq<string>, i: nat)
    requires WF(fs) && i + 1 < |packages| && DirsWith(limit, fs, mid, prefix, profile, packages[0])
    requires forall j :: 0 <= j < |packages| ==> Files(limit, mid, prefix, packages[j]) == Files(limit, fs, prefix, packages[j])
    ensures CanLinkAt(limit, fs, prefix, profile, packages, i + 1) <==> CanLinkAt(limit, mid, prefix, profile, packages[1..], i)
  {
    var r := Files(limit, fs, prefix, packages[i + 1]);
    assert packages[1..][i] == packages[i + 1];
    if r.Ok? {
      forall q | q in r.value
        ensures q != [] && (Covered(limit, fs, prefix, packages, i + 1, q) || RealDir(fs, ProfilePath(prefix, profile) + q) <==>
          Covered(limit, mid, prefix, packages[1..], i, q) || RealDir(mid, ProfilePath(prefix, profile) + q))
      {
        OfferedIsPath(limit, fs, prefix, packages[i + 1], q);
        CoveredNext(limit, fs, mid, prefix, packages, i, q);
      }
    }
  }

  lemma OfferedIsPath(limit: nat, fs: FS, prefix: Path, n: string, q: Path)
    requires WF(fs) && OffersFile(limit, fs, prefix, n, q)
    ensures q != []
  {
    Collect.CollectedAreLinkable(limit, fs, StorePath(prefix, n));
    var files := Files(limit, fs, prefix, n).value;
    var i :| 0 <= i < |files| && files[i] == q;
  }

  /** The first package is linked exactly when it can be. */
  lemma FirstLinks(limit: nat, fs: FS, prefix: Path, profile: string, packages: seq<string>)
    requires CanLink(limit, fs, prefix, profile, packages) && packages != []
    requires Rootable(fs, ProfilePath(prefix, profile))
    ensures LinkPkgInto(limit, fs, prefix, packages[0], ProfilePath(prefix, profile)).ok <==>
      CanLinkAt(limit, fs, prefix, profile, packages, 0)
  {
    ProfileLink(limit, fs, prefix, packages[0], profile);
    var r := Files(limit, fs, prefix, packages[0]);
    if r.Ok? { EachPath(fs, ProfilePath(prefix, profile), r.value); }
    FirstIsFree(limit, fs, prefix, packages);
  }

  lemma EachPath(fs: FS, root: Path, files: seq<Path>)
    ensures (forall i :: 0 <= i < |files| ==> !RealDir(fs, root + files[i])) <==> forall q :: q in files ==> !RealDir(fs, root + q)
  {
    if forall i :: 0 <= i < |files| ==> !RealDir(fs, root + files[i]) {
      forall q | q in files ensures !RealDir(fs, root + q) {
        var i :| 0 <= i < |files| && files[i] == q;
        assert !RealDir(fs, root + files[i]);
      }
    }
  }

  lemma FirstIsFree(limit: nat, fs: FS, prefix: Path, packages: seq<string>)
    requires packages != []
    ensures FitsAt(limit, fs, prefix, packages, 0) <==> Files(limit, fs, prefix, packages[0]).Ok?
  {}

  lemma FirstDirs(limit: nat, fs: FS, prefix: Path, profile: string, packages: seq<string>) returns (mid: FS)
    requires CanLink(limit, fs, prefix, profile, packages) && packages != []
    requires Rootable(fs, ProfilePath(prefix, profile))
    requires LinkPkgInto(limit, fs, prefix, packages[0], ProfilePath(prefix, profile)).ok
    ensures mid == LinkPkgInto(limit, fs, prefix, packages[0], ProfilePath(prefix, profile)).fs
    ensures CanLink(limit, mid, prefix, profile, packages[1..])
    ensures LinkInto(limit, mid, prefix, profile, packages[1..]) == LinkInto(limit, fs, prefix, profile, packages)
    ensures forall i :: 0 <= i < |packages| ==> Files(limit, mid, prefix, packages[i]) == Files(limit, fs, prefix, packages[i])
    ensures DirsWith(limit, fs, mid, prefix, profile, packages[0])
  {
    var root := ProfilePath(prefix, profile);
    ProfileLink(limit, fs, prefix, packages[0], profile);
    mid := LinkPkgInto(limit, fs, prefix, packages[0], root).fs;
    ProfileOnlyKeepsInv(limit, fs, mid, prefix);
    forall q | q != [] ensures RealDir(mid, root + q) <==> RealDir(fs, root + q) || OffersBelow(limit, fs, prefix, packages[0], q) {
      LinkedShows(limit, fs, mid, prefix, profile, packages[..1], q);
      OnePackage(limit, fs, prefix, packages[..1], q);
    }
  }

  lemma OnePackage(limit: nat, fs: FS, prefix: Path, one: seq<string>, q: Path)
    requires |one| == 1
    ensures NeedsDir(limit, fs, prefix, one, q) <==> OffersBelow(limit, fs, prefix, one[0], q)
    ensures LastOffer(limit, fs, prefix, one, q) == if OffersFile(limit, fs, prefix, one[0], q) then Some(one[0]) else None
  {
    assert one[1..] == [] && LastOffer(limit, fs, prefix, one[1..], q) == None && !NeedsDir(limit, fs, prefix, one[1..], q);
  }

  lemma {:induction false} LinkIntoExactly(limit: nat, fs: FS, prefix: Path, profile: string, packages: seq<string>)
    requires CanLink(limit, fs, prefix, profile, packages)
    ensures LinkInto(limit, fs, prefix, profile, packages).ok <==> CanLinkList(limit, fs, prefix, profile, packages)
    decreases |packages|
  {
    if packages != [] {
      ProfileRootable(fs, prefix, profile);
      FirstLinks(limit, fs, prefix, profile, packages);
      if LinkPkgInto(limit, fs, prefix, packages[0], ProfilePath(prefix, profile)).ok {
        var mid := FirstDirs(limit, fs, prefix, profile, packages);
        LinkIntoExactly(limit, mid, prefix, profile, packages[1..]);
        ListNext(limit, fs, mid, prefix, profile, packages);
      }
    }
  }

  lemma ListNext(limit: nat, fs: FS, mid: FS, prefix: Path, profile: string, packages: seq<string>)
    requires WF(fs) && packages != [] && DirsWith(limit, fs, mid, prefix, profile, packages[0])
    requires forall j :: 0 <= j < |packages| ==> Files(limit, mid, prefix, packages[j]) == Files(limit, fs, prefix, packages[j])
    requires CanLinkAt(limit, fs, prefix, profile, packages, 0)
    ensures CanLinkList(limit, fs, prefix, profile, packages) <==> CanLinkList(limit, mid, prefix, profile, packages[1..])
  {
    var rest := packages[1..];
    forall i: nat | i < |rest| ensures CanLinkAt(limit, fs, prefix, profile, packages, i + 1) <==> CanLinkAt(limit, mid, prefix, profile, rest, i) {
      CanLinkNext(limit, fs, mid, prefix, profile, packages, i);
    }
    if CanLinkList(limit, fs, prefix, profile, packages) {
      forall i: nat | i < |rest| ensures CanLinkAt(limit, mid, prefix, profile, rest, i) {
        assert CanLinkAt(limit, fs, prefix, profile, packages, i + 1);
      }
    }
    if CanLinkList(limit, mid, prefix, profile, rest) {
      forall i: nat | i < |packages| ensures CanLinkAt(limit, fs, prefix, profile, packages, i) {
        if i > 0 { assert CanLinkAt(limit, mid, prefix, profile, rest, i - 1); }
      }
    }
  }

  // ----- all the profiles -----

  /** Each profile of the list can be linked as it is. */
  ghost predicate CanLinkAll(limit: nat, fs: FS, prefix: Path, profiles: map<string, seq<string>>, ps: seq<string>) {
    forall x :: x in ps && x in profiles ==> CanLinkList(limit, fs, prefix, x, profiles[x])
  }

  /** A profile sees the same before and after another one is linked. */
  lemma OtherListSame(limit: nat, fs: FS, mid: FS, prefix: Path, x: string, packages: seq<string>)
    requires forall i :: 0 <= i < |packages| ==> Files(limit, mid, prefix, packages[i]) == Files(limit, fs, prefix, packages[i])
    requires forall q :: SameAt(fs, mid, ProfilePath(prefix, x) + q)
    ensures CanLinkList(limit, fs, prefix, x, packages) <==> CanLinkList(limit, mid, prefix, x, packages)
  {
    forall i: nat | i < |packages| ensures CanLinkAt(limit, fs, prefix, x, packages, i) <==> CanLinkAt(limit, mid, prefix, x, packages, i) {
      forall q ensures Covered(limit, fs, prefix, packages, i, q) <==> Covered(limit, mid, prefix, packages, i, q) {
        forall j: nat | j < i ensures OffersBelow(limit, fs, prefix, packages[j], q) <==> OffersBelow(limit, mid, prefix, packages[j], q) {}
      }
      forall q ensures RealDir(fs, ProfilePath(prefix, x) + q) <==> RealDir(mid, ProfilePath(prefix, x) + q) {
        assert SameAt(fs, mid, ProfilePath(prefix, x) + q);
      }
    }
  }

  lemma ProfileCanLink(limit: nat, fs: FS, prefix: Path, profiles: map<string, seq<string>>, ps: seq<string>)
    requires CanRebuild(limit, fs, prefix, profiles, ps) && ps != []
    ensures ps[0] in profiles && CanLink(limit, fs, prefix, ps[0], profiles[ps[0]])
  {}

  lemma AllNext(limit: nat, fs: FS, mid: FS, prefix: Path, profiles: map<string, seq<string>>, ps: seq<string>)
    requires ps != [] && Order.Distinct(ps) && ps[0] in profiles && CanLinkList(limit, fs, prefix, ps[0], profiles[ps[0]])
    requires forall x :: x in ps[1..] && x in profiles ==>
      (CanLinkList(limit, fs, prefix, x, profiles[x]) <==> CanLinkList(limit, mid, prefix, x, profiles[x]))
    ensures CanLinkAll(limit, fs, prefix, profiles, ps) <==> CanLinkAll(limit, mid, prefix, profiles, ps[1..])
  {
    assert forall x :: x in ps <==> x == ps[0] || x in ps[1..];
  }

  lemma {:induction false} LinkProfilesExactly(limit: nat, fs: FS, prefix: Path, profiles: map<string, seq<string>>, ps: seq<string>)
    requires CanRebuild(limit, fs, prefix, profiles, ps) && Order.Distinct(ps)
    ensures LinkProfiles(limit, fs, prefix, profiles, ps).ok <==> CanLinkAll(limit, fs, prefix, profiles, ps)
    decreases |ps|
  {
    if ps != [] {
      var x := ps[0];
      ProfileCanLink(limit, fs, prefix, profiles, ps);
      LinkIntoExactly(limit, fs, prefix, x, profiles[x]);
      if LinkInto(limit, fs, prefix, x, profiles[x]).ok {
        var mid := AfterFirst(limit, fs, prefix, profiles, ps);
        LinkProfilesExactly(limit, mid, prefix, profiles, ps[1..]);
        AllNext(limit, fs, mid, prefix, profiles, ps);
      } else {
        assert x in ps;
      }
    }
  }

  lemma AfterFirst(limit: nat, fs: FS, prefix: Path, profiles: map<string, seq<string>>, ps: seq<string>) returns (mid: FS)
    requires CanRebuild(limit, fs, prefix, profiles, ps) && Order.Distinct(ps) && ps != []
    requires LinkInto(limit, fs, prefix, ps[0], profiles[ps[0]]).ok
    ensures CanRebuild(limit, mid, prefix, profiles, ps[1..])
    ensures LinkProfiles(limit, mid, prefix, profiles, ps[1..]) == LinkProfiles(limit, fs, prefix, profiles, ps)
    ensures forall x :: x in ps[1..] && x in profiles ==>
      (CanLinkList(limit, fs, prefix, x, profiles[x]) <==> CanLinkList(limit, mid, prefix, x, profiles[x]))
  {
    LinkIntoReady(limit, fs, prefix, ps[0], profiles[ps[0]]);
    mid := LinkInto(limit, fs, prefix, ps[0], profiles[ps[0]]).fs;
    ProfileOnlyKeepsInv(limit, fs, mid, prefix);
    forall x | x in ps[1..] && x in profiles
      ensures CanLinkList(limit, fs, prefix, x, profiles[x]) <==> CanLinkList(limit, mid, prefix, x, profiles[x])
    {
      LaterIsOther(ps, x);
      forall q ensures SameAt(fs, mid, ProfilePath(prefix, x) + q) {
        LinkIntoLocal(limit, fs, prefix, ps[0], profiles[ps[0]], x, q);
      }
      OtherListSame(limit, fs, mid, prefix, x, profiles[x]);
    }
  }

  lemma LaterIsOther(ps: seq<string>, x: string)
    requires ps != [] && Order.Distinct(ps) && x in ps[1..]
    ensures x != ps[0]
  {
    var i :| 0 <= i < |ps[1..]| && ps[1..][i] == x;
    assert ps[i + 1] == x;
  }

  /** Each profile's list fits, whatever the profile trees hold: they are dropped first. */
  ghost predicate ProfilesFit(limit: nat, fs: FS, prefix: Path, config: Config) {
    forall x :: x in config.profiles ==> ListFits(limit, fs, prefix, config.profiles[x])
  }

  lemma DroppedList(limit: nat, fs: FS, dropped: FS, prefix: Path, x: string, packages: seq<string>)
    requires forall i :: 0 <= i < |packages| ==> Files(limit, dropped, prefix, packages[i]) == Files(limit, fs, prefix, packages[i])
    requires forall p :: Prefix.InProfile(prefix, p) ==> p !in dropped
    ensures CanLinkList(limit, dropped, prefix, x, packages) <==> ListFits(limit, fs, prefix, packages)
  {
    forall q ensures !RealDir(dropped, ProfilePath(prefix, x) + q) { assert Prefix.InProfile(prefix, ProfilePath(prefix, x) + q); }
    forall i: nat | i < |packages| ensures CanLinkAt(limit, dropped, prefix, x, packages, i) <==> FitsAt(limit, fs, prefix, packages, i) {
      forall q ensures Covered(limit, fs, prefix, packages, i, q) <==> Covered(limit, dropped, prefix, packages, i, q) {
        forall j: nat | j < i ensures OffersBelow(limit, fs, prefix, packages[j], q) <==> OffersBelow(limit, dropped, prefix, packages[j], q) {}
      }
    }
    if CanLinkList(limit, dropped, prefix, x, packages) {
      forall i: nat | i < |packages| ensures FitsAt(limit, fs, prefix, packages, i) { assert CanLinkAt(limit, dropped, prefix, x, packages, i); }
    }
    if ListFits(limit, fs, prefix, packages) {
      forall i: nat | i < |packages| ensures CanLinkAt(limit, dropped, prefix, x, packages, i) { assert FitsAt(limit, fs, prefix, packages, i); }
    }
  }

  /** The profile trees are rebuilt exactly when in each list every package can be collected
      and offers no path above one that a package before it offers. */
  lemma RebuildSucceedsExactly(limit: nat, fs: FS, prefix: Path, config: Config)
    requires Inv(limit, fs, prefix) && ValidConfig(config) && AllInstalled(fs, prefix, config.profiles)
    ensures RebuildProfiles(limit, fs, prefix, config).ok <==> ProfilesFit(limit, fs, prefix, config)
  {
    var dropped := RebuildStarts(limit, fs, prefix, config);
    LinkProfilesExactly(limit, dropped, prefix, config.profiles, ProfileNames(config));
    forall x | x in config.profiles
      ensures CanLinkList(limit, dropped, prefix, x, config.profiles[x]) <==> ListFits(limit, fs, prefix, config.profiles[x])
    {
      DroppedList(limit, fs, dropped, prefix, x, config.profiles[x]);
    }
  }
}
