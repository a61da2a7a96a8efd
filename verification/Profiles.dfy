/** What the profile trees show once `sync` has rebuilt them (cmd/binman/manifest.go). */
module Profiles {
  import opened Options
  import opened Lexical
  import opened FileTree
  import Order
  import opened Aggregate
  import opened Prefix
  import Install
  import opened Lifecycle
  import opened Plan
  import opened Commands
  import opened Manifest
  import opened ManifestPlan
  import Converge
  import Fixpoint
  import Resync

  predicate OffersFile(limit: nat, fs: FS, prefix: Path, n: string, q: Path) {
    Files(limit, fs, prefix, n).Ok? && q in Files(limit, fs, prefix, n).value
  }

  ghost predicate OffersBelow(limit: nat, fs: FS, prefix: Path, n: string, q: Path) {
    Files(limit, fs, prefix, n).Ok? && IsAbove([], Files(limit, fs, prefix, n).value, q)
  }

  /** The last package of the list that offers q. */
  function LastOffer(limit: nat, fs: FS, prefix: Path, packages: seq<string>, q: Path): Option<string> {
    if packages == [] then None
    else
      var later := LastOffer(limit, fs, prefix, packages[1..], q);
      if later.None? && OffersFile(limit, fs, prefix, packages[0], q) then Some(packages[0]) else later
  }

  /** Some package of the list offers a file below q. */
  ghost predicate NeedsDir(limit: nat, fs: FS, prefix: Path, packages: seq<string>, q: Path) {
    packages != [] && (OffersBelow(limit, fs, prefix, packages[0], q) || NeedsDir(limit, fs, prefix, packages[1..], q))
  }

  /** Linking the packages into the profile left a directory at q if one of them needs it,
      and otherwise the link of the last that offers q; any other path is as it was. */
  ghost predicate Shows(limit: nat, fs: FS, fs': FS, prefix: Path, profile: string, packages: seq<string>, q: Path) {
    var root := ProfilePath(prefix, profile);
    if NeedsDir(limit, fs, prefix, packages, q) then RealDir(fs', root + q)
    else match LastOffer(limit, fs, prefix, packages, q)
      case Some(n) => root + q in fs' && fs'[root + q] == LinkTo(root, StorePath(prefix, n), q)
      case None => SameAt(fs, fs', root + q)
  }

  ghost predicate DirStaysAt(fs: FS, fs': FS, p: Path) {
    RealDir(fs, p) ==> RealDir(fs', p)
  }

  lemma {:induction false} SameAnswers(limit: nat, fs: FS, fs': FS, prefix: Path, packages: seq<string>, q: Path)
    requires forall i :: 0 <= i < |packages| ==> Files(limit, fs', prefix, packages[i]) == Files(limit, fs, prefix, packages[i])
    ensures LastOffer(limit, fs', prefix, packages, q) == LastOffer(limit, fs, prefix, packages, q)
    ensures NeedsDir(limit, fs', prefix, packages, q) == NeedsDir(limit, fs, prefix, packages, q)
  {
    if packages != [] { SameAnswers(limit, fs, fs', prefix, packages[1..], q); }
  }

  /** The listed packages are installed in a sound prefix whose profiles are real. */
  ghost predicate CanLink(limit: nat, fs: FS, prefix: Path, profile: string, packages: seq<string>) {
    && Inv(limit, fs, prefix) && ProfilesReal(fs, prefix) && IsName(profile)
    && forall i :: 0 <= i < |packages| ==> ValidName(packages[i]) && Installed(fs, prefix, packages[i])
  }

  /** One package linked into the profile, seen at one path. */
  lemma LinkShows(limit: nat, fs: FS, prefix: Path, profile: string, packages: seq<string>, q: Path) returns (fs': FS)
    requires CanLink(limit, fs, prefix, profile, packages) && packages != []
    requires LinkInto(limit, fs, prefix, profile, packages).ok
    ensures CanLink(limit, fs', prefix, profile, packages[1..])
    ensures LinkInto(limit, fs', prefix, profile, packages[1..]) == LinkInto(limit, fs, prefix, profile, packages)
    ensures Shows(limit, fs, fs', prefix, profile, packages[..1], q)
    ensures forall i :: 0 <= i < |packages| ==> Files(limit, fs', prefix, packages[i]) == Files(limit, fs, prefix, packages[i])
    ensures DirStaysAt(fs, fs', ProfilePath(prefix, profile) + q)
  {
    var root := ProfilePath(prefix, profile);
    ProfileRootable(fs, prefix, profile);
    ProfileLink(limit, fs, prefix, packages[0], profile);
    var s := LinkPkgInto(limit, fs, prefix, packages[0], root);
    fs' := s.fs;
    LinkedShows(limit, fs, fs', prefix, profile, packages[..1], q);
    ProfileOnlyKeepsInv(limit, fs, fs', prefix);
  }

  lemma LinkedShows(limit: nat, fs: FS, fs': FS, prefix: Path, profile: string, one: seq<string>, q: Path)
    requires |one| == 1 && Files(limit, fs, prefix, one[0]).Ok?
    requires Linked(fs, fs', ProfilePath(prefix, profile), StorePath(prefix, one[0]), Files(limit, fs, prefix, one[0]).value)
    requires var files := Files(limit, fs, prefix, one[0]).value;
      forall i :: 0 <= i < |files| ==> !RealDir(fs, ProfilePath(prefix, profile) + files[i])
    ensures Shows(limit, fs, fs', prefix, profile, one, q)
    ensures DirStaysAt(fs, fs', ProfilePath(prefix, profile) + q)
  {
    var root := ProfilePath(prefix, profile);
    var files := Files(limit, fs, prefix, one[0]).value;
    assert one[1..] == [] && LastOffer(limit, fs, prefix, one[1..], q) == None && !NeedsDir(limit, fs, prefix, one[1..], q);
    AboveUnder(root, files, q);
    if q in files {
      var i :| 0 <= i < |files| && files[i] == q;
      assert fs'[root + files[i]] == LinkTo(root, StorePath(prefix, one[0]), q);
      assert !RealDir(fs, root + files[i]);
    } else {
      NotDestUnder(root, files, q);
      if !IsAbove(root, files, root + q) { assert SameAt(fs, fs', root + q); }
    }
  }

  lemma NotDestUnder(root: Path, files: seq<Path>, q: Path)
    requires q !in files
    ensures !IsDest(root, files, root + q)
  {
    forall i | 0 <= i < |files| ensures root + q != root + files[i] {
      assert (root + q)[|root|..] == q && (root + files[i])[|root|..] == files[i];
    }
  }

  /** What the first package leaves at q, and then the others, is what the list leaves. */
  lemma ShowsThen(limit: nat, fs: FS, mid: FS, fs': FS, prefix: Path, profile: string, packages: seq<string>, q: Path)
    requires packages != []
    requires Shows(limit, fs, mid, prefix, profile, packages[..1], q) && Shows(limit, mid, fs', prefix, profile, packages[1..], q)
    requires LastOffer(limit, mid, prefix, packages[1..], q) == LastOffer(limit, fs, prefix, packages[1..], q)
    requires NeedsDir(limit, mid, prefix, packages[1..], q) == NeedsDir(limit, fs, prefix, packages[1..], q)
    requires DirStaysAt(mid, fs', ProfilePath(prefix, profile) + q)
    ensures Shows(limit, fs, fs', prefix, profile, packages, q)
  {
    assert packages[..1][1..] == [] && packages[..1][0] == packages[0];
    assert LastOffer(limit, fs, prefix, packages[..1][1..], q) == None;
    assert !NeedsDir(limit, fs, prefix, packages[..1][1..], q);
  }

  lemma {:induction false} LinkIntoShows(limit: nat, fs: FS, prefix: Path, profile: string, packages: seq<string>, q: Path)
    requires CanLink(limit, fs, prefix, profile, packages)
    requires LinkInto(limit, fs, prefix, profile, packages).ok
    ensures Shows(limit, fs, LinkInto(limit, fs, prefix, profile, packages).fs, prefix, profile, packages, q)
    ensures DirStaysAt(fs, LinkInto(limit, fs, prefix, profile, packages).fs, ProfilePath(prefix, profile) + q)
    decreases |packages|
  {
    if packages != [] {
      var mid := LinkShows(limit, fs, prefix, profile, packages, q);
      LinkIntoShows(limit, mid, prefix, profile, packages[1..], q);
      SameAnswers(limit, fs, mid, prefix, packages[1..], q);
      ShowsThen(limit, fs, mid, LinkInto(limit, fs, prefix, profile, packages).fs, prefix, profile, packages, q);
    }
  }

  // ----- one profile does not touch another -----

  lemma LinkLocal(limit: nat, fs: FS, prefix: Path, profile: string, name: string, x: string, q: Path)
    requires Ready(fs, prefix) && ProfilesReal(fs, prefix) && IsName(profile) && ValidName(name) && x != profile
    requires Rootable(fs, ProfilePath(prefix, profile)) && LinkPkgInto(limit, fs, prefix, name, ProfilePath(prefix, profile)).ok
    ensures SameAt(fs, LinkPkgInto(limit, fs, prefix, name, ProfilePath(prefix, profile)).fs, ProfilePath(prefix, x) + q)
  {
    var root, p := ProfilePath(prefix, profile), ProfilePath(prefix, x) + q;
    ProfileLink(limit, fs, prefix, name, profile);
    assert p[|prefix| + 1] == x && root[|prefix| + 1] == profile;
    DestUnderRoot(root, Files(limit, fs, prefix, name).value, p);
  }

  lemma {:induction false} LinkIntoLocal(limit: nat, fs: FS, prefix: Path, profile: string, packages: seq<string>, x: string, q: Path)
    requires Ready(fs, prefix) && ProfilesReal(fs, prefix) && IsName(profile) && x != profile
    requires forall i :: 0 <= i < |packages| ==> ValidName(packages[i])
    requires LinkInto(limit, fs, prefix, profile, packages).ok
    ensures SameAt(fs, LinkInto(limit, fs, prefix, profile, packages).fs, ProfilePath(prefix, x) + q)
    decreases |packages|
  {
    if packages != [] {
      ProfileRootable(fs, prefix, profile);
      ProfileLink(limit, fs, prefix, packages[0], profile);
      LinkLocal(limit, fs, prefix, profile, packages[0], x, q);
      LinkIntoLocal(limit, LinkPkgInto(limit, fs, prefix, packages[0], ProfilePath(prefix, profile)).fs, prefix, profile,
                    packages[1..], x, q);
    }
  }

  // ----- all the profiles -----

  ghost predicate AllInstalled(fs: FS, prefix: Path, profiles: map<string, seq<string>>) {
    forall x, i :: x in profiles && 0 <= i < |profiles[x]| ==> Installed(fs, prefix, profiles[x][i])
  }

  /** A sound prefix whose profiles are real and whose profiles' packages are installed. */
  ghost predicate CanRebuild(limit: nat, fs: FS, prefix: Path, profiles: map<string, seq<string>>, ps: seq<string>) {
    Inv(limit, fs, prefix) && ProfilesReal(fs, prefix) && ProfilesNamed(profiles, ps) && AllInstalled(fs, prefix, profiles)
  }

  lemma FirstProfile(limit: nat, fs: FS, prefix: Path, profiles: map<string, seq<string>>, ps: seq<string>) returns (fs': FS)
    requires CanRebuild(limit, fs, prefix, profiles, ps) && ps != [] && LinkProfiles(limit, fs, prefix, profiles, ps).ok
    ensures CanRebuild(limit, fs', prefix, profiles, ps[1..])
    ensures LinkInto(limit, fs, prefix, ps[0], profiles[ps[0]]) == Step(fs', true)
    ensures LinkProfiles(limit, fs', prefix, profiles, ps[1..]) == LinkProfiles(limit, fs, prefix, profiles, ps)
    ensures forall x, i :: x in profiles && 0 <= i < |profiles[x]| ==>
      Files(limit, fs', prefix, profiles[x][i]) == Files(limit, fs, prefix, profiles[x][i])
  {
    LinkIntoReady(limit, fs, prefix, ps[0], profiles[ps[0]]);
    fs' := LinkInto(limit, fs, prefix, ps[0], profiles[ps[0]]).fs;
    ProfileOnlyKeepsInv(limit, fs, fs', prefix);
  }

  /** Every profile shows its packages; a profile not in the list is as it was. */
  ghost predicate ShowsAll(limit: nat, fs: FS, fs': FS, prefix: Path, profiles: map<string, seq<string>>, ps: seq<string>,
                           x: string, q: Path)
  {
    if x in ps && x in profiles then Shows(limit, fs, fs', prefix, x, profiles[x], q)
    else SameAt(fs, fs', ProfilePath(prefix, x) + q)
  }

  lemma ShowsAfter(limit: nat, fs: FS, mid: FS, fs': FS, prefix: Path, profiles: map<string, seq<string>>, ps: seq<string>,
                   x: string, q: Path)
    requires ps != [] && Order.Distinct(ps) && (forall p :: p in ps ==> p in profiles)
    requires forall i :: x in profiles && 0 <= i < |profiles[x]| ==>
      Files(limit, mid, prefix, profiles[x][i]) == Files(limit, fs, prefix, profiles[x][i])
    requires if x == ps[0] then Shows(limit, fs, mid, prefix, x, profiles[x], q) else SameAt(fs, mid, ProfilePath(prefix, x) + q)
    requires ShowsAll(limit, mid, fs', prefix, profiles, ps[1..], x, q)
    ensures ShowsAll(limit, fs, fs', prefix, profiles, ps, x, q)
  {
    assert x in ps <==> x == ps[0] || x in ps[1..];
    if x in ps { SameAnswers(limit, fs, mid, prefix, profiles[x], q); }
  }

  lemma {:induction false} LinkProfilesShows(limit: nat, fs: FS, prefix: Path, profiles: map<string, seq<string>>,
                                             ps: seq<string>, x: string, q: Path)
    requires CanRebuild(limit, fs, prefix, profiles, ps) && Order.Distinct(ps)
    requires LinkProfiles(limit, fs, prefix, profiles, ps).ok
    ensures ShowsAll(limit, fs, LinkProfiles(limit, fs, prefix, profiles, ps).fs, prefix, profiles, ps, x, q)
    decreases |ps|
  {
    if ps != [] {
      var mid := FirstProfile(limit, fs, prefix, profiles, ps);
      if x == ps[0] {
        LinkIntoShows(limit, fs, prefix, ps[0], profiles[ps[0]], q);
      } else {
        LinkIntoLocal(limit, fs, prefix, ps[0], profiles[ps[0]], x, q);
      }
      LinkProfilesShows(limit, mid, prefix, profiles, ps[1..], x, q);
      assert forall p :: p in ps ==> p in profiles;
      ShowsAfter(limit, fs, mid, LinkProfiles(limit, fs, prefix, profiles, ps).fs, prefix, profiles, ps, x, q);
    }
  }

  // ----- the rebuilt tree -----

  /** What lies at q in a profile built from nothing: a directory if some package needs
      one, otherwise the link of the last package that offers q, and otherwise nothing. */
  ghost predicate Exposes(limit: nat, fs: FS, prefix: Path, profile: string, packages: seq<string>, q: Path) {
    var p := ProfilePath(prefix, profile) + q;
    if NeedsDir(limit, fs, prefix, packages, q) then RealDir(fs, p)
    else match LastOffer(limit, fs, prefix, packages, q)
      case Some(n) => p in fs && fs[p] == LinkTo(ProfilePath(prefix, profile), StorePath(prefix, n), q)
      case None => p !in fs
  }

  lemma ExposesFromNothing(limit: nat, dropped: FS, fs': FS, prefix: Path, profile: string, packages: seq<string>, q: Path)
    requires Shows(limit, dropped, fs', prefix, profile, packages, q) && ProfilePath(prefix, profile) + q !in dropped
    requires forall i :: 0 <= i < |packages| ==> Files(limit, fs', prefix, packages[i]) == Files(limit, dropped, prefix, packages[i])
    ensures Exposes(limit, fs', prefix, profile, packages, q)
  {
    SameAnswers(limit, dropped, fs', prefix, packages, q);
  }

  /** The rebuild starts from a prefix without profile trees. */
  lemma RebuildStarts(limit: nat, fs: FS, prefix: Path, config: Config) returns (dropped: FS)
    requires Inv(limit, fs, prefix) && ValidConfig(config) && AllInstalled(fs, prefix, config.profiles)
    ensures CanRebuild(limit, dropped, prefix, config.profiles, ProfileNames(config))
    ensures LinkProfiles(limit, dropped, prefix, config.profiles, ProfileNames(config)) == RebuildProfiles(limit, fs, prefix, config)
    ensures forall p :: InProfile(prefix, p) ==> p !in dropped
    ensures StoresSame(limit, fs, dropped, prefix)
  {
    dropped := DropProfiles(fs, prefix);
    DropProfilesReady(fs, prefix);
    ConfigProfilesNamed(config);
    ProfileOnlyKeepsInv(limit, fs, dropped, prefix);
  }

  lemma RebuiltExposes(limit: nat, fs: FS, prefix: Path, config: Config, x: string, q: Path)
    requires Inv(limit, fs, prefix) && ValidConfig(config) && AllInstalled(fs, prefix, config.profiles)
    requires RebuildProfiles(limit, fs, prefix, config).ok
    ensures var fs' := RebuildProfiles(limit, fs, prefix, config).fs;
      if x in config.profiles then Exposes(limit, fs', prefix, x, config.profiles[x], q)
      else ProfilePath(prefix, x) + q !in fs'
  {
    var fs' := RebuildProfiles(limit, fs, prefix, config).fs;
    var dropped := RebuildStarts(limit, fs, prefix, config);
    RebuildKeeps(limit, fs, prefix, config);
    LinkProfilesShows(limit, dropped, prefix, config.profiles, ProfileNames(config), x, q);
    assert InProfile(prefix, ProfilePath(prefix, x) + q);
    if x in config.profiles {
      ExposesFromNothing(limit, dropped, fs', prefix, x, config.profiles[x], q);
    }
  }

  /** After a successful sync each profile of the manifest shows, path by path, the last
      of its packages that offers the path, and nothing else is in the profile trees. */
  lemma SyncExposes(limit: nat, fs: FS, prefix: Path, config: Config, arch: string, archSet: bool, force: bool, prune: bool,
                    reg: Install.Registry, suffix: string, x: string, q: Path)
    requires Inv(limit, fs, prefix) && TameRegistry(prefix, reg, suffix)
    requires Sync(limit, fs, prefix, config, arch, archSet, force, prune, reg, suffix).ok
    ensures var fs' := Sync(limit, fs, prefix, config, arch, archSet, force, prune, reg, suffix).fs;
      if x in config.profiles then Exposes(limit, fs', prefix, x, config.profiles[x], q)
      else ProfilePath(prefix, x) + q !in fs'
  {
    var fs' := Sync(limit, fs, prefix, config, arch, archSet, force, prune, reg, suffix).fs;
    Fixpoint.SyncSettles(limit, fs, prefix, config, arch, archSet, force, prune, reg, suffix);
    var ts := ResolveTargets(PlanOf(config), SyncArch(config, arch, archSet)).value;
    forall y, i | y in config.profiles && 0 <= i < |config.profiles[y]| ensures Installed(fs', prefix, config.profiles[y][i]) {
      ProfilePackageInstalled(limit, fs', prefix, config, SyncArch(config, arch, archSet), reg, y, i);
    }
    RebuiltExposes(limit, fs', prefix, config, x, q);
  }

  lemma ProfilePackageInstalled(limit: nat, fs: FS, prefix: Path, config: Config, arch: string, reg: Install.Registry, x: string, i: nat)
    requires ResolveTargets(PlanOf(config), arch).Ok?
    requires Fixpoint.Synced(limit, fs, prefix, config, ResolveTargets(PlanOf(config), arch).value, reg)
    requires x in config.profiles && i < |config.profiles[x]|
    ensures Installed(fs, prefix, config.profiles[x][i])
  {
    var n := config.profiles[x][i];
    ConcatHas(config.profiles, ProfileNames(config), n);
    Fixpoint.PlanTargets(config, arch);
    var ts := ResolveTargets(PlanOf(config), arch).value;
    assert n in PlanNames(config);
    var k :| 0 <= k < |ts| && ts[k].name == n;
    assert PlainMeta(fs, prefix, ts[k].name) == Some(Converge.TargetMeta(ts[k], reg));
  }
}
