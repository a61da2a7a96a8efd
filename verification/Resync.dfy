/** `sync` reaches a fixed point: what happens to a settled plan when the profile
    trees are rebuilt and the packages it does not name are pruned. */
module Resync {
  import opened Options
  import opened Lexical
  import opened FileTree
  import Collect
  import opened Aggregate
  import opened Prefix
  import opened Install
  import opened Lifecycle
  import opened Commands
  import opened Manifest
  import opened ManifestPlan
  import opened Settle
  import Converge

  // ----- a plan stays settled while other packages lose their links -----

  /** The targets' packages are recorded and offer the same in both. */
  ghost predicate SamePackages(limit: nat, fs: FS, fs': FS, prefix: Path, ts: seq<Target>) {
    forall i :: 0 <= i < |ts| ==>
      && PlainMeta(fs', prefix, ts[i].name) == PlainMeta(fs, prefix, ts[i].name)
      && Files(limit, fs', prefix, ts[i].name) == Files(limit, fs, prefix, ts[i].name)
  }

  lemma {:induction false} SameOwner(limit: nat, fs: FS, fs': FS, prefix: Path, ts: seq<Target>, k: nat, q: Path)
    requires SamePackages(limit, fs, fs', prefix, ts) && k <= |ts|
    ensures Owner(limit, fs', prefix, ts, k, q) == Owner(limit, fs, prefix, ts, k, q)
  {
    if k > 0 { SameOwner(limit, fs, fs', prefix, ts, k - 1, q); }
  }

  lemma SameClashes(limit: nat, fs: FS, fs': FS, prefix: Path, ts: seq<Target>)
    requires SamePackages(limit, fs, fs', prefix, ts)
    ensures NoClash(limit, fs', prefix, ts) <==> NoClash(limit, fs, prefix, ts)
  {
    forall i, q | 0 <= i < |ts| ensures Offers(limit, fs', prefix, ts[i], q) <==> Offers(limit, fs, prefix, ts[i], q) {}
  }

  ghost predicate NotNamed(ts: seq<Target>, n: string) {
    forall i :: 0 <= i < |ts| ==> ts[i].name != n
  }

  lemma DirsFrame(limit: nat, fs: FS, fs': FS, prefix: Path, ts: seq<Target>, n: string, i: nat)
    requires Ready(fs, prefix) && Ready(fs', prefix) && NamedTargets(ts) && i < |ts|
    requires SamePackages(limit, fs, fs', prefix, ts) && OnlyStaleGone(fs, fs', prefix, n)
    requires DirsReal(limit, fs, prefix, ts[i])
    ensures DirsReal(limit, fs', prefix, ts[i])
  {
    if ts[i].linked {
      forall p | IsAbove(prefix, Files(limit, fs, prefix, ts[i].name).value, p) ensures RealDir(fs', p) {
        AboveInRoot(limit, fs, prefix, ts[i].name, p);
        if p <= prefix { if p != prefix { AncestorOf(fs', p, prefix); } }
      }
    }
  }

  lemma LinkFrame(limit: nat, fs: FS, fs': FS, prefix: Path, ts: seq<Target>, n: string, q: Path)
    requires Ready(fs, prefix) && NamedTargets(ts) && NotNamed(ts, n) && OnlyStaleGone(fs, fs', prefix, n)
    requires LinksSettled(limit, fs, fs, prefix, ts, |ts|) && Owner(limit, fs, prefix, ts, |ts|, q).Some?
    ensures SameAt(fs, fs', prefix + q)
  {
    var i := OwnerOffers(limit, fs, prefix, ts, |ts|, q);
    OfferedInRoot(limit, fs, prefix, ts[i], q);
    ValidIsName(ts[i].name);
    assert Names(prefix);
    NotItsLink(fs, prefix, ts[i].name, n, q);
  }

  /** Losing links to a package it does not name leaves the plan settled. */
  lemma SettledFrame(limit: nat, fs: FS, fs': FS, prefix: Path, ts: seq<Target>, reg: Registry, n: string)
    requires Converge.Settled(limit, fs, prefix, ts, reg) && Inv(limit, fs', prefix) && NotNamed(ts, n)
    requires SamePackages(limit, fs, fs', prefix, ts) && OnlyStaleGone(fs, fs', prefix, n)
    ensures Converge.Settled(limit, fs', prefix, ts, reg)
    ensures NoClash(limit, fs', prefix, ts) <==> NoClash(limit, fs, prefix, ts)
  {
    SameClashes(limit, fs, fs', prefix, ts);
    forall i | 0 <= i < |ts|
      ensures PlainMeta(fs', prefix, ts[i].name) == Some(Converge.TargetMeta(ts[i], reg)) && DirsReal(limit, fs', prefix, ts[i])
    {
      assert PlainMeta(fs, prefix, ts[i].name) == Some(Converge.TargetMeta(ts[i], reg)) && DirsReal(limit, fs, prefix, ts[i]);
      DirsFrame(limit, fs, fs', prefix, ts, n, i);
    }
    if NoClash(limit, fs', prefix, ts) {
      forall q | Owner(limit, fs', prefix, ts, |ts|, q).Some?
        ensures prefix + q in fs'
        ensures fs'[prefix + q] == LinkTo(prefix, StorePath(prefix, Owner(limit, fs', prefix, ts, |ts|, q).value), q)
      {
        SameOwner(limit, fs, fs', prefix, ts, |ts|, q);
        LinkFrame(limit, fs, fs', prefix, ts, n, q);
      }
    }
  }

  // ----- two file systems with the same profile trees -----

  ghost predicate SameProfiles(x: FS, y: FS, prefix: Path) {
    forall p :: InProfile(prefix, p) ==> SameAt(x, y, p)
  }

  ghost predicate Linking(fs: FS, prefix: Path, profile: string) {
    Ready(fs, prefix) && ProfilesReal(fs, prefix) && Rootable(fs, ProfilePath(prefix, profile))
  }

  lemma ProfileLinked(limit: nat, fs: FS, prefix: Path, n: string, profile: string)
    requires IsName(profile) && ValidName(n) && Linking(fs, prefix, profile)
    ensures var root := ProfilePath(prefix, profile);
      var s := LinkPkgInto(limit, fs, prefix, n, root);
      var r := Files(limit, fs, prefix, n);
      && (s.ok <==> r.Ok? && forall i :: 0 <= i < |r.value| ==> !RealDir(fs, root + r.value[i]))
      && (s.ok ==> Linked(fs, s.fs, root, StorePath(prefix, n), r.value))
  {
    ProfileLink(limit, fs, prefix, n, profile);
  }

  /** Linking the same files into the same profile has the same result. */
  lemma LinkBoth(limit: nat, x: FS, y: FS, prefix: Path, profile: string, n: string)
    requires IsName(profile) && ValidName(n) && Linking(x, prefix, profile) && Linking(y, prefix, profile)
    requires SameProfiles(x, y, prefix) && Files(limit, x, prefix, n) == Files(limit, y, prefix, n)
    requires LinkPkgInto(limit, x, prefix, n, ProfilePath(prefix, profile)).ok
    ensures var root := ProfilePath(prefix, profile);
      && LinkPkgInto(limit, y, prefix, n, root).ok
      && SameProfiles(LinkPkgInto(limit, x, prefix, n, root).fs, LinkPkgInto(limit, y, prefix, n, root).fs, prefix)
  {
    var root := ProfilePath(prefix, profile);
    ProfileLinked(limit, x, prefix, n, profile);
    ProfileLinked(limit, y, prefix, n, profile);
    var files := Files(limit, x, prefix, n).value;
    assert prefix + ["profile"] <= root;
    forall i | 0 <= i < |files| ensures !RealDir(y, root + files[i]) {
      assert SameAt(x, y, root + files[i]);
    }
    SameLinks(x, y, LinkPkgInto(limit, x, prefix, n, root).fs, LinkPkgInto(limit, y, prefix, n, root).fs,
              prefix, root, StorePath(prefix, n), files);
  }

  lemma SameLinks(x: FS, y: FS, x': FS, y': FS, prefix: Path, root: Path, store: Path, files: seq<Path>)
    requires SameProfiles(x, y, prefix)
    requires Linked(x, x', root, store, files) && Linked(y, y', root, store, files)
    ensures SameProfiles(x', y', prefix)
  {
    forall p | InProfile(prefix, p) ensures SameAt(x', y', p) {
      if IsDest(root, files, p) {
        var i :| 0 <= i < |files| && p == root + files[i];
      } else if IsAbove(root, files, p) {
        assert RealDir(x', p) && RealDir(y', p);
      } else {
        assert SameAt(x, x', p) && SameAt(y, y', p) && SameAt(x, y, p);
      }
    }
  }

  /** Linking package n keeps the two file systems related. */
  ghost predicate LinksAlike(limit: nat, prefix: Path, profile: string, n: string, pair: (FS, FS) -> bool, x: FS, y: FS) {
    Linking(x, prefix, profile) && Linking(y, prefix, profile) && pair(x, y) &&
    LinkPkgInto(limit, x, prefix, n, ProfilePath(prefix, profile)).ok ==>
      var s, t := LinkPkgInto(limit, x, prefix, n, ProfilePath(prefix, profile)),
                  LinkPkgInto(limit, y, prefix, n, ProfilePath(prefix, profile));
      t.ok && pair(s.fs, t.fs)
  }

  /** One package linked on both sides. */
  lemma FirstBoth(limit: nat, x: FS, y: FS, prefix: Path, profile: string, packages: seq<string>, pair: (FS, FS) -> bool)
    returns (x': FS, y': FS)
    requires Ready(x, prefix) && ProfilesReal(x, prefix) && Ready(y, prefix) && ProfilesReal(y, prefix)
    requires IsName(profile) && (forall i :: 0 <= i < |packages| ==> ValidName(packages[i])) && pair(x, y) && packages != []
    requires LinksAlike(limit, prefix, profile, packages[0], pair, x, y)
    requires LinkInto(limit, x, prefix, profile, packages).ok
    ensures Ready(x', prefix) && ProfilesReal(x', prefix) && Ready(y', prefix) && ProfilesReal(y', prefix) && pair(x', y')
    ensures LinkInto(limit, x, prefix, profile, packages) == LinkInto(limit, x', prefix, profile, packages[1..])
    ensures LinkInto(limit, y, prefix, profile, packages) == LinkInto(limit, y', prefix, profile, packages[1..])
  {
    ProfileRootable(x, prefix, profile);
    ProfileRootable(y, prefix, profile);
    ProfileLink(limit, x, prefix, packages[0], profile);
    ProfileLink(limit, y, prefix, packages[0], profile);
    x' := LinkPkgInto(limit, x, prefix, packages[0], ProfilePath(prefix, profile)).fs;
    y' := LinkPkgInto(limit, y, prefix, packages[0], ProfilePath(prefix, profile)).fs;
  }

  lemma {:induction false} LinkIntoBoth(limit: nat, x: FS, y: FS, prefix: Path, profile: string, packages: seq<string>,
                                        pair: (FS, FS) -> bool)
    requires Ready(x, prefix) && ProfilesReal(x, prefix) && Ready(y, prefix) && ProfilesReal(y, prefix)
    requires IsName(profile) && (forall i :: 0 <= i < |packages| ==> ValidName(packages[i])) && pair(x, y)
    requires forall i, a, b :: 0 <= i < |packages| ==> LinksAlike(limit, prefix, profile, packages[i], pair, a, b)
    requires LinkInto(limit, x, prefix, profile, packages).ok
    ensures var s, t := LinkInto(limit, x, prefix, profile, packages), LinkInto(limit, y, prefix, profile, packages);
      t.ok && pair(s.fs, t.fs)
    decreases |packages|
  {
    if packages != [] {
      var x', y' := FirstBoth(limit, x, y, prefix, profile, packages, pair);
      var rest := packages[1..];
      forall i, a, b | 0 <= i < |rest| ensures LinksAlike(limit, prefix, profile, rest[i], pair, a, b) {
        assert rest[i] == packages[i + 1];
      }
      LinkIntoBoth(limit, x', y', prefix, profile, rest, pair);
    }
  }

  ghost predicate ProfilesAlike(limit: nat, prefix: Path, profile: string, packages: seq<string>, pair: (FS, FS) -> bool) {
    forall i, a, b :: 0 <= i < |packages| ==> LinksAlike(limit, prefix, profile, packages[i], pair, a, b)
  }

  lemma {:induction false} LinkProfilesBoth(limit: nat, x: FS, y: FS, prefix: Path, profiles: map<string, seq<string>>,
                                            ps: seq<string>, pair: (FS, FS) -> bool)
    requires Ready(x, prefix) && ProfilesReal(x, prefix) && Ready(y, prefix) && ProfilesReal(y, prefix)
    requires ProfilesNamed(profiles, ps) && pair(x, y)
    requires forall j :: 0 <= j < |ps| ==> ProfilesAlike(limit, prefix, ps[j], profiles[ps[j]], pair)
    requires LinkProfiles(limit, x, prefix, profiles, ps).ok
    ensures var s, t := LinkProfiles(limit, x, prefix, profiles, ps), LinkProfiles(limit, y, prefix, profiles, ps);
      t.ok && pair(s.fs, t.fs)
    decreases |ps|
  {
    if ps != [] {
      LinkIntoReady(limit, x, prefix, ps[0], profiles[ps[0]]);
      LinkIntoReady(limit, y, prefix, ps[0], profiles[ps[0]]);
      assert ProfilesAlike(limit, prefix, ps[0], profiles[ps[0]], pair);
      LinkIntoBoth(limit, x, y, prefix, ps[0], profiles[ps[0]], pair);
      var rest := ps[1..];
      assert forall j :: 0 <= j < |rest| ==> rest[j] == ps[j + 1];
      LinkProfilesBoth(limit, LinkInto(limit, x, prefix, ps[0], profiles[ps[0]]).fs,
                       LinkInto(limit, y, prefix, ps[0], profiles[ps[0]]).fs, prefix, profiles, rest, pair);
    }
  }

  // ----- rebuilding the profiles -----

  /** Each link of the profile trees names the store of one of these packages. */
  ghost predicate ProfileLinksName(fs: FS, prefix: Path, names: set<string>) {
    forall p :: InProfile(prefix, p) && p in fs && fs[p].Link? ==> LinkNames(fs, prefix, names, p)
  }

  ghost predicate LinkNames(fs: FS, prefix: Path, names: set<string>, p: Path)
    requires p in fs && fs[p].Link?
  {
    var target := LinkTarget(Parent(p), fs[p].text);
    |target| > |prefix| + 1 && target[|prefix| + 1] in names
  }

  lemma LinkKeepsNames(fs: FS, fs': FS, prefix: Path, names: set<string>, root: Path, n: string, files: seq<Path>)
    requires ProfileLinksName(fs, prefix, names) && n in names && IsName(n) && Names(prefix) && Collect.Linkable(files)
    requires Linked(fs, fs', root, StorePath(prefix, n), files)
    ensures ProfileLinksName(fs', prefix, names)
  {
    StoreIsNamed(prefix, n);
    forall p | InProfile(prefix, p) && p in fs' && fs'[p].Link? ensures LinkNames(fs', prefix, names, p) {
      assert IsAbove(root, files, p) ==> RealDir(fs', p);
      if IsDest(root, files, p) {
        var i :| 0 <= i < |files| && p == root + files[i];
        LinkedIsOwned(fs, fs', root, StorePath(prefix, n), files, i);
        assert (StorePath(prefix, n) + files[i])[|prefix| + 1] == n;
      } else {
        assert SameAt(fs, fs', p) && LinkNames(fs, prefix, names, p);
      }
    }
  }

  /** Sound prefixes with equal profile trees in which the packages are installed and offer the same. */
  ghost predicate Paired(limit: nat, prefix: Path, names: set<string>, x: FS, y: FS) {
    && Inv(limit, x, prefix) && Inv(limit, y, prefix) && SameProfiles(x, y, prefix) && ProfileLinksName(x, prefix, names)
    && forall n :: n in names ==>
      Installed(x, prefix, n) && Installed(y, prefix, n) && Files(limit, x, prefix, n) == Files(limit, y, prefix, n)
  }

  lemma PairStays(limit: nat, prefix: Path, names: set<string>, x: FS, y: FS, x': FS, y': FS)
    requires Paired(limit, prefix, names, x, y) && Ready(x', prefix) && Ready(y', prefix)
    requires ProfileOnly(x, x', prefix) && ProfileOnly(y, y', prefix)
    requires SameProfiles(x', y', prefix) && ProfileLinksName(x', prefix, names)
    ensures Paired(limit, prefix, names, x', y')
  {
    ProfileOnlyKeepsInv(limit, x, x', prefix);
    ProfileOnlyKeepsInv(limit, y, y', prefix);
  }

  lemma PairLinks(limit: nat, prefix: Path, profile: string, n: string, names: set<string>, pair: (FS, FS) -> bool, x: FS, y: FS)
    requires IsName(profile) && ValidName(n) && n in names
    requires forall a, b :: pair(a, b) <==> Paired(limit, prefix, names, a, b)
    ensures LinksAlike(limit, prefix, profile, n, pair, x, y)
  {
    var root := ProfilePath(prefix, profile);
    if Linking(x, prefix, profile) && Linking(y, prefix, profile) && pair(x, y) && LinkPkgInto(limit, x, prefix, n, root).ok {
      LinkBoth(limit, x, y, prefix, profile, n);
      PairLinked(limit, prefix, profile, n, names, x, y);
    }
  }

  lemma PairLinked(limit: nat, prefix: Path, profile: string, n: string, names: set<string>, x: FS, y: FS)
    requires IsName(profile) && ValidName(n) && n in names && Paired(limit, prefix, names, x, y)
    requires Linking(x, prefix, profile) && Linking(y, prefix, profile)
    requires LinkPkgInto(limit, x, prefix, n, ProfilePath(prefix, profile)).ok
    requires SameProfiles(LinkPkgInto(limit, x, prefix, n, ProfilePath(prefix, profile)).fs,
                          LinkPkgInto(limit, y, prefix, n, ProfilePath(prefix, profile)).fs, prefix)
    ensures Paired(limit, prefix, names, LinkPkgInto(limit, x, prefix, n, ProfilePath(prefix, profile)).fs,
                   LinkPkgInto(limit, y, prefix, n, ProfilePath(prefix, profile)).fs)
  {
    var root := ProfilePath(prefix, profile);
    var x', y' := LinkPkgInto(limit, x, prefix, n, root).fs, LinkPkgInto(limit, y, prefix, n, root).fs;
    ProfileLink(limit, x, prefix, n, profile);
    ProfileLink(limit, y, prefix, n, profile);
    ValidIsName(n);
    LinkKeepsNames(x, x', prefix, names, root, n, Files(limit, x, prefix, n).value);
    PairStays(limit, prefix, names, x, y, x', y');
  }

  /** The packages of the profiles are among those the plan names. */
  lemma ProfilePackagesNamed(config: Config, j: nat, i: nat)
    requires j < |ProfileNames(config)| && ProfileNames(config)[j] in config.profiles
    requires i < |config.profiles[ProfileNames(config)[j]]|
    ensures config.profiles[ProfileNames(config)[j]][i] in PlanNames(config)
  {
    ConcatHas(config.profiles, ProfileNames(config), config.profiles[ProfileNames(config)[j]][i]);
  }

  lemma PairedProfiles(limit: nat, prefix: Path, config: Config, pair: (FS, FS) -> bool, j: nat)
    requires ValidConfig(config) && ProfilesNamed(config.profiles, ProfileNames(config)) && j < |ProfileNames(config)|
    requires forall a, b :: pair(a, b) <==> Paired(limit, prefix, PlanNames(config), a, b)
    ensures ProfilesAlike(limit, prefix, ProfileNames(config)[j], config.profiles[ProfileNames(config)[j]], pair)
  {
    var profile := ProfileNames(config)[j];
    var packages := config.profiles[profile];
    forall i, a, b | 0 <= i < |packages| ensures LinksAlike(limit, prefix, profile, packages[i], pair, a, b) {
      ProfilePackagesNamed(config, j, i);
      PairLinks(limit, prefix, profile, packages[i], PlanNames(config), pair, a, b);
    }
  }

  lemma LinkProfilesPaired(limit: nat, prefix: Path, config: Config, x: FS, y: FS)
    requires ValidConfig(config) && ProfilesNamed(config.profiles, ProfileNames(config))
    requires ProfilesReal(x, prefix) && ProfilesReal(y, prefix) && Paired(limit, prefix, PlanNames(config), x, y)
    requires LinkProfiles(limit, x, prefix, config.profiles, ProfileNames(config)).ok
    ensures var s, t := LinkProfiles(limit, x, prefix, config.profiles, ProfileNames(config)),
                        LinkProfiles(limit, y, prefix, config.profiles, ProfileNames(config));
      t.ok && Paired(limit, prefix, PlanNames(config), s.fs, t.fs)
  {
    var pair := (a: FS, b: FS) => Paired(limit, prefix, PlanNames(config), a, b);
    var ps := ProfileNames(config);
    forall j | 0 <= j < |ps| ensures ProfilesAlike(limit, prefix, ps[j], config.profiles[ps[j]], pair) {
      PairedProfiles(limit, prefix, config, pair, j);
    }
    assert pair(x, y);
    LinkProfilesBoth(limit, x, y, prefix, config.profiles, ps, pair);
  }

  /** Two sound prefixes in which the same packages offer the same. */
  ghost predicate SameOffers(limit: nat, prefix: Path, names: set<string>, x: FS, y: FS) {
    && Inv(limit, x, prefix) && Inv(limit, y, prefix)
    && forall n :: n in names ==>
      Installed(x, prefix, n) && Installed(y, prefix, n) && Files(limit, x, prefix, n) == Files(limit, y, prefix, n)
  }

  lemma DroppedPair(limit: nat, prefix: Path, names: set<string>, x: FS, y: FS)
    requires SameOffers(limit, prefix, names, x, y)
    ensures Paired(limit, prefix, names, DropProfiles(x, prefix), DropProfiles(y, prefix))
  {
    DropProfilesReady(x, prefix);
    DropProfilesReady(y, prefix);
    ProfileOnlyKeepsInv(limit, x, DropProfiles(x, prefix), prefix);
    ProfileOnlyKeepsInv(limit, y, DropProfiles(y, prefix), prefix);
  }

  /** Rebuilding the profiles has the same result wherever the packages offer the same. */
  lemma RebuildBoth(limit: nat, prefix: Path, config: Config, x: FS, y: FS)
    requires ValidConfig(config) && SameOffers(limit, prefix, PlanNames(config), x, y)
    requires RebuildProfiles(limit, x, prefix, config).ok
    ensures RebuildProfiles(limit, y, prefix, config).ok
    ensures SameProfiles(RebuildProfiles(limit, x, prefix, config).fs, RebuildProfiles(limit, y, prefix, config).fs, prefix)
    ensures ProfileLinksName(RebuildProfiles(limit, x, prefix, config).fs, prefix, PlanNames(config))
  {
    DroppedPair(limit, prefix, PlanNames(config), x, y);
    DropProfilesReady(x, prefix);
    DropProfilesReady(y, prefix);
    ConfigProfilesNamed(config);
    LinkProfilesPaired(limit, prefix, config, DropProfiles(x, prefix), DropProfiles(y, prefix));
  }

  /** Rebuilding profiles that are already built changes nothing. */
  lemma RebuildAgain(limit: nat, prefix: Path, config: Config, x: FS, y: FS)
    requires ValidConfig(config) && SameOffers(limit, prefix, PlanNames(config), x, y)
    requires RebuildProfiles(limit, x, prefix, config).ok
    requires SameProfiles(RebuildProfiles(limit, x, prefix, config).fs, y, prefix)
    ensures RebuildProfiles(limit, y, prefix, config) == Step(y, true)
  {
    RebuildBoth(limit, prefix, config, x, y);
    RebuildKeeps(limit, y, prefix, config);
    var x', y' := RebuildProfiles(limit, x, prefix, config).fs, RebuildProfiles(limit, y, prefix, config).fs;
    forall p ensures SameAt(y, y', p) {
      if InProfile(prefix, p) { assert SameAt(x', y, p) && SameAt(x', y', p); }
    }
    SameEverywhere(y, y');
  }

  lemma SameEverywhere(x: FS, y: FS)
    requires forall p :: SameAt(x, y, p)
    ensures x == y
  {
    assert forall p :: p in x ==> SameAt(x, y, p);
    assert forall p :: p in y ==> SameAt(x, y, p);
  }

  // ----- removing a package that no profile names -----

  lemma NotPointed(fs: FS, prefix: Path, n: string, profile: string, names: set<string>, rel: Path)
    requires n !in names && ProfileLinksName(fs, prefix, names)
    ensures !PointsTo(fs, ProfilePath(prefix, profile) + rel, StorePath(prefix, n) + rel)
  {
    var p := ProfilePath(prefix, profile) + rel;
    assert prefix + ["profile"] <= p && (StorePath(prefix, n) + rel)[|prefix| + 1] == n;
    if p in fs && fs[p].Link? { assert LinkNames(fs, prefix, names, p); }
  }

  lemma UnlinkIdle(limit: nat, fs: FS, prefix: Path, n: string, profile: string, names: set<string>)
    requires Ready(fs, prefix) && IsName(n) && n !in names && ProfileLinksName(fs, prefix, names)
    requires UnlinkPkgFrom(limit, fs, prefix, n, ProfilePath(prefix, profile)).ok
    ensures UnlinkPkgFrom(limit, fs, prefix, n, ProfilePath(prefix, profile)).fs == fs
  {
    var root := ProfilePath(prefix, profile);
    var store := StorePath(prefix, n);
    UnlinkFromProfile(limit, fs, prefix, n, profile);
    var files := Files(limit, fs, prefix, n).value;
    forall i | 0 <= i < |files| ensures !PointsTo(fs, root + files[i], store + files[i]) {
      NotPointed(fs, prefix, n, profile, names, files[i]);
    }
    SameEverywhere(fs, UnlinkPkgFrom(limit, fs, prefix, n, root).fs);
  }

  lemma {:induction false} UnlinkProfilesIdle(limit: nat, fs: FS, prefix: Path, n: string, profiles: seq<string>, names: set<string>)
    requires Ready(fs, prefix) && IsName(n) && n !in names && ProfileLinksName(fs, prefix, names)
    requires UnlinkProfiles(limit, fs, prefix, n, profiles).ok
    ensures UnlinkProfiles(limit, fs, prefix, n, profiles).fs == fs
    decreases |profiles|
  {
    if profiles != [] {
      UnlinkIdle(limit, fs, prefix, n, profiles[0], names);
      UnlinkProfilesIdle(limit, fs, prefix, n, profiles[1..], names);
    }
  }

  lemma RootOnlyKeepsNames(fs: FS, fs': FS, prefix: Path, names: set<string>)
    requires RootOnly(fs, fs', prefix) && ProfileLinksName(fs, prefix, names)
    ensures ProfileLinksName(fs', prefix, names) && SameProfiles(fs, fs', prefix)
  {
    forall p | InProfile(prefix, p) ensures SameAt(fs, fs', p) {
      assert p[|prefix|] == (prefix + ["profile"])[|prefix|] == "profile";
    }
    forall p | InProfile(prefix, p) && p in fs' && fs'[p].Link? ensures LinkNames(fs', prefix, names, p) {
      assert SameAt(fs, fs', p) && LinkNames(fs, prefix, names, p);
    }
  }

  /** Removing a package outside the plan does not touch the profiles, and creates nothing. */
  lemma RemoveKeepsProfiles(limit: nat, fs: FS, prefix: Path, n: string, names: set<string>)
    requires Inv(limit, fs, prefix) && n !in names && ProfileLinksName(fs, prefix, names) && Remove(limit, fs, prefix, n).ok
    ensures var fs' := Remove(limit, fs, prefix, n).fs;
      && SameProfiles(fs, fs', prefix) && ProfileLinksName(fs', prefix, names)
      && forall p :: p in fs' ==> p in fs
  {
    assert Names(prefix);
    StageIsNamed(prefix, n, "");
    var metadata := ReadMeta(limit, fs, prefix, n);
    UnlinkRoot(limit, fs, prefix, n);
    var s1 := if metadata.value.linked then UnlinkPkgFrom(limit, fs, prefix, n, prefix) else Step(fs, true);
    RootOnlyKeepsNames(fs, s1.fs, prefix, names);
    UnlinkShrinks(limit, fs, prefix, n);
    var parent := prefix + ["profile"];
    UnlinkProfilesIdle(limit, s1.fs, prefix, n, DirNames(s1.fs, parent, ReadDir(s1.fs, parent)), names);
    StoreDropped(s1.fs, prefix, n, names);
  }

  lemma UnlinkShrinks(limit: nat, fs: FS, prefix: Path, n: string)
    requires Ready(fs, prefix) && IsName(n)
    ensures UnlinkPkgFrom(limit, fs, prefix, n, prefix).ok ==>
      forall p :: p in UnlinkPkgFrom(limit, fs, prefix, n, prefix).fs ==> p in fs
  {
    UnlinkRoot(limit, fs, prefix, n);
    var s := UnlinkPkgFrom(limit, fs, prefix, n, prefix);
    if s.ok {
      forall p | p in s.fs ensures p in fs {
        if !Owned(fs, prefix, StorePath(prefix, n), Files(limit, fs, prefix, n).value, p) { assert SameAt(fs, s.fs, p); }
      }
    }
  }

  lemma StoreDropped(fs: FS, prefix: Path, n: string, names: set<string>)
    requires ProfileLinksName(fs, prefix, names)
    ensures var fs' := RemoveTree(fs, StorePath(prefix, n)); SameProfiles(fs, fs', prefix) && ProfileLinksName(fs', prefix, names)
  {
    var fs' := RemoveTree(fs, StorePath(prefix, n));
    assert StorePath(prefix, n)[|prefix|] == "store";
    forall p | InProfile(prefix, p) ensures SameAt(fs, fs', p) {
      assert p[|prefix|] == (prefix + ["profile"])[|prefix|] == "profile";
    }
    forall p | InProfile(prefix, p) && p in fs' && fs'[p].Link? ensures LinkNames(fs', prefix, names, p) {
      assert SameAt(fs, fs', p) && LinkNames(fs, prefix, names, p);
    }
  }

  // ----- pruning -----

  /** Removing a package outside `wanted` keeps the property. */
  ghost predicate RemovalKeeps(limit: nat, prefix: Path, wanted: set<string>, good: FS -> bool, n: string, x: FS) {
    good(x) && n !in wanted && Remove(limit, x, prefix, n).ok ==> good(Remove(limit, x, prefix, n).fs)
  }

  lemma {:induction false} PruneInduction(limit: nat, fs: FS, prefix: Path, installed: seq<string>, wanted: set<string>,
                                          good: FS -> bool)
    requires good(fs) && PruneAll(limit, fs, prefix, installed, wanted).ok
    requires forall n, x :: RemovalKeeps(limit, prefix, wanted, good, n, x)
    ensures good(PruneAll(limit, fs, prefix, installed, wanted).fs)
    decreases |installed|
  {
    if installed != [] {
      assert RemovalKeeps(limit, prefix, wanted, good, installed[0], fs);
      var fs' := if installed[0] in wanted then fs else Remove(limit, fs, prefix, installed[0]).fs;
      PruneInduction(limit, fs', prefix, installed[1..], wanted, good);
    }
  }

  /** After pruning no listed package outside `wanted` has metadata, and nothing was created. */
  lemma {:induction false} PruneClears(limit: nat, fs: FS, prefix: Path, installed: seq<string>, wanted: set<string>, names: set<string>)
    requires Inv(limit, fs, prefix) && ProfileLinksName(fs, prefix, names) && names <= wanted
    requires PruneAll(limit, fs, prefix, installed, wanted).ok
    ensures var fs' := PruneAll(limit, fs, prefix, installed, wanted).fs;
      forall n :: MetaPath(prefix, n) in fs' ==> MetaPath(prefix, n) in fs && (n in installed ==> n in wanted)
    decreases |installed|
  {
    if installed != [] {
      var n := installed[0];
      if n in wanted {
        PruneClears(limit, fs, prefix, installed[1..], wanted, names);
      } else {
        RemoveKeeps(limit, fs, prefix, n);
        RemoveKeepsProfiles(limit, fs, prefix, n, names);
        assert StorePath(prefix, n) <= MetaPath(prefix, n);
        PruneClears(limit, Remove(limit, fs, prefix, n).fs, prefix, installed[1..], wanted, names);
      }
      assert forall m :: m in installed <==> m == n || m in installed[1..];
    }
  }

  /** What pruning keeps of a settled plan and its profile trees. */
  ghost predicate Kept(limit: nat, fs: FS, prefix: Path, ts: seq<Target>, reg: Registry, names: set<string>, x: FS) {
    && Converge.Settled(limit, x, prefix, ts, reg) && SamePackages(limit, fs, x, prefix, ts)
    && SameProfiles(fs, x, prefix) && ProfileLinksName(x, prefix, names)
  }

  lemma RemovalKeepsPlan(limit: nat, fs: FS, prefix: Path, ts: seq<Target>, reg: Registry, names: set<string>, n: string, x: FS)
    requires Kept(limit, fs, prefix, ts, reg, names, x) && n !in names && (forall i :: 0 <= i < |ts| ==> ts[i].name in names)
    requires Remove(limit, x, prefix, n).ok
    ensures Kept(limit, fs, prefix, ts, reg, names, Remove(limit, x, prefix, n).fs)
  {
    var x' := Remove(limit, x, prefix, n).fs;
    RemoveKeeps(limit, x, prefix, n);
    RemoveKeepsProfiles(limit, x, prefix, n, names);
    forall i | 0 <= i < |ts|
      ensures PlainMeta(x', prefix, ts[i].name) == PlainMeta(x, prefix, ts[i].name)
      ensures Files(limit, x', prefix, ts[i].name) == Files(limit, x, prefix, ts[i].name)
    {
      assert PlainMeta(x, prefix, ts[i].name) == Some(Converge.TargetMeta(ts[i], reg));
    }
    SettledFrame(limit, x, x', prefix, ts, reg, n);
    forall p | InProfile(prefix, p) ensures SameAt(fs, x', p) { assert SameAt(fs, x, p) && SameAt(x, x', p); }
  }

  lemma RemovalKeepsKept(limit: nat, fs: FS, prefix: Path, ts: seq<Target>, reg: Registry, names: set<string>,
                         good: FS -> bool, n: string, x: FS)
    requires forall i :: 0 <= i < |ts| ==> ts[i].name in names
    requires forall y :: good(y) <==> Kept(limit, fs, prefix, ts, reg, names, y)
    ensures RemovalKeeps(limit, prefix, names, good, n, x)
  {
    if good(x) && n !in names && Remove(limit, x, prefix, n).ok {
      RemovalKeepsPlan(limit, fs, prefix, ts, reg, names, n, x);
    }
  }

  lemma PruneKeepsPlan(limit: nat, fs: FS, prefix: Path, ts: seq<Target>, reg: Registry, names: set<string>, installed: seq<string>)
    requires Kept(limit, fs, prefix, ts, reg, names, fs) && forall i :: 0 <= i < |ts| ==> ts[i].name in names
    requires PruneAll(limit, fs, prefix, installed, names).ok
    ensures Kept(limit, fs, prefix, ts, reg, names, PruneAll(limit, fs, prefix, installed, names).fs)
  {
    var good := (x: FS) => Kept(limit, fs, prefix, ts, reg, names, x);
    forall n, x ensures RemovalKeeps(limit, prefix, names, good, n, x) {
      RemovalKeepsKept(limit, fs, prefix, ts, reg, names, good, n, x);
    }
    assert good(fs);
    PruneInduction(limit, fs, prefix, installed, names, good);
  }

  /** Pruning where everything installed is wanted does nothing. */
  lemma {:induction false} PruneNothing(limit: nat, fs: FS, prefix: Path, installed: seq<string>, wanted: set<string>)
    requires forall n :: n in installed ==> n in wanted
    ensures PruneAll(limit, fs, prefix, installed, wanted) == Step(fs, true)
  {
    if installed != [] { PruneNothing(limit, fs, prefix, installed[1..], wanted); }
  }
}
