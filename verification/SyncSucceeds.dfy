/** Exactly when a `sync` succeeds (cmd/binman/manifest.go): its plan, its profiles, and,
    when it prunes, the removal of every package that the manifest does not name. */
module SyncSucceeds {
  import opened Options
  import opened Lexical
  import opened FileTree
  import Order
  import Extract
  import opened Prefix
  import opened Install
  import opened Lifecycle
  import Plan
  import opened Commands
  import opened ManifestPlan
  import opened Manifest
  import Outcomes
  import Converge
  import opened Resync
  import Fixpoint
  import opened Profiles
  import Rebuilding
  import opened Sturdy
  import opened Removal

  // ----- what a rebuilt profile tree lets through -----

  /** A profile of the manifest shows a link at q. */
  ghost predicate ShowsLink(limit: nat, fs: FS, prefix: Path, config: Config, x: string, q: Path) {
    x in config.profiles && LastOffer(limit, fs, prefix, config.profiles[x], q).Some?
    && !NeedsDir(limit, fs, prefix, config.profiles[x], q)
  }

  /** The profile x shows no link above the path f. */
  ghost predicate LetsThrough(limit: nat, fs: FS, prefix: Path, config: Config, x: string, f: Path) {
    forall q :: q < f ==> !ShowsLink(limit, fs, prefix, config, x, q)
  }

  /** No profile shows a link above a path of the package. */
  ghost predicate NothingInTheWay(limit: nat, fs: FS, prefix: Path, config: Config, n: string) {
    forall x, f :: OffersFile(limit, fs, prefix, n, f) ==> LetsThrough(limit, fs, prefix, config, x, f)
  }

  /** Some package of the profile offers a file. */
  ghost predicate HasTree(limit: nat, fs: FS, prefix: Path, config: Config, x: string) {
    x in config.profiles && NeedsDir(limit, fs, prefix, config.profiles[x], [])
  }

  /** The package can be removed once the profiles are as the manifest says. */
  ghost predicate Prunable(limit: nat, fs: FS, prefix: Path, config: Config, n: string) {
    && ValidName(n) && Installed(fs, prefix, n)
    && ((exists x :: HasTree(limit, fs, prefix, config, x)) ==> Files(limit, fs, prefix, n).Ok?)
    && NothingInTheWay(limit, fs, prefix, config, n)
  }

  /** The profile trees are what the manifest exposes. */
  ghost predicate Built(limit: nat, fs: FS, prefix: Path, config: Config) {
    && WF(fs)
    && forall x, q :: if x in config.profiles then Exposes(limit, fs, prefix, x, config.profiles[x], q)
                      else ProfilePath(prefix, x) + q !in fs
  }

  lemma {:induction false} RootIsNotOffered(limit: nat, fs: FS, prefix: Path, packages: seq<string>)
    requires WF(fs)
    ensures LastOffer(limit, fs, prefix, packages, []) == None
  {
    if packages != [] {
      if OffersFile(limit, fs, prefix, packages[0], []) { Rebuilding.OfferedIsPath(limit, fs, prefix, packages[0], []); }
      RootIsNotOffered(limit, fs, prefix, packages[1..]);
    }
  }

  lemma TreeIsThere(limit: nat, fs: FS, prefix: Path, config: Config, x: string)
    requires Built(limit, fs, prefix, config)
    ensures RealDir(fs, ProfilePath(prefix, x)) <==> HasTree(limit, fs, prefix, config, x)
  {
    var root := ProfilePath(prefix, x);
    assert root + [] == root;
    if x in config.profiles {
      assert Exposes(limit, fs, prefix, x, config.profiles[x], []);
      RootIsNotOffered(limit, fs, prefix, config.profiles[x]);
    } else {
      assert root + [] !in fs;
    }
  }

  /** A shown link is a link, and whatever else the tree holds is a directory. */
  lemma LinkIsThere(limit: nat, fs: FS, prefix: Path, config: Config, x: string, q: Path)
    requires Built(limit, fs, prefix, config)
    ensures var p := ProfilePath(prefix, x) + q;
      p in fs && !fs[p].Dir? <==> ShowsLink(limit, fs, prefix, config, x, q)
  {
    if x in config.profiles { assert Exposes(limit, fs, prefix, x, config.profiles[x], q); }
    else { assert ProfilePath(prefix, x) + q !in fs; }
  }

  /** The parent check fails exactly at a shown link above the path. */
  lemma PathPasses(limit: nat, fs: FS, prefix: Path, config: Config, x: string, f: Path)
    requires Built(limit, fs, prefix, config)
    ensures var root := ProfilePath(prefix, x);
      Extract.ParentsOk(fs, root + f, |root| + 1) <==> LetsThrough(limit, fs, prefix, config, x, f)
  {
    var root := ProfilePath(prefix, x);
    var target := root + f;
    Extract.ParentsOkFrom(fs, target, |root| + 1);
    if Extract.ParentsOk(fs, target, |root| + 1) {
      forall q | q < f ensures !ShowsLink(limit, fs, prefix, config, x, q) {
        LinkIsThere(limit, fs, prefix, config, x, q);
        if q == [] {
          if x in config.profiles { RootIsNotOffered(limit, fs, prefix, config.profiles[x]); }
        } else {
          assert target[..|root| + |q|] == root + q;
        }
      }
    }
    if LetsThrough(limit, fs, prefix, config, x, f) {
      forall j | |root| + 1 <= j < |target| && target[..j] in fs ensures fs[target[..j]].Dir? {
        var q := f[..j - |root|];
        assert target[..j] == root + q && q < f;
        LinkIsThere(limit, fs, prefix, config, x, q);
      }
    }
  }

  lemma ProfilePasses(limit: nat, fs: FS, prefix: Path, config: Config, x: string, files: seq<Path>)
    requires Built(limit, fs, prefix, config)
    ensures Passable(fs, prefix, x, files) <==> forall f :: f in files ==> LetsThrough(limit, fs, prefix, config, x, f)
  {
    var root := ProfilePath(prefix, x);
    forall i | 0 <= i < |files|
      ensures Extract.ParentsOk(fs, root + files[i], |root| + 1) <==> LetsThrough(limit, fs, prefix, config, x, files[i])
    {
      PathPasses(limit, fs, prefix, config, x, files[i]);
    }
    if Passable(fs, prefix, x, files) {
      forall f | f in files ensures LetsThrough(limit, fs, prefix, config, x, f) {
        var i :| 0 <= i < |files| && files[i] == f;
        assert Extract.ParentsOk(fs, root + files[i], |root| + 1);
      }
    } else {
      var i :| 0 <= i < |files| && !Extract.ParentsOk(fs, root + files[i], |root| + 1);
      assert files[i] in files;
    }
  }

  /** Where there is a link there is a tree. */
  lemma LinkHasTree(limit: nat, fs: FS, prefix: Path, config: Config, x: string, q: Path)
    requires Built(limit, fs, prefix, config) && ShowsLink(limit, fs, prefix, config, x, q)
    ensures HasTree(limit, fs, prefix, config, x)
  {
    var root := ProfilePath(prefix, x);
    LinkIsThere(limit, fs, prefix, config, x, q);
    if q == [] { RootIsNotOffered(limit, fs, prefix, config.profiles[x]); }
    else { AncestorOf(fs, root, root + q); }
    TreeIsThere(limit, fs, prefix, config, x);
  }

  /** In the built trees a package can be unlinked exactly when the manifest lets it. */
  lemma BuiltPassable(limit: nat, fs: FS, prefix: Path, config: Config, n: string)
    requires Built(limit, fs, prefix, config)
    ensures ProfilesPassable(limit, fs, prefix, n) <==>
      && ((exists x :: HasTree(limit, fs, prefix, config, x)) ==> Files(limit, fs, prefix, n).Ok?)
      && NothingInTheWay(limit, fs, prefix, config, n)
  {
    var r := Files(limit, fs, prefix, n);
    forall x ensures RealDir(fs, ProfilePath(prefix, x)) <==> HasTree(limit, fs, prefix, config, x)
      ensures r.Ok? ==> (Passable(fs, prefix, x, r.value) <==> forall f :: f in r.value ==> LetsThrough(limit, fs, prefix, config, x, f))
    {
      TreeIsThere(limit, fs, prefix, config, x);
      if r.Ok? { ProfilePasses(limit, fs, prefix, config, x, r.value); }
    }
    if ProfilesPassable(limit, fs, prefix, n) && r.Ok? {
      forall x, f | f in r.value ensures LetsThrough(limit, fs, prefix, config, x, f) {
        if !LetsThrough(limit, fs, prefix, config, x, f) {
          var q :| q < f && ShowsLink(limit, fs, prefix, config, x, q);
          LinkHasTree(limit, fs, prefix, config, x, q);
        }
      }
    }
  }

  // ----- the prune -----

  ghost predicate Removable(limit: nat, fs: FS, prefix: Path, n: string) {
    ValidName(n) && Installed(fs, prefix, n) && ProfilesPassable(limit, fs, prefix, n)
  }

  lemma SameRemovable(limit: nat, fs: FS, fs': FS, prefix: Path, n: string)
    requires Outcomes.PackageSame(limit, fs, fs', prefix, n) && SameProfiles(fs, fs', prefix)
    ensures Removable(limit, fs, prefix, n) <==> Removable(limit, fs', prefix, n)
  {
    var r := Files(limit, fs, prefix, n);
    if Installed(fs, prefix, n) {
      forall x ensures RealDir(fs, ProfilePath(prefix, x)) <==> RealDir(fs', ProfilePath(prefix, x))
        ensures r.Ok? ==> (Passable(fs, prefix, x, r.value) <==> Passable(fs', prefix, x, r.value))
      {
        assert InProfile(prefix, ProfilePath(prefix, x));
        assert SameAt(fs, fs', ProfilePath(prefix, x));
        forall p | ProfilePath(prefix, x) < p ensures SameAt(fs, fs', p) { assert InProfile(prefix, p); }
        if r.Ok? { SamePassable(fs, fs', prefix, x, r.value); }
      }
    }
  }

  ghost predicate AllRemovable(limit: nat, fs: FS, prefix: Path, installed: seq<string>, wanted: set<string>) {
    forall n :: n in installed && n !in wanted ==> Removable(limit, fs, prefix, n)
  }

  /** A prune succeeds exactly when each unwanted package could be removed on its own: the
      profile trees hold no links of theirs, so that none of the removals changes them. */
  lemma {:induction false} PruneExactly(limit: nat, fs: FS, prefix: Path, installed: seq<string>, wanted: set<string>)
    requires IsSturdy(limit, fs, prefix) && ProfileLinksName(fs, prefix, wanted) && Order.Distinct(installed)
    ensures PruneAll(limit, fs, prefix, installed, wanted).ok <==> AllRemovable(limit, fs, prefix, installed, wanted)
    decreases |installed|
  {
    if installed != [] {
      var n, rest := installed[0], installed[1..];
      assert forall m :: m in installed <==> m == n || m in rest;
      if n in wanted {
        PruneExactly(limit, fs, prefix, rest, wanted);
      } else {
        RemoveSucceedsExactly(limit, fs, prefix, n);
        if Remove(limit, fs, prefix, n).ok {
          var fs' := AfterRemove(limit, fs, prefix, n, wanted);
          PruneExactly(limit, fs', prefix, rest, wanted);
          RestRemovable(limit, fs, fs', prefix, installed, wanted);
        }
      }
    }
  }

  lemma AfterRemove(limit: nat, fs: FS, prefix: Path, n: string, wanted: set<string>) returns (fs': FS)
    requires IsSturdy(limit, fs, prefix) && ProfileLinksName(fs, prefix, wanted) && n !in wanted && Remove(limit, fs, prefix, n).ok
    ensures fs' == Remove(limit, fs, prefix, n).fs
    ensures IsSturdy(limit, fs', prefix) && ProfileLinksName(fs', prefix, wanted) && SameProfiles(fs, fs', prefix)
    ensures forall m :: m != n ==> Outcomes.PackageSame(limit, fs, fs', prefix, m)
  {
    fs' := Remove(limit, fs, prefix, n).fs;
    RemoveKeeps(limit, fs, prefix, n);
    RemoveKeepsSturdy(limit, fs, prefix, n);
    RemoveKeepsProfiles(limit, fs, prefix, n, wanted);
  }

  lemma RestRemovable(limit: nat, fs: FS, fs': FS, prefix: Path, installed: seq<string>, wanted: set<string>)
    requires installed != [] && Order.Distinct(installed) && SameProfiles(fs, fs', prefix)
    requires forall m :: m != installed[0] ==> Outcomes.PackageSame(limit, fs, fs', prefix, m)
    requires Removable(limit, fs, prefix, installed[0])
    ensures AllRemovable(limit, fs, prefix, installed, wanted) <==> AllRemovable(limit, fs', prefix, installed[1..], wanted)
  {
    var rest := installed[1..];
    assert forall m :: m in installed <==> m == installed[0] || m in rest;
    forall m | m in rest ensures Removable(limit, fs, prefix, m) <==> Removable(limit, fs', prefix, m) {
      Rebuilding.LaterIsOther(installed, m);
      SameRemovable(limit, fs, fs', prefix, m);
    }
  }

  // ----- the whole sync -----

  lemma PlanInstalls(limit: nat, fs: FS, prefix: Path, config: Config, arch: string, ts: seq<Target>, reg: Registry)
    requires Plan.ResolveTargets(PlanOf(config), arch) == Ok(ts) && Converge.Settled(limit, fs, prefix, ts, reg)
    ensures AllInstalled(fs, prefix, config.profiles)
  {
    Fixpoint.PlanTargets(config, arch);
    forall x, i | x in config.profiles && 0 <= i < |config.profiles[x]| ensures Installed(fs, prefix, config.profiles[x][i]) {
      var n := config.profiles[x][i];
      ConcatHas(config.profiles, ProfileNames(config), n);
      assert n in PlanNames(config);
      var k :| 0 <= k < |ts| && ts[k].name == n;
      assert PlainMeta(fs, prefix, ts[k].name) == Some(Converge.TargetMeta(ts[k], reg));
    }
  }

  lemma RebuiltIsBuilt(limit: nat, fs: FS, prefix: Path, config: Config)
    requires Inv(limit, fs, prefix) && ValidConfig(config) && AllInstalled(fs, prefix, config.profiles)
    requires RebuildProfiles(limit, fs, prefix, config).ok
    ensures Built(limit, RebuildProfiles(limit, fs, prefix, config).fs, prefix, config)
  {
    var fs' := RebuildProfiles(limit, fs, prefix, config).fs;
    RebuildKeeps(limit, fs, prefix, config);
    forall x, q ensures if x in config.profiles then Exposes(limit, fs', prefix, x, config.profiles[x], q)
                        else ProfilePath(prefix, x) + q !in fs'
    {
      RebuiltExposes(limit, fs, prefix, config, x, q);
    }
  }

  lemma SameShown(limit: nat, fs: FS, fs': FS, prefix: Path, config: Config, x: string, q: Path)
    requires AllInstalled(fs, prefix, config.profiles) && StoresSame(limit, fs, fs', prefix)
    ensures ShowsLink(limit, fs, prefix, config, x, q) <==> ShowsLink(limit, fs', prefix, config, x, q)
    ensures HasTree(limit, fs, prefix, config, x) <==> HasTree(limit, fs', prefix, config, x)
  {
    if x in config.profiles {
      SameAnswers(limit, fs, fs', prefix, config.profiles[x], q);
      SameAnswers(limit, fs, fs', prefix, config.profiles[x], []);
    }
  }

  lemma SameLets(limit: nat, fs: FS, fs': FS, prefix: Path, config: Config, x: string, f: Path)
    requires AllInstalled(fs, prefix, config.profiles) && StoresSame(limit, fs, fs', prefix)
    ensures LetsThrough(limit, fs, prefix, config, x, f) <==> LetsThrough(limit, fs', prefix, config, x, f)
  {
    forall q ensures ShowsLink(limit, fs, prefix, config, x, q) <==> ShowsLink(limit, fs', prefix, config, x, q) {
      SameShown(limit, fs, fs', prefix, config, x, q);
    }
  }

  lemma SameWay(limit: nat, fs: FS, fs': FS, prefix: Path, config: Config, n: string)
    requires AllInstalled(fs, prefix, config.profiles) && StoresSame(limit, fs, fs', prefix) && Installed(fs, prefix, n)
    ensures NothingInTheWay(limit, fs, prefix, config, n) <==> NothingInTheWay(limit, fs', prefix, config, n)
  {
    forall x, f ensures LetsThrough(limit, fs, prefix, config, x, f) <==> LetsThrough(limit, fs', prefix, config, x, f) {
      SameLets(limit, fs, fs', prefix, config, x, f);
    }
    forall f ensures OffersFile(limit, fs, prefix, n, f) <==> OffersFile(limit, fs', prefix, n, f) {}
    if NothingInTheWay(limit, fs, prefix, config, n) {
      forall x, f | OffersFile(limit, fs', prefix, n, f) ensures LetsThrough(limit, fs', prefix, config, x, f) {
        assert OffersFile(limit, fs, prefix, n, f) && LetsThrough(limit, fs, prefix, config, x, f);
      }
    }
    if NothingInTheWay(limit, fs', prefix, config, n) {
      forall x, f | OffersFile(limit, fs, prefix, n, f) ensures LetsThrough(limit, fs, prefix, config, x, f) {
        assert OffersFile(limit, fs', prefix, n, f) && LetsThrough(limit, fs', prefix, config, x, f);
      }
    }
  }

  lemma SamePrunable(limit: nat, fs: FS, fs': FS, prefix: Path, config: Config, n: string)
    requires AllInstalled(fs, prefix, config.profiles) && StoresSame(limit, fs, fs', prefix)
    ensures Prunable(limit, fs, prefix, config, n) <==> Prunable(limit, fs', prefix, config, n)
  {
    if Installed(fs, prefix, n) {
      SameWay(limit, fs, fs', prefix, config, n);
      forall x ensures HasTree(limit, fs, prefix, config, x) <==> HasTree(limit, fs', prefix, config, x) {
        SameShown(limit, fs, fs', prefix, config, x, []);
      }
    }
  }

  /** Every package that has a metadata file and that the manifest does not name can be
      removed from the trees the manifest asks for. */
  ghost predicate CanPrune(limit: nat, fs: FS, prefix: Path, config: Config) {
    forall n :: MetaPath(prefix, n) in fs && n !in PlanNames(config) ==> Prunable(limit, fs, prefix, config, n)
  }

  /** In a sturdy prefix with the trees built, for the packages installed there. */
  lemma PruneBuilt(limit: nat, fs: FS, prefix: Path, config: Config)
    requires IsSturdy(limit, fs, prefix) && Built(limit, fs, prefix, config) && ProfileLinksName(fs, prefix, PlanNames(config))
    ensures PruneUnwanted(limit, fs, prefix, config).ok <==> CanPrune(limit, fs, prefix, config)
  {
    InstalledNamesMeans(limit, fs, prefix);
    var installed := InstalledNames(limit, fs, prefix).value;
    PruneExactly(limit, fs, prefix, installed, PlanNames(config));
    forall n ensures Removable(limit, fs, prefix, n) <==> Prunable(limit, fs, prefix, config, n) {
      BuiltPassable(limit, fs, prefix, config, n);
    }
  }

  lemma PruneAfterRebuild(limit: nat, fs: FS, prefix: Path, config: Config)
    requires IsSturdy(limit, fs, prefix) && ValidConfig(config) && AllInstalled(fs, prefix, config.profiles)
    requires SameOffers(limit, prefix, PlanNames(config), fs, fs) && RebuildProfiles(limit, fs, prefix, config).ok
    ensures PruneUnwanted(limit, RebuildProfiles(limit, fs, prefix, config).fs, prefix, config).ok <==> CanPrune(limit, fs, prefix, config)
  {
    var fs' := RebuildProfiles(limit, fs, prefix, config).fs;
    RebuildKeeps(limit, fs, prefix, config);
    RebuildKeepsSturdy(limit, fs, prefix, config);
    RebuiltIsBuilt(limit, fs, prefix, config);
    RebuildBoth(limit, prefix, config, fs, fs);
    PruneBuilt(limit, fs', prefix, config);
    forall n ensures MetaPath(prefix, n) in fs <==> MetaPath(prefix, n) in fs'
      ensures Prunable(limit, fs, prefix, config, n) <==> Prunable(limit, fs', prefix, config, n)
    {
      assert SameAt(fs, fs', MetaPath(prefix, n));
      SamePrunable(limit, fs, fs', prefix, config, n);
    }
  }

  /** A sync succeeds exactly when its manifest is valid, its plan does, each profile's list
      fits, and, if it prunes, every package that the manifest does not name can be removed. */
  lemma SyncSucceedsExactly(limit: nat, fs: FS, prefix: Path, config: Config, arch: string, archSet: bool, force: bool, prune: bool,
                            reg: Registry, suffix: string)
    requires IsSturdy(limit, fs, prefix) && Plan.TameRegistry(prefix, reg, suffix)
    ensures Sync(limit, fs, prefix, config, arch, archSet, force, prune, reg, suffix).ok <==>
      ValidConfig(config) &&
      var s1 := Plan.InstallPlan(limit, fs, prefix, PlanOf(config), SyncArch(config, arch, archSet), force, reg, suffix);
      s1.ok && Rebuilding.ProfilesFit(limit, s1.fs, prefix, config) && (prune ==> CanPrune(limit, s1.fs, prefix, config))
  {
    if ValidConfig(config) {
      var a := SyncArch(config, arch, archSet);
      var s1 := Plan.InstallPlan(limit, fs, prefix, PlanOf(config), a, force, reg, suffix);
      if s1.ok {
        Plan.InstallPlanKeeps(limit, fs, prefix, PlanOf(config), a, force, reg, suffix);
        PlanKeepsSturdy(limit, fs, prefix, PlanOf(config), a, force, reg, suffix);
        Converge.InstallPlanSettles(limit, fs, prefix, PlanOf(config), a, force, reg, suffix);
        var ts := Plan.ResolveTargets(PlanOf(config), a).value;
        PlanInstalls(limit, s1.fs, prefix, config, a, ts, reg);
        Rebuilding.RebuildSucceedsExactly(limit, s1.fs, prefix, config);
        Fixpoint.PlanTargets(config, a);
        Fixpoint.SettledOffers(limit, prefix, ts, reg, PlanNames(config), s1.fs, s1.fs);
        if prune && RebuildProfiles(limit, s1.fs, prefix, config).ok { PruneAfterRebuild(limit, s1.fs, prefix, config); }
      }
    }
  }
}
