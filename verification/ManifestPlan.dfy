/** The declarative manifest and the install plan it stands for (cmd/binman/manifest.go). */
module ManifestPlan {
  import opened Order
  import opened Prefix
  import opened Install
  import opened Plan

  datatype Config = Config(arch: string, link: seq<string>, unlink: seq<string>, profiles: map<string, seq<string>>)

  function ProfileNames(config: Config): (ns: seq<string>)
    ensures Distinct(ns) && forall n :: n in ns <==> n in config.profiles
  {
    Sorted(config.profiles.Keys)
  }

  /** loadManifest's checks: valid names throughout and at least one package. */
  predicate ValidConfig(config: Config) {
    && (config.arch != "" ==> ValidArch(config.arch))
    && (forall n :: n in config.link ==> ValidName(n))
    && (forall n :: n in config.unlink ==> ValidName(n))
    && (forall p :: p in config.profiles ==> ValidName(p) && forall n :: n in config.profiles[p] ==> ValidName(n))
    && AllNames(config) != []
  }

  function Concat(profiles: map<string, seq<string>>, ps: seq<string>): seq<string>
    requires forall p :: p in ps ==> p in profiles
  {
    if ps == [] then []
    else
      assert ps[0] in ps;
      profiles[ps[0]] + Concat(profiles, ps[1..])
  }

  /** Every mention of a package in manifest order: link, unlink, then the profiles by name. */
  function AllNames(config: Config): seq<string> {
    config.link + config.unlink + Concat(config.profiles, ProfileNames(config))
  }

  /** The elements of `s` at their first occurrence, in order. */
  function FirstOccurrences(s: seq<string>): (r: seq<string>)
    ensures Distinct(r) && forall n :: n in r <==> n in s
  {
    if s == [] then []
    else
      var init := s[..|s| - 1];
      var r := FirstOccurrences(init);
      assert s == init + [s[|s| - 1]];
      if s[|s| - 1] in init then r else r + [s[|s| - 1]]
  }

  function TargetsOf(names: seq<string>, link: seq<string>): (r: seq<Target>)
    ensures |r| == |names| && forall i :: 0 <= i < |r| ==> r[i] == Target(names[i], "", names[i] in link)
  {
    seq(|names|, i requires 0 <= i < |names| => Target(names[i], "", names[i] in link))
  }

  /** installPlan: each package once, in order of first mention, linked if under `link`. */
  function PlanOf(config: Config): (r: seq<Target>)
    ensures DistinctTargets(r)
  {
    TargetsOf(FirstOccurrences(AllNames(config)), config.link)
  }

  /** Where `n` is first mentioned. */
  function FirstIndex(s: seq<string>, n: string): (i: nat)
    requires n in s
    ensures i < |s| && s[i] == n && n !in s[..i]
  {
    if s[0] == n then 0
    else
      var i := 1 + FirstIndex(s[1..], n);
      assert s[..i] == [s[0]] + s[1..][..i - 1];
      i
  }

  lemma {:induction false} FirstOccurrencesAreInOrder(s: seq<string>, i: nat, j: nat)
    requires i < j < |FirstOccurrences(s)|
    ensures var r := FirstOccurrences(s);
      r[i] in s && r[j] in s && FirstIndex(s, r[i]) < FirstIndex(s, r[j])
  {
    var r := FirstOccurrences(s);
    var init, last := s[..|s| - 1], s[|s| - 1];
    assert r[i] in r && r[j] in r;
    if j < |FirstOccurrences(init)| {
      FirstOccurrencesAreInOrder(init, i, j);
      FirstIndexInit(s, r[i]);
      FirstIndexInit(s, r[j]);
    } else {
      assert FirstOccurrences(init)[i] in FirstOccurrences(init);
      FirstIndexInit(s, r[i]);
    }
  }

  lemma {:induction false} FirstIndexIs(s: seq<string>, n: string, i: nat)
    requires i < |s| && s[i] == n && n !in s[..i]
    ensures FirstIndex(s, n) == i
    decreases |s|
  {
    if i > 0 {
      assert s[0] in s[..i] && s[..i] == [s[0]] + s[1..][..i - 1];
      FirstIndexIs(s[1..], n, i - 1);
    }
  }

  lemma FirstIndexInit(s: seq<string>, n: string)
    requires s != [] && n in s[..|s| - 1]
    ensures FirstIndex(s, n) == FirstIndex(s[..|s| - 1], n)
    ensures s[|s| - 1] !in s[..|s| - 1] ==> FirstIndex(s, s[|s| - 1]) == |s| - 1
  {
    var i := FirstIndex(s[..|s| - 1], n);
    assert s[..|s| - 1][..i] == s[..i];
    FirstIndexIs(s, n, i);
    if s[|s| - 1] !in s[..|s| - 1] { FirstIndexIs(s, s[|s| - 1], |s| - 1); }
  }

  /** The plan names each mentioned package once, in the order of first mention, linked
      exactly when it is mentioned under `link`. */
  lemma PlanMeans(config: Config, i: nat)
    requires i < |PlanOf(config)|
    ensures var plan, names := PlanOf(config), AllNames(config);
      && DistinctTargets(plan) && plan[i].name in names && plan[i].arch == ""
      && (plan[i].linked <==> plan[i].name in config.link)
      && (forall n :: n in names ==> exists k :: 0 <= k < |plan| && plan[k].name == n)
      && (forall j :: i < j < |plan| ==> plan[j].name in names && FirstIndex(names, plan[i].name) < FirstIndex(names, plan[j].name))
  {
    var plan, names := PlanOf(config), AllNames(config);
    var firsts := FirstOccurrences(names);
    assert plan[i].name == firsts[i] && firsts[i] in firsts;
    forall n | n in names ensures exists k :: 0 <= k < |plan| && plan[k].name == n {
      var k :| 0 <= k < |firsts| && firsts[k] == n;
      assert plan[k].name == n;
    }
    forall j | i < j < |plan| ensures plan[j].name in names && FirstIndex(names, plan[i].name) < FirstIndex(names, plan[j].name) {
      FirstOccurrencesAreInOrder(names, i, j);
    }
  }

  // ----- which packages a manifest mentions, and in which order -----

  /** The package is listed under link, under unlink or in a profile. */
  ghost predicate Mentioned(config: Config, n: string) {
    n in config.link || n in config.unlink || exists p :: p in config.profiles && n in config.profiles[p]
  }

  lemma {:induction false} ConcatHas(profiles: map<string, seq<string>>, ps: seq<string>, n: string)
    requires forall p :: p in ps ==> p in profiles
    ensures n in Concat(profiles, ps) <==> exists p :: p in ps && n in profiles[p]
    decreases |ps|
  {
    if ps != [] {
      assert ps == [ps[0]] + ps[1..];
      ConcatHas(profiles, ps[1..], n);
      assert n in Concat(profiles, ps) <==> n in profiles[ps[0]] || n in Concat(profiles, ps[1..]);
    }
  }

  lemma MentionedExactly(config: Config, n: string)
    ensures n in AllNames(config) <==> Mentioned(config, n)
  {
    ConcatHas(config.profiles, ProfileNames(config), n);
  }

  /** A manifest is accepted exactly when its architecture, if it has one, its profiles and
      the packages it mentions have valid names, and it mentions one at all. */
  lemma ValidConfigMeans(config: Config)
    ensures ValidConfig(config) <==>
      && (config.arch == "" || ValidArch(config.arch))
      && (forall p :: p in config.profiles ==> ValidName(p))
      && (forall n :: Mentioned(config, n) ==> ValidName(n))
      && exists n :: Mentioned(config, n)
  {
    forall n ensures n in AllNames(config) <==> Mentioned(config, n) { MentionedExactly(config, n); }
    if AllNames(config) != [] { assert AllNames(config)[0] in AllNames(config); }
    if ValidConfig(config) {
      forall n | Mentioned(config, n) ensures ValidName(n) {}
    }
  }

  /** a comes before b where the lists are read one after the other. */
  predicate FirstIn(s: seq<string>, a: string, b: string) {
    a in s && (b in s ==> FirstIndex(s, a) < FirstIndex(s, b))
  }

  lemma {:induction false} FirstIndexConcat(x: seq<string>, y: seq<string>, n: string)
    requires n in x + y
    ensures FirstIndex(x + y, n) == if n in x then FirstIndex(x, n) else |x| + FirstIndex(y, n)
  {
    if n in x {
      var i := FirstIndex(x, n);
      assert (x + y)[..i] == x[..i];
      FirstIndexIs(x + y, n, i);
    } else {
      var i := FirstIndex(y, n);
      assert (x + y)[..|x| + i] == x + y[..i];
      FirstIndexIs(x + y, n, |x| + i);
    }
  }

  lemma FirstInConcat(x: seq<string>, y: seq<string>, a: string, b: string)
    requires a in x + y
    ensures FirstIn(x + y, a, b) <==> if a in x then FirstIn(x, a, b) else b !in x && FirstIn(y, a, b)
  {
    FirstIndexConcat(x, y, a);
    if b in x + y { FirstIndexConcat(x, y, b); }
  }

  /** a comes before b in the profile that comes first by name among those that list either. */
  ghost predicate FirstInProfiles(config: Config, a: string, b: string) {
    exists p ::
      && p in config.profiles && FirstIn(config.profiles[p], a, b)
      && forall q :: q in config.profiles && Less(q, p) ==> a !in config.profiles[q] && b !in config.profiles[q]
  }

  lemma {:induction false} FirstInConcatAll(profiles: map<string, seq<string>>, ps: seq<string>, a: string, b: string, k: nat)
    requires (forall p :: p in ps ==> p in profiles) && k < |ps| && ps[k] in profiles && FirstIn(profiles[ps[k]], a, b)
    requires forall j :: 0 <= j < k ==> ps[j] in profiles && a !in profiles[ps[j]] && b !in profiles[ps[j]]
    ensures FirstIn(Concat(profiles, ps), a, b)
    decreases |ps|
  {
    assert ps[0] in ps && ps == [ps[0]] + ps[1..];
    if k > 0 {
      FirstInConcatAll(profiles, ps[1..], a, b, k - 1);
      FirstInConcat(profiles[ps[0]], Concat(profiles, ps[1..]), a, b);
    } else {
      FirstInConcat(profiles[ps[0]], Concat(profiles, ps[1..]), a, b);
    }
  }

  lemma ProfilesInOrder(config: Config, a: string, b: string)
    requires FirstInProfiles(config, a, b)
    ensures FirstIn(Concat(config.profiles, ProfileNames(config)), a, b)
  {
    var ps := ProfileNames(config);
    var p :| p in config.profiles && FirstIn(config.profiles[p], a, b) &&
      forall q :: q in config.profiles && Less(q, p) ==> a !in config.profiles[q] && b !in config.profiles[q];
    var k :| 0 <= k < |ps| && ps[k] == p;
    forall j | 0 <= j < k ensures ps[j] in config.profiles && a !in config.profiles[ps[j]] && b !in config.profiles[ps[j]] {
      assert ps[j] in ps && Less(ps[j], p);
    }
    FirstInConcatAll(config.profiles, ps, a, b, k);
  }

  /** The plan lists the packages under link first, in their order, then those under unlink,
      then those of the profiles by the profiles' names. */
  lemma PlanInOrder(config: Config, i: nat, j: nat)
    requires i < |PlanOf(config)| && j < |PlanOf(config)|
    requires var a, b := PlanOf(config)[i].name, PlanOf(config)[j].name;
      || FirstIn(config.link, a, b)
      || (a !in config.link && b !in config.link && FirstIn(config.unlink, a, b))
      || (a !in config.link + config.unlink && b !in config.link + config.unlink && FirstInProfiles(config, a, b))
    ensures PlanOf(config)[i].name != PlanOf(config)[j].name ==> i < j
  {
    var a, b := PlanOf(config)[i].name, PlanOf(config)[j].name;
    var rest := Concat(config.profiles, ProfileNames(config));
    PlanMeans(config, i);
    PlanMeans(config, j);
    assert AllNames(config) == config.link + config.unlink + rest;
    FirstInConcat(config.link + config.unlink, rest, a, b);
    if a in config.link + config.unlink { FirstInConcat(config.link, config.unlink, a, b); }
    if FirstInProfiles(config, a, b) { ProfilesInOrder(config, a, b); }
  }

  /** One mention of a package: a new one is appended; a later root link wins over an
      earlier mention without one. */
  function Added(plan: seq<Target>, name: string, linked: bool): seq<Target>
    decreases |plan|
  {
    if plan == [] then [Target(name, "", linked)]
    else if plan[0].name == name then [plan[0].(linked := plan[0].linked || linked)] + plan[1..]
    else [plan[0]] + Added(plan[1..], name, linked)
  }

  lemma {:induction false} AddedKnown(plan: seq<Target>, name: string, linked: bool, index: nat)
    requires DistinctTargets(plan) && index < |plan| && plan[index].name == name
    ensures Added(plan, name, linked) == plan[index := plan[index].(linked := plan[index].linked || linked)]
    decreases |plan|
  {
    if index > 0 {
      assert plan[0].name != name;
      AddedKnown(plan[1..], name, linked, index - 1);
    }
  }

  lemma {:induction false} AddedNew(plan: seq<Target>, name: string, linked: bool)
    requires forall i :: 0 <= i < |plan| ==> plan[i].name != name
    ensures Added(plan, name, linked) == plan + [Target(name, "", linked)]
    decreases |plan|
  {
    if plan != [] { AddedNew(plan[1..], name, linked); }
  }

  /** installPlan's `plan` and its index `seen`. */
  class PlanBuilder {
    var plan: seq<Target>
    var seen: map<string, nat>

    ghost predicate Valid()
      reads this
    {
      && (forall i :: 0 <= i < |plan| ==> plan[i].name in seen && seen[plan[i].name] == i)
      && (forall n :: n in seen ==> seen[n] < |plan| && plan[seen[n]].name == n)
    }

    constructor ()
      ensures Valid() && plan == []
    {
      plan, seen := [], map[];
    }

    method Add(name: string, linked: bool)
      requires Valid()
      modifies this
      ensures Valid() && plan == Added(old(plan), name, linked)
    {
      if name in seen {
        AddedKnown(plan, name, linked, seen[name]);
        if linked { plan := plan[seen[name] := plan[seen[name]].(linked := true)]; }
        return;
      }
      AddedNew(plan, name, linked);
      seen := seen[name := |plan|];
      plan := plan + [Target(name, "", linked)];
    }
  }

  /** Adding one more mention extends the plan of what was mentioned before. */
  lemma AddedExtends(done: seq<string>, link: seq<string>, name: string, linked: bool)
    requires linked ==> name in link
    requires !linked && name in link ==> name in done
    ensures Added(TargetsOf(FirstOccurrences(done), link), name, linked) == TargetsOf(FirstOccurrences(done + [name]), link)
  {
    var names := FirstOccurrences(done);
    var plan := TargetsOf(names, link);
    assert (done + [name])[..|done|] == done && (done + [name])[|done|] == name;
    if name in done {
      var i :| 0 <= i < |names| && names[i] == name;
      AddedKnown(plan, name, linked, i);
    } else {
      forall i | 0 <= i < |plan| ensures plan[i].name != name { assert names[i] in names; }
      AddedNew(plan, name, linked);
    }
  }

  /** Adds the names one after the other, when `done` have been mentioned before. */
  method AddAll(builder: PlanBuilder, names: seq<string>, linked: bool, ghost done: seq<string>, ghost link: seq<string>)
    requires builder.Valid() && builder.plan == TargetsOf(FirstOccurrences(done), link)
    requires if linked then forall n :: n in names ==> n in link else forall n :: n in link ==> n in done
    modifies builder
    ensures builder.Valid() && builder.plan == TargetsOf(FirstOccurrences(done + names), link)
  {
    ghost var said := done;
    for i := 0 to |names|
      invariant builder.Valid() && said == done + names[..i]
      invariant builder.plan == TargetsOf(FirstOccurrences(said), link)
    {
      SaidExtends(builder.plan, done, said, names, i, linked, link);
      builder.Add(names[i], linked);
      said := done + names[..i + 1];
    }
    assert names[..|names|] == names;
  }

  lemma SaidExtends(plan: seq<Target>, done: seq<string>, said: seq<string>, names: seq<string>, i: nat, linked: bool, link: seq<string>)
    requires i < |names| && said == done + names[..i]
    requires if linked then forall n :: n in names ==> n in link else forall n :: n in link ==> n in done
    requires plan == TargetsOf(FirstOccurrences(said), link)
    ensures Added(plan, names[i], linked) == TargetsOf(FirstOccurrences(done + names[..i + 1]), link)
  {
    assert names[i] in names && done + names[..i + 1] == said + [names[i]];
    AddedExtends(said, link, names[i], linked);
  }

  /** The mentions up to the j-th profile. */
  function MentionsTo(config: Config, j: nat): seq<string>
    requires j <= |ProfileNames(config)|
  {
    var ps := ProfileNames(config);
    assert forall p :: p in ps[..j] ==> p in ps;
    config.link + config.unlink + Concat(config.profiles, ps[..j])
  }

  lemma {:induction false} ConcatNext(profiles: map<string, seq<string>>, ps: seq<string>, p: string)
    requires (forall x :: x in ps ==> x in profiles) && p in profiles
    ensures Concat(profiles, ps + [p]) == Concat(profiles, ps) + profiles[p]
  {
    if ps != [] {
      assert (ps + [p])[1..] == ps[1..] + [p];
      ConcatNext(profiles, ps[1..], p);
    }
  }

  lemma MentionsNext(config: Config, j: nat)
    requires j < |ProfileNames(config)|
    ensures ProfileNames(config)[j] in config.profiles
    ensures MentionsTo(config, j + 1) == MentionsTo(config, j) + config.profiles[ProfileNames(config)[j]]
  {
    var ps := ProfileNames(config);
    var first := ps[..j];
    assert ps[j] in ps && ps[..j + 1] == first + [ps[j]];
    forall p | p in first ensures p in config.profiles { assert p in ps; }
    ConcatNext(config.profiles, first, ps[j]);
  }

  /** The loop over sections and sorted profiles builds exactly the plan. */
  method InstallPlanOf(config: Config) returns (plan: seq<Target>)
    ensures plan == PlanOf(config)
  {
    var builder := new PlanBuilder();
    var ps := ProfileNames(config);
    AddAll(builder, config.link, true, [], config.link);
    assert [] + config.link == config.link;
    AddAll(builder, config.unlink, false, config.link, config.link);
    assert config.link + config.unlink + [] == config.link + config.unlink;
    for j := 0 to |ps|
      invariant builder.Valid() && builder.plan == TargetsOf(FirstOccurrences(MentionsTo(config, j)), config.link)
    {
      MentionsNext(config, j);
      assert forall n :: n in config.link ==> n in MentionsTo(config, j);
      AddAll(builder, config.profiles[ps[j]], false, MentionsTo(config, j), config.link);
    }
    assert ps[..|ps|] == ps;
    plan := builder.plan;
  }
}
