/** The prune as it runs (cmd/nixcache/prune.go): nested maps filled in loops, groups
    sorted and cut, proved to follow the policy whatever order Go's maps iterate in. */
module Pruner {
  import opened Order
  import opened Segments
  import opened Prune

  type Ages = map<string, map<string, int>>

  /** `newest` holds, per system, the newest positive time of each snapshot in `part`. */
  ghost predicate Tracks(newest: Ages, part: seq<Segment>) {
    && (forall system :: system in newest <==> exists s :: s in part && s.system == system)
    && (forall system :: system in newest ==> TracksSystem(newest[system], part, system))
  }

  ghost predicate TracksSystem(bySnapshot: map<string, int>, part: seq<Segment>, system: string) {
    && bySnapshot.Keys == Snapshots(part, system)
    && forall x :: x in bySnapshot ==> bySnapshot[x] > 0 && NewestTime(part, system, x, bySnapshot[x])
  }

  function Noted(bySnapshot: map<string, int>, s: Segment): map<string, int> {
    var previous := if s.snapshot in bySnapshot then bySnapshot[s.snapshot] else 0;
    if s.created > previous then bySnapshot[s.snapshot := s.created] else bySnapshot
  }

  lemma RecordTracks(bySnapshot: map<string, int>, part: seq<Segment>, s: Segment)
    requires TracksSystem(bySnapshot, part, s.system)
    ensures TracksSystem(Noted(bySnapshot, s), part + [s], s.system)
  {
    var after := Noted(bySnapshot, s);
    assert forall t :: t in part + [s] <==> t in part || t == s;
    forall x ensures x in after <==> x in Snapshots(part + [s], s.system) {
      if x in Snapshots(part, s.system) { TakeDated(part, s.system, x, s); }
    }
    forall x | x in after ensures after[x] > 0 && NewestTime(part + [s], s.system, x, after[x]) {
      if x == s.snapshot { NotedTime(bySnapshot, part, s); }
      else { KeepsTime(part, s, s.system, x, bySnapshot[x]); }
    }
  }

  lemma TakeDated(part: seq<Segment>, system: string, x: string, s: Segment)
    requires x in Snapshots(part, system)
    ensures x in Snapshots(part + [s], system)
  {
    var t :| t in part && t.system == system && t.created > 0 && t.snapshot == x;
    assert t in part + [s];
  }

  lemma NotedTime(bySnapshot: map<string, int>, part: seq<Segment>, s: Segment)
    requires TracksSystem(bySnapshot, part, s.system) && s.snapshot in Noted(bySnapshot, s)
    ensures NewestTime(part + [s], s.system, s.snapshot, Noted(bySnapshot, s)[s.snapshot])
  {
    var t := Noted(bySnapshot, s)[s.snapshot];
    assert forall u :: u in part + [s] <==> u in part || u == s;
    if t != s.created {
      var u :| u in part && u.system == s.system && u.snapshot == s.snapshot && u.created == t;
      assert u in part + [s];
    }
    forall u | u in part && u.system == s.system && u.snapshot == s.snapshot ensures u.created <= t {
      if u.created > 0 { assert s.snapshot in Snapshots(part, s.system); }
    }
  }

  lemma KeepsTime(part: seq<Segment>, s: Segment, system: string, x: string, t: int)
    requires NewestTime(part, system, x, t) && (s.system != system || s.snapshot != x)
    ensures NewestTime(part + [s], system, x, t)
  {
    var u :| u in part && u.system == system && u.snapshot == x && u.created == t;
    assert u in part + [s];
  }

  lemma OtherSystemTracks(bySnapshot: map<string, int>, part: seq<Segment>, s: Segment, system: string)
    requires TracksSystem(bySnapshot, part, system) && system != s.system
    ensures TracksSystem(bySnapshot, part + [s], system)
  {
    forall x | x in bySnapshot ensures NewestTime(part + [s], system, x, bySnapshot[x]) {
      KeepsTime(part, s, system, x, bySnapshot[x]);
    }
    assert forall t :: t in part + [s] <==> t in part || t == s;
    assert Snapshots(part + [s], system) == Snapshots(part, system);
  }

  lemma TracksNext(newest: Ages, part: seq<Segment>, s: Segment)
    requires Tracks(newest, part)
    ensures var bySnapshot := if s.system in newest then newest[s.system] else map[];
      Tracks(newest[s.system := Noted(bySnapshot, s)], part + [s])
  {
    var bySnapshot := if s.system in newest then newest[s.system] else map[];
    assert forall t :: t in part + [s] <==> t in part || t == s;
    if s.system !in newest { assert TracksSystem(map[], part, s.system); }
    RecordTracks(bySnapshot, part, s);
    forall system | system in newest && system != s.system ensures TracksSystem(newest[system], part + [s], system) {
      OtherSystemTracks(newest[system], part, s, system);
    }
  }

  // ----- ranking the snapshots of a system -----

  datatype SnapshotAge = SnapshotAge(id: string, created: int)

  predicate Fresher(a: SnapshotAge, b: SnapshotAge) {
    a.created > b.created
  }

  /** As many as allowed of the snapshots, none older than one left out. */
  ghost predicate Chosen(bySnapshot: map<string, int>, keep: nat, chosen: set<string>) {
    && chosen <= bySnapshot.Keys
    && |chosen| == Min(keep, |bySnapshot|)
    && forall a, b :: a in chosen && b in bySnapshot.Keys - chosen ==> bySnapshot[a] >= bySnapshot[b]
  }

  /** Lists the snapshots in whatever order the map yields them. */
  method ListAges(bySnapshot: map<string, int>) returns (ranked: seq<SnapshotAge>)
    ensures |ranked| == |bySnapshot|
    ensures forall i, j :: 0 <= i < j < |ranked| ==> ranked[i].id != ranked[j].id
    ensures forall a :: a in ranked <==> a.id in bySnapshot && a.created == bySnapshot[a.id]
  {
    ranked := [];
    var rest := bySnapshot.Keys;
    while rest != {}
      invariant rest <= bySnapshot.Keys && |ranked| + |rest| == |bySnapshot|
      invariant forall i, j :: 0 <= i < j < |ranked| ==> ranked[i].id != ranked[j].id
      invariant forall a :: a in ranked <==> a.id in bySnapshot.Keys - rest && a.created == bySnapshot[a.id]
      decreases rest
    {
      var id :| id in rest;
      forall i | 0 <= i < |ranked| ensures ranked[i].id != id { assert ranked[i] in ranked; }
      ranked := ranked + [SnapshotAge(id, bySnapshot[id])];
      rest := rest - {id};
    }
  }

  /** Each snapshot once, fresher ones first. */
  ghost predicate Ranked(bySnapshot: map<string, int>, ranked: seq<SnapshotAge>) {
    && |ranked| == |bySnapshot| && Ordered(ranked, Fresher)
    && (forall i, j :: 0 <= i < j < |ranked| ==> ranked[i].id != ranked[j].id)
    && (forall a :: a in ranked <==> a.id in bySnapshot && a.created == bySnapshot[a.id])
  }

  method RankAges(bySnapshot: map<string, int>) returns (ranked: seq<SnapshotAge>)
    ensures Ranked(bySnapshot, ranked)
  {
    var listed := ListAges(bySnapshot);
    ranked := Sort(listed, Fresher);
    SameIds(listed, ranked, bySnapshot);
  }

  method KeepFreshest(bySnapshot: map<string, int>, keep: nat) returns (chosen: set<string>)
    ensures Chosen(bySnapshot, keep, chosen)
  {
    var ranked := RankAges(bySnapshot);
    chosen := {};
    var i := 0;
    while i < |ranked| && i < keep
      invariant 0 <= i <= |ranked| && i <= keep && chosen == FirstIds(ranked, i)
    {
      chosen := chosen + {ranked[i].id};
      i := i + 1;
    }
    FreshestChosen(bySnapshot, ranked, i);
  }

  function FirstIds(ranked: seq<SnapshotAge>, n: nat): set<string>
    requires n <= |ranked|
  {
    if n == 0 then {} else FirstIds(ranked, n - 1) + {ranked[n - 1].id}
  }

  lemma {:induction false} FirstIdsMean(ranked: seq<SnapshotAge>, n: nat)
    requires n <= |ranked|
    ensures forall k :: 0 <= k < n ==> ranked[k].id in FirstIds(ranked, n)
    ensures forall x :: x in FirstIds(ranked, n) ==> exists k :: 0 <= k < n && ranked[k].id == x
  {
    if n > 0 {
      FirstIdsMean(ranked, n - 1);
      forall x | x in FirstIds(ranked, n) ensures exists k :: 0 <= k < n && ranked[k].id == x {
        if x in FirstIds(ranked, n - 1) {
          var k :| 0 <= k < n - 1 && ranked[k].id == x;
        }
      }
    }
  }

  lemma {:induction false} FirstIdsCount(ranked: seq<SnapshotAge>, n: nat)
    requires n <= |ranked| && forall i, j :: 0 <= i < j < |ranked| ==> ranked[i].id != ranked[j].id
    ensures |FirstIds(ranked, n)| == n
  {
    if n > 0 {
      FirstIdsCount(ranked, n - 1);
      FirstIdsMean(ranked, n - 1);
    }
  }

  lemma SameIds(listed: seq<SnapshotAge>, ranked: seq<SnapshotAge>, bySnapshot: map<string, int>)
    requires multiset(listed) == multiset(ranked) && |listed| == |bySnapshot|
    requires forall i, j :: 0 <= i < j < |listed| ==> listed[i].id != listed[j].id
    requires forall a :: a in listed <==> a.id in bySnapshot && a.created == bySnapshot[a.id]
    ensures |ranked| == |bySnapshot| && forall i, j :: 0 <= i < j < |ranked| ==> ranked[i].id != ranked[j].id
    ensures forall a :: a in ranked <==> a.id in bySnapshot && a.created == bySnapshot[a.id]
  {
    assert |ranked| == |multiset(ranked)| == |multiset(listed)| == |listed|;
    forall a ensures a in ranked <==> a in listed { assert a in ranked <==> a in multiset(ranked); }
    forall i, j | 0 <= i < j < |ranked| ensures ranked[i].id != ranked[j].id {
      assert ranked[i] in ranked && ranked[j] in ranked;
      TwiceInMultiset(ranked, i, j);
      OnceInMultiset(listed, ranked[i]);
    }
  }

  lemma TwiceInMultiset<T>(s: seq<T>, i: nat, j: nat)
    requires i < j < |s|
    ensures s[i] == s[j] ==> multiset(s)[s[i]] >= 2
  {
    assert s == s[..i] + [s[i]] + s[i + 1..j] + [s[j]] + s[j + 1..];
  }

  lemma {:induction false} OnceInMultiset(s: seq<SnapshotAge>, a: SnapshotAge)
    requires forall i, j :: 0 <= i < j < |s| ==> s[i].id != s[j].id
    ensures multiset(s)[a] <= 1
  {
    if s != [] {
      assert s == [s[0]] + s[1..];
      OnceInMultiset(s[1..], a);
      if a == s[0] { assert a !in s[1..] by { assert forall k :: 0 <= k < |s| - 1 ==> s[1..][k] == s[k + 1]; } }
    }
  }

  lemma FreshestChosen(bySnapshot: map<string, int>, ranked: seq<SnapshotAge>, n: nat)
    requires n <= |ranked| && Ranked(bySnapshot, ranked)
    ensures var chosen := FirstIds(ranked, n);
      && chosen <= bySnapshot.Keys && |chosen| == n
      && forall a, b :: a in chosen && b in bySnapshot.Keys - chosen ==> bySnapshot[a] >= bySnapshot[b]
  {
    var chosen := FirstIds(ranked, n);
    FirstIdsMean(ranked, n);
    FirstIdsCount(ranked, n);
    forall a | a in chosen ensures a in bySnapshot {
      var k :| 0 <= k < n && ranked[k].id == a;
      assert ranked[k] in ranked;
    }
    forall a, b | a in chosen && b in bySnapshot.Keys - chosen ensures bySnapshot[a] >= bySnapshot[b] {
      var i :| 0 <= i < n && ranked[i].id == a;
      assert ranked[i] in ranked && SnapshotAge(b, bySnapshot[b]) in ranked;
      var j :| 0 <= j < |ranked| && ranked[j] == SnapshotAge(b, bySnapshot[b]);
      assert j >= n;
    }
  }

  // ----- keptSnapshots -----

  lemma ChosenKeepsNewest(segments: seq<Segment>, system: string, bySnapshot: map<string, int>, keep: nat, chosen: set<string>)
    requires TracksSystem(bySnapshot, segments, system) && Chosen(bySnapshot, keep, chosen)
    ensures KeepsNewestOf(segments, keep, system, chosen)
  {
    assert |bySnapshot| == |bySnapshot.Keys|;
    forall a, b | a in chosen && b in Snapshots(segments, system) - chosen ensures AsNew(segments, system, a, b) {
      forall t, t' | NewestTime(segments, system, a, t) && NewestTime(segments, system, b, t') ensures t >= t' {
        OneNewestTime(segments, system, a, t, bySnapshot[a]);
        OneNewestTime(segments, system, b, t', bySnapshot[b]);
      }
    }
  }

  lemma OneNewestTime(segments: seq<Segment>, system: string, x: string, t: int, t': int)
    requires NewestTime(segments, system, x, t) && NewestTime(segments, system, x, t')
    ensures t == t'
  {}

  method NewestTimes(segments: seq<Segment>) returns (newest: Ages)
    ensures Tracks(newest, segments)
  {
    newest := map[];
    assert segments[..0] == [];
    for i := 0 to |segments|
      invariant Tracks(newest, segments[..i])
    {
      var ref := segments[i];
      TracksNext(newest, segments[..i], ref);
      assert segments[..i + 1] == segments[..i] + [ref];
      var bySnapshot := if ref.system in newest then newest[ref.system] else map[];
      var previous := if ref.snapshot in bySnapshot then bySnapshot[ref.snapshot] else 0;
      if ref.created > previous { bySnapshot := bySnapshot[ref.snapshot := ref.created]; }
      newest := newest[ref.system := bySnapshot];
    }
    assert segments[..|segments|] == segments;
  }

  /** Systems in whatever order the map yields them. */
  method KeepFreshestOfAll(newest: Ages, keep: nat) returns (kept: Kept)
    ensures kept.Keys == newest.Keys && forall system :: system in kept ==> Chosen(newest[system], keep, kept[system])
  {
    kept := map[];
    var rest := newest.Keys;
    while rest != {}
      invariant rest <= newest.Keys && kept.Keys == newest.Keys - rest
      invariant forall system :: system in kept ==> Chosen(newest[system], keep, kept[system])
      decreases rest
    {
      var system :| system in rest;
      var chosen := KeepFreshest(newest[system], keep);
      kept := kept[system := chosen];
      rest := rest - {system};
    }
  }

  method KeptSnapshots(segments: seq<Segment>, keep: nat) returns (kept: Kept)
    ensures KeepsNewest(segments, keep, kept)
  {
    var newest := NewestTimes(segments);
    kept := KeepFreshestOfAll(newest, keep);
    forall system | system in kept ensures KeepsNewestOf(segments, keep, system, kept[system]) {
      ChosenKeepsNewest(segments, system, newest[system], keep, kept[system]);
    }
  }

  // ----- retainedSegmentsByPackage -----

  type GroupKey = (string, string, string)

  function KeyOf(s: Segment): GroupKey {
    (s.system, s.snapshot, s.packageKey)
  }

  predicate Grouped(kept: Kept, s: Segment) {
    s.packageKey != "" && InKept(kept, s.system, s.snapshot)
  }

  /** Every keyed segment of a kept snapshot in `part` is listed under its own key, once. */
  ghost predicate GroupsOf(groups: map<GroupKey, seq<Segment>>, part: seq<Segment>, kept: Kept) {
    && (forall key :: key in groups ==> groups[key] != [] && DistinctTags(groups[key]))
    && (forall key, s :: key in groups && s in groups[key] ==> s in part && Grouped(kept, s) && KeyOf(s) == key)
    && (forall s :: s in part && Grouped(kept, s) ==> KeyOf(s) in groups && s in groups[KeyOf(s)])
  }

  predicate FresherSegment(a: Segment, b: Segment) {
    Older(b, a)
  }

  method GroupSegments(segments: seq<Segment>, kept: Kept) returns (groups: map<GroupKey, seq<Segment>>)
    requires DistinctTags(segments)
    ensures GroupsOf(groups, segments, kept)
  {
    groups := map[];
    assert segments[..0] == [];
    for i := 0 to |segments|
      invariant GroupsOf(groups, segments[..i], kept)
    {
      var ref := segments[i];
      assert segments[..i + 1] == segments[..i] + [ref];
      GroupNext(groups, segments[..i], kept, ref);
      if ref.packageKey == "" || !InKept(kept, ref.system, ref.snapshot) { continue; }
      groups := groups[KeyOf(ref) := (if KeyOf(ref) in groups then groups[KeyOf(ref)] else []) + [ref]];
    }
    assert segments[..|segments|] == segments;
  }

  lemma GroupNext(groups: map<GroupKey, seq<Segment>>, part: seq<Segment>, kept: Kept, ref: Segment)
    requires GroupsOf(groups, part, kept) && forall s :: s in part ==> s.tag != ref.tag
    ensures if Grouped(kept, ref)
      then GroupsOf(groups[KeyOf(ref) := (if KeyOf(ref) in groups then groups[KeyOf(ref)] else []) + [ref]], part + [ref], kept)
      else GroupsOf(groups, part + [ref], kept)
  {
    assert forall s :: s in part + [ref] <==> s in part || s == ref;
    if Grouped(kept, ref) {
      var old' := if KeyOf(ref) in groups then groups[KeyOf(ref)] else [];
      forall s ensures s in old' + [ref] <==> s in old' || s == ref {}
      forall i, j | 0 <= i < j < |old' + [ref]| ensures (old' + [ref])[i].tag != (old' + [ref])[j].tag {
        if j == |old'| { assert old'[i] in old'; }
      }
    }
  }

  /** The group in sorted order: its newest first, each one's place the number of newer ones. */
  lemma PlaceIsRank(segments: seq<Segment>, group: seq<Segment>, ranked: seq<Segment>, i: nat)
    requires DistinctTags(group) && multiset(ranked) == multiset(group) && Ordered(ranked, FresherSegment) && i < |ranked|
    requires forall t :: t in group <==> t in segments && SameGroup(t, ranked[i])
    ensures DistinctTags(ranked) && |NewerInGroup(segments, ranked[i])| == i
  {
    RankedDistinct(group, ranked);
    forall t ensures t in ranked <==> t in group { assert t in ranked <==> t in multiset(ranked); }
    forall t ensures t in NewerInGroup(segments, ranked[i]) <==> t in ranked[..i] {
      if t in ranked {
        var k :| 0 <= k < |ranked| && ranked[k] == t;
        OlderIsOrder(ranked[i], t, t);
        assert k < i ==> !FresherSegment(ranked[i], ranked[k]);
        assert k > i ==> !FresherSegment(ranked[k], ranked[i]);
        assert k == i || ranked[k].tag != ranked[i].tag;
        if t in ranked[..i] { var m :| 0 <= m < i && ranked[m] == t; assert m == k; }
      }
    }
    CountDistinct(ranked[..i], NewerInGroup(segments, ranked[i]));
  }

  lemma RankedDistinct(group: seq<Segment>, ranked: seq<Segment>)
    requires DistinctTags(group) && multiset(ranked) == multiset(group)
    ensures DistinctTags(ranked)
  {
    forall i, j | 0 <= i < j < |ranked| ensures ranked[i].tag != ranked[j].tag {
      assert ranked[i] in multiset(group) && ranked[j] in multiset(group);
      var a :| 0 <= a < |group| && group[a] == ranked[i];
      var b :| 0 <= b < |group| && group[b] == ranked[j];
      if a == b {
        TwiceInMultiset(ranked, i, j);
        SegmentOnce(group, ranked[i]);
        assert false;
      }
    }
  }

  lemma {:induction false} SegmentOnce(s: seq<Segment>, x: Segment)
    requires DistinctTags(s)
    ensures multiset(s)[x] <= 1
  {
    if s != [] {
      assert s == [s[0]] + s[1..];
      SegmentOnce(s[1..], x);
      if x == s[0] { assert x !in s[1..] by { assert forall k :: 0 <= k < |s| - 1 ==> s[1..][k] == s[k + 1]; } }
    }
  }

  lemma {:induction false} CountDistinct(s: seq<Segment>, all: set<Segment>)
    requires DistinctTags(s) && forall t :: t in all <==> t in s
    ensures |all| == |s|
  {
    if s == [] {
      assert all == {};
    } else {
      assert s[0] !in s[1..] by { assert forall k :: 0 <= k < |s| - 1 ==> s[1..][k] == s[k + 1]; }
      CountDistinct(s[1..], all - {s[0]});
    }
  }

  /** `group` lists exactly the members of one group of `segments`. */
  ghost predicate WholeGroup(segments: seq<Segment>, group: seq<Segment>) {
    && group != [] && DistinctTags(group)
    && forall s, t :: s in group ==> (t in group <==> t in segments && SameGroup(t, s))
  }

  /** The newest first; keep what lies in the window, and the first `packageKeep`. */
  method RetainGroup(ghost segments: seq<Segment>, group: seq<Segment>, window: int, packageKeep: nat) returns (tags: set<string>)
    requires WholeGroup(segments, group)
    ensures forall s :: s in group ==> (s.tag in tags <==> RetainedInGroup(segments, window, packageKeep, s))
    ensures forall tag :: tag in tags ==> exists s :: s in group && s.tag == tag
  {
    OlderWeak();
    var ranked := Sort(group, FresherSegment);
    RankedMembers(group, ranked);
    var newest := ranked[0].created;
    var cutoff := newest - window;
    tags := {};
    for index := 0 to |ranked|
      invariant tags == RetainedTags(ranked, window, packageKeep, index)
    {
      var ref := ranked[index];
      if ref.created > cutoff || index < packageKeep { tags := tags + {ref.tag}; }
    }
    forall s | s in group ensures s.tag in tags <==> RetainedInGroup(segments, window, packageKeep, s) {
      var k :| 0 <= k < |ranked| && ranked[k] == s;
      RankedRule(segments, group, ranked, k, window, packageKeep);
      RetainedTagsMean(ranked, window, packageKeep, |ranked|, s.tag);
    }
    forall tag | tag in tags ensures exists s :: s in group && s.tag == tag {
      RetainedTagsMean(ranked, window, packageKeep, |ranked|, tag);
      var k :| 0 <= k < |ranked| && ranked[k].tag == tag;
      assert ranked[k] in group;
    }
  }

  predicate KeepsPlace(ranked: seq<Segment>, window: int, packageKeep: nat, i: nat)
    requires i < |ranked|
  {
    ranked[i].created > ranked[0].created - window || i < packageKeep
  }

  function RetainedTags(ranked: seq<Segment>, window: int, packageKeep: nat, n: nat): set<string>
    requires n <= |ranked|
  {
    if n == 0 then {}
    else
      RetainedTags(ranked, window, packageKeep, n - 1) +
      if KeepsPlace(ranked, window, packageKeep, n - 1) then {ranked[n - 1].tag} else {}
  }

  lemma {:induction false} RetainedTagsMean(ranked: seq<Segment>, window: int, packageKeep: nat, n: nat, tag: string)
    requires n <= |ranked|
    ensures tag in RetainedTags(ranked, window, packageKeep, n) <==>
      exists k :: 0 <= k < n && ranked[k].tag == tag && KeepsPlace(ranked, window, packageKeep, k)
  {
    if n > 0 { RetainedTagsMean(ranked, window, packageKeep, n - 1, tag); }
  }

  lemma RankedMembers(group: seq<Segment>, ranked: seq<Segment>)
    requires DistinctTags(group) && multiset(ranked) == multiset(group)
    ensures DistinctTags(ranked) && |ranked| == |group| && forall t :: t in ranked <==> t in group
  {
    RankedDistinct(group, ranked);
    assert |ranked| == |multiset(ranked)| == |multiset(group)| == |group|;
    forall t ensures t in ranked <==> t in group { assert t in ranked <==> t in multiset(ranked); }
  }

  lemma OlderWeak()
    ensures WeakOrder(FresherSegment)
  {
    forall a: Segment, b: Segment | FresherSegment(a, b) ensures !FresherSegment(b, a) { OlderIsOrder(a, b, b); }
    forall a: Segment, b: Segment, c: Segment | FresherSegment(a, b) && !FresherSegment(c, b) ensures FresherSegment(a, c) {
      OlderNegated(a, b, c);
    }
  }

  lemma OlderNegated(a: Segment, b: Segment, c: Segment)
    requires Older(b, a) && !Older(b, c)
    ensures Older(c, a)
  {
    OlderIsOrder(b, c, a);
    OlderIsOrder(c, b, a);
    LeqTotal(b.tag, c.tag);
  }

  /** The test on place and time is the rule of the policy. */
  lemma RankedRule(segments: seq<Segment>, group: seq<Segment>, ranked: seq<Segment>, i: nat, window: int, packageKeep: nat)
    requires WholeGroup(segments, group) && multiset(ranked) == multiset(group) && Ordered(ranked, FresherSegment) && i < |ranked|
    ensures RetainedInGroup(segments, window, packageKeep, ranked[i]) <==>
      ranked[i].created > ranked[0].created - window || i < packageKeep
  {
    forall t ensures t in ranked <==> t in group { assert t in ranked <==> t in multiset(ranked); }
    assert ranked[i] in group && ranked[0] in group;
    PlaceIsRank(segments, group, ranked, i);
    forall t | t in segments && SameGroup(t, ranked[i]) ensures t.created <= ranked[0].created {
      var k :| 0 <= k < |ranked| && ranked[k] == t;
      assert k > 0 ==> !FresherSegment(ranked[k], ranked[0]);
    }
  }

  method RetainedSegmentsByPackage(segments: seq<Segment>, kept: Kept, window: int, packageKeep: nat) returns (tags: set<string>)
    requires DistinctTags(segments)
    ensures forall s :: s in segments ==>
      (s.tag in tags <==> Grouped(kept, s) && RetainedInGroup(segments, window, packageKeep, s))
  {
    var groups := GroupSegments(segments, kept);
    tags := {};
    var rest := groups.Keys;
    while rest != {}
      invariant rest <= groups.Keys
      invariant forall key, s :: key in groups.Keys - rest && s in groups[key] ==>
        (s.tag in tags <==> RetainedInGroup(segments, window, packageKeep, s))
      invariant forall tag :: tag in tags ==> exists key, s :: key in groups.Keys - rest && s in groups[key] && s.tag == tag
      decreases rest
    {
      var key :| key in rest;
      GroupIsWhole(groups, segments, kept, key);
      var retained := RetainGroup(segments, groups[key], window, packageKeep);
      TagsApart(groups, segments, kept, groups.Keys - rest, key, tags, retained);
      tags := tags + retained;
      rest := rest - {key};
    }
    forall s | s in segments ensures s.tag in tags <==> Grouped(kept, s) && RetainedInGroup(segments, window, packageKeep, s) {
      TagDecides(groups, segments, kept, tags, s);
    }
  }

  lemma GroupIsWhole(groups: map<GroupKey, seq<Segment>>, segments: seq<Segment>, kept: Kept, key: GroupKey)
    requires GroupsOf(groups, segments, kept) && key in groups
    ensures WholeGroup(segments, groups[key])
  {
    forall s, t | s in groups[key] ensures t in groups[key] <==> t in segments && SameGroup(t, s) {
      assert KeyOf(s) == key;
    }
  }

  /** Segments with equal tags are the same segment, and lie in the same group. */
  lemma SameTagSameSegment(segments: seq<Segment>, s: Segment, t: Segment)
    requires DistinctTags(segments) && s in segments && t in segments && s.tag == t.tag
    ensures s == t
  {
    var i :| 0 <= i < |segments| && segments[i] == s;
    var j :| 0 <= j < |segments| && segments[j] == t;
    assert i == j;
  }

  lemma TagsApart(groups: map<GroupKey, seq<Segment>>, segments: seq<Segment>, kept: Kept, done: set<GroupKey>, key: GroupKey,
                  tags: set<string>, retained: set<string>)
    requires DistinctTags(segments) && GroupsOf(groups, segments, kept) && done <= groups.Keys && key in groups && key !in done
    requires forall tag :: tag in tags ==> exists k, s :: k in done && s in groups[k] && s.tag == tag
    requires forall tag :: tag in retained ==> exists s :: s in groups[key] && s.tag == tag
    ensures forall s :: s in groups[key] ==> s.tag !in tags
    ensures forall k, s :: k in done && s in groups[k] ==> s.tag !in retained
  {
    forall s | s in groups[key] && s.tag in tags ensures false {
      var k, t :| k in done && t in groups[k] && t.tag == s.tag;
      SameTagSameSegment(segments, s, t);
    }
    forall k, s | k in done && s in groups[k] && s.tag in retained ensures false {
      var t :| t in groups[key] && t.tag == s.tag;
      SameTagSameSegment(segments, s, t);
    }
  }

  lemma TagDecides(groups: map<GroupKey, seq<Segment>>, segments: seq<Segment>, kept: Kept, tags: set<string>, s: Segment)
    requires DistinctTags(segments) && GroupsOf(groups, segments, kept) && s in segments
    requires forall tag :: tag in tags ==> exists key, t :: key in groups.Keys && t in groups[key] && t.tag == tag
    ensures s.tag in tags ==> Grouped(kept, s) && KeyOf(s) in groups && s in groups[KeyOf(s)]
    ensures Grouped(kept, s) ==> KeyOf(s) in groups && s in groups[KeyOf(s)]
  {
    if s.tag in tags {
      var key, t :| key in groups.Keys && t in groups[key] && t.tag == s.tag;
      SameTagSameSegment(segments, s, t);
    }
  }

  // ----- segmentsToDelete -----

  const NANOS_PER_DAY: nat := 86_400_000_000_000

  /** What the prune deletes, in input order, and how many segments it retains; `kept` is
      the choice of snapshots it made. */
  method SegmentsToDelete(segments: seq<Segment>, keep: nat, retainDays: nat, packageKeep: nat)
    returns (toDelete: seq<Segment>, retained: nat, ghost kept: Kept)
    requires DistinctTags(segments)
    ensures KeepsNewest(segments, keep, kept)
    ensures toDelete == Deleted(segments, kept, retainDays * NANOS_PER_DAY, packageKeep, segments)
    ensures retained == |Remaining(segments, kept, retainDays * NANOS_PER_DAY, packageKeep, segments)|
  {
    var window := retainDays * NANOS_PER_DAY;
    var snapshots := KeptSnapshots(segments, keep);
    kept := snapshots;
    var tags := RetainedSegmentsByPackage(segments, snapshots, window, packageKeep);
    toDelete, retained := Select(segments, snapshots, tags, window, packageKeep);
  }

  /** The tags decide for the keyed segments, their snapshot alone for the others. */
  method Select(segments: seq<Segment>, kept: Kept, tags: set<string>, ghost window: int, ghost packageKeep: nat)
    returns (toDelete: seq<Segment>, retained: nat)
    requires forall s :: s in segments ==>
      (s.tag in tags <==> Grouped(kept, s) && RetainedInGroup(segments, window, packageKeep, s))
    ensures toDelete == Deleted(segments, kept, window, packageKeep, segments)
    ensures retained == |Remaining(segments, kept, window, packageKeep, segments)|
  {
    toDelete, retained := [], 0;
    for i := 0 to |segments|
      invariant toDelete == Deleted(segments, kept, window, packageKeep, segments[..i])
      invariant retained == |Remaining(segments, kept, window, packageKeep, segments[..i])|
    {
      var ref := segments[i];
      assert segments[..i + 1][..i] == segments[..i] && segments[..i + 1][i] == ref;
      assert Retained(segments, kept, window, packageKeep, ref) <==>
        InKept(kept, ref.system, ref.snapshot) && (ref.packageKey == "" || ref.tag in tags);
      if InKept(kept, ref.system, ref.snapshot) && (ref.packageKey == "" || ref.tag in tags) {
        retained := retained + 1;
        continue;
      }
      toDelete := toDelete + [ref];
    }
    assert segments[..|segments|] == segments;
  }
}
