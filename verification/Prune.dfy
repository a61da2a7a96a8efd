/** The retention policy (cmd/nixcache/prune.go): which segments a prune deletes. */
module Prune {
  import opened Segments

  // ----- the policy, stated on the set of segments -----

  function Snapshots(segments: seq<Segment>, system: string): set<string> {
    set s | s in segments && s.system == system && s.created > 0 :: s.snapshot
  }

  ghost predicate HasTime(segments: seq<Segment>, system: string, snapshot: string, t: int) {
    exists s :: s in segments && s.system == system && s.snapshot == snapshot && s.created == t
  }

  /** t is the time of the snapshot's newest segment. */
  ghost predicate NewestTime(segments: seq<Segment>, system: string, snapshot: string, t: int) {
    && HasTime(segments, system, snapshot, t)
    && forall s :: s in segments && s.system == system && s.snapshot == snapshot ==> s.created <= t
  }

  /** The snapshot a is at least as new as b. */
  ghost predicate AsNew(segments: seq<Segment>, system: string, a: string, b: string) {
    forall t, t' :: NewestTime(segments, system, a, t) && NewestTime(segments, system, b, t') ==> t >= t'
  }

  type Kept = map<string, set<string>>

  predicate InKept(kept: Kept, system: string, snapshot: string) {
    system in kept && snapshot in kept[system]
  }

  /** A possible choice of kept snapshots: per system as many as allowed, none older than
      one that is dropped. Snapshots that tie may be chosen either way. */
  ghost predicate KeepsNewest(segments: seq<Segment>, keep: nat, kept: Kept) {
    && (forall system :: system in kept <==> exists s :: s in segments && s.system == system)
    && (forall system :: system in kept ==> KeepsNewestOf(segments, keep, system, kept[system]))
  }

  ghost predicate KeepsNewestOf(segments: seq<Segment>, keep: nat, system: string, chosen: set<string>) {
    var all := Snapshots(segments, system);
    && chosen <= all
    && |chosen| == (if |all| < keep then |all| else keep)
    && (forall a, b :: a in chosen && b in all - chosen ==> AsNew(segments, system, a, b))
  }

  predicate SameGroup(a: Segment, b: Segment) {
    a.system == b.system && a.snapshot == b.snapshot && a.packageKey == b.packageKey
  }

  /** The segments of the group that are newer than `s`. */
  function NewerInGroup(segments: seq<Segment>, s: Segment): set<Segment> {
    set t | t in segments && SameGroup(t, s) && Older(s, t)
  }

  /** Newer than the group's newest time less the window, or among its newest `packageKeep`. */
  ghost predicate RetainedInGroup(segments: seq<Segment>, window: int, packageKeep: nat, s: Segment) {
    || |NewerInGroup(segments, s)| < packageKeep
    || forall t :: t in segments && SameGroup(t, s) ==> s.created > t.created - window
  }

  ghost predicate Retained(segments: seq<Segment>, kept: Kept, window: int, packageKeep: nat, s: Segment) {
    InKept(kept, s.system, s.snapshot) && (s.packageKey == "" || RetainedInGroup(segments, window, packageKeep, s))
  }

  // ----- ranks within a group -----

  function Group(segments: seq<Segment>, s: Segment): set<Segment> {
    set t | t in segments && SameGroup(t, s)
  }

  function NewerIn(group: set<Segment>, s: Segment): set<Segment> {
    set t | t in group && Older(s, t)
  }

  ghost predicate DifferentTags(group: set<Segment>) {
    forall a, b :: a in group && b in group && a != b ==> a.tag != b.tag
  }

  /** The newest segments of a group that the fallback keeps. */
  function TopOf(group: set<Segment>, k: nat): set<Segment> {
    set s | s in group && |NewerIn(group, s)| < k
  }

  lemma {:induction false} OldestOf(group: set<Segment>) returns (o: Segment)
    requires group != {} && DifferentTags(group)
    ensures o in group && forall t :: t in group && t != o ==> Older(o, t)
    decreases |group|
  {
    var x :| x in group;
    var rest := group - {x};
    assert group == {x} + rest;
    o := x;
    if rest != {} {
      var m := OldestOf(rest);
      OlderIsOrder(x, m, x);
      assert x != m && x.tag != m.tag;
      if Older(m, x) { o := m; }
      forall t | t in group && t != o ensures Older(o, t) {
        if t != x && t != m { OlderIsOrder(x, m, t); }
      }
    }
  }

  /** Taking away the oldest leaves every other segment's newer ones as they are. */
  lemma WithoutOldest(group: set<Segment>, o: Segment, k: nat)
    requires o in group && forall t :: t in group && t != o ==> Older(o, t)
    ensures NewerIn(group, o) == group - {o}
    ensures TopOf(group, k) == TopOf(group - {o}, k) + if |group| - 1 < k then {o} else {}
  {
    var rest := group - {o};
    OlderIsOrder(o, o, o);
    assert NewerIn(group, o) == rest;
    assert |group| == |rest| + 1;
    forall s | s in rest ensures NewerIn(group, s) == NewerIn(rest, s) { OlderIsOrder(o, s, o); }
    var top := TopOf(rest, k) + if |rest| < k then {o} else {};
    forall s ensures s in TopOf(group, k) <==> s in top {
      if s in rest { assert NewerIn(group, s) == NewerIn(rest, s); }
    }
  }

  /** Exactly min(k, n) segments of a group of n have fewer than k newer ones. */
  lemma {:induction false} TopCount(group: set<Segment>, k: nat)
    requires DifferentTags(group)
    ensures |TopOf(group, k)| == Min(k, |group|)
    decreases |group|
  {
    if group == {} {
      assert TopOf(group, k) == {};
    } else {
      var o := OldestOf(group);
      TopCount(group - {o}, k);
      WithoutOldest(group, o, k);
      assert o !in TopOf(group - {o}, k);
    }
  }

  /** A newer segment has fewer newer ones. */
  lemma NewerRanksHigher(group: set<Segment>, a: Segment, b: Segment)
    requires b in group && Older(a, b)
    ensures NewerIn(group, b) < NewerIn(group, a)
  {
    forall t | t in NewerIn(group, b) ensures t in NewerIn(group, a) { OlderIsOrder(a, b, t); }
    OlderIsOrder(b, b, b);
    assert b in NewerIn(group, a) && b !in NewerIn(group, b);
  }

  lemma {:induction false} SubsetCard<T>(a: set<T>, b: set<T>)
    requires a <= b
    ensures |a| <= |b| && (a != b ==> |a| < |b|)
  {
    assert b == a + (b - a);
  }

  /** The segments of a group that fall into the time window. */
  function InWindow(group: set<Segment>, window: int): set<Segment> {
    set s | s in group && forall t :: t in group ==> s.created > t.created - window
  }

  function Max(a: nat, b: nat): nat {
    if a < b then b else a
  }

  function Min(a: nat, b: nat): nat {
    if a < b then a else b
  }

  ghost function RetainedOf(segments: seq<Segment>, window: int, packageKeep: nat, s: Segment): set<Segment> {
    set t | t in Group(segments, s) && RetainedInGroup(segments, window, packageKeep, t)
  }

  lemma GroupOf(segments: seq<Segment>, s: Segment, t: Segment)
    requires t in Group(segments, s)
    ensures Group(segments, t) == Group(segments, s)
    ensures NewerInGroup(segments, t) == NewerIn(Group(segments, s), t)
  {}

  lemma TopIsClosed(group: set<Segment>, k: nat, a: Segment, b: Segment)
    requires a in TopOf(group, k) && b in group && Older(a, b)
    ensures b in TopOf(group, k)
  {
    NewerRanksHigher(group, a, b);
    SubsetCard(NewerIn(group, b), NewerIn(group, a));
  }

  lemma WindowIsClosed(group: set<Segment>, window: int, a: Segment, b: Segment)
    requires a in InWindow(group, window) && b in group && Older(a, b)
    ensures b in InWindow(group, window)
  {}

  lemma RetainedIsUnion(segments: seq<Segment>, window: int, packageKeep: nat, s: Segment)
    ensures RetainedOf(segments, window, packageKeep, s) ==
      TopOf(Group(segments, s), packageKeep) + InWindow(Group(segments, s), window)
  {
    var group := Group(segments, s);
    forall t | t in group
      ensures t in RetainedOf(segments, window, packageKeep, s) <==> t in TopOf(group, packageKeep) || t in InWindow(group, window)
    {
      GroupOf(segments, s, t);
    }
  }

  /** In a group of n segments the policy retains exactly the max(min(packageKeep, n), w)
      newest, where w of them lie in the time window. */
  lemma GroupRetention(segments: seq<Segment>, window: int, packageKeep: nat, s: Segment)
    requires DistinctTags(segments)
    ensures var group := Group(segments, s);
      var kept := RetainedOf(segments, window, packageKeep, s);
      && |kept| == Max(Min(packageKeep, |group|), |InWindow(group, window)|)
      && (forall a, b :: a in kept && b in group && Older(a, b) ==> b in kept)
  {
    var group := Group(segments, s);
    var top, recent := TopOf(group, packageKeep), InWindow(group, window);
    RetainedIsUnion(segments, window, packageKeep, s);
    forall a, b | a in group && b in group && Older(a, b)
      ensures a in top ==> b in top
      ensures a in recent ==> b in recent
    {
      if a in top { TopIsClosed(group, packageKeep, a, b); }
      if a in recent { WindowIsClosed(group, window, a, b); }
    }
    TopCount(group, packageKeep);
    Nested(group, top, recent);
    LargerUnion(top, recent);
  }

  lemma LargerUnion(a: set<Segment>, b: set<Segment>)
    requires a <= b || b <= a
    ensures |a + b| == Max(|a|, |b|)
  {
    if a <= b {
      SubsetCard(a, b);
      assert a + b == b;
    } else {
      SubsetCard(b, a);
      assert a + b == a;
    }
  }

  /** Of two sets closed under newer segments one contains the other. */
  lemma Nested(group: set<Segment>, a: set<Segment>, b: set<Segment>)
    requires DifferentTags(group) && a <= group && b <= group
    requires forall x, y :: x in a && y in group && Older(x, y) ==> y in a
    requires forall x, y :: x in b && y in group && Older(x, y) ==> y in b
    ensures a <= b || b <= a
  {
    if !(a <= b) && !(b <= a) {
      var x :| x in a && x !in b;
      var y :| y in b && y !in a;
      OlderIsOrder(x, y, x);
      assert false;
    }
  }

  // ----- what is deleted and what remains -----

  /** The segments of `part` that the policy for `all` retains. */
  ghost function Remaining(all: seq<Segment>, kept: Kept, window: int, packageKeep: nat, part: seq<Segment>): (r: seq<Segment>)
    ensures forall s :: s in r <==> s in part && Retained(all, kept, window, packageKeep, s)
  {
    if part == [] then []
    else
      var init, last := part[..|part| - 1], part[|part| - 1];
      assert part == init + [last];
      var r := Remaining(all, kept, window, packageKeep, init);
      if Retained(all, kept, window, packageKeep, last) then r + [last] else r
  }

  ghost function Deleted(all: seq<Segment>, kept: Kept, window: int, packageKeep: nat, part: seq<Segment>): (r: seq<Segment>)
    ensures forall s :: s in r <==> s in part && !Retained(all, kept, window, packageKeep, s)
  {
    if part == [] then []
    else
      var init, last := part[..|part| - 1], part[|part| - 1];
      assert part == init + [last];
      var r := Deleted(all, kept, window, packageKeep, init);
      if Retained(all, kept, window, packageKeep, last) then r else r + [last]
  }

  /** Deleted and remaining segments together are the input, each once. */
  lemma {:induction false} Partition(all: seq<Segment>, kept: Kept, window: int, packageKeep: nat, part: seq<Segment>)
    ensures var gone, left := Deleted(all, kept, window, packageKeep, part), Remaining(all, kept, window, packageKeep, part);
      multiset(gone) + multiset(left) == multiset(part) && |gone| + |left| == |part|
  {
    if part != [] {
      var init, last := part[..|part| - 1], part[|part| - 1];
      Partition(all, kept, window, packageKeep, init);
      assert part == init + [last];
    }
  }

  /** The segments to delete come in the order of the input. */
  lemma {:induction false} DeletedInOrder(all: seq<Segment>, kept: Kept, window: int, packageKeep: nat, part: seq<Segment>, i: nat, j: nat)
    returns (a: nat, b: nat)
    requires i < j < |Deleted(all, kept, window, packageKeep, part)|
    ensures var gone := Deleted(all, kept, window, packageKeep, part);
      a < b < |part| && part[a] == gone[i] && part[b] == gone[j]
    decreases |part|
  {
    var init, last := part[..|part| - 1], part[|part| - 1];
    var before := Deleted(all, kept, window, packageKeep, init);
    if j < |before| {
      a, b := DeletedInOrder(all, kept, window, packageKeep, init, i, j);
    } else {
      assert before[i] in before && before[i] in init;
      a :| 0 <= a < |init| && init[a] == before[i];
      b := |part| - 1;
    }
  }

  /** A snapshot none of whose segments is dated after the epoch is never kept. */
  lemma UndatedIsDeleted(segments: seq<Segment>, keep: nat, kept: Kept, window: int, packageKeep: nat, s: Segment)
    requires KeepsNewest(segments, keep, kept) && s in segments
    requires forall t :: t in segments && t.system == s.system && t.snapshot == s.snapshot ==> t.created <= 0
    ensures s in Deleted(segments, kept, window, packageKeep, segments)
  {
    assert KeepsNewestOf(segments, keep, s.system, kept[s.system]);
    assert s.snapshot !in Snapshots(segments, s.system);
  }

  // ----- pruning twice -----

  lemma {:induction false} NewestIn(group: set<Segment>, s: Segment) returns (n: Segment)
    requires s in group
    ensures n in group && NewerIn(group, n) == {} && n.created >= s.created
    decreases NewerIn(group, s)
  {
    if NewerIn(group, s) == {} {
      n := s;
    } else {
      var t :| t in NewerIn(group, s);
      NewerRanksHigher(group, s, t);
      n := NewestIn(group, t);
    }
  }

  /** A kept snapshot keeps a segment at least as new as any of its segments. */
  lemma NewestStays(segments: seq<Segment>, kept: Kept, window: int, packageKeep: nat, s: Segment) returns (n: Segment)
    requires s in segments && InKept(kept, s.system, s.snapshot) && packageKeep >= 1
    ensures n in Remaining(segments, kept, window, packageKeep, segments)
    ensures n.system == s.system && n.snapshot == s.snapshot && n.created >= s.created
  {
    n := s;
    if s.packageKey != "" {
      n := NewestIn(Group(segments, s), s);
      GroupOf(segments, s, n);
    }
  }

  lemma SameSnapshots(segments: seq<Segment>, kept: Kept, keep: nat, window: int, packageKeep: nat, system: string)
    requires KeepsNewest(segments, keep, kept) && packageKeep >= 1 && system in kept
    ensures Snapshots(Remaining(segments, kept, window, packageKeep, segments), system) == kept[system]
  {
    var left := Remaining(segments, kept, window, packageKeep, segments);
    assert KeepsNewestOf(segments, keep, system, kept[system]);
    forall x | x in kept[system] ensures x in Snapshots(left, system) {
      var s :| s in segments && s.system == system && s.created > 0 && s.snapshot == x;
      var n := NewestStays(segments, kept, window, packageKeep, s);
    }
  }

  /** Running the policy on what it retained deletes nothing, however snapshots that tie
      in time are chosen on either run. */
  lemma PruneAgain(segments: seq<Segment>, keep: nat, window: int, packageKeep: nat, kept: Kept, kept': Kept)
    requires KeepsNewest(segments, keep, kept) && packageKeep >= 1
    requires KeepsNewest(Remaining(segments, kept, window, packageKeep, segments), keep, kept')
    ensures var left := Remaining(segments, kept, window, packageKeep, segments);
      Deleted(left, kept', window, packageKeep, left) == []
  {
    var left := Remaining(segments, kept, window, packageKeep, segments);
    var gone := Deleted(left, kept', window, packageKeep, left);
    assert gone != [] ==> gone[0] in gone;
    forall s | s in left ensures Retained(left, kept', window, packageKeep, s) {
      StillKept(segments, keep, window, packageKeep, kept, kept', s);
      SubsetCard(NewerInGroup(left, s), NewerInGroup(segments, s));
    }
  }

  lemma StillKept(segments: seq<Segment>, keep: nat, window: int, packageKeep: nat, kept: Kept, kept': Kept, s: Segment)
    requires KeepsNewest(segments, keep, kept) && packageKeep >= 1
    requires KeepsNewest(Remaining(segments, kept, window, packageKeep, segments), keep, kept')
    requires s in Remaining(segments, kept, window, packageKeep, segments)
    ensures InKept(kept', s.system, s.snapshot)
  {
    var left := Remaining(segments, kept, window, packageKeep, segments);
    SameSnapshots(segments, kept, keep, window, packageKeep, s.system);
    var all := Snapshots(left, s.system);
    assert KeepsNewestOf(segments, keep, s.system, kept[s.system]);
    assert KeepsNewestOf(left, keep, s.system, kept'[s.system]);
    SubsetCard(kept'[s.system], all);
  }
}
