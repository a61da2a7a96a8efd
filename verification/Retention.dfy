/** What a prune keeps and what it asks the registry to delete (cmd/nixcache/prune.go). */
module Retention {
  import opened FileTree
  import opened Order
  import opened Segments
  import opened Prune
  import opened Pruner
  import opened Deletions

  // ----- which snapshots are kept -----

  /** Some segment of the snapshot x is newer than every segment of y. */
  ghost predicate NewerSnapshot(segments: seq<Segment>, system: string, x: string, y: string) {
    exists s :: s in segments && s.system == system && s.snapshot == x &&
      forall t :: t in segments && t.system == system && t.snapshot == y ==> t.created < s.created
  }

  /** The other dated snapshots of the system that are newer. */
  ghost function NewerSnapshots(segments: seq<Segment>, system: string, y: string): set<string> {
    set x | x in Snapshots(segments, system) && NewerSnapshot(segments, system, x, y)
  }

  /** The other dated snapshots of the system that are not older. */
  ghost function NotOlderSnapshots(segments: seq<Segment>, system: string, y: string): set<string> {
    set x | x in Snapshots(segments, system) && x != y && !NewerSnapshot(segments, system, y, x)
  }

  lemma {:induction false} HasNewest(segments: seq<Segment>, system: string, x: string, s: Segment) returns (t: int)
    requires s in segments && s.system == system && s.snapshot == x
    ensures NewestTime(segments, system, x, t)
    decreases |segments|
  {
    var init, last := segments[..|segments| - 1], segments[|segments| - 1];
    assert segments == init + [last];
    if exists u :: u in init && u.system == system && u.snapshot == x {
      var u :| u in init && u.system == system && u.snapshot == x;
      t := HasNewest(init, system, x, u);
      var v :| v in init && v.system == system && v.snapshot == x && v.created == t;
      assert v in segments;
      if last.system == system && last.snapshot == x && last.created > t { t := last.created; }
    } else {
      t := last.created;
    }
  }

  /** Of two dated snapshots one is at least as new exactly when the other is not newer. */
  lemma AsNewMeans(segments: seq<Segment>, system: string, a: string, b: string)
    requires a in Snapshots(segments, system) && b in Snapshots(segments, system)
    ensures AsNew(segments, system, a, b) <==> !NewerSnapshot(segments, system, b, a)
  {
    var s :| s in segments && s.system == system && s.created > 0 && s.snapshot == a;
    var u :| u in segments && u.system == system && u.created > 0 && u.snapshot == b;
    var ta := HasNewest(segments, system, a, s);
    var tb := HasNewest(segments, system, b, u);
    if AsNew(segments, system, a, b) {
      assert ta >= tb;
      var n :| n in segments && n.system == system && n.snapshot == a && n.created == ta;
    } else {
      var n :| n in segments && n.system == system && n.snapshot == b && n.created == tb;
    }
  }

  lemma ChosenAreNewest(segments: seq<Segment>, keep: nat, system: string, chosen: set<string>, y: string)
    requires KeepsNewestOf(segments, keep, system, chosen) && y in Snapshots(segments, system)
    ensures y !in chosen ==> chosen <= NotOlderSnapshots(segments, system, y)
    ensures y in chosen ==> NewerSnapshots(segments, system, y) <= chosen - {y}
  {
    if y !in chosen {
      forall x | x in chosen ensures x in NotOlderSnapshots(segments, system, y) { AsNewMeans(segments, system, x, y); }
    } else {
      forall x | x in NewerSnapshots(segments, system, y) ensures x in chosen {
        AsNewMeans(segments, system, y, x);
      }
    }
  }

  lemma ChosenByRank(segments: seq<Segment>, keep: nat, system: string, chosen: set<string>, y: string)
    requires KeepsNewestOf(segments, keep, system, chosen) && y in Snapshots(segments, system)
    ensures |NotOlderSnapshots(segments, system, y)| < keep ==> y in chosen
    ensures |NewerSnapshots(segments, system, y)| >= keep ==> y !in chosen
  {
    ChosenAreNewest(segments, keep, system, chosen, y);
    if y !in chosen {
      SubsetCard(chosen, NotOlderSnapshots(segments, system, y));
      SubsetCard(chosen, Snapshots(segments, system));
    } else {
      SubsetCard(NewerSnapshots(segments, system, y), chosen - {y});
    }
  }

  /** A dated snapshot is kept if fewer than `keep` others of its system are at least as new,
      and dropped if `keep` are newer; only between snapshots that tie is there a choice. */
  lemma KeptByRank(segments: seq<Segment>, keep: nat, kept: Kept, system: string, y: string)
    requires KeepsNewest(segments, keep, kept) && y in Snapshots(segments, system)
    ensures |NotOlderSnapshots(segments, system, y)| < keep ==> InKept(kept, system, y)
    ensures |NewerSnapshots(segments, system, y)| >= keep ==> !InKept(kept, system, y)
  {
    var s :| s in segments && s.system == system && s.created > 0 && s.snapshot == y;
    assert KeepsNewestOf(segments, keep, system, kept[system]);
    ChosenByRank(segments, keep, system, kept[system], y);
  }

  // ----- what becomes of a group -----

  /** The segments of s's group that the policy leaves. */
  ghost function Left(segments: seq<Segment>, kept: Kept, window: int, packageKeep: nat, s: Segment): set<Segment> {
    set t | t in Remaining(segments, kept, window, packageKeep, segments) && SameGroup(t, s)
  }

  /** Created later, or at the same time under a greater tag. */
  predicate LaterThan(b: Segment, a: Segment) {
    b.created > a.created || (b.created == a.created && Less(a.tag, b.tag))
  }

  lemma LeftIsRetained(segments: seq<Segment>, kept: Kept, window: int, packageKeep: nat, s: Segment)
    requires InKept(kept, s.system, s.snapshot) && s.packageKey != ""
    ensures Left(segments, kept, window, packageKeep, s) == RetainedOf(segments, window, packageKeep, s)
  {}

  /** Nothing is left of a group whose snapshot is dropped; where the snapshot is kept,
      segments without a package key all stay, and of a keyed group the newest do, as many as
      lie in the window but at least `packageKeep`. */
  lemma GroupLeft(segments: seq<Segment>, kept: Kept, window: int, packageKeep: nat, s: Segment)
    requires DistinctTags(segments) && s in segments
    ensures var group, left := Group(segments, s), Left(segments, kept, window, packageKeep, s);
      if !InKept(kept, s.system, s.snapshot) then left == {}
      else if s.packageKey == "" then left == group
      else
        && left <= group && |left| == Max(Min(packageKeep, |group|), |InWindow(group, window)|)
        && forall a, b :: a in left && b in group && LaterThan(b, a) ==> b in left
  {
    var left := Left(segments, kept, window, packageKeep, s);
    if InKept(kept, s.system, s.snapshot) && s.packageKey != "" {
      GroupRetention(segments, window, packageKeep, s);
      LeftIsRetained(segments, kept, window, packageKeep, s);
      var group := Group(segments, s);
      forall a, b | a in left && b in group && LaterThan(b, a) ensures b in left { assert Older(a, b); }
    }
  }

  // ----- the command -----

  lemma NothingKept(segments: seq<Segment>, keep: nat)
    requires segments == []
    ensures KeepsNewest(segments, keep, map[])
  {}

  /** The versions of what is to go, unless it is a dry run or there is nothing. */
  function Requests(gone: seq<Segment>, dryRun: bool, versionByTag: map<string, int>): Result<seq<int>> {
    if dryRun || gone == [] then Ok([])
    else match VersionIDs(gone, versionByTag)
      case None => Err
      case Some(ids) => Ok(ids)
  }

  /** pruneCache: the versions it asks the registry to delete, in order, or an error before
      it asks for anything. */
  method PruneCache(segments: seq<Segment>, keep: int, retainDays: int, packageKeep: int, dryRun: bool, versionByTag: map<string, int>)
    returns (r: Result<seq<int>>, ghost kept: Kept)
    requires DistinctTags(segments)
    ensures if keep < 1 || retainDays < 0 || packageKeep < 1 then r.Err?
      else
        && KeepsNewest(segments, keep, kept)
        && r == Requests(Deleted(segments, kept, retainDays * (24 * 60 * 60 * 1_000_000_000), packageKeep, segments), dryRun, versionByTag)
  {
    kept := map[];
    if keep < 1 || retainDays < 0 || packageKeep < 1 { return Err, kept; }
    if |segments| == 0 {
      NothingKept(segments, keep);
      return Ok([]), kept;
    }
    var toDelete, retained;
    toDelete, retained, kept := SegmentsToDelete(segments, keep, retainDays, packageKeep);
    assert NANOS_PER_DAY == 24 * 60 * 60 * 1_000_000_000;
    if dryRun || |toDelete| == 0 { return Ok([]), kept; }
    var ids := LookUp(toDelete, versionByTag);
    if ids.None? { return Err, kept; }
    r := Ok(ids.value);
  }
}
