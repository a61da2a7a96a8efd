/** deleteVersions (cmd/nixcache/prune.go): a batch of deletions, a few at a time, with
    the requests finishing in any order and the first error stopping the rest. */
module Deletions {
  import opened Options
  import opened Segments
  import opened Prune

  const CONCURRENCY: nat := 8

  /** Every tag's version, or None at the first tag that has none. */
  function VersionIDs(toDelete: seq<Segment>, versionByTag: map<string, int>): (r: Option<seq<int>>)
    ensures r.Some? <==> forall s :: s in toDelete ==> s.tag in versionByTag
    ensures r.Some? ==> |r.value| == |toDelete| && forall i :: 0 <= i < |toDelete| ==> r.value[i] == versionByTag[toDelete[i].tag]
  {
    if toDelete == [] then Some([])
    else
      var init, last := toDelete[..|toDelete| - 1], toDelete[|toDelete| - 1];
      assert toDelete == init + [last];
      var rest := VersionIDs(init, versionByTag);
      if rest.None? || last.tag !in versionByTag then None else Some(rest.value + [versionByTag[last.tag]])
  }

  /** The loop that looks up all the versions before the first request is sent. */
  method LookUp(toDelete: seq<Segment>, versionByTag: map<string, int>) returns (r: Option<seq<int>>)
    ensures r == VersionIDs(toDelete, versionByTag)
  {
    var ids: seq<int> := [];
    for index := 0 to |toDelete|
      invariant |ids| == index
      invariant forall i :: 0 <= i < index ==> toDelete[i].tag in versionByTag && ids[i] == versionByTag[toDelete[i].tag]
    {
      if toDelete[index].tag !in versionByTag {
        assert toDelete[index] in toDelete;
        return None;
      }
      ids := ids + [versionByTag[toDelete[index].tag]];
    }
    assert ids == VersionIDs(toDelete, versionByTag).value;
    return Some(ids);
  }

  // ----- the batch as a state machine -----

  /** A goroutine not launched yet; launched; past the test of the context; with its request
      sent; and how it ended. An error that has not yet reached the group is Failing. */
  datatype Task = Queued | Launched | Passed | Deleting | Done | Failing | Failed | Refused

  /** `versions` is what the registry still holds. */
  datatype Batch = Batch(tasks: seq<Task>, launched: nat, cancelled: bool, versions: set<int>)

  datatype Move =
    | Launch
    | Check(i: nat)
    | Send(i: nat)
    | Succeed(i: nat)
    | Fail(i: nat, gone: bool)
    | Report(i: nat)
    | Interrupt

  predicate Busy(t: Task) {
    t.Launched? || t.Passed? || t.Deleting? || t.Failing?
  }

  function BusyOf(tasks: seq<Task>): set<nat> {
    set i: nat | i < |tasks| && Busy(tasks[i])
  }

  predicate Is(s: Batch, i: nat, t: Task) {
    i < |s.tasks| && s.tasks[i] == t
  }

  /** Interrupt is the caller's context being cancelled. */
  predicate CanMove(s: Batch, m: Move) {
    match m
    case Launch => s.launched < |s.tasks| && |BusyOf(s.tasks)| < CONCURRENCY
    case Check(i) => Is(s, i, Launched)
    case Send(i) => Is(s, i, Passed)
    case Succeed(i) => Is(s, i, Deleting)
    case Fail(i, _) => Is(s, i, Deleting)
    case Report(i) => Is(s, i, Failing)
    case Interrupt => !s.cancelled
  }

  /** A request that fails may still have deleted the version. */
  function Moved(ids: seq<int>, s: Batch, m: Move): Batch
    requires |ids| == |s.tasks| && CanMove(s, m)
  {
    match m
    case Launch => s.(tasks := s.tasks[s.launched := Launched], launched := s.launched + 1)
    case Check(i) => s.(tasks := s.tasks[i := if s.cancelled then Refused else Passed])
    case Send(i) => s.(tasks := s.tasks[i := Deleting])
    case Succeed(i) => s.(tasks := s.tasks[i := Done], versions := s.versions - {ids[i]})
    case Fail(i, gone) => s.(tasks := s.tasks[i := Failing], versions := if gone then s.versions - {ids[i]} else s.versions)
    case Report(i) => s.(tasks := s.tasks[i := Failed], cancelled := true)
    case Interrupt => s.(cancelled := true)
  }

  function Started(ids: seq<int>, versions: set<int>): Batch {
    Batch(seq(|ids|, _ => Queued), 0, false, versions)
  }

  ghost predicate Runs(ids: seq<int>, s: Batch, moves: seq<Move>, s': Batch)
    decreases |moves|
  {
    if moves == [] then s' == s
    else |ids| == |s.tasks| && CanMove(s, moves[0]) && Runs(ids, Moved(ids, s, moves[0]), moves[1..], s')
  }

  predicate Sent(t: Task) {
    t.Deleting? || t.Done? || t.Failing? || t.Failed?
  }

  ghost predicate OfRequest(ids: seq<int>, s: Batch, v: int) {
    exists i: nat :: i < |ids| && i < |s.tasks| && ids[i] == v && Sent(s.tasks[i])
  }

  /** What every state of a batch keeps. */
  ghost predicate Sound(ids: seq<int>, before: set<int>, s: Batch) {
    && |s.tasks| == |ids| && s.launched <= |ids|
    && (forall i: nat :: i < |ids| ==> (s.tasks[i].Queued? <==> s.launched <= i))
    && |BusyOf(s.tasks)| <= CONCURRENCY
    && (forall i: nat :: i < |ids| && (s.tasks[i].Failed? || s.tasks[i].Refused?) ==> s.cancelled)
    && s.versions <= before
    && (forall v :: v in before && v !in s.versions ==> OfRequest(ids, s, v))
    && (forall i: nat :: i < |ids| && s.tasks[i].Done? ==> ids[i] !in s.versions)
  }

  lemma StartedSound(ids: seq<int>, before: set<int>)
    ensures Sound(ids, before, Started(ids, before))
  {
    assert BusyOf(Started(ids, before).tasks) == {};
  }

  /** A move changes the busy tasks by at most the one it is about. */
  lemma BusyAfter(tasks: seq<Task>, i: nat, t: Task)
    requires i < |tasks|
    ensures BusyOf(tasks[i := t]) == if Busy(t) then BusyOf(tasks) + {i} else BusyOf(tasks) - {i}
    ensures |BusyOf(tasks[i := t])| <= |BusyOf(tasks)| + (if Busy(t) && !Busy(tasks[i]) then 1 else 0)
  {
    var tasks' := tasks[i := t];
    var b, b' := BusyOf(tasks), BusyOf(tasks');
    assert forall j: nat :: j < |tasks| && j != i ==> tasks'[j] == tasks[j];
    assert b' == if Busy(t) then b + {i} else b - {i};
    if !Busy(t) { SubsetSize(b - {i}, b); }
    else if Busy(tasks[i]) { assert b + {i} == b; }
  }

  lemma {:induction false} SubsetSize(a: set<nat>, b: set<nat>)
    requires a <= b
    ensures |a| <= |b|
  {
    if a != {} {
      var x :| x in a;
      SubsetSize(a - {x}, b - {x});
    }
  }

  /** Which task a move is about, and what becomes of it. */
  function Subject(s: Batch, m: Move): (r: Option<(nat, Task)>)
    ensures CanMove(s, m) && r.Some? && s.launched <= |s.tasks| ==> r.value.0 < |s.tasks|
  {
    match m
    case Launch => Some((s.launched, Launched))
    case Check(i) => Some((i, if s.cancelled then Refused else Passed))
    case Send(i) => Some((i, Deleting))
    case Succeed(i) => Some((i, Done))
    case Fail(i, _) => Some((i, Failing))
    case Report(i) => Some((i, Failed))
    case Interrupt => None
  }

  lemma MoveKeeps(ids: seq<int>, before: set<int>, s: Batch, m: Move)
    requires Sound(ids, before, s) && CanMove(s, m)
    ensures Sound(ids, before, Moved(ids, s, m))
  {
    var s' := Moved(ids, s, m);
    var subject := Subject(s, m);
    if subject.Some? { BusyAfter(s.tasks, subject.value.0, subject.value.1); }
    forall v | v in before && v !in s'.versions ensures OfRequest(ids, s', v) {
      if v !in s.versions {
        var i: nat :| i < |ids| && ids[i] == v && Sent(s.tasks[i]);
        assert Sent(s'.tasks[i]);
      } else {
        assert Sent(s'.tasks[subject.value.0]);
      }
    }
  }

  lemma {:induction false} RunKeeps(ids: seq<int>, before: set<int>, s: Batch, moves: seq<Move>, s': Batch)
    requires Sound(ids, before, s) && Runs(ids, s, moves, s')
    ensures Sound(ids, before, s')
    decreases |moves|
  {
    if moves != [] {
      MoveKeeps(ids, before, s, moves[0]);
      RunKeeps(ids, before, Moved(ids, s, moves[0]), moves[1..], s');
    }
  }

  // ----- what Wait returns -----

  /** Wait returns once all goroutines were launched and have ended; nil if none failed. */
  predicate Finished(s: Batch) {
    s.launched == |s.tasks| && BusyOf(s.tasks) == {}
  }

  predicate ReturnsNil(s: Batch) {
    Finished(s) && forall i: nat :: i < |s.tasks| ==> !s.tasks[i].Failed? && !s.tasks[i].Refused?
  }

  ghost predicate Among(ids: seq<int>, v: int) {
    exists i: nat :: i < |ids| && ids[i] == v
  }

  /** In every interleaving: never more requests than the limit, nothing deleted that was
      not asked for, and on success everything that was. */
  lemma BatchMeans(ids: seq<int>, before: set<int>, moves: seq<Move>, s: Batch)
    requires Runs(ids, Started(ids, before), moves, s)
    ensures |BusyOf(s.tasks)| <= 8
    ensures s.versions <= before && forall v :: v in before && v !in s.versions ==> Among(ids, v)
    ensures ReturnsNil(s) ==> forall v :: v in s.versions <==> v in before && !Among(ids, v)
  {
    StartedSound(ids, before);
    RunKeeps(ids, before, Started(ids, before), moves, s);
    forall v | v in before && v !in s.versions ensures Among(ids, v) {
      var i: nat :| i < |ids| && ids[i] == v && Sent(s.tasks[i]);
    }
    if ReturnsNil(s) {
      forall i: nat | i < |ids| ensures s.tasks[i].Done? { assert i !in BusyOf(s.tasks); }
    }
  }

  function PassedOf(tasks: seq<Task>): set<nat> {
    set i: nat | i < |tasks| && tasks[i].Passed?
  }

  /** Once the context is cancelled a further request is sent only by a goroutine that was
      already past the test. */
  lemma {:induction false} NoRequestAfterCancel(ids: seq<int>, s: Batch, moves: seq<Move>, s': Batch, i: nat)
    requires s.cancelled && Runs(ids, s, moves, s') && |s.tasks| == |ids| && i < |ids| && |s'.tasks| == |ids| && s.launched <= |ids|
    requires forall j: nat :: j < |ids| ==> (s.tasks[j].Queued? <==> s.launched <= j)
    ensures Sent(s'.tasks[i]) ==> Sent(s.tasks[i]) || i in PassedOf(s.tasks)
    decreases |moves|
  {
    if moves != [] {
      NoRequestAfterCancel(ids, Moved(ids, s, moves[0]), moves[1..], s', i);
    }
  }

  /** When an error reaches the group, fewer goroutines than the limit are past the test,
      and they alone can still send a request. */
  lemma FewRequestsAfterError(ids: seq<int>, before: set<int>, s: Batch, k: nat, moves: seq<Move>, s': Batch)
    requires Sound(ids, before, s) && CanMove(s, Report(k)) && Runs(ids, Moved(ids, s, Report(k)), moves, s')
    ensures var late := PassedOf(Moved(ids, s, Report(k)).tasks);
      |s'.tasks| == |ids| && |late| < 8 && forall i: nat :: i < |ids| && Sent(s'.tasks[i]) ==> Sent(s.tasks[i]) || i in late
  {
    var s1 := Moved(ids, s, Report(k));
    MoveKeeps(ids, before, s, Report(k));
    RunKeeps(ids, before, s1, moves, s');
    var late := PassedOf(s1.tasks);
    assert k in BusyOf(s.tasks) && k !in late;
    assert late <= BusyOf(s.tasks) - {k};
    SubsetSize(late, BusyOf(s.tasks) - {k});
    forall i: nat | i < |ids| && Sent(s'.tasks[i]) ensures Sent(s.tasks[i]) || i in late {
      NoRequestAfterCancel(ids, s1, moves, s', i);
    }
  }

  // ----- every batch ends -----

  function Rank(t: Task): nat {
    match t
    case Queued => 5
    case Launched => 4
    case Passed => 3
    case Deleting => 2
    case Failing => 1
    case _ => 0
  }

  function Ranks(tasks: seq<Task>): nat {
    if tasks == [] then 0 else Ranks(tasks[..|tasks| - 1]) + Rank(tasks[|tasks| - 1])
  }

  function StepsLeft(s: Batch): nat {
    Ranks(s.tasks) + if s.cancelled then 0 else 1
  }

  lemma {:induction false} RanksUpdated(tasks: seq<Task>, i: nat, t: Task)
    requires i < |tasks|
    ensures Ranks(tasks[i := t]) == Ranks(tasks) - Rank(tasks[i]) + Rank(t)
  {
    var tasks', n := tasks[i := t], |tasks| - 1;
    if i == n {
      assert tasks'[..n] == tasks[..n];
    } else {
      assert tasks'[..n] == tasks[..n][i := t];
      RanksUpdated(tasks[..n], i, t);
    }
  }

  lemma MoveCounts(ids: seq<int>, before: set<int>, s: Batch, m: Move)
    requires Sound(ids, before, s) && CanMove(s, m)
    ensures StepsLeft(Moved(ids, s, m)) < StepsLeft(s)
  {
    var subject := Subject(s, m);
    if subject.Some? { RanksUpdated(s.tasks, subject.value.0, subject.value.1); }
  }

  lemma {:induction false} RunCounts(ids: seq<int>, before: set<int>, s: Batch, moves: seq<Move>, s': Batch)
    requires Sound(ids, before, s) && Runs(ids, s, moves, s')
    ensures |moves| + StepsLeft(s') <= StepsLeft(s)
    decreases |moves|
  {
    if moves != [] {
      MoveKeeps(ids, before, s, moves[0]);
      MoveCounts(ids, before, s, moves[0]);
      RunCounts(ids, before, Moved(ids, s, moves[0]), moves[1..], s');
    }
  }

  lemma {:induction false} StartedRanks(n: nat)
    ensures Ranks(seq(n, _ => Queued)) == 5 * n
  {
    if n > 0 {
      var tasks: seq<Task> := seq(n, _ => Queued);
      assert tasks[..n - 1] == seq(n - 1, _ => Queued);
      StartedRanks(n - 1);
    }
  }

  /** No run of a batch is longer than this, and one that has not finished can go on. */
  lemma BatchEnds(ids: seq<int>, before: set<int>, moves: seq<Move>, s: Batch)
    requires Runs(ids, Started(ids, before), moves, s)
    ensures |moves| <= 5 * |ids| + 1
    ensures !Finished(s) ==> exists m: Move :: !m.Interrupt? && CanMove(s, m)
  {
    StartedSound(ids, before);
    RunKeeps(ids, before, Started(ids, before), moves, s);
    RunCounts(ids, before, Started(ids, before), moves, s);
    StartedRanks(|ids|);
    if BusyOf(s.tasks) != {} {
      var i: nat :| i in BusyOf(s.tasks);
      assert CanMove(s, Check(i)) || CanMove(s, Send(i)) || CanMove(s, Succeed(i)) || CanMove(s, Report(i));
    } else if s.launched < |s.tasks| {
      assert CanMove(s, Launch);
    }
  }

  // ----- the batch as part of a prune -----

  /** The tag can still be pulled: the registry holds the version it belongs to. */
  predicate Available(versionByTag: map<string, int>, versions: set<int>, tag: string) {
    tag in versionByTag && versionByTag[tag] in versions
  }

  /** Some deleted segment has a tag on the same version. */
  ghost predicate SharesVersion(toDelete: seq<Segment>, versionByTag: map<string, int>, tag: string) {
    exists d :: d in toDelete && d.tag in versionByTag && tag in versionByTag && versionByTag[d.tag] == versionByTag[tag]
  }

  /** After a prune that returns nil a tag is served exactly when it was before and no
      deleted segment's tag lies on the same version: the registry deletes versions. */
  lemma AvailableAfter(toDelete: seq<Segment>, versionByTag: map<string, int>, before: set<int>, moves: seq<Move>, s: Batch, tag: string)
    requires VersionIDs(toDelete, versionByTag).Some?
    requires Runs(VersionIDs(toDelete, versionByTag).value, Started(VersionIDs(toDelete, versionByTag).value, before), moves, s)
    requires ReturnsNil(s)
    ensures Available(versionByTag, s.versions, tag) <==>
      Available(versionByTag, before, tag) && !SharesVersion(toDelete, versionByTag, tag)
  {
    var ids := VersionIDs(toDelete, versionByTag).value;
    BatchMeans(ids, before, moves, s);
    if tag in versionByTag {
      var v := versionByTag[tag];
      if Among(ids, v) {
        var i: nat :| i < |ids| && ids[i] == v;
        assert toDelete[i] in toDelete;
      }
      if SharesVersion(toDelete, versionByTag, tag) {
        var d :| d in toDelete && d.tag in versionByTag && versionByTag[d.tag] == v;
        var i: nat :| i < |toDelete| && toDelete[i] == d;
        assert ids[i] == v;
      }
    }
  }

  /** A prune that returns nil leaves of the published segments exactly the retained ones,
      if no two of them share a version. */
  lemma PruneLeavesRetained(segments: seq<Segment>, kept: Kept, window: int, packageKeep: nat, versionByTag: map<string, int>,
                            before: set<int>, moves: seq<Move>, s: Batch, x: Segment)
    requires DistinctTags(segments) && x in segments && Available(versionByTag, before, x.tag)
    requires forall a, b :: a in versionByTag && b in versionByTag && versionByTag[a] == versionByTag[b] ==> a == b
    requires var toDelete := Deleted(segments, kept, window, packageKeep, segments);
      && VersionIDs(toDelete, versionByTag).Some?
      && Runs(VersionIDs(toDelete, versionByTag).value, Started(VersionIDs(toDelete, versionByTag).value, before), moves, s)
    requires ReturnsNil(s)
    ensures Available(versionByTag, s.versions, x.tag) <==> Retained(segments, kept, window, packageKeep, x)
  {
    var toDelete := Deleted(segments, kept, window, packageKeep, segments);
    AvailableAfter(toDelete, versionByTag, before, moves, s, x.tag);
    assert x in toDelete <==> !Retained(segments, kept, window, packageKeep, x);
    if SharesVersion(toDelete, versionByTag, x.tag) {
      var d :| d in toDelete && d.tag == x.tag;
      var i, j :| 0 <= i < |segments| && 0 <= j < |segments| && segments[i] == d && segments[j] == x;
    }
  }

  /** Where two tags lie on one version, deleting the one takes the other along. */
  lemma SharedVersionIsLost(d: Segment, tag: string)
    ensures var versionByTag: map<string, int> := map[d.tag := 1, tag := 1];
      var s := Batch([Done], 1, false, {});
      && VersionIDs([d], versionByTag) == Some([1])
      && Runs([1], Started([1], {1}), [Launch, Check(0), Send(0), Succeed(0)], s) && ReturnsNil(s)
      && Available(versionByTag, {1}, tag) && !Available(versionByTag, s.versions, tag)
  {
    var versionByTag: map<string, int> := map[d.tag := 1, tag := 1];
    assert VersionIDs([d], versionByTag).Some? && VersionIDs([d], versionByTag).value == [1];
    var s0 := Started([1], {1});
    var s1 := Moved([1], s0, Launch);
    var s2 := Moved([1], s1, Check(0));
    var s3 := Moved([1], s2, Send(0));
    var s4 := Moved([1], s3, Succeed(0));
    assert BusyOf(s0.tasks) == {};
    assert s1.tasks == [Launched] && s2.tasks == [Passed] && s3.tasks == [Deleting] && s4.tasks == [Done];
    assert s4 == Batch([Done], 1, false, {});
    var moves := [Launch, Check(0), Send(0), Succeed(0)];
    assert moves[1..] == [Check(0), Send(0), Succeed(0)] && moves[1..][1..] == [Send(0), Succeed(0)];
    assert [Send(0), Succeed(0)][1..] == [Succeed(0)];
  }
}
