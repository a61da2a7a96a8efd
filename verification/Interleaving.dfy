/** The served index under concurrency (cmd/nixcache/serve.go): refreshers and requests
    take their steps in any order, guarded only by the read-write lock. */
module Interleaving {
  import Segments
  import opened Serve

  /** Where a refresh stands. A load has been checked and its URL map built before the lock
      is asked for; the two maps are stored one after the other while it is held. */
  datatype Phase =
    | Idle
    | Loaded(entries: Entries, nars: Entries)
    | Locked(entries: Entries, nars: Entries)
    | HalfStored(entries: Entries, nars: Entries)
    | Stored(entries: Entries, nars: Entries)
    | Returned

  /** `loads` remembers every pair of maps that a successful load has built, `completed`
      whether any refresh has returned without error; `readers` hold the read lock. */
  datatype State = State(entries: Entries, nars: Entries, ready: bool, refreshers: map<nat, Phase>, readers: set<nat>,
                         loads: set<(Entries, Entries)>, completed: bool)

  predicate Writing(p: Phase) {
    p.Locked? || p.HalfStored? || p.Stored?
  }

  predicate NoWriter(s: State) {
    forall i :: i in s.refreshers ==> !Writing(s.refreshers[i])
  }

  /** The refresher that the server starts with, and waits for before it marks the index ready. */
  const FIRST: nat := 0

  predicate Init(s: State) {
    && s.entries == map[] && s.nars == map[] && !s.ready && s.readers == {} && s.loads == {} && !s.completed
    && FIRST in s.refreshers && forall i :: i in s.refreshers ==> s.refreshers[i] == Idle
  }

  datatype Action =
    | LoadOk(i: nat, entries: Entries, nars: Entries)
    | LoadFails(i: nat)
    | Lock(i: nat)
    | StoreEntries(i: nat)
    | StoreNars(i: nat)
    | Unlock(i: nat)
    | MarkReady
    | ReadLock(r: nat)
    | ReadUnlock(r: nat)

  function At(s: State, i: nat): Phase {
    if i in s.refreshers then s.refreshers[i] else Idle
  }

  ghost predicate Enabled(s: State, a: Action) {
    match a
    case LoadOk(i, entries, nars) => i in s.refreshers && (At(s, i).Idle? || At(s, i).Returned?) && Consistent(entries, nars)
    case LoadFails(i) => i in s.refreshers && (At(s, i).Idle? || At(s, i).Returned?)
    case Lock(i) => At(s, i).Loaded? && NoWriter(s) && s.readers == {}
    case StoreEntries(i) => At(s, i).Locked?
    case StoreNars(i) => At(s, i).HalfStored?
    case Unlock(i) => At(s, i).Stored?
    case MarkReady => At(s, FIRST).Returned?
    case ReadLock(r) => NoWriter(s) && r !in s.readers
    case ReadUnlock(r) => r in s.readers
  }

  function Apply(s: State, a: Action): State {
    match a
    case LoadOk(i, entries, nars) =>
      s.(refreshers := s.refreshers[i := Loaded(entries, nars)], loads := s.loads + {(entries, nars)})
    case LoadFails(i) => s
    case Lock(i) =>
      var p := At(s, i);
      if p.Loaded? then s.(refreshers := s.refreshers[i := Locked(p.entries, p.nars)]) else s
    case StoreEntries(i) =>
      var p := At(s, i);
      if p.Locked? then s.(entries := p.entries, refreshers := s.refreshers[i := HalfStored(p.entries, p.nars)]) else s
    case StoreNars(i) =>
      var p := At(s, i);
      if p.HalfStored? then s.(nars := p.nars, refreshers := s.refreshers[i := Stored(p.entries, p.nars)]) else s
    case Unlock(i) => s.(refreshers := s.refreshers[i := Returned], completed := true)
    case MarkReady => s.(ready := true)
    case ReadLock(r) => s.(readers := s.readers + {r})
    case ReadUnlock(r) => s.(readers := s.readers - {r})
  }

  ghost predicate FromLoad(s: State, entries: Entries, nars: Entries) {
    Consistent(entries, nars) && (entries, nars) in s.loads
  }

  /** What the maps hold: one load's, or, before any refresh has returned, the empty maps
      of the start. */
  ghost predicate OneLoad(s: State, entries: Entries, nars: Entries) {
    FromLoad(s, entries, nars) || (!s.completed && entries == map[] && nars == map[])
  }

  ghost predicate PhaseOk(s: State, p: Phase) {
    match p
    case Idle => true
    case Loaded(entries, nars) => FromLoad(s, entries, nars)
    case Locked(entries, nars) => FromLoad(s, entries, nars)
    case HalfStored(entries, nars) => FromLoad(s, entries, nars) && s.entries == entries
    case Stored(entries, nars) => FromLoad(s, entries, nars) && s.entries == entries && s.nars == nars
    case Returned => s.completed
  }

  ghost predicate Safe(s: State) {
    && (forall i, j :: i in s.refreshers && j in s.refreshers && Writing(s.refreshers[i]) && Writing(s.refreshers[j]) ==> i == j)
    && (s.readers != {} ==> NoWriter(s))
    && (forall i :: i in s.refreshers ==> PhaseOk(s, s.refreshers[i]))
    && ((forall i :: i in s.refreshers ==> !s.refreshers[i].HalfStored?) ==> OneLoad(s, s.entries, s.nars))
    && (s.ready ==> s.completed)
  }

  /** Loading, and what only touches the other fields, leaves every writer where it was. */
  lemma CalmStepIsSafe(s: State, a: Action)
    requires Safe(s) && Enabled(s, a) && !a.Lock? && !a.StoreEntries? && !a.StoreNars? && !a.Unlock?
    ensures Safe(Apply(s, a))
  {
    var s' := Apply(s, a);
    forall i | i in s'.refreshers ensures PhaseOk(s', s'.refreshers[i])
      ensures Writing(s'.refreshers[i]) ==> i in s.refreshers && s'.refreshers[i] == s.refreshers[i]
    {
      if i in s.refreshers { assert PhaseOk(s, s.refreshers[i]); }
    }
    forall i | i in s.refreshers && Writing(s.refreshers[i]) ensures i in s'.refreshers && s'.refreshers[i] == s.refreshers[i] {}
    if forall i :: i in s'.refreshers ==> !s'.refreshers[i].HalfStored? {
      forall i | i in s.refreshers ensures !s.refreshers[i].HalfStored? {
        assert s.refreshers[i].HalfStored? ==> Writing(s.refreshers[i]);
      }
    }
  }

  /** The steps of the refresher that holds, or takes, the lock. */
  lemma WriterStepIsSafe(s: State, a: Action, i: nat)
    requires Safe(s) && Enabled(s, a) && (a == Lock(i) || a == StoreEntries(i) || a == StoreNars(i) || a == Unlock(i))
    ensures Safe(Apply(s, a))
  {
    var s' := Apply(s, a);
    assert i in s.refreshers && PhaseOk(s, s.refreshers[i]);
    forall j | j in s.refreshers && j != i ensures !Writing(s.refreshers[j]) && s'.refreshers[j] == s.refreshers[j] {}
    forall j | j in s'.refreshers ensures PhaseOk(s', s'.refreshers[j]) {
      if j != i { assert PhaseOk(s, s.refreshers[j]) && !Writing(s.refreshers[j]); }
    }
    assert a.StoreEntries? ==> s'.refreshers[i].HalfStored?;
  }

  lemma StepIsSafe(s: State, a: Action)
    requires Safe(s) && Enabled(s, a)
    ensures Safe(Apply(s, a))
  {
    match a {
      case Lock(i) => WriterStepIsSafe(s, a, i);
      case StoreEntries(i) => WriterStepIsSafe(s, a, i);
      case StoreNars(i) => WriterStepIsSafe(s, a, i);
      case Unlock(i) => WriterStepIsSafe(s, a, i);
      case _ => CalmStepIsSafe(s, a);
    }
  }

  /** `end` is reached from `s` by these actions, each enabled when it is taken. */
  ghost predicate Runs(s: State, actions: seq<Action>, end: State)
    decreases |actions|
  {
    if actions == [] then end == s else Enabled(s, actions[0]) && Runs(Apply(s, actions[0]), actions[1..], end)
  }

  lemma {:induction false} RunIsSafe(s: State, actions: seq<Action>, end: State)
    requires Safe(s) && Runs(s, actions, end)
    ensures Safe(end)
    decreases |actions|
  {
    if actions != [] {
      StepIsSafe(s, actions[0]);
      RunIsSafe(Apply(s, actions[0]), actions[1..], end);
    }
  }

  /** In every interleaving, whoever holds the read lock sees the two maps of one and the
      same successful load, or the empty ones of the start; once the index is ready only
      the former. */
  lemma ReadersSeeOneLoad(start: State, actions: seq<Action>, s: State)
    requires Init(start) && Runs(start, actions, s)
    ensures s.readers != {} ==> Consistent(s.entries, s.nars) && OneLoad(s, s.entries, s.nars)
    ensures s.readers != {} && s.ready ==> FromLoad(s, s.entries, s.nars)
    ensures s.ready ==> s.completed
  {
    assert Safe(start);
    RunIsSafe(start, actions, s);
    if s.readers != {} {
      forall i | i in s.refreshers ensures !s.refreshers[i].HalfStored? {
        assert !Writing(s.refreshers[i]);
      }
    }
  }

  lemma {:induction false} ReadyStays(s: State, actions: seq<Action>, end: State)
    requires Runs(s, actions, end) && s.ready
    ensures end.ready
    decreases |actions|
  {
    if actions != [] { ReadyStays(Apply(s, actions[0]), actions[1..], end); }
  }

  /** A client that has been answered the cache information finds the maps of a load ever
      after, whatever happens in between. */
  lemma ReadyMeansLoaded(start: State, before: seq<Action>, s: State, after: seq<Action>, t: State,
                         readable: Segments.DigestText -> bool, verb: Verb)
    requires Init(start) && Runs(start, before, s) && Runs(s, after, t)
    requires Respond(s.entries, s.nars, s.ready, readable, verb, "/nix-cache-info").CacheInfo?
    ensures s.completed
    ensures t.readers != {} ==> FromLoad(t, t.entries, t.nars)
  {
    var p := "nix-cache-info";
    assert "/nix-cache-info" == "/" + p;
    InfoAnswersExactly(s.entries, s.nars, s.ready, readable, verb, "/nix-cache-info", p);
    ReadersSeeOneLoad(start, before, s);
    ReadyStays(s, after, t);
    RunsOn(start, before, s, after, t);
    ReadersSeeOneLoad(start, before + after, t);
  }

  lemma {:induction false} RunsOn(start: State, before: seq<Action>, s: State, after: seq<Action>, t: State)
    requires Runs(start, before, s) && Runs(s, after, t)
    ensures Runs(start, before + after, t)
    decreases |before|
  {
    if before == [] {
      assert before + after == after;
    } else {
      assert (before + after)[0] == before[0] && (before + after)[1..] == before[1..] + after;
      RunsOn(Apply(start, before[0]), before[1..], s, after, t);
    }
  }
}
