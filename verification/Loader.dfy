/** Loading the segments a tag prefix lists and merging them into one index
    (cmd/nixcache/registry.go). */
module Loader {
  import opened FileTree
  import opened Order
  import opened Segments
  import opened Pruner

  // ----- registryRequest -----

  datatype Attempt<T> = Answer(value: T) | TimedOut | Refused

  const MAX_ATTEMPTS: nat := 3

  /** At most three attempts, another one only after a timeout in a context still alive. */
  method RegistryRequest<T>(request: nat -> Attempt<T>, contextDone: nat -> bool) returns (r: Result<T>, made: nat)
    ensures 1 <= made <= 3
    ensures forall i :: 1 <= i < made ==> request(i).TimedOut? && !contextDone(i)
    ensures r.Ok? <==> request(made).Answer?
    ensures r.Ok? ==> request(made) == Answer(r.value)
    ensures r.Err? ==> request(made).Refused? || contextDone(made) || made == 3
  {
    made := 1;
    while made <= MAX_ATTEMPTS
      invariant 1 <= made <= MAX_ATTEMPTS
      invariant forall i :: 1 <= i < made ==> request(i).TimedOut? && !contextDone(i)
    {
      var answer := request(made);
      if answer.Answer? { return Ok(answer.value), made; }
      if contextDone(made) { return Err, made; }
      if !answer.TimedOut? || made == MAX_ATTEMPTS { return Err, made; }
      made := made + 1;
    }
    assert false;
  }

  // ----- fetchSegments -----

  datatype Fetched = Got(segment: Segment) | Missing | Failed

  /** The segments among the first n tags that were still there, in the order of the tags. */
  function GotAll(tags: seq<string>, fetch: map<string, Fetched>, n: nat): seq<Segment>
    requires n <= |tags| && forall i :: 0 <= i < |tags| ==> tags[i] in fetch
  {
    if n == 0 then []
    else
      GotAll(tags, fetch, n - 1) +
      if fetch[tags[n - 1]].Got? then [fetch[tags[n - 1]].segment] else []
  }

  /** One slot per tag, written by its own worker. */
  ghost predicate SlotDone(segments: seq<Segment>, missing: seq<bool>, outcome: Fetched, i: nat)
    requires i < |segments| == |missing|
  {
    match outcome
    case Got(segment) => !missing[i] && segments[i] == segment
    case Missing => missing[i]
    case Failed => false
  }

  method FetchSegments(tags: seq<string>, fetch: map<string, Fetched>) returns (r: Result<seq<Segment>>)
    requires forall i :: 0 <= i < |tags| ==> tags[i] in fetch
    ensures r.Ok? <==> forall i :: 0 <= i < |tags| ==> !fetch[tags[i]].Failed?
    ensures r.Ok? ==> r.value == GotAll(tags, fetch, |tags|)
  {
    var segments := new Segment[|tags|](_ => Segment("", "", "", "", 0, map[]));
    var missing := new bool[|tags|](_ => false);
    var ok := RunWorkers(tags, fetch, segments, missing);
    if !ok { return Err; }
    ghost var before := segments[..];
    var n := Compact(segments, missing);
    CompactedIsGot(tags, fetch, before, missing[..], |tags|);
    r := Ok(segments[..n]);
  }

  function Indices(n: nat): (s: set<nat>)
    ensures forall i: nat :: i in s <==> i < n
  {
    if n == 0 then {} else Indices(n - 1) + {n - 1}
  }

  /** The workers finish in any order; the first failure ends the load. */
  method RunWorkers(tags: seq<string>, fetch: map<string, Fetched>, segments: array<Segment>, missing: array<bool>) returns (ok: bool)
    requires forall i :: 0 <= i < |tags| ==> tags[i] in fetch
    requires segments.Length == missing.Length == |tags| && forall i :: 0 <= i < |tags| ==> !missing[i]
    modifies segments, missing
    ensures ok <==> forall i :: 0 <= i < |tags| ==> !fetch[tags[i]].Failed?
    ensures ok ==> forall i: nat :: i < |tags| ==> SlotDone(segments[..], missing[..], fetch[tags[i]], i)
  {
    var pending := Indices(|tags|);
    while pending != {}
      invariant forall i :: i in pending ==> i < |tags|
      invariant forall i: nat :: i < |tags| && i in pending ==> !missing[i]
      invariant forall i: nat :: i < |tags| && i !in pending ==> SlotDone(segments[..], missing[..], fetch[tags[i]], i)
      decreases pending
    {
      var index: nat :| index in pending;
      match fetch[tags[index]] {
        case Got(segment) => segments[index] := segment;
        case Missing => missing[index] := true;
        case Failed => return false;
      }
      pending := pending - {index};
      forall i: nat | i < |tags| && i !in pending ensures SlotDone(segments[..], missing[..], fetch[tags[i]], i) {}
    }
    ok := true;
  }

  /** The elements of s[..n] that are not marked. */
  function Present(s: seq<Segment>, missing: seq<bool>, n: nat): seq<Segment>
    requires n <= |s| == |missing|
  {
    if n == 0 then [] else Present(s, missing, n - 1) + if missing[n - 1] then [] else [s[n - 1]]
  }

  /** Compaction in the segments' own backing array: writing never overtakes reading. */
  method Compact(segments: array<Segment>, missing: array<bool>) returns (n: nat)
    requires segments.Length == missing.Length
    modifies segments
    ensures n <= segments.Length && segments[..n] == Present(old(segments[..]), missing[..], segments.Length)
  {
    n := 0;
    for index := 0 to segments.Length
      invariant n <= index && segments[index..] == old(segments[index..])
      invariant segments[..n] == Present(old(segments[..]), missing[..], index)
    {
      var ref := segments[index];
      assert ref == old(segments[index..])[0];
      if !missing[index] {
        segments[n] := ref;
        n := n + 1;
      }
    }
  }

  lemma {:induction false} CompactedIsGot(tags: seq<string>, fetch: map<string, Fetched>, segments: seq<Segment>, missing: seq<bool>, n: nat)
    requires n <= |tags| == |segments| == |missing| && forall i :: 0 <= i < |tags| ==> tags[i] in fetch
    requires forall i: nat :: i < |tags| ==> SlotDone(segments, missing, fetch[tags[i]], i)
    ensures Present(segments, missing, n) == GotAll(tags, fetch, n)
  {
    if n > 0 {
      CompactedIsGot(tags, fetch, segments, missing, n - 1);
      assert SlotDone(segments, missing, fetch[tags[n - 1]], n - 1);
    }
  }

  // ----- listSegments -----

  /** The listed segments, oldest first. */
  method ListSegments(tags: seq<string>, fetch: map<string, Fetched>) returns (r: Result<seq<Segment>>)
    requires forall i :: 0 <= i < |tags| ==> tags[i] in fetch
    ensures r.Ok? <==> forall i :: 0 <= i < |tags| ==> !fetch[tags[i]].Failed?
    ensures r.Ok? ==> multiset(r.value) == multiset(GotAll(tags, fetch, |tags|)) && Ordered(r.value, Older)
  {
    var fetched := FetchSegments(tags, fetch);
    if fetched.Err? { return Err; }
    OlderIsWeak();
    var sorted := Sort(fetched.value, Older);
    r := Ok(sorted);
  }

  lemma OlderIsWeak()
    ensures WeakOrder(Older)
  {
    forall a: Segment, b: Segment | Older(a, b) ensures !Older(b, a) { OlderIsOrder(a, b, b); }
    forall a: Segment, b: Segment, c: Segment | Older(a, b) && !Older(c, b) ensures Older(a, c) { OlderIsOrder(a, b, c); }
  }

  // ----- loadEntries -----

  /** Among the segments that hold `hash`, s is one that no other is newer than. */
  ghost predicate NewestWith(segments: seq<Segment>, hash: string, s: Segment) {
    && s in segments && hash in s.entries
    && forall t :: t in segments && hash in t.entries ==> !Older(s, t)
  }

  ghost predicate FromNewest(segments: seq<Segment>, hash: string, entry: CacheEntry) {
    exists s :: NewestWith(segments, hash, s) && s.entries[hash] == entry
  }

  /** Each hash that any segment holds has the entry of the newest segment with it. */
  ghost predicate IsIndex(segments: seq<Segment>, entries: map<string, CacheEntry>) {
    && (forall s, hash :: s in segments && hash in s.entries ==> hash in entries)
    && (forall hash :: hash in entries ==> FromNewest(segments, hash, entries[hash]))
  }

  lemma MergeNext(segments: seq<Segment>, entries: map<string, CacheEntry>, s: Segment)
    requires IsIndex(segments, entries) && forall t :: t in segments ==> !Older(s, t)
    ensures IsIndex(segments + [s], entries + s.entries)
  {
    OlderIsOrder(s, s, s);
    assert forall t :: t in segments + [s] <==> t in segments || t == s;
    forall hash | hash in entries + s.entries ensures FromNewest(segments + [s], hash, (entries + s.entries)[hash]) {
      if hash in s.entries {
        assert NewestWith(segments + [s], hash, s);
      } else {
        var t :| NewestWith(segments, hash, t) && t.entries[hash] == entries[hash];
        assert NewestWith(segments + [s], hash, t);
      }
    }
  }

  /** Of the segments with a hash the one created last decides, and of those created at the
      same time the one with the greatest tag. */
  lemma LastDecides(segments: seq<Segment>, entries: map<string, CacheEntry>, hash: string, s: Segment)
    requires IsIndex(segments, entries) && s in segments && hash in s.entries
    requires forall t :: t in segments && hash in t.entries && t != s ==>
      t.created < s.created || (t.created == s.created && Less(t.tag, s.tag))
    ensures hash in entries && entries[hash] == s.entries[hash]
  {
    assert FromNewest(segments, hash, entries[hash]);
    var t :| NewestWith(segments, hash, t) && t.entries[hash] == entries[hash];
    assert !Older(t, s);
  }

  method Merge(segments: seq<Segment>) returns (entries: map<string, CacheEntry>)
    requires Ordered(segments, Older)
    ensures IsIndex(segments, entries)
  {
    entries := map[];
    assert segments[..0] == [];
    for i := 0 to |segments|
      invariant IsIndex(segments[..i], entries)
    {
      var item := segments[i];
      assert segments[..i + 1] == segments[..i] + [item];
      forall t | t in segments[..i] ensures !Older(item, t) {
        var j :| 0 <= j < i && segments[..i][j] == t;
        assert segments[j] == t;
      }
      MergeNext(segments[..i], entries, item);
      entries := Overwrite(entries, item.entries);
    }
    assert segments[..|segments|] == segments;
  }

  /** Writes each entry of the segment over what was there, in whatever order the map yields them. */
  method Overwrite(entries: map<string, CacheEntry>, item: map<string, CacheEntry>) returns (r: map<string, CacheEntry>)
    ensures r == entries + item
  {
    r := entries;
    var rest := item.Keys;
    while rest != {}
      invariant rest <= item.Keys && r.Keys == entries.Keys + (item.Keys - rest)
      invariant forall hash :: hash in r ==> r[hash] == if hash in item.Keys - rest then item[hash] else entries[hash]
      decreases rest
    {
      var hash :| hash in rest;
      r := r[hash := item[hash]];
      rest := rest - {hash};
    }
  }

  /** What a load of the tags may return: the index of the segments still there, or an
      error exactly if some manifest fails to load. */
  ghost predicate MayLoad(tags: seq<string>, fetch: map<string, Fetched>, r: Result<map<string, CacheEntry>>)
    requires forall i :: 0 <= i < |tags| ==> tags[i] in fetch
  {
    && (r.Ok? <==> forall i :: 0 <= i < |tags| ==> !fetch[tags[i]].Failed?)
    && (r.Ok? ==> IsIndex(GotAll(tags, fetch, |tags|), r.value))
  }

  method LoadEntries(tags: seq<string>, fetch: map<string, Fetched>) returns (r: Result<map<string, CacheEntry>>)
    requires forall i :: 0 <= i < |tags| ==> tags[i] in fetch
    ensures MayLoad(tags, fetch, r)
  {
    var segments := ListSegments(tags, fetch);
    if segments.Err? { return Err; }
    var entries := Merge(segments.value);
    SameElements(segments.value, GotAll(tags, fetch, |tags|));
    SameIndex(segments.value, GotAll(tags, fetch, |tags|), entries);
    r := Ok(entries);
  }

  lemma SameElements(a: seq<Segment>, b: seq<Segment>)
    requires multiset(a) == multiset(b)
    ensures forall s :: s in a <==> s in b
  {
    forall s ensures s in a <==> s in b { assert s in a <==> s in multiset(a); }
  }

  lemma SameIndex(a: seq<Segment>, b: seq<Segment>, entries: map<string, CacheEntry>)
    requires (forall s :: s in a <==> s in b) && IsIndex(a, entries)
    ensures IsIndex(b, entries)
  {
    forall hash | hash in entries ensures FromNewest(b, hash, entries[hash]) {
      var s :| NewestWith(a, hash, s) && s.entries[hash] == entries[hash];
      assert NewestWith(b, hash, s);
    }
  }

  /** The index does not depend on the order in which the registry lists the tags. */
  lemma IndexIgnoresOrder(a: seq<Segment>, b: seq<Segment>, x: map<string, CacheEntry>, y: map<string, CacheEntry>)
    requires DistinctTags(a) && (forall s :: s in a <==> s in b) && IsIndex(a, x) && IsIndex(b, y)
    ensures x == y
  {
    SameIndex(b, a, y);
    KeysBelow(a, x, y);
    KeysBelow(a, y, x);
    forall hash | hash in x ensures x[hash] == y[hash] { OneNewest(a, hash, x[hash], y[hash]); }
  }

  lemma KeysBelow(segments: seq<Segment>, x: map<string, CacheEntry>, y: map<string, CacheEntry>)
    requires IsIndex(segments, x) && IsIndex(segments, y)
    ensures x.Keys <= y.Keys
  {
    forall hash | hash in x ensures hash in y {
      var s :| NewestWith(segments, hash, s) && s.entries[hash] == x[hash];
    }
  }

  lemma OneNewest(segments: seq<Segment>, hash: string, x: CacheEntry, y: CacheEntry)
    requires DistinctTags(segments) && FromNewest(segments, hash, x) && FromNewest(segments, hash, y)
    ensures x == y
  {
    var s :| NewestWith(segments, hash, s) && s.entries[hash] == x;
    var t :| NewestWith(segments, hash, t) && t.entries[hash] == y;
    OlderIsOrder(s, t, s);
    if s.tag == t.tag { SameTagSameSegment(segments, s, t); }
  }
}
