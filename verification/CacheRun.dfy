/** The cache from end to end (cmd/nixcache): what a load sees of a registry after a
    segment was published, and after a prune deleted some. */
module CacheRun {
  import opened FileTree
  import opened Segments
  import opened Prune
  import opened Manifests
  import opened Loader
  import opened Deletions
  import opened Serve

  const SEGMENT_PREFIX := "v1-"

  /** The manifest layers under each tag. */
  type Repo = map<string, seq<Layer>>

  // ----- listTags -----

  /** Without a prefix every segment tag is listed. */
  function Match(prefix: string): string {
    if prefix == "" then SEGMENT_PREFIX else prefix
  }

  function Matching(all: seq<string>, wanted: string): (tags: seq<string>)
    ensures forall t :: t in tags <==> t in all && wanted <= t
  {
    if all == [] then []
    else
      var init, last := all[..|all| - 1], all[|all| - 1];
      assert all == init + [last];
      if wanted <= last then Matching(init, wanted) + [last] else Matching(init, wanted)
  }

  method ListTags(all: seq<string>, prefix: string) returns (tags: seq<string>)
    ensures tags == Matching(all, Match(prefix))
    ensures forall t :: t in tags <==> t in all && if prefix == "" then "v1-" <= t else prefix <= t
  {
    var wanted := SEGMENT_PREFIX;
    if prefix != "" { wanted := prefix; }
    tags := [];
    assert all[..0] == [];
    for k := 0 to |all|
      invariant tags == Matching(all[..k], wanted)
    {
      assert all[..k + 1][..k] == all[..k];
      if wanted <= all[k] { tags := tags + [all[k]]; }
    }
    assert all[..|all|] == all;
  }

  // ----- what a load sees of a registry -----

  ghost function Outcome(repo: Repo, tag: string): Fetched {
    if tag !in repo then Missing
    else match SegmentOf(tag, repo[tag])
      case Ok(segment) => Got(segment)
      case Err => Fetched.Failed
  }

  /** The matching tags of the registry were listed, in any order and perhaps with others
      that are gone by now, and their manifests fetched. */
  ghost predicate Seen(repo: Repo, prefix: string, tags: seq<string>, fetch: map<string, Fetched>) {
    && (forall t :: t in tags ==> Match(prefix) <= t)
    && (forall t :: t in repo && Match(prefix) <= t ==> t in tags)
    && (forall i :: 0 <= i < |tags| ==> tags[i] in fetch && fetch[tags[i]] == Outcome(repo, tags[i]))
  }

  /** The later registry holds nothing that the earlier one does not hold as well. */
  ghost predicate Shrunk(before: Repo, after: Repo) {
    forall t :: t in after ==> t in before && before[t] == after[t]
  }

  /** The tags were listed from one registry, and each manifest fetched at some moment on
      the way to a later one: a tag that is gone in the end may have disappeared or not. */
  ghost predicate Overlapping(before: Repo, after: Repo, prefix: string, all: seq<string>, fetch: map<string, Fetched>) {
    && Shrunk(before, after)
    && (forall t :: t in all <==> t in before)
    && (forall t :: t in before && Match(prefix) <= t ==>
          t in fetch && (fetch[t] == Outcome(before, t) || (t !in after && fetch[t] == Missing)))
  }

  predicate Fetches(tags: seq<string>, fetch: map<string, Fetched>) {
    forall i :: 0 <= i < |tags| ==> tags[i] in fetch
  }

  /** The part of the listed registry that the fetches found. */
  function Found(before: Repo, prefix: string, fetch: map<string, Fetched>): Repo {
    map t | t in before && (Match(prefix) <= t ==> t in fetch && !fetch[t].Missing?) :: before[t]
  }

  /** Such a load goes as one of a registry that stood still somewhere in between. */
  lemma OverlapSeesFound(before: Repo, after: Repo, prefix: string, all: seq<string>, fetch: map<string, Fetched>)
    requires Overlapping(before, after, prefix, all, fetch)
    ensures var found := Found(before, prefix, fetch);
      Shrunk(before, found) && Shrunk(found, after) && Seen(found, prefix, Matching(all, Match(prefix)), fetch)
  {
    var tags, found := Matching(all, Match(prefix)), Found(before, prefix, fetch);
    forall i | 0 <= i < |tags| ensures tags[i] in fetch && fetch[tags[i]] == Outcome(found, tags[i]) { assert tags[i] in tags; }
    forall t | t in after ensures t in found && found[t] == after[t] {}
  }

  /** The registry holds the segment under a matching tag. */
  ghost predicate Holds(repo: Repo, prefix: string, s: Segment) {
    s.tag in repo && Match(prefix) <= s.tag && SegmentOf(s.tag, repo[s.tag]) == Ok(s)
  }

  lemma {:induction false} GotMeans(tags: seq<string>, fetch: map<string, Fetched>, n: nat, s: Segment)
    requires n <= |tags| && forall i :: 0 <= i < |tags| ==> tags[i] in fetch
    ensures s in GotAll(tags, fetch, n) <==> exists i :: 0 <= i < n && fetch[tags[i]] == Got(s)
  {
    if n > 0 { GotMeans(tags, fetch, n - 1, s); }
  }

  lemma SegmentHasTag(tag: string, layers: seq<Layer>)
    ensures SegmentOf(tag, layers).Ok? ==> SegmentOf(tag, layers).value.tag == tag
  {}

  lemma SeenMeans(repo: Repo, prefix: string, tags: seq<string>, fetch: map<string, Fetched>, s: Segment)
    requires Seen(repo, prefix, tags, fetch)
    ensures s in GotAll(tags, fetch, |tags|) <==> Holds(repo, prefix, s)
  {
    GotMeans(tags, fetch, |tags|, s);
    forall i | 0 <= i < |tags| ensures fetch[tags[i]] == Got(s) ==> Holds(repo, prefix, s) {
      assert tags[i] in tags;
      if tags[i] in repo { SegmentHasTag(tags[i], repo[tags[i]]); }
    }
    if Holds(repo, prefix, s) {
      var i :| 0 <= i < |tags| && tags[i] == s.tag;
      assert fetch[tags[i]] == Got(s);
    }
  }

  /** No matching manifest fails to load. */
  ghost predicate AllLoad(repo: Repo, prefix: string) {
    forall t :: t in repo && Match(prefix) <= t ==> SegmentOf(t, repo[t]).Ok?
  }

  lemma LoadMeans(repo: Repo, prefix: string, tags: seq<string>, fetch: map<string, Fetched>, r: Result<Entries>)
    requires Seen(repo, prefix, tags, fetch) && MayLoad(tags, fetch, r)
    ensures r.Ok? <==> AllLoad(repo, prefix)
  {
    if AllLoad(repo, prefix) {
      forall i | 0 <= i < |tags| ensures !fetch[tags[i]].Failed? { assert tags[i] in tags; }
    } else {
      var t :| t in repo && Match(prefix) <= t && SegmentOf(t, repo[t]).Err?;
      assert t in tags;
      var i :| 0 <= i < |tags| && tags[i] == t;
      assert fetch[tags[i]].Failed?;
    }
  }

  /** s is the newest segment under the prefix that holds the hash. */
  ghost predicate NewestHolding(repo: Repo, prefix: string, hash: string, s: Segment) {
    && Holds(repo, prefix, s) && hash in s.entries
    && forall t :: Holds(repo, prefix, t) && hash in t.entries ==> !Older(s, t)
  }

  /** A hash resolves exactly when some segment under the prefix holds it, and then to the
      entry of the newest one that does. */
  lemma IndexMeans(repo: Repo, prefix: string, tags: seq<string>, fetch: map<string, Fetched>, entries: Entries, hash: string)
    requires Seen(repo, prefix, tags, fetch) && MayLoad(tags, fetch, Ok(entries))
    ensures hash in entries <==> exists s :: Holds(repo, prefix, s) && hash in s.entries
    ensures hash in entries ==> forall s :: NewestHolding(repo, prefix, hash, s) ==> entries[hash] == s.entries[hash]
    ensures hash in entries ==> exists s :: NewestHolding(repo, prefix, hash, s)
  {
    var got := GotAll(tags, fetch, |tags|);
    forall s ensures s in got <==> Holds(repo, prefix, s) { SeenMeans(repo, prefix, tags, fetch, s); }
    if hash in entries {
      assert FromNewest(got, hash, entries[hash]);
      var s :| NewestWith(got, hash, s) && s.entries[hash] == entries[hash];
      assert NewestHolding(repo, prefix, hash, s);
      forall t | NewestHolding(repo, prefix, hash, t) ensures entries[hash] == t.entries[hash] {
        OlderIsOrder(s, t, s);
        assert s.tag == t.tag;
      }
    }
  }

  // ----- serving what was loaded -----

  /** Whatever load the index comes from, its narinfos lead to its NARs unless one is named
      like a narinfo. */
  lemma LoadedIsServed(repo: Repo, prefix: string, tags: seq<string>, fetch: map<string, Fetched>, entries: Entries, nars: Entries,
                       ready: bool, readable: DigestText -> bool, hash: string)
    requires Seen(repo, prefix, tags, fetch) && MayLoad(tags, fetch, Ok(entries)) && Consistent(entries, nars) && hash in entries
    ensures Respond(entries, nars, ready, readable, Get, "/" + hash + NAR_INFO_SUFFIX) == NarInfoOf(entries[hash])
    ensures var url := Url(entries[hash]);
      && url in nars
      && (Respond(entries, nars, ready, readable, Get, "/" + url) == NarOf(nars[url]) <==>
            !HasSuffix(url, NAR_INFO_SUFFIX) && readable(nars[url].narDigest))
  {
    IndexMeans(repo, prefix, tags, fetch, entries, hash);
    var s :| NewestHolding(repo, prefix, hash, s);
    LoadedIsValid(s.tag, repo[s.tag], hash);
    NarInfoLeadsToNar(entries, nars, ready, readable, hash);
  }

  lemma LoadedIsValid(tag: string, layers: seq<Layer>, hash: string)
    requires SegmentOf(tag, layers).Ok? && hash in SegmentOf(tag, layers).value.entries
    ensures CleanNarUrl(SegmentOf(tag, layers).value.entries[hash].narUrl)
  {
    var manifest := ManifestOf(layers).value;
    assert ValidEntry(hash, manifest.metadata.blob.item.entries[hash], manifest.narLayers);
  }

  // ----- publish, then serve -----

  lemma LoadsAfterPublish(repo: Repo, repo': Repo, tag: string, prefix: string)
    requires tag in repo' && repo' == repo[tag := repo'[tag]] && Match(prefix) <= tag
    ensures AllLoad(repo', prefix) <==> SegmentOf(tag, repo'[tag]).Ok? && AllLoad(repo - {tag}, prefix)
  {
    forall t | t != tag ensures t in repo - {tag} <==> t in repo' {}
    forall t | t in repo - {tag} ensures (repo - {tag})[t] == repo'[t] {}
  }

  lemma TagHasPrefix(snapshot: string, system: string, runId: string, random: string)
    ensures Match(SegmentTagPrefix(snapshot, system)) <= SegmentTag(snapshot, system, runId, random)
    ensures SEGMENT_PREFIX <= SegmentTagPrefix(snapshot, system) == Match(SegmentTagPrefix(snapshot, system))
  {}

  /** A load after publishing succeeds exactly when the new NAR sizes fit and the other
      manifests under the prefix load; then every published hash resolves, to the published
      entry unless a newer segment holds the hash. */
  lemma PublishThenServe(repo: Repo, repo': Repo, snapshot: string, system: string, packageKey: string, runId: string,
                         random: string, now: int, size: nat, entries: Entries,
                         tags: seq<string>, fetch: map<string, Fetched>, r: Result<Entries>, hash: string)
    requires FromCache(entries) && snapshot != "" && system != "" && now != ZERO_TIME && hash in entries
    requires var tag := SegmentTag(snapshot, system, runId, random);
      && tag in repo' && repo' == repo[tag := repo'[tag]]
      && PushedLayers(repo'[tag], Item(SEGMENT_VERSION, snapshot, system, packageKey, now, Stored(entries)), size, entries)
    requires Seen(repo', SegmentTagPrefix(snapshot, system), tags, fetch) && MayLoad(tags, fetch, r)
    ensures var tag := SegmentTag(snapshot, system, runId, random);
      r.Ok? <==> SizesFit(entries) && AllLoad(repo - {tag}, SegmentTagPrefix(snapshot, system))
    ensures r.Ok? ==> hash in r.value
    ensures var s := Segment(SegmentTag(snapshot, system, runId, random), system, snapshot, packageKey, now, Stored(entries));
      r.Ok? && NewestHolding(repo', SegmentTagPrefix(snapshot, system), hash, s) ==> r.value[hash] == entries[hash].(narPath := "")
  {
    var tag := SegmentTag(snapshot, system, runId, random);
    var prefix := SegmentTagPrefix(snapshot, system);
    PublishLoadRoundTrip(repo'[tag], snapshot, system, packageKey, runId, random, now, size, entries);
    TagHasPrefix(snapshot, system, runId, random);
    LoadsAfterPublish(repo, repo', tag, prefix);
    LoadMeans(repo', prefix, tags, fetch, r);
    if r.Ok? {
      PublishedResolves(repo', prefix, tags, fetch, r.value, hash, Segment(tag, system, snapshot, packageKey, now, Stored(entries)));
    }
  }

  lemma PublishedResolves(repo: Repo, prefix: string, tags: seq<string>, fetch: map<string, Fetched>, index: Entries, hash: string, s: Segment)
    requires Seen(repo, prefix, tags, fetch) && MayLoad(tags, fetch, Ok(index)) && Holds(repo, prefix, s) && hash in s.entries
    ensures hash in index && (NewestHolding(repo, prefix, hash, s) ==> index[hash] == s.entries[hash])
  {
    IndexMeans(repo, prefix, tags, fetch, index, hash);
  }

  // ----- prune, then serve -----

  /** What prune's own listing gives: the segments of all segment tags. */
  ghost predicate Listed(repo: Repo, tags: seq<string>, fetch: map<string, Fetched>, segments: seq<Segment>) {
    Seen(repo, "", tags, fetch) && AllLoad(repo, "") && multiset(segments) == multiset(GotAll(tags, fetch, |tags|))
  }

  lemma ListedMeans(repo: Repo, tags: seq<string>, fetch: map<string, Fetched>, segments: seq<Segment>, s: Segment)
    requires Listed(repo, tags, fetch, segments)
    ensures s in segments <==> Holds(repo, "", s)
  {
    SeenMeans(repo, "", tags, fetch, s);
    assert s in segments <==> s in multiset(segments);
    assert s in GotAll(tags, fetch, |tags|) <==> s in multiset(GotAll(tags, fetch, |tags|));
  }

  /** Every tag has a version of its own, and the registry holds the versions of its tags. */
  ghost predicate Versioned(repo: Repo, versionByTag: map<string, int>, versions: set<int>) {
    && (forall t :: t in repo ==> Available(versionByTag, versions, t))
    && (forall a, b :: a in versionByTag && b in versionByTag && versionByTag[a] == versionByTag[b] ==> a == b)
  }

  /** The deletions of a prune ran to the end without an error. */
  ghost predicate PruneRan(toDelete: seq<Segment>, versionByTag: map<string, int>, before: set<int>, moves: seq<Move>, batch: Batch) {
    && VersionIDs(toDelete, versionByTag).Some?
    && Runs(VersionIDs(toDelete, versionByTag).value, Started(VersionIDs(toDelete, versionByTag).value, before), moves, batch)
    && ReturnsNil(batch)
  }

  /** What the registry still holds under its tags. */
  function Survivors(repo: Repo, versionByTag: map<string, int>, versions: set<int>): Repo {
    map t | t in repo && Available(versionByTag, versions, t) :: repo[t]
  }

  lemma SameTagSame(repo: Repo, tags: seq<string>, fetch: map<string, Fetched>, segments: seq<Segment>, a: Segment, b: Segment)
    requires Listed(repo, tags, fetch, segments) && a in segments && b in segments && a.tag == b.tag
    ensures a == b
  {
    ListedMeans(repo, tags, fetch, segments, a);
    ListedMeans(repo, tags, fetch, segments, b);
  }

  /** Of the segments under a prefix exactly the retained ones survive a prune. */
  lemma SurvivorsAreRetained(repo: Repo, tags: seq<string>, fetch: map<string, Fetched>, segments: seq<Segment>,
                             kept: Kept, window: int, packageKeep: nat, versionByTag: map<string, int>, before: set<int>,
                             moves: seq<Move>, batch: Batch, prefix: string, s: Segment)
    requires Listed(repo, tags, fetch, segments) && Versioned(repo, versionByTag, before) && SEGMENT_PREFIX <= Match(prefix)
    requires PruneRan(Deleted(segments, kept, window, packageKeep, segments), versionByTag, before, moves, batch)
    ensures Holds(Survivors(repo, versionByTag, batch.versions), prefix, s) <==>
      s in segments && Match(prefix) <= s.tag && Retained(segments, kept, window, packageKeep, s)
  {
    var toDelete := Deleted(segments, kept, window, packageKeep, segments);
    ListedMeans(repo, tags, fetch, segments, s);
    AvailableAfter(toDelete, versionByTag, before, moves, batch, s.tag);
    if s in segments && s.tag in repo {
      if SharesVersion(toDelete, versionByTag, s.tag) {
        var d :| d in toDelete && d.tag in versionByTag && versionByTag[d.tag] == versionByTag[s.tag];
        SameTagSame(repo, tags, fetch, segments, d, s);
      }
      assert s in toDelete <==> !Retained(segments, kept, window, packageKeep, s);
      assert s in toDelete ==> SharesVersion(toDelete, versionByTag, s.tag);
    }
  }

  /** s is the newest of the segments with the hash among those that are retained. */
  ghost predicate NewestRetained(segments: seq<Segment>, kept: Kept, window: int, packageKeep: nat, prefix: string, hash: string, s: Segment) {
    && RetainedWith(segments, kept, window, packageKeep, prefix, hash, s)
    && forall t :: RetainedWith(segments, kept, window, packageKeep, prefix, hash, t) ==> !Older(s, t)
  }

  ghost predicate RetainedWith(segments: seq<Segment>, kept: Kept, window: int, packageKeep: nat, prefix: string, hash: string, s: Segment) {
    s in segments && Match(prefix) <= s.tag && hash in s.entries && Retained(segments, kept, window, packageKeep, s)
  }

  /** A load after a prune that returned nil: a hash resolves exactly when some retained
      segment under the prefix holds it, and then to the entry of the newest that does. */
  lemma PruneThenLoad(repo: Repo, tags: seq<string>, fetch: map<string, Fetched>, segments: seq<Segment>,
                      kept: Kept, window: int, packageKeep: nat, versionByTag: map<string, int>, before: set<int>,
                      moves: seq<Move>, batch: Batch, prefix: string,
                      tags': seq<string>, fetch': map<string, Fetched>, r: Result<Entries>, hash: string)
    requires Listed(repo, tags, fetch, segments) && Versioned(repo, versionByTag, before) && SEGMENT_PREFIX <= Match(prefix)
    requires PruneRan(Deleted(segments, kept, window, packageKeep, segments), versionByTag, before, moves, batch)
    requires Seen(Survivors(repo, versionByTag, batch.versions), prefix, tags', fetch') && MayLoad(tags', fetch', r)
    ensures r.Ok?
    ensures hash in r.value <==> exists s :: RetainedWith(segments, kept, window, packageKeep, prefix, hash, s)
    ensures hash in r.value <==> exists s :: NewestRetained(segments, kept, window, packageKeep, prefix, hash, s)
    ensures forall s :: NewestRetained(segments, kept, window, packageKeep, prefix, hash, s) ==> hash in r.value && r.value[hash] == s.entries[hash]
  {
    var left := Survivors(repo, versionByTag, batch.versions);
    LoadMeans(left, prefix, tags', fetch', r);
    assert AllLoad(left, prefix);
    IndexMeans(left, prefix, tags', fetch', r.value, hash);
    forall s ensures Holds(left, prefix, s) && hash in s.entries <==> RetainedWith(segments, kept, window, packageKeep, prefix, hash, s)
    {
      SurvivorsAreRetained(repo, tags, fetch, segments, kept, window, packageKeep, versionByTag, before, moves, batch, prefix, s);
    }
    forall s ensures NewestHolding(left, prefix, hash, s) <==> NewestRetained(segments, kept, window, packageKeep, prefix, hash, s) {}
  }

  /** Every store hash in the newest segment of a group of a kept snapshot still resolves. */
  lemma PruneThenServe(repo: Repo, tags: seq<string>, fetch: map<string, Fetched>, segments: seq<Segment>,
                       keep: nat, kept: Kept, window: int, packageKeep: nat, versionByTag: map<string, int>, before: set<int>,
                       moves: seq<Move>, batch: Batch,
                       tags': seq<string>, fetch': map<string, Fetched>, r: Result<Entries>, s: Segment, hash: string)
    requires Listed(repo, tags, fetch, segments) && Versioned(repo, versionByTag, before) && KeepsNewest(segments, keep, kept)
    requires PruneRan(Deleted(segments, kept, window, packageKeep, segments), versionByTag, before, moves, batch)
    requires s in segments && InKept(kept, s.system, s.snapshot) && NewerInGroup(segments, s) == {} && hash in s.entries
    requires packageKeep >= 1
    requires Seen(Survivors(repo, versionByTag, batch.versions), SegmentTagPrefix(s.snapshot, s.system), tags', fetch')
    requires MayLoad(tags', fetch', r)
    ensures r.Ok? && hash in r.value
  {
    var prefix := SegmentTagPrefix(s.snapshot, s.system);
    TagHasPrefix(s.snapshot, s.system, "", "");
    ListedMeans(repo, tags, fetch, segments, s);
    LoadedTag(s.tag, repo[s.tag]);
    PruneThenLoad(repo, tags, fetch, segments, kept, window, packageKeep, versionByTag, before, moves, batch, prefix,
                  tags', fetch', r, hash);
    assert |NewerInGroup(segments, s)| == 0;
    assert RetainedWith(segments, kept, window, packageKeep, prefix, hash, s);
  }

  /** A segment that loads lies under the tag prefix of its own snapshot and system. */
  lemma LoadedTag(tag: string, layers: seq<Layer>)
    requires SegmentOf(tag, layers).Ok?
    ensures var s := SegmentOf(tag, layers).value; SegmentTagPrefix(s.snapshot, s.system) <= tag
  {}

  /** Among the segments under the prefix, retained or not, s is the newest with the hash. */
  ghost predicate NewestListed(segments: seq<Segment>, prefix: string, hash: string, s: Segment) {
    && s in segments && Match(prefix) <= s.tag && hash in s.entries
    && forall t :: t in segments && Match(prefix) <= t.tag && hash in t.entries ==> !Older(s, t)
  }

  /** The hash still resolves, to the entry it had: the newest segment with the hash is
      retained, or the newest retained one with the hash agrees with it. */
  ghost predicate EntryKept(segments: seq<Segment>, kept: Kept, window: int, packageKeep: nat, prefix: string, hash: string, s: Segment)
    requires hash in s.entries
  {
    || Retained(segments, kept, window, packageKeep, s)
    || exists t :: NewestRetained(segments, kept, window, packageKeep, prefix, hash, t) && t.entries[hash] == s.entries[hash]
  }

  /** What an index loaded before the prune said of the hash, one loaded after it says
      exactly when the newest segment with the hash is retained or agrees with the newest
      that is. */
  lemma EntryKeptExactly(repo: Repo, tags: seq<string>, fetch: map<string, Fetched>, segments: seq<Segment>,
                         kept: Kept, window: int, packageKeep: nat, versionByTag: map<string, int>, before: set<int>,
                         moves: seq<Move>, batch: Batch, prefix: string,
                         tags1: seq<string>, fetch1: map<string, Fetched>, was: Entries,
                         tags2: seq<string>, fetch2: map<string, Fetched>, now: Entries, hash: string, s: Segment)
    requires Listed(repo, tags, fetch, segments) && Versioned(repo, versionByTag, before) && SEGMENT_PREFIX <= Match(prefix)
    requires PruneRan(Deleted(segments, kept, window, packageKeep, segments), versionByTag, before, moves, batch)
    requires Seen(repo, prefix, tags1, fetch1) && MayLoad(tags1, fetch1, Ok(was)) && NewestListed(segments, prefix, hash, s)
    requires Seen(Survivors(repo, versionByTag, batch.versions), prefix, tags2, fetch2) && MayLoad(tags2, fetch2, Ok(now))
    ensures hash in was && was[hash] == s.entries[hash]
    ensures hash in now && now[hash] == was[hash] <==> EntryKept(segments, kept, window, packageKeep, prefix, hash, s)
  {
    forall t ensures Holds(repo, prefix, t) <==> t in segments && Match(prefix) <= t.tag { ListedMeans(repo, tags, fetch, segments, t); }
    assert NewestHolding(repo, prefix, hash, s);
    IndexMeans(repo, prefix, tags1, fetch1, was, hash);
    PruneThenLoad(repo, tags, fetch, segments, kept, window, packageKeep, versionByTag, before, moves, batch, prefix,
                  tags2, fetch2, Ok(now), hash);
    if Retained(segments, kept, window, packageKeep, s) {
      assert NewestRetained(segments, kept, window, packageKeep, prefix, hash, s);
    }
  }

  // ----- a load that overlaps a prune -----

  /** At no moment of the deletions, finished, failed or under way, is a retained segment gone. */
  lemma RetainedSurvive(repo: Repo, tags: seq<string>, fetch: map<string, Fetched>, segments: seq<Segment>,
                        kept: Kept, window: int, packageKeep: nat, versionByTag: map<string, int>, before: set<int>,
                        moves: seq<Move>, batch: Batch, s: Segment)
    requires Listed(repo, tags, fetch, segments) && Versioned(repo, versionByTag, before)
    requires PruneUnderWay(Deleted(segments, kept, window, packageKeep, segments), versionByTag, before, moves, batch)
    requires s in segments && Retained(segments, kept, window, packageKeep, s)
    ensures s.tag in Survivors(repo, versionByTag, batch.versions)
  {
    var toDelete := Deleted(segments, kept, window, packageKeep, segments);
    var ids := VersionIDs(toDelete, versionByTag).value;
    ListedMeans(repo, tags, fetch, segments, s);
    BatchMeans(ids, before, moves, batch);
    var v := versionByTag[s.tag];
    if v !in batch.versions {
      var i: nat :| i < |ids| && ids[i] == v;
      assert toDelete[i] in toDelete;
      SameTagSame(repo, tags, fetch, segments, toDelete[i], s);
    }
  }

  ghost predicate PruneUnderWay(toDelete: seq<Segment>, versionByTag: map<string, int>, before: set<int>, moves: seq<Move>, batch: Batch) {
    && VersionIDs(toDelete, versionByTag).Some?
    && Runs(VersionIDs(toDelete, versionByTag).value, Started(VersionIDs(toDelete, versionByTag).value, before), moves, batch)
  }

  /** A load that lists its tags before the deletions begin and fetches its manifests while
      they run succeeds. Every hash that a retained segment under the prefix holds resolves,
      and a hash that resolves has the entry of a listed segment than which no retained one
      with the hash is newer. */
  lemma LoadDuringPrune(repo: Repo, tags: seq<string>, fetch: map<string, Fetched>, segments: seq<Segment>,
                        kept: Kept, window: int, packageKeep: nat, versionByTag: map<string, int>, before: set<int>,
                        moves: seq<Move>, batch: Batch, prefix: string,
                        all: seq<string>, fetch': map<string, Fetched>, r: Result<Entries>, hash: string)
    requires Listed(repo, tags, fetch, segments) && Versioned(repo, versionByTag, before) && SEGMENT_PREFIX <= Match(prefix)
    requires PruneUnderWay(Deleted(segments, kept, window, packageKeep, segments), versionByTag, before, moves, batch)
    requires Overlapping(repo, Survivors(repo, versionByTag, batch.versions), prefix, all, fetch')
    requires Fetches(Matching(all, Match(prefix)), fetch') && MayLoad(Matching(all, Match(prefix)), fetch', r)
    ensures r.Ok?
    ensures (exists s :: RetainedWith(segments, kept, window, packageKeep, prefix, hash, s)) ==> hash in r.value
    ensures hash in r.value ==> exists s ::
      && s in segments && Match(prefix) <= s.tag && hash in s.entries && r.value[hash] == s.entries[hash]
      && forall t :: RetainedWith(segments, kept, window, packageKeep, prefix, hash, t) ==> !Older(s, t)
  {
    var after := Survivors(repo, versionByTag, batch.versions);
    var found := Found(repo, prefix, fetch');
    var listed := Matching(all, Match(prefix));
    OverlapSeesFound(repo, after, prefix, all, fetch');
    LoadMeans(found, prefix, listed, fetch', r);
    assert AllLoad(found, prefix);
    IndexMeans(found, prefix, listed, fetch', r.value, hash);
    forall s | RetainedWith(segments, kept, window, packageKeep, prefix, hash, s) ensures Holds(found, prefix, s) {
      ListedMeans(repo, tags, fetch, segments, s);
      RetainedSurvive(repo, tags, fetch, segments, kept, window, packageKeep, versionByTag, before, moves, batch, s);
    }
    if hash in r.value {
      var s :| NewestHolding(found, prefix, hash, s);
      ListedMeans(repo, tags, fetch, segments, s);
    }
  }
}
