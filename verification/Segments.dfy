/** Published cache segments, their age order, and sorting (cmd/nixcache/model.go). */
module Segments {
  import opened Order

  /** What the registry holds for one store path; how a record is parsed is not modelled. */
  datatype CacheEntry = CacheEntry(storePath: StorePathText, narUrl: seq<string>, narDigest: DigestText, narSize: int,
                                   narInfo: NarInfoText, narPath: string)

  /** An absolute store path, already cut into its hash and name, or text that is none. */
  datatype StorePathText = StorePathText(hash: string, name: string) | NotAStorePath(text: string)

  datatype DigestText = DigestText(algorithm: string, encoded: string) | NotADigest(text: string)

  /** A narinfo text that parses, or one that does not; `sound` is what Check says. */
  datatype NarInfoText = NarInfo(storePath: StorePathText, url: seq<string>, fileHash: FileHash, fileSize: nat, sound: bool)
                       | NotANarInfo(text: string)

  datatype FileHash = FileHash(algorithm: string, encoded: string) | NoFileHash

  /** A loaded segment under its tag; `created` is its instant in nanoseconds. */
  datatype Segment = Segment(tag: string, system: string, snapshot: string, packageKey: string, created: int,
                             entries: map<string, CacheEntry>)

  /** Older first; the tag decides between equal times. */
  predicate Older(a: Segment, b: Segment) {
    a.created < b.created || (a.created == b.created && Less(a.tag, b.tag))
  }

  ghost predicate DistinctTags(segments: seq<Segment>) {
    forall i, j :: 0 <= i < j < |segments| ==> segments[i].tag != segments[j].tag
  }

  lemma OlderIsOrder(a: Segment, b: Segment, c: Segment)
    ensures !(Older(a, b) && Older(b, a))
    ensures Older(a, b) && Older(b, c) ==> Older(a, c)
    ensures Older(a, b) && !Older(c, b) ==> Older(a, c)
    ensures a.tag != b.tag ==> Older(a, b) || Older(b, a)
  {
    LeqTotal(a.tag, b.tag);
    LeqTotal(b.tag, c.tag);
    LeqTotal(a.tag, c.tag);
    if Leq(a.tag, b.tag) && Leq(b.tag, c.tag) { LeqTransitive(a.tag, b.tag, c.tag); }
  }

  // ----- sorting -----

  /** No element comes before one that it should come after. */
  ghost predicate Ordered<T(!new)>(s: seq<T>, before: (T, T) -> bool) {
    forall i, j :: 0 <= i < j < |s| ==> !before(s[j], s[i])
  }

  /** A strict weak order: what sort.Slice needs of its comparison. */
  ghost predicate WeakOrder<T(!new)>(before: (T, T) -> bool) {
    && (forall a, b :: before(a, b) ==> !before(b, a))
    && (forall a, b, c :: before(a, b) && !before(c, b) ==> before(a, c))
  }

  /** sort.Slice: a permutation of `s` in order; elements that tie come in any order. */
  method Sort<T(!new)>(s: seq<T>, before: (T, T) -> bool) returns (r: seq<T>)
    requires WeakOrder(before)
    ensures multiset(r) == multiset(s) && Ordered(r, before)
  {
    r := [];
    assert s[..0] == [];
    for i := 0 to |s|
      invariant multiset(r) == multiset(s[..i]) && Ordered(r, before)
    {
      assert s[..i + 1] == s[..i] + [s[i]];
      r := Insert(r, s[i], before);
    }
    assert s[..|s|] == s;
  }

  method Insert<T(!new)>(s: seq<T>, x: T, before: (T, T) -> bool) returns (r: seq<T>)
    requires WeakOrder(before) && Ordered(s, before)
    ensures multiset(r) == multiset(s) + multiset{x} && Ordered(r, before)
  {
    var k := |s|;
    while k > 0 && before(x, s[k - 1])
      invariant 0 <= k <= |s| && forall i :: k <= i < |s| ==> before(x, s[i])
    {
      k := k - 1;
    }
    InsertedAt(s, k, x, before);
    r := s[..k] + [x] + s[k..];
  }

  lemma InsertedAt<T(!new)>(s: seq<T>, k: nat, x: T, before: (T, T) -> bool)
    requires WeakOrder(before) && Ordered(s, before) && k <= |s|
    requires (forall i :: k <= i < |s| ==> before(x, s[i])) && (k > 0 ==> !before(x, s[k - 1]))
    ensures Ordered(s[..k] + [x] + s[k..], before)
    ensures multiset(s[..k] + [x] + s[k..]) == multiset(s) + multiset{x}
  {
    assert s == s[..k] + s[k..];
    var r := s[..k] + [x] + s[k..];
    forall i, j | 0 <= i < j < |r| ensures !before(r[j], r[i]) {
      if i < k { NotBeforeEarlier(s, k, x, before, i); }
      PlaceOf(s, k, x, i);
      PlaceOf(s, k, x, j);
    }
  }

  lemma NotBeforeEarlier<T(!new)>(s: seq<T>, k: nat, x: T, before: (T, T) -> bool, i: nat)
    requires WeakOrder(before) && Ordered(s, before) && i < k <= |s| && !before(x, s[k - 1])
    ensures !before(x, s[i])
  {
    assert i < k - 1 ==> !before(s[k - 1], s[i]);
  }

  lemma PlaceOf<T(!new)>(s: seq<T>, k: nat, x: T, i: nat)
    requires k <= |s| && i <= |s|
    ensures (s[..k] + [x] + s[k..])[i] == if i < k then s[i] else if i == k then x else s[i - 1]
  {}
}
