/** Publishing a segment and loading it back (cmd/nixcache/push.go,
    cmd/nixcache/registry.go): a blob stands for its digest. */
module Manifests {
  import opened Order
  import opened FileTree
  import opened Lexical
  import opened Segments

  const SEGMENT_VERSION := 1
  const SEGMENT_MEDIA_TYPE := "application/vnd.curoky.nixcache.segment.v1+json"
  const NAR_MEDIA_TYPE := "application/vnd.curoky.nixcache.nar.v1"

  /** The instant of a time that was never set: the start of the year 1. */
  const ZERO_TIME: int := -62_135_596_800_000_000_000

  /** The metadata document of a segment. */
  datatype Item = Item(version: int, snapshot: string, system: string, packageKey: string, created: int,
                       entries: map<string, CacheEntry>)

  datatype Blob = ItemBlob(item: Item) | NarBlob(digest: DigestText) | OtherBlob(text: string)

  /** A layer descriptor; `storeHash` is "" when the annotation is missing. */
  datatype Layer = Layer(mediaType: string, size: int, blob: Blob, storeHash: string)

  datatype ManifestRef = ManifestRef(metadata: Layer, narLayers: map<string, Layer>)

  // ----- tags -----

  function TrimSha256(id: string): string {
    if "sha256:" <= id then id[7..] else id
  }

  /** `v1-<snapshot16>-<system>-` */
  function SegmentTagPrefix(snapshot: string, system: string): string {
    var short := TrimSha256(snapshot);
    "v1-" + (if |short| > 16 then short[..16] else short) + "-" + system + "-"
  }

  // ----- getManifest -----

  predicate ValidNarLayer(layer: Layer) {
    layer.mediaType == NAR_MEDIA_TYPE && layer.size >= 0 && layer.storeHash != ""
  }

  /** Each of the NAR layers valid, and no store hash twice; the metadata layer is the first. */
  ghost predicate ValidNarLayers(layers: seq<Layer>) {
    && (forall i :: 1 <= i < |layers| ==> ValidNarLayer(layers[i]))
    && forall i, j :: 1 <= i < j < |layers| ==> layers[i].storeHash != layers[j].storeHash
  }

  /** The NAR layers by store hash. */
  ghost predicate ByHash(narLayers: map<string, Layer>, layers: seq<Layer>) {
    && |narLayers| + 1 == |layers|
    && (forall i :: 1 <= i < |layers| ==> layers[i].storeHash in narLayers && narLayers[layers[i].storeHash] == layers[i])
    && (forall hash :: hash in narLayers ==> ListsHash(layers, hash))
  }

  ghost predicate ListsHash(layers: seq<Layer>, hash: string) {
    exists i :: 1 <= i < |layers| && layers[i].storeHash == hash
  }

  /** What the loop has collected after the first n layers. */
  function Collected(layers: seq<Layer>, n: nat): Result<map<string, Layer>>
    requires 1 <= n <= |layers|
  {
    if n == 1 then Ok(map[])
    else
      match Collected(layers, n - 1)
      case Err => Err
      case Ok(m) =>
        var layer := layers[n - 1];
        if !ValidNarLayer(layer) || layer.storeHash in m then Err else Ok(m[layer.storeHash := layer])
  }

  lemma {:induction false} CollectedMeans(layers: seq<Layer>, n: nat)
    requires 1 <= n <= |layers|
    ensures Collected(layers, n).Ok? <==> ValidNarLayers(layers[..n])
    ensures Collected(layers, n).Ok? ==> ByHash(Collected(layers, n).value, layers[..n])
  {
    if n > 1 {
      CollectedMeans(layers, n - 1);
      var r := Collected(layers, n - 1);
      var init, layer := layers[..n - 1], layers[n - 1];
      assert layers[..n] == init + [layer];
      assert forall i :: 1 <= i < |init| ==> layers[..n][i] == init[i];
      if r.Ok? {
        ListsHashNext(init, layer);
        if Collected(layers, n).Ok? { CollectedNext(r.value, init, layer); }
      }
    }
  }

  lemma ListsHashNext(init: seq<Layer>, layer: Layer)
    requires init != [] && ValidNarLayers(init)
    ensures ValidNarLayers(init + [layer]) <==> ValidNarLayer(layer) && !ListsHash(init, layer.storeHash)
  {
    var all := init + [layer];
    if ValidNarLayers(all) {
      assert all[|init|] == layer;
      forall i | 1 <= i < |init| ensures init[i].storeHash != layer.storeHash { assert all[i].storeHash != all[|init|].storeHash; }
    }
  }

  lemma CollectedNext(m: map<string, Layer>, init: seq<Layer>, layer: Layer)
    requires init != [] && ByHash(m, init) && layer.storeHash !in m
    ensures ByHash(m[layer.storeHash := layer], init + [layer])
  {
    var all := init + [layer];
    forall hash | hash in m[layer.storeHash := layer] ensures ListsHash(all, hash) {
      if hash == layer.storeHash { assert all[|init|].storeHash == hash; }
      else {
        var i :| 1 <= i < |init| && init[i].storeHash == hash;
        assert all[i].storeHash == hash;
      }
    }
  }

  lemma {:induction false} ErrorStays(layers: seq<Layer>, n: nat, k: nat)
    requires 1 <= n <= k <= |layers| && Collected(layers, n).Err?
    ensures Collected(layers, k).Err?
  {
    if n < k { ErrorStays(layers, n, k - 1); }
  }

  /** What getManifest makes of a manifest's layers: an error, or the metadata layer and
      the NAR layers by store hash. */
  function ManifestOf(layers: seq<Layer>): Result<ManifestRef> {
    if layers == [] || layers[0].mediaType != SEGMENT_MEDIA_TYPE || layers[0].size < 0 then Err
    else
      match Collected(layers, |layers|)
      case Err => Err
      case Ok(narLayers) => Ok(ManifestRef(layers[0], narLayers))
  }

  /** It accepts exactly well-formed manifests and then finds each layer by its store hash. */
  lemma ManifestMeans(layers: seq<Layer>)
    ensures var r := ManifestOf(layers);
      && (r.Ok? <==> layers != [] && layers[0].mediaType == SEGMENT_MEDIA_TYPE && layers[0].size >= 0 && ValidNarLayers(layers))
      && (r.Ok? ==> r.value.metadata == layers[0] && ByHash(r.value.narLayers, layers))
  {
    if layers != [] {
      CollectedMeans(layers, |layers|);
      assert layers[..|layers|] == layers;
    }
  }

  method GetManifest(layers: seq<Layer>) returns (r: Result<ManifestRef>)
    ensures r == ManifestOf(layers)
  {
    if layers == [] || layers[0].mediaType != SEGMENT_MEDIA_TYPE || layers[0].size < 0 { return Err; }
    var narLayers: map<string, Layer> := map[];
    for i := 1 to |layers|
      invariant Collected(layers, i) == Ok(narLayers)
    {
      var layer := layers[i];
      if layer.mediaType != NAR_MEDIA_TYPE || layer.size < 0 || layer.storeHash == "" || layer.storeHash in narLayers {
        ErrorStays(layers, i + 1, |layers|);
        return Err;
      }
      narLayers := narLayers[layer.storeHash := layer];
    }
    r := Ok(ManifestRef(layers[0], narLayers));
  }

  // ----- validateSegment -----

  /** A path with no empty, "." or ".." component, below "nar". */
  predicate CleanNarUrl(url: seq<string>) {
    |url| >= 2 && url[0] == "nar" && Names(url)
  }

  lemma {:induction false} WalkShrinks(cur: Path, t: Text)
    ensures |Walk(cur, t)| <= |cur| + |t| && (|Walk(cur, t)| == |cur| + |t| ==> Names(t))
    decreases |t|
  {
    if t != [] { WalkShrinks(Advance(cur, t[0]), t[1..]); }
  }

  /** The URL begins with "nar/" and cleaning it changes nothing. */
  lemma CleanNarUrlMeans(url: seq<string>)
    ensures CleanNarUrl(url) <==> |url| >= 2 && url[0] == "nar" && Walk([], url) == url
  {
    WalkShrinks([], url);
    if Names(url) { WalkNames([], url); }
  }

  /** int64(x) of an unsigned 64-bit integer. */
  function ToInt64(x: nat): int {
    if x % 0x1_0000_0000_0000_0000 < 0x8000_0000_0000_0000
    then x % 0x1_0000_0000_0000_0000
    else x % 0x1_0000_0000_0000_0000 - 0x1_0000_0000_0000_0000
  }

  predicate MatchesLayer(hash: string, entry: CacheEntry, narLayers: map<string, Layer>) {
    hash in narLayers &&
    var layer := narLayers[hash];
    layer.mediaType == NAR_MEDIA_TYPE && layer.storeHash == hash && layer.blob == NarBlob(entry.narDigest) && layer.size == entry.narSize
  }

  predicate MatchesNarInfo(entry: CacheEntry) {
    var info := entry.narInfo;
    && info.NarInfo? && info.sound
    && info.storePath == entry.storePath && info.url == entry.narUrl
    && info.fileHash.FileHash? && info.fileHash.algorithm == "sha256"
    && DigestText("sha256", info.fileHash.encoded) == entry.narDigest && ToInt64(info.fileSize) == entry.narSize
  }

  /** A parsed store path always has a hash. */
  predicate IsStorePath(p: StorePathText) {
    p.StorePathText? && p.hash != ""
  }

  predicate ValidEntry(hash: string, entry: CacheEntry, narLayers: map<string, Layer>) {
    && IsStorePath(entry.storePath) && entry.storePath.hash == hash
    && CleanNarUrl(entry.narUrl)
    && entry.narDigest.DigestText? && entry.narDigest.algorithm == "sha256" && entry.narSize > 0
    && MatchesLayer(hash, entry, narLayers) && MatchesNarInfo(entry)
  }

  ghost predicate ValidSegment(tag: string, item: Item, narLayers: map<string, Layer>) {
    && item.snapshot != "" && item.system != "" && item.created != ZERO_TIME
    && SegmentTagPrefix(item.snapshot, item.system) <= tag
    && |item.entries| == |narLayers|
    && forall hash :: hash in item.entries ==> ValidEntry(hash, item.entries[hash], narLayers)
  }

  /** The entries are checked in whatever order the map yields them. */
  method ValidateSegment(tag: string, item: Item, narLayers: map<string, Layer>) returns (ok: bool)
    ensures ok <==> ValidSegment(tag, item, narLayers)
  {
    if item.snapshot == "" || item.system == "" || item.created == ZERO_TIME { return false; }
    if !(SegmentTagPrefix(item.snapshot, item.system) <= tag) { return false; }
    if |item.entries| != |narLayers| { return false; }
    var rest := item.entries.Keys;
    while rest != {}
      invariant rest <= item.entries.Keys
      invariant forall hash :: hash in item.entries.Keys - rest ==> ValidEntry(hash, item.entries[hash], narLayers)
      decreases rest
    {
      var hash :| hash in rest;
      if !ValidEntry(hash, item.entries[hash], narLayers) { return false; }
      rest := rest - {hash};
    }
    ok := true;
  }

  /** The length test and the one-sided lookups make the keys equal. */
  lemma AcceptedKeysAreLayerKeys(tag: string, item: Item, narLayers: map<string, Layer>)
    requires ValidSegment(tag, item, narLayers)
    ensures item.entries.Keys == narLayers.Keys
  {
    forall hash | hash in item.entries.Keys ensures hash in narLayers.Keys { assert ValidEntry(hash, item.entries[hash], narLayers); }
    SameSize(item.entries.Keys, narLayers.Keys);
  }

  lemma SameSize(a: set<string>, b: set<string>)
    requires a <= b && |a| == |b|
    ensures a == b
  {
    assert b == a + (b - a);
  }

  // ----- readCache -----

  /** The checks readCache makes on a parsed narinfo file. */
  predicate Publishable(info: NarInfoText) {
    && info.NarInfo? && info.sound && CleanNarUrl(info.url) && IsStorePath(info.storePath)
    && info.fileHash.FileHash? && info.fileHash.algorithm == "sha256" && info.fileSize != 0
  }

  /** The file size is an unsigned 64-bit integer. */
  predicate FitsUint64(info: NarInfoText) {
    info.NarInfo? ==> info.fileSize < 0x1_0000_0000_0000_0000
  }

  function EntryOf(info: NarInfoText, path: string): CacheEntry
    requires Publishable(info)
  {
    CacheEntry(info.storePath, info.url, DigestText("sha256", info.fileHash.encoded), ToInt64(info.fileSize), info, path)
  }

  /** Each entry is what readCache makes of a publishable narinfo, under its store hash. */
  ghost predicate FromCache(entries: map<string, CacheEntry>) {
    forall hash :: hash in entries ==>
      && Publishable(entries[hash].narInfo) && FitsUint64(entries[hash].narInfo)
      && entries[hash] == EntryOf(entries[hash].narInfo, entries[hash].narPath)
      && hash == entries[hash].narInfo.storePath.hash
  }

  predicate HasHash(info: NarInfoText, hash: string) {
    info.NarInfo? && info.storePath.StorePathText? && info.storePath.hash == hash
  }

  /** Among the first n files, the i-th is the last with its store hash. */
  predicate LastWithHash(infos: seq<NarInfoText>, n: nat, i: nat, hash: string)
    requires n <= |infos|
  {
    i < n && HasHash(infos[i], hash) && forall j :: i < j < n ==> !HasHash(infos[j], hash)
  }

  /** One entry per store hash among the first n files, made of the last file that has it. */
  ghost predicate ReadFrom(entries: map<string, CacheEntry>, infos: seq<NarInfoText>, paths: seq<string>, n: nat)
    requires n <= |infos| == |paths| && forall i :: 0 <= i < n ==> Publishable(infos[i])
  {
    && (forall hash :: hash in entries <==> exists i :: 0 <= i < n && HasHash(infos[i], hash))
    && (forall i: nat, hash :: i < n && LastWithHash(infos, n, i, hash) ==> hash in entries && entries[hash] == EntryOf(infos[i], paths[i]))
  }

  lemma ReadNext(entries: map<string, CacheEntry>, infos: seq<NarInfoText>, paths: seq<string>, n: nat)
    requires n < |infos| == |paths| && Publishable(infos[n]) && forall i :: 0 <= i < n ==> Publishable(infos[i])
    requires ReadFrom(entries, infos, paths, n)
    ensures ReadFrom(entries[infos[n].storePath.hash := EntryOf(infos[n], paths[n])], infos, paths, n + 1)
  {
    var h := infos[n].storePath.hash;
    var after := entries[h := EntryOf(infos[n], paths[n])];
    forall hash ensures hash in after <==> exists i :: 0 <= i < n + 1 && HasHash(infos[i], hash) {
      if hash == h { assert HasHash(infos[n], hash); }
      if hash in entries { var i :| 0 <= i < n && HasHash(infos[i], hash); }
    }
    forall i: nat, hash | i < n + 1 && LastWithHash(infos, n + 1, i, hash)
      ensures hash in after && after[hash] == EntryOf(infos[i], paths[i])
    {
      if i < n {
        assert !HasHash(infos[n], hash);
        assert LastWithHash(infos, n, i, hash);
      }
    }
  }

  /** An error if any file is unfit; a repeated store hash is overwritten. */
  method ReadCache(infos: seq<NarInfoText>, paths: seq<string>) returns (r: Result<map<string, CacheEntry>>)
    requires |paths| == |infos| && forall i :: 0 <= i < |infos| ==> FitsUint64(infos[i])
    ensures r.Ok? <==> infos != [] && forall i :: 0 <= i < |infos| ==> Publishable(infos[i])
    ensures r.Ok? ==> FromCache(r.value) && r.value != map[]
    ensures r.Ok? ==> ReadFrom(r.value, infos, paths, |infos|)
  {
    var entries: map<string, CacheEntry> := map[];
    for i := 0 to |infos|
      invariant FromCache(entries) && (entries != map[] <==> i > 0)
      invariant forall k :: 0 <= k < i ==> Publishable(infos[k])
      invariant ReadFrom(entries, infos, paths, i)
    {
      if !Publishable(infos[i]) { return Err; }
      ReadNext(entries, infos, paths, i);
      entries := entries[infos[i].storePath.hash := EntryOf(infos[i], paths[i])];
      assert infos[i].storePath.hash in entries;
    }
    if |entries| == 0 {
      assert entries == map[];
      return Err;
    }
    r := Ok(entries);
  }

  // ----- pushSegment and getSegment -----

  /** What the metadata document keeps of the entries: all but the local NAR path. */
  function Stored(entries: map<string, CacheEntry>): map<string, CacheEntry> {
    map hash | hash in entries :: entries[hash].(narPath := "")
  }

  function NarLayer(hash: string, entry: CacheEntry): Layer {
    Layer(NAR_MEDIA_TYPE, entry.narSize, NarBlob(entry.narDigest), hash)
  }

  function SegmentTag(snapshot: string, system: string, runId: string, random: string): string {
    SegmentTagPrefix(snapshot, system) + runId + "-" + random
  }

  /** The metadata layer, then one NAR layer per store hash in order. */
  ghost predicate PushedLayers(layers: seq<Layer>, item: Item, size: nat, entries: map<string, CacheEntry>) {
    var hashes := Sorted(entries.Keys);
    && |layers| == |hashes| + 1 && layers[0] == Layer(SEGMENT_MEDIA_TYPE, size, ItemBlob(item), "")
    && forall i :: 0 <= i < |hashes| ==> hashes[i] in entries && layers[i + 1] == NarLayer(hashes[i], entries[hashes[i]])
  }

  /** The NARs are uploaded in any order, several at a time; the first error ends the batch. */
  method UploadAll(blobs: set<Blob>, entries: map<string, CacheEntry>, accepts: Blob -> bool) returns (blobs': set<Blob>, ok: bool)
    ensures ok <==> forall hash :: hash in entries ==> accepts(NarBlob(entries[hash].narDigest))
    ensures ok ==> blobs' == blobs + set hash | hash in entries :: NarBlob(entries[hash].narDigest)
    ensures blobs <= blobs' <= blobs + set hash | hash in entries :: NarBlob(entries[hash].narDigest)
  {
    blobs' := blobs;
    var pending := entries.Keys;
    while pending != {}
      invariant pending <= entries.Keys
      invariant forall hash :: hash in entries.Keys - pending ==> accepts(NarBlob(entries[hash].narDigest))
      invariant blobs' == blobs + set hash | hash in entries.Keys - pending :: NarBlob(entries[hash].narDigest)
      decreases pending
    {
      var hash :| hash in pending;
      var blob := NarBlob(entries[hash].narDigest);
      if !accepts(blob) { return blobs', false; }
      blobs', pending := blobs' + {blob}, pending - {hash};
    }
    ok := true;
  }

  method ListLayers(item: Item, size: nat, entries: map<string, CacheEntry>) returns (layers: seq<Layer>)
    ensures PushedLayers(layers, item, size, entries)
  {
    var hashes := Sorted(entries.Keys);
    layers := [Layer(SEGMENT_MEDIA_TYPE, size, ItemBlob(item), "")];
    for index := 0 to |hashes|
      invariant |layers| == index + 1 && layers[0] == Layer(SEGMENT_MEDIA_TYPE, size, ItemBlob(item), "")
      invariant forall i :: 0 <= i < index ==> hashes[i] in entries && layers[i + 1] == NarLayer(hashes[i], entries[hashes[i]])
    {
      assert hashes[index] in hashes;
      layers := layers + [NarLayer(hashes[index], entries[hashes[index]])];
    }
  }

  ghost predicate AllBlobsIn(layers: seq<Layer>, blobs: set<Blob>) {
    forall i :: 0 <= i < |layers| ==> layers[i].blob in blobs
  }

  lemma LayersUploaded(layers: seq<Layer>, item: Item, size: nat, entries: map<string, CacheEntry>, blobs: set<Blob>)
    requires PushedLayers(layers, item, size, entries) && ItemBlob(item) in blobs
    requires forall hash :: hash in entries ==> NarBlob(entries[hash].narDigest) in blobs
    ensures AllBlobsIn(layers, blobs)
  {
    var hashes := Sorted(entries.Keys);
    forall i | 0 <= i < |layers| ensures layers[i].blob in blobs {
      if i > 0 { assert hashes[i - 1] in entries && layers[i - 1 + 1] == NarLayer(hashes[i - 1], entries[hashes[i - 1]]); }
    }
  }

  /** The metadata, the NARs, then the manifest under its tag: unless the registry accepts
      all of them no tag appears, and a manifest that appears has all its blobs. */
  method PushSegment(repo: map<string, seq<Layer>>, blobs: set<Blob>, snapshot: string, system: string, packageKey: string, runId: string,
                     random: string, now: int, size: nat, entries: map<string, CacheEntry>, accepts: Blob -> bool, tagged: bool)
    returns (repo': map<string, seq<Layer>>, blobs': set<Blob>, tag: string, ok: bool)
    ensures tag == SegmentTag(snapshot, system, runId, random) && blobs <= blobs'
    ensures ok <==>
      && accepts(ItemBlob(Item(SEGMENT_VERSION, snapshot, system, packageKey, now, Stored(entries))))
      && (forall hash :: hash in entries ==> accepts(NarBlob(entries[hash].narDigest))) && tagged
    ensures ok ==> tag in repo' && repo' == repo[tag := repo'[tag]] && AllBlobsIn(repo'[tag], blobs')
    ensures ok ==> PushedLayers(repo'[tag], Item(SEGMENT_VERSION, snapshot, system, packageKey, now, Stored(entries)), size, entries)
    ensures !ok ==> repo' == repo
  {
    repo', blobs', tag, ok := repo, blobs, SegmentTag(snapshot, system, runId, random), false;
    var item := Item(SEGMENT_VERSION, snapshot, system, packageKey, now, Stored(entries));
    if !accepts(ItemBlob(item)) { return; }
    var layers := ListLayers(item, size, entries);
    var uploaded: bool;
    blobs', uploaded := UploadAll(blobs + {ItemBlob(item)}, entries, accepts);
    if !uploaded || !tagged { return; }
    LayersUploaded(layers, item, size, entries, blobs');
    repo', ok := repo[tag := layers], true;
  }

  /** What getSegment makes of the manifest under a tag. */
  ghost function SegmentOf(tag: string, layers: seq<Layer>): Result<Segment> {
    match ManifestOf(layers)
    case Err => Err
    case Ok(manifest) =>
      if manifest.metadata.blob.ItemBlob? && manifest.metadata.blob.item.version == SEGMENT_VERSION &&
         ValidSegment(tag, manifest.metadata.blob.item, manifest.narLayers)
      then Ok(AsSegment(tag, manifest.metadata.blob.item)) else Err
  }

  function AsSegment(tag: string, item: Item): Segment {
    Segment(tag, item.system, item.snapshot, item.packageKey, item.created, item.entries)
  }

  method GetSegment(tag: string, layers: seq<Layer>) returns (r: Result<Segment>)
    ensures r == SegmentOf(tag, layers)
  {
    var manifest := GetManifest(layers);
    if manifest.Err? { return Err; }
    if !manifest.value.metadata.blob.ItemBlob? { return Err; }
    var item := manifest.value.metadata.blob.item;
    if item.version != SEGMENT_VERSION { return Err; }
    var valid := ValidateSegment(tag, item, manifest.value.narLayers);
    r := if valid then Ok(AsSegment(tag, item)) else Err;
  }

  /** Every NAR is small enough for its size to stay positive as a signed integer. */
  ghost predicate SizesFit(entries: map<string, CacheEntry>) {
    forall hash :: hash in entries ==> entries[hash].narInfo.NarInfo? && entries[hash].narInfo.fileSize < 0x8000_0000_0000_0000
  }

  lemma SignedSize(entries: map<string, CacheEntry>, hash: string)
    requires FromCache(entries) && hash in entries
    ensures entries[hash].narSize > 0 <==> entries[hash].narInfo.fileSize < 0x8000_0000_0000_0000
    ensures entries[hash].narSize >= 0 <==> entries[hash].narSize > 0
  {}

  lemma PushedIsValid(layers: seq<Layer>, item: Item, size: nat, entries: map<string, CacheEntry>)
    requires PushedLayers(layers, item, size, entries) && FromCache(entries)
    ensures ValidNarLayers(layers) ==> SizesFit(entries)
    ensures SizesFit(entries) ==> ValidNarLayers(layers)
  {
    var hashes := Sorted(entries.Keys);
    if ValidNarLayers(layers) {
      forall hash | hash in entries ensures entries[hash].narInfo.fileSize < 0x8000_0000_0000_0000 {
        assert hash in hashes;
        var i :| 0 <= i < |hashes| && hashes[i] == hash;
        SignedSize(entries, hash);
        assert ValidNarLayer(layers[i + 1]);
      }
    }
    if SizesFit(entries) {
      forall i | 1 <= i < |layers| ensures ValidNarLayer(layers[i]) && layers[i].storeHash == hashes[i - 1] {
        SignedSize(entries, hashes[i - 1]);
      }
    }
  }

  lemma PushedEntryValid(layers: seq<Layer>, item: Item, size: nat, entries: map<string, CacheEntry>,
                         narLayers: map<string, Layer>, hash: string)
    requires PushedLayers(layers, item, size, entries) && FromCache(entries) && SizesFit(entries)
    requires ByHash(narLayers, layers) && hash in entries
    ensures ValidEntry(hash, Stored(entries)[hash], narLayers)
  {
    var hashes := Sorted(entries.Keys);
    assert hash in hashes;
    var i :| 0 <= i < |hashes| && hashes[i] == hash;
    SignedSize(entries, hash);
    assert layers[i + 1] == NarLayer(hash, entries[hash]);
    assert narLayers[layers[i + 1].storeHash] == layers[i + 1];
  }

  /** What was pushed is a well-formed manifest of a valid segment exactly when the sizes fit. */
  lemma PushedLoads(layers: seq<Layer>, tag: string, item: Item, size: nat, entries: map<string, CacheEntry>)
    requires FromCache(entries) && PushedLayers(layers, item, size, entries) && item.entries == Stored(entries)
    requires item.snapshot != "" && item.system != "" && item.created != ZERO_TIME
    requires SegmentTagPrefix(item.snapshot, item.system) <= tag
    ensures ManifestOf(layers).Ok? <==> SizesFit(entries)
    ensures SizesFit(entries) ==>
      ManifestOf(layers).value.metadata == layers[0] && ValidSegment(tag, item, ManifestOf(layers).value.narLayers)
  {
    ManifestMeans(layers);
    PushedIsValid(layers, item, size, entries);
    if SizesFit(entries) {
      PushedSegmentValid(layers, item, size, entries, ManifestOf(layers).value.narLayers);
    }
  }

  /** Entries that readCache accepted and pushSegment published come back from getSegment
      unchanged but for their local paths, exactly when every NAR size is below 2^63. */
  lemma PublishLoadRoundTrip(layers: seq<Layer>, snapshot: string, system: string, packageKey: string, runId: string,
                             random: string, now: int, size: nat, entries: map<string, CacheEntry>)
    requires FromCache(entries) && snapshot != "" && system != "" && now != ZERO_TIME
    requires PushedLayers(layers, Item(SEGMENT_VERSION, snapshot, system, packageKey, now, Stored(entries)), size, entries)
    ensures var tag := SegmentTag(snapshot, system, runId, random);
      SegmentOf(tag, layers) ==
        if SizesFit(entries) then Ok(Segment(tag, system, snapshot, packageKey, now, Stored(entries))) else Err
  {
    var tag := SegmentTag(snapshot, system, runId, random);
    assert SegmentTagPrefix(snapshot, system) <= tag;
    PushedLoads(layers, tag, Item(SEGMENT_VERSION, snapshot, system, packageKey, now, Stored(entries)), size, entries);
  }

  /** A sound narinfo of a NAR of 2^63 bytes; readCache accepts it. */
  function Oversize(): (info: NarInfoText)
    ensures Publishable(info) && FitsUint64(info) && info.storePath.hash == "h" && info.fileSize == 0x8000_0000_0000_0000
  {
    var url := ["nar", "x"];
    assert CleanNarUrl(url);
    NarInfo(StorePathText("h", "n"), url, FileHash("sha256", "d"), 0x8000_0000_0000_0000, true)
  }

  /** Such an entry is published, with a negative size, and then refused on load. */
  lemma OversizeIsRefused(layers: seq<Layer>, snapshot: string, system: string, packageKey: string, runId: string,
                          random: string, now: int, size: nat)
    requires snapshot != "" && system != "" && now != ZERO_TIME
    requires var entries := map["h" := EntryOf(Oversize(), "")];
      PushedLayers(layers, Item(SEGMENT_VERSION, snapshot, system, packageKey, now, Stored(entries)), size, entries)
    ensures FromCache(map["h" := EntryOf(Oversize(), "")]) && EntryOf(Oversize(), "").narSize == -0x8000_0000_0000_0000
    ensures SegmentOf(SegmentTag(snapshot, system, runId, random), layers) == Err
  {
    var info := Oversize();
    var entries := map["h" := EntryOf(info, "")];
    assert entries["h"].narInfo == info && FromCache(entries) && !SizesFit(entries);
    PublishLoadRoundTrip(layers, snapshot, system, packageKey, runId, random, now, size, entries);
  }

  lemma PushedSegmentValid(layers: seq<Layer>, item: Item, size: nat, entries: map<string, CacheEntry>, narLayers: map<string, Layer>)
    requires PushedLayers(layers, item, size, entries) && FromCache(entries) && SizesFit(entries)
    requires ByHash(narLayers, layers) && item.entries == Stored(entries)
    ensures |item.entries| == |narLayers|
    ensures forall hash :: hash in item.entries ==> ValidEntry(hash, item.entries[hash], narLayers)
  {
    SortedLength(entries.Keys);
    assert item.entries.Keys == entries.Keys;
    forall hash | hash in item.entries ensures ValidEntry(hash, item.entries[hash], narLayers) {
      PushedEntryValid(layers, item, size, entries, narLayers, hash);
    }
  }
}
