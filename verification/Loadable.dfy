/** Exactly which manifests getSegment (cmd/nixcache/registry.go) loads: those that list what
    could have been pushed, in whatever order. */
module Loadable {
  import opened Segments
  import opened Manifests

  /** The entry is what readCache makes of its own narinfo, and its size is positive. */
  predicate Sendable(hash: string, entry: CacheEntry) {
    && Publishable(entry.narInfo) && entry == EntryOf(entry.narInfo, entry.narPath)
    && hash == entry.narInfo.storePath.hash && entry.narSize > 0
  }

  /** After the metadata layer come the layers of the entries' NARs, each once. */
  ghost predicate ListsNars(layers: seq<Layer>, entries: map<string, CacheEntry>) {
    && |layers| == |entries| + 1
    && (forall i :: 1 <= i < |layers| ==>
          layers[i].storeHash in entries && layers[i] == NarLayer(layers[i].storeHash, entries[layers[i].storeHash]))
    && forall i, j :: 1 <= i < j < |layers| ==> layers[i].storeHash != layers[j].storeHash
  }

  /** The metadata names a snapshot, a system and a time, and the tag begins with theirs. */
  predicate Complete(tag: string, item: Item) {
    && item.version == SEGMENT_VERSION && item.snapshot != "" && item.system != "" && item.created != ZERO_TIME
    && SegmentTagPrefix(item.snapshot, item.system) <= tag
  }

  ghost predicate IsLoadable(tag: string, layers: seq<Layer>) {
    && layers != [] && layers[0].mediaType == SEGMENT_MEDIA_TYPE && layers[0].size >= 0 && layers[0].blob.ItemBlob?
    && var item := layers[0].blob.item;
       && Complete(tag, item) && ListsNars(layers, item.entries)
       && forall hash :: hash in item.entries ==> Sendable(hash, item.entries[hash])
  }

  /** Against its own layer an entry is valid exactly when it could have been pushed. */
  lemma ValidIsSendable(hash: string, entry: CacheEntry, narLayers: map<string, Layer>)
    requires hash in narLayers
    ensures ValidEntry(hash, entry, narLayers) <==> Sendable(hash, entry) && narLayers[hash] == NarLayer(hash, entry)
  {}

  lemma AcceptedIsLoadable(tag: string, layers: seq<Layer>)
    requires SegmentOf(tag, layers).Ok?
    ensures IsLoadable(tag, layers)
  {
    ManifestMeans(layers);
    var narLayers, item := ManifestOf(layers).value.narLayers, layers[0].blob.item;
    AcceptedKeysAreLayerKeys(tag, item, narLayers);
    forall hash | hash in item.entries ensures Sendable(hash, item.entries[hash]) && narLayers[hash] == NarLayer(hash, item.entries[hash]) {
      assert hash in narLayers.Keys && ValidEntry(hash, item.entries[hash], narLayers);
      ValidIsSendable(hash, item.entries[hash], narLayers);
    }
    forall i | 1 <= i < |layers|
      ensures layers[i].storeHash in item.entries && layers[i] == NarLayer(layers[i].storeHash, item.entries[layers[i].storeHash])
    {
      assert layers[i].storeHash in narLayers.Keys;
    }
  }

  lemma ListedKeys(layers: seq<Layer>, entries: map<string, CacheEntry>, narLayers: map<string, Layer>)
    requires ListsNars(layers, entries) && ByHash(narLayers, layers)
    ensures narLayers.Keys == entries.Keys && |narLayers| == |entries|
  {
    forall hash | hash in narLayers.Keys ensures hash in entries.Keys {
      assert ListsHash(layers, hash);
      var i :| 1 <= i < |layers| && layers[i].storeHash == hash;
    }
    SameSize(narLayers.Keys, entries.Keys);
  }

  lemma ListedIsValid(layers: seq<Layer>, entries: map<string, CacheEntry>, narLayers: map<string, Layer>, hash: string)
    requires ListsNars(layers, entries) && ByHash(narLayers, layers)
    requires hash in entries && Sendable(hash, entries[hash])
    ensures ValidEntry(hash, entries[hash], narLayers)
  {
    ListedKeys(layers, entries, narLayers);
    assert hash in narLayers.Keys && ListsHash(layers, hash);
    var i :| 1 <= i < |layers| && layers[i].storeHash == hash;
    ValidIsSendable(hash, entries[hash], narLayers);
  }

  lemma LoadableIsAccepted(tag: string, layers: seq<Layer>)
    requires IsLoadable(tag, layers)
    ensures SegmentOf(tag, layers).Ok?
  {
    var item := layers[0].blob.item;
    forall i | 1 <= i < |layers| ensures ValidNarLayer(layers[i]) { assert Sendable(layers[i].storeHash, item.entries[layers[i].storeHash]); }
    ManifestMeans(layers);
    var narLayers := ManifestOf(layers).value.narLayers;
    ListedKeys(layers, item.entries, narLayers);
    forall hash | hash in item.entries ensures ValidEntry(hash, item.entries[hash], narLayers) {
      ListedIsValid(layers, item.entries, narLayers, hash);
    }
  }

  /** A manifest loads exactly when its metadata is complete and its other layers are those
      of entries that readCache could have made, each once and with a positive size; the
      segment then has these entries. */
  lemma LoadsExactly(tag: string, layers: seq<Layer>)
    ensures SegmentOf(tag, layers).Ok? <==> IsLoadable(tag, layers)
    ensures SegmentOf(tag, layers).Ok? ==>
      var item := layers[0].blob.item;
      SegmentOf(tag, layers).value == Segment(tag, item.system, item.snapshot, item.packageKey, item.created, item.entries)
  {
    if SegmentOf(tag, layers).Ok? { AcceptedIsLoadable(tag, layers); ManifestMeans(layers); }
    if IsLoadable(tag, layers) { LoadableIsAccepted(tag, layers); }
  }

  /** The layer is that of the entry's NAR: its hash, its digest and its size. */
  predicate IsLayerOf(layer: Layer, hash: string, entry: CacheEntry) {
    layer.storeHash == hash && layer.blob == NarBlob(entry.narDigest) && layer.size == entry.narSize
  }

  /** The blob of each loaded entry is one that the manifest names, with the entry's size, and
      the manifest names no other. */
  lemma LoadedBlobs(tag: string, layers: seq<Layer>, hash: string)
    requires SegmentOf(tag, layers).Ok?
    ensures var entries := SegmentOf(tag, layers).value.entries;
      && (forall i :: 1 <= i < |layers| ==> layers[i].storeHash in entries)
      && (hash in entries ==> exists i :: 1 <= i < |layers| && IsLayerOf(layers[i], hash, entries[hash]))
  {
    LoadsExactly(tag, layers);
    ManifestMeans(layers);
    var entries := SegmentOf(tag, layers).value.entries;
    ListedKeys(layers, entries, ManifestOf(layers).value.narLayers);
    if hash in entries {
      assert hash in ManifestOf(layers).value.narLayers.Keys;
      assert ListsHash(layers, hash);
      var i :| 1 <= i < |layers| && layers[i].storeHash == hash;
      assert layers[i] == NarLayer(hash, entries[hash]);
    }
  }
}
