/** The served index (cmd/nixcache/serve.go): what a refresh replaces, what a request
    is answered with, and every interleaving of refreshes and requests under the lock. */
module Serve {
  import opened FileTree
  import opened Segments
  import opened PathText
  import opened Manifests

  type Entries = map<string, CacheEntry>

  /** The URL under which an entry's NAR is requested. */
  function Url(entry: CacheEntry): string {
    if entry.narUrl == [] then "" else Join(entry.narUrl)
  }

  /** `nars` has exactly the NAR URLs of `entries`, each with an entry that has that URL. */
  ghost predicate Consistent(entries: Entries, nars: Entries) {
    && (forall hash :: hash in entries ==> Url(entries[hash]) in nars)
    && (forall url :: url in nars ==> Url(nars[url]) == url && nars[url] in entries.Values)
  }

  // ----- one request -----

  const NAR_INFO_SUFFIX := ".narinfo"

  predicate HasSuffix(s: string, suffix: string) {
    |suffix| <= |s| && s[|s| - |suffix|..] == suffix
  }

  datatype Verb = Get | Head | OtherVerb

  datatype Answer =
    | NotAllowed
    | NotReady
    | CacheInfo
    | NarInfoOf(entry: CacheEntry)
    | NarOf(entry: CacheEntry)
    | NarHeaders(entry: CacheEntry)
    | BadBlob
    | NotFound

  /** The answer to a request for `path` by the index as it is; `readable` says which blobs
      the registry hands out. */
  function Respond(entries: Entries, nars: Entries, ready: bool, readable: DigestText -> bool, verb: Verb, path: string): Answer {
    var p := if "/" <= path then path[1..] else path;
    if verb.OtherVerb? then NotAllowed
    else if p == "nix-cache-info" then if ready then CacheInfo else NotReady
    else if HasSuffix(p, NAR_INFO_SUFFIX) then
      var hash := p[..|p| - |NAR_INFO_SUFFIX|];
      if hash in entries then NarInfoOf(entries[hash]) else NotFound
    else if "nar/" <= p then
      if p !in nars then NotFound
      else if verb.Head? then NarHeaders(nars[p])
      else if readable(nars[p].narDigest) then NarOf(nars[p]) else BadBlob
    else NotFound
  }

  /** A clean NAR URL is below "nar/". */
  lemma CleanUrlIsBelowNar(entry: CacheEntry)
    requires CleanNarUrl(entry.narUrl)
    ensures "nar/" <= Url(entry)
  {
    var rest := Join(entry.narUrl[1..]);
    assert Join(entry.narUrl) == "nar" + "/" + rest;
    assert "nar" + "/" == "nar/";
  }

  /** A narinfo is found under its hash. A client that follows its URL gets a NAR with that
      URL from the same index, exactly when the URL does not itself end in ".narinfo" and
      the blob can be read. */
  lemma NarInfoLeadsToNar(entries: Entries, nars: Entries, ready: bool, readable: DigestText -> bool, hash: string)
    requires Consistent(entries, nars) && hash in entries && CleanNarUrl(entries[hash].narUrl)
    ensures Respond(entries, nars, ready, readable, Get, "/" + hash + NAR_INFO_SUFFIX) == NarInfoOf(entries[hash])
    ensures var url := Url(entries[hash]);
      var r := Respond(entries, nars, ready, readable, Get, "/" + url);
      && url in nars && Url(nars[url]) == url
      && (r.NarOf? <==> !HasSuffix(url, NAR_INFO_SUFFIX) && readable(nars[url].narDigest))
      && (r.NarOf? ==> r.entry == nars[url])
  {
    var url := Url(entries[hash]);
    CleanUrlIsBelowNar(entries[hash]);
    assert ("/" + url)[1..] == url && url[0] == 'n' && url[3] == '/';
    assert "nix-cache-info"[3] == '-' && "nix-cache-info"[6] == 'c' && |"nix-cache-info"| == 14;
    assert (hash + NAR_INFO_SUFFIX)[|hash|] == '.';
    assert ("/" + hash + NAR_INFO_SUFFIX)[1..] == hash + NAR_INFO_SUFFIX;
    assert (hash + NAR_INFO_SUFFIX)[..|hash|] == hash && (hash + NAR_INFO_SUFFIX)[|hash|..] == NAR_INFO_SUFFIX;
  }

  /** A sound narinfo whose NAR is itself named like one; readCache accepts it. */
  function Disguised(): (info: NarInfoText)
    ensures Publishable(info) && info.fileSize == 1 && info.storePath.hash == "h" && info.url == ["nar", "x.narinfo"]
  {
    var url := ["nar", "x.narinfo"];
    assert CleanNarUrl(url);
    NarInfo(StorePathText("h", "n"), url, FileHash("sha256", "d"), 1, true)
  }

  lemma DisguisedUrl()
    ensures Url(EntryOf(Disguised(), "")) == "nar/x.narinfo"
  {
    var e := EntryOf(Disguised(), "");
    assert e.narUrl[1..] == ["x.narinfo"];
    assert Url(e) == "nar" + "/" + "x.narinfo" == "nar/x.narinfo";
  }

  /** Such an entry loads back after publishing, since its size fits; its narinfo is served
      and its NAR is not found, whatever the registry hands out. */
  lemma NarNamedLikeNarInfo(nars: Entries, ready: bool, readable: DigestText -> bool)
    requires Consistent(map["h" := EntryOf(Disguised(), "")], nars)
    ensures FromCache(map["h" := EntryOf(Disguised(), "")]) && SizesFit(map["h" := EntryOf(Disguised(), "")])
    ensures var entries: Entries := map["h" := EntryOf(Disguised(), "")];
      && Respond(entries, nars, ready, readable, Get, "/" + "h" + NAR_INFO_SUFFIX) == NarInfoOf(entries["h"])
      && Respond(entries, nars, ready, readable, Get, "/" + Url(entries["h"])) == NotFound
      && Url(entries["h"]) == "nar/x.narinfo" && Url(entries["h"]) in nars
  {
    var entries: Entries := map["h" := EntryOf(Disguised(), "")];
    DisguisedUrl();
    assert CleanNarUrl(entries["h"].narUrl);
    NarInfoLeadsToNar(entries, nars, ready, readable, "h");
    var p := "nar/x.narinfo";
    assert |p| == 13 && p[..5] == "nar/x" && p[5..] == NAR_INFO_SUFFIX && ("/" + p)[1..] == p;
    assert p != "nix-cache-info" by { assert |"nix-cache-info"| == 14; }
    assert p[..5] !in entries by { assert |p[..5]| == 5 && |"h"| == 1; }
  }

  /** p is the request path without its leading slash. */
  predicate IsRequestFor(path: string, p: string) {
    path == "/" + p || (path == p && !("/" <= path))
  }

  /** The path names a NAR of the index, and not by a URL that reads as a narinfo request. */
  predicate NamesNar(nars: Entries, p: string) {
    p in nars && "nar/" <= p && !HasSuffix(p, NAR_INFO_SUFFIX)
  }

  predicate IsNarInfoOf(p: string, hash: string) {
    HasSuffix(p, NAR_INFO_SUFFIX) && p[..|p| - |NAR_INFO_SUFFIX|] == hash
  }

  lemma NarInfoPath(p: string, hash: string)
    ensures p == hash + NAR_INFO_SUFFIX <==> IsNarInfoOf(p, hash)
  {
    if p == hash + NAR_INFO_SUFFIX { assert p[|hash|..] == NAR_INFO_SUFFIX; }
    if IsNarInfoOf(p, hash) { assert p == p[..|p| - |NAR_INFO_SUFFIX|] + NAR_INFO_SUFFIX; }
  }

  /** The path of the cache information is neither a narinfo's nor a NAR's. */
  lemma CacheInfoIsNeither()
    ensures !HasSuffix("nix-cache-info", NAR_INFO_SUFFIX) && !("nar/" <= "nix-cache-info")
  {
    var p := "nix-cache-info";
    assert p[1] == 'i' && p[|p| - |NAR_INFO_SUFFIX|..][0] == p[6] == 'c' && NAR_INFO_SUFFIX[0] == '.' && "nar/"[1] == 'a';
  }

  lemma RequestPath(path: string, p: string)
    requires IsRequestFor(path, p)
    ensures (if "/" <= path then path[1..] else path) == p
  {}

  /** The cache information is answered exactly when the index is ready; before that the same
      request is told so. */
  lemma InfoAnswersExactly(entries: Entries, nars: Entries, ready: bool, readable: DigestText -> bool, verb: Verb, path: string, p: string)
    requires IsRequestFor(path, p)
    ensures var r := Respond(entries, nars, ready, readable, verb, path);
      && (r.NotAllowed? <==> verb.OtherVerb?)
      && (r.CacheInfo? <==> !verb.OtherVerb? && p == "nix-cache-info" && ready)
      && (r.NotReady? <==> !verb.OtherVerb? && p == "nix-cache-info" && !ready)
      && (r.NarInfoOf? ==> HasSuffix(p, NAR_INFO_SUFFIX))
  {
    RequestPath(path, p);
  }

  /** A request for a narinfo is answered with it exactly when the index has the hash. */
  lemma NarInfoAnswersExactly(entries: Entries, nars: Entries, ready: bool, readable: DigestText -> bool, verb: Verb, path: string, hash: string)
    requires IsRequestFor(path, hash + NAR_INFO_SUFFIX)
    ensures Respond(entries, nars, ready, readable, verb, path) ==
      if verb.OtherVerb? then NotAllowed else if hash in entries then NarInfoOf(entries[hash]) else NotFound
  {
    RequestPath(path, hash + NAR_INFO_SUFFIX);
    CacheInfoIsNeither();
    NarInfoPath(hash + NAR_INFO_SUFFIX, hash);
  }

  /** A request for a NAR of the index is answered with it, with its headers, or with the
      error that its blob cannot be read; and these answers are given for nothing else. */
  lemma NarAnswersExactly(entries: Entries, nars: Entries, ready: bool, readable: DigestText -> bool, verb: Verb, path: string, p: string)
    requires IsRequestFor(path, p)
    ensures var r := Respond(entries, nars, ready, readable, verb, path);
      if !verb.OtherVerb? && NamesNar(nars, p) then
        r == if verb.Head? then NarHeaders(nars[p]) else if readable(nars[p].narDigest) then NarOf(nars[p]) else BadBlob
      else !r.NarOf? && !r.NarHeaders? && !r.BadBlob?
  {
    CacheInfoIsNeither();
    RequestPath(path, p);
  }

  /** HEAD finds exactly what GET finds, and for a NAR without asking for its blob. */
  lemma HeadFindsWhatGetFinds(entries: Entries, nars: Entries, ready: bool, readable: DigestText -> bool, path: string)
    ensures var get := Respond(entries, nars, ready, readable, Get, path);
      var head := Respond(entries, nars, ready, readable, Head, path);
      && (head.NarHeaders? ==> get == if readable(head.entry.narDigest) then NarOf(head.entry) else BadBlob)
      && (!head.NarHeaders? ==> get == head)
  {}

  class CacheIndex {
    var entries: Entries
    var nars: Entries
    var ready: bool

    ghost predicate Valid()
      reads this
    {
      Consistent(entries, nars)
    }

    constructor ()
      ensures Valid() && !ready && entries == map[]
    {
      entries, nars, ready := map[], map[], false;
    }

    /** A failed load changes nothing; a successful one replaces both maps. */
    method Refresh(loaded: Result<Entries>) returns (ok: bool)
      requires Valid()
      modifies this
      ensures Valid() && ready == old(ready)
      ensures ok == loaded.Ok?
      ensures if ok then entries == loaded.value else entries == old(entries) && nars == old(nars)
    {
      if loaded.Err? { return false; }
      var byUrl := NarsByUrl(loaded.value);
      entries := loaded.value;
      nars := byUrl;
      ok := true;
    }

    method Serve(verb: Verb, path: string, readable: DigestText -> bool) returns (answer: Answer)
      ensures answer == Respond(entries, nars, ready, readable, verb, path)
    {
      if verb != Get && verb != Head { return NotAllowed; }
      var p := if "/" <= path then path[1..] else path;
      if p == "nix-cache-info" {
        if !ready { return NotReady; }
        return CacheInfo;
      }
      if HasSuffix(p, NAR_INFO_SUFFIX) {
        var hash := p[..|p| - |NAR_INFO_SUFFIX|];
        if hash !in entries { return NotFound; }
        return NarInfoOf(entries[hash]);
      }
      if "nar/" <= p {
        if p !in nars { return NotFound; }
        if verb == Head { return NarHeaders(nars[p]); }
        if !readable(nars[p].narDigest) { return BadBlob; }
        return NarOf(nars[p]);
      }
      return NotFound;
    }
  }

  /** Entries in whatever order the map yields them; of several with one URL the last stays. */
  method NarsByUrl(entries: Entries) returns (nars: Entries)
    ensures Consistent(entries, nars)
  {
    nars := map[];
    var rest := entries.Keys;
    while rest != {}
      invariant rest <= entries.Keys
      invariant forall hash :: hash in entries.Keys - rest ==> Url(entries[hash]) in nars
      invariant forall url :: url in nars ==> Url(nars[url]) == url && nars[url] in entries.Values
      decreases rest
    {
      var hash :| hash in rest;
      assert entries[hash] in entries.Values;
      nars := nars[Url(entries[hash]) := entries[hash]];
      rest := rest - {hash};
    }
  }
}
