/** The tag prefix keeps the snapshots of a registry apart (cmd/nixcache/registry.go,
    cmd/nixcache/model.go): what a server that loads one snapshot can see of the others. */
module Snapshots {
  import opened Segments
  import FileTree
  import opened Manifests
  import opened Loader
  import opened CacheRun
  import opened Serve

  /** The identifier begins with x, a leading "sha256:" aside. */
  predicate NamesSnapshot(id: string, x: string) {
    if "sha256:" <= id then "sha256:" + x <= id else x <= id
  }

  /** Sixteen characters and none of them a dash, as of a hash in hexadecimal digits. */
  predicate IsShortHash(x: string) {
    |x| == 16 && '-' !in x
  }

  /** Neither system continues the other after a dash. */
  predicate Apart(a: string, b: string) {
    a == b || (!(a + "-" <= b) && !(b + "-" <= a))
  }

  // ----- the text of a prefix -----

  /** What the prefix keeps of an identifier. */
  lemma PrefixText(id: string, system: string) returns (short: string)
    ensures SegmentTagPrefix(id, system) == "v1-" + short + "-" + system + "-"
    ensures |short| <= 16 && NamesSnapshot(id, short)
    ensures forall x :: |x| == 16 ==> (NamesSnapshot(id, x) <==> short == x)
  {
    var trimmed := TrimSha256(id);
    short := if |trimmed| > 16 then trimmed[..16] else trimmed;
    assert "sha256:" <= id ==> id == "sha256:" + trimmed;
    forall x: string | |x| == 16 ensures NamesSnapshot(id, x) <==> short == x {
      assert NamesSnapshot(id, x) <==> x <= trimmed by {
        if "sha256:" <= id { PrefixThen("sha256:", x, trimmed); }
      }
    }
    if "sha256:" <= id { PrefixThen("sha256:", short, trimmed); }
  }

  lemma PrefixThen(p: string, a: string, b: string)
    ensures p + a <= p + b <==> a <= b
  {
    assert (p + a)[|p|..] == a && (p + b)[|p|..] == b;
    if p + a <= p + b {
      forall i | 0 <= i < |a| ensures a[i] == b[i] { assert (p + a)[|p| + i] == (p + b)[|p| + i]; }
    }
  }

  /** A text without a dash is what stands before the first dash. */
  lemma BeforeDash(x: string, a: string, short: string, b: string)
    requires IsShortHash(x) && |short| <= 16 && x + "-" + a <= short + "-" + b
    ensures short == x && a <= b
  {
    var p, q := x + "-" + a, short + "-" + b;
    assert q[|short|] == '-' && forall i :: 0 <= i < 16 ==> p[i] == x[i];
    if |short| < 16 {
      assert false;
    } else {
      forall i | 0 <= i < 16 ensures short[i] == x[i] { assert p[i] == q[i]; }
      assert short == x;
      PrefixThen(x + "-", a, b);
    }
  }

  lemma ShortDecides(x: string, a: string, short: string, b: string)
    requires IsShortHash(x) && |short| <= 16
    ensures x + "-" + a <= short + "-" + b <==> short == x && a <= b
  {
    if x + "-" + a <= short + "-" + b { BeforeDash(x, a, short, b); }
    if short == x { PrefixThen(x + "-", a, b); }
  }

  lemma TagText(short: string, system: string, rest: string)
    ensures "v1-" + short + "-" + system + "-" + rest == "v1-" + (short + "-" + (system + "-" + rest))
  {}

  lemma UnderText(x: string, system: string, id: string, own: string, rest: string)
    requires IsShortHash(x)
    ensures "v1-" + x + "-" + system + "-" <= SegmentTagPrefix(id, own) + rest <==>
      NamesSnapshot(id, x) && system + "-" <= own + "-" + rest
  {
    var short := PrefixText(id, own);
    var a, b := system + "-", own + "-" + rest;
    TagText(x, system, "");
    assert "v1-" + x + "-" + system + "-" + "" == "v1-" + x + "-" + system + "-" && a + "" == a;
    TagText(short, own, rest);
    PrefixThen("v1-", x + "-" + a, short + "-" + b);
    ShortDecides(x, a, short, b);
  }

  // ----- which segments lie under a prefix -----

  /** A tag made for one snapshot and system lies under the prefix of another exactly when
      the snapshots share their first sixteen characters and the tag goes on with the other
      system and a dash. */
  lemma UnderPrefixExactly(snapshot: string, x: string, system: string, id: string, own: string, tag: string)
    requires IsShortHash(x) && NamesSnapshot(snapshot, x) && SegmentTagPrefix(id, own) <= tag
    ensures SegmentTagPrefix(snapshot, system) <= tag <==>
      NamesSnapshot(id, x) && system + "-" <= own + "-" + tag[|SegmentTagPrefix(id, own)|..]
    ensures Apart(system, own) ==> (SegmentTagPrefix(snapshot, system) <= tag <==> NamesSnapshot(id, x) && own == system)
  {
    var short := PrefixText(snapshot, system);
    var rest := tag[|SegmentTagPrefix(id, own)|..];
    assert tag == SegmentTagPrefix(id, own) + rest;
    UnderText(x, system, id, own, rest);
    if Apart(system, own) { ContinuesOnly(system, own, rest); }
  }

  lemma ContinuesOnly(a: string, b: string, rest: string)
    requires Apart(a, b)
    ensures a + "-" <= b + "-" + rest <==> a == b
  {
    if a + "-" <= b + "-" + rest { OneContinues(a, b, rest); }
    if a == b { PrefixThen(a + "-", "", rest); assert a + "-" + "" == a + "-"; }
  }

  lemma OneContinues(a: string, b: string, rest: string)
    requires a + "-" <= b + "-" + rest
    ensures a == b || a + "-" <= b || b + "-" <= a
  {
    var p, q := a + "-", b + "-" + rest;
    forall i | 0 <= i < |p| ensures p[i] == q[i] {}
    if |a| < |b| {
      forall i | 0 <= i < |p| ensures p[i] == b[i] { assert p[i] == q[i]; }
    } else if |b| < |a| {
      forall i | 0 <= i < |b| + 1 ensures (b + "-")[i] == a[i] { assert p[i] == q[i]; }
    } else {
      forall i | 0 <= i < |a| ensures a[i] == b[i] { assert p[i] == q[i]; }
    }
  }

  /** Whatever follows them, the tags of two systems are told apart exactly when neither
      system continues the other after a dash. */
  lemma ApartExactly(snapshot: string, x: string, system: string, own: string)
    requires IsShortHash(x) && NamesSnapshot(snapshot, x)
    ensures Apart(system, own) <==>
      forall rest :: (SegmentTagPrefix(snapshot, system) <= SegmentTagPrefix(snapshot, own) + rest <==> own == system)
  {
    forall rest: string | Apart(system, own)
      ensures SegmentTagPrefix(snapshot, system) <= SegmentTagPrefix(snapshot, own) + rest <==> own == system
    {
      UnderPrefixExactly(snapshot, x, system, snapshot, own, SegmentTagPrefix(snapshot, own) + rest);
    }
    if !Apart(system, own) {
      var rest := if system + "-" <= own then "" else system[|own| + 1..] + "-";
      var tag := SegmentTagPrefix(snapshot, own) + rest;
      if system + "-" <= own {
        assert system + "-" <= own + "-" + rest;
      } else {
        assert system == own + "-" + system[|own| + 1..];
        assert own + "-" + rest == system + "-";
      }
      assert tag[|SegmentTagPrefix(snapshot, own)|..] == rest;
      UnderPrefixExactly(snapshot, x, system, snapshot, own, tag);
      assert SegmentTagPrefix(snapshot, system) <= SegmentTagPrefix(snapshot, own) + rest;
    }
  }

  /** A processor and an operating system with one dash between them. */
  predicate OneDash(system: string) {
    exists k :: 0 <= k < |system| && system[k] == '-' && forall j :: 0 <= j < |system| && system[j] == '-' ==> j == k
  }

  lemma LongerHasTwo(a: string, b: string)
    requires OneDash(a) && a + "-" <= b
    ensures !OneDash(b)
  {
    var k :| 0 <= k < |a| && a[k] == '-';
    assert b[k] == (a + "-")[k] == '-' && b[|a|] == (a + "-")[|a|] == '-';
  }

  /** The systems the program names are told apart. */
  lemma SystemsApart(a: string, b: string)
    requires OneDash(a) && OneDash(b)
    ensures Apart(a, b)
  {
    if a + "-" <= b { LongerHasTwo(a, b); }
    if b + "-" <= a { LongerHasTwo(b, a); }
  }

  /** Without that condition they are not: a segment for "x86_64-linux" lies under the prefix
      of the system "x86_64". */
  lemma LongerSystemIsListed(snapshot: string, runId: string, random: string)
    ensures SegmentTagPrefix(snapshot, "x86_64") <= SegmentTag(snapshot, "x86_64-linux", runId, random)
  {
    assert "x86_64-linux" == "x86_64" + "-" + "linux";
    assert SegmentTagPrefix(snapshot, "x86_64-linux") == SegmentTagPrefix(snapshot, "x86_64") + "linux-";
  }

  // ----- what a load of one snapshot sees -----

  /** The registry holds the segment, under whatever tag. */
  ghost predicate Stores(repo: Repo, s: Segment) {
    s.tag in repo && SegmentOf(s.tag, repo[s.tag]) == FileTree.Ok(s)
  }

  /** The segment is of the snapshot whose identifier begins with x and of the system. */
  predicate IsOf(s: Segment, x: string, system: string) {
    NamesSnapshot(s.snapshot, x) && s.system == system
  }

  ghost predicate AllApart(repo: Repo, system: string) {
    forall s :: Stores(repo, s) ==> Apart(system, s.system)
  }

  lemma HeldExactly(repo: Repo, snapshot: string, x: string, system: string, s: Segment)
    requires IsShortHash(x) && NamesSnapshot(snapshot, x) && AllApart(repo, system)
    ensures Holds(repo, SegmentTagPrefix(snapshot, system), s) <==> Stores(repo, s) && IsOf(s, x, system)
  {
    TagHasPrefix(snapshot, system, "", "");
    if Stores(repo, s) {
      LoadedTag(s.tag, repo[s.tag]);
      UnderPrefixExactly(snapshot, x, system, s.snapshot, s.system, s.tag);
    }
  }

  /** s is the newest segment of the snapshot and system that has the hash. */
  ghost predicate NewestOf(repo: Repo, x: string, system: string, hash: string, s: Segment) {
    && Stores(repo, s) && IsOf(s, x, system) && hash in s.entries
    && forall t :: Stores(repo, t) && IsOf(t, x, system) && hash in t.entries ==> !Older(s, t)
  }

  /** An index loaded for a snapshot and system has exactly the hashes of its own segments,
      each with the entry of the newest of these, whatever else the registry holds. */
  lemma SnapshotIndex(repo: Repo, snapshot: string, x: string, system: string, tags: seq<string>, fetch: map<string, Fetched>,
                      entries: Entries, hash: string)
    requires IsShortHash(x) && NamesSnapshot(snapshot, x) && AllApart(repo, system)
    requires Seen(repo, SegmentTagPrefix(snapshot, system), tags, fetch) && MayLoad(tags, fetch, FileTree.Ok(entries))
    ensures hash in entries <==> exists s :: Stores(repo, s) && IsOf(s, x, system) && hash in s.entries
    ensures hash in entries ==> exists s :: NewestOf(repo, x, system, hash, s)
    ensures hash in entries ==> forall s :: NewestOf(repo, x, system, hash, s) ==> entries[hash] == s.entries[hash]
  {
    var prefix := SegmentTagPrefix(snapshot, system);
    forall s ensures Holds(repo, prefix, s) <==> Stores(repo, s) && IsOf(s, x, system) {
      HeldExactly(repo, snapshot, x, system, s);
    }
    IndexMeans(repo, prefix, tags, fetch, entries, hash);
    forall s ensures NewestHolding(repo, prefix, hash, s) <==> NewestOf(repo, x, system, hash, s) {}
  }
}
