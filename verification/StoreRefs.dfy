/** nukeStoreReferences (cmd/artifact/normalize.go): every store hash in a binary becomes
    the same 32 bytes, and nothing else changes. */
module StoreRefs {
  newtype Byte = x: int | 0 <= x < 256

  /** "/nix/store/" */
  const STORE_PREFIX: seq<Byte> := [0x2F, 0x6E, 0x69, 0x78, 0x2F, 0x73, 0x74, 0x6F, 0x72, 0x65, 0x2F]

  const DASH: Byte := 0x2D
  const BLANK: Byte := 0x65
  const PREFIX_LENGTH: nat := 11
  const HASH_END: nat := 43
  const MATCH_LENGTH: nat := 44

  /** [a-z0-9] */
  predicate HashByte(b: Byte) {
    0x61 <= b <= 0x7A || 0x30 <= b <= 0x39
  }

  /** Position p is one of the 32 hash bytes of the match at i. */
  predicate HashOf(i: nat, p: nat) {
    i + PREFIX_LENGTH <= p < i + HASH_END
  }

  /** The pattern `/nix/store/[a-z0-9]{32}-` matches at i. */
  predicate MatchAt(s: seq<Byte>, i: nat) {
    && i + MATCH_LENGTH <= |s|
    && (forall p: nat :: i <= p < i + PREFIX_LENGTH ==> s[p] == STORE_PREFIX[p - i])
    && (forall p: nat :: i <= p < |s| && HashOf(i, p) ==> HashByte(s[p]))
    && s[i + HASH_END] == DASH
  }

  /** The bytes as characters. */
  function Text(s: seq<Byte>): (t: string)
    ensures |t| == |s| && forall k :: 0 <= k < |s| ==> t[k] == s[k] as char
  {
    seq(|s|, k requires 0 <= k < |s| => s[k] as char)
  }

  /** A hash as it stands in a store path: 32 small letters and digits. */
  predicate IsHashText(h: string) {
    |h| == 32 && forall k :: 0 <= k < |h| ==> 'a' <= h[k] <= 'z' || '0' <= h[k] <= '9'
  }

  lemma PrefixText(k: nat)
    requires k < PREFIX_LENGTH
    ensures STORE_PREFIX[k] as char == "/nix/store/"[k] && |"/nix/store/"| == PREFIX_LENGTH
  {
    assert k == 0 || k == 1 || k == 2 || k == 3 || k == 4 || k == 5 || k == 6 || k == 7 || k == 8 || k == 9 || k == 10;
  }

  /** The pattern matches exactly where the text is "/nix/store/", a hash and a dash. */
  lemma MatchIsStorePath(s: seq<Byte>, i: nat)
    requires i + MATCH_LENGTH <= |s|
    ensures MatchAt(s, i) <==>
      var t := Text(s[i..i + MATCH_LENGTH]);
      t[..PREFIX_LENGTH] == "/nix/store/" && IsHashText(t[PREFIX_LENGTH..HASH_END]) && t[HASH_END] == '-'
  {
    var t := Text(s[i..i + MATCH_LENGTH]);
    forall k: nat | k < PREFIX_LENGTH ensures t[..PREFIX_LENGTH][k] == "/nix/store/"[k] <==> s[i + k] == STORE_PREFIX[k] { PrefixText(k); }
    PrefixText(0);
    var h := t[PREFIX_LENGTH..HASH_END];
    forall k: nat | k < 32 ensures h[k] == s[i + PREFIX_LENGTH + k] as char {}
    if t[..PREFIX_LENGTH] == "/nix/store/" {
      forall p: nat | i <= p < i + PREFIX_LENGTH ensures s[p] == STORE_PREFIX[p - i] { assert t[..PREFIX_LENGTH][p - i] == "/nix/store/"[p - i]; }
    }
    if IsHashText(h) {
      forall p: nat | i <= p < |s| && HashOf(i, p) ensures HashByte(s[p]) { assert h[p - i - PREFIX_LENGTH] == s[p] as char; }
    }
  }

  ghost predicate InHash(s: seq<Byte>, p: nat) {
    exists i: nat :: MatchAt(s, i) && HashOf(i, p)
  }

  /** `r` is `s` with the hash bytes of every match, and only those, blanked. */
  ghost predicate Nuked(s: seq<Byte>, r: seq<Byte>) {
    |r| == |s| && forall p: nat :: p < |s| ==> r[p] == if InHash(s, p) then BLANK else s[p]
  }

  /** Where "/nix/store/" has a '/' and where it has an 'e'. */
  lemma PrefixLetters(k: nat)
    requires k < PREFIX_LENGTH
    ensures STORE_PREFIX[k] == 0x2F <==> k == 0 || k == 4 || k == 10
    ensures STORE_PREFIX[k] == BLANK <==> k == 9
    ensures STORE_PREFIX[1] == 0x6E && STORE_PREFIX[5] == 0x73
  {
    assert k == 0 || k == 1 || k == 2 || k == 3 || k == 4 || k == 5 || k == 6 || k == 7 || k == 8 || k == 9 || k == 10;
  }

  /** What the literal part of a match says byte by byte. */
  lemma MatchBytes(s: seq<Byte>, i: nat, p: nat)
    requires MatchAt(s, i) && i <= p < i + PREFIX_LENGTH
    ensures s[p] == STORE_PREFIX[p - i]
    ensures s[i] == 0x2F && s[i + 1] == 0x6E && s[i + 4] == 0x2F && s[i + 5] == 0x73 && s[i + 10] == 0x2F
  {
    PrefixLetters(0);
    assert s[i] == STORE_PREFIX[0] && s[i + 1] == STORE_PREFIX[1] && s[i + 4] == STORE_PREFIX[4];
    assert s[i + 5] == STORE_PREFIX[5] && s[i + 10] == STORE_PREFIX[10];
  }

  lemma NoMatchInside(s: seq<Byte>, i: nat, j: nat)
    requires MatchAt(s, i) && i < j < i + MATCH_LENGTH
    ensures !MatchAt(s, j)
  {
    if j < i + PREFIX_LENGTH {
      PrefixLetters(j - i);
      MatchBytes(s, i, j);
      assert HashOf(i, i + 14) && HashByte(s[i + 14]);
    } else if j < i + HASH_END {
      assert HashOf(i, j) && HashByte(s[j]);
    }
    if MatchAt(s, j) { MatchBytes(s, j, j); }
  }

  /** Two different matches share no byte. */
  lemma MatchesApart(s: seq<Byte>, i: nat, j: nat)
    requires MatchAt(s, i) && MatchAt(s, j) && i < j
    ensures i + MATCH_LENGTH <= j
  {
    if j < i + MATCH_LENGTH { NoMatchInside(s, i, j); }
  }

  /** A byte of a match outside its own hash is in no hash at all. */
  lemma FrameBytesStay(s: seq<Byte>, i: nat, p: nat)
    requires MatchAt(s, i) && i <= p < i + MATCH_LENGTH && !HashOf(i, p)
    ensures !InHash(s, p)
  {
    forall j: nat | MatchAt(s, j) ensures !HashOf(j, p) {
      if i < j { MatchesApart(s, i, j); }
      if j < i { MatchesApart(s, j, i); }
    }
  }

  lemma MatchStays(s: seq<Byte>, r: seq<Byte>, i: nat)
    requires Nuked(s, r) && MatchAt(s, i)
    ensures MatchAt(r, i)
  {
    forall p: nat | i <= p < i + PREFIX_LENGTH ensures r[p] == STORE_PREFIX[p - i] { FrameBytesStay(s, i, p); }
    forall p: nat | HashOf(i, p) ensures HashByte(r[p]) { assert InHash(s, p); }
    FrameBytesStay(s, i, i + HASH_END);
  }

  /** A blanked byte is no '/' or '-', and the byte after the last of them is a '-'. */
  lemma MatchWasThere(s: seq<Byte>, r: seq<Byte>, i: nat)
    requires Nuked(s, r) && MatchAt(r, i)
    ensures MatchAt(s, i)
  {
    forall p: nat | i <= p < i + PREFIX_LENGTH ensures s[p] == STORE_PREFIX[p - i] { PrefixWasThere(s, r, i, p); }
    forall p: nat | HashOf(i, p) ensures HashByte(s[p]) {
      if InHash(s, p) {
        var j: nat :| MatchAt(s, j) && HashOf(j, p);
      }
    }
  }

  lemma PrefixWasThere(s: seq<Byte>, r: seq<Byte>, i: nat, p: nat)
    requires Nuked(s, r) && MatchAt(r, i) && i <= p < i + PREFIX_LENGTH
    ensures s[p] == STORE_PREFIX[p - i]
  {
    MatchBytes(r, i, p);
    forall j: nat | MatchAt(s, j) ensures !HashOf(j, p) {
      if HashOf(j, p) { NoPrefixInHash(s, r, i, j, p); }
    }
  }

  lemma NoPrefixInHash(s: seq<Byte>, r: seq<Byte>, i: nat, j: nat, p: nat)
    requires Nuked(s, r) && MatchAt(s, j) && HashOf(j, p) && i <= p < i + PREFIX_LENGTH
    ensures !MatchAt(r, i)
  {
    assert InHash(s, p) && r[p] == BLANK;
    PrefixLetters(p - i);
    AfterHash(s, r, j, p);
    if MatchAt(r, i) { MatchBytes(r, i, p); }
  }

  /** After a hash byte comes another one, blanked, or the '-' of the match. */
  lemma AfterHash(s: seq<Byte>, r: seq<Byte>, j: nat, p: nat)
    requires Nuked(s, r) && MatchAt(s, j) && HashOf(j, p)
    ensures p + 1 < |r| && (r[p + 1] == BLANK || r[p + 1] == DASH)
  {
    if p + 1 == j + HASH_END {
      FrameBytesStay(s, j, j + HASH_END);
    } else {
      assert HashOf(j, p + 1) && InHash(s, p + 1);
    }
  }

  /** Matches are neither lost nor created. */
  lemma SameMatches(s: seq<Byte>, r: seq<Byte>, i: nat)
    requires Nuked(s, r)
    ensures MatchAt(r, i) <==> MatchAt(s, i)
  {
    if MatchAt(s, i) { MatchStays(s, r, i); }
    if MatchAt(r, i) { MatchWasThere(s, r, i); }
  }

  lemma SameHashes(s: seq<Byte>, r: seq<Byte>, p: nat)
    requires Nuked(s, r)
    ensures InHash(r, p) <==> InHash(s, p)
  {
    if InHash(s, p) {
      var i: nat :| MatchAt(s, i) && HashOf(i, p);
      SameMatches(s, r, i);
    }
    if InHash(r, p) {
      var i: nat :| MatchAt(r, i) && HashOf(i, p);
      SameMatches(s, r, i);
    }
  }

  /** Rewriting a rewritten binary changes nothing. */
  lemma NukeIsIdempotent(s: seq<Byte>, r: seq<Byte>, r': seq<Byte>)
    requires Nuked(s, r) && Nuked(r, r')
    ensures r' == r
  {
    forall p: nat | p < |r| ensures r'[p] == r[p] { SameHashes(s, r, p); }
  }

  /** The binaries have their matches at the same places and differ at most in the hashes. */
  ghost predicate EqualButHashes(s: seq<Byte>, t: seq<Byte>) {
    && |s| == |t| && (forall i: nat :: MatchAt(s, i) <==> MatchAt(t, i))
    && forall p: nat :: p < |s| && !InHash(s, p) ==> s[p] == t[p]
  }

  /** Two binaries are rewritten to the same bytes exactly when they differ only in matched hashes. */
  lemma NukeIsCanonical(s: seq<Byte>, t: seq<Byte>, r: seq<Byte>, u: seq<Byte>)
    requires Nuked(s, r) && Nuked(t, u)
    ensures r == u <==> EqualButHashes(s, t)
  {
    if r == u {
      forall i: nat ensures MatchAt(s, i) <==> MatchAt(t, i) {
        SameMatches(s, r, i);
        SameMatches(t, u, i);
      }
      forall p: nat | p < |s| && !InHash(s, p) ensures s[p] == t[p] {
        SameHashes(s, r, p);
        SameHashes(t, u, p);
      }
    }
    if EqualButHashes(s, t) {
      forall p: nat | p < |s| ensures r[p] == u[p] {
        assert InHash(s, p) <==> InHash(t, p);
      }
    }
  }

  // ----- the rewriting loop -----

  function Blanks(n: nat): (r: seq<Byte>)
    ensures |r| == n && forall k :: 0 <= k < n ==> r[k] == BLANK
  {
    seq(n, _ => BLANK)
  }

  /** ReplaceAllFunc: leftmost matches from left to right, each after the end of the one before. */
  method NukeStoreReferences(data: seq<Byte>) returns (rewritten: seq<Byte>)
    ensures Nuked(data, rewritten)
  {
    rewritten := [];
    var i := 0;
    while i < |data|
      invariant 0 <= i == |rewritten| <= |data|
      invariant forall p: nat :: p < i ==> rewritten[p] == if InHash(data, p) then BLANK else data[p]
      invariant forall j: nat :: MatchAt(data, j) ==> j + MATCH_LENGTH <= i || i <= j
    {
      if MatchAt(data, i) {
        MatchedBytes(data, i);
        rewritten := rewritten + data[i..i + PREFIX_LENGTH] + Blanks(HASH_END - PREFIX_LENGTH) + data[i + HASH_END..i + MATCH_LENGTH];
        forall j: nat | MatchAt(data, j) ensures j + MATCH_LENGTH <= i + MATCH_LENGTH || i + MATCH_LENGTH <= j {
          if i < j { MatchesApart(data, i, j); }
        }
        i := i + MATCH_LENGTH;
      } else {
        assert !InHash(data, i);
        rewritten := rewritten + [data[i]];
        i := i + 1;
      }
    }
  }

  lemma MatchedBytes(s: seq<Byte>, i: nat)
    requires MatchAt(s, i)
    ensures forall p: nat :: i <= p < i + MATCH_LENGTH ==> (InHash(s, p) <==> HashOf(i, p))
  {
    forall p: nat | i <= p < i + MATCH_LENGTH ensures InHash(s, p) <==> HashOf(i, p) {
      if !HashOf(i, p) { FrameBytesStay(s, i, p); }
    }
  }
}
