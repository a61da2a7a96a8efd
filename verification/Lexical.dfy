/** Lexical path arithmetic: Clean, Join and Rel on paths cut at every '/'.
    Module PathText ties this representation to the characters. */
module Lexical {
  /** The components of a clean absolute path; `[]` is the file-system root. */
  type Path = seq<string>

  /** A path as it is written, cut at every '/': it may hold "", "." and "..". */
  type Text = seq<string>

  predicate IsName(s: string) {
    s != "" && s != "." && s != ".."
  }

  predicate Names(p: seq<string>) {
    forall i :: 0 <= i < |p| ==> IsName(p[i])
  }

  predicate IsAbs(t: Text) {
    |t| >= 2 && t[0] == ""
  }

  function Parent(p: Path): Path {
    if p == [] then [] else p[..|p| - 1]
  }

  function Advance(cur: Path, seg: string): Path {
    if seg == "" || seg == "." then cur
    else if seg == ".." then Parent(cur)
    else cur + [seg]
  }

  /** Clean(Join(cur, text)) for a clean absolute `cur`. */
  function Walk(cur: Path, text: Text): Path
    decreases |text|
  {
    if text == [] then cur else Walk(Advance(cur, text[0]), text[1..])
  }

  /** What a link in directory `dir` with this text names, lexically. */
  function LinkTarget(dir: Path, text: Text): Path {
    if IsAbs(text) then Walk([], text) else Walk(dir, text)
  }

  function Common(a: Path, b: Path): (c: nat)
    ensures c <= |a| && c <= |b| && a[..c] == b[..c]
  {
    if a == [] || b == [] || a[0] != b[0] then 0 else 1 + Common(a[1..], b[1..])
  }

  function Ups(k: nat): (t: Text)
    ensures |t| == k && forall i :: 0 <= i < k ==> t[i] == ".."
  {
    seq(k, _ => "..")
  }

  /** Rel(base, target) for clean absolute paths. */
  function Rel(base: Path, target: Path): Text {
    var c := Common(base, target);
    var t := Ups(|base| - c) + target[c..];
    if t == [] then ["."] else t
  }

  lemma {:induction false} WalkConcat(cur: Path, a: Text, b: Text)
    ensures Walk(cur, a + b) == Walk(Walk(cur, a), b)
    decreases |a|
  {
    if a == [] {
      assert a + b == b;
    } else {
      assert (a + b)[1..] == a[1..] + b;
      WalkConcat(Advance(cur, a[0]), a[1..], b);
    }
  }

  lemma {:induction false} WalkNames(cur: Path, p: Path)
    requires Names(p)
    ensures Walk(cur, p) == cur + p
    decreases |p|
  {
    if p != [] {
      WalkNames(cur + [p[0]], p[1..]);
      assert cur + [p[0]] + p[1..] == cur + p;
    }
  }

  lemma {:induction false} WalkUps(cur: Path, k: nat)
    requires k <= |cur|
    ensures Walk(cur, Ups(k)) == cur[..|cur| - k]
  {
    if k > 0 {
      assert Ups(k)[1..] == Ups(k - 1);
      WalkUps(Parent(cur), k - 1);
    }
  }

  lemma UpsDown(base: Path, target: Path, c: nat)
    requires Names(target) && c <= |base| && c <= |target| && base[..c] == target[..c]
    ensures Walk(base, Ups(|base| - c) + target[c..]) == target
  {
    WalkConcat(base, Ups(|base| - c), target[c..]);
    WalkUps(base, |base| - c);
    WalkNames(base[..c], target[c..]);
    assert base[..c] + target[c..] == target;
  }

  /** Clean(Join(base, Rel(base, target))) is target again. */
  lemma RelRoundTrip(base: Path, target: Path)
    requires Names(target)
    ensures Walk(base, Rel(base, target)) == target
    ensures LinkTarget(base, Rel(base, target)) == target
  {
    var c := Common(base, target);
    UpsDown(base, target, c);
    UpsThenNames(|base| - c, target[c..]);
    assert Walk(base, ["."]) == Walk(base, []);
  }

  lemma {:induction false} CommonShift(pre: Path, a: Path, b: Path)
    ensures Common(pre + a, pre + b) == |pre| + Common(a, b)
  {
    if pre == [] {
      assert pre + a == a && pre + b == b;
    } else {
      assert (pre + a)[1..] == pre[1..] + a && (pre + b)[1..] == pre[1..] + b;
      CommonShift(pre[1..], a, b);
    }
  }

  /** Moving both ends under another prefix leaves the relative text as it was. */
  lemma RelRelocates(pre: Path, pre': Path, base: Path, target: Path)
    ensures Rel(pre + base, pre + target) == Rel(pre' + base, pre' + target)
  {
    RelUnder(pre, base, target);
    RelUnder(pre', base, target);
  }

  lemma RelUnder(pre: Path, base: Path, target: Path)
    ensures Rel(pre + base, pre + target) == Rel(base, target)
  {
    CommonShift(pre, base, target);
    var c := Common(base, target);
    assert (pre + target)[|pre| + c..] == target[c..];
  }

  lemma {:induction false} CommonAtLeast(pre: Path, a: Path, b: Path)
    requires pre <= a && pre <= b
    ensures Common(a, b) >= |pre|
  {
    assert a == pre + a[|pre|..] && b == pre + b[|pre|..];
    CommonShift(pre, a[|pre|..], b[|pre|..]);
  }

  /** A text that climbs at most `depth` levels, and only at its start. */
  predicate ClimbsFirst(t: Text, depth: int) {
    forall i, j :: 0 <= j <= i < |t| && t[i] == ".." ==> i < depth && t[j] == ".."
  }

  lemma UpsThenNames(k: nat, p: Path)
    requires Names(p)
    ensures !IsAbs(Ups(k) + p) && ClimbsFirst(Ups(k) + p, k)
  {
    var t := Ups(k) + p;
    assert forall i :: k <= i < |t| ==> t[i] == p[i - k];
    assert t != [] ==> t[0] != "" by {
      if k == 0 && t != [] { assert t[0] == p[0]; }
    }
  }

  /** Rel of two paths under `pre` never climbs above `pre`. */
  lemma RelClimbs(pre: Path, base: Path, target: Path)
    requires pre <= base && pre <= target && Names(target)
    ensures !IsAbs(Rel(base, target)) && ClimbsFirst(Rel(base, target), |base| - |pre|)
  {
    CommonAtLeast(pre, base, target);
    var c := Common(base, target);
    UpsThenNames(|base| - c, target[c..]);
  }
}
