/** The passes over a copied tree (cmd/artifact/normalize.go): dangling links go, and
    modes become one of two. */
module Normalize {
  import opened Lexical
  import opened FileTree
  import opened Order
  import opened Archive
  import opened CopyTree

  // ----- removeDanglingSymlinks -----

  /** The walk's callback: a link that leads to nothing is removed; one that cannot be
      resolved for another reason stops the walk. */
  function Visit(limit: nat, fs: FS, p: Path): Step {
    if p !in fs || !fs[p].Link? then Step(fs, true)
    else
      match Eval(limit, fs, p)
      case At(_) => Step(fs, true)
      case NoEntry => Step(fs - {p}, true)
      case _ => Step(fs, false)
  }

  function VisitAll(limit: nat, fs: FS, ps: seq<Path>): Step {
    if ps == [] then Step(fs, true)
    else
      var s := Visit(limit, fs, ps[0]);
      if s.ok then VisitAll(limit, s.fs, ps[1..]) else s
  }

  function RemoveDangling(limit: nat, fs: FS, root: Path): Step
    requires WF(fs) && RealDir(fs, root)
  {
    VisitAll(limit, fs, Preorder(fs, root))
  }

  method RemoveDanglingSymlinks(limit: nat, fs: FS, root: Path) returns (s: Step)
    requires WF(fs) && RealDir(fs, root)
    ensures s == RemoveDangling(limit, fs, root)
  {
    var paths := Preorder(fs, root);
    var tree := fs;
    assert paths[0..] == paths;
    for k := 0 to |paths|
      invariant VisitAll(limit, fs, paths) == VisitAll(limit, tree, paths[k..])
    {
      assert paths[k..][0] == paths[k] && paths[k..][1..] == paths[k + 1..];
      if paths[k] in tree && tree[paths[k]].Link? {
        var target := Eval(limit, tree, paths[k]);
        if target.NoEntry? {
          tree := tree - {paths[k]};
        } else if !target.At? {
          return Step(tree, false);
        }
      }
    }
    return Step(tree, true);
  }

  // ----- removing a link that leads nowhere -----

  /** If a longer walk arrives, so does its first part. */
  lemma {:induction false} ArrivesBefore(fs: FS, cur: Path, a: Text, b: Text, fuel: nat)
    requires Resolve(fs, cur, a + b, fuel).At?
    ensures Resolve(fs, cur, a, fuel).At?
    decreases fuel, |a|
  {
    if a != [] {
      assert (a + b)[0] == a[0] && (a + b)[1..] == a[1..] + b;
      var child := cur + [a[0]];
      if !IsName(a[0]) {
        ArrivesBefore(fs, Advance(cur, a[0]), a[1..], b, fuel);
      } else if fs[child].Dir? {
        ArrivesBefore(fs, child, a[1..], b, fuel);
      } else if fs[child].Link? {
        var text := fs[child].text;
        assert text + (a[1..] + b) == text + a[1..] + b;
        ArrivesBefore(fs, if IsAbs(text) then [] else cur, text + a[1..], b, fuel - 1);
      }
    }
  }

  /** A walk that arrives through a link means that the link itself leads somewhere. */
  lemma ThroughLink(limit: nat, fs: FS, cur: Path, todo: Text, fuel: nat)
    requires WF(fs) && RealDir(fs, cur) && todo != [] && IsName(todo[0]) && 0 < fuel <= limit
    requires cur + [todo[0]] in fs && fs[cur + [todo[0]]].Link? && Resolve(fs, cur, todo, fuel).At?
    ensures Eval(limit, fs, cur + [todo[0]]).At?
  {
    var text := fs[cur + [todo[0]]].text;
    var from := if IsAbs(text) then [] else cur;
    ArrivesBefore(fs, from, text, todo[1..], fuel - 1);
    MoreFuel(fs, from, text, fuel - 1, limit - fuel);
    EvalBelow(limit, fs, cur, [todo[0]]);
    assert text + [todo[0]][1..] == text;
  }

  /** Walks that arrive do not notice that a link which leads nowhere is gone. */
  lemma {:induction false} ArrivesStill(limit: nat, fs: FS, b: Path, cur: Path, todo: Text, fuel: nat)
    requires WF(fs) && RealDir(fs, cur) && b in fs && fs[b].Link? && !Eval(limit, fs, b).At?
    requires fuel <= limit && Resolve(fs, cur, todo, fuel).At?
    ensures Resolve(fs - {b}, cur, todo, fuel) == Resolve(fs, cur, todo, fuel)
    decreases fuel, |todo|
  {
    if todo != [] {
      var child := cur + [todo[0]];
      if !IsName(todo[0]) {
        ArrivesStill(limit, fs, b, Advance(cur, todo[0]), todo[1..], fuel);
      } else if fs[child].Dir? {
        ArrivesStill(limit, fs, b, child, todo[1..], fuel);
      } else if fs[child].Link? {
        ThroughLink(limit, fs, cur, todo, fuel);
        var text := fs[child].text;
        ArrivesStill(limit, fs, b, if IsAbs(text) then [] else cur, text + todo[1..], fuel - 1);
      }
    }
  }

  /** Without the link a walk ends as before, or finds nothing. */
  lemma {:induction false} EndsAsBefore(fs: FS, b: Path, cur: Path, todo: Text, fuel: nat)
    requires b in fs && fs[b].Link?
    ensures var r := Resolve(fs - {b}, cur, todo, fuel); r == Resolve(fs, cur, todo, fuel) || r == NoEntry
    decreases fuel, |todo|
  {
    if todo != [] {
      var child := cur + [todo[0]];
      if !IsName(todo[0]) {
        EndsAsBefore(fs, b, Advance(cur, todo[0]), todo[1..], fuel);
      } else if child in fs && child != b {
        if fs[child].Dir? {
          EndsAsBefore(fs, b, child, todo[1..], fuel);
        } else if fs[child].Link? && fuel > 0 {
          var text := fs[child].text;
          EndsAsBefore(fs, b, if IsAbs(text) then [] else cur, text + todo[1..], fuel - 1);
        }
      }
    }
  }

  /** Every path leads where it led, or leads nowhere in both. */
  ghost predicate LeadsAlike(limit: nat, fs: FS, fs': FS) {
    forall q :: if Eval(limit, fs, q).At? then Eval(limit, fs', q) == Eval(limit, fs, q) else !Eval(limit, fs', q).At?
  }

  ghost predicate Links(fs: FS, p: Path) {
    p in fs && fs[p].Link?
  }

  lemma VisitEffect(limit: nat, fs: FS, p: Path)
    requires WF(fs) && Visit(limit, fs, p).ok
    ensures var fs' := Visit(limit, fs, p).fs;
      && WF(fs') && LeadsAlike(limit, fs, fs')
      && (forall q :: if q == p && Links(fs, p) && !Eval(limit, fs, p).At? then q !in fs' else SameAt(fs, fs', q))
      && (forall q :: Eval(limit, fs, q).NoEntry? ==> Eval(limit, fs', q).NoEntry?)
  {
    var fs' := Visit(limit, fs, p).fs;
    if fs' != fs {
      RemoveLinkWF(fs, p);
      forall q ensures if Eval(limit, fs, q).At? then Eval(limit, fs', q) == Eval(limit, fs, q) else !Eval(limit, fs', q).At?
        ensures Eval(limit, fs, q).NoEntry? ==> Eval(limit, fs', q).NoEntry?
      {
        EndsAsBefore(fs, p, [], q, limit);
        if Eval(limit, fs, q).At? { ArrivesStill(limit, fs, p, [], q, limit); }
      }
    }
  }

  /** Exactly the listed links that lead nowhere are gone. */
  ghost predicate Cleaned(limit: nat, fs: FS, fs': FS, ps: seq<Path>) {
    forall p :: if p in ps && Links(fs, p) && !Eval(limit, fs, p).At? then p !in fs' else SameAt(fs, fs', p)
  }

  lemma CleanedThen(limit: nat, fs: FS, mid: FS, fs': FS, ps: seq<Path>)
    requires ps != [] && LeadsAlike(limit, fs, mid) && Cleaned(limit, mid, fs', ps[1..])
    requires forall q :: if q == ps[0] && Links(fs, q) && !Eval(limit, fs, q).At? then q !in mid else SameAt(fs, mid, q)
    ensures Cleaned(limit, fs, fs', ps)
  {
    forall p ensures if p in ps && Links(fs, p) && !Eval(limit, fs, p).At? then p !in fs' else SameAt(fs, fs', p) {
      assert p in ps <==> p == ps[0] || p in ps[1..];
      assert SameAt(fs, mid, p) || p !in mid;
      assert Eval(limit, fs, p).At? <==> Eval(limit, mid, p).At?;
      assert SameAt(mid, fs', p) || p !in fs';
    }
  }

  lemma AlikeThen(limit: nat, fs: FS, mid: FS, fs': FS)
    requires LeadsAlike(limit, fs, mid) && LeadsAlike(limit, mid, fs')
    ensures LeadsAlike(limit, fs, fs')
  {
    forall q ensures if Eval(limit, fs, q).At? then Eval(limit, fs', q) == Eval(limit, fs, q) else !Eval(limit, fs', q).At? {
      assert Eval(limit, fs, q).At? <==> Eval(limit, mid, q).At?;
    }
  }

  lemma {:induction false} VisitAllEffect(limit: nat, fs: FS, ps: seq<Path>)
    requires WF(fs) && VisitAll(limit, fs, ps).ok
    ensures var fs' := VisitAll(limit, fs, ps).fs;
      WF(fs') && LeadsAlike(limit, fs, fs') && Cleaned(limit, fs, fs', ps)
    decreases |ps|
  {
    if ps != [] {
      VisitEffect(limit, fs, ps[0]);
      var mid := Visit(limit, fs, ps[0]).fs;
      VisitAllEffect(limit, mid, ps[1..]);
      AlikeThen(limit, fs, mid, VisitAll(limit, fs, ps).fs);
      CleanedThen(limit, fs, mid, VisitAll(limit, fs, ps).fs, ps);
    }
  }

  lemma {:induction false} VisitAllSucceeds(limit: nat, fs: FS, ps: seq<Path>)
    requires WF(fs) && forall p :: p in ps && Links(fs, p) ==> Eval(limit, fs, p).At? || Eval(limit, fs, p).NoEntry?
    ensures VisitAll(limit, fs, ps).ok
    decreases |ps|
  {
    if ps != [] {
      assert ps[0] in ps && forall p :: p in ps[1..] ==> p in ps;
      VisitEffect(limit, fs, ps[0]);
      var mid := Visit(limit, fs, ps[0]).fs;
      forall p | p in ps[1..] && Links(mid, p) ensures Eval(limit, mid, p).At? || Eval(limit, mid, p).NoEntry? {
        assert SameAt(fs, mid, p) || p !in mid;
        assert Links(fs, p);
      }
      VisitAllSucceeds(limit, mid, ps[1..]);
    }
  }

  /** One walk is enough, in whatever order links lead to links: afterwards every link of
      the tree leads somewhere, exactly those that led nowhere are gone, and every path
      leads where it led. */
  lemma NoneDangles(limit: nat, fs: FS, root: Path)
    requires WF(fs) && RealDir(fs, root) && RemoveDangling(limit, fs, root).ok
    ensures var fs' := RemoveDangling(limit, fs, root).fs;
      && WF(fs') && LeadsAlike(limit, fs, fs')
      && (forall p :: root <= p && Links(fs', p) ==> Eval(limit, fs', p).At?)
      && (forall p :: if root <= p && Links(fs, p) && !Eval(limit, fs, p).At? then p !in fs' else SameAt(fs, fs', p))
  {
    var fs' := RemoveDangling(limit, fs, root).fs;
    PreorderFacts(fs, root);
    var ps := Preorder(fs, root);
    VisitAllEffect(limit, fs, ps);
    forall p ensures if root <= p && Links(fs, p) && !Eval(limit, fs, p).At? then p !in fs' else SameAt(fs, fs', p) {
      assert p in ps <==> p in fs && root <= p;
    }
    forall p | root <= p && Links(fs', p) ensures Eval(limit, fs', p).At? {
      assert SameAt(fs, fs', p) && Eval(limit, fs, p).At?;
      assert Eval(limit, fs', p) == Eval(limit, fs, p);
    }
  }

  /** A second walk removes nothing. */
  lemma CleanStaysClean(limit: nat, fs: FS, root: Path)
    requires WF(fs) && RealDir(fs, root) && RemoveDangling(limit, fs, root).ok
    ensures var fs' := RemoveDangling(limit, fs, root).fs;
      WF(fs') && RealDir(fs', root) && RemoveDangling(limit, fs', root) == Step(fs', true)
  {
    var fs' := RemoveDangling(limit, fs, root).fs;
    NoneDangles(limit, fs, root);
    assert SameAt(fs, fs', root);
    PreorderFacts(fs', root);
    NothingToVisit(limit, fs', Preorder(fs', root));
  }

  lemma {:induction false} NothingToVisit(limit: nat, fs: FS, ps: seq<Path>)
    requires forall p :: p in ps && Links(fs, p) ==> Eval(limit, fs, p).At?
    ensures VisitAll(limit, fs, ps) == Step(fs, true)
    decreases |ps|
  {
    if ps != [] {
      assert ps[0] in ps && forall p :: p in ps[1..] ==> p in ps;
      NothingToVisit(limit, fs, ps[1..]);
    }
  }

  /** A tree in which each link leads somewhere or to nothing is cleaned without error. */
  lemma CleaningSucceeds(limit: nat, fs: FS, root: Path)
    requires WF(fs) && RealDir(fs, root)
    requires forall p :: root <= p && Links(fs, p) ==> Eval(limit, fs, p).At? || Eval(limit, fs, p).NoEntry?
    ensures RemoveDangling(limit, fs, root).ok
  {
    PreorderFacts(fs, root);
    VisitAllSucceeds(limit, fs, Preorder(fs, root));
  }

  // ----- exactly when the walk fails -----

  ghost predicate LeadsNowhere(limit: nat, fs: FS, p: Path) {
    Links(fs, p) && !Eval(limit, fs, p).At?
  }

  /** The tree when the walk comes to its i-th path: the links before it that lead nowhere
      are gone. */
  ghost function AtTurn(limit: nat, fs: FS, ps: seq<Path>, i: nat): FS
    requires i <= |ps|
  {
    fs - set p | p in ps[..i] && LeadsNowhere(limit, fs, p)
  }

  /** At its turn the i-th path, if a link, can be followed or misses its target. */
  ghost predicate TurnOk(limit: nat, fs: FS, ps: seq<Path>, i: nat)
    requires i < |ps|
  {
    Links(fs, ps[i]) ==>
      var e := Eval(limit, AtTurn(limit, fs, ps, i), ps[i]); e.At? || e.NoEntry?
  }

  lemma TurnShifts(limit: nat, fs: FS, ps: seq<Path>, i: nat)
    requires WF(fs) && Distinct(ps) && ps != [] && Visit(limit, fs, ps[0]).ok && i < |ps| - 1
    ensures TurnOk(limit, fs, ps, i + 1) <==> TurnOk(limit, Visit(limit, fs, ps[0]).fs, ps[1..], i)
  {
    var mid, rest := Visit(limit, fs, ps[0]).fs, ps[1..];
    VisitEffect(limit, fs, ps[0]);
    assert ps[..i + 1] == [ps[0]] + rest[..i];
    assert rest[i] == ps[i + 1] != ps[0];
    forall p ensures p != ps[0] ==> (LeadsNowhere(limit, fs, p) <==> LeadsNowhere(limit, mid, p)) {
      assert p != ps[0] ==> SameAt(fs, mid, p);
      assert Eval(limit, fs, p).At? <==> Eval(limit, mid, p).At?;
    }
    var x, y := AtTurn(limit, fs, ps, i + 1), AtTurn(limit, mid, rest, i);
    forall p ensures SameAt(x, y, p) {
      assert p in ps[..i + 1] <==> p == ps[0] || p in rest[..i];
      assert p != ps[0] ==> SameAt(fs, mid, p);
    }
    assert forall p :: (p in x ==> SameAt(x, y, p)) && (p in y ==> SameAt(x, y, p));
    assert x == y;
    assert SameAt(fs, mid, ps[i + 1]);
  }

  lemma {:induction false} VisitAllExactly(limit: nat, fs: FS, ps: seq<Path>)
    requires WF(fs) && Distinct(ps)
    ensures VisitAll(limit, fs, ps).ok <==> forall i :: 0 <= i < |ps| ==> TurnOk(limit, fs, ps, i)
    decreases |ps|
  {
    if ps != [] {
      assert AtTurn(limit, fs, ps, 0) == fs;
      assert Visit(limit, fs, ps[0]).ok <==> TurnOk(limit, fs, ps, 0);
      if Visit(limit, fs, ps[0]).ok {
        VisitEffect(limit, fs, ps[0]);
        VisitAllExactly(limit, Visit(limit, fs, ps[0]).fs, ps[1..]);
        forall i: nat | i < |ps| - 1
          ensures TurnOk(limit, fs, ps, i + 1) <==> TurnOk(limit, Visit(limit, fs, ps[0]).fs, ps[1..], i)
        {
          TurnShifts(limit, fs, ps, i);
        }
        TurnsShift(limit, fs, Visit(limit, fs, ps[0]).fs, ps);
      }
    }
  }

  lemma TurnsShift(limit: nat, fs: FS, mid: FS, ps: seq<Path>)
    requires ps != [] && TurnOk(limit, fs, ps, 0)
    requires forall i: nat :: i < |ps| - 1 ==> (TurnOk(limit, fs, ps, i + 1) <==> TurnOk(limit, mid, ps[1..], i))
    ensures (forall i :: 0 <= i < |ps| ==> TurnOk(limit, fs, ps, i)) <==> forall i :: 0 <= i < |ps| - 1 ==> TurnOk(limit, mid, ps[1..], i)
  {
    if forall i :: 0 <= i < |ps| ==> TurnOk(limit, fs, ps, i) {
      forall i | 0 <= i < |ps| - 1 ensures TurnOk(limit, mid, ps[1..], i) { assert TurnOk(limit, fs, ps, i + 1); }
    }
    if forall i :: 0 <= i < |ps| - 1 ==> TurnOk(limit, mid, ps[1..], i) {
      forall i | 0 <= i < |ps| ensures TurnOk(limit, fs, ps, i) { assert i > 0 ==> TurnOk(limit, mid, ps[1..], i - 1); }
    }
  }

  ghost predicate TurnsOk(limit: nat, fs: FS, ps: seq<Path>) {
    forall i :: 0 <= i < |ps| ==> TurnOk(limit, fs, ps, i)
  }

  lemma WalkIsDistinct(fs: FS, root: Path)
    requires WF(fs) && RealDir(fs, root)
    ensures Distinct(Preorder(fs, root))
  {
    PreorderFacts(fs, root);
  }

  /** The walk succeeds exactly when each link, with the links before it that lead nowhere
      already gone, can be followed or misses its target. */
  lemma CleaningSucceedsExactly(limit: nat, fs: FS, root: Path)
    requires WF(fs) && RealDir(fs, root)
    ensures RemoveDangling(limit, fs, root).ok <==> TurnsOk(limit, fs, Preorder(fs, root))
  {
    WalkIsDistinct(fs, root);
    VisitAllExactly(limit, fs, Preorder(fs, root));
  }

  /** One link is followed, and the fuel is then used up. */
  lemma OneLink(fs: FS, name: string, to: string)
    requires [] in fs && fs[[]].Dir? && [name] in fs && fs[[name]] == Link([to]) && IsName(name) && IsName(to)
    ensures [to] !in fs ==> Eval(1, fs, [name]).NoEntry?
    ensures [to] in fs && fs[[to]].Link? ==> Eval(1, fs, [name]).Loop?
  {
    assert [] + [name] == [name] && [] + [to] == [to] && [to] + [name][1..] == [to];
    assert [to] !in fs ==> Resolve(fs, [], [to], 0).NoEntry?;
    assert [to] in fs && fs[[to]].Link? ==> Resolve(fs, [], [to], 0).Loop?;
  }

  /** The earlier removals matter: "b" leads to "a" and "a" to nothing, so that with at most
      one link followed "b" alone cannot be resolved; the walk removes "a" first. */
  lemma EarlierRemovalHelps(fs: FS)
    requires fs == map[[] := Dir, ["a"] := Link(["x"]), ["b"] := Link(["a"])]
    ensures WF(fs) && RealDir(fs, []) && Eval(1, fs, ["b"]).Loop?
    ensures RemoveDangling(1, fs, []) == Step(map[[] := Dir], true)
  {
    var mid: FS := map[[] := Dir, ["b"] := Link(["a"])];
    TwoLinksWF(fs);
    assert fs - {["a"]} == mid && mid - {["b"]} == map[[] := Dir];
    OneLink(fs, "b", "a");
    TwoLinksWalk(fs);
    VisitRemoves(fs, mid, "a", "x");
    VisitRemoves(mid, map[[] := Dir], "b", "a");
    ThreeVisits(1, fs, fs, mid, map[[] := Dir], [], ["a"], ["b"]);
  }

  lemma TwoLinksWF(fs: FS)
    requires fs.Keys == {[], ["a"], ["b"]} && fs[[]].Dir?
    ensures WF(fs) && RealDir(fs, [])
  {
    assert Parent(["a"]) == [] && Parent(["b"]) == [];
  }

  lemma VisitRemoves(fs: FS, fs': FS, name: string, to: string)
    requires [] in fs && fs[[]].Dir? && [name] in fs && fs[[name]] == Link([to]) && IsName(name) && IsName(to)
    requires [to] !in fs && fs' == fs - {[name]}
    ensures Visit(1, fs, [name]) == Step(fs', true)
  {
    OneLink(fs, name, to);
  }

  lemma ThreeVisits(limit: nat, fs: FS, fs1: FS, fs2: FS, fs3: FS, p1: Path, p2: Path, p3: Path)
    requires Visit(limit, fs, p1) == Step(fs1, true) && Visit(limit, fs1, p2) == Step(fs2, true)
    requires Visit(limit, fs2, p3) == Step(fs3, true)
    ensures VisitAll(limit, fs, [p1, p2, p3]) == Step(fs3, true)
  {
    assert [p1, p2, p3][1..] == [p2, p3] && [p2, p3][1..] == [p3] && [p3][1..] == [];
    assert VisitAll(limit, fs2, [p3]) == Step(fs3, true);
  }

  lemma TwoLinksNames(fs: FS)
    requires fs.Keys == {[], ["a"], ["b"]}
    ensures ReadDir(fs, []) == ["a", "b"]
  {
    forall n ensures n in Children(fs, []) <==> n in {"a", "b"} { assert [] + [n] == [n]; }
    assert Children(fs, []) == {"a", "b"};
    SortedPair({"a", "b"}, "a", "b");
  }

  lemma SortedPair(s: set<string>, a: string, b: string)
    requires s == {a, b} && a != b && !Leq(b, a)
    ensures Sorted(s) == [a, b]
  {
    var r := Sorted(s);
    SortedLength(s);
    assert |s| == 2 && a in r && b in r;
    assert Leq(r[0], r[1]) && r[0] in s && r[1] in s;
  }

  lemma TwoLinksWalk(fs: FS)
    requires fs.Keys == {[], ["a"], ["b"]} && fs[[]].Dir? && !fs[["a"]].Dir? && !fs[["b"]].Dir?
    ensures Preorder(fs, []) == [[], ["a"], ["b"]]
  {
    TwoLinksNames(fs);
    var ns := ["a", "b"];
    assert [] + ["a"] == ["a"] && [] + ["b"] == ["b"];
    assert Preorder(fs, ["a"]) == [["a"]] && Preorder(fs, ["b"]) == [["b"]];
    assert ns[1..] == ["b"] && ns[1..][1..] == [];
    assert PreorderAll(fs, [], ["b"]) == [["b"]];
    assert PreorderAll(fs, [], ns) == [["a"]] + [["b"]];
  }

  // ----- normalizeModes -----

  predicate Executable(mode: bv16) {
    mode & 0x49 != 0
  }

  /** 0555 for what anyone may execute, 0444 otherwise. */
  function NormalMode(mode: bv16): bv16 {
    if Executable(mode) then 0x16D else 0x124
  }

  function NormalNode(node: Node): Node {
    if node.File? then File(node.content, NormalMode(node.mode)) else node
  }

  function NormalModes(fs: FS, root: Path): FS {
    map p | p in fs :: if root <= p then NormalNode(fs[p]) else fs[p]
  }

  /** The tree when the walk has been at the paths `done`. */
  ghost function NormalIn(fs: FS, done: set<Path>): FS {
    map p | p in fs :: if p in done then NormalNode(fs[p]) else fs[p]
  }

  lemma NormalNext(fs: FS, done: set<Path>, p: Path)
    requires p in fs && p !in done
    ensures NormalIn(fs, done)[p] == fs[p]
    ensures NormalIn(fs, done + {p}) == NormalIn(fs, done)[p := NormalNode(fs[p])]
  {}

  lemma NextIsNew(ps: seq<Path>, k: nat)
    requires Distinct(ps) && k < |ps|
    ensures ps[k] !in ps[..k] && forall p :: p in ps[..k + 1] <==> p in ps[..k] || p == ps[k]
  {
    assert ps[..k + 1] == ps[..k] + [ps[k]];
  }

  lemma WalkStep(fs: FS, root: Path, k: nat)
    requires WF(fs) && RealDir(fs, root) && k < |Preorder(fs, root)|
    ensures var ps := Preorder(fs, root);
      ps[k] in fs && ps[k] !in ps[..k] && forall p :: p in ps[..k + 1] <==> p in ps[..k] || p == ps[k]
  {
    PreorderFacts(fs, root);
    var ps := Preorder(fs, root);
    assert ps[k] in fs by { assert ps[k] in ps; }
    NextIsNew(ps, k);
  }

  lemma WalkEnds(fs: FS, root: Path, done: set<Path>)
    requires WF(fs) && RealDir(fs, root) && forall p :: p in done <==> p in Preorder(fs, root)
    ensures NormalIn(fs, done) == NormalModes(fs, root)
  {
    PreorderFacts(fs, root);
  }

  method NormalizeModes(fs: FS, root: Path) returns (tree: FS)
    requires WF(fs) && RealDir(fs, root)
    ensures tree == NormalModes(fs, root)
  {
    var paths := Preorder(fs, root);
    tree := fs;
    ghost var done: set<Path> := {};
    assert NormalIn(fs, done) == fs;
    for k := 0 to |paths|
      invariant tree == NormalIn(fs, done)
      invariant forall p :: p in done <==> p in paths[..k]
    {
      WalkStep(fs, root, k);
      NormalNext(fs, done, paths[k]);
      tree := SetMode(tree, paths[k]);
      done := done + {paths[k]};
    }
    assert paths[..|paths|] == paths;
    WalkEnds(fs, root, done);
  }

  /** The walk's callback; links and directories are left for later or left alone. */
  method SetMode(tree: FS, p: Path) returns (tree': FS)
    requires p in tree
    ensures tree' == tree[p := NormalNode(tree[p])]
  {
    if tree[p].File? {
      return tree[p := File(tree[p].content, if tree[p].mode & 0x49 != 0 then 0x16D else 0x124)];
    }
    assert tree[p := tree[p]] == tree;
    return tree;
  }

  lemma NormalModesWF(fs: FS, root: Path)
    requires WF(fs) && RealDir(fs, root)
    ensures WF(NormalModes(fs, root)) && RealDir(NormalModes(fs, root), root)
  {}

  /** The three classes of users whose rights a mode gives. */
  datatype Who = Owner | Group | Others

  predicate MayRead(mode: bv16, who: Who) {
    match who
    case Owner => mode & 0x100 != 0
    case Group => mode & 0x20 != 0
    case Others => mode & 0x4 != 0
  }

  predicate MayWrite(mode: bv16, who: Who) {
    match who
    case Owner => mode & 0x80 != 0
    case Group => mode & 0x10 != 0
    case Others => mode & 0x2 != 0
  }

  predicate MayRun(mode: bv16, who: Who) {
    match who
    case Owner => mode & 0x40 != 0
    case Group => mode & 0x8 != 0
    case Others => mode & 0x1 != 0
  }

  /** A mode with nothing but these nine rights. */
  predicate OnlyRights(mode: bv16) {
    mode & 0xFE00 == 0
  }

  lemma RunBits(mode: bv16)
    ensures mode & 0x49 != 0 <==> mode & 0x40 != 0 || mode & 0x8 != 0 || mode & 0x1 != 0
  {}

  lemma AnyoneMayRun(mode: bv16)
    ensures Executable(mode) <==> exists w :: MayRun(mode, w)
  {
    RunBits(mode);
    if Executable(mode) {
      var w := if MayRun(mode, Owner) then Owner else if MayRun(mode, Group) then Group else Others;
      assert MayRun(mode, w);
    } else {
      forall w ensures !MayRun(mode, w) {
        match w case Owner => case Group => case Others =>
      }
    }
  }

  /** After the walk everyone may read a file of the tree and nobody may write it; everyone
      may run it exactly when anyone could, and its content is as before. All else is as it was. */
  lemma NormalizedMeans(fs: FS, root: Path, p: Path)
    ensures p in NormalModes(fs, root) <==> p in fs
    ensures p in fs ==>
      var node, node' := fs[p], NormalModes(fs, root)[p];
      if root <= p && node.File? then
        && node'.File? && node'.content == node.content && OnlyRights(node'.mode)
        && (forall who :: MayRead(node'.mode, who) && !MayWrite(node'.mode, who))
        && (forall who :: MayRun(node'.mode, who) <==> exists w :: MayRun(node.mode, w))
      else node' == node
  {
    if p in fs && fs[p].File? { AnyoneMayRun(fs[p].mode); }
  }
}
