/** The characters behind the paths: cutting a text at every '/' loses nothing, and the
    string tests of cmd/binman/store.go are the component tests of this model. */
module PathText {
  import opened Lexical
  import opened Extract

  /** No '/' inside a component. */
  predicate SlashFree(s: string) {
    forall i :: 0 <= i < |s| ==> s[i] != '/'
  }

  predicate SlashFreeAll(t: Text) {
    forall i :: 0 <= i < |t| ==> SlashFree(t[i])
  }

  /** strings.Split(s, "/") */
  function Split(s: string): (t: Text)
    ensures t != []
  {
    if s == "" then [""]
    else
      var rest := Split(s[1..]);
      if s[0] == '/' then [""] + rest else [[s[0]] + rest[0]] + rest[1..]
  }

  /** strings.Join(t, "/") */
  function Join(t: Text): string
    requires t != []
  {
    if |t| == 1 then t[0] else t[0] + "/" + Join(t[1..])
  }

  lemma {:induction false} SplitIsSlashFree(s: string)
    ensures SlashFreeAll(Split(s))
  {
    if s != "" { SplitIsSlashFree(s[1..]); }
  }

  lemma {:induction false} JoinSplit(s: string)
    ensures Join(Split(s)) == s
  {
    if s != "" {
      JoinSplit(s[1..]);
      var rest := Split(s[1..]);
      if s[0] == '/' {
        assert ([""] + rest)[1..] == rest;
      } else {
        assert ([[s[0]] + rest[0]] + rest[1..])[1..] == rest[1..];
        if |rest| > 1 { assert [s[0]] + rest[0] + "/" + Join(rest[1..]) == [s[0]] + (rest[0] + "/" + Join(rest[1..])); }
      }
    }
  }

  lemma {:induction false} SplitComponent(a: string, rest: string)
    requires SlashFree(a)
    ensures Split(a) == [a]
    ensures Split(a + "/" + rest) == [a] + Split(rest)
  {
    if a == "" {
      assert "" + "/" + rest == "/" + rest && ("/" + rest)[1..] == rest;
    } else {
      assert (a + "/" + rest)[1..] == a[1..] + "/" + rest && [a[0]] + a[1..] == a;
      SplitComponent(a[1..], rest);
    }
  }

  lemma {:induction false} SplitJoin(t: Text)
    requires t != [] && SlashFreeAll(t)
    ensures Split(Join(t)) == t
  {
    if |t| == 1 {
      SplitComponent(t[0], "");
    } else {
      SplitComponent(t[0], Join(t[1..]));
      SplitJoin(t[1..]);
    }
  }

  /** filepath.IsAbs */
  lemma AbsoluteText(s: string)
    ensures IsAbs(Split(s)) <==> s != "" && s[0] == '/'
  {
    SplitIsSlashFree(s);
    if s != "" && s[0] != '/' { assert Split(s)[0] != ""; }
  }

  // ----- stripFirstComponent -----

  /** Where the first '/' is, or the length. */
  function FirstSlash(s: string): (i: nat)
    ensures i <= |s|
  {
    if s == "" || s[0] == '/' then 0 else 1 + FirstSlash(s[1..])
  }

  /** TrimPrefix "./", then all after the first '/'; "" when there is none. */
  function StripFirstText(name: string): string {
    var t := if "./" <= name then name[2..] else name;
    var i := FirstSlash(t);
    if i == |t| then "" else t[i + 1..]
  }

  lemma {:induction false} SplitAtFirst(s: string)
    ensures var i := FirstSlash(s);
      Split(s) == if i == |s| then [s] else [s[..i]] + Split(s[i + 1..])
  {
    if s != "" && s[0] != '/' {
      SplitAtFirst(s[1..]);
      SplitNext(s[0], s[1..], FirstSlash(s[1..]));
      assert [s[0]] + s[1..] == s;
    } else if s != "" {
      assert s[..0] == "";
    }
  }

  /** A character before the first '/' goes to the first component. */
  lemma SplitNext(c: char, t: string, i: nat)
    requires i == FirstSlash(t) && c != '/'
    requires Split(t) == if i == |t| then [t] else [t[..i]] + Split(t[i + 1..])
    ensures var s := [c] + t;
      FirstSlash(s) == i + 1 && Split(s) == if i + 1 == |s| then [s] else [s[..i + 1]] + Split(s[i + 2..])
  {
    var s := [c] + t;
    assert s[1..] == t;
    if i < |t| {
      assert s[..i + 1] == [c] + t[..i] && s[i + 2..] == t[i + 1..];
      assert Split(t)[1..] == Split(t[i + 1..]);
    } else {
      assert Split(t)[1..] == [];
    }
  }

  /** What StripFirst does after a leading "./" is gone. */
  lemma StripPlain(t: string)
    ensures var i := FirstSlash(t);
      Split(if i == |t| then "" else t[i + 1..]) == if |Split(t)| < 2 then [""] else Split(t)[1..]
  {
    SplitAtFirst(t);
    var i := FirstSlash(t);
    if i < |t| { assert ([t[..i]] + Split(t[i + 1..]))[1..] == Split(t[i + 1..]); }
  }

  lemma DotSlash(name: string)
    requires FirstSlash(name) < |name| && name[..FirstSlash(name)] == "."
    ensures "./" <= name
  {
    FirstSlashIs(name);
    assert FirstSlash(name) == 1 && name[0] == name[..1][0];
  }

  /** Only a text that starts with "./" is split into a first component "." and more. */
  lemma DotFirst(name: string)
    ensures "./" <= name ==> Split(name) == ["."] + Split(name[2..])
    ensures |Split(name)| >= 2 && Split(name)[0] == "." ==> "./" <= name
  {
    SplitAtFirst(name);
    var i := FirstSlash(name);
    if i < |name| && name[..i] == "." { DotSlash(name); }
    if "./" <= name {
      assert name == "." + "/" + name[2..];
      SplitComponent(".", name[2..]);
    }
  }

  /** On characters and on components the first component is stripped alike. */
  lemma StripFirstAgrees(name: string)
    ensures Split(StripFirstText(name)) == StripFirst(Split(name))
  {
    DotFirst(name);
    StripPlain(if "./" <= name then name[2..] else name);
    if "./" <= name { assert (["."] + Split(name[2..]))[1..] == Split(name[2..]); }
  }

  lemma {:induction false} FirstSlashIs(s: string)
    ensures FirstSlash(s) < |s| ==> s[FirstSlash(s)] == '/'
  {
    if s != "" && s[0] != '/' { FirstSlashIs(s[1..]); }
  }

  lemma {:induction false} FirstSlashAfter(a: string, b: string)
    requires SlashFree(a)
    ensures FirstSlash(a) == |a| && FirstSlash(a + "/" + b) == |a|
  {
    if a != "" {
      FirstSlashAfter(a[1..], b);
      assert (a + "/" + b)[1..] == a[1..] + "/" + b;
    } else {
      assert "" + "/" + b == "/" + b;
    }
  }

  /** Of a name the first component goes, and a "./" before it; a name of one component has
      nothing left. */
  lemma StripFirstMeans(a: string, b: string)
    requires SlashFree(a)
    ensures a != "." ==> StripFirstText(a + "/" + b) == b
    ensures StripFirstText("./" + a + "/" + b) == b
    ensures StripFirstText(a) == "" && StripFirstText("./" + a) == ""
  {
    FirstSlashAfter(a, b);
    assert ("./" + a + "/" + b)[2..] == a + "/" + b && ("./" + a)[2..] == a;
    assert (a + "/" + b)[|a| + 1..] == b;
    if "./" <= a + "/" + b {
      assert (a + "/" + b)[0] == '.' && (a + "/" + b)[1] == '/';
      assert a == ".";
    }
  }

  // ----- withinRoot -----

  /** A clean absolute path as it is written. */
  function Written(p: Path): string {
    if p == [] then "/" else "/" + Join(p)
  }

  /** withinRoot on strings: not the root itself, and the root with a '/' in front of it. */
  predicate WithinRootText(root: string, p: string) {
    p != root && root + "/" <= p
  }

  lemma {:induction false} JoinConcat(a: Text, b: Text)
    requires a != [] && b != []
    ensures Join(a + b) == Join(a) + "/" + Join(b)
  {
    if |a| == 1 {
      assert (a + b)[1..] == b;
    } else {
      assert (a + b)[1..] == a[1..] + b;
      JoinConcat(a[1..], b);
      assert a[0] + "/" + (Join(a[1..]) + "/" + Join(b)) == a[0] + "/" + Join(a[1..]) + "/" + Join(b);
    }
  }

  lemma {:induction false} SplitConcat(a: string, b: string)
    ensures Split(a + "/" + b) == Split(a) + Split(b)
  {
    if a == "" {
      assert "" + "/" + b == "/" + b && ("/" + b)[1..] == b;
    } else {
      assert (a + "/" + b)[1..] == a[1..] + "/" + b;
      SplitConcat(a[1..], b);
    }
  }

  lemma AfterSlash(r: string, p: string)
    ensures "/" + r + "/" <= "/" + p ==> p == r + "/" + p[|r| + 1..]
    ensures "/" + r + "/" <= "/" + (r + "/" + p)
  {
    var x, y := "/" + r + "/", "/" + p;
    assert y[1..] == p && x[1..] == r + "/";
    if x <= y {
      assert y[..|x|] == x;
      assert p[..|r| + 1] == x[1..];
    }
    assert "/" + (r + "/" + p) == "/" + r + "/" + p;
  }

  lemma JoinedBelow(root: Path, p: Path) returns (rest: string)
    requires root != [] && root < p
    ensures Join(p) == Join(root) + "/" + rest
  {
    assert p == root + p[|root|..];
    JoinConcat(root, p[|root|..]);
    rest := Join(p[|root|..]);
  }

  lemma BelowJoined(root: Path, p: Path, rest: string)
    requires root != [] && p != [] && SlashFreeAll(root) && SlashFreeAll(p) && Join(p) == Join(root) + "/" + rest
    ensures root < p
  {
    SplitJoin(p);
    SplitJoin(root);
    SplitConcat(Join(root), rest);
    assert p == root + Split(rest);
  }

  /** Below a root other than "/" the string test is the proper-prefix test on components. */
  lemma WithinRootAgrees(root: Path, p: Path)
    requires Names(root) && Names(p) && SlashFreeAll(root) && SlashFreeAll(p) && root != []
    ensures WithinRootText(Written(root), Written(p)) <==> WithinRoot(root, p)
  {
    if p != [] {
      var r, t := Join(root), Join(p);
      AfterSlash(r, t);
      assert Written(root) + "/" == "/" + r + "/" && Written(p) == "/" + t;
      if WithinRootText(Written(root), Written(p)) { BelowJoined(root, p, t[|r| + 1..]); }
      if root < p {
        var rest := JoinedBelow(root, p);
        AfterSlash(r, rest);
        assert |Written(root)| < |Written(p)|;
      }
    } else {
      assert |Written(root) + "/"| > 1;
    }
  }

  /** With "/" as the root the test accepts no clean path at all. */
  lemma NothingWithinSlash(p: Path)
    requires Names(p) && SlashFreeAll(p)
    ensures !WithinRootText(Written([]), Written(p))
  {
    if p != [] {
      var tail := if |p| == 1 then "" else "/" + Join(p[1..]);
      assert Join(p) == p[0] + tail;
      assert p[0] != "" && Written(p)[1] == p[0][0];
    }
  }
}
