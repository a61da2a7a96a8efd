/** The byte-wise order of strings and the sorted listing of a set of names. */
module Order {
  predicate Leq(a: string, b: string) {
    if a == "" then true
    else if b == "" then false
    else if a[0] != b[0] then a[0] < b[0]
    else Leq(a[1..], b[1..])
  }

  predicate Less(a: string, b: string) {
    Leq(a, b) && a != b
  }

  lemma {:induction false} LeqTotal(a: string, b: string)
    ensures Leq(a, b) || Leq(b, a)
    ensures Leq(a, b) && Leq(b, a) ==> a == b
    decreases |a|
  {
    if a != "" && b != "" && a[0] == b[0] {
      LeqTotal(a[1..], b[1..]);
      assert a == [a[0]] + a[1..] && b == [b[0]] + b[1..];
    }
  }

  lemma {:induction false} LeqTransitive(a: string, b: string, c: string)
    requires Leq(a, b) && Leq(b, c)
    ensures Leq(a, c)
    decreases |a|
  {
    if a != "" && a[0] == b[0] == c[0] { LeqTransitive(a[1..], b[1..], c[1..]); }
  }

  /** a is where b begins, or has the smaller character where they first differ. */
  lemma {:induction false} LeqMeans(a: string, b: string)
    ensures Leq(a, b) <==> a <= b || exists k :: SmallerAt(a, b, k)
    decreases |a|
  {
    if a != "" && b != "" {
      if a[0] == b[0] {
        LeqMeans(a[1..], b[1..]);
        assert a == [a[0]] + a[1..] && b == [b[0]] + b[1..];
        if k: nat :| SmallerAt(a[1..], b[1..], k) { assert SmallerAt(a, b, k + 1); }
        if k: nat :| SmallerAt(a, b, k) { assert SmallerAt(a[1..], b[1..], k - 1); }
      } else if a[0] < b[0] {
        assert SmallerAt(a, b, 0);
      }
    }
  }

  predicate SmallerAt(a: string, b: string, k: nat) {
    k < |a| && k < |b| && a[..k] == b[..k] && a[k] < b[k]
  }

  lemma {:induction false} LeastOf(s: set<string>) returns (m: string)
    requires s != {}
    ensures m in s && forall x :: x in s ==> Leq(m, x)
    decreases |s|
  {
    m :| m in s;
    LeqTotal(m, m);
    var rest := s - {m};
    if rest != {} {
      var m' := LeastOf(rest);
      LeqTotal(m, m');
      if Leq(m, m') {
        forall x | x in s ensures Leq(m, x) {
          if x != m { LeqTransitive(m, m', x); }
        }
      } else {
        m := m';
      }
    }
  }

  lemma LeastIsUnique(s: set<string>)
    requires s != {}
    ensures exists m :: m in s && forall x :: x in s ==> Leq(m, x)
    ensures forall a, b :: a in s && b in s && Leq(a, b) && Leq(b, a) ==> a == b
  {
    var m := LeastOf(s);
    forall a, b | a in s && b in s && Leq(a, b) && Leq(b, a) ensures a == b { LeqTotal(a, b); }
  }

  function Least(s: set<string>): (m: string)
    requires s != {}
    ensures m in s && forall x :: x in s ==> Leq(m, x)
  {
    LeastIsUnique(s);
    var m :| m in s && forall x :: x in s ==> Leq(m, x);
    m
  }

  predicate Distinct<T(==)>(s: seq<T>) {
    forall i, j :: 0 <= i < j < |s| ==> s[i] != s[j]
  }

  /** The elements of `s` in increasing order. */
  function Sorted(s: set<string>): (r: seq<string>)
    ensures forall x :: x in r <==> x in s
    ensures Distinct(r)
    ensures forall i, j :: 0 <= i <= j < |r| ==> Leq(r[i], r[j])
    decreases |s|
  {
    if s == {} then []
    else
      var m := Least(s);
      var rest := Sorted(s - {m});
      assert forall x :: x in [m] + rest <==> x == m || x in rest;
      LeqTotal(m, m);
      [m] + rest
  }

  lemma {:induction false} SortedLength(s: set<string>)
    ensures |Sorted(s)| == |s|
    decreases |s|
  {
    if s != {} { SortedLength(s - {Least(s)}); }
  }
}
