// Ascending listings of finite sets: what Python's list.sort() and the
// iteration order of a C++ std::map give for a set of keys.
module Sorting {

  ghost predicate TotalOrder<T(!new)>(leq: (T, T) -> bool) {
    && (forall x :: leq(x, x))
    && (forall x, y :: leq(x, y) && leq(y, x) ==> x == y)
    && (forall x, y, z :: leq(x, y) && leq(y, z) ==> leq(x, z))
    && (forall x, y :: leq(x, y) || leq(y, x))
  }

  lemma {:induction false} LeastExists<T(!new)>(s: set<T>, leq: (T, T) -> bool)
    requires TotalOrder(leq) && s != {}
    ensures exists m :: m in s && forall y | y in s :: leq(m, y)
  {
    var x :| x in s;
    var rest := s - {x};
    if rest == {} {
      assert s == {x};
    } else {
      LeastExists(rest, leq);
      var m :| m in rest && forall y | y in rest :: leq(m, y);
      var least := if leq(x, m) then x else m;
      assert least in s && forall y | y in s :: leq(least, y);
    }
  }

  function Least<T(!new, ==)>(s: set<T>, leq: (T, T) -> bool): (m: T)
    requires TotalOrder(leq) && s != {}
    ensures m in s && forall y | y in s :: leq(m, y)
  {
    LeastExists(s, leq);
    var m :| m in s && forall y | y in s :: leq(m, y);
    m
  }

  ghost predicate Ascending<T>(xs: seq<T>, leq: (T, T) -> bool) {
    forall i, j | 0 <= i < j < |xs| :: leq(xs[i], xs[j]) && xs[i] != xs[j]
  }

  function Sorted<T(!new, ==)>(s: set<T>, leq: (T, T) -> bool): (xs: seq<T>)
    requires TotalOrder(leq)
    ensures Ascending(xs, leq)
    ensures forall x :: x in xs <==> x in s
    ensures |xs| == |s|
  {
    if s == {} then [] else
      var m := Least(s, leq);
      [m] + Sorted(s - {m}, leq)
  }

  predicate StringLeq(a: string, b: string) {
    a == "" || (b != "" && (a[0] < b[0] || (a[0] == b[0] && StringLeq(a[1..], b[1..]))))
  }

  lemma {:induction false} StringLeqTransitive(a: string, b: string, c: string)
    requires StringLeq(a, b) && StringLeq(b, c)
    ensures StringLeq(a, c)
  {
    if a != "" && a[0] == b[0] == c[0] {
      StringLeqTransitive(a[1..], b[1..], c[1..]);
    }
  }

  lemma {:induction false} StringLeqTotal(a: string, b: string)
    ensures StringLeq(a, b) || StringLeq(b, a)
    ensures StringLeq(a, b) && StringLeq(b, a) ==> a == b
    ensures a == b ==> StringLeq(a, b)
  {
    if a != "" && b != "" && a[0] == b[0] {
      StringLeqTotal(a[1..], b[1..]);
      assert a == [a[0]] + a[1..] && b == [b[0]] + b[1..];
    }
  }

  lemma StringOrder()
    ensures TotalOrder(StringLeq)
  {
    forall x, y ensures StringLeq(x, y) || StringLeq(y, x)
      ensures StringLeq(x, y) && StringLeq(y, x) ==> x == y
      ensures StringLeq(x, x)
    {
      StringLeqTotal(x, y);
      StringLeqTotal(x, x);
    }
    forall x, y, z | StringLeq(x, y) && StringLeq(y, z) ensures StringLeq(x, z) {
      StringLeqTransitive(x, y, z);
    }
  }

  // At place n two strings part: before it they agree, and there the first ends or has the smaller
  // character.
  ghost predicate PartAt(s: string, t: string, n: nat) {
    n <= |s| && n < |t| && s[..n] == t[..n] && (n == |s| || s[n] < t[n])
  }

  // The first string comes before the second in a dictionary.
  ghost predicate ComesBefore(s: string, t: string) {
    exists n: nat :: PartAt(s, t, n)
  }

  lemma {:induction false} StringLeqExactly(s: string, t: string)
    ensures StringLeq(s, t) <==> s == t || ComesBefore(s, t)
  {
    if s == "" {
      assert t != "" ==> PartAt(s, t, 0);
    } else if t != "" && s[0] == t[0] {
      StringLeqExactly(s[1..], t[1..]);
      PartLater(s, t);
      assert s == t <==> s[1..] == t[1..] by {
        assert s == [s[0]] + s[1..] && t == [t[0]] + t[1..];
      }
    } else if t != "" {
      assert s[0] < t[0] ==> PartAt(s, t, 0);
      assert forall n: nat | 0 < n <= |s| && n < |t| :: s[..n][0] == s[0] && t[..n][0] == t[0];
    }
  }

  lemma PartLater(s: string, t: string)
    requires s != "" && t != "" && s[0] == t[0]
    ensures ComesBefore(s, t) <==> ComesBefore(s[1..], t[1..])
  {
    if n: nat :| PartAt(s, t, n) {
      assert n > 0 && s[1..][..n - 1] == s[..n][1..] && t[1..][..n - 1] == t[..n][1..];
      assert PartAt(s[1..], t[1..], n - 1);
    }
    if n: nat :| PartAt(s[1..], t[1..], n) {
      assert s[..n + 1] == [s[0]] + s[1..][..n] && t[..n + 1] == [t[0]] + t[1..][..n];
      assert PartAt(s, t, n + 1);
    }
  }

  // In dictionary order, and nothing twice.
  ghost predicate InOrder(xs: seq<string>) {
    forall i, j | 0 <= i < j < |xs| :: ComesBefore(xs[i], xs[j])
  }

  lemma AscendingInOrder(xs: seq<string>)
    requires Ascending(xs, StringLeq)
    ensures InOrder(xs)
  {
    forall i, j | 0 <= i < j < |xs| ensures ComesBefore(xs[i], xs[j]) { StringLeqExactly(xs[i], xs[j]); }
  }
}
