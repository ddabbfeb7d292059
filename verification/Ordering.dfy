/** Sorting finite sets: the one strictly increasing listing of a set under a total order. */
module Ordering {
  import opened Common

  ghost predicate TotalOrder<T(!new)>(le: (T, T) -> bool) {
    && (forall x, y :: le(x, y) || le(y, x))
    && (forall x, y :: le(x, y) && le(y, x) ==> x == y)
    && forall x, y, z :: le(x, y) && le(y, z) ==> le(x, z)
  }

  ghost predicate IsLeast<T(!new)>(s: set<T>, le: (T, T) -> bool, m: T) {
    m in s && forall x :: x in s ==> le(m, x)
  }

  lemma {:induction false} LeastExists<T(!new)>(s: set<T>, le: (T, T) -> bool)
    requires TotalOrder(le) && s != {}
    ensures exists m :: IsLeast(s, le, m)
    decreases s
  {
    var x :| x in s;
    if s == {x} {
      assert IsLeast(s, le, x);
    } else {
      LeastExists(s - {x}, le);
      var rest :| IsLeast(s - {x}, le, rest);
      var m := if le(x, rest) then x else rest;
      forall y | y in s ensures le(m, y) {
        assert y == x || y in s - {x};
      }
      assert IsLeast(s, le, m);
    }
  }

  function Least<T(!new)>(s: set<T>, le: (T, T) -> bool): (m: T)
    requires TotalOrder(le) && s != {}
    ensures IsLeast(s, le, m)
  {
    LeastExists(s, le);
    var m :| m in s && forall x :: x in s ==> le(m, x);
    m
  }

  /** Strictly increasing under le. */
  ghost predicate Increasing<T(!new)>(xs: seq<T>, le: (T, T) -> bool) {
    forall i, j :: 0 <= i < j < |xs| ==> xs[i] != xs[j] && le(xs[i], xs[j])
  }

  function Sorted<T(!new)>(s: set<T>, le: (T, T) -> bool): (xs: seq<T>)
    requires TotalOrder(le)
    ensures Elements(xs) == s && Increasing(xs, le)
  {
    if s == {} then []
    else
      var m := Least(s, le);
      var rest := Sorted(s - {m}, le);
      assert forall x :: x in rest <==> x in Elements(rest);
      assert forall x :: x in [m] + rest <==> x == m || x in rest;
      [m] + rest
  }

  /** A set has one increasing listing. */
  lemma {:induction false} IncreasingUnique<T(!new)>(xs: seq<T>, ys: seq<T>, le: (T, T) -> bool)
    requires TotalOrder(le) && Increasing(xs, le) && Increasing(ys, le)
    requires forall x :: x in xs <==> x in ys
    ensures xs == ys
  {
    assert xs != [] ==> xs[0] in xs;
    assert ys != [] ==> ys[0] in ys;
    if xs != [] {
      assert le(xs[0], ys[0]) && le(ys[0], xs[0]);
      forall x ensures x in xs[1..] <==> x in ys[1..] {
        assert x in xs[1..] <==> x in xs && x != xs[0];
        assert x in ys[1..] <==> x in ys && x != ys[0];
      }
      IncreasingUnique(xs[1..], ys[1..], le);
      assert xs == [xs[0]] + xs[1..] && ys == [ys[0]] + ys[1..];
    }
  }

  // --- Integers ----------------------------------------------------------

  predicate IntLe(a: int, b: int) { a <= b }

  lemma IntOrderTotal()
    ensures TotalOrder(IntLe)
  {
  }

  // --- Strings by code point ---------------------------------------------

  predicate StringLe(a: string, b: string) {
    a == "" || (b != "" && (a[0] < b[0] || (a[0] == b[0] && StringLe(a[1..], b[1..]))))
  }

  lemma {:induction false} StringLeTotal(a: string, b: string)
    ensures StringLe(a, b) || StringLe(b, a)
    ensures StringLe(a, b) && StringLe(b, a) ==> a == b
  {
    if a != "" && b != "" && a[0] == b[0] {
      StringLeTotal(a[1..], b[1..]);
      assert a == [a[0]] + a[1..] && b == [b[0]] + b[1..];
    }
  }

  lemma {:induction false} StringLeTransitive(a: string, b: string, c: string)
    requires StringLe(a, b) && StringLe(b, c)
    ensures StringLe(a, c)
  {
    if a != "" && a[0] == b[0] == c[0] {
      StringLeTransitive(a[1..], b[1..], c[1..]);
    }
  }

  lemma StringOrderTotal()
    ensures TotalOrder(StringLe)
  {
    forall a, b ensures (StringLe(a, b) || StringLe(b, a)) && (StringLe(a, b) && StringLe(b, a) ==> a == b) {
      StringLeTotal(a, b);
    }
    forall a, b, c | StringLe(a, b) && StringLe(b, c) ensures StringLe(a, c) {
      StringLeTransitive(a, b, c);
    }
  }
}
