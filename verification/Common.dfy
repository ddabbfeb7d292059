/** Option and Result types, the errors a service call can raise, and searches over table rows. */
module Common {

  datatype Option<+T> = None | Some(value: T)

  /** The application's error classes (one constructor per exception type). */
  datatype Error =
    | NotFound
    | Conflict
    | Forbidden
    | Invalid

  datatype Result<+T> = Ok(value: T) | Err(error: Error)

  /** `query.filter(p).first()`: the first row satisfying p, in table order. */
  function FindFirst<T>(rows: seq<T>, p: T -> bool): (r: Option<nat>)
    ensures r.Some? ==> r.value < |rows| && p(rows[r.value]) && forall j :: 0 <= j < r.value ==> !p(rows[j])
    ensures r.None? ==> forall j :: 0 <= j < |rows| ==> !p(rows[j])
  {
    if rows == [] then None
    else if p(rows[0]) then Some(0)
    else match FindFirst(rows[1..], p)
      case None => assert forall j :: 1 <= j < |rows| ==> rows[j] == rows[1..][j - 1]; None
      case Some(i) => assert forall j :: 1 <= j < |rows| ==> rows[j] == rows[1..][j - 1]; Some(i + 1)
  }

  /** The positions of the rows satisfying p, in table order. */
  function Where<T>(rows: seq<T>, p: T -> bool): (r: seq<int>)
    ensures forall i :: i in r <==> 0 <= i < |rows| && p(rows[i])
    ensures Distinct(r)
  {
    if rows == [] then []
    else
      var n := |rows| - 1;
      var earlier := Where(rows[..n], p);
      assert forall k :: 0 <= k < |earlier| ==> earlier[k] in earlier;
      if p(rows[n]) then earlier + [n] else earlier
  }

  /** Every entry of m is in m' unchanged. */
  ghost predicate Extends<K(!new), V>(m: map<K, V>, m': map<K, V>) {
    forall k :: k in m ==> k in m' && m'[k] == m[k]
  }

  /** No element occurs twice. */
  ghost predicate Distinct<T>(xs: seq<T>) {
    forall i, j :: 0 <= i < j < |xs| ==> xs[i] != xs[j]
  }

  lemma DistinctConcat<T>(xs: seq<T>, ys: seq<T>)
    ensures Distinct(xs + ys) <==> Distinct(xs) && Distinct(ys) && forall y :: y in ys ==> y !in xs
  {
    var all := xs + ys;
    if Distinct(all) {
      assert xs == all[..|xs|] && ys == all[|xs|..];
    } else {
      var i, j :| 0 <= i < j < |all| && all[i] == all[j];
      if i < |xs| <= j {
        assert ys[j - |xs|] in ys && ys[j - |xs|] == xs[i];
      } else if j < |xs| {
        assert xs[i] == xs[j];
      } else {
        assert ys[i - |xs|] == ys[j - |xs|];
      }
    }
  }

  function Elements<T(==)>(xs: seq<T>): set<T> {
    set x | x in xs
  }

  lemma ElementsAppend<T>(xs: seq<T>, x: T)
    ensures Elements(xs + [x]) == Elements(xs) + {x}
  {
  }

  lemma ElementsUpTo<T>(xs: seq<T>, i: nat)
    requires i < |xs|
    ensures Elements(xs[..i + 1]) == Elements(xs[..i]) + {xs[i]}
  {
    assert xs[..i + 1] == xs[..i] + [xs[i]];
  }

  lemma {:induction false} DistinctCount<T>(xs: seq<T>, s: set<T>)
    requires Distinct(xs) && forall x :: x in xs <==> x in s
    ensures |xs| == |s|
  {
    if xs == [] {
      assert s == {};
    } else {
      var n := |xs| - 1;
      assert xs == xs[..n] + [xs[n]];
      DistinctCount(xs[..n], s - {xs[n]});
    }
  }

  /** How often x occurs in xs. */
  function Occurrences<T(==)>(xs: seq<T>, x: T): nat {
    if xs == [] then 0
    else Occurrences(xs[..|xs| - 1], x) + if xs[|xs| - 1] == x then 1 else 0
  }

  lemma {:induction false} OccurrencesConcat<T>(xs: seq<T>, ys: seq<T>, x: T)
    ensures Occurrences(xs + ys, x) == Occurrences(xs, x) + Occurrences(ys, x)
  {
    if ys == [] {
      assert xs + ys == xs;
    } else {
      assert (xs + ys)[..|xs + ys| - 1] == xs + ys[..|ys| - 1];
      OccurrencesConcat(xs, ys[..|ys| - 1], x);
    }
  }

  lemma {:induction false} OccurrencesPositive<T>(xs: seq<T>, x: T)
    ensures Occurrences(xs, x) > 0 <==> x in xs
  {
    if xs != [] {
      OccurrencesPositive(xs[..|xs| - 1], x);
      assert xs == xs[..|xs| - 1] + [xs[|xs| - 1]];
    }
  }

  lemma {:induction false} DistinctOccurrences<T>(xs: seq<T>)
    ensures Distinct(xs) <==> forall x :: x in xs ==> Occurrences(xs, x) == 1
  {
    if xs != [] {
      var n := |xs| - 1;
      DistinctOccurrences(xs[..n]);
      assert xs == xs[..n] + [xs[n]];
      if Distinct(xs) {
        forall x | x in xs ensures Occurrences(xs, x) == 1 {
          OccurrencesPositive(xs[..n], x);
        }
      } else if xs[n] in xs[..n] {
        OccurrencesPositive(xs[..n], xs[n]);
        assert xs[n] in xs && Occurrences(xs, xs[n]) > 1;
      } else {
        assert !Distinct(xs[..n]);
        var x :| x in xs[..n] && Occurrences(xs[..n], x) != 1;
        assert Occurrences(xs, x) != 1;
      }
    }
  }
}
