// Sums over a table of rows.  The engine keeps these sums as running totals; the
// model states what the running totals must equal.
module Sums {

  ghost predicate Distinct(s: seq<nat>) {
    forall i, j :: 0 <= i < j < |s| ==> s[i] != s[j]
  }

  ghost function Sum<T(!new)>(rows: seq<T>, f: T -> int): int {
    if rows == [] then 0 else Sum(rows[..|rows| - 1], f) + f(rows[|rows| - 1])
  }

  ghost function SumReal<T(!new)>(rows: seq<T>, f: T -> real): real {
    if rows == [] then 0.0 else SumReal(rows[..|rows| - 1], f) + f(rows[|rows| - 1])
  }

  lemma SumOfTwo<T(!new)>(x: T, y: T, f: T -> int, g: T -> real)
    ensures Sum([x, y], f) == f(x) + f(y)
    ensures SumReal([x, y], g) == g(x) + g(y)
  {
    assert [x, y][..1] == [x] && [x][..0] == [];
    assert Sum([x], f) == f(x) && SumReal([x], g) == g(x);
  }

  /** Replacing one row changes the sum by that row's term only. */
  lemma {:induction false} SumUpdate<T(!new)>(rows: seq<T>, i: nat, x: T, f: T -> int)
    requires i < |rows|
    ensures Sum(rows[i := x], f) == Sum(rows, f) - f(rows[i]) + f(x)
  {
    var n := |rows| - 1;
    if i == n {
      assert rows[i := x][..n] == rows[..n];
    } else {
      assert rows[i := x][..n] == rows[..n][i := x];
      SumUpdate(rows[..n], i, x, f);
    }
  }

  lemma {:induction false} SumRealUpdate<T(!new)>(rows: seq<T>, i: nat, x: T, f: T -> real)
    requires i < |rows|
    ensures SumReal(rows[i := x], f) == SumReal(rows, f) - f(rows[i]) + f(x)
  {
    var n := |rows| - 1;
    if i == n {
      assert rows[i := x][..n] == rows[..n];
    } else {
      assert rows[i := x][..n] == rows[..n][i := x];
      SumRealUpdate(rows[..n], i, x, f);
    }
  }

  /** Termwise comparison. */
  lemma {:induction false} SumMono<T(!new)>(rows: seq<T>, f: T -> int, g: T -> int)
    requires forall x | x in rows :: f(x) <= g(x)
    ensures Sum(rows, f) <= Sum(rows, g)
  {
    if rows != [] {
      var n := |rows| - 1;
      assert forall x | x in rows[..n] :: x in rows;
      SumMono(rows[..n], f, g);
    }
  }

  lemma {:induction false} SumZero<T(!new)>(rows: seq<T>, f: T -> int)
    requires forall x | x in rows :: f(x) == 0
    ensures Sum(rows, f) == 0
  {
    if rows != [] {
      var n := |rows| - 1;
      assert forall x | x in rows[..n] :: x in rows;
      SumZero(rows[..n], f);
    }
  }

  /** A sum of nonnegative terms is at least any one of them. */
  lemma {:induction false} SumAtLeast<T(!new)>(rows: seq<T>, i: nat, f: T -> int)
    requires i < |rows|
    requires forall x | x in rows :: f(x) >= 0
    ensures Sum(rows, f) >= f(rows[i]) >= 0
  {
    var n := |rows| - 1;
    assert forall x | x in rows[..n] :: x in rows;
    if i == n {
      SumNonNegative(rows[..n], f);
    } else {
      SumAtLeast(rows[..n], i, f);
      assert rows[n] in rows;
    }
  }

  lemma {:induction false} SumNonNegative<T(!new)>(rows: seq<T>, f: T -> int)
    requires forall x | x in rows :: f(x) >= 0
    ensures Sum(rows, f) >= 0
  {
    if rows != [] {
      var n := |rows| - 1;
      assert forall x | x in rows[..n] :: x in rows;
      SumNonNegative(rows[..n], f);
    }
  }

  lemma {:induction false} SumRealNonNegative<T(!new)>(rows: seq<T>, f: T -> real)
    requires forall x | x in rows :: f(x) >= 0.0
    ensures SumReal(rows, f) >= 0.0
  {
    if rows != [] {
      var n := |rows| - 1;
      assert forall x | x in rows[..n] :: x in rows;
      SumRealNonNegative(rows[..n], f);
    }
  }

  lemma {:induction false} SumRealAtLeast<T(!new)>(rows: seq<T>, i: nat, f: T -> real)
    requires i < |rows|
    requires forall x | x in rows :: f(x) >= 0.0
    ensures SumReal(rows, f) >= f(rows[i])
  {
    var n := |rows| - 1;
    assert forall x | x in rows[..n] :: x in rows;
    if i == n {
      SumRealNonNegative(rows[..n], f);
    } else {
      SumRealAtLeast(rows[..n], i, f);
      assert rows[n] in rows;
    }
  }

  lemma {:induction false} SumRealZero<T(!new)>(rows: seq<T>, f: T -> real)
    requires forall x | x in rows :: f(x) == 0.0
    ensures SumReal(rows, f) == 0.0
  {
    if rows != [] {
      var n := |rows| - 1;
      assert forall x | x in rows[..n] :: x in rows;
      SumRealZero(rows[..n], f);
    }
  }
}
