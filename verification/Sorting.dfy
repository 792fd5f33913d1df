// The engine's insertion sort, in place on the front part of a buffer.
module Sorting {

  ghost predicate Sorted(s: seq<nat>) {
    forall i, j :: 0 <= i <= j < |s| ==> s[i] <= s[j]
  }

  /** While entry `i` sinks it is at `j`: the others up to `i` are in order, and those
      it has passed are not smaller. */
  ghost predicate Sinking(s: seq<nat>, i: nat, j: nat)
    requires j <= i < |s|
  {
    && (forall x, y :: 0 <= x <= y <= i && x != j && y != j ==> s[x] <= s[y])
    && (forall x :: j < x <= i ==> s[j] <= s[x])
  }

  function SwappedDown(s: seq<nat>, j: nat): seq<nat>
    requires 0 < j < |s|
  {
    s[j - 1 := s[j]][j := s[j - 1]]
  }

  lemma SwapKeeps(s: seq<nat>, i: nat, j: nat)
    requires 0 < j <= i < |s| && Sinking(s, i, j) && s[j - 1] > s[j]
    ensures Sinking(SwappedDown(s, j), i, j - 1)
    ensures multiset(SwappedDown(s, j)) == multiset(s)
    ensures SwappedDown(s, j)[i + 1..] == s[i + 1..]
  {
    var t := SwappedDown(s, j);
    assert s == s[..j - 1] + [s[j - 1]] + [s[j]] + s[j + 1..];
    assert t == s[..j - 1] + [s[j]] + [s[j - 1]] + s[j + 1..];
  }

  lemma SunkIsSorted(s: seq<nat>, i: nat, j: nat)
    requires j <= i < |s| && Sinking(s, i, j)
    requires j == 0 || s[j - 1] <= s[j]
    ensures Sorted(s[..i + 1])
  {
    forall x, y | 0 <= x <= y <= i
      ensures s[x] <= s[y]
    {
      if y == j && x < j {
        assert s[x] <= s[j - 1];
      }
    }
  }

  /** Sinks entry `i` into the sorted front `a[..i]` by adjacent swaps. */
  method Sink(a: array<nat>, i: nat)
    requires i < a.Length && Sorted(a[..i])
    modifies a
    ensures Sorted(a[..i + 1])
    ensures multiset(a[..]) == multiset(old(a[..]))
    ensures a[i + 1..] == old(a[i + 1..])
  {
    var j := i;
    assert forall x, y :: 0 <= x <= y < i ==> a[..i][x] <= a[..i][y];
    while j > 0 && a[j - 1] > a[j]
      invariant 0 <= j <= i
      invariant Sinking(a[..], i, j)
      invariant multiset(a[..]) == multiset(old(a[..]))
      invariant a[..][i + 1..] == old(a[..])[i + 1..]
    {
      hide Sinking;
      SwapKeeps(a[..], i, j);
      ghost var before := a[..];
      a[j - 1], a[j] := a[j], a[j - 1];
      assert a[..] == SwappedDown(before, j);
      j := j - 1;
    }
    SunkIsSorted(a[..], i, j);
    assert a[..][..i + 1] == a[..i + 1];
    assert a[..][i + 1..] == a[i + 1..];
  }

  /** Sorts the first `n` entries in place. */
  method InsertionSort(a: array<nat>, n: nat)
    requires n <= a.Length
    modifies a
    ensures Sorted(a[..n])
    ensures multiset(a[..n]) == multiset(old(a[..n]))
    ensures a[n..] == old(a[n..])
  {
    var i := 1;
    while i < n
      invariant 1 <= i
      invariant i <= n || n == 0
      invariant n > 0 ==> Sorted(a[..i])
      invariant multiset(a[..]) == multiset(old(a[..]))
      invariant a[n..] == old(a[n..])
    {
      Sink(a, i);
      assert a[n..] == a[i + 1..][n - i - 1..];
      i := i + 1;
    }
    FrontMultiset(old(a[..]), a[..], n);
  }

  lemma FrontMultiset(s: seq<nat>, t: seq<nat>, n: nat)
    requires |s| == |t| && n <= |s| && s[n..] == t[n..] && multiset(s) == multiset(t)
    ensures multiset(s[..n]) == multiset(t[..n])
  {
    assert s == s[..n] + s[n..] && t == t[..n] + t[n..];
    assert multiset(s) == multiset(s[..n]) + multiset(s[n..]);
    assert multiset(t) == multiset(t[..n]) + multiset(t[n..]);
    assert multiset(s[..n]) == multiset(s) - multiset(s[n..]);
    assert multiset(t[..n]) == multiset(t) - multiset(t[n..]);
  }

  /** A sorted copy of a list. */
  method SortedCopy(s: seq<nat>) returns (t: seq<nat>)
    ensures Sorted(t) && multiset(t) == multiset(s)
  {
    var a := new nat[|s|](i requires 0 <= i < |s| => s[i]);
    assert a[..] == s;
    assert a[..a.Length] == a[..];
    InsertionSort(a, a.Length);
    assert a[..a.Length] == a[..];
    t := a[..];
  }
}
