// The slot allocator: a doubly linked free list threaded through two arrays, and
// the flags that say which slots are in use.
module SlotList {
  import opened Arith
  import opened Market
  import opened Sums

  const MAX_MATERIALIZED_ACCOUNTS: nat := 1_000_000

  ghost function UsedTerm(): bool -> int {
    (b: bool) => if b then 1 else 0
  }

  ghost function Upto(n: nat): (s: seq<nat>)
    ensures |s| == n && forall i :: 0 <= i < n ==> s[i] == i
  {
    seq(n, i => i)
  }

  /** The free list without its `k`-th slot. */
  ghost function Without(s: seq<nat>, k: nat): seq<nat>
    requires k < |s|
  {
    s[..k] + s[k + 1..]
  }

  class Slots {
    const capacity: nat
    const maxAccounts: nat
    const used: array<bool>
    const nextFree: array<nat>
    const prevFree: array<nat>
    var freeHead: nat
    var numUsed: nat
    var materialized: nat

    /** The free slots in list order. */
    ghost var free: seq<nat>

    /** What the arrays and the head say about the list `free`. */
    ghost predicate Linked()
      reads this, nextFree, prevFree
      requires nextFree.Length == prevFree.Length == capacity
      requires forall k :: 0 <= k < |free| ==> free[k] < capacity
    {
      && freeHead == (if |free| > 0 then free[0] else NIL)
      && (forall k {:trigger nextFree[free[k]]} :: 0 <= k < |free| ==>
            nextFree[free[k]] == (if k + 1 < |free| then free[k + 1] else NIL))
      && (forall k {:trigger prevFree[free[k]]} :: 0 <= k < |free| ==>
            prevFree[free[k]] == (if k > 0 then free[k - 1] else NIL))
    }

    ghost predicate Valid()
      reads this, used, nextFree, prevFree
    {
      && 0 < capacity < NIL && maxAccounts <= capacity
      && used.Length == nextFree.Length == prevFree.Length == capacity
      && nextFree != prevFree
      && (forall k :: 0 <= k < |free| ==> free[k] < capacity && !used[free[k]])
      && (forall i :: 0 <= i < capacity && !used[i] ==> i in free)
      && Distinct(free)
      && Linked()
      && numUsed == materialized == Sum(used[..], UsedTerm())
    }

    /** The list 0 -> 1 -> ... -> capacity - 1, with no slot in use. */
    constructor (capacity: nat, maxAccounts: nat)
      requires 0 < capacity < NIL && maxAccounts <= capacity
      ensures Valid() && fresh(used) && fresh(nextFree) && fresh(prevFree)
      ensures this.capacity == capacity && this.maxAccounts == maxAccounts
      ensures free == Upto(capacity)
      ensures numUsed == 0
      ensures forall i :: 0 <= i < capacity ==> !used[i]
    {
      hide Upto;
      this.capacity := capacity;
      this.maxAccounts := maxAccounts;
      used := new bool[capacity](_ => false);
      nextFree := new nat[capacity](_ => 0);
      prevFree := new nat[capacity](_ => 0);
      freeHead := 0;
      numUsed, materialized := 0, 0;
      free := Upto(capacity);
      new;
      ThreadAll();
      SumZero(used[..], UsedTerm());
      forall i | 0 <= i < capacity
        ensures i in free
      {
        assert free[i] == i;
      }
    }

    /** Threads every slot onto the list in index order. */
    method ThreadAll()
      requires 0 < capacity < NIL && nextFree.Length == prevFree.Length == capacity && nextFree != prevFree
      modifies nextFree, prevFree
      ensures forall k :: 0 <= k < capacity ==> nextFree[k] == (if k + 1 < capacity then k + 1 else NIL)
      ensures forall k :: 0 <= k < capacity ==> prevFree[k] == (if k > 0 then k - 1 else NIL)
    {
      prevFree[0] := NIL;
      for i := 0 to capacity - 1
        invariant forall k :: 0 <= k < i ==> nextFree[k] == k + 1
        invariant prevFree[0] == NIL && forall k :: 0 < k <= i ==> prevFree[k] == k - 1
      {
        nextFree[i] := i + 1;
        prevFree[i + 1] := i;
      }
      nextFree[capacity - 1] := NIL;
    }

    predicate IsUsed(idx: nat)
      requires used.Length == capacity
      reads this, used
    {
      idx < capacity && used[idx]
    }

    /** The array half of the invariant: everything but which slots are in use. */
    ghost predicate ListOk()
      reads this, nextFree, prevFree
    {
      && 0 < capacity < NIL
      && nextFree.Length == prevFree.Length == capacity
      && nextFree != prevFree
      && (forall k :: 0 <= k < |free| ==> free[k] < capacity)
      && Distinct(free)
      && Linked()
    }

    /** The forward half of an unlink: what pointed at the slot points behind it. */
    method SkipForward(idx: nat, next: nat, prev: nat, ghost k: nat)
      requires ListOk() && k < |free| && free[k] == idx
      requires next == (if k + 1 < |free| then free[k + 1] else NIL) && prev == (if k > 0 then free[k - 1] else NIL)
      modifies this`freeHead, nextFree
      ensures var rest := Without(free, k);
              && freeHead == (if |rest| > 0 then rest[0] else NIL)
              && forall j {:trigger nextFree[rest[j]]} :: 0 <= j < |rest| ==>
                   nextFree[rest[j]] == (if j + 1 < |rest| then rest[j + 1] else NIL)
    {
      if prev == NIL {
        freeHead := next;
      } else {
        nextFree[prev] := next;
      }
      nextFree[idx] := NIL;
    }

    /** The backward half: what it points at points in front of it. */
    method SkipBackward(idx: nat, next: nat, prev: nat, ghost k: nat)
      requires 0 < capacity < NIL && prevFree.Length == capacity && Distinct(free)
      requires (forall j :: 0 <= j < |free| ==> free[j] < capacity) && k < |free| && free[k] == idx
      requires forall j {:trigger prevFree[free[j]]} :: 0 <= j < |free| ==>
                 prevFree[free[j]] == (if j > 0 then free[j - 1] else NIL)
      requires next == (if k + 1 < |free| then free[k + 1] else NIL) && prev == (if k > 0 then free[k - 1] else NIL)
      modifies prevFree
      ensures var rest := Without(free, k);
              forall j {:trigger prevFree[rest[j]]} :: 0 <= j < |rest| ==>
                prevFree[rest[j]] == (if j > 0 then rest[j - 1] else NIL)
    {
      if next != NIL {
        prevFree[next] := prev;
      }
      prevFree[idx] := NIL;
    }

    /** Unlinks the `k`-th free slot in place; its neighbours point at each other. */
    method Unlink(idx: nat, ghost k: nat)
      requires ListOk() && k < |free| && free[k] == idx
      modifies this`freeHead, this`free, nextFree, prevFree
      ensures ListOk() && free == Without(old(free), k)
    {
      assert nextFree[free[k]] == (if k + 1 < |free| then free[k + 1] else NIL);
      assert prevFree[free[k]] == (if k > 0 then free[k - 1] else NIL);
      var next, prev := nextFree[idx], prevFree[idx];
      SkipForward(idx, next, prev, k);
      SkipBackward(idx, next, prev, k);
      free := Without(free, k);
    }

    /** Pushes slot `idx` at the head of the list. */
    method Push(idx: nat)
      requires ListOk() && idx < capacity && idx !in free
      modifies this`freeHead, this`free, nextFree, prevFree
      ensures ListOk() && free == [idx] + old(free)
    {
      nextFree[idx] := freeHead;
      prevFree[idx] := NIL;
      if freeHead != NIL {
        prevFree[freeHead] := idx;
      }
      freeHead := idx;
      free := [idx] + free;
      assert forall j :: 1 <= j < |free| ==> free[j] == old(free)[j - 1];
    }

    /** The links around a free slot agree with each other, whatever its place. */
    lemma LinksConsistent(idx: nat, k: nat)
      requires Valid() && k < |free| && free[k] == idx
      ensures var next, prev := nextFree[idx], prevFree[idx];
              && (prev == NIL ==> freeHead == idx)
              && (prev != NIL ==> prev < capacity && nextFree[prev] == idx && !used[prev])
              && (next != NIL ==> next < capacity && prevFree[next] == idx && !used[next])
    {
      assert nextFree[free[k]] == (if k + 1 < |free| then free[k + 1] else NIL);
      assert prevFree[free[k]] == (if k > 0 then free[k - 1] else NIL);
      if k > 0 {
        assert nextFree[free[k - 1]] == free[k];
      }
      if k + 1 < |free| {
        assert prevFree[free[k + 1]] == free[k];
      }
    }

    /** The guards of `materialize_at` on the links of `idx`. */
    predicate LinksBroken(idx: nat)
      reads this, used, nextFree, prevFree
      requires used.Length == nextFree.Length == prevFree.Length == capacity && idx < capacity
    {
      var next, prev := nextFree[idx], prevFree[idx];
      || (if prev == NIL then freeHead != idx
          else prev >= capacity || nextFree[prev] != idx || used[prev])
      || (next != NIL && (next >= capacity || prevFree[next] != idx || used[next]))
    }

    method Occupy(idx: nat, ghost k: nat)
      requires Valid() && k < |free| && free[k] == idx
      modifies this`freeHead, this`numUsed, this`materialized, this`free, used, nextFree, prevFree
      ensures Valid() && numUsed == old(numUsed) + 1
      ensures used[..] == old(used[..])[idx := true] && free == Without(old(free), k)
    {
      Unlink(idx, k);
      SumUpdate(used[..], idx, true, UsedTerm());
      used[idx] := true;
      assert used[..] == old(used[..])[idx := true];
      materialized := materialized + 1;
      numUsed := numUsed + 1;
      InOthers(old(free), k);
    }

    /** Takes slot `idx`, wherever it is in the list, out of the free list and marks
        it used.  The checks of its links never fail. */
    method Materialize(idx: nat) returns (r: Result<()>)
      requires Valid()
      modifies this`freeHead, this`numUsed, this`materialized, this`free, used, nextFree, prevFree
      ensures Valid()
      ensures r.Ok? <==>
                && idx < maxAccounts && old(numUsed) < maxAccounts
                && old(numUsed) < MAX_MATERIALIZED_ACCOUNTS && !old(used[..])[idx]
      ensures r == Err(CorruptState) ==> idx < capacity && old(used[..])[idx]
      ensures r.Err? ==> r.error in {AccountNotFound, Overflow, CorruptState}
      ensures r.Ok? ==> used[..] == old(used[..])[idx := true] && numUsed == old(numUsed) + 1
      ensures r.Ok? ==> exists k :: 0 <= k < |old(free)| && old(free)[k] == idx && free == Without(old(free), k)
      ensures r.Err? ==> used[..] == old(used[..]) && free == old(free)
    {
      if idx >= maxAccounts {
        return Err(AccountNotFound);
      }
      if numUsed >= maxAccounts {
        return Err(Overflow);
      }
      if materialized + 1 > MAX_MATERIALIZED_ACCOUNTS {
        return Err(Overflow);
      }
      if used[idx] {
        return Err(CorruptState);
      }
      ghost var k :| 0 <= k < |free| && free[k] == idx;
      LinksConsistent(idx, k);
      if LinksBroken(idx) {
        assert false;
      }
      Occupy(idx, k);
      r := Ok(());
    }

    /** Returns a slot in use to the head of the list. */
    method Free(idx: nat) returns (r: Result<()>)
      requires Valid()
      modifies this`freeHead, this`numUsed, this`materialized, this`free, used, nextFree, prevFree
      ensures Valid()
      ensures r.Ok? <==> idx < capacity && old(used[..])[idx]
      ensures r.Err? ==> r.error == (if idx < capacity then CorruptState else AccountNotFound)
      ensures r.Ok? ==> used[..] == old(used[..])[idx := false] && free == [idx] + old(free)
      ensures r.Ok? ==> old(numUsed) > 0 && numUsed == old(numUsed) - 1
      ensures r.Err? ==> used[..] == old(used[..]) && free == old(free)
    {
      if idx >= capacity {
        return Err(AccountNotFound);
      }
      if !used[idx] {
        return Err(CorruptState);
      }
      Push(idx);
      SumUpdate(used[..], idx, false, UsedTerm());
      SumAtLeast(used[..], idx, UsedTerm());
      used[idx] := false;
      assert used[..] == old(used[..])[idx := false];
      if numUsed == 0 || materialized == 0 {
        assert false;
      }
      numUsed := numUsed - 1;
      materialized := materialized - 1;
      r := Ok(());
    }
  }

  lemma InOthers(s: seq<nat>, k: nat)
    requires k < |s|
    ensures forall x :: x in s && x != s[k] ==> x in Without(s, k)
  {
    forall x | x in s && x != s[k]
      ensures x in Without(s, k)
    {
      var j :| 0 <= j < |s| && s[j] == x;
      assert Without(s, k)[if j < k then j else j - 1] == x;
    }
  }
}
