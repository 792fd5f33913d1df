// The end-of-instruction resets: which sides must start a new epoch, starting it,
// and reopening a side once its last stale position has been settled.
module Resets {
  import opened Arith
  import opened Market
  import opened Sums
  import opened Book

  /** Both sides and the reset flags, as the scheduler leaves them. */
  datatype Scheduled = Scheduled(sides: Sides, pending: Flags)

  /** The dust bounds of two empty sides cannot even be added. */
  predicate DustSumOverflows(b: Sides) {
    b.long.stored == 0 && b.short.stored == 0 && b.long.dust + b.short.dust > U128_MAX
  }

  function WithoutOi(b: Sides): Sides {
    Sides(b.long.(oi := 0), b.short.(oi := 0))
  }

  /** One of the three dust clearances: `bound` is the dust that may explain the
      remaining open interest. */
  function ClearDust(b: Sides, pending: Flags, bound: nat, residual: bool): Result<Scheduled> {
    if !residual then Ok(Scheduled(b, pending))
    else if b.long.oi != b.short.oi then Err(CorruptState)
    else if b.long.oi <= bound && b.short.oi <= bound then Ok(Scheduled(WithoutOi(b), Flags(true, true)))
    else Err(CorruptState)
  }

  function ClearEmptySides(b: Sides, pending: Flags): Result<Scheduled> {
    var anyOi := b.long.oi != 0 || b.short.oi != 0;
    if b.long.stored == 0 && b.short.stored == 0 then
      if b.long.dust + b.short.dust > U128_MAX then Err(CorruptState)
      else ClearDust(b, pending, b.long.dust + b.short.dust, anyOi || b.long.dust != 0 || b.short.dust != 0)
    else if b.long.stored == 0 then ClearDust(b, pending, b.long.dust, anyOi || b.long.dust != 0)
    else if b.short.stored == 0 then ClearDust(b, pending, b.short.dust, anyOi || b.short.dust != 0)
    else Ok(Scheduled(b, pending))
  }

  function Schedule(b: Sides, pending: Flags): Result<Scheduled> {
    var r :- ClearEmptySides(b, pending);
    var drained := (s: SideState) => s.mode.DrainOnly? && s.oi == 0;
    Ok(r.(pending := Flags(r.pending.long || drained(r.sides.long), r.pending.short || drained(r.sides.short))))
  }

  /** begin_full_drain_reset. */
  function Begin(s: SideState): Result<SideState> {
    if s.oi != 0 then Err(CorruptState)
    else if s.epoch + 1 > U64_MAX then Err(Overflow)
    else Ok(Restarted(s))
  }

  function BeginIfFlagged(s: SideState, flag: bool): Result<SideState> {
    if flag && !s.mode.ResetPending? then Begin(s) else Ok(s)
  }

  /** maybe_finalize_ready_reset_sides, one side of it. */
  function Reopened(s: SideState): SideState {
    if s.mode.ResetPending? && s.oi == 0 && s.stale == 0 && s.stored == 0 then s.(mode := Normal) else s
  }

  function ReopenedSides(b: Sides): Sides {
    Sides(Reopened(b.long), Reopened(b.short))
  }

  function Finalize(b: Sides, pending: Flags): Result<Sides> {
    var long :- BeginIfFlagged(b.long, pending.long);
    var short :- BeginIfFlagged(b.short, pending.short);
    Ok(ReopenedSides(Sides(long, short)))
  }

  // ---- scheduling never finds a corrupt book ----

  lemma EmptySideIsDust(ps: seq<Position>, side: Side, s: SideState, pending: bool)
    requires SideInv(ps, side, s, pending) && s.stored == 0
    ensures s.oi <= s.dust
  {
    hide Scaled, FloorTerm, WeightTerm, CountTerm;
    EmptySide(ps, side, s);
  }

  lemma FlagKeepsSide(ps: seq<Position>, side: Side, s: SideState, pending: bool)
    requires SideInv(ps, side, s, pending) && s.oi == 0
    ensures SideInv(ps, side, s, true)
  {
    hide Scaled, FloorTerm, WeightTerm, CountTerm;
  }

  /** On every book the engine can reach, scheduling succeeds unless the two dust
      bounds of an empty market overflow when added, and it keeps the invariant. */
  lemma ScheduleSucceeds(ps: seq<Position>, b: Sides, pending: Flags)
    requires BookInv(ps, b, pending)
    ensures Schedule(b, pending).Ok? <==> !DustSumOverflows(b)
    ensures Schedule(b, pending).Err? ==> Schedule(b, pending).error == CorruptState
    ensures Schedule(b, pending).Ok? ==>
              var r := Schedule(b, pending).value;
              && BookInv(ps, r.sides, r.pending)
              && (pending.long ==> r.pending.long) && (pending.short ==> r.pending.short)
              && (r.sides == b || r.sides == WithoutOi(b))
  {
    hide Scaled, FloorTerm, WeightTerm, CountTerm, Covered, Explained;
    ClearKeepsSide(ps, Long, b.long, pending.long);
    ClearKeepsSide(ps, Short, b.short, pending.short);
    if b.long.stored == 0 {
      EmptySideIsDust(ps, Long, b.long, pending.long);
    }
    if b.short.stored == 0 {
      EmptySideIsDust(ps, Short, b.short, pending.short);
    }
    if b.long.oi == 0 {
      FlagKeepsSide(ps, Long, b.long, pending.long);
    }
    if b.short.oi == 0 {
      FlagKeepsSide(ps, Short, b.short, pending.short);
    }
  }

  // ---- what every instruction leaves behind ----

  /** No drained side is left without its reset, neither open interest nor dust outlives
      the last position of a side. */
  predicate Tidy(b: Sides) {
    && !(b.long.mode.DrainOnly? && b.long.oi == 0)
    && !(b.short.mode.DrainOnly? && b.short.oi == 0)
    && (b.long.stored == 0 || b.short.stored == 0 ==> b.long.oi == 0 && b.short.oi == 0)
    && (b.long.stored == 0 ==> b.long.dust == 0)
    && (b.short.stored == 0 ==> b.short.dust == 0)
  }

  /** The sides after both end-of-instruction steps. */
  function Ended(b: Sides, pending: Flags): Result<Sides> {
    var r :- Schedule(b, pending);
    Finalize(r.sides, r.pending)
  }

  lemma StartedSide(s: SideState, flag: bool)
    ensures var r := BeginIfFlagged(s, flag);
            r.Ok? ==>
              && r.value.stored == s.stored && r.value.oi == s.oi
              && (s.mode.DrainOnly? && flag ==> Reopened(r.value).mode != DrainOnly)
              && (!s.mode.DrainOnly? ==> Reopened(r.value).mode != DrainOnly)
              && Reopened(r.value).stored == s.stored && Reopened(r.value).oi == s.oi
              && Reopened(r.value).dust == (if flag && !s.mode.ResetPending? then 0 else s.dust)
  {
  }

  /** Scheduling and finalizing leave the market tidy, whatever came before. */
  lemma EndsTidy(b: Sides, pending: Flags)
    requires b.long.mode.ResetPending? ==> b.long.dust == 0
    requires b.short.mode.ResetPending? ==> b.short.dust == 0
    ensures Ended(b, pending).Ok? ==> Tidy(Ended(b, pending).value)
  {
    hide BeginIfFlagged, Reopened;
    var r := Schedule(b, pending);
    if r.Ok? {
      StartedSide(r.value.sides.long, r.value.pending.long);
      StartedSide(r.value.sides.short, r.value.pending.short);
    }
  }

  // ---- starting an epoch and reopening ----

  lemma BeginKeepsRows(ps: seq<Position>, b: Sides, side: Side, pending: Flags)
    requires RowsInv(ps, b, pending)
    requires pending.Get(side)
    ensures BeginIfFlagged(b.Get(side), true).Err? ==>
              BeginIfFlagged(b.Get(side), true).error == Overflow && b.Get(side).epoch == U64_MAX
    ensures BeginIfFlagged(b.Get(side), true).Ok? ==>
              var s := BeginIfFlagged(b.Get(side), true).value;
              && s.oi == 0
              && RowsInv(ps, b.With(side, s), if side.Long? then pending.(long := false) else pending.(short := false))
  {
    hide Scaled, FloorTerm, WeightTerm, CountTerm, Covered, Explained;
    var s := b.Get(side);
    if !s.mode.ResetPending? && s.epoch + 1 <= U64_MAX {
      assert forall p | p in ps && OnSide(p, side) :: PosOk(p, b);
      RestartKeepsSide(ps, side, s, true);
      var s' := Restarted(s);
      forall i | 0 <= i < |ps|
        ensures PosOk(ps[i], b.With(side, s'))
      {
        assert ps[i] in ps;
      }
    }
  }

  lemma ReopenKeepsRows(ps: seq<Position>, b: Sides)
    requires RowsInv(ps, b, NO_RESET)
    ensures RowsInv(ps, ReopenedSides(b), NO_RESET)
  {
    hide Scaled, FloorTerm, WeightTerm, CountTerm, Covered, Explained;
    if Reopened(b.long) != b.long {
      ReopenKeepsSide(ps, Long, b.long, false);
      EmptySide(ps, Long, b.long);
    }
    if Reopened(b.short) != b.short {
      ReopenKeepsSide(ps, Short, b.short, false);
      EmptySide(ps, Short, b.short);
    }
    forall i | 0 <= i < |ps|
      ensures PosOk(ps[i], ReopenedSides(b))
    {
      assert ps[i] in ps;
    }
  }

  lemma FlagRunsReset(ps: seq<Position>, b: Sides, side: Side, pending: Flags)
    requires RowsInv(ps, b, pending)
    ensures var r := BeginIfFlagged(b.Get(side), pending.Get(side));
            if r.Err? then r.error == Overflow && b.Get(side).epoch == U64_MAX
            else
              && r.value.oi == b.Get(side).oi
              && (pending.Get(side) ==> r.value.oi == 0)
              && RowsInv(ps, b.With(side, r.value), if side.Long? then pending.(long := false)
                   else pending.(short := false))
  {
    hide Scaled, FloorTerm, WeightTerm, CountTerm, Covered, Explained, PosOk, Restarted;
    if pending.Get(side) {
      BeginKeepsRows(ps, b, side, pending);
    }
  }

  /** Finalizing fails only by exhausting the epoch counter; otherwise every
      scheduled reset has been started, and the full book invariant is back. */
  lemma FinalizeKeepsBook(ps: seq<Position>, b: Sides, pending: Flags)
    requires BookInv(ps, b, pending)
    ensures Finalize(b, pending).Err? ==> Finalize(b, pending).error == Overflow
    ensures Finalize(b, pending).Err? ==> b.long.epoch == U64_MAX || b.short.epoch == U64_MAX
    ensures Finalize(b, pending).Ok? ==> BookInv(ps, Finalize(b, pending).value, NO_RESET)
  {
    hide Scaled, FloorTerm, WeightTerm, CountTerm, SideInv, PosOk, Restarted, BeginIfFlagged;
    FlagRunsReset(ps, b, Long, pending);
    var r := BeginIfFlagged(b.long, pending.long);
    if r.Ok? {
      var b1 := b.With(Long, r.value);
      FlagRunsReset(ps, b1, Short, pending.(long := false));
      var r1 := BeginIfFlagged(b1.short, pending.short);
      if r1.Ok? {
        ReopenKeepsRows(ps, b1.With(Short, r1.value));
      }
    }
  }

  // ---- a side that waits for a reset always reopens ----

  /** The book: every row, and both sides. */
  datatype Table = Table(ps: seq<Position>, b: Sides)

  function Touched(t: Table, i: nat): Table
    requires i < |t.ps|
  {
    Table(t.ps[i := SettledRow(t.ps[i], t.b)], SettledSides(t.ps[i], t.b))
  }

  function TouchedAll(t: Table, order: seq<nat>): Table
    requires forall k :: 0 <= k < |order| ==> order[k] < |t.ps|
    decreases |order|
  {
    if order == [] then t else TouchedAll(Touched(t, order[0]), order[1..])
  }

  /** Touching a stale row takes it off a waiting side, and nothing goes back on. */
  lemma TouchDrains(t: Table, i: nat, side: Side)
    requires BookInv(t.ps, t.b, NO_RESET) && i < |t.ps| && t.b.Get(side).mode.ResetPending?
    ensures var u := Touched(t, i);
            && BookInv(u.ps, u.b, NO_RESET) && u.b.Get(side).mode.ResetPending?
            && !OnSide(u.ps[i], side)
            && u.b.Get(side).stale == t.b.Get(side).stale - (if OnSide(t.ps[i], side) then 1 else 0)
  {
    hide SideInv, EffAbs;
    SettleKeepsBook(t.ps, t.b, i);
    ModesAgree(t.ps, t.b);
  }

  lemma {:induction false} TouchingDrains(t: Table, order: seq<nat>, side: Side)
    requires BookInv(t.ps, t.b, NO_RESET) && t.b.Get(side).mode.ResetPending?
    requires forall k :: 0 <= k < |order| ==> order[k] < |t.ps|
    ensures var u := TouchedAll(t, order);
            && BookInv(u.ps, u.b, NO_RESET) && u.b.Get(side).mode.ResetPending? && |u.ps| == |t.ps|
            && (forall j :: 0 <= j < |t.ps| && (j in order || !OnSide(t.ps[j], side)) ==> !OnSide(u.ps[j], side))
    decreases |order|
  {
    hide BookInv, SettledRow, SettledSides, OnSide;
    if order != [] {
      TouchDrains(t, order[0], side);
      TouchingDrains(Touched(t, order[0]), order[1..], side);
      assert forall j :: j in order ==> j == order[0] || j in order[1..];
    }
  }

  /** Whatever the order, once every account has been touched a side that was waiting
      for its reset is empty and reopens. */
  lemma TouchingAllReopens(t: Table, order: seq<nat>, side: Side)
    requires BookInv(t.ps, t.b, NO_RESET) && t.b.Get(side).mode.ResetPending?
    requires forall k :: 0 <= k < |order| ==> order[k] < |t.ps|
    requires forall j :: 0 <= j < |t.ps| ==> j in order
    ensures var u := TouchedAll(t, order);
            && BookInv(u.ps, u.b, NO_RESET)
            && u.b.Get(side).stale == u.b.Get(side).stored == 0
            && Reopened(u.b.Get(side)).mode.Normal?
  {
    hide Covered, Explained, PosOk, TouchedAll;
    TouchingDrains(t, order, side);
    var u := TouchedAll(t, order);
    assert forall p | p in u.ps :: !OnSide(p, side);
    SumZero(u.ps, CountTerm(side));
    assert SideInv(u.ps, side, u.b.Get(side), false);
  }

  // ---- the one way in which scheduling fails ----

  /** A long and a short that a shrunk multiplier has truncated to nothing, among any
      number of flat accounts. */
  function TruncatedPair(n: nat): seq<Position> {
    [Position(1, ADL_ONE, 0, 0, 0), Position(-1, ADL_ONE, 0, 0, 0)] + seq(n, _ => FLAT)
  }

  /** A side with one such position, and a dust bound one short of its width. */
  const EXHAUSTED_SIDE := SideState(MIN_A_SIDE, 0, 0, 0, 0, 0, 1, Normal, 1, 0, U128_MAX - 1)

  lemma TruncatedSums(n: nat)
    ensures var ps := TruncatedPair(n);
            && |ps| == n + 2 && (forall i :: 2 <= i < |ps| ==> ps[i] == FLAT)
            && Count(ps, Long) == 1 && Count(ps, Short) == 1
            && SumReal(ps, WeightTerm(Long, 0)) == 1.0 / ADL_ONE as real
            && SumReal(ps, WeightTerm(Short, 0)) == 1.0 / ADL_ONE as real
            && Floors(ps, Long, EXHAUSTED_SIDE) >= 0 && Floors(ps, Short, EXHAUSTED_SIDE) >= 0
    decreases n
  {
    var ps := TruncatedPair(n);
    FloorsNonNegative(ps, Long, EXHAUSTED_SIDE);
    FloorsNonNegative(ps, Short, EXHAUSTED_SIDE);
    if n == 0 {
      assert ps == [ps[0], ps[1]];
      SumOfTwo(ps[0], ps[1], CountTerm(Long), WeightTerm(Long, 0));
      SumOfTwo(ps[0], ps[1], CountTerm(Short), WeightTerm(Short, 0));
    } else {
      assert ps[..|ps| - 1] == TruncatedPair(n - 1);
      TruncatedSums(n - 1);
    }
  }

  /** The book can satisfy every invariant, and be tidy, and still not get through the
      next instruction: if touching two accounts empties both sides, dust bounds that are
      as large as they can get cannot be added. */
  lemma DustSumCanOverflow(n: nat)
    ensures var t := Table(TruncatedPair(n), Sides(EXHAUSTED_SIDE, EXHAUSTED_SIDE));
            && BookInv(t.ps, t.b, NO_RESET) && Tidy(t.b)
            && Ended(Touched(Touched(t, 0), 1).b, NO_RESET) == Err(CorruptState)
  {
    var t := Table(TruncatedPair(n), Sides(EXHAUSTED_SIDE, EXHAUSTED_SIDE));
    TruncatedSums(n);
    assert Scaled(1.0 / ADL_ONE as real, MIN_A_SIDE) <= 1.0;
    FloorDivUnique(MIN_A_SIDE, ADL_ONE, 0);
    assert EffAbs(t.ps[0], MIN_A_SIDE) == 0 && EffAbs(t.ps[1], MIN_A_SIDE) == 0;
    assert BookInv(t.ps, t.b, NO_RESET);
  }
}
