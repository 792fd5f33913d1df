// The two numbers of a side that could run out, and what one instruction can do to
// them: the dust bound, which only grows until a reset, and K, which must leave room
// for the next mark.
module Limits {
  import opened Arith
  import opened Market
  import opened Sums
  import opened Book
  import opened Adl
  import opened Resets
  import opened LazyIndex
  import opened Accrual
  import opened Resolution

  /** What one liquidation can add to a dust bound. */
  const MAX_CLOSE_DUST: nat := MAX_OI_SIDE_Q + 2 * NIL + 1

  /** What `n` visits of the crank can add: each account may be liquidated. */
  function VisitDust(n: nat): nat {
    n * (MAX_CLOSE_DUST + 1)
  }

  /** What one instruction can add. */
  const MAX_DUST_PER_INSTRUCTION: nat := MAX_TOUCHED_PER_INSTRUCTION * (MAX_CLOSE_DUST + 1)

  /** Epochs that one instruction can start on a side: a trade clears the sides twice. */
  const MAX_EPOCHS_PER_INSTRUCTION: nat := 2

  /** Neither dust bound has grown by more than `n`. */
  predicate DustWithin(b: Sides, b': Sides, n: nat) {
    b'.long.dust <= b.long.dust + n && b'.short.dust <= b.short.dust + n
  }

  /** Neither side has started more than `m` epochs. */
  predicate EpochsWithin(b: Sides, b': Sides, m: nat) {
    b'.long.epoch <= b.long.epoch + m && b'.short.epoch <= b.short.epoch + m
  }

  /** Whatever could be marked from `price` still can. */
  ghost predicate HeadroomStays(b: Sides, b': Sides, price: nat) {
    && (Headroom(Long, b.long, price) ==> Headroom(Long, b'.long, price))
    && (Headroom(Short, b.short, price) ==> Headroom(Short, b'.short, price))
  }

  /** A side that is marked when the price moves, or whose K is still where a reset put
      it. */
  predicate Anchored(s: SideState) {
    s.oi != 0 || s.k == 0
  }

  ghost predicate Secured(side: Side, s: SideState, last: nat) {
    Anchored(s) && Headroom(side, s, last)
  }

  /** Headroom at the old price has become headroom at the new one. */
  ghost predicate HeadroomKept(b: Sides, last: nat, b': Sides, price: nat) {
    && (Secured(Long, b.long, last) ==> Headroom(Long, b'.long, price))
    && (Secured(Short, b.short, last) ==> Headroom(Short, b'.short, price))
  }

  /** What a step after the mark does: up to `n` units of dust, no epoch, and no room
      lost. */
  ghost predicate Steady(b: Sides, b': Sides, price: nat, n: nat) {
    DustWithin(b, b', n) && EpochsWithin(b, b', 0) && HeadroomStays(b, b', price)
  }

  /** What the end of an instruction does: at most one epoch on each side. */
  ghost predicate Closes(b: Sides, b': Sides, price: nat) {
    DustWithin(b, b', 0) && EpochsWithin(b, b', 1) && HeadroomStays(b, b', price)
  }

  /** What the mark and the steps after it do. */
  ghost predicate KeptWithin(b: Sides, last: nat, b': Sides, price: nat, n: nat, m: nat) {
    DustWithin(b, b', n) && EpochsWithin(b, b', m) && HeadroomKept(b, last, b', price)
  }

  /** K, A and the epochs have not moved. */
  predicate SameIndices(b: Sides, b': Sides) {
    && b'.long.k == b.long.k && b'.long.a == b.long.a && b'.long.epoch == b.long.epoch
    && b'.short.k == b.short.k && b'.short.a == b.short.a && b'.short.epoch == b.short.epoch
  }

  // ---- the steps of an instruction ----

  lemma SameHeadroom(side: Side, s: SideState, s': SideState, last: nat)
    requires s'.k == s.k && s'.a == s.a
    ensures Headroom(side, s, last) ==> Headroom(side, s', last)
  {
    if Headroom(side, s, last) {
      forall q: nat | 1 <= q <= MAX_ORACLE_PRICE
        ensures Abs(KAt(side, s', last, q)) <= I128_MAX
      {
        assert KAt(side, s', last, q) == KAt(side, s, last, q);
      }
    }
  }

  lemma SameIndicesStay(b: Sides, b': Sides, price: nat)
    requires SameIndices(b, b')
    ensures HeadroomStays(b, b', price)
    ensures forall n :: DustWithin(b, b', n) ==> Steady(b, b', price, n)
  {
    hide Headroom;
    SameHeadroom(Long, b.long, b'.long, price);
    SameHeadroom(Short, b.short, b'.short, price);
  }

  /** Settling an account moves no index and adds at most one unit of dust. */
  lemma SettledWithin(p: Position, b: Sides)
    ensures SameIndices(b, SettledSides(p, b)) && DustWithin(b, SettledSides(p, b), 1)
    ensures forall price :: Steady(b, SettledSides(p, b), price, 1)
  {
    hide SettledRow, Headroom;
    forall price
      ensures Steady(b, SettledSides(p, b), price, 1)
    {
      SameIndicesStay(b, SettledSides(p, b), price);
    }
  }

  /** So does attaching one. */
  lemma AttachedWithin(p: Position, q: int, b: Sides)
    ensures SameIndices(b, AttachedCounts(p, q, b)) && DustWithin(b, AttachedCounts(p, q, b), 1)
  {
    hide OrphansDust;
  }

  /** The mark moves headroom from the old price to the new one; a side that is not
      marked keeps a K of zero. */
  lemma AccruedSideKeeps(side: Side, s: SideState, last: nat, price: nat, num: int)
    requires 1 <= last <= MAX_ORACLE_PRICE && 1 <= price <= MAX_ORACLE_PRICE && s.a <= ADL_ONE
    requires Secured(side, s, last)
    ensures IsI128(AccruedSide(side, s, price - last, num).k)
    ensures Headroom(side, AccruedSide(side, s, price - last, num), price)
  {
    hide Headroom;
    var s' := AccruedSide(side, s, price - last, num);
    if s.oi != 0 {
      MarkKeepsHeadroom(side, s, last, price);
      SameHeadroom(side, s.(k := s'.k), s', price);
    } else {
      FreshHeadroom(side, s', price);
    }
  }

  /** Accruing from `last` to `price` fits K on every side that is secured. */
  lemma AccruedKeeps(b: Sides, last: nat, price: nat, num: int)
    requires 1 <= last <= MAX_ORACLE_PRICE && 1 <= price <= MAX_ORACLE_PRICE
    requires b.long.a <= ADL_ONE && b.short.a <= ADL_ONE
    ensures KeptWithin(b, last, Accrued(b, price - last, num), price, 0, 0)
    ensures Secured(Long, b.long, last) ==> IsI128(Accrued(b, price - last, num).long.k)
    ensures Secured(Short, b.short, last) ==> IsI128(Accrued(b, price - last, num).short.k)
  {
    hide Secured, Headroom, MarkedK, FundedF;
    if Secured(Long, b.long, last) {
      AccruedSideKeeps(Long, b.long, last, price, num);
    }
    if Secured(Short, b.short, last) {
      AccruedSideKeeps(Short, b.short, last, price, num);
    }
  }

  lemma MoreAllowed(b: Sides, last: nat, b': Sides, price: nat, n: nat, most: nat)
    requires n <= most
    ensures Steady(b, b', price, n) ==> Steady(b, b', price, most)
    ensures forall m, m' | m <= m' && KeptWithin(b, last, b', price, n, m) :: KeptWithin(b, last, b', price, most, m')
  {
    hide Headroom, Secured;
  }

  /** Steps after the mark, one after the other. */
  lemma SteadyTwice(b: Sides, b1: Sides, b2: Sides, price: nat, m: nat, n: nat, most: nat)
    requires Steady(b, b1, price, m) && Steady(b1, b2, price, n) && m + n <= most
    ensures Steady(b, b2, price, most)
  {
    hide Headroom;
  }

  /** The mark, and the steps after it. */
  lemma SteadyAfter(b: Sides, last: nat, b1: Sides, b2: Sides, price: nat, m: nat, epochs: nat, n: nat, most: nat)
    requires KeptWithin(b, last, b1, price, m, epochs) && Steady(b1, b2, price, n) && m + n <= most
    ensures KeptWithin(b, last, b2, price, most, epochs)
  {
    hide Headroom, Secured;
  }

  /** And the end of the instruction. */
  lemma ClosesAfter(b: Sides, last: nat, b1: Sides, b2: Sides, price: nat, n: nat, epochs: nat, most: nat,
      mostEpochs: nat)
    requires KeptWithin(b, last, b1, price, n, epochs) && Closes(b1, b2, price)
    requires n <= most && epochs + 1 <= mostEpochs
    ensures KeptWithin(b, last, b2, price, most, mostEpochs)
  {
    hide Headroom, Secured;
  }

  /** Absorbing a close can only lower A, and writes into K only what leaves room. */
  lemma AbsorbedStays(b: Sides, liq: Side, q: nat, d: nat, price: nat)
    requires b.Get(liq).oi + q == b.Get(liq.Opposite()).oi
    requires b.long.a > 0 && b.short.a > 0 && 1 <= price <= MAX_ORACLE_PRICE
    ensures HeadroomStays(b, Absorbed(b, liq, q, d).sides, price)
  {
    hide Headroom, ShrunkA, ShrinkDust, DeficitK, WithDeficit;
    var opp, b' := liq.Opposite(), Absorbed(b, liq, q, d).sides;
    var s := b.Get(opp);
    AbsorbedOi(b, liq, q, d);
    SameHeadroom(liq, b.Get(liq), b'.Get(liq), price);
    if !Headroom(opp, s, price) {
    } else if s.oi == 0 || s.stored == 0 {
      SameHeadroom(opp, s, b'.Get(opp), price);
    } else {
      var s1 := WithDeficit(s, d);
      DeficitOnlyMovesK(s, d);
      DeficitKeepsHeadroom(opp, s, d, price);
      if 0 < s.oi - q && ShrunkA(s1.a, s1.oi, s.oi - q) > 0 {
        ShrunkABounds(s1.a, s1.oi, s.oi - q);
        ShrinkKeepsHeadroom(opp, s1, b'.Get(opp), price);
      } else {
        SameHeadroom(opp, s1, b'.Get(opp), price);
      }
    }
  }

  lemma ShrinkDustWithin(oi: nat, n: nat, a: nat)
    requires a > 0
    ensures ShrinkDust(oi, n, a) <= oi + 2 * n
  {
    var c := CeilDiv(oi + n, a);
    CeilDivBounds(oi + n, a);
    if c > oi + n {
      MulMono(oi + n + 1, c, a);
      MulMono(1, a, oi + n);
      assert (oi + n + 1) * a == (oi + n) * a + a;
    }
  }

  lemma AbsorbedWithin(b: Sides, liq: Side, q: nat, d: nat)
    requires b.Get(liq).oi + q == b.Get(liq.Opposite()).oi <= MAX_OI_SIDE_Q
    requires b.long.a > 0 && b.short.a > 0 && b.Get(liq.Opposite()).stored <= NIL
    ensures DustWithin(b, Absorbed(b, liq, q, d).sides, MAX_OI_SIDE_Q + 2 * NIL)
    ensures EpochsWithin(b, Absorbed(b, liq, q, d).sides, 0)
  {
    hide ShrunkA, ShrinkDust, DeficitK, WithDeficit;
    var s := b.Get(liq.Opposite());
    AbsorbedOi(b, liq, q, d);
    if s.oi > 0 {
      DeficitOnlyMovesK(s, d);
      ShrinkDustWithin(s.oi, s.stored, s.a);
    }
  }

  lemma StoredWithin(ps: seq<Position>, side: Side)
    ensures 0 <= Count(ps, side) <= |ps|
  {
    if ps != [] {
      StoredWithin(ps[..|ps| - 1], side);
    }
  }

  /** A liquidation: the close of part of a row, absorbed by the other side. */
  lemma CloseWithin(ps: seq<Position>, b: Sides, i: nat, newEff: int, q: nat, d: nat, price: nat)
    requires BookInv(ps, b, NO_RESET) && i < |ps| < NIL && 1 <= price <= MAX_ORACLE_PRICE
    requires var e := EffectivePos(ps[i], b);
             e != 0 && 0 < q <= Abs(e) && newEff == (if e > 0 then e - q else e + q)
    ensures var b' := CloseAbsorbed(ps[i], b, newEff, q, d).sides;
            Steady(b, b', price, MAX_CLOSE_DUST)
  {
    hide BookInv, RowsInv, EffectivePos, AttachedCounts, Absorbed, Headroom, HeadroomStays;
    CloseKeepsRows(ps, b, i, newEff, q);
    AttachedWithin(ps[i], newEff, b);
    var b1, side := AttachedCounts(ps[i], newEff, b), SideOf(ps[i]);
    var s, opp := b1.Get(side), b1.Get(side.Opposite());
    var b2 := b1.With(side, s.(oi := s.oi - q));
    assert b2.long.a == b1.long.a && b2.short.a == b1.short.a;
    StoredOnSides(ps, b);
    AttachedCountsWithin(ps[i], newEff, b);
    SameIndicesStay(b, b2, price);
    AbsorbedStays(b2, side, q, d, price);
    AbsorbedWithin(b2, side, q, d);
    SteadyTwice(b, b2, CloseAbsorbed(ps[i], b, newEff, q, d).sides, price, 1, MAX_OI_SIDE_Q + 2 * NIL, MAX_CLOSE_DUST);
  }

  lemma StoredOnSides(ps: seq<Position>, b: Sides)
    requires BookInv(ps, b, NO_RESET)
    ensures b.long.stored <= |ps| && b.short.stored <= |ps|
  {
    hide Covered, Explained, PosOk, CountTerm;
    StoredWithin(ps, Long);
    StoredWithin(ps, Short);
  }

  lemma AttachedCountsWithin(p: Position, q: int, b: Sides)
    ensures AttachedCounts(p, q, b).long.stored <= b.long.stored + 1
    ensures AttachedCounts(p, q, b).short.stored <= b.short.stored + 1
  {
    hide OrphansDust;
  }

  /** The end of an instruction only clears dust, and restarts a side with full room. */
  lemma EndedWithin(b: Sides, pending: Flags, price: nat)
    requires 1 <= price <= MAX_ORACLE_PRICE
    ensures Ended(b, pending).Ok? ==> Closes(b, Ended(b, pending).value, price)
    ensures Schedule(b, pending).Ok? ==> EpochsExhausted(Schedule(b, pending).value.sides) == EpochsExhausted(b)
  {
    hide Headroom;
    var r := Schedule(b, pending);
    if r.Ok? {
      StartedWithin(Long, r.value.sides.long, r.value.pending.long, price);
      StartedWithin(Short, r.value.sides.short, r.value.pending.short, price);
      SameIndicesStay(b, r.value.sides, price);
    }
  }

  lemma StartedWithin(side: Side, s: SideState, flag: bool, price: nat)
    requires 1 <= price <= MAX_ORACLE_PRICE
    ensures BeginIfFlagged(s, flag).Ok? ==>
              var s' := Reopened(BeginIfFlagged(s, flag).value);
              && s'.dust <= s.dust && s'.epoch <= s.epoch + 1
              && (Headroom(side, s, price) ==> Headroom(side, s', price))
  {
    hide Headroom;
    if BeginIfFlagged(s, flag).Ok? {
      var s' := Reopened(BeginIfFlagged(s, flag).value);
      if s'.k == s.k && s'.a == s.a {
        SameHeadroom(side, s, s', price);
      } else {
        FreshHeadroom(side, s', price);
      }
    }
  }

  /** So does resolution, on both sides at once. */
  lemma TerminalWithin(b: Sides, price: nat)
    requires 1 <= price <= MAX_ORACLE_PRICE
    ensures TerminalEpochs(b).Ok? ==> Closes(b, TerminalEpochs(b).value, price)
  {
    hide Headroom;
    var b0 := WithoutOi(b);
    StartedWithin(Long, b0.long, true, price);
    StartedWithin(Short, b0.short, true, price);
    SameIndicesStay(b, b0, price);
  }

  /** Without a mark, what stays is kept. */
  lemma SteadyKept(b: Sides, b': Sides, price: nat, n: nat, most: nat, epochs: nat)
    requires Steady(b, b', price, n) && n <= most
    ensures KeptWithin(b, price, b', price, most, epochs)
  {
    hide Headroom;
  }

  lemma UnmovedSteady(b: Sides, price: nat, n: nat)
    ensures Steady(b, b, price, n)
  {
    hide Headroom;
  }

  lemma UnmovedCloses(b: Sides, price: nat)
    ensures Closes(b, b, price)
  {
    hide Headroom;
  }

  lemma UnmovedKept(b: Sides, price: nat, n: nat, epochs: nat)
    ensures KeptWithin(b, price, b, price, n, epochs)
  {
    hide Headroom;
  }

  /** Reconciling and reopening after resolution. */
  lemma ReconciledWithin(p: Position, b: Sides, price: nat, n: nat, epochs: nat)
    requires n >= 1
    ensures KeptWithin(b, price, SettledSides(p, b), price, n, epochs)
    ensures KeptWithin(b, price, ReopenedSides(SettledSides(p, b)), price, n, epochs)
  {
    hide SettledSides, Headroom;
    var b1 := SettledSides(p, b);
    SettledWithin(p, b);
    SteadyKept(b, b1, price, 1, n, epochs);
    SameIndicesStay(b, ReopenedSides(b1), price);
    SteadyKept(b, ReopenedSides(b1), price, 1, n, epochs);
  }

  // ---- why an instruction can run out ----

  /** Some side has no further epoch to start. */
  predicate EpochsExhausted(b: Sides) {
    b.long.epoch >= U64_MAX || b.short.epoch >= U64_MAX
  }

  lemma ExhaustedBefore(b: Sides, last: nat, b': Sides, price: nat, n: nat)
    requires KeptWithin(b, last, b', price, n, 0) && EpochsExhausted(b')
    ensures EpochsExhausted(b)
  {
    hide HeadroomKept;
  }

  /** The dust bounds are within one instruction of what can no longer be added. */
  predicate NearDustLimit(b: Sides) {
    b.long.dust + b.short.dust + 2 * MAX_DUST_PER_INSTRUCTION > U128_MAX
  }

  lemma OverflowIsNear(b: Sides, last: nat, b': Sides, price: nat)
    requires KeptWithin(b, last, b', price, MAX_DUST_PER_INSTRUCTION, MAX_EPOCHS_PER_INSTRUCTION)
               && DustSumOverflows(b')
    ensures NearDustLimit(b)
  {
    hide HeadroomKept;
  }

  // ---- K runs out only on a side that was empty while the price moved ----

  /** With room in K on every side that is marked, funding alone can stop an accrual. */
  lemma OnlyFundingStops(b: Sides, last: nat, price: nat, num: int)
    requires 1 <= price <= MAX_ORACLE_PRICE && IndicesFit(b)
    requires b.long.oi != 0 ==> Headroom(Long, b.long, last)
    requires b.short.oi != 0 ==> Headroom(Short, b.short, last)
    ensures IndicesFit(Accrued(b, price - last, num)) <==>
              IsI128(FundedF(Long, b.long, num)) && IsI128(FundedF(Short, b.short, num))
  {
    hide Headroom, FundedF;
    if b.long.oi != 0 {
      MarkKeepsHeadroom(Long, b.long, last, price);
    }
    if b.short.oi != 0 {
      MarkKeepsHeadroom(Short, b.short, last, price);
    }
  }

  /** A book that nobody is on, and that has never been shrunk. */
  predicate Idle(b: Sides) {
    && b.long.mode.Normal? && b.short.mode.Normal?
    && b.long.oi == b.long.stored == b.long.dust == 0 && b.short.oi == b.short.stored == b.short.dust == 0
    && b.long.a == b.short.a == ADL_ONE
  }

  /** Two flat accounts open `size` against each other. */
  function Opened(b: Sides, size: nat): Sides {
    TradedSides(FLAT, FLAT, size, 0 - size, b, b.long.oi + size, b.short.oi + size)
  }

  /** The same two accounts, touched at the indices of `b`, trade back to flat. */
  function ClosedAgain(b: Sides, size: nat): Sides {
    TradedSides(AttachedRow(size, b), AttachedRow(0 - size, b), 0, 0, b,
                Pos(b.long.oi - size), Pos(b.short.oi - size))
  }

  /** One cycle: open at the lowest price, mark up to the price cap, close, and let the
      price fall back while nobody is there to be marked. */
  function Cycle(b: Sides, size: nat): Sides {
    Accrued(ClosedAgain(Accrued(Opened(b, size), MAX_ORACLE_PRICE - 1, 0), size), 1 - MAX_ORACLE_PRICE, 0)
  }

  function AfterCycles(b: Sides, size: nat, n: nat): Sides {
    if n == 0 then b else Cycle(AfterCycles(b, size, n - 1), size)
  }

  /** K moved by one mark up, on both sides of an idle book. */
  function Raised(b: Sides, dk: int): Sides {
    Sides(b.long.(k := b.long.k + dk), b.short.(k := b.short.k - dk))
  }

  /** No reset interrupts a cycle, and it leaves nothing behind but K. */
  lemma CycleRaisesK(b: Sides, size: nat)
    requires Idle(b) && size > 0
    ensures var closed := ClosedAgain(Accrued(Opened(b, size), MAX_ORACLE_PRICE - 1, 0), size);
            Ended(closed, NO_RESET) == Ok(closed)
    ensures Cycle(b, size) == Raised(b, ADL_ONE * (MAX_ORACLE_PRICE - 1)) && Idle(Cycle(b, size))
  {
    assert (size * ADL_ONE) % ADL_ONE == 0;
  }

  lemma {:induction false} CyclesRaiseK(b: Sides, size: nat, n: nat)
    requires Idle(b) && size > 0
    ensures AfterCycles(b, size, n) == Raised(b, n * (ADL_ONE * (MAX_ORACLE_PRICE - 1)))
    ensures Idle(AfterCycles(b, size, n))
  {
    hide Cycle;
    var step := ADL_ONE * (MAX_ORACLE_PRICE - 1);
    if n > 0 {
      CyclesRaiseK(b, size, n - 1);
      CycleRaisesK(AfterCycles(b, size, n - 1), size);
      assert (n - 1) * step + step == n * step;
    }
  }

  /** Room in K is not kept over stretches without open interest.  On a new book every
      one of these cycles fits, and no reset comes between; after the last of them the
      side has open interest again and cannot be marked to the price cap. */
  lemma HeadroomLostByEmptyMoves(b: Sides, size: nat, n: nat)
    requires Idle(b) && b.long.k == b.short.k == 0 && size > 0
    requires n <= 170_141_183_460
    ensures Headroom(Long, Opened(b, size).long, 1)
    ensures var c := AfterCycles(b, size, n);
            Idle(c) && IsI128(c.long.k) && IsI128(c.short.k)
    ensures n == 170_141_183_460 ==>
              var c := Opened(AfterCycles(b, size, n), size);
              c.long.oi == size && !Headroom(Long, c.long, 1) && !IndicesFit(Accrued(c, MAX_ORACLE_PRICE - 1, 0))
  {
    hide AfterCycles;
    FreshHeadroom(Long, Opened(b, size).long, 1);
    CyclesRaiseK(b, size, n);
    var step := ADL_ONE * (MAX_ORACLE_PRICE - 1);
    MulMono(n, 170_141_183_460, step);
    if n == 170_141_183_460 {
      var c := Opened(AfterCycles(b, size, n), size);
      assert KAt(Long, c.long, 1, MAX_ORACLE_PRICE) == 170_141_183_461 * step;
    }
  }
}
