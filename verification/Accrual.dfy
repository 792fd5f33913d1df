// Marking and funding a market: every price move and every funding interval is
// booked once per side, and what that does to the room left in K and F.
module Accrual {
  import opened Arith
  import opened Market
  import opened Book
  import opened Adl
  import opened LazyIndex

  /** K after a price move of `dp`; a side with no open interest is not marked. */
  function MarkedK(side: Side, s: SideState, dp: int): int {
    if s.oi != 0 then s.k + Signed(side, s.a * dp) else s.k
  }

  /** F after funding `num` = price * rate * slots; longs pay a positive rate. */
  function FundedF(side: Side, s: SideState, num: int): int {
    s.f - Signed(side, s.a * num)
  }

  /** The indices after one accrual: funding runs only between two live sides. */
  function AccruedSide(side: Side, s: SideState, dp: int, num: int): SideState {
    s.(k := MarkedK(side, s, dp), f := FundedF(side, s, num))
  }

  function FundingNum(b: Sides, fundPx: nat, rate: int, dt: int): int {
    if b.long.oi != 0 && b.short.oi != 0 then fundPx * rate * dt else 0
  }

  function Accrued(b: Sides, dp: int, num: int): Sides {
    Sides(AccruedSide(Long, b.long, dp, num), AccruedSide(Short, b.short, dp, num))
  }

  predicate IndicesFit(b: Sides) {
    IsI128(b.long.k) && IsI128(b.long.f) && IsI128(b.short.k) && IsI128(b.short.f)
  }

  /** What one accrual moves: K by A times the price move, against shorts; F by A times
      price, rate and slots, against longs when the rate is positive. */
  lemma AccrualMeans(b: Sides, dp: int, fundPx: nat, rate: int, dt: int)
    ensures var b' := Accrued(b, dp, FundingNum(b, fundPx, rate, dt));
            && b'.long.k - b.long.k == (if b.long.oi != 0 then b.long.a * dp else 0)
            && b'.short.k - b.short.k == (if b.short.oi != 0 then -(b.short.a * dp) else 0)
            && b'.long.f - b.long.f
               == (if b.long.oi != 0 && b.short.oi != 0 then -(b.long.a * (fundPx * rate * dt)) else 0)
            && b'.short.f - b.short.f
               == (if b.long.oi != 0 && b.short.oi != 0 then b.short.a * (fundPx * rate * dt) else 0)
  {
    assert b.long.a * 0 == 0 && b.short.a * 0 == 0;
  }

  /** `gain` is what a row earns over one accrual: its size, basis * A / a_basis, times the
      price move less the funding `paid` = price * rate * slots, over the rate's scale of
      10^9; rounded down.  A short has a negative basis. */
  predicate EarnsOver(gain: int, p: Position, a: nat, move: int, paid: int) {
    IsFloor(gain, p.basis * a * (move * FUNDING_DEN - paid), p.aBasis * POS_SCALE * FUNDING_DEN)
  }

  /** A row that was settled when the accrual began. */
  predicate JustSettled(p: Position, b: Sides) {
    var s := b.Get(SideOf(p));
    p.basis != 0 && p.epochSnap == s.epoch && p.kSnap == s.k && p.fSnap == s.f
  }

  lemma OneAccrualEarns(gain: int, p: Position, b: Sides, dp: int, fundPx: nat, rate: int, dt: int)
    requires JustSettled(p, b) && b.long.oi != 0 && b.short.oi != 0
    requires RowGains(gain, p, Accrued(b, dp, FundingNum(b, fundPx, rate, dt)))
    ensures EarnsOver(gain, p, b.Get(SideOf(p)).a, dp, fundPx * rate * dt)
  {
    hide FundingNum, MarkedK, FundedF;
    AccrualMeans(b, dp, fundPx, rate, dt);
    var a, paid := b.Get(SideOf(p)).a, fundPx * rate * dt;
    BasisTimes(p.basis, a, dp, paid);
  }

  lemma BasisTimes(basis: int, a: nat, dp: int, paid: int)
    ensures basis >= 0 ==> Abs(basis) * (a * dp * FUNDING_DEN + -(a * paid)) == basis * a * (dp * FUNDING_DEN - paid)
    ensures basis < 0 ==> Abs(basis) * (-(a * dp) * FUNDING_DEN + a * paid) == basis * a * (dp * FUNDING_DEN - paid)
  {
    var t := a * dp * FUNDING_DEN - a * paid;
    assert t == a * (dp * FUNDING_DEN - paid);
    assert basis * a * (dp * FUNDING_DEN - paid) == basis * t;
    assert -(a * dp) * FUNDING_DEN + a * paid == -t;
  }

  /** Accruing a live side is one `Mark` and one `Fund` event of the lazy scheme. */
  lemma AccrualIsTwoEvents(side: Side, s: SideState, dp: int, num: int)
    requires s.oi != 0
    ensures var s' := AccruedSide(side, s, dp, num);
            Run(side, Index(s.a, s.k, s.f), [Mark(dp), Fund(num)]) == Index(s'.a, s'.k, s'.f)
  {
    var x := Index(s.a, s.k, s.f);
    var y := Apply(side, x, Mark(dp));
    assert [Mark(dp), Fund(num)][1..] == [Fund(num)];
    assert [Fund(num)][1..] == [];
    assert Run(side, y, [Fund(num)]) == Run(side, Apply(side, y, Fund(num)), []);
  }

  /** Absorbing a close is one `Deficit` and one `Shrink` event of the opposing side, in
      every branch: a deficit that is not charged lowers K by nothing, and a side that is
      drained keeps its multiplier until the reset. */
  lemma AbsorptionIsTwoEvents(b: Sides, liq: Side, q: nat, d: nat)
    requires b.Get(liq).oi + q == b.Get(liq.Opposite()).oi
    requires b.Get(liq.Opposite()).a > 0
    ensures var s, s' := b.Get(liq.Opposite()), Absorbed(b, liq, q, d).sides.Get(liq.Opposite());
            && s'.k <= s.k && s'.a > 0
            && Run(liq.Opposite(), Index(s.a, s.k, s.f), [Deficit(s.k - s'.k), Shrink(s'.a)]) == Index(s'.a, s'.k, s'.f)
  {
    hide ShrunkA, ShrinkDust, DeficitK, DeficitFits;
    var opp := liq.Opposite();
    var s, s' := b.Get(opp), Absorbed(b, liq, q, d).sides.Get(opp);
    var es := [Deficit(s.k - s'.k), Shrink(s'.a)];
    var x := Index(s.a, s.k, s.f);
    var y := Apply(opp, x, es[0]);
    assert es[1..] == [es[1]] && [es[1]][1..] == [];
    assert Run(opp, y, [es[1]]) == Run(opp, Apply(opp, y, es[1]), []);
  }

  /** Nothing moves without a price change, time, a rate, or two live sides. */
  lemma NoMove(s: SideState, side: Side)
    ensures AccruedSide(side, s, 0, 0) == s
    ensures FundedF(side, s, 0) == s.f && MarkedK(side, s, 0) == s.k
  {
    assert s.a * 0 == 0;
  }

  // ---- room to mark ----

  /** K if the price moved from `last` to `q` now. */
  function KAt(side: Side, s: SideState, last: nat, q: nat): int {
    s.k + Signed(side, s.a * (q - last))
  }

  /** Every admissible next price can be marked. */
  ghost predicate Headroom(side: Side, s: SideState, last: nat) {
    forall q: nat :: 1 <= q <= MAX_ORACLE_PRICE ==> Abs(KAt(side, s, last, q)) <= I128_MAX
  }

  /** With headroom the next mark cannot overflow, and it keeps the headroom. */
  lemma MarkKeepsHeadroom(side: Side, s: SideState, last: nat, price: nat)
    requires Headroom(side, s, last)
    requires 1 <= price <= MAX_ORACLE_PRICE && s.oi != 0
    ensures var k := MarkedK(side, s, price - last);
            IsI128(k) && Headroom(side, s.(k := k), price)
  {
    var s' := s.(k := MarkedK(side, s, price - last));
    assert s'.k == KAt(side, s, last, price);
    forall q: nat | 1 <= q <= MAX_ORACLE_PRICE
      ensures Abs(KAt(side, s', price, q)) <= I128_MAX
    {
      MarksCompose(side, s, last, price, q);
      assert KAt(side, s', price, q) == KAt(side, s, last, q);
    }
  }

  lemma MarksCompose(side: Side, s: SideState, last: nat, price: nat, q: nat)
    ensures Signed(side, s.a * (price - last)) + Signed(side, s.a * (q - price)) == Signed(side, s.a * (q - last))
  {
    assert s.a * (price - last) + s.a * (q - price) == s.a * (q - last);
  }

  /** A smaller multiplier keeps it. */
  lemma ShrinkKeepsHeadroom(side: Side, s: SideState, s': SideState, last: nat)
    requires Headroom(side, s, last) && 1 <= last <= MAX_ORACLE_PRICE
    requires s'.k == s.k && s'.a <= s.a
    ensures Headroom(side, s', last)
  {
    assert KAt(side, s, last, last) == s.k;
    forall q: nat | 1 <= q <= MAX_ORACLE_PRICE
      ensures Abs(KAt(side, s', last, q)) <= I128_MAX
    {
      assert Abs(KAt(side, s, last, q)) <= I128_MAX;
      SmallerProduct(s'.a, s.a, q - last);
    }
  }

  lemma SmallerProduct(a': nat, a: nat, x: int)
    requires a' <= a
    ensures x >= 0 ==> 0 <= a' * x <= a * x
    ensures x <= 0 ==> a * x <= a' * x <= 0
  {
    if x >= 0 {
      MulMono(a', a, x);
    } else {
      MulMono(a', a, -x);
      assert a' * -x == -(a' * x) && a * -x == -(a * x);
    }
  }

  /** Every deficit the engine accepts into K keeps it, whatever K was before. */
  lemma DeficitKeepsHeadroom(side: Side, s: SideState, d: nat, last: nat)
    requires s.oi > 0 && 1 <= last <= MAX_ORACLE_PRICE
    requires Headroom(side, s, last)
    ensures Headroom(side, WithDeficit(s, d), last)
  {
    hide DeficitK;
    var s' := WithDeficit(s, d);
    if s' != s {
      RoomIsHeadroom(side, s', last);
    }
  }

  lemma RoomIsHeadroom(side: Side, s: SideState, last: nat)
    requires MarkRoom(s.k, s.a) && 1 <= last <= MAX_ORACLE_PRICE
    ensures Headroom(side, s, last)
  {
    forall q: nat | 1 <= q <= MAX_ORACLE_PRICE
      ensures Abs(KAt(side, s, last, q)) <= I128_MAX
    {
      MoveWithin(s.a, q, last, MAX_ORACLE_PRICE);
    }
  }

  lemma MoveWithin(a: nat, q: nat, last: nat, cap: nat)
    requires q <= cap && last <= cap
    ensures Abs(a * (q - last)) <= a * cap
  {
    if q >= last {
      MulMono(q - last, cap, a);
    } else {
      MulMono(last - q, cap, a);
      assert a * (q - last) == -(a * (last - q));
    }
  }

  /** A side that has just been reset has it. */
  lemma FreshHeadroom(side: Side, s: SideState, last: nat)
    requires s.k == 0 && s.a <= ADL_ONE && 1 <= last <= MAX_ORACLE_PRICE
    ensures Headroom(side, s, last)
  {
    MulMono(s.a, ADL_ONE, MAX_ORACLE_PRICE);
    RoomIsHeadroom(side, s, last);
  }

  /** A side without open interest is not marked, so that its K stays where it is while
      the price moves away from it: it keeps its headroom iff K leaves room at the new
      price, for which the two extreme prices decide. */
  lemma HeadroomAcrossEmptyMove(side: Side, s: SideState, last: nat, price: nat, num: int)
    requires s.oi == 0 && 1 <= price <= MAX_ORACLE_PRICE
    ensures var s' := AccruedSide(side, s, price - last, num);
            && s'.k == s.k
            && (Headroom(side, s', price) <==>
                  && Abs(KAt(side, s, price, 1)) <= I128_MAX
                  && Abs(KAt(side, s, price, MAX_ORACLE_PRICE)) <= I128_MAX)
  {
    var s' := AccruedSide(side, s, price - last, num);
    assert forall q: nat :: KAt(side, s', price, q) == KAt(side, s, price, q);
    if Abs(KAt(side, s, price, 1)) <= I128_MAX && Abs(KAt(side, s, price, MAX_ORACLE_PRICE)) <= I128_MAX {
      forall q: nat | 1 <= q <= MAX_ORACLE_PRICE
        ensures Abs(KAt(side, s', price, q)) <= I128_MAX
      {
        MoveBetween(s.a, 1, q, MAX_ORACLE_PRICE, price);
      }
    }
  }

  lemma MoveBetween(a: nat, lo: nat, q: nat, hi: nat, price: nat)
    requires lo <= q <= hi
    ensures a * (lo - price) <= a * (q - price) <= a * (hi - price)
  {
    MulMono(lo - price, q - price, a);
    MulMono(q - price, hi - price, a);
  }
}
