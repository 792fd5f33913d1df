// Closing against the opposing side: how a liquidation's size and deficit are
// absorbed, and the reset of a side once its open interest is gone.
module Adl {
  import opened Arith
  import opened Market
  import opened Sums
  import opened Book

  // ---- the deficit, written into K ----

  /** ceil(D * A * POS_SCALE / OI): how far K must fall to charge a deficit D. */
  function DeficitK(d: nat, a: nat, oi: nat): nat
    requires oi > 0
  {
    CeilDivBounds(d * (a * POS_SCALE), oi);
    CeilDiv(d * (a * POS_SCALE), oi)
  }

  /** Room to mark the side at any admissible price after K becomes `k`. */
  predicate MarkRoom(k: int, a: nat) {
    a * MAX_ORACLE_PRICE <= I128_MAX - Abs(k)
  }

  predicate DeficitFits(s: SideState, d: nat)
    requires s.oi > 0
  {
    var dk := DeficitK(d, s.a, s.oi);
    dk <= I128_MAX && MarkRoom(s.k - dk, s.a)
  }

  /** The side after a deficit is charged to it; a deficit that does not fit K is
      left to the global haircut. */
  function WithDeficit(s: SideState, d: nat): SideState
    requires s.oi > 0
  {
    if d != 0 && DeficitFits(s, d) then s.(k := s.k - DeficitK(d, s.a, s.oi)) else s
  }

  /** Both sides after the liquidated side has given up `q`, and whether both were
      drained, so that both must be reset. */
  datatype Outcome = Outcome(sides: Sides, drained: bool)

  function Absorbed(b: Sides, liq: Side, q: nat, d: nat): Outcome
    requires b.Get(liq).oi + q == b.Get(liq.Opposite()).oi
    requires b.Get(liq.Opposite()).a > 0
  {
    var opp := liq.Opposite();
    var s := b.Get(opp);
    if s.oi == 0 then Outcome(b, true)
    else
      var oiPost := s.oi - q;
      if s.stored == 0 then Outcome(b.With(opp, s.(oi := oiPost)), oiPost == 0)
      else
        var s1 := WithDeficit(s, d);
        if oiPost == 0 then Outcome(b.With(opp, s1.(oi := 0)), true)
        else if ShrunkA(s1.a, s1.oi, oiPost) > 0 then Outcome(b.With(opp, Shrunk(s1, oiPost)), false)
        else Outcome(b.With(opp, s1.(oi := 0)).With(liq, b.Get(liq).(oi := 0)), true)
  }

  // ---- the two updates of the opposing side, step by step ----

  /** A deficit is written into K only if the quotient and the new K leave room. */
  method WriteDeficit(s: SideState, d: nat) returns (r: SideState)
    requires s.oi > 0
    ensures r == WithDeficit(s, d)
  {
    r := s;
    if d != 0 {
      var dk := DeficitK(d, s.a, s.oi);
      if dk <= I128_MAX {
        var k := s.k - dk;
        if MarkRoom(k, s.a) {
          r := s.(k := k);
        }
      }
    }
  }

  /** A shrinks pro rata; the dust bound grows when open interest really fell. */
  method ShrinkSide(s: SideState, a: nat, oiPost: nat) returns (r: Result<SideState>)
    requires s.oi > 0 && s.a > 0 && a == ShrunkA(s.a, s.oi, oiPost) && oiPost <= s.oi
    ensures r.Err? <==> oiPost < s.oi && s.dust + ShrinkDust(s.oi, s.stored, s.a) > U128_MAX
    ensures r == if r.Err? then Err(Overflow) else Ok(Shrunk(s, oiPost))
    ensures r.Ok? ==> ShrinksTo(s, r.value, oiPost)
  {
    hide ShrinksTo;
    ShrunkMeans(s, oiPost);
    var t := s.(a := a, oi := oiPost);
    if oiPost < s.oi {
      var bound := ShrinkDust(s.oi, s.stored, s.a);
      if t.dust + bound > U128_MAX {
        return Err(Overflow);
      }
      t := t.(dust := t.dust + bound);
    }
    if a < MIN_A_SIDE {
      t := t.(mode := DrainOnly);
    }
    r := Ok(t);
  }

  /** The least fall of K that charges at least `d` to `oi` open interest. */
  predicate LeastCover(dk: nat, s: SideState, d: nat) {
    && d * (s.a * POS_SCALE) <= dk * s.oi
    && (dk == 0 || (dk - 1) * s.oi < d * (s.a * POS_SCALE))
  }

  /** A deficit lowers K by the least amount that covers it, when that fits and leaves room
      to mark the side at any price; otherwise it changes nothing. */
  lemma DeficitIsLeastCover(s: SideState, d: nat, dk: nat)
    requires s.oi > 0 && LeastCover(dk, s, d)
    ensures WithDeficit(s, d) == if dk <= I128_MAX && (MarkRoom(s.k - dk, s.a) || d == 0) then s.(k := s.k - dk) else s
  {
    var n, c := d * (s.a * POS_SCALE), DeficitK(d, s.a, s.oi);
    CeilDivBounds(n, s.oi);
    assert (dk - 1) * s.oi == dk * s.oi - s.oi && (c - 1) * s.oi == c * s.oi - s.oi;
    if dk < c {
      MulMono(dk, c - 1, s.oi);
    }
    if c < dk {
      MulMono(c, dk - 1, s.oi);
    }
    if d == 0 {
      assert n == 0;
      if dk > 0 {
        MulMono(0, dk - 1, s.oi);
      }
    }
  }

  /** There is always one. */
  lemma SomeLeastCover(s: SideState, d: nat)
    requires s.oi > 0
    ensures LeastCover(DeficitK(d, s.a, s.oi), s, d)
  {
    var c := DeficitK(d, s.a, s.oi);
    CeilDivBounds(d * (s.a * POS_SCALE), s.oi);
    assert (c - 1) * s.oi == c * s.oi - s.oi;
  }

  /** The opposing side after it absorbs a shrink to `left`: A falls pro rata and rounded
      down, dust by one unit for each row and one rounded-up share of all of them, and a
      small A closes the side to new positions. */
  predicate ShrinksTo(s: SideState, s': SideState, left: nat) {
    && s' == s.(a := s'.a, oi := left, dust := s'.dust, mode := if s'.a < MIN_A_SIDE then DrainOnly else s.mode)
    && IsFloor(s'.a, s.a * left, s.oi)
    && (left == s.oi ==> s'.dust == s.dust)
    && (left < s.oi ==> IsCeil(s'.dust - s.dust - s.stored, s.oi + s.stored, s.a))
  }

  /** A close of `q` in plain inequalities: it leaves the liquidated side; the opposing side
      is charged the least fall of K that covers what is `passed` on, if that leaves room to
      mark it, and shrinks; and both are drained when nothing of it would be left, in size
      or in A. */
  ghost predicate AbsorbsTo(b: Sides, liq: Side, q: nat, passed: nat, b': Sides, drained: bool) {
    var l, l', s, s' := b.Get(liq), b'.Get(liq), b.Get(liq.Opposite()), b'.Get(liq.Opposite());
    var left := s.oi - q;
    if s.oi == 0 || s.stored == 0 then
      left >= 0 && l' == l.(oi := left) && s' == s.(oi := left) && (drained <==> left == 0)
    else
      exists dk: nat ::
        && LeastCover(dk, s, passed)
        && var k := if dk <= I128_MAX && (s.a * MAX_ORACLE_PRICE + Abs(s.k - dk) <= I128_MAX || passed == 0)
             then s.k - dk else s.k;
           if left <= 0 || s.a * left < s.oi
           then l' == l.(oi := 0) && s' == s.(k := k, oi := 0) && drained
           else l' == l.(oi := left) && ShrinksTo(s.(k := k), s', left) && !drained
  }

  lemma ShrunkMeans(s: SideState, left: nat)
    requires s.oi > 0 && s.a > 0 && left <= s.oi
    ensures ShrinksTo(s, Shrunk(s, left), left)
    ensures ShrunkA(s.a, s.oi, left) > 0 <==> s.a * left >= s.oi
  {
    hide FloorDiv, CeilDiv;
    FloorIsFloor(s.a * left, s.oi);
    CeilIsCeil(s.oi + s.stored, s.a);
    if s.a * left >= s.oi && ShrunkA(s.a, s.oi, left) <= 0 {
      MulMono(ShrunkA(s.a, s.oi, left), 0, s.oi);
    } else if s.a * left < s.oi && ShrunkA(s.a, s.oi, left) >= 1 {
      MulMono(1, ShrunkA(s.a, s.oi, left), s.oi);
    }
  }

  lemma AbsorbedMeans(b: Sides, liq: Side, q: nat, d: nat)
    requires q <= b.Get(liq).oi == b.Get(liq.Opposite()).oi && b.Get(liq.Opposite()).a > 0
    ensures var after := Absorbed(b.With(liq, b.Get(liq).(oi := b.Get(liq).oi - q)), liq, q, d);
            AbsorbsTo(b, liq, q, d, after.sides, after.drained)
  {
    hide LeastCover, ShrunkA, Shrunk, WithDeficit, ShrinksTo;
    var s := b.Get(liq.Opposite());
    var left := s.oi - q;
    if s.oi > 0 && s.stored > 0 {
      var dk := DeficitK(d, s.a, s.oi);
      SomeLeastCover(s, d);
      DeficitIsLeastCover(s, d, dk);
      var s1 := WithDeficit(s, d);
      ShrunkMeans(s1, left);
      assert left == 0 ==> s.a * left == 0;
    }
  }

  lemma DeficitOnlyMovesK(s: SideState, d: nat)
    requires s.oi > 0
    ensures WithDeficit(s, d) == s.(k := WithDeficit(s, d).k)
  {
    hide DeficitK, DeficitFits;
  }

  lemma EmptySideTakesAnyClose(ps: seq<Position>, side: Side, s: SideState, oiPost: nat)
    requires SideInv(ps, side, s, false) && s.stored == 0 && oiPost <= s.oi
    ensures SideInv(ps, side, s.(oi := oiPost), false)
  {
    hide Scaled, FloorTerm, WeightTerm, CountTerm;
    EmptySide(ps, side, s);
    EmptySide(ps, side, s.(oi := oiPost));
  }

  lemma DeficitKeepsSide(ps: seq<Position>, side: Side, s: SideState, d: nat)
    requires SideInv(ps, side, s, false) && s.oi > 0
    ensures SideInv(ps, side, WithDeficit(s, d), false)
    ensures WithDeficit(s, d) == s.(k := WithDeficit(s, d).k)
  {
    hide Scaled, FloorTerm, WeightTerm, CountTerm, DeficitK;
    var s' := WithDeficit(s, d);
    ExplainedFrame(ps, side, s, s');
    WeightsIgnoreA(ps, side, s, s');
  }

  /** The dust bound of the shrunk side would exceed 128 bits. */
  predicate DustOverflows(b: Sides, liq: Side, q: nat)
    requires b.Get(liq).oi + q == b.Get(liq.Opposite()).oi
    requires b.Get(liq.Opposite()).a > 0
  {
    var s := b.Get(liq.Opposite());
    && s.stored != 0 && 0 < s.oi - q < s.oi
    && ShrunkA(s.a, s.oi, s.oi - q) > 0
    && s.dust + ShrinkDust(s.oi, s.stored, s.a) > U128_MAX
  }

  lemma AbsorbKeepsOpposite(ps: seq<Position>, b: Sides, liq: Side, q: nat, d: nat)
    requires RowsInv(ps, b, NO_RESET)
    requires b.Get(liq).oi + q == b.Get(liq.Opposite()).oi
    requires b.Get(liq.Opposite()).oi > 0
    ensures var opp, r := liq.Opposite(), Absorbed(b, liq, q, d);
            && SideInv(ps, opp, r.sides.Get(opp), r.drained)
            && r.sides.Get(opp).a <= b.Get(opp).a
            && r.sides.Get(opp).epoch == b.Get(opp).epoch
            && !r.sides.Get(opp).mode.ResetPending?
            && !b.Get(opp).mode.ResetPending?
  {
    hide Scaled, FloorTerm, WeightTerm, CountTerm, Covered, Explained, WithDeficit, Shrunk, ShrunkA;
    var opp := liq.Opposite();
    var s := b.Get(opp);
    var oiPost := s.oi - q;
    if s.stored == 0 {
      EmptySideTakesAnyClose(ps, opp, s, oiPost);
      if oiPost == 0 {
        ClearKeepsSide(ps, opp, s, false);
      }
    } else {
      DeficitKeepsSide(ps, opp, s, d);
      var s1 := WithDeficit(s, d);
      ClearKeepsSide(ps, opp, s1, false);
      if ShrunkA(s1.a, s1.oi, oiPost) > 0 {
        assert forall p | p in ps && Current(p, opp, s.epoch) :: p.aBasis > 0;
        ShrinkKeepsSide(ps, opp, s1, oiPost);
        ShrunkMode(s1, oiPost);
      }
    }
  }

  lemma ShrunkMode(s: SideState, oiPost: nat)
    requires s.oi > 0 && s.a > 0 && !s.mode.ResetPending?
    ensures !Shrunk(s, oiPost).mode.ResetPending? && Shrunk(s, oiPost).epoch == s.epoch
    ensures Shrunk(s, oiPost).oi == oiPost
  {
    hide ShrunkA, ShrinkDust;
  }

  /** Main result: absorbing a close keeps the book invariant, with both resets
      scheduled when the book was drained and none otherwise. */
  lemma AbsorbKeepsBook(ps: seq<Position>, b: Sides, liq: Side, q: nat, d: nat)
    requires RowsInv(ps, b, NO_RESET)
    requires b.Get(liq).oi + q == b.Get(liq.Opposite()).oi <= MAX_OI_SIDE_Q
    requires b.Get(liq.Opposite()).oi > 0 ==> !b.Get(liq).mode.ResetPending?
    ensures var r := Absorbed(b, liq, q, d);
            BookInv(ps, r.sides, Flags(r.drained, r.drained))
  {
    hide Scaled, FloorTerm, WeightTerm, CountTerm, Covered, Explained, WithDeficit, Shrunk, ShrunkA;
    var opp := liq.Opposite();
    ClearKeepsSide(ps, liq, b.Get(liq), false);
    if b.Get(opp).oi == 0 {
      ClearKeepsSide(ps, opp, b.Get(opp), false);
    } else {
      AbsorbKeepsOpposite(ps, b, liq, q, d);
      AbsorbedOi(b, liq, q, d);
    }
  }

  lemma AbsorbedOi(b: Sides, liq: Side, q: nat, d: nat)
    requires b.Get(liq).oi + q == b.Get(liq.Opposite()).oi
    requires b.Get(liq.Opposite()).a > 0
    ensures var r := Absorbed(b, liq, q, d);
            && r.sides.long.oi == r.sides.short.oi <= b.Get(liq).oi
            && (r.drained <==> r.sides.long.oi == 0)
            && r.sides.Get(liq) == (if r.drained then b.Get(liq).(oi := 0) else b.Get(liq))
  {
    hide ShrunkA, ShrinkDust, DeficitK;
  }

  // ---- a liquidation's part of the book ----

  lemma EffWithinBasis(p: Position, a: nat)
    requires 0 < p.aBasis && a <= p.aBasis
    ensures EffAbs(p, a) <= Abs(p.basis)
  {
    var b := Abs(p.basis);
    MulMono(a, p.aBasis, b);
    FloorDivUnique(b * p.aBasis, p.aBasis, b);
    FloorDivMono(b * a, b * p.aBasis, p.aBasis);
  }

  /** Whether the book can record a partial or full close of row `p` to `newEff`
      without exhausting a dust bound. */
  predicate CloseFits(p: Position, b: Sides, newEff: int, q: nat) {
    var b1 := AttachedCounts(p, newEff, b);
    var s := b1.Get(SideOf(p));
    && (OrphansDust(p, b) ==> b.Get(SideOf(p)).dust + 1 <= U128_MAX)
    && (s.oi >= q && s.oi == b1.Get(SideOf(p).Opposite()).oi && b1.Get(SideOf(p).Opposite()).a > 0 ==>
          !DustOverflows(b1.With(SideOf(p), s.(oi := s.oi - q)), SideOf(p), q))
  }

  /** The book after a close of `q` of row `p`, re-attached at `newEff`, has been absorbed
      together with a deficit `d`. */
  function CloseAbsorbed(p: Position, b: Sides, newEff: int, q: nat, d: nat): Outcome {
    var side, b1 := SideOf(p), AttachedCounts(p, newEff, b);
    var s, opp := b1.Get(side), b1.Get(side.Opposite());
    if q <= s.oi == opp.oi && opp.a > 0 then Absorbed(b1.With(side, s.(oi := s.oi - q)), side, q, d)
        else Outcome(b1, false)
  }

  /** Closing `q` of the `i`-th row: the row can be re-attached at what is left, and
      taking `q` off its side's open interest keeps every row covered. */
  lemma CloseKeepsRows(ps: seq<Position>, b: Sides, i: nat, newEff: int, q: nat)
    requires BookInv(ps, b, NO_RESET) && i < |ps|
    requires var e := EffectivePos(ps[i], b);
             e != 0 && 0 < q <= Abs(e) && newEff == (if e > 0 then e - q else e + q)
    ensures !Stale(ps[i], b) && Abs(newEff) <= MAX_POSITION_ABS_Q
    ensures OnSide(ps[i], Long) ==> b.long.stored > 0
    ensures OnSide(ps[i], Short) ==> b.short.stored > 0
    ensures !b.long.mode.ResetPending? && !b.short.mode.ResetPending?
    ensures 0 < b.long.a && 0 < b.short.a
    ensures SideOf(ps[i]) == (if EffectivePos(ps[i], b) > 0 then Long else Short)
    ensures q <= b.Get(SideOf(ps[i])).oi
    ensures var side, b1 := SideOf(ps[i]), AttachedCounts(ps[i], newEff, b);
            && b1.long == b.long.(stored := b1.long.stored, dust := b1.long.dust)
            && b1.short == b.short.(stored := b1.short.stored, dust := b1.short.dust)
            && b.long.oi == b.short.oi <= MAX_OI_SIDE_Q
            && RowsInv(ps[i := AttachedRow(newEff, b)], b1.With(side, b1.Get(side).(oi := b1.Get(side).oi - q)),
                 NO_RESET)
  {
    hide Scaled, EffAbs, SideInv, OrphansDust;
    var p := ps[i];
    assert PosOk(p, b);
    ModesAgree(ps, b);
    EffectiveParts(p, b);
    assert SideInv(ps, Long, b.long, false) && SideInv(ps, Short, b.short, false);
    SideFacts(ps, Long, b.long);
    SideFacts(ps, Short, b.short);
    ReplaceRow(ps, b, i, FLAT, 0, 0);
    EffWithinBasis(p, b.Get(SideOf(p)).a);
    AttachKeepsRows(ps, b, i, newEff);
    assert AttachedSides(p, newEff, b)
        == AttachedCounts(p, newEff, b).With(SideOf(p),
             AttachedCounts(p, newEff, b).Get(SideOf(p)).(oi := b.Get(SideOf(p)).oi - q));
  }

  /** What is attached on the liquidated side is not moved by the absorption. */
  lemma AbsorbLeavesLiquidated(b: Sides, liq: Side, q: nat, d: nat, newEff: int)
    requires b.Get(liq).oi + q == b.Get(liq.Opposite()).oi
    requires b.long.a > 0 && b.short.a > 0
    requires if liq.Long? then newEff >= 0 else newEff <= 0
    ensures EffectivePos(AttachedRow(newEff, b), Absorbed(b, liq, q, d).sides) == newEff
  {
    hide ShrunkA, ShrinkDust, DeficitK, EffAbs, WithDeficit;
    AbsorbedOi(b, liq, q, d);
    if newEff != 0 {
      FreshExact(AttachedRow(newEff, b), liq, b.Get(liq));
    }
  }
}
