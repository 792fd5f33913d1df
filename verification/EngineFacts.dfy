// What the engine keeps after resolution, and the small facts its methods use.
module EngineFacts {
  import opened Arith
  import opened Market
  import opened Options
  import opened Sums
  import opened Book
  import opened Adl
  import opened Resets
  import opened LazyIndex
  import opened Accrual
  import opened Warmup
  import opened Ledger
  import opened Margin
  import opened Trading
  import opened Resolution
  import opened Limits
  import opened Touching

  /** sweep_empty_market_surplus_to_insurance: what is left in the vault of an empty market
      goes to the insurance fund. */
  function MarketSwept(t: Totals, accounts: nat, b: Sides): Totals {
    if accounts == 0 && t.cTot == t.pnlPosTot == t.pnlMaturedPosTot == 0 && b.long.oi == b.short.oi == 0
    then t.(insurance := t.vault) else t
  }

  /** After resolution nothing trades, and every stored position waits to be settled. */
  ghost predicate TerminalSides(b: Sides) {
    && b.long.oi == 0 && b.short.oi == 0
    && (b.long.mode.ResetPending? || b.long.stored == 0)
    && (b.short.mode.ResetPending? || b.short.stored == 0)
  }

  /** The locked payout ratio: everything is settled, and the shares left to pay fit. */
  ghost predicate PayoutOk(h: Ratio, t: Totals, ws: seq<Wallet>, b: Sides) {
    && h.den > 0 && h.num <= h.den
    && b.long.stored == 0 && b.short.stored == 0
    && t.negPnlCount == 0
    && Sum(ws, ScaledTerm(PosTerm(), h)) <= Residual(t)
  }

  lemma Conserved(t: Totals, ws: seq<Wallet>, mode: MarketMode, now: nat, p: Params)
    requires LedgerInv(t, ws, mode, now, p)
    ensures t.cTot + t.insurance <= t.vault <= MAX_VAULT_TVL
    ensures t.pnlMaturedPosTot <= t.pnlPosTot
  {
    hide WalletOk;
    MaturedWithinPositive(ws);
  }

  /** What the source checks of a ledger and of one account before and after it touches
      them. */
  lemma Intact(t: Totals, ws: seq<Wallet>, mode: MarketMode, now: nat, p: Params, i: nat)
    requires LedgerInv(t, ws, mode, now, p) && i < |ws|
    ensures Abs(ws[i].pnl) <= I128_MAX && -(I128_MAX as int) <= ws[i].feeCredits <= 0
    ensures mode.Live? ==> ReserveShape(ws[i].reserve, p.hMin, p.hMax) && ws[i].reserve.total <= Pos(ws[i].pnl)
    ensures mode.Live? && ws[i].pnl <= 0 ==> ws[i].reserve == NO_RESERVE
    ensures t.negPnlCount <= |ws| < NIL && (ws[i].pnl < 0 ==> t.negPnlCount > 0)
    ensures t.pnlMaturedPosTot <= t.pnlPosTot && t.cTot + t.insurance <= t.vault
    ensures ws[i].capital <= t.cTot && Released(ws[i]) <= t.pnlMaturedPosTot
  {
    hide Vested;
    RowWithinTotals(t, ws, mode, now, p, i);
    LosersWithin(ws);
  }

  lemma TableFits(t: Totals, ws: seq<Wallet>, mode: MarketMode, now: nat, p: Params)
    requires LedgerInv(t, ws, mode, now, p)
    ensures |ws| < NIL
  {
    hide WalletOk;
  }

  /** The position counters are far from their width. */
  lemma CountersFit(ps: seq<Position>, b: Sides)
    requires BookInv(ps, b, NO_RESET) && |ps| < NIL
    ensures b.long.stored < NIL && b.short.stored < NIL
  {
    hide Covered, Explained, PosOk, CountTerm;
    StoredWithin(ps, Long);
    StoredWithin(ps, Short);
  }

  lemma WaitingHasNoDust(ps: seq<Position>, b: Sides, pending: Flags)
    requires BookInv(ps, b, pending)
    ensures b.long.mode.ResetPending? ==> b.long.dust == 0
    ensures b.short.mode.ResetPending? ==> b.short.dust == 0
  {
    hide Covered, Explained, Count;
  }

  lemma IndicesInRange(ps: seq<Position>, b: Sides, pending: Flags)
    requires BookInv(ps, b, pending)
    ensures IndicesFit(b)
  {
    hide Covered, Explained, Count;
  }

  lemma NoFunding(b: Sides, fundPx: nat, rate: int, dt: nat)
    requires rate == 0 || dt == 0 || b.long.oi == 0 || b.short.oi == 0
    ensures FundingNum(b, fundPx, rate, dt) == 0
  {
    assert fundPx * 0 == 0;
  }

  lemma NotMarkedWhenEmpty(side: Side, s: SideState, dp: int)
    ensures s.oi == 0 || dp == 0 ==> MarkedK(side, s, dp) == s.k
  {
    assert s.a * 0 == 0;
  }

  lemma MovedIndicesKeepBook(ps: seq<Position>, b: Sides, b': Sides, pending: Flags)
    requires BookInv(ps, b, pending)
    requires b'.long == b.long.(k := b'.long.k, f := b'.long.f)
    requires b'.short == b.short.(k := b'.short.k, f := b'.short.f)
    requires IndicesFit(b')
    ensures BookInv(ps, b', pending)
  {
    hide RowsInv;
    IndexMoveKeepsRows(ps, b, b', pending);
  }

  lemma BucketStarted(r: Reserve, now: nat, hMin: nat, hMax: nat)
    requires ReserveOk(r, now, hMin, hMax) && r.sched.Some?
    ensures r.sched.value.start <= now && r.sched.value.horizon > 0
    ensures r.pending.None? ==> r.total == r.sched.value.remaining
  {
  }

  /** A fall of PnL takes the newest reserve first. */
  lemma AfterLossTaken(t: Totals, ws: seq<Wallet>, mode: MarketMode, now: nat, p: Params, i: nat, newPnl: int)
    requires LedgerInv(t, ws, mode, now, p) && i < |ws| && Pos(newPnl) <= Pos(ws[i].pnl)
    requires mode.Resolved? ==> ws[i].reserve == NO_RESERVE
    ensures SchedLeft(ws[i].reserve) + PendLeft(ws[i].reserve) == ws[i].reserve.total
    ensures NewestTaken(ws[i].reserve, PnlMoved(ws[i], newPnl, 0, now).reserve,
                        Min(Pos(ws[i].pnl) - Pos(newPnl), ws[i].reserve.total))
  {
    hide AfterLoss, NewestTaken;
    RowWithinTotals(t, ws, mode, now, p, i);
    BucketsHold(ws[i], mode, now, p);
    AfterLossMeans(ws[i].reserve, Min(Pos(ws[i].pnl) - Pos(newPnl), ws[i].reserve.total));
  }

  /** Every wallet of a live ledger is sound, and holds no more in reserve than its PnL. */
  lemma AllSound(t: Totals, ws: seq<Wallet>, now: nat, p: Params)
    requires LedgerInv(t, ws, Live, now, p)
    ensures forall i :: 0 <= i < |ws| ==> Sound(ws[i]) && ws[i].reserve.total <= Pos(ws[i].pnl) <= t.pnlPosTot
    ensures t.cTot + t.insurance <= t.vault && t.pnlMaturedPosTot <= t.pnlPosTot
  {
    hide ReserveOk;
    Conserved(t, ws, Live, now, p);
    forall i | 0 <= i < |ws|
      ensures Sound(ws[i]) && ws[i].reserve.total <= Pos(ws[i].pnl) <= t.pnlPosTot
    {
      RowWithinTotals(t, ws, Live, now, p, i);
    }
  }

  lemma AllFinalized(t: Totals, ws: seq<Wallet>, now: nat, p: Params, ps: seq<Position>, ws': seq<Wallet>,
      touched: seq<nat>)
    requires LedgerInv(t, ws, Live, now, p) && |ws| == |ws'| == |ps|
    requires forall j :: 0 <= j < |ws| && j in touched ==> ws'[j] == Finalized(ws[j], ps[j].basis == 0, IsWhole(t))
    ensures forall j :: 0 <= j < |ws| && j in touched ==> FinalizedBy(ws[j], ws'[j], ps[j].basis == 0, t)
  {
    hide LedgerInv, Finalized, FinalizedBy, IsWhole;
    AllSound(t, ws, now, p);
    forall j | 0 <= j < |ws| && j in touched
      ensures FinalizedBy(ws[j], ws'[j], ps[j].basis == 0, t)
    {
      FinalizedMeans(ws[j], ps[j].basis == 0, t);
    }
  }

  /** Accruing and settling move no open position. */
  lemma StillOpen(p: Position, b: Sides, dp: int, num: int)
    ensures var b' := Accrued(b, dp, num);
            EffectivePos(p, b) != 0 ==> EffectivePos(SettledRow(p, b'), SettledSides(p, b')) == EffectivePos(p, b)
  {
    hide MarkedK, FundedF, FloorDiv;
    if EffectivePos(p, b) != 0 {
      EffAbsIgnoresSnaps(p, SettledRow(p, Accrued(b, dp, num)), b.Get(SideOf(p)).a);
    }
  }

  lemma {:induction false} PositiveAtMost(ws: seq<Wallet>)
    requires forall i :: 0 <= i < |ws| ==> ws[i].pnl <= MAX_ACCOUNT_POSITIVE_PNL
    ensures 0 <= Sum(ws, PosTerm()) <= |ws| * MAX_ACCOUNT_POSITIVE_PNL
  {
    if ws != [] {
      PositiveAtMost(ws[..|ws| - 1]);
    }
  }

  /** The margin check of one leg, on the ledger it leaves. */
  lemma LegMeans(t: Totals, ws: seq<Wallet>, now: nat, p: Params, i: nat, price: nat, oldEff: int, newEff: int,
      before: int, fee: nat, candidate: int)
    requires LedgerInv(t, ws, Live, now, p) && i < |ws|
    requires newEff != 0 ==> Measurable(Abs(newEff), price, p)
    ensures var r := OneSideMargin(ws[i], t, price, p, oldEff, newEff, before - MaintReq(Abs(oldEff), price, p), fee,
                                   candidate);
            && (r.Ok? ==> LegAllowed(ws[i], t, price, p, oldEff, newEff, before, fee, candidate))
            && (r == Err(Undercollateralized) ==>
                  !LegAllowed(ws[i], t, price, p, oldEff, newEff, before, fee, candidate))
  {
    hide WalletOk, OneSideMargin, LegAllowed, Measurable, MaintReq;
    AllSound(t, ws, now, p);
    PositiveAtMost(ws);
    MulMono(|ws|, NIL, MAX_ACCOUNT_POSITIVE_PNL);
    OneSideMeans(ws[i], t, price, p, oldEff, newEff, before, fee, candidate);
  }

  /** The margin checks of an open account, in plain inequalities. */
  lemma HealthMeans(t: Totals, ws: seq<Wallet>, now: nat, p: Params, ps: seq<Position>, b: Sides, i: nat, price: nat)
    requires LedgerInv(t, ws, Live, now, p) && BookInv(ps, b, NO_RESET) && ValidParams(p, |ws|)
    requires i < |ws| == |ps| && 1 <= price <= MAX_ORACLE_PRICE && EffectivePos(ps[i], b) != 0
    ensures var q := Abs(EffectivePos(ps[i], b));
            && Measurable(q, price, p)
            && (AboveMaintenance(ws[i], q, price, p)
                <==> Exceeds(Equity(ws[i]), q, price, p.maintenanceBps, p.minNonzeroMm))
  {
    hide LedgerInv, BookInv, AboveMaintenance, Exceeds, EffectivePos;
    AllSound(t, ws, now, p);
    EffectiveBound(ps, b, i);
    MaintenanceMeans(ws[i], Abs(EffectivePos(ps[i], b)), price, p);
  }

  lemma PartialRow(e: int, policy: LiquidationPolicy, b: Sides)
    ensures policy.ExactPartial? ==> LiquidatedRow(e, policy, b).basis == if e > 0 then e - policy.q else e + policy.q
  {
  }

  lemma InitialMeans(t: Totals, ws: seq<Wallet>, now: nat, p: Params, ps: seq<Position>, b: Sides, i: nat, price: nat,
      out: nat)
    requires LedgerInv(t, ws, Live, now, p) && BookInv(ps, b, NO_RESET) && ValidParams(p, |ws|)
    requires i < |ws| == |ps| && 1 <= price <= MAX_ORACLE_PRICE && EffectivePos(ps[i], b) != 0
    ensures var q := Abs(EffectivePos(ps[i], b));
            Max(WithdrawRaw(ws[i], t) - out, I128_MIN) >= InitReq(q, price, p)
            <==> CoversInitial(ws[i], t, out, q, price, p)
  {
    hide LedgerInv, BookInv, WithdrawRaw, InitReq, CoversInitial, EffectivePos;
    AllSound(t, ws, now, p);
    EffectiveBound(ps, b, i);
    WithdrawMeans(ws[i], t, out, Abs(EffectivePos(ps[i], b)), price, p);
  }

  lemma TooWide(w: Wallet, t: Totals, newPnl: int, held: bool, full: bool, hMin: nat, hMax: nat, now: nat)
    ensures !IsI128(newPnl) ==> PnlRefused(w, t, newPnl, held, full, hMin, hMax, now)
  {
    hide AnchorOverflows, BecomesHeld, AdmittedHorizon;
  }

  lemma ScheduleRefuses(b: Sides, pending: Flags)
    ensures DustSumOverflows(b) ==> Schedule(b, pending).Err?
  {
  }

  /** What stops a reconciliation: a value that does not fit its width. */
  predicate OwedRefused(w: Wallet, t: Totals, p: Position, b: Sides, kLong: int, kShort: int) {
    var owed := ReconcileDelta(p, b, kLong, kShort);
    owed.Err? || Abs(w.pnl + owed.value) > I128_MAX
    || (&& Pos(w.pnl + owed.value) > Pos(w.pnl)
        && t.pnlPosTot + (Pos(w.pnl + owed.value) - Pos(w.pnl)) > U128_MAX)
  }

  /** A row has no effective size exactly when its product is below its divisor. */
  lemma TruncatedToNothing(p: Position, b: Sides)
    ensures p.basis != 0 && p.aBasis > 0 ==>
              var a := b.Get(SideOf(p)).a;
              EffAbs(p, a) == 0 <==> Abs(p.basis) * a < p.aBasis
  {
    if p.basis != 0 && p.aBasis > 0 {
      var n := Abs(p.basis) * b.Get(SideOf(p)).a;
      FloorDivBounds(n, p.aBasis);
      if n < p.aBasis {
        FloorDivUnique(n, p.aBasis, 0);
      }
    }
  }

  lemma ShapeOf(r: Reserve, now: nat, hMin: nat, hMax: nat)
    requires ReserveOk(r, now, hMin, hMax)
    ensures ReserveShape(r, hMin, hMax)
    ensures r.total == 0 ==> r == NO_RESERVE
  {
  }

  lemma NothingLeftOk(now: nat, hMin: nat, hMax: nat)
    ensures ReserveOk(NO_RESERVE, now, hMin, hMax)
  {
  }

  lemma AdmittedOk(t: Totals, gain: nat, sticky: bool, hMin: nat, hMax: nat, p: Params)
    requires AdmissionPairOk(hMin, hMax, p)
    ensures var h := AdmittedHorizon(t, gain, sticky, hMin, hMax);
            && (h == 0 || HorizonOk(h, p.hMin, p.hMax))
            && (h == 0 ==> t.pnlMaturedPosTot + gain <= Residual(t))
            && (sticky ==> h == hMax)
            && (!sticky ==> h == AdmittedHorizon(t, gain, false, hMin, hMax))
  {
  }

  lemma RisenWallet(w: Wallet, newPnl: int, h: nat, now: nat)
    requires Pos(newPnl) > Pos(w.pnl)
    requires SchedLeft(w.reserve) + PendLeft(w.reserve) == w.reserve.total
    ensures PnlMoved(w, newPnl, h, now)
         == w.(pnl := newPnl, reserve := if h == 0 then w.reserve
              else Appended(w.reserve, Pos(newPnl) - Pos(w.pnl), now, h))
  {
    hide Appended;
  }

  lemma MaturedOnlyFalls(t: Totals, t': Totals, ws: seq<Wallet>, ws': seq<Wallet>, now: nat, p: Params, i: nat,
      newPnl: int)
    requires LedgerInv(t, ws, Live, now, p) && LedgerInv(t', ws', Live, now, p) && i < |ws|
    requires SchedLeft(ws[i].reserve) + PendLeft(ws[i].reserve) == ws[i].reserve.total
    requires Abs(newPnl) <= I128_MAX && Pos(newPnl) <= Pos(ws[i].pnl)
    requires ws' == ws[i := PnlMoved(ws[i], newPnl, 0, now)]
    ensures t'.pnlMaturedPosTot <= t.pnlMaturedPosTot
  {
    hide AfterLoss, ReserveOk;
    FallOfWallet(ws[i], newPnl, Live, now, p);
    SumUpdate(ws, i, ws'[i], ReleasedTerm());
  }

  /** A wallet with negative PnL has nothing in reserve. */
  lemma NothingReserved(w: Wallet, mode: MarketMode, now: nat, p: Params)
    requires WalletOk(w, mode, now, p) && w.pnl < 0
    requires mode.Resolved? ==> w.reserve == NO_RESERVE
    ensures w.reserve == NO_RESERVE && -w.pnl <= I128_MAX
  {
    hide Vested;
  }

  lemma LossLeavesReserve(w: Wallet, newPnl: int, now: nat)
    requires w.reserve == NO_RESERVE && Pos(newPnl) <= Pos(w.pnl)
    ensures PnlMoved(w, newPnl, 0, now) == w.(pnl := newPnl)
  {
  }

  lemma MovedPnl(w: Wallet, newPnl: int, w': Wallet, now: nat)
    requires SchedLeft(w.reserve) + PendLeft(w.reserve) == w.reserve.total
    requires exists h :: w' == PnlMoved(w, newPnl, h, now)
    ensures w' == w.(pnl := newPnl, reserve := w'.reserve)
  {
  }

  lemma FeeWithinCap(q: nat, price: nat, p: Params)
    requires p.liquidationFeeCap <= MAX_PROTOCOL_FEE_ABS
    ensures LiquidationFee(q, price, p) <= MAX_PROTOCOL_FEE_ABS
  {
  }

  lemma SameRow(q: int, b: Sides, b': Sides)
    requires b'.long.a == b.long.a && b'.long.k == b.long.k && b'.long.f == b.long.f && b'.long.epoch == b.long.epoch
    requires b'.short.a == b.short.a && b'.short.k == b.short.k && b'.short.f == b.short.f
               && b'.short.epoch == b.short.epoch
    ensures AttachedRow(q, b') == AttachedRow(q, b)
  {
  }

  /** The pre-flight lemma, with its value bounds read off the invariants. */
  lemma PreFlight(t: Totals, ws: seq<Wallet>, ps: seq<Position>, b: Sides, now: nat, p: Params, i: nat, q: nat,
      price: nat)
    requires LedgerInv(t, ws, Live, now, p) && BookInv(ps, b, NO_RESET) && i < |ws| == |ps|
    requires ValidParams(p, |ws|) && price <= MAX_ORACLE_PRICE
    requires EffectivePos(ps[i], b) != 0 && 0 < q < Abs(EffectivePos(ps[i], b))
    ensures JustTouched(ws[i]) ==>
              (HintApproved(ws[i], Abs(EffectivePos(ps[i], b)), q, price, p)
               <==> AboveMaintenance(AfterPartial(ws[i], q, price, p), Abs(EffectivePos(ps[i], b)) - q, price, p))
  {
    hide LiquidationFee, Requirement, EffectivePos, RowsInv, ReserveOk;
    var e := EffectivePos(ps[i], b);
    RowWithinTotals(t, ws, Live, now, p, i);
    Conserved(t, ws, Live, now, p);
    CloseKeepsRows(ps, b, i, 0, Abs(e));
    EffectiveBound(ps, b, i);
    if JustTouched(ws[i]) {
      PreFlightIsExact(ws[i], Abs(e), q, price, p);
    }
  }

  lemma EffectiveBound(ps: seq<Position>, b: Sides, i: nat)
    requires BookInv(ps, b, NO_RESET) && i < |ps|
    ensures Abs(EffectivePos(ps[i], b)) <= b.long.oi <= MAX_OI_SIDE_Q
  {
    hide EffAbs, Explained, Count, Covered;
    EffectiveParts(ps[i], b);
    if EffectivePos(ps[i], b) != 0 {
      ReplaceRow(ps, b, i, FLAT, 0, 0);
    }
  }

  lemma EmptyLedger(ws: seq<Wallet>, now: nat, p: Params)
    requires |ws| < NIL && forall i :: 0 <= i < |ws| ==> ws[i] == EMPTY_WALLET
    ensures LedgerInv(Totals(0, 0, 0, 0, 0, 0), ws, Live, now, p)
  {
    assert forall x | x in ws :: x == EMPTY_WALLET;
    SumZero(ws, CapitalTerm());
    SumZero(ws, PosTerm());
    SumZero(ws, ReleasedTerm());
    SumZero(ws, NegTerm());
  }

  lemma EmptyBook(ps: seq<Position>)
    requires forall i :: 0 <= i < |ps| ==> ps[i] == FLAT
    ensures BookInv(ps, Sides(NEW_SIDE, NEW_SIDE), NO_RESET)
  {
    hide Scaled, EffAbs;
    assert forall x | x in ps :: x == FLAT;
    SumZero(ps, CountTerm(Long));
    SumZero(ps, CountTerm(Short));
    EmptySide(ps, Long, NEW_SIDE);
    EmptySide(ps, Short, NEW_SIDE);
  }

  /** A conversion within the flat cap leaves nonnegative equity, also after the fee
      sweep, so the later check of it is redundant. */
  lemma FlatConversionSafe(t: Totals, ws: seq<Wallet>, now: nat, p: Params, i: nat, x: nat)
    requires LedgerInv(t, ws, Live, now, p) && i < |ws| && 0 < x <= Released(ws[i])
    ensures var w, h := ws[i], Haircut(t);
            var cap := MaxSafeConversion(MaintRaw(w), x, h);
            var w' := Swept(w.(pnl := w.pnl - x, capital := w.capital + Scale(x, h)));
            && h.num <= h.den
            && (cap.Err? <==> CapPanics(MaintRaw(w), h)) && (cap.Err? ==> cap.error == Panicked)
            && (cap.Ok? ==> (x <= cap.value <==> 0 < MaintRaw(w) && MaintRaw(w) - x + Scale(x, h) >= 0))
            && (cap.Ok? && x <= cap.value ==> MaintRaw(w') >= 0)
  {
    hide Scale, ReserveOk, CapPanics;
    var w, h := ws[i], Haircut(t);
    RowWithinTotals(t, ws, Live, now, p, i);
    Conserved(t, ws, Live, now, p);
    FlatConversionCapIsExact(MaintRaw(w), x, h);
    ScaledAtMost(x, h);
  }

  lemma FlatIsBlank(ps: seq<Position>, b: Sides, i: nat)
    requires BookInv(ps, b, NO_RESET) && i < |ps|
    ensures ps[i].basis == 0 ==> ps[i] == FLAT
  {
    hide SideInv;
    assert PosOk(ps[i], b);
  }

  lemma NoCredit(t: Totals, ws: seq<Wallet>, mode: MarketMode, now: nat, p: Params, i: nat)
    requires LedgerInv(t, ws, mode, now, p) && i < |ws|
    ensures ws[i].feeCredits <= 0
  {
    hide ReserveOk;
    assert WalletOk(ws[i], mode, now, p);
  }

  lemma NoTimeNoFee(w: Wallet, anchor: nat, rate: nat)
    requires w.lastFeeSlot <= anchor
    ensures anchor == w.lastFeeSlot || rate == 0 ==> Synced(w, anchor, rate) == w.(lastFeeSlot := anchor)
  {
    assert rate * 0 == 0 && 0 * (anchor - w.lastFeeSlot) == 0;
  }

  lemma FeeClockBehind(t: Totals, ws: seq<Wallet>, mode: MarketMode, now: nat, p: Params, i: nat)
    requires LedgerInv(t, ws, mode, now, p) && i < |ws|
    ensures ws[i].lastFeeSlot <= now
  {
    hide ReserveOk;
    assert WalletOk(ws[i], mode, now, p);
  }

  /** A change of one account's cash leaves the locked payout ratio affordable. */
  lemma FeesKeepPayout(h: Ratio, t: Totals, t': Totals, ws: seq<Wallet>, ws': seq<Wallet>, b: Sides, i: nat)
    requires PayoutOk(h, t, ws, b) && i < |ws| == |ws'|
    requires ws' == ws[i := ws'[i]] && ws'[i].pnl == ws[i].pnl
    requires Residual(t') >= Residual(t) && t'.negPnlCount == t.negPnlCount
    ensures PayoutOk(h, t', ws', b)
  {
    SumUpdate(ws, i, ws'[i], ScaledTerm(PosTerm(), h));
  }

  /** With both sides open no position is stale. */
  lemma NeverStale(ps: seq<Position>, b: Sides, i: nat)
    requires RowsInv(ps, b, NO_RESET) && i < |ps|
    requires !b.long.mode.ResetPending? && !b.short.mode.ResetPending?
    ensures !Stale(ps[i], b)
  {
    hide SideInv, EffAbs;
    ModesAgree(ps, b);
  }

  lemma RowCounted(ps: seq<Position>, b: Sides, i: nat)
    requires RowsInv(ps, b, NO_RESET) && i < |ps|
    ensures OnSide(ps[i], Long) ==> b.long.stored > 0
    ensures OnSide(ps[i], Short) ==> b.short.stored > 0
  {
    hide SideInv, PosOk, EffAbs;
    ReplaceRow(ps, b, i, FLAT, 0, 0);
  }

  /** Attaching moves counters only. */
  lemma SameEpochs(p: Position, q: int, b: Sides)
    ensures var b' := AttachedCounts(p, q, b);
            && b'.long == b.long.(stored := b'.long.stored, dust := b'.long.dust)
            && b'.short == b.short.(stored := b'.short.stored, dust := b'.short.dust)
  {
    hide OrphansDust;
  }

  /** Reopening a side moves no effective position. */
  lemma ReopenedEffective(p: Position, b: Sides)
    ensures EffectivePos(p, ReopenedSides(b)) == EffectivePos(p, b)
  {
    hide EffAbs;
  }

  lemma ChargeLowersEquity(w: Wallet, fee: nat)
    requires -(I128_MAX as int) <= w.feeCredits <= 0
    ensures var s := Settled(w);
            && FeePaid(s, fee) + FeeOwed(s, fee) <= fee
            && MaintRawWide(Charged(s, fee)) == MaintRawWide(w) - (FeePaid(s, fee) + FeeOwed(s, fee))
  {
  }

  lemma OneSideErrors(w: Wallet, t: Totals, price: nat, p: Params, oldEff: int, newEff: int, bufferPre: int, fee: nat,
      candidate: int)
    ensures var r := OneSideMargin(w, t, price, p, oldEff, newEff, bufferPre, fee, candidate);
            r.Err? ==> r.error in {Undercollateralized, Panicked}
  {
    hide MaintReq, InitReq, MulDiv;
  }

  lemma NoFeeNoCharge(w: Wallet)
    ensures Charged(w, 0) == w
  {
  }

  lemma AccruedModes(b: Sides, dp: int, num: int)
    ensures LastEpochExhausted(Accrued(b, dp, num).long) == LastEpochExhausted(b.long)
    ensures LastEpochExhausted(Accrued(b, dp, num).short) == LastEpochExhausted(b.short)
  {
    hide MarkedK, FundedF;
  }

  lemma OpenMultipliers(ps: seq<Position>, b: Sides)
    requires BookInv(ps, b, NO_RESET)
    ensures 0 < b.long.a <= ADL_ONE && 0 < b.short.a <= ADL_ONE
  {
    hide PosOk;
    assert SideInv(ps, Long, b.long, false) && SideInv(ps, Short, b.short, false);
    SideFacts(ps, Long, b.long);
    SideFacts(ps, Short, b.short);
  }

  lemma TerminalDeltaFits(side: Side, s: SideState, dp: int)
    requires 0 < s.a <= ADL_ONE && Abs(dp) <= MAX_ORACLE_PRICE
    ensures IsI128(TerminalDelta(side, s, dp))
  {
    MulMono(s.a, ADL_ONE, Abs(dp));
    MulMono(Abs(dp), MAX_ORACLE_PRICE, ADL_ONE);
    assert s.a * Abs(dp) <= ADL_ONE * MAX_ORACLE_PRICE <= I128_MAX;
    assert s.a * dp == s.a * Abs(dp) || s.a * dp == -(s.a * Abs(dp));
  }

  lemma WithoutOiKeepsBook(ps: seq<Position>, b: Sides)
    requires BookInv(ps, b, NO_RESET)
    ensures BookInv(ps, WithoutOi(b), Flags(true, true))
  {
    hide SideInv;
    ClearKeepsSide(ps, Long, b.long, false);
    ClearKeepsSide(ps, Short, b.short, false);
  }

  lemma RestartedWaits(s: SideState)
    ensures Restarted(s).mode.ResetPending? && Restarted(s).oi == s.oi && Restarted(s).stale == Restarted(s).stored
  {
  }

  lemma ClearedLedger(t: Totals, ws: seq<Wallet>, now: nat, p: Params, i: nat)
    requires LedgerInv(t, ws, Resolved, now, p) && i < |ws|
    ensures LedgerInv(t, ws[i := ws[i].(reserve := NO_RESERVE)], Resolved, now, p)
  {
    var w := ws[i].(reserve := NO_RESERVE);
    SumUpdate(ws, i, w, CapitalTerm());
    SumUpdate(ws, i, w, PosTerm());
    SumUpdate(ws, i, w, NegTerm());
  }

  lemma GainInResolved(t: Totals, ws: seq<Wallet>, now: nat, p: Params, i: nat, newPnl: int)
    requires LedgerInv(t, ws, Resolved, now, p) && i < |ws| && ws[i].reserve == NO_RESERVE
    requires Abs(newPnl) <= I128_MAX && Pos(newPnl) > Pos(ws[i].pnl)
    ensures ws[i].pnl < 0 ==> t.negPnlCount > 0
    ensures var gain := Pos(newPnl) - Pos(ws[i].pnl);
            LedgerInv(t.(pnlPosTot := t.pnlPosTot + gain, pnlMaturedPosTot := t.pnlMaturedPosTot + gain,
                         negPnlCount := if ws[i].pnl < 0 then t.negPnlCount - 1 else t.negPnlCount),
                      ws[i := ws[i].(pnl := newPnl)], Resolved, now, p)
  {
    var w, w' := ws[i], ws[i].(pnl := newPnl);
    RowWithinTotals(t, ws, Resolved, now, p, i);
    MoveKeepsLedger(t, ws, Resolved, now, p, i, w', Moved(t, w, w'));
  }

  /** In a resolved market every stored position is stale, one epoch behind, and
      counted as such. */
  lemma TerminalRow(ps: seq<Position>, b: Sides, i: nat)
    requires BookInv(ps, b, NO_RESET) && TerminalSides(b) && i < |ps|
    ensures ps[i].basis == 0 ==> ps[i] == FLAT && SettledRow(ps[i], b) == FLAT && SettledSides(ps[i], b) == b
    ensures ps[i].basis != 0 ==>
              && Stale(ps[i], b) && ps[i].aBasis > 0 && SettledRow(ps[i], b) == FLAT
              && b.Get(SideOf(ps[i])).stale > 0 && ps[i].epochSnap + 1 == b.Get(SideOf(ps[i])).epoch
    ensures TerminalSides(SettledSides(ps[i], b))
    ensures EffectivePos(FLAT, SettledSides(ps[i], b)) == 0
  {
    hide EffAbs, SideInv;
    assert PosOk(ps[i], b);
    SettleKeepsBook(ps, b, i);
    ModesAgree(ps, b);
    RowCounted(ps, b, i);
  }

  /** Booking, settling and absorbing, one after the other, is `Reconciled`. */
  lemma ReconciledInTwo(w: Wallet, delta: int)
    ensures var s := Settled(w.(pnl := w.pnl + delta, reserve := NO_RESERVE));
            && Reconciled(Claim(w, delta)) == (if s.pnl < 0 then s.(pnl := 0) else s)
            && Uncovered(Claim(w, delta)) == (if s.pnl < 0 then -s.pnl else 0)
  {
  }

  lemma ReconciledWallet(c: Claim)
    ensures Reconciled(c).pnl >= 0
    ensures c.delta == 0 && c.w.pnl >= 0 ==> Reconciled(c) == c.w.(reserve := NO_RESERVE)
  {
  }

  /** Once the payout ratio is locked nobody has a position or a loss. */
  lemma PayoutMeansSettled(h: Ratio, t: Totals, ws: seq<Wallet>, now: nat, p: Params, ps: seq<Position>, b: Sides,
      i: nat)
    requires PayoutOk(h, t, ws, b) && LedgerInv(t, ws, Resolved, now, p) && BookInv(ps, b, NO_RESET) && i < |ws| == |ps|
    ensures ps[i].basis == 0 && ws[i].pnl >= 0
  {
    hide SideInv, PosOk, EffAbs, WalletOk, KfPnlDelta;
    RowCounted(ps, b, i);
    SumAtLeast(ws, i, NegTerm());
  }

  lemma FlatIsOwedNothing(p: Position, b: Sides, kLong: int, kShort: int)
    ensures p.basis == 0 ==> ReconcileDelta(p, b, kLong, kShort) == Ok(0)
  {
  }

  lemma NobodyInLoss(t: Totals, ws: seq<Wallet>, now: nat, p: Params, payout: Option<Ratio>)
    requires LedgerInv(t, ws, Resolved, now, p) && t.negPnlCount == 0
    requires payout.Some? ==> payout.value.den > 0 && Sum(ws, ScaledTerm(PosTerm(), payout.value)) <= Residual(t)
    ensures Payable(Closing(t, ws, payout))
  {
    hide WalletOk, Scale;
    forall i | 0 <= i < |ws|
      ensures ws[i].pnl >= 0
    {
      SumAtLeast(ws, i, NegTerm());
    }
  }

  lemma MaturedIsPositive(t: Totals, ws: seq<Wallet>, now: nat, p: Params)
    requires LedgerInv(t, ws, Resolved, now, p)
    ensures t.(pnlMaturedPosTot := t.pnlPosTot) == t
  {
    hide WalletOk;
  }

  lemma StillNobodyInLoss(t: Totals, t': Totals, ws: seq<Wallet>, ws': seq<Wallet>, now: nat, p: Params, i: nat)
    requires LedgerInv(t, ws, Resolved, now, p) && LedgerInv(t', ws', Resolved, now, p) && i < |ws|
    requires t.negPnlCount == 0 && ws[i].pnl >= 0 && |ws'| == |ws| && ws' == ws[i := ws'[i]] && ws'[i].pnl >= 0
    ensures t'.negPnlCount == 0
  {
    hide WalletOk;
    SumUpdate(ws, i, ws'[i], NegTerm());
  }

  lemma ShareIgnoresReserve(w: Wallet, h: Ratio)
    ensures var w' := w.(reserve := NO_RESERVE);
            && TerminalShare(w', h) == TerminalShare(w, h)
            && WithShare(w', h) == WithShare(w, h).(reserve := NO_RESERVE)
            && SweptFee(WithShare(w', h)) == SweptFee(WithShare(w, h))
            && TerminalPayment(w', h) == TerminalPayment(w, h) == WithShare(w, h).capital - SweptFee(WithShare(w, h))
    ensures w.pnl == 0 ==> TerminalShare(w, h) == 0
  {
    hide Scale;
    if h.den > 0 {
      NoProfitNoShare(h);
    }
  }

  /** The ratio stays affordable for those who are still to be paid. */
  lemma PayoutStaysOk(c: Closing, t': Totals, ws': seq<Wallet>, b: Sides, i: nat)
    requires Payable(c) && i < |c.ws| && (c.payout.Some? || c.ws[i].pnl > 0)
    requires c.payout.Some? ==> c.payout.value.num <= c.payout.value.den
    requires b.long.stored == 0 && b.short.stored == 0 && t'.negPnlCount == 0
    requires ws' == c.ws[i := EMPTY_WALLET.(lastFeeSlot := c.ws[i].lastFeeSlot)]
    requires Residual(t') == Residual(c.t) - TerminalShare(c.ws[i], LockedRatio(c.t, c.payout))
    ensures PayoutOk(LockedRatio(c.t, c.payout), t', ws', b)
    ensures c.payout.Some? ==> LockedRatio(c.t, c.payout) == c.payout.value
  {
    hide TerminalShare, Scale;
    var h := LockedRatio(c.t, c.payout);
    ShareWithinResidual(c, i);
    if h.den > 0 {
      SumUpdate(c.ws, i, EMPTY_WALLET, ScaledTerm(PosTerm(), h));
      SumUpdate(c.ws, i, ws'[i], ScaledTerm(PosTerm(), h));
    }
  }

  /** Freeing the slot of a paid account, and sweeping an empty market, leave the ratio
      affordable. */
  lemma BlankKeepsPayout(h: Ratio, t: Totals, t': Totals, ws: seq<Wallet>, ws': seq<Wallet>, b: Sides, i: nat)
    requires PayoutOk(h, t, ws, b) && i < |ws| && ws[i].pnl == 0
    requires ws' == ws[i := EMPTY_WALLET] && t'.negPnlCount == t.negPnlCount
    requires t' == t || (Sum(ws', PosTerm()) == 0 && Residual(t') >= 0)
    ensures PayoutOk(h, t', ws', b)
  {
    hide Scale;
    SumUpdate(ws, i, EMPTY_WALLET, ScaledTerm(PosTerm(), h));
    if t' != t {
      SharesWithinTotal(ws', PosTerm(), h);
      assert 0 * h.num == 0;
      CancelFactor(Sum(ws', ScaledTerm(PosTerm(), h)), 0, h.den);
    }
  }

  lemma ReopenedStaysTerminal(b: Sides)
    requires TerminalSides(b)
    ensures TerminalSides(ReopenedSides(b))
  {
  }

  lemma ReopenedKeepsPayout(h: Ratio, t: Totals, ws: seq<Wallet>, b: Sides)
    requires PayoutOk(h, t, ws, b)
    ensures PayoutOk(h, t, ws, ReopenedSides(b))
  {
    hide ScaledTerm;
  }

  lemma PosTotal(t: Totals, ws: seq<Wallet>, mode: MarketMode, now: nat, p: Params)
    requires LedgerInv(t, ws, mode, now, p)
    ensures Sum(ws, PosTerm()) == t.pnlPosTot
  {
    hide WalletOk;
  }

  /** No bucket is empty, so that taking nothing changes nothing. */
  lemma BucketsHold(w: Wallet, mode: MarketMode, now: nat, p: Params)
    requires WalletOk(w, mode, now, p)
    requires mode.Resolved? ==> w.reserve == NO_RESERVE
    ensures SchedLeft(w.reserve) + PendLeft(w.reserve) == w.reserve.total
    ensures w.reserve.sched.Some? ==> w.reserve.sched.value.remaining != 0
    ensures w.reserve.pending.Some? ==> w.reserve.pending.value.remaining != 0
    ensures AfterLoss(w.reserve, 0) == w.reserve
  {
    hide Vested;
  }

  /** The ratio depends on the residual and the matured total only. */
  lemma SameHaircut(t: Totals, t': Totals)
    requires Residual(t') == Residual(t) && t'.pnlMaturedPosTot == t.pnlMaturedPosTot
    ensures Haircut(t') == Haircut(t)
  {
  }

  lemma LockedDen(t: Totals, payout: Option<Ratio>)
    ensures payout.None? ==> LockedRatio(t, payout).den == t.pnlPosTot
    ensures payout.Some? ==> LockedRatio(t, payout) == payout.value
  {
  }

  /** The ratio is one while the vault can pay everybody. */
  lemma FullRatio(t: Totals, payout: Option<Ratio>, ws: seq<Wallet>, now: nat, p: Params, i: nat)
    requires LedgerInv(t, ws, Resolved, now, p) && i < |ws|
    ensures payout.None? && t.pnlPosTot <= Residual(t) ==>
              RatioOf(t, payout).num == RatioOf(t, payout).den == t.pnlPosTot
    ensures ws[i].pnl > 0 ==> t.pnlPosTot > 0
  {
    hide WalletOk;
    RowWithinTotals(t, ws, Resolved, now, p, i);
  }

  // ---- a trade ----

  /** One leg of a trade that gains `pnl` and is charged `fee`, `cash` of it paid. */
  ghost predicate LegTraded(w: Wallet, w': Wallet, t': Totals, price: nat, p: Params, oldEff: int, newEff: int,
      pnl: int, fee: nat, cash: nat) {
    && LegPays(w, w', pnl, fee, cash) && (newEff == 0 ==> w'.pnl >= 0)
    && LegAllowed(w', t', price, p, oldEff, newEff, Equity(w), Equity(w) + pnl - Equity(w'), pnl)
  }

  /** The trade between two snapshots: the sizes move by `size` in opposite directions, one
      leg gains the rounded-down slippage that the other loses, both pay the fee, the fund
      gets what they pay in cash, and both legs are allowed. */
  ghost predicate Traded(m: Snapshot, m': Snapshot, i: nat, j: nat, held: Legs, size: nat, exec: nat, price: nat,
      p: Params) {
    && i < |m.ws| == |m.ps| == |m'.ws| == |m'.ps| && j < |m.ws|
    && m'.ps[i].basis == held.heldI + size && m'.ps[j].basis == held.heldJ - size
    && m'.t.vault == m.t.vault
    && exists gain: int, loss: int, fee: nat, cashI: nat, cashJ: nat ::
         && LegTraded(m.ws[i], m'.ws[i], m'.t, price, p, held.heldI, m'.ps[i].basis, gain, fee, cashI)
         && LegTraded(m.ws[j], m'.ws[j], m'.t, price, p, held.heldJ, m'.ps[j].basis, loss, fee, cashJ)
         && IsFloor(gain, size * (price - exec), POS_SCALE) && gain + loss == 0
         && IsTradeFee(fee, size, exec, p)
         && m'.t.insurance == m.t.insurance + cashI + cashJ
  }

  /** Both wallets settle their losses and are charged `fee`; `cash` of it in all goes to
      the fund. */
  ghost predicate PairCharged(w: Wallet, w': Wallet, v: Wallet, v': Wallet, fee: nat, cash: int) {
    exists settledW: Wallet, settledV: Wallet, cashW: nat, cashV: nat ::
      && LossesSettled(w, settledW) && (settledW.pnl < 0 ==> settledW.capital == 0)
      && FeeTaken(settledW, w', fee, cashW)
      && LossesSettled(v, settledV) && (settledV.pnl < 0 ==> settledV.capital == 0)
      && FeeTaken(settledV, v', fee, cashV)
      && cash == cashW + cashV
  }

  lemma PairChargedMeans(w: Wallet, v: Wallet, fee: nat, t: Totals, ws: seq<Wallet>, now: nat, p: Params, i: nat,
      j: nat)
    requires LedgerInv(t, ws, Live, now, p) && i < |ws| && j < |ws| && w == ws[i] && v == ws[j]
    ensures PairCharged(w, Charged(Settled(w), fee), v, Charged(Settled(v), fee), fee,
                        FeePaid(Settled(w), fee) + FeePaid(Settled(v), fee))
  {
    hide LedgerInv, Settled, Charged, FeeTaken, LossesSettled, FeePaid;
    AllSound(t, ws, now, p);
    SettledOrEmpty(w);
    SettledOrEmpty(v);
    SettledCredits(w);
    SettledCredits(v);
    ChargedMeans(Settled(w), fee);
    ChargedMeans(Settled(v), fee);
  }

  lemma MeasurableSize(newEff: int, price: nat, p: Params, n: nat)
    requires ValidParams(p, n) && Abs(newEff) <= MAX_POSITION_ABS_Q && price <= MAX_ORACLE_PRICE
    ensures newEff != 0 ==> Measurable(Abs(newEff), price, p)
  {
  }

  /** The booking of the slippage, and the charge, are the trade. */
  lemma TradeMeans(m: Snapshot, m': Snapshot, i: nat, j: nat, held: Legs, size: nat, exec: nat, price: nat, p: Params,
      w: Wallet, v: Wallet, pnl: int, fee: nat)
    requires i < |m.ws| == |m.ps| == |m'.ws| == |m'.ps| && j < |m.ws|
    requires w == m.ws[i].(pnl := m.ws[i].pnl + pnl, reserve := w.reserve)
    requires v == m.ws[j].(pnl := m.ws[j].pnl - pnl, reserve := v.reserve)
    requires IsFloor(pnl, size * (price - exec), POS_SCALE) && IsTradeFee(fee, size, exec, p)
    requires PairCharged(w, m'.ws[i], v, m'.ws[j], fee, m'.t.insurance - m.t.insurance) && m'.t.vault == m.t.vault
    requires m'.ps[i].basis == held.heldI + size && m'.ps[j].basis == held.heldJ - size
    requires held.heldI + size == 0 ==> m'.ws[i].pnl >= 0
    requires held.heldJ - size == 0 ==> m'.ws[j].pnl >= 0
    requires LegAllowed(m'.ws[i], m'.t, price, p, held.heldI, held.heldI + size, Equity(m.ws[i]),
                        Equity(w) - Equity(m'.ws[i]), pnl)
    requires LegAllowed(m'.ws[j], m'.t, price, p, held.heldJ, held.heldJ - size, Equity(m.ws[j]),
                        Equity(v) - Equity(m'.ws[j]), 0 - pnl)
    ensures Traded(m, m', i, j, held, size, exec, price, p)
  {
    hide LegAllowed, IsTradeFee, IsFloor;
    var settledW, settledV, cashW: nat, cashV: nat :|
      && LossesSettled(w, settledW) && (settledW.pnl < 0 ==> settledW.capital == 0)
      && FeeTaken(settledW, m'.ws[i], fee, cashW)
      && LossesSettled(v, settledV) && (settledV.pnl < 0 ==> settledV.capital == 0)
      && FeeTaken(settledV, m'.ws[j], fee, cashV)
      && m'.t.insurance - m.t.insurance == cashW + cashV;
    LegPaid(m.ws[i], w, settledW, m'.ws[i], pnl, fee, cashW);
    LegPaid(m.ws[j], v, settledV, m'.ws[j], 0 - pnl, fee, cashV);
    assert LegTraded(m.ws[i], m'.ws[i], m'.t, price, p, held.heldI, m'.ps[i].basis, pnl, fee, cashW);
    assert LegTraded(m.ws[j], m'.ws[j], m'.t, price, p, held.heldJ, m'.ps[j].basis, 0 - pnl, fee, cashV);
  }

  /** Both rows are attached at their new sizes, with snapshots of the indices as they are,
      and the open interest moves with them. */
  predicate SizesTraded(m: Snapshot, m': Snapshot, i: nat, j: nat, held: Legs, size: nat) {
    var newI, newJ := held.heldI + size, held.heldJ - size;
    && i < |m.ps| == |m'.ps| && j < |m.ps|
    && m'.ps[i] == AttachedRow(newI, m.b) && m'.ps[j] == AttachedRow(newJ, m.b) && SameIndices(m.b, m'.b)
    && m'.b.long.oi == m.b.long.oi - Pos(held.heldI) - Pos(held.heldJ) + Pos(newI) + Pos(newJ)
    && m'.b.short.oi == m.b.short.oi - Pos(-held.heldI) - Pos(-held.heldJ) + Pos(-newI) + Pos(-newJ)
  }

  lemma SizesIgnoreWallets(m: Snapshot, m1: Snapshot, m2: Snapshot, i: nat, j: nat, held: Legs, size: nat)
    requires SizesTraded(m, m1, i, j, held, size) && m2.ps == m1.ps && m2.b == m1.b
    ensures SizesTraded(m, m2, i, j, held, size)
  {
  }

  /** Reopening the sides first makes no difference. */
  lemma SizesFollow(m: Snapshot, m': Snapshot, i: nat, j: nat, held: Legs, size: nat)
    requires var newI, newJ := held.heldI + size, held.heldJ - size;
             var b := ReopenedSides(m.b);
             && i < |m.ps| == |m'.ps| && j < |m.ps|
             && m'.ps[i] == AttachedRow(newI, b) && m'.ps[j] == AttachedRow(newJ, b) && SameIndices(b, m'.b)
             && m'.b.long.oi == b.long.oi - Pos(held.heldI) - Pos(held.heldJ) + Pos(newI) + Pos(newJ)
             && m'.b.short.oi == b.short.oi - Pos(-held.heldI) - Pos(-held.heldJ) + Pos(-newI) + Pos(-newJ)
    ensures SizesTraded(m, m', i, j, held, size)
  {
  }

  /** The slippage is booked on both wallets, one after the other: a gain is admitted at the
      horizon that the totals and the account then ask for. */
  predicate PairBooked(ws: seq<Wallet>, t: Totals, ws': seq<Wallet>, i: nat, j: nat, pnl: int, heldI: bool, heldJ: bool,
      hMin: nat, hMax: nat, now: nat) {
    && i < |ws| == |ws'| && j < |ws|
    && ws'[i] == AdmittedMove(ws[i], t, ws[i].pnl + pnl, heldI, hMin, hMax, now)
    && ws'[j] == AdmittedMove(ws[j], TotalsWith(t, ws[i], ws'[i]), ws[j].pnl - pnl, heldJ, hMin, hMax, now)
  }

  /** So the trade leaves exactly those reserves. */
  ghost predicate TradeAdmitted(m: Snapshot, m': Snapshot, i: nat, j: nat, size: nat, exec: nat, price: nat,
      heldI: bool, heldJ: bool, hMin: nat, hMax: nat, now: nat) {
    exists pnl: int, ws: seq<Wallet> ::
      && PairBooked(m.ws, m.t, ws, i, j, pnl, heldI, heldJ, hMin, hMax, now)
      && IsFloor(pnl, size * (price - exec), POS_SCALE)
      && i < |m'.ws| && j < |m'.ws| && m'.ws[i].reserve == ws[i].reserve && m'.ws[j].reserve == ws[j].reserve
  }

  lemma BookedReserves(m: Snapshot, m': Snapshot, i: nat, j: nat, size: nat, exec: nat, price: nat, w: Wallet,
      v: Wallet, pnl: int, fee: nat, heldI: bool, heldJ: bool, hMin: nat, hMax: nat, now: nat)
    requires i < |m.ws| == |m'.ws| && j < |m.ws| && i != j
    requires PairBooked(m.ws, m.t, m.ws[i := w][j := v], i, j, pnl, heldI, heldJ, hMin, hMax, now)
    requires IsFloor(pnl, size * (price - exec), POS_SCALE)
    requires PairCharged(w, m'.ws[i], v, m'.ws[j], fee, m'.t.insurance - m.t.insurance)
    ensures TradeAdmitted(m, m', i, j, size, exec, price, heldI, heldJ, hMin, hMax, now)
  {
    hide PairBooked, IsFloor;
    assert m.ws[i := w][j := v][i] == w && m.ws[i := w][j := v][j] == v;
  }

  /** Both accounts as a trade finds them, and as it leaves them to be finalized. */
  datatype TradeLog = TradeLog(found: Snapshot, booked: Snapshot)

  ghost const NO_TRADE := TradeLog(NO_CRANK.left, NO_CRANK.left)

  /** Both accounts of a trade are finalized, and the fund gains the debts they pay off. */
  ghost predicate PairFinalized(m: Snapshot, ws: seq<Wallet>, ps: seq<Position>, t: Totals, i: nat, j: nat) {
    && i < |m.ws| == |m.ps| == |ws| == |ps| && j < |m.ws|
    && ps[i] == m.ps[i] && ps[j] == m.ps[j]
    && FinalizedBy(m.ws[i], ws[i], m.ps[i].basis == 0, m.t) && FinalizedBy(m.ws[j], ws[j], m.ps[j].basis == 0, m.t)
    && t.insurance - m.t.insurance
       == (ws[i].feeCredits - m.ws[i].feeCredits) + (ws[j].feeCredits - m.ws[j].feeCredits)
  }

  lemma CreditsOfOne(ws: seq<Wallet>, ws': seq<Wallet>, i: nat)
    requires i < |ws| == |ws'| && forall k :: 0 <= k < |ws| && k != i ==> ws'[k] == ws[k]
    ensures Sum(ws', CreditTerm()) - Sum(ws, CreditTerm()) == ws'[i].feeCredits - ws[i].feeCredits
  {
    SumUpdate(ws, i, ws'[i], CreditTerm());
    assert ws' == ws[i := ws'[i]];
  }

  lemma CreditsOfTwo(ws: seq<Wallet>, ws': seq<Wallet>, i: nat, j: nat)
    requires i < |ws| == |ws'| && j < |ws| && i != j
    requires forall k :: 0 <= k < |ws| && k != i && k != j ==> ws'[k] == ws[k]
    ensures Sum(ws', CreditTerm()) - Sum(ws, CreditTerm())
         == (ws'[i].feeCredits - ws[i].feeCredits) + (ws'[j].feeCredits - ws[j].feeCredits)
  {
    SumUpdate(ws, i, ws'[i], CreditTerm());
    SumUpdate(ws[i := ws'[i]], j, ws'[j], CreditTerm());
    assert ws' == ws[i := ws'[i]][j := ws'[j]];
  }

  /** An account that has settled its losses has capital only without loss. */
  lemma SettledOrEmpty(w: Wallet)
    ensures LossesSettled(w, Settled(w)) && (Settled(w).pnl < 0 ==> Settled(w).capital == 0)
  {
  }

  // ---- the log of a crank ----

  /** The visits so far: each is as it should be, together they lead from where the crank
      started to where it is, and they use up a bounded amount of dust. */
  ghost predicate LogSoFar(start: Snapshot, visits: seq<Visit>, m: Snapshot, touched: seq<nat>, sticky: seq<nat>,
                           price: nat, hMin: nat, hMax: nat, now: nat, p: Params) {
    && VisitsOk(visits, price, hMin, hMax, now, p)
    && VisitedAre(visits, touched, sticky, hMin, hMax, now)
    && Replays(visits, start, m)
    && Steady(start.b, m.b, price, VisitDust(|visits|))
  }

  lemma LogStarts(start: Snapshot, candidates: seq<(nat, Option<LiquidationPolicy>)>, used: seq<bool>, price: nat,
                  hMin: nat, hMax: nat, now: nat, p: Params)
    ensures LogSoFar(start, [], start, [], [], price, hMin, hMax, now, p)
    ensures Calls([]) == InUse(candidates[..0], used) && ResetsOf([]) == NO_RESET
  {
    NothingVisited(candidates, used, start, price, hMin, hMax, now, p);
    UnmovedSteady(start.b, price, 0);
  }

  lemma LogGrows(start: Snapshot, visits: seq<Visit>, v: Visit, m: Snapshot, m': Snapshot,
                 touched: seq<nat>, touched': seq<nat>, sticky: seq<nat>, sticky': seq<nat>,
                 price: nat, hMin: nat, hMax: nat, now: nat, p: Params)
    requires LogSoFar(start, visits, m, touched, sticky, price, hMin, hMax, now, p)
    requires VisitOk(v, price, hMin, hMax, now, p) && v.held == (v.idx in sticky) && ResetsOf(visits) == NO_RESET
    requires Shows(m, v.idx, v.before) && Shows(m', v.idx, v.left)
    requires m'.ws == m.ws[v.idx := v.left.w] && m'.ps == m.ps[v.idx := v.left.p]
    requires touched' == if v.idx in touched then touched else touched + [v.idx]
    requires sticky' == if v.idx !in sticky && Holds(v, hMin, hMax, now) then sticky + [v.idx] else sticky
    requires Steady(m.b, m'.b, price, MAX_CLOSE_DUST + 1)
    ensures LogSoFar(start, visits + [v], m', touched', sticky', price, hMin, hMax, now, p)
    ensures Calls(visits + [v]) == Calls(visits) + [(v.idx, v.hint)] && ResetsOf(visits + [v]) == v.left.pending
  {
    hide Visited, Holds, VisitsOk, VisitedAre, Replays, Steady, Calls;
    ReplaysOneMore(visits, v, start, m, m');
    OneVisitMore(visits, v, touched, touched', sticky, sticky', price, hMin, hMax, now, p);
    SteadyTwice(start.b, m.b, m'.b, price, VisitDust(|visits|), MAX_CLOSE_DUST + 1,
                VisitDust(|visits| + 1));
  }

  lemma LogSays(start: Snapshot, visits: seq<Visit>, m: Snapshot, touched: seq<nat>, sticky: seq<nat>, price: nat,
                hMin: nat, hMax: nat, now: nat, p: Params)
    requires LogSoFar(start, visits, m, touched, sticky, price, hMin, hMax, now, p)
    ensures VisitsOk(visits, price, hMin, hMax, now, p)
    ensures VisitedAre(visits, touched, sticky, hMin, hMax, now)
    ensures Replays(visits, start, m)
    ensures Steady(start.b, m.b, price, VisitDust(|visits|))
  {
    hide VisitsOk, VisitedAre, Replays, Steady;
  }
}
