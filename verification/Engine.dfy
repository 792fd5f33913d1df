// The risk engine: its state and its instructions.
module Engine {
  import opened Arith
  import opened Market
  import opened Options
  import opened Sums
  import opened Book
  import opened Adl
  import opened Resets
  import opened LazyIndex
  import opened Accrual
  import opened Warmup
  import opened Ledger
  import opened Margin
  import opened SlotList
  import opened Sorting
  import opened Trading
  import opened Resolution
  import opened Limits
  import opened Touching
  import opened EngineFacts

  /** Per-instruction scratch state: scheduled resets, the admission pair, and the
      accounts touched and the accounts held to the long horizon so far. */
  class InstructionContext {
    const hMin: nat
    const hMax: nat
    var pending: Flags
    var touched: seq<nat>
    var sticky: seq<nat>

    constructor (hMin: nat, hMax: nat)
      ensures this.hMin == hMin && this.hMax == hMax
      ensures pending == NO_RESET && touched == [] && sticky == []
    {
      this.hMin, this.hMax := hMin, hMax;
      pending, touched, sticky := NO_RESET, [], [];
    }

    method MarkSticky(idx: nat) returns (ok: bool)
      modifies this`sticky
      ensures ok <==> idx in old(sticky) || |old(sticky)| < MAX_TOUCHED_PER_INSTRUCTION
      ensures sticky == if ok && idx !in old(sticky) then old(sticky) + [idx] else old(sticky)
    {
      if idx in sticky {
        return true;
      }
      if |sticky| < MAX_TOUCHED_PER_INSTRUCTION {
        sticky := sticky + [idx];
        return true;
      }
      return false;
    }

    method AddTouched(idx: nat) returns (ok: bool)
      modifies this`touched
      ensures ok <==> idx in old(touched) || |old(touched)| < MAX_TOUCHED_PER_INSTRUCTION
      ensures touched == if ok && idx !in old(touched) then old(touched) + [idx] else old(touched)
    {
      if idx in touched {
        return true;
      }
      if |touched| < MAX_TOUCHED_PER_INSTRUCTION {
        touched := touched + [idx];
        return true;
      }
      return false;
    }
  }

  class RiskEngine {
    const params: Params
    const slots: Slots

    var totals: Totals
    var wallets: seq<Wallet>
    var sides: Sides
    var positions: seq<Position>
    var marketMode: MarketMode
    var currentSlot: nat
    var lastMarketSlot: nat
    var lastOraclePrice: nat
    var fundPxLast: nat
    var resolvedPrice: nat
    var resolvedLivePrice: nat
    var resolvedSlot: nat
    var kTerminalLong: int
    var kTerminalShort: int
    var payout: Option<Ratio>

    // ---- the invariant, concern by concern ----

    ghost predicate LedgerOk()
      reads this`totals, this`wallets, this`marketMode, this`currentSlot
    {
      LedgerInv(totals, wallets, marketMode, currentSlot, params)
    }

    ghost predicate BookOk(pending: Flags)
      reads this`positions, this`sides
    {
      BookInv(positions, sides, pending)
    }

    ghost predicate ClockOk()
      reads this`currentSlot, this`lastMarketSlot, this`lastOraclePrice, this`fundPxLast
    {
      && lastMarketSlot <= currentSlot <= U64_MAX
      && 1 <= lastOraclePrice <= MAX_ORACLE_PRICE
      && 1 <= fundPxLast <= MAX_ORACLE_PRICE
    }

    /** The tables have one row per slot, and the rows of free slots are blank. */
    ghost predicate SlotsOk()
      reads this`wallets, this`positions, slots, slots.used, slots.nextFree, slots.prevFree
    {
      && slots.Valid()
      && slots.maxAccounts == params.maxAccounts
      && |wallets| == |positions| == slots.capacity
      && forall i :: 0 <= i < |wallets| && !slots.used[i] ==> wallets[i] == EMPTY_WALLET && positions[i] == FLAT
    }

    /** A resolved market: no open interest, nothing stored on an open side, and once
        the payout ratio is locked the shares still to be paid fit in the residual. */
    ghost predicate TerminalOk()
      reads this`marketMode, this`sides, this`totals, this`wallets, this`payout, this`currentSlot, this`resolvedSlot,
            this`kTerminalLong, this`kTerminalShort
    {
      && (marketMode.Live? ==> payout.None?)
      && (marketMode.Resolved? ==> currentSlot == resolvedSlot && TerminalSides(sides)
                                   && IsI128(kTerminalLong) && IsI128(kTerminalShort))
      && (payout.Some? ==> PayoutOk(payout.value, totals, wallets, sides))
    }

    ghost predicate Valid()
      reads this, slots, slots.used, slots.nextFree, slots.prevFree
    {
      && ValidParams(params, slots.capacity)
      && SlotsOk() && LedgerOk() && BookOk(NO_RESET) && ClockOk() && TerminalOk()
      && (marketMode.Live? ==> Tidy(sides))
    }

    /** The invariant without the slots, which only a few instructions touch. */
    ghost predicate LiveOk()
      reads this`totals, this`wallets, this`positions, this`sides, this`marketMode, this`currentSlot,
            this`lastMarketSlot,
            this`lastOraclePrice, this`fundPxLast
    {
      && LedgerOk() && BookOk(NO_RESET) && ClockOk() && marketMode.Live? && Tidy(sides)
      && |wallets| == |positions| && ValidParams(params, |wallets|)
    }

    /** No account but the `idx`-th has changed. */
    twostate predicate OnlyRow(idx: nat)
      reads this`wallets, this`positions
    {
      && |wallets| == |old(wallets)| && |positions| == |old(positions)|
      && forall j :: 0 <= j < |wallets| && j < |positions| && j != idx ==>
           wallets[j] == old(wallets)[j] && positions[j] == old(positions)[j]
    }

    /** Changing only the row of a slot in use keeps the tables in step with the slots. */
    twostate lemma SlotsKept(idx: nat)
      requires old(SlotsOk()) && old(allocated(slots)) && idx < |old(wallets)| && slots.used[idx]
      requires unchanged(slots) && unchanged(slots.used) && unchanged(slots.nextFree) && unchanged(slots.prevFree)
      requires OnlyRow(idx)
      ensures SlotsOk()
    {
    }

    /** No account outside `rows` has changed. */
    twostate predicate OnlyRows(rows: set<nat>)
      reads this`wallets, this`positions
    {
      && |wallets| == |old(wallets)| && |positions| == |old(positions)|
      && forall j :: 0 <= j < |wallets| && j < |positions| && j !in rows ==>
           wallets[j] == old(wallets)[j] && positions[j] == old(positions)[j]
    }

    twostate lemma SlotsKeptIn(rows: set<nat>)
      requires old(SlotsOk()) && old(allocated(slots))
      requires forall idx :: idx in rows ==> idx < slots.used.Length && slots.used[idx]
      requires unchanged(slots) && unchanged(slots.used) && unchanged(slots.nextFree) && unchanged(slots.prevFree)
      requires OnlyRows(rows)
      ensures SlotsOk()
    {
    }

    /** The same when the slot itself has just been taken or given back. */
    twostate lemma SlotsMoved(idx: nat)
      requires old(SlotsOk()) && old(allocated(slots)) && idx < |old(wallets)|
      requires slots.Valid() && slots.used[..] == old(slots.used[..])[idx := slots.used[idx]]
      requires OnlyRow(idx)
      requires !slots.used[idx] ==> wallets[idx] == EMPTY_WALLET && positions[idx] == FLAT
      ensures SlotsOk()
    {
      assert forall j :: 0 <= j < slots.capacity ==> slots.used[j] == slots.used[..][j];
      assert forall j :: 0 <= j < slots.capacity ==> old(slots.used[j]) == old(slots.used[..])[j];
    }

    /** What has happened so far to the dust bounds, the epochs and the room in K. */
    twostate predicate SidesWithin(n: nat, m: nat)
      reads this`sides, this`lastOraclePrice
    {
      KeptWithin(old(sides), old(lastOraclePrice), sides, lastOraclePrice, n, m)
    }

    predicate IsUsed(idx: nat)
      requires slots.used.Length == slots.capacity
      reads slots, slots.used
    {
      slots.IsUsed(idx)
    }

    /** An account and what it moves, as they are now. */
    function StandingOf(i: nat, pending: Flags): Standing
      requires i < |wallets| == |positions|
      reads this`wallets, this`positions, this`sides, this`totals
    {
      Standing(positions[i], wallets[i], sides, totals, pending)
    }

    function SnapshotNow(): Snapshot
      reads this`wallets, this`positions, this`sides, this`totals
    {
      Snapshot(wallets, positions, sides, totals)
    }

    /** assert_public_postconditions, the last step of every public instruction; neither
        of its checks can fail. */
    method AssertPublicPostconditions()
      requires LedgerOk() && BookOk(NO_RESET)
      ensures totals.cTot + totals.insurance <= totals.vault <= MAX_VAULT_TVL
      ensures sides.long.oi == sides.short.oi <= MAX_OI_SIDE_Q
    {
      hide RowsInv, WalletOk;
      if totals.vault < totals.cTot + totals.insurance {
        assert false;
      }
      if sides.long.oi != sides.short.oi {
        assert false;
      }
    }

    /** init_in_place. */
    constructor (params: Params, capacity: nat, initSlot: nat, initPrice: nat)
      requires ValidParams(params, capacity)
      requires 1 <= initPrice <= MAX_ORACLE_PRICE && initSlot <= U64_MAX
      ensures Valid() && fresh(slots) && fresh(slots.used) && fresh(slots.nextFree) && fresh(slots.prevFree)
      ensures this.params == params && slots.capacity == capacity && marketMode.Live?
      ensures slots.numUsed == 0 && forall i :: 0 <= i < capacity ==> !slots.used[i]
      ensures totals == Totals(0, 0, 0, 0, 0, 0) && sides == Sides(NEW_SIDE, NEW_SIDE) && lastOraclePrice == initPrice
    {
      this.params := params;
      slots := new Slots(capacity, params.maxAccounts);
      totals := Totals(0, 0, 0, 0, 0, 0);
      wallets := seq(capacity, _ => EMPTY_WALLET);
      positions := seq(capacity, _ => FLAT);
      sides := Sides(NEW_SIDE, NEW_SIDE);
      marketMode := Live;
      currentSlot, lastMarketSlot := initSlot, initSlot;
      lastOraclePrice, fundPxLast := initPrice, initPrice;
      resolvedPrice, resolvedLivePrice, resolvedSlot := 0, 0, 0;
      kTerminalLong, kTerminalShort := 0, 0;
      payout := None;
      new;
      hide LedgerInv, BookInv;
      EmptyLedger(wallets, initSlot, params);
      EmptyBook(positions);
    }

    // ---- one wallet at a time ----

    /** set_capital; the checked sums cannot overflow below the vault. */
    method SetCapital(i: nat, capital: nat)
      requires LedgerOk() && i < |wallets|
      requires totals.cTot - wallets[i].capital + capital + totals.insurance <= totals.vault
      modifies this`totals, this`wallets
      ensures LedgerOk()
      ensures wallets == old(wallets)[i := old(wallets)[i].(capital := capital)]
      ensures old(wallets)[i].capital <= old(totals).cTot
      ensures totals == old(totals).(cTot := old(totals).cTot + capital - old(wallets)[i].capital)
    {
      hide ReserveOk;
      var w := wallets[i];
      RowWithinTotals(totals, wallets, marketMode, currentSlot, params, i);
      ghost var t := totals;
      if capital >= w.capital {
        totals := totals.(cTot := totals.cTot + (capital - w.capital));
      } else {
        if w.capital - capital > totals.cTot {
          assert false;
        }
        totals := totals.(cTot := totals.cTot - (w.capital - capital));
      }
      CashMoveKeepsLedger(t, wallets, marketMode, currentSlot, params, i, w.(capital := capital), totals);
      wallets := wallets[i := w.(capital := capital)];
    }

    /** set_pnl_with_reserve when positive PnL does not rise. */
    method LowerPnl(i: nat, newPnl: int)
      requires LedgerOk() && i < |wallets|
      requires Abs(newPnl) <= I128_MAX && Pos(newPnl) <= Pos(wallets[i].pnl)
      requires marketMode.Resolved? ==> wallets[i].reserve == NO_RESERVE
      modifies this`totals, this`wallets
      ensures LedgerOk()
      ensures SchedLeft(old(wallets)[i].reserve) + PendLeft(old(wallets)[i].reserve) == old(wallets)[i].reserve.total
      ensures wallets == old(wallets)[i := PnlMoved(old(wallets)[i], newPnl, 0, currentSlot)]
      ensures totals == old(totals).(pnlPosTot := totals.pnlPosTot, pnlMaturedPosTot := totals.pnlMaturedPosTot,
                                     negPnlCount := totals.negPnlCount)
      ensures totals.pnlPosTot == old(totals).pnlPosTot - Pos(old(wallets)[i].pnl) + Pos(newPnl)
      // the reserve goes first, the pending bucket of it before the scheduled one
      ensures var w := old(wallets)[i];
              NewestTaken(w.reserve, wallets[i].reserve, Min(Pos(w.pnl) - Pos(newPnl), w.reserve.total))
    {
      hide LedgerInv, AfterLoss, ReserveOk, ReserveShape, NewestTaken;
      AfterLossTaken(totals, wallets, marketMode, currentSlot, params, i, newPnl);
      var w := wallets[i];
      Intact(totals, wallets, marketMode, currentSlot, params, i);
      if w.reserve.total > Pos(w.pnl) || (marketMode.Resolved? && w.reserve.total != 0) {
        assert false;
      }
      FallKeepsLedger(totals, wallets, marketMode, currentSlot, params, i, newPnl);
      var posLoss := Pos(w.pnl) - Pos(newPnl);
      totals := totals.(pnlPosTot := totals.pnlPosTot - posLoss);
      var reserve := w.reserve;
      var reserveLoss := Min(posLoss, w.reserve.total);
      BucketsHold(w, marketMode, currentSlot, params) by {
        RowWithinTotals(old(totals), wallets, marketMode, currentSlot, params, i);
      }
      if marketMode.Live? {
        if reserveLoss > 0 {
          if !ReserveShape(reserve, params.hMin, params.hMax) {
            assert false;
          }
          reserve := TakeNewestFirst(reserve, reserveLoss);
        }
        if posLoss - reserveLoss > totals.pnlMaturedPosTot {
          assert false;
        }
        totals := totals.(pnlMaturedPosTot := totals.pnlMaturedPosTot - (posLoss - reserveLoss));
      } else {
        if posLoss > totals.pnlMaturedPosTot {
          assert false;
        }
        totals := totals.(pnlMaturedPosTot := totals.pnlMaturedPosTot - posLoss);
      }
      if w.pnl < 0 <= newPnl {
        if totals.negPnlCount == 0 {
          assert false;
        }
        totals := totals.(negPnlCount := totals.negPnlCount - 1);
      } else if newPnl < 0 <= w.pnl {
        if totals.negPnlCount + 1 > U64_MAX {
          assert false;
        }
        totals := totals.(negPnlCount := totals.negPnlCount + 1);
      }
      wallets := wallets[i := w.(pnl := newPnl, reserve := reserve)];
      Intact(totals, wallets, marketMode, currentSlot, params, i);
      if Pos(newPnl) == 0 && marketMode.Live? && reserve != NO_RESERVE {
        assert false;
      }
      if totals.pnlMaturedPosTot > totals.pnlPosTot || reserve.total > Pos(newPnl) {
        assert false;
      }
    }

    /** admit_fresh_reserve_h_lock: the horizon of fresh profit, and the account held to
        the long one from here on if it needs it. */
    method AdmitFresh(i: nat, gain: nat, ctx: InstructionContext) returns (r: Result<nat>)
      requires LedgerOk()
      modifies ctx`sticky
      ensures r.Err? ==> r.error == Overflow
      ensures r.Err? <==>
                && i !in old(ctx.sticky) && |old(ctx.sticky)| >= MAX_TOUCHED_PER_INSTRUCTION
                && (ctx.hMin == ctx.hMax
                    || totals.cTot + totals.insurance + totals.pnlMaturedPosTot + gain > totals.vault)
      ensures r.Ok? ==> r.value == AdmittedHorizon(totals, gain, i in old(ctx.sticky), ctx.hMin, ctx.hMax)
      // the short horizon exactly while matured claims and the gain stay covered
      ensures r.Ok? ==>
                var covered := totals.cTot + totals.insurance + totals.pnlMaturedPosTot + gain <= totals.vault;
                r.value == if i !in old(ctx.sticky) && covered then ctx.hMin else ctx.hMax
      ensures r.Ok? ==>
                ctx.sticky == if i !in old(ctx.sticky) && r.value == ctx.hMax then old(ctx.sticky) + [i]
                    else old(ctx.sticky)
    {
      hide LedgerInv;
      if i in ctx.sticky {
        return Ok(ctx.hMax);
      }
      Conserved(totals, wallets, marketMode, currentSlot, params);
      if totals.vault < totals.cTot + totals.insurance {
        assert false;
      }
      var residual := totals.vault - (totals.cTot + totals.insurance);
      var h := if totals.pnlMaturedPosTot + gain <= residual then ctx.hMin else ctx.hMax;
      if h == ctx.hMax {
        var marked := ctx.MarkSticky(i);
        if !marked {
          return Err(Overflow);
        }
      }
      r := Ok(h);
    }

    /** set_pnl_with_reserve in a live market: a rise is admitted at the short horizon
        only while every matured claim stays covered, and a horizon of zero matures
        at once. */
    method SetPnlAdmitted(i: nat, newPnl: int, ctx: InstructionContext) returns (r: Result<()>)
      requires LedgerOk() && i < |wallets| && marketMode.Live?
      requires newPnl <= I128_MAX && I128_MIN <= newPnl
      requires AdmissionPairOk(ctx.hMin, ctx.hMax, params)
      modifies this`totals, this`wallets, ctx`sticky
      ensures r.Err? ==> r.error == Overflow
      ensures r.Err? <==>
                PnlRefused(old(wallets)[i], old(totals), newPnl, i in old(ctx.sticky),
                           |old(ctx.sticky)| >= MAX_TOUCHED_PER_INSTRUCTION, ctx.hMin, ctx.hMax, currentSlot)
      ensures r.Ok? ==> LedgerOk()
      ensures r.Ok? ==>
                SchedLeft(old(wallets)[i].reserve) + PendLeft(old(wallets)[i].reserve) == old(wallets)[i].reserve.total
      ensures r.Ok? ==>
                wallets == old(wallets)[i := AdmittedMove(old(wallets)[i], old(totals), newPnl, i in old(ctx.sticky),
                    ctx.hMin, ctx.hMax, currentSlot)]
      ensures r.Ok? ==>
                totals == old(totals).(pnlPosTot := totals.pnlPosTot, pnlMaturedPosTot := totals.pnlMaturedPosTot,
                                               negPnlCount := totals.negPnlCount)
      ensures r.Ok? ==> totals.pnlMaturedPosTot <= Max(old(totals).pnlMaturedPosTot, Residual(totals))
      ensures r.Ok? ==>
                ctx.sticky == if i !in old(ctx.sticky)
                                 && BecomesHeld(old(wallets)[i], old(totals), newPnl, ctx.hMin, ctx.hMax)
                              then old(ctx.sticky) + [i] else old(ctx.sticky)
    {
      hide NewestTaken, LedgerInv, AfterLoss, PnlMoved, Appended, Promoted, ReserveShape, AdmittedHorizon,
        AnchorOverflows;
      if newPnl == I128_MIN {
        return Err(Overflow);
      }
      var w := wallets[i];
      Intact(totals, wallets, marketMode, currentSlot, params, i);
      if w.reserve.total > Pos(w.pnl) {
        assert false;
      }
      var oldPos, newPos := Pos(w.pnl), Pos(newPnl);
      if newPos > MAX_ACCOUNT_POSITIVE_PNL {
        return Err(Overflow);
      }
      if newPos <= oldPos {
        LowerPnl(i, newPnl);
        MaturedOnlyFalls(old(totals), totals, old(wallets), wallets, currentSlot, params, i, newPnl);
        return Ok(());
      }
      var gain := newPos - oldPos;
      if totals.pnlPosTot + gain > MAX_PNL_POS_TOT {
        return Err(Overflow);
      }
      var admitted := AdmitFresh(i, gain, ctx);
      if admitted.Err? {
        return Err(Overflow);
      }
      var h := admitted.value;
      AdmittedOk(totals, gain, i in old(ctx.sticky), ctx.hMin, ctx.hMax, params);
      RiseKeepsLedger(totals, wallets, currentSlot, params, i, newPnl, h);
      var reserve := w.reserve;
      if h != 0 {
        if !ReserveShape(reserve, params.hMin, params.hMax) {
          assert false;
        }
        var q := AppendOrRoute(reserve, gain, currentSlot, h);
        if q.Err? {
          return Err(Overflow);
        }
        reserve := q.value;
      }
      totals := totals.(pnlPosTot := totals.pnlPosTot + gain);
      if w.pnl < 0 {
        if totals.negPnlCount == 0 {
          assert false;
        }
        totals := totals.(negPnlCount := totals.negPnlCount - 1);
      }
      if h == 0 {
        totals := totals.(pnlMaturedPosTot := totals.pnlMaturedPosTot + gain);
      }
      wallets := wallets[i := w.(pnl := newPnl, reserve := reserve)];
      RisenWallet(w, newPnl, h, currentSlot);
      Intact(totals, wallets, marketMode, currentSlot, params, i);
      if totals.pnlMaturedPosTot > totals.pnlPosTot || reserve.total > newPos {
        assert false;
      }
      r := Ok(());
    }

    /** consume_released_pnl. */
    method ConsumeReleased(i: nat, x: nat)
      requires LedgerOk() && i < |wallets| && marketMode.Live?
      requires 0 < x <= Released(wallets[i])
      modifies this`totals, this`wallets
      ensures LedgerOk()
      ensures wallets == old(wallets)[i := old(wallets)[i].(pnl := old(wallets)[i].pnl - x)]
      ensures x <= old(totals).pnlMaturedPosTot <= old(totals).pnlPosTot
      ensures totals == old(totals).(pnlPosTot := old(totals).pnlPosTot - x,
                pnlMaturedPosTot := old(totals).pnlMaturedPosTot - x)
    {
      hide LedgerInv;
      ConsumeKeepsLedger(totals, wallets, currentSlot, params, i, x);
      Intact(totals, wallets, marketMode, currentSlot, params, i);
      var oldPos, reserved := Pos(wallets[i].pnl), wallets[i].reserve.total;
      if x == 0 || reserved > oldPos || x > oldPos - reserved || oldPos - x < reserved {
        assert false;
      }
      if x > totals.pnlPosTot || x > totals.pnlMaturedPosTot || totals.pnlMaturedPosTot > totals.pnlPosTot {
        assert false;
      }
      totals := totals.(pnlPosTot := totals.pnlPosTot - x);
      totals := totals.(pnlMaturedPosTot := totals.pnlMaturedPosTot - x);
      wallets := wallets[i := wallets[i].(pnl := wallets[i].pnl - x)];
    }

    /** settle_losses: negative PnL is paid from capital as far as it goes. */
    method SettleLosses(i: nat)
      requires LedgerOk() && i < |wallets|
      requires marketMode.Resolved? ==> wallets[i].reserve == NO_RESERVE
      modifies this`totals, this`wallets
      ensures LedgerOk()
      ensures wallets == old(wallets)[i := Settled(old(wallets)[i])]
      ensures LossPaid(old(wallets)[i]) <= old(totals).cTot
      ensures totals == old(totals).(cTot := old(totals).cTot - LossPaid(old(wallets)[i]),
                                     pnlPosTot := totals.pnlPosTot, pnlMaturedPosTot := totals.pnlMaturedPosTot,
                                     negPnlCount := totals.negPnlCount)
      ensures totals.pnlPosTot == old(totals).pnlPosTot
      ensures old(wallets)[i].pnl >= 0 ==> totals == old(totals) && wallets == old(wallets)
      ensures LossesSettled(old(wallets)[i], wallets[i])
    {
      hide NewestTaken, LedgerInv, WalletOk, PnlMoved, Released, LossesSettled;
      var w := wallets[i];
      SettledMeans(w);
      RowWithinTotals(totals, wallets, marketMode, currentSlot, params, i);
      if w.pnl >= 0 {
        assert wallets[i := Settled(w)] == wallets;
        return;
      }
      NothingReserved(w, marketMode, currentSlot, params);
      Conserved(totals, wallets, marketMode, currentSlot, params);
      if w.pnl == I128_MIN {
        assert false;
      }
      var pay := Min(-w.pnl, w.capital);
      if pay > 0 {
        if !IsI128(w.pnl + pay) || w.pnl + pay == I128_MIN {
          assert false;
        }
        SetCapital(i, w.capital - pay);
        LowerPnl(i, w.pnl + pay);
        LossLeavesReserve(w.(capital := w.capital - pay), w.pnl + pay, currentSlot);
      } else {
        assert wallets[i := Settled(w)] == wallets;
      }
    }

    /** use_insurance_buffer: the fund pays a loss down to its floor. */
    method UseInsuranceBuffer(loss: nat) returns (rest: nat)
      requires LedgerOk()
      modifies this`totals
      ensures LedgerOk()
      ensures var pay := InsurancePays(old(totals).insurance, loss, params.insuranceFloor);
              rest == loss - pay && totals == old(totals).(insurance := old(totals).insurance - pay)
      ensures FundPays(old(totals).insurance, totals.insurance, loss, rest, params.insuranceFloor)
    {
      hide WalletOk;
      var available := Max(totals.insurance - params.insuranceFloor, 0);
      var pay := Min(loss, available);
      if pay > 0 {
        totals := totals.(insurance := totals.insurance - pay);
      }
      rest := loss - pay;
    }

    /** resolve_flat_negative: a flat account's loss is absorbed by the insurance fund,
        and what the fund does not cover is left to the haircut. */
    method ResolveFlatNegative(i: nat)
      requires LedgerOk() && i < |wallets| == |positions|
      requires marketMode.Resolved? ==> wallets[i].reserve == NO_RESERVE
      modifies this`totals, this`wallets
      ensures LedgerOk()
      ensures var w := old(wallets)[i];
              var absorbed := if EffectivePos(positions[i], sides) == 0 && w.pnl < 0 then -w.pnl else 0;
              && wallets == old(wallets)[i := if absorbed > 0 then w.(pnl := 0) else w]
              && totals == old(totals).(insurance := old(totals).insurance
                   - InsurancePays(old(totals).insurance, absorbed, params.insuranceFloor),
                                        pnlMaturedPosTot := totals.pnlMaturedPosTot, negPnlCount := totals.negPnlCount)
      ensures old(wallets)[i].pnl >= 0 ==> totals == old(totals)
    {
      hide NewestTaken, LedgerInv, WalletOk, PnlMoved, EffectivePos;
      var w := wallets[i];
      if EffectivePos(positions[i], sides) != 0 || w.pnl >= 0 {
        assert wallets[i := w] == wallets;
        return;
      }
      RowWithinTotals(totals, wallets, marketMode, currentSlot, params, i);
      NothingReserved(w, marketMode, currentSlot, params);
      if w.pnl == I128_MIN {
        assert false;
      }
      var _ := UseInsuranceBuffer(-w.pnl);
      LowerPnl(i, 0);
      LossLeavesReserve(w, 0, currentSlot);
    }

    /** fee_debt_sweep: fee debt is paid into the insurance fund from capital. */
    method FeeDebtSweep(i: nat)
      requires LedgerOk() && i < |wallets|
      modifies this`totals, this`wallets
      ensures LedgerOk()
      ensures wallets == old(wallets)[i := Swept(old(wallets)[i])]
      ensures var pay := SweptFee(old(wallets)[i]);
              && pay <= old(totals).cTot
              && totals == old(totals).(cTot := old(totals).cTot - pay, insurance := old(totals).insurance + pay)
      ensures DebtSwept(old(wallets)[i], wallets[i])
      ensures totals.insurance - old(totals).insurance == wallets[i].feeCredits - old(wallets)[i].feeCredits
    {
      hide LedgerInv;
      var w := wallets[i];
      RowWithinTotals(totals, wallets, marketMode, currentSlot, params, i);
      Conserved(totals, wallets, marketMode, currentSlot, params);
      var pay := Min(FeeDebt(w.feeCredits), w.capital);
      ghost var t' := totals.(cTot := totals.cTot - pay, insurance := totals.insurance + pay);
      CashMoveKeepsLedger(totals, wallets, marketMode, currentSlot, params, i, Swept(w), t');
      if pay > 0 {
        if !IsI128(w.feeCredits + pay) {
          assert false;
        }
        totals := totals.(cTot := totals.cTot - pay);
        wallets := wallets[i := w.(capital := w.capital - pay)];
        wallets := wallets[i := wallets[i].(feeCredits := w.feeCredits + pay)];
        totals := totals.(insurance := totals.insurance + pay);
      }
      assert wallets == old(wallets)[i := Swept(w)];
    }

    /** charge_fee_to_insurance: capital first, then fee debt down to the i128 limit;
        the rest is dropped.  Returns what the fee took from the account's equity. */
    method ChargeFee(i: nat, fee: nat) returns (r: Result<nat>)
      requires LedgerOk() && i < |wallets|
      modifies this`totals, this`wallets
      ensures LedgerOk()
      ensures r.Err? <==> fee > MAX_PROTOCOL_FEE_ABS
      ensures r.Err? ==> r.error == Overflow && wallets == old(wallets) && totals == old(totals)
      ensures r.Ok? ==> r.value == FeePaid(old(wallets)[i], fee) + FeeOwed(old(wallets)[i], fee)
      ensures r.Ok? ==> wallets == old(wallets)[i := Charged(old(wallets)[i], fee)]
      ensures r.Ok? ==>
                var paid := FeePaid(old(wallets)[i], fee);
                && paid <= old(totals).cTot
                && totals == old(totals).(cTot := old(totals).cTot - paid, insurance := old(totals).insurance + paid)
      ensures r.Ok? ==> FeeTaken(old(wallets)[i], wallets[i], fee, totals.insurance - old(totals).insurance)
    {
      hide LedgerInv;
      if fee > MAX_PROTOCOL_FEE_ABS {
        return Err(Overflow);
      }
      var w := wallets[i];
      RowWithinTotals(totals, wallets, marketMode, currentSlot, params, i);
      Conserved(totals, wallets, marketMode, currentSlot, params);
      var paid := Min(fee, w.capital);
      ghost var t' := totals.(cTot := totals.cTot - paid, insurance := totals.insurance + paid);
      CashMoveKeepsLedger(totals, wallets, marketMode, currentSlot, params, i, Charged(w, fee), t');
      if paid > 0 {
        totals := totals.(cTot := totals.cTot - paid);
        wallets := wallets[i := w.(capital := w.capital - paid)];
        totals := totals.(insurance := totals.insurance + paid);
      }
      var shortfall := fee - paid;
      var owed := 0;
      if shortfall > 0 {
        var headroom := Pos(w.feeCredits + I128_MAX);
        owed := Min(shortfall, headroom);
        if owed > 0 {
          wallets := wallets[i := wallets[i].(feeCredits := w.feeCredits - owed)];
        }
      }
      assert wallets == old(wallets)[i := Charged(w, fee)];
      r := Ok(paid + owed);
    }

    /** admit_outstanding_reserve_on_touch: the whole reserve matures at once when every
        matured claim would still be covered. */
    method AdmitOutstandingReserve(i: nat)
      requires LedgerOk() && i < |wallets| && marketMode.Live?
      modifies this`totals, this`wallets
      ensures LedgerOk()
      ensures var w := old(wallets)[i];
              if w.reserve.total != 0 && old(totals).pnlMaturedPosTot + w.reserve.total <= Residual(old(totals)) then
                && wallets == old(wallets)[i := w.(reserve := NO_RESERVE)]
                && totals == old(totals).(pnlMaturedPosTot := old(totals).pnlMaturedPosTot + w.reserve.total)
                && totals.pnlMaturedPosTot <= Residual(totals)
              else wallets == old(wallets) && totals == old(totals)
    {
      hide LedgerInv, ReserveOk;
      var w := wallets[i];
      RowWithinTotals(totals, wallets, marketMode, currentSlot, params, i);
      ShapeOf(w.reserve, currentSlot, params.hMin, params.hMax);
      if !ReserveShape(w.reserve, params.hMin, params.hMax) || w.reserve.total > Pos(w.pnl) {
        assert false;
      }
      var reserveTotal := SchedLeft(w.reserve) + PendLeft(w.reserve);
      if reserveTotal == 0 {
        return;
      }
      Conserved(totals, wallets, marketMode, currentSlot, params);
      if totals.vault < totals.cTot + totals.insurance {
        assert false;
      }
      var residual := totals.vault - (totals.cTot + totals.insurance);
      if totals.pnlMaturedPosTot + reserveTotal > residual {
        return;
      }
      NothingLeftOk(currentSlot, params.hMin, params.hMax);
      ReserveMoveKeepsLedger(totals, wallets, currentSlot, params, i, NO_RESERVE);
      if totals.pnlMaturedPosTot + reserveTotal > totals.pnlPosTot {
        assert false;
      }
      totals := totals.(pnlMaturedPosTot := totals.pnlMaturedPosTot + reserveTotal);
      wallets := wallets[i := w.(reserve := NO_RESERVE)];
    }

    /** advance_profit_warmup. */
    method AdvanceProfitWarmup(i: nat) returns (r: Result<()>)
      requires LedgerOk() && i < |wallets| && marketMode.Live?
      modifies this`totals, this`wallets
      ensures LedgerOk()
      ensures Advanceable(old(wallets)[i].reserve, currentSlot)
                && PendLeft(old(wallets)[i].reserve) <= old(wallets)[i].reserve.total
      ensures r.Err? ==> r.error == Panicked && wallets == old(wallets) && totals == old(totals)
      ensures r.Err? <==>
                var q := old(wallets)[i].reserve;
                q.total != 0 && q.sched.Some? && VestingPanics(q.sched.value, currentSlot)
      ensures r.Ok? ==>
                var w := old(wallets)[i];
                var q := Advanced(w.reserve, currentSlot);
                && q.total <= w.reserve.total
                && wallets == old(wallets)[i := w.(reserve := q)]
                && totals == old(totals).(pnlMaturedPosTot := old(totals).pnlMaturedPosTot
                     + (w.reserve.total - q.total))
      ensures r.Ok? ==> VestsTo(old(wallets)[i].reserve, wallets[i].reserve, currentSlot)
      // alone and without losses, a bucket gives up its linear share, and all of it at the end
      ensures r.Ok? && old(wallets)[i].reserve.sched.Some? && old(wallets)[i].reserve.pending.None? ==>
                var s := old(wallets)[i].reserve.sched.value;
                var gone, elapsed := s.anchor - wallets[i].reserve.total, currentSlot - s.start;
                s.remaining + s.released == s.anchor ==>
                  && (elapsed < s.horizon ==> gone * s.horizon <= s.anchor * elapsed < (gone + 1) * s.horizon)
                  && (elapsed >= s.horizon ==> wallets[i].reserve.total == 0)
    {
      hide LedgerInv, ReserveOk, Advanced, Advanceable, VestingPanics, VestsTo;
      var w := wallets[i];
      RowWithinTotals(totals, wallets, marketMode, currentSlot, params, i);
      ShapeOf(w.reserve, currentSlot, params.hMin, params.hMax);
      if !ReserveShape(w.reserve, params.hMin, params.hMax) || w.reserve.total > Pos(w.pnl) {
        assert false;
      }
      AdvancedOk(w.reserve, currentSlot, params.hMin, params.hMax);
      var q, released := Advance(w.reserve, currentSlot);
      if q.Err? {
        return Err(Panicked);
      }
      ReserveMoveKeepsLedger(totals, wallets, currentSlot, params, i, q.value);
      if released > 0 {
        totals := totals.(pnlMaturedPosTot := totals.pnlMaturedPosTot + released);
      }
      wallets := wallets[i := w.(reserve := q.value)];
      if totals.pnlMaturedPosTot > totals.pnlPosTot {
        assert false;
      }
      if w.reserve.sched.Some? && w.reserve.pending.None?
         && w.reserve.sched.value.remaining + w.reserve.sched.value.released == w.reserve.sched.value.anchor {
        BucketStarted(w.reserve, currentSlot, params.hMin, params.hMax);
        UntouchedBucket(w.reserve, q.value, currentSlot);
      }
      r := Ok(());
    }

    // ---- one position at a time ----

    /** Settles the `i`-th row of the book: its snapshots are refreshed, or it is
        closed.  Settling a stale row takes it off its side's stale count. */
    method SettlePosition(i: nat) returns (r: Result<()>)
      requires BookOk(NO_RESET) && i < |positions|
      modifies this`positions, this`sides
      ensures r.Err? ==> r.error == Overflow && old(positions)[i].basis != 0 && !Stale(old(positions)[i], old(sides))
      ensures r.Err? <==> DustFull(old(positions)[i], old(sides))
      ensures r.Ok? ==> BookOk(NO_RESET)
      ensures r.Ok? ==> positions == old(positions)[i := SettledRow(old(positions)[i], old(sides))]
      ensures r.Ok? ==> sides == SettledSides(old(positions)[i], old(sides))
      // a current row of at least one unit takes the snapshots of its side; any other goes
      ensures r.Ok? && old(positions)[i].basis != 0 ==>
                var p := old(positions)[i];
                var s, s' := old(sides).Get(SideOf(p)), sides.Get(SideOf(p));
                && i < |positions|
                && if p.epochSnap == s.epoch && Abs(p.basis) * s.a >= p.aBasis
                   then positions[i] == p.(kSnap := s.k, fSnap := s.f) && s' == s
                   else
                     && positions[i] == FLAT && s'.stored == s.stored - 1
                     && s'.dust == (if p.epochSnap == s.epoch then s.dust + 1 else s.dust)
                     && s'.stale == (if p.epochSnap == s.epoch then s.stale else s.stale - 1)
    {
      hide BookInv, EffAbs;
      var p := positions[i];
      SettleKeepsBook(positions, sides, i);
      TruncatedToNothing(p, sides);
      if p.basis == 0 {
        assert positions[i := p] == positions;
        return Ok(());
      }
      var side := SideOf(p);
      var s := sides.Get(side);
      if p.epochSnap == s.epoch {
        if EffAbs(p, s.a) == 0 {
          if s.dust + 1 > U128_MAX {
            return Err(Overflow);
          }
          s := s.(dust := s.dust + 1);
          if s.stored == 0 {
            assert false;
          }
          s := s.(stored := s.stored - 1);
          positions := positions[i := FLAT];
        } else {
          positions := positions[i := p.(kSnap := s.k)];
          positions := positions[i := positions[i].(fSnap := s.f)];
        }
      } else {
        if s.stored == 0 || s.stale == 0 {
          assert false;
        }
        s := s.(stored := s.stored - 1);
        s := s.(stale := s.stale - 1);
        positions := positions[i := FLAT];
      }
      sides := sides.With(side, s);
      assert positions == old(positions)[i := SettledRow(p, old(sides))];
      r := Ok(());
    }

    /** attach_effective_position, on an account whose old row is current. */
    method AttachEffectivePosition(i: nat, q: int) returns (r: Result<()>)
      requires i < |positions| && !Stale(positions[i], sides)
      requires OnSide(positions[i], Long) ==> sides.long.stored > 0
      requires OnSide(positions[i], Short) ==> sides.short.stored > 0
      requires sides.long.stored < U64_MAX && sides.short.stored < U64_MAX
      modifies this`positions, this`sides
      ensures r.Err? ==> r.error == Overflow
      ensures r.Ok? <==>
                && Abs(q) <= MAX_POSITION_ABS_Q
                && (OrphansDust(old(positions)[i], old(sides)) ==>
                     old(sides).Get(SideOf(old(positions)[i])).dust + 1 <= U128_MAX)
      ensures r.Ok? ==> positions == old(positions)[i := AttachedRow(q, old(sides))]
      ensures r.Ok? ==> sides == AttachedCounts(old(positions)[i], q, old(sides))
      // the new row starts from its side as it is; the old one leaves one unit of dust when
      // its size was truncated
      ensures r.Ok? ==>
                var p, s := old(positions)[i], if q > 0 then old(sides).long else old(sides).short;
                && i < |positions|
                && positions[i] == (if q == 0 then FLAT else Position(q, s.a, s.k, s.f, s.epoch))
                && sides.long.dust - old(sides).long.dust
                   == (if p.basis > 0 && p.aBasis != 0 && p.basis * old(sides).long.a % p.aBasis != 0 then 1 else 0)
                && sides.short.dust - old(sides).short.dust
                   == (if p.basis < 0 && p.aBasis != 0 && -p.basis * old(sides).short.a % p.aBasis != 0 then 1 else 0)
    {
      var p := positions[i];
      if p.basis != 0 {
        var side := SideOf(p);
        var s := sides.Get(side);
        if p.aBasis != 0 && (Abs(p.basis) * s.a) % p.aBasis != 0 {
          if s.dust + 1 > U128_MAX {
            return Err(Overflow);
          }
          s := s.(dust := s.dust + 1);
        }
        if s.stored == 0 {
          assert false;
        }
        sides := sides.With(side, s.(stored := s.stored - 1));
      }
      if q == 0 {
        positions := positions[i := FLAT];
      } else {
        if Abs(q) > MAX_POSITION_ABS_Q {
          return Err(Overflow);
        }
        var side := if q > 0 then Long else Short;
        var s := sides.Get(side);
        if s.stored + 1 > U64_MAX {
          assert false;
        }
        sides := sides.With(side, s.(stored := s.stored + 1));
        positions := positions[i := Position(q, s.a, s.k, s.f, s.epoch)];
      }
      r := Ok(());
    }

    // ---- the market as a whole ----

    /** Advancing the slot keeps the ledger. */
    method SetCurrentSlot(now: nat)
      requires LedgerOk() && currentSlot <= now
      modifies this`currentSlot
      ensures LedgerOk() && currentSlot == now
    {
      hide LedgerInv;
      TimeKeepsLedger(totals, wallets, marketMode, currentSlot, now, params);
      currentSlot := now;
    }

    /** What accrue_market_to checks before it computes anything. */
    predicate AccrualAllowed(now: nat, price: nat, rate: int)
      reads this`marketMode, this`currentSlot, this`lastMarketSlot, this`sides, this`lastOraclePrice
    {
      && marketMode.Live?
      && 1 <= price <= MAX_ORACLE_PRICE
      && Abs(rate) <= params.maxAbsFunding
      && currentSlot <= now && lastMarketSlot <= now
      && (|| (now == lastMarketSlot && price == lastOraclePrice)
          || rate == 0 || sides.long.oi == 0 || sides.short.oi == 0
          || now - lastMarketSlot <= params.maxAccrualDt)
    }

    /** The same, and the indices fit: exactly when the accrual succeeds. */
    predicate AccrualSucceeds(now: nat, price: nat, rate: int)
      reads this`marketMode, this`currentSlot, this`lastMarketSlot, this`sides, this`lastOraclePrice, this`fundPxLast
    {
      && AccrualAllowed(now, price, rate)
      && IndicesFit(Accrued(sides, price - lastOraclePrice, FundingNum(sides, fundPxLast, rate, now - lastMarketSlot)))
    }

    /** accrue_market_to: validate, compute on scratch values, then commit.  It
        succeeds exactly when its inputs are admissible and all four indices fit. */
    method AccrueMarketTo(now: nat, price: nat, rate: int) returns (r: Result<()>)
      requires LedgerOk() && BookOk(NO_RESET) && ClockOk() && now <= U64_MAX
      modifies this`sides, this`currentSlot, this`lastMarketSlot, this`lastOraclePrice, this`fundPxLast
      ensures LedgerOk() && BookOk(NO_RESET) && ClockOk()
      ensures r.Err? ==> r.error in {Overflow, Unauthorized}
      ensures r.Err? ==> sides == old(sides) && currentSlot == old(currentSlot) && lastMarketSlot == old(lastMarketSlot)
                         && lastOraclePrice == old(lastOraclePrice) && fundPxLast == old(fundPxLast)
      ensures var moved := Accrued(old(sides), price - old(lastOraclePrice),
                                   FundingNum(old(sides), old(fundPxLast), rate, now - old(lastMarketSlot)));
              && (r.Ok? <==> old(AccrualSucceeds(now, price, rate)))
              && (r.Ok? ==> sides == moved)
      // each side with open interest is marked by A times the price move, and between two
      // such sides longs pay shorts a positive rate, on the last funding price, per slot
      ensures r.Ok? ==>
                var long, short := old(sides).long, old(sides).short;
                var move, paid := price - old(lastOraclePrice), old(fundPxLast) * rate * (now - old(lastMarketSlot));
                && sides.long.k - long.k == (if long.oi != 0 then long.a * move else 0)
                && sides.short.k - short.k == (if short.oi != 0 then -(short.a * move) else 0)
                && sides.long.f - long.f == (if long.oi != 0 && short.oi != 0 then -(long.a * paid) else 0)
                && sides.short.f - short.f == (if long.oi != 0 && short.oi != 0 then short.a * paid else 0)
      ensures r.Ok? ==>
                && 1 <= price <= MAX_ORACLE_PRICE && Abs(rate) <= params.maxAbsFunding
                && old(currentSlot) <= now && old(lastMarketSlot) <= now
                && (rate != 0 && old(sides).long.oi != 0 && old(sides).short.oi != 0
                    && (now != old(lastMarketSlot) || price != old(lastOraclePrice)) ==>
                      now - old(lastMarketSlot) <= params.maxAccrualDt)
      ensures r.Ok? ==> currentSlot == lastMarketSlot == now && lastOraclePrice == price
      ensures r.Ok? ==>
                fundPxLast == if now == old(lastMarketSlot) && price == old(lastOraclePrice) then old(fundPxLast)
                    else price
      ensures r.Ok? ==> SidesWithin(0, 0)
    {
      hide LedgerInv, BookInv, FundedF, MarkedK, KeptWithin;
      IndicesInRange(positions, sides, NO_RESET);
      NoMove(sides.long, Long);
      NoMove(sides.short, Short);
      if !marketMode.Live? {
        return Err(Unauthorized);
      }
      if price == 0 || price > MAX_ORACLE_PRICE {
        return Err(Overflow);
      }
      if Abs(rate) > params.maxAbsFunding {
        return Err(Overflow);
      }
      if now < currentSlot || now < lastMarketSlot {
        return Err(Overflow);
      }
      OpenMultipliers(positions, sides);
      AccrualMeans(sides, price - lastOraclePrice, fundPxLast, rate, now - lastMarketSlot);
      AccruedKeeps(sides, lastOraclePrice, price, FundingNum(sides, fundPxLast, rate, now - lastMarketSlot));
      var longLive, shortLive := sides.long.oi != 0, sides.short.oi != 0;
      var dt := now - lastMarketSlot;
      if dt == 0 && lastOraclePrice == price {
        NoFunding(sides, fundPxLast, rate, dt);
        SetCurrentSlot(now);
        return Ok(());
      }
      var fundingActive := rate != 0 && longLive && shortLive;
      if fundingActive && dt > params.maxAccrualDt {
        return Err(Overflow);
      }
      var dp := price - lastOraclePrice;
      var kLong, kShort := sides.long.k, sides.short.k;
      if dp != 0 {
        if longLive {
          kLong := MarkedK(Long, sides.long, dp);
        }
        if shortLive {
          kShort := MarkedK(Short, sides.short, dp);
        }
      }
      NotMarkedWhenEmpty(Long, sides.long, dp);
      NotMarkedWhenEmpty(Short, sides.short, dp);
      if !IsI128(kLong) || !IsI128(kShort) {
        return Err(Overflow);
      }
      var fLong, fShort := sides.long.f, sides.short.f;
      if fundingActive && dt > 0 {
        var num := fundPxLast * rate * dt;
        fLong := FundedF(Long, sides.long, num);
        fShort := FundedF(Short, sides.short, num);
      } else {
        NoFunding(sides, fundPxLast, rate, dt);
      }
      if !IsI128(fLong) || !IsI128(fShort) {
        return Err(Overflow);
      }
      var b := Sides(sides.long.(k := kLong, f := fLong), sides.short.(k := kShort, f := fShort));
      MovedIndicesKeepBook(positions, sides, b, NO_RESET);
      sides := b;
      SetCurrentSlot(now);
      lastMarketSlot := now;
      lastOraclePrice := price;
      fundPxLast := price;
      r := Ok(());
    }

    /** While every side that is marked has room in K, an admissible accrual can only
        fail because F does not fit. */
    lemma OnlyFundingStopsAccrual(now: nat, price: nat, rate: int)
      requires BookOk(NO_RESET)
      requires sides.long.oi != 0 ==> Headroom(Long, sides.long, lastOraclePrice)
      requires sides.short.oi != 0 ==> Headroom(Short, sides.short, lastOraclePrice)
      ensures AccrualSucceeds(now, price, rate) <==>
                && AccrualAllowed(now, price, rate)
                && var num := FundingNum(sides, fundPxLast, rate, now - lastMarketSlot);
                   IsI128(FundedF(Long, sides.long, num)) && IsI128(FundedF(Short, sides.short, num))
    {
      hide BookInv, Headroom, FundedF, Accrued;
      IndicesInRange(positions, sides, NO_RESET);
      if AccrualAllowed(now, price, rate) {
        OnlyFundingStops(sides, lastOraclePrice, price, FundingNum(sides, fundPxLast, rate, now - lastMarketSlot));
      }
    }

    /** enqueue_adl: the liquidated side gives up `q`; the deficit `d` is paid by the
        insurance fund first, then written into the opposing side's K; and the
        opposing side absorbs `q` by shrinking A. */
    method EnqueueAdl(ctx: InstructionContext, liq: Side, q: nat, d: nat) returns (r: Result<()>)
      requires LedgerOk() && ctx.pending == NO_RESET
      requires sides.long.oi == sides.short.oi <= MAX_OI_SIDE_Q && q <= sides.Get(liq).oi
      requires sides.Get(liq).oi > 0 ==> !sides.Get(liq).mode.ResetPending?
      requires RowsInv(positions, sides.With(liq, sides.Get(liq).(oi := sides.Get(liq).oi - q)), NO_RESET)
      requires sides.Get(liq.Opposite()).a > 0
      modifies this`totals, this`sides, ctx`pending
      ensures LedgerOk()
      ensures totals == old(totals).(
                insurance := old(totals).insurance - InsurancePays(old(totals).insurance, d, params.insuranceFloor))
      ensures r.Err? ==> r.error == Overflow
      ensures var b := old(sides).With(liq, old(sides).Get(liq).(oi := old(sides).Get(liq).oi - q));
              var res := Absorbed(b, liq, q, d - InsurancePays(old(totals).insurance, d, params.insuranceFloor));
              && (r.Err? <==> DustOverflows(b, liq, q))
              && (r.Ok? ==> sides == res.sides && ctx.pending == Flags(res.drained, res.drained) && BookOk(ctx.pending))
      // the fund pays first, and the opposing side absorbs the close and the rest
      ensures r.Ok? ==>
                exists passed: nat ::
                  && FundPays(old(totals).insurance, totals.insurance, d, passed, params.insuranceFloor)
                  && AbsorbsTo(old(sides), liq, q, passed, sides, ctx.pending == Flags(true, true))
                  && ctx.pending in {Flags(true, true), NO_RESET}
    {
      hide LedgerInv, RowsInv, BookInv, ShrunkA, ShrinkDust, WithDeficit, Shrunk, AbsorbsTo, FundPays, ShrinksTo;
      InsuranceMeans(totals.insurance, d, params.insuranceFloor);
      PaysAtMost(totals.insurance, d, params.insuranceFloor);
      AbsorbedMeans(sides, liq, q, d - InsurancePays(totals.insurance, d, params.insuranceFloor));
      ghost var passed := d - InsurancePays(totals.insurance, d, params.insuranceFloor);
      var opp := liq.Opposite();
      if q > sides.Get(liq).oi {
        assert false;
      }
      sides := sides.With(liq, sides.Get(liq).(oi := sides.Get(liq).oi - q));
      ghost var b := sides;
      var dRem := 0;
      if d > 0 {
        dRem := UseInsuranceBuffer(d);
      }
      AbsorbKeepsBook(positions, b, liq, q, dRem);
      var s := sides.Get(opp);
      if s.oi == 0 {
        if sides.Get(liq).oi == 0 {
          ctx.pending := ctx.pending.Set(liq).Set(opp);
        }
        return Ok(());
      }
      if q > s.oi {
        assert false;
      }
      var oiPost := s.oi - q;
      if s.stored == 0 {
        sides := sides.With(opp, s.(oi := oiPost));
        if oiPost == 0 {
          ctx.pending := ctx.pending.Set(opp);
          if sides.Get(liq).oi == 0 {
            ctx.pending := ctx.pending.Set(liq);
          }
        }
        return Ok(());
      }
      DeficitOnlyMovesK(s, dRem);
      s := WriteDeficit(s, dRem);
      if oiPost == 0 {
        sides := sides.With(opp, s.(oi := 0));
        ctx.pending := ctx.pending.Set(opp);
        if sides.Get(liq).oi == 0 {
          ctx.pending := ctx.pending.Set(liq);
        }
        return Ok(());
      }
      var a := ShrunkA(s.a, s.oi, oiPost);
      if a > 0 {
        var t := ShrinkSide(s, a, oiPost);
        if t.Err? {
          return Err(Overflow);
        }
        sides := sides.With(opp, t.value);
        return Ok(());
      }
      sides := sides.With(opp, s.(oi := 0));
      sides := sides.With(liq, sides.Get(liq).(oi := 0));
      ctx.pending := ctx.pending.Set(opp).Set(liq);
      r := Ok(());
    }

    /** schedule_end_of_instruction_resets.  The only failure left is two dust bounds
        too large to add. */
    method ScheduleResets(ctx: InstructionContext) returns (r: Result<()>)
      requires BookOk(ctx.pending)
      modifies this`sides, ctx`pending
      ensures r.Err? ==> r.error == CorruptState
      ensures r.Err? <==> DustSumOverflows(old(sides))
      ensures r.Err? ==> sides == old(sides)
      ensures r.Ok? ==> BookOk(ctx.pending)
      ensures r.Ok? ==> Schedule(old(sides), old(ctx.pending)) == Ok(Scheduled(sides, ctx.pending))
      // a side without positions, and open interest or its dust left, clears both sides and
      // resets both; a drained side without open interest is reset too
      ensures r.Ok? ==>
                var b, was := old(sides), old(ctx.pending);
                var clears := (b.long.stored == 0 || b.short.stored == 0)
                    && (b.long.oi != 0 || b.short.oi != 0
                        || (b.long.stored == 0 && b.long.dust != 0) || (b.short.stored == 0 && b.short.dust != 0));
                && sides == (if clears then Sides(b.long.(oi := 0), b.short.(oi := 0)) else b)
                && (ctx.pending.long <==> was.long || clears || (b.long.mode.DrainOnly? && sides.long.oi == 0))
                && (ctx.pending.short <==> was.short || clears || (b.short.mode.DrainOnly? && sides.short.oi == 0))
    {
      hide BookInv;
      ScheduleSucceeds(positions, sides, ctx.pending);
      var long, short := sides.long, sides.short;
      if long.stored == 0 && short.stored == 0 {
        if long.dust + short.dust > U128_MAX {
          return Err(CorruptState);
        }
        var bound := long.dust + short.dust;
        if long.oi != 0 || short.oi != 0 || long.dust != 0 || short.dust != 0 {
          if long.oi == short.oi && long.oi <= bound {
            ClearOi(ctx);
          } else {
            assert false;
          }
        }
      } else if long.stored == 0 {
        if long.oi != 0 || short.oi != 0 || long.dust != 0 {
          if long.oi == short.oi && long.oi <= long.dust {
            ClearOi(ctx);
          } else {
            assert false;
          }
        }
      } else if short.stored == 0 {
        if long.oi != 0 || short.oi != 0 || short.dust != 0 {
          if long.oi == short.oi && short.oi <= short.dust {
            ClearOi(ctx);
          } else {
            assert false;
          }
        }
      }
      if sides.long.mode.DrainOnly? && sides.long.oi == 0 {
        ctx.pending := ctx.pending.(long := true);
      }
      if sides.short.mode.DrainOnly? && sides.short.oi == 0 {
        ctx.pending := ctx.pending.(short := true);
      }
      r := Ok(());
    }

    method ClearOi(ctx: InstructionContext)
      modifies this`sides, ctx`pending
      ensures sides == WithoutOi(old(sides)) && ctx.pending == Flags(true, true)
    {
      sides := sides.(long := sides.long.(oi := 0));
      sides := sides.(short := sides.short.(oi := 0));
      ctx.pending := Flags(true, true);
    }

    /** begin_full_drain_reset. */
    method BeginFullDrainReset(side: Side) returns (r: Result<()>)
      modifies this`sides
      ensures r.Err? <==> Begin(old(sides).Get(side)).Err?
      ensures r.Err? ==> r.error == Begin(old(sides).Get(side)).error && sides == old(sides)
      ensures r.Ok? ==> sides == old(sides).With(side, Restarted(old(sides).Get(side)))
      // the indices are parked and start from zero, and everything stored is stale
      ensures r.Ok? ==>
                var s, s' := old(sides).Get(side), sides.Get(side);
                s' == s.(a := ADL_ONE, k := 0, f := 0, kStart := s.k, fStart := s.f, epoch := s.epoch + 1,
                         stale := s.stored, dust := 0, mode := ResetPending)
    {
      var s := sides.Get(side);
      if s.oi != 0 {
        return Err(CorruptState);
      }
      s := s.(kStart := s.k);
      s := s.(fStart := s.f);
      s := s.(k := 0, f := 0);
      if s.epoch + 1 > U64_MAX {
        return Err(Overflow);
      }
      s := s.(epoch := s.epoch + 1);
      s := s.(a := ADL_ONE);
      s := s.(stale := s.stored);
      s := s.(dust := 0);
      s := s.(mode := ResetPending);
      sides := sides.With(side, s);
      r := Ok(());
    }

    method MaybeFinalizeReadySides()
      requires BookOk(NO_RESET)
      modifies this`sides
      ensures BookOk(NO_RESET) && sides == ReopenedSides(old(sides))
      // a side opens again exactly when nobody waits on it any more
      ensures forall side ::
                var s, s' := old(sides).Get(side), sides.Get(side);
                s' == if s.mode.ResetPending? && s.oi == 0 && s.stale == 0 && s.stored == 0 then s.(mode := Normal)
                      else s
    {
      hide RowsInv;
      ReopenKeepsRows(positions, sides);
      if sides.long.mode.ResetPending? && sides.long.oi == 0 && sides.long.stale == 0 && sides.long.stored == 0 {
        sides := sides.(long := sides.long.(mode := Normal));
      }
      if sides.short.mode.ResetPending? && sides.short.oi == 0 && sides.short.stale == 0 && sides.short.stored == 0 {
        sides := sides.(short := sides.short.(mode := Normal));
      }
    }

    /** finalize_end_of_instruction_resets: it can only fail by running out of epochs. */
    method FinalizeResets(ctx: InstructionContext) returns (r: Result<()>)
      requires BookOk(ctx.pending)
      modifies this`sides
      ensures r.Err? ==> r.error == Overflow && EpochsExhausted(old(sides))
      ensures r.Ok? <==> Finalize(old(sides), ctx.pending).Ok?
      ensures r.Ok? ==> BookOk(NO_RESET) && Finalize(old(sides), ctx.pending) == Ok(sides)
    {
      hide BookInv;
      FinalizeKeepsBook(positions, sides, ctx.pending);
      if ctx.pending.long && !sides.long.mode.ResetPending? {
        var q := BeginFullDrainReset(Long);
        if q.Err? {
          return q;
        }
      }
      if ctx.pending.short && !sides.short.mode.ResetPending? {
        var q := BeginFullDrainReset(Short);
        if q.Err? {
          return q;
        }
      }
      ghost var b := sides;
      if sides.long.mode.ResetPending? && sides.long.oi == 0 && sides.long.stale == 0 && sides.long.stored == 0 {
        sides := sides.(long := sides.long.(mode := Normal));
      }
      if sides.short.mode.ResetPending? && sides.short.oi == 0 && sides.short.stale == 0 && sides.short.stored == 0 {
        sides := sides.(short := sides.short.(mode := Normal));
      }
      assert sides == ReopenedSides(b);
      r := Ok(());
    }

    /** Both steps at the end of an instruction. */
    method EndOfInstruction(ctx: InstructionContext) returns (r: Result<()>)
      requires BookOk(ctx.pending) && ClockOk()
      modifies this`sides, ctx`pending
      ensures r.Ok? ==> BookOk(NO_RESET) && Tidy(sides)
      ensures r.Ok? <==> Ended(old(sides), old(ctx.pending)).Ok?
      ensures r.Ok? ==> Ended(old(sides), old(ctx.pending)) == Ok(sides)
      ensures r.Err? ==>
                || (r.error == Overflow && EpochsExhausted(old(sides)))
                || (r.error == CorruptState && DustSumOverflows(sides))
      ensures r.Ok? || r == Err(CorruptState) ==> Closes(old(sides), sides, lastOraclePrice)
    {
      hide BookInv, Schedule, Finalize, Tidy, Closes, EpochsExhausted;
      EndedWithin(sides, ctx.pending, lastOraclePrice);
      UnmovedCloses(sides, lastOraclePrice);
      WaitingHasNoDust(positions, sides, ctx.pending);
      EndsTidy(sides, ctx.pending);
      ScheduleRefuses(sides, ctx.pending);
      r := ScheduleResets(ctx);
      if r.Err? {
        return;
      }
      r := FinalizeResets(ctx);
    }

    // ---- touching an account ----

    /** settle_side_effects_live: the row's PnL since its last settlement is booked,
        and the row is refreshed or closed. */
    method SettleSideEffects(i: nat, ctx: InstructionContext) returns (r: Result<()>)
      requires LedgerOk() && BookOk(NO_RESET) && marketMode.Live? && i < |wallets| == |positions|
      requires AdmissionPairOk(ctx.hMin, ctx.hMax, params)
      modifies this`totals, this`wallets, this`positions, this`sides, ctx`sticky
      ensures r.Err? ==> r.error == Overflow
      ensures r.Err? <==>
                SideEffectsRefused(old(wallets)[i], old(totals), old(positions)[i], old(sides), i in old(ctx.sticky),
                                   |old(ctx.sticky)| >= MAX_TOUCHED_PER_INSTRUCTION, ctx.hMin, ctx.hMax, currentSlot)
      ensures old(positions)[i].basis == 0 ==> r.Ok?
      ensures r.Ok? ==> LedgerOk() && BookOk(NO_RESET)
      ensures r.Ok? ==> positions == old(positions)[i := SettledRow(old(positions)[i], old(sides))]
      ensures r.Ok? ==> sides == SettledSides(old(positions)[i], old(sides))
      ensures r.Ok? ==> SettleDelta(old(positions)[i], old(sides)).Ok? && |wallets| == |old(wallets)|
      ensures r.Ok? ==>
                wallets == old(wallets)[i := SideEffects(old(wallets)[i], old(totals), old(positions)[i], old(sides),
                    i in old(ctx.sticky), ctx.hMin, ctx.hMax, currentSlot)]
      ensures r.Ok? && old(positions)[i].basis == 0 ==> wallets == old(wallets) && totals == old(totals)
      ensures r.Ok? && old(positions)[i].basis != 0 ==>
                && RowGains(wallets[i].pnl - old(wallets)[i].pnl, old(positions)[i], old(sides))
                && wallets[i].capital == old(wallets)[i].capital && wallets[i].feeCredits == old(wallets)[i].feeCredits
      ensures r.Ok? ==>
                var p, b, w := old(positions)[i], old(sides), old(wallets)[i];
                ctx.sticky == if i !in old(ctx.sticky) && p.basis != 0
                                 && BecomesHeld(w, old(totals), w.pnl + SettleDelta(p, b).value, ctx.hMin, ctx.hMax)
                              then old(ctx.sticky) + [i] else old(ctx.sticky)
      ensures r.Ok? ==>
                totals == old(totals).(pnlPosTot := totals.pnlPosTot, pnlMaturedPosTot := totals.pnlMaturedPosTot,
                                               negPnlCount := totals.negPnlCount)
    {
      hide DustFull, PnlRefused, RowGains, LedgerInv, BookInv, KfPnlDelta, PnlMoved, SettledRow, SettledSides, EffAbs;
      var p := positions[i];
      SettleKeepsBook(positions, sides, i);
      if p.basis == 0 {
        r := SettlePosition(i);
        return;
      }
      if p.aBasis == 0 {
        assert false;
      }
      SettleDeltaInRange(p, sides);
      ghost var w := wallets[i];
      var s := sides.Get(SideOf(p));
      if p.epochSnap != s.epoch && (!s.mode.ResetPending? || p.epochSnap + 1 != s.epoch || s.stale == 0) {
        assert false;
      }
      var delta;
      if p.epochSnap == s.epoch {
        delta := KfPnlDelta(Abs(p.basis), p.kSnap, s.k, p.fSnap, s.f, p.aBasis * POS_SCALE);
      } else {
        delta := KfPnlDelta(Abs(p.basis), p.kSnap, s.kStart, p.fSnap, s.fStart, p.aBasis * POS_SCALE);
      }
      if delta.Err? {
        return Err(Overflow);
      }
      var newPnl := wallets[i].pnl + delta.value;
      if !IsI128(newPnl) {
        TooWide(w, totals, newPnl, i in ctx.sticky, |ctx.sticky| >= MAX_TOUCHED_PER_INSTRUCTION, ctx.hMin, ctx.hMax,
                currentSlot);
        return Err(Overflow);
      }
      r := SetPnlAdmitted(i, newPnl, ctx);
      if r.Err? {
        return;
      }
      MovedPnl(w, newPnl, wallets[i], currentSlot);
      SettleDeltaMeans(p, sides);
      r := SettlePosition(i);
    }

    /** The warmup part of a touch. */
    method WarmUp(i: nat) returns (r: Result<()>)
      requires LedgerOk() && i < |wallets| && marketMode.Live?
      modifies this`totals, this`wallets
      ensures LedgerOk()
      ensures r.Err? <==> WarmupPanics(old(wallets)[i], old(totals), currentSlot)
      ensures r.Err? ==> r.error == Panicked
      ensures r.Ok? ==> wallets == old(wallets)[i := Warmed(old(wallets)[i], old(totals), currentSlot)]
      ensures r.Ok? ==> totals == WarmedTotals(old(wallets)[i], old(totals), currentSlot)
    {
      hide LedgerInv, Vested;
      ghost var w, t := wallets[i], totals;
      Intact(totals, wallets, marketMode, currentSlot, params, i);
      if !ReserveShape(wallets[i].reserve, params.hMin, params.hMax) || wallets[i].reserve.total > Pos(wallets[i].pnl) {
        assert false;
      }
      AdmitOutstandingReserve(i);
      if Accelerated(w, t) {
        assert Advanced(NO_RESERVE, currentSlot) == NO_RESERVE;
      }
      r := AdvanceProfitWarmup(i);
    }

    /** touch_account_live_local, on an account that has been listed as touched. */
    method TouchRow(i: nat, ctx: InstructionContext) returns (r: Result<()>)
      requires LedgerOk() && BookOk(NO_RESET) && marketMode.Live? && i < |wallets| == |positions|
      requires AdmissionPairOk(ctx.hMin, ctx.hMax, params)
      modifies this`totals, this`wallets, this`positions, this`sides, ctx`sticky
      ensures r.Err? ==> r.error in {Overflow, Panicked}
      ensures r.Err? <==>
                TouchRefused(old(wallets)[i], old(totals), old(positions)[i], old(sides), i in old(ctx.sticky),
                             |old(ctx.sticky)| >= MAX_TOUCHED_PER_INSTRUCTION, ctx.hMin, ctx.hMax, currentSlot)
      ensures r.Ok? ==> LedgerOk() && BookOk(NO_RESET) && |wallets| == |old(wallets)|
      ensures r.Ok? ==> positions == old(positions)[i := SettledRow(old(positions)[i], old(sides))]
      ensures r.Ok? ==> sides == SettledSides(old(positions)[i], old(sides))
      ensures r.Ok? ==>
                && wallets == old(wallets)[i := TouchedWallet(old(wallets)[i], old(totals), old(positions)[i],
                     old(sides), i in old(ctx.sticky), ctx.hMin, ctx.hMax, currentSlot)]
                && totals.insurance == old(totals).insurance - InsurancePays(old(totals).insurance,
                     FlatLoss(old(wallets)[i], old(totals), old(positions)[i], old(sides), i in old(ctx.sticky),
                         ctx.hMin, ctx.hMax, currentSlot),
                     params.insuranceFloor)
      ensures r.Ok? ==> totals.vault == old(totals).vault
      ensures r.Ok? && old(positions)[i].basis == 0 && old(wallets)[i].pnl >= 0 ==>
                totals == WarmedTotals(old(wallets)[i], old(totals), currentSlot)
      ensures r.Err? && old(positions)[i].basis == 0 ==> WarmupPanics(old(wallets)[i], old(totals), currentSlot)
      ensures r.Ok? ==> !WarmupPanics(old(wallets)[i], old(totals), currentSlot)
      // an account that stays open gains what its side's indices have moved, all told
      ensures r.Ok? && old(positions)[i].basis != 0 && EffectivePos(positions[i], sides) != 0 ==>
                RowGains(Equity(wallets[i]) - Equity(old(wallets)[i]), old(positions)[i], old(sides))
      ensures r.Ok? ==>
                ctx.sticky == if i !in old(ctx.sticky)
                                 && TouchHolds(old(wallets)[i], old(totals), old(positions)[i], old(sides), ctx.hMin,
                                               ctx.hMax, currentSlot)
                              then old(ctx.sticky) + [i] else old(ctx.sticky)
    {
      hide SideEffectsRefused, RowGains, BecomesHeld, LedgerInv, BookInv, Warmed, WarmedTotals, WarmupPanics,
        SettledRow, SettledSides, EffectivePos, SettleDelta, SideEffects, AdmissionPairOk;
      WarmedFrame(wallets[i], totals, currentSlot);
      FlatHasNoSideEffects(Warmed(wallets[i], totals, currentSlot), WarmedTotals(wallets[i], totals, currentSlot),
                           positions[i], sides, i in ctx.sticky, ctx.hMin, ctx.hMax, currentSlot);
      r := WarmUp(i);
      if r.Err? {
        return;
      }
      r := SettleSideEffects(i, ctx);
      if r.Err? {
        return;
      }
      SettleLosses(i);
      if EffectivePos(positions[i], sides) == 0 && wallets[i].pnl < 0 {
        ResolveFlatNegative(i);
      }
    }

    /** touch_account_live_local. */
    method Touch(i: nat, ctx: InstructionContext) returns (r: Result<()>)
      requires LedgerOk() && BookOk(NO_RESET) && marketMode.Live? && i < |wallets| == |positions|
      requires AdmissionPairOk(ctx.hMin, ctx.hMax, params)
      modifies this`totals, this`wallets, this`positions, this`sides, ctx`sticky, ctx`touched
      ensures r.Err? ==> r.error in {Overflow, Panicked}
      ensures r.Err? <==>
                || (i !in old(ctx.touched) && |old(ctx.touched)| >= MAX_TOUCHED_PER_INSTRUCTION)
                || TouchRefused(old(wallets)[i], old(totals), old(positions)[i], old(sides), i in old(ctx.sticky),
                                |old(ctx.sticky)| >= MAX_TOUCHED_PER_INSTRUCTION, ctx.hMin, ctx.hMax, currentSlot)
      ensures r.Ok? ==> LedgerOk() && BookOk(NO_RESET)
      ensures r.Ok? ==> positions == old(positions)[i := SettledRow(old(positions)[i], old(sides))]
      ensures r.Ok? ==> sides == SettledSides(old(positions)[i], old(sides))
      ensures r.Ok? ==> |wallets| == |old(wallets)| && wallets == old(wallets)[i := wallets[i]]
      ensures r.Ok? ==>
                && wallets[i] == TouchedWallet(old(wallets)[i], old(totals), old(positions)[i], old(sides),
                     i in old(ctx.sticky), ctx.hMin, ctx.hMax, currentSlot)
                && totals.insurance == old(totals).insurance - InsurancePays(old(totals).insurance,
                     FlatLoss(old(wallets)[i], old(totals), old(positions)[i], old(sides), i in old(ctx.sticky),
                         ctx.hMin, ctx.hMax, currentSlot),
                     params.insuranceFloor)
      ensures r.Ok? ==>
                totals == TouchedTotals(old(wallets)[i], old(totals), old(positions)[i], old(sides),
                    i in old(ctx.sticky), ctx.hMin, ctx.hMax, currentSlot, params.insuranceFloor)
      ensures r.Ok? ==> JustTouched(wallets[i])
      ensures r.Ok? && EffectivePos(positions[i], sides) == 0 ==> wallets[i].pnl >= 0
      ensures old(positions)[i].basis == 0 && old(wallets)[i].pnl >= 0 ==>
                if r.Ok? then
                  && wallets[i] == Warmed(old(wallets)[i], old(totals), currentSlot)
                  && totals == WarmedTotals(old(wallets)[i], old(totals), currentSlot)
                else
                  || |old(ctx.touched)| >= MAX_TOUCHED_PER_INSTRUCTION
                  || WarmupPanics(old(wallets)[i], old(totals), currentSlot)
      ensures r.Ok? ==> !WarmupPanics(old(wallets)[i], old(totals), currentSlot)
      ensures r.Ok? ==> totals.vault == old(totals).vault && totals.insurance <= old(totals).insurance
      ensures r.Ok? ==> ctx.touched == (if i in old(ctx.touched) then old(ctx.touched) else old(ctx.touched) + [i])
      ensures TouchedOk(old(ctx.touched), |old(wallets)|) ==> TouchedOk(ctx.touched, |old(wallets)|)
      // an account that stays open gains what its side's indices have moved, all told
      ensures r.Ok? && old(positions)[i].basis != 0 && EffectivePos(positions[i], sides) != 0 ==>
                RowGains(Equity(wallets[i]) - Equity(old(wallets)[i]), old(positions)[i], old(sides))
      ensures r.Ok? ==>
                ctx.sticky == if i !in old(ctx.sticky)
                                 && TouchHolds(old(wallets)[i], old(totals), old(positions)[i], old(sides), ctx.hMin,
                                               ctx.hMax, currentSlot)
                              then old(ctx.sticky) + [i] else old(ctx.sticky)
    {
      hide TouchRefused, RowGains, TouchHolds, LedgerInv, BookInv, Warmed, WarmedTotals, WarmupPanics, SettledRow,
        SettledSides, EffectivePos, TouchedWallet, FlatLoss, JustTouched, AdmissionPairOk, TouchedOk, TotalsWith;
      TouchedShape(wallets[i], totals, positions[i], sides, i in ctx.sticky, ctx.hMin, ctx.hMax, currentSlot);
      TouchedGrows(ctx.touched, i, |wallets|);
      var added := ctx.AddTouched(i);
      if !added {
        return Err(Overflow);
      }
      r := TouchRow(i, ctx);
      if r.Ok? {
        TotalsDetermined(old(totals), old(wallets), totals, i, wallets[i], currentSlot, currentSlot, params);
      }
    }

    /** One account's part of the finalization. */
    method FinalizeAccount(i: nat, whole: bool)
      requires LedgerOk() && marketMode.Live? && i < |wallets| == |positions|
      requires whole ==> totals.pnlMaturedPosTot <= Residual(totals)
      modifies this`totals, this`wallets
      ensures LedgerOk()
      ensures whole ==> totals.pnlMaturedPosTot <= Residual(totals)
      ensures wallets == old(wallets)[i := Finalized(old(wallets)[i], positions[i].basis == 0, whole)]
      ensures totals.vault == old(totals).vault && totals.insurance >= old(totals).insurance
      ensures totals.insurance - old(totals).insurance == wallets[i].feeCredits - old(wallets)[i].feeCredits
      ensures !whole && FeeDebt(old(wallets)[i].feeCredits) == 0 ==> totals == old(totals)
    {
      hide LedgerInv;
      RowWithinTotals(totals, wallets, marketMode, currentSlot, params, i);
      if whole && positions[i].basis == 0 && wallets[i].pnl > 0 {
        var released := Released(wallets[i]);
        if released > 0 {
          ConsumeReleased(i, released);
          SetCapital(i, wallets[i].capital + released);
        }
      }
      assert wallets == old(wallets)[i := ConvertedWhole(old(wallets)[i], positions[i].basis == 0, whole)];
      FeeDebtSweep(i);
    }

    /** finalize_touched_accounts_post_live: one shared snapshot decides whether the
        market is whole, then every touched account is finalized in ascending order. */
    method FinalizeTouched(ctx: InstructionContext)
      requires LedgerOk() && marketMode.Live? && |wallets| == |positions| && TouchedOk(ctx.touched, |wallets|)
      modifies this`totals, this`wallets
      ensures LedgerOk() && |wallets| == |old(wallets)|
      ensures forall j :: 0 <= j < |wallets| ==>
                wallets[j] == if j in ctx.touched
                    then Finalized(old(wallets)[j], positions[j].basis == 0, IsWhole(old(totals))) else old(wallets)[j]
      ensures totals.vault == old(totals).vault && totals.insurance >= old(totals).insurance
      // what that is, and that the fund gains exactly the debts paid off
      ensures forall j :: 0 <= j < |wallets| && j in ctx.touched ==>
                FinalizedBy(old(wallets)[j], wallets[j], positions[j].basis == 0, old(totals))
      ensures totals.insurance - old(totals).insurance
              == Sum(wallets, CreditTerm()) - Sum(old(wallets), CreditTerm())
    {
      hide LedgerInv, Finalized, FinalizedBy;
      Conserved(totals, wallets, marketMode, currentSlot, params);
      var residual := totals.vault - (totals.cTot + totals.insurance);
      var den := totals.pnlMaturedPosTot;
      var num := if den == 0 then 0 else Min(residual, den);
      var whole := den > 0 && num == den;
      var sorted := SortedCopy(ctx.touched);
      PermutedDistinct(ctx.touched, sorted);
      for k := 0 to |sorted|
        invariant LedgerOk() && |wallets| == |old(wallets)|
        invariant whole ==> totals.pnlMaturedPosTot <= Residual(totals)
        invariant totals.vault == old(totals).vault && totals.insurance >= old(totals).insurance
        invariant totals.insurance - old(totals).insurance
                  == Sum(wallets, CreditTerm()) - Sum(old(wallets), CreditTerm())
        invariant forall j :: 0 <= j < |wallets| ==>
                    wallets[j] == if j in sorted[..k] then Finalized(old(wallets)[j], positions[j].basis == 0, whole)
                        else old(wallets)[j]
      {
        assert sorted[k] in sorted && sorted[k] in ctx.touched;
        assert sorted[k] !in sorted[..k];
        ghost var before := wallets;
        FinalizeAccount(sorted[k], whole);
        SumUpdate(before, sorted[k], wallets[sorted[k]], CreditTerm());
        assert sorted[..k + 1] == sorted[..k] + [sorted[k]];
      }
      assert sorted[..|sorted|] == sorted;
      AllFinalized(old(totals), old(wallets), currentSlot, params, positions, wallets, ctx.touched);
    }

    /** The same for the one account that an instruction touches. */
    method FinalizeOne(i: nat, ctx: InstructionContext)
      requires LedgerOk() && marketMode.Live? && i < |wallets| == |positions|
      requires ctx.touched == [i] && TouchedOk(ctx.touched, |wallets|)
      modifies this`totals, this`wallets
      ensures LedgerOk() && totals.vault == old(totals).vault
      ensures wallets == old(wallets)[i := Finalized(old(wallets)[i], positions[i].basis == 0, IsWhole(old(totals)))]
      ensures i < |wallets| && FinalizedBy(old(wallets)[i], wallets[i], positions[i].basis == 0, old(totals))
      ensures totals == TotalsWith(old(totals), old(wallets)[i], wallets[i]).(insurance := totals.insurance)
      ensures totals.insurance - old(totals).insurance == wallets[i].feeCredits - old(wallets)[i].feeCredits
    {
      hide LedgerInv, Finalized, FinalizedBy, IsWhole, TouchedOk, TotalsWith;
      FinalizeTouched(ctx);
      CreditsOfOne(old(wallets), wallets, i);
      assert wallets == old(wallets)[i := wallets[i]];
      TotalsDetermined(old(totals), old(wallets), totals, i, wallets[i], currentSlot, currentSlot, params);
    }

    // ---- liquidation ----

    /** The exact partial close of a liquidation: re-attach what is left, settle losses,
        charge the fee, let the other side absorb the close, and insist on health. On a
        just-touched account it succeeds exactly when the keeper's pre-flight approves
        the hint and the dust bounds have room. */
    method LiquidatePartial(i: nat, q: nat, price: nat, ctx: InstructionContext) returns (r: Result<bool>)
      requires LedgerOk() && BookOk(NO_RESET) && marketMode.Live? && i < |wallets| == |positions|
      requires ctx.pending == NO_RESET && ValidParams(params, |wallets|) && 1 <= price <= MAX_ORACLE_PRICE
      requires EffectivePos(positions[i], sides) != 0
      modifies this`totals, this`wallets, this`positions, this`sides, ctx`pending
      ensures r.Err? ==> r.error in {Overflow, Undercollateralized}
      ensures r.Ok? ==> LedgerOk() && BookOk(ctx.pending) && r.value
      ensures r.Ok? ==> wallets == old(wallets)[i := AfterPartial(old(wallets)[i], q, price, params)]
      ensures var e := EffectivePos(old(positions)[i], old(sides));
              var newEff := if e > 0 then e - q else e + q;
              && (r.Ok? ==> positions == old(positions)[i := AttachedRow(newEff, old(sides))])
              && (JustTouched(old(wallets)[i]) ==>
                    && (r.Ok? <==> HintApproved(old(wallets)[i], Abs(e), q, price, params)
                                   && CloseFits(old(positions)[i], old(sides), newEff, q))
                    && (r == Err(Undercollateralized) ==> !HintApproved(old(wallets)[i], Abs(e), q, price, params)))
      ensures r.Ok? ==>
                var e := EffectivePos(old(positions)[i], old(sides));
                var after := CloseAbsorbed(old(positions)[i], old(sides), if e > 0 then e - q else e + q, q, 0);
                sides == after.sides && ctx.pending == Flags(after.drained, after.drained)
      ensures r.Ok? ==>
                && totals.vault == old(totals).vault
                && totals.insurance == old(totals).insurance
                     + FeePaid(Settled(old(wallets)[i]), LiquidationFee(q, price, params))
      ensures r.Ok? ==> Steady(old(sides), sides, price, MAX_CLOSE_DUST)
    {
      hide LedgerInv, BookInv, RowsInv, EffectivePos, AttachedCounts, AttachedRow, OrphansDust, LiquidationFee,
        Requirement, DustOverflows, Absorbed, Charged, Settled, SideOf, Steady;
      var e := EffectivePos(positions[i], sides);
      if q == 0 || q >= Abs(e) {
        return Err(Overflow);
      }
      var newEff := if e > 0 then e - q else e + q;
      var liq := if e > 0 then Long else Short;
      ghost var p, b, w := positions[i], sides, wallets[i];
      CloseKeepsRows(positions, sides, i, newEff, q);
      PreFlight(totals, wallets, positions, sides, currentSlot, params, i, q, price);
      CloseWithin(positions, sides, i, newEff, q, 0, price);
      CountersFit(positions, sides);
      var a := AttachEffectivePosition(i, newEff);
      if a.Err? {
        return Err(Overflow);
      }
      SettleLosses(i);
      FeeWithinCap(q, price, params);
      var fee := ChargeFee(i, LiquidationFee(q, price, params));
      assert wallets[i] == AfterPartial(w, q, price, params);
      ghost var b1 := sides.With(liq, sides.Get(liq).(oi := sides.Get(liq).oi - q));
      var adl := EnqueueAdl(ctx, liq, q, 0);
      if adl.Err? {
        return Err(Overflow);
      }
      SameRow(newEff, b, b1);
      AbsorbLeavesLiquidated(b1, liq, q, 0, newEff);
      if !AboveMaintenance(wallets[i], Abs(EffectivePos(positions[i], sides)), price, params) {
        return Err(Undercollateralized);
      }
      r := Ok(true);
    }

    /** The full close of a liquidation: the position goes, its losses are settled, and
        what the account cannot pay becomes the deficit of the other side. */
    method LiquidateFull(i: nat, price: nat, ctx: InstructionContext) returns (r: Result<bool>)
      requires LedgerOk() && BookOk(NO_RESET) && marketMode.Live? && i < |wallets| == |positions|
      requires ctx.pending == NO_RESET && ValidParams(params, |wallets|) && 1 <= price <= MAX_ORACLE_PRICE
      requires EffectivePos(positions[i], sides) != 0
      modifies this`totals, this`wallets, this`positions, this`sides, ctx`pending
      ensures r.Err? ==> r.error == Overflow
      ensures r.Ok? <==> CloseFits(old(positions)[i], old(sides), 0, Abs(EffectivePos(old(positions)[i], old(sides))))
      ensures r.Ok? ==> LedgerOk() && BookOk(ctx.pending) && r.value
      ensures r.Ok? ==> positions == old(positions)[i := FLAT]
      ensures r.Ok? ==>
                var w := AfterPartial(old(wallets)[i], Abs(EffectivePos(old(positions)[i], old(sides))), price, params);
                wallets == old(wallets)[i := w.(pnl := Max(w.pnl, 0))]
      // what neither the account nor the fund can pay is charged to the other side
      ensures r.Ok? ==>
                var q := Abs(EffectivePos(old(positions)[i], old(sides)));
                var fee := FeePaid(Settled(old(wallets)[i]), LiquidationFee(q, price, params));
                var deficit := Pos(-AfterPartial(old(wallets)[i], q, price, params).pnl);
                var cover := InsurancePays(old(totals).insurance + fee, deficit, params.insuranceFloor);
                var after := CloseAbsorbed(old(positions)[i], old(sides), 0, q, deficit - cover);
                && totals.insurance == old(totals).insurance + fee - cover
                && sides == after.sides && ctx.pending == Flags(after.drained, after.drained)
      ensures r.Ok? ==> totals.vault == old(totals).vault
      ensures r.Ok? ==> Steady(old(sides), sides, price, MAX_CLOSE_DUST)
    {
      hide NewestTaken, LedgerInv, BookInv, RowsInv, EffectivePos, AttachedCounts, OrphansDust, LiquidationFee,
        DustOverflows, Absorbed, Charged, Settled, SideOf, PnlMoved, Steady;
      var e := EffectivePos(positions[i], sides);
      var q := Abs(e);
      var liq := if e > 0 then Long else Short;
      ghost var w := wallets[i];
      CloseKeepsRows(positions, sides, i, 0, q);
      CountersFit(positions, sides);
      var a := AttachEffectivePosition(i, 0);
      if a.Err? {
        return Err(Overflow);
      }
      SettleLosses(i);
      FeeWithinCap(q, price, params);
      var fee := ChargeFee(i, LiquidationFee(q, price, params));
      RowWithinTotals(totals, wallets, marketMode, currentSlot, params, i);
      var d := 0;
      if wallets[i].pnl < 0 {
        NothingReserved(wallets[i], marketMode, currentSlot, params);
        if wallets[i].pnl == I128_MIN {
          assert false;
        }
        d := -wallets[i].pnl;
      }
      CloseWithin(old(positions), old(sides), i, 0, q, d - InsurancePays(totals.insurance, d, params.insuranceFloor),
          price);
      var adl := EnqueueAdl(ctx, liq, q, d);
      if adl.Err? {
        return Err(Overflow);
      }
      if d != 0 {
        LossLeavesReserve(wallets[i], 0, currentSlot);
        LowerPnl(i, 0);
      }
      assert wallets[i] == AfterPartial(w, q, price, params).(pnl := Max(AfterPartial(w, q, price, params).pnl, 0));
      r := Ok(true);
    }

    /** liquidate_at_oracle_internal. */
    method LiquidateInternal(i: nat, price: nat, policy: LiquidationPolicy, ctx: InstructionContext)
      returns (r: Result<bool>)
      requires LedgerOk() && BookOk(NO_RESET) && marketMode.Live? && i < |wallets| == |positions|
      requires ctx.pending == NO_RESET && ValidParams(params, |wallets|)
      modifies this`totals, this`wallets, this`positions, this`sides, ctx`pending
      ensures r.Err? ==> r.error in {Overflow, Undercollateralized}
      ensures r.Ok? ==> LedgerOk() && BookOk(ctx.pending)
      ensures r.Ok? ==> |wallets| == |old(wallets)| && wallets == old(wallets)[i := wallets[i]]
      ensures r.Ok? ==> |positions| == |old(positions)| && positions == old(positions)[i := positions[i]]
      ensures r.Ok? ==> totals.vault == old(totals).vault
      // only an unhealthy position is liquidated, as the policy says
      ensures r == Ok(true) ==>
                var e := EffectivePos(old(positions)[i], old(sides));
                && e != 0
                && !Exceeds(Equity(old(wallets)[i]), Abs(e), price, params.maintenanceBps, params.minNonzeroMm)
                && StandingOf(i, ctx.pending) == Liquidated(old(StandingOf(i, NO_RESET)), policy, price, params)
      // what is left of the position, what the fee, the fund and the other side bear
      ensures r == Ok(true) ==>
                var e := EffectivePos(old(positions)[i], old(sides));
                && (policy.FullClose? ==> positions[i] == FLAT)
                && (policy.ExactPartial? ==> positions[i].basis == if e > 0 then e - policy.q else e + policy.q)
                && exists passed: nat ::
                     && LiquidatedBy(old(wallets)[i], wallets[i], old(totals).insurance, totals.insurance,
                                     ClosedSize(Abs(e), policy), policy.FullClose?, passed, price, params)
                     && var q := ClosedSize(Abs(e), policy);
                        sides == CloseAbsorbed(old(positions)[i], old(sides), if e > 0 then e - q else e + q, q,
                                               passed).sides
      // an open position is let be exactly when its equity exceeds both bounds
      ensures r == Ok(false) <==>
                var e := EffectivePos(old(positions)[i], old(sides));
                && 1 <= price <= MAX_ORACLE_PRICE
                && (e == 0 || Exceeds(Equity(old(wallets)[i]), Abs(e), price, params.maintenanceBps,
                                      params.minNonzeroMm))
      ensures r == Err(Undercollateralized) && JustTouched(old(wallets)[i]) ==>
                && policy.ExactPartial?
                && !HintApproved(old(wallets)[i], Abs(EffectivePos(old(positions)[i], old(sides))), policy.q, price,
                     params)
      ensures r == Ok(false) ==> wallets == old(wallets) && positions == old(positions) && sides == old(sides)
                                 && totals == old(totals) && ctx.pending == NO_RESET
      // on a just-touched account it succeeds exactly when there is nothing to do, or the
      // liquidation fits
      ensures JustTouched(old(wallets)[i]) && 1 <= price <= MAX_ORACLE_PRICE ==>
                var s := old(StandingOf(i, NO_RESET));
                var e := EffectivePos(s.p, s.b);
                r.Ok? <==>
                  || e == 0 || Exceeds(Equity(s.w), Abs(e), price, params.maintenanceBps, params.minNonzeroMm)
                  || LiquidationFits(s, policy, price, params)
      ensures r.Ok? ==> Steady(old(sides), sides, price, MAX_CLOSE_DUST)
    {
      hide HintPasses, Exceeds, Equity, LiquidatedBy, Headroom, LedgerInv, BookInv, EffectivePos, AboveMaintenance,
        HintApproved, CloseFits, AttachedRow, AfterPartial, CloseAbsorbed, TotalsWith, Steady, ValidParams,
        LiquidationFee, FeePaid, Settled;
      UnmovedSteady(sides, price, MAX_CLOSE_DUST);
      if price == 0 || price > MAX_ORACLE_PRICE {
        return Err(Overflow);
      }
      var e := EffectivePos(positions[i], sides);
      if e == 0 {
        return Ok(false);
      }
      HealthMeans(totals, wallets, currentSlot, params, positions, sides, i, price);
      AllSound(totals, wallets, currentSlot, params);
      LiquidatedMeans(StandingOf(i, NO_RESET), policy, price, params);
      PartialRow(e, policy, sides);
      if policy.ExactPartial? {
        HintMeans(wallets[i], Abs(e), policy.q, price, params);
      }
      if AboveMaintenance(wallets[i], Abs(e), price, params) {
        return Ok(false);
      }
      match policy {
        case ExactPartial(q) => r := LiquidatePartial(i, q, price, ctx);
        case FullClose => r := LiquidateFull(i, price, ctx);
      }
      if r.Ok? {
        TotalsDetermined(old(totals), old(wallets), totals, i, wallets[i], currentSlot, currentSlot, params);
      }
    }

    // ---- instructions: shared steps ----

    /** Pays `amount` of an account's capital out of the vault. */
    method PayOut(i: nat, amount: nat)
      requires LedgerOk() && i < |wallets| && amount <= wallets[i].capital
      modifies this`totals, this`wallets
      ensures LedgerOk()
      ensures wallets == old(wallets)[i := old(wallets)[i].(capital := old(wallets)[i].capital - amount)]
      ensures amount <= old(totals).cTot && amount <= old(totals).vault
      ensures totals == old(totals).(cTot := old(totals).cTot - amount, vault := old(totals).vault - amount)
    {
      hide WalletOk;
      SetCapital(i, wallets[i].capital - amount);
      if totals.vault < amount {
        assert false;
      }
      totals := totals.(vault := totals.vault - amount);
    }

    /** Moves tokens from outside into the vault, for the insurance fund or for nobody
        in particular yet. */
    method TakeIn(amount: nat, toInsurance: bool)
      requires LedgerOk() && totals.vault + amount <= MAX_VAULT_TVL
      modifies this`totals
      ensures LedgerOk()
      ensures totals == old(totals).(vault := old(totals).vault + amount,
                                     insurance := old(totals).insurance + (if toInsurance then amount else 0))
    {
      hide WalletOk;
      totals := totals.(vault := totals.vault + amount);
      if toInsurance {
        totals := totals.(insurance := totals.insurance + amount);
      }
    }

    /** The sides after an accrual. */
    function AccruedAt(now: nat, price: nat, rate: int): Sides
      reads this`sides, this`lastOraclePrice, this`fundPxLast, this`lastMarketSlot
    {
      Accrued(sides, price - lastOraclePrice, FundingNum(sides, fundPxLast, rate, now - lastMarketSlot))
    }

    function SnapshotAt(now: nat, price: nat, rate: int): Snapshot
      reads this`wallets, this`positions, this`totals, this`sides, this`lastOraclePrice, this`fundPxLast,
            this`lastMarketSlot
    {
      Snapshot(wallets, positions, AccruedAt(now, price, rate), totals)
    }

    /** What accruing to `now` and touching makes of an account, and of the totals. */
    function TouchedAt(i: nat, now: nat, price: nat, rate: int, hMin: nat, hMax: nat): Wallet
      requires i < |wallets| == |positions|
      reads this`wallets, this`positions, this`totals, this`sides, this`lastOraclePrice, this`fundPxLast,
            this`lastMarketSlot
    {
      TouchedWallet(wallets[i], totals, positions[i], AccruedAt(now, price, rate), false, hMin, hMax, now)
    }

    function TotalsAt(i: nat, now: nat, price: nat, rate: int, hMin: nat, hMax: nat): Totals
      requires i < |wallets| == |positions|
      reads this`wallets, this`positions, this`totals, this`sides, this`lastOraclePrice, this`fundPxLast,
            this`lastMarketSlot
    {
      TouchedTotals(wallets[i], totals, positions[i], AccruedAt(now, price, rate), false, hMin, hMax, now,
          params.insuranceFloor)
    }

    /** Whether accruing leaves an account that cannot be touched. */
    predicate RefusedAt(i: nat, now: nat, price: nat, rate: int, hMin: nat, hMax: nat)
      requires i < |wallets| == |positions|
      reads this`wallets, this`positions, this`totals, this`sides, this`lastOraclePrice, this`fundPxLast,
            this`lastMarketSlot
    {
      TouchRefused(wallets[i], totals, positions[i], AccruedAt(now, price, rate), false, false, hMin, hMax, now)
    }

    /** Whether the touch holds the account to the long horizon. */
    predicate HeldAt(i: nat, now: nat, price: nat, rate: int, hMin: nat, hMax: nat)
      requires i < |wallets| == |positions|
      reads this`wallets, this`positions, this`totals, this`sides, this`lastOraclePrice, this`fundPxLast,
            this`lastMarketSlot
    {
      TouchHolds(wallets[i], totals, positions[i], AccruedAt(now, price, rate), hMin, hMax, now)
    }

    /** The same, with the row and the sides. */
    function StandingAt(i: nat, now: nat, price: nat, rate: int, hMin: nat, hMax: nat): Standing
      requires i < |wallets| == |positions|
      reads this`wallets, this`positions, this`totals, this`sides, this`lastOraclePrice, this`fundPxLast,
            this`lastMarketSlot
    {
      var b := AccruedAt(now, price, rate);
      Standing(SettledRow(positions[i], b), TouchedAt(i, now, price, rate, hMin, hMax), SettledSides(positions[i], b),
               TotalsAt(i, now, price, rate, hMin, hMax), NO_RESET)
    }

    /** What settle_account_not_atomic makes of an account: touched, converted if the
        market is whole and the account flat, and swept. */
    function SettledAt(i: nat, now: nat, price: nat, rate: int, hMin: nat, hMax: nat): Wallet
      requires i < |wallets| == |positions|
      reads this`wallets, this`positions, this`totals, this`sides, this`lastOraclePrice, this`fundPxLast,
            this`lastMarketSlot
    {
      Finalized(TouchedAt(i, now, price, rate, hMin, hMax),
          SettledRow(positions[i], AccruedAt(now, price, rate)).basis == 0,
                IsWhole(TotalsAt(i, now, price, rate, hMin, hMax)))
    }

    /** The totals then: the fund has gained the debt that was swept. */
    function SettledTotalsAt(i: nat, now: nat, price: nat, rate: int, hMin: nat, hMax: nat): Totals
      requires i < |wallets| == |positions|
      reads this`wallets, this`positions, this`totals, this`sides, this`lastOraclePrice, this`fundPxLast,
            this`lastMarketSlot
    {
      var s, w := StandingAt(i, now, price, rate, hMin, hMax), SettledAt(i, now, price, rate, hMin, hMax);
      TotalsWith(s.t, s.w, w).(insurance := Max(s.t.insurance + (w.feeCredits - s.w.feeCredits), 0))
    }

    /** When a conversion succeeds: the market can be accrued and the account touched; the
        amount is convertible, and leaves an open account above both maintenance bounds;
        and the instruction can end. */
    ghost predicate ConversionSucceeds(i: nat, x: nat, now: nat, price: nat, rate: int, hMin: nat, hMax: nat)
      requires i < |wallets| == |positions|
      reads this`marketMode, this`currentSlot, this`wallets, this`positions, this`totals, this`sides,
            this`lastOraclePrice, this`fundPxLast, this`lastMarketSlot
    {
      var s := StandingAt(i, now, price, rate, hMin, hMax);
      var e, w := EffectivePos(s.p, s.b), s.w.(pnl := s.w.pnl - x, capital := s.w.capital + Scale(x, Haircut(s.t)));
      && AccrualSucceeds(now, price, rate) && !RefusedAt(i, now, price, rate, hMin, hMax)
      && Convertible(i, x, now, price, rate, hMin, hMax)
      && (e != 0 ==> Exceeds(Equity(Swept(w)), Abs(e), price, params.maintenanceBps, params.minNonzeroMm))
      && Ended(s.b, NO_RESET).Ok?
    }

    /** When a withdrawal succeeds: the market can be accrued and the account touched; its
        settled capital covers the amount, and what stays is nothing or a minimum deposit;
        an open account still reaches the initial requirement; and the instruction can
        end. */
    ghost predicate WithdrawalSucceeds(i: nat, amount: nat, now: nat, price: nat, rate: int, hMin: nat, hMax: nat)
      requires i < |wallets| == |positions|
      reads this`marketMode, this`currentSlot, this`wallets, this`positions, this`totals, this`sides,
            this`lastOraclePrice, this`fundPxLast, this`lastMarketSlot
    {
      var s, w := StandingAt(i, now, price, rate, hMin, hMax), SettledAt(i, now, price, rate, hMin, hMax);
      var e := EffectivePos(s.p, s.b);
      && AccrualSucceeds(now, price, rate) && !RefusedAt(i, now, price, rate, hMin, hMax)
      && amount <= w.capital && (amount == w.capital || w.capital - amount >= params.minInitialDeposit)
      && (e != 0 ==>
            CoversInitial(w, SettledTotalsAt(i, now, price, rate, hMin, hMax), amount, Abs(e), price, params))
      && Ended(s.b, NO_RESET).Ok?
    }

    /** When a close succeeds: likewise, with the settled account flat and owing and owed
        nothing. */
    predicate ClosingSucceeds(i: nat, now: nat, price: nat, rate: int, hMin: nat, hMax: nat)
      requires i < |wallets| == |positions|
      reads this`marketMode, this`currentSlot, this`wallets, this`positions, this`totals, this`sides,
            this`lastOraclePrice, this`fundPxLast, this`lastMarketSlot
    {
      var s, w := StandingAt(i, now, price, rate, hMin, hMax), SettledAt(i, now, price, rate, hMin, hMax);
      && AccrualSucceeds(now, price, rate) && !RefusedAt(i, now, price, rate, hMin, hMax)
      && EffectivePos(s.p, s.b) == 0 && w.pnl == 0 && w.feeCredits == 0 && w.reserve == NO_RESERVE
      && Ended(s.b, NO_RESET).Ok?
    }

    /** What convert_released_pnl_not_atomic makes of an account: touched, `x` of released
        profit converted at the haircut, swept, and finalized. */
    function ConvertedAt(i: nat, x: nat, now: nat, price: nat, rate: int, hMin: nat, hMax: nat): Wallet
      requires i < |wallets| == |positions|
      reads this`wallets, this`positions, this`totals, this`sides, this`lastOraclePrice, this`fundPxLast,
            this`lastMarketSlot
    {
      var w, t := TouchedAt(i, now, price, rate, hMin, hMax), TotalsAt(i, now, price, rate, hMin, hMax);
      if x <= t.pnlMaturedPosTot <= t.pnlPosTot then
        Finalized(Swept(w.(pnl := w.pnl - x, capital := w.capital + Scale(x, Haircut(t)))),
                  SettledRow(positions[i], AccruedAt(now, price, rate)).basis == 0, IsWhole(Converted(t, x)))
      else w
    }

    /** Whether the touched account may convert `x`: out of released profit, and when it
        is flat only while equity stays nonnegative and the cap can be computed. */
    predicate Convertible(i: nat, x: nat, now: nat, price: nat, rate: int, hMin: nat, hMax: nat)
      requires i < |wallets| == |positions|
      reads this`wallets, this`positions, this`totals, this`sides, this`lastOraclePrice, this`fundPxLast,
            this`lastMarketSlot
    {
      var w, h := TouchedAt(i, now, price, rate, hMin, hMax), Haircut(TotalsAt(i, now, price, rate, hMin, hMax));
      && 0 < x <= Released(w)
      && (SettledRow(positions[i], AccruedAt(now, price, rate)).basis == 0 ==>
            0 < MaintRaw(w) && MaintRaw(w) - x + Scale(x, h) >= 0 && !CapPanics(MaintRaw(w), h))
    }

    /** Accrues the market and touches one account. */
    method AccrueAndTouch(i: nat, now: nat, price: nat, rate: int, ctx: InstructionContext) returns (r: Result<()>)
      requires LedgerOk() && BookOk(NO_RESET) && ClockOk() && marketMode.Live? && now <= U64_MAX
      requires i < |wallets| == |positions| && AdmissionPairOk(ctx.hMin, ctx.hMax, params) && ctx.touched == []
                 && ctx.sticky == []
      modifies this`totals, this`wallets, this`positions, this`sides, this`currentSlot, this`lastMarketSlot,
               this`lastOraclePrice, this`fundPxLast, ctx`sticky, ctx`touched
      ensures r.Err? ==> r.error in {Overflow, Panicked, Unauthorized}
      ensures r.Ok? <==>
                old(AccrualSucceeds(now, price, rate)) && !old(RefusedAt(i, now, price, rate, ctx.hMin, ctx.hMax))
      ensures r.Ok? ==> LedgerOk() && BookOk(NO_RESET) && ClockOk() && lastMarketSlot == currentSlot == now
      ensures r.Ok? ==> lastOraclePrice == price
      ensures r.Ok? ==> |wallets| == |old(wallets)| && wallets == old(wallets)[i := wallets[i]]
      ensures r.Ok? ==> |positions| == |old(positions)| && positions == old(positions)[i := positions[i]]
      ensures r.Ok? ==> totals.vault == old(totals).vault && totals.insurance <= old(totals).insurance
      ensures r.Ok? ==> ctx.touched == [i] && TouchedOk(ctx.touched, |wallets|)
      ensures r.Ok? ==> forall x :: x in ctx.sticky ==> x == i
      ensures r.Ok? ==> ctx.sticky == if old(HeldAt(i, now, price, rate, ctx.hMin, ctx.hMax)) then [i] else []
      ensures r.Ok? ==> wallets[i] == old(TouchedAt(i, now, price, rate, ctx.hMin, ctx.hMax))
      ensures r.Ok? ==> totals == old(TotalsAt(i, now, price, rate, ctx.hMin, ctx.hMax))
      ensures r.Ok? ==>
                var b := old(AccruedAt(now, price, rate));
                positions[i] == SettledRow(old(positions)[i], b) && sides == SettledSides(old(positions)[i], b)
      ensures r.Ok? ==> JustTouched(wallets[i])
      ensures r.Ok? && EffectivePos(positions[i], sides) == 0 ==> wallets[i].pnl >= 0
      ensures r.Ok? && (old(positions)[i].basis == 0 || EffectivePos(positions[i], sides) == 0) ==>
                positions[i].basis == 0
      ensures old(positions)[i].basis == 0 && old(wallets)[i].pnl >= 0 && old(AccrualSucceeds(now, price, rate)) ==>
                if r.Ok? then wallets[i] == Warmed(old(wallets)[i], old(totals), now)
                    && totals == WarmedTotals(old(wallets)[i], old(totals), now)
                else WarmupPanics(old(wallets)[i], old(totals), now)
      ensures r.Ok? ==> !WarmupPanics(old(wallets)[i], old(totals), now)
      // settled when the accrual began, an open account earns the price move on its size,
      // less the funding on it
      ensures r.Ok? && JustSettled(old(positions)[i], old(sides)) && old(sides).long.oi != 0 && old(sides).short.oi != 0
              && EffectivePos(positions[i], sides) != 0 ==>
                EarnsOver(Equity(wallets[i]) - Equity(old(wallets)[i]), old(positions)[i],
                          old(sides).Get(SideOf(old(positions)[i])).a, price - old(lastOraclePrice),
                          old(fundPxLast) * rate * (now - old(lastMarketSlot)))
      ensures r.Ok? ==> SidesWithin(1, 0)
    {
      hide TouchRefused, TouchHolds, RowGains, EarnsOver, FundingNum, Steady, Closes, KeptWithin, LedgerInv, BookInv,
        EffectivePos, SettledSides, SettledRow, EffAbs, Accrued, AdmissionPairOk, Warmed, WarmedTotals, WarmupPanics,
        AccrualSucceeds, TouchedWallet, FlatLoss, TouchedTotals;
      r := AccrueMarketTo(now, price, rate);
      if r.Err? {
        return;
      }
      SettledFlatness(positions[i], sides);
      SettledWithin(positions[i], sides);
      SteadyAfter(old(sides), old(lastOraclePrice), sides, SettledSides(positions[i], sides), lastOraclePrice, 0, 0, 1,
          1);
      ghost var p := positions[i];
      r := Touch(i, ctx);
      if r.Ok? && JustSettled(p, old(sides)) && old(sides).long.oi != 0 && old(sides).short.oi != 0
         && EffectivePos(positions[i], sides) != 0 {
        OneAccrualEarns(Equity(wallets[i]) - Equity(old(wallets)[i]), p, old(sides), price - old(lastOraclePrice),
                        old(fundPxLast), rate, now - old(lastMarketSlot));
      }
    }

    // ---- instructions ----

    /** The checks and the payment of a withdrawal, on a finalized account. */
    method WithdrawTouched(i: nat, amount: nat, price: nat) returns (r: Result<()>)
      requires LedgerOk() && BookOk(NO_RESET) && marketMode.Live? && i < |wallets| == |positions|
      requires ValidParams(params, |wallets|) && 1 <= price <= MAX_ORACLE_PRICE
      modifies this`totals, this`wallets
      ensures var w, e := old(wallets)[i], EffectivePos(positions[i], sides);
              r.Ok? <==>
                && amount <= w.capital && (amount == w.capital || w.capital - amount >= params.minInitialDeposit)
                && (e != 0 ==> CoversInitial(w, old(totals), amount, Abs(e), price, params))
      ensures r.Err? ==>
                r.error in {InsufficientBalance, Undercollateralized} && wallets == old(wallets)
                    && totals == old(totals)
      ensures r.Ok? ==>
                && LedgerOk()
                && wallets == old(wallets)[i := old(wallets)[i].(capital := old(wallets)[i].capital - amount)]
      ensures r.Ok? && EffectivePos(positions[i], sides) != 0 ==>
                CoversInitial(wallets[i], totals, 0, Abs(EffectivePos(positions[i], sides)), price, params)
      ensures r.Ok? ==> totals.vault == old(totals).vault - amount && totals.insurance == old(totals).insurance
    {
      hide LedgerInv, BookInv, ValidParams, EffectivePos, WithdrawRaw, InitReq, CoversInitial;
      var w := wallets[i];
      if w.capital < amount {
        return Err(InsufficientBalance);
      }
      if w.capital != amount && w.capital - amount < params.minInitialDeposit {
        return Err(InsufficientBalance);
      }
      var e := EffectivePos(positions[i], sides);
      if e != 0 {
        InitialMeans(totals, wallets, currentSlot, params, positions, sides, i, price, amount);
        var eqPost := Max(WithdrawRaw(w, totals) - amount, I128_MIN);
        if eqPost < InitReq(Abs(e), price, params) {
          return Err(Undercollateralized);
        }
      }
      PayOut(i, amount);
      if e != 0 {
        CoveredAfterwards(w, old(totals), amount, Abs(e), price, params);
      }
      r := Ok(());
    }

    method WithdrawLive(i: nat, amount: nat, now: nat, price: nat, rate: int, ctx: InstructionContext)
      returns (r: Result<()>)
      requires LiveOk() && i < |wallets| && now <= U64_MAX && 1 <= price <= MAX_ORACLE_PRICE
      requires AdmissionPairOk(ctx.hMin, ctx.hMax, params) && ctx.touched == [] && ctx.sticky == []
                 && ctx.pending == NO_RESET
      modifies this`totals, this`wallets, this`positions, this`sides, this`currentSlot, this`lastMarketSlot,
               this`lastOraclePrice, this`fundPxLast, ctx
      ensures r.Ok? <==> old(WithdrawalSucceeds(i, amount, now, price, rate, ctx.hMin, ctx.hMax))
      ensures r.Ok? ==> LiveOk() && OnlyRow(i)
      ensures r == Err(CorruptState) ==> DustSumOverflows(sides)
      ensures r.Ok? || r == Err(CorruptState) ==> SidesWithin(MAX_DUST_PER_INSTRUCTION, MAX_EPOCHS_PER_INSTRUCTION)
      ensures r.Ok? ==> totals.vault == old(totals).vault - amount
      ensures r.Ok? ==> !WarmupPanics(old(wallets)[i], old(totals), now)
      ensures old(positions)[i].basis == 0 && old(wallets)[i].pnl >= 0 && old(AccrualSucceeds(now, price, rate))
              && !WarmupPanics(old(wallets)[i], old(totals), now)
                   && amount == PostTouchCapital(old(wallets)[i], old(totals), now)
              ==> r.Ok? || EpochsExhausted(old(sides)) || NearDustLimit(old(sides))
      ensures r.Ok? ==>
                var w := old(SettledAt(i, now, price, rate, ctx.hMin, ctx.hMax));
                amount <= w.capital && wallets[i] == w.(capital := w.capital - amount)
      // what an open account is left with reaches the initial requirement
      ensures r.Ok? ==>
                && i < |old(wallets)| == |old(positions)| && i < |wallets| && i < |positions|
                && var s := old(StandingAt(i, now, price, rate, ctx.hMin, ctx.hMax));
                   && positions[i] == s.p && Ended(s.b, NO_RESET) == Ok(sides)
                   && totals.insurance - s.t.insurance == wallets[i].feeCredits - s.w.feeCredits
                   && (EffectivePos(s.p, s.b) != 0 ==>
                         CoversInitial(wallets[i], totals, 0, Abs(EffectivePos(s.p, s.b)), price, params))
      ensures r.Ok? ==> lastOraclePrice == price && lastMarketSlot == currentSlot == now
    {
      hide RiskEngine.RefusedAt, TotalsWith, CoversInitial, EarnsOver, Equity, FinalizedBy, JustSettled, Ended,
        SettledSides, Closes, KeptWithin, EpochsExhausted, NearDustLimit, DustSumOverflows, LedgerInv, BookInv,
        OiShare, WithdrawRaw, Requirement, Finalized, AdmissionPairOk, ValidParams, Warmed, WarmedTotals, WarmupPanics,
        IsWhole, AccrualSucceeds, Tidy, RiskEngine.TouchedAt, RiskEngine.TotalsAt, RiskEngine.AccruedAt, SettledRow;
      r := AccrueAndTouch(i, now, price, rate, ctx);
      if r.Err? {
        return;
      }
      FinalizeOne(i, ctx);
      r := WithdrawTouched(i, amount, price);
      if r.Err? {
        return;
      }
      label Ending:
      r := EndOfInstruction(ctx);
      if r.Ok? || r == Err(CorruptState) {
        ClosesAfter(old(sides), old(lastOraclePrice), old@Ending(sides), sides, lastOraclePrice, 1, 0,
            MAX_DUST_PER_INSTRUCTION, MAX_EPOCHS_PER_INSTRUCTION);
      }
      if r == Err(CorruptState) {
        OverflowIsNear(old(sides), old(lastOraclePrice), sides, lastOraclePrice);
      } else if r.Err? {
        ExhaustedBefore(old(sides), old(lastOraclePrice), old@Ending(sides), lastOraclePrice, 1);
      }
    }

    /** withdraw_not_atomic. */
    method Withdraw(idx: nat, amount: u128, price: nat, now: u64, rate: int, hMin: nat, hMax: nat)
      returns (r: Result<()>)
      requires Valid()
      modifies this
      ensures r.Ok? <==>
                && AdmissionPairOk(hMin, hMax, params) && old(IsUsed(idx)) && marketMode.Live?
                && 1 <= price <= MAX_ORACLE_PRICE
                && old(WithdrawalSucceeds(idx, amount, now, price, rate, hMin, hMax))
      ensures r.Ok? ==> Valid() && OnlyRow(idx)
      ensures r == Err(CorruptState) ==> DustSumOverflows(sides)
      ensures r.Ok? || r == Err(CorruptState) ==> SidesWithin(MAX_DUST_PER_INSTRUCTION, MAX_EPOCHS_PER_INSTRUCTION)
      ensures r.Ok? ==> totals.vault == old(totals).vault - amount
      // a flat account without losses can always take all of its capital, short of a panic
      // of its own warmup and of what no run of 2^63 instructions can reach
      ensures old(IsUsed(idx)) && old(positions)[idx].basis == 0 && old(wallets)[idx].pnl >= 0
              && AdmissionPairOk(hMin, hMax, params) && old(AccrualSucceeds(now, price, rate))
              && !WarmupPanics(old(wallets)[idx], old(totals), now)
                   && amount == PostTouchCapital(old(wallets)[idx], old(totals), now)
              ==> r.Ok? || EpochsExhausted(old(sides)) || NearDustLimit(old(sides))
      // on success the account is settled, and its capital less the amount is left
      ensures r.Ok? ==>
                && idx < |wallets| == |old(wallets)| && !WarmupPanics(old(wallets)[idx], old(totals), now)
                && var w := old(SettledAt(idx, now, price, rate, hMin, hMax));
                   amount <= w.capital && wallets[idx] == w.(capital := w.capital - amount)
      // what an open account is left with reaches the initial requirement
      ensures r.Ok? ==>
                && idx < |old(wallets)| == |old(positions)| && idx < |wallets| && idx < |positions|
                && var s := old(StandingAt(idx, now, price, rate, hMin, hMax));
                   && positions[idx] == s.p && Ended(s.b, NO_RESET) == Ok(sides)
                   && totals.insurance - s.t.insurance == wallets[idx].feeCredits - s.w.feeCredits
                   && (EffectivePos(s.p, s.b) != 0 ==>
                         CoversInitial(wallets[idx], totals, 0, Abs(EffectivePos(s.p, s.b)), price, params))
      ensures r.Ok? ==> lastOraclePrice == price && lastMarketSlot == currentSlot == now
    {
      hide RiskEngine.WithdrawalSucceeds, CoversInitial, Ended, EffectivePos, RiskEngine.StandingAt, KeptWithin,
        EpochsExhausted, NearDustLimit, DustSumOverflows, LedgerInv, BookInv, AdmissionPairOk, ValidParams, PayoutOk,
        ClockOk, WarmupPanics, PostTouchCapital, Tidy, RiskEngine.SettledAt;
      assert |wallets| == |positions| == slots.capacity && slots.used.Length == slots.capacity;
      hide SlotsOk, LedgerOk, BookOk;
      if !AdmissionPairOk(hMin, hMax, params) || price == 0 || price > MAX_ORACLE_PRICE {
        return Err(Overflow);
      }
      if !IsUsed(idx) {
        return Err(AccountNotFound);
      }
      if !marketMode.Live? {
        return Err(Unauthorized);
      }
      var ctx := new InstructionContext(hMin, hMax);
      r := WithdrawLive(idx, amount, now, price, rate, ctx);
      if r.Ok? {
        SlotsKept(idx);
        AssertPublicPostconditions();
      }
    }

    /** settle_account_not_atomic up to the slots: touched, finalized, resets run. */
    method SettleLive(i: nat, now: nat, price: nat, rate: int, ctx: InstructionContext) returns (r: Result<()>)
      requires LiveOk() && i < |wallets| && now <= U64_MAX
      requires AdmissionPairOk(ctx.hMin, ctx.hMax, params) && ctx.touched == [] && ctx.sticky == []
                 && ctx.pending == NO_RESET
      modifies this`totals, this`wallets, this`positions, this`sides, this`currentSlot, this`lastMarketSlot,
               this`lastOraclePrice, this`fundPxLast, ctx
      ensures r.Ok? <==>
                && old(AccrualSucceeds(now, price, rate)) && !old(RefusedAt(i, now, price, rate, ctx.hMin, ctx.hMax))
                && Ended(old(StandingAt(i, now, price, rate, ctx.hMin, ctx.hMax)).b, NO_RESET).Ok?
      ensures r.Ok? ==> LiveOk() && OnlyRow(i)
      ensures r.Ok? ==> wallets[i] == old(SettledAt(i, now, price, rate, ctx.hMin, ctx.hMax))
      ensures r.Ok? ==> EndsAs(i, old(StandingAt(i, now, price, rate, ctx.hMin, ctx.hMax)))
      ensures r.Ok? ==> lastOraclePrice == price && lastMarketSlot == currentSlot == now
      // settled when the accrual began, an open account earns the price move on its size,
      // less the funding on it
      ensures r.Ok? ==>
                && |wallets| == |old(wallets)|
                && var p, b := old(positions)[i], old(sides);
                   JustSettled(p, b) && b.long.oi != 0 && b.short.oi != 0 && EffectivePos(p, b) != 0 ==>
                     EarnsOver(Equity(wallets[i]) - Equity(old(wallets)[i]), p, b.Get(SideOf(p)).a,
                               price - old(lastOraclePrice), old(fundPxLast) * rate * (now - old(lastMarketSlot)))
      ensures r == Err(CorruptState) ==> DustSumOverflows(sides)
      ensures r.Ok? || r == Err(CorruptState) ==> SidesWithin(MAX_DUST_PER_INSTRUCTION, MAX_EPOCHS_PER_INSTRUCTION)
      ensures r.Ok? ==> totals.vault == old(totals).vault
    {
      hide RiskEngine.RefusedAt, FinalizedBy, Equity, RowGains, EarnsOver, JustSettled, FundingNum, IsWhole,
        SettledSides, Ended, Steady, Closes, KeptWithin, LedgerInv, BookInv, EffectivePos, Finalized, AdmissionPairOk,
        ValidParams, Warmed, WarmedTotals, WarmupPanics, AccrualSucceeds, Tidy, RiskEngine.TouchedAt,
        RiskEngine.TotalsAt, Accrued, SettledRow;
      StillOpen(positions[i], sides, price - lastOraclePrice,
                FundingNum(sides, fundPxLast, rate, now - lastMarketSlot));
      r := AccrueAndTouch(i, now, price, rate, ctx);
      if r.Err? {
        return;
      }
      ghost var w, flat, t := wallets[i], positions[i].basis == 0, totals;
      FinalizeOne(i, ctx);
      FinalizedKeepsEquity(w, flat, IsWhole(t));
      label Ending:
      r := EndOfInstruction(ctx);
      if r.Ok? || r == Err(CorruptState) {
        ClosesAfter(old(sides), old(lastOraclePrice), old@Ending(sides), sides, lastOraclePrice, 1, 0,
            MAX_DUST_PER_INSTRUCTION, MAX_EPOCHS_PER_INSTRUCTION);
      }
    }

    /** Converts `x` of released profit at the current haircut.  The vault stays
        solvent and nobody else's haircut gets worse. */
    method ConvertStep(i: nat, x: nat)
      requires LedgerOk() && marketMode.Live? && i < |wallets| && 0 < x <= Released(wallets[i])
      modifies this`totals, this`wallets
      ensures LedgerOk()
      ensures var w, y := old(wallets)[i], Scale(x, Haircut(old(totals)));
              wallets == old(wallets)[i := w.(pnl := w.pnl - x, capital := w.capital + y)]
      ensures totals.vault == old(totals).vault && totals.insurance == old(totals).insurance
      ensures x <= old(totals).pnlMaturedPosTot <= old(totals).pnlPosTot && totals == Converted(old(totals), x)
      ensures var h, h' := Haircut(old(totals)), Haircut(totals);
              h.num * h'.den <= h'.num * h.den
      // the capital gained is the part of `x` that the vault can pay, rounded down
      ensures var t := old(totals);
              i < |wallets| && IsCovered(wallets[i].capital - old(wallets)[i].capital, x, t)
    {
      hide LedgerInv, Scale, Haircut, IsCovered;
      RowWithinTotals(totals, wallets, marketMode, currentSlot, params, i);
      Conserved(totals, wallets, marketMode, currentSlot, params);
      ConversionNeverLowersHaircut(totals, x);
      ConversionMeans(totals, x);
      var h := Haircut(totals);
      var y := Scale(x, h);
      ConsumeReleased(i, x);
      SetCapital(i, wallets[i].capital + y);
      assert totals == Converted(old(totals), x);
    }

    /** The conversion of a just-touched account: bounds, the flat cap, the conversion
        itself, the fee sweep, and the health check. */
    method ConvertTouched(i: nat, x: nat, price: nat) returns (r: Result<()>)
      requires LedgerOk() && marketMode.Live? && i < |wallets| == |positions|
      requires EffectivePos(positions[i], sides) == 0 ==> positions[i].basis == 0
      requires BookOk(NO_RESET) && ValidParams(params, |wallets|) && 1 <= price <= MAX_ORACLE_PRICE
      modifies this`totals, this`wallets
      ensures var w, h, e := old(wallets)[i], Haircut(old(totals)), EffectivePos(positions[i], sides);
              var w' := Swept(w.(pnl := w.pnl - x, capital := w.capital + Scale(x, h)));
              && h.num <= h.den
              && (r.Ok? <==>
                    && 0 < x <= Released(w)
                    && (positions[i].basis == 0 ==>
                         0 < MaintRaw(w) && MaintRaw(w) - x + Scale(x, h) >= 0 && !CapPanics(MaintRaw(w), h))
                    && (e != 0 ==> Exceeds(Equity(w'), Abs(e), price, params.maintenanceBps, params.minNonzeroMm)))
              && (r == Err(Panicked) <==> 0 < x <= Released(w) && positions[i].basis == 0 && CapPanics(MaintRaw(w), h))
              && (r.Ok? ==> wallets == old(wallets)[i := w'])
      ensures r.Ok? ==>
                && i < |wallets| == |old(wallets)|
                && ConvertedBy(old(wallets)[i], wallets[i], x, old(totals), positions[i].basis == 0)
                && (EffectivePos(positions[i], sides) != 0 ==>
                      Exceeds(Equity(wallets[i]), Abs(EffectivePos(positions[i], sides)), price,
                              params.maintenanceBps, params.minNonzeroMm))
      ensures r.Err? ==> r.error in {Overflow, Undercollateralized, Panicked}
      ensures r.Ok? ==> LedgerOk() && totals.vault == old(totals).vault
      ensures r.Ok? ==>
                && i < |wallets| == |old(wallets)|
                && totals.insurance - old(totals).insurance == wallets[i].feeCredits - old(wallets)[i].feeCredits
      ensures r.Ok? ==>
                var h, h' := Haircut(old(totals)), Haircut(totals);
                h.num * h'.den <= h'.num * h.den
      ensures r.Ok? ==>
                x <= old(totals).pnlMaturedPosTot <= old(totals).pnlPosTot
                    && IsWhole(totals) == IsWhole(Converted(old(totals), x))
    {
      hide LedgerInv, EffectivePos, Scale, Haircut, MaintRaw, MaintNet, Requirement, Swept, MaxSafeConversion,
        CapPanics, Released, AboveMaintenance, BookInv, ValidParams, ConvertedBy, Exceeds, Equity, DebtSwept, IsCovered;
      AllSound(totals, wallets, currentSlot, params);
      EquityIsExact(wallets[i]);
      if x == 0 || x > Released(wallets[i]) {
        return Err(Overflow);
      }
      var h := Haircut(totals);
      if h.den == 0 {
        assert false;
      }
      var e := EffectivePos(positions[i], sides);
      FlatConversionSafe(totals, wallets, currentSlot, params, i, x);
      if positions[i].basis == 0 {
        var cap := MaxSafeConversion(MaintRaw(wallets[i]), x, h);
        if cap.Err? {
          return Err(Panicked);
        }
        if x > cap.value {
          return Err(Undercollateralized);
        }
      }
      ghost var w0 := wallets[i];
      ConvertStep(i, x);
      ghost var t, y := totals, wallets[i].capital - w0.capital;
      FeeDebtSweep(i);
      SameHaircut(t, totals);
      if e != 0 {
        HealthMeans(totals, wallets, currentSlot, params, positions, sides, i, price);
      }
      if e != 0 {
        if !AboveMaintenance(wallets[i], Abs(e), price, params) {
          return Err(Undercollateralized);
        }
      } else {
        // the cap above already guarantees what is checked here
        if MaintRaw(wallets[i]) < 0 {
          assert false;
        }
      }
      ConvertedMeans(w0, wallets[i], x, y, old(totals), positions[i].basis == 0);
      r := Ok(());
    }

    method ConvertLive(i: nat, x: nat, now: nat, price: nat, rate: int, ctx: InstructionContext) returns (r: Result<()>)
      requires LiveOk() && i < |wallets| && now <= U64_MAX && 1 <= price <= MAX_ORACLE_PRICE
      requires AdmissionPairOk(ctx.hMin, ctx.hMax, params) && ctx.touched == [] && ctx.sticky == []
                 && ctx.pending == NO_RESET
      modifies this`totals, this`wallets, this`positions, this`sides, this`currentSlot, this`lastMarketSlot,
               this`lastOraclePrice, this`fundPxLast, ctx
      ensures r.Ok? <==> old(ConversionSucceeds(i, x, now, price, rate, ctx.hMin, ctx.hMax))
      ensures r.Ok? ==> LiveOk() && OnlyRow(i)
      ensures r == Err(CorruptState) ==> DustSumOverflows(sides)
      ensures r.Ok? || r == Err(CorruptState) ==> SidesWithin(MAX_DUST_PER_INSTRUCTION, MAX_EPOCHS_PER_INSTRUCTION)
      ensures r.Ok? ==> totals.vault == old(totals).vault
      ensures r.Ok? ==> old(Convertible(i, x, now, price, rate, ctx.hMin, ctx.hMax))
      ensures r.Ok? ==> wallets[i] == old(ConvertedAt(i, x, now, price, rate, ctx.hMin, ctx.hMax))
      ensures r.Ok? ==>
                && i < |old(wallets)| == |old(positions)| && i < |wallets| && i < |positions|
                && var s := old(StandingAt(i, now, price, rate, ctx.hMin, ctx.hMax));
                   && positions[i] == s.p && Ended(s.b, NO_RESET) == Ok(sides)
                   && totals.insurance - s.t.insurance == wallets[i].feeCredits - s.w.feeCredits
      ensures r.Ok? ==> lastOraclePrice == price && lastMarketSlot == currentSlot == now
    {
      hide RiskEngine.RefusedAt, TotalsWith, Ended, SettledSides, ConvertedBy, Exceeds, Equity, FinalizedBy, EarnsOver,
        Steady, Closes, KeptWithin, LedgerInv, BookInv, EffectivePos, Finalized, AdmissionPairOk, ValidParams, Warmed,
        WarmedTotals, WarmupPanics, AccrualSucceeds, Scale, Haircut, MaintRaw, MaintNet, Requirement, Swept,
        MaxSafeConversion, CapPanics, Released, Tidy, RiskEngine.TouchedAt, RiskEngine.TotalsAt, RiskEngine.AccruedAt,
        SettledRow, Converted, IsWhole;
      r := AccrueAndTouch(i, now, price, rate, ctx);
      if r.Err? {
        return;
      }
      r := ConvertTouched(i, x, price);
      if r.Err? {
        return;
      }
      FinalizeOne(i, ctx);
      label Ending:
      r := EndOfInstruction(ctx);
      if r.Ok? || r == Err(CorruptState) {
        ClosesAfter(old(sides), old(lastOraclePrice), old@Ending(sides), sides, lastOraclePrice, 1, 0,
            MAX_DUST_PER_INSTRUCTION, MAX_EPOCHS_PER_INSTRUCTION);
      }
    }

    /** settle_account_not_atomic. */
    method SettleAccount(idx: nat, price: nat, now: u64, rate: int, hMin: nat, hMax: nat) returns (r: Result<()>)
      requires Valid()
      modifies this
      ensures r.Ok? <==>
                && AdmissionPairOk(hMin, hMax, params) && old(IsUsed(idx))
                && old(AccrualSucceeds(now, price, rate)) && !old(RefusedAt(idx, now, price, rate, hMin, hMax))
                && Ended(old(StandingAt(idx, now, price, rate, hMin, hMax)).b, NO_RESET).Ok?
      ensures r.Ok? ==> Valid() && OnlyRow(idx) && totals.vault == old(totals).vault
      ensures r.Ok? ==> idx < |wallets| && wallets[idx] == old(SettledAt(idx, now, price, rate, hMin, hMax))
      ensures r.Ok? ==> EndsAs(idx, old(StandingAt(idx, now, price, rate, hMin, hMax)))
      ensures r.Ok? ==> lastOraclePrice == price && lastMarketSlot == currentSlot == now
      // settled when the accrual began, an open account earns the price move on its size,
      // less the funding on it
      ensures r.Ok? ==>
                && idx < |old(wallets)| == |old(positions)| && |wallets| == |old(wallets)|
                && var p, b := old(positions)[idx], old(sides);
                   JustSettled(p, b) && b.long.oi != 0 && b.short.oi != 0 && EffectivePos(p, b) != 0 ==>
                     EarnsOver(Equity(wallets[idx]) - Equity(old(wallets)[idx]), p, b.Get(SideOf(p)).a,
                               price - old(lastOraclePrice), old(fundPxLast) * rate * (now - old(lastMarketSlot)))
      ensures r == Err(CorruptState) ==> DustSumOverflows(sides)
      ensures r.Ok? || r == Err(CorruptState) ==> SidesWithin(MAX_DUST_PER_INSTRUCTION, MAX_EPOCHS_PER_INSTRUCTION)
    {
      hide RiskEngine.RefusedAt, Ended, RiskEngine.EndsAs, RiskEngine.StandingAt, Equity, EarnsOver, JustSettled,
        EffectivePos, KeptWithin, LedgerInv, BookInv, AdmissionPairOk, ValidParams, PayoutOk, ClockOk, Tidy,
        RiskEngine.SettledAt;
      assert |wallets| == |positions| == slots.capacity && slots.used.Length == slots.capacity;
      hide SlotsOk, LedgerOk, BookOk;
      if !AdmissionPairOk(hMin, hMax, params) || price == 0 || price > MAX_ORACLE_PRICE {
        return Err(Overflow);
      }
      if !IsUsed(idx) {
        return Err(AccountNotFound);
      }
      if !marketMode.Live? {
        return Err(Unauthorized);
      }
      var ctx := new InstructionContext(hMin, hMax);
      r := SettleLive(idx, now, price, rate, ctx);
      if r.Ok? {
        SlotsKept(idx);
        AssertPublicPostconditions();
      }
    }

    /** convert_released_pnl_not_atomic. */
    method ConvertReleasedPnl(idx: nat, x: u128, price: nat, now: u64, rate: int, hMin: nat, hMax: nat)
      returns (r: Result<()>)
      requires Valid()
      modifies this
      ensures r.Ok? <==>
                && AdmissionPairOk(hMin, hMax, params) && old(IsUsed(idx)) && marketMode.Live?
                && 1 <= price <= MAX_ORACLE_PRICE
                && old(ConversionSucceeds(idx, x, now, price, rate, hMin, hMax))
      ensures r.Ok? ==> Valid() && OnlyRow(idx) && totals.vault == old(totals).vault
      ensures r == Err(CorruptState) ==> DustSumOverflows(sides)
      ensures r.Ok? || r == Err(CorruptState) ==> SidesWithin(MAX_DUST_PER_INSTRUCTION, MAX_EPOCHS_PER_INSTRUCTION)
      ensures r.Ok? ==> idx < |wallets| && old(Convertible(idx, x, now, price, rate, hMin, hMax))
                        && wallets[idx] == old(ConvertedAt(idx, x, now, price, rate, hMin, hMax))
      ensures r.Ok? ==>
                && idx < |old(wallets)| == |old(positions)| && idx < |wallets| && idx < |positions|
                && var s := old(StandingAt(idx, now, price, rate, hMin, hMax));
                   && positions[idx] == s.p && Ended(s.b, NO_RESET) == Ok(sides)
                   && totals.insurance - s.t.insurance == wallets[idx].feeCredits - s.w.feeCredits
      ensures r.Ok? ==> lastOraclePrice == price && lastMarketSlot == currentSlot == now
    {
      hide RiskEngine.ConversionSucceeds, Ended, RiskEngine.StandingAt, KeptWithin, LedgerInv, BookInv,
        AdmissionPairOk, ValidParams, PayoutOk, ClockOk, Tidy, RiskEngine.ConvertedAt, RiskEngine.Convertible;
      assert |wallets| == |positions| == slots.capacity && slots.used.Length == slots.capacity;
      hide SlotsOk, LedgerOk, BookOk;
      if !AdmissionPairOk(hMin, hMax, params) || price == 0 || price > MAX_ORACLE_PRICE {
        return Err(Overflow);
      }
      if !IsUsed(idx) {
        return Err(AccountNotFound);
      }
      if !marketMode.Live? {
        return Err(Unauthorized);
      }
      var ctx := new InstructionContext(hMin, hMax);
      r := ConvertLive(idx, x, now, price, rate, ctx);
      if r.Ok? {
        SlotsKept(idx);
        AssertPublicPostconditions();
      }
    }

    /** The liquidation of a just-touched account, and its finalization. */
    method LiquidateTouched(i: nat, price: nat, policy: LiquidationPolicy, ctx: InstructionContext)
      returns (r: Result<bool>)
      requires LedgerOk() && BookOk(NO_RESET) && marketMode.Live? && i < |wallets| == |positions|
      requires ctx.pending == NO_RESET && ctx.touched == [i] && TouchedOk(ctx.touched, |wallets|)
                 && ValidParams(params, |wallets|)
      modifies this`totals, this`wallets, this`positions, this`sides, ctx`pending
      ensures r.Err? ==> r.error in {Overflow, Undercollateralized}
      ensures r.Ok? ==> LedgerOk() && BookOk(ctx.pending) && OnlyRow(i) && totals.vault == old(totals).vault
      ensures r == Ok(true) ==>
                var e := EffectivePos(old(positions)[i], old(sides));
                var s := Liquidated(old(StandingOf(i, NO_RESET)), policy, price, params);
                && e != 0
                && !Exceeds(Equity(old(wallets)[i]), Abs(e), price, params.maintenanceBps, params.minNonzeroMm)
                && positions[i] == s.p && wallets[i] == Finalized(s.w, s.p.basis == 0, IsWhole(s.t))
                && sides == s.b && ctx.pending == s.pending
                && totals.insurance - s.t.insurance == wallets[i].feeCredits - s.w.feeCredits
      ensures r == Ok(false) ==>
                var e := EffectivePos(old(positions)[i], old(sides));
                && (e == 0 || Exceeds(Equity(old(wallets)[i]), Abs(e), price, params.maintenanceBps,
                                      params.minNonzeroMm))
                && positions == old(positions) && sides == old(sides) && ctx.pending == NO_RESET
                && wallets[i] == Finalized(old(wallets)[i], positions[i].basis == 0, IsWhole(old(totals)))
                && totals.insurance - old(totals).insurance == wallets[i].feeCredits - old(wallets)[i].feeCredits
      ensures JustTouched(old(wallets)[i]) && 1 <= price <= MAX_ORACLE_PRICE ==>
                var s := old(StandingOf(i, NO_RESET));
                var e := EffectivePos(s.p, s.b);
                r.Ok? <==>
                  || e == 0 || Exceeds(Equity(s.w), Abs(e), price, params.maintenanceBps, params.minNonzeroMm)
                  || LiquidationFits(s, policy, price, params)
      ensures r.Ok? ==> Steady(old(sides), sides, price, MAX_CLOSE_DUST)
    {
      hide LiquidationFits, Steady, LedgerInv, BookInv, EffectivePos, Exceeds, Equity, LiquidatedBy, FinalizedBy,
        HintApproved, Finalized, IsWhole, ValidParams, Liquidated;
      r := LiquidateInternal(i, price, policy, ctx);
      if r.Ok? {
        FinalizeOne(i, ctx);
      }
    }

    /** Whether a liquidation of account `i` takes place: the equity of its open position is
        not above both bounds. */
    ghost predicate Liquidates(i: nat, now: nat, price: nat, rate: int, hMin: nat, hMax: nat)
      requires i < |wallets| == |positions|
      reads this`wallets, this`positions, this`totals, this`sides, this`lastOraclePrice, this`fundPxLast,
            this`lastMarketSlot
    {
      var s := StandingAt(i, now, price, rate, hMin, hMax);
      var e := EffectivePos(s.p, s.b);
      e != 0 && !Exceeds(Equity(s.w), Abs(e), price, params.maintenanceBps, params.minNonzeroMm)
    }

    /** What it leaves, up to the finalization and the end of the instruction. */
    function LiquidatedAt(i: nat, policy: LiquidationPolicy, now: nat, price: nat, rate: int, hMin: nat,
        hMax: nat): Standing
      requires i < |wallets| == |positions|
      reads this`wallets, this`positions, this`totals, this`sides, this`lastOraclePrice, this`fundPxLast,
            this`lastMarketSlot
    {
      Liquidated(StandingAt(i, now, price, rate, hMin, hMax), policy, price, params)
    }

    /** When a liquidation call on account `i` succeeds: the market can be accrued and the
        account touched, a liquidation fits, and the instruction can end. */
    ghost predicate LiquidationSucceeds(i: nat, policy: LiquidationPolicy, now: nat, price: nat, rate: int, hMin: nat,
        hMax: nat)
      requires i < |wallets| == |positions|
      reads this`marketMode, this`currentSlot, this`wallets, this`positions, this`totals, this`sides,
            this`lastOraclePrice, this`fundPxLast, this`lastMarketSlot
    {
      && AccrualSucceeds(now, price, rate) && !RefusedAt(i, now, price, rate, hMin, hMax)
      && var s := StandingAt(i, now, price, rate, hMin, hMax);
         if Liquidates(i, now, price, rate, hMin, hMax) then
           && LiquidationFits(s, policy, price, params)
           && var left := LiquidatedAt(i, policy, now, price, rate, hMin, hMax);
              Ended(left.b, left.pending).Ok?
         else Ended(s.b, NO_RESET).Ok?
    }

    /** Account `i` is the finalized `s`, and the sides are those of `s` once its scheduled
        resets have run. */
    predicate EndsAs(i: nat, s: Standing)
      reads this`wallets, this`positions, this`sides, this`totals
    {
      && i < |wallets| == |positions|
      && positions[i] == s.p && wallets[i] == Finalized(s.w, s.p.basis == 0, IsWhole(s.t))
      && Ended(s.b, s.pending) == Ok(sides)
      && totals.insurance - s.t.insurance == wallets[i].feeCredits - s.w.feeCredits
    }

    method LiquidateLive(i: nat, now: nat, price: nat, policy: LiquidationPolicy, rate: int, ctx: InstructionContext)
      returns (r: Result<bool>)
      requires LiveOk() && i < |wallets| && now <= U64_MAX
      requires AdmissionPairOk(ctx.hMin, ctx.hMax, params) && ctx.touched == [] && ctx.sticky == []
                 && ctx.pending == NO_RESET
      modifies this`totals, this`wallets, this`positions, this`sides, this`currentSlot, this`lastMarketSlot,
               this`lastOraclePrice, this`fundPxLast, ctx
      ensures r.Ok? <==> old(LiquidationSucceeds(i, policy, now, price, rate, ctx.hMin, ctx.hMax))
      ensures r.Ok? ==> LiveOk() && OnlyRow(i)
      ensures r.Ok? ==> lastOraclePrice == price && lastMarketSlot == currentSlot == now
      ensures r == Err(CorruptState) ==> DustSumOverflows(sides)
      ensures r.Ok? || r == Err(CorruptState) ==> SidesWithin(MAX_DUST_PER_INSTRUCTION, MAX_EPOCHS_PER_INSTRUCTION)
      ensures r.Ok? ==> totals.vault == old(totals).vault
      // only an account that is unhealthy once touched is liquidated, as the policy says;
      // any other is merely settled
      ensures r == Ok(true) ==>
                && i < |old(wallets)| == |old(positions)| && old(Liquidates(i, now, price, rate, ctx.hMin, ctx.hMax))
                && EndsAs(i, old(LiquidatedAt(i, policy, now, price, rate, ctx.hMin, ctx.hMax)))
      ensures r == Ok(false) ==>
                && i < |old(wallets)| == |old(positions)| && !old(Liquidates(i, now, price, rate, ctx.hMin, ctx.hMax))
                && i < |wallets| && wallets[i] == old(SettledAt(i, now, price, rate, ctx.hMin, ctx.hMax))
                && EndsAs(i, old(StandingAt(i, now, price, rate, ctx.hMin, ctx.hMax)))
    {
      hide Liquidated, Ended, JustTouched, LiquidationFits, RiskEngine.RefusedAt, Steady, Closes, KeptWithin,
        LedgerInv, BookInv, EffectivePos, Finalized, AdmissionPairOk, ValidParams, Warmed, WarmedTotals, WarmupPanics,
        AccrualSucceeds, Tidy, RiskEngine.TouchedAt, RiskEngine.TotalsAt, RiskEngine.AccruedAt, SettledRow,
        SettledSides, Exceeds, Equity, AttachedRow;
      var t := AccrueAndTouch(i, now, price, rate, ctx);
      if t.Err? {
        return Err(t.error);
      }
      label Touched:
      assert StandingOf(i, NO_RESET) == old(StandingAt(i, now, price, rate, ctx.hMin, ctx.hMax));
      r := LiquidateTouched(i, price, policy, ctx);
      if r.Err? {
        return;
      }
      SteadyAfter(old(sides), old(lastOraclePrice), old@Touched(sides), sides, price, 1, 0, MAX_CLOSE_DUST,
          1 + MAX_CLOSE_DUST);
      ghost var left := if r.value then old(LiquidatedAt(i, policy, now, price, rate, ctx.hMin, ctx.hMax))
                        else old(StandingAt(i, now, price, rate, ctx.hMin, ctx.hMax));
      assert r.value == old(Liquidates(i, now, price, rate, ctx.hMin, ctx.hMax));
      assert sides == left.b && ctx.pending == left.pending;
      label Ending:
      t := EndOfInstruction(ctx);
      if t.Ok? || t == Err(CorruptState) {
        ClosesAfter(old(sides), old(lastOraclePrice), old@Ending(sides), sides, price, 1 + MAX_CLOSE_DUST, 0,
            MAX_DUST_PER_INSTRUCTION, MAX_EPOCHS_PER_INSTRUCTION);
      }
      if t.Err? {
        return Err(t.error);
      }
    }

    /** liquidate_at_oracle_not_atomic. */
    method LiquidateAtOracle(idx: nat, now: u64, price: nat, policy: LiquidationPolicy, rate: int, hMin: nat, hMax: nat)
      returns (r: Result<bool>)
      requires Valid()
      modifies this
      ensures r.Ok? <==>
                && AdmissionPairOk(hMin, hMax, params) && old(IsUsed(idx)) && marketMode.Live?
                && old(LiquidationSucceeds(idx, policy, now, price, rate, hMin, hMax))
      ensures r.Ok? ==> Valid() && OnlyRow(idx) && totals.vault == old(totals).vault
      ensures r.Ok? ==> lastOraclePrice == price && lastMarketSlot == currentSlot == now
      ensures r == Err(CorruptState) ==> DustSumOverflows(sides)
      ensures r.Ok? || r == Err(CorruptState) ==> SidesWithin(MAX_DUST_PER_INSTRUCTION, MAX_EPOCHS_PER_INSTRUCTION)
      // only an account that is unhealthy once touched is liquidated, as the policy says;
      // any other is merely settled
      ensures r == Ok(true) ==>
                && idx < |old(wallets)| == |old(positions)| && old(Liquidates(idx, now, price, rate, hMin, hMax))
                && EndsAs(idx, old(LiquidatedAt(idx, policy, now, price, rate, hMin, hMax)))
      ensures r == Ok(false) ==>
                && idx < |old(wallets)| == |old(positions)| && !old(Liquidates(idx, now, price, rate, hMin, hMax))
                && idx < |wallets| && wallets[idx] == old(SettledAt(idx, now, price, rate, hMin, hMax))
                && EndsAs(idx, old(StandingAt(idx, now, price, rate, hMin, hMax)))
    {
      hide RiskEngine.StandingAt, DustSumOverflows, RiskEngine.LiquidationSucceeds, KeptWithin, LedgerInv, BookInv,
        AdmissionPairOk, ValidParams, PayoutOk, ClockOk, Tidy, RiskEngine.SettledAt, RiskEngine.Liquidates,
        RiskEngine.LiquidatedAt, RiskEngine.EndsAs;
      assert |wallets| == |positions| == slots.capacity && slots.used.Length == slots.capacity;
      hide SlotsOk, LedgerOk, BookOk;
      if !AdmissionPairOk(hMin, hMax, params) {
        return Err(Overflow);
      }
      if !IsUsed(idx) {
        return Err(AccountNotFound);
      }
      if !marketMode.Live? {
        return Err(Unauthorized);
      }
      var ctx := new InstructionContext(hMin, hMax);
      r := LiquidateLive(idx, now, price, policy, rate, ctx);
      if r.Ok? {
        SlotsKept(idx);
        AssertPublicPostconditions();
      }
    }

    /** check_live_accrual_envelope, with the saturating addition. */
    predicate WithinEnvelope(now: nat)
      reads this`lastMarketSlot
    {
      now <= Min(lastMarketSlot + params.maxAccrualDt, U64_MAX)
    }

    /** top_up_insurance_fund: an error leaves everything as it was. */
    method TopUpInsuranceFund(amount: u128, now: u64) returns (r: Result<bool>)
      requires Valid()
      modifies this`totals, this`currentSlot
      ensures Valid()
      ensures r.Err? ==> r.error in {Unauthorized, Overflow} && totals == old(totals) && currentSlot == old(currentSlot)
      ensures r.Ok? ==>
                totals == old(totals).(vault := old(totals).vault + amount, insurance := old(totals).insurance + amount)
      ensures r.Ok? <==>
                && marketMode.Live? && old(currentSlot) <= now && WithinEnvelope(now)
                && old(totals).vault + amount <= MAX_VAULT_TVL
      ensures r.Ok? ==> (r.value <==> totals.insurance > params.insuranceFloor)
      // the market can still be accrued at this slot
      ensures r.Ok? ==> now - lastMarketSlot <= params.maxAccrualDt
    {
      hide LedgerInv, BookInv, ValidParams, PayoutOk, SlotsOk, Tidy;
      if !marketMode.Live? {
        return Err(Unauthorized);
      }
      if now < currentSlot || !WithinEnvelope(now) {
        return Err(Overflow);
      }
      if totals.vault + amount > MAX_VAULT_TVL {
        return Err(Overflow);
      }
      SetCurrentSlot(now);
      TakeIn(amount, true);
      r := Ok(totals.insurance > params.insuranceFloor);
    }

    /** charge_account_fee_not_atomic. */
    method ChargeAccountFee(idx: nat, fee: u128, now: u64) returns (r: Result<()>)
      requires Valid()
      modifies this`totals, this`wallets, this`currentSlot
      ensures r.Err? ==> r.error in {Unauthorized, AccountNotFound, Overflow}
      ensures r.Ok? ==>
                Valid() && OnlyRow(idx) && idx < |old(wallets)| && wallets[idx] == Charged(old(wallets)[idx], fee)
      ensures r.Ok? ==> totals.vault == old(totals).vault && Residual(totals) == Residual(old(totals))
      ensures r.Ok? <==>
                && marketMode.Live? && old(IsUsed(idx)) && old(currentSlot) <= now && WithinEnvelope(now)
                && fee <= MAX_PROTOCOL_FEE_ABS
      ensures r.Ok? ==> FeeTaken(old(wallets)[idx], wallets[idx], fee, totals.insurance - old(totals).insurance)
      // the market can still be accrued at this slot
      ensures r.Ok? ==> now - lastMarketSlot <= params.maxAccrualDt
    {
      hide FeeTaken, LedgerInv, BookInv, AdmissionPairOk, ValidParams, PayoutOk, Tidy;
      assert |wallets| == |positions| == slots.capacity && slots.used.Length == slots.capacity;
      hide SlotsOk, LedgerOk, BookOk;
      if !marketMode.Live? {
        return Err(Unauthorized);
      }
      if !IsUsed(idx) {
        return Err(AccountNotFound);
      }
      if now < currentSlot || !WithinEnvelope(now) || fee > MAX_PROTOCOL_FEE_ABS {
        return Err(Overflow);
      }
      ChargeNow(idx, fee, now);
      SlotsKept(idx);
      AssertPublicPostconditions();
      r := Ok(());
    }

    method ChargeNow(i: nat, fee: nat, now: nat)
      requires LedgerOk() && marketMode.Live? && i < |wallets| && currentSlot <= now && fee <= MAX_PROTOCOL_FEE_ABS
      modifies this`totals, this`wallets, this`currentSlot
      ensures LedgerOk() && currentSlot == now
      ensures wallets == old(wallets)[i := Charged(old(wallets)[i], fee)]
      ensures totals.vault == old(totals).vault && Residual(totals) == Residual(old(totals))
      ensures FeeTaken(old(wallets)[i], wallets[i], fee, totals.insurance - old(totals).insurance)
    {
      hide LedgerInv, FeeTaken;
      Intact(totals, wallets, marketMode, currentSlot, params, i);
      NothingTaken(wallets[i]);
      NoFeeNoCharge(wallets[i]);
      SetCurrentSlot(now);
      if fee > 0 {
        var _ := ChargeFee(i, fee);
      }
      assert wallets == old(wallets)[i := Charged(old(wallets)[i], fee)];
    }

    /** deposit_fee_credits: an error leaves everything as it was. */
    method DepositFeeCredits(idx: nat, amount: u128, now: u64) returns (r: Result<()>)
      requires Valid()
      modifies this`totals, this`wallets, this`currentSlot
      ensures Valid()
      ensures r.Err? ==> r.error in {Unauthorized, AccountNotFound, Overflow}
      ensures r.Err? ==> totals == old(totals) && wallets == old(wallets) && currentSlot == old(currentSlot)
      ensures r.Ok? <==>
                && marketMode.Live? && old(IsUsed(idx)) && old(currentSlot) <= now && WithinEnvelope(now)
                && amount <= -old(wallets)[idx].feeCredits
                && (amount == 0 || old(totals).vault + amount <= MAX_VAULT_TVL)
      ensures r.Ok? ==>
                && OnlyRow(idx) && idx < |old(wallets)|
                && amount <= FeeDebt(old(wallets)[idx].feeCredits)
                && wallets[idx] == old(wallets)[idx].(feeCredits := old(wallets)[idx].feeCredits + amount)
                && totals == old(totals).(vault := old(totals).vault + amount,
                     insurance := old(totals).insurance + amount)
      // the market can still be accrued at this slot
      ensures r.Ok? ==> now - lastMarketSlot <= params.maxAccrualDt
    {
      hide LedgerInv, BookInv, AdmissionPairOk, ValidParams, PayoutOk, Tidy;
      assert |wallets| == |positions| == slots.capacity && slots.used.Length == slots.capacity;
      hide SlotsOk, LedgerOk, BookOk;
      if !marketMode.Live? {
        return Err(Unauthorized);
      }
      if !IsUsed(idx) {
        return Err(AccountNotFound);
      }
      if now < currentSlot || !WithinEnvelope(now) {
        return Err(Overflow);
      }
      NoCredit(totals, wallets, marketMode, currentSlot, params, idx);
      Intact(totals, wallets, marketMode, currentSlot, params, idx);
      if amount > FeeDebt(wallets[idx].feeCredits) {
        return Err(Overflow);
      }
      if amount == 0 {
        SetCurrentSlot(now);
        SlotsKept(idx);
        return Ok(());
      }
      if amount > I128_MAX || totals.vault + amount > MAX_VAULT_TVL {
        return Err(Overflow);
      }
      RepayFeeDebt(idx, amount, now);
      SlotsKept(idx);
      r := Ok(());
    }

    method RepayFeeDebt(i: nat, amount: nat, now: nat)
      requires LedgerOk() && i < |wallets| && amount <= FeeDebt(wallets[i].feeCredits)
      requires totals.vault + amount <= MAX_VAULT_TVL && currentSlot <= now
      modifies this`totals, this`wallets, this`currentSlot
      ensures LedgerOk() && currentSlot == now
      ensures wallets == old(wallets)[i := old(wallets)[i].(feeCredits := old(wallets)[i].feeCredits + amount)]
      ensures totals == old(totals).(vault := old(totals).vault + amount, insurance := old(totals).insurance + amount)
    {
      hide LedgerInv;
      SetCurrentSlot(now);
      TakeIn(amount, true);
      AddFeeCredits(i, amount);
    }

    method AddFeeCredits(i: nat, amount: nat)
      requires LedgerOk() && i < |wallets| && amount <= FeeDebt(wallets[i].feeCredits)
      modifies this`wallets
      ensures LedgerOk()
      ensures wallets == old(wallets)[i := old(wallets)[i].(feeCredits := old(wallets)[i].feeCredits + amount)]
    {
      hide LedgerInv;
      RowWithinTotals(totals, wallets, marketMode, currentSlot, params, i);
      Conserved(totals, wallets, marketMode, currentSlot, params);
      var w := wallets[i].(feeCredits := wallets[i].feeCredits + amount);
      CashMoveKeepsLedger(totals, wallets, marketMode, currentSlot, params, i, w, totals);
      wallets := wallets[i := w];
    }

    /** settle_flat_negative_pnl_not_atomic. */
    method SettleFlatNegativePnl(idx: nat, now: u64) returns (r: Result<()>)
      requires Valid()
      modifies this`totals, this`wallets, this`currentSlot
      ensures r.Err? ==> r.error in {Unauthorized, AccountNotFound, Overflow, Undercollateralized}
      ensures r.Ok? <==>
                && marketMode.Live? && old(IsUsed(idx)) && old(currentSlot) <= now && WithinEnvelope(now)
                && positions[idx].basis == 0 && old(wallets)[idx].reserve == NO_RESERVE
      ensures r.Ok? ==> Valid() && OnlyRow(idx) && idx < |old(wallets)| && totals.vault == old(totals).vault
      ensures r.Ok? ==>
                var w := Settled(old(wallets)[idx]);
                && wallets[idx] == w.(pnl := Max(w.pnl, 0))
                && totals.insurance == old(totals).insurance
                     - InsurancePays(old(totals).insurance, Pos(-w.pnl), params.insuranceFloor)
      // the market can still be accrued at this slot
      ensures r.Ok? ==> now - lastMarketSlot <= params.maxAccrualDt
    {
      hide EffAbs, LedgerInv, BookInv, AdmissionPairOk, ValidParams, PayoutOk, Tidy;
      assert |wallets| == |positions| == slots.capacity && slots.used.Length == slots.capacity;
      hide SlotsOk, LedgerOk, BookOk;
      if !marketMode.Live? {
        return Err(Unauthorized);
      }
      if !IsUsed(idx) {
        return Err(AccountNotFound);
      }
      if now < currentSlot || !WithinEnvelope(now) {
        return Err(Overflow);
      }
      if positions[idx].basis != 0 || wallets[idx].reserve != NO_RESERVE {
        return Err(Undercollateralized);
      }
      if wallets[idx].pnl >= 0 {
        SlotsKept(idx);
        return Ok(());
      }
      SettleFlat(idx, now);
      SlotsKept(idx);
      AssertPublicPostconditions();
      r := Ok(());
    }

    method SettleFlat(i: nat, now: nat)
      requires LedgerOk() && marketMode.Live? && i < |wallets| == |positions| && currentSlot <= now
      requires positions[i].basis == 0
      modifies this`totals, this`wallets, this`currentSlot
      ensures LedgerOk() && currentSlot == now && totals.vault == old(totals).vault
      ensures var w := Settled(old(wallets)[i]);
              && wallets == old(wallets)[i := w.(pnl := Max(w.pnl, 0))]
              && totals.insurance == old(totals).insurance
                   - InsurancePays(old(totals).insurance, Pos(-w.pnl), params.insuranceFloor)
    {
      hide LedgerInv, EffAbs;
      SetCurrentSlot(now);
      SettleLosses(i);
      ResolveFlatNegative(i);
    }

    // ---- instructions that take or give back a slot ----

    /** Blanks the row of a slot that has just been taken, and starts its fee clock. */
    method BlankRow(i: nat, slotAnchor: nat)
      requires LedgerOk() && i < |wallets| && wallets[i] == EMPTY_WALLET && slotAnchor <= currentSlot
      modifies this`wallets
      ensures LedgerOk()
      ensures wallets == old(wallets)[i := EMPTY_WALLET.(lastFeeSlot := slotAnchor)]
    {
      hide LedgerInv;
      RowWithinTotals(totals, wallets, marketMode, currentSlot, params, i);
      Conserved(totals, wallets, marketMode, currentSlot, params);
      var w := EMPTY_WALLET.(lastFeeSlot := slotAnchor);
      CashMoveKeepsLedger(totals, wallets, marketMode, currentSlot, params, i, w, totals);
      wallets := wallets[i := w];
    }

    /** The ledger side of a deposit. */
    method Credit(i: nat, amount: nat)
      requires LedgerOk() && BookOk(NO_RESET) && i < |wallets| == |positions| && marketMode.Live?
      requires totals.vault + amount <= MAX_VAULT_TVL
      modifies this`totals, this`wallets
      ensures LedgerOk()
      ensures totals.vault == old(totals).vault + amount && |wallets| == |old(wallets)|
      ensures totals.insurance - old(totals).insurance == wallets[i].feeCredits - old(wallets)[i].feeCredits
      ensures var w := Settled(old(wallets)[i].(capital := old(wallets)[i].capital + amount));
              wallets == old(wallets)[i := if positions[i].basis == 0 && w.pnl >= 0 then Swept(w) else w]
    {
      hide LedgerInv, Settled, Swept;
      SettledCredits(wallets[i].(capital := wallets[i].capital + amount));
      Conserved(totals, wallets, marketMode, currentSlot, params);
      Intact(totals, wallets, marketMode, currentSlot, params, i);
      if wallets[i].pnl == I128_MIN {
        assert false;
      }
      TakeIn(amount, false);
      SetCapital(i, wallets[i].capital + amount);
      SettleLosses(i);
      if positions[i].basis == 0 && wallets[i].pnl >= 0 {
        FeeDebtSweep(i);
      }
      AssertPublicPostconditions();
    }

    /** A missing account is materialized by a large enough deposit. */
    method MaterializeIfMissing(idx: nat, amount: nat, now: nat) returns (r: Result<()>)
      requires SlotsOk() && LedgerOk() && now <= currentSlot
      modifies this`wallets, slots, slots.used, slots.nextFree, slots.prevFree
      ensures r.Err? ==> r.error in {Overflow, InsufficientBalance, AccountNotFound}
      // an account in use needs nothing, a missing one a minimum deposit and a free slot
      ensures r.Ok? <==>
                || old(IsUsed(idx))
                || (&& amount >= params.minInitialDeposit && idx < slots.maxAccounts
                    && old(slots.numUsed) < slots.maxAccounts && old(slots.numUsed) < MAX_MATERIALIZED_ACCOUNTS)
      ensures r.Ok? ==> SlotsOk() && LedgerOk() && idx < |wallets| == |old(wallets)|
      ensures r.Ok? ==> slots.used[..] == old(slots.used[..])[idx := true]
      ensures r.Ok? ==>
                wallets == if old(slots.used[..])[idx] then old(wallets)
                    else old(wallets)[idx := EMPTY_WALLET.(lastFeeSlot := now)]
    {
      hide LedgerInv;
      if IsUsed(idx) {
        assert old(slots.used[..])[idx];
        return Ok(());
      }
      if amount < params.minInitialDeposit {
        return Err(InsufficientBalance);
      }
      r := slots.Materialize(idx);
      if r.Ok? {
        assert !old(slots.used[..])[idx];
        BlankRow(idx, now);
        SlotsMoved(idx);
      }
    }

    /** What an account's wallet is worth starting from: blank when it is missing. */
    ghost function WalletOrBlank(idx: nat, now: nat): Wallet
      requires slots.used.Length == slots.capacity == |wallets|
      reads this`wallets, slots, slots.used
    {
      if slots.IsUsed(idx) then wallets[idx] else EMPTY_WALLET.(lastFeeSlot := now)
    }

    method DepositInto(idx: nat, amount: nat, now: nat) returns (r: Result<()>)
      requires SlotsOk() && LedgerOk() && BookOk(NO_RESET) && now <= currentSlot && marketMode.Live?
      requires totals.vault + amount <= MAX_VAULT_TVL
      modifies this`totals, this`wallets, slots, slots.used, slots.nextFree, slots.prevFree
      ensures r.Err? ==> r.error in {Overflow, InsufficientBalance, AccountNotFound}
      ensures r.Ok? <==>
                || old(IsUsed(idx))
                || (&& amount >= params.minInitialDeposit && idx < slots.maxAccounts
                    && old(slots.numUsed) < slots.maxAccounts && old(slots.numUsed) < MAX_MATERIALIZED_ACCOUNTS)
      ensures r.Ok? ==> SlotsOk() && LedgerOk() && OnlyRow(idx) && totals.vault == old(totals).vault + amount
      ensures r.Ok? ==> idx < |old(wallets)| && slots.used[..] == old(slots.used[..])[idx := true]
      ensures r.Ok? ==>
                var w0 := old(WalletOrBlank(idx, now));
                var w := Settled(w0.(capital := w0.capital + amount));
                && wallets[idx] == (if positions[idx].basis == 0 && w.pnl >= 0 then Swept(w) else w)
                && totals.insurance - old(totals).insurance == wallets[idx].feeCredits - w0.feeCredits
    {
      hide LedgerInv, Settled, Swept;
      assert slots.used.Length == slots.capacity == |wallets| == |positions|;
      hide SlotsOk;
      r := MaterializeIfMissing(idx, amount, now);
      if r.Err? {
        return;
      }
      assert slots.used[..][idx];
      label Materialized:
      Credit(idx, amount);
      SlotsKept@Materialized(idx);
    }

    /** deposit_not_atomic. */
    method Deposit(idx: nat, amount: u128, now: u64) returns (r: Result<()>)
      requires Valid()
      modifies this`totals, this`wallets, this`currentSlot, slots, slots.used, slots.nextFree, slots.prevFree
      ensures r.Err? ==> r.error in {Unauthorized, Overflow, InsufficientBalance, AccountNotFound}
      ensures r.Ok? <==>
                && marketMode.Live? && old(currentSlot) <= now && lastMarketSlot <= now && WithinEnvelope(now)
                && old(totals).vault + amount <= MAX_VAULT_TVL
                && (|| old(IsUsed(idx))
                    || (&& amount >= params.minInitialDeposit && idx < slots.maxAccounts
                        && old(slots.numUsed) < slots.maxAccounts && old(slots.numUsed) < MAX_MATERIALIZED_ACCOUNTS))
      ensures r.Ok? ==> Valid() && OnlyRow(idx) && totals.vault == old(totals).vault + amount
      ensures r.Ok? ==> idx < |old(wallets)| && slots.used[..] == old(slots.used[..])[idx := true]
      ensures r.Ok? ==>
                var w0 := old(WalletOrBlank(idx, now));
                var w := Settled(w0.(capital := w0.capital + amount));
                && wallets[idx] == (if positions[idx].basis == 0 && w.pnl >= 0 then Swept(w) else w)
                && totals.insurance - old(totals).insurance == wallets[idx].feeCredits - w0.feeCredits
      // the market can still be accrued at this slot
      ensures r.Ok? ==> now - lastMarketSlot <= params.maxAccrualDt
    {
      hide LedgerInv, BookInv, ValidParams, PayoutOk, Settled, Swept, Tidy;
      assert slots.used.Length == slots.capacity == |wallets| == |positions|;
      hide SlotsOk, LedgerOk, BookOk;
      if !marketMode.Live? {
        return Err(Unauthorized);
      }
      if now < currentSlot || now < lastMarketSlot || !WithinEnvelope(now) {
        return Err(Overflow);
      }
      if totals.vault + amount > MAX_VAULT_TVL {
        return Err(Overflow);
      }
      SetCurrentSlot(now);
      r := DepositInto(idx, amount, now);
    }

    /** free_slot, on an account with nothing left in it. */
    method FreeSlot(i: nat)
      requires LedgerOk() && slots.Valid() && i < |wallets| == slots.capacity && slots.used[i]
      requires wallets[i] == EMPTY_WALLET.(lastFeeSlot := wallets[i].lastFeeSlot)
      requires |positions| == slots.capacity && positions[i] == FLAT
      modifies this`wallets, slots, slots.used, slots.nextFree, slots.prevFree
      ensures LedgerOk() && slots.Valid()
      ensures wallets == old(wallets)[i := EMPTY_WALLET]
      ensures slots.used[..] == old(slots.used[..])[i := false]
    {
      hide LedgerInv;
      RowWithinTotals(totals, wallets, marketMode, currentSlot, params, i);
      Conserved(totals, wallets, marketMode, currentSlot, params);
      CashMoveKeepsLedger(totals, wallets, marketMode, currentSlot, params, i, EMPTY_WALLET, totals);
      var w := wallets[i];
      if !slots.IsUsed(i) || w.pnl != 0 || w.reserve != NO_RESERVE || positions[i].basis != 0 || w.capital != 0
          || w.feeCredits != 0 {
        assert false;
      }
      wallets := wallets[i := EMPTY_WALLET];
      assert slots.used[..][i];
      var freed := slots.Free(i);
      if freed.Err? {
        assert false;
      }
    }

    /** sweep_empty_market_surplus_to_insurance: rounding left in the vault of an empty
        market goes to the insurance fund. */
    method SweepEmptyMarket()
      requires LedgerOk() && slots.Valid()
      modifies this`totals
      ensures LedgerOk()
      ensures totals == MarketSwept(old(totals), slots.numUsed, sides)
      // the fund gets everything once nobody is there and nothing is owed, and nothing before
      ensures var empty := slots.numUsed == 0 && totals.cTot == totals.pnlPosTot == totals.pnlMaturedPosTot == 0
                  && sides.long.oi == sides.short.oi == 0;
              totals == if empty then old(totals).(insurance := old(totals).vault) else old(totals)
    {
      hide WalletOk;
      if slots.numUsed != 0 {
        return;
      }
      if totals.cTot != 0 || totals.pnlPosTot != 0 || totals.pnlMaturedPosTot != 0 || sides.long.oi != 0
          || sides.short.oi != 0 {
        return;
      }
      if totals.vault < totals.insurance {
        assert false;
      }
      var surplus := totals.vault - totals.insurance;
      if surplus != 0 {
        totals := totals.(insurance := totals.insurance + surplus);
      }
    }

    /** The end of every instruction that closes an account: its slot is freed, and an
        empty market swept. */
    method GiveBack(idx: nat)
      requires LedgerOk() && BookOk(NO_RESET) && SlotsOk() && slots.IsUsed(idx)
      requires wallets[idx] == EMPTY_WALLET.(lastFeeSlot := wallets[idx].lastFeeSlot) && positions[idx] == FLAT
      modifies this`totals, this`wallets, slots, slots.used, slots.nextFree, slots.prevFree
      ensures LedgerOk() && SlotsOk()
      ensures wallets == old(wallets)[idx := EMPTY_WALLET]
      ensures slots.used[..] == old(slots.used[..])[idx := false]
      ensures totals == MarketSwept(old(totals), slots.numUsed, sides)
      ensures totals == old(totals).(insurance := totals.insurance) && totals.insurance >= old(totals).insurance
      ensures totals == old(totals) || (Sum(wallets, PosTerm()) == 0 && Residual(totals) >= 0)
    {
      hide LedgerInv;
      Conserved(totals, wallets, marketMode, currentSlot, params);
      FreeSlot(idx);
      PosTotal(totals, wallets, marketMode, currentSlot, params);
      SweepEmptyMarket();
      SlotsMoved(idx);
      AssertPublicPostconditions();
    }

    /** The checks of a voluntary close, and the payment of all capital. */
    method CloseTouched(i: nat) returns (r: Result<nat>)
      requires LedgerOk() && i < |wallets| == |positions|
      modifies this`totals, this`wallets
      ensures var w := old(wallets)[i];
              && (r.Ok? <==>
                    && EffectivePos(positions[i], sides) == 0
                    && w.pnl == 0 && w.feeCredits == 0 && w.reserve == NO_RESERVE)
              && (r.Ok? ==>
                    && r.value == w.capital
                    && wallets == old(wallets)[i := EMPTY_WALLET.(lastFeeSlot := w.lastFeeSlot)])
      ensures r.Err? ==> r.error in {Undercollateralized, PnlNotWarmedUp}
      ensures r.Ok? ==> LedgerOk() && r.value + totals.vault == old(totals).vault
      ensures r.Ok? ==> totals.insurance == old(totals).insurance
    {
      hide LedgerInv, EffectivePos;
      NoCredit(totals, wallets, marketMode, currentSlot, params, i);
      if EffectivePos(positions[i], sides) != 0 {
        return Err(Undercollateralized);
      }
      if wallets[i].pnl > 0 {
        return Err(PnlNotWarmedUp);
      }
      if wallets[i].pnl < 0 || wallets[i].feeCredits < 0 || wallets[i].reserve != NO_RESERVE {
        return Err(Undercollateralized);
      }
      var capital := wallets[i].capital;
      PayOut(i, capital);
      r := Ok(capital);
    }

    method CloseLive(i: nat, now: nat, price: nat, rate: int, ctx: InstructionContext) returns (r: Result<nat>)
      requires LiveOk() && i < |wallets| && now <= U64_MAX
      requires AdmissionPairOk(ctx.hMin, ctx.hMax, params) && ctx.touched == [] && ctx.sticky == []
                 && ctx.pending == NO_RESET
      modifies this`totals, this`wallets, this`positions, this`sides, this`currentSlot, this`lastMarketSlot,
               this`lastOraclePrice, this`fundPxLast, ctx
      ensures r.Ok? <==> old(ClosingSucceeds(i, now, price, rate, ctx.hMin, ctx.hMax))
      ensures r.Ok? ==> LiveOk() && OnlyRow(i)
      ensures r == Err(CorruptState) ==> DustSumOverflows(sides)
      ensures r.Ok? || r == Err(CorruptState) ==> SidesWithin(MAX_DUST_PER_INSTRUCTION, MAX_EPOCHS_PER_INSTRUCTION)
      ensures r.Ok? ==> r.value + totals.vault == old(totals).vault
      ensures r.Ok? ==> wallets[i] == EMPTY_WALLET.(lastFeeSlot := wallets[i].lastFeeSlot) && positions[i] == FLAT
      ensures r.Ok? ==> r.value == old(SettledAt(i, now, price, rate, ctx.hMin, ctx.hMax)).capital
      ensures r.Ok? ==>
                var s := old(StandingAt(i, now, price, rate, ctx.hMin, ctx.hMax));
                && Ended(s.b, NO_RESET) == Ok(sides) && totals.insurance == s.t.insurance - s.w.feeCredits
      ensures r.Ok? ==> lastOraclePrice == price && lastMarketSlot == currentSlot == now
    {
      hide RiskEngine.RefusedAt, TotalsWith, Ended, SettledSides, FinalizedBy, EarnsOver, Equity, Steady, Closes,
        KeptWithin, LedgerInv, BookInv, EffectivePos, Finalized, AdmissionPairOk, ValidParams, Warmed, WarmedTotals,
        WarmupPanics, AccrualSucceeds, Tidy, RiskEngine.TouchedAt, RiskEngine.TotalsAt, RiskEngine.AccruedAt,
        SettledRow;
      var t := AccrueAndTouch(i, now, price, rate, ctx);
      if t.Err? {
        return Err(t.error);
      }
      FinalizeOne(i, ctx);
      FlatIsBlank(positions, sides, i);
      r := CloseTouched(i);
      if r.Err? {
        return;
      }
      label Ending:
      t := EndOfInstruction(ctx);
      if t.Ok? || t == Err(CorruptState) {
        ClosesAfter(old(sides), old(lastOraclePrice), old@Ending(sides), sides, lastOraclePrice, 1, 0,
            MAX_DUST_PER_INSTRUCTION, MAX_EPOCHS_PER_INSTRUCTION);
      }
      if t.Err? {
        return Err(t.error);
      }
    }

    /** close_account_not_atomic. */
    method CloseAccount(idx: nat, now: u64, price: nat, rate: int, hMin: nat, hMax: nat) returns (r: Result<nat>)
      requires Valid()
      modifies this, slots, slots.used, slots.nextFree, slots.prevFree
      ensures r.Ok? <==>
                && AdmissionPairOk(hMin, hMax, params) && old(IsUsed(idx)) && old(marketMode).Live?
                && old(ClosingSucceeds(idx, now, price, rate, hMin, hMax))
      ensures r.Ok? ==> Valid() && OnlyRow(idx) && r.value + totals.vault == old(totals).vault
      ensures r.Ok? ==> idx < |old(wallets)| && slots.used[..] == old(slots.used[..])[idx := false]
      ensures r == Err(CorruptState) ==> DustSumOverflows(sides)
      ensures r.Ok? || r == Err(CorruptState) ==> SidesWithin(MAX_DUST_PER_INSTRUCTION, MAX_EPOCHS_PER_INSTRUCTION)
      ensures r.Ok? ==> r.value == old(SettledAt(idx, now, price, rate, hMin, hMax)).capital
      // the fund gains the debt paid off, or everything that is left in an empty market
      ensures r.Ok? ==>
                && idx < |old(positions)|
                && var s := old(StandingAt(idx, now, price, rate, hMin, hMax));
                   && Ended(s.b, NO_RESET) == Ok(sides)
                   && (totals.insurance == s.t.insurance - s.w.feeCredits || totals.insurance == totals.vault)
      ensures r.Ok? ==> lastOraclePrice == price && lastMarketSlot == currentSlot == now
    {
      hide RiskEngine.ClosingSucceeds, KeptWithin, LedgerInv, BookInv, AdmissionPairOk, ValidParams, PayoutOk, ClockOk,
        Tidy, RiskEngine.SettledAt, RiskEngine.StandingAt, Ended;
      assert |wallets| == |positions| == slots.capacity && slots.used.Length == slots.capacity;
      hide SlotsOk, LedgerOk, BookOk;
      if !AdmissionPairOk(hMin, hMax, params) {
        return Err(Overflow);
      }
      if !marketMode.Live? {
        return Err(Unauthorized);
      }
      if !IsUsed(idx) {
        return Err(AccountNotFound);
      }
      var ctx := new InstructionContext(hMin, hMax);
      r := CloseLive(idx, now, price, rate, ctx);
      if r.Ok? {
        SlotsKept(idx);
        GiveBack(idx);
      }
    }

    /** What lets an account be reclaimed: nothing open, nothing owed to it, and less than
        a minimum deposit of capital. */
    predicate Reclaimable(idx: nat)
      requires slots.used.Length == slots.capacity == |wallets| == |positions|
      reads this`wallets, this`positions, slots, slots.used
    {
      && slots.IsUsed(idx) && positions[idx].basis == 0 && wallets[idx].pnl == 0 && wallets[idx].reserve == NO_RESERVE
      && (wallets[idx].capital < params.minInitialDeposit || wallets[idx].capital == 0)
    }

    /** reclaim_empty_account_not_atomic: dust goes to the insurance fund. */
    method ReclaimEmptyAccount(idx: nat, now: u64) returns (r: Result<()>)
      requires Valid()
      modifies this`totals, this`wallets, this`currentSlot, slots, slots.used, slots.nextFree, slots.prevFree
      ensures r.Ok? <==> marketMode.Live? && old(currentSlot) <= now && WithinEnvelope(now) && old(Reclaimable(idx))
      ensures r.Err? ==> r.error in {Unauthorized, AccountNotFound, Overflow, Undercollateralized}
      ensures r.Ok? ==> Valid() && OnlyRow(idx) && totals.vault == old(totals).vault
      ensures r.Ok? ==> idx < |old(wallets)| && slots.used[..] == old(slots.used[..])[idx := false]
      // the capital goes to the fund; if this was the last account, so does all that is left
      ensures r.Ok? ==>
                var c := old(wallets)[idx].capital;
                && c <= old(totals).cTot
                && totals == MarketSwept(old(totals).(cTot := old(totals).cTot - c,
                     insurance := old(totals).insurance + c),
                                         slots.numUsed, sides)
      // the market can still be accrued at this slot
      ensures r.Ok? ==> now - lastMarketSlot <= params.maxAccrualDt
      ensures r.Ok? ==>
                var p, w := old(positions)[idx], old(wallets)[idx];
                p.basis == 0 && w.pnl == 0 && w.reserve == NO_RESERVE
                    && (w.capital < params.minInitialDeposit || w.capital == 0)
    {
      hide LedgerInv, BookInv, AdmissionPairOk, PayoutOk, Tidy;
      assert |wallets| == |positions| == slots.capacity && slots.used.Length == slots.capacity;
      hide SlotsOk;
      if !marketMode.Live? {
        return Err(Unauthorized);
      }
      if !IsUsed(idx) {
        return Err(AccountNotFound);
      }
      if now < currentSlot || !WithinEnvelope(now) {
        return Err(Overflow);
      }
      var w := wallets[idx];
      if positions[idx].basis != 0 || w.pnl != 0 || w.reserve != NO_RESERVE {
        return Err(Undercollateralized);
      }
      NoCredit(totals, wallets, marketMode, currentSlot, params, idx);
      if w.feeCredits > 0 {
        assert false;
      }
      if w.capital >= params.minInitialDeposit && w.capital != 0 {
        return Err(Undercollateralized);
      }
      FlatIsBlank(positions, sides, idx);
      EmptyAndFree(idx, now);
      r := Ok(());
    }

    method EmptyAndFree(idx: nat, now: nat)
      requires LedgerOk() && BookOk(NO_RESET) && SlotsOk() && slots.IsUsed(idx) && currentSlot <= now
      requires positions[idx] == FLAT && wallets[idx].pnl == 0 && wallets[idx].reserve == NO_RESERVE
      modifies this`totals, this`wallets, this`currentSlot, slots, slots.used, slots.nextFree, slots.prevFree
      ensures LedgerOk() && SlotsOk() && OnlyRow(idx) && currentSlot == now && totals.vault == old(totals).vault
      ensures slots.used[..] == old(slots.used[..])[idx := false]
      ensures var c := old(wallets)[idx].capital;
              && c <= old(totals).cTot
              && totals == MarketSwept(old(totals).(cTot := old(totals).cTot - c,
                   insurance := old(totals).insurance + c),
                                       slots.numUsed, sides)
    {
      hide LedgerInv;
      assert |wallets| == |positions| == slots.capacity && slots.used.Length == slots.capacity;
      hide SlotsOk;
      SetCurrentSlot(now);
      DustToInsurance(idx);
      SlotsKept(idx);
      GiveBack(idx);
    }

    /** Moves an account's capital to the insurance fund and forgives its fee debt. */
    method DustToInsurance(i: nat)
      requires LedgerOk() && i < |wallets|
      modifies this`totals, this`wallets
      ensures LedgerOk()
      ensures wallets == old(wallets)[i := old(wallets)[i].(capital := 0, feeCredits := 0)]
      ensures var c := old(wallets)[i].capital;
              && c <= old(totals).cTot
              && totals == old(totals).(cTot := old(totals).cTot - c, insurance := old(totals).insurance + c)
    {
      hide LedgerInv;
      RowWithinTotals(totals, wallets, marketMode, currentSlot, params, i);
      Conserved(totals, wallets, marketMode, currentSlot, params);
      NoCredit(totals, wallets, marketMode, currentSlot, params, i);
      var w := wallets[i];
      var t := totals.(cTot := totals.cTot - w.capital, insurance := totals.insurance + w.capital);
      CashMoveKeepsLedger(totals, wallets, marketMode, currentSlot, params, i, w.(capital := 0, feeCredits := 0), t);
      wallets := wallets[i := w.(capital := 0)];
      totals := t;
      if w.feeCredits < 0 {
        wallets := wallets[i := wallets[i].(feeCredits := 0)];
      }
      assert wallets == old(wallets)[i := w.(capital := 0, feeCredits := 0)];
    }


    // ---- fees over time ----

    /** Moves an account's fee clock forward. */
    method SetFeeSlot(i: nat, anchor: nat)
      requires LedgerOk() && i < |wallets| && anchor <= currentSlot
      modifies this`wallets
      ensures LedgerOk() && wallets == old(wallets)[i := old(wallets)[i].(lastFeeSlot := anchor)]
    {
      hide LedgerInv;
      RowWithinTotals(totals, wallets, marketMode, currentSlot, params, i);
      Conserved(totals, wallets, marketMode, currentSlot, params);
      var w := wallets[i].(lastFeeSlot := anchor);
      CashMoveKeepsLedger(totals, wallets, marketMode, currentSlot, params, i, w, totals);
      wallets := wallets[i := w];
    }

    /** sync_account_fee_to_slot at an anchor that is not in the past or the future. */
    method SyncFeeTo(i: nat, anchor: nat, rate: nat)
      requires LedgerOk() && i < |wallets| && wallets[i].lastFeeSlot <= anchor <= currentSlot
      modifies this`totals, this`wallets
      ensures LedgerOk()
      ensures wallets == old(wallets)[i := Synced(old(wallets)[i], anchor, rate)]
                && wallets[i].pnl == old(wallets)[i].pnl
      ensures totals.vault == old(totals).vault && Residual(totals) == Residual(old(totals))
      ensures totals.negPnlCount == old(totals).negPnlCount
      ensures var w := old(wallets)[i];
              && FeeTaken(w, wallets[i].(lastFeeSlot := w.lastFeeSlot),
                          Min(rate * (anchor - w.lastFeeSlot), MAX_PROTOCOL_FEE_ABS), w.capital - wallets[i].capital)
              && totals.insurance - old(totals).insurance == w.capital - wallets[i].capital
    {
      hide LedgerInv, FeeTaken;
      RowWithinTotals(totals, wallets, marketMode, currentSlot, params, i);
      SyncedMeans(wallets[i], anchor, rate);
      var dt := anchor - wallets[i].lastFeeSlot;
      if dt == 0 {
        NoTimeNoFee(wallets[i], anchor, rate);
        assert wallets[i := wallets[i]] == wallets;
        return;
      }
      if rate == 0 {
        NoTimeNoFee(wallets[i], anchor, rate);
        SetFeeSlot(i, anchor);
        return;
      }
      var fee := Min(rate * dt, MAX_PROTOCOL_FEE_ABS);
      if fee > 0 {
        var _ := ChargeFee(i, fee);
      }
      SetFeeSlot(i, anchor);
    }

    /** sync_account_fee_to_slot_not_atomic: a live account pays up to `now`, a resolved
        one up to the slot of resolution. */
    method SyncAccountFee(idx: nat, now: u64, rate: u128) returns (r: Result<()>)
      requires Valid()
      modifies this`totals, this`wallets, this`currentSlot
      ensures r.Ok? <==> old(IsUsed(idx)) && old(currentSlot) <= now && (marketMode.Live? ==> WithinEnvelope(now))
      ensures r.Err? ==> r.error in {AccountNotFound, Overflow}
      ensures r.Ok? ==> Valid() && OnlyRow(idx) && idx < |old(wallets)|
      ensures r.Ok? ==> totals.vault == old(totals).vault && Residual(totals) == Residual(old(totals))
      ensures r.Ok? ==>
                var anchor := if marketMode.Live? then now else resolvedSlot;
                old(wallets)[idx].lastFeeSlot <= anchor && wallets[idx] == Synced(old(wallets)[idx], anchor, rate)
      // every slot since the last charge is paid for at the rate, up to the cap, like any fee
      ensures r.Ok? ==>
                var w, anchor := old(wallets)[idx], if marketMode.Live? then now else resolvedSlot;
                && wallets[idx].lastFeeSlot == anchor
                && FeeTaken(w, wallets[idx].(lastFeeSlot := w.lastFeeSlot),
                            Min(rate * (anchor - w.lastFeeSlot), MAX_PROTOCOL_FEE_ABS),
                            totals.insurance - old(totals).insurance)
      // the market can still be accrued at this slot
      ensures r.Ok? && marketMode.Live? ==> now - lastMarketSlot <= params.maxAccrualDt
    {
      hide FeeTaken, LedgerInv, BookInv, ValidParams, PayoutOk, Synced, TerminalSides, Tidy;
      assert |wallets| == |positions| == slots.capacity && slots.used.Length == slots.capacity;
      hide SlotsOk;
      if !IsUsed(idx) {
        return Err(AccountNotFound);
      }
      if now < currentSlot {
        return Err(Overflow);
      }
      var anchor;
      if marketMode.Live? {
        if !WithinEnvelope(now) {
          return Err(Overflow);
        }
        SetCurrentSlot(now);
        anchor := now;
      } else {
        anchor := resolvedSlot;
      }
      FeeClockBehind(totals, wallets, marketMode, currentSlot, params, idx);
      SyncedClock(wallets[idx], anchor, rate);
      SyncFeeTo(idx, anchor, rate);
      if payout.Some? {
        FeesKeepPayout(payout.value, old(totals), totals, old(wallets), wallets, sides, idx);
      }
      SlotsKept(idx);
      AssertPublicPostconditions();
      r := Ok(());
    }


    // ---- trading ----

    /** Books the slippage of a trade on both legs: what one gains the other loses. */
    method BookTradePnl(i: nat, j: nat, pnl: int, ctx: InstructionContext) returns (r: Result<()>)
      requires LedgerOk() && marketMode.Live? && i < |wallets| && j < |wallets| && i != j
      requires AdmissionPairOk(ctx.hMin, ctx.hMax, params)
      modifies this`totals, this`wallets, ctx`sticky
      ensures r.Err? ==> r.error == Overflow
      ensures r.Ok? ==> LedgerOk() && |wallets| == |old(wallets)|
      ensures r.Ok? ==> wallets[i] == old(wallets)[i].(pnl := old(wallets)[i].pnl + pnl, reserve := wallets[i].reserve)
      ensures r.Ok? ==> wallets[j] == old(wallets)[j].(pnl := old(wallets)[j].pnl - pnl, reserve := wallets[j].reserve)
      ensures r.Ok? ==> wallets == old(wallets)[i := wallets[i]][j := wallets[j]]
      ensures r.Ok? ==> MaintRawWide(wallets[i]) == MaintRawWide(old(wallets)[i]) + pnl
      ensures r.Ok? ==> MaintRawWide(wallets[j]) == MaintRawWide(old(wallets)[j]) - pnl
      ensures r.Ok? ==> totals.vault == old(totals).vault && totals.insurance == old(totals).insurance
      // a gain is admitted like any other rise
      ensures r.Ok? ==>
                PairBooked(old(wallets), old(totals), wallets, i, j, pnl, i in old(ctx.sticky), j in old(ctx.sticky),
                           ctx.hMin, ctx.hMax, currentSlot)
    {
      hide LedgerInv, PnlMoved, AdmissionPairOk, BecomesHeld;
      var pnlI := wallets[i].pnl + pnl;
      if !IsI128(pnlI) {
        return Err(Overflow);
      }
      r := SetPnlAdmitted(i, pnlI, ctx);
      if r.Err? {
        return;
      }
      MovedPnl(old(wallets)[i], pnlI, wallets[i], currentSlot);
      var pnlJ := wallets[j].pnl - pnl;
      if !IsI128(pnlJ) {
        return Err(Overflow);
      }
      ghost var w, t := wallets[j], totals;
      TotalsDetermined(old(totals), old(wallets), totals, i, wallets[i], currentSlot, currentSlot, params);
      r := SetPnlAdmitted(j, pnlJ, ctx);
      if r.Err? {
        return;
      }
      MovedPnl(w, pnlJ, wallets[j], currentSlot);
    }

    /** Attaches both new sizes and writes the open interest computed beforehand. */
    method AttachPair(i: nat, j: nat, newI: int, newJ: int, longOi: nat, shortOi: nat) returns (r: Result<()>)
      requires BookOk(NO_RESET) && i < |positions| && j < |positions| && i != j
      requires !sides.long.mode.ResetPending? && !sides.short.mode.ResetPending?
      requires Abs(newI) <= MAX_POSITION_ABS_Q && Abs(newJ) <= MAX_POSITION_ABS_Q
      requires newI + newJ == EffectivePos(positions[i], sides) + EffectivePos(positions[j], sides)
      requires longOi == sides.long.oi - Pos(EffectivePos(positions[i], sides))
                 - Pos(EffectivePos(positions[j], sides)) + Pos(newI) + Pos(newJ)
      requires shortOi == sides.short.oi - Pos(-EffectivePos(positions[i], sides))
                 - Pos(-EffectivePos(positions[j], sides)) + Pos(-newI) + Pos(-newJ)
      requires longOi <= MAX_OI_SIDE_Q && |positions| < NIL
      modifies this`positions, this`sides
      ensures r.Err? ==> r.error == Overflow
      ensures r.Ok? ==> BookOk(NO_RESET) && sides.long.oi == longOi == sides.short.oi == shortOi
      ensures r.Ok? ==>
                positions == old(positions)[i := AttachedRow(newI, old(sides))][j := AttachedRow(newJ, old(sides))]
      ensures r.Ok? ==> EffectivePos(positions[i], sides) == newI && EffectivePos(positions[j], sides) == newJ
      ensures r.Ok? ==> positions[i].basis == newI && positions[j].basis == newJ
      ensures r.Ok? ==> SameIndices(old(sides), sides) && DustWithin(old(sides), sides, 2)
    {
      hide RowsInv, EffectivePos, OrphansDust, EffAbs;
      var b := sides;
      var p, q := positions[i], positions[j];
      TradeKeepsBook(positions, sides, i, j, newI, newJ, longOi, shortOi);
      NeverStale(positions, sides, i);
      NeverStale(positions, sides, j);
      OpenMultipliers(positions, sides);
      RowCounted(positions, sides, i);
      CountersFit(positions, sides);
      AttachedCountsWithin(p, newI, sides);
      r := AttachEffectivePosition(i, newI);
      if r.Err? {
        return;
      }
      SameEpochs(p, newI, b);
      AttachedWithin(p, newI, b);
      AttachedWithin(q, newJ, sides);
      r := AttachEffectivePosition(j, newJ);
      if r.Err? {
        return;
      }
      SameEpochs(q, newJ, sides);
      sides := sides.(long := sides.long.(oi := longOi));
      sides := sides.(short := sides.short.(oi := shortOi));
      SameEpochs(q, newJ, AttachedCounts(p, newI, b));
      SameRow(newJ, b, AttachedCounts(p, newI, b));
      AttachedEffective(newI, b, sides);
      AttachedEffective(newJ, b, sides);
    }


    /** Everything a trade must pass before it changes anything: size limits, open
        interest, side modes and the position caps.  Returns the open interest after
        the trade.  Its corrupt-state exits are unreachable. */
    method TradeGate(i: nat, j: nat, size: nat, price: nat) returns (r: Result<(nat, nat)>)
      requires BookOk(NO_RESET) && i < |positions| && j < |positions| && i != j && size > 0
      modifies this`sides
      ensures BookOk(NO_RESET) && sides == ReopenedSides(old(sides))
      ensures r.Err? ==> r.error in {Overflow, SideBlocked}
      ensures r.Ok? <==>
                var oldI, oldJ := old(EffectivePos(positions[i], sides)), old(EffectivePos(positions[j], sides));
                var newI, newJ := oldI + size, oldJ - size;
                var longOi := sides.long.oi - Pos(oldI) - Pos(oldJ) + Pos(newI) + Pos(newJ);
                var shortOi := sides.short.oi - Pos(-oldI) - Pos(-oldJ) + Pos(-newI) + Pos(-newJ);
                && Abs(newI) <= MAX_POSITION_ABS_Q && Abs(newJ) <= MAX_POSITION_ABS_Q
                && Abs(newI) * price < (MAX_ACCOUNT_NOTIONAL + 1) * POS_SCALE
                && Abs(newJ) * price < (MAX_ACCOUNT_NOTIONAL + 1) * POS_SCALE
                && longOi <= MAX_OI_SIDE_Q && shortOi <= MAX_OI_SIDE_Q
                && (longOi > sides.long.oi ==> sides.long.mode.Normal?)
                && (shortOi > sides.short.oi ==> sides.short.mode.Normal?)
                && sides.long.stored - OnLong(oldI) - OnLong(oldJ) + OnLong(newI)
                     + OnLong(newJ) <= params.maxActivePerSide
                && sides.short.stored - OnLong(-oldI) - OnLong(-oldJ) + OnLong(-newI)
                     + OnLong(-newJ) <= params.maxActivePerSide
      ensures var oldI, oldJ := old(EffectivePos(positions[i], sides)), old(EffectivePos(positions[j], sides));
              && EffectivePos(positions[i], sides) == oldI && EffectivePos(positions[j], sides) == oldJ
              && (r.Ok? ==>
                    && !sides.long.mode.ResetPending? && !sides.short.mode.ResetPending?
                    && r.value.0 == sides.long.oi - Pos(oldI) - Pos(oldJ) + Pos(oldI + size) + Pos(oldJ - size)
                    && r.value.1 == sides.short.oi - Pos(-oldI) - Pos(-oldJ) + Pos(-(oldI + size))
                         + Pos(-(oldJ - size)))
    {
      hide BookInv, EffAbs, OiShare;
      var oldI, oldJ := EffectivePos(positions[i], sides), EffectivePos(positions[j], sides);
      hide EffectivePos, Notional;
      var newI, newJ := oldI + size, oldJ - size;
      NotionalAtMost(Abs(newI), price, MAX_ACCOUNT_NOTIONAL);
      NotionalAtMost(Abs(newJ), price, MAX_ACCOUNT_NOTIONAL);
      ReopenedEffective(positions[i], sides);
      ReopenedEffective(positions[j], sides);
      MaybeFinalizeReadySides();
      if Abs(newI) > MAX_POSITION_ABS_Q || Abs(newJ) > MAX_POSITION_ABS_Q {
        return Err(Overflow);
      }
      if Notional(Abs(newI), price) > MAX_ACCOUNT_NOTIONAL || Notional(Abs(newJ), price) > MAX_ACCOUNT_NOTIONAL {
        return Err(Overflow);
      }
      PairWithinOi(positions, sides, i, j);
      var longOi := TradedOi(sides.long.oi, Pos(oldI) + Pos(oldJ), Pos(newI), Pos(newJ));
      var shortOi := TradedOi(sides.short.oi, Pos(-oldI) + Pos(-oldJ), Pos(-newI), Pos(-newJ));
      if longOi.Err? || shortOi.Err? {
        assert false;
      }
      if longOi.value > MAX_OI_SIDE_Q || shortOi.value > MAX_OI_SIDE_Q {
        return Err(Overflow);
      }
      if !sides.long.mode.Normal? && longOi.value > sides.long.oi {
        return Err(SideBlocked);
      }
      if !sides.short.mode.Normal? && shortOi.value > sides.short.oi {
        return Err(SideBlocked);
      }
      GateIsOpen(positions, sides, i, j, size);
      PairWithinCounts(positions, sides, i, j);
      var finalLong := sides.long.stored - OnLong(oldI) - OnLong(oldJ) + OnLong(newI) + OnLong(newJ);
      var finalShort := sides.short.stored - OnLong(-oldI) - OnLong(-oldJ) + OnLong(-newI) + OnLong(-newJ);
      if finalLong < 0 || finalShort < 0 {
        assert false;
      }
      if finalLong > params.maxActivePerSide || finalShort > params.maxActivePerSide {
        return Err(Overflow);
      }
      r := Ok((longOi.value, shortOi.value));
    }


    /** Settles both legs' losses from capital, then charges both the trading fee;
        returns what the fee took from each. */
    method SettleAndChargePair(i: nat, j: nat, fee: nat) returns (r: Result<(nat, nat)>)
      requires LedgerOk() && marketMode.Live? && i < |wallets| && j < |wallets| && i != j
      modifies this`totals, this`wallets
      ensures r.Err? ==> r.error == Overflow
      ensures r.Ok? ==> LedgerOk() && totals.vault == old(totals).vault
      ensures r.Ok? ==>
                wallets == old(wallets)[i := Charged(Settled(old(wallets)[i]),
                    fee)][j := Charged(Settled(old(wallets)[j]), fee)]
      ensures r.Ok? ==> MaintRawWide(wallets[i]) == MaintRawWide(old(wallets)[i]) - r.value.0 && r.value.0 <= fee
      ensures r.Ok? ==> MaintRawWide(wallets[j]) == MaintRawWide(old(wallets)[j]) - r.value.1 && r.value.1 <= fee
      // both pay the fee, in cash as far as they can, and the fund gets the cash
      ensures r.Ok? ==>
                && |wallets| == |old(wallets)|
                && PairCharged(old(wallets)[i], wallets[i], old(wallets)[j], wallets[j], fee,
                               totals.insurance - old(totals).insurance)
    {
      hide LedgerInv, Settled, Charged, MaintRawWide, FeeTaken, LossesSettled, PairCharged;
      PairChargedMeans(wallets[i], wallets[j], fee, totals, wallets, currentSlot, params, i, j);
      RowWithinTotals(totals, wallets, marketMode, currentSlot, params, i);
      RowWithinTotals(totals, wallets, marketMode, currentSlot, params, j);
      ChargeLowersEquity(wallets[i], fee);
      ChargeLowersEquity(wallets[j], fee);
      SettleLosses(i);
      SettleLosses(j);
      if fee == 0 {
        NoFeeNoCharge(wallets[i]);
        NoFeeNoCharge(wallets[j]);
        return Ok((0, 0));
      }
      var feeI := ChargeFee(i, fee);
      if feeI.Err? {
        return Err(Overflow);
      }
      var feeJ := ChargeFee(j, fee);
      if feeJ.Err? {
        return Err(Overflow);
      }
      r := Ok((feeI.value, feeJ.value));
    }

    /** The last part of a trade: losses, fees, and the checks on both legs. */
    method CloseOutTrade(i: nat, j: nat, fee: nat, price: nat, oldI: int, newI: int, bufferI: int, oldJ: int,
        newJ: int, bufferJ: int, pnl: int, ghost beforeI: int, ghost beforeJ: int)
      returns (r: Result<()>)
      requires LedgerOk() && marketMode.Live? && i < |wallets| && j < |wallets| && i != j
      requires newI != 0 ==> Measurable(Abs(newI), price, params)
      requires newJ != 0 ==> Measurable(Abs(newJ), price, params)
      requires bufferI == beforeI - MaintReq(Abs(oldI), price, params)
      requires bufferJ == beforeJ - MaintReq(Abs(oldJ), price, params)
      modifies this`totals, this`wallets
      ensures r.Err? ==> r.error in {Overflow, Undercollateralized, Panicked}
      ensures r.Ok? ==> LedgerOk() && totals.vault == old(totals).vault
      ensures r.Ok? ==> |wallets| == |old(wallets)| && wallets == old(wallets)[i := wallets[i]][j := wallets[j]]
      ensures r.Ok? ==>
                PairCharged(old(wallets)[i], wallets[i], old(wallets)[j], wallets[j], fee,
                            totals.insurance - old(totals).insurance)
      ensures r.Ok? ==>
                && LegAllowed(wallets[i], totals, price, params, oldI, newI, beforeI,
                              Equity(old(wallets)[i]) - Equity(wallets[i]), pnl)
                && LegAllowed(wallets[j], totals, price, params, oldJ, newJ, beforeJ,
                              Equity(old(wallets)[j]) - Equity(wallets[j]), 0 - pnl)
      ensures r.Ok? ==> (newI == 0 ==> wallets[i].pnl >= 0) && (newJ == 0 ==> wallets[j].pnl >= 0)
      // with the fees taken, it is refused only for a loss on a closed leg, a leg that is
      // not allowed, or a product that does not fit
      ensures r == Err(Undercollateralized) ==>
                && |wallets| == |old(wallets)|
                && (|| (newI == 0 && wallets[i].pnl < 0) || (newJ == 0 && wallets[j].pnl < 0)
                    || !LegAllowed(wallets[i], totals, price, params, oldI, newI, beforeI,
                                   Equity(old(wallets)[i]) - Equity(wallets[i]), pnl)
                    || !LegAllowed(wallets[j], totals, price, params, oldJ, newJ, beforeJ,
                                   Equity(old(wallets)[j]) - Equity(wallets[j]), 0 - pnl))
    {
      hide LedgerInv, OneSideMargin, Settled, Charged, MaintRawWide, MaintReq, Measurable, LegAllowed, PairCharged,
        Equity;
      AllSound(totals, wallets, currentSlot, params);
      EquityIsExact(wallets[i]);
      EquityIsExact(wallets[j]);
      var fees := SettleAndChargePair(i, j, fee);
      if fees.Err? {
        return Err(fees.error);
      }
      AllSound(totals, wallets, currentSlot, params);
      EquityIsExact(wallets[i]);
      EquityIsExact(wallets[j]);
      if (newI == 0 && wallets[i].pnl < 0) || (newJ == 0 && wallets[j].pnl < 0) {
        return Err(Undercollateralized);
      }
      OneSideErrors(wallets[i], totals, price, params, oldI, newI, bufferI, fees.value.0, pnl);
      OneSideErrors(wallets[j], totals, price, params, oldJ, newJ, bufferJ, fees.value.1, 0 - pnl);
      LegMeans(totals, wallets, currentSlot, params, i, price, oldI, newI, beforeI, fees.value.0, pnl);
      LegMeans(totals, wallets, currentSlot, params, j, price, oldJ, newJ, beforeJ, fees.value.1, 0 - pnl);
      r := OneSideMargin(wallets[i], totals, price, params, oldI, newI, bufferI, fees.value.0, pnl);
      if r.Err? {
        return;
      }
      r := OneSideMargin(wallets[j], totals, price, params, oldJ, newJ, bufferJ, fees.value.1, 0 - pnl);
    }

    /** The first part of a trade: the gate, the slippage, and the new sizes. */
    method BookAndAttach(i: nat, j: nat, size: nat, exec: nat, price: nat, ctx: InstructionContext)
      returns (r: Result<int>)
      requires LedgerOk() && BookOk(NO_RESET) && marketMode.Live? && i < |wallets| == |positions| && j < |wallets|
                 && i != j
      requires AdmissionPairOk(ctx.hMin, ctx.hMax, params)
      requires 0 < size <= MAX_TRADE_SIZE_Q && 1 <= exec <= MAX_ORACLE_PRICE && 1 <= price <= MAX_ORACLE_PRICE
      modifies this`totals, this`wallets, this`positions, this`sides, ctx`sticky
      ensures r.Err? ==> r.error in {Overflow, SideBlocked}
      ensures r.Ok? ==> LedgerOk() && BookOk(NO_RESET)
      ensures r.Ok? ==> totals.vault == old(totals).vault && totals.insurance == old(totals).insurance
      ensures r.Ok? ==> IsFloor(r.value, size * (price - exec), POS_SCALE)
      ensures r.Ok? ==>
                && |wallets| == |old(wallets)| && wallets == old(wallets)[i := wallets[i]][j := wallets[j]]
                && wallets[i] == old(wallets)[i].(pnl := old(wallets)[i].pnl + r.value, reserve := wallets[i].reserve)
                && wallets[j] == old(wallets)[j].(pnl := old(wallets)[j].pnl - r.value, reserve := wallets[j].reserve)
      ensures r.Ok? ==>
                |positions| == |old(positions)| && positions == old(positions)[i := positions[i]][j := positions[j]]
      ensures r.Ok? ==>
                var oldI, oldJ := old(EffectivePos(positions[i], sides)), old(EffectivePos(positions[j], sides));
                && Abs(oldI + size) <= MAX_POSITION_ABS_Q && Abs(oldJ - size) <= MAX_POSITION_ABS_Q
                && positions[i].basis == oldI + size && positions[j].basis == oldJ - size
                && EffectivePos(positions[i], sides) == oldI + size && EffectivePos(positions[j], sides) == oldJ - size
                && sides.long.oi == old(sides).long.oi - Pos(oldI) - Pos(oldJ) + Pos(oldI + size) + Pos(oldJ - size)
      ensures r.Ok? ==>
                && PairBooked(old(wallets), old(totals), wallets, i, j, r.value, i in old(ctx.sticky),
                              j in old(ctx.sticky), ctx.hMin, ctx.hMax, currentSlot)
                && SizesTraded(old(SnapshotNow()), SnapshotNow(), i, j,
                               old(Legs(EffectivePos(positions[i], sides), EffectivePos(positions[j], sides))), size)
      ensures r.Ok? ==> Steady(old(sides), sides, price, 2)
    {
      hide Steady, LedgerInv, BookInv, EffAbs, EffectivePos, AttachedRow, AdmissionPairOk, MaintRawWide, TradePnl,
        FloorDiv, IsFloor, PairBooked, SizesTraded;
      var oldI, oldJ := EffectivePos(positions[i], sides), EffectivePos(positions[j], sides);
      var gate := TradeGate(i, j, size, price);
      if gate.Err? {
        return Err(gate.error);
      }
      TableFits(totals, wallets, marketMode, currentSlot, params);
      TradePnlFits(size, price - exec);
      TradePnlIsFloor(size, price - exec);
      FloorIsFloor(size * (price - exec), POS_SCALE);
      var pnl := TradePnl(size, price - exec).value;
      var q := BookTradePnl(i, j, pnl, ctx);
      if q.Err? {
        return Err(q.error);
      }
      q := AttachPair(i, j, oldI + size, oldJ - size, gate.value.0, gate.value.1);
      if q.Err? {
        return Err(q.error);
      }
      SameIndicesStay(old(sides), sides, price);
      SizesFollow(old(SnapshotNow()), SnapshotNow(), i, j, Legs(oldI, oldJ), size);
      r := Ok(pnl);
    }

    /** The trade itself, between two just-touched accounts: the taker `i` buys `size`
        from the maker `j` at `exec` while the oracle says `price`. */
    method TradeStep(i: nat, j: nat, size: nat, exec: nat, price: nat, ctx: InstructionContext) returns (r: Result<()>)
      requires LedgerOk() && BookOk(NO_RESET) && marketMode.Live? && i < |wallets| == |positions| && j < |wallets|
                 && i != j
      requires AdmissionPairOk(ctx.hMin, ctx.hMax, params) && ValidParams(params, |wallets|)
      requires 0 < size <= MAX_TRADE_SIZE_Q && 1 <= exec <= MAX_ORACLE_PRICE && 1 <= price <= MAX_ORACLE_PRICE
      modifies this`totals, this`wallets, this`positions, this`sides, ctx`sticky
      ensures r.Err? ==> r.error in {Overflow, SideBlocked, Undercollateralized, Panicked}
      ensures r.Ok? ==> LedgerOk() && BookOk(NO_RESET) && totals.vault == old(totals).vault
      ensures r.Ok? ==> |wallets| == |old(wallets)| && wallets == old(wallets)[i := wallets[i]][j := wallets[j]]
      ensures r.Ok? ==>
                |positions| == |old(positions)| && positions == old(positions)[i := positions[i]][j := positions[j]]
      ensures r.Ok? ==>
                var held := old(Legs(EffectivePos(positions[i], sides), EffectivePos(positions[j], sides)));
                Traded(old(SnapshotNow()), SnapshotNow(), i, j, held, size, exec, price, params)
      ensures r.Ok? ==>
                TradeAdmitted(old(SnapshotNow()), SnapshotNow(), i, j, size, exec, price, i in old(ctx.sticky),
                              j in old(ctx.sticky), ctx.hMin, ctx.hMax, currentSlot)
      // the rows, and the open interest, move with the sizes
      ensures r.Ok? ==>
                SizesTraded(old(SnapshotNow()), SnapshotNow(), i, j,
                            old(Legs(EffectivePos(positions[i], sides), EffectivePos(positions[j], sides))), size)
      ensures r.Ok? ==>
                var oldI, oldJ := old(EffectivePos(positions[i], sides)), old(EffectivePos(positions[j], sides));
                && EffectivePos(positions[i], sides) == oldI + size && EffectivePos(positions[j], sides) == oldJ - size
                && sides.long.oi == old(sides).long.oi - Pos(oldI) - Pos(oldJ) + Pos(oldI + size) + Pos(oldJ - size)
      ensures r.Ok? ==> Steady(old(sides), sides, price, 2)
    {
      hide PairBooked, SizesTraded, TradeAdmitted, Traded, LegAllowed, PairCharged, Equity, IsFloor, IsTradeFee,
        Measurable, ValidParams, Steady, LedgerInv, BookInv, EffAbs, EffectivePos, TradeFee, MaintReq, AdmissionPairOk,
        MaintRawWide;
      var oldI, oldJ := EffectivePos(positions[i], sides), EffectivePos(positions[j], sides);
      var newI, newJ := oldI + size, oldJ - size;
      var eqI, eqJ := MaintRawWide(wallets[i]), MaintRawWide(wallets[j]);
      var bufferI, bufferJ := eqI - MaintReq(Abs(oldI), price, params), eqJ - MaintReq(Abs(oldJ), price, params);
      AllSound(totals, wallets, currentSlot, params);
      EquityIsExact(wallets[i]);
      EquityIsExact(wallets[j]);
      var booked := BookAndAttach(i, j, size, exec, price, ctx);
      if booked.Err? {
        return Err(booked.error);
      }
      MeasurableSize(newI, price, params, |wallets|);
      MeasurableSize(newJ, price, params, |wallets|);
      TradeFeeMeans(size, exec, params);
      ghost var w, v, attached := wallets[i], wallets[j], SnapshotNow();
      r := CloseOutTrade(i, j, TradeFee(size, exec, params), price, oldI, newI, bufferI, oldJ, newJ, bufferJ,
                         booked.value, eqI, eqJ);
      if r.Ok? {
        SizesIgnoreWallets(old(SnapshotNow()), attached, SnapshotNow(), i, j, Legs(oldI, oldJ), size);
        BookedReserves(old(SnapshotNow()), SnapshotNow(), i, j, size, exec, price, w, v, booked.value,
                       TradeFee(size, exec, params), i in old(ctx.sticky), j in old(ctx.sticky), ctx.hMin, ctx.hMax,
                       currentSlot);
        TradeMeans(old(SnapshotNow()), SnapshotNow(), i, j, Legs(oldI, oldJ), size, exec, price, params, w, v,
                   booked.value, TradeFee(size, exec, params));
      }
    }

    /** What touching account `j` after account `i` makes of it. */
    function SecondTouchedAt(i: nat, j: nat, now: nat, price: nat, rate: int, hMin: nat, hMax: nat): Wallet
      requires i < |wallets| == |positions| && j < |wallets|
      reads this`wallets, this`positions, this`totals, this`sides, this`lastOraclePrice, this`fundPxLast,
            this`lastMarketSlot
    {
      TouchedWallet(wallets[j], TotalsAt(i, now, price, rate, hMin, hMax), positions[j],
                    SettledSides(positions[i], AccruedAt(now, price, rate)), false, hMin, hMax, now)
    }

    /** The effective sizes as a trade finds them: the market accrued, both accounts touched,
        and sides that only dust is left on cleared. */
    function LegsAt(i: nat, j: nat, now: nat, price: nat, rate: int): Legs
      requires i < |positions| && j < |positions|
      reads this`positions, this`sides, this`lastOraclePrice, this`fundPxLast, this`lastMarketSlot
    {
      var b := AccruedAt(now, price, rate);
      var b1 := SettledSides(positions[i], b);
      var b2 := SettledSides(positions[j], b1);
      var b3 := if Ended(b2, NO_RESET).Ok? then Ended(b2, NO_RESET).value else b2;
      Legs(EffectivePos(SettledRow(positions[i], b), b3), EffectivePos(SettledRow(positions[j], b1), b3))
    }

    /** The totals then. */
    function PairTotalsAt(i: nat, j: nat, now: nat, price: nat, rate: int, hMin: nat, hMax: nat): Totals
      requires i < |wallets| == |positions| && j < |wallets|
      reads this`wallets, this`positions, this`totals, this`sides, this`lastOraclePrice, this`fundPxLast,
            this`lastMarketSlot
    {
      TouchedTotals(wallets[j], TotalsAt(i, now, price, rate, hMin, hMax), positions[j],
                    SettledSides(positions[i], AccruedAt(now, price, rate)), false, hMin, hMax, now,
                    params.insuranceFloor)
    }

    /** Whether the second touch holds its account to the long horizon. */
    predicate SecondHeldAt(i: nat, j: nat, now: nat, price: nat, rate: int, hMin: nat, hMax: nat)
      requires i < |wallets| == |positions| && j < |wallets|
      reads this`wallets, this`positions, this`totals, this`sides, this`lastOraclePrice, this`fundPxLast,
            this`lastMarketSlot
    {
      TouchHolds(wallets[j], TotalsAt(i, now, price, rate, hMin, hMax), positions[j],
                 SettledSides(positions[i], AccruedAt(now, price, rate)), hMin, hMax, now)
    }

    /** Accrues the market and touches both accounts of a trade. */
    method TouchBoth(i: nat, j: nat, now: nat, price: nat, rate: int, ctx: InstructionContext) returns (r: Result<()>)
      requires LiveOk() && now <= U64_MAX && i < |wallets| && j < |wallets| && i != j
      requires AdmissionPairOk(ctx.hMin, ctx.hMax, params) && ctx.touched == [] && ctx.sticky == []
      modifies this`totals, this`wallets, this`positions, this`sides, this`currentSlot, this`lastMarketSlot,
               this`lastOraclePrice, this`fundPxLast, ctx`sticky, ctx`touched
      ensures r.Err? ==> r.error in {Overflow, Panicked, Unauthorized}
      ensures r.Ok? ==> LedgerOk() && BookOk(NO_RESET) && ClockOk() && OnlyRows({i, j}) && lastOraclePrice == price
      ensures r.Ok? ==> ctx.touched == [i, j] && TouchedOk(ctx.touched, |wallets|) && totals.vault == old(totals).vault
      ensures r.Ok? ==>
                var b := old(AccruedAt(now, price, rate));
                var b1 := SettledSides(old(positions)[i], b);
                && positions[i] == SettledRow(old(positions)[i], b) && positions[j] == SettledRow(old(positions)[j], b1)
                && sides == SettledSides(old(positions)[j], b1)
      ensures r.Ok? ==> wallets[i] == old(TouchedAt(i, now, price, rate, ctx.hMin, ctx.hMax))
      ensures r.Ok? ==> wallets[j] == old(SecondTouchedAt(i, j, now, price, rate, ctx.hMin, ctx.hMax))
      ensures r.Ok? ==> totals == old(PairTotalsAt(i, j, now, price, rate, ctx.hMin, ctx.hMax))
      ensures r.Ok? ==> lastMarketSlot == currentSlot == now
      ensures r.Ok? ==>
                && (i in ctx.sticky <==> old(HeldAt(i, now, price, rate, ctx.hMin, ctx.hMax)))
                && (j in ctx.sticky <==> old(SecondHeldAt(i, j, now, price, rate, ctx.hMin, ctx.hMax)))
      ensures r.Ok? ==> SidesWithin(2, 0)
    {
      hide TouchHolds, RiskEngine.HeldAt, Steady, Closes, KeptWithin, LedgerInv, BookInv, EffectivePos, SettledSides,
        SettledRow, EffAbs, Accrued, AdmissionPairOk, Warmed, WarmedTotals, WarmupPanics, AccrualSucceeds, TouchedOk,
        ValidParams, Tidy, RiskEngine.TouchedAt, RiskEngine.TotalsAt, RiskEngine.AccruedAt, TouchedWallet,
        TouchedTotals, FlatLoss, JustTouched, RowGains, EarnsOver, JustSettled, Equity;
      r := AccrueAndTouch(i, now, price, rate, ctx);
      if r.Err? {
        return;
      }
      SettledWithin(positions[j], sides);
      SteadyAfter(old(sides), old(lastOraclePrice), sides, SettledSides(positions[j], sides), lastOraclePrice, 1, 0, 1,
          2);
      r := Touch(j, ctx);
    }

    /** The same, with sides that only dust is left on cleared before the trade. */
    method TouchPair(i: nat, j: nat, now: nat, price: nat, rate: int, ctx: InstructionContext) returns (r: Result<()>)
      requires LiveOk() && now <= U64_MAX && i < |wallets| && j < |wallets| && i != j
      requires AdmissionPairOk(ctx.hMin, ctx.hMax, params) && ctx.touched == [] && ctx.sticky == []
      modifies this`totals, this`wallets, this`positions, this`sides, this`currentSlot, this`lastMarketSlot,
               this`lastOraclePrice, this`fundPxLast, ctx`sticky, ctx`touched
      ensures r.Ok? ==> LiveOk() && OnlyRows({i, j}) && lastOraclePrice == price
      ensures r.Ok? ==> ctx.touched == [i, j] && TouchedOk(ctx.touched, |wallets|) && totals.vault == old(totals).vault
      ensures r.Ok? ==>
                old(LegsAt(i, j, now, price, rate)) == Legs(EffectivePos(positions[i], sides),
                                                             EffectivePos(positions[j], sides))
      ensures r.Ok? ==>
                && wallets[i] == old(TouchedAt(i, now, price, rate, ctx.hMin, ctx.hMax))
                && wallets[j] == old(SecondTouchedAt(i, j, now, price, rate, ctx.hMin, ctx.hMax))
                && totals == old(PairTotalsAt(i, j, now, price, rate, ctx.hMin, ctx.hMax))
      ensures r.Ok? ==> lastMarketSlot == currentSlot == now
      ensures r.Ok? ==>
                && (i in ctx.sticky <==> old(HeldAt(i, now, price, rate, ctx.hMin, ctx.hMax)))
                && (j in ctx.sticky <==> old(SecondHeldAt(i, j, now, price, rate, ctx.hMin, ctx.hMax)))
      ensures r == Err(CorruptState) ==> DustSumOverflows(sides)
      ensures r.Ok? || r == Err(CorruptState) ==> SidesWithin(2, 1)
    {
      hide TouchHolds, RiskEngine.HeldAt, RiskEngine.SecondHeldAt, Steady, Closes, KeptWithin, LedgerInv, BookInv,
        EffectivePos, SettledSides, SettledRow, AdmissionPairOk, TouchedOk, ValidParams, Tidy, Ended, MaintRawWide,
        RiskEngine.TouchedAt, RiskEngine.SecondTouchedAt, RiskEngine.AccruedAt, RiskEngine.PairTotalsAt;
      r := TouchBoth(i, j, now, price, rate, ctx);
      if r.Err? {
        return;
      }
      var flush := new InstructionContext(0, 0);
      label Touched:
      r := EndOfInstruction(flush);
      if r.Ok? || r == Err(CorruptState) {
        ClosesAfter(old(sides), old(lastOraclePrice), old@Touched(sides), sides, lastOraclePrice, 2, 0, 2, 1);
      }
    }

    /** The finalization of both accounts of a trade. */
    method FinalizePair(i: nat, j: nat, ctx: InstructionContext)
      requires LedgerOk() && marketMode.Live? && i < |wallets| == |positions| && j < |wallets| && i != j
      requires ctx.touched == [i, j] && TouchedOk(ctx.touched, |wallets|)
      modifies this`totals, this`wallets
      ensures LedgerOk() && |wallets| == |old(wallets)| && totals.vault == old(totals).vault
      ensures wallets == old(wallets)[i := wallets[i]][j := wallets[j]]
      ensures PairFinalized(old(SnapshotNow()), wallets, positions, totals, i, j)
    {
      hide LedgerInv, Finalized, FinalizedBy, IsWhole, TouchedOk;
      FinalizeTouched(ctx);
      CreditsOfTwo(old(wallets), wallets, i, j);
    }

    method TradeLive(i: nat, j: nat, size: nat, exec: nat, now: nat, price: nat, rate: int, ctx: InstructionContext)
      returns (r: Result<()>, ghost log: TradeLog)
      requires LiveOk() && now <= U64_MAX && i < |wallets| && j < |wallets| && i != j
      requires AdmissionPairOk(ctx.hMin, ctx.hMax, params) && ctx.touched == [] && ctx.sticky == []
                 && ctx.pending == NO_RESET
      requires 0 < size <= MAX_TRADE_SIZE_Q && 1 <= exec <= MAX_ORACLE_PRICE && 1 <= price <= MAX_ORACLE_PRICE
      modifies this`totals, this`wallets, this`positions, this`sides, this`currentSlot, this`lastMarketSlot,
               this`lastOraclePrice, this`fundPxLast, ctx
      ensures r.Ok? ==> LiveOk() && OnlyRows({i, j}) && totals.vault == old(totals).vault
      ensures r.Ok? ==> |wallets| == |old(wallets)| == |positions| == |old(positions)|
      ensures r.Ok? ==>
                && i < |log.found.ws| && j < |log.found.ws|
                && log.found.ws[i] == old(TouchedAt(i, now, price, rate, ctx.hMin, ctx.hMax))
                && log.found.ws[j] == old(SecondTouchedAt(i, j, now, price, rate, ctx.hMin, ctx.hMax))
                && log.found.t == old(PairTotalsAt(i, j, now, price, rate, ctx.hMin, ctx.hMax))
      ensures r.Ok? ==>
                Traded(log.found, log.booked, i, j, old(LegsAt(i, j, now, price, rate)), size, exec, price, params)
      ensures r.Ok? ==>
                && SizesTraded(log.found, log.booked, i, j, old(LegsAt(i, j, now, price, rate)), size)
                && TradeAdmitted(log.found, log.booked, i, j, size, exec, price,
                                 old(HeldAt(i, now, price, rate, ctx.hMin, ctx.hMax)),
                                 old(SecondHeldAt(i, j, now, price, rate, ctx.hMin, ctx.hMax)), ctx.hMin, ctx.hMax, now)
      ensures r.Ok? ==> PairFinalized(log.booked, wallets, positions, totals, i, j)
                        && Ended(log.booked.b, NO_RESET) == Ok(sides)
      ensures r.Ok? ==> lastOraclePrice == price && lastMarketSlot == currentSlot == now
      ensures r == Err(CorruptState) ==> DustSumOverflows(sides)
      ensures r.Ok? || r == Err(CorruptState) ==> SidesWithin(MAX_DUST_PER_INSTRUCTION, MAX_EPOCHS_PER_INSTRUCTION)
    {
      hide Steady, Closes, KeptWithin, LedgerInv, BookInv, EffectivePos, Finalized, FinalizedBy, AdmissionPairOk,
        IsWhole, TouchedOk, ValidParams, Tidy, Traded, PairFinalized, SizesTraded, TradeAdmitted, Ended,
        RiskEngine.HeldAt, RiskEngine.SecondHeldAt, Equity, EarnsOver, RiskEngine.LegsAt, RiskEngine.TouchedAt,
        RiskEngine.SecondTouchedAt, RiskEngine.PairTotalsAt;
      r := TouchPair(i, j, now, price, rate, ctx);
      if r.Err? {
        MoreAllowed(old(sides), old(lastOraclePrice), sides, lastOraclePrice, 2, MAX_DUST_PER_INSTRUCTION);
        return r, NO_TRADE;
      }
      label Touched:
      ghost var found := SnapshotNow();
      r := TradeStep(i, j, size, exec, price, ctx);
      if r.Err? {
        return r, NO_TRADE;
      }
      label Traded:
      log := TradeLog(found, SnapshotNow());
      FinalizePair(i, j, ctx);
      SteadyAfter(old(sides), old(lastOraclePrice), old@Touched(sides), sides, price, 2, 1, 2, 4);
      label Ending:
      r := EndOfInstruction(ctx);
      if r.Ok? || r == Err(CorruptState) {
        ClosesAfter(old(sides), old(lastOraclePrice), old@Ending(sides), sides, price, 4, 1,
            MAX_DUST_PER_INSTRUCTION, MAX_EPOCHS_PER_INSTRUCTION);
      }
    }

    /** execute_trade_not_atomic. */
    method ExecuteTrade(a: nat, b: nat, price: nat, now: u64, size: int, exec: nat, rate: int, hMin: nat, hMax: nat)
      returns (r: Result<()>, ghost log: TradeLog)
      requires Valid()
      modifies this
      ensures r.Ok? ==> Valid() && OnlyRows({a, b}) && totals.vault == old(totals).vault
      ensures r.Ok? ==>
                && a != b && old(IsUsed(a)) && old(IsUsed(b)) && AdmissionPairOk(hMin, hMax, params)
                && 1 <= price <= MAX_ORACLE_PRICE && 1 <= exec <= MAX_ORACLE_PRICE && 0 < size <= MAX_TRADE_SIZE_Q
                && size * exec < (MAX_ACCOUNT_NOTIONAL + 1) * POS_SCALE
      ensures r.Ok? ==> 0 < size && a < |wallets| == |positions| && b < |wallets|
      // the accounts as the trade finds them, the trade, and the finalization
      ensures r.Ok? ==>
                && a < |old(wallets)| == |old(positions)| && b < |old(wallets)|
                && a < |log.found.ws| && b < |log.found.ws|
                && log.found.ws[a] == old(TouchedAt(a, now, price, rate, hMin, hMax))
                && log.found.ws[b] == old(SecondTouchedAt(a, b, now, price, rate, hMin, hMax))
                && log.found.t == old(PairTotalsAt(a, b, now, price, rate, hMin, hMax))
                && Traded(log.found, log.booked, a, b, old(LegsAt(a, b, now, price, rate)), size, exec, price, params)
      ensures r.Ok? ==>
                && SizesTraded(log.found, log.booked, a, b, old(LegsAt(a, b, now, price, rate)), size)
                && TradeAdmitted(log.found, log.booked, a, b, size, exec, price,
                                 old(HeldAt(a, now, price, rate, hMin, hMax)),
                                 old(SecondHeldAt(a, b, now, price, rate, hMin, hMax)), hMin, hMax, now)
      ensures r.Ok? ==> PairFinalized(log.booked, wallets, positions, totals, a, b)
                        && Ended(log.booked.b, NO_RESET) == Ok(sides)
      ensures r.Ok? ==> lastOraclePrice == price && lastMarketSlot == currentSlot == now
      ensures r == Err(CorruptState) ==> DustSumOverflows(sides)
      ensures r.Ok? || r == Err(CorruptState) ==> SidesWithin(MAX_DUST_PER_INSTRUCTION, MAX_EPOCHS_PER_INSTRUCTION)
    {
      hide Notional, KeptWithin, LedgerInv, BookInv, AdmissionPairOk, ValidParams, PayoutOk, ClockOk, Tidy, Traded,
        PairFinalized, SizesTraded, TradeAdmitted, Ended, RiskEngine.HeldAt, RiskEngine.SecondHeldAt, DustSumOverflows,
        RiskEngine.LegsAt, RiskEngine.TouchedAt, RiskEngine.SecondTouchedAt, RiskEngine.PairTotalsAt;
      assert |wallets| == |positions| == slots.capacity && slots.used.Length == slots.capacity;
      hide SlotsOk, LedgerOk, BookOk;
      if !AdmissionPairOk(hMin, hMax, params) {
        return Err(Overflow), NO_TRADE;
      }
      if price == 0 || price > MAX_ORACLE_PRICE || exec == 0 || exec > MAX_ORACLE_PRICE {
        return Err(Overflow), NO_TRADE;
      }
      if size <= 0 || size > MAX_TRADE_SIZE_Q {
        return Err(Overflow), NO_TRADE;
      }
      NotionalAtMost(size, exec, MAX_ACCOUNT_NOTIONAL);
      if Notional(size, exec) > MAX_ACCOUNT_NOTIONAL {
        return Err(Overflow), NO_TRADE;
      }
      if !IsUsed(a) || !IsUsed(b) {
        return Err(AccountNotFound), NO_TRADE;
      }
      if a == b {
        return Err(Overflow), NO_TRADE;
      }
      if !marketMode.Live? {
        return Err(Unauthorized), NO_TRADE;
      }
      var ctx := new InstructionContext(hMin, hMax);
      r, log := TradeLive(a, b, size, exec, now, price, rate, ctx);
      if r.Ok? {
        SlotsKeptIn({a, b});
        AssertPublicPostconditions();
      }
    }


    // ---- the keeper's crank ----

    /** One candidate: touch it, and liquidate it if it is unhealthy and the hint passes
        the pre-flight.  A bad hint is ignored, and never fails the crank. */
    method CrankCandidate(i: nat, hint: Option<LiquidationPolicy>, price: nat, ctx: InstructionContext)
      returns (r: Result<bool>)
      requires LedgerOk() && BookOk(NO_RESET) && marketMode.Live? && i < |wallets| == |positions|
      requires AdmissionPairOk(ctx.hMin, ctx.hMax, params) && ctx.pending == NO_RESET
      requires ValidParams(params, |wallets|) && 1 <= price <= MAX_ORACLE_PRICE
      modifies this`totals, this`wallets, this`positions, this`sides, ctx`sticky, ctx`touched, ctx`pending
      ensures r.Err? ==> r.error in {Overflow, Panicked}
      // it fails only when the account cannot be touched, or an accepted hint finds no room
      // for dust
      ensures r.Ok? <==>
                && (i in old(ctx.touched) || |old(ctx.touched)| < MAX_TOUCHED_PER_INSTRUCTION)
                && !TouchRefused(old(wallets)[i], old(totals), old(positions)[i], old(sides), i in old(ctx.sticky),
                                 |old(ctx.sticky)| >= MAX_TOUCHED_PER_INSTRUCTION, ctx.hMin, ctx.hMax, currentSlot)
                && var s := AfterTouch(old(StandingOf(i, NO_RESET)), i in old(ctx.sticky), ctx.hMin, ctx.hMax,
                                       currentSlot, params);
                   var e := EffectivePos(s.p, s.b);
                   && e != 0 && !Exceeds(Equity(s.w), Abs(e), price, params.maintenanceBps, params.minNonzeroMm)
                   && hint.Some? && (hint.value.ExactPartial? ==> HintPasses(s.w, Abs(e), hint.value.q, price, params))
                   ==> LiquidationFits(s, hint.value, price, params)
      ensures r.Ok? ==> LedgerOk() && BookOk(ctx.pending) && totals.vault == old(totals).vault
      ensures r.Ok? ==> OnlyRow(i)
      ensures r.Ok? ==> ctx.touched == (if i in old(ctx.touched) then old(ctx.touched) else old(ctx.touched) + [i])
      ensures TouchedOk(old(ctx.touched), |old(wallets)|) ==> TouchedOk(ctx.touched, |old(wallets)|)
      ensures r.Ok? && r.value ==> hint.Some?
      ensures r.Ok? ==>
                ctx.sticky == if i !in old(ctx.sticky)
                                 && TouchHolds(old(wallets)[i], old(totals), old(positions)[i], old(sides), ctx.hMin,
                                               ctx.hMax, currentSlot)
                              then old(ctx.sticky) + [i] else old(ctx.sticky)
      ensures r.Ok? ==>
                StandingOf(i, ctx.pending)
                == Visited(old(StandingOf(i, NO_RESET)), hint, i in old(ctx.sticky), price, ctx.hMin, ctx.hMax,
                     currentSlot, params)
      // it liquidates exactly an open account whose equity is not above both bounds, on a
      // hint to close it in full, or one to close `q` after which equity would be
      ensures r.Ok? ==>
                var s := AfterTouch(old(StandingOf(i, NO_RESET)), i in old(ctx.sticky), ctx.hMin, ctx.hMax, currentSlot,
                                    params);
                var e := EffectivePos(s.p, s.b);
                && (r.value <==>
                      && e != 0 && !Exceeds(Equity(s.w), Abs(e), price, params.maintenanceBps, params.minNonzeroMm)
                      && hint.Some?
                      && (hint.value.ExactPartial? ==> HintPasses(s.w, Abs(e), hint.value.q, price, params)))
                && (r.value && hint == Some(FullClose) ==> positions[i] == FLAT)
                && (r.value && hint.value.ExactPartial? ==>
                      positions[i].basis == if e > 0 then e - hint.value.q else e + hint.value.q)
      ensures r.Ok? && !r.value ==> ctx.pending == NO_RESET
      ensures r.Ok? ==> Steady(old(sides), sides, price, MAX_CLOSE_DUST + 1)
    {
      hide TouchRefused, CloseFits, TouchHolds, Exceeds, Equity, HintPasses, LiquidatedBy, CloseAbsorbed, Steady,
        LedgerInv, BookInv, EffectivePos, AboveMaintenance, HintApproved, SettledRow, SettledSides, Warmed,
        WarmedTotals, WarmupPanics, AdmissionPairOk, TouchedOk, ValidParams, TouchedWallet, FlatLoss, TouchedTotals,
        Liquidated;
      SettledWithin(positions[i], sides);
      var t := Touch(i, ctx);
      if t.Err? {
        return Err(t.error);
      }
      MoreAllowed(old(sides), 0, sides, price, 1, MAX_CLOSE_DUST + 1);
      label Touched:
      ghost var before, s := old(StandingOf(i, NO_RESET)), StandingOf(i, NO_RESET);
      assert s == AfterTouch(before, i in old(ctx.sticky), ctx.hMin, ctx.hMax, currentSlot, params);
      VisitedInTwo(before, s, hint, i in old(ctx.sticky), price, ctx.hMin, ctx.hMax, currentSlot, params);
      hide AfterTouch, Visited;
      var e := EffectivePos(positions[i], sides);
      if e != 0 {
        HealthMeans(totals, wallets, currentSlot, params, positions, sides, i, price);
        AllSound(totals, wallets, currentSlot, params);
        ghost var q := if hint.Some? && hint.value.ExactPartial? then hint.value.q else 0;
        HintMeans(wallets[i], Abs(e), q, price, params);
      }
      if e == 0 || AboveMaintenance(wallets[i], Abs(e), price, params) {
        return Ok(false);
      }
      var policy := ApprovedPolicy(wallets[i], Abs(e), hint, price, params);
      if policy.None? {
        return Ok(false);
      }
      r := LiquidateInternal(i, price, policy.value, ctx);
      if r.Ok? {
        assert r.value && StandingOf(i, ctx.pending) == Liquidated(s, policy.value, price, params);
        SteadyTwice(old(sides), old@Touched(sides), sides, price, 1, MAX_CLOSE_DUST, MAX_CLOSE_DUST + 1);
      }
    }

    /** One candidate in use, and the log that grows by its visit. */
    method CrankVisit(idx: nat, hint: Option<LiquidationPolicy>, price: nat, ctx: InstructionContext,
        ghost start: Snapshot, ghost visits: seq<Visit>)
      returns (r: Result<bool>, ghost more: seq<Visit>)
      requires LedgerOk() && BookOk(NO_RESET) && marketMode.Live? && idx < |wallets| == |positions|
      requires AdmissionPairOk(ctx.hMin, ctx.hMax, params) && ctx.pending == NO_RESET
      requires TouchedOk(ctx.touched, |wallets|)
      requires ValidParams(params, |wallets|) && 1 <= price <= MAX_ORACLE_PRICE && ResetsOf(visits) == NO_RESET
      requires LogSoFar(start, visits, SnapshotNow(), ctx.touched, ctx.sticky, price, ctx.hMin, ctx.hMax, currentSlot,
                        params)
      modifies this`totals, this`wallets, this`positions, this`sides, ctx`sticky, ctx`touched, ctx`pending
      ensures r.Err? ==> r.error in {Overflow, Panicked}
      ensures r.Ok? ==> LedgerOk() && BookOk(ctx.pending) && totals.vault == old(totals).vault && OnlyRow(idx)
      ensures r.Ok? ==> ctx.touched == if idx in old(ctx.touched) then old(ctx.touched) else old(ctx.touched) + [idx]
      ensures r.Ok? ==> TouchedOk(ctx.touched, |wallets|)
      ensures r.Ok? ==> |more| == |visits| + 1 && Calls(more) == Calls(visits) + [(idx, hint)]
      ensures r.Ok? ==>
                && ResetsOf(more) == ctx.pending
                && LogSoFar(start, more, SnapshotNow(), ctx.touched, ctx.sticky, price, ctx.hMin, ctx.hMax, currentSlot,
                            params)
    {
      hide TouchRefused, LiquidationFits, TouchHolds, Steady, Visited, Calls, LogSoFar, ResetsOf, LedgerInv, BookInv,
        AdmissionPairOk, ValidParams, TouchedOk, Exceeds, HintPasses, Equity, AfterTouch, EffectivePos;
      r := CrankCandidate(idx, hint, price, ctx);
      if r.Err? {
        return r, [];
      }
      ghost var v := Visit(idx, hint, idx in old(ctx.sticky), old(StandingOf(idx, NO_RESET)),
                           StandingOf(idx, ctx.pending));
      LogGrows(start, visits, v, old(SnapshotNow()), SnapshotNow(), old(ctx.touched), ctx.touched,
               old(ctx.sticky), ctx.sticky, price, ctx.hMin, ctx.hMax, currentSlot, params);
      more := visits + [v];
    }

    /** The candidates in order, up to the budget or until a reset is scheduled. */
    method CrankCandidates(candidates: seq<(nat, Option<LiquidationPolicy>)>, budget: nat, price: nat,
        ctx: InstructionContext)
      returns (r: Result<nat>, ghost log: CrankLog)
      requires LedgerOk() && BookOk(NO_RESET) && marketMode.Live?
      requires slots.used.Length == slots.capacity == |wallets| == |positions|
      requires AdmissionPairOk(ctx.hMin, ctx.hMax, params) && ctx.pending == NO_RESET && ctx.touched == []
                 && ctx.sticky == []
      requires ValidParams(params, |wallets|) && 1 <= price <= MAX_ORACLE_PRICE
      modifies this`totals, this`wallets, this`positions, this`sides, ctx`sticky, ctx`touched, ctx`pending
      ensures r.Err? ==> r.error in {Overflow, Panicked}
      ensures r.Ok? ==> LedgerOk() && BookOk(ctx.pending) && totals.vault == old(totals).vault
      ensures r.Ok? ==> TouchedOk(ctx.touched, |wallets|) && OnlyRows(Members(ctx.touched))
      ensures r.Ok? ==> |ctx.touched| <= budget && r.value <= budget
      ensures r.Ok? ==> Members(ctx.touched) <= Named(candidates)
      ensures r.Ok? ==> forall x :: x in ctx.touched ==> IsUsed(x)
      ensures r.Ok? ==> Steady(old(sides), sides, price, VisitDust(budget))
      ensures r.Ok? ==> CrankOk(log, candidates, slots.used[..], budget, price, ctx.hMin, ctx.hMax, currentSlot, params)
      ensures r.Ok? ==> Replays(log.visits, old(SnapshotNow()), log.left)
      ensures r.Ok? ==> log.left == SnapshotNow() && ResetsOf(log.visits) == ctx.pending
      ensures r.Ok? ==> VisitedAre(log.visits, ctx.touched, ctx.sticky, ctx.hMin, ctx.hMax, currentSlot)
    {
      hide Exceeds, HintPasses, Equity, AfterTouch, EffectivePos, Steady, Replays, Visited, VisitsOk, VisitedAre,
        Calls, InUse, LogSoFar, ResetsOf, LedgerInv, BookInv, AdmissionPairOk, ValidParams, TouchedOk, ClockOk;
      var attempts, liquidations := 0, 0;
      ghost var visits: seq<Visit>, seen: nat := [], |candidates|;
      ghost var used := slots.used[..];
      NothingTouched(|wallets|);
      ghost var start := SnapshotNow();
      LogStarts(start, candidates, used, price, ctx.hMin, ctx.hMax, currentSlot, params);
      for k := 0 to |candidates|
        invariant LedgerOk() && BookOk(ctx.pending)
        invariant |ctx.touched| <= attempts <= budget && liquidations <= attempts
        invariant TouchedOk(ctx.touched, |old(wallets)|) && OnlyRows(Members(ctx.touched))
        invariant forall x :: x in ctx.touched ==> IsUsed(x)
        invariant Members(ctx.touched) <= Named(candidates)
        invariant totals.vault == old(totals).vault
        invariant |visits| == attempts && seen == |candidates|
        invariant Calls(visits) == InUse(candidates[..k], used)
        invariant ResetsOf(visits) == ctx.pending
        invariant LogSoFar(start, visits, SnapshotNow(), ctx.touched, ctx.sticky,
                           price, ctx.hMin, ctx.hMax, currentSlot, params)
      {
        if attempts >= budget || ctx.pending != NO_RESET {
          seen := k;
          break;
        }
        var (idx, hint) := candidates[k];
        InUseNext(candidates, k, used);
        if IsUsed(idx) {
          attempts := attempts + 1;
          assert candidates[k] in candidates && idx in Named(candidates);
          MembersGrow(ctx.touched, idx);
          var done, more := CrankVisit(idx, hint, price, ctx, start, visits);
          if done.Err? {
            return Err(done.error), NO_CRANK;
          }
          if done.value {
            liquidations := liquidations + 1;
          }
          visits := more;
        }
      }
      log := CrankLog(visits, seen, SnapshotNow());
      LogSays(start, visits, SnapshotNow(), ctx.touched, ctx.sticky, price, ctx.hMin, ctx.hMax, currentSlot, params);
      assert candidates[..|candidates|] == candidates;
      MoreAllowed(old(sides), 0, sides, price, VisitDust(attempts), VisitDust(budget));
      r := Ok(liquidations);
    }

    /** keeper_crank_not_atomic. */
    method KeeperCrank(now: u64, price: nat, candidates: seq<(nat, Option<LiquidationPolicy>)>, budget: nat, rate: int,
                       hMin: nat, hMax: nat)
      returns (r: Result<nat>, ghost log: CrankLog)
      requires Valid()
      modifies this
      ensures r.Ok? ==> Valid() && OnlyRows(Named(candidates)) && totals.vault == old(totals).vault
      ensures r.Ok? ==> r.value <= budget <= MAX_TOUCHED_PER_INSTRUCTION
      ensures r.Ok? ==> lastOraclePrice == price && lastMarketSlot == currentSlot == now
      ensures r == Err(CorruptState) ==> DustSumOverflows(sides)
      ensures r.Ok? || r == Err(CorruptState) ==> SidesWithin(MAX_DUST_PER_INSTRUCTION, MAX_EPOCHS_PER_INSTRUCTION)
      ensures r != Err(Undercollateralized)
      ensures r.Ok? ==>
                && CrankOk(log, candidates, slots.used[..], budget, price, hMin, hMax, now, params)
                && CrankLeaves(log, old(SnapshotAt(now, price, rate)), wallets, positions)
                && Ended(log.left.b, ResetsOf(log.visits)) == Ok(sides) && totals.insurance - log.left.t.insurance
                   == Sum(wallets, CreditTerm()) - Sum(log.left.ws, CreditTerm())
    {
      hide CrankOk, CrankLeaves, KeptWithin, LedgerInv, BookInv, AdmissionPairOk, ValidParams, PayoutOk, ClockOk,
        Tidy, Ended, RiskEngine.SnapshotAt, DustSumOverflows;
      assert |wallets| == |positions| == slots.capacity && slots.used.Length == slots.capacity;
      hide SlotsOk, LedgerOk, BookOk;
      if !AdmissionPairOk(hMin, hMax, params) || price == 0 || price > MAX_ORACLE_PRICE {
        return Err(Overflow), NO_CRANK;
      }
      if !marketMode.Live? {
        return Err(Unauthorized), NO_CRANK;
      }
      if budget > MAX_TOUCHED_PER_INSTRUCTION {
        return Err(Overflow), NO_CRANK;
      }
      var ctx := new InstructionContext(hMin, hMax);
      if now < currentSlot || now < lastMarketSlot {
        return Err(Overflow), NO_CRANK;
      }
      r, log := CrankLive(now, price, candidates, budget, rate, ctx);
      if r.Ok? {
        SlotsKeptIn(Members(ctx.touched));
        AssertPublicPostconditions();
      }
    }

    /** The visits of a crank, and the finalization of the accounts visited. */
    method CrankAndFinalize(candidates: seq<(nat, Option<LiquidationPolicy>)>, budget: nat, price: nat,
        ctx: InstructionContext)
      returns (r: Result<nat>, ghost log: CrankLog)
      requires LedgerOk() && BookOk(NO_RESET) && marketMode.Live?
      requires slots.used.Length == slots.capacity == |wallets| == |positions|
      requires AdmissionPairOk(ctx.hMin, ctx.hMax, params) && ctx.pending == NO_RESET && ctx.touched == []
                 && ctx.sticky == []
      requires ValidParams(params, |wallets|) && 1 <= price <= MAX_ORACLE_PRICE
      modifies this`totals, this`wallets, this`positions, this`sides, ctx`sticky, ctx`touched, ctx`pending
      ensures r.Err? ==> r.error in {Overflow, Panicked}
      ensures r.Ok? ==> LedgerOk() && BookOk(ctx.pending) && totals.vault == old(totals).vault
      ensures r.Ok? ==> |wallets| == |positions| && OnlyRows(Members(ctx.touched)) && r.value <= budget
      ensures r.Ok? ==> Members(ctx.touched) <= Named(candidates) && forall x :: x in ctx.touched ==> IsUsed(x)
      ensures r.Ok? ==> Steady(old(sides), sides, price, VisitDust(budget))
      ensures r.Ok? ==> CrankOk(log, candidates, slots.used[..], budget, price, ctx.hMin, ctx.hMax, currentSlot, params)
      ensures r.Ok? ==> CrankLeaves(log, old(SnapshotNow()), wallets, positions)
      ensures r.Ok? ==> sides == log.left.b && ResetsOf(log.visits) == ctx.pending
      ensures r.Ok? ==>
                totals.insurance - log.left.t.insurance
                == Sum(wallets, CreditTerm()) - Sum(log.left.ws, CreditTerm())
    {
      hide CrankOk, Replays, WasVisited, Steady, LedgerInv, BookInv, AdmissionPairOk, ValidParams, Finalized,
        FinalizedBy, IsWhole, ResetsOf;
      r, log := CrankCandidates(candidates, budget, price, ctx);
      if r.Ok? {
        FinalizeTouched(ctx);
      }
    }

    method CrankLive(now: nat, price: nat, candidates: seq<(nat, Option<LiquidationPolicy>)>, budget: nat, rate: int,
                     ctx: InstructionContext)
      returns (r: Result<nat>, ghost log: CrankLog)
      requires LiveOk() && now <= U64_MAX && 1 <= price <= MAX_ORACLE_PRICE
      requires slots.used.Length == slots.capacity == |wallets| && budget <= MAX_TOUCHED_PER_INSTRUCTION
      requires AdmissionPairOk(ctx.hMin, ctx.hMax, params) && ctx.touched == [] && ctx.sticky == []
                 && ctx.pending == NO_RESET
      modifies this`totals, this`wallets, this`positions, this`sides, this`currentSlot, this`lastMarketSlot,
               this`lastOraclePrice, this`fundPxLast, ctx
      ensures r.Ok? ==> LiveOk() && OnlyRows(Members(ctx.touched)) && totals.vault == old(totals).vault
      ensures r.Ok? ==> Members(ctx.touched) <= Named(candidates) && r.value <= budget
      ensures r.Ok? ==> forall x :: x in ctx.touched ==> IsUsed(x)
      ensures r.Ok? ==> lastOraclePrice == price && lastMarketSlot == currentSlot == now
      ensures r == Err(CorruptState) ==> DustSumOverflows(sides)
      ensures r.Ok? || r == Err(CorruptState) ==> SidesWithin(MAX_DUST_PER_INSTRUCTION, MAX_EPOCHS_PER_INSTRUCTION)
      ensures r != Err(Undercollateralized)
      ensures r.Ok? ==>
                && CrankOk(log, candidates, slots.used[..], budget, price, ctx.hMin, ctx.hMax, now, params)
                && CrankLeaves(log, old(SnapshotAt(now, price, rate)), wallets, positions)
                && Ended(log.left.b, ResetsOf(log.visits)) == Ok(sides) && totals.insurance - log.left.t.insurance
                   == Sum(wallets, CreditTerm()) - Sum(log.left.ws, CreditTerm())
    {
      hide CrankOk, CrankLeaves, Steady, KeptWithin, LedgerInv, BookInv, AdmissionPairOk, ValidParams, Accrued,
        AccrualSucceeds, Finalized, FinalizedBy, IsWhole, Tidy, Closes, Ended, ResetsOf, DustSumOverflows,
        EpochsExhausted, FundingNum;
      var t := AccrueMarketTo(now, price, rate);
      if t.Err? {
        return Err(t.error), NO_CRANK;
      }
      label Accrued:
      r, log := CrankAndFinalize(candidates, budget, price, ctx);
      if r.Err? {
        return;
      }
      SteadyAfter(old(sides), old(lastOraclePrice), old@Accrued(sides), sides, price, 0, 0,
          VisitDust(budget), MAX_DUST_PER_INSTRUCTION);
      label Ending:
      t := EndOfInstruction(ctx);
      if t.Ok? || t == Err(CorruptState) {
        ClosesAfter(old(sides), old(lastOraclePrice), old@Ending(sides), sides, price, MAX_DUST_PER_INSTRUCTION, 0,
            MAX_DUST_PER_INSTRUCTION, MAX_EPOCHS_PER_INSTRUCTION);
      }
      if t.Err? {
        return Err(t.error), NO_CRANK;
      }
    }


    // ---- resolution ----

    /** What resolve_market_not_atomic checks, up to the accrual of the ordinary mode. */
    predicate Resolvable(mode: ResolveMode, resolved: nat, live: nat, now: nat, rate: int)
      reads this`marketMode, this`currentSlot, this`lastMarketSlot, this`sides, this`lastOraclePrice, this`fundPxLast
    {
      && marketMode.Live? && currentSlot <= now && lastMarketSlot <= now
      && 1 <= resolved <= MAX_ORACLE_PRICE && 1 <= live <= MAX_ORACLE_PRICE
      && (if mode.Degenerate? then live == lastOraclePrice && rate == 0
          else AccrualSucceeds(now, live, rate) && InBand(resolved, live, params.resolveDeviationBps))
    }

    /** The sides as resolution finds them: accrued in the ordinary mode only. */
    function SidesAtResolution(mode: ResolveMode, live: nat, now: nat, rate: int): Sides
      reads this`sides, this`lastMarketSlot, this`lastOraclePrice, this`fundPxLast
    {
      if mode.Degenerate? then sides
      else Accrued(sides, live - lastOraclePrice, FundingNum(sides, fundPxLast, rate, now - lastMarketSlot))
    }

    /** resolve_market_not_atomic: it fails only on its inputs, an accrual that does not
        fit, or an exhausted epoch counter. */
    method ResolveMarket(mode: ResolveMode, resolved: nat, live: nat, now: u64, rate: int) returns (r: Result<()>)
      requires Valid()
      modifies this
      ensures r.Ok? <==>
                old(Resolvable(mode, resolved, live, now, rate)) && !LastEpochExhausted(old(sides).long)
                    && !LastEpochExhausted(old(sides).short)
      ensures r.Err? ==> r.error in {Unauthorized, Overflow}
      ensures r.Ok? ==> Valid() && marketMode.Resolved? && resolvedPrice == resolved && resolvedSlot == now
      ensures r.Ok? ==> resolvedLivePrice == live && payout.None? && currentSlot == now
      ensures r.Ok? ==> wallets == old(wallets) && positions == old(positions)
      // in the ordinary mode the settlement price lies within the band around the live one
      ensures r.Ok? && mode.Ordinary? ==> Abs(resolved - live) * 10_000 <= params.resolveDeviationBps * live
      ensures r.Ok? && mode.Degenerate? ==> live == old(lastOraclePrice) && rate == 0
      ensures r.Ok? ==> totals == old(totals).(pnlMaturedPosTot := old(totals).pnlPosTot)
      ensures r.Ok? ==>
                var b := old(SidesAtResolution(mode, live, now, rate));
                && TerminalEpochs(b) == Ok(sides)
                && kTerminalLong == TerminalDelta(Long, b.long, resolved - live)
                && kTerminalShort == TerminalDelta(Short, b.short, resolved - live)
      ensures r.Ok? ==> SidesWithin(MAX_DUST_PER_INSTRUCTION, MAX_EPOCHS_PER_INSTRUCTION)
    {
      hide KeptWithin, Steady, Closes, LedgerInv, BookInv, ValidParams, PayoutOk, Accrued, SlotsOk, Tidy, Resolvable,
        SidesAtResolution, LastEpochExhausted, TerminalDelta, TerminalEpochs;
      r := AccrueForResolution(mode, resolved, live, now, rate);
      if r.Err? {
        return;
      }
      label Accrued:
      r := EnterResolved(resolved, live);
      if r.Ok? {
        TerminalWithin(old@Accrued(sides), lastOraclePrice);
        ClosesAfter(old(sides), old(lastOraclePrice), old@Accrued(sides), sides, lastOraclePrice, 0, 0,
            MAX_DUST_PER_INSTRUCTION, MAX_EPOCHS_PER_INSTRUCTION);
        AssertPublicPostconditions();
      }
    }

    /** The checks and the accrual, which the degenerate mode leaves out. */
    method AccrueForResolution(mode: ResolveMode, resolved: nat, live: nat, now: nat, rate: int) returns (r: Result<()>)
      requires LedgerOk() && BookOk(NO_RESET) && ClockOk() && now <= U64_MAX
      modifies this`sides, this`currentSlot, this`lastMarketSlot, this`lastOraclePrice, this`fundPxLast
      ensures r.Ok? <==> old(Resolvable(mode, resolved, live, now, rate))
      ensures r.Err? ==> r.error in {Unauthorized, Overflow}
      ensures r.Ok? ==> LedgerOk() && BookOk(NO_RESET) && ClockOk() && marketMode.Live? && currentSlot == now
      ensures r.Ok? ==> 1 <= resolved <= MAX_ORACLE_PRICE && 1 <= live <= MAX_ORACLE_PRICE
      ensures r.Ok? ==> sides == old(SidesAtResolution(mode, live, now, rate))
      ensures LastEpochExhausted(sides.long) == LastEpochExhausted(old(sides).long)
      ensures LastEpochExhausted(sides.short) == LastEpochExhausted(old(sides).short)
      ensures r.Ok? && mode.Ordinary? ==> Abs(resolved - live) * 10_000 <= params.resolveDeviationBps * live
      ensures r.Ok? && mode.Degenerate? ==> live == old(lastOraclePrice) && rate == 0
      ensures r.Ok? ==> SidesWithin(0, 0)
    {
      hide LedgerInv, BookInv, Accrued, LastEpochExhausted, KeptWithin;
      UnmovedKept(sides, lastOraclePrice, 0, 0);
      if !marketMode.Live? {
        return Err(Unauthorized);
      }
      if now < currentSlot || now < lastMarketSlot {
        return Err(Overflow);
      }
      if resolved == 0 || resolved > MAX_ORACLE_PRICE || live == 0 || live > MAX_ORACLE_PRICE {
        return Err(Overflow);
      }
      AccruedModes(sides, live - lastOraclePrice, FundingNum(sides, fundPxLast, rate, now - lastMarketSlot));
      match mode {
        case Degenerate =>
          if live != lastOraclePrice || rate != 0 {
            return Err(Overflow);
          }
          SetCurrentSlot(now);
          lastMarketSlot := now;
        case Ordinary =>
          r := AccrueMarketTo(now, live, rate);
          if r.Err? {
            return Err(Overflow);
          }
          if Abs(resolved - lastOraclePrice) * 10_000 > params.resolveDeviationBps * lastOraclePrice {
            return Err(Overflow);
          }
      }
      r := Ok(());
    }

    /** The switch itself, once the market is accrued. */
    method EnterResolved(resolved: nat, live: nat) returns (r: Result<()>)
      requires LedgerOk() && BookOk(NO_RESET) && marketMode.Live? && payout.None?
      requires 1 <= resolved <= MAX_ORACLE_PRICE && 1 <= live <= MAX_ORACLE_PRICE
      modifies this`totals, this`sides, this`marketMode, this`resolvedPrice, this`resolvedLivePrice, this`resolvedSlot,
               this`kTerminalLong, this`kTerminalShort, this`payout
      ensures r.Ok? <==> !LastEpochExhausted(old(sides).long) && !LastEpochExhausted(old(sides).short)
      ensures r.Err? ==> r.error == Overflow
      ensures r.Ok? ==> LedgerOk() && BookOk(NO_RESET) && TerminalOk() && marketMode.Resolved?
      ensures r.Ok? ==> resolvedPrice == resolved && resolvedLivePrice == live && resolvedSlot == currentSlot
      ensures r.Ok? ==> payout.None?
      ensures r.Ok? ==> totals == old(totals).(pnlMaturedPosTot := old(totals).pnlPosTot)
      ensures r.Ok? ==> TerminalEpochs(old(sides)) == Ok(sides)
      ensures r.Ok? ==> kTerminalLong == TerminalDelta(Long, old(sides).long, resolved - live)
                        && kTerminalShort == TerminalDelta(Short, old(sides).short, resolved - live)
    {
      hide LedgerInv, BookInv;
      OpenMultipliers(positions, sides);
      var dp := resolved - live;
      TerminalDeltaFits(Long, sides.long, dp);
      TerminalDeltaFits(Short, sides.short, dp);
      kTerminalLong := TerminalDelta(Long, sides.long, dp);
      kTerminalShort := TerminalDelta(Short, sides.short, dp);
      ResolveKeepsLedger(totals, wallets, currentSlot, params);
      marketMode := Resolved;
      resolvedPrice, resolvedLivePrice, resolvedSlot := resolved, live, currentSlot;
      payout := None;
      totals := totals.(pnlMaturedPosTot := totals.pnlPosTot);
      r := DrainBothSides();
    }

    /** Zeroes open interest, starts the last epoch of every side that is not already
        waiting for one, and reopens a side nobody is left on. */
    method DrainBothSides() returns (r: Result<()>)
      requires BookOk(NO_RESET)
      modifies this`sides
      ensures r.Ok? <==> !LastEpochExhausted(old(sides).long) && !LastEpochExhausted(old(sides).short)
      ensures r.Err? ==> r.error == Overflow
      ensures r.Ok? ==> BookOk(NO_RESET) && TerminalSides(sides) && TerminalEpochs(old(sides)) == Ok(sides)
    {
      hide BookInv, Restarted;
      WithoutOiKeepsBook(positions, sides);
      TerminalSide(sides.long);
      TerminalSide(sides.short);
      sides := sides.(long := sides.long.(oi := 0));
      sides := sides.(short := sides.short.(oi := 0));
      FinalizeKeepsBook(positions, sides, Flags(true, true));
      RestartedWaits(sides.long);
      RestartedWaits(sides.short);
      if !sides.long.mode.ResetPending? {
        r := BeginFullDrainReset(Long);
        if r.Err? {
          return;
        }
      }
      if !sides.short.mode.ResetPending? {
        r := BeginFullDrainReset(Short);
        if r.Err? {
          return;
        }
      }
      ghost var b := sides;
      if sides.long.mode.ResetPending? && sides.long.stale == 0 && sides.long.stored == 0 {
        if sides.long.oi != 0 {
          assert false;
        }
        sides := sides.(long := sides.long.(mode := Normal));
      }
      if sides.short.mode.ResetPending? && sides.short.stale == 0 && sides.short.stored == 0 {
        if sides.short.oi != 0 {
          assert false;
        }
        sides := sides.(short := sides.short.(mode := Normal));
      }
      if sides.long.oi != 0 || sides.short.oi != 0 {
        assert false;
      }
      assert sides == ReopenedSides(b);
      r := Ok(());
    }


    // ---- a resolved market ----

    /** prepare_account_for_resolved_touch: no bucket survives resolution. */
    method ClearReserve(i: nat)
      requires LedgerOk() && marketMode.Resolved? && i < |wallets|
      modifies this`wallets
      ensures LedgerOk() && wallets == old(wallets)[i := old(wallets)[i].(reserve := NO_RESERVE)]
    {
      hide LedgerInv;
      ClearedLedger(totals, wallets, currentSlot, params, i);
      wallets := wallets[i := wallets[i].(reserve := NO_RESERVE)];
    }

    /** set_pnl in a resolved market: a gain matures at once. */
    method SetPnlResolved(i: nat, newPnl: int) returns (r: Result<()>)
      requires LedgerOk() && marketMode.Resolved? && i < |wallets| && wallets[i].reserve == NO_RESERVE
      requires Abs(newPnl) <= I128_MAX
      modifies this`totals, this`wallets
      ensures r.Err? ==> r.error == Overflow
      ensures r.Err? <==>
                && Pos(newPnl) > Pos(old(wallets)[i].pnl)
                && old(totals).pnlPosTot + (Pos(newPnl) - Pos(old(wallets)[i].pnl)) > U128_MAX
      ensures r.Ok? ==> LedgerOk() && wallets == old(wallets)[i := old(wallets)[i].(pnl := newPnl)]
      ensures r.Ok? ==>
                totals == old(totals).(pnlPosTot := totals.pnlPosTot, pnlMaturedPosTot := totals.pnlMaturedPosTot,
                                               negPnlCount := totals.negPnlCount)
    {
      hide NewestTaken, LedgerInv, PnlMoved;
      var w := wallets[i];
      if w.reserve.total != 0 {
        assert false;
      }
      if Pos(newPnl) <= Pos(w.pnl) {
        LossLeavesReserve(w, newPnl, currentSlot);
        LowerPnl(i, newPnl);
        return Ok(());
      }
      var gain := Pos(newPnl) - Pos(w.pnl);
      if totals.pnlPosTot + gain > U128_MAX {
        return Err(Overflow);
      }
      GainInResolved(totals, wallets, currentSlot, params, i, newPnl);
      totals := totals.(pnlPosTot := totals.pnlPosTot + gain);
      if w.pnl < 0 {
        if totals.negPnlCount == 0 {
          assert false;
        }
        totals := totals.(negPnlCount := totals.negPnlCount - 1);
      }
      totals := totals.(pnlMaturedPosTot := totals.pnlMaturedPosTot + gain);
      wallets := wallets[i := w.(pnl := newPnl)];
      Conserved(totals, wallets, marketMode, currentSlot, params);
      if totals.pnlMaturedPosTot > totals.pnlPosTot || w.reserve.total > Pos(newPnl) {
        assert false;
      }
      r := Ok(());
    }

    /** Books what the account's position is owed.  Every stored position is stale here,
        so that the corrupt-state exits are unreachable. */
    method BookOwed(i: nat) returns (r: Result<()>)
      requires LedgerOk() && BookOk(NO_RESET) && marketMode.Resolved? && TerminalSides(sides)
                 && i < |wallets| == |positions|
      modifies this`totals, this`wallets
      ensures r.Err? ==> r.error == Overflow && positions[i].basis != 0
      ensures r.Err? <==> OwedRefused(old(wallets)[i], old(totals), positions[i], sides, kTerminalLong, kTerminalShort)
      ensures r.Ok? ==> LedgerOk()
      ensures r.Ok? ==>
                var delta := ReconcileDelta(positions[i], sides, kTerminalLong, kTerminalShort);
                && delta.Ok?
                && wallets == old(wallets)[i := old(wallets)[i].(pnl := old(wallets)[i].pnl + delta.value,
                     reserve := NO_RESERVE)]
      ensures r.Ok? ==> totals.vault == old(totals).vault && totals.insurance == old(totals).insurance
      ensures positions[i].basis == 0 ==> totals == old(totals)
    {
      hide LedgerInv, BookInv, KfPnlDelta, EffAbs, TerminalSides;
      ghost var w := wallets[i];
      var p := positions[i];
      ClearReserve(i);
      TerminalRow(positions, sides, i);
      Intact(totals, wallets, marketMode, currentSlot, params, i);
      if p.basis == 0 {
        return Ok(());
      }
      var s := sides.Get(SideOf(p));
      if p.aBasis == 0 || p.epochSnap == s.epoch || p.epochSnap + 1 != s.epoch || s.stale == 0 {
        assert false;
      }
      var k := s.kStart + (if SideOf(p).Long? then kTerminalLong else kTerminalShort);
      KfPnlDeltaInRange(Abs(p.basis), p.kSnap, k, p.fSnap, s.fStart, p.aBasis * POS_SCALE);
      var owed := KfPnlDelta(Abs(p.basis), p.kSnap, k, p.fSnap, s.fStart, p.aBasis * POS_SCALE);
      if owed.Err? {
        return Err(Overflow);
      }
      var newPnl := wallets[i].pnl + owed.value;
      if Abs(newPnl) > I128_MAX {
        return Err(Overflow);
      }
      if owed.value == 0 {
        return Ok(());
      }
      r := SetPnlResolved(i, newPnl);
    }

    /** reconcile_resolved_not_atomic on one account. */
    method ReconcileRow(i: nat) returns (r: Result<()>)
      requires LedgerOk() && BookOk(NO_RESET) && marketMode.Resolved? && TerminalSides(sides)
                 && i < |wallets| == |positions|
      modifies this`totals, this`wallets, this`positions, this`sides
      ensures r.Err? ==> r.error == Overflow
      ensures r.Err? <==>
                OwedRefused(old(wallets)[i], old(totals), old(positions)[i], old(sides), kTerminalLong, kTerminalShort)
      ensures r.Ok? ==> LedgerOk() && BookOk(NO_RESET) && TerminalSides(sides)
      ensures r.Ok? ==> positions == old(positions)[i := FLAT] && sides == SettledSides(old(positions)[i], old(sides))
      ensures r.Ok? ==>
                var delta := ReconcileDelta(old(positions)[i], old(sides), kTerminalLong, kTerminalShort);
                && delta.Ok?
                && var claim := Claim(old(wallets)[i], delta.value);
                   && wallets == old(wallets)[i := Reconciled(claim)]
                   && totals.vault == old(totals).vault
                   && totals.insurance == old(totals).insurance
                        - InsurancePays(old(totals).insurance, Uncovered(claim), params.insuranceFloor)
      ensures old(positions)[i].basis == 0 && old(wallets)[i].pnl >= 0 ==>
                r.Ok? && totals == old(totals) && sides == old(sides)
    {
      hide OwedRefused, LedgerInv, BookInv, ReconcileDelta, EffAbs, TerminalSides, SettledSides, EffectivePos;
      ghost var w := wallets[i];
      TerminalRow(positions, sides, i);
      FlatIsOwedNothing(positions[i], sides, kTerminalLong, kTerminalShort);
      r := BookOwed(i);
      if r.Err? {
        return;
      }
      r := SettlePosition(i);
      if r.Err? {
        assert false;
      }
      ReconciledInTwo(w, wallets[i].pnl - w.pnl);
      SettleLosses(i);
      ResolveFlatNegative(i);
      AssertPublicPostconditions();
    }

    /** reconcile_resolved_not_atomic. */
    method ReconcileResolved(idx: nat) returns (r: Result<()>)
      requires Valid()
      modifies this`totals, this`wallets, this`positions, this`sides, this`currentSlot
      ensures r.Err? ==> r.error in {Unauthorized, AccountNotFound, Overflow}
      ensures r.Ok? <==>
                && marketMode.Resolved? && old(IsUsed(idx))
                && !OwedRefused(old(wallets)[idx], old(totals), old(positions)[idx], old(sides), kTerminalLong,
                                kTerminalShort)
      ensures r == Err(AccountNotFound) ==> !old(IsUsed(idx))
      ensures r == Err(Unauthorized) ==> marketMode.Live?
      ensures r.Ok? ==> Valid() && OnlyRow(idx) && old(IsUsed(idx)) && marketMode.Resolved?
      ensures marketMode.Resolved? && old(IsUsed(idx)) && old(positions)[idx].basis == 0 && old(wallets)[idx].pnl >= 0
              ==> r.Ok? && totals == old(totals)
      ensures r.Ok? ==> idx < |wallets| && idx < |old(positions)| && positions[idx] == FLAT && wallets[idx].pnl >= 0
      ensures r.Ok? ==> sides == SettledSides(old(positions)[idx], old(sides))
      ensures r.Ok? ==>
                var delta := ReconcileDelta(old(positions)[idx], old(sides), kTerminalLong, kTerminalShort);
                && delta.Ok?
                && var claim := Claim(old(wallets)[idx], delta.value);
                   && wallets[idx] == Reconciled(claim)
                   && totals.vault == old(totals).vault
                   && totals.insurance == old(totals).insurance
                        - InsurancePays(old(totals).insurance, Uncovered(claim), params.insuranceFloor)
    {
      hide OwedRefused, LedgerInv, BookInv, ValidParams, PayoutOk, TerminalSides, SettledSides, ReconcileDelta,
        Reconciled, Uncovered, InsurancePays, Tidy;
      assert |wallets| == |positions| == slots.capacity && slots.used.Length == slots.capacity;
      hide SlotsOk;
      if !marketMode.Resolved? {
        return Err(Unauthorized);
      }
      if !IsUsed(idx) {
        return Err(AccountNotFound);
      }
      currentSlot := resolvedSlot;
      if payout.Some? {
        PayoutMeansSettled(payout.value, totals, wallets, currentSlot, params, positions, sides, idx);
      }
      r := ReconcileRow(idx);
      if r.Ok? {
        ghost var delta := ReconcileDelta(old(positions)[idx], old(sides), kTerminalLong, kTerminalShort);
        FlatIsOwedNothing(old(positions)[idx], old(sides), kTerminalLong, kTerminalShort);
        ReconciledWallet(Claim(old(wallets)[idx], delta.value));
        if payout.Some? {
          FeesKeepPayout(payout.value, old(totals), totals, old(wallets), wallets, sides, idx);
        }
        SlotsKept(idx);
      }
    }


    /** is_terminal_ready: the ratio is locked, or every position is gone and nobody is
        in loss. */
    predicate TerminalReady()
      reads this`payout, this`sides, this`totals
    {
      || payout.Some?
      || (&& sides.long.stored == 0 && sides.short.stored == 0
          && sides.long.stale == 0 && sides.short.stale == 0
          && totals.negPnlCount == 0)
    }

    /** Pays an account's profit at the locked ratio, locking it if need be. */
    method PayShare(i: nat)
      requires LedgerOk() && marketMode.Resolved? && i < |wallets| && wallets[i].reserve == NO_RESERVE
      requires wallets[i].pnl > 0 && totals.negPnlCount == 0
      requires payout.Some? ==>
                 payout.value.den > 0 && Sum(wallets, ScaledTerm(PosTerm(), payout.value)) <= Residual(totals)
      modifies this`totals, this`wallets, this`payout
      ensures LedgerOk()
      ensures var h := LockedRatio(old(totals), old(payout));
              && payout == Some(h)
              && wallets == old(wallets)[i := WithShare(old(wallets)[i], h)]
              && totals.vault == old(totals).vault && totals.insurance == old(totals).insurance
              && totals.cTot == old(totals).cTot + TerminalShare(old(wallets)[i], h)
              && totals.negPnlCount == 0
      // the ratio, and the rounded-down share at it
      ensures payout == Some(RatioOf(old(totals), old(payout)))
      ensures i < |wallets| && wallets[i].pnl == 0
              && ShareIs(wallets[i].capital - old(wallets)[i].capital, old(wallets)[i], payout.value)
    {
      hide NewestTaken, ShareIs, RatioOf, LedgerInv, PnlMoved, Payable, TerminalShare, Scale, ScaledTerm;
      SameRatio(totals, payout);
      ghost var w0, h0 := wallets[i], LockedRatio(totals, payout);
      RowWithinTotals(totals, wallets, marketMode, currentSlot, params, i);
      Conserved(totals, wallets, marketMode, currentSlot, params);
      NobodyInLoss(totals, wallets, currentSlot, params, payout);
      ShareWithinResidual(Closing(totals, wallets, payout), i);
      if payout.None? {
        totals := totals.(pnlMaturedPosTot := totals.pnlPosTot);
        MaturedIsPositive(old(totals), wallets, currentSlot, params);
        var residual := totals.vault - (totals.cTot + totals.insurance);
        payout := Some(Ratio(Min(Max(residual, 0), totals.pnlMaturedPosTot), totals.pnlMaturedPosTot));
      }
      assert payout == Some(h0);
      hide LockedRatio;
      if wallets[i].reserve.total != 0 || payout.value.den == 0 {
        assert false;
      }
      var y := TerminalShare(wallets[i], payout.value);
      LossLeavesReserve(wallets[i], 0, currentSlot);
      LowerPnl(i, 0);
      StillNobodyInLoss(old(totals), totals, old(wallets), wallets, currentSlot, params, i);
      SetCapital(i, wallets[i].capital + y);
      ShareMeans(w0, h0);
    }

    /** Sweeps and forgives fee debt, and pays out all capital. */
    method PayOutAll(i: nat) returns (capital: nat)
      requires LedgerOk() && i < |wallets|
      modifies this`totals, this`wallets
      ensures LedgerOk() && capital == Swept(old(wallets)[i]).capital
      ensures wallets == old(wallets)[i := old(wallets)[i].(capital := 0, feeCredits := 0)]
      ensures capital <= old(totals).vault && old(wallets)[i].capital <= old(totals).cTot
      ensures totals == old(totals).(vault := old(totals).vault - capital,
                cTot := old(totals).cTot - old(wallets)[i].capital,
                                     insurance := old(totals).insurance + SweptFee(old(wallets)[i]))
    {
      hide LedgerInv;
      FeeDebtSweep(i);
      NoCredit(totals, wallets, marketMode, currentSlot, params, i);
      if wallets[i].feeCredits < 0 {
        AddFeeCredits(i, FeeDebt(wallets[i].feeCredits));
      }
      capital := wallets[i].capital;
      PayOut(i, capital);
      assert wallets == old(wallets)[i := old(wallets)[i].(capital := 0, feeCredits := 0)];
    }

    /** close_resolved_terminal_not_atomic, up to the slot. */
    method CloseRow(i: nat) returns (capital: nat)
      requires LedgerOk() && marketMode.Resolved? && i < |wallets| && wallets[i].pnl >= 0
      requires wallets[i].pnl > 0 ==> TerminalReady()
      requires payout.Some? ==> PayoutOk(payout.value, totals, wallets, sides)
      modifies this`totals, this`wallets, this`payout
      ensures LedgerOk()
      ensures wallets == old(wallets)[i := EMPTY_WALLET.(lastFeeSlot := old(wallets)[i].lastFeeSlot)]
      ensures var w, h := old(wallets)[i], LockedRatio(old(totals), old(payout));
              && capital == TerminalPayment(w, h) && capital + totals.vault == old(totals).vault
              && PaidOut(capital, w, RatioOf(old(totals), old(payout)))
              && totals.insurance == old(totals).insurance + SweptFee(WithShare(w, h))
              && payout == if w.pnl > 0 then Some(h) else old(payout)
      ensures payout.Some? ==> PayoutOk(payout.value, totals, wallets, sides)
    {
      hide LedgerInv, Payable, LockedRatio, TerminalShare, Swept, SweptFee, ScaledTerm, PaidOut, RatioOf;
      RowWithinTotals(totals, wallets, marketMode, currentSlot, params, i);
      SameRatio(totals, payout);
      LockedDen(totals, payout);
      NoCredit(totals, wallets, marketMode, currentSlot, params, i);
      PaymentMeans(wallets[i], LockedRatio(totals, payout));
      ClearReserve(i);
      if payout.Some? {
        FeesKeepPayout(payout.value, totals, totals, old(wallets), wallets, sides, i);
      }
      ShareIgnoresReserve(old(wallets)[i], LockedRatio(totals, payout));
      if wallets[i].pnl > 0 {
        PayShare(i);
      }
      capital := PayOutAll(i);
      if payout.Some? {
        NobodyInLoss(old(totals), old(wallets), currentSlot, params, old(payout));
        PayoutStaysOk(Closing(old(totals), old(wallets), old(payout)), totals, wallets, sides, i);
      }
    }


    /** Closes a resolved account and gives its slot back. */
    method CloseAndFree(idx: nat) returns (capital: nat)
      requires SlotsOk() && LedgerOk() && BookOk(NO_RESET) && marketMode.Resolved? && slots.IsUsed(idx)
      requires positions[idx] == FLAT && wallets[idx].pnl >= 0 && (wallets[idx].pnl > 0 ==> TerminalReady())
      requires payout.Some? ==> PayoutOk(payout.value, totals, wallets, sides)
      modifies this`totals, this`wallets, this`payout, slots, slots.used, slots.nextFree, slots.prevFree
      ensures SlotsOk() && LedgerOk() && OnlyRow(idx)
      ensures payout.Some? ==> PayoutOk(payout.value, totals, wallets, sides)
      ensures var w, h := old(wallets)[idx], LockedRatio(old(totals), old(payout));
              && capital == TerminalPayment(w, h) && capital + totals.vault == old(totals).vault
              && PaidOut(capital, w, RatioOf(old(totals), old(payout)))
              && (totals.insurance == old(totals).insurance + SweptFee(WithShare(w, h)) || totals.pnlPosTot == 0)
              && payout == (if w.pnl > 0 then Some(h) else old(payout))
              && slots.used[..] == old(slots.used[..])[idx := false]
    {
      hide LedgerInv, PayoutOk, LockedRatio, TerminalPayment, SweptFee, WithShare, PaidOut, RatioOf;
      assert |wallets| == |positions| == slots.capacity && slots.used.Length == slots.capacity;
      hide SlotsOk;
      capital := CloseRow(idx);
      SlotsKept(idx);
      label Closed:
      GiveBack(idx);
      if payout.Some? {
        BlankKeepsPayout(payout.value, old@Closed(totals), totals, old@Closed(wallets), wallets, sides, idx);
      }
    }

    /** close_resolved_terminal_not_atomic: it succeeds exactly on a reconciled account
        that is not waiting for others, and pays capital plus the account's share. */
    method CloseResolvedTerminal(idx: nat) returns (r: Result<nat>)
      requires Valid()
      modifies this`totals, this`wallets, this`payout, slots, slots.used, slots.nextFree, slots.prevFree
      ensures r.Ok? <==>
                && marketMode.Resolved? && old(IsUsed(idx))
                && positions[idx].basis == 0 && old(wallets)[idx].pnl >= 0
                && (old(wallets)[idx].pnl > 0 ==> old(TerminalReady()))
      ensures r.Err? ==> r.error in {Unauthorized, AccountNotFound, Undercollateralized}
      ensures r.Ok? ==> Valid() && OnlyRow(idx)
      ensures r.Ok? ==>
                var w, h := old(wallets)[idx], LockedRatio(old(totals), old(payout));
                && r.value == TerminalPayment(w, h) && r.value + totals.vault == old(totals).vault
                && PaidOut(r.value, w, RatioOf(old(totals), old(payout)))
                && (totals.insurance == old(totals).insurance + SweptFee(WithShare(w, h)) || totals.pnlPosTot == 0)
                && payout == (if w.pnl > 0 then Some(h) else old(payout))
                && slots.used[..] == old(slots.used[..])[idx := false]
      // without fee debt it is capital and exactly the rounded-down share, and profit in
      // full when the vault can pay everybody
      ensures r.Ok? ==>
                var w, h := old(wallets)[idx], RatioOf(old(totals), old(payout));
                w.feeCredits == 0 ==>
                  && (w.pnl > 0 ==> (r.value - w.capital) * h.den <= w.pnl * h.num < (r.value - w.capital + 1) * h.den)
                  && (w.pnl <= 0 ==> r.value == w.capital)
                  && (w.pnl > 0 && old(payout).None? && old(totals).pnlPosTot <= Residual(old(totals)) ==>
                        r.value == w.capital + w.pnl)
    {
      hide LedgerInv, BookInv, ValidParams, PayoutOk, TerminalSides, LockedRatio, TerminalPayment, SweptFee,
        WithShare, PaidOut, RatioOf, Tidy;
      assert |wallets| == |positions| == slots.capacity && slots.used.Length == slots.capacity;
      hide SlotsOk;
      if !marketMode.Resolved? {
        return Err(Unauthorized);
      }
      if !IsUsed(idx) {
        return Err(AccountNotFound);
      }
      if positions[idx].basis != 0 || wallets[idx].pnl < 0 {
        return Err(Undercollateralized);
      }
      if wallets[idx].pnl > 0 && !TerminalReady() {
        return Err(Unauthorized);
      }
      FlatIsBlank(positions, sides, idx);
      ghost var w := wallets[idx];
      ghost var h := RatioOf(totals, payout);
      FullRatio(totals, payout, wallets, currentSlot, params, idx);
      var capital := CloseAndFree(idx);
      if w.feeCredits == 0 {
        PaidWithoutDebt(capital, w, h);
      }
      r := Ok(capital);
    }

    method ReopenResolvedSides()
      requires Valid() && marketMode.Resolved?
      modifies this`sides
      ensures Valid() && sides == ReopenedSides(old(sides))
    {
      hide LedgerInv, BookInv, ValidParams, PayoutOk, TerminalSides, SlotsOk, Tidy;
      ReopenedStaysTerminal(sides);
      if payout.Some? {
        ReopenedKeepsPayout(payout.value, totals, wallets, sides);
      }
      MaybeFinalizeReadySides();
    }

    /** Its first part: the account reconciled, and sides that nobody is left on reopened. */
    method ReconcileAndReopen(idx: nat) returns (r: Result<()>)
      requires Valid()
      modifies this`totals, this`wallets, this`positions, this`sides, this`currentSlot
      ensures r.Err? ==> r.error in {Unauthorized, AccountNotFound, Overflow}
      ensures r == Err(Unauthorized) ==> marketMode.Live?
      ensures r.Ok? <==>
                && marketMode.Resolved? && IsUsed(idx)
                && !OwedRefused(old(wallets)[idx], old(totals), old(positions)[idx], old(sides), kTerminalLong,
                                kTerminalShort)
      ensures marketMode.Resolved? && IsUsed(idx) && old(positions)[idx].basis == 0 && old(wallets)[idx].pnl >= 0
              ==> r.Ok?
      ensures r.Ok? ==> Valid() && OnlyRow(idx) && totals.vault == old(totals).vault
      ensures r.Ok? ==>
                && idx < |old(positions)| && idx < |wallets| == |positions| == |old(wallets)| && positions[idx] == FLAT
                && sides == ReopenedSides(SettledSides(old(positions)[idx], old(sides)))
      ensures r.Ok? ==>
                var delta := ReconcileDelta(old(positions)[idx], old(sides), kTerminalLong, kTerminalShort);
                && delta.Ok?
                && var c := Claim(old(wallets)[idx], delta.value);
                   var t := ReconciledTotals(old(totals), c, params.insuranceFloor);
                   && wallets[idx] == Reconciled(c) && wallets[idx].pnl >= 0
                   && LockedRatio(totals, payout) == LockedRatio(t, payout)
                   && RatioOf(totals, payout) == RatioOf(t, payout)
                   && totals.insurance == t.insurance == old(totals).insurance
                        - InsurancePays(old(totals).insurance, Uncovered(c), params.insuranceFloor)
    {
      hide OwedRefused, InsurancePays, LedgerInv, BookInv, ValidParams, PayoutOk, TerminalSides, LockedRatio,
        RatioOf, SettledSides, ReconcileDelta, Reconciled, Uncovered, Tidy;
      assert |wallets| == |positions| == slots.capacity && slots.used.Length == slots.capacity;
      hide SlotsOk, BookOk, TerminalOk, ClockOk;
      r := ReconcileResolved(idx);
      if r.Err? {
        return;
      }
      ghost var c := Claim(old(wallets)[idx],
          ReconcileDelta(old(positions)[idx], old(sides), kTerminalLong, kTerminalShort).value);
      RatioAfterReconciling(old(totals), old(wallets), totals, wallets, old(currentSlot), currentSlot, params, idx, c,
          payout);
      SameRatio(totals, payout);
      SameRatio(ReconciledTotals(old(totals), c, params.insuranceFloor), payout);
      ReopenResolvedSides();
    }

    /** force_close_resolved_not_atomic: reconcile, then close unless the account must
        wait for others.  Once the account is reconciled it cannot fail any more. */
    method ForceCloseResolved(idx: nat) returns (r: Result<ResolvedClose>)
      requires Valid()
      modifies this`totals, this`wallets, this`positions, this`sides, this`currentSlot, this`payout,
               slots, slots.used, slots.nextFree, slots.prevFree
      ensures r.Err? ==> r.error in {Unauthorized, AccountNotFound, Overflow}
      ensures r == Err(Unauthorized) ==> marketMode.Live?
      ensures r.Ok? <==>
                && marketMode.Resolved? && old(IsUsed(idx))
                && !OwedRefused(old(wallets)[idx], old(totals), old(positions)[idx], old(sides), kTerminalLong,
                                kTerminalShort)
      ensures marketMode.Resolved? && old(IsUsed(idx)) && old(positions)[idx].basis == 0 && old(wallets)[idx].pnl >= 0
              ==> r.Ok?
      ensures r.Ok? ==> Valid() && OnlyRow(idx)
      ensures r.Ok? ==> marketMode.Resolved? && idx < |old(positions)|
                        && sides == ReopenedSides(SettledSides(old(positions)[idx], old(sides)))
      ensures r.Ok? && r.value.Closed? ==> r.value.capital + totals.vault == old(totals).vault
      ensures r.Ok? && r.value.Closed? ==> idx < slots.used.Length && !slots.used[idx]
      // a closed account gets its capital and its share, at the ratio of the reconciled ledger
      ensures r.Ok? ==>
                var delta := ReconcileDelta(old(positions)[idx], old(sides), kTerminalLong, kTerminalShort);
                && idx < |old(wallets)| && delta.Ok?
                && (r.value.Closed? ==>
                      var c := Claim(old(wallets)[idx], delta.value);
                      var t := ReconciledTotals(old(totals), c, params.insuranceFloor);
                      var w, h := Reconciled(c), LockedRatio(t, old(payout));
                      && r.value.capital == TerminalPayment(w, h)
                      && PaidOut(r.value.capital, w, RatioOf(t, old(payout)))
                      && payout == (if w.pnl > 0 then Some(h) else old(payout))
                      && slots.used[..] == old(slots.used[..])[idx := false]
                      && (totals.insurance == t.insurance + SweptFee(WithShare(w, h)) || totals.pnlPosTot == 0))
      ensures r.Ok? && r.value.ProgressOnly? ==>
                idx < |wallets| && wallets[idx].pnl > 0 && !TerminalReady() && totals.vault == old(totals).vault
      ensures r.Ok? && r.value.ProgressOnly? ==>
                var delta := ReconcileDelta(old(positions)[idx], old(sides), kTerminalLong, kTerminalShort);
                && idx < |old(wallets)| && idx < |old(positions)| && idx < |wallets| && idx < |positions| && delta.Ok?
                && var c := Claim(old(wallets)[idx], delta.value);
                   && wallets[idx] == Reconciled(c) && positions[idx] == FLAT && payout == old(payout)
                   && totals.insurance == old(totals).insurance
                        - InsurancePays(old(totals).insurance, Uncovered(c), params.insuranceFloor)
    {
      hide OwedRefused, InsurancePays, LedgerInv, BookInv, ValidParams, PayoutOk, TerminalSides, LockedRatio,
        TerminalPayment, SweptFee, WithShare, PaidOut, RatioOf, SettledSides, ReconcileDelta, Reconciled, Uncovered,
        ReopenedSides, ReconciledTotals, Tidy;
      assert |wallets| == |positions| == slots.capacity && slots.used.Length == slots.capacity;
      hide SlotsOk, BookOk, TerminalOk, ClockOk;
      var t := ReconcileAndReopen(idx);
      if t.Err? {
        return Err(t.error);
      }
      if wallets[idx].pnl > 0 && !TerminalReady() {
        return Ok(ProgressOnly);
      }
      var capital := CloseResolvedTerminal(idx);
      if capital.Err? {
        assert false;
      }
      assert !slots.used[..][idx];
      r := Ok(Closed(capital.value));
    }
  }
}
