// The money: running totals that must equal sums over all accounts, conservation of
// the vault, and the haircut that scales junior claims down to what is left.
module Ledger {
  import opened Arith
  import opened Market
  import opened Options
  import opened Sums
  import opened Warmup

  /** The money half of an account. */
  datatype Wallet = Wallet(capital: nat, pnl: int, reserve: Reserve, feeCredits: int, lastFeeSlot: nat)

  const EMPTY_WALLET := Wallet(0, 0, NO_RESERVE, 0, 0)

  /** The running totals, the vault and the insurance fund. */
  datatype Totals = Totals(
    vault: nat,
    insurance: nat,
    cTot: nat,
    pnlPosTot: nat,
    pnlMaturedPosTot: nat,
    negPnlCount: nat)

  /** Positive PnL that is not reserved. */
  function Released(w: Wallet): nat {
    if w.reserve.total <= Pos(w.pnl) then Pos(w.pnl) - w.reserve.total else 0
  }

  ghost function CapitalTerm(): Wallet -> int {
    (w: Wallet) => w.capital
  }

  ghost function PosTerm(): Wallet -> int {
    (w: Wallet) => Pos(w.pnl)
  }

  ghost function ReleasedTerm(): Wallet -> int {
    (w: Wallet) => Released(w)
  }

  ghost function NegTerm(): Wallet -> int {
    (w: Wallet) => if w.pnl < 0 then 1 else 0
  }

  ghost function CreditTerm(): Wallet -> int {
    (w: Wallet) => w.feeCredits
  }

  /** One wallet, at slot `now`. */
  ghost predicate WalletOk(w: Wallet, mode: MarketMode, now: nat, p: Params) {
    && Abs(w.pnl) <= I128_MAX
    && -(I128_MAX as int) <= w.feeCredits <= 0
    && w.lastFeeSlot <= now
    && (mode.Live? ==>
          && ReserveOk(w.reserve, now, p.hMin, p.hMax)
          && w.reserve.total <= Pos(w.pnl) <= MAX_ACCOUNT_POSITIVE_PNL)
  }

  /** The totals are exact, and the vault covers all capital and the insurance fund. */
  ghost predicate LedgerInv(t: Totals, ws: seq<Wallet>, mode: MarketMode, now: nat, p: Params) {
    && |ws| < NIL
    && t.cTot == Sum(ws, CapitalTerm())
    && t.pnlPosTot == Sum(ws, PosTerm())
    && t.pnlMaturedPosTot == (if mode.Live? then Sum(ws, ReleasedTerm()) else t.pnlPosTot)
    && t.negPnlCount == Sum(ws, NegTerm())
    && t.cTot + t.insurance <= t.vault <= MAX_VAULT_TVL
    && forall i :: 0 <= i < |ws| ==> WalletOk(ws[i], mode, now, p)
  }

  /** V - (C_tot + I), which conservation keeps nonnegative. */
  function Residual(t: Totals): int {
    t.vault - (t.cTot + t.insurance)
  }

  /** The totals after row `w` becomes `w'`. */
  function Moved(t: Totals, w: Wallet, w': Wallet): Totals
    requires w.capital <= t.cTot && Pos(w.pnl) <= t.pnlPosTot
    requires Released(w) <= t.pnlMaturedPosTot && (w.pnl < 0 ==> t.negPnlCount > 0)
  {
    t.(cTot := t.cTot - w.capital + w'.capital,
       pnlPosTot := t.pnlPosTot - Pos(w.pnl) + Pos(w'.pnl),
       pnlMaturedPosTot := t.pnlMaturedPosTot - Released(w) + Released(w'),
       negPnlCount := t.negPnlCount - (if w.pnl < 0 then 1 else 0) + (if w'.pnl < 0 then 1 else 0))
  }

  /** The same on any totals; they are left alone if the row does not fit them. */
  function TotalsWith(t: Totals, w: Wallet, w': Wallet): (t': Totals)
    ensures t'.vault == t.vault
  {
    if w.capital <= t.cTot && Pos(w.pnl) <= t.pnlPosTot && Released(w) <= t.pnlMaturedPosTot && (w.pnl < 0 ==>
        t.negPnlCount > 0)
    then Moved(t, w, w') else t
  }

  /** Exact totals leave no choice: they move by the one row that changed. */
  lemma TotalsDetermined(t: Totals, ws: seq<Wallet>, t': Totals, i: nat, w': Wallet, now: nat, later: nat, p: Params)
    requires LedgerInv(t, ws, Live, now, p) && i < |ws| && LedgerInv(t', ws[i := w'], Live, later, p)
    ensures t' == TotalsWith(t, ws[i], w').(vault := t'.vault, insurance := t'.insurance)
  {
    hide WalletOk, Released;
    RowWithinTotals(t, ws, Live, now, p, i);
    SumUpdate(ws, i, w', CapitalTerm());
    SumUpdate(ws, i, w', PosTerm());
    SumUpdate(ws, i, w', ReleasedTerm());
    SumUpdate(ws, i, w', NegTerm());
  }

  /** No account can exceed the totals. */
  lemma RowWithinTotals(t: Totals, ws: seq<Wallet>, mode: MarketMode, now: nat, p: Params, i: nat)
    requires LedgerInv(t, ws, mode, now, p) && i < |ws|
    ensures ws[i].capital <= t.cTot
    ensures Pos(ws[i].pnl) <= t.pnlPosTot
    ensures Released(ws[i]) <= t.pnlMaturedPosTot <= t.pnlPosTot
    ensures ws[i].pnl < 0 ==> t.negPnlCount > 0
    ensures WalletOk(ws[i], mode, now, p)
  {
    hide WalletOk, ReserveOk;
    SumAtLeast(ws, i, CapitalTerm());
    SumAtLeast(ws, i, PosTerm());
    SumAtLeast(ws, i, ReleasedTerm());
    SumAtLeast(ws, i, NegTerm());
    SumMono(ws, ReleasedTerm(), PosTerm());
  }

  lemma {:induction false} LosersWithin(ws: seq<Wallet>)
    ensures Sum(ws, NegTerm()) <= |ws|
  {
    if ws != [] {
      LosersWithin(ws[..|ws| - 1]);
    }
  }

  /** Replacing one wallet and moving the totals by its difference keeps the ledger
      exact.  Once the market is resolved nothing is reserved, so that released and
      positive PnL move together. */
  lemma MoveKeepsLedger(t: Totals, ws: seq<Wallet>, mode: MarketMode, now: nat, p: Params, i: nat, w': Wallet,
      t': Totals)
    requires LedgerInv(t, ws, mode, now, p) && i < |ws|
    requires WalletOk(w', mode, now, p)
    requires ws[i].capital <= t.cTot && Pos(ws[i].pnl) <= t.pnlPosTot
    requires Released(ws[i]) <= t.pnlMaturedPosTot && (ws[i].pnl < 0 ==> t.negPnlCount > 0)
    requires t' == Moved(t, ws[i], w').(vault := t'.vault, insurance := t'.insurance)
    requires t'.cTot + t'.insurance <= t'.vault <= MAX_VAULT_TVL
    requires mode.Resolved? ==> Released(w') - Released(ws[i]) == Pos(w'.pnl) - Pos(ws[i].pnl)
    ensures LedgerInv(t', ws[i := w'], mode, now, p)
    ensures t'.pnlMaturedPosTot <= t'.pnlPosTot
  {
    hide WalletOk, ReserveOk, Released;
    SumUpdate(ws, i, w', CapitalTerm());
    SumUpdate(ws, i, w', PosTerm());
    SumUpdate(ws, i, w', ReleasedTerm());
    SumUpdate(ws, i, w', NegTerm());
    MaturedWithinPositive(ws[i := w']);
  }

  lemma MaturedWithinPositive(ws: seq<Wallet>)
    ensures Sum(ws, ReleasedTerm()) <= Sum(ws, PosTerm())
  {
    SumMono(ws, ReleasedTerm(), PosTerm());
  }

  /** Time passing keeps the ledger. */
  lemma TimeKeepsLedger(t: Totals, ws: seq<Wallet>, mode: MarketMode, now: nat, later: nat, p: Params)
    requires LedgerInv(t, ws, mode, now, p) && now <= later
    ensures LedgerInv(t, ws, mode, later, p)
  {
    hide ReserveOk;
    forall i | 0 <= i < |ws|
      ensures WalletOk(ws[i], mode, later, p)
    {
      assert WalletOk(ws[i], mode, now, p);
      if mode.Live? {
        TimeKeepsReserve(ws[i].reserve, now, later, p.hMin, p.hMax);
      }
    }
  }

  /** Resolving counts all positive PnL as matured. */
  lemma ResolveKeepsLedger(t: Totals, ws: seq<Wallet>, now: nat, p: Params)
    requires LedgerInv(t, ws, Live, now, p)
    ensures LedgerInv(t.(pnlMaturedPosTot := t.pnlPosTot), ws, Resolved, now, p)
  {
    hide ReserveOk;
    forall i | 0 <= i < |ws|
      ensures WalletOk(ws[i], Resolved, now, p)
    {
      assert WalletOk(ws[i], Live, now, p);
    }
  }

  // ---- warmup on touch ----

  /** The whole reserve is accelerated when every matured claim stays covered. */
  predicate Accelerated(w: Wallet, t: Totals) {
    w.reserve.total != 0 && t.pnlMaturedPosTot + w.reserve.total <= Residual(t)
  }

  /** The warmup part of a touch at slot `now`: acceleration, or else an advance. */
  function Warmed(w: Wallet, t: Totals, now: nat): Wallet {
    if Accelerated(w, t) then w.(reserve := NO_RESERVE)
    else if Advanceable(w.reserve, now) && PendLeft(w.reserve) <= w.reserve.total
        then w.(reserve := Advanced(w.reserve, now))
    else w
  }

  function WarmedTotals(w: Wallet, t: Totals, now: nat): Totals {
    t.(pnlMaturedPosTot := t.pnlMaturedPosTot + Max(w.reserve.total - Warmed(w, t, now).reserve.total, 0))
  }

  predicate WarmupPanics(w: Wallet, t: Totals, now: nat) {
    && !Accelerated(w, t) && w.reserve.total != 0 && w.reserve.sched.Some?
    && w.reserve.sched.value.start <= now && VestingPanics(w.reserve.sched.value, now)
  }

  // ---- moving one account's PnL ----

  /** The horizon that fresh profit is admitted with: the short one only while it
      leaves every matured claim fully covered, and never for an account that has
      already needed the long one in this instruction. */
  function AdmittedHorizon(t: Totals, gain: nat, sticky: bool, hMin: nat, hMax: nat): nat {
    if sticky then hMax
    else if t.pnlMaturedPosTot + gain <= Residual(t) then hMin
    else hMax
  }

  /** A rise that needs the long horizon holds the account to it from then on. */
  predicate BecomesHeld(w: Wallet, t: Totals, newPnl: int, hMin: nat, hMax: nat) {
    var gain := Pos(newPnl) - Pos(w.pnl);
    gain > 0 && (hMin == hMax || t.vault < t.cTot + t.insurance + t.pnlMaturedPosTot + gain)
  }

  /** What refuses a move of PnL in a live market: a width, a cap on positive PnL, one's own
      or everybody's, no room for another account to be held, or an anchor that does not
      fit. */
  predicate PnlRefused(w: Wallet, t: Totals, newPnl: int, held: bool, full: bool, hMin: nat, hMax: nat, now: nat) {
    || Abs(newPnl) > I128_MAX || Pos(newPnl) > MAX_ACCOUNT_POSITIVE_PNL
    || (Pos(newPnl) > Pos(w.pnl)
        && var gain := Pos(newPnl) - Pos(w.pnl);
           var h := AdmittedHorizon(t, gain, held, hMin, hMax);
           || t.pnlPosTot + gain > MAX_PNL_POS_TOT
           || (full && !held && BecomesHeld(w, t, newPnl, hMin, hMax))
           || (h != 0 && AnchorOverflows(w.reserve, gain, now, h)))
  }

  /** set_pnl on one wallet: losses come out of the reserve first, newest first;
      gains are locked for `h` slots, or mature at once when `h` is zero. */
  function PnlMoved(w: Wallet, newPnl: int, h: nat, now: nat): Wallet
    requires SchedLeft(w.reserve) + PendLeft(w.reserve) == w.reserve.total
  {
    if Pos(newPnl) <= Pos(w.pnl) then
      w.(pnl := newPnl, reserve := AfterLoss(w.reserve, Min(Pos(w.pnl) - Pos(newPnl), w.reserve.total)))
    else if h == 0 then w.(pnl := newPnl)
    else w.(pnl := newPnl, reserve := Appended(w.reserve, Pos(newPnl) - Pos(w.pnl), now, h))
  }

  /** set_pnl with the horizon that admission chooses for a rise. */
  function AdmittedMove(w: Wallet, t: Totals, newPnl: int, sticky: bool, hMin: nat, hMax: nat, now: nat): Wallet {
    var gain := Pos(newPnl) - Pos(w.pnl);
    if SchedLeft(w.reserve) + PendLeft(w.reserve) != w.reserve.total then w
    else PnlMoved(w, newPnl, if gain > 0 then AdmittedHorizon(t, gain, sticky, hMin, hMax) else 0, now)
  }

  lemma PnlMovedOk(w: Wallet, newPnl: int, h: nat, now: nat, p: Params)
    requires WalletOk(w, Live, now, p)
    requires Abs(newPnl) <= I128_MAX && Pos(newPnl) <= MAX_ACCOUNT_POSITIVE_PNL
    requires h == 0 || HorizonOk(h, p.hMin, p.hMax)
    ensures WalletOk(PnlMoved(w, newPnl, h, now), Live, now, p)
  {
    hide ReserveOk, AfterLoss, Appended;
    if Pos(newPnl) <= Pos(w.pnl) {
      AfterLossOk(w.reserve, Min(Pos(w.pnl) - Pos(newPnl), w.reserve.total), now, p.hMin, p.hMax);
    } else if h != 0 {
      AppendedOk(w.reserve, Pos(newPnl) - Pos(w.pnl), now, h, p.hMin, p.hMax);
    }
  }

  /** What a fall of PnL takes from matured profit, after the reserve. */
  function MaturedLoss(w: Wallet, newPnl: int): nat
    requires Pos(newPnl) <= Pos(w.pnl)
  {
    var posLoss := Pos(w.pnl) - Pos(newPnl);
    posLoss - Min(posLoss, w.reserve.total)
  }

  /** A fall of PnL, in either mode. */
  lemma FallKeepsLedger(t: Totals, ws: seq<Wallet>, mode: MarketMode, now: nat, p: Params, i: nat, newPnl: int)
    requires LedgerInv(t, ws, mode, now, p) && i < |ws|
    requires Abs(newPnl) <= I128_MAX && Pos(newPnl) <= Pos(ws[i].pnl)
    requires mode.Resolved? ==> ws[i].reserve == NO_RESERVE
    ensures SchedLeft(ws[i].reserve) + PendLeft(ws[i].reserve) == ws[i].reserve.total
    ensures ws[i].pnl < 0 ==> t.negPnlCount > 0
    ensures Pos(ws[i].pnl) <= t.pnlPosTot && MaturedLoss(ws[i], newPnl) <= t.pnlMaturedPosTot
    ensures LedgerInv(t.(pnlPosTot := t.pnlPosTot - (Pos(ws[i].pnl) - Pos(newPnl)),
                         pnlMaturedPosTot := t.pnlMaturedPosTot - MaturedLoss(ws[i], newPnl),
                         negPnlCount := t.negPnlCount - (if ws[i].pnl < 0 then 1 else 0)
                             + (if newPnl < 0 then 1 else 0)),
                      ws[i := PnlMoved(ws[i], newPnl, 0, now)], mode, now, p)
  {
    hide AfterLoss, Appended;
    var w := ws[i];
    RowWithinTotals(t, ws, mode, now, p, i);
    FallOfWallet(w, newPnl, mode, now, p);
    var w' := PnlMoved(w, newPnl, 0, now);
    MoveKeepsLedger(t, ws, mode, now, p, i, w', Moved(t, w, w'));
  }

  lemma FallenReserve(w: Wallet, newPnl: int, now: nat)
    requires SchedLeft(w.reserve) + PendLeft(w.reserve) == w.reserve.total && Pos(newPnl) <= Pos(w.pnl)
    ensures var loss := Min(Pos(w.pnl) - Pos(newPnl), w.reserve.total);
            PnlMoved(w, newPnl, 0, now) == w.(pnl := newPnl, reserve := AfterLoss(w.reserve, loss))
    ensures w.reserve == NO_RESERVE ==> AfterLoss(w.reserve, 0) == NO_RESERVE
  {
  }

  lemma FallOfWallet(w: Wallet, newPnl: int, mode: MarketMode, now: nat, p: Params)
    requires WalletOk(w, mode, now, p)
    requires Abs(newPnl) <= I128_MAX && Pos(newPnl) <= Pos(w.pnl)
    requires mode.Resolved? ==> w.reserve == NO_RESERVE
    ensures SchedLeft(w.reserve) + PendLeft(w.reserve) == w.reserve.total <= Pos(w.pnl)
    ensures WalletOk(PnlMoved(w, newPnl, 0, now), mode, now, p)
    ensures Released(PnlMoved(w, newPnl, 0, now)) == Released(w) - MaturedLoss(w, newPnl)
  {
    hide Vested, Appended, AfterLoss, PnlMoved;
    FallenReserve(w, newPnl, now);
    if mode.Live? {
      AfterLossOk(w.reserve, Min(Pos(w.pnl) - Pos(newPnl), w.reserve.total), now, p.hMin, p.hMax);
      PnlMovedOk(w, newPnl, 0, now, p);
    }
  }

  /** A rise of PnL in a live market, locked for `h` slots or matured at once. */
  lemma RiseKeepsLedger(t: Totals, ws: seq<Wallet>, now: nat, p: Params, i: nat, newPnl: int, h: nat)
    requires LedgerInv(t, ws, Live, now, p) && i < |ws|
    requires Pos(ws[i].pnl) < Pos(newPnl) <= MAX_ACCOUNT_POSITIVE_PNL
    requires h == 0 || HorizonOk(h, p.hMin, p.hMax)
    ensures SchedLeft(ws[i].reserve) + PendLeft(ws[i].reserve) == ws[i].reserve.total
    ensures ws[i].pnl < 0 ==> t.negPnlCount > 0
    ensures var gain := Pos(newPnl) - Pos(ws[i].pnl);
            LedgerInv(t.(pnlPosTot := t.pnlPosTot + gain,
                         pnlMaturedPosTot := if h == 0 then t.pnlMaturedPosTot + gain else t.pnlMaturedPosTot,
                         negPnlCount := if ws[i].pnl < 0 then t.negPnlCount - 1 else t.negPnlCount),
                      ws[i := PnlMoved(ws[i], newPnl, h, now)], Live, now, p)
  {
    hide AfterLoss, Appended;
    var w := ws[i];
    RowWithinTotals(t, ws, Live, now, p, i);
    RiseOfWallet(w, newPnl, h, now, p);
    var w' := PnlMoved(w, newPnl, h, now);
    MoveKeepsLedger(t, ws, Live, now, p, i, w', Moved(t, w, w'));
  }

  lemma RiseOfWallet(w: Wallet, newPnl: int, h: nat, now: nat, p: Params)
    requires WalletOk(w, Live, now, p)
    requires Pos(w.pnl) < Pos(newPnl) <= MAX_ACCOUNT_POSITIVE_PNL
    requires h == 0 || HorizonOk(h, p.hMin, p.hMax)
    ensures SchedLeft(w.reserve) + PendLeft(w.reserve) == w.reserve.total <= Pos(w.pnl)
    ensures WalletOk(PnlMoved(w, newPnl, h, now), Live, now, p)
    ensures Released(PnlMoved(w, newPnl, h, now)) == Released(w) + (if h == 0 then Pos(newPnl) - Pos(w.pnl) else 0)
  {
    hide Vested, AfterLoss;
    PnlMovedOk(w, newPnl, h, now, p);
    if h != 0 {
      AppendedOk(w.reserve, Pos(newPnl) - Pos(w.pnl), now, h, p.hMin, p.hMax);
    }
  }

  // ---- reserves leaving the queue ----

  /** Any change of the reserve alone, in a live market. */
  lemma ReserveMoveKeepsLedger(t: Totals, ws: seq<Wallet>, now: nat, p: Params, i: nat, r: Reserve)
    requires LedgerInv(t, ws, Live, now, p) && i < |ws|
    requires ReserveOk(r, now, p.hMin, p.hMax) && r.total <= ws[i].reserve.total
    ensures var t' := t.(pnlMaturedPosTot := t.pnlMaturedPosTot + (ws[i].reserve.total - r.total));
            LedgerInv(t', ws[i := ws[i].(reserve := r)], Live, now, p) && t'.pnlMaturedPosTot <= t'.pnlPosTot
  {
    hide ReserveOk;
    RowWithinTotals(t, ws, Live, now, p, i);
    var w, w' := ws[i], ws[i].(reserve := r);
    MoveKeepsLedger(t, ws, Live, now, p, i, w', Moved(t, w, w'));
  }

  /** Capital and fee credits of one account move; PnL and reserve do not. */
  lemma CashMoveKeepsLedger(t: Totals, ws: seq<Wallet>, mode: MarketMode, now: nat, p: Params, i: nat, w': Wallet,
      t': Totals)
    requires LedgerInv(t, ws, mode, now, p) && i < |ws|
    requires w' == ws[i].(capital := w'.capital, feeCredits := w'.feeCredits, lastFeeSlot := w'.lastFeeSlot)
    requires -(I128_MAX as int) <= w'.feeCredits <= 0 && w'.lastFeeSlot <= now
    requires t' == t.(vault := t'.vault, insurance := t'.insurance, cTot := t'.cTot)
    requires t'.cTot == t.cTot - ws[i].capital + w'.capital
    requires t'.cTot + t'.insurance <= t'.vault <= MAX_VAULT_TVL
    ensures LedgerInv(t', ws[i := w'], mode, now, p)
  {
    hide ReserveOk;
    RowWithinTotals(t, ws, mode, now, p, i);
    assert Released(w') == Released(ws[i]);
    MoveKeepsLedger(t, ws, mode, now, p, i, w', t');
  }

  /** Released profit of one account is consumed. */
  lemma ConsumeKeepsLedger(t: Totals, ws: seq<Wallet>, now: nat, p: Params, i: nat, x: nat)
    requires LedgerInv(t, ws, Live, now, p) && i < |ws|
    requires x <= Released(ws[i])
    ensures x <= t.pnlMaturedPosTot <= t.pnlPosTot
    ensures LedgerInv(t.(pnlPosTot := t.pnlPosTot - x, pnlMaturedPosTot := t.pnlMaturedPosTot - x),
                      ws[i := ws[i].(pnl := ws[i].pnl - x)], Live, now, p)
  {
    hide ReserveOk;
    RowWithinTotals(t, ws, Live, now, p, i);
    var w, w' := ws[i], ws[i].(pnl := ws[i].pnl - x);
    if x > 0 {
      MoveKeepsLedger(t, ws, Live, now, p, i, w', Moved(t, w, w'));
    } else {
      assert ws[i := w'] == ws;
    }
  }

  // ---- the haircut ----

  datatype Ratio = Ratio(num: nat, den: nat)

  /** haircut_ratio: the share of matured profit that the residual can pay. */
  function Haircut(t: Totals): (h: Ratio)
    ensures h.den > 0 && h.num <= h.den
    ensures t.pnlMaturedPosTot <= Residual(t) ==> h.num == h.den
  {
    if t.pnlMaturedPosTot == 0 then Ratio(1, 1)
    else Ratio(Min(Max(Residual(t), 0), t.pnlMaturedPosTot), t.pnlMaturedPosTot)
  }

  /** floor(x * num / den). */
  function Scale(x: nat, h: Ratio): nat
    requires h.den > 0
  {
    FloorDivBounds(x * h.num, h.den);
    FloorDiv(x * h.num, h.den)
  }

  /** effective_matured_pnl. */
  function EffectiveMatured(w: Wallet, t: Totals): nat {
    Scale(Released(w), Haircut(t))
  }

  /** `eff` is the truncated part of `y`, out of `total`, that `left` can pay. */
  predicate IsShareOf(eff: int, y: nat, left: int, total: int) {
    if total == 0 then eff == y else IsFloor(eff, y * Min(Max(left, 0), total), total)
  }

  /** `eff` is the part of `x` of matured profit, out of everybody's, that the vault can pay
      beyond capital and insurance. */
  predicate IsCovered(eff: int, x: nat, t: Totals) {
    IsShareOf(eff, x, t.vault - t.cTot - t.insurance, t.pnlMaturedPosTot)
  }

  /** `eff` is what an account's released profit is worth. */
  predicate IsWorth(eff: nat, w: Wallet, t: Totals) {
    w.reserve.total <= Pos(w.pnl) && IsCovered(eff, Pos(w.pnl) - w.reserve.total, t)
  }

  lemma WorthMeans(w: Wallet, t: Totals)
    requires w.reserve.total <= Pos(w.pnl)
    ensures IsWorth(EffectiveMatured(w, t), w, t) && EffectiveMatured(w, t) <= Pos(w.pnl)
    ensures forall eff: nat :: IsWorth(eff, w, t) ==> eff == EffectiveMatured(w, t)
  {
    var h := Haircut(t);
    hide FloorDiv;
    FloorIsFloor(Released(w) * h.num, h.den);
    ScaledAtMost(Released(w), h);
    assert t.pnlMaturedPosTot == 0 ==> IsFloor(Released(w), Released(w) * 1, 1);
  }

  lemma ScaledAtMost(x: nat, h: Ratio)
    requires h.den > 0 && h.num <= h.den
    ensures Scale(x, h) <= x
  {
    FloorDivBounds(x * h.num, h.den);
    MulMono(h.num, h.den, x);
    CancelFactor(Scale(x, h), x, h.den);
  }

  ghost function ScaledTerm(f: Wallet -> int, h: Ratio): Wallet -> int
    requires h.den > 0
  {
    (w: Wallet) => if f(w) >= 0 then Scale(f(w), h) else 0
  }

  lemma AddShare(a: int, b: int, x: int, y: int, num: int, den: int)
    requires a * den <= x * num && b * den <= y * num
    ensures (a + b) * den <= (x + y) * num
  {
    assert (a + b) * den == a * den + b * den;
    assert (x + y) * num == x * num + y * num;
  }

  /** Truncated shares add up to at most the scaled total. */
  lemma {:induction false} SharesWithinTotal(ws: seq<Wallet>, f: Wallet -> int, h: Ratio)
    requires h.den > 0
    requires forall w :: f(w) >= 0
    ensures Sum(ws, ScaledTerm(f, h)) * h.den <= Sum(ws, f) * h.num
  {
    hide Scale;
    if ws != [] {
      var n := |ws| - 1;
      SharesWithinTotal(ws[..n], f, h);
      ScaleBounds(f(ws[n]), h);
      AddShare(Sum(ws[..n], ScaledTerm(f, h)), Scale(f(ws[n]), h), Sum(ws[..n], f), f(ws[n]), h.num, h.den);
    }
  }

  lemma ScaleBounds(x: nat, h: Ratio)
    requires h.den > 0
    ensures Scale(x, h) * h.den <= x * h.num
  {
    FloorDivBounds(x * h.num, h.den);
  }

  lemma CancelFactor(x: int, y: int, k: int)
    requires k > 0 && x * k <= y * k
    ensures x <= y
  {
    assert x * k == y * k + (x - y) * k;
  }

  /** Together, all accounts' haircut profit never exceeds what is left in the vault
      after capital and insurance. */
  lemma HaircutIsSolvent(t: Totals, ws: seq<Wallet>, now: nat, p: Params)
    requires LedgerInv(t, ws, Live, now, p)
    ensures Sum(ws, ScaledTerm(ReleasedTerm(), Haircut(t))) <= Residual(t)
  {
    hide WalletOk, Scale, Released;
    var h := Haircut(t);
    if t.pnlMaturedPosTot == 0 {
      SharesWithinTotal(ws, ReleasedTerm(), h);
    } else {
      SharesWithinTotal(ws, ReleasedTerm(), h);
      assert h.den * h.num == h.num * h.den;
      CancelFactor(Sum(ws, ScaledTerm(ReleasedTerm(), h)), h.num, h.den);
    }
  }

  /** The totals after an account converts `x` of released profit to capital. */
  function Converted(t: Totals, x: nat): Totals
    requires x <= t.pnlMaturedPosTot <= t.pnlPosTot
  {
    t.(pnlPosTot := t.pnlPosTot - x, pnlMaturedPosTot := t.pnlMaturedPosTot - x, cTot := t.cTot + Scale(x, Haircut(t)))
  }

  lemma ConversionMeans(t: Totals, x: nat)
    requires x <= t.pnlMaturedPosTot && t.cTot + t.insurance <= t.vault
    ensures IsCovered(Scale(x, Haircut(t)), x, t)
  {
    hide FloorDiv;
    FloorIsFloor(x * Haircut(t).num, Haircut(t).den);
    if t.pnlMaturedPosTot == 0 {
      ScaledAtMost(0, Haircut(t));
    }
  }

  /** A conversion stays solvent and never lowers the ratio for anyone else
      (the two ratios compared by cross-multiplication). */
  lemma ConversionNeverLowersHaircut(t: Totals, x: nat)
    requires 0 < x <= t.pnlMaturedPosTot <= t.pnlPosTot
    requires t.cTot + t.insurance <= t.vault
    ensures Residual(Converted(t, x)) >= 0
    ensures var h, h' := Haircut(t), Haircut(Converted(t, x));
            h.num * h'.den <= h'.num * h.den
  {
    var h := Haircut(t);
    FloorDivBounds(x * h.num, h.den);
    hide Scale;
    ConversionCore(t.pnlMaturedPosTot, Residual(t), h.num, x, Scale(x, h));
  }

  /** m matured, r residual, n = min(r, m), y paid for x. */
  lemma ConversionCore(m: nat, r: nat, n: nat, x: nat, y: nat)
    requires 0 < x <= m && n == Min(r, m)
    requires y * m <= x * n
    ensures y <= n
    ensures x == m ==> n <= m
    ensures n * (m - x) <= Min(r - y, m - x) * m
  {
    ShareWithin(x, n, m, y);
    assert n * (m - x) == n * m - n * x;
    if n == m {
      CancelFactor(y, x, m);
      MulMono(m - x, Min(r - y, m - x), m);
    } else {
      assert (r - y) * m == r * m - y * m;
      MulMono(n, m, m - x);
    }
  }

  lemma ShareWithin(x: nat, num: nat, m: nat, y: nat)
    requires m > 0 && y * m <= x * num && x <= m
    ensures y <= num
  {
    MulMono(x, m, num);
    assert m * num == num * m;
    CancelFactor(y, num, m);
  }

  // ---- how much a flat account may convert ----

  /** The quotient of the cap does not fit 128 bits, and computing it panics. */
  predicate CapPanics(e: int, h: Ratio)
    requires h.num <= h.den
  {
    e > 0 && h.num < h.den && FloorDiv(e * h.den, h.den - h.num) > U128_MAX
  }

  /** max_safe_flat_conversion_released for equity `e` before the conversion. */
  function MaxSafeConversion(e: int, xCap: nat, h: Ratio): Result<nat>
    requires h.num <= h.den
  {
    if xCap == 0 || e <= 0 then Ok(0)
    else if h.den == 0 || h.num == h.den then Ok(xCap)
    else
      FloorDivBounds(e * h.den, h.den - h.num);
      var safe := FloorDiv(e * h.den, h.den - h.num);
      if safe > U128_MAX then Err(Panicked) else Ok(Min(xCap, safe))
  }

  /** Where the cap can be computed it is exact: a conversion of `x` passes it iff the
      account has equity and the conversion leaves e - x + floor(x * num / den)
      nonnegative.  It panics exactly when its quotient does not fit, which takes an
      equity and a matured total whose product does not fit either, and which happens
      only to conversions that are safe. */
  lemma FlatConversionCapIsExact(e: int, x: nat, h: Ratio)
    requires 0 < x && h.num <= h.den && h.den > 0
    ensures var cap := MaxSafeConversion(e, x, h);
            && (cap.Err? <==> CapPanics(e, h)) && (cap.Err? ==> cap.error == Panicked)
            && (cap.Ok? ==> (x <= cap.value <==> e > 0 && e - x + Scale(x, h) >= 0))
    ensures CapPanics(e, h) ==> e * h.den > U128_MAX && (x <= U128_MAX ==> e - x + Scale(x, h) >= 0)
  {
    var d, l := h.den, h.den - h.num;
    FloorDivBounds(x * h.num, d);
    assert x * h.num == x * d - x * l;
    var y := Scale(x, h);
    LossWithinEquity(e, x, y, d, l);
    if e <= 0 {
    } else if l > 0 {
      FloorDivBounds(e * d, l);
      QuotientIff(x, l, e * d, FloorDiv(e * d, l));
      MulMono(1, l, FloorDiv(e * d, l));
    } else {
      assert x * l == 0;
      MulMono(0, e, d);
    }
  }

  /** x - y is the rounded-up loss x * l / d, so it is within e iff x * l <= e * d. */
  lemma LossWithinEquity(e: int, x: nat, y: nat, d: nat, l: nat)
    requires d > 0 && y * d <= x * d - x * l < y * d + d
    ensures x - y <= e <==> x * l <= e * d
  {
    assert (x - y) * d == x * d - y * d;
    assert (e + 1) * d == e * d + d;
    if x - y <= e {
      MulMono(x - y, e, d);
    } else {
      MulMono(e + 1, x - y, d);
    }
  }

  lemma QuotientIff(x: nat, l: nat, n: int, q: int)
    requires l > 0 && q * l <= n < q * l + l
    ensures x <= q <==> x * l <= n
  {
    if x <= q {
      MulMono(x, q, l);
    } else {
      MulMono(q + 1, x, l);
      assert (q + 1) * l == q * l + l;
    }
  }
}
