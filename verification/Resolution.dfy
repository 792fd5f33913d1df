// Resolving a market: the last mark, reconciling every account with it, and paying
// what is left at one locked ratio.
module Resolution {
  import opened Arith
  import opened Market
  import opened Options
  import opened Sums
  import opened Book
  import opened Resets
  import opened LazyIndex
  import opened Accrual
  import opened Warmup
  import opened Ledger
  import opened Margin

  datatype ResolveMode = Ordinary | Degenerate

  /** The outcome of a forced close: the account is still open, or closed and paid. */
  datatype ResolvedClose = ProgressOnly | Closed(capital: nat)

  /** The settlement price lies within the configured band around the last price. */
  predicate InBand(resolved: nat, last: nat, bps: nat) {
    Abs(resolved - last) * 10_000 <= bps * last
  }

  /** What settlement at a price `dp` away from the live one adds to a side's parked K. */
  function TerminalDelta(side: Side, s: SideState, dp: int): int {
    if s.mode.ResetPending? then 0 else Signed(side, s.a * dp)
  }

  /** Both sides after resolution: no open interest, and a last epoch started. */
  function TerminalEpochs(b: Sides): Result<Sides> {
    Finalize(WithoutOi(b), Flags(true, true))
  }

  /** A side that must start its last epoch has none left. */
  predicate LastEpochExhausted(s: SideState) {
    !s.mode.ResetPending? && s.epoch >= U64_MAX
  }

  /** What reconciling a row is worth: its stored K and F against the parked indices,
      with the terminal delta added. */
  function ReconcileDelta(p: Position, b: Sides, kLong: int, kShort: int): Result<int> {
    if p.basis == 0 then Ok(0)
    else if p.aBasis == 0 || !Stale(p, b) then Err(CorruptState)
    else
      var s := b.Get(SideOf(p));
      KfPnlDelta(Abs(p.basis), p.kSnap, s.kStart + (if SideOf(p).Long? then kLong else kShort), p.fSnap, s.fStart,
          p.aBasis * POS_SCALE)
  }

  // ---- resolution is one more mark ----

  /** A side on which somebody holds a current position has open interest. */
  lemma HeldMeansOi(ps: seq<Position>, b: Sides, i: nat)
    requires BookInv(ps, b, NO_RESET) && i < |ps| && ps[i].basis != 0 && !Stale(ps[i], b)
    ensures b.Get(SideOf(ps[i])).oi > 0 && !b.Get(SideOf(ps[i])).mode.ResetPending?
  {
    hide Count, Explained, EffAbs;
    ModesAgree(ps, b);
    var side := SideOf(ps[i]);
    var s := b.Get(side);
    assert PosOk(ps[i], b);
    WeightNonNegative(ps, side, s.epoch);
    SumRealAtLeast(ps, i, WeightTerm(side, s.epoch));
    PositiveWeight(Abs(ps[i].basis), ps[i].aBasis, Weights(ps, side, s), s.a);
  }

  lemma PositiveWeight(basis: nat, aBasis: nat, w: real, a: nat)
    requires basis > 0 && aBasis > 0 && a > 0 && w >= basis as real / aBasis as real
    ensures Scaled(w, a) > 0.0
  {
    var x := basis as real / aBasis as real;
    assert x * aBasis as real == basis as real;
    assert x > 0.0;
  }

  lemma TerminalSide(s: SideState)
    ensures var r := BeginIfFlagged(s.(oi := 0), true);
            && (r.Err? <==> LastEpochExhausted(s))
            && (r.Err? ==> r.error == Overflow)
            && (r.Ok? ==>
                  var x := Reopened(r.value);
                  if s.mode.ResetPending? then x == s.(oi := 0, mode := x.mode)
                  else x == Restarted(s.(oi := 0)).(mode := x.mode))
  {
  }

  /** For every account: resolving and reconciling is worth exactly what accruing once
      more, with no time passing, to the resolved price and settling would be.  A side
      already waiting for a reset settles at its parked indices either way. */
  lemma ResolutionIsAFinalMark(ps: seq<Position>, b: Sides, i: nat, dp: int)
    requires BookInv(ps, b, NO_RESET) && i < |ps|
    requires TerminalEpochs(b).Ok?
    ensures ReconcileDelta(ps[i], TerminalEpochs(b).value, TerminalDelta(Long, b.long, dp),
              TerminalDelta(Short, b.short, dp))
         == SettleDelta(ps[i], Accrued(b, dp, 0))
  {
    hide KfPnlDelta, SideInv, Restarted, BeginIfFlagged;
    var p := ps[i];
    if p.basis != 0 {
      assert PosOk(p, b);
      ModesAgree(ps, b);
      var side := SideOf(p);
      var s := b.Get(side);
      TerminalSide(b.long);
      TerminalSide(b.short);
      if s.mode.ResetPending? {
        assert Stale(p, b);
      } else {
        HeldMeansOi(ps, b, i);
        NoMove(s, side);
        RestartedParks(s);
      }
    }
  }

  lemma RestartedParks(s: SideState)
    ensures var r := Restarted(s.(oi := 0));
            r.kStart == s.k && r.fStart == s.f && r.epoch == s.epoch + 1
  {
  }

  // ---- reconciling, in any order ----

  /** An account as resolution finds it: its wallet and the PnL its position is owed. */
  datatype Claim = Claim(w: Wallet, delta: int)

  /** The loss that the account's own capital does not cover. */
  function Uncovered(c: Claim): nat {
    var w := Settled(c.w.(pnl := c.w.pnl + c.delta));
    if w.pnl < 0 then -w.pnl else 0
  }

  /** reconcile_resolved on one account: reserve cleared, PnL booked, losses paid from
      capital, and what is left of them absorbed elsewhere. */
  function Reconciled(c: Claim): Wallet {
    var w := Settled(c.w.(pnl := c.w.pnl + c.delta, reserve := NO_RESERVE));
    w.(pnl := Max(w.pnl, 0))
  }

  function Done(c: Claim): Claim {
    Claim(Reconciled(c), 0)
  }

  /** All accounts and the insurance fund. */
  datatype Estate = Estate(claims: seq<Claim>, insurance: nat)

  predicate Within(order: seq<nat>, n: nat) {
    forall k :: 0 <= k < |order| ==> order[k] < n
  }

  function ReconcileOne(x: Estate, i: nat, floor: nat): Estate
    requires i < |x.claims|
  {
    Estate(x.claims[i := Done(x.claims[i])], x.insurance - InsurancePays(x.insurance, Uncovered(x.claims[i]), floor))
  }

  function ReconcileAll(x: Estate, order: seq<nat>, floor: nat): Estate
    requires Within(order, |x.claims|)
    decreases |order|
  {
    if order == [] then x else ReconcileAll(ReconcileOne(x, order[0], floor), order[1..], floor)
  }

  ghost function UncoveredTerm(): Claim -> int {
    (c: Claim) => Uncovered(c)
  }

  lemma DoneIsStable(c: Claim)
    ensures Done(Done(c)) == Done(c) && Uncovered(Done(c)) == 0
  {
  }

  /** One reconciliation moves neither the outcome of every account nor what the
      insurance fund will have paid in the end. */
  lemma OneStepKeepsOutcome(x: Estate, i: nat, floor: nat)
    requires i < |x.claims|
    ensures var y := ReconcileOne(x, i, floor);
            && (forall k :: 0 <= k < |x.claims| ==> Done(y.claims[k]) == Done(x.claims[k]))
            && Sum(y.claims, UncoveredTerm()) == Sum(x.claims, UncoveredTerm()) - Uncovered(x.claims[i])
            && y.insurance - InsurancePays(y.insurance, Sum(y.claims, UncoveredTerm()), floor)
               == x.insurance - InsurancePays(x.insurance, Sum(x.claims, UncoveredTerm()), floor)
  {
    hide Uncovered, Reconciled;
    DoneIsStable(x.claims[i]);
    SumUpdate(x.claims, i, Done(x.claims[i]), UncoveredTerm());
    SumAtLeast(x.claims, i, UncoveredTerm());
  }

  lemma {:induction false} AnyOrderKeepsOutcome(x: Estate, order: seq<nat>, floor: nat)
    requires Within(order, |x.claims|)
    ensures var y := ReconcileAll(x, order, floor);
            && |y.claims| == |x.claims|
            && (forall k :: 0 <= k < |x.claims| ==> Done(y.claims[k]) == Done(x.claims[k]))
            && (forall k :: 0 <= k < |x.claims| && (k in order || x.claims[k] == Done(x.claims[k])) ==>
                 y.claims[k] == Done(x.claims[k]))
            && y.insurance - InsurancePays(y.insurance, Sum(y.claims, UncoveredTerm()), floor)
               == x.insurance - InsurancePays(x.insurance, Sum(x.claims, UncoveredTerm()), floor)
    decreases |order|
  {
    hide Uncovered, Reconciled, UncoveredTerm;
    if order != [] {
      var i := order[0];
      OneStepKeepsOutcome(x, i, floor);
      DoneIsStable(x.claims[i]);
      AnyOrderKeepsOutcome(ReconcileOne(x, i, floor), order[1..], floor);
      assert forall k :: k in order ==> k == i || k in order[1..];
    }
  }

  /** Reconciling every account that is not reconciled yet, in any order and however
      often, leaves each account and the insurance fund in the same state: so the same
      residual, and the same total of positive PnL. */
  lemma ReconcilingIsOrderFree(x: Estate, order: seq<nat>, floor: nat)
    requires Within(order, |x.claims|)
    requires forall k :: 0 <= k < |x.claims| ==> k in order || x.claims[k] == Done(x.claims[k])
    ensures var y := ReconcileAll(x, order, floor);
            && |y.claims| == |x.claims|
            && (forall k :: 0 <= k < |x.claims| ==> y.claims[k] == Claim(Reconciled(x.claims[k]), 0))
            && y.insurance == x.insurance - InsurancePays(x.insurance, Sum(x.claims, UncoveredTerm()), floor)
  {
    hide Uncovered, Reconciled;
    AnyOrderKeepsOutcome(x, order, floor);
    var y := ReconcileAll(x, order, floor);
    forall c | c in y.claims
      ensures UncoveredTerm()(c) == 0
    {
      var k :| 0 <= k < |y.claims| && y.claims[k] == c;
      DoneIsStable(x.claims[k]);
    }
    SumZero(y.claims, UncoveredTerm());
  }

  // ---- paying out, in any order ----

  /** The ratio everybody is paid at: locked by the first account with a profit. */
  function LockedRatio(t: Totals, payout: Option<Ratio>): Ratio {
    if payout.Some? then payout.value
    else Ratio(Min(Max(Residual(t), 0), t.pnlPosTot), t.pnlPosTot)
  }

  /** floor(pnl * num / den). */
  function TerminalShare(w: Wallet, h: Ratio): nat {
    if h.den == 0 then 0 else Scale(Pos(w.pnl), h)
  }

  function WithShare(w: Wallet, h: Ratio): Wallet {
    if w.pnl > 0 then w.(pnl := 0, capital := w.capital + TerminalShare(w, h)) else w
  }

  /** The totals after an account has been reconciled, as far as the ratio depends on
      them. */
  function ReconciledTotals(t: Totals, c: Claim, floor: nat): Totals {
    t.(cTot := Max(t.cTot - c.w.capital + Reconciled(c).capital, 0),
       insurance := Max(t.insurance - InsurancePays(t.insurance, Uncovered(c), floor), 0),
       pnlPosTot := Max(t.pnlPosTot - Pos(c.w.pnl) + Pos(Reconciled(c).pnl), 0))
  }

  lemma RatioAfterReconciling(t: Totals, ws: seq<Wallet>, t': Totals, ws': seq<Wallet>, now: nat, later: nat,
      p: Params, i: nat,
                              c: Claim, payout: Option<Ratio>)
    requires LedgerInv(t, ws, Resolved, now, p) && LedgerInv(t', ws', Resolved, later, p)
    requires i < |ws| == |ws'| && ws' == ws[i := ws'[i]] && c.w == ws[i] && ws'[i] == Reconciled(c)
    requires t'.vault == t.vault && t'.insurance == t.insurance
               - InsurancePays(t.insurance, Uncovered(c), p.insuranceFloor)
    ensures LockedRatio(t', payout) == LockedRatio(ReconciledTotals(t, c, p.insuranceFloor), payout)
  {
    hide WalletOk, Reconciled, Uncovered;
    RowWithinTotals(t, ws, Resolved, now, p, i);
    SumUpdate(ws, i, ws'[i], CapitalTerm());
    SumUpdate(ws, i, ws'[i], PosTerm());
  }

  /** What a terminal close pays: capital and share, less what fee debt takes. */
  function TerminalPayment(w: Wallet, h: Ratio): nat {
    Swept(WithShare(w, h)).capital
  }

  // ---- the same in plain inequalities ----

  /** The ratio: what the vault holds beyond capital and insurance, over all positive PnL,
      and at most one. */
  function RatioOf(t: Totals, payout: Option<Ratio>): Ratio {
    var left := t.vault - t.cTot - t.insurance;
    if payout.Some? then payout.value else Ratio(if left < 0 then 0 else Min(left, t.pnlPosTot), t.pnlPosTot)
  }

  /** An account is paid its capital and its profit at the ratio, rounded down, less its
      fee debt as far as the two cover it. */
  ghost predicate PaidOut(paid: int, w: Wallet, h: Ratio) {
    exists share: nat ::
      && ShareIs(share, w, h)
      && paid == w.capital + share - Min(-w.feeCredits, w.capital + share)
  }

  predicate ShareIs(share: int, w: Wallet, h: Ratio) {
    if w.pnl > 0 then share * h.den <= w.pnl * h.num < (share + 1) * h.den else share == 0
  }

  lemma PaymentMeans(w: Wallet, h: Ratio)
    requires w.feeCredits <= 0 && (w.pnl > 0 ==> h.den > 0)
    ensures PaidOut(TerminalPayment(w, h), w, h) && ShareIs(if w.pnl > 0 then TerminalShare(w, h) else 0, w, h)
    ensures forall share: nat :: ShareIs(share, w, h) ==> share == if w.pnl > 0 then TerminalShare(w, h) else 0
    ensures h.num <= h.den && w.feeCredits == 0 ==> TerminalPayment(w, h) >= w.capital
  {
    hide FloorDiv;
    if w.pnl > 0 {
      FloorIsFloor(w.pnl * h.num, h.den);
      var share := TerminalShare(w, h);
      assert forall x: nat :: (x + 1) * h.den == x * h.den + h.den;
      assert ShareIs(share, w, h);
      forall x: nat | ShareIs(x, w, h)
        ensures x == share
      {
        FloorDivUnique(w.pnl * h.num, h.den, x);
      }
    } else {
      assert ShareIs(0, w, h);
    }
  }

  lemma ShareMeans(w: Wallet, h: Ratio)
    requires w.pnl > 0 && h.den > 0
    ensures ShareIs(TerminalShare(w, h), w, h)
  {
    FloorDivBounds(w.pnl * h.num, h.den);
    assert (TerminalShare(w, h) + 1) * h.den == TerminalShare(w, h) * h.den + h.den;
  }

  lemma SameRatio(t: Totals, payout: Option<Ratio>)
    ensures RatioOf(t, payout) == LockedRatio(t, payout)
  {
  }

  /** Paid without debt, an account gets its capital and exactly its rounded-down share;
      and capital and PnL in full when the ratio is one. */
  lemma PaidWithoutDebt(paid: int, w: Wallet, h: Ratio)
    requires PaidOut(paid, w, h) && w.feeCredits == 0
    ensures w.pnl > 0 ==> (paid - w.capital) * h.den <= w.pnl * h.num < (paid - w.capital + 1) * h.den
    ensures w.pnl <= 0 ==> paid == w.capital
    ensures w.pnl > 0 && h.num == h.den > 0 ==> paid == w.capital + w.pnl
  {
    if w.pnl > 0 && h.num == h.den > 0 {
      var share := paid - w.capital;
      assert (share + 1) * h.den == share * h.den + h.den;
      FloorDivUnique(w.pnl * h.den, h.den, share);
      FloorDivUnique(w.pnl * h.den, h.den, w.pnl);
    }
  }

  ghost function WinnerTerm(): Wallet -> int {
    (w: Wallet) => if w.pnl > 0 then 1 else 0
  }

  /** All shares together: at most the total at the ratio, and short of it by less than
      one unit for every winner. */
  lemma {:induction false} SharesAddUp(ws: seq<Wallet>, shares: seq<nat>, h: Ratio)
    requires |shares| == |ws| && h.den > 0 && forall k :: 0 <= k < |ws| ==> ShareIs(shares[k], ws[k], h)
    ensures Paid(shares) * h.den <= Sum(ws, PosTerm()) * h.num
    ensures Sum(ws, PosTerm()) * h.num <= (Paid(shares) + Sum(ws, WinnerTerm())) * h.den
    ensures Sum(ws, WinnerTerm()) > 0 ==>
              Sum(ws, PosTerm()) * h.num < (Paid(shares) + Sum(ws, WinnerTerm())) * h.den
    ensures 0 <= Sum(ws, WinnerTerm()) && 0 <= Sum(ws, PosTerm())
  {
    if ws == [] {
      assert 0 * h.den == 0 && 0 * h.num == 0;
    } else {
      var n := |ws| - 1;
      SharesAddUp(ws[..n], shares[..n], h);
      ShareStep(Paid(shares[..n]), shares[n], Sum(ws[..n], PosTerm()), Sum(ws[..n], WinnerTerm()), ws[n], h);
    }
  }

  /** One more account: `s`, `p` and `v` are the shares, profits and winners so far. */
  lemma ShareStep(s: nat, x: nat, p: int, v: int, w: Wallet, h: Ratio)
    requires ShareIs(x, w, h) && h.den > 0 && s * h.den <= p * h.num <= (s + v) * h.den
    requires v > 0 ==> p * h.num < (s + v) * h.den
    ensures var p', v' := p + Pos(w.pnl), v + (if w.pnl > 0 then 1 else 0);
            && (s + x) * h.den <= p' * h.num <= (s + x + v') * h.den
            && (v >= 0 && v' > 0 ==> p' * h.num < (s + x + v') * h.den)
  {
    var y, z := Pos(w.pnl), if w.pnl > 0 then 1 else 0;
    assert (s + x) * h.den == s * h.den + x * h.den;
    assert (p + y) * h.num == p * h.num + y * h.num;
    assert (s + x + (v + z)) * h.den == (s + v) * h.den + (x + z) * h.den;
    if w.pnl <= 0 {
      assert 0 * h.num == 0 && 0 * h.den == 0;
    }
  }

  function Paid(payments: seq<nat>): nat {
    if payments == [] then 0 else Paid(payments[..|payments| - 1]) + payments[|payments| - 1]
  }

  /** So everything that is there for the winners is paid out, less than a unit each aside:
      the shares add up to at most the residual or all positive PnL, whichever is less,
      and to more than that less the number of winners. */
  lemma ProfitIsPaidOut(t: Totals, ws: seq<Wallet>, shares: seq<nat>)
    requires t.pnlPosTot == Sum(ws, PosTerm()) > 0 && t.cTot + t.insurance <= t.vault
    requires |shares| == |ws| && forall k :: 0 <= k < |ws| ==> ShareIs(shares[k], ws[k], RatioOf(t, None))
    ensures var pot := Min(t.vault - t.cTot - t.insurance, t.pnlPosTot);
            pot - Sum(ws, WinnerTerm()) < Paid(shares) <= pot
  {
    hide ShareIs;
    var h := RatioOf(t, None);
    SharesAddUp(ws, shares, h);
    SomeoneWins(ws);
    var all, v := Paid(shares), Sum(ws, WinnerTerm());
    assert h.den * h.num == h.num * h.den;
    CancelFactor(all, h.num, h.den);
    if all + v <= h.num {
      MulMono(all + v, h.num, h.den);
    }
  }

  lemma {:induction false} SomeoneWins(ws: seq<Wallet>)
    ensures 0 <= Sum(ws, WinnerTerm()) && (Sum(ws, PosTerm()) > 0 ==> Sum(ws, WinnerTerm()) > 0)
    ensures 0 <= Sum(ws, PosTerm())
  {
    if ws != [] {
      SomeoneWins(ws[..|ws| - 1]);
    }
  }

  /** The part of the engine that terminal closes read and write. */
  datatype Closing = Closing(t: Totals, ws: seq<Wallet>, payout: Option<Ratio>)

  /** close_resolved_terminal on one account. */
  function CloseOne(c: Closing, i: nat): Closing
    requires i < |c.ws|
  {
    var w, h := c.ws[i], LockedRatio(c.t, c.payout);
    var paid := TerminalPayment(w, h);
    Closing(ClosedTotals(c.t, w, h), c.ws[i := EMPTY_WALLET], if w.pnl > 0 then Some(h) else c.payout)
  }

  function ClosedTotals(t: Totals, w: Wallet, h: Ratio): Totals {
    t.(vault := Max(t.vault - TerminalPayment(w, h), 0),
       insurance := t.insurance + SweptFee(WithShare(w, h)),
       cTot := Max(t.cTot - w.capital, 0),
       pnlPosTot := Max(t.pnlPosTot - Pos(w.pnl), 0),
       pnlMaturedPosTot := Max(t.pnlPosTot - Pos(w.pnl), 0))
  }

  /** Closing accounts in the given order; the payments, in that order. */
  function Payments(c: Closing, order: seq<nat>): seq<nat>
    requires Within(order, |c.ws|)
    decreases |order|
  {
    if order == [] then []
    else [TerminalPayment(c.ws[order[0]], LockedRatio(c.t, c.payout))] + Payments(CloseOne(c, order[0]), order[1..])
  }

  /** A resolved, fully reconciled ledger that can pay everybody: exact totals, nobody
      in loss, and the shares still to be paid fit in the residual. */
  ghost predicate Payable(c: Closing) {
    && c.t.cTot == Sum(c.ws, CapitalTerm()) && c.t.pnlPosTot == Sum(c.ws, PosTerm())
    && c.t.cTot + c.t.insurance <= c.t.vault
    && (forall i :: 0 <= i < |c.ws| ==> c.ws[i].pnl >= 0)
    && (c.payout.Some? ==> c.payout.value.den > 0 && Sum(c.ws, ScaledTerm(PosTerm(), c.payout.value)) <= Residual(c.t))
  }

  /** Truncated shares of a freshly locked ratio add up to at most the residual. */
  lemma LockedIsPayable(t: Totals, ws: seq<Wallet>)
    requires t.pnlPosTot == Sum(ws, PosTerm()) && t.pnlPosTot > 0 && t.cTot + t.insurance <= t.vault
    ensures var h := LockedRatio(t, None);
            h.den > 0 && h.num <= h.den && Sum(ws, ScaledTerm(PosTerm(), h)) <= Residual(t)
  {
    hide Scale;
    var h := LockedRatio(t, None);
    SharesWithinTotal(ws, PosTerm(), h);
    assert h.den * h.num == h.num * h.den;
    CancelFactor(Sum(ws, ScaledTerm(PosTerm(), h)), h.num, h.den);
  }

  /** The totals of one close, when the account and its share fit in them. */
  lemma ClosedTotalsExact(t: Totals, w: Wallet, h: Ratio)
    requires w.capital <= t.cTot && 0 <= w.pnl <= t.pnlPosTot && t.cTot + t.insurance <= t.vault
    requires TerminalShare(w, h) <= Residual(t) && (w.pnl == 0 ==> TerminalShare(w, h) == 0)
    ensures var u := ClosedTotals(t, w, h);
            && u.vault == t.vault - TerminalPayment(w, h)
            && u.cTot == t.cTot - w.capital && u.pnlPosTot == t.pnlPosTot - w.pnl
            && Residual(u) == Residual(t) - TerminalShare(w, h)
  {
    hide TerminalShare;
  }

  /** What an account is owed at the ratio is within the residual, and goes with it. */
  lemma ShareWithinResidual(c: Closing, i: nat)
    requires Payable(c) && i < |c.ws|
    ensures var w, h := c.ws[i], LockedRatio(c.t, c.payout);
            && TerminalShare(w, h) <= Residual(c.t) && (w.pnl == 0 ==> TerminalShare(w, h) == 0)
            && (w.pnl > 0 ==> h.den > 0)
            && (h.den > 0 && (c.payout.Some? || w.pnl > 0) ==>
                  Sum(c.ws[i := EMPTY_WALLET], ScaledTerm(PosTerm(), h)) <= Residual(c.t) - TerminalShare(w, h))
  {
    hide Scale;
    var w, h := c.ws[i], LockedRatio(c.t, c.payout);
    SumAtLeast(c.ws, i, PosTerm());
    if c.t.pnlPosTot > 0 && c.payout.None? {
      LockedIsPayable(c.t, c.ws);
    }
    if h.den > 0 {
      SumUpdate(c.ws, i, EMPTY_WALLET, ScaledTerm(PosTerm(), h));
      SumAtLeast(c.ws, i, ScaledTerm(PosTerm(), h));
      NoProfitNoShare(h);
    }
  }

  /** A close stays payable and moves the ratio for nobody else. */
  lemma CloseKeepsPayable(c: Closing, i: nat)
    requires Payable(c) && i < |c.ws|
    ensures var d := CloseOne(c, i);
            && Payable(d)
            && LockedRatio(d.t, d.payout) == LockedRatio(c.t, c.payout)
            && c.t.vault == d.t.vault + TerminalPayment(c.ws[i], LockedRatio(c.t, c.payout))
            && Residual(d.t) == Residual(c.t) - TerminalShare(c.ws[i], LockedRatio(c.t, c.payout))
  {
    hide TerminalShare, TerminalPayment, ClosedTotals, ScaledTerm;
    var w, h := c.ws[i], LockedRatio(c.t, c.payout);
    SumUpdate(c.ws, i, EMPTY_WALLET, CapitalTerm());
    SumUpdate(c.ws, i, EMPTY_WALLET, PosTerm());
    SumAtLeast(c.ws, i, CapitalTerm());
    SumAtLeast(c.ws, i, PosTerm());
    ShareWithinResidual(c, i);
    ClosedTotalsExact(c.t, w, h);
  }

  lemma NoProfitNoShare(h: Ratio)
    requires h.den > 0
    ensures Scale(0, h) == 0
  {
    assert 0 * h.num == 0;
    FloorDivUnique(0, h.den, 0);
  }

  /** Whatever the order of the closes, each account is paid the same: its share at
      the one ratio fixed by the state they start from. */
  lemma {:induction false} PaymentsAreOrderFree(c: Closing, order: seq<nat>)
    requires Within(order, |c.ws|) && Distinct(order) && Payable(c)
    ensures |Payments(c, order)| == |order|
    ensures forall k :: 0 <= k < |order| ==>
              Payments(c, order)[k] == TerminalPayment(c.ws[order[k]], LockedRatio(c.t, c.payout))
    decreases |order|
  {
    hide TerminalPayment, LockedRatio, Payable;
    if order != [] {
      CloseKeepsPayable(c, order[0]);
      PaymentsAreOrderFree(CloseOne(c, order[0]), order[1..]);
    }
  }
}
