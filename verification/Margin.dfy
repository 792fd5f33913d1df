// Equity, margin requirements, fees and the checks built from them.
module Margin {
  import opened Arith
  import opened Market
  import opened Options
  import opened Sums
  import opened Ledger
  import opened Warmup

  function FeeDebt(feeCredits: int): nat {
    if feeCredits < 0 then -feeCredits else 0
  }

  /** An exact wide value as an i128; one that does not fit fails every check. */
  function Narrow(x: int): int {
    if IsI128(x) then x else I128_MIN + 1
  }

  /** C + PNL - FeeDebt, exact. */
  function MaintRawWide(w: Wallet): int {
    w.capital + w.pnl - FeeDebt(w.feeCredits)
  }

  /** Capital plus PnL less fee debt, which is a negative credit. */
  function Equity(w: Wallet): int {
    w.capital + w.pnl + w.feeCredits
  }

  lemma EquityIsExact(w: Wallet)
    ensures w.feeCredits <= 0 ==> Equity(w) == MaintRawWide(w)
  {
  }

  function MaintRaw(w: Wallet): int {
    Narrow(MaintRawWide(w))
  }

  function MaintNet(w: Wallet): int {
    Max(MaintRaw(w), 0)
  }

  /** C + min(PNL, 0) + haircut matured PnL - FeeDebt. */
  function WithdrawRaw(w: Wallet, t: Totals): int {
    Narrow(w.capital + Min(w.pnl, 0) + EffectiveMatured(w, t) - FeeDebt(w.feeCredits))
  }

  /** floor(x * y / d) in native 128-bit arithmetic; the product must fit. */
  function MulDiv(x: nat, y: nat, d: nat): nat
    requires d > 0
  {
    FloorDivBounds(x * y, d);
    FloorDiv(x * y, d)
  }

  function Notional(q: nat, price: nat): nat {
    MulDiv(q, price, POS_SCALE)
  }

  lemma NotionalAtMost(q: nat, price: nat, most: nat)
    ensures Notional(q, price) <= most <==> q * price < (most + 1) * POS_SCALE
  {
    hide FloorDiv;
    AboveFloor(most + 1, q * price, POS_SCALE);
  }

  /** The larger of the proportional requirement and the floor for any position. */
  function Requirement(q: nat, price: nat, bps: nat, minimum: nat): nat {
    if q == 0 then 0 else Max(MulDiv(Notional(q, price), bps, 10_000), minimum)
  }

  function MaintReq(q: nat, price: nat, p: Params): nat {
    Requirement(q, price, p.maintenanceBps, p.minNonzeroMm)
  }

  function InitReq(q: nat, price: nat, p: Params): nat {
    Requirement(q, price, p.initialBps, p.minNonzeroIm)
  }

  predicate AboveMaintenance(w: Wallet, q: nat, price: nat, p: Params) {
    MaintNet(w) > Min(MaintReq(q, price, p), I128_MAX)
  }

  // ---- the requirement in plain inequalities ----

  /** `x` is above the floor for any position, and above `bps` of the truncated notional. */
  ghost predicate Exceeds(x: int, size: nat, price: nat, bps: nat, minimum: nat) {
    x > minimum && exists notional: nat :: IsFloor(notional, size * price, POS_SCALE) && x * 10_000 > notional * bps
  }

  /** `x` reaches the floor for any position, and the truncated `bps` of the truncated
      notional. */
  ghost predicate Reaches(x: int, size: nat, price: nat, bps: nat, minimum: nat) {
    && x >= minimum
    && exists notional: nat :: IsFloor(notional, size * price, POS_SCALE) && (x + 1) * 10_000 > notional * bps
  }

  lemma RequirementMeans(q: nat, price: nat, bps: nat, minimum: nat, x: int)
    requires q > 0
    ensures x > Requirement(q, price, bps, minimum) <==> Exceeds(x, q, price, bps, minimum)
    ensures x >= Requirement(q, price, bps, minimum) <==> Reaches(x, q, price, bps, minimum)
  {
    hide FloorDiv;
    var notional := Notional(q, price);
    FloorIsFloor(q * price, POS_SCALE);
    AboveFloor(x, notional * bps, 10_000);
    AboveFloor(x + 1, notional * bps, 10_000);
  }

  /** A wallet whose equity fits its width. */
  predicate Sound(w: Wallet) {
    && w.capital <= MAX_VAULT_TVL && w.pnl <= MAX_ACCOUNT_POSITIVE_PNL
    && -(I128_MAX as int) <= w.feeCredits <= 0
  }

  /** Whether a position size and the parameters keep the requirement within 128 bits. */
  predicate Measurable(q: nat, price: nat, p: Params) {
    && 0 < q <= MAX_POSITION_ABS_Q && price <= MAX_ORACLE_PRICE
    && p.maintenanceBps <= p.initialBps <= 10_000
    && 0 < p.minNonzeroMm < p.minNonzeroIm <= MAX_VAULT_TVL
  }

  /** The maintenance check is a comparison of exact equity, capital plus PnL less fee
      debt, with the two bounds. */
  lemma MaintenanceMeans(w: Wallet, q: nat, price: nat, p: Params)
    requires Sound(w) && Measurable(q, price, p)
    ensures AboveMaintenance(w, q, price, p)
            <==> Exceeds(Equity(w), q, price, p.maintenanceBps, p.minNonzeroMm)
  {
    hide Requirement, Exceeds, Reaches;
    RequirementMeans(q, price, p.maintenanceBps, p.minNonzeroMm, Equity(w));
    RequirementBound(q, price, p.maintenanceBps, p.minNonzeroMm);
    RequirementFloor(q, price, p.maintenanceBps, p.minNonzeroMm);
  }

  /** Capital, losses, the worth of released profit, less fee debt and what is taken out,
      reach the initial requirement. */
  ghost predicate CoversInitial(w: Wallet, t: Totals, out: nat, size: nat, price: nat, p: Params) {
    exists eff: nat ::
      IsWorth(eff, w, t)
      && Reaches(w.capital + Min(w.pnl, 0) + eff + w.feeCredits - out, size, price, p.initialBps, p.minNonzeroIm)
  }

  /** Taking out before the check or after it is the same. */
  lemma CoveredAfterwards(w: Wallet, t: Totals, out: nat, size: nat, price: nat, p: Params)
    requires CoversInitial(w, t, out, size, price, p) && out <= w.capital && out <= t.cTot && out <= t.vault
    ensures CoversInitial(w.(capital := w.capital - out), t.(cTot := t.cTot - out, vault := t.vault - out), 0, size,
                          price, p)
  {
    hide Reaches;
    var w', t' := w.(capital := w.capital - out), t.(cTot := t.cTot - out, vault := t.vault - out);
    var eff: nat :|
      IsWorth(eff, w, t)
      && Reaches(w.capital + Min(w.pnl, 0) + eff + w.feeCredits - out, size, price, p.initialBps, p.minNonzeroIm);
    assert IsWorth(eff, w', t');
  }

  lemma WithdrawMeans(w: Wallet, t: Totals, out: nat, q: nat, price: nat, p: Params)
    requires Sound(w) && Measurable(q, price, p) && w.reserve.total <= Pos(w.pnl)
    ensures Max(WithdrawRaw(w, t) - out, I128_MIN) >= InitReq(q, price, p) <==> CoversInitial(w, t, out, q, price, p)
  {
    hide Requirement, Reaches, IsWorth, EffectiveMatured;
    WorthMeans(w, t);
    RequirementMeans(q, price, p.initialBps, p.minNonzeroIm,
                     w.capital + Min(w.pnl, 0) + EffectiveMatured(w, t) + w.feeCredits - out);
    RequirementFloor(q, price, p.initialBps, p.minNonzeroIm);
  }

  lemma RequirementFloor(q: nat, price: nat, bps: nat, minimum: nat)
    requires q > 0
    ensures Requirement(q, price, bps, minimum) >= minimum
  {
  }

  /** A ledger on which the flat cap panics: one flat account whose reserve is far
      larger than the vault.  All of its released profit could safely be converted. */
  lemma FlatCapCanPanic(p: Params, now: nat)
    requires p.hMin <= p.hMax && 0 < p.hMax
    ensures var locked, x := 100_000_000_000_000_000_000_000, 10_000_000_000_000_001;
            var w := Wallet(0, locked + x, Reserve(locked, Some(Sched(locked, locked, now, p.hMax, 0)), None), 0, now);
            var t := Totals(MAX_VAULT_TVL, 0, 0, locked + x, x, 0);
            var h := Haircut(t);
            && LedgerInv(t, [w], Live, now, p) && Released(w) == x
            && MaxSafeConversion(MaintRaw(w), x, h) == Err(Panicked)
            && MaintRaw(w) - x + Scale(x, h) >= 0
  {
    var locked, x := 100_000_000_000_000_000_000_000, 10_000_000_000_000_001;
    var w := Wallet(0, locked + x, Reserve(locked, Some(Sched(locked, locked, now, p.hMax, 0)), None), 0, now);
    var h := Haircut(Totals(MAX_VAULT_TVL, 0, 0, locked + x, x, 0));
    NothingVestedAtStart(w.reserve.sched.value, now);
    assert [w][..0] == [];
    assert h == Ratio(MAX_VAULT_TVL, x);
    assert FloorDiv((locked + x) * x, 1) == (locked + x) * x;
    FlatConversionCapIsExact(locked + x, x, h);
  }

  // ---- the counterfactual equity that approves a risk-increasing trade ----

  /** account_equity_trade_open_raw: equity with the candidate trade's own gain
      removed from the account and from the global positive total. */
  function TradeOpenRaw(w: Wallet, t: Totals, candidate: int): Result<int> {
    var gain := Pos(candidate);
    var pos, posOpen := Pos(w.pnl), Pos(Pos(w.pnl) - gain);
    var pnlOpen := if w.pnl - gain >= I128_MIN then w.pnl - gain else I128_MIN + 1;
    if t.pnlPosTot < pos then Ok(I128_MIN + 1)
    else
      var totOpen := t.pnlPosTot - pos + posOpen;
      if totOpen > U128_MAX then Ok(I128_MIN + 1)
      else
        var num := Min(Max(Residual(t), 0), totOpen);
        if totOpen != 0 && posOpen * num > U128_MAX then Err(Panicked)
        else
          var eff := if totOpen == 0 then posOpen else MulDiv(posOpen, num, totOpen);
          Ok(Narrow(w.capital + Min(pnlOpen, 0) + eff - FeeDebt(w.feeCredits)))
  }

  /** The account and the totals right after a trade's own PnL has been booked. */
  function BookedWallet(w: Wallet, c: int): Wallet {
    w.(pnl := w.pnl + c)
  }

  function BookedTotals(w: Wallet, t: Totals, c: int): Totals
    requires Pos(w.pnl) <= t.pnlPosTot
  {
    t.(pnlPosTot := t.pnlPosTot - Pos(w.pnl) + Pos(w.pnl + c))
  }

  /** settle_losses on one wallet: negative PnL is paid from capital. */
  function LossPaid(w: Wallet): nat {
    if w.pnl < 0 then Min(-w.pnl, w.capital) else 0
  }

  function Settled(w: Wallet): Wallet {
    w.(capital := w.capital - LossPaid(w), pnl := w.pnl + LossPaid(w))
  }

  /** A trade's own gain never helps to approve it: booking a gain leaves the
      counterfactual equity exactly where it was, across every sign of PnL. */
  lemma NoSelfBootstrap(w: Wallet, t: Totals, c: nat)
    requires Pos(w.pnl) <= t.pnlPosTot <= U128_MAX
    requires I128_MIN < w.pnl
    ensures TradeOpenRaw(BookedWallet(w, c), BookedTotals(w, t, c), c) == TradeOpenRaw(w, t, 0)
  {
    hide MulDiv;
    if c > 0 {
      assert Pos(Pos(w.pnl + c) - c) == Pos(w.pnl);
    }
  }

  /** Nor does settling the account's own losses afterwards, although that raises
      the residual that scales everyone's profit. */
  lemma NoSelfBootstrapAfterLosses(w: Wallet, t: Totals, c: nat)
    requires Pos(w.pnl) <= t.pnlPosTot <= U128_MAX && w.capital <= t.cTot
    requires I128_MIN < w.pnl && t.cTot + t.insurance <= t.vault
    ensures var w', t' := BookedWallet(w, c), BookedTotals(w, t, c);
            TradeOpenRaw(Settled(w'), t'.(cTot := t'.cTot - LossPaid(w')), c) == TradeOpenRaw(w, t, 0)
  {
    var w', t' := BookedWallet(w, c), BookedTotals(w, t, c);
    NoSelfBootstrap(w, t, c);
    if w'.pnl < 0 {
      NothingToScale(Residual(t), t.pnlPosTot);
      NothingToScale(Residual(t'.(cTot := t'.cTot - LossPaid(w'))), t'.pnlPosTot);
      LossesLeaveOpenEquity(w', t', c);
    }
  }

  lemma NothingToScale(r: int, tot: nat)
    ensures tot > 0 ==> MulDiv(0, Min(Max(r, 0), tot), tot) == 0
  {
    if tot > 0 {
      FloorDivUnique(0, tot, 0);
      assert 0 * Min(Max(r, 0), tot) == 0;
    }
  }

  lemma LossesLeaveOpenEquity(w: Wallet, t: Totals, c: nat)
    requires w.pnl < 0 && w.capital <= t.cTot && t.pnlPosTot <= U128_MAX
    requires I128_MIN < w.pnl - c
    ensures TradeOpenRaw(Settled(w), t.(cTot := t.cTot - LossPaid(w)), c) == TradeOpenRaw(w, t, c)
  {
    hide MulDiv;
    NothingToScale(Residual(t), t.pnlPosTot);
    NothingToScale(Residual(t.(cTot := t.cTot - LossPaid(w))), t.pnlPosTot);
    var num, num' := Min(Max(Residual(t), 0), t.pnlPosTot),
        Min(Max(Residual(t.(cTot := t.cTot - LossPaid(w))), 0), t.pnlPosTot);
    assert 0 * num == 0 && 0 * num' == 0;
  }

  // ---- fees ----

  /** How much of a fee is paid from capital, and how much becomes fee debt; the
      rest is dropped. */
  function FeePaid(w: Wallet, fee: nat): nat {
    Min(fee, w.capital)
  }

  function FeeOwed(w: Wallet, fee: nat): nat {
    Min(fee - FeePaid(w, fee), Pos(w.feeCredits + I128_MAX))
  }

  function Charged(w: Wallet, fee: nat): Wallet {
    w.(capital := w.capital - FeePaid(w, fee), feeCredits := w.feeCredits - FeeOwed(w, fee))
  }

  /** Charging a fee in two parts is the same as charging it at once. */
  lemma FeesAddUp(w: Wallet, first: nat, second: nat)
    requires -(I128_MAX as int) <= w.feeCredits <= 0
    ensures Charged(Charged(w, first), second) == Charged(w, first + second)
  {
  }

  /** The recurring fee up to `anchor`, capped, and the fee clock moved there. */
  function Synced(w: Wallet, anchor: nat, rate: nat): Wallet
    requires w.lastFeeSlot <= anchor
  {
    Charged(w, Min(rate * (anchor - w.lastFeeSlot), MAX_PROTOCOL_FEE_ABS)).(lastFeeSlot := anchor)
  }

  /** Rate times the slots since the last charge, capped, is taken like any fee. */
  lemma SyncedMeans(w: Wallet, anchor: nat, rate: nat)
    requires w.lastFeeSlot <= anchor && -(I128_MAX as int) <= w.feeCredits
    ensures var w' := Synced(w, anchor, rate);
            && w'.lastFeeSlot == anchor
            && FeeTaken(w, w'.(lastFeeSlot := w.lastFeeSlot),
                        Min(rate * (anchor - w.lastFeeSlot), MAX_PROTOCOL_FEE_ABS), w.capital - w'.capital)
  {
    hide FeeTaken;
    var fee := Min(rate * (anchor - w.lastFeeSlot), MAX_PROTOCOL_FEE_ABS);
    ChargedMeans(w, fee);
    ChargedFrame(w, fee);
  }

  lemma SyncedClock(w: Wallet, anchor: nat, rate: nat)
    ensures w.lastFeeSlot <= anchor ==> Synced(w, anchor, rate).lastFeeSlot == anchor
  {
  }

  lemma ChargedFrame(w: Wallet, fee: nat)
    ensures Charged(w, fee).lastFeeSlot == w.lastFeeSlot && w.capital - Charged(w, fee).capital == FeePaid(w, fee)
  {
  }

  /** While the cap does not bind, how often fees are synced does not matter; and no
      slot is ever charged twice. */
  lemma SyncIsPathIndependent(w: Wallet, t1: nat, t2: nat, rate: nat)
    requires w.lastFeeSlot <= t1 <= t2
    requires -(I128_MAX as int) <= w.feeCredits <= 0
    requires rate * (t2 - w.lastFeeSlot) <= MAX_PROTOCOL_FEE_ABS
    ensures Synced(Synced(w, t1, rate), t2, rate) == Synced(w, t2, rate)
  {
    hide Charged;
    var x, y := t1 - w.lastFeeSlot, t2 - t1;
    SlotsAdd(rate, x, y);
    FeesAddUp(w, rate * x, rate * y);
    ChargeIgnoresClock(w, rate * x, t1);
    ChargeIgnoresClock(Charged(w, rate * x), rate * y, t1);
    ChargeIgnoresClock(w, rate * (x + y), t2);
  }

  lemma SlotsAdd(rate: nat, x: nat, y: nat)
    ensures rate * (x + y) == rate * x + rate * y && rate * x >= 0 && rate * y >= 0
  {
  }

  lemma ChargeIgnoresClock(w: Wallet, fee: nat, t: nat)
    ensures Charged(w.(lastFeeSlot := t), fee) == Charged(w, fee).(lastFeeSlot := t)
    ensures Charged(w, fee).lastFeeSlot == w.lastFeeSlot
  {
  }

  /** fee_debt_sweep on one wallet. */
  function SweptFee(w: Wallet): nat {
    Min(FeeDebt(w.feeCredits), w.capital)
  }

  function Swept(w: Wallet): Wallet {
    w.(capital := w.capital - SweptFee(w), feeCredits := w.feeCredits + SweptFee(w))
  }

  /** A flat account's released profit becomes capital, one for one, when every
      matured claim is covered; then its fee debt is swept. */
  function ConvertedWhole(w: Wallet, flat: bool, whole: bool): Wallet {
    if whole && flat && w.pnl > 0 then w.(pnl := w.pnl - Released(w), capital := w.capital + Released(w)) else w
  }

  function Finalized(w: Wallet, flat: bool, whole: bool): Wallet {
    Swept(ConvertedWhole(w, flat, whole))
  }

  /** Conversion and sweep leave equity alone. */
  lemma FinalizedKeepsEquity(w: Wallet, flat: bool, whole: bool)
    ensures Equity(Finalized(w, flat, whole)) == Equity(w)
  {
  }

  /** Every matured claim is covered by what is left in the vault. */
  predicate IsWhole(t: Totals) {
    t.pnlMaturedPosTot > 0 && Residual(t) >= t.pnlMaturedPosTot
  }

  /** The capital of a flat account without losses after it has been touched at slot
      `now` and finalized. */
  function PostTouchCapital(w: Wallet, t: Totals, now: nat): nat {
    Finalized(Warmed(w, t, now), true, IsWhole(WarmedTotals(w, t, now))).capital
  }

  /** What the insurance fund pays of a loss: everything above its floor, at most. */
  function InsurancePays(insurance: int, loss: int, floor: nat): int {
    Min(loss, Max(insurance - floor, 0))
  }

  /** ceil(notional * bps / 10000), between the configured minimum and cap. */
  function LiquidationFee(q: nat, price: nat, p: Params): nat {
    CeilDivBounds(Notional(q, price) * p.liquidationFeeBps, 10_000);
    Min(Max(CeilDiv(Notional(q, price) * p.liquidationFeeBps, 10_000), p.minLiquidationAbs), p.liquidationFeeCap)
  }

  /** The same in plain inequalities: the rounded-up share of the truncated notional,
      raised to the minimum and then lowered to the cap. */
  ghost predicate IsLiquidationFee(fee: nat, q: nat, price: nat, p: Params) {
    exists notional: nat, share: nat ::
      IsFloor(notional, q * price, POS_SCALE) && IsCeil(share, notional * p.liquidationFeeBps, 10_000)
      && fee == Min(Max(share, p.minLiquidationAbs), p.liquidationFeeCap)
  }

  lemma LiquidationFeeMeans(q: nat, price: nat, p: Params)
    ensures IsLiquidationFee(LiquidationFee(q, price, p), q, price, p)
    ensures forall fee: nat :: IsLiquidationFee(fee, q, price, p) ==> fee == LiquidationFee(q, price, p)
  {
    hide FloorDiv, CeilDiv;
    FloorIsFloor(q * price, POS_SCALE);
    CeilIsCeil(Notional(q, price) * p.liquidationFeeBps, 10_000);
    assert IsFloor(Notional(q, price), q * price, POS_SCALE);
  }

  /** What a fee does to a wallet, with `cash` of it going to the fund: capital first, then
      fee debt; and less than all of it is taken only from a wallet that is left without
      capital and at the limit of its debt. */
  predicate FeeTaken(w: Wallet, w': Wallet, fee: int, cash: int) {
    var debt := w.feeCredits - w'.feeCredits;
    && w' == w.(capital := w'.capital, feeCredits := w'.feeCredits)
    && 0 <= cash == w.capital - w'.capital && 0 <= debt && cash + debt <= fee && -(I128_MAX as int) <= w'.feeCredits
    && (debt > 0 || cash + debt < fee ==> w'.capital == 0)
    && (cash + debt < fee ==> w'.feeCredits == -(I128_MAX as int))
  }

  lemma ChargedMeans(w: Wallet, fee: nat)
    requires -(I128_MAX as int) <= w.feeCredits
    ensures FeeTaken(w, Charged(w, fee), fee, FeePaid(w, fee))
    ensures forall w', cash :: FeeTaken(w, w', fee, cash) ==> w' == Charged(w, fee) && cash == FeePaid(w, fee)
  {
  }

  lemma NothingTaken(w: Wallet)
    ensures -(I128_MAX as int) <= w.feeCredits ==> FeeTaken(w, w, 0, 0)
  {
  }

  /** What settling losses does: PnL rises out of capital, until one of them is zero. */
  predicate LossesSettled(w: Wallet, w': Wallet) {
    && w' == w.(capital := w'.capital, pnl := w'.pnl) && w'.capital + w'.pnl == w.capital + w.pnl
    && (w.pnl >= 0 ==> w' == w)
    && (w.pnl < 0 ==> w'.pnl <= 0 && w'.capital <= w.capital && (w'.pnl == 0 || w'.capital == 0))
  }

  lemma SettledMeans(w: Wallet)
    ensures LossesSettled(w, Settled(w))
  {
  }

  /** What sweeping fee debt does: credits rise out of capital, until one of them is zero. */
  predicate DebtSwept(w: Wallet, w': Wallet) {
    && w' == w.(capital := w'.capital, feeCredits := w'.feeCredits)
    && w'.capital + w'.feeCredits == w.capital + w.feeCredits
    && (w.feeCredits >= 0 ==> w' == w)
    && (w.feeCredits < 0 ==> w'.feeCredits <= 0 && w'.capital <= w.capital && (w'.feeCredits == 0 || w'.capital == 0))
  }

  /** What the fund pays of a loss, leaving `rest`: everything it has above its floor, as
      far as needed. */
  predicate FundPays(before: int, after: int, loss: nat, rest: int, floor: nat) {
    && after <= before && before - after + rest == loss && 0 <= rest
    && (after < before ==> floor <= after) && (rest > 0 ==> after <= floor)
  }

  lemma InsuranceMeans(insurance: nat, loss: nat, floor: nat)
    ensures var pay := InsurancePays(insurance, loss, floor);
            FundPays(insurance, insurance - pay, loss, loss - pay, floor)
  {
  }

  /** What finalizing does: with every matured claim covered, a flat account turns its
      released profit into capital; then its fee debt is swept. */
  predicate FinalizedBy(w: Wallet, w': Wallet, flat: bool, t: Totals) {
    var whole := 0 < t.pnlMaturedPosTot <= t.vault - t.cTot - t.insurance;
    var turned := if whole && flat && w.pnl > 0 then w.pnl - w.reserve.total else 0;
    turned >= 0 && DebtSwept(w.(pnl := w.pnl - turned, capital := w.capital + turned), w')
  }

  lemma FinalizedMeans(w: Wallet, flat: bool, t: Totals)
    requires w.reserve.total <= Pos(w.pnl)
    ensures FinalizedBy(w, Finalized(w, flat, IsWhole(t)), flat, t)
  {
  }

  /** What converting `x` does: out of released profit, the part the vault can pay becomes
      capital, and fee debt is swept; a flat account has equity before and is not left
      with less than nothing. */
  ghost predicate ConvertedBy(w: Wallet, w': Wallet, x: nat, t: Totals, flat: bool) {
    exists y: nat ::
      && IsCovered(y, x, t)
      && 0 < x && x + w.reserve.total <= Pos(w.pnl)
      && DebtSwept(w.(pnl := w.pnl - x, capital := w.capital + y), w')
      && (flat ==> 0 < Equity(w) && 0 <= Equity(w) - x + y)
  }

  lemma ConvertedMeans(w: Wallet, w': Wallet, x: nat, y: nat, t: Totals, flat: bool)
    requires w.feeCredits <= 0 && 0 < x <= Released(w) && w.reserve.total <= Pos(w.pnl)
    requires IsCovered(y, x, t)
    requires DebtSwept(w.(pnl := w.pnl - x, capital := w.capital + y), w')
    requires flat ==> 0 < MaintRaw(w) && MaintRaw(w) - x + y >= 0
    ensures ConvertedBy(w, w', x, t, flat)
  {
    hide IsCovered, DebtSwept;
  }

  // ---- the keeper's pre-flight ----

  /** validate_keeper_hint for an exact partial close of `q` out of `effAbs`. */
  predicate HintApproved(w: Wallet, effAbs: nat, q: nat, price: nat, p: Params) {
    && 0 < q < effAbs
    && var fee := LiquidationFee(q, price, p);
       MaintRawWide(w) - (FeePaid(w, fee) + FeeOwed(w, fee)) > MaintReq(effAbs - q, price, p)
  }

  /** The same in plain inequalities: after the fee for closing `q`, equity is above both
      bounds for what would be left. */
  ghost predicate HintPasses(w: Wallet, effAbs: nat, q: nat, price: nat, p: Params) {
    && 0 < q < effAbs
    && exists fee: nat, charged: Wallet, cash: nat ::
         && IsLiquidationFee(fee, q, price, p) && FeeTaken(w, charged, fee, cash)
         && Exceeds(Equity(charged), effAbs - q, price, p.maintenanceBps, p.minNonzeroMm)
  }

  lemma HintMeans(w: Wallet, effAbs: nat, q: nat, price: nat, p: Params)
    requires -(I128_MAX as int) <= w.feeCredits <= 0
    ensures HintApproved(w, effAbs, q, price, p) <==> HintPasses(w, effAbs, q, price, p)
  {
    hide LiquidationFee, IsLiquidationFee, FeeTaken, Requirement, Exceeds;
    if 0 < q < effAbs {
      var fee := LiquidationFee(q, price, p);
      var charged := Charged(w, fee);
      LiquidationFeeMeans(q, price, p);
      ChargedMeans(w, fee);
      RequirementMeans(effAbs - q, price, p.maintenanceBps, p.minNonzeroMm, Equity(charged));
      assert Equity(charged) == MaintRawWide(w) - (FeePaid(w, fee) + FeeOwed(w, fee));
    }
  }

  /** The partial liquidation's own steps on the wallet: settle, then charge. */
  function AfterPartial(w: Wallet, q: nat, price: nat, p: Params): Wallet {
    Charged(Settled(w), LiquidationFee(q, price, p))
  }

  /** An account that has just been touched has no loss left to settle. */
  predicate JustTouched(w: Wallet) {
    w.pnl < 0 ==> w.capital == 0
  }

  /** The pre-flight is exact: on a just-touched account within the engine's value
      bounds, a hint is approved iff the liquidation's own health check passes. */
  lemma PreFlightIsExact(w: Wallet, effAbs: nat, q: nat, price: nat, p: Params)
    requires JustTouched(w)
    requires w.capital <= MAX_VAULT_TVL && w.pnl <= MAX_ACCOUNT_POSITIVE_PNL
    requires -(I128_MAX as int) <= w.feeCredits <= 0
    requires 0 < q < effAbs <= MAX_POSITION_ABS_Q && price <= MAX_ORACLE_PRICE
    requires p.maintenanceBps <= 10_000 && p.minNonzeroMm <= MAX_VAULT_TVL
    ensures HintApproved(w, effAbs, q, price, p) <==>
              AboveMaintenance(AfterPartial(w, q, price, p), effAbs - q, price, p)
  {
    hide LiquidationFee, Requirement;
    var fee := LiquidationFee(q, price, p);
    assert Settled(w) == w;
    RequirementBound(effAbs - q, price, p.maintenanceBps, p.minNonzeroMm);
    assert MaintRawWide(Charged(w, fee)) == MaintRawWide(w) - (FeePaid(w, fee) + FeeOwed(w, fee));
  }

  lemma RequirementBound(q: nat, price: nat, bps: nat, minimum: nat)
    requires q <= MAX_POSITION_ABS_Q && price <= MAX_ORACLE_PRICE && bps <= 10_000 && minimum <= MAX_VAULT_TVL
    ensures 0 <= Requirement(q, price, bps, minimum) <= I128_MAX
  {
    hide FloorDiv;
    MulDivBound(q, MAX_POSITION_ABS_Q, price, MAX_ORACLE_PRICE, POS_SCALE);
    MulDivBound(Notional(q, price), MAX_POSITION_ABS_Q * MAX_ORACLE_PRICE, bps, 10_000, 10_000);
    assert MAX_POSITION_ABS_Q * MAX_ORACLE_PRICE * 10_000 <= I128_MAX;
  }

  lemma MulDivBound(x: nat, xMax: nat, y: nat, yMax: nat, d: nat)
    requires x <= xMax && y <= yMax && d > 0
    ensures MulDiv(x, y, d) <= xMax * yMax
  {
    FloorDivBounds(x * y, d);
    MulMono(x, xMax, y);
    MulMono(y, yMax, xMax);
    MulMono(1, d, MulDiv(x, y, d));
  }

  // ---- post-trade margin, one account ----

  /** enforce_one_side_margin: `bufferPre` is maintenance equity minus requirement
      before the trade, `fee` what the trade's fee actually took. */
  function OneSideMargin(w: Wallet, t: Totals, price: nat, p: Params, oldEff: int, newEff: int,
                         bufferPre: int, fee: nat, candidate: int): Result<()> {
    var reqPre := MaintReq(Abs(oldEff), price, p);
    var neutral := MaintRawWide(w) + fee;
    if newEff == 0 then
      if Min(neutral, 0) >= Min(bufferPre + reqPre, 0) then Ok(()) else Err(Undercollateralized)
    else
      var increasing := Abs(newEff) > Abs(oldEff) || oldEff > 0 > newEff || oldEff < 0 < newEff || oldEff == 0;
      if increasing then
        match TradeOpenRaw(w, t, candidate)
        case Err(e) => Err(e)
        case Ok(eq) => if eq >= Min(InitReq(Abs(newEff), price, p), I128_MAX) then Ok(()) else Err(Undercollateralized)
      else if AboveMaintenance(w, Abs(newEff), price, p) then Ok(())
      else
        var reducing := ((oldEff > 0 && newEff > 0) || (oldEff < 0 && newEff < 0)) && Abs(newEff) < Abs(oldEff);
        if && reducing
           && neutral - MaintReq(Abs(newEff), price, p) > bufferPre
           && Min(neutral, 0) >= Min(bufferPre + reqPre, 0)
        then Ok(()) else Err(Undercollateralized)
  }

  // ---- the same in plain inequalities ----

  /** `x` is the equity of an account with a gain of `gain` taken out of its PnL and of
      the total: capital, losses, the truncated share of positive PnL that the vault can
      pay, less fee debt. */
  ghost predicate IsOpenEquity(x: int, w: Wallet, t: Totals, gain: nat) {
    exists eff: nat :: IsOpenPart(eff, w, t, gain) && x == w.capital + Min(w.pnl - gain, 0) + eff + w.feeCredits
  }

  predicate IsOpenPart(eff: nat, w: Wallet, t: Totals, gain: nat) {
    var kept := w.pnl - gain;
    IsShareOf(eff, Pos(kept), t.vault - t.cTot - t.insurance, t.pnlPosTot - Pos(w.pnl) + Pos(kept))
  }

  /** Counterfactual equity is that, unless its native product does not fit; below what
      fits its width it is as good as that. */
  lemma OpenEquityMeans(w: Wallet, t: Totals, candidate: int, q: nat, price: nat, p: Params)
    requires Sound(w) && Measurable(q, price, p) && Pos(w.pnl) <= t.pnlPosTot <= U128_MAX
    ensures var r := TradeOpenRaw(w, t, candidate);
            && (r.Err? ==> r.error == Panicked)
            && (r.Ok? ==>
                  (r.value >= Min(InitReq(q, price, p), I128_MAX) <==> OpenEquityReaches(w, t, candidate, q, price, p)))
  {
    hide Requirement, Reaches, MulDiv;
    var gain := Pos(candidate);
    var kept := w.pnl - gain;
    var total, left := t.pnlPosTot - Pos(w.pnl) + Pos(kept), t.vault - t.cTot - t.insurance;
    var num := Min(Max(left, 0), total);
    var eff := if total == 0 then Pos(kept) else MulDiv(Pos(kept), num, total);
    if total > 0 {
      OpenShare(Pos(kept), num, total);
    }
    var x := w.capital + Min(kept, 0) + eff + w.feeCredits;
    assert IsOpenPart(eff, w, t, gain);
    assert forall y :: IsOpenEquity(y, w, t, gain) ==> y == x;
    RequirementMeans(q, price, p.initialBps, p.minNonzeroIm, x);
    RequirementBound(q, price, p.initialBps, p.minNonzeroIm);
    RequirementFloor(q, price, p.initialBps, p.minNonzeroIm);
  }

  lemma OpenShare(y: nat, num: nat, total: nat)
    requires total > 0 && num <= total
    ensures IsFloor(MulDiv(y, num, total), y * num, total) && MulDiv(y, num, total) <= y
    ensures forall eff: nat :: IsFloor(eff, y * num, total) ==> eff == MulDiv(y, num, total)
  {
    hide FloorDiv;
    FloorIsFloor(y * num, total);
    MulMono(num, total, y);
    CancelFactor(MulDiv(y, num, total), y, total);
  }

  ghost predicate OpenEquityReaches(w: Wallet, t: Totals, candidate: int, q: nat, price: nat, p: Params) {
    exists x :: IsOpenEquity(x, w, t, Pos(candidate)) && Reaches(x, q, price, p.initialBps, p.minNonzeroIm)
  }

  /** `r` is a maintenance requirement: the larger of the two bounds. */
  ghost predicate IsRequirement(r: nat, size: nat, price: nat, bps: nat, minimum: nat) {
    if size == 0 then r == 0
    else Reaches(r, size, price, bps, minimum) && !Reaches((r as int) - 1, size, price, bps, minimum)
  }

  lemma RequirementIs(q: nat, price: nat, bps: nat, minimum: nat)
    ensures IsRequirement(Requirement(q, price, bps, minimum), q, price, bps, minimum)
    ensures forall r: nat :: IsRequirement(r, q, price, bps, minimum) ==> r == Requirement(q, price, bps, minimum)
  {
    hide Reaches;
    if q > 0 {
      var r := Requirement(q, price, bps, minimum);
      RequirementMeans(q, price, bps, minimum, r);
      RequirementMeans(q, price, bps, minimum, (r as int) - 1);
      forall x: nat | IsRequirement(x, q, price, bps, minimum)
        ensures x == r
      {
        RequirementMeans(q, price, bps, minimum, x);
        RequirementMeans(q, price, bps, minimum, (x as int) - 1);
      }
    }
  }

  /** The room above the maintenance requirement grows from equity `x` at size `q` to
      equity `y` at size `r`. */
  ghost predicate BufferGrows(x: int, q: nat, y: int, r: nat, price: nat, p: Params) {
    exists before: nat, after: nat ::
      && IsRequirement(before, q, price, p.maintenanceBps, p.minNonzeroMm)
      && IsRequirement(after, r, price, p.maintenanceBps, p.minNonzeroMm)
      && y - after > x - before
  }

  predicate TakesRisk(oldEff: int, newEff: int) {
    Abs(newEff) > Abs(oldEff) || oldEff > 0 > newEff || oldEff < 0 < newEff || oldEff == 0
  }

  /** One leg of a trade, with equity `before` it and `fee` taken by it.  A closed leg may
      not end with less equity than it had, fees aside, if that is negative; one that
      takes risk must reach the initial requirement without its own gain; any other must
      keep maintenance margin, or at least shrink and move towards it. */
  ghost predicate LegAllowed(w: Wallet, t: Totals, price: nat, p: Params, oldEff: int, newEff: int, before: int,
      fee: int, candidate: int) {
    var after := Equity(w);
    if newEff == 0 then Min(after + fee, 0) >= Min(before, 0)
    else if TakesRisk(oldEff, newEff) then OpenEquityReaches(w, t, candidate, Abs(newEff), price, p)
    else
      || Exceeds(after, Abs(newEff), price, p.maintenanceBps, p.minNonzeroMm)
      || (&& Abs(newEff) < Abs(oldEff)
          && BufferGrows(before, Abs(oldEff), after + fee, Abs(newEff), price, p)
          && Min(after + fee, 0) >= Min(before, 0))
  }

  /** The post-trade check allows exactly those legs, unless it panics. */
  lemma OneSideMeans(w: Wallet, t: Totals, price: nat, p: Params, oldEff: int, newEff: int, before: int, fee: nat,
      candidate: int)
    requires Sound(w) && Pos(w.pnl) <= t.pnlPosTot <= U128_MAX
    requires newEff != 0 ==> Measurable(Abs(newEff), price, p)
    ensures var r := OneSideMargin(w, t, price, p, oldEff, newEff, before - MaintReq(Abs(oldEff), price, p), fee,
                                   candidate);
            && (r.Ok? ==> LegAllowed(w, t, price, p, oldEff, newEff, before, fee, candidate))
            && (r == Err(Undercollateralized) ==>
                  !LegAllowed(w, t, price, p, oldEff, newEff, before, fee, candidate))
  {
    hide Requirement, Exceeds, TradeOpenRaw, OpenEquityReaches, AboveMaintenance, IsRequirement;
    RequirementIs(Abs(oldEff), price, p.maintenanceBps, p.minNonzeroMm);
    RequirementIs(Abs(newEff), price, p.maintenanceBps, p.minNonzeroMm);
    if newEff != 0 {
      MaintenanceMeans(w, Abs(newEff), price, p);
      OpenEquityMeans(w, t, candidate, Abs(newEff), price, p);
    }
  }
}
