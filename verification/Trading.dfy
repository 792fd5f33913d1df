// The arithmetic of one trade: slippage, fee, and the gate that open interest and the
// two legs must pass.
module Trading {
  import opened Arith
  import opened Market
  import opened Book
  import opened Ledger
  import opened Margin
  import opened LazyIndex

  /** compute_trade_pnl: sign and magnitude apart, rounded down. */
  function TradePnl(size: int, priceDiff: int): Result<int> {
    if size == 0 || priceDiff == 0 then Ok(0)
    else
      var negative := (size < 0) != (priceDiff < 0);
      var q, r := Abs(size) * Abs(priceDiff) / POS_SCALE, Abs(size) * Abs(priceDiff) % POS_SCALE;
      var mag := if negative && r != 0 then q + 1 else q;
      if mag > I128_MAX then Err(Overflow) else Ok(if negative then -mag else mag)
  }

  /** The slippage is the floor of the exact product, for either sign, and it is
      refused exactly when the floor does not fit. */
  lemma TradePnlIsFloor(size: int, priceDiff: int)
    ensures var q := FloorDiv(size * priceDiff, POS_SCALE);
            TradePnl(size, priceDiff) == (if Abs(q) <= I128_MAX then Ok(q) else Err(Overflow))
  {
    if size == 0 || priceDiff == 0 {
      assert size * priceDiff == 0;
    } else {
      var m := if size < 0 then -priceDiff else priceDiff;
      assert size * priceDiff == Abs(size) * m;
      SignedFloor(Abs(size), m, POS_SCALE);
      assert Abs(m) == Abs(priceDiff);
      assert Abs(size) * Abs(priceDiff) >= 0;
    }
  }

  /** Within the engine's bounds the slippage always fits. */
  lemma TradePnlFits(size: int, priceDiff: int)
    requires Abs(size) <= MAX_TRADE_SIZE_Q && Abs(priceDiff) <= MAX_ORACLE_PRICE
    ensures TradePnl(size, priceDiff).Ok? && Abs(TradePnl(size, priceDiff).value) <= I128_MAX
  {
    var n := Abs(size) * Abs(priceDiff);
    MulMono(Abs(size), MAX_TRADE_SIZE_Q, Abs(priceDiff));
    MulMono(Abs(priceDiff), MAX_ORACLE_PRICE, MAX_TRADE_SIZE_Q);
    assert n <= MAX_ORACLE_PRICE * MAX_TRADE_SIZE_Q;
    QuotientNonNegative(n, POS_SCALE);
  }

  /** ceil(notional * bps / 10000) of the executed notional. */
  function TradeFee(size: nat, exec: nat, p: Params): nat {
    var notional := Notional(size, exec);
    CeilDivBounds(notional * p.tradingFeeBps, 10_000);
    if notional > 0 && p.tradingFeeBps > 0 then CeilDiv(notional * p.tradingFeeBps, 10_000) else 0
  }

  /** The same in plain inequalities. */
  ghost predicate IsTradeFee(fee: nat, size: nat, exec: nat, p: Params) {
    exists notional: nat ::
      IsFloor(notional, size * exec, POS_SCALE) && IsCeil(fee, notional * p.tradingFeeBps, 10_000)
  }

  lemma TradeFeeMeans(size: nat, exec: nat, p: Params)
    ensures IsTradeFee(TradeFee(size, exec, p), size, exec, p)
  {
    hide FloorDiv, CeilDiv;
    FloorIsFloor(size * exec, POS_SCALE);
    CeilIsCeil(Notional(size, exec) * p.tradingFeeBps, 10_000);
    assert IsFloor(Notional(size, exec), size * exec, POS_SCALE);
    if Notional(size, exec) == 0 || p.tradingFeeBps == 0 {
      assert Notional(size, exec) * p.tradingFeeBps == 0;
    }
  }

  /** The effective sizes of both accounts when a trade begins. */
  datatype Legs = Legs(heldI: int, heldJ: int)

  /** What a leg is left with: its equity moves by its slippage less the fee, `cash` of
      which goes to the fund and the rest becomes debt once there is no capital; and less
      than the fee is taken only from an account without capital at the limit of its
      debt. */
  predicate LegPays(w: Wallet, w': Wallet, pnl: int, fee: nat, cash: nat) {
    var taken, debt := Equity(w) + pnl - Equity(w'), w.feeCredits - w'.feeCredits;
    && 0 <= debt && cash + debt == taken <= fee
    && (debt > 0 || taken < fee || w'.pnl < 0 ==> w'.capital == 0)
    && (taken < fee ==> w'.feeCredits == -(I128_MAX as int))
  }

  lemma LegPaid(w: Wallet, booked: Wallet, settled: Wallet, w': Wallet, pnl: int, fee: nat, cash: nat)
    requires booked == w.(pnl := w.pnl + pnl, reserve := booked.reserve)
    requires LossesSettled(booked, settled) && FeeTaken(settled, w', fee, cash)
    requires settled.pnl < 0 ==> settled.capital == 0
    ensures LegPays(w, w', pnl, fee, cash)
  {
  }

  /** bilateral_oi_after, one side at a time. */
  function TradedOi(oi: nat, held: nat, newI: nat, newJ: nat): Result<nat> {
    if held > oi then Err(CorruptState) else Ok(oi - held + newI + newJ)
  }

  function OnLong(x: int): nat {
    if x > 0 then 1 else 0
  }

  // ---- the gate ----

  /** Two accounts together hold at most a side's open interest, whatever its mode. */
  lemma PairWithinOi(ps: seq<Position>, b: Sides, i: nat, j: nat)
    requires BookInv(ps, b, NO_RESET) && i < |ps| && j < |ps| && i != j
    ensures var oldI, oldJ := EffectivePos(ps[i], b), EffectivePos(ps[j], b);
            && Pos(oldI) + Pos(oldJ) <= b.long.oi && Pos(-oldI) + Pos(-oldJ) <= b.short.oi
            && (b.long.mode.ResetPending? || b.short.mode.ResetPending? ==>
                 oldI == oldJ == 0 && b.long.oi == b.short.oi == 0)
  {
    hide EffAbs, OiShare, EffectivePos, SideInv;
    ModesAgree(ps, b);
    if b.long.mode.ResetPending? || b.short.mode.ResetPending? {
      ReplaceRow(ps, b, i, FLAT, 0, 0);
      ReplaceRow(ps, b, j, FLAT, 0, 0);
      EffectiveParts(ps[i], b);
      EffectiveParts(ps[j], b);
    } else {
      TwoSharesWithinOi(ps, b, i, j);
    }
  }

  /** The position counters can give up what both accounts hold. */
  lemma PairWithinCounts(ps: seq<Position>, b: Sides, i: nat, j: nat)
    requires BookInv(ps, b, NO_RESET) && i < |ps| && j < |ps| && i != j
    ensures var oldI, oldJ := EffectivePos(ps[i], b), EffectivePos(ps[j], b);
            && OnLong(oldI) + OnLong(oldJ) <= b.long.stored
            && OnLong(-oldI) + OnLong(-oldJ) <= b.short.stored
  {
    hide EffAbs, OiShare, SideInv;
    ReplaceRow(ps, b, i, FLAT, 0, 0);
    ReplaceRow(ps[i := FLAT], ReplacedIn(ps[i], FLAT, b, 0, 0), j, FLAT, 0, 0);
  }

  /** A trade that passes the gate finds both sides open. */
  lemma GateIsOpen(ps: seq<Position>, b: Sides, i: nat, j: nat, size: nat)
    requires BookInv(ps, b, NO_RESET) && i < |ps| && j < |ps| && i != j && size > 0
    requires var newI, newJ := EffectivePos(ps[i], b) + size, EffectivePos(ps[j], b) - size;
             && var oldI, oldJ := EffectivePos(ps[i], b), EffectivePos(ps[j], b);
             && (b.long.mode.ResetPending? ==> b.long.oi - Pos(oldI) - Pos(oldJ) + Pos(newI) + Pos(newJ) <= b.long.oi)
             && (b.short.mode.ResetPending? ==>
                  b.short.oi - Pos(-oldI) - Pos(-oldJ) + Pos(-newI) + Pos(-newJ) <= b.short.oi)
    ensures !b.long.mode.ResetPending? && !b.short.mode.ResetPending?
  {
    hide EffAbs, EffectivePos, RowsInv;
    PairWithinOi(ps, b, i, j);
  }

  /** A row attached at size `q` has that effective size, also once counters and open
      interest have moved. */
  lemma AttachedEffective(q: int, b: Sides, b': Sides)
    requires b.long.a > 0 && b.short.a > 0
    requires b'.long.a == b.long.a && b'.long.epoch == b.long.epoch
    requires b'.short.a == b.short.a && b'.short.epoch == b.short.epoch
    ensures EffectivePos(AttachedRow(q, b), b') == q
  {
    hide EffAbs;
    if q != 0 {
      FreshExact(AttachedRow(q, b), if q > 0 then Long else Short, if q > 0 then b.long else b.short);
    }
  }
}
