// What touching an account makes of it: warmup, side effects, losses and absorption in
// one function of the account and the totals, and what a keeper may do next.
module Touching {
  import opened Arith
  import opened Market
  import opened Options
  import opened Sums
  import opened Book
  import opened Adl
  import opened LazyIndex
  import opened Warmup
  import opened Ledger
  import opened Margin

  /** The touched accounts exist and none is listed twice. */
  ghost predicate TouchedOk(touched: seq<nat>, n: nat) {
    (forall k :: 0 <= k < |touched| ==> touched[k] < n) && Distinct(touched)
  }

  datatype LiquidationPolicy = FullClose | ExactPartial(q: nat)

  /** validate_keeper_hint: no hint means no action, and a partial close must pass the
      pre-flight. */
  function ApprovedPolicy(w: Wallet, effAbs: nat, hint: Option<LiquidationPolicy>, price: nat,
      p: Params): Option<LiquidationPolicy> {
    match hint
    case None => None
    case Some(FullClose) => Some(FullClose)
    case Some(ExactPartial(q)) => if HintApproved(w, effAbs, q, price, p) then hint else None
  }

  /** The row a liquidation leaves of an effective position `e`. */
  function LiquidatedRow(e: int, policy: LiquidationPolicy, b: Sides): Position {
    match policy
    case FullClose => FLAT
    case ExactPartial(q) => AttachedRow(if e > 0 then e - q else e + q, b)
  }

  /** The wallet it leaves: losses settled, the fee charged, and after a full close no
      loss at all. */
  function LiquidatedWallet(w: Wallet, effAbs: nat, policy: LiquidationPolicy, price: nat, p: Params): Wallet {
    match policy
    case FullClose => var c := AfterPartial(w, effAbs, price, p); c.(pnl := Max(c.pnl, 0))
    case ExactPartial(q) => AfterPartial(w, q, price, p)
  }

  // ---- one account ----

  /** One account and what it moves: its row and wallet, the sides, the totals, and the
      resets scheduled so far. */
  datatype Standing = Standing(p: Position, w: Wallet, b: Sides, t: Totals, pending: Flags)

  /** The totals after a touch: exact, less what the fund pays for a flat loss. */
  function TouchedTotals(w: Wallet, t: Totals, p: Position, b: Sides, sticky: bool, hMin: nat, hMax: nat, now: nat,
      floor: nat): Totals {
    var loss := FlatLoss(w, t, p, b, sticky, hMin, hMax, now);
    TotalsWith(t, w, TouchedWallet(w, t, p, b, sticky, hMin, hMax, now))
      .(insurance := Max(t.insurance - InsurancePays(t.insurance, loss, floor), 0))
  }

  /** touch_account_live_local. */
  function AfterTouch(s: Standing, sticky: bool, hMin: nat, hMax: nat, now: nat, p: Params): Standing {
    Standing(SettledRow(s.p, s.b), TouchedWallet(s.w, s.t, s.p, s.b, sticky, hMin, hMax, now), SettledSides(s.p, s.b),
             TouchedTotals(s.w, s.t, s.p, s.b, sticky, hMin, hMax, now, p.insuranceFloor), s.pending)
  }

  /** What is closed of an effective position of size `effAbs`. */
  function ClosedSize(effAbs: nat, policy: LiquidationPolicy): nat {
    if policy.FullClose? then effAbs else policy.q
  }

  /** What the account cannot pay of a full close; a partial one leaves its loss with
      the account. */
  function LiquidationDeficit(w: Wallet, effAbs: nat, policy: LiquidationPolicy, price: nat, p: Params): nat {
    if policy.FullClose? then Pos(-AfterPartial(w, effAbs, price, p).pnl) else 0
  }

  /** A liquidation: what is left of the row and of the wallet; the fund gets the fee and
      pays what it can of the deficit; the other side absorbs the close and the rest of
      the deficit. */
  function Liquidated(s: Standing, policy: LiquidationPolicy, price: nat, p: Params): Standing {
    var e := EffectivePos(s.p, s.b);
    var q := ClosedSize(Abs(e), policy);
    var deficit := LiquidationDeficit(s.w, Abs(e), policy, price, p);
    var fund := s.t.insurance + FeePaid(Settled(s.w), LiquidationFee(q, price, p));
    var cover := InsurancePays(fund, deficit, p.insuranceFloor);
    var absorbed := CloseAbsorbed(s.p, s.b, if e > 0 then e - q else e + q, q, deficit - cover);
    var w := LiquidatedWallet(s.w, Abs(e), policy, price, p);
    Standing(LiquidatedRow(e, policy, s.b), w, absorbed.sides,
             TotalsWith(s.t, s.w, w).(insurance := Max(fund - cover, 0)), Flags(absorbed.drained, absorbed.drained))
  }

  /** Whether a liquidation can be recorded and leaves the account healthy: a full close
      needs room for dust only, a partial one must also leave equity above both bounds. */
  ghost predicate LiquidationFits(s: Standing, policy: LiquidationPolicy, price: nat, p: Params) {
    var e := EffectivePos(s.p, s.b);
    match policy
    case FullClose => CloseFits(s.p, s.b, 0, Abs(e))
    case ExactPartial(q) =>
      HintPasses(s.w, Abs(e), q, price, p) && CloseFits(s.p, s.b, if e > 0 then e - q else e + q, q)
  }

  /** The same on the wallet and the fund, in plain inequalities: losses are settled, a
      fee for the `q` closed is taken into the fund, and a full close leaves no loss: the
      fund pays what it can of it, and `passed` is left to the other side. */
  ghost predicate LiquidatedBy(w: Wallet, w': Wallet, fund: nat, fund': nat, q: nat, full: bool, passed: int,
      price: nat, p: Params) {
    exists mid: Wallet, charged: Wallet, fee: nat, cash: nat ::
      && LossesSettled(w, mid) && IsLiquidationFee(fee, q, price, p) && FeeTaken(mid, charged, fee, cash)
      && w' == charged.(pnl := if full then Max(charged.pnl, 0) else charged.pnl)
      && FundPays(fund + cash, fund', if full then Max(-charged.pnl, 0) else 0, passed, p.insuranceFloor)
  }

  lemma LiquidatedMeans(s: Standing, policy: LiquidationPolicy, price: nat, p: Params)
    requires -(I128_MAX as int) <= s.w.feeCredits
    ensures var after, e := Liquidated(s, policy, price, p), EffectivePos(s.p, s.b);
            exists passed: nat ::
              && LiquidatedBy(s.w, after.w, s.t.insurance, after.t.insurance, ClosedSize(Abs(e), policy),
                              policy.FullClose?, passed, price, p)
              && var q := ClosedSize(Abs(e), policy);
                 after.b == CloseAbsorbed(s.p, s.b, if e > 0 then e - q else e + q, q, passed).sides
  {
    hide LiquidationFee, CloseAbsorbed, EffectivePos, IsLiquidationFee, FeeTaken, FundPays, Charged, FeePaid, Settled,
      InsurancePays, TotalsWith, LossesSettled;
    var e := EffectivePos(s.p, s.b);
    var q := ClosedSize(Abs(e), policy);
    var fee := LiquidationFee(q, price, p);
    var mid := Settled(s.w);
    var charged := Charged(mid, fee);
    var deficit := LiquidationDeficit(s.w, Abs(e), policy, price, p);
    var fund := s.t.insurance + FeePaid(mid, fee);
    var cover := InsurancePays(fund, deficit, p.insuranceFloor);
    SettledMeans(s.w);
    SettledCredits(s.w);
    LiquidationFeeMeans(q, price, p);
    ChargedMeans(mid, fee);
    InsuranceMeans(fund, deficit, p.insuranceFloor);
    PaysAtMost(fund, deficit, p.insuranceFloor);
    var after := Liquidated(s, policy, price, p);
    assert LiquidatedBy(s.w, after.w, s.t.insurance, after.t.insurance, q, policy.FullClose?, deficit - cover, price,
                        p);
  }

  lemma SettledCredits(w: Wallet)
    ensures Settled(w).feeCredits == w.feeCredits
  {
  }

  lemma PaysAtMost(fund: nat, loss: nat, floor: nat)
    ensures 0 <= InsurancePays(fund, loss, floor) <= loss && InsurancePays(fund, loss, floor) <= fund
  {
  }

  // ---- the keeper's crank, visit by visit ----

  /** What one candidate found, and what it left behind. */
  datatype Visit = Visit(idx: nat, hint: Option<LiquidationPolicy>, held: bool, before: Standing, left: Standing)

  /** The account is touched.  If it is then unhealthy, and its hint passes the
      pre-flight, it is liquidated as the hint says; otherwise the touch is all. */
  function Visited(s: Standing, hint: Option<LiquidationPolicy>, held: bool, price: nat, hMin: nat, hMax: nat, now: nat,
      p: Params): Standing
  {
    var t := AfterTouch(s, held, hMin, hMax, now, p);
    var e := EffectivePos(t.p, t.b);
    var policy := ApprovedPolicy(t.w, Abs(e), hint, price, p);
    if e == 0 || AboveMaintenance(t.w, Abs(e), price, p) || policy.None? then t
    else Liquidated(t, policy.value, price, p)
  }

  lemma VisitedInTwo(s: Standing, t: Standing, hint: Option<LiquidationPolicy>, held: bool, price: nat, hMin: nat,
      hMax: nat, now: nat, p: Params)
    requires t == AfterTouch(s, held, hMin, hMax, now, p)
    ensures var e := EffectivePos(t.p, t.b);
            var policy := ApprovedPolicy(t.w, Abs(e), hint, price, p);
            Visited(s, hint, held, price, hMin, hMax, now, p)
            == if e == 0 || AboveMaintenance(t.w, Abs(e), price, p) || policy.None? then t
               else Liquidated(t, policy.value, price, p)
  {
    hide AfterTouch, Liquidated, ApprovedPolicy, AboveMaintenance, EffectivePos;
  }

  /** No visit follows one that scheduled a reset. */
  predicate VisitOk(v: Visit, price: nat, hMin: nat, hMax: nat, now: nat, p: Params) {
    v.before.pending == NO_RESET && v.left == Visited(v.before, v.hint, v.held, price, hMin, hMax, now, p)
  }

  /** The resets that the visits have scheduled. */
  function ResetsOf(visits: seq<Visit>): Flags {
    if visits == [] then NO_RESET else visits[|visits| - 1].left.pending
  }

  /** Every wallet and position, the sides and the totals. */
  datatype Snapshot = Snapshot(ws: seq<Wallet>, ps: seq<Position>, b: Sides, t: Totals)

  /** The snapshot after one account and what it moves have become `s`. */
  predicate Shows(m: Snapshot, i: nat, s: Standing) {
    i < |m.ws| == |m.ps| && m.ws[i] == s.w && m.ps[i] == s.p && m.b == s.b && m.t == s.t
  }

  /** The visits lead from the first snapshot to the last, one after the other. */
  ghost predicate Replays(visits: seq<Visit>, start: Snapshot, end: Snapshot)
    decreases |visits|
  {
    if visits == [] then end == start
    else
      var n := |visits| - 1;
      var v := visits[n];
      && Shows(end, v.idx, v.left) && v.before.pending == ResetsOf(visits[..n])
      && Replays(visits[..n], start, Snapshot(end.ws[v.idx := v.before.w], end.ps[v.idx := v.before.p],
           v.before.b, v.before.t))
  }

  lemma ReplaysOneMore(visits: seq<Visit>, v: Visit, start: Snapshot, m: Snapshot, m': Snapshot)
    requires Replays(visits, start, m) && v.before.pending == ResetsOf(visits)
    requires Shows(m, v.idx, v.before) && Shows(m', v.idx, v.left)
    requires m'.ws == m.ws[v.idx := v.left.w] && m'.ps == m.ps[v.idx := v.left.p]
    ensures Replays(visits + [v], start, m') && ResetsOf(visits + [v]) == v.left.pending
  {
    assert (visits + [v])[..|visits|] == visits;
    assert m'.ws[v.idx := v.before.w] == m.ws && m'.ps[v.idx := v.before.p] == m.ps;
  }

  /** The candidates that name an account in use, in the keeper's order. */
  function InUse(candidates: seq<(nat, Option<LiquidationPolicy>)>, used: seq<bool>): seq<(nat,
      Option<LiquidationPolicy>)> {
    if candidates == [] then []
    else
      var n := |candidates| - 1;
      var rest := InUse(candidates[..n], used);
      if candidates[n].0 < |used| && used[candidates[n].0] then rest + [candidates[n]] else rest
  }

  function Calls(visits: seq<Visit>): seq<(nat, Option<LiquidationPolicy>)> {
    seq(|visits|, k requires 0 <= k < |visits| => (visits[k].idx, visits[k].hint))
  }

  /** What a crank did: its visits, how many candidates it looked at, and the snapshot it
      leaves to be finalized. */
  datatype CrankLog = CrankLog(visits: seq<Visit>, seen: nat, left: Snapshot)

  ghost const NO_CRANK := CrankLog([], 0, Snapshot([], [], Sides(NEW_SIDE, NEW_SIDE), Totals(0, 0, 0, 0, 0, 0)))

  /** The crank visits the candidates in use in the given order, up to its budget or until
      a reset is scheduled, and each visit is as it should be.  Only an account visited
      before can already be held to the long horizon. */
  ghost predicate CrankOk(log: CrankLog, candidates: seq<(nat, Option<LiquidationPolicy>)>, used: seq<bool>,
      budget: nat, price: nat, hMin: nat, hMax: nat, now: nat, p: Params) {
    && log.seen <= |candidates| && |log.visits| <= budget
    && Calls(log.visits) == InUse(candidates[..log.seen], used)
    && (log.seen < |candidates| ==> |log.visits| == budget || ResetsOf(log.visits) != NO_RESET)
    && VisitsOk(log.visits, price, hMin, hMax, now, p)
  }

  ghost predicate VisitsOk(visits: seq<Visit>, price: nat, hMin: nat, hMax: nat, now: nat, p: Params) {
    && (forall k :: 0 <= k < |visits| ==> VisitOk(visits[k], price, hMin, hMax, now, p))
    && forall k :: 0 <= k < |visits| ==> (visits[k].held <==> HeldBefore(visits, k, visits[k].idx, hMin, hMax, now))
  }

  predicate Holds(v: Visit, hMin: nat, hMax: nat, now: nat) {
    TouchHolds(v.before.w, v.before.t, v.before.p, v.before.b, hMin, hMax, now)
  }

  /** One of the first `n` visits held account `x` to the long horizon. */
  ghost predicate HeldBefore(visits: seq<Visit>, n: nat, x: nat, hMin: nat, hMax: nat, now: nat)
    requires n <= |visits|
  {
    exists k :: 0 <= k < n && visits[k].idx == x && Holds(visits[k], hMin, hMax, now)
  }

  lemma NothingVisited(candidates: seq<(nat, Option<LiquidationPolicy>)>, used: seq<bool>, m: Snapshot, price: nat,
      hMin: nat, hMax: nat, now: nat, p: Params)
    ensures Calls([]) == InUse(candidates[..0], used) && Replays([], m, m) && ResetsOf([]) == NO_RESET
    ensures VisitsOk([], price, hMin, hMax, now, p) && VisitedAre([], [], [], hMin, hMax, now)
  {
  }

  /** The visits account for the whole book, every wallet and all totals, and every
      account visited, and no other, is finalized under the totals the last one leaves. */
  ghost predicate CrankLeaves(log: CrankLog, start: Snapshot, ws: seq<Wallet>, ps: seq<Position>) {
    && Replays(log.visits, start, log.left)
    && |log.left.ws| == |ws| == |ps| && log.left.ps == ps
    && forall j :: 0 <= j < |ws| ==>
         ws[j] == if WasVisited(log.visits, j) then Finalized(log.left.ws[j], ps[j].basis == 0, IsWhole(log.left.t))
             else log.left.ws[j]
  }

  ghost predicate WasVisited(visits: seq<Visit>, x: nat) {
    exists k :: 0 <= k < |visits| && visits[k].idx == x
  }

  ghost predicate VisitedAre(visits: seq<Visit>, touched: seq<nat>, sticky: seq<nat>, hMin: nat, hMax: nat, now: nat) {
    && (forall x :: x in touched <==> WasVisited(visits, x))
    && (forall x :: x in sticky <==> HeldBefore(visits, |visits|, x, hMin, hMax, now))
  }

  lemma OneVisitMore(visits: seq<Visit>, v: Visit, touched: seq<nat>, touched': seq<nat>, sticky: seq<nat>,
      sticky': seq<nat>, price: nat, hMin: nat, hMax: nat, now: nat, p: Params)
    requires VisitsOk(visits, price, hMin, hMax, now, p) && VisitedAre(visits, touched, sticky, hMin, hMax, now)
    requires VisitOk(v, price, hMin, hMax, now, p) && v.held == (v.idx in sticky)
    requires touched' == if v.idx in touched then touched else touched + [v.idx]
    requires sticky' == if v.idx !in sticky && Holds(v, hMin, hMax, now) then sticky + [v.idx] else sticky
    ensures VisitsOk(visits + [v], price, hMin, hMax, now, p)
    ensures VisitedAre(visits + [v], touched', sticky', hMin, hMax, now)
    ensures Calls(visits + [v]) == Calls(visits) + [(v.idx, v.hint)]
  {
    hide VisitOk, Holds;
    var more, n := visits + [v], |visits|;
    assert forall k :: 0 <= k < n ==> more[k] == visits[k];
    assert more[n] == v;
    forall x
      ensures WasVisited(more, x) <==> WasVisited(visits, x) || x == v.idx
    {
      if WasVisited(visits, x) {
        var k :| 0 <= k < n && visits[k].idx == x;
        assert more[k].idx == x;
      }
    }
    forall x, k | 0 <= k <= n
      ensures HeldBefore(more, k, x, hMin, hMax, now) <==> HeldBefore(visits, k, x, hMin, hMax, now)
    {
      HeldIgnoresLater(visits, v, k, x, hMin, hMax, now);
    }
    forall x
      ensures x in sticky' <==> HeldBefore(more, n + 1, x, hMin, hMax, now)
    {
      HeldByOneMore(visits, v, x, hMin, hMax, now);
      assert HeldBefore(more, n, x, hMin, hMax, now) <==> HeldBefore(visits, n, x, hMin, hMax, now);
    }
  }

  lemma HeldIgnoresLater(visits: seq<Visit>, v: Visit, k: nat, x: nat, hMin: nat, hMax: nat, now: nat)
    requires k <= |visits|
    ensures HeldBefore(visits + [v], k, x, hMin, hMax, now) <==> HeldBefore(visits, k, x, hMin, hMax, now)
  {
    hide Holds;
    assert forall i :: 0 <= i < k ==> (visits + [v])[i] == visits[i];
    if HeldBefore(visits, k, x, hMin, hMax, now) {
      var i :| 0 <= i < k && visits[i].idx == x && Holds(visits[i], hMin, hMax, now);
      assert (visits + [v])[i].idx == x;
    }
  }

  lemma HeldByOneMore(visits: seq<Visit>, v: Visit, x: nat, hMin: nat, hMax: nat, now: nat)
    ensures HeldBefore(visits + [v], |visits| + 1, x, hMin, hMax, now)
            <==> HeldBefore(visits + [v], |visits|, x, hMin, hMax, now) || (x == v.idx && Holds(v, hMin, hMax, now))
  {
    hide Holds;
    assert (visits + [v])[|visits|] == v;
  }

  lemma InUseNext(candidates: seq<(nat, Option<LiquidationPolicy>)>, k: nat, used: seq<bool>)
    requires k < |candidates|
    ensures InUse(candidates[..k + 1], used)
         == if candidates[k].0 < |used| && used[candidates[k].0] then InUse(candidates[..k], used) + [candidates[k]]
            else InUse(candidates[..k], used)
  {
    assert candidates[..k + 1][..k] == candidates[..k];
  }

  ghost function Members(s: seq<nat>): set<nat> {
    set x | x in s
  }

  /** The accounts a keeper names. */
  ghost function Named(candidates: seq<(nat, Option<LiquidationPolicy>)>): set<nat> {
    set c | c in candidates :: c.0
  }

  /** validate_admission_pair. */
  predicate AdmissionPairOk(hMin: nat, hMax: nat, p: Params) {
    && hMax != 0 && p.hMin <= hMax <= p.hMax
    && hMin <= hMax
    && (hMin > 0 ==> p.hMin <= hMin)
  }

  /** settle_side_effects_live on the wallet: the position's PnL since its last
      settlement, admitted like any other rise. */
  function SideEffects(w: Wallet, t: Totals, p: Position, b: Sides, sticky: bool, hMin: nat, hMax: nat,
      now: nat): Wallet {
    if p.basis == 0 || SettleDelta(p, b).Err? then w
    else AdmittedMove(w, t, w.pnl + SettleDelta(p, b).value, sticky, hMin, hMax, now)
  }

  /** What stops a touch: a panic of the warmup, a value that does not fit, a refused move of
      PnL, or no room for dust. */
  predicate TouchRefused(w: Wallet, t: Totals, p: Position, b: Sides, held: bool, full: bool, hMin: nat, hMax: nat,
      now: nat) {
    WarmupPanics(w, t, now) || SideEffectsRefused(Warmed(w, t, now), WarmedTotals(w, t, now), p, b, held, full, hMin,
                                                  hMax, now)
  }

  predicate SideEffectsRefused(w: Wallet, t: Totals, p: Position, b: Sides, held: bool, full: bool, hMin: nat,
      hMax: nat, now: nat) {
    && p.basis != 0
    && (|| SettleDelta(p, b).Err? || DustFull(p, b)
        || PnlRefused(w, t, w.pnl + SettleDelta(p, b).value, held, full, hMin, hMax, now))
  }

  /** Whether a touch holds the account to the long horizon. */
  predicate TouchHolds(w: Wallet, t: Totals, p: Position, b: Sides, hMin: nat, hMax: nat, now: nat) {
    && p.basis != 0 && SettleDelta(p, b).Ok?
    && BecomesHeld(Warmed(w, t, now), WarmedTotals(w, t, now), w.pnl + SettleDelta(p, b).value, hMin, hMax)
  }

  /** A touch of one wallet, up to the absorption of a flat account's loss: warmup, side
      effects, losses paid from capital. */
  function AfterLosses(w: Wallet, t: Totals, p: Position, b: Sides, sticky: bool, hMin: nat, hMax: nat,
      now: nat): Wallet {
    Settled(SideEffects(Warmed(w, t, now), WarmedTotals(w, t, now), p, b, sticky, hMin, hMax, now))
  }

  /** The loss of an account that the touch leaves flat. */
  function FlatLoss(w: Wallet, t: Totals, p: Position, b: Sides, sticky: bool, hMin: nat, hMax: nat, now: nat): nat {
    if EffectivePos(SettledRow(p, b), SettledSides(p, b)) == 0
        then Pos(-AfterLosses(w, t, p, b, sticky, hMin, hMax, now).pnl) else 0
  }

  /** touch_account_live_local on the wallet. */
  function TouchedWallet(w: Wallet, t: Totals, p: Position, b: Sides, sticky: bool, hMin: nat, hMax: nat,
      now: nat): Wallet {
    var c := AfterLosses(w, t, p, b, sticky, hMin, hMax, now);
    c.(pnl := c.pnl + FlatLoss(w, t, p, b, sticky, hMin, hMax, now))
  }

  lemma TouchedGrows(touched: seq<nat>, i: nat, n: nat)
    requires i < n
    ensures TouchedOk(touched, n) && i !in touched ==> TouchedOk(touched + [i], n)
  {
  }

  lemma {:induction false} DistinctIsSimple(s: seq<nat>)
    requires Distinct(s)
    ensures forall x :: multiset(s)[x] <= 1
  {
    if s != [] {
      var n := |s| - 1;
      assert s == s[..n] + [s[n]];
      DistinctIsSimple(s[..n]);
      assert s[n] !in s[..n];
    }
  }

  lemma {:induction false} SimpleIsDistinct(s: seq<nat>)
    requires forall x :: multiset(s)[x] <= 1
    ensures Distinct(s)
  {
    if s != [] {
      var n := |s| - 1;
      assert s == s[..n] + [s[n]];
      assert forall x :: multiset(s[..n])[x] <= multiset(s)[x];
      SimpleIsDistinct(s[..n]);
      assert multiset(s)[s[n]] == multiset(s[..n])[s[n]] + 1;
      assert forall i :: 0 <= i < n ==> s[i] == s[..n][i] && s[i] in multiset(s[..n]);
    }
  }

  /** A permutation has the same members, and no repeats if the original has none. */
  lemma PermutedDistinct(s: seq<nat>, t: seq<nat>)
    requires multiset(s) == multiset(t)
    ensures Distinct(s) ==> Distinct(t)
    ensures forall x :: x in s <==> x in t
  {
    if Distinct(s) {
      DistinctIsSimple(s);
      SimpleIsDistinct(t);
    }
    forall x: nat
      ensures x in s <==> x in t
    {
      assert x in s <==> x in multiset(s);
      assert x in t <==> x in multiset(t);
    }
  }

  lemma WarmedFrame(w: Wallet, t: Totals, now: nat)
    ensures Warmed(w, t, now) == w.(reserve := Warmed(w, t, now).reserve)
    ensures WarmedTotals(w, t, now) == t.(pnlMaturedPosTot := WarmedTotals(w, t, now).pnlMaturedPosTot)
  {
  }

  /** After settling, a row with no effective position is flat. */
  lemma SettledFlatness(p: Position, b: Sides)
    ensures p.basis == 0 || EffectivePos(SettledRow(p, b), SettledSides(p, b)) == 0 ==> SettledRow(p, b).basis == 0
  {
    if p.basis != 0 && SettledRow(p, b) != FLAT {
      EffAbsIgnoresSnaps(p, SettledRow(p, b), b.Get(SideOf(p)).a);
    }
  }

  lemma NothingTouched(n: nat)
    ensures TouchedOk([], n)
  {
  }

  lemma MembersGrow(s: seq<nat>, x: nat)
    ensures Members(s + [x]) == Members(s) + {x}
  {
  }

  lemma FlatHasNoSideEffects(w: Wallet, t: Totals, p: Position, b: Sides, sticky: bool, hMin: nat, hMax: nat, now: nat)
    ensures p.basis == 0 ==> SideEffects(w, t, p, b, sticky, hMin, hMax, now) == w
  {
  }

  /** What every touch leaves: no loss that capital could still pay, none at all on a flat
      account, and a flat account without losses changed by warmup only. */
  lemma TouchedShape(w: Wallet, t: Totals, p: Position, b: Sides, sticky: bool, hMin: nat, hMax: nat, now: nat)
    ensures var u := TouchedWallet(w, t, p, b, sticky, hMin, hMax, now);
            && JustTouched(u)
            && (EffectivePos(SettledRow(p, b), SettledSides(p, b)) == 0 ==> u.pnl >= 0)
            && (p.basis == 0 && w.pnl >= 0 ==> u == Warmed(w, t, now))
  {
    hide Warmed, WarmedTotals, SettledRow, SettledSides, EffectivePos, SideEffects;
    WarmedFrame(w, t, now);
    FlatHasNoSideEffects(Warmed(w, t, now), WarmedTotals(w, t, now), p, b, sticky, hMin, hMax, now);
  }
}
