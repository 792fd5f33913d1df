// Whole runs: any sequence of instructions, each of which either takes effect or is
// rolled back.
module Runs {
  import opened Arith
  import opened Market
  import opened Options
  import opened Engine
  import opened Touching
  import opened Trading
  import opened SlotList
  import opened EngineFacts
  import opened Book
  import opened Ledger
  import opened Margin
  import opened Resets
  import opened Resolution
  import opened LazyIndex
  import opened Accrual
  import opened Limits

  /** Every public instruction, with its inputs. */
  datatype Instruction =
    | Deposit(idx: nat, amount: u128, now: u64)
    | Withdraw(idx: nat, amount: u128, price: nat, now: u64, rate: int, hMin: nat, hMax: nat)
    | SettleAccount(idx: nat, price: nat, now: u64, rate: int, hMin: nat, hMax: nat)
    | ExecuteTrade(a: nat, b: nat, price: nat, now: u64, size: int, exec: nat, rate: int, hMin: nat, hMax: nat)
    | LiquidateAtOracle(idx: nat, now: u64, price: nat, policy: LiquidationPolicy, rate: int, hMin: nat, hMax: nat)
    | KeeperCrank(now: u64, price: nat, candidates: seq<(nat, Option<LiquidationPolicy>)>, budget: nat, rate: int,
        hMin: nat, hMax: nat)
    | ConvertReleasedPnl(idx: nat, x: u128, price: nat, now: u64, rate: int, hMin: nat, hMax: nat)
    | CloseAccount(idx: nat, now: u64, price: nat, rate: int, hMin: nat, hMax: nat)
    | ReclaimEmptyAccount(idx: nat, now: u64)
    | TopUpInsuranceFund(amount: u128, now: u64)
    | ChargeAccountFee(idx: nat, fee: u128, now: u64)
    | DepositFeeCredits(idx: nat, amount: u128, now: u64)
    | SettleFlatNegativePnl(idx: nat, now: u64)
    | SyncAccountFee(idx: nat, now: u64, feeRate: u128)
    | ResolveMarket(mode: ResolveMode, resolved: nat, live: nat, now: u64, rate: int)
    | ReconcileResolved(idx: nat)
    | CloseResolvedTerminal(idx: nat)
    | ForceCloseResolved(idx: nat)

  /** The accounts that an instruction names. */
  ghost function Subjects(x: Instruction): set<nat> {
    match x
    case ExecuteTrade(a, b, _, _, _, _, _, _, _) => {a, b}
    case KeeperCrank(_, _, candidates, _, _, _, _) => Named(candidates)
    case TopUpInsuranceFund(_, _) => {}
    case ResolveMarket(_, _, _, _, _) => {}
    case _ => {x.idx}
  }

  /** The tokens an instruction moves into the vault, where its inputs fix them; a close
      pays out what it finds. */
  predicate FlowOk(x: Instruction, flow: int) {
    match x
    case Deposit(_, amount, _) => flow == amount
    case TopUpInsuranceFund(amount, _) => flow == amount
    case DepositFeeCredits(_, amount, _) => flow == amount
    case Withdraw(_, amount, _, _, _, _, _) => flow == -(amount as int)
    case CloseAccount(_, _, _, _, _, _) => flow <= 0
    case CloseResolvedTerminal(_) => flow <= 0
    case ForceCloseResolved(_) => flow <= 0
    case _ => flow == 0
  }

  function Outcome<T>(r: Result<T>, flow: int): Result<int> {
    match r
    case Ok(_) => Ok(flow)
    case Err(e) => Err(e)
  }

  /** What an instruction does to the dust bounds and to the room in K. */
  twostate predicate SidesWithin(e: RiskEngine)
    reads e`sides, e`lastOraclePrice
  {
    KeptWithin(old(e.sides), old(e.lastOraclePrice), e.sides, e.lastOraclePrice, MAX_DUST_PER_INSTRUCTION,
        MAX_EPOCHS_PER_INSTRUCTION)
  }

  /** The instructions that accrue the market first. */
  predicate IsPriced(x: Instruction) {
    || x.Withdraw? || x.SettleAccount? || x.ExecuteTrade? || x.LiquidateAtOracle? || x.KeeperCrank?
    || x.ConvertReleasedPnl? || x.CloseAccount?
  }

  method ExecutePriced(e: RiskEngine, x: Instruction) returns (r: Result<int>)
    requires IsPriced(x)
    requires e.Valid()
    modifies e, e.slots, e.slots.used, e.slots.nextFree, e.slots.prevFree
    ensures r.Ok? ==> e.Valid() && e.OnlyRows(Subjects(x))
    ensures r.Ok? ==> FlowOk(x, r.value) && e.totals.vault == old(e.totals).vault + r.value
    ensures r == Err(CorruptState) ==> DustSumOverflows(e.sides)
    ensures r.Ok? || r == Err(CorruptState) ==> SidesWithin(e)
  {
    hide RiskEngine.LiquidationSucceeds, RiskEngine.WithdrawalSucceeds, RiskEngine.ConversionSucceeds,
      RiskEngine.ClosingSucceeds, RiskEngine.RefusedAt, RiskEngine.LiquidatedAt, SizesTraded, TradeAdmitted,
      RiskEngine.HeldAt, RiskEngine.SecondHeldAt, RiskEngine.SnapshotAt, Equity, JustSettled, AdmissionPairOk,
      RiskEngine.AccrualSucceeds, CrankOk, CrankLeaves, Traded, PairFinalized, Ended, Exceeds, CoversInitial,
      RiskEngine.LegsAt, RiskEngine.EndsAs, RiskEngine.StandingAt, RiskEngine.TouchedAt, RiskEngine.SecondTouchedAt,
      RiskEngine.PairTotalsAt, EarnsOver, RiskEngine.SettledAt, RiskEngine.ConvertedAt;
    hide RiskEngine.Convertible, RiskEngine.Liquidates, RiskEngine.AccruedAt, WarmupPanics;
    hide RiskEngine.Valid, DustSumOverflows, KeptWithin;
    match x {
      case Withdraw(idx, amount, price, now, rate, hMin, hMax) =>
        var q := e.Withdraw(idx, amount, price, now, rate, hMin, hMax);
        r := Outcome(q, -(amount as int));
      case SettleAccount(idx, price, now, rate, hMin, hMax) =>
        var q := e.SettleAccount(idx, price, now, rate, hMin, hMax);
        r := Outcome(q, 0);
      case ExecuteTrade(a, b, price, now, size, exec, rate, hMin, hMax) =>
        var q, log := e.ExecuteTrade(a, b, price, now, size, exec, rate, hMin, hMax);
        r := Outcome(q, 0);
      case LiquidateAtOracle(idx, now, price, policy, rate, hMin, hMax) =>
        var q := e.LiquidateAtOracle(idx, now, price, policy, rate, hMin, hMax);
        r := Outcome(q, 0);
      case KeeperCrank(now, price, candidates, budget, rate, hMin, hMax) =>
        var q, log := e.KeeperCrank(now, price, candidates, budget, rate, hMin, hMax);
        r := Outcome(q, 0);
      case ConvertReleasedPnl(idx, y, price, now, rate, hMin, hMax) =>
        var q := e.ConvertReleasedPnl(idx, y, price, now, rate, hMin, hMax);
        r := Outcome(q, 0);
      case CloseAccount(idx, now, price, rate, hMin, hMax) =>
        var q := e.CloseAccount(idx, now, price, rate, hMin, hMax);
        r := Outcome(q, if q.Ok? then -(q.value as int) else 0);
    }
  }

  /** The instructions that end a market. */
  predicate IsTerminal(x: Instruction) {
    x.ResolveMarket? || x.ReconcileResolved? || x.CloseResolvedTerminal? || x.ForceCloseResolved?
  }

  method ExecuteTerminal(e: RiskEngine, x: Instruction) returns (r: Result<int>)
    requires IsTerminal(x)
    requires e.Valid()
    modifies e, e.slots, e.slots.used, e.slots.nextFree, e.slots.prevFree
    ensures r.Ok? ==> e.Valid() && e.OnlyRows(Subjects(x))
    ensures r.Ok? ==> FlowOk(x, r.value) && e.totals.vault == old(e.totals).vault + r.value
    ensures r == Err(CorruptState) ==> DustSumOverflows(e.sides)
    ensures r.Ok? || r == Err(CorruptState) ==> SidesWithin(e)
  {
    hide RiskEngine.Valid, DustSumOverflows, KeptWithin, ReconcileDelta, SettledSides, ReopenedSides, TerminalPayment,
      LockedRatio, Reconciled, ReconciledTotals, SweptFee, WithShare, TerminalEpochs, Uncovered, InsurancePays;
    match x {
      case ResolveMarket(mode, resolved, live, now, rate) =>
        var q := e.ResolveMarket(mode, resolved, live, now, rate);
        r := Outcome(q, 0);
      case ReconcileResolved(idx) =>
        var q := e.ReconcileResolved(idx);
        if q.Ok? {
          ReconciledWithin(old(e.positions)[idx], old(e.sides), e.lastOraclePrice, MAX_DUST_PER_INSTRUCTION,
            MAX_EPOCHS_PER_INSTRUCTION);
        }
        r := Outcome(q, 0);
      case CloseResolvedTerminal(idx) =>
        UnmovedKept(e.sides, e.lastOraclePrice, MAX_DUST_PER_INSTRUCTION,
            MAX_EPOCHS_PER_INSTRUCTION);
        var q := e.CloseResolvedTerminal(idx);
        r := Outcome(q, if q.Ok? then -(q.value as int) else 0);
      case ForceCloseResolved(idx) =>
        var q := e.ForceCloseResolved(idx);
        if q.Ok? {
          ReconciledWithin(old(e.positions)[idx], old(e.sides), e.lastOraclePrice, MAX_DUST_PER_INSTRUCTION,
            MAX_EPOCHS_PER_INSTRUCTION);
        }
        r := Outcome(q, if q.Ok? && q.value.Closed? then -(q.value.capital as int) else 0);
    }
  }

  /** Runs one instruction.  If it succeeds the engine is valid again, no account that
      it does not name has changed, and the vault has moved by exactly the tokens that
      came in or went out; the dust bounds have grown by a bounded amount, and a side
      whose K had room for the next mark still has.  It reports a corrupt state only
      when the dust bounds it starts from are within that amount of their width. */
  method Execute(e: RiskEngine, x: Instruction) returns (r: Result<int>)
    requires e.Valid()
    modifies e, e.slots, e.slots.used, e.slots.nextFree, e.slots.prevFree
    ensures r.Ok? ==> e.Valid() && e.OnlyRows(Subjects(x))
    ensures r.Ok? ==> FlowOk(x, r.value) && e.totals.vault == old(e.totals).vault + r.value
    ensures r.Ok? || r == Err(CorruptState) ==> SidesWithin(e)
    ensures r == Err(CorruptState) ==> NearDustLimit(old(e.sides))
  {
    hide RiskEngine.Valid, DustSumOverflows, KeptWithin, NearDustLimit;
    if IsPriced(x) {
      r := ExecutePriced(e, x);
      if r == Err(CorruptState) {
        OverflowIsNear(old(e.sides), old(e.lastOraclePrice), e.sides, e.lastOraclePrice);
      }
      return;
    }
    if IsTerminal(x) {
      r := ExecuteTerminal(e, x);
      if r == Err(CorruptState) {
        OverflowIsNear(old(e.sides), old(e.lastOraclePrice), e.sides, e.lastOraclePrice);
      }
      return;
    }
    UnmovedKept(e.sides, e.lastOraclePrice, MAX_DUST_PER_INSTRUCTION,
            MAX_EPOCHS_PER_INSTRUCTION);
    match x {
      case Deposit(idx, amount, now) =>
        var q := e.Deposit(idx, amount, now);
        r := Outcome(q, amount);
      case ReclaimEmptyAccount(idx, now) =>
        var q := e.ReclaimEmptyAccount(idx, now);
        r := Outcome(q, 0);
      case TopUpInsuranceFund(amount, now) =>
        var q := e.TopUpInsuranceFund(amount, now);
        r := Outcome(q, amount);
      case ChargeAccountFee(idx, fee, now) =>
        var q := e.ChargeAccountFee(idx, fee, now);
        r := Outcome(q, 0);
      case DepositFeeCredits(idx, amount, now) =>
        var q := e.DepositFeeCredits(idx, amount, now);
        r := Outcome(q, amount);
      case SettleFlatNegativePnl(idx, now) =>
        var q := e.SettleFlatNegativePnl(idx, now);
        r := Outcome(q, 0);
      case SyncAccountFee(idx, now, rate) =>
        var q := e.SyncAccountFee(idx, now, rate);
        r := Outcome(q, 0);
    }
  }

  /** The sides and the last price between two instructions. */
  datatype Boundary = Boundary(sides: Sides, price: nat)

  /** Up to boundary `k`, the side was marked in every instruction, or its K was still
      where a reset had put it. */
  predicate AnchoredUpTo(trace: seq<Boundary>, side: Side, k: nat)
    requires k <= |trace|
  {
    forall j :: 0 <= j < k ==> Anchored(trace[j].sides.Get(side))
  }

  /** Every next price can be marked at every boundary of such a stretch. */
  ghost predicate RoomThroughout(trace: seq<Boundary>, side: Side) {
    forall k :: 0 <= k < |trace| && AnchoredUpTo(trace, side, k) ==>
        Headroom(side, trace[k].sides.Get(side), trace[k].price)
  }

  lemma RoomGrows(trace: seq<Boundary>, next: Boundary, side: Side)
    requires |trace| > 0 && RoomThroughout(trace, side)
    requires var last := trace[|trace| - 1];
             HeadroomKept(last.sides, last.price, next.sides, next.price)
    ensures RoomThroughout(trace + [next], side)
  {
    hide Headroom;
    var n, longer := |trace|, trace + [next];
    forall k | 0 <= k < |longer| && AnchoredUpTo(longer, side, k)
      ensures Headroom(side, longer[k].sides.Get(side), longer[k].price)
    {
      assert forall j :: 0 <= j < n ==> longer[j] == trace[j];
      if k < n {
        assert AnchoredUpTo(trace, side, k);
      } else {
        assert AnchoredUpTo(trace, side, n - 1);
        assert Anchored(longer[n - 1].sides.Get(side));
      }
    }
  }

  lemma RoomAtFirst(first: Boundary, side: Side)
    requires first.sides == Sides(NEW_SIDE, NEW_SIDE) && 1 <= first.price <= MAX_ORACLE_PRICE
    ensures RoomThroughout([first], side)
  {
    FreshHeadroom(side, NEW_SIDE, first.price);
  }

  /** The most that `n` instructions can do to the dust bounds and the epochs of a fresh
      market. */
  predicate WornAtMost(b: Sides, n: nat) {
    && b.long.dust <= n * MAX_DUST_PER_INSTRUCTION && b.short.dust <= n * MAX_DUST_PER_INSTRUCTION
    && b.long.epoch <= n * MAX_EPOCHS_PER_INSTRUCTION && b.short.epoch <= n * MAX_EPOCHS_PER_INSTRUCTION
  }

  /** A run this long or shorter exhausts neither. */
  const HALF_LIFE: nat := 0x8000_0000_0000_0000

  /** A run from a fresh market: whatever succeeds in whatever order, the engine stays
      valid, and the vault holds exactly the net flow.  A failing instruction ends the
      run, since its effects are rolled back with its transaction.  Within 2^64
      instructions none reports a corrupt state; and as long as a side's open interest
      stays nonzero, or its K where a reset put it, every next price can be marked. */
  method Run(params: Params, capacity: nat, slot: nat, price: nat, script: seq<Instruction>)
    returns (e: RiskEngine, done: nat, flow: int, failure: Option<RiskError>, ghost trace: seq<Boundary>)
    requires ValidParams(params, capacity)
    requires 1 <= price <= MAX_ORACLE_PRICE && slot <= U64_MAX
    ensures done <= |script| && (failure.None? <==> done == |script|)
    ensures failure.None? ==> e.Valid() && e.totals.vault == flow
    ensures failure == Some(CorruptState) ==> done > U64_MAX
    ensures failure.None? ==>
              && WornAtMost(e.sides, done)
              && (done < HALF_LIFE ==> !EpochsExhausted(e.sides) && !NearDustLimit(e.sides))
    ensures |trace| == done + 1 && trace[0] == Boundary(Sides(NEW_SIDE, NEW_SIDE), price)
    ensures RoomThroughout(trace, Long) && RoomThroughout(trace, Short)
    ensures failure.None? ==> trace[done] == Boundary(e.sides, e.lastOraclePrice)
  {
    hide RiskEngine.Valid, ValidParams, HeadroomKept, RoomThroughout;
    e := new RiskEngine(params, capacity, slot, price);
    done, flow, failure := 0, 0, None;
    trace := [Boundary(e.sides, e.lastOraclePrice)];
    RoomAtFirst(trace[0], Long);
    RoomAtFirst(trace[0], Short);
    while done < |script|
      invariant done <= |script| && e.Valid() && e.totals.vault == flow && failure.None?
      invariant fresh(e) && fresh(e.slots) && fresh(e.slots.used) && fresh(e.slots.nextFree) && fresh(e.slots.prevFree)
      invariant |trace| == done + 1 && trace[0] == Boundary(Sides(NEW_SIDE, NEW_SIDE), price)
      invariant trace[done] == Boundary(e.sides, e.lastOraclePrice)
      invariant RoomThroughout(trace, Long) && RoomThroughout(trace, Short)
      invariant WornAtMost(e.sides, done)
    {
      var r := Execute(e, script[done]);
      if r.Err? {
        failure := Some(r.error);
        return;
      }
      RoomGrows(trace, Boundary(e.sides, e.lastOraclePrice), Long);
      RoomGrows(trace, Boundary(e.sides, e.lastOraclePrice), Short);
      trace := trace + [Boundary(e.sides, e.lastOraclePrice)];
      flow := flow + r.value;
      done := done + 1;
    }
  }

  /** After any run of less than 2^63 instructions, a flat account without losses can take
      everything that a touch leaves it, as soon as the market can be accrued; the one
      thing that can still stop it is the panic of its own warmup. */
  method FlatCanLeave(e: RiskEngine, n: nat, idx: nat, amount: u128, price: nat, now: u64, rate: int, hMin: nat,
      hMax: nat)
    returns (r: Result<()>)
    requires e.Valid() && WornAtMost(e.sides, n) && n < HALF_LIFE
    requires e.IsUsed(idx) && e.positions[idx].basis == 0 && e.wallets[idx].pnl >= 0
    requires AdmissionPairOk(hMin, hMax, e.params) && e.AccrualSucceeds(now, price, rate)
    requires amount == PostTouchCapital(e.wallets[idx], e.totals, now)
    modifies e
    ensures r.Ok? <==> !WarmupPanics(old(e.wallets)[idx], old(e.totals), now)
    ensures r.Ok? ==> e.Valid() && e.OnlyRow(idx) && e.totals.vault == old(e.totals).vault - amount
  {
    hide PostTouchCapital, WarmupPanics, RiskEngine.SettledAt, AdmissionPairOk, KeptWithin;
    r := e.Withdraw(idx, amount, price, now, rate, hMin, hMax);
  }

  method TakeFirstTwo(s: Slots)
    requires s.Valid() && 2 <= s.maxAccounts && s.numUsed == 0 && forall i :: 0 <= i < s.capacity ==> !s.used[i]
    modifies s`freeHead, s`numUsed, s`materialized, s`free, s.used, s.nextFree, s.prevFree
    ensures s.Valid() && s.used[0] && s.used[1]
  {
    hide Slots.Linked;
    var first := s.Materialize(0);
    assert s.used[..][0] && !s.used[..][1];
    var second := s.Materialize(1);
    assert s.used[..][0] && s.used[..][1];
  }

  /** Puts a book of two positions on a new engine. */
  method PlaceBook(e: RiskEngine, ps: seq<Position>, b: Sides)
    requires e.Valid() && e.marketMode.Live? && 2 <= e.params.maxAccounts
    requires e.slots.numUsed == 0 && forall i :: 0 <= i < e.slots.capacity ==> !e.slots.used[i]
    requires |ps| == |e.positions| && BookInv(ps, b, NO_RESET) && Tidy(b)
    requires forall i :: 2 <= i < |ps| ==> ps[i] == FLAT
    modifies e`positions, e`sides, e.slots, e.slots.used, e.slots.nextFree, e.slots.prevFree
    ensures e.Valid() && e.positions == ps && e.sides == b && e.slots.IsUsed(0) && e.slots.IsUsed(1)
  {
    hide Slots.Linked, LedgerInv, BookInv, ValidParams, PayoutOk, Tidy;
    TakeFirstTwo(e.slots);
    e.positions := ps;
    e.sides := b;
  }

  /** The bound on the length of a run is needed: there is a valid engine, with any number
      of slots, on which an instruction that touches the first two accounts cannot end. */
  method EngineAtDustLimit(params: Params, capacity: nat) returns (e: RiskEngine)
    requires ValidParams(params, capacity) && params.maxAccounts >= 2
    ensures e.Valid() && |e.positions| == capacity && e.slots.IsUsed(0) && e.slots.IsUsed(1)
    ensures Ended(Touched(Touched(Table(e.positions, e.sides), 0), 1).b, NO_RESET) == Err(CorruptState)
  {
    assert 2 <= params.maxAccounts <= capacity < NIL;
    hide Slots.Valid, ValidParams, LedgerInv, BookInv, Touched, Ended, Tidy, PayoutOk, TerminalSides, TruncatedPair;
    TruncatedSums(capacity - 2);
    e := new RiskEngine(params, capacity, 0, 1);
    DustSumCanOverflow(capacity - 2);
    PlaceBook(e, TruncatedPair(capacity - 2), Sides(EXHAUSTED_SIDE, EXHAUSTED_SIDE));
  }
}
