// The engine's vocabulary: sides, side records, the position half and the money
// half of an account, parameters, errors, and the fixed constants.
module Market {
  import opened Arith

  const POS_SCALE: nat := 1_000_000
  const ADL_ONE: nat := 1_000_000_000_000_000
  const MIN_A_SIDE: nat := 100_000_000_000_000
  const MAX_ORACLE_PRICE: nat := 1_000_000_000_000
  const FUNDING_DEN: nat := 1_000_000_000
  const MAX_ABS_FUNDING_E9_PER_SLOT: nat := 1_000_000_000
  const MAX_VAULT_TVL: nat := 10_000_000_000_000_000
  const MAX_POSITION_ABS_Q: nat := 100_000_000_000_000
  const MAX_ACCOUNT_NOTIONAL: nat := 100_000_000_000_000_000_000
  const MAX_TRADE_SIZE_Q: nat := MAX_POSITION_ABS_Q
  const MAX_OI_SIDE_Q: nat := 100_000_000_000_000
  const MAX_ACCOUNT_POSITIVE_PNL: nat := 100_000_000_000_000_000_000_000_000_000_000
  const MAX_PNL_POS_TOT: nat := 100_000_000_000_000_000_000_000_000_000_000_000_000
  const MAX_PROTOCOL_FEE_ABS: nat := 1_000_000_000_000_000_000_000_000_000_000_000_000
  const MAX_TOUCHED_PER_INSTRUCTION: nat := 64

  /** u16::MAX, the index that names no slot. */
  const NIL: nat := 0xFFFF

  /** The engine's errors. `Panicked` stands for a Rust panic, which aborts the
      transaction just as an `Err` does. */
  datatype RiskError =
    | InsufficientBalance
    | Undercollateralized
    | Unauthorized
    | PnlNotWarmedUp
    | Overflow
    | AccountNotFound
    | SideBlocked
    | CorruptState
    | Panicked

  datatype Result<+T> = Ok(value: T) | Err(error: RiskError) {
    predicate IsFailure() {
      Err?
    }

    function PropagateFailure<U>(): Result<U>
      requires Err?
    {
      Err(error)
    }

    function Extract(): T
      requires Ok?
    {
      value
    }
  }

  datatype Side = Long | Short {
    function Opposite(): Side {
      if Long? then Short else Long
    }
  }

  datatype SideMode = Normal | DrainOnly | ResetPending

  datatype MarketMode = Live | Resolved

  /** Everything the engine stores once per side of the book: the multiplier A,
      the mark index K, the funding index F, the epoch and its starting indices,
      effective open interest, mode, counters and the phantom dust bound. */
  datatype SideState = SideState(
    a: nat,
    k: int,
    f: int,
    epoch: nat,
    kStart: int,
    fStart: int,
    oi: nat,
    mode: SideMode,
    stored: nat,
    stale: nat,
    dust: nat)

  const NEW_SIDE := SideState(ADL_ONE, 0, 0, 0, 0, 0, 0, Normal, 0, 0, 0)

  /** Both sides of the book. */
  datatype Sides = Sides(long: SideState, short: SideState) {
    function Get(side: Side): SideState {
      if side.Long? then long else short
    }

    function With(side: Side, s: SideState): Sides {
      if side.Long? then this.(long := s) else this.(short := s)
    }
  }

  /** Which sides have a reset scheduled for the end of the instruction. */
  datatype Flags = Flags(long: bool, short: bool) {
    predicate Get(side: Side) {
      if side.Long? then long else short
    }

    function Set(side: Side): Flags {
      if side.Long? then this.(long := true) else this.(short := true)
    }
  }

  const NO_RESET := Flags(false, false)

  /** The position half of an account: signed basis and the side snapshots taken
      when it was attached or last settled. */
  datatype Position = Position(basis: int, aBasis: nat, kSnap: int, fSnap: int, epochSnap: nat)

  const FLAT := Position(0, ADL_ONE, 0, 0, 0)

  // Machine widths of the instruction inputs.
  type u64 = x: nat | x <= U64_MAX
  type u128 = x: nat | x <= U128_MAX
  type i128 = x: int | I128_MIN <= x <= I128_MAX

  datatype Params = Params(
    maintenanceBps: nat,
    initialBps: nat,
    tradingFeeBps: nat,
    maxAccounts: nat,
    liquidationFeeBps: nat,
    liquidationFeeCap: nat,
    minLiquidationAbs: nat,
    minInitialDeposit: nat,
    minNonzeroMm: nat,
    minNonzeroIm: nat,
    insuranceFloor: nat,
    hMin: nat,
    hMax: nat,
    resolveDeviationBps: nat,
    maxAccrualDt: nat,
    maxAbsFunding: nat,
    minFundingLifetime: nat,
    maxActivePerSide: nat)

  /** validate_params. */
  predicate ValidParams(p: Params, slots: nat) {
    && 0 < p.maxAccounts <= slots < NIL
    && 0 < p.maxActivePerSide <= p.maxAccounts
    && p.maintenanceBps <= p.initialBps <= 10_000
    && p.tradingFeeBps <= 10_000
    && p.liquidationFeeBps <= 10_000
    && 0 < p.minNonzeroMm < p.minNonzeroIm <= p.minInitialDeposit <= MAX_VAULT_TVL
    && p.minLiquidationAbs <= p.liquidationFeeCap <= MAX_PROTOCOL_FEE_ABS
    && p.insuranceFloor <= MAX_VAULT_TVL
    && p.hMin <= p.hMax <= U64_MAX && p.hMax > 0
    && p.resolveDeviationBps <= 10_000
    && 0 < p.maxAccrualDt <= p.minFundingLifetime
    && p.maxAbsFunding <= MAX_ABS_FUNDING_E9_PER_SLOT
    && ADL_ONE * MAX_ORACLE_PRICE * p.maxAbsFunding * p.maxAccrualDt <= I128_MAX
    && ADL_ONE * MAX_ORACLE_PRICE * p.maxAbsFunding * p.minFundingLifetime <= I128_MAX
  }
}
