# A verified model of the perpetual-futures risk engine

This project models the risk engine of a perpetual-futures exchange
(`src/percolator.rs`), the wide arithmetic under it (`src/wide_math.rs`), and the
price feeds it reads (`oracle/src`), and proves what the engine promises about them.
`dafny verify dfyconfig.toml` checks everything.

## What is modelled

The engine keeps cheap running summaries in place of per-account work. Each summary has a
module that says what it must equal and proves that every step keeps it so:

- **Book** (`Book`, `Adl`, `ProRata`, `Resets`). One multiplier A per side stands for a
  rescaling of every position on it. The invariant is a sandwich: the exact sum of
  |basis| * A / a_basis over the current positions is at most the side's open interest,
  which is at most the sum of the truncated positions plus the phantom dust bound; both
  open interests agree; a side waiting for a reset has none, and every position stored on
  it is exactly one epoch behind and counted as stale.
- **Lazy indices** (`LazyIndex`, `Accrual`). K and F collect marks, funding and deficits
  once per side; an account settles with a single floor division later. The theorems
  compare this with an engine that would visit every account at every event.
- **Ledger** (`Ledger`, `Warmup`, `Margin`, `Trading`). The running totals equal their
  sums over accounts, the vault covers capital and insurance, profit matures through two
  reserve buckets, and the haircut shares what is left. What each requirement, fee, share
  and schedule amounts to is stated in plain inequalities beside its computation.
- **Limits** (`Limits`). What one instruction can do to the numbers of a side that could
  run out: its dust bound, its epochs and the room left in K.
- **Resolution** (`Resolution`, `Settlement`). The last mark, reconciling, and payouts at
  one locked ratio, each independent of the order of accounts, on the claims and then on
  the engine.
- **Engine** (`Engine`, `Runs`). `RiskEngine` is a class with the source's fields and
  instructions; `Valid()` joins all invariants, and says that between instructions the
  market is tidy: no drained side without its reset, and neither open interest nor dust
  outliving the last position of a side. Every corrupt-state check of the source that
  cannot fire is written where the source has it, with `assert false` in its branch, and
  most instructions say exactly when they succeed.
  `Touching` says what a touch and a liquidation make of an account, `Runs` what any
  sequence of instructions keeps, and `SlotList` and `Sorting` are the allocator and the
  sort.
- **Arithmetic** (`Words`, `Wide256`, `Wide512`, `Signed256`): limbs, carries, shifts and
  long division, against integers.
- **Feeds** (`Oracle`): the ring median and the compounding price loop.

An instruction that fails is rolled back with its transaction
(`src/percolator.rs:15-31`), so the methods promise the invariant only for `Ok`; the
methods of validate-then-mutate instructions also promise that `Err` changed nothing. A
Rust panic is the error `Panicked`.

## Where the code and its documentation part

- `checked_mul_i256` (`src/wide_math.rs:852-860`) compares a negative product with 2^127
  where its comment says 2^255. `Signed256.MulIsExactIff` gives exactly the products it
  gets wrong, `Signed256.MulRefusesWhatFits` one of them, and
  `Signed256.AccrualProductsAreExact` shows that accrual never reaches one.
- `max_safe_flat_conversion_released` (`src/percolator.rs:2927-2936`) is meant to return
  the largest safe conversion, and panics when its quotient does not fit 128 bits.
  `Ledger.FlatConversionCapIsExact` gives exactly when, and shows that only safe
  conversions are refused this way; `Margin.FlatCapCanPanic` is such a ledger.
- Mark headroom holds along a stretch of nonzero open interest only.
  `Limits.HeadroomLostByEmptyMoves` loses it while a side is empty between trades,
  `Accrual.HeadroomAcrossEmptyMove` is the exact condition for keeping it, and `Runs.Run`
  keeps it over any run otherwise.
- `schedule_end_of_instruction_resets` can report a corrupt state on a book that satisfies
  the invariant in one way: two dust bounds whose sum does not fit 128 bits on an empty
  market (`src/percolator.rs:2697-2720`). `Resets.ScheduleSucceeds` proves that there is
  no other way, `Runs.EngineAtDustLimit` is a valid engine next to it, and `Runs.Run` shows
  that no run gets there within 2^64 instructions.
- All funding goes to F and none to K (`src/percolator.rs:2227-2262`), as modelled here.
- Only graduated bonding-curve feeds may be converted, says the comment in
  `oracle/src/processor.rs:280-281`; the code converts any graduated feed, and leaves it
  graduated. `Oracle.Feed.ConvertSource` says when it succeeds, and that it meets the rule
  exactly when the feed still reads a bonding curve; `Oracle.FeedLife` that in the life of
  a feed this holds of the first conversion, and of a later one exactly when the one
  before it led to a bonding curve; `Oracle.ConvertTwice` is a feed that breaks the rule.

## Model

| member | source | states |
|---|---|---|
| `Runs.Execute` | `src/percolator.rs:15-31` | Any public instruction that succeeds leaves the engine valid, changes no account it does not name, and moves the vault by exactly the tokens that came in or went out; neither dust bound grows by more than a fixed amount, no side starts more than two epochs, and a side whose K had room for every next price still has. `CorruptState` is reported only when the dust bounds were, before the instruction, within that amount of their width |
| `Runs.ExecutePriced` | `src/percolator.rs:3726-3744` | The same for the seven instructions that first accrue the market; the only corrupt state left is two dust bounds of an empty market that cannot be added |
| `Runs.Run` | `src/percolator.rs:15-31` | From a fresh market, after any script of instructions that all succeed, the whole invariant holds and the vault is exactly the net flow of tokens; none of the first 2^64 instructions reports a corrupt state; dust bounds and epochs grow at most in step with the number of instructions, so that a run of less than 2^63 comes near the limit of neither; and on a side that had open interest before each instruction, or whose K was still zero, every next price can be marked at every boundary |
| `Runs.FlatCanLeave` | `src/percolator.rs:3726-3808` | After any run of less than 2^63 instructions a flat account without losses can withdraw all of its post-touch capital once the accrual succeeds, if and only if its own warmup does not panic |
| `Runs.EngineAtDustLimit` | `src/percolator.rs:2697-2720` | The bound on the length is needed: a valid engine, with any number of slots from two on, on which the end of an instruction that touches two accounts reports a corrupt state |
| `Engine.RiskEngine.constructor` | `src/percolator.rs:941-1035` | A new market satisfies the whole invariant, for any number of slots |
| `Engine.RiskEngine.AssertPublicPostconditions` | `src/percolator.rs:3061-3136` | The last step of every public instruction: V >= C_tot + I and equal open interests, of which neither check can fail |
| `Engine.RiskEngine.SetCapital` | `src/percolator.rs:1593-1606` | Capital and C_tot move together and the ledger stays exact |
| `Engine.RiskEngine.LowerPnl` | `src/percolator.rs:1409-1553` | A fall of PnL takes from the reserve first, the pending bucket of it before the scheduled one, then from matured profit; every total stays exact in both market modes |
| `Engine.RiskEngine.AdmitFresh` | `src/percolator.rs:1291-1333` | The short horizon while every matured claim and the gain stay covered, the long one otherwise and from then on; the check of conservation cannot fail |
| `Engine.RiskEngine.SetPnlAdmitted` | `src/percolator.rs:1409-1553` | A rise is admitted at the short horizon only while matured claims stay covered, and an account once held to the long horizon stays there; matured profit never rises above both its old value and the residual; it is refused exactly for a width, a cap, a full list of held accounts or an anchor that does not fit |
| `Engine.RiskEngine.SetPnlResolved` | `src/percolator.rs:1401-1553` | After resolution a gain matures at once |
| `Engine.RiskEngine.ConsumeReleased` | `src/percolator.rs:1559-1588` | Released profit leaves PnL and both positive totals |
| `Engine.RiskEngine.SettleLosses` | `src/percolator.rs:3464-3482` | Negative PnL rises out of capital until one of the two is zero, and nothing else moves |
| `Engine.RiskEngine.UseInsuranceBuffer` | `src/percolator.rs:2300-2311` | The fund pays a loss as far as it holds more than its floor, and no further |
| `Engine.RiskEngine.ResolveFlatNegative` | `src/percolator.rs:3485-3498` | The loss of a flat account is absorbed by the fund, the rest by nobody in particular |
| `Engine.RiskEngine.FeeDebtSweep` | `src/percolator.rs:3502-3524` | Fee debt is paid out of capital until one of the two is zero, and the fund gains exactly that |
| `Engine.RiskEngine.ChargeFee` | `src/percolator.rs:4135-4172` | Capital first, then debt down to the i128 limit; less than the whole fee is taken only from an account left without capital at that limit; the fund gains the cash part; it fails exactly above the protocol cap |
| `Engine.RiskEngine.AdmitOutstandingReserve` | `src/percolator.rs:1337-1393` | The whole reserve matures at once iff matured claims then stay within the residual |
| `Engine.RiskEngine.AdvanceProfitWarmup` | `src/percolator.rs:3351-3456` | The scheduled bucket gives up what has vested in proportion to the slots passed, rounded down, as far as it holds it; without losses and alone it has given up exactly that share before its horizon and everything from there on; it panics exactly when the native product does not fit |
| `Engine.RiskEngine.WarmUp` | `src/percolator.rs:3544-3555` | Acceleration and advance together |
| `Engine.RiskEngine.SettlePosition` | `src/percolator.rs:2055-2097` | A current row of at least one unit takes the snapshots of its side; any other goes, a stale one off both counters, a truncated one leaving one unit of dust; it fails exactly when that unit does not fit; the book invariant is kept |
| `Engine.RiskEngine.AttachEffectivePosition` | `src/percolator.rs:1662-1722` | Succeeds iff the size limit and the dust bound allow it; the new row takes A, K, F and epoch of its side, and the old one leaves one unit of dust exactly when its size was truncated |
| `Engine.RiskEngine.AccrueMarketTo` | `src/percolator.rs:2139-2275` | Succeeds exactly when its inputs are admissible and all four indices fit, and otherwise changes nothing; each side with open interest is marked by A times the price move, with opposite signs, and between two such sides F moves by A times funding price, rate and slots, against longs when the rate is positive |
| `Engine.RiskEngine.EnqueueAdl` | `src/percolator.rs:2425-2593` | The fund pays first, down to its floor; the opposing side is charged the least fall of K that covers the rest, if that leaves room to mark it, gives up the size and shrinks A pro rata, or both sides are drained when nothing would be left; it fails exactly on a dust overflow, and keeps the book invariant with the resets it schedules |
| `Engine.RiskEngine.ScheduleResets` | `src/percolator.rs:2697-2769` | Fails exactly when the two dust bounds of an empty market overflow when added; otherwise both sides are cleared and reset exactly when one has no position while open interest or its dust is left, and a drained side without open interest is reset |
| `Engine.RiskEngine.BeginFullDrainReset` | `src/percolator.rs:2601-2670` | Parks K and F, starts both from zero with A at one in the next epoch, clears dust, and makes every stored position stale |
| `Engine.RiskEngine.MaybeFinalizeReadySides` | `src/percolator.rs:2788-2803` | A side opens again exactly when nobody waits on it any more; the book invariant is kept |
| `Engine.RiskEngine.FinalizeResets` | `src/percolator.rs:2773-2782` | Can only fail by running out of epochs; otherwise no reset is left pending |
| `Engine.RiskEngine.EndOfInstruction` | `src/percolator.rs:3802-3804` | Schedule and finalize: it succeeds exactly when both do, and the sides are exactly theirs and tidy; only exhausted epochs or a dust-sum overflow can stop it |
| `Engine.RiskEngine.SettleSideEffects` | `src/percolator.rs:2026-2099` | Books the move of the side's K and F since the snapshots, on the basis over a_basis, rounded down: the live indices in the row's own epoch, the parked ones after it; its corrupt-state errors are unreachable |
| `Engine.RiskEngine.Touch` | `src/percolator.rs:3534-3568` | The whole touch: ledger and book kept, a flat account left without loss, a flat account without losses changed by warmup only, and the equity of one that stays open moved by exactly its rounded-down index move; it is refused exactly for a panic of the warmup, a refused move of PnL, a full list or no room for dust |
| `Engine.RiskEngine.TouchRow` | `src/percolator.rs:3552-3567` | The touched wallet is exactly warmup, admitted side effects, losses from capital and absorption, in that order; the fund pays exactly the insured part |
| `Engine.RiskEngine.FinalizeTouched` | `src/percolator.rs:3575-3621` | Every touched account, and no other: with 0 < matured profit <= V - C_tot - I a flat one turns its released profit into capital, then fee debt is swept; the fund gains exactly the debts paid off |
| `Engine.RiskEngine.FinalizeOne` | `src/percolator.rs:3575-3621` | The same for one account, with the totals that this leaves |
| `Engine.RiskEngine.Deposit` | `src/percolator.rs:3653-3720` | Succeeds exactly in a live market at an admissible slot within the vault cap, for an account in use or with a minimum deposit and a free slot for a missing one; materializes if needed, credits, settles losses, sweeps debt; the vault grows by the amount and the fund by the debt paid off |
| `Engine.RiskEngine.Withdraw` | `src/percolator.rs:3726-3808` | Succeeds exactly when the market can be accrued, the account touched and the instruction ended, settled capital covers the amount and leaves nothing or a minimum deposit, and an open account still reaches both initial bounds, counting profit only as far as the vault can pay it; leaves exactly the settled account less the amount. So a flat account without losses can withdraw all of its post-touch capital once the accrual succeeds, unless its own warmup panics, a side had no epoch left, or the dust bounds were within one instruction of their width |
| `Engine.RiskEngine.WithdrawTouched` | `src/percolator.rs:3763-3800` | Succeeds exactly when capital and the minimum deposit allow it and, for an open position, capital, losses and the payable part of released profit, less debt and the amount, reach both initial bounds; and then pays exactly the amount |
| `Engine.RiskEngine.SettleAccount` | `src/percolator.rs:3816-3856` | The account becomes exactly the accrued, touched and finalized one; an open account that was settled when the accrual began earns its size times the price move, less size times funding price, rate and slots over 10^9, rounded down; the whole invariant and every other account are kept; it succeeds exactly on an account in use, with admissible horizons, when the market can be accrued, the account touched and the instruction ended |
| `Engine.RiskEngine.TradeGate` | `src/percolator.rs:3966-4043` | Succeeds exactly within the size, notional, open-interest and position caps and with no growth on a side that is not Normal; its corrupt-state exits are unreachable and what passes finds both sides open |
| `Engine.RiskEngine.BookTradePnl` | `src/percolator.rs:4045-4056` | What one leg gains the other loses, and a gain is admitted at the horizon that the totals and the account then ask for |
| `Engine.RiskEngine.BookAndAttach` | `src/percolator.rs:3941-4064` | The gate, the slippage booked in opposite directions, rounded down for the taker, and both sizes attached with the open interest |
| `Engine.RiskEngine.AttachPair` | `src/percolator.rs:4058-4064` | Both sizes move and the open interest with them; the sandwich of the book invariant is kept |
| `Engine.RiskEngine.SettleAndChargePair` | `src/percolator.rs:4066-4095` | Losses before fees on both legs; each pays the fee in cash as far as it can, then as debt, and the fund gains exactly the cash |
| `Engine.RiskEngine.CloseOutTrade` | `src/percolator.rs:4066-4117` | Both legs are charged the fee and both are allowed: closed without loss, or reaching the initial requirement without the own gain if they take risk, or keeping maintenance, or shrinking towards it; a refusal for margin means that one of these fails |
| `Engine.RiskEngine.TradeStep` | `src/percolator.rs:3941-4117` | Both positions move by the size in opposite directions; one leg gains the rounded-down slippage that the other loses, both are charged the rounded-up fee on the executed notional, the fund gains their cash, and both legs are allowed |
| `Engine.RiskEngine.TouchPair` | `src/percolator.rs:3910-3953` | The two accounts as a trade finds them: accrued, touched one after the other, dust-only sides cleared; sizes, wallets and totals are exactly those of these steps |
| `Engine.RiskEngine.ExecuteTrade` | `src/percolator.rs:3862-4128` | From the two touched accounts: sizes move by the trade in opposite directions, each equity by the slippage, rounded down for the taker, less the rounded-up fee unless capital and debt room run out; the fund gains what both pay in cash; a leg that takes risk reaches the initial requirement without its own gain; then both are finalized; only the two parties change, tokens are conserved and the whole invariant is kept; gains are admitted like any other rise, and the new rows take the snapshots of their sides |
| `Engine.RiskEngine.FinalizePair` | `src/percolator.rs:4119-4123` | Both parties are finalized and the fund gains exactly the debts they pay off |
| `Engine.RiskEngine.LiquidatePartial` | `src/percolator.rs:4433-4481` | On a just-touched account it succeeds iff the keeper's pre-flight approves the hint and the dust bounds have room; the sides are exactly those of the absorbed close, and the fund gains exactly the fee |
| `Engine.RiskEngine.LiquidateFull` | `src/percolator.rs:4482-4527` | The position goes, the account ends without loss, the fund pays its part, and exactly the rest is charged to the other side; it fails exactly when a dust bound has no room |
| `Engine.RiskEngine.LiquidateInternal` | `src/percolator.rs:4402-4529` | An open position is liquidated iff its equity is not above both the maintenance minimum and the truncated maintenance share of its truncated notional; a full close leaves it flat, a partial one exactly the size less q; the fee is the rounded-up share within its bounds, the fund covers the deficit down to its floor, and row, totals, sides and scheduled resets are exactly those of the rest |
| `Engine.RiskEngine.LiquidateAtOracle` | `src/percolator.rs:4348-4397` | Only an account whose touched equity is not above both maintenance bounds is liquidated, and every such account that the call succeeds on; its row and finalized wallet, and the sides with the deficit passed on, are exactly those of the liquidation; any other account is merely settled; the whole invariant is kept; it succeeds exactly when the market can be accrued, the account touched, the liquidation recorded with the account healthy after a partial one, and the instruction ended |
| `Engine.RiskEngine.CrankCandidate` | `src/percolator.rs:4616-4642` | The candidate becomes exactly the touched account, or the liquidated one; the latter iff its equity is not above both maintenance bounds and its hint is a full close, or a partial one after whose fee equity is above both bounds for what is left; a full close leaves it flat and a partial one exactly the size less q; a bad hint never fails the crank; it fails only when the account cannot be touched or an accepted hint finds no room for dust |
| `Engine.RiskEngine.CrankVisit` | `src/percolator.rs:4593-4643` | One candidate in use adds exactly its visit to the log |
| `Engine.RiskEngine.CrankCandidates` | `src/percolator.rs:4593-4643` | The candidates in use are visited in the given order until the budget is spent or a reset is scheduled; each visit leaves exactly what it should, and together the visits account for every wallet, every position, both sides and all totals |
| `Engine.RiskEngine.KeeperCrank` | `src/percolator.rs:4538-4664` | One accrual, those visits chained from the accrued sides and the totals at the start, the finalization of exactly the accounts visited under the totals the last visit leaves, and the resets it scheduled; the fund gains exactly the debts paid off; an account is held to the long horizon exactly after a visit that needed it; the whole invariant is kept and a bad hint never fails it |
| `Engine.RiskEngine.CrankAndFinalize` | `src/percolator.rs:4593-4655` | The visits, and the finalization of exactly the accounts visited; the fund gains exactly the debts paid off |
| `Engine.RiskEngine.ConvertStep` | `src/percolator.rs:4806-4814` | A conversion adds to capital the rounded-down part of the amount that the vault can pay, stays solvent and lowers nobody else's haircut |
| `Engine.RiskEngine.ConvertTouched` | `src/percolator.rs:4783-4834` | Succeeds exactly on an amount within the released profit that leaves a flat account nonnegative equity and an open one above both maintenance bounds, and whose flat cap can be computed; the part the vault can pay becomes capital and fee debt is swept; it panics exactly when the cap cannot be computed |
| `Engine.RiskEngine.ConvertReleasedPnl` | `src/percolator.rs:4753-4845` | Succeeds exactly when the market can be accrued, the account touched and the instruction ended, and the amount lies within the released profit, keeps a flat account solvent with a computable cap and an open one above both maintenance bounds; the account becomes exactly the touched one with the profit converted at the haircut, swept and finalized; the whole invariant is kept |
| `Engine.RiskEngine.CloseTouched` | `src/percolator.rs:4869-4907` | Succeeds exactly on a flat account without PnL, debt or reserve, and pays exactly its capital |
| `Engine.RiskEngine.CloseAccount` | `src/percolator.rs:4851-4916` | Succeeds exactly when the market can be accrued, the account touched and the instruction ended, and the settled account is flat and owes and is owed nothing; pays out exactly its capital, frees exactly this slot, and the fund gains the debt paid off, or all that is left in an empty market |
| `Engine.RiskEngine.ReclaimEmptyAccount` | `src/percolator.rs:5304-5375` | Succeeds exactly on an account in use without position, PnL and reserve that holds less than a minimum deposit; its capital goes to the fund, with all that is left if it was the last account, and its slot is freed |
| `Engine.RiskEngine.TopUpInsuranceFund` | `src/percolator.rs:5466-5489` | Succeeds exactly in a live market at an admissible slot within the vault cap; vault and fund grow by the amount; an error changes nothing |
| `Engine.RiskEngine.ChargeAccountFee` | `src/percolator.rs:5516-5545` | Succeeds exactly on a live account in use at an admissible slot with a fee within the cap; the whole fee is taken, or all there is, its cash part goes to the fund, and the residual is unchanged |
| `Engine.RiskEngine.SettleFlatNegativePnl` | `src/percolator.rs:5558-5592` | Succeeds exactly on a flat account without reserve at an admissible slot; its loss is paid from capital, then by the fund, which pays exactly its insured part |
| `Engine.RiskEngine.SyncAccountFee` | `src/percolator.rs:5624-5657` | Succeeds exactly on an account in use at a slot that is neither past nor beyond the envelope; every slot since the last charge is paid for once at the rate, up to the cap, and after resolution none past the resolution |
| `Engine.RiskEngine.SyncFeeTo` | `src/percolator.rs:2372-2417` | The capped fee over the elapsed slots, and the clock moved to the anchor |
| `Engine.RiskEngine.DepositFeeCredits` | `src/percolator.rs:5677-5722` | Succeeds exactly for an amount within the debt and the vault cap at an admissible slot; repays exactly that; an error changes nothing |
| `Engine.RiskEngine.SweepEmptyMarket` | `src/percolator.rs:3089-3116` | The fund gets everything once nobody is there and nothing is owed, and nothing before |
| `Engine.RiskEngine.ResolveMarket` | `src/percolator.rs:4940-5073` | Succeeds exactly on admissible inputs with epochs left, in the ordinary mode with the settlement price within the band around the live one; stores the terminal deltas, starts the last epochs, and leaves every account untouched |
| `Engine.RiskEngine.DrainBothSides` | `src/percolator.rs:5041-5069` | No open interest is left, and every stored position waits on a side in its last epoch |
| `Engine.RiskEngine.BookOwed` | `src/percolator.rs:5127-5192` | Books what the position is owed at the terminal indices; every corrupt-state exit is unreachable |
| `Engine.RiskEngine.ReconcileResolved` | `src/percolator.rs:5105-5198` | The account becomes flat and without loss, the fund pays exactly the insured part of what capital does not cover; it fails only for an account not in use, a live market, or a value that does not fit |
| `Engine.RiskEngine.PayShare` | `src/percolator.rs:5238-5281` | The first account with a profit locks the ratio V - C_tot - I over all positive PnL, at most one, and each is paid its rounded-down share at it |
| `Engine.RiskEngine.CloseResolvedTerminal` | `src/percolator.rs:5217-5295` | Succeeds exactly on a reconciled account that need not wait; pays capital plus the rounded-down share of its profit at the ratio, less fee debt: exactly that without debt, and profit in full when the vault can pay everybody; what is owed to the others stays affordable |
| `Engine.RiskEngine.ForceCloseResolved` | `src/percolator.rs:5081-5100` | Once the account is reconciled it cannot fail; it waits only for a market that is not terminal, and otherwise pays exactly capital and the rounded-down share, less debt, at the ratio of the reconciled ledger; until it is paid it is left exactly reconciled |
| `Engine.RiskEngine.ReconcileAndReopen` | `src/percolator.rs:5081-5090` | Its first part: the account exactly reconciled, sides that nobody is left on reopened, and the ratio that of the reconciled ledger |
| `Engine.InstructionContext.MarkSticky` | `src/percolator.rs:260-270` | Idempotent, bounded |
| `Engine.InstructionContext.AddTouched` | `src/percolator.rs:273-285` | Idempotent, bounded |
| `Book.ReplaceRow` | `src/percolator.rs:1662-1722` | Replacing any row by nothing or a fresh position keeps the open-interest sandwich when the open interest moves by the two truncated sizes |
| `Book.ResnapRow` | `src/percolator.rs:2062-2066` | Refreshing snapshots moves no sum |
| `Book.ShareWithinOi` | `src/percolator.rs:1981-2021` | No account holds more than its side's open interest |
| `Book.FloorsAgainstWeights` | `src/percolator.rs:1981-2021` | Sum of truncated sizes against the exact sum: never above it, and below it by at most one per position |
| `Book.ShrinkKeepsSide` | `src/percolator.rs:2553-2584` | The A-truncation step keeps the sandwich: dust N + ceil((OI + N) / A) covers both truncations |
| `Book.RestartKeepsSide` | `src/percolator.rs:2601-2670` | A new epoch keeps the side invariant with every position stale |
| `Book.ReopenKeepsSide` | `src/percolator.rs:2674-2689` | An empty reset side reopens |
| `Book.IndexMoveKeepsRows` | `src/percolator.rs:2139-2275` | Marks and funding move no position |
| `Book.SettleKeepsBook` | `src/percolator.rs:2026-2099` | Settling a row keeps the book invariant; a stale row is exactly one epoch behind and counted |
| `Book.AttachKeepsRows` | `src/percolator.rs:1662-1722` | Re-attaching a row keeps every row and both sides |
| `Book.TwoSharesWithinOi` | `src/percolator.rs:4185-4203` | Two accounts together fit under the open interest, so the subtractions of bilateral_oi_after cannot underflow |
| `Book.TradeKeepsBook` | `src/percolator.rs:4058-4064` | A trade keeps the sandwich and the equality of both open interests |
| `Adl.DeficitIsLeastCover` | `src/percolator.rs:2483-2541` | A deficit lowers K by the least amount that covers it when that fits and leaves room to mark the side at any price, and by nothing otherwise |
| `Adl.ShrinkSide` | `src/percolator.rs:2563-2584` | A shrinks pro rata, rounded down; dust grows by one unit for each row and a rounded-up share of all of them; a small A closes the side to new positions; it fails exactly on a dust overflow |
| `Adl.AbsorbedMeans` | `src/percolator.rs:2425-2593` | What a close does to both sides: size, K by the least cover of what is passed on, A pro rata, or both drained |
| `Adl.AbsorbKeepsBook` | `src/percolator.rs:2425-2593` | Every branch of the absorption keeps the book invariant, with both sides reset iff the book was drained |
| `Adl.CloseKeepsRows` | `src/percolator.rs:4433-4455` | Taking a close off a row and its side keeps every row covered |
| `Adl.AbsorbLeavesLiquidated` | `src/percolator.rs:4472-4478` | What stays attached on the liquidated side is not moved by the absorption |
| `ProRata.AccountPaysItsShare` | `src/percolator.rs:2483-2541` | Each opposing account pays at least its exact share of the deficit, and at most that plus r/(A*POS_SCALE) + 1 |
| `ProRata.DeficitSharedProRata` | `src/percolator.rs:2483-2541` | Together they pay at least d*(sum r)/OI and at most d + N + OI/(A*POS_SCALE) |
| `Resets.ScheduleSucceeds` | `src/percolator.rs:2697-2769` | On every reachable book scheduling fails iff two empty sides' dust bounds overflow when added |
| `Resets.DustSumCanOverflow` | `src/percolator.rs:2697-2720` | A tidy book of any size from two on that satisfies the invariant, and that two touches leave with dust bounds that cannot be added |
| `Resets.FinalizeKeepsBook` | `src/percolator.rs:2773-2782` | Finalizing fails only by exhausting epochs, and leaves no reset pending |
| `Resets.EndsTidy` | `src/percolator.rs:2697-2803` | Whatever came before, no drained side is left without its reset, and neither open interest nor dust outlives the last position of a side |
| `Resets.TouchDrains` | `src/percolator.rs:2067-2096` | Touching a stale row takes exactly one off a waiting side's stale count |
| `Resets.TouchingAllReopens` | `src/percolator.rs:2788-2803` | Touching every account, in any order, empties a waiting side, which then reopens |
| `LazyIndex.KfPnlDeltaIsFloor` | `src/percolator.rs:1820-1870` | Sign-and-magnitude settlement is the floor of the exact quotient, refused exactly when it does not fit |
| `LazyIndex.SettleDeltaMeans` | `src/percolator.rs:2026-2066` | What a row settles for is its basis times the move of K and F since its snapshots over a_basis, rounded down |
| `LazyIndex.AdmissibleProductFits` | `src/percolator.rs:1852-1855` | The 256-bit product never overflows for an admissible position, also at terminal K |
| `LazyIndex.LazyRefinesEager` | `src/percolator.rs:2139-2275` | For any run of marks, funding, deficits and shrinks the settled PnL is the floor of the eager sum of per-event PnL on the shrinking exact size |
| `LazyIndex.TouchingOftenNeverGains` | `src/percolator.rs:2037-2066` | n settlements collect at most what one would, and at most n - 1 units less |
| `Accrual.AccrualIsTwoEvents` | `src/percolator.rs:2200-2262` | One accrual of a live side is one mark and one funding event |
| `Accrual.AccrualMeans` | `src/percolator.rs:2200-2262` | K moves by A times the price move, against shorts; F by A times price, rate and slots, against longs when the rate is positive; an empty side is not marked and there is no funding without both |
| `Accrual.OneAccrualEarns` | `src/percolator.rs:2139-2275` | A row settled when the accrual began earns size times price move less funding, rounded down |
| `Accrual.MarkKeepsHeadroom` | `src/percolator.rs:2200-2225` | With headroom no mark can overflow K, and every mark keeps the headroom |
| `Accrual.ShrinkKeepsHeadroom` | `src/percolator.rs:2553-2566` | A smaller A keeps it |
| `Accrual.DeficitKeepsHeadroom` | `src/percolator.rs:2493-2534` | Every deficit the engine accepts keeps it |
| `Accrual.FreshHeadroom` | `src/percolator.rs:2601-2670` | A reset side has it |
| `Limits.HeadroomLostByEmptyMoves` | `src/percolator.rs:2699-2720` | Without continuous open interest the claim is false: on a new book, 170141183460 cycles of opening, marking to the cap, closing and falling back all fit and schedule no reset, after which the cap cannot be marked |
| `Accrual.HeadroomAcrossEmptyMove` | `src/percolator.rs:2200-2225` | A side without open interest is not marked when the price moves away from it, and keeps its headroom iff its K leaves room for the two extreme prices at the new one |
| `Accrual.AbsorptionIsTwoEvents` | `src/percolator.rs:2483-2570` | Absorbing a close is one deficit and one shrink event of the lazy scheme, in every branch |
| `Limits.AccruedKeeps` | `src/percolator.rs:2200-2225` | Accruing from one price to the next fits K on every secured side and turns headroom at the old price into headroom at the new one |
| `Limits.CloseWithin` | `src/percolator.rs:2553-2583` | A liquidation adds at most OI_max + 2 * 65535 + 1 to a dust bound and takes no headroom |
| `Limits.EndedWithin` | `src/percolator.rs:2697-2803` | The end of an instruction raises no dust bound and takes no headroom |
| `Engine.RiskEngine.OnlyFundingStopsAccrual` | `src/percolator.rs:2139-2275` | While every marked side has headroom, an admissible accrual succeeds iff F fits |
| `Warmup.AppendOrRoute` | `src/percolator.rs:3158-3208` | New reserve starts a bucket, joins one that started in this slot with the same horizon and has released nothing, or goes to the pending one, whose horizon it never shortens; it fails exactly on an anchor overflow |
| `Warmup.TakeNewestFirst` | `src/percolator.rs:3214-3266` | A loss takes the pending bucket first, then the scheduled one, and leaves their schedules alone |
| `Warmup.Advance` | `src/percolator.rs:3351-3456` | The advance on bucket fields: the vested share rounded down, the emptied bucket replaced by the pending one starting now |
| `Warmup.AppendedOk` | `src/percolator.rs:3158-3208` | New reserve keeps the bucket shape and the total |
| `Warmup.AfterLossOk` | `src/percolator.rs:3214-3266` | A loss keeps the bucket shape and the total |
| `Warmup.AdvancedOk` | `src/percolator.rs:3351-3456` | An advance keeps the shape, never releases more than is held, and never finds a release ahead of schedule |
| `Warmup.OneBucketPathIndependent` | `src/percolator.rs:3351-3456` | With one bucket the result depends on the final slot only |
| `Warmup.UntouchedBucket` | `src/percolator.rs:3395-3446` | A bucket alone and without losses has given up exactly the rounded-down share of the slots passed, and everything from its horizon on |
| `Warmup.SkippingNeverReleasesMore` | `src/percolator.rs:3351-3456` | With a pending bucket, skipping an advance never releases more |
| `Ledger.RowWithinTotals` | `src/percolator.rs:1409-1606` | No account exceeds the totals |
| `Ledger.MoveKeepsLedger` | `src/percolator.rs:1409-1606` | Replacing one wallet and moving the totals by its difference keeps every total exact and the vault covered |
| `Ledger.TotalsDetermined` | `src/percolator.rs:1409-1606` | Exact totals leave no choice: they move by the one account that changed |
| `Ledger.FallKeepsLedger` | `src/percolator.rs:1500-1552` | The totals after a fall of PnL are exact, in either mode |
| `Ledger.RiseKeepsLedger` | `src/percolator.rs:1461-1499` | The totals after an admitted rise are exact |
| `Ledger.ResolveKeepsLedger` | `src/percolator.rs:5038-5039` | Counting all positive PnL as matured keeps the ledger exact |
| `Ledger.HaircutIsSolvent` | `src/percolator.rs:2811-2841` | All accounts' haircut profit together is at most V - C_tot - I |
| `Ledger.WorthMeans` | `src/percolator.rs:2811-2841` | Released profit is worth its rounded-down part of what the vault holds beyond capital and insurance, over all matured profit |
| `Ledger.ConversionMeans` | `src/percolator.rs:4806-4814` | So is the capital that a conversion adds |
| `Ledger.ConversionNeverLowersHaircut` | `src/percolator.rs:4806-4814` | A conversion never lowers the ratio, cross-multiplied, and stays solvent |
| `Ledger.FlatConversionCapIsExact` | `src/percolator.rs:2927-2936` | Where the cap can be computed it admits a conversion iff there is equity and the conversion leaves it nonnegative; it panics exactly when equity times matured total over the shortfall exceeds 128 bits, and then only on conversions that are safe |
| `Margin.FlatCapCanPanic` | `src/percolator.rs:2927-2936` | A ledger that satisfies the invariant on which converting all released profit is safe and the cap panics |
| `Ledger.SharesWithinTotal` | `src/percolator.rs:2831-2841` | Truncated shares add up to at most the scaled total |
| `Margin.NoSelfBootstrap` | `src/percolator.rs:2984-3037` | Booking a trade's own gain leaves the counterfactual equity exactly where it was, across every sign of PnL |
| `Margin.NoSelfBootstrapAfterLosses` | `src/percolator.rs:2984-3037` | Nor does settling the account's own losses afterwards |
| `Margin.PreFlightIsExact` | `src/percolator.rs:4676-4745` | A hint is approved iff the liquidation's own health check passes |
| `Margin.FeesAddUp` | `src/percolator.rs:4135-4172` | Charging a fee in two parts is charging it at once |
| `Margin.SyncIsPathIndependent` | `src/percolator.rs:2372-2417` | While the cap does not bind, how often fees are synced does not matter |
| `Margin.MaintenanceMeans` | `src/percolator.rs:2939-2963` | The maintenance check passes iff exact equity is above the minimum and above the truncated share of the truncated notional |
| `Margin.WithdrawMeans` | `src/percolator.rs:2909-2980` | The withdrawal check passes iff capital, losses and the payable part of released profit, less debt and the amount, reach both initial bounds |
| `Margin.OpenEquityMeans` | `src/percolator.rs:2984-3057` | The counterfactual check passes iff equity with the own gain taken out of PnL and total reaches both initial bounds |
| `Margin.OneSideMeans` | `src/percolator.rs:4228-4331` | The post-trade check allows exactly a leg closed without new shortfall, one that takes risk with counterfactual equity, one above maintenance, or one that shrinks with growing room; it refuses only others |
| `Margin.LiquidationFeeMeans` | `src/percolator.rs:4456-4462` | The fee is the rounded-up share of the truncated notional, raised to the minimum and lowered to the cap, and no other number is |
| `Margin.HintMeans` | `src/percolator.rs:4676-4745` | A partial hint is approved iff after its fee equity is above both bounds for what would be left |
| `Margin.ChargedMeans` | `src/percolator.rs:4135-4172` | Charging is the only outcome that takes the whole fee, or everything, capital before debt |
| `Margin.FinalizedMeans` | `src/percolator.rs:3575-3621` | Finalizing is the conversion of released profit in a whole market, and the sweep of debt |
| `Trading.TradePnlIsFloor` | `src/percolator.rs:5793-5836` | Slippage is the floor of the exact product for every sign, refused exactly when it does not fit |
| `Trading.TradePnlFits` | `src/percolator.rs:5793-5836` | It always fits within the engine's bounds |
| `Trading.TradeFeeMeans` | `src/percolator.rs:4071-4085` | The fee is the rounded-up share of the truncated executed notional |
| `Trading.PairWithinOi` | `src/percolator.rs:4185-4203` | Two accounts hold at most a side's open interest, whatever its mode; nothing is held when a side waits for a reset |
| `Trading.PairWithinCounts` | `src/percolator.rs:4015-4043` | The position counters can give up what both accounts hold |
| `Trading.GateIsOpen` | `src/percolator.rs:4000-4013` | A trade that passes the open-interest gate finds neither side waiting for a reset |
| `Resolution.ResolutionIsAFinalMark` | `src/percolator.rs:5007-5064` | For every account, resolving and reconciling is worth exactly one more mark at the resolved price; waiting sides settle at their parked indices |
| `Resolution.HeldMeansOi` | `src/percolator.rs:2139-2275` | A side with a current position has open interest, so it would have been marked |
| `Resolution.ReconcilingIsOrderFree` | `src/percolator.rs:5105-5198` | Reconciling all accounts that are not reconciled yet, in any order and however often, gives the same accounts and the same insurance fund |
| `Resolution.LockedIsPayable` | `src/percolator.rs:5242-5254` | Truncated shares at a freshly locked ratio fit in the residual |
| `Resolution.PaymentMeans` | `src/percolator.rs:5238-5289` | A payment is capital and the rounded-down share, less fee debt as far as the two cover it |
| `Resolution.PaidWithoutDebt` | `src/percolator.rs:5238-5289` | Without debt it is exactly that, and capital and PnL in full at a ratio of one |
| `Resolution.ProfitIsPaidOut` | `src/percolator.rs:5242-5281` | All shares together are at most the smaller of residual and total profit, and more than that less one unit per winner |
| `Resolution.CloseKeepsPayable` | `src/percolator.rs:5217-5295` | A close stays payable, pays exactly out of the vault, and moves the ratio for nobody else |
| `Resolution.PaymentsAreOrderFree` | `src/percolator.rs:5217-5295` | Whatever the order of closes, each account is paid the same |
| `Settlement.OneClaimSettled` | `src/percolator.rs:5105-5198` | Reconciling one account settles its claim and changes nothing that anybody else is owed |
| `Settlement.ReconcileInOrder` | `src/percolator.rs:5105-5198` | On the engine: reconciling accounts in a given order is exactly that order of the claims, and fails only on an overflow |
| `Settlement.RatioAfterClosing` | `src/percolator.rs:5217-5295` | A close leaves the ratio of everybody else where it was, locked or not, swept market included |
| `Settlement.CloseNext` | `src/percolator.rs:5081-5100` | A forced close of a settled account cannot fail or wait, and pays at the ratio that everybody else is paid at |
| `Settlement.CloseInOrder` | `src/percolator.rs:5081-5100` | Forced closes of settled accounts in any order: each is paid at the one ratio, and the vault falls by exactly the payments |
| `Settlement.SettleMarket` | `src/percolator.rs:5075-5298` | A resolved market settled on the engine, reconciled in one order and closed in another: only an overflowing reconciliation can fail, each account is paid an amount that the state at the start fixes, capital and one share less debt, and all shares together come within one unit per winner of what is there for them |
| `Settlement.OrdersAgree` | `src/percolator.rs:492-496` | Two engines in the same resolved state, reconciled and closed in different orders, pay every account the same |
| `SlotList.Slots.constructor` | `src/percolator.rs:1029-1034` | The list threads all slots, none in use |
| `SlotList.Slots.ThreadAll` | `src/percolator.rs:1029-1034` | Forward and backward links of the initial list |
| `SlotList.Slots.LinksConsistent` | `src/percolator.rs:1189-1226` | Around a free slot the links always agree, so the consistency errors are unreachable |
| `SlotList.Slots.Unlink` | `src/percolator.rs:1227-1240` | Removes one slot, wherever it is, from the list |
| `SlotList.Slots.Push` | `src/percolator.rs:1132-1138` | Puts a slot at the head |
| `SlotList.Slots.Materialize` | `src/percolator.rs:1152-1276` | Succeeds exactly on a free slot within the limits, and takes exactly that slot off the list |
| `SlotList.Slots.Free` | `src/percolator.rs:1082-1145` | Succeeds exactly on a slot in use, and returns it to the head |
| `Sorting.InsertionSort` | `src/percolator.rs:3592-3601` | In place: sorted, a permutation, and the rest of the buffer untouched |
| `Words.WideningMul` | `src/wide_math.rs:1028-1049` | The two limbs are the exact product |
| `Words.OrIsSum` | `src/wide_math.rs:398-402` | Or-ing disjoint bits is adding |
| `Wide256.SumsAreExact` | `src/wide_math.rs:294-312` | Checked addition and subtraction are exact and refuse exactly what does not fit |
| `Wide256.ProductIsExact` | `src/wide_math.rs:314-345` | Checked multiplication is exact and refuses exactly what does not fit |
| `Wide256.ShlIsProduct` | `src/wide_math.rs:387-404` | A left shift that loses no bit multiplies |
| `Wide256.ShrIsQuotient` | `src/wide_math.rs:406-423` | A right shift divides, rounding down |
| `Wide256.LessIsOrder` | `src/wide_math.rs:445-451` | The limb order is the numeric order |
| `Wide256.LeadingZerosBounds` | `src/wide_math.rs:1072-1078` | Leading zeros place a number between two powers of two |
| `Wide256.DivRem` | `src/wide_math.rs:1081-1119` | Binary long division: num == q * den + r with r < den |
| `Wide512.Product` | `src/wide_math.rs:1142-1178` | The four limbs are the exact product |
| `Wide512.Compare` | `src/wide_math.rs:1181-1189` | The limb order is the numeric order |
| `Wide512.ShiftedLeft` | `src/wide_math.rs:1192-1210` | A left shift that loses no bit multiplies |
| `Wide512.ShiftedRight` | `src/wide_math.rs:1213-1231` | A right shift divides, rounding down |
| `Wide512.Subtract` | `src/wide_math.rs:1234-1244` | Exact, with the borrow rippling through the limbs |
| `Wide512.SetBit512Adds` | `src/wide_math.rs:1247-1256` | Setting a bit below all set bits adds it |
| `Wide512.LeadingZeros512` | `src/wide_math.rs:1259-1266` | Leading zeros place a number between two powers of two |
| `Wide512.CheckedDivRem` | `src/wide_math.rs:1287-1327` | Exact quotient and remainder, refused exactly when the quotient needs more than 256 bits |
| `Wide512.MulDivFloor` | `src/wide_math.rs:1437-1441` | floor(a * b / d) and the remainder, exactly |
| `Wide512.MulDivCeil` | `src/wide_math.rs:1445-1454` | ceil(a * b / d), exactly; it aborts exactly on a zero divisor or a result of more than 256 bits |
| `Signed256.NegIsExact` | `src/wide_math.rs:911-922` | Negation is exact and refuses only the smallest number |
| `Signed256.AddIsExact` | `src/wide_math.rs:867-886` | Addition is exact and refuses exactly what does not fit |
| `Signed256.SubIsExact` | `src/wide_math.rs:888-909` | Subtraction too, also when the subtrahend has no negation |
| `Signed256.MulIsExactIff` | `src/wide_math.rs:835-865` | checked_mul_i256 is exact iff the product is not negative of magnitude 2^127 to 2^255 with neither factor the smallest number |
| `Signed256.MulRefusesWhatFits` | `src/wide_math.rs:848-860` | -(2^64) * 2^64 fits and is refused |
| `Signed256.AccrualProductsAreExact` | `src/percolator.rs:2200-2262` | No product of accrue_market_to is mishandled, by the parameter envelope |
| `Oracle.RingMedian` | `oracle/src/state.rs:126-154` | Absent iff no price is present; otherwise the lower median of the present prices |
| `Oracle.LowerMedianUnique` | `oracle/src/state.rs:126-154` | The counting definition of the lower median admits one value |
| `Oracle.AmmPriceIsFloor` | `oracle/src/processor.rs:447-460` | The floor of the exact price, refused exactly when it does not fit 64 bits |
| `Oracle.NeverExceeds` | `oracle/src/processor.rs:413-426` | Compounding upwards never exceeds the exact power |
| `Oracle.UndershootIsBounded` | `oracle/src/processor.rs:427-438` | Compounding downwards undershoots by less than (10000 + s) / s however many steps it takes |
| `Oracle.ReadMeteora` | `oracle/src/processor.rs:397-442` | Succeeds iff the parameters are in range and the compounded price fits 64 bits, which it then returns; both bounds for the loop, and the downward branch cannot overflow |
| `Oracle.ReadSourcePrice` | `oracle/src/processor.rs:324-388` | For a pool or a curve the floor of lamports over tokens, refused exactly when a reserve is missing or zero or the price does not fit 64 bits; for a bin pool the bin price and its bounds; a nonzero price is read iff the source is readable |
| `Oracle.Feed.Initialize` | `oracle/src/processor.rs:50-122` | Succeeds iff the feed is new, the kind known, the source the named one and readable; the first price is the one the source quotes and its own median |
| `Oracle.Feed.Update` | `oracle/src/processor.rs:124-190` | Succeeds iff the feed is live, the source the named one and readable; exactly one ring entry becomes the price the source quotes and the lower median is published again; a median always exists |
| `Oracle.Feed.Graduate` | `oracle/src/processor.rs:192-246` | Succeeds exactly on a live bonding-curve feed whose curve is complete; it happens once |
| `Oracle.Feed.ConvertSource` | `oracle/src/processor.rs:248-314` | Succeeds iff the feed is graduated and the named new source is readable, forgets the old prices for the one the source quotes and stays graduated; the conversion meets the documented rule iff the feed still read a bonding curve, and leaves a feed of which that is true iff the new source is one |
| `Oracle.FeedLife` | `oracle/src/processor.rs:280-284` | Under any sequence of calls to a feed the first conversion meets the documented rule, and a later one does iff the conversion before it led to a bonding curve |
| `Oracle.ConvertTwice` | `oracle/src/processor.rs:280-284` | A feed that graduates, moves to one pool and from there to another, both conversions succeeding |

## Left out

- The account record is modelled as two tables of value records, `positions` and
  `wallets`, one row per slot, rather than one array of structs updated in place; no
  aliasing between accounts exists in the source either.
- A reserve bucket that is absent is `None`, where the source keeps a presence flag and
  zeroed fields.
- The bitmap of used slots is an array of flags, not packed words.
- Fields without an economic decision: owner, kind and matcher bytes, `set_owner`,
  `last_crank_slot`, `max_crank_staleness_slots`, the materialization counters of the
  wrapper.
- `set_pnl_with_reserve` is three methods, by what they are called for: `LowerPnl`,
  `SetPnlAdmitted` and `SetPnlResolved`.
- `garbage_collect_dust`, a loop over `reclaim`-like steps that no public instruction
  calls.
- The slot clock of a deposit is set before a missing account is materialized, not after;
  a failure rolls both back.
- Native products, and quotients narrowed to 128 bits, that cannot leave their width under
  the engine's bounds are plain integers. The three that can are modelled with their panic:
  the vesting product of the warmup, the haircut product of trade-open equity, and the
  quotient of the flat conversion cap.
- Overflow checks on totals that the vault limit and the PnL limits keep far below 128 bits.
- Engine.RiskEngine.AccrueMarketTo: K and F are integers with a range check at the end, as
  in the source; the 256-bit intermediate is treated in Signed256.
- Engine.RiskEngine.ExecuteTrade: says what a trade that succeeds does, and that margin
  refuses only legs that are not allowed, not that every other trade succeeds; values that
  do not fit, dust bounds and caps refuse some, as `TradeGate`, `SetPnlAdmitted` and
  `AttachEffectivePosition` say for their parts.
- Engine.RiskEngine.KeeperCrank: when a whole crank succeeds is left to
  `CrankCandidate`, which says it for each candidate.
- Limb packing: a 256-bit number is two 128-bit words here and four 64-bit words in the
  source, glued by shifts that lose nothing; the verification-only copies of the types
  are not modelled.
- The division helpers that the settlement path does not use
  (`floor_div_signed_conservative`, `wide_signed_mul_div_floor` and its K-pair form).
- `effective_matured_pnl` and the other getters appear as functions inside the theorems
  about them.
- Orders that close some accounts before all are reconciled: a close sweeps fee debt into
  the fund, which may then cover more of a later loss. The source promises one ratio from
  the end of reconciliation on (`src/percolator.rs:492-496`).
- The program and keeper crates: account checks, transfers, codecs, candidate discovery.
  Prices, rates and candidates are arbitrary inputs.
- Feed accounts' byte layout, ownership checks and clock reads; a source account is what
  its bytes say at the offsets the readers use.
