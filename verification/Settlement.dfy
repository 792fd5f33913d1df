// Settling a resolved market on the engine: every account is reconciled in one order
// and closed in another, and neither order matters.
module Settlement {
  import opened Arith
  import opened Market
  import opened Options
  import opened Sums
  import opened SlotList
  import opened Book
  import opened Resets
  import opened LazyIndex
  import opened Warmup
  import opened Ledger
  import opened Margin
  import opened Resolution
  import opened EngineFacts
  import opened Engine

  /** An account as the engine holds it: its wallet, and what its position is owed. */
  function ClaimOf(w: Wallet, p: Position, b: Sides, kLong: int, kShort: int): Claim {
    var owed := ReconcileDelta(p, b, kLong, kShort);
    Claim(w, if owed.Ok? then owed.value else 0)
  }

  function ClaimsOf(ws: seq<Wallet>, ps: seq<Position>, b: Sides, kLong: int, kShort: int): (cs: seq<Claim>)
    requires |ws| == |ps|
    ensures |cs| == |ws|
  {
    seq(|ws|, i requires 0 <= i < |ws| => ClaimOf(ws[i], ps[i], b, kLong, kShort))
  }

  function EstateOf(e: RiskEngine): (x: Estate)
    requires |e.wallets| == |e.positions|
    reads e`wallets, e`positions, e`sides, e`totals, e`kTerminalLong, e`kTerminalShort
    ensures |x.claims| == |e.wallets|
  {
    Estate(ClaimsOf(e.wallets, e.positions, e.sides, e.kTerminalLong, e.kTerminalShort), e.totals.insurance)
  }

  /** Reconciling one account moves counters only, so that nobody else is owed anything
      different. */
  lemma OwedUnmoved(p: Position, q: Position, b: Sides, kLong: int, kShort: int)
    ensures ReconcileDelta(p, SettledSides(q, b), kLong, kShort) == ReconcileDelta(p, b, kLong, kShort)
  {
    hide SettledRow, KfPnlDelta;
  }

  lemma OneClaimSettled(ws: seq<Wallet>, ps: seq<Position>, b: Sides, kLong: int, kShort: int, i: nat)
    requires i < |ws| == |ps|
    ensures var c := ClaimOf(ws[i], ps[i], b, kLong, kShort);
            ClaimsOf(ws[i := Reconciled(c)], ps[i := FLAT], SettledSides(ps[i], b), kLong, kShort)
            == ClaimsOf(ws, ps, b, kLong, kShort)[i := Done(c)]
  {
    hide ReconcileDelta, Reconciled, SettledSides;
    FlatIsOwedNothing(FLAT, SettledSides(ps[i], b), kLong, kShort);
    forall k | 0 <= k < |ws|
      ensures ReconcileDelta(ps[k], SettledSides(ps[i], b), kLong, kShort) == ReconcileDelta(ps[k], b, kLong, kShort)
    {
      OwedUnmoved(ps[k], ps[i], b, kLong, kShort);
    }
  }

  /** One call of reconcile_resolved is one step of `ReconcileAll`. */
  method ReconcileNext(e: RiskEngine, i: nat) returns (r: Result<()>)
    requires e.Valid() && e.marketMode.Resolved? && e.IsUsed(i)
    modifies e`totals, e`wallets, e`positions, e`sides, e`currentSlot
    ensures r.Err? ==> r.error == Overflow
    ensures r.Ok? ==> e.Valid() && i < |e.wallets| == |e.positions| == |old(e.positions)| == |old(e.wallets)|
    ensures r.Ok? ==> e.positions == old(e.positions)[i := FLAT] && e.totals.vault == old(e.totals).vault
    ensures r.Ok? ==> EstateOf(e) == ReconcileOne(old(EstateOf(e)), i, e.params.insuranceFloor)
  {
    hide LedgerInv, BookInv, ValidParams, PayoutOk, TerminalSides, ReconcileDelta, Reconciled, Uncovered, SettledSides,
      InsurancePays;
    assert |e.wallets| == |e.positions| == e.slots.capacity;
    OneClaimSettled(e.wallets, e.positions, e.sides, e.kTerminalLong, e.kTerminalShort, i);
    hide RiskEngine.Valid;
    ghost var c := ClaimOf(e.wallets[i], e.positions[i], e.sides, e.kTerminalLong, e.kTerminalShort);
    r := e.ReconcileResolved(i);
    if r.Ok? {
      assert e.wallets == old(e.wallets)[i := Reconciled(c)];
      assert e.positions == old(e.positions)[i := FLAT];
    }
  }

  /** Reconciling in the given order is `ReconcileAll`. */
  method ReconcileInOrder(e: RiskEngine, order: seq<nat>) returns (r: Result<()>)
    requires e.Valid() && e.marketMode.Resolved? && forall i :: i in order ==> e.IsUsed(i)
    modifies e`totals, e`wallets, e`positions, e`sides, e`currentSlot
    ensures r.Err? ==> r.error == Overflow
    ensures r.Ok? ==> e.Valid() && |e.wallets| == |e.positions| == |old(e.positions)| == |old(e.wallets)|
    ensures r.Ok? ==>
              forall i :: 0 <= i < |e.positions| ==> e.positions[i] == if i in order then FLAT else old(e.positions)[i]
    ensures r.Ok? ==> e.totals.vault == old(e.totals).vault && Within(order, |old(e.wallets)|)
    ensures r.Ok? ==> EstateOf(e) == ReconcileAll(old(EstateOf(e)), order, e.params.insuranceFloor)
    decreases |order|
  {
    hide ReconcileOne, EstateOf, LedgerInv, BookInv, ValidParams, PayoutOk, TerminalSides, Tidy, Slots.Linked;
    assert |e.wallets| == |e.positions| == e.slots.capacity;
    hide RiskEngine.Valid;
    if order == [] {
      return Ok(());
    }
    assert order[0] in order && forall i :: i in order <==> i == order[0] || i in order[1..];
    r := ReconcileNext(e, order[0]);
    if r.Ok? {
      r := ReconcileInOrder(e, order[1..]);
    }
  }

  /** Everybody is flat and nobody is in loss. */
  ghost predicate AllSettled(ws: seq<Wallet>, ps: seq<Position>) {
    (forall i :: 0 <= i < |ws| ==> ws[i].pnl >= 0) && (forall i :: 0 <= i < |ps| ==> ps[i].basis == 0)
  }

  /** The totals of a ledger in which everybody is reconciled, from what they start with. */
  ghost function TotalsInTheEnd(x: Estate, vault: nat, floor: nat): Totals {
    var ws := ReconciledWallets(x.claims);
    Totals(vault, Max(x.insurance - InsurancePays(x.insurance, Sum(x.claims, UncoveredTerm()), floor), 0),
           Max(Sum(ws, CapitalTerm()), 0), Max(Sum(ws, PosTerm()), 0), Max(Sum(ws, PosTerm()), 0), 0)
  }

  function ReconciledWallets(cs: seq<Claim>): (ws: seq<Wallet>)
    ensures |ws| == |cs|
  {
    seq(|cs|, k requires 0 <= k < |cs| => Reconciled(cs[k]))
  }

  /** What an account will be paid: its capital and its share, at a ratio that depends on
      the state before anybody is reconciled and on nothing else. */
  ghost function PaidInTheEnd(x: Estate, vault: nat, payout: Option<Ratio>, floor: nat, i: nat): nat
    requires i < |x.claims|
  {
    TerminalPayment(Reconciled(x.claims[i]), LockedRatio(TotalsInTheEnd(x, vault, floor), payout))
  }

  /** A free slot claims nothing. */
  lemma NothingToReconcile(b: Sides, kLong: int, kShort: int)
    ensures var c := ClaimOf(EMPTY_WALLET, FLAT, b, kLong, kShort);
            Done(c) == c == Claim(EMPTY_WALLET, 0)
  {
    hide ReconcileDelta;
    FlatIsOwedNothing(FLAT, b, kLong, kShort);
  }

  /** With everybody reconciled the totals are those computed from the start. */
  lemma TotalsReached(t: Totals, ws: seq<Wallet>, now: nat, p: Params, x: Estate)
    requires LedgerInv(t, ws, Resolved, now, p) && ws == ReconciledWallets(x.claims)
    requires t.insurance == x.insurance
               - InsurancePays(x.insurance, Sum(x.claims, UncoveredTerm()), p.insuranceFloor)
    ensures t.negPnlCount == 0 ==> t == TotalsInTheEnd(x, t.vault, p.insuranceFloor)
  {
    hide WalletOk, Uncovered;
  }

  // ---- closing ----

  /** With everybody flat and out of loss, nobody has to wait for anybody. */
  lemma NobodyStored(ps: seq<Position>, b: Sides)
    requires BookInv(ps, b, NO_RESET) && forall i :: 0 <= i < |ps| ==> ps[i].basis == 0
    ensures b.long.stored == b.short.stored == 0 && b.long.stale == b.short.stale == 0
  {
    hide PosOk, Covered, Explained;
    SumZero(ps, CountTerm(Long));
    SumZero(ps, CountTerm(Short));
  }

  lemma NobodyLosing(t: Totals, ws: seq<Wallet>, now: nat, p: Params)
    requires LedgerInv(t, ws, Resolved, now, p) && forall i :: 0 <= i < |ws| ==> ws[i].pnl >= 0
    ensures t.negPnlCount == 0
  {
    hide WalletOk;
    SumZero(ws, NegTerm());
  }

  /** A settled account has nothing left to reconcile. */
  lemma SettledIsDone(t: Totals, w: Wallet, b: Sides, kLong: int, kShort: int, p: Position, floor: nat)
    requires p.basis == 0 && 0 <= w.pnl && w.capital <= t.cTot && w.pnl <= t.pnlPosTot
    ensures ReconcileDelta(p, b, kLong, kShort) == Ok(0) && SettledSides(p, b) == b
    ensures Reconciled(Claim(w, 0)) == w.(reserve := NO_RESERVE) && ReconciledTotals(t, Claim(w, 0), floor) == t
  {
    hide SettledRow;
  }

  /** A close moves the ratio for nobody who is left. */
  lemma RatioAfterClosing(t: Totals, ws: seq<Wallet>, t': Totals, ws': seq<Wallet>, now: nat, later: nat, p: Params,
      i: nat, payout: Option<Ratio>, payout': Option<Ratio>)
    requires LedgerInv(t, ws, Resolved, now, p) && LedgerInv(t', ws', Resolved, later, p)
    requires i < |ws| && ws' == ws[i := EMPTY_WALLET] && ws[i].pnl >= 0
    requires var w, h := ws[i], LockedRatio(t, payout);
             && TerminalPayment(w, h) + t'.vault == t.vault
             && payout' == (if w.pnl > 0 then Some(h) else payout)
             && (t'.insurance == t.insurance + SweptFee(WithShare(w, h)) || t'.pnlPosTot == 0)
    ensures LockedRatio(t', payout') == LockedRatio(t, payout)
  {
    hide WalletOk, TerminalShare;
    SumUpdate(ws, i, EMPTY_WALLET, CapitalTerm());
    SumUpdate(ws, i, EMPTY_WALLET, PosTerm());
  }

  /** force_close_resolved on a settled account: it is closed, and paid at the ratio that
      everybody else is paid at. */
  method CloseNext(e: RiskEngine, i: nat) returns (paid: nat)
    requires e.Valid() && e.marketMode.Resolved? && e.IsUsed(i) && AllSettled(e.wallets, e.positions)
    modifies e`totals, e`wallets, e`positions, e`sides, e`currentSlot, e`payout, e.slots, e.slots.used,
             e.slots.nextFree, e.slots.prevFree
    ensures e.Valid() && AllSettled(e.wallets, e.positions) && i < |old(e.wallets)|
    ensures e.wallets == old(e.wallets)[i := EMPTY_WALLET]
    ensures e.slots.used[..] == old(e.slots.used[..])[i := false]
    ensures paid == TerminalPayment(old(e.wallets)[i], LockedRatio(old(e.totals), old(e.payout)))
    ensures paid + e.totals.vault == old(e.totals).vault
    ensures LockedRatio(e.totals, e.payout) == LockedRatio(old(e.totals), old(e.payout))
  {
    hide LedgerInv, BookInv, ValidParams, PayoutOk, TerminalSides, Tidy, Slots.Linked, LockedRatio, TerminalPayment,
      Reconciled, ReconciledTotals, ReconcileDelta, SettledSides, Uncovered, SweptFee, WithShare;
    NobodyStored(e.positions, e.sides);
    RowWithinTotals(e.totals, e.wallets, Resolved, e.currentSlot, e.params, i);
    ghost var w := e.wallets[i];
    SettledIsDone(e.totals, w, e.sides, e.kTerminalLong, e.kTerminalShort, e.positions[i], e.params.insuranceFloor);
    ShareIgnoresReserve(w, LockedRatio(e.totals, e.payout));
    var r := e.ForceCloseResolved(i);
    NobodyLosing(e.totals, e.wallets, e.currentSlot, e.params);
    if r.Err? || r.value.ProgressOnly? {
      assert false;
    }
    paid := r.value.capital;
    assert e.wallets == old(e.wallets)[i := EMPTY_WALLET];
    RatioAfterClosing(old(e.totals), old(e.wallets), e.totals, e.wallets, old(e.currentSlot), e.currentSlot, e.params,
                      i, old(e.payout), e.payout);
  }

  /** Closing settled accounts in the given order; none of the calls can fail. */
  method CloseInOrder(e: RiskEngine, order: seq<nat>) returns (paid: seq<nat>)
    requires e.Valid() && e.marketMode.Resolved? && AllSettled(e.wallets, e.positions)
    requires Distinct(order) && forall i :: i in order ==> e.IsUsed(i)
    modifies e`totals, e`wallets, e`positions, e`sides, e`currentSlot, e`payout, e.slots, e.slots.used,
             e.slots.nextFree, e.slots.prevFree
    ensures e.Valid() && |paid| == |order| && Within(order, |old(e.wallets)|)
    ensures forall k :: 0 <= k < |order| ==>
              paid[k] == TerminalPayment(old(e.wallets)[order[k]], LockedRatio(old(e.totals), old(e.payout)))
    ensures e.totals.vault + Paid(paid) == old(e.totals).vault
    decreases |order|
  {
    hide LedgerInv, BookInv, ValidParams, PayoutOk, TerminalSides, Tidy, Slots.Linked, LockedRatio, TerminalPayment,
      AllSettled;
    assert |e.wallets| == |e.positions| == e.slots.capacity;
    hide RiskEngine.Valid;
    if order == [] {
      return [];
    }
    var i := order[0];
    assert i in order;
    var first := CloseNext(e, i);
    forall j | j in order[1..]
      ensures e.IsUsed(j)
    {
      assert j in order && j != i;
      assert e.slots.used[..][j] == old(e.slots.used[..])[j];
    }
    var rest := CloseInOrder(e, order[1..]);
    paid := [first] + rest;
    PaidFirst(first, rest);
  }

  /** Every account has one rounded-down share of what is there for the winners; each
      payment is capital and share less fee debt; and with the ratio locked here the shares
      use up everything that is there, less than a unit for each winner aside. */
  ghost predicate SharedOut(ws: seq<Wallet>, t: Totals, payout: Option<Ratio>, order: seq<nat>, paid: seq<nat>) {
    exists shares: seq<nat> ::
      && |shares| == |ws| && |paid| == |order| && Within(order, |ws|)
      && (forall i :: 0 <= i < |ws| ==> ShareIs(shares[i], ws[i], RatioOf(t, payout)))
      && (forall k :: 0 <= k < |order| ==>
            var w, share := ws[order[k]], shares[order[k]];
            paid[k] == w.capital + share - Min(-w.feeCredits, w.capital + share))
      && (payout.None? && t.pnlPosTot > 0 ==>
            var pot := Min(t.vault - t.cTot - t.insurance, t.pnlPosTot);
            pot - Sum(ws, WinnerTerm()) < Paid(shares) <= pot)
  }

  lemma PaymentsShareOut(ws: seq<Wallet>, t: Totals, now: nat, p: Params, payout: Option<Ratio>, order: seq<nat>,
      paid: seq<nat>)
    requires LedgerInv(t, ws, Resolved, now, p) && Within(order, |ws|) && |paid| == |order|
    requires payout.Some? ==> payout.value.den > 0
    requires forall k :: 0 <= k < |order| ==> paid[k] == TerminalPayment(ws[order[k]], LockedRatio(t, payout))
    ensures SharedOut(ws, t, payout, order, paid)
  {
    hide TerminalPayment, TerminalShare, ShareIs, WalletOk;
    var h := LockedRatio(t, payout);
    SameRatio(t, payout);
    var shares: seq<nat> := seq(|ws|, i requires 0 <= i < |ws| => if ws[i].pnl > 0 then TerminalShare(ws[i], h) else 0);
    forall i | 0 <= i < |ws|
      ensures ShareIs(shares[i], ws[i], h)
      ensures TerminalPayment(ws[i], h) == ws[i].capital + shares[i] - Min(-ws[i].feeCredits, ws[i].capital + shares[i])
    {
      PaymentInParts(t, ws, now, p, i, payout);
    }
    if payout.None? && t.pnlPosTot > 0 {
      ProfitIsPaidOut(t, ws, shares);
    }
  }

  lemma PaymentInParts(t: Totals, ws: seq<Wallet>, now: nat, p: Params, i: nat, payout: Option<Ratio>)
    requires LedgerInv(t, ws, Resolved, now, p) && i < |ws| && (payout.Some? ==> payout.value.den > 0)
    ensures var h := LockedRatio(t, payout);
            var share := if ws[i].pnl > 0 then TerminalShare(ws[i], h) else 0;
            && ShareIs(share, ws[i], h)
            && TerminalPayment(ws[i], h) == ws[i].capital + share - Min(-ws[i].feeCredits, ws[i].capital + share)
  {
    hide FloorDiv;
    RowWithinTotals(t, ws, Resolved, now, p, i);
    PaymentMeans(ws[i], LockedRatio(t, payout));
  }

  lemma PayoutDivides(h: Ratio, t: Totals, ws: seq<Wallet>, b: Sides)
    requires PayoutOk(h, t, ws, b)
    ensures h.den > 0
  {
  }

  lemma {:induction false} PaidFirst(first: nat, rest: seq<nat>)
    ensures Paid([first] + rest) == first + Paid(rest)
  {
    if rest != [] {
      var n := |rest| - 1;
      PaidFirst(first, rest[..n]);
      assert ([first] + rest)[..n + 1] == [first] + rest[..n];
    }
  }

  lemma NobodyInLossThen(cs: seq<Claim>)
    ensures forall k :: 0 <= k < |cs| ==> ReconciledWallets(cs)[k].pnl >= 0
  {
    hide Reconciled;
    forall k | 0 <= k < |cs|
      ensures ReconciledWallets(cs)[k].pnl >= 0
    {
      ReconciledWallet(cs[k]);
    }
  }

  /** Settles a resolved market: everybody is reconciled in one order and closed in
      another.  If no reconciliation overflows, nothing else can fail, and each account is
      paid an amount that the state at the start fixes. */
  method SettleMarket(e: RiskEngine, first: seq<nat>, second: seq<nat>) returns (r: Result<seq<nat>>)
    requires e.Valid() && e.marketMode.Resolved?
    requires forall i :: i in first <==> e.IsUsed(i)
    requires Distinct(second) && forall i :: i in second ==> e.IsUsed(i)
    modifies e`totals, e`wallets, e`positions, e`sides, e`currentSlot, e`payout, e.slots, e.slots.used,
             e.slots.nextFree, e.slots.prevFree
    ensures r.Err? ==> r.error == Overflow
    ensures r.Ok? ==> e.Valid() && |r.value| == |second| && e.totals.vault + Paid(r.value) == old(e.totals).vault
    ensures |old(e.wallets)| == |old(e.positions)| && Within(second, |old(e.wallets)|)
    ensures r.Ok? ==>
              forall k :: 0 <= k < |second| ==>
                r.value[k] == PaidInTheEnd(old(EstateOf(e)), old(e.totals).vault, old(e.payout),
                                           e.params.insuranceFloor, second[k])
    // which shares out what the vault holds for the winners
    ensures r.Ok? ==>
              SharedOut(ReconciledWallets(old(EstateOf(e)).claims),
                        TotalsInTheEnd(old(EstateOf(e)), old(e.totals).vault, e.params.insuranceFloor),
                        old(e.payout), second, r.value)
  {
    hide LedgerInv, BookInv, ValidParams, PayoutOk, TerminalSides, Tidy, Slots.Linked, LockedRatio, TerminalPayment,
      Reconciled, Uncovered, InsurancePays, SharedOut, TotalsInTheEnd;
    assert forall k :: 0 <= k < |second| ==> second[k] in second;
    ghost var x := EstateOf(e);
    ghost var floor := e.params.insuranceFloor;
    forall k | 0 <= k < |x.claims| && k !in first
      ensures x.claims[k] == Done(x.claims[k])
    {
      NothingToReconcile(e.sides, e.kTerminalLong, e.kTerminalShort);
    }
    var q := ReconcileInOrder(e, first);
    if q.Err? {
      return Err(q.error);
    }
    ReconcilingIsOrderFree(x, first, floor);
    assert e.wallets == ReconciledWallets(x.claims);
    NobodyInLossThen(x.claims);
    assert AllSettled(e.wallets, e.positions);
    TotalsReached(e.totals, e.wallets, e.currentSlot, e.params, x);
    NobodyLosing(e.totals, e.wallets, e.currentSlot, e.params);
    if e.payout.Some? {
      PayoutDivides(e.payout.value, e.totals, e.wallets, e.sides);
    }
    ghost var t, ws, slot, payout := e.totals, e.wallets, e.currentSlot, e.payout;
    var paid := CloseInOrder(e, second);
    PaymentsShareOut(ws, t, slot, e.params, payout, second, paid);
    r := Ok(paid);
  }

  /** Two engines in the same resolved state, settled in different orders, pay every
      account the same. */
  method OrdersAgree(e: RiskEngine, e': RiskEngine, first: seq<nat>, first': seq<nat>, second: seq<nat>,
      second': seq<nat>)
    returns (r: Result<seq<nat>>, r': Result<seq<nat>>)
    requires e.Valid() && e'.Valid() && e != e' && e.slots != e'.slots && e.marketMode.Resolved?
    requires e.slots.used != e'.slots.used
    requires {e.slots.nextFree, e.slots.prevFree} !! {e'.slots.nextFree, e'.slots.prevFree}
    requires e.params == e'.params && e.slots.used[..] == e'.slots.used[..] && e.marketMode == e'.marketMode
    requires e.wallets == e'.wallets && e.positions == e'.positions && e.sides == e'.sides && e.totals == e'.totals
    requires e.payout == e'.payout && e.kTerminalLong == e'.kTerminalLong && e.kTerminalShort == e'.kTerminalShort
    requires forall i :: (i in first <==> e.IsUsed(i)) && (i in first' <==> e'.IsUsed(i))
    requires Distinct(second) && forall i :: i in second ==> e.IsUsed(i)
    requires Distinct(second') && forall i :: i in second' ==> e'.IsUsed(i)
    modifies e, e.slots, e.slots.used, e.slots.nextFree, e.slots.prevFree,
             e', e'.slots, e'.slots.used, e'.slots.nextFree, e'.slots.prevFree
    ensures r.Ok? && r'.Ok? ==>
              && |r.value| == |second| && |r'.value| == |second'|
              && forall j, k :: 0 <= j < |second| && 0 <= k < |second'| && second[j] == second'[k] ==>
                   r.value[j] == r'.value[k]
  {
    hide LedgerInv, BookInv, ValidParams, PayoutOk, TerminalSides, Tidy, Slots.Linked, PaidInTheEnd, EstateOf,
      SharedOut, Paid, AllSettled;
    assert EstateOf(e) == EstateOf(e') by { SameEstate(e, e'); }
    hide RiskEngine.Valid;
    r := SettleMarket(e, first, second);
    r' := SettleMarket(e', first', second');
  }

  lemma SameEstate(e: RiskEngine, e': RiskEngine)
    requires |e.wallets| == |e.positions| && e.wallets == e'.wallets && e.positions == e'.positions
    requires e.sides == e'.sides && e.totals == e'.totals
    requires e.kTerminalLong == e'.kTerminalLong && e.kTerminalShort == e'.kTerminalShort
    ensures EstateOf(e) == EstateOf(e')
  {
  }
}
