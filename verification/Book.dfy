// Open interest and positions: one multiplier per side stands for a rescaling of
// every position on it.  The book invariant bounds a side's open interest from
// below by the exact positions it stands for, and from above by the truncated
// positions plus the phantom dust bound.
module Book {
  import opened Arith
  import opened Market
  import opened Sums

  predicate OnSide(p: Position, side: Side) {
    if side.Long? then p.basis > 0 else p.basis < 0
  }

  predicate Current(p: Position, side: Side, epoch: nat) {
    OnSide(p, side) && p.epochSnap == epoch
  }

  /** floor(|basis| * A / a_basis): the unsigned effective position of a
      current-epoch holder. */
  function EffAbs(p: Position, a: nat): nat {
    if p.aBasis == 0 then 0 else
      FloorDivBounds(Abs(p.basis) * a, p.aBasis);
      FloorDiv(Abs(p.basis) * a, p.aBasis)
  }

  /** The part of a side's open interest that one account accounts for. */
  function OiShare(p: Position, side: Side, s: SideState): nat {
    if Current(p, side, s.epoch) then EffAbs(p, s.a) else 0
  }

  /** effective_pos_q: signed, and zero for a position of another epoch. */
  function EffectivePos(p: Position, b: Sides): int {
    if p.basis > 0 then OiShare(p, Long, b.long)
    else if p.basis < 0 then 0 - OiShare(p, Short, b.short)
    else 0
  }

  // ---- the sums ----

  ghost function CountTerm(side: Side): Position -> int {
    (p: Position) => if OnSide(p, side) then 1 else 0
  }

  ghost function FloorTerm(side: Side, epoch: nat, a: nat): Position -> int {
    (p: Position) => if Current(p, side, epoch) then EffAbs(p, a) else 0
  }

  /** |basis| / a_basis; times A it is the exact, untruncated position. */
  ghost function WeightTerm(side: Side, epoch: nat): Position -> real {
    (p: Position) => if Current(p, side, epoch) && p.aBasis > 0
                     then Abs(p.basis) as real / p.aBasis as real else 0.0
  }

  /** A weight times the side multiplier: an exact position size. */
  ghost function Scaled(w: real, a: nat): real {
    w * a as real
  }

  ghost function Count(ps: seq<Position>, side: Side): int {
    Sum(ps, CountTerm(side))
  }

  ghost function Floors(ps: seq<Position>, side: Side, s: SideState): int {
    Sum(ps, FloorTerm(side, s.epoch, s.a))
  }

  ghost function Weights(ps: seq<Position>, side: Side, s: SideState): real {
    SumReal(ps, WeightTerm(side, s.epoch))
  }

  // ---- the invariant ----

  /** A stored position against its side: current, or exactly one epoch behind a
      side that is waiting for a reset. */
  ghost predicate SnapOk(p: Position, s: SideState) {
    && Abs(p.basis) <= MAX_POSITION_ABS_Q
    && 0 < p.aBasis <= ADL_ONE
    && IsI128(p.kSnap) && IsI128(p.fSnap)
    && if s.mode.ResetPending? then p.epochSnap + 1 == s.epoch
       else p.epochSnap == s.epoch && s.a <= p.aBasis
  }

  ghost predicate PosOk(p: Position, b: Sides) {
    if p.basis == 0 then p == FLAT
    else SnapOk(p, if p.basis > 0 then b.long else b.short)
  }

  ghost predicate SideShape(s: SideState) {
    && 0 < s.a <= ADL_ONE && s.epoch <= U64_MAX
    && IsI128(s.k) && IsI128(s.f) && IsI128(s.kStart) && IsI128(s.fStart)
    && s.stale == (if s.mode.ResetPending? then s.stored else 0)
    && (s.mode.ResetPending? ==> s.oi == 0 && s.dust == 0)
    && (!s.mode.DrainOnly? ==> MIN_A_SIDE <= s.a)
  }

  /** The exact positions a side stands for fit under its open interest. */
  ghost predicate Covered(ps: seq<Position>, side: Side, s: SideState) {
    Scaled(Weights(ps, side, s), s.a) <= s.oi as real
  }

  /** Open interest is explained by truncated positions and bounded dust. */
  ghost predicate Explained(ps: seq<Position>, side: Side, s: SideState) {
    s.oi <= Floors(ps, side, s) + s.dust
  }

  /** One side, with a reset of it scheduled or not.  A scheduled reset drops the
      lower bound until the reset runs. */
  ghost predicate SideInv(ps: seq<Position>, side: Side, s: SideState, pending: bool) {
    && SideShape(s)
    && s.stored == Count(ps, side)
    && Explained(ps, side, s)
    && (pending ==> s.oi == 0)
    && (!pending || s.mode.ResetPending? ==> Covered(ps, side, s))
  }

  /** Every row against its side, and both sides against the rows. */
  ghost predicate RowsInv(ps: seq<Position>, b: Sides, pending: Flags) {
    && (forall i :: 0 <= i < |ps| ==> PosOk(ps[i], b))
    && SideInv(ps, Long, b.long, pending.long)
    && SideInv(ps, Short, b.short, pending.short)
  }

  /** The book invariant; the flags say which side has a reset scheduled. */
  ghost predicate BookInv(ps: seq<Position>, b: Sides, pending: Flags) {
    && RowsInv(ps, b, pending)
    && b.long.oi == b.short.oi <= MAX_OI_SIDE_Q
  }

  // ---- one row of the table ----

  lemma WeightNonNegative(ps: seq<Position>, side: Side, epoch: nat)
    ensures forall x | x in ps :: WeightTerm(side, epoch)(x) >= 0.0
  {
  }

  lemma RealQuotient(q: nat, b: nat, a: nat, d: nat)
    requires d > 0 && q * d <= b * a
    ensures q as real <= Scaled(b as real / d as real, a)
  {
    var w := b as real / d as real;
    assert w * d as real == b as real;
    assert (w * a as real) * d as real == b as real * a as real;
    assert q as real * d as real <= (w * a as real) * d as real;
  }

  lemma ScaledMono(v: real, w: real, a: nat)
    requires v <= w
    ensures Scaled(v, a) <= Scaled(w, a)
  {
  }

  lemma ScaledReplace(w: real, x: real, y: real, a: nat)
    ensures Scaled(w - x + y, a) == Scaled(w, a) - Scaled(x, a) + Scaled(y, a)
    ensures Scaled(0.0, a) == 0.0
  {
  }

  /** The truncated position is at most the exact one. */
  lemma ExactAboveFloor(p: Position, side: Side, s: SideState)
    ensures OiShare(p, side, s) as real <= Scaled(WeightTerm(side, s.epoch)(p), s.a)
  {
    if Current(p, side, s.epoch) && p.aBasis > 0 {
      var q, b := EffAbs(p, s.a), Abs(p.basis);
      FloorDivBounds(b * s.a, p.aBasis);
      RealQuotient(q, b, s.a, p.aBasis);
    }
  }

  /** A freshly attached position counts exactly at its own size. */
  lemma FreshExact(p: Position, side: Side, s: SideState)
    requires s.a > 0 && p.aBasis == s.a
    requires Current(p, side, s.epoch)
    ensures EffAbs(p, s.a) == Abs(p.basis)
    ensures Scaled(WeightTerm(side, s.epoch)(p), s.a) == Abs(p.basis) as real
  {
    FloorDivUnique(Abs(p.basis) * s.a, s.a, Abs(p.basis));
  }

  /** What one account holds never exceeds its side's open interest. */
  lemma ShareWithinOi(ps: seq<Position>, i: nat, side: Side, s: SideState)
    requires i < |ps|
    requires Covered(ps, side, s)
    ensures OiShare(ps[i], side, s) <= s.oi
  {
    hide Scaled, EffAbs, OiShare, WeightTerm;
    WeightNonNegative(ps, side, s.epoch);
    SumRealAtLeast(ps, i, WeightTerm(side, s.epoch));
    ExactAboveFloor(ps[i], side, s);
    ScaledMono(WeightTerm(side, s.epoch)(ps[i]), Weights(ps, side, s), s.a);
  }

  /** The side record's counters after account row `p` is replaced by `p'`,
      with `orphaned` units of open interest left to the dust bound. */
  function Recounted(p: Position, p': Position, side: Side, s: SideState, orphaned: nat): SideState
    requires OnSide(p, side) ==> s.stored > 0 && (s.mode.ResetPending? ==> s.stale > 0)
  {
    var left := if OnSide(p, side) then 1 else 0;
    s.(stored := s.stored - left + (if OnSide(p', side) then 1 else 0),
       stale := if s.mode.ResetPending? then s.stale - left else s.stale,
       dust := s.dust + orphaned)
  }

  /** The same, with the open interest moved along. */
  function Replaced(p: Position, p': Position, side: Side, s: SideState, orphaned: nat): SideState
    requires OnSide(p, side) ==> s.stored > 0 && (s.mode.ResetPending? ==> s.stale > 0)
    requires OiShare(p, side, s) <= s.oi
  {
    Recounted(p, p', side, s, orphaned).(oi := s.oi - OiShare(p, side, s) + OiShare(p', side, s))
  }

  lemma ReplaceKeepsCover(ps: seq<Position>, i: nat, p': Position, side: Side, s: SideState)
    requires i < |ps|
    requires s.a > 0
    requires OnSide(p', side) ==> p'.aBasis == s.a && p'.epochSnap == s.epoch
    requires Covered(ps, side, s)
    ensures Scaled(Weights(ps[i := p'], side, s), s.a)
         <= s.oi as real - OiShare(ps[i], side, s) as real + OiShare(p', side, s) as real
  {
    hide Scaled, EffAbs;
    var f := WeightTerm(side, s.epoch);
    SumRealUpdate(ps, i, p', f);
    ExactAboveFloor(ps[i], side, s);
    ScaledReplace(Weights(ps, side, s), f(ps[i]), f(p'), s.a);
    if OnSide(p', side) {
      FreshExact(p', side, s);
    }
  }

  /** Replacing a row by nothing, or by a fresh position on an open side, keeps
      the side invariant when the open interest moves by the two truncated sizes. */
  lemma ReplaceKeepsSide(ps: seq<Position>, i: nat, p': Position, side: Side, s: SideState, orphaned: nat)
    requires i < |ps|
    requires SideInv(ps, side, s, false)
    requires OnSide(p', side) ==> p'.aBasis == s.a && p'.epochSnap == s.epoch && !s.mode.ResetPending?
    requires s.mode.ResetPending? ==> orphaned == 0
    ensures OiShare(ps[i], side, s) <= s.oi
    ensures OnSide(ps[i], side) ==> s.stored > 0 && (s.mode.ResetPending? ==> s.stale > 0)
    ensures SideInv(ps[i := p'], side, Replaced(ps[i], p', side, s, orphaned), false)
  {
    hide Scaled, EffAbs;
    ShareWithinOi(ps, i, side, s);
    SumUpdate(ps, i, p', CountTerm(side));
    SumAtLeast(ps, i, CountTerm(side));
    SumUpdate(ps, i, p', FloorTerm(side, s.epoch, s.a));
    ReplaceKeepsCover(ps, i, p', side, s);
  }

  /** A row that may be written: flat, or freshly attached to an open side. */
  ghost predicate Fresh(p: Position, b: Sides) {
    if p.basis == 0 then p == FLAT
    else var s := if p.basis > 0 then b.long else b.short;
      && !s.mode.ResetPending?
      && Abs(p.basis) <= MAX_POSITION_ABS_Q
      && p == Position(p.basis, s.a, s.k, s.f, s.epoch)
  }

  /** What any replacement of a row needs: the counters and the open interest of
      its side can give up what the row holds. */
  predicate Replaceable(p: Position, b: Sides) {
    && OiShare(p, Long, b.long) <= b.long.oi
    && OiShare(p, Short, b.short) <= b.short.oi
    && (OnSide(p, Long) ==> b.long.stored > 0 && (b.long.mode.ResetPending? ==> b.long.stale > 0))
    && (OnSide(p, Short) ==> b.short.stored > 0 && (b.short.mode.ResetPending? ==> b.short.stale > 0))
  }

  function ReplacedIn(p: Position, p': Position, b: Sides, orphanedLong: nat, orphanedShort: nat): Sides
    requires Replaceable(p, b)
  {
    Sides(Replaced(p, p', Long, b.long, orphanedLong), Replaced(p, p', Short, b.short, orphanedShort))
  }

  lemma ReplaceRow(ps: seq<Position>, b: Sides, i: nat, p': Position, orphanedLong: nat, orphanedShort: nat)
    requires i < |ps|
    requires RowsInv(ps, b, NO_RESET)
    requires Fresh(p', b)
    requires (b.long.mode.ResetPending? ==> orphanedLong == 0) && (b.short.mode.ResetPending? ==> orphanedShort == 0)
    ensures Replaceable(ps[i], b)
    ensures RowsInv(ps[i := p'], ReplacedIn(ps[i], p', b, orphanedLong, orphanedShort), NO_RESET)
  {
    hide Scaled, EffAbs, Count, Explained, Covered;
    ReplaceKeepsSide(ps, i, p', Long, b.long, orphanedLong);
    ReplaceKeepsSide(ps, i, p', Short, b.short, orphanedShort);
  }

  /** Refreshing a current position's index snapshots moves no sum. */
  lemma ResnapRow(ps: seq<Position>, b: Sides, i: nat, p': Position)
    requires i < |ps|
    requires RowsInv(ps, b, NO_RESET)
    requires ps[i].basis != 0
    requires var s := if ps[i].basis > 0 then b.long else b.short;
             p' == ps[i].(kSnap := s.k, fSnap := s.f)
    ensures RowsInv(ps[i := p'], b, NO_RESET)
  {
    hide Scaled, EffAbs, Count, Floors, Weights;
    ResnapSums(ps, i, p', Long, b.long);
    ResnapSums(ps, i, p', Short, b.short);
  }

  lemma ResnapSums(ps: seq<Position>, i: nat, p': Position, side: Side, s: SideState)
    requires i < |ps| && p' == ps[i].(kSnap := p'.kSnap, fSnap := p'.fSnap)
    ensures Count(ps[i := p'], side) == Count(ps, side)
    ensures Floors(ps[i := p'], side, s) == Floors(ps, side, s)
    ensures Weights(ps[i := p'], side, s) == Weights(ps, side, s)
  {
    hide EffAbs;
    EffAbsIgnoresSnaps(ps[i], p', s.a);
    SumUpdate(ps, i, p', CountTerm(side));
    SumUpdate(ps, i, p', FloorTerm(side, s.epoch, s.a));
    SumRealUpdate(ps, i, p', WeightTerm(side, s.epoch));
  }

  lemma EffAbsIgnoresSnaps(p: Position, p': Position, a: nat)
    requires p.basis == p'.basis && p.aBasis == p'.aBasis
    ensures EffAbs(p, a) == EffAbs(p', a)
  {
  }

  // ---- shrinking a whole side at once ----

  /** ceil((OI + N) / A) + N: the dust that one truncation of A can orphan. */
  function ShrinkDust(oi: nat, n: nat, a: nat): nat
    requires a > 0
  {
    CeilDivBounds(oi + n, a);
    n + CeilDiv(oi + n, a)
  }

  /** floor(A * OI_post / OI). */
  function ShrunkA(a: nat, oi: nat, oiPost: nat): nat
    requires oi > 0
  {
    FloorDivBounds(a * oiPost, oi);
    FloorDiv(a * oiPost, oi)
  }

  /** The side that absorbs a close of `oi - oiPost`: A shrinks pro rata. */
  function Shrunk(s: SideState, oiPost: nat): SideState
    requires s.oi > 0 && s.a > 0
  {
    var a' := ShrunkA(s.a, s.oi, oiPost);
    s.(a := a',
       oi := oiPost,
       dust := if oiPost < s.oi then s.dust + ShrinkDust(s.oi, s.stored, s.a) else s.dust,
       mode := if a' < MIN_A_SIDE then DrainOnly else s.mode)
  }

  /** W * A <= OI gives W * A' <= OI' for A' = floor(A * OI' / OI). */
  lemma ShrinkUpper(w: real, a: nat, oi: nat, a': nat, oi': nat)
    requires w >= 0.0 && oi > 0
    requires a' * oi <= a * oi'
    requires Scaled(w, a) <= oi as real
    ensures Scaled(w, a') <= oi' as real
  {
    var x, y := w * a as real, w * a' as real;
    assert a' as real * oi as real <= a as real * oi' as real;
    assert w * (a' as real * oi as real) <= w * (a as real * oi' as real);
    assert y * oi as real <= x * oi' as real <= oi as real * oi' as real;
  }

  /** From W * A >= OI - D: W * A' >= OI' - D - OI / A. */
  lemma ShrinkLower(w: real, a: nat, oi: nat, a': nat, oi': nat, d: nat)
    requires a > 0 && d <= oi && 0 < oi && oi' <= oi
    requires a * oi' < a' * oi + oi
    requires (oi - d) as real <= Scaled(w, a)
    ensures oi' as real - d as real - oi as real / a as real <= Scaled(w, a')
  {
    var A, O, A', O', D := a as real, oi as real, a' as real, oi' as real, d as real;
    var u := O / A;
    assert u * A == O;
    assert A * O' <= A' * O + O;
    // w >= (O - D) / A, and (O - D) * A' / A >= (O - D) * (O' / O - 1 / A)
    var v := (O - D) / A;
    assert v * A == O - D;
    assert v <= w by { QuotientBelow(O - D, A, w); }
    assert v * A' <= w * A';
    ShrinkLowerCore(A, O, A', O', D, u, v);
  }

  lemma QuotientBelow(n: real, a: real, w: real)
    requires a > 0.0 && n <= w * a
    ensures n / a <= w
  {
  }

  lemma ShrinkLowerCore(A: real, O: real, A': real, O': real, D: real, u: real, v: real)
    requires A > 0.0 && O > 0.0 && 0.0 <= D <= O && 0.0 <= O' <= O && A' >= 0.0
    requires A * O' <= A' * O + O
    requires u * A == O && v * A == O - D
    ensures O' - D - u <= v * A'
  {
    // multiply the goal by A * O > 0
    assert (v * A') * A * O == (O - D) * (A' * O) by {
      assert (v * A') * A == (O - D) * A';
    }
    assert (O - D) * (A * O' - O) <= (O - D) * (A' * O);
    assert (O - D) * (A * O' - O) == A * (O * O') - A * (D * O') - O * O + D * O;
    assert D * O' <= D * O;
    assert A * (D * O') <= A * (D * O);
    assert (O' - D - u) * A * O == A * (O * O') - A * (D * O) - O * O by {
      assert (O' - D - u) * A == O' * A - D * A - O;
    }
    assert (O' - D - u) * A * O <= (v * A') * A * O;
  }

  /** Summed over a table: truncating each exact term costs less than one each. */
  lemma {:induction false} FloorsAgainstWeights(ps: seq<Position>, side: Side, epoch: nat, a: nat)
    ensures Sum(ps, FloorTerm(side, epoch, a)) as real <= Scaled(SumReal(ps, WeightTerm(side, epoch)), a)
    ensures (forall p | p in ps && Current(p, side, epoch) :: p.aBasis > 0) ==>
              Scaled(SumReal(ps, WeightTerm(side, epoch)), a)
              <= (Sum(ps, FloorTerm(side, epoch, a)) + Sum(ps, CountTerm(side))) as real
  {
    hide Scaled;
    if ps == [] {
      ScaledReplace(0.0, 0.0, 0.0, a);
    } else {
      var n := |ps| - 1;
      var p := ps[n];
      assert forall x | x in ps[..n] :: x in ps;
      FloorsAgainstWeights(ps[..n], side, epoch, a);
      FloorAgainstWeight(p, side, epoch, a);
      ScaledReplace(SumReal(ps[..n], WeightTerm(side, epoch)), 0.0, WeightTerm(side, epoch)(p), a);
      assert p in ps;
      SumsUnfold(ps, side, epoch, a);
    }
  }

  lemma SumsUnfold(ps: seq<Position>, side: Side, epoch: nat, a: nat)
    requires ps != []
    ensures var n := |ps| - 1;
            && SumReal(ps, WeightTerm(side, epoch)) == SumReal(ps[..n], WeightTerm(side, epoch))
                 + WeightTerm(side, epoch)(ps[n])
            && Sum(ps, FloorTerm(side, epoch, a)) == Sum(ps[..n], FloorTerm(side, epoch, a))
                 + FloorTerm(side, epoch, a)(ps[n])
            && Sum(ps, CountTerm(side)) == Sum(ps[..n], CountTerm(side)) + CountTerm(side)(ps[n])
  {
    hide EffAbs, WeightTerm, FloorTerm, CountTerm;
  }

  lemma FloorAgainstWeight(p: Position, side: Side, epoch: nat, a: nat)
    ensures FloorTerm(side, epoch, a)(p) as real <= Scaled(WeightTerm(side, epoch)(p), a)
    ensures Scaled(0.0, a) == 0.0
    ensures (Current(p, side, epoch) ==> p.aBasis > 0) ==>
              Scaled(WeightTerm(side, epoch)(p), a) <= (FloorTerm(side, epoch, a)(p) + CountTerm(side)(p)) as real
  {
    if Current(p, side, epoch) && p.aBasis > 0 {
      var q, b := EffAbs(p, a), Abs(p.basis);
      FloorDivBounds(b * a, p.aBasis);
      RealQuotient(q, b, a, p.aBasis);
      assert (q + 1) * p.aBasis == q * p.aBasis + p.aBasis;
      RealQuotientUpper(q + 1, b, a, p.aBasis);
    }
  }

  lemma RealQuotientUpper(q: nat, b: nat, a: nat, d: nat)
    requires d > 0 && b * a <= q * d
    ensures Scaled(b as real / d as real, a) <= q as real
  {
    var w := b as real / d as real;
    assert w * d as real == b as real;
    assert (w * a as real) * d as real == b as real * a as real;
    assert (w * a as real) * d as real <= q as real * d as real;
  }

  lemma WeightsNonNegative(ps: seq<Position>, side: Side, s: SideState)
    ensures Weights(ps, side, s) >= 0.0
  {
    hide WeightTerm;
    WeightNonNegative(ps, side, s.epoch);
    SumRealNonNegative(ps, WeightTerm(side, s.epoch));
  }

  lemma ShrinkKeepsCover(ps: seq<Position>, side: Side, s: SideState, oiPost: nat)
    requires s.a > 0 && 0 < s.oi && oiPost <= s.oi
    requires Covered(ps, side, s)
    ensures Covered(ps, side, Shrunk(s, oiPost))
  {
    hide Scaled, Weights;
    FloorDivBounds(s.a * oiPost, s.oi);
    WeightsNonNegative(ps, side, s);
    ShrinkUpper(Weights(ps, side, s), s.a, s.oi, ShrunkA(s.a, s.oi, oiPost), oiPost);
    assert Weights(ps, side, Shrunk(s, oiPost)) == Weights(ps, side, s)
        by { WeightsIgnoreA(ps, side, s, Shrunk(s, oiPost)); }
  }

  lemma WeightsIgnoreA(ps: seq<Position>, side: Side, s: SideState, s': SideState)
    requires s.epoch == s'.epoch
    ensures Weights(ps, side, s) == Weights(ps, side, s')
  {
    hide WeightTerm;
  }

  /** The dust term covers both truncations: of A once, and of every position. */
  lemma ShrinkKeepsExplained(ps: seq<Position>, side: Side, s: SideState, oiPost: nat)
    requires s.a > 0 && 0 < s.oi && oiPost < s.oi
    requires s.stored == Count(ps, side)
    requires forall p | p in ps && Current(p, side, s.epoch) :: p.aBasis > 0
    requires Explained(ps, side, s)
    ensures Explained(ps, side, Shrunk(s, oiPost))
  {
    hide Scaled, EffAbs, WeightTerm, FloorTerm, CountTerm, ShrunkA, ShrinkDust;
    var a', s' := ShrunkA(s.a, s.oi, oiPost), Shrunk(s, oiPost);
    var w := Weights(ps, side, s);
    FloorsAgainstWeights(ps, side, s.epoch, s.a);
    FloorsAgainstWeights(ps, side, s.epoch, a');
    WeightsNonNegative(ps, side, s);
    ShrunkABounds(s.a, s.oi, oiPost);
    ShrinkDustBound(s.oi, s.stored, s.a);
    assert s'.dust == s.dust + ShrinkDust(s.oi, s.stored, s.a);
    FloorsNonNegative(ps, side, s');
    if s.dust <= s.oi {
      ShrinkLower(w, s.a, s.oi, a', oiPost, s.dust);
    }
  }

  lemma FloorsNonNegative(ps: seq<Position>, side: Side, s: SideState)
    ensures Floors(ps, side, s) >= 0
  {
    hide EffAbs;
    SumNonNegative(ps, FloorTerm(side, s.epoch, s.a));
  }

  /** A side whose open interest is cleared awaits its reset. */
  lemma ClearKeepsSide(ps: seq<Position>, side: Side, s: SideState, pending: bool)
    requires SideInv(ps, side, s, pending)
    ensures SideInv(ps, side, s.(oi := 0), true)
  {
    hide Scaled, FloorTerm, WeightTerm, CountTerm;
    var s' := s.(oi := 0);
    FloorsNonNegative(ps, side, s');
    if s.mode.ResetPending? {
      WeightsIgnoreA(ps, side, s, s');
    }
  }

  lemma ShrunkABounds(a: nat, oi: nat, oiPost: nat)
    requires oi > 0
    ensures ShrunkA(a, oi, oiPost) * oi <= a * oiPost < ShrunkA(a, oi, oiPost) * oi + oi
    ensures oiPost <= oi ==> ShrunkA(a, oi, oiPost) <= a
    ensures oiPost == oi ==> ShrunkA(a, oi, oiPost) == a
  {
    FloorDivBounds(a * oiPost, oi);
    if oiPost <= oi {
      MulMono(oiPost, oi, a);
      FloorDivUnique(a * oi, oi, a);
      FloorDivMono(a * oiPost, a * oi, oi);
    }
  }

  lemma ShrinkDustBound(oi: nat, n: nat, a: nat)
    requires a > 0
    ensures ShrinkDust(oi, n, a) as real >= n as real + oi as real / a as real
  {
    var c := CeilDiv(oi + n, a);
    CeilDivBounds(oi + n, a);
    assert c as real * a as real >= oi as real;
    QuotientBelow(oi as real, a as real, c as real);
  }

  /** A close of part of a side's open interest, absorbed by shrinking A. */
  lemma ShrinkKeepsSide(ps: seq<Position>, side: Side, s: SideState, oiPost: nat)
    requires SideInv(ps, side, s, false)
    requires 0 < s.oi && oiPost <= s.oi
    requires ShrunkA(s.a, s.oi, oiPost) > 0
    requires forall p | p in ps && Current(p, side, s.epoch) :: p.aBasis > 0
    ensures SideInv(ps, side, Shrunk(s, oiPost), false)
    ensures Shrunk(s, oiPost).a <= s.a
  {
    hide Scaled, EffAbs, WeightTerm, FloorTerm, CountTerm, ShrunkA, ShrinkDust, Covered, Explained;
    ShrunkABounds(s.a, s.oi, oiPost);
    ShrinkKeepsCover(ps, side, s, oiPost);
    if oiPost < s.oi {
      ShrinkKeepsExplained(ps, side, s, oiPost);
    } else {
      assert Shrunk(s, oiPost) == s.(mode := Shrunk(s, oiPost).mode);
      ExplainedFrame(ps, side, s, Shrunk(s, oiPost));
    }
  }

  lemma ExplainedFrame(ps: seq<Position>, side: Side, s: SideState, s': SideState)
    requires s.epoch == s'.epoch && s.a == s'.a && s.oi == s'.oi && s.dust <= s'.dust
    requires Explained(ps, side, s)
    ensures Explained(ps, side, s')
  {
    hide FloorTerm;
  }

  // ---- resets ----

  /** A new epoch: the indices are parked, every stored position becomes stale. */
  function Restarted(s: SideState): SideState {
    s.(a := ADL_ONE, k := 0, f := 0, epoch := s.epoch + 1, kStart := s.k, fStart := s.f,
       stale := s.stored, dust := 0, mode := ResetPending)
  }

  lemma RestartKeepsSide(ps: seq<Position>, side: Side, s: SideState, pending: bool)
    requires SideInv(ps, side, s, pending)
    requires s.oi == 0 && s.epoch < U64_MAX
    requires forall p | p in ps && OnSide(p, side) :: p.epochSnap == s.epoch
    ensures SideInv(ps, side, Restarted(s), false)
    ensures forall p | p in ps && OnSide(p, side) :: p.epochSnap + 1 == Restarted(s).epoch
  {
    hide Scaled;
    var s' := Restarted(s);
    SumZero(ps, FloorTerm(side, s'.epoch, s'.a));
    SumRealZero(ps, WeightTerm(side, s'.epoch));
    ScaledReplace(0.0, 0.0, 0.0, s'.a);
  }

  /** On a side with no stored position both sums vanish. */
  lemma EmptySide(ps: seq<Position>, side: Side, s: SideState)
    requires Count(ps, side) == 0
    ensures forall p | p in ps :: !OnSide(p, side)
    ensures Floors(ps, side, s) == 0
    ensures Covered(ps, side, s)
  {
    hide Scaled;
    forall p | p in ps
      ensures !OnSide(p, side)
    {
      var i :| 0 <= i < |ps| && ps[i] == p;
      SumAtLeast(ps, i, CountTerm(side));
    }
    SumZero(ps, FloorTerm(side, s.epoch, s.a));
    SumRealZero(ps, WeightTerm(side, s.epoch));
    ScaledReplace(0.0, 0.0, 0.0, s.a);
  }

  /** A fully reset, empty side reopens. */
  lemma ReopenKeepsSide(ps: seq<Position>, side: Side, s: SideState, pending: bool)
    requires SideInv(ps, side, s, pending)
    requires s.mode.ResetPending? && s.stored == 0
    ensures SideInv(ps, side, s.(mode := Normal), false)
  {
    hide Scaled, FloorTerm;
    EmptySide(ps, side, s);
    EmptySide(ps, side, s.(mode := Normal));
    ExplainedFrame(ps, side, s, s.(mode := Normal));
  }

  /** Anything may happen to K and F as long as they stay in range. */
  lemma IndexMoveKeepsRows(ps: seq<Position>, b: Sides, b': Sides, pending: Flags)
    requires RowsInv(ps, b, pending)
    requires b'.long == b.long.(k := b'.long.k, f := b'.long.f)
    requires b'.short == b.short.(k := b'.short.k, f := b'.short.f)
    requires IsI128(b'.long.k) && IsI128(b'.long.f) && IsI128(b'.short.k) && IsI128(b'.short.f)
    ensures RowsInv(ps, b', pending)
  {
    hide Scaled, FloorTerm, WeightTerm, CountTerm;
    ExplainedFrame(ps, Long, b.long, b'.long);
    ExplainedFrame(ps, Short, b.short, b'.short);
    WeightsIgnoreA(ps, Long, b.long, b'.long);
    WeightsIgnoreA(ps, Short, b.short, b'.short);
  }

  // ---- settling and attaching one account ----

  function SideOf(p: Position): Side {
    if p.basis > 0 then Long else Short
  }

  predicate Stale(p: Position, b: Sides) {
    p.basis != 0 && p.epochSnap != b.Get(SideOf(p)).epoch
  }

  /** The row after its PnL has been settled: refreshed, or closed when it belongs to
      a finished epoch or its truncated size has become zero. */
  function SettledRow(p: Position, b: Sides): Position {
    if p.basis == 0 then p
    else
      var s := b.Get(SideOf(p));
      if p.epochSnap != s.epoch || EffAbs(p, s.a) == 0 then FLAT
      else p.(kSnap := s.k, fSnap := s.f)
  }

  /** A row that truncates to nothing needs room for one more unit of dust. */
  predicate DustFull(p: Position, b: Sides) {
    var s := b.Get(SideOf(p));
    p.basis != 0 && p.epochSnap == s.epoch && EffAbs(p, s.a) == 0 && s.dust >= U128_MAX
  }

  /** The side records after settling: a closed row leaves the counts, and a current
      one that truncated to nothing leaves one unit to the dust bound. */
  function SettledSides(p: Position, b: Sides): Sides {
    if p.basis == 0 || SettledRow(p, b) != FLAT then b
    else
      var s := b.Get(SideOf(p));
      if Stale(p, b) then b.With(SideOf(p), s.(stored := Pred(s.stored), stale := Pred(s.stale)))
      else b.With(SideOf(p), s.(stored := Pred(s.stored), dust := s.dust + 1))
  }

  lemma SettleKeepsBook(ps: seq<Position>, b: Sides, i: nat)
    requires BookInv(ps, b, NO_RESET) && i < |ps|
    ensures ps[i].basis != 0 ==> b.Get(SideOf(ps[i])).stored > 0 && (Stale(ps[i], b) ==> b.Get(SideOf(ps[i])).stale > 0)
    ensures ps[i].basis != 0 ==> 0 < ps[i].aBasis <= ADL_ONE && Abs(ps[i].basis) <= MAX_POSITION_ABS_Q
    ensures BookInv(ps[i := SettledRow(ps[i], b)], SettledSides(ps[i], b), NO_RESET)
    ensures Stale(ps[i], b) ==>
              b.Get(SideOf(ps[i])).mode.ResetPending? && ps[i].epochSnap + 1 == b.Get(SideOf(ps[i])).epoch
  {
    hide Scaled, EffAbs, SideInv;
    var p := ps[i];
    assert PosOk(p, b);
    if p.basis == 0 {
      assert ps[i := p] == ps;
    } else {
      var p' := SettledRow(p, b);
      ReplaceRow(ps, b, i, FLAT, 0, 0);
      ModesAgree(ps, b);
      if p' != FLAT {
        ResnapRow(ps, b, i, p');
      } else if Stale(p, b) {
        assert ReplacedIn(p, FLAT, b, 0, 0) == SettledSides(p, b);
      } else {
        var l, s := if p.basis > 0 then 1 else 0, if p.basis > 0 then 0 else 1;
        ReplaceRow(ps, b, i, FLAT, l, s);
        assert ReplacedIn(p, FLAT, b, l, s) == SettledSides(p, b);
      }
    }
  }

  lemma ModesAgree(ps: seq<Position>, b: Sides)
    requires RowsInv(ps, b, NO_RESET)
    ensures b.long.mode.ResetPending? ==> b.long.stale == b.long.stored && b.long.oi == 0
    ensures b.short.mode.ResetPending? ==> b.short.stale == b.short.stored && b.short.oi == 0
    ensures forall i :: 0 <= i < |ps| && ps[i].basis != 0 ==>
              (Stale(ps[i], b) <==> b.Get(SideOf(ps[i])).mode.ResetPending?)
  {
    hide Scaled, EffAbs, Covered, Explained;
  }

  /** A freshly attached row of signed size `q`. */
  function AttachedRow(q: int, b: Sides): Position {
    if q == 0 then FLAT
    else
      var s := if q > 0 then b.long else b.short;
      Position(q, s.a, s.k, s.f, s.epoch)
  }

  /** Whether replacing a current row orphans a fraction of a unit. */
  predicate OrphansDust(p: Position, b: Sides) {
    && p.basis != 0 && !Stale(p, b) && p.aBasis != 0
    && (Abs(p.basis) * b.Get(SideOf(p)).a) % p.aBasis != 0
  }

  lemma AttachedShare(q: int, b: Sides)
    requires b.long.a > 0 && b.short.a > 0
    ensures OiShare(AttachedRow(q, b), Long, b.long) == Pos(q)
    ensures OiShare(AttachedRow(q, b), Short, b.short) == Pos(-q)
  {
    if q > 0 {
      FreshExact(AttachedRow(q, b), Long, b.long);
    } else if q < 0 {
      FreshExact(AttachedRow(q, b), Short, b.short);
    }
  }

  lemma EffectiveParts(p: Position, b: Sides)
    ensures OiShare(p, Long, b.long) == Pos(EffectivePos(p, b))
    ensures OiShare(p, Short, b.short) == Pos(-EffectivePos(p, b))
  {
  }

  /** The counters after one attachment; open interest is written separately. */
  function AttachedCounts(p: Position, q: int, b: Sides): Sides {
    var p' := AttachedRow(q, b);
    var dust := if OrphansDust(p, b) then 1 else 0;
    Sides(
      b.long.(stored := (if OnSide(p, Long) then Pred(b.long.stored) else b.long.stored)
          + (if OnSide(p', Long) then 1 else 0),
              dust := b.long.dust + (if OnSide(p, Long) then dust else 0)),
      b.short.(stored := (if OnSide(p, Short) then Pred(b.short.stored) else b.short.stored)
          + (if OnSide(p', Short) then 1 else 0),
               dust := b.short.dust + (if OnSide(p, Short) then dust else 0)))
  }

  function WithOi(b: Sides, longOi: nat, shortOi: nat): Sides {
    Sides(b.long.(oi := longOi), b.short.(oi := shortOi))
  }

  /** One attachment with the open interest moved along. */
  function AttachedSides(p: Position, q: int, b: Sides): Sides
    requires Replaceable(p, b)
  {
    WithOi(AttachedCounts(p, q, b),
           b.long.oi - OiShare(p, Long, b.long) + Pos(q),
           b.short.oi - OiShare(p, Short, b.short) + Pos(-q))
  }

  lemma AttachKeepsRows(ps: seq<Position>, b: Sides, i: nat, q: int)
    requires RowsInv(ps, b, NO_RESET) && i < |ps| && Abs(q) <= MAX_POSITION_ABS_Q
    requires !b.long.mode.ResetPending? && !b.short.mode.ResetPending?
    ensures Replaceable(ps[i], b)
    ensures RowsInv(ps[i := AttachedRow(q, b)], AttachedSides(ps[i], q, b), NO_RESET)
  {
    hide Scaled, EffAbs, SideInv, OrphansDust, OiShare;
    var p, p' := ps[i], AttachedRow(q, b);
    assert SideInv(ps, Long, b.long, false) && SideInv(ps, Short, b.short, false);
    SideFacts(ps, Long, b.long);
    SideFacts(ps, Short, b.short);
    var dust := if OrphansDust(p, b) then 1 else 0;
    var l, s := if OnSide(p, Long) then dust else 0, if OnSide(p, Short) then dust else 0;
    ReplaceRow(ps, b, i, p', l, s);
    AttachedShare(q, b);
  }

  lemma SideFacts(ps: seq<Position>, side: Side, s: SideState)
    requires SideInv(ps, side, s, false)
    ensures 0 < s.a <= ADL_ONE
  {
    hide Covered, Explained, Count;
  }

  /** Attaching changes neither multiplier, index, epoch nor mode. */
  lemma AttachedFrame(p: Position, q: int, b: Sides, r: Position, q2: int)
    requires Replaceable(p, b)
    ensures var b' := AttachedSides(p, q, b);
            && b'.long.a == b.long.a && b'.long.epoch == b.long.epoch && b'.long.mode == b.long.mode
            && b'.short.a == b.short.a && b'.short.epoch == b.short.epoch && b'.short.mode == b.short.mode
            && EffectivePos(r, b') == EffectivePos(r, b)
            && OiShare(r, Long, b'.long) == OiShare(r, Long, b.long)
            && OiShare(r, Short, b'.short) == OiShare(r, Short, b.short)
            && OrphansDust(r, b') == OrphansDust(r, b)
            && AttachedRow(q2, b') == AttachedRow(q2, b)
  {
    hide EffAbs;
  }

  /** Both attachments of a trade, in order, and the open interest written once. */
  function TradedSides(p: Position, q: Position, newP: int, newQ: int, b: Sides, longOi: nat, shortOi: nat): Sides {
    WithOi(AttachedCounts(q, newQ, AttachedCounts(p, newP, b)), longOi, shortOi)
  }

  lemma TradedIsTwice(p: Position, q: Position, newP: int, newQ: int, b: Sides)
    requires Replaceable(p, b) && Replaceable(q, AttachedSides(p, newP, b))
    ensures OnSide(q, Long) ==> AttachedCounts(p, newP, b).long.stored > 0
    ensures OnSide(q, Short) ==> AttachedCounts(p, newP, b).short.stored > 0
    ensures var b2 := AttachedSides(q, newQ, AttachedSides(p, newP, b));
            b2 == TradedSides(p, q, newP, newQ, b, b2.long.oi, b2.short.oi)
  {
    hide OrphansDust, OiShare;
    AttachedFrame(p, newP, b, q, newQ);
    assert OrphansDust(q, AttachedCounts(p, newP, b)) == OrphansDust(q, b)
        by { SameDust(q, b, AttachedCounts(p, newP, b)); }
  }

  lemma SameDust(p: Position, b: Sides, b': Sides)
    requires b'.long.a == b.long.a && b'.long.epoch == b.long.epoch
    requires b'.short.a == b.short.a && b'.short.epoch == b.short.epoch
    ensures OrphansDust(p, b') == OrphansDust(p, b)
  {
  }

  lemma TwoAttachments(ps: seq<Position>, b: Sides, i: nat, j: nat, newI: int, newJ: int)
    requires RowsInv(ps, b, NO_RESET) && i < |ps| && j < |ps| && i != j
    requires Abs(newI) <= MAX_POSITION_ABS_Q && Abs(newJ) <= MAX_POSITION_ABS_Q
    requires !b.long.mode.ResetPending? && !b.short.mode.ResetPending?
    ensures Replaceable(ps[i], b)
    ensures var b1 := AttachedSides(ps[i], newI, b);
            && Replaceable(ps[j], b1)
            && RowsInv(ps[i := AttachedRow(newI, b)][j := AttachedRow(newJ, b)], AttachedSides(ps[j], newJ, b1),
                 NO_RESET)
  {
    hide EffAbs, SideInv, OrphansDust, OiShare, PosOk, AttachedSides, AttachedRow, EffectivePos, Replaceable;
    AttachKeepsRows(ps, b, i, newI);
    AttachedFrame(ps[i], newI, b, ps[j], newJ);
    AttachKeepsRows(ps[i := AttachedRow(newI, b)], AttachedSides(ps[i], newI, b), j, newJ);
  }

  /** The open interest of a side is at least what any two accounts hold on it. */
  lemma TwoSharesWithinOi(ps: seq<Position>, b: Sides, i: nat, j: nat)
    requires RowsInv(ps, b, NO_RESET) && i < |ps| && j < |ps| && i != j
    requires !b.long.mode.ResetPending? && !b.short.mode.ResetPending?
    ensures var oldI, oldJ := EffectivePos(ps[i], b), EffectivePos(ps[j], b);
            Pos(oldI) + Pos(oldJ) <= b.long.oi && Pos(-oldI) + Pos(-oldJ) <= b.short.oi
  {
    hide EffAbs, RowsInv, OrphansDust, OiShare, AttachedRow, EffectivePos;
    TwoAttachments(ps, b, i, j, 0, 0);
    AttachedFrame(ps[i], 0, b, ps[j], 0);
    EffectiveParts(ps[i], b);
    EffectiveParts(ps[j], b);
  }

  /** A trade keeps the book invariant: the two accounts' new sizes move the open
      interest of both sides by the same amount. */
  lemma TradeKeepsBook(ps: seq<Position>, b: Sides, i: nat, j: nat, newI: int, newJ: int, longOi: int, shortOi: int)
    requires BookInv(ps, b, NO_RESET) && i < |ps| && j < |ps| && i != j
    requires Abs(newI) <= MAX_POSITION_ABS_Q && Abs(newJ) <= MAX_POSITION_ABS_Q
    requires !b.long.mode.ResetPending? && !b.short.mode.ResetPending?
    requires newI + newJ == EffectivePos(ps[i], b) + EffectivePos(ps[j], b)
    requires longOi == b.long.oi - Pos(EffectivePos(ps[i], b)) - Pos(EffectivePos(ps[j], b)) + Pos(newI)
               + Pos(newJ) <= MAX_OI_SIDE_Q
    requires shortOi == b.short.oi - Pos(-EffectivePos(ps[i], b)) - Pos(-EffectivePos(ps[j], b)) + Pos(-newI)
               + Pos(-newJ)
    ensures Replaceable(ps[i], b) && longOi == shortOi >= 0
    ensures OnSide(ps[j], Long) ==> AttachedCounts(ps[i], newI, b).long.stored > 0
    ensures OnSide(ps[j], Short) ==> AttachedCounts(ps[i], newI, b).short.stored > 0
    ensures BookInv(ps[i := AttachedRow(newI, b)][j := AttachedRow(newJ, b)],
                    TradedSides(ps[i], ps[j], newI, newJ, b, longOi, shortOi), NO_RESET)
  {
    hide EffAbs, RowsInv, OrphansDust, OiShare, AttachedRow, EffectivePos, AttachedCounts;
    TwoAttachments(ps, b, i, j, newI, newJ);
    var b1 := AttachedSides(ps[i], newI, b);
    AttachedFrame(ps[i], newI, b, ps[j], newJ);
    EffectiveParts(ps[i], b);
    EffectiveParts(ps[j], b);
    TradedIsTwice(ps[i], ps[j], newI, newJ, b);
    var b2 := AttachedSides(ps[j], newJ, b1);
    assert b2.long.oi == longOi && b2.short.oi == shortOi;
  }
}
