// The lazy indices K and F: a side-wide event is one update of the side record,
// and each account collects it later with a single truncated division.  The
// theorems compare this with the eager scheme that would visit every account at
// every event.
module LazyIndex {
  import opened Arith
  import opened Market
  import opened Book
  import opened Adl

  const U256_MAX: nat := 0xFFFF_FFFF_FFFF_FFFF_FFFF_FFFF_FFFF_FFFF_FFFF_FFFF_FFFF_FFFF_FFFF_FFFF_FFFF_FFFF

  /** The combined move of both indices, over the common denominator FUNDING_DEN. */
  function Move(kSnap: int, kNow: int, fSnap: int, fNow: int): int {
    (kNow - kSnap) * FUNDING_DEN + (fNow - fSnap)
  }

  /** compute_kf_pnl_delta: sign and magnitude apart, one division, rounded away
      from zero when negative. */
  function KfPnlDelta(absBasis: nat, kSnap: int, kNow: int, fSnap: int, fNow: int, den: nat): Result<int>
    requires den > 0
  {
    var move := Move(kSnap, kNow, fSnap, fNow);
    if absBasis == 0 || move == 0 then Ok(0)
    else if absBasis * Abs(move) > U256_MAX then Err(Overflow)
    else
      var q, r := absBasis * Abs(move) / (den * FUNDING_DEN), absBasis * Abs(move) % (den * FUNDING_DEN);
      var mag := if move < 0 && r != 0 then q + 1 else q;
      if mag > I128_MAX then Err(Overflow)
      else Ok(if move < 0 then -mag else mag)
  }

  /** The same as one floor division over the integers. */
  function KfFloor(absBasis: nat, kSnap: int, kNow: int, fSnap: int, fNow: int, den: nat): int
    requires den > 0
  {
    FloorDiv(absBasis * Move(kSnap, kNow, fSnap, fNow), den * FUNDING_DEN)
  }

  lemma SignedFloor(b: nat, m: int, d: nat)
    requires d > 0
    ensures m >= 0 ==> FloorDiv(b * m, d) == (b * Abs(m)) / d
    ensures m < 0 ==> FloorDiv(b * m, d) == -((b * Abs(m)) / d + (if (b * Abs(m)) % d == 0 then 0 else 1))
  {
    if m < 0 {
      var n := b * Abs(m);
      assert b * m == -n;
      var q, r := n / d, n % d;
      assert n == q * d + r;
      var t := q + (if r == 0 then 0 else 1);
      assert -t * d <= -n < -t * d + d by {
        assert (q + 1) * d == q * d + d;
        assert -t * d == -(t * d);
      }
      FloorDivUnique(-n, d, -t);
    }
  }

  /** Settlement computes exactly the floor, and refuses exactly when the floor
      does not fit a signed 128-bit magnitude (or the product does not fit 256 bits,
      which no admissible position reaches). */
  lemma KfPnlDeltaIsFloor(absBasis: nat, kSnap: int, kNow: int, fSnap: int, fNow: int, den: nat)
    requires den > 0
    requires absBasis * Abs(Move(kSnap, kNow, fSnap, fNow)) <= U256_MAX
    ensures var q := KfFloor(absBasis, kSnap, kNow, fSnap, fNow, den);
            KfPnlDelta(absBasis, kSnap, kNow, fSnap, fNow, den) == (if Abs(q) <= I128_MAX then Ok(q) else Err(Overflow))
  {
    var m, d := Move(kSnap, kNow, fSnap, fNow), den * FUNDING_DEN;
    assert d > 0;
    if absBasis == 0 || m == 0 {
      assert absBasis * m == 0;
      FloorDivUnique(0, d, 0);
    } else {
      SignedFloor(absBasis, m, d);
      QuotientNonNegative(absBasis * Abs(m), d);
    }
  }

  lemma QuotientNonNegative(n: nat, d: nat)
    requires d > 0
    ensures n / d >= 0
  {
  }

  /** Indices that fit their width keep the product far below 256 bits for every
      position the engine admits. */
  lemma AdmissibleProductFits(absBasis: nat, kSnap: int, kNow: int, fSnap: int, fNow: int)
    requires absBasis <= MAX_POSITION_ABS_Q
    requires IsI128(kSnap) && IsI128(fSnap) && IsI128(fNow)
    requires -2 * I128_MAX - 2 <= kNow <= 2 * I128_MAX
    ensures absBasis * Abs(Move(kSnap, kNow, fSnap, fNow)) <= U256_MAX
  {
    var m := Abs(Move(kSnap, kNow, fSnap, fNow));
    assert m <= 4 * (I128_MAX + 1) * FUNDING_DEN;
    MulMono(absBasis, MAX_POSITION_ABS_Q, m);
    assert MAX_POSITION_ABS_Q * (4 * (I128_MAX + 1) * FUNDING_DEN) <= U256_MAX;
  }

  /** What settling a row is worth: against the live indices in its own epoch,
      against the parked ones after a reset. */
  function SettleDelta(p: Position, b: Sides): Result<int> {
    if p.basis == 0 then Ok(0)
    else if p.aBasis == 0 then Err(CorruptState)
    else
      var s := b.Get(SideOf(p));
      if p.epochSnap == s.epoch then
        KfPnlDelta(Abs(p.basis), p.kSnap, s.k, p.fSnap, s.f, p.aBasis * POS_SCALE)
      else
        KfPnlDelta(Abs(p.basis), p.kSnap, s.kStart, p.fSnap, s.fStart, p.aBasis * POS_SCALE)
  }

  lemma SettleDeltaInRange(p: Position, b: Sides)
    requires p.basis != 0 ==> p.aBasis > 0
    ensures SettleDelta(p, b).Ok? ==> Abs(SettleDelta(p, b).value) <= I128_MAX
    ensures SettleDelta(p, b).Err? ==> SettleDelta(p, b).error == Overflow
  {
    hide Move;
    if p.basis != 0 {
      var s := b.Get(SideOf(p));
      KfPnlDeltaInRange(Abs(p.basis), p.kSnap, s.k, p.fSnap, s.f, p.aBasis * POS_SCALE);
      KfPnlDeltaInRange(Abs(p.basis), p.kSnap, s.kStart, p.fSnap, s.fStart, p.aBasis * POS_SCALE);
    }
  }

  lemma KfPnlDeltaInRange(absBasis: nat, kSnap: int, kNow: int, fSnap: int, fNow: int, den: nat)
    requires den > 0
    ensures var r := KfPnlDelta(absBasis, kSnap, kNow, fSnap, fNow, den);
            if r.Ok? then Abs(r.value) <= I128_MAX else r.error == Overflow
  {
    hide Move;
    var move := Move(kSnap, kNow, fSnap, fNow);
    var q, r := absBasis * Abs(move) / (den * FUNDING_DEN), absBasis * Abs(move) % (den * FUNDING_DEN);
    QuotientNonNegative(absBasis * Abs(move), den * FUNDING_DEN);
    InRangeCore(q, r, move);
  }

  lemma InRangeCore(q: int, r: int, move: int)
    requires q >= 0
    ensures var mag := if move < 0 && r != 0 then q + 1 else q;
            mag >= 0 && (mag <= I128_MAX ==> Abs(if move < 0 then -mag else mag) <= I128_MAX)
  {
  }

  /** `gain` is what the indices of a row's side have moved since its snapshots, on its
      basis and rounded down: the live ones in its own epoch, the parked ones later. */
  predicate RowGains(gain: int, p: Position, b: Sides) {
    var s := b.Get(SideOf(p));
    var k, f := if p.epochSnap == s.epoch then s.k else s.kStart, if p.epochSnap == s.epoch then s.f else s.fStart;
    IsFloor(gain, Abs(p.basis) * ((k - p.kSnap) * FUNDING_DEN + (f - p.fSnap)), p.aBasis * POS_SCALE * FUNDING_DEN)
  }

  lemma SettleDeltaMeans(p: Position, b: Sides)
    requires p.basis != 0 && SettleDelta(p, b).Ok?
    ensures RowGains(SettleDelta(p, b).value, p, b)
  {
    hide KfPnlDelta, FloorDiv;
    var s := b.Get(SideOf(p));
    var k, f := if p.epochSnap == s.epoch then s.k else s.kStart, if p.epochSnap == s.epoch then s.f else s.fStart;
    var den := p.aBasis * POS_SCALE;
    OkFits(Abs(p.basis), p.kSnap, k, p.fSnap, f, den);
    KfPnlDeltaIsFloor(Abs(p.basis), p.kSnap, k, p.fSnap, f, den);
    FloorIsFloor(Abs(p.basis) * Move(p.kSnap, k, p.fSnap, f), den * FUNDING_DEN);
  }

  lemma OkFits(absBasis: nat, kSnap: int, kNow: int, fSnap: int, fNow: int, den: nat)
    requires den > 0 && KfPnlDelta(absBasis, kSnap, kNow, fSnap, fNow, den).Ok?
    ensures absBasis * Abs(Move(kSnap, kNow, fSnap, fNow)) <= U256_MAX
  {
    var move := Move(kSnap, kNow, fSnap, fNow);
    if absBasis == 0 || move == 0 {
      assert absBasis * Abs(move) == 0;
    }
  }

  // ---- lazy settlement refines eager settlement ----

  /** The three numbers of a side record that settlement reads. */
  datatype Index = Index(a: nat, k: int, f: int)

  /** A side-wide event within one epoch.  `Fund` carries price * rate * slots. */
  datatype Event = Mark(dp: int) | Fund(num: int) | Deficit(dk: nat) | Shrink(a': nat)

  /** `x` for a long, `-x` for a short. */
  function Signed(side: Side, x: int): int {
    if side.Long? then x else -x
  }

  /** What the engine does: one update of the side. */
  function Apply(side: Side, x: Index, e: Event): Index {
    match e
    case Mark(dp) => x.(k := x.k + Signed(side, x.a * dp))
    case Fund(num) => x.(f := x.f - Signed(side, x.a * num))
    case Deficit(dk) => x.(k := x.k - dk)
    case Shrink(a') => x.(a := a')
  }

  function Run(side: Side, x: Index, es: seq<Event>): Index
    decreases |es|
  {
    if es == [] then x else Run(side, Apply(side, x, es[0]), es[1..])
  }

  /** Position size in quote per unit of price: |basis| * A / a_basis / POS_SCALE. */
  ghost function Size(b: nat, aBasis: nat, a: nat): real
    requires aBasis > 0
  {
    b as real * a as real / (aBasis as real * POS_SCALE as real)
  }

  /** What an eager engine would book for this position at this event, untruncated:
      the price move on the current size, the funding on the current size, and the
      deficit in proportion to the current size. */
  ghost function EagerPnl(side: Side, b: nat, aBasis: nat, x: Index, e: Event): real
    requires aBasis > 0 && x.a > 0
  {
    match e
    case Mark(dp) => Size(b, aBasis, x.a) * Signed(side, dp) as real
    case Fund(num) => Size(b, aBasis, x.a) * Signed(side, -num) as real / FUNDING_DEN as real
    case Deficit(dk) => Size(b, aBasis, x.a) * (-(dk as real) / x.a as real)
    case Shrink(_) => 0.0
  }

  ghost predicate PositiveShrinks(es: seq<Event>) {
    forall e | e in es :: e.Shrink? ==> e.a' > 0
  }

  ghost function EagerTotal(side: Side, b: nat, aBasis: nat, x: Index, es: seq<Event>): real
    requires aBasis > 0 && x.a > 0 && PositiveShrinks(es)
    decreases |es|
  {
    if es == [] then 0.0
    else EagerPnl(side, b, aBasis, x, es[0]) + EagerTotal(side, b, aBasis, Apply(side, x, es[0]), es[1..])
  }

  /** The untruncated value of an index move for a position. */
  ghost function Exact(b: nat, aBasis: nat, move: int): real
    requires aBasis > 0
  {
    b as real * move as real / (aBasis as real * POS_SCALE as real * FUNDING_DEN as real)
  }

  lemma ExactAdds(b: nat, aBasis: nat, m: int, n: int)
    requires aBasis > 0
    ensures Exact(b, aBasis, m + n) == Exact(b, aBasis, m) + Exact(b, aBasis, n)
    ensures Exact(b, aBasis, 0) == 0.0
  {
    DivideSum(b as real * m as real, b as real * n as real, aBasis as real * POS_SCALE as real * FUNDING_DEN as real);
    assert b as real * (m + n) as real == b as real * m as real + b as real * n as real;
  }

  /** One event moves the indices by exactly its eager PnL. */
  lemma OneEvent(side: Side, b: nat, aBasis: nat, x: Index, e: Event)
    requires aBasis > 0 && x.a > 0
    ensures var y := Apply(side, x, e);
            Exact(b, aBasis, Move(x.k, y.k, x.f, y.f)) == EagerPnl(side, b, aBasis, x, e)
  {
    hide Exact, Size;
    var y := Apply(side, x, e);
    match e
    case Mark(dp) =>
      SignedProduct(side, x.a, dp);
      MarkEvent(b, x.a, aBasis, Signed(side, dp));
      assert y.k - x.k == x.a * Signed(side, dp);
    case Fund(num) =>
      SignedProduct(side, x.a, num);
      SignedProduct(side, x.a, -num);
      FundEvent(b, x.a, aBasis, Signed(side, -num));
      assert y.f - x.f == x.a * Signed(side, -num);
    case Deficit(dk) =>
      DeficitEvent(b, x.a, aBasis, dk);
    case Shrink(_) =>
      ExactAdds(b, aBasis, 0, 0);
  }

  lemma SignedProduct(side: Side, a: int, x: int)
    ensures Signed(side, a * x) == a * Signed(side, x)
    ensures a * -x == -(a * x)
  {
  }

  lemma MarkEvent(b: nat, a: nat, aBasis: nat, t: int)
    requires aBasis > 0
    ensures Exact(b, aBasis, a * t * FUNDING_DEN) == Size(b, aBasis, a) * t as real
  {
    var B, A, D, F, T := b as real, a as real, aBasis as real * POS_SCALE as real, FUNDING_DEN as real, t as real;
    assert (a * t * FUNDING_DEN) as real == A * T * F;
    assert B * (A * T * F) == B * A * T * F;
    Cancel(B * A * T, F, D);
    MoveDivisor(B * A, T, D);
  }

  lemma FundEvent(b: nat, a: nat, aBasis: nat, t: int)
    requires aBasis > 0
    ensures Exact(b, aBasis, a * t) == Size(b, aBasis, a) * t as real / FUNDING_DEN as real
  {
    var B, A, D, F, T := b as real, a as real, aBasis as real * POS_SCALE as real, FUNDING_DEN as real, t as real;
    assert (a * t) as real == A * T;
    assert B * (A * T) == B * A * T;
    MoveDivisor(B * A, T, D);
    DivideTwice(B * A * T, D, F);
  }

  lemma DeficitEvent(b: nat, a: nat, aBasis: nat, dk: nat)
    requires aBasis > 0 && a > 0
    ensures Exact(b, aBasis, (0 - dk) * FUNDING_DEN) == Size(b, aBasis, a) * (-(dk as real) / a as real)
  {
    var B, A, D, F, T := b as real, a as real, aBasis as real * POS_SCALE as real, FUNDING_DEN as real, -(dk as real);
    assert ((0 - dk) * FUNDING_DEN) as real == T * F;
    assert B * (T * F) == B * T * F;
    Cancel(B * T, F, D);
    CancelInner(B, A, T, D);
  }

  lemma Cancel(n: real, f: real, d: real)
    requires f > 0.0 && d > 0.0
    ensures n * f / (d * f) == n / d
  {
    var q := n / d;
    assert q * d == n;
    assert q * (d * f) == n * f;
  }

  lemma MoveDivisor(n: real, t: real, d: real)
    requires d > 0.0
    ensures n * t / d == n / d * t
  {
    var q := n / d;
    assert q * d == n;
    assert (q * t) * d == n * t;
  }

  lemma DivideTwice(n: real, d: real, f: real)
    requires d > 0.0 && f > 0.0
    ensures n / (d * f) == n / d / f
  {
    var q := n / d / f;
    assert q * f == n / d;
    assert q * f * d == n;
    assert q * (d * f) == n;
  }

  lemma CancelInner(b: real, a: real, t: real, d: real)
    requires a > 0.0 && d > 0.0
    ensures b * t / d == b * a / d * (t / a)
  {
    var q, r := b * a / d, t / a;
    assert q * d == b * a && r * a == t;
    assert (q * r) * d * a == b * a * t;
    assert (q * r) * d == b * t;
  }

  /** Over a whole run the indices move by exactly the sum of the eager PnLs. */
  lemma {:induction false} RunMovesByEagerTotal(side: Side, b: nat, aBasis: nat, x: Index, es: seq<Event>)
    requires aBasis > 0 && x.a > 0 && PositiveShrinks(es)
    ensures var y := Run(side, x, es);
            Exact(b, aBasis, Move(x.k, y.k, x.f, y.f)) == EagerTotal(side, b, aBasis, x, es)
    decreases |es|
  {
    if es == [] {
      ExactAdds(b, aBasis, 0, 0);
    } else {
      hide Exact, EagerPnl;
      var x1, y := Apply(side, x, es[0]), Run(side, x, es);
      assert es[0] in es && forall e | e in es[1..] :: e in es;
      OneEvent(side, b, aBasis, x, es[0]);
      RunMovesByEagerTotal(side, b, aBasis, x1, es[1..]);
      assert Move(x.k, y.k, x.f, y.f) == Move(x.k, x1.k, x.f, x1.f) + Move(x1.k, y.k, x1.f, y.f);
      ExactAdds(b, aBasis, Move(x.k, x1.k, x.f, x1.f), Move(x1.k, y.k, x1.f, y.f));
    }
  }

  lemma FloorOfQuotient(n: int, d: nat)
    requires d > 0
    ensures FloorDiv(n, d) == (n as real / d as real).Floor
  {
    FloorDivBounds(n, d);
    var q, x := FloorDiv(n, d), n as real / d as real;
    assert x * d as real == n as real;
    assert q as real * d as real <= x * d as real;
    assert q as real <= x;
    assert x * d as real < (q + 1) as real * d as real;
    assert x < (q + 1) as real;
  }

  /** Main result: for any run of marks, funding, deficits and shrinks within an
      epoch, what an untouched position settles for is the floor of what an eager
      engine would have booked event by event on the shrinking exact position. */
  lemma LazyRefinesEager(side: Side, b: nat, aBasis: nat, x: Index, es: seq<Event>)
    requires aBasis > 0 && x.a > 0 && PositiveShrinks(es)
    ensures var y := Run(side, x, es);
            KfFloor(b, x.k, y.k, x.f, y.f, aBasis * POS_SCALE) == EagerTotal(side, b, aBasis, x, es).Floor
  {
    hide EagerTotal, Run, Exact, KfFloor;
    var y := Run(side, x, es);
    RunMovesByEagerTotal(side, b, aBasis, x, es);
    ExactFloor(b, aBasis, x, y);
  }

  lemma ExactFloor(b: nat, aBasis: nat, x: Index, y: Index)
    requires aBasis > 0
    ensures KfFloor(b, x.k, y.k, x.f, y.f, aBasis * POS_SCALE) == Exact(b, aBasis, Move(x.k, y.k, x.f, y.f)).Floor
  {
    hide Move, FloorDiv;
    var m, d := Move(x.k, y.k, x.f, y.f), aBasis * POS_SCALE;
    CastProduct(b, m);
    CastProduct(aBasis, POS_SCALE);
    CastProduct(d, FUNDING_DEN);
    QuotientFloor(KfFloor(b, x.k, y.k, x.f, y.f, d), Exact(b, aBasis, m), b * m, d * FUNDING_DEN,
                  b as real * m as real, aBasis as real * POS_SCALE as real * FUNDING_DEN as real);
  }

  lemma CastProduct(x: int, y: int)
    ensures (x * y) as real == x as real * y as real
  {
  }

  lemma QuotientFloor(floor: int, exact: real, n: int, d: int, nr: real, dr: real)
    requires d > 0 && n as real == nr && d as real == dr
    requires floor == FloorDiv(n, d) && exact == nr / dr
    ensures floor == exact.Floor
  {
    FloorOfQuotient(n, d);
  }

  // ---- touching often never gains ----

  /** What a position collects when it is settled at each of a series of index
      readings instead of only at the last. */
  function Collected(b: nat, den: nat, readings: seq<Index>): int
    requires den > 0 && |readings| >= 1
  {
    var n := |readings| - 1;
    if n == 0 then 0
    else
      Collected(b, den, readings[..n])
      + KfFloor(b, readings[n - 1].k, readings[n].k, readings[n - 1].f, readings[n].f, den)
  }

  lemma FloorsAdd(x: int, y: int, d: int)
    requires d > 0
    ensures FloorDiv(x, d) + FloorDiv(y, d) <= FloorDiv(x + y, d) <= FloorDiv(x, d) + FloorDiv(y, d) + 1
  {
    var p, q, r := FloorDiv(x, d), FloorDiv(y, d), FloorDiv(x + y, d);
    FloorDivBounds(x, d);
    FloorDivBounds(y, d);
    FloorDivBounds(x + y, d);
    assert (p + q) * d == p * d + q * d;
    assert (p + q + 1) * d == p * d + q * d + d;
    QuotientOrder(p + q, r, x + y, x + y, d);
    QuotientOrder(r, p + q + 1, x + y, x + y, d);
  }

  /** Settling at a reading in between gives the same, or one unit less. */
  lemma SplitFloor(b: nat, den: nat, first: Index, mid: Index, last: Index)
    requires den > 0
    ensures var parts := KfFloor(b, first.k, mid.k, first.f, mid.f, den)
              + KfFloor(b, mid.k, last.k, mid.f, last.f, den);
            parts <= KfFloor(b, first.k, last.k, first.f, last.f, den) <= parts + 1
  {
    hide FloorDiv;
    var m1, m2 := Move(first.k, mid.k, first.f, mid.f), Move(mid.k, last.k, mid.f, last.f);
    assert Move(first.k, last.k, first.f, last.f) == m1 + m2;
    assert b * (m1 + m2) == b * m1 + b * m2;
    assert den * FUNDING_DEN > 0;
    FloorsAdd(b * m1, b * m2, den * FUNDING_DEN);
  }

  /** n settlements collect at most what one settlement would, and fall short of it
      by at most n - 1 units. */
  lemma {:induction false} TouchingOftenNeverGains(b: nat, den: nat, readings: seq<Index>)
    requires den > 0 && |readings| >= 2
    ensures var first, last := readings[0], readings[|readings| - 1];
            var once := KfFloor(b, first.k, last.k, first.f, last.f, den);
            Collected(b, den, readings) <= once <= Collected(b, den, readings) + (|readings| - 2)
  {
    hide KfFloor;
    var n := |readings| - 1;
    if n == 1 {
      assert Collected(b, den, readings[..1]) == 0;
    } else {
      TouchingOftenNeverGains(b, den, readings[..n]);
      SplitFloor(b, den, readings[0], readings[n - 1], readings[n]);
    }
  }
}
