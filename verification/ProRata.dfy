// A deficit written into K is shared by the opposing positions in proportion to
// their exact sizes, up to the truncations of K and of each account's PnL.
module ProRata {
  import opened Arith
  import opened Market
  import opened Sums
  import opened Book
  import opened Adl
  import opened LazyIndex

  /** What a current holder loses to a deficit that lowers K by `dk`. */
  function Loss(p: Position, k: int, dk: nat): int
    requires p.aBasis > 0
  {
    -KfFloor(Abs(p.basis), k, k - dk, p.fSnap, p.fSnap, p.aBasis * POS_SCALE)
  }

  /** The exact effective position |basis| * A / a_basis. */
  ghost function ExactSize(p: Position, a: nat): real
    requires p.aBasis > 0
  {
    Scaled(Abs(p.basis) as real / p.aBasis as real, a)
  }

  lemma LossBounds(b: nat, aBasis: nat, k: int, f: int, dk: nat)
    requires aBasis > 0
    ensures var loss := -KfFloor(b, k, k - dk, f, f, aBasis * POS_SCALE);
            loss * (aBasis * POS_SCALE) - aBasis * POS_SCALE < b * dk <= loss * (aBasis * POS_SCALE)
  {
    var d := aBasis * POS_SCALE * FUNDING_DEN;
    var q := KfFloor(b, k, k - dk, f, f, aBasis * POS_SCALE);
    FloorDivBounds(b * Move(k, k - dk, f, f), d);
    assert Move(k, k - dk, f, f) == -(dk * FUNDING_DEN);
    assert b * -(dk * FUNDING_DEN) == -(b * dk) * FUNDING_DEN;
    assert q * d == q * (aBasis * POS_SCALE) * FUNDING_DEN;
  }

  /** delta_K over-charges the deficit by less than one unit of K. */
  lemma DeficitKBounds(d: nat, a: nat, oi: nat)
    requires oi > 0
    ensures DeficitK(d, a, oi) * oi - oi < d * (a * POS_SCALE) <= DeficitK(d, a, oi) * oi
  {
    CeilDivBounds(d * (a * POS_SCALE), oi);
  }

  // ---- the arithmetic core: loss = ceil(w * dk / p), dk = ceil(d * a * p / oi) ----

  lemma Between(n: real, d: real, q: real, gap: real)
    requires d > 0.0
    requires q * d - gap < n <= q * d
    ensures n / d <= q < n / d + gap / d
  {
    var x, y := n / d, gap / d;
    assert x * d == n && y * d == gap;
    assert (x + y) * d == n + gap;
    RealCancelLe(x, q, d);
    RealCancelLt(q, x + y, d);
  }

  lemma PartOf(w: real, e: real, v: real)
    requires w >= 0.0 && 0.0 <= e < 1.0 && v == w * e
    ensures 0.0 <= v <= w
  {
    var u := 1.0 - e;
    RealNonNegative(w, e);
    RealNonNegative(w, u);
    RealDistributes(w, e, u);
    assert e + u == 1.0;
  }

  lemma ScaleBetween(t: real, dk: real, w: real, wt: real, z: real)
    requires w >= 0.0 && t <= dk < t + 1.0
    requires wt == w * t && z == w * dk
    ensures wt <= z <= wt + w
  {
    var e := dk - t;
    var v := w * e;
    PartOf(w, e, v);
    RealDistributes(w, t, e);
    assert t + e == dk;
  }

  lemma SameShareCore(w: real, a: real, d: real, oi: real, p: real, t: real, x: real)
    requires oi > 0.0
    requires x * oi == w * a * d
    requires t * oi == d * (a * p)
    ensures w * t == x * p
  {
    var l, r := w * t, x * p;
    assert l * oi == w * (t * oi);
    assert r * oi == (x * oi) * p;
    assert w * (d * (a * p)) == (w * a * d) * p;
    assert (l - r) * oi == 0.0;
  }

  lemma SameShare(w: real, a: real, d: real, oi: real, p: real, t: real)
    requires oi > 0.0 && p > 0.0 && a > 0.0
    requires t == d * (a * p) / oi
    ensures w * t / p == w * a * d / oi
    ensures w * a / (a * p) == w / p
  {
    var x := w * a * d / oi;
    assert x * oi == w * a * d;
    assert t * oi == d * (a * p);
    SameShareCore(w, a, d, oi, p, t, x);
    assert (x * p) / p == x;
    Cancel(w, a, p);
    assert p * a == a * p;
  }

  lemma LossAgainstShare(w: real, wt: real, z: real, loss: real, p: real)
    requires p > 0.0
    requires wt <= z <= wt + w
    requires loss * p - p < z <= loss * p
    ensures wt / p <= loss <= wt / p + w / p + 1.0
  {
    QuotientMono(wt, z, p);
    QuotientMono(z, wt + w, p);
    DivideSum(wt, w, p);
    Between(z, p, loss, p);
    assert p / p == 1.0;
  }

  lemma LossBetween(w: real, t: real, dk: real, loss: real, p: real)
    requires w >= 0.0 && p > 0.0
    requires t <= dk < t + 1.0
    requires loss * p - p < w * dk <= loss * p
    ensures w * t / p <= loss <= w * t / p + w / p + 1.0
  {
    var wt, z := w * t, w * dk;
    ScaleBetween(t, dk, w, wt, z);
    LossAgainstShare(w, wt, z, loss, p);
  }

  lemma ShareBounds(w: real, a: real, d: real, oi: real, dk: real, loss: real, p: real)
    requires w >= 0.0 && a > 0.0 && oi > 0.0 && p > 0.0
    requires dk * oi - oi < d * (a * p) <= dk * oi
    requires loss * p - p < w * dk <= loss * p
    ensures w * a * d / oi <= loss <= w * a * d / oi + w * a / (a * p) + 1.0
  {
    Between(d * (a * p), oi, dk, oi);
    assert oi / oi == 1.0;
    var t := d * (a * p) / oi;
    SameShare(w, a, d, oi, p, t);
    LossBetween(w, t, dk, loss, p);
  }

  // ---- one account ----

  /** The exact part of a deficit `d` that falls on size `r` out of `oi`. */
  ghost function Prorated(r: real, d: nat, oi: nat): real
    requires oi > 0
  {
    r * d as real / oi as real
  }

  /** What rounding K up by less than one unit can cost a size `r`. */
  ghost function KRounding(r: real, a: nat): real
    requires a > 0
  {
    r / (a as real * POS_SCALE as real)
  }

  /** Each opposing account pays its exact share, at most rounded up by one unit and
      by its share of the rounding of K. */
  lemma AccountPaysItsShare(p: Position, k: int, a: nat, oi: nat, d: nat)
    requires p.aBasis > 0 && a > 0 && oi > 0
    ensures var loss, r := Loss(p, k, DeficitK(d, a, oi)) as real, ExactSize(p, a);
            Prorated(r, d, oi) <= loss <= Prorated(r, d, oi) + KRounding(r, a) + 1.0
  {
    hide DeficitK, Loss, Prorated, KRounding, Scaled;
    var b, dk := Abs(p.basis), DeficitK(d, a, oi);
    var loss := Loss(p, k, dk);
    LossHypotheses(p, k, dk);
    DeficitKBounds(d, a, oi);
    RealDeficit(d, a, oi, dk);
    var w := b as real / p.aBasis as real;
    RealLoss(b, p.aBasis, w, dk, loss);
    NamedShareBounds(w, a, d, oi, dk, loss);
  }

  lemma NamedShareBounds(w: real, a: nat, d: nat, oi: nat, dk: nat, loss: int)
    requires w >= 0.0 && a > 0 && oi > 0
    requires dk as real * oi as real
               - oi as real < d as real * (a as real * POS_SCALE as real) <= dk as real * oi as real
    requires loss as real * POS_SCALE as real - POS_SCALE as real < w * dk as real <= loss as real * POS_SCALE as real
    ensures var r := Scaled(w, a);
            Prorated(r, d, oi) <= loss as real <= Prorated(r, d, oi) + KRounding(r, a) + 1.0
  {
    hide Prorated, KRounding, Scaled;
    var x, y := Prorated(Scaled(w, a), d, oi), KRounding(Scaled(w, a), a);
    UnfoldShare(w, a, d, oi);
    BoundsOf(w, a as real, d as real, oi as real, dk as real, loss as real, POS_SCALE as real, x, y);
  }

  lemma BoundsOf(w: real, a: real, d: real, oi: real, dk: real, loss: real, p: real, x: real, y: real)
    requires w >= 0.0 && a > 0.0 && oi > 0.0 && p > 0.0
    requires dk * oi - oi < d * (a * p) <= dk * oi
    requires loss * p - p < w * dk <= loss * p
    requires x == w * a * d / oi && y == w * a / (a * p)
    ensures x <= loss <= x + y + 1.0
  {
    ShareBounds(w, a, d, oi, dk, loss, p);
  }

  lemma UnfoldShare(w: real, a: nat, d: nat, oi: nat)
    requires a > 0 && oi > 0
    ensures Prorated(Scaled(w, a), d, oi) == w * a as real * d as real / oi as real
    ensures KRounding(Scaled(w, a), a) == w * a as real / (a as real * POS_SCALE as real)
  {
  }

  lemma LossHypotheses(p: Position, k: int, dk: nat)
    requires p.aBasis > 0
    ensures var loss, d := Loss(p, k, dk), p.aBasis * POS_SCALE;
            loss * d - d < Abs(p.basis) * dk <= loss * d
  {
    hide KfFloor;
    LossBounds(Abs(p.basis), p.aBasis, k, p.fSnap, dk);
  }

  lemma RealDeficit(d: nat, a: nat, oi: nat, dk: nat)
    requires dk * oi - oi < d * (a * POS_SCALE) <= dk * oi
    ensures dk as real * oi as real
              - oi as real < d as real * (a as real * POS_SCALE as real) <= dk as real * oi as real
  {
    assert (dk * oi) as real == dk as real * oi as real;
    assert (d * (a * POS_SCALE)) as real == d as real * (a as real * POS_SCALE as real);
  }

  lemma RealLoss(b: nat, aBasis: nat, w: real, dk: nat, loss: int)
    requires aBasis > 0 && w == b as real / aBasis as real
    requires loss * (aBasis * POS_SCALE) - aBasis * POS_SCALE < b * dk <= loss * (aBasis * POS_SCALE)
    ensures w >= 0.0
    ensures loss as real * POS_SCALE as real - POS_SCALE as real < w * dk as real <= loss as real * POS_SCALE as real
  {
    var D, P, x, y := aBasis as real, POS_SCALE as real, w * dk as real, loss as real * POS_SCALE as real;
    assert w * D == b as real;
    Commute(w, D, dk as real);
    assert (b * dk) as real == b as real * dk as real;
    assert (loss * (aBasis * POS_SCALE)) as real == y * D;
    assert (aBasis * POS_SCALE) as real == P * D;
    assert y * D - P * D < x * D <= y * D;
    assert (y - P) * D == y * D - P * D;
    RealCancelLe(x, y, D);
    RealCancelLt(y - P, x, D);
  }

  lemma Commute(w: real, d: real, k: real)
    ensures w * d * k == w * k * d
  {
  }

  // ---- the whole side ----

  ghost function LossTerm(side: Side, epoch: nat, k: int, dk: nat): Position -> int {
    (p: Position) => if Current(p, side, epoch) && p.aBasis > 0 then Loss(p, k, dk) else 0
  }

  /** The total that a side's current positions lose to a deficit `d`. */
  ghost function SideLoss(ps: seq<Position>, side: Side, s: SideState, d: nat): int
    requires s.oi > 0
  {
    Sum(ps, LossTerm(side, s.epoch, s.k, DeficitK(d, s.a, s.oi)))
  }

  lemma RowLossBounds(p: Position, side: Side, s: SideState, d: nat)
    requires s.a > 0 && s.oi > 0
    ensures var loss := LossTerm(side, s.epoch, s.k, DeficitK(d, s.a, s.oi))(p) as real;
            var r := Scaled(WeightTerm(side, s.epoch)(p), s.a);
            Prorated(r, d, s.oi) <= loss <= Prorated(r, d, s.oi) + KRounding(r, s.a) + CountTerm(side)(p) as real
  {
    hide Loss, DeficitK, Prorated, KRounding;
    if Current(p, side, s.epoch) && p.aBasis > 0 {
      AccountPaysItsShare(p, s.k, s.a, s.oi, d);
    } else {
      NothingOfNothing(d, s.oi, s.a);
    }
  }

  lemma NothingOfNothing(d: nat, oi: nat, a: nat)
    requires a > 0 && oi > 0
    ensures Scaled(0.0, a) == 0.0 && Prorated(0.0, d, oi) == 0.0 && KRounding(0.0, a) == 0.0
  {
  }

  lemma AddShares(x: real, y: real, d: nat, oi: nat, a: nat)
    requires oi > 0 && a > 0
    ensures Prorated(x + y, d, oi) == Prorated(x, d, oi) + Prorated(y, d, oi)
    ensures KRounding(x + y, a) == KRounding(x, a) + KRounding(y, a)
  {
    assert (x + y) * d as real == x * d as real + y * d as real;
    DivideSum(x * d as real, y * d as real, oi as real);
    DivideSum(x, y, a as real * POS_SCALE as real);
  }

  /** Summed over the table: the exact pro-rata total, plus at most one unit per
      account and the rounding of K. */
  lemma {:induction false} SideLossBounds(ps: seq<Position>, side: Side, s: SideState, d: nat)
    requires s.a > 0 && s.oi > 0
    ensures var total, r := SideLoss(ps, side, s, d) as real, Scaled(Weights(ps, side, s), s.a);
            Prorated(r, d, s.oi) <= total <= Prorated(r, d, s.oi) + KRounding(r, s.a) + Count(ps, side) as real
  {
    hide Scaled, DeficitK, WeightTerm, LossTerm, CountTerm, Prorated, KRounding;
    if ps == [] {
      NothingOfNothing(d, s.oi, s.a);
    } else {
      var n := |ps| - 1;
      SideLossBounds(ps[..n], side, s, d);
      RowLossBounds(ps[n], side, s, d);
      var x, y := SumReal(ps[..n], WeightTerm(side, s.epoch)), WeightTerm(side, s.epoch)(ps[n]);
      ScaledReplace(x, 0.0, y, s.a);
      AddShares(Scaled(x, s.a), Scaled(y, s.a), d, s.oi, s.a);
    }
  }

  /** Main result: the opposing side together pays at least the deficit times the
      fraction of open interest that real positions hold, and at most the deficit
      plus one unit per account plus OI / (A * POS_SCALE). */
  lemma DeficitSharedProRata(ps: seq<Position>, side: Side, s: SideState, d: nat)
    requires SideInv(ps, side, s, false) && s.oi > 0
    ensures var total, r := SideLoss(ps, side, s, d) as real, Scaled(Weights(ps, side, s), s.a);
            && Prorated(r, d, s.oi) <= total
            && total <= d as real + s.stored as real + KRounding(s.oi as real, s.a)
  {
    hide Scaled, DeficitK, WeightTerm, LossTerm, CountTerm, Explained, Prorated, KRounding, SideLoss, Count,
      Weights;
    SideLossBounds(ps, side, s, d);
    FractionOfDeficit(Scaled(Weights(ps, side, s), s.a), s.oi, d, s.a);
  }

  lemma FractionOfDeficit(r: real, oi: nat, d: nat, a: nat)
    requires r <= oi as real && oi > 0 && a > 0
    ensures Prorated(r, d, oi) <= d as real
    ensures KRounding(r, a) <= KRounding(oi as real, a)
  {
    RealMulLe(r, oi as real, d as real);
    QuotientBelow(r * d as real, oi as real, d as real);
    QuotientMono(r, oi as real, a as real * POS_SCALE as real);
  }
}
