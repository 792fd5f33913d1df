// 256-bit signed arithmetic in two's complement, and exactly where its multiplication
// is not exact.
module Signed256 {
  import opened Arith
  import opened Market
  import opened Options
  import opened Words
  import W = Wide256

  /** 2^127 and 2^255. */
  const TOP_BIT: nat := 0x8000_0000_0000_0000_0000_0000_0000_0000
  const HALF_RANGE: nat := 0x8000_0000_0000_0000_0000_0000_0000_0000_0000_0000_0000_0000_0000_0000_0000_0000

  datatype I256 = I256(raw: W.U256) {
    predicate IsNegative() {
      raw.hi >= TOP_BIT
    }

    predicate IsZero() {
      raw.IsZero()
    }

    function Value(): int {
      if IsNegative() then raw.Value() - W.SQUARE else raw.Value()
    }
  }

  const ZERO := I256(W.ZERO)
  const ONE := I256(W.ONE)
  const MINUS_ONE := I256(W.MAX)
  const MIN := I256(W.U256(0, TOP_BIT))

  predicate Representable(v: int) {
    -(HALF_RANGE as int) <= v < HALF_RANGE
  }

  lemma ValueRange(x: I256)
    ensures Representable(x.Value())
    ensures x.IsNegative() <==> x.Value() < 0
    ensures x.IsNegative() <==> x.raw.Value() >= HALF_RANGE
    ensures x.IsZero() <==> x.Value() == 0
    ensures x == MIN <==> x.Value() == -(HALF_RANGE as int)
    ensures x == ONE <==> x.Value() == 1
    ensures x == MINUS_ONE <==> x.Value() == -1
  {
    W.ValueRange(x.raw);
  }

  function Not(x: word): word {
    BASE - 1 - x
  }

  /** Flip all bits and add one. */
  function Negated(x: W.U256): W.U256 {
    var (lo, carry) := OverflowingAdd(Not(x.lo), 1);
    var (hi, _) := OverflowingAdd(Not(x.hi), Bit(carry));
    W.U256(lo, hi)
  }

  lemma NegatedValue(x: W.U256)
    ensures Negated(x).Value() == if x.Value() == 0 then 0 else W.SQUARE - x.Value()
  {
  }

  /** The magnitude; the source aborts on MIN. */
  function AbsU256(x: I256): W.U256 {
    if x.IsNegative() then Negated(x.raw) else x.raw
  }

  lemma AbsValue(x: I256)
    ensures AbsU256(x).Value() == Abs(x.Value())
  {
    hide Negated, W.U256.Value;
    NegatedValue(x.raw);
    ValueRange(x);
  }

  function CheckedNeg(x: I256): Option<I256> {
    if x == MIN then None else Some(I256(Negated(x.raw)))
  }

  function CheckedAdd(x: I256, y: I256): Option<I256> {
    var r := I256(W.OverflowingAdd256(x.raw, y.raw).0);
    if x.IsNegative() == y.IsNegative() && r.IsNegative() != x.IsNegative() then None else Some(r)
  }

  function CheckedSub(x: I256, y: I256): Option<I256> {
    match CheckedNeg(y)
    case Some(n) => CheckedAdd(x, n)
    case None =>
      var r := I256(W.OverflowingSub256(x.raw, y.raw).0);
      if !x.IsNegative() && r.IsNegative() then None else Some(r)
  }

  function FromU256(v: W.U256): Option<I256> {
    if v.hi >= TOP_BIT then None else Some(I256(v))
  }

  /** What an exact operation returns. */
  ghost predicate Exact(r: Option<I256>, v: int) {
    (r.Some? <==> Representable(v)) && (r.Some? ==> r.value.Value() == v)
  }

  lemma NegIsExact(x: I256)
    ensures Exact(CheckedNeg(x), -x.Value())
  {
    hide Negated, W.U256.Value;
    ValueRange(x);
    NegatedValue(x.raw);
    ValueRange(I256(Negated(x.raw)));
  }

  lemma WrappedSums(x: W.U256, y: W.U256)
    ensures var s := W.OverflowingAdd256(x, y).0;
            s.Value() == x.Value() + y.Value() || s.Value() == x.Value() + y.Value() - W.SQUARE
    ensures var d := W.OverflowingSub256(x, y).0;
            d.Value() == x.Value() - y.Value() || d.Value() == x.Value() - y.Value() + W.SQUARE
  {
    hide W.AddCarry, W.SubBorrow;
    W.CarriesAreExact(x.lo, y.lo, false);
    W.CarriesAreExact(x.hi, y.hi, W.AddCarry(x.lo, y.lo, false).1);
    W.CarriesAreExact(x.hi, y.hi, W.SubBorrow(x.lo, y.lo, false).1);
  }

  lemma AddIsExact(x: I256, y: I256)
    ensures Exact(CheckedAdd(x, y), x.Value() + y.Value())
  {
    hide W.OverflowingAdd256, W.OverflowingSub256, W.U256.Value;
    ValueRange(x);
    ValueRange(y);
    WrappedSums(x.raw, y.raw);
    ValueRange(I256(W.OverflowingAdd256(x.raw, y.raw).0));
    W.ValueRange(W.OverflowingAdd256(x.raw, y.raw).0);
  }

  /** Subtraction is exact, also when the subtrahend has no negation. */
  lemma SubIsExact(x: I256, y: I256)
    ensures Exact(CheckedSub(x, y), x.Value() - y.Value())
  {
    hide W.OverflowingAdd256, W.OverflowingSub256, W.U256.Value, CheckedAdd, Negated;
    ValueRange(x);
    ValueRange(y);
    NegIsExact(y);
    if y == MIN {
      WrappedSums(x.raw, y.raw);
      ValueRange(I256(W.OverflowingSub256(x.raw, y.raw).0));
      W.ValueRange(W.OverflowingSub256(x.raw, y.raw).0);
    } else {
      AddIsExact(x, CheckedNeg(y).value);
    }
  }

  // ---- multiplication ----

  /** checked_mul_i256.  The bound it compares a negative product with is 2^127, not the
      2^255 that its comment names. */
  function CheckedMul(x: I256, y: I256): Option<I256> {
    if x.IsZero() || y.IsZero() then Some(ZERO)
    else
      var neg := x.IsNegative() != y.IsNegative();
      if x == MIN then if y == ONE then Some(MIN) else None
      else if y == MIN then if x == ONE then Some(MIN) else None
      else
        match W.CheckedMul(AbsU256(x), AbsU256(y))
        case None => None
        case Some(product) =>
          if neg then
            var minMag := W.U256(TOP_BIT, 0);
            if product == minMag then Some(MIN)
            else if W.Less(minMag, product) then None
            else
              match FromU256(product)
              case None => None
              case Some(pos) => CheckedNeg(pos)
          else FromU256(product)
  }

  /** The products it gets wrong: negative, of magnitude 2^127 up to 2^255, with neither
      factor the smallest number. */
  predicate Mishandled(x: I256, y: I256) {
    && x != MIN && y != MIN && x.IsNegative() != y.IsNegative()
    && TOP_BIT <= Abs(x.Value()) * Abs(y.Value()) <= HALF_RANGE
  }

  lemma Magnitudes(a: nat, b: nat)
    ensures a * b >= 0
    ensures a >= 1 && b >= 1 ==> a * b >= a && a * b >= b
    ensures a >= 2 && b >= 1 ==> a * b >= 2 * b
    ensures a >= 1 && b >= 2 ==> a * b >= 2 * a
  {
    if a >= 1 {
      MulMono(1, a, b);
    }
    if a >= 2 {
      MulMono(2, a, b);
    }
    if b >= 1 {
      MulMono(1, b, a);
    }
    if b >= 2 {
      MulMono(2, b, a);
    }
  }

  lemma SignedProduct(x: int, y: int)
    ensures (x < 0) == (y < 0) ==> x * y == Abs(x) * Abs(y)
    ensures (x < 0) != (y < 0) ==> x * y == -(Abs(x) * Abs(y))
    ensures Abs(x) * Abs(y) >= 0
    ensures Abs(x) >= 1 && Abs(y) >= 1 ==> Abs(x) * Abs(y) >= Abs(x) && Abs(x) * Abs(y) >= Abs(y)
    ensures Abs(x) >= 2 && Abs(y) >= 1 ==> Abs(x) * Abs(y) >= 2 * Abs(y)
    ensures Abs(x) >= 1 && Abs(y) >= 2 ==> Abs(x) * Abs(y) >= 2 * Abs(x)
  {
    Magnitudes(Abs(x), Abs(y));
    assert x * y == (0 - x) * (0 - y);
    assert (0 - x) * y == 0 - x * y && x * (0 - y) == 0 - x * y;
  }

  lemma FromU256Value(v: W.U256)
    ensures FromU256(v).Some? <==> v.Value() < HALF_RANGE
    ensures FromU256(v).Some? ==> FromU256(v).value.Value() == v.Value()
  {
  }

  /** Multiplication is exact outside the mishandled range ... */
  lemma MulIsExactOutside(x: I256, y: I256)
    requires !Mishandled(x, y)
    ensures Exact(CheckedMul(x, y), x.Value() * y.Value())
  {
    hide W.U256.Value, W.CheckedMul, CheckedNeg, FromU256, AbsU256;
    ValueRange(x);
    ValueRange(y);
    ValueRange(ZERO);
    ValueRange(MIN);
    SignedProduct(x.Value(), y.Value());
    if x.IsZero() || y.IsZero() {
      assert x.Value() * y.Value() == 0;
    } else if x != MIN && y != MIN {
      AbsValue(x);
      AbsValue(y);
      W.ProductIsExact(AbsU256(x), AbsU256(y));
      var product := W.CheckedMul(AbsU256(x), AbsU256(y));
      if product.Some? {
        FromU256Value(product.value);
        MinMag(product.value);
        if FromU256(product.value).Some? {
          NegIsExact(FromU256(product.value).value);
        }
      }
    }
  }

  lemma MinMag(p: W.U256)
    ensures W.Less(W.U256(TOP_BIT, 0), p) <==> p.Value() > TOP_BIT
    ensures p == W.U256(TOP_BIT, 0) <==> p.Value() == TOP_BIT
  {
    W.LessIsOrder(W.U256(TOP_BIT, 0), p);
    if p.Value() == TOP_BIT {
      W.SameValue(p, W.U256(TOP_BIT, 0));
    }
  }

  /** ... and wrong everywhere inside it: it refuses a product that fits, or returns the
      smallest number for -2^127. */
  lemma MulIsExactIff(x: I256, y: I256)
    ensures Exact(CheckedMul(x, y), x.Value() * y.Value()) <==> !Mishandled(x, y)
  {
    if Mishandled(x, y) {
      hide W.U256.Value, W.CheckedMul, CheckedNeg, FromU256, AbsU256;
      ValueRange(x);
      ValueRange(y);
      ValueRange(MIN);
      SignedProduct(x.Value(), y.Value());
      if !x.IsZero() && !y.IsZero() {
        AbsValue(x);
        AbsValue(y);
        W.ProductIsExact(AbsU256(x), AbsU256(y));
        MinMag(W.CheckedMul(AbsU256(x), AbsU256(y)).value);
      }
    } else {
      MulIsExactOutside(x, y);
    }
  }

  /** -(2^64) * 2^64 fits, and is refused. */
  lemma MulRefusesWhatFits()
    ensures var x, y := CheckedNeg(I256(W.U256(HALF, 0))), I256(W.U256(HALF, 0));
            && x.Some? && x.value.Value() * y.Value() == -(BASE as int) && Representable(-(BASE as int))
            && CheckedMul(x.value, y).None?
  {
    var y := I256(W.U256(HALF, 0));
    NegIsExact(y);
    var x := CheckedNeg(y).value;
    assert y.Value() == HALF && x.Value() == -(HALF as int);
    MulIsExactIff(x, y);
  }

  lemma SmallProductIsExact(x: I256, y: I256)
    requires Abs(x.Value()) * Abs(y.Value()) <= I128_MAX
    ensures Exact(CheckedMul(x, y), x.Value() * y.Value())
  {
    MulIsExactOutside(x, y);
  }

  /** Within the parameter envelope no product of accrue_market_to is mishandled: the
      mark A * dp, the funding price * rate and price * rate * slots, and A times it. */
  lemma AccrualProductsAreExact(a: I256, dp: I256, px: I256, rate: I256, dt: I256, p: Params, slots: nat)
    requires ValidParams(p, slots)
    requires 0 <= a.Value() <= ADL_ONE && Abs(dp.Value()) <= MAX_ORACLE_PRICE
    requires 0 <= px.Value() <= MAX_ORACLE_PRICE && Abs(rate.Value()) <= p.maxAbsFunding
               && 0 <= dt.Value() <= p.maxAccrualDt
    ensures Exact(CheckedMul(a, dp), a.Value() * dp.Value())
    ensures CheckedMul(px, rate).Some? && CheckedMul(px, rate).value.Value() == px.Value() * rate.Value()
    ensures CheckedMul(CheckedMul(px, rate).value, dt).Some?
    ensures var num := CheckedMul(CheckedMul(px, rate).value, dt).value;
            num.Value() == px.Value() * rate.Value() * dt.Value() && Exact(CheckedMul(a, num), a.Value() * num.Value())
  {
    hide CheckedMul, I256.Value, Mishandled, ValidParams;
    Envelope(p, slots);
    FactorsBelow(a.Value(), dp.Value(), ADL_ONE, MAX_ORACLE_PRICE);
    SmallProductIsExact(a, dp);
    FactorsBelow(px.Value(), rate.Value(), MAX_ORACLE_PRICE, p.maxAbsFunding);
    var pr := MAX_ORACLE_PRICE * p.maxAbsFunding;
    EnvelopeParts(pr, p.maxAccrualDt);
    SmallProductIsExact(px, rate);
    InRange(px.Value() * rate.Value());
    var x := CheckedMul(px, rate).value;
    FactorsBelow(x.Value(), dt.Value(), pr, p.maxAccrualDt);
    SmallProductIsExact(x, dt);
    InRange(x.Value() * dt.Value());
    var num := CheckedMul(x, dt).value;
    FactorsBelow(a.Value(), num.Value(), ADL_ONE, pr * p.maxAccrualDt);
    SmallProductIsExact(a, num);
  }

  lemma Envelope(p: Params, slots: nat)
    requires ValidParams(p, slots)
    ensures 0 < p.maxAccrualDt && ADL_ONE * (MAX_ORACLE_PRICE * p.maxAbsFunding * p.maxAccrualDt) <= I128_MAX
  {
    var x, y := p.maxAbsFunding, p.maxAccrualDt;
    assert ADL_ONE * MAX_ORACLE_PRICE * x * y == ADL_ONE * (MAX_ORACLE_PRICE * x * y);
  }

  lemma EnvelopeParts(pr: nat, dt: nat)
    requires 0 < dt && ADL_ONE * (pr * dt) <= I128_MAX
    ensures 0 <= pr <= pr * dt <= I128_MAX
  {
    MulMono(1, dt, pr);
  }

  lemma FactorsBelow(x: int, y: int, m: nat, n: nat)
    requires Abs(x) <= m && Abs(y) <= n
    ensures Abs(x) * Abs(y) <= m * n && Abs(x * y) == Abs(x) * Abs(y)
  {
    MulMono(Abs(x), m, Abs(y));
    MulMono(Abs(y), n, m);
    SignedProduct(x, y);
  }

  lemma InRange(v: int)
    requires Abs(v) <= I128_MAX
    ensures Representable(v)
  {
  }
}
