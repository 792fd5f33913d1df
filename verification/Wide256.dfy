// 256-bit unsigned arithmetic on two 128-bit limbs: checked operations, shifts, and
// binary long division.
module Wide256 {
  import opened Arith
  import opened Market
  import opened Options
  import opened Words

  /** 2^256. */
  const SQUARE: nat := 0x1_0000_0000_0000_0000_0000_0000_0000_0000_0000_0000_0000_0000_0000_0000_0000_0000

  datatype U256 = U256(lo: word, hi: word) {
    function Value(): nat {
      lo + hi * BASE
    }

    predicate IsZero() {
      lo == 0 && hi == 0
    }
  }

  const ZERO := U256(0, 0)
  const ONE := U256(1, 0)
  const MAX := U256(U128_MAX, U128_MAX)

  lemma ValueRange(x: U256)
    ensures 0 <= x.Value() < SQUARE
    ensures x.IsZero() <==> x.Value() == 0
    ensures x.hi == 0 ==> x.Value() == x.lo
    ensures x.hi != 0 ==> x.Value() >= BASE
  {
  }

  lemma SameValue(x: U256, y: U256)
    requires x.Value() == y.Value()
    ensures x == y
  {
  }

  /** The order compares the high limbs first. */
  predicate Less(x: U256, y: U256) {
    if x.hi == y.hi then x.lo < y.lo else x.hi < y.hi
  }

  lemma LessIsOrder(x: U256, y: U256)
    ensures Less(x, y) <==> x.Value() < y.Value()
  {
  }

  function AddCarry(x: word, y: word, carry: bool): (word, bool) {
    var (s1, c1) := OverflowingAdd(x, y);
    var (s2, c2) := OverflowingAdd(s1, Bit(carry));
    (s2, c1 || c2)
  }

  function SubBorrow(x: word, y: word, borrow: bool): (word, bool) {
    var (d1, b1) := OverflowingSub(x, y);
    var (d2, b2) := OverflowingSub(d1, Bit(borrow));
    (d2, b1 || b2)
  }

  lemma CarriesAreExact(x: word, y: word, c: bool)
    ensures var (s, out) := AddCarry(x, y, c); x + y + Bit(c) == s + Bit(out) * BASE
    ensures var (d, out) := SubBorrow(x, y, c); x - y - Bit(c) == d - Bit(out) * BASE
  {
  }

  function OverflowingAdd256(x: U256, y: U256): (U256, bool) {
    var (lo, carry) := AddCarry(x.lo, y.lo, false);
    var (hi, overflow) := AddCarry(x.hi, y.hi, carry);
    (U256(lo, hi), overflow)
  }

  function OverflowingSub256(x: U256, y: U256): (U256, bool) {
    var (lo, borrow) := SubBorrow(x.lo, y.lo, false);
    var (hi, underflow) := SubBorrow(x.hi, y.hi, borrow);
    (U256(lo, hi), underflow)
  }

  function CheckedAdd(x: U256, y: U256): Option<U256> {
    var (r, overflow) := OverflowingAdd256(x, y);
    if overflow then None else Some(r)
  }

  function CheckedSub(x: U256, y: U256): Option<U256> {
    var (r, underflow) := OverflowingSub256(x, y);
    if underflow then None else Some(r)
  }

  /** Addition and subtraction are exact, and refuse exactly what does not fit. */
  lemma SumsAreExact(x: U256, y: U256)
    ensures CheckedAdd(x, y).Some? <==> x.Value() + y.Value() < SQUARE
    ensures CheckedAdd(x, y).Some? ==> CheckedAdd(x, y).value.Value() == x.Value() + y.Value()
    ensures CheckedSub(x, y).Some? <==> y.Value() <= x.Value()
    ensures CheckedSub(x, y).Some? ==> CheckedSub(x, y).value.Value() == x.Value() - y.Value()
  {
    hide AddCarry, SubBorrow;
    CarriesAreExact(x.lo, y.lo, false);
    CarriesAreExact(x.hi, y.hi, AddCarry(x.lo, y.lo, false).1);
    CarriesAreExact(x.hi, y.hi, SubBorrow(x.lo, y.lo, false).1);
  }

  function SaturatingSub(x: U256, y: U256): U256 {
    match CheckedSub(x, y)
    case Some(r) => r
    case None => ZERO
  }

  /** checked_mul. */
  function CheckedMul(x: U256, y: U256): Option<U256> {
    if x.hi != 0 && y.hi != 0 then None
    else
      var (prodLo, prodHi) := WideningMul(x.lo, y.lo);
      var cross1 := if y.hi != 0 then WideningMul(x.lo, y.hi) else (0, 0);
      var cross2 := if x.hi != 0 then WideningMul(x.hi, y.lo) else (0, 0);
      if cross1.1 != 0 || cross2.1 != 0 then None
      else if prodHi + cross1.0 >= BASE || prodHi + cross1.0 + cross2.0 >= BASE then None
      else Some(U256(prodLo, prodHi + cross1.0 + cross2.0))
  }

  /** Multiplication is exact, and refuses exactly the products of 257 bits and more. */
  lemma ProductIsExact(x: U256, y: U256)
    ensures CheckedMul(x, y).Some? <==> x.Value() * y.Value() < SQUARE
    ensures CheckedMul(x, y).Some? ==> CheckedMul(x, y).value.Value() == x.Value() * y.Value()
  {
    hide WideningMul;
    Expand(x.lo, x.hi, y.lo, y.hi);
    if x.hi != 0 && y.hi != 0 {
      MulMono(1, x.hi, y.hi);
    } else {
      assert x.hi * y.hi == 0;
      assert y.hi == 0 ==> x.lo * y.hi == 0;
      assert x.hi == 0 ==> x.hi * y.lo == 0;
    }
  }

  lemma Expand(a0: nat, a1: nat, b0: nat, b1: nat)
    ensures (a0 + a1 * BASE) * (b0 + b1 * BASE) == a0 * b0 + (a0 * b1 + a1 * b0) * BASE + (a1 * b1) * SQUARE
    ensures a0 * b0 >= 0 && a0 * b1 >= 0 && a1 * b0 >= 0 && a1 * b1 >= 0
  {
    var b := b0 + b1 * BASE;
    assert (a0 + a1 * BASE) * b == a0 * b + (a1 * b) * BASE;
    assert a0 * b == a0 * b0 + (a0 * b1) * BASE;
    assert a1 * b == a1 * b0 + (a1 * b1) * BASE;
  }

  // ---- shifts ----

  function Shl(x: U256, bits: nat): U256 {
    if bits >= 256 then ZERO
    else if bits == 0 then x
    else if bits >= 128 then U256(0, ShiftLeft(x.lo, bits - 128))
    else
      Glue(x.hi, x.lo, bits);
      U256(ShiftLeft(x.lo, bits), Or(ShiftLeft(x.hi, bits), ShiftRight(x.lo, 128 - bits)))
  }

  function Shr(x: U256, bits: nat): U256 {
    if bits >= 256 then ZERO
    else if bits == 0 then x
    else if bits >= 128 then U256(ShiftRight(x.hi, bits - 128), 0)
    else
      Glue(x.hi, x.lo, 128 - bits);
      OrComm(ShiftRight(x.lo, bits), ShiftLeft(x.hi, 128 - bits));
      U256(Or(ShiftRight(x.lo, bits), ShiftLeft(x.hi, 128 - bits)), ShiftRight(x.hi, bits))
  }

  /** A left shift that loses no bit multiplies by a power of two. */
  lemma ShlIsProduct(x: U256, bits: nat)
    requires x.Value() * Pow2(bits) < SQUARE
    requires x.Value() > 0
    ensures Shl(x, bits).Value() == x.Value() * Pow2(bits)
  {
    hide Pow2, Or, ShiftLeft, ShiftRight;
    var p := Pow2(bits);
    if bits >= 256 {
      Pow2Mono(256, bits);
      Doubled(128, BASE) by { Pow2Word(); }
      MulMono(1, x.Value(), p);
    } else if bits == 0 {
      Pow2Zero();
    } else if bits >= 128 {
      ShlByWords(x, bits - 128);
    } else {
      ShlWithin(x, bits);
    }
  }

  lemma ShlWithin(x: U256, bits: nat)
    requires 0 < bits < 128 && x.Value() * Pow2(bits) < SQUARE
    ensures Shl(x, bits).Value() == x.Value() * Pow2(bits)
  {
    hide Pow2, Or, ShiftLeft, ShiftRight;
    var p, q := Pow2(bits), Pow2(128 - bits);
    SplitWord(x.lo, bits);
    SplitWord(x.hi, bits);
    Glue(x.hi, x.lo, bits);
    ShlCore(x.hi, x.lo, p, x.hi / q, (x.hi % q) * p, x.lo / q, (x.lo % q) * p);
  }

  /** Each limb times `p` is a carry and a rest; the shifted number has no carry out. */
  lemma ShlCore(hi: nat, lo: nat, p: nat, hiCarry: nat, hiRest: nat, loCarry: nat, loRest: nat)
    requires hi * p == hiRest + hiCarry * BASE && lo * p == loRest + loCarry * BASE
    requires (lo + hi * BASE) * p < SQUARE
    ensures loRest + (hiRest + loCarry) * BASE == (lo + hi * BASE) * p
  {
    assert (lo + hi * BASE) * p == lo * p + (hi * p) * BASE;
  }

  lemma Pow2Zero()
    ensures Pow2(0) == 1
  {
  }

  lemma ShlByWords(x: U256, s: nat)
    requires s < 128 && x.Value() * Pow2(s + 128) < SQUARE && x.Value() > 0
    ensures ShiftLeft(x.lo, s) * BASE == x.Value() * Pow2(s + 128)
  {
    hide Pow2;
    Pow2Sum(s, 128);
    Pow2Word();
    var p, v := Pow2(s), x.Value();
    assert v * (p * BASE) == (v * p) * BASE;
    assert v * p < BASE;
    MulMono(1, p, v);
    assert x.hi == 0;
    LowPart(x.lo * p, x.lo * p, 0);
  }

  /** A right shift divides, rounding down. */
  lemma ShrIsQuotient(x: U256, bits: nat)
    ensures Shr(x, bits).Value() == x.Value() / Pow2(bits)
  {
    hide Pow2, Or, ShiftLeft, ShiftRight;
    var p := Pow2(bits);
    if bits >= 256 {
      Pow2Mono(256, bits);
      Doubled(128, BASE) by { Pow2Word(); }
      FloorDivUnique(x.Value(), p, 0);
    } else if bits == 0 {
      Pow2Zero();
    } else if bits >= 128 {
      ShrByWords(x, bits - 128);
    } else {
      ShrWithin(x, bits);
    }
  }

  lemma ShrByWords(x: U256, s: nat)
    requires s < 128
    ensures ShiftRight(x.hi, s) == x.Value() / Pow2(s + 128)
  {
    hide Pow2;
    Pow2Sum(s, 128);
    Pow2Word();
    var p := Pow2(s);
    var q, r := x.hi / p, x.hi % p;
    FloorDivBounds(x.hi, p);
    assert x.hi == q * p + r by { assert x.hi == p * q + r; }
    assert q * (p * BASE) == (q * p) * BASE;
    MulMono(r, p - 1, BASE);
    FloorDivUnique(x.Value(), p * BASE, q);
  }

  lemma ShrParts(x: U256, bits: nat)
    requires 0 < bits < 128
    ensures var p, q := Pow2(bits), Pow2(128 - bits);
            && Shr(x, bits).lo == (x.hi % p) * q + x.lo / p
            && Shr(x, bits).hi == x.hi / p
  {
    hide Pow2, Or, ShiftLeft, ShiftRight;
    Glue(x.hi, x.lo, 128 - bits);
    OrComm(ShiftRight(x.lo, bits), ShiftLeft(x.hi, 128 - bits));
    SplitWord(x.hi, 128 - bits);
  }

  lemma ShrWithin(x: U256, bits: nat)
    requires 0 < bits < 128
    ensures Shr(x, bits).Value() == x.Value() / Pow2(bits)
  {
    hide Pow2, Shr;
    var p, q := Pow2(bits), Pow2(128 - bits);
    ShrParts(x, bits);
    Pow2Split(bits);
    FloorDivBounds(x.lo, p);
    var h, l, g := x.hi / p, x.hi % p, x.lo / p;
    ShrCore(x.hi, x.lo, p, q, h, l, g);
    FloorDivUnique(x.Value(), p, l * q + g + h * BASE);
  }

  lemma ShrCore(hi: nat, lo: nat, p: nat, q: nat, h: nat, l: nat, g: nat)
    requires p > 0 && p * q == BASE && hi == p * h + l && g * p <= lo < g * p + p
    ensures var r := l * q + g + h * BASE;
            r * p <= lo + hi * BASE < r * p + p
  {
    assert (l * q + g + h * BASE) * p == l * (p * q) + g * p + (p * h) * BASE;
  }

  // ---- division ----

  function LeadingZeros(x: U256): nat {
    WordBits(x.hi);
    WordBits(x.lo);
    if x.hi != 0 then 128 - BitLen(x.hi) else 128 + (128 - BitLen(x.lo))
  }

  lemma WordBits(x: word)
    ensures BitLen(x) <= 128
    ensures x < Pow2(BitLen(x))
    ensures x > 0 ==> BitLen(x) > 0 && Pow2(BitLen(x) - 1) <= x
  {
    Pow2Word();
    BitLenFits(x, 128);
    BitLenBounds(x);
  }

  /** The leading zeros place a number between two powers of two. */
  lemma LeadingZerosBounds(x: U256)
    requires x.Value() > 0
    ensures LeadingZeros(x) <= 255
    ensures Pow2(255 - LeadingZeros(x)) <= x.Value() < Pow2(256 - LeadingZeros(x))
  {
    hide Pow2;
    WordBits(x.hi);
    WordBits(x.lo);
    if x.hi != 0 {
      var n := BitLen(x.hi);
      Pow2Sum(n, 128);
      Pow2Sum(n - 1, 128);
      Pow2Word();
    }
  }

  /** The first divisor of the long division: below 2^256, and more than half of the
      numerator. */
  lemma FirstDivisor(num: U256, den: U256)
    requires 0 < den.Value() <= num.Value()
    ensures LeadingZeros(num) <= LeadingZeros(den) <= 255
    ensures var shift := LeadingZeros(den) - LeadingZeros(num);
            den.Value() * Pow2(shift) < SQUARE && num.Value() < 2 * (den.Value() * Pow2(shift))
  {
    hide Pow2, LeadingZeros;
    LeadingZerosBounds(num);
    LeadingZerosBounds(den);
    Pow2Square();
    DivisorRange(num.Value(), den.Value(), LeadingZeros(num), LeadingZeros(den), 256);
  }

  lemma Pow2Square()
    ensures Pow2(256) == SQUARE
  {
    Pow2Word();
    Doubled(128, BASE);
  }

  /** One step of the long division keeps num == q * den + rem with rem below twice the
      divisor. */
  lemma DivisionStep(num: nat, q: nat, den: nat, rem: nat, p: nat)
    requires num == q * den + rem
    ensures num == (q + p) * den + (rem - den * p)
  {
    assert (q + p) * den == q * den + den * p;
  }

  function BitOr(x: U256, y: U256): U256 {
    Pow2Word();
    OrBelow(x.lo, y.lo, 128);
    OrBelow(x.hi, y.hi, 128);
    U256(Or(x.lo, y.lo), Or(x.hi, y.hi))
  }

  lemma OneBit(i: nat)
    requires i < 256
    ensures Pow2(i) < SQUARE && (i < 128 <==> Pow2(i) < BASE) && (i >= 128 ==> Pow2(i - 128) < BASE)
    ensures Shl(ONE, i) == if i < 128 then U256(Pow2(i), 0) else U256(0, Pow2(i - 128))
  {
    hide Pow2, Shl;
    Pow2Square();
    Pow2Word();
    Pow2Double(255);
    Pow2Mono(i, 255);
    assert ONE.Value() * Pow2(i) == Pow2(i);
    ShlIsProduct(ONE, i);
    if i < 128 {
      Pow2Double(127);
      Pow2Mono(i, 127);
      SameValue(Shl(ONE, i), U256(Pow2(i), 0));
    } else {
      Pow2Mono(128, i);
      Pow2Mono(i - 128, 127);
      Pow2Double(127);
      Pow2Sum(i - 128, 128);
      SameValue(Shl(ONE, i), U256(0, Pow2(i - 128)));
    }
  }

  /** Setting bit `i` of a multiple of 2^(i + 1) adds 2^i. */
  lemma SetBit(q: U256, m: nat, i: nat)
    requires q.Value() == m * Pow2(i + 1) && i < 256
    ensures BitOr(q, Shl(ONE, i)).Value() == q.Value() + Pow2(i)
  {
    hide Pow2, Or, Shl;
    OneBit(i);
    OrNothing(q.lo);
    OrNothing(q.hi);
    Pow2Word();
    if i < 128 {
      Pow2Split(i + 1);
      LowMultiple(q.lo, q.hi, m, Pow2(i + 1), Pow2(127 - i));
      OrBit(q.lo, m - q.hi * Pow2(127 - i), i);
    } else {
      Pow2Sum(i - 127, 128);
      HighMultiple(q.lo, q.hi, m * Pow2(i - 127)) by {
        assert m * (Pow2(i - 127) * BASE) == (m * Pow2(i - 127)) * BASE;
      }
      OrBit(q.hi, m, i - 128);
      Pow2Sum(i - 128, 128);
    }
  }

  lemma LowMultiple(lo: nat, hi: nat, m: nat, p: nat, r: nat)
    requires p > 0 && p * r == BASE && lo + hi * BASE == m * p
    ensures m - hi * r >= 0 && lo == (m - hi * r) * p
  {
    assert hi * (p * r) == (hi * r) * p;
    assert (m - hi * r) * p == m * p - (hi * r) * p;
    if m - hi * r < 0 {
      MulMono(m - hi * r, -1, p);
    }
  }

  lemma HighMultiple(lo: nat, hi: nat, n: nat)
    requires lo < BASE && lo + hi * BASE == n * BASE
    ensures lo == 0 && hi == n
  {
    FloorDivUnique(n * BASE, BASE, hi);
    FloorDivUnique(n * BASE, BASE, n);
  }

  /** Halving the divisor steps to the next lower power of two. */
  lemma HalfDivisor(d: U256, den: nat, i: nat)
    requires d.Value() == den * Pow2(i)
    ensures i > 0 ==> Shr(d, 1).Value() == den * Pow2(i - 1)
  {
    hide Pow2, Shr, U256.Value;
    if i > 0 {
      ShrIsQuotient(d, 1);
      Pow2Zero();
      Pow2Double(0);
      Pow2Double(i - 1);
      HalfStep(den, Pow2(i - 1), Pow2(i), 0);
      HalfOf(d.Value(), den * Pow2(i - 1));
    }
  }

  lemma HalfOf(v: nat, x: nat)
    requires v == 2 * x
    ensures v / 2 == x
  {
  }

  /** div_rem_u256: binary long division is division. */
  method DivRem(num: U256, den: U256) returns (q: U256, r: U256)
    requires !den.IsZero()
    ensures num.Value() == q.Value() * den.Value() + r.Value()
    ensures r.Value() < den.Value()
  {
    hide Pow2, Shl, Shr, Or, BitOr, LeadingZeros, SaturatingSub, U256.Value;
    ValueRange(num);
    ValueRange(den);
    ValueRange(ZERO);
    LessIsOrder(num, den);
    if num.IsZero() {
      NoQuotient(num, den);
      return ZERO, ZERO;
    }
    if Less(num, den) {
      NoQuotient(num, den);
      return ZERO, num;
    }
    if num.hi == 0 && den.hi == 0 {
      q, r := NativeDivRem(num, den);
      return;
    }
    FirstDivisor(num, den);
    var shift := LeadingZeros(den) - LeadingZeros(num);
    ShlIsProduct(den, shift);
    var remainder, quotient, divisor := num, ZERO, Shl(den, shift);
    var i: int := shift;
    ghost var m: nat := 0;
    Pow2Double(shift);
    StartOfDivision(num.Value(), den.Value(), Pow2(shift), Pow2(shift + 1));
    while i >= 0
      invariant -1 <= i <= shift <= 255
      invariant i >= 0 ==> divisor.Value() == den.Value() * Pow2(i)
      invariant remainder.Value() < den.Value() * Pow2(i + 1)
      invariant num.Value() == quotient.Value() * den.Value() + remainder.Value()
      invariant quotient.Value() == m * Pow2(i + 1)
      decreases i + 1
    {
      ghost var p, n := Pow2(i), quotient.Value();
      Pow2Double(i);
      LessIsOrder(remainder, divisor);
      DivisionStep(num.Value(), n, den.Value(), remainder.Value(), p);
      HalfStep(den.Value(), p, Pow2(i + 1), m);
      if !Less(remainder, divisor) {
        SumsAreExact(remainder, divisor);
        SubtractExact(remainder, divisor);
        remainder := SaturatingSub(remainder, divisor);
        SetBit(quotient, m, i);
        quotient := BitOr(quotient, Shl(ONE, i));
        m := 2 * m + 1;
      } else {
        m := 2 * m;
      }
      HalfDivisor(divisor, den.Value(), i);
      divisor := Shr(divisor, 1);
      i := i - 1;
    }
    Pow2Zero();
    q, r := quotient, remainder;
  }

  lemma NoQuotient(num: U256, den: U256)
    ensures num.Value() == ZERO.Value() * den.Value() + num.Value()
    ensures num.IsZero() ==> num == ZERO
  {
    assert 0 * den.Value() == 0;
  }

  method NativeDivRem(num: U256, den: U256) returns (q: U256, r: U256)
    requires num.hi == 0 && den.hi == 0 && den.lo != 0
    ensures num.Value() == q.Value() * den.Value() + r.Value()
    ensures r.Value() < den.Value()
  {
    var n, d: nat := num.lo, den.lo;
    FloorDivBounds(n, d);
    MulMono(1, d, n / d);
    q, r := U256(n / d, 0), U256(n % d, 0);
    assert n == d * (n / d) + n % d;
  }

  lemma StartOfDivision(num: nat, den: nat, p: nat, p2: nat)
    requires p2 == 2 * p && num < 2 * (den * p)
    ensures num < den * p2 && 0 * den == 0 && 0 * p2 == 0
  {
    assert den * (2 * p) == 2 * (den * p);
  }

  lemma HalfStep(den: nat, p: nat, p2: nat, m: nat)
    requires p2 == 2 * p
    ensures den * p2 == 2 * (den * p)
    ensures m * p2 == (2 * m) * p && m * p2 + p == (2 * m + 1) * p
  {
    assert den * (2 * p) == 2 * (den * p);
  }

  lemma SubtractExact(x: U256, y: U256)
    requires y.Value() <= x.Value()
    ensures SaturatingSub(x, y).Value() == x.Value() - y.Value()
  {
    SumsAreExact(x, y);
  }
}
