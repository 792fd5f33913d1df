// Machine words: 128-bit limbs, their shifts, and the bitwise or that glues shifted
// limbs together.
module Words {
  import opened Arith

  /** 2^64 and 2^128. */
  const HALF: nat := 0x1_0000_0000_0000_0000
  const BASE: nat := 0x1_0000_0000_0000_0000_0000_0000_0000_0000

  type word = x: nat | x < 0x1_0000_0000_0000_0000_0000_0000_0000_0000

  function Pow2(k: nat): (p: nat)
    ensures p > 0
  {
    if k == 0 then 1 else 2 * Pow2(k - 1)
  }

  /** Bitwise or of two unsigned numbers. */
  function Or(x: nat, y: nat): nat
    decreases x + y
  {
    if x == 0 && y == 0 then 0
    else (if x % 2 == 1 || y % 2 == 1 then 1 else 0) + 2 * Or(x / 2, y / 2)
  }

  /** The number of bits of `n`. */
  function BitLen(n: nat): nat {
    if n == 0 then 0 else 1 + BitLen(n / 2)
  }

  /** `x << k` and `x >> k` on one word. */
  function ShiftLeft(x: word, k: nat): word
    requires k < 128
  {
    (x * Pow2(k)) % 0x1_0000_0000_0000_0000_0000_0000_0000_0000
  }

  function ShiftRight(x: word, k: nat): word
    requires k < 128
  {
    ShiftRightFits(x, k);
    x / Pow2(k)
  }

  lemma ShiftRightFits(x: word, k: nat)
    ensures 0 <= x / Pow2(k) <= x
  {
    FloorDivBounds(x, Pow2(k));
    MulMono(1, Pow2(k), x / Pow2(k));
  }

  function OverflowingAdd(x: word, y: word): (word, bool) {
    if x + y < BASE then (x + y, false) else (x + y - BASE, true)
  }

  function OverflowingSub(x: word, y: word): (word, bool) {
    if y <= x then (x - y, false) else (x - y + BASE, true)
  }

  function Bit(b: bool): (r: word)
    ensures r <= 1
  {
    if b then 1 else 0
  }

  // ---- powers of two ----

  lemma {:induction false} Pow2Sum(j: nat, k: nat)
    ensures Pow2(j + k) == Pow2(j) * Pow2(k)
  {
    if j > 0 {
      Pow2Sum(j - 1, k);
      var x, y := Pow2(j - 1), Pow2(k);
      assert 2 * (x * y) == (2 * x) * y;
    }
  }

  lemma Doubled(k: nat, v: nat)
    requires Pow2(k) == v
    ensures Pow2(k + k) == v * v
  {
    Pow2Sum(k, k);
  }

  lemma Pow2Word()
    ensures Pow2(64) == HALF && Pow2(128) == BASE
  {
    hide Pow2;
    Pow2Four();
    Doubled(4, 16);
    Doubled(8, 0x100);
    Doubled(16, 0x1_0000);
    Doubled(32, 0x1_0000_0000);
    Doubled(64, HALF);
  }

  lemma Pow2Four()
    ensures Pow2(4) == 16
  {
  }

  lemma {:induction false} Pow2Mono(j: nat, k: nat)
    requires j <= k
    ensures Pow2(j) <= Pow2(k)
  {
    Pow2Sum(j, k - j);
    MulMono(1, Pow2(k - j), Pow2(j));
  }

  /** The two factors that a shift by `k` splits a word with. */
  lemma Pow2Split(k: nat)
    requires k <= 128
    ensures Pow2(k) * Pow2(128 - k) == BASE
  {
    Pow2Sum(k, 128 - k);
    Pow2Word();
  }

  lemma {:induction false} BitLenBounds(n: nat)
    ensures n < Pow2(BitLen(n))
    ensures n > 0 ==> BitLen(n) > 0 && Pow2(BitLen(n) - 1) <= n
  {
    if n > 0 {
      BitLenBounds(n / 2);
    }
  }

  lemma BitLenFits(n: nat, k: nat)
    requires n < Pow2(k)
    ensures BitLen(n) <= k
  {
    BitLenBounds(n);
    if k < BitLen(n) {
      Pow2Mono(k, Pred(BitLen(n)));
    }
  }

  lemma Pow2Double(k: nat)
    ensures Pow2(k + 1) == 2 * Pow2(k)
  {
  }

  /** Two numbers of width `w` with `n` and `d` leading zeros, the second not larger:
      shifted to the length of the first, it still fits, and is more than half of it. */
  lemma DivisorRange(num: nat, den: nat, n: nat, d: nat, w: nat)
    requires n < w && d < w && den <= num
    requires Pow2(w - 1 - n) <= num < Pow2(w - n)
    requires Pow2(w - 1 - d) <= den < Pow2(w - d)
    ensures n <= d
    ensures den * Pow2(d - n) < Pow2(w) && num < 2 * (den * Pow2(d - n))
  {
    hide Pow2;
    if d < n {
      Pow2Mono(w - n, w - 1 - d);
    }
    Pow2Sum(w - 1 - d, d - n);
    Pow2Double(w - 1 - d);
    Pow2Double(w - 1 - n);
    Pow2Mono(w - n, w);
    DivisorCore(num, den, Pow2(w - 1 - d), Pow2(d - n), Pow2(w));
  }

  lemma DivisorCore(num: nat, den: nat, low: nat, p: nat, limit: nat)
    requires p > 0 && low <= den < 2 * low && num < 2 * (low * p) <= limit
    ensures den * p < limit && num < 2 * (den * p)
  {
    MulMono(low, den, p);
    MulMono(den + 1, 2 * low, p);
    assert (den + 1) * p == den * p + p;
    assert (2 * low) * p == 2 * (low * p);
  }

  // ---- gluing disjoint bits ----

  lemma OrZero(y: nat)
    ensures Or(0, y) == y
  {
    if y > 0 {
      OrZero(y / 2);
    }
  }

  lemma {:induction false} OrBelow(x: nat, y: nat, k: nat)
    requires x < Pow2(k) && y < Pow2(k)
    ensures Or(x, y) < Pow2(k)
    decreases k
  {
    if x != 0 || y != 0 {
      OrBelow(x / 2, y / 2, k - 1);
    }
  }

  /** Or of a multiple of 2^k with something below 2^k is their sum. */
  lemma {:induction false} OrIsSum(m: nat, y: nat, k: nat)
    requires y < Pow2(k)
    ensures Or(m * Pow2(k), y) == m * Pow2(k) + y
    decreases k
  {
    if k == 0 {
      assert m * Pow2(0) == m;
      OrComm(m, 0);
      OrZero(m);
    } else {
      var x := m * Pow2(k);
      var half := m * Pow2(k - 1);
      assert x == 2 * half;
      OrIsSum(m, y / 2, k - 1);
      assert x / 2 == half && x % 2 == 0;
    }
  }

  lemma {:induction false} OrComm(x: nat, y: nat)
    ensures Or(x, y) == Or(y, x)
    decreases x + y
  {
    if x != 0 || y != 0 {
      OrComm(x / 2, y / 2);
    }
  }

  /** A word split at 2^(128 - k): shifting left keeps the low part, and the high part is
      what shifting right by the complement gives. */
  lemma SplitWord(x: word, k: nat)
    requires 0 < k < 128
    ensures var p, q := Pow2(k), Pow2(128 - k);
            && 0 <= x % q < q && 0 <= x / q < p
            && x * p == (x % q) * p + (x / q) * BASE
            && 0 <= (x % q) * p <= BASE - p
            && ShiftLeft(x, k) == (x % q) * p
            && ShiftRight(x, 128 - k) == x / q
  {
    hide Pow2;
    var p, q := Pow2(k), Pow2(128 - k);
    Pow2Split(k);
    FloorDivBounds(x, q);
    SplitCore(x, p, q, x / q, x % q);
    LowPart(x * p, (x % q) * p, x / q);
  }

  lemma SplitCore(x: nat, p: nat, q: nat, h: nat, l: nat)
    requires p > 0 && p * q == BASE && x < BASE && l < q
    requires x == h * q + l
    ensures x * p == l * p + h * BASE
    ensures 0 <= l * p <= BASE - p
    ensures h < p
  {
    assert (h * q + l) * p == h * (p * q) + l * p;
    MulMono(l, q - 1, p);
    assert (q - 1) * p == p * q - p;
    if p <= h {
      MulMono(p, h, q);
    }
  }

  lemma LowPart(n: nat, low: nat, high: nat)
    requires n == low + high * BASE && low < BASE
    ensures n % BASE == low
  {
    FloorDivUnique(n, BASE, high);
  }

  /** Two neighbouring words, glued after a left shift by `k`. */
  lemma Glue(high: word, low: word, k: nat)
    requires 0 < k < 128
    ensures var p, q := Pow2(k), Pow2(128 - k);
            && Or(ShiftLeft(high, k), ShiftRight(low, 128 - k)) == (high % q) * p + low / q < BASE
  {
    SplitWord(high, k);
    SplitWord(low, k);
    OrIsSum(high % Pow2(128 - k), low / Pow2(128 - k), k);
  }

  /** Setting a bit below everything that is set adds it. */
  lemma OrBit(x: nat, m: nat, j: nat)
    requires x == m * Pow2(j + 1)
    ensures Or(x, Pow2(j)) == x + Pow2(j)
  {
    OrIsSum(m, Pow2(j), j + 1);
  }

  lemma OrNothing(x: nat)
    ensures Or(x, 0) == x
  {
    OrComm(x, 0);
    OrZero(x);
  }

  // ---- the widening product ----

  /** widening_mul_u128: schoolbook on the halves, low word first. */
  function WideningMul(a: word, b: word): (r: (nat, nat))
    ensures r.0 < BASE && r.1 < BASE
    ensures r.0 + r.1 * BASE == a * b
  {
    var aLo, aHi, bLo, bHi := a % HALF, a / HALF, b % HALF, b / HALF;
    Halves(aLo, aHi, bLo, bHi);
    var ll, lh, hl, hh := aLo * bLo, aLo * bHi, aHi * bLo, aHi * bHi;
    var (mid, midCarry) := OverflowingAdd(lh, hl);
    Middle(mid);
    var (lo, loCarry) := OverflowingAdd(ll, mid * HALF % BASE);
    var hi := hh + mid / HALF + Bit(midCarry) * HALF + Bit(loCarry);
    ProductBelow(a, b, lo, hi);
    (lo, hi)
  }

  lemma Halves(aLo: nat, aHi: nat, bLo: nat, bHi: nat)
    requires aLo < HALF && aHi < HALF && bLo < HALF && bHi < HALF
    ensures 0 <= aLo * bLo < BASE && 0 <= aLo * bHi < BASE && 0 <= aHi * bLo < BASE && 0 <= aHi * bHi < BASE
    ensures (aLo + aHi * HALF) * (bLo + bHi * HALF) == aLo * bLo + (aLo * bHi + aHi * bLo) * HALF + aHi * bHi * BASE
  {
    HalfProduct(aLo, bLo);
    HalfProduct(aLo, bHi);
    HalfProduct(aHi, bLo);
    HalfProduct(aHi, bHi);
    var b := bLo + bHi * HALF;
    assert (aLo + aHi * HALF) * b == aLo * b + (aHi * b) * HALF;
    assert aLo * b == aLo * bLo + (aLo * bHi) * HALF;
    assert aHi * b == aHi * bLo + (aHi * bHi) * HALF;
  }

  lemma HalfProduct(x: nat, y: nat)
    requires x < HALF && y < HALF
    ensures 0 <= x * y < BASE
  {
    MulMono(x, HALF - 1, y);
  }

  lemma Middle(mid: word)
    ensures mid * HALF == (mid / HALF) * BASE + mid * HALF % BASE
    ensures 0 <= mid * HALF % BASE
  {
    FloorDivUnique(mid * HALF, BASE, mid / HALF);
  }

  lemma ProductBelow(a: word, b: word, lo: nat, hi: nat)
    requires lo + hi * BASE == a * b
    ensures hi < BASE
  {
    MulMono(a, BASE - 1, b);
  }
}
