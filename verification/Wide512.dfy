// The 512-bit intermediate of every multiply-then-divide: four 128-bit limbs, their
// loops, long division by a 256-bit number, and the exact helpers built on it.
module Wide512 {
  import opened Arith
  import opened Market
  import opened Options
  import opened Words
  import opened Wide256

  /** 2^384 and 2^512. */
  const CUBE: nat := 0x1_0000_0000_0000_0000_0000_0000_0000_0000_0000_0000_0000_0000_0000_0000_0000_0000_0000_0000_0000_0000_0000_0000_0000_0000
  const FOURTH: nat := 0x1_0000_0000_0000_0000_0000_0000_0000_0000_0000_0000_0000_0000_0000_0000_0000_0000_0000_0000_0000_0000_0000_0000_0000_0000_0000_0000_0000_0000_0000_0000_0000_0000

  /** Four limbs, least significant first. */
  type U512 = s: seq<word> | |s| == 4 witness [0, 0, 0, 0]

  const ZERO512: U512 := [0, 0, 0, 0]

  /** One limb higher. */
  function Up(x: int): int {
    x * 0x1_0000_0000_0000_0000_0000_0000_0000_0000
  }

  function Total(s: seq<nat>): nat
    requires |s| == 4
  {
    s[0] + Up(s[1] + Up(s[2] + Up(s[3])))
  }

  /** Below 2^512. */
  predicate Fits(v: int) {
    v < 0x1_0000_0000_0000_0000_0000_0000_0000_0000_0000_0000_0000_0000_0000_0000_0000_0000_0000_0000_0000_0000_0000_0000_0000_0000_0000_0000_0000_0000_0000_0000_0000_0000
  }

  function Widened(x: U256): U512 {
    [x.lo, x.hi, 0, 0]
  }

  /** A two-limb product. */
  type Pair = p: (nat, nat) | p.0 < BASE && p.1 < BASE witness (0, 0)

  function PairValue(p: Pair): nat {
    p.0 + Up(p.1)
  }

  /** The accumulation of mul_u256: four two-limb products, with explicit carries. */
  function Accumulated(p: Pair, x: Pair, y: Pair, z: Pair): seq<nat> {
    var (r1a, carry1a) := OverflowingAdd(p.1, x.0);
    var (r1, carry1b) := OverflowingAdd(r1a, y.0);
    var (r2a, carry2a) := OverflowingAdd(x.1, y.1);
    var (r2b, carry2b) := OverflowingAdd(r2a, z.0);
    var (r2, carry2c) := OverflowingAdd(r2b, Bit(carry1a) + Bit(carry1b));
    [p.0, r1, r2, z.1 + (Bit(carry2a) + Bit(carry2b) + Bit(carry2c))]
  }

  lemma AddIsExact(x: word, y: word)
    ensures x + y == OverflowingAdd(x, y).0 + Up(Bit(OverflowingAdd(x, y).1))
    ensures Bit(OverflowingAdd(x, y).1) <= 1
  {
  }

  lemma UpSum(x: int, y: int)
    ensures Up(x + y) == Up(x) + Up(y)
  {
  }

  /** The carries lose nothing. */
  lemma AccumulatedExact(p: Pair, x: Pair, y: Pair, z: Pair)
    ensures var r := Accumulated(p, x, y, z);
            && |r| == 4 && r[0] < BASE && r[1] < BASE && r[2] < BASE
            && Total(r) == PairValue(p) + Up(PairValue(x) + PairValue(y) + Up(PairValue(z)))
  {
    hide OverflowingAdd, Bit, Up;
    AddIsExact(p.1, x.0);
    var (r1a, carry1a) := OverflowingAdd(p.1, x.0);
    AddIsExact(r1a, y.0);
    var (r1, carry1b) := OverflowingAdd(r1a, y.0);
    AddIsExact(x.1, y.1);
    var (r2a, carry2a) := OverflowingAdd(x.1, y.1);
    AddIsExact(r2a, z.0);
    var (r2b, carry2b) := OverflowingAdd(r2a, z.0);
    AddIsExact(r2b, Bit(carry1a) + Bit(carry1b));
    CarriesMoveUp(p.0, p.1, x.0, x.1, y.0, y.1, z.0, z.1, r1, Accumulated(p, x, y, z)[2],
                  Bit(carry1a), Bit(carry1b),
                  Bit(carry2a) + Bit(carry2b) + Bit(OverflowingAdd(r2b, Bit(carry1a) + Bit(carry1b)).1)) by {
      UpSum(Bit(carry1a), Bit(carry1b));
      UpSum(Bit(carry2a), Bit(carry2b));
      UpSum(Bit(carry2a) + Bit(carry2b), Bit(OverflowingAdd(r2b, Bit(carry1a) + Bit(carry1b)).1));
    }
  }

  lemma CarriesMoveUp(p0: int, p1: int, x0: int, x1: int, y0: int, y1: int, z0: int, z1: int, r1: int, r2: int,
      k1: int, k2: int, k: int)
    requires p1 + x0 + y0 == r1 + Up(k1 + k2)
    requires x1 + y1 + z0 + (k1 + k2) == r2 + Up(k)
    ensures p0 + Up(r1 + Up(r2 + Up(z1 + k))) == p0 + Up(p1) + Up((x0 + Up(x1)) + (y0 + Up(y1)) + Up(z0 + Up(z1)))
  {
    hide Up;
    var c := k1 + k2;
    UpSum(x1, y1);
    UpSum(x1 + y1, z0 + Up(z1));
    UpSum(p1, (x0 + Up(x1)) + (y0 + Up(y1)) + Up(z0 + Up(z1)));
    UpSum(c, x1 + y1 + (z0 + Up(z1)));
    UpSum(k, z1);
    assert c + (x1 + y1 + (z0 + Up(z1))) == r2 + Up(z1 + k);
    assert p1 + ((x0 + Up(x1)) + (y0 + Up(y1)) + Up(z0 + Up(z1))) == r1 + Up(r2 + Up(z1 + k));
  }

  lemma TopLimb(r: seq<nat>)
    requires |r| == 4 && Fits(Total(r))
    ensures r[3] < BASE
  {
  }

  lemma ProductExact(a: U256, b: U256)
    ensures var r := Accumulated(WideningMul(a.lo, b.lo), WideningMul(a.lo, b.hi), WideningMul(a.hi, b.lo),
              WideningMul(a.hi, b.hi));
            && |r| == 4 && r[0] < BASE && r[1] < BASE && r[2] < BASE && r[3] < BASE
            && Total(r) == a.Value() * b.Value()
  {
    hide WideningMul, Accumulated;
    var p, x, y, z := WideningMul(a.lo, b.lo), WideningMul(a.lo, b.hi), WideningMul(a.hi, b.lo),
        WideningMul(a.hi, b.hi);
    AccumulatedExact(p, x, y, z);
    ProductOf(a, b, PairValue(p), PairValue(x), PairValue(y), PairValue(z));
    ProductFits(a, b);
    TopLimb(Accumulated(p, x, y, z));
  }

  lemma ProductOf(a: U256, b: U256, p00: nat, p01: nat, p10: nat, p11: nat)
    requires p00 == a.lo * b.lo && p01 == a.lo * b.hi && p10 == a.hi * b.lo && p11 == a.hi * b.hi
    ensures p00 + Up(p01 + p10 + Up(p11)) == a.Value() * b.Value()
  {
    Expand(a.lo, a.hi, b.lo, b.hi);
  }

  /** mul_u256: the product of two 256-bit numbers, exactly. */
  function Product(a: U256, b: U256): (r: U512)
    ensures Total(r) == a.Value() * b.Value()
  {
    ProductExact(a, b);
    Accumulated(WideningMul(a.lo, b.lo), WideningMul(a.lo, b.hi), WideningMul(a.hi, b.lo), WideningMul(a.hi, b.hi))
  }

  lemma ProductFits(a: U256, b: U256)
    ensures 0 <= a.Value() * b.Value() && Fits(a.Value() * b.Value())
  {
    MulMono(a.Value(), SQUARE - 1, b.Value());
  }

  datatype Ordering = Less | Equal | Greater

  function CompareWord(x: word, y: word): Ordering {
    if x < y then Ordering.Less else if x == y then Equal else Greater
  }

  /** cmp_u512: the highest limb that differs decides. */
  method Compare(x: U512, y: U512) returns (c: Ordering)
    ensures c.Less? <==> Total(x) < Total(y)
    ensures c.Equal? <==> Total(x) == Total(y)
  {
    var i := 4;
    while i > 0
      invariant 0 <= i <= 4
      invariant forall j :: i <= j < 4 ==> x[j] == y[j]
    {
      i := i - 1;
      if x[i] != y[i] {
        return CompareWord(x[i], y[i]);
      }
    }
    c := Equal;
  }

  /** The value of the limbs below `i`, and of a one in limb `i`. */
  function Below(s: seq<nat>, i: nat): nat
    requires |s| == 4 && i <= 4
  {
    if i == 0 then 0 else Below(s, i - 1) + s[i - 1] * Place(i - 1)
  }

  function Place(i: nat): nat
    requires i <= 4
  {
    if i == 0 then 1 else if i == 1 then BASE else if i == 2 then SQUARE else if i == 3 then CUBE else FOURTH
  }

  lemma BelowAll(s: seq<nat>)
    requires |s| == 4
    ensures Below(s, 4) == Total(s)
  {
    assert Below(s, 1) == s[0];
    assert Below(s, 2) == s[0] + s[1] * BASE;
    assert Below(s, 3) == s[0] + s[1] * BASE + s[2] * SQUARE;
  }

  lemma {:induction false} BelowFrame(s: seq<nat>, t: seq<nat>, i: nat)
    requires |s| == |t| == 4 && i <= 4
    requires forall j :: 0 <= j < i ==> s[j] == t[j]
    ensures Below(s, i) == Below(t, i)
  {
    if i > 0 {
      BelowFrame(s, t, i - 1);
    }
  }

  lemma SubIsExact(x: word, y: word, b: bool)
    ensures var (d1, b1) := OverflowingSub(x, y);
            var (d2, b2) := OverflowingSub(d1, Bit(b));
            x - y - Bit(b) == d2 - Bit(b1 || b2) * BASE
  {
  }

  lemma BorrowAtPlace(x: nat, y: nat, b: nat, d: nat, o: nat, p: nat)
    requires x - y - b == d - o * BASE
    ensures x * p - y * p - b * p == d * p - o * (BASE * p)
  {
    assert (x - y - b) * p == x * p - y * p - b * p;
    assert (d - o * BASE) * p == d * p - o * (BASE * p);
  }

  /** sub_u512, with the borrow rippling up. */
  method Subtract(x: U512, y: U512) returns (r: U512)
    requires Total(y) <= Total(x)
    ensures Total(r) == Total(x) - Total(y)
  {
    hide Total, OverflowingSub, Bit;
    var result: seq<word> := [0, 0, 0, 0];
    var borrow := false;
    var i := 0;
    NoBorrow();
    while i < 4
      invariant 0 <= i <= 4 && |result| == 4
      invariant Below(result, i) - Bit(borrow) * Place(i) == Below(x, i) - Below(y, i)
    {
      hide Place;
      PlaceStep(i);
      SubIsExact(x[i], y[i], borrow);
      var (d1, b1) := OverflowingSub(x[i], y[i]);
      var (d2, b2) := OverflowingSub(d1, Bit(borrow));
      BelowFrame(result, result[i := d2], i);
      BorrowAtPlace(x[i], y[i], Bit(borrow), d2, Bit(b1 || b2), Place(i));
      result := result[i := d2];
      borrow := b1 || b2;
      i := i + 1;
    }
    BelowAll(x);
    BelowAll(y);
    BelowAll(result);
    NothingBorrowed(result, borrow);
    r := result;
  }

  lemma PlaceStep(i: nat)
    requires i < 4
    ensures Place(i + 1) == BASE * Place(i)
  {
  }

  lemma NoBorrow()
    ensures Bit(false) * Place(0) == 0
  {
  }

  lemma NothingBorrowed(s: seq<word>, b: bool)
    requires |s| == 4 && Total(s) - Bit(b) * Place(4) >= 0
    ensures Bit(b) * Place(4) == 0
  {
  }

  // ---- shifts ----

  /** Limb `j` of a number shifted left by `ws` limbs and `bs` bits. */
  function ShlLimb(x: U512, ws: nat, bs: nat, j: nat): word
    requires ws < 4 && bs < 128 && j < 4
  {
    if j < ws then 0
    else if bs == 0 then x[j - ws]
    else if j == ws then ShiftLeft(x[0], bs)
    else
      Glue(x[j - ws], x[j - ws - 1], bs);
      Or(ShiftLeft(x[j - ws], bs), ShiftRight(x[j - ws - 1], 128 - bs))
  }

  lemma ShiftByNothing(x: word)
    ensures ShiftLeft(x, 0) == x && ShiftRight(x, 0) == x
  {
    assert Pow2(0) == 1;
  }

  /** shl_u512, limb by limb. */
  method ShiftedLeft(x: U512, bits: nat) returns (r: U512)
    requires 0 < Total(x) && Fits(Total(x) * Pow2(bits))
    ensures Total(r) == Total(x) * Pow2(bits)
  {
    hide Pow2, Or, ShiftLeft, ShiftRight, Total;
    if bits >= 512 {
      TooFar(Total(x), bits);
      return ZERO512;
    }
    if bits == 0 {
      Pow2Zero();
      return x;
    }
    var ws, bs := bits / 128, bits % 128;
    var result: seq<word> := [0, 0, 0, 0];
    var i := ws;
    while i < 4
      invariant ws <= i <= 4 && |result| == 4
      invariant forall j :: 0 <= j < 4 ==> result[j] == if j < i then ShlLimb(x, ws, bs, j) else 0
    {
      ShiftByNothing(x[i - ws]);
      var limb: nat := ShiftLeft(x[i - ws], bs);
      if bs > 0 && i > ws {
        limb := Or(limb, ShiftRight(x[i - ws - 1], 128 - bs));
      }
      assert limb == ShlLimb(x, ws, bs, i);
      result := result[i := limb];
      i := i + 1;
    }
    r := result;
    ShlValue(x, ws, bs, r);
  }

  lemma TooFar(v: nat, bits: nat)
    requires v > 0 && bits >= 512
    ensures !Fits(v * Pow2(bits))
  {
    hide Pow2;
    Pow2Mono(512, bits);
    Pow2Square();
    Doubled(256, SQUARE);
    MulMono(1, v, Pow2(bits));
  }

  /** The parts a limb splits into when multiplied by 2^bs: what stays and what carries. */
  function Stay(x: word, bs: nat): nat
    requires bs < 128
  {
    if bs == 0 then x else ShiftLeft(x, bs)
  }

  function Carry(x: word, bs: nat): nat
    requires bs < 128
  {
    if bs == 0 then 0 else ShiftRight(x, 128 - bs)
  }

  lemma LimbTimes(x: word, bs: nat)
    requires bs < 128
    ensures x * Pow2(bs) == Stay(x, bs) + Up(Carry(x, bs))
  {
    hide Pow2, ShiftLeft, ShiftRight;
    if bs == 0 {
      Pow2Zero();
    } else {
      SplitWord(x, bs);
    }
  }

  lemma LimbGlues(x: U512, ws: nat, bs: nat, j: nat)
    requires ws < 4 && bs < 128 && j < 4
    ensures ShlLimb(x, ws, bs, j)
         == (if j < ws then 0 else Stay(x[j - ws], bs) + (if j > ws then Carry(x[j - ws - 1], bs) else 0))
  {
    hide Pow2, Or, ShiftLeft, ShiftRight;
    if bs > 0 && j > ws {
      Glue(x[j - ws], x[j - ws - 1], bs);
      SplitWord(x[j - ws], bs);
      SplitWord(x[j - ws - 1], bs);
    }
  }

  lemma {:induction false} RaisedTimes(v: nat, ws: nat, bs: nat)
    ensures v * Pow2(128 * ws + bs) == Raised(v * Pow2(bs), ws)
  {
    hide Pow2;
    if ws > 0 {
      RaisedTimes(v, ws - 1, bs);
      Pow2Word();
      Pow2Sum(128 * (ws - 1) + bs, 128);
      var p := Pow2(128 * (ws - 1) + bs);
      assert v * (p * BASE) == (v * p) * BASE;
    }
  }

  lemma ShlValue(x: U512, ws: nat, bs: nat, r: U512)
    requires ws < 4 && bs < 128 && Fits(Total(x) * Pow2(128 * ws + bs))
    requires forall j :: 0 <= j < 4 ==> r[j] == ShlLimb(x, ws, bs, j)
    ensures Total(r) == Total(x) * Pow2(128 * ws + bs)
  {
    hide Pow2, ShlLimb, Stay, Carry, Total, Fits, Raised;
    var p := Pow2(bs);
    RaisedTimes(Total(x), ws, bs);
    LimbTimes(x[0], bs);
    LimbTimes(x[1], bs);
    LimbTimes(x[2], bs);
    LimbTimes(x[3], bs);
    LimbGlues(x, ws, bs, 0);
    LimbGlues(x, ws, bs, 1);
    LimbGlues(x, ws, bs, 2);
    LimbGlues(x, ws, bs, 3);
    TotalTimes(x, p);
    ShlTotal(ws, r, Stay(x[0], bs), Stay(x[1], bs), Stay(x[2], bs), Stay(x[3], bs),
             Carry(x[0], bs), Carry(x[1], bs), Carry(x[2], bs), Carry(x[3], bs), Total(x) * p);
  }

  lemma TotalTimes(x: U512, p: nat)
    ensures Total(x) * p == x[0] * p + Up(x[1] * p + Up(x[2] * p + Up(x[3] * p)))
  {
    UpTimes(x[2], x[3], p);
    UpTimes(x[1], x[2] + Up(x[3]), p);
    UpTimes(x[0], x[1] + Up(x[2] + Up(x[3])), p);
  }

  lemma UpTimes(x: nat, y: nat, p: nat)
    ensures (x + Up(y)) * p == x * p + Up(y * p)
  {
  }

  /** `ws` limbs higher. */
  function Raised(v: int, ws: nat): int {
    if ws == 0 then v else Up(Raised(v, ws - 1))
  }

  /** Something in the fifth limb does not fit. */
  lemma FifthLimb(a: nat, b: nat, c: nat, d: nat, e: nat)
    requires Fits(a + Up(b + Up(c + Up(d + Up(e)))))
    ensures e == 0
  {
  }

  lemma Regrouped(s0: nat, s1: nat, s2: nat, s3: nat, c0: nat, c1: nat, c2: nat, c3: nat)
    ensures s0 + Up(c0) + Up(s1 + Up(c1) + Up(s2 + Up(c2) + Up(s3 + Up(c3))))
         == s0 + Up(s1 + c0 + Up(s2 + c1 + Up(s3 + c2 + Up(c3))))
  {
    hide Up;
    UpSum(c2, s3 + Up(c3));
    UpSum(c1, s2 + Up(c2) + Up(s3 + Up(c3)));
    UpSum(c0, s1 + Up(c1) + Up(s2 + Up(c2) + Up(s3 + Up(c3))));
    assert c2 + (s3 + Up(c3)) == s3 + c2 + Up(c3);
    assert c1 + (s2 + Up(c2) + Up(s3 + Up(c3))) == s2 + c1 + Up(s3 + c2 + Up(c3));
    assert c0 + (s1 + Up(c1) + Up(s2 + Up(c2) + Up(s3 + Up(c3)))) == s1 + c0 + Up(s2 + c1 + Up(s3 + c2 + Up(c3)));
  }

  lemma UpZero(x: nat)
    ensures Up(x) >= x && (Up(x) == 0 <==> x == 0)
  {
  }

  /** Nothing is lost at the top when the shifted number fits. */
  lemma ShlTotal(ws: nat, r: U512, s0: nat, s1: nat, s2: nat, s3: nat, c0: nat, c1: nat, c2: nat, c3: nat, v: nat)
    requires ws < 4
    requires v == s0 + Up(c0) + Up(s1 + Up(c1) + Up(s2 + Up(c2) + Up(s3 + Up(c3))))
    requires Fits(Raised(v, ws))
    requires ws == 0 ==> r[0] == s0 && r[1] == s1 + c0 && r[2] == s2 + c1 && r[3] == s3 + c2
    requires ws == 1 ==> r[0] == 0 && r[1] == s0 && r[2] == s1 + c0 && r[3] == s2 + c1
    requires ws == 2 ==> r[0] == r[1] == 0 && r[2] == s0 && r[3] == s1 + c0
    requires ws == 3 ==> r[0] == r[1] == r[2] == 0 && r[3] == s0
    ensures Total(r) == Raised(v, ws)
  {
    hide Up, Fits;
    Regrouped(s0, s1, s2, s3, c0, c1, c2, c3);
    var d3 := Upped(s3 + c2, c3);
    var d2 := Upped(s2 + c1, d3);
    var d1 := Upped(s1 + c0, d2);
    assert Raised(v, 0) == s0 + Up(d1);
    UpZero(0);
    UpZero(c3);
    if ws == 0 {
      FifthLimb(s0, s1 + c0, s2 + c1, s3 + c2, c3);
    } else if ws == 1 {
      assert Raised(v, 1) == Up(Raised(v, 0));
      FifthLimb(0, s0, s1 + c0, s2 + c1, d3);
    } else if ws == 2 {
      assert Raised(v, 1) == Up(Raised(v, 0));
      assert Raised(v, 2) == Up(Raised(v, 1));
      FifthLimb(0, 0, s0, s1 + c0, d2);
    } else {
      assert Raised(v, 1) == Up(Raised(v, 0));
      assert Raised(v, 2) == Up(Raised(v, 1));
      assert Raised(v, 3) == Up(Raised(v, 2));
      FifthLimb(0, 0, 0, s0, d1);
    }
  }

  function Upped(x: nat, y: nat): nat {
    x + Up(y)
  }

  /** The limbs from `ws` up, moved down to the bottom. */
  function Dropped(x: U512, ws: nat): U512
    requires ws < 4
  {
    x[ws..] + [0, 0, 0, 0][..ws]
  }

  /** Limb `j` of a number shifted right by `bs` bits. */
  function ShrLimb(y: U512, bs: nat, j: nat): nat
    requires bs < 128 && j < 4
  {
    if bs == 0 then y[j]
    else if j == 3 then ShiftRight(y[j], bs)
    else Or(ShiftRight(y[j], bs), ShiftLeft(y[j + 1], 128 - bs))
  }

  /** What limb `j` becomes: its own high part, and the low part of the next limb. */
  lemma ShrLimbParts(y: U512, bs: nat, j: nat)
    requires bs < 128 && j < 4
    ensures var p, next := Pow2(bs), if j < 3 then y[j + 1] % Pow2(bs) else 0;
            ShrLimb(y, bs, j) < BASE && ShrLimb(y, bs, j) * p == y[j] - y[j] % p + Up(next)
    ensures 0 <= y[j] % Pow2(bs) < Pow2(bs)
  {
    hide Pow2, Or, ShiftLeft, ShiftRight;
    var p := Pow2(bs);
    FloorDivBounds(y[j], p);
    if bs == 0 {
      Pow2Zero();
    } else {
      ShiftedPart(y[j], p);
      if j < 3 {
        OrComm(ShiftRight(y[j], bs), ShiftLeft(y[j + 1], 128 - bs));
        Glue(y[j + 1], y[j], 128 - bs);
        SplitWord(y[j + 1], 128 - bs);
        SplitWord(y[j], 128 - bs);
        Pow2Split(bs);
        var q := Pow2(128 - bs);
        GluedTimes(y[j + 1] % p, y[j] / p, p, q);
      } else {
        SplitWord(y[j], 128 - bs);
      }
    }
  }

  lemma ShiftedPart(x: nat, p: nat)
    requires p > 0
    ensures (x / p) * p == x - x % p && 0 <= x % p < p
  {
    assert x == p * (x / p) + x % p;
  }

  lemma GluedTimes(low: nat, high: nat, p: nat, q: nat)
    requires p * q == BASE
    ensures (low * q + high) * p == high * p + Up(low)
  {
    assert (low * q) * p == low * (p * q);
  }

  /** shr_u512, limb by limb. */
  method ShiftedRight(x: U512, bits: nat) returns (r: U512)
    ensures Total(r) == Total(x) / Pow2(bits)
  {
    hide Pow2, Or, ShiftLeft, ShiftRight, Total;
    if bits >= 512 {
      NothingLeft(x, bits);
      return ZERO512;
    }
    if bits == 0 {
      Pow2Zero();
      return x;
    }
    var ws, bs := bits / 128, bits % 128;
    ghost var y := Dropped(x, ws);
    var result: seq<word> := [0, 0, 0, 0];
    var i := 0;
    while i < 4 - ws
      invariant 0 <= i <= 4 - ws && |result| == 4
      invariant forall j :: 0 <= j < 4 ==> result[j] == if j < i then ShrLimb(y, bs, j) else 0
    {
      ShiftByNothing(x[i + ws]);
      ShrLimbParts(y, bs, i);
      var limb: nat := ShiftRight(x[i + ws], bs);
      if bs > 0 && i + ws + 1 < 4 {
        limb := Or(limb, ShiftLeft(x[i + ws + 1], 128 - bs));
      }
      TopIsZero(y, bs, i, ws);
      result := result[i := limb];
      i := i + 1;
    }
    r := result;
    DroppedTotal(x, ws);
    EmptyLimbs(y, bs, ws);
    ShrValue(y, bs, r);
    QuotientTwice(Total(x), Pow2(128 * ws), Pow2(bs)) by { Pow2Sum(128 * ws, bs); }
    Pow2Sum(128 * ws, bs);
  }

  lemma NothingLeft(x: U512, bits: nat)
    requires bits >= 512
    ensures Total(x) / Pow2(bits) == Total(ZERO512)
  {
    hide Pow2;
    Pow2Mono(512, bits);
    Pow2Square();
    Doubled(256, SQUARE);
    TotalFits(x);
    FloorDivUnique(Total(x), Pow2(bits), 0);
  }

  lemma TotalFits(x: U512)
    ensures Fits(Total(x))
  {
  }

  /** Above the limbs of the number, nothing is glued on. */
  lemma TopIsZero(y: U512, bs: nat, i: nat, ws: nat)
    requires bs < 128 && i < 4 && ws < 4 && (i + ws + 1 >= 4 && i < 3 ==> y[i + 1] == 0)
    ensures bs > 0 && i + ws + 1 >= 4 ==> ShrLimb(y, bs, i) == ShiftRight(y[i], bs)
  {
    if bs > 0 && i < 3 && i + ws + 1 >= 4 {
      assert 0 * Pow2(128 - bs) == 0;
      OrNothing(ShiftRight(y[i], bs));
    }
  }

  lemma EmptyLimbs(y: U512, bs: nat, ws: nat)
    requires bs < 128 && ws < 4 && forall j :: 4 - ws <= j < 4 ==> y[j] == 0
    ensures forall j :: 4 - ws <= j < 4 ==> ShrLimb(y, bs, j) == 0
  {
    hide Pow2, Or;
    forall j | 4 - ws <= j < 4
      ensures ShrLimb(y, bs, j) == 0
    {
      assert 0 * Pow2(128 - bs) == 0;
      FloorDivUnique(0, Pow2(bs), 0);
      OrNothing(0);
    }
  }

  lemma {:induction false} DroppedTotal(x: U512, ws: nat)
    requires ws < 4
    ensures Total(Dropped(x, ws)) == Total(x) / Pow2(128 * ws)
  {
    hide Pow2;
    if ws == 0 {
      Pow2Zero();
      assert Dropped(x, 0) == x;
    } else {
      DroppedTotal(x, ws - 1);
      var y, z := Dropped(x, ws - 1), Dropped(x, ws);
      OneLimbDown(y, z);
      Pow2Sum(128 * (ws - 1), 128);
      Pow2Word();
      QuotientTwice(Total(x), Pow2(128 * (ws - 1)), BASE);
    }
  }

  lemma OneLimbDown(y: U512, z: U512)
    requires z[0] == y[1] && z[1] == y[2] && z[2] == y[3] && z[3] == 0
    ensures Total(z) == Total(y) / BASE
  {
    FloorDivUnique(Total(y), BASE, Total(z));
  }

  /** Dividing twice is dividing by the product. */
  lemma QuotientTwice(n: nat, a: nat, b: nat)
    requires a > 0 && b > 0
    ensures a * b > 0 && (n / a) / b == n / (a * b)
  {
    FloorDivBounds(n, a);
    var m := n / a;
    FloorDivBounds(m, b);
    var q := m / b;
    assert q * b * a <= m * a by { MulMono(q * b, m, a); }
    MulMono(m + 1, q * b + b, a);
    assert (q * b) * a == q * (a * b) && (q * b + b) * a == q * (a * b) + a * b && (m + 1) * a == m * a + a;
    FloorDivUnique(n, a * b, q);
  }

  /** The glued limbs are the quotient. */
  lemma ShrValue(y: U512, bs: nat, r: U512)
    requires bs < 128
    requires forall j :: 0 <= j < 4 ==> r[j] == ShrLimb(y, bs, j)
    ensures Total(r) == Total(y) / Pow2(bs)
  {
    hide Pow2, ShrLimb, Up, Total;
    var p := Pow2(bs);
    ShrLimbParts(y, bs, 0);
    ShrLimbParts(y, bs, 1);
    ShrLimbParts(y, bs, 2);
    ShrLimbParts(y, bs, 3);
    TotalTimes(r, p);
    Telescoped(y, r[0] * p, r[1] * p, r[2] * p, r[3] * p, y[0] % p, y[1] % p, y[2] % p, y[3] % p);
    FloorDivUnique(Total(y), p, Total(r));
  }

  lemma Telescoped(y: U512, t0: int, t1: int, t2: int, t3: int, l0: int, l1: int, l2: int, l3: int)
    requires t0 == y[0] - l0 + Up(l1) && t1 == y[1] - l1 + Up(l2) && t2 == y[2] - l2 + Up(l3) && t3 == y[3] - l3 + Up(0)
    ensures t0 + Up(t1 + Up(t2 + Up(t3))) == Total(y) - l0
  {
    hide Up;
    UpZero(0);
    UpSum(l3, t3);
    UpSum(l2, t2 + Up(t3));
    UpSum(l1, t1 + Up(t2 + Up(t3)));
    assert l2 + (t2 + Up(t3)) == y[2] + Up(y[3]);
    assert l1 + (t1 + Up(t2 + Up(t3))) == y[1] + Up(y[2] + Up(y[3]));
  }

  // ---- the bits of the quotient ----

  /** The value with bit `bit` or-ed in. */
  function SetBit512(q: U512, bit: nat): U512
    requires bit < 512
  {
    var word, b := bit / 128, bit % 128;
    OrBitFits(q[word], b);
    q[word := Or(q[word], ShiftLeft(1, b))]
  }

  lemma OrBitFits(x: word, b: nat)
    requires b < 128
    ensures ShiftLeft(1, b) == Pow2(b) && Or(x, ShiftLeft(1, b)) < BASE
  {
    hide Pow2, Or;
    Pow2Word();
    Pow2Mono(b, 127);
    Pow2Double(127);
    LowPart(1 * Pow2(b), Pow2(b), 0);
    OrBelow(x, Pow2(b), 128);
  }

  /** Setting bit `i` of a multiple of 2^(i + 1) adds 2^i. */
  lemma SetBit512Adds(q: U512, m: nat, i: nat)
    requires i < 512 && Total(q) == m * Pow2(i + 1)
    ensures Total(SetBit512(q, i)) == Total(q) + Pow2(i)
  {
    hide Pow2, Or, Up, Total;
    var w, j := i / 128, i % 128;
    OrBitFits(q[w], j);
    RaisedTimes(m, w, j + 1);
    RaisedTimes(1, w, j);
    assert 1 * Pow2(i) == Pow2(i) && 1 * Pow2(j) == Pow2(j);
    Pow2Split(j + 1);
    LowLimbsEmpty(q, m * Pow2(j + 1), w);
    OrAtLimb(q[w], Rest(q, w), m, j);
    RaisedLimb(q, w, Pow2(j), SetBit512(q, i));
  }

  /** What is above limb `w`, in units of the next limb. */
  function Rest(q: U512, w: nat): nat
    requires w < 4
    decreases 3 - w
  {
    if w == 3 then 0 else q[w + 1] + Up(Rest(q, w + 1))
  }

  lemma LowLimbsEmpty(q: U512, n: nat, w: nat)
    requires w < 4 && Total(q) == Raised(n, w)
    ensures q[w] + Up(Rest(q, w)) == n
  {
    hide Up;
    UpZero(0);
    assert Raised(n, 0) == n;
    assert Raised(n, 1) == Up(Raised(n, 0));
    assert Raised(n, 2) == Up(Raised(n, 1));
    assert Raised(n, 3) == Up(Raised(n, 2));
    assert Rest(q, 2) == q[3] + Up(Rest(q, 3));
    assert Rest(q, 1) == q[2] + Up(Rest(q, 2));
    assert Rest(q, 0) == q[1] + Up(Rest(q, 1));
    if w > 0 {
      UpEqual(q[0], Rest(q, 0), Raised(n, w - 1));
      if w > 1 {
        UpEqual(q[1], Rest(q, 1), Raised(n, w - 2));
        if w > 2 {
          UpEqual(q[2], Rest(q, 2), n);
        }
      }
    }
  }

  lemma UpEqual(x: word, a: int, b: int)
    requires x + Up(a) == Up(b)
    ensures x == 0 && a == b
  {
  }

  lemma OrAtLimb(x: word, rest: nat, m: nat, j: nat)
    requires j < 128 && x + Up(rest) == m * Pow2(j + 1)
    ensures Or(x, Pow2(j)) == x + Pow2(j)
  {
    hide Pow2, Or;
    Pow2Split(j + 1);
    LowMultiple(x, rest, m, Pow2(j + 1), Pow2(127 - j));
    OrBit(x, m - rest * Pow2(127 - j), j);
  }

  lemma RaisedLimb(q: U512, w: nat, d: nat, r: U512)
    requires w < 4 && q[w] + d < BASE && r == q[w := q[w] + d]
    ensures Total(r) == Total(q) + Raised(d, w)
  {
    hide Up;
    assert Raised(d, 0) == d;
    assert Raised(d, 1) == Up(Raised(d, 0));
    assert Raised(d, 2) == Up(Raised(d, 1));
    assert Raised(d, 3) == Up(Raised(d, 2));
    if w == 1 {
      UpSum(q[1] + Up(q[2] + Up(q[3])), d);
    } else if w == 2 {
      UpSum(q[2] + Up(q[3]), d);
      UpSum(q[1] + Up(q[2] + Up(q[3])), Up(d));
    } else if w == 3 {
      UpSum(q[3], d);
      UpSum(q[2] + Up(q[3]), Up(d));
      UpSum(q[1] + Up(q[2] + Up(q[3])), Up(Up(d)));
    }
  }

  /** leading_zeros, from the top limb down. */
  method LeadingZeros512(x: U512) returns (r: nat)
    requires Total(x) > 0
    ensures r < 512 && Pow2(511 - r) <= Total(x) < Pow2(512 - r)
  {
    hide Pow2, Total;
    var i := 4;
    while i > 0
      invariant 0 <= i <= 4
      invariant forall j :: i <= j < 4 ==> x[j] == 0
    {
      i := i - 1;
      if x[i] != 0 {
        WordBits(x[i]);
        TopLimbBounds(x, i);
        return (3 - i) * 128 + (128 - BitLen(x[i]));
      }
    }
    AllZero(x);
  }

  lemma AllZero(x: U512)
    requires forall j :: 0 <= j < 4 ==> x[j] == 0
    ensures Total(x) == 0
  {
  }

  lemma RaisedPow2(w: nat, j: nat)
    ensures Pow2(128 * w + j) == Raised(Pow2(j), w)
  {
    hide Pow2;
    RaisedTimes(1, w, j);
    assert 1 * Pow2(j) == Pow2(j) && 1 * Pow2(128 * w + j) == Pow2(128 * w + j);
  }

  lemma TopLimbBounds(x: U512, i: nat)
    requires i < 4 && x[i] != 0 && forall j :: i < j < 4 ==> x[j] == 0
    ensures var n := BitLen(x[i]);
            0 < n <= 128 && Pow2(128 * i + n - 1) <= Total(x) < Pow2(128 * i + n)
  {
    hide Pow2, Raised, Total;
    WordBits(x[i]);
    RaisedPow2(i, BitLen(x[i]));
    RaisedPow2(i, BitLen(x[i]) - 1);
    TopLimbCore(x, i, Pow2(BitLen(x[i]) - 1), Pow2(BitLen(x[i])));
  }

  lemma LimbBetween(x: word, v: int, low: int, high: int)
    requires low <= v < high
    ensures Up(low) <= x + Up(v) < Up(high)
  {
  }

  lemma TopLimbCore(x: U512, i: nat, low: nat, high: nat)
    requires i < 4 && low <= x[i] < high && forall j :: i < j < 4 ==> x[j] == 0
    ensures Raised(low, i) <= Total(x) < Raised(high, i)
  {
    hide Up;
    UpZero(0);
    assert Raised(low, 1) == Up(low) && Raised(high, 1) == Up(high);
    assert Raised(low, 2) == Up(Raised(low, 1)) && Raised(high, 2) == Up(Raised(high, 1));
    assert Raised(low, 3) == Up(Raised(low, 2)) && Raised(high, 3) == Up(Raised(high, 2));
    if i == 1 {
      LimbBetween(x[0], x[1], low, high);
    } else if i == 2 {
      LimbBetween(x[1], x[2], low, high);
      LimbBetween(x[0], x[1] + Up(x[2]), Up(low), Up(high));
    } else if i == 3 {
      LimbBetween(x[2], x[3], low, high);
      LimbBetween(x[1], x[2] + Up(x[3]), Up(low), Up(high));
      LimbBetween(x[0], x[1] + Up(x[2] + Up(x[3])), Up(Up(low)), Up(Up(high)));
    }
  }

  // ---- division ----

  /** try_into_u256. */
  function Narrowed(x: U512): Option<U256> {
    if x[2] != 0 || x[3] != 0 then None else Some(U256(x[0], x[1]))
  }

  lemma NarrowedValue(x: U512)
    ensures Narrowed(x).Some? <==> Total(x) < SQUARE
    ensures Narrowed(x).Some? ==> Narrowed(x).value.Value() == Total(x)
  {
  }

  lemma WidenedValue(x: U256)
    ensures Total(Widened(x)) == x.Value() < SQUARE
  {
  }

  lemma FirstDivisor512(num: nat, den: nat, n: nat, d: nat)
    requires n < 512 && d < 512 && 0 < den <= num
    requires Pow2(511 - n) <= num < Pow2(512 - n) && Pow2(511 - d) <= den < Pow2(512 - d)
    ensures n <= d && Fits(den * Pow2(d - n)) && num < 2 * (den * Pow2(d - n))
  {
    hide Pow2;
    DivisorRange(num, den, n, d, 512);
    Pow2Square();
    Doubled(256, SQUARE);
  }

  /** checked_div_rem_by_u256: exact division, refused exactly when the quotient needs
      more than 256 bits. */
  method CheckedDivRem(x: U512, den: U256) returns (r: Option<(U256, U256)>)
    requires !den.IsZero()
    ensures r.Some? <==> Total(x) < SQUARE * den.Value()
    ensures r.Some? ==>
              Total(x) == r.value.0.Value() * den.Value() + r.value.1.Value() && r.value.1.Value() < den.Value()
  {
    hide Pow2, Total, Widened, SetBit512, U256.Value, Narrowed, Fits;
    var d := Widened(den);
    ValueRange(den);
    WidenedValue(den);
    NarrowedValue(x);
    ValueRange(ZERO);
    ghost var num, dv := Total(x), den.Value();
    SmallNumerator(num, dv);
    if x == ZERO512 {
      AllZero(x);
      return Some((ZERO, ZERO));
    }
    NotAllZero(x);
    var c := Compare(x, d);
    if c.Less? {
      return Some((ZERO, Narrowed(x).value));
    }
    var numLz := LeadingZeros512(x);
    var denLz := LeadingZeros512(d);
    FirstDivisor512(num, dv, numLz, denLz);
    if denLz < numLz {
      assert false;
    }
    var shift := denLz - numLz;
    var remainder, quotient := x, ZERO512;
    var divisor := ShiftedLeft(d, shift);
    var i: int := shift;
    ghost var m: nat := 0;
    Pow2Double(shift);
    StartOfDivision(num, dv, Pow2(shift), Pow2(shift + 1));
    AllZero(ZERO512);
    while i >= 0
      invariant -1 <= i <= shift <= 511
      invariant i >= 0 ==> Total(divisor) == dv * Pow2(i)
      invariant Total(remainder) < dv * Pow2(i + 1)
      invariant num == Total(quotient) * dv + Total(remainder)
      invariant Total(quotient) == m * Pow2(i + 1)
      decreases i + 1
    {
      ghost var p := Pow2(i);
      Pow2Double(i);
      DivisionStep(num, Total(quotient), dv, Total(remainder), p);
      HalfStep(dv, p, Pow2(i + 1), m);
      c := Compare(remainder, divisor);
      if !c.Less? {
        remainder := Subtract(remainder, divisor);
        SetBit512Adds(quotient, m, i);
        quotient := SetBit512(quotient, i);
        m := 2 * m + 1;
      } else {
        m := 2 * m;
      }
      HalfOfPower(dv, i);
      divisor := ShiftedRight(divisor, 1);
      i := i - 1;
    }
    Pow2Zero();
    NarrowedValue(quotient);
    NarrowedValue(remainder);
    QuotientFits(num, Total(quotient), dv, Total(remainder));
    var q := Narrowed(quotient);
    if q.None? {
      return None;
    }
    r := Some((q.value, Narrowed(remainder).value));
  }

  lemma SmallNumerator(num: nat, den: nat)
    requires 0 < den < SQUARE
    ensures 0 * den == 0 && (num < den ==> num < SQUARE * den)
  {
    MulMono(1, SQUARE, den);
  }

  lemma NotAllZero(x: U512)
    requires x != ZERO512
    ensures Total(x) > 0
  {
  }

  lemma HalfOfPower(den: nat, i: nat)
    ensures i > 0 ==> (den * Pow2(i)) / Pow2(1) == den * Pow2(i - 1)
  {
    hide Pow2;
    if i > 0 {
      Pow2Zero();
      Pow2Double(0);
      Pow2Double(i - 1);
      HalfStep(den, Pow2(i - 1), Pow2(i), 0);
      HalfOf(den * Pow2(i), den * Pow2(i - 1));
    }
  }

  lemma QuotientFits(num: nat, q: nat, den: nat, rem: nat)
    requires num == q * den + rem && rem < den
    ensures q < SQUARE <==> num < SQUARE * den
  {
    if q < SQUARE {
      MulMono(q + 1, SQUARE, den);
      assert (q + 1) * den == q * den + den;
    } else {
      MulMono(SQUARE, q, den);
    }
  }

  // ---- the helpers the engine calls ----

  /** mul_div_floor_u256_with_rem; a quotient of more than 256 bits aborts. */
  method MulDivFloor(a: U256, b: U256, d: U256) returns (r: Option<(U256, U256)>)
    requires !d.IsZero()
    ensures r.Some? <==> a.Value() * b.Value() < SQUARE * d.Value()
    ensures r.Some? ==> d.Value() > 0 && r.value.0.Value() == a.Value() * b.Value() / d.Value()
                        && r.value.1.Value() == a.Value() * b.Value() % d.Value()
  {
    hide Product, U256.Value, Total;
    ValueRange(d);
    r := CheckedDivRem(Product(a, b), d);
    if r.Some? {
      FloorDivUnique(a.Value() * b.Value(), d.Value(), r.value.0.Value());
      RemainderUnique(a.Value() * b.Value(), d.Value(), r.value.0.Value(), r.value.1.Value());
    }
  }

  lemma RemainderUnique(n: nat, d: nat, q: nat, r: nat)
    requires d > 0 && n == q * d + r && n / d == q
    ensures n % d == r
  {
    assert n == d * (n / d) + n % d;
  }

  /** mul_div_ceil_u256, whose aborts are `None`, and with them as its results
      checked_mul_div_ceil_u256: refused exactly when the divisor is zero or the rounded-up
      quotient needs more than 256 bits. */
  method MulDivCeil(a: U256, b: U256, d: U256) returns (r: Option<U256>)
    ensures r.Some? ==> !d.IsZero() && d.Value() > 0 && r.value.Value() == CeilDiv(a.Value() * b.Value(), d.Value())
    ensures r.None? <==> d.IsZero() || (d.Value() > 0 && CeilDiv(a.Value() * b.Value(), d.Value()) >= SQUARE)
  {
    hide U256.Value, CheckedAdd, CeilDiv;
    if d.IsZero() {
      return None;
    }
    ValueRange(d);
    var qr := MulDivFloor(a, b, d);
    if qr.None? {
      CeilAtLeast(a.Value() * b.Value(), d.Value(), SQUARE);
      return None;
    }
    var (q, rem) := qr.value;
    ValueRange(rem);
    CeilFromFloor(a.Value() * b.Value(), d.Value(), q.Value(), rem.Value());
    ValueRange(q);
    if rem.IsZero() {
      return Some(q);
    }
    ValueRange(ONE);
    SumsAreExact(q, ONE);
    OneValue();
    r := CheckedAdd(q, ONE);
  }

  lemma CeilAtLeast(n: nat, d: nat, q: nat)
    requires d > 0 && n >= q * d
    ensures CeilDiv(n, d) >= q
  {
    CeilDivBounds(n, d);
    if CeilDiv(n, d) < q {
      assert (CeilDiv(n, d) + 1) * d == CeilDiv(n, d) * d + d;
      MulMono(CeilDiv(n, d) + 1, q, d);
    }
  }

  lemma OneValue()
    ensures ONE.Value() == 1
  {
  }

  lemma CeilFromFloor(n: nat, d: nat, q: nat, r: nat)
    requires d > 0 && q == n / d && r == n % d
    ensures CeilDiv(n, d) == if r == 0 then q else q + 1
    ensures r > 0 && q + 1 >= SQUARE ==> n > (SQUARE - 1) * d
  {
    var c := if r == 0 then q else q + 1;
    assert n == d * q + r;
    assert (q + 1) * d == d * q + d;
    assert (0 - c) * d == 0 - c * d;
    FloorDivUnique(0 - n, d, 0 - c);
    if q + 1 >= SQUARE {
      MulMono(SQUARE - 1, q, d);
    }
  }
}
