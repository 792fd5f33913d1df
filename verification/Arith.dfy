// Integer helpers shared by every other module: machine widths, floor and
// ceiling division by a positive number, and the few nonlinear facts that the
// proofs need by name.
module Arith {

  const U64_MAX: nat := 0xFFFF_FFFF_FFFF_FFFF
  const U128_MAX: nat := 0xFFFF_FFFF_FFFF_FFFF_FFFF_FFFF_FFFF_FFFF
  const I128_MAX: nat := 0x7FFF_FFFF_FFFF_FFFF_FFFF_FFFF_FFFF_FFFF
  const I128_MIN: int := -0x8000_0000_0000_0000_0000_0000_0000_0000

  function Abs(x: int): nat {
    if x < 0 then -x else x
  }

  /** max(x, 0) as an unsigned number. */
  function Pos(x: int): nat {
    if x > 0 then x else 0
  }

  function Min(x: int, y: int): int {
    if x < y then x else y
  }

  function Max(x: int, y: int): int {
    if x < y then y else x
  }

  /** One less, and zero from zero. */
  function Pred(n: nat): nat {
    if n > 0 then n - 1 else 0
  }

  predicate IsI128(x: int) {
    I128_MIN <= x <= I128_MAX
  }

  /** floor(n / d), rounding towards minus infinity. */
  function FloorDiv(n: int, d: int): int
    requires d > 0
  {
    n / d
  }

  /** ceil(n / d). */
  function CeilDiv(n: int, d: int): int
    requires d > 0
  {
    -((-n) / d)
  }

  lemma FloorDivBounds(n: int, d: int)
    requires d > 0
    ensures FloorDiv(n, d) * d <= n < FloorDiv(n, d) * d + d
    ensures n >= 0 ==> FloorDiv(n, d) >= 0
  {
    assert n == d * (n / d) + n % d;
    assert d * (n / d) == (n / d) * d;
  }

  lemma CeilDivBounds(n: int, d: int)
    requires d > 0
    ensures CeilDiv(n, d) * d - d < n <= CeilDiv(n, d) * d
    ensures n >= 0 ==> CeilDiv(n, d) >= 0
  {
    var q := (-n) / d;
    FloorDivBounds(-n, d);
    assert (-q) * d == -(q * d);
  }

  /** `q` is n / d rounded down. */
  predicate IsFloor(q: int, n: int, d: int) {
    q * d <= n < q * d + d
  }

  /** `q` is n / d rounded up. */
  predicate IsCeil(q: int, n: int, d: int) {
    q * d - d < n <= q * d
  }

  lemma FloorIsFloor(n: int, d: int)
    requires d > 0
    ensures IsFloor(FloorDiv(n, d), n, d) && (n >= 0 ==> FloorDiv(n, d) >= 0)
    ensures forall q :: IsFloor(q, n, d) ==> q == FloorDiv(n, d)
  {
    FloorDivBounds(n, d);
    forall q | IsFloor(q, n, d)
      ensures q == FloorDiv(n, d)
    {
      FloorDivUnique(n, d, q);
    }
  }

  lemma CeilIsCeil(n: int, d: int)
    requires d > 0
    ensures IsCeil(CeilDiv(n, d), n, d) && (n >= 0 ==> CeilDiv(n, d) >= 0)
    ensures forall q :: IsCeil(q, n, d) ==> q == CeilDiv(n, d)
  {
    CeilDivBounds(n, d);
    forall q | IsCeil(q, n, d)
      ensures q == CeilDiv(n, d)
    {
      assert -q * d == -(q * d);
      FloorDivUnique(-n, d, -q);
    }
  }

  /** An integer exceeds a rounded-down quotient exactly when it exceeds the quotient. */
  lemma AboveFloor(x: int, n: int, d: int)
    requires d > 0
    ensures x > FloorDiv(n, d) <==> x * d > n
  {
    FloorDivBounds(n, d);
    if x > FloorDiv(n, d) {
      MulMono(FloorDiv(n, d) + 1, x, d);
      assert (FloorDiv(n, d) + 1) * d == FloorDiv(n, d) * d + d;
    } else {
      MulMono(x, FloorDiv(n, d), d);
    }
  }

  lemma MulMono(x: int, y: int, k: int)
    requires x <= y && k >= 0
    ensures x * k <= y * k
  {
    assert (y - x) * k >= 0;
    assert (y - x) * k == y * k - x * k;
  }

  /** Division is monotone and its quotient is determined by its bounds. */
  lemma QuotientOrder(p: int, q: int, m: int, n: int, d: int)
    requires d > 0 && m <= n
    requires p * d <= m
    requires n < q * d + d
    ensures p <= q
  {
    assert (q + 1) * d == q * d + d;
    if q + 1 <= p {
      MulMono(q + 1, p, d);
    }
  }

  lemma FloorDivUnique(n: int, d: int, q: int)
    requires d > 0
    requires q * d <= n < q * d + d
    ensures FloorDiv(n, d) == q
  {
    FloorDivBounds(n, d);
    QuotientOrder(FloorDiv(n, d), q, n, n, d);
    QuotientOrder(q, FloorDiv(n, d), n, n, d);
  }

  lemma FloorDivMono(m: int, n: int, d: int)
    requires d > 0 && m <= n
    ensures FloorDiv(m, d) <= FloorDiv(n, d)
  {
    FloorDivBounds(m, d);
    FloorDivBounds(n, d);
    QuotientOrder(FloorDiv(m, d), FloorDiv(n, d), m, n, d);
  }

  // ---- reals, one nonlinear step at a time ----

  lemma RealNonNegative(x: real, y: real)
    requires x >= 0.0 && y >= 0.0
    ensures x * y >= 0.0
  {
  }

  lemma RealDistributes(w: real, x: real, y: real)
    ensures w * (x + y) == w * x + w * y
  {
  }

  lemma RealMulLe(x: real, y: real, k: real)
    requires x <= y && k >= 0.0
    ensures x * k <= y * k
  {
    assert (y - x) * k >= 0.0;
    assert (y - x) * k == y * k - x * k;
  }

  lemma RealCancelLe(x: real, y: real, d: real)
    requires d > 0.0 && x * d <= y * d
    ensures x <= y
  {
    assert (y - x) * d == y * d - x * d;
  }

  lemma RealCancelLt(x: real, y: real, d: real)
    requires d > 0.0 && x * d < y * d
    ensures x < y
  {
    assert (y - x) * d == y * d - x * d;
  }

  lemma QuotientMono(x: real, y: real, d: real)
    requires d > 0.0 && x <= y
    ensures x / d <= y / d
  {
    assert (x / d) * d == x && (y / d) * d == y;
    RealCancelLe(x / d, y / d, d);
  }

  lemma DivideSum(x: real, y: real, d: real)
    requires d != 0.0
    ensures (x + y) / d == x / d + y / d
  {
  }
}
