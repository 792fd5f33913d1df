// The price feeds: a ring of recent prices whose lower median is published, and the
// readers that turn a source account into an instantaneous price.
module Oracle {
  import opened Arith
  import opened Options
  import opened Sums
  import opened Sorting

  const RING_LEN: nat := 30
  const POS_SCALE: nat := 1_000_000

  datatype OracleError =
    | StaleSource
    | Overflow
    | InvalidSourceKind
    | WrongSourceAccount
    | FeedAlreadyInitialized
    | FeedNotInitialized
    | AlreadyGraduated
    | NotGraduated
    | ConvertRequiresGraduation

  datatype Result<+T> = Ok(value: T) | Err(error: OracleError)

  datatype SourceKind = PumpBonding | PumpSwap | RaydiumCpmm | MeteoraDlmm

  // ---- the median ----

  ghost function BelowTerm(v: nat): nat -> int {
    (x: nat) => if x != 0 && x < v then 1 else 0
  }

  ghost function AtMostTerm(v: nat): nat -> int {
    (x: nat) => if x != 0 && x <= v then 1 else 0
  }

  ghost function PresentTerm(): nat -> int {
    (x: nat) => if x != 0 then 1 else 0
  }

  /** A price that is present, with at most half of the present prices below it, and
      more than the rounded-down half not above it. */
  ghost predicate IsLowerMedian(ring: seq<nat>, v: nat) {
    && v != 0 && v in ring
    && Sum(ring, BelowTerm(v)) <= (Sum(ring, PresentTerm()) - 1) / 2 < Sum(ring, AtMostTerm(v))
  }

  /** There is only one. */
  lemma LowerMedianUnique(ring: seq<nat>, v: nat, w: nat)
    requires IsLowerMedian(ring, v) && IsLowerMedian(ring, w)
    ensures v == w
  {
    if v < w {
      SumMono(ring, AtMostTerm(v), BelowTerm(w));
    } else if w < v {
      SumMono(ring, AtMostTerm(w), BelowTerm(v));
    }
  }

  function Present(ring: seq<nat>): seq<nat> {
    if ring == [] then []
    else
      var n := |ring| - 1;
      Present(ring[..n]) + (if ring[n] != 0 then [ring[n]] else [])
  }

  lemma {:induction false} SumOfPresent(ring: seq<nat>, f: nat -> int)
    requires f(0) == 0
    ensures Sum(ring, f) == Sum(Present(ring), f)
  {
    if ring != [] {
      var n := |ring| - 1;
      SumOfPresent(ring[..n], f);
      if ring[n] != 0 {
        var p := Present(ring[..n]) + [ring[n]];
        assert p[..|p| - 1] == Present(ring[..n]);
      } else {
        assert Present(ring) == Present(ring[..n]);
      }
    }
  }

  lemma {:induction false} PresentMembers(ring: seq<nat>)
    ensures forall x :: x in Present(ring) <==> x in ring && x != 0
    ensures |Present(ring)| <= |ring|
    ensures |Present(ring)| == Sum(ring, PresentTerm())
  {
    if ring != [] {
      var n := |ring| - 1;
      PresentMembers(ring[..n]);
      assert ring == ring[..n] + [ring[n]];
    }
  }

  lemma {:induction false} SumTake(s: seq<nat>, k: nat, x: nat, f: nat -> int)
    requires k < |s| && s[k] == x
    ensures Sum(s, f) == Sum(s[..k] + s[k + 1..], f) + f(x)
  {
    var n := |s| - 1;
    var t := s[..k] + s[k + 1..];
    if k == n {
      assert t == s[..n];
    } else {
      assert t[..|t| - 1] == s[..n][..k] + s[..n][k + 1..] && t[|t| - 1] == s[n];
      SumTake(s[..n], k, x, f);
    }
  }

  lemma WithoutOne(s: seq<nat>, t: seq<nat>, k: nat)
    requires multiset(s) == multiset(t) && |s| > 0 && k < |t| && t[k] == s[|s| - 1]
    ensures multiset(s[..|s| - 1]) == multiset(t[..k] + t[k + 1..])
  {
    var n, u := |s| - 1, t[..k] + t[k + 1..];
    assert s == s[..n] + [s[n]];
    assert t == t[..k] + [t[k]] + t[k + 1..];
    forall x
      ensures multiset(s[..n])[x] == multiset(u)[x]
    {
      assert multiset(s)[x] == multiset(s[..n])[x] + multiset([s[n]])[x];
      assert multiset(t)[x] == multiset(t[..k])[x] + multiset([t[k]])[x] + multiset(t[k + 1..])[x];
    }
  }

  /** A sum does not depend on the order of its terms. */
  lemma {:induction false} SumPermuted(s: seq<nat>, t: seq<nat>, f: nat -> int)
    requires multiset(s) == multiset(t)
    ensures Sum(s, f) == Sum(t, f)
    decreases |s|
  {
    if s == [] {
      assert |multiset(t)| == 0;
    } else {
      var n := |s| - 1;
      assert s[n] in multiset(s) && s[n] in t;
      var k :| 0 <= k < |t| && t[k] == s[n];
      WithoutOne(s, t, k);
      SumPermuted(s[..n], t[..k] + t[k + 1..], f);
      SumTake(t, k, s[n], f);
    }
  }

  lemma {:induction false} CountsInSorted(t: seq<nat>, k: nat, m: nat)
    requires Sorted(t) && k < |t| && m <= |t| && forall x :: x in t ==> x != 0
    ensures Sum(t[..m], BelowTerm(t[k])) <= Min(m, k)
    ensures Sum(t[..m], AtMostTerm(t[k])) >= Min(m, k + 1)
    decreases m
  {
    if m > 0 {
      assert t[..m][..m - 1] == t[..m - 1];
      CountsInSorted(t, k, m - 1);
      assert t[m - 1] in t;
      if m - 1 >= k {
        assert t[k] <= t[m - 1];
      } else {
        assert t[m - 1] <= t[k];
        AtLeastBelow(t[..m - 1], t[k]);
      }
      NonNegativeCounts(t[..m - 1], t[k]);
    }
  }

  lemma AtLeastBelow(s: seq<nat>, v: nat)
    ensures Sum(s, BelowTerm(v)) <= Sum(s, AtMostTerm(v))
  {
    SumMono(s, BelowTerm(v), AtMostTerm(v));
  }

  lemma NonNegativeCounts(s: seq<nat>, v: nat)
    ensures Sum(s, BelowTerm(v)) >= 0
  {
    SumNonNegative(s, BelowTerm(v));
  }

  /** The middle of the sorted present prices is the lower median. */
  lemma MiddleIsMedian(ring: seq<nat>, t: seq<nat>)
    requires Sorted(t) && multiset(t) == multiset(Present(ring)) && |t| > 0
    ensures IsLowerMedian(ring, t[(|t| - 1) / 2])
  {
    var k := (|t| - 1) / 2;
    var v := t[k];
    PresentMembers(ring);
    assert forall x :: x in t <==> x in multiset(t);
    assert forall x :: x in Present(ring) <==> x in multiset(Present(ring));
    assert v in t;
    CountsInSorted(t, k, |t|);
    assert t[..|t|] == t;
    SumPermuted(t, Present(ring), BelowTerm(v));
    SumPermuted(t, Present(ring), AtMostTerm(v));
    SumOfPresent(ring, BelowTerm(v));
    SumOfPresent(ring, AtMostTerm(v));
    assert |multiset(t)| == |t| && |multiset(Present(ring))| == |Present(ring)|;
  }

  /** Copies the present prices to the front of a buffer. */
  method Collect(ring: array<nat>) returns (buf: array<nat>, n: nat)
    ensures fresh(buf) && n <= buf.Length && buf[..n] == Present(ring[..])
  {
    buf := new nat[ring.Length](_ => 0);
    n := 0;
    for i := 0 to ring.Length
      invariant n <= i && buf[..n] == Present(ring[..i])
      invariant fresh(buf) && buf.Length == ring.Length
    {
      assert ring[..i + 1][..i] == ring[..i];
      if ring[i] != 0 {
        buf[n] := ring[i];
        n := n + 1;
      }
    }
    assert ring[..ring.Length] == ring[..];
  }

  /** ring_median: the present prices are collected, sorted in place, and the middle one
      is returned. */
  method RingMedian(ring: array<nat>) returns (r: Option<nat>)
    ensures r.None? <==> forall i :: 0 <= i < ring.Length ==> ring[i] == 0
    ensures r.Some? ==> IsLowerMedian(ring[..], r.value)
  {
    hide IsLowerMedian, Present;
    var buf, n := Collect(ring);
    NothingPresent(ring[..]);
    if n == 0 {
      return None;
    }
    assert buf[..n] != [];
    InsertionSort(buf, n);
    MiddleIsMedian(ring[..], buf[..n]);
    r := Some(if n % 2 == 1 then buf[n / 2] else buf[n / 2 - 1]);
  }

  lemma NothingPresent(ring: seq<nat>)
    ensures Present(ring) == [] <==> forall i :: 0 <= i < |ring| ==> ring[i] == 0
  {
    PresentMembers(ring);
    if Present(ring) != [] {
      assert Present(ring)[0] in ring;
    }
    forall i | 0 <= i < |ring| && Present(ring) == []
      ensures ring[i] == 0
    {
      assert ring[i] in ring;
    }
  }

  // ---- the readers ----

  /** amm_price. */
  function AmmPrice(numerator: nat, denominator: nat): Result<nat> {
    if denominator == 0 then Err(StaleSource)
    else if numerator * POS_SCALE > U128_MAX then Err(Overflow)
    else
      FloorDivBounds(numerator * POS_SCALE, denominator);
      var price := numerator * POS_SCALE / denominator;
      if price > U64_MAX then Err(Overflow) else Ok(price)
  }

  /** The floor of the exact price, refused exactly when it does not fit. */
  lemma AmmPriceIsFloor(numerator: nat, denominator: nat)
    requires numerator <= U64_MAX
    ensures AmmPrice(numerator, denominator).Ok? <==>
              denominator > 0 && numerator * POS_SCALE < (U64_MAX + 1) * denominator
    ensures AmmPrice(numerator, denominator).Ok? ==>
              var p := AmmPrice(numerator, denominator).value;
              p * denominator <= numerator * POS_SCALE < (p + 1) * denominator
    ensures AmmPrice(numerator, denominator).Err? ==>
              AmmPrice(numerator, denominator).error == if denominator == 0 then StaleSource else Overflow
  {
    if denominator > 0 {
      var n, p := numerator * POS_SCALE, numerator * POS_SCALE / denominator;
      FloorDivBounds(n, denominator);
      assert (p + 1) * denominator == p * denominator + denominator;
      if p > U64_MAX {
        MulMono(U64_MAX + 1, p, denominator);
      } else {
        MulMono(p + 1, U64_MAX + 1, denominator);
      }
    }
  }

  lemma PriceFits(numerator: nat, denominator: nat)
    ensures AmmPrice(numerator, denominator).Ok? ==> AmmPrice(numerator, denominator).value <= U64_MAX
  {
  }

  /** The price is present and not zero exactly when the ratio is at least one unit. */
  lemma AmmPricePresent(numerator: nat, denominator: nat)
    requires numerator <= U64_MAX
    ensures AmmPrice(numerator, denominator).Ok? && AmmPrice(numerator, denominator).value != 0 <==>
              denominator > 0 && denominator <= numerator * POS_SCALE < (U64_MAX + 1) * denominator
  {
    hide AmmPrice;
    AmmPriceIsFloor(numerator, denominator);
    if AmmPrice(numerator, denominator).Ok? && AmmPrice(numerator, denominator).value > 0 {
      MulMono(1, AmmPrice(numerator, denominator).value, denominator);
    }
  }

  /** One truncated step of the compounding loop, and `k` of them. */
  function Compounded(base: nat, num: nat, den: nat, k: nat): nat
    requires den > 0
  {
    if k == 0 then base
    else
      FloorDivBounds(Compounded(base, num, den, k - 1) * num, den);
      Compounded(base, num, den, k - 1) * num / den
  }

  /** base * (num / den)^k. */
  ghost function ExactPower(base: nat, num: nat, den: nat, k: nat): real
    requires den > 0
  {
    if k == 0 then base as real else ExactPower(base, num, den, k - 1) * (num as real / den as real)
  }

  lemma OneStepBelow(p: nat, x: real, num: nat, den: nat)
    requires den > 0 && p as real <= x
    ensures (p * num / den) as real <= x * (num as real / den as real)
  {
    var q, ratio := p * num / den, num as real / den as real;
    FloorDivBounds(p * num, den);
    assert ratio * den as real == num as real;
    RealMulLe(p as real, x, num as real);
    assert (x * ratio) * den as real == x * num as real;
    assert q as real * den as real <= p as real * num as real;
    RealCancelLe(q as real, x * ratio, den as real);
  }

  /** Compounding upwards never exceeds the exact power. */
  lemma {:induction false} NeverExceeds(base: nat, num: nat, den: nat, k: nat)
    requires den > 0
    ensures Compounded(base, num, den, k) as real <= ExactPower(base, num, den, k)
  {
    if k > 0 {
      NeverExceeds(base, num, den, k - 1);
      OneStepBelow(Compounded(base, num, den, k - 1), ExactPower(base, num, den, k - 1), num, den);
    }
  }

  /** One downward step: the gap shrinks by the ratio and grows by less than one. */
  lemma OneStepGap(p: nat, x: real, num: nat, den: nat)
    requires 0 < num < den && x - p as real < den as real / (den - num) as real
    ensures x * (num as real / den as real) - (p * num / den) as real < den as real / (den - num) as real
  {
    var q, ratio, bound := p * num / den, num as real / den as real, den as real / (den - num) as real;
    FloorDivBounds(p * num, den);
    assert ratio * den as real == num as real;
    assert bound * (den - num) as real == den as real;
    GapCore(p as real, x, q as real, num as real, den as real, ratio, bound);
  }

  lemma GapCore(p: real, x: real, q: real, num: real, den: real, ratio: real, bound: real)
    requires 0.0 < num < den && x - p < bound
    requires ratio * den == num && bound * (den - num) == den
    requires p * num < q * den + den
    ensures x * ratio - q < bound
  {
    // den * (x * ratio - q) < num * (x - p) + den < num * bound + den == den * bound
    assert (x * ratio) * den == x * num;
    assert (x - p) * num < bound * num by { RealStrict(x - p, bound, num); }
    assert (x - p) * num == x * num - p * num;
    assert bound * (den - num) == bound * den - bound * num;
    assert (x * ratio - q) * den == (x * ratio) * den - q * den;
    RealCancelLt(x * ratio - q, bound, den);
  }

  lemma RealStrict(x: real, y: real, k: real)
    requires x < y && k > 0.0
    ensures x * k < y * k
  {
    assert (y - x) * k > 0.0;
    assert (y - x) * k == y * k - x * k;
  }

  /** Compounding downwards undershoots the exact power by less than den / (den - num),
      however many steps it takes. */
  lemma {:induction false} UndershootIsBounded(base: nat, num: nat, den: nat, k: nat)
    requires 0 < num < den
    ensures ExactPower(base, num, den, k) - Compounded(base, num, den, k) as real < den as real / (den - num) as real
  {
    if k == 0 {
      assert den as real / (den - num) as real > 0.0;
    } else {
      UndershootIsBounded(base, num, den, k - 1);
      OneStepGap(Compounded(base, num, den, k - 1), ExactPower(base, num, den, k - 1), num, den);
    }
  }

  lemma {:induction false} ZeroStaysZero(base: nat, num: nat, den: nat, j: nat, k: nat)
    requires den > 0 && j <= k && Compounded(base, num, den, j) == 0
    ensures Compounded(base, num, den, k) == 0
  {
    if j < k {
      ZeroStaysZero(base, num, den, j, k - 1);
      assert 0 * num == 0;
      FloorDivUnique(0, den, 0);
    }
  }

  lemma {:induction false} NeverFalls(base: nat, num: nat, den: nat, j: nat, k: nat)
    requires 0 < den <= num && j <= k
    ensures Compounded(base, num, den, j) <= Compounded(base, num, den, k)
  {
    if j < k {
      NeverFalls(base, num, den, j, k - 1);
      var p := Compounded(base, num, den, k - 1);
      MulMono(den, num, p);
      FloorDivUnique(p * den, den, p);
      FloorDivMono(p * den, p * num, den);
    }
  }

  function Steps(binId: int): nat {
    Min(Abs(binId), 10_000)
  }

  /** The compounded price of a bin, with no bound on its width. */
  function BinPrice(binId: int, binStep: nat, basePrice: nat): nat {
    if binId >= 0 then Compounded(basePrice, 10_000 + binStep, 10_000, Steps(binId))
    else Compounded(basePrice, 10_000, 10_000 + binStep, Steps(binId))
  }

  lemma NoStartNoPrice(binId: int, binStep: nat)
    ensures BinPrice(binId, binStep, 0) == 0
  {
    if binId >= 0 {
      ZeroStaysZero(0, 10_000 + binStep, 10_000, 0, Steps(binId));
    } else {
      ZeroStaysZero(0, 10_000, 10_000 + binStep, 0, Steps(binId));
    }
  }

  /** read_meteora_dlmm, from the parsed fields. The checks of each step refuse nothing
      that the check at the end would let through. */
  method ReadMeteora(binId: int, binStep: nat, basePrice: nat) returns (r: Result<nat>)
    requires basePrice <= U64_MAX
    ensures basePrice == 0 || binStep == 0 || binStep > 10_000 ==> r == Err(StaleSource)
    ensures r.Ok? <==> basePrice > 0 && 0 < binStep <= 10_000 && BinPrice(binId, binStep, basePrice) <= U64_MAX
    ensures r.Ok? ==> r.value == BinPrice(binId, binStep, basePrice)
    ensures r.Ok? && binId >= 0 ==> r.value as real <= ExactPower(basePrice, 10_000 + binStep, 10_000, Steps(binId))
    ensures r.Ok? && binId < 0 ==>
              var exact := ExactPower(basePrice, 10_000, 10_000 + binStep, Steps(binId));
              r.value as real <= exact < r.value as real + (10_000 + binStep) as real / binStep as real
    ensures binId < 0 && 0 < binStep <= 10_000 && basePrice > 0 ==> r.Ok?
  {
    if basePrice == 0 || binStep == 0 || binStep > 10_000 {
      return Err(StaleSource);
    }
    var steps := Steps(binId);
    var num, den := 10_000 + binStep, 10_000;
    var price := basePrice;
    if binId >= 0 {
      NeverExceeds(basePrice, num, den, steps);
      for i := 0 to steps
        invariant price == Compounded(basePrice, num, den, i)
      {
        if price * num > U128_MAX {
          MulMono(num, 20_000, price);
          assert price > U64_MAX;
          NeverFalls(basePrice, num, den, i, steps);
          return Err(Overflow);
        }
        price := price * num / den;
        if price == 0 {
          ZeroStaysZero(basePrice, num, den, i + 1, steps);
          return Ok(0);
        }
      }
    } else {
      NeverExceeds(basePrice, den, num, steps);
      UndershootIsBounded(basePrice, den, num, steps);
      for i := 0 to steps
        invariant price == Compounded(basePrice, den, num, i) && price <= U64_MAX
      {
        Shrinks(price, den, num);
        if price * den > U128_MAX {
          assert false;
        }
        price := price * den / num;
        if price == 0 {
          ZeroStaysZero(basePrice, den, num, i + 1, steps);
          return Ok(0);
        }
      }
    }
    if price > U64_MAX {
      return Err(Overflow);
    }
    r := Ok(price);
  }

  lemma Shrinks(p: nat, num: nat, den: nat)
    requires 0 < num <= den
    ensures 0 <= p * num / den <= p
  {
    FloorDivBounds(p * num, den);
    MulMono(num, den, p);
    FloorDivUnique(p * den, den, p);
    FloorDivMono(p * num, p * den, den);
  }

  // ---- the feed ----

  /** A source account: its key, and what its bytes say at the offsets that the readers
      use; `None` where the account is too short. */
  datatype Source = Source(key: nat, words: Option<(nat, nat)>, bins: Option<(int, nat, nat)>, complete: Option<bool>)

  predicate SourceOk(s: Source) {
    && (s.words.Some? ==> s.words.value.0 <= U64_MAX && s.words.value.1 <= U64_MAX)
    && (s.bins.Some? ==> s.bins.value.2 <= U64_MAX)
  }

  /** The reserves that the price divides: lamports by tokens, which a bonding curve stores
      in the other order than the pools do. */
  function Reserves(kind: SourceKind, words: (nat, nat)): (nat, nat) {
    if kind.PumpBonding? then words else (words.1, words.0)
  }

  /** The source has a price, and it is not zero. */
  predicate Readable(kind: SourceKind, s: Source) {
    if kind.MeteoraDlmm? then
      && s.bins.Some?
      && var (bin, step, start) := s.bins.value;
         0 < step <= 10_000 && 0 < BinPrice(bin, step, start) <= U64_MAX
    else
      && s.words.Some?
      && var (quote, base) := Reserves(kind, s.words.value);
         quote > 0 && base > 0 && base <= quote * POS_SCALE < (U64_MAX + 1) * base
  }

  /** `price` is what the source's words or bins say: the ratio of the reserves, rounded
      down, or the compounded price of the active bin, which exceeds the exact one never and
      falls short of it by a bounded amount. */
  ghost predicate Quotes(kind: SourceKind, s: Source, price: nat) {
    && price <= U64_MAX
    && (!kind.MeteoraDlmm? ==>
          && s.words.Some?
          && var (quote, base) := Reserves(kind, s.words.value);
             quote > 0 && base > 0 && price * base <= quote * POS_SCALE < (price + 1) * base)
    && (kind.MeteoraDlmm? ==>
          && s.bins.Some?
          && var (bin, step, start) := s.bins.value;
             && 0 < step <= 10_000 && price == BinPrice(bin, step, start)
             && (bin >= 0 ==> price as real <= ExactPower(start, 10_000 + step, 10_000, Steps(bin)))
             && (bin < 0 ==>
                   var exact := ExactPower(start, 10_000, 10_000 + step, Steps(bin));
                   price as real <= exact < price as real + (10_000 + step) as real / step as real))
  }

  /** read_source_price: the floor of the exact ratio of reserves, refused exactly when a
      reserve is missing or empty or the price does not fit; or the bin price. */
  method ReadSourcePrice(kind: SourceKind, s: Source) returns (r: Result<nat>)
    requires SourceOk(s)
    ensures r.Ok? ==> r.value <= U64_MAX
    ensures r.Ok? && r.value != 0 <==> Readable(kind, s)
    ensures !kind.MeteoraDlmm? && s.words.None? ==> r == Err(StaleSource)
    ensures !kind.MeteoraDlmm? && s.words.Some? ==>
              var (quote, base) := Reserves(kind, s.words.value);
              && (r.Ok? <==> quote > 0 && base > 0 && quote * POS_SCALE < (U64_MAX + 1) * base)
              && (r.Err? ==> r.error == if quote == 0 || base == 0 then StaleSource else Overflow)
    ensures r.Ok? ==> Quotes(kind, s, r.value)
  {
    hide Compounded, ExactPower, AmmPrice;
    if kind.MeteoraDlmm? {
      if s.bins.None? {
        return Err(StaleSource);
      }
      var (bin, step, start) := s.bins.value;
      r := ReadMeteora(bin, step, start);
      NoStartNoPrice(bin, step);
      return;
    }
    if s.words.None? {
      return Err(StaleSource);
    }
    var (x, y) := s.words.value;
    if x == 0 || y == 0 {
      return Err(StaleSource);
    }
    var (quote, base) := Reserves(kind, (x, y));
    AmmPriceIsFloor(quote, base);
    AmmPricePresent(quote, base);
    PriceFits(quote, base);
    r := AmmPrice(quote, base);
  }

  class Feed {
    var price: nat
    var lastUpdateSlot: nat
    var mint: nat
    var source: nat
    var sourceKind: Option<SourceKind>
    var graduated: bool
    var initialized: bool
    var ringIdx: nat
    const ring: array<nat>

    /** An initialized feed publishes the lower median of its ring. */
    ghost predicate Valid()
      reads this, ring
    {
      && ring.Length == RING_LEN
      && (initialized ==> ringIdx < RING_LEN && IsLowerMedian(ring[..], price))
    }

    /** An account full of zeros. */
    constructor ()
      ensures Valid() && !initialized && !graduated && fresh(ring)
    {
      price, lastUpdateSlot, mint, source := 0, 0, 0, 0;
      sourceKind := Some(PumpBonding);
      graduated, initialized := false, false;
      ringIdx := 0;
      ring := new nat[RING_LEN](_ => 0);
    }

    /** A ring that holds one price. */
    method RestartRing(first: nat)
      requires ring.Length == RING_LEN && first != 0
      modifies ring, this`ringIdx, this`price
      ensures ring[..] == Restarted(first)
      ensures ringIdx == 1 && price == first && IsLowerMedian(ring[..], price)
    {
      for i := 0 to ring.Length
        invariant forall j :: 0 <= j < i ==> ring[j] == 0
      {
        ring[i] := 0;
      }
      ring[0] := first;
      ringIdx := 1;
      price := first;
      assert ring[..] == Restarted(first);
      SoleEntryIsMedian(ring[..], first);
    }

    /** process_initialize_feed. */
    method Initialize(mint: nat, kind: Option<SourceKind>, sourceKey: nat, s: Source, slot: nat) returns (r: Result<()>)
      requires Valid() && SourceOk(s)
      modifies this, ring
      ensures Valid()
      ensures r.Err? ==> unchanged(this) && ring[..] == old(ring[..])
      ensures r.Ok? <==> !old(initialized) && kind.Some? && s.key == sourceKey && Readable(kind.value, s)
      ensures r.Ok? ==> initialized && !graduated && sourceKind == kind && source == sourceKey && this.mint == mint
                        && lastUpdateSlot == slot && ring[..] == Restarted(price) && Quotes(kind.value, s, price)
    {
      if kind.None? {
        return Err(InvalidSourceKind);
      }
      if s.key != sourceKey {
        return Err(WrongSourceAccount);
      }
      if initialized {
        return Err(FeedAlreadyInitialized);
      }
      var init := ReadSourcePrice(kind.value, s);
      if init.Err? {
        return Err(init.error);
      }
      if init.value == 0 {
        return Err(StaleSource);
      }
      RestartRing(init.value);
      lastUpdateSlot := slot;
      this.mint, source, sourceKind := mint, sourceKey, kind;
      graduated, initialized := false, true;
      r := Ok(());
    }

    /** process_update: one ring entry is overwritten, and the median is published again.
        Once there is a price a median always exists. */
    method Update(s: Source, slot: nat) returns (r: Result<()>)
      requires Valid() && SourceOk(s)
      modifies this`price, this`lastUpdateSlot, this`ringIdx, ring
      ensures Valid()
      ensures r.Err? ==> unchanged(this) && ring[..] == old(ring[..])
      ensures r.Ok? <==>
                && initialized && s.key == source && sourceKind.Some? && Readable(sourceKind.value, s)
                && !(sourceKind == Some(PumpBonding) && graduated)
      ensures r.Ok? ==>
                var i := old(ringIdx);
                && i < RING_LEN && ring[i] != 0 && ring[..] == old(ring[..])[i := ring[i]]
                && Quotes(sourceKind.value, s, ring[i])
      ensures r.Ok? ==> ringIdx == (old(ringIdx) + 1) % RING_LEN && lastUpdateSlot == slot
    {
      if !initialized {
        return Err(FeedNotInitialized);
      }
      if s.key != source {
        return Err(WrongSourceAccount);
      }
      if sourceKind.None? {
        return Err(InvalidSourceKind);
      }
      if sourceKind.value.PumpBonding? && graduated {
        return Err(AlreadyGraduated);
      }
      var instant := ReadSourcePrice(sourceKind.value, s);
      if instant.Err? {
        return Err(instant.error);
      }
      if instant.value == 0 {
        return Err(StaleSource);
      }
      ring[ringIdx] := instant.value;
      assert ring[..] == old(ring[..])[old(ringIdx) := instant.value];
      ringIdx := (ringIdx + 1) % RING_LEN;
      var median := RingMedian(ring);
      if median.None? {
        assert false;
      }
      price := median.value;
      lastUpdateSlot := slot;
      r := Ok(());
    }

    /** process_graduate. */
    method Graduate(s: Source) returns (r: Result<()>)
      requires Valid()
      modifies this`graduated
      ensures Valid()
      ensures r.Ok? <==>
                initialized && s.key == source && !old(graduated) && sourceKind == Some(PumpBonding)
                    && s.complete == Some(true)
      ensures graduated == (old(graduated) || r.Ok?)
    {
      if !initialized {
        return Err(FeedNotInitialized);
      }
      if s.key != source {
        return Err(WrongSourceAccount);
      }
      if graduated {
        return Err(AlreadyGraduated);
      }
      if sourceKind != Some(PumpBonding) {
        return Err(InvalidSourceKind);
      }
      if s.complete.None? {
        return Err(StaleSource);
      }
      if !s.complete.value {
        return Err(NotGraduated);
      }
      graduated := true;
      r := Ok(());
    }

    /** What the comment in process_convert_source demands of a feed that is to be
        converted. */
    predicate MayBeConverted()
      reads this
    {
      initialized && graduated && sourceKind == Some(PumpBonding)
    }

    /** process_convert_source: any graduated feed moves to any readable source, and
        forgets the old prices. The documented rule is kept by a conversion exactly when
        the feed still reads a bonding curve, and for the next one exactly when the new
        source is a bonding curve again. */
    method ConvertSource(kind: Option<SourceKind>, newSource: nat, s: Source, slot: nat) returns (r: Result<()>)
      requires Valid() && SourceOk(s)
      modifies this`price, this`lastUpdateSlot, this`ringIdx, this`source, this`sourceKind, ring
      ensures Valid()
      ensures r.Ok? <==>
                kind.Some? && s.key == newSource && old(initialized) && old(graduated) && Readable(kind.value, s)
      ensures r.Err? ==> unchanged(this) && ring[..] == old(ring[..])
      ensures r.Ok? ==> initialized && graduated && sourceKind == kind && source == newSource && s.key == newSource
                        && lastUpdateSlot == slot && ring[..] == Restarted(price) && Quotes(kind.value, s, price)
      ensures r.Ok? ==> (old(MayBeConverted()) <==> old(sourceKind) == Some(PumpBonding))
      ensures r.Ok? ==> (MayBeConverted() <==> kind == Some(PumpBonding))
    {
      if kind.None? {
        return Err(InvalidSourceKind);
      }
      if s.key != newSource {
        return Err(WrongSourceAccount);
      }
      if !initialized {
        return Err(FeedNotInitialized);
      }
      if !graduated {
        return Err(ConvertRequiresGraduation);
      }
      var price0 := ReadSourcePrice(kind.value, s);
      if price0.Err? {
        return Err(price0.error);
      }
      if price0.value == 0 {
        return Err(StaleSource);
      }
      source, sourceKind := newSource, kind;
      RestartRing(price0.value);
      lastUpdateSlot := slot;
      r := Ok(());
    }
  }

  /** A call to a feed; and a conversion that succeeded, which the documented rule allowed
      or not. */
  datatype FeedCall =
    | InitializeFeed(mint: nat, kind: Option<SourceKind>, source: nat, s: Source, slot: nat)
    | UpdateFeed(s: Source, slot: nat)
    | GraduateFeed(s: Source)
    | ConvertFeed(kind: Option<SourceKind>, source: nat, s: Source, slot: nat)

  datatype Move = Move(to: Option<SourceKind>, allowed: bool)

  /** No move before this one, or one to a bonding curve. */
  predicate StillBonding(moves: seq<Move>, i: nat)
    requires i < |moves|
  {
    i == 0 || moves[i - 1].to == Some(PumpBonding)
  }

  /** The life of a feed under any sequence of calls, refused ones included: its first
      conversion always meets the documented rule, and a later one exactly when the
      conversion before it led to a bonding curve. So the first move to another kind of
      source is what lets every further move break the rule. */
  method FeedLife(calls: seq<FeedCall>) returns (feed: Feed, moves: seq<Move>)
    requires forall i :: 0 <= i < |calls| ==> SourceOk(calls[i].s)
    ensures feed.Valid()
    ensures forall i :: 0 <= i < |moves| ==> (moves[i].allowed <==> StillBonding(moves, i))
    ensures moves != [] ==> feed.graduated && feed.sourceKind == moves[|moves| - 1].to
  {
    hide Readable, Restarted, Feed.Valid;
    feed := new Feed();
    moves := [];
    for i := 0 to |calls|
      invariant feed.Valid() && fresh(feed) && fresh(feed.ring)
      invariant feed.graduated ==> feed.initialized
      invariant moves == [] && feed.graduated ==> feed.MayBeConverted()
      invariant moves != [] ==> feed.graduated && feed.sourceKind == moves[|moves| - 1].to
      invariant forall k :: 0 <= k < |moves| ==> (moves[k].allowed <==> StillBonding(moves, k))
    {
      var allowed := feed.MayBeConverted();
      match calls[i]
      case InitializeFeed(mint, kind, source, s, slot) => var _ := feed.Initialize(mint, kind, source, s, slot);
      case UpdateFeed(s, slot) => var _ := feed.Update(s, slot);
      case GraduateFeed(s) => var _ := feed.Graduate(s);
      case ConvertFeed(kind, source, s, slot) =>
        var r := feed.ConvertSource(kind, source, s, slot);
        if r.Ok? {
          moves := moves + [Move(kind, allowed)];
        }
    }
  }

  /** A feed that breaks the rule: it graduates, moves to one pool, and from there to
      another. */
  method ConvertTwice() returns (feed: Feed, first: Result<()>, second: Result<()>, between: Option<SourceKind>)
    ensures first.Ok? && second.Ok? && between == Some(PumpSwap)
    ensures feed.Valid() && feed.sourceKind == Some(RaydiumCpmm) && !feed.MayBeConverted()
  {
    feed := new Feed();
    var reserves := Some((7, 7));
    var curve := Source(1, reserves, None, Some(true));
    var _ := feed.Initialize(0, Some(PumpBonding), 1, curve, 0);
    var _ := feed.Graduate(curve);
    first := feed.ConvertSource(Some(PumpSwap), 2, Source(2, reserves, None, None), 1);
    between := feed.sourceKind;
    second := feed.ConvertSource(Some(RaydiumCpmm), 3, Source(3, reserves, None, None), 2);
  }

  /** One price, and no others. */
  ghost function Restarted(first: nat): seq<nat> {
    [first] + seq(RING_LEN - 1, _ => 0)
  }

  lemma SoleEntryIsMedian(ring: seq<nat>, first: nat)
    requires ring == Restarted(first) && first != 0
    ensures IsLowerMedian(ring, first)
  {
    assert ring[0] == first;
    SoleCount(ring, first, BelowTerm(first));
    SoleCount(ring, first, AtMostTerm(first));
    SoleCount(ring, first, PresentTerm());
  }

  lemma {:induction false} SoleCount(ring: seq<nat>, first: nat, f: nat -> int)
    requires |ring| > 0 && ring[0] == first && (forall i :: 0 < i < |ring| ==> ring[i] == 0) && f(0) == 0
    ensures Sum(ring, f) == f(first)
  {
    var n := |ring| - 1;
    if n > 0 {
      SoleCount(ring[..n], first, f);
    }
  }
}
