/** The NAS random number generator on double precision numbers, and how the EP example
splits its stream into batches. */
module Randlc {
  import opened ModPower
  import Period

  // ----- Double precision arithmetic where it is exact -----

  const TWO_53: int := 0x20_0000_0000_0000

  /** A number with 53 significant bits, which binary64 (IEEE 754) represents exactly.  The
      exponents that occur here are far from the ends of its range. */
  ghost predicate IsDouble(v: real) {
    exists m: int, e: nat :: Scaled(v, m, e)
  }

  ghost predicate Scaled(v: real, m: int, e: nat) {
    -TWO_53 < m < TWO_53 && e <= 46 && v * Pow2(e) as real == m as real
  }

  // The operations of the C code.  Each asks that its exact result be representable, so
  // that rounding is the identity; a routine that verifies with them rounds nowhere.

  function FAdd(x: real, y: real): real
    requires IsDouble(x + y)
  {
    x + y
  }

  function FSub(x: real, y: real): real
    requires IsDouble(x - y)
  {
    x - y
  }

  function FMul(x: real, y: real): real
    requires ExactProduct(x, y)
  {
    x * y
  }

  ghost predicate ExactProduct(x: real, y: real) { IsDouble(x * y) }

  /** The cast `(int)x`, for results in the range of a 32-bit int. */
  function ToInt(x: real): (i: int)
    requires -2147483649.0 < x < 2147483648.0
    ensures x >= 0.0 ==> i == x.Floor
  {
    if x >= 0.0 then x.Floor else -((-x).Floor)
  }

  const R23: real := 1.0 / 8388608.0
  const T23: real := 8388608.0
  const R46: real := 1.0 / 70368744177664.0
  const T46: real := 70368744177664.0

  const M23: int := 8388608
  const M46: int := 70368744177664

  lemma Moduli()
    ensures Pow2(0) == 1 && Pow2(23) == M23 && Pow2(46) == M46 == M23 * M23
  {
    assert Pow2(7) == 128 && Pow2(8) == 256;
    Pow2Add(8, 8);
    Pow2Add(16, 7);
    Pow2Add(23, 23);
  }

  lemma IntIsDouble(m: int)
    requires -TWO_53 < m < TWO_53
    ensures IsDouble(m as real)
  {
    assert Scaled(m as real, m, 0) by { assert Pow2(0) == 1; }
  }

  lemma HalfIsDouble(v: real, m: int)
    requires v == m as real && -TWO_53 < m < TWO_53
    ensures ExactProduct(R23, v)
  {
    Moduli();
    assert Scaled(R23 * v, m, 23);
  }

  lemma SmallIsDouble(v: real, m: int)
    requires v == m as real && -TWO_53 < m < TWO_53
    ensures ExactProduct(R46, v)
  {
    Moduli();
    assert Scaled(R46 * v, m, 46);
  }

  lemma FloorHalf(m: int)
    requires 0 <= m
    ensures (R23 * m as real).Floor == m / M23 && R23 * m as real >= 0.0
  {
    var q, r := m / M23, m % M23;
    assert m == q * M23 + r;
    assert R23 * m as real == q as real + R23 * r as real;
  }

  lemma FloorSmall(m: int)
    requires 0 <= m
    ensures (R46 * m as real).Floor == m / M46 && R46 * m as real >= 0.0
  {
    var q, r := m / M46, m % M46;
    assert m == q * M46 + r;
    assert R46 * m as real == q as real + R46 * r as real;
  }

  // ----- The split product -----

  /** One step of the generator. */
  function Next(a: int, x: int): int { (a * x) % M46 }

  /** The halves of a 46-bit number and what `randlc` does with them. */
  lemma {:induction false} SplitProduct(a: int, x: int)
    requires 0 <= a < M46 && 0 <= x < M46
    ensures var a1, a2, x1, x2 := a / M23, a % M23, x / M23, x % M23;
            var t1 := a1 * x2 + a2 * x1;
            var t3 := M23 * (t1 % M23) + a2 * x2;
            && 0 <= a1 < M23 && 0 <= x1 < M23
            && 0 <= a1 * x2 < M46 && 0 <= a2 * x1 < M46 && 0 <= a2 * x2 < M46
            && t1 < 2 * M46 && 0 <= t3 < 2 * M46
            && t3 % M46 == Next(a, x)
  {
    var a1, a2, x1, x2 := a / M23, a % M23, x / M23, x % M23;
    HalfBelow(a);
    HalfBelow(x);
    ProductBelow(a1, x2);
    ProductBelow(a2, x1);
    ProductBelow(a2, x2);
    var t1 := a1 * x2 + a2 * x1;
    var t3 := M23 * (t1 % M23) + a2 * x2;
    assert t1 == (t1 / M23) * M23 + t1 % M23;
    ProductOfHalves(a1, a2, x1, x2);
    assert a == a1 * M23 + a2 && x == x1 * M23 + x2;
    SameRemainder(a * x, t3, a1 * x1 + t1 / M23, M46);
  }

  /** The same, with the partial products named. */
  lemma SplitParts(a: int, x: int) returns (high: int, low: int, last: int)
    requires 0 <= a < M46 && 0 <= x < M46
    ensures high == (a / M23) * (x % M23) && low == (a % M23) * (x / M23) && last == (a % M23) * (x % M23)
    ensures 0 <= high < M46 && 0 <= low < M46 && 0 <= last < M46
    ensures var t3 := M23 * ((high + low) % M23) + last; 0 <= t3 < 2 * M46 && t3 % M46 == Next(a, x)
  {
    SplitProduct(a, x);
    high, low, last := (a / M23) * (x % M23), (a % M23) * (x / M23), (a % M23) * (x % M23);
  }

  lemma HalfBelow(a: int)
    requires 0 <= a < M46
    ensures 0 <= a / M23 < M23
  {}

  lemma ProductBelow(u: int, v: int)
    requires 0 <= u < M23 && 0 <= v < M23
    ensures 0 <= u * v < M46
  {
    AtMost(u, v, M23);
  }

  lemma AtMost(u: int, v: int, m: int)
    requires 0 <= u && 0 <= v <= m
    ensures 0 <= u * v <= u * m
  {
    assert u * (m - v) >= 0;
  }

  lemma ProductOfHalves(a1: int, a2: int, x1: int, x2: int)
    ensures (a1 * M23 + a2) * (x1 * M23 + x2) == a1 * x1 * M46 + (a1 * x2 + a2 * x1) * M23 + a2 * x2
  {
    assert (a1 * M23 + a2) * (x1 * M23 + x2) == (a1 * M23) * (x1 * M23) + (a1 * M23) * x2 + a2 * (x1 * M23) + a2 * x2;
    assert (a1 * M23) * (x1 * M23) == a1 * x1 * M46;
  }

  // ----- The routines -----

  /** The double behind a pointer. */
  class Seed {
    var value: real

    /** The double is this integer, of at most 46 bits. */
    ghost predicate Holds(n: int)
      reads this
    {
      IsSeed(value) && value.Floor == n
    }

    constructor (v: real)
      ensures value == v
    {
      value := v;
    }
  }

  /** An integer of at most 46 bits, held in a double. */
  ghost predicate IsSeed(v: real) {
    v == v.Floor as real && 0 <= v.Floor < M46
  }

  /** `t = r23*v; v1 = (int)t; v2 = v - t23*v1;` for a double that holds an integer of at
      most 47 bits. */
  method Halves(v: real) returns (v1: real, v2: real)
    requires v == v.Floor as real && 0 <= v.Floor < 2 * M46
    ensures v1 == (v.Floor / M23) as real && v2 == (v.Floor % M23) as real
  {
    ghost var vi := v.Floor;
    assert vi == (vi / M23) * M23 + vi % M23;
    FloorHalf(vi);
    HalfIsDouble(v, vi);
    var t := FMul(R23, v);
    v1 := ToInt(t) as real;
    IntIsDouble((vi / M23) * M23);
    IntIsDouble(vi % M23);
    assert T23 * v1 == ((vi / M23) * M23) as real;
    v2 := FSub(v, FMul(T23, v1));
  }

  /** A product of two integers held in doubles. */
  method IntMul(u: real, v: real, ghost ui: int, ghost vi: int, ghost product: int) returns (p: real)
    requires u == ui as real && v == vi as real && product == ui * vi && 0 <= product < 2 * M46
    ensures p == product as real
  {
    IntIsDouble(product);
    assert u * v == product as real;
    p := FMul(u, v);
  }

  method IntAdd(u: real, v: real, ghost ui: int, ghost vi: int) returns (p: real)
    requires u == ui as real && v == vi as real && 0 <= ui + vi < 2 * M46
    ensures p == (ui + vi) as real
  {
    IntIsDouble(ui + vi);
    p := FAdd(u, v);
  }

  /** `t4 = (int)(r46*t3); x = t3 - t46*t4;` */
  method Reduce(t3: real) returns (x: real)
    requires t3 == t3.Floor as real && 0 <= t3.Floor < 2 * M46
    ensures x == (t3.Floor % M46) as real
  {
    ghost var vi := t3.Floor;
    assert vi == (vi / M46) * M46 + vi % M46;
    FloorSmall(vi);
    SmallIsDouble(t3, vi);
    var t := FMul(R46, t3);
    var t4 := ToInt(t) as real;
    IntIsDouble((vi / M46) * M46);
    IntIsDouble(vi % M46);
    assert T46 * t4 == ((vi / M46) * M46) as real;
    x := FSub(t3, FMul(T46, t4));
  }

  /** What `randlc` and the loop of `vranlc` do with the halves of `a`. */
  method Step(x: real, ghost a: int, a1: real, a2: real) returns (next: real)
    requires IsSeed(x) && 0 <= a < M46 && a1 == (a / M23) as real && a2 == (a % M23) as real
    ensures IsSeed(next) && next.Floor == Next(a, x.Floor)
  {
    ghost var xi := x.Floor;
    ghost var u1, u2, v1, v2 := a / M23, a % M23, xi / M23, xi % M23;
    ghost var high, low, last := SplitParts(a, xi);
    var x1, x2 := Halves(x);
    var p := IntMul(a1, x2, u1, v2, high);
    var q := IntMul(a2, x1, u2, v1, low);
    var t1 := IntAdd(p, q, high, low);
    var t2, z := Halves(t1);
    p := IntMul(T23, z, M23, t1.Floor % M23, M23 * (t1.Floor % M23));
    q := IntMul(a2, x2, u2, v2, last);
    var t3 := IntAdd(p, q, M23 * (t1.Floor % M23), last);
    next := Reduce(t3);
  }

  /** Main result: `randlc` computes a*x mod 2^46, and no operation on the way rounds or
      leaves the range of its cast. */
  method RandlcCall(x: Seed, a: real) returns (r: real)
    requires IsSeed(x.value) && IsSeed(a)
    modifies x
    ensures IsSeed(x.value) && x.value.Floor == Next(a.Floor, old(x.value).Floor)
    ensures r == R46 * x.value && 0.0 <= r < 1.0
    ensures old(x.value).Floor % 2 == 1 && a.Floor % 2 == 1 ==> x.value.Floor % 2 == 1 && 0.0 < r
  {
    ghost var a0, x0 := a.Floor, x.value.Floor;
    var a1, a2 := Halves(a);
    var next := Step(x.value, a0, a1, a2);
    x.value := next;
    if x0 % 2 == 1 && a0 % 2 == 1 { OddStaysOdd(a0, x0); }
    SmallIsDouble(next, next.Floor);
    r := FMul(R46, next);
  }

  lemma OddStaysOdd(a: int, x: int)
    requires a % 2 == 1 && x % 2 == 1
    ensures Next(a, x) % 2 == 1
  {
    OddProduct(a, x);
    var y := a * x;
    assert y == (y / M46) * M46 + y % M46;
  }

  // ----- Streams -----

  /** The state after `k` steps from `x`. */
  function Stream(a: int, x: int, k: nat): int {
    if k == 0 then x else Next(a, Stream(a, x, k - 1))
  }

  lemma {:induction false} StreamIsPower(a: int, x: int, k: nat)
    requires 0 <= x < M46
    ensures Stream(a, x, k) == (x * Pow(a, k)) % M46
  {
    if k == 0 {
      RemainderIs(x, 0, x, M46);
    } else {
      StreamIsPower(a, x, k - 1);
      ReduceFactor(a, x * Pow(a, k - 1), M46);
      assert a * (x * Pow(a, k - 1)) == x * (a * Pow(a, k - 1));
    }
  }

  lemma {:induction false} StreamAdd(a: int, x: int, m: nat, n: nat)
    ensures Stream(a, Stream(a, x, m), n) == Stream(a, x, m + n)
  {
    if n > 0 { StreamAdd(a, x, m, n - 1); }
  }

  /** `vranlc`: the next `n` numbers of the stream go to y[1..n], and the seed moves on by
      `n` steps, so that consecutive calls give one uninterrupted sequence. */
  method Vranlc(n: int, x_seed: Seed, a: real, y: array<real>)
    requires IsSeed(x_seed.value) && IsSeed(a) && n < y.Length
    modifies x_seed, y
    ensures var n0: nat := if n < 0 then 0 else n;
            && IsSeed(x_seed.value)
            && x_seed.value.Floor == Stream(a.Floor, old(x_seed.value).Floor, n0)
            && forall i | 1 <= i <= n0 :: y[i] == R46 * Stream(a.Floor, old(x_seed.value).Floor, i) as real
    ensures forall i | 0 <= i < y.Length && !(1 <= i <= n) :: y[i] == old(y[i])
  {
    ghost var a0, x0 := a.Floor, x_seed.value.Floor;
    var a1, a2 := Halves(a);
    var x := x_seed.value;
    var i := 1;
    while i <= n
      invariant 1 <= i && (i <= n + 1 || i == 1)
      invariant IsSeed(x) && x.Floor == Stream(a0, x0, i - 1)
      invariant x_seed.value == old(x_seed.value)
      invariant forall k | 1 <= k < i :: y[k] == R46 * Stream(a0, x0, k) as real
      invariant forall k | 0 <= k < y.Length && !(1 <= k < i) :: y[k] == old(y[k])
      decreases n - i
    {
      x := Step(x, a0, a1, a2);
      SmallIsDouble(x, x.Floor);
      y[i] := FMul(R46, x);
      i := i + 1;
    }
    x_seed.value := x;
  }

  const PERIOD: int := 17592186044416

  /** Main result: the generator of EP returns to a state exactly after multiples of 2^44
      steps, from any odd seed. */
  lemma {:induction false} FullPeriod(s: int, j: nat, k: nat)
    requires 0 < s < M46 && s % 2 == 1
    ensures PERIOD == Pow2(44)
    ensures Stream(A_INT, s, j) == Stream(A_INT, s, k) <==> j % PERIOD == k % PERIOD
  {
    Moduli();
    Pow2Add(44, 2);
    assert Pow2(2) == 4;
    StreamIsPower(A_INT, s, j);
    StreamIsPower(A_INT, s, k);
    Period.PeriodIsExact(A_INT, s, j, k, 44);
  }

  lemma {:induction false} StreamStaysOdd(a: int, s: int, k: nat)
    requires a % 2 == 1 && s % 2 == 1 && 0 < s < M46
    ensures Stream(a, s, k) % 2 == 1 && 0 < Stream(a, s, k) < M46
  {
    if k > 0 {
      StreamStaysOdd(a, s, k - 1);
      OddStaysOdd(a, Stream(a, s, k - 1));
    }
  }

  // ----- The batches of EP -----

  const A_INT: int := 1220703125
  const S_INT: int := 271828183
  const MK: nat := 16

  lemma MultiplierIsPower()
    ensures A_INT == Pow(5, 13) && A_INT % 8 == 5 && S_INT % 2 == 1
  {
    assert Pow(5, 4) == 625;
    PowAdd(5, 4, 4);
    PowAdd(5, 8, 4);
    PowAdd(5, 12, 1);
    assert Pow(5, 1) == 5;
  }

  /** `t1 = A; for(i = 1; i <= MK+1; i++) t2 = randlc(&t1, t1);`, for any batch size. */
  method ComputeAn(mk: nat) returns (an: real)
    ensures IsSeed(an) && an.Floor == Pow(A_INT, 2 * Pow2(mk)) % M46
  {
    var t1 := new Seed(A_INT as real);
    RemainderIs(A_INT, 0, A_INT, M46);
    assert Pow(A_INT, 1) == A_INT * Pow(A_INT, 0);
    var i := 1;
    while i <= mk + 1
      invariant 1 <= i <= mk + 2
      invariant IsSeed(t1.value) && t1.value.Floor == Pow(A_INT, Pow2(i - 1)) % M46
    {
      ghost var e := Pow2(i - 1);
      SquareStep(Pow(A_INT, e));
      PowAdd(A_INT, e, e);
      var t2 := RandlcCall(t1, t1.value);
      i := i + 1;
    }
    an := t1.value;
  }

  lemma SquareStep(p: int)
    ensures Next(p % M46, p % M46) == (p * p) % M46
  {
    ReduceFactor(p % M46, p, M46);
    ReduceFactor(p, p, M46);
    assert (p % M46) * p == p * (p % M46);
  }

  /** One multiplication of a seed by a power that is itself reduced. */
  lemma SeedTimes(t: int, p: int, q: int)
    ensures Next(p % M46, (t * q) % M46) == (t * (p * q)) % M46
  {
    ReduceFactor(p % M46, t * q, M46);
    ReduceFactor(t * q, p, M46);
    assert (p % M46) * (t * q) == (t * q) * (p % M46);
    assert (t * q) * p == t * (p * q);
  }

  lemma HalveBelow(k: nat, e: nat)
    requires k < Pow2(e)
    ensures k > 0 ==> e > 0 && k / 2 < Pow2(e - 1)
  {}

  /** weight * k by repeated addition. */
  function Times(weight: nat, k: nat): nat {
    if k == 0 then 0 else weight + Times(weight, k - 1)
  }

  lemma {:induction false} HalveWeight(weight: nat, k: nat)
    ensures Times(weight, k) == Times(weight + weight, k / 2) + if k % 2 == 1 then weight else 0
  {
    if k >= 2 {
      HalveWeight(weight, k - 2);
      assert Times(weight, k) == weight + (weight + Times(weight, k - 2));
      assert Times(weight + weight, k / 2) == weight + weight + Times(weight + weight, (k - 2) / 2);
    }
  }

  lemma {:induction false} TimesOne(k: nat)
    ensures Times(1, k) == k
  {
    if k > 0 {
      TimesOne(k - 1);
    }
  }

  /** The seed after `e` multiplications by `b`. */
  function SeedPower(b: int, e: nat): int { (S_INT * Pow(b, e)) % M46 }

  function BasePower(b: int, e: nat): int { Pow(b, e) % M46 }

  lemma TakeFactor(b: int, weight: nat, done: nat)
    ensures Next(BasePower(b, weight), SeedPower(b, done)) == SeedPower(b, done + weight)
  {
    SeedTimes(S_INT, Pow(b, weight), Pow(b, done));
    PowAdd(b, weight, done);
  }

  lemma DoubleFactor(b: int, weight: nat)
    ensures Next(BasePower(b, weight), BasePower(b, weight)) == BasePower(b, weight + weight)
  {
    SquareStep(Pow(b, weight));
    PowAdd(b, weight, weight);
  }

  lemma FirstFactors(b: int)
    requires 0 <= b < M46
    ensures SeedPower(b, 0) == S_INT && BasePower(b, 1) == b
  {
    RemainderIs(S_INT, 0, S_INT, M46);
    RemainderIs(b, 0, b, M46);
    assert Pow(b, 1) == b * Pow(b, 0);
  }

  /** The loop that finds the starting seed of batch `kk`: binary powering, at most 100
      rounds, so for every `kk` that a hundred halvings bring to zero. */
  method BatchSeed(kk: nat, an: real) returns (t1: Seed)
    requires IsSeed(an) && kk < Pow2(100)
    ensures fresh(t1) && IsSeed(t1.value)
    ensures t1.value.Floor == SeedPower(an.Floor, kk)
  {
    t1 := BatchSeedIn(100, kk, an);
  }

  method BatchSeedIn(rounds: nat, kk: nat, an: real) returns (t1: Seed)
    requires IsSeed(an) && kk < Pow2(rounds)
    ensures fresh(t1) && t1.Holds(SeedPower(an.Floor, kk))
  {
    ghost var b := an.Floor;
    FirstFactors(b);
    t1 := new Seed(S_INT as real);
    var t2 := new Seed(an);
    var k: nat := kk;
    ghost var done: nat, weight: nat := 0, 1;
    TimesOne(kk);
    for i := 0 to rounds
      invariant fresh(t1) && fresh(t2) && t1 != t2
      invariant kk == done + Times(weight, k) && k < Pow2(rounds - i)
      invariant t1.Holds(SeedPower(b, done)) && t2.Holds(BasePower(b, weight))
    {
      HalveWeight(weight, k);
      HalveBelow(k, rounds - i);
      done := BatchTurn(t1, t2, k, b, done, weight);
      var ik := k / 2;
      if ik == 0 {
        return;
      }
      weight := weight + weight;
      k := ik;
    }
  }

  /** One round: an odd `k` takes the current power, and unless it is the last the power is
      squared. */
  method BatchTurn(t1: Seed, t2: Seed, k: nat, ghost b: int, ghost done: nat, ghost weight: nat)
    returns (ghost next: nat)
    requires t1 != t2 && t1.Holds(SeedPower(b, done)) && t2.Holds(BasePower(b, weight))
    modifies t1, t2
    ensures next == (if k % 2 == 1 then done + weight else done) && t1.Holds(SeedPower(b, next))
    ensures k / 2 != 0 ==> t2.Holds(BasePower(b, weight + weight))
  {
    next := done;
    var ik := k / 2;
    if 2 * ik != k {
      TakeFactor(b, weight, done);
      var t3 := RandlcCall(t1, t2.value);
      next := done + weight;
    }
    if ik != 0 {
      DoubleFactor(b, weight);
      var t3 := RandlcCall(t2, t2.value);
    }
  }

  /** The seed that batch `kk` starts from. */
  function SeedOf(mk: nat, kk: nat): int {
    (S_INT * Pow(Pow(A_INT, 2 * Pow2(mk)) % M46, kk)) % M46
  }

  /** Main result: batch `kk` starts where the one stream is after `kk` whole batches, and
      running one batch to its end gives the start of the next.  So the parallel batches
      concatenate to the serial sequence. */
  lemma {:induction false} BatchesAreTheStream(mk: nat, kk: nat, i: nat)
    ensures var n := 2 * Pow2(mk);
            && n * kk >= 0
            && Stream(A_INT, SeedOf(mk, kk), i) == Stream(A_INT, S_INT, n * kk + i)
            && Stream(A_INT, SeedOf(mk, kk), n) == SeedOf(mk, kk + 1)
  {
    var n: nat := 2 * Pow2(mk);
    SeedIsStream(mk, kk);
    SeedIsStream(mk, kk + 1);
    StreamAdd(A_INT, S_INT, n * kk, i);
    StreamAdd(A_INT, S_INT, n * kk, n);
    assert n * (kk + 1) == n * kk + n;
  }

  lemma SeedIsStream(mk: nat, kk: nat)
    ensures 2 * Pow2(mk) * kk >= 0 && SeedOf(mk, kk) == Stream(A_INT, S_INT, 2 * Pow2(mk) * kk)
  {
    var n: nat := 2 * Pow2(mk);
    var p := Pow(A_INT, n);
    PowMul(A_INT, n, kk);
    ReducePower(p, kk, M46);
    ReduceFactor(S_INT, Pow(p % M46, kk), M46);
    ReduceFactor(S_INT, Pow(p, kk), M46);
    StreamIsPower(A_INT, S_INT, n * kk);
  }

  /** One parallel instance: it finds its own seed and fills x[1..2*NK]. */
  method RunBatch(mk: nat, kk: nat, an: real, x: array<real>)
    requires IsSeed(an) && an.Floor == Pow(A_INT, 2 * Pow2(mk)) % M46
    requires kk < Pow2(100) && x.Length == 2 * Pow2(mk) + 1
    modifies x
    ensures forall i | 1 <= i <= 2 * Pow2(mk) ::
              2 * Pow2(mk) * kk >= 0 && x[i] == R46 * Stream(A_INT, S_INT, 2 * Pow2(mk) * kk + i) as real
  {
    var t1 := BatchSeed(kk, an);
    Vranlc(x.Length - 1, t1, A_INT as real, x);
    forall i | 1 <= i <= 2 * Pow2(mk)
      ensures 2 * Pow2(mk) * kk >= 0 && x[i] == R46 * Stream(A_INT, S_INT, 2 * Pow2(mk) * kk + i) as real
    {
      BatchesAreTheStream(mk, kk, i);
    }
  }

  /** The loop over the batches: the numbers of all of them, one batch after the other. */
  method RunAll(mk: nat, np: nat) returns (numbers: seq<real>)
    requires np <= Pow2(100)
    ensures |numbers| == 2 * Pow2(mk) * np
    ensures forall j | 0 <= j < |numbers| :: numbers[j] == R46 * Stream(A_INT, S_INT, j + 1) as real
  {
    var n := 2 * Pow2(mk);
    var an := ComputeAn(mk);
    var x := new real[n + 1];
    numbers := [];
    assert n * 0 == 0;
    for k := 0 to np
      invariant |numbers| == n * k
      invariant forall j | 0 <= j < |numbers| :: numbers[j] == R46 * Stream(A_INT, S_INT, j + 1) as real
    {
      RunBatch(mk, k, an, x);
      numbers := numbers + x[1..];
      assert n * (k + 1) == n * k + n;
    }
  }
}
