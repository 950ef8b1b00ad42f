/** The period of a linear congruential generator with a multiplier of the form 8k+5. */
module Period {
  import opened ModPower

  lemma ProductForm(q: int, f: int, e: int)
    ensures (1 + q * f) * (1 + q * e) == 1 + q * (f + e + q * (f * e))
  {
    assert (1 + q * f) * (1 + q * e) == 1 + q * f + q * e + (q * f) * (q * e);
    FourFactors(q, f, e);
    assert q * (f + e + q * (f * e)) == q * f + q * e + q * (q * (f * e));
  }

  lemma FourFactors(q: int, f: int, e: int)
    ensures (q * f) * (q * e) == q * (q * (f * e))
  {
    assert (q * f) * (q * e) == q * (f * (q * e));
    assert f * (q * e) == q * (f * e);
  }

  lemma EvenTerm(d: int, q: int, x: int)
    requires q % 2 == 0
    ensures (d + q * x) % 2 == d % 2
  {
    var h := q / 2;
    assert q * x == (h * x) * 2 by { assert (2 * h) * x == 2 * (h * x); }
    SameRemainder(d + q * x, d, h * x, 2);
  }

  lemma Doubling(k: nat)
    ensures Pow2(k + 1) == 2 * Pow2(k) && Pow2(k + 2) == 4 * Pow2(k) && Pow2(k + 3) == 8 * Pow2(k)
    ensures Pow2(k + 1) % 2 == 0 && Pow2(k + 2) % 4 == 0 && Pow2(k + 2) % 2 == 0
  {
    assert Pow2(k + 3) == 2 * Pow2(k + 2) == 4 * Pow2(k + 1);
  }

  lemma FirstPower(a: int) returns (c: int)
    requires a % 8 == 5
    ensures Pow(a, Pow2(0)) == 1 + Pow2(2) * c && c % 2 == 1
  {
    c := QuarterOf(a);
    assert Pow2(2) == 4 by { assert Pow2(1) == 2; }
    assert Pow(a, 1) == a by { assert Pow(a, 0) == 1; }
  }

  lemma QuarterOf(a: int) returns (c: int)
    requires a % 8 == 5
    ensures a == 1 + 4 * c && c % 2 == 1
  {
    var e := a / 8;
    assert a == 8 * e + 5;
    c := 2 * e + 1;
  }

  /** The powers a^(2^k) leave 1 by exactly k+2 factors of two. */
  lemma {:induction false} SquarePower(a: int, k: nat) returns (c: int)
    requires a % 8 == 5
    ensures Pow(a, Pow2(k)) == 1 + Pow2(k + 2) * c && c % 2 == 1
  {
    if k == 0 {
      c := FirstPower(a);
    } else {
      var d := SquarePower(a, k - 1);
      Doubling(k - 1);
      c := SquareStep(Pow(a, Pow2(k - 1)), Pow2(k + 1), d, Pow2(k + 2));
      PowTwice(a, Pow2(k - 1), Pow2(k));
    }
  }

  lemma PowTwice(a: int, half: nat, whole: nat)
    requires whole == 2 * half
    ensures Pow(a, whole) == Pow(a, half) * Pow(a, half)
  {
    PowAdd(a, half, half);
  }

  lemma SquareStep(p: int, q: int, d: int, twice: int) returns (c: int)
    requires p == 1 + q * d && q % 4 == 0 && d % 2 == 1 && twice == 2 * q
    ensures p * p == 1 + twice * c && c % 2 == 1
  {
    var h := q / 2;
    c := d + h * (d * d);
    EvenTerm(d, h, d * d);
    ProductForm(q, d, d);
    assert d + d + q * (d * d) == 2 * c by { assert (2 * h) * (d * d) == 2 * (h * (d * d)); }
    assert q * (2 * c) == (2 * q) * c;
  }

  /** An odd power keeps the exact number of factors. */
  lemma {:induction false} OddPowerForm(q: int, c: int, m: nat) returns (d: int)
    requires q % 2 == 0 && c % 2 == 1 && m % 2 == 1
    ensures Pow(1 + q * c, m) == 1 + q * d && d % 2 == 1
    decreases m
  {
    var b := 1 + q * c;
    PowOne(b);
    if m == 1 {
      d := c;
    } else {
      var e := OddPowerForm(q, c, m - 2);
      PowAdd(b, 2, m - 2);
      d := TwoMore(q, c, e, b, Pow(b, m - 2));
    }
  }

  lemma PowOne(b: int)
    ensures Pow(b, 1) == b && Pow(b, 2) == b * b
  {
    assert Pow(b, 1) == b * Pow(b, 0);
    assert Pow(b, 2) == b * Pow(b, 1);
  }

  lemma SquareForm(q: int, c: int, b: int) returns (f: int)
    requires q % 2 == 0 && b == 1 + q * c
    ensures b * b == 1 + q * f && f % 2 == 0
  {
    ProductForm(q, c, c);
    EvenTerm(2 * c, q, c * c);
    f := c + c + q * (c * c);
  }

  lemma TwoMore(q: int, c: int, e: int, b: int, power: int) returns (d: int)
    requires q % 2 == 0 && e % 2 == 1 && b == 1 + q * c && power == 1 + q * e
    ensures (b * b) * power == 1 + q * d && d % 2 == 1
  {
    var f := SquareForm(q, c, b);
    d := EvenMore(q, b * b, f, e, power);
  }

  lemma EvenMore(q: int, b: int, f: int, e: int, power: int) returns (d: int)
    requires q % 2 == 0 && f % 2 == 0 && e % 2 == 1 && b == 1 + q * f && power == 1 + q * e
    ensures b * power == 1 + q * d && d % 2 == 1
  {
    ProductOf(q, f, e, b, power);
    d := f + e + q * (f * e);
    OddSum(f, e, q, f * e);
  }

  lemma ProductOf(q: int, f: int, e: int, b: int, power: int)
    requires b == 1 + q * f && power == 1 + q * e
    ensures b * power == 1 + q * (f + e + q * (f * e))
  {
    ProductForm(q, f, e);
  }

  lemma OddSum(f: int, e: int, q: int, x: int)
    requires q % 2 == 0 && f % 2 == 0 && e % 2 == 1
    ensures (f + e + q * x) % 2 == 1
  {
    EvenTerm(f + e, q, x);
  }

  lemma EvenTimes(a: int, b: int)
    ensures (2 * a * b) % 2 == 0
  {
    assert 2 * a * b == 2 * (a * b);
  }

  /** Every positive number is a power of two times an odd number. */
  lemma {:induction false} Split(j: nat) returns (k: nat, m: nat)
    requires j > 0
    ensures j == Pow2(k) * m && m % 2 == 1
  {
    if j % 2 == 1 {
      k, m := 0, j;
    } else {
      k, m := Split(j / 2);
      k := k + 1;
      assert 2 * (Pow2(k - 1) * m) == (2 * Pow2(k - 1)) * m;
    }
  }

  lemma OddNotMultiple(d: int, n: nat)
    requires d % 2 == 1 && n > 0
    ensures d % Pow2(n) != 0
  {
    var p := Pow2(n);
    assert d == (d / p) * p + d % p;
    assert (d / p) * p == 2 * (d / p) * Pow2(n - 1);
    EvenTimes(d / p, Pow2(n - 1));
  }

  lemma ScaledMultiple(d: int, p: int, r: int)
    requires p > 0 && r > 0 && p * r > 0
    ensures (p * d) % (p * r) == 0 <==> d % r == 0
  {
    assert d == (d / r) * r + d % r;
    assert p * d == (d / r) * (p * r) + p * (d % r);
    assert 0 <= p * (d % r) < p * r by {
      assert p * r - p * (d % r) == p * (r - d % r);
    }
    RemainderIs(p * d, d / r, p * (d % r), p * r);
  }

  /** The factors of two of a product with an odd number. */
  lemma OddTimesPower(d: int, k: nat, n: nat)
    requires d % 2 == 1
    ensures (Pow2(k) * d) % Pow2(n) == 0 <==> k >= n
  {
    if k >= n {
      Pow2Add(n, k - n);
      MultipleOf(Pow2(n), Pow2(k - n), d);
    } else {
      Pow2Add(k, n - k);
      OddNotMultiple(d, n - k);
      ScaledMultiple(d, Pow2(k), Pow2(n - k));
    }
  }

  /** A power of the multiplier is one modulo 2^(n+2) exactly for the multiples of 2^n. */
  lemma OrderIsExact(a: int, j: nat, n: nat)
    requires a % 8 == 5
    ensures (Pow(a, j) - 1) % Pow2(n + 2) == 0 <==> j % Pow2(n) == 0
  {
    if j == 0 {
      ZeroIsMultiple(Pow2(n));
      ZeroIsMultiple(Pow2(n + 2));
    } else {
      var k, m, d := PowerForm(a, j);
      FactorsOfTwo(j, m, k, n);
      FactorsOfTwo(Pow(a, j) - 1, d, k + 2, n + 2);
    }
  }

  lemma ZeroIsMultiple(m: int)
    requires m > 0
    ensures 0 % m == 0
  {}

  lemma FactorsOfTwo(x: int, d: int, k: nat, n: nat)
    requires x == Pow2(k) * d && d % 2 == 1
    ensures x % Pow2(n) == 0 <==> k >= n
  {
    OddTimesPower(d, k, n);
  }

  lemma PowerForm(a: int, j: nat) returns (k: nat, m: nat, d: int)
    requires a % 8 == 5 && j > 0
    ensures j == Pow2(k) * m && m % 2 == 1
    ensures Pow(a, j) - 1 == Pow2(k + 2) * d && d % 2 == 1
  {
    k, m := Split(j);
    var c := SquarePower(a, k);
    PowMul(a, Pow2(k), m);
    Doubling(k);
    d := OddPowerForm(Pow2(k + 2), c, m);
  }

  lemma MultipleOf(p: int, q: int, m: int)
    requires p > 0
    ensures (p * q * m) % p == 0
  {
    assert p * q * m == (q * m) * p + 0;
    RemainderIs(p * q * m, q * m, 0, p);
  }

  /** An odd factor can be cancelled modulo a power of two. */
  lemma {:induction false} OddCancels(s: int, y: int, n: nat)
    requires s % 2 == 1
    ensures (s * y) % Pow2(n) == 0 <==> y % Pow2(n) == 0
    decreases n
  {
    if n > 0 {
      var p := Pow2(n - 1);
      OddProduct(s, y);
      if y % 2 == 0 {
        var h := y / 2;
        OddCancels(s, h, n - 1);
        assert s * y == 2 * (s * h);
        ScaledMultiple(s * h, 2, p);
        ScaledMultiple(h, 2, p);
      } else {
        OddNotMultiple(y, n);
        OddNotMultiple(s * y, n);
      }
    }
  }

  /** Equal modulo 2^n. */
  predicate Agree(x: int, y: int, n: nat) { x % Pow2(n) == y % Pow2(n) }

  lemma PeriodOrdered(a: int, s: int, j: nat, k: nat, n: nat)
    requires a % 8 == 5 && s % 2 == 1 && k <= j
    ensures Agree(s * Pow(a, j), s * Pow(a, k), n + 2) <==> Agree(j, k, n)
  {
    var later, first, u := LaterState(s, a, j, k);
    StepsDiffer(later, first, u, n + 2);
    OrderAgrees(a, j, k, n, u);
  }

  lemma OrderAgrees(a: int, j: nat, k: nat, n: nat, u: int)
    requires a % 8 == 5 && k <= j && u == Pow(a, j - k)
    ensures Agree(u, 1, n + 2) <==> Agree(j, k, n)
  {
    OrderIsExact(a, j - k, n);
    DifferenceMultiple(u, 1, Pow2(n + 2));
    DifferenceMultiple(j, k, Pow2(n));
  }

  lemma OddMultiplier(a: int)
    requires a % 8 == 5
    ensures a % 2 == 1
  {
    assert a == 2 * (4 * (a / 8) + 2) + 1;
  }

  lemma OddState(s: int, a: int, k: nat)
    requires a % 2 == 1 && s % 2 == 1
    ensures (s * Pow(a, k)) % 2 == 1
  {
    OddPower(a, k);
    OddProduct(s, Pow(a, k));
  }

  lemma LaterState(s: int, a: int, j: nat, k: nat) returns (later: int, first: int, u: int)
    requires k <= j && a % 8 == 5 && s % 2 == 1
    ensures later == s * Pow(a, j) && first == s * Pow(a, k) && u == Pow(a, j - k)
    ensures later == first * u && first % 2 == 1
  {
    OddMultiplier(a);
    OddState(s, a, k);
    later, first, u := s * Pow(a, j), s * Pow(a, k), Pow(a, j - k);
    PowAdd(a, k, j - k);
    Associate(s, Pow(a, k), u);
  }

  lemma Associate(a: int, b: int, c: int)
    ensures a * (b * c) == (a * b) * c
  {}

  lemma StepsDiffer(later: int, t: int, u: int, n: nat)
    requires later == t * u && t % 2 == 1
    ensures Agree(later, t, n) <==> Agree(u, 1, n)
  {
    assert t * (u - 1) == later - t;
    OddCancels(t, u - 1, n);
    DifferenceMultiple(later, t, Pow2(n));
    DifferenceMultiple(u, 1, Pow2(n));
  }

  /** Main result: from an odd seed the states after j and after k steps agree modulo 2^(n+2)
      exactly when j and k agree modulo 2^n.  So the period is 2^n, neither more nor less. */
  lemma PeriodIsExact(a: int, s: int, j: nat, k: nat, n: nat)
    requires a % 8 == 5 && s % 2 == 1
    ensures (s * Pow(a, j)) % Pow2(n + 2) == (s * Pow(a, k)) % Pow2(n + 2) <==> j % Pow2(n) == k % Pow2(n)
  {
    if j < k { PeriodOrdered(a, s, k, j, n); } else { PeriodOrdered(a, s, j, k, n); }
  }

  lemma DifferenceMultiple(x: int, y: int, m: int)
    requires m > 0
    ensures (x - y) % m == 0 <==> x % m == y % m
  {
    if (x - y) % m == 0 {
      SameRemainder(x, y, (x - y) / m, m);
    }
    if x % m == y % m {
      assert x - y == (x / m - y / m) * m + 0;
      RemainderIs(x - y, x / m - y / m, 0, m);
    }
  }
}
