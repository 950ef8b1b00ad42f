/** Powers and remainders, as far as the random streams need them. */
module ModPower {

  function Pow(b: int, e: nat): int {
    if e == 0 then 1 else b * Pow(b, e - 1)
  }

  function Pow2(e: nat): (r: int)
    ensures r >= 1
  {
    if e == 0 then 1 else 2 * Pow2(e - 1)
  }

  lemma {:induction false} PowAdd(b: int, m: nat, n: nat)
    ensures Pow(b, m + n) == Pow(b, m) * Pow(b, n)
  {
    if m > 0 {
      PowAdd(b, m - 1, n);
      assert b * (Pow(b, m - 1) * Pow(b, n)) == (b * Pow(b, m - 1)) * Pow(b, n);
    }
  }

  lemma {:induction false} PowMul(b: int, m: nat, n: nat)
    ensures m * n >= 0 && Pow(b, m * n) == Pow(Pow(b, m), n)
    decreases n
  {
    if n == 0 {
      assert m * n == 0;
    } else {
      PowMul(b, m, n - 1);
      assert m * n == m + m * (n - 1);
      PowAdd(b, m, m * (n - 1));
    }
  }

  lemma {:induction false} Pow2Add(m: nat, n: nat)
    ensures Pow2(m + n) == Pow2(m) * Pow2(n)
  {
    if m > 0 {
      Pow2Add(m - 1, n);
      assert 2 * (Pow2(m - 1) * Pow2(n)) == (2 * Pow2(m - 1)) * Pow2(n);
    }
  }

  /** `y` leaves remainder `r`. */
  lemma RemainderIs(y: int, q: int, r: int, m: int)
    requires m > 0 && y == q * m + r && 0 <= r < m
    ensures y % m == r && y / m == q
  {
    var d := y / m - q;
    assert y == (y / m) * m + y % m;
    assert d * m == (y / m) * m - q * m;
    assert -m < d * m < m;
    BetweenMultiples(d, m);
  }

  lemma BetweenMultiples(d: int, m: int)
    requires m > 0 && -m < d * m < m
    ensures d == 0
  {
    if d >= 1 { AtLeastOnce(d, m); }
    if d <= -1 { AtLeastOnce(-d, m); }
  }

  lemma AtLeastOnce(d: int, m: int)
    ensures d >= 1 && m > 0 ==> d * m >= m
  {}

  /** Equal up to a multiple of the modulus means equal remainders. */
  lemma SameRemainder(x: int, y: int, k: int, m: int)
    requires m > 0 && x == y + k * m
    ensures x % m == y % m
  {
    assert y == (y / m) * m + y % m;
    assert (y / m + k) * m == (y / m) * m + k * m;
    RemainderIs(x, y / m + k, y % m, m);
  }

  /** A factor may be reduced before it is used. */
  lemma ReduceFactor(a: int, b: int, m: int)
    requires m > 0
    ensures (a * (b % m)) % m == (a * b) % m
  {
    assert b == (b / m) * m + b % m;
    assert a * b == a * (b % m) + (a * (b / m)) * m;
    SameRemainder(a * b, a * (b % m), a * (b / m), m);
  }

  lemma {:induction false} ReducePower(b: int, e: nat, m: int)
    requires m > 0
    ensures Pow(b % m, e) % m == Pow(b, e) % m
  {
    if e > 0 {
      ReducePower(b, e - 1, m);
      ReduceFactor(b % m, Pow(b % m, e - 1), m);
      ReduceFactor(b % m, Pow(b, e - 1), m);
      ReduceFactor(Pow(b, e - 1), b, m);
      assert (b % m) * Pow(b, e - 1) == Pow(b, e - 1) * (b % m);
      assert b * Pow(b, e - 1) == Pow(b, e - 1) * b;
    }
  }

  lemma OddProduct(a: int, b: int)
    ensures (a * b) % 2 == ((a % 2) * (b % 2)) % 2
  {
    ReduceFactor(a, b, 2);
    ReduceFactor(b % 2, a, 2);
    assert (b % 2) * a == a * (b % 2);
    assert (b % 2) * (a % 2) == (a % 2) * (b % 2);
  }

  lemma {:induction false} OddPower(b: int, e: nat)
    requires b % 2 == 1
    ensures Pow(b, e) % 2 == 1
  {
    if e > 0 {
      OddPower(b, e - 1);
      OddProduct(b, Pow(b, e - 1));
    }
  }
}
