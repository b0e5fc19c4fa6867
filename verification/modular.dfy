/** Integer powers, Python's three-argument `pow`, and the congruence facts
    the field arithmetic of `lagrange.py` relies on.  All moduli are positive,
    so Dafny's Euclidean `%` agrees with Python's floored `%`. */
module Modular {

  /** b raised to the natural power e (with 0^0 == 1, as in Python). */
  function Pow(b: int, e: nat): int
    decreases e
  {
    if e == 0 then 1 else b * Pow(b, e - 1)
  }

  /** a and b are congruent modulo m. */
  predicate Cong(a: int, b: int, m: int)
    requires m > 0
  {
    a % m == b % m
  }

  /** Quotient and remainder are unique: any decomposition x == m*q + r with
      0 <= r < m is the one `/` and `%` compute. */
  lemma ModUnique(x: int, m: int, q: int, r: int)
    requires m > 0 && 0 <= r < m && x == m * q + r
    ensures x % m == r && x / m == q
  {
    var q0, r0 := x / m, x % m;
    assert m * (q - q0) == r0 - r;
    if q > q0 {
      MulAtLeast(m, q - q0);
    } else if q < q0 {
      MulAtLeast(m, q0 - q);
    }
  }

  lemma MulAtLeast(m: int, t: int)
    requires m > 0 && t >= 1
    ensures m * t >= m
  {
  }

  /** Adding a multiple of m does not change the remainder. */
  lemma ModAddMultiple(x: int, k: int, m: int)
    requires m > 0
    ensures (x + m * k) % m == x % m
  {
    var q, r := x / m, x % m;
    assert x + m * k == m * (q + k) + r;
    ModUnique(x + m * k, m, q + k, r);
  }

  /** Every multiple of m leaves remainder 0. */
  lemma ModMultiple(k: int, m: int)
    requires m > 0
    ensures (m * k) % m == 0
  {
    ModUnique(m * k, m, k, 0);
  }

  /** Reducing an operand first does not change a product modulo m. */
  lemma ModMulLeft(a: int, b: int, m: int)
    requires m > 0
    ensures ((a % m) * b) % m == (a * b) % m
  {
    var q := a / m;
    assert a * b == (a % m) * b + m * (q * b);
    ModAddMultiple((a % m) * b, q * b, m);
  }

  lemma ModMulRight(a: int, b: int, m: int)
    requires m > 0
    ensures (a * (b % m)) % m == (a * b) % m
  {
    ModMulLeft(b, a, m);
  }

  /** Reducing an operand first does not change a sum modulo m. */
  lemma ModAddLeft(a: int, b: int, m: int)
    requires m > 0
    ensures ((a % m) + b) % m == (a + b) % m
  {
    var q := a / m;
    assert a + b == (a % m) + b + m * q;
    ModAddMultiple((a % m) + b, q, m);
  }

  lemma ModIdempotent(a: int, m: int)
    requires m > 0
    ensures (a % m) % m == a % m
  {
    ModUnique(a % m, m, 0, a % m);
  }

  /** Congruence is kept by multiplication. */
  lemma CongMul(a: int, b: int, c: int, d: int, m: int)
    requires m > 0 && Cong(a, b, m) && Cong(c, d, m)
    ensures Cong(a * c, b * d, m)
  {
    calc {
      (a * c) % m;
      { ModMulLeft(a, c, m); }
      ((a % m) * c) % m;
      { ModMulRight(a % m, c, m); }
      ((a % m) * (c % m)) % m;
      ((b % m) * (d % m)) % m;
      { ModMulRight(b % m, d, m); }
      ((b % m) * d) % m;
      { ModMulLeft(b, d, m); }
      (b * d) % m;
    }
  }

  /** Congruence is kept by addition. */
  lemma CongAdd(a: int, b: int, c: int, d: int, m: int)
    requires m > 0 && Cong(a, b, m) && Cong(c, d, m)
    ensures Cong(a + c, b + d, m)
  {
    calc {
      (a + c) % m;
      { ModAddLeft(a, c, m); }
      ((a % m) + c) % m;
      { ModAddLeft(c, a % m, m); }
      ((c % m) + (a % m)) % m;
      ((d % m) + (b % m)) % m;
      { ModAddLeft(d, b % m, m); }
      (d + (b % m)) % m;
      { ModAddLeft(b, d, m); }
      (b + d) % m;
    }
  }

  lemma CongSub(a: int, b: int, c: int, d: int, m: int)
    requires m > 0 && Cong(a, b, m) && Cong(c, d, m)
    ensures Cong(a - c, b - d, m)
  {
    CongMul(c, d, -1, -1, m);
    CongAdd(a, b, c * -1, d * -1, m);
  }

  lemma PowAdd(b: int, e1: nat, e2: nat)
    ensures Pow(b, e1 + e2) == Pow(b, e1) * Pow(b, e2)
    decreases e1
  {
    if e1 > 0 {
      PowAdd(b, e1 - 1, e2);
      assert Pow(b, e1 + e2) == b * Pow(b, e1 - 1 + e2);
    }
  }

  /** Powers of congruent bases are congruent. */
  lemma {:induction false} PowCong(a: int, b: int, e: nat, m: int)
    requires m > 0 && Cong(a, b, m)
    ensures Cong(Pow(a, e), Pow(b, e), m)
    decreases e
  {
    if e > 0 {
      PowCong(a, b, e - 1, m);
      CongMul(a, b, Pow(a, e - 1), Pow(b, e - 1), m);
    }
  }

  /** Python's `pow(b, e, m)` for m > 0, computed by square-and-multiply on
      the bits of e; every intermediate value is reduced modulo m. */
  function ModPow(b: int, e: nat, m: int): (r: int)
    requires m > 0
    ensures 0 <= r < m
    ensures r == Pow(b, e) % m
    decreases e
  {
    if e == 0 then
      1 % m
    else
      var h := ModPow(b, e / 2, m);
      ModPowStep(b, e, m, h);
      if e % 2 == 0 then h * h % m else h * h % m * (b % m) % m
  }

  /** One square-and-multiply step: squaring b^(e/2) (and multiplying by b
      for odd e) gives b^e modulo m. */
  lemma ModPowStep(b: int, e: nat, m: int, h: int)
    requires m > 0 && e > 0 && h == Pow(b, e / 2) % m
    ensures e % 2 == 0 ==> h * h % m == Pow(b, e) % m
    ensures e % 2 == 1 ==> h * h % m * (b % m) % m == Pow(b, e) % m
  {
    var half := Pow(b, e / 2);
    PowAdd(b, e / 2, e / 2);
    ModIdempotent(half, m);
    CongMul(h, half, h, half, m);
    if e % 2 == 1 {
      assert e == e / 2 + e / 2 + 1;
      PowAdd(b, e / 2 + e / 2, 1);
      assert Pow(b, 1) == b;
      ModIdempotent(h * h, m);
      ModIdempotent(b, m);
      CongMul(h * h % m, half * half, b % m, b, m);
    }
  }
}
