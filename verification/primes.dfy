/** Primes, Euclid's lemma and Fermat's little theorem: the facts that make
    `pow(a, p - 2, p)` a multiplicative inverse modulo a prime p. */
module Primes {
  import opened Modular

  predicate IsPrime(p: int)
  {
    p > 1 && forall d :: 1 < d < p ==> p % d != 0
  }

  /** Euclid's lemma for a factor strictly between 0 and p, by descent on the
      factor: p = a*t + s with 0 < s < a, and p divides s*b as well. */
  lemma {:induction false} EuclidSmall(p: int, a: int, b: int)
    requires IsPrime(p) && 0 < a < p && (a * b) % p == 0
    ensures b % p == 0
    decreases a
  {
    if a > 1 {
      var t, s := p / a, p % a;
      assert s != 0;
      var k := (a * b) / p;
      assert a * b == p * k;
      assert p == a * t + s;
      assert s * b == p * b - t * (a * b);
      assert s * b == p * (b - t * k);
      ModMultiple(b - t * k, p);
      EuclidSmall(p, s, b);
    }
  }

  /** Euclid's lemma: a prime dividing a product divides one of the factors. */
  lemma Euclid(p: int, a: int, b: int)
    requires IsPrime(p) && a % p != 0 && (a * b) % p == 0
    ensures b % p == 0
  {
    ModMulLeft(a, b, p);
    EuclidSmall(p, a % p, b);
  }

  /** Binomial coefficients by Pascal's rule. */
  function Binom(n: nat, k: nat): nat
    decreases n
  {
    if k == 0 then 1 else if n == 0 then 0 else Binom(n - 1, k - 1) + Binom(n - 1, k)
  }

  lemma {:induction false} BinomAbove(n: nat, k: nat)
    requires k > n
    ensures Binom(n, k) == 0
    decreases n
  {
    if n > 0 {
      BinomAbove(n - 1, k - 1);
      BinomAbove(n - 1, k);
    }
  }

  lemma {:induction false} BinomDiagonal(n: nat)
    ensures Binom(n, n) == 1
    decreases n
  {
    if n > 0 {
      BinomDiagonal(n - 1);
      BinomAbove(n - 1, n);
    }
  }

  /** The absorption identity k*C(n,k) == n*C(n-1,k-1). */
  lemma {:induction false} Absorption(n: nat, k: nat)
    requires 1 <= k <= n
    ensures k * Binom(n, k) == n * Binom(n - 1, k - 1)
    decreases n
  {
    var a, b := Binom(n - 1, k - 1), Binom(n - 1, k);
    assert Binom(n, k) == a + b;
    if k == 1 {
      assert a == 1;
      if n == 1 {
        assert b == Binom(0, 1) == 0;
      } else {
        Absorption(n - 1, 1);
        assert b == n - 1 by { assert Binom(n - 2, 0) == 1; }
      }
    } else if k == n {
      BinomAbove(n - 1, k);
      Absorption(n - 1, k - 1);
      BinomAbove(n - 2, k - 1);
      var c := Binom(n - 2, k - 2);
      assert a == c;
      AbsorptionAlgebra(k, n, a, b, (n - 1) * c, 0);
    } else {
      Absorption(n - 1, k);
      Absorption(n - 1, k - 1);
      var c, d := Binom(n - 2, k - 2), Binom(n - 2, k - 1);
      assert a == c + d;
      SumOfProducts(n - 1, c, d);
      AbsorptionAlgebra(k, n, a, b, (n - 1) * c, (n - 1) * d);
    }
  }

  /** The arithmetic step of the absorption identity: with
      (k-1)*a == ka, k*b == kb and ka + kb == (n-1)*a, k*(a+b) == n*a. */
  lemma AbsorptionAlgebra(k: int, n: int, a: int, b: int, ka: int, kb: int)
    requires (k - 1) * a == ka && k * b == kb && ka + kb == (n - 1) * a
    ensures k * (a + b) == n * a
  {
  }

  lemma SumOfProducts(m: int, c: int, d: int)
    ensures m * c + m * d == m * (c + d)
  {
  }

  /** A prime p divides C(p,k) for 0 < k < p. */
  lemma PrimeDividesBinom(p: nat, k: nat)
    requires IsPrime(p) && 0 < k < p
    ensures Binom(p, k) % p == 0
  {
    Absorption(p, k);
    ModMultiple(Binom(p - 1, k - 1), p);
    EuclidSmall(p, k, Binom(p, k));
  }

  /** Partial binomial sum: the sum over i <= j of C(n,i) * a^i. */
  function BinomSum(a: int, n: nat, j: nat): int
    decreases j
  {
    (if j == 0 then 0 else BinomSum(a, n, j - 1)) + Binom(n, j) * Pow(a, j)
  }

  /** Pascal's rule lifted to the partial sums. */
  lemma {:induction false} BinomSumPascal(a: int, n: nat, j: nat)
    requires j >= 1
    ensures BinomSum(a, n + 1, j) == a * BinomSum(a, n, j - 1) + BinomSum(a, n, j)
    decreases j
  {
    var b1, b2 := Binom(n, j - 1), Binom(n, j);
    var p1 := Pow(a, j - 1);
    assert Binom(n + 1, j) == b1 + b2;
    assert Pow(a, j) == a * p1;
    var s1 := BinomSum(a, n, j - 1);
    var s2 := if j == 1 then 0 else BinomSum(a, n, j - 2);
    var prev := if j == 1 then 1 else BinomSum(a, n + 1, j - 1);
    if j == 1 {
      assert BinomSum(a, n + 1, 0) == 1 && s1 == 1 && p1 == 1 && b1 == 1;
    } else {
      BinomSumPascal(a, n, j - 1);
    }
    assert prev == BinomSum(a, n + 1, j - 1) == a * s2 + s1;
    assert s1 == s2 + b1 * p1;
    PascalAlgebra(a, s2, s1, b1, b2, p1);
  }

  /** The arithmetic step of Pascal's rule on sums. */
  lemma PascalAlgebra(a: int, s2: int, s1: int, b1: int, b2: int, p1: int)
    requires s1 == s2 + b1 * p1
    ensures a * s2 + s1 + (b1 + b2) * (a * p1) == a * s1 + (s1 + b2 * (a * p1))
  {
    assert (b1 + b2) * (a * p1) == a * (b1 * p1) + b2 * (a * p1);
  }

  /** The binomial theorem for (a + 1)^n. */
  lemma {:induction false} BinomialTheorem(a: int, n: nat)
    ensures Pow(a + 1, n) == BinomSum(a, n, n)
    decreases n
  {
    if n == 0 {
      assert BinomSum(a, 0, 0) == 1;
    } else {
      BinomialTheorem(a, n - 1);
      BinomSumPascal(a, n - 1, n);
      BinomAbove(n - 1, n);
      var s := BinomSum(a, n - 1, n - 1);
      assert BinomSum(a, n - 1, n) == s + 0 * Pow(a, n);
      assert Pow(a + 1, n) == (a + 1) * s;
      PlusOneTimes(a, s);
    }
  }

  lemma PlusOneTimes(a: int, s: int)
    ensures (a + 1) * s == a * s + s
  {
  }

  /** Below the last term, the binomial sum of a prime power is 1 mod p. */
  lemma {:induction false} BinomSumPrimeMiddle(a: int, p: nat, j: nat)
    requires IsPrime(p) && j < p
    ensures BinomSum(a, p, j) % p == 1
    decreases j
  {
    if j == 0 {
      assert BinomSum(a, p, 0) == 1;
      ModUnique(1, p, 0, 1);
    } else {
      var prev, c, x := BinomSum(a, p, j - 1), Binom(p, j), Pow(a, j);
      assert BinomSum(a, p, j) == prev + c * x;
      BinomSumPrimeMiddle(a, p, j - 1);
      PrimeDividesBinom(p, j);
      MultipleTimes(c, x, p);
      AddMultipleKeepsOne(prev, c * x, p);
    }
  }

  lemma AddMultipleKeepsOne(u: int, v: int, m: int)
    requires m > 1 && u % m == 1 && v % m == 0
    ensures (u + v) % m == 1
  {
    CongAdd(u, 1, v, 0, m);
    ModUnique(1, m, 0, 1);
  }

  /** A multiple of m times anything is a multiple of m. */
  lemma MultipleTimes(c: int, x: int, m: int)
    requires m > 0 && c % m == 0
    ensures (c * x) % m == 0
  {
    ModMulLeft(c, x, m);
  }

  /** (a + 1)^p == a^p + 1 modulo a prime p. */
  lemma FreshmansDream(a: int, p: nat)
    requires IsPrime(p)
    ensures Pow(a + 1, p) % p == (Pow(a, p) + 1) % p
  {
    BinomialTheorem(a, p);
    BinomSumPrimeMiddle(a, p, p - 1);
    BinomSumLast(a, p);
    var s, t := BinomSum(a, p, p - 1), Pow(a, p);
    ModUnique(1, p, 0, 1);
    CongAdd(s, 1, t, t, p);
  }

  /** The last term of the full binomial sum is a^n. */
  lemma BinomSumLast(a: int, n: nat)
    requires n >= 1
    ensures BinomSum(a, n, n) == BinomSum(a, n, n - 1) + Pow(a, n)
  {
    BinomDiagonal(n);
  }

  lemma {:induction false} FermatNatural(a: nat, p: nat)
    requires IsPrime(p)
    ensures Pow(a, p) % p == a % p
    decreases a
  {
    if a == 0 {
      PowZero(p);
    } else {
      FermatNatural(a - 1, p);
      FreshmansDream(a - 1, p);
      CongAdd(Pow(a - 1, p), a - 1, 1, 1, p);
    }
  }

  lemma {:induction false} PowZero(e: nat)
    requires e > 0
    ensures Pow(0, e) == 0
  {
  }

  /** Fermat's little theorem, a^p == a (mod p), for every integer a. */
  lemma Fermat(a: int, p: nat)
    requires IsPrime(p)
    ensures Pow(a, p) % p == a % p
  {
    ModIdempotent(a, p);
    PowCong(a, a % p, p, p);
    FermatNatural(a % p, p);
  }

  /** For a prime p and a not divisible by p, Python's `pow(a, p - 2, p)` is
      the inverse of a modulo p. */
  lemma InverseIsInverse(a: int, p: nat)
    requires IsPrime(p) && a % p != 0
    ensures (a * ModPow(a, p - 2, p)) % p == 1
  {
    var e, h := Pow(a, p - 1), Pow(a, p - 2);
    assert Pow(a, p) == a * e;
    assert e == a * h;
    Fermat(a, p);
    FermatLittle(a, p, e);
    ModMulRight(a, h, p);
  }

  /** a^(p-1) == 1 (mod p) when p does not divide a: p divides a*(a^(p-1) - 1). */
  lemma FermatLittle(a: int, p: nat, e: int)
    requires IsPrime(p) && a % p != 0
    requires (a * e) % p == a % p
    ensures e % p == 1
  {
    CongSub(a * e, a, a, a, p);
    assert a * e - a == a * (e - 1);
    ModUnique(0, p, 0, 0);
    Euclid(p, a, e - 1);
    CongAdd(e - 1, 0, 1, 1, p);
    ModUnique(1, p, 0, 1);
  }
}
