/** Integer polynomials as coefficient lists (constant term first), evaluated
    exactly; facts modulo a prime p are stated with `%`. */
module Polynomial {
  import opened Modular
  import opened Primes

  type Poly = seq<int>

  /** Horner evaluation: c[0] + z*(c[1] + z*(...)). */
  function Eval(c: Poly, z: int): int
    decreases |c|
  {
    if |c| == 0 then 0 else c[0] + z * Eval(c[1..], z)
  }

  /** Multiplication by X. */
  function Shift(c: Poly): (r: Poly)
    ensures |r| == |c| + 1
  {
    [0] + c
  }

  function Scale(k: int, c: Poly): (r: Poly)
    ensures |r| == |c|
  {
    seq(|c|, i requires 0 <= i < |c| => k * c[i])
  }

  /** Coefficient-wise sum; the shorter list is padded with zeros. */
  function Add(c: Poly, d: Poly): (r: Poly)
    ensures |r| == if |c| < |d| then |d| else |c|
    decreases |c| + |d|
  {
    if |c| == 0 then d
    else if |d| == 0 then c
    else [c[0] + d[0]] + Add(c[1..], d[1..])
  }

  /** The product (X - a) * c. */
  function MulLinear(c: Poly, a: int): (r: Poly)
    ensures |r| == |c| + 1
  {
    Add(Shift(c), Scale(-a, c))
  }

  lemma ShiftEval(c: Poly, z: int)
    ensures Eval(Shift(c), z) == z * Eval(c, z)
  {
    assert Shift(c)[1..] == c;
  }

  lemma {:induction false} ScaleEval(k: int, c: Poly, z: int)
    ensures Eval(Scale(k, c), z) == k * Eval(c, z)
    decreases |c|
  {
    if |c| > 0 {
      var s := Scale(k, c);
      assert s[1..] == Scale(k, c[1..]);
      ScaleEval(k, c[1..], z);
      var e := Eval(c[1..], z);
      assert Eval(s, z) == k * c[0] + z * Eval(s[1..], z);
      ScaleAlgebra(k, c[0], z, e);
    }
  }

  lemma ScaleAlgebra(k: int, c0: int, z: int, e: int)
    ensures k * c0 + z * (k * e) == k * (c0 + z * e)
  {
    assert z * (k * e) == k * (z * e);
  }

  lemma {:induction false} AddEval(c: Poly, d: Poly, z: int)
    ensures Eval(Add(c, d), z) == Eval(c, z) + Eval(d, z)
    decreases |c| + |d|
  {
    if |c| > 0 && |d| > 0 {
      var s := Add(c, d);
      assert s[1..] == Add(c[1..], d[1..]);
      AddEval(c[1..], d[1..], z);
      var ec, ed := Eval(c[1..], z), Eval(d[1..], z);
      assert Eval(s, z) == c[0] + d[0] + z * Eval(s[1..], z);
      AddAlgebra(c[0], d[0], z, ec, ed);
    }
  }

  lemma AddAlgebra(c0: int, d0: int, z: int, ec: int, ed: int)
    ensures c0 + d0 + z * (ec + ed) == (c0 + z * ec) + (d0 + z * ed)
  {
    assert z * (ec + ed) == z * ec + z * ed;
  }

  lemma MulLinearEval(c: Poly, a: int, z: int)
    ensures Eval(MulLinear(c, a), z) == (z - a) * Eval(c, z)
  {
    AddEval(Shift(c), Scale(-a, c), z);
    ShiftEval(c, z);
    ScaleEval(-a, c, z);
    var e := Eval(c, z);
    assert z * e + (-a) * e == (z - a) * e;
  }

  /** Synthetic division by (X - a): the quotient, one coefficient shorter. */
  function DivLinear(c: Poly, a: int): (s: Poly)
    ensures |s| == if |c| == 0 then 0 else |c| - 1
    decreases |c|
  {
    if |c| <= 1 then [] else [Eval(c[1..], a)] + DivLinear(c[1..], a)
  }

  /** The factor theorem: c(z) == (z - a)*q(z) + c(a) for the quotient q. */
  lemma {:induction false} DivLinearEval(c: Poly, a: int, z: int)
    ensures Eval(c, z) == (z - a) * Eval(DivLinear(c, a), z) + Eval(c, a)
    decreases |c|
  {
    if |c| == 1 {
      assert Eval(c, z) == c[0] && Eval(c, a) == c[0];
    } else if |c| > 1 {
      var r := c[1..];
      var s' := DivLinear(r, a);
      assert DivLinear(c, a)[1..] == s';
      DivLinearEval(r, a, z);
      FactorAlgebra(c[0], z, a, Eval(r, a), Eval(s', z), Eval(r, z));
    }
  }

  /** The arithmetic step of synthetic division. */
  lemma FactorAlgebra(c0: int, z: int, a: int, ra: int, sz: int, rz: int)
    requires rz == (z - a) * sz + ra
    ensures c0 + z * rz == (z - a) * (ra + z * sz) + (c0 + a * ra)
  {
    assert z * rz == z * ((z - a) * sz) + z * ra;
    assert (z - a) * (ra + z * sz) == (z - a) * ra + (z - a) * (z * sz);
  }

  predicate Incongruent(a: int, b: int, m: int)
    requires m > 0
  {
    (a - b) % m != 0
  }

  /** The values xs are pairwise incongruent modulo m. */
  predicate DistinctMod(xs: seq<int>, m: int)
    requires m > 0
  {
    forall i, j {:trigger Incongruent(xs[i], xs[j], m)} ::
      0 <= i < |xs| && 0 <= j < |xs| && i != j ==> Incongruent(xs[i], xs[j], m)
  }

  /** A polynomial with at most n coefficients (degree < n) that vanishes
      modulo a prime p at n pairwise incongruent points vanishes modulo p
      everywhere. */
  lemma {:induction false} Vanishing(c: Poly, xs: seq<int>, p: int, z: int)
    requires IsPrime(p) && DistinctMod(xs, p) && |c| <= |xs|
    requires forall i :: 0 <= i < |xs| ==> Eval(c, xs[i]) % p == 0
    ensures Eval(c, z) % p == 0
    decreases |xs|
  {
    if |c| > 0 {
      var a := xs[0];
      var q := DivLinear(c, a);
      var rest := xs[1..];
      assert Eval(c, a) % p == 0;
      forall i | 0 <= i < |rest|
        ensures Eval(q, rest[i]) % p == 0
      {
        var x := rest[i];
        assert x == xs[i + 1];
        assert Incongruent(xs[i + 1], xs[0], p);
        DivLinearEval(c, a, x);
        FactorVanishes(Eval(c, x), x - a, Eval(q, x), Eval(c, a), p);
      }
      assert DistinctMod(rest, p) by {
        forall i, j | 0 <= i < |rest| && 0 <= j < |rest| && i != j
          ensures Incongruent(rest[i], rest[j], p)
        {
          assert rest[i] == xs[i + 1] && rest[j] == xs[j + 1];
          assert Incongruent(xs[i + 1], xs[j + 1], p);
        }
      }
      Vanishing(q, rest, p, z);
      DivLinearEval(c, a, z);
      FactorRecombines(Eval(c, z), z - a, Eval(q, z), Eval(c, a), p);
    }
  }

  /** If u == d*w + v with u and v divisible by the prime p and d not, then
      p divides w. */
  lemma FactorVanishes(u: int, d: int, w: int, v: int, p: int)
    requires IsPrime(p) && u == d * w + v && u % p == 0 && v % p == 0 && d % p != 0
    ensures w % p == 0
  {
    CongSub(u, 0, v, 0, p);
    ModUnique(0, p, 0, 0);
    assert (d * w) % p == 0;
    Euclid(p, d, w);
  }

  /** If u == d*w + v with w and v divisible by p, so is u. */
  lemma FactorRecombines(u: int, d: int, w: int, v: int, p: int)
    requires p > 0 && u == d * w + v && w % p == 0 && v % p == 0
    ensures u % p == 0
  {
    MultipleTimes(w, d, p);
    assert d * w == w * d;
    ModUnique(0, p, 0, 0);
    CongAdd(d * w, 0, v, 0, p);
  }
}
