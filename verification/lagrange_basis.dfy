/** The mathematics behind `interpolate`: Lagrange basis values built from
    modular inverses, and the theorem that their weighted sum recovers the
    value of an interpolated polynomial, modulo a prime. */
module LagrangeBasis {
  import opened Modular
  import opened Primes
  import opened Polynomial

  /** The nodes of xs other than x, in order. */
  function Without(xs: seq<int>, x: int): (r: seq<int>)
    ensures |r| <= |xs|
    ensures x in xs ==> |r| < |xs|
    ensures forall y :: y in r <==> y in xs && y != x
    decreases |xs|
  {
    if |xs| == 0 then []
    else if xs[0] == x then Without(xs[1..], x)
    else [xs[0]] + Without(xs[1..], x)
  }

  /** The product of (z - y) over the nodes ys. */
  function ProdDiff(z: int, ys: seq<int>): int
    decreases |ys|
  {
    if |ys| == 0 then 1 else (z - ys[0]) * ProdDiff(z, ys[1..])
  }

  /** The product of the inverses `pow(x - y, p - 2, p)` over the nodes ys. */
  function InvProduct(x: int, ys: seq<int>, p: int): int
    requires p > 1
    decreases |ys|
  {
    if |ys| == 0 then 1 else ModPow(x - ys[0], p - 2, p) * InvProduct(x, ys[1..], p)
  }

  /** The monic polynomial whose roots are ys. */
  function FromRoots(ys: seq<int>): (c: Poly)
    ensures |c| == |ys| + 1
    decreases |ys|
  {
    if |ys| == 0 then [1] else MulLinear(FromRoots(ys[1..]), ys[0])
  }

  lemma {:induction false} FromRootsEval(ys: seq<int>, z: int)
    ensures Eval(FromRoots(ys), z) == ProdDiff(z, ys)
    decreases |ys|
  {
    if |ys| == 0 {
      assert Eval([1], z) == 1 + z * Eval([], z);
    } else {
      FromRootsEval(ys[1..], z);
      MulLinearEval(FromRoots(ys[1..]), ys[0], z);
    }
  }

  /** A node makes the product of differences vanish. */
  lemma {:induction false} ProdDiffAtRoot(y: int, ys: seq<int>)
    requires y in ys
    ensures ProdDiff(y, ys) == 0
    decreases |ys|
  {
    if ys[0] != y {
      ProdDiffAtRoot(y, ys[1..]);
    }
  }

  /** Each difference times its Fermat inverse is 1, so the products are
      inverse to each other modulo a prime. */
  lemma {:induction false} PairedInverses(x: int, ys: seq<int>, p: int)
    requires IsPrime(p)
    requires forall y :: y in ys ==> (x - y) % p != 0
    ensures (InvProduct(x, ys, p) * ProdDiff(x, ys)) % p == 1
    decreases |ys|
  {
    if |ys| == 0 {
      ModUnique(1, p, 0, 1);
    } else {
      var d := x - ys[0];
      assert ys[0] in ys;
      assert forall y :: y in ys[1..] ==> y in ys;
      PairedInverses(x, ys[1..], p);
      InverseIsInverse(d, p);
      ProductOfUnits(ModPow(d, p - 2, p), d, InvProduct(x, ys[1..], p), ProdDiff(x, ys[1..]), p);
    }
  }

  /** Products of inverse pairs are inverse pairs. */
  lemma ProductOfUnits(u: int, a: int, v: int, b: int, p: int)
    requires p > 1 && (a * u) % p == 1 && (v * b) % p == 1
    ensures ((u * v) * (a * b)) % p == 1
  {
    CongMul(a * u, 1, v * b, 1, p);
    ModUnique(1, p, 0, 1);
    Regroup(u, v, a, b);
  }

  lemma Assoc(a: int, b: int, c: int)
    ensures (a * b) * c == a * (b * c)
  {
  }

  lemma Regroup(a: int, b: int, c: int, d: int)
    ensures (a * b) * (c * d) == (c * a) * (b * d)
  {
  }

  /** The weight of node x: its value times the inverse of the product of
      its differences to the other nodes. */
  function Weight(xs: seq<int>, x: int, ys: map<int, int>, p: int): int
    requires p > 1 && x in ys
  {
    ys[x] * InvProduct(x, Without(xs, x), p)
  }

  /** The term of node xs[i] at z: its weight times the product of the
      differences between z and the other nodes. */
  function BasisTerm(xs: seq<int>, i: nat, ys: map<int, int>, p: int, z: int): int
    requires p > 1 && i < |xs| && forall x :: x in xs ==> x in ys
  {
    assert xs[i] in xs;
    Weight(xs, xs[i], ys, p) * ProdDiff(z, Without(xs, xs[i]))
  }

  /** The sum over the nodes xs[i..] of their terms at z. */
  function LagrangeValue(xs: seq<int>, i: nat, ys: map<int, int>, p: int, z: int): int
    requires p > 1 && i <= |xs| && forall x :: x in xs ==> x in ys
    decreases |xs| - i
  {
    if i == |xs| then 0 else BasisTerm(xs, i, ys, p, z) + LagrangeValue(xs, i + 1, ys, p, z)
  }

  /** The same sum as a polynomial, of degree below |xs|. */
  function LagrangePoly(xs: seq<int>, i: nat, ys: map<int, int>, p: int): (c: Poly)
    requires p > 1 && i <= |xs| && forall x :: x in xs ==> x in ys
    ensures |c| <= |xs|
    decreases |xs| - i
  {
    if i == |xs| then []
    else Add(Scale(Weight(xs, xs[i], ys, p), FromRoots(Without(xs, xs[i]))), LagrangePoly(xs, i + 1, ys, p))
  }

  lemma {:induction false} LagrangePolyEval(xs: seq<int>, i: nat, ys: map<int, int>, p: int, z: int)
    requires p > 1 && i <= |xs| && forall x :: x in xs ==> x in ys
    ensures Eval(LagrangePoly(xs, i, ys, p), z) == LagrangeValue(xs, i, ys, p, z)
    decreases |xs| - i
  {
    if i < |xs| {
      var w, b := Weight(xs, xs[i], ys, p), FromRoots(Without(xs, xs[i]));
      assert LagrangeValue(xs, i, ys, p, z) == w * ProdDiff(z, Without(xs, xs[i])) + LagrangeValue(xs, i + 1, ys, p, z);
      LagrangePolyEval(xs, i + 1, ys, p, z);
      AddEval(Scale(w, b), LagrangePoly(xs, i + 1, ys, p), z);
      ScaleEval(w, b, z);
      FromRootsEval(Without(xs, xs[i]), z);
    }
  }

  /** Interpolation data as `interpolate` needs it: a prime modulus,
      pairwise incongruent nodes, and a value for every node. */
  predicate WellPosed(xs: seq<int>, ys: map<int, int>, p: int)
  {
    IsPrime(p) && DistinctMod(xs, p) && forall x :: x in xs ==> x in ys
  }

  lemma DistinctModDistinct(xs: seq<int>, p: int, i: int, j: int)
    requires p > 1 && DistinctMod(xs, p) && 0 <= i < |xs| && 0 <= j < |xs| && i != j
    ensures xs[i] != xs[j]
  {
    assert Incongruent(xs[i], xs[j], p);
  }

  /** At node xs[k] the sum over xs[i..] is the node's value when k >= i
      (every other basis value vanishes there) and 0 otherwise. */
  lemma {:induction false} LagrangeValueAtNode(xs: seq<int>, i: nat, ys: map<int, int>, p: int, k: nat)
    requires WellPosed(xs, ys, p) && i <= |xs| && k < |xs|
    ensures LagrangeValue(xs, i, ys, p, xs[k]) % p == (if i <= k then ys[xs[k]] else 0) % p
    decreases |xs| - i
  {
    assert xs[k] in xs;
    if i < |xs| {
      LagrangeValueAtNode(xs, i + 1, ys, p, k);
      ValueAtNodeStep(xs, i, ys, p, k);
    }
  }

  lemma ValueAtNodeStep(xs: seq<int>, i: nat, ys: map<int, int>, p: int, k: nat)
    requires WellPosed(xs, ys, p) && i < |xs| && k < |xs|
    requires LagrangeValue(xs, i + 1, ys, p, xs[k]) % p == (if i + 1 <= k then ys[xs[k]] else 0) % p
    ensures LagrangeValue(xs, i, ys, p, xs[k]) % p == (if i <= k then ys[xs[k]] else 0) % p
  {
    assert xs[k] in xs;
    var y := ys[xs[k]];
    if i == k {
      OwnBasisAtNode(xs, ys, p, k);
    } else {
      OtherBasisAtNode(xs, ys, p, i, k);
    }
    StepCong(LagrangeValue(xs, i, ys, p, xs[k]), BasisTerm(xs, i, ys, p, xs[k]),
             LagrangeValue(xs, i + 1, ys, p, xs[k]), i, k, y, p);
  }

  /** The arithmetic of one step: the node's own term contributes y exactly
      at i == k, and the rest contributes y exactly when i < k. */
  lemma StepCong(total: int, t: int, r: int, i: int, k: int, y: int, p: int)
    requires p > 0 && total == t + r
    requires i == k ==> t % p == y % p
    requires i != k ==> t == 0
    requires r % p == (if i + 1 <= k then y else 0) % p
    ensures total % p == (if i <= k then y else 0) % p
  {
    if i == k {
      CongAdd(t, y, r, 0, p);
    } else {
      ModAddLeft(0, r, p);
    }
  }

  /** The term of node xs[k] at xs[k] is the node's value. */
  lemma OwnBasisAtNode(xs: seq<int>, ys: map<int, int>, p: int, k: nat)
    requires IsPrime(p) && DistinctMod(xs, p) && k < |xs|
    requires forall x :: x in xs ==> x in ys
    ensures BasisTerm(xs, k, ys, p, xs[k]) % p == ys[xs[k]] % p
  {
    var x := xs[k];
    var others := Without(xs, x);
    OthersIncongruent(xs, p, k);
    PairedInverses(x, others, p);
    ScaleUnit(ys[x], InvProduct(x, others, p), ProdDiff(x, others), p);
  }

  lemma OthersIncongruent(xs: seq<int>, p: int, k: nat)
    requires p > 1 && DistinctMod(xs, p) && k < |xs|
    ensures forall y :: y in Without(xs, xs[k]) ==> (xs[k] - y) % p != 0
  {
    forall y | y in Without(xs, xs[k])
      ensures (xs[k] - y) % p != 0
    {
      NodesIncongruent(xs, p, k, y);
    }
  }

  /** Multiplying by an inverse pair leaves a value unchanged modulo p. */
  lemma ScaleUnit(y: int, u: int, a: int, p: int)
    requires p > 1 && (u * a) % p == 1
    ensures ((y * u) * a) % p == y % p
  {
    Assoc(y, u, a);
    ModIdempotent(y, p);
    CongMul(y, y, u * a, 1, p);
  }

  lemma NodesIncongruent(xs: seq<int>, p: int, k: nat, y: int)
    requires p > 1 && DistinctMod(xs, p) && k < |xs| && y in xs && y != xs[k]
    ensures (xs[k] - y) % p != 0
  {
    var j :| 0 <= j < |xs| && xs[j] == y;
    assert j != k;
    assert Incongruent(xs[k], xs[j], p);
  }

  /** The term of any other node vanishes at xs[k]. */
  lemma OtherBasisAtNode(xs: seq<int>, ys: map<int, int>, p: int, i: nat, k: nat)
    requires p > 1 && DistinctMod(xs, p) && i < |xs| && k < |xs| && i != k
    requires forall x :: x in xs ==> x in ys
    ensures BasisTerm(xs, i, ys, p, xs[k]) == 0
  {
    DistinctModDistinct(xs, p, i, k);
    ProdDiffAtRoot(xs[k], Without(xs, xs[i]));
  }

  /** Lagrange interpolation is exact: if the values at |xs| pairwise
      incongruent nodes lie on a polynomial c of degree below |xs|, the
      weighted basis sum at z equals c(z) modulo the prime p. */
  lemma LagrangeExact(xs: seq<int>, ys: map<int, int>, p: int, c: Poly, z: int)
    requires IsPrime(p) && DistinctMod(xs, p) && |c| <= |xs|
    requires forall x :: x in xs ==> x in ys
    requires forall x :: x in xs ==> ys[x] % p == Eval(c, x) % p
    ensures LagrangeValue(xs, 0, ys, p, z) % p == Eval(c, z) % p
  {
    var l := LagrangePoly(xs, 0, ys, p);
    var q := Add(l, Scale(-1, c));
    assert WellPosed(xs, ys, p);
    DifferenceVanishes(xs, ys, p, c);
    Vanishing(q, xs, p, z);
    DifferenceEval(l, c, z);
    LagrangePolyEval(xs, 0, ys, p, z);
    DifferenceZero(LagrangeValue(xs, 0, ys, p, z), Eval(c, z), Eval(q, z), p);
  }

  /** Values whose difference is divisible by p are congruent modulo p. */
  lemma DifferenceZero(v: int, e: int, d: int, p: int)
    requires p > 0 && d == v - e && d % p == 0
    ensures v % p == e % p
  {
    ModUnique(0, p, 0, 0);
    CongAdd(d, 0, e, e, p);
  }

  /** The difference between the interpolating polynomial and c vanishes at
      every node, and has degree below |xs|. */
  lemma DifferenceVanishes(xs: seq<int>, ys: map<int, int>, p: int, c: Poly)
    requires WellPosed(xs, ys, p) && |c| <= |xs|
    requires forall x :: x in xs ==> ys[x] % p == Eval(c, x) % p
    ensures |Add(LagrangePoly(xs, 0, ys, p), Scale(-1, c))| <= |xs|
    ensures forall i :: 0 <= i < |xs| ==> Eval(Add(LagrangePoly(xs, 0, ys, p), Scale(-1, c)), xs[i]) % p == 0
  {
    forall i | 0 <= i < |xs|
      ensures Eval(Add(LagrangePoly(xs, 0, ys, p), Scale(-1, c)), xs[i]) % p == 0
    {
      assert xs[i] in xs;
      DifferenceAtNode(xs, ys, p, c, i);
    }
  }

  lemma DifferenceAtNode(xs: seq<int>, ys: map<int, int>, p: int, c: Poly, i: nat)
    requires WellPosed(xs, ys, p) && i < |xs|
    requires xs[i] in ys && ys[xs[i]] % p == Eval(c, xs[i]) % p
    ensures Eval(Add(LagrangePoly(xs, 0, ys, p), Scale(-1, c)), xs[i]) % p == 0
  {
    var l, x := LagrangePoly(xs, 0, ys, p), xs[i];
    assert x in xs;
    DifferenceEval(l, c, x);
    LagrangePolyEval(xs, 0, ys, p, x);
    LagrangeValueAtNode(xs, 0, ys, p, i);
    var v, e := Eval(l, x), Eval(c, x);
    assert v % p == ys[x] % p;
    CongruentDifference(v, e, ys[x], p);
  }

  /** Two values congruent to the same y differ by a multiple of p. */
  lemma CongruentDifference(v: int, e: int, y: int, p: int)
    requires p > 0 && v % p == y % p && e % p == y % p
    ensures (v - e) % p == 0
  {
    CongSub(v, y, e, y, p);
    ModUnique(0, p, 0, 0);
  }

  lemma DifferenceEval(l: Poly, c: Poly, z: int)
    ensures Eval(Add(l, Scale(-1, c)), z) == Eval(l, z) - Eval(c, z)
  {
    AddEval(l, Scale(-1, c), z);
    ScaleEval(-1, c, z);
  }
}
