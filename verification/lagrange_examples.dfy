/** The worked examples of `help()` in `lagrange.py`, each derived from the
    exactness theorem: the points lie on a small polynomial whose constant
    term, reduced modulo the prime, is the documented answer. */
module LagrangeExamples {
  import opened Modular
  import opened Primes
  import opened Polynomial
  import opened Lagrange
  import opened Outcome

  /** No integer in [lo, hi) divides p. */
  predicate NoDivisorIn(p: int, lo: int, hi: int)
    decreases hi - lo
  {
    lo >= hi || (lo > 0 && p % lo != 0 && NoDivisorIn(p, lo + 1, hi))
  }

  lemma {:induction false} NoDivisorInSound(p: int, lo: int, hi: int, d: int)
    requires NoDivisorIn(p, lo, hi) && lo <= d < hi
    ensures p % d != 0
    decreases hi - lo
  {
    if lo < d {
      NoDivisorInSound(p, lo + 1, hi, d);
    }
  }

  /** Trial division up to the square root: a divisor d >= b of p < b*b
      comes with the cofactor p / d < b. */
  lemma PrimeBySmallDivisors(p: int, b: int)
    requires p > 1 && b >= 2 && p < b * b && NoDivisorIn(p, 2, b)
    ensures IsPrime(p)
  {
    forall d | 1 < d < p
      ensures p % d != 0
    {
      if d < b {
        NoDivisorInSound(p, 2, b, d);
      } else if p % d == 0 {
        var e := p / d;
        assert p == d * e;
        CofactorBounds(p, d, e, b);
        ModUnique(p, e, d, 0);
        NoDivisorInSound(p, 2, b, e);
      }
    }
  }

  lemma CofactorBounds(p: int, d: int, e: int, b: int)
    requires 2 <= b <= d < p && p == d * e && p < b * b
    ensures 2 <= e < b
  {
    assert d * b >= b * b;
    MulCancel(d, e, b);
    MulCancel(d, 1, e);
  }

  lemma MulCancel(d: int, e: int, b: int)
    requires d > 0 && d * e < d * b
    ensures e < b
  {
  }

  lemma Prime17()
    ensures IsPrime(17)
  {
    assert NoDivisorIn(17, 2, 5);
    PrimeBySmallDivisors(17, 5);
  }

  /** 65537 = 2^16 + 1 has no divisor in [2, 257), and 257 * 257 > 65537. */
  lemma Prime65537()
    ensures IsPrime(65537)
  {
    NoDivisor65537From2();
    PrimeBySmallDivisors(65537, 257);
  }

  /** Trial division of 65537, from 256 down to 2 in stretches of 32. */
  lemma NoDivisor65537From225()
    ensures NoDivisorIn(65537, 225, 257)
  {
    assert NoDivisorIn(65537, 255, 257);
    assert NoDivisorIn(65537, 253, 257);
    assert NoDivisorIn(65537, 251, 257);
    assert NoDivisorIn(65537, 249, 257);
    assert NoDivisorIn(65537, 247, 257);
    assert NoDivisorIn(65537, 245, 257);
    assert NoDivisorIn(65537, 243, 257);
    assert NoDivisorIn(65537, 241, 257);
    assert NoDivisorIn(65537, 239, 257);
    assert NoDivisorIn(65537, 237, 257);
    assert NoDivisorIn(65537, 235, 257);
    assert NoDivisorIn(65537, 233, 257);
    assert NoDivisorIn(65537, 231, 257);
    assert NoDivisorIn(65537, 229, 257);
    assert NoDivisorIn(65537, 227, 257);
    assert NoDivisorIn(65537, 225, 257);
  }

  lemma NoDivisor65537From193()
    ensures NoDivisorIn(65537, 193, 257)
  {
    NoDivisor65537From225();
    assert NoDivisorIn(65537, 223, 257);
    assert NoDivisorIn(65537, 221, 257);
    assert NoDivisorIn(65537, 219, 257);
    assert NoDivisorIn(65537, 217, 257);
    assert NoDivisorIn(65537, 215, 257);
    assert NoDivisorIn(65537, 213, 257);
    assert NoDivisorIn(65537, 211, 257);
    assert NoDivisorIn(65537, 209, 257);
    assert NoDivisorIn(65537, 207, 257);
    assert NoDivisorIn(65537, 205, 257);
    assert NoDivisorIn(65537, 203, 257);
    assert NoDivisorIn(65537, 201, 257);
    assert NoDivisorIn(65537, 199, 257);
    assert NoDivisorIn(65537, 197, 257);
    assert NoDivisorIn(65537, 195, 257);
    assert NoDivisorIn(65537, 193, 257);
  }

  lemma NoDivisor65537From161()
    ensures NoDivisorIn(65537, 161, 257)
  {
    NoDivisor65537From193();
    assert NoDivisorIn(65537, 191, 257);
    assert NoDivisorIn(65537, 189, 257);
    assert NoDivisorIn(65537, 187, 257);
    assert NoDivisorIn(65537, 185, 257);
    assert NoDivisorIn(65537, 183, 257);
    assert NoDivisorIn(65537, 181, 257);
    assert NoDivisorIn(65537, 179, 257);
    assert NoDivisorIn(65537, 177, 257);
    assert NoDivisorIn(65537, 175, 257);
    assert NoDivisorIn(65537, 173, 257);
    assert NoDivisorIn(65537, 171, 257);
    assert NoDivisorIn(65537, 169, 257);
    assert NoDivisorIn(65537, 167, 257);
    assert NoDivisorIn(65537, 165, 257);
    assert NoDivisorIn(65537, 163, 257);
    assert NoDivisorIn(65537, 161, 257);
  }

  lemma NoDivisor65537From129()
    ensures NoDivisorIn(65537, 129, 257)
  {
    NoDivisor65537From161();
    assert NoDivisorIn(65537, 159, 257);
    assert NoDivisorIn(65537, 157, 257);
    assert NoDivisorIn(65537, 155, 257);
    assert NoDivisorIn(65537, 153, 257);
    assert NoDivisorIn(65537, 151, 257);
    assert NoDivisorIn(65537, 149, 257);
    assert NoDivisorIn(65537, 147, 257);
    assert NoDivisorIn(65537, 145, 257);
    assert NoDivisorIn(65537, 143, 257);
    assert NoDivisorIn(65537, 141, 257);
    assert NoDivisorIn(65537, 139, 257);
    assert NoDivisorIn(65537, 137, 257);
    assert NoDivisorIn(65537, 135, 257);
    assert NoDivisorIn(65537, 133, 257);
    assert NoDivisorIn(65537, 131, 257);
    assert NoDivisorIn(65537, 129, 257);
  }

  lemma NoDivisor65537From97()
    ensures NoDivisorIn(65537, 97, 257)
  {
    NoDivisor65537From129();
    assert NoDivisorIn(65537, 127, 257);
    assert NoDivisorIn(65537, 125, 257);
    assert NoDivisorIn(65537, 123, 257);
    assert NoDivisorIn(65537, 121, 257);
    assert NoDivisorIn(65537, 119, 257);
    assert NoDivisorIn(65537, 117, 257);
    assert NoDivisorIn(65537, 115, 257);
    assert NoDivisorIn(65537, 113, 257);
    assert NoDivisorIn(65537, 111, 257);
    assert NoDivisorIn(65537, 109, 257);
    assert NoDivisorIn(65537, 107, 257);
    assert NoDivisorIn(65537, 105, 257);
    assert NoDivisorIn(65537, 103, 257);
    assert NoDivisorIn(65537, 101, 257);
    assert NoDivisorIn(65537, 99, 257);
    assert NoDivisorIn(65537, 97, 257);
  }

  lemma NoDivisor65537From65()
    ensures NoDivisorIn(65537, 65, 257)
  {
    NoDivisor65537From97();
    assert NoDivisorIn(65537, 95, 257);
    assert NoDivisorIn(65537, 93, 257);
    assert NoDivisorIn(65537, 91, 257);
    assert NoDivisorIn(65537, 89, 257);
    assert NoDivisorIn(65537, 87, 257);
    assert NoDivisorIn(65537, 85, 257);
    assert NoDivisorIn(65537, 83, 257);
    assert NoDivisorIn(65537, 81, 257);
    assert NoDivisorIn(65537, 79, 257);
    assert NoDivisorIn(65537, 77, 257);
    assert NoDivisorIn(65537, 75, 257);
    assert NoDivisorIn(65537, 73, 257);
    assert NoDivisorIn(65537, 71, 257);
    assert NoDivisorIn(65537, 69, 257);
    assert NoDivisorIn(65537, 67, 257);
    assert NoDivisorIn(65537, 65, 257);
  }

  lemma NoDivisor65537From33()
    ensures NoDivisorIn(65537, 33, 257)
  {
    NoDivisor65537From65();
    assert NoDivisorIn(65537, 63, 257);
    assert NoDivisorIn(65537, 61, 257);
    assert NoDivisorIn(65537, 59, 257);
    assert NoDivisorIn(65537, 57, 257);
    assert NoDivisorIn(65537, 55, 257);
    assert NoDivisorIn(65537, 53, 257);
    assert NoDivisorIn(65537, 51, 257);
    assert NoDivisorIn(65537, 49, 257);
    assert NoDivisorIn(65537, 47, 257);
    assert NoDivisorIn(65537, 45, 257);
    assert NoDivisorIn(65537, 43, 257);
    assert NoDivisorIn(65537, 41, 257);
    assert NoDivisorIn(65537, 39, 257);
    assert NoDivisorIn(65537, 37, 257);
    assert NoDivisorIn(65537, 35, 257);
    assert NoDivisorIn(65537, 33, 257);
  }

  lemma NoDivisor65537From2()
    ensures NoDivisorIn(65537, 2, 257)
  {
    NoDivisor65537From33();
    assert NoDivisorIn(65537, 31, 257);
    assert NoDivisorIn(65537, 29, 257);
    assert NoDivisorIn(65537, 27, 257);
    assert NoDivisorIn(65537, 25, 257);
    assert NoDivisorIn(65537, 23, 257);
    assert NoDivisorIn(65537, 21, 257);
    assert NoDivisorIn(65537, 19, 257);
    assert NoDivisorIn(65537, 17, 257);
    assert NoDivisorIn(65537, 15, 257);
    assert NoDivisorIn(65537, 13, 257);
    assert NoDivisorIn(65537, 11, 257);
    assert NoDivisorIn(65537, 9, 257);
    assert NoDivisorIn(65537, 7, 257);
    assert NoDivisorIn(65537, 5, 257);
    assert NoDivisorIn(65537, 3, 257);
    assert NoDivisorIn(65537, 2, 257);
  }

  function Pair(x: int, y: int): Entry
  {
    SeqEntry([Int(x), Int(y)])
  }

  /** Distinct pairs on c, no degree: the result is c(0) mod p. */
  lemma PairsExample(entries: seq<Entry>, isSequence: bool, p: int, vals: seq<(int, int)>, c: Poly, result: int)
    requires AllPairs(entries) && |entries| > 0 && Pairs(entries) == vals && OrderedDict.DistinctKeys(vals)
    requires IsPrime(p) && |c| <= |vals| && OnPolynomial(c, vals, p) && Eval(c, 0) % p == result
    ensures Interpolate(IterablePoints(entries, isSequence, true), Int(p), None) == Ok(result)
  {
    DistinctPairsPrepare(entries, isSequence, p, vals);
    PolynomialValues(c, vals, p);
    InterpolateOnPolynomial(IterablePoints(entries, isSequence, true), p, None, Setup(vals, |vals|, p), c);
  }

  /** `interpolate({(1, 15), (2, 9), (3, 3)}, 17)` is 4: the points lie on
      21 - 6x. The set is modelled in one of its iteration orders. */
  lemma SetOfPairsExample(entries: seq<Entry>)
    requires entries == [Pair(1, 15), Pair(2, 9), Pair(3, 3)]
    ensures Interpolate(IterablePoints(entries, false, true), Int(17), None) == Ok(4)
  {
    var vals := [(1, 15), (2, 9), (3, 3)];
    SetOfPairsEntries(entries);
    Prime17();
    assert OnPolynomial([21, -6], [(1, 15), (2, 9), (3, 3)], 17);
    PairsExample(entries, false, 17, vals, [21, -6], 4);
  }

  lemma SetOfPairsEntries(entries: seq<Entry>)
    requires entries == [Pair(1, 15), Pair(2, 9), Pair(3, 3)]
    ensures AllPairs(entries) && |entries| > 0 && Pairs(entries) == [(1, 15), (2, 9), (3, 3)]
    ensures OrderedDict.DistinctKeys([(1, 15), (2, 9), (3, 3)])
  {
  }

  /** A dictionary of integer points with distinct keys, the first d + 1
      of which lie on c: the result is c(0) mod p for degree d and, when
      every point is used, for no degree. */
  lemma DictExample(items: OrderedDict.Dict<Value, Value>, p: int, d: nat, vals: seq<(int, int)>, c: Poly, result: int)
    requires OrderedDict.DistinctKeys(items) && IntegralItems(items) && IntItems(items) == vals
    requires IsPrime(p) && d < |vals| && |c| <= d + 1 && OnPolynomial(c, vals[..d + 1], p)
    requires Eval(c, 0) % p == result
    ensures d > 0 ==> Interpolate(DictPoints(items), Int(p), Some(Int(d))) == Ok(result)
    ensures d + 1 == |vals| ==> Interpolate(DictPoints(items), Int(p), None) == Ok(result)
  {
    PolynomialValues(c, vals[..d + 1], p);
    if d > 0 {
      DictPrepare(items, p, d, vals);
      InterpolateOnPolynomial(DictPoints(items), p, Some(Int(d)), Setup(vals, d + 1, p), c);
    }
    if d + 1 == |vals| {
      DictNoDegree(items, p, vals);
      InterpolateOnPolynomial(DictPoints(items), p, None, Setup(vals, d + 1, p), c);
    }
  }

  /** `interpolate({1: 4, 2: 6, 3: 8, 4: 10, 5: 12}, degree=4, modulus=65537)` is 2: the points lie on 2 + 2x, so the value at 0 is 2 with degree 4 or with no degree. */
  lemma ArithmeticExample(items: OrderedDict.Dict<Value, Value>)
    requires items == [(Int(1), Int(4)), (Int(2), Int(6)), (Int(3), Int(8)), (Int(4), Int(10)), (Int(5), Int(12))]
    ensures Interpolate(DictPoints(items), Int(65537), Some(Int(4))) == Ok(2)
    ensures Interpolate(DictPoints(items), Int(65537), None) == Ok(2)
  {
    var vals := [(1, 4), (2, 6), (3, 8), (4, 10), (5, 12)];
    assert IntItems(items) == vals;
    Prime65537();
    assert OnPolynomial([2, 2], [(1, 4), (2, 6), (3, 8), (4, 10), (5, 12)], 65537);
    assert vals[..4 + 1] == [(1, 4), (2, 6), (3, 8), (4, 10), (5, 12)];
    DictExample(items, 65537, 4, vals, [2, 2], 2);
  }

  /** `interpolate({1: 4, 2: 6, 3: 8, 4: 10, 5: 12}, degree=1, modulus=65537)` is 2: with degree 1 only (1, 4) and (2, 6) are used; they lie on 2 + 2x. */
  lemma ArithmeticLineExample(items: OrderedDict.Dict<Value, Value>)
    requires items == [(Int(1), Int(4)), (Int(2), Int(6)), (Int(3), Int(8)), (Int(4), Int(10)), (Int(5), Int(12))]
    ensures Interpolate(DictPoints(items), Int(65537), Some(Int(1))) == Ok(2)
  {
    var vals := [(1, 4), (2, 6), (3, 8), (4, 10), (5, 12)];
    assert IntItems(items) == vals;
    Prime65537();
    assert OnPolynomial([2, 2], [(1, 4), (2, 6)], 65537);
    assert vals[..1 + 1] == [(1, 4), (2, 6)];
    DictExample(items, 65537, 1, vals, [2, 2], 2);
  }

  /** `interpolate({49: 200, 5: 24, 3: 16}, degree=2, modulus=65537)` is 4: the points lie on 4 + 4x. */
  lemma SparseKeysExample(items: OrderedDict.Dict<Value, Value>)
    requires items == [(Int(49), Int(200)), (Int(5), Int(24)), (Int(3), Int(16))]
    ensures Interpolate(DictPoints(items), Int(65537), Some(Int(2))) == Ok(4)
    ensures Interpolate(DictPoints(items), Int(65537), None) == Ok(4)
  {
    var vals := [(49, 200), (5, 24), (3, 16)];
    assert IntItems(items) == vals;
    Prime65537();
    assert OnPolynomial([4, 4], [(49, 200), (5, 24), (3, 16)], 65537);
    assert vals[..2 + 1] == [(49, 200), (5, 24), (3, 16)];
    DictExample(items, 65537, 2, vals, [4, 4], 4);
  }

  /** `interpolate({49: 200, 5: 24, 3: 16}, degree=1, modulus=65537)` is 4: with degree 1 only (49, 200) and (5, 24) are used; they lie on 4 + 4x. */
  lemma SparseKeysLineExample(items: OrderedDict.Dict<Value, Value>)
    requires items == [(Int(49), Int(200)), (Int(5), Int(24)), (Int(3), Int(16))]
    ensures Interpolate(DictPoints(items), Int(65537), Some(Int(1))) == Ok(4)
  {
    var vals := [(49, 200), (5, 24), (3, 16)];
    assert IntItems(items) == vals;
    Prime65537();
    assert OnPolynomial([4, 4], [(49, 200), (5, 24)], 65537);
    assert vals[..1 + 1] == [(49, 200), (5, 24)];
    DictExample(items, 65537, 1, vals, [4, 4], 4);
  }

  /** `interpolate({1: 16, 2: 25, 3: 36}, degree=2, modulus=65537)` is 9: the points lie on (x + 3)^2. */
  lemma SquaresExample(items: OrderedDict.Dict<Value, Value>)
    requires items == [(Int(1), Int(16)), (Int(2), Int(25)), (Int(3), Int(36))]
    ensures Interpolate(DictPoints(items), Int(65537), Some(Int(2))) == Ok(9)
    ensures Interpolate(DictPoints(items), Int(65537), None) == Ok(9)
  {
    var vals := [(1, 16), (2, 25), (3, 36)];
    assert IntItems(items) == vals;
    Prime65537();
    assert OnPolynomial([9, 6, 1], [(1, 16), (2, 25), (3, 36)], 65537);
    assert vals[..2 + 1] == [(1, 16), (2, 25), (3, 36)];
    DictExample(items, 65537, 2, vals, [9, 6, 1], 9);
  }

  /** `interpolate({1: 16, 2: 25, 3: 36}, degree=1, modulus=65537)` is 7: with degree 1 only (1, 16) and (2, 25) are used; they lie on 7 + 9x. */
  lemma SquaresLineExample(items: OrderedDict.Dict<Value, Value>)
    requires items == [(Int(1), Int(16)), (Int(2), Int(25)), (Int(3), Int(36))]
    ensures Interpolate(DictPoints(items), Int(65537), Some(Int(1))) == Ok(7)
  {
    var vals := [(1, 16), (2, 25), (3, 36)];
    assert IntItems(items) == vals;
    Prime65537();
    assert OnPolynomial([7, 9], [(1, 16), (2, 25)], 65537);
    assert vals[..1 + 1] == [(1, 16), (2, 25)];
    DictExample(items, 65537, 1, vals, [7, 9], 7);
  }

  /** `interpolate({3: 36, 1: 16, 2: 25}, degree=2, modulus=65537)` is 9: the same points in another insertion order, still on (x + 3)^2. */
  lemma ReorderedSquaresExample(items: OrderedDict.Dict<Value, Value>)
    requires items == [(Int(3), Int(36)), (Int(1), Int(16)), (Int(2), Int(25))]
    ensures Interpolate(DictPoints(items), Int(65537), Some(Int(2))) == Ok(9)
    ensures Interpolate(DictPoints(items), Int(65537), None) == Ok(9)
  {
    var vals := [(3, 36), (1, 16), (2, 25)];
    assert IntItems(items) == vals;
    Prime65537();
    assert OnPolynomial([9, 6, 1], [(3, 36), (1, 16), (2, 25)], 65537);
    assert vals[..2 + 1] == [(3, 36), (1, 16), (2, 25)];
    DictExample(items, 65537, 2, vals, [9, 6, 1], 9);
  }

  /** `interpolate({3: 36, 1: 16, 2: 25}, degree=1, modulus=65537)` is 6: with degree 1 the first two keys, (3, 36) and (1, 16), are used; they lie on 6 + 10x, so insertion order changes the answer. */
  lemma ReorderedSquaresLineExample(items: OrderedDict.Dict<Value, Value>)
    requires items == [(Int(3), Int(36)), (Int(1), Int(16)), (Int(2), Int(25))]
    ensures Interpolate(DictPoints(items), Int(65537), Some(Int(1))) == Ok(6)
  {
    var vals := [(3, 36), (1, 16), (2, 25)];
    assert IntItems(items) == vals;
    Prime65537();
    assert OnPolynomial([6, 10], [(3, 36), (1, 16)], 65537);
    assert vals[..1 + 1] == [(3, 36), (1, 16)];
    DictExample(items, 65537, 1, vals, [6, 10], 6);
  }

  /** `interpolate({5: 64, 2: 25, 3: 36}, degree=2, modulus=65537)` is 9: the points lie on (x + 3)^2. */
  lemma OtherSquaresExample(items: OrderedDict.Dict<Value, Value>)
    requires items == [(Int(5), Int(64)), (Int(2), Int(25)), (Int(3), Int(36))]
    ensures Interpolate(DictPoints(items), Int(65537), Some(Int(2))) == Ok(9)
    ensures Interpolate(DictPoints(items), Int(65537), None) == Ok(9)
  {
    var vals := [(5, 64), (2, 25), (3, 36)];
    assert IntItems(items) == vals;
    Prime65537();
    assert OnPolynomial([9, 6, 1], [(5, 64), (2, 25), (3, 36)], 65537);
    assert vals[..2 + 1] == [(5, 64), (2, 25), (3, 36)];
    DictExample(items, 65537, 2, vals, [9, 6, 1], 9);
  }

  /** Points on c with keys in [0, m): the condition of the exactness
      corollary, checked one point at a time. */
  predicate OnPolynomial(c: Poly, vals: seq<(int, int)>, m: int)
    requires m > 0
    decreases |vals|
  {
    |vals| == 0 ||
    (0 <= vals[0].0 < m && vals[0].1 % m == Eval(c, vals[0].0) % m && OnPolynomial(c, vals[1..], m))
  }

  lemma {:induction false} PolynomialValues(c: Poly, vals: seq<(int, int)>, m: int)
    requires m > 0 && OnPolynomial(c, vals, m)
    ensures forall i :: 0 <= i < |vals| ==> 0 <= vals[i].0 < m && vals[i].1 % m == Eval(c, vals[i].0) % m
    decreases |vals|
  {
    if |vals| > 0 {
      PolynomialValues(c, vals[1..], m);
      forall i | 0 < i < |vals|
        ensures vals[i] == vals[1..][i - 1]
      {
      }
    }
  }
}
