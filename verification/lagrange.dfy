/** `interpolate(points, modulus, degree)` of `lagrange.py`: normalise the
    point data into an ordered dictionary, validate the arguments in the
    order the function checks them, then sum the Lagrange basis values at 0
    with the function's own field arithmetic. */
module Lagrange {
  import opened Modular
  import opened Primes
  import opened Polynomial
  import opened OrderedDict
  import opened LagrangeBasis
  import opened Outcome

  /** A Python object as far as `isinstance(_, int)` can tell. */
  datatype Value = Int(n: int) | Other

  /** One element of an iterable of points: an integer, a sequence (seen
      through `tuple(e)`), or anything else. */
  datatype Entry = IntEntry(n: int) | SeqEntry(items: seq<Value>) | OtherEntry

  /** The `points` argument. A dictionary is its items in insertion order.
      An iterable records whether it is a `collections.abc.Sequence` and
      whether it supports `len`. */
  datatype Points =
    | DictPoints(items: Dict<Value, Value>)
    | IterablePoints(entries: seq<Entry>, isSequence: bool, sized: bool)
    | NotIterable

  /** Each `raise` of `interpolate`, in source order. */
  datatype Failure =
    | DictNotIntegral      // dictionary with a non-integer key or value
    | IntegersNotSequence  // integers given by an iterable that is not a sequence
    | MalformedPairs       // sequence entries that are not two integers
    | UnrecognisedPoints   // anything else
    | NoPoints
    | ModulusNotInt
    | ModulusTooSmall
    | DegreeNotInt
    | NegativeDegree
    | PointsUnsized        // `len(points)` on an iterable without a length
    | TooFewPoints

  /** The failures raised as `TypeError`; the others are `ValueError`. */
  predicate IsTypeError(f: Failure)
  {
    f in {DictNotIntegral, IntegersNotSequence, MalformedPairs, UnrecognisedPoints,
          ModulusNotInt, DegreeNotInt, PointsUnsized}
  }

  /** What Python itself guarantees of the argument: a dictionary has
      distinct keys and a sequence has a length. */
  predicate WellFormed(points: Points)
  {
    match points
    case DictPoints(items) => DistinctKeys(items)
    case IterablePoints(_, isSequence, sized) => isSequence ==> sized
    case NotIterable => true
  }

  predicate Sized(points: Points)
  {
    points.DictPoints? || (points.IterablePoints? && points.sized)
  }

  /** `len(points)`. */
  function Length(points: Points): nat
    requires Sized(points)
  {
    if points.DictPoints? then |points.items| else |points.entries|
  }

  predicate IntegralItems(d: Dict<Value, Value>)
  {
    forall i :: 0 <= i < |d| ==> d[i].0.Int? && d[i].1.Int?
  }

  function IntItems(d: Dict<Value, Value>): (r: Dict<int, int>)
    requires IntegralItems(d)
    ensures |r| == |d|
    ensures forall i :: 0 <= i < |d| ==> r[i] == (d[i].0.n, d[i].1.n)
  {
    seq(|d|, i requires 0 <= i < |d| => (d[i].0.n, d[i].1.n))
  }

  predicate AllIntEntries(es: seq<Entry>)
  {
    forall i :: 0 <= i < |es| ==> es[i].IntEntry?
  }

  predicate AllSeqEntries(es: seq<Entry>)
  {
    forall i :: 0 <= i < |es| ==> es[i].SeqEntry?
  }

  predicate IsPair(e: Entry)
  {
    e.SeqEntry? && |e.items| == 2 && e.items[0].Int? && e.items[1].Int?
  }

  predicate AllPairs(es: seq<Entry>)
  {
    forall i :: 0 <= i < |es| ==> IsPair(es[i])
  }

  /** `zip(range(1, len(entries) + 1), entries)`. */
  function Numbered(es: seq<Entry>): (ps: seq<(int, int)>)
    requires AllIntEntries(es)
    ensures |ps| == |es|
    ensures forall i :: 0 <= i < |es| ==> ps[i] == (i + 1, es[i].n)
  {
    seq(|es|, i requires 0 <= i < |es| => (i + 1, es[i].n))
  }

  function Pairs(es: seq<Entry>): (ps: seq<(int, int)>)
    requires AllPairs(es)
    ensures |ps| == |es|
    ensures forall i :: 0 <= i < |es| ==> ps[i] == (es[i].items[0].n, es[i].items[1].n)
  {
    seq(|es|, i requires 0 <= i < |es| => (es[i].items[0].n, es[i].items[1].n))
  }

  /** The dictionary `values` that `interpolate` builds from `points`, or the
      `TypeError` it raises on the way. */
  function Normalise(points: Points): (r: Result<Dict<int, int>, Failure>)
    requires WellFormed(points)
    ensures r.Ok? ==> DistinctKeys(r.value)
    ensures r.Ok? && Sized(points) ==> |r.value| <= Length(points)
    ensures r.Err? ==> IsTypeError(r.error)
  {
    match points
    case DictPoints(items) =>
      if IntegralItems(items) then
        var r := IntItems(items);
        assert DistinctKeys(r) by {
          forall i, j | 0 <= i < j < |r|
            ensures r[i].0 != r[j].0
          {
            assert items[i].0 != items[j].0;
          }
        }
        Ok(r)
      else Err(DictNotIntegral)
    case IterablePoints(entries, isSequence, _) =>
      if AllIntEntries(entries) then
        if !isSequence then Err(IntegersNotSequence)
        else
          FromPairsLength(Numbered(entries));
          Ok(FromPairs(Numbered(entries)))
      else if AllSeqEntries(entries) then
        if AllPairs(entries) then
          FromPairsLength(Pairs(entries));
          Ok(FromPairs(Pairs(entries)))
        else Err(MalformedPairs)
      else Err(UnrecognisedPoints)
    case NotIterable => Err(UnrecognisedPoints)
  }

  /** The validated arguments: the dictionary, how many of its keys take part
      (`degree + 1`) and the modulus. */
  datatype Setup = Setup(values: Dict<int, int>, used: nat, modulus: int)

  predicate ValidSetup(s: Setup)
  {
    DistinctKeys(s.values) && 0 < s.used <= |s.values| && s.modulus > 1
  }

  /** The checks of `interpolate` before any arithmetic, in source order. A
      missing degree and a degree of 0 both fall back to `len(points) - 1`. */
  function Prepare(points: Points, modulus: Value, degree: Option<Value>): (r: Result<Setup, Failure>)
    requires WellFormed(points)
    ensures r.Ok? ==> ValidSetup(r.value) && Normalise(points) == Ok(r.value.values)
    ensures r.Ok? ==> modulus == Int(r.value.modulus)
  {
    match Normalise(points)
    case Err(f) => Err(f)
    case Ok(values) =>
      if |values| == 0 then Err(NoPoints)
      else if !modulus.Int? then Err(ModulusNotInt)
      else if modulus.n <= 1 then Err(ModulusTooSmall)
      else if degree.Some? && !degree.value.Int? then Err(DegreeNotInt)
      else if degree.Some? && degree.value.n < 0 then Err(NegativeDegree)
      else
        var given := if degree.Some? then degree.value.n else 0;
        if given == 0 && !Sized(points) then Err(PointsUnsized)
        else
          var d := if given != 0 then given else Length(points) - 1;
          if |values| <= d then Err(TooFewPoints)
          else Ok(Setup(values, d + 1, modulus.n))
  }

  /** `list(values.keys())[:degree + 1]`. */
  function UsedNodes(s: Setup): (xs: seq<int>)
    requires s.used <= |s.values|
    ensures |xs| == s.used
    ensures forall i :: 0 <= i < |xs| ==> xs[i] == s.values[i].0
    ensures forall x :: x in xs ==> x in Keys(s.values)
  {
    Keys(s.values)[..s.used]
  }

  /** Python's `mul`: `(a % modulus) * b % modulus`. */
  function Mul(a: int, b: int, m: int): int
    requires m > 0
  {
    (a % m) * b % m
  }

  /** Python's `div`: multiplication by the Fermat inverse `pow(b, m - 2, m)`. */
  function Div(a: int, b: int, m: int): int
    requires m > 1
  {
    Mul(a, ModPow(b, m - 2, m), m)
  }

  /** `mul` is multiplication modulo m, with a result in [0, m). */
  lemma MulCong(a: int, b: int, m: int)
    requires m > 0
    ensures 0 <= Mul(a, b, m) < m
    ensures Mul(a, b, m) % m == (a * b) % m
  {
    ModMulLeft(a, b, m);
    ModIdempotent(a * b, m);
  }

  /** `reduce(mul, fs, acc)`. */
  function Reduce(acc: int, fs: seq<int>, m: int): int
    requires m > 0
    decreases |fs|
  {
    if |fs| == 0 then acc else Reduce(Mul(acc, fs[0], m), fs[1..], m)
  }

  /** The factors `div(0 - y, x - y)` for the other nodes y. */
  function Factors(x: int, ys: seq<int>, m: int): (fs: seq<int>)
    requires m > 1
    ensures |fs| == |ys|
    decreases |ys|
  {
    if |ys| == 0 then [] else [Div(0 - ys[0], x - ys[0], m)] + Factors(x, ys[1..], m)
  }

  /** The basis value of node x at 0, times its value. */
  function Term(values: Dict<int, int>, xs: seq<int>, x: int, m: int): int
    requires m > 1 && x in Keys(values)
  {
    Reduce(1, [Get(values, x)] + Factors(x, Without(xs, x), m), m)
  }

  /** The sum of the terms of the nodes xs[i..], before the final `% modulus`. */
  function SumTerms(values: Dict<int, int>, xs: seq<int>, i: nat, m: int): int
    requires m > 1 && i <= |xs| && forall x :: x in xs ==> x in Keys(values)
    decreases |xs| - i
  {
    if i == |xs| then 0 else Term(values, xs, xs[i], m) + SumTerms(values, xs, i + 1, m)
  }

  /** `interpolate(points, modulus, degree)`. */
  function Interpolate(points: Points, modulus: Value, degree: Option<Value>): (r: Result<int, Failure>)
    requires WellFormed(points)
    ensures r.Ok? ==> modulus.Int? && 0 <= r.value < modulus.n
    ensures r.Err? <==> Prepare(points, modulus, degree).Err?
  {
    match Prepare(points, modulus, degree)
    case Err(f) => Err(f)
    case Ok(s) => Ok(SumTerms(s.values, UsedNodes(s), 0, s.modulus) % s.modulus)
  }

  // ---------------------------------------------------------------------
  // Argument handling

  /** A dictionary with a non-integer key or value is a `TypeError`. */
  lemma DictMustBeIntegral(items: Dict<Value, Value>, modulus: Value, degree: Option<Value>)
    requires DistinctKeys(items)
    ensures Interpolate(DictPoints(items), modulus, degree) == Err(DictNotIntegral)
      <==> !IntegralItems(items)
  {
  }

  /** A sequence of integers v1, v2, ... is read as the points (1, v1), (2, v2), ... */
  lemma IntegersAreNumbered(entries: seq<Entry>, sized: bool)
    requires AllIntEntries(entries)
    ensures Normalise(IterablePoints(entries, true, true)) == Ok(Numbered(entries))
    ensures Normalise(IterablePoints(entries, false, sized)) == Err(IntegersNotSequence)
  {
    FromPairsDistinct(Numbered(entries));
  }

  /** A dictionary of integers is used as it is. */
  lemma DictIsUsedAsIs(items: Dict<Value, Value>)
    requires DistinctKeys(items) && IntegralItems(items)
    ensures Normalise(DictPoints(items)) == Ok(IntItems(items))
  {
  }

  /** For pairs, a repeated x keeps its first position and takes its last y. */
  lemma PairsLastWins(entries: seq<Entry>, isSequence: bool, sized: bool, x: int)
    requires isSequence ==> sized
    requires |entries| > 0 && AllPairs(entries) && x in Firsts(Pairs(entries))
    ensures Normalise(IterablePoints(entries, isSequence, sized)).Ok?
    ensures var values := Normalise(IterablePoints(entries, isSequence, sized)).value;
      Keys(values) == FirstOccurrences(Firsts(Pairs(entries))) &&
      x in Keys(values) && Get(values, x) == LastValue(Pairs(entries), x)
  {
    assert !AllIntEntries(entries) by { assert IsPair(entries[0]); }
    assert AllSeqEntries(entries) by {
      forall i | 0 <= i < |entries| ensures entries[i].SeqEntry? { assert IsPair(entries[i]); }
    }
    FromPairsKeyOrder(Pairs(entries));
    FromPairsLastWins(Pairs(entries), x);
  }

  /** An entry that is neither an integer nor a sequence, next to other
      entries that are not all integers, is a `TypeError`; so is a sequence
      entry that is not a pair of integers. */
  lemma MalformedEntries(entries: seq<Entry>, isSequence: bool, sized: bool, modulus: Value, degree: Option<Value>)
    requires isSequence ==> sized
    requires exists i :: 0 <= i < |entries| && !IsPair(entries[i]) && !entries[i].IntEntry?
    ensures var r := Interpolate(IterablePoints(entries, isSequence, sized), modulus, degree);
      r == Err(MalformedPairs) || r == Err(UnrecognisedPoints)
  {
  }

  /** An empty sequence has no points; an empty iterable that is not a
      sequence (an empty set, say) fails the integer check first. */
  lemma EmptyPoints(isSequence: bool, sized: bool, modulus: Value, degree: Option<Value>)
    requires isSequence ==> sized
    ensures Interpolate(IterablePoints([], true, true), modulus, degree) == Err(NoPoints)
    ensures Interpolate(IterablePoints([], false, sized), modulus, degree) == Err(IntegersNotSequence)
    ensures Interpolate(DictPoints([]), modulus, degree) == Err(NoPoints)
  {
    FromPairsDistinct(Numbered([]));
  }

  /** Once there are points, the modulus is checked before the degree: an
      integer modulus of at most 1 is a `ValueError` whatever the degree. */
  lemma ModulusCheckedFirst(points: Points, modulus: Value, degree: Option<Value>)
    requires WellFormed(points)
    requires Normalise(points).Ok? && |Normalise(points).value| > 0
    ensures !modulus.Int? ==> Interpolate(points, modulus, degree) == Err(ModulusNotInt)
    ensures modulus.Int? && modulus.n <= 1 ==> Interpolate(points, modulus, degree) == Err(ModulusTooSmall)
  {
  }

  /** Degree checks: a non-integer is a `TypeError`, a negative integer a
      `ValueError`, and 0 behaves exactly like a missing degree. */
  lemma DegreeChecks(points: Points, m: int, degree: Value)
    requires WellFormed(points)
    requires Normalise(points).Ok? && |Normalise(points).value| > 0 && m > 1
    ensures !degree.Int? ==> Interpolate(points, Int(m), Some(degree)) == Err(DegreeNotInt)
    ensures degree.Int? && degree.n < 0 ==> Interpolate(points, Int(m), Some(degree)) == Err(NegativeDegree)
    ensures Interpolate(points, Int(m), Some(Int(0))) == Interpolate(points, Int(m), None)
  {
  }

  /** An explicit positive degree d succeeds exactly when there are more
      than d distinct points, and then uses the first d + 1 keys. */
  lemma ExplicitDegree(points: Points, m: int, d: int)
    requires WellFormed(points) && Normalise(points).Ok? && |Normalise(points).value| > 0
    requires m > 1 && d > 0
    ensures var values := Normalise(points).value;
      Prepare(points, Int(m), Some(Int(d))) ==
        if |values| <= d then Err(TooFewPoints) else Ok(Setup(values, d + 1, m))
  {
  }

  /** Without a degree, every point is used, so a repeated x (which makes
      `dict(entries)` shorter than `entries`) is rejected. */
  lemma RepeatedNodeNeedsDegree(entries: seq<Entry>, isSequence: bool, m: int, i: nat, j: nat)
    requires AllPairs(entries) && i < j < |entries| && m > 1
    requires entries[i].items[0] == entries[j].items[0]
    ensures Interpolate(IterablePoints(entries, isSequence, true), Int(m), None) == Err(TooFewPoints)
  {
    assert !AllIntEntries(entries) by { assert IsPair(entries[0]); }
    assert AllSeqEntries(entries) by {
      forall k | 0 <= k < |entries| ensures entries[k].SeqEntry? { assert IsPair(entries[k]); }
    }
    var ps := Pairs(entries);
    assert ps[i].0 == ps[j].0;
    FromPairsLength(ps);
  }

  /** Without a degree and with distinct keys, every point takes part. */
  lemma NoDegreeUsesAll(points: Points, m: int)
    requires WellFormed(points) && Sized(points) && Normalise(points).Ok? && m > 1
    requires |Normalise(points).value| == Length(points) > 0
    ensures Prepare(points, Int(m), None) == Ok(Setup(Normalise(points).value, Length(points), m))
  {
  }

  /** Pairs with distinct x and no degree: every pair is used, in order. */
  lemma DistinctPairsPrepare(entries: seq<Entry>, isSequence: bool, m: int, vals: Dict<int, int>)
    requires AllPairs(entries) && |entries| > 0 && Pairs(entries) == vals && DistinctKeys(vals) && m > 1
    ensures Prepare(IterablePoints(entries, isSequence, true), Int(m), None) == Ok(Setup(vals, |vals|, m))
  {
    DistinctPairsNormalise(entries, isSequence, vals);
  }

  lemma DistinctPairsNormalise(entries: seq<Entry>, isSequence: bool, vals: Dict<int, int>)
    requires AllPairs(entries) && |entries| > 0 && Pairs(entries) == vals && DistinctKeys(vals)
    ensures Normalise(IterablePoints(entries, isSequence, true)) == Ok(vals)
  {
    assert !AllIntEntries(entries) by { assert IsPair(entries[0]); }
    assert AllSeqEntries(entries) by {
      forall k | 0 <= k < |entries| ensures entries[k].SeqEntry? { assert IsPair(entries[k]); }
    }
    FromPairsDistinct(vals);
  }

  /** A dictionary of integers with a degree d (0 meaning none): the first
      d + 1 items are used when there are enough. */
  lemma DictPrepare(items: Dict<Value, Value>, m: int, d: nat, vals: Dict<int, int>)
    requires DistinctKeys(items) && IntegralItems(items) && IntItems(items) == vals
    requires m > 1 && 0 < d < |items|
    ensures Prepare(DictPoints(items), Int(m), Some(Int(d))) == Ok(Setup(vals, d + 1, m))
  {
  }

  /** A non-empty dictionary of integers without a degree: every item is used. */
  lemma DictNoDegree(items: Dict<Value, Value>, m: int, vals: Dict<int, int>)
    requires DistinctKeys(items) && IntegralItems(items) && IntItems(items) == vals
    requires m > 1 && |items| > 0
    ensures Prepare(DictPoints(items), Int(m), None) == Ok(Setup(vals, |items|, m))
  {
  }

  // ---------------------------------------------------------------------
  // Arithmetic

  /** The ring identity behind one step of `reduce`. */
  lemma ReduceRegroup(a: int, d: int, u: int, ip: int, pd: int)
    ensures (a * (d * u)) * (ip * pd) == a * ((u * ip) * (d * pd))
  {
    assert (a * (d * u)) * (ip * pd) == a * ((d * u) * (ip * pd));
    assert (d * u) * (ip * pd) == (u * ip) * (d * pd);
  }

  /** One step of `reduce`: folding in f == d*u (mod m) and then the rest. */
  lemma ReduceStep(acc: int, f: int, d: int, u: int, ip: int, pd: int, m: int)
    requires m > 0 && f % m == (d * u) % m
    ensures Cong(Mul(acc, f, m) * (ip * pd), acc * ((u * ip) * (d * pd)), m)
  {
    MulCong(acc, f, m);
    ModIdempotent(acc, m);
    CongMul(acc, acc, f, d * u, m);
    CongMul(Mul(acc, f, m), acc * (d * u), ip * pd, ip * pd, m);
    ReduceRegroup(acc, d, u, ip, pd);
  }

  /** Folding in the factors multiplies by the product of the differences
      0 - y and by the product of the inverses of x - y. */
  lemma {:induction false} ReduceFactors(acc: int, x: int, ys: seq<int>, m: int)
    requires m > 1
    ensures Cong(Reduce(acc, Factors(x, ys, m), m), acc * (InvProduct(x, ys, m) * ProdDiff(0, ys)), m)
    decreases |ys|
  {
    if |ys| > 0 {
      var y, rest := ys[0], ys[1..];
      var u := ModPow(x - y, m - 2, m);
      var f := Div(0 - y, x - y, m);
      var fs := Factors(x, ys, m);
      assert fs[0] == f && fs[1..] == Factors(x, rest, m);
      var acc' := Mul(acc, f, m);
      ReduceFactors(acc', x, rest, m);
      MulCong(0 - y, u, m);
      ReduceStep(acc, f, 0 - y, u, InvProduct(x, rest, m), ProdDiff(0, rest), m);
    }
  }

  /** Three congruent values in a row. */
  lemma CongTrans(a: int, b: int, c: int, m: int)
    requires m > 0 && Cong(a, b, m) && Cong(b, c, m)
    ensures Cong(a, c, m)
  {
  }

  /** Each term of the sum is congruent to the node's weighted basis value
      at 0 as the interpolation theorem defines it. */
  lemma TermIsBasisTerm(values: Dict<int, int>, xs: seq<int>, i: nat, m: int)
    requires m > 1 && i < |xs| && forall x :: x in xs ==> x in Keys(values)
    ensures Cong(Term(values, xs, xs[i], m), BasisTerm(xs, i, ToMap(values), m, 0), m)
  {
    var x := xs[i];
    assert x in xs;
    var v := Get(values, x);
    var others := Without(xs, x);
    var ip, pd := InvProduct(x, others, m), ProdDiff(0, others);
    var fs := [v] + Factors(x, others, m);
    assert fs[0] == v && fs[1..] == Factors(x, others, m);
    var acc := Mul(1, v, m);
    assert Term(values, xs, x, m) == Reduce(acc, Factors(x, others, m), m);
    ReduceFactors(acc, x, others, m);
    MulCong(1, v, m);
    CongMul(acc, v, ip * pd, ip * pd, m);
    CongTrans(Term(values, xs, x, m), acc * (ip * pd), v * (ip * pd), m);
    Assoc(v, ip, pd);
    ToMapGet(values, x);
  }

  /** `values` as a finite map from keys to values. */
  function ToMap(values: Dict<int, int>): (ys: map<int, int>)
    ensures forall x :: x in ys <==> x in Keys(values)
  {
    map x | x in Keys(values) :: Get(values, x)
  }

  lemma ToMapGet(values: Dict<int, int>, x: int)
    requires x in Keys(values)
    ensures x in ToMap(values) && ToMap(values)[x] == Get(values, x)
  {
  }

  /** The sum computed by `interpolate` is congruent to the sum of weighted
      Lagrange basis values at 0, for any modulus above 1. */
  lemma {:induction false} SumTermsIsLagrangeValue(values: Dict<int, int>, xs: seq<int>, i: nat, m: int)
    requires m > 1 && i <= |xs| && forall x :: x in xs ==> x in Keys(values)
    ensures Cong(SumTerms(values, xs, i, m), LagrangeValue(xs, i, ToMap(values), m, 0), m)
    decreases |xs| - i
  {
    if i < |xs| {
      SumTermsIsLagrangeValue(values, xs, i + 1, m);
      TermIsBasisTerm(values, xs, i, m);
      CongAdd(Term(values, xs, xs[i], m), BasisTerm(xs, i, ToMap(values), m, 0),
              SumTerms(values, xs, i + 1, m), LagrangeValue(xs, i + 1, ToMap(values), m, 0), m);
    }
  }

  /** Exactness of `interpolate`: for a prime modulus, when the used nodes
      are pairwise incongruent and their values lie on a polynomial c of
      degree at most `degree`, the result is c(0) reduced modulo p. */
  lemma InterpolateExact(points: Points, p: int, degree: Option<Value>, c: Poly)
    requires WellFormed(points) && IsPrime(p)
    requires Prepare(points, Int(p), degree).Ok?
    requires var s := Prepare(points, Int(p), degree).value;
      DistinctMod(UsedNodes(s), p) && |c| <= s.used &&
      forall x :: x in UsedNodes(s) ==> Get(s.values, x) % p == Eval(c, x) % p
    ensures Interpolate(points, Int(p), degree) == Ok(Eval(c, 0) % p)
  {
    var s := Prepare(points, Int(p), degree).value;
    var xs := UsedNodes(s);
    var ys := ToMap(s.values);
    forall x | x in xs
      ensures x in ys && ys[x] % p == Eval(c, x) % p
    {
      ToMapGet(s.values, x);
    }
    SumTermsIsLagrangeValue(s.values, xs, 0, p);
    LagrangeExact(xs, ys, p, c, 0);
    ModIdempotent(SumTerms(s.values, xs, 0, p), p);
  }

  /** Distinct keys already reduced modulo p are pairwise incongruent. */
  lemma ReducedKeysIncongruent(s: Setup, p: int)
    requires ValidSetup(s) && p > 1
    requires forall i :: 0 <= i < s.used ==> 0 <= s.values[i].0 < p
    ensures DistinctMod(UsedNodes(s), p)
  {
    var xs := UsedNodes(s);
    forall i, j | 0 <= i < |xs| && 0 <= j < |xs| && i != j
      ensures Incongruent(xs[i], xs[j], p)
    {
      assert xs[i] != xs[j] by {
        if i < j {
          assert s.values[i].0 != s.values[j].0;
        } else {
          assert s.values[j].0 != s.values[i].0;
        }
      }
      ReducedDistinctIncongruent(xs[i], xs[j], p);
    }
  }

  lemma ReducedDistinctIncongruent(a: int, b: int, p: int)
    requires 0 <= a < p && 0 <= b < p && a != b
    ensures Incongruent(a, b, p)
  {
    if a > b {
      ModUnique(a - b, p, 0, a - b);
    } else {
      ModUnique(a - b, p, -1, a - b + p);
    }
  }

  /** Exactness for keys in [0, p): the result is c(0) mod p as soon as the
      used points lie on c modulo p. */
  lemma InterpolateOnPolynomial(points: Points, p: int, degree: Option<Value>, s: Setup, c: Poly)
    requires WellFormed(points) && IsPrime(p) && Prepare(points, Int(p), degree) == Ok(s)
    requires |c| <= s.used
    requires forall i :: 0 <= i < s.used ==>
      0 <= s.values[i].0 < p && s.values[i].1 % p == Eval(c, s.values[i].0) % p
    ensures Interpolate(points, Int(p), degree) == Ok(Eval(c, 0) % p)
  {
    ReducedKeysIncongruent(s, p);
    var xs := UsedNodes(s);
    forall x | x in xs
      ensures Get(s.values, x) % p == Eval(c, x) % p
    {
      var i :| 0 <= i < |xs| && xs[i] == x;
      KeyUnique(s.values, i, IndexOf(s.values, x));
    }
    InterpolateExact(points, p, degree, c);
  }
}
