/** `LagrangeFunction` of `functions.py`: the augmented Lagrangian
      F(X) = f(X) + sum_i lambda_i * c_i(X) + (1/r) * sum_i c_i(X)^2
    over a registry of named constraints, with the objective memoised. The
    symbolic compiler is a parameter `compile` from constraint text to a
    function of the point. */
module Merit {
  import opened OrderedDict
  import opened Outcome
  import Memo

  type Point = Memo.Point
  type Text = string

  /** An equality constraint is registered as compiled; an inequality
      constraint g is registered as max(g, 0). */
  datatype Kind = Equality | Inequality

  datatype LagrangeFunction = LagrangeFunction(
    objective: Memo.Function,
    registry: Dict<Text, Kind>,
    compile: Text -> (Point -> real))

  datatype Failure = ZeroDivision | KeyError

  function Max0(v: real): (m: real)
    ensures m >= 0.0 && m >= v && (m == 0.0 || m == v)
  {
    if v > 0.0 then v else 0.0
  }

  function Tag(texts: seq<Text>, k: Kind): (ps: seq<(Text, Kind)>)
    ensures |ps| == |texts|
    ensures forall i :: 0 <= i < |texts| ==> ps[i] == (texts[i], k)
  {
    seq(|texts|, i requires 0 <= i < |texts| => (texts[i], k))
  }

  /** The two registration loops: equality constraints first, then
      inequality constraints, each an assignment into one dictionary. */
  function Registry(eqs: seq<Text>, ineqs: seq<Text>): Dict<Text, Kind>
  {
    FromPairs(Tag(eqs, Equality) + Tag(ineqs, Inequality))
  }

  /** The constructor, with the objective compiled to f. */
  function New(f: Point -> real, eqs: seq<Text>, ineqs: seq<Text>, compile: Text -> (Point -> real)): (lf: LagrangeFunction)
    ensures Memo.Consistent(lf.objective) && Memo.TimesCalled(lf.objective) == 0
    ensures lf.objective.f == f && DistinctKeys(lf.registry)
    ensures forall t :: t in Keys(lf.registry) <==> t in eqs || t in ineqs
  {
    RegistryMembers(eqs, ineqs);
    LagrangeFunction(Memo.New(f, map[]), Registry(eqs, ineqs), compile)
  }

  /** Every text of either list is registered, and nothing else is. */
  lemma RegistryMembers(eqs: seq<Text>, ineqs: seq<Text>)
    ensures forall t :: t in Keys(Registry(eqs, ineqs)) <==> t in eqs || t in ineqs
  {
    var ps := Tag(eqs, Equality) + Tag(ineqs, Inequality);
    FromPairsKeyOrder(ps);
    FirstOccurrencesMembers(Firsts(ps));
    TaggedKeys(eqs, ineqs);
    assert Firsts(ps) == eqs + ineqs;
  }

  /** The registered function of one registry entry at X. */
  function EntryValue(lf: LagrangeFunction, e: (Text, Kind), x: Point): real
  {
    var g := lf.compile(e.0)(x);
    match e.1
    case Equality => g
    case Inequality => Max0(g)
  }

  /** The constraint values, in the registry's order. */
  function ConstraintValues(lf: LagrangeFunction, x: Point): (cs: seq<real>)
    ensures |cs| == |lf.registry|
    ensures forall i :: 0 <= i < |cs| ==> cs[i] == EntryValue(lf, lf.registry[i], x)
  {
    seq(|lf.registry|, i requires 0 <= i < |lf.registry| => EntryValue(lf, lf.registry[i], x))
  }

  function Sum(vs: seq<real>): real
    decreases |vs|
  {
    if |vs| == 0 then 0.0 else Sum(vs[..|vs| - 1]) + vs[|vs| - 1]
  }

  function Min(a: nat, b: nat): nat
  {
    if a < b then a else b
  }

  /** `sum(lam * c for lam, c in zip(lambdas, cs))`: zip stops at the
      shorter list. */
  function ZipSum(lambdas: seq<real>, cs: seq<real>): real
  {
    Sum(ZipProducts(lambdas, cs))
  }

  /** The products of the pairs `zip` forms. */
  function ZipProducts(lambdas: seq<real>, cs: seq<real>): (ps: seq<real>)
    ensures |ps| == Min(|lambdas|, |cs|)
    ensures forall i :: 0 <= i < |ps| ==> ps[i] == lambdas[i] * cs[i]
  {
    var n := Min(|lambdas|, |cs|);
    seq(n, i requires 0 <= i < n => lambdas[i] * cs[i])
  }

  function Squares(cs: seq<real>): (sq: seq<real>)
    ensures |sq| == |cs| && forall i :: 0 <= i < |cs| ==> sq[i] == cs[i] * cs[i]
  {
    seq(|cs|, i requires 0 <= i < |cs| => cs[i] * cs[i])
  }

  /** The quadratic term `(1 / r) * sum(c ** 2 for c in cs)`. */
  function Penalty(cs: seq<real>, r: real): real
    requires r != 0.0
  {
    (1.0 / r) * Sum(Squares(cs))
  }

  /** `__call__(X, lambdas, r)`: the objective through its cache, then the
      constraint values; `1 / r` fails when r is zero. */
  function Call(lf: LagrangeFunction, x: Point, lambdas: seq<real>, r: real): (res: Result<(real, LagrangeFunction), Failure>)
    ensures res.Err? <==> r == 0.0
    ensures res.Ok? ==> var (v, lf') := res.value;
      lf'.registry == lf.registry && lf'.compile == lf.compile &&
      lf'.objective.f == lf.objective.f &&
      lf'.objective.cache.Keys == lf.objective.cache.Keys + {x} &&
      (Memo.Consistent(lf.objective) ==>
         Memo.Consistent(lf'.objective) &&
         v == lf.objective.f(x) + ZipSum(lambdas, ConstraintValues(lf, x))
              + Penalty(ConstraintValues(lf, x), r))
  {
    var looked := Memo.Lookup(lf.objective, x);
    var cs := ConstraintValues(lf, x);
    if r == 0.0 then Err(ZeroDivision)
    else
      Ok((looked.0 + ZipSum(lambdas, cs) + Penalty(cs, r), lf.(objective := looked.1)))
  }

  /** `calculate_constraint_value(X, c)`: the registered function of the
      text c; an unregistered text is a KeyError. */
  function ConstraintValue(lf: LagrangeFunction, x: Point, t: Text): (res: Result<real, Failure>)
    requires DistinctKeys(lf.registry)
    ensures res.Ok? <==> t in Keys(lf.registry)
    ensures res.Ok? ==>
      exists i :: 0 <= i < |lf.registry| && lf.registry[i].0 == t &&
                  res.value == ConstraintValues(lf, x)[i]
  {
    if t in Keys(lf.registry) then
      var i := IndexOf(lf.registry, t);
      Ok(EntryValue(lf, lf.registry[i], x))
    else Err(KeyError)
  }

  // ---------------------------------------------------------------------
  // Properties of the registry

  /** With pairwise distinct texts, the registry lists the equality
      constraints and then the inequality constraints, each once. */
  lemma RegistryOrder(eqs: seq<Text>, ineqs: seq<Text>)
    requires DistinctKeys(Tag(eqs, Equality) + Tag(ineqs, Inequality))
    ensures Registry(eqs, ineqs) == Tag(eqs, Equality) + Tag(ineqs, Inequality)
    ensures Keys(Registry(eqs, ineqs)) == eqs + ineqs
  {
    var ps := Tag(eqs, Equality) + Tag(ineqs, Inequality);
    FromPairsDistinct(ps);
    TaggedKeys(eqs, ineqs);
  }

  lemma TaggedKeys(eqs: seq<Text>, ineqs: seq<Text>)
    ensures Keys(Tag(eqs, Equality) + Tag(ineqs, Inequality)) == eqs + ineqs
  {
    var ps := Tag(eqs, Equality) + Tag(ineqs, Inequality);
    forall i | 0 <= i < |ps|
      ensures Keys(ps)[i] == (eqs + ineqs)[i]
    {
      if i < |eqs| {
        assert ps[i] == (eqs[i], Equality);
      } else {
        assert ps[i] == (ineqs[i - |eqs|], Inequality);
      }
    }
  }

  /** A text given as both an equality and an inequality constraint keeps
      one entry, and it is registered as an inequality. */
  lemma SharedTextIsInequality(eqs: seq<Text>, ineqs: seq<Text>, t: Text)
    requires t in ineqs
    ensures t in Keys(Registry(eqs, ineqs)) && Get(Registry(eqs, ineqs), t) == Inequality
  {
    var ps := Tag(eqs, Equality) + Tag(ineqs, Inequality);
    var j :| 0 <= j < |ineqs| && ineqs[j] == t;
    assert Firsts(ps)[|eqs| + j] == t;
    FromPairsLastWins(ps, t);
    LastValueAfter(ps, t, |eqs| + j);
  }

  /** The last value of key k is the value at any occurrence of k after
      which every pair has the same value. */
  lemma {:induction false} LastValueAfter(ps: seq<(Text, Kind)>, t: Text, j: nat)
    requires j < |ps| && ps[j].0 == t
    requires forall i :: j <= i < |ps| ==> ps[i].1 == ps[j].1
    ensures t in Firsts(ps) && LastValue(ps, t) == ps[j].1
    decreases |ps|
  {
    assert Firsts(ps)[j] == t;
    if ps[|ps| - 1].0 != t {
      var init := ps[..|ps| - 1];
      assert Firsts(init)[j] == t;
      LastValueAfter(init, t, j);
    }
  }

  /** A text given only as an equality constraint is registered as one. */
  lemma EqualityOnlyText(eqs: seq<Text>, ineqs: seq<Text>, t: Text)
    requires t in eqs && t !in ineqs
    ensures t in Keys(Registry(eqs, ineqs)) && Get(Registry(eqs, ineqs), t) == Equality
  {
    var ps := Tag(eqs, Equality) + Tag(ineqs, Inequality);
    var j :| 0 <= j < |eqs| && eqs[j] == t;
    assert Firsts(ps)[j] == t;
    FromPairsLastWins(ps, t);
    LastValueEquality(ps, t, |eqs|);
  }

  lemma {:induction false} LastValueEquality(ps: seq<(Text, Kind)>, t: Text, n: nat)
    requires n <= |ps| && t in Firsts(ps)
    requires forall i :: 0 <= i < n ==> ps[i].1 == Equality
    requires forall i :: n <= i < |ps| ==> ps[i].0 != t
    ensures LastValue(ps, t) == Equality
    decreases |ps|
  {
    if ps[|ps| - 1].0 != t {
      var init := ps[..|ps| - 1];
      assert t in Firsts(init) by {
        var i :| 0 <= i < |ps| && Firsts(ps)[i] == t;
        assert Firsts(init)[i] == t;
      }
      LastValueEquality(init, t, if n < |ps| then n else |init|);
    }
  }

  // ---------------------------------------------------------------------
  // Properties of the value

  /** A registered inequality never contributes a negative value. */
  lemma InequalityValuesNonNegative(lf: LagrangeFunction, x: Point, i: nat)
    requires i < |lf.registry| && lf.registry[i].1 == Inequality
    ensures ConstraintValues(lf, x)[i] >= 0.0
    ensures lf.compile(lf.registry[i].0)(x) <= 0.0 <==> ConstraintValues(lf, x)[i] == 0.0
  {
  }

  lemma {:induction false} SumNonNegative(vs: seq<real>)
    requires forall i :: 0 <= i < |vs| ==> vs[i] >= 0.0
    ensures Sum(vs) >= 0.0
    decreases |vs|
  {
    if |vs| > 0 {
      SumNonNegative(vs[..|vs| - 1]);
    }
  }

  lemma {:induction false} SumZero(vs: seq<real>)
    requires forall i :: 0 <= i < |vs| ==> vs[i] == 0.0
    ensures Sum(vs) == 0.0
    decreases |vs|
  {
    if |vs| > 0 {
      SumZero(vs[..|vs| - 1]);
    }
  }

  /** With a positive penalty parameter the quadratic term only adds. */
  lemma PenaltyNonNegative(cs: seq<real>, r: real)
    requires r > 0.0
    ensures Penalty(cs, r) >= 0.0
  {
    SumNonNegative(Squares(cs));
  }

  /** At a point where every registered constraint is satisfied (each
      equality is zero, each inequality is at most zero) the augmented
      Lagrangian is the objective, whatever the multipliers. */
  lemma FeasiblePointValue(lf: LagrangeFunction, x: Point, lambdas: seq<real>, r: real)
    requires r != 0.0 && Memo.Consistent(lf.objective)
    requires forall i :: 0 <= i < |lf.registry| ==>
      if lf.registry[i].1 == Equality then lf.compile(lf.registry[i].0)(x) == 0.0
      else lf.compile(lf.registry[i].0)(x) <= 0.0
    ensures Call(lf, x, lambdas, r).Ok? && Call(lf, x, lambdas, r).value.0 == lf.objective.f(x)
  {
    var cs := ConstraintValues(lf, x);
    assert forall i :: 0 <= i < |cs| ==> cs[i] == 0.0;
    SumZero(ZipProducts(lambdas, cs));
    SumZero(Squares(cs));
  }

  /** Zero-padded multipliers: the multiplier list extended with zeros or cut
      to the number of constraints. */
  function Padded(lambdas: seq<real>, n: nat): (p: seq<real>)
    ensures |p| == n
    ensures forall i :: 0 <= i < n ==> p[i] == if i < |lambdas| then lambdas[i] else 0.0
  {
    seq(n, i requires 0 <= i < n => if i < |lambdas| then lambdas[i] else 0.0)
  }

  /** Truncation by `zip` is the same as giving every constraint without a
      multiplier the multiplier zero and ignoring surplus multipliers: the
      padded multipliers pair with every constraint value. */
  lemma ZipIsPaddedDot(lambdas: seq<real>, cs: seq<real>)
    ensures ZipSum(lambdas, cs) == ZipSum(Padded(lambdas, |cs|), cs)
    ensures |ZipProducts(Padded(lambdas, |cs|), cs)| == |cs|
  {
    var n := Min(|lambdas|, |cs|);
    var full := ZipProducts(Padded(lambdas, |cs|), cs);
    ZipPaddedPrefix(lambdas, cs);
    SumZeroTail(full, n);
  }

  /** The padded products are the truncated products followed by zeros. */
  lemma ZipPaddedPrefix(lambdas: seq<real>, cs: seq<real>)
    ensures var n, full := Min(|lambdas|, |cs|), ZipProducts(Padded(lambdas, |cs|), cs);
      n <= |full| && full[..n] == ZipProducts(lambdas, cs) &&
      forall i :: n <= i < |full| ==> full[i] == 0.0
  {
    var n, pad := Min(|lambdas|, |cs|), Padded(lambdas, |cs|);
    var full, terms := ZipProducts(pad, cs), ZipProducts(lambdas, cs);
    forall i | 0 <= i < n
      ensures full[i] == terms[i]
    {
      assert pad[i] == lambdas[i];
    }
    forall i | n <= i < |full|
      ensures full[i] == 0.0
    {
      assert pad[i] == 0.0;
    }
    assert full[..n] == terms;
  }

  /** Trailing zeros do not change a sum. */
  lemma {:induction false} SumZeroTail(vs: seq<real>, n: nat)
    requires n <= |vs| && forall i :: n <= i < |vs| ==> vs[i] == 0.0
    ensures Sum(vs) == Sum(vs[..n])
    decreases |vs|
  {
    if n < |vs| {
      var init := vs[..|vs| - 1];
      assert forall i :: n <= i < |init| ==> init[i] == vs[i];
      SumZeroTail(init, n);
      assert init[..n] == vs[..n];
      assert Sum(vs) == Sum(init) + vs[|vs| - 1];
    } else {
      assert vs[..n] == vs;
    }
  }

  // ---------------------------------------------------------------------
  // The draft in `main.py`: one combined constraint function

  /** The draft's single constraint function: the equality constraints plus
      the clipped inequality constraints, all summed. */
  function Combined(eqVals: seq<real>, ineqVals: seq<real>): real
  {
    Sum(eqVals) + Sum(seq(|ineqVals|, i requires 0 <= i < |ineqVals| => Max0(ineqVals[i])))
  }

  /** The draft's `__call__`: f + lambda * C + (1/r) * C^2. */
  function DraftCall(obj: real, c: real, multiplier: real, r: real): (res: Result<real, Failure>)
    ensures res.Err? <==> r == 0.0
  {
    if r == 0.0 then Err(ZeroDivision) else Ok(obj + multiplier * c + (1.0 / r) * (c * c))
  }

  /** The draft is the registry version with a single constraint whose
      value is the combined sum and a single multiplier. */
  lemma DraftIsSingleConstraint(obj: real, c: real, multiplier: real, r: real)
    requires r != 0.0
    ensures DraftCall(obj, c, multiplier, r).Ok?
    ensures DraftCall(obj, c, multiplier, r).value == obj + ZipSum([multiplier], [c]) + Penalty([c], r)
  {
    var t := ZipProducts([multiplier], [c]);
    SumOne(t);
    assert ZipSum([multiplier], [c]) == Sum(t) == multiplier * c;
    SumOne(Squares([c]));
    assert Sum(Squares([c])) == c * c;
  }

  lemma SumOne(vs: seq<real>)
    requires |vs| == 1
    ensures Sum(vs) == vs[0]
  {
    assert vs[..0] == [];
  }

  /** Summing cancels violations: an equality at -1 and an inequality at 1
      are both violated, yet the combined value is zero. */
  lemma CombinedCancellation()
    ensures Combined([-1.0], [1.0]) == 0.0
  {
    assert seq(1, i requires 0 <= i < 1 => Max0([1.0][i])) == [1.0];
  }
}
