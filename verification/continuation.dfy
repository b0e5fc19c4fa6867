/** The outer loop of `example.py`: for one start point, reset the cache,
    the multipliers and the penalty parameter, then repeatedly minimise the
    augmented Lagrangian, shrink the penalty parameter by the factor 0.4 and
    move every multiplier by its constraint's value divided by the new
    penalty parameter, while the penalty parameter exceeds 1e-4. The inner
    minimiser is a parameter; it reports its point, its pass count and the
    points at which it evaluated the objective. The draft loop of `main.py`,
    with one combined constraint and one multiplier, is modelled alongside. */
module Continuation {
  import opened Outcome
  import opened OrderedDict
  import Memo
  import opened Merit

  const Tol: real := 0.0001
  const Tau: real := 0.4
  const InitialPenalty: real := 10.0

  /** What one call of the inner minimiser reports. */
  datatype InnerRun = InnerRun(x: Point, iterations: nat, evaluated: seq<Point>)

  /** The inner minimiser, called with the point, the multipliers and the
      penalty parameter. */
  type Solver = (Point, seq<real>, real) -> InnerRun

  /** The objective function object, the constraint texts in the order the
      multipliers follow, and the registry built from them. */
  datatype Problem = Problem(lf: LagrangeFunction, eqs: seq<Text>, ineqs: seq<Text>)

  /** The registry is the one the constructor builds from the texts. */
  predicate BuiltFrom(pr: Problem)
  {
    pr.lf.registry == Registry(pr.eqs, pr.ineqs)
  }

  /** Distinct registry keys, and every constraint text among them. */
  predicate Registered(pr: Problem)
  {
    DistinctKeys(pr.lf.registry) && forall t :: t in Texts(pr) ==> t in Keys(pr.lf.registry)
  }

  /** A problem as `example.py` sets it up. The second conjunct follows from
      the first (`TextsRegistered`); it is kept so that the loop, which only
      needs it, does not depend on how the registry was built. */
  predicate WellFormed(pr: Problem)
  {
    BuiltFrom(pr) && Registered(pr)
  }

  function Texts(pr: Problem): seq<Text>
  {
    pr.eqs + pr.ineqs
  }

  /** The state of one trial: point, multipliers, penalty parameter, summed
      pass count and every point handed to the objective so far. */
  datatype State = State(x: Point, lambdas: seq<real>, r: real, iterations: nat, evaluated: seq<Point>)

  /** A state the loop can run from: one multiplier per constraint text and
      a positive penalty parameter. */
  predicate Ready(pr: Problem, st: State)
  {
    Registered(pr) && |st.lambdas| == |Texts(pr)| && st.r > 0.0
  }

  function Zeros(n: nat): (z: seq<real>)
    ensures |z| == n && forall i :: 0 <= i < n ==> z[i] == 0.0
  {
    seq(n, i requires 0 <= i < n => 0.0)
  }

  /** Every constraint text is registered. */
  lemma TextsRegistered(pr: Problem)
    requires BuiltFrom(pr)
    ensures Registered(pr)
  {
    var ps := Tag(pr.eqs, Equality) + Tag(pr.ineqs, Inequality);
    FromPairsKeyOrder(ps);
    FirstOccurrencesMembers(Firsts(ps));
    forall t | t in Texts(pr)
      ensures t in Keys(pr.lf.registry)
    {
      var i :| 0 <= i < |Texts(pr)| && Texts(pr)[i] == t;
      assert Firsts(ps)[i] == t;
    }
  }

  /** `calculate_constraint_value(x, c)` for each text c, in the order of the
      multipliers. */
  function ConstraintVector(pr: Problem, x: Point): (cs: seq<real>)
    requires Registered(pr)
    ensures |cs| == |Texts(pr)|
  {
    var ts := Texts(pr);
    seq(|ts|, i requires 0 <= i < |ts| => ConstraintValue(pr.lf, x, ts[i]).value)
  }

  /** Each entry of the vector is the value `calculate_constraint_value`
      returns for its text, which never fails for a registered text. */
  lemma ConstraintVectorValues(pr: Problem, x: Point)
    requires Registered(pr)
    ensures forall i :: 0 <= i < |Texts(pr)| ==> ConstraintValue(pr.lf, x, Texts(pr)[i]) == Ok(ConstraintVector(pr, x)[i])
  {
  }

  /** Lines 21-26: the cache is cleared (see `TimesCalled`), the
      multipliers start at zero and the penalty parameter at 10. */
  function Start(pr: Problem, x0: Point): (st: State)
    ensures |st.lambdas| == |Texts(pr)| && st.r == InitialPenalty
    ensures Registered(pr) ==> Ready(pr, st)
  {
    State(x0, Zeros(|Texts(pr)|), InitialPenalty, 0, [])
  }

  /** One pass of the `while r > tol` loop. */
  function Pass(pr: Problem, solver: Solver, st: State): (st': State)
    requires Ready(pr, st)
    ensures Ready(pr, st') && st'.r == Tau * st.r
    ensures var run := solver(st.x, st.lambdas, st.r);
      st'.x == run.x && st'.iterations == st.iterations + run.iterations &&
      st'.evaluated == st.evaluated + run.evaluated
    ensures forall i :: 0 <= i < |st.lambdas| ==>
      st'.lambdas[i] - st.lambdas[i] == ConstraintVector(pr, st'.x)[i] / st'.r
  {
    var run := solver(st.x, st.lambdas, st.r);
    var r := Tau * st.r;
    State(run.x, Moved(st.lambdas, ConstraintVector(pr, run.x), r), r,
          st.iterations + run.iterations, st.evaluated + run.evaluated)
  }

  /** `lambdas[i] += 1 / r * c` for each constraint value c. */
  function Moved(lambdas: seq<real>, cs: seq<real>, r: real): (l: seq<real>)
    requires |lambdas| == |cs| && r != 0.0
    ensures |l| == |lambdas| && forall i :: 0 <= i < |l| ==> l[i] - lambdas[i] == cs[i] / r
  {
    seq(|cs|, i requires 0 <= i < |cs| => lambdas[i] + 1.0 / r * cs[i])
  }

  /** k passes. */
  function Passes(pr: Problem, solver: Solver, st: State, k: nat): (st': State)
    requires Ready(pr, st)
    ensures Ready(pr, st')
    decreases k
  {
    if k == 0 then st else Pass(pr, solver, Passes(pr, solver, st, k - 1))
  }

  /** The loop, with at most fuel passes. */
  function Outer(pr: Problem, solver: Solver, st: State, fuel: nat): (r: Option<State>)
    requires Ready(pr, st)
    ensures r.Some? ==> r.value.r <= Tol
    decreases fuel
  {
    if st.r <= Tol then Some(st)
    else if fuel == 0 then None
    else Outer(pr, solver, Pass(pr, solver, st), fuel - 1)
  }

  /** One trial of the `for x0 in initial_values` loop. */
  function Trial(pr: Problem, solver: Solver, x0: Point, fuel: nat): Option<State>
    requires WellFormed(pr)
  {
    Outer(pr, solver, Start(pr, x0), fuel)
  }

  /** `times_called` of the objective at the end of a trial: the cache was
      cleared at its start and then filled by the trial's evaluations. */
  function TimesCalled(pr: Problem, st: State): nat
  {
    Memo.TimesCalled(Memo.CallAll(Memo.ClearCache(pr.lf.objective), st.evaluated).1)
  }

  // ---------------------------------------------------------------------
  // The penalty schedule

  function RealPow(b: real, k: nat): real
    decreases k
  {
    if k == 0 then 1.0 else b * RealPow(b, k - 1)
  }

  /** After k passes the penalty parameter is 10 * 0.4^k. */
  lemma {:induction false} PenaltySchedule(pr: Problem, solver: Solver, x0: Point, k: nat)
    requires Registered(pr)
    ensures Passes(pr, solver, Start(pr, x0), k).r == InitialPenalty * RealPow(Tau, k)
    decreases k
  {
    if k > 0 {
      PenaltySchedule(pr, solver, x0, k - 1);
      var p := RealPow(Tau, k - 1);
      assert Tau * (InitialPenalty * p) == InitialPenalty * (Tau * p);
    }
  }

  lemma {:induction false} RealPowPositive(b: real, k: nat)
    requires b > 0.0
    ensures RealPow(b, k) > 0.0
    decreases k
  {
    if k > 0 {
      RealPowPositive(b, k - 1);
    }
  }

  /** The penalty parameter decreases strictly from pass to pass. */
  lemma PenaltyDecreases(pr: Problem, solver: Solver, x0: Point, k: nat)
    requires Registered(pr)
    ensures 0.0 < Passes(pr, solver, Start(pr, x0), k + 1).r < Passes(pr, solver, Start(pr, x0), k).r
  {
    PenaltySchedule(pr, solver, x0, k);
    PenaltySchedule(pr, solver, x0, k + 1);
    RealPowPositive(Tau, k);
  }

  lemma {:induction false} PenaltyAboveTolerance(k: nat)
    requires k <= 12
    ensures InitialPenalty * RealPow(Tau, k) > Tol
    decreases 12 - k
  {
    if k < 12 {
      PenaltyAboveTolerance(k + 1);
      RealPowPositive(Tau, k);
    } else {
      assert RealPow(Tau, 12) == 0.000016777216;
    }
  }

  /** The loop stops after exactly 13 passes, whatever the inner minimiser
      returns: 10 * 0.4^12 > 1e-4 >= 10 * 0.4^13. */
  lemma ThirteenPasses(pr: Problem, solver: Solver, x0: Point, fuel: nat)
    requires WellFormed(pr)
    ensures fuel >= 13 ==> Trial(pr, solver, x0, fuel) == Some(Passes(pr, solver, Start(pr, x0), 13))
    ensures fuel < 13 ==> Trial(pr, solver, x0, fuel) == None
  {
    forall k | 0 <= k < 13
      ensures InitialPenalty * RealPow(Tau, k) > Tol
    {
      PenaltyAboveTolerance(k);
    }
    assert RealPow(Tau, 13) == 0.0000067108864;
    if fuel >= 13 {
      OuterReaches(pr, solver, x0, fuel, 0, 13);
    } else {
      OuterRunsOut(pr, solver, x0, fuel, 0, 13);
    }
  }

  /** With enough fuel, the loop run from the state after j passes of a
      trial ends at the state after n passes, when n is the first pass
      count whose penalty parameter is within the tolerance. */
  lemma {:induction false} OuterReaches(pr: Problem, solver: Solver, x0: Point, fuel: nat, j: nat, n: nat)
    requires Registered(pr) && j <= n && fuel >= n - j
    requires forall k :: j <= k < n ==> InitialPenalty * RealPow(Tau, k) > Tol
    requires InitialPenalty * RealPow(Tau, n) <= Tol
    ensures Outer(pr, solver, Passes(pr, solver, Start(pr, x0), j), fuel) == Some(Passes(pr, solver, Start(pr, x0), n))
    decreases n - j
  {
    var st := Start(pr, x0);
    var s := Passes(pr, solver, st, j);
    PenaltySchedule(pr, solver, x0, j);
    if j == n {
      OuterStops(pr, solver, s, fuel);
    } else {
      OuterSteps(pr, solver, s, fuel);
      PassesStep(pr, solver, st, j);
      OuterReaches(pr, solver, x0, fuel - 1, j + 1, n);
    }
  }

  /** With too little fuel, the loop run from the state after j passes of a
      trial gives up. */
  lemma {:induction false} OuterRunsOut(pr: Problem, solver: Solver, x0: Point, fuel: nat, j: nat, n: nat)
    requires Registered(pr) && fuel < n - j
    requires forall k :: j <= k < n ==> InitialPenalty * RealPow(Tau, k) > Tol
    ensures Outer(pr, solver, Passes(pr, solver, Start(pr, x0), j), fuel) == None
    decreases fuel
  {
    var st := Start(pr, x0);
    var s := Passes(pr, solver, st, j);
    PenaltySchedule(pr, solver, x0, j);
    if fuel == 0 {
      OuterOutOfFuel(pr, solver, s);
    } else {
      OuterSteps(pr, solver, s, fuel);
      PassesStep(pr, solver, st, j);
      OuterRunsOut(pr, solver, x0, fuel - 1, j + 1, n);
    }
  }

  lemma PassesStep(pr: Problem, solver: Solver, st: State, k: nat)
    requires Ready(pr, st)
    ensures Passes(pr, solver, st, k + 1) == Pass(pr, solver, Passes(pr, solver, st, k))
  {
  }

  lemma OuterStops(pr: Problem, solver: Solver, st: State, fuel: nat)
    requires Ready(pr, st) && st.r <= Tol
    ensures Outer(pr, solver, st, fuel) == Some(st)
  {
  }

  lemma OuterOutOfFuel(pr: Problem, solver: Solver, st: State)
    requires Ready(pr, st) && st.r > Tol
    ensures Outer(pr, solver, st, 0) == None
  {
  }

  lemma OuterSteps(pr: Problem, solver: Solver, st: State, fuel: nat)
    requires Ready(pr, st) && st.r > Tol && fuel > 0
    ensures Outer(pr, solver, st, fuel) == Outer(pr, solver, Pass(pr, solver, st), fuel - 1)
  {
  }

  // ---------------------------------------------------------------------
  // Multipliers

  /** After the first pass (penalty parameter 4) each multiplier is its
      constraint's value at the new point divided by 4. */
  lemma FirstIncrement(pr: Problem, solver: Solver, x0: Point, i: nat)
    requires WellFormed(pr) && i < |Texts(pr)|
    ensures var st := Passes(pr, solver, Start(pr, x0), 1);
      st.lambdas[i] == ConstraintVector(pr, st.x)[i] / 4.0
  {
    var s0 := Start(pr, x0);
    var st := Pass(pr, solver, s0);
    assert Passes(pr, solver, s0, 1) == st;
    assert st.r == 4.0;
    var cs := ConstraintVector(pr, st.x);
    assert st.lambdas[i] == s0.lambdas[i] + 1.0 / 4.0 * cs[i];
  }

  /** The registered value of an inequality constraint is never negative,
      because an inequality text is always registered as an inequality. */
  lemma InequalityValueNonNegative(pr: Problem, x: Point, i: nat)
    requires WellFormed(pr) && |pr.eqs| <= i < |Texts(pr)|
    ensures ConstraintVector(pr, x)[i] >= 0.0
  {
    var t := Texts(pr)[i];
    assert t == pr.ineqs[i - |pr.eqs|];
    SharedTextIsInequality(pr.eqs, pr.ineqs, t);
    var j := IndexOf(pr.lf.registry, t);
    assert ConstraintValue(pr.lf, x, t) == Ok(EntryValue(pr.lf, pr.lf.registry[j], x));
  }

  /** One pass never lowers the multiplier of an inequality constraint. */
  lemma InequalityStep(pr: Problem, solver: Solver, st: State, i: nat)
    requires WellFormed(pr) && Ready(pr, st)
    requires |pr.eqs| <= i < |Texts(pr)|
    ensures Pass(pr, solver, st).lambdas[i] >= st.lambdas[i]
  {
    var x := solver(st.x, st.lambdas, st.r).x;
    var cs := ConstraintVector(pr, x);
    InequalityValueNonNegative(pr, x, i);
    assert Pass(pr, solver, st).lambdas == Moved(st.lambdas, cs, Tau * st.r);
    MovedGrows(st.lambdas, cs, Tau * st.r, i);
  }

  /** A non-negative constraint value never lowers its multiplier. */
  lemma MovedGrows(lambdas: seq<real>, cs: seq<real>, r: real, i: nat)
    requires |lambdas| == |cs| && r > 0.0 && i < |cs| && cs[i] >= 0.0
    ensures Moved(lambdas, cs, r)[i] >= lambdas[i]
  {
    NonNegativeQuotient(r, cs[i]);
  }

  lemma NonNegativeQuotient(r: real, c: real)
    requires r > 0.0 && c >= 0.0
    ensures 1.0 / r * c >= 0.0
  {
  }

  /** Multipliers of inequality constraints never decrease and never become
      negative. */
  lemma {:induction false} InequalityMultipliersGrow(pr: Problem, solver: Solver, x0: Point, k: nat, i: nat)
    requires WellFormed(pr) && |pr.eqs| <= i < |Texts(pr)|
    ensures 0.0 <= Passes(pr, solver, Start(pr, x0), k).lambdas[i] <= Passes(pr, solver, Start(pr, x0), k + 1).lambdas[i]
    decreases k
  {
    var st := Passes(pr, solver, Start(pr, x0), k);
    if k > 0 {
      InequalityMultipliersGrow(pr, solver, x0, k - 1, i);
    }
    InequalityStep(pr, solver, st, i);
  }

  /** With pairwise distinct constraint texts, the value that moves
      multiplier i is the value the augmented Lagrangian multiplies by
      multiplier i. */
  lemma MultipliersAligned(pr: Problem, x: Point, i: nat)
    requires WellFormed(pr) && i < |Texts(pr)|
    requires DistinctKeys(Tag(pr.eqs, Equality) + Tag(pr.ineqs, Inequality))
    ensures i < |pr.lf.registry| && ConstraintVector(pr, x)[i] == ConstraintValues(pr.lf, x)[i]
  {
    RegistryOrder(pr.eqs, pr.ineqs);
    var t := Texts(pr)[i];
    assert pr.lf.registry[i].0 == t;
    var j := IndexOf(pr.lf.registry, t);
    KeyUnique(pr.lf.registry, i, j);
  }

  // ---------------------------------------------------------------------
  // Counters

  /** When every inner run reports at least one pass, the summed count is
      at least the number of outer passes. */
  lemma {:induction false} IterationsAtLeastPasses(pr: Problem, solver: Solver, x0: Point, k: nat)
    requires Registered(pr)
    requires forall x, l, r :: solver(x, l, r).iterations >= 1
    ensures Passes(pr, solver, Start(pr, x0), k).iterations >= k
    decreases k
  {
    if k > 0 {
      IterationsAtLeastPasses(pr, solver, x0, k - 1);
    }
  }

  /** The objective call count reported after a trial is the number of
      distinct points evaluated during that trial alone. */
  lemma TimesCalledIsDistinctEvaluations(pr: Problem, st: State)
    ensures TimesCalled(pr, st) == |Memo.Points(st.evaluated)|
  {
    Memo.TimesCalledCountsDistinctPoints(Memo.ClearCache(pr.lf.objective), st.evaluated);
  }

  // ---------------------------------------------------------------------
  // The draft loop of `main.py`

  datatype DraftState = DraftState(x: Point, multiplier: real, r: real)

  /** One pass: minimise, shrink the penalty parameter by 0.4, then move the
      multiplier by the combined constraint value over the new parameter. */
  function DraftPass(solver: (Point, real, real) -> Point, c: Point -> real, st: DraftState): (st': DraftState)
    requires st.r > 0.0
    ensures st'.r == 0.4 * st.r && st'.r > 0.0
  {
    var x := solver(st.x, st.multiplier, st.r);
    var r := 0.4 * st.r;
    DraftState(x, st.multiplier + 1.0 / r * c(x), r)
  }

  /** k passes of the draft loop. */
  function DraftPasses(solver: (Point, real, real) -> Point, c: Point -> real, st: DraftState, k: nat): (st': DraftState)
    requires st.r > 0.0
    ensures st'.r > 0.0
    decreases k
  {
    if k == 0 then st else DraftPass(solver, c, DraftPasses(solver, c, st, k - 1))
  }

  /** The `while r > tol` loop of the draft, with at most fuel passes. */
  function DraftOuter(solver: (Point, real, real) -> Point, c: Point -> real, st: DraftState, fuel: nat): (r: Option<DraftState>)
    requires st.r > 0.0
    ensures r.Some? ==> r.value.r <= Tol
    decreases fuel
  {
    if st.r <= Tol then Some(st)
    else if fuel == 0 then None
    else DraftOuter(solver, c, DraftPass(solver, c, st), fuel - 1)
  }

  /** The draft from start point x0: multiplier 0 and penalty parameter 10. */
  function DraftTrial(solver: (Point, real, real) -> Point, c: Point -> real, x0: Point, fuel: nat): Option<DraftState>
  {
    DraftOuter(solver, c, DraftState(x0, 0.0, InitialPenalty), fuel)
  }

  /** After k draft passes the penalty parameter is 10 * 0.4^k. */
  lemma {:induction false} DraftPenaltySchedule(solver: (Point, real, real) -> Point, c: Point -> real, x0: Point, k: nat)
    ensures DraftPasses(solver, c, DraftState(x0, 0.0, InitialPenalty), k).r == InitialPenalty * RealPow(Tau, k)
    decreases k
  {
    if k > 0 {
      DraftPenaltySchedule(solver, c, x0, k - 1);
      var p := RealPow(Tau, k - 1);
      assert Tau * (InitialPenalty * p) == InitialPenalty * (Tau * p);
    }
  }

  /** The draft loop also stops after exactly 13 passes, whatever the inner
      minimiser returns. */
  lemma DraftThirteenPasses(solver: (Point, real, real) -> Point, c: Point -> real, x0: Point, fuel: nat)
    ensures fuel >= 13 ==>
      DraftTrial(solver, c, x0, fuel) == Some(DraftPasses(solver, c, DraftState(x0, 0.0, InitialPenalty), 13))
    ensures fuel < 13 ==> DraftTrial(solver, c, x0, fuel) == None
  {
    forall k | 0 <= k < 13
      ensures InitialPenalty * RealPow(Tau, k) > Tol
    {
      PenaltyAboveTolerance(k);
    }
    assert RealPow(Tau, 13) == 0.0000067108864;
    DraftRuns(solver, c, x0, fuel, 0, 13);
  }

  /** From the state after j draft passes, the loop ends at the state after
      n passes when the fuel suffices and gives up otherwise, n being the
      first pass count whose penalty parameter is within the tolerance. */
  lemma {:induction false} DraftRuns(solver: (Point, real, real) -> Point, c: Point -> real, x0: Point, fuel: nat, j: nat, n: nat)
    requires j <= n
    requires forall k :: j <= k < n ==> InitialPenalty * RealPow(Tau, k) > Tol
    requires InitialPenalty * RealPow(Tau, n) <= Tol
    ensures var st := DraftState(x0, 0.0, InitialPenalty);
      DraftOuter(solver, c, DraftPasses(solver, c, st, j), fuel) ==
        if fuel >= n - j then Some(DraftPasses(solver, c, st, n)) else None
    decreases n - j
  {
    var st := DraftState(x0, 0.0, InitialPenalty);
    var s := DraftPasses(solver, c, st, j);
    DraftPenaltySchedule(solver, c, x0, j);
    if j < n && fuel > 0 {
      assert DraftPasses(solver, c, st, j + 1) == DraftPass(solver, c, s);
      DraftRuns(solver, c, x0, fuel - 1, j + 1, n);
    }
  }

  /** The draft loop and the general loop run in step from corresponding
      states, under the conditions of `DraftIsSingleConstraintLoop`. */
  lemma {:induction false} DraftOuterIsOuter(
      pr: Problem, solver: Solver, draftSolver: (Point, real, real) -> Point,
      c: Point -> real, st: State, d: DraftState, fuel: nat)
    requires WellFormed(pr) && |pr.eqs| == 1 && |pr.ineqs| == 0
    requires pr.lf.compile(pr.eqs[0]) == c
    requires forall x, l, r :: solver(x, [l], r).x == draftSolver(x, l, r)
    requires Ready(pr, st) && st.x == d.x && st.lambdas == [d.multiplier] && st.r == d.r
    ensures var o, p := Outer(pr, solver, st, fuel), DraftOuter(draftSolver, c, d, fuel);
      (o.Some? <==> p.Some?) &&
      (o.Some? ==> o.value.x == p.value.x && o.value.lambdas == [p.value.multiplier] && o.value.r == p.value.r)
    decreases fuel
  {
    if st.r > Tol && fuel > 0 {
      DraftStep(pr, solver, draftSolver, c, st, d);
      DraftOuterIsOuter(pr, solver, draftSolver, c, Pass(pr, solver, st), DraftPass(draftSolver, c, d), fuel - 1);
    }
  }

  /** The draft of `main.py` from x0 is a trial of `example.py` with the one
      combined constraint: both give up together, and otherwise they end at
      the same point, multiplier and penalty parameter. */
  lemma DraftTrialIsTrial(
      pr: Problem, solver: Solver, draftSolver: (Point, real, real) -> Point,
      c: Point -> real, x0: Point, fuel: nat)
    requires WellFormed(pr) && |pr.eqs| == 1 && |pr.ineqs| == 0
    requires pr.lf.compile(pr.eqs[0]) == c
    requires forall x, l, r :: solver(x, [l], r).x == draftSolver(x, l, r)
    ensures var o, p := Trial(pr, solver, x0, fuel), DraftTrial(draftSolver, c, x0, fuel);
      (o.Some? <==> p.Some?) &&
      (o.Some? ==> o.value.x == p.value.x && o.value.lambdas == [p.value.multiplier] && o.value.r == p.value.r)
  {
    var st := Start(pr, x0);
    assert |Texts(pr)| == 1;
    assert st.lambdas == [0.0];
    DraftOuterIsOuter(pr, solver, draftSolver, c, st, DraftState(x0, 0.0, InitialPenalty), fuel);
  }

  /** The draft is the general loop with a single equality constraint whose
      compiled form is the combined constraint function, provided the inner
      minimisers agree. */
  lemma {:induction false} DraftIsSingleConstraintLoop(
      pr: Problem, solver: Solver, draftSolver: (Point, real, real) -> Point,
      c: Point -> real, x0: Point, lambda0: real, k: nat)
    requires WellFormed(pr) && |pr.eqs| == 1 && |pr.ineqs| == 0
    requires pr.lf.compile(pr.eqs[0]) == c
    requires forall x, l, r :: solver(x, [l], r).x == draftSolver(x, l, r)
    ensures var st := Passes(pr, solver, State(x0, [lambda0], InitialPenalty, 0, []), k);
      var d := DraftPasses(draftSolver, c, DraftState(x0, lambda0, InitialPenalty), k);
      st.x == d.x && st.lambdas == [d.multiplier] && st.r == d.r
    decreases k
  {
    if k > 0 {
      DraftIsSingleConstraintLoop(pr, solver, draftSolver, c, x0, lambda0, k - 1);
      var st := Passes(pr, solver, State(x0, [lambda0], InitialPenalty, 0, []), k - 1);
      var d := DraftPasses(draftSolver, c, DraftState(x0, lambda0, InitialPenalty), k - 1);
      DraftStep(pr, solver, draftSolver, c, st, d);
    }
  }

  lemma DraftStep(pr: Problem, solver: Solver, draftSolver: (Point, real, real) -> Point,
                  c: Point -> real, st: State, d: DraftState)
    requires WellFormed(pr) && |pr.eqs| == 1 && |pr.ineqs| == 0
    requires pr.lf.compile(pr.eqs[0]) == c
    requires forall x, l, r :: solver(x, [l], r).x == draftSolver(x, l, r)
    requires st.x == d.x && st.lambdas == [d.multiplier] && st.r == d.r && d.r > 0.0
    ensures var st', d' := Pass(pr, solver, st), DraftPass(draftSolver, c, d);
      st'.x == d'.x && st'.lambdas == [d'.multiplier] && st'.r == d'.r
  {
    SingleConstraintVector(pr, c, Pass(pr, solver, st).x);
  }

  /** With one equality constraint, the constraint vector is its value. */
  lemma SingleConstraintVector(pr: Problem, c: Point -> real, x: Point)
    requires WellFormed(pr) && |pr.eqs| == 1 && |pr.ineqs| == 0
    requires pr.lf.compile(pr.eqs[0]) == c
    ensures ConstraintVector(pr, x) == [c(x)]
  {
    var t := pr.eqs[0];
    assert Texts(pr) == [t];
    assert Tag(pr.eqs, Equality) + Tag(pr.ineqs, Inequality) == [(t, Equality)];
    FromPairsDistinct([(t, Equality)]);
    assert pr.lf.registry == [(t, Equality)];
    assert ConstraintValue(pr.lf, x, t) == Ok(c(x));
  }
}
