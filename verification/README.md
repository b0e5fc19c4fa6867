# lagrange, modelled in Dafny

This project models the computational core of the `lagrange` package. It is a
small Python toolkit for constrained minimisation by the augmented Lagrangian
method, and it ships a modular Lagrange interpolation helper alongside. The
modelled parts are:

- `interpolate` (`lagrange.py`): the value at 0 of the polynomial through a set of points, computed modulo a prime. It covers:
  - normalising the three accepted point shapes (a dictionary, a sequence of integers, an iterable of pairs) into an insertion-ordered dictionary;
  - every `TypeError` and `ValueError` branch, in source order;
  - `mul`, `div` and the Fermat inverse `pow(a, p - 2, p)`;
  - the `reduce`/`sum` of the basis values.

  The main theorem is that the result is exact for a prime modulus. When the used nodes are pairwise incongruent and their values lie on a polynomial of small enough degree, the result is that polynomial's value at 0, reduced modulo the prime. Fermat's little theorem is proved (modules `Modular`, `Primes`, `Polynomial`, `LagrangeBasis`). Every worked example of `help()` is derived from the theorem, including the proof that 65537 is prime (`LagrangeExamples`).
- The memoising `Function` of `functions.py` and `function_wrapper.py`, with `__missing__`, `times_called`, `__call__`, `clear_cache` and `FunctionWrapper` (modules `Memo`, `Wrapper`).
- `LagrangeFunction` of `functions.py`: the constraint registry keyed by expression text, the augmented Lagrangian with `zip` pairing and clipped inequalities, and `calculate_constraint_value` (module `Merit`). The single-constraint draft of `main.py` is modelled beside it.
- `simplex` of `optimizations_algorithms.py` (module `Simplex`), covering:
  - the initial simplex;
  - `argmax`/`argmin` with first-index ties;
  - centroid, reflection and contraction;
  - the slot-based shrink;
  - the stopping test;
  - the `while True` loop with its pass count.
- The outer continuation loop of `example.py`, lines 21-34, and the draft loop of `main.py`, lines 36-46 (module `Continuation`). The inner minimiser is a parameter there.

Python's `dict` is modelled as a list of (key, value) items with distinct keys (module `OrderedDict`). Assigning to a present key keeps its position. A new key goes to the end. `dict(pairs)` assigns the pairs in order. Failures are `Result` values (module `Outcome`). The objective and the compiled constraints are total functions of the point, and numbers are exact reals.

## Model

| member | source | states |
|---|---|---|
| Lagrange.Normalise | lagrange.py:57-82 | A successful normalisation gives a dictionary with distinct keys and no more entries than `len(points)`; every failure on the way is a `TypeError` |
| Lagrange.DictMustBeIntegral | lagrange.py:59-63 | A dictionary is rejected with the integer-keys-and-values `TypeError` exactly when some key or value is not an `int` |
| Lagrange.DictIsUsedAsIs | lagrange.py:59-63 | A dictionary of integers becomes `values` unchanged, in insertion order |
| Lagrange.IntegersAreNumbered | lagrange.py:69-72 | A sequence of integers v1..vk becomes the points (1, v1)..(k, vk); the same integers from an iterable that is not a sequence are a `TypeError` |
| Lagrange.PairsLastWins | lagrange.py:74-80 | Pairs become a dictionary whose keys are the x values in order of first occurrence, and a repeated x holds the y of its last pair |
| Lagrange.MalformedEntries | lagrange.py:74-82 | An entry that is neither an integer nor a two-integer sequence makes `interpolate` raise one of the two `TypeError`s for malformed points |
| Lagrange.EmptyPoints | lagrange.py:65-83 | An empty sequence or dictionary is the "at least one point" `ValueError`; an empty non-sequence iterable fails the integer-sequence check first |
| Lagrange.ModulusCheckedFirst | lagrange.py:84-85 | Once there are points, a non-integer modulus is a `TypeError` and an integer modulus of at most 1 is a `ValueError`, whatever the degree |
| Lagrange.DegreeChecks | lagrange.py:87-91 | A non-integer degree is a `TypeError`, a negative one a `ValueError`, and degree 0 gives the same result as no degree |
| Lagrange.ExplicitDegree | lagrange.py:91-96 | A positive degree d succeeds exactly when there are more than d distinct x values, and then the first d + 1 keys take part |
| Lagrange.RepeatedNodeNeedsDegree | lagrange.py:80-93 | Without a degree, pairs with a repeated x are rejected as "not enough points", because the default degree counts the raw entries |
| Lagrange.NoDegreeUsesAll | lagrange.py:91-96 | Without a degree and with distinct keys, every point takes part |
| Lagrange.Prepare | lagrange.py:82-93 | When validation passes, the modulus is the given integer above 1, `values` is the normalised dictionary and between 1 and all of its keys take part |
| Lagrange.UsedNodes | lagrange.py:96 | The nodes are the first degree + 1 keys of `values`, in insertion order |
| Lagrange.MulCong | lagrange.py:102 | `mul` is multiplication modulo m with a result in [0, m) |
| Modular.ModPow | lagrange.py:98-99 | Square-and-multiply `pow(b, e, m)` lies in [0, m) and is b^e reduced modulo m |
| Primes.InverseIsInverse | lagrange.py:98-103 | For a prime p and a not divisible by p, a times `pow(a, p - 2, p)` is 1 modulo p |
| Primes.Fermat | lagrange.py:98-99 | Fermat's little theorem a^p == a (mod p), for every integer a and prime p |
| Lagrange.ReduceFactors | lagrange.py:108-109 | Folding the factors `div(0 - y, x - y)` with `mul` multiplies the accumulator by the product of the (0 - y) and of the inverses of the (x - y), modulo m |
| Lagrange.TermIsBasisTerm | lagrange.py:108-109 | Each summand is congruent to the node's value times its Lagrange basis polynomial at 0 |
| Lagrange.SumTermsIsLagrangeValue | lagrange.py:107-110 | The sum is congruent to the Lagrange interpolation formula evaluated at 0 |
| Lagrange.Interpolate | lagrange.py:56-110 | The result lies in [0, modulus), and `interpolate` fails exactly when one of its argument checks fails |
| Lagrange.InterpolateExact | lagrange.py:105-110 | For a prime modulus, pairwise incongruent used nodes and values on a polynomial c with at most degree + 1 coefficients, the result is c(0) mod p |
| Lagrange.InterpolateOnPolynomial | lagrange.py:105-110 | The same result for keys already in [0, p), where distinct keys are incongruent |
| LagrangeBasis.LagrangeExact | lagrange.py:105-110 | The Lagrange formula over n incongruent nodes reproduces, modulo a prime, every polynomial with at most n coefficients, at every argument |
| Polynomial.Vanishing | lagrange.py:92-93 | A polynomial with at most n coefficients that vanishes modulo a prime at n incongruent points vanishes everywhere, which is why degree + 1 points determine the answer |
| LagrangeExamples.SetOfPairsExample | lagrange.py:22-23 | `interpolate({(1, 15), (2, 9), (3, 3)}, 17)` is 4 |
| LagrangeExamples.ArithmeticExample | lagrange.py:24-28 | `interpolate({1: 4, ..., 5: 12}, 65537)` is 2 with degree 4 and with no degree |
| LagrangeExamples.ArithmeticLineExample | lagrange.py:30-31 | The same points with degree 1 give 2 |
| LagrangeExamples.SparseKeysExample | lagrange.py:33-34 | `interpolate({49: 200, 5: 24, 3: 16}, degree=2, modulus=65537)` is 4 |
| LagrangeExamples.SparseKeysLineExample | lagrange.py:36-37 | The same points with degree 1 give 4 |
| LagrangeExamples.SquaresLineExample | lagrange.py:39-40 | `interpolate({1: 16, 2: 25, 3: 36}, degree=1, modulus=65537)` is 7 |
| LagrangeExamples.ReorderedSquaresLineExample | lagrange.py:42-43 | The same points inserted as {3: 36, 1: 16, 2: 25} with degree 1 give 6 |
| LagrangeExamples.SquaresExample | lagrange.py:45-46 | `interpolate({1: 16, 2: 25, 3: 36}, degree=2, modulus=65537)` is 9 |
| LagrangeExamples.ReorderedSquaresExample | lagrange.py:48-49 | The reordered points with degree 2 give 9 |
| LagrangeExamples.OtherSquaresExample | lagrange.py:51-52 | `interpolate({5: 64, 2: 25, 3: 36}, degree=2, modulus=65537)` is 9 |
| OrderedDict.Set | functions.py:43-47 | Assigning into a dictionary keeps keys distinct and a present key in place, appends a new key, stores the value and leaves every other key's value alone |
| OrderedDict.FromPairsKeyOrder | lagrange.py:80 | `dict(pairs)` lists each key once, at the position of its first occurrence |
| OrderedDict.FromPairsLastWins | lagrange.py:80 | In `dict(pairs)` a repeated key holds the value of its last pair |
| OrderedDict.FromPairsLength | lagrange.py:80 | `len(dict(pairs))` is at most the number of pairs, and strictly less when a key repeats |
| Memo.New | functions.py:6-14 | A new `Function` stores nothing, whatever keyword arguments it received, so `times_called` is 0 |
| Memo.Lookup | functions.py:17-20 | A miss evaluates the expression, stores exactly that one new key and returns the value; a hit returns the stored value and changes nothing |
| Memo.Call | functions.py:28-29 | A call returns the expression's value at X and raises `times_called` by one exactly when X was not stored |
| Memo.ClearCache | functions.py:32-33 | After `clear_cache` nothing is stored and `times_called` is 0 |
| Memo.CallAllTransparent | functions.py:17-29 | Through any run of calls, every returned value is the expression's value at its point and the stored values stay correct |
| Memo.TimesCalledCountsDistinctPoints | functions.py:23-25 | Starting from an empty cache, `times_called` is the number of distinct points called |
| Memo.CallTwice | functions.py:17-29 | Two calls at one point return the same value and add at most one key |
| Memo.ClearThenCall | functions.py:17-33 | After `clear_cache` the next call recomputes: it returns the expression's value and stores exactly that point |
| Wrapper.New | function_wrapper.py:5-28 | A new `FunctionWrapper` keeps its symbols, wraps the expression and reports `times_called` 0 |
| Wrapper.Call | function_wrapper.py:16-37 | A call returns the expression's value and raises `times_called` by one exactly on a miss |
| Wrapper.ClearCache | function_wrapper.py:40-41 | `clear_cache` empties the inner dictionary, so `times_called` is 0 |
| Wrapper.CountAfterClear | function_wrapper.py:31-41 | After `clear_cache`, a run of calls returns the expression's values and `times_called` counts the distinct points |
| Merit.New | functions.py:37-47 | The constructor leaves the objective's cache empty and registers exactly the texts of the two lists, each once |
| Merit.RegistryMembers | functions.py:41-47 | A text is registered exactly when it is an equality or an inequality constraint |
| Merit.RegistryOrder | functions.py:41-47 | With distinct texts, the registry lists the equality constraints and then the inequality constraints, in their order |
| Merit.SharedTextIsInequality | functions.py:43-47 | A text given as both kinds keeps one entry, and that entry is registered as an inequality |
| Merit.EqualityOnlyText | functions.py:43-44 | A text given only as an equality constraint is registered as an equality |
| Merit.InequalityValuesNonNegative | functions.py:46-47 | A registered inequality's value is never negative, and it is zero exactly when the expression is at most zero |
| Merit.Call | functions.py:50-55 | `__call__` fails exactly when r is 0; otherwise it returns objective + sum of multiplier times value over the `zip` + (1/r) times the sum of squared values, and caches the objective at X |
| Merit.PenaltyNonNegative | functions.py:54 | For r > 0 the quadratic term is never negative |
| Merit.FeasiblePointValue | functions.py:50-55 | Where every equality is 0 and every inequality at most 0, the merit is the objective, whatever the multipliers |
| Merit.ZipIsPaddedDot | functions.py:54 | `zip` truncation is the same as giving constraints without a multiplier the multiplier 0: such constraints only enter the quadratic term |
| Merit.ConstraintValue | functions.py:58-59 | `calculate_constraint_value` succeeds exactly for a registered text, and returns the value the merit function uses for that entry |
| Merit.DraftIsSingleConstraint | main.py:18-23 | The draft `__call__` is the general merit with one constraint, the combined value, and one multiplier |
| Merit.CombinedCancellation | main.py:9-13 | Summing constraints into one function lets a violated equality (-1) cancel a violated inequality (1) |
| Simplex.InitialSimplex | optimizations_algorithms.py:11-23 | As written: n + 1 rows of length n, row 0 is x0, row i adds delta2 in coordinate i - 1 and delta1 elsewhere |
| Simplex.InitialSimplexNotRegular | optimizations_algorithms.py:20-23 | As written, in three dimensions the edges between added vertices have length alpha but those from x0 have squared length 33/18 alpha^2 |
| Simplex.RegularSimplexEdges | optimizations_algorithms.py:15-23 | With delta1 in the own coordinate and delta2 elsewhere, every edge of the initial simplex has length alpha |
| Simplex.ArgMax | optimizations_algorithms.py:31 | `worst` is the first index of a largest value |
| Simplex.ArgMin | optimizations_algorithms.py:32 | `best` is the first index of a smallest value |
| Simplex.AllEqualPicksFirst | optimizations_algorithms.py:30-32 | When all values are equal, `worst` and `best` are both 0 |
| Simplex.Centroid | optimizations_algorithms.py:35 | n times the centroid plus the worst row is the sum of all rows, coordinate by coordinate |
| Simplex.ReflectContractGeometry | optimizations_algorithms.py:35-45 | The centroid is the midpoint of the worst row and its reflection; the contracted point is a quarter of the way from the worst row to the reflection |
| Simplex.Step | optimizations_algorithms.py:29-51 | One pass keeps the shape; `worst` and `best` are the first indices of the largest and smallest values; it reflects exactly when f(xr) <= f(worst) and then row `worst` becomes the reflection of the worst row through the centroid of the others; it contracts exactly when that fails and f(xk) < f(worst), and then row `worst` becomes the contracted point; those two moves change no other row, and otherwise the simplex shrinks towards `best` |
| Simplex.StepKeepsWorstBound | optimizations_algorithms.py:37-48 | After a reflection or contraction no vertex has a value above the old worst value |
| Simplex.Shrink | optimizations_algorithms.py:51 | Shrinking leaves row 0 alone and moves every other row to its midpoint with the pre-shrink best row |
| Simplex.ShrinkKeepsBest | optimizations_algorithms.py:51 | Shrinking leaves the best row where it is |
| Simplex.ShrinkHalvesDistance | optimizations_algorithms.py:51 | Shrinking divides each moved row's squared distance to the best row by 4 |
| Simplex.ConvergedIffClose | optimizations_algorithms.py:54 | The stopping test holds exactly when every coordinate of every row is within tol of the best row |
| Simplex.LoopFound | optimizations_algorithms.py:26-55 | When the loop ends, its last pass is the first that meets the stopping test, and the pass count says which one it is |
| Simplex.LoopExhausted | optimizations_algorithms.py:26-55 | The bounded loop gives up only when none of its passes met the stopping test |
| Simplex.Minimize | optimizations_algorithms.py:7-59 | An empty start point fails (the maximum of an empty array); otherwise the search starts from the simplex the code builds, and a result is a point of the start point's dimension and a pass count of at least 1 |
| Simplex.MinimizeConverged | optimizations_algorithms.py:53-59 | The returned point is the best row of the loop's last simplex, which starts from the simplex the code builds, and every coordinate of every row of that last simplex lies within tol of the returned point |
| Simplex.SearchConverged | optimizations_algorithms.py:26-59 | From any start simplex of the right shape, the returned point is the best row of the loop's last simplex, and every coordinate of every row lies within tol of it |
| Simplex.LastPassClose | optimizations_algorithms.py:26-55 | For any pass that keeps the shape, the pass at which the loop stops has every coordinate of every row within tol of its best row |
| Simplex.SearchStopsAtFirstConvergedPass | optimizations_algorithms.py:26-58 | From any start simplex of the right shape, the result is the best row after the first pass that meets the stopping test, with that pass's number |
| Simplex.FirstStop | optimizations_algorithms.py:26-55 | A loop that returned stopped at the first pass that meets the stopping test |
| Simplex.MinimizeStopsAtFirstConvergedPass | optimizations_algorithms.py:26-58 | Started from the simplex the code builds, the result is the best row after the first pass that meets the stopping test, returned with that pass's number |
| Continuation.TextsRegistered | functions.py:41-47 | Every constraint text the outer loop iterates over is in the registry |
| Continuation.ConstraintVectorValues | example.py:33-34 | Each text's value in the multiplier update is what `calculate_constraint_value` returns for it, which never fails |
| Continuation.Start | example.py:21-26 | A trial starts with one zero multiplier per constraint and penalty parameter 10 |
| Continuation.Pass | example.py:28-34 | One pass moves to the inner minimiser's point, multiplies r by 0.4, adds the inner minimiser's count to the total, and moves each multiplier by its constraint's value at the new point divided by the new r |
| Continuation.Moved | example.py:33-34 | Each multiplier changes by exactly its constraint value divided by r, and there is one per constraint |
| Continuation.PenaltySchedule | example.py:26-32 | After k passes the penalty parameter is 10 * 0.4^k |
| Continuation.PenaltyDecreases | example.py:32 | The penalty parameter stays positive and decreases strictly |
| Continuation.ThirteenPasses | example.py:9-32 | A trial stops after exactly 13 passes, whatever the inner minimiser returns |
| Continuation.OuterReaches | example.py:28-34 | With enough fuel, the loop ends at the first pass count whose penalty parameter is within the tolerance |
| Continuation.OuterRunsOut | example.py:28-34 | With fewer passes of fuel than that, the loop gives up |
| Continuation.FirstIncrement | example.py:32-34 | The first update adds each constraint's value divided by 4, the already shrunk penalty parameter, not by 10 |
| Continuation.InequalityStep | example.py:33-34 | One pass never lowers the multiplier of an inequality constraint |
| Continuation.InequalityMultipliersGrow | example.py:33-34 | Multipliers of inequality constraints start at 0 and never decrease |
| Continuation.MultipliersAligned | example.py:30-34 | With distinct texts, multiplier i is moved by the value the merit function pairs with multiplier i |
| Continuation.IterationsAtLeastPasses | example.py:24-31 | When every inner run takes at least one pass, the iteration total is at least the number of outer passes |
| Continuation.TimesCalledIsDistinctEvaluations | example.py:22-37 | The reported call count is the number of distinct points evaluated in this trial alone |
| Continuation.DraftIsSingleConstraintLoop | main.py:36-46 | The draft loop is the general loop with one equality constraint, the combined function, and one multiplier |
| Continuation.DraftOuter | main.py:42-46 | When the draft loop ends, the penalty parameter is within the tolerance |
| Continuation.DraftPenaltySchedule | main.py:38-45 | After k draft passes the penalty parameter is 10 * 0.4^k |
| Continuation.DraftThirteenPasses | main.py:36-46 | The draft loop also stops after exactly 13 passes, whatever the inner minimiser returns |
| Continuation.DraftRuns | main.py:42-46 | From the state after j passes, the draft loop ends at the first pass count whose penalty parameter is within the tolerance if the fuel suffices, and gives up otherwise |
| Continuation.DraftOuterIsOuter | main.py:42-46 | From corresponding states, the draft loop and the general loop with the single combined constraint give up together or end at the same point, multiplier and penalty parameter |
| Continuation.DraftTrialIsTrial | main.py:36-46 | The draft from x0, started at multiplier 0 and r = 10, ends where a trial of the general loop with the single combined constraint ends, and gives up exactly when that trial does |

## Left out

- SymPy parsing and `lambdify` (`sympify`, `Max`, the symbol tuple and its arity) are not modelled. The objective and each compiled constraint are total functions of the point, and `compile` maps a text to its function.
- Floating point is not modelled; all values are exact reals. Convergence of the simplex and the end-to-end optimum are not stated.
- `np.sqrt(n + 1)` and `np.sqrt(2)` are parameters (`root`, `root2`) tied to their defining equations by `Simplex.Deltas`.
- The two unbounded loops (`while True` in `simplex` and `while r > tol`) take a fuel bound. Running out of fuel is an explicit outcome.
- Continuation.Trial: the inner minimiser is a parameter, because `algorithms.py`, which `example.py` imports it from, is not part of this model.
- Simplex.Minimize: it always returns the pass count (`count_iterations=True`); the other return form is the same point without the count.
- Merit.Call: when r is 0, Python raises `ZeroDivisionError` after the objective has already been cached at X. The model's failure result does not carry that updated cache.
- Cache keys are compared as exact sequences of reals; NumPy hashing of `-0.0` and NaN is not modelled.
- Python's dynamic typing is reduced to the cases `interpolate` distinguishes: `bool` being an `int` and strings being sequences are not modelled.
- The point iterable of the `{(1, 15), (2, 9), (3, 3)}` example is a set. It is modelled in one iteration order; the other orders give the same pairs.
- `x_known is not x` compares objects; because the used keys are distinct, it is modelled as a comparison of values.
- Printing, `help()` (whose examples are proved as lemmas), the `__main__` set-up lines of `main.py` and `example.py`, and the final reports of `example.py` are not modelled.
- The code has no length check between multipliers and constraints, no guard on the penalty parameter and no iteration cap. The model adds none: `zip` truncates, and `1 / r` fails only at r = 0.

## Findings

| source | as written | input that shows it | evidently intended | confidence | as-written member | corrected member |
|---|---|---|---|---|---|---|
| optimizations_algorithms.py:22-23 | Vertex i gets delta2 in its own coordinate i - 1 and delta1 in every other coordinate | n = 3 (every problem in the package): the edge from x0 to vertex 1 has squared length 33/18 alpha^2, while edges between added vertices have squared length alpha^2 | delta1 in the own coordinate and delta2 elsewhere, the regular simplex of edge alpha that the two delta formulas define | medium, not executed | Simplex.InitialSimplexNotRegular | Simplex.RegularSimplexEdges |

`Simplex.Minimize` keeps the start the code builds, because its results are the code's results. `Simplex.Search` takes any start of the right shape, so `Search(RegularSimplex(x0, d1, d2), ...)` is the intended search, and `Simplex.SearchConverged` and `Simplex.SearchStopsAtFirstConvergedPass` hold for it as well.
