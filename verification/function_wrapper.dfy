/** `FunctionWrapper` of `function_wrapper.py`: an object that owns a
    memoising `Function` and forwards calls, the call count and cache
    clearing to it. */
module Wrapper {
  import Memo

  /** The symbol list is kept only for reference; the compiled expression
      lives in the inner `Function`. */
  datatype FunctionWrapper<S> = FunctionWrapper(symbols: S, inner: Memo.Function)

  predicate Consistent<S>(w: FunctionWrapper<S>)
  {
    Memo.Consistent(w.inner)
  }

  /** The constructor builds the inner `Function`, whose keyword arguments
      are cleared away, so nothing is cached yet. */
  function New<S>(f: Memo.Point -> real, symbols: S): (w: FunctionWrapper<S>)
    ensures w.symbols == symbols && w.inner.f == f
    ensures Consistent(w) && TimesCalled(w) == 0
  {
    FunctionWrapper(symbols, Memo.New(f, map[]))
  }

  /** `times_called`: the number of points stored by the inner `Function`. */
  function TimesCalled<S>(w: FunctionWrapper<S>): (n: nat)
    ensures n == |w.inner.cache.Keys|
  {
    Memo.TimesCalled(w.inner)
  }

  /** `__call__(X)`: the inner `Function` at the point X. */
  function Call<S>(w: FunctionWrapper<S>, x: Memo.Point): (r: (real, FunctionWrapper<S>))
    ensures r.1.symbols == w.symbols && r.1.inner.f == w.inner.f
    ensures Consistent(w) ==> Consistent(r.1) && r.0 == w.inner.f(x)
    ensures TimesCalled(r.1) == TimesCalled(w) + (if x in w.inner.cache then 0 else 1)
  {
    var (v, inner) := Memo.Call(w.inner, x);
    (v, w.(inner := inner))
  }

  /** `clear_cache()`. */
  function ClearCache<S>(w: FunctionWrapper<S>): (r: FunctionWrapper<S>)
    ensures r.symbols == w.symbols && r.inner.f == w.inner.f
    ensures Consistent(r) && TimesCalled(r) == 0
  {
    w.(inner := Memo.ClearCache(w.inner))
  }

  /** Calls at the points xs in order. */
  function CallAll<S>(w: FunctionWrapper<S>, xs: seq<Memo.Point>): (r: (seq<real>, FunctionWrapper<S>))
    ensures |r.0| == |xs| && r.1.symbols == w.symbols
    ensures r.1.inner == Memo.CallAll(w.inner, xs).1
    decreases |xs|
  {
    if |xs| == 0 then ([], w)
    else
      var (v, w') := Call(w, xs[0]);
      var (vs, w'') := CallAll(w', xs[1..]);
      ([v] + vs, w'')
  }

  /** A wrapper whose cache was cleared counts each distinct point it is
      called at exactly once, and returns the expression's values. */
  lemma {:induction false} CountAfterClear<S>(w: FunctionWrapper<S>, xs: seq<Memo.Point>)
    ensures var (vs, w') := CallAll(ClearCache(w), xs);
      TimesCalled(w') == |Memo.Points(xs)| &&
      forall i :: 0 <= i < |xs| ==> vs[i] == w.inner.f(xs[i])
  {
    var c := ClearCache(w);
    Memo.TimesCalledCountsDistinctPoints(c.inner, xs);
    CallAllValues(c, xs);
  }

  lemma {:induction false} CallAllValues<S>(w: FunctionWrapper<S>, xs: seq<Memo.Point>)
    requires Consistent(w)
    ensures forall i :: 0 <= i < |xs| ==> CallAll(w, xs).0[i] == w.inner.f(xs[i])
    decreases |xs|
  {
    if |xs| > 0 {
      var (v, w') := Call(w, xs[0]);
      CallAllValues(w', xs[1..]);
      forall i | 0 < i < |xs|
        ensures CallAll(w, xs).0[i] == w.inner.f(xs[i])
      {
        assert xs[i] == xs[1..][i - 1];
      }
    }
  }
}
