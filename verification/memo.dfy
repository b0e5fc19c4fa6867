/** The memoising `Function` of `functions.py` (and its twin in
    `function_wrapper.py`): a dictionary from points to values whose missing
    keys are filled in by evaluating the compiled expression. The expression
    is an arbitrary total function of the point. */
module Memo {

  /** A point, used as a dictionary key through `tuple(X)`. */
  type Point = seq<real>

  type Cache = map<Point, real>

  /** A `Function` object: its compiled expression and its dictionary. */
  datatype Function = Function(f: Point -> real, cache: Cache)

  /** Every stored value is the expression's value at its key. */
  predicate Consistent(fn: Function)
  {
    forall x :: x in fn.cache ==> fn.cache[x] == fn.f(x)
  }

  /** `times_called`: the number of keys. */
  function TimesCalled(fn: Function): nat
  {
    |fn.cache|
  }

  /** The constructor: the keyword arguments land in the dictionary through
      `dict.__init__` and are then removed by `self.clear()`. */
  function New(f: Point -> real, kwargs: Cache): (fn: Function)
    ensures fn.f == f && Consistent(fn)
    ensures TimesCalled(fn) == 0 && forall x :: x !in fn.cache
  {
    var fn := Function(f, kwargs);
    ClearCache(fn)
  }

  /** `self[x]`: a stored value, or `__missing__`, which evaluates the
      expression, stores the value and returns it. */
  function Lookup(fn: Function, x: Point): (r: (real, Function))
    ensures r.1.f == fn.f
    ensures r.1.cache.Keys == fn.cache.Keys + {x}
    ensures x in fn.cache ==> r.1 == fn && r.0 == fn.cache[x]
    ensures x !in fn.cache ==> r.0 == fn.f(x) && TimesCalled(r.1) == TimesCalled(fn) + 1
    ensures x !in fn.cache ==> forall y :: y in fn.cache ==> y in r.1.cache && r.1.cache[y] == fn.cache[y]
    ensures Consistent(fn) ==> Consistent(r.1) && r.0 == fn.f(x)
  {
    if x in fn.cache then (fn.cache[x], fn)
    else
      var v := fn.f(x);
      (v, fn.(cache := fn.cache[x := v]))
  }

  /** `__call__(X)`, which reads `self[*X]`. */
  function Call(fn: Function, x: Point): (r: (real, Function))
    ensures Consistent(fn) ==> Consistent(r.1) && r.0 == fn.f(x)
    ensures TimesCalled(r.1) == TimesCalled(fn) + (if x in fn.cache then 0 else 1)
  {
    Lookup(fn, x)
  }

  /** `clear_cache()`. */
  function ClearCache(fn: Function): (r: Function)
    ensures r.f == fn.f && Consistent(r)
    ensures TimesCalled(r) == 0 && forall x :: x !in r.cache
  {
    fn.(cache := map[])
  }

  /** The set of points of a sequence of calls. */
  function Points(xs: seq<Point>): set<Point>
  {
    set i | 0 <= i < |xs| :: xs[i]
  }

  /** Calls at the points xs, one after the other: the returned values and
      the final object. */
  function CallAll(fn: Function, xs: seq<Point>): (r: (seq<real>, Function))
    ensures |r.0| == |xs| && r.1.f == fn.f
    decreases |xs|
  {
    if |xs| == 0 then ([], fn)
    else
      var (v, fn') := Call(fn, xs[0]);
      var (vs, fn'') := CallAll(fn', xs[1..]);
      ([v] + vs, fn'')
  }

  /** Memoisation is transparent: every call returns the expression's value,
      and the stored values stay correct. */
  lemma {:induction false} CallAllTransparent(fn: Function, xs: seq<Point>)
    requires Consistent(fn)
    ensures Consistent(CallAll(fn, xs).1)
    ensures forall i :: 0 <= i < |xs| ==> CallAll(fn, xs).0[i] == fn.f(xs[i])
    decreases |xs|
  {
    if |xs| > 0 {
      var (v, fn') := Call(fn, xs[0]);
      CallAllTransparent(fn', xs[1..]);
      var vs := CallAll(fn', xs[1..]).0;
      assert CallAll(fn, xs).0 == [v] + vs;
      forall i | 0 < i < |xs|
        ensures CallAll(fn, xs).0[i] == fn.f(xs[i])
      {
        assert xs[i] == xs[1..][i - 1];
      }
    }
  }

  /** The keys after a run of calls are the keys before plus the points. */
  lemma {:induction false} CallAllKeys(fn: Function, xs: seq<Point>)
    ensures CallAll(fn, xs).1.cache.Keys == fn.cache.Keys + Points(xs)
    decreases |xs|
  {
    if |xs| > 0 {
      var (v, fn') := Call(fn, xs[0]);
      CallAllKeys(fn', xs[1..]);
      PointsCons(xs);
    }
  }

  lemma PointsCons(xs: seq<Point>)
    requires |xs| > 0
    ensures Points(xs) == {xs[0]} + Points(xs[1..])
  {
    forall y | y in Points(xs)
      ensures y in {xs[0]} + Points(xs[1..])
    {
      var i :| 0 <= i < |xs| && xs[i] == y;
      if i > 0 {
        assert xs[1..][i - 1] == y;
      }
    }
    forall y | y in Points(xs[1..])
      ensures y in Points(xs)
    {
      var i :| 0 <= i < |xs[1..]| && xs[1..][i] == y;
      assert xs[i + 1] == y;
    }
  }

  /** Starting from an empty cache (a fresh object, or one just cleared),
      `times_called` is the number of distinct points called. */
  lemma TimesCalledCountsDistinctPoints(fn: Function, xs: seq<Point>)
    requires fn.cache == map[]
    ensures TimesCalled(CallAll(fn, xs).1) == |Points(xs)|
  {
    CallAllKeys(fn, xs);
    var c := CallAll(fn, xs).1.cache;
    assert c.Keys == Points(xs);
    assert |c| == |c.Keys| by { MapCardinality(c); }
  }

  lemma MapCardinality<K, V>(m: map<K, V>)
    ensures |m| == |m.Keys|
  {
  }

  /** Calling twice at one point returns the same value and stores it once. */
  lemma CallTwice(fn: Function, x: Point)
    ensures var (v1, fn1) := Call(fn, x);
      var (v2, fn2) := Call(fn1, x);
      v1 == v2 && fn2 == fn1 &&
      TimesCalled(fn2) == TimesCalled(fn) + (if x in fn.cache then 0 else 1)
  {
  }

  /** After `clear_cache`, the next call recomputes the value. */
  lemma ClearThenCall(fn: Function, x: Point)
    ensures var (v, fn') := Call(ClearCache(fn), x);
      v == fn.f(x) && TimesCalled(fn') == 1 && fn'.cache == map[x := fn.f(x)]
  {
  }
}
