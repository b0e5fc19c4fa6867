/** The simplex search of `optimizations_algorithms.py` over exact reals: an
    initial simplex around the start point, then passes of reflection,
    contraction or shrinking until every vertex is within `tol` of the best
    vertex in every coordinate. The objective is a total function of the
    point (the multipliers and penalty parameter are fixed inside it); the
    two square roots are parameters with their defining equations. */
module Simplex {
  import opened Outcome

  type Point = seq<real>

  /** The vertices, one per row. */
  type Rows = seq<Point>

  /** n + 1 vertices of dimension n. */
  predicate Shape(s: Rows, n: nat)
  {
    |s| == n + 1 && forall i :: 0 <= i < |s| ==> |s[i]| == n
  }

  function Abs(v: real): real
  {
    if v < 0.0 then -v else v
  }

  function Square(v: real): real
  {
    v * v
  }

  // ---------------------------------------------------------------------
  // The initial simplex

  /** delta1 and delta2 of the source for dimension n and size alpha, with
      root = sqrt(n + 1) and root2 = sqrt(2). */
  predicate Deltas(n: nat, alpha: real, root: real, root2: real, d1: real, d2: real)
  {
    n > 0 && root > 0.0 && root * root == (n + 1) as real &&
    root2 > 0.0 && root2 * root2 == 2.0 &&
    d1 == (root + n as real - 1.0) / (n as real * root2) * alpha &&
    d2 == (root - 1.0) / (n as real * root2) * alpha
  }

  /** Vertex i (1 <= i <= n): the start point moved by `own` in coordinate
      i - 1 and by `other` in every other coordinate. */
  function Vertex(x0: Point, i: nat, own: real, other: real): (v: Point)
    requires 1 <= i <= |x0|
    ensures |v| == |x0|
  {
    seq(|x0|, j requires 0 <= j < |x0| => if j == i - 1 then x0[j] + own else x0[j] + other)
  }

  /** The initial simplex as written: vertex i gets delta2 in its own
      coordinate and delta1 in the others. */
  function InitialSimplex(x0: Point, d1: real, d2: real): (s: Rows)
    ensures Shape(s, |x0|) && s[0] == x0
    ensures forall i :: 1 <= i <= |x0| ==> s[i] == Vertex(x0, i, d2, d1)
  {
    [x0] + seq(|x0|, i requires 0 <= i < |x0| => Vertex(x0, i + 1, d2, d1))
  }

  /** The regular simplex of edge alpha: delta1 in the own coordinate. */
  function RegularSimplex(x0: Point, d1: real, d2: real): (s: Rows)
    ensures Shape(s, |x0|) && s[0] == x0
    ensures forall i :: 1 <= i <= |x0| ==> s[i] == Vertex(x0, i, d1, d2)
  {
    [x0] + seq(|x0|, i requires 0 <= i < |x0| => Vertex(x0, i + 1, d1, d2))
  }

  function SqDist(u: Point, v: Point): real
    requires |u| == |v|
    decreases |u|
  {
    if |u| == 0 then 0.0 else Square(u[0] - v[0]) + SqDist(u[1..], v[1..])
  }

  /** n copies of v added up. */
  function Times(n: nat, v: real): real
    decreases n
  {
    if n == 0 then 0.0 else Times(n - 1, v) + v
  }

  /** n - 1 copies of v make (n - 1) * v. */
  lemma {:induction false} TimesPred(n: nat, v: real)
    requires n >= 1
    ensures Times(n - 1, v) == (n as real - 1.0) * v
    decreases n
  {
    if n > 1 {
      TimesPred(n - 1, v);
      AddOnce((n - 1) as real - 1.0, n as real - 1.0, v);
    }
  }

  lemma AddOnce(m: real, k: real, v: real)
    requires k == m + 1.0
    ensures m * v + v == k * v
  {
  }

  lemma {:induction false} TimesZero(n: nat)
    ensures Times(n, 0.0) == 0.0
    decreases n
  {
    if n > 0 {
      TimesZero(n - 1);
    }
  }

  /** Squared distance when the coordinates differ by a at position k and by
      b everywhere else. */
  lemma {:induction false} SqDistOneSpecial(u: Point, v: Point, k: nat, a: real, b: real)
    requires |u| == |v| && k < |u|
    requires forall j :: 0 <= j < |u| ==> u[j] - v[j] == if j == k then a else b
    ensures SqDist(u, v) == Square(a) + Times(|u| - 1, Square(b))
    decreases |u|
  {
    if k == 0 {
      SqDistUniform(u[1..], v[1..], b);
    } else {
      SqDistOneSpecial(u[1..], v[1..], k - 1, a, b);
    }
  }

  lemma {:induction false} SqDistUniform(u: Point, v: Point, b: real)
    requires |u| == |v|
    requires forall j :: 0 <= j < |u| ==> u[j] - v[j] == b
    ensures SqDist(u, v) == Times(|u|, Square(b))
    decreases |u|
  {
    if |u| > 0 {
      SqDistUniform(u[1..], v[1..], b);
    }
  }

  /** Squared distance when the coordinates differ by a at k1, by c at k2
      and agree elsewhere. */
  lemma {:induction false} SqDistTwoSpecial(u: Point, v: Point, k1: nat, k2: nat, a: real, c: real)
    requires |u| == |v| && k1 < |u| && k2 < |u| && k1 != k2
    requires forall j :: 0 <= j < |u| ==> u[j] - v[j] == if j == k1 then a else if j == k2 then c else 0.0
    ensures SqDist(u, v) == Square(a) + Square(c)
    decreases |u|
  {
    if k1 == 0 {
      SqDistOneSpecial(u[1..], v[1..], k2 - 1, c, 0.0);
      TimesZero(|u| - 2);
    } else if k2 == 0 {
      SqDistOneSpecial(u[1..], v[1..], k1 - 1, a, 0.0);
      TimesZero(|u| - 2);
    } else {
      SqDistTwoSpecial(u[1..], v[1..], k1 - 1, k2 - 1, a, c);
    }
  }

  /** Edge lengths of a simplex built with increments own and other: from
      the start point to a vertex ... */
  lemma BaseEdge(x0: Point, i: nat, own: real, other: real)
    requires 1 <= i <= |x0|
    ensures SqDist(Vertex(x0, i, own, other), x0) == Square(own) + Times(|x0| - 1, Square(other))
  {
    VertexOffsets(x0, i, own, other);
    SqDistOneSpecial(Vertex(x0, i, own, other), x0, i - 1, own, other);
  }

  lemma VertexOffsets(x0: Point, i: nat, own: real, other: real)
    requires 1 <= i <= |x0|
    ensures var u := Vertex(x0, i, own, other);
      forall j :: 0 <= j < |u| ==> u[j] - x0[j] == if j == i - 1 then own else other
  {
  }

  /** ... and between two vertices other than the start point. */
  lemma VertexEdge(x0: Point, i: nat, k: nat, own: real, other: real)
    requires 1 <= i <= |x0| && 1 <= k <= |x0| && i != k
    ensures SqDist(Vertex(x0, i, own, other), Vertex(x0, k, own, other)) == 2.0 * Square(own - other)
  {
    var u, w := Vertex(x0, i, own, other), Vertex(x0, k, own, other);
    assert forall j :: 0 <= j < |u| ==>
      u[j] - w[j] == if j == i - 1 then own - other else if j == k - 1 then other - own else 0.0;
    SqDistTwoSpecial(u, w, i - 1, k - 1, own - other, other - own);
    assert Square(other - own) == Square(own - other);
  }

  /** The common factor alpha / (n * sqrt 2) of both deltas. */
  lemma DeltaFactor(n: nat, alpha: real, root: real, root2: real, d1: real, d2: real)
    requires Deltas(n, alpha, root, root2, d1, d2)
    ensures var q := alpha / (n as real * root2);
      d1 == (root + n as real - 1.0) * q && d2 == (root - 1.0) * q &&
      q * (n as real * root2) == alpha
  {
  }

  lemma DeltaDifference(n: nat, alpha: real, root: real, root2: real, d1: real, d2: real)
    requires Deltas(n, alpha, root, root2, d1, d2)
    ensures 2.0 * Square(d1 - d2) == Square(alpha)
  {
    DeltaFactor(n, alpha, root, root2, d1, d2);
    var q := alpha / (n as real * root2);
    var nq := n as real * q;
    assert d1 - d2 == nq;
    assert nq * root2 == alpha;
    assert Square(alpha) == Square(nq) * (root2 * root2);
  }

  lemma DeltaBaseEdge(n: nat, alpha: real, root: real, root2: real, d1: real, d2: real)
    requires Deltas(n, alpha, root, root2, d1, d2)
    ensures Square(d1) + Times(n - 1, Square(d2)) == Square(alpha)
  {
    TimesPred(n, Square(d2));
    DeltaBaseEdgeProduct(n, alpha, root, root2, d1, d2);
  }

  lemma DeltaBaseEdgeProduct(n: nat, alpha: real, root: real, root2: real, d1: real, d2: real)
    requires Deltas(n, alpha, root, root2, d1, d2)
    ensures Square(d1) + (n as real - 1.0) * Square(d2) == Square(alpha)
  {
    DeltaEdgeScaled(n, alpha, root, root2, d1, d2);
    DeltaAlphaScaled(n, alpha, root, root2, d1, d2);
  }

  /** Both sides of the base-edge identity as multiples of q^2, where
      q = alpha / (n * sqrt 2). */
  lemma DeltaEdgeScaled(n: nat, alpha: real, root: real, root2: real, d1: real, d2: real)
    requires Deltas(n, alpha, root, root2, d1, d2)
    ensures Square(d1) + (n as real - 1.0) * Square(d2) == 2.0 * (n as real) * (n as real) * Square(alpha / (n as real * root2))
  {
    DeltaFactor(n, alpha, root, root2, d1, d2);
    EdgeScaled(n as real, root, alpha / (n as real * root2), d1, d2);
  }

  lemma EdgeScaled(m: real, root: real, q: real, d1: real, d2: real)
    requires root * root == m + 1.0 && d1 == (root + m - 1.0) * q && d2 == (root - 1.0) * q
    ensures Square(d1) + (m - 1.0) * Square(d2) == 2.0 * m * m * Square(q)
  {
    BracketIdentity(m, root);
    SquaresScaled(m, root + m - 1.0, root - 1.0, q, d1, d2);
  }

  lemma SquaresScaled(m: real, a: real, b: real, q: real, d1: real, d2: real)
    requires d1 == a * q && d2 == b * q && Square(a) + (m - 1.0) * Square(b) == 2.0 * m * m
    ensures Square(d1) + (m - 1.0) * Square(d2) == 2.0 * m * m * Square(q)
  {
    SquareProduct(d1, a, q);
    SquareProduct(d2, b, q);
    ScaleSum(Square(d1), Square(d2), Square(a), Square(b), Square(q), m - 1.0, 2.0 * m * m);
  }

  lemma DeltaAlphaScaled(n: nat, alpha: real, root: real, root2: real, d1: real, d2: real)
    requires Deltas(n, alpha, root, root2, d1, d2)
    ensures Square(alpha) == 2.0 * (n as real) * (n as real) * Square(alpha / (n as real * root2))
  {
    DeltaFactor(n, alpha, root, root2, d1, d2);
    AlphaSquare(alpha / (n as real * root2), n as real, root2, alpha);
  }

  lemma ScaleSum(s1: real, s2: real, sa: real, sb: real, sq: real, k: real, t: real)
    requires s1 == sa * sq && s2 == sb * sq && sa + k * sb == t
    ensures s1 + k * s2 == t * sq
  {
    assert sa * sq + k * (sb * sq) == (sa + k * sb) * sq;
  }

  lemma AlphaSquare(q: real, m: real, root2: real, alpha: real)
    requires q * (m * root2) == alpha && root2 * root2 == 2.0
    ensures Square(alpha) == 2.0 * m * m * Square(q)
  {
    assert Square(alpha) == (m * m) * (root2 * root2) * Square(q);
  }

  lemma SquareProduct(d: real, a: real, q: real)
    requires d == a * q
    ensures Square(d) == Square(a) * Square(q)
  {
  }

  /** (r + m - 1)^2 + (m - 1)(r - 1)^2 == 2 m^2 when r^2 == m + 1. */
  lemma BracketIdentity(m: real, root: real)
    requires root * root == m + 1.0
    ensures Square(root + m - 1.0) + (m - 1.0) * Square(root - 1.0) == 2.0 * m * m
  {
    assert Square(root + m - 1.0) == root * root + 2.0 * root * (m - 1.0) + (m - 1.0) * (m - 1.0);
    assert (m - 1.0) * Square(root - 1.0) == (m - 1.0) * (root * root) - 2.0 * root * (m - 1.0) + (m - 1.0);
  }

  /** The corrected simplex is regular: every edge has length alpha. */
  lemma RegularSimplexEdges(x0: Point, alpha: real, root: real, root2: real, d1: real, d2: real, i: nat, k: nat)
    requires Deltas(|x0|, alpha, root, root2, d1, d2)
    requires 0 <= i <= |x0| && 0 <= k <= |x0| && i != k
    ensures var s := RegularSimplex(x0, d1, d2); SqDist(s[i], s[k]) == Square(alpha)
  {
    var s := RegularSimplex(x0, d1, d2);
    if i == 0 {
      RegularBaseEdge(x0, alpha, root, root2, d1, d2, k);
      SqDistSymmetric(s[k], x0);
    } else if k == 0 {
      RegularBaseEdge(x0, alpha, root, root2, d1, d2, i);
    } else {
      VertexEdge(x0, i, k, d1, d2);
      DeltaDifference(|x0|, alpha, root, root2, d1, d2);
    }
  }

  lemma RegularBaseEdge(x0: Point, alpha: real, root: real, root2: real, d1: real, d2: real, i: nat)
    requires Deltas(|x0|, alpha, root, root2, d1, d2) && 1 <= i <= |x0|
    ensures SqDist(Vertex(x0, i, d1, d2), x0) == Square(alpha)
  {
    BaseEdge(x0, i, d1, d2);
    DeltaBaseEdge(|x0|, alpha, root, root2, d1, d2);
  }

  lemma {:induction false} SqDistSymmetric(u: Point, v: Point)
    requires |u| == |v|
    ensures SqDist(u, v) == SqDist(v, u)
    decreases |u|
  {
    if |u| > 0 {
      SqDistSymmetric(u[1..], v[1..]);
      assert Square(u[0] - v[0]) == Square(v[0] - u[0]);
    }
  }

  /** As written, the edges between the added vertices have length alpha,
      but in three dimensions (the size of every problem the package runs)
      each edge from the start point has squared length 33/18 alpha^2. */
  lemma InitialSimplexNotRegular(x0: Point, alpha: real, root2: real, d1: real, d2: real)
    requires |x0| == 3 && alpha > 0.0
    requires Deltas(3, alpha, 2.0, root2, d1, d2)
    ensures var s := InitialSimplex(x0, d1, d2);
      SqDist(s[1], s[2]) == Square(alpha) &&
      SqDist(s[1], s[0]) == 33.0 / 18.0 * Square(alpha) &&
      SqDist(s[1], s[0]) != Square(alpha)
  {
    var s := InitialSimplex(x0, d1, d2);
    BaseEdge(x0, 1, d2, d1);
    TimesPred(3, Square(d1));
    VertexEdge(x0, 1, 2, d2, d1);
    DeltaDifference(3, alpha, 2.0, root2, d1, d2);
    DeltaFactor(3, alpha, 2.0, root2, d1, d2);
    var q := alpha / (3.0 * root2);
    assert d1 == 4.0 * q && d2 == q;
    assert Square(q) * 18.0 == Square(alpha) by {
      assert q * 3.0 * root2 == alpha;
      assert Square(alpha) == Square(q) * 9.0 * (root2 * root2);
    }
  }

  // ---------------------------------------------------------------------
  // One pass

  /** np.argmax: the first index of a largest value. */
  function ArgMax(v: seq<real>): (k: nat)
    requires |v| > 0
    ensures k < |v|
    ensures forall i :: 0 <= i < |v| ==> v[i] <= v[k]
    ensures forall i :: 0 <= i < k ==> v[i] < v[k]
    decreases |v|
  {
    if |v| == 1 then 0
    else
      var k := ArgMax(v[..|v| - 1]);
      if v[|v| - 1] > v[k] then |v| - 1 else k
  }

  /** np.argmin: the first index of a smallest value. */
  function ArgMin(v: seq<real>): (k: nat)
    requires |v| > 0
    ensures k < |v|
    ensures forall i :: 0 <= i < |v| ==> v[k] <= v[i]
    ensures forall i :: 0 <= i < k ==> v[k] < v[i]
    decreases |v|
  {
    if |v| == 1 then 0
    else
      var k := ArgMin(v[..|v| - 1]);
      if v[|v| - 1] < v[k] then |v| - 1 else k
  }

  /** When all values are equal, the worst and the best vertex are both the
      first one. */
  lemma AllEqualPicksFirst(v: seq<real>)
    requires |v| > 0 && forall i :: 0 <= i < |v| ==> v[i] == v[0]
    ensures ArgMax(v) == 0 && ArgMin(v) == 0
  {
  }

  /** Sum of coordinate j over the rows. */
  function ColumnSum(rows: Rows, j: nat): real
    requires forall i :: 0 <= i < |rows| ==> j < |rows[i]|
    decreases |rows|
  {
    if |rows| == 0 then 0.0 else ColumnSum(rows[..|rows| - 1], j) + rows[|rows| - 1][j]
  }

  function Delete(s: Rows, w: nat): (r: Rows)
    requires w < |s|
    ensures |r| == |s| - 1
  {
    s[..w] + s[w + 1..]
  }

  /** Removing one row removes its contribution to every column sum. */
  lemma {:induction false} ColumnSumDelete(s: Rows, w: nat, j: nat)
    requires w < |s| && forall i :: 0 <= i < |s| ==> j < |s[i]|
    ensures forall i :: 0 <= i < |Delete(s, w)| ==> j < |Delete(s, w)[i]|
    ensures ColumnSum(Delete(s, w), j) + s[w][j] == ColumnSum(s, j)
    decreases |s|
  {
    if w == |s| - 1 {
      assert Delete(s, w) == s[..|s| - 1];
    } else {
      var init := s[..|s| - 1];
      ColumnSumDelete(init, w, j);
      DeleteInit(s, w);
    }
  }

  /** Deleting a row other than the last commutes with dropping the last. */
  lemma DeleteInit(s: Rows, w: nat)
    requires w < |s| - 1
    ensures var d := Delete(s, w);
      d[..|d| - 1] == Delete(s[..|s| - 1], w) && d[|d| - 1] == s[|s| - 1]
  {
    var d := Delete(s, w);
    var e := Delete(s[..|s| - 1], w);
    assert |d[..|d| - 1]| == |e|;
    forall i | 0 <= i < |e|
      ensures d[i] == e[i]
    {
      if i < w {
        assert d[i] == s[i] && e[i] == s[i];
      } else {
        assert d[i] == s[i + 1] && e[i] == s[i + 1];
      }
    }
  }

  /** The centroid of every vertex but w: np.mean of the remaining rows. */
  function Centroid(s: Rows, n: nat, w: nat): (xc: Point)
    requires Shape(s, n) && n > 0 && w <= n
    ensures |xc| == n
    ensures forall j :: 0 <= j < n ==> n as real * xc[j] + s[w][j] == ColumnSum(s, j)
  {
    var rest := Delete(s, w);
    assert forall i :: 0 <= i < |rest| ==> |rest[i]| == n by {
      forall i | 0 <= i < |rest|
        ensures |rest[i]| == n
      {
        assert rest[i] == if i < w then s[i] else s[i + 1];
      }
    }
    forall j | 0 <= j < n
      ensures ColumnSum(rest, j) + s[w][j] == ColumnSum(s, j)
    {
      ColumnSumDelete(s, w, j);
    }
    seq(n, j requires 0 <= j < n => ColumnSum(rest, j) / n as real)
  }

  /** xr = 2 xc - worst. */
  function Reflect(xc: Point, w: Point): (xr: Point)
    requires |xc| == |w|
    ensures |xr| == |w|
  {
    seq(|w|, j requires 0 <= j < |w| => 2.0 * xc[j] - w[j])
  }

  /** xk = (worst + xc) / 2. */
  function Contract(w: Point, xc: Point): (xk: Point)
    requires |xc| == |w|
    ensures |xk| == |w|
  {
    seq(|w|, j requires 0 <= j < |w| => (w[j] + xc[j]) / 2.0)
  }

  function Midpoint(u: Point, v: Point): (m: Point)
    requires |u| == |v|
    ensures |m| == |u|
  {
    seq(|u|, j requires 0 <= j < |u| => (u[j] + v[j]) / 2.0)
  }

  /** The centroid is the midpoint of the worst vertex and its reflection,
      and the contracted point lies a quarter of the way from the worst
      vertex to the reflected one. */
  lemma ReflectContractGeometry(xc: Point, w: Point)
    requires |xc| == |w|
    ensures Midpoint(Reflect(xc, w), w) == xc
    ensures forall j :: 0 <= j < |w| ==> Contract(w, xc)[j] == w[j] + (Reflect(xc, w)[j] - w[j]) / 4.0
  {
  }

  /** `simplex[1:] = (simplex[1:] + simplex[best]) / 2`: the right-hand side
      is computed from the rows before the assignment. */
  function Shrink(s: Rows, b: nat): (r: Rows)
    requires |s| > 0 && b < |s| && forall i :: 0 <= i < |s| ==> |s[i]| == |s[b]|
    ensures |r| == |s| && r[0] == s[0]
    ensures forall i :: 1 <= i < |s| ==> r[i] == Midpoint(s[i], s[b])
  {
    [s[0]] + seq(|s| - 1, i requires 0 <= i < |s| - 1 => Midpoint(s[i + 1], s[b]))
  }

  /** Shrinking keeps the best vertex where it is ... */
  lemma ShrinkKeepsBest(s: Rows, b: nat)
    requires |s| > 0 && b < |s| && forall k :: 0 <= k < |s| ==> |s[k]| == |s[b]|
    ensures Shrink(s, b)[b] == s[b]
  {
    MidpointSelf(s[b]);
  }

  /** ... and moves every vertex after the first to a quarter of its squared
      distance from it. */
  lemma ShrinkHalvesDistance(s: Rows, b: nat, i: nat)
    requires |s| > 0 && b < |s| && forall k :: 0 <= k < |s| ==> |s[k]| == |s[b]|
    requires 1 <= i < |s|
    ensures SqDist(Shrink(s, b)[i], s[b]) == SqDist(s[i], s[b]) / 4.0
  {
    var m := Shrink(s, b)[i];
    MidpointHalf(m, s[i], s[b]);
  }

  lemma MidpointHalf(m: Point, u: Point, v: Point)
    requires |u| == |v| && m == Midpoint(u, v)
    ensures SqDist(m, v) == SqDist(u, v) / 4.0
  {
    SqDistHalved(m, u, v);
  }

  lemma MidpointSelf(u: Point)
    ensures Midpoint(u, u) == u
  {
    assert forall j :: 0 <= j < |u| ==> Midpoint(u, u)[j] == u[j];
  }

  lemma {:induction false} SqDistHalved(m: Point, u: Point, v: Point)
    requires |m| == |u| == |v|
    requires forall j :: 0 <= j < |u| ==> m[j] == (u[j] + v[j]) / 2.0
    ensures SqDist(m, v) == SqDist(u, v) / 4.0
    decreases |u|
  {
    if |u| > 0 {
      SqDistHalved(m[1..], u[1..], v[1..]);
      assert m[0] - v[0] == (u[0] - v[0]) / 2.0;
    }
  }

  datatype Move = Reflected | Contracted | Shrunk

  /** The outcome of one pass: the new vertices, the worst and best indices
      chosen from the values before the pass, and the move made. */
  datatype Pass = Pass(rows: Rows, worst: nat, best: nat, move: Move)

  function Values(s: Rows, f: Point -> real): (v: seq<real>)
    ensures |v| == |s| && forall i :: 0 <= i < |s| ==> v[i] == f(s[i])
  {
    seq(|s|, i requires 0 <= i < |s| => f(s[i]))
  }

  /** One pass of the loop body. */
  function Step(s: Rows, n: nat, f: Point -> real): (p: Pass)
    requires Shape(s, n) && n > 0
    ensures Shape(p.rows, n) && p.worst <= n && p.best <= n
    ensures p.worst == ArgMax(Values(s, f)) && p.best == ArgMin(Values(s, f))
    ensures forall i :: 0 <= i <= n ==> f(s[p.best]) <= f(s[i]) <= f(s[p.worst])
    ensures p.move == Reflected <==>
      f(Reflect(Centroid(s, n, p.worst), s[p.worst])) <= f(s[p.worst])
    ensures p.move == Contracted <==>
      f(Reflect(Centroid(s, n, p.worst), s[p.worst])) > f(s[p.worst]) &&
      f(Contract(s[p.worst], Centroid(s, n, p.worst))) < f(s[p.worst])
    ensures p.move != Shrunk ==>
      (forall i :: 0 <= i <= n && i != p.worst ==> p.rows[i] == s[i]) &&
      f(p.rows[p.worst]) <= f(s[p.worst])
    ensures p.move == Reflected ==> p.rows[p.worst] == Reflect(Centroid(s, n, p.worst), s[p.worst])
    ensures p.move == Contracted ==> p.rows[p.worst] == Contract(s[p.worst], Centroid(s, n, p.worst))
    ensures p.move == Shrunk ==> p.rows == Shrink(s, p.best)
  {
    var values := Values(s, f);
    var worst := ArgMax(values);
    var best := ArgMin(values);
    var xc := Centroid(s, n, worst);
    var xr := Reflect(xc, s[worst]);
    if f(xr) <= values[worst] then
      UpdateShape(s, n, worst, xr);
      Pass(s[worst := xr], worst, best, Reflected)
    else
      var xk := Contract(s[worst], xc);
      if f(xk) < values[worst] then
        UpdateShape(s, n, worst, xk);
        Pass(s[worst := xk], worst, best, Contracted)
      else
        ShrinkShape(s, n, best);
        Pass(Shrink(s, best), worst, best, Shrunk)
  }

  lemma UpdateShape(s: Rows, n: nat, w: nat, x: Point)
    requires Shape(s, n) && w <= n && |x| == n
    ensures Shape(s[w := x], n)
  {
  }

  lemma ShrinkShape(s: Rows, n: nat, b: nat)
    requires Shape(s, n) && b <= n
    ensures Shape(Shrink(s, b), n)
  {
  }

  /** A reflection or contraction never raises the largest value. */
  lemma StepKeepsWorstBound(s: Rows, n: nat, f: Point -> real)
    requires Shape(s, n) && n > 0 && Step(s, n, f).move != Shrunk
    ensures var p := Step(s, n, f);
      forall i :: 0 <= i <= n ==> f(p.rows[i]) <= f(s[p.worst])
  {
  }

  // ---------------------------------------------------------------------
  // The stopping test and the loop

  /** The largest |s[i][j] - c[j]| over all rows and coordinates. */
  function MaxDev(s: Rows, c: Point): real
    requires forall i :: 0 <= i < |s| ==> |s[i]| == |c|
    decreases |s|
  {
    if |s| == 0 then 0.0
    else
      var a := MaxDev(s[..|s| - 1], c);
      var b := RowMaxDev(s[|s| - 1], c);
      if a < b then b else a
  }

  function RowMaxDev(u: Point, c: Point): real
    requires |u| == |c|
    decreases |u|
  {
    if |u| == 0 then 0.0
    else
      var a := RowMaxDev(u[..|u| - 1], c[..|c| - 1]);
      var b := Abs(u[|u| - 1] - c[|c| - 1]);
      if a < b then b else a
  }

  /** `np.max(np.abs(simplex - simplex[best])) < tol`. */
  predicate Converged(s: Rows, b: nat, tol: real)
    requires b < |s| && forall i :: 0 <= i < |s| ==> |s[i]| == |s[b]|
  {
    MaxDev(s, s[b]) < tol
  }

  lemma {:induction false} RowMaxDevBelow(u: Point, c: Point, tol: real)
    requires |u| == |c| && tol > 0.0
    ensures RowMaxDev(u, c) < tol <==> forall j :: 0 <= j < |u| ==> Abs(u[j] - c[j]) < tol
    decreases |u|
  {
    if |u| > 0 {
      var u', c' := u[..|u| - 1], c[..|c| - 1];
      RowMaxDevBelow(u', c', tol);
      assert forall j :: 0 <= j < |u'| ==> u'[j] == u[j] && c'[j] == c[j];
    }
  }

  lemma {:induction false} MaxDevBelow(s: Rows, c: Point, tol: real)
    requires forall i :: 0 <= i < |s| ==> |s[i]| == |c|
    requires tol > 0.0
    ensures MaxDev(s, c) < tol <==>
      forall i, j :: 0 <= i < |s| && 0 <= j < |c| ==> Abs(s[i][j] - c[j]) < tol
    decreases |s|
  {
    if |s| > 0 {
      var s' := s[..|s| - 1];
      MaxDevBelow(s', c, tol);
      RowMaxDevBelow(s[|s| - 1], c, tol);
      assert forall i :: 0 <= i < |s'| ==> s'[i] == s[i];
    }
  }

  /** With a positive tolerance, the stopping test holds exactly when every
      coordinate of every vertex is within tol of the best vertex. */
  lemma ConvergedIffClose(s: Rows, b: nat, tol: real)
    requires b < |s| && forall i :: 0 <= i < |s| ==> |s[i]| == |s[b]|
    requires tol > 0.0
    ensures Converged(s, b, tol) <==>
      forall i, j :: 0 <= i < |s| && 0 <= j < |s[b]| ==> Abs(s[i][j] - s[b][j]) < tol
  {
    MaxDevBelow(s, s[b], tol);
  }

  /** Outcome of the loop: the last pass and the number of passes, or the
      fuel ran out first. */
  datatype LoopResult = Found(last: Pass, iterations: nat) | Exhausted

  /** The `while True` loop with at most fuel passes, for any pass function
      `next` and stopping test `stop`. */
  function Loop(next: Rows -> Pass, stop: Pass -> bool, s: Rows, fuel: nat): (r: LoopResult)
    ensures r.Found? ==> 1 <= r.iterations <= fuel && stop(r.last)
    decreases fuel
  {
    if fuel == 0 then Exhausted
    else
      var p := next(s);
      if stop(p) then Found(p, 1)
      else
        match Loop(next, stop, p.rows, fuel - 1)
        case Found(q, k) => Found(q, k + 1)
        case Exhausted => Exhausted
  }

  /** The vertices after k passes, counted from the start. */
  function Iterate(next: Rows -> Pass, s: Rows, k: nat): Rows
    decreases k
  {
    if k == 0 then s else next(Iterate(next, s, k - 1)).rows
  }

  lemma {:induction false} IterateShift(next: Rows -> Pass, s: Rows, k: nat)
    ensures Iterate(next, next(s).rows, k) == Iterate(next, s, k + 1)
    decreases k
  {
    if k > 0 {
      IterateShift(next, s, k - 1);
    }
  }

  /** When the loop returns, its last pass is the first one that meets the
      stopping test, and the pass count says which one it is. */
  lemma {:induction false} LoopFound(next: Rows -> Pass, stop: Pass -> bool, s: Rows, fuel: nat)
    requires Loop(next, stop, s, fuel).Found?
    ensures var r := Loop(next, stop, s, fuel);
      r.last == next(Iterate(next, s, r.iterations - 1)) &&
      forall m :: 0 <= m < r.iterations - 1 ==> !stop(next(Iterate(next, s, m)))
    decreases fuel
  {
    var p := next(s);
    if !stop(p) {
      LoopFound(next, stop, p.rows, fuel - 1);
      var k := Loop(next, stop, p.rows, fuel - 1).iterations;
      IterateShift(next, s, k - 1);
      forall m | 0 <= m < k
        ensures !stop(next(Iterate(next, s, m)))
      {
        if m > 0 {
          assert !stop(next(Iterate(next, p.rows, m - 1)));
          IterateShift(next, s, m - 1);
        }
      }
    }
  }

  /** The loop runs out of fuel only when none of the first fuel passes
      meets the stopping test. */
  lemma {:induction false} LoopExhausted(next: Rows -> Pass, stop: Pass -> bool, s: Rows, fuel: nat)
    requires Loop(next, stop, s, fuel).Exhausted?
    ensures forall m :: 0 <= m < fuel ==> !stop(next(Iterate(next, s, m)))
    decreases fuel
  {
    if fuel > 0 {
      var p := next(s);
      LoopExhausted(next, stop, p.rows, fuel - 1);
      forall m | 0 < m < fuel
        ensures !stop(next(Iterate(next, s, m)))
      {
        assert !stop(next(Iterate(next, p.rows, m - 1)));
        IterateShift(next, s, m - 1);
      }
    }
  }

  /** One pass of the simplex loop as a total function of the vertices
      (vertices of the wrong shape, which never arise, are left alone). */
  function Advance(n: nat, f: Point -> real): Rows -> Pass
  {
    (s: Rows) => if Shape(s, n) && n > 0 then Step(s, n, f) else Pass(s, 0, 0, Shrunk)
  }

  /** The stopping test on the vertices after a pass, measured from the best
      vertex chosen before it. */
  function Stops(tol: real): Pass -> bool
  {
    (p: Pass) => p.best < |p.rows| && (forall i :: 0 <= i < |p.rows| ==> |p.rows[i]| == |p.rows[p.best]|) &&
      Converged(p.rows, p.best, tol)
  }

  function ShapeOf(n: nat): Rows -> bool
  {
    (s: Rows) => n > 0 && Shape(s, n)
  }

  /** Every pass keeps the shape of the simplex. */
  lemma AdvanceKeepsShape(n: nat, f: Point -> real)
    ensures forall t :: ShapeOf(n)(t) ==> ShapeOf(n)(Advance(n, f)(t).rows)
  {
    forall t | ShapeOf(n)(t)
      ensures ShapeOf(n)(Advance(n, f)(t).rows)
    {
      AdvanceShape(t, n, f);
    }
  }

  lemma AdvanceShape(s: Rows, n: nat, f: Point -> real)
    requires Shape(s, n) && n > 0
    ensures Advance(n, f)(s) == Step(s, n, f)
    ensures Shape(Advance(n, f)(s).rows, n) && Advance(n, f)(s).best <= n
  {
  }

  datatype Failure = ZeroSizeMaximum | NotConverged

  /** The loop from a simplex of shape n: the best vertex of the last pass
      and the number of passes. */
  function Search(s0: Rows, n: nat, f: Point -> real, tol: real, fuel: nat): (r: Result<(Point, nat), Failure>)
    requires Shape(s0, n) && n > 0
    ensures r.Ok? ==> |r.value.0| == n && 1 <= r.value.1 <= fuel
    ensures r.Err? ==> r.error == NotConverged
  {
    match Loop(Advance(n, f), Stops(tol), s0, fuel)
    case Exhausted => Err(NotConverged)
    case Found(p, k) =>
      AdvanceKeepsShape(n, f);
      LoopInvariant(Advance(n, f), Stops(tol), ShapeOf(n), s0, fuel);
      Ok((p.rows[p.best], k))
  }

  /** `simplex(f, x0, ...)` with `count_iterations=True`, started from the
      simplex the code builds. For an empty start point the stopping test
      takes the maximum of an empty array, which NumPy refuses. */
  function Minimize(f: Point -> real, x0: Point, d1: real, d2: real, tol: real, fuel: nat): (r: Result<(Point, nat), Failure>)
    ensures |x0| == 0 <==> r == Err(ZeroSizeMaximum)
    ensures r.Ok? ==> |r.value.0| == |x0| && 1 <= r.value.1 <= fuel
  {
    if |x0| == 0 then Err(ZeroSizeMaximum)
    else Search(InitialSimplex(x0, d1, d2), |x0|, f, tol, fuel)
  }

  /** Search returns what the loop's last pass leaves: its best vertex
      and the number of passes. */
  lemma SearchIsLoop(s0: Rows, n: nat, f: Point -> real, tol: real, fuel: nat)
    requires Shape(s0, n) && n > 0
    ensures var r, l := Search(s0, n, f, tol, fuel), Loop(Advance(n, f), Stops(tol), s0, fuel);
      (r.Ok? <==> l.Found?) &&
      (r.Ok? ==> l.last.best < |l.last.rows| && r.value == (l.last.rows[l.last.best], l.iterations))
  {
  }

  /** A pass whose simplex has the shape for n coordinates and whose every
      coordinate lies within tol of the same coordinate of its best vertex. */
  predicate Settled(p: Pass, n: nat, tol: real)
  {
    Shape(p.rows, n) && p.best <= n &&
    forall i, j :: 0 <= i <= n && 0 <= j < n ==> Abs(p.rows[i][j] - p.rows[p.best][j]) < tol
  }

  /** The returned point is the best vertex of the loop's last simplex, and
      that simplex is settled. */
  lemma MinimizeConverged(f: Point -> real, x0: Point, d1: real, d2: real, tol: real, fuel: nat)
    requires tol > 0.0
    ensures var r := Minimize(f, x0, d1, d2, tol, fuel);
      r.Ok? ==>
        var l := Loop(Advance(|x0|, f), Stops(tol), InitialSimplex(x0, d1, d2), fuel);
        l.Found? && Settled(l.last, |x0|, tol) && r.value.0 == l.last.rows[l.last.best]
  {
    if |x0| > 0 {
      SearchConverged(InitialSimplex(x0, d1, d2), |x0|, f, tol, fuel);
    }
  }

  /** The same statement for a search from any simplex of the right shape. */
  lemma SearchConverged(s0: Rows, n: nat, f: Point -> real, tol: real, fuel: nat)
    requires Shape(s0, n) && n > 0 && tol > 0.0
    ensures var r := Search(s0, n, f, tol, fuel);
      r.Ok? ==>
        var l := Loop(Advance(n, f), Stops(tol), s0, fuel);
        l.Found? && Settled(l.last, n, tol) && r.value.0 == l.last.rows[l.last.best]
  {
    var next := Advance(n, f);
    SearchIsLoop(s0, n, f, tol, fuel);
    if Loop(next, Stops(tol), s0, fuel).Found? {
      AdvanceKeepsShape(n, f);
      LastPassClose(next, s0, n, tol, fuel);
    }
  }

  /** For any pass function that keeps the shape, a loop that returned ends
      in a settled pass. */
  lemma LastPassClose(next: Rows -> Pass, s0: Rows, n: nat, tol: real, fuel: nat)
    requires tol > 0.0 && ShapeOf(n)(s0)
    ensures var l := Loop(next, Stops(tol), s0, fuel);
      (forall t :: ShapeOf(n)(t) ==> ShapeOf(n)(next(t).rows)) && l.Found? ==> Settled(l.last, n, tol)
  {
    var l := Loop(next, Stops(tol), s0, fuel);
    if (forall t :: ShapeOf(n)(t) ==> ShapeOf(n)(next(t).rows)) && l.Found? {
      LoopInvariant(next, Stops(tol), ShapeOf(n), s0, fuel);
      ConvergedIffClose(l.last.rows, l.last.best, tol);
    }
  }

  /** The loop's last pass keeps any property every pass preserves. */
  lemma {:induction false} LoopInvariant(next: Rows -> Pass, stop: Pass -> bool, inv: Rows -> bool, s: Rows, fuel: nat)
    requires inv(s) && forall t :: inv(t) ==> inv(next(t).rows)
    ensures Loop(next, stop, s, fuel).Found? ==> inv(Loop(next, stop, s, fuel).last.rows)
    decreases fuel
  {
    if fuel > 0 {
      LoopInvariant(next, stop, inv, next(s).rows, fuel - 1);
    }
  }

  /** Pass `last`, the k-th of the loop from s, is the first whose stopping
      test holds. */
  ghost predicate FirstStopAt(next: Rows -> Pass, stop: Pass -> bool, s: Rows, k: nat, last: Pass)
  {
    k >= 1 && last == next(Iterate(next, s, k - 1)) && stop(last) &&
    forall m :: 0 <= m < k - 1 ==> !stop(next(Iterate(next, s, m)))
  }

  /** Minimize returns the best vertex of the first pass whose stopping test
      holds, with the number of that pass. */
  lemma MinimizeStopsAtFirstConvergedPass(f: Point -> real, x0: Point, d1: real, d2: real, tol: real, fuel: nat)
    ensures var r := Minimize(f, x0, d1, d2, tol, fuel);
      r.Ok? ==>
        var l := Loop(Advance(|x0|, f), Stops(tol), InitialSimplex(x0, d1, d2), fuel);
        l.Found? && l.last.best < |l.last.rows| && r.value == (l.last.rows[l.last.best], l.iterations) &&
        FirstStopAt(Advance(|x0|, f), Stops(tol), InitialSimplex(x0, d1, d2), l.iterations, l.last)
  {
    if |x0| > 0 {
      SearchStopsAtFirstConvergedPass(InitialSimplex(x0, d1, d2), |x0|, f, tol, fuel);
    }
  }

  /** The same statement for a search from any simplex of the right shape. */
  lemma SearchStopsAtFirstConvergedPass(s0: Rows, n: nat, f: Point -> real, tol: real, fuel: nat)
    requires Shape(s0, n) && n > 0
    ensures var r := Search(s0, n, f, tol, fuel);
      r.Ok? ==>
        var l := Loop(Advance(n, f), Stops(tol), s0, fuel);
        l.Found? && l.last.best < |l.last.rows| && r.value == (l.last.rows[l.last.best], l.iterations) &&
        FirstStopAt(Advance(n, f), Stops(tol), s0, l.iterations, l.last)
  {
    SearchIsLoop(s0, n, f, tol, fuel);
    FirstStop(Advance(n, f), Stops(tol), s0, fuel);
  }

  /** `LoopFound` for a loop that may not have returned. */
  lemma FirstStop(next: Rows -> Pass, stop: Pass -> bool, s: Rows, fuel: nat)
    ensures var l := Loop(next, stop, s, fuel);
      l.Found? ==> FirstStopAt(next, stop, s, l.iterations, l.last)
  {
    if Loop(next, stop, s, fuel).Found? {
      LoopFound(next, stop, s, fuel);
    }
  }
}
