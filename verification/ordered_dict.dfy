/** Python's `dict` as an insertion-ordered list of (key, value) items with
    distinct keys.  Both `dict(pairs)` in `lagrange.py` and the constraint
    registry of `functions.py` are built with these semantics. */
module OrderedDict {

  type Dict<K, V> = seq<(K, V)>

  function Keys<K, V>(d: Dict<K, V>): (ks: seq<K>)
    ensures |ks| == |d|
    ensures forall i :: 0 <= i < |d| ==> ks[i] == d[i].0
  {
    seq(|d|, i requires 0 <= i < |d| => d[i].0)
  }

  function Values<K, V>(d: Dict<K, V>): (vs: seq<V>)
    ensures |vs| == |d|
    ensures forall i :: 0 <= i < |d| ==> vs[i] == d[i].1
  {
    seq(|d|, i requires 0 <= i < |d| => d[i].1)
  }

  predicate DistinctKeys<K(==), V>(d: Dict<K, V>)
  {
    forall i, j :: 0 <= i < j < |d| ==> d[i].0 != d[j].0
  }

  /** Position of key k. */
  function IndexOf<K(==), V>(d: Dict<K, V>, k: K): (i: nat)
    requires k in Keys(d)
    ensures i < |d| && d[i].0 == k
    ensures forall j :: 0 <= j < i ==> d[j].0 != k
    decreases |d|
  {
    if d[0].0 == k then 0 else
      assert k in Keys(d[1..]) by {
        var j :| 0 <= j < |d| && Keys(d)[j] == k;
        assert Keys(d[1..])[j - 1] == k;
      }
      1 + IndexOf(d[1..], k)
  }

  /** `d[k]`. */
  function Get<K(==), V>(d: Dict<K, V>, k: K): V
    requires k in Keys(d)
  {
    d[IndexOf(d, k)].1
  }

  /** `d[k] = v`: an existing key keeps its position and takes the new value,
      a new key goes to the end. */
  function Set<K(==), V>(d: Dict<K, V>, k: K, v: V): (r: Dict<K, V>)
    requires DistinctKeys(d)
    ensures DistinctKeys(r)
    ensures k in Keys(d) ==> Keys(r) == Keys(d)
    ensures k !in Keys(d) ==> Keys(r) == Keys(d) + [k]
    ensures k in Keys(r) && Get(r, k) == v
    ensures forall k' :: k' in Keys(d) && k' != k ==> k' in Keys(r) && Get(r, k') == Get(d, k')
  {
    if k in Keys(d) then
      ReplaceKeeps(d, k, v);
      d[IndexOf(d, k) := (k, v)]
    else
      AppendKeeps(d, k, v);
      d + [(k, v)]
  }

  /** Overwriting the value of a present key. */
  lemma ReplaceKeeps<K, V>(d: Dict<K, V>, k: K, v: V)
    requires DistinctKeys(d) && k in Keys(d)
    ensures var r := d[IndexOf(d, k) := (k, v)];
      DistinctKeys(r) && Keys(r) == Keys(d) && k in Keys(r) && Get(r, k) == v &&
      forall k' :: k' in Keys(d) && k' != k ==> k' in Keys(r) && Get(r, k') == Get(d, k')
  {
    var i := IndexOf(d, k);
    var r := d[i := (k, v)];
    assert Keys(r) == Keys(d);
    assert IndexOf(r, k) == i;
    forall k' | k' in Keys(d) && k' != k
      ensures IndexOf(r, k') == IndexOf(d, k')
    {
      KeyUnique(r, IndexOf(r, k'), IndexOf(d, k'));
    }
  }

  /** Adding an absent key at the end. */
  lemma AppendKeeps<K, V>(d: Dict<K, V>, k: K, v: V)
    requires DistinctKeys(d) && k !in Keys(d)
    ensures var r := d + [(k, v)];
      DistinctKeys(r) && Keys(r) == Keys(d) + [k] && k in Keys(r) && Get(r, k) == v &&
      forall k' :: k' in Keys(d) && k' != k ==> k' in Keys(r) && Get(r, k') == Get(d, k')
  {
    var r := d + [(k, v)];
    assert Keys(r) == Keys(d) + [k];
    forall k' | k' in Keys(d) && k' != k
      ensures IndexOf(r, k') == IndexOf(d, k')
    {
      KeyUnique(r, IndexOf(r, k'), IndexOf(d, k'));
    }
    KeyUnique(r, IndexOf(r, k), |d|);
  }

  lemma KeyUnique<K, V>(d: Dict<K, V>, i: nat, j: nat)
    requires DistinctKeys(d) && i < |d| && j < |d| && d[i].0 == d[j].0
    ensures i == j
  {
  }

  /** `dict(pairs)`: the pairs assigned one after the other. */
  function FromPairs<K(==), V>(ps: seq<(K, V)>): (d: Dict<K, V>)
    ensures DistinctKeys(d)
    decreases |ps|
  {
    if |ps| == 0 then [] else
      var last := ps[|ps| - 1];
      Set(FromPairs(ps[..|ps| - 1]), last.0, last.1)
  }

  /** The keys in order of first occurrence, duplicates dropped. */
  function FirstOccurrences<K(==)>(ks: seq<K>): seq<K>
    decreases |ks|
  {
    if |ks| == 0 then [] else
      var prefix := FirstOccurrences(ks[..|ks| - 1]);
      if ks[|ks| - 1] in prefix then prefix else prefix + [ks[|ks| - 1]]
  }

  lemma {:induction false} FirstOccurrencesMembers<K>(ks: seq<K>)
    ensures forall k :: k in FirstOccurrences(ks) <==> k in ks
    decreases |ks|
  {
    if |ks| > 0 {
      FirstOccurrencesMembers(ks[..|ks| - 1]);
      assert ks == ks[..|ks| - 1] + [ks[|ks| - 1]];
    }
  }

  function Firsts<K, V>(ps: seq<(K, V)>): (ks: seq<K>)
    ensures |ks| == |ps|
    ensures forall i :: 0 <= i < |ps| ==> ks[i] == ps[i].0
  {
    Keys(ps)
  }

  /** `dict(pairs)` lists each key once, at the position where it first
      occurred in the pairs. */
  lemma {:induction false} FromPairsKeyOrder<K, V>(ps: seq<(K, V)>)
    ensures Keys(FromPairs(ps)) == FirstOccurrences(Firsts(ps))
    decreases |ps|
  {
    if |ps| > 0 {
      var init := ps[..|ps| - 1];
      FromPairsKeyOrder(init);
      assert Firsts(ps)[..|ps| - 1] == Firsts(init);
    }
  }

  /** The value of the last pair whose key is k. */
  function LastValue<K(==), V>(ps: seq<(K, V)>, k: K): V
    requires k in Firsts(ps)
    decreases |ps|
  {
    if ps[|ps| - 1].0 == k then ps[|ps| - 1].1 else
      assert k in Firsts(ps[..|ps| - 1]) by {
        var i :| 0 <= i < |ps| && Firsts(ps)[i] == k;
        assert Firsts(ps[..|ps| - 1])[i] == k;
      }
      LastValue(ps[..|ps| - 1], k)
  }

  /** In `dict(pairs)` a repeated key holds the value of its last pair. */
  lemma {:induction false} FromPairsLastWins<K, V>(ps: seq<(K, V)>, k: K)
    requires k in Firsts(ps)
    ensures k in Keys(FromPairs(ps)) && Get(FromPairs(ps), k) == LastValue(ps, k)
    decreases |ps|
  {
    var init := ps[..|ps| - 1];
    if ps[|ps| - 1].0 != k {
      assert k in Firsts(init) by {
        var i :| 0 <= i < |ps| && Firsts(ps)[i] == k;
        assert Firsts(init)[i] == k;
      }
      FromPairsLastWins(init, k);
    }
  }

  /** With no repeated key, `dict(pairs)` keeps every pair as it is. */
  lemma {:induction false} FromPairsDistinct<K, V>(ps: seq<(K, V)>)
    requires DistinctKeys(ps)
    ensures FromPairs(ps) == ps
    decreases |ps|
  {
    if |ps| > 0 {
      var init := ps[..|ps| - 1];
      FromPairsDistinct(init);
      var k := ps[|ps| - 1].0;
      assert k !in Keys(init) by {
        forall i | 0 <= i < |init|
          ensures Keys(init)[i] != k
        {
          assert ps[i].0 != ps[|ps| - 1].0;
        }
      }
      assert init + [(k, ps[|ps| - 1].1)] == ps;
      assert FromPairs(ps) == Set(init, k, ps[|ps| - 1].1);
    }
  }

  lemma {:induction false} FirstOccurrencesLength<K>(ks: seq<K>)
    ensures |FirstOccurrences(ks)| <= |ks|
    decreases |ks|
  {
    if |ks| > 0 {
      FirstOccurrencesLength(ks[..|ks| - 1]);
    }
  }

  /** A repeated key shortens the list of first occurrences. */
  lemma {:induction false} FirstOccurrencesShorter<K>(ks: seq<K>, i: nat, j: nat)
    requires i < j < |ks| && ks[i] == ks[j]
    ensures |FirstOccurrences(ks)| < |ks|
    decreases |ks|
  {
    var init := ks[..|ks| - 1];
    if j == |ks| - 1 {
      assert ks[i] == init[i];
      FirstOccurrencesMembers(init);
      FirstOccurrencesLength(init);
    } else {
      assert init[i] == init[j];
      FirstOccurrencesShorter(init, i, j);
    }
  }

  /** `len(dict(pairs))` is at most the number of pairs, and strictly less
      when some key repeats. */
  lemma FromPairsLength<K, V>(ps: seq<(K, V)>)
    ensures |FromPairs(ps)| <= |ps|
    ensures (exists i, j :: 0 <= i < j < |ps| && ps[i].0 == ps[j].0) ==> |FromPairs(ps)| < |ps|
  {
    FromPairsKeyOrder(ps);
    FirstOccurrencesLength(Firsts(ps));
    if exists i, j :: 0 <= i < j < |ps| && ps[i].0 == ps[j].0 {
      var i, j :| 0 <= i < j < |ps| && ps[i].0 == ps[j].0;
      FirstOccurrencesShorter(Firsts(ps), i, j);
    }
  }
}
