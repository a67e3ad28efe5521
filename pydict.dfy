/** A Python `dict`: a finite map that remembers the order in which its keys
    were first inserted. Assigning to a key that is already present replaces
    its value and keeps its position; a new key goes to the end. The dict is
    a sequence of (key, value) pairs in iteration order. */
module PyDict {
  import opened Wrappers

  type Dict<K, V> = seq<(K, V)>

  /** `d.keys()` in iteration order. */
  function Keys<K, V>(d: Dict<K, V>): (ks: seq<K>)
    ensures |ks| == |d|
    ensures forall i :: 0 <= i < |d| ==> ks[i] == d[i].0
  {
    seq(|d|, i requires 0 <= i < |d| => d[i].0)
  }

  /** `d.values()` in iteration order. */
  function Values<K, V>(d: Dict<K, V>): (vs: seq<V>)
    ensures |vs| == |d|
    ensures forall i :: 0 <= i < |d| ==> vs[i] == d[i].1
  {
    seq(|d|, i requires 0 <= i < |d| => d[i].1)
  }

  /** No key occurs twice: what every dict built by `Put` satisfies. */
  predicate UniqueKeys<K(==), V>(d: Dict<K, V>)
  {
    forall i, j :: 0 <= i < j < |d| ==> d[i].0 != d[j].0
  }

  /** The position of the first occurrence of `k` in `ks`, or `|ks|`. */
  function IndexOf<K(==)>(ks: seq<K>, k: K): (i: nat)
    ensures i <= |ks|
    ensures i < |ks| ==> ks[i] == k
    ensures forall j :: 0 <= j < i ==> ks[j] != k
  {
    if ks == [] then 0
    else if ks[0] == k then 0
    else 1 + IndexOf(ks[1..], k)
  }

  /** `d.get(k)`. */
  function Get<K(==), V>(d: Dict<K, V>, k: K): (r: Option<V>)
    ensures r.None? <==> k !in Keys(d)
  {
    var i := IndexOf(Keys(d), k);
    if i < |d| then Some(d[i].1) else None
  }

  /** `d[k] = v`. */
  function Put<K(==, !new), V>(d: Dict<K, V>, k: K, v: V): (r: Dict<K, V>)
    ensures UniqueKeys(d) ==> UniqueKeys(r)
    ensures Get(r, k) == Some(v)
    ensures forall j :: j != k ==> Get(r, j) == Get(d, j)
    ensures k in Keys(d) ==> Keys(r) == Keys(d)
    ensures k !in Keys(d) ==> r == d + [(k, v)]
  {
    var i := IndexOf(Keys(d), k);
    if i < |d| then
      assert Keys(d[i := (k, v)]) == Keys(d);
      d[i := (k, v)]
    else
      var r := d + [(k, v)];
      assert Keys(r) == Keys(d) + [k];
      IndexOfAppend(Keys(d), k);
      r
  }

  lemma IndexOfAppend<K>(ks: seq<K>, k: K)
    ensures forall j :: j != k ==> IndexOf(ks + [k], j) == if IndexOf(ks, j) < |ks| then IndexOf(ks, j) else |ks| + 1
  {
    forall j | j != k ensures IndexOf(ks + [k], j) == if IndexOf(ks, j) < |ks| then IndexOf(ks, j) else |ks| + 1 {
      var a, b := IndexOf(ks, j), IndexOf(ks + [k], j);
      if a < |ks| {
        assert (ks + [k])[a] == j;
      } else {
        assert (ks + [k])[|ks|] != j;
      }
    }
  }

  /** `{k: v for (k, v) in pairs}`: later pairs overwrite earlier ones. */
  function FromPairs<K(==, !new), V>(pairs: seq<(K, V)>): (d: Dict<K, V>)
    ensures UniqueKeys(d)
  {
    if pairs == [] then []
    else
      var last := pairs[|pairs| - 1];
      Put(FromPairs(pairs[..|pairs| - 1]), last.0, last.1)
  }

  /** The value of the last pair in `pairs` whose key is `k`. */
  function LastValue<K(==), V>(pairs: seq<(K, V)>, k: K): Option<V>
  {
    if pairs == [] then None
    else if pairs[|pairs| - 1].0 == k then Some(pairs[|pairs| - 1].1)
    else LastValue(pairs[..|pairs| - 1], k)
  }

  /** A comprehension keeps, for each key, the value of its last occurrence. */
  lemma {:induction false} FromPairsGet<K(!new), V>(pairs: seq<(K, V)>, k: K)
    ensures Get(FromPairs(pairs), k) == LastValue(pairs, k)
  {
    if pairs != [] {
      FromPairsGet(pairs[..|pairs| - 1], k);
    }
  }

  /** `k` has a last value exactly when some pair has key `k`. */
  lemma {:induction false} LastValueSome<K, V>(pairs: seq<(K, V)>, k: K)
    ensures LastValue(pairs, k).Some? <==> exists i :: 0 <= i < |pairs| && pairs[i].0 == k
  {
    if pairs != [] {
      var init := pairs[..|pairs| - 1];
      LastValueSome(init, k);
      if exists i :: 0 <= i < |pairs| && pairs[i].0 == k {
        var i :| 0 <= i < |pairs| && pairs[i].0 == k;
        if i < |init| {
          assert init[i].0 == k;
        }
      }
      if exists i :: 0 <= i < |init| && init[i].0 == k {
        var i :| 0 <= i < |init| && init[i].0 == k;
        assert pairs[i].0 == k;
      }
    }
  }

  /** The last value of `k` comes from a pair with key `k` after which no
      pair has that key. */
  lemma {:induction false} LastValueLatest<K, V>(pairs: seq<(K, V)>, k: K, v: V)
    requires LastValue(pairs, k) == Some(v)
    ensures exists j :: (0 <= j < |pairs| && pairs[j] == (k, v) &&
      forall j' :: j < j' < |pairs| ==> pairs[j'].0 != k)
  {
    var n := |pairs|;
    if pairs[n - 1].0 != k {
      var init := pairs[..n - 1];
      LastValueLatest(init, k, v);
      var j :| 0 <= j < |init| && init[j] == (k, v) && forall j' :: j < j' < |init| ==> init[j'].0 != k;
      assert pairs[j] == (k, v);
      forall j' | j < j' < n ensures pairs[j'].0 != k {
        if j' < n - 1 {
          assert pairs[j'] == init[j'];
        }
      }
    } else {
      assert pairs[n - 1] == (k, v);
    }
  }

  /** The keys of a comprehension are exactly the keys of its pairs. */
  lemma FromPairsKeys<K(!new), V>(pairs: seq<(K, V)>, k: K)
    ensures k in Keys(FromPairs(pairs)) <==> exists i :: 0 <= i < |pairs| && pairs[i].0 == k
  {
    FromPairsGet(pairs, k);
    LastValueSome(pairs, k);
  }

  /** Built from pairs whose keys never decrease, the dict's keys strictly
      increase, and every key is at most the last pair's key. */
  lemma {:induction false} FromPairsOrdered(pairs: seq<(int, real)>)
    requires forall i, j :: 0 <= i < j < |pairs| ==> pairs[i].0 <= pairs[j].0
    ensures forall i, j :: 0 <= i < j < |FromPairs(pairs)| ==> FromPairs(pairs)[i].0 < FromPairs(pairs)[j].0
    ensures forall i :: 0 <= i < |FromPairs(pairs)| ==> FromPairs(pairs)[i].0 <= pairs[|pairs| - 1].0
  {
    if pairs != [] {
      var init := pairs[..|pairs| - 1];
      var last := pairs[|pairs| - 1];
      FromPairsOrdered(init);
      var d := FromPairs(init);
      if last.0 in Keys(d) {
        assert Keys(FromPairs(pairs)) == Keys(d);
      } else {
        assert FromPairs(pairs) == d + [last];
        if init != [] {
          assert init[|init| - 1].0 <= last.0;
        }
      }
    }
  }

  /** With unique keys, looking up the key at position `i` finds its value. */
  lemma GetAt<K, V>(d: Dict<K, V>, i: nat)
    requires UniqueKeys(d)
    requires i < |d|
    ensures Get(d, d[i].0) == Some(d[i].1)
  {
    var j := IndexOf(Keys(d), d[i].0);
    assert Keys(d)[i] == d[i].0;
    assert j <= i;
    assert j < |d| && d[j].0 == d[i].0;
  }
}
