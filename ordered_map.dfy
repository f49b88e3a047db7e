/** Python's insertion-ordered dictionaries (`collections.OrderedDict`, and
    `dict` since Python 3.7): assigning to a new key appends it, assigning to a
    present key replaces its value and keeps its position. */
module OrderedMaps {

  datatype OrderedMap<K(==,!new), V> = OrderedMap(keys: seq<K>, values: map<K, V>)

  /** The keys are listed once each, and exactly the keys of `values`. */
  ghost predicate Valid<K(!new), V>(m: OrderedMap<K, V>) {
    && (forall i, j :: 0 <= i < j < |m.keys| ==> m.keys[i] != m.keys[j])
    && (forall k :: k in m.values <==> k in m.keys)
  }

  function Empty<K(==,!new), V>(): (r: OrderedMap<K, V>)
    ensures Valid(r) && r.keys == [] && r.values == map[]
  {
    OrderedMap([], map[])
  }

  /** `d[k] = v`. */
  function Put<K(==,!new), V>(m: OrderedMap<K, V>, k: K, v: V): (r: OrderedMap<K, V>)
    requires Valid(m)
    ensures Valid(r)
    ensures r.values == m.values[k := v]
    ensures k in m.values ==> r.keys == m.keys
    ensures k !in m.values ==> r.keys == m.keys + [k]
  {
    if k in m.values then OrderedMap(m.keys, m.values[k := v])
    else OrderedMap(m.keys + [k], m.values[k := v])
  }

  /** `OrderedDict(pairs)`: the pairs assigned one after the other. */
  function FromPairs<K(==,!new), V>(pairs: seq<(K, V)>): (r: OrderedMap<K, V>)
    ensures Valid(r)
  {
    if |pairs| == 0 then Empty()
    else Put(FromPairs(pairs[..|pairs| - 1]), pairs[|pairs| - 1].0, pairs[|pairs| - 1].1)
  }

  /** `k` is the key of some pair. */
  predicate HasKey<K(==,!new), V>(pairs: seq<(K, V)>, k: K) {
    exists i :: 0 <= i < |pairs| && pairs[i].0 == k
  }

  /** The index of the first pair whose key is `k`. */
  function FirstIndex<K(==,!new), V>(pairs: seq<(K, V)>, k: K): (i: nat)
    requires HasKey(pairs, k)
    ensures i < |pairs| && pairs[i].0 == k
    ensures forall j :: 0 <= j < i ==> pairs[j].0 != k
  {
    if pairs[0].0 == k then 0
    else
      assert HasKey(pairs[1..], k) by {
        var i :| 0 <= i < |pairs| && pairs[i].0 == k;
        assert pairs[1..][i - 1].0 == k;
      }
      1 + FirstIndex(pairs[1..], k)
  }

  /** The index of the last pair whose key is `k`. */
  function LastIndex<K(==,!new), V>(pairs: seq<(K, V)>, k: K): (i: nat)
    requires HasKey(pairs, k)
    ensures i < |pairs| && pairs[i].0 == k
    ensures forall j :: i < j < |pairs| ==> pairs[j].0 != k
  {
    var n := |pairs|;
    if pairs[n - 1].0 == k then n - 1
    else
      assert HasKey(pairs[..n - 1], k) by {
        var i :| 0 <= i < n && pairs[i].0 == k;
        assert pairs[..n - 1][i].0 == k;
      }
      LastIndex(pairs[..n - 1], k)
  }

  /** A key is present exactly when some pair has it, and then its value is the
      value of the LAST pair with that key. */
  lemma {:induction false} FromPairsValues<K(!new), V>(pairs: seq<(K, V)>, k: K, i: nat)
    requires i < |pairs| && pairs[i].0 == k
    requires forall j :: i < j < |pairs| ==> pairs[j].0 != k
    ensures k in FromPairs(pairs).values && FromPairs(pairs).values[k] == pairs[i].1
  {
    var n := |pairs|;
    if i < n - 1 {
      FromPairsValues(pairs[..n - 1], k, i);
    }
  }

  /** The keys are exactly the keys of the pairs. */
  lemma {:induction false} FromPairsKeys<K(!new), V>(pairs: seq<(K, V)>, k: K)
    ensures k in FromPairs(pairs).values <==> HasKey(pairs, k)
  {
    var n := |pairs|;
    if n > 0 {
      FromPairsKeys(pairs[..n - 1], k);
      if HasKey(pairs[..n - 1], k) {
        var i :| 0 <= i < n - 1 && pairs[..n - 1][i].0 == k;
        assert pairs[i].0 == k;
      }
      if HasKey(pairs, k) && pairs[n - 1].0 != k {
        var i :| 0 <= i < n && pairs[i].0 == k;
        assert pairs[..n - 1][i].0 == k;
      }
    }
  }

  /** The keys are listed in the order of their first occurrence among the
      pairs: a later position holds a key first seen later. */
  lemma {:induction false} FromPairsOrder<K(!new), V>(pairs: seq<(K, V)>, a: nat, b: nat)
    requires a < b < |FromPairs(pairs).keys|
    ensures HasKey(pairs, FromPairs(pairs).keys[a]) && HasKey(pairs, FromPairs(pairs).keys[b])
    ensures FirstIndex(pairs, FromPairs(pairs).keys[a]) < FirstIndex(pairs, FromPairs(pairs).keys[b])
  {
    var n := |pairs|;
    var prev := pairs[..n - 1];
    var m := FromPairs(prev);
    var ka, kb := FromPairs(pairs).keys[a], FromPairs(pairs).keys[b];
    FromPairsKeys(pairs, ka);
    FromPairsKeys(pairs, kb);
    FromPairsKeys(prev, ka);
    FromPairsKeys(prev, kb);
    assert ka in m.values by { assert a < |m.keys| && m.keys[a] == ka; }
    var fa := FirstIndex(prev, ka);
    assert FirstIndex(pairs, ka) == fa by { FirstIndexPrefix(pairs, prev, ka); }
    if b < |m.keys| {
      FromPairsOrder(prev, a, b);
      FirstIndexPrefix(pairs, prev, kb);
    } else {
      // kb was appended by the last pair, so it does not occur before it.
      assert kb == pairs[n - 1].0 && kb !in m.values;
      FirstIndexAtEnd(pairs, kb);
    }
  }

  /** A key that only the last pair has is first seen there. */
  lemma FirstIndexAtEnd<K(!new), V>(pairs: seq<(K, V)>, k: K)
    requires |pairs| > 0 && pairs[|pairs| - 1].0 == k && !HasKey(pairs[..|pairs| - 1], k)
    ensures HasKey(pairs, k) && FirstIndex(pairs, k) == |pairs| - 1
  {
    var n := |pairs|;
    forall j | 0 <= j < n - 1 ensures pairs[j].0 != k {
      assert pairs[..n - 1][j] == pairs[j];
    }
  }

  /** The first occurrence of a key in a prefix is its first occurrence. */
  lemma FirstIndexPrefix<K(!new), V>(pairs: seq<(K, V)>, prefix: seq<(K, V)>, k: K)
    requires prefix <= pairs
    requires HasKey(prefix, k)
    ensures HasKey(pairs, k) && FirstIndex(pairs, k) == FirstIndex(prefix, k)
  {
    var i := FirstIndex(prefix, k);
    assert pairs[i] == prefix[i];
  }
}
