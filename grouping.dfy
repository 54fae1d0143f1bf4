/**
 * A `defaultdict(list)` filled by appends, specified by the ordered log of
 * the `(key, value)` appends made to it. Python dicts keep keys in order of
 * first insertion, so the dict is the pair `(Order(log), Collect(log))`.
 */
module Grouping {

  /** The dict after `d[k].append(v)` for every `(k, v)` of `log`, in order. */
  function Collect<K(==), V>(log: seq<(K, V)>): map<K, seq<V>> {
    if log == [] then map[]
    else
      var d := Collect(log[..|log| - 1]);
      var k := log[|log| - 1].0;
      d[k := (if k in d then d[k] else []) + [log[|log| - 1].1]]
  }

  /** The values logged under `k`, in log order. */
  function Values<K(==), V>(log: seq<(K, V)>, k: K): seq<V> {
    if log == [] then []
    else Values(log[..|log| - 1], k) + (if log[|log| - 1].0 == k then [log[|log| - 1].1] else [])
  }

  /** The keys of the dict in insertion order: each key at its first append. */
  function Order<K(==), V>(log: seq<(K, V)>): seq<K> {
    if log == [] then []
    else
      var k := log[|log| - 1].0;
      if k in Collect(log[..|log| - 1]) then Order(log[..|log| - 1])
      else Order(log[..|log| - 1]) + [k]
  }

  /**
   * `d[k].append(v)` on a `defaultdict(list)` whose keys, in insertion
   * order, are `keys`: a missing key is first inserted with an empty list.
   */
  method Append<K(==), V>(keys: seq<K>, d: map<K, seq<V>>, k: K, v: V, ghost log: seq<(K, V)>)
    returns (keys': seq<K>, d': map<K, seq<V>>)
    requires keys == Order(log) && d == Collect(log)
    ensures keys' == Order(log + [(k, v)]) && d' == Collect(log + [(k, v)])
  {
    keys', d' := keys, d;
    if k !in d' {
      keys' := keys' + [k];
      d' := d'[k := []];
    }
    d' := d'[k := d'[k] + [v]];
    assert (log + [(k, v)])[..|log|] == log;
  }

  /** A key is present exactly when something was appended under it, and its list is what was appended, in order. */
  lemma {:induction false} CollectValues<K, V>(log: seq<(K, V)>, k: K)
    ensures k in Collect(log) <==> Values(log, k) != []
    ensures k in Collect(log) ==> Collect(log)[k] == Values(log, k)
  {
    if log != [] {
      CollectValues(log[..|log| - 1], k);
    }
  }

  /** The insertion order lists every key of the dict exactly once. */
  lemma {:induction false} OrderKeys<K, V>(log: seq<(K, V)>)
    ensures forall k :: k in Order(log) <==> k in Collect(log)
    ensures forall p, q :: 0 <= p < q < |Order(log)| ==> Order(log)[p] != Order(log)[q]
  {
    if log != [] {
      OrderKeys(log[..|log| - 1]);
    }
  }

  lemma {:induction false} ValuesAppend<K, V>(a: seq<(K, V)>, b: seq<(K, V)>, k: K)
    ensures Values(a + b, k) == Values(a, k) + Values(b, k)
    decreases |b|
  {
    if b == [] {
      assert a + b == a;
    } else {
      var b' := b[..|b| - 1];
      assert (a + b)[..|a + b| - 1] == a + b';
      ValuesAppend(a, b', k);
    }
  }

  /** How often `v` is listed under `k` is how often `(k, v)` was appended. */
  lemma {:induction false} ValuesCount<K, V>(log: seq<(K, V)>, k: K, v: V)
    ensures multiset(Values(log, k))[v] == multiset(log)[(k, v)]
  {
    if log != [] {
      var p := log[..|log| - 1];
      ValuesCount(p, k, v);
      assert log == p + [log[|log| - 1]];
    }
  }
}
