/**
  A Python `dict` with its insertion order: a sequence of key/value pairs.
  Reading `d.get(k)` takes the entry stored under `k`; `d[k] = v` keeps an
  existing key where it is and puts a new key on the end; iterating
  `d.items()` walks the entries front to back.
 */
module OrderedDict {
  import opened Results

  /** No key appears twice. */
  predicate DistinctKeys<K(==), V>(d: seq<(K, V)>) {
    forall i, j :: 0 <= i < j < |d| ==> d[i].0 != d[j].0
  }

  /** `d.get(k)`. */
  function Get<K(==), V(==)>(d: seq<(K, V)>, k: K): (r: Option<V>)
    ensures r.Some? ==> (k, r.value) in d
    ensures r.None? <==> forall p :: p in d ==> p.0 != k
  {
    if d == [] then None
    else if d[0].0 == k then Some(d[0].1)
    else
      assert forall p :: p in d ==> p == d[0] || p in d[1..];
      Get(d[1..], k)
  }

  /** `d[k] = v`. */
  function Put<K(==), V(==)>(d: seq<(K, V)>, k: K, v: V): (r: seq<(K, V)>)
    ensures Get(d, k).None? ==> r == d + [(k, v)]
    ensures Get(d, k).Some? ==> |r| == |d| && forall i :: 0 <= i < |d| ==> r[i].0 == d[i].0
    ensures forall p :: p in r ==> p == (k, v) || p in d
    ensures DistinctKeys(d) ==> DistinctKeys(r)
  {
    if d == [] then [(k, v)]
    else if d[0].0 == k then [(k, v)] + d[1..]
    else
      assert forall p :: p in d ==> p == d[0] || p in d[1..];
      [d[0]] + Put(d[1..], k, v)
  }

  /** After `d[k] = v`, `k` holds `v` and every other key holds what it held before. */
  lemma {:induction false} PutGet<K, V>(d: seq<(K, V)>, k: K, v: V, k': K)
    ensures Get(Put(d, k, v), k') == if k' == k then Some(v) else Get(d, k')
  {
    if d != [] && d[0].0 != k {
      PutGet(d[1..], k, v, k');
    }
  }

  /** Assigning the same value to the same key twice is the same as once. */
  lemma {:induction false} PutTwice<K, V>(d: seq<(K, V)>, k: K, v: V)
    ensures Put(Put(d, k, v), k, v) == Put(d, k, v)
  {
    if d != [] && d[0].0 != k {
      PutTwice(d[1..], k, v);
      assert Put(d, k, v)[1..] == Put(d[1..], k, v);
    }
  }

  /** The key of the first entry, in iteration order, whose value is `v`. */
  function FirstKeyFor<K(==), V(==)>(d: seq<(K, V)>, v: V): (r: Option<K>)
    ensures r.Some? ==> (r.value, v) in d
    ensures r.None? <==> forall p :: p in d ==> p.1 != v
  {
    if d == [] then None
    else if d[0].1 == v then Some(d[0].0)
    else
      assert forall p :: p in d ==> p == d[0] || p in d[1..];
      FirstKeyFor(d[1..], v)
  }

  /** An entry with value `v` that no earlier entry shares gives the key `FirstKeyFor` returns. */
  lemma {:induction false} FirstKeyForIsFirst<K, V>(d: seq<(K, V)>, v: V, i: nat)
    requires i < |d| && d[i].1 == v
    requires forall j :: 0 <= j < i ==> d[j].1 != v
    ensures FirstKeyFor(d, v) == Some(d[i].0)
  {
    if i > 0 {
      FirstKeyForIsFirst(d[1..], v, i - 1);
    }
  }

  /**
    After `d[k] = v`, the first key holding `v` is either `k` itself or the
    first key that already held `v` before the assignment.
   */
  lemma {:induction false} FirstKeyAfterPut<K, V>(d: seq<(K, V)>, k: K, v: V)
    ensures FirstKeyFor(Put(d, k, v), v) == Some(k)
         || (FirstKeyFor(d, v).Some? && FirstKeyFor(Put(d, k, v), v) == FirstKeyFor(d, v))
  {
    if d != [] && d[0].0 != k && d[0].1 != v {
      FirstKeyAfterPut(d[1..], k, v);
      assert Put(d, k, v)[1..] == Put(d[1..], k, v);
    }
  }
}
