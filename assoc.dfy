/**
  Insertion-ordered dictionaries, as JavaScript objects with non-numeric
  string keys behave: `Object.values`, `toPairs` and ramda's `map` visit the
  keys in the order they were first assigned, an assignment to a key that is
  present overwrites it in place, and one to a new key appends it.
 */
module Assoc {

  datatype Option<T> = None | Some(value: T)

  /** A dictionary as a list of (key, value) entries in key-insertion order. */
  type Assoc<K, V> = seq<(K, V)>

  function Keys<K, V>(m: Assoc<K, V>): (ks: seq<K>)
    ensures |ks| == |m|
    ensures forall i :: 0 <= i < |m| ==> ks[i] == m[i].0
  {
    seq(|m|, i requires 0 <= i < |m| => m[i].0)
  }

  ghost predicate DistinctKeys<K, V>(m: Assoc<K, V>) {
    forall i, j :: 0 <= i < j < |m| ==> m[i].0 != m[j].0
  }

  /** Position of key `k`, or `|m|` when `k` is absent. */
  function Find<K(==), V>(m: Assoc<K, V>, k: K): (i: nat)
    ensures i <= |m|
    ensures i < |m| ==> m[i].0 == k
    ensures forall j :: 0 <= j < i ==> m[j].0 != k
  {
    if m == [] then 0
    else if m[0].0 == k then 0
    else 1 + Find(m[1..], k)
  }

  /** `obj[k]`, with `None` for `undefined`. */
  function Get<K(==), V>(m: Assoc<K, V>, k: K): (r: Option<V>)
    ensures r.Some? <==> k in Keys(m)
    ensures r.Some? ==> r.value == m[Find(m, k)].1
  {
    var i := Find(m, k);
    if i < |m| then Some(m[i].1) else None
  }

  /** `obj[k] = v` (equivalently `{...obj, [k]: v}`). */
  function Put<K(==), V>(m: Assoc<K, V>, k: K, v: V): (r: Assoc<K, V>)
    ensures Find(m, k) < |m| ==> r == m[Find(m, k) := (k, v)]
    ensures Find(m, k) == |m| ==> r == m + [(k, v)]
  {
    var i := Find(m, k);
    if i < |m| then m[i := (k, v)] else m + [(k, v)]
  }

  /** ramda `map` over an object: same keys in the same order. */
  function MapValues<K, V, W>(m: Assoc<K, V>, f: V -> W): (r: Assoc<K, W>)
    ensures |r| == |m|
    ensures forall i :: 0 <= i < |m| ==> r[i] == (m[i].0, f(m[i].1))
  {
    seq(|m|, i requires 0 <= i < |m| => (m[i].0, f(m[i].1)))
  }

  /** `Object.values(m).flat()`: all values, bucket after bucket. */
  function Concat<K, T>(m: Assoc<K, seq<T>>): seq<T> {
    if m == [] then [] else m[0].1 + Concat(m[1..])
  }

  /** The sum of the values. */
  function Total<K>(m: Assoc<K, int>): int {
    if m == [] then 0 else m[0].1 + Total(m[1..])
  }

  lemma {:induction false} PutKeepsDistinct<K, V>(m: Assoc<K, V>, k: K, v: V)
    requires DistinctKeys(m)
    ensures DistinctKeys(Put(m, k, v))
    ensures Find(m, k) < |m| ==> Keys(Put(m, k, v)) == Keys(m)
    ensures Find(m, k) == |m| ==> Keys(Put(m, k, v)) == Keys(m) + [k]
  {
    var r := Put(m, k, v);
    if Find(m, k) == |m| {
      assert k !in Keys(m);
    }
  }

  lemma {:induction false} ConcatAppend<K, T>(m: Assoc<K, seq<T>>, e: (K, seq<T>))
    ensures Concat(m + [e]) == Concat(m) + e.1
  {
    if m == [] {
      assert [e][1..] == [];
    } else {
      assert (m + [e])[1..] == m[1..] + [e];
      ConcatAppend(m[1..], e);
    }
  }

  /** Pushing onto the last value extends the concatenation by that item. */
  lemma {:induction false} ConcatExtendLast<K, T>(m: Assoc<K, seq<T>>, x: T)
    requires m != []
    ensures Concat(m[|m| - 1 := (m[|m| - 1].0, m[|m| - 1].1 + [x])]) == Concat(m) + [x]
  {
    var j := |m| - 1;
    var e := (m[j].0, m[j].1 + [x]);
    assert m == m[..j] + [m[j]];
    assert m[j := e] == m[..j] + [e];
    ConcatAppend(m[..j], m[j]);
    ConcatAppend(m[..j], e);
  }

  lemma {:induction false} TotalUpdate<K>(m: Assoc<K, int>, i: nat, e: (K, int))
    requires i < |m|
    ensures Total(m[i := e]) == Total(m) - m[i].1 + e.1
  {
    if i > 0 {
      assert m[i := e][1..] == m[1..][i - 1 := e];
      TotalUpdate(m[1..], i - 1, e);
    }
  }

  lemma {:induction false} TotalAppend<K>(m: Assoc<K, int>, e: (K, int))
    ensures Total(m + [e]) == Total(m) + e.1
  {
    if m == [] {
      assert [e][1..] == [];
    } else {
      assert (m + [e])[1..] == m[1..] + [e];
      TotalAppend(m[1..], e);
    }
  }
}
