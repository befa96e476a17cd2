/**
  `bucketize` (src/Statistics.tsx): group items into a dictionary of arrays
  keyed by a discriminator, one bucket per distinct key, created on first
  sight and filled in input order.
 */
module Buckets {
  import opened Assoc
  import opened Seqs

  type Buckets<K, T> = Assoc<K, seq<T>>

  /** One iteration of the loop: `buckets[k] = buckets[k] || []; buckets[k].push(x)`. */
  function Insert<K(==), T>(b: Buckets<K, T>, k: K, x: T): (r: Buckets<K, T>)
    ensures Find(b, k) < |b| ==> r == b[Find(b, k) := (k, b[Find(b, k)].1 + [x])]
    ensures Find(b, k) == |b| ==> r == b + [(k, [x])]
  {
    var existing := Get(b, k);
    var none: seq<T> := [];
    assert none + [x] == [x];
    Put(b, k, (if existing.Some? then existing.value else []) + [x])
  }

  /** The dictionary the loop has built after visiting all of `input`: at most one bucket per item, none empty. */
  function BucketsOf<T, K(==)>(input: seq<T>, key: T -> K): (b: Buckets<K, T>)
    ensures |b| <= |input|
    ensures input != [] ==> |b| > 0
    ensures forall i :: 0 <= i < |b| ==> b[i].1 != []
    decreases |input|
  {
    if input == [] then []
    else
      var n := |input| - 1;
      Insert(BucketsOf(input[..n], key), key(input[n]), input[n])
  }

  /** After an insertion, the key's bucket ends with the inserted item, and is found where it was or at the end. */
  lemma InsertEndsWith<K, T>(b: Buckets<K, T>, k: K, x: T)
    ensures Find(Insert(b, k, x), k) == Find(b, k)
    ensures Get(Insert(b, k, x), k).Some?
    ensures Get(Insert(b, k, x), k).value == (if Find(b, k) < |b| then b[Find(b, k)].1 else []) + [x]
  {
    var r := Insert(b, k, x);
    var i := Find(b, k);
    assert r[i].0 == k;
    assert forall j :: 0 <= j < i ==> r[j] == b[j];
  }

  /** What one insertion does: extend the key's bucket in place, or append a new one. */
  lemma {:induction false} InsertShape<K, T>(b: Buckets<K, T>, k: K, x: T)
    ensures Find(b, k) < |b| ==>
      (Insert(b, k, x) == b[Find(b, k) := (k, b[Find(b, k)].1 + [x])] && Keys(Insert(b, k, x)) == Keys(b))
    ensures Find(b, k) == |b| ==>
      (Insert(b, k, x) == b + [(k, [x])] && Keys(Insert(b, k, x)) == Keys(b) + [k] && k !in Keys(b))
  {
    var i := Find(b, k);
    var r := Insert(b, k, x);
    if i < |b| {
      assert Get(b, k) == Some(b[i].1);
      assert r == b[i := (k, b[i].1 + [x])];
      forall t | 0 <= t < |b| ensures Keys(r)[t] == Keys(b)[t] {
        if t == i { assert r[t].0 == k; } else { assert r[t] == b[t]; }
      }
    } else {
      assert Get(b, k) == None;
      var none: seq<T> := [];
      assert none + [x] == [x];
      assert r == b + [(k, [x])];
      forall t | 0 <= t < |r| ensures Keys(r)[t] == (Keys(b) + [k])[t] {
        if t < |b| { assert r[t] == b[t]; }
      }
    }
  }

  method Bucketize<T, K(==)>(input: seq<T>, key: T -> K) returns (buckets: Buckets<K, T>)
    ensures buckets == BucketsOf(input, key)
  {
    buckets := [];
    for i := 0 to |input|
      invariant buckets == BucketsOf(input[..i], key)
    {
      var item := input[i];
      var bucket := key(item);
      var existing := Get(buckets, bucket);
      var items := if existing.Some? then existing.value else [];
      buckets := Put(buckets, bucket, items + [item]);
      assert input[..i + 1][..i] == input[..i];
    }
    assert input[..|input|] == input;
  }

  /** Reference definition of one bucket: the items whose key is `k`, in input order. */
  function Select<T, K(==)>(input: seq<T>, key: T -> K, k: K): seq<T>
    decreases |input|
  {
    if input == [] then []
    else
      var n := |input| - 1;
      Select(input[..n], key, k) + (if key(input[n]) == k then [input[n]] else [])
  }

  /** `x => key(x) == k`. */
  function HasKey<T, K(==)>(key: T -> K, k: K): T -> bool {
    (x: T) => key(x) == k
  }

  /** A bucket's reference definition is a filter of the input by key. */
  lemma {:induction false} SelectIsFilter<T, K>(input: seq<T>, key: T -> K, k: K)
    ensures Select(input, key, k) == Filter(input, HasKey(key, k))
    decreases |input|
  {
    if input != [] {
      SelectIsFilter(input[..|input| - 1], key, k);
    }
  }

  /** The index at which key `k` is first seen, or `|input|` if it never is. */
  function FirstSeen<T, K(==)>(input: seq<T>, key: T -> K, k: K): (j: nat)
    ensures j <= |input|
    ensures j < |input| ==> key(input[j]) == k
    ensures forall i :: 0 <= i < j ==> key(input[i]) != k
  {
    if input == [] then 0
    else if key(input[0]) == k then 0
    else 1 + FirstSeen(input[1..], key, k)
  }

  lemma {:induction false} FirstSeenExtend<T, K>(input: seq<T>, x: T, key: T -> K, k: K)
    ensures FirstSeen(input, key, k) < |input| ==> FirstSeen(input + [x], key, k) == FirstSeen(input, key, k)
    ensures FirstSeen(input, key, k) == |input| ==>
              FirstSeen(input + [x], key, k) == if key(x) == k then |input| else |input| + 1
  {
    var j, j' := FirstSeen(input, key, k), FirstSeen(input + [x], key, k);
    if j < |input| {
      assert (input + [x])[j] == input[j];
    } else if key(x) == k {
      assert (input + [x])[|input|] == x;
    } else {
      var s := input + [x];
      assert forall i :: 0 <= i < |s| ==> key(s[i]) != k by {
        forall i | 0 <= i < |s| ensures key(s[i]) != k {
          if i < |input| { assert s[i] == input[i]; }
        }
      }
    }
  }

  /** The keys of the dictionary are exactly the keys seen in the input. */
  lemma {:induction false} BucketKeysSeen<T, K>(input: seq<T>, key: T -> K)
    ensures forall k :: k in Keys(BucketsOf(input, key)) <==> FirstSeen(input, key, k) < |input|
    decreases |input|
  {
    if input != [] {
      var n := |input| - 1;
      var s, x := input[..n], input[n];
      assert input == s + [x];
      BucketKeysSeen(s, key);
      var b := BucketsOf(s, key);
      InsertShape(b, key(x), x);
      forall k ensures k in Keys(BucketsOf(input, key)) <==> FirstSeen(input, key, k) < |input| {
        FirstSeenExtend(s, x, key, k);
      }
    }
  }

  /** No key has two buckets. */
  lemma {:induction false} BucketKeysDistinct<T, K>(input: seq<T>, key: T -> K)
    ensures DistinctKeys(BucketsOf(input, key))
    decreases |input|
  {
    if input != [] {
      var n := |input| - 1;
      BucketKeysDistinct(input[..n], key);
      var b := BucketsOf(input[..n], key);
      var existing := Get(b, key(input[n]));
      PutKeepsDistinct(b, key(input[n]), (if existing.Some? then existing.value else []) + [input[n]]);
    }
  }

  /** Each bucket holds exactly the items of its key, in input order. */
  lemma {:induction false} BucketsAreSelections<T, K>(input: seq<T>, key: T -> K)
    ensures forall i :: 0 <= i < |BucketsOf(input, key)| ==>
      BucketsOf(input, key)[i].1 == Select(input, key, BucketsOf(input, key)[i].0)
    decreases |input|
  {
    if input != [] {
      var n := |input| - 1;
      var s, x := input[..n], input[n];
      BucketsAreSelections(s, key);
      BucketKeysSeen(s, key);
      var b := BucketsOf(s, key);
      var r := BucketsOf(input, key);
      var j := Find(b, key(x));
      InsertShape(b, key(x), x);
      assert input == s + [x];
      BucketKeysDistinct(s, key);
      forall i | 0 <= i < |r| ensures r[i].1 == Select(input, key, r[i].0) {
        var k := r[i].0;
        assert Select(input, key, k) == Select(s, key, k) + (if key(x) == k then [x] else []);
        if i == j {
          assert k == key(x);
          if j == |b| {
            assert key(x) !in Keys(b);
            SelectAbsent(s, key, key(x));
            assert r[i].1 == [x];
          } else {
            assert r[i].1 == b[j].1 + [x];
            assert b[j].1 == Select(s, key, b[j].0);
          }
          assert r[i].1 == Select(input, key, k);
        } else {
          assert r[i] == b[i];
          assert b[i].0 == Keys(b)[i];
          assert k != key(x);
          assert b[i].1 == Select(s, key, b[i].0);
          assert r[i].1 == Select(input, key, k);
        }
      }
    }
  }

  lemma {:induction false} SelectAbsent<T, K>(input: seq<T>, key: T -> K, k: K)
    requires FirstSeen(input, key, k) == |input|
    ensures Select(input, key, k) == []
    decreases |input|
  {
    if input != [] {
      var n := |input| - 1;
      FirstSeenExtend(input[..n], input[n], key, k);
      assert input[..n] + [input[n]] == input;
      SelectAbsent(input[..n], key, k);
    }
  }

  /** Buckets appear in the order their keys are first seen (this decides `toPairs` order). */
  lemma {:induction false} BucketsInFirstSeenOrder<T, K>(input: seq<T>, key: T -> K)
    ensures forall i, j :: 0 <= i < j < |BucketsOf(input, key)| ==>
      FirstSeen(input, key, BucketsOf(input, key)[i].0) < FirstSeen(input, key, BucketsOf(input, key)[j].0)
    decreases |input|
  {
    if input != [] {
      var n := |input| - 1;
      var s, x := input[..n], input[n];
      assert input == s + [x];
      BucketsInFirstSeenOrder(s, key);
      BucketKeysSeen(s, key);
      var b := BucketsOf(s, key);
      var r := BucketsOf(input, key);
      InsertShape(b, key(x), x);
      assert Keys(r)[..|b|] == Keys(b);
      forall i, j | 0 <= i < j < |r| ensures FirstSeen(input, key, r[i].0) < FirstSeen(input, key, r[j].0) {
        assert r[i].0 == Keys(b)[i];
        assert r[i].0 in Keys(b);
        FirstSeenExtend(s, x, key, r[i].0);
        FirstSeenExtend(s, x, key, r[j].0);
        if j < |b| {
          assert r[j].0 == Keys(b)[j];
        } else {
          assert r[j].0 == key(x) && key(x) !in Keys(b);
        }
      }
    }
  }

  /**
    Summing any additive measure over the buckets gives the measure of the
    whole input: with `Length` the number of items, with a count of matching
    items the number of matches.
   */
  lemma {:induction false} BucketsTotal<T, K>(input: seq<T>, key: T -> K, f: seq<T> -> int, w: T -> int)
    requires f([]) == 0
    requires forall s, x :: f(s + [x]) == f(s) + w(x)
    ensures Total(MapValues(BucketsOf(input, key), f)) == f(input)
    decreases |input|
  {
    if input != [] {
      var n := |input| - 1;
      var s, x := input[..n], input[n];
      assert input == s + [x];
      BucketsTotal(s, key, f, w);
      var b := BucketsOf(s, key);
      var j := Find(b, key(x));
      if j < |b| {
        var e := (key(x), b[j].1 + [x]);
        assert MapValues(b[j := e], f) == MapValues(b, f)[j := (e.0, f(e.1))];
        TotalUpdate(MapValues(b, f), j, (e.0, f(e.1)));
      } else {
        var e := (key(x), [x]);
        assert MapValues(b + [e], f) == MapValues(b, f) + [(e.0, f(e.1))];
        TotalAppend(MapValues(b, f), (e.0, f(e.1)));
        assert [] + [x] == [x];
      }
    }
  }

  function Length<T>(s: seq<T>): int { |s| }

  /** Every input item lands in exactly one bucket: bucket sizes add up to the input length. */
  lemma {:induction false} BucketSizesSum<T, K>(input: seq<T>, key: T -> K)
    ensures Total(MapValues(BucketsOf(input, key), Length)) == |input|
  {
    var f: seq<T> -> int := Length;
    var none: seq<T> := [];
    assert f(none) == 0;
    forall s: seq<T>, x: T ensures f(s + [x]) == f(s) + 1 { }
    BucketsTotal(input, key, f, (x: T) => 1);
  }

  /**
    Each key's items form one contiguous block of the input: an item whose
    key occurred earlier directly follows an item with that key.
   */
  ghost predicate Contiguous<T, K>(input: seq<T>, key: T -> K) {
    forall i, j :: 0 <= i < j < |input| && key(input[i]) == key(input[j]) ==> key(input[j - 1]) == key(input[j])
  }

  /**
    When each key's items are contiguous in the input, concatenating the
    buckets (`Object.values(b).flat()`) gives the input back, and the last
    bucket is the last item's.
   */
  lemma {:induction false} BucketsConcatContiguous<T, K>(input: seq<T>, key: T -> K)
    requires Contiguous(input, key)
    ensures Concat(BucketsOf(input, key)) == input
    ensures input != [] ==> |BucketsOf(input, key)| > 0 && BucketsOf(input, key)[|BucketsOf(input, key)| - 1].0 == key(input[|input| - 1])
    decreases |input|
  {
    if input != [] {
      var n := |input| - 1;
      var s, x := input[..n], input[n];
      assert input == s + [x];
      ContiguousPrefix(s, x, key);
      BucketsConcatContiguous(s, key);
      assert BucketsOf(input, key) == Insert(BucketsOf(s, key), key(x), x);
      InsertContiguous(s, x, key);
    }
  }

  /** Inserting an item that continues the input's last block, or opens a new one, appends it to the concatenation. */
  lemma {:induction false} InsertContiguous<T, K>(s: seq<T>, x: T, key: T -> K)
    requires Contiguous(s + [x], key)
    requires s != [] ==> |BucketsOf(s, key)| > 0 && BucketsOf(s, key)[|BucketsOf(s, key)| - 1].0 == key(s[|s| - 1])
    ensures Concat(Insert(BucketsOf(s, key), key(x), x)) == Concat(BucketsOf(s, key)) + [x]
    ensures Insert(BucketsOf(s, key), key(x), x)[|Insert(BucketsOf(s, key), key(x), x)| - 1].0 == key(x)
  {
    var b := BucketsOf(s, key);
    var j := Find(b, key(x));
    if j < |b| {
      assert FirstSeen(s, key, key(x)) < |s| by {
        BucketKeysSeen(s, key);
        assert key(x) == Keys(b)[j];
      }
      LastBucketIsLastKey(s, x, key);
      BucketKeysDistinct(s, key);
      assert b[|b| - 1].0 == key(x);
      assert j == |b| - 1;
      ConcatExtendLast(b, x);
    } else {
      ConcatAppend(b, (key(x), [x]));
    }
  }

  lemma {:induction false} ContiguousPrefix<T, K>(s: seq<T>, x: T, key: T -> K)
    requires Contiguous(s + [x], key)
    ensures Contiguous(s, key)
  {
    var input := s + [x];
    forall i, j | 0 <= i < j < |s| && key(s[i]) == key(s[j]) ensures key(s[j - 1]) == key(s[j]) {
      assert s[i] == input[i] && s[j - 1] == input[j - 1] && s[j] == input[j];
    }
  }

  lemma {:induction false} LastBucketIsLastKey<T, K>(s: seq<T>, x: T, key: T -> K)
    requires Contiguous(s + [x], key)
    requires s != [] && FirstSeen(s, key, key(x)) < |s|
    ensures key(s[|s| - 1]) == key(x)
  {
    var input := s + [x];
    var a, n := FirstSeen(s, key, key(x)), |s|;
    assert input[a] == s[a] && input[n - 1] == s[n - 1] && input[n] == x;
    assert key(input[a]) == key(input[n]);
  }
}
