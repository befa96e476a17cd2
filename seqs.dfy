/** `Array.prototype.filter` and the facts about it the model needs. */
module Seqs {

  /** The elements of `s` that satisfy `p`, in their original order. */
  function Filter<T>(s: seq<T>, p: T -> bool): (r: seq<T>)
    ensures |r| <= |s|
    ensures forall i :: 0 <= i < |r| ==> r[i] in s && p(r[i])
    ensures forall i :: 0 <= i < |s| && p(s[i]) ==> s[i] in r
    decreases |s|
  {
    if s == [] then []
    else
      var n := |s| - 1;
      assert s == s[..n] + [s[n]];
      Filter(s[..n], p) + (if p(s[n]) then [s[n]] else [])
  }

  /** Filtering by a predicate and by its negation splits `s` in two. */
  lemma {:induction false} FilterPartition<T>(s: seq<T>, p: T -> bool, q: T -> bool)
    requires forall x :: q(x) == !p(x)
    ensures |Filter(s, p)| + |Filter(s, q)| == |s|
    decreases |s|
  {
    if s != [] {
      FilterPartition(s[..|s| - 1], p, q);
    }
  }

  /** Nothing survives a filter that no element passes. */
  lemma {:induction false} FilterNone<T>(s: seq<T>, p: T -> bool)
    requires forall i :: 0 <= i < |s| ==> !p(s[i])
    ensures Filter(s, p) == []
    decreases |s|
  {
    if s != [] {
      FilterNone(s[..|s| - 1], p);
    }
  }

  /** `rank` strictly increases along `s`. */
  ghost predicate Increasing<T>(s: seq<T>, rank: T -> int) {
    forall i, j :: 0 <= i < j < |s| ==> rank(s[i]) < rank(s[j])
  }

  /** Filtering keeps the relative order of the elements it keeps. */
  lemma {:induction false} FilterKeepsOrder<T>(s: seq<T>, p: T -> bool, rank: T -> int)
    requires Increasing(s, rank)
    ensures Increasing(Filter(s, p), rank)
    decreases |s|
  {
    if s != [] {
      var n := |s| - 1;
      var t := s[..n];
      assert Increasing(t, rank) by {
        forall i, j | 0 <= i < j < |t| ensures rank(t[i]) < rank(t[j]) {
          assert t[i] == s[i] && t[j] == s[j];
        }
      }
      FilterKeepsOrder(t, p, rank);
      var r := Filter(t, p);
      var f := r + (if p(s[n]) then [s[n]] else []);
      assert Filter(s, p) == f;
      forall i, j | 0 <= i < j < |f| ensures rank(f[i]) < rank(f[j]) {
        if j < |r| {
          assert f[i] == r[i] && f[j] == r[j];
        } else {
          assert f[i] == r[i] && f[j] == s[n];
          var k :| 0 <= k < |t| && t[k] == r[i];
          assert s[k] == t[k];
        }
      }
    }
  }
}
