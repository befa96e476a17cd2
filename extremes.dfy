/**
  The extremum folds of src/Statistics.tsx: ramda's `reduce` over `maxBy` or
  `minBy`, started from a sentinel. `maxBy(f)(a, b)` returns `b` only when
  `f(b) > f(a)`, so the accumulator survives ties and the first of several
  equal extremes wins. This is the tie-break of ramda 0.27 and earlier.
 */
module Extremes {

  /** A numeric score: a finite count, or one of the sentinels `-Infinity` and `Infinity`. */
  datatype Score = NegInfinity | Finite(n: int) | PosInfinity

  /** `a < b` on JavaScript numbers restricted to these values. */
  predicate Below(a: Score, b: Score) {
    match (a, b)
    case (NegInfinity, NegInfinity) => false
    case (NegInfinity, _) => true
    case (Finite(x), Finite(y)) => x < y
    case (Finite(_), PosInfinity) => true
    case _ => false
  }

  /** `Below` is a strict total order. */
  lemma BelowIsStrictTotalOrder(a: Score, b: Score, c: Score)
    ensures !Below(a, a)
    ensures Below(a, b) ==> !Below(b, a)
    ensures Below(a, b) && Below(b, c) ==> Below(a, c)
    ensures a != b ==> Below(a, b) || Below(b, a)
  {
  }

  /** ramda `maxBy(f)(a, b)`: the one with the greater score, `a` on a tie. */
  function MaxBy<T>(f: T -> Score, a: T, b: T): (r: T)
    ensures r == a || r == b
    ensures !Below(f(r), f(a)) && !Below(f(r), f(b))
    ensures !Below(f(a), f(b)) ==> r == a
  {
    if Below(f(a), f(b)) then b else a
  }

  /** ramda `minBy(f)(a, b)`: the one with the smaller score, `a` on a tie. */
  function MinBy<T>(f: T -> Score, a: T, b: T): (r: T)
    ensures r == a || r == b
    ensures !Below(f(a), f(r)) && !Below(f(b), f(r))
    ensures !Below(f(b), f(a)) ==> r == a
  {
    if Below(f(b), f(a)) then b else a
  }

  /** ramda `reduce(maxBy(f), acc, xs)`: a left fold, never below the start and never below an element. */
  function ReduceMax<T>(f: T -> Score, acc: T, xs: seq<T>): (r: T)
    ensures r == acc || r in xs
    ensures !Below(f(r), f(acc))
    ensures forall j :: 0 <= j < |xs| ==> !Below(f(r), f(xs[j]))
    decreases |xs|
  {
    if xs == [] then acc
    else
      var acc' := MaxBy(f, acc, xs[0]);
      var r := ReduceMax(f, acc', xs[1..]);
      BelowIsStrictTotalOrder(f(r), f(acc'), f(acc));
      BelowIsStrictTotalOrder(f(r), f(acc'), f(xs[0]));
      assert forall j :: 1 <= j < |xs| ==> xs[j] == xs[1..][j - 1];
      r
  }

  /** ramda `reduce(minBy(f), acc, xs)`: never above the start and never above an element. */
  function ReduceMin<T>(f: T -> Score, acc: T, xs: seq<T>): (r: T)
    ensures r == acc || r in xs
    ensures !Below(f(acc), f(r))
    ensures forall j :: 0 <= j < |xs| ==> !Below(f(xs[j]), f(r))
    decreases |xs|
  {
    if xs == [] then acc
    else
      var acc' := MinBy(f, acc, xs[0]);
      var r := ReduceMin(f, acc', xs[1..]);
      BelowIsStrictTotalOrder(f(acc), f(acc'), f(r));
      BelowIsStrictTotalOrder(f(xs[0]), f(acc'), f(r));
      assert forall j :: 1 <= j < |xs| ==> xs[j] == xs[1..][j - 1];
      r
  }

  /** `xs[i]` has the greatest score of `xs`, and every earlier element a strictly smaller one. */
  ghost predicate IsFirstGreatest<T>(f: T -> Score, xs: seq<T>, i: int) {
    && 0 <= i < |xs|
    && (forall j :: 0 <= j < |xs| ==> !Below(f(xs[i]), f(xs[j])))
    && (forall j :: 0 <= j < i ==> Below(f(xs[j]), f(xs[i])))
  }

  /** `xs[i]` has the least score of `xs`, and every earlier element a strictly greater one. */
  ghost predicate IsFirstLeast<T>(f: T -> Score, xs: seq<T>, i: int) {
    && 0 <= i < |xs|
    && (forall j :: 0 <= j < |xs| ==> !Below(f(xs[j]), f(xs[i])))
    && (forall j :: 0 <= j < i ==> Below(f(xs[i]), f(xs[j])))
  }

  /**
    The maximum fold keeps the accumulator unless some element beats it
    strictly, and otherwise returns the first element with the greatest score.
   */
  lemma {:induction false} ReduceMaxIsFirstGreatest<T>(f: T -> Score, acc: T, xs: seq<T>)
    ensures (forall j :: 0 <= j < |xs| ==> !Below(f(acc), f(xs[j]))) ==> ReduceMax(f, acc, xs) == acc
    ensures (exists j :: 0 <= j < |xs| && Below(f(acc), f(xs[j]))) ==>
      exists i :: IsFirstGreatest(f, xs, i) && Below(f(acc), f(xs[i])) && ReduceMax(f, acc, xs) == xs[i]
    decreases |xs|
  {
    if xs != [] {
      var acc' := MaxBy(f, acc, xs[0]);
      var tail := xs[1..];
      ReduceMaxIsFirstGreatest(f, acc', tail);
      var r := ReduceMax(f, acc, xs);
      assert r == ReduceMax(f, acc', tail);
      if Below(f(acc), f(xs[0])) {
        // xs[0] is the new accumulator; either it survives or a later element beats it.
        if exists j :: 0 <= j < |tail| && Below(f(xs[0]), f(tail[j])) {
          var i :| IsFirstGreatest(f, tail, i) && Below(f(xs[0]), f(tail[i])) && r == tail[i];
          FirstGreatestShift(f, xs, i, acc);
        } else {
          assert IsFirstGreatest(f, xs, 0) by {
            forall j | 0 <= j < |xs| ensures !Below(f(xs[0]), f(xs[j])) {
              if j > 0 { assert xs[j] == tail[j - 1]; }
            }
          }
        }
      } else {
        if exists j :: 0 <= j < |xs| && Below(f(acc), f(xs[j])) {
          var j :| 0 <= j < |xs| && Below(f(acc), f(xs[j]));
          assert j > 0 && tail[j - 1] == xs[j];
          var i :| IsFirstGreatest(f, tail, i) && Below(f(acc), f(tail[i])) && r == tail[i];
          FirstGreatestShift(f, xs, i, acc);
        } else {
          forall j | 0 <= j < |tail| ensures !Below(f(acc), f(tail[j])) {
            assert tail[j] == xs[j + 1];
          }
        }
      }
    }
  }

  /** A first greatest element of the tail that beats the head is a first greatest element of the whole. */
  lemma {:induction false} FirstGreatestShift<T>(f: T -> Score, xs: seq<T>, i: int, acc: T)
    requires xs != [] && IsFirstGreatest(f, xs[1..], i)
    requires Below(f(acc), f(xs[1..][i]))
    requires Below(f(xs[0]), f(xs[1..][i])) || !Below(f(acc), f(xs[0]))
    ensures IsFirstGreatest(f, xs, i + 1) && Below(f(acc), f(xs[i + 1]))
  {
    var tail := xs[1..];
    var top := f(tail[i]);
    assert xs[i + 1] == tail[i];
    BelowIsStrictTotalOrder(f(xs[0]), f(acc), top);
    BelowIsStrictTotalOrder(f(acc), f(xs[0]), top);
    forall j | 0 <= j < |xs| ensures !Below(top, f(xs[j])) {
      if j > 0 { assert xs[j] == tail[j - 1]; }
    }
    forall j | 0 <= j < i + 1 ensures Below(f(xs[j]), top) {
      if j > 0 { assert xs[j] == tail[j - 1]; }
    }
  }

  /** The minimum fold, symmetrically: the accumulator or the first element with the least score. */
  lemma {:induction false} ReduceMinIsFirstLeast<T>(f: T -> Score, acc: T, xs: seq<T>)
    ensures (forall j :: 0 <= j < |xs| ==> !Below(f(xs[j]), f(acc))) ==> ReduceMin(f, acc, xs) == acc
    ensures (exists j :: 0 <= j < |xs| && Below(f(xs[j]), f(acc))) ==>
      exists i :: IsFirstLeast(f, xs, i) && Below(f(xs[i]), f(acc)) && ReduceMin(f, acc, xs) == xs[i]
    decreases |xs|
  {
    if xs != [] {
      var acc' := MinBy(f, acc, xs[0]);
      var tail := xs[1..];
      ReduceMinIsFirstLeast(f, acc', tail);
      var r := ReduceMin(f, acc, xs);
      assert r == ReduceMin(f, acc', tail);
      if Below(f(xs[0]), f(acc)) {
        if exists j :: 0 <= j < |tail| && Below(f(tail[j]), f(xs[0])) {
          var i :| IsFirstLeast(f, tail, i) && Below(f(tail[i]), f(xs[0])) && r == tail[i];
          FirstLeastShift(f, xs, i, acc);
        } else {
          assert IsFirstLeast(f, xs, 0) by {
            forall j | 0 <= j < |xs| ensures !Below(f(xs[j]), f(xs[0])) {
              if j > 0 { assert xs[j] == tail[j - 1]; }
            }
          }
        }
      } else {
        if exists j :: 0 <= j < |xs| && Below(f(xs[j]), f(acc)) {
          var j :| 0 <= j < |xs| && Below(f(xs[j]), f(acc));
          assert j > 0 && tail[j - 1] == xs[j];
          var i :| IsFirstLeast(f, tail, i) && Below(f(tail[i]), f(acc)) && r == tail[i];
          FirstLeastShift(f, xs, i, acc);
        } else {
          forall j | 0 <= j < |tail| ensures !Below(f(tail[j]), f(acc)) {
            assert tail[j] == xs[j + 1];
          }
        }
      }
    }
  }

  lemma {:induction false} FirstLeastShift<T>(f: T -> Score, xs: seq<T>, i: int, acc: T)
    requires xs != [] && IsFirstLeast(f, xs[1..], i)
    requires Below(f(xs[1..][i]), f(acc))
    requires Below(f(xs[1..][i]), f(xs[0])) || !Below(f(xs[0]), f(acc))
    ensures IsFirstLeast(f, xs, i + 1) && Below(f(xs[i + 1]), f(acc))
  {
    var tail := xs[1..];
    var bottom := f(tail[i]);
    assert xs[i + 1] == tail[i];
    BelowIsStrictTotalOrder(bottom, f(acc), f(xs[0]));
    BelowIsStrictTotalOrder(bottom, f(xs[0]), f(acc));
    forall j | 0 <= j < |xs| ensures !Below(f(xs[j]), bottom) {
      if j > 0 { assert xs[j] == tail[j - 1]; }
    }
    forall j | 0 <= j < i + 1 ensures Below(bottom, f(xs[j])) {
      if j > 0 { assert xs[j] == tail[j - 1]; }
    }
  }
}
