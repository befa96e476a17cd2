/**
  `rangeify` (src/Statistics.tsx): a generator that cuts its input into runs
  of consecutive items with the same discriminator value. A run is yielded
  only when an item with a different value arrives, and nothing is yielded
  after the loop, so the run that is still open when the input ends is never
  yielded. `Runs` is the complete decomposition, with that last run flushed.
 */
module Ranges {
  import opened Assoc

  datatype Range<V, T> = Range(value: V, items: seq<T>)

  /** The generator's state between two items: what it has yielded, and `range` (`None` for `undefined`). */
  datatype Scan<V, T> = Scan(yielded: seq<Range<V, T>>, open: Option<Range<V, T>>)

  /** One iteration of the loop. */
  function Step<T, V(==)>(st: Scan<V, T>, x: T, disc: T -> V): (r: Scan<V, T>)
    ensures r.open.Some? && r.open.value.value == disc(x)
    ensures r.open.value.items != [] && r.open.value.items[|r.open.value.items| - 1] == x
    ensures st.open.Some? && st.open.value.value == disc(x) ==>
      r.yielded == st.yielded && r.open.value.items == st.open.value.items + [x]
    ensures st.open.Some? && st.open.value.value != disc(x) ==>
      r.yielded == st.yielded + [st.open.value] && r.open.value.items == [x]
    ensures st.open.None? ==> r.yielded == st.yielded && r.open.value.items == [x]
  {
    var current := disc(x);
    if st.open.None? || st.open.value.value != current then
      Scan(st.yielded + (if st.open.Some? then [st.open.value] else []), Some(Range(current, [x])))
    else
      Scan(st.yielded, Some(Range(current, st.open.value.items + [x])))
  }

  /** The state after the loop has visited all of `input`. */
  function ScanOf<T, V(==)>(input: seq<T>, disc: T -> V): (st: Scan<V, T>)
    ensures st.open.Some? <==> input != []
    ensures input != [] ==> st.open.value.value == disc(input[|input| - 1])
    decreases |input|
  {
    if input == [] then Scan([], None)
    else
      var n := |input| - 1;
      Step(ScanOf(input[..n], disc), input[n], disc)
  }

  /** Everything `rangeify` yields (what `Array.from` collects). */
  function Yielded<T, V(==)>(input: seq<T>, disc: T -> V): (ys: seq<Range<V, T>>)
    ensures input == [] ==> ys == []
    ensures input != [] ==> Runs(input, disc) == ys + [ScanOf(input, disc).open.value]
  {
    ScanOf(input, disc).yielded
  }

  /** The maximal runs of `input`, the trailing one included: none for no input, else ending in the last item's run. */
  function Runs<T, V(==)>(input: seq<T>, disc: T -> V): (rs: seq<Range<V, T>>)
    ensures input == [] <==> rs == []
    ensures input != [] ==> rs[|rs| - 1].value == disc(input[|input| - 1])
  {
    var st := ScanOf(input, disc);
    st.yielded + (if st.open.Some? then [st.open.value] else [])
  }

  method Rangeify<T, V(==)>(input: seq<T>, disc: T -> V) returns (yielded: seq<Range<V, T>>)
    ensures yielded == Yielded(input, disc)
  {
    var last: Option<V> := None;
    var range: Option<Range<V, T>> := None;
    yielded := [];
    for i := 0 to |input|
      invariant ScanOf(input[..i], disc) == Scan(yielded, range)
      invariant last == if range.Some? then Some(range.value.value) else None
    {
      var value := input[i];
      var current := disc(value);
      if last != Some(current) {
        if range.Some? {
          yielded := yielded + [range.value];
        }
        range := Some(Range(current, [value]));
      } else {
        range := Some(Range(range.value.value, range.value.items + [value]));
      }
      last := Some(current);
      assert input[..i + 1][..i] == input[..i];
    }
    assert input[..|input|] == input;
  }

  /** The items of a list of ranges, one range after the other. */
  function Items<V, T>(rs: seq<Range<V, T>>): seq<T> {
    if rs == [] then [] else Items(rs[..|rs| - 1]) + rs[|rs| - 1].items
  }

  /** Every range is non-empty and all its items have the range's value. */
  ghost predicate Homogeneous<T, V>(rs: seq<Range<V, T>>, disc: T -> V) {
    forall i :: 0 <= i < |rs| ==>
      rs[i].items != [] && forall j :: 0 <= j < |rs[i].items| ==> disc(rs[i].items[j]) == rs[i].value
  }

  /** Neighbouring ranges have different values, so no two could be merged. */
  ghost predicate Alternating<V, T>(rs: seq<Range<V, T>>) {
    forall i :: 0 < i < |rs| ==> rs[i - 1].value != rs[i].value
  }

  /** All items of `input` have the same discriminator value. */
  ghost predicate Constant<T, V>(input: seq<T>, disc: T -> V) {
    forall i :: 0 <= i < |input| ==> disc(input[i]) == disc(input[0])
  }

  lemma {:induction false} ItemsAppend<V, T>(rs: seq<Range<V, T>>, r: Range<V, T>)
    ensures Items(rs + [r]) == Items(rs) + r.items
  {
    assert (rs + [r])[..|rs|] == rs;
  }

  /** The open range exists exactly when some item has been seen, and holds the last item's value. */
  lemma {:induction false} ScanOpen<T, V>(input: seq<T>, disc: T -> V)
    ensures ScanOf(input, disc).open.Some? <==> input != []
    ensures input != [] ==> ScanOf(input, disc).open.value.value == disc(input[|input| - 1])
    ensures input != [] ==> Runs(input, disc) == Yielded(input, disc) + [ScanOf(input, disc).open.value]
    ensures input == [] ==> Runs(input, disc) == Yielded(input, disc) == []
  {
    if input != [] {
      var n := |input| - 1;
      ScanOpen(input[..n], disc);
    }
  }

  /** How one more item changes the runs: a new run when its value differs from the last run's, else a longer last run. */
  lemma {:induction false} RunsStep<T, V>(s: seq<T>, x: T, disc: T -> V)
    ensures s == [] ==> Runs(s + [x], disc) == [Range(disc(x), [x])]
    ensures s != [] ==> |Runs(s, disc)| > 0
    ensures s != [] && Runs(s, disc)[|Runs(s, disc)| - 1].value != disc(x) ==>
      Runs(s + [x], disc) == Runs(s, disc) + [Range(disc(x), [x])]
    ensures s != [] && Runs(s, disc)[|Runs(s, disc)| - 1].value == disc(x) ==>
      var k := |Runs(s, disc)| - 1;
      Runs(s + [x], disc) == Runs(s, disc)[..k] + [Range(disc(x), Runs(s, disc)[k].items + [x])]
  {
    var input := s + [x];
    assert input[..|s|] == s;
    ScanOpen(s, disc);
    ScanOpen(input, disc);
    if s != [] {
      var k := |Runs(s, disc)| - 1;
      assert Runs(s, disc)[k] == ScanOf(s, disc).open.value;
      assert Runs(s, disc)[..k] == Yielded(s, disc);
    }
  }

  lemma {:induction false} ExtendLastRun<T, V>(rs: seq<Range<V, T>>, x: T, disc: T -> V)
    requires rs != [] && Homogeneous(rs, disc) && Alternating(rs) && rs[|rs| - 1].value == disc(x)
    ensures var k := |rs| - 1;
      var rs' := rs[..k] + [Range(disc(x), rs[k].items + [x])];
      Homogeneous(rs', disc) && Alternating(rs') && Items(rs') == Items(rs) + [x]
  {
    var k := |rs| - 1;
    var r' := Range(disc(x), rs[k].items + [x]);
    var rs' := rs[..k] + [r'];
    assert rs == rs[..k] + [rs[k]];
    ItemsAppend(rs[..k], rs[k]);
    ItemsAppend(rs[..k], r');
    forall i | 0 <= i < |rs'|
      ensures rs'[i].items != [] && forall j :: 0 <= j < |rs'[i].items| ==> disc(rs'[i].items[j]) == rs'[i].value
    {
      if i < k { assert rs'[i] == rs[i]; }
    }
    forall i | 0 < i < |rs'| ensures rs'[i - 1].value != rs'[i].value {
      assert rs'[i - 1].value == rs[i - 1].value && rs'[i].value == rs[i].value;
    }
  }

  lemma {:induction false} StartNewRun<T, V>(rs: seq<Range<V, T>>, x: T, disc: T -> V)
    requires Homogeneous(rs, disc) && Alternating(rs) && (rs != [] ==> rs[|rs| - 1].value != disc(x))
    ensures var rs' := rs + [Range(disc(x), [x])];
      Homogeneous(rs', disc) && Alternating(rs') && Items(rs') == Items(rs) + [x]
  {
    ItemsAppend(rs, Range(disc(x), [x]));
  }

  /** The runs decompose the input: non-empty, homogeneous, maximal, nothing dropped or duplicated. */
  lemma {:induction false} RunsPartitionInput<T, V>(input: seq<T>, disc: T -> V)
    ensures Homogeneous(Runs(input, disc), disc)
    ensures Alternating(Runs(input, disc))
    ensures Items(Runs(input, disc)) == input
    decreases |input|
  {
    if input == [] {
      ScanOpen(input, disc);
    } else {
      var n := |input| - 1;
      var s, x := input[..n], input[n];
      assert input == s + [x];
      RunsPartitionInput(s, disc);
      RunsStep(s, x, disc);
      var rs := Runs(s, disc);
      if s == [] {
        StartNewRun([], x, disc);
      } else if rs[|rs| - 1].value != disc(x) {
        StartNewRun(rs, x, disc);
      } else {
        ExtendLastRun(rs, x, disc);
      }
    }
  }

  /**
    What `rangeify` yields is the list of runs without the last one: nothing
    for empty input, and for any other input every run but the final one.
   */
  lemma YieldedDropsLastRun<T, V>(input: seq<T>, disc: T -> V)
    ensures input == [] ==> Yielded(input, disc) == [] && Runs(input, disc) == []
    ensures input != [] ==>
      var rs := Runs(input, disc);
      |rs| > 0 && Yielded(input, disc) == rs[..|rs| - 1]
      && Items(Yielded(input, disc)) + rs[|rs| - 1].items == input
  {
    ScanOpen(input, disc);
    RunsPartitionInput(input, disc);
    var rs := Runs(input, disc);
    if input != [] {
      assert rs == Yielded(input, disc) + [rs[|rs| - 1]];
      ItemsAppend(Yielded(input, disc), rs[|rs| - 1]);
    }
  }

  /**
    The yielded ranges are non-empty, homogeneous and maximal: neighbours
    differ, and the last one is followed by an item of another value.
   */
  lemma YieldedRangesMaximal<T, V>(input: seq<T>, disc: T -> V)
    ensures Homogeneous(Yielded(input, disc), disc)
    ensures Alternating(Yielded(input, disc))
    ensures Yielded(input, disc) != [] ==>
      Yielded(input, disc)[|Yielded(input, disc)| - 1].value != disc(input[|input| - 1])
  {
    RunsPartitionInput(input, disc);
    ScanOpen(input, disc);
    YieldedDropsLastRun(input, disc);
    var ys := Yielded(input, disc);
    if input != [] {
      var rs := Runs(input, disc);
      assert forall i :: 0 <= i < |ys| ==> ys[i] == rs[i];
      assert rs[|rs| - 1] == ScanOf(input, disc).open.value;
    }
  }

  /** `rangeify` yields nothing exactly when all items share one value (the empty input included). */
  lemma {:induction false} YieldsNothingIffConstant<T, V>(input: seq<T>, disc: T -> V)
    ensures Yielded(input, disc) == [] <==> Constant(input, disc)
    decreases |input|
  {
    if input != [] {
      var n := |input| - 1;
      var s, x := input[..n], input[n];
      assert input == s + [x];
      YieldsNothingIffConstant(s, disc);
      ScanOpen(s, disc);
      var st := ScanOf(s, disc);
      if s != [] {
        assert s[0] == input[0];
        if Constant(s, disc) {
          assert st.open.value.value == disc(s[n - 1]) == disc(input[0]);
          assert Constant(input, disc) <==> disc(x) == disc(input[0]);
        } else {
          assert !Constant(input, disc) by {
            var i :| 0 <= i < |s| && disc(s[i]) != disc(s[0]);
            assert input[i] == s[i];
          }
        }
      }
    }
  }
}
