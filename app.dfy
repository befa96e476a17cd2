/**
  The calendar state of the `App` component (src/App.tsx): the default
  months built day by day, the single-index `replace`, the header offset
  computed by `filler`, the `newMonths` value of `toggleDrunk`, and the flag
  list `save` writes and `load` reads back.
 */
module App {
  import opened Assoc
  import opened Seqs
  import opened Buckets
  import opened Days

  /** `start` (2020-01-01) and `end` (2021-01-01) as day numbers: 2020 has 366 days. */
  const Start: int := 1
  const End: int := 367

  /** One unmarked record per day of `[start, end)`, in date order. */
  function DaysBetween(start: int, end: int): (days: seq<DayInfo>)
    ensures |days| == if start < end then end - start else 0
    ensures forall i :: 0 <= i < |days| ==> days[i] == DayInfo(start + i, false)
  {
    seq(if start < end then end - start else 0, i => DayInfo(start + i, false))
  }

  /** The `defaultMonths` loop: every day is pushed into the bucket of its month name. */
  method DefaultMonths(cal: Calendar, start: int, end: int) returns (months: Months)
    ensures months == BucketsOf(DaysBetween(start, end), MonthKey(cal))
  {
    months := [];
    var current := start;
    while current < end
      invariant start <= current && (current <= end || current == start)
      invariant months == BucketsOf(DaysBetween(start, current), MonthKey(cal))
      decreases end - current
    {
      var name := cal.monthName(current);
      var existing := Get(months, name);
      var bucket := if existing.Some? then existing.value else [];
      months := Put(months, name, bucket + [DayInfo(current, false)]);
      DaysBetweenExtend(start, current, cal);
      current := current + 1;
    }
    assert DaysBetween(start, current) == DaysBetween(start, end);
  }

  /** One day more adds one record to its month's bucket. */
  lemma DaysBetweenExtend(start: int, current: int, cal: Calendar)
    requires start <= current
    ensures BucketsOf(DaysBetween(start, current + 1), MonthKey(cal)) ==
      Insert(BucketsOf(DaysBetween(start, current), MonthKey(cal)), cal.monthName(current), DayInfo(current, false))
  {
    assert DaysBetween(start, current + 1)[..current - start] == DaysBetween(start, current);
  }

  /**
    The default months hold one record per day of `[start, end)`: each month
    name has one bucket, the bucket sizes add up to the number of days, every
    record is unmarked and lies in its own month's bucket, and each bucket is
    in date order.
   */
  lemma DefaultMonthsContents(cal: Calendar, start: int, end: int)
    ensures DistinctKeys(BucketsOf(DaysBetween(start, end), MonthKey(cal)))
    ensures Total(MapValues(BucketsOf(DaysBetween(start, end), MonthKey(cal)), Length)) ==
      if start < end then end - start else 0
    ensures forall i :: 0 <= i < |BucketsOf(DaysBetween(start, end), MonthKey(cal))| ==>
      Increasing(BucketsOf(DaysBetween(start, end), MonthKey(cal))[i].1, Date)
    ensures forall i, j :: (0 <= i < |BucketsOf(DaysBetween(start, end), MonthKey(cal))| &&
      0 <= j < |BucketsOf(DaysBetween(start, end), MonthKey(cal))[i].1|) ==>
        var day := BucketsOf(DaysBetween(start, end), MonthKey(cal))[i].1[j];
        !day.drunk && start <= day.date < end &&
        cal.monthName(day.date) == BucketsOf(DaysBetween(start, end), MonthKey(cal))[i].0
    ensures forall d :: start <= d < end ==>
      var bucket := Get(BucketsOf(DaysBetween(start, end), MonthKey(cal)), cal.monthName(d));
      bucket.Some? && DayInfo(d, false) in bucket.value
  {
    var days := DaysBetween(start, end);
    var key := MonthKey(cal);
    var b := BucketsOf(days, key);
    BucketKeysDistinct(days, key);
    BucketSizesSum(days, key);
    BucketsAreSelections(days, key);
    forall i | 0 <= i < |b|
      ensures Increasing(b[i].1, Date)
      ensures forall j :: 0 <= j < |b[i].1| ==>
        !b[i].1[j].drunk && start <= b[i].1[j].date < end && cal.monthName(b[i].1[j].date) == b[i].0
    {
      DefaultBucket(cal, start, end, b[i].0);
    }
    forall d | start <= d < end
      ensures Get(b, cal.monthName(d)).Some? && DayInfo(d, false) in Get(b, cal.monthName(d)).value
    {
      DefaultDayPresent(cal, start, end, d);
    }
  }

  /** The default bucket of month `k`: its unmarked days of `[start, end)`, all named `k`, in date order. */
  lemma DefaultBucket(cal: Calendar, start: int, end: int, k: string)
    ensures Increasing(Select(DaysBetween(start, end), MonthKey(cal), k), Date)
    ensures forall j :: 0 <= j < |Select(DaysBetween(start, end), MonthKey(cal), k)| ==>
      var day := Select(DaysBetween(start, end), MonthKey(cal), k)[j];
      !day.drunk && start <= day.date < end && cal.monthName(day.date) == k
  {
    var days := DaysBetween(start, end);
    var key := MonthKey(cal);
    assert Increasing(days, Date);
    SelectIsFilter(days, key, k);
    FilterKeepsOrder(days, HasKey(key, k), Date);
    var r := Filter(days, HasKey(key, k));
    forall j | 0 <= j < |r| ensures !r[j].drunk && start <= r[j].date < end && cal.monthName(r[j].date) == k {
      assert r[j] in days && HasKey(key, k)(r[j]);
    }
  }

  /** Every day of `[start, end)` is in the default bucket of its month. */
  lemma DefaultDayPresent(cal: Calendar, start: int, end: int, d: int)
    requires start <= d < end
    ensures Get(BucketsOf(DaysBetween(start, end), MonthKey(cal)), cal.monthName(d)).Some?
    ensures DayInfo(d, false) in Get(BucketsOf(DaysBetween(start, end), MonthKey(cal)), cal.monthName(d)).value
  {
    var days := DaysBetween(start, end);
    var key := MonthKey(cal);
    var b := BucketsOf(days, key);
    var k := cal.monthName(d);
    BucketsAreSelections(days, key);
    BucketKeysSeen(days, key);
    var x := days[d - start];
    assert key(x) == k;
    assert FirstSeen(days, key, k) < |days|;
    var i := Find(b, k);
    SelectIsFilter(days, key, k);
    assert b[i].1 == Filter(days, HasKey(key, k));
  }

  /** When each month's days are consecutive, the default records read bucket after bucket are the days in order. */
  lemma DefaultMonthsFlatten(cal: Calendar, start: int, end: int)
    requires Contiguous(DaysBetween(start, end), MonthKey(cal))
    ensures Concat(BucketsOf(DaysBetween(start, end), MonthKey(cal))) == DaysBetween(start, end)
  {
    BucketsConcatContiguous(DaysBetween(start, end), MonthKey(cal));
  }

  /** JavaScript's `slice` index: a negative one counts from the end, then it is clamped to `[0, len]`. */
  function SliceIndex(i: int, len: nat): (r: nat)
    ensures r <= len
    ensures 0 <= i <= len ==> r == i
    ensures i > len ==> r == len
  {
    if i < 0 then (if len + i < 0 then 0 else len + i)
    else if i > len then len
    else i
  }

  /** `array.slice(begin, end)`. */
  function Slice<T>(a: seq<T>, begin: int, end: int): seq<T> {
    var b, e := SliceIndex(begin, |a|), SliceIndex(end, |a|);
    if b < e then a[b..e] else []
  }

  /** `replace(index, value, array)`: everything before `index`, then `value`, then everything after it. */
  function Replace<T>(index: int, value: T, items: seq<T>): (r: seq<T>)
    ensures 0 <= index < |items| ==> r == items[index := value]
    ensures index >= |items| ==> r == items + [value]
  {
    Slice(items, 0, index) + [value] + Slice(items, index + 1, |items|)
  }

  /** Within bounds, `replace` is a single-index update: same length, `value` at `index`, the rest unchanged. */
  lemma ReplaceInRange<T>(index: int, value: T, items: seq<T>)
    requires 0 <= index < |items|
    ensures |Replace(index, value, items)| == |items|
    ensures Replace(index, value, items)[index] == value
    ensures forall j :: 0 <= j < |items| && j != index ==> Replace(index, value, items)[j] == items[j]
  {
    assert Slice(items, 0, index) == items[..index];
    assert Slice(items, index + 1, |items|) == items[index + 1..];
  }

  /** At or past the end, `replace` appends `value`. */
  lemma ReplaceBeyondEnd<T>(index: int, value: T, items: seq<T>)
    requires index >= |items|
    ensures Replace(index, value, items) == items + [value]
  {
    assert Slice(items, 0, index) == items;
    assert Slice(items, index + 1, |items|) == [];
  }

  /** The weekday (`day()`) under each column of the header `pn wt śr cz pt so nd`. */
  const HeaderWeekdays: seq<Weekday> := [1, 2, 3, 4, 5, 6, 0]

  /**
    `filler(days)`: the number of empty cells before the month's first day.
    The first day then lands under the header column of its own weekday.
   */
  function Filler(days: seq<DayInfo>, cal: Calendar): (fill: nat)
    requires days != []
    ensures fill < 7
    ensures HeaderWeekdays[fill] == cal.weekday(days[0].date)
  {
    (cal.weekday(days[0].date) + 6) % 7
  }

  /** A month starting on a Monday needs no empty cell, one starting on a Sunday six. */
  lemma FillerMondaySunday(days: seq<DayInfo>, cal: Calendar)
    requires days != []
    ensures cal.weekday(days[0].date) == 1 <==> Filler(days, cal) == 0
    ensures cal.weekday(days[0].date) == 0 <==> Filler(days, cal) == 6
  {
  }

  /** Consecutive records of `days` fall on consecutive weekdays. */
  ghost predicate ConsecutiveWeekdays(days: seq<DayInfo>, cal: Calendar) {
    forall j :: 0 < j < |days| ==> cal.weekday(days[j].date) == (cal.weekday(days[j - 1].date) + 1) % 7
  }

  lemma {:induction false} WeekdayAfter(days: seq<DayInfo>, cal: Calendar, j: nat)
    requires ConsecutiveWeekdays(days, cal) && j < |days|
    ensures cal.weekday(days[j].date) == (cal.weekday(days[0].date) + j) % 7
  {
    if j > 0 {
      WeekdayAfter(days, cal, j - 1);
    }
  }

  /**
    If the cells of the day list wrap every seven under the seven header
    cells, the day in cell `Filler + j` sits under the header column of its
    own weekday. The wrapping comes from the stylesheet, not from the
    component: the lemma assumes that layout.
   */
  lemma GridColumnsMatchWeekdays(days: seq<DayInfo>, cal: Calendar)
    requires days != [] && ConsecutiveWeekdays(days, cal)
    ensures forall j :: 0 <= j < |days| ==> HeaderWeekdays[(Filler(days, cal) + j) % 7] == cal.weekday(days[j].date)
  {
    var fill := Filler(days, cal);
    var w := cal.weekday(days[0].date);
    forall j | 0 <= j < |days| ensures HeaderWeekdays[(fill + j) % 7] == cal.weekday(days[j].date) {
      WeekdayAfter(days, cal, j);
      HeaderColumn(w, j);
    }
  }

  /** Column `(Filler + j) % 7` shows the weekday `j` days after a first day of weekday `w`. */
  lemma HeaderColumn(w: Weekday, j: nat)
    ensures HeaderWeekdays[((w + 6) % 7 + j) % 7] == (w + j) % 7
  {
    var c := ((w + 6) % 7 + j) % 7;
    assert c == (w + 6 + j) % 7;
    assert HeaderWeekdays[c] == (c + 1) % 7;
  }

  /** The `newMonths` of `toggleDrunk(day)`: the day's month bucket with the flag of cell `date() - 1` flipped. */
  function ToggleDrunk(months: Months, day: DayInfo, cal: Calendar): (r: Months)
    requires Get(months, cal.monthName(day.date)).Some?
    ensures |r| == |months|
    ensures var i := Find(months, cal.monthName(day.date));
      && r[i].0 == months[i].0
      && (forall j :: 0 <= j < |months| && j != i ==> r[j] == months[j])
      && (0 <= cal.dayOfMonth(day.date) - 1 < |months[i].1| ==>
            r[i].1 == months[i].1[cal.dayOfMonth(day.date) - 1 := DayInfo(day.date, !day.drunk)])
  {
    var name := cal.monthName(day.date);
    Put(months, name, Replace(cal.dayOfMonth(day.date) - 1, DayInfo(day.date, !day.drunk), Get(months, name).value))
  }

  /**
    Toggling changes only the clicked day's month bucket, which keeps its
    position; within it only the clicked cell changes, to the day with its
    flag negated.
   */
  lemma ToggleChangesOnlyClickedDay(months: Months, day: DayInfo, cal: Calendar)
    requires Get(months, cal.monthName(day.date)).Some?
    ensures Keys(ToggleDrunk(months, day, cal)) == Keys(months)
    ensures forall i :: 0 <= i < |months| && months[i].0 != cal.monthName(day.date) ==>
      ToggleDrunk(months, day, cal)[i] == months[i]
    ensures var bucket := Get(months, cal.monthName(day.date)).value;
      var index := cal.dayOfMonth(day.date) - 1;
      var i := Find(months, cal.monthName(day.date));
      0 <= index < |bucket| ==>
        ToggleDrunk(months, day, cal)[i].1 == bucket[index := DayInfo(day.date, !day.drunk)]
  {
    var name := cal.monthName(day.date);
    var bucket := Get(months, name).value;
    var index := cal.dayOfMonth(day.date) - 1;
    var r := ToggleDrunk(months, day, cal);
    var i := Find(months, name);
    assert r == months[i := (name, Replace(index, DayInfo(day.date, !day.drunk), bucket))];
    if 0 <= index < |bucket| {
      ReplaceInRange(index, DayInfo(day.date, !day.drunk), bucket);
    }
  }

  /**
    Clicking a day twice (the second time on the record the first click put
    there) restores the months. `ClickOnShownDay` shows that every record
    the calendar shows meets the cell premise.
   */
  lemma ToggleTwiceRestores(months: Months, day: DayInfo, cal: Calendar)
    requires Get(months, cal.monthName(day.date)).Some?
    requires 0 <= cal.dayOfMonth(day.date) - 1 < |Get(months, cal.monthName(day.date)).value|
    requires Get(months, cal.monthName(day.date)).value[cal.dayOfMonth(day.date) - 1] == day
    ensures Get(ToggleDrunk(months, day, cal), cal.monthName(day.date)).Some?
    ensures ToggleDrunk(ToggleDrunk(months, day, cal), DayInfo(day.date, !day.drunk), cal) == months
  {
    var name := cal.monthName(day.date);
    var bucket := Get(months, name).value;
    var index := cal.dayOfMonth(day.date) - 1;
    var i := Find(months, name);
    var flipped := DayInfo(day.date, !day.drunk);
    ToggleChangesOnlyClickedDay(months, day, cal);
    var once := ToggleDrunk(months, day, cal);
    ReplaceInRange(index, flipped, bucket);
    assert once == months[i := (name, bucket[index := flipped])];
    assert Find(once, name) == i;
    var bucket' := bucket[index := flipped];
    assert Get(once, name).value == bucket';
    assert DayInfo(flipped.date, !flipped.drunk) == day;
    ReplaceInRange(index, day, bucket');
    assert bucket'[index := day] == bucket;
    assert Replace(index, day, bucket') == bucket;
    assert ToggleDrunk(once, flipped, cal) == once[i := (name, bucket)];
  }

  /** Same month keys in the same order, same bucket sizes and the same dates: only flags may differ. */
  ghost predicate SameShape(a: Months, b: Months) {
    && |a| == |b|
    && (forall i :: 0 <= i < |a| ==> a[i].0 == b[i].0 && |a[i].1| == |b[i].1|)
    && (forall i, j :: 0 <= i < |a| && 0 <= j < |a[i].1| ==> a[i].1[j].date == b[i].1[j].date)
  }

  /** Clicking a day whose cell holds that day keeps the shape of the months. */
  lemma ToggleKeepsShape(months: Months, day: DayInfo, cal: Calendar)
    requires Get(months, cal.monthName(day.date)).Some?
    requires 0 <= cal.dayOfMonth(day.date) - 1 < |Get(months, cal.monthName(day.date)).value|
    requires Get(months, cal.monthName(day.date)).value[cal.dayOfMonth(day.date) - 1].date == day.date
    ensures SameShape(ToggleDrunk(months, day, cal), months)
  {
    ToggleChangesOnlyClickedDay(months, day, cal);
  }

  /** The flags `save` writes: every record's `drunk`, bucket after bucket. */
  function Save(months: Months): (flags: seq<bool>)
    ensures |flags| == |Concat(months)|
    ensures forall i :: 0 <= i < |flags| ==> flags[i] == Concat(months)[i].drunk
  {
    var days := Concat(months);
    seq(|days|, i requires 0 <= i < |days| => days[i].drunk)
  }

  /**
    `loaded[i]`. Past the end the code reads `undefined` and the model reads
    `false`; the two agree for the `filter`s of the statistics but not for
    `rangeify` (see `App.Load` under Left out in README.md).
   */
  function Flag(loaded: seq<bool>, i: int): bool {
    if 0 <= i < |loaded| then loaded[i] else false
  }

  /** `days.map(day => ({ date: day.date, drunk: loaded[day.date.dayOfYear() - 1] }))`. */
  function Reload(days: seq<DayInfo>, loaded: seq<bool>): (r: seq<DayInfo>)
    ensures |r| == |days|
    ensures forall j :: 0 <= j < |days| ==> r[j] == DayInfo(days[j].date, Flag(loaded, days[j].date - 1))
  {
    seq(|days|, j requires 0 <= j < |days| => DayInfo(days[j].date, Flag(loaded, days[j].date - 1)))
  }

  function ReloadWith(loaded: seq<bool>): seq<DayInfo> -> seq<DayInfo> {
    (days: seq<DayInfo>) => Reload(days, loaded)
  }

  /** `load()`, given the stored flags (`None` when nothing is stored) and the default months. */
  function Load(item: Option<seq<bool>>, defaults: Months): (months: Months)
    ensures item.None? ==> months == defaults
    ensures Keys(months) == Keys(defaults)
    ensures forall i :: 0 <= i < |defaults| ==> |months[i].1| == |defaults[i].1|
  {
    match item
    case None => defaults
    case Some(loaded) => MapValues(defaults, ReloadWith(loaded))
  }

  /**
    Loading keeps every month key, bucket and date of the defaults and sets
    only the flags, each read at the day's number less one; with nothing
    stored it gives the defaults.
   */
  lemma LoadKeepsShape(item: Option<seq<bool>>, defaults: Months)
    ensures SameShape(Load(item, defaults), defaults)
    ensures item.None? ==> Load(item, defaults) == defaults
    ensures item.Some? ==> forall i, j :: 0 <= i < |defaults| && 0 <= j < |defaults[i].1| ==>
      Load(item, defaults)[i].1[j].drunk == Flag(item.value, defaults[i].1[j].date - 1)
  {
  }

  /** The records of the defaults are the days 1, 2, 3, ... read bucket after bucket. */
  ghost predicate NumberedFromOne(months: Months) {
    forall k :: 0 <= k < |Concat(months)| ==> Concat(months)[k].date == k + 1
  }

  lemma {:induction false} ConcatShape(a: Months, b: Months)
    requires SameShape(a, b)
    ensures |Concat(a)| == |Concat(b)|
    ensures forall k :: 0 <= k < |Concat(a)| ==> Concat(a)[k].date == Concat(b)[k].date
    decreases |a|
  {
    if a != [] {
      assert SameShape(a[1..], b[1..]) by {
        forall i | 0 <= i < |a[1..]| ensures a[1..][i] == a[i + 1] && b[1..][i] == b[i + 1] { }
      }
      ConcatShape(a[1..], b[1..]);
      var n := |a[0].1|;
      forall k | 0 <= k < |Concat(a)| ensures Concat(a)[k].date == Concat(b)[k].date {
        if k >= n {
          assert Concat(a)[k] == Concat(a[1..])[k - n];
          assert Concat(b)[k] == Concat(b[1..])[k - n];
        }
      }
    }
  }

  lemma {:induction false} ShapeAndConcatDetermine(a: Months, b: Months)
    requires SameShape(a, b) && Concat(a) == Concat(b)
    ensures a == b
    decreases |a|
  {
    if a != [] {
      var n := |a[0].1|;
      assert a[0].1 == Concat(a)[..n];
      assert b[0].1 == Concat(b)[..n];
      assert Concat(a[1..]) == Concat(a)[n..];
      assert Concat(b[1..]) == Concat(b)[n..];
      assert SameShape(a[1..], b[1..]) by {
        forall i | 0 <= i < |a[1..]| ensures a[1..][i] == a[i + 1] && b[1..][i] == b[i + 1] { }
      }
      ShapeAndConcatDetermine(a[1..], b[1..]);
      assert a == [a[0]] + a[1..] && b == [b[0]] + b[1..];
    }
  }

  lemma {:induction false} ConcatReload(m: Months, loaded: seq<bool>)
    ensures Concat(MapValues(m, ReloadWith(loaded))) == Reload(Concat(m), loaded)
    decreases |m|
  {
    if m != [] {
      assert MapValues(m, ReloadWith(loaded))[1..] == MapValues(m[1..], ReloadWith(loaded));
      ConcatReload(m[1..], loaded);
      ReloadAppend(m[0].1, Concat(m[1..]), loaded);
    }
  }

  lemma ReloadAppend(x: seq<DayInfo>, y: seq<DayInfo>, loaded: seq<bool>)
    ensures Reload(x + y, loaded) == Reload(x, loaded) + Reload(y, loaded)
  {
  }

  /**
    Saving and then loading recovers every record, provided the months have
    the defaults' shape and the defaults are numbered from one in bucket order.
   */
  lemma SaveLoadRoundTrip(months: Months, defaults: Months)
    requires SameShape(months, defaults) && NumberedFromOne(defaults)
    ensures Load(Some(Save(months)), defaults) == months
  {
    var flags := Save(months);
    var l := Load(Some(flags), defaults);
    ConcatShape(months, defaults);
    ConcatReload(defaults, flags);
    assert Concat(l) == Concat(months) by {
      forall k | 0 <= k < |Concat(l)| ensures Concat(l)[k] == Concat(months)[k] {
        assert Concat(defaults)[k].date == k + 1;
      }
    }
    assert SameShape(l, months);
    ShapeAndConcatDetermine(l, months);
  }

  /** Loading a flag list of the right length and saving again writes the same list. */
  lemma LoadSaveRoundTrip(flags: seq<bool>, defaults: Months)
    requires NumberedFromOne(defaults) && |flags| == |Concat(defaults)|
    ensures Save(Load(Some(flags), defaults)) == flags
  {
    ConcatReload(defaults, flags);
    var l := Load(Some(flags), defaults);
    forall k | 0 <= k < |flags| ensures Save(l)[k] == flags[k] {
      assert Concat(defaults)[k].date == k + 1;
    }
  }

  /** The program's own defaults are numbered from one when each month's days are consecutive. */
  lemma DefaultMonthsNumberedFromOne(cal: Calendar)
    requires Contiguous(DaysBetween(Start, End), MonthKey(cal))
    ensures NumberedFromOne(BucketsOf(DaysBetween(Start, End), MonthKey(cal)))
  {
    DefaultMonthsFlatten(cal, Start, End);
  }

  lemma SameShapeTransitive(a: Months, b: Months, c: Months)
    requires SameShape(a, b) && SameShape(b, c)
    ensures SameShape(a, c)
  {
  }

  /**
    What `toggleDrunk` saves loads back as the months it sets: the saved
    state stays in step with the shown one as long as the months keep the
    defaults' shape. `ClickOnShownDay` discharges the cell premise for every
    record the calendar shows.
   */
  lemma ToggleIsPersisted(months: Months, defaults: Months, day: DayInfo, cal: Calendar)
    requires SameShape(months, defaults) && NumberedFromOne(defaults)
    requires Get(months, cal.monthName(day.date)).Some?
    requires 0 <= cal.dayOfMonth(day.date) - 1 < |Get(months, cal.monthName(day.date)).value|
    requires Get(months, cal.monthName(day.date)).value[cal.dayOfMonth(day.date) - 1].date == day.date
    ensures SameShape(ToggleDrunk(months, day, cal), defaults)
    ensures Load(Some(Save(ToggleDrunk(months, day, cal))), defaults) == ToggleDrunk(months, day, cal)
  {
    ToggleKeepsShape(months, day, cal);
    SameShapeTransitive(ToggleDrunk(months, day, cal), months, defaults);
    SaveLoadRoundTrip(ToggleDrunk(months, day, cal), defaults);
  }

  /**
    moment's `date()` over `[start, end)`: 1 on the first day and on every day
    whose month name differs from the day before's, otherwise one more than
    the day before's.
   */
  ghost predicate DaysOfMonthCount(cal: Calendar, start: int, end: int) {
    forall d :: start <= d < end ==>
      cal.dayOfMonth(d) == if start < d && cal.monthName(d - 1) == cal.monthName(d) then cal.dayOfMonth(d - 1) + 1 else 1
  }

  /** Cell `j` of every bucket holds a day whose `date()` is `j + 1`. */
  ghost predicate CellsNumbered(months: Months, cal: Calendar) {
    forall i, j :: 0 <= i < |months| && 0 <= j < |months[i].1| ==> cal.dayOfMonth(months[i].1[j].date) == j + 1
  }

  /**
    When each month's days are consecutive and `date()` counts them from 1,
    the `defaultMonths` loop puts every day into cell `date() - 1` of its
    month's bucket, at every stage of the loop.
   */
  lemma {:induction false} DefaultCellsNumbered(cal: Calendar, start: int, c: int, end: int)
    requires start <= c <= end
    requires Contiguous(DaysBetween(start, end), MonthKey(cal)) && DaysOfMonthCount(cal, start, end)
    ensures CellsNumbered(BucketsOf(DaysBetween(start, c), MonthKey(cal)), cal)
    decreases c - start
  {
    if c > start {
      var p := c - 1;
      DefaultCellsNumbered(cal, start, p, end);
      NextDayCell(cal, start, p, end);
      DaysBetweenExtend(start, p, cal);
      InsertKeepsCellsNumbered(BucketsOf(DaysBetween(start, p), MonthKey(cal)), cal, cal.monthName(p), DayInfo(p, false));
    }
  }

  /** Putting a day whose `date()` is one more than its bucket's size keeps the cells numbered. */
  lemma InsertKeepsCellsNumbered(b: Months, cal: Calendar, k: string, x: DayInfo)
    requires CellsNumbered(b, cal)
    requires cal.dayOfMonth(x.date) == (if Find(b, k) < |b| then |b[Find(b, k)].1| else 0) + 1
    ensures CellsNumbered(Insert(b, k, x), cal)
  {
  }

  /** The next day of the loop has `date()` one more than the size its month's bucket has so far. */
  lemma NextDayCell(cal: Calendar, start: int, p: int, end: int)
    requires start <= p < end
    requires Contiguous(DaysBetween(start, end), MonthKey(cal)) && DaysOfMonthCount(cal, start, end)
    requires CellsNumbered(BucketsOf(DaysBetween(start, p), MonthKey(cal)), cal)
    ensures var b := BucketsOf(DaysBetween(start, p), MonthKey(cal));
      var i := Find(b, cal.monthName(p));
      cal.dayOfMonth(p) == (if i < |b| then |b[i].1| else 0) + 1
  {
    var b := BucketsOf(DaysBetween(start, p), MonthKey(cal));
    var i := Find(b, cal.monthName(p));
    if i < |b| {
      MonthContinues(cal, start, p, end);
      assert cal.dayOfMonth(p - 1) == |b[i].1|;
    } else if start < p {
      MonthStarts(cal, start, p);
    }
  }

  /**
    If the next day's month has a bucket already, then by contiguity the day
    before is of the same month and is the last record of that bucket.
   */
  lemma MonthContinues(cal: Calendar, start: int, p: int, end: int)
    requires start <= p < end
    requires Contiguous(DaysBetween(start, end), MonthKey(cal))
    requires Find(BucketsOf(DaysBetween(start, p), MonthKey(cal)), cal.monthName(p)) < |BucketsOf(DaysBetween(start, p), MonthKey(cal))|
    ensures start < p && cal.monthName(p - 1) == cal.monthName(p)
    ensures var b := BucketsOf(DaysBetween(start, p), MonthKey(cal));
      var bucket := b[Find(b, cal.monthName(p))].1;
      bucket[|bucket| - 1] == DayInfo(p - 1, false)
  {
    PreviousDaySameMonth(cal, start, p, end);
    var key := MonthKey(cal);
    DaysBetweenExtend(start, p - 1, cal);
    InsertEndsWith(BucketsOf(DaysBetween(start, p - 1), key), cal.monthName(p), DayInfo(p - 1, false));
  }

  lemma PreviousDaySameMonth(cal: Calendar, start: int, p: int, end: int)
    requires start <= p < end
    requires Contiguous(DaysBetween(start, end), MonthKey(cal))
    requires Find(BucketsOf(DaysBetween(start, p), MonthKey(cal)), cal.monthName(p)) < |BucketsOf(DaysBetween(start, p), MonthKey(cal))|
    ensures start < p && cal.monthName(p - 1) == cal.monthName(p)
  {
    var key := MonthKey(cal);
    var s := DaysBetween(start, p);
    var b := BucketsOf(s, key);
    var k := cal.monthName(p);
    BucketKeysSeen(s, key);
    assert k == Keys(b)[Find(b, k)];
    var f := FirstSeen(s, key, k);
    var days := DaysBetween(start, end);
    assert f < |s| == p - start;
    assert days[f] == s[f] && key(days[f]) == key(days[p - start]);
    assert key(days[p - start - 1]) == key(days[p - start]);
    assert days[p - start - 1] == DayInfo(p - 1, false);
  }

  /** If the next day's month has no bucket yet, the day before was of another month. */
  lemma MonthStarts(cal: Calendar, start: int, p: int)
    requires start < p
    requires Find(BucketsOf(DaysBetween(start, p), MonthKey(cal)), cal.monthName(p)) == |BucketsOf(DaysBetween(start, p), MonthKey(cal))|
    ensures cal.monthName(p - 1) != cal.monthName(p)
  {
    var key := MonthKey(cal);
    var s := DaysBetween(start, p);
    var b := BucketsOf(s, key);
    var k := cal.monthName(p);
    BucketKeysSeen(s, key);
    assert k !in Keys(b);
    assert FirstSeen(s, key, k) == |s|;
    assert key(s[|s| - 1]) != k;
  }

  /**
    In the 2020 defaults, when each month's days are consecutive and `date()`
    counts them from 1, cell `date() - 1` of day `d`'s month bucket is day `d`:
    the cell `toggleDrunk` replaces is the one the clicked day is shown in.
   */
  lemma DefaultCellOfDay(cal: Calendar, d: int)
    requires Contiguous(DaysBetween(Start, End), MonthKey(cal)) && DaysOfMonthCount(cal, Start, End)
    requires Start <= d < End
    ensures Get(BucketsOf(DaysBetween(Start, End), MonthKey(cal)), cal.monthName(d)).Some?
    ensures var bucket := Get(BucketsOf(DaysBetween(Start, End), MonthKey(cal)), cal.monthName(d)).value;
      0 <= cal.dayOfMonth(d) - 1 < |bucket| && bucket[cal.dayOfMonth(d) - 1] == DayInfo(d, false)
  {
    var b := BucketsOf(DaysBetween(Start, End), MonthKey(cal));
    DefaultDayPresent(cal, Start, End, d);
    DefaultCellsNumbered(cal, Start, End, End);
    var i := Find(b, cal.monthName(d));
    var j :| 0 <= j < |b[i].1| && b[i].1[j] == DayInfo(d, false);
    assert cal.dayOfMonth(d) == j + 1;
  }

  /**
    Every months value of the defaults' shape is numbered like them: the
    record in cell `j` of bucket `i` has `date()` equal to `j + 1` and lies
    in the month named by bucket `i`, and no month name repeats.
   */
  lemma ShapedCells(months: Months, cal: Calendar)
    requires Contiguous(DaysBetween(Start, End), MonthKey(cal)) && DaysOfMonthCount(cal, Start, End)
    requires SameShape(months, BucketsOf(DaysBetween(Start, End), MonthKey(cal)))
    ensures DistinctKeys(months)
    ensures forall i, j :: 0 <= i < |months| && 0 <= j < |months[i].1| ==>
      cal.dayOfMonth(months[i].1[j].date) == j + 1 && cal.monthName(months[i].1[j].date) == months[i].0
  {
    var b := BucketsOf(DaysBetween(Start, End), MonthKey(cal));
    DefaultMonthsContents(cal, Start, End);
    DefaultCellsNumbered(cal, Start, End, End);
    forall i, j | 0 <= i < |months| && 0 <= j < |months[i].1|
      ensures cal.dayOfMonth(months[i].1[j].date) == j + 1 && cal.monthName(months[i].1[j].date) == months[i].0
    {
      assert months[i].1[j].date == b[i].1[j].date;
    }
  }

  /**
    A click on any record the calendar shows, in months of the defaults'
    shape: the clicked record's month is found at its own bucket and its
    `date() - 1` is its own cell, so the click flips exactly that record, a
    second click restores the months, and what is saved loads back.
   */
  lemma ClickOnShownDay(months: Months, cal: Calendar, i: nat, j: nat)
    requires Contiguous(DaysBetween(Start, End), MonthKey(cal)) && DaysOfMonthCount(cal, Start, End)
    requires SameShape(months, BucketsOf(DaysBetween(Start, End), MonthKey(cal)))
    requires i < |months| && j < |months[i].1|
    ensures Find(months, cal.monthName(months[i].1[j].date)) == i
    ensures cal.dayOfMonth(months[i].1[j].date) - 1 == j
    ensures ToggleDrunk(months, months[i].1[j], cal) ==
      months[i := (months[i].0, months[i].1[j := DayInfo(months[i].1[j].date, !months[i].1[j].drunk)])]
    ensures ToggleDrunk(ToggleDrunk(months, months[i].1[j], cal), DayInfo(months[i].1[j].date, !months[i].1[j].drunk), cal) == months
    ensures var once := ToggleDrunk(months, months[i].1[j], cal);
      Load(Some(Save(once)), BucketsOf(DaysBetween(Start, End), MonthKey(cal))) == once
  {
    var defaults := BucketsOf(DaysBetween(Start, End), MonthKey(cal));
    var day := months[i].1[j];
    var name := cal.monthName(day.date);
    ShapedCells(months, cal);
    assert months[i].0 == name;
    var f := Find(months, name);
    assert f == i by {
      assert Keys(months)[i] == name;
    }
    assert Get(months, name).value == months[i].1;
    ToggleChangesOnlyClickedDay(months, day, cal);
    var once := ToggleDrunk(months, day, cal);
    assert once == months[i := (months[i].0, months[i].1[j := DayInfo(day.date, !day.drunk)])];
    ToggleTwiceRestores(months, day, cal);
    DefaultMonthsNumberedFromOne(cal);
    assert SameShape(months, defaults);
    ToggleIsPersisted(months, defaults, day, cal);
  }
}
