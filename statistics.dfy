/**
  The aggregation in the `Statistics` component (src/Statistics.tsx): the
  past days, their drunk and sober totals, drunk-day counts per weekday and
  per month with the best and worst of each, and the longest drunk and sober
  streaks among the ranges `rangeify` yields.
 */
module Statistics {
  import opened Assoc
  import opened Seqs
  import opened Buckets
  import opened Ranges
  import opened Extremes
  import opened Days

  type Streak = Range<bool, DayInfo>

  /** A `[name, count]` pair as `toPairs` gives it, the count widened to a score. */
  type NamedScore = (string, Score)

  /** The name shown when there is nothing to choose from. */
  const NoData: string := "Brak"

  /** The streak sentinel `{ value: true, items: [] }` (used for both streak kinds). */
  const NoStreak: Streak := Range(true, [])

  function IsDrunk(day: DayInfo): bool { day.drunk }

  function IsSober(day: DayInfo): bool { !day.drunk }

  /** `day => day.date.isBefore(today)`. */
  function Before(today: int): DayInfo -> bool {
    (day: DayInfo) => day.date < today
  }

  function WeekdayKey(cal: Calendar): DayInfo -> string {
    (day: DayInfo) => cal.weekdayName(day.date)
  }

  /** `day => day.filter(day => day.drunk).length`. */
  function DrunkCount(days: seq<DayInfo>): int {
    |Filter(days, IsDrunk)|
  }

  function ToPairs(counts: Assoc<string, int>): (pairs: seq<NamedScore>)
    ensures |pairs| == |counts|
    ensures forall i :: 0 <= i < |counts| ==> pairs[i] == (counts[i].0, Finite(counts[i].1))
  {
    seq(|counts|, i requires 0 <= i < |counts| => (counts[i].0, Finite(counts[i].1)))
  }

  function Count(pair: NamedScore): Score { pair.1 }

  /** `reduce(maximum, ['Brak', -Infinity], pairs)`. */
  function Top(pairs: seq<NamedScore>): (top: NamedScore)
    ensures top == (NoData, NegInfinity) || top in pairs
    ensures pairs == [] ==> top == (NoData, NegInfinity)
    ensures forall i :: 0 <= i < |pairs| ==> !Below(top.1, pairs[i].1)
  {
    ReduceMax(Count, (NoData, NegInfinity), pairs)
  }

  /** `reduce(minimum, ['Brak', Infinity], pairs)`. */
  function Worst(pairs: seq<NamedScore>): (worst: NamedScore)
    ensures worst == (NoData, PosInfinity) || worst in pairs
    ensures pairs == [] ==> worst == (NoData, PosInfinity)
    ensures forall i :: 0 <= i < |pairs| ==> !Below(pairs[i].1, worst.1)
  {
    ReduceMin(Count, (NoData, PosInfinity), pairs)
  }

  function StreakLength(r: Streak): Score { Finite(|r.items|) }

  function IsDrunkRange(r: Streak): bool { r.value }

  function IsSoberRange(r: Streak): bool { !r.value }

  /** `reduce(maxStreak, { value: true, items: [] }, ranges)`. */
  function Longest(ranges: seq<Streak>): (longest: Streak)
    ensures longest == NoStreak || longest in ranges
    ensures ranges == [] ==> longest == NoStreak
    ensures forall i :: 0 <= i < |ranges| ==> |ranges[i].items| <= |longest.items|
  {
    ReduceMax(StreakLength, NoStreak, ranges)
  }

  datatype Report = Report(
    all: seq<DayInfo>,
    totalDrunkDays: seq<DayInfo>,
    totalNonDrunkDays: seq<DayInfo>,
    byDay: Buckets<string, DayInfo>,
    byMonth: Buckets<string, DayInfo>,
    countsByDay: Assoc<string, int>,
    countsByMonth: Assoc<string, int>,
    topDay: NamedScore,
    topMonth: NamedScore,
    worstDay: NamedScore,
    worstMonth: NamedScore,
    ranges: seq<Streak>,
    longestDrunk: Streak,
    longestNotDrunk: Streak
  )

  /** Everything the component computes before rendering, as a function of its inputs. */
  function ReportOf(months: Months, today: int, cal: Calendar): (r: Report)
    ensures forall i :: 0 <= i < |r.all| ==> r.all[i].date < today && r.all[i] in Concat(months)
    ensures Keys(r.countsByDay) == Keys(r.byDay) && Keys(r.countsByMonth) == Keys(r.byMonth)
    ensures r.topDay == (NoData, NegInfinity) || r.topDay in ToPairs(r.countsByDay)
    ensures r.topMonth == (NoData, NegInfinity) || r.topMonth in ToPairs(r.countsByMonth)
    ensures r.worstDay == (NoData, PosInfinity) || r.worstDay in ToPairs(r.countsByDay)
    ensures r.worstMonth == (NoData, PosInfinity) || r.worstMonth in ToPairs(r.countsByMonth)
    ensures r.longestDrunk == NoStreak || (r.longestDrunk in r.ranges && r.longestDrunk.value)
    ensures r.longestNotDrunk == NoStreak || (r.longestNotDrunk in r.ranges && !r.longestNotDrunk.value)
  {
    var all := Filter(Concat(months), Before(today));
    var byDay := BucketsOf(all, WeekdayKey(cal));
    var byMonth := BucketsOf(all, MonthKey(cal));
    var countsByDay := MapValues(byDay, DrunkCount);
    var countsByMonth := MapValues(byMonth, DrunkCount);
    var ranges := Yielded(all, IsDrunk);
    Report(
      all, Filter(all, IsDrunk), Filter(all, IsSober),
      byDay, byMonth, countsByDay, countsByMonth,
      Top(ToPairs(countsByDay)), Top(ToPairs(countsByMonth)),
      Worst(ToPairs(countsByDay)), Worst(ToPairs(countsByMonth)),
      ranges, Longest(Filter(ranges, IsDrunkRange)), Longest(Filter(ranges, IsSoberRange)))
  }

  /** The component body up to the JSX, running the two loops. */
  method Statistics(months: Months, today: int, cal: Calendar) returns (report: Report)
    ensures report == ReportOf(months, today, cal)
  {
    var all := Filter(Concat(months), Before(today));
    var totalDrunkDays := Filter(all, IsDrunk);
    var totalNonDrunkDays := Filter(all, IsSober);
    var byDay := Bucketize(all, WeekdayKey(cal));
    var byMonth := Bucketize(all, MonthKey(cal));
    var countsByDay := MapValues(byDay, DrunkCount);
    var countsByMonth := MapValues(byMonth, DrunkCount);
    var topDay := Top(ToPairs(countsByDay));
    var topMonth := Top(ToPairs(countsByMonth));
    var worstDay := Worst(ToPairs(countsByDay));
    var worstMonth := Worst(ToPairs(countsByMonth));
    var ranges := Rangeify(all, IsDrunk);
    var longestDrunk := Longest(Filter(ranges, IsDrunkRange));
    var longestNotDrunk := Longest(Filter(ranges, IsSoberRange));
    report := Report(
      all, totalDrunkDays, totalNonDrunkDays, byDay, byMonth, countsByDay, countsByMonth,
      topDay, topMonth, worstDay, worstMonth, ranges, longestDrunk, longestNotDrunk);
  }

  /** Only past days are counted, and each of them is either drunk or sober. */
  lemma TotalsPartitionPastDays(months: Months, today: int, cal: Calendar)
    ensures var r := ReportOf(months, today, cal);
      && (forall i :: 0 <= i < |r.all| ==> r.all[i].date < today && r.all[i] in Concat(months))
      && (forall i :: 0 <= i < |r.totalDrunkDays| ==> r.totalDrunkDays[i].drunk)
      && (forall i :: 0 <= i < |r.totalNonDrunkDays| ==> !r.totalNonDrunkDays[i].drunk)
      && |r.totalDrunkDays| + |r.totalNonDrunkDays| == |r.all|
  {
    var all := Filter(Concat(months), Before(today));
    FilterPartition(all, IsDrunk, IsSober);
  }

  /** A drunk-day count never exceeds its bucket's size, is never negative, and keeps the bucket's key. */
  lemma CountsBoundedByBuckets(months: Months, today: int, cal: Calendar)
    ensures var r := ReportOf(months, today, cal);
      && |r.countsByDay| == |r.byDay| && |r.countsByMonth| == |r.byMonth|
      && (forall i :: 0 <= i < |r.byDay| ==>
            r.countsByDay[i].0 == r.byDay[i].0 && 0 <= r.countsByDay[i].1 <= |r.byDay[i].1|)
      && (forall i :: 0 <= i < |r.byMonth| ==>
            r.countsByMonth[i].0 == r.byMonth[i].0 && 0 <= r.countsByMonth[i].1 <= |r.byMonth[i].1|)
  {
    var r := ReportOf(months, today, cal);
    CountsBounded(r.byDay);
    CountsBounded(r.byMonth);
  }

  lemma CountsBounded(b: Buckets<string, DayInfo>)
    ensures |MapValues(b, DrunkCount)| == |b|
    ensures forall i :: 0 <= i < |b| ==>
      MapValues(b, DrunkCount)[i].0 == b[i].0 && 0 <= MapValues(b, DrunkCount)[i].1 <= |b[i].1|
  {
  }

  /** Counting drunk days bucket by bucket finds every drunk day exactly once. */
  lemma {:induction false} DrunkCountsBucketwise(all: seq<DayInfo>, key: DayInfo -> string)
    ensures Total(MapValues(BucketsOf(all, key), DrunkCount)) == |Filter(all, IsDrunk)|
  {
    var none: seq<DayInfo> := [];
    assert DrunkCount(none) == 0;
    forall s: seq<DayInfo>, x: DayInfo ensures DrunkCount(s + [x]) == DrunkCount(s) + (if x.drunk then 1 else 0) {
      assert (s + [x])[..|s|] == s;
    }
    BucketsTotal(all, key, DrunkCount, (x: DayInfo) => if x.drunk then 1 else 0);
  }

  /** The per-weekday counts, and the per-month counts, each add up to the drunk total. */
  lemma CountsSumToDrunkTotal(months: Months, today: int, cal: Calendar)
    ensures Total(ReportOf(months, today, cal).countsByDay) == |ReportOf(months, today, cal).totalDrunkDays|
    ensures Total(ReportOf(months, today, cal).countsByMonth) == |ReportOf(months, today, cal).totalDrunkDays|
  {
    var all := Filter(Concat(months), Before(today));
    DrunkCountsBucketwise(all, WeekdayKey(cal));
    DrunkCountsBucketwise(all, MonthKey(cal));
  }

  /** `Top`: the sentinel for no pairs, else the first pair with the greatest count. */
  lemma TopIsFirstGreatest(pairs: seq<NamedScore>)
    requires forall i :: 0 <= i < |pairs| ==> pairs[i].1.Finite?
    ensures pairs == [] ==> Top(pairs) == (NoData, NegInfinity)
    ensures pairs != [] ==> exists i :: IsFirstGreatest(Count, pairs, i) && Top(pairs) == pairs[i]
  {
    ReduceMaxIsFirstGreatest(Count, (NoData, NegInfinity), pairs);
    if pairs != [] {
      assert Below(Count((NoData, NegInfinity)), Count(pairs[0]));
    }
  }

  /** `Worst`: the sentinel for no pairs, else the first pair with the least count. */
  lemma WorstIsFirstLeast(pairs: seq<NamedScore>)
    requires forall i :: 0 <= i < |pairs| ==> pairs[i].1.Finite?
    ensures pairs == [] ==> Worst(pairs) == (NoData, PosInfinity)
    ensures pairs != [] ==> exists i :: IsFirstLeast(Count, pairs, i) && Worst(pairs) == pairs[i]
  {
    ReduceMinIsFirstLeast(Count, (NoData, PosInfinity), pairs);
    if pairs != [] {
      assert Below(Count(pairs[0]), Count((NoData, PosInfinity)));
    }
  }

  /** The four extremes of the report, in the buckets' first-seen order. */
  lemma ExtremesOfReport(months: Months, today: int, cal: Calendar)
    ensures var r := ReportOf(months, today, cal);
      var days, ms := ToPairs(r.countsByDay), ToPairs(r.countsByMonth);
      && (days == [] ==> r.topDay == (NoData, NegInfinity) && r.worstDay == (NoData, PosInfinity))
      && (days != [] ==>
            (exists i :: IsFirstGreatest(Count, days, i) && r.topDay == days[i])
            && (exists i :: IsFirstLeast(Count, days, i) && r.worstDay == days[i]))
      && (ms == [] ==> r.topMonth == (NoData, NegInfinity) && r.worstMonth == (NoData, PosInfinity))
      && (ms != [] ==>
            (exists i :: IsFirstGreatest(Count, ms, i) && r.topMonth == ms[i])
            && (exists i :: IsFirstLeast(Count, ms, i) && r.worstMonth == ms[i]))
  {
    var r := ReportOf(months, today, cal);
    ExtremesOfCounts(r.countsByDay);
    ExtremesOfCounts(r.countsByMonth);
  }

  lemma ExtremesOfCounts(counts: Assoc<string, int>)
    ensures var pairs := ToPairs(counts);
      && (pairs == [] ==> Top(pairs) == (NoData, NegInfinity) && Worst(pairs) == (NoData, PosInfinity))
      && (pairs != [] ==>
            (exists i :: IsFirstGreatest(Count, pairs, i) && Top(pairs) == pairs[i])
            && (exists i :: IsFirstLeast(Count, pairs, i) && Worst(pairs) == pairs[i]))
  {
    TopIsFirstGreatest(ToPairs(counts));
    WorstIsFirstLeast(ToPairs(counts));
  }

  /** With no past day there is no data: all four extremes are sentinels. */
  lemma NoHistoryGivesSentinels(months: Months, today: int, cal: Calendar)
    requires forall i :: 0 <= i < |Concat(months)| ==> Concat(months)[i].date >= today
    ensures var r := ReportOf(months, today, cal);
      && r.all == [] && r.ranges == []
      && r.topDay == r.topMonth == (NoData, NegInfinity)
      && r.worstDay == r.worstMonth == (NoData, PosInfinity)
      && r.longestDrunk == r.longestNotDrunk == NoStreak
  {
    FilterNone(Concat(months), Before(today));
    ScanOpen(Filter(Concat(months), Before(today)), IsDrunk);
  }

  /**
    `Longest`: the sentinel when there are no ranges, else the earliest of
    the longest ones; either way nothing in `ranges` is longer.
   */
  lemma LongestIsFirstLongest(ranges: seq<Streak>)
    requires forall i :: 0 <= i < |ranges| ==> ranges[i].items != []
    ensures ranges == [] ==> Longest(ranges) == NoStreak
    ensures ranges != [] ==> exists i :: IsFirstGreatest(StreakLength, ranges, i) && Longest(ranges) == ranges[i]
    ensures forall i :: 0 <= i < |ranges| ==> |ranges[i].items| <= |Longest(ranges).items|
  {
    ReduceMaxIsFirstGreatest(StreakLength, NoStreak, ranges);
    if ranges != [] {
      assert Below(StreakLength(NoStreak), StreakLength(ranges[0]));
      var i :| IsFirstGreatest(StreakLength, ranges, i) && Longest(ranges) == ranges[i];
      forall j | 0 <= j < |ranges| ensures |ranges[j].items| <= |Longest(ranges).items| {
        assert !Below(StreakLength(ranges[i]), StreakLength(ranges[j]));
      }
    }
  }

  /** The ranges of one kind are still non-empty when the yielded ranges are. */
  lemma {:induction false} FilteredRangesNonEmpty(ranges: seq<Streak>, p: Streak -> bool)
    requires Homogeneous(ranges, IsDrunk)
    ensures forall i :: 0 <= i < |Filter(ranges, p)| ==> Filter(ranges, p)[i].items != []
  {
    var f := Filter(ranges, p);
    forall i | 0 <= i < |f| ensures f[i].items != [] {
      var k :| 0 <= k < |ranges| && ranges[k] == f[i];
    }
  }

  /** Filtering ranges by kind keeps only ranges of that kind. */
  lemma {:induction false} LongestOfKind(ranges: seq<Streak>, p: Streak -> bool)
    requires Homogeneous(ranges, IsDrunk)
    ensures Filter(ranges, p) == [] ==> Longest(Filter(ranges, p)) == NoStreak
    ensures Filter(ranges, p) != [] ==> exists i :: (IsFirstGreatest(StreakLength, Filter(ranges, p), i)
      && Longest(Filter(ranges, p)) == Filter(ranges, p)[i] && p(Filter(ranges, p)[i]))
    ensures forall i :: 0 <= i < |Filter(ranges, p)| ==> |Filter(ranges, p)[i].items| <= |Longest(Filter(ranges, p)).items|
  {
    FilteredRangesNonEmpty(ranges, p);
    LongestIsFirstLongest(Filter(ranges, p));
  }

  /**
    The two streaks: each is the earliest longest yielded range of its kind
    (drunk, resp. sober), or the sentinel when no such range was yielded.
   */
  lemma LongestStreaksOfReport(months: Months, today: int, cal: Calendar)
    ensures var r := ReportOf(months, today, cal);
      var drunk, sober := Filter(r.ranges, IsDrunkRange), Filter(r.ranges, IsSoberRange);
      && (drunk == [] ==> r.longestDrunk == NoStreak)
      && (drunk != [] ==> exists i :: IsFirstGreatest(StreakLength, drunk, i) && r.longestDrunk == drunk[i] && drunk[i].value)
      && (forall i :: 0 <= i < |drunk| ==> |drunk[i].items| <= |r.longestDrunk.items|)
      && (sober == [] ==> r.longestNotDrunk == NoStreak)
      && (sober != [] ==> exists i :: IsFirstGreatest(StreakLength, sober, i) && r.longestNotDrunk == sober[i] && !sober[i].value)
      && (forall i :: 0 <= i < |sober| ==> |sober[i].items| <= |r.longestNotDrunk.items|)
  {
    var all := Filter(Concat(months), Before(today));
    YieldedRangesMaximal(all, IsDrunk);
    LongestOfKind(Yielded(all, IsDrunk), IsDrunkRange);
    LongestOfKind(Yielded(all, IsDrunk), IsSoberRange);
  }

  /**
    Because the trailing run is never yielded, a history in which every past
    day has the same mark shows no streak at all, however long it is.
   */
  lemma UniformHistoryShowsNoStreak(months: Months, today: int, cal: Calendar)
    requires Constant(Filter(Concat(months), Before(today)), IsDrunk)
    ensures ReportOf(months, today, cal).ranges == []
    ensures ReportOf(months, today, cal).longestDrunk == NoStreak
    ensures ReportOf(months, today, cal).longestNotDrunk == NoStreak
  {
    YieldsNothingIffConstant(Filter(Concat(months), Before(today)), IsDrunk);
  }

  /** The tie-break: `[A 5, B 5, C 3]` has top `A` (the first of two equal maxima) and worst `C`. */
  lemma TieBreakExample()
    ensures Top([("A", Finite(5)), ("B", Finite(5)), ("C", Finite(3))]) == ("A", Finite(5))
    ensures Worst([("A", Finite(5)), ("B", Finite(5)), ("C", Finite(3))]) == ("C", Finite(3))
  {
  }
}
