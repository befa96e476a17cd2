/**
  The day records of src/App.tsx and the calendar facts the program asks
  moment for. A date is represented by its day number, counted so that
  1 January 2020 (the first tracked day) is day 1; within 2020 the day number
  is therefore moment's `dayOfYear()`. Names and weekdays of a date are
  supplied as total functions of the day number.
 */
module Days {
  import opened Assoc

  /** moment's `day()`: 0 is Sunday, 1 Monday, ..., 6 Saturday. */
  type Weekday = w: int | 0 <= w < 7

  /** What the program reads of a date, besides comparing and numbering it. */
  datatype Calendar = Calendar(
    weekdayName: int -> string,  // format("dddd")
    monthName: int -> string,    // format("MMMM")
    weekday: int -> Weekday,     // day()
    dayOfMonth: int -> int       // date(), 1-based
  )

  /** `DayInfo`: one day and whether it is marked. */
  datatype DayInfo = DayInfo(date: int, drunk: bool)

  /** `Months`: month name to that month's days, in insertion order. */
  type Months = Assoc<string, seq<DayInfo>>

  function Date(day: DayInfo): int { day.date }

  /** `day => day.date.format("MMMM")`: the key of a day's month. */
  function MonthKey(cal: Calendar): DayInfo -> string {
    (day: DayInfo) => cal.monthName(day.date)
  }
}
