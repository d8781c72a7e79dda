/**
 The date window of `importGoogleCalendar`: from the filter cells C2 (year),
 C3 (month), C4 (range start) and C5 (range end) an inclusive [start, end]
 window is chosen, the first rule that applies winning: an explicit range,
 then a whole year, narrowed to one month when a month is given; otherwise
 there is no range and the import stops.
 */
module DateWindow {
  import opened Wrappers
  import opened Dates

  /** The values read from the filter cells. The month is the zero-based index
      the month name in C3 stands for. */
  datatype FilterCells = FilterCells(
    year: Option<int>,
    month: Option<Month>,
    rangeStart: Option<Date>,
    rangeEnd: Option<Date>)

  datatype Resolution = NoRange | Window(start: Date, end: Date)

  /** A year cell counts only when it holds a number other than 0 (0 is falsy in the host language). */
  predicate YearGiven(year: Option<int>) {
    year.Some? && year.value != 0
  }

  predicate RangeGiven(f: FilterCells) {
    f.rangeStart.Some? && f.rangeEnd.Some?
  }

  /** The window the import fetches events for (dashboard-script.js lines 31-53). */
  function ResolveWindow(f: FilterCells): (r: Resolution)
    ensures r.NoRange? <==> !RangeGiven(f) && !YearGiven(f.year)
    ensures r.Window? ==> r.end.hour == 23 && r.end.minute == 59 && r.end.second == 59
  {
    if RangeGiven(f) then
      Window(f.rangeStart.value, SetHours(f.rangeEnd.value, 23, 59, 59))
    else if YearGiven(f.year) then
      var year := f.year.value;
      if f.month.Some? then
        var start := NewDate(year, f.month.value, 1, 0, 0, 0);
        Window(start, NewDate(year, start.month + 1, 0, 23, 59, 59))
      else
        Window(NewDate(year, 0, 1, 0, 0, 0), NewDate(year, 11, 31, 23, 59, 59))
    else
      NoRange
  }

  /** An explicit range keeps its start as it is and moves its end to 23:59:59 of the end's day;
      the year and month cells are then ignored. */
  lemma ExplicitRange(f: FilterCells)
    requires RangeGiven(f)
    ensures ResolveWindow(f).Window?
    ensures ResolveWindow(f).start == f.rangeStart.value
    ensures ResolveWindow(f).end == Date(f.rangeEnd.value.year, f.rangeEnd.value.month, f.rangeEnd.value.day, 23, 59, 59)
    ensures forall y, m :: ResolveWindow(f.(year := y, month := m)) == ResolveWindow(f)
  {
  }

  /** With only one of the two range cells filled, resolution goes on as if neither were. */
  lemma HalfRangeFallsThrough(f: FilterCells)
    requires f.rangeStart.Some? != f.rangeEnd.Some?
    ensures ResolveWindow(f) == ResolveWindow(f.(rangeStart := None, rangeEnd := None))
  {
  }

  /** The year the Date constructor reads from the year cell. */
  function CellYear(f: FilterCells): int
    requires YearGiven(f.year)
  {
    FullYear(f.year.value)
  }

  /** A year without a month gives 1 January 00:00:00 to 31 December 23:59:59 of that year. */
  lemma YearOnlyWindow(f: FilterCells)
    requires !RangeGiven(f) && YearGiven(f.year) && f.month.None?
    ensures ResolveWindow(f) == Window(Date(CellYear(f), 0, 1, 0, 0, 0), Date(CellYear(f), 11, 31, 23, 59, 59))
  {
    NewDateInRange(f.year.value, 0, 1, 0, 0, 0);
    NewDateInRange(f.year.value, 11, 31, 23, 59, 59);
  }

  /** A year and a month give day 1 of that month at 00:00:00 to its last day at 23:59:59,
      in the same year (February of a leap year has 29 days; December ends on the 31st). */
  lemma MonthWindow(f: FilterCells)
    requires !RangeGiven(f) && YearGiven(f.year) && f.month.Some?
    ensures ResolveWindow(f) == Window(
      Date(CellYear(f), f.month.value, 1, 0, 0, 0),
      Date(CellYear(f), f.month.value, DaysInMonth(CellYear(f), f.month.value), 23, 59, 59))
  {
    NewDateInRange(f.year.value, f.month.value, 1, 0, 0, 0);
    DayZeroOfNextMonth(f.year.value, f.month.value, 23, 59, 59);
  }

  /** A window from the year cell never ends before it starts, and it covers exactly the days of
      the year or of the month: DaysInYear or DaysInMonth of them. */
  lemma CalendarWindowSpan(f: FilterCells)
    requires !RangeGiven(f) && YearGiven(f.year)
    ensures ResolveWindow(f).Window?
    ensures NotAfter(ResolveWindow(f).start, ResolveWindow(f).end)
    ensures f.month.None? ==>
      DayNumber(ResolveWindow(f).end) - DayNumber(ResolveWindow(f).start) + 1 == DaysInYear(CellYear(f))
    ensures f.month.Some? ==>
      DayNumber(ResolveWindow(f).end) - DayNumber(ResolveWindow(f).start) + 1 == DaysInMonth(CellYear(f), f.month.value)
  {
    if f.month.Some? {
      MonthWindow(f);
    } else {
      YearOnlyWindow(f);
    }
  }
}
