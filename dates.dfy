/**
 Calendar arithmetic of the host's `Date` constructor, on integer records.

 A date is a (year, month, day, hour, minute, second) record with a zero-based
 month, as `Date.getMonth()` reports it. Days are numbered from 1 January 1970
 in the proleptic Gregorian calendar (`DayNumber`), which is how ECMAScript
 defines `MakeDay`; `NewDate` models `new Date(y, m, d, h, mi, s)`, including
 its two-digit-year rule and its normalisation of out-of-range months and days
 (so that "day 0 of the next month" is the last day of this one).
 */
module Dates {

  /** A zero-based month index: 0 is January, 11 is December. */
  type Month = m: int | 0 <= m < 12

  datatype Date = Date(year: int, month: Month, day: int, hour: int, minute: int, second: int)

  predicate IsLeapYear(y: int) {
    y % 4 == 0 && (y % 100 != 0 || y % 400 == 0)
  }

  function DaysInYear(y: int): int {
    if IsLeapYear(y) then 366 else 365
  }

  function DaysInMonth(y: int, m: Month): (n: int)
    ensures 28 <= n <= 31
  {
    if m == 1 then (if IsLeapYear(y) then 29 else 28)
    else if m == 3 || m == 5 || m == 8 || m == 10 then 30
    else 31
  }

  predicate ValidTime(hour: int, minute: int, second: int) {
    0 <= hour < 24 && 0 <= minute < 60 && 0 <= second < 60
  }

  /** A date that names an existing calendar day and time of day. */
  predicate Valid(d: Date) {
    1 <= d.day <= DaysInMonth(d.year, d.month) && ValidTime(d.hour, d.minute, d.second)
  }

  /** The number of the day 1 January of year `y`, counted from 1 January 1970
      (floor division, as ECMAScript's DayFromYear). */
  function DayFromYear(y: int): int {
    365 * (y - 1970) + (y - 1969) / 4 - (y - 1901) / 100 + (y - 1601) / 400
  }

  /** The number of days of year `y` before month `m` (`m == 12`: the whole year). */
  function DaysBeforeMonth(y: int, m: int): int
    requires 0 <= m <= 12
  {
    [0, 31, 59, 90, 120, 151, 181, 212, 243, 273, 304, 334, 365][m]
    + (if m >= 2 && IsLeapYear(y) then 1 else 0)
  }

  /** The day number of the first day of month `m` of year `y`. */
  function MonthStart(y: int, m: Month): int {
    DayFromYear(y) + DaysBeforeMonth(y, m)
  }

  /** The day number of the calendar day of `d`. */
  function DayNumber(d: Date): int {
    MonthStart(d.year, d.month) + d.day - 1
  }

  function NextMonth(y: int, m: Month): (int, Month) {
    if m == 11 then (y + 1, 0) else (y, m + 1)
  }

  function PrevMonth(y: int, m: Month): (int, Month) {
    if m == 0 then (y - 1, 11) else (y, m - 1)
  }

  /** Floor division by a positive constant advances by one exactly at a multiple. */
  lemma FloorStep(a: int)
    ensures (a + 1) / 4 == a / 4 + (if (a + 1) % 4 == 0 then 1 else 0)
    ensures (a + 1) / 100 == a / 100 + (if (a + 1) % 100 == 0 then 1 else 0)
    ensures (a + 1) / 400 == a / 400 + (if (a + 1) % 400 == 0 then 1 else 0)
  {
  }

  /** Shifting by a multiple of the divisor keeps the remainder. */
  lemma ShiftedRemainders(y: int)
    ensures (y - 1968) % 4 == y % 4
    ensures (y - 1900) % 100 == y % 100
    ensures (y - 1600) % 400 == y % 400
  {
    assert y - 1968 == 4 * (y / 4 - 492) + y % 4;
    assert y - 1900 == 100 * (y / 100 - 19) + y % 100;
    assert y - 1600 == 400 * (y / 400 - 4) + y % 400;
  }

  /** 400 is a multiple of 100, and 100 of 4. */
  lemma NestedMultiples(y: int)
    ensures y % 400 == 0 ==> y % 100 == 0
    ensures y % 100 == 0 ==> y % 4 == 0
  {
    if y % 400 == 0 {
      var k := y / 400;
      assert y == 100 * (4 * k);
    }
    if y % 100 == 0 {
      var k := y / 100;
      assert y == 4 * (25 * k);
    }
  }

  /** The leap-day count of DayFromYear grows by one exactly after a leap year. */
  lemma LeapDayStep(y: int)
    ensures ((y - 1968) / 4 - (y - 1900) / 100 + (y - 1600) / 400)
         == ((y - 1969) / 4 - (y - 1901) / 100 + (y - 1601) / 400) + (if IsLeapYear(y) then 1 else 0)
  {
    FloorStep(y - 1969);
    FloorStep(y - 1901);
    FloorStep(y - 1601);
    ShiftedRemainders(y);
    NestedMultiples(y);
  }

  /** Consecutive years start DaysInYear apart. */
  lemma YearLength(y: int)
    ensures DayFromYear(y + 1) == DayFromYear(y) + DaysInYear(y)
  {
    LeapDayStep(y);
  }

  /** Consecutive months start DaysInMonth apart, also across a year boundary. */
  lemma MonthLength(y: int, m: Month)
    ensures MonthStart(NextMonth(y, m).0, NextMonth(y, m).1) == MonthStart(y, m) + DaysInMonth(y, m)
  {
    if m == 11 {
      YearLength(y);
    }
  }

  /** Each month starts after the whole of every earlier month: day numbers grow with (year, month). */
  lemma {:induction false} MonthStartMonotone(y: int, m: Month, y': int, m': Month)
    requires y < y' || (y == y' && m < m')
    ensures MonthStart(y, m) + DaysInMonth(y, m) <= MonthStart(y', m')
    decreases (y' - y) * 12 + (m' - m)
  {
    MonthLength(y, m);
    var (ny, nm) := NextMonth(y, m);
    if ny < y' || (ny == y' && nm < m') {
      MonthStartMonotone(ny, nm, y', m');
    }
  }

  /** Distinct calendar days of valid dates have distinct day numbers. */
  lemma DayNumberInjective(a: Date, b: Date)
    requires Valid(a) && Valid(b)
    requires DayNumber(a) == DayNumber(b)
    ensures a.year == b.year && a.month == b.month && a.day == b.day
  {
    if a.year < b.year || (a.year == b.year && a.month < b.month) {
      MonthStartMonotone(a.year, a.month, b.year, b.month);
    } else if b.year < a.year || (a.year == b.year && b.month < a.month) {
      MonthStartMonotone(b.year, b.month, a.year, a.month);
    }
  }

  /** Moves day `d` of month `m` of year `y` (any integer day) to the month it falls in. */
  function RollDay(y: int, m: Month, d: int): (r: (int, Month, int))
    ensures 1 <= r.2 <= DaysInMonth(r.0, r.1)
    ensures MonthStart(r.0, r.1) + r.2 == MonthStart(y, m) + d
    decreases if d < 1 then -d else d
  {
    if d < 1 then
      var (py, pm) := PrevMonth(y, m);
      MonthLength(py, pm);
      var d' := d + DaysInMonth(py, pm);
      if d' >= 1 then (py, pm, d') else RollDay(py, pm, d')
    else if d > DaysInMonth(y, m) then
      var (ny, nm) := NextMonth(y, m);
      MonthLength(y, m);
      RollDay(ny, nm, d - DaysInMonth(y, m))
    else
      (y, m, d)
  }

  /** A day already in range stays where it is. */
  lemma RollDayInRange(y: int, m: Month, d: int)
    requires 1 <= d <= DaysInMonth(y, m)
    ensures RollDay(y, m, d) == (y, m, d)
  {
  }

  /** The host maps a year argument 0..99 of the Date constructor to 1900..1999. */
  function FullYear(y: int): (r: int)
    ensures 0 <= y <= 99 ==> r == 1900 + y
    ensures !(0 <= y <= 99) ==> r == y
  {
    if 0 <= y <= 99 then 1900 + y else y
  }

  /** `new Date(y, m, d, h, mi, s)` for a time of day in range: the calendar day is the one
      MakeDay names for month and day offsets outside their ranges. Every year gives a date
      here; the host's limit on time values (years beyond about -271821..275760 give an
      Invalid Date) is not modelled. */
  function NewDate(y: int, m: int, d: int, h: int, mi: int, s: int): (r: Date)
    requires ValidTime(h, mi, s)
    ensures Valid(r)
    ensures r.hour == h && r.minute == mi && r.second == s
    ensures DayNumber(r) == MonthStart(FullYear(y) + m / 12, m % 12) + d - 1
  {
    var (ry, rm, rd) := RollDay(FullYear(y) + m / 12, m % 12, d);
    Date(ry, rm, rd, h, mi, s)
  }

  /** `date.setHours(h, mi, s)`: the same calendar day at another time of day. */
  function SetHours(date: Date, h: int, mi: int, s: int): (r: Date)
    ensures r.year == date.year && r.month == date.month && r.day == date.day
    ensures r.hour == h && r.minute == mi && r.second == s
  {
    date.(hour := h, minute := mi, second := s)
  }

  /** On a day and month already in range, NewDate builds exactly that date (of the full year). */
  lemma NewDateInRange(y: int, m: Month, d: int, h: int, mi: int, s: int)
    requires 1 <= d <= DaysInMonth(FullYear(y), m) && ValidTime(h, mi, s)
    ensures NewDate(y, m, d, h, mi, s) == Date(FullYear(y), m, d, h, mi, s)
  {
    var fy := FullYear(y);
    assert fy + m / 12 == fy && m % 12 == m;
    RollDayInRange(fy, m, d);
  }

  /** Day 0 of the month after `m` is the last day of `m`, in the same year, December included. */
  lemma DayZeroOfNextMonth(y: int, m: Month, h: int, mi: int, s: int)
    requires ValidTime(h, mi, s)
    ensures NewDate(y, m as int + 1, 0, h, mi, s) == Date(FullYear(y), m, DaysInMonth(FullYear(y), m), h, mi, s)
  {
    var next := m as int + 1;
    var (ny, nm) := (FullYear(y) + next / 12, next % 12);
    assert PrevMonth(ny, nm) == (FullYear(y), m);
    assert RollDay(ny, nm, 0) == (FullYear(y), m, DaysInMonth(FullYear(y), m));
  }

  /** Lexicographic order of date-times. */
  predicate NotAfter(a: Date, b: Date) {
    if a.year != b.year then a.year < b.year
    else if a.month != b.month then a.month < b.month
    else if a.day != b.day then a.day < b.day
    else if a.hour != b.hour then a.hour < b.hour
    else if a.minute != b.minute then a.minute < b.minute
    else a.second <= b.second
  }
}
