# AV support dashboard: calendar import, modelled in Dafny

The dashboard is a spreadsheet script with two entry points. `importGoogleCalendar`
clears the output area (columns A..F from row 42 down). It reads the filter cells
C2 (year), C3 (month), C4 (range start) and C5 (range end) and resolves them into
an inclusive date window. If there is no window it stops. Otherwise it writes the
header B41:F41 and fetches the calendar's events for the window. It then writes
every event it keeps to the next output row: start time, title, description,
location, and the guests joined with ", ". An event is skipped when its lower-cased
title starts with "[events]" or contains "vacation", "apt", "appointment", "out of",
"lunch" or "day". `clearCalendarEvents` clears the same output area and the filter
cells C2:C5.

The model has six modules:

- `Dates` (dates.dfy): integer date records and the host's `new Date(y, m, d, h, mi, s)`
  within the host's date range.
  It covers the two-digit-year rule, month and day normalisation, and Gregorian leap
  years. `NewDate` is specified by the ECMAScript day-number formula, and
  `DayNumberInjective` shows that this formula fixes the calendar day.
- `DateWindow` (date_window.dfy): the first-match-wins resolution of the window.
- `EventFilter` (event_filter.dfy): ASCII lower-casing, substring search, the skip
  test, the guest join (with an inverse split), and the sequence of kept events.
- `Spreadsheet` (spreadsheet.dfy): a `Sheet` class whose `cells` field maps
  (row, column) to a value. Its methods are `getLastRow`, `clearContent` on a
  rectangle and `setValues` on one row.
- `Dashboard` (dashboard.dfy): `ImportGoogleCalendar`, its loop `WriteEvents`,
  `ClearCalendarEvents`, and the lemmas about the sheet they leave behind.
- `Wrappers` (wrappers.dfy): `Option`, for an empty or filled cell.

Inputs the model takes as parameters:

- The filter values are a `FilterCells` parameter: optional year, month index 0..11,
  and optional start and end dates.
- The calendar service is a function `getEvents(start, end)` that returns the
  already-fetched, ordered event list for a window.
- An empty spreadsheet cell is an address missing from `cells`.

Points where the code's behaviour is easy to misread:

- An explicit range keeps the start cell's date-time unchanged. The code does not
  move the start to 00:00:00; only the end is set to 23:59:59 (line 38).
- A month without a year is ignored, because the month test is nested inside the
  year test (lines 39-45). Such input gives "no range".
- A year cell holding 0 counts as absent (host truthiness), so it also gives "no range".
- Year values 0..99 are read as 1900..1999, as the host's Date constructor does.

## Model

| member | source | states |
|---|---|---|
| Dates.DaysInMonth | av-dashboard/dashboard-script.js:48 | every month has 28 to 31 days |
| Dates.YearLength | av-dashboard/dashboard-script.js:42 | consecutive 1 January day numbers differ by 366 exactly in Gregorian leap years, else by 365 |
| Dates.MonthLength | av-dashboard/dashboard-script.js:48 | the next month starts DaysInMonth days after this one, also from December into January |
| Dates.MonthStartMonotone | av-dashboard/dashboard-script.js:48 | every earlier month ends no later than a later month starts |
| Dates.DayNumberInjective | av-dashboard/dashboard-script.js:41-48 | two valid dates with the same day number are the same calendar day, so NewDate's contract determines its result |
| Dates.RollDay | av-dashboard/dashboard-script.js:48 | any integer day of a month is moved to a valid day of the month it falls in, keeping its day number |
| Dates.RollDayInRange | av-dashboard/dashboard-script.js:41-42 | a day already within its month is left where it is |
| Dates.FullYear | av-dashboard/dashboard-script.js:41 | year arguments 0..99 become 1900..1999; all other years are kept |
| Dates.NewDate | av-dashboard/dashboard-script.js:41-48 | the Date constructor yields a valid date with the given time, whose day number is that of month m mod 12 of year FullYear(y) + m div 12, plus d - 1 |
| Dates.SetHours | av-dashboard/dashboard-script.js:38 | setHours keeps year, month and day and sets the time of day |
| Dates.NewDateInRange | av-dashboard/dashboard-script.js:41-42 | with the month and day already in range, the constructor builds exactly that date of the full year |
| Dates.DayZeroOfNextMonth | av-dashboard/dashboard-script.js:48 | day 0 of month m + 1 is the last day of month m of the same year, for February of leap years and for December |
| DateWindow.ResolveWindow | av-dashboard/dashboard-script.js:31-53 | the result is "no range" if and only if neither a full explicit range nor a non-zero year is given; every window ends at 23:59:59 |
| DateWindow.ExplicitRange | av-dashboard/dashboard-script.js:34-38 | with both range cells filled, the start is the start cell unchanged, the end is the end cell's day at 23:59:59, and year and month are ignored |
| DateWindow.HalfRangeFallsThrough | av-dashboard/dashboard-script.js:34-39 | with only one range cell filled, the result is the same as with neither |
| DateWindow.YearOnlyWindow | av-dashboard/dashboard-script.js:39-42 | a year without a month gives 1 January 00:00:00 to 31 December 23:59:59 of that year |
| DateWindow.MonthWindow | av-dashboard/dashboard-script.js:45-48 | a year and month m give day 1 of m at 00:00:00 to day DaysInMonth(year, m) of m at 23:59:59, in the same year |
| DateWindow.CalendarWindowSpan | av-dashboard/dashboard-script.js:39-49 | a year or month window never ends before it starts and spans exactly DaysInYear or DaysInMonth days |
| EventFilter.LowerChar | av-dashboard/dashboard-script.js:73 | upper-case ASCII letters become their lower-case letter; every other character is unchanged |
| EventFilter.ToLowerAscii | av-dashboard/dashboard-script.js:73 | the lowered title has the same length and is lowered character by character |
| EventFilter.ToLowerIdempotent | av-dashboard/dashboard-script.js:73 | lowering twice is lowering once |
| EventFilter.Contains | av-dashboard/dashboard-script.js:75-80 | `includes` is true if and only if the word occurs at some position of the title |
| EventFilter.OccursHasChar | av-dashboard/dashboard-script.js:75-80 | every character of a word that occurs in a title is a character of the title |
| EventFilter.ShouldSkip | av-dashboard/dashboard-script.js:73-80 | the skip test: the lower-cased title starts with "[events]" or includes one of the six keywords; its meaning in terms of occurrences is SkipIff |
| EventFilter.SkipIff | av-dashboard/dashboard-script.js:73-80 | an event is skipped if and only if its lower-cased title starts with "[events]" or one of the six words occurs in it |
| EventFilter.SkipIgnoresCase | av-dashboard/dashboard-script.js:73 | the skip test gives the same answer for a title and its lower-cased form |
| EventFilter.TaggedTitleSkipped | av-dashboard/dashboard-script.js:73-74 | every title opening with "[Events]", such as "[Events] Team Offsite", is skipped by the tag prefix |
| EventFilter.LunchTitleSkipped | av-dashboard/dashboard-script.js:79 | every title opening with "Lunch", such as "Lunch with client", is skipped by the word "lunch" |
| EventFilter.LaptopTitleSkipped | av-dashboard/dashboard-script.js:76 | every title opening with "Laptop", such as "Laptop setup", is skipped because "apt" occurs inside "laptop": the test matches substrings, not words |
| EventFilter.AbsentCharExcludes | av-dashboard/dashboard-script.js:75-80 | a word cannot occur in a title that lacks one of its characters |
| EventFilter.KeptWithoutKeyLetters | av-dashboard/dashboard-script.js:73-80 | a title that does not start with '[' and lacks 'v', 'p', 'f', 'h' and 'd' is kept |
| EventFilter.KeptWithoutKeyLettersInTitle | av-dashboard/dashboard-script.js:73-80 | a title that does not start with '[' and lacks v, p, f, h and d in either case is kept |
| EventFilter.LoweredLacks | av-dashboard/dashboard-script.js:73 | a letter that occurs in neither case in the title does not occur in its lower-cased form |
| EventFilter.EmailsOf | av-dashboard/dashboard-script.js:87-88 | the address list has one entry per guest, in guest order |
| EventFilter.JoinGuests | av-dashboard/dashboard-script.js:89 | `join(", ")`: the addresses with ", " between neighbours; specified by JoinGuestsShape and undone by SplitGuests (SplitJoin) |
| EventFilter.JoinGuestsShape | av-dashboard/dashboard-script.js:89 | no guests give ""; otherwise the joined string starts with the first address, ends with the last (no trailing separator) and is two characters per separator longer than the addresses |
| EventFilter.SplitJoin | av-dashboard/dashboard-script.js:87-89 | splitting the joined cell at ", " gives back the addresses, when none contains a comma |
| EventFilter.IndexOfComma | av-dashboard/dashboard-script.js:89 | the position found is the first comma of the string, or its length when it has none |
| EventFilter.SplitGuests | av-dashboard/dashboard-script.js:89 | splitting a guests cell always gives at least one address |
| EventFilter.SplitCons | av-dashboard/dashboard-script.js:89 | splitting a comma-free address followed by ", " peels off exactly that address |
| EventFilter.SplitNoComma | av-dashboard/dashboard-script.js:89 | a single address without a comma splits into itself alone |
| EventFilter.TwoGuestsJoined | av-dashboard/dashboard-script.js:87-89 | guests a@x.com and b@x.com give "a@x.com, b@x.com" |
| EventFilter.Retained | av-dashboard/dashboard-script.js:69-83 | the kept events are no more than the fetched ones, none of them is skipped, and every fetched event that is not skipped is among them |
| EventFilter.RetainedConcat | av-dashboard/dashboard-script.js:69-83 | the events kept from two consecutive stretches are those kept from each, in order |
| EventFilter.RetainedSingle | av-dashboard/dashboard-script.js:73-83 | a single event whose title is not skipped is kept |
| EventFilter.RetainedPosition | av-dashboard/dashboard-script.js:82-111 | a kept event at index i is kept event number (kept events before i): skipping leaves no gap |
| Spreadsheet.Erase | av-dashboard/dashboard-script.js:19 | clearContent removes exactly the addresses in the rectangle and keeps every other value |
| Spreadsheet.RowValues | av-dashboard/dashboard-script.js:101-102 | setValues on a row puts value k in column col + k of that row and touches no other address |
| Spreadsheet.Sheet.LastRow | av-dashboard/dashboard-script.js:9 | getLastRow is the largest row holding content, or 0 for an empty sheet |
| Spreadsheet.Sheet.ClearContent | av-dashboard/dashboard-script.js:19 | the sheet's content becomes Erase of the old content |
| Spreadsheet.Sheet.SetValues | av-dashboard/dashboard-script.js:102 | the sheet's content becomes the old content overwritten by the row |
| Dashboard.ClearRowCount | av-dashboard/dashboard-script.js:8-14 | at least one row is cleared; the cleared rows reach the last row holding content and, when that row is 42 or later, stop there |
| Dashboard.ClearOutputRegion | av-dashboard/dashboard-script.js:8-19 | afterwards no content is left in columns A..F from row 42 down, and every other cell is unchanged |
| Dashboard.WithoutOutput | av-dashboard/dashboard-script.js:17-19 | the content once columns A..F from row 42 down are empty; ClearOutputRegion ends in this state |
| Dashboard.Cleared | av-dashboard/dashboard-script.js:130-135 | the content once the output area and C2:C5 are empty; specified by ClearedCells |
| Dashboard.EventRow | av-dashboard/dashboard-script.js:91-97 | the five values written for an event: start time, title as it is, description, location, joined guests; placed by LayoutRow |
| Dashboard.Layout | av-dashboard/dashboard-script.js:100-102 | the rows written for the kept events, one per event in order; its cells are given by LayoutKeys and LayoutRow |
| Dashboard.Imported | av-dashboard/dashboard-script.js:16-111 | the content after an import that found a window: cleared output area, header, then the layout of the kept events; specified by ImportedEventRow, ImportedOutputArea and ImportedElsewhere |
| Dashboard.LayoutSnoc | av-dashboard/dashboard-script.js:100-102 | writing one more kept event adds exactly its row, at row 42 + (events written so far) |
| Dashboard.RowFromB | av-dashboard/dashboard-script.js:101-102 | a five-value row written from column B holds value j in column 2 + j, for B..F |
| Dashboard.WriteStep | av-dashboard/dashboard-script.js:69-111 | one loop step: a skipped event leaves the kept events and the sheet as they were; a kept one is appended and its row written after the others |
| Dashboard.WriteEvents | av-dashboard/dashboard-script.js:68-112 | the counter ends at the number of kept events, and the sheet gains exactly the layout of the kept events |
| Dashboard.ImportGoogleCalendar | av-dashboard/dashboard-script.js:6-115 | the window is ResolveWindow of the filters; with no range only the clearing happens (no header, no rows, count 0); otherwise the sheet is the cleared sheet plus the header plus the layout of the kept events, and the count is their number |
| Dashboard.ClearCalendarEvents | av-dashboard/dashboard-script.js:120-136 | afterwards the content is the old content without the output area and C2:C5 |
| Dashboard.LayoutKeys | av-dashboard/dashboard-script.js:100-102 | the rows written cover exactly columns B..F of rows 42 to 42 + (kept events) - 1 |
| Dashboard.LayoutRow | av-dashboard/dashboard-script.js:91-102 | kept event k fills columns B..F of row 42 + k with its start time, title in its original case, description, location and joined guests |
| Dashboard.ImportedEventRow | av-dashboard/dashboard-script.js:68-111 | after an import, kept event i of the fetched list is in row 42 + (kept events before i), holding its five values |
| Dashboard.ImportedOutputArea | av-dashboard/dashboard-script.js:17-19 | after an import, an output-area cell holds content if and only if it lies in columns B..F of a row below 42 + (kept events): no gaps, nothing left over, column A empty |
| Dashboard.ImportedElsewhere | av-dashboard/dashboard-script.js:57-60 | the import changes nothing outside the output area and B41:F41, and B41:F41 hold Date, Title, Description, Location, Guests |
| Dashboard.ClearOverWritten | av-dashboard/dashboard-script.js:16-19 | clearing content written only into the output area and writing it again gives the same content |
| Dashboard.ImportRepeatable | av-dashboard/dashboard-script.js:16-19 | importing the same events twice leaves the sheet as after one import |
| Dashboard.ClearedCells | av-dashboard/dashboard-script.js:130-135 | after clearCalendarEvents the output area and C2:C5 are empty, and every other cell, C1 (the calendar id) included, keeps its value |
| Dashboard.ClearIdempotent | av-dashboard/dashboard-script.js:120-135 | clearing twice gives the same content as clearing once |

## Left out

- Borders, colours, bold header, centring and the `MM/dd/yyyy` number format (lines 18, 61, 105-109, 131): presentation only.
- `Logger.log` calls (lines 51, 55, 65, 81, 114, 137): logging only.
- Reading the calendar id from C1 and `CalendarApp.getCalendarById` (lines 22-23), and which events `getEvents` returns for a window (line 64). The calendar is a function parameter from the window to an ordered event list. An unreachable calendar is not modelled.
- Reading C2:C5 and converting their values (lines 26-29). The filter values are a parameter. As a result, the model does not show that an import after `clearCalendarEvents` finds "no range".
- Parsing the month name in C3 through `new Date(selectedMonth + " 1, " + year)` (line 47). This is implementation-defined text parsing; the month cell is a month index 0..11.
- Dates carry no milliseconds and no time zone. The value of a date cell is taken as the `Date` that `new Date(cell)` copies.
- Host truthiness: an empty string, `false` or `NaN` in a cell is modelled only as an empty cell. The exception is a year of 0, which is modelled as absent.
- Dates.NewDate: time arguments are required to be in range (hours 0..23, minutes and seconds 0..59), because every call site passes constants in range. Hour, minute and second overflow into the next day is not modelled. The host's limit on time values (TimeClip, 8.64e15 ms either side of 1970, roughly years -271821 to 275760) is not modelled either. Outside it the host yields an Invalid Date; for example, a year cell of 300000 makes lines 41-42 build two Invalid Dates and line 64 fetch with them. The model gives an ordinary window for every year.
- EventFilter.ToLowerAscii: lowers ASCII letters only. Unicode case mapping of `toLowerCase` is not modelled.
- Empty strings written by `setValues` (an empty description, say) are kept as `Text("")`. The host would treat them as blank cells for `getLastRow`.
