/**
 The two entry points of the dashboard script, `importGoogleCalendar` and
 `clearCalendarEvents`, as methods on a sheet.

 The output area is columns A..F from row 42 down; row 41 holds the header
 B41:F41 and C1..C5 hold the calendar id and the four filter cells. The
 calendar is a function from the resolved window to the list of events it
 returns for that window.
 */
module Dashboard {
  import opened Dates
  import opened DateWindow
  import opened EventFilter
  import opened Spreadsheet

  /** The first output row (`startRow`) and the width of the cleared area (`numCols`). */
  const FirstRow: int := 42
  const NumCols: int := 6
  const HeaderRow: int := 41

  const Header: seq<Value> := [Text("Date"), Text("Title"), Text("Description"), Text("Location"), Text("Guests")]

  /** The rows of the cleared area: from row 42 to the last row holding content, at least one. */
  function ClearRowCount(lastRow: int): (n: int)
    ensures n >= 1
    ensures FirstRow + n - 1 >= lastRow
    ensures lastRow >= FirstRow ==> FirstRow + n - 1 == lastRow
    ensures lastRow < FirstRow ==> n == 1
  {
    var n := lastRow - FirstRow + 1;
    if n < 1 then 1 else n
  }

  /** Columns A..F from row 42 down. */
  predicate InOutputArea(p: Pos) {
    p.0 >= FirstRow && 1 <= p.1 <= NumCols
  }

  /** C2:C5, the year, month, range start and range end cells. */
  predicate InFilterCells(p: Pos) {
    2 <= p.0 <= 5 && p.1 == 3
  }

  /** The content once the output area is empty. */
  function WithoutOutput(m: map<Pos, Value>): map<Pos, Value> {
    map p | p in m && !InOutputArea(p) :: m[p]
  }

  /** The content once the output area and the filter cells are empty. */
  function Cleared(m: map<Pos, Value>): map<Pos, Value> {
    map p | p in m && !InOutputArea(p) && !InFilterCells(p) :: m[p]
  }

  /** The five values written for an event: start time, title as it is, description, location, guests. */
  function EventRow(e: Event): seq<Value> {
    [Stamp(e.start), Text(e.title), Text(e.description), Text(e.location), Text(JoinGuests(EmailsOf(e.guests)))]
  }

  /** The rows written for the kept events `rows`, one `setValues` per event, in order. */
  function Layout(rows: seq<Event>): map<Pos, Value> {
    if rows == [] then map[]
    else
      var k := |rows| - 1;
      Layout(rows[..k]) + RowValues(FirstRow + k, 2, EventRow(rows[k]))
  }

  /** The content after an import that found a window and kept the events `rows`. */
  function Imported(before: map<Pos, Value>, rows: seq<Event>): map<Pos, Value> {
    WithoutOutput(before) + RowValues(HeaderRow, 2, Header) + Layout(rows)
  }

  /** Lines 8-19: clear the content of A42:F(last row), at least row 42. */
  method ClearOutputRegion(sheet: Sheet)
    requires sheet.Valid()
    modifies sheet
    ensures sheet.Valid()
    ensures sheet.cells == WithoutOutput(old(sheet.cells))
  {
    var lastRow := sheet.LastRow();
    var numRows := lastRow - FirstRow + 1;
    if numRows < 1 {
      numRows := 1;
    }
    assert numRows == ClearRowCount(lastRow);
    sheet.ClearContent(Block(FirstRow, 1, numRows, NumCols));
    forall p | p in old(sheet.cells) ensures InOutputArea(p) <==> Block(FirstRow, 1, numRows, NumCols).Covers(p) {
    }
  }

  /** Writing one more kept event adds its row to the layout. */
  lemma LayoutSnoc(rows: seq<Event>, e: Event)
    ensures Layout(rows + [e]) == Layout(rows) + RowValues(FirstRow + |rows|, 2, EventRow(e))
  {
    assert (rows + [e])[..|rows|] == rows;
  }

  lemma UnionAssoc(a: map<Pos, Value>, b: map<Pos, Value>, c: map<Pos, Value>)
    ensures a + b + c == a + (b + c)
  {
  }

  /** The layout fills exactly columns B..F of rows 42 .. 42 + |rows| - 1. */
  lemma {:induction false} LayoutKeys(rows: seq<Event>)
    ensures forall p :: p in Layout(rows) <==> FirstRow <= p.0 < FirstRow + |rows| && 2 <= p.1 <= 6
  {
    if rows != [] {
      LayoutKeys(rows[..|rows| - 1]);
    }
  }

  /** A row written from column B with five values holds value j in column 2 + j. */
  lemma RowFromB(row: int, values: seq<Value>)
    requires |values| == 5
    ensures forall p: Pos :: p.0 == row && 2 <= p.1 <= 6 ==>
      p in RowValues(row, 2, values) && RowValues(row, 2, values)[p] == values[p.1 - 2]
  {
    forall p: Pos | p.0 == row && 2 <= p.1 <= 6
      ensures p in RowValues(row, 2, values) && RowValues(row, 2, values)[p] == values[p.1 - 2]
    {
      assert p == (row, 2 + (p.1 - 2));
    }
  }

  /** Kept event k is in row 42 + k: its start time, title, description, location and guests in B..F. */
  lemma {:induction false} LayoutRow(rows: seq<Event>, k: int)
    requires 0 <= k < |rows|
    ensures forall p: Pos :: p.0 == FirstRow + k && 2 <= p.1 <= 6 ==>
      p in Layout(rows) && Layout(rows)[p] == EventRow(rows[k])[p.1 - 2]
  {
    var n := |rows| - 1;
    var last := RowValues(FirstRow + n, 2, EventRow(rows[n]));
    assert Layout(rows) == Layout(rows[..n]) + last;
    if k < n {
      LayoutRow(rows[..n], k);
      assert rows[..n][k] == rows[k];
      assert forall p: Pos :: p.0 == FirstRow + k ==> p !in last;
    } else {
      RowFromB(FirstRow + n, EventRow(rows[n]));
    }
  }

  /** One step of the loop: event i is either skipped or appended to the kept events, and
      writing its row extends the layout by that row. */
  lemma WriteStep(base: map<Pos, Value>, events: seq<Event>, i: int)
    requires 0 <= i < |events|
    ensures ShouldSkip(events[i].title) ==> Retained(events[..i + 1]) == Retained(events[..i])
    ensures !ShouldSkip(events[i].title) ==>
      var rows := Retained(events[..i]);
      Retained(events[..i + 1]) == rows + [events[i]] &&
      base + Layout(rows + [events[i]]) == base + Layout(rows) + RowValues(FirstRow + |rows|, 2, EventRow(events[i]))
  {
    assert events[..i + 1][..i] == events[..i] && events[..i + 1][i] == events[i];
    var rows := Retained(events[..i]);
    LayoutSnoc(rows, events[i]);
    UnionAssoc(base, Layout(rows), RowValues(FirstRow + |rows|, 2, EventRow(events[i])));
  }

  /** The loop of lines 68-112: each kept event, in order, is written to row 42 + displayedCount,
      and the counter moves on only for kept events. */
  method WriteEvents(sheet: Sheet, events: seq<Event>) returns (displayedCount: nat)
    requires sheet.Valid()
    modifies sheet
    ensures sheet.Valid()
    ensures displayedCount == |Retained(events)|
    ensures sheet.cells == old(sheet.cells) + Layout(Retained(events))
  {
    ghost var base := sheet.cells;
    displayedCount := 0;
    assert events[..0] == [];
    for i := 0 to |events|
      invariant sheet.Valid()
      invariant displayedCount == |Retained(events[..i])|
      invariant sheet.cells == base + Layout(Retained(events[..i]))
    {
      var event := events[i];
      WriteStep(base, events, i);
      if ShouldSkip(event.title) {
        continue;
      }
      var guests := JoinGuests(EmailsOf(event.guests));
      var details := [Stamp(event.start), Text(event.title), Text(event.description), Text(event.location), Text(guests)];
      var row := displayedCount + FirstRow;
      assert details == EventRow(event);
      sheet.SetValues(row, 2, details);
      displayedCount := displayedCount + 1;
    }
    assert events[..|events|] == events;
  }

  /** importGoogleCalendar (lines 6-115). */
  method ImportGoogleCalendar(sheet: Sheet, filters: FilterCells, getEvents: (Date, Date) -> seq<Event>)
    returns (window: Resolution, displayedCount: nat)
    requires sheet.Valid()
    modifies sheet
    ensures sheet.Valid()
    ensures window == ResolveWindow(filters)
    ensures window.NoRange? ==> displayedCount == 0 && sheet.cells == WithoutOutput(old(sheet.cells))
    ensures window.Window? ==>
      var kept := Retained(getEvents(window.start, window.end));
      displayedCount == |kept| && sheet.cells == Imported(old(sheet.cells), kept)
  {
    ClearOutputRegion(sheet);
    window := ResolveWindow(filters);
    if window.NoRange? {
      displayedCount := 0;
      return;
    }
    sheet.SetValues(HeaderRow, 2, Header);
    var events := getEvents(window.start, window.end);
    displayedCount := WriteEvents(sheet, events);
  }

  /** clearCalendarEvents (lines 120-138). */
  method ClearCalendarEvents(sheet: Sheet)
    requires sheet.Valid()
    modifies sheet
    ensures sheet.Valid()
    ensures sheet.cells == Cleared(old(sheet.cells))
  {
    ClearOutputRegion(sheet);
    sheet.ClearContent(Block(2, 3, 4, 1));
  }

  // ---------------------------------------------------------------------------
  // What a finished import leaves on the sheet

  /** Kept event i of the fetched list is in row 42 + (number of kept events before it),
      columns B..F holding its start time, original-case title, description, location and guests. */
  lemma ImportedEventRow(before: map<Pos, Value>, events: seq<Event>, i: int)
    requires 0 <= i < |events| && !ShouldSkip(events[i].title)
    ensures var row, after := FirstRow + |Retained(events[..i])|, Imported(before, Retained(events));
      forall p: Pos :: p.0 == row && 2 <= p.1 <= 6 ==> p in after && after[p] == EventRow(events[i])[p.1 - 2]
  {
    var kept := Retained(events);
    RetainedPosition(events, i);
    LayoutRow(kept, |Retained(events[..i])|);
  }

  /** In the output area exactly rows 42 .. 42 + |rows| - 1 of columns B..F hold content:
      no gap for a skipped event, nothing left below, column A empty. */
  lemma ImportedOutputArea(before: map<Pos, Value>, rows: seq<Event>)
    ensures forall p :: InOutputArea(p) ==>
      (p in Imported(before, rows) <==> p.0 < FirstRow + |rows| && p.1 >= 2)
  {
    LayoutKeys(rows);
  }

  /** Outside the output area and the header B41:F41 the import changes nothing; the header
      holds the five column titles. */
  lemma ImportedElsewhere(before: map<Pos, Value>, rows: seq<Event>)
    ensures forall p :: !InOutputArea(p) && !(p.0 == HeaderRow && 2 <= p.1 <= 6) ==>
      (p in Imported(before, rows) <==> p in before) &&
      (p in before ==> Imported(before, rows)[p] == before[p])
    ensures forall k :: 0 <= k < |Header| ==> Imported(before, rows)[(HeaderRow, 2 + k)] == Header[k]
  {
    LayoutKeys(rows);
  }

  /** Clearing the output area of w + h + l, where only l lies in the output area, leaves w + h. */
  lemma ClearOverWritten(w: map<Pos, Value>, h: map<Pos, Value>, l: map<Pos, Value>)
    requires forall p :: p in w ==> !InOutputArea(p)
    requires forall p :: p in h ==> !InOutputArea(p)
    requires forall p :: p in l ==> InOutputArea(p)
    ensures WithoutOutput(w + h + l) + h + l == w + h + l
  {
    assert WithoutOutput(w + h + l) == w + h;
  }

  /** Clear-then-write: importing the same events again leaves the sheet as the first import did. */
  lemma ImportRepeatable(before: map<Pos, Value>, rows: seq<Event>)
    ensures Imported(Imported(before, rows), rows) == Imported(before, rows)
  {
    LayoutKeys(rows);
    var w, h, l := WithoutOutput(before), RowValues(HeaderRow, 2, Header), Layout(rows);
    ClearOverWritten(w, h, l);
  }

  // ---------------------------------------------------------------------------
  // What clearCalendarEvents leaves on the sheet

  /** The output area and C2:C5 are empty afterwards; every other cell, C1 (the calendar id)
      included, keeps its content. */
  lemma ClearedCells(m: map<Pos, Value>)
    ensures forall p :: InOutputArea(p) || InFilterCells(p) ==> p !in Cleared(m)
    ensures forall p :: p in m && !InOutputArea(p) && !InFilterCells(p) ==> p in Cleared(m) && Cleared(m)[p] == m[p]
    ensures forall p :: p in Cleared(m) ==> p in m
    ensures (1, 3) in m ==> (1, 3) in Cleared(m) && Cleared(m)[(1, 3)] == m[(1, 3)]
  {
  }

  /** Clearing twice leaves the same content as clearing once. */
  lemma ClearIdempotent(m: map<Pos, Value>)
    ensures Cleared(Cleared(m)) == Cleared(m)
  {
  }
}
