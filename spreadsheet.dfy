/**
 The part of the host spreadsheet the dashboard uses: a sheet whose content
 is a finite map from (row, column) to a value, the last row holding content,
 clearing the content of a rectangular range and writing one row of values.
 */
module Spreadsheet {
  import opened Dates

  /** A cell address (row, column), both counted from 1 as in A1 notation (column 1 is A). */
  type Pos = (int, int)

  /** What a cell holds: text, or a date-time (the event start times). */
  datatype Value = Text(text: string) | Stamp(date: Date)

  /** The rectangle `getRange(row, col, rows, cols)` names. */
  datatype Block = Block(row: int, col: int, rows: int, cols: int) {
    predicate Covers(p: Pos) {
      row <= p.0 < row + rows && col <= p.1 < col + cols
    }
  }

  /** The content left after `clearContent()` on block `b`. */
  function Erase(m: map<Pos, Value>, b: Block): (r: map<Pos, Value>)
    ensures forall p :: p in r <==> p in m && !b.Covers(p)
    ensures forall p :: p in r ==> r[p] == m[p]
  {
    map p | p in m && !b.Covers(p) :: m[p]
  }

  /** The cells `setValues` writes: `values[k]` goes to column `col + k` of `row`. */
  function RowValues(row: int, col: int, values: seq<Value>): (r: map<Pos, Value>)
    ensures forall p :: p in r <==> p.0 == row && col <= p.1 < col + |values|
    ensures forall k :: 0 <= k < |values| ==> r[(row, col + k)] == values[k]
  {
    map c | col <= c < col + |values| :: (row, c) := values[c - col]
  }

  class Sheet {
    /** The cells that hold content; an address not in the map is empty. */
    var cells: map<Pos, Value>

    ghost predicate Valid()
      reads this
    {
      forall p :: p in cells ==> p.0 >= 1 && p.1 >= 1
    }

    constructor ()
      ensures Valid() && cells == map[]
    {
      cells := map[];
    }

    /** `getLastRow()`: the last row that holds content, 0 for an empty sheet. */
    method LastRow() returns (last: nat)
      requires Valid()
      ensures forall p :: p in cells ==> p.0 <= last
      ensures last == 0 <==> cells == map[]
      ensures last != 0 ==> exists p :: p in cells && p.0 == last
    {
      var todo := cells.Keys;
      last := 0;
      while todo != {}
        invariant todo <= cells.Keys
        invariant forall p :: p in cells.Keys - todo ==> p.0 <= last
        invariant last == 0 <==> cells.Keys - todo == {}
        invariant last != 0 ==> exists p :: p in cells.Keys - todo && p.0 == last
        decreases todo
      {
        var p :| p in todo;
        if p.0 > last {
          last := p.0;
        }
        todo := todo - {p};
      }
      assert cells.Keys == {} ==> cells == map[];
    }

    /** `getRange(b.row, b.col, b.rows, b.cols).clearContent()`. */
    method ClearContent(b: Block)
      requires Valid()
      modifies this
      ensures Valid()
      ensures cells == Erase(old(cells), b)
    {
      cells := Erase(cells, b);
    }

    /** `getRange(row, col, 1, |values|).setValues([values])`. */
    method SetValues(row: int, col: int, values: seq<Value>)
      requires Valid() && row >= 1 && col >= 1
      modifies this
      ensures Valid()
      ensures cells == old(cells) + RowValues(row, col, values)
    {
      cells := cells + RowValues(row, col, values);
    }
  }
}
