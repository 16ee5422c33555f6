/** The worksheet the script edits: cells addressed by 1-based (row, column), the bold
    font flag that header cells receive, and the sheet's extent, which grows when a cell
    outside it is written (openpyxl's `max_row` and `max_column`). */
module Workbook {

  /** A cell value. An empty cell reads as Blank (Python's None). */
  datatype Value = Blank | Text(text: string) | Number(n: int)

  /** (row, column), both counted from 1. */
  type Pos = (nat, nat)

  function Lookup(cells: map<Pos, Value>, p: Pos): Value {
    if p in cells then cells[p] else Blank
  }

  /** The cells after `sheet.cell(row, column, value=v)` at p: openpyxl assigns the value
      only when it is not None, so a Blank leaves the cell as it was. */
  function Store(cells: map<Pos, Value>, p: Pos, v: Value): (r: map<Pos, Value>)
    ensures forall q: Pos :: Lookup(r, q) == if q == p && v != Blank then v else Lookup(cells, q)
    ensures v == Blank ==> r == cells
  {
    if v == Blank then cells else cells[p := v]
  }

  function Max(a: nat, b: nat): nat {
    if a < b then b else a
  }

  /** Cells 1..n of row r, as a row of openpyxl cells (`sheet[r]`) lists their values. */
  function RowOf(cells: map<Pos, Value>, r: nat, n: nat): seq<Value> {
    seq(n, (k: nat) => Lookup(cells, (r, k + 1)))
  }

  /** Column c of rows 2..maxRow, so that element k holds row k + 2. */
  function ColumnOf(cells: map<Pos, Value>, c: nat, maxRow: nat): seq<Value> {
    seq(if maxRow < 2 then 0 else maxRow - 1, (k: nat) => Lookup(cells, (k + 2, c)))
  }

  class Sheet {
    var cells: map<Pos, Value>
    var bold: set<Pos>
    var maxRow: nat
    var maxCol: nat

    /** Every stored cell lies inside the sheet's extent, which is never below 1 x 1. */
    ghost predicate Valid()
      reads this
    {
      && 1 <= maxRow
      && 1 <= maxCol
      && forall p :: p in cells ==> 1 <= p.0 <= maxRow && 1 <= p.1 <= maxCol
    }

    function Cell(r: nat, c: nat): Value
      reads this
    {
      Lookup(cells, (r, c))
    }

    /** The values of row r across the sheet's width. */
    function Row(r: nat): seq<Value>
      reads this
    {
      RowOf(cells, r, maxCol)
    }

    /** The values of column c in the data rows 2..maxRow. */
    function Column(c: nat): seq<Value>
      reads this
    {
      ColumnOf(cells, c, maxRow)
    }

    /** `cell.value = v` on the cell `sheet.cell(row=r, column=c)` (lines 42-43): the value
        is assigned whatever it is, None included. */
    method SetCell(r: nat, c: nat, v: Value)
      requires Valid() && 1 <= r && 1 <= c
      modifies this
      ensures Valid()
      ensures cells == old(cells)[(r, c) := v] && bold == old(bold)
      ensures maxRow == Max(old(maxRow), r) && maxCol == Max(old(maxCol), c)
    {
      cells := cells[(r, c) := v];
      maxRow := Max(maxRow, r);
      maxCol := Max(maxCol, c);
    }

    /** `sheet.cell(row=r, column=c, value=v)`: the cell is created, so the extent covers
        it, but its value is assigned only when v is not None. */
    method WriteCell(r: nat, c: nat, v: Value)
      requires Valid() && 1 <= r && 1 <= c
      modifies this
      ensures Valid()
      ensures cells == Store(old(cells), (r, c), v) && bold == old(bold)
      ensures maxRow == Max(old(maxRow), r) && maxCol == Max(old(maxCol), c)
    {
      if v != Blank {
        cells := cells[(r, c) := v];
      }
      maxRow := Max(maxRow, r);
      maxCol := Max(maxCol, c);
    }

    /** `cell.font = Font(bold=True)` on a cell inside the sheet. */
    method SetBold(r: nat, c: nat)
      requires Valid() && 1 <= r <= maxRow && 1 <= c <= maxCol
      modifies this
      ensures Valid()
      ensures bold == old(bold) + {(r, c)}
      ensures cells == old(cells) && maxRow == old(maxRow) && maxCol == old(maxCol)
    {
      bold := bold + {(r, c)};
    }
  }
}
