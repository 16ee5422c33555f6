/** The script's main flow: plan the columns, collect the IDs, process every row, and report
    the failed ones. Opening the workbook and saving it, the command line and the console
    output are outside this model. */
module ContentType {
  import opened Wrappers
  import opened Workbook
  import opened Columns
  import opened IdCollection
  import opened ErrorReport
  import opened Dispatch

  /** How a run ends. */
  datatype RunResult =
    | NoIdColumn        // "ID column not found": exit status 1
    | NoValidIds        // early return before any request: exit status 0
    | Processed(idRows: seq<IdRow>, actions: seq<Action>, errors: seq<ErrorEntry>)
      // the rows were processed in order; a final Crash action is an uncaught exception

  /** The entries ProcessRows visits for a sheet whose header row is h and whose data rows
      hold `cells`. */
  function Selected(h: seq<Value>, cells: map<Pos, Value>, maxRow: nat, parse: Value -> Option<int>): seq<IdRow>
    requires IdHeader in h
  {
    ValidIdRows(ColumnOf(cells, ColumnsOf(h).value.id, maxRow), parse)
  }

  /** A row whose ID cell does not convert, or converts to an ID out of range, is not changed. */
  lemma {:induction false} UnselectedRowsUntouched(cells: map<Pos, Value>, cols: Columns, column: seq<Value>,
                                                   parse: Value -> Option<int>, acts: seq<Action>, p: Pos)
    requires |acts| <= |ValidIdRows(column, parse)|
    requires 2 <= p.0 < |column| + 2
    requires parse(column[p.0 - 2]).None? || !InRange(parse(column[p.0 - 2]).value)
    ensures Lookup(ApplyAll(cells, cols, ValidIdRows(column, parse)[..|acts|], acts), p) == Lookup(cells, p)
  {
    var all := ValidIdRows(column, parse);
    var rows := all[..|acts|];
    forall k | 0 <= k < |rows|
      ensures rows[k].row != p.0
    {
      assert rows[k] == all[k];
      assert parse(column[all[k].row - 2]) == Some(all[k].id) && InRange(all[k].id);
    }
    ApplyAllOther(cells, cols, rows, acts, p);
  }

  /** Below the header row two cell maps agree, so an ID column read from them agrees. */
  lemma ColumnBelowHeader(c0: map<Pos, Value>, c1: map<Pos, Value>, c: nat, maxRow: nat)
    requires forall q: Pos :: q.0 != 1 ==> Lookup(c1, q) == Lookup(c0, q)
    ensures ColumnOf(c1, c, maxRow) == ColumnOf(c0, c, maxRow)
  {
    var col1 := ColumnOf(c1, c, maxRow);
    var col0 := ColumnOf(c0, c, maxRow);
    forall k | 0 <= k < |col1|
      ensures col1[k] == col0[k]
    {
      assert col1[k] == Lookup(c1, (k + 2, c));
    }
  }

  /** The request loop of `main` (lines 108-163) with a fresh error list (line 108). */
  method RunRows(sheet: Sheet, cols: Columns, idRows: seq<IdRow>, network: nat -> Response,
                 titleKey: string, bodyKey: string) returns (acts: seq<Action>, errors: seq<ErrorEntry>)
    requires sheet.Valid() && cols.FitIn(sheet.maxCol) && StrictlyIncreasingRows(idRows)
    requires forall k :: 0 <= k < |idRows| ==> 2 <= idRows[k].row <= sheet.maxRow
    modifies sheet
    ensures Visited(idRows, 0, acts, network, titleKey, bodyKey)
    ensures sheet.Valid() && sheet.maxRow == old(sheet.maxRow) && sheet.maxCol == old(sheet.maxCol)
    ensures sheet.bold == old(sheet.bold)
    ensures sheet.cells == ApplyAll(old(sheet.cells), cols, idRows[..|acts|], acts)
    ensures sheet.Row(1) == old(sheet.Row(1))
    ensures errors == ErrorsOf(idRows[..|acts|], acts)
    ensures forall i, j :: 0 <= i < j < |errors| ==> errors[i].row < errors[j].row
  {
    ghost var before, width := sheet.cells, sheet.maxCol;
    assert old(sheet.Row(1)) == RowOf(before, 1, width);
    var log := new ErrorLog();
    acts := ProcessRows(sheet, log, cols, idRows, network, titleKey, bodyKey);
    errors := log.entries;
    BatchFacts(before, cols, width, idRows, network, titleKey, bodyKey, acts);
  }

  /** What the loop's actions imply: the requests as `Visited` says, row 1 unchanged, and
      the error list in row order. */
  lemma BatchFacts(before: map<Pos, Value>, cols: Columns, width: nat, idRows: seq<IdRow>,
                   network: nat -> Response, titleKey: string, bodyKey: string, acts: seq<Action>)
    requires StrictlyIncreasingRows(idRows) && forall k :: 0 <= k < |idRows| ==> 2 <= idRows[k].row
    requires acts == ActionsFrom(idRows, network, titleKey, bodyKey, 0) && |acts| <= |idRows|
    ensures Visited(idRows, 0, acts, network, titleKey, bodyKey)
    ensures RowOf(ApplyAll(before, cols, idRows[..|acts|], acts), 1, width) == RowOf(before, 1, width)
    ensures var errors := ErrorsOf(idRows[..|acts|], acts);
      forall i, j :: 0 <= i < j < |errors| ==> errors[i].row < errors[j].row
  {
    ActionsFromFacts(idRows, network, titleKey, bodyKey, 0);
    ErrorsOrdered(idRows[..|acts|], acts);
    HeaderRowKept(before, cols, idRows[..|acts|], acts, width);
  }

  /** What a run that reached the request loop reports, and the cells below the header row
      it leaves, for a sheet whose header row was h and whose cells were `before`. */
  ghost predicate ProcessedFrom(result: RunResult, h: seq<Value>, before: map<Pos, Value>, maxRow: nat,
                                after: map<Pos, Value>, parse: Value -> Option<int>,
                                network: nat -> Response, titleKey: string, bodyKey: string)
    requires IdHeader in h
  {
    var ids := Selected(h, before, maxRow, parse);
    var cols := ColumnsOf(h).value;
    && result.Processed?
    && result.idRows == ids
    && Visited(ids, 0, result.actions, network, titleKey, bodyKey)
    && (forall p: Pos :: p.0 != 1 ==>
          Lookup(after, p) == Lookup(ApplyAll(before, cols, ids[..|result.actions|], result.actions), p))
    && result.errors == ErrorsOf(ids[..|result.actions|], result.actions)
    && (forall i, j :: 0 <= i < j < |result.errors| ==> result.errors[i].row < result.errors[j].row)
  }

  /** `main` once the columns are known (lines 94-163): collect the IDs and, when there are
      any, make the requests. */
  method RunWithColumns(sheet: Sheet, cols: Columns, parse: Value -> Option<int>, network: nat -> Response,
                        titleKey: string, bodyKey: string) returns (result: RunResult)
    requires sheet.Valid() && cols.FitIn(sheet.maxCol)
    modifies sheet
    ensures sheet.Valid() && sheet.maxRow == old(sheet.maxRow) && sheet.maxCol == old(sheet.maxCol)
    ensures sheet.bold == old(sheet.bold)
    ensures sheet.Row(1) == old(sheet.Row(1))
    ensures !result.NoIdColumn?
    ensures result.NoValidIds? <==> ValidIdRows(old(sheet.Column(cols.id)), parse) == []
    ensures result.NoValidIds? ==> sheet.cells == old(sheet.cells)
    ensures result.Processed? ==>
      && var ids := ValidIdRows(old(sheet.Column(cols.id)), parse);
      && result.idRows == ids
      && Visited(ids, 0, result.actions, network, titleKey, bodyKey)
      && sheet.cells == ApplyAll(old(sheet.cells), cols, ids[..|result.actions|], result.actions)
      && result.errors == ErrorsOf(ids[..|result.actions|], result.actions)
      && (forall i, j :: 0 <= i < j < |result.errors| ==> result.errors[i].row < result.errors[j].row)
  {
    var idRows := CollectIds(sheet, cols.id, parse);
    if idRows == [] {
      return NoValidIds;
    }
    var acts, errors := RunRows(sheet, cols, idRows, network, titleKey, bodyKey);
    result := Processed(idRows, acts, errors);
  }

  /** `main` after the workbook is open (lines 87-163). `parse` stands for `int(value)`,
      `network(k)` for the response to the k-th request. */
  method Run(sheet: Sheet, parse: Value -> Option<int>, network: nat -> Response,
             titleKey: string, bodyKey: string) returns (result: RunResult)
    requires sheet.Valid()
    modifies sheet
    ensures sheet.Valid()
    ensures sheet.maxRow == old(sheet.maxRow) && sheet.maxCol == |Augmented(old(sheet.Row(1)))|
    ensures sheet.Row(1) == Augmented(old(sheet.Row(1)))
    ensures ColumnsAdded(old(sheet.Row(1))) ==>
      forall p: Pos :: p in sheet.bold <==> p in old(sheet.bold) || (p.0 == 1 && 1 <= p.1 <= sheet.maxCol)
    ensures !ColumnsAdded(old(sheet.Row(1))) ==> sheet.bold == old(sheet.bold)
    ensures result.NoIdColumn? <==> IdHeader !in old(sheet.Row(1))
    ensures IdHeader in old(sheet.Row(1)) ==>
      (result.NoValidIds? <==> Selected(old(sheet.Row(1)), old(sheet.cells), old(sheet.maxRow), parse) == [])
    ensures result.NoIdColumn? || result.NoValidIds? ==>
      forall p: Pos :: p.0 != 1 ==> Lookup(sheet.cells, p) == Lookup(old(sheet.cells), p)
    ensures result.Processed? ==>
      IdHeader in old(sheet.Row(1)) &&
      ProcessedFrom(result, old(sheet.Row(1)), old(sheet.cells), old(sheet.maxRow), sheet.cells,
                    parse, network, titleKey, bodyKey)
  {
    ghost var h, cells0, maxRow0 := sheet.Row(1), sheet.cells, sheet.maxRow;
    var setup := ProcessExcel(sheet);
    if setup.Failure? {
      return NoIdColumn;
    }
    var cols := setup.value;
    ghost var cells1 := sheet.cells;
    ColumnBelowHeader(cells0, cells1, cols.id, maxRow0);
    ghost var ids := Selected(h, cells0, maxRow0, parse);
    assert ids == ValidIdRows(sheet.Column(cols.id), parse);
    result := RunWithColumns(sheet, cols, parse, network, titleKey, bodyKey);
    if result.Processed? {
      forall p: Pos | p.0 != 1
        ensures Lookup(sheet.cells, p)
             == Lookup(ApplyAll(cells0, cols, result.idRows[..|result.actions|], result.actions), p)
      {
        ApplyAllPointwise(cells0, cells1, cols, result.idRows[..|result.actions|], result.actions, p);
      }
    }
  }
}
