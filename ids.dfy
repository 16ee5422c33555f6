/** ID collection: the data rows, from row 2 down, whose ID cell converts to an integer
    within [MinId, MaxId], kept as (id, row) pairs in row order. */
module IdCollection {
  import opened Wrappers
  import opened Workbook

  const MinId: int := 100
  const MaxId: int := 100000

  predicate InRange(id: int) {
    MinId <= id <= MaxId
  }

  /** One entry of `id_rows`: an ID and the 1-based row it was found in. */
  datatype IdRow = IdRow(id: int, row: nat)

  predicate StrictlyIncreasingRows(rows: seq<IdRow>) {
    forall i, j :: 0 <= i < j < |rows| ==> rows[i].row < rows[j].row
  }

  /** The entries found in `column`, whose element k is the ID cell of row k + 2.
      `parse` stands for Python's `int(value)`: None where that raises. */
  function ValidIdRows(column: seq<Value>, parse: Value -> Option<int>): (r: seq<IdRow>)
    ensures forall k :: 0 <= k < |r| ==>
      && 2 <= r[k].row < |column| + 2
      && InRange(r[k].id)
      && parse(column[r[k].row - 2]) == Some(r[k].id)
    ensures StrictlyIncreasingRows(r)
    ensures forall k :: 0 <= k < |column| && parse(column[k]).Some? && InRange(parse(column[k]).value) ==>
      IdRow(parse(column[k]).value, k + 2) in r
  {
    if column == [] then []
    else
      var front := column[..|column| - 1];
      var prev := ValidIdRows(front, parse);
      var last := parse(column[|column| - 1]);
      var r := if last.Some? && InRange(last.value) then prev + [IdRow(last.value, |column| + 1)] else prev;
      ValidIdRowsSound(column, front, parse, prev, r);
      ValidIdRowsSorted(prev, r, |column| + 1);
      ValidIdRowsComplete(column, front, parse, prev, r);
      r
  }

  /** One step of `ValidIdRows`: every entry is an in-range ID read from its own row. */
  lemma ValidIdRowsSound(column: seq<Value>, front: seq<Value>, parse: Value -> Option<int>,
                         prev: seq<IdRow>, r: seq<IdRow>)
    requires column != [] && front == column[..|column| - 1]
    requires forall k :: 0 <= k < |prev| ==>
      && 2 <= prev[k].row < |front| + 2
      && InRange(prev[k].id)
      && parse(front[prev[k].row - 2]) == Some(prev[k].id)
    requires r == if parse(column[|column| - 1]).Some? && InRange(parse(column[|column| - 1]).value)
      then prev + [IdRow(parse(column[|column| - 1]).value, |column| + 1)] else prev
    ensures forall k :: 0 <= k < |r| ==>
      && 2 <= r[k].row < |column| + 2
      && InRange(r[k].id)
      && parse(column[r[k].row - 2]) == Some(r[k].id)
  {
    forall k | 0 <= k < |r|
      ensures 2 <= r[k].row < |column| + 2 && InRange(r[k].id) && parse(column[r[k].row - 2]) == Some(r[k].id)
    {
      if k < |prev| {
        assert r[k] == prev[k];
        assert front[prev[k].row - 2] == column[prev[k].row - 2];
      }
    }
  }

  /** One step of `ValidIdRows`: appending a row below every earlier one keeps the order. */
  lemma ValidIdRowsSorted(prev: seq<IdRow>, r: seq<IdRow>, row: nat)
    requires forall k :: 0 <= k < |prev| ==> prev[k].row < row
    requires StrictlyIncreasingRows(prev)
    requires r == prev || (|r| == |prev| + 1 && r[..|prev|] == prev && r[|prev|].row == row)
    ensures StrictlyIncreasingRows(r)
  {
    forall i, j | 0 <= i < j < |r|
      ensures r[i].row < r[j].row
    {
      assert r[i] == prev[i];
      if j < |prev| { assert r[j] == prev[j]; }
    }
  }

  /** One step of `ValidIdRows`: every row holding an in-range ID is present. */
  lemma ValidIdRowsComplete(column: seq<Value>, front: seq<Value>, parse: Value -> Option<int>,
                            prev: seq<IdRow>, r: seq<IdRow>)
    requires column != [] && front == column[..|column| - 1]
    requires forall k :: 0 <= k < |front| && parse(front[k]).Some? && InRange(parse(front[k]).value) ==>
      IdRow(parse(front[k]).value, k + 2) in prev
    requires r == if parse(column[|column| - 1]).Some? && InRange(parse(column[|column| - 1]).value)
      then prev + [IdRow(parse(column[|column| - 1]).value, |column| + 1)] else prev
    ensures forall k :: 0 <= k < |column| && parse(column[k]).Some? && InRange(parse(column[k]).value) ==>
      IdRow(parse(column[k]).value, k + 2) in r
  {
    forall k | 0 <= k < |column| && parse(column[k]).Some? && InRange(parse(column[k]).value)
      ensures IdRow(parse(column[k]).value, k + 2) in r
    {
      if k < |front| {
        assert front[k] == column[k];
        assert IdRow(parse(front[k]).value, k + 2) in prev;
      } else {
        assert r[|prev|] == IdRow(parse(column[k]).value, k + 2);
      }
    }
  }

  /** A row appears in the result exactly when its ID cell converts to an in-range integer. */
  lemma ValidIdRowsExactly(column: seq<Value>, parse: Value -> Option<int>, row: nat)
    requires 2 <= row < |column| + 2
    ensures (exists k :: 0 <= k < |ValidIdRows(column, parse)| && ValidIdRows(column, parse)[k].row == row)
      <==> parse(column[row - 2]).Some? && InRange(parse(column[row - 2]).value)
  {
    var r := ValidIdRows(column, parse);
    var v := parse(column[row - 2]);
    forall k | 0 <= k < |r| && r[k].row == row
      ensures v == Some(r[k].id) && InRange(r[k].id)
    {
    }
    if v.Some? && InRange(v.value) {
      assert IdRow(v.value, row) in r;
      var k :| 0 <= k < |r| && r[k] == IdRow(v.value, row);
      assert 0 <= k < |ValidIdRows(column, parse)| && ValidIdRows(column, parse)[k].row == row;
    }
  }

  /** Lines 94-102 of `main`: scan rows 2..max_row and keep the in-range IDs. */
  method CollectIds(sheet: Sheet, idCol: nat, parse: Value -> Option<int>) returns (idRows: seq<IdRow>)
    requires sheet.Valid()
    ensures idRows == ValidIdRows(sheet.Column(idCol), parse)
  {
    ghost var column := sheet.Column(idCol);
    idRows := [];
    var rowIdx := 2;
    while rowIdx <= sheet.maxRow
      invariant 2 <= rowIdx <= sheet.maxRow + 1
      invariant idRows == ValidIdRows(column[..rowIdx - 2], parse)
    {
      var idValue := parse(sheet.Cell(rowIdx, idCol));
      assert column[..rowIdx - 1][..rowIdx - 2] == column[..rowIdx - 2];
      assert column[rowIdx - 2] == sheet.Cell(rowIdx, idCol);
      if idValue.Some? && InRange(idValue.value) {
        idRows := idRows + [IdRow(idValue.value, rowIdx)];
      }
      rowIdx := rowIdx + 1;
    }
    assert column[..rowIdx - 2] == column;
  }
}
