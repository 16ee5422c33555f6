/** Header planning (`process_excel`): the output columns Title, Body and Error are appended
    to the header row when absent, and the 1-based positions of ID, Title, Body and Error
    are returned. */
module Columns {
  import opened Wrappers
  import opened Workbook

  const IdHeader: Value := Text("ID")
  const TitleHeader: Value := Text("Title")
  const BodyHeader: Value := Text("Body")
  const ErrorHeader: Value := Text("Error")

  /** The fatal setup error of `process_excel`: `headers.index('ID')` raises ValueError. */
  datatype SetupError = MissingIdColumn

  /** 1-based column positions of the four columns the script uses. */
  datatype Columns = Columns(id: nat, title: nat, body: nat, error: nat) {
    /** All four positions lie in 1..width and are pairwise distinct. */
    predicate FitIn(width: nat) {
      && 1 <= id <= width && 1 <= title <= width && 1 <= body <= width && 1 <= error <= width
      && id != title && id != body && id != error
      && title != body && title != error && body != error
    }
  }

  /** Python's `list.index`: the position of the first occurrence of x, if any. */
  function IndexOf(s: seq<Value>, x: Value): (r: Option<nat>)
    ensures r.None? <==> x !in s
    ensures r.Some? ==> r.value < |s| && s[r.value] == x
  {
    if s == [] then None
    else if s[0] == x then Some(0)
    else match IndexOf(s[1..], x)
      case None => None
      case Some(i) => Some(i + 1)
  }

  /** The output headers that h lacks, in the order Title, Body, Error. */
  function Missing(h: seq<Value>): (m: seq<Value>)
    ensures TitleHeader in m <==> TitleHeader !in h
    ensures BodyHeader in m <==> BodyHeader !in h
    ensures ErrorHeader in m <==> ErrorHeader !in h
    ensures forall k :: 0 <= k < |m| ==> m[k] !in h && m[k] in [TitleHeader, BodyHeader, ErrorHeader]
    ensures m == [] <==> TitleHeader in h && BodyHeader in h && ErrorHeader in h
  {
    (if TitleHeader in h then [] else [TitleHeader])
    + (if BodyHeader in h then [] else [BodyHeader])
    + (if ErrorHeader in h then [] else [ErrorHeader])
  }

  /** The header row after planning: the original row followed by what it lacked. */
  function Augmented(h: seq<Value>): (a: seq<Value>)
    ensures |a| >= |h| && a[..|h|] == h
    ensures TitleHeader in a && BodyHeader in a && ErrorHeader in a
  {
    h + Missing(h)
  }

  /** `columns_added`: at least one of the output headers was missing. */
  predicate ColumnsAdded(h: seq<Value>) {
    Missing(h) != []
  }

  /** The four 1-based positions, for a header row that has an ID. */
  function Positions(h: seq<Value>): Columns
    requires IdHeader in h
  {
    PositionsIn(IndexOf(h, IdHeader).value, Augmented(h))
  }

  /** The positions for an ID at 0-based index i and a planned row a. */
  function PositionsIn(i: nat, a: seq<Value>): Columns
    requires TitleHeader in a && BodyHeader in a && ErrorHeader in a
  {
    Columns(i + 1, IndexOf(a, TitleHeader).value + 1,
            IndexOf(a, BodyHeader).value + 1, IndexOf(a, ErrorHeader).value + 1)
  }

  /** Each of the four positions lies in a and holds its own header there. */
  predicate Locates(a: seq<Value>, c: Columns) {
    && 1 <= c.id <= |a| && 1 <= c.title <= |a| && 1 <= c.body <= |a| && 1 <= c.error <= |a|
    && a[c.id - 1] == IdHeader && a[c.title - 1] == TitleHeader
    && a[c.body - 1] == BodyHeader && a[c.error - 1] == ErrorHeader
  }

  /** Each position holds its header. */
  lemma PositionsHold(h: seq<Value>)
    requires IdHeader in h
    ensures Locates(Augmented(h), Positions(h))
  {
    IndexOfPrefix(h, Missing(h), IdHeader);
  }

  /** Positions holding four different headers are four different positions. */
  lemma DistinctHeadersFit(a: seq<Value>, c: Columns)
    requires Locates(a, c)
    ensures c.FitIn(|a|)
  {
  }

  /** What `process_excel` returns for the header row h. */
  function ColumnsOf(h: seq<Value>): (r: Result<Columns, SetupError>)
    ensures r.Failure? <==> IdHeader !in h
    ensures r.Success? ==> r.value.FitIn(|Augmented(h)|) && Locates(Augmented(h), r.value)
  {
    if IdHeader !in h then Failure(MissingIdColumn)
    else
      var a, c := Augmented(h), Positions(h);
      PositionsHold(h);
      DistinctHeadersFit(a, c);
      Success(c)
  }

  /** IndexOf finds the first occurrence: no earlier position holds x. */
  lemma {:induction false} IndexOfIsFirst(s: seq<Value>, x: Value, j: nat)
    requires IndexOf(s, x).Some? && j < IndexOf(s, x).value
    ensures s[j] != x
  {
    if j > 0 {
      IndexOfIsFirst(s[1..], x, j - 1);
    }
  }

  /** A position holding x with no x before it is what IndexOf finds. */
  lemma {:induction false} IndexOfFirst(s: seq<Value>, x: Value, i: nat)
    requires i < |s| && s[i] == x
    requires forall j :: 0 <= j < i ==> s[j] != x
    ensures IndexOf(s, x) == Some(i)
  {
    if i > 0 {
      IndexOfFirst(s[1..], x, i - 1);
    }
  }

  /** A first occurrence in a prefix is the first occurrence in the whole. */
  lemma IndexOfPrefix(h: seq<Value>, t: seq<Value>, x: Value)
    requires x in h
    ensures IndexOf(h + t, x) == IndexOf(h, x)
  {
    var i := IndexOf(h, x).value;
    forall j | 0 <= j < i
      ensures (h + t)[j] != x
    {
      IndexOfIsFirst(h, x, j);
    }
    IndexOfFirst(h + t, x, i);
  }

  /** Planning a second time changes nothing and reports that nothing was added. */
  lemma AugmentIdempotent(h: seq<Value>)
    ensures Augmented(Augmented(h)) == Augmented(h)
    ensures !ColumnsAdded(Augmented(h))
  {
    assert Missing(Augmented(h)) == [];
  }

  /** With an ID header, `process_excel` returns the four positions. */
  lemma ColumnsOfPositions(h: seq<Value>)
    requires IdHeader in h
    ensures ColumnsOf(h) == Success(Positions(h))
  {
  }

  /** The ID header, and its position, survive planning; its absence does too. */
  lemma AugmentedKeepsId(h: seq<Value>)
    ensures IdHeader in Augmented(h) <==> IdHeader in h
    ensures IdHeader in h ==> IndexOf(Augmented(h), IdHeader) == IndexOf(h, IdHeader)
  {
    if IdHeader in h {
      IndexOfPrefix(h, Missing(h), IdHeader);
    } else {
      assert IdHeader !in Missing(h);
    }
  }

  /** The positions found in a planned row are those found in the row it was planned from. */
  lemma PositionsIdempotent(h: seq<Value>)
    requires IdHeader in h
    ensures IdHeader in Augmented(h) && Positions(Augmented(h)) == Positions(h)
  {
    var a := Augmented(h);
    AugmentedKeepsId(h);
    AugmentIdempotent(h);
    assert Positions(a) == PositionsIn(IndexOf(h, IdHeader).value, Augmented(a));
  }

  /** Planning twice gives the same column positions as planning once. */
  lemma ColumnsOfIdempotent(h: seq<Value>)
    ensures ColumnsOf(Augmented(h)) == ColumnsOf(h)
  {
    AugmentedKeepsId(h);
    if IdHeader in h {
      PositionsIdempotent(h);
      ColumnsOfPositions(h);
      ColumnsOfPositions(Augmented(h));
    }
  }

  /** Lines 25-36 of `process_excel`: copy the header list and append each missing output
      header, recording whether any was appended. */
  method PlanHeaders(headers: seq<Value>) returns (newHeaders: seq<Value>, columnsAdded: bool)
    ensures newHeaders == headers + Missing(headers)
    ensures columnsAdded <==> |newHeaders| > |headers|
    ensures columnsAdded == ColumnsAdded(headers)
  {
    newHeaders := headers;
    columnsAdded := false;
    if TitleHeader !in newHeaders {
      newHeaders := newHeaders + [TitleHeader];
      columnsAdded := true;
    }
    if BodyHeader !in newHeaders {
      newHeaders := newHeaders + [BodyHeader];
      columnsAdded := true;
    }
    if ErrorHeader !in newHeaders {
      newHeaders := newHeaders + [ErrorHeader];
      columnsAdded := true;
    }
  }

  /** The cells after the first n planned headers are written into row 1, left to right. */
  function HeaderWritten(cells: map<Pos, Value>, hs: seq<Value>, n: nat): map<Pos, Value>
    requires n <= |hs|
  {
    if n == 0 then cells else HeaderWritten(cells, hs, n - 1)[(1, n) := hs[n - 1]]
  }

  /** The cells of row 1 in columns 1..n. */
  function HeaderCells(n: nat): set<Pos> {
    if n == 0 then {} else HeaderCells(n - 1) + {(1, n)}
  }

  lemma {:induction false} HeaderWrittenAt(cells: map<Pos, Value>, hs: seq<Value>, n: nat, p: Pos)
    requires n <= |hs|
    ensures Lookup(HeaderWritten(cells, hs, n), p)
         == if p.0 == 1 && 1 <= p.1 <= n then hs[p.1 - 1] else Lookup(cells, p)
  {
    if n > 0 {
      HeaderWrittenAt(cells, hs, n - 1, p);
    }
  }

  lemma {:induction false} HeaderCellsAt(n: nat, p: Pos)
    ensures p in HeaderCells(n) <==> p.0 == 1 && 1 <= p.1 <= n
  {
    if n > 0 {
      HeaderCellsAt(n - 1, p);
    }
  }

  /** Lines 40-44 of `process_excel`: write every planned header into row 1, in bold. */
  method WriteHeaderRow(sheet: Sheet, newHeaders: seq<Value>)
    requires sheet.Valid()
    requires |newHeaders| >= sheet.maxCol
    modifies sheet
    ensures sheet.Valid()
    ensures sheet.Row(1) == newHeaders
    ensures sheet.maxRow == old(sheet.maxRow) && sheet.maxCol == |newHeaders|
    ensures forall p: Pos :: p.0 != 1 ==> Lookup(sheet.cells, p) == Lookup(old(sheet.cells), p)
    ensures forall p: Pos :: p in sheet.bold <==> p in old(sheet.bold) || (p.0 == 1 && 1 <= p.1 <= |newHeaders|)
  {
    ghost var width := sheet.maxCol;
    var idx := 1;
    while idx <= |newHeaders|
      invariant 1 <= idx <= |newHeaders| + 1
      invariant sheet.Valid()
      invariant sheet.maxRow == old(sheet.maxRow)
      invariant sheet.maxCol == Max(width, idx - 1)
      invariant sheet.cells == HeaderWritten(old(sheet.cells), newHeaders, idx - 1)
      invariant sheet.bold == old(sheet.bold) + HeaderCells(idx - 1)
    {
      sheet.SetCell(1, idx, newHeaders[idx - 1]);
      sheet.SetBold(1, idx);
      idx := idx + 1;
    }
    HeaderFacts(old(sheet.cells), old(sheet.bold), newHeaders);
  }

  /** What the finished header loop leaves, cell by cell. */
  lemma HeaderFacts(before: map<Pos, Value>, boldBefore: set<Pos>, hs: seq<Value>)
    ensures RowOf(HeaderWritten(before, hs, |hs|), 1, |hs|) == hs
    ensures forall p: Pos :: p.0 != 1 ==> Lookup(HeaderWritten(before, hs, |hs|), p) == Lookup(before, p)
    ensures forall p: Pos :: p in boldBefore + HeaderCells(|hs|) <==> p in boldBefore || (p.0 == 1 && 1 <= p.1 <= |hs|)
  {
    var after := HeaderWritten(before, hs, |hs|);
    forall p: Pos
      ensures Lookup(after, p) == if p.0 == 1 && 1 <= p.1 <= |hs| then hs[p.1 - 1] else Lookup(before, p)
      ensures p in HeaderCells(|hs|) <==> p.0 == 1 && 1 <= p.1 <= |hs|
    {
      HeaderWrittenAt(before, hs, |hs|, p);
      HeaderCellsAt(|hs|, p);
    }
    var row := RowOf(after, 1, |hs|);
    forall k | 0 <= k < |hs|
      ensures row[k] == hs[k]
    {
      assert row[k] == Lookup(after, (1, k + 1));
    }
  }

  /** Lines 47-53 of `process_excel`: the ID position is looked up in the original header
      list (ValueError when absent), the others in the planned one. */
  method IndexColumns(headers: seq<Value>, newHeaders: seq<Value>) returns (r: Result<Columns, SetupError>)
    requires newHeaders == Augmented(headers)
    ensures r == ColumnsOf(headers)
  {
    var idPos := IndexOf(headers, IdHeader);
    if idPos.None? {
      return Failure(MissingIdColumn);
    }
    var c := Columns(idPos.value + 1, IndexOf(newHeaders, TitleHeader).value + 1,
                     IndexOf(newHeaders, BodyHeader).value + 1,
                     IndexOf(newHeaders, ErrorHeader).value + 1);
    assert c == Positions(headers);
    r := Success(c);
  }

  /** `process_excel(sheet, args)`. The header row is rewritten, in bold, only when a column
      was added; this happens before the ID lookup, so also when the lookup then fails. */
  method ProcessExcel(sheet: Sheet) returns (r: Result<Columns, SetupError>)
    requires sheet.Valid()
    modifies sheet
    ensures sheet.Valid()
    ensures r == ColumnsOf(old(sheet.Row(1)))
    ensures sheet.Row(1) == Augmented(old(sheet.Row(1)))
    ensures sheet.maxRow == old(sheet.maxRow) && sheet.maxCol == |Augmented(old(sheet.Row(1)))|
    ensures forall p: Pos :: p.0 != 1 ==> Lookup(sheet.cells, p) == Lookup(old(sheet.cells), p)
    ensures ColumnsAdded(old(sheet.Row(1))) ==>
      forall p: Pos :: p in sheet.bold <==> p in old(sheet.bold) || (p.0 == 1 && 1 <= p.1 <= sheet.maxCol)
    ensures !ColumnsAdded(old(sheet.Row(1))) ==>
      sheet.cells == old(sheet.cells) && sheet.bold == old(sheet.bold)
  {
    var headers := sheet.Row(1);
    var newHeaders, columnsAdded := PlanHeaders(headers);
    if columnsAdded {
      WriteHeaderRow(sheet, newHeaders);
    } else {
      assert sheet.Row(1) == newHeaders;
    }
    r := IndexColumns(headers, newHeaders);
  }
}
