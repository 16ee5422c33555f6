/** Per-row outcome dispatch: how one HTTP response turns into exactly one of an error mark,
    a soft skip, a Title/Body update or an uncaught exception, and how the sheet and the error
    list change over the whole batch. */
module Dispatch {
  import opened Wrappers
  import opened Workbook
  import opened Columns
  import opened IdCollection
  import opened ErrorReport

  const OkStatus: int := 200
  const JsonMediaType: string := "application/json"

  /** A decoded JSON document, as far as the script looks into it. Object members are already
      cell values (a JSON string is Text, a number Number, null Blank). */
  datatype Json = JArray(items: seq<Json>) | JObject(fields: map<string, Value>) | JScalar

  /** The body as `response.json()` sees it: undecodable, or a document. */
  datatype Body = Malformed | Parsed(doc: Json)

  /** What `requests.get` yields: an exception (with the URL that was being requested), or a
      response with its status code, optional Content-Type header, final URL and body. */
  datatype Response =
    | NetworkFailure(requestUrl: string)
    | Received(status: int, contentType: Option<string>, url: string, body: Body)

  /** The exceptions the per-row code does not catch, each of which ends the run. */
  datatype CrashReason =
    | NotAnArray        // `len(data)`, `data[0]` or `.get` fails on a document that is not a list
    | EmptyArray        // `data[0]` on `[]`: IndexError
    | FirstNotAnObject  // `data[0].get` on a list element that is not an object
    | UnboundName       // the network-failure handler reads names never assigned

  /** The one thing a row's response leads to. */
  datatype Action =
    | MarkError(cellText: string, entryUrl: string)
    | SoftSkip
    | Fill(title: Value, body: Value)
    | Crash(reason: CrashReason)

  /** t occurs in s starting at position i. */
  predicate OccursAt(s: string, t: string, i: nat) {
    i + |t| <= |s| && s[i..i + |t|] == t
  }

  /** Python's `t in s` on strings: t occurs in s as a contiguous substring. */
  function Contains(s: string, t: string): (b: bool)
    ensures b <==> exists i: nat :: OccursAt(s, t, i)
    decreases |s|
  {
    if |s| < |t| then false
    else if s[..|t|] == t then
      assert OccursAt(s, t, 0);
      true
    else
      var rest := Contains(s[1..], t);
      assert !OccursAt(s, t, 0);
      assert forall i: nat :: OccursAt(s[1..], t, i) ==> OccursAt(s, t, i + 1);
      assert forall j: nat :: 1 <= j && OccursAt(s, t, j) ==> OccursAt(s[1..], t, j - 1);
      rest
  }

  /** `'application/json' in response.headers.get('Content-Type', '')`. */
  predicate IsJson(contentType: Option<string>) {
    Contains(contentType.GetOr(""), JsonMediaType)
  }

  /** `obj.get(key, '')`. */
  function FieldOr(fields: map<string, Value>, key: string): Value {
    if key in fields then fields[key] else Text("")
  }

  /** Lines 139-149: the title and body of the first element of the decoded document. `len`,
      `data[0]` and `.get` raise, uncaught, unless the document is a non-empty list whose
      first element is an object. */
  function Extract(doc: Json, titleKey: string, bodyKey: string): (a: Action)
    ensures a.Fill? || a.Crash?
    ensures a == Crash(NotAnArray) <==> !doc.JArray?
    ensures a == Crash(EmptyArray) <==> doc == JArray([])
    ensures a == Crash(FirstNotAnObject) <==> doc.JArray? && doc.items != [] && !doc.items[0].JObject?
  {
    match doc
    case JArray(items) =>
      if items == [] then Crash(EmptyArray)
      else (match items[0]
        case JObject(fields) => Fill(FieldOr(fields, titleKey), FieldOr(fields, bodyKey))
        case _ => Crash(FirstNotAnObject))
    case _ => Crash(NotAnArray)
  }

  /** The URL an error entry records: the one that was requested. */
  function AttemptedUrl(resp: Response): string {
    match resp
    case NetworkFailure(u) => u
    case Received(_, _, u, _) => u
  }

  /** The request failed: no response, a status other than 200, or a JSON-typed body that
      does not decode. */
  predicate IsFailure(resp: Response) {
    || resp.NetworkFailure?
    || resp.status != OkStatus
    || (IsJson(resp.contentType) && resp.body.Malformed?)
  }

  /** The outcome of one row (lines 122-163), with the network-failure branch corrected to
      record the current ID's error page and the attempted URL (see `DecideAsWritten`). */
  function Decide(resp: Response, id: int, titleKey: string, bodyKey: string): (a: Action)
    ensures a.MarkError? <==> IsFailure(resp)
    ensures a.MarkError? ==> a.cellText == ErrorUrl(id) && a.entryUrl == AttemptedUrl(resp)
    ensures a.SoftSkip? <==> resp.Received? && resp.status == OkStatus && !IsJson(resp.contentType)
    ensures a.Fill? || a.Crash? <==>
      resp.Received? && resp.status == OkStatus && IsJson(resp.contentType) && resp.body.Parsed?
    ensures a.Fill? || a.Crash? ==> a == Extract(resp.body.doc, titleKey, bodyKey)
  {
    match resp
    case NetworkFailure(requestUrl) => MarkError(ErrorUrl(id), requestUrl)
    case Received(status, contentType, url, body) =>
      if status != OkStatus then MarkError(ErrorUrl(id), url)
      else if !IsJson(contentType) then SoftSkip
      else match body
        case Malformed => MarkError(ErrorUrl(id), url)
        case Parsed(doc) => Extract(doc, titleKey, bodyKey)
  }

  /** A list with more than one element only causes a warning: the first element decides. */
  lemma ExtraElementsIgnored(first: Json, rest: seq<Json>, titleKey: string, bodyKey: string)
    ensures Extract(JArray([first] + rest), titleKey, bodyKey) == Extract(JArray([first]), titleKey, bodyKey)
  {
  }

  /** A successful update writes the first element's fields, "" for a missing key. */
  lemma FillUsesFirstElement(doc: Json, titleKey: string, bodyKey: string)
    requires Extract(doc, titleKey, bodyKey).Fill?
    ensures doc.JArray? && |doc.items| > 0 && doc.items[0].JObject?
    ensures var f := doc.items[0].fields; var a := Extract(doc, titleKey, bodyKey);
      && a.title == (if titleKey in f then f[titleKey] else Text(""))
      && a.body == (if bodyKey in f then f[bodyKey] else Text(""))
  {
  }

  /** The cells after a row's action: the Error cell for an error, the Title and Body cells
      for an update, and nothing for a skip or a crash. An update writes through
      `sheet.cell(..., value=...)`, so a null (Blank) title or body leaves its cell as it was. */
  function ApplyAction(cells: map<Pos, Value>, cols: Columns, row: nat, a: Action): (r: map<Pos, Value>)
    ensures forall p: Pos ::
              Lookup(r, p) == (
                if a.MarkError? && p == (row, cols.error) then Text(a.cellText)
                else if a.Fill? && a.body != Blank && p == (row, cols.body) then a.body
                else if a.Fill? && a.title != Blank && p == (row, cols.title) then a.title
                else Lookup(cells, p))
  {
    match a
    case MarkError(text, _) => Store(cells, (row, cols.error), Text(text))
    case Fill(title, body) => Store(Store(cells, (row, cols.title), title), (row, cols.body), body)
    case _ => cells
  }

  /** The cells after the actions of the given rows, applied in order. */
  function ApplyAll(cells: map<Pos, Value>, cols: Columns, rows: seq<IdRow>, acts: seq<Action>): map<Pos, Value>
    requires |rows| == |acts|
  {
    if acts == [] then cells
    else
      var n := |acts| - 1;
      ApplyAction(ApplyAll(cells, cols, rows[..n], acts[..n]), cols, rows[n].row, acts[n])
  }

  /** A cell of a row that no action is for keeps its value. */
  lemma {:induction false} ApplyAllOther(cells: map<Pos, Value>, cols: Columns, rows: seq<IdRow>,
                                         acts: seq<Action>, p: Pos)
    requires |rows| == |acts| && forall k :: 0 <= k < |rows| ==> rows[k].row != p.0
    ensures Lookup(ApplyAll(cells, cols, rows, acts), p) == Lookup(cells, p)
  {
    if acts != [] {
      var n := |acts| - 1;
      assert forall k :: 0 <= k < n ==> rows[..n][k] == rows[k];
      ApplyAllOther(cells, cols, rows[..n], acts[..n], p);
    }
  }

  /** A cell of the row of the k-th entry ends up as that entry's own action left it. */
  lemma {:induction false} ApplyAllOwn(cells: map<Pos, Value>, cols: Columns, rows: seq<IdRow>,
                                       acts: seq<Action>, k: nat, p: Pos)
    requires |rows| == |acts| && StrictlyIncreasingRows(rows) && k < |rows| && rows[k].row == p.0
    ensures Lookup(ApplyAll(cells, cols, rows, acts), p) == Lookup(ApplyAction(cells, cols, rows[k].row, acts[k]), p)
  {
    var n := |acts| - 1;
    assert forall j :: 0 <= j < n ==> rows[..n][j] == rows[j] && acts[..n][j] == acts[j];
    if k == n {
      ApplyAllOther(cells, cols, rows[..n], acts[..n], p);
    } else {
      assert StrictlyIncreasingRows(rows[..n]);
      ApplyAllOwn(cells, cols, rows[..n], acts[..n], k, p);
    }
  }

  /** A row's cells end up as its own action left them; the cells of other rows do not change. */
  lemma ApplyAllAt(cells: map<Pos, Value>, cols: Columns, rows: seq<IdRow>, acts: seq<Action>, p: Pos)
    requires |rows| == |acts| && StrictlyIncreasingRows(rows)
    ensures forall k :: 0 <= k < |rows| && rows[k].row == p.0 ==>
      Lookup(ApplyAll(cells, cols, rows, acts), p) == Lookup(ApplyAction(cells, cols, rows[k].row, acts[k]), p)
    ensures (forall k :: 0 <= k < |rows| ==> rows[k].row != p.0) ==>
      Lookup(ApplyAll(cells, cols, rows, acts), p) == Lookup(cells, p)
  {
    forall k | 0 <= k < |rows| && rows[k].row == p.0
      ensures Lookup(ApplyAll(cells, cols, rows, acts), p) == Lookup(ApplyAction(cells, cols, rows[k].row, acts[k]), p)
    {
      ApplyAllOwn(cells, cols, rows, acts, k, p);
    }
    if forall k :: 0 <= k < |rows| ==> rows[k].row != p.0 {
      ApplyAllOther(cells, cols, rows, acts, p);
    }
  }

  /** ApplyAll reads a cell only to keep it: cells that start equal end equal. */
  lemma {:induction false} ApplyAllPointwise(c0: map<Pos, Value>, c1: map<Pos, Value>, cols: Columns,
                                             rows: seq<IdRow>, acts: seq<Action>, p: Pos)
    requires |rows| == |acts| && Lookup(c0, p) == Lookup(c1, p)
    ensures Lookup(ApplyAll(c0, cols, rows, acts), p) == Lookup(ApplyAll(c1, cols, rows, acts), p)
  {
    if acts != [] {
      var n := |acts| - 1;
      ApplyAllPointwise(c0, c1, cols, rows[..n], acts[..n], p);
    }
  }

  /** The header row is never written: every visited row lies below it. */
  lemma {:induction false} HeaderRowKept(cells: map<Pos, Value>, cols: Columns, rows: seq<IdRow>,
                                         acts: seq<Action>, width: nat)
    requires |rows| == |acts| && forall k :: 0 <= k < |rows| ==> rows[k].row >= 2
    ensures RowOf(ApplyAll(cells, cols, rows, acts), 1, width) == RowOf(cells, 1, width)
  {
    if acts != [] {
      var n := |acts| - 1;
      HeaderRowKept(cells, cols, rows[..n], acts[..n], width);
      var front := ApplyAll(cells, cols, rows[..n], acts[..n]);
      assert RowOf(ApplyAction(front, cols, rows[n].row, acts[n]), 1, width) == RowOf(front, 1, width);
    }
  }

  /** The three cells a row's action may write, and what each holds afterwards; every other
      cell of that row keeps its value. Title and Body are never written together with Error,
      and a null title or body is not written at all. */
  lemma {:induction false} RowOutcome(cells: map<Pos, Value>, cols: Columns, width: nat, rows: seq<IdRow>,
                                      acts: seq<Action>, k: nat)
    requires |rows| == |acts| && StrictlyIncreasingRows(rows) && k < |rows| && cols.FitIn(width)
    ensures var after := ApplyAll(cells, cols, rows, acts); var r := rows[k].row; var a := acts[k];
      && (forall c: nat :: c != cols.title && c != cols.body && c != cols.error ==>
            Lookup(after, (r, c)) == Lookup(cells, (r, c)))
      && Lookup(after, (r, cols.error)) == (if a.MarkError? then Text(a.cellText) else Lookup(cells, (r, cols.error)))
      && Lookup(after, (r, cols.title)) == (if a.Fill? && a.title != Blank then a.title else Lookup(cells, (r, cols.title)))
      && Lookup(after, (r, cols.body)) == (if a.Fill? && a.body != Blank then a.body else Lookup(cells, (r, cols.body)))
  {
    var r := rows[k].row;
    forall c: nat
      ensures Lookup(ApplyAll(cells, cols, rows, acts), (r, c))
           == Lookup(ApplyAction(cells, cols, r, acts[k]), (r, c))
    {
      ApplyAllAt(cells, cols, rows, acts, (r, c));
    }
  }

  /** The error entry a row's action adds, if any. */
  function EntriesFor(entry: IdRow, a: Action): seq<ErrorEntry> {
    if a.MarkError? then [ErrorEntry(entry.id, entry.row, a.entryUrl)] else []
  }

  /** The error entries of the given rows, in order. */
  function ErrorsOf(rows: seq<IdRow>, acts: seq<Action>): seq<ErrorEntry>
    requires |rows| == |acts|
  {
    if acts == [] then []
    else
      var n := |acts| - 1;
      ErrorsOf(rows[..n], acts[..n]) + EntriesFor(rows[n], acts[n])
  }

  /** Exactly the rows whose action is an error have an entry, with that row's ID and the
      attempted URL. */
  lemma {:induction false} ErrorsOfEntries(rows: seq<IdRow>, acts: seq<Action>, e: ErrorEntry)
    requires |rows| == |acts|
    ensures e in ErrorsOf(rows, acts) <==>
      exists k :: 0 <= k < |rows| && acts[k].MarkError? && e == ErrorEntry(rows[k].id, rows[k].row, acts[k].entryUrl)
  {
    if acts != [] {
      var n := |acts| - 1;
      ErrorsOfEntries(rows[..n], acts[..n], e);
      assert forall k :: 0 <= k < n ==> rows[..n][k] == rows[k] && acts[..n][k] == acts[k];
    }
  }

  /** Rows are visited in increasing order, so the error list is ordered by row number. */
  lemma {:induction false} ErrorsOrdered(rows: seq<IdRow>, acts: seq<Action>)
    requires |rows| == |acts| && StrictlyIncreasingRows(rows)
    ensures var es := ErrorsOf(rows, acts);
      forall i, j :: 0 <= i < j < |es| ==> es[i].row < es[j].row
  {
    if acts != [] {
      var n := |acts| - 1;
      var front := ErrorsOf(rows[..n], acts[..n]);
      assert StrictlyIncreasingRows(rows[..n]);
      ErrorsOrdered(rows[..n], acts[..n]);
      forall i | 0 <= i < |front|
        ensures front[i].row < rows[n].row
      {
        ErrorsOfEntries(rows[..n], acts[..n], front[i]);
        var k :| 0 <= k < n && acts[..n][k].MarkError?
          && front[i] == ErrorEntry(rows[..n][k].id, rows[..n][k].row, acts[..n][k].entryUrl);
      }
    }
  }

  /** Moving the first element of ys to the end of xs keeps the concatenation. */
  lemma MoveFirst<T>(xs: seq<T>, ys: seq<T>)
    requires ys != []
    ensures (xs + [ys[0]]) + ys[1..] == xs + ys
  {
    var l, r := (xs + [ys[0]]) + ys[1..], xs + ys;
    assert |l| == |r|;
    forall k | 0 <= k < |l|
      ensures l[k] == r[k]
    {
      if k < |xs| {
      } else if k == |xs| {
      } else {
        assert l[k] == ys[1..][k - |xs| - 1];
      }
    }
  }

  /** A prefix one element longer. */
  lemma TakeOneMore<T>(s: seq<T>, i: nat)
    requires i < |s|
    ensures s[..i + 1] == s[..i] + [s[i]]
  {
  }

  /** One more row: its action is applied after those of the earlier rows. */
  lemma ApplyAllSnoc(cells: map<Pos, Value>, cols: Columns, rows: seq<IdRow>, acts: seq<Action>,
                     entry: IdRow, a: Action)
    requires |rows| == |acts|
    ensures ApplyAll(cells, cols, rows + [entry], acts + [a])
         == ApplyAction(ApplyAll(cells, cols, rows, acts), cols, entry.row, a)
  {
    assert (rows + [entry])[..|rows|] == rows && (acts + [a])[..|acts|] == acts;
  }

  /** One more row: its error entry, if any, comes after those of the earlier rows. */
  lemma ErrorsOfSnoc(rows: seq<IdRow>, acts: seq<Action>, entry: IdRow, a: Action)
    requires |rows| == |acts|
    ensures ErrorsOf(rows + [entry], acts + [a]) == ErrorsOf(rows, acts) + EntriesFor(entry, a)
  {
    assert (rows + [entry])[..|rows|] == rows && (acts + [a])[..|acts|] == acts;
  }

  /** The body of the per-row loop (lines 113-163) for one (id, row) pair and its response.
      The request-exception branch is the corrected one, as in `Decide`, not the statements
      at lines 159-163 (see `DecideAsWritten`). */
  method HandleRow(sheet: Sheet, log: ErrorLog, cols: Columns, entry: IdRow, resp: Response,
                   titleKey: string, bodyKey: string) returns (a: Action)
    requires sheet.Valid() && cols.FitIn(sheet.maxCol) && 2 <= entry.row <= sheet.maxRow
    modifies sheet, log
    ensures a == Decide(resp, entry.id, titleKey, bodyKey)
    ensures sheet.Valid() && sheet.bold == old(sheet.bold)
    ensures sheet.maxRow == old(sheet.maxRow) && sheet.maxCol == old(sheet.maxCol)
    ensures sheet.cells == ApplyAction(old(sheet.cells), cols, entry.row, a)
    ensures log.entries == old(log.entries) + EntriesFor(entry, a)
  {
    var errorUrl := ErrorUrl(entry.id);
    match resp
    case NetworkFailure(requestUrl) =>
      sheet.WriteCell(entry.row, cols.error, Text(errorUrl));
      var _ := log.UpdateError(entry.id, entry.row, requestUrl);
      a := MarkError(errorUrl, requestUrl);
    case Received(status, contentType, url, body) =>
      if status != OkStatus {
        var _ := log.UpdateError(entry.id, entry.row, url);
        sheet.WriteCell(entry.row, cols.error, Text(errorUrl));
        return MarkError(errorUrl, url);
      }
      var ct := contentType.GetOr("");
      if !Contains(ct, JsonMediaType) {
        return SoftSkip;
      }
      match body
      case Malformed =>
        sheet.WriteCell(entry.row, cols.error, Text(errorUrl));
        var _ := log.UpdateError(entry.id, entry.row, url);
        a := MarkError(errorUrl, url);
      case Parsed(data) =>
        if !data.JArray? {
          return Crash(NotAnArray);
        }
        if |data.items| == 0 {
          return Crash(EmptyArray);
        }
        var first := data.items[0];
        if !first.JObject? {
          return Crash(FirstNotAnObject);
        }
        var title := FieldOr(first.fields, titleKey);
        var text := FieldOr(first.fields, bodyKey);
        sheet.WriteCell(entry.row, cols.title, title);
        sheet.WriteCell(entry.row, cols.body, text);
        a := Fill(title, text);
  }

  /** The effect of the first |acts| + 1 entries from that of the first |acts|. */
  lemma NextEntry(cells0: map<Pos, Value>, cols: Columns, idRows: seq<IdRow>, acts: seq<Action>, a: Action)
    requires |acts| < |idRows|
    ensures var i := |acts|;
      && ApplyAll(cells0, cols, idRows[..|acts + [a]|], acts + [a])
         == ApplyAction(ApplyAll(cells0, cols, idRows[..i], acts), cols, idRows[i].row, a)
      && ErrorsOf(idRows[..|acts + [a]|], acts + [a]) == ErrorsOf(idRows[..i], acts) + EntriesFor(idRows[i], a)
  {
    var i := |acts|;
    TakeOneMore(idRows, i);
    ApplyAllSnoc(cells0, cols, idRows[..i], acts, idRows[i], a);
    ErrorsOfSnoc(idRows[..i], acts, idRows[i], a);
  }

  /** The sheet and the error list after the actions `acts` of the first |acts| entries, on
      a sheet that started with cells `cells0` and a list that started as `entries0`. */
  ghost predicate Progress(sheet: Sheet, log: ErrorLog, cols: Columns, idRows: seq<IdRow>, acts: seq<Action>,
                           cells0: map<Pos, Value>, entries0: seq<ErrorEntry>)
    reads sheet, log
  {
    && |acts| <= |idRows|
    && sheet.Valid()
    && sheet.cells == ApplyAll(cells0, cols, idRows[..|acts|], acts)
    && log.entries == entries0 + ErrorsOf(idRows[..|acts|], acts)
  }

  /** One iteration of the per-row loop, stated in terms of the whole batch so far. */
  method VisitRow(sheet: Sheet, log: ErrorLog, cols: Columns, idRows: seq<IdRow>,
                  network: nat -> Response, titleKey: string, bodyKey: string,
                  ghost cells0: map<Pos, Value>, ghost entries0: seq<ErrorEntry>, acts: seq<Action>)
    returns (a: Action)
    requires Progress(sheet, log, cols, idRows, acts, cells0, entries0) && |acts| < |idRows|
    requires cols.FitIn(sheet.maxCol) && 2 <= idRows[|acts|].row <= sheet.maxRow
    modifies sheet, log
    ensures a == Decide(network(|acts|), idRows[|acts|].id, titleKey, bodyKey)
    ensures Progress(sheet, log, cols, idRows, acts + [a], cells0, entries0)
    ensures sheet.bold == old(sheet.bold)
    ensures sheet.maxRow == old(sheet.maxRow) && sheet.maxCol == old(sheet.maxCol)
  {
    var i := |acts|;
    a := HandleRow(sheet, log, cols, idRows[i], network(i), titleKey, bodyKey);
    NextEntry(cells0, cols, idRows, acts, a);
  }

  /** The actions of the entries from the k-th on, the k-th request being answered by
      network(k): one per entry, up to and including the first crash. */
  function ActionsFrom(idRows: seq<IdRow>, network: nat -> Response, titleKey: string, bodyKey: string,
                       k: nat): seq<Action>
    requires k <= |idRows|
    decreases |idRows| - k
  {
    if k == |idRows| then []
    else
      var a := Decide(network(k), idRows[k].id, titleKey, bodyKey);
      if a.Crash? then [a] else [a] + ActionsFrom(idRows, network, titleKey, bodyKey, k + 1)
  }

  /** `acts` are the actions of the entries from the k-th on: the requests were made in
      entry order, one per entry, the j-th of them answered by network(k + j), and they
      stopped early only at a crash. */
  ghost predicate Visited(ids: seq<IdRow>, k: nat, acts: seq<Action>, network: nat -> Response,
                          titleKey: string, bodyKey: string)
  {
    && |acts| <= |ids| - k
    && (forall j :: 0 <= j < |acts| ==> acts[j] == Decide(network(k + j), ids[k + j].id, titleKey, bodyKey))
    && (forall j :: 0 <= j < |acts| - 1 ==> !acts[j].Crash?)
    && (|acts| < |ids| - k ==> |acts| > 0 && acts[|acts| - 1].Crash?)
  }

  /** The k-th request decides the k-th entry; only the last action can be a crash, and the
      entries run out unless it is one. */
  lemma {:induction false} ActionsFromFacts(idRows: seq<IdRow>, network: nat -> Response,
                                            titleKey: string, bodyKey: string, k: nat)
    requires k <= |idRows|
    decreases |idRows| - k
    ensures Visited(idRows, k, ActionsFrom(idRows, network, titleKey, bodyKey, k), network, titleKey, bodyKey)
  {
    if k < |idRows| {
      var a := Decide(network(k), idRows[k].id, titleKey, bodyKey);
      if !a.Crash? {
        ActionsFromFacts(idRows, network, titleKey, bodyKey, k + 1);
        var r := ActionsFrom(idRows, network, titleKey, bodyKey, k + 1);
        var all := ActionsFrom(idRows, network, titleKey, bodyKey, k);
        assert all == [a] + r;
        forall j | 0 <= j < |all|
          ensures all[j] == Decide(network(k + j), idRows[k + j].id, titleKey, bodyKey)
          ensures j < |all| - 1 ==> !all[j].Crash?
        {
          if j > 0 {
            assert all[j] == r[j - 1] && k + j == (k + 1) + (j - 1);
          }
        }
      }
    }
  }

  /** The loop has produced `acts` and will produce `rest`, which together are the actions of
      all the entries; `rest` is empty once an action crashed. */
  ghost predicate Scheduled(idRows: seq<IdRow>, network: nat -> Response, titleKey: string, bodyKey: string,
                            acts: seq<Action>, rest: seq<Action>)
  {
    && |acts| <= |idRows|
    && acts + rest == ActionsFrom(idRows, network, titleKey, bodyKey, 0)
    && (if |acts| > 0 && acts[|acts| - 1].Crash? then rest == []
        else rest == ActionsFrom(idRows, network, titleKey, bodyKey, |acts|))
  }

  /** While the loop goes on, the next action is the first of `rest`. */
  lemma ScheduledStep(idRows: seq<IdRow>, network: nat -> Response, titleKey: string, bodyKey: string,
                      acts: seq<Action>, rest: seq<Action>, a: Action)
    requires Scheduled(idRows, network, titleKey, bodyKey, acts, rest)
    requires |acts| < |idRows| && (|acts| == 0 || !acts[|acts| - 1].Crash?)
    requires a == Decide(network(|acts|), idRows[|acts|].id, titleKey, bodyKey)
    ensures rest != [] && Scheduled(idRows, network, titleKey, bodyKey, acts + [a], rest[1..])
  {
    var i := |acts|;
    var next := acts + [a];
    assert rest == ActionsFrom(idRows, network, titleKey, bodyKey, i);
    assert |next| == i + 1 && next[i] == a;
    if a.Crash? {
      assert rest == [a];
    } else {
      assert rest == [a] + ActionsFrom(idRows, network, titleKey, bodyKey, i + 1);
    }
    MoveFirst(acts, rest);
  }

  /** When the loop stops, nothing is left to do. */
  lemma ScheduledDone(idRows: seq<IdRow>, network: nat -> Response, titleKey: string, bodyKey: string,
                      acts: seq<Action>, rest: seq<Action>)
    requires Scheduled(idRows, network, titleKey, bodyKey, acts, rest)
    requires |acts| == |idRows| || (|acts| > 0 && acts[|acts| - 1].Crash?)
    ensures acts == ActionsFrom(idRows, network, titleKey, bodyKey, 0)
  {
    assert rest == [];
    assert acts + rest == acts;
  }

  /** The per-row loop (lines 111-163): each (id, row) pair in turn, the k-th request being
      answered by network(k), until the pairs run out or an uncaught exception ends the run. */
  method ProcessRows(sheet: Sheet, log: ErrorLog, cols: Columns, idRows: seq<IdRow>,
                     network: nat -> Response, titleKey: string, bodyKey: string)
    returns (acts: seq<Action>)
    requires sheet.Valid() && cols.FitIn(sheet.maxCol)
    requires forall k :: 0 <= k < |idRows| ==> 2 <= idRows[k].row <= sheet.maxRow
    modifies sheet, log
    ensures acts == ActionsFrom(idRows, network, titleKey, bodyKey, 0) && |acts| <= |idRows|
    ensures sheet.Valid() && sheet.bold == old(sheet.bold)
    ensures sheet.maxRow == old(sheet.maxRow) && sheet.maxCol == old(sheet.maxCol)
    ensures sheet.cells == ApplyAll(old(sheet.cells), cols, idRows[..|acts|], acts)
    ensures log.entries == old(log.entries) + ErrorsOf(idRows[..|acts|], acts)
  {
    acts := [];
    ghost var rest := ActionsFrom(idRows, network, titleKey, bodyKey, 0);
    var i := 0;
    while i < |idRows| && (i == 0 || !acts[i - 1].Crash?)
      invariant |acts| == i
      invariant Scheduled(idRows, network, titleKey, bodyKey, acts, rest)
      invariant Progress(sheet, log, cols, idRows, acts, old(sheet.cells), old(log.entries))
      invariant sheet.bold == old(sheet.bold)
      invariant sheet.maxRow == old(sheet.maxRow) && sheet.maxCol == old(sheet.maxCol)
    {
      var a := VisitRow(sheet, log, cols, idRows, network, titleKey, bodyKey, old(sheet.cells), old(log.entries), acts);
      ScheduledStep(idRows, network, titleKey, bodyKey, acts, rest, a);
      acts := acts + [a];
      rest := rest[1..];
      i := i + 1;
    }
    ScheduledDone(idRows, network, titleKey, bodyKey, acts, rest);
  }

  /** What the source's network-failure handler can see: the `response.url` and `error_url`
      of the last request that did return a response. */
  datatype LastRequest = LastRequest(url: string, errorUrl: string)

  /** `response` and `error_url` after a request for `id`: reassigned only when a response
      arrived. */
  function LastAfter(resp: Response, id: int, last: Option<LastRequest>): Option<LastRequest> {
    if resp.Received? then Some(LastRequest(resp.url, ErrorUrl(id))) else last
  }

  /** The outcome of one row as lines 159-163 are written: a network failure writes the
      leftover `error_url` and records the leftover `response.url`, or raises a NameError
      when no request has yet returned a response. Other responses behave as in Decide. */
  function DecideAsWritten(resp: Response, id: int, titleKey: string, bodyKey: string,
                           last: Option<LastRequest>): (a: Action)
    ensures a != Decide(resp, id, titleKey, bodyKey) <==>
      resp.NetworkFailure? && (last.None? || last.value != LastRequest(resp.requestUrl, ErrorUrl(id)))
  {
    match resp
    case NetworkFailure(_) =>
      if last.None? then Crash(UnboundName) else MarkError(last.value.errorUrl, last.value.url)
    case Received(_, _, _, _) => Decide(resp, id, titleKey, bodyKey)
  }

  /** A network failure on the first request crashes the run as written. */
  lemma AsWrittenFirstFailureCrashes(requestUrl: string, id: int, titleKey: string, bodyKey: string)
    ensures DecideAsWritten(NetworkFailure(requestUrl), id, titleKey, bodyKey, None) == Crash(UnboundName)
  {
  }

  /** As written, a network failure after a response for another ID marks the row with that
      other ID's error page and records that other request's URL. */
  lemma AsWrittenStaleErrorUrl(prev: Response, prevId: int, requestUrl: string, id: int,
                               titleKey: string, bodyKey: string)
    requires prev.Received? && prevId != id
    ensures var a := DecideAsWritten(NetworkFailure(requestUrl), id, titleKey, bodyKey,
                                     LastAfter(prev, prevId, None));
      && a == MarkError(ErrorUrl(prevId), prev.url)
      && a.cellText != ErrorUrl(id)
  {
    ErrorUrlInjective(prevId, id);
  }
}
