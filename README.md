# ContentType: filling a spreadsheet with article titles and bodies

`ContentType.py` is a command-line script that fills in a worksheet. The worksheet has a header row and an `ID` column. The script does the following:

1. It adds the `Title`, `Body` and `Error` header columns if they are missing.
2. It collects every data row whose ID converts to an integer in 100..100000.
3. For each such row, in row order, it sends one HTTP request.
4. On success it writes the first article's title and body into the row.
5. On a status other than 200, or a JSON-typed body that does not decode, it writes the ID's error-page URL into the row's `Error` cell and adds an entry to an error list. A request exception is meant to be handled the same way, but as written it is not (see "## Findings").

This project models that flow in Dafny.

- `workbook.dfy`: the worksheet as a class `Sheet`. It holds a map from (row, column) to the cell value, the set of bold cells, and the sheet's extent (openpyxl's `max_row`/`max_column`).
- `columns.dfy`: `process_excel`.
  - The planned header row is `Augmented(h)`. It is `h` followed by the missing headers, in the order Title, Body, Error.
  - The column indices are `ColumnsOf(h)`.
  - The method `ProcessExcel` writes the row cell by cell and is proved against both functions.
- `ids.dfy`: the ID-collection loop. `CollectIds` is proved against `ValidIdRows`.
- `errors.dfy`:
  - `get_error_url`, with a decimal rendering of the ID that is proved to round-trip (`decimal.dfy`);
  - `update_error`, on the class `ErrorLog`.
- `dispatch.dfy`: the per-row code.
  - `Decide` gives the single outcome of a row: error mark, soft skip, title/body update, or uncaught exception.
  - `ApplyAction` gives how that outcome changes the row.
  - `ActionsFrom` gives the actions of the loop, up to and including the first crash; `ApplyAll` and `ErrorsOf` give what the whole batch does to the cells and the error list.
  - The methods `HandleRow` and `ProcessRows` follow the source's statements and are proved equal to those functions.
- `contenttype.dfy`: `main` from the point where the sheet is open (`Run`).

Things outside the model become parameters:

- Python's `int(value)` is the parameter `parse`.
- The HTTP exchange is the parameter `network`. `network(k)` is the response, or the exception, for the k-th request.
- Responses are values of `Dispatch.Response`.

An uncaught exception is an action `Crash(reason)`. It ends the loop, as it ends the script.

## Model

| member | source | states |
|---|---|---|
| Workbook.Sheet.SetCell | ContentType.py:42-43 | `cell.value = v` on `sheet.cell(row, column)` changes exactly that cell, to v even when v is None, and grows the extent to cover it; the bold set is untouched |
| Workbook.Store | ContentType.py:152-153 | the cell map after a keyword-form write: the written cell reads v when v is not None, and every other cell, and the written one for None, reads as before |
| Workbook.Sheet.WriteCell | ContentType.py:152-153 | `sheet.cell(row, column, value=v)` grows the extent to cover the cell and stores v there unless v is None, in which case every cell keeps its value; the bold set is untouched |
| Workbook.Sheet.SetBold | ContentType.py:44 | setting the bold font adds exactly that cell to the bold set and changes nothing else |
| Columns.IndexOf | ContentType.py:48-51 | `list.index`: None exactly when the value is absent, otherwise a position holding the value |
| Columns.IndexOfIsFirst | ContentType.py:48-51 | no position before the one `IndexOf` returns holds the value |
| Columns.IndexOfFirst | ContentType.py:48-51 | the first position holding the value is the one `IndexOf` returns |
| Columns.IndexOfPrefix | ContentType.py:48-51 | a value present in `headers` has the same index in `headers + extra`, so looking `ID` up in the old row gives the index it has in the new row |
| Columns.AugmentedKeepsId | ContentType.py:47-48 | the new header row has `ID` if and only if the old one has, and at the same index, which is why the ID lookup in the old row is valid for the new one |
| Columns.Missing | ContentType.py:28-36 | each of Title, Body and Error is appended exactly when it is absent; only those three, none already present; nothing is appended exactly when all three are present |
| Columns.Augmented | ContentType.py:25-36 | the new header row starts with the old row unchanged and contains Title, Body and Error |
| Columns.ColumnsOf | ContentType.py:47-53 | fails exactly when the old header row has no `ID`; otherwise the four indices are 1-based, distinct, within the new row, and each points at its own header |
| Columns.PositionsHold | ContentType.py:47-53 | with an `ID` header, each of the four 1-based positions lies within the new row and holds its own header there |
| Columns.PositionsIdempotent | ContentType.py:47-53 | the positions found in the new header row are those found from the old one |
| Columns.AugmentIdempotent | ContentType.py:25-40 | planning the headers again on the new row adds nothing and writes nothing |
| Columns.ColumnsOfIdempotent | ContentType.py:47-53 | a second run over the written header row finds the same columns |
| Columns.PlanHeaders | ContentType.py:25-36 | the step-by-step appends give `Augmented(headers)`, and `columns_added` holds exactly when the row grew |
| Columns.WriteHeaderRow | ContentType.py:40-44 | after the loop, row 1 reads as the new header row with every header cell bold; no other row changes |
| Columns.HeaderFacts | ContentType.py:40-44 | writing the headers one cell at a time leaves row 1 reading as the header list, every other row unchanged, and adds exactly the cells 1..n of row 1 to the bold set |
| Columns.IndexColumns | ContentType.py:47-53 | the index computations give `ColumnsOf(headers)` |
| Columns.ProcessExcel | ContentType.py:21-53 | returns `ColumnsOf` of the original header row; row 1 becomes `Augmented` of it. When columns were added, every cell of row 1 is bold; otherwise the sheet is untouched. Other rows never change, even when `ID` is missing |
| IdCollection.ValidIdRows | ContentType.py:94-102 | every pair is an in-range ID that converts from its own row's cell, with rows in 2..max_row, in strictly increasing row order; every row whose cell converts to an in-range ID is present |
| IdCollection.ValidIdRowsExactly | ContentType.py:95-99 | a row is collected if and only if its ID cell converts to an integer in 100..100000 |
| IdCollection.CollectIds | ContentType.py:94-102 | the loop over rows 2..max_row builds exactly `ValidIdRows` of the ID column |
| Decimal.IntToStringRoundTrip | ContentType.py:66 | the decimal text of an integer in the f-string parses back to that integer |
| ErrorReport.ErrorUrl | ContentType.py:64-66 | the error-page URL is the fixed prefix followed by a non-empty ID text |
| ErrorReport.ErrorUrlRoundTrip | ContentType.py:64-66 | the ID can be read back from its error-page URL |
| ErrorReport.ErrorUrlInjective | ContentType.py:64-66 | two IDs share an error-page URL if and only if they are equal |
| ErrorReport.ErrorLog.constructor | ContentType.py:111 | the error list starts empty |
| ErrorReport.ErrorLog.UpdateError | ContentType.py:55-62 | appends exactly one entry (id, row, url) at the end and returns the same list |
| Dispatch.Contains | ContentType.py:133 | Python's substring test: true exactly when the pattern occurs at some position |
| Dispatch.Extract | ContentType.py:137-149 | reading the first element of a decoded document always updates or crashes: NotAnArray exactly for a document that is not a list (where `len`, `data[0]` or `.get` raises), EmptyArray exactly for `[]` (IndexError), FirstNotAnObject exactly for a non-empty list whose first element is not an object (AttributeError) |
| Dispatch.Decide | ContentType.py:122-163 | an error mark exactly for an exception, a status other than 200, or an undecodable JSON-typed body; it carries the current ID's error page and the attempted URL. A soft skip exactly for status 200 without `application/json` in Content-Type. Otherwise it is the outcome of reading the first element of the decoded document |
| Dispatch.ExtraElementsIgnored | ContentType.py:139-148 | a list with more elements gives the same outcome as its first element alone |
| Dispatch.FillUsesFirstElement | ContentType.py:148-153 | an update happens only for a non-empty list whose first element is an object, and writes that object's title and body members, "" where absent |
| Dispatch.ApplyAction | ContentType.py:126-153 | an error mark changes only the row's Error cell; an update changes only its Title and Body cells, and leaves either unchanged when the fetched value is null; a skip or a crash changes nothing |
| Dispatch.ApplyAllAt | ContentType.py:112-163 | over the whole batch, a visited row's cells are what its own action made of them, and every cell of an unvisited row is unchanged |
| Dispatch.ApplyAllOther | ContentType.py:112-163 | a cell of a row that no collected entry names keeps its value through the whole batch |
| Dispatch.ApplyAllOwn | ContentType.py:112-163 | with rows in strictly increasing order, a cell of the k-th entry's row ends as the k-th action alone left it |
| Dispatch.ApplyAllPointwise | ContentType.py:112-163 | the batch never reads a cell except to keep it: cells that start equal end equal |
| Dispatch.HeaderRowKept | ContentType.py:94-163 | the batch never changes row 1, since every collected row is row 2 or below |
| Dispatch.RowOutcome | ContentType.py:126-153 | after the batch, a visited row's Error cell holds the error page exactly when its action was an error mark. Its Title (Body) cell holds the fetched value exactly when it was an update with a non-null title (body). Every other cell of the row is unchanged |
| Dispatch.ErrorsOfEntries | ContentType.py:128-162 | an entry is in the error list if and only if some visited row's action was an error mark with that row's ID, row number and attempted URL |
| Dispatch.ErrorsOrdered | ContentType.py:165-167 | the error list is ordered by strictly increasing row number |
| Dispatch.HandleRow | ContentType.py:113-163 | the statements of one iteration yield `Decide`'s action, change the cells as `ApplyAction` says (through keyword-form writes, so a null title or body writes nothing), keep the bold set and the extent, and append `EntriesFor` to the error list |
| Dispatch.VisitRow | ContentType.py:112-163 | one iteration of the loop: its action is `Decide` on the next response, and afterwards the cells and the error list are those of the batch extended by that one entry |
| Dispatch.ActionsFromFacts | ContentType.py:111-163 | the actions of the loop from entry k on are `Visited`: the j-th is `Decide` on response k + j for entry k + j; none before the last is a crash; fewer actions than entries means the last one crashed |
| Dispatch.ProcessRows | ContentType.py:111-163 | the loop's actions are `ActionsFrom` of the entries, one per entry up to and including the first crash (see `ActionsFromFacts`). The cells end as `ApplyAll` and the error list as `ErrorsOf` of the visited entries; the bold set and the extent do not change |
| Dispatch.AsWrittenFirstFailureCrashes | ContentType.py:159-163 | as written, an exception on the first request ends the run with an unbound-name error |
| Dispatch.DecideAsWritten | ContentType.py:122-163 | the handler as written differs from the corrected `Decide` exactly on a request exception for which no earlier response exists, or the leftover response URL and error page are not this request's URL and this ID's page |
| Dispatch.AsWrittenStaleErrorUrl | ContentType.py:159-163 | as written, an exception after a response for another ID writes that other ID's error page and records that other request's URL |
| ContentType.UnselectedRowsUntouched | ContentType.py:95-102 | a row whose ID cell does not convert, or converts out of range, is never changed |
| ContentType.RunRows | ContentType.py:108-163 | the request loop with a fresh error list: as `ProcessRows`, with the requests as `Visited` says, the header row, the bold set and the extent unchanged, and the error list ordered by row |
| ContentType.BatchFacts | ContentType.py:108-163 | the loop's actions satisfy `Visited`, leave row 1 as it was, and give an error list in strictly increasing row order |
| ContentType.RunWithColumns | ContentType.py:94-163 | no valid ID: early return with no change. Otherwise: the collected IDs, the requests in order, the cells as `ApplyAll` and the errors as `ErrorsOf`. The bold set and the extent never change |
| ContentType.Run | ContentType.py:87-163 | a missing `ID` header is reported if and only if the original header row lacks it; the header row is `Augmented` in every case. When a column was added, the bold set gains every cell of row 1; otherwise it is unchanged. An early return (missing `ID` or no valid ID) leaves every row below row 1 unchanged, and no valid ID is the only other early return. Otherwise the report and the cells below row 1 are as the batch functions say, with the errors in row order. The number of rows never changes |

## Left out

- Command-line parsing (lines 11-19): `--type-id` and `--interface-id` feed only the request parameters, which are part of the abstract `network`. `--title-key` and `--body-key` are the parameters `titleKey` and `bodyKey`.
- Loading the workbook and selecting the sheet (lines 71-85): file-not-found, invalid-file and missing-sheet exits are outside the model.
- Saving (line 156): only the cell contents are modelled, not when they reach the disk. Because the only save follows a successful update, Error cells written after the last successful row are never saved. A run that ends in a crash loses every change after the previous save.
- HTTP (lines 109-123): the base URL, User-Agent header, query parameters and `time.time()` cache-buster are inside the abstract `network`. The final URL `response.url` is a field of the response.
- JSON decoding and Python's `int()` are abstract. The body is given already decoded (`Body`). `parse` decides which cell values convert to an integer.
- Dispatch.Json: object members are cell values (text, integer, or Blank for a JSON null). Nested objects and arrays as member values (openpyxl rejects them) and floats and booleans (not modelled) are left out.
- Workbook.Sheet.WriteCell: openpyxl's checks on a string value are not modelled. It truncates text to 32,767 characters, so a longer title or body is stored shortened, while `Fill` stores it whole. It raises `IllegalCharacterError` on control characters (`\x00`-`\x08`, `\x0b`, `\x0c`, `\x0e`-`\x1f`); nothing catches that, so such a body ends the run after line 152 has written the title. The model writes both cells and goes on.
- Dispatch.RowOutcome: "the fetched value" is the value as fetched, not shortened to 32,767 characters, and a value with control characters is taken to be written (see the previous line).
- Console output (every `print`, including the error report of lines 165-167): left out. When the run does not end in a crash, the report's content is the `errors` list of `Run`'s result; after a final `Crash`, lines 165-167 never run and nothing is reported.
- Workbook.Value: Python cell values other than text, integers and blank (floats, dates, formulas) are not modelled.
- Columns.ProcessExcel: the bold font is the only style modelled. A header cell's other font attributes are not.

## Findings

| source | as written | input that shows it | evidently intended | confidence | as-written member | corrected member |
|---|---|---|---|---|---|---|
| ContentType.py:159-163 | the handler for a request exception writes `error_url` and records `response.url`, names assigned only after a request succeeded | an exception on the first request. Or a response for ID 101 followed by an exception for ID 102 | mark the failing row with its own error page (`get_error_url(id_value)`) and record the URL that was attempted | not executed | Dispatch.DecideAsWritten, Dispatch.AsWrittenStaleErrorUrl | Dispatch.Decide |

With the as-written handler:

- the first case raises an unbound-name error and ends the run;
- the second writes ID 101's error page into ID 102's row, and records the URL of the previous request.

`Dispatch.DecideAsWritten` models the handler as written, and `Dispatch.AsWrittenFirstFailureCrashes` shows the first case. `Dispatch.Decide`, used by `HandleRow`, `ProcessRows` and `Run`, is the corrected one.
