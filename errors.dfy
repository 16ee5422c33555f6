/** Error accumulation: the entries of failed rows (`update_error`) and the human-facing
    error-page URL of an ID (`get_error_url`). */
module ErrorReport {
  import opened Wrappers
  import opened Decimal

  /** The literal prefix of the error-page URL, placeholder host included. */
  const ErrorPagePrefix: string := "<URL>?id="

  /** A failed row: its ID, its spreadsheet row and the endpoint URL that was attempted. */
  datatype ErrorEntry = ErrorEntry(id: int, row: nat, url: string)

  /** `get_error_url(id)`: the prefix followed by the decimal form of the ID. */
  function ErrorUrl(id: int): (u: string)
    ensures |u| > |ErrorPagePrefix| && u[..|ErrorPagePrefix|] == ErrorPagePrefix
  {
    ErrorPagePrefix + IntToString(id)
  }

  /** The ID an error-page URL refers to, if it is one. */
  function IdOfErrorUrl(u: string): Option<int> {
    if |u| >= |ErrorPagePrefix| && u[..|ErrorPagePrefix|] == ErrorPagePrefix
    then ParseInt(u[|ErrorPagePrefix|..])
    else None
  }

  lemma ErrorUrlRoundTrip(id: int)
    ensures IdOfErrorUrl(ErrorUrl(id)) == Some(id)
  {
    assert ErrorUrl(id)[|ErrorPagePrefix|..] == IntToString(id);
    IntToStringRoundTrip(id);
  }

  /** Different IDs have different error pages. */
  lemma ErrorUrlInjective(a: int, b: int)
    ensures ErrorUrl(a) == ErrorUrl(b) <==> a == b
  {
    ErrorUrlRoundTrip(a);
    ErrorUrlRoundTrip(b);
  }

  /** The list `error_ids` that `update_error` appends to in place. */
  class ErrorLog {
    var entries: seq<ErrorEntry>

    constructor ()
      ensures entries == []
    {
      entries := [];
    }

    /** `update_error(errors, id_value, row_num, url)`: one entry at the end, nothing else
        changed, and the same list returned. */
    method UpdateError(id: int, row: nat, url: string) returns (same: ErrorLog)
      modifies this
      ensures same == this
      ensures entries == old(entries) + [ErrorEntry(id, row, url)]
    {
      entries := entries + [ErrorEntry(id, row, url)];
      same := this;
    }
  }
}
