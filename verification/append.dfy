/** The pure part of `google_sheets_append_row` (tools/google_sheets.py,
    lines 184-211): which range holds the sheet's header row, how the
    service's answer for that range yields the header cells, and how the
    caller's values are laid out in header order as the row to append. */
module Append {
  import opened Text
  import opened Cells
  import opened Results
  import opened Records

  /** `a1_range.split("!")[0]` (lines 184-185): the range up to its first
      `!`, or all of it when there is none. */
  function SheetName(range: string): (name: string)
    ensures name <= range
    ensures '!' !in name
    ensures |name| < |range| ==> range[|name|] == '!'
  {
    range[..Find(range, '!')]
  }

  /** The range of the sheet's first row (line 186). */
  function HeaderRange(range: string): string {
    SheetName(range) + "!1:1"
  }

  /** The sheet name is everything before the first `!`, whatever follows
      it. */
  lemma SheetNameOf(sheet: string, rest: string)
    requires '!' !in sheet
    ensures SheetName(sheet + "!" + rest) == sheet
  {
    FindAfter(sheet, '!', rest);
    assert (sheet + "!" + rest)[..|sheet|] == sheet;
  }

  /** The header range of `sheet!cells` is `sheet!1:1`. */
  lemma HeaderRangeOf(sheet: string, cells: string)
    requires '!' !in sheet
    ensures HeaderRange(sheet + "!" + cells) == sheet + "!1:1"
  {
    SheetNameOf(sheet, cells);
  }

  /** A range without `!` names a whole sheet. */
  lemma SheetNameWithoutBang(range: string)
    requires '!' !in range
    ensures SheetName(range) == range
  {
    assert range[..|range|] == range;
  }

  /** The header range of a header range is itself: asking again for the
      first row of the same sheet. */
  lemma HeaderRangeIdempotent(range: string)
    ensures HeaderRange(HeaderRange(range)) == HeaderRange(range)
  {
    var name := SheetName(range);
    assert HeaderRange(range) == name + "!" + "1:1";
    SheetNameOf(name, "1:1");
  }

  /** Why no row can be appended. Both end up as a `SheetsAppendError`
      ("Append failed: ...") through the handler at lines 220-221. */
  datatype AppendError =
    | NoHeaders         // "Could not retrieve sheet headers" (line 195)
    | HeaderRowMissing  // the `IndexError` of `[...][0]` on an empty list

  /** Lines 193-195: `header_result.get("values", [[]])[0]`, where `None`
      stands for an answer without a "values" key. */
  function HeaderCells(response: Option<Grid>): (r: Result<Row, AppendError>)
    ensures r.Ok? <==> response.Some? && response.value != [] && response.value[0] != []
    ensures r.Ok? ==> r.value == response.value[0]
    ensures r == Err(HeaderRowMissing) <==> response == Some([])
  {
    var grid := if response.Some? then response.value else [[]];
    if grid == [] then Err(HeaderRowMissing)
    else if grid[0] == [] then Err(NoHeaders)
    else Ok(grid[0])
  }

  /** `values.get(key, "")`. */
  function Get(values: map<string, string>, key: string): string {
    if key in values then values[key] else ""
  }

  /** `ordered_values` (line 198): the value for each header cell, in header
      order, "" for a header the values do not mention. Header cells are
      matched as they are, without stripping. */
  function OrderValues(headers: Row, values: map<string, string>): (row: Row)
    ensures |row| == |headers|
    ensures forall j :: 0 <= j < |headers| ==> row[j] == Get(values, headers[j])
  {
    seq(|headers|, j requires 0 <= j < |headers| => Get(values, headers[j]))
  }

  /** The request of lines 201-211: the row goes to the range the caller gave,
      not to the header range. */
  datatype AppendRequest = AppendRequest(range: string, row: Row)

  /** Lines 184-211, with `response` the service's answer for
      `HeaderRange(range)`. */
  function AppendRow(range: string, response: Option<Grid>, values: map<string, string>)
    : (r: Result<AppendRequest, AppendError>)
    ensures r.Err? <==> HeaderCells(response).Err?
    ensures r.Err? ==> r.error == HeaderCells(response).error
    ensures r.Ok? ==> r.value.range == range && r.value.row == OrderValues(response.value[0], values)
  {
    match HeaderCells(response)
    case Err(e) => Err(e)
    case Ok(headers) => Ok(AppendRequest(range, OrderValues(headers, values)))
  }

  /** Only the values under header names matter: keys that name no column
      are dropped. */
  lemma OrderValuesIgnoresOtherKeys(headers: Row, v: map<string, string>, w: map<string, string>)
    requires forall j :: 0 <= j < |headers| ==> Get(v, headers[j]) == Get(w, headers[j])
    ensures OrderValues(headers, v) == OrderValues(headers, w)
  {
  }

  /** Reading the appended row back as a record under the same headers gives
      each header its value, and "" where none was given. A repeated header
      gets the same value in each of its columns, so whichever column the
      record keeps, the value is right. */
  lemma AppendedRowReadsBack(headers: Row, values: map<string, string>)
    ensures forall j :: 0 <= j < |headers| ==>
              Record(headers, OrderValues(headers, values))[headers[j]] == Get(values, headers[j])
  {
    var row := OrderValues(headers, values);
    forall j | 0 <= j < |headers|
      ensures Record(headers, row)[headers[j]] == Get(values, headers[j])
    {
      var k := LastColumnOfName(headers, j);
      RecordLastWins(headers, row, k);
    }
  }

  /** The request a successful append sends, read back under the sheet's
      header row, gives every header its value from the caller, or "". */
  lemma AppendRequestReadsBack(range: string, response: Option<Grid>, values: map<string, string>)
    requires AppendRow(range, response, values).Ok?
    ensures var headers := response.value[0];
            var row := AppendRow(range, response, values).value.row;
            && |row| == |headers|
            && forall j :: 0 <= j < |headers| ==> Record(headers, row)[headers[j]] == Get(values, headers[j])
  {
    AppendedRowReadsBack(response.value[0], values);
  }

  /** Conversely, appending a record under its own distinct headers writes
      back the row it was read from. */
  lemma RecordAppendsBack(headers: Row, cells: Row)
    requires |headers| == |cells|
    requires forall i, j :: 0 <= i < j < |headers| ==> headers[i] != headers[j]
    ensures OrderValues(headers, Record(headers, cells)) == cells
  {
    RecordOfDistinctColumns(headers, cells);
  }
}
