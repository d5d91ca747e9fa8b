# Google Sheets grid normaliser and row appender, in Dafny

This project models the pure core of the finance agent's two spreadsheet
tools in `tools/google_sheets.py`:

- **`google_sheets_query`** takes the grid of string cells the spreadsheet
  service returns and turns it into a query result, a list of records plus
  the list of column names.
  - The header row is the first row with a non-blank cell.
  - The header cells are stripped; blank ones are dropped.
  - A repeated label is numbered `label_2`, `label_3`, and so on.
  - Data rows whose cells are all `""` are skipped. Every other data row is
    cut or padded with `""` to the number of columns.
  - Each remaining row becomes the dictionary that pairs column `j` with
    cell `j`. A table without columns gives no dictionaries at all.
- **`google_sheets_append_row`** derives the range of the sheet's first
  row from the target range. It reads the header cells from the service's
  answer for that range and lays out the caller's values in header order
  as the row to append.

Modules follow the program's structure:

| module | file | what it holds |
|---|---|---|
| `Text` | `text.dfy` | Python's `str.isspace`, `str.strip()`, `str(n)` and the search for a character |
| `Cells` | `cells.dfy` | rows and grids of string cells |
| `Results` | `results.dfy` | `Option` and `Result` |
| `Seqs` | `seqs.dfy` | the filter-and-map loop shape shared by header naming and row cleaning |
| `Header` | `header.dfy` | header row detection and column naming |
| `Rows` | `rows.dfy` | skipping empty rows, and fitting rows to the column count |
| `Records` | `records.dfy` | `dict(zip(columns, row))`, as `to_dict("records")` builds it |
| `SheetsQuery` | `query.dfy` | the query result, from grid to records |
| `Append` | `append.dfy` | the header range, the header cells and the ordered row |

The service calls themselves are not modelled:

- The query model starts from the grid the service returned.
- The append model takes the service's answer for the header range as a
  parameter. `None` stands for an answer without a `"values"` key.
- The append model returns the request it would send: the target range and
  the ordered row.

### Where the code's behaviour is easy to misread

The model follows the code at each of these points:

- **A grid with no non-blank cell is empty by another route.** The header
  index keeps its initial value 0, so the first row serves as the header
  and yields no columns. Later rows with a cell other than `""` are still
  kept as data, a row of spaces included. But `to_dict("records")` builds
  one dictionary per row tuple, and it forms those tuples by zipping the
  column arrays together. With no columns that zip is empty, so no records
  come out. The guard at line 122 never
  fires: `HeaderIndex` is proved to be a valid index for every non-empty
  grid. See `SheetsQuery.NoHeaderRowGivesEmptyResult` and
  `SheetsQuery.ColumnsExactlyWithHeaderRow`.
- **Empty data rows are detected with `== ''`, not by stripping.** A row of
  whitespace cells is data. See `Rows.WhitespaceRowsAreKept`.
- **Column names are not always unique.** The counter is kept per bare
  label, so a header cell that already reads `A_2` collides with the name
  generated for a second `A`. See `Header.SuffixCollision`. Uniqueness is
  proved when no header cell contains `_`. See
  `Header.ColumnsDistinctWithoutUnderscore`.
- **Cells are paired with columns by position after blank header cells
  are dropped.** A blank header cell therefore shifts the later data cells
  one column to the left. See `SheetsQuery.BlankHeaderCellShiftsCells`.
- **When two columns share a name, the later cell wins.** This is what
  zipping the names with the cells into a dictionary gives. See
  `Records.RecordLastWins`.
- **Header cells are matched unstripped when appending.** The query strips
  its header cells; `google_sheets_append_row` looks up the raw header cell.

## Model

| member | source | states |
|---|---|---|
| Text.Strip | tools/google_sheets.py:131 | `strip()` leaves a string with no whitespace at either end. The result is empty exactly when the cell is all whitespace, using Python's `isspace` set. |
| Text.StripFramed | tools/google_sheets.py:131 | `strip()` removes only whitespace, and only from the two ends. |
| Text.StripPadded | tools/google_sheets.py:131 | Any whitespace around a trimmed string is removed exactly, which pins `strip()` down completely. |
| Text.StripIdempotent | tools/google_sheets.py:131 | Stripping twice is stripping once. |
| Text.NatToStringRoundTrip | tools/google_sheets.py:136 | Specifies `Text.NatToString`, the `str(n)` of the suffix: the decimal text of the counter reads back as the counter. |
| Text.NatToStringInjective | tools/google_sheets.py:136 | Different counters produce different suffix texts. |
| Header.HeaderIndex | tools/google_sheets.py:116-122 | The header index is the least index of a row that has cells and a non-blank cell, and 0 if there is none. For a non-empty grid it is always a valid row, so the guard at line 122 cannot fire. |
| Header.HeaderIndexIsFirstHeaderRow | tools/google_sheets.py:116-120 | A header row with no header row above it is the header index. |
| Header.HeaderIndexAfterBlankRows | tools/google_sheets.py:116-120 | Rows without a non-blank cell placed in front of a grid only shift its header index. |
| Header.NameColumnsNamedAfter | tools/google_sheets.py:126-139 | Specifies `Header.NameColumns`, the loop that builds `unique_headers`. Column `j` is label `j` of the header row at its first occurrence, and `label_k` at its `k`-th occurrence, for `k >= 2`. |
| Header.LabelKept | tools/google_sheets.py:130-133 | With `Header.LabelOrigin`, specifies `Header.Labels`, the stripped non-blank header cells. A non-blank header cell contributes its stripped text. That label comes right after the labels of the cells before it. |
| Header.LabelOrigin | tools/google_sheets.py:130-133 | Every label is the stripped text of a non-blank header cell, and label order follows cell order. |
| Header.LabelsAfterBlankCells | tools/google_sheets.py:131-133 | Blank header cells contribute no label. |
| Header.ColumnsAreLabelsWithoutRepeats | tools/google_sheets.py:134-139 | When no label repeats, the columns are the labels unchanged. |
| Header.ColumnsAfterBlankCells | tools/google_sheets.py:126-139 | Blank cells followed by distinct trimmed labels give exactly those labels as columns. |
| Header.ColumnsDistinctWithoutUnderscore | tools/google_sheets.py:134-139 | When no header cell contains `_`, the column names are pairwise distinct. |
| Header.RepeatedLabel | tools/google_sheets.py:134-139 | The header `a, b, a` gives the columns `a, b, a_2`. |
| Header.SuffixCollision | tools/google_sheets.py:134-139 | The header `a_2, a, a` gives the columns `a_2, a, a_2`, so two columns share a name. |
| Rows.FitRow | tools/google_sheets.py:151-153 | A fitted row has exactly the column count of cells. Cell `j` is the row's cell `j`, or `""` past the row's end. |
| Rows.FitRowKeepsPrefix | tools/google_sheets.py:151-153 | A short row is kept as a prefix, and a long row is cut to its first cells. |
| Rows.FitRowIdempotent | tools/google_sheets.py:151-153 | Fitting a fitted row changes nothing, and a row of the right length is left as it is. |
| Rows.CleanRows | tools/google_sheets.py:145-154 | No more rows come out than went in, and every row that comes out has the column count of cells. |
| Rows.CleanRowKept | tools/google_sheets.py:146-154 | A row with a cell other than `""` is output, fitted, right after the outputs of the rows before it. |
| Rows.CleanRowOrigin | tools/google_sheets.py:146-154 | Every output row is a fitted data row, and input order is kept. |
| Rows.WhitespaceRowsAreKept | tools/google_sheets.py:148 | A row of spaces is kept. A row with no cells, or with only `""` cells, is skipped. |
| Records.Record | tools/google_sheets.py:167 | A record's keys are exactly the column names. |
| Records.RecordLastWins | tools/google_sheets.py:167 | The value under a name is the cell of the last column with that name. |
| Records.RecordOfDistinctColumns | tools/google_sheets.py:167 | With distinct names, every cell is found under its own column. |
| SheetsQuery.Normalize | tools/google_sheets.py:110-156 | An empty grid gives an empty table, and every table row has one cell per column. |
| SheetsQuery.Query | tools/google_sheets.py:110-169 | An empty grid gives no records and no columns. A table without columns gives no records. Otherwise there is one record per cleaned row, and every record is keyed by exactly the column names. |
| SheetsQuery.QueryRecordOfTable | tools/google_sheets.py:156-168 | Every record comes from a table with at least one column. Record `k` pairs the columns with table row `k`, and the columns are returned as built. |
| SheetsQuery.ColumnsExactlyWithHeaderRow | tools/google_sheets.py:116-139 | A non-empty grid has columns exactly when one of its rows has a non-blank cell. |
| SheetsQuery.QueryColumnsNamedAfterHeader | tools/google_sheets.py:125-139 | The returned columns are the names built from the header row's labels. |
| SheetsQuery.RowsBeforeHeaderIgnored | tools/google_sheets.py:115-142 | Rows above the header row do not affect the result. |
| SheetsQuery.SameFromHeaderRow | tools/google_sheets.py:115-154 | Two grids that agree from their header rows on give the same table. |
| SheetsQuery.LeadingBlankRowsIgnored | tools/google_sheets.py:115-120 | Prefixing rows without a non-blank cell to a grid that has a header row changes nothing. |
| SheetsQuery.NoHeaderRowGivesEmptyResult | tools/google_sheets.py:116-167 | Without a non-blank cell the first row is the header, and the result has no records and no columns, whatever rows follow. |
| SheetsQuery.QueryRecordOfRow | tools/google_sheets.py:142-167 | Each data row after the header gives a record, in order. Under each column name it holds that row's cell at the column's position, or `""`. |
| SheetsQuery.QueryRecordOrigin | tools/google_sheets.py:142-167 | Every record comes from a data row after the header row. |
| SheetsQuery.BlankHeaderCellShiftsCells | tools/google_sheets.py:130-167 | Under the header `"", a`, every kept row `x, y` gives the record `{a: x}`, so a row `"", y` gives `{a: ""}`. |
| Append.SheetName | tools/google_sheets.py:184-185 | The sheet name is a prefix of the range with no `!` in it, and it stops at the first `!`. |
| Append.SheetNameOf | tools/google_sheets.py:184-185 | The sheet name of `sheet!rest` is `sheet`, whatever `rest` contains. |
| Append.SheetNameWithoutBang | tools/google_sheets.py:184-185 | A range without `!` is its own sheet name. |
| Append.HeaderRangeOf | tools/google_sheets.py:184-186 | Specifies `Append.HeaderRange`, the `header_range` of line 186. The header range of `sheet!cells` is `sheet!1:1`. |
| Append.HeaderRangeIdempotent | tools/google_sheets.py:184-186 | The header range of a header range is itself. |
| Append.HeaderCells | tools/google_sheets.py:193-195 | There are headers exactly when the answer has a first row that is non-empty, and then they are that row. An answer whose row list is empty is the `IndexError` case. |
| Append.OrderValues | tools/google_sheets.py:198 | One cell per header cell, in header order: the caller's value for that header, or `""`. Its meaning is fixed by the round trips `Append.AppendedRowReadsBack` and `Append.RecordAppendsBack`. |
| Append.OrderValuesIgnoresOtherKeys | tools/google_sheets.py:198 | Values whose keys name no header cell do not affect the row. |
| Append.AppendRow | tools/google_sheets.py:193-211 | It fails exactly when the header cells cannot be had, with the same error. Otherwise the request targets the caller's range and its row is the caller's values in header order. |
| Append.AppendRequestReadsBack | tools/google_sheets.py:193-211 | The row of a successful request has one cell per header cell, and read back under the header row it gives every header the caller's value, or `""`. |
| Append.AppendedRowReadsBack | tools/google_sheets.py:198 | For any header row, repeated names included, the appended row read back as a record gives each header its value, or `""` if it was not given. |
| Append.RecordAppendsBack | tools/google_sheets.py:198 | Appending a record under its own distinct headers writes back the row it was read from. |

## Left out

- Numeric coercion (lines 158-164) is not modelled, and record values are the fitted cells before that pass. The pass changes more than numbers:
  - For every column whose name is unique, line 162 strips each cell and removes its commas. If every result parses as a float, the column becomes floats. Otherwise `astype(float, errors='ignore')` gives back the stripped, comma-free strings, so a text cell `" a,b "` reaches the record as `"ab"`.
  - A column whose name is repeated is left as it is. There `df[col]` is a table, `.str` raises, and lines 163-164 swallow the error.
- Record: the order of a record's keys is not modelled, because a Dafny `map` has no order. `dict(zip(columns, cells))` keeps each name at its first occurrence among the columns, and the agent serialises records in that order. For example, columns `a_2, a, a_2` with cells `x, y, z` give `{"a_2": z, "a": y}`, in that order. The model keeps the key set and each key's value.
- QueryRecordOfTable: record `k` is stated as the record of the fitted table row, before the coercion pass above. For example, the program's record for a header `a` and a row `" 1,000 "` is `{a: 1000.0}`, and for a row `" x "` it is `{a: "x"}`.
- QueryRecordOrigin: every record is stated as the record of a fitted data row, before the coercion pass above. The program's values differ wherever that pass changes a cell.
- QueryRecordOfRow: the value it states for a column is the fitted cell. The program's record holds that cell after the coercion pass above, so the two agree only for cells that pass through it unchanged.
- BlankHeaderCellShiftsCells: the record `{a: x}` is stated before the coercion pass. The program's record holds `x` stripped and without commas, or as a float.
- `to_dict("records")` is modelled as pandas implements it. It builds one dictionary per row tuple, and it forms those tuples by zipping the column arrays together. A table without columns therefore gives no dictionaries, whatever its row count. The repository does not pin a pandas version.
- The calls to the spreadsheet service, authentication and logging are not modelled: lines 95-108 and 180-191, the `print` calls, and the append call with its answer at lines 205-216. The grids they produce or consume are parameters or results of the model.
- The missing `"values"` key at line 110 is not a separate input. It is represented by the empty grid, which `SheetsQuery.Query` handles like line 111.
- The wrapping of exceptions into `SheetsQueryError` and `SheetsAppendError` (lines 171-174 and 218-221) is not modelled. Append failures are the two `Append.AppendError` cases, and the query's pure part cannot fail.
- Cells, header cells and appended values are all strings. `str(header)` at line 131 and values of other types in `params.values` are not modelled.
- `to_dict("records")` is modelled as zipping names with cells into a dictionary. pandas' warning about duplicate column names is not modelled.
- The rest of the repository is outside this model: the agent loop, the hierarchy aggregation (which exists only as prose, with no code), the HTTP service, the UI, and configuration.
