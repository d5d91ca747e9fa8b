/** The pure part of `google_sheets_query` (tools/google_sheets.py, lines
    110-169): from the grid of cells the spreadsheet service returned to the
    column names and one record per data row. */
module SheetsQuery {
  import opened Text
  import opened Cells
  import opened Header
  import opened Rows
  import opened Records

  /** The rectangular table handed to `pd.DataFrame` at line 156. */
  datatype Table = Table(columns: seq<string>, rows: Grid)

  /** `SheetsQueryReturn`: one dictionary per row, and the column names. */
  datatype QueryReturn = QueryReturn(data: seq<map<string, string>>, columns: seq<string>)

  /** Lines 110-154: an empty grid gives an empty table; otherwise the header
      row names the columns and the data rows after it are fitted to them. */
  function Normalize(values: Grid): (t: Table)
    ensures values == [] ==> t == Table([], [])
    ensures forall k :: 0 <= k < |t.rows| ==> |t.rows[k]| == |t.columns|
  {
    if values == [] then Table([], [])
    else
      var h := HeaderIndex(values);
      var columns := NameColumns(values[h]);
      Table(columns, CleanRows(values[h + 1..], |columns|))
  }

  /** Lines 156 and 166-169: each fitted row becomes the dictionary pairing
      column `j` with cell `j`; the columns are returned as computed.
      `to_dict("records")` zips the table's columns into tuples, so a table
      without columns gives no records at all, however many rows it has. */
  function Query(values: Grid): (q: QueryReturn)
    ensures values == [] ==> q == QueryReturn([], [])
    ensures q.columns == Normalize(values).columns
    ensures |q.data| == if q.columns == [] then 0 else |Normalize(values).rows|
    ensures forall k :: 0 <= k < |q.data| ==> q.data[k].Keys == set c | c in q.columns
  {
    var t := Normalize(values);
    var data :=
      if t.columns == [] then []
      else seq(|t.rows|, k requires 0 <= k < |t.rows| => Record(t.columns, t.rows[k]));
    QueryReturn(data, t.columns)
  }

  /** Record `k` of the result pairs the columns with the `k`-th row of the
      normalised table, which has at least one column. */
  lemma QueryRecordOfTable(values: Grid, k: nat)
    requires k < |Query(values).data|
    ensures Query(values).columns == Normalize(values).columns != []
    ensures k < |Normalize(values).rows|
    ensures Query(values).data[k] == Record(Normalize(values).columns, Normalize(values).rows[k])
  {
  }

  /** A non-empty grid has columns exactly when it has a header row: the
      header row's non-blank cell gives a label, and without a header row
      the first row, used in its place, has only blank cells. */
  lemma ColumnsExactlyWithHeaderRow(values: Grid)
    requires values != []
    ensures Query(values).columns != [] <==> !NoHeaderRowFrom(values, 0)
  {
    var header := values[HeaderIndex(values)];
    NameColumnsNamedAfter(header);
    if NoHeaderRowFrom(values, 0) {
      LabelsAfterBlankCells(header, []);
      assert header + [] == header;
    } else {
      var j :| 0 <= j < |header| && Strip(header[j]) != "";
      LabelKept(header, j);
    }
  }

  /** The columns are named from the header row: its non-blank cells,
      stripped, the `k`-th occurrence of a label suffixed with `_k`. */
  lemma QueryColumnsNamedAfterHeader(values: Grid)
    requires values != []
    ensures Query(values).columns == NameColumns(values[HeaderIndex(values)])
    ensures NamedAfter(Query(values).columns, Labels(values[HeaderIndex(values)]))
  {
    NameColumnsNamedAfter(values[HeaderIndex(values)]);
  }

  /** Rows above the header row play no part: normalising from the header
      row on gives the same table. */
  lemma RowsBeforeHeaderIgnored(values: Grid)
    requires values != []
    ensures Normalize(values) == Normalize(values[HeaderIndex(values)..])
  {
    var h := HeaderIndex(values);
    var rest := values[h..];
    if !NoHeaderRowFrom(values, 0) {
      assert IsHeaderRow(rest[0]);
      assert HeaderIndex(rest) == 0;
      assert rest[1..] == values[h + 1..];
    } else {
      assert rest == values;
    }
  }

  /** Two grids that agree from their header rows on normalise alike. */
  lemma SameFromHeaderRow(a: Grid, b: Grid)
    requires a != [] && b != [] && a[HeaderIndex(a)..] == b[HeaderIndex(b)..]
    ensures Normalize(a) == Normalize(b)
  {
    RowsBeforeHeaderIgnored(a);
    RowsBeforeHeaderIgnored(b);
  }

  /** Leading rows without a non-blank cell are discarded: prefixing them to
      a grid that has a header row changes nothing. */
  lemma LeadingBlankRowsIgnored(blank: Grid, values: Grid)
    requires NoHeaderRowFrom(blank, 0) && !NoHeaderRowFrom(values, 0)
    ensures Normalize(blank + values) == Normalize(values)
  {
    var all := blank + values;
    var h := HeaderIndex(values);
    assert HeaderIndex(all) == |blank| + h by {
      HeaderIndexAfterBlankRows(blank, values);
    }
    assert all[|blank| + h..] == values[h..];
    SameFromHeaderRow(all, values);
  }

  /** A grid with no non-blank cell still uses its first row as the header.
      That row gives no columns, so the result is empty, as for an empty
      grid, even when later rows (rows of spaces, say) are kept as data. */
  lemma NoHeaderRowGivesEmptyResult(values: Grid)
    requires values != [] && NoHeaderRowFrom(values, 0)
    ensures HeaderIndex(values) == 0
    ensures Query(values) == QueryReturn([], [])
  {
    var header := values[0];
    assert NameColumns(header) == [] by {
      LabelsAfterBlankCells(header, []);
      assert header + [] == header;
      NameColumnsNamedAfter(header);
    }
  }

  /** Every data row after the header row reaches the result, in order, as
      the record pairing column `j` with the cell at position `j` of the row
      (or "" past the row's end). Pairing is by position, so a blank header
      cell dropped from the columns shifts the later cells one column left. */
  lemma QueryRecordOfRow(values: Grid, i: nat, j: nat)
    requires values != [] && HeaderIndex(values) < i < |values| && IsDataRow(values[i])
    requires j < |Query(values).columns| && LastOfName(Query(values).columns, j)
    ensures var k := |CleanRows(values[HeaderIndex(values) + 1..i], |Query(values).columns|)|;
            && k < |Query(values).data|
            && Query(values).data[k][Query(values).columns[j]]
               == (if j < |values[i]| then values[i][j] else "")
  {
    var h := HeaderIndex(values);
    var t := Normalize(values);
    var w := |t.columns|;
    assert t.rows == CleanRows(values[h + 1..], w);
    var k := |CleanRows(values[h + 1..i], w)|;
    CleanRowKeptFrom(values, h + 1, w, i);
    QueryRecordOfTable(values, k);
    RecordLastWins(t.columns, t.rows[k], j);
  }

  /** Every record comes from a data row after the header row. */
  lemma QueryRecordOrigin(values: Grid, k: nat)
    requires k < |Query(values).data|
    ensures exists i :: && HeaderIndex(values) < i < |values|
                        && IsDataRow(values[i])
                        && Query(values).data[k]
                           == Record(Query(values).columns, FitRow(values[i], |Query(values).columns|))
  {
    var h := HeaderIndex(values);
    var t := Normalize(values);
    var w := |t.columns|;
    assert t.rows == CleanRows(values[h + 1..], w);
    QueryRecordOfTable(values, k);
    assert k < |t.rows|;
    CleanRowOriginFrom(values, h + 1, w, k);
    var i :| h + 1 <= i < |values| && IsDataRow(values[i]) && t.rows[k] == FitRow(values[i], w);
    assert Query(values).data[k] == Record(t.columns, FitRow(values[i], w));
  }

  /** A dropped blank header cell shifts the data one column to the left:
      under the header row `"", a` the row `x, y` is filed as `{a: x}`,
      although `a` heads the second column. A row `"", y` is kept too and
      gives `{a: ""}`. */
  lemma BlankHeaderCellShiftsCells(a: string, x: string, y: string)
    requires a != "" && Trimmed(a) && (x != "" || y != "")
    ensures Query([["", a], [x, y]]) == QueryReturn([map[a := x]], [a])
  {
    var values := [["", a], [x, y]];
    var header := values[0];
    assert HeaderIndex(values) == 0 by {
      StripOfTrimmed(a);
      assert Strip(header[1]) != "";
    }
    assert NameColumns(header) == [a] by {
      assert header == [""] + [a];
      ColumnsAfterBlankCells([""], [a]);
    }
    var data := values[1..];
    assert CleanRows(data, 1) == [[x]] by {
      assert data[0][0] == x && data[0][1] == y;
      assert IsDataRow(data[0]);
      assert FitRow(data[0], 1) == [x];
    }
    assert Normalize(values) == Table([a], [[x]]);
    assert Query(values).data == [Record([a], [x])];
    assert Record([a], [x]) == map[a := x];
  }
}
