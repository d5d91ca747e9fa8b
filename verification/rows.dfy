/** The data-row half of `google_sheets_query` (tools/google_sheets.py,
    lines 142-154): which rows after the header are kept, and how each is cut
    or padded to the number of columns. */
module Rows {
  import opened Cells
  import opened Seqs

  /** The skip test at line 148: the row has no cells, or every cell is
      exactly the empty string. A cell of spaces is not empty here. */
  predicate IsEmptyRow(row: Row) {
    forall j :: 0 <= j < |row| ==> row[j] == ""
  }

  predicate IsDataRow(row: Row) {
    !IsEmptyRow(row)
  }

  /** `n` empty cells. */
  function Blanks(n: nat): (r: Row)
    ensures |r| == n
  {
    seq(n, _ => "")
  }

  /** Lines 151-153: the first `width` cells of `row`, then empty cells up to
      `width`. */
  function FitRow(row: Row, width: nat): (r: Row)
    ensures |r| == width
    ensures forall j :: 0 <= j < width ==> r[j] == if j < |row| then row[j] else ""
  {
    var cut := if |row| <= width then row else row[..width];
    cut + Blanks(width - |cut|)
  }

  /** `clean_data`: every data row after the header, fitted to `width`
      columns, in order (lines 145-154). */
  function CleanRows(data: Grid, width: nat): (rows: Grid)
    ensures |rows| <= |data|
    ensures forall k :: 0 <= k < |rows| ==> |rows[k]| == width
  {
    var fitted := FilterMap(data, IsDataRow, (row: Row) => FitRow(row, width));
    assert forall k :: 0 <= k < |fitted| ==> |fitted[k]| == width by {
      forall k | 0 <= k < |fitted| ensures |fitted[k]| == width {
        assert fitted[k] in fitted;
      }
    }
    fitted
  }

  /** A fitted row keeps the cells it had room for: the first
      `min(|row|, width)` cells are those of `row`. */
  lemma FitRowKeepsPrefix(row: Row, width: nat)
    ensures |row| <= width ==> FitRow(row, width)[..|row|] == row
    ensures width <= |row| ==> FitRow(row, width) == row[..width]
  {
  }

  /** Fitting is idempotent, and a row already of the right width is left
      alone. */
  lemma FitRowIdempotent(row: Row, width: nat)
    ensures FitRow(FitRow(row, width), width) == FitRow(row, width)
    ensures |row| == width ==> FitRow(row, width) == row
  {
  }

  /** A data row reaches the output, fitted, right after the outputs of the
      rows before it. */
  lemma CleanRowKept(data: Grid, width: nat, i: nat)
    requires i < |data| && IsDataRow(data[i])
    ensures |CleanRows(data[..i], width)| < |CleanRows(data, width)|
    ensures CleanRows(data, width)[|CleanRows(data[..i], width)|] == FitRow(data[i], width)
  {
    FilterMapKept(data, IsDataRow, (row: Row) => FitRow(row, width), i);
  }

  /** Every output row is a fitted data row, and output `k` comes from the
      data row with `k` outputs before it: nothing else appears and the
      order is kept. */
  lemma CleanRowOrigin(data: Grid, width: nat, k: nat)
    requires k < |CleanRows(data, width)|
    ensures exists i :: && 0 <= i < |data| && IsDataRow(data[i])
                        && |CleanRows(data[..i], width)| == k
                        && CleanRows(data, width)[k] == FitRow(data[i], width)
  {
    var fit := (row: Row) => FitRow(row, width);
    FilterMapOrigin(data, IsDataRow, fit, k);
    var i :| 0 <= i < |data| && IsDataRow(data[i])
             && |FilterMap(data[..i], IsDataRow, fit)| == k
             && CleanRows(data, width)[k] == fit(data[i]);
    assert |CleanRows(data[..i], width)| == k;
  }

  /** `CleanRowKept` for the rows of `values` from `start` on, numbered as
      rows of `values`. */
  lemma CleanRowKeptFrom(values: Grid, start: nat, width: nat, i: nat)
    requires start <= i < |values| && IsDataRow(values[i])
    ensures |CleanRows(values[start..i], width)| < |CleanRows(values[start..], width)|
    ensures CleanRows(values[start..], width)[|CleanRows(values[start..i], width)|]
            == FitRow(values[i], width)
  {
    var data := values[start..];
    assert data[..i - start] == values[start..i];
    assert data[i - start] == values[i];
    CleanRowKept(data, width, i - start);
  }

  /** `CleanRowOrigin` for the rows of `values` from `start` on, numbered as
      rows of `values`. */
  lemma CleanRowOriginFrom(values: Grid, start: nat, width: nat, k: nat)
    requires start <= |values| && k < |CleanRows(values[start..], width)|
    ensures exists i :: && start <= i < |values| && IsDataRow(values[i])
                        && |CleanRows(values[start..i], width)| == k
                        && CleanRows(values[start..], width)[k] == FitRow(values[i], width)
  {
    var data := values[start..];
    CleanRowOrigin(data, width, k);
    var i :| && 0 <= i < |data| && IsDataRow(data[i])
             && |CleanRows(data[..i], width)| == k
             && CleanRows(data, width)[k] == FitRow(data[i], width);
    assert data[..i] == values[start..start + i];
    assert data[i] == values[start + i];
  }

  /** Rows of whitespace are kept: only cells equal to "" count as empty. */
  lemma WhitespaceRowsAreKept()
    ensures CleanRows([[" "], [], ["", ""]], 2) == [[" ", ""]]
  {
    var data: Grid := [[" "], [], ["", ""]];
    var fit := (row: Row) => FitRow(row, 2);
    assert data[0][0] != "";
    assert IsDataRow(data[0]) && !IsDataRow(data[1]) && !IsDataRow(data[2]);
    assert FitRow(data[0], 2) == [" ", ""];
    assert data[1..][1..] == [data[2]] && [data[2]][1..] == [];
    assert FilterMap(data[1..], IsDataRow, fit) == [];
  }
}
