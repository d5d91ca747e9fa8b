/** A record of the query result: the dictionary pandas builds for one row
    when `to_dict("records")` zips the column names with the row's cells
    (tools/google_sheets.py, lines 156 and 167). */
module Records {
  import opened Cells

  /** No column after `j` has the name of column `j`. */
  predicate LastOfName(columns: seq<string>, j: int)
    requires 0 <= j < |columns|
  {
    forall k :: j < k < |columns| ==> columns[k] != columns[j]
  }

  /** The dictionary `dict(zip(columns, cells))`. Cells are entered left to
      right, so when a name repeats, the later cell overwrites the earlier. */
  function Record(columns: seq<string>, cells: Row): (rec: map<string, string>)
    requires |columns| == |cells|
    ensures rec.Keys == set c | c in columns
    decreases |columns|
  {
    if columns == [] then map[]
    else
      var n := |columns| - 1;
      assert columns == columns[..n] + [columns[n]];
      Record(columns[..n], cells[..n])[columns[n] := cells[n]]
  }

  /** The value under a column name is the cell of the last column with that
      name. */
  lemma {:induction false} RecordLastWins(columns: seq<string>, cells: Row, j: nat)
    requires |columns| == |cells| && j < |columns| && LastOfName(columns, j)
    ensures Record(columns, cells)[columns[j]] == cells[j]
    decreases |columns|
  {
    var n := |columns| - 1;
    if j < n {
      assert LastOfName(columns[..n], j) && columns[j] != columns[n];
      RecordLastWins(columns[..n], cells[..n], j);
    }
  }

  /** Every column name has a last column bearing it, at or after any column
      that bears it. */
  lemma {:induction false} LastColumnOfName(columns: seq<string>, j: nat) returns (k: nat)
    requires j < |columns|
    ensures j <= k < |columns| && columns[k] == columns[j] && LastOfName(columns, k)
    decreases |columns| - j
  {
    if LastOfName(columns, j) {
      k := j;
    } else {
      var i :| j < i < |columns| && columns[i] == columns[j];
      k := LastColumnOfName(columns, i);
    }
  }

  /** With distinct column names every cell is found under its own column. */
  lemma RecordOfDistinctColumns(columns: seq<string>, cells: Row)
    requires |columns| == |cells|
    requires forall i, j :: 0 <= i < j < |columns| ==> columns[i] != columns[j]
    ensures forall j :: 0 <= j < |columns| ==> Record(columns, cells)[columns[j]] == cells[j]
  {
    forall j | 0 <= j < |columns| ensures Record(columns, cells)[columns[j]] == cells[j] {
      RecordLastWins(columns, cells, j);
    }
  }
}
