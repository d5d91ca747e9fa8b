/** The header half of `google_sheets_query` (tools/google_sheets.py): which
    row of the fetched grid is the header, and how its cells become the
    column names. */
module Header {
  import opened Text
  import opened Cells
  import opened Seqs

  /** The test at line 118: the row has cells and one of them is not blank
      once stripped. */
  predicate IsHeaderRow(row: Row) {
    |row| > 0 && exists j :: 0 <= j < |row| && Strip(row[j]) != ""
  }

  /** No row of `values` from index `from` on passes the header test. */
  predicate NoHeaderRowFrom(values: Grid, from: nat) {
    forall k :: from <= k < |values| ==> !IsHeaderRow(values[k])
  }

  /** The scan at lines 116-120, started at row `from`: the first header row,
      or the initial value 0 when the loop finishes without a `break`. */
  function HeaderIndexFrom(values: Grid, from: nat): (h: nat)
    requires from <= |values|
    ensures NoHeaderRowFrom(values, from) ==> h == 0
    ensures !NoHeaderRowFrom(values, from) ==>
              && from <= h < |values|
              && IsHeaderRow(values[h])
              && forall k :: from <= k < h ==> !IsHeaderRow(values[k])
    decreases |values| - from
  {
    if from == |values| then 0
    else if IsHeaderRow(values[from]) then from
    else HeaderIndexFrom(values, from + 1)
  }

  /** `header_row_idx`: the least index of a header row, and 0 when there is
      none. For a non-empty grid it is always a valid index, so the guard at
      line 122 never fires. */
  function HeaderIndex(values: Grid): (h: nat)
    ensures values != [] ==> h < |values|
    ensures NoHeaderRowFrom(values, 0) ==> h == 0
    ensures !NoHeaderRowFrom(values, 0) ==>
              IsHeaderRow(values[h]) && forall k :: 0 <= k < h ==> !IsHeaderRow(values[k])
  {
    HeaderIndexFrom(values, 0)
  }

  /** The header index is characterised by the header test: it is the one
      header row with no header row above it. */
  lemma HeaderIndexIsFirstHeaderRow(values: Grid, h: nat)
    requires h < |values| && IsHeaderRow(values[h])
    requires forall k :: 0 <= k < h ==> !IsHeaderRow(values[k])
    ensures HeaderIndex(values) == h
  {
    var h' := HeaderIndex(values);
    assert !NoHeaderRowFrom(values, 0);
    assert !(h' < h) && !(h < h');
  }

  /** Rows without a non-blank cell in front of a grid only shift its header
      index. */
  lemma HeaderIndexAfterBlankRows(blank: Grid, values: Grid)
    requires NoHeaderRowFrom(blank, 0) && !NoHeaderRowFrom(values, 0)
    ensures HeaderIndex(blank + values) == |blank| + HeaderIndex(values)
  {
    var all := blank + values;
    var h := HeaderIndex(values);
    forall k | 0 <= k < |blank| + h ensures !IsHeaderRow(all[k]) {
      if k < |blank| {
        assert all[k] == blank[k];
      } else {
        assert all[k] == values[k - |blank|];
      }
    }
    assert all[|blank| + h] == values[h];
    HeaderIndexIsFirstHeaderRow(all, |blank| + h);
  }

  /** A header cell survives when it is not blank after stripping (line 132). */
  predicate IsLabel(cell: string) {
    Strip(cell) != ""
  }

  /** The stripped header cells that are not blank, in header order
      (lines 130-133). */
  function Labels(headers: Row): seq<string> {
    FilterMap(headers, IsLabel, Strip)
  }

  /** How many of `labels[0..j]` equal `labels[j]`: 1 at a label's first
      occurrence, 2 at its second, and so on. */
  function Occurrence(labels: seq<string>, j: nat): nat
    requires j < |labels|
  {
    multiset(labels[..j + 1])[labels[j]]
  }

  /** The column name for the `k`-th occurrence of label `base`: the bare label the
      first time, then `label_k` (line 136). */
  function Suffixed(base: string, k: nat): string {
    if k <= 1 then base else base + "_" + NatToString(k)
  }

  /** `names` names column `j` after the `Occurrence(labels, j)`-th occurrence
      of `labels[j]`. */
  predicate NamedAfter(names: seq<string>, labels: seq<string>) {
    && |names| == |labels|
    && forall j :: 0 <= j < |labels| ==> names[j] == Suffixed(labels[j], Occurrence(labels, j))
  }

  /** `counts` is the dictionary `header_counts` once the labels `seen` have
      been processed: it maps each of them to its number of occurrences. */
  ghost predicate Tallies(counts: map<string, nat>, seen: seq<string>) {
    forall l :: (l in counts <==> l in seen) && (l in counts ==> counts[l] == multiset(seen)[l])
  }

  /** The loop at lines 130-139 over the remaining header cells, with the
      dictionary `counts` and the names produced so far. */
  function NameFrom(headers: Row, counts: map<string, nat>, names: seq<string>): seq<string>
    decreases |headers|
  {
    if headers == [] then names
    else
      var h := Strip(headers[0]);
      if h == "" then NameFrom(headers[1..], counts, names)
      else if h in counts then
        var n := counts[h] + 1;
        NameFrom(headers[1..], counts[h := n], names + [h + "_" + NatToString(n)])
      else
        NameFrom(headers[1..], counts[h := 1], names + [h])
  }

  /** One non-blank label through the loop body (lines 134-139) keeps the
      dictionary in step with the labels seen ... */
  lemma TallyStep(counts: map<string, nat>, seen: seq<string>, h: string)
    requires Tallies(counts, seen)
    ensures h in counts ==> counts[h] + 1 == multiset(seen + [h])[h] >= 2
    ensures h !in counts ==> multiset(seen + [h])[h] == 1
    ensures Tallies(counts[h := multiset(seen + [h])[h]], seen + [h])
  {
    assert multiset(seen + [h]) == multiset(seen) + multiset{h};
  }

  /** ... and extends the names by the name of that label's next occurrence. */
  lemma NamingStep(names: seq<string>, seen: seq<string>, h: string)
    requires NamedAfter(names, seen)
    ensures NamedAfter(names + [Suffixed(h, multiset(seen + [h])[h])], seen + [h])
  {
    var seen' := seen + [h];
    var names' := names + [Suffixed(h, multiset(seen')[h])];
    forall j | 0 <= j < |seen'|
      ensures names'[j] == Suffixed(seen'[j], Occurrence(seen', j))
    {
      if j < |seen| {
        assert seen'[..j + 1] == seen[..j + 1];
      } else {
        assert seen'[..j + 1] == seen';
      }
    }
  }

  /** The first header cell either adds its stripped text to the labels
      seen so far or is dropped. */
  lemma LabelsCons(seen: seq<string>, headers: Row)
    requires headers != []
    ensures seen + Labels(headers)
         == (if IsLabel(headers[0]) then seen + [Strip(headers[0])] else seen) + Labels(headers[1..])
  {
    assert Labels(headers) == (if IsLabel(headers[0]) then [Strip(headers[0])] else []) + Labels(headers[1..]);
  }

  /** One turn of the loop at lines 130-139 for a non-blank label. */
  lemma NameFromStep(headers: Row, counts: map<string, nat>, names: seq<string>)
    requires headers != [] && Strip(headers[0]) != ""
    ensures var h := Strip(headers[0]);
            NameFrom(headers, counts, names)
            == if h in counts
               then NameFrom(headers[1..], counts[h := counts[h] + 1], names + [h + "_" + NatToString(counts[h] + 1)])
               else NameFrom(headers[1..], counts[h := 1], names + [h])
  {
  }

  lemma {:induction false} NameFromFollowsOccurrences(
    headers: Row, counts: map<string, nat>, seen: seq<string>, names: seq<string>)
    requires Tallies(counts, seen) && NamedAfter(names, seen)
    ensures NamedAfter(NameFrom(headers, counts, names), seen + Labels(headers))
    decreases |headers|
  {
    if headers == [] {
      assert seen + Labels(headers) == seen;
    } else {
      var h := Strip(headers[0]);
      var rest := headers[1..];
      LabelsCons(seen, headers);
      if h == "" {
        assert NameFrom(headers, counts, names) == NameFrom(rest, counts, names);
        NameFromFollowsOccurrences(rest, counts, seen, names);
      } else {
        TallyStep(counts, seen, h);
        NamingStep(names, seen, h);
        NameFromStep(headers, counts, names);
        var seen' := seen + [h];
        if h in counts {
          var n := counts[h] + 1;
          NameFromFollowsOccurrences(rest, counts[h := n], seen', names + [h + "_" + NatToString(n)]);
        } else {
          NameFromFollowsOccurrences(rest, counts[h := 1], seen', names + [h]);
        }
      }
    }
  }

  /** `unique_headers`: the column names the loop at lines 130-139 builds
      from the header row. */
  function NameColumns(headers: Row): seq<string> {
    NameFrom(headers, map[], [])
  }

  /** The columns are the labels of the header row, the `k`-th occurrence of
      a label (for `k >= 2`) suffixed with `_k`. */
  lemma NameColumnsNamedAfter(headers: Row)
    ensures NamedAfter(NameColumns(headers), Labels(headers))
  {
    assert [] + Labels(headers) == Labels(headers);
    NameFromFollowsOccurrences(headers, map[], [], []);
  }

  /** A non-blank header cell gives the label numbered by the non-blank
      cells before it. */
  lemma LabelKept(headers: Row, i: nat)
    requires i < |headers| && IsLabel(headers[i])
    ensures |Labels(headers[..i])| < |Labels(headers)|
    ensures Labels(headers)[|Labels(headers[..i])|] == Strip(headers[i])
  {
    FilterMapKept(headers, IsLabel, Strip, i);
  }

  /** Every label comes from a non-blank header cell, label `k` from the one
      with `k` non-blank cells before it: blank cells are dropped and the
      header order is kept. */
  lemma LabelOrigin(headers: Row, k: nat)
    requires k < |Labels(headers)|
    ensures exists i :: && 0 <= i < |headers| && IsLabel(headers[i])
                        && |Labels(headers[..i])| == k
                        && Labels(headers)[k] == Strip(headers[i])
  {
    FilterMapOrigin(headers, IsLabel, Strip, k);
    var i :| 0 <= i < |headers| && IsLabel(headers[i])
             && |FilterMap(headers[..i], IsLabel, Strip)| == k
             && Labels(headers)[k] == Strip(headers[i]);
    assert |Labels(headers[..i])| == k;
  }

  /** A later occurrence of a label has a larger occurrence number. */
  lemma OccurrenceGrows(labels: seq<string>, i: nat, j: nat)
    requires i < j < |labels| && labels[i] == labels[j]
    ensures 1 <= Occurrence(labels, i) < Occurrence(labels, j)
  {
    assert labels[..j + 1] == labels[..i + 1] + labels[i + 1..j + 1];
    assert labels[j] == labels[i + 1..j + 1][j - i - 1];
    assert labels[i] == labels[..i + 1][i];
  }

  lemma SplitAtUnderscore(a: string, x: string, b: string, y: string)
    requires '_' !in a && '_' !in b
    requires a + "_" + x == b + "_" + y
    ensures a == b && x == y
  {
    var s := a + "_" + x;
    FindAfter(a, '_', x);
    FindAfter(b, '_', y);
    assert a == s[..|a|] && b == s[..|b|];
    assert x == s[|a| + 1..] && y == s[|b| + 1..];
  }

  lemma {:induction false} LabelsAvoid(headers: Row, c: char)
    requires forall i :: 0 <= i < |headers| ==> c !in headers[i]
    ensures forall k :: 0 <= k < |Labels(headers)| ==> c !in Labels(headers)[k]
  {
    forall k | 0 <= k < |Labels(headers)| ensures c !in Labels(headers)[k] {
      LabelOrigin(headers, k);
      var i :| 0 <= i < |headers| && Labels(headers)[k] == Strip(headers[i]);
      if c in Labels(headers)[k] {
        StripIsInfix(headers[i], c);
      }
    }
  }

  /** The suffix counter is enough for unique names as long as no header
      label contains an underscore: then no generated `label_k` can equal a
      literal label or another generated name. */
  lemma ColumnsDistinctWithoutUnderscore(headers: Row)
    requires forall i :: 0 <= i < |headers| ==> '_' !in headers[i]
    ensures forall i, j :: 0 <= i < j < |NameColumns(headers)| ==>
              NameColumns(headers)[i] != NameColumns(headers)[j]
  {
    var labels := Labels(headers);
    var columns := NameColumns(headers);
    NameColumnsNamedAfter(headers);
    LabelsAvoid(headers, '_');
    forall i, j | 0 <= i < j < |columns| ensures columns[i] != columns[j] {
      var li, lj := labels[i], labels[j];
      var ki, kj := Occurrence(labels, i), Occurrence(labels, j);
      assert '_' !in li && '_' !in lj;
      if li == lj {
        OccurrenceGrows(labels, i, j);
        if ki <= 1 {
          assert |columns[i]| < |columns[j]|;
        } else {
          NatToStringInjective(ki, kj);
          if columns[i] == columns[j] {
            SplitAtUnderscore(li, NatToString(ki), lj, NatToString(kj));
          }
        }
      } else if ki <= 1 && kj <= 1 {
        assert columns[i] == li && columns[j] == lj;
      } else if ki <= 1 {
        assert columns[j][|lj|] == '_';
      } else if kj <= 1 {
        assert columns[i][|li|] == '_';
      } else if columns[i] == columns[j] {
        SplitAtUnderscore(li, NatToString(ki), lj, NatToString(kj));
      }
    }
  }

  /** A label not seen before is at its first occurrence. */
  lemma FirstOccurrence(labels: seq<string>, j: nat)
    requires j < |labels| && labels[j] !in labels[..j]
    ensures Occurrence(labels, j) == 1
  {
    assert labels[..j + 1] == labels[..j] + [labels[j]];
  }

  /** A label seen exactly once before is at its second occurrence. */
  lemma SecondOccurrence(labels: seq<string>, i: nat, j: nat)
    requires i < j < |labels| && labels[i] == labels[j]
    requires labels[j] !in labels[..i] && labels[j] !in labels[i + 1..j]
    ensures Occurrence(labels, j) == 2
  {
    assert labels[..j + 1] == labels[..i] + [labels[i]] + labels[i + 1..j] + [labels[j]];
  }

  /** Labels that never repeat are used as the column names unchanged. */
  lemma ColumnsAreLabelsWithoutRepeats(headers: Row)
    requires forall i, j :: 0 <= i < j < |Labels(headers)| ==> Labels(headers)[i] != Labels(headers)[j]
    ensures NameColumns(headers) == Labels(headers)
  {
    var labels := Labels(headers);
    var columns := NameColumns(headers);
    NameColumnsNamedAfter(headers);
    forall j | 0 <= j < |labels| ensures columns[j] == labels[j] {
      assert forall i :: 0 <= i < j ==> labels[..j][i] == labels[i];
      FirstOccurrence(labels, j);
    }
  }

  /** Header cells that are already trimmed and not empty are the labels,
      unchanged. */
  lemma {:induction false} LabelsOfTrimmedCells(headers: Row)
    requires forall i :: 0 <= i < |headers| ==> headers[i] != "" && Trimmed(headers[i])
    ensures Labels(headers) == headers
    decreases |headers|
  {
    if headers != [] {
      StripOfTrimmed(headers[0]);
      LabelsOfTrimmedCells(headers[1..]);
      assert Labels(headers) == [headers[0]] + Labels(headers[1..]);
      assert headers == [headers[0]] + headers[1..];
    }
  }

  /** Blank cells in front of the header cells add no label. */
  lemma LabelsAfterBlankCells(blank: Row, cells: Row)
    requires forall i :: 0 <= i < |blank| ==> !IsLabel(blank[i])
    ensures Labels(blank + cells) == Labels(cells)
  {
    FilterMapAppend(blank, cells, IsLabel, Strip);
    FilterMapNoneKept(blank, IsLabel, Strip);
  }

  /** Column `j` is named after the occurrence of label `j`. */
  lemma NamedColumn(headers: Row, j: nat)
    requires j < |Labels(headers)|
    ensures |NameColumns(headers)| == |Labels(headers)|
    ensures NameColumns(headers)[j] == Suffixed(Labels(headers)[j], Occurrence(Labels(headers), j))
  {
    NameColumnsNamedAfter(headers);
  }

  /** Blank cells followed by distinct trimmed labels name the columns
      after those labels alone. */
  lemma ColumnsAfterBlankCells(blank: Row, labels: Row)
    requires forall i :: 0 <= i < |blank| ==> !IsLabel(blank[i])
    requires forall i :: 0 <= i < |labels| ==> labels[i] != "" && Trimmed(labels[i])
    requires forall i, j :: 0 <= i < j < |labels| ==> labels[i] != labels[j]
    ensures NameColumns(blank + labels) == labels
  {
    LabelsOfTrimmedCells(labels);
    LabelsAfterBlankCells(blank, labels);
    ColumnsAreLabelsWithoutRepeats(blank + labels);
  }

  /** The name of a label's second occurrence. */
  lemma SuffixedTwice(base: string)
    ensures Suffixed(base, 2) == base + "_2"
  {
    assert NatToString(2) == "2";
    assert base + "_" + "2" == base + "_2";
  }

  /** A label that comes back after another gets its occurrence number:
      the header row `a, b, a` names the columns `a, b, a_2`. */
  lemma RepeatedLabel(a: string, b: string)
    requires a != "" && Trimmed(a) && b != "" && Trimmed(b) && a != b
    ensures NameColumns([a, b, a]) == [a, b, a + "_2"]
  {
    var headers := [a, b, a];
    assert Labels(headers) == headers by {
      LabelsOfTrimmedCells(headers);
    }
    FirstOccurrence(headers, 0);
    FirstOccurrence(headers, 1);
    SecondOccurrence(headers, 0, 2);
    SuffixedTwice(a);
    NamedColumn(headers, 0);
    NamedColumn(headers, 1);
    NamedColumn(headers, 2);
    var columns := NameColumns(headers);
    assert columns[0] == a && columns[1] == b && columns[2] == a + "_2";
  }

  /** The counter is kept per bare label, so a header cell that already
      reads `a_2` and the name generated for the second `a` coincide: the
      header row `a_2, a, a` names two columns `a_2`. */
  lemma SuffixCollision(a: string)
    requires a != "" && Trimmed(a)
    ensures NameColumns([a + "_2", a, a]) == [a + "_2", a, a + "_2"]
  {
    var headers := [a + "_2", a, a];
    assert Trimmed(a + "_2") by {
      assert (a + "_2")[0] == a[0];
    }
    assert a + "_2" != a by {
      assert |a + "_2"| != |a|;
    }
    assert Labels(headers) == headers by {
      LabelsOfTrimmedCells(headers);
    }
    FirstOccurrence(headers, 0);
    FirstOccurrence(headers, 1);
    SecondOccurrence(headers, 1, 2);
    SuffixedTwice(a);
    NamedColumn(headers, 0);
    NamedColumn(headers, 1);
    NamedColumn(headers, 2);
    var columns := NameColumns(headers);
    assert columns[0] == a + "_2" && columns[1] == a && columns[2] == a + "_2";
  }
}
