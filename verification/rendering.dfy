/** The renderers: `row_to_text`, `load_csv_as_text` and
    `get_column_name_or_fallback`. */
module Rendering {
  import opened Base
  import opened Text
  import opened Sheet

  const FieldSeparator: string := " / "
  const LineBreak: char := '\n'

  /** `f"col_{i}"`, the name given to a column whose header is missing. */
  function FallbackName(i: nat): string {
    "col_" + NatToString(i)
  }

  /** Different columns get different fallback names. */
  lemma FallbackNameInjective(i: nat, j: nat)
    requires FallbackName(i) == FallbackName(j)
    ensures i == j
  {
    assert NatToString(i) == FallbackName(i)[4..];
    assert NatToString(j) == FallbackName(j)[4..];
    NatToStringInjective(i, j);
  }

  /** A fallback name has no surrounding whitespace. */
  lemma FallbackNameTrimmed(i: nat)
    ensures |FallbackName(i)| > 0 && IsTrimmed(FallbackName(i))
  {
    var s := FallbackName(i);
    assert s[|s| - 1] == NatToString(i)[|NatToString(i)| - 1];
  }

  /** The column name `row_to_text` uses: the header cell as it stands (it
      is not stripped), or the fallback name when that cell is null. */
  function ColumnLabel(header: Row, i: nat): string {
    match At(header, i)
    case Some(name) => name
    case None => FallbackName(i)
  }

  /** `f"{col_name}: {cell}"`. */
  function Field(name: string, value: string): string {
    name + ": " + value
  }

  /** A field always holds its colon, so it is never blank. */
  lemma FieldNotBlank(name: string, value: string)
    ensures !IsBlank(Field(name, value))
  {
    assert Field(name, value)[|name|] == ':';
  }

  /** The positions `j >= i` of the non-null cells, in increasing order. */
  function NonNullIndicesFrom(row: Row, i: nat): (idx: seq<nat>)
    requires i <= |row|
    ensures forall k :: 0 <= k < |idx| ==> i <= idx[k] < |row| && row[idx[k]].Some?
    ensures forall j :: i <= j < |row| && row[j].Some? ==> j in idx
    ensures forall k, l :: 0 <= k < l < |idx| ==> idx[k] < idx[l]
    decreases |row| - i
  {
    if i == |row| then []
    else if row[i].Some? then [i] + NonNullIndicesFrom(row, i + 1)
    else NonNullIndicesFrom(row, i + 1)
  }

  /** The field of the non-null cell in column `j`. */
  function FieldAt(row: Row, header: Row, j: nat): string
    requires j < |row| && row[j].Some?
  {
    Field(ColumnLabel(header, j), row[j].value)
  }

  /** The fields of the non-null cells of `row[i..]`, in column order. */
  function FieldsFrom(row: Row, header: Row, i: nat): (fields: seq<string>)
    requires i <= |row|
    ensures |fields| == |NonNullFrom(row, i)|
    ensures forall k :: 0 <= k < |fields| ==> !IsBlank(fields[k])
    decreases |row| - i
  {
    if i == |row| then []
    else if row[i].Some? then
      FieldNotBlank(ColumnLabel(header, i), row[i].value);
      [FieldAt(row, header, i)] + FieldsFrom(row, header, i + 1)
    else FieldsFrom(row, header, i + 1)
  }

  /** Field `k` belongs to the `k`-th non-null cell: it carries that cell's
      column name and its value. */
  lemma {:induction false} FieldsFromIndexed(row: Row, header: Row, i: nat)
    requires i <= |row|
    ensures var idx := NonNullIndicesFrom(row, i);
      var fields := FieldsFrom(row, header, i);
      |fields| == |idx|
      && forall k :: 0 <= k < |fields| ==> fields[k] == FieldAt(row, header, idx[k])
    decreases |row| - i
  {
    if i < |row| {
      FieldsFromIndexed(row, header, i + 1);
      if row[i].Some? {
        FieldsConsIndexed(row, header, i);
      }
    }
  }

  /** The step of `FieldsFromIndexed` at a non-null cell. */
  lemma FieldsConsIndexed(row: Row, header: Row, i: nat)
    requires i < |row| && row[i].Some?
    requires var idx := NonNullIndicesFrom(row, i + 1);
      var fields := FieldsFrom(row, header, i + 1);
      |fields| == |idx|
      && forall k :: 0 <= k < |fields| ==> fields[k] == FieldAt(row, header, idx[k])
    ensures var idx := NonNullIndicesFrom(row, i);
      var fields := FieldsFrom(row, header, i);
      |fields| == |idx|
      && forall k :: 0 <= k < |fields| ==> fields[k] == FieldAt(row, header, idx[k])
  {
    var fields := FieldsFrom(row, header, i);
    var idx := NonNullIndicesFrom(row, i);
    var rest := FieldsFrom(row, header, i + 1);
    var restIdx := NonNullIndicesFrom(row, i + 1);
    assert fields == [FieldAt(row, header, i)] + rest;
    assert idx == [i] + restIdx;
    forall k | 0 <= k < |fields|
      ensures fields[k] == FieldAt(row, header, idx[k])
    {
      if k > 0 {
        assert fields[k] == rest[k - 1] && idx[k] == restIdx[k - 1];
      }
    }
  }

  /** `row_to_text(row, header)`: one field per non-null cell, joined by
      `" / "`. Since every field holds a colon, the text is blank exactly
      when the row has no non-null cell, and then it is empty. */
  function RowToText(row: Row, header: Row): (text: string)
    ensures IsBlank(text) <==> !HasCell(row)
    ensures text == "" <==> !HasCell(row)
  {
    JoinedFieldsVisible(row, header);
    Join(FieldSeparator, FieldsFrom(row, header, 0))
  }

  lemma JoinedFieldsVisible(row: Row, header: Row)
    ensures var text := Join(FieldSeparator, FieldsFrom(row, header, 0));
      (IsBlank(text) <==> !HasCell(row)) && (text == "" <==> !HasCell(row))
  {
    var fields := FieldsFrom(row, header, 0);
    NonNullEmptyIff(row);
    if |fields| > 0 {
      JoinNotBlank(FieldSeparator, fields);
    }
  }

  /** The text of a row is its fields, one per non-null cell in column order,
      each naming the cell's column. */
  lemma RowToTextFields(row: Row, header: Row)
    ensures var idx := NonNullIndicesFrom(row, 0);
      exists fields: seq<string> ::
        && RowToText(row, header) == Join(FieldSeparator, fields)
        && |fields| == |idx|
        && forall k :: 0 <= k < |fields| ==>
          fields[k] == Field(ColumnLabel(header, idx[k]), row[idx[k]].value)
  {
    FieldsFromIndexed(row, header, 0);
    var fields := FieldsFrom(row, header, 0);
    assert RowToText(row, header) == Join(FieldSeparator, fields);
  }

  /** `load_csv_as_text(df)`: the non-null cells in row-major order, one per
      line. The text is empty exactly when there is no cell or a single empty
      one. */
  function LoadCsvAsText(g: Grid): (text: string)
    ensures text == "" <==> |Cells(g)| == 0 || (|Cells(g)| == 1 && Cells(g)[0] == "")
    ensures |Cells(g)| > 0 ==> IsPrefix(Cells(g)[0], text)
  {
    JoinEmptyIff([LineBreak], Cells(g));
    Join([LineBreak], Cells(g))
  }

  /** When no cell holds a line break, splitting the text on line breaks
      gives the cells back. */
  lemma LoadCsvAsTextSplits(g: Grid)
    requires |Cells(g)| > 0
    requires forall k :: 0 <= k < |Cells(g)| ==> LineBreak !in Cells(g)[k]
    ensures SplitOn(LoadCsvAsText(g), LineBreak) == Cells(g)
  {
    SplitJoinRoundTrip(Cells(g), LineBreak);
  }

  /** `get_column_name_or_fallback(col_idx, df, header_row_idx)`: the
      header cell stripped, or `col_{col_idx}` when it is null or blank; a
      position outside the frame is the `iloc` error. */
  function GetColumnNameOrFallback(g: Grid, colIdx: nat, headerRowIdx: nat): (r: Result<string>)
    ensures r.Failure? <==> headerRowIdx >= |g| || colIdx >= Width(g)
    ensures r.Failure? ==> r.error == OutOfRange
    ensures r.Success? ==> |r.value| > 0 && IsTrimmed(r.value) && Strip(r.value) == r.value
    ensures r.Success? ==>
      var cell := At(g[headerRowIdx], colIdx);
      (cell.None? || IsBlank(cell.value) ==> r.value == FallbackName(colIdx))
      && (cell.Some? && !IsBlank(cell.value) ==> r.value == Strip(cell.value))
  {
    if headerRowIdx >= |g| || colIdx >= Width(g) then Failure(OutOfRange)
    else
      var cell := At(g[headerRowIdx], colIdx);
      var name := if cell.None? || IsBlank(cell.value) then FallbackName(colIdx) else Strip(cell.value);
      FallbackNameTrimmed(colIdx);
      StripTrimmed(name);
      Success(name)
  }

  /** Padding around a header name does not change the column name. */
  lemma ColumnNameIgnoresPadding(g: Grid, colIdx: nat, headerRowIdx: nat, w1: string, name: string, w2: string)
    requires headerRowIdx < |g| && colIdx < |g[headerRowIdx]|
    requires g[headerRowIdx][colIdx] == Some(w1 + name + w2)
    requires IsBlank(w1) && IsBlank(w2) && IsTrimmed(name) && |name| > 0
    ensures GetColumnNameOrFallback(g, colIdx, headerRowIdx) == Success(name)
  {
    StripOfPadded(w1, name, w2);
    assert (w1 + name + w2)[|w1|] == name[0];
  }
}
