/** The two entry points: `process_table_format`, which renders the rows
    below the detected header, and `process_csv_file`, which picks that path
    for a tabular sheet and the overlapping chunker for free text. */
module Processor {
  import opened Base
  import opened Text
  import opened Sheet
  import opened HeaderDetection
  import opened SheetFormat
  import opened Rendering
  import opened Chunking
  import opened RowSignals

  /** The rows `k >= r` that have a non-null cell, in increasing order. */
  function RowsWithCellsFrom(g: Grid, r: nat): (idx: seq<nat>)
    requires r <= |g|
    ensures forall k :: 0 <= k < |idx| ==> r <= idx[k] < |g| && HasCell(g[idx[k]])
    ensures forall j :: r <= j < |g| && HasCell(g[j]) ==> j in idx
    ensures forall k, l :: 0 <= k < l < |idx| ==> idx[k] < idx[l]
    decreases |g| - r
  {
    if r == |g| then []
    else if HasCell(g[r]) then [r] + RowsWithCellsFrom(g, r + 1)
    else RowsWithCellsFrom(g, r + 1)
  }

  /** The loop of `process_table_format` from row `r` on: render each row
      under `header` and keep the renderings that are not blank. */
  function RenderRowsFrom(g: Grid, header: Row, r: nat): (texts: seq<string>)
    requires r <= |g|
    ensures forall k :: 0 <= k < |texts| ==> !IsBlank(texts[k])
    decreases |g| - r
  {
    if r == |g| then []
    else
      var text := RowToText(g[r], header);
      (if IsBlank(text) then [] else [text]) + RenderRowsFrom(g, header, r + 1)
  }

  /** The kept renderings are exactly those of the rows with a non-null
      cell, in row order. */
  lemma {:induction false} RenderRowsIndexed(g: Grid, header: Row, r: nat)
    requires r <= |g|
    ensures var idx := RowsWithCellsFrom(g, r);
      var texts := RenderRowsFrom(g, header, r);
      |texts| == |idx|
      && forall k :: 0 <= k < |texts| ==> texts[k] == RowToText(g[idx[k]], header)
    decreases |g| - r
  {
    if r < |g| {
      RenderRowsIndexed(g, header, r + 1);
      var texts := RenderRowsFrom(g, header, r);
      var idx := RowsWithCellsFrom(g, r);
      var rest := RenderRowsFrom(g, header, r + 1);
      var restIdx := RowsWithCellsFrom(g, r + 1);
      var text := RowToText(g[r], header);
      if HasCell(g[r]) {
        assert texts == [text] + rest;
        assert idx == [r] + restIdx;
        forall k | 0 <= k < |texts|
          ensures texts[k] == RowToText(g[idx[k]], header)
        {
          if k > 0 {
            assert texts[k] == rest[k - 1] && idx[k] == restIdx[k - 1];
          }
        }
      } else {
        assert texts == rest;
        assert idx == restIdx;
      }
    }
  }

  /** `process_table_format(df)`: detect the header among the first
      `DefaultMaxRowsToCheck` rows, then render every later row that has a
      non-null cell, in order, one text per row. An empty frame fails on
      `df.iloc[0]`; a candidate row of empty strings fails in the header
      scan. `chunk_size` and `overlap` are accepted by the source and never
      used, so they are not parameters here. */
  function ProcessTableFormat(g: Grid): (res: Result<seq<string>>)
    ensures res.Failure? <==>
      |g| == 0 || exists k: nat :: IsCandidate(g, DefaultMaxRowsToCheck, k) && TotalLength(NonNull(g[k])) == 0
    ensures |g| == 0 ==> res == Failure(NoRows)
    ensures res.Success? ==>
      DetectHeaderRow(g, DefaultMaxRowsToCheck).Success?
      && RendersRowsBelow(g, DetectHeaderRow(g, DefaultMaxRowsToCheck).value, res.value)
  {
    var h :- DetectHeaderRow(g, DefaultMaxRowsToCheck);
    if |g| == 0 then Failure(NoRows)
    else
      RenderedRowsBelow(g, h);
      Success(RenderRowsFrom(g, g[h], h + 1))
  }

  lemma RenderedRowsBelow(g: Grid, h: nat)
    requires h < |g|
    ensures RendersRowsBelow(g, h, RenderRowsFrom(g, g[h], h + 1))
  {
    RenderRowsIndexed(g, g[h], h + 1);
  }

  /** `texts` holds, in row order, one rendering under header row `h` for
      every row below `h` that has a non-null cell, and nothing else; none of
      them is blank. */
  predicate RendersRowsBelow(g: Grid, h: nat, texts: seq<string>) {
    h < |g|
    && var idx := RowsWithCellsFrom(g, h + 1);
    && |texts| == |idx|
    && forall k :: 0 <= k < |texts| ==>
      !IsBlank(texts[k]) && texts[k] == RowToText(g[idx[k]], g[h])
  }

  /** The configurations `process_csv_file` can run with: the chunker
      terminates when `overlap < chunk_size`; otherwise the sheet must not be
      a free-text one (the chunker does not run), or its text must be empty
      (the loop does not start). */
  predicate CsvConfigOk(g: Grid, chunkSize: int, overlap: int) {
    || (0 <= chunkSize && overlap < chunkSize)
    || DetectSheetFormat(g) != Success(false)
    || (0 <= chunkSize && LoadCsvAsText(g) == "")
  }

  /** `process_csv_file(df)` with the default `chunk_size` and `overlap` is
      covered for every sheet. */
  lemma DefaultConfigAccepted(g: Grid)
    ensures CsvConfigOk(g, DefaultChunkSize, DefaultOverlap)
  {
  }

  /** `process_csv_file(df, chunk_size, overlap)`. A sheet with no rows or no
      non-null cell fails in the format vote. A tabular sheet yields
      `process_table_format`; a free-text sheet yields the overlapping chunks
      of all cells joined by line breaks, `ceil(len(text) / step)` of them,
      which rebuild that text. */
  function ProcessCsvFile(g: Grid, chunkSize: int, overlap: int): (res: Result<seq<string>>)
    requires CsvConfigOk(g, chunkSize, overlap)
    ensures res == Failure(NoRows) <==> |g| == 0
    ensures res == Failure(NoCells) <==> |g| > 0 && |Cells(g)| == 0
    ensures |Cells(g)| > 0 && TabularVotes(g) >= 3 ==> res == ProcessTableFormat(g)
    ensures |Cells(g)| > 0 && TabularVotes(g) < 3 ==>
      var text := LoadCsvAsText(g);
      && res.Success?
      && (|res.value| == 0 <==> text == "")
      && (|text| > 0 ==>
            (|res.value| - 1) * (chunkSize - overlap) < |text| <= |res.value| * (chunkSize - overlap))
      && (forall i :: 0 <= i < |res.value| ==> |res.value[i]| <= chunkSize)
      && (forall i: nat :: i < |res.value| ==> IsWindow(res.value, text, chunkSize, overlap, i))
      && (0 <= overlap ==> Reassemble(res.value, chunkSize - overlap) == text)
  {
    var isTable :- DetectSheetFormat(g);
    if isTable then ProcessTableFormat(g)
    else Success(SplitTextWithOverlap(LoadCsvAsText(g), chunkSize, overlap))
  }
}
