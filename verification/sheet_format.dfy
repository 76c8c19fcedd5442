/** `detect_sheet_format`: a sheet is tabular when at least three of four
    whole-sheet signals fire. The source compares float ratios with
    thresholds; the model computes the same ratios as exact reals and its
    contract restates each signal by integer cross-multiplication. */
module SheetFormat {
  import opened Base
  import opened Text
  import opened Sheet
  import opened RowSignals

  /** `max(col_counts)` over a non-empty grid. */
  function MaxCellsPerRow(g: Grid): (m: nat)
    requires |g| > 0
    ensures forall k :: 0 <= k < |g| ==> NonNullCount(g[k]) <= m
    ensures exists k :: 0 <= k < |g| && NonNullCount(g[k]) == m
    decreases |g|
  {
    if |g| == 1 then NonNullCount(g[0])
    else
      var m := MaxCellsPerRow(g[1..]);
      assert forall k :: 1 <= k < |g| ==> g[k] == g[1..][k - 1];
      if NonNullCount(g[0]) >= m then NonNullCount(g[0])
      else
        var k' :| 0 <= k' < |g[1..]| && NonNullCount(g[1..][k']) == m;
        assert g[k' + 1] == g[1..][k'];
        m
  }

  /** `min(col_counts)` over a non-empty grid. */
  function MinCellsPerRow(g: Grid): (m: nat)
    requires |g| > 0
    ensures forall k :: 0 <= k < |g| ==> m <= NonNullCount(g[k])
    ensures exists k :: 0 <= k < |g| && NonNullCount(g[k]) == m
    decreases |g|
  {
    if |g| == 1 then NonNullCount(g[0])
    else
      var m := MinCellsPerRow(g[1..]);
      assert forall k :: 1 <= k < |g| ==> g[k] == g[1..][k - 1];
      if NonNullCount(g[0]) <= m then NonNullCount(g[0])
      else
        var k' :| 0 <= k' < |g[1..]| && NonNullCount(g[1..][k']) == m;
        assert g[k' + 1] == g[1..][k'];
        m
  }

  function Newlines(s: string): nat {
    CountChar(s, '\n')
  }

  /** The sentence endings counted on line 31: ideographic full stop, ASCII
      question mark, full-width exclamation mark. */
  function SentenceEndings(s: string): nat {
    CountEach(s, "。?！")
  }

  /** Any two rows differ by at most two non-null cells. */
  ghost predicate UniformColumns(g: Grid) {
    forall i, j :: 0 <= i < |g| && 0 <= j < |g| ==> NonNullCount(g[i]) <= NonNullCount(g[j]) + 2
  }

  /** The average non-null cell is at most 50 characters long. */
  ghost predicate ShortCells(g: Grid) {
    TotalLength(Cells(g)) <= 50 * |Cells(g)|
  }

  /** Fewer than one line break per 20 non-null cells. */
  ghost predicate FewNewlines(g: Grid) {
    20 * SumOver(Cells(g), Newlines) < |Cells(g)|
  }

  /** Fewer than one sentence ending per 20 non-null cells. */
  ghost predicate FewSentenceEndings(g: Grid) {
    20 * SumOver(Cells(g), SentenceEndings) < |Cells(g)|
  }

  ghost function Vote(b: bool): nat {
    if b then 1 else 0
  }

  /** How many of the four signals fire. */
  ghost function TabularVotes(g: Grid): nat {
    Vote(UniformColumns(g)) + Vote(ShortCells(g)) + Vote(FewNewlines(g)) + Vote(FewSentenceEndings(g))
  }

  lemma UniformIffSpread(g: Grid)
    requires |g| > 0
    ensures UniformColumns(g) <==> MaxCellsPerRow(g) - MinCellsPerRow(g) <= 2
  {
    var hi := MaxCellsPerRow(g);
    var lo := MinCellsPerRow(g);
    var a :| 0 <= a < |g| && NonNullCount(g[a]) == hi;
    var b :| 0 <= b < |g| && NonNullCount(g[b]) == lo;
    if UniformColumns(g) {
      assert NonNullCount(g[a]) <= NonNullCount(g[b]) + 2;
    }
  }

  /** Each float test of the source agrees with its integer restatement. */
  lemma ShortCellsIff(g: Grid)
    requires |Cells(g)| > 0
    ensures Ratio(TotalLength(Cells(g)), |Cells(g)|) <= 50.0 <==> ShortCells(g)
  {
    RatioThreshold(TotalLength(Cells(g)), |Cells(g)|, 50, 1);
  }

  lemma FewNewlinesIff(g: Grid)
    requires |Cells(g)| > 0
    ensures Ratio(SumOver(Cells(g), Newlines), |Cells(g)|) < 0.05 <==> FewNewlines(g)
  {
    RatioThreshold(SumOver(Cells(g), Newlines), |Cells(g)|, 1, 20);
  }

  lemma FewSentenceEndingsIff(g: Grid)
    requires |Cells(g)| > 0
    ensures Ratio(SumOver(Cells(g), SentenceEndings), |Cells(g)|) < 0.05 <==> FewSentenceEndings(g)
  {
    RatioThreshold(SumOver(Cells(g), SentenceEndings), |Cells(g)|, 1, 20);
  }

  /** `detect_sheet_format(df)`. It raises for a grid without rows (`max` of
      an empty list) and for one without non-null cells (the unguarded
      divisions of lines 28 and 32); otherwise the sheet is tabular exactly
      when at least three of the four signals fire. */
  function DetectSheetFormat(g: Grid): (res: Result<bool>)
    ensures res == Failure(NoRows) <==> |g| == 0
    ensures res == Failure(NoCells) <==> |g| > 0 && |Cells(g)| == 0
    ensures res.Success? <==> |Cells(g)| > 0
    ensures res.Success? ==> (res.value <==> TabularVotes(g) >= 3)
  {
    if |g| == 0 then Failure(NoRows)
    else
      var uniformColumns := MaxCellsPerRow(g) - MinCellsPerRow(g) <= 2;
      var cells := Cells(g);
      var n := |cells|;
      var avgLen := if n > 0 then Ratio(TotalLength(cells), n) else 0.0;
      var shortCells := avgLen <= 50.0;
      if n == 0 then Failure(NoCells)
      else
        var noNewlines := Ratio(SumOver(cells, Newlines), n) < 0.05;
        var nonSentenceEndings := Ratio(SumOver(cells, SentenceEndings), n) < 0.05;
        UniformIffSpread(g);
        ShortCellsIff(g);
        FewNewlinesIff(g);
        FewSentenceEndingsIff(g);
        var total :=
          (if uniformColumns then 1 else 0) + (if shortCells then 1 else 0)
          + (if noNewlines then 1 else 0) + (if nonSentenceEndings then 1 else 0);
        Success(total >= 3)
  }
}
