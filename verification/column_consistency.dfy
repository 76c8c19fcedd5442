/** `column_inconsistency_score`: how far a candidate header row's cell
    labels stray from the most frequent label of the rows just below it. */
module ColumnConsistency {
  import opened Base
  import opened Sheet
  import opened Classifier
  import opened RowSignals

  /** The look-ahead window `compare_rows` defaults to. */
  const DefaultCompareRows: nat := 10

  /** How often `x` occurs in `ls`. */
  function Count(ls: seq<Label>, x: Label): nat
    decreases |ls|
  {
    if |ls| == 0 then 0 else (if ls[0] == x then 1 else 0) + Count(ls[1..], x)
  }

  /** A label is counted exactly when it occurs, and never more often than
      the list is long. */
  lemma {:induction false} CountBounds(ls: seq<Label>, x: Label)
    ensures Count(ls, x) <= |ls|
    ensures Count(ls, x) > 0 <==> x in ls
    decreases |ls|
  {
    if |ls| > 0 {
      CountBounds(ls[1..], x);
      assert x in ls <==> ls[0] == x || x in ls[1..];
    }
  }

  /** Position of the first occurrence of `x`. */
  function IndexOf(ls: seq<Label>, x: Label): (k: nat)
    requires x in ls
    ensures k < |ls| && ls[k] == x
    ensures forall j :: 0 <= j < k ==> ls[j] != x
    decreases |ls|
  {
    if ls[0] == x then 0 else 1 + IndexOf(ls[1..], x)
  }

  /** `x` is what `Counter(ls).most_common(1)[0][0]` yields: a most frequent
      label and, of those, the one seen first (a `Counter` keeps insertion
      order and `max` keeps the first of equal counts). */
  ghost predicate IsFirstMostCommon(ls: seq<Label>, x: Label) {
    && x in ls
    && (forall j :: 0 <= j < |ls| ==> Count(ls, ls[j]) <= Count(ls, x))
    && (forall j :: 0 <= j < IndexOf(ls, x) ==> Count(ls, ls[j]) < Count(ls, x))
  }

  /** Scan `ls[i..]`, replacing the best label only on a strictly higher count. */
  function BestFrom(ls: seq<Label>, i: nat, best: Label): (r: Label)
    requires i <= |ls| && best in ls && IndexOf(ls, best) < i
    requires forall j :: 0 <= j < i ==> Count(ls, ls[j]) <= Count(ls, best)
    requires forall j :: 0 <= j < IndexOf(ls, best) ==> Count(ls, ls[j]) < Count(ls, best)
    ensures IsFirstMostCommon(ls, r)
    decreases |ls| - i
  {
    if i == |ls| then best
    else if Count(ls, ls[i]) > Count(ls, best) then
      assert IndexOf(ls, ls[i]) == i;
      BestFrom(ls, i + 1, ls[i])
    else
      BestFrom(ls, i + 1, best)
  }

  /** `Counter(ls).most_common(1)[0][0]` for a non-empty list. */
  function MostCommon(ls: seq<Label>): (r: Label)
    requires |ls| > 0
    ensures IsFirstMostCommon(ls, r)
  {
    BestFrom(ls, 1, ls[0])
  }

  /** The labels of the non-null, non-empty values of column `c` in rows
      `k` up to (excluding) `hi`. */
  function WindowLabels(g: Grid, c: nat, k: nat, hi: nat): (ls: seq<Label>)
    requires k <= hi <= |g|
    ensures |ls| <= hi - k
    decreases hi - k
  {
    if k == hi then []
    else
      (match At(g[k], c)
       case Some(v) => if v != "" then [Classify(v)] else []
       case None => [])
      + WindowLabels(g, c, k + 1, hi)
  }

  /** The labels column `c` shows in the `compareRows` rows below row `r`. */
  function ColumnWindow(g: Grid, r: nat, c: nat, compareRows: nat): seq<Label>
    requires r < |g|
  {
    WindowLabels(g, c, r + 1, Min(r + 1 + compareRows, |g|))
  }

  /** Cell `c` of row `r` is non-null, the column has values below it, and
      its label differs from their most common label. */
  predicate Deviates(g: Grid, r: nat, c: nat, compareRows: nat)
    requires r < |g|
  {
    match At(g[r], c)
    case None => false
    case Some(v) =>
      var window := ColumnWindow(g, r, c, compareRows);
      |window| > 0 && Classify(v) != MostCommon(window)
  }

  lemma NonNullFromStep(row: Row, i: nat)
    requires i < |row|
    ensures |NonNullFrom(row, i)| == (if row[i].Some? then 1 else 0) + |NonNullFrom(row, i + 1)|
  {
  }

  /** Whether each column of row `r` deviates. */
  function DeviationFlags(g: Grid, r: nat, compareRows: nat): (fs: seq<bool>)
    requires r < |g|
    ensures |fs| == |g[r]|
  {
    seq(|g[r]|, c requires 0 <= c < |g[r]| => Deviates(g, r, c, compareRows))
  }

  /** The number of set flags among `fs[c..]`. */
  function CountFlagsFrom(fs: seq<bool>, c: nat): nat
    requires c <= |fs|
    decreases |fs| - c
  {
    if c == |fs| then 0 else (if fs[c] then 1 else 0) + CountFlagsFrom(fs, c + 1)
  }

  /** The count of deviating columns among `c..` of row `r`
      (the `score += 1` of the loop). */
  function DeviationsFrom(g: Grid, r: nat, compareRows: nat, c: nat): (n: nat)
    requires r < |g| && c <= |g[r]|
    ensures n <= |NonNullFrom(g[r], c)|
  {
    var fs := DeviationFlags(g, r, compareRows);
    FlagsOnlyOnCells(g, r, compareRows);
    CountFlagsBounded(fs, g[r], c);
    CountFlagsFrom(fs, c)
  }

  lemma FlagsOnlyOnCells(g: Grid, r: nat, compareRows: nat)
    requires r < |g|
    ensures var fs := DeviationFlags(g, r, compareRows);
      forall j :: 0 <= j < |fs| && fs[j] ==> g[r][j].Some?
  {
  }

  /** Flags set only on non-null cells count at most the non-null cells. */
  lemma {:induction false} CountFlagsBounded(fs: seq<bool>, row: Row, c: nat)
    requires |fs| == |row| && c <= |row|
    requires forall j :: 0 <= j < |fs| && fs[j] ==> row[j].Some?
    ensures CountFlagsFrom(fs, c) <= |NonNullFrom(row, c)|
    decreases |row| - c
  {
    if c < |row| {
      CountFlagsBounded(fs, row, c + 1);
      NonNullFromStep(row, c);
      assert fs[c] ==> row[c].Some?;
      assert CountFlagsFrom(fs, c) == (if fs[c] then 1 else 0) + CountFlagsFrom(fs, c + 1);
    }
  }

  /** No flag is counted exactly when none is set. */
  lemma {:induction false} CountFlagsNone(fs: seq<bool>, c: nat)
    requires c <= |fs|
    ensures CountFlagsFrom(fs, c) == 0 <==> forall j :: c <= j < |fs| ==> !fs[j]
    decreases |fs| - c
  {
    if c < |fs| {
      CountFlagsNone(fs, c + 1);
    }
  }

  /** Flags set only on non-null cells number as many as the non-null cells
      exactly when every non-null cell is flagged. */
  lemma {:induction false} CountFlagsAll(fs: seq<bool>, row: Row, c: nat)
    requires |fs| == |row| && c <= |row|
    requires forall j :: 0 <= j < |fs| && fs[j] ==> row[j].Some?
    ensures CountFlagsFrom(fs, c) == |NonNullFrom(row, c)| <==>
      forall j :: c <= j < |row| && row[j].Some? ==> fs[j]
    decreases |row| - c
  {
    if c < |row| {
      CountFlagsAll(fs, row, c + 1);
      CountFlagsBounded(fs, row, c + 1);
      NonNullFromStep(row, c);
      if row[c].Some? && !fs[c] {
        assert CountFlagsFrom(fs, c) < |NonNullFrom(row, c)|;
      } else {
        assert CountFlagsFrom(fs, c) - |NonNullFrom(row, c)|
          == CountFlagsFrom(fs, c + 1) - |NonNullFrom(row, c + 1)|;
        FlagsCoverStep(fs, row, c);
      }
    }
  }

  /** Covering the non-null cells from `c` on is covering cell `c` and
      those after it. */
  lemma FlagsCoverStep(fs: seq<bool>, row: Row, c: nat)
    requires |fs| == |row| && c < |row|
    requires row[c].Some? ==> fs[c]
    ensures (forall j :: c <= j < |row| && row[j].Some? ==> fs[j]) <==>
      (forall j :: c + 1 <= j < |row| && row[j].Some? ==> fs[j])
  {
  }

  /** The set flags among `fs[c..]` are as many as their positions. */
  lemma {:induction false} CountFlagsSet(fs: seq<bool>, c: nat)
    requires c <= |fs|
    ensures CountFlagsFrom(fs, c) == |set j: nat | c <= j < |fs| && fs[j]|
    decreases |fs| - c
  {
    var here := set j: nat | c <= j < |fs| && fs[j];
    if c == |fs| {
      assert here == {};
    } else {
      CountFlagsSet(fs, c + 1);
      var later := set j: nat | c + 1 <= j < |fs| && fs[j];
      if fs[c] {
        assert here == later + {c};
        assert c !in later;
      } else {
        assert here == later;
      }
    }
  }

  /** The columns of row `r` whose cell deviates from its column. */
  ghost function DeviatingColumns(g: Grid, r: nat, compareRows: nat): set<nat>
    requires r < |g|
  {
    set c: nat | c < |g[r]| && Deviates(g, r, c, compareRows)
  }

  /** The loop's `score` is the number of deviating columns. */
  lemma DeviationsCountColumns(g: Grid, r: nat, compareRows: nat)
    requires r < |g|
    ensures DeviationsFrom(g, r, compareRows, 0) == |DeviatingColumns(g, r, compareRows)|
  {
    var fs := DeviationFlags(g, r, compareRows);
    CountFlagsSet(fs, 0);
    assert (set j: nat | 0 <= j < |fs| && fs[j]) == DeviatingColumns(g, r, compareRows);
  }

  /** No deviation is counted exactly when no column deviates. */
  lemma DeviationsFromNone(g: Grid, r: nat, compareRows: nat)
    requires r < |g|
    ensures DeviationsFrom(g, r, compareRows, 0) == 0 <==> NoneDeviate(g, r, compareRows)
  {
    var fs := DeviationFlags(g, r, compareRows);
    CountFlagsNone(fs, 0);
    if CountFlagsFrom(fs, 0) == 0 {
      forall c | 0 <= c < |g[r]|
        ensures !Deviates(g, r, c, compareRows)
      {
        assert !fs[c];
      }
    } else {
      var c :| 0 <= c < |fs| && fs[c];
      assert Deviates(g, r, c, compareRows);
    }
  }

  /** Every non-null cell is counted exactly when each of them deviates. */
  lemma DeviationsFromAll(g: Grid, r: nat, compareRows: nat)
    requires r < |g|
    ensures DeviationsFrom(g, r, compareRows, 0) == NonNullCount(g[r]) <==> AllDeviate(g, r, compareRows)
  {
    FlagsOnlyOnCells(g, r, compareRows);
    CountFlagsAll(DeviationFlags(g, r, compareRows), g[r], 0);
  }

  /** No cell of row `r` deviates from its column. */
  ghost predicate NoneDeviate(g: Grid, r: nat, compareRows: nat)
    requires r < |g|
  {
    forall c :: 0 <= c < |g[r]| ==> !Deviates(g, r, c, compareRows)
  }

  /** Every non-null cell of row `r` deviates from its column. */
  ghost predicate AllDeviate(g: Grid, r: nat, compareRows: nat)
    requires r < |g|
  {
    forall c :: 0 <= c < |g[r]| && g[r][c].Some? ==> Deviates(g, r, c, compareRows)
  }

  /** `column_inconsistency_score(df, row_index, compare_rows)`: 0 when no
      row follows; an error for an all-null row (the final division);
      otherwise the number of deviating columns over the number of non-null
      cells, which is 0 exactly when none deviates and 1 exactly when all
      do. */
  function ColumnInconsistencyScore(g: Grid, rowIndex: nat, compareRows: nat): (res: Result<real>)
    ensures res.Failure? <==> rowIndex + 1 < |g| && !HasCell(g[rowIndex])
    ensures res.Failure? ==> res.error == AllNullRow(rowIndex)
    ensures res.Success? ==> 0.0 <= res.value <= 1.0
    ensures rowIndex + 1 >= |g| ==> res == Success(0.0)
    ensures res.Success? && rowIndex + 1 < |g| ==>
      NonNullCount(g[rowIndex]) > 0
      && res.value == Ratio(|DeviatingColumns(g, rowIndex, compareRows)|, NonNullCount(g[rowIndex]))
    ensures res.Success? && rowIndex + 1 < |g| ==>
      (res.value == 0.0 <==> NoneDeviate(g, rowIndex, compareRows))
    ensures res.Success? && rowIndex + 1 < |g| ==>
      (res.value == 1.0 <==> AllDeviate(g, rowIndex, compareRows))
  {
    if rowIndex + 1 >= |g| then Success(0.0)
    else
      NonNullEmptyIff(g[rowIndex]);
      if NonNullCount(g[rowIndex]) == 0 then Failure(AllNullRow(rowIndex))
      else
        ScoreMeaning(g, rowIndex, compareRows);
        DeviationsCountColumns(g, rowIndex, compareRows);
        Success(Ratio(DeviationsFrom(g, rowIndex, compareRows, 0), NonNullCount(g[rowIndex])))
  }

  /** The share of deviating non-null cells, and what its extreme values
      mean. */
  lemma ScoreMeaning(g: Grid, r: nat, compareRows: nat)
    requires r < |g| && NonNullCount(g[r]) > 0
    ensures var d := DeviationsFrom(g, r, compareRows, 0);
      var n := NonNullCount(g[r]);
      && 0.0 <= Ratio(d, n) <= 1.0
      && (Ratio(d, n) == 0.0 <==> NoneDeviate(g, r, compareRows))
      && (Ratio(d, n) == 1.0 <==> AllDeviate(g, r, compareRows))
  {
    var d := DeviationsFrom(g, r, compareRows, 0);
    DeviationsFromNone(g, r, compareRows);
    DeviationsFromAll(g, r, compareRows);
    RatioOne(d, NonNullCount(g[r]));
  }
}
