/** `detect_header_row`: score every candidate row in a bounded window and
    keep the first row whose score is strictly higher than all earlier ones.
    Scores are exact reals standing for numpy floats; what is proved is the
    candidate set, the error case and the selection rule. */
module HeaderDetection {
  import opened Base
  import opened Sheet
  import opened RowSignals
  import opened ColumnConsistency

  /** `max_rows_to_check`'s default. */
  const DefaultMaxRowsToCheck: int := 20

  /** The statistics of one candidate row (`row`) and the row below it
      (`next`), both as their non-null cells. */
  datatype Signals = Signals(
    avgLen: real,
    shortRatio: real,
    keywordRatio: real,
    uniqueness: real,
    digitRatio: real,
    nextRowDigitRatio: real)

  /** The ratios of lines 104-113. Each share is a share: it lies in [0, 1];
      the average length is positive; uniqueness is positive and equals 1
      exactly when no cell value repeats; a row's digit ratio is 0 exactly
      when it has no digit. */
  function SignalsOf(row: seq<string>, next: seq<string>): (s: Signals)
    requires |row| > 0 && TotalLength(row) > 0
    ensures s.avgLen > 0.0
    ensures 0.0 <= s.shortRatio <= 1.0 && 0.0 <= s.keywordRatio <= 1.0
    ensures 0.0 < s.uniqueness <= 1.0
    ensures s.uniqueness == 1.0 <==> NoDuplicates(row)
    ensures 0.0 <= s.digitRatio <= 1.0
    ensures s.digitRatio == 0.0 <==> TotalDigits(row) == 0
    ensures 0.0 <= s.nextRowDigitRatio <= 1.0
  {
    ToSetSize(row);
    RatioOne(|ToSet(row)|, |row|);
    Signals(
      Ratio(TotalLength(row), |row|),
      Ratio(CountIf(row, IsShortText), |row|),
      Ratio(CountIf(row, IsLikelyFieldName), |row|),
      Ratio(|ToSet(row)|, |row|),
      Ratio(TotalDigits(row), TotalLength(row)),
      Ratio(TotalDigits(next), Max(TotalLength(next), 1)))
  }

  /** `range(min(max_rows_to_check, len(df) - 1))` ends before this index. */
  function Limit(g: Grid, maxRowsToCheck: int): int {
    Min(maxRowsToCheck, |g| - 1)
  }

  /** Row `i` is inside the scan window and neither it nor the next row is
      all null. The last row is never a candidate. */
  predicate IsCandidate(g: Grid, maxRowsToCheck: int, i: nat) {
    i < Limit(g, maxRowsToCheck) && HasCell(g[i]) && HasCell(g[i + 1])
  }

  /** A candidate whose digit ratio has a non-zero denominator. */
  predicate Scorable(g: Grid, i: nat) {
    i + 1 < |g| && HasCell(g[i]) && HasCell(g[i + 1]) && TotalLength(NonNull(g[i])) > 0
  }

  /** The score of lines 130-149. The natural-text penalty of lines 118-121
      is computed by the source but never added, so it does not appear.
      Every term is bounded: the length term lies strictly between 0 and 2,
      uniqueness is positive, and the bonuses and penalties are fixed, so the
      score lies strictly between -3.75 (every penalty, no bonus) and 9.7
      (every bonus, no penalty). */
  function HeaderScore(g: Grid, idx: nat): (score: real)
    requires Scorable(g, idx)
    ensures -3.75 < score < 9.7
  {
    NonNullEmptyIff(g[idx]);
    var s := SignalsOf(NonNull(g[idx]), NonNull(g[idx + 1]));
    LengthTermBounds(s.avgLen);
    var nextRowIsDataLike := s.nextRowDigitRatio > 0.2;
    var indexBonus := if idx <= 5 then 1.0 else 0.0;
    var thisRowIsDataLike := s.shortRatio >= 0.9 && s.digitRatio >= 0.4 && s.keywordRatio < 0.25;
    var dataPenalty := if thisRowIsDataLike then -0.75 else 0.0;
    var score :=
      (1.0 / (1.0 + s.avgLen)) * 2.0
      + s.shortRatio * 1.5
      + s.keywordRatio
      + s.uniqueness * 1.0
      - s.digitRatio * 1.0
      + (if nextRowIsDataLike then 2.0 else 0.0)
      + indexBonus
      + dataPenalty;
    var inconsistency := ColumnInconsistencyScore(g, idx, DefaultCompareRows).value;
    var columnRatio := NonEmptyCellRatio(g[idx], Width(g));
    var dominantRatio := DominantCellRatio(g[idx]);
    score
      + inconsistency * 1.2
      - (if columnRatio < 0.5 then 1.0 else 0.0)
      - (if dominantRatio < 0.7 then 1.0 else 0.0)
  }

  /** `1 / (1 + avg_len)` for a positive average lies strictly between 0
      and 1. */
  lemma LengthTermBounds(avgLen: real)
    requires avgLen > 0.0
    ensures 0.0 < 1.0 / (1.0 + avgLen) < 1.0
  {
    var d := 1.0 + avgLen;
    var q := 1.0 / d;
    assert q * d == 1.0;
    PositiveScale(q, d);
    ScaleCompare(q, 1.0, d);
  }

  /** What one turn of the loop finds at a row: not a candidate, a candidate
      whose score would divide by zero, or a candidate and its score. */
  datatype Entry = NotCandidate | ZeroLength | Scored(score: real)

  function EntryAt(g: Grid, maxRowsToCheck: int, i: nat): Entry {
    if !IsCandidate(g, maxRowsToCheck, i) then NotCandidate
    else if !Scorable(g, i) then ZeroLength
    else Scored(HeaderScore(g, i))
  }

  /** The loop's findings for every index of the scan window, in order. */
  function Entries(g: Grid, maxRowsToCheck: int): (es: seq<Entry>)
    ensures |es| == Max(Limit(g, maxRowsToCheck), 0)
    ensures forall i :: 0 <= i < |es| ==> es[i] == EntryAt(g, maxRowsToCheck, i)
  {
    seq(Max(Limit(g, maxRowsToCheck), 0), i requires 0 <= i => EntryAt(g, maxRowsToCheck, i))
  }

  /** The running best of the scan: an index and its score, `None` standing
      for the initial `-np.inf`. */
  datatype Pick = Pick(index: nat, score: Option<real>)

  /** No entry below `upto` divides by zero. */
  ghost predicate NoZeroBelow(es: seq<Entry>, upto: nat)
    requires upto <= |es|
  {
    forall j :: 0 <= j < upto ==> !es[j].ZeroLength?
  }

  /** `p` is the right answer for the entries below `upto`: index 0 with no
      score when none is scored, and otherwise the first scored entry of
      maximal score, with that score. */
  ghost predicate IsBestOf(es: seq<Entry>, p: Pick, upto: nat)
    requires upto <= |es|
  {
    match p.score
    case None =>
      p.index == 0 && forall j :: 0 <= j < upto ==> !es[j].Scored?
    case Some(best) =>
      && p.index < upto && es[p.index] == Scored(best)
      && (forall j :: 0 <= j < upto && es[j].Scored? ==> es[j].score <= best)
      && (forall j :: 0 <= j < p.index && es[j].Scored? ==> es[j].score < best)
  }

  /** The `for idx in range(...)` loop from `idx` on, with running best
      `best`: `if score > best_score` replaces the best only on a strictly
      higher score. */
  function Scan(es: seq<Entry>, idx: nat, best: Pick): (res: Result<Pick>)
    requires idx <= |es| && NoZeroBelow(es, idx) && IsBestOf(es, best, idx)
    ensures res.Success? ==> NoZeroBelow(es, |es|) && IsBestOf(es, res.value, |es|)
    ensures res.Failure? ==>
      exists k :: idx <= k < |es| && es[k].ZeroLength? && res.error == ZeroLengthRow(k)
                  && NoZeroBelow(es, k)
    decreases |es| - idx
  {
    if idx == |es| then Success(best)
    else
      match es[idx]
      case NotCandidate => Scan(es, idx + 1, best)
      case ZeroLength => Failure(ZeroLengthRow(idx))
      case Scored(score) =>
        if best.score.None? || score > best.score.value then
          Scan(es, idx + 1, Pick(idx, Some(score)))
        else
          Scan(es, idx + 1, best)
  }

  /** `detect_header_row(df, max_rows_to_check, return_score=True)`: fails
      exactly when some candidate row has only empty strings (the division
      of line 108), naming the first such row; otherwise returns the first
      entry of maximal score with its score, or index 0 with the initial
      `-inf` (here `None`) when no row is a candidate. */
  function DetectHeaderRowScored(g: Grid, maxRowsToCheck: int): (res: Result<Pick>)
    ensures var es := Entries(g, maxRowsToCheck);
      && (res.Success? ==> NoZeroBelow(es, |es|) && IsBestOf(es, res.value, |es|))
      && (res.Failure? ==>
            exists k :: 0 <= k < |es| && es[k].ZeroLength? && res.error == ZeroLengthRow(k)
                        && NoZeroBelow(es, k))
  {
    Scan(Entries(g, maxRowsToCheck), 0, Pick(0, None))
  }

  /** Row `h` is a scorable candidate that no candidate outscores, and every
      earlier candidate scores strictly less; every candidate is scorable. */
  ghost predicate IsHeaderPick(g: Grid, maxRowsToCheck: int, h: nat) {
    && IsCandidate(g, maxRowsToCheck, h) && Scorable(g, h)
    && (forall j: nat :: IsCandidate(g, maxRowsToCheck, j) ==>
          Scorable(g, j) && HeaderScore(g, j) <= HeaderScore(g, h))
    && (forall j: nat :: j < h && IsCandidate(g, maxRowsToCheck, j) ==>
          HeaderScore(g, j) < HeaderScore(g, h))
  }

  /** The scan's postcondition, read back in terms of rows: no candidate is
      skipped for a zero divisor, and the pick is the first candidate of
      maximal score (index 0 when there is no candidate). */
  lemma BestOfEntriesIsBestRow(g: Grid, maxRowsToCheck: int, p: Pick)
    requires var es := Entries(g, maxRowsToCheck); NoZeroBelow(es, |es|) && IsBestOf(es, p, |es|)
    ensures forall j: nat :: IsCandidate(g, maxRowsToCheck, j) ==> Scorable(g, j)
    ensures (forall j: nat :: !IsCandidate(g, maxRowsToCheck, j)) ==> p.index == 0
    ensures (exists j: nat :: IsCandidate(g, maxRowsToCheck, j)) ==> IsHeaderPick(g, maxRowsToCheck, p.index)
  {
    var es := Entries(g, maxRowsToCheck);
    forall j: nat | IsCandidate(g, maxRowsToCheck, j)
      ensures Scorable(g, j) && es[j] == Scored(HeaderScore(g, j))
    {
      assert j < |es|;
      assert es[j] == EntryAt(g, maxRowsToCheck, j);
    }
    if p.score.Some? {
      var best := p.score.value;
      assert es[p.index] == EntryAt(g, maxRowsToCheck, p.index);
      assert IsCandidate(g, maxRowsToCheck, p.index) && Scorable(g, p.index);
      assert best == HeaderScore(g, p.index);
      forall j: nat | IsCandidate(g, maxRowsToCheck, j)
        ensures HeaderScore(g, j) <= best
      {
        assert es[j].Scored? && es[j].score == HeaderScore(g, j);
      }
      forall j: nat | j < p.index && IsCandidate(g, maxRowsToCheck, j)
        ensures HeaderScore(g, j) < best
      {
        assert es[j].Scored? && es[j].score == HeaderScore(g, j);
      }
    }
  }

  /** A zero-divisor entry is a candidate whose cells are all empty strings. */
  lemma ZeroLengthEntryIsEmptyCandidate(g: Grid, maxRowsToCheck: int, k: nat)
    requires var es := Entries(g, maxRowsToCheck); k < |es| && es[k].ZeroLength?
    ensures IsCandidate(g, maxRowsToCheck, k) && TotalLength(NonNull(g[k])) == 0
  {
    assert Entries(g, maxRowsToCheck)[k] == EntryAt(g, maxRowsToCheck, k);
  }

  /** `detect_header_row(df, max_rows_to_check)`: the index alone. It fails
      exactly when some candidate row has only empty strings. Otherwise it is
      0 when no row qualifies, and else a candidate that no candidate
      outscores, every earlier candidate scoring strictly less: ties go to
      the earlier row. */
  function DetectHeaderRow(g: Grid, maxRowsToCheck: int): (res: Result<nat>)
    ensures res.Failure? <==>
      exists k: nat :: IsCandidate(g, maxRowsToCheck, k) && TotalLength(NonNull(g[k])) == 0
    ensures res.Success? && (forall j: nat :: !IsCandidate(g, maxRowsToCheck, j)) ==> res.value == 0
    ensures res.Success? && (exists j: nat :: IsCandidate(g, maxRowsToCheck, j)) ==>
      IsHeaderPick(g, maxRowsToCheck, res.value)
    ensures res.Success? && |g| > 0 ==> res.value < |g|
  {
    match DetectHeaderRowScored(g, maxRowsToCheck)
    case Success(p) =>
      BestOfEntriesIsBestRow(g, maxRowsToCheck, p);
      Success(p.index)
    case Failure(e) =>
      var es := Entries(g, maxRowsToCheck);
      var k :| 0 <= k < |es| && es[k].ZeroLength? && e == ZeroLengthRow(k);
      ZeroLengthEntryIsEmptyCandidate(g, maxRowsToCheck, k);
      Failure(e)
  }
}
