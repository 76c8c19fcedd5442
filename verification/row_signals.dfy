/** Per-row statistics the header detector scores a candidate row with:
    `is_short_text`, `is_likely_field_name`, the ratios computed inline in
    `detect_header_row`, `non_empty_cell_ratio`, `dominant_cell_ratio` and
    `is_natural_text_line`. Ratios are exact `real`s standing for the
    floating-point values Python computes. */
module RowSignals {
  import opened Base
  import opened Text
  import opened Sheet

  /** `is_short_text`: at most 15 characters and no line break. */
  predicate IsShortText(t: string) {
    |t| <= 15 && '\n' !in t
  }

  /** The field-name keywords of `is_likely_field_name`: name, day, number,
      full name, category, type (katakana), situation, industry, amount,
      continuing, kind, state. */
  const FieldKeywords: seq<string> :=
    ["名", "日", "番号", "氏名", "区分", "タイプ", "状況", "業種", "金額", "継続", "種別", "状態"]

  /** `is_likely_field_name`: some keyword occurs in the text. */
  predicate IsLikelyFieldName(t: string) {
    exists k :: k in FieldKeywords && Contains(t, k)
  }

  /** A cell is a likely field name exactly when a keyword sits somewhere in
      it, whatever surrounds it. */
  lemma FieldNameIff(t: string)
    ensures IsLikelyFieldName(t) <==>
      exists k, a, b :: k in FieldKeywords && t == a + k + b
  {
    if IsLikelyFieldName(t) {
      var k :| k in FieldKeywords && Contains(t, k);
      ContainsAt(t, k);
      var i :| 0 <= i <= |t| && IsPrefix(k, t[i..]);
      assert t == t[..i] + k + t[i + |k|..];
    }
    if exists k, a, b :: k in FieldKeywords && t == a + k + b {
      var k, a, b :| k in FieldKeywords && t == a + k + b;
      ContainsInfix(a, k, b);
    }
  }

  /** `a / b` for a positive divisor. */
  function Ratio(a: nat, b: nat): (r: real)
    requires b > 0
    ensures 0.0 <= r
    ensures a <= b ==> r <= 1.0
    ensures r == 0.0 <==> a == 0
    ensures r * (b as real) == a as real
  {
    (a as real) / (b as real)
  }

  /** `r` is the share `part` of `whole`: `r * whole == part`. */
  predicate IsShareOf(r: real, part: nat, whole: nat) {
    r * (whole as real) == part as real
  }

  lemma RatioIsShare(a: nat, b: nat)
    requires b > 0
    ensures IsShareOf(Ratio(a, b), a, b)
  {
  }

  lemma PositiveScale(x: real, t: real)
    requires t > 0.0
    ensures x > 0.0 <==> x * t > 0.0
  {
  }

  /** Multiplying by a positive number keeps the order. */
  lemma ScaleCompare(x: real, y: real, t: real)
    requires t > 0.0
    ensures x < y <==> x * t < y * t
    ensures x <= y <==> x * t <= y * t
  {
    PositiveScale(y - x, t);
    PositiveScale(x - y, t);
    assert (y - x) * t == y * t - x * t;
  }

  /** A ratio compared with a constant `c` is its numerator compared with
      `c` times its denominator. */
  lemma RatioCompare(a: nat, b: nat, c: real)
    requires b > 0
    ensures Ratio(a, b) < c <==> (a as real) < c * (b as real)
    ensures Ratio(a, b) <= c <==> (a as real) <= c * (b as real)
  {
    ScaleCompare(Ratio(a, b), c, b as real);
  }

  /** A ratio compared with the fraction `num / den` is the integer
      cross-multiplication `den * a` against `num * b`. */
  lemma RatioThreshold(a: nat, b: nat, num: nat, den: nat)
    requires b > 0 && den > 0
    ensures Ratio(a, b) < (num as real) / (den as real) <==> den * a < num * b
    ensures Ratio(a, b) <= (num as real) / (den as real) <==> den * a <= num * b
  {
    var c := (num as real) / (den as real);
    RatioCompare(a, b, c);
    var cb := c * (b as real);
    ScaleCompare(a as real, cb, den as real);
    assert c * (den as real) == num as real;
    assert cb * (den as real) == (num as real) * (b as real);
    ProductAsReal(den, a);
    ProductAsReal(num, b);
    assert (a as real) * (den as real) == (den * a) as real;
    assert cb * (den as real) == (num * b) as real;
  }

  /** A ratio is 1 exactly when numerator and denominator agree. */
  lemma RatioOne(a: nat, b: nat)
    requires b > 0
    ensures Ratio(a, b) == 1.0 <==> a == b
  {
    ScaleCompare(Ratio(a, b), 1.0, b as real);
    ScaleCompare(1.0, Ratio(a, b), b as real);
  }

  function SumOver(cells: seq<string>, f: string -> nat): nat
    decreases |cells|
  {
    if |cells| == 0 then 0 else f(cells[0]) + SumOver(cells[1..], f)
  }

  lemma {:induction false} SumOverMonotone(cells: seq<string>, f: string -> nat, g: string -> nat)
    requires forall s :: f(s) <= g(s)
    ensures SumOver(cells, f) <= SumOver(cells, g)
    decreases |cells|
  {
    if |cells| > 0 {
      SumOverMonotone(cells[1..], f, g);
    }
  }

  /** How many cells satisfy `p` (the numerator of `np.mean` over booleans). */
  function CountIf(cells: seq<string>, p: string -> bool): (n: nat)
    ensures n <= |cells|
    decreases |cells|
  {
    if |cells| == 0 then 0 else (if p(cells[0]) then 1 else 0) + CountIf(cells[1..], p)
  }

  function Length(s: string): nat {
    |s|
  }

  /** `sum(c.isdigit() for c in s)`. */
  function DigitCount(s: string): (n: nat)
    ensures n <= |s|
    decreases |s|
  {
    if |s| == 0 then 0 else (if IsDigit(s[0]) then 1 else 0) + DigitCount(s[1..])
  }

  /** `sum(s.count(p) for p in chars)`. */
  function CountEach(s: string, chars: string): nat
    decreases |chars|
  {
    if |chars| == 0 then 0 else CountChar(s, chars[0]) + CountEach(s, chars[1..])
  }

  function TotalLength(cells: seq<string>): nat {
    SumOver(cells, Length)
  }

  function TotalDigits(cells: seq<string>): (n: nat)
    ensures n <= TotalLength(cells)
  {
    SumOverMonotone(cells, DigitCount, Length);
    SumOver(cells, DigitCount)
  }

  /** The longest cell length (`max(cell_lengths)`). */
  function MaxLength(cells: seq<string>): (m: nat)
    ensures forall i :: 0 <= i < |cells| ==> |cells[i]| <= m
    ensures m <= TotalLength(cells)
    decreases |cells|
  {
    if |cells| == 0 then 0
    else
      var m := MaxLength(cells[1..]);
      assert forall i :: 1 <= i < |cells| ==> cells[i] == cells[1..][i - 1];
      if |cells[0]| >= m then |cells[0]| else m
  }

  /** The longest length is the length of some cell. */
  lemma {:induction false} MaxLengthAttained(cells: seq<string>)
    requires |cells| > 0
    ensures exists i :: 0 <= i < |cells| && |cells[i]| == MaxLength(cells)
    decreases |cells|
  {
    var tail := cells[1..];
    if |cells[0]| < MaxLength(tail) {
      MaxLengthAttained(tail);
      var i :| 0 <= i < |tail| && |tail[i]| == MaxLength(tail);
      assert cells[i + 1] == tail[i];
    }
  }

  /** The longest cell is at least as long as the average cell. */
  lemma {:induction false} MaxLengthAtLeastMean(cells: seq<string>)
    ensures |cells| * MaxLength(cells) >= TotalLength(cells)
    decreases |cells|
  {
    if |cells| > 0 {
      var tail := cells[1..];
      MaxLengthAtLeastMean(tail);
      var m := MaxLength(tail);
      var r := MaxLength(cells);
      var k := |tail|;
      assert TotalLength(cells) == |cells[0]| + TotalLength(tail);
      assert |cells[0]| <= r && m <= r;
      MulMonotone(k, m, r);
      SuccMul(k, r);
    }
  }

  lemma SuccMul(k: nat, r: nat)
    ensures (k + 1) * r == k * r + r
  {
  }

  lemma MulMonotone(k: nat, a: nat, b: nat)
    requires a <= b
    ensures k * a <= k * b
  {
  }

  function ToSet(cells: seq<string>): set<string> {
    set c | c in cells
  }

  predicate NoDuplicates(cells: seq<string>) {
    forall i, j :: 0 <= i < j < |cells| ==> cells[i] != cells[j]
  }

  /** `len(set(row))` lies between 1 and `len(row)` for a non-empty row and
      reaches `len(row)` exactly when no value repeats. */
  lemma {:induction false} ToSetSize(cells: seq<string>)
    ensures |ToSet(cells)| <= |cells|
    ensures |cells| > 0 ==> |ToSet(cells)| >= 1
    ensures |ToSet(cells)| == |cells| <==> NoDuplicates(cells)
    decreases |cells|
  {
    if |cells| > 0 {
      var tail := cells[1..];
      ToSetSize(tail);
      assert ToSet(cells) == {cells[0]} + ToSet(tail) by {
        forall c ensures c in ToSet(cells) <==> c == cells[0] || c in ToSet(tail) {
          if c in tail {
            var i :| 0 <= i < |tail| && tail[i] == c;
            assert cells[i + 1] == c;
          }
          if c in cells && c != cells[0] {
            var i :| 0 <= i < |cells| && cells[i] == c;
            assert tail[i - 1] == c;
          }
        }
      }
      if cells[0] in tail {
        var k :| 0 <= k < |tail| && tail[k] == cells[0];
        assert cells[k + 1] == cells[0];
        assert ToSet(cells) == ToSet(tail);
        assert !NoDuplicates(cells);
      } else {
        assert cells[0] !in ToSet(tail);
        assert |ToSet(cells)| == 1 + |ToSet(tail)|;
        if NoDuplicates(tail) {
          forall i, j | 0 <= i < j < |cells| ensures cells[i] != cells[j] {
            if i == 0 {
              assert cells[j] == tail[j - 1];
            } else {
              assert cells[i] == tail[i - 1] && cells[j] == tail[j - 1];
            }
          }
        } else {
          var i, j :| 0 <= i < j < |tail| && tail[i] == tail[j];
          assert cells[i + 1] == cells[j + 1];
        }
      }
    }
  }

  /** `non_empty_cell_ratio`: non-null cells over expected columns, or 0 when
      no column is expected. */
  function NonEmptyCellRatio(row: Row, totalExpectedColumns: nat): (r: real)
    ensures 0.0 <= r
    ensures |row| <= totalExpectedColumns ==> r <= 1.0
    ensures r == 0.0 <==> totalExpectedColumns == 0 || !HasCell(row)
    ensures totalExpectedColumns > 0 ==> IsShareOf(r, NonNullCount(row), totalExpectedColumns)
    ensures totalExpectedColumns > 0 ==> (r < 0.5 <==> 2 * NonNullCount(row) < totalExpectedColumns)
  {
    NonNullEmptyIff(row);
    if totalExpectedColumns > 0 then
      RatioThreshold(NonNullCount(row), totalExpectedColumns, 1, 2);
      RatioIsShare(NonNullCount(row), totalExpectedColumns);
      Ratio(NonNullCount(row), totalExpectedColumns)
    else 0.0
  }

  /** `dominant_cell_ratio`: the longest non-null cell's share of the row's
      total length, 0 for a row without characters. The longest cell is at
      least the average, so a non-zero share is at least 1 / (number of
      cells). The row falls below the 0.7 threshold of the header score
      exactly when it has no characters or its longest cell makes up less
      than 7/10 of them. */
  function DominantCellRatio(row: Row): (r: real)
    ensures 0.0 <= r <= 1.0
    ensures r == 0.0 <==> TotalLength(NonNull(row)) == 0
    ensures r > 0.0 ==> r * (NonNullCount(row) as real) >= 1.0
    ensures TotalLength(NonNull(row)) > 0 ==>
      IsShareOf(r, MaxLength(NonNull(row)), TotalLength(NonNull(row)))
    ensures r < 0.7 <==>
      TotalLength(NonNull(row)) == 0 || 10 * MaxLength(NonNull(row)) < 7 * TotalLength(NonNull(row))
  {
    var cells := NonNull(row);
    if |cells| == 0 then 0.0
    else
      var total := TotalLength(cells);
      var m := MaxLength(cells);
      if total > 0 then
        MaxLengthAtLeastMean(cells);
        DominantShare(m, total, |cells|);
        RatioIsShare(m, total);
        Ratio(m, total)
      else 0.0
  }

  /** A part `m` of a positive `total`, `n` copies of which cover the
      total, has a share in `(0, 1]` of at least `1 / n`; it is below 0.7
      exactly when `m` is below 7/10 of the total. */
  lemma DominantShare(m: nat, total: nat, n: nat)
    requires 0 < total && m <= total && n * m >= total
    ensures 0.0 < Ratio(m, total) <= 1.0
    ensures Ratio(m, total) * (n as real) >= 1.0
    ensures Ratio(m, total) < 0.7 <==> 10 * m < 7 * total
  {
    PositiveFactor(n, m, total);
    ShareAtLeastInverse(m, total, n);
    DominantBelow(m, total);
  }

  /** A share below 0.7 is a part below 7/10 of the total. */
  lemma DominantBelow(m: nat, total: nat)
    requires 0 < total
    ensures Ratio(m, total) < 0.7 <==> 10 * m < 7 * total
  {
    RatioThreshold(m, total, 7, 10);
    assert (7 as real) / (10 as real) == 0.7;
  }

  lemma PositiveFactor(n: nat, m: nat, t: nat)
    requires n * m >= t > 0
    ensures m > 0
  {
  }

  lemma ProductAsReal(a: nat, b: nat)
    ensures ((a * b) as real) == (a as real) * (b as real)
  {
  }

  /** If `n` shares of `m` cover `total`, then `m / total` is at least
      `1 / n`. */
  lemma ShareAtLeastInverse(m: nat, total: nat, n: nat)
    requires total > 0 && n * m >= total
    ensures Ratio(m, total) * (n as real) >= 1.0
  {
    ProductAsReal(n, m);
    RealShare(m as real, total as real, n as real);
  }

  lemma RealShare(m: real, t: real, n: real)
    requires t > 0.0 && n * m >= t
    ensures (m / t) * n >= 1.0
  {
    var r := m / t;
    assert r * t == m;
    assert (r * n) * t == n * m;
    ScaleCompare(1.0, r * n, t);
  }

  /** `sum(c.count(p) for c in cells for p in "。！？,.、")`. */
  function PunctuationCount(cells: seq<string>): nat
    decreases |cells|
  {
    if |cells| == 0 then 0 else CountEach(cells[0], "。！？,.、") + PunctuationCount(cells[1..])
  }

  /** `is_natural_text_line`: more than 3% of the characters are
      punctuation; never for a row without characters. */
  function IsNaturalTextLine(cells: seq<string>): (r: bool)
    ensures r <==> 100 * PunctuationCount(cells) > 3 * TotalLength(cells)
  {
    var total := TotalLength(cells);
    var p := PunctuationCount(cells);
    if total == 0 then
      NoPunctuationWithoutText(cells);
      false
    else
      RatioThreshold(p, total, 3, 100);
      Ratio(p, total) > 0.03
  }

  lemma {:induction false} NoPunctuationWithoutText(cells: seq<string>)
    requires TotalLength(cells) == 0
    ensures PunctuationCount(cells) == 0
    decreases |cells|
  {
    if |cells| > 0 {
      assert |cells[0]| == 0;
      NoCountInEmpty(cells[0], "。！？,.、");
      NoPunctuationWithoutText(cells[1..]);
    }
  }

  lemma {:induction false} NoCountInEmpty(s: string, chars: string)
    requires |s| == 0
    ensures CountEach(s, chars) == 0
    decreases |chars|
  {
    if |chars| > 0 {
      NoCountInEmpty(s, chars[1..]);
    }
  }
}
