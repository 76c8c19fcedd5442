/** `classify_value`: a first-match labelling of one cell's stripped text. */
module Classifier {
  import opened Text

  datatype Label = Empty | Date | Number | Company | Status | Japanese | Other | Unknown

  /** What `classify_value` receives: a Python `str`, or any other object. */
  datatype Value = Str(text: string) | NonStr

  /** The corporate-entity marker (kabushiki kaisha). */
  const CompanyMarker: string := "株式会社"

  /** The three status words: one-off, continuing, new. */
  const StatusTokens: seq<string> := ["単発", "継続", "新規"]

  /** A run of between `lo` and `hi` ASCII digits (`\d{lo,hi}`). */
  predicate DigitRun(s: string, lo: nat, hi: nat) {
    lo <= |s| <= hi && AllDigits(s)
  }

  /** `\d{1,2}/\d{1,2}` matched against the whole of `t`. */
  predicate IsMonthDay(t: string) {
    || (|t| > 1 && t[1] == '/' && DigitRun(t[..1], 1, 1) && DigitRun(t[2..], 1, 2))
    || (|t| > 2 && t[2] == '/' && DigitRun(t[..2], 2, 2) && DigitRun(t[3..], 1, 2))
  }

  /** `re.fullmatch(r"\d{4}/\d{1,2}/\d{1,2}", s)`: the shape only, with no
      range check on month or day. */
  predicate IsDateText(s: string) {
    |s| >= 5 && DigitRun(s[..4], 4, 4) && s[4] == '/' && IsMonthDay(s[5..])
  }

  /** `re.fullmatch(r"\d+", s)`. */
  predicate IsNumberText(s: string) {
    |s| > 0 && AllDigits(s)
  }

  predicate IsKanji(c: char) {
    '\U{4E00}' <= c <= '\U{9FFF}'
  }

  /** Some character lies in the CJK Unified Ideographs block. */
  predicate HasKanji(s: string) {
    exists i :: 0 <= i < |s| && IsKanji(s[i])
  }

  /** The rule chain of `classify_value`, applied to already stripped text. */
  function LabelOf(v: string): Label {
    if v == "" then Empty
    else if IsDateText(v) then Date
    else if IsNumberText(v) then Number
    else if Contains(v, CompanyMarker) then Company
    else if v in StatusTokens then Status
    else if HasKanji(v) then Japanese
    else Other
  }

  /** The string branch of `classify_value`: strip, then the first rule that
      matches decides. */
  function Classify(s: string): (r: Label)
    ensures r != Unknown
  {
    LabelOf(Strip(s))
  }

  /** `classify_value(val)`: anything that is not a string is `unknown`, and
      no string is. */
  function ClassifyValue(val: Value): (r: Label)
    ensures r == Unknown <==> val.NonStr?
    ensures val.Str? ==> r == Classify(val.text)
  {
    match val
    case Str(s) => Classify(s)
    case NonStr => Unknown
  }

  /** Every character of a date is a digit or a slash, and it has a slash. */
  lemma DateAlphabet(v: string)
    requires IsDateText(v)
    ensures forall i :: 0 <= i < |v| ==> IsDigit(v[i]) || v[i] == '/'
    ensures !AllDigits(v)
  {
    var t := v[5..];
    forall i | 0 <= i < |v|
      ensures IsDigit(v[i]) || v[i] == '/'
    {
      if i < 4 {
        assert v[i] == v[..4][i];
      } else if i > 4 {
        var j := i - 5;
        assert v[i] == t[j];
        if |t| > 1 && t[1] == '/' && DigitRun(t[..1], 1, 1) && DigitRun(t[2..], 1, 2) {
          if j < 1 { assert t[j] == t[..1][j]; }
          else if j > 1 { assert t[j] == t[2..][j - 2]; }
        } else {
          if j < 2 { assert t[j] == t[..2][j]; }
          else if j > 2 { assert t[j] == t[3..][j - 3]; }
        }
      }
    }
  }

  /** A string of digits and slashes never holds the company marker. */
  lemma NoMarkerInDigitsAndSlashes(v: string)
    requires forall i :: 0 <= i < |v| ==> IsDigit(v[i]) || v[i] == '/'
    ensures !Contains(v, CompanyMarker)
  {
    if Contains(v, CompanyMarker) {
      ContainsFirstChar(v, CompanyMarker);
      assert false;
    }
  }

  lemma {:induction false} ContainsLength(s: string, t: string)
    requires Contains(s, t)
    ensures |t| <= |s|
    decreases |s|
  {
    if !IsPrefix(t, s) {
      ContainsLength(s[1..], t);
    }
  }

  /** A date never has kanji, the marker, or only digits. */
  lemma DateIsPlain(v: string)
    requires IsDateText(v)
    ensures !IsNumberText(v) && !HasKanji(v) && !Contains(v, CompanyMarker)
  {
    DateAlphabet(v);
    NoMarkerInDigitsAndSlashes(v);
  }

  /** A number never has kanji or the marker. */
  lemma NumberIsPlain(v: string)
    requires IsNumberText(v)
    ensures !HasKanji(v) && !Contains(v, CompanyMarker)
  {
    NoMarkerInDigitsAndSlashes(v);
  }

  /** Text holding the marker holds a kanji. */
  lemma MarkerHasKanji(v: string)
    requires Contains(v, CompanyMarker)
    ensures HasKanji(v)
  {
    ContainsFirstChar(v, CompanyMarker);
    var i :| 0 <= i < |v| && v[i] == CompanyMarker[0];
    assert IsKanji(v[i]);
  }

  /** A status word is kanji, neither a date nor a number, and too short to
      hold the marker. */
  lemma StatusIsPlain(v: string)
    requires v in StatusTokens
    ensures HasKanji(v) && !IsDateText(v) && !IsNumberText(v) && !Contains(v, CompanyMarker)
  {
    assert IsKanji(v[0]) && !IsDigit(v[0]);
    if Contains(v, CompanyMarker) {
      ContainsLength(v, CompanyMarker);
    }
  }

  /** Which rule fires, described without the rule order: the order only
      matters where a later rule's condition could also hold. A number is
      never a date, a company never a date or number, a status word never a
      company, and text without kanji is never a company or a status word. */
  lemma {:induction false} LabelOfCharacterization(v: string)
    ensures LabelOf(v) == Empty <==> v == ""
    ensures LabelOf(v) == Date <==> IsDateText(v)
    ensures LabelOf(v) == Number <==> IsNumberText(v)
    ensures LabelOf(v) == Company <==> Contains(v, CompanyMarker)
    ensures LabelOf(v) == Status <==> v in StatusTokens
    ensures LabelOf(v) == Japanese <==>
      HasKanji(v) && !Contains(v, CompanyMarker) && v !in StatusTokens
    ensures LabelOf(v) == Other <==>
      v != "" && !IsDateText(v) && !IsNumberText(v) && !HasKanji(v)
  {
    if IsDateText(v) { DateIsPlain(v); }
    if IsNumberText(v) { NumberIsPlain(v); }
    if Contains(v, CompanyMarker) { MarkerHasKanji(v); }
    if v in StatusTokens { StatusIsPlain(v); }
    if HasKanji(v) && IsDateText(v) { DateIsPlain(v); }
    if HasKanji(v) && IsNumberText(v) { NumberIsPlain(v); }
  }

  /** The same, for raw cell text: only the stripped text matters, and it is
      empty exactly when the cell is blank. */
  lemma ClassifyCharacterization(s: string)
    ensures Classify(s) == Empty <==> IsBlank(s)
    ensures Classify(s) == Date <==> IsDateText(Strip(s))
    ensures Classify(s) == Number <==> IsNumberText(Strip(s))
    ensures Classify(s) == Company <==> Contains(Strip(s), CompanyMarker)
    ensures Classify(s) == Status <==> Strip(s) in StatusTokens
    ensures Classify(s) == Japanese <==>
      HasKanji(Strip(s)) && !Contains(Strip(s), CompanyMarker) && Strip(s) !in StatusTokens
    ensures Classify(s) == Other <==>
      !IsBlank(s) && !IsDateText(Strip(s)) && !IsNumberText(Strip(s)) && !HasKanji(Strip(s))
  {
    LabelOfCharacterization(Strip(s));
  }

  /** Surrounding whitespace never changes the label. */
  lemma ClassifyIgnoresPadding(s: string)
    ensures Classify(Strip(s)) == Classify(s)
  {
    StripIdempotent(s);
  }

  lemma IsDateTextOf(y: string, m: string, d: string)
    requires DigitRun(y, 4, 4) && DigitRun(m, 1, 2) && DigitRun(d, 1, 2)
    ensures IsDateText(y + "/" + m + "/" + d)
  {
    var s := y + "/" + m + "/" + d;
    var t := m + "/" + d;
    assert s[..4] == y;
    assert s[5..] == t;
    if |m| == 1 {
      assert t[..1] == m && t[2..] == d;
    } else {
      assert t[..2] == m && t[3..] == d;
    }
  }

  /** Any four digits, a slash, one or two digits, a slash and one or two
      digits make a date, whatever the numbers: `2024/13/45` is a date too,
      since the rule checks the shape and not the calendar. */
  lemma ClassifyDateShape(y: string, m: string, d: string)
    requires DigitRun(y, 4, 4) && DigitRun(m, 1, 2) && DigitRun(d, 1, 2)
    ensures Classify(y + "/" + m + "/" + d) == Date
  {
    var v := y + "/" + m + "/" + d;
    IsDateTextOf(y, m, d);
    assert v[0] == y[0] && v[|v| - 1] == d[|d| - 1];
    StripTrimmed(v);
    LabelOfCharacterization(v);
  }

  /** A run of digits is a number. */
  lemma ClassifyDigits(v: string)
    requires IsNumberText(v)
    ensures Classify(v) == Number
  {
    StripTrimmed(v);
    LabelOfCharacterization(v);
  }

  /** The status rule comes before the kanji rule: each status word holds
      kanji and is still a status, not Japanese text. */
  lemma ClassifyStatusBeforeJapanese(v: string)
    requires v in StatusTokens
    ensures HasKanji(v) && Classify(v) == Status
  {
    StatusIsPlain(v);
    StripTrimmed(v);
    LabelOfCharacterization(v);
  }
}
