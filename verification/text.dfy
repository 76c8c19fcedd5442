/** String primitives the processor borrows from Python's `str`: `strip`,
    `in`, `count`, `join`, `split`, `isdigit` and the decimal rendering used
    by f-strings. Strings are sequences of Unicode code points, as in Python. */
module Text {

  /** Python's `str.isspace`, which is also the set `str.strip()` removes. */
  predicate IsWhitespace(c: char) {
    || c == ' '
    || ('\t' <= c <= '\r')
    || ('\U{1C}' <= c <= '\U{1F}')
    || c == '\U{85}' || c == '\U{A0}' || c == '\U{1680}'
    || ('\U{2000}' <= c <= '\U{200A}')
    || c == '\U{2028}' || c == '\U{2029}' || c == '\U{202F}' || c == '\U{205F}'
    || c == '\U{3000}'
  }

  /** True when `s.strip()` is empty, i.e. `not s.strip()` holds in Python. */
  predicate IsBlank(s: string) {
    forall i :: 0 <= i < |s| ==> IsWhitespace(s[i])
  }

  /** Neither end of `s` is whitespace (vacuous for the empty string). */
  predicate IsTrimmed(s: string) {
    |s| > 0 ==> !IsWhitespace(s[0]) && !IsWhitespace(s[|s| - 1])
  }

  /** `s.lstrip()`: a suffix of `s`, what was dropped is whitespace, and what
      is left does not start with whitespace. */
  function TrimLeft(s: string): (r: string)
    ensures |r| <= |s| && r == s[|s| - |r|..]
    ensures IsBlank(s[..|s| - |r|])
    ensures |r| > 0 ==> !IsWhitespace(r[0])
    decreases |s|
  {
    if |s| > 0 && IsWhitespace(s[0]) then
      var r := TrimLeft(s[1..]);
      TrimLeftStep(s, r);
      r
    else
      s
  }

  /** `s.rstrip()`: a prefix of `s`, what was dropped is whitespace, and what
      is left does not end with whitespace. */
  function TrimRight(s: string): (r: string)
    ensures |r| <= |s| && r == s[..|r|]
    ensures IsBlank(s[|r|..])
    ensures |r| > 0 ==> !IsWhitespace(r[|r| - 1])
    decreases |s|
  {
    if |s| > 0 && IsWhitespace(s[|s| - 1]) then
      var r := TrimRight(s[..|s| - 1]);
      TrimRightStep(s, r);
      r
    else
      s
  }

  /** A leading whitespace character joins the blank head that `lstrip` cuts. */
  lemma TrimLeftStep(s: string, r: string)
    requires |s| > 0 && IsWhitespace(s[0])
    requires |r| <= |s| - 1 && r == s[1..][|s| - 1 - |r|..] && IsBlank(s[1..][..|s| - 1 - |r|])
    ensures r == s[|s| - |r|..] && IsBlank(s[..|s| - |r|])
  {
    assert s[..|s| - |r|] == [s[0]] + s[1..][..|s| - 1 - |r|];
  }

  /** A trailing whitespace character joins the blank tail that `rstrip` cuts. */
  lemma TrimRightStep(s: string, r: string)
    requires |s| > 0 && IsWhitespace(s[|s| - 1])
    requires |r| <= |s| - 1 && r == s[..|s| - 1][..|r|] && IsBlank(s[..|s| - 1][|r|..])
    ensures r == s[..|r|] && IsBlank(s[|r|..])
  {
    assert s[|r|..] == s[..|s| - 1][|r|..] + [s[|s| - 1]];
  }

  /** `s` is `r` with blank text added on either side. */
  ghost predicate IsPaddedBy(s: string, r: string) {
    exists i :: 0 <= i <= |s| - |r| && r == s[i..i + |r|] && IsBlank(s[..i]) && IsBlank(s[i + |r|..])
  }

  /** `s.strip()`: empty exactly when `s` is blank, and otherwise neither of
      its ends is whitespace. */
  function Strip(s: string): (r: string)
    ensures |r| <= |s|
    ensures |r| == 0 <==> IsBlank(s)
    ensures IsTrimmed(r)
  {
    var t := TrimLeft(s);
    var r := TrimRight(t);
    BlankSlices(s, t, r);
    r
  }

  /** `s.strip()` cuts off whitespace only: `s` is its result padded with
      blank text on either side. */
  lemma StripRemovesPadding(s: string)
    ensures IsPaddedBy(s, Strip(s))
  {
    var t := TrimLeft(s);
    BlankSlices(s, t, TrimRight(t));
  }

  /** What `Strip` keeps: a blank head of `s` cut off, leaving `t` that does
      not start with whitespace, then a blank tail of `t`, leaving `r` that
      does not end with whitespace. */
  lemma BlankSlices(s: string, t: string, r: string)
    requires |t| <= |s| && t == s[|s| - |t|..] && IsBlank(s[..|s| - |t|])
    requires |t| > 0 ==> !IsWhitespace(t[0])
    requires |r| <= |t| && r == t[..|r|] && IsBlank(t[|r|..])
    requires |r| > 0 ==> !IsWhitespace(r[|r| - 1])
    ensures IsPaddedBy(s, r)
    ensures |r| == 0 <==> IsBlank(s)
    ensures IsTrimmed(r)
  {
    var i := |s| - |t|;
    assert t[|r|..] == s[i + |r|..];
    assert r == s[i..i + |r|];
    if |r| == 0 {
      assert s == s[..i] + t;
      assert t == t[|r|..];
    } else {
      assert r[0] == t[0];
      assert !IsWhitespace(s[i]);
    }
  }

  lemma {:induction false} TrimLeftOfPadded(w: string, r: string)
    requires IsBlank(w)
    requires |r| > 0 && !IsWhitespace(r[0])
    ensures TrimLeft(w + r) == r
    decreases |w|
  {
    if |w| > 0 {
      assert (w + r)[1..] == w[1..] + r;
      TrimLeftOfPadded(w[1..], r);
    } else {
      assert w + r == r;
    }
  }

  lemma {:induction false} TrimRightOfPadded(r: string, w: string)
    requires IsBlank(w)
    requires |r| > 0 && !IsWhitespace(r[|r| - 1])
    ensures TrimRight(r + w) == r
    decreases |w|
  {
    if |w| > 0 {
      assert (r + w)[..|r + w| - 1] == r + w[..|w| - 1];
      TrimRightOfPadded(r, w[..|w| - 1]);
    } else {
      assert r + w == r;
    }
  }

  /** Strip has an independent description: whatever trimmed text is padded by
      whitespace on both sides, stripping gives that text back. */
  lemma StripOfPadded(w1: string, r: string, w2: string)
    requires IsBlank(w1) && IsBlank(w2) && IsTrimmed(r)
    ensures Strip(w1 + r + w2) == r
  {
    if |r| == 0 {
      assert IsBlank(w1 + r + w2) by {
        forall i | 0 <= i < |w1 + r + w2|
          ensures IsWhitespace((w1 + r + w2)[i])
        {
          if i < |w1| { assert (w1 + r + w2)[i] == w1[i]; }
          else { assert (w1 + r + w2)[i] == w2[i - |w1|]; }
        }
      }
    } else {
      assert w1 + r + w2 == w1 + (r + w2);
      TrimLeftOfPadded(w1, r + w2);
      TrimRightOfPadded(r, w2);
    }
  }

  /** Stripping a trimmed string changes nothing. */
  lemma StripTrimmed(e: string)
    requires IsTrimmed(e)
    ensures Strip(e) == e
  {
    assert "" + e + "" == e;
    StripOfPadded("", e, "");
  }

  /** Stripping twice is stripping once. */
  lemma StripIdempotent(s: string)
    ensures Strip(Strip(s)) == Strip(s)
  {
    var r := Strip(s);
    assert "" + r + "" == r;
    StripOfPadded("", r, "");
  }

  /** ASCII decimal digit; Python's `isdigit` and `\d` also accept other
      Unicode digits, which this model leaves out. */
  predicate IsDigit(c: char) {
    '0' <= c <= '9'
  }

  predicate AllDigits(s: string) {
    forall i :: 0 <= i < |s| ==> IsDigit(s[i])
  }

  predicate IsPrefix(t: string, s: string) {
    |t| <= |s| && s[..|t|] == t
  }

  /** Python's substring test `t in s`. */
  predicate Contains(s: string, t: string)
    decreases |s|
  {
    IsPrefix(t, s) || (|s| > 0 && Contains(s[1..], t))
  }

  /** A non-empty substring brings its first character along. */
  lemma {:induction false} ContainsFirstChar(s: string, t: string)
    requires Contains(s, t) && |t| > 0
    ensures t[0] in s
    decreases |s|
  {
    if IsPrefix(t, s) {
      assert s[0] == t[0];
    } else {
      ContainsFirstChar(s[1..], t);
      assert t[0] in s[1..];
    }
  }

  /** `t in s` holds exactly when `t` starts at some position of `s`. */
  lemma {:induction false} ContainsAt(s: string, t: string)
    ensures Contains(s, t) <==> exists i :: 0 <= i <= |s| && IsPrefix(t, s[i..])
    decreases |s|
  {
    assert s[0..] == s;
    if |s| > 0 {
      ContainsAt(s[1..], t);
      if Contains(s, t) && !IsPrefix(t, s) {
        var i :| 0 <= i <= |s| - 1 && IsPrefix(t, s[1..][i..]);
        assert s[1..][i..] == s[i + 1..];
      } else if !Contains(s, t) {
        forall i | 0 <= i <= |s|
          ensures !IsPrefix(t, s[i..])
        {
          if i > 0 {
            assert s[1..][i - 1..] == s[i..];
          }
        }
      }
    }
  }

  /** A text surrounded by anything is contained in the result. */
  lemma ContainsInfix(a: string, t: string, b: string)
    ensures Contains(a + t + b, t)
  {
    ContainsAt(a + t + b, t);
    assert (a + t + b)[|a|..] == t + b;
    assert (t + b)[..|t|] == t;
  }

  /** `s.count(c)` for a one-character `c`. */
  function CountChar(s: string, c: char): (n: nat)
    ensures n <= |s|
    ensures n == 0 <==> c !in s
    decreases |s|
  {
    if |s| == 0 then 0
    else
      var rest := CountChar(s[1..], c);
      assert c in s <==> s[0] == c || c in s[1..];
      (if s[0] == c then 1 else 0) + rest
  }

  /** `sep.join(parts)`. */
  function Join(sep: string, parts: seq<string>): string
    decreases |parts|
  {
    if |parts| == 0 then ""
    else if |parts| == 1 then parts[0]
    else parts[0] + sep + Join(sep, parts[1..])
  }

  /** With a non-empty separator the join is empty only for no parts or a
      single empty part. */
  lemma JoinEmptyIff(sep: string, parts: seq<string>)
    requires |sep| > 0
    ensures Join(sep, parts) == "" <==> |parts| == 0 || (|parts| == 1 && parts[0] == "")
  {
    if |parts| >= 2 {
      assert |Join(sep, parts)| >= |sep|;
    }
  }

  /** The join opens with its first part, so a first part with a visible
      character makes the whole join non-blank. */
  lemma {:induction false} JoinNotBlank(sep: string, parts: seq<string>)
    requires |parts| > 0 && !IsBlank(parts[0])
    ensures !IsBlank(Join(sep, parts))
  {
    var j := Join(sep, parts);
    var k :| 0 <= k < |parts[0]| && !IsWhitespace(parts[0][k]);
    if |parts| == 1 {
      assert j[k] == parts[0][k];
    } else {
      assert j == parts[0] + (sep + Join(sep, parts[1..]));
      assert j[k] == parts[0][k];
    }
  }

  /** `s.split(c)` for a one-character separator `c`; like Python it yields
      `[""]` for the empty string. */
  function SplitOn(s: string, c: char): (parts: seq<string>)
    ensures |parts| >= 1
    decreases |s|
  {
    if |s| == 0 then [""]
    else
      var rest := SplitOn(s[1..], c);
      if s[0] == c then [""] + rest
      else [[s[0]] + rest[0]] + rest[1..]
  }

  lemma {:induction false} SplitOnPlain(p: string, rest: string, c: char)
    requires c !in p
    ensures SplitOn(p + rest, c) == [p + SplitOn(rest, c)[0]] + SplitOn(rest, c)[1..]
    decreases |p|
  {
    if |p| == 0 {
      assert p + rest == rest;
      var parts := SplitOn(rest, c);
      assert parts == [parts[0]] + parts[1..];
      assert p + parts[0] == parts[0];
    } else {
      assert (p + rest)[1..] == p[1..] + rest;
      SplitOnPlain(p[1..], rest, c);
      assert [p[0]] + (p[1..] + SplitOn(rest, c)[0]) == p + SplitOn(rest, c)[0];
    }
  }

  /** Joining on a character that no part contains and splitting on it again
      gives the parts back; the empty list is the one exception, since both it
      and `[""]` join to the empty string. */
  lemma {:induction false} SplitJoinRoundTrip(parts: seq<string>, c: char)
    requires |parts| >= 1
    requires forall i :: 0 <= i < |parts| ==> c !in parts[i]
    ensures SplitOn(Join([c], parts), c) == parts
    decreases |parts|
  {
    if |parts| == 1 {
      assert parts[0] + "" == parts[0];
      SplitOnPlain(parts[0], "", c);
    } else {
      var tail := Join([c], parts[1..]);
      SplitJoinRoundTrip(parts[1..], c);
      assert Join([c], parts) == parts[0] + ([c] + tail);
      SplitOnPlain(parts[0], [c] + tail, c);
      assert ([c] + tail)[1..] == tail;
      assert SplitOn([c] + tail, c) == [""] + parts[1..];
      assert parts[0] + "" == parts[0];
      assert parts == [parts[0]] + parts[1..];
    }
  }

  function DigitChar(d: nat): (c: char)
    requires d < 10
    ensures IsDigit(c)
  {
    (48 + d) as char
  }

  /** The value of a string of decimal digits. */
  function DigitsValue(s: string): nat
    requires AllDigits(s)
    decreases |s|
  {
    if |s| == 0 then 0
    else DigitsValue(s[..|s| - 1]) * 10 + (s[|s| - 1] as int - 48)
  }

  /** The decimal rendering Python's `str(n)` / `f"{n}"` gives a
      non-negative integer: digits only, and no leading zero. */
  function NatToString(n: nat): (r: string)
    ensures |r| > 0 && AllDigits(r)
    ensures r[0] == '0' ==> n == 0 && r == "0"
    decreases n
  {
    if n < 10 then [DigitChar(n)]
    else NatToString(n / 10) + [DigitChar(n % 10)]
  }

  /** Reading the rendering back gives the number. */
  lemma {:induction false} NatToStringRoundTrip(n: nat)
    ensures DigitsValue(NatToString(n)) == n
    decreases n
  {
    if n >= 10 {
      NatToStringRoundTrip(n / 10);
      var s := NatToString(n);
      assert s[..|s| - 1] == NatToString(n / 10);
    }
  }

  /** Different numbers render differently. */
  lemma NatToStringInjective(m: nat, n: nat)
    requires NatToString(m) == NatToString(n)
    ensures m == n
  {
    NatToStringRoundTrip(m);
    NatToStringRoundTrip(n);
  }
}
