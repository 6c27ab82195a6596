/**
 * The pieces of Python's `str` behaviour the tool relies on: `str.isspace`,
 * `str.strip()`, `str.splitlines()`, `"\n".join(...)` and `str(n)` for a
 * non-negative integer.  Strings are sequences of Unicode scalar values.
 */
module Text {

  /** Python's `str.isspace`, character by character: exactly the characters
      that `str.strip()` with no argument removes. */
  predicate IsSpace(c: char) {
    || ('\t' <= c <= '\r')               // U+0009 .. U+000D
    || ('\U{1C}' <= c <= '\U{1F}')       // information separators
    || c == ' '
    || c == '\U{85}'                     // next line
    || c == '\U{A0}'                     // no-break space
    || c == '\U{1680}'
    || ('\U{2000}' <= c <= '\U{200A}')
    || c == '\U{2028}'                   // line separator
    || c == '\U{2029}'                   // paragraph separator
    || c == '\U{202F}'
    || c == '\U{205F}'
    || c == '\U{3000}'
  }

  /** The line boundaries `str.splitlines()` recognises ("\r\n" counts as one,
      see `BreakWidth`). */
  predicate IsLineBreak(c: char) {
    || c == '\n' || c == '\r'
    || c == '\U{0B}' || c == '\U{0C}'
    || c == '\U{1C}' || c == '\U{1D}' || c == '\U{1E}'
    || c == '\U{85}' || c == '\U{2028}' || c == '\U{2029}'
  }

  /** Every line boundary is also whitespace. */
  lemma LineBreakIsSpace(c: char)
    ensures IsLineBreak(c) ==> IsSpace(c)
  {
  }

  /** `not s.strip()` in Python: the string is empty or all whitespace. */
  predicate IsBlank(s: string) {
    forall i :: 0 <= i < |s| ==> IsSpace(s[i])
  }

  predicate NoLineBreaks(s: string) {
    forall i :: 0 <= i < |s| ==> !IsLineBreak(s[i])
  }

  /** `r` is `s` with its leading whitespace removed, and no more. */
  predicate IsLeftStripOf(s: string, r: string) {
    && |r| <= |s| && r == s[|s| - |r|..]
    && IsBlank(s[..|s| - |r|])
    && (r == [] || !IsSpace(r[0]))
  }

  /** `r` is `s` with its trailing whitespace removed, and no more. */
  predicate IsRightStripOf(s: string, r: string) {
    && |r| <= |s| && r == s[..|r|]
    && IsBlank(s[|r|..])
    && (r == [] || !IsSpace(r[|r| - 1]))
  }

  /** `s.lstrip()`: the longest suffix of `s` that does not start with whitespace. */
  function LStrip(s: string): (r: string)
    ensures IsLeftStripOf(s, r)
  {
    if s == [] || !IsSpace(s[0]) then s
    else
      var t := s[1..];
      var r := LStrip(t);
      assert s[..|s| - |r|] == [s[0]] + t[..|t| - |r|];
      BlankConcat([s[0]], t[..|t| - |r|]);
      assert t[|t| - |r|..] == s[|s| - |r|..];
      r
  }

  /** `s.rstrip()`: the longest prefix of `s` that does not end with whitespace. */
  function RStrip(s: string): (r: string)
    ensures IsRightStripOf(s, r)
  {
    if s == [] || !IsSpace(s[|s| - 1]) then s
    else
      var t := s[..|s| - 1];
      var r := RStrip(t);
      assert s[|r|..] == t[|r|..] + [s[|s| - 1]];
      BlankConcat(t[|r|..], [s[|s| - 1]]);
      assert t[..|r|] == s[..|r|];
      r
  }

  /** `s` neither starts nor ends with whitespace. */
  predicate HasNoMargins(s: string) {
    s == [] || (!IsSpace(s[0]) && !IsSpace(s[|s| - 1]))
  }

  /** `s.strip()`: `s` with its whitespace margins removed and nothing else. */
  function Strip(s: string): (r: string)
    ensures r == [] <==> IsBlank(s)
    ensures HasNoMargins(r)
    ensures exists lo :: TrimmedAt(s, r, lo)
  {
    StripShape(s);
    RStrip(LStrip(s))
  }

  /** `r` sits at offset `lo` of `s`, and everything around it is whitespace. */
  predicate TrimmedAt(s: string, r: string, lo: nat) {
    && lo + |r| <= |s|
    && s[lo..lo + |r|] == r
    && IsBlank(s[..lo])
    && IsBlank(s[lo + |r|..])
  }

  /** `r` is `s` with some whitespace margins cut off. */
  ghost predicate IsTrimOf(s: string, r: string) {
    exists lo :: TrimmedAt(s, r, lo)
  }

  lemma StripShape(s: string)
    ensures RStrip(LStrip(s)) == [] <==> IsBlank(s)
    ensures TrimmedAt(s, RStrip(LStrip(s)), |s| - |LStrip(s)|)
  {
    StrippedPairOf(s);
    StripEmptyIff(s, LStrip(s), RStrip(LStrip(s)));
    StripPlacement(s, LStrip(s), RStrip(LStrip(s)));
  }

  lemma StrippedPairOf(s: string)
    ensures StrippedPair(s, LStrip(s), RStrip(LStrip(s)))
  {
  }

  /** What `LStrip` promises about `l` and `RStrip` about `r`. */
  predicate StrippedPair(s: string, l: string, r: string) {
    IsLeftStripOf(s, l) && IsRightStripOf(l, r)
  }

  lemma StripEmptyIff(s: string, l: string, r: string)
    requires StrippedPair(s, l, r)
    ensures r == [] <==> IsBlank(s)
  {
    var lo := |s| - |l|;
    if r == [] {
      assert l[|r|..] == l;
      assert s == s[..lo] + l;
      BlankConcat(s[..lo], l);
    } else {
      assert r[0] == l[0] == s[lo];
    }
  }

  lemma StripPlacement(s: string, l: string, r: string)
    requires StrippedPair(s, l, r)
    ensures TrimmedAt(s, r, |s| - |l|)
  {
    var lo := |s| - |l|;
    SuffixSlices(s, lo, |r|);
  }

  /** Slicing a suffix is slicing the whole. */
  lemma SuffixSlices(s: string, lo: nat, k: nat)
    requires lo + k <= |s|
    ensures s[lo..][..k] == s[lo..lo + k] && s[lo..][k..] == s[lo + k..]
  {
  }

  lemma BlankConcat(a: string, b: string)
    requires IsBlank(a) && IsBlank(b)
    ensures IsBlank(a + b)
  {
    forall k | 0 <= k < |a + b|
      ensures IsSpace((a + b)[k])
    {
      if k < |a| { assert (a + b)[k] == a[k]; } else { assert (a + b)[k] == b[k - |a|]; }
    }
  }

  /** A string without whitespace margins is left alone by `Strip`. */
  lemma StripTrimmed(s: string)
    requires HasNoMargins(s)
    ensures Strip(s) == s
  {
  }

  /** Stripping is idempotent. */
  lemma StripIdempotent(s: string)
    ensures Strip(Strip(s)) == Strip(s)
  {
    StripTrimmed(Strip(s));
  }

  /** `"\n".join(parts)`. */
  function JoinLines(parts: seq<string>): string
    decreases |parts|
  {
    if |parts| == 0 then []
    else if |parts| == 1 then parts[0]
    else parts[0] + "\n" + JoinLines(parts[1..])
  }

  /** The index of the first line boundary in `s`, or `|s|` when there is
      none (see `LineEndSpec`). */
  function LineEnd(s: string): (i: nat)
    ensures i <= |s|
  {
    if s == [] || IsLineBreak(s[0]) then 0 else 1 + LineEnd(s[1..])
  }

  /** `LineEnd` stops at the first boundary: none before it, one at it. */
  lemma {:induction false} LineEndSpec(s: string)
    ensures NoLineBreaks(s[..LineEnd(s)])
    ensures LineEnd(s) < |s| ==> IsLineBreak(s[LineEnd(s)])
  {
    if s != [] && !IsLineBreak(s[0]) {
      LineEndSpec(s[1..]);
      var j := LineEnd(s[1..]);
      assert s[..1 + j] == [s[0]] + s[1..][..j];
    }
  }

  /** How many characters the boundary at `i` occupies: two for "\r\n". */
  function BreakWidth(s: string, i: nat): (w: nat)
    requires i < |s|
    ensures 1 <= w && i + w <= |s|
  {
    if s[i] == '\r' && i + 1 < |s| && s[i + 1] == '\n' then 2 else 1
  }

  /** `s.splitlines()`: the lines of `s` without their boundaries; a final
      boundary does not open an empty last line. */
  function SplitLines(s: string): (lines: seq<string>)
    ensures lines == [] <==> s == []
    decreases |s|
  {
    if s == [] then []
    else
      var i := LineEnd(s);
      if i == |s| then [s]
      else [s[..i]] + SplitLines(s[i + BreakWidth(s, i)..])
  }

  /** One line boundary as `splitlines` consumes it: "\r\n", or a single
      boundary character. */
  predicate IsBoundary(b: string) {
    b == "\r\n" || (|b| == 1 && IsLineBreak(b[0]))
  }

  /** Text in which "\n" is the only line boundary. */
  predicate OnlyNewlineBreaks(s: string) {
    forall i :: 0 <= i < |s| && IsLineBreak(s[i]) ==> s[i] == '\n'
  }

  /** `s` less one final "\n", if it has one. */
  function DropFinalNewline(s: string): string {
    if s != [] && s[|s| - 1] == '\n' then s[..|s| - 1] else s
  }

  /** The decimal digit for `d`. */
  function Digit(d: nat): (c: char)
    requires d < 10
    ensures '0' <= c <= '9'
  {
    "0123456789"[d]
  }

  predicate AllDigits(s: string) {
    forall i :: 0 <= i < |s| ==> '0' <= s[i] <= '9'
  }

  /** `str(n)` for a non-negative integer: its decimal numeral. */
  function NatToString(n: nat): (s: string)
    ensures |s| >= 1 && AllDigits(s)
    ensures |s| > 1 ==> s[0] != '0'
  {
    if n < 10 then [Digit(n)] else NatToString(n / 10) + [Digit(n % 10)]
  }

  /** The value of a decimal numeral. */
  function DecimalValue(s: string): nat
    requires AllDigits(s)
  {
    if s == [] then 0
    else 10 * DecimalValue(s[..|s| - 1]) + (s[|s| - 1] - '0') as nat
  }
}

module TextLemmas {
  import opened Text

  /** The boundary search stops exactly where a plain prefix meets a boundary. */
  lemma {:induction false} LineEndAfterPlain(a: string, t: string)
    requires NoLineBreaks(a)
    requires t == [] || IsLineBreak(t[0])
    ensures LineEnd(a + t) == |a|
  {
    if a != [] {
      assert (a + t)[1..] == a[1..] + t;
      assert a[0] == a[..1][0];
      LineEndAfterPlain(a[1..], t);
    }
  }

  /** `"\n".join` followed by `splitlines` gives the lines back, provided no
      line holds a boundary and the last line is not empty (a trailing empty
      line would be swallowed as a final boundary). */
  lemma {:induction false} SplitJoin(lines: seq<string>)
    requires forall k :: 0 <= k < |lines| ==> NoLineBreaks(lines[k])
    requires lines != [] ==> lines[|lines| - 1] != []
    ensures SplitLines(JoinLines(lines)) == lines
    decreases |lines|
  {
    if |lines| == 1 {
      LineEndAfterPlain(lines[0], []);
      assert lines[0] + [] == lines[0];
    } else if |lines| > 1 {
      var a := lines[0];
      var t := JoinLines(lines[1..]);
      var s := a + "\n" + t;
      assert JoinLines(lines) == s;
      assert s == a + ("\n" + t);
      LineEndAfterPlain(a, "\n" + t);
      assert s[|a|] == '\n';
      assert s[|a| + 1..] == t;
      assert s[..|a|] == a;
      SplitJoin(lines[1..]);
      assert [a] + lines[1..] == lines;
    }
  }

  /** Text without a boundary is one line. */
  lemma SplitLinesPlain(a: string)
    requires a != [] && NoLineBreaks(a)
    ensures SplitLines(a) == [a]
  {
    LineEndAfterPlain(a, []);
    assert a + [] == a;
    SplitLinesWhole(a);
  }

  /** `splitlines` yields the text before the first boundary, then the lines
      of what follows that boundary.  A lone "\r" directly followed by "\n"
      is not a boundary of its own: the two form one "\r\n". */
  lemma SplitLinesBoundary(a: string, b: string, t: string)
    requires NoLineBreaks(a) && IsBoundary(b)
    requires b == "\r" ==> t == [] || t[0] != '\n'
    ensures SplitLines(a + b + t) == [a] + SplitLines(t)
  {
    var s := a + b + t;
    assert s == a + (b + t);
    assert (b + t)[0] == b[0];
    LineEndAfterPlain(a, b + t);
    assert s[|a|] == b[0];
    assert |b| == 2 ==> s[|a| + 1] == '\n';
    assert |b| == 1 && |a| + 1 < |s| ==> s[|a| + 1] == t[0];
    assert BreakWidth(s, |a|) == |b|;
    SplitLinesAt(s, |a|, |b|);
    assert s[..|a|] == a;
    assert s[|a| + |b|..] == t;
  }

  /** `"\n".join` of a line followed by more lines. */
  lemma JoinCons(x: string, rest: seq<string>)
    requires rest != []
    ensures JoinLines([x] + rest) == x + "\n" + JoinLines(rest)
  {
    assert ([x] + rest)[1..] == rest;
  }

  /** For text whose only boundary is "\n", `splitlines` followed by
      `"\n".join` gives the text back, less one final "\n". */
  lemma {:induction false} JoinSplit(s: string)
    requires OnlyNewlineBreaks(s)
    ensures JoinLines(SplitLines(s)) == DropFinalNewline(s)
    decreases |s|
  {
    if s != [] {
      var i := LineEnd(s);
      LineEndSpec(s);
      if i == |s| {
        assert s[..i] == s;
        assert s[|s| - 1] != '\n';
      } else {
        assert s[i] == '\n';
        if i + 1 == |s| {
          assert SplitLines(s) == [s[..i]];
        } else {
          JoinSplitStep(s, i);
        }
      }
    }
  }

  lemma {:induction false} JoinSplitStep(s: string, i: nat)
    requires OnlyNewlineBreaks(s)
    requires i + 1 < |s| && i == LineEnd(s) && s[i] == '\n'
    ensures JoinLines(SplitLines(s)) == DropFinalNewline(s)
    decreases |s|, 0
  {
    NewlineStep(s, i);
    OnlyNewlineBreaksSuffix(s, i + 1);
    JoinSplit(s[i + 1..]);
    JoinCons(s[..i], SplitLines(s[i + 1..]));
    DropFinalNewlineAround(s, i);
  }

  /** At a "\n" boundary, `splitlines` yields the line before it and then the
      lines of the rest. */
  lemma NewlineStep(s: string, i: nat)
    requires i + 1 < |s| && i == LineEnd(s) && s[i] == '\n'
    ensures SplitLines(s) == [s[..i]] + SplitLines(s[i + 1..])
  {
    var w := BreakWidth(s, i);
    assert w == 1;
    SplitLinesAt(s, i, 1);
  }

  lemma DropFinalNewlineAround(s: string, i: nat)
    requires i + 1 < |s| && s[i] == '\n'
    ensures DropFinalNewline(s) == s[..i] + "\n" + DropFinalNewline(s[i + 1..])
  {
    assert s == (s[..i] + "\n") + s[i + 1..];
    DropFinalNewlineAppend(s[..i] + "\n", s[i + 1..]);
  }

  /** One step of `splitlines` at the first boundary: the first line, then
      the lines after that boundary. */
  lemma {:induction false} SplitLinesAt(s: string, i: nat, w: nat)
    requires i == LineEnd(s) && i < |s| && w == BreakWidth(s, i)
    ensures SplitLines(s) == [s[..i]] + SplitLines(s[i + w..])
  {
  }

  /** Text without a boundary is a single line. */
  lemma {:induction false} SplitLinesWhole(s: string)
    requires s != [] && LineEnd(s) == |s|
    ensures SplitLines(s) == [s]
  {
  }

  lemma OnlyNewlineBreaksSuffix(s: string, k: nat)
    requires OnlyNewlineBreaks(s) && k <= |s|
    ensures OnlyNewlineBreaks(s[k..])
  {
    forall j | 0 <= j < |s[k..]| && IsLineBreak(s[k..][j])
      ensures s[k..][j] == '\n'
    {
      assert s[k..][j] == s[k + j];
    }
  }

  lemma DropFinalNewlineAppend(p: string, rest: string)
    requires rest != []
    ensures DropFinalNewline(p + rest) == p + DropFinalNewline(rest)
  {
    if rest[|rest| - 1] == '\n' {
      assert (p + rest)[..|p + rest| - 1] == p + rest[..|rest| - 1];
    }
  }

  /** Text that is not blank has a line that is not blank, so a key body with
      content always yields at least one non-blank line. */
  lemma {:induction false} NonBlankHasNonBlankLine(s: string, j: nat)
    requires j < |s| && !IsSpace(s[j])
    ensures exists k :: 0 <= k < |SplitLines(s)| && !IsBlank(SplitLines(s)[k])
    decreases |s|
  {
    var i := LineEnd(s);
    LineEndSpec(s);
    if i == |s| {
      SplitLinesWhole(s);
      NonBlankCons(s, []);
      assert [s] + [] == [s];
    } else if j < i {
      SplitLinesAt(s, i, BreakWidth(s, i));
      assert s[..i][j] == s[j];
      NonBlankCons(s[..i], SplitLines(s[i + BreakWidth(s, i)..]));
    } else {
      var w := BreakWidth(s, i);
      SplitLinesAt(s, i, BreakWidth(s, i));
      PastBreak(s, i, j);
      NonBlankHasNonBlankLine(s[i + w..], j - (i + w));
      NonBlankCons(s[..i], SplitLines(s[i + w..]));
    }
  }

  lemma NonBlankCons(h: string, tail: seq<string>)
    requires !IsBlank(h) || exists k :: 0 <= k < |tail| && !IsBlank(tail[k])
    ensures exists k :: 0 <= k < |[h] + tail| && !IsBlank(([h] + tail)[k])
  {
    if IsBlank(h) {
      var k :| 0 <= k < |tail| && !IsBlank(tail[k]);
      assert ([h] + tail)[k + 1] == tail[k];
    } else {
      assert ([h] + tail)[0] == h;
    }
  }

  /** No line `splitlines` yields holds a line boundary. */
  lemma {:induction false} SplitLinesNoBreaks(s: string)
    ensures forall k :: 0 <= k < |SplitLines(s)| ==> NoLineBreaks(SplitLines(s)[k])
    decreases |s|
  {
    if s != [] {
      LineEndSpec(s);
      var i := LineEnd(s);
      if i < |s| {
        SplitLinesAt(s, i, BreakWidth(s, i));
        var rest := s[i + BreakWidth(s, i)..];
        SplitLinesNoBreaks(rest);
        var lines, tail := SplitLines(s), SplitLines(rest);
        forall k | 0 <= k < |lines|
          ensures NoLineBreaks(lines[k])
        {
          if k > 0 { assert lines[k] == tail[k - 1]; }
        }
      } else {
        SplitLinesWhole(s);
        assert s[..i] == s;
      }
    }
  }

  /** A non-whitespace character at or after a boundary lies past it. */
  lemma PastBreak(s: string, i: nat, j: nat)
    requires i <= j < |s| && IsLineBreak(s[i]) && !IsSpace(s[j])
    ensures i + BreakWidth(s, i) <= j
    ensures s[i + BreakWidth(s, i)..][j - (i + BreakWidth(s, i))] == s[j]
  {
    BreakIsBlank(s, i);
  }

  /** A line boundary, "\r\n" included, is whitespace throughout. */
  lemma BreakIsBlank(s: string, i: nat)
    requires i < |s| && IsLineBreak(s[i])
    ensures forall m :: i <= m < i + BreakWidth(s, i) ==> IsSpace(s[m])
  {
    LineBreakIsSpace(s[i]);
  }

  /** Reading back a numeral printed by `NatToString` gives the number. */
  lemma {:induction false} DecimalRoundTrip(n: nat)
    ensures DecimalValue(NatToString(n)) == n
  {
    if n < 10 {
      DigitValue(n);
    } else {
      var p := NatToString(n / 10);
      var s := p + [Digit(n % 10)];
      assert s[..|s| - 1] == p;
      DigitValue(n % 10);
      DecimalRoundTrip(n / 10);
    }
  }

  lemma DigitValue(d: nat)
    requires d < 10
    ensures (Digit(d) - '0') as nat == d
    ensures DecimalValue([Digit(d)]) == d
  {
    assert [Digit(d)][..0] == [];
  }

  /** Different statuses print differently. */
  lemma NatToStringInjective(m: nat, n: nat)
    ensures NatToString(m) == NatToString(n) ==> m == n
  {
    DecimalRoundTrip(m);
    DecimalRoundTrip(n);
  }

  /** `"\n".join(parts)` starts with the first part. */
  lemma JoinLinesStartsWith(parts: seq<string>)
    requires parts != []
    ensures |parts[0]| <= |JoinLines(parts)| && JoinLines(parts)[..|parts[0]|] == parts[0]
  {
    if |parts| > 1 {
      assert JoinLines(parts) == parts[0] + ("\n" + JoinLines(parts[1..]));
    }
  }

  /** Every line of blank text is blank. */
  lemma {:induction false} BlankLines(s: string)
    requires IsBlank(s)
    ensures forall k :: 0 <= k < |SplitLines(s)| ==> IsBlank(SplitLines(s)[k])
    decreases |s|
  {
    if s != [] {
      var i := LineEnd(s);
      if i < |s| {
        SplitLinesAt(s, i, BreakWidth(s, i));
        var rest := s[i + BreakWidth(s, i)..];
        BlankSlice(s, i + BreakWidth(s, i), |s|);
        BlankLines(rest);
        BlankSlice(s, 0, i);
        AllBlankCons(s[..i], SplitLines(rest));
      } else {
        SplitLinesWhole(s);
        AllBlankCons(s, []);
        assert [s] + [] == [s];
      }
    }
  }

  lemma AllBlankCons(h: string, tail: seq<string>)
    requires IsBlank(h) && forall k :: 0 <= k < |tail| ==> IsBlank(tail[k])
    ensures forall k :: 0 <= k < |[h] + tail| ==> IsBlank(([h] + tail)[k])
  {
    forall k | 0 < k < |[h] + tail|
      ensures IsBlank(([h] + tail)[k])
    {
      assert ([h] + tail)[k] == tail[k - 1];
    }
  }

  /** A slice of blank text is blank. */
  lemma BlankSlice(s: string, lo: nat, hi: nat)
    requires IsBlank(s) && lo <= hi <= |s|
    ensures IsBlank(s[lo..hi])
  {
    assert forall m :: 0 <= m < hi - lo ==> s[lo..hi][m] == s[lo + m];
  }
}
