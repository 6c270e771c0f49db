/** Character and string predicates that stand in for the regular expressions,
    `String.prototype.trim`, Python's `str.strip` and JavaScript's `.length`. */
module Text {

  predicate StartsWith(s: string, prefix: string)
  {
    |prefix| <= |s| && s[..|prefix|] == prefix
  }

  predicate EndsWith(s: string, suffix: string)
  {
    |suffix| <= |s| && s[|s| - |suffix|..] == suffix
  }

  /** `\d` in a JavaScript regular expression without the `u` flag: ASCII digits only. */
  predicate IsDigit(c: char)
  {
    '0' <= c <= '9'
  }

  predicate AllDigits(s: string)
  {
    forall i :: 0 <= i < |s| ==> IsDigit(s[i])
  }

  /** Length of the longest prefix of `s` made of digits. */
  function DigitRun(s: string): (n: nat)
    ensures n <= |s|
    ensures AllDigits(s[..n])
    ensures n < |s| ==> !IsDigit(s[n])
  {
    if |s| > 0 && IsDigit(s[0]) then
      var n := 1 + DigitRun(s[1..]);
      assert s[..n] == [s[0]] + s[1..][..n - 1];
      n
    else 0
  }

  /** The shape `^\d+<sep>\d+$` as a declarative statement: some split point with
      a non-empty digit run on either side. */
  ghost predicate IsDigitsPair(s: string, sep: char)
  {
    exists i :: 0 < i < |s| - 1 && s[i] == sep && AllDigits(s[..i]) && AllDigits(s[i + 1..])
  }

  /** The same shape, checked by scanning the leading digit run. */
  predicate MatchesDigitsPair(s: string, sep: char)
  {
    var n := DigitRun(s);
    0 < n && n + 1 < |s| && s[n] == sep && AllDigits(s[n + 1..])
  }

  lemma MatchesDigitsPairIff(s: string, sep: char)
    requires !IsDigit(sep)
    ensures MatchesDigitsPair(s, sep) <==> IsDigitsPair(s, sep)
  {
    var n := DigitRun(s);
    if IsDigitsPair(s, sep) {
      var i :| 0 < i < |s| - 1 && s[i] == sep && AllDigits(s[..i]) && AllDigits(s[i + 1..]);
      DigitRunStopsAt(s, i);
    }
    if MatchesDigitsPair(s, sep) {
      assert 0 < n < |s| - 1 && s[n] == sep && AllDigits(s[..n]) && AllDigits(s[n + 1..]);
    }
  }

  /** A digit run ends exactly at the first non-digit. */
  lemma DigitRunStopsAt(s: string, i: nat)
    requires i < |s| && AllDigits(s[..i]) && !IsDigit(s[i])
    ensures DigitRun(s) == i
  {
  }

  /** `^\d+:\d+$`: the duration labels the title fallback rejects. */
  predicate IsTimestamp(s: string)
  {
    MatchesDigitsPair(s, ':')
  }

  lemma TimestampShape(s: string)
    ensures IsTimestamp(s) <==> IsDigitsPair(s, ':')
  {
    MatchesDigitsPairIff(s, ':');
  }

  /** The duration test accepts exactly two digit groups: "1:23" and "1:234"
      are durations, "1:23:45" and "Video 1:23" are not. */
  lemma TimestampExamples()
    ensures IsTimestamp("1:23") && IsTimestamp("12:34") && IsTimestamp("1:234")
    ensures !IsTimestamp("1:23:45") && !IsTimestamp("Video 1:23")
  {
    assert DigitRun("1:23") == 1 by { DigitRunStopsAt("1:23", 1); }
    assert DigitRun("12:34") == 2 by { DigitRunStopsAt("12:34", 2); }
    assert DigitRun("1:234") == 1 by { DigitRunStopsAt("1:234", 1); }
    assert DigitRun("1:23:45") == 1 by { DigitRunStopsAt("1:23:45", 1); }
    assert "1:23:45"[2..][2] == ':';
    assert DigitRun("Video 1:23") == 0;
  }

  /** Characters removed by JavaScript's `trim`: WhiteSpace and LineTerminator. */
  const JsWhitespace: set<char> := {
    '\t', '\n', '\U{B}', '\U{C}', '\r', ' ', '\U{A0}', '\U{1680}',
    '\U{2000}', '\U{2001}', '\U{2002}', '\U{2003}', '\U{2004}', '\U{2005}', '\U{2006}', '\U{2007}',
    '\U{2008}', '\U{2009}', '\U{200A}', '\U{2028}', '\U{2029}', '\U{202F}', '\U{205F}', '\U{3000}',
    '\U{FEFF}'
  }

  /** Characters removed by Python's `str.strip()` with no argument (`str.isspace`). */
  const PyWhitespace: set<char> := {
    '\t', '\n', '\U{B}', '\U{C}', '\r', '\U{1C}', '\U{1D}', '\U{1E}',
    '\U{1F}', ' ', '\U{85}', '\U{A0}', '\U{1680}', '\U{2000}', '\U{2001}', '\U{2002}',
    '\U{2003}', '\U{2004}', '\U{2005}', '\U{2006}', '\U{2007}', '\U{2008}', '\U{2009}', '\U{200A}',
    '\U{2028}', '\U{2029}', '\U{202F}', '\U{205F}', '\U{3000}'
  }

  function StripStart(s: string, ws: set<char>): (r: string)
    ensures |r| <= |s| && r == s[|s| - |r|..]
    ensures forall k :: 0 <= k < |s| - |r| ==> s[k] in ws
    ensures r == [] || r[0] !in ws
  {
    if |s| > 0 && s[0] in ws then StripStart(s[1..], ws) else s
  }

  function StripEnd(s: string, ws: set<char>): (r: string)
    ensures |r| <= |s| && r == s[..|r|]
    ensures forall k :: |r| <= k < |s| ==> s[k] in ws
    ensures r == [] || r[|r| - 1] !in ws
  {
    if |s| > 0 && s[|s| - 1] in ws then StripEnd(s[..|s| - 1], ws) else s
  }

  /** Removes leading and trailing characters of `ws`; what remains has no
      `ws` character at either end. */
  function Strip(s: string, ws: set<char>): (r: string)
    ensures r == [] || (r[0] !in ws && r[|r| - 1] !in ws)
  {
    StripEnd(StripStart(s, ws), ws)
  }

  /** What `Strip` keeps is a slice of `s` with only `ws` characters before
      and after it. */
  lemma StripIsSlice(s: string, ws: set<char>)
    ensures exists i, j ::
              && 0 <= i <= j <= |s| && Strip(s, ws) == s[i..j]
              && (forall k :: 0 <= k < i ==> s[k] in ws)
              && (forall k :: j <= k < |s| ==> s[k] in ws)
  {
    var t := StripStart(s, ws);
    var r := StripEnd(t, ws);
    var i := |s| - |t|;
    assert t == s[i..];
    assert r == s[i..i + |r|];
    forall k | i + |r| <= k < |s|
      ensures s[k] in ws
    {
      assert s[k] == t[k - i];
    }
  }

  /** Stripping leaves nothing exactly when `s` holds nothing but `ws` characters. */
  lemma StripEmpty(s: string, ws: set<char>)
    ensures Strip(s, ws) == [] <==> forall k :: 0 <= k < |s| ==> s[k] in ws
  {
    var t := StripStart(s, ws);
    var r := StripEnd(t, ws);
    var off := |s| - |t|;
    if r != [] {
      assert t[0] == r[0] && s[off] == t[0];
    }
  }

  lemma StripIdempotent(s: string, ws: set<char>)
    ensures Strip(Strip(s, ws), ws) == Strip(s, ws)
  {
    var r := Strip(s, ws);
    assert StripStart(r, ws) == r;
    assert StripEnd(r, ws) == r;
  }

  function JsTrim(s: string): string
  {
    Strip(s, JsWhitespace)
  }

  function PyStrip(s: string): string
  {
    Strip(s, PyWhitespace)
  }

  /** JavaScript's `.length`: UTF-16 code units, two for a character outside the
      Basic Multilingual Plane. */
  function Utf16Length(s: string): (n: nat)
    ensures |s| <= n <= 2 * |s|
  {
    if |s| == 0 then 0
    else (if s[0] as int > 0xFFFF then 2 else 1) + Utf16Length(s[1..])
  }
}
