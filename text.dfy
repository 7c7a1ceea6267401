/** Character-level behaviour the scraper leans on: Python's `str.strip()`,
    which trims every cell and header text, and the decimal rendering of an
    `int` inside an f-string, which builds the page part of a URL. */
module Text {

  import opened Optional

  /** Python's `str.isspace()` for one character: the Unicode white space
      (tab through carriage return, the four separators U+001C..U+001F,
      space, NEL, no-break space and the Zs/Zl/Zp characters). */
  predicate IsSpace(c: char)
  {
    || c == ' '
    || ('\t' <= c <= '\r')
    || ('\U{1C}' <= c <= '\U{1F}')
    || c == '\U{85}'
    || c == '\U{A0}'
    || c == '\U{1680}'
    || ('\U{2000}' <= c <= '\U{200A}')
    || c == '\U{2028}'
    || c == '\U{2029}'
    || c == '\U{202F}'
    || c == '\U{205F}'
    || c == '\U{3000}'
  }

  predicate AllSpace(s: string)
  {
    forall k {:trigger IsSpace(s[k])} :: 0 <= k < |s| ==> IsSpace(s[k])
  }

  /** The position of the first character at or after `i` that is not
      white space, or `|s|` when there is none. */
  function SkipSpaces(s: string, i: nat): (j: nat)
    requires i <= |s|
    ensures i <= j <= |s|
    ensures forall k {:trigger IsSpace(s[k])} :: i <= k < j ==> IsSpace(s[k])
    ensures j < |s| ==> !IsSpace(s[j])
    decreases |s| - i
  {
    if i < |s| && IsSpace(s[i]) then SkipSpaces(s, i + 1) else i
  }

  /** Where `s[..j]` ends once its trailing white space is dropped. */
  function TrimEnd(s: string, j: nat): (e: nat)
    requires j <= |s|
    ensures e <= j
    ensures forall k {:trigger IsSpace(s[k])} :: e <= k < j ==> IsSpace(s[k])
    ensures e > 0 ==> !IsSpace(s[e - 1])
  {
    if j > 0 && IsSpace(s[j - 1]) then TrimEnd(s, j - 1) else j
  }

  /** `s.strip()`: `s` without its leading and its trailing white space;
      what is left neither starts nor ends with white space. */
  function Strip(s: string): (r: string)
    ensures |r| <= |s|
    ensures r == [] || (!IsSpace(r[0]) && !IsSpace(r[|r| - 1]))
  {
    var i := SkipSpaces(s, 0);
    var e := TrimEnd(s, |s|);
    if i < e then s[i..e] else []
  }

  /** What `strip()` keeps is a contiguous piece of `s`, and everything it
      drops before and after that piece is white space. */
  lemma StripInfix(s: string)
    ensures var r := Strip(s); var i := SkipSpaces(s, 0);
      && i + |r| <= |s|
      && r == s[i..i + |r|]
      && (forall k {:trigger IsSpace(s[k])} :: 0 <= k < i ==> IsSpace(s[k]))
      && (forall k {:trigger IsSpace(s[k])} :: i + |r| <= k < |s| ==> IsSpace(s[k]))
  {
    var i := SkipSpaces(s, 0);
    var e := TrimEnd(s, |s|);
    if i < e {
      assert Strip(s) == s[i..e];
    } else {
      assert Strip(s) == [];
    }
  }

  /** `SkipSpaces` stops at the first character that is not white space. */
  lemma SkipSpacesAt(s: string, i: nat, j: nat)
    requires i <= j <= |s|
    requires forall k {:trigger IsSpace(s[k])} :: i <= k < j ==> IsSpace(s[k])
    requires j < |s| ==> !IsSpace(s[j])
    ensures SkipSpaces(s, i) == j
  {
  }

  /** `TrimEnd` stops right after the last character that is not white space. */
  lemma TrimEndAt(s: string, e: nat, j: nat)
    requires e <= j <= |s|
    requires forall k {:trigger IsSpace(s[k])} :: e <= k < j ==> IsSpace(s[k])
    requires e > 0 ==> !IsSpace(s[e - 1])
    ensures TrimEnd(s, j) == e
  {
  }

  /** The converse of StripInfix: whatever sits between white-space padding,
      and neither starts nor ends with white space, is exactly what `strip()`
      recovers. */
  lemma StripFramed(lead: string, core: string, trail: string)
    requires AllSpace(lead) && AllSpace(trail)
    requires core == [] || (!IsSpace(core[0]) && !IsSpace(core[|core| - 1]))
    ensures Strip(lead + core + trail) == core
  {
    var s := lead + core + trail;
    var m := |lead| + |core|;
    forall k | 0 <= k < |lead|
      ensures IsSpace(s[k])
    {
      assert s[k] == lead[k];
    }
    forall k | m <= k < |s|
      ensures IsSpace(s[k])
    {
      assert s[k] == trail[k - m];
    }
    if core == [] {
      SkipSpacesAt(s, 0, |s|);
    } else {
      assert s[|lead|] == core[0] && s[m - 1] == core[|core| - 1];
      SkipSpacesAt(s, 0, |lead|);
      TrimEndAt(s, m, |s|);
      assert s[|lead|..m] == core;
    }
  }

  /** Stripping twice is stripping once. */
  lemma StripIdempotent(s: string)
    ensures Strip(Strip(s)) == Strip(s)
  {
    var r := Strip(s);
    assert [] + r + [] == r;
    StripFramed([], r, []);
  }

  predicate IsDigit(c: char)
  {
    '0' <= c <= '9'
  }

  predicate AllDigits(s: string)
  {
    forall k :: 0 <= k < |s| ==> IsDigit(s[k])
  }

  function DigitChar(d: nat): (c: char)
    requires d < 10
    ensures IsDigit(c)
  {
    (('0' as int) + d) as char
  }

  function DigitValue(c: char): (d: nat)
    requires IsDigit(c)
    ensures d < 10
  {
    (c as int) - ('0' as int)
  }

  /** `str(n)` for a natural number: its decimal digits, most significant first. */
  function NatToString(n: nat): (s: string)
    ensures |s| > 0 && AllDigits(s)
    ensures s[0] == '0' ==> n == 0 && |s| == 1
    decreases n
  {
    if n < 10 then [DigitChar(n)] else NatToString(n / 10) + [DigitChar(n % 10)]
  }

  /** The value of a string of decimal digits. */
  function DigitsValue(s: string): (v: nat)
    requires AllDigits(s)
  {
    if s == [] then 0 else DigitsValue(s[..|s| - 1]) * 10 + DigitValue(s[|s| - 1])
  }

  lemma {:induction false} NatToStringRoundTrip(n: nat)
    ensures DigitsValue(NatToString(n)) == n
    decreases n
  {
    if n >= 10 {
      var s := NatToString(n);
      assert s[..|s| - 1] == NatToString(n / 10);
      NatToStringRoundTrip(n / 10);
    }
  }

  /** `str(i)` for any Python int: a minus sign before the digits of a negative value. */
  function IntToString(i: int): (s: string)
    ensures |s| > 0
    ensures forall k :: 0 <= k < |s| ==> IsDigit(s[k]) || s[k] == '-'
  {
    if i < 0 then "-" + NatToString(-i) else NatToString(i)
  }

  /** `int(s)` restricted to an optional minus sign followed by decimal digits. */
  function ParseInt(s: string): (r: Option<int>)
  {
    if |s| > 1 && s[0] == '-' && AllDigits(s[1..]) then
      var v: int := DigitsValue(s[1..]);
      Some(-v)
    else if |s| > 0 && AllDigits(s) then Some(DigitsValue(s))
    else None
  }

  lemma IntToStringRoundTrip(i: int)
    ensures ParseInt(IntToString(i)) == Some(i)
  {
    if i < 0 {
      assert IntToString(i)[1..] == NatToString(-i);
      NatToStringRoundTrip(-i);
    } else {
      NatToStringRoundTrip(i);
    }
  }
}
