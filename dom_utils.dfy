/**
 * The two string helpers of js/modules/dom-utils.js that the editor uses
 * outside the DOM: `clampInt`, which parses its argument the way
 * `parseInt(v, 10)` does and clamps it, and `escapeHtml`.
 */
module DomUtils {
  import opened Wrappers
  import opened Text

  // ---------------------------------------------------------------------
  // Decimal text

  predicate IsDigit(c: char) { '0' <= c <= '9' }

  function DigitValue(c: char): (v: nat)
    requires IsDigit(c)
    ensures v < 10
  {
    c as int - '0' as int
  }

  function DigitChar(d: nat): (c: char)
    requires d < 10
    ensures IsDigit(c) && DigitValue(c) == d
  {
    ('0' as int + d) as char
  }

  /** Length of the run of decimal digits that starts s. */
  function DigitRun(s: string): (n: nat)
    ensures n <= |s|
    ensures forall i :: 0 <= i < n ==> IsDigit(s[i])
    ensures n < |s| ==> !IsDigit(s[n])
  {
    if s != [] && IsDigit(s[0]) then 1 + DigitRun(s[1..]) else 0
  }

  /** The number a string of decimal digits denotes. */
  function DecValue(s: string): nat
    requires forall i :: 0 <= i < |s| ==> IsDigit(s[i])
  {
    if s == [] then 0 else 10 * DecValue(s[..|s| - 1]) + DigitValue(s[|s| - 1])
  }

  /** `parseInt(s, 10)`: optional leading white space, an optional sign,
      then the longest run of decimal digits; NaN (None) when that run is
      empty. Whatever follows the digits is ignored. */
  function ParseInt(s: string): (r: Option<int>)
    ensures r.None? <==> DigitRun(UnsignedPart(TrimStart(s))) == 0
  {
    var t := TrimStart(s);
    var u := UnsignedPart(t);
    var n := DigitRun(u);
    if n == 0 then None
    else
      var v: int := DecValue(u[..n]);
      Some(if t != [] && t[0] == '-' then -v else v)
  }

  /** The text after an optional leading sign. */
  function UnsignedPart(t: string): (u: string)
    ensures |u| <= |t|
  {
    if t != [] && (t[0] == '-' || t[0] == '+') then t[1..] else t
  }

  /** Decimal digits of n without leading zeros. */
  function NatToDec(n: nat): (s: string)
    ensures s != [] && forall i :: 0 <= i < |s| ==> IsDigit(s[i])
    decreases n
  {
    if n < 10 then [DigitChar(n)] else NatToDec(n / 10) + [DigitChar(n % 10)]
  }

  /** `String(n)` for an integer n. */
  function IntToString(n: int): string
  {
    if n < 0 then "-" + NatToDec(-n) else NatToDec(n)
  }

  lemma {:induction false} NatToDecValue(n: nat)
    ensures DecValue(NatToDec(n)) == n
    decreases n
  {
    if n >= 10 {
      NatToDecValue(n / 10);
      var s := NatToDec(n);
      assert s[..|s| - 1] == NatToDec(n / 10);
    }
  }

  /** `parseInt(String(n), 10)` gives back the integer n. */
  lemma ParseIntToString(n: int)
    ensures ParseInt(IntToString(n)) == Some(n)
  {
    var m: nat := if n < 0 then -n else n;
    var d := NatToDec(m);
    NatToDecValue(m);
    assert DigitRun(d) == |d|;
    assert d[..|d|] == d;
    if n < 0 {
      var s := IntToString(n);
      assert TrimStart(s) == s;
      assert UnsignedPart(s) == d;
    } else {
      assert !IsJsSpace(d[0]);
      assert TrimStart(d) == d;
    }
  }

  // ---------------------------------------------------------------------
  // clampInt

  /** `Math.max(lo, Math.min(hi, n))`. */
  function Clamp(n: int, lo: int, hi: int): (r: int)
    ensures lo <= hi ==> lo <= r <= hi
    ensures lo <= n <= hi ==> r == n
    ensures lo <= hi && n < lo ==> r == lo
    ensures lo <= hi && n > hi ==> r == hi
  {
    if hi < n then (if lo < hi then hi else lo)
    else if lo < n then n
    else lo
  }

  /** `clampInt(v, lo, hi)` with v given as the text `String(v)`:
      unparsable text counts as 0. */
  function ClampInt(v: string, lo: int, hi: int): (r: int)
    ensures lo <= hi ==> lo <= r <= hi
    ensures ParseInt(v).None? ==> r == Clamp(0, lo, hi)
    ensures ParseInt(v).Some? ==> r == Clamp(ParseInt(v).value, lo, hi)
  {
    match ParseInt(v)
    case None => Clamp(0, lo, hi)
    case Some(n) => Clamp(n, lo, hi)
  }

  /** For an integer argument clampInt is plain clamping; an integer
      already within range comes back unchanged. */
  lemma ClampIntOfInt(n: int, lo: int, hi: int)
    ensures ClampInt(IntToString(n), lo, hi) == Clamp(n, lo, hi)
    ensures lo <= n <= hi ==> ClampInt(IntToString(n), lo, hi) == n
  {
    ParseIntToString(n);
  }

  // ---------------------------------------------------------------------
  // escapeHtml

  /** The replacement for one character. */
  function EscapeChar(c: char): (r: string)
    ensures r != []
  {
    match c
    case '&' => "&amp;"
    case '<' => "&lt;"
    case '>' => "&gt;"
    case '"' => "&quot;"
    case '\'' => "&#39;"
    case _ => [c]
  }

  /** `escapeHtml(s)` for the text `String(s)`. */
  function EscapeHtml(s: string): string
  {
    if s == [] then [] else EscapeChar(s[0]) + EscapeHtml(s[1..])
  }

  predicate Unsafe(c: char) { c == '<' || c == '>' || c == '"' || c == '\'' }

  /** No markup-significant character survives escaping. */
  lemma {:induction false} EscapeHtmlSafe(s: string)
    ensures forall i :: 0 <= i < |EscapeHtml(s)| ==> !Unsafe(EscapeHtml(s)[i])
    decreases |s|
  {
    if s != [] {
      EscapeHtmlSafe(s[1..]);
      var e, rest := EscapeChar(s[0]), EscapeHtml(s[1..]);
      assert EscapeHtml(s) == e + rest;
      assert forall i :: 0 <= i < |e| ==> !Unsafe(e[i]);
    }
  }

  /** Decoding the five entities, the inverse of escaping. */
  function Unescape(t: string): string
    decreases |t|
  {
    if t == [] then []
    else if t[0] != '&' then [t[0]] + Unescape(t[1..])
    else if |t| >= 5 && t[..5] == "&amp;" then "&" + Unescape(t[5..])
    else if |t| >= 4 && t[..4] == "&lt;" then "<" + Unescape(t[4..])
    else if |t| >= 4 && t[..4] == "&gt;" then ">" + Unescape(t[4..])
    else if |t| >= 6 && t[..6] == "&quot;" then "\"" + Unescape(t[6..])
    else if |t| >= 5 && t[..5] == "&#39;" then "'" + Unescape(t[5..])
    else [t[0]] + Unescape(t[1..])
  }

  lemma UnescapeChar(c: char, rest: string)
    ensures Unescape(EscapeChar(c) + rest) == [c] + Unescape(rest)
  {
    var t := EscapeChar(c) + rest;
    if c == '&' {
      assert t[..5] == "&amp;" && t[5..] == rest;
    } else if c == '<' {
      assert t[..4] == "&lt;" && t[4..] == rest;
    } else if c == '>' {
      assert t[..4] == "&gt;" && t[4..] == rest;
    } else if c == '"' {
      assert t[..6] == "&quot;" && t[6..] == rest;
    } else if c == '\'' {
      assert t[..5] == "&#39;" && t[5..] == rest;
    } else {
      assert t[0] == c && t[1..] == rest;
    }
  }

  /** Escaping loses nothing: unescaping gives the original text back. */
  lemma {:induction false} EscapeRoundTrip(s: string)
    ensures Unescape(EscapeHtml(s)) == s
    decreases |s|
  {
    if s != [] {
      EscapeRoundTrip(s[1..]);
      UnescapeChar(s[0], EscapeHtml(s[1..]));
      assert [s[0]] + s[1..] == s;
    }
  }

  /** Every character other than the five special ones is copied. */
  lemma EscapeKeeps(c: char)
    requires c != '&' && !Unsafe(c)
    ensures EscapeHtml([c]) == [c]
  {
  }
}
