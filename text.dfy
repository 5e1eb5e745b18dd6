/**
 * Character classes and string helpers that the editor (JavaScript) and
 * the converters (Python) get from their language runtime: JavaScript's
 * `trim`/`\s`, Python's `str.strip`, `split` on one separator, hexadecimal formatting and the "U+XXXX" keys
 * under which overlay glyphs are stored.
 */
module Text {

  /** White space as JavaScript's `String.prototype.trim` and the regular
      expression class `\s` see it (WhiteSpace plus LineTerminator). */
  predicate IsJsSpace(c: char)
  {
    ('\t' <= c <= '\r') || c == ' ' || c == '\U{A0}' || c == '\U{1680}' ||
    ('\U{2000}' <= c <= '\U{200A}') ||
    c == '\U{2028}' || c == '\U{2029}' || c == '\U{202F}' || c == '\U{205F}' ||
    c == '\U{3000}' || c == '\U{FEFF}'
  }

  /** White space as Python's `str.strip()` and `str.split()` see it. */
  predicate IsPySpace(c: char)
  {
    ('\t' <= c <= '\r') || ('\U{1C}' <= c <= ' ') ||
    c == '\U{85}' || c == '\U{A0}' || c == '\U{1680}' ||
    ('\U{2000}' <= c <= '\U{200A}') ||
    c == '\U{2028}' || c == '\U{2029}' || c == '\U{202F}' || c == '\U{205F}' ||
    c == '\U{3000}'
  }

  function TrimStart(s: string): (r: string)
    ensures |r| <= |s|
    ensures r != [] ==> !IsJsSpace(r[0])
  {
    if s != [] && IsJsSpace(s[0]) then TrimStart(s[1..]) else s
  }

  function TrimEnd(s: string): (r: string)
    ensures |r| <= |s|
    ensures r != [] ==> !IsJsSpace(r[|r| - 1])
  {
    if s != [] && IsJsSpace(s[|s| - 1]) then TrimEnd(s[..|s| - 1]) else s
  }

  /** JavaScript's `String.prototype.trim`. */
  function Trim(s: string): string
  {
    TrimEnd(TrimStart(s))
  }

  /** A string with no white space at either end is its own trim. */
  lemma TrimNoSpace(s: string)
    requires s != [] ==> !IsJsSpace(s[0]) && !IsJsSpace(s[|s| - 1])
    ensures Trim(s) == s
  {
  }

  /** A string that is white space throughout (the empty string included). */
  predicate Blank(s: string)
  {
    forall i :: 0 <= i < |s| ==> IsJsSpace(s[i])
  }

  /** `s.trim().length` is zero exactly for blank strings. */
  lemma {:induction false} BlankIffTrimEmpty(s: string)
    ensures Blank(s) <==> Trim(s) == ""
    decreases |s|
  {
    if s != [] && IsJsSpace(s[0]) {
      BlankIffTrimEmpty(s[1..]);
      assert Blank(s) <==> Blank(s[1..]) by {
        if Blank(s[1..]) {
          forall i | 0 <= i < |s| ensures IsJsSpace(s[i]) {
            if i > 0 { assert s[i] == s[1..][i - 1]; }
          }
        }
      }
    } else if s != [] {
      TrimEndKeepsFirst(s);
    }
  }

  lemma {:induction false} TrimEndKeepsFirst(s: string)
    requires s != [] && !IsJsSpace(s[0])
    ensures TrimEnd(s) != []
    decreases |s|
  {
    if |s| > 1 && IsJsSpace(s[|s| - 1]) {
      TrimEndKeepsFirst(s[..|s| - 1]);
    }
  }

  function PyStripStart(s: string): (r: string)
    ensures |r| <= |s|
    ensures r != [] ==> !IsPySpace(r[0])
  {
    if s != [] && IsPySpace(s[0]) then PyStripStart(s[1..]) else s
  }

  function PyStripEnd(s: string): (r: string)
    ensures |r| <= |s|
  {
    if s != [] && IsPySpace(s[|s| - 1]) then PyStripEnd(s[..|s| - 1]) else s
  }

  /** Python's `str.strip()` with no argument. */
  function PyStrip(s: string): string
  {
    PyStripEnd(PyStripStart(s))
  }

  /** `s.split(sep)` for a one-character separator, in JavaScript and
      Python alike: the pieces between separators, empty ones included. */
  function SplitOn(s: string, sep: char): (r: seq<string>)
    ensures |r| >= 1
    ensures forall i :: 0 <= i < |r| ==> sep !in r[i]
  {
    if s == [] then [""]
    else
      var rest := SplitOn(s[1..], sep);
      if s[0] == sep then [""] + rest
      else [[s[0]] + rest[0]] + rest[1..]
  }

  /** Python's `str.split()` with no argument: the maximal runs of
      non-space characters. */
  function PyWords(s: string): (r: seq<string>)
    ensures forall i :: 0 <= i < |r| ==> r[i] != []
    decreases |s|
  {
    var t := PyStripStart(s);
    if t == [] then []
    else
      var n := NonSpaceRun(t);
      [t[..n]] + PyWords(t[n..])
  }

  /** Length of the leading run of non-space characters (at least one when
      the string starts with a non-space character). */
  function NonSpaceRun(s: string): (n: nat)
    ensures n <= |s|
    ensures s != [] && !IsPySpace(s[0]) ==> n >= 1
  {
    if s == [] || IsPySpace(s[0]) then 0 else 1 + NonSpaceRun(s[1..])
  }

  // ---------------------------------------------------------------------
  // Hexadecimal text
  // ---------------------------------------------------------------------

  predicate IsHexDigit(c: char)
  {
    ('0' <= c <= '9') || ('a' <= c <= 'f') || ('A' <= c <= 'F')
  }

  predicate IsUpperHexDigit(c: char)
  {
    ('0' <= c <= '9') || ('A' <= c <= 'F')
  }

  function HexDigitValue(c: char): (v: nat)
    requires IsHexDigit(c)
    ensures v < 16
  {
    if '0' <= c <= '9' then c as int - '0' as int
    else if 'a' <= c <= 'f' then c as int - 'a' as int + 10
    else c as int - 'A' as int + 10
  }

  function UpperHexDigit(d: nat): (c: char)
    requires d < 16
    ensures IsUpperHexDigit(c) && IsHexDigit(c) && HexDigitValue(c) == d
  {
    if d < 10 then ('0' as int + d) as char else ('A' as int + d - 10) as char
  }

  /** Value of a string of hexadecimal digits (most significant first). */
  function HexValue(s: string): nat
    requires forall i :: 0 <= i < |s| ==> IsHexDigit(s[i])
  {
    if s == [] then 0 else HexValue(s[..|s| - 1]) * 16 + HexDigitValue(s[|s| - 1])
  }

  /** `n.toString(16).toUpperCase()` (JavaScript) or `f"{n:X}"` (Python):
      the shortest upper-case hexadecimal numeral of n. */
  function Hex(n: nat): (r: string)
    ensures r != []
    ensures forall i :: 0 <= i < |r| ==> IsUpperHexDigit(r[i]) && IsHexDigit(r[i])
    ensures n < 0x10 ==> |r| == 1
  {
    if n < 16 then [UpperHexDigit(n)] else Hex(n / 16) + [UpperHexDigit(n % 16)]
  }

  /** `s.padStart(k, "0")`: left-pad with zeros up to k characters. */
  function PadZeros(s: string, k: nat): (r: string)
    ensures |r| == if |s| >= k then |s| else k
    ensures r[|r| - |s|..] == s
    ensures forall i :: 0 <= i < |r| - |s| ==> r[i] == '0'
  {
    if |s| >= k then s else seq(k - |s|, _ => '0') + s
  }

  lemma {:induction false} HexRoundTrip(n: nat)
    ensures HexValue(Hex(n)) == n
  {
    if n >= 16 {
      HexRoundTrip(n / 16);
      var h := Hex(n);
      assert h[..|h| - 1] == Hex(n / 16);
    }
  }

  lemma {:induction false} HexShort(n: nat, k: nat)
    requires n < Pow16(k)
    ensures |Hex(n)| <= k || (k == 0 && |Hex(n)| == 1)
  {
    if n >= 16 {
      assert Pow16(0) == 1 && Pow16(1) == 16;
      assert k >= 2;
      assert Pow16(k) == 16 * Pow16(k - 1);
      HexShort(n / 16, k - 1);
    }
  }

  lemma {:induction false} HexLong(n: nat, k: nat)
    requires k >= 1 && n >= Pow16(k)
    ensures |Hex(n)| > k
  {
    assert Pow16(k) == 16 * Pow16(k - 1);
    if k > 1 {
      HexLong(n / 16, k - 1);
    } else {
      assert n >= 16;
    }
  }

  function Pow16(k: nat): (p: nat)
    ensures p >= 1
  {
    if k == 0 then 1 else 16 * Pow16(k - 1)
  }

  /** Leading zeros do not change the value of a hexadecimal numeral. */
  lemma {:induction false} HexValueLeadingZeros(z: nat, s: string)
    requires forall i :: 0 <= i < |s| ==> IsHexDigit(s[i])
    ensures var t := seq(z, _ => '0') + s;
            (forall i :: 0 <= i < |t| ==> IsHexDigit(t[i])) && HexValue(t) == HexValue(s)
  {
    var t := seq(z, _ => '0') + s;
    if s == [] {
      ZerosValue(z);
      assert t == seq(z, _ => '0');
    } else {
      HexValueLeadingZeros(z, s[..|s| - 1]);
      assert t[..|t| - 1] == seq(z, _ => '0') + s[..|s| - 1];
    }
  }

  lemma {:induction false} ZerosValue(z: nat)
    ensures HexValue(seq(z, _ => '0')) == 0
  {
    if z > 0 {
      ZerosValue(z - 1);
      assert seq(z, _ => '0')[..z - 1] == seq(z - 1, _ => '0');
    }
  }

  lemma PadZerosValue(n: nat, k: nat)
    ensures var t := PadZeros(Hex(n), k);
            (forall i :: 0 <= i < |t| ==> IsHexDigit(t[i])) && HexValue(t) == n
  {
    HexRoundTrip(n);
    var h := Hex(n);
    if |h| < k {
      HexValueLeadingZeros(k - |h|, h);
    }
  }

  // ---------------------------------------------------------------------
  // Overlay keys
  // ---------------------------------------------------------------------

  /** The JavaScript key `U+${cp.toString(16).padStart(4, "0").toUpperCase()}`
      under which an overlay font stores the glyph of code point cp. */
  function JsKey(cp: nat): string
  {
    "U+" + PadZeros(Hex(cp), 4)
  }

  /** Python's `f"U+{cp:04X}" if cp <= 0xFFFF else f"U+{cp:06X}"`; for a
      negative cp Python puts the sign inside the padded width. */
  function PyUPlus(cp: int): string
  {
    if cp < 0 then "U+-" + PadZeros(Hex(-cp), 3)
    else if cp <= 0xFFFF then "U+" + PadZeros(Hex(cp), 4)
    else "U+" + PadZeros(Hex(cp), 6)
  }

  /** Inside the Basic Multilingual Plane both spellings agree. */
  lemma JsKeyIsPyUPlus(cp: nat)
    requires cp <= 0xFFFF
    ensures JsKey(cp) == PyUPlus(cp)
  {
  }

  /** Keys of code points up to 0xFFFF are "U+" and exactly four upper-case
      hexadecimal digits; above that they are longer. */
  lemma JsKeyShape(cp: nat)
    ensures cp <= 0xFFFF <==> |JsKey(cp)| == 6
    ensures forall i :: 2 <= i < |JsKey(cp)| ==> IsUpperHexDigit(JsKey(cp)[i])
  {
    if cp <= 0xFFFF {
      HexShort(cp, 4);
    } else {
      HexLong(cp, 4);
    }
  }

  /** `_uplus`/`uplus`: four digits up to 0xFFFF, six up to 0xFFFFFF, the
      full numeral beyond; always upper case. */
  lemma PyUPlusShape(cp: int)
    ensures 0 <= cp <= 0xFFFF ==> |PyUPlus(cp)| == 6
    ensures 0xFFFF < cp <= 0xFFFFFF ==> |PyUPlus(cp)| == 8
    ensures cp > 0xFFFFFF ==> |PyUPlus(cp)| > 8
    ensures cp >= 0 ==> forall i :: 2 <= i < |PyUPlus(cp)| ==> IsUpperHexDigit(PyUPlus(cp)[i])
  {
    if 0 <= cp <= 0xFFFF {
      HexShort(cp, 4);
    } else if 0xFFFF < cp <= 0xFFFFFF {
      HexShort(cp, 6);
      HexLong(cp, 4);
    } else if cp > 0xFFFFFF {
      HexLong(cp, 6);
    }
  }

  predicate AllHex(s: string)
  {
    forall i :: 0 <= i < |s| ==> IsHexDigit(s[i])
  }

  /** Reads a key back; the inverse of PyUPlus (and of JsKey). */
  function ParseUPlus(k: string): int
  {
    if |k| >= 3 && k[2] == '-' then
      (if AllHex(k[3..]) then -(HexValue(k[3..]) as int) else 0)
    else if |k| >= 2 && AllHex(k[2..]) then HexValue(k[2..])
    else 0
  }

  lemma ParseUnsignedKey(n: nat, width: nat)
    ensures ParseUPlus("U+" + PadZeros(Hex(n), width)) == n
  {
    var t := PadZeros(Hex(n), width);
    PadZerosValue(n, width);
    assert AllHex(t) && |t| >= 1;
    assert t[0] != '-';
    var k := "U+" + t;
    assert k[2..] == t && k[2] == t[0];
  }

  lemma ParseNegativeKey(n: nat)
    ensures ParseUPlus("U+-" + PadZeros(Hex(n), 3)) == -(n as int)
  {
    var t := PadZeros(Hex(n), 3);
    var k := "U+-" + t;
    PadZerosValue(n, 3);
    assert k[3..] == t;
  }

  lemma UPlusRoundTrip(cp: int)
    ensures ParseUPlus(PyUPlus(cp)) == cp
  {
    if cp < 0 {
      ParseNegativeKey(-cp);
    } else if cp <= 0xFFFF {
      ParseUnsignedKey(cp, 4);
    } else {
      ParseUnsignedKey(cp, 6);
    }
  }

  /** Distinct code points never share a key. */
  lemma UPlusInjective(a: int, b: int)
    requires PyUPlus(a) == PyUPlus(b)
    ensures a == b
  {
    UPlusRoundTrip(a);
    UPlusRoundTrip(b);
  }

  lemma JsKeyInjective(a: nat, b: nat)
    requires JsKey(a) == JsKey(b)
    ensures a == b
  {
    var ka, kb := JsKey(a), JsKey(b);
    PadZerosValue(a, 4);
    PadZerosValue(b, 4);
    assert ka[2..] == PadZeros(Hex(a), 4);
    assert kb[2..] == PadZeros(Hex(b), 4);
  }
}
