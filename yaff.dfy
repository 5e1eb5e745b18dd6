/**
 * The YAFF importer (js/modules/yaff.js): YAFF is a plain-text bitmap
 * font format in which a glyph is one or more label lines ending in ':'
 * followed by indented rows of '.' (paper) and '@' (ink). The importer
 * collects the glyph blocks, reads their labels as code points and turns
 * each glyph into a centred overlay glyph with one bitmask per row.
 */
module Yaff {
  import opened Wrappers
  import opened Text
  import opened Bits
  import opened Glyph
  import opened Raster
  import opened DomUtils

  // ---------------------------------------------------------------------
  // rowToBits

  function InkBit(c: char): nat
  {
    if c == '@' then 1 else 0
  }

  /** The row read as a binary numeral, '@' being 1 and the first
      character the most significant digit. */
  function RowValue(row: string): (v: nat)
    ensures v < Pow2(|row|)
  {
    if row == [] then 0 else 2 * RowValue(row[..|row| - 1]) + InkBit(row[|row| - 1])
  }

  /** What `rowToBits` returns: `value <<= 1` and `value |= 1` work on
      32-bit integers and `value >>> 0` reads the result unsigned, so the
      result is the numeral modulo 2^32. */
  function RowBits(row: string): nat
  {
    U32(RowValue(row))
  }

  lemma ModAddMultiple(x: nat, k: nat)
    ensures (x + TwoTo32 * k) % TwoTo32 == x % TwoTo32
  {
    LinearMod(x + TwoTo32 * k, TwoTo32, x / TwoTo32 + k, x % TwoTo32);
  }

  /** Shifting in one more bit commutes with the 32-bit reduction. */
  lemma ShiftInMod(a: nat, b: nat)
    ensures U32(2 * U32(a) + b) == U32(2 * a + b)
  {
    var q, r := a / TwoTo32, a % TwoTo32;
    assert 2 * a + b == (2 * r + b) + TwoTo32 * (2 * q);
    ModAddMultiple(2 * r + b, 2 * q);
  }

  /** `rowToBits`. */
  method RowToBits(row: string) returns (v: nat)
    ensures v == RowBits(row)
  {
    v := 0;
    for i := 0 to |row|
      invariant v == U32(RowValue(row[..i]))
    {
      assert row[..i + 1][..i] == row[..i];
      ShiftInMod(RowValue(row[..i]), InkBit(row[i]));
      var bit := if row[i] == '@' then 1 else 0;
      v := U32(2 * v + bit);
    }
    assert row[..|row|] == row;
  }

  /** Bit |row|-1-i of the numeral is set exactly when character i is ink. */
  lemma {:induction false} RowValueBit(row: string, i: int)
    requires 0 <= i < |row|
    ensures Bit(RowValue(row), |row| - 1 - i) <==> row[i] == '@'
    decreases |row|
  {
    var front := row[..|row| - 1];
    if i < |row| - 1 {
      BitShiftIn(RowValue(front), InkBit(row[|row| - 1]), |row| - 2 - i);
      RowValueBit(front, i);
      assert front[i] == row[i];
    } else {
      BitShiftIn(RowValue(front), InkBit(row[|row| - 1]), 0);
    }
  }

  /** For rows of at most 32 characters the mask keeps every character:
      bit |row|-1-i is set exactly when row[i] is '@', and no bit at
      |row| or above is set. */
  lemma RowBitsAt(row: string, i: int)
    requires |row| <= 32 && 0 <= i < |row|
    ensures Bit(RowBits(row), |row| - 1 - i) <==> row[i] == '@'
  {
    RowValueBit(row, i);
    U32Bit(RowValue(row), |row| - 1 - i);
  }

  // ---------------------------------------------------------------------
  // parseLabelCodepoints

  predicate IsAsciiDigit(c: char) { '0' <= c <= '9' }

  predicate AllDigits(s: string)
  {
    forall i :: 0 <= i < |s| ==> IsAsciiDigit(s[i])
  }

  /** `u+` followed by hexadecimal digits, in either case
      (`/^u\+([0-9a-f]+)$/i`). */
  predicate IsUPlusToken(t: string)
  {
    |t| >= 3 && (t[0] == 'u' || t[0] == 'U') && t[1] == '+' && AllHex(t[2..])
  }

  /** `0x` followed by hexadecimal digits, or decimal digits
      (`0x[0-9a-f]+|\d+`, case-insensitive). */
  predicate IsNumToken(t: string)
  {
    (|t| >= 3 && t[0] == '0' && (t[1] == 'x' || t[1] == 'X') && AllHex(t[2..])) ||
    (|t| >= 1 && AllDigits(t))
  }

  /** `parseInt(t, 0)` of a numeric token: hexadecimal after `0x`,
      decimal otherwise. */
  function NumTokenValue(t: string): nat
    requires IsNumToken(t)
  {
    if |t| >= 3 && t[0] == '0' && (t[1] == 'x' || t[1] == 'X') && AllHex(t[2..]) then HexValue(t[2..])
    else DecValue(t)
  }

  /** The u+ branch: every well-formed part gives its hexadecimal value,
      a malformed part gives nothing. */
  function UPlusValues(parts: seq<string>): (r: seq<nat>)
    ensures |r| <= |parts|
  {
    if parts == [] then []
    else
      var t := Trim(parts[0]);
      (if IsUPlusToken(t) then [HexValue(t[2..])] else []) + UPlusValues(parts[1..])
  }

  lemma NatAppendAssoc(a: seq<nat>, b: seq<nat>, c: seq<nat>)
    ensures a + (b + c) == (a + b) + c
  {
  }

  /** Reading a list in two pieces reads each piece in turn. */
  lemma {:induction false} UPlusValuesAppend(a: seq<string>, b: seq<string>)
    ensures UPlusValues(a + b) == UPlusValues(a) + UPlusValues(b)
    decreases |a|
  {
    if a == [] {
      assert a + b == b;
    } else {
      assert (a + b)[0] == a[0];
      assert (a + b)[1..] == a[1..] + b;
      UPlusValuesAppend(a[1..], b);
      var t := Trim(a[0]);
      var x: seq<nat> := if IsUPlusToken(t) then [HexValue(t[2..])] else [];
      NatAppendAssoc(x, UPlusValues(a[1..]), UPlusValues(b));
    }
  }

  /** The positions of the well-formed `u+hex` parts of a list, in
      increasing order. */
  function UPlusParts(parts: seq<string>): (ix: seq<nat>)
    ensures forall j :: 0 <= j < |ix| ==> ix[j] < |parts| && IsUPlusToken(Trim(parts[ix[j]]))
  {
    if parts == [] then []
    else
      var front := UPlusParts(parts[..|parts| - 1]);
      assert forall j :: 0 <= j < |front| ==> parts[front[j]] == parts[..|parts| - 1][front[j]];
      if IsUPlusToken(Trim(parts[|parts| - 1])) then front + [|parts| - 1] else front
  }

  /** The listed positions increase, so each part is listed at most once
      and in the order of the list. */
  lemma {:induction false} UPlusPartsSorted(parts: seq<string>)
    ensures forall j, k :: 0 <= j < k < |UPlusParts(parts)| ==> UPlusParts(parts)[j] < UPlusParts(parts)[k]
    decreases |parts|
  {
    if parts != [] {
      var n := |parts| - 1;
      var fx := UPlusParts(parts[..n]);
      UPlusPartsSorted(parts[..n]);
      var ix := UPlusParts(parts);
      if IsUPlusToken(Trim(parts[n])) {
        assert ix == fx + [n];
        forall j, k | 0 <= j < k < |ix|
          ensures ix[j] < ix[k]
        {
          assert ix[j] == fx[j];
          if k < |fx| {
            assert ix[k] == fx[k];
          }
        }
      }
    }
  }

  /** Every well-formed part is listed. */
  lemma {:induction false} UPlusPartsComplete(parts: seq<string>)
    ensures forall i :: 0 <= i < |parts| && IsUPlusToken(Trim(parts[i])) ==> i in UPlusParts(parts)
    decreases |parts|
  {
    if parts != [] {
      var n := |parts| - 1;
      var front := parts[..n];
      var fx := UPlusParts(front);
      UPlusPartsComplete(front);
      var ix := UPlusParts(parts);
      forall i | 0 <= i < |parts| && IsUPlusToken(Trim(parts[i]))
        ensures i in ix
      {
        if i < n {
          assert front[i] == parts[i];
          assert i in fx;
        } else {
          assert ix == fx + [n];
          assert ix[|fx|] == n;
        }
      }
    }
  }

  /** The u+ branch yields the value of each well-formed part, in the
      order the parts appear. */
  lemma {:induction false} UPlusValuesAt(parts: seq<string>)
    ensures |UPlusValues(parts)| == |UPlusParts(parts)|
    ensures forall j :: 0 <= j < |UPlusParts(parts)| ==>
      UPlusValues(parts)[j] == HexValue(Trim(parts[UPlusParts(parts)[j]])[2..])
    decreases |parts|
  {
    if parts != [] {
      var n := |parts| - 1;
      var front := parts[..n];
      assert parts == front + [parts[n]];
      UPlusValuesAppend(front, [parts[n]]);
      UPlusValuesAt(front);
      var ix := UPlusParts(front);
      assert [parts[n]][1..] == [];
      forall j | 0 <= j < |ix|
        ensures parts[ix[j]] == front[ix[j]]
      {
      }
    }
  }

  /** The numeric branch reads every part. */
  lemma {:induction false} NumValuesAt(parts: seq<string>)
    requires forall i :: 0 <= i < |parts| ==> IsNumToken(Trim(parts[i]))
    ensures forall i :: 0 <= i < |parts| ==> NumValues(parts)[i] == NumTokenValue(Trim(parts[i]))
    decreases |parts|
  {
    if parts != [] {
      NumValuesAt(parts[1..]);
      forall i | 1 <= i < |parts|
        ensures NumValues(parts)[i] == NumTokenValue(Trim(parts[i]))
      {
        assert NumValues(parts)[i] == NumValues(parts[1..])[i - 1];
        assert parts[1..][i - 1] == parts[i];
      }
    }
  }

  function NumValues(parts: seq<string>): (r: seq<nat>)
    requires forall i :: 0 <= i < |parts| ==> IsNumToken(Trim(parts[i]))
    ensures |r| == |parts|
  {
    if parts == [] then [] else [NumTokenValue(Trim(parts[0]))] + NumValues(parts[1..])
  }

  /** The label starts with `u+` in either case (`/^u\+/i`). */
  predicate StartsUPlus(s: string)
  {
    |s| >= 2 && (s[0] == 'u' || s[0] == 'U') && s[1] == '+'
  }

  /** `parseLabelCodepoints`: the code points a glyph label names. A list of
      `u+hex` parts keeps the well-formed ones; a list of numbers (decimal
      or `0x` hexadecimal) separated by commas is read whole; anything else
      (tag labels, names) names no code point. */
  function ParseLabelCodepoints(labelLine: string): (r: seq<nat>)
    ensures StartsUPlus(Trim(labelLine)) ==> |r| <= |SplitOn(Trim(labelLine), ',')|
    ensures Trim(labelLine) == [] ==> r == []
    ensures !StartsUPlus(Trim(labelLine)) &&
      (exists i :: 0 <= i < |SplitOn(Trim(labelLine), ',')| && !IsNumToken(Trim(SplitOn(Trim(labelLine), ',')[i])))
      ==> r == []
  {
    var t := Trim(labelLine);
    var parts := SplitOn(t, ',');
    if t == [] then []
    else if StartsUPlus(t) then UPlusValues(parts)
    else if (forall i :: 0 <= i < |parts| ==> IsNumToken(Trim(parts[i]))) then NumValues(parts)
    else []
  }

  /** A label starting with `u+` names the values of exactly its
      well-formed `u+hex` parts, in order; malformed parts are skipped. */
  lemma UPlusLabel(labelLine: string)
    requires StartsUPlus(Trim(labelLine))
    ensures var parts := SplitOn(Trim(labelLine), ',');
      |ParseLabelCodepoints(labelLine)| == |UPlusParts(parts)|
    ensures var parts := SplitOn(Trim(labelLine), ',');
      forall j :: 0 <= j < |UPlusParts(parts)| ==>
        ParseLabelCodepoints(labelLine)[j] == HexValue(Trim(parts[UPlusParts(parts)[j]])[2..])
  {
    UPlusValuesAt(SplitOn(Trim(labelLine), ','));
  }

  /** A comma-separated list of numbers names every one of them, in
      order: `0x` parts in hexadecimal, the others in decimal. */
  lemma NumLabel(labelLine: string)
    requires Trim(labelLine) != [] && !StartsUPlus(Trim(labelLine))
    requires forall i :: 0 <= i < |SplitOn(Trim(labelLine), ',')| ==> IsNumToken(Trim(SplitOn(Trim(labelLine), ',')[i]))
    ensures var parts := SplitOn(Trim(labelLine), ',');
      |ParseLabelCodepoints(labelLine)| == |parts|
    ensures var parts := SplitOn(Trim(labelLine), ',');
      forall i :: 0 <= i < |parts| ==> ParseLabelCodepoints(labelLine)[i] == NumTokenValue(Trim(parts[i]))
  {
    NumValuesAt(SplitOn(Trim(labelLine), ','));
  }

  /** A label with no comma is one part. */
  lemma {:induction false} SplitNoComma(s: string)
    requires ',' !in s
    ensures SplitOn(s, ',') == [s]
    decreases |s|
  {
    if s != [] {
      assert ',' !in s[1..];
      SplitNoComma(s[1..]);
      assert [s[0]] + s[1..] == s;
    }
  }

  lemma TrimPlain(s: string)
    requires forall i :: 0 <= i < |s| ==> !IsJsSpace(s[i])
    ensures Trim(s) == s
  {
  }

  lemma UpperHexPlain(c: char)
    requires IsUpperHexDigit(c)
    ensures !IsJsSpace(c) && c != ','
  {
  }

  /** A key holds no space and no comma. */
  lemma KeyPlain(cp: nat)
    ensures forall i :: 0 <= i < |JsKey(cp)| ==> !IsJsSpace(JsKey(cp)[i]) && JsKey(cp)[i] != ','
  {
    var k := JsKey(cp);
    JsKeyShape(cp);
    forall i | 0 <= i < |k|
      ensures !IsJsSpace(k[i]) && k[i] != ','
    {
      if i >= 2 {
        UpperHexPlain(k[i]);
      } else {
        assert k[i] == 'U' || k[i] == '+';
      }
    }
  }

  /** The key an overlay font uses reads back as its code point. */
  lemma KeyLabelRoundTrip(cp: nat)
    ensures ParseLabelCodepoints(JsKey(cp)) == [cp]
  {
    var k := JsKey(cp);
    KeyPlain(cp);
    TrimPlain(k);
    SplitNoComma(k);
    PadZerosValue(cp, 4);
    assert k[2..] == PadZeros(Hex(cp), 4);
    assert IsUPlusToken(k);
  }

  /** The prefix may also be written `u+`: the key with a lower-case `u`
      reads back as the same code point. */
  lemma LowerKeyLabelRoundTrip(cp: nat)
    ensures ParseLabelCodepoints(['u'] + JsKey(cp)[1..]) == [cp]
  {
    var k := JsKey(cp);
    var l := ['u'] + k[1..];
    KeyPlain(cp);
    JsKeyShape(cp);
    forall i | 0 <= i < |l|
      ensures !IsJsSpace(l[i]) && l[i] != ','
    {
      if i > 0 {
        assert l[i] == k[i];
      }
    }
    TrimPlain(l);
    SplitNoComma(l);
    PadZerosValue(cp, 4);
    assert l[2..] == k[2..] == PadZeros(Hex(cp), 4);
    assert IsUPlusToken(l);
  }

  lemma DigitPlain(c: char)
    requires IsDigit(c)
    ensures IsAsciiDigit(c) && !IsJsSpace(c) && c != ','
  {
  }

  /** A decimal label reads back as its number. */
  lemma DecimalLabelRoundTrip(n: nat)
    ensures ParseLabelCodepoints(NatToDec(n)) == [n]
  {
    var d := NatToDec(n);
    NatToDecValue(n);
    forall i | 0 <= i < |d|
      ensures IsAsciiDigit(d[i]) && !IsJsSpace(d[i]) && d[i] != ','
    {
      DigitPlain(d[i]);
    }
    TrimPlain(d);
    SplitNoComma(d);
    assert !StartsUPlus(d);
  }

  // ---------------------------------------------------------------------
  // extractGlyphDefs: lines

  /** A leading byte-order mark is dropped (`replace(/^\uFEFF/, "")`). */
  function StripBom(s: string): (r: string)
    ensures |r| <= |s|
  {
    if |s| > 0 && s[0] == '\U{FEFF}' then s[1..] else s
  }

  /** Every "\r\n" and every lone "\r" becomes "\n" (`replace(/\r\n?/g, "\n")`). */
  function NormalizeNewlines(s: string): (r: string)
    ensures '\r' !in r
    ensures |r| <= |s|
    decreases |s|
  {
    if s == [] then []
    else if s[0] == '\r' && |s| >= 2 && s[1] == '\n' then "\n" + NormalizeNewlines(s[2..])
    else if s[0] == '\r' then "\n" + NormalizeNewlines(s[1..])
    else [s[0]] + NormalizeNewlines(s[1..])
  }

  /** The lines `extractGlyphDefs` walks through. */
  function Lines(text: string): (r: seq<string>)
    ensures |r| >= 1
    ensures forall k :: 0 <= k < |r| ==> '\n' !in r[k]
  {
    SplitOn(NormalizeNewlines(StripBom(text)), '\n')
  }

  // ---------------------------------------------------------------------
  // extractGlyphDefs: line classes

  /** `/^\s/`: the line starts with white space. */
  predicate Indented(line: string)
  {
    |line| > 0 && IsJsSpace(line[0])
  }

  /** `/:\s*$/`: the last character that is not white space is a colon. */
  predicate EndsColon(line: string)
  {
    var t := TrimEnd(line);
    |t| > 0 && t[|t| - 1] == ':'
  }

  /** A label line: not indented and ending in a colon. */
  predicate IsLabelLine(line: string)
  {
    !Indented(line) && EndsColon(line)
  }

  /** `l.replace(/:\s*$/, "").trim()`: the label without its colon. */
  function LabelText(line: string): string
  {
    var t := TrimEnd(line);
    Trim(if |t| > 0 && t[|t| - 1] == ':' then t[..|t| - 1] else t)
  }

  predicate IsNameChar(c: char)
  {
    ('A' <= c <= 'Z') || ('a' <= c <= 'z') || ('0' <= c <= '9') || c == '_' || c == '.' || c == '-'
  }

  /** Length of the run of name characters at the start of s. */
  function NameRun(s: string): (n: nat)
    ensures n <= |s|
  {
    if s != [] && IsNameChar(s[0]) then 1 + NameRun(s[1..]) else 0
  }

  /** Length of the run of white space at the start of s. */
  function SpaceRun(s: string): (n: nat)
    ensures n <= |s|
    ensures n < |s| ==> !IsJsSpace(s[n])
  {
    if s != [] && IsJsSpace(s[0]) then 1 + SpaceRun(s[1..]) else 0
  }

  /** `/^[A-Za-z0-9_.-]+\s*:\s+\S/`: a name, optional white space, a
      colon, white space and then something that is not white space. The
      name run and the white space runs are maximal because neither a
      colon nor white space is a name character. */
  predicate IsPropertyText(t: string)
  {
    var n := NameRun(t);
    n >= 1 &&
    var m := n + SpaceRun(t[n..]);
    m < |t| && t[m] == ':' &&
    var k := SpaceRun(t[m + 1..]);
    k >= 1 && m + 1 + k < |t|
  }

  /** The lines the scan steps over: blank, a comment, or an unindented
      property. */
  predicate Skipped(line: string)
  {
    var t := Trim(line);
    t == [] || t[0] == '#' || (IsPropertyText(t) && !Indented(line))
  }

  // ---------------------------------------------------------------------
  // extractGlyphDefs: blocks

  /** A glyph definition as `extractGlyphDefs` collects it. */
  datatype GlyphDef = GlyphDef(labels: seq<string>, rows: seq<string>, width: int, height: int)

  /** The end of the run of label lines that starts at i. */
  function LabelEnd(lines: seq<string>, i: int): (j: int)
    requires 0 <= i <= |lines|
    ensures i <= j <= |lines|
    ensures i < |lines| && IsLabelLine(lines[i]) ==> i < j
    ensures j < |lines| ==> !IsLabelLine(lines[j])
    decreases |lines| - i
  {
    if i < |lines| && IsLabelLine(lines[i]) then LabelEnd(lines, i + 1) else i
  }

  /** The end of the run of indented lines that starts at i. */
  function RowsEnd(lines: seq<string>, i: int): (j: int)
    requires 0 <= i <= |lines|
    ensures i <= j <= |lines|
    ensures j < |lines| ==> !Indented(lines[j])
    decreases |lines| - i
  {
    if i < |lines| && Indented(lines[i]) then RowsEnd(lines, i + 1) else i
  }

  /** The labels of lines i..j. */
  function LabelTexts(lines: seq<string>, i: int, j: int): (r: seq<string>)
    requires 0 <= i <= j <= |lines|
    ensures |r| == j - i
    decreases j - i
  {
    if j == i then [] else LabelTexts(lines, i, j - 1) + [LabelText(lines[j - 1])]
  }

  /** The trimmed non-blank lines among lines i..j. */
  function BlockRows(lines: seq<string>, i: int, j: int): (r: seq<string>)
    requires 0 <= i <= j <= |lines|
    ensures |r| <= j - i
    decreases j - i
  {
    if j == i then []
    else BlockRows(lines, i, j - 1) + (if Trim(lines[j - 1]) != [] then [Trim(lines[j - 1])] else [])
  }

  /** `/^[.@]+$/`. */
  predicate IsRowText(r: string)
  {
    |r| >= 1 && forall c :: 0 <= c < |r| ==> r[c] == '.' || r[c] == '@'
  }

  /** The checks a block's rows pass before it becomes a definition: at
      least one row, not the empty-glyph marker "-", only '.' and '@', and
      every row as long as the first. */
  predicate Accepted(rows: seq<string>)
  {
    |rows| >= 1 && rows != ["-"] &&
    (forall k :: 0 <= k < |rows| ==> IsRowText(rows[k])) &&
    (forall k :: 0 <= k < |rows| ==> |rows[k]| == |rows[0]|)
  }

  /** What a collected definition satisfies. */
  predicate DefOk(d: GlyphDef)
  {
    |d.labels| >= 1 && d.height == |d.rows| >= 1 && d.width >= 1 &&
    forall k :: 0 <= k < |d.rows| ==> IsRowText(d.rows[k]) && |d.rows[k]| == d.width
  }

  /** The definitions found from line i on: every block of label lines
      followed by indented rows that pass the checks, in file order. */
  function Scan(lines: seq<string>, i: int): (r: seq<GlyphDef>)
    requires 0 <= i <= |lines|
    ensures forall k :: 0 <= k < |r| ==> DefOk(r[k])
    decreases |lines| - i
  {
    if i == |lines| then []
    else if Skipped(lines[i]) then Scan(lines, i + 1)
    else if IsLabelLine(lines[i]) then
      var j := LabelEnd(lines, i);
      var k := RowsEnd(lines, j);
      var rows := BlockRows(lines, j, k);
      (if Accepted(rows) then [GlyphDef(LabelTexts(lines, i, j), rows, |rows[0]|, |rows|)] else []) +
      Scan(lines, k)
    else Scan(lines, i + 1)
  }

  /** The definitions of a YAFF text. */
  function GlyphDefs(text: string): (r: seq<GlyphDef>)
    ensures forall k :: 0 <= k < |r| ==> DefOk(r[k])
  {
    Scan(Lines(text), 0)
  }

  /** The row checks of `extractGlyphDefs`. */
  method CheckRows(rows: seq<string>) returns (ok: bool)
    ensures ok == Accepted(rows)
  {
    if |rows| == 0 || rows == ["-"] {
      return false;
    }
    for k := 0 to |rows|
      invariant forall m :: 0 <= m < k ==> IsRowText(rows[m])
    {
      if !IsRowText(rows[k]) {
        return false;
      }
    }
    var width := |rows[0]|;
    for k := 0 to |rows|
      invariant forall m :: 0 <= m < k ==> |rows[m]| == width
    {
      if |rows[k]| != width {
        return false;
      }
    }
    return true;
  }

  /** The label loop of `extractGlyphDefs`: collect the run of label
      lines starting at i. */
  method ReadLabels(lines: seq<string>, i0: int) returns (labels: seq<string>, i: int)
    requires 0 <= i0 <= |lines|
    ensures i == LabelEnd(lines, i0)
    ensures labels == LabelTexts(lines, i0, i)
  {
    i := i0;
    labels := [];
    while i < |lines| && IsLabelLine(lines[i])
      invariant i0 <= i <= |lines|
      invariant LabelEnd(lines, i) == LabelEnd(lines, i0)
      invariant labels == LabelTexts(lines, i0, i)
      decreases |lines| - i
    {
      labels := labels + [LabelText(lines[i])];
      i := i + 1;
    }
  }

  /** The row loop of `extractGlyphDefs`: collect the trimmed non-blank
      lines of the run of indented lines starting at i. */
  method ReadRows(lines: seq<string>, i0: int) returns (rows: seq<string>, i: int)
    requires 0 <= i0 <= |lines|
    ensures i == RowsEnd(lines, i0)
    ensures rows == BlockRows(lines, i0, i)
  {
    i := i0;
    rows := [];
    while i < |lines| && Indented(lines[i])
      invariant i0 <= i <= |lines|
      invariant RowsEnd(lines, i) == RowsEnd(lines, i0)
      invariant rows == BlockRows(lines, i0, i)
      decreases |lines| - i
    {
      var body := Trim(lines[i]);
      if body != [] {
        rows := rows + [body];
      }
      i := i + 1;
    }
  }

  /** A definition from label lines i..j and rows lines j..k, if the
      rows pass the checks. */
  function BlockDefs(lines: seq<string>, i: int, j: int, k: int): seq<GlyphDef>
    requires 0 <= i <= j <= k <= |lines|
  {
    var rows := BlockRows(lines, j, k);
    if Accepted(rows) then [GlyphDef(LabelTexts(lines, i, j), rows, |rows[0]|, |rows|)] else []
  }

  lemma ScanOver(lines: seq<string>, i: int)
    requires 0 <= i < |lines|
    requires Skipped(lines[i]) || !IsLabelLine(lines[i])
    ensures Scan(lines, i) == Scan(lines, i + 1)
  {
  }

  lemma ScanBlock(lines: seq<string>, i: int)
    requires 0 <= i < |lines|
    requires !Skipped(lines[i]) && IsLabelLine(lines[i])
    ensures var j := LabelEnd(lines, i);
      Scan(lines, i) == BlockDefs(lines, i, j, RowsEnd(lines, j)) + Scan(lines, RowsEnd(lines, j))
  {
  }

  /** One pass of the main loop of `extractGlyphDefs` at line i: the
      definitions it adds and the line it continues from. */
  method ScanStep(lines: seq<string>, i: int) returns (found: seq<GlyphDef>, next: int)
    requires 0 <= i < |lines|
    ensures i < next <= |lines|
    ensures Scan(lines, i) == found + Scan(lines, next)
  {
    var line := lines[i];
    if Skipped(line) || !IsLabelLine(line) {
      ScanOver(lines, i);
      return [], i + 1;
    }
    ScanBlock(lines, i);
    var labels, mid := ReadLabels(lines, i);
    var rows;
    rows, next := ReadRows(lines, mid);
    var ok := CheckRows(rows);
    found := if ok then [GlyphDef(labels, rows, |rows[0]|, |rows|)] else [];
    assert found == BlockDefs(lines, i, mid, next);
  }

  /** The main loop of `extractGlyphDefs`. */
  method ExtractDefs(lines: seq<string>) returns (defs: seq<GlyphDef>)
    ensures defs == Scan(lines, 0)
  {
    defs := [];
    var i := 0;
    while i < |lines|
      invariant 0 <= i <= |lines|
      invariant Scan(lines, 0) == defs + Scan(lines, i)
      decreases |lines| - i
    {
      var found, next := ScanStep(lines, i);
      assert defs + (found + Scan(lines, next)) == (defs + found) + Scan(lines, next);
      defs, i := defs + found, next;
    }
  }

  /** `extractGlyphDefs`. */
  method ExtractGlyphDefs(text: string) returns (defs: seq<GlyphDef>)
    ensures defs == GlyphDefs(text)
  {
    defs := ExtractDefs(Lines(text));
  }

  // ---------------------------------------------------------------------
  // parseYaffToOverlay

  /** The default cell of `parseYaffToOverlay`. */
  const DefaultCellW: int := 12
  const DefaultCellH: int := 18

  /** `def.labels.flatMap(parseLabelCodepoints)`. */
  function Codepoints(labels: seq<string>): seq<nat>
    decreases |labels|
  {
    if labels == [] then []
    else Codepoints(labels[..|labels| - 1]) + ParseLabelCodepoints(labels[|labels| - 1])
  }

  /** `def.rows.map(rowToBits)`. */
  function RowsBits(rows: seq<string>): seq<int>
  {
    seq(|rows|, k requires 0 <= k < |rows| => RowBits(rows[k]))
  }

  /** The overlay glyph a definition becomes: its size, centred in the
      cell (rounding towards the top left), one bitmask per row. */
  function Placed(d: GlyphDef, cellW: int, cellH: int): OverlayGlyph
  {
    OverlayGlyph(d.width, d.height, (cellW - d.width) / 2, (cellH - d.height) / 2, RowsBits(d.rows))
  }

  /** The definition is small enough for the cell. */
  predicate FitsCell(d: GlyphDef, cellW: int, cellH: int)
  {
    d.width <= cellW && d.height <= cellH
  }

  /** A definition that fits becomes a glyph inside the cell whose margins
      differ by at most one pixel, the right and bottom one being larger. */
  lemma PlacedInside(d: GlyphDef, cellW: int, cellH: int)
    requires DefOk(d) && FitsCell(d, cellW, cellH)
    ensures var g := Placed(d, cellW, cellH);
      Inside(g, cellW, cellH) &&
      g.offX <= cellW - g.w - g.offX <= g.offX + 1 &&
      g.offY <= cellH - g.h - g.offY <= g.offY + 1
  {
  }

  /** Every pixel of the placed glyph is inked exactly when the definition
      has '@' there: the bitmask of `rowToBits` and the renderer's test
      `row & (1 << (w - 1 - x))` agree for rows of up to 32 pixels. */
  lemma PlacedInk(d: GlyphDef, cellW: int, cellH: int, x: int, y: int)
    requires DefOk(d) && d.width <= 32
    ensures Ink(Placed(d, cellW, cellH), x, y) <==>
      0 <= x < d.width && 0 <= y < d.height && d.rows[y][x] == '@'
  {
    if 0 <= x < d.width && 0 <= y < d.height {
      var row := d.rows[y];
      var g := Placed(d, cellW, cellH);
      assert RowAt(g.rows, y) == RowBits(row);
      assert (d.width - 1 - x) % 32 == |row| - 1 - x;
      RowBitsAt(row, x);
    }
  }

  /** The keys of the code points up to 0xFFFF among cps. */
  function BmpKeys(cps: seq<nat>): set<string>
  {
    set cp | cp in cps && cp <= 0xFFFF :: JsKey(cp)
  }

  /** The number of code points up to 0xFFFF among cps. */
  function BmpCount(cps: seq<nat>): (n: nat)
    ensures n <= |cps|
    decreases |cps|
  {
    if cps == [] then 0
    else BmpCount(cps[..|cps| - 1]) + (if cps[|cps| - 1] <= 0xFFFF then 1 else 0)
  }

  /** The glyph map after storing og under the key of every code point up
      to 0xFFFF, in turn. */
  function Assigned(glyphs: OverlayFont, cps: seq<nat>, og: OverlayGlyph): OverlayFont
    decreases |cps|
  {
    if cps == [] then glyphs
    else
      var m := Assigned(glyphs, cps[..|cps| - 1], og);
      var cp := cps[|cps| - 1];
      if cp <= 0xFFFF then m[JsKey(cp) := og] else m
  }

  lemma BmpKeysSnoc(front: seq<nat>, cp: nat)
    ensures BmpKeys(front + [cp]) == BmpKeys(front) + (if cp <= 0xFFFF then {JsKey(cp)} else {})
  {
    var cps := front + [cp];
    assert forall c :: c in cps <==> c in front || c == cp;
  }

  /** What the assignment loop leaves: the keys of the code points up to
      0xFFFF hold the glyph, every other key is as before, and at most one
      key was added per such code point. */
  lemma {:induction false} AssignedAt(glyphs: OverlayFont, cps: seq<nat>, og: OverlayGlyph)
    ensures Assigned(glyphs, cps, og).Keys == glyphs.Keys + BmpKeys(cps)
    ensures forall k :: k in BmpKeys(cps) ==> Assigned(glyphs, cps, og)[k] == og
    ensures forall k :: k in glyphs && k !in BmpKeys(cps) ==> Assigned(glyphs, cps, og)[k] == glyphs[k]
    decreases |cps|
  {
    if cps != [] {
      var front := cps[..|cps| - 1];
      var cp := cps[|cps| - 1];
      AssignedAt(glyphs, front, og);
      assert cps == front + [cp];
      BmpKeysSnoc(front, cp);
    }
  }

  /** At most one key is added per code point up to 0xFFFF. */
  lemma {:induction false} AssignedSize(glyphs: OverlayFont, cps: seq<nat>, og: OverlayGlyph)
    ensures |Assigned(glyphs, cps, og).Keys| <= |glyphs.Keys| + BmpCount(cps)
    decreases |cps|
  {
    if cps != [] {
      var front := cps[..|cps| - 1];
      var cp := cps[|cps| - 1];
      AssignedSize(glyphs, front, og);
      var m := Assigned(glyphs, front, og);
      if cp <= 0xFFFF {
        assert m[JsKey(cp) := og].Keys == m.Keys + {JsKey(cp)};
      }
    }
  }

  /** The running totals of `parseYaffToOverlay`. */
  datatype Tally = Tally(glyphs: OverlayFont, labelsUnsupported: nat, oversizeSkipped: nat, codepointsAssigned: nat)

  /** One pass of the loop over the definitions: a definition naming no
      code point is counted as unsupported, one larger than the cell
      counts its code points as skipped, any other is stored under the key
      of each of its code points up to 0xFFFF. */
  function ImportDef(t: Tally, d: GlyphDef, cellW: int, cellH: int): Tally
  {
    var cps := Codepoints(d.labels);
    if |cps| == 0 then t.(labelsUnsupported := t.labelsUnsupported + 1)
    else if !FitsCell(d, cellW, cellH) then t.(oversizeSkipped := t.oversizeSkipped + |cps|)
    else t.(glyphs := Assigned(t.glyphs, cps, Placed(d, cellW, cellH)),
            codepointsAssigned := t.codepointsAssigned + BmpCount(cps))
  }

  /** The totals after all definitions, in order. */
  function ImportAll(defs: seq<GlyphDef>, cellW: int, cellH: int): Tally
    decreases |defs|
  {
    if defs == [] then Tally(map[], 0, 0, 0)
    else ImportDef(ImportAll(defs[..|defs| - 1], cellW, cellH), defs[|defs| - 1], cellW, cellH)
  }

  /** `_importStats`. */
  datatype ImportStats = ImportStats(
    blocksFound: nat, labelsUnsupported: nat, oversizeSkipped: nat,
    codepointsAssigned: nat, glyphsImported: nat)

  /** The overlay font `parseYaffToOverlay` returns: the cell size, the
      glyphs by key, and the statistics. */
  datatype YaffOverlay = YaffOverlay(cellW: int, cellH: int, glyphs: OverlayFont, stats: ImportStats)

  function ImportDefs(defs: seq<GlyphDef>, cellW: int, cellH: int): YaffOverlay
  {
    var t := ImportAll(defs, cellW, cellH);
    YaffOverlay(cellW, cellH, t.glyphs,
      ImportStats(|defs|, t.labelsUnsupported, t.oversizeSkipped, t.codepointsAssigned, |t.glyphs.Keys|))
  }

  /** `parseYaffToOverlay`. */
  function ParseYaffToOverlay(text: string, cellW: int, cellH: int): YaffOverlay
  {
    ImportDefs(GlyphDefs(text), cellW, cellH)
  }

  /** The keys an import produces, defined from the definitions alone: the
      keys of the code points up to 0xFFFF of every definition that fits. */
  function ImportKeys(defs: seq<GlyphDef>, cellW: int, cellH: int): set<string>
    decreases |defs|
  {
    if defs == [] then {}
    else
      var d := defs[|defs| - 1];
      ImportKeys(defs[..|defs| - 1], cellW, cellH) +
      (if FitsCell(d, cellW, cellH) then BmpKeys(Codepoints(d.labels)) else {})
  }

  /** A canonical key: "U+" and four upper-case hexadecimal digits naming
      a code point up to 0xFFFF. */
  predicate CanonicalKey(k: string)
  {
    0 <= ParseUPlus(k) <= 0xFFFF && JsKey(ParseUPlus(k)) == k
  }

  lemma BmpKeysCanonical(cps: seq<nat>)
    ensures forall k :: k in BmpKeys(cps) ==> CanonicalKey(k) && |k| == 6
  {
    forall k | k in BmpKeys(cps)
      ensures CanonicalKey(k) && |k| == 6
    {
      var cp :| cp in cps && cp <= 0xFFFF && k == JsKey(cp);
      ParseUnsignedKey(cp, 4);
      JsKeyShape(cp);
    }
  }

  /** What the import produces: its keys are exactly those of the
      reference definition, every key is canonical, every glyph lies
      inside the cell, no more glyphs are imported than code points
      assigned, and no more definitions are unsupported than were found. */
  lemma {:induction false} ImportAllFacts(defs: seq<GlyphDef>, cellW: int, cellH: int)
    requires forall n :: 0 <= n < |defs| ==> DefOk(defs[n])
    ensures var t := ImportAll(defs, cellW, cellH);
      t.glyphs.Keys == ImportKeys(defs, cellW, cellH) &&
      (forall k :: k in t.glyphs ==> CanonicalKey(k) && |k| == 6) &&
      (forall k :: k in t.glyphs ==> Inside(t.glyphs[k], cellW, cellH)) &&
      |t.glyphs.Keys| <= t.codepointsAssigned &&
      t.labelsUnsupported <= |defs|
    decreases |defs|
  {
    if defs != [] {
      var front := defs[..|defs| - 1];
      var d := defs[|defs| - 1];
      ImportAllFacts(front, cellW, cellH);
      var t0 := ImportAll(front, cellW, cellH);
      var cps := Codepoints(d.labels);
      if |cps| > 0 && FitsCell(d, cellW, cellH) {
        AssignedAt(t0.glyphs, cps, Placed(d, cellW, cellH));
        AssignedSize(t0.glyphs, cps, Placed(d, cellW, cellH));
        BmpKeysCanonical(cps);
        PlacedInside(d, cellW, cellH);
      }
    }
  }

  /** Later definitions win: after the import every code point up to
      0xFFFF of the last definition that fits holds that definition's
      glyph. */
  lemma LastDefinitionWins(defs: seq<GlyphDef>, cellW: int, cellH: int, cp: nat)
    requires |defs| >= 1
    requires FitsCell(defs[|defs| - 1], cellW, cellH)
    requires cp in Codepoints(defs[|defs| - 1].labels) && cp <= 0xFFFF
    ensures var t := ImportAll(defs, cellW, cellH);
      JsKey(cp) in t.glyphs && t.glyphs[JsKey(cp)] == Placed(defs[|defs| - 1], cellW, cellH)
  {
    var d := defs[|defs| - 1];
    AssignedAt(ImportAll(defs[..|defs| - 1], cellW, cellH).glyphs, Codepoints(d.labels), Placed(d, cellW, cellH));
    assert JsKey(cp) in BmpKeys(Codepoints(d.labels));
  }

  /** The statistics of an import of a YAFF text. */
  lemma ParseYaffStats(text: string, cellW: int, cellH: int)
    ensures var r := ParseYaffToOverlay(text, cellW, cellH);
      r.stats.blocksFound == |GlyphDefs(text)| &&
      r.stats.glyphsImported == |r.glyphs.Keys| <= r.stats.codepointsAssigned &&
      r.stats.labelsUnsupported <= r.stats.blocksFound &&
      r.glyphs.Keys == ImportKeys(GlyphDefs(text), cellW, cellH) &&
      (forall k :: k in r.glyphs ==> CanonicalKey(k) && Inside(r.glyphs[k], cellW, cellH))
  {
    ImportAllFacts(GlyphDefs(text), cellW, cellH);
  }

  /** `def.rows.map(rowToBits)`, one row at a time. */
  method RowsToBits(rows: seq<string>) returns (r: seq<int>)
    ensures r == RowsBits(rows)
  {
    r := [];
    for k := 0 to |rows|
      invariant r == RowsBits(rows[..k])
    {
      var v := RowToBits(rows[k]);
      r := r + [v];
    }
    assert rows[..|rows|] == rows;
  }

  /** The loop over a definition's code points. */
  method AssignAll(glyphs: OverlayFont, count: nat, cps: seq<nat>, og: OverlayGlyph)
    returns (r: OverlayFont, n: nat)
    ensures r == Assigned(glyphs, cps, og)
    ensures n == count + BmpCount(cps)
  {
    r, n := glyphs, count;
    for t := 0 to |cps|
      invariant r == Assigned(glyphs, cps[..t], og)
      invariant n == count + BmpCount(cps[..t])
    {
      assert cps[..t + 1][..t] == cps[..t];
      var cp := cps[t];
      if cp <= 0xFFFF {
        r := r[JsKey(cp) := og];
        n := n + 1;
      }
    }
    assert cps[..|cps|] == cps;
  }

  /** One pass of the loop over the definitions. */
  method ImportOne(t: Tally, d: GlyphDef, cellW: int, cellH: int) returns (r: Tally)
    ensures r == ImportDef(t, d, cellW, cellH)
  {
    var cps := Codepoints(d.labels);
    if |cps| == 0 {
      return t.(labelsUnsupported := t.labelsUnsupported + 1);
    }
    if d.width > cellW || d.height > cellH {
      return t.(oversizeSkipped := t.oversizeSkipped + |cps|);
    }
    var ox := (cellW - d.width) / 2;
    var oy := (cellH - d.height) / 2;
    var rows := RowsToBits(d.rows);
    var og := OverlayGlyph(d.width, d.height, ox, oy, rows);
    var glyphs, total := AssignAll(t.glyphs, t.codepointsAssigned, cps, og);
    r := t.(glyphs := glyphs, codepointsAssigned := total);
  }

  /** `parseYaffToOverlay`. */
  method ParseYaff(text: string, cellW: int, cellH: int) returns (r: YaffOverlay)
    ensures r == ParseYaffToOverlay(text, cellW, cellH)
  {
    var defs := ExtractGlyphDefs(text);
    var t := Tally(map[], 0, 0, 0);
    for n := 0 to |defs|
      invariant t == ImportAll(defs[..n], cellW, cellH)
    {
      assert defs[..n + 1][..n] == defs[..n];
      t := ImportOne(t, defs[n], cellW, cellH);
    }
    assert defs[..|defs|] == defs;
    r := YaffOverlay(cellW, cellH, t.glyphs,
      ImportStats(|defs|, t.labelsUnsupported, t.oversizeSkipped, t.codepointsAssigned, |t.glyphs.Keys|));
  }
}
