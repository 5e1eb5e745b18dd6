/**
 * The BDF converter (tools/bdf2osdjson.py): a minimal reader of the
 * Glyph Bitmap Distribution Format that collects the encoded glyphs of a
 * font, and the conversion of each glyph into an overlay glyph centred in
 * the 12x18 cell, cropped to it, one bitmask per row.
 */
module Bdf {
  import opened Wrappers
  import opened Text
  import opened Bits
  import opened Glyph
  import opened Raster
  import opened DomUtils

  // ---------------------------------------------------------------------
  // Python string helpers

  predicate StartsWith(s: string, p: string)
  {
    |p| <= |s| && s[..|p|] == p
  }

  /** `s.rstrip("\n")`: a line of `splitlines` holds no newline and is
      kept whole. */
  function RStripNewlines(s: string): (r: string)
    ensures |r| <= |s|
    ensures '\n' !in s ==> r == s
  {
    if s != [] && s[|s| - 1] == '\n' then RStripNewlines(s[..|s| - 1]) else s
  }

  /** `s.lstrip("\n")`: a line without a newline is kept whole. */
  function LStripNewlines(s: string): (r: string)
    ensures |r| <= |s|
    ensures '\n' !in s ==> r == s
  {
    if s != [] && s[0] == '\n' then LStripNewlines(s[1..]) else s
  }

  /** `s.strip("\n")`. */
  function StripNewlines(s: string): string
  {
    RStripNewlines(LStripNewlines(s))
  }

  /** `int(w, 10)` for a word without white space: an optional sign and
      ASCII decimal digits; anything else raises. */
  function PyDecInt(w: string): Option<int>
  {
    if |w| >= 2 && (w[0] == '-' || w[0] == '+') && forall i :: 1 <= i < |w| ==> IsDigit(w[i]) then
      var v: int := DecValue(w[1..]);
      Some(if w[0] == '-' then -v else v)
    else if |w| >= 1 && forall i :: 0 <= i < |w| ==> IsDigit(w[i]) then Some(DecValue(w))
    else None
  }

  /** Python reads back what `str()` writes, for either sign. */
  lemma PyDecIntRoundTrip(n: nat)
    ensures PyDecInt(NatToDec(n)) == Some(n)
    ensures PyDecInt("-" + NatToDec(n)) == Some(-(n as int))
  {
    var d := NatToDec(n);
    NatToDecValue(n);
    assert ("-" + d)[1..] == d;
  }

  // ---------------------------------------------------------------------
  // parse_bdf

  /** A glyph as `parse_bdf` collects it. */
  datatype BdfGlyph = BdfGlyph(
    codepoint: int, bbxW: int, bbxH: int, bbxXoff: int, bbxYoff: int,
    bitmapRowsHex: seq<string>)

  /** `_parse_ints` raising ValueError on the BBX line with this index
      (the converter does not catch it). */
  datatype BdfError = BadBbx(lineIndex: int)

  /** The metadata and glyphs read so far. */
  datatype BdfFont = BdfFont(meta: map<string, string>, glyphs: seq<BdfGlyph>)

  /** The variables of one STARTCHAR block. */
  datatype Block = Block(
    codepoint: Option<int>, w: int, h: int, xoff: int, yoff: int,
    rows: seq<string>, inBitmap: bool)

  const NewBlock: Block := Block(None, 0, 0, 0, 0, [], false)

  /** `re.fullmatch(r"[0-9A-Fa-f]+", row)`. */
  predicate IsHexRow(row: string)
  {
    row != [] && AllHex(row)
  }

  predicate HexRows(rows: seq<string>)
  {
    forall k :: 0 <= k < |rows| ==> IsHexRow(rows[k])
  }

  /** The glyphs `parse_bdf` keeps: encoded, with hexadecimal rows. */
  predicate GlyphsOk(glyphs: seq<BdfGlyph>)
  {
    forall n :: 0 <= n < |glyphs| ==> glyphs[n].codepoint >= 0 && HexRows(glyphs[n].bitmapRowsHex)
  }

  /** The code point of an ENCODING line: the second word read as a
      decimal integer, -1 when it is missing or unreadable. */
  function EncodingValue(l: string): int
  {
    var words := PyWords(l);
    if |words| < 2 then -1
    else match PyDecInt(words[1])
      case None => -1
      case Some(v) => v
  }

  /** `_parse_ints(rest, 4)`: the first four words as integers, None when
      there are fewer or one is not an integer. */
  function ParseInts4(rest: string): Option<(int, int, int, int)>
  {
    var parts := PyWords(rest);
    if |parts| < 4 then None
    else
      var a, b, c, d := PyDecInt(parts[0]), PyDecInt(parts[1]), PyDecInt(parts[2]), PyDecInt(parts[3]);
      if a.Some? && b.Some? && c.Some? && d.Some? then Some((a.value, b.value, c.value, d.value))
      else None
  }

  /** One line inside a STARTCHAR block other than ENDCHAR; None when a
      BBX line cannot be read. */
  function BlockLine(b: Block, l: string): (r: Option<Block>)
    ensures r.Some? ==> r.value.rows == b.rows || (r.value.rows == b.rows + [PyStrip(l)] && IsHexRow(PyStrip(l)))
  {
    if StartsWith(l, "ENCODING ") then Some(b.(codepoint := Some(EncodingValue(l))))
    else if StartsWith(l, "BBX ") then
      match ParseInts4(l[4..])
      case None => None
      case Some(v) => Some(b.(w := v.0, h := v.1, xoff := v.2, yoff := v.3))
    else if l == "BITMAP" then Some(b.(inBitmap := true))
    else if b.inBitmap && IsHexRow(PyStrip(l)) then Some(b.(rows := b.rows + [PyStrip(l)]))
    else Some(b)
  }

  /** The block from line i on, up to and including ENDCHAR or the end of
      the file, and the line after it. */
  function BlockFrom(lines: seq<string>, i: int, b: Block): (r: Result<(Block, int), BdfError>)
    requires 0 <= i <= |lines|
    ensures r.Ok? ==> i <= r.value.1 <= |lines|
    ensures r.Ok? && HexRows(b.rows) ==> HexRows(r.value.0.rows)
    decreases |lines| - i
  {
    if i == |lines| then Ok((b, i))
    else
      var l := StripNewlines(lines[i]);
      if l == "ENDCHAR" then Ok((b, i + 1))
      else match BlockLine(b, l)
        case None => Err(BadBbx(i))
        case Some(b') => BlockFrom(lines, i + 1, b')
  }

  /** The glyph a finished block contributes, if it is encoded. */
  function Kept(glyphs: seq<BdfGlyph>, b: Block): seq<BdfGlyph>
  {
    if b.codepoint.None? || b.codepoint.value < 0 then glyphs
    else glyphs + [BdfGlyph(b.codepoint.value, b.w, b.h, b.xoff, b.yoff, b.rows)]
  }

  /** How the outer loop of `parse_bdf` reads a line, in the order of its
      tests: blank, one of the four header keys with its stripped value,
      the start of a glyph block, or anything else. */
  datatype TopLine = Blank | Header(key: string, value: string) | StartChar | OtherLine

  function ClassifyTop(line: string): TopLine
  {
    if PyStrip(line) == [] then Blank
    else if StartsWith(line, "FONT ") then Header("name", PyStrip(line[5..]))
    else if StartsWith(line, "SIZE ") then Header("size", PyStrip(line[5..]))
    else if StartsWith(line, "FONT_ASCENT ") then Header("ascent", PyStrip(line[12..]))
    else if StartsWith(line, "FONT_DESCENT ") then Header("descent", PyStrip(line[13..]))
    else if StartsWith(line, "STARTCHAR ") then StartChar
    else OtherLine
  }

  /** The file from line i on, given what was read before it. */
  function ParseFrom(lines: seq<string>, i: int, st: BdfFont): (r: Result<BdfFont, BdfError>)
    requires 0 <= i <= |lines|
    ensures r.Ok? && GlyphsOk(st.glyphs) ==> GlyphsOk(r.value.glyphs)
    decreases |lines| - i
  {
    if i == |lines| then Ok(st)
    else
      match ClassifyTop(RStripNewlines(lines[i]))
      case Header(k, v) => ParseFrom(lines, i + 1, st.(meta := st.meta[k := v]))
      case StartChar =>
        (match BlockFrom(lines, i + 1, NewBlock)
         case Err(e) => Err(e)
         case Ok(bj) => ParseFrom(lines, bj.1, st.(glyphs := Kept(st.glyphs, bj.0))))
      case Blank => ParseFrom(lines, i + 1, st)
      case OtherLine => ParseFrom(lines, i + 1, st)
  }

  /** `parse_bdf` of the file's lines. Every glyph it returns has a code
      point of at least 0 and only non-empty hexadecimal bitmap rows:
      unencoded glyphs (no ENCODING, a negative one, or one that does not
      read as an integer) are dropped and non-hexadecimal bitmap lines are
      ignored. */
  function ParseBdf(lines: seq<string>): (r: Result<BdfFont, BdfError>)
    ensures r.Ok? ==> GlyphsOk(r.value.glyphs)
  {
    ParseFrom(lines, 0, BdfFont(map[], []))
  }

  // ---------------------------------------------------------------------
  // What a STARTCHAR block collects, stated line by line

  /** Line j as the block loop sees it. */
  function Inner(lines: seq<string>, j: int): string
    requires 0 <= j < |lines|
  {
    StripNewlines(lines[j])
  }

  predicate IsEncodingLine(l: string) { StartsWith(l, "ENCODING ") }

  predicate IsBbxLine(l: string) { StartsWith(l, "BBX ") }

  /** A BBX line whose four integers do not read. */
  predicate IsBadBbx(l: string)
  {
    IsBbxLine(l) && ParseInts4(l[4..]).None?
  }

  /** A bitmap row: a line that is none of the keywords the block loop
      tests first and that is hexadecimal once stripped. */
  predicate IsRowLine(l: string)
  {
    !IsEncodingLine(l) && !IsBbxLine(l) && l != "BITMAP" && IsHexRow(PyStrip(l))
  }

  lemma KeywordsDisjoint(l: string)
    ensures !(IsEncodingLine(l) && IsBbxLine(l))
    ensures !IsEncodingLine("BITMAP") && !IsBbxLine("BITMAP")
  {
    if IsEncodingLine(l) {
      assert l[0] == l[..9][0] == 'E';
    }
    if IsBbxLine(l) {
      assert l[0] == l[..4][0] == 'B';
    }
    assert "BITMAP"[..4][1] == 'I' != "BBX "[1];
  }

  /** What one block line does to each field of the block. */
  lemma BlockLineFields(b: Block, l: string)
    ensures BlockLine(b, l).None? <==> IsBadBbx(l)
    ensures BlockLine(b, l).Some? ==>
      var b1 := BlockLine(b, l).value;
      b1.codepoint == (if IsEncodingLine(l) then Some(EncodingValue(l)) else b.codepoint) &&
      b1.inBitmap == (b.inBitmap || l == "BITMAP") &&
      b1.rows == b.rows + (if b.inBitmap && IsRowLine(l) then [PyStrip(l)] else []) &&
      (IsBbxLine(l) ==> ParseInts4(l[4..]) == Some((b1.w, b1.h, b1.xoff, b1.yoff))) &&
      (!IsBbxLine(l) ==> (b1.w, b1.h, b1.xoff, b1.yoff) == (b.w, b.h, b.xoff, b.yoff))
  {
    KeywordsDisjoint(l);
  }

  /** The line of the block's ENDCHAR, or the end of the file. */
  function BlockEnd(lines: seq<string>, i: int): (e: int)
    requires 0 <= i <= |lines|
    ensures i <= e <= |lines|
    ensures forall j :: i <= j < e ==> Inner(lines, j) != "ENDCHAR"
    ensures e < |lines| ==> Inner(lines, e) == "ENDCHAR"
    decreases |lines| - i
  {
    if i == |lines| || Inner(lines, i) == "ENDCHAR" then i else BlockEnd(lines, i + 1)
  }

  /** Where scanning resumes after the block starting at line a: past its
      ENDCHAR, or at the end of the file. */
  function ResumeAt(lines: seq<string>, a: int): (j: int)
    requires 0 <= a <= |lines|
    ensures a <= j <= |lines|
  {
    var e := BlockEnd(lines, a);
    if e < |lines| then e + 1 else e
  }

  /** The first unreadable BBX line in [i, e). */
  function FirstBadBbx(lines: seq<string>, i: int, e: int): (r: Option<int>)
    requires 0 <= i <= e <= |lines|
    ensures r.Some? ==> i <= r.value < e && IsBadBbx(Inner(lines, r.value))
    ensures r.Some? ==>
      forall j {:trigger IsBadBbx(Inner(lines, j))} :: i <= j < r.value ==> !IsBadBbx(Inner(lines, j))
    ensures r.None? ==> forall j {:trigger IsBadBbx(Inner(lines, j))} :: i <= j < e ==> !IsBadBbx(Inner(lines, j))
    decreases e - i
  {
    if i == e then None
    else if IsBadBbx(Inner(lines, i)) then Some(i)
    else FirstBadBbx(lines, i + 1, e)
  }

  /** The last ENCODING line in [i, e). */
  function LastEncoding(lines: seq<string>, i: int, e: int): (r: Option<int>)
    requires 0 <= i <= e <= |lines|
    ensures r.Some? ==> i <= r.value < e && IsEncodingLine(Inner(lines, r.value))
    ensures r.Some? ==>
      forall j {:trigger IsEncodingLine(Inner(lines, j))} :: r.value < j < e ==> !IsEncodingLine(Inner(lines, j))
    ensures r.None? ==> forall j {:trigger IsEncodingLine(Inner(lines, j))} :: i <= j < e ==> !IsEncodingLine(Inner(lines, j))
    decreases e - i
  {
    if i == e then None
    else
      var r := LastEncoding(lines, i + 1, e);
      if r.Some? then r
      else if IsEncodingLine(Inner(lines, i)) then Some(i)
      else None
  }

  /** The last BBX line in [i, e). */
  function LastBbx(lines: seq<string>, i: int, e: int): (r: Option<int>)
    requires 0 <= i <= e <= |lines|
    ensures r.Some? ==> i <= r.value < e && IsBbxLine(Inner(lines, r.value))
    ensures r.Some? ==>
      forall j {:trigger IsBbxLine(Inner(lines, j))} :: r.value < j < e ==> !IsBbxLine(Inner(lines, j))
    ensures r.None? ==> forall j {:trigger IsBbxLine(Inner(lines, j))} :: i <= j < e ==> !IsBbxLine(Inner(lines, j))
    decreases e - i
  {
    if i == e then None
    else
      var r := LastBbx(lines, i + 1, e);
      if r.Some? then r
      else if IsBbxLine(Inner(lines, i)) then Some(i)
      else None
  }

  /** The first BITMAP line in [i, e), or e. */
  function FirstBitmap(lines: seq<string>, i: int, e: int): (r: int)
    requires 0 <= i <= e <= |lines|
    ensures i <= r <= e
    ensures forall j :: i <= j < r ==> Inner(lines, j) != "BITMAP"
    ensures r < e ==> Inner(lines, r) == "BITMAP"
    decreases e - i
  {
    if i == e || Inner(lines, i) == "BITMAP" then i else FirstBitmap(lines, i + 1, e)
  }

  /** The stripped bitmap rows among lines [a, e), in order. */
  function HexLinesIn(lines: seq<string>, a: int, e: int): (r: seq<string>)
    requires 0 <= a <= e <= |lines|
    ensures HexRows(r) && |r| <= e - a
    decreases e - a
  {
    if a == e then []
    else (if IsRowLine(Inner(lines, a)) then [PyStrip(Inner(lines, a))] else []) + HexLinesIn(lines, a + 1, e)
  }

  /** Where rows start being collected: at once inside a bitmap, otherwise
      after the first BITMAP line (nowhere when there is none). */
  function RowsStart(lines: seq<string>, i: int, e: int, inBitmap: bool): (a: int)
    requires 0 <= i <= e <= |lines|
    ensures i <= a <= e
  {
    if inBitmap then i
    else
      var f := FirstBitmap(lines, i, e);
      if f < e then f + 1 else e
  }

  lemma AppendAssoc(a: seq<string>, b: seq<string>, c: seq<string>)
    ensures (a + b) + c == a + (b + c)
  {
  }

  /** One line of the block before its end. */
  lemma {:induction false} BlockFromStep(lines: seq<string>, i: int, b: Block)
    requires 0 <= i < |lines| && Inner(lines, i) != "ENDCHAR"
    ensures BlockEnd(lines, i) == BlockEnd(lines, i + 1) > i
    ensures BlockFrom(lines, i, b) ==
      match BlockLine(b, Inner(lines, i))
      case None => Err(BadBbx(i))
      case Some(b') => BlockFrom(lines, i + 1, b')
  {
  }

  /** Reading a block fails exactly at its first unreadable BBX line. */
  lemma {:induction false} BlockFromErr(lines: seq<string>, i: int, b: Block)
    requires 0 <= i <= |lines|
    ensures var f := FirstBadBbx(lines, i, BlockEnd(lines, i));
      (BlockFrom(lines, i, b).Err? <==> f.Some?) &&
      (f.Some? ==> BlockFrom(lines, i, b) == Err(BadBbx(f.value)))
    decreases |lines| - i
  {
    if i < |lines| && Inner(lines, i) != "ENDCHAR" {
      var l := Inner(lines, i);
      BlockLineFields(b, l);
      BlockFromStep(lines, i, b);
      if BlockLine(b, l).Some? {
        BlockFromErr(lines, i + 1, BlockLine(b, l).value);
      }
    }
  }

  /** A block read ends after its ENDCHAR line, or at the end of the file. */
  lemma {:induction false} BlockFromEnd(lines: seq<string>, i: int, b: Block)
    requires 0 <= i <= |lines| && BlockFrom(lines, i, b).Ok?
    ensures BlockFrom(lines, i, b).value.1 == ResumeAt(lines, i)
    decreases |lines| - i
  {
    if i < |lines| && Inner(lines, i) != "ENDCHAR" {
      BlockFromStep(lines, i, b);
      BlockFromEnd(lines, i + 1, BlockLine(b, Inner(lines, i)).value);
    }
  }

  /** The code point is read from the block's last ENCODING line. */
  lemma {:induction false} BlockFromEncoding(lines: seq<string>, i: int, b: Block)
    requires 0 <= i <= |lines| && BlockFrom(lines, i, b).Ok?
    ensures BlockFrom(lines, i, b).value.0.codepoint ==
      match LastEncoding(lines, i, BlockEnd(lines, i))
      case None => b.codepoint
      case Some(k) => Some(EncodingValue(Inner(lines, k)))
    decreases |lines| - i
  {
    if i < |lines| && Inner(lines, i) != "ENDCHAR" {
      var l := Inner(lines, i);
      BlockLineFields(b, l);
      BlockFromStep(lines, i, b);
      BlockFromEncoding(lines, i + 1, BlockLine(b, l).value);
    }
  }

  /** The bounding box is read from the block's last BBX line. */
  lemma {:induction false} BlockFromBbx(lines: seq<string>, i: int, b: Block)
    requires 0 <= i <= |lines| && BlockFrom(lines, i, b).Ok?
    ensures var b' := BlockFrom(lines, i, b).value.0;
      match LastBbx(lines, i, BlockEnd(lines, i))
      case None => (b'.w, b'.h, b'.xoff, b'.yoff) == (b.w, b.h, b.xoff, b.yoff)
      case Some(k) => ParseInts4(Inner(lines, k)[4..]) == Some((b'.w, b'.h, b'.xoff, b'.yoff))
    decreases |lines| - i
  {
    if i < |lines| && Inner(lines, i) != "ENDCHAR" {
      var l := Inner(lines, i);
      BlockLineFields(b, l);
      BlockFromStep(lines, i, b);
      BlockFromBbx(lines, i + 1, BlockLine(b, l).value);
    }
  }

  /** One line of the rows' specification: a row line counts when rows are
      being collected, and a BITMAP line starts collecting. */
  lemma {:induction false} HexLinesStep(lines: seq<string>, i: int, e: int, inBitmap: bool)
    requires 0 <= i < e <= |lines|
    ensures var l := Inner(lines, i);
      HexLinesIn(lines, RowsStart(lines, i, e, inBitmap), e) ==
        (if inBitmap && IsRowLine(l) then [PyStrip(l)] else []) +
        HexLinesIn(lines, RowsStart(lines, i + 1, e, inBitmap || l == "BITMAP"), e)
  {
    var l := Inner(lines, i);
    if inBitmap {
      assert HexLinesIn(lines, i, e) ==
        (if IsRowLine(l) then [PyStrip(l)] else []) + HexLinesIn(lines, i + 1, e);
    } else if l == "BITMAP" {
      assert FirstBitmap(lines, i, e) == i;
    } else {
      assert FirstBitmap(lines, i, e) == FirstBitmap(lines, i + 1, e);
    }
  }

  /** The rows are the hexadecimal lines after the first BITMAP line. */
  lemma {:induction false} BlockFromRows(lines: seq<string>, i: int, b: Block)
    requires 0 <= i <= |lines| && BlockFrom(lines, i, b).Ok?
    ensures var e := BlockEnd(lines, i);
      BlockFrom(lines, i, b).value.0.rows == b.rows + HexLinesIn(lines, RowsStart(lines, i, e, b.inBitmap), e)
    decreases |lines| - i
  {
    var e := BlockEnd(lines, i);
    if i < |lines| && Inner(lines, i) != "ENDCHAR" {
      var l := Inner(lines, i);
      BlockLineFields(b, l);
      BlockFromStep(lines, i, b);
      var b1 := BlockLine(b, l).value;
      BlockFromRows(lines, i + 1, b1);
      HexLinesStep(lines, i, e, b.inBitmap);
      var x := if b.inBitmap && IsRowLine(l) then [PyStrip(l)] else [];
      AppendAssoc(b.rows, x, HexLinesIn(lines, RowsStart(lines, i + 1, e, b1.inBitmap), e));
    } else {
      assert e == i && BlockFrom(lines, i, b).value.0 == b;
      assert RowsStart(lines, i, e, b.inBitmap) == i;
      assert HexLinesIn(lines, i, i) == [];
      assert b.rows + [] == b.rows;
    }
  }

  /** The four BBX integers of the block's last BBX line, zeros when it
      has none. */
  function BoxOf(lines: seq<string>, a: int, e: int): (int, int, int, int)
    requires 0 <= a <= e <= |lines|
  {
    match LastBbx(lines, a, e)
    case None => (0, 0, 0, 0)
    case Some(k) =>
      match ParseInts4(Inner(lines, k)[4..])
      case None => (0, 0, 0, 0)
      case Some(v) => v
  }

  /** The glyph a STARTCHAR block on lines [a, e) contributes: one when its
      last ENCODING line reads as n >= 0, none otherwise. */
  function BlockGlyph(lines: seq<string>, a: int, e: int): (r: seq<BdfGlyph>)
    requires 0 <= a <= e <= |lines|
    ensures |r| <= 1
  {
    match LastEncoding(lines, a, e)
    case None => []
    case Some(k) =>
      var n := EncodingValue(Inner(lines, k));
      if n < 0 then []
      else
        var box := BoxOf(lines, a, e);
        [BdfGlyph(n, box.0, box.1, box.2, box.3, HexLinesIn(lines, RowsStart(lines, a, e, false), e))]
  }

  /** A fresh block read from line a on contributes BlockGlyph, or fails at
      its first unreadable BBX line. */
  lemma {:induction false} BlockFromGlyph(lines: seq<string>, a: int)
    requires 0 <= a <= |lines|
    ensures var f := FirstBadBbx(lines, a, BlockEnd(lines, a));
      f.Some? ==> BlockFrom(lines, a, NewBlock) == Err(BadBbx(f.value))
    ensures var e := BlockEnd(lines, a);
      FirstBadBbx(lines, a, e).None? ==> BlockFrom(lines, a, NewBlock).Ok?
    ensures var e := BlockEnd(lines, a); var r := BlockFrom(lines, a, NewBlock);
      r.Ok? ==> Kept([], r.value.0) == BlockGlyph(lines, a, e)
    ensures var r := BlockFrom(lines, a, NewBlock);
      r.Ok? ==> r.value.1 == ResumeAt(lines, a)
  {
    BlockFromErr(lines, a, NewBlock);
    var e := BlockEnd(lines, a);
    var r := BlockFrom(lines, a, NewBlock);
    if r.Ok? {
      var B := r.value.0;
      BlockFromEnd(lines, a, NewBlock);
      BlockFromEncoding(lines, a, NewBlock);
      BlockFromBbx(lines, a, NewBlock);
      BlockFromRows(lines, a, NewBlock);
      assert (B.w, B.h, B.xoff, B.yoff) == BoxOf(lines, a, e);
      assert B.rows == HexLinesIn(lines, RowsStart(lines, a, e, false), e) by {
        assert NewBlock.rows + HexLinesIn(lines, RowsStart(lines, a, e, false), e) ==
          HexLinesIn(lines, RowsStart(lines, a, e, false), e);
      }
      match LastEncoding(lines, a, e)
      case None =>
        assert B.codepoint.None?;
      case Some(k) =>
        assert B.codepoint == Some(EncodingValue(Inner(lines, k)));
    }
  }

  /** A line that starts with a letter other than white space survives
      `strip()`. */
  lemma {:induction false} PyStripKeepsLetter(s: string)
    requires s != [] && !IsPySpace(s[0])
    ensures PyStrip(s) != []
    decreases |s|
  {
    assert PyStripStart(s) == s;
    if IsPySpace(s[|s| - 1]) {
      assert |s| > 1;
      PyStripKeepsLetter(s[..|s| - 1]);
      assert PyStripEnd(s) == PyStripEnd(s[..|s| - 1]);
      assert s[..|s| - 1][0] == s[0];
      assert PyStripStart(s[..|s| - 1]) == s[..|s| - 1];
    }
  }

  /** A top-level STARTCHAR line whose block holds an unreadable BBX line:
      `parse_bdf` fails there. */
  lemma {:induction false} ParseFromBadBbx(lines: seq<string>, i: int, st: BdfFont)
    requires 0 <= i < |lines| && StartsWith(RStripNewlines(lines[i]), "STARTCHAR ")
    requires FirstBadBbx(lines, i + 1, BlockEnd(lines, i + 1)).Some?
    ensures ParseFrom(lines, i, st) == Err(BadBbx(FirstBadBbx(lines, i + 1, BlockEnd(lines, i + 1)).value))
  {
    var f := FirstBadBbx(lines, i + 1, BlockEnd(lines, i + 1));
    BlockFromErr(lines, i + 1, NewBlock);
    ParseFromAtErr(lines, i, st, BadBbx(f.value));
  }

  /** The branch `parse_bdf` takes at a STARTCHAR line whose block fails. */
  lemma {:induction false} ParseFromAtErr(lines: seq<string>, i: int, st: BdfFont, err: BdfError)
    requires 0 <= i < |lines| && StartsWith(RStripNewlines(lines[i]), "STARTCHAR ")
    requires BlockFrom(lines, i + 1, NewBlock) == Err(err)
    ensures ParseFrom(lines, i, st) == Err(err)
  {
    ParseFromAtStartChar(lines, i, st);
  }

  /** A top-level STARTCHAR line whose block reads: its glyph, if it is
      encoded with n >= 0, is appended and scanning resumes after its
      ENDCHAR. */
  lemma {:induction false} ParseFromStartChar(lines: seq<string>, i: int, st: BdfFont)
    requires 0 <= i < |lines| && StartsWith(RStripNewlines(lines[i]), "STARTCHAR ")
    requires FirstBadBbx(lines, i + 1, BlockEnd(lines, i + 1)).None?
    ensures ParseFrom(lines, i, st) ==
      ParseFrom(lines, ResumeAt(lines, i + 1), st.(glyphs := st.glyphs + BlockGlyph(lines, i + 1, BlockEnd(lines, i + 1))))
  {
    var e := BlockEnd(lines, i + 1);
    BlockFromGlyph(lines, i + 1);
    var r := BlockFrom(lines, i + 1, NewBlock);
    var b := r.value.0;
    ParseFromAtBlock(lines, i, st, b, r.value.1);
    var kept := Kept(st.glyphs, b);
    KeptAppend(st.glyphs, b);
    assert kept == st.glyphs + BlockGlyph(lines, i + 1, e);
  }

  /** The branch `parse_bdf` takes at a STARTCHAR line whose block reads
      as b, ending before line j. */
  lemma {:induction false} ParseFromAtBlock(lines: seq<string>, i: int, st: BdfFont, b: Block, j: int)
    requires 0 <= i < |lines| && StartsWith(RStripNewlines(lines[i]), "STARTCHAR ")
    requires BlockFrom(lines, i + 1, NewBlock) == Ok((b, j))
    ensures 0 <= j <= |lines|
    ensures ParseFrom(lines, i, st) == ParseFrom(lines, j, st.(glyphs := Kept(st.glyphs, b)))
  {
    ParseFromAtStartChar(lines, i, st);
  }

  lemma KeptAppend(glyphs: seq<BdfGlyph>, b: Block)
    ensures Kept(glyphs, b) == glyphs + Kept([], b)
  {
  }

  /** The branch `parse_bdf` takes at a STARTCHAR line. */
  lemma {:induction false} ParseFromAtStartChar(lines: seq<string>, i: int, st: BdfFont)
    requires 0 <= i < |lines| && StartsWith(RStripNewlines(lines[i]), "STARTCHAR ")
    ensures ParseFrom(lines, i, st) ==
      match BlockFrom(lines, i + 1, NewBlock)
      case Err(e) => Err(e)
      case Ok(bj) => ParseFrom(lines, bj.1, st.(glyphs := Kept(st.glyphs, bj.0)))
  {
    StartCharLine(RStripNewlines(lines[i]));
  }

  /** A STARTCHAR line is none of the header lines and is not blank. */
  lemma StartCharLine(line: string)
    requires StartsWith(line, "STARTCHAR ")
    ensures ClassifyTop(line) == StartChar
  {
    assert line[0] == line[..10][0] == 'S' && line[1] == line[..10][1] == 'T';
    PyStripKeepsLetter(line);
    assert line[..5][1] == 'T' != "SIZE "[1];
    assert line[..5][0] == 'S' != "FONT "[0];
    assert |line| < 12 || line[..12][0] == 'S' != "FONT_ASCENT "[0];
    assert |line| < 13 || line[..13][0] == 'S' != "FONT_DESCENT "[0];
  }

  const MetaKeys: set<string> := {"name", "size", "ascent", "descent"}

  /** One pass of the outer loop of `parse_bdf` that does not fail: it
      moves past line i (and past the block a STARTCHAR line opens), sets
      the meta key of a header line, and at most appends glyphs. */
  lemma ParseFromNext(lines: seq<string>, i: int, st: BdfFont) returns (j: int, st': BdfFont)
    requires 0 <= i < |lines| && ParseFrom(lines, i, st).Ok?
    ensures i < j <= |lines|
    ensures ParseFrom(lines, i, st) == ParseFrom(lines, j, st')
    ensures var c := ClassifyTop(RStripNewlines(lines[i]));
      st'.meta == if c.Header? then st.meta[c.key := c.value] else st.meta
    ensures var c := ClassifyTop(RStripNewlines(lines[i]));
      c.Header? ==> c.key in MetaKeys
    ensures |st.glyphs| <= |st'.glyphs| && st'.glyphs[..|st.glyphs|] == st.glyphs
  {
    match ClassifyTop(RStripNewlines(lines[i]))
    case Header(k, v) =>
      j, st' := i + 1, st.(meta := st.meta[k := v]);
    case StartChar =>
      var bl := BlockFrom(lines, i + 1, NewBlock);
      j, st' := bl.value.1, st.(glyphs := Kept(st.glyphs, bl.value.0));
      KeptAppend(st.glyphs, bl.value.0);
    case Blank =>
      j, st' := i + 1, st;
    case OtherLine =>
      j, st' := i + 1, st;
  }

  /** What `parse_bdf` returns from line i on only adds to what was read
      before: earlier glyphs stay first and in order, meta keys are kept
      and only FONT, SIZE, FONT_ASCENT and FONT_DESCENT add keys. */
  lemma {:induction false} ParseFromGrows(lines: seq<string>, i: int, st: BdfFont)
    requires 0 <= i <= |lines|
    ensures var r := ParseFrom(lines, i, st);
      r.Ok? ==> |st.glyphs| <= |r.value.glyphs| && r.value.glyphs[..|st.glyphs|] == st.glyphs
    ensures var r := ParseFrom(lines, i, st);
      r.Ok? ==> st.meta.Keys <= r.value.meta.Keys <= st.meta.Keys + MetaKeys
    decreases |lines| - i
  {
    if i < |lines| && ParseFrom(lines, i, st).Ok? {
      var j, st' := ParseFromNext(lines, i, st);
      ParseFromGrows(lines, j, st');
      var g := ParseFrom(lines, j, st').value.glyphs;
      assert g[..|st.glyphs|] == g[..|st'.glyphs|][..|st.glyphs|];
    }
  }

  /** An encoded STARTCHAR block is kept: when its last ENCODING line
      reads as n >= 0, its glyph, with code point n, its last BBX and the
      hexadecimal lines after its BITMAP line, follows the glyphs read
      before it. */
  lemma {:induction false} ParseFromKeeps(lines: seq<string>, i: int, st: BdfFont)
    requires 0 <= i < |lines| && StartsWith(RStripNewlines(lines[i]), "STARTCHAR ")
    requires ParseFrom(lines, i, st).Ok?
    requires var enc := LastEncoding(lines, i + 1, BlockEnd(lines, i + 1));
      enc.Some? && EncodingValue(Inner(lines, enc.value)) >= 0
    ensures var e := BlockEnd(lines, i + 1); var k := LastEncoding(lines, i + 1, e).value;
      var g := ParseFrom(lines, i, st).value.glyphs;
      |st.glyphs| < |g| &&
      g[|st.glyphs|] == BdfGlyph(EncodingValue(Inner(lines, k)),
        BoxOf(lines, i + 1, e).0, BoxOf(lines, i + 1, e).1, BoxOf(lines, i + 1, e).2, BoxOf(lines, i + 1, e).3,
        HexLinesIn(lines, RowsStart(lines, i + 1, e, false), e))
  {
    var e := BlockEnd(lines, i + 1);
    if FirstBadBbx(lines, i + 1, e).Some? {
      ParseFromBadBbx(lines, i, st);
    }
    ParseFromStartChar(lines, i, st);
    var next := ResumeAt(lines, i + 1);
    var bg := BlockGlyph(lines, i + 1, e);
    var st' := st.(glyphs := st.glyphs + bg);
    assert ParseFrom(lines, i, st) == ParseFrom(lines, next, st');
    ParseFromGrows(lines, next, st');
    var g := ParseFrom(lines, next, st').value.glyphs;
    assert g[|st.glyphs|] == g[..|st'.glyphs|][|st.glyphs|] == bg[0];
  }

  /** A STARTCHAR block without an ENCODING line reading as n >= 0 adds
      nothing: parsing goes on after its ENDCHAR as if it were absent. */
  lemma {:induction false} ParseFromSkips(lines: seq<string>, i: int, st: BdfFont)
    requires 0 <= i < |lines| && StartsWith(RStripNewlines(lines[i]), "STARTCHAR ")
    requires ParseFrom(lines, i, st).Ok?
    requires var enc := LastEncoding(lines, i + 1, BlockEnd(lines, i + 1));
      enc.None? || EncodingValue(Inner(lines, enc.value)) < 0
    ensures ParseFrom(lines, i, st) == ParseFrom(lines, ResumeAt(lines, i + 1), st)
  {
    var e := BlockEnd(lines, i + 1);
    if FirstBadBbx(lines, i + 1, e).Some? {
      ParseFromBadBbx(lines, i, st);
    }
    ParseFromStartChar(lines, i, st);
    assert BlockGlyph(lines, i + 1, e) == [];
    assert st.(glyphs := st.glyphs + []) == st;
  }

  /** Line j read at the top level sets meta key k. */
  predicate SetsKey(lines: seq<string>, j: int, k: string)
    requires 0 <= j < |lines|
  {
    var c := ClassifyTop(RStripNewlines(lines[j]));
    c.Header? && c.key == k
  }

  /** A meta entry no later line can set survives to the result. */
  lemma {:induction false} ParseFromMetaKept(lines: seq<string>, i: int, st: BdfFont, k: string)
    requires 0 <= i <= |lines| && k in st.meta
    requires forall j :: i <= j < |lines| ==> !SetsKey(lines, j, k)
    ensures var r := ParseFrom(lines, i, st);
      r.Ok? ==> k in r.value.meta && r.value.meta[k] == st.meta[k]
    decreases |lines| - i
  {
    if i < |lines| && ParseFrom(lines, i, st).Ok? {
      assert !SetsKey(lines, i, k);
      var j, st' := ParseFromNext(lines, i, st);
      ParseFromMetaKept(lines, j, st', k);
    }
  }

  /** A top-level FONT, SIZE, FONT_ASCENT or FONT_DESCENT line fills its
      key of `meta` (`name`, `size`, `ascent`, `descent`); unless a later
      line sets the same key again, the result holds this line's value. */
  lemma {:induction false} ParseFromMeta(lines: seq<string>, i: int, st: BdfFont)
    requires 0 <= i < |lines| && ClassifyTop(RStripNewlines(lines[i])).Header?
    requires ParseFrom(lines, i, st).Ok?
    ensures ClassifyTop(RStripNewlines(lines[i])).key in ParseFrom(lines, i, st).value.meta
    ensures ClassifyTop(RStripNewlines(lines[i])).key in MetaKeys
    ensures var h := ClassifyTop(RStripNewlines(lines[i]));
      (forall j :: i < j < |lines| ==> !SetsKey(lines, j, h.key)) ==>
        ParseFrom(lines, i, st).value.meta[h.key] == h.value
  {
    var h := ClassifyTop(RStripNewlines(lines[i]));
    var st' := st.(meta := st.meta[h.key := h.value]);
    ParseFromGrows(lines, i + 1, st');
    if forall j :: i < j < |lines| ==> !SetsKey(lines, j, h.key) {
      ParseFromMetaKept(lines, i + 1, st', h.key);
    }
  }

  /** The inner loop of `parse_bdf`. */
  method ReadBlock(lines: seq<string>, i0: int) returns (r: Result<(Block, int), BdfError>)
    requires 0 <= i0 <= |lines|
    ensures r == BlockFrom(lines, i0, NewBlock)
  {
    var b := NewBlock;
    var i := i0;
    while i < |lines|
      invariant i0 <= i <= |lines|
      invariant BlockFrom(lines, i0, NewBlock) == BlockFrom(lines, i, b)
      decreases |lines| - i
    {
      var l := StripNewlines(lines[i]);
      if l == "ENDCHAR" {
        return Ok((b, i + 1));
      }
      var next := BlockLine(b, l);
      if next.None? {
        return Err(BadBbx(i));
      }
      b := next.value;
      i := i + 1;
    }
    return Ok((b, i));
  }

  /** `parse_bdf`. */
  method ParseBdfLines(lines: seq<string>) returns (r: Result<BdfFont, BdfError>)
    ensures r == ParseBdf(lines)
  {
    var meta: map<string, string> := map[];
    var glyphs: seq<BdfGlyph> := [];
    var i := 0;
    while i < |lines|
      invariant 0 <= i <= |lines|
      invariant ParseBdf(lines) == ParseFrom(lines, i, BdfFont(meta, glyphs))
      decreases |lines| - i
    {
      var line := RStripNewlines(lines[i]);
      i := i + 1;
      var kind := ClassifyTop(line);
      if kind.Header? {
        meta := meta[kind.key := kind.value];
      } else if kind.StartChar? {
        var block := ReadBlock(lines, i);
        if block.Err? {
          return Err(block.error);
        }
        var b := block.value.0;
        i := block.value.1;
        glyphs := Kept(glyphs, b);
      }
    }
    return Ok(BdfFont(meta, glyphs));
  }

  // ---------------------------------------------------------------------
  // hex_row_to_bits

  /** Pixel k (from the left) of a BDF bitmap row: bit 4|hex|-1-k of its
      value, the row being most significant bit first; columns past the
      row's digits are paper. */
  predicate RowPixel(hex: string, k: int)
    requires AllHex(hex)
  {
    0 <= k < 4 * |hex| && Bit(HexValue(hex), 4 * |hex| - 1 - k)
  }

  /** Python's `v << s` on a natural number: v * 2^s. */
  function ShiftLeft(v: nat, s: nat): nat
  {
    if s == 0 then v else 2 * ShiftLeft(v, s - 1)
  }

  /** Python's `v >> s` on a natural number: v // 2^s. */
  function ShiftRight(v: nat, s: nat): nat
  {
    if s == 0 then v else ShiftRight(v / 2, s - 1)
  }

  /** `hex_row_to_bits(hex_str, width)`; a negative width makes Python
      raise on `1 << width`, so it is excluded. The final
      `val & ((1 << width) - 1)` keeps the remainder modulo 2^width. */
  function HexRowToBits(hex: string, width: nat): (v: nat)
    requires AllHex(hex)
    ensures v < Pow2(width)
  {
    var val := HexValue(hex);
    var rowBits := 4 * |hex|;
    var val' := if rowBits < width then ShiftLeft(val, width - rowBits) else val;
    var rowBits' := if rowBits < width then width else rowBits;
    var shift := rowBits' - width;
    var val'' := if shift > 0 then ShiftRight(val', shift) else val';
    val'' % Pow2(width)
  }

  /** The example of the function's documentation. */
  lemma HexRowExample()
    ensures HexRowToBits("18", 8) == 24
  {
    assert Pow2(8) == 256;
  }

  /** `v << s`: bit k is bit k-s of v, and the s lowest bits are clear. */
  lemma {:induction false} BitShiftLeft(v: nat, s: nat, k: nat)
    ensures Bit(ShiftLeft(v, s), k) <==> k >= s && Bit(v, k - s)
    decreases s
  {
    if s > 0 {
      var x := ShiftLeft(v, s - 1);
      if k == 0 {
        BitShiftIn(x, 0, 0);
      } else {
        BitShiftIn(x, 0, k - 1);
        BitShiftLeft(v, s - 1, k - 1);
      }
    }
  }

  /** `v >> s`: bit k is bit k+s of v. */
  lemma {:induction false} BitShiftRight(v: nat, s: nat, k: nat)
    ensures Bit(ShiftRight(v, s), k) <==> Bit(v, k + s)
    decreases s
  {
    if s > 0 {
      BitShiftRight(v / 2, s - 1, k);
    }
  }

  /** `v >> s` of a number below 2^(n+s) is below 2^n. */
  lemma {:induction false} ShiftRightBelow(v: nat, s: nat, n: nat)
    requires v < Pow2(n + s)
    ensures ShiftRight(v, s) < Pow2(n)
    decreases s
  {
    if s > 0 {
      ShiftRightBelow(v / 2, s - 1, n);
    }
  }

  /** The leftmost `width` pixels of the row, most significant bit first:
      bit width-1-k of the result is pixel k of the row, for k < width,
      whether the row has more digits than needed (cropped) or fewer
      (padded with paper on the right). */
  lemma HexRowBits(hex: string, width: nat, k: int)
    requires AllHex(hex) && 0 <= k < width
    ensures Bit(HexRowToBits(hex, width), width - 1 - k) <==> RowPixel(hex, k)
  {
    if 4 * |hex| < width {
      PaddedRowBits(HexValue(hex), 4 * |hex|, width, k);
    } else {
      CroppedRowBits(HexValue(hex), 4 * |hex|, width, k);
    }
  }

  lemma PaddedRowBits(val: nat, rowBits: nat, width: nat, k: nat)
    requires rowBits < width && k < width
    ensures Bit(ShiftLeft(val, width - rowBits) % Pow2(width), width - 1 - k) <==>
      k < rowBits && Bit(val, rowBits - 1 - k)
  {
    var s := width - rowBits;
    BitMod(ShiftLeft(val, s), width, width - 1 - k);
    BitShiftLeft(val, s, width - 1 - k);
  }

  lemma CroppedRowBits(val: nat, rowBits: nat, width: nat, k: nat)
    requires width <= rowBits && k < width
    ensures var shift := rowBits - width;
      Bit((if shift > 0 then ShiftRight(val, shift) else val) % Pow2(width), width - 1 - k) <==>
      Bit(val, rowBits - 1 - k)
  {
    var shift := rowBits - width;
    if shift > 0 {
      BitMod(ShiftRight(val, shift), width, width - 1 - k);
      BitShiftRight(val, shift, width - 1 - k);
    } else {
      BitMod(val, width, width - 1 - k);
    }
  }

  // ---------------------------------------------------------------------
  // convert_glyph_to_overlay

  const CellWidth: int := 12
  const CellHeight: int := 18

  function Min(a: int, b: int): int { if a <= b then a else b }

  /** Row r of the converted glyph: the source row read `srcW` bits wide,
      then its leftmost w bits when the width was cropped. */
  function CroppedRow(hex: string, srcW: nat, w: nat): nat
    requires AllHex(hex) && w <= srcW
  {
    var full := HexRowToBits(hex, srcW);
    if srcW > w then ShiftRight(full, srcW - w) else full
  }

  /** `convert_glyph_to_overlay`: None for an empty bounding box or no
      bitmap rows; otherwise the glyph cropped to the cell and centred. */
  function ConvertGlyph(g: BdfGlyph): Option<OverlayGlyph>
    requires HexRows(g.bitmapRowsHex)
  {
    if g.bbxW <= 0 || g.bbxH <= 0 || g.bitmapRowsHex == [] then None
    else
      var srcH := Min(g.bbxH, |g.bitmapRowsHex|);
      var srcW := g.bbxW;
      var w := Min(srcW, CellWidth);
      var h := Min(srcH, CellHeight);
      Some(OverlayGlyph(w, h, (CellWidth - w) / 2, (CellHeight - h) / 2,
        seq(h, r requires 0 <= r < h => CroppedRow(g.bitmapRowsHex[r], srcW, w))))
  }

  /** What the conversion gives: nothing exactly for an empty bounding box
      or no rows; otherwise a glyph no wider than the box or the cell, no
      taller than the box, the rows or the cell, centred and inside the
      cell, with one row per line of its height, each below 2^w. */
  lemma ConvertShape(g: BdfGlyph)
    requires HexRows(g.bitmapRowsHex)
    ensures ConvertGlyph(g).None? <==> g.bbxW <= 0 || g.bbxH <= 0 || g.bitmapRowsHex == []
    ensures ConvertGlyph(g).Some? ==>
      var o := ConvertGlyph(g).value;
      o.w == Min(g.bbxW, CellWidth) && o.h == Min(Min(g.bbxH, |g.bitmapRowsHex|), CellHeight) &&
      o.offX == (CellWidth - o.w) / 2 && o.offY == (CellHeight - o.h) / 2 &&
      Inside(o, CellWidth, CellHeight) &&
      forall r :: 0 <= r < |o.rows| ==> 0 <= o.rows[r] < Pow2(o.w)
  {
    if ConvertGlyph(g).Some? {
      var o := ConvertGlyph(g).value;
      forall r | 0 <= r < |o.rows|
        ensures 0 <= o.rows[r] < Pow2(o.w)
      {
        var srcW := g.bbxW;
        var full := HexRowToBits(g.bitmapRowsHex[r], srcW);
        if srcW > o.w {
          ShiftRightBelow(full, srcW - o.w, o.w);
        }
      }
    }
  }

  /** The converted glyph shows ink exactly where the BDF bitmap has a set
      pixel within the kept width and height: cropping keeps the leftmost
      columns and the top rows. */
  lemma ConvertInk(g: BdfGlyph, x: int, y: int)
    requires HexRows(g.bitmapRowsHex) && ConvertGlyph(g).Some?
    ensures var o := ConvertGlyph(g).value;
      Ink(o, x, y) <==> 0 <= x < o.w && 0 <= y < o.h && RowPixel(g.bitmapRowsHex[y], x)
  {
    var o := ConvertGlyph(g).value;
    if 0 <= x < o.w && 0 <= y < o.h {
      var hex := g.bitmapRowsHex[y];
      var srcW := g.bbxW;
      var full := HexRowToBits(hex, srcW);
      assert RowAt(o.rows, y) == CroppedRow(hex, srcW, o.w);
      ConvertShape(g);
      assert o.rows[y] < Pow2(o.w);
      Pow2Below32(o.w);
      assert (o.w - 1 - x) % 32 == o.w - 1 - x;
      HexRowBits(hex, srcW, x);
      if srcW > o.w {
        BitShiftRight(full, srcW - o.w, o.w - 1 - x);
      }
    }
  }

  lemma Pow2Below32(w: nat)
    requires w <= 12
    ensures Pow2(w) <= TwoTo32
  {
    Pow2Mono(w, 12);
    assert Pow2(12) == 4096;
  }

  lemma {:induction false} Pow2Mono(a: nat, b: nat)
    requires a <= b
    ensures Pow2(a) <= Pow2(b)
    decreases b
  {
    if a < b {
      Pow2Mono(a, b - 1);
    }
  }

  /** The row loop of `convert_glyph_to_overlay`. */
  method ConvertGlyphToOverlay(g: BdfGlyph) returns (r: Option<OverlayGlyph>)
    requires HexRows(g.bitmapRowsHex)
    ensures r == ConvertGlyph(g)
  {
    if g.bbxW <= 0 || g.bbxH <= 0 {
      return None;
    }
    if g.bitmapRowsHex == [] {
      return None;
    }
    var srcH := Min(g.bbxH, |g.bitmapRowsHex|);
    var srcW := g.bbxW;
    var w := Min(srcW, CellWidth);
    var h := Min(srcH, CellHeight);
    var xoff := (CellWidth - w) / 2;
    var yoff := (CellHeight - h) / 2;
    var rows: seq<int> := [];
    for y := 0 to h
      invariant |rows| == y
      invariant forall j :: 0 <= j < y ==> rows[j] == CroppedRow(g.bitmapRowsHex[j], srcW, w)
    {
      var bitsFull := HexRowToBits(g.bitmapRowsHex[y], srcW);
      var bits := if srcW > w then ShiftRight(bitsFull, srcW - w) else bitsFull;
      rows := rows + [bits];
    }
    assert rows == seq(h, r requires 0 <= r < h => CroppedRow(g.bitmapRowsHex[r], srcW, w));
    return Some(OverlayGlyph(w, h, xoff, yoff, rows));
  }

  // ---------------------------------------------------------------------
  // main: the conversion loop

  /** The overlay glyphs of the converted font under `_uplus` keys, and
      the count the converter reports, after the glyphs in order; a later
      glyph with the same code point replaces an earlier one. */
  function ConvertAll(glyphs: seq<BdfGlyph>): (map<string, OverlayGlyph>, nat)
    requires GlyphsOk(glyphs)
    decreases |glyphs|
  {
    if glyphs == [] then (map[], 0)
    else
      var front := glyphs[..|glyphs| - 1];
      var g := glyphs[|glyphs| - 1];
      var acc := ConvertAll(front);
      match ConvertGlyph(g)
      case None => acc
      case Some(o) => (acc.0[PyUPlus(g.codepoint) := o], acc.1 + 1)
  }

  /** The code points of the glyphs that convert. */
  function ConvertedCodepoints(glyphs: seq<BdfGlyph>): set<int>
    requires GlyphsOk(glyphs)
  {
    set n | 0 <= n < |glyphs| && ConvertGlyph(glyphs[n]).Some? :: glyphs[n].codepoint
  }

  lemma ConvertedSnoc(glyphs: seq<BdfGlyph>)
    requires GlyphsOk(glyphs) && glyphs != []
    ensures GlyphsOk(glyphs[..|glyphs| - 1])
    ensures var g := glyphs[|glyphs| - 1];
      ConvertedCodepoints(glyphs) ==
      ConvertedCodepoints(glyphs[..|glyphs| - 1]) + (if ConvertGlyph(g).Some? then {g.codepoint} else {})
  {
    var front := glyphs[..|glyphs| - 1];
    assert forall n :: 0 <= n < |front| ==> front[n] == glyphs[n];
  }

  /** The converted font holds exactly the keys of the glyphs that
      convert. */
  lemma {:induction false} ConvertAllKeys(glyphs: seq<BdfGlyph>)
    requires GlyphsOk(glyphs)
    ensures ConvertAll(glyphs).0.Keys == set cp | cp in ConvertedCodepoints(glyphs) :: PyUPlus(cp)
    decreases |glyphs|
  {
    if glyphs != [] {
      var front := glyphs[..|glyphs| - 1];
      ConvertedSnoc(glyphs);
      ConvertAllKeys(front);
    }
  }

  /** Every key of the converted font reads back as the code point it was
      made from, and every glyph lies inside the cell. */
  lemma {:induction false} ConvertAllValues(glyphs: seq<BdfGlyph>)
    requires GlyphsOk(glyphs)
    ensures var m := ConvertAll(glyphs).0;
      forall k :: k in m ==> ParseUPlus(k) >= 0 && PyUPlus(ParseUPlus(k)) == k && Inside(m[k], CellWidth, CellHeight)
    decreases |glyphs|
  {
    if glyphs != [] {
      var front := glyphs[..|glyphs| - 1];
      var g := glyphs[|glyphs| - 1];
      assert GlyphsOk(front);
      ConvertAllValues(front);
      if ConvertGlyph(g).Some? {
        ConvertShape(g);
        UPlusRoundTrip(g.codepoint);
      }
    }
  }

  /** The reported count is at least the number of keys (equal unless two
      glyphs share a code point). */
  lemma {:induction false} ConvertAllCount(glyphs: seq<BdfGlyph>)
    requires GlyphsOk(glyphs)
    ensures |ConvertAll(glyphs).0.Keys| <= ConvertAll(glyphs).1
    decreases |glyphs|
  {
    if glyphs != [] {
      var front := glyphs[..|glyphs| - 1];
      var g := glyphs[|glyphs| - 1];
      assert GlyphsOk(front);
      ConvertAllCount(front);
      var m := ConvertAll(front).0;
      if ConvertGlyph(g).Some? {
        assert m[PyUPlus(g.codepoint) := ConvertGlyph(g).value].Keys == m.Keys + {PyUPlus(g.codepoint)};
      }
    }
  }

  /** The conversion loop of `main`. */
  method ConvertFont(glyphs: seq<BdfGlyph>) returns (out: map<string, OverlayGlyph>, count: nat)
    requires GlyphsOk(glyphs)
    ensures (out, count) == ConvertAll(glyphs)
  {
    out, count := map[], 0;
    for n := 0 to |glyphs|
      invariant GlyphsOk(glyphs[..n])
      invariant (out, count) == ConvertAll(glyphs[..n])
    {
      assert glyphs[..n + 1][..n] == glyphs[..n];
      var g := glyphs[n];
      var entry := ConvertGlyphToOverlay(g);
      if entry.Some? {
        out := out[PyUPlus(g.codepoint) := entry.value];
        count := count + 1;
      }
    }
    assert glyphs[..|glyphs|] == glyphs;
  }
}
