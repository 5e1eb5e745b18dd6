/**
 * The MAX7456 text ".mcm" codec: a "MAX7456" header line followed by
 * 256 x 64 lines of eight binary digits, one byte per line. Each glyph
 * uses 54 bytes (18 rows of 3 bytes, four 2-bit pixels per byte, most
 * significant pair first) and 10 padding bytes.
 *
 * The decoder works on the file's text (js/mcm.js decodes the bytes
 * with a one-byte-per-character decoder first).
 */
module Mcm {
  import opened Wrappers
  import opened Text
  import opened Glyph

  const Marker: string := "MAX7456"
  const BytesPerGlyph: int := 64
  const DataBytes: int := 54
  /** Number of byte lines a complete file holds: 256 * 64. */
  const Needed: int := 16384
  const PadByte: bv8 := 0x55

  datatype DecodeError =
    | NotTextMcm
    | BadMarker
    | TooShort(got: nat)
    | BadByteLine(index: nat, line: string)

  datatype EncodeError =
    | BadSize(width: int, height: int)
    | BadGlyphCount(count: nat)
    | BadGlyphLength(index: nat)

  // ---------------------------------------------------------------------
  // Lines

  /** `text.split(/\r?\n/)`: a line ends at "\n" or "\r\n"; a lone "\r"
      stays inside its line. */
  function SplitLines(s: string): (r: seq<string>)
    ensures |r| >= 1
  {
    if s == [] then [""]
    else if s[0] == '\n' then [""] + SplitLines(s[1..])
    else if s[0] == '\r' && |s| >= 2 && s[1] == '\n' then [""] + SplitLines(s[2..])
    else
      var rest := SplitLines(s[1..]);
      [[s[0]] + rest[0]] + rest[1..]
  }

  /** `lines.join(sep)` */
  function JoinWith(ls: seq<string>, sep: string): string
  {
    if ls == [] then ""
    else if |ls| == 1 then ls[0]
    else ls[0] + sep + JoinWith(ls[1..], sep)
  }

  predicate NoBreak(l: string)
  {
    forall i :: 0 <= i < |l| ==> l[i] != '\r' && l[i] != '\n'
  }

  lemma {:induction false} SplitAfterLine(l: string, sep: string, t: string)
    requires NoBreak(l)
    requires sep == "\n" || sep == "\r\n"
    ensures SplitLines(l + sep + t) == [l] + SplitLines(t)
    decreases |l|
  {
    if l == [] {
      assert l + sep + t == sep + t;
      if sep == "\n" {
        assert (sep + t)[1..] == t;
      } else {
        assert (sep + t)[2..] == t;
      }
    } else {
      assert (l + sep + t)[1..] == l[1..] + sep + t;
      SplitAfterLine(l[1..], sep, t);
      assert [l[0]] + l[1..] == l;
    }
  }

  lemma {:induction false} SplitLastLine(l: string)
    requires NoBreak(l)
    ensures SplitLines(l) == [l]
    decreases |l|
  {
    if l != [] {
      SplitLastLine(l[1..]);
      assert [l[0]] + l[1..] == l;
    }
  }

  /** Splitting undoes joining, whichever line ending joined the lines. */
  lemma {:induction false} SplitJoin(ls: seq<string>, sep: string)
    requires ls != []
    requires forall i :: 0 <= i < |ls| ==> NoBreak(ls[i])
    requires sep == "\n" || sep == "\r\n"
    ensures SplitLines(JoinWith(ls, sep)) == ls
    decreases |ls|
  {
    if |ls| == 1 {
      SplitLastLine(ls[0]);
    } else {
      SplitJoin(ls[1..], sep);
      SplitAfterLine(ls[0], sep, JoinWith(ls[1..], sep));
      assert [ls[0]] + ls[1..] == ls;
    }
  }

  /** A final line ending adds one empty piece. */
  lemma {:induction false} SplitJoinTerminated(ls: seq<string>, sep: string)
    requires ls != []
    requires forall i :: 0 <= i < |ls| ==> NoBreak(ls[i])
    requires sep == "\n" || sep == "\r\n"
    ensures SplitLines(JoinWith(ls, sep) + sep) == ls + [""]
    decreases |ls|
  {
    if |ls| == 1 {
      SplitAfterLine(ls[0], sep, "");
      assert ls[0] + sep + "" == ls[0] + sep;
    } else {
      SplitJoinTerminated(ls[1..], sep);
      SplitAfterLine(ls[0], sep, JoinWith(ls[1..], sep) + sep);
      assert ls[0] + sep + JoinWith(ls[1..], sep) + sep
          == ls[0] + sep + (JoinWith(ls[1..], sep) + sep);
      assert [ls[0]] + (ls[1..] + [""]) == ls + [""];
    }
  }

  /** The decoder accepts LF and CRLF files alike. */
  lemma LineEndingsAgnostic(ls: seq<string>)
    requires ls != []
    requires forall i :: 0 <= i < |ls| ==> NoBreak(ls[i])
    ensures SplitLines(JoinWith(ls, "\n")) == SplitLines(JoinWith(ls, "\r\n")) == ls
  {
    SplitJoin(ls, "\n");
    SplitJoin(ls, "\r\n");
  }

  /** `lines.filter(s => s.trim().length)`: drops blank lines (see
      `BlankIffTrimEmpty`). */
  function NonBlank(ls: seq<string>): (r: seq<string>)
    ensures |r| <= |ls|
    ensures forall i :: 0 <= i < |r| ==> !Blank(r[i])
  {
    if ls == [] then []
    else if !Blank(ls[0]) then [ls[0]] + NonBlank(ls[1..])
    else NonBlank(ls[1..])
  }

  lemma {:induction false} NonBlankAppend(a: seq<string>, b: seq<string>)
    ensures NonBlank(a + b) == NonBlank(a) + NonBlank(b)
    decreases |a|
  {
    if a != [] {
      assert (a + b)[1..] == a[1..] + b;
      NonBlankAppend(a[1..], b);
    } else {
      assert a + b == b;
    }
  }

  // ---------------------------------------------------------------------
  // Bytes and 2-bit fields

  /** `/^[01]{8}$/` */
  predicate IsByteLine(s: string)
  {
    |s| == 8 && forall i :: 0 <= i < 8 ==> s[i] == '0' || s[i] == '1'
  }

  function BitOf(c: char): bv8 { if c == '1' then 1 else 0 }

  /** `parseInt(s, 2)` on a line of exactly eight binary digits. */
  function ParseByte(s: string): bv8
    requires IsByteLine(s)
  {
    (BitOf(s[0]) << 7) | (BitOf(s[1]) << 6) | (BitOf(s[2]) << 5) | (BitOf(s[3]) << 4) |
    (BitOf(s[4]) << 3) | (BitOf(s[5]) << 2) | (BitOf(s[6]) << 1) | BitOf(s[7])
  }

  function Digit(b: bv8): char { if b & 1 == 1 then '1' else '0' }

  /** `b.toString(2).padStart(8, "0")`: the eight binary digits of b. */
  function ByteLine(b: bv8): (r: string)
    ensures IsByteLine(r)
  {
    [Digit(b >> 7), Digit(b >> 6), Digit(b >> 5), Digit(b >> 4),
     Digit(b >> 3), Digit(b >> 2), Digit(b >> 1), Digit(b)]
  }

  lemma ParseByteLine(b: bv8)
    ensures ParseByte(ByteLine(b)) == b
  {
  }

  lemma ByteLineTrimmed(b: bv8)
    ensures Trim(ByteLine(b)) == ByteLine(b)
    ensures NoBreak(ByteLine(b))
  {
    TrimNoSpace(ByteLine(b));
  }

  /** `v & 3` as a number. */
  function Low2(v: bv32): int
  {
    var t := v & 3;
    if t == 0 then 0 else if t == 1 then 1 else if t == 2 then 2 else 3
  }

  /** The 24 bits of a row: `(b0 << 16) | (b1 << 8) | b2`. */
  function RowBits(b0: bv8, b1: bv8, b2: bv8): bv32
  {
    (b0 as bv32 << 16) | (b1 as bv32 << 8) | (b2 as bv32)
  }

  /** The 2-bit pixel x (0..11) of a row: `(bits24 >> (22 - 2x)) & 3`. */
  function RowPixel(b0: bv8, b1: bv8, b2: bv8, x: int): int
    requires 0 <= x < 12
  {
    Low2(RowBits(b0, b1, b2) >> (22 - 2 * x))
  }

  /** The k-th 2-bit pair (0..3) of a byte, most significant first. */
  function Pair(b: bv8, k: int): int
    requires 0 <= k < 4
  {
    Low2(b as bv32 >> (6 - 2 * k))
  }

  /** Pixel x of a row lives in byte x / 4 of the row, at pair x % 4. */
  lemma RowPixelIsPair(b0: bv8, b1: bv8, b2: bv8, x: int)
    requires 0 <= x < 12
    ensures x < 4 ==> RowPixel(b0, b1, b2, x) == Pair(b0, x)
    ensures 4 <= x < 8 ==> RowPixel(b0, b1, b2, x) == Pair(b1, x - 4)
    ensures 8 <= x ==> RowPixel(b0, b1, b2, x) == Pair(b2, x - 8)
  {
    if x < 4 {
      FirstBytePairs(b0, b1, b2, x);
    } else if x < 8 {
      MiddleBytePairs(b0, b1, b2, x);
    } else {
      LastBytePairs(b0, b1, b2, x);
    }
  }

  lemma FirstBytePairs(b0: bv8, b1: bv8, b2: bv8, x: int)
    requires 0 <= x < 4
    ensures RowPixel(b0, b1, b2, x) == Pair(b0, x)
  {
    if x == 0 {} else if x == 1 {} else if x == 2 {} else {}
  }

  lemma MiddleBytePairs(b0: bv8, b1: bv8, b2: bv8, x: int)
    requires 4 <= x < 8
    ensures RowPixel(b0, b1, b2, x) == Pair(b1, x - 4)
  {
    if x == 4 {} else if x == 5 {} else if x == 6 {} else {}
  }

  lemma LastBytePairs(b0: bv8, b1: bv8, b2: bv8, x: int)
    requires 8 <= x < 12
    ensures RowPixel(b0, b1, b2, x) == Pair(b2, x - 8)
  {
    if x == 8 {} else if x == 9 {} else if x == 10 {} else {}
  }

  // ---------------------------------------------------------------------
  // Decoding

  /** The first 16 characters the decoder sniffs. */
  function Head(text: string): string
  {
    if |text| < 16 then text else text[..16]
  }

  /** `Trim` applied to every line. */
  function TrimAll(ls: seq<string>): (r: seq<string>)
    ensures |r| == |ls|
  {
    if ls == [] then [] else [Trim(ls[0])] + TrimAll(ls[1..])
  }

  lemma {:induction false} TrimAllAt(ls: seq<string>, i: int)
    requires 0 <= i < |ls|
    ensures TrimAll(ls)[i] == Trim(ls[i])
    decreases |ls|
  {
    if i > 0 {
      TrimAllAt(ls[1..], i - 1);
    }
  }

  lemma {:induction false} TrimAllFixed(ls: seq<string>)
    requires forall i :: 0 <= i < |ls| ==> Trim(ls[i]) == ls[i]
    ensures TrimAll(ls) == ls
    decreases |ls|
  {
    if ls != [] {
      TrimAllFixed(ls[1..]);
      assert [ls[0]] + ls[1..] == ls;
    }
  }

  /** The first `Needed` byte lines, trimmed, as the decoder reads them. */
  function ByteLines(bitLines: seq<string>): (t: seq<string>)
    requires |bitLines| >= Needed
    ensures |t| == Needed
  {
    TrimAll(bitLines[..Needed])
  }

  /** The first trimmed byte line at or after i that is not eight binary
      digits. */
  function FirstBadLine(t: seq<string>, i: nat): (r: Option<nat>)
    requires |t| == Needed
    ensures r.None? ==> forall j :: i <= j < Needed ==> IsByteLine(t[j])
    ensures r.Some? ==> i <= r.value < Needed && !IsByteLine(t[r.value]) &&
                        forall j :: i <= j < r.value ==> IsByteLine(t[j])
    decreases Needed - i
  {
    if i >= Needed then None
    else if !IsByteLine(t[i]) then Some(i)
    else FirstBadLine(t, i + 1)
  }

  /** The byte lines as bytes. */
  function LineBytes(t: seq<string>): (r: seq<bv8>)
    requires |t| == Needed
    requires forall j :: 0 <= j < Needed ==> IsByteLine(t[j])
    ensures |r| == Needed
  {
    seq(Needed, j requires 0 <= j < Needed => ParseByte(t[j]))
  }

  /** Index of the byte holding pixel n (row n / 12) of glyph g. */
  function PixelByte(g: int, n: int, k: int): int
  {
    g * BytesPerGlyph + Row(n) * 3 + k
  }

  lemma GlyphOffset(g: int, j: int)
    requires 0 <= g && 0 <= j < BytesPerGlyph
    ensures (g * BytesPerGlyph + j) / BytesPerGlyph == g
    ensures (g * BytesPerGlyph + j) % BytesPerGlyph == j
  {
  }

  lemma PixelByteInGlyph(g: int, n: int, k: int)
    requires 0 <= g < GlyphCount && 0 <= n < CellSize && 0 <= k < 3
    ensures 0 <= Row(n) * 3 + k < DataBytes
    ensures 0 <= PixelByte(g, n, k) < Needed
    ensures PixelByte(g, n, k) / BytesPerGlyph == g
    ensures PixelByte(g, n, k) % BytesPerGlyph == Row(n) * 3 + k
  {
    GlyphOffset(g, Row(n) * 3 + k);
  }

  function DecodedPixel(bytes: seq<bv8>, g: int, n: int): int
    requires |bytes| == Needed && 0 <= g < GlyphCount && 0 <= n < CellSize
  {
    PixelByteInGlyph(g, n, 0);
    PixelByteInGlyph(g, n, 2);
    RowPixel(bytes[PixelByte(g, n, 0)], bytes[PixelByte(g, n, 1)], bytes[PixelByte(g, n, 2)], Col(n))
  }

  function DecodedGlyph(bytes: seq<bv8>, g: int): (r: Pixels)
    requires |bytes| == Needed && 0 <= g < GlyphCount
    ensures |r| == CellSize
  {
    seq(CellSize, n requires 0 <= n < CellSize => DecodedPixel(bytes, g, n))
  }

  function FontOf(bytes: seq<bv8>): Font
    requires |bytes| == Needed
  {
    Font(CellW, CellH, seq(GlyphCount, g requires 0 <= g < GlyphCount => DecodedGlyph(bytes, g)))
  }

  function DecodeLines(lines: seq<string>): Result<Font, DecodeError>
    requires |lines| >= 1
  {
    if Trim(lines[0]) != Marker then Err(BadMarker)
    else
      var bitLines := NonBlank(lines[1..]);
      if |bitLines| < Needed then Err(TooShort(|bitLines|))
      else
        var t := ByteLines(bitLines);
        match FirstBadLine(t, 0)
        case Some(i) => Err(BadByteLine(i, t[i]))
        case None => Ok(FontOf(LineBytes(t)))
  }

  /** What `decodeMCM` returns or throws for a file's text. */
  function Decode(text: string): Result<Font, DecodeError>
  {
    if !(Marker <= Head(text)) then Err(NotTextMcm)
    else DecodeLines(SplitLines(text))
  }

  lemma {:induction false} FirstBadLineSkip(ls: seq<string>, k: nat, i: nat)
    requires |ls| == Needed && k <= i <= Needed
    requires forall j :: k <= j < i ==> IsByteLine(ls[j])
    ensures FirstBadLine(ls, k) == FirstBadLine(ls, i)
    decreases i - k
  {
    if k < i {
      FirstBadLineSkip(ls, k + 1, i);
    }
  }

  method DecodeMcm(text: string) returns (r: Result<Font, DecodeError>)
    ensures r == Decode(text)
  {
    var head := if |text| < 16 then text else text[..16];
    if !(Marker <= head) {
      return Err(NotTextMcm);
    }
    var lines := SplitLines(text);
    assert Decode(text) == DecodeLines(lines);
    if Trim(lines[0]) != Marker {
      return Err(BadMarker);
    }
    var bitLines := NonBlank(lines[1..]);
    if |bitLines| < Needed {
      return Err(TooShort(|bitLines|));
    }
    var glyphBytes, bad := ReadByteLines(bitLines);
    if bad.Some? {
      TrimAllAt(bitLines[..Needed], bad.value);
      return Err(BadByteLine(bad.value, Trim(bitLines[bad.value])));
    }
    var glyphs := UnpackGlyphs(glyphBytes);
    return Ok(Font(CellW, CellH, glyphs));
  }

  method UnpackGlyphs(glyphBytes: array<bv8>) returns (glyphs: seq<Pixels>)
    requires glyphBytes.Length == Needed
    ensures glyphs == FontOf(glyphBytes[..]).glyphs
  {
    glyphs := [];
    for g := 0 to GlyphCount
      invariant |glyphs| == g
      invariant forall k :: 0 <= k < g ==> glyphs[k] == DecodedGlyph(glyphBytes[..], k)
    {
      var pixels := UnpackGlyph(glyphBytes[..], g);
      glyphs := glyphs + [pixels];
    }
  }

  /** Parses the first `Needed` byte lines, stopping at the first line
      that is not eight binary digits once trimmed. */
  method ReadByteLines(bitLines: seq<string>) returns (glyphBytes: array<bv8>, bad: Option<nat>)
    requires |bitLines| >= Needed
    ensures fresh(glyphBytes) && glyphBytes.Length == Needed
    ensures bad == FirstBadLine(ByteLines(bitLines), 0)
    ensures bad.None? ==> glyphBytes[..] == LineBytes(ByteLines(bitLines))
  {
    ghost var t := ByteLines(bitLines);
    glyphBytes := new bv8[Needed];
    var i := 0;
    while i < Needed
      invariant 0 <= i <= Needed
      invariant forall j :: 0 <= j < i ==> IsByteLine(t[j])
      invariant forall j :: 0 <= j < i ==> glyphBytes[j] == ParseByte(t[j])
    {
      var s := Trim(bitLines[i]);
      TrimAllAt(bitLines[..Needed], i);
      if !IsByteLine(s) {
        FirstBadLineSkip(t, 0, i);
        return glyphBytes, Some(i);
      }
      glyphBytes[i] := ParseByte(s);
      i := i + 1;
    }
    FirstBadLineSkip(t, 0, Needed);
    bad := None;
  }

  lemma DecodedPixelAt(bytes: seq<bv8>, g: int, y: int, x: int)
    requires |bytes| == Needed && 0 <= g < GlyphCount && 0 <= y < CellH && 0 <= x < CellW
    ensures 0 <= g * BytesPerGlyph + y * 3 && g * BytesPerGlyph + y * 3 + 2 < Needed
    ensures DecodedPixel(bytes, g, y * CellW + x) ==
      RowPixel(bytes[g * BytesPerGlyph + y * 3], bytes[g * BytesPerGlyph + y * 3 + 1], bytes[g * BytesPerGlyph + y * 3 + 2], x)
  {
    assert Row(y * CellW + x) == y && Col(y * CellW + x) == x;
  }

  /** The 18 rows of glyph g: three bytes per row, 2 bits per pixel. */
  method UnpackGlyph(glyphBytes: seq<bv8>, g: int) returns (r: Pixels)
    requires |glyphBytes| == Needed && 0 <= g < GlyphCount
    ensures r == DecodedGlyph(glyphBytes, g)
  {
    var pixels := new int[CellSize];
    var base := g * BytesPerGlyph;
    for y := 0 to CellH
      invariant forall n :: 0 <= n < y * CellW ==> pixels[n] == DecodedPixel(glyphBytes, g, n)
    {
      var b0 := glyphBytes[base + y * 3 + 0];
      var b1 := glyphBytes[base + y * 3 + 1];
      var b2 := glyphBytes[base + y * 3 + 2];
      for x := 0 to CellW
        invariant forall n :: 0 <= n < y * CellW + x ==> pixels[n] == DecodedPixel(glyphBytes, g, n)
      {
        DecodedPixelAt(glyphBytes, g, y, x);
        pixels[y * CellW + x] := RowPixel(b0, b1, b2, x);
      }
    }
    r := pixels[..];
  }

  lemma PixelIndex(n: int)
    requires 0 <= n < CellSize
    ensures n / 4 == Row(n) * 3 + Col(n) / 4 && n % 4 == Col(n) % 4
  {
  }

  /** Four pixels per byte, most significant pair first: pixel n of a
      glyph is pair n % 4 of the glyph's byte n / 4. */
  lemma DecodedPixelIsPair(bytes: seq<bv8>, g: int, n: int)
    requires |bytes| == Needed && 0 <= g < GlyphCount && 0 <= n < CellSize
    ensures 0 <= g * BytesPerGlyph + n / 4 < Needed
    ensures DecodedPixel(bytes, g, n) == Pair(bytes[g * BytesPerGlyph + n / 4], n % 4)
  {
    PixelIndex(n);
    PixelByteInGlyph(g, n, 0);
    PixelByteInGlyph(g, n, 1);
    PixelByteInGlyph(g, n, 2);
    var x := Col(n);
    var p := g * BytesPerGlyph + Row(n) * 3;
    var b0, b1, b2 := bytes[p], bytes[p + 1], bytes[p + 2];
    assert DecodedPixel(bytes, g, n) == RowPixel(b0, b1, b2, x);
    if x < 4 {
      FirstBytePairs(b0, b1, b2, x);
      assert n / 4 == Row(n) * 3 && n % 4 == x;
    } else if x < 8 {
      MiddleBytePairs(b0, b1, b2, x);
      assert n / 4 == Row(n) * 3 + 1 && n % 4 == x - 4;
    } else {
      LastBytePairs(b0, b1, b2, x);
      assert n / 4 == Row(n) * 3 + 2 && n % 4 == x - 8;
    }
  }

  // ---------------------------------------------------------------------
  // Encoding

  /** Editor value to chip value: white 2 -> 10, black 0 and stroke 3 ->
      00, anything else -> 01 (transparent). */
  function ChipValue(v: int): bv8
  {
    if v == 2 then 2 else if v == 0 || v == 3 then 0 else 1
  }

  /** Byte bi of a glyph: pixels 4bi .. 4bi+3 in bits 7:6, 5:4, 3:2, 1:0. */
  function PackByte(g: Pixels, bi: int): bv8
    requires |g| == CellSize && 0 <= bi < DataBytes
  {
    (ChipValue(g[4 * bi]) << 6) | (ChipValue(g[4 * bi + 1]) << 4) |
    (ChipValue(g[4 * bi + 2]) << 2) | ChipValue(g[4 * bi + 3])
  }

  predicate GlyphLengthsOk(glyphs: seq<Pixels>)
  {
    forall g :: 0 <= g < |glyphs| ==> |glyphs[g]| == CellSize
  }

  /** Byte j (0..63) of an encoded glyph: 54 packed bytes, then 10 pads. */
  function GlyphByte(g: Pixels, j: int): bv8
    requires |g| == CellSize && 0 <= j < BytesPerGlyph
  {
    if j < DataBytes then PackByte(g, j) else PadByte
  }

  /** Byte i of the encoded file body. */
  function EncodedByte(glyphs: seq<Pixels>, i: int): bv8
    requires |glyphs| == GlyphCount && GlyphLengthsOk(glyphs) && 0 <= i < Needed
  {
    GlyphByte(glyphs[i / BytesPerGlyph], i % BytesPerGlyph)
  }

  function DataLines(glyphs: seq<Pixels>): (r: seq<string>)
    requires |glyphs| == GlyphCount && GlyphLengthsOk(glyphs)
    ensures |r| == Needed
  {
    seq(Needed, i requires 0 <= i < Needed => ByteLine(EncodedByte(glyphs, i)))
  }

  /** `lines.join("\r\n") + "\r\n"` */
  function JoinCrlf(ls: seq<string>): string
  {
    JoinWith(ls, "\r\n") + "\r\n"
  }

  function FirstBadGlyph(glyphs: seq<Pixels>, i: nat): (r: Option<nat>)
    ensures r.None? ==> forall j :: i <= j < |glyphs| ==> |glyphs[j]| == CellSize
    ensures r.Some? ==> i <= r.value < |glyphs| && |glyphs[r.value]| != CellSize &&
                        forall j :: i <= j < r.value ==> |glyphs[j]| == CellSize
    decreases |glyphs| - i
  {
    if i >= |glyphs| then None
    else if |glyphs[i]| != CellSize then Some(i)
    else FirstBadGlyph(glyphs, i + 1)
  }

  /** What `encodeMCM` returns or throws for a font. */
  function Encode(f: Font): Result<string, EncodeError>
  {
    if f.width != CellW || f.height != CellH then Err(BadSize(f.width, f.height))
    else if |f.glyphs| != GlyphCount then Err(BadGlyphCount(|f.glyphs|))
    else match FirstBadGlyph(f.glyphs, 0)
      case Some(gi) => Err(BadGlyphLength(gi))
      case None => Ok(JoinCrlf([Marker] + DataLines(f.glyphs)))
  }

  lemma {:induction false} FirstBadGlyphSkip(glyphs: seq<Pixels>, k: nat, i: nat)
    requires k <= i <= |glyphs|
    requires forall j :: k <= j < i ==> |glyphs[j]| == CellSize
    ensures FirstBadGlyph(glyphs, k) == FirstBadGlyph(glyphs, i)
    decreases i - k
  {
    if k < i {
      FirstBadGlyphSkip(glyphs, k + 1, i);
    }
  }

  method EncodeMcm(f: Font) returns (r: Result<string, EncodeError>)
    ensures r == Encode(f)
  {
    if f.width != CellW || f.height != CellH {
      return Err(BadSize(f.width, f.height));
    }
    if |f.glyphs| != GlyphCount {
      return Err(BadGlyphCount(|f.glyphs|));
    }
    var lines: seq<string> := [Marker];
    for gi := 0 to GlyphCount
      invariant |lines| == 1 + gi * BytesPerGlyph
      invariant lines[0] == Marker
      invariant forall j :: 0 <= j < gi ==> |f.glyphs[j]| == CellSize
      invariant forall i :: 0 <= i < gi * BytesPerGlyph ==>
        |f.glyphs[i / BytesPerGlyph]| == CellSize &&
        lines[1 + i] == ByteLine(GlyphByte(f.glyphs[i / BytesPerGlyph], i % BytesPerGlyph))
    {
      var g := f.glyphs[gi];
      if |g| != CellSize {
        FirstBadGlyphSkip(f.glyphs, 0, gi);
        return Err(BadGlyphLength(gi));
      }
      var p := 0;
      for bi := 0 to DataBytes
        invariant p == 4 * bi
        invariant |lines| == 1 + gi * BytesPerGlyph + bi
        invariant lines[0] == Marker
        invariant forall i :: 0 <= i < gi * BytesPerGlyph + bi ==>
          |f.glyphs[i / BytesPerGlyph]| == CellSize &&
          lines[1 + i] == ByteLine(GlyphByte(f.glyphs[i / BytesPerGlyph], i % BytesPerGlyph))
      {
        var p0 := ChipValue(g[p]);
        p := p + 1;
        var p1 := ChipValue(g[p]);
        p := p + 1;
        var p2 := ChipValue(g[p]);
        p := p + 1;
        var p3 := ChipValue(g[p]);
        p := p + 1;
        var b := (p0 << 6) | (p1 << 4) | (p2 << 2) | (p3 << 0);
        lines := lines + [ByteLine(b)];
      }
      for k := 0 to BytesPerGlyph - DataBytes
        invariant |lines| == 1 + gi * BytesPerGlyph + DataBytes + k
        invariant lines[0] == Marker
        invariant forall i :: 0 <= i < gi * BytesPerGlyph + DataBytes + k ==>
          |f.glyphs[i / BytesPerGlyph]| == CellSize &&
          lines[1 + i] == ByteLine(GlyphByte(f.glyphs[i / BytesPerGlyph], i % BytesPerGlyph))
      {
        lines := lines + [ByteLine(PadByte)];
      }
    }
    FirstBadGlyphSkip(f.glyphs, 0, GlyphCount);
    assert lines == [Marker] + DataLines(f.glyphs);
    r := Ok(JoinCrlf(lines));
  }

  // ---------------------------------------------------------------------
  // Properties

  /** A successful decode read its font from the first `Needed` non-blank
      lines after the marker. */
  lemma DecodeOk(text: string)
    requires Decode(text).Ok?
    ensures var bitLines := NonBlank(SplitLines(text)[1..]);
            |bitLines| >= Needed && FirstBadLine(ByteLines(bitLines), 0).None? &&
            Decode(text).value == FontOf(LineBytes(ByteLines(bitLines)))
  {
  }

  lemma FontOfWellFormed(bytes: seq<bv8>)
    requires |bytes| == Needed
    ensures WellFormed(FontOf(bytes))
    ensures forall g, n :: 0 <= g < GlyphCount && 0 <= n < CellSize ==>
      IsPixelValue(FontOf(bytes).glyphs[g][n])
  {
    forall g, n | 0 <= g < GlyphCount && 0 <= n < CellSize
      ensures IsPixelValue(FontOf(bytes).glyphs[g][n])
    {
      PixelByteInGlyph(g, n, 2);
      RowPixelIsPair(bytes[PixelByte(g, n, 0)], bytes[PixelByte(g, n, 1)], bytes[PixelByte(g, n, 2)], Col(n));
      assert FontOf(bytes).glyphs[g][n] == DecodedPixel(bytes, g, n);
    }
  }

  /** A decoded font has the shape every other part of the editor relies
      on, and every pixel is one of the four editor values. */
  lemma DecodeWellFormed(text: string)
    requires Decode(text).Ok?
    ensures WellFormed(Decode(text).value)
    ensures forall g, n :: 0 <= g < GlyphCount && 0 <= n < CellSize ==>
      IsPixelValue(Decode(text).value.glyphs[g][n])
  {
    DecodeOk(text);
    FontOfWellFormed(LineBytes(ByteLines(NonBlank(SplitLines(text)[1..]))));
  }

  /** The padding bytes of each glyph (54..63) never reach a pixel. */
  lemma PaddingIgnored(b1: seq<bv8>, b2: seq<bv8>)
    requires |b1| == Needed && |b2| == Needed
    requires forall i :: 0 <= i < Needed && i % BytesPerGlyph < DataBytes ==> b1[i] == b2[i]
    ensures FontOf(b1) == FontOf(b2)
  {
    forall g | 0 <= g < GlyphCount
      ensures DecodedGlyph(b1, g) == DecodedGlyph(b2, g)
    {
      forall n | 0 <= n < CellSize
        ensures DecodedPixel(b1, g, n) == DecodedPixel(b2, g, n)
      {
        PixelByteInGlyph(g, n, 0);
        PixelByteInGlyph(g, n, 1);
        PixelByteInGlyph(g, n, 2);
      }
    }
  }

  /** The value an editor pixel has after a trip through the chip format:
      white stays white, black and stroke become black, everything else
      becomes the transparent background. */
  function Canonical(v: int): (r: int)
    ensures IsPixelValue(r)
    ensures v == 0 || v == 1 || v == 2 ==> r == v
    ensures v == 3 ==> r == 0
    ensures !IsPixelValue(v) ==> r == 1
  {
    if v == 2 then 2 else if v == 0 || v == 3 then 0 else 1
  }

  function CanonicalFont(f: Font): Font
    requires WellFormed(f)
  {
    Font(f.width, f.height,
      seq(GlyphCount, g requires 0 <= g < GlyphCount =>
        seq(CellSize, n requires 0 <= n < CellSize => Canonical(f.glyphs[g][n]))))
  }

  lemma ChipValueRead(v: int)
    ensures Low2(ChipValue(v) as bv32) == Canonical(v)
  {
  }

  lemma PackedPairs(c0: bv8, c1: bv8, c2: bv8, c3: bv8)
    requires c0 < 4 && c1 < 4 && c2 < 4 && c3 < 4
    ensures var b := (c0 << 6) | (c1 << 4) | (c2 << 2) | c3;
            Pair(b, 0) == Low2(c0 as bv32) && Pair(b, 1) == Low2(c1 as bv32) &&
            Pair(b, 2) == Low2(c2 as bv32) && Pair(b, 3) == Low2(c3 as bv32)
  {
  }

  /** Reading pair k of packed byte bi gives back pixel 4bi+k as the chip
      sees it. */
  lemma PackByteRead(g: Pixels, bi: int, k: int)
    requires |g| == CellSize && 0 <= bi < DataBytes && 0 <= k < 4
    ensures Pair(PackByte(g, bi), k) == Canonical(g[4 * bi + k])
  {
    PackedPairs(ChipValue(g[4 * bi]), ChipValue(g[4 * bi + 1]), ChipValue(g[4 * bi + 2]), ChipValue(g[4 * bi + 3]));
    ChipValueRead(g[4 * bi + k]);
  }

  lemma EncodeOkIff(f: Font)
    ensures Encode(f).Ok? <==> WellFormed(f)
  {
    if |f.glyphs| == GlyphCount {
      var b := FirstBadGlyph(f.glyphs, 0);
    }
  }

  lemma {:induction false} NonBlankKeepsAll(ls: seq<string>)
    requires forall i :: 0 <= i < |ls| ==> !Blank(ls[i])
    ensures NonBlank(ls) == ls
    decreases |ls|
  {
    if ls != [] {
      NonBlankKeepsAll(ls[1..]);
      assert [ls[0]] + ls[1..] == ls;
    }
  }

  lemma NotBlankByteLine(b: bv8)
    ensures !Blank(ByteLine(b))
  {
    assert !IsJsSpace(ByteLine(b)[0]);
  }

  /** The encoded file, split back into lines: the marker, then one line of
      eight binary digits per byte, then the empty piece after the final
      CRLF. */
  lemma EncodeLayout(f: Font)
    requires WellFormed(f)
    ensures Encode(f).Ok?
    ensures SplitLines(Encode(f).value) == [Marker] + DataLines(f.glyphs) + [""]
    ensures forall i :: 0 <= i < Needed ==> IsByteLine(DataLines(f.glyphs)[i])
    ensures forall i :: 0 <= i < Needed && i % BytesPerGlyph >= DataBytes ==>
      DataLines(f.glyphs)[i] == "01010101"
  {
    EncodeOkIff(f);
    var ls := [Marker] + DataLines(f.glyphs);
    forall i | 0 <= i < |ls| ensures NoBreak(ls[i]) {
      if i > 0 {
        ByteLineTrimmed(EncodedByte(f.glyphs, i - 1));
      }
    }
    SplitJoinTerminated(ls, "\r\n");
  }

  /** The chip's "11" code (the second transparent code) is never written. */
  lemma EncodeNeverWritesEleven(f: Font, i: int, k: int)
    requires WellFormed(f) && 0 <= i < Needed && 0 <= k < 4
    ensures Pair(EncodedByte(f.glyphs, i), k) != 3
  {
    var j := i % BytesPerGlyph;
    if j < DataBytes {
      PackByteRead(f.glyphs[i / BytesPerGlyph], j, k);
    }
  }

  lemma EncodedHead(f: Font)
    requires WellFormed(f)
    ensures Encode(f).Ok? && Marker <= Head(Encode(f).value)
  {
    EncodeOkIff(f);
    var ls := [Marker] + DataLines(f.glyphs);
    assert ls[1..] == DataLines(f.glyphs);
    var t := JoinCrlf(ls);
    assert t == Marker + "\r\n" + (JoinWith(ls[1..], "\r\n") + "\r\n");
    assert t[..7] == Marker;
  }

  /** The body lines of an encoded file come back unchanged through the
      blank-line filter. */
  lemma DataLinesKept(f: Font)
    requires WellFormed(f)
    ensures NonBlank(DataLines(f.glyphs) + [""]) == DataLines(f.glyphs)
  {
    var data := DataLines(f.glyphs);
    forall i | 0 <= i < |data| ensures !Blank(data[i]) {
      NotBlankByteLine(EncodedByte(f.glyphs, i));
    }
    NonBlankKeepsAll(data);
    NonBlankAppend(data, [""]);
    assert Blank("");
    assert NonBlank([""]) == [];
  }

  lemma ByteLineRead(b: bv8)
    ensures Trim(ByteLine(b)) == ByteLine(b)
    ensures IsByteLine(Trim(ByteLine(b)))
    ensures ParseByte(Trim(ByteLine(b))) == b
  {
    ByteLineTrimmed(b);
    ParseByteLine(b);
  }

  lemma DataLinesTrimmed(f: Font)
    requires WellFormed(f)
    ensures ByteLines(DataLines(f.glyphs)) == DataLines(f.glyphs)
  {
    var data := DataLines(f.glyphs);
    forall j | 0 <= j < Needed ensures Trim(data[j]) == data[j] {
      ByteLineRead(EncodedByte(f.glyphs, j));
    }
    assert data[..Needed] == data;
    TrimAllFixed(data);
  }

  /** Each body line parses to the byte written. */
  lemma DataLinesParse(f: Font)
    requires WellFormed(f)
    ensures FirstBadLine(DataLines(f.glyphs), 0).None?
    ensures LineBytes(DataLines(f.glyphs)) == WrittenBytes(f)
  {
    var data := DataLines(f.glyphs);
    forall j | 0 <= j < Needed
      ensures IsByteLine(data[j]) && ParseByte(data[j]) == EncodedByte(f.glyphs, j)
    {
      ByteLineRead(EncodedByte(f.glyphs, j));
    }
    FirstBadLineSkip(data, 0, Needed);
    var bytes := LineBytes(data);
    var written := WrittenBytes(f);
    forall j | 0 <= j < Needed ensures bytes[j] == written[j] {
      assert bytes[j] == ParseByte(data[j]);
    }
    assert bytes == written;
  }

  /** The bytes the decoder reads back from an encoded font are the bytes
      the encoder wrote. */
  lemma EncodedBytesRead(f: Font)
    requires WellFormed(f)
    ensures Encode(f).Ok?
    ensures Decode(Encode(f).value) == Ok(FontOf(WrittenBytes(f)))
  {
    EncodeLayout(f);
    EncodedHead(f);
    var lines := SplitLines(Encode(f).value);
    assert lines[0] == Marker;
    TrimNoSpace(Marker);
    assert lines[1..] == DataLines(f.glyphs) + [""];
    DataLinesKept(f);
    DataLinesTrimmed(f);
    DataLinesParse(f);
  }

  function WrittenBytes(f: Font): (r: seq<bv8>)
    requires WellFormed(f)
    ensures |r| == Needed
  {
    seq(Needed, i requires 0 <= i < Needed => EncodedByte(f.glyphs, i))
  }

  lemma RoundTripPixel(f: Font, g: int, n: int)
    requires WellFormed(f) && 0 <= g < GlyphCount && 0 <= n < CellSize
    ensures DecodedPixel(WrittenBytes(f), g, n) == Canonical(f.glyphs[g][n])
  {
    DecodedPixelIsPair(WrittenBytes(f), g, n);
    GlyphOffset(g, n / 4);
    assert WrittenBytes(f)[g * BytesPerGlyph + n / 4] == PackByte(f.glyphs[g], n / 4);
    PackByteRead(f.glyphs[g], n / 4, n % 4);
  }

  /** Encoding then decoding gives back every pixel in its chip-visible
      form (`Canonical`). */
  lemma RoundTrip(f: Font)
    requires WellFormed(f)
    ensures Encode(f).Ok?
    ensures Decode(Encode(f).value) == Ok(CanonicalFont(f))
  {
    EncodedBytesRead(f);
    var bytes := WrittenBytes(f);
    forall g | 0 <= g < GlyphCount
      ensures DecodedGlyph(bytes, g) == CanonicalFont(f).glyphs[g]
    {
      forall n | 0 <= n < CellSize
        ensures DecodedGlyph(bytes, g)[n] == CanonicalFont(f).glyphs[g][n]
      {
        RoundTripPixel(f, g, n);
      }
    }
    assert FontOf(bytes).glyphs == CanonicalFont(f).glyphs;
  }

  /** Fonts that use only black, background and white survive the round
      trip unchanged. */
  lemma RoundTripExact(f: Font)
    requires WellFormed(f)
    requires forall g, n :: 0 <= g < GlyphCount && 0 <= n < CellSize ==> 0 <= f.glyphs[g][n] <= 2
    ensures Encode(f).Ok? && Decode(Encode(f).value) == Ok(f)
  {
    RoundTrip(f);
    forall g | 0 <= g < GlyphCount ensures CanonicalFont(f).glyphs[g] == f.glyphs[g] {
    }
    assert CanonicalFont(f).glyphs == f.glyphs;
  }

  /** Encoding only sees a pixel through `Canonical`: a font and its
      canonical form encode to the same file. */
  lemma EncodeCanonical(f: Font)
    requires WellFormed(f)
    ensures WellFormed(CanonicalFont(f))
    ensures Encode(CanonicalFont(f)) == Encode(f)
  {
    var c := CanonicalFont(f);
    EncodeOkIff(f);
    EncodeOkIff(c);
    forall i | 0 <= i < Needed ensures EncodedByte(c.glyphs, i) == EncodedByte(f.glyphs, i) {
    }
    assert DataLines(c.glyphs) == DataLines(f.glyphs);
  }

  /** A blank line anywhere after the marker line changes nothing. */
  lemma BlankLineIgnored(lines: seq<string>, k: int, b: string)
    requires 1 <= k <= |lines|
    requires Blank(b)
    ensures DecodeLines(lines[..k] + [b] + lines[k..]) == DecodeLines(lines)
  {
    var longer := lines[..k] + [b] + lines[k..];
    assert longer[0] == lines[0];
    assert longer[1..] == lines[1..k] + ([b] + lines[k..]);
    assert lines[1..] == lines[1..k] + lines[k..];
    NonBlankAppend(lines[1..k], [b] + lines[k..]);
    NonBlankAppend([b], lines[k..]);
    NonBlankAppend(lines[1..k], lines[k..]);
    assert NonBlank([b]) == [];
    assert NonBlank(longer[1..]) == NonBlank(lines[1..]);
  }

  /** Once the file holds `Needed` byte lines, whatever follows them is
      never read. */
  lemma TrailingLinesIgnored(lines: seq<string>, extra: seq<string>)
    requires |lines| >= 1
    requires |NonBlank(lines[1..])| >= Needed
    ensures DecodeLines(lines + extra) == DecodeLines(lines)
  {
    var bitLines := NonBlank(lines[1..]);
    assert (lines + extra)[0] == lines[0];
    assert (lines + extra)[1..] == lines[1..] + extra;
    NonBlankAppend(lines[1..], extra);
    assert (bitLines + NonBlank(extra))[..Needed] == bitLines[..Needed];
  }
}
