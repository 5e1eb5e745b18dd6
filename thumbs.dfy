/**
 * The thumbnail generator (tools/gen_thumbs.mjs): each overlay font and
 * each Betaflight font becomes a strip of the cells of "ABC123", written
 * as RGBA bytes into a PNG buffer with one transparent column between
 * cells, and the thumbnail's file name is made safe.
 *
 * Both kinds of thumbnail use 12x18 cells and a 1-pixel pad: the overlay
 * strip passes those numbers literally, and a decoded Betaflight font is
 * 12x18.
 */
module Thumbs {
  import opened Wrappers
  import opened Glyph
  import opened Stroke
  import opened Raster
  import opened Preview

  // ---------------------------------------------------------------------
  // safeName

  /** The characters `[a-z0-9._-]` matches case-insensitively. Without the
      `u` flag, case folding never maps a non-ASCII character onto an ASCII
      one, so these are the ASCII letters, digits, '.', '_' and '-'. */
  predicate IsNameChar(c: char)
  {
    'a' <= c <= 'z' || 'A' <= c <= 'Z' || '0' <= c <= '9' || c == '.' || c == '_' || c == '-'
  }

  /** The length of the run of non-name characters s starts with. */
  function LeadRun(s: string): (k: nat)
    ensures k <= |s|
    ensures forall j :: 0 <= j < k ==> !IsNameChar(s[j])
    ensures k < |s| ==> IsNameChar(s[k])
  {
    if s == [] || IsNameChar(s[0]) then 0 else 1 + LeadRun(s[1..])
  }

  /** `safeName`: every maximal run of characters outside the name set
      becomes one '_'. */
  function SafeName(s: string): (r: string)
    ensures |r| <= |s|
    ensures forall i :: 0 <= i < |r| ==> IsNameChar(r[i])
    ensures r == [] <==> s == []
    decreases |s|
  {
    if s == [] then []
    else if IsNameChar(s[0]) then [s[0]] + SafeName(s[1..])
    else "_" + SafeName(s[LeadRun(s)..])
  }

  /** A name that needs no change. */
  predicate AllNameChars(s: string)
  {
    forall i :: 0 <= i < |s| ==> IsNameChar(s[i])
  }

  /** A name made only of name characters is kept as it is. */
  lemma {:induction false} SafeNameKeeps(s: string)
    requires AllNameChars(s)
    ensures SafeName(s) == s
    decreases |s|
  {
    if s != [] {
      assert AllNameChars(s[1..]) by {
        forall i | 0 <= i < |s[1..]| ensures IsNameChar(s[1..][i]) {
          assert s[1..][i] == s[i + 1];
        }
      }
      SafeNameKeeps(s[1..]);
    }
  }

  /** Making a name safe twice is making it safe once. */
  lemma SafeNameIdempotent(s: string)
    ensures SafeName(SafeName(s)) == SafeName(s)
  {
    SafeNameKeeps(SafeName(s));
  }

  /** A non-empty run of unsafe characters becomes a single '_'. */
  lemma SafeNameRun(s: string)
    requires s != [] && forall i :: 0 <= i < |s| ==> !IsNameChar(s[i])
    ensures SafeName(s) == "_"
  {
    assert LeadRun(s) == |s|;
  }

  /** The run length is determined by the three facts LeadRun ensures. */
  lemma LeadRunUnique(s: string, k: int)
    requires 0 <= k <= |s|
    requires forall j :: 0 <= j < k ==> !IsNameChar(s[j])
    requires k < |s| ==> IsNameChar(s[k])
    ensures LeadRun(s) == k
  {
  }

  /** A run that ends inside x is the run of x + b; one that covers all of
      x continues into b. */
  lemma LeadRunAppend(x: string, b: string)
    ensures LeadRun(x + b) == if LeadRun(x) < |x| then LeadRun(x) else |x| + LeadRun(b)
  {
    var k := LeadRun(x);
    var xb := x + b;
    if k < |x| {
      assert xb[k] == x[k];
      assert forall j :: 0 <= j < k ==> xb[j] == x[j];
      LeadRunUnique(xb, k);
    } else {
      var m := LeadRun(b);
      assert forall j :: 0 <= j < |x| ==> xb[j] == x[j];
      assert forall j :: 0 <= j < m ==> xb[|x| + j] == b[j];
      assert m < |b| ==> xb[|x| + m] == b[m];
      LeadRunUnique(xb, |x| + m);
    }
  }

  /** One step of SafeName on a + b when a starts with a name character. */
  lemma SafeNameAppendKeep(a: string, b: string)
    requires a != [] && IsNameChar(a[0])
    ensures SafeName(a + b) == [a[0]] + SafeName(a[1..] + b)
  {
    var ab := a + b;
    assert ab[0] == a[0];
    assert ab[1..] == a[1..] + b;
  }

  /** SafeName of a string that starts with an unsafe run. */
  lemma SafeNameSkips(s: string)
    requires s != [] && !IsNameChar(s[0])
    ensures SafeName(s) == "_" + SafeName(s[LeadRun(s)..])
  {
  }

  lemma SliceLeft(a: string, b: string, k: int)
    requires 0 <= k <= |a|
    ensures (a + b)[k..] == a[k..] + b
  {
  }

  lemma SliceRight(a: string, b: string, m: int)
    requires 0 <= m <= |b|
    ensures (a + b)[|a| + m..] == b[m..]
  {
  }

  /** SafeName of a + b when a starts with an unsafe run that ends inside a. */
  lemma SafeNameAppendRun(a: string, b: string)
    requires a != [] && !IsNameChar(a[0]) && LeadRun(a) < |a|
    ensures SafeName(a + b) == "_" + SafeName(a[LeadRun(a)..] + b)
  {
    var ab := a + b;
    assert ab[0] == a[0];
    SafeNameSkips(ab);
    LeadRunAppend(a, b);
    SliceLeft(a, b, LeadRun(a));
  }

  /** SafeName of a + b when all of a is unsafe. */
  lemma SafeNameAppendAllRun(a: string, b: string)
    requires a != [] && !IsNameChar(a[0]) && LeadRun(a) == |a|
    ensures SafeName(a + b) == "_" + SafeName(b[LeadRun(b)..])
  {
    var ab, m := a + b, LeadRun(b);
    assert ab[0] == a[0];
    LeadRunAppend(a, b);
    assert LeadRun(ab) == |a| + m;
    SliceRight(a, b, m);
    assert ab[LeadRun(ab)..] == b[m..];
    SafeNameSkips(ab);
  }

  /** Where no unsafe run crosses the boundary between a and b, the safe
      name of a + b is the safe name of a followed by that of b. With
      SafeNameRun and SafeNameKeeps this says that runs, and only runs,
      are replaced. */
  lemma {:induction false} SafeNameAppend(a: string, b: string)
    requires a == [] || b == [] || IsNameChar(a[|a| - 1]) || IsNameChar(b[0])
    ensures SafeName(a + b) == SafeName(a) + SafeName(b)
    decreases |a|
  {
    if a == [] {
      assert a + b == b;
    } else if b == [] {
      assert a + b == a;
    } else if IsNameChar(a[0]) {
      var rest := a[1..];
      assert rest == [] || rest[|rest| - 1] == a[|a| - 1];
      SafeNameAppendKeep(a, b);
      SafeNameAppend(rest, b);
      assert SafeName(a) == [a[0]] + SafeName(rest);
    } else {
      var k := LeadRun(a);
      SafeNameSkips(a);
      if k < |a| {
        var rest := a[k..];
        assert rest[|rest| - 1] == a[|a| - 1];
        SafeNameAppendRun(a, b);
        SafeNameAppend(rest, b);
      } else {
        assert !IsNameChar(a[|a| - 1]);
        assert LeadRun(b) == 0;
        assert b[0..] == b;
        SafeNameAppendAllRun(a, b);
        assert a[k..] == [];
      }
    }
  }

  // ---------------------------------------------------------------------
  // renderOverlayCharCell

  /** `renderOverlayCharCell`: the overlay glyph of ch placed at its own
      offset and outlined with the four-neighbour stroke; a blank cell for
      a missing overlay, a space, or a key the overlay lacks. It is the
      live preview's cell in stroke mode "4". */
  method RenderOverlayCharCell(overlay: Option<OverlayFont>, ch: char) returns (r: Pixels)
    ensures r == PreviewCell(overlay, ch, "4")
  {
    if overlay.None? || ch == ' ' {
      return BlankCell();
    }
    var key := Text.JsKey(CharCode0(ch));
    if key !in overlay.value {
      return BlankCell();
    }
    var og := overlay.value[key];
    var fill := RasterizeFill(og, og.offX, og.offY);
    r := ApplyStroke4(fill);
    PreviewCellOf(overlay, ch, "4", og);
  }

  // ---------------------------------------------------------------------
  // makeBetaflightThumb

  /** The value normalisation of `makeBetaflightThumb`: background stays
      background, white stays white, and black (0) or anything else
      becomes stroke. */
  function Normalize(v: int): (u: int)
    ensures u in {1, 2, 3}
    ensures u == 1 <==> v == 1
    ensures u == 2 <==> v == 2
  {
    if v == 1 then 1 else if v == 2 then 2 else 3
  }

  /** `g[i]` of a glyph buffer; a read past its end is `undefined`, which
      is neither 1 nor 2. */
  function ValueAt(cell: Pixels, m: int): int
  {
    if 0 <= m < |cell| then cell[m] else 0
  }

  /** The glyph `makeBetaflightThumb` shows for ch: `font.glyphs[code]`,
      or glyph 0 when the code is past the end of the font. */
  function BetaflightGlyph(font: Font, ch: char): (g: Pixels)
    requires WellFormed(font)
    ensures |g| == CellSize
  {
    var code := CharCode0(ch);
    if code < |font.glyphs| then font.glyphs[code] else font.glyphs[0]
  }

  /** The loop that fills `out` with the normalised values of g. */
  method NormalizeCell(g: Pixels) returns (r: Pixels)
    ensures |r| == CellSize
    ensures forall i :: 0 <= i < CellSize ==> r[i] == Normalize(ValueAt(g, i)) && r[i] in {1, 2, 3}
  {
    var out := new int[CellSize];
    for i := 0 to out.Length
      invariant forall j :: 0 <= j < i ==> out[j] == Normalize(ValueAt(g, j))
    {
      var v := ValueAt(g, i);
      if v == 1 {
        out[i] := 1;
      } else if v == 2 {
        out[i] := 2;
      } else {
        out[i] := 3;
      }
    }
    r := out[..];
  }

  const SampleText: string := "ABC123"

  /** Every character of the sample text has a glyph of its own in a
      decoded font: the fallback to glyph 0 is never taken. */
  lemma SampleGlyphsOwn(font: Font, j: int)
    requires WellFormed(font) && 0 <= j < |SampleText|
    ensures SampleText[j] as int < |font.glyphs|
    ensures BetaflightGlyph(font, SampleText[j]) == font.glyphs[SampleText[j] as int]
  {
  }

  /** The cells of `makeBetaflightThumb`: the sample text's glyphs of the
      font, normalised. */
  method BetaflightThumbCells(font: Font) returns (cells: seq<Pixels>)
    requires WellFormed(font)
    ensures |cells| == |SampleText|
    ensures forall j :: 0 <= j < |SampleText| ==> |cells[j]| == CellSize
    ensures forall j, n :: 0 <= j < |SampleText| && 0 <= n < CellSize ==>
      cells[j][n] == Normalize(BetaflightGlyph(font, SampleText[j])[n])
  {
    cells := [];
    for j := 0 to |SampleText|
      invariant |cells| == j
      invariant forall j' :: 0 <= j' < j ==> |cells[j']| == CellSize
      invariant forall j', n :: 0 <= j' < j && 0 <= n < CellSize ==>
        cells[j'][n] == Normalize(BetaflightGlyph(font, SampleText[j'])[n])
    {
      var g := BetaflightGlyph(font, SampleText[j]);
      var c := NormalizeCell(g);
      cells := cells + [c];
    }
  }

  /** The cells of `makeOverlayThumb`. */
  method OverlayThumbCells(overlay: Option<OverlayFont>) returns (cells: seq<Pixels>)
    ensures |cells| == |SampleText|
    ensures forall j :: 0 <= j < |SampleText| ==> cells[j] == PreviewCell(overlay, SampleText[j], "4")
  {
    cells := [];
    for j := 0 to |SampleText|
      invariant |cells| == j
      invariant forall j' :: 0 <= j' < j ==> cells[j'] == PreviewCell(overlay, SampleText[j'], "4")
    {
      var c := RenderOverlayCharCell(overlay, SampleText[j]);
      cells := cells + [c];
    }
  }

  // ---------------------------------------------------------------------
  // writeStripPNG

  const FillRgba: seq<int> := [244, 233, 212, 255]
  const StrokeRgba: seq<int> := [42, 43, 51, 255]
  const Clear: seq<int> := [0, 0, 0, 0]

  /** The colour a cell value leaves in the strip: background is never
      written, so it keeps the buffer's transparent zero bytes; 2 is the
      fill colour; 0, 3 and anything else the stroke colour. */
  function PixelRgba(v: int): (c: seq<int>)
    ensures |c| == 4
    ensures v == 1 <==> c == Clear
    ensures v == 2 <==> c == FillRgba
    ensures v != 1 && v != 2 <==> c == StrokeRgba
  {
    if v == 1 then Clear else if v == 2 then FillRgba else StrokeRgba
  }

  /** Normalising a Betaflight glyph does not change its thumbnail. */
  lemma NormalizeKeepsColour(v: int)
    ensures PixelRgba(Normalize(v)) == PixelRgba(v)
    ensures Normalize(Normalize(v)) == Normalize(v)
  {
  }

  /** The strip is 13 pixels per cell wide: 12 of the cell and 1 of pad. */
  function StripWidth(n: int): int { n * 13 }

  /** The index of the first pixel of row y: y rows of the strip's width,
      counted one row at a time (RowStartIs gives the product). */
  function RowStart(n: int, y: int): int
    decreases y
  {
    if y <= 0 then 0 else RowStart(n, y - 1) + StripWidth(n)
  }

  lemma {:induction false} RowStartIs(n: int, y: int)
    requires 0 <= y
    ensures RowStart(n, y) == y * StripWidth(n)
  {
    if y > 0 {
      RowStartIs(n, y - 1);
    }
  }

  /** Row y ends before row y' starts. */
  lemma {:induction false} RowStartGap(n: int, y: int, y': int)
    requires 0 <= n && 0 <= y < y'
    ensures 0 <= RowStart(n, y) && RowStart(n, y) + StripWidth(n) <= RowStart(n, y')
    decreases y'
  {
    if y' > y + 1 {
      RowStartGap(n, y, y' - 1);
    } else if y > 0 {
      RowStartGap(n, y - 1, y);
    }
  }

  /** Byte k of column x (0..12) of cell i, row y, in the RGBA buffer of
      a strip of n cells: `((y * W) + (i * (cellW + pad) + x)) << 2`, plus k. */
  function ByteAt(n: int, i: int, x: int, y: int, k: int): (b: int)
    ensures InStrip(n, i, x, y) && 0 <= k < 4 ==> 0 <= b < n * 13 * 18 * 4
  {
    if InStrip(n, i, x, y) then
      RowStartGap(n, y, 18);
      RowStartIs(n, 18);
      (RowStart(n, y) + (i * 13 + x)) * 4 + k
    else
      (RowStart(n, y) + (i * 13 + x)) * 4 + k
  }

  predicate InStrip(n: int, i: int, x: int, y: int)
  {
    0 <= i < n && 0 <= x < 13 && 0 <= y < 18
  }

  /** What the strip shows at column x of cell i, row y: the cell's colour,
      and transparency in the pad column. */
  function StripPixel(cells: seq<Pixels>, i: int, x: int, y: int): (c: seq<int>)
    requires 0 <= i < |cells|
    ensures |c| == 4
  {
    if x < 12 then PixelRgba(ValueAt(cells[i], y * 12 + x)) else Clear
  }

  /** The four bytes of a pixel are those of no other pixel. */
  lemma {:induction false} ByteAtLayout(n: int, i: int, x: int, y: int, i': int, x': int, y': int, k': int)
    requires InStrip(n, i, x, y) && InStrip(n, i', x', y') && 0 <= k' < 4
    ensures ByteAt(n, i, x, y, 0) <= ByteAt(n, i', x', y', k') < ByteAt(n, i, x, y, 0) + 4 <==>
      i == i' && x == x' && y == y'
  {
    if y < y' {
      RowStartGap(n, y, y');
    } else if y' < y {
      RowStartGap(n, y', y);
    }
  }

  lemma DivMod(p: int, w: int)
    requires 0 <= p && 0 < w
    ensures p == (p / w) * w + p % w && 0 <= p % w < w && 0 <= p / w
  {
  }

  /** Every byte of the buffer belongs to some pixel of the strip. */
  lemma ByteAtCovers(n: int, b: int)
    requires 0 <= b < n * 13 * 18 * 4
    ensures exists i, x, y, k :: InStrip(n, i, x, y) && 0 <= k < 4 && b == ByteAt(n, i, x, y, k)
  {
    var w := StripWidth(n);
    var p, k := b / 4, b % 4;
    assert b == p * 4 + k && p < 18 * w;
    DivMod(p, w);
    var y, q := p / w, p % w;
    if y >= 18 {
      RowStartGap(n, 17, y);
      RowStartIs(n, 17);
      RowStartIs(n, y);
      assert false;
    }
    RowStartIs(n, y);
    var i, x := q / 13, q % 13;
    assert q == i * 13 + x;
    assert InStrip(n, i, x, y);
    assert b == ByteAt(n, i, x, y, k);
  }

  /** data is the RGBA buffer of the strip of `cells`: 13 pixels per cell
      and 18 rows of 4 bytes, each pixel holding StripPixel. */
  ghost predicate ShowsStrip(data: seq<int>, cells: seq<Pixels>)
  {
    |data| == StripWidth(|cells|) * 18 * 4 &&
    forall i, x, y, k :: InStrip(|cells|, i, x, y) && 0 <= k < 4 ==>
      data[ByteAt(|cells|, i, x, y, k)] == StripPixel(cells, i, x, y)[k]
  }

  /** The order in which the loops visit a cell pixel. */
  function Step(i: int, x: int, y: int): int { i * 216 + y * 12 + x }

  /** The buffer of a strip of `cells` once the loops have handled every
      pixel before step t: those show the strip, the rest are still zero. */
  ghost predicate Written(data: array<int>, cells: seq<Pixels>, t: int)
    reads data
  {
    data.Length == |cells| * 13 * 18 * 4 &&
    forall i, x, y, k :: InStrip(|cells|, i, x, y) && 0 <= k < 4 ==>
      data[ByteAt(|cells|, i, x, y, k)] == if Step(i, x, y) < t then StripPixel(cells, i, x, y)[k] else 0
  }

  /** The four assignments of one pixel's bytes. */
  method SetPixel(data: array<int>, base: int, c: seq<int>)
    requires |c| == 4 && 0 <= base && base + 4 <= data.Length
    modifies data
    ensures forall b :: 0 <= b < data.Length ==>
      data[b] == if base <= b < base + 4 then c[b - base] else old(data[b])
  {
    data[base + 0] := c[0];
    data[base + 1] := c[1];
    data[base + 2] := c[2];
    data[base + 3] := c[3];
  }

  /** Only pixel (i, x, y) and pad pixels, which stay clear, come up at
      step Step(i, x, y). */
  lemma StepUnique(cells: seq<Pixels>, i: int, x: int, y: int, i': int, x': int, y': int)
    requires InStrip(|cells|, i, x, y) && x < 12 && InStrip(|cells|, i', x', y')
    requires Step(i', x', y') == Step(i, x, y)
    ensures (i', x', y') == (i, x, y) || StripPixel(cells, i', x', y') == Clear
  {
    if x' < 12 {
      var r, r' := y * 12 + x, y' * 12 + x';
      assert 0 <= r < 216 && 0 <= r' < 216;
      assert i * 216 + r == i' * 216 + r';
      assert i == i';
      assert y == y';
    }
  }

  /** Written, stated on a snapshot of the buffer's contents. */
  ghost predicate WrittenSeq(d: seq<int>, cells: seq<Pixels>, t: int)
  {
    |d| == |cells| * 13 * 18 * 4 &&
    forall i, x, y, k :: InStrip(|cells|, i, x, y) && 0 <= k < 4 ==>
      d[ByteAt(|cells|, i, x, y, k)] == if Step(i, x, y) < t then StripPixel(cells, i, x, y)[k] else 0
  }

  lemma WrittenSnapshot(data: array<int>, cells: seq<Pixels>, t: int)
    requires Written(data, cells, t)
    ensures WrittenSeq(data[..], cells, t)
  {
  }

  /** A transparent pixel needs no write: the buffer already shows it. */
  lemma WrittenSkip(data: array<int>, cells: seq<Pixels>, i: int, x: int, y: int)
    requires InStrip(|cells|, i, x, y) && x < 12
    requires ValueAt(cells[i], y * 12 + x) == 1
    requires Written(data, cells, Step(i, x, y))
    ensures Written(data, cells, Step(i, x, y) + 1)
  {
    var n := |cells|;
    forall i', x', y', k' | InStrip(n, i', x', y') && 0 <= k' < 4
      ensures data[ByteAt(n, i', x', y', k')] ==
        if Step(i', x', y') < Step(i, x, y) + 1 then StripPixel(cells, i', x', y')[k'] else 0
    {
      var dj := data[ByteAt(n, i', x', y', k')];
      assert dj == if Step(i', x', y') < Step(i, x, y) then StripPixel(cells, i', x', y')[k'] else 0;
      if Step(i', x', y') == Step(i, x, y) {
        StepUnique(cells, i, x, y, i', x', y');
        assert StripPixel(cells, i', x', y') == Clear;
      }
    }
  }

  /** Writing pixel (i, x, y)'s colour into a buffer that showed every
      pixel before its step makes it show that pixel too. */
  lemma WrittenSet(data: array<int>, before: seq<int>, cells: seq<Pixels>, i: int, x: int, y: int, base: int)
    requires InStrip(|cells|, i, x, y) && x < 12
    requires WrittenSeq(before, cells, Step(i, x, y)) && data.Length == |before|
    requires base == ByteAt(|cells|, i, x, y, 0)
    requires forall b :: 0 <= b < data.Length ==>
      data[b] == if base <= b < base + 4 then StripPixel(cells, i, x, y)[b - base] else before[b]
    ensures Written(data, cells, Step(i, x, y) + 1)
  {
    var n := |cells|;
    forall i', x', y', k' | InStrip(n, i', x', y') && 0 <= k' < 4
      ensures data[ByteAt(n, i', x', y', k')] ==
        if Step(i', x', y') < Step(i, x, y) + 1 then StripPixel(cells, i', x', y')[k'] else 0
    {
      var j := ByteAt(n, i', x', y', k');
      WrittenSetAt(cells, i, x, y, i', x', y', k', base, data[j], before[j]);
    }
  }

  /** WrittenSet at one byte j of pixel (i', x', y'): dj is its new value,
      bj its value before the write. */
  lemma WrittenSetAt(cells: seq<Pixels>, i: int, x: int, y: int, i': int, x': int, y': int, k': int,
                     base: int, dj: int, bj: int)
    requires InStrip(|cells|, i, x, y) && x < 12 && InStrip(|cells|, i', x', y') && 0 <= k' < 4
    requires base == ByteAt(|cells|, i, x, y, 0)
    requires var j := ByteAt(|cells|, i', x', y', k');
      dj == if base <= j < base + 4 then StripPixel(cells, i, x, y)[j - base] else bj
    requires bj == if Step(i', x', y') < Step(i, x, y) then StripPixel(cells, i', x', y')[k'] else 0
    ensures dj == if Step(i', x', y') < Step(i, x, y) + 1 then StripPixel(cells, i', x', y')[k'] else 0
  {
    var j := ByteAt(|cells|, i', x', y', k');
    ByteAtLayout(|cells|, i, x, y, i', x', y', k');
    if i' == i && x' == x && y' == y {
      assert j == base + k';
    } else if Step(i', x', y') == Step(i, x, y) {
      StepUnique(cells, i, x, y, i', x', y');
    }
  }

  /** The body of the x loop for pixel (x, y) of cell i. */
  method WriteStripPixel(data: array<int>, cells: seq<Pixels>, i: int, x: int, y: int)
    requires InStrip(|cells|, i, x, y) && x < 12
    requires Written(data, cells, Step(i, x, y))
    modifies data
    ensures Written(data, cells, Step(i, x, y) + 1)
  {
    var n := |cells|;
    var W := n * (12 + 1);
    var ox := i * (12 + 1);
    var cell := cells[i];
    var v := ValueAt(cell, y * 12 + x);
    if v == 1 {
      WrittenSkip(data, cells, i, x, y);
      return;
    }
    var base := ((y * W) + (ox + x)) * 4;
    RowStartIs(n, y);
    assert base == ByteAt(n, i, x, y, 0);
    WrittenSnapshot(data, cells, Step(i, x, y));
    ghost var before := data[..];
    if v == 2 {
      SetPixel(data, base, FillRgba);
    } else {
      SetPixel(data, base, StrokeRgba);
    }
    WrittenSet(data, before, cells, i, x, y, base);
  }

  /** The x loop of row y of cell i. */
  method WriteStripRow(data: array<int>, cells: seq<Pixels>, i: int, y: int)
    requires 0 <= i < |cells| && 0 <= y < 18
    requires Written(data, cells, Step(i, 0, y))
    modifies data
    ensures Written(data, cells, Step(i, 0, y + 1))
  {
    for x := 0 to 12
      invariant Written(data, cells, Step(i, x, y))
    {
      WriteStripPixel(data, cells, i, x, y);
    }
  }

  /** The y loop of cell i. */
  method WriteStripCell(data: array<int>, cells: seq<Pixels>, i: int)
    requires 0 <= i < |cells|
    requires Written(data, cells, i * 216)
    modifies data
    ensures Written(data, cells, (i + 1) * 216)
  {
    assert Step(i, 0, 0) == i * 216;
    assert Step(i, 0, 18) == (i + 1) * 216;
    for y := 0 to 18
      invariant Written(data, cells, Step(i, 0, y))
    {
      WriteStripRow(data, cells, i, y);
    }
  }

  /** `writeStripPNG` without the file write: the RGBA bytes of a strip of
      12x18 cells with a 1-pixel pad, starting from a transparent buffer.
      Every byte of the result is given (ByteAtCovers, ByteAtLayout). */
  method WriteStripPng(cells: seq<Pixels>) returns (data: seq<int>)
    ensures ShowsStrip(data, cells)
  {
    var W := |cells| * (12 + 1);
    var H := 18;
    var png := new int[W * H * 4](_ => 0);
    BlankWritten(png, cells);
    WriteStripCells(png, cells);
    data := png[..];
    AllWritten(png, cells);
  }

  /** The loop over the cells. */
  method WriteStripCells(data: array<int>, cells: seq<Pixels>)
    requires Written(data, cells, 0)
    modifies data
    ensures Written(data, cells, |cells| * 216)
  {
    for i := 0 to |cells|
      invariant Written(data, cells, i * 216)
    {
      WriteStripCell(data, cells, i);
    }
  }

  /** The transparent buffer is a strip with nothing written yet. */
  lemma BlankWritten(data: array<int>, cells: seq<Pixels>)
    requires data.Length == |cells| * 13 * 18 * 4
    requires forall b :: 0 <= b < data.Length ==> data[b] == 0
    ensures Written(data, cells, 0)
  {
  }

  /** Once every cell is written, every pixel shows the strip: the pixels
      not yet reached at the last step are pad, which shows nothing. */
  lemma AllWritten(data: array<int>, cells: seq<Pixels>)
    requires Written(data, cells, |cells| * 216)
    ensures ShowsStrip(data[..], cells)
  {
    forall i, x, y, k | InStrip(|cells|, i, x, y) && 0 <= k < 4
      ensures data[..][ByteAt(|cells|, i, x, y, k)] == StripPixel(cells, i, x, y)[k]
    {
      if Step(i, x, y) >= |cells| * 216 {
        assert x == 12;
      }
    }
  }

  /** The Betaflight thumbnail shows the font's own glyphs: its strip has,
      at every pixel, the colour of the glyph's un-normalised value. */
  lemma {:induction false} BetaflightThumbShowsFont(font: Font, cells: seq<Pixels>, i: int, x: int, y: int)
    requires WellFormed(font)
    requires |cells| == |SampleText|
    requires forall j :: 0 <= j < |SampleText| ==> |cells[j]| == CellSize
    requires forall j, n :: 0 <= j < |SampleText| && 0 <= n < CellSize ==>
      cells[j][n] == Normalize(BetaflightGlyph(font, SampleText[j])[n])
    requires InStrip(|cells|, i, x, y) && x < 12
    ensures StripPixel(cells, i, x, y) == PixelRgba(BetaflightGlyph(font, SampleText[i])[Idx(x, y)])
  {
    assert 0 <= Idx(x, y) < CellSize;
    NormalizeKeepsColour(BetaflightGlyph(font, SampleText[i])[Idx(x, y)]);
  }
}
