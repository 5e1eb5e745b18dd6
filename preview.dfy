/**
 * The live preview strip (js/modules/preview.js): one cell per character
 * of the sample text rendered from the overlay, each trimmed to its inked
 * columns and laid out left to right with a 2-pixel gap.
 */
module Preview {
  import opened Wrappers
  import opened Glyph
  import opened Stroke
  import opened Raster
  import opened Text

  /** `ch.charCodeAt(0)`: the first UTF-16 code unit of a code point, which
      for a code point above U+FFFF is its high surrogate. */
  function CharCode0(ch: char): (u: nat)
    ensures u <= 0xFFFF
    ensures ch as int <= 0xFFFF ==> u == ch as int
  {
    var cp := ch as int;
    if cp <= 0xFFFF then cp else 0xD800 + (cp - 0x10000) / 0x400
  }

  /** A cell of background only. */
  function BlankCell(): (r: Pixels)
    ensures |r| == CellSize && forall n :: 0 <= n < CellSize ==> r[n] == 1
  {
    seq(CellSize, _ => 1)
  }

  /** The stroke selected by the preview's stroke mode. */
  function StrokeDirs(strokeMode: string): seq<Dir>
  {
    if strokeMode == "8" then Dirs9 else Dirs4
  }

  /** The overlay glyph `renderOverlayPreviewCell` draws for ch: none for
      a missing overlay, a space, or a key the overlay lacks. */
  function PreviewGlyph(overlay: Option<OverlayFont>, ch: char): Option<OverlayGlyph>
  {
    var key := JsKey(CharCode0(ch));
    if overlay.None? || ch == ' ' || key !in overlay.value then None
    else Some(overlay.value[key])
  }

  /** What `renderOverlayPreviewCell` returns. */
  function PreviewCell(overlay: Option<OverlayFont>, ch: char, strokeMode: string): (r: Pixels)
    ensures |r| == CellSize
  {
    match PreviewGlyph(overlay, ch)
    case None => BlankCell()
    case Some(g) => Stroked(FillCell(g, g.offX, g.offY), StrokeDirs(strokeMode))
  }

  /** `renderOverlayPreviewCell`. */
  method RenderOverlayPreviewCell(overlay: Option<OverlayFont>, ch: char, strokeMode: string)
    returns (r: Pixels)
    ensures r == PreviewCell(overlay, ch, strokeMode)
  {
    if overlay.None? || ch == ' ' {
      return BlankCell();
    }
    var key := JsKey(CharCode0(ch));
    if key !in overlay.value {
      return BlankCell();
    }
    var og := overlay.value[key];
    var fill := RasterizeFill(og, og.offX, og.offY);
    if strokeMode == "8" {
      r := ApplyStroke8(fill);
    } else {
      r := ApplyStroke4(fill);
    }
  }

  /** A space, a missing overlay and a missing key give a blank cell. */
  lemma PreviewBlank(overlay: Option<OverlayFont>, ch: char, strokeMode: string)
    requires overlay.None? || ch == ' ' || JsKey(CharCode0(ch)) !in overlay.value
    ensures forall n :: 0 <= n < CellSize ==> PreviewCell(overlay, ch, strokeMode)[n] == 1
  {
    assert PreviewGlyph(overlay, ch).None?;
  }

  /** Otherwise the cell holds only background, fill and stroke, with fill
      exactly at the placed glyph's in-cell ink. */
  lemma PreviewDrawn(overlay: Option<OverlayFont>, ch: char, strokeMode: string, g: OverlayGlyph, n: int)
    requires 0 <= n < CellSize
    requires PreviewGlyph(overlay, ch) == Some(g)
    ensures var v := PreviewCell(overlay, ch, strokeMode)[n];
      1 <= v <= 3 && (v == 2 <==> Ink(g, Col(n) - g.offX, Row(n) - g.offY))
  {
    PreviewCellOf(overlay, ch, strokeMode, g);
    RenderedCell(g, g.offX, g.offY, StrokeDirs(strokeMode), n);
  }

  lemma PreviewCellOf(overlay: Option<OverlayFont>, ch: char, strokeMode: string, g: OverlayGlyph)
    requires PreviewGlyph(overlay, ch) == Some(g)
    ensures PreviewCell(overlay, ch, strokeMode) == Stroked(FillCell(g, g.offX, g.offY), StrokeDirs(strokeMode))
  {
  }

  // ---------------------------------------------------------------------
  // measureCellInkBounds

  datatype Bounds = Bounds(minX: int, maxX: int, width: int)

  /** Pixel (x, y) is drawn: anything but background. A read past the end
      yields `undefined`, which is not 1 either. */
  predicate Drawn(cell: Pixels, x: int, y: int)
  {
    PixelOr0(cell, Idx(x, y)) != 1
  }

  /** Column x has a drawn pixel. */
  predicate ColumnDrawn(cell: Pixels, x: int)
  {
    exists y :: 0 <= y < CellH && Drawn(cell, x, y)
  }

  /** What `measureCellInkBounds` promises: null for a cell with nothing
      drawn; otherwise the leftmost and rightmost drawn columns and the
      span between them. */
  ghost predicate IsInkBounds(cell: Pixels, b: Option<Bounds>)
  {
    match b
    case None => forall x, y :: InCell(x, y) ==> !Drawn(cell, x, y)
    case Some(bd) =>
      0 <= bd.minX <= bd.maxX < CellW && bd.width == bd.maxX - bd.minX + 1 &&
      ColumnDrawn(cell, bd.minX) && ColumnDrawn(cell, bd.maxX) &&
      forall x, y :: InCell(x, y) && Drawn(cell, x, y) ==> bd.minX <= x <= bd.maxX
  }

  /** The property above fixes the result. */
  lemma InkBoundsUnique(cell: Pixels, b: Option<Bounds>, b': Option<Bounds>)
    requires IsInkBounds(cell, b) && IsInkBounds(cell, b')
    ensures b == b'
  {
    if b.Some? {
      var y :| 0 <= y < CellH && Drawn(cell, b.value.minX, y);
      assert InCell(b.value.minX, y);
    }
    if b'.Some? {
      var y :| 0 <= y < CellH && Drawn(cell, b'.value.minX, y);
      assert InCell(b'.value.minX, y);
    }
    if b.Some? && b'.Some? {
      var y1 :| 0 <= y1 < CellH && Drawn(cell, b.value.maxX, y1);
      assert InCell(b.value.maxX, y1);
      var y2 :| 0 <= y2 < CellH && Drawn(cell, b'.value.maxX, y2);
      assert InCell(b'.value.maxX, y2);
    }
  }

  /** The first drawn column at or after x, or 12. */
  function FirstDrawn(cell: Pixels, x: int): (c: int)
    requires 0 <= x <= CellW
    ensures x <= c <= CellW
    ensures c < CellW ==> ColumnDrawn(cell, c)
    ensures forall k :: x <= k < c ==> !ColumnDrawn(cell, k)
    decreases CellW - x
  {
    if x == CellW then CellW
    else if ColumnDrawn(cell, x) then x
    else FirstDrawn(cell, x + 1)
  }

  /** The last drawn column at or before x, or -1. */
  function LastDrawn(cell: Pixels, x: int): (c: int)
    requires -1 <= x < CellW
    ensures -1 <= c <= x
    ensures c >= 0 ==> ColumnDrawn(cell, c)
    ensures forall k :: c < k <= x ==> !ColumnDrawn(cell, k)
    decreases x + 1
  {
    if x == -1 then -1
    else if ColumnDrawn(cell, x) then x
    else LastDrawn(cell, x - 1)
  }

  /** The bounds as a function of the cell. */
  function InkBounds(cell: Pixels): (b: Option<Bounds>)
    ensures IsInkBounds(cell, b)
  {
    var lo, hi := FirstDrawn(cell, 0), LastDrawn(cell, CellW - 1);
    if hi < 0 then
      assert forall x, y :: InCell(x, y) ==> !Drawn(cell, x, y) by {
        forall x, y | InCell(x, y) ensures !Drawn(cell, x, y) {
          assert !ColumnDrawn(cell, x);
        }
      }
      None
    else
      assert forall x, y :: InCell(x, y) && Drawn(cell, x, y) ==> lo <= x <= hi by {
        forall x, y | InCell(x, y) && Drawn(cell, x, y) ensures lo <= x <= hi {
          assert ColumnDrawn(cell, x);
        }
      }
      Some(Bounds(lo, hi, hi - lo + 1))
  }

  /** Visited in the scan: every row above y, and row y left of x. */
  predicate Scanned(x: int, y: int, xx: int, yy: int)
  {
    yy < y || (yy == y && xx < x)
  }

  /** `measureCellInkBounds` for the 12x18 cell. */
  method MeasureCellInkBounds(cell: Pixels) returns (b: Option<Bounds>)
    ensures b == InkBounds(cell)
  {
    var minX, maxX := CellW, -1;
    ghost var yMin, yMax := 0, 0;
    for y := 0 to CellH
      invariant -1 <= maxX < CellW && 0 <= minX <= CellW
      invariant maxX == -1 ==> minX == CellW
      invariant maxX >= 0 ==> (minX <= maxX && 0 <= yMin < CellH && 0 <= yMax < CellH &&
        Drawn(cell, minX, yMin) && Drawn(cell, maxX, yMax))
      invariant forall xx, yy :: InCell(xx, yy) && yy < y && Drawn(cell, xx, yy) ==> minX <= xx <= maxX
    {
      for x := 0 to CellW
        invariant -1 <= maxX < CellW && 0 <= minX <= CellW
        invariant maxX == -1 ==> minX == CellW
        invariant maxX >= 0 ==> (minX <= maxX && 0 <= yMin < CellH && 0 <= yMax < CellH &&
          Drawn(cell, minX, yMin) && Drawn(cell, maxX, yMax))
        invariant forall xx, yy :: InCell(xx, yy) && Scanned(x, y, xx, yy) && Drawn(cell, xx, yy) ==> minX <= xx <= maxX
      {
        var v := PixelOr0(cell, Idx(x, y));
        if v != 1 {
          if x < minX {
            minX, yMin := x, y;
          }
          if x > maxX {
            maxX, yMax := x, y;
          }
        }
      }
    }
    if maxX < minX {
      b := None;
    } else {
      b := Some(Bounds(minX, maxX, maxX - minX + 1));
    }
    InkBoundsUnique(cell, b, InkBounds(cell));
  }

  // ---------------------------------------------------------------------
  // drawOverlayPreviewStrip: widths and pen positions

  const Gap: int := 2

  /** The width given to one character: its ink span, 4 for a space with
      no ink, 2 for any other character with no ink. */
  function CharWidth(b: Option<Bounds>, ch: char): int
  {
    if b.Some? then b.value.width else if ch == ' ' then 4 else 2
  }

  function Sum(s: seq<int>): int
  {
    if |s| == 0 then 0 else Sum(s[..|s| - 1]) + s[|s| - 1]
  }

  /** Canvas width before the `Math.max(1, ...)` guard. */
  function TotalWidth(widths: seq<int>): int
  {
    Sum(widths) + (if |widths| > 0 then |widths| - 1 else 0) * Gap
  }

  /** The per-character widths of the strip. */
  function StripWidths(overlay: Option<OverlayFont>, text: string, strokeMode: string): (ws: seq<int>)
    ensures |ws| == |text|
  {
    if |text| == 0 then []
    else StripWidths(overlay, text[..|text| - 1], strokeMode) + [GlyphWidth(overlay, text[|text| - 1], strokeMode)]
  }

  /** The width the strip gives to character ch. */
  function GlyphWidth(overlay: Option<OverlayFont>, ch: char, strokeMode: string): int
  {
    CharWidth(InkBounds(PreviewCell(overlay, ch, strokeMode)), ch)
  }

  /** Every character gets between 1 and 12 columns. */
  lemma GlyphWidthRange(overlay: Option<OverlayFont>, ch: char, strokeMode: string)
    ensures 1 <= GlyphWidth(overlay, ch, strokeMode) <= CellW
  {
    var b := InkBounds(PreviewCell(overlay, ch, strokeMode));
    assert IsInkBounds(PreviewCell(overlay, ch, strokeMode), b);
  }

  /** Entry i of the list is the width of character i. */
  lemma {:induction false} StripWidthsAt(overlay: Option<OverlayFont>, text: string, strokeMode: string, i: int)
    requires 0 <= i < |text|
    ensures StripWidths(overlay, text, strokeMode)[i] == GlyphWidth(overlay, text[i], strokeMode)
    decreases |text|
  {
    if i < |text| - 1 {
      var pre := text[..|text| - 1];
      StripWidthsAt(overlay, pre, strokeMode, i);
      assert pre[i] == text[i];
    }
  }

  /** One entry of `widths`: render the cell, measure it, fall back to the
      space or default width. */
  method MeasureGlyphWidth(overlay: Option<OverlayFont>, ch: char, strokeMode: string) returns (w: int)
    ensures w == GlyphWidth(overlay, ch, strokeMode)
  {
    var cell := RenderOverlayPreviewCell(overlay, ch, strokeMode);
    var bounds := MeasureCellInkBounds(cell);
    w := if bounds.Some? then bounds.value.width else if ch == ' ' then 4 else 2;
  }

  /** The `widths` list of `drawOverlayPreviewStrip`. */
  method ComputeStripWidths(overlay: Option<OverlayFont>, text: string, strokeMode: string)
    returns (widths: seq<int>)
    ensures widths == StripWidths(overlay, text, strokeMode)
  {
    widths := [];
    for i := 0 to |text|
      invariant widths == StripWidths(overlay, text[..i], strokeMode)
    {
      var w := MeasureGlyphWidth(overlay, text[i], strokeMode);
      assert text[..i + 1][..i] == text[..i];
      widths := widths + [w];
    }
    assert text[..|text|] == text;
  }

  /** `totalWidth`: the sum of the widths plus one gap between neighbours. */
  method ComputeTotalWidth(widths: seq<int>) returns (total: int)
    ensures total == TotalWidth(widths)
  {
    var sum := 0;
    for i := 0 to |widths|
      invariant sum == Sum(widths[..i])
    {
      assert widths[..i + 1][..i] == widths[..i];
      sum := sum + widths[i];
    }
    assert widths[..|widths|] == widths;
    total := sum + (if |widths| > 0 then |widths| - 1 else 0) * Gap;
  }

  /** The pen loop of `drawOverlayPreviewStrip`: character i is drawn from
      column pens[i], and the pen ends exactly at the canvas width. */
  method PenPositions(widths: seq<int>) returns (pens: seq<int>, penX: int)
    ensures |pens| == |widths|
    ensures forall i :: 0 <= i < |widths| ==> pens[i] == Sum(widths[..i]) + i * Gap
    ensures penX == TotalWidth(widths)
  {
    pens := [];
    penX := 0;
    for i := 0 to |widths|
      invariant |pens| == i
      invariant forall j :: 0 <= j < i ==> pens[j] == Sum(widths[..j]) + j * Gap
      invariant penX == Sum(widths[..i]) + i * Gap - (if i == |widths| && i > 0 then Gap else 0)
    {
      assert widths[..i + 1][..i] == widths[..i];
      pens := pens + [penX];
      penX := penX + widths[i] + (if i < |widths| - 1 then Gap else 0);
    }
    assert widths[..|widths|] == widths;
  }

  /** Consecutive characters are separated by exactly one gap, and with
      positive widths every character ends inside the canvas. */
  lemma {:induction false} PensLayout(widths: seq<int>, i: int)
    requires 0 <= i < |widths|
    requires forall j :: 0 <= j < |widths| ==> widths[j] >= 1
    ensures Sum(widths[..i]) + i * Gap + widths[i] <= TotalWidth(widths)
    ensures i + 1 < |widths| ==>
      Sum(widths[..i + 1]) + (i + 1) * Gap == Sum(widths[..i]) + i * Gap + widths[i] + Gap
  {
    assert widths[..i + 1][..i] == widths[..i];
    SumPrefixGrows(widths, i + 1);
  }

  /** With positive widths, the sum of the first k widths plus the gaps
      after them never exceeds the total. */
  lemma {:induction false} SumPrefixGrows(widths: seq<int>, k: int)
    requires 1 <= k <= |widths|
    requires forall j :: 0 <= j < |widths| ==> widths[j] >= 1
    ensures Sum(widths[..k]) + (k - 1) * Gap <= TotalWidth(widths)
    decreases |widths| - k
  {
    if k == |widths| {
      assert widths[..k] == widths;
    } else {
      assert widths[..k + 1][..k] == widths[..k];
      SumPrefixGrows(widths, k + 1);
    }
  }
}
