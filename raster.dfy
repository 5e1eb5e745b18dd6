/**
 * The rasteriser of the editor (js/app.js): pixel nudges
 * (`shiftGlyphPixels`), placing a sparse overlay glyph into a 12x18 cell
 * (`renderOverlayToCell`, whose fill loop the preview and thumbnail
 * renderers repeat), and the colour quantiser used for PNG glyph strips
 * (`colorToGlyphValue`).
 */
module Raster {
  import opened Glyph
  import opened Stroke
  import opened Bits

  // ---------------------------------------------------------------------
  // shiftGlyphPixels

  /** `glyph[i]`: reading past the end of a Uint8Array yields `undefined`,
      which a Uint8Array store turns into 0. */
  function PixelOr0(glyph: Pixels, i: int): int
  {
    if 0 <= i < |glyph| then glyph[i] else 0
  }

  /** The glyph moved by (dx, dy): pixel (x, y) comes from (x-dx, y-dy),
      and a pixel with no source inside the cell is background (1). */
  function Shifted(glyph: Pixels, dx: int, dy: int): (r: Pixels)
    ensures |r| == CellSize
  {
    seq(CellSize, n requires 0 <= n < CellSize =>
      var sx, sy := Col(n) - dx, Row(n) - dy;
      if InCell(sx, sy) then PixelOr0(glyph, Idx(sx, sy)) else 1)
  }

  /** What `shiftGlyphPixels` returns: the glyph itself for a zero nudge. */
  function ShiftGlyph(glyph: Pixels, dx: int, dy: int): Pixels
  {
    if dx == 0 && dy == 0 then glyph else Shifted(glyph, dx, dy)
  }

  /** The output buffer once the loops have copied every source pixel with
      index below p. */
  function ShiftPartial(glyph: Pixels, dx: int, dy: int, p: int): (r: Pixels)
    ensures |r| == CellSize
  {
    seq(CellSize, n requires 0 <= n < CellSize =>
      var sx, sy := Col(n) - dx, Row(n) - dy;
      if InCell(sx, sy) && Idx(sx, sy) < p then PixelOr0(glyph, Idx(sx, sy)) else 1)
  }

  /** Pixel n takes its value from source pixel (x, y) exactly when n is
      the in-cell target of (x, y). */
  lemma ShiftSource(dx: int, dy: int, x: int, y: int, n: int)
    requires InCell(x, y) && 0 <= n < CellSize
    ensures InCell(Col(n) - dx, Row(n) - dy) && Idx(Col(n) - dx, Row(n) - dy) == Idx(x, y)
        <==> InCell(x + dx, y + dy) && n == Idx(x + dx, y + dy)
  {
    var cx, cy := Col(n), Row(n);
    CellCoords(n);
    if InCell(cx - dx, cy - dy) && Idx(cx - dx, cy - dy) == Idx(x, y) {
      IdxInjective(cx - dx, cy - dy, x, y);
      assert cx == x + dx && cy == y + dy;
    }
    if InCell(x + dx, y + dy) && n == Idx(x + dx, y + dy) {
      CellIndex(x + dx, y + dy);
      assert cx == x + dx && cy == y + dy;
    }
  }

  /** Copying source pixel (x, y) writes its target, if that is in the cell. */
  lemma {:induction false} ShiftStep(glyph: Pixels, dx: int, dy: int, x: int, y: int)
    requires InCell(x, y)
    ensures InCell(x + dx, y + dy) ==>
      ShiftPartial(glyph, dx, dy, Idx(x, y) + 1) ==
      ShiftPartial(glyph, dx, dy, Idx(x, y))[Idx(x + dx, y + dy) := PixelOr0(glyph, Idx(x, y))]
    ensures !InCell(x + dx, y + dy) ==>
      ShiftPartial(glyph, dx, dy, Idx(x, y) + 1) == ShiftPartial(glyph, dx, dy, Idx(x, y))
  {
    var a := ShiftPartial(glyph, dx, dy, Idx(x, y));
    var b := ShiftPartial(glyph, dx, dy, Idx(x, y) + 1);
    var t := Idx(x + dx, y + dy);
    var c := if InCell(x + dx, y + dy) then a[t := PixelOr0(glyph, Idx(x, y))] else a;
    forall n | 0 <= n < CellSize
      ensures b[n] == c[n]
    {
      ShiftSource(dx, dy, x, y, n);
    }
  }

  lemma IdxInjective(x: int, y: int, x': int, y': int)
    requires InCell(x, y) && InCell(x', y') && Idx(x, y) == Idx(x', y')
    ensures x == x' && y == y'
  {
    CellIndex(x, y);
    CellIndex(x', y');
  }

  /** A source row whose target row lies outside the cell copies nothing. */
  lemma {:induction false} ShiftRowSkipped(glyph: Pixels, dx: int, dy: int, y: int)
    requires 0 <= y < CellH && !(0 <= y + dy < CellH)
    ensures ShiftPartial(glyph, dx, dy, Idx(0, y + 1)) == ShiftPartial(glyph, dx, dy, Idx(0, y))
  {
    var a := ShiftPartial(glyph, dx, dy, Idx(0, y + 1));
    var b := ShiftPartial(glyph, dx, dy, Idx(0, y));
    forall n | 0 <= n < CellSize
      ensures a[n] == b[n]
    {
      CellCoords(n);
    }
  }

  /** `shiftGlyphPixels` for the 12x18 cell. */
  method ShiftGlyphPixels(glyph: Pixels, dx: int, dy: int) returns (r: Pixels)
    ensures r == ShiftGlyph(glyph, dx, dy)
  {
    if dx == 0 && dy == 0 {
      return glyph;
    }
    var out := new int[CellSize](_ => 1);
    assert out[..] == ShiftPartial(glyph, dx, dy, Idx(0, 0));
    for y := 0 to CellH
      invariant out[..] == ShiftPartial(glyph, dx, dy, Idx(0, y))
    {
      var ny := y + dy;
      if 0 <= ny < CellH {
        for x := 0 to CellW
          invariant out[..] == ShiftPartial(glyph, dx, dy, Idx(x, y))
        {
          var nx := x + dx;
          ShiftStep(glyph, dx, dy, x, y);
          if 0 <= nx < CellW {
            out[Idx(nx, ny)] := PixelOr0(glyph, Idx(x, y));
          }
        }
      } else {
        ShiftRowSkipped(glyph, dx, dy, y);
      }
    }
    assert ShiftPartial(glyph, dx, dy, Idx(0, CellH)) == Shifted(glyph, dx, dy);
    r := out[..];
  }

  /** A source pixel whose target is inside the cell lands there unchanged. */
  lemma ShiftMoves(glyph: Pixels, dx: int, dy: int, x: int, y: int)
    requires |glyph| == CellSize && InCell(x, y) && InCell(x + dx, y + dy)
    ensures ShiftGlyph(glyph, dx, dy)[Idx(x + dx, y + dy)] == glyph[Idx(x, y)]
  {
    CellIndex(x + dx, y + dy);
    CellIndex(x, y);
  }

  /** A pixel whose source lies outside the cell becomes background. */
  lemma ShiftExposes(glyph: Pixels, dx: int, dy: int, x: int, y: int)
    requires (dx, dy) != (0, 0) && InCell(x, y) && !InCell(x - dx, y - dy)
    ensures ShiftGlyph(glyph, dx, dy)[Idx(x, y)] == 1
  {
    CellIndex(x, y);
  }

  /** The early return for a zero nudge agrees with the general rule on a
      full-size glyph. */
  lemma {:induction false} ShiftZero(glyph: Pixels)
    requires |glyph| == CellSize
    ensures Shifted(glyph, 0, 0) == glyph
  {
    forall n | 0 <= n < CellSize
      ensures Shifted(glyph, 0, 0)[n] == glyph[n]
    {
      CellCoords(n);
    }
  }

  /** Nudging back undoes a nudge on every pixel that stayed inside. */
  lemma {:induction false} ShiftBack(glyph: Pixels, dx: int, dy: int, x: int, y: int)
    requires |glyph| == CellSize && InCell(x, y) && InCell(x + dx, y + dy)
    ensures ShiftGlyph(ShiftGlyph(glyph, dx, dy), -dx, -dy)[Idx(x, y)] == glyph[Idx(x, y)]
  {
    if dx == 0 && dy == 0 {
    } else {
      var once := Shifted(glyph, dx, dy);
      ShiftMoves(glyph, dx, dy, x, y);
      assert once[Idx(x + dx, y + dy)] == glyph[Idx(x, y)];
      ShiftMoves(once, -dx, -dy, x + dx, y + dy);
      assert (x + dx) + -dx == x && (y + dy) + -dy == y;
    }
  }

  // ---------------------------------------------------------------------
  // Placing an overlay glyph

  /** `og.rows[y]`; a missing row is `undefined`, and `undefined >>> 0` is 0. */
  function RowAt(rows: seq<int>, y: int): int
  {
    if 0 <= y < |rows| then rows[y] else 0
  }

  /** Column x of row y of the overlay glyph is inked: the loops' bounds and
      the test `row & (1 << (w - 1 - x))` on `row = og.rows[y] >>> 0`. */
  predicate Ink(g: OverlayGlyph, x: int, y: int)
  {
    0 <= x < g.w && 0 <= y < g.h && BitAnd(U32(RowAt(g.rows, y)), g.w - 1 - x)
  }

  /** The cell before stroking: fill (2) where an inked overlay pixel lands
      when the glyph is placed at (ox, oy), background (1) elsewhere. Ink
      landing outside the cell is dropped. */
  function FillCell(g: OverlayGlyph, ox: int, oy: int): (r: Pixels)
    ensures |r| == CellSize
  {
    seq(CellSize, n requires 0 <= n < CellSize =>
      if Ink(g, Col(n) - ox, Row(n) - oy) then 2 else 1)
  }

  /** The cell once the loops have visited every overlay pixel before
      (x, y) in row-major order. */
  function FillPartial(g: OverlayGlyph, ox: int, oy: int, y: int, x: int): (r: Pixels)
    ensures |r| == CellSize
  {
    seq(CellSize, n requires 0 <= n < CellSize =>
      var sx, sy := Col(n) - ox, Row(n) - oy;
      if Ink(g, sx, sy) && (sy < y || (sy == y && sx < x)) then 2 else 1)
  }

  lemma {:induction false} FillStep(g: OverlayGlyph, ox: int, oy: int, x: int, y: int)
    requires 0 <= x < g.w && 0 <= y < g.h
    ensures Ink(g, x, y) && InCell(ox + x, oy + y) ==>
      FillPartial(g, ox, oy, y, x + 1) == FillPartial(g, ox, oy, y, x)[Idx(ox + x, oy + y) := 2]
    ensures !(Ink(g, x, y) && InCell(ox + x, oy + y)) ==>
      FillPartial(g, ox, oy, y, x + 1) == FillPartial(g, ox, oy, y, x)
  {
    var a := FillPartial(g, ox, oy, y, x);
    var b := FillPartial(g, ox, oy, y, x + 1);
    forall n | 0 <= n < CellSize
      ensures Col(n) - ox == x && Row(n) - oy == y <==> InCell(ox + x, oy + y) && n == Idx(ox + x, oy + y)
    {
      CellCoords(n);
      if InCell(ox + x, oy + y) {
        CellIndex(ox + x, oy + y);
      }
    }
    if Ink(g, x, y) && InCell(ox + x, oy + y) {
      CellIndex(ox + x, oy + y);
      assert forall n | 0 <= n < CellSize :: b[n] == a[Idx(ox + x, oy + y) := 2][n];
    } else {
      assert forall n | 0 <= n < CellSize :: b[n] == a[n];
    }
  }

  lemma FillNextRow(g: OverlayGlyph, ox: int, oy: int, y: int)
    ensures FillPartial(g, ox, oy, y, if g.w > 0 then g.w else 0) == FillPartial(g, ox, oy, y + 1, 0)
  {
    var a := FillPartial(g, ox, oy, y, if g.w > 0 then g.w else 0);
    var b := FillPartial(g, ox, oy, y + 1, 0);
    assert forall n | 0 <= n < CellSize :: a[n] == b[n];
  }

  lemma FillDone(g: OverlayGlyph, ox: int, oy: int)
    ensures FillPartial(g, ox, oy, if g.h > 0 then g.h else 0, 0) == FillCell(g, ox, oy)
  {
    var a := FillPartial(g, ox, oy, if g.h > 0 then g.h else 0, 0);
    var b := FillCell(g, ox, oy);
    assert forall n | 0 <= n < CellSize :: a[n] == b[n];
  }

  /** The fill loops shared by `renderOverlayToCell`,
      `renderOverlayPreviewCell` and `renderOverlayCharCell`: place glyph g
      with its top-left corner at (ox, oy). */
  method RasterizeFill(g: OverlayGlyph, ox: int, oy: int) returns (r: Pixels)
    ensures r == FillCell(g, ox, oy)
  {
    var out := new int[CellSize](_ => 1);
    assert out[..] == FillPartial(g, ox, oy, 0, 0);
    var y := 0;
    while y < g.h
      invariant 0 <= y && (g.h > 0 ==> y <= g.h)
      invariant out[..] == FillPartial(g, ox, oy, y, 0)
    {
      var row := U32(RowAt(g.rows, y));
      var x := 0;
      while x < g.w
        invariant 0 <= x && (g.w > 0 ==> x <= g.w)
        invariant out[..] == FillPartial(g, ox, oy, y, x)
      {
        FillStep(g, ox, oy, x, y);
        if BitAnd(row, g.w - 1 - x) {
          var cx := ox + x;
          var cy := oy + y;
          if cx >= 0 && cx < CellW && cy >= 0 && cy < CellH {
            out[Idx(cx, cy)] := 2;
          }
        }
        x := x + 1;
      }
      FillNextRow(g, ox, oy, y);
      y := y + 1;
    }
    FillDone(g, ox, oy);
    r := out[..];
  }

  /** `renderOverlayToCell`: the glyph placed at its own offset plus the
      global replacement nudge, then outlined with `applyStroke4`. */
  method RenderOverlayToCell(g: OverlayGlyph, globalX: int, globalY: int) returns (r: Pixels)
    ensures r == Stroked(FillCell(g, g.offX + globalX, g.offY + globalY), Dirs4)
  {
    var xoff := g.offX + globalX;
    var yoff := g.offY + globalY;
    var fill := RasterizeFill(g, xoff, yoff);
    r := ApplyStroke4(fill);
  }

  /** The rendered cell holds only 1, 2 and 3; it is fill exactly where the
      placed glyph has ink inside the cell, and stroke only on background
      next to that fill. */
  lemma {:induction false} RenderedCell(g: OverlayGlyph, ox: int, oy: int, dirs: seq<Dir>, n: int)
    requires 0 <= n < CellSize
    ensures var r := Stroked(FillCell(g, ox, oy), dirs);
      1 <= r[n] <= 3 &&
      (r[n] == 2 <==> Ink(g, Col(n) - ox, Row(n) - oy)) &&
      (r[n] == 3 ==> NearFill(FillCell(g, ox, oy), dirs, n, CellSize))
  {
    var c := FillCell(g, ox, oy);
    assert c[n] == 1 || c[n] == 2;
  }

  /** Overlay pixel (x, y) lands at (ox + x, oy + y) when that is inside
      the cell; for glyphs at most 32 wide its ink is bit w-1-x of the row. */
  lemma InkLands(g: OverlayGlyph, ox: int, oy: int, x: int, y: int)
    requires InCell(ox + x, oy + y)
    ensures FillCell(g, ox, oy)[Idx(ox + x, oy + y)] == (if Ink(g, x, y) then 2 else 1)
    ensures 0 <= x < g.w <= 32 && 0 <= y < g.h ==>
      (Ink(g, x, y) <==> Bit(U32(RowAt(g.rows, y)), g.w - 1 - x))
  {
    CellIndex(ox + x, oy + y);
  }

  // ---------------------------------------------------------------------
  // colorToGlyphValue

  /** Luma scaled by 10000: 0.2126 r + 0.7152 g + 0.0722 b. */
  function Luma(r: int, g: int, b: int): int { 2126 * r + 7152 * g + 722 * b }

  function AbsDiff(a: int, b: int): int { if a < b then b - a else a - b }

  function MaxDiff(r: int, g: int, b: int): int
  {
    var drg, dgb, drb := AbsDiff(r, g), AbsDiff(g, b), AbsDiff(r, b);
    if drg >= dgb && drg >= drb then drg else if dgb >= drb then dgb else drb
  }

  /** `colorToGlyphValue`: transparent and neutral mid-grey read as
      background, bright as fill, everything else as stroke. */
  function ColorToGlyphValue(r: int, g: int, b: int, a: int): (v: int)
    ensures v == 1 || v == 2 || v == 3
    ensures v == 2 <==> a >= 16 && Luma(r, g, b) >= 2100000
    ensures v == 1 <==> a < 16 || (MaxDiff(r, g, b) <= 18 && 920000 <= Luma(r, g, b) <= 1760000)
  {
    if a < 16 then 1
    else
      var lum := Luma(r, g, b);
      if MaxDiff(r, g, b) <= 18 && lum >= 920000 && lum <= 1760000 then 1
      else if lum >= 2100000 then 2
      else 3
  }

  /** An opaque grey level v reads as stroke below 92, background from 92
      to 176, stroke again up to 209, and fill from 210. */
  lemma GreyLevels(v: int)
    ensures ColorToGlyphValue(v, v, v, 255) ==
      (if v < 92 then 3 else if v <= 176 then 1 else if v < 210 then 3 else 2)
  {
    assert Luma(v, v, v) == 10000 * v;
  }
}
