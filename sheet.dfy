/**
 * The PNG sheet export (`renderFontToSheetCanvas` in
 * js/modules/workspace-render.js, the same as the copy in js/app.js): the
 * 256 glyphs laid out 16 by 16, each glyph pixel painted as a 3 x 3 block
 * (the export scale every caller uses) on a grey background, white for
 * fill and black for value 0 or stroke. The canvas is a 2-D array of
 * colours indexed [x, y].
 */
module Sheet {
  import opened Glyph

  datatype Colour = Grey | White | Black

  /** The export scale: each glyph pixel is a 3 x 3 block. */
  const Scale: int := 3

  /** The sheet is 16 cells of 12 pixels wide and 16 cells of 18 pixels
      high, each pixel 3 canvas pixels square: 576 x 864. */
  const SheetWidth: int := 576
  const SheetHeight: int := 864

  /** The colour the export paints for a glyph value; grey (the
      background, left as it is) for 1 and any value outside 0..3. */
  function Shade(v: int): (c: Colour)
    ensures c == White <==> v == 2
    ensures c == Black <==> v == 0 || v == 3
    ensures c == Grey <==> v != 0 && v != 2 && v != 3
  {
    if v == 2 then White else if v == 0 || v == 3 then Black else Grey
  }

  /** The painting step of glyph pixel (x, y) of glyph i: glyphs in order,
      rows in order, columns in order. */
  function Step(i: int, x: int, y: int): int { i * 216 + y * 12 + x }

  /** The step that paints the block holding glyph-pixel coordinates
      (sx, sy) of the sheet. */
  function BlockStep(sx: int, sy: int): int
  {
    Step((sy / 18) * 16 + sx / 12, sx % 12, sy % 18)
  }

  /** The step that paints canvas pixel (px, py). */
  function PixelStep(px: int, py: int): int
  {
    BlockStep(px / 3, py / 3)
  }

  predicate OnSheet(px: int, py: int)
  {
    0 <= px < SheetWidth && 0 <= py < SheetHeight
  }

  /** Every canvas pixel belongs to one of the 256 x 216 painting steps. */
  lemma SheetBounds(px: int, py: int)
    requires OnSheet(px, py)
    ensures 0 <= PixelStep(px, py) < 256 * 216
  {
  }

  /** The colour of canvas pixel (px, py) of the finished sheet. */
  function SheetColour(font: Font, px: int, py: int): Colour
    requires WellFormed(font) && OnSheet(px, py)
  {
    SheetBounds(px, py);
    var t := PixelStep(px, py);
    Shade(font.glyphs[t / 216][t % 216])
  }

  // ---------------------------------------------------------------------
  // Layout

  /** A painting step determines its glyph and glyph pixel. */
  lemma StepDecode(i: int, x: int, y: int)
    requires 0 <= x < 12 && 0 <= y < 18
    ensures Step(i, x, y) / 216 == i && Step(i, x, y) % 216 == Idx(x, y)
  {
  }

  /** Glyph i's pixel (x, y) lies at glyph-pixel coordinates
      (12 (i mod 16) + x, 18 (i div 16) + y) of the sheet. */
  lemma BlockStepOf(i: int, x: int, y: int)
    requires 0 <= i < 256 && 0 <= x < 12 && 0 <= y < 18
    ensures BlockStep((i % 16) * 12 + x, (i / 16) * 18 + y) == Step(i, x, y)
  {
    var sx, sy := (i % 16) * 12 + x, (i / 16) * 18 + y;
    assert sx / 12 == i % 16 && sx % 12 == x;
    assert sy / 18 == i / 16 && sy % 18 == y;
  }

  /** Different glyph-pixel coordinates are painted at different steps. */
  lemma BlockStepInjective(sx: int, sy: int, sx': int, sy': int)
    requires 0 <= sx < 192 && 0 <= sy < 288 && 0 <= sx' < 192 && 0 <= sy' < 288
    requires BlockStep(sx, sy) == BlockStep(sx', sy')
    ensures sx == sx' && sy == sy'
  {
    var i, i' := (sy / 18) * 16 + sx / 12, (sy' / 18) * 16 + sx' / 12;
    StepDecode(i, sx % 12, sy % 18);
    StepDecode(i', sx' % 12, sy' % 18);
    assert i == i' && sx % 12 == sx' % 12 && sy % 18 == sy' % 18;
    assert i % 16 == sx / 12 && i / 16 == sy / 18;
    assert i' % 16 == sx' / 12 && i' / 16 == sy' / 18;
  }

  /** A canvas pixel shows the shade of the glyph pixel whose step paints it. */
  lemma ColourAt(font: Font, px: int, py: int, i: int, x: int, y: int)
    requires WellFormed(font) && OnSheet(px, py)
    requires 0 <= i < 256 && 0 <= x < 12 && 0 <= y < 18
    requires PixelStep(px, py) == Step(i, x, y)
    ensures SheetColour(font, px, py) == Shade(font.glyphs[i][Idx(x, y)])
  {
    StepDecode(i, x, y);
  }

  /** Glyph i's cell starts at ((i mod 16) W scale, (i div 16) H scale); its
      pixel (x, y) paints the scale x scale block at (ox + x scale,
      oy + y scale), which lies on the sheet, and every canvas pixel of
      that block shows that glyph pixel's shade. */
  lemma CellBlock(font: Font, i: int, x: int, y: int, dx: int, dy: int)
    requires WellFormed(font)
    requires 0 <= i < 256 && 0 <= x < 12 && 0 <= y < 18 && 0 <= dx < Scale && 0 <= dy < Scale
    ensures var px := (i % 16) * 12 * 3 + x * 3 + dx;
      var py := (i / 16) * 18 * 3 + y * 3 + dy;
      OnSheet(px, py) &&
      PixelStep(px, py) == Step(i, x, y) &&
      SheetColour(font, px, py) == Shade(font.glyphs[i][Idx(x, y)])
  {
    var px := (i % 16) * 12 * 3 + x * 3 + dx;
    var py := (i / 16) * 18 * 3 + y * 3 + dy;
    assert px / 3 == (i % 16) * 12 + x && py / 3 == (i / 16) * 18 + y;
    BlockStepOf(i, x, y);
    ColourAt(font, px, py, i, x, y);
  }

  /** Blocks do not overlap: a canvas pixel painted for glyph pixel (x, y)
      of glyph i is painted for no other glyph pixel of any glyph. */
  lemma BlocksDisjoint(i: int, x: int, y: int, i': int, x': int, y': int, px: int, py: int)
    requires 0 <= i < 256 && 0 <= x < 12 && 0 <= y < 18
    requires 0 <= i' < 256 && 0 <= x' < 12 && 0 <= y' < 18
    requires PixelStep(px, py) == Step(i, x, y) && PixelStep(px, py) == Step(i', x', y')
    ensures i == i' && x == x' && y == y'
  {
    StepDecode(i, x, y);
    StepDecode(i', x', y');
    assert Idx(x, y) / 12 == y && Idx(x, y) % 12 == x;
    assert Idx(x', y') / 12 == y' && Idx(x', y') % 12 == x';
  }

  /** The canvas pixels inside the block at glyph-pixel coordinates
      (sx, sy) are exactly those painted at that block's step. */
  lemma InBlock(px: int, py: int, sx: int, sy: int)
    requires OnSheet(px, py)
    requires 0 <= sx < 192 && 0 <= sy < 288
    ensures (sx * 3 <= px < sx * 3 + 3 && sy * 3 <= py < sy * 3 + 3) <==>
      PixelStep(px, py) == BlockStep(sx, sy)
  {
    var qx, qy := px / 3, py / 3;
    assert (sx * 3 <= px < sx * 3 + 3) <==> qx == sx;
    assert (sy * 3 <= py < sy * 3 + 3) <==> qy == sy;
    assert 0 <= qx < 192 && 0 <= qy < 288;
    if BlockStep(qx, qy) == BlockStep(sx, sy) {
      BlockStepInjective(qx, qy, sx, sy);
    }
  }

  // ---------------------------------------------------------------------
  // Painting

  /** The canvas after the steps before t: their pixels show their shade,
      every other pixel is still grey. */
  predicate Painted(c: array2<Colour>, font: Font, t: int)
    requires WellFormed(font)
    reads c
  {
    c.Length0 == SheetWidth && c.Length1 == SheetHeight &&
    forall px, py :: 0 <= px < c.Length0 && 0 <= py < c.Length1 ==>
      c[px, py] == if PixelStep(px, py) < t then SheetColour(font, px, py) else Grey
  }

  /** `ctx.fillRect(x0, y0, s, s)` with the current fill colour. */
  method FillRect(c: array2<Colour>, x0: int, y0: int, s: int, colour: Colour)
    requires 0 <= x0 && x0 + s <= c.Length0 && 0 <= y0 && y0 + s <= c.Length1 && s >= 0
    modifies c
    ensures forall px, py :: 0 <= px < c.Length0 && 0 <= py < c.Length1 ==>
      c[px, py] == if x0 <= px < x0 + s && y0 <= py < y0 + s then colour else old(c[px, py])
  {
    for px := x0 to x0 + s
      invariant forall qx, qy :: 0 <= qx < c.Length0 && 0 <= qy < c.Length1 ==>
        c[qx, qy] == if x0 <= qx < px && y0 <= qy < y0 + s then colour else old(c[qx, qy])
    {
      for py := y0 to y0 + s
        invariant forall qx, qy :: 0 <= qx < c.Length0 && 0 <= qy < c.Length1 ==>
          c[qx, qy] ==
            if (x0 <= qx < px && y0 <= qy < y0 + s) || (qx == px && y0 <= qy < py) then colour
            else old(c[qx, qy])
      {
        c[px, py] := colour;
      }
    }
  }

  /** Painting the block of glyph pixel (x, y) of glyph i, whose value has
      a colour other than grey. */
  method PaintBlock(c: array2<Colour>, font: Font, i: int, x: int, y: int, colour: Colour)
    requires WellFormed(font)
    requires 0 <= i < 256 && 0 <= x < 12 && 0 <= y < 18
    requires colour == Shade(font.glyphs[i][Idx(x, y)])
    requires Painted(c, font, Step(i, x, y))
    modifies c
    ensures Painted(c, font, Step(i, x, y) + 1)
  {
    var ox := (i % 16) * 12 * 3;
    var oy := (i / 16) * 18 * 3;
    var sx, sy := (i % 16) * 12 + x, (i / 16) * 18 + y;
    assert 0 <= sx < 192 && 0 <= sy < 288;
    assert ox + x * 3 == sx * 3 && oy + y * 3 == sy * 3;
    BlockStepOf(i, x, y);
    FillRect(c, ox + x * 3, oy + y * 3, 3, colour);
    forall px, py | 0 <= px < c.Length0 && 0 <= py < c.Length1
      ensures c[px, py] ==
        if PixelStep(px, py) < Step(i, x, y) + 1 then SheetColour(font, px, py) else Grey
    {
      InBlock(px, py, sx, sy);
      if PixelStep(px, py) == Step(i, x, y) {
        ColourAt(font, px, py, i, x, y);
      }
    }
  }

  /** A value of 1, or one outside 0..3, leaves the block grey. */
  lemma SkipBlock(c: array2<Colour>, font: Font, i: int, x: int, y: int)
    requires WellFormed(font)
    requires 0 <= i < 256 && 0 <= x < 12 && 0 <= y < 18
    requires Shade(font.glyphs[i][Idx(x, y)]) == Grey
    requires Painted(c, font, Step(i, x, y))
    ensures Painted(c, font, Step(i, x, y) + 1)
  {
    forall px, py | 0 <= px < c.Length0 && 0 <= py < c.Length1
      ensures c[px, py] ==
        if PixelStep(px, py) < Step(i, x, y) + 1 then SheetColour(font, px, py) else Grey
    {
      if PixelStep(px, py) == Step(i, x, y) {
        ColourAt(font, px, py, i, x, y);
      }
    }
  }

  /** The canvas filled grey, so that the PNG is readable. */
  method GreyCanvas() returns (c: array2<Colour>)
    ensures fresh(c) && c.Length0 == SheetWidth && c.Length1 == SheetHeight
    ensures forall px, py :: 0 <= px < c.Length0 && 0 <= py < c.Length1 ==> c[px, py] == Grey
  {
    c := new Colour[SheetWidth, SheetHeight]((px, py) => Grey);
  }

  /** The grey canvas is the canvas before the first step. */
  lemma GreyPainted(c: array2<Colour>, font: Font)
    requires WellFormed(font)
    requires c.Length0 == SheetWidth && c.Length1 == SheetHeight
    requires forall px, py :: 0 <= px < c.Length0 && 0 <= py < c.Length1 ==> c[px, py] == Grey
    ensures Painted(c, font, 0)
  {
    forall px, py | 0 <= px < c.Length0 && 0 <= py < c.Length1
      ensures PixelStep(px, py) >= 0
    {
      SheetBounds(px, py);
    }
  }

  /** The finished sheet: every canvas pixel shows the shade of the glyph
      pixel whose block holds it. */
  predicate ShowsFont(c: array2<Colour>, font: Font)
    requires WellFormed(font)
    reads c
  {
    c.Length0 == SheetWidth && c.Length1 == SheetHeight &&
    forall px, py :: 0 <= px < c.Length0 && 0 <= py < c.Length1 ==>
      c[px, py] == SheetColour(font, px, py)
  }

  /** After the last step every pixel shows its shade. */
  lemma AllPainted(c: array2<Colour>, font: Font)
    requires WellFormed(font)
    requires Painted(c, font, 256 * 216)
    ensures ShowsFont(c, font)
  {
    forall px, py | 0 <= px < c.Length0 && 0 <= py < c.Length1
      ensures PixelStep(px, py) < 256 * 216
    {
      SheetBounds(px, py);
    }
  }

  /** Row y of glyph i: the innermost loop of the export. */
  method PaintRow(c: array2<Colour>, font: Font, i: int, y: int)
    requires WellFormed(font)
    requires 0 <= i < 256 && 0 <= y < 18
    requires Painted(c, font, Step(i, 0, y))
    modifies c
    ensures Painted(c, font, Step(i, 0, y + 1))
  {
    var g := font.glyphs[i];
    for x := 0 to 12
      invariant Painted(c, font, Step(i, x, y))
    {
      var v := g[y * 12 + x];
      if v == 1 {
        SkipBlock(c, font, i, x, y);
        continue;
      }
      var colour;
      if v == 2 {
        colour := White;
      } else if v == 0 || v == 3 {
        colour := Black;
      } else {
        SkipBlock(c, font, i, x, y);
        continue;
      }
      PaintBlock(c, font, i, x, y, colour);
    }
    assert Step(i, 12, y) == Step(i, 0, y + 1);
  }

  /** Glyph i: the two inner loops of the export. */
  method PaintGlyph(c: array2<Colour>, font: Font, i: int)
    requires WellFormed(font)
    requires 0 <= i < 256
    requires Painted(c, font, i * 216)
    modifies c
    ensures Painted(c, font, (i + 1) * 216)
  {
    assert Step(i, 0, 0) == i * 216;
    for y := 0 to 18
      invariant Painted(c, font, Step(i, 0, y))
    {
      PaintRow(c, font, i, y);
    }
    assert Step(i, 0, 18) == (i + 1) * 216;
  }

  /** The glyph loop of the export. */
  method PaintGlyphs(c: array2<Colour>, font: Font)
    requires WellFormed(font)
    requires Painted(c, font, 0)
    modifies c
    ensures Painted(c, font, 256 * 216)
  {
    for i := 0 to 256
      invariant Painted(c, font, i * 216)
    {
      PaintGlyph(c, font, i);
    }
  }

  /** `renderFontToSheetCanvas(font, 3)` for a decoded font: a grey canvas
      of 16 W scale by 16 H scale, then each glyph pixel painted in its
      block; on return every canvas pixel shows the shade of the glyph
      pixel whose block holds it. */
  method RenderFontToSheet(font: Font) returns (c: array2<Colour>)
    requires WellFormed(font)
    ensures fresh(c)
    ensures c.Length0 == 16 * 12 * 3 && c.Length1 == 16 * 18 * 3
    ensures ShowsFont(c, font)
  {
    c := GreyCanvas();
    GreyPainted(c, font);
    PaintGlyphs(c, font);
    AllPainted(c, font);
  }
}
