/**
 * The font data model shared by the codec, the rasteriser and the
 * compositor: 256 glyphs, each a row-major buffer of 12x18 pixel values
 * (0 black, 1 background, 2 white fill, 3 stroke), and the sparse overlay
 * glyphs that vector sources provide.
 */
module Glyph {

  const CellW: int := 12
  const CellH: int := 18
  const CellSize: int := 216
  const GlyphCount: int := 256

  /** A glyph buffer. The editor stores these in `Uint8Array`s. */
  type Pixels = seq<int>

  datatype Font = Font(width: int, height: int, glyphs: seq<Pixels>)

  /** Column and row of pixel index n in a 12-wide cell. */
  function Col(n: int): int { n % 12 }
  function Row(n: int): int { n / 12 }

  /** Index of pixel (x, y) in a row-major 12-wide buffer. */
  function Idx(x: int, y: int): int { y * 12 + x }

  predicate IsPixelValue(v: int) { 0 <= v <= 3 }

  /** A font as the MCM decoder produces it. */
  predicate WellFormed(f: Font)
  {
    f.width == CellW && f.height == CellH && |f.glyphs| == GlyphCount &&
    forall g :: 0 <= g < |f.glyphs| ==> |f.glyphs[g]| == CellSize
  }

  /** One glyph of a sparse overlay font: `{size: [w, h], offset: [x, y],
      rows}` where bit `w-1-x` of `rows[y]` marks ink at column x. */
  datatype OverlayGlyph = OverlayGlyph(w: int, h: int, offX: int, offY: int, rows: seq<int>)

  /** An overlay font: glyphs keyed by "U+XXXX". */
  type OverlayFont = map<string, OverlayGlyph>

  /** An overlay glyph lies wholly inside the cell and has one row per
      line of its height. */
  predicate Inside(g: OverlayGlyph, cellW: int, cellH: int)
  {
    1 <= g.w && 0 <= g.offX && g.offX + g.w <= cellW &&
    1 <= g.h && 0 <= g.offY && g.offY + g.h <= cellH &&
    |g.rows| == g.h
  }
}
