# OSD Font Lab glyph pipeline, modelled in Dafny

OSD Font Lab edits fonts for the MAX7456 on-screen-display chip. A font is
256 glyphs. Each glyph is a row-major buffer of 12 x 18 pixel values:

- 0 is black;
- 1 is the transparent grey background;
- 2 is white fill;
- 3 is the black stroke drawn around fill.

This project models the parts of the editor and its tools that compute
glyph buffers:

- the MAX7456 text `.mcm` codec;
- the rasteriser, which places a sparse overlay glyph (`size`, `offset`,
  `rows` bitmasks) into a cell and outlines it with `applyStroke4` or
  `applyStroke8`;
- pixel nudges and colour quantisation;
- the compositor that builds the result font from the base font, the
  overlay, swap overrides and per-glyph nudges;
- the overlay importers for YAFF text, BDF and raw C64 charsets;
- small state and string logic: the selection state, the swap-source
  registry, `clampInt`, `escapeHtml` and the export-sheet layout;
- the thumbnail generator's cell rendering, normalisation, PNG byte layout
  and file-name sanitiser.

Layout, one module per file:

| file | module | models |
|---|---|---|
| wrappers.dfy | Wrappers | `Option` and `Result` |
| text.dfy | Text | JavaScript and Python whitespace, trimming, splitting, `U+XXXX` keys |
| bits.dfy | Bits | powers of two, bit tests, 32-bit truncation (`>>> 0`) |
| glyph.dfy | Glyph | the 12 x 18 cell, `Font`, `OverlayGlyph` |
| mcm.dfy | Mcm | `decodeMCM`, `encodeMCM` |
| stroke.dfy | Stroke | `applyStroke4`, `applyStroke8` |
| raster.dfy | Raster | `shiftGlyphPixels`, `renderOverlayToCell`, `colorToGlyphValue` |
| preview.dfy | Preview | `renderOverlayPreviewCell`, `measureCellInkBounds`, strip widths |
| app_tables.dfy | AppTables | `REPLACE_CHARS`, `BF_GLYPH_LABELS.labelFor`, `SWAP_TARGETS` |
| compositor.dfy | Compositor | `rebuildResultFont` and the nudge clamp |
| edits.dfy | Edits | `glyphDiffCount`, swap and nudge edits |
| workspace.dfy | Workspace | the editor state (`baseFont`, `resultFont`, overlay, swaps, nudges) as a class |
| selection.dfy | Selection | the selection state as a class |
| swap_registry.dfy | SwapRegistry | the swap-source registry as a class |
| dom_utils.dfy | DomUtils | `clampInt` (with `parseInt`), `escapeHtml` |
| yaff.dfy | Yaff | the YAFF importer |
| bdf.dfy | Bdf | the BDF importer |
| c64.dfy | C64 | the C64 charset importer |
| sheet.dfy | Sheet | `renderFontToSheetCanvas` as writes into a 2-D colour array |
| thumbs.dfy | Thumbs | the thumbnail generator |

Code that fills buffers in loops is modelled by methods over arrays or
sequences. Each method is proved equal to a specification function, and
the lemmas state what the source promises about that function. Code made
only of expressions is modelled by functions.

Two details of the compositor that the model keeps as the code has them:

- The overlay pass replaces every replaceable index whose `U+00XX` key is
  present (js/app.js:1242-1251); glyphs without ink get no exception.
- The global "replaced" nudge is added to the overlay glyph's offset
  before rasterising (js/app.js:1211-1214), not applied as a pixel shift
  afterwards.

## Model

| member | source | states |
|---|---|---|
| Text.TrimStart | js/modules/yaff.js:6 | trimming the start never lengthens the text and leaves no leading JavaScript whitespace |
| Text.TrimEnd | js/modules/yaff.js:6 | the result does not end with JavaScript whitespace |
| Text.BlankIffTrimEmpty | js/mcm.js:25 | a line is blank (all whitespace) exactly when trimming it leaves the empty string |
| Text.SplitOn | js/modules/yaff.js:12 | `split(",")` yields at least one part and no part contains the separator |
| Text.PyWords | tools/bdf2osdjson.py:45 | Python `split()` yields only non-empty words |
| Text.HexRoundTrip | js/modules/yaff.js:139 | the uppercase hex digits of n read back as n |
| Text.HexShort | js/modules/yaff.js:139 | a value below 16 to the k has at most k hex digits |
| Text.HexLong | js/modules/yaff.js:139 | a value of at least 16 to the k has more than k hex digits |
| Text.PadZerosValue | js/modules/yaff.js:139 | zero padding to any width keeps the hex value |
| Text.JsKeyShape | js/modules/yaff.js:139 | a `U+` key from `padStart(4)` has 6 characters exactly for code points up to 0xFFFF, and its digits are uppercase hex |
| Text.PyUPlusShape | tools/bdf2osdjson.py:40-41 | `_uplus` gives 4 hex digits up to 0xFFFF, 6 up to 0xFFFFFF and more beyond, all uppercase hex |
| Text.JsKeyIsPyUPlus | tools/c64bin2osdjson.py:47-48 | for BMP code points the JavaScript key and the Python key are the same string |
| Text.UPlusRoundTrip | tools/bdf2osdjson.py:40-41 | every key written by `_uplus`, negative code points included, reads back as its code point |
| Text.ParseNegativeKey | tools/bdf2osdjson.py:40-41 | a negative code point's key `U+-` and three digits reads back as that negative number |
| Text.UPlusInjective | tools/c64bin2osdjson.py:47-48 | distinct code points never share a `uplus` key |
| Text.JsKeyInjective | js/modules/yaff.js:139 | distinct code points never share a JavaScript `U+` key |
| Bits.U32 | js/modules/yaff.js:41 | `>>> 0` lands in 0..2^32-1 and keeps values already in range |
| Bits.U32Bit | js/app.js:1217-1220 | truncating to 32 bits keeps every bit below 32 |
| Bits.BitAndNarrow | js/app.js:1219-1220 | for a non-negative row and s below 32, `row & (1 << s)` is set exactly when bit s of the row itself is set, however wide the row |
| Mcm.SplitLines | js/mcm.js:19 | `split(/\r?\n/)` always yields at least one line |
| Mcm.SplitJoin | js/mcm.js:19 | splitting lines joined by LF or CRLF gives the lines back |
| Mcm.SplitJoinTerminated | js/mcm.js:19 | with a trailing separator, splitting adds one empty last line |
| Mcm.LineEndingsAgnostic | js/mcm.js:19 | LF and CRLF files split into the same lines |
| Mcm.NonBlank | js/mcm.js:25 | the kept data lines are no more than the input lines and none is blank |
| Mcm.NonBlankAppend | js/mcm.js:25 | filtering blank lines distributes over concatenation |
| Mcm.ParseByteLine | js/mcm.js:36-39 | `parseInt(s, 2)` reads a byte written by `toString(2).padStart(8, "0")` back |
| Mcm.ByteLine | js/mcm.js:123 | every written byte line is eight binary digits |
| Mcm.RowPixelIsPair | js/mcm.js:49-57 | pixel x of a row is pair x mod 4, counted from the high bits, of byte x div 4 of the row's three bytes: the pair at bits 22-2x of the 24-bit value |
| Mcm.FirstBadLine | js/mcm.js:34-38 | the index reported is the first of the 16384 data lines that is not eight binary digits, and None means every line is one |
| Mcm.FirstBadGlyph | js/mcm.js:102-106 | the index reported is the first glyph whose length is not 216, and None means every glyph has 216 pixels |
| Mcm.DecodedPixelIsPair | js/mcm.js:44-58 | decoded pixel n of glyph g is bit pair n mod 4 of byte g*64 + n div 4 |
| Mcm.DecodedPixelAt | js/mcm.js:46-57 | decoded pixel (x, y) of glyph g comes from bytes g*64+3y .. g*64+3y+2 |
| Mcm.DecodeMcm | js/mcm.js:5-65 | the decoder's loops compute exactly `Decode`: the header, marker, length and byte-line errors, or the font of the first 16384 data lines |
| Mcm.ReadByteLines | js/mcm.js:32-40 | the conversion loop stops at the first bad line and otherwise yields the parsed bytes |
| Mcm.UnpackGlyph | js/mcm.js:44-61 | one glyph's loops yield its decoded pixels |
| Mcm.DecodeOk | js/mcm.js:25-64 | a successful decode had at least 16384 data lines, all valid, and its font is read from them |
| Mcm.DecodeWellFormed | js/mcm.js:43-64 | a decoded font has 256 glyphs of 216 pixels, each in 0..3 |
| Mcm.FontOfWellFormed | js/mcm.js:43-64 | the font unpacked from any 16384 bytes has 256 glyphs of 216 pixels in 0..3 |
| Mcm.PaddingIgnored | js/mcm.js:46-51 | bytes 54..63 of each glyph never influence the decoded font |
| Mcm.BlankLineIgnored | js/mcm.js:25 | inserting a blank line after the header does not change the decode result |
| Mcm.TrailingLinesIgnored | js/mcm.js:28-34 | lines after the first 16384 data lines never change the decode result |
| Mcm.Canonical | js/mcm.js:89-93 | the value a pixel reads back as: 0, 1, 2 stay, 3 becomes 0, anything else becomes 1 |
| Mcm.ChipValueRead | js/mcm.js:89-93 | `v2bpp` writes 2 as 10, 0 and 3 as 00, everything else as 01, which decode as `Canonical` |
| Mcm.PackByteRead | js/mcm.js:110-121 | pair k of a packed byte is the canonical value of pixel 4*bi + k |
| Mcm.EncodeMcm | js/mcm.js:67-134 | the encoder's loops compute exactly `Encode`, size and count and per-glyph length errors included |
| Mcm.EncodeOkIff | js/mcm.js:71-76 | encoding succeeds exactly for 12 x 18 fonts of 256 glyphs of 216 values |
| Mcm.EncodeLayout | js/mcm.js:99-133 | the output is the `MAX7456` line, 16384 eight-digit byte lines and a final empty line after the trailing CRLF, and the last 10 lines of every glyph are `01010101` |
| Mcm.EncodedHead | js/mcm.js:100 | the encoded text begins with `MAX7456`, the decoder's header test |
| Mcm.EncodeNeverWritesEleven | js/mcm.js:89-93 | no pixel pair written is 11 |
| Mcm.EncodedBytesRead | js/mcm.js:25-40 | decoding encoded text reads back exactly the bytes written |
| Mcm.DataLinesParse | js/mcm.js:99-129 | every written data line is a byte line, and reading them back gives the packed bytes |
| Mcm.RoundTripPixel | js/mcm.js:54-57 | a decoded pixel of an encoded font is the canonical value of the original pixel |
| Mcm.RoundTrip | js/mcm.js:5-134 | decode(encode(f)) is f with every pixel made canonical |
| Mcm.RoundTripExact | js/mcm.js:5-134 | a font with pixels in 0..2 round-trips exactly |
| Mcm.EncodeCanonical | js/mcm.js:89-93 | encoding the canonical font gives the same text as encoding the font |
| Stroke.Stroked | js/modules/preview.js:2-23 | a stroke changes only background pixels (1), and only into stroke (3); the length is kept |
| Stroke.ApplyStroke4 | js/modules/preview.js:2-23 | the copy-and-visit loops compute `Stroked` with the four orthogonal neighbours |
| Stroke.ApplyStroke8 | js/modules/preview.js:25-47 | the loops over dy and dx compute `Stroked` with the eight neighbours |
| Stroke.Outline4At | js/modules/preview.js:10-18 | visiting one fill pixel's four neighbours advances the trace by four offsets |
| Stroke.Outline8At | js/modules/preview.js:33-42 | visiting one fill pixel's 3 x 3 block advances the trace by nine offsets, skipping the centre |
| Stroke.TouchAt | js/modules/preview.js:15-17 | one neighbour write: out-of-cell neighbours are skipped and only a 1 becomes 3 |
| Stroke.TraceIsPartial | js/modules/preview.js:6-20 | the loop's step-by-step state equals the closed form after each visited offset |
| Stroke.Near4Iff | js/modules/preview.js:10-15 | the four-neighbourhood is exactly the in-cell pixels at Manhattan distance 1 |
| Stroke.Near8Iff | js/modules/preview.js:33-38 | the eight-neighbourhood is exactly the other in-cell pixels at Chebyshev distance 1 |
| Stroke.Stroke4Within8 | js/modules/preview.js:2-47 | every pixel `applyStroke4` turns into stroke is stroke under `applyStroke8` as well |
| Stroke.StrokeIdempotent | js/modules/preview.js:2-47 | stroking twice equals stroking once, for both neighbourhoods |
| Raster.ShiftGlyphPixels | js/app.js:1150-1173 | the shift loops compute `ShiftGlyph`: the glyph itself for a zero shift, the moved copy otherwise |
| Raster.ShiftMoves | js/app.js:1160-1168 | an in-cell source pixel lands at (x+dx, y+dy) when that is in the cell |
| Raster.ShiftExposes | js/app.js:1155-1158 | after a non-zero shift every pixel with no in-cell source is background 1 |
| Raster.ShiftZero | js/app.js:1153 | shifting by (0, 0) changes nothing |
| Raster.ShiftBack | js/app.js:1150-1173 | shifting back restores every pixel whose shifted position stayed in the cell |
| Raster.RasterizeFill | js/app.js:1216-1228 | the fill loops compute `FillCell`: 2 at in-cell set bits, 1 elsewhere |
| Raster.InkLands | js/app.js:1216-1225 | an in-cell pixel is 2 exactly when its row bit w-1-x is set, read from the 32-bit row |
| Raster.RenderOverlayToCell | js/app.js:1203-1231 | the cell is the four-neighbour stroke of the fill at offset plus global nudge |
| Raster.RenderedCell | js/app.js:1203-1231 | every rendered pixel is in 1..3, is 2 exactly at glyph ink, and is 3 only next to fill |
| Raster.ColorToGlyphValue | js/app.js:858-870 | alpha below 16 or a neutral grey (channel spread at most 18, luma 92..176) gives 1; luma at least 210 gives 2; everything else gives 3 |
| Raster.GreyLevels | js/app.js:858-870 | opaque greys map to 3 below 92, 1 up to 176, 3 below 210 and 2 from 210 |
| Preview.CharCode0 | js/modules/preview.js:123 | `charCodeAt(0)` is a 16-bit unit and equals the code point inside the BMP |
| Preview.RenderOverlayPreviewCell | js/modules/preview.js:115-147 | the preview loops compute `PreviewCell`, stroke mode "8" selecting the eight-neighbour stroke |
| Preview.PreviewBlank | js/modules/preview.js:118-126 | no overlay, a space or a missing key gives an all-background cell |
| Preview.PreviewDrawn | js/modules/preview.js:128-146 | otherwise every pixel is in 1..3 and is 2 exactly at the glyph's in-cell ink |
| Preview.PreviewCellOf | js/modules/preview.js:128-146 | a found glyph is filled at its own offset and then stroked in the requested mode |
| Preview.InkBounds | js/modules/preview.js:149-164 | None exactly when every pixel is 1; otherwise minX and maxX are columns with ink and every ink column lies between them |
| Preview.InkBoundsUnique | js/modules/preview.js:149-164 | the ink bounds of a cell are determined uniquely |
| Preview.FirstDrawn | js/modules/preview.js:153-158 | the first column at or after x that holds a non-background pixel |
| Preview.LastDrawn | js/modules/preview.js:153-158 | the last column at or before x that holds a non-background pixel |
| Preview.MeasureCellInkBounds | js/modules/preview.js:149-164 | the min/max loop computes `InkBounds` |
| Preview.GlyphWidthRange | js/modules/preview.js:173-179 | a character's strip width is between 1 and 12 |
| Preview.StripWidthsAt | js/modules/preview.js:172-179 | width i is the ink width of character i, or 4 for an inkless space, or 2 |
| Preview.ComputeStripWidths | js/modules/preview.js:172-179 | the width map computes `StripWidths` |
| Preview.MeasureGlyphWidth | js/modules/preview.js:173-179 | one width step computes the ink width of the character's cell, or the fallback width |
| Preview.ComputeTotalWidth | js/modules/preview.js:181-182 | the total is the sum of the widths plus a gap of 2 between neighbours |
| Preview.PenPositions | js/modules/preview.js:191-210 | character i is drawn at the sum of earlier widths plus i gaps, and the pen ends at the total width |
| Preview.PensLayout | js/modules/preview.js:191-210 | each character's columns end within the total width, and the next starts one gap later |
| AppTables.ReplaceCharsLayout | js/app.js:52 | `REPLACE_CHARS` is 63 characters: space to underscore, skipping `$` |
| AppTables.ReplaceableIff | js/app.js:52-54 | an index is replaceable exactly when it is in 0x20..0x5F and is not 0x24 |
| AppTables.LabelFor | js/app.js:232-242 | a named Betaflight symbol wins, then ASCII 0x20..0x5F, then logo tiles 0xA0..0xFE, else unknown |
| AppTables.LabelPrecedence | js/app.js:219-236 | 0x2D is labelled as a Betaflight symbol, 0x41 and 0x20 as ASCII with their notes |
| AppTables.LogoTileLabel | js/app.js:226-239 | 0xA1 is a logo tile with note "Logo tile 1 (0xA1)" |
| AppTables.FindLast | js/app.js:78 | the `Map` built from the target list holds, under an id, the last target with that id, and nothing when no target has it |
| AppTables.SwapTargetIdsDistinct | js/app.js:64-78 | no two swap targets share an id, so each id's entry in the `Map` is its only target |
| AppTables.SwapTargetsWellFormed | js/app.js:64-76 | every swap target has at least one index, all in 0..255 and distinct |
| Compositor.Nudged | js/app.js:1069-1083 | a nudged offset lies in -6..6, is the plain sum when that is in range, and is clamped to the nearer end otherwise |
| Compositor.ReplacementAt | js/app.js:1244-1250 | one overlay step renders the glyph under the index's key when the index is replaceable and the key is present |
| Compositor.OverlayPass | js/app.js:1242-1252 | the overlay loop computes `OverlayLayer` |
| Compositor.SwapPass | js/app.js:1255-1258 | the swap loop computes `SwapLayer`, skipping indices outside 0..255 |
| Compositor.NudgePass | js/app.js:1261-1271 | the nudge loop computes `NudgeLayer`, skipping zero nudges and indices outside 0..255 |
| Compositor.SwapStep | js/app.js:1255-1258 | storing one override replaces glyph k when k is at most 255, and changes nothing otherwise |
| Compositor.NudgeSkip | js/app.js:1265-1268 | a nudge outside 0..255 or equal to (0, 0) changes nothing |
| Compositor.CompositeAt | js/app.js:1237-1271 | result glyph i is the swap if any, else the overlay rendering if replaced, else the base glyph, then shifted by its nudge if any |
| Compositor.CompositeShape | js/app.js:576-583 | the result keeps the base's 12 x 18 size and 256 glyphs, and is well formed when every swap glyph is |
| Compositor.Untouched | js/app.js:1237-1271 | a glyph not replaced, swapped or nudged equals the base glyph |
| Compositor.OverlayOnlyAscii | js/app.js:1244 | the overlay only replaces indices in 0x20..0x5F other than 0x24 |
| Compositor.ReplacedGlyph | js/app.js:1242-1251 | a replaced glyph without swap or nudge is the rendered overlay glyph |
| Compositor.CompositeOfBase | js/app.js:1240 | with no overlay, swaps or nudges the result equals the base font |
| Edits.DiffCount | js/app.js:794-801 | -1 exactly for a missing glyph or a length mismatch, otherwise a count between 0 and the length |
| Edits.MismatchesZero | js/app.js:796-799 | no mismatching pixel exactly when the glyphs are equal |
| Edits.DiffCountZero | js/app.js:794-801 | the difference count is 0 exactly when both glyphs exist and are equal |
| Edits.GlyphDiffCount | js/app.js:794-801 | the counting loop computes `DiffCount` |
| Edits.GlyphDiffers | js/app.js:756-766 | the comparison loop reports a difference exactly when the previous glyph is missing or not equal |
| Edits.DiffersIffCount | js/app.js:756-766 | that comparison agrees with a non-zero `glyphDiffCount` |
| Edits.ChangedCount | js/app.js:751-767 | the changed count never exceeds the number of target indices |
| Edits.WithSwapsAt | js/app.js:753-769 | after storing, a key holds the source glyph when it is a target index with a source glyph, else its earlier swap |
| Edits.StoreSwaps | js/app.js:751-769 | the store loop computes the new overrides and the changed count |
| Edits.WithoutKeys | js/app.js:783 | clearing a target keeps exactly the other keys, unchanged |
| Edits.DeleteSwaps | js/app.js:783 | the delete loop computes `WithoutKeys` |
| Edits.ClearUndoesStore | js/app.js:753-783 | clearing a target after applying it leaves the overrides as clearing alone would |
| Edits.SelectionNudged | js/app.js:1078-1084 | selected glyphs get a nudge in -6..6, other glyphs keep theirs, and no other key appears |
| Edits.SelectionStep | js/app.js:1079-1083 | one step starts from the stored nudge, or (0, 0), and clamps the sum |
| Edits.NudgeSelection | js/app.js:1078-1084 | the loop over the selection computes `SelectionNudged` |
| Workspace.Editor.constructor | js/app.js:59-61 | the editor starts with no base font, no result, no overlay, no swaps and zero nudges |
| Workspace.Editor.RebuildResultFont | js/app.js:1237-1271 | with no base font nothing changes; otherwise the result is the composite of the layers and no input is changed |
| Workspace.Editor.HandleBuffer | js/app.js:499-509 | a decoded font becomes the base and the result is rebuilt; a decode error leaves base and result as they were |
| Workspace.Editor.SetOverlay | js/app.js:1794-1807 | a new overlay (or none) is stored and the result rebuilt |
| Workspace.Editor.ApplyReplacedNudge | js/app.js:1069-1075 | the global nudge moves by (dx, dy) clamped to -6..6 and the result is rebuilt |
| Workspace.Editor.ResetReplacedNudge | js/app.js:1120-1124 | the global nudge returns to (0, 0) and the result is rebuilt |
| Workspace.Editor.ApplySelectionNudge | js/app.js:1077-1087 | the selected glyphs' nudges move and are clamped, the rest stay, and the result is rebuilt |
| Workspace.Editor.ClearSelectionNudges | js/app.js:741-745 | the selected glyphs lose their nudges and nothing else changes |
| Workspace.Editor.ApplySwapTargetFromFont | js/app.js:747-778 | an unknown target or missing source returns not applied and changes nothing; otherwise each target index with a source glyph is stored, `changed` counts differences from the previous result, `changed` is at most `total`, and focus is the first index |
| Workspace.Editor.ClearSwapTarget | js/app.js:780-786 | only the target's indices lose their overrides; an unknown target changes nothing |
| Workspace.Editor.ClearAllSwaps | js/app.js:788-792 | all overrides are removed and nothing else changes |
| Workspace.ClearedShowsBase | js/app.js:1237-1271 | with no overlay, swaps or nudges the result font equals the base font |
| Selection.Toggled | js/modules/selection.js:21-28 | toggling removes a present index unless it is the only one, adds a missing one, and never leaves the set empty |
| Selection.Span | js/modules/selection.js:32-35 | the range is exactly the indices from min(anchor, to) to max(anchor, to) |
| Selection.SelectionState.constructor | js/modules/selection.js:2-8 | the initial set is {i} with anchor and index i |
| Selection.SelectionState.SetSingleSelection | js/modules/selection.js:15-19 | the set becomes {idx} and anchor and index become idx |
| Selection.SelectionState.ToggleSelection | js/modules/selection.js:21-29 | the set is toggled at idx and anchor and index become idx |
| Selection.SelectionState.RangeSelect | js/modules/selection.js:31-37 | the set becomes the span from the anchor to `toIdx`, the anchor stays and the index becomes `toIdx` |
| Selection.ToggleTwice | js/modules/selection.js:21-29 | toggling the same index twice restores any set other than {idx} |
| Selection.SpanSize | js/modules/selection.js:32-35 | a range holds the distance between its ends plus one indices |
| SwapRegistry.ResolveCustomAssetPath | js/modules/swap-registry.js:14-25 | a missing or empty path gives ""; URLs and paths starting with `/`, `./` or `../` are kept; anything else gets `fonts/` in front |
| SwapRegistry.ResolveNotIdempotent | js/modules/swap-registry.js:24 | resolving `a.png` twice gives `fonts/fonts/a.png` |
| SwapRegistry.BareNameResolved | js/modules/swap-registry.js:16-24 | a bare file name such as `a.png` is not kept and so gets `fonts/` in front |
| SwapRegistry.ResolveKeptStable | js/modules/swap-registry.js:16-23 | a path that is kept resolves to itself again |
| SwapRegistry.LastWith | js/modules/swap-registry.js:3-10 | the last entry of a list whose file gives the key |
| SwapRegistry.RegisterBfOther | js/modules/swap-registry.js:2-12 | keys no entry mentions are untouched by registration |
| SwapRegistry.RegisterBfLast | js/modules/swap-registry.js:2-12 | a mentioned key holds the `bf_mcm` source of the last entry with that file |
| SwapRegistry.Registry.constructor | js/modules/swap-registry.js:2 | a registry starts empty |
| SwapRegistry.Registry.RegisterBetaflightSwapSources | js/modules/swap-registry.js:2-12 | the registration loop computes `RegisterBf` |
| SwapRegistry.Registry.RegisterCustomSwapSources | js/modules/swap-registry.js:27-49 | the registration loop computes `RegisterCustom` |
| SwapRegistry.NormalizedTargets | js/modules/swap-registry.js:30-37 | exactly the non-null target configs are kept, each with its png path resolved |
| SwapRegistry.NormalizeTargets | js/modules/swap-registry.js:30-37 | the target loop computes `NormalizedTargets` |
| SwapRegistry.LastCustomWith | js/modules/swap-registry.js:38-47 | the position of the last accepted entry whose `custom:` key is the given one: accepted, with that key, and no later accepted entry has it |
| SwapRegistry.RegisterCustomLast | js/modules/swap-registry.js:38-47 | an accepted entry's key `custom:` + id is registered, holding the source built from the last accepted entry with that id |
| SwapRegistry.RegisterCustomKeys | js/modules/swap-registry.js:27-49 | new keys are `custom:` plus the id of an accepted entry and hold custom sources; keys no accepted entry names are untouched |
| SwapRegistry.CustomDefaults | js/modules/swap-registry.js:38-46 | a registered custom source without sizes gets width 12, height 18 and gap 0 under key `custom:` plus id |
| DomUtils.DigitRun | js/modules/dom-utils.js:8 | the leading run of decimal digits is maximal |
| DomUtils.ParseInt | js/modules/dom-utils.js:8-9 | `parseInt(v, 10)` is NaN exactly when no digit follows the leading whitespace and optional sign |
| DomUtils.NatToDecValue | js/modules/dom-utils.js:8 | decimal digits of n read back as n |
| DomUtils.ParseIntToString | js/modules/dom-utils.js:8 | `parseInt` reads any integer's decimal text back, negatives included |
| DomUtils.Clamp | js/modules/dom-utils.js:10 | `max(lo, min(hi, n))` lies in [lo, hi] when lo <= hi, keeps n in range, and gives the nearer bound otherwise |
| DomUtils.ClampInt | js/modules/dom-utils.js:7-11 | the result lies in [lo, hi] when lo <= hi, and non-numeric input clamps 0 |
| DomUtils.ClampIntOfInt | js/app.js:1070-1071 | clamping an integer's text is clamping the integer, and an integer in range comes back unchanged |
| DomUtils.EscapeChar | js/modules/dom-utils.js:14-20 | every character escapes to a non-empty string |
| DomUtils.EscapeHtmlSafe | js/modules/dom-utils.js:13-21 | the escaped text contains no `<`, `>`, `"` or `'` |
| DomUtils.UnescapeChar | js/modules/dom-utils.js:15-19 | each of the five entities decodes to its character |
| DomUtils.EscapeRoundTrip | js/modules/dom-utils.js:13-21 | decoding the five entities recovers the original text, so escaping loses nothing |
| DomUtils.EscapeKeeps | js/modules/dom-utils.js:14 | characters other than the five special ones are copied unchanged |
| Yaff.RowValue | js/modules/yaff.js:35-42 | the unbounded row value is below 2 to the row length |
| Yaff.RowToBits | js/modules/yaff.js:35-42 | the shift-and-or loop computes the row value truncated to 32 bits |
| Yaff.RowValueBit | js/modules/yaff.js:37-40 | bit len-1-i of the row value is set exactly when character i is `@` |
| Yaff.RowBitsAt | js/modules/yaff.js:35-42 | for rows of at most 32 characters the same holds after `>>> 0`, the convention the rasteriser reads |
| Yaff.ParseLabelCodepoints | js/modules/yaff.js:5-33 | an empty label gives []; a `u+` list gives at most one code point per comma-separated part; a label that is neither a `u+` list nor a list of numbers (tags, names, mixed) gives [] |
| Yaff.UPlusValuesAppend | js/modules/yaff.js:11-19 | the `u+` branch reads a list piece by piece |
| Yaff.UPlusParts | js/modules/yaff.js:15-19 | the positions it lists are in range and hold well-formed `u+hex` parts |
| Yaff.UPlusPartsSorted | js/modules/yaff.js:15-19 | those positions are increasing: each part appears at most once, in list order |
| Yaff.UPlusPartsComplete | js/modules/yaff.js:15-19 | every well-formed part is among those positions |
| Yaff.UPlusValuesAt | js/modules/yaff.js:11-19 | the `u+` branch yields, in order, the hexadecimal value of each well-formed part and nothing else |
| Yaff.UPlusLabel | js/modules/yaff.js:10-20 | a label starting with `u+` names exactly its well-formed parts' values, in order; malformed parts are skipped |
| Yaff.NumValuesAt | js/modules/yaff.js:24-28 | the numeric branch reads every part |
| Yaff.NumLabel | js/modules/yaff.js:23-29 | a comma-separated list of `0x` and decimal numbers names each of them, in order, `0x` parts read in hexadecimal |
| Yaff.LowerKeyLabelRoundTrip | js/modules/yaff.js:10-19 | the key of a code point written with a lower-case `u+` reads back as that code point |
| Yaff.KeyLabelRoundTrip | js/modules/yaff.js:10-19 | the label `U+XXXX` of a code point parses to that code point |
| Yaff.DecimalLabelRoundTrip | js/modules/yaff.js:23-28 | a decimal label parses to its number |
| Yaff.NormalizeNewlines | js/modules/yaff.js:47 | CR LF and lone CR become LF, so no CR remains |
| Yaff.StripBom | js/modules/yaff.js:46 | removing a leading byte-order mark never lengthens the text |
| Yaff.Lines | js/modules/yaff.js:45-48 | the text splits into at least one line and no line holds a newline |
| Yaff.LabelEnd | js/modules/yaff.js:70-75 | the label run takes at least the first label line and stops at the first line that is not a label |
| Yaff.RowsEnd | js/modules/yaff.js:79-89 | the row run stops at the first non-indented line |
| Yaff.BlockRows | js/modules/yaff.js:79-89 | a row run yields at most one row per line, blank indented lines being dropped |
| Yaff.Scan | js/modules/yaff.js:53-103 | every def emitted has at least one label and at least one row, and its rows are `.`/`@` only, all of its width |
| Yaff.GlyphDefs | js/modules/yaff.js:44-106 | the defs extracted from any text satisfy the same invariant |
| Yaff.ScanOver | js/modules/yaff.js:58-65 | blank, comment and property lines, and lines that are no label, are skipped |
| Yaff.ScanBlock | js/modules/yaff.js:68-99 | a label line starts a block of labels then rows, after which scanning resumes |
| Yaff.CheckRows | js/modules/yaff.js:91-96 | the row checks accept exactly non-empty, non-`-`, `.`/`@` rows of one width |
| Yaff.ReadLabels | js/modules/yaff.js:69-75 | the label loop reads the label run |
| Yaff.ReadRows | js/modules/yaff.js:78-89 | the row loop reads the row run |
| Yaff.ScanStep | js/modules/yaff.js:53-103 | one pass of the outer loop emits the defs of the next block and advances |
| Yaff.ExtractDefs | js/modules/yaff.js:50-105 | the outer loop computes `Scan` from line 0 |
| Yaff.ExtractGlyphDefs | js/modules/yaff.js:44-106 | the extractor computes `GlyphDefs` |
| Yaff.PlacedInside | js/modules/yaff.js:130-133 | a def that fits is centred, its left margin at most its right margin and that at most one more, and lies inside the cell |
| Yaff.PlacedInk | js/modules/yaff.js:130-144 | the imported glyph has ink exactly at the `@` characters of the def |
| Yaff.BmpCount | js/modules/yaff.js:136-146 | the assigned count never exceeds the number of code points |
| Yaff.AssignedAt | js/modules/yaff.js:136-146 | assignment adds the BMP keys of the code points, all holding the glyph, and keeps other keys |
| Yaff.AssignedSize | js/modules/yaff.js:136-146 | assignment adds at most as many keys as it counts |
| Yaff.BmpKeysCanonical | js/modules/yaff.js:138-139 | every key written is `U+` and four uppercase hex digits; code points above 0xFFFF are skipped |
| Yaff.ImportAllFacts | js/modules/yaff.js:118-147 | the imported keys are the reference key set, canonical, inside the cell, no more than `codepointsAssigned`, with `labelsUnsupported` at most the defs |
| Yaff.LastDefinitionWins | js/modules/yaff.js:136-145 | a code point of the last def that fits holds that def's glyph |
| Yaff.ParseYaffStats | js/modules/yaff.js:108-157 | `blocksFound` is the number of defs, `glyphsImported` is the number of keys and at most `codepointsAssigned` |
| Yaff.RowsToBits | js/modules/yaff.js:134 | the row map computes the row values |
| Yaff.AssignAll | js/modules/yaff.js:136-146 | the code-point loop computes the assignment and the counter |
| Yaff.ImportOne | js/modules/yaff.js:119-146 | one def is counted unsupported, oversize (by its code point count) or imported |
| Yaff.ParseYaff | js/modules/yaff.js:108-157 | the importer computes `ParseYaffToOverlay` |
| Bdf.RStripNewlines | tools/bdf2osdjson.py:70 | `rstrip("\n")` never lengthens the line and keeps a line without a newline whole |
| Bdf.LStripNewlines | tools/bdf2osdjson.py:92 | `strip("\n")` inside a block never lengthens the line and keeps a line without a newline whole |
| Bdf.PyDecIntRoundTrip | tools/bdf2osdjson.py:48 | `int(p, 10)` reads back any integer's decimal text |
| Bdf.BlockLine | tools/bdf2osdjson.py:95-112 | a line in a glyph block either leaves the rows alone or appends its stripped text, which is then a hex row |
| Bdf.BlockFrom | tools/bdf2osdjson.py:91-113 | a glyph block ends within the lines and keeps only hex bitmap rows |
| Bdf.ParseFrom | tools/bdf2osdjson.py:69-127 | the parser keeps only glyphs with a non-negative encoding and hex rows |
| Bdf.ParseBdf | tools/bdf2osdjson.py:51-129 | every parsed glyph has a non-negative code point and hex bitmap rows |
| Bdf.KeywordsDisjoint | tools/bdf2osdjson.py:95-104 | no block line is both an ENCODING and a BBX line, and `BITMAP` is neither |
| Bdf.BlockLineFields | tools/bdf2osdjson.py:95-112 | one block line fails exactly when it is an unreadable BBX line; otherwise an ENCODING line sets the code point, a BBX line sets the box, `BITMAP` starts the bitmap and, once inside it, a hex line is appended stripped; nothing else changes |
| Bdf.BlockEnd | tools/bdf2osdjson.py:91-107 | the block runs to its first ENDCHAR line, or to the end of the file |
| Bdf.ResumeAt | tools/bdf2osdjson.py:91-107 | scanning resumes within the file, at or after the block's start |
| Bdf.FirstBadBbx | tools/bdf2osdjson.py:102-103 | the first BBX line of the block that does not read as four integers, or none |
| Bdf.LastEncoding | tools/bdf2osdjson.py:95-101 | the last ENCODING line of the block, or none |
| Bdf.LastBbx | tools/bdf2osdjson.py:102-103 | the last BBX line of the block, or none |
| Bdf.FirstBitmap | tools/bdf2osdjson.py:104-105 | the first `BITMAP` line of the block, or its end |
| Bdf.HexLinesIn | tools/bdf2osdjson.py:108-112 | the stripped hexadecimal lines of a range are hex rows, at most one per line |
| Bdf.BlockFromErr | tools/bdf2osdjson.py:91-113 | reading a block fails exactly when it holds an unreadable BBX line, and then at the first one |
| Bdf.BlockFromEnd | tools/bdf2osdjson.py:91-107 | a block read successfully ends just past its ENDCHAR, or at the end of the file |
| Bdf.BlockFromEncoding | tools/bdf2osdjson.py:95-101 | the block's code point is read from its last ENCODING line, unchanged when it has none |
| Bdf.BlockFromBbx | tools/bdf2osdjson.py:102-103 | the block's box is the four integers of its last BBX line, unchanged when it has none |
| Bdf.HexLinesStep | tools/bdf2osdjson.py:104-112 | one line of the rows' specification: a hex line counts inside the bitmap and `BITMAP` starts it |
| Bdf.BlockFromRows | tools/bdf2osdjson.py:104-112 | the block's rows are the stripped hexadecimal lines after its first `BITMAP` line, in order |
| Bdf.BlockFromGlyph | tools/bdf2osdjson.py:86-127 | a fresh block fails at its first unreadable BBX line, otherwise contributes `BlockGlyph` and resumes past its ENDCHAR |
| Bdf.StartCharLine | tools/bdf2osdjson.py:73-84 | a STARTCHAR line is neither blank nor a header line |
| Bdf.ParseFromBadBbx | tools/bdf2osdjson.py:84-103 | a STARTCHAR block with an unreadable BBX line makes `parse_bdf` fail at that line |
| Bdf.ParseFromStartChar | tools/bdf2osdjson.py:84-127 | a STARTCHAR block that reads appends `BlockGlyph` and parsing resumes past its ENDCHAR |
| Bdf.ParseFromGrows | tools/bdf2osdjson.py:59-129 | parsing only adds: earlier glyphs stay first and in order, meta keys stay, and only `name`, `size`, `ascent` and `descent` are added |
| Bdf.ParseFromKeeps | tools/bdf2osdjson.py:114-127 | a block whose last ENCODING reads as n >= 0 yields the glyph with code point n, its last BBX values and its bitmap rows, right after the glyphs read before |
| Bdf.ParseFromSkips | tools/bdf2osdjson.py:114-116 | a block without an ENCODING reading as n >= 0 adds nothing; parsing goes on past its ENDCHAR |
| Bdf.ParseFromMetaKept | tools/bdf2osdjson.py:76-83 | a meta entry no later line sets survives to the result |
| Bdf.ParseFromMeta | tools/bdf2osdjson.py:76-83 | a FONT, SIZE, FONT_ASCENT or FONT_DESCENT line fills `name`, `size`, `ascent` or `descent`, with its value when no later line sets the same key |
| Bdf.ReadBlock | tools/bdf2osdjson.py:86-113 | the block loop computes `BlockFrom` |
| Bdf.ParseBdfLines | tools/bdf2osdjson.py:59-129 | the cursor loop computes `ParseBdf`, a bad BBX line included |
| Bdf.HexRowToBits | tools/bdf2osdjson.py:132-154 | the row value is below 2 to the width |
| Bdf.HexRowExample | tools/bdf2osdjson.py:137 | `"18"` at width 8 gives 24 |
| Bdf.HexRowBits | tools/bdf2osdjson.py:132-154 | bit width-1-k is set exactly when pixel k of the MSB-left hex row is set, short rows padded with zeros |
| Bdf.PaddedRowBits | tools/bdf2osdjson.py:143-146 | a row with fewer bits than the width is shifted left by the shortfall |
| Bdf.CroppedRowBits | tools/bdf2osdjson.py:149-154 | a wider row keeps its leftmost width bits |
| Bdf.ConvertShape | tools/bdf2osdjson.py:161-201 | None exactly for a non-positive box or no rows; otherwise w = min(bbx_w, 12), h = min(bbx_h, rows, 18), centred offsets, inside the cell, rows below 2 to the w |
| Bdf.ConvertInk | tools/bdf2osdjson.py:186-195 | the converted glyph has ink exactly at the set pixels of the source rows, leftmost columns kept |
| Bdf.ConvertGlyphToOverlay | tools/bdf2osdjson.py:161-201 | the row loop computes `ConvertGlyph` |
| Bdf.ConvertAllKeys | tools/bdf2osdjson.py:226-233 | the output keys are the `_uplus` keys of the converted glyphs' code points |
| Bdf.ConvertAllValues | tools/bdf2osdjson.py:226-233 | every key reads back as a code point and every glyph lies inside the cell |
| Bdf.ConvertAllCount | tools/bdf2osdjson.py:227-233 | the number of keys never exceeds the printed count |
| Bdf.ConvertFont | tools/bdf2osdjson.py:226-233 | the conversion loop computes `ConvertAll` |
| C64.DetectHeaderBytes | tools/c64bin2osdjson.py:85-95 | the result is 0 or 6; 0 when the length is a multiple of 8; 6 only for a long enough file starting FF FF |
| C64.DetectedHeaderLeavesGlyphs | tools/c64bin2osdjson.py:85-95 | the detected header leaves a multiple of 8 bytes exactly when the length or the length less 6 with an FF FF start is one |
| C64.KeyOfFacts | tools/c64bin2osdjson.py:140-142 | glyph gi's key reads back as cp_base + gi |
| C64.KeyOfInjective | tools/c64bin2osdjson.py:140-142 | distinct glyphs get distinct keys |
| C64.KeysDistinct | tools/c64bin2osdjson.py:140-142 | the emitted key list has no duplicates |
| C64.KeysReadBack | tools/c64bin2osdjson.py:140-142 | every emitted key reads back as a code point cp_base + gi with gi below the emit count, and is that code point's own key |
| C64.EmittedSize | tools/c64bin2osdjson.py:140-148 | distinct keys give exactly n glyphs |
| C64.EmittedGlyphs | tools/c64bin2osdjson.py:140-148 | n glyphs are emitted, glyph gi under its key with rows bytes gi*8 .. gi*8+7 after the header, and no other key |
| C64.ConvertC64Outcome | tools/c64bin2osdjson.py:101-148 | an error exactly for a header beyond the file or a remainder not a multiple of 8; otherwise the recorded counts and `emit_count = min(glyph_count, max(0, max_glyphs))` hold and the glyphs are the emitted ones |
| C64.GlyphInk | tools/c64bin2osdjson.py:121-147 | an emitted 8 x 8 glyph has ink at (x, y) exactly when bit 7-x of row byte y is set |
| C64.EmitGlyphs | tools/c64bin2osdjson.py:140-148 | the emission loop computes `Emitted` |
| C64.ConvertC64Bytes | tools/c64bin2osdjson.py:101-148 | the header strip and emission compute `ConvertC64` |
| Sheet.Shade | js/modules/workspace-render.js:218-224 | 2 paints white, 0 and 3 paint black, everything else leaves grey |
| Sheet.SheetBounds | js/modules/workspace-render.js:198-199 | every sheet pixel belongs to one glyph pixel's block |
| Sheet.BlockStepOf | js/modules/workspace-render.js:213-216 | glyph i's cell origin is ((i mod 16) * 12, (i div 16) * 18) in glyph pixels |
| Sheet.BlockStepInjective | js/modules/workspace-render.js:211-226 | different glyph pixels use different blocks |
| Sheet.ColourAt | js/modules/workspace-render.js:218-225 | the colour of a sheet pixel is the shade of the glyph pixel whose block holds it |
| Sheet.CellBlock | js/modules/workspace-render.js:215-225 | each pixel of glyph pixel (x, y)'s 3 x 3 block lies on the sheet and shows that pixel's shade |
| Sheet.BlocksDisjoint | js/modules/workspace-render.js:211-226 | no sheet pixel lies in two blocks |
| Sheet.InBlock | js/modules/workspace-render.js:225 | a sheet pixel lies in a block's 3 x 3 square exactly when it belongs to that block |
| Sheet.FillRect | js/modules/workspace-render.js:225 | `fillRect` paints exactly the square and leaves every other pixel |
| Sheet.PaintBlock | js/modules/workspace-render.js:220-225 | painting one glyph pixel's block extends the painted prefix by one |
| Sheet.SkipBlock | js/modules/workspace-render.js:221-224 | a grey pixel needs no paint to extend the painted prefix |
| Sheet.GreyCanvas | js/modules/workspace-render.js:197-209 | the canvas starts 576 x 864 and all grey |
| Sheet.AllPainted | js/modules/workspace-render.js:211-228 | once every glyph pixel is handled the sheet shows the font |
| Sheet.PaintRow | js/modules/workspace-render.js:219-226 | the x loop handles one row of a glyph |
| Sheet.PaintGlyph | js/modules/workspace-render.js:218-227 | the y loop handles one glyph |
| Sheet.PaintGlyphs | js/modules/workspace-render.js:211-228 | the glyph loop handles all 256 glyphs |
| Sheet.RenderFontToSheet | js/modules/workspace-render.js:191-231 | the sheet is 16 * 12 * 3 by 16 * 18 * 3 and shows every glyph pixel's shade in its own block |
| Thumbs.LeadRun | tools/gen_thumbs.mjs:36 | the leading run of unsafe characters is maximal |
| Thumbs.SafeName | tools/gen_thumbs.mjs:35-37 | the result is made of `[A-Za-z0-9._-]` only, is no longer than the input, and is empty only for empty input |
| Thumbs.SafeNameKeeps | tools/gen_thumbs.mjs:35-37 | a name that is already safe is unchanged |
| Thumbs.SafeNameIdempotent | tools/gen_thumbs.mjs:35-37 | sanitising twice equals sanitising once |
| Thumbs.SafeNameRun | tools/gen_thumbs.mjs:36 | a non-empty run of unsafe characters becomes one `_` |
| Thumbs.LeadRunAppend | tools/gen_thumbs.mjs:36 | an unsafe run extends across a boundary only when the first part is all unsafe |
| Thumbs.SafeNameAppend | tools/gen_thumbs.mjs:35-37 | sanitising distributes over concatenation when a safe character sits at the seam |
| Thumbs.RenderOverlayCharCell | tools/gen_thumbs.mjs:62-92 | the thumbnail cell equals the preview cell in four-neighbour mode: blank for no overlay, a space or a missing key, otherwise filled and stroked |
| Thumbs.Normalize | tools/gen_thumbs.mjs:161-164 | 1 stays 1, 2 stays 2, every other value becomes 3 |
| Thumbs.BetaflightGlyph | tools/gen_thumbs.mjs:150-155 | the sample character's glyph, or glyph 0 when the code is beyond the font |
| Thumbs.NormalizeCell | tools/gen_thumbs.mjs:158-167 | the loop normalises every pixel and the cell holds only 1, 2 or 3 |
| Thumbs.SampleGlyphsOwn | tools/gen_thumbs.mjs:150-155 | every sample character of "ABC123" has its own glyph in a decoded font |
| Thumbs.BetaflightThumbCells | tools/gen_thumbs.mjs:146-167 | six cells of 216 pixels, each pixel the normalised value of the sample glyph |
| Thumbs.OverlayThumbCells | tools/gen_thumbs.mjs:134-136 | six cells, each the rendered cell of its sample character |
| Thumbs.PixelRgba | tools/gen_thumbs.mjs:109-125 | value 1 leaves the pixel transparent, 2 writes the fill colour, anything else the stroke colour |
| Thumbs.NormalizeKeepsColour | tools/gen_thumbs.mjs:157-167 | normalising never changes the colour a pixel gets, and is idempotent |
| Thumbs.RowStartIs | tools/gen_thumbs.mjs:112 | row y of the strip starts y * W pixels in |
| Thumbs.ByteAt | tools/gen_thumbs.mjs:103-112 | the byte offset ((y * W) + i * 13 + x) * 4 + k lies inside the buffer for every in-strip pixel |
| Thumbs.ByteAtLayout | tools/gen_thumbs.mjs:95-112 | the four bytes of one strip pixel belong to no other pixel |
| Thumbs.ByteAtCovers | tools/gen_thumbs.mjs:95-98 | every byte of the buffer belongs to some strip pixel |
| Thumbs.SetPixel | tools/gen_thumbs.mjs:115-124 | four consecutive bytes get the RGBA colour and nothing else changes |
| Thumbs.StepUnique | tools/gen_thumbs.mjs:101-107 | different loop steps visit different strip pixels |
| Thumbs.WriteStripPixel | tools/gen_thumbs.mjs:107-125 | one pixel step writes its colour at the source's offset formula |
| Thumbs.WriteStripRow | tools/gen_thumbs.mjs:106-126 | the x loop handles one row of a cell |
| Thumbs.WriteStripCell | tools/gen_thumbs.mjs:102-127 | the y loop handles one cell |
| Thumbs.WriteStripCells | tools/gen_thumbs.mjs:101-128 | the cell loop handles every cell |
| Thumbs.BlankWritten | tools/gen_thumbs.mjs:98 | a fresh zeroed buffer is the state before any step |
| Thumbs.AllWritten | tools/gen_thumbs.mjs:95-128 | once every step is done the buffer shows the strip |
| Thumbs.WriteStripPng | tools/gen_thumbs.mjs:94-128 | the buffer is n * 13 * 18 * 4 bytes, each pixel of each cell at its offset in its colour, and the pad column transparent |
| Thumbs.BetaflightThumbShowsFont | tools/gen_thumbs.mjs:146-175 | the Betaflight thumbnail shows each sample glyph's pixel in the colour of its raw value |

## Left out

- The cell size is fixed at 12 x 18 throughout, as every caller passes it. The 256-glyph sheet export is fixed at scale 3, the only value passed. The thumbnail strip is fixed at cell 12 x 18 and pad 1.
- Raster.ColorToGlyphValue: luma is compared in integers scaled by 10000 (`2126r + 7152g + 722b`); rounding of IEEE doubles at the boundaries is not modelled.
- Pixel values are unbounded integers; the `Uint8Array` truncation of values outside 0..255 is not modelled.
- The bitmask reads `1 << (w - 1 - x)` and `>>> 0` are modelled with their 32-bit wrap-around (`Bits.BitAnd`, `Yaff.RowBits`). The one-bit-per-column reading is stated only for widths up to 32 (`Yaff.RowBitsAt`, `Raster.InkLands`).
- DOM, canvas painting, events, the theme, the font picker, the d-pad timers, the HUD mock-up and the animated title are not modelled. They have no computed result beyond painting.
- Network and file I/O are not modelled: `fetch`, `fs`/`pngjs`, `argparse` and the JSON writers. The model takes text or bytes as parameters and returns values. Of the JSON the BDF converter writes (tools/bdf2osdjson.py:215-224), the `name` fallback to the file stem, the `source` dictionary and its `format`/`file` entries are left out; the `meta` dictionary itself is modelled by `Bdf.ParseFrom`.
- Asynchronous caches and request ids are not modelled.
- The MCM decoder takes the file's text: `TextDecoder` is taken as given. The 16-byte header test is modelled as a test on the text's first 16 characters.
- `decodePngGlyphStrip` is not modelled beyond its per-pixel `colorToGlyphValue` rule.
- `cloneFont` is modelled by value: glyph buffers are sequences, so the aliasing it avoids cannot occur in the model.
- The overrides and nudge maps are modelled as Dafny maps. JavaScript `Map` iteration order is not modelled; the results do not depend on it.
- `handleBuffer` calls `setSingleSelection(0)`. The selection lives in its own class (`Selection.SelectionState`), so `Workspace.Editor.HandleBuffer` does not reset it.
- JavaScript values of the wrong type (non-string paths, non-array glyphs) are modelled as `Option`s or left out.
- Python `int()` accepting underscores and non-ASCII digits is not modelled; only ASCII digits with an optional sign are read.
- Bdf.ParseBdf: takes the file as a list of lines; Python `splitlines`, which also splits on form feeds and other separators, is not modelled.
- `clamp` in tools/bdf2osdjson.py is never called; `DomUtils.Clamp` states the same function.
- Yaff.NumTokenValue: values are unbounded integers. JavaScript's `parseInt` returns a double: values of about 1.8e308 (2^1024) and above become `Infinity`, which `Number.isInteger` then drops, and precision is lost above 2^53. Neither is modelled.
- Yaff.UPlusValues: the same `parseInt` limits apply to `u+` parts and are not modelled.
- Yaff.BmpKeysCanonical: code points above 0xFFFF are skipped, as the source does; tags and other label kinds yield no code points.
- Thumbs.SafeName: characters outside the Basic Multilingual Plane are two UTF-16 units in JavaScript; the model treats them as one character, which still becomes part of one `_` run.
- The `applyStroke4` in tools/gen_thumbs.mjs and in js/app.js are the same code as js/modules/preview.js:2-23 and are modelled by `Stroke.ApplyStroke4`.
- The `main` functions of the thumbnail generator and the converters are modelled only as the pure functions of bytes and options they compute; writing files and manifests is left out.
- C64.ConvertC64Outcome: the outcome is stated in two parts, with the emitted glyphs described by `C64.EmittedGlyphs`.
