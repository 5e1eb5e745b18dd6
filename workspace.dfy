/**
 * The editor's module-level state in js/app.js (`baseFont`, `resultFont`,
 * `currentOverlay`, `swapOverrides`, `nudge`) as one object, with the
 * operations that change it. Every operation ends by rebuilding the
 * result font, so the result font is always the composite of the layers.
 */
module Workspace {
  import opened Wrappers
  import opened Glyph
  import opened AppTables
  import opened Compositor
  import opened Edits
  import Mcm

  /** What `applySwapTargetFromFont` reports. */
  datatype SwapResult = SwapResult(applied: bool, changed: int, total: int, focusIndex: Option<int>)

  class Editor {
    var baseFont: Option<Font>
    var resultFont: Option<Font>
    var currentOverlay: Option<OverlayFont>
    var swapOverrides: map<int, Pixels>
    var replaced: Offset
    var perGlyph: map<int, Offset>

    /** The base font is a decoded font. */
    predicate BaseOk()
      reads this
    {
      baseFont.Some? ==> WellFormed(baseFont.value)
    }

    /** Every stored nudge is within -6..6. */
    predicate NudgesOk()
      reads this
    {
      InNudgeRange(replaced) && forall k :: k in perGlyph ==> InNudgeRange(perGlyph[k])
    }

    /** The result font is the composite of the current layers (and absent
        until a base font is loaded). */
    predicate Synced()
      reads this
    {
      if baseFont.None? then resultFont.None?
      else resultFont == Some(Composite(baseFont.value, currentOverlay, replaced, swapOverrides, perGlyph))
    }

    predicate Valid()
      reads this
    {
      BaseOk() && NudgesOk() && Synced()
    }

    /** The state when the page loads: nothing decoded, nothing layered. */
    constructor ()
      ensures Valid()
      ensures baseFont.None? && resultFont.None? && currentOverlay.None?
      ensures swapOverrides == map[] && perGlyph == map[] && replaced == Offset(0, 0)
    {
      baseFont := None;
      resultFont := None;
      currentOverlay := None;
      swapOverrides := map[];
      replaced := Offset(0, 0);
      perGlyph := map[];
    }

    /** `rebuildResultFont`: nothing happens without a base font; otherwise
        the result is rebuilt from a copy of the base, which itself is left
        as it was. */
    method RebuildResultFont()
      requires BaseOk()
      modifies this
      ensures baseFont == old(baseFont) && currentOverlay == old(currentOverlay)
      ensures swapOverrides == old(swapOverrides) && replaced == old(replaced) && perGlyph == old(perGlyph)
      ensures baseFont.None? ==> resultFont == old(resultFont)
      ensures baseFont.Some? ==>
        resultFont == Some(Composite(baseFont.value, currentOverlay, replaced, swapOverrides, perGlyph))
    {
      if baseFont.None? {
        return;
      }
      var base := baseFont.value;
      var glyphs := OverlayPass(base.glyphs, currentOverlay, replaced);
      glyphs := SwapPass(glyphs, swapOverrides);
      glyphs := NudgePass(glyphs, perGlyph);
      resultFont := Some(Font(base.width, base.height, glyphs));
    }

    /** `handleBuffer`: decode an .mcm file's text; on success it becomes
        the base font and the result is rebuilt, on failure nothing
        changes. */
    method HandleBuffer(text: string) returns (r: Result<Font, Mcm.DecodeError>)
      requires Valid()
      modifies this
      ensures Valid()
      ensures r == Mcm.Decode(text)
      ensures r.Ok? ==> baseFont == Some(r.value)
      ensures r.Err? ==> baseFont == old(baseFont) && resultFont == old(resultFont)
      ensures currentOverlay == old(currentOverlay) && swapOverrides == old(swapOverrides)
      ensures replaced == old(replaced) && perGlyph == old(perGlyph)
    {
      r := Mcm.DecodeMcm(text);
      if r.Ok? {
        Mcm.DecodeWellFormed(text);
        baseFont := Some(r.value);
        RebuildResultFont();
      }
    }

    /** Choosing an overlay font (None for "no overlay"). */
    method SetOverlay(overlay: Option<OverlayFont>)
      requires Valid()
      modifies this
      ensures Valid()
      ensures currentOverlay == overlay
      ensures baseFont == old(baseFont) && swapOverrides == old(swapOverrides)
      ensures replaced == old(replaced) && perGlyph == old(perGlyph)
    {
      currentOverlay := overlay;
      RebuildResultFont();
    }

    /** `applyReplacedNudge`: move the replacement nudge, clamped. */
    method ApplyReplacedNudge(dx: int, dy: int)
      requires Valid()
      modifies this
      ensures Valid()
      ensures replaced == Nudged(old(replaced), dx, dy)
      ensures baseFont == old(baseFont) && currentOverlay == old(currentOverlay)
      ensures swapOverrides == old(swapOverrides) && perGlyph == old(perGlyph)
    {
      replaced := Nudged(replaced, dx, dy);
      RebuildResultFont();
    }

    /** The d-pad's reset of the replacement nudge. */
    method ResetReplacedNudge()
      requires Valid()
      modifies this
      ensures Valid()
      ensures replaced == Offset(0, 0)
      ensures baseFont == old(baseFont) && currentOverlay == old(currentOverlay)
      ensures swapOverrides == old(swapOverrides) && perGlyph == old(perGlyph)
    {
      replaced := Offset(0, 0);
      RebuildResultFont();
    }

    /** `applySelectionNudge` for the selected glyphs. */
    method ApplySelectionNudge(selected: set<int>, dx: int, dy: int)
      requires Valid()
      modifies this
      ensures Valid()
      ensures perGlyph == SelectionNudged(old(perGlyph), selected, dx, dy)
      ensures baseFont == old(baseFont) && currentOverlay == old(currentOverlay)
      ensures swapOverrides == old(swapOverrides) && replaced == old(replaced)
    {
      perGlyph := NudgeSelection(perGlyph, selected, dx, dy);
      RebuildResultFont();
    }

    /** `clearSelectionNudges`: drop the selected glyphs' nudges. */
    method ClearSelectionNudges(selected: set<int>)
      requires Valid()
      modifies this
      ensures Valid()
      ensures perGlyph == old(perGlyph) - selected
      ensures baseFont == old(baseFont) && currentOverlay == old(currentOverlay)
      ensures swapOverrides == old(swapOverrides) && replaced == old(replaced)
    {
      perGlyph := perGlyph - selected;
      RebuildResultFont();
    }

    /** `applySwapTargetFromFont`: for a known target and a loaded source
        font, store each target glyph the source has and rebuild; report
        how many of them change what is shown. */
    method ApplySwapTargetFromFont(targetId: string, source: Option<Font>) returns (res: SwapResult)
      requires Valid()
      modifies this
      ensures Valid()
      ensures baseFont == old(baseFont) && currentOverlay == old(currentOverlay)
      ensures replaced == old(replaced) && perGlyph == old(perGlyph)
      ensures TargetById(targetId).None? || source.None? ==>
        res == SwapResult(false, 0, 0, None) && swapOverrides == old(swapOverrides) && resultFont == old(resultFont)
      ensures TargetById(targetId).Some? && source.Some? ==>
        var t := TargetById(targetId).value;
        res.applied && res.total == |t.indices| &&
        res.changed == ChangedCount(t.indices, source.value.glyphs, old(resultFont)) &&
        0 <= res.changed <= res.total &&
        res.focusIndex == Some(t.indices[0]) &&
        swapOverrides == WithSwaps(old(swapOverrides), t.indices, source.value.glyphs)
    {
      var target := TargetById(targetId);
      if target.None? || source.None? {
        return SwapResult(false, 0, 0, None);
      }
      var t := target.value;
      SwapTargetsWellFormed(targetId);
      var swaps, changed := StoreSwaps(swapOverrides, t.indices, source.value.glyphs, resultFont);
      swapOverrides := swaps;
      RebuildResultFont();
      res := SwapResult(true, changed, |t.indices|, if |t.indices| > 0 then Some(t.indices[0]) else None);
    }

    /** `clearSwapTarget`: an unknown target changes nothing; otherwise its
        indices lose their overrides and nothing else does. */
    method ClearSwapTarget(targetId: string)
      requires Valid()
      modifies this
      ensures Valid()
      ensures baseFont == old(baseFont) && currentOverlay == old(currentOverlay)
      ensures replaced == old(replaced) && perGlyph == old(perGlyph)
      ensures TargetById(targetId).None? ==>
        swapOverrides == old(swapOverrides) && resultFont == old(resultFont)
      ensures TargetById(targetId).Some? ==>
        swapOverrides == WithoutKeys(old(swapOverrides), TargetById(targetId).value.indices)
    {
      var target := TargetById(targetId);
      if target.None? {
        return;
      }
      swapOverrides := DeleteSwaps(swapOverrides, target.value.indices);
      RebuildResultFont();
    }

    /** `clearAllSwaps`. */
    method ClearAllSwaps()
      requires Valid()
      modifies this
      ensures Valid()
      ensures swapOverrides == map[]
      ensures baseFont == old(baseFont) && currentOverlay == old(currentOverlay)
      ensures replaced == old(replaced) && perGlyph == old(perGlyph)
    {
      swapOverrides := map[];
      RebuildResultFont();
    }
  }

  /** With the overlay cleared, all swaps cleared and no glyph nudged, the
      editor shows the base font unchanged. */
  lemma ClearedShowsBase(e: Editor)
    requires e.Valid() && e.baseFont.Some?
    requires e.currentOverlay.None? && e.swapOverrides == map[] && e.perGlyph == map[]
    ensures e.resultFont == e.baseFont
  {
    CompositeOfBase(e.baseFont.value, e.replaced);
  }
}
