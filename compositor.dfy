/**
 * The editor's compositing state (js/app.js): the decoded base font, the
 * chosen overlay font, the swap overrides, the replacement nudge and the
 * per-glyph nudges, and `rebuildResultFont`, which layers them into the
 * font the editor shows and exports:
 *
 *   base clone -> overlay (replaceable ASCII only) -> swap overrides
 *     -> per-glyph nudges.
 *
 * Each layer is a function on glyph lists, and each pass of
 * `rebuildResultFont` a loop proved equal to its layer.
 */
module Compositor {
  import opened Wrappers
  import opened Glyph
  import opened Stroke
  import opened Raster
  import opened Text
  import opened DomUtils
  import opened AppTables
  import Mcm

  /** A nudge `{x, y}`. */
  datatype Offset = Offset(x: int, y: int)

  /** Both components within the d-pad's range -6..6. */
  predicate InNudgeRange(o: Offset)
  {
    -6 <= o.x <= 6 && -6 <= o.y <= 6
  }

  /** An offset moved by (dx, dy), each component clamped with
      `clampInt(v, -6, 6)`. */
  function Nudged(o: Offset, dx: int, dy: int): (r: Offset)
    ensures InNudgeRange(r)
    ensures InNudgeRange(Offset(o.x + dx, o.y + dy)) ==> r == Offset(o.x + dx, o.y + dy)
    ensures o.x + dx < -6 ==> r.x == -6
    ensures o.x + dx > 6 ==> r.x == 6
    ensures o.y + dy < -6 ==> r.y == -6
    ensures o.y + dy > 6 ==> r.y == 6
  {
    Offset(Clamp(o.x + dx, -6, 6), Clamp(o.y + dy, -6, 6))
  }

  // ---------------------------------------------------------------------
  // The layers

  /** The overlay replaces glyph i: i is a replaceable ASCII code and the
      overlay has a glyph under its "U+00XX" key. */
  predicate Replaces(overlay: Option<OverlayFont>, i: int)
  {
    overlay.Some? && 0 <= i && IsReplaceable(i) && JsKey(i) in overlay.value
  }

  /** `renderOverlayToCell(og, i)` with the replacement nudge folded into
      the glyph's own offset. */
  function OverlayCell(g: OverlayGlyph, replaced: Offset): Pixels
  {
    Stroked(FillCell(g, g.offX + replaced.x, g.offY + replaced.y), Dirs4)
  }

  /** The glyph list after the overlay pass. */
  function OverlayLayer(glyphs: seq<Pixels>, overlay: Option<OverlayFont>, replaced: Offset): (r: seq<Pixels>)
    ensures |r| == |glyphs|
  {
    seq(|glyphs|, i requires 0 <= i < |glyphs| =>
      if Replaces(overlay, i) then OverlayCell(overlay.value[JsKey(i)], replaced) else glyphs[i])
  }

  /** The glyph list after the swap pass: an override at an index 0..255
      replaces the glyph there. */
  function SwapLayer(glyphs: seq<Pixels>, swaps: map<int, Pixels>): (r: seq<Pixels>)
    ensures |r| == |glyphs|
  {
    seq(|glyphs|, i requires 0 <= i < |glyphs| =>
      if i in swaps && i <= 255 then swaps[i] else glyphs[i])
  }

  /** The glyph list after the nudge pass: a glyph with a stored offset is
      shifted by it (a zero offset leaves it as it is). */
  function NudgeLayer(glyphs: seq<Pixels>, perGlyph: map<int, Offset>): (r: seq<Pixels>)
    ensures |r| == |glyphs|
  {
    seq(|glyphs|, i requires 0 <= i < |glyphs| =>
      if i in perGlyph && i <= 255 then ShiftGlyph(glyphs[i], perGlyph[i].x, perGlyph[i].y) else glyphs[i])
  }

  /** What `rebuildResultFont` makes of a base font. */
  function Composite(base: Font, overlay: Option<OverlayFont>, replaced: Offset,
                     swaps: map<int, Pixels>, perGlyph: map<int, Offset>): Font
  {
    Font(base.width, base.height,
      NudgeLayer(SwapLayer(OverlayLayer(base.glyphs, overlay, replaced), swaps), perGlyph))
  }

  // ---------------------------------------------------------------------
  // The passes of rebuildResultFont

  /** What the overlay pass writes at index i, if anything. */
  function Replacement(overlay: Option<OverlayFont>, replaced: Offset, i: int): Option<Pixels>
  {
    if Replaces(overlay, i) then Some(OverlayCell(overlay.value[JsKey(i)], replaced)) else None
  }

  /** glyphs with every replacement below index k written in. */
  function Patched(glyphs: seq<Pixels>, reps: seq<Option<Pixels>>, k: int): (r: seq<Pixels>)
    requires |reps| == |glyphs|
    ensures |r| == |glyphs|
  {
    seq(|glyphs|, i requires 0 <= i < |glyphs| =>
      if i < k && reps[i].Some? then reps[i].value else glyphs[i])
  }

  lemma PatchStep(glyphs: seq<Pixels>, reps: seq<Option<Pixels>>, k: int)
    requires |reps| == |glyphs| && 0 <= k < |glyphs|
    ensures reps[k].Some? ==> Patched(glyphs, reps, k + 1) == Patched(glyphs, reps, k)[k := reps[k].value]
    ensures reps[k].None? ==> Patched(glyphs, reps, k + 1) == Patched(glyphs, reps, k)
  {
    var a := Patched(glyphs, reps, k);
    var b := Patched(glyphs, reps, k + 1);
    if reps[k].Some? {
      var c := a[k := reps[k].value];
      assert forall i | 0 <= i < |glyphs| :: b[i] == c[i];
    } else {
      assert forall i | 0 <= i < |glyphs| :: b[i] == a[i];
    }
  }

  lemma PatchedOverlay(glyphs: seq<Pixels>, overlay: Option<OverlayFont>, replaced: Offset, reps: seq<Option<Pixels>>)
    requires |reps| == |glyphs|
    requires forall i | 0 <= i < |glyphs| :: reps[i] == Replacement(overlay, replaced, i)
    ensures Patched(glyphs, reps, |glyphs|) == OverlayLayer(glyphs, overlay, replaced)
  {
    var a := Patched(glyphs, reps, |glyphs|);
    var b := OverlayLayer(glyphs, overlay, replaced);
    forall i | 0 <= i < |glyphs|
      ensures a[i] == b[i]
    {
      assert reps[i] == Replacement(overlay, replaced, i);
    }
  }

  /** The replacement the loop body computes for index i. */
  method ReplacementAt(overlay: Option<OverlayFont>, replaced: Offset, i: int) returns (r: Option<Pixels>)
    requires 0 <= i
    ensures r == Replacement(overlay, replaced, i)
  {
    r := None;
    if overlay.Some? && IsReplaceable(i) {
      var key := JsKey(i);
      if key in overlay.value {
        var cell := RenderOverlayToCell(overlay.value[key], replaced.x, replaced.y);
        r := Some(cell);
      }
    }
  }

  /** The first loop of `rebuildResultFont`. */
  method OverlayPass(glyphs: seq<Pixels>, overlay: Option<OverlayFont>, replaced: Offset) returns (r: seq<Pixels>)
    requires |glyphs| == GlyphCount
    ensures r == OverlayLayer(glyphs, overlay, replaced)
  {
    var reps := seq(GlyphCount, i requires 0 <= i < GlyphCount => Replacement(overlay, replaced, i));
    r := glyphs;
    assert r == Patched(glyphs, reps, 0);
    if overlay.Some? {
      for i := 0 to GlyphCount
        invariant r == Patched(glyphs, reps, i)
      {
        PatchStep(glyphs, reps, i);
        var cell := ReplacementAt(overlay, replaced, i);
        assert cell == reps[i];
        if cell.Some? {
          r := r[i := cell.value];
        }
      }
    } else {
      assert forall i | 0 <= i < GlyphCount :: reps[i].None?;
      assert forall i | 0 <= i < GlyphCount :: Patched(glyphs, reps, GlyphCount)[i] == glyphs[i];
    }
    PatchedOverlay(glyphs, overlay, replaced, reps);
  }

  /** The swap pass after the keys in done. */
  function SwapUpTo(glyphs: seq<Pixels>, swaps: map<int, Pixels>, done: set<int>): (r: seq<Pixels>)
    ensures |r| == |glyphs|
  {
    seq(|glyphs|, i requires 0 <= i < |glyphs| =>
      if i in done && i in swaps && i <= 255 then swaps[i] else glyphs[i])
  }

  /** A non-empty set has a member to pick. */
  lemma MemberOf(s: set<int>)
    requires s != {}
    ensures exists x :: x in s
  {
    if forall x :: x !in s {
      assert false;
    }
  }

  lemma SwapStep(glyphs: seq<Pixels>, swaps: map<int, Pixels>, done: set<int>, k: int)
    requires k in swaps && 0 <= k < |glyphs|
    ensures k <= 255 ==> SwapUpTo(glyphs, swaps, done + {k}) == SwapUpTo(glyphs, swaps, done)[k := swaps[k]]
    ensures k > 255 ==> SwapUpTo(glyphs, swaps, done + {k}) == SwapUpTo(glyphs, swaps, done)
  {
    var a := SwapUpTo(glyphs, swaps, done);
    var b := SwapUpTo(glyphs, swaps, done + {k});
    if k <= 255 {
      var c := a[k := swaps[k]];
      assert forall i | 0 <= i < |glyphs| :: b[i] == c[i];
    } else {
      assert forall i | 0 <= i < |glyphs| :: b[i] == a[i];
    }
  }

  lemma SwapOutside(glyphs: seq<Pixels>, swaps: map<int, Pixels>, done: set<int>, k: int)
    requires k in swaps && (k < 0 || k >= |glyphs|)
    ensures SwapUpTo(glyphs, swaps, done + {k}) == SwapUpTo(glyphs, swaps, done)
  {
    var a := SwapUpTo(glyphs, swaps, done);
    var b := SwapUpTo(glyphs, swaps, done + {k});
    assert forall i | 0 <= i < |glyphs| :: b[i] == a[i];
  }

  /** The second loop of `rebuildResultFont`. Distinct keys write distinct
      slots, so the order the Map yields them in does not matter. */
  method SwapPass(glyphs: seq<Pixels>, swaps: map<int, Pixels>) returns (r: seq<Pixels>)
    requires |glyphs| == GlyphCount
    ensures r == SwapLayer(glyphs, swaps)
  {
    r := glyphs;
    var todo := swaps.Keys;
    assert r == SwapUpTo(glyphs, swaps, swaps.Keys - todo);
    while todo != {}
      invariant todo <= swaps.Keys
      invariant r == SwapUpTo(glyphs, swaps, swaps.Keys - todo)
      decreases |todo|
    {
      MemberOf(todo);
      var idx :| idx in todo;
      var done := swaps.Keys - todo;
      assert swaps.Keys - (todo - {idx}) == done + {idx};
      if idx < 0 || idx > 255 {
        SwapOutside(glyphs, swaps, done, idx);
      } else {
        SwapStep(glyphs, swaps, done, idx);
        r := r[idx := swaps[idx]];
      }
      todo := todo - {idx};
    }
    assert forall i | 0 <= i < |glyphs| :: r[i] == SwapLayer(glyphs, swaps)[i];
  }

  /** The nudge pass after the keys in done. */
  function NudgeUpTo(glyphs: seq<Pixels>, perGlyph: map<int, Offset>, done: set<int>): (r: seq<Pixels>)
    ensures |r| == |glyphs|
  {
    seq(|glyphs|, i requires 0 <= i < |glyphs| =>
      if i in done && i in perGlyph && i <= 255 then ShiftGlyph(glyphs[i], perGlyph[i].x, perGlyph[i].y) else glyphs[i])
  }

  lemma NudgeStep(glyphs: seq<Pixels>, perGlyph: map<int, Offset>, done: set<int>, k: int)
    requires k in perGlyph && k !in done && 0 <= k < |glyphs| && k <= 255
    ensures NudgeUpTo(glyphs, perGlyph, done)[k] == glyphs[k]
    ensures NudgeUpTo(glyphs, perGlyph, done + {k}) ==
      NudgeUpTo(glyphs, perGlyph, done)[k := ShiftGlyph(glyphs[k], perGlyph[k].x, perGlyph[k].y)]
  {
    var a := NudgeUpTo(glyphs, perGlyph, done);
    var b := NudgeUpTo(glyphs, perGlyph, done + {k});
    var c := a[k := ShiftGlyph(glyphs[k], perGlyph[k].x, perGlyph[k].y)];
    assert forall i | 0 <= i < |glyphs| :: b[i] == c[i];
  }

  lemma NudgeSkip(glyphs: seq<Pixels>, perGlyph: map<int, Offset>, done: set<int>, k: int)
    requires k in perGlyph && (k < 0 || k >= |glyphs| || k > 255 || (perGlyph[k].x == 0 && perGlyph[k].y == 0))
    ensures NudgeUpTo(glyphs, perGlyph, done + {k}) == NudgeUpTo(glyphs, perGlyph, done)
  {
    var a := NudgeUpTo(glyphs, perGlyph, done);
    var b := NudgeUpTo(glyphs, perGlyph, done + {k});
    assert forall i | 0 <= i < |glyphs| :: b[i] == a[i];
  }

  /** The third loop of `rebuildResultFont`: nudges shift any glyph,
      icons included. */
  method NudgePass(glyphs: seq<Pixels>, perGlyph: map<int, Offset>) returns (r: seq<Pixels>)
    requires |glyphs| == GlyphCount
    ensures r == NudgeLayer(glyphs, perGlyph)
  {
    r := glyphs;
    var todo := perGlyph.Keys;
    assert r == NudgeUpTo(glyphs, perGlyph, perGlyph.Keys - todo);
    while todo != {}
      invariant todo <= perGlyph.Keys
      invariant r == NudgeUpTo(glyphs, perGlyph, perGlyph.Keys - todo)
      decreases |todo|
    {
      MemberOf(todo);
      var idx :| idx in todo;
      var done := perGlyph.Keys - todo;
      assert perGlyph.Keys - (todo - {idx}) == done + {idx};
      var off := perGlyph[idx];
      if idx < 0 || idx > 255 || (off.x == 0 && off.y == 0) {
        NudgeSkip(glyphs, perGlyph, done, idx);
      } else {
        NudgeStep(glyphs, perGlyph, done, idx);
        var shifted := ShiftGlyphPixels(r[idx], off.x, off.y);
        r := r[idx := shifted];
      }
      todo := todo - {idx};
    }
    assert forall i | 0 <= i < |glyphs| :: r[i] == NudgeLayer(glyphs, perGlyph)[i];
  }

  // ---------------------------------------------------------------------
  // What the composite holds

  /** Layer precedence, glyph by glyph: a swap override beats the overlay,
      the overlay beats the base, and a nudge shifts whatever is below it. */
  lemma CompositeAt(base: Font, overlay: Option<OverlayFont>, replaced: Offset,
                    swaps: map<int, Pixels>, perGlyph: map<int, Offset>, i: int)
    requires WellFormed(base) && 0 <= i < GlyphCount
    ensures var below :=
        if i in swaps then swaps[i]
        else if Replaces(overlay, i) then OverlayCell(overlay.value[JsKey(i)], replaced)
        else base.glyphs[i];
      Composite(base, overlay, replaced, swaps, perGlyph).glyphs[i] ==
        if i in perGlyph then ShiftGlyph(below, perGlyph[i].x, perGlyph[i].y) else below
  {
  }

  /** The result has the base font's dimensions and 256 glyphs; when every
      swap override is a full cell, it is a well-formed font. */
  lemma CompositeShape(base: Font, overlay: Option<OverlayFont>, replaced: Offset,
                       swaps: map<int, Pixels>, perGlyph: map<int, Offset>)
    requires WellFormed(base)
    ensures var f := Composite(base, overlay, replaced, swaps, perGlyph);
      f.width == CellW && f.height == CellH && |f.glyphs| == GlyphCount
    ensures (forall k :: k in swaps ==> |swaps[k]| == CellSize) ==>
      WellFormed(Composite(base, overlay, replaced, swaps, perGlyph))
  {
    if forall k :: k in swaps ==> |swaps[k]| == CellSize {
      var f := Composite(base, overlay, replaced, swaps, perGlyph);
      forall i | 0 <= i < GlyphCount
        ensures |f.glyphs[i]| == CellSize
      {
        CompositeAt(base, overlay, replaced, swaps, perGlyph, i);
      }
    }
  }

  /** A glyph the overlay does not replace, no override swaps and no nudge
      moves is the base glyph. */
  lemma Untouched(base: Font, overlay: Option<OverlayFont>, replaced: Offset,
                  swaps: map<int, Pixels>, perGlyph: map<int, Offset>, i: int)
    requires WellFormed(base) && 0 <= i < GlyphCount
    requires !Replaces(overlay, i) && i !in swaps && i !in perGlyph
    ensures Composite(base, overlay, replaced, swaps, perGlyph).glyphs[i] == base.glyphs[i]
  {
    CompositeAt(base, overlay, replaced, swaps, perGlyph, i);
  }

  /** The overlay reaches only replaceable ASCII codes: 0x20..0x5F other
      than '$'. */
  lemma OverlayOnlyAscii(overlay: Option<OverlayFont>, i: int)
    requires Replaces(overlay, i)
    ensures 0x20 <= i <= 0x5F && i != 0x24
  {
    ReplaceableIff(i);
  }

  /** A glyph the overlay replaces and nothing later touches is the
      rendered overlay glyph. */
  lemma ReplacedGlyph(base: Font, overlay: Option<OverlayFont>, replaced: Offset,
                      swaps: map<int, Pixels>, perGlyph: map<int, Offset>, i: int)
    requires WellFormed(base) && 0 <= i < GlyphCount
    requires Replaces(overlay, i) && i !in swaps && i !in perGlyph
    ensures Composite(base, overlay, replaced, swaps, perGlyph).glyphs[i] ==
      OverlayCell(overlay.value[JsKey(i)], replaced)
  {
    CompositeAt(base, overlay, replaced, swaps, perGlyph, i);
  }

  /** With no overlay, no overrides and no nudges the result is a copy of
      the base font. */
  lemma CompositeOfBase(base: Font, replaced: Offset)
    ensures Composite(base, None, replaced, map[], map[]) == base
  {
    var f := Composite(base, None, replaced, map[], map[]);
    assert forall i | 0 <= i < |base.glyphs| :: f.glyphs[i] == base.glyphs[i];
  }
}
