/**
 * The edits the editor makes to its layers (js/app.js): storing and
 * clearing swap overrides (`applySwapTargetFromFont`, `clearSwapTarget`),
 * moving the per-glyph nudges of a selection (`applySelectionNudge`), and
 * the glyph comparisons `applySwapTargetFromFont` and `glyphDiffCount`
 * make.
 */
module Edits {
  import opened Wrappers
  import opened Glyph
  import opened Compositor

  // ---------------------------------------------------------------------
  // glyphDiffCount

  /** The number of positions at which two equally long glyphs differ. */
  function Mismatches(a: Pixels, b: Pixels): (d: nat)
    requires |a| == |b|
    ensures d <= |a|
    decreases |a|
  {
    if |a| == 0 then 0
    else Mismatches(a[..|a| - 1], b[..|b| - 1]) + (if a[|a| - 1] != b[|b| - 1] then 1 else 0)
  }

  /** `glyphDiffCount(a, b)`: -1 when a glyph is missing or the lengths
      differ, otherwise the number of differing pixels. */
  function DiffCount(a: Option<Pixels>, b: Option<Pixels>): (d: int)
    ensures d == -1 <==> a.None? || b.None? || |a.value| != |b.value|
    ensures d != -1 ==> 0 <= d <= |a.value|
  {
    if a.None? || b.None? || |a.value| != |b.value| then -1
    else Mismatches(a.value, b.value)
  }

  /** No mismatches means equal glyphs, and only then. */
  lemma {:induction false} MismatchesZero(a: Pixels, b: Pixels)
    requires |a| == |b|
    ensures Mismatches(a, b) == 0 <==> a == b
    decreases |a|
  {
    if |a| > 0 {
      var n := |a| - 1;
      MismatchesZero(a[..n], b[..n]);
      assert a == a[..n] + [a[n]];
      assert b == b[..n] + [b[n]];
      if a == b {
        assert a[..n] == b[..n];
      }
    }
  }

  /** A count of zero says the two glyphs are present and identical. */
  lemma DiffCountZero(a: Option<Pixels>, b: Option<Pixels>)
    ensures DiffCount(a, b) == 0 <==> a.Some? && a == b
  {
    if a.Some? && b.Some? && |a.value| == |b.value| {
      MismatchesZero(a.value, b.value);
    }
  }

  /** `glyphDiffCount`. */
  method GlyphDiffCount(a: Option<Pixels>, b: Option<Pixels>) returns (d: int)
    ensures d == DiffCount(a, b)
  {
    if a.None? || b.None? || |a.value| != |b.value| {
      return -1;
    }
    var x, y := a.value, b.value;
    d := 0;
    for i := 0 to |x|
      invariant d == Mismatches(x[..i], y[..i])
    {
      assert x[..i + 1][..i] == x[..i] && y[..i + 1][..i] == y[..i];
      if x[i] != y[i] {
        d := d + 1;
      }
    }
    assert x[..|x|] == x && y[..|y|] == y;
  }

  /** The `isDifferent` test of `applySwapTargetFromFont`: a glyph differs
      from a missing one, from one of another length, and from one with
      some other pixel. */
  method GlyphDiffers(prev: Option<Pixels>, g: Pixels) returns (d: bool)
    ensures d <==> prev != Some(g)
  {
    d := true;
    if prev.Some? && |prev.value| == |g| {
      var p := prev.value;
      d := false;
      for i := 0 to |g|
        invariant !d
        invariant forall j :: 0 <= j < i ==> p[j] == g[j]
      {
        if p[i] != g[i] {
          d := true;
          break;
        }
      }
      if !d {
        assert p == g;
      }
    }
  }

  /** The two comparisons agree: a glyph differs from the previous one
      exactly when `glyphDiffCount` does not report zero. */
  lemma DiffersIffCount(prev: Option<Pixels>, g: Pixels)
    ensures prev != Some(g) <==> DiffCount(prev, Some(g)) != 0
  {
    DiffCountZero(prev, Some(g));
  }

  // ---------------------------------------------------------------------
  // applySwapTargetFromFont

  /** `sourceFont.glyphs[idx]`, undefined outside the list. */
  function SourceAt(src: seq<Pixels>, idx: int): Option<Pixels>
  {
    if 0 <= idx < |src| then Some(src[idx]) else None
  }

  /** `resultFont?.glyphs?.[idx]`. */
  function PrevAt(result: Option<Font>, idx: int): Option<Pixels>
  {
    if result.Some? && 0 <= idx < |result.value.glyphs| then Some(result.value.glyphs[idx]) else None
  }

  /** The overrides after storing, for each index in turn, the source
      glyph there if the source has one. */
  function WithSwaps(swaps: map<int, Pixels>, indices: seq<int>, src: seq<Pixels>): map<int, Pixels>
    decreases |indices|
  {
    if indices == [] then swaps
    else
      var w := WithSwaps(swaps, indices[..|indices| - 1], src);
      var idx := indices[|indices| - 1];
      if 0 <= idx < |src| then w[idx := src[idx]] else w
  }

  /** How many of the indices get a source glyph that differs from the
      glyph the result font shows there now. */
  function ChangedCount(indices: seq<int>, src: seq<Pixels>, result: Option<Font>): (c: nat)
    ensures c <= |indices|
    decreases |indices|
  {
    if indices == [] then 0
    else
      var idx := indices[|indices| - 1];
      ChangedCount(indices[..|indices| - 1], src, result) +
      (if SourceAt(src, idx).Some? && PrevAt(result, idx) != SourceAt(src, idx) then 1 else 0)
  }

  /** What the stored overrides hold: every index the source has a glyph
      for now maps to that glyph; every other key keeps its old value. */
  lemma {:induction false} WithSwapsAt(swaps: map<int, Pixels>, indices: seq<int>, src: seq<Pixels>, k: int)
    ensures k in WithSwaps(swaps, indices, src) <==> k in swaps || (k in indices && 0 <= k < |src|)
    ensures k in indices && 0 <= k < |src| ==> WithSwaps(swaps, indices, src)[k] == src[k]
    ensures k !in indices && k in swaps ==> WithSwaps(swaps, indices, src)[k] == swaps[k]
    decreases |indices|
  {
    if indices != [] {
      var front := indices[..|indices| - 1];
      WithSwapsAt(swaps, front, src, k);
      assert indices == front + [indices[|indices| - 1]];
      assert k in indices <==> k in front || k == indices[|indices| - 1];
    }
  }

  /** The loop of `applySwapTargetFromFont`: store the source glyphs and
      count those that change what the result font shows. */
  method StoreSwaps(swaps: map<int, Pixels>, indices: seq<int>, src: seq<Pixels>, result: Option<Font>)
    returns (r: map<int, Pixels>, changed: nat)
    ensures r == WithSwaps(swaps, indices, src)
    ensures changed == ChangedCount(indices, src, result)
  {
    r, changed := swaps, 0;
    for t := 0 to |indices|
      invariant r == WithSwaps(swaps, indices[..t], src)
      invariant changed == ChangedCount(indices[..t], src, result)
    {
      assert indices[..t + 1][..t] == indices[..t];
      var idx := indices[t];
      if 0 <= idx < |src| {
        var g := src[idx];
        var prev: Option<Pixels> := None;
        if result.Some? && idx < |result.value.glyphs| {
          prev := Some(result.value.glyphs[idx]);
        }
        var different := GlyphDiffers(prev, g);
        if different {
          changed := changed + 1;
        }
        r := r[idx := g];
      }
    }
    assert indices[..|indices|] == indices;
  }

  // ---------------------------------------------------------------------
  // clearSwapTarget

  /** The overrides with the given indices deleted. */
  function WithoutKeys(swaps: map<int, Pixels>, indices: seq<int>): (r: map<int, Pixels>)
    ensures forall k :: k in r <==> k in swaps && k !in indices
    ensures forall k :: k in r ==> r[k] == swaps[k]
  {
    map k | k in swaps && k !in indices :: swaps[k]
  }

  /** The loop of `clearSwapTarget`. */
  method DeleteSwaps(swaps: map<int, Pixels>, indices: seq<int>) returns (r: map<int, Pixels>)
    ensures r == WithoutKeys(swaps, indices)
  {
    r := swaps;
    for t := 0 to |indices|
      invariant r == WithoutKeys(swaps, indices[..t])
    {
      assert forall k :: k in indices[..t + 1] <==> k in indices[..t] || k == indices[t];
      r := r - {indices[t]};
    }
    assert indices[..|indices|] == indices;
  }

  /** Clearing a target undoes storing it: the overrides of other indices
      are as they were before. */
  lemma ClearUndoesStore(swaps: map<int, Pixels>, indices: seq<int>, src: seq<Pixels>)
    ensures WithoutKeys(WithSwaps(swaps, indices, src), indices) == WithoutKeys(swaps, indices)
  {
    var a := WithoutKeys(WithSwaps(swaps, indices, src), indices);
    var b := WithoutKeys(swaps, indices);
    forall k
      ensures k in a <==> k in b
      ensures k in a ==> a[k] == b[k]
    {
      WithSwapsAt(swaps, indices, src, k);
    }
  }

  // ---------------------------------------------------------------------
  // applySelectionNudge

  /** `nudge.perGlyph.get(idx) || {x: 0, y: 0}`. */
  function Current(m: map<int, Offset>, k: int): Offset
  {
    if k in m then m[k] else Offset(0, 0)
  }

  /** The per-glyph nudges after moving every selected glyph's nudge by
      (dx, dy), clamped to -6..6. */
  function SelectionNudged(m: map<int, Offset>, sel: set<int>, dx: int, dy: int): (r: map<int, Offset>)
    ensures forall k :: k in r <==> k in m || k in sel
    ensures forall k :: k in sel ==> InNudgeRange(r[k])
    ensures forall k :: k in m && k !in sel ==> r[k] == m[k]
    ensures (forall k :: k in m ==> InNudgeRange(m[k])) ==> forall k :: k in r ==> InNudgeRange(r[k])
  {
    map k | k in m.Keys + sel :: if k in sel then Nudged(Current(m, k), dx, dy) else m[k]
  }

  lemma SelectionStep(m: map<int, Offset>, done: set<int>, k: int, dx: int, dy: int)
    requires k !in done
    ensures Current(SelectionNudged(m, done, dx, dy), k) == Current(m, k)
    ensures SelectionNudged(m, done + {k}, dx, dy) ==
      SelectionNudged(m, done, dx, dy)[k := Nudged(Current(m, k), dx, dy)]
  {
    var a := SelectionNudged(m, done, dx, dy)[k := Nudged(Current(m, k), dx, dy)];
    var b := SelectionNudged(m, done + {k}, dx, dy);
    assert forall j :: j in a <==> j in b;
    assert forall j :: j in a ==> a[j] == b[j];
  }

  /** The loop of `applySelectionNudge`. */
  method NudgeSelection(m: map<int, Offset>, sel: set<int>, dx: int, dy: int) returns (r: map<int, Offset>)
    ensures r == SelectionNudged(m, sel, dx, dy)
  {
    r := m;
    var todo := sel;
    assert r == SelectionNudged(m, sel - todo, dx, dy);
    while todo != {}
      invariant todo <= sel
      invariant r == SelectionNudged(m, sel - todo, dx, dy)
      decreases |todo|
    {
      MemberOf(todo);
      var idx :| idx in todo;
      var done := sel - todo;
      assert sel - (todo - {idx}) == done + {idx};
      SelectionStep(m, done, idx, dx, dy);
      var cur := if idx in r then r[idx] else Offset(0, 0);
      r := r[idx := Nudged(cur, dx, dy)];
      todo := todo - {idx};
    }
    assert sel - todo == sel;
  }
}
