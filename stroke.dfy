/**
 * The one-pixel outline the rasteriser adds around overlay ink:
 * `applyStroke4` (left, right, up, down) and `applyStroke8` (all eight
 * neighbours). Both copy the cell, visit the fill pixels (value 2) of the
 * INPUT in row-major order, and turn every background neighbour (value 1)
 * of the COPY into stroke (value 3).
 *
 * The model is generic in the list of neighbour offsets the source visits,
 * so one closed form (`Stroked`) and one set of lemmas serve both.
 */
module Stroke {
  import opened Glyph

  /** A neighbour offset (dx, dy). */
  type Dir = (int, int)

  /** The neighbour list of applyStroke4: [x-1,y], [x+1,y], [x,y-1], [x,y+1]. */
  const Dirs4: seq<Dir> := [(-1, 0), (1, 0), (0, -1), (0, 1)]

  /** The offsets applyStroke8 visits: dy outer, dx inner, each from -1 to 1.
      The centre (0, 0) is skipped by the loop body, and `Toward` never
      reaches it. */
  const Dirs9: seq<Dir> := [(-1, -1), (0, -1), (1, -1), (-1, 0), (0, 0), (1, 0), (-1, 1), (0, 1), (1, 1)]

  predicate InCell(x: int, y: int) { 0 <= x < CellW && 0 <= y < CellH }

  /** Pixel m is the in-cell neighbour of pixel p at offset d. */
  predicate Toward(p: int, d: Dir, m: int)
  {
    d != (0, 0) && InCell(Col(p) + d.0, Row(p) + d.1) &&
    m == Idx(Col(p) + d.0, Row(p) + d.1)
  }

  /** m is reached from p through one of the first k offsets of dirs. */
  predicate HitBy(dirs: seq<Dir>, k: int, p: int, m: int)
    requires 0 <= k <= |dirs|
  {
    exists j :: 0 <= j < k && Toward(p, dirs[j], m)
  }

  /** Some fill pixel with index below `bound` has m as a neighbour. */
  predicate NearFill(cell: Pixels, dirs: seq<Dir>, m: int, bound: int)
    requires |cell| == CellSize && bound <= CellSize
  {
    exists s :: 0 <= s < bound && cell[s] == 2 && HitBy(dirs, |dirs|, s, m)
  }

  /** The outline in closed form: a background pixel next to input fill
      becomes stroke; every other pixel keeps its value. */
  function Stroked(cell: Pixels, dirs: seq<Dir>): (r: Pixels)
    requires |cell| == CellSize
    ensures |r| == |cell|
    ensures forall m :: 0 <= m < CellSize ==> r[m] == cell[m] || (cell[m] == 1 && r[m] == 3)
  {
    seq(CellSize, m requires 0 <= m < CellSize =>
      if cell[m] == 1 && NearFill(cell, dirs, m, CellSize) then 3 else cell[m])
  }

  /** The copy after the loop has handled the fill pixels below p, and the
      first k offsets of pixel p. */
  function Partial(cell: Pixels, dirs: seq<Dir>, p: int, k: int): Pixels
    requires |cell| == CellSize && 0 <= p <= CellSize && 0 <= k <= |dirs|
  {
    seq(CellSize, m requires 0 <= m < CellSize =>
      if cell[m] == 1 && (NearFill(cell, dirs, m, p) || (p < CellSize && cell[p] == 2 && HitBy(dirs, k, p, m)))
      then 3 else cell[m])
  }

  /** One neighbour write of the loop: `if (out[n] === 1) out[n] = 3`,
      skipped when (nx, ny) lies outside the cell. */
  function Touch(o: Pixels, nx: int, ny: int): (r: Pixels)
    requires |o| == CellSize
    ensures |r| == CellSize
  {
    if InCell(nx, ny) && o[Idx(nx, ny)] == 1 then o[Idx(nx, ny) := 3] else o
  }

  lemma CellIndex(x: int, y: int)
    requires InCell(x, y)
    ensures 0 <= Idx(x, y) < CellSize
    ensures Col(Idx(x, y)) == x && Row(Idx(x, y)) == y
  {
  }

  lemma CellCoords(n: int)
    requires 0 <= n < CellSize
    ensures n == Idx(Col(n), Row(n)) && InCell(Col(n), Row(n))
  {
  }

  lemma PartialStart(cell: Pixels, dirs: seq<Dir>)
    requires |cell| == CellSize
    ensures Partial(cell, dirs, 0, 0) == cell
  {
  }

  lemma PartialDone(cell: Pixels, dirs: seq<Dir>)
    requires |cell| == CellSize
    ensures Partial(cell, dirs, CellSize, 0) == Stroked(cell, dirs)
  {
  }

  /** Finishing pixel p is the same as starting pixel p + 1. */
  lemma {:induction false} NextSource(cell: Pixels, dirs: seq<Dir>, p: int)
    requires |cell| == CellSize && 0 <= p < CellSize
    ensures Partial(cell, dirs, p, |dirs|) == Partial(cell, dirs, p + 1, 0)
  {
    forall m | 0 <= m < CellSize
      ensures NearFill(cell, dirs, m, p + 1) <==> NearFill(cell, dirs, m, p) || (cell[p] == 2 && HitBy(dirs, |dirs|, p, m))
    {
      if cell[p] == 2 && HitBy(dirs, |dirs|, p, m) {
        assert 0 <= p < p + 1 && cell[p] == 2 && HitBy(dirs, |dirs|, p, m);
      }
    }
  }

  /** Handling offset k of a fill pixel p is one `Touch`. */
  lemma {:induction false} TouchStep(cell: Pixels, dirs: seq<Dir>, p: int, k: int)
    requires |cell| == CellSize && 0 <= p < CellSize && cell[p] == 2 && 0 <= k < |dirs|
    ensures dirs[k] == (0, 0) ==> Partial(cell, dirs, p, k + 1) == Partial(cell, dirs, p, k)
    ensures dirs[k] != (0, 0) ==>
      Partial(cell, dirs, p, k + 1) == Touch(Partial(cell, dirs, p, k), Col(p) + dirs[k].0, Row(p) + dirs[k].1)
  {
    var d := dirs[k];
    var o := Partial(cell, dirs, p, k);
    var o' := Partial(cell, dirs, p, k + 1);
    forall m | 0 <= m < CellSize
      ensures HitBy(dirs, k + 1, p, m) <==> HitBy(dirs, k, p, m) || Toward(p, d, m)
    {
      if Toward(p, d, m) {
        assert 0 <= k < k + 1 && Toward(p, dirs[k], m);
      }
    }
    if d != (0, 0) && InCell(Col(p) + d.0, Row(p) + d.1) {
      var n := Idx(Col(p) + d.0, Row(p) + d.1);
      CellIndex(Col(p) + d.0, Row(p) + d.1);
      assert Toward(p, d, n);
      forall m | 0 <= m < CellSize
        ensures o'[m] == Touch(o, Col(p) + d.0, Row(p) + d.1)[m]
      {
      }
    } else {
      forall m | 0 <= m < CellSize
        ensures o'[m] == o[m]
      {
        assert !Toward(p, d, m);
      }
    }
  }

  /** The offset the applyStroke8 loop visits at (dx, dy). */
  lemma Dirs9At(dx: int, dy: int)
    requires -1 <= dx <= 1 && -1 <= dy <= 1
    ensures Dirs9[(dy + 1) * 3 + dx + 1] == (dx, dy)
  {
  }

  /** The copy as the loops leave it, written in the order they run: the
      fill pixels below p, then the first k offsets of pixel p. */
  function Trace(cell: Pixels, dirs: seq<Dir>, p: nat, k: nat): (r: Pixels)
    requires |cell| == CellSize
    ensures |r| == CellSize
    decreases p, k
  {
    if k > 0 then
      var o := Trace(cell, dirs, p, k - 1);
      if p < CellSize && cell[p] == 2 && k <= |dirs| && dirs[k - 1] != (0, 0)
      then Touch(o, Col(p) + dirs[k - 1].0, Row(p) + dirs[k - 1].1) else o
    else if p == 0 then cell
    else Trace(cell, dirs, p - 1, |dirs|)
  }

  /** The loop order and the closed form agree at every step. */
  lemma {:induction false} TraceIsPartial(cell: Pixels, dirs: seq<Dir>, p: int, k: int)
    requires |cell| == CellSize && 0 <= p <= CellSize && 0 <= k <= |dirs|
    requires p == CellSize ==> k == 0
    ensures Trace(cell, dirs, p, k) == Partial(cell, dirs, p, k)
    decreases p, k
  {
    if k > 0 {
      TraceIsPartial(cell, dirs, p, k - 1);
      if cell[p] == 2 {
        TouchStep(cell, dirs, p, k - 1);
      } else {
        assert Partial(cell, dirs, p, k) == Partial(cell, dirs, p, k - 1);
      }
    } else if p == 0 {
      PartialStart(cell, dirs);
    } else {
      TraceIsPartial(cell, dirs, p - 1, |dirs|);
      NextSource(cell, dirs, p - 1);
    }
  }

  /** A pixel that is not fill touches nothing. */
  lemma {:induction false} TraceSkip(cell: Pixels, dirs: seq<Dir>, p: int, k: int)
    requires |cell| == CellSize && 0 <= p < CellSize && 0 <= k <= |dirs| && cell[p] != 2
    ensures Trace(cell, dirs, p, k) == Trace(cell, dirs, p, 0)
  {
    if k > 0 {
      TraceSkip(cell, dirs, p, k - 1);
    }
  }

  /** One neighbour write: skipped outside the cell, else 1 becomes 3. */
  method TouchAt(out: array<int>, nx: int, ny: int)
    requires out.Length == CellSize
    modifies out
    ensures out[..] == Touch(old(out[..]), nx, ny)
  {
    if 0 <= nx < CellW && 0 <= ny < CellH {
      var n := Idx(nx, ny);
      if out[n] == 1 {
        out[n] := 3;
      }
    }
  }

  /** Offset k of the fill pixel (x, y) is one `Touch` at (nx, ny). */
  lemma TraceStep(cell: Pixels, dirs: seq<Dir>, x: int, y: int, k: nat, nx: int, ny: int)
    requires |cell| == CellSize && InCell(x, y) && cell[Idx(x, y)] == 2
    requires k < |dirs| && dirs[k] != (0, 0) && nx == x + dirs[k].0 && ny == y + dirs[k].1
    ensures Trace(cell, dirs, Idx(x, y), k + 1) == Touch(Trace(cell, dirs, Idx(x, y), k), nx, ny)
  {
    CellIndex(x, y);
  }

  /** The neighbour list of applyStroke4 is (x, y) plus `Dirs4`. */
  lemma Neighbors4(x: int, y: int, k: int)
    requires 0 <= k < 4
    ensures [(x - 1, y), (x + 1, y), (x, y - 1), (x, y + 1)][k] == (x + Dirs4[k].0, y + Dirs4[k].1)
    ensures Dirs4[k] != (0, 0)
  {
  }

  /** The centre offset, which the applyStroke8 loop skips. */
  lemma TraceCentre9(cell: Pixels, x: int, y: int)
    requires |cell| == CellSize && InCell(x, y)
    ensures Trace(cell, Dirs9, Idx(x, y), 5) == Trace(cell, Dirs9, Idx(x, y), 4)
  {
  }

  /** The neighbour loop of applyStroke4 for the fill pixel at (x, y). */
  method Outline4At(cell: Pixels, out: array<int>, x: int, y: int)
    requires |cell| == CellSize && out.Length == CellSize && InCell(x, y)
    requires cell[Idx(x, y)] == 2
    requires out[..] == Trace(cell, Dirs4, Idx(x, y), 0)
    modifies out
    ensures out[..] == Trace(cell, Dirs4, Idx(x, y), |Dirs4|)
  {
    var neighbors := [(x - 1, y), (x + 1, y), (x, y - 1), (x, y + 1)];
    for k := 0 to |neighbors|
      invariant out[..] == Trace(cell, Dirs4, Idx(x, y), k)
    {
      var (nx, ny) := neighbors[k];
      Neighbors4(x, y, k);
      TraceStep(cell, Dirs4, x, y, k, nx, ny);
      TouchAt(out, nx, ny);
    }
  }

  /** The body of the applyStroke8 loops: the centre is skipped, every
      other offset is one neighbour write. */
  method Visit8(cell: Pixels, out: array<int>, x: int, y: int, dx: int, dy: int)
    requires |cell| == CellSize && out.Length == CellSize && InCell(x, y)
    requires cell[Idx(x, y)] == 2 && -1 <= dx <= 1 && -1 <= dy <= 1
    requires out[..] == Trace(cell, Dirs9, Idx(x, y), (dy + 1) * 3 + dx + 1)
    modifies out
    ensures out[..] == Trace(cell, Dirs9, Idx(x, y), (dy + 1) * 3 + dx + 2)
  {
    if dx == 0 && dy == 0 {
      TraceCentre9(cell, x, y);
    } else {
      Dirs9At(dx, dy);
      TraceStep(cell, Dirs9, x, y, (dy + 1) * 3 + dx + 1, x + dx, y + dy);
      TouchAt(out, x + dx, y + dy);
    }
  }

  /** The inner dx loop of applyStroke8 for one dy. */
  method Outline8Row(cell: Pixels, out: array<int>, x: int, y: int, dy: int)
    requires |cell| == CellSize && out.Length == CellSize && InCell(x, y) && -1 <= dy <= 1
    requires cell[Idx(x, y)] == 2
    requires out[..] == Trace(cell, Dirs9, Idx(x, y), (dy + 1) * 3)
    modifies out
    ensures out[..] == Trace(cell, Dirs9, Idx(x, y), (dy + 1) * 3 + 3)
  {
    for dx := -1 to 2
      invariant out[..] == Trace(cell, Dirs9, Idx(x, y), (dy + 1) * 3 + dx + 1)
    {
      Visit8(cell, out, x, y, dx, dy);
    }
  }

  /** The dy/dx loops of applyStroke8 for the fill pixel at (x, y). */
  method Outline8At(cell: Pixels, out: array<int>, x: int, y: int)
    requires |cell| == CellSize && out.Length == CellSize && InCell(x, y)
    requires cell[Idx(x, y)] == 2
    requires out[..] == Trace(cell, Dirs9, Idx(x, y), 0)
    modifies out
    ensures out[..] == Trace(cell, Dirs9, Idx(x, y), |Dirs9|)
  {
    for dy := -1 to 2
      invariant out[..] == Trace(cell, Dirs9, Idx(x, y), (dy + 1) * 3)
    {
      Outline8Row(cell, out, x, y, dy);
    }
  }

  /** `applyStroke4`: the four-neighbour outline. */
  method ApplyStroke4(cell: Pixels) returns (r: Pixels)
    requires |cell| == CellSize
    ensures r == Stroked(cell, Dirs4)
  {
    var out := new int[CellSize](i requires 0 <= i < CellSize => cell[i]);
    assert out[..] == Trace(cell, Dirs4, 0, 0);
    for y := 0 to CellH
      invariant out[..] == Trace(cell, Dirs4, Idx(0, y), 0)
    {
      for x := 0 to CellW
        invariant out[..] == Trace(cell, Dirs4, Idx(x, y), 0)
      {
        CellIndex(x, y);
        if cell[Idx(x, y)] == 2 {
          Outline4At(cell, out, x, y);
        } else {
          TraceSkip(cell, Dirs4, Idx(x, y), |Dirs4|);
        }
      }
    }
    TraceIsPartial(cell, Dirs4, CellSize, 0);
    PartialDone(cell, Dirs4);
    r := out[..];
  }

  /** `applyStroke8`: the eight-neighbour outline. */
  method ApplyStroke8(cell: Pixels) returns (r: Pixels)
    requires |cell| == CellSize
    ensures r == Stroked(cell, Dirs9)
  {
    var out := new int[CellSize](i requires 0 <= i < CellSize => cell[i]);
    assert out[..] == Trace(cell, Dirs9, 0, 0);
    for y := 0 to CellH
      invariant out[..] == Trace(cell, Dirs9, Idx(0, y), 0)
    {
      for x := 0 to CellW
        invariant out[..] == Trace(cell, Dirs9, Idx(x, y), 0)
      {
        CellIndex(x, y);
        if cell[Idx(x, y)] == 2 {
          Outline8At(cell, out, x, y);
        } else {
          TraceSkip(cell, Dirs9, Idx(x, y), |Dirs9|);
        }
      }
    }
    TraceIsPartial(cell, Dirs9, CellSize, 0);
    PartialDone(cell, Dirs9);
    r := out[..];
  }

  // ---------------------------------------------------------------------
  // What the outline means

  function Dist(a: int, b: int): int { if a < b then b - a else a - b }

  /** The four-neighbourhood is "one step along one axis". */
  lemma Near4Iff(s: int, m: int)
    requires 0 <= s < CellSize && 0 <= m < CellSize
    ensures HitBy(Dirs4, 4, s, m) <==> Dist(Col(s), Col(m)) + Dist(Row(s), Row(m)) == 1
  {
    if HitBy(Dirs4, 4, s, m) {
      Near4Only(s, m);
    }
    if Dist(Col(s), Col(m)) + Dist(Row(s), Row(m)) == 1 {
      Near4All(s, m);
    }
  }

  /** A neighbour sits at its offset from p, and is not p. */
  lemma TowardCoords(p: int, d: Dir, m: int)
    requires 0 <= p < CellSize && Toward(p, d, m)
    ensures Col(m) == Col(p) + d.0 && Row(m) == Row(p) + d.1 && m != p
  {
    var x, y := Col(p) + d.0, Row(p) + d.1;
    CellIndex(x, y);
    assert Col(m) == x && Row(m) == y;
    assert Col(m) != Col(p) || Row(m) != Row(p);
  }

  lemma {:induction false} Near4Only(s: int, m: int)
    requires 0 <= s < CellSize && 0 <= m < CellSize && HitBy(Dirs4, 4, s, m)
    ensures Dist(Col(s), Col(m)) + Dist(Row(s), Row(m)) == 1
  {
    var j :| 0 <= j < 4 && Toward(s, Dirs4[j], m);
    var d := Dirs4[j];
    TowardCoords(s, d, m);
    assert d == (-1, 0) || d == (1, 0) || d == (0, -1) || d == (0, 1);
  }

  lemma {:induction false} Near4All(s: int, m: int)
    requires 0 <= s < CellSize && 0 <= m < CellSize
    requires Dist(Col(s), Col(m)) + Dist(Row(s), Row(m)) == 1
    ensures HitBy(Dirs4, 4, s, m)
  {
    CellCoords(m);
    CellCoords(s);
    var dx, dy := Col(m) - Col(s), Row(m) - Row(s);
    if dx == -1 {
      assert Dirs4[0] == (dx, dy) && Toward(s, Dirs4[0], m);
    } else if dx == 1 {
      assert Dirs4[1] == (dx, dy) && Toward(s, Dirs4[1], m);
    } else if dy == -1 {
      assert Dirs4[2] == (dx, dy) && Toward(s, Dirs4[2], m);
    } else {
      assert Dirs4[3] == (dx, dy) && Toward(s, Dirs4[3], m);
    }
  }

  /** The eight-neighbourhood is "a different pixel at most one step away
      along each axis". */
  lemma Near8Iff(s: int, m: int)
    requires 0 <= s < CellSize && 0 <= m < CellSize
    ensures HitBy(Dirs9, 9, s, m) <==> s != m && Dist(Col(s), Col(m)) <= 1 && Dist(Row(s), Row(m)) <= 1
  {
    if HitBy(Dirs9, 9, s, m) {
      Near8Only(s, m);
    }
    if s != m && Dist(Col(s), Col(m)) <= 1 && Dist(Row(s), Row(m)) <= 1 {
      Near8All(s, m);
    }
  }

  lemma {:induction false} Near8Only(s: int, m: int)
    requires 0 <= s < CellSize && 0 <= m < CellSize && HitBy(Dirs9, 9, s, m)
    ensures s != m && Dist(Col(s), Col(m)) <= 1 && Dist(Row(s), Row(m)) <= 1
  {
    var j :| 0 <= j < 9 && Toward(s, Dirs9[j], m);
    var d := Dirs9[j];
    Dirs9Bounded(j);
    TowardCoords(s, d, m);
  }

  lemma Dirs9Bounded(j: int)
    requires 0 <= j < 9
    ensures -1 <= Dirs9[j].0 <= 1 && -1 <= Dirs9[j].1 <= 1
  {
  }

  lemma {:induction false} Near8All(s: int, m: int)
    requires 0 <= s < CellSize && 0 <= m < CellSize
    requires s != m && Dist(Col(s), Col(m)) <= 1 && Dist(Row(s), Row(m)) <= 1
    ensures HitBy(Dirs9, 9, s, m)
  {
    CellCoords(m);
    var dx := Col(m) - Col(s);
    var dy := Row(m) - Row(s);
    Dirs9At(dx, dy);
    var j := (dy + 1) * 3 + dx + 1;
    CellCoords(s);
    assert Toward(s, Dirs9[j], m);
  }

  /** Every pixel applyStroke4 strokes, applyStroke8 strokes too. */
  lemma {:induction false} Stroke4Within8(cell: Pixels)
    requires |cell| == CellSize
    ensures forall m :: 0 <= m < CellSize && Stroked(cell, Dirs4)[m] == 3 && cell[m] != 3 ==>
      Stroked(cell, Dirs9)[m] == 3
  {
    forall m | 0 <= m < CellSize && Stroked(cell, Dirs4)[m] == 3 && cell[m] != 3
      ensures Stroked(cell, Dirs9)[m] == 3
    {
      var s :| 0 <= s < CellSize && cell[s] == 2 && HitBy(Dirs4, 4, s, m);
      Near4Iff(s, m);
      Near8Iff(s, m);
      assert HitBy(Dirs9, |Dirs9|, s, m);
    }
  }

  /** Stroking a stroked cell changes nothing: the fill pixels are the same
      and every background pixel left over has no fill neighbour. */
  lemma {:induction false} StrokeIdempotent(cell: Pixels, dirs: seq<Dir>)
    requires |cell| == CellSize
    ensures Stroked(Stroked(cell, dirs), dirs) == Stroked(cell, dirs)
  {
    var r := Stroked(cell, dirs);
    forall s | 0 <= s < CellSize
      ensures r[s] == 2 <==> cell[s] == 2
    {
    }
    forall m | 0 <= m < CellSize
      ensures NearFill(r, dirs, m, CellSize) <==> NearFill(cell, dirs, m, CellSize)
    {
      if NearFill(r, dirs, m, CellSize) {
        var s :| 0 <= s < CellSize && r[s] == 2 && HitBy(dirs, |dirs|, s, m);
        assert cell[s] == 2;
      }
      if NearFill(cell, dirs, m, CellSize) {
        var s :| 0 <= s < CellSize && cell[s] == 2 && HitBy(dirs, |dirs|, s, m);
        assert r[s] == 2;
      }
    }
  }
}
