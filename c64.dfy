/**
 * The C64 charset converter (tools/c64bin2osdjson.py): a raw binary of
 * 8x8 glyphs, eight bytes each, one byte per row with the leftmost pixel
 * in the most significant bit, optionally behind the 6-byte header of the
 * common .FNT variant, becomes an overlay font whose glyphs sit at offset
 * (2, 5) in the 12x18 cell under consecutive code points.
 */
module C64 {
  import opened Wrappers
  import opened Text
  import opened Bits
  import opened Glyph
  import opened Raster

  type Byte = b: int | 0 <= b < 256

  const GlyphW: int := 8
  const GlyphH: int := 8
  /** `(CELL_W - GLYPH_W) // 2` and `(CELL_H - GLYPH_H) // 2`. */
  const OffX: int := (CellW - GlyphW) / 2
  const OffY: int := (CellH - GlyphH) / 2

  /** `detect_header_bytes`: a length that is a multiple of 8 has no
      header; a length of 6 more than a multiple of 8 starting FF FF has
      the 6-byte .FNT header; anything else is read from the start. */
  function DetectHeaderBytes(raw: seq<Byte>): (h: int)
    ensures h == 0 || h == 6
    ensures |raw| % 8 == 0 ==> h == 0
    ensures h == 6 ==> |raw| >= 6 && raw[0] == 0xFF && raw[1] == 0xFF
  {
    var n := |raw|;
    if n % 8 == 0 then 0
    else if n >= 6 && (n - 6) % 8 == 0 && raw[..2] == [0xFF, 0xFF] then 6
    else 0
  }

  /** The detected header leaves whole glyphs exactly when the file is
      whole glyphs or a 6-byte-header .FNT file: a file whose length is
      not a multiple of 8 and that is not such a file is rejected with
      the default settings. */
  lemma DetectedHeaderLeavesGlyphs(raw: seq<Byte>)
    ensures var h := DetectHeaderBytes(raw);
      h <= |raw| &&
      ((|raw| - h) % 8 == 0 <==>
        |raw| % 8 == 0 ||
        (|raw| >= 6 && (|raw| - 6) % 8 == 0 && raw[0] == 0xFF && raw[1] == 0xFF))
  {
    if |raw| >= 2 {
      assert raw[..2] == [0xFF, 0xFF] <==> raw[0] == 0xFF && raw[1] == 0xFF;
    }
  }

  /** Why the converter stops with an error. */
  datatype C64Error =
    | InvalidHeaderBytes(headerBytes: int)
    | NotWholeGlyphs(bytes: int, bytesTotal: int, headerBytes: int)

  /** The "source" record of the output. */
  datatype C64Source = C64Source(
    bytes: int, bytesTotal: int, headerBytesSkipped: int,
    glyphCount: int, emittedGlyphs: int, cpBase: int)

  datatype C64Font = C64Font(source: C64Source, glyphs: OverlayFont)

  /** Glyph gi: its eight bytes as rows, 8x8 at offset (2, 5). */
  function GlyphAt(data: seq<Byte>, gi: int): OverlayGlyph
    requires 0 <= gi && (gi + 1) * 8 <= |data|
  {
    OverlayGlyph(GlyphW, GlyphH, OffX, OffY,
      seq(8, k requires 0 <= k < 8 => data[gi * 8 + k] as int))
  }

  /** `uplus(cp_base + gi)`: the key of glyph gi. */
  function KeyOf(cpBase: int, gi: int): string
  {
    PyUPlus(cpBase + gi)
  }

  /** Keys of distinct glyphs differ, and a key reads back as its code
      point. */
  lemma KeyOfFacts(cpBase: int, gi: int)
    ensures ParseUPlus(KeyOf(cpBase, gi)) - cpBase == gi
    ensures PyUPlus(ParseUPlus(KeyOf(cpBase, gi))) == KeyOf(cpBase, gi)
  {
    UPlusRoundTrip(cpBase + gi);
  }

  lemma KeyOfInjective(cpBase: int, a: int, b: int)
    requires a != b
    ensures KeyOf(cpBase, a) != KeyOf(cpBase, b)
  {
    KeyOfFacts(cpBase, a);
    KeyOfFacts(cpBase, b);
  }

  /** The keys of glyphs 0..n-1, in order. */
  function KeysFrom(cpBase: int, n: nat): (keys: seq<string>)
    ensures |keys| == n
  {
    seq(n, gi requires 0 <= gi < n => KeyOf(cpBase, gi))
  }

  predicate Distinct(keys: seq<string>)
  {
    forall i, j :: 0 <= i < j < |keys| ==> keys[i] != keys[j]
  }

  /** No two glyphs share a key. */
  lemma KeysDistinct(cpBase: int, n: nat)
    ensures Distinct(KeysFrom(cpBase, n))
  {
    var keys := KeysFrom(cpBase, n);
    forall i, j | 0 <= i < j < n
      ensures keys[i] != keys[j]
    {
      KeyOfInjective(cpBase, i, j);
    }
  }

  /** Every key reads back as cpBase plus the index of its glyph. */
  lemma KeysReadBack(cpBase: int, n: nat)
    ensures forall k :: k in KeysFrom(cpBase, n) ==>
      0 <= ParseUPlus(k) - cpBase < n && k == PyUPlus(ParseUPlus(k))
  {
    var keys := KeysFrom(cpBase, n);
    forall k | k in keys
      ensures 0 <= ParseUPlus(k) - cpBase < n && k == PyUPlus(ParseUPlus(k))
    {
      var gi :| 0 <= gi < n && keys[gi] == k;
      KeyOfFacts(cpBase, gi);
    }
  }

  /** The glyphs emitted for indices 0..n-1, glyph gi under keys[gi]. */
  function Emitted(data: seq<Byte>, keys: seq<string>, n: int): OverlayFont
    requires 0 <= n <= |keys| && n * 8 <= |data|
    decreases n
  {
    if n == 0 then map[]
    else Emitted(data, keys, n - 1)[keys[n - 1] := GlyphAt(data, n - 1)]
  }

  /** The emitted keys are exactly the first n keys. */
  lemma {:induction false} EmittedKeys(data: seq<Byte>, keys: seq<string>, n: int)
    requires 0 <= n <= |keys| && n * 8 <= |data|
    ensures forall k :: k in Emitted(data, keys, n) <==> k in keys[..n]
    decreases n
  {
    if n > 0 {
      EmittedKeys(data, keys, n - 1);
      assert keys[..n] == keys[..n - 1] + [keys[n - 1]];
    }
  }

  /** Glyph gi is stored under keys[gi] when no later glyph shares it. */
  lemma {:induction false} EmittedHas(data: seq<Byte>, keys: seq<string>, n: int)
    requires 0 <= n <= |keys| && n * 8 <= |data|
    requires Distinct(keys)
    ensures forall gi :: 0 <= gi < n ==>
      keys[gi] in Emitted(data, keys, n) && Emitted(data, keys, n)[keys[gi]] == GlyphAt(data, gi)
    decreases n
  {
    if n > 0 {
      EmittedHas(data, keys, n - 1);
      forall gi | 0 <= gi < n - 1
        ensures keys[gi] != keys[n - 1]
      {
      }
    }
  }

  /** With distinct keys there is one entry per glyph. */
  lemma {:induction false} EmittedSize(data: seq<Byte>, keys: seq<string>, n: int)
    requires 0 <= n <= |keys| && n * 8 <= |data|
    requires Distinct(keys)
    ensures |Emitted(data, keys, n).Keys| == n
    decreases n
  {
    if n > 0 {
      EmittedSize(data, keys, n - 1);
      EmittedKeys(data, keys, n - 1);
      assert keys[n - 1] !in keys[..n - 1];
      assert Emitted(data, keys, n).Keys == Emitted(data, keys, n - 1).Keys + {keys[n - 1]};
    }
  }

  /** `main` after reading the file and its options: the header to skip
      (given, or detected when the option is negative), the checks, and
      the glyphs emitted. */
  function ConvertC64(raw: seq<Byte>, cpBase: int, maxGlyphs: int, headerOption: int): Result<C64Font, C64Error>
  {
    var header := if headerOption >= 0 then headerOption else DetectHeaderBytes(raw);
    if header < 0 || header > |raw| then Err(InvalidHeaderBytes(header))
    else
      var data := raw[header..];
      if |data| % 8 != 0 then Err(NotWholeGlyphs(|data|, |raw|, header))
      else
        var glyphCount := |data| / 8;
        var limit := if maxGlyphs < 0 then 0 else maxGlyphs;
        var emit := if glyphCount <= limit then glyphCount else limit;
        Ok(C64Font(C64Source(|data|, |raw|, header, glyphCount, emit, cpBase), Emitted(data, KeysFrom(cpBase, emit), emit)))
  }

  /** Glyph gi holds bytes h+8gi..h+8gi+7 of the file. */
  lemma GlyphAtRows(raw: seq<Byte>, h: int, gi: int)
    requires 0 <= h <= |raw| && 0 <= gi && h + (gi + 1) * 8 <= |raw|
    ensures GlyphAt(raw[h..], gi).rows == raw[h + gi * 8 .. h + (gi + 1) * 8]
  {
  }

  /** The n glyphs emitted after an h-byte header: glyph gi, bytes
      h+8gi..h+8gi+7, under the key of cpBase + gi, and no other key. */
  lemma EmittedGlyphs(raw: seq<Byte>, h: int, cpBase: int, n: nat)
    requires 0 <= h <= |raw| && h + n * 8 <= |raw|
    ensures var glyphs := Emitted(raw[h..], KeysFrom(cpBase, n), n);
      |glyphs.Keys| == n &&
      (forall gi :: 0 <= gi < n ==>
        KeyOf(cpBase, gi) in glyphs && glyphs[KeyOf(cpBase, gi)].rows == raw[h + gi * 8 .. h + (gi + 1) * 8]) &&
      (forall k :: k in glyphs ==> 0 <= ParseUPlus(k) - cpBase < n && k == PyUPlus(ParseUPlus(k)))
  {
    var data := raw[h..];
    var keys := KeysFrom(cpBase, n);
    KeysDistinct(cpBase, n);
    EmittedHas(data, keys, n);
    EmittedSize(data, keys, n);
    EmittedKeys(data, keys, n);
    assert keys[..n] == keys;
    KeysReadBack(cpBase, n);
    forall gi | 0 <= gi < n
      ensures GlyphAt(data, gi).rows == raw[h + gi * 8 .. h + (gi + 1) * 8]
      ensures keys[gi] == KeyOf(cpBase, gi)
    {
      GlyphAtRows(raw, h, gi);
    }
  }

  /** When the converter fails: exactly when the header is past the end
      or the rest is not whole glyphs. Otherwise it emits min(glyph count,
      max(0, maxGlyphs)) glyphs, which EmittedGlyphs describes. */
  lemma ConvertC64Outcome(raw: seq<Byte>, cpBase: int, maxGlyphs: int, headerOption: int)
    ensures var header := if headerOption >= 0 then headerOption else DetectHeaderBytes(raw);
      ConvertC64(raw, cpBase, maxGlyphs, headerOption).Err? <==>
        header > |raw| || (|raw| - header) % 8 != 0
    ensures var r := ConvertC64(raw, cpBase, maxGlyphs, headerOption);
      r.Ok? ==>
        var s := r.value.source;
        0 <= s.headerBytesSkipped <= |raw| &&
        s.glyphCount * 8 == s.bytes == |raw| - s.headerBytesSkipped &&
        s.emittedGlyphs == (if s.glyphCount <= maxGlyphs then s.glyphCount else if maxGlyphs < 0 then 0 else maxGlyphs) &&
        r.value.glyphs == Emitted(raw[s.headerBytesSkipped..], KeysFrom(cpBase, s.emittedGlyphs), s.emittedGlyphs)
  {
  }

  /** An emitted glyph shows ink exactly at the set bits of its bytes,
      column 0 being the most significant bit. */
  lemma GlyphInk(data: seq<Byte>, gi: int, x: int, y: int)
    requires 0 <= gi && (gi + 1) * 8 <= |data|
    ensures Ink(GlyphAt(data, gi), x, y) <==>
      0 <= x < 8 && 0 <= y < 8 && Bit(data[gi * 8 + y], 7 - x)
  {
  }

  /** The glyph loop of `main`: glyph gi goes under keys[gi]. */
  method EmitGlyphs(data: seq<Byte>, keys: seq<string>, n: int) returns (glyphs: OverlayFont)
    requires 0 <= n <= |keys| && n * 8 <= |data|
    ensures glyphs == Emitted(data, keys, n)
  {
    glyphs := map[];
    for gi := 0 to n
      invariant glyphs == Emitted(data, keys, gi)
    {
      var rows := seq(8, k requires 0 <= k < 8 => data[gi * 8 + k] as int);
      glyphs := glyphs[keys[gi] := OverlayGlyph(GlyphW, GlyphH, OffX, OffY, rows)];
    }
  }

  /** `main` from the header checks to the glyph loop. */
  method ConvertC64Bytes(raw: seq<Byte>, cpBase: int, maxGlyphs: int, headerOption: int)
    returns (r: Result<C64Font, C64Error>)
    ensures r == ConvertC64(raw, cpBase, maxGlyphs, headerOption)
  {
    var header := if headerOption >= 0 then headerOption else DetectHeaderBytes(raw);
    if header < 0 || header > |raw| {
      return Err(InvalidHeaderBytes(header));
    }
    var data := raw[header..];
    if |data| % 8 != 0 {
      return Err(NotWholeGlyphs(|data|, |raw|, header));
    }
    var glyphCount := |data| / 8;
    var limit := if maxGlyphs < 0 then 0 else maxGlyphs;
    var emit := if glyphCount <= limit then glyphCount else limit;
    var glyphs := EmitGlyphs(data, KeysFrom(cpBase, emit), emit);
    return Ok(C64Font(C64Source(|data|, |raw|, header, glyphCount, emit, cpBase), glyphs));
  }
}
