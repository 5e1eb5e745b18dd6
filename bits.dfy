/**
 * Bit-level helpers for the overlay row bitmasks: bit k of a natural
 * number, JavaScript's ToUint32 (`v >>> 0`), and the test
 * `row & (1 << s)` that the rasterisers perform.
 */
module Bits {

  function Pow2(k: nat): (r: nat)
    ensures r >= 1
  {
    if k == 0 then 1 else 2 * Pow2(k - 1)
  }

  const TwoTo32: int := 0x1_0000_0000

  /** Bit k of v, bit 0 being the least significant. */
  predicate Bit(v: nat, k: nat)
  {
    if k == 0 then v % 2 == 1 else Bit(v / 2, k - 1)
  }

  /** JavaScript `v >>> 0` for an integer v. */
  function U32(v: int): (r: nat)
    ensures r < TwoTo32
    ensures 0 <= v < TwoTo32 ==> r == v
  {
    v % TwoTo32
  }

  /** JavaScript `(row & (1 << s)) !== 0` for a shift count s >= 0:
      `1 << s` shifts by s mod 32 in 32-bit arithmetic, and `&` compares
      the 32-bit patterns of both operands. */
  predicate BitAnd(row: int, s: nat)
  {
    Bit(U32(row), s % 32)
  }

  /** Shifting a bit in at the bottom: the new bit is bit 0 and every old
      bit moves up by one. */
  lemma {:induction false} BitShiftIn(v: nat, b: nat, k: nat)
    requires b <= 1
    ensures Bit(2 * v + b, 0) <==> b == 1
    ensures Bit(2 * v + b, k + 1) <==> Bit(v, k)
  {
    assert (2 * v + b) / 2 == v;
  }

  /** A number below 2^n has no bit at n or above. */
  lemma {:induction false} BitAbove(v: nat, n: nat, k: nat)
    requires v < Pow2(n) && k >= n
    ensures !Bit(v, k)
    decreases k
  {
    if k == 0 {
      assert v == 0;
    } else if n == 0 {
      assert v == 0;
      BitAbove(0, 0, k - 1);
    } else {
      BitAbove(v / 2, n - 1, k - 1);
    }
  }

  lemma HalfMod(v: nat, m: nat)
    requires m >= 1
    ensures (v % (2 * m)) / 2 == (v / 2) % m
    ensures (v % (2 * m)) % 2 == v % 2
  {
    var q := v / (2 * m);
    var r := v % (2 * m);
    assert v == 2 * m * q + r;
    assert v / 2 == m * q + r / 2 by {
      assert v == 2 * (m * q + r / 2) + r % 2;
    }
    assert 0 <= r / 2 < m;
    LinearMod(m * q + r / 2, m, q, r / 2);
    assert v % 2 == r % 2 by {
      assert v == 2 * (m * q + r / 2) + r % 2;
    }
  }

  /** Division is unique: a = m*q + r with 0 <= r < m fixes q and r. */
  lemma LinearMod(a: nat, m: nat, q: nat, r: nat)
    requires m >= 1 && r < m && a == m * q + r
    ensures a % m == r
  {
    var q', r' := a / m, a % m;
    assert m * q' + r' == m * q + r;
    if q' < q {
      MulStep(m, q', q);
      assert false;
    } else if q < q' {
      MulStep(m, q, q');
      assert false;
    }
  }

  lemma {:induction false} MulStep(m: nat, lo: nat, hi: nat)
    requires lo < hi
    ensures m * lo + m <= m * hi
    decreases hi - lo
  {
    if lo + 1 < hi {
      MulStep(m, lo, hi - 1);
    }
    assert m * hi == m * (hi - 1) + m;
  }

  /** Reducing modulo 2^n keeps every bit below n. */
  lemma {:induction false} BitMod(v: nat, n: nat, k: nat)
    requires k < n
    ensures Bit(v % Pow2(n), k) <==> Bit(v, k)
    decreases k
  {
    HalfMod(v, Pow2(n - 1));
    if k > 0 {
      BitMod(v / 2, n - 1, k - 1);
    }
  }

  /** The 32-bit reduction keeps bits 0..31. */
  lemma U32Bit(v: nat, k: nat)
    requires k < 32
    ensures Bit(U32(v), k) <==> Bit(v, k)
  {
    assert Pow2(32) == TwoTo32 by {
      assert Pow2(8) == 256;
      assert Pow2(16) == 65536 by { Pow2Add(8, 8); }
      Pow2Add(16, 16);
    }
    BitMod(v, 32, k);
  }

  lemma {:induction false} Pow2Add(a: nat, b: nat)
    ensures Pow2(a + b) == Pow2(a) * Pow2(b)
    decreases a
  {
    if a > 0 {
      Pow2Add(a - 1, b);
    }
  }

  /** For a non-negative row and a shift count below 32 the mask test is
      bit s of the row itself, however wide the row is. */
  lemma BitAndNarrow(row: nat, s: nat)
    requires s < 32
    ensures BitAnd(row, s) <==> Bit(row, s)
  {
    U32Bit(row, s);
  }
}
