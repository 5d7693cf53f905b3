/** C# `long` (64-bit two's complement) values as integers, with the bitwise
    OR and the left shift that `SpatialMap.Key` applies to them. The OR is
    computed bit by bit on the unsigned 64-bit patterns. */
module LongBits {

  const TWO_32: int := 0x1_0000_0000
  const TWO_63: int := 0x8000_0000_0000_0000
  const TWO_64: int := 0x1_0000_0000_0000_0000

  predicate IsInt64(v: int) { -TWO_63 <= v < TWO_63 }

  function Pow2(k: nat): (p: nat)
    ensures p >= 1
  {
    if k == 0 then 1 else 2 * Pow2(k - 1)
  }

  /** The unsigned 64-bit pattern of a `long`. */
  function Pattern(v: int): (u: nat)
    requires IsInt64(v)
    ensures u < TWO_64
  {
    if v >= 0 then v else v + TWO_64
  }

  /** The `long` whose pattern is `u`. */
  function FromPattern(u: nat): (v: int)
    requires u < TWO_64
    ensures IsInt64(v)
  {
    if u < TWO_63 then u else u - TWO_64
  }

  /** Bitwise OR of two naturals, lowest bit first. */
  function OrBits(a: nat, b: nat): nat
    decreases a + b
  {
    if a == 0 then b
    else if b == 0 then a
    else 2 * OrBits(a / 2, b / 2) + (if a % 2 == 1 || b % 2 == 1 then 1 else 0)
  }

  /** The OR of two k-bit numbers is a k-bit number. */
  lemma {:induction false} OrBitsBound(a: nat, b: nat, k: nat)
    requires a < Pow2(k) && b < Pow2(k)
    ensures OrBits(a, b) < Pow2(k)
    decreases a + b
  {
    if a != 0 && b != 0 {
      assert k > 0;
      OrBitsBound(a / 2, b / 2, k - 1);
    }
  }

  lemma MulTwo(x: nat, p: nat)
    ensures x * (2 * p) == 2 * (x * p)
  {
  }

  /** Shifting both operands left by one bit and filling the first with
      `bit` shifts their OR the same way. */
  lemma OrBitsShiftIn(x: nat, y: nat, bit: nat)
    requires bit < 2
    ensures OrBits(2 * x + bit, 2 * y) == 2 * OrBits(x, y) + bit
  {
    if 2 * x + bit != 0 && y != 0 {
      assert (2 * x + bit) / 2 == x && (2 * x + bit) % 2 == bit;
      assert (2 * y) / 2 == y && (2 * y) % 2 == 0;
    }
  }

  /** `x` shifted left by `k` bits, one doubling at a time. */
  function ShiftUp(x: nat, k: nat): (r: nat)
    ensures r == x * Pow2(k)
  {
    if k == 0 then x
    else
      MulTwo(x, Pow2(k - 1));
      2 * ShiftUp(x, k - 1)
  }

  /** OR-ing a multiple of 2^k into a number whose low part is below 2^k
      works on the high parts only and keeps the low part. */
  lemma OrBitsSplit(h: nat, l: nat, w: nat, k: nat)
    requires l < Pow2(k)
    ensures OrBits(h * Pow2(k) + l, w * Pow2(k)) == OrBits(h, w) * Pow2(k) + l
  {
    OrBitsShifted(h, l, w, k);
  }

  /** `OrBitsSplit` with the shifts written as repeated doubling. */
  lemma {:induction false} OrBitsShifted(h: nat, l: nat, w: nat, k: nat)
    requires l < Pow2(k)
    ensures OrBits(ShiftUp(h, k) + l, ShiftUp(w, k)) == ShiftUp(OrBits(h, w), k) + l
    decreases k
  {
    if k > 0 {
      OrBitsShifted(h, l / 2, w, k - 1);
      assert ShiftUp(h, k) + l == 2 * (ShiftUp(h, k - 1) + l / 2) + l % 2;
      OrBitsShiftIn(ShiftUp(h, k - 1) + l / 2, ShiftUp(w, k - 1), l % 2);
    }
  }

  /** OR with a number of all ones absorbs any number of at most that width. */
  lemma {:induction false} OrBitsAllOnes(w: nat, k: nat)
    requires w < Pow2(k)
    ensures OrBits(Pow2(k) - 1, w) == Pow2(k) - 1
    decreases k
  {
    if k > 0 && w != 0 {
      var p := Pow2(k - 1);
      assert Pow2(k) - 1 == 2 * (p - 1) + 1;
      assert (Pow2(k) - 1) / 2 == p - 1 && (Pow2(k) - 1) % 2 == 1;
      OrBitsAllOnes(w / 2, k - 1);
    }
  }

  lemma Pow2Values()
    ensures Pow2(32) == TWO_32 && Pow2(64) == TWO_64
  {
    assert Pow2(8) == 0x100;
    assert Pow2(16) == 0x1_0000;
    assert Pow2(24) == 0x100_0000;
    assert Pow2(32) == 0x1_0000_0000;
    assert Pow2(40) == 0x100_0000_0000;
    assert Pow2(48) == 0x1_0000_0000_0000;
    assert Pow2(56) == 0x100_0000_0000_0000;
  }

  /** `a | b` on `long`s. */
  function Or(a: int, b: int): (v: int)
    requires IsInt64(a) && IsInt64(b)
    ensures IsInt64(v)
  {
    Pow2Values();
    OrBitsBound(Pattern(a), Pattern(b), 64);
    FromPattern(OrBits(Pattern(a), Pattern(b)))
  }

  /** `v << 32` on a `long`: the bits shifted out at the top are lost. */
  function ShiftLeft32(v: int): (r: int)
    requires IsInt64(v)
    ensures IsInt64(r)
  {
    FromPattern((v * TWO_32) % TWO_64)
  }

  /** Shifting an `int` widened to `long` left by 32 multiplies it by 2^32;
      its pattern holds the 32-bit pattern of the `int` in the upper half. */
  lemma ShiftLeft32OfInt(y: int)
    requires -0x8000_0000 <= y < 0x8000_0000
    ensures IsInt64(y * TWO_32) && ShiftLeft32(y) == y * TWO_32
    ensures Pattern(y * TWO_32) == (if y >= 0 then y else y + TWO_32) * TWO_32
  {
  }

  /** OR of a non-negative `int` with a shifted `int` places the two side by side. */
  lemma OrNonNegativeLow(x: int, y: int)
    requires 0 <= x < 0x8000_0000 && -0x8000_0000 <= y < 0x8000_0000
    ensures IsInt64(y * TWO_32) && Or(x, y * TWO_32) == x + y * TWO_32
  {
    ShiftLeft32OfInt(y);
    var w := if y >= 0 then y else y + TWO_32;
    Pow2Values();
    OrBitsSplit(0, x, w, 32);
    assert OrBits(Pattern(x), Pattern(y * TWO_32)) == w * TWO_32 + x;
  }

  /** A negative `int` widened to `long` has all upper 32 bits set, so OR-ing
      a shifted `int` into it changes nothing. */
  lemma OrNegativeLow(x: int, y: int)
    requires -0x8000_0000 <= x < 0 && -0x8000_0000 <= y < 0x8000_0000
    ensures IsInt64(y * TWO_32) && Or(x, y * TWO_32) == x
  {
    ShiftLeft32OfInt(y);
    var w := if y >= 0 then y else y + TWO_32;
    Pow2Values();
    assert Pattern(x) == (TWO_32 - 1) * TWO_32 + (x + TWO_32);
    OrBitsSplit(TWO_32 - 1, x + TWO_32, w, 32);
    OrBitsAllOnes(w, 32);
    assert OrBits(Pattern(x), Pattern(y * TWO_32)) == x + TWO_64;
  }
}
