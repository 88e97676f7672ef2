/**
 * One 32-bit word of a bitset (`u32` in the Rust source) and the bit-level
 * facts every other module relies on. Bit positions are `bv5`, so every value
 * of the type is a valid shift amount for a 32-bit word.
 */
module Words {

  /** A bit position within a word: 0 is the least significant bit. */
  type Pos = bv5

  /** The position of id `n` inside its word (`id % 32`). */
  function PosOf(n: nat): (j: Pos)
    ensures j as int == n % 32
  {
    (n % 32) as bv5
  }

  lemma PosOfPos(j: Pos)
    ensures PosOf(j as int) == j
  {}

  /** The single-bit mask `1 << j`. */
  function Mask(j: Pos): bv32 {
    (1 as bv32) << j
  }

  /** Bit `j` of `w` is set: `w & (1 << j) != 0`. */
  predicate Bit(w: bv32, j: Pos) {
    w & Mask(j) != 0
  }

  /** The zero word, which `resize` appends, has no bit set. */
  lemma ZeroWord(j: Pos)
    ensures !Bit(0, j)
  {}

  lemma MaskBit(i: Pos, j: Pos)
    ensures Bit(Mask(i), j) <==> i == j
  {}

  /** OR-ing in a mask sets exactly that bit and keeps all others. */
  lemma OrMaskBit(w: bv32, j: Pos, k: Pos)
    ensures Bit(w | Mask(j), k) <==> Bit(w, k) || j == k
  {
    assert (w | Mask(j)) & Mask(k) == (w & Mask(k)) | (Mask(j) & Mask(k));
    MaskBit(j, k);
  }

  lemma OrMaskNonZero(w: bv32, j: Pos)
    ensures w | Mask(j) != 0
  {}

  lemma OrMaskIdempotent(w: bv32, j: Pos)
    ensures (w | Mask(j)) | Mask(j) == w | Mask(j)
  {}

  lemma XorBit(x: bv32, y: bv32, j: Pos)
    ensures Bit(x ^ y, j) <==> Bit(x, j) != Bit(y, j)
  {}

  lemma ShiftRightBit(w: bv32, j: Pos)
    requires j < 31
    ensures Bit(w >> 1, j) <==> Bit(w, j + 1)
  {}

  /** The same, with the positions given as integers. */
  lemma ShiftRightBitAt(w: bv32, p: nat)
    requires p < 31
    ensures Bit(w >> 1, PosOf(p)) <==> Bit(w, PosOf(p + 1))
  {
    PosSucc(p);
    ShiftRightBit(w, PosOf(p));
  }

  lemma LowestBit(w: bv32)
    ensures Bit(w, 0) <==> w & 1 == 1
  {}

  /** Shifting a one-bit mask left by one moves the bit up, or drops it past bit 31. */
  lemma MaskShift(j: Pos)
    ensures Mask(j) << 1 == if j == 31 then 0 else Mask(j + 1)
  {}

  lemma PosSucc(p: nat)
    requires p < 31
    ensures PosOf(p) + 1 == PosOf(p + 1)
  {
    assert p % 32 == p && (p + 1) % 32 == p + 1;
  }

  /** The mask for position `t`, shifted left once, is the mask for `t + 1` (none past bit 31). */
  lemma NextMask(t: nat)
    requires t < 32
    ensures Mask(PosOf(t)) << 1 == if t == 31 then 0 else Mask(PosOf(t + 1))
  {
    MaskShift(PosOf(t));
    if t < 31 {
      PosSucc(t);
    }
  }

  /**
   * `u32::trailing_zeros`: the number of zero bits below the lowest set bit,
   * or 32 for the zero word. Computed by isolating the lowest set bit
   * (`w & -w`) and reading its index off five masks.
   */
  function TrailingZeros(w: bv32): (r: bv32)
    ensures r <= 32
    ensures r == 32 <==> w == 0
    ensures r < 32 ==> Bit(w, r as Pos)
    ensures forall j: Pos :: j as bv32 < r ==> !Bit(w, j)
  {
    if w == 0 then 32 else
    var lowest := w & -w;
    (if lowest & 0xFFFF_0000 != 0 then 16 else 0) +
    (if lowest & 0xFF00_FF00 != 0 then 8 else 0) +
    (if lowest & 0xF0F0_F0F0 != 0 then 4 else 0) +
    (if lowest & 0xCCCC_CCCC != 0 then 2 else 0) +
    (if lowest & 0xAAAA_AAAA != 0 then 1 else 0)
  }

  /** The mask `1 << j` has exactly `j` trailing zeros. */
  lemma TrailingZerosOfMask(j: Pos)
    ensures TrailingZeros(Mask(j)) == j as bv32
  {
    var r := TrailingZeros(Mask(j));
    MaskBit(j, r as Pos);
    if j as bv32 < r {
      MaskBit(j, j);
      assert false;
    }
  }

  /** The same, as the integer position: `(1 << t).trailing_zeros() == t`. */
  lemma TrailingZerosOfPos(t: nat)
    requires t < 32
    ensures TrailingZeros(Mask(PosOf(t))) as int == t
  {
    TrailingZerosOfMask(PosOf(t));
  }

  /** A non-zero word has a set bit. */
  lemma NonZeroHasBit(w: bv32)
    requires w != 0
    ensures exists j: Pos :: Bit(w, j)
  {
    var r := TrailingZeros(w);
    assert Bit(w, r as Pos);
  }

  /** Two words with the same bits are the same word. */
  lemma WordExt(x: bv32, y: bv32)
    requires forall j: Pos :: Bit(x, j) == Bit(y, j)
    ensures x == y
  {
    if x != y {
      var j := TrailingZeros(x ^ y) as Pos;
      XorBit(x, y, j);
      assert false;
    }
  }
}
