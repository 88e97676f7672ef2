/**
 * The observable result of Rust's `format!("{:032b}", word)`: the base-2
 * numeral of a 32-bit word, most significant digit first, zero-padded to 32
 * characters.
 */
module Rendering {
  import opened Words

  /**
   * The low `n` binary digits of `w`, most significant first, produced the
   * way a numeral is printed: the last digit is `w mod 2` and the digits
   * before it are those of `w / 2`.
   */
  function Digits(w: bv32, n: nat): (s: string)
    ensures |s| == n
    ensures forall k :: 0 <= k < n ==> s[k] == '0' || s[k] == '1'
  {
    if n == 0 then []
    else Digits(w >> 1, n - 1) + [if w & 1 == 1 then '1' else '0']
  }

  /** `format!("{:032b}", w)`. */
  function Binary(w: bv32): (s: string)
    ensures |s| == 32
  {
    Digits(w, 32)
  }

  /** The numeral of the zero word is all zeros. */
  lemma {:induction false} DigitsOfZero(n: nat)
    ensures Digits(0, n) == seq(n, _ => '0')
  {
    if n > 0 {
      DigitsOfZero(n - 1);
      assert (0 as bv32) >> 1 == 0;
    }
  }

  /** Digit `k` of the `n`-digit numeral is bit `n - 1 - k` of the word. */
  lemma {:induction false} DigitsBit(w: bv32, n: nat, k: nat)
    requires k < n <= 32
    ensures Digits(w, n)[k] == '1' <==> Bit(w, PosOf(n - 1 - k))
  {
    if k == n - 1 {
      assert Digits(w, n)[k] == if w & 1 == 1 then '1' else '0';
      LowestBit(w);
    } else {
      assert Digits(w, n)[k] == Digits(w >> 1, n - 1)[k];
      DigitsBit(w >> 1, n - 1, k);
      ShiftRightBitAt(w, n - 2 - k);
    }
  }

  /**
   * The rendering is MSB-first: character `k` is '1' exactly when bit
   * `31 - k` is set, so bit 31 is leftmost and bit 0 rightmost.
   */
  lemma BinaryBit(w: bv32, k: nat)
    requires k < 32
    ensures Binary(w)[k] == '1' <==> Bit(w, PosOf(31 - k))
    ensures Binary(w)[k] == '0' <==> !Bit(w, PosOf(31 - k))
  {
    DigitsBit(w, 32, k);
  }

  /** Distinct words render differently: the rendering loses nothing. */
  lemma BinaryInjective(x: bv32, y: bv32)
    requires Binary(x) == Binary(y)
    ensures x == y
  {
    forall j: Pos
      ensures Bit(x, j) == Bit(y, j)
    {
      var k := 31 - j as int;
      BinaryBit(x, k);
      BinaryBit(y, k);
      assert PosOf(31 - k) == j;
    }
    WordExt(x, y);
  }
}
