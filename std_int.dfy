/**
 * The fixed-width integer types of <stdint.h> and <stddef.h> that the
 * firmware uses, on its 32-bit target, and powers of two for the shifts
 * the source writes with `<<` and `>>`, and its bitwise `|`.
 */
module StdInt {

  type uint8 = x: int | 0 <= x < 0x100
  type uint32 = x: int | 0 <= x < 0x1_0000_0000
  type int32 = x: int | -0x8000_0000 <= x < 0x8000_0000
  /** size_t and unsigned long are 32 bits wide on the ESP32. */
  type size_t = uint32

  function Pow2(n: nat): (p: nat)
    ensures p >= 1
  {
    if n == 0 then 1 else 2 * Pow2(n - 1)
  }

  lemma {:induction false} Pow2Monotone(a: nat, b: nat)
    requires a <= b
    ensures Pow2(a) <= Pow2(b)
  {
    if a < b {
      Pow2Monotone(a, b - 1);
    }
  }

  /** One more nibble multiplies by 16; eight nibbles make the 32-bit range. */
  lemma Pow2Nibbles(k: nat)
    ensures Pow2(4 * (k + 1)) == 16 * Pow2(4 * k)
    ensures Pow2(32) == 0x1_0000_0000
  {
    var a := 4 * k;
    assert 4 * (k + 1) == a + 4;
    assert Pow2(4) == 16;
    Pow2Add(a, 4);
    assert Pow2(a + 4) == Pow2(a) * 16;
    assert Pow2(8) == 256;
    Pow2Add(8, 8);
    assert Pow2(16) == 0x1_0000;
    Pow2Add(16, 16);
  }

  /** C's `|` on unsigned operands: bit k of the result is set when bit k of either operand is. */
  function BitOr(a: nat, b: nat): (r: nat)
    ensures a == 0 ==> r == b
    decreases a + b
  {
    if a == 0 && b == 0 then 0
    else 2 * BitOr(a / 2, b / 2) + (if a % 2 == 1 || b % 2 == 1 then 1 else 0)
  }

  /**
   * Or-ing a word below 2^k with a value shifted up by k bits touches no set
   * bit: `a | (d << k)` is `a + d * 2^k`.
   */
  lemma {:induction false} BitOrDisjoint(a: nat, d: nat, k: nat)
    requires a < Pow2(k)
    ensures BitOr(a, d * Pow2(k)) == a + d * Pow2(k)
  {
    if k > 0 {
      var b := d * Pow2(k);
      assert b == 2 * (d * Pow2(k - 1));
      assert b / 2 == d * Pow2(k - 1) && b % 2 == 0;
      BitOrDisjoint(a / 2, d, k - 1);
    }
  }

  lemma {:induction false} Pow2Add(a: nat, b: nat)
    ensures Pow2(a + b) == Pow2(a) * Pow2(b)
  {
    if a > 0 {
      Pow2Add(a - 1, b);
    }
  }
}
