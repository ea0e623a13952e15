/**
 * The bit operations the packed-field accessors use (`<<`, `|`, `&`, `>>`),
 * defined bit by bit on non-negative integers, with the facts that connect
 * them to multiplication and addition.
 */
module Bits {

  function Pow2(n: nat): (r: nat)
    ensures r >= 1
  {
    if n == 0 then 1 else 2 * Pow2(n - 1)
  }

  /** Bitwise AND of two non-negative integers. */
  function And(a: nat, b: nat): nat
    decreases a
  {
    if a == 0 || b == 0 then 0 else 2 * And(a / 2, b / 2) + (a % 2) * (b % 2)
  }

  /** Bitwise OR of two non-negative integers. */
  function Or(a: nat, b: nat): nat
    decreases a + b
  {
    if a == 0 then b
    else if b == 0 then a
    else 2 * Or(a / 2, b / 2) + (if a % 2 == 1 || b % 2 == 1 then 1 else 0)
  }

  /** `a << n` for a value that does not overflow: double n times. */
  function Shl(a: nat, n: nat): nat
  {
    if n == 0 then a else 2 * Shl(a, n - 1)
  }

  lemma {:induction false} ShlIsMul(a: nat, n: nat)
    ensures Shl(a, n) == a * Pow2(n)
  {
    if n > 0 {
      ShlIsMul(a, n - 1);
      DoubleMul(a, Pow2(n - 1));
    }
  }

  lemma DoubleMul(a: nat, b: nat)
    ensures a * (2 * b) == 2 * (a * b)
  {
  }

  /** `a >> n` on a non-negative value: drop the low n bits one at a time. */
  function Shr(a: nat, n: nat): nat
  {
    if n == 0 then a else Shr(a / 2, n - 1)
  }

  /**
   * Shifting right by k and masking with `2^k - 1` split a value into its
   * high and low parts: `(v >> k) * 2^k + (v & (2^k - 1)) == v`, and the low
   * part is below `2^k`.
   */
  lemma {:induction false} ShrAndSplit(v: nat, k: nat)
    ensures Shl(Shr(v, k), k) + And(v, Pow2(k) - 1) == v
    ensures And(v, Pow2(k) - 1) < Pow2(k)
  {
    if k == 0 {
    } else {
      var m := Pow2(k - 1);
      assert (2 * m - 1) / 2 == m - 1;
      assert (2 * m - 1) % 2 == 1;
      ShrAndSplit(v / 2, k - 1);
      var s := Shr(v / 2, k - 1);
      var low := And(v / 2, m - 1);
      assert v / 2 == Shl(s, k - 1) + low;
      if v == 0 {
        assert And(v, 2 * m - 1) == 0;
      } else {
        assert And(v, 2 * m - 1) == 2 * low + v % 2;
      }
    }
  }

  /** OR-ing a value below `2^k` into a value shifted left by k is addition. */
  lemma {:induction false} OrShifted(a: nat, b: nat, k: nat)
    requires b < Pow2(k)
    ensures Or(Shl(a, k), b) == Shl(a, k) + b
  {
    if k == 0 {
      assert b == 0;
    } else if a == 0 || b == 0 {
      ShlIsMul(a, k);
    } else {
      assert Shl(a, k) / 2 == Shl(a, k - 1);
      assert Shl(a, k) % 2 == 0;
      OrShifted(a, b / 2, k - 1);
    }
  }

  lemma Pow2Values()
    ensures Pow2(8) == 256 && Pow2(12) == 4096 && Pow2(16) == 65536 && Pow2(24) == 0x100_0000
  {
    assert Pow2(4) == 16;
    assert Pow2(8) == 256;
    assert Pow2(12) == 4096;
    assert Pow2(16) == 65536;
    assert Pow2(20) == 0x10_0000;
  }
}
