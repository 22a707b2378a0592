/**
 * Unsigned machine integers and the bit-level operations the interpreter
 * uses on them: logical shift right, bitwise and/or/xor and single-bit
 * tests. Integers are unbounded here, so the widths of the source's `u8`
 * and `u16` are subset types and every operation is defined on naturals
 * one bit at a time, then proved to agree with division and remainder.
 */
module Bits {

  /** An unsigned 8-bit value (`u8`). */
  type Byte = b: int | 0 <= b < 0x100

  /** An unsigned 16-bit value (`u16`). */
  type Word = w: int | 0 <= w < 0x1_0000

  /** A 4-bit value (one hexadecimal digit). */
  type Nibble = n: int | 0 <= n < 0x10

  function Pow2(k: nat): (r: nat)
    ensures r > 0
  {
    if k == 0 then 1 else 2 * Pow2(k - 1)
  }

  /** The powers of two at nibble and byte boundaries. */
  lemma {:induction false} Pow2Values()
    ensures Pow2(4) == 0x10 && Pow2(7) == 0x80 && Pow2(8) == 0x100 && Pow2(12) == 0x1000
  {
    assert Pow2(0) == 1;
    assert Pow2(1) == 2;
    assert Pow2(2) == 4;
    assert Pow2(3) == 8;
    assert Pow2(4) == 0x10;
    assert Pow2(5) == 0x20;
    assert Pow2(6) == 0x40;
    assert Pow2(7) == 0x80;
    assert Pow2(8) == 0x100;
    assert Pow2(9) == 0x200;
    assert Pow2(10) == 0x400;
    assert Pow2(11) == 0x800;
  }

  /** Logical shift right by `k` places, one place at a time. */
  function Shr(x: nat, k: nat): nat
  {
    if k == 0 then x else Shr(x / 2, k - 1)
  }

  /** Bit `i` of `n`, counting from the least significant bit. */
  predicate Bit(n: nat, i: nat)
  {
    (n / Pow2(i)) % 2 == 1
  }

  function BitAnd(a: nat, b: nat): (r: nat)
    ensures r <= a && r <= b
  {
    if a == 0 || b == 0 then 0
    else 2 * BitAnd(a / 2, b / 2) + (if a % 2 == 1 && b % 2 == 1 then 1 else 0)
  }

  function BitOr(a: nat, b: nat): (r: nat)
    ensures forall k: nat {:trigger Pow2(k)} :: a < Pow2(k) && b < Pow2(k) ==> r < Pow2(k)
  {
    if a == 0 then b
    else if b == 0 then a
    else 2 * BitOr(a / 2, b / 2) + (if a % 2 == 1 || b % 2 == 1 then 1 else 0)
  }

  function BitXor(a: nat, b: nat): (r: nat)
    ensures forall k: nat {:trigger Pow2(k)} :: a < Pow2(k) && b < Pow2(k) ==> r < Pow2(k)
  {
    if a == 0 then b
    else if b == 0 then a
    else 2 * BitXor(a / 2, b / 2) + (if a % 2 != b % 2 then 1 else 0)
  }

  // ---------------------------------------------------------------------
  // Division facts used by the bit-level proofs.
  // ---------------------------------------------------------------------

  lemma {:induction false} MulAtLeast(k: int, d: int)
    requires k >= 1 && d > 0
    ensures k * d >= d
  {}

  /** Quotient and remainder are unique. */
  lemma {:induction false} DivUnique(a: int, d: int, q: int, r: int)
    requires d > 0 && 0 <= r < d && a == q * d + r
    ensures a / d == q && a % d == r
  {
    var q', r' := a / d, a % d;
    assert a == q' * d + r';
    assert (q - q') * d == r' - r;
    if q > q' {
      MulAtLeast(q - q', d);
    } else if q < q' {
      MulAtLeast(q' - q, d);
    }
  }

  /** Dividing by `b` and then by `c` is dividing by `b * c`. */
  lemma {:induction false} DivDiv(a: nat, b: nat, c: nat)
    requires b > 0 && c > 0
    ensures a / b / c == a / (b * c)
  {
    var q := a / b / c;
    var r := a / b % c;
    assert a / b == q * c + r;
    assert a == b * (a / b) + a % b;
    assert a == q * (b * c) + (b * r + a % b);
    assert b * r + a % b < b * c by {
      assert r <= c - 1;
      assert b * r <= b * (c - 1);
    }
    DivUnique(a, b * c, q, b * r + a % b);
  }

  /** A quotient (and any remainder of it) never exceeds the dividend. */
  lemma {:induction false} QuotientBounded(a: nat, d: nat, m: nat)
    requires d > 0 && m > 0
    ensures (a / d) % m <= a / d <= a
  {
    assert a == d * (a / d) + a % d;
    if a / d > 0 {
      MulAtLeast(d, a / d);
    }
  }

  /** Halving first and then dividing by `m` is dividing by `2m`. */
  lemma {:induction false} HalveThenDivide(a: nat, m: nat)
    requires m > 0
    ensures a / 2 / m == a / (2 * m)
    ensures a % (2 * m) == 2 * ((a / 2) % m) + a % 2
  {
    var q := a / 2 / m;
    var r := a / 2 % m;
    assert a / 2 == q * m + r;
    assert a == 2 * (a / 2) + a % 2;
    assert a == q * (2 * m) + (2 * r + a % 2);
    DivUnique(a, 2 * m, q, 2 * r + a % 2);
  }

  /** Bit `i + 1` of `n` is bit `i` of `n / 2`. */
  lemma {:induction false} BitOfHalf(n: nat, i: nat)
    ensures Bit(n, i + 1) == Bit(n / 2, i)
  {
    HalveThenDivide(n, Pow2(i));
  }

  // ---------------------------------------------------------------------
  // Shift and mask agree with division and remainder.
  // ---------------------------------------------------------------------

  /** Shifting right by `k` divides by 2^k. */
  lemma {:induction false} ShrIsDiv(x: nat, k: nat)
    ensures Shr(x, k) == x / Pow2(k)
  {
    if k > 0 {
      ShrIsDiv(x / 2, k - 1);
      HalveThenDivide(x, Pow2(k - 1));
    }
  }

  /** Masking with 2^k - 1 keeps the remainder modulo 2^k. */
  lemma {:induction false} AndLowMask(a: nat, k: nat)
    ensures BitAnd(a, Pow2(k) - 1) == a % Pow2(k)
  {
    if k == 0 {
      assert Pow2(k) - 1 == 0;
    } else if a > 0 {
      var m := Pow2(k - 1);
      var mask := Pow2(k) - 1;
      assert mask == 2 * (m - 1) + 1;
      DivUnique(mask, 2, m - 1, 1);
      calc {
        BitAnd(a, mask);
        2 * BitAnd(a / 2, m - 1) + a % 2;
        { AndLowMask(a / 2, k - 1); }
        2 * ((a / 2) % m) + a % 2;
        { HalveThenDivide(a, m); }
        a % Pow2(k);
      }
    }
  }

  // ---------------------------------------------------------------------
  // The bitwise operations act bit by bit.
  // ---------------------------------------------------------------------

  /** The bits of `2 * q + low`: `low` at bit 0, then the bits of `q`. */
  lemma {:induction false} BitsOfTwice(n: nat, q: nat, low: nat, i: nat)
    requires low < 2 && n == 2 * q + low
    ensures Bit(n, 0) == (low == 1)
    ensures i > 0 ==> Bit(n, i) == Bit(q, i - 1)
  {
    DivUnique(n, 2, q, low);
    if i > 0 {
      BitOfHalf(n, i - 1);
    }
  }

  /** Zero has no set bits. */
  lemma {:induction false} NoBitsOfZero(i: nat)
    ensures !Bit(0, i)
  {
    assert 0 / Pow2(i) == 0;
  }

  lemma {:induction false} BitAndBits(a: nat, b: nat, i: nat)
    ensures Bit(BitAnd(a, b), i) == (Bit(a, i) && Bit(b, i))
  {
    NoBitsOfZero(i);
    if a != 0 && b != 0 {
      var low := if a % 2 == 1 && b % 2 == 1 then 1 else 0;
      BitsOfTwice(BitAnd(a, b), BitAnd(a / 2, b / 2), low, i);
      BitsOfTwice(a, a / 2, a % 2, i);
      BitsOfTwice(b, b / 2, b % 2, i);
      if i > 0 {
        BitAndBits(a / 2, b / 2, i - 1);
      }
    }
  }

  lemma {:induction false} BitOrBits(a: nat, b: nat, i: nat)
    ensures Bit(BitOr(a, b), i) == (Bit(a, i) || Bit(b, i))
  {
    NoBitsOfZero(i);
    if a != 0 && b != 0 {
      var low := if a % 2 == 1 || b % 2 == 1 then 1 else 0;
      BitsOfTwice(BitOr(a, b), BitOr(a / 2, b / 2), low, i);
      BitsOfTwice(a, a / 2, a % 2, i);
      BitsOfTwice(b, b / 2, b % 2, i);
      if i > 0 {
        BitOrBits(a / 2, b / 2, i - 1);
      }
    }
  }

  lemma {:induction false} BitXorBits(a: nat, b: nat, i: nat)
    ensures Bit(BitXor(a, b), i) == (Bit(a, i) != Bit(b, i))
  {
    NoBitsOfZero(i);
    if a != 0 && b != 0 {
      var low := if a % 2 != b % 2 then 1 else 0;
      BitsOfTwice(BitXor(a, b), BitXor(a / 2, b / 2), low, i);
      BitsOfTwice(a, a / 2, a % 2, i);
      BitsOfTwice(b, b / 2, b % 2, i);
      if i > 0 {
        BitXorBits(a / 2, b / 2, i - 1);
      }
    }
  }
}
