/*
 * The bit-field codec of the interpreter (src/main.c, get_bits and sign_extend),
 * together with the 32-bit unsigned arithmetic of C's uint32_t that the rest of
 * the model uses.
 *
 * A uint32_t is modelled as an integer in [0, 2^32). C's unsigned operators are
 * written out: `+`, `-` and `<<` reduce modulo 2^32, `>>` is division by a power
 * of two, and `&`, `|`, `^` are defined bit by bit.
 */
module Bits {

  const WordModulus: int := 0x1_0000_0000

  /** The values of C's uint32_t. */
  type Word = w: int | 0 <= w < WordModulus

  function Pow2(n: nat): (r: nat)
    ensures r >= 1
  {
    if n == 0 then 1 else 2 * Pow2(n - 1)
  }

  /** Bit i of x (0 is the least significant bit). */
  function Bit(x: nat, i: nat): (r: nat)
    ensures r < 2
  {
    (x / Pow2(i)) % 2
  }

  // ---------------------------------------------------------------------------
  // C's uint32_t operators

  /** `a + b` on uint32_t. */
  function Add(a: Word, b: Word): Word
  {
    (a + b) % WordModulus
  }

  /** `a - b` on uint32_t. */
  function Sub(a: Word, b: Word): Word
  {
    (a - b) % WordModulus
  }

  /** `a << n` on uint32_t, for a shift amount C defines (n < 32). */
  function Shl(a: Word, n: nat): Word
    requires n < 32
  {
    (a * Pow2(n)) % WordModulus
  }

  /** `a >> n` on uint32_t. */
  function Shr(a: Word, n: nat): (r: Word)
    ensures r <= a
  {
    DivAtMost(a, Pow2(n));
    a / Pow2(n)
  }

  /** `a & b`, bit by bit. */
  function And(a: nat, b: nat): nat
  {
    if a == 0 || b == 0 then 0
    else 2 * And(a / 2, b / 2) + (if a % 2 == 1 && b % 2 == 1 then 1 else 0)
  }

  /** `a | b`, bit by bit. */
  function Or(a: nat, b: nat): nat
  {
    if a == 0 then b
    else if b == 0 then a
    else 2 * Or(a / 2, b / 2) + (if a % 2 == 1 || b % 2 == 1 then 1 else 0)
  }

  /** `a ^ b`, bit by bit. */
  function Xor(a: nat, b: nat): nat
  {
    if a == 0 then b
    else if b == 0 then a
    else 2 * Xor(a / 2, b / 2) + (a % 2 + b % 2) % 2
  }

  /** The conversion of a signed value to uint32_t: reduction modulo 2^32. */
  function ToWord(i: int): Word
  {
    i % WordModulus
  }

  /** The conversion of a uint32_t to int32_t (two's complement). */
  function Signed(w: Word): (r: int)
    ensures -0x8000_0000 <= r < 0x8000_0000
    ensures ToWord(r) == w
  {
    if w < 0x8000_0000 then w else w - WordModulus
  }

  lemma SignedOfToWord(i: int)
    requires -0x8000_0000 <= i < 0x8000_0000
    ensures Signed(ToWord(i)) == i
  {
  }

  // ---------------------------------------------------------------------------
  // get_bits and sign_extend (src/main.c:33-40)

  /** The arguments for which get_bits is defined C: the shift `x >> low` needs
      0 <= low < 32 and the mask `1u << (high - low + 1)` needs a width in [0, 32). */
  predicate GetBitsDefined(high: int, low: int)
  {
    0 <= low < 32 && 0 <= high - low + 1 < 32
  }

  /** get_bits: `(x >> low) & ((1u << (high - low + 1)) - 1u)`.
      The result is bits low..high of x, moved down to bit 0. */
  function GetBits(x: Word, high: int, low: int): (r: nat)
    requires GetBitsDefined(high, low)
    ensures r == (x / Pow2(low)) % Pow2(high - low + 1)
    ensures r < Pow2(high - low + 1)
  {
    AndLowMask(Shr(x, low), high - low + 1);
    And(Shr(x, low), Pow2(high - low + 1) - 1)
  }

  /** sign_extend: `(int32_t)((val ^ m) - m)` with `m = 1 << (bits - 1)`, the
      subtraction done on uint32_t. `1 << 31` overflows int, so bits <= 31. */
  function SignExtend(val: Word, bits: int): (r: int)
    requires 1 <= bits <= 31
    ensures val < Pow2(bits) ==>
              r == (if val < Pow2(bits - 1) then val else val - Pow2(bits))
  {
    var m := Pow2(bits - 1);
    SignExtendSteps(val, bits);
    Signed(Sub(Xor(val, m), m))
  }

  // ---------------------------------------------------------------------------
  // Lemmas

  lemma {:induction false} Pow2Monotone(a: nat, b: nat)
    requires a <= b
    ensures Pow2(a) <= Pow2(b)
    decreases b
  {
    if a < b {
      Pow2Monotone(a, b - 1);
    }
  }

  lemma Pow2Values()
    ensures Pow2(3) == 8 && Pow2(4) == 16 && Pow2(5) == 32 && Pow2(7) == 128
    ensures Pow2(11) == 2048 && Pow2(12) == 4096
    ensures Pow2(15) == 0x8000 && Pow2(20) == 0x10_0000 && Pow2(25) == 0x200_0000
    ensures Pow2(29) == 0x2000_0000 && Pow2(31) == 0x8000_0000 && Pow2(32) == WordModulus
  {
  }

  lemma MulAtLeast(p: int, a: int)
    requires p > 0 && a >= 1
    ensures p * a >= p
  {
  }

  lemma MulAtLeastSelf(p: int, a: int)
    requires p >= 1 && a >= 0
    ensures p * a >= a
  {
  }

  lemma DivAtMost(x: nat, p: nat)
    requires p >= 1
    ensures 0 <= x / p <= x
  {
    DivModUnique(x, p, x / p, x % p);
    MulAtLeastSelf(p, x / p);
  }

  /** Splitting x at a multiple of p. */
  lemma DivModUnique(x: int, p: int, q: int, r: int)
    requires p > 0 && 0 <= r < p && x == p * q + r
    ensures x / p == q && x % p == r
  {
    var q', r' := x / p, x % p;
    assert x == p * q' + r';
    if q > q' {
      MulAtLeast(p, q - q');
      assert false;
    } else if q < q' {
      MulAtLeast(p, q' - q);
      assert false;
    }
  }

  /** y % (2q) is made of bit 0 of y and (y / 2) % q. */
  lemma ModDouble(y: nat, q: nat)
    requires q > 0
    ensures y % (2 * q) == 2 * ((y / 2) % q) + y % 2
  {
    var h := y / 2;
    var k := h / q;
    var s := h % q;
    assert y == 2 * q * k + (2 * s + y % 2);
    DivModUnique(y, 2 * q, k, 2 * s + y % 2);
  }

  /** Dividing twice. */
  lemma DivDiv(x: nat, a: nat, b: nat)
    requires a > 0 && b > 0
    ensures x / a / b == x / (a * b)
  {
    var q := x / (a * b);
    var r := x % (a * b);
    var r1 := r / a;
    assert r == a * r1 + r % a;
    assert r1 < b;
    assert x == a * (b * q + r1) + r % a;
    DivModUnique(x, a, b * q + r1, r % a);
    DivModUnique(x / a, b, q, r1);
  }

  /** One bit of `y & (2^w - 1)`. */
  lemma AndMaskUnfold(y: nat, w: nat)
    requires w > 0 && y > 0
    ensures And(y, Pow2(w) - 1) == 2 * And(y / 2, Pow2(w - 1) - 1) + y % 2
  {
    var q := Pow2(w - 1);
    var m := Pow2(w) - 1;
    assert m == 2 * q - 1;
    DivModUnique(m, 2, q - 1, 1);
  }

  /** Masking with 2^w - 1 keeps the low w bits. */
  lemma {:induction false} AndLowMask(y: nat, w: nat)
    ensures And(y, Pow2(w) - 1) == y % Pow2(w)
  {
    if w == 0 {
      DivModUnique(y, 1, y, 0);
    } else if y == 0 {
      DivModUnique(0, Pow2(w), 0, 0);
    } else {
      var q := Pow2(w - 1);
      assert Pow2(w) == 2 * q;
      AndMaskUnfold(y, w);
      AndLowMask(y / 2, w - 1);
      ModDouble(y, q);
    }
  }

  /** The bitwise operators keep uint32_t operands within uint32_t. */
  lemma BitwiseInRange(a: Word, b: Word)
    ensures And(a, b) < WordModulus && Or(a, b) < WordModulus && Xor(a, b) < WordModulus
  {
    Pow2Values();
    AndBound(a, b, 32);
    OrBound(a, b, 32);
    XorBound(a, b, 32);
  }

  lemma {:induction false} AndBound(a: nat, b: nat, n: nat)
    requires a < Pow2(n) && b < Pow2(n)
    ensures And(a, b) < Pow2(n)
  {
    if a != 0 && b != 0 {
      AndBound(a / 2, b / 2, n - 1);
    }
  }

  lemma {:induction false} OrBound(a: nat, b: nat, n: nat)
    requires a < Pow2(n) && b < Pow2(n)
    ensures Or(a, b) < Pow2(n)
  {
    if a != 0 && b != 0 {
      OrBound(a / 2, b / 2, n - 1);
    }
  }

  lemma {:induction false} XorBound(a: nat, b: nat, n: nat)
    requires a < Pow2(n) && b < Pow2(n)
    ensures Xor(a, b) < Pow2(n)
  {
    if a != 0 && b != 0 {
      XorBound(a / 2, b / 2, n - 1);
    }
  }

  lemma BitOfHalf(x: nat, i: nat)
    ensures Bit(x, i + 1) == Bit(x / 2, i)
  {
    DivDiv(x, 2, Pow2(i));
  }

  /** Flipping a single bit: `v ^ (1 << k)` adds or removes 2^k. */
  lemma {:induction false} XorPow2(v: nat, k: nat)
    ensures Xor(v, Pow2(k)) == if Bit(v, k) == 1 then v - Pow2(k) else v + Pow2(k)
  {
    if k == 0 {
      assert Bit(v, 0) == v % 2;
      if v > 0 {
        assert Xor(v / 2, 0) == v / 2;
        assert Xor(v, 1) == 2 * (v / 2) + (v % 2 + 1) % 2;
      }
    } else if v > 0 {
      var p := Pow2(k - 1);
      assert Pow2(k) == 2 * p;
      DivModUnique(2 * p, 2, p, 0);
      assert Xor(v, Pow2(k)) == 2 * Xor(v / 2, p) + v % 2;
      XorPow2(v / 2, k - 1);
      BitOfHalf(v, k - 1);
    } else {
      assert Bit(0, k) == 0;
    }
  }

  /** Flipping the top bit of a field of the given width. */
  lemma XorTopBit(val: nat, bits: nat)
    requires 1 <= bits
    ensures val < Pow2(bits) ==>
              Xor(val, Pow2(bits - 1)) ==
              if val < Pow2(bits - 1) then val + Pow2(bits - 1) else val - Pow2(bits - 1)
  {
    var m := Pow2(bits - 1);
    XorPow2(val, bits - 1);
    if val < m {
      DivModUnique(val, m, 0, val);
    } else if val < 2 * m {
      DivModUnique(val, m, 1, val - m);
    }
  }

  /** The uint32_t steps of sign_extend on a field of the given width. */
  lemma SignExtendSteps(val: Word, bits: int)
    requires 1 <= bits <= 31
    ensures Pow2(bits - 1) < WordModulus && Xor(val, Pow2(bits - 1)) < WordModulus
    ensures val < Pow2(bits) ==>
              Signed((Xor(val, Pow2(bits - 1)) - Pow2(bits - 1)) % WordModulus) ==
              if val < Pow2(bits - 1) then val else val - Pow2(bits)
  {
    var m := Pow2(bits - 1);
    Pow2Monotone(bits, 31);
    Pow2Values();
    XorBound(val, m, 32);
    if val < Pow2(bits) {
      XorTopBit(val, bits);
      if val < m {
        DivModUnique(val, WordModulus, 0, val);
      } else {
        DivModUnique(val - 2 * m, WordModulus, -1, val - 2 * m + WordModulus);
      }
    }
  }
}
