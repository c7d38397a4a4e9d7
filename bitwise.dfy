/** Swift's 64-bit `Int` and the bitwise operators `&`, `|` and `<<` on it,
    written out on natural numbers: a value is read as its 64-bit two's
    complement pattern, operated on bit by bit, and read back as signed. */
module Bitwise {

  const Two64: nat := 0x1_0000_0000_0000_0000

  /** The range of Swift's `Int` on a 64-bit platform. */
  type Int64 = x: int | -0x8000_0000_0000_0000 <= x < 0x8000_0000_0000_0000

  /** Bitwise and of two bit patterns; it never exceeds either operand. */
  function And(a: nat, b: nat): (r: nat)
    ensures r <= a && r <= b
  {
    if a == 0 || b == 0 then 0
    else 2 * And(a / 2, b / 2) + (if a % 2 == 1 && b % 2 == 1 then 1 else 0)
  }

  /** Bitwise or of two bit patterns; it never exceeds their sum. */
  function Or(a: nat, b: nat): (r: nat)
    ensures r <= a + b
    decreases a + b
  {
    if a == 0 then b
    else if b == 0 then a
    else 2 * Or(a / 2, b / 2) + (if a % 2 == 1 || b % 2 == 1 then 1 else 0)
  }

  /** Or-ing in the low one, two, three or four bits sets them and keeps the rest. */
  lemma {:induction false} OrLowDigit(a: nat)
    ensures Or(a, 0x1) == 2 * (a / 2) + 0x1
    ensures Or(a, 0x3) == 4 * (a / 4) + 0x3
    ensures Or(a, 0x7) == 8 * (a / 8) + 0x7
    ensures Or(a, 0xF) == 16 * (a / 16) + 0xF
  {
    if a > 0 {
      var h := a / 2;
      OrLowDigit(h);
      assert h / 2 == a / 4;
      assert h / 4 == a / 8;
      assert h / 8 == a / 16;
    }
  }

  /** The two's complement bit pattern of an `Int`. */
  function Unsigned(v: Int64): (u: nat)
    ensures u < Two64
    ensures v >= 0 ==> u == v
  {
    v % Two64
  }

  /** The `Int` a 64-bit pattern stands for. */
  function Signed(u: nat): (v: Int64)
    requires u < Two64
    ensures v % 16 == u % 16
    ensures u < Two64 / 2 ==> v == u
  {
    if u < Two64 / 2 then u else u - Two64
  }

  /** `v << 4` on an `Int`: the top four bits are shifted out and discarded,
      the rest move up one hexadecimal digit. */
  function ShiftLeft4(u: nat): (r: nat)
    requires u < Two64
    ensures r < Two64 && r % 16 == 0
    ensures u < Two64 / 16 ==> r == 16 * u
  {
    16 * (u % (Two64 / 16))
  }

  /** Clearing the lowest bit of one operand shifts the conjunction. */
  lemma AndShift(a: nat, b: nat)
    ensures And(2 * a, b) == 2 * And(a, b / 2)
  {
  }

  /** Four low zero bits in one operand give four low zero bits in the conjunction. */
  lemma AndShift4(a: nat, b: nat)
    ensures And(16 * a, b) == 16 * And(a, b / 16)
  {
    var b2, b4, b8 := b / 2, b / 4, b / 8;
    assert b2 / 2 == b4 && b4 / 2 == b8 && b8 / 2 == b / 16;
    AndShift(8 * a, b);
    AndShift(4 * a, b2);
    AndShift(2 * a, b4);
    AndShift(a, b8);
    assert 2 * (8 * a) == 16 * a && 2 * (4 * a) == 8 * a && 2 * (2 * a) == 4 * a;
  }

  lemma MulSign(k: int, d: int)
    requires d > 0
    ensures k >= 1 ==> k * d >= d
    ensures k <= -1 ==> k * d <= -d
  {
    if k >= 1 {
      assert k * d == d + (k - 1) * d;
    } else if k <= -1 {
      assert k * d == -d + (k + 1) * d;
    }
  }

  lemma MulLe(a: int, b: int, c: int)
    requires 0 <= a <= b && c >= 0
    ensures a * c <= b * c
  {
    if c > 0 {
      assert b * c - a * c == (b - a) * c;
      MulSign(b - a, c);
    }
  }

  /** Quotient and remainder are the only pair that rebuilds the dividend. */
  lemma DivModUnique(r: int, d: int, q: int, m: int)
    requires d > 0 && r == q * d + m && 0 <= m < d
    ensures r / d == q && r % d == m
  {
    var q', m' := r / d, r % d;
    assert (q - q') * d == m' - m;
    MulSign(q - q', d);
  }
}
