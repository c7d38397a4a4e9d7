/** 16-bit colour components, as the colour query reports them: a component is
    an `Int` ordered by its value, and three constructors widen a 4-, 8- or
    12-bit channel (one, two or three hexadecimal digits) to the 16-bit range.

    The constructors are given as the code computes them (`Value4Bit`,
    `Value8Bit`, `Value12Bit`) and, beside them, the nibble replication the
    component tests expect (`Replicated4Bit`, `Replicated8Bit`,
    `Replicated12Bit`), which the corrected colour parser uses. */
module Colors {
  import opened Bitwise
  import opened Text

  datatype Component = Component(rawValue: int)

  /** `<` on components compares their raw values; it never holds both ways. */
  predicate Less(l: Component, r: Component): (b: bool)
    ensures b ==> !(r.rawValue < l.rawValue) && l != r
  {
    l.rawValue < r.rawValue
  }

  /** Red, green, blue and alpha, each defaulting to 0. */
  datatype RGBAColor16 = RGBAColor16(r: Component, g: Component, b: Component, a: Component)

  /** `RGBAColor16()`: every channel 0, alpha included. */
  const DefaultColor: RGBAColor16 := RGBAColor16(Component(0), Component(0), Component(0), Component(0))

  /** The largest value a 16-bit channel documents. */
  const Max16: int := 0xFFFF

  /** The order on components is a strict total order, and two components with
      equal raw values are the same component. */
  lemma LessIsStrictTotalOrder(a: Component, b: Component, c: Component)
    ensures !Less(a, a)
    ensures Less(a, b) && Less(b, c) ==> Less(a, c)
    ensures Less(a, b) || a == b || Less(b, a)
    ensures Less(a, b) ==> !Less(b, a) && a != b
  {
  }

  // ---------------------------------------------------------------------------
  // The constructors as written

  /** `init(value4bit:)`: the fourth power of the value, never negative and
      zero only for zero. */
  function Value4Bit(v: Int64): (c: Component)
    ensures 0 <= c.rawValue && (c.rawValue == 0 <==> v == 0)
  {
    Square(v);
    Square(v * v);
    assert v * v * v * v == (v * v) * (v * v);
    Component(v * v * v * v)
  }

  /** `init(value8bit:)`: the square of the value, never negative and zero only
      for zero. */
  function Value8Bit(v: Int64): (c: Component)
    ensures 0 <= c.rawValue && (c.rawValue == 0 <==> v == 0)
  {
    Square(v);
    Component(v * v)
  }

  /** `init(value12bit:)`: `(value << 4) & (value | 0xf)` on a 64-bit `Int`.
      Whatever the input, negative ones included, the lowest hexadecimal digit
      of the result is zero. */
  function Value12Bit(v: Int64): (c: Component)
    ensures c.rawValue % 16 == 0
  {
    var u := Unsigned(v);
    ShiftMaskLowNibble(u);
    Component(Signed(And(ShiftLeft4(u), Or(u, 0xF))))
  }

  /** A square is never negative and is zero only for zero. */
  lemma Square(v: int)
    ensures v * v >= 0 && (v * v == 0 <==> v == 0)
  {
    if v > 0 {
      MulSign(v, v);
    } else if v < 0 {
      MulSign(-v, -v);
      assert v * v == (-v) * (-v);
    }
  }

  /** A value shifted up one hexadecimal digit keeps a zero low digit through any mask. */
  lemma ShiftMaskLowNibble(u: nat)
    requires u < Two64
    ensures And(ShiftLeft4(u), Or(u, 0xF)) % 16 == 0
  {
    var shifted, mask := ShiftLeft4(u), Or(u, 0xF);
    var high := shifted / 16;
    assert shifted == 16 * high;
    AndShift4(high, mask);
    var r := And(shifted, mask);
    assert r == 16 * And(high, mask / 16);
    assert r % 16 == 0;
  }

  lemma Value4BitBound(v: Int64)
    requires 0 <= v <= 0xF
    ensures 0 <= Value4Bit(v).rawValue <= 15 * 15 * 15 * 15
  {
    var s := v * v;
    assert 0 <= s <= 225;
    assert v * v * v * v == s * s;
    assert s * s <= 225 * s <= 225 * 225;
  }

  lemma Value12BitBound(v: Int64)
    requires 0 <= v <= 0xFFF
    ensures 0 <= Value12Bit(v).rawValue <= v + 0xF
  {
    var u := Unsigned(v);
    assert And(ShiftLeft4(u), Or(u, 0xF)) <= Or(u, 0xF) <= v + 0xF;
  }

  lemma Value8BitBound(v: Int64)
    requires 0 <= v <= 0xFF
    ensures 0 <= Value8Bit(v).rawValue <= 0xFF * 0xFF
  {
    MulLe(v, 0xFF, v);
    MulLe(v, 0xFF, 0xFF);
  }

  /** On the documented inputs (0…F, 0…FF, 0…FFF) each constructor stays within
      the documented 16-bit range. */
  lemma ConstructorsInRange(v4: Int64, v8: Int64, v12: Int64)
    requires 0 <= v4 <= 0xF && 0 <= v8 <= 0xFF && 0 <= v12 <= 0xFFF
    ensures 0 <= Value4Bit(v4).rawValue <= Max16
    ensures 0 <= Value8Bit(v8).rawValue <= Max16
    ensures 0 <= Value12Bit(v12).rawValue <= Max16
  {
    Value4BitBound(v4);
    Value8BitBound(v8);
    Value12BitBound(v12);
  }

  /** Each constructor maps 0 to 0. */
  lemma ConstructorsKeepZero(v: Int64)
    requires v == 0
    ensures Value4Bit(v).rawValue == 0 && Value8Bit(v).rawValue == 0 && Value12Bit(v).rawValue == 0
  {
    assert Unsigned(v) == 0 && ShiftLeft4(0) == 0;
  }

  // ---------------------------------------------------------------------------
  // The constructors as the tests expect them: nibble replication

  /** A 4-bit value repeated in all four hexadecimal digits. */
  function Replicated4Bit(v: nat): (c: Component)
    requires v <= 0xF
    ensures 0 <= c.rawValue <= Max16
    ensures v == 0 <==> c.rawValue == 0
    ensures v == 0xF <==> c.rawValue == Max16
  {
    Component(v * 0x1111)
  }

  /** An 8-bit value repeated in the high and the low byte. */
  function Replicated8Bit(v: nat): (c: Component)
    requires v <= 0xFF
    ensures 0 <= c.rawValue <= Max16
    ensures v == 0 <==> c.rawValue == 0
    ensures v == 0xFF <==> c.rawValue == Max16
  {
    Component(v * 0x101)
  }

  /** A 12-bit value followed by a copy of its lowest digit. */
  function Replicated12Bit(v: nat): (c: Component)
    requires v <= 0xFFF
    ensures 0 <= c.rawValue <= Max16
    ensures v == 0 <==> c.rawValue == 0
    ensures v == 0xFFF <==> c.rawValue == Max16
  {
    Component(v * 16 + v % 16)
  }

  /** The hexadecimal rendering of a replicated component is the input's
      digits, repeated: `5` gives `5555`, `34` gives `3434`, `34b` gives `34bb`. */
  lemma Replicated4BitDigits(v: nat)
    requires v <= 0xF
    ensures HexDigits(Replicated4Bit(v).rawValue, 4) == HexDigits(v, 1) + HexDigits(v, 1) + HexDigits(v, 1) + HexDigits(v, 1)
  {
    DigitsOf4(v * 0x1111, v, v, v, v);
    DigitsOf1(v);
  }

  lemma Replicated8BitDigits(v: nat)
    requires v <= 0xFF
    ensures HexDigits(Replicated8Bit(v).rawValue, 4) == HexDigits(v, 2) + HexDigits(v, 2)
  {
    var a, b := v / 16, v % 16;
    assert v * 0x101 == 0x1000 * a + 0x100 * b + 0x10 * a + b;
    DigitsOf4(v * 0x101, a, b, a, b);
    DigitsOf2(v, a, b);
  }

  lemma Replicated12BitDigits(v: nat)
    requires v <= 0xFFF
    ensures HexDigits(Replicated12Bit(v).rawValue, 4) == HexDigits(v, 3) + HexDigits(v % 16, 1)
  {
    var t, c := v / 16, v % 16;
    var a, b := t / 16, t % 16;
    assert v == 16 * t + c;
    assert t == 16 * a + b;
    assert a < 16;
    var r := Replicated12Bit(v).rawValue;
    assert r == 0x1000 * a + 0x100 * b + 0x10 * c + c;
    DigitsOf4(r, a, b, c, c);
    DigitsOf3(v, a, b, c);
    DigitsOf1(c);
  }

  /** The digits of a number given by its digits. */
  lemma DigitsOf4(r: nat, a: nat, b: nat, c: nat, d: nat)
    requires a < 16 && b < 16 && c < 16 && d < 16
    requires r == 0x1000 * a + 0x100 * b + 0x10 * c + d
    ensures HexDigits(r, 4) == [HexDigit(a), HexDigit(b), HexDigit(c), HexDigit(d)]
  {
    DivModUnique(r, 16, 0x100 * a + 0x10 * b + c, d);
    DigitsOf3(r / 16, a, b, c);
  }

  lemma DigitsOf3(r: nat, a: nat, b: nat, c: nat)
    requires a < 16 && b < 16 && c < 16
    requires r == 0x100 * a + 0x10 * b + c
    ensures HexDigits(r, 3) == [HexDigit(a), HexDigit(b), HexDigit(c)]
  {
    DivModUnique(r, 16, 0x10 * a + b, c);
    DigitsOf2(r / 16, a, b);
  }

  lemma DigitsOf2(r: nat, a: nat, b: nat)
    requires a < 16 && b < 16
    requires r == 0x10 * a + b
    ensures HexDigits(r, 2) == [HexDigit(a), HexDigit(b)]
  {
    DivModUnique(r, 16, a, b);
    DigitsOf1(a);
  }

  lemma DigitsOf1(a: nat)
    requires a < 16
    ensures HexDigits(a, 1) == [HexDigit(a)]
  {
  }

  /** Replication keeps the order of the inputs, so distinct channel values stay distinct. */
  lemma ReplicatedStrictlyMonotone(v: nat, w: nat)
    requires v < w
    ensures w <= 0xF ==> Less(Replicated4Bit(v), Replicated4Bit(w))
    ensures w <= 0xFF ==> Less(Replicated8Bit(v), Replicated8Bit(w))
    ensures w <= 0xFFF ==> Less(Replicated12Bit(v), Replicated12Bit(w))
  {
  }

  /** The component test table, computed by the replicating constructors. */
  lemma ReplicatedMatchesTable()
    ensures Replicated4Bit(0x0).rawValue == 0x0000 && Replicated4Bit(0x5).rawValue == 0x5555
    ensures Replicated4Bit(0xA).rawValue == 0xAAAA && Replicated4Bit(0xF).rawValue == 0xFFFF
    ensures Replicated8Bit(0x00).rawValue == 0x0000 && Replicated8Bit(0x34).rawValue == 0x3434
    ensures Replicated8Bit(0x55).rawValue == 0x5555 && Replicated8Bit(0x96).rawValue == 0x9696
    ensures Replicated8Bit(0xFF).rawValue == 0xFFFF
    ensures Replicated12Bit(0x000).rawValue == 0x0000 && Replicated12Bit(0x34B).rawValue == 0x34BB
    ensures Replicated12Bit(0x555).rawValue == 0x5555 && Replicated12Bit(0x962).rawValue == 0x9622
    ensures Replicated12Bit(0xFFF).rawValue == 0xFFFF
  {
  }

  // ---------------------------------------------------------------------------
  // Where the two disagree

  /** On the documented inputs the constructors as written agree with replication
      only at zero. */
  lemma Value4BitAgreesOnlyAtZero(v: Int64)
    requires 0 <= v <= 0xF
    ensures Value4Bit(v) == Replicated4Bit(v) <==> v == 0
  {
    if v > 0 {
      var s := v * v;
      assert s <= 15 * v;
      var c := s * v;
      assert c <= 225 * v <= 3375;
      assert v * v * v * v == c * v;
      assert c * v < 0x1111 * v;
    }
  }

  lemma Value8BitAgreesOnlyAtZero(v: Int64)
    requires 0 <= v <= 0xFF
    ensures Value8Bit(v) == Replicated8Bit(v) <==> v == 0
  {
    if v > 0 {
      MulSign(v - 0x101, v);
      assert v * v - 0x101 * v == (v - 0x101) * v;
    }
  }

  lemma Value12BitAgreesOnlyAtZero(v: Int64)
    requires 0 <= v <= 0xFFF
    ensures Value12Bit(v) == Replicated12Bit(v) <==> v == 0
  {
    Value12BitBound(v);
  }

  /** The inputs of the component test table, through the constructors as
      written: `5` gives 625 and `34` gives `a90`. */
  lemma SquaresOnTable()
    ensures Value4Bit(0x5).rawValue == 625 && Value4Bit(0xF).rawValue == 50625
    ensures Value8Bit(0x34).rawValue == 0x0A90 && Value8Bit(0xFF).rawValue == 0xFE01
  {
  }

  /** `value12bit` sends `34b` to 0, as it sends 0 there, and `962` to `20`. */
  lemma Value12BitOnTable(v: Int64, w: Int64)
    requires v == 0x34B && w == 0x962
    ensures Value12Bit(v).rawValue == 0 && Value12Bit(w).rawValue == 0x20
  {
    Value12BitIs(v);
    Value12BitIs(w);
    AndOnTable();
    assert v / 16 == 0x34 && w / 16 == 0x96;
  }

  /** `34b & 34` and `962 & 96`, one bit at a time from the top. */
  lemma AndOnTable()
    ensures And(0x34B, 0x34) == 0 && And(0x962, 0x96) == 2
  {
    assert And(0xD, 0) == 0;
    assert And(0x1A, 0x1) == 0;
    assert And(0x34, 0x3) == 0;
    assert And(0x69, 0x6) == 0;
    assert And(0xD2, 0xD) == 0;
    assert And(0x1A5, 0x1A) == 0;
    assert And(0x12, 0) == 0;
    assert And(0x25, 0x2) == 0;
    assert And(0x4B, 0x4) == 0;
    assert And(0x96, 0x9) == 0;
    assert And(0x12C, 0x12) == 0;
    assert And(0x258, 0x25) == 0;
    assert And(0x4B1, 0x4B) == 1;
  }

  /** On the documented inputs, `value12bit` is the value's digits anded with the
      value shifted one digit right, moved one digit up. */
  lemma Value12BitIs(v: Int64)
    requires 0 <= v <= 0xFFF
    ensures Value12Bit(v).rawValue == 16 * And(v, v / 16)
  {
    assert Unsigned(v) == v && ShiftLeft4(v) == 16 * v;
    OrLowDigit(v);
    var mask := Or(v, 0xF);
    assert mask / 16 == v / 16;
    AndShift4(v, mask);
    assert 16 * And(v, v / 16) <= 16 * 0xFFF;
  }
}
