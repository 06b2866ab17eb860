// extmod/modujson.c: the digits of a \u escape in the operations on bits that the source uses.

module JsonBits {
  import opened JsonText

  // Bit i of a number.
  predicate Bit(x: nat, i: nat) {
    if i == 0 then x % 2 == 1 else Bit(x / 2, i - 1)
  }

  lemma {:induction false} BitOrBits(a: nat, b: nat, i: nat)
    ensures Bit(BitOr(a, b), i) <==> Bit(a, i) || Bit(b, i)
    decreases i
  {
    var r := BitOr(a, b);
    if a == 0 { NoBits(i); } else if b == 0 { NoBits(i); }
    else {
      var low := if a % 2 == 1 || b % 2 == 1 then 1 else 0;
      assert r == 2 * BitOr(a / 2, b / 2) + low;
      assert r / 2 == BitOr(a / 2, b / 2) && r % 2 == low;
      if i > 0 { BitOrBits(a / 2, b / 2, i - 1); }
    }
  }

  lemma {:induction false} NoBits(i: nat)
    ensures !Bit(0, i)
  {
    if i > 0 { NoBits(i - 1); }
  }

  lemma ShiftInBits(num: nat, c: Byte, i: nat)
    ensures Bit(ShiftIn(num, c), i) <==> (i >= 4 && Bit(num, i - 4)) || Bit(c, i)
  {
    BitOrBits(16 * num, c, i);
    if i >= 4 {
      assert Bit(16 * num, i) == Bit(8 * num, i - 1) == Bit(4 * num, i - 2) == Bit(2 * num, i - 3) == Bit(num, i - 4);
    } else if i > 0 {
      assert Bit(16 * num, i) == Bit(8 * num, i - 1);
      if i > 1 { assert Bit(8 * num, i - 1) == Bit(4 * num, i - 2); }
      if i > 2 { assert Bit(4 * num, i - 2) == Bit(2 * num, i - 3); }
    }
  }

  // The byte arithmetic of the source on one digit, wrapping at 8 bits.
  function HexByte(c: bv8): bv8 {
    var d := (c | 0x20) - 0x30;
    if d > 9 then d - 39 else d
  }

  lemma OrIs(c: bv8)
    ensures (c | 0x20) as int == OrBit5(c as int)
  {
  }

  lemma HexDigitBytes(c: bv8)
    ensures HexDigit(c as int) == HexByte(c) as int
  {
    OrIs(c);
  }

  lemma {:induction false} BitOrBelow(a: nat, b: nat, k: nat)
    requires a < Power(k) && b < Power(k)
    ensures BitOr(a, b) < Power(k)
  {
    if a != 0 && b != 0 {
      BitOrBelow(a / 2, b / 2, k - 1);
    }
  }

  function Power(k: nat): (p: nat)
    ensures p > 0
  {
    if k == 0 then 1 else 2 * Power(k - 1)
  }

  lemma ShiftInBelow(num: nat, c: Byte, k: nat)
    requires k >= 4 && num < Power(k)
    ensures ShiftIn(num, c) < Power(k + 4)
  {
    assert Power(k + 4) == 2 * Power(k + 3) == 4 * Power(k + 2) == 8 * Power(k + 1) == 16 * Power(k);
    ByteBelow(k);
    BitOrBelow(16 * num, c, k + 4);
  }

  lemma {:induction false} ByteBelow(k: nat)
    requires k >= 4
    ensures Power(k + 4) >= 256
  {
    if k == 4 {
      assert Power(8) == 2 * Power(7) == 4 * Power(6) == 8 * Power(5) == 16 * Power(4);
      assert Power(4) == 2 * Power(3) == 4 * Power(2) == 8 * Power(1);
    } else {
      ByteBelow(k - 1);
    }
  }

  // Whatever follows a \u, the number made of it has at most 20 bits.
  lemma EscapeBelow(r: seq<Byte>)
    ensures EscapeDigits(r, ESCAPE_DIGITS, 0).0 < Power(20) == 0x10_0000
  {
    var r1 := Next(r); var r2 := Next(r1); var r3 := Next(r2);
    var n1 := ShiftIn(0, HexDigit(Cur(r1)));
    var n2 := ShiftIn(n1, HexDigit(Cur(r2)));
    var n3 := ShiftIn(n2, HexDigit(Cur(r3)));
    assert EscapeDigits(r, 4, 0) == EscapeDigits(r1, 3, n1) == EscapeDigits(r2, 2, n2) == EscapeDigits(r3, 1, n3);
    ShiftInBelow(0, HexDigit(Cur(r1)), 4);
    ShiftInBelow(n1, HexDigit(Cur(r2)), 8);
    ShiftInBelow(n2, HexDigit(Cur(r3)), 12);
    ShiftInBelow(n3, HexDigit(Cur(Next(r3))), 16);
    PowersOfTwo();
  }

  lemma PowersOfTwo()
    ensures Power(20) == 0x10_0000
  {
    assert Power(20) == 2 * Power(19) == 4 * Power(18) == 8 * Power(17) == 16 * Power(16);
    assert Power(16) == 2 * Power(15) == 4 * Power(14) == 8 * Power(13) == 16 * Power(12);
    assert Power(12) == 2 * Power(11) == 4 * Power(10) == 8 * Power(9) == 16 * Power(8);
    assert Power(8) == 2 * Power(7) == 4 * Power(6) == 8 * Power(5) == 16 * Power(4);
    assert Power(4) == 2 * Power(3) == 4 * Power(2) == 8 * Power(1);
  }
}
