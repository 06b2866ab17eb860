// esp8266/modonewire.c: the CRC as polynomial division over the field of two elements.

module OneWirePolynomial {
  import opened OneWireRegister
  import opened OneWireCrc

  // The coefficient of x^k in the polynomial with coefficients p, lowest first.
  function Coefficient(p: seq<bool>, k: int): bool {
    0 <= k < |p| && p[k]
  }

  // The coefficient of x^k in p times x^8 + x^5 + x^4 + 1, the CRC of the bus.
  function TimesGenerator(p: seq<bool>, k: int): bool {
    (Coefficient(p, k - 8) != Coefficient(p, k - 5)) != (Coefficient(p, k - 4) != Coefficient(p, k))
  }

  // The bits of a byte, the last one to be sent first: they are sent lowest first.
  function ByteBits(b: bv8): seq<bool> {
    [b & 0x80 != 0, b & 0x40 != 0, b & 0x20 != 0, b & 0x10 != 0, b & 8 != 0, b & 4 != 0, b & 2 != 0, b & 1 != 0]
  }

  // The bits of a message as a polynomial, whose highest coefficient is the first bit sent.
  function Message(data: seq<bv8>): (p: seq<bool>)
    ensures |p| == 8 * |data|
  {
    if data == [] then [] else ByteBits(data[|data| - 1]) + Message(data[..|data| - 1])
  }

  // At x^k: message times x^8 is quotient times generator plus remainder.
  predicate DividesAt(message: seq<bool>, quotient: seq<bool>, remainder: seq<bool>, k: int) {
    Coefficient(message, k - 8) == (TimesGenerator(quotient, k) != Coefficient(remainder, k))
  }

  ghost predicate Divides(message: seq<bool>, quotient: seq<bool>, remainder: seq<bool>) {
    |remainder| == 8 && forall k :: DividesAt(message, quotient, remainder, k)
  }

  // The remainder moves up by one power of x, and takes in x^5 + x^4 + 1 if that makes x^8.
  function NextRemainder(r: seq<bool>, turn: bool): (s: seq<bool>)
    requires |r| == 8
  {
    [turn, r[0], r[1], r[2], r[3] != turn, r[4] != turn, r[5], r[6]]
  }

  // One more bit of the message.
  lemma BitDivides(message: seq<bool>, quotient: seq<bool>, r: seq<bool>, bit: bool, turn: bool)
    requires Divides(message, quotient, r) && turn == (r[7] != bit)
    ensures Divides([bit] + message, [turn] + quotient, NextRemainder(r, turn))
  {
    var m, q, s := [bit] + message, [turn] + quotient, NextRemainder(r, turn);
    forall k ensures DividesAt(m, q, s, k) {
      assert DividesAt(message, quotient, r, k - 1);
      Prepended(message, bit, k - 8);
      Prepended(quotient, turn, k - 8);
      Prepended(quotient, turn, k - 5);
      Prepended(quotient, turn, k - 4);
      Prepended(quotient, turn, k);
    }
  }

  lemma Prepended(p: seq<bool>, b: bool, k: int)
    ensures Coefficient([b] + p, k) == if k == 0 then b else Coefficient(p, k - 1)
  {
  }

  lemma StepBits(crc: bv8, byte: bv8)
    ensures var r := ByteBits(crc); ByteBits(BitStep(crc, byte)) == NextRemainder(r, r[7] != ByteBits(byte)[7])
  {
  }

  lemma NextBits(byte: bv8)
    ensures var r := ByteBits(byte); ByteBits(byte >> 1) == [false, r[0], r[1], r[2], r[3], r[4], r[5], r[6]]
  {
  }

  // The turns for the low k bits of a byte.
  lemma {:induction false} BitsDivide(message: seq<bool>, quotient: seq<bool>, crc: bv8, byte: bv8, k: nat)
    returns (q: seq<bool>)
    requires k <= 8 && Divides(message, quotient, ByteBits(crc))
    ensures |q| == |quotient| + k
    ensures Divides(ByteBits(byte)[8 - k..] + message, q, ByteBits(BitSteps(crc, byte, k)))
    decreases k
  {
    if k == 0 {
      q := quotient;
      assert ByteBits(byte)[8..] + message == message;
    } else {
      var r, bit := ByteBits(crc), ByteBits(byte)[7];
      var turn := r[7] != bit;
      StepBits(crc, byte);
      BitDivides(message, quotient, r, bit, turn);
      q := BitsDivide([bit] + message, [turn] + quotient, BitStep(crc, byte), byte >> 1, k - 1);
      NextBits(byte);
      LaterBits(ByteBits(byte), ByteBits(byte >> 1), message, k);
    }
  }

  lemma LaterBits(bits: seq<bool>, half: seq<bool>, message: seq<bool>, k: nat)
    requires |bits| == 8 && 0 < k <= 8
    requires half == [false, bits[0], bits[1], bits[2], bits[3], bits[4], bits[5], bits[6]]
    ensures half[9 - k..] + ([bits[7]] + message) == bits[8 - k..] + message
  {
    assert half == [false] + bits[..7];
  }

  lemma ByteDivides(message: seq<bool>, quotient: seq<bool>, crc: bv8, byte: bv8) returns (q: seq<bool>)
    requires Divides(message, quotient, ByteBits(crc))
    ensures |q| == |quotient| + 8
    ensures Divides(ByteBits(byte) + message, q, ByteBits(Take(crc, byte, 8)))
  {
    q := BitsDivide(message, quotient, crc, byte, 8);
    assert ByteBits(byte)[0..] == ByteBits(byte);
    TakeIsSteps(crc, byte);
  }

  lemma TakeIsSteps(crc: bv8, byte: bv8)
    ensures BitSteps(crc, byte, 8) == Take(crc, byte, 8)
  {
    StepsAreShifts(crc, byte, 8);
    NoBitsLeft(byte);
    XorIsZero(BitSteps(crc, byte, 8), Take(crc, byte, 8));
  }

  // The CRC of a message is its remainder, as a polynomial, modulo x^8 + x^5 + x^4 + 1.
  lemma {:induction false} CrcDivides(data: seq<bv8>) returns (q: seq<bool>)
    ensures |q| == 8 * |data| && Divides(Message(data), q, ByteBits(Crc(data, 8)))
  {
    if data == [] {
      q := [];
    } else {
      var n := |data| - 1;
      q := CrcDivides(data[..n]);
      q := ByteDivides(Message(data[..n]), q, Crc(data[..n], 8), data[n]);
    }
  }

  // From the top down, a quotient is determined.
  lemma {:induction false} QuotientUnique(
    message: seq<bool>, q: seq<bool>, q': seq<bool>, r: seq<bool>, r': seq<bool>, j: nat
  )
    requires |q| == |q'| && Divides(message, q, r) && Divides(message, q', r') && j <= |q|
    ensures q[j..] == q'[j..]
    decreases |q| - j
  {
    if j < |q| {
      QuotientUnique(message, q, q', r, r', j + 1);
      assert forall i :: j < i < |q| ==> q[i] == q[j + 1..][i - j - 1] == q'[j + 1..][i - j - 1] == q'[i];
      assert DividesAt(message, q, r, j + 8) && DividesAt(message, q', r', j + 8);
      assert q[j] == q'[j];
    }
  }

  // And no other byte is a remainder.
  lemma RemainderIff(data: seq<bv8>, crc: bv8)
    ensures crc == Crc(data, 8) <==> exists q :: |q| == 8 * |data| && Divides(Message(data), q, ByteBits(crc))
  {
    var q := CrcDivides(data);
    if q' :| |q'| == 8 * |data| && Divides(Message(data), q', ByteBits(crc)) {
      var r, r' := ByteBits(Crc(data, 8)), ByteBits(crc);
      QuotientUnique(Message(data), q, q', r, r', 0);
      assert q[0..] == q && q'[0..] == q';
      forall k | 0 <= k < 8 ensures r[k] == r'[k] {
        assert DividesAt(Message(data), q, r, k) && DividesAt(Message(data), q, r', k);
      }
      SameBits(crc, Crc(data, 8));
    }
  }

  lemma SameBits(a: bv8, b: bv8)
    requires ByteBits(a) == ByteBits(b)
    ensures a == b
  {
    var p, q := ByteBits(a), ByteBits(b);
    assert p[0] == q[0] && p[1] == q[1] && p[2] == q[2] && p[3] == q[3];
    assert p[4] == q[4] && p[5] == q[5] && p[6] == q[6] && p[7] == q[7];
  }
}
