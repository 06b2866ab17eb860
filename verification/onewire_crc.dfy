// esp8266/modonewire.c: the CRC of the 1-Wire bus.

// The checksum register on its own. The lemmas hold for bytes of any number of bits.
module OneWireRegister {

  // One turn of the inner loop.
  function BitStep(crc: bv8, byte: bv8): bv8 {
    if (crc ^ byte) & 1 == 1 then (((crc ^ 0x18) >> 1) & 0x7F) | 0x80 else (crc >> 1) & 0x7F
  }

  // k turns of it, the byte shifting along.
  function BitSteps(crc: bv8, byte: bv8, k: nat): bv8
    decreases k
  {
    if k == 0 then crc else BitSteps(BitStep(crc, byte), byte >> 1, k - 1)
  }

  // One step of the register when no input is left.
  function Shift(x: bv8): bv8 {
    if x & 1 == 1 then (x >> 1) ^ 0x8C else x >> 1
  }

  function ShiftBy(x: bv8, k: nat): bv8
    decreases k
  {
    if k == 0 then x else ShiftBy(Shift(x), k - 1)
  }

  function Unshift(y: bv8): bv8 {
    if y & 0x80 != 0 then ((y ^ 0x8C) << 1) | 1 else y << 1
  }

  function UnshiftBy(y: bv8, k: nat): bv8
    decreases k
  {
    if k == 0 then y else Unshift(UnshiftBy(y, k - 1))
  }

  function Rest(byte: bv8, k: nat): bv8
    decreases k
  {
    if k == 0 then byte else Rest(byte >> 1, k - 1)
  }

  // Eight turns use up a byte.
  lemma NoBitsLeft(byte: bv8)
    ensures Rest(byte, 8) == 0
  {
    var a := byte >> 1; var b := a >> 1; var c := b >> 1; var d := c >> 1;
    assert Rest(byte, 8) == Rest(a, 7) == Rest(b, 6) == Rest(c, 5) == Rest(d, 4);
    var e := d >> 1; var f := e >> 1; var g := f >> 1;
    assert Rest(d, 4) == Rest(e, 3) == Rest(f, 2) == Rest(g, 1) == Rest(g >> 1, 0);
  }

  lemma StepIsShift(crc: bv8, byte: bv8)
    ensures BitStep(crc, byte) ^ (byte >> 1) == Shift(crc ^ byte)
  {
  }

  // The inner loop depends only on crc ^ byte.
  lemma {:induction false} StepsAreShifts(crc: bv8, byte: bv8, k: nat)
    ensures BitSteps(crc, byte, k) ^ Rest(byte, k) == ShiftBy(crc ^ byte, k)
    decreases k
  {
    if k > 0 {
      StepIsShift(crc, byte);
      StepsAreShifts(BitStep(crc, byte), byte >> 1, k - 1);
    }
  }

  lemma ShiftUndone(x: bv8)
    ensures Unshift(Shift(x)) == x && Shift(Unshift(x)) == x
  {
  }

  // Any number of steps is a bijection.
  lemma {:induction false} ShiftByInjective(x: bv8, y: bv8, k: nat)
    ensures ShiftBy(x, k) == ShiftBy(y, k) <==> x == y
    decreases k
  {
    if k > 0 {
      ShiftUndone(x);
      ShiftUndone(y);
      ShiftByInjective(Shift(x), Shift(y), k - 1);
    }
  }

  lemma {:induction false} ShiftByOnto(y: bv8, k: nat)
    ensures ShiftBy(UnshiftBy(y, k), k) == y
    decreases k
  {
    if k > 0 {
      ShiftUndone(UnshiftBy(y, k - 1));
      ShiftByOnto(y, k - 1);
    }
  }

  lemma ShiftLinear(x: bv8, y: bv8)
    ensures Shift(x ^ y) == Shift(x) ^ Shift(y)
  {
  }

  lemma {:induction false} ShiftByLinear(x: bv8, y: bv8, sum: bv8, k: nat)
    requires sum == x ^ y
    ensures ShiftBy(sum, k) == ShiftBy(x, k) ^ ShiftBy(y, k)
    decreases k
  {
    if k > 0 {
      ShiftLinear(x, y);
      ShiftByLinear(Shift(x), Shift(y), Shift(sum), k - 1);
    }
  }

  lemma {:induction false} ShiftByZero(k: nat)
    ensures ShiftBy(0, k) == 0
  {
    if k > 0 {
      assert Shift(0) == 0;
      ShiftByZero(k - 1);
    }
  }

  // A byte taken in.
  function Take(crc: bv8, byte: bv8, k: nat): bv8 {
    ShiftBy(crc ^ byte, k)
  }

  lemma TakeInjective(c: bv8, c': bv8, a: bv8, b: bv8, k: nat)
    ensures a == b ==> (Take(c, a, k) == Take(c', b, k) <==> c == c')
    ensures c == c' ==> (Take(c, a, k) == Take(c', b, k) <==> a == b)
  {
    ShiftByInjective(c ^ a, c' ^ b, k);
    XorCancels(c, c', a);
    XorCancels(a, b, c);
  }

  lemma XorCancels(x: bv8, y: bv8, z: bv8)
    ensures x ^ z == y ^ z <==> x == y
    ensures z ^ x == z ^ y <==> x == y
  {
  }

  lemma TakeLinear(c: bv8, c': bv8, a: bv8, b: bv8, sum: bv8, more: bv8, k: nat)
    requires sum == c ^ c' && more == a ^ b
    ensures Take(sum, more, k) == Take(c, a, k) ^ Take(c', b, k)
  {
    XorSwap(c, c', a, b);
    ShiftByLinear(c ^ a, c' ^ b, sum ^ more, k);
  }

  lemma XorSwap(a: bv8, b: bv8, c: bv8, d: bv8)
    ensures (a ^ b) ^ (c ^ d) == (a ^ c) ^ (b ^ d)
  {
  }

  lemma TakeZeroIff(c: bv8, a: bv8, k: nat)
    ensures Take(c, a, k) == 0 <==> a == c
  {
    ShiftByInjective(c ^ a, 0, k);
    ShiftByZero(k);
    XorIsZero(c, a);
  }

  lemma XorIsZero(c: bv8, a: bv8)
    ensures c ^ a == 0 <==> a == c
  {
  }
}

module OneWireCrc {
  import opened OneWireRegister

  // The CRC of a message of bytes of k bits, byte after byte.
  function Crc(data: seq<bv8>, k: nat): bv8 {
    if data == [] then 0 else Take(Crc(data[..|data| - 1], k), data[|data| - 1], k)
  }

  // onewire_crc8
  method OnewireCrc8(data: seq<bv8>) returns (crc: bv8)
    ensures crc == Crc(data, 8)
  {
    crc := 0;
    var i := 0;
    while i < |data|
      invariant 0 <= i <= |data| && crc == Crc(data[..i], 8)
    {
      NextByte(data, i, 8);
      NoBitsLeft(data[i]);
      crc := CrcByte(crc, data[i], 8);
      i := i + 1;
    }
    assert data[..i] == data;
  }

  lemma NextByte(data: seq<bv8>, i: nat, k: nat)
    requires i < |data|
    ensures Crc(data[..i + 1], k) == Take(Crc(data[..i], k), data[i], k)
  {
    assert data[..i + 1][..i] == data[..i];
  }

  // Its inner loop, over the bits of one byte.
  method CrcByte(start: bv8, value: bv8, bits: nat) returns (crc: bv8)
    requires Rest(value, bits) == 0
    ensures crc == Take(start, value, bits)
  {
    crc := start;
    var byte, b := value, 0;
    while b < bits
      invariant 0 <= b <= bits && BitSteps(crc, byte, bits - b) == BitSteps(start, value, bits)
    {
      var fbBit := (crc ^ byte) & 1;
      if fbBit == 1 {
        crc := crc ^ 0x18;
      }
      crc := (crc >> 1) & 0x7F;
      if fbBit == 1 {
        crc := crc | 0x80;
      }
      byte := byte >> 1;
      b := b + 1;
    }
    StepsAreShifts(start, value, bits);
    XorIsZero(BitSteps(start, value, bits), Take(start, value, bits));
  }

  // ---------- what the CRC detects ----------

  // After equal bytes, different registers stay different and equal ones equal.
  lemma {:induction false} SameTail(m: seq<bv8>, n: seq<bv8>, i: nat, k: nat)
    requires |m| == |n| && i <= |m| && m[i..] == n[i..]
    ensures Crc(m, k) == Crc(n, k) <==> Crc(m[..i], k) == Crc(n[..i], k)
    decreases |m| - i
  {
    if i == |m| {
      assert m[..i] == m && n[..i] == n;
    } else {
      assert m[i] == m[i..][0] == n[i..][0] == n[i];
      assert m[i + 1..] == m[i..][1..] == n[i..][1..] == n[i + 1..];
      SameTail(m, n, i + 1, k);
      NextByte(m, i, k);
      NextByte(n, i, k);
      TakeInjective(Crc(m[..i], k), Crc(n[..i], k), m[i], n[i], k);
    }
  }

  // Two messages of one length that differ in exactly one byte have different CRCs.
  lemma OneByteDetected(m: seq<bv8>, n: seq<bv8>, i: nat, k: nat)
    requires |m| == |n| && i < |m| && m[i] != n[i]
    requires m[..i] == n[..i] && m[i + 1..] == n[i + 1..]
    ensures Crc(m, k) != Crc(n, k)
  {
    SameTail(m, n, i + 1, k);
    NextByte(m, i, k);
    NextByte(n, i, k);
    TakeInjective(Crc(m[..i], k), Crc(n[..i], k), m[i], n[i], k);
  }

  function Xor(m: seq<bv8>, n: seq<bv8>): (r: seq<bv8>)
    requires |m| == |n|
    ensures |r| == |m|
  {
    if m == [] then [] else Xor(m[..|m| - 1], n[..|n| - 1]) + [m[|m| - 1] ^ n[|n| - 1]]
  }

  lemma XorLast(m: seq<bv8>, n: seq<bv8>)
    requires |m| == |n| && m != []
    ensures var l := |m| - 1; Xor(m, n)[..l] == Xor(m[..l], n[..l]) && Xor(m, n)[l] == m[l] ^ n[l]
  {
  }

  // The CRC of the xor of two messages is the xor of their CRCs.
  lemma {:induction false} CrcLinear(m: seq<bv8>, n: seq<bv8>, k: nat)
    requires |m| == |n|
    ensures Crc(Xor(m, n), k) == Crc(m, k) ^ Crc(n, k)
  {
    if m != [] {
      var l := |m| - 1;
      CrcLinear(m[..l], n[..l], k);
      XorLast(m, n);
      TakeLinear(Crc(m[..l], k), Crc(n[..l], k), m[l], n[l], Crc(Xor(m[..l], n[..l]), k), Xor(m, n)[l], k);
    }
  }

  // A message followed by its own CRC, and by no other byte, has CRC zero.
  lemma AppendedIff(m: seq<bv8>, c: bv8, k: nat)
    ensures Crc(m + [c], k) == 0 <==> c == Crc(m, k)
  {
    assert (m + [c])[..|m|] == m;
    TakeZeroIff(Crc(m, k), c, k);
  }
}
