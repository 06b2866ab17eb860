// extmod/machine_i2c.c: the bit-banged I2C master, and an observer of the two wires that
// knows only the bus protocol (UM10204, sections 3.1.3 to 3.1.6).

// What an observer reads off SCL and SDA.
module I2cBus {

  // The level of each wire: true is high.
  datatype Level = Level(scl: bool, sda: bool)

  // A byte comes with its acknowledge bit, high for NACK.
  datatype Item = Started | Transfer(v: nat, nack: bool) | Stopped

  datatype Sample = NoBit | Sampled(b: bool)

  // Broken: SDA moved together with a rising SCL, or START or STOP came inside a byte.
  datatype Observer = Observer(bus: Level, sample: Sample, bits: seq<bool>, items: seq<Item>, broken: bool)

  // The bus when nothing has happened yet.
  const QUIET := Observer(Level(true, true), NoBit, [], [], false)

  // While SCL is high, SDA falling is START and SDA rising is STOP; otherwise the level at
  // the rise of SCL is a bit, which counts once SCL falls again.
  function Observe(o: Observer, l: Level): Observer {
    if o.bus.scl && l.scl then
      if o.bus.sda == l.sda then o
      else Observer(l, NoBit, [], o.items + [if l.sda then Stopped else Started], o.broken || o.bits != [])
    else if l.scl then
      Observer(l, Sampled(l.sda), o.bits, o.items, o.broken || l.sda != o.bus.sda)
    else if o.bus.scl && o.sample.Sampled? then
      Counted(o.(bus := l, sample := NoBit), o.sample.b)
    else o.(bus := l, sample := NoBit)
  }

  // Eight bits, most significant first, and an acknowledge bit make an item.
  function Counted(o: Observer, b: bool): Observer {
    if |o.bits| < 8 then o.(bits := o.bits + [b])
    else o.(bits := [], items := o.items + [Transfer(Value(o.bits), b)])
  }

  // ---------- bytes ----------

  type Byte = x: nat | x < 256

  // v >> i
  function Shr(v: nat, i: nat): nat {
    if i == 0 then v else Shr(v / 2, i - 1)
  }

  // The k low bits, most significant first.
  function Bits(v: nat, k: nat): (r: seq<bool>)
    ensures |r| == k
  {
    if k == 0 then [] else Bits(v / 2, k - 1) + [v % 2 == 1]
  }

  function Value(bits: seq<bool>): nat {
    if bits == [] then 0 else 2 * Value(bits[..|bits| - 1]) + (if bits[|bits| - 1] then 1 else 0)
  }

  function Power(k: nat): nat { if k == 0 then 1 else 2 * Power(k - 1) }

  lemma {:induction false} ValueBits(v: nat, k: nat)
    requires v < Power(k)
    ensures Value(Bits(v, k)) == v
  {
    if k > 0 {
      ValueBits(v / 2, k - 1);
      assert Bits(v, k)[..k - 1] == Bits(v / 2, k - 1);
    }
  }

  function Weight(bit: bool, w: nat): nat {
    if bit then w else 0
  }

  lemma ValueNext(bits: seq<bool>, b: bool)
    ensures Value(bits + [b]) == 2 * Value(bits) + Weight(b, 1)
  {
    assert (bits + [b])[..|bits|] == bits;
  }

  lemma FourMore(bits: seq<bool>, a: bool, b: bool, c: bool, d: bool)
    ensures Value(bits + [a, b, c, d])
      == 16 * Value(bits) + Weight(a, 8) + Weight(b, 4) + Weight(c, 2) + Weight(d, 1)
  {
    var bits1 := bits + [a]; var bits2 := bits1 + [b]; var bits3 := bits2 + [c];
    assert bits + [a, b, c, d] == bits3 + [d];
    ValueNext(bits, a); ValueNext(bits1, b); ValueNext(bits2, c); ValueNext(bits3, d);
  }

  // The first of eight bits is the most significant one.
  lemma ByteValue(a: bool, b: bool, c: bool, d: bool, e: bool, f: bool, g: bool, h: bool)
    ensures Value([a, b, c, d] + [e, f, g, h]) == Weight(a, 128) + Weight(b, 64) + Weight(c, 32) + Weight(d, 16)
      + Weight(e, 8) + Weight(f, 4) + Weight(g, 2) + Weight(h, 1)
  {
    FourMore([], a, b, c, d);
    assert [] + [a, b, c, d] == [a, b, c, d];
    FourMore([a, b, c, d], e, f, g, h);
  }

  // Bit i, counted from the least significant one, is (v >> i) & 1.
  lemma {:induction false} BitIs(v: nat, k: nat, i: nat)
    requires i < k
    ensures Bits(v, k)[k - 1 - i] == (Shr(v, i) % 2 == 1)
  {
    if i > 0 { BitIs(v / 2, k - 1, i - 1); }
  }
}

// The master.
module I2cMaster {
  import opened I2cBus

  const ENODEV := 19
  const ETIMEDOUT := 110

  // ---------- the slave's side of a transaction, slot by slot ----------
  // A slot is one low phase of SCL, with the high phase after it. A byte takes nine slots.

  // The slots in which the slave leaves SDA high.
  type Wire = iset<nat>

  predicate High(slave: Wire, n: nat) {
    n in slave
  }

  // Whether the slave leaves SDA alone in the slots of a byte the master sends.
  predicate Listens(slave: Wire, n: nat) {
    forall s :: n <= s < n + 8 ==> High(slave, s)
  }

  function Levels(slave: Wire, n: nat, k: nat): (r: seq<bool>)
    ensures |r| == k
  {
    if k == 0 then [] else Levels(slave, n, k - 1) + [High(slave, n + k - 1)]
  }

  // The number the slave's first k bits make.
  function SlaveBits(slave: Wire, n: nat, k: nat): (v: nat)
    ensures v < Power(k)
  {
    if k == 0 then 0 else 2 * SlaveBits(slave, n, k - 1) + if High(slave, n + k - 1) then 1 else 0
  }

  // The byte a slave sends from slot n on.
  function SlaveByte(slave: Wire, n: nat): Byte {
    assert Power(8) == 256;
    SlaveBits(slave, n, 8)
  }

  lemma {:induction false} SlaveBitsAre(slave: Wire, n: nat, k: nat)
    ensures Bits(SlaveBits(slave, n, k), k) == Levels(slave, n, k)
  {
    if k > 0 { SlaveBitsAre(slave, n, k - 1); }
  }

  function SlaveBytes(slave: Wire, n: nat, k: nat): (r: seq<Byte>)
    ensures |r| == k
  {
    if k == 0 then [] else SlaveBytes(slave, n, k - 1) + [SlaveByte(slave, n + 9 * (k - 1))]
  }

  // Bytes sent one after the other, up to and including the first the slave does not acknowledge.
  function Sent(src: seq<Byte>, slave: Wire, n: nat): seq<Item> {
    if src == [] then []
    else [Transfer(src[0], High(slave, n + 8))] + if High(slave, n + 8) then [] else Sent(src[1..], slave, n + 9)
  }

  // Acknowledged bytes.
  function Acks(src: seq<Byte>, slave: Wire, n: nat): nat {
    if src == [] || High(slave, n + 8) then 0 else 1 + Acks(src[1..], slave, n + 9)
  }

  // The count is the length of the acknowledged prefix: those bytes went out in order with an
  // ACK, and if there is another byte it went out next, with a NACK, and nothing after it.
  lemma {:induction false} AckedPrefix(src: seq<Byte>, slave: Wire, n: nat)
    ensures var k, sent := Acks(src, slave, n), Sent(src, slave, n);
      && k <= |src| && |sent| == (if k < |src| then k + 1 else k)
      && forall j :: 0 <= j < |sent| ==> sent[j] == Transfer(src[j], j >= k)
  {
    if src != [] && !High(slave, n + 8) {
      AckedPrefix(src[1..], slave, n + 9);
    }
  }

  // Bytes read one after the other; the master acknowledges all but the last.
  function Received(slave: Wire, n: nat, done: nat, len: nat): seq<Item>
    requires done <= len
  {
    if done == 0 then []
    else Received(slave, n, done - 1, len) + [Transfer(SlaveByte(slave, n + 9 * (done - 1)), done == len)]
  }

  // Those are the bytes the caller gets, in order, and only the last one has a NACK.
  lemma {:induction false} ReceivedAre(slave: Wire, n: nat, done: nat, len: nat)
    requires done <= len
    ensures |Received(slave, n, done, len)| == done
    ensures forall j :: 0 <= j < done ==>
      Received(slave, n, done, len)[j] == Transfer(SlaveBytes(slave, n, done)[j], j == len - 1)
  {
    if done > 0 { ReceivedAre(slave, n, done - 1, len); }
  }

  // START and the address byte; a NACK makes the master give up.
  function Addressed(v: Byte, nack: bool): seq<Item> {
    [Started, Transfer(v, nack)] + if nack then [Stopped] else []
  }

  // The items of a whole transaction whose address byte starts in slot n.
  function WriteItems(addr: nat, src: seq<Byte>, stop: bool, slave: Wire, n: nat): seq<Item> {
    var head := Addressed((2 * addr) % 256, High(slave, n + 8));
    if High(slave, n + 8) then head else head + Sent(src, slave, n + 9) + if stop then [Stopped] else []
  }

  function ReadItems(addr: nat, len: nat, stop: bool, slave: Wire, n: nat): seq<Item> {
    var head := Addressed((2 * addr + 1) % 256, High(slave, n + 8));
    if High(slave, n + 8) then head else head + Received(slave, n + 9, len, len) + if stop then [Stopped] else []
  }

  // START, the address byte v, the bytes with their acknowledge bits, and STOP.
  predicate Transaction(items: seq<Item>, v: Byte, bytes: seq<Byte>, nacks: int -> bool, stop: bool) {
    && |items| == 2 + |bytes| + (if stop then 1 else 0)
    && items[0] == Started && items[1] == Transfer(v, false)
    && (forall j :: 0 <= j < |bytes| ==> items[2 + j] == Transfer(bytes[j], nacks(j)))
    && (stop ==> items[|items| - 1] == Stopped)
  }

  // A write whose address is refused is ended at once; otherwise the bytes go out up to the
  // first that is refused, and STOP follows if it was asked for.
  lemma WriteShape(addr: nat, src: seq<Byte>, stop: bool, slave: Wire, n: nat)
    ensures var items := WriteItems(addr, src, stop, slave, n);
      if High(slave, n + 8) then items == [Started, Transfer((2 * addr) % 256, true), Stopped]
      else
        var k := Acks(src, slave, n + 9);
        var sent := if k < |src| then src[..k + 1] else src;
        Transaction(items, (2 * addr) % 256, sent, (j: int) => j == k, stop)
  {
    AckedPrefix(src, slave, n + 9);
  }

  // A read acknowledges every byte but the last.
  lemma ReadShape(addr: nat, len: nat, stop: bool, slave: Wire, n: nat)
    ensures var items := ReadItems(addr, len, stop, slave, n);
      if High(slave, n + 8) then items == [Started, Transfer((2 * addr + 1) % 256, true), Stopped]
      else Transaction(items, (2 * addr + 1) % 256, SlaveBytes(slave, n + 9, len), (j: int) => j == len - 1, stop)
  {
    ReceivedAre(slave, n + 9, len, len);
  }

  // A 7-bit address and the direction, as the slave reads them from the first byte.
  lemma AddressByte(addr: nat)
    requires addr < 128
    ensures ((2 * addr) % 256) / 2 == addr && ((2 * addr) % 256) % 2 == 0
    ensures ((2 * addr + 1) % 256) / 2 == addr && ((2 * addr + 1) % 256) % 2 == 1
  {
  }

  lemma AddressSays(before: seq<Item>, addr: nat, items: seq<Item>, direction: nat)
    requires direction < 2 && |items| >= 2
    requires items[0] == Started && items[1].Transfer? && items[1].v == (2 * addr + direction) % 256
    ensures addr < 128 ==> FirstByteSays(before, before + items, addr, direction)
  {
    if addr < 128 { AddressByte(addr); }
  }

  lemma WriteSays(before: seq<Item>, addr: nat, src: seq<Byte>, stop: bool, slave: Wire, n: nat)
    ensures addr < 128 ==> FirstByteSays(before, before + WriteItems(addr, src, stop, slave, n), addr, 0)
  {
    AddressSays(before, addr, WriteItems(addr, src, stop, slave, n), 0);
  }

  lemma ReadSays(before: seq<Item>, addr: nat, len: nat, stop: bool, slave: Wire, n: nat)
    ensures addr < 128 ==> FirstByteSays(before, before + ReadItems(addr, len, stop, slave, n), addr, 1)
  {
    AddressSays(before, addr, ReadItems(addr, len, stop, slave, n), 1);
  }

  // The byte behind the next START is a 7-bit address and a direction bit.
  predicate FirstByteSays(before: seq<Item>, after: seq<Item>, addr: nat, direction: nat) {
    && |after| >= |before| + 2 && after[|before|] == Started && after[|before| + 1].Transfer?
    && after[|before| + 1].v / 2 == addr && after[|before| + 1].v % 2 == direction
  }

  // While len bytes are sent to it the slave drives SDA only in acknowledge slots; the slot
  // after the last byte, or after a NACK, is free for what the master does next.
  predicate Takes(slave: Wire, n: nat, len: nat)
    decreases len
  {
    if len == 0 then High(slave, n)
    else Listens(slave, n) && if High(slave, n + 8) then High(slave, n + 9) else Takes(slave, n + 9, len - 1)
  }

  // While it sends len bytes the slave leaves SDA alone in the acknowledge slots, and in the
  // slot after the last byte.
  predicate Gives(slave: Wire, n: nat, len: nat)
    decreases len
  {
    if len == 0 then High(slave, n) else High(slave, n + 8) && Gives(slave, n + 9, len - 1)
  }

  predicate Answers(slave: Wire, n: nat, len: nat) {
    Listens(slave, n) && if High(slave, n + 8) then High(slave, n + 9) else Gives(slave, n + 9, len)
  }

  class SoftI2c {
    var scl: bool
    var sda: bool
    const usTimeout: nat
    // The environment: when the slave leaves SDA high, and for how many polls it holds SCL low.
    const slave: Wire
    const stretch: imap<nat, nat>
    // Falls of SCL so far, and an observer who sees the bus after every pin operation.
    var slot: nat
    ghost var seen: Observer

    ghost predicate Valid()
      reads this
    {
      seen.bus == Level(scl, sda && High(slave, slot))
    }

    // No bit is being sampled.
    ghost predicate Settled()
      reads this
    {
      Valid() && seen.sample == NoBit && !seen.broken
    }

    ghost predicate Whole()
      reads this
    {
      Settled() && seen.bits == []
    }

    // Between transactions: idle, or SCL low after a transaction without a STOP.
    ghost predicate Between()
      reads this
    {
      Whole() && sda && High(slave, slot)
    }

    // The slave never holds SCL low long enough to time out.
    ghost predicate Patient() {
      usTimeout > 0 && forall s :: s in stretch ==> stretch[s] < usTimeout
    }

    function Polls(s: nat): nat {
      if s in stretch then stretch[s] else 0
    }

    constructor (slave: Wire, stretch: imap<nat, nat>, usTimeout: nat)
      requires High(slave, 0)
      ensures this.slave == slave && this.stretch == stretch && this.usTimeout == usTimeout
      ensures Between() && scl && slot == 0 && seen.items == []
    {
      this.slave, this.stretch, this.usTimeout := slave, stretch, usTimeout;
      scl, sda, slot := true, true, 0;
      seen := QUIET;
    }

    method SclLow()
      requires Valid()
      modifies this
      ensures Valid() && !scl && sda == old(sda) && slot == old(slot) + (if old(scl) then 1 else 0)
      ensures seen == Observe(old(seen), Level(false, sda && High(slave, slot)))
    {
      if scl {
        slot := slot + 1;
      }
      scl := false;
      seen := Observe(seen, Level(scl, sda && High(slave, slot)));
    }

    method SclRelease() returns (ret: int)
      requires Valid()
      modifies this
      ensures slot == old(slot) && sda == old(sda)
      ensures ret == if Polls(slot) < usTimeout then 0 else -ETIMEDOUT
      ensures ret == 0 ==> Valid() && scl && seen == Observe(old(seen), Level(true, sda && High(slave, slot)))
    {
      var count, polls := usTimeout, 0;
      scl := true;
      while polls < Polls(slot) && count > 0
        invariant polls + count == usTimeout && polls <= Polls(slot)
      {
        count := count - 1;
        polls := polls + 1;
      }
      seen := Observe(seen, Level(polls >= Polls(slot), sda && High(slave, slot)));
      if count == 0 {
        return -ETIMEDOUT;
      }
      return 0;
    }

    method SetSda(level: bool)
      requires Valid()
      modifies this
      ensures Valid() && sda == level && scl == old(scl) && slot == old(slot)
      ensures seen == Observe(old(seen), Level(scl, sda && High(slave, slot)))
    {
      sda := level;
      seen := Observe(seen, Level(scl, sda && High(slave, slot)));
    }

    // mp_hal_i2c_start
    method Begin() returns (ret: int)
      requires Between()
      modifies this
      ensures ret <= 0 && (Patient() ==> ret == 0)
      ensures ret == 0 ==> Whole() && scl && !sda && slot == old(slot) && seen.items == old(seen).items + [Started]
    {
      SetSda(true);
      ret := SclRelease();
      if ret != 0 {
        return;
      }
      SetSda(false);
    }

    // mp_hal_i2c_stop
    method End() returns (ret: int)
      requires Whole() && !scl && High(slave, slot)
      modifies this
      ensures ret <= 0 && (Patient() ==> ret == 0)
      ensures ret == 0 ==> Between() && scl && slot == old(slot) && seen.items == old(seen).items + [Stopped]
    {
      SetSda(false);
      ret := SclRelease();
      if ret != 0 {
        sda := true;
        return;
      }
      SetSda(true);
    }

    // One clock pulse, and what SDA reads while SCL is high.
    method Pulse() returns (ret: int, bit: bool)
      requires Settled() && !scl
      modifies this
      ensures ret <= 0 && (Patient() ==> ret == 0)
      ensures ret == 0 ==> Settled() && !scl && sda == old(sda) && slot == old(slot) + 1
      ensures ret == 0 ==> bit == (sda && High(slave, old(slot)))
      ensures ret == 0 ==> seen.bits == (if |old(seen).bits| < 8 then old(seen).bits + [bit] else [])
      ensures ret == 0 ==>
        seen.items == old(seen).items + (if |old(seen).bits| < 8 then [] else [Transfer(Value(old(seen).bits), bit)])
    {
      ret := SclRelease();
      bit := sda && High(slave, slot);
      if ret != 0 {
        return;
      }
      SclLow();
    }

    // mp_hal_i2c_write_byte: 0 for ACK, 1 for NACK.
    method WriteByte(val: Byte) returns (ret: int)
      requires Whole() && (scl ==> !sda)
      requires Listens(slave, slot + if scl then 1 else 0)
      modifies this
      ensures Patient() ==> ret >= 0
      ensures var n := old(slot) + if old(scl) then 1 else 0; ret >= 0 ==>
        && Whole() && !scl && sda && slot == n + 9 && ret == (if High(slave, n + 8) then 1 else 0)
        && seen.items == old(seen).items + [Transfer(val, High(slave, n + 8))]
    {
      SclLow();
      ret := WriteBits(val);
      if ret != 0 {
        return;
      }
      var ack;
      SetSda(true);
      ret, ack := Pulse();
      if ret != 0 {
        return;
      }
      ret := if ack then 1 else 0;
      assert Power(8) == 256;
      ValueBits(val, 8);
    }

    // Its loop.
    method WriteBits(val: Byte) returns (ret: int)
      requires Whole() && !scl && Listens(slave, slot)
      modifies this
      ensures ret <= 0 && (Patient() ==> ret == 0)
      ensures ret == 0 ==> Settled() && !scl && slot == old(slot) + 8
      ensures ret == 0 ==> seen.bits == Bits(val, 8) && seen.items == old(seen).items
    {
      ghost var n, bits := slot, Bits(val, 8);
      var i: int, bit := 7, false;
      while i >= 0
        invariant -1 <= i <= 7 && slot == n + 7 - i && seen.items == old(seen).items
        invariant Settled() && !scl && Listens(slave, n)
        invariant seen.bits == bits[..7 - i]
      {
        BitIs(val, 8, i);
        SetSda(Shr(val, i) % 2 == 1);
        ret, bit := Pulse();
        if ret != 0 {
          sda := true;
          return;
        }
        i := i - 1;
      }
      assert bits[..8] == bits;
      ret := 0;
    }

    // mp_hal_i2c_read_byte
    method ReadByte(nack: bool) returns (ret: int, val: Byte)
      requires Whole() && !scl && sda && High(slave, slot + 8)
      modifies this
      ensures ret <= 0 && (Patient() ==> ret == 0)
      ensures var n := old(slot); ret == 0 ==>
        && Whole() && !scl && sda && slot == n + 9 && val == SlaveByte(slave, n)
        && seen.items == old(seen).items + [Transfer(val, nack)]
    {
      SclLow();
      ret, val := ReadBits();
      if ret != 0 {
        return;
      }
      if !nack {
        SetSda(false);
      }
      var ack;
      ret, ack := Pulse();
      if ret != 0 {
        sda := true;
        return;
      }
      SetSda(true);
      assert Power(8) == 256;
      ValueBits(val, 8);
    }

    // Its loop.
    method ReadBits() returns (ret: int, data: Byte)
      requires Whole() && !scl && sda
      modifies this
      ensures ret <= 0 && (Patient() ==> ret == 0)
      ensures ret == 0 ==> Settled() && !scl && sda && slot == old(slot) + 8
      ensures ret == 0
          ==> data == SlaveByte(slave, old(slot)) && seen.bits == Bits(data, 8) && seen.items == old(seen).items
    {
      ghost var n := slot;
      data := 0;
      var i: int, bit := 7, false;
      while i >= 0
        invariant -1 <= i <= 7 && slot == n + 7 - i && seen.items == old(seen).items
        invariant Settled() && !scl && sda
        invariant data == SlaveBits(slave, n, 7 - i)
        invariant seen.bits == Levels(slave, n, 7 - i)
      {
        ret, bit := Pulse();
        if ret != 0 {
          return;
        }
        PowerGrows(8 - i, 8);
        data := (2 * data + if bit then 1 else 0) % 256;
        i := i - 1;
      }
      SlaveBitsAre(slave, n, 8);
      ret := 0;
    }

    // START and the address byte, or -ENODEV after a NACK and a STOP.
    method Address(v: Byte) returns (ret: int)
      requires Between() && Listens(slave, slot + 1) && (High(slave, slot + 9) ==> High(slave, slot + 10))
      modifies this
      ensures ret <= 0 && (Patient() ==> ret == 0 || ret == -ENODEV)
      ensures var n := old(slot) + 1; Patient() || ret == 0 ==>
        && Whole() && sda && slot == n + 9 && (ret == 0 <==> !scl) && (ret == -ENODEV <==> High(slave, n + 8))
        && seen.items == old(seen).items + Addressed(v, High(slave, n + 8))
    {
      ret := Begin();
      if ret != 0 {
        return;
      }
      ret := WriteByte(v);
      if ret < 0 {
        return;
      }
      if ret != 0 {
        ret := End();
        ret := -ENODEV;
      }
    }

    // The loop over the bytes of a write.
    method Send(src: seq<Byte>) returns (ret: int)
      requires Whole() && !scl && sda && Takes(slave, slot, |src|)
      modifies this
      ensures Patient() ==> ret >= 0
      ensures var n := old(slot); ret >= 0 ==>
        && Between() && !scl && ret == Acks(src, slave, n) && seen.items == old(seen).items + Sent(src, slave, n)
    {
      ghost var n, rest := slot, src;
      ghost var all := seen.items + Sent(src, slave, n);
      var numAcks := 0;
      while numAcks < |src|
        invariant 0 <= numAcks <= |src| && rest == src[numAcks..] && Whole() && !scl && sda
        invariant Takes(slave, slot, |rest|)
        invariant Acks(src, slave, n) == numAcks + Acks(rest, slave, slot)
        invariant all == seen.items + Sent(rest, slave, slot)
      {
        SentStep(seen.items, rest, slave, slot);
        ret := WriteByte(src[numAcks]);
        if ret < 0 {
          return;
        } else if ret != 0 {
          break;
        }
        rest := rest[1..];
        numAcks := numAcks + 1;
      }
      ret := numAcks;
    }

    // mp_machine_soft_i2c_writeto. The bus carries exactly the intended transaction, and the
    // result counts the acknowledged bytes.
    method WriteTo(addr: nat, src: seq<Byte>, stop: bool) returns (ret: int)
      requires Between() && Takes(slave, slot + 1, 1 + |src|)
      modifies this
      ensures var n := old(slot) + 1; Patient() ==>
        && Between() && (scl <==> stop || High(slave, n + 8))
        && ret == (if High(slave, n + 8) then -ENODEV else Acks(src, slave, n + 9))
        && seen.items == old(seen).items + WriteItems(addr, src, stop, slave, n)
      ensures Patient() && addr < 128 ==> FirstByteSays(old(seen).items, seen.items, addr, 0)
    {
      WriteSays(seen.items, addr, src, stop, slave, slot + 1);
      TakesFirst(slave, slot + 1, |src|);
      ghost var before, n := seen.items, slot + 1;
      ret := Address((2 * addr) % 256);
      if ret != 0 {
        return;
      }
      ret := Transmit(src, stop);
      ItemsJoin(before, Addressed((2 * addr) % 256, false), Sent(src, slave, n + 9), if stop then [Stopped] else []);
    }

    // The part of a write behind an acknowledged address.
    method Transmit(src: seq<Byte>, stop: bool) returns (ret: int)
      requires Whole() && !scl && sda && Takes(slave, slot, |src|)
      modifies this
      ensures var n := old(slot); Patient() ==>
        && Between() && (scl <==> stop) && ret == Acks(src, slave, n)
        && seen.items == old(seen).items + Sent(src, slave, n) + if stop then [Stopped] else []
    {
      var numAcks := Send(src);
      if numAcks < 0 {
        return numAcks;
      }
      if stop {
        ret := End();
        if ret != 0 {
          return;
        }
      }
      ret := numAcks;
    }

    // mp_machine_soft_i2c_readfrom
    method ReadFrom(addr: nat, dest: array<Byte>, stop: bool) returns (ret: int)
      requires Between() && Answers(slave, slot + 1, dest.Length)
      modifies this, dest
      ensures var n := old(slot) + 1; Patient() ==>
        && Between() && (scl <==> stop || High(slave, n + 8))
        && ret == (if High(slave, n + 8) then -ENODEV else 0)
        && seen.items == old(seen).items + ReadItems(addr, dest.Length, stop, slave, n)
        && dest[..] == if High(slave, n + 8) then old(dest[..]) else SlaveBytes(slave, n + 9, dest.Length)
      ensures Patient() && addr < 128 ==> FirstByteSays(old(seen).items, seen.items, addr, 1)
    {
      ReadSays(seen.items, addr, dest.Length, stop, slave, slot + 1);
      ret := Address((2 * addr + 1) % 256);
      if ret != 0 {
        return;
      }
      ghost var before, n := old(seen).items, old(slot) + 1;
      ret := Collect(dest, stop);
      ItemsJoin(before, Addressed((2 * addr + 1) % 256, false), Received(slave, n + 9, dest.Length, dest.Length),
                if stop then [Stopped] else []);
    }

    // The part of a read behind an acknowledged address.
    method Collect(dest: array<Byte>, stop: bool) returns (ret: int)
      requires Whole() && !scl && sda && Gives(slave, slot, dest.Length)
      modifies this, dest
      ensures var n := old(slot); Patient() ==>
        && Between() && (scl <==> stop) && ret == 0 && dest[..] == SlaveBytes(slave, n, dest.Length)
        && seen.items == old(seen).items + Received(slave, n, dest.Length, dest.Length) + if stop then [Stopped] else []
    {
      ret := Fetch(dest);
      if ret != 0 {
        return;
      }
      if stop {
        ret := End();
      }
    }

    // The loop over the bytes of a read.
    method Fetch(dest: array<Byte>) returns (ret: int)
      requires Whole() && !scl && sda && Gives(slave, slot, dest.Length)
      modifies this, dest
      ensures ret <= 0 && (Patient() ==> ret == 0)
      ensures var n := old(slot); ret == 0 ==>
        && Between() && !scl && seen.items == old(seen).items + Received(slave, n, dest.Length, dest.Length)
        && dest[..] == SlaveBytes(slave, n, dest.Length)
    {
      ghost var n := slot;
      var k, val := 0, 0;
      while k < dest.Length
        invariant 0 <= k <= dest.Length && slot == n + 9 * k
        invariant Whole() && !scl && sda && Gives(slave, slot, dest.Length - k)
        invariant seen.items == old(seen).items + Received(slave, n, k, dest.Length)
        invariant dest[..k] == SlaveBytes(slave, n, k)
      {
        ret, val := ReadByte(k + 1 == dest.Length);
        if ret != 0 {
          return;
        }
        dest[k] := val;
        assert dest[..k + 1] == dest[..k] + [val];
        k := k + 1;
      }
      assert dest[..] == dest[..k];
      ret := 0;
    }
  }

  lemma {:induction false} PowerGrows(j: nat, k: nat)
    requires j <= k
    ensures Power(j) <= Power(k)
  {
    if j < k { PowerGrows(j, k - 1); }
  }

  lemma ItemsJoin(before: seq<Item>, head: seq<Item>, middle: seq<Item>, end: seq<Item>)
    ensures before + head + middle + end == before + (head + middle + end)
  {
  }

  lemma TakesFirst(slave: Wire, n: nat, len: nat)
    requires Takes(slave, n, 1 + len)
    ensures Listens(slave, n) && if High(slave, n + 8) then High(slave, n + 9) else Takes(slave, n + 9, len)
  {
  }

  lemma SentStep(items: seq<Item>, src: seq<Byte>, slave: Wire, n: nat)
    requires src != [] && Takes(slave, n, |src|)
    ensures var item, rest := Transfer(src[0], High(slave, n + 8)), src[1..];
      && Listens(slave, n)
      && (if High(slave, n + 8)
          then Sent(src, slave, n) == [item] && Acks(src, slave, n) == 0 && High(slave, n + 9)
          else items + Sent(src, slave, n) == (items + [item]) + Sent(rest, slave, n + 9)
               && Acks(src, slave, n) == 1 + Acks(rest, slave, n + 9) && Takes(slave, n + 9, |rest|))
  {
  }
}
