// extmod/modubinascii.c: base64 (RFC 4648, section 4), encoded in two passes over one buffer
// and decoded quad by quad.

module Base64 {
  import opened Codec

  type Byte = bv8

  datatype Error = IncorrectPadding | InvalidCharacter
  type Result = Outcome<Error>

  const PAD: Byte := 64
  const EQUALS: Byte := 61
  const NEWLINE: Byte := 10

  // ---------- one group ----------

  function First(a: Byte): Byte { (a & 0xFC) >> 2 }
  function Second(a: Byte, b: Byte): Byte { ((a & 0x03) << 4) | ((b & 0xF0) >> 4) }
  function SecondAlone(a: Byte): Byte { (a & 0x03) << 4 }
  function Third(b: Byte, c: Byte): Byte { ((b & 0x0F) << 2) | ((c & 0xC0) >> 6) }
  function ThirdAlone(b: Byte): Byte { (b & 0x0F) << 2 }
  function Fourth(c: Byte): Byte { c & 0x3F }

  function Out1(h0: Byte, h1: Byte): Byte { (h0 << 2) | (h1 >> 4) }
  function Out2(h1: Byte, h2: Byte): Byte { ((h1 & 0x0F) << 4) | (h2 >> 2) }
  function Out3(h2: Byte, h3: Byte): Byte { ((h2 & 0x03) << 6) | h3 }

  lemma GroupUnpacks(a: Byte, b: Byte, c: Byte)
    ensures First(a) < 64 && Second(a, b) < 64 && SecondAlone(a) < 64 && Third(b, c) < 64 && ThirdAlone(b) < 64
        && Fourth(c) < 64
    ensures Out1(First(a), Second(a, b)) == a && Out1(First(a), SecondAlone(a)) == a
    ensures Out2(Second(a, b), Third(b, c)) == b && Out2(Second(a, b), ThirdAlone(b)) == b
    ensures Out3(Third(b, c), Fourth(c)) == c
  {
  }

  lemma GroupPacks(h0: Byte, h1: Byte, h2: Byte, h3: Byte)
    requires h0 < 64 && h1 < 64 && h2 < 64 && h3 < 64
    ensures First(Out1(h0, h1)) == h0 && Second(Out1(h0, h1), Out2(h1, h2)) == h1
    ensures Third(Out2(h1, h2), Out3(h2, h3)) == h2 && Fourth(Out3(h2, h3)) == h3
    ensures (SecondAlone(Out1(h0, h1)) == h1) == (h1 & 0x0F == 0)
    ensures (ThirdAlone(Out2(h1, h2)) == h2) == (h2 & 0x03 == 0)
  {
  }

  // ---------- the alphabet ----------

  // The second pass of the encoder.
  function CharOf(v: Byte): Byte {
    if v < 26 then v + 65
    else if v < 52 then v + 71
    else if v < 62 then v - 4
    else if v == 62 then 43
    else if v == 63 then 47
    else EQUALS
  }

  datatype Symbol = Val(v: Byte) | Pad | Bad

  // The classification at the head of the decoder.
  function SymbolOf(c: Byte): Symbol {
    if 65 <= c <= 90 then Val(c - 65)
    else if 97 <= c <= 122 then Val(c - 97 + 26)
    else if 48 <= c <= 57 then Val(c - 48 + 52)
    else if c == 43 then Val(62)
    else if c == 47 then Val(63)
    else if c == EQUALS then Pad
    else Bad
  }

  lemma CharSymbol(v: Byte)
    requires v <= 64
    ensures SymbolOf(CharOf(v)) == if v == PAD then Pad else Val(v)
  {
  }

  lemma SymbolChar(c: Byte)
    ensures SymbolOf(c).Val? ==> SymbolOf(c).v < 64 && CharOf(SymbolOf(c).v) == c
    ensures SymbolOf(c).Pad? ==> c == EQUALS == CharOf(PAD)
  {
  }

  // Table 1 of the RFC.
  function TableOne(v: nat): char
    requires v < 64
  {
    if v < 26 then ('A' as int + v) as char
    else if v < 52 then ('a' as int + v - 26) as char
    else if v < 62 then ('0' as int + v - 52) as char
    else if v == 62 then '+' else '/'
  }

  lemma CharIsTableOne(v: nat)
    requires v < 64
    ensures CharOf(v as Byte) as int == TableOne(v) as int
  {
  }

  // Section 4: three bytes, joined to 24 bits, are the four 6-bit numbers joined to 24 bits. A
  // missing byte counts as zero bits.
  lemma GroupBits(a: Byte, b: Byte, c: Byte)
    ensures ((a as bv24) << 16) | ((b as bv24) << 8) | (c as bv24)
      == ((First(a) as bv24) << 18) | ((Second(a, b) as bv24) << 12)
         | ((Third(b, c) as bv24) << 6) | (Fourth(c) as bv24)
    ensures (a as bv24) << 16 == ((First(a) as bv24) << 18) | ((SecondAlone(a) as bv24) << 12)
    ensures ((a as bv24) << 16) | ((b as bv24) << 8)
      == ((First(a) as bv24) << 18) | ((Second(a, b) as bv24) << 12) | ((ThirdAlone(b) as bv24) << 6)
  {
  }

  // ---------- encoding ----------

  // The first pass: numbers up to 63, and 64 for padding.
  function Sextets(d: seq<Byte>): seq<Byte> {
    if |d| == 0 then []
    else if |d| == 1 then [First(d[0]), SecondAlone(d[0]), PAD, PAD]
    else if |d| == 2 then [First(d[0]), Second(d[0], d[1]), ThirdAlone(d[1]), PAD]
    else Group(d[0], d[1], d[2]) + Sextets(d[3..])
  }

  function Group(a: Byte, b: Byte, c: Byte): seq<Byte> {
    [First(a), Second(a, b), Third(b, c), Fourth(c)]
  }

  function Chars(s: seq<Byte>): (r: seq<Byte>)
    ensures |r| == |s| && forall k :: 0 <= k < |s| ==> r[k] == CharOf(s[k])
  {
    if s == [] then [] else [CharOf(s[0])] + Chars(s[1..])
  }

  // The encoding, without the newline that b2a_base64 adds.
  function Encode(d: seq<Byte>): seq<Byte> {
    Chars(Sextets(d))
  }

  function EncodedLength(n: nat): nat {
    if n != 0 then ((n - 1) / 3 + 1) * 4 else 0
  }

  lemma {:induction false} SextetsLength(d: seq<Byte>)
    ensures |Sextets(d)| == EncodedLength(|d|)
  {
    if |d| >= 3 { SextetsLength(d[3..]); }
  }

  // ---------- decoding ----------

  // One quad: errors are found from its last character to its first.
  function Quad(q: seq<Byte>, last: bool): Result
    requires |q| == 4
  {
    var bad := QuadError(q, last, 4);
    if bad.Err? then bad
    else
      var s0, s1, s2, s3 := SymbolOf(q[0]), SymbolOf(q[1]), SymbolOf(q[2]), SymbolOf(q[3]);
      if !s0.Val? || !s1.Val? then Err(IncorrectPadding)
      else if !s2.Val? then Ok([Out1(s0.v, s1.v)])
      else if !s3.Val? then Ok([Out1(s0.v, s1.v), Out2(s1.v, s2.v)])
      else Ok([Out1(s0.v, s1.v), Out2(s1.v, s2.v), Out3(s2.v, s3.v)])
  }

  // The first error among the characters below j, from j - 1 down.
  function QuadError(q: seq<Byte>, last: bool, j: nat): Result
    requires |q| == 4 && j <= 4
  {
    if j == 0 then Ok([])
    else if SymbolOf(q[j - 1]).Bad? then Err(InvalidCharacter)
    else if SymbolOf(q[j - 1]).Pad? && (j - 1 < 2 || !last) then Err(IncorrectPadding)
    else QuadError(q, last, j - 1)
  }

  function Quads(s: seq<Byte>): Result
    requires |s| % 4 == 0
  {
    if s == [] then Ok([])
    else
      var q := Quad(s[..4], |s| == 4);
      if q.Err? then q else Then(q.bytes, Quads(s[4..]))
  }

  function Decode(s: seq<Byte>): Result {
    if |s| % 4 != 0 then Err(IncorrectPadding) else Quads(s)
  }

  // The length a2b_base64 allocates.
  function DecodedLength(s: seq<Byte>): nat
    requires |s| % 4 == 0
  {
    if s == [] then 0
    else |s| / 4 * 3 - (if s[|s| - 1] == EQUALS then (if s[|s| - 2] == EQUALS then 2 else 1) else 0)
  }
}

module Base64Laws {
  import opened Codec
  import opened Base64

  lemma {:induction false} SextetsSmall(d: seq<Byte>)
    ensures forall k :: 0 <= k < |Sextets(d)| ==> Sextets(d)[k] <= 64
  {
    if |d| == 1 {
      GroupUnpacks(d[0], 0, 0);
    } else if |d| == 2 {
      GroupUnpacks(d[0], d[1], 0);
    } else if |d| >= 3 {
      GroupUnpacks(d[0], d[1], d[2]);
      SextetsSmall(d[3..]);
    }
  }

  lemma QuadOfValues(q: seq<Byte>, last: bool)
    requires |q| == 4 && forall j :: 0 <= j < 4 ==> SymbolOf(q[j]).Val?
    ensures QuadError(q, last, 4) == Ok([])
  {
    assert QuadError(q, last, 0) == Ok([]);
    assert QuadError(q, last, 1) == Ok([]);
    assert QuadError(q, last, 2) == Ok([]);
    assert QuadError(q, last, 3) == Ok([]);
  }

  lemma LastQuad(q: seq<Byte>)
    requires |q| == 4 && SymbolOf(q[0]).Val? && SymbolOf(q[1]).Val?
    requires !SymbolOf(q[2]).Bad? && !SymbolOf(q[3]).Bad?
    ensures QuadError(q, true, 4) == Ok([])
  {
    assert QuadError(q, true, 0) == Ok([]);
    assert QuadError(q, true, 1) == Ok([]);
    assert QuadError(q, true, 2) == Ok([]);
    assert QuadError(q, true, 3) == Ok([]);
  }

  lemma ThreeValues(q: seq<Byte>, h0: Byte, h1: Byte, h2: Byte, h3: Byte, last: bool)
    requires |q| == 4 && SymbolOf(q[0]) == Val(h0) && SymbolOf(q[1]) == Val(h1) && SymbolOf(q[2]) == Val(h2)
        && SymbolOf(q[3]) == Val(h3)
    ensures Quad(q, last) == Ok([Out1(h0, h1), Out2(h1, h2), Out3(h2, h3)])
  {
    QuadOfValues(q, last);
  }

  lemma TwoValues(q: seq<Byte>, h0: Byte, h1: Byte)
    requires |q| == 4 && SymbolOf(q[0]) == Val(h0) && SymbolOf(q[1]) == Val(h1) && SymbolOf(q[2]) == Pad
        && SymbolOf(q[3]) == Pad
    ensures Quad(q, true) == Ok([Out1(h0, h1)])
  {
    LastQuad(q);
  }

  lemma OnePad(q: seq<Byte>, h0: Byte, h1: Byte, h2: Byte)
    requires |q| == 4 && SymbolOf(q[0]) == Val(h0) && SymbolOf(q[1]) == Val(h1) && SymbolOf(q[2]) == Val(h2)
        && SymbolOf(q[3]) == Pad
    ensures Quad(q, true) == Ok([Out1(h0, h1), Out2(h1, h2)])
  {
    LastQuad(q);
  }

  lemma ChunkDecodes(d: seq<Byte>, last: bool)
    requires |d| == 3
    ensures |Encode(d)| == 4 && Quad(Encode(d), last) == Ok(d)
  {
    SextetsLength(d);
    var h0, h1, h2, h3 := First(d[0]), Second(d[0], d[1]), Third(d[1], d[2]), Fourth(d[2]);
    assert Sextets(d[3..]) == [] && Sextets(d) == [h0, h1, h2, h3];
    GroupUnpacks(d[0], d[1], d[2]);
    CharSymbol(h0); CharSymbol(h1); CharSymbol(h2); CharSymbol(h3);
    ThreeValues(Encode(d), h0, h1, h2, h3, last);
  }

  lemma TailsDecode(d: seq<Byte>)
    requires |d| == 1 || |d| == 2
    ensures |Encode(d)| == 4 && Quad(Encode(d), true) == Ok(d)
  {
    var h0 := First(d[0]);
    var h1 := if |d| == 1 then SecondAlone(d[0]) else Second(d[0], d[1]);
    var b := if |d| == 1 then 0 else d[1];
    GroupUnpacks(d[0], b, 0);
    CharSymbol(h0); CharSymbol(h1); CharSymbol(ThirdAlone(b)); CharSymbol(PAD);
    if |d| == 1 {
      TwoValues(Encode(d), h0, h1);
    } else {
      OnePad(Encode(d), h0, h1, ThirdAlone(b));
    }
  }

  lemma QuadsOne(q: seq<Byte>)
    requires |q| == 4
    ensures Quads(q) == Quad(q, true)
  {
    assert q[..4] == q && q[4..] == [];
    if Quad(q, true).Ok? { assert Quad(q, true).bytes + [] == Quad(q, true).bytes; }
  }

  // Decoding an encoding gives the bytes back.
  lemma {:induction false} RoundTrip(d: seq<Byte>)
    ensures Decode(Encode(d)) == Ok(d)
  {
    SextetsLength(d);
    if 1 <= |d| <= 2 {
      TailsDecode(d);
      QuadsOne(Encode(d));
    } else if |d| >= 3 {
      RoundTrip(d[3..]);
      assert d == d[..3] + d[3..];
      HeadDecodes(d[..3], d[3..]);
    }
  }

  lemma HeadDecodes(head: seq<Byte>, tail: seq<Byte>)
    requires |head| == 3 && Decode(Encode(tail)) == Ok(tail)
    ensures Decode(Encode(head + tail)) == Ok(head + tail)
  {
    EncodeGroup(head, tail);
    WholeQuads(tail);
    WholeQuads(head + tail);
    GroupQuads(head, Encode(tail));
    DecodeJoin(Encode(head + tail), Encode(tail), head, tail);
  }

  lemma WholeQuads(d: seq<Byte>)
    ensures |Encode(d)| % 4 == 0
  {
    SextetsLength(d);
  }

  lemma DecodeJoin(s: seq<Byte>, rest: seq<Byte>, head: seq<Byte>, tail: seq<Byte>)
    requires |s| % 4 == 0 && |rest| % 4 == 0
    requires Quads(s) == Then(head, Quads(rest)) && Decode(rest) == Ok(tail)
    ensures Decode(s) == Ok(head + tail)
  {
  }

  lemma GroupQuads(head: seq<Byte>, rest: seq<Byte>)
    requires |head| == 3 && |rest| % 4 == 0
    ensures |Encode(head)| == 4 && Quads(Encode(head) + rest) == Then(head, Quads(rest))
  {
    SextetsLength(head);
    ChunkDecodes(head, rest == []);
    QuadsStep(Encode(head), rest, head);
  }

  lemma QuadsStep(q: seq<Byte>, rest: seq<Byte>, bytes: seq<Byte>)
    requires |q| == 4 && |rest| % 4 == 0 && Quad(q, rest == []) == Ok(bytes)
    ensures Quads(q + rest) == Then(bytes, Quads(rest))
  {
    assert (q + rest)[..4] == q && (q + rest)[4..] == rest;
  }

  // A padding character that is not followed by another one.
  predicate StrayPadding(s: seq<Byte>)
    requires |s| % 4 == 0
  {
    s != [] && s[|s| - 2] == EQUALS && s[|s| - 1] != EQUALS
  }

  // The decoder fills exactly the length it allocated, except when the last quad has '=' in
  // its third place and another character in its fourth.
  lemma {:induction false} LengthIff(s: seq<Byte>)
    requires |s| % 4 == 0 && Quads(s).Ok?
    ensures |Quads(s).bytes| <= DecodedLength(s)
    ensures |Quads(s).bytes| == DecodedLength(s) <==> !StrayPadding(s)
  {
    if s != [] {
      var q, last := s[..4], |s| == 4;
      QuadLength(q, last);
      if !last { LengthIff(s[4..]); }
    }
  }

  // There is such a text, AA=A: it decodes to one byte and three were allocated.
  lemma StrayPaddingDecodes()
    ensures var s := [65, 65, EQUALS, 65];
      Quads(s).Ok? && StrayPadding(s) && |Quads(s).bytes| == 1 && DecodedLength(s) == 3
  {
    var s: seq<Byte> := [65, 65, EQUALS, 65];
    LastQuad(s);
    QuadsOne(s);
    QuadLength(s, true);
  }

  lemma QuadLength(q: seq<Byte>, last: bool)
    requires |q| == 4 && Quad(q, last).Ok?
    ensures var n := |Quad(q, last).bytes|;
      1 <= n <= 3 && (n == 1 <==> q[2] == EQUALS) && (n == 3 <==> q[2] != EQUALS && q[3] != EQUALS)
    ensures !last ==> |Quad(q, last).bytes| == 3
    ensures SymbolOf(q[0]).Val? && SymbolOf(q[1]).Val? && !SymbolOf(q[2]).Bad? && !SymbolOf(q[3]).Bad?
  {
    SymbolChar(q[2]); SymbolChar(q[3]);
    assert SymbolOf(q[3]).Bad? || QuadError(q, last, 4).Err? || QuadError(q, last, 4) == QuadError(q, last, 3);
    assert SymbolOf(q[2]).Bad? || QuadError(q, last, 3).Err? || QuadError(q, last, 3) == QuadError(q, last, 2);
    assert QuadError(q, last, 2).Err? || QuadError(q, last, 2) == QuadError(q, last, 1);
  }

  // Padding as the RFC requires it: nothing stray, and no bits set that no byte holds.
  predicate Canonical(s: seq<Byte>)
    requires |s| % 4 == 0
  {
    s == [] ||
    var q := s[|s| - 4..];
    !StrayPadding(s)
    && (q[2] == EQUALS ==> SymbolOf(q[1]).Val? && SymbolOf(q[1]).v & 0x0F == 0)
    && (q[2] != EQUALS && q[3] == EQUALS ==> SymbolOf(q[2]).Val? && SymbolOf(q[2]).v & 0x03 == 0)
  }

  // Encoding what was decoded gives the text back exactly when its padding is canonical.
  lemma {:induction false} ReencodeIff(s: seq<Byte>)
    requires |s| % 4 == 0 && Quads(s).Ok?
    ensures Encode(Quads(s).bytes) == s <==> Canonical(s)
  {
    if s != [] {
      var q, last := s[..4], |s| == 4;
      QuadLength(q, last);
      var d := Quad(q, last).bytes;
      QuadReencode(q, last);
      if last {
        assert s == q;
        QuadsOne(s);
      } else {
        ReencodeIff(s[4..]);
        GroupReencode(s, d, Quads(s[4..]).bytes);
      }
    }
  }

  lemma GroupReencode(s: seq<Byte>, d: seq<Byte>, rest: seq<Byte>)
    requires |s| > 4 && |s| % 4 == 0 && |d| == 3 && Encode(d) == s[..4]
    ensures Encode(d + rest) == s <==> Encode(rest) == s[4..]
    ensures Canonical(s) <==> Canonical(s[4..])
  {
    EncodeGroup(d, rest);
    assert s == s[..4] + s[4..];
    assert s[4..][|s| - 8..] == s[|s| - 4..];
  }

  lemma EncodeGroup(d: seq<Byte>, rest: seq<Byte>)
    requires |d| == 3
    ensures Encode(d + rest) == Encode(d) + Encode(rest)
  {
    assert (d + rest)[3..] == rest;
    assert Sextets(d[3..]) == [];
  }

  lemma QuadReencode(q: seq<Byte>, last: bool)
    requires |q| == 4 && Quad(q, last).Ok?
    ensures |Quad(q, last).bytes| == 3 ==> Encode(Quad(q, last).bytes) == q
    ensures last ==> (Encode(Quad(q, last).bytes) == q <==> Canonical(q))
  {
    QuadLength(q, last);
    var s0, s1, s2, s3 := SymbolOf(q[0]), SymbolOf(q[1]), SymbolOf(q[2]), SymbolOf(q[3]);
    SymbolChar(q[0]); SymbolChar(q[1]); SymbolChar(q[2]); SymbolChar(q[3]);
    if s2.Val? && s3.Val? {
      GroupPacks(s0.v, s1.v, s2.v, s3.v);
      var d := Quad(q, last).bytes;
      assert d[3..] == [];
      assert Sextets(d) == [s0.v, s1.v, s2.v, s3.v];
    } else if s2.Val? {
      TwoByteTail(q, s0.v, s1.v, s2.v);
    } else {
      OneByteTail(q, s0.v, s1.v);
    }
  }

  lemma TwoByteTail(q: seq<Byte>, h0: Byte, h1: Byte, h2: Byte)
    requires |q| == 4 && SymbolOf(q[0]) == Val(h0) && SymbolOf(q[1]) == Val(h1) && SymbolOf(q[2]) == Val(h2)
        && q[3] == EQUALS
    ensures Encode([Out1(h0, h1), Out2(h1, h2)]) == q <==> h2 & 0x03 == 0
  {
    SymbolChar(q[0]); SymbolChar(q[1]); SymbolChar(q[2]);
    GroupPacks(h0, h1, h2, 0);
    var e := Encode([Out1(h0, h1), Out2(h1, h2)]);
    var t := ThirdAlone(Out2(h1, h2));
    assert e == [CharOf(h0), CharOf(h1), CharOf(t), CharOf(PAD)];
    GroupUnpacks(0, Out2(h1, h2), 0);
    CharSymbol(t);
    CharSymbol(h2);
  }

  lemma OneByteTail(q: seq<Byte>, h0: Byte, h1: Byte)
    requires |q| == 4 && SymbolOf(q[0]) == Val(h0) && SymbolOf(q[1]) == Val(h1) && q[2] == EQUALS
    ensures Encode([Out1(h0, h1)]) == q <==> h1 & 0x0F == 0 && q[3] == EQUALS
  {
    SymbolChar(q[0]); SymbolChar(q[1]);
    GroupPacks(h0, h1, 0, 0);
    var e := Encode([Out1(h0, h1)]);
    var t := SecondAlone(Out1(h0, h1));
    assert e == [CharOf(h0), CharOf(t), CharOf(PAD), CharOf(PAD)];
    GroupUnpacks(Out1(h0, h1), 0, 0);
    CharSymbol(t);
    CharSymbol(h1);
  }
}
