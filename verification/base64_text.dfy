// extmod/modubinascii.c: what each character of a base64 text is, and which texts are refused,
// as RFC 4648 has it.

module Base64Text {
  import opened Codec
  import opened Base64
  import opened Base64Laws

  // Section 4: the 24 bits of three input bytes, a missing byte as zero bits.
  function GroupNumber(d: seq<Byte>, i: nat): nat {
    0x1_0000 * ByteAt(d, 3 * i) + 0x100 * ByteAt(d, 3 * i + 1) + ByteAt(d, 3 * i + 2)
  }

  function ByteAt(d: seq<Byte>, k: nat): (n: nat)
    ensures n < 256
  {
    if k < |d| then d[k] as int else 0
  }

  // Character p of the text: the next six bits of its group, or padding where they would hold
  // no bit of the input.
  function CharAt(d: seq<Byte>, p: nat): char {
    if Padded(d, p) then '=' else TableOne(SixBits(GroupNumber(d, p / 4), p % 4))
  }

  predicate Padded(d: seq<Byte>, p: nat) {
    6 * p >= 8 * |d|
  }

  function SixBits(group: nat, j: nat): (v: nat)
    requires j < 4
    ensures v < 64
  {
    var low := if j == 0 then group / 0x4_0000 else if j == 1 then group / 0x1000 else if j == 2 then group / 0x40
      else group;
    low % 64
  }

  // The masks and shifts of the encoder as arithmetic.
  lemma Halves(a: Byte)
    ensures ((a & 0xFC) >> 2) as int == a as int / 4 && (a & 0x03) as int == a as int % 4
    ensures ((a & 0xF0) >> 4) as int == a as int / 16 && (a & 0x0F) as int == a as int % 16
    ensures ((a & 0xC0) >> 6) as int == a as int / 64 && (a & 0x3F) as int == a as int % 64
  {
  }

  lemma Join2(x: Byte, y: Byte)
    requires x < 4 && y < 16
    ensures ((x << 4) | y) as int == 16 * x as int + y as int
  {
  }

  lemma Join4(x: Byte, y: Byte)
    requires x < 16 && y < 4
    ensures ((x << 2) | y) as int == 4 * x as int + y as int
  {
  }

  lemma SecondValue(a: Byte, b: Byte)
    ensures Second(a, b) as int == a as int % 4 * 16 + b as int / 16
  {
    Halves(a);
    Halves(b);
    Join2(a & 0x03, (b & 0xF0) >> 4);
  }

  lemma ThirdValue(b: Byte, c: Byte)
    ensures Third(b, c) as int == b as int % 16 * 4 + c as int / 64
  {
    Halves(b);
    Halves(c);
    Join4(b & 0x0F, (c & 0xC0) >> 6);
  }

  lemma AloneIsZero(a: Byte)
    ensures SecondAlone(a) == Second(a, 0) && ThirdAlone(a) == Third(a, 0)
  {
  }

  lemma Top(a: nat, b: nat, c: nat)
    requires a < 256 && b < 256 && c < 256
    ensures (0x1_0000 * a + 0x100 * b + c) / 0x4_0000 == a / 4
  {
    var q, r := a / 4, a % 4;
    assert 0x1_0000 * a + 0x100 * b + c == 0x4_0000 * q + (0x1_0000 * r + 0x100 * b + c);
  }

  lemma Middle(a: nat, b: nat, c: nat)
    requires a < 256 && b < 256 && c < 256
    ensures (0x1_0000 * a + 0x100 * b + c) / 0x1000 == 16 * a + b / 16
  {
    var q, r := b / 16, b % 16;
    assert 0x1_0000 * a + 0x100 * b + c == 0x1000 * (16 * a + q) + (0x100 * r + c);
  }

  lemma Low(a: nat, b: nat, c: nat)
    requires a < 256 && b < 256 && c < 256
    ensures (0x1_0000 * a + 0x100 * b + c) / 0x40 == 1024 * a + 4 * b + c / 64
  {
    var q, r := c / 64, c % 64;
    assert 0x1_0000 * a + 0x100 * b + c == 0x40 * (1024 * a + 4 * b + q) + r;
  }

  lemma SixLow(q: nat, r: nat)
    requires r < 64
    ensures (64 * q + r) % 64 == r
  {
  }

  lemma MiddleLow(a: nat, b: nat)
    requires a < 256 && b < 256
    ensures (16 * a + b / 16) % 64 == a % 4 * 16 + b / 16
  {
    SixLow(a / 4, a % 4 * 16 + b / 16);
  }

  lemma LowLow(a: nat, b: nat, c: nat)
    requires a < 256 && b < 256 && c < 256
    ensures (1024 * a + 4 * b + c / 64) % 64 == b % 16 * 4 + c / 64
  {
    SixLow(16 * a + b / 16, b % 16 * 4 + c / 64);
  }

  lemma LastLow(a: nat, b: nat, c: nat)
    ensures (0x1_0000 * a + 0x100 * b + c) % 64 == c % 64
  {
    SixLow(1024 * a + 4 * b + c / 64, c % 64);
  }

  // Six bits at a time.
  lemma GroupSixBits(a: nat, b: nat, c: nat, j: nat)
    requires a < 256 && b < 256 && c < 256 && j < 4
    ensures SixBits(0x1_0000 * a + 0x100 * b + c, j)
      == if j == 0 then a / 4 else if j == 1 then a % 4 * 16 + b / 16 else if j == 2 then b % 16 * 4 + c / 64
         else c % 64
  {
    Top(a, b, c);
    Middle(a, b, c);
    Low(a, b, c);
    MiddleLow(a, b);
    LowLow(a, b, c);
    LastLow(a, b, c);
  }

  function SextetOf(a: Byte, b: Byte, c: Byte, j: nat): Byte
    requires j < 4
  {
    if j == 0 then First(a) else if j == 1 then Second(a, b) else if j == 2 then Third(b, c) else Fourth(c)
  }

  lemma SextetIs(a: Byte, b: Byte, c: Byte, j: nat)
    requires j < 4
    ensures SextetOf(a, b, c, j) as int == SixBits(Joined(a, b, c), j) < 64
  {
    GroupSixBits(a as int, b as int, c as int, j);
    Halves(a);
    Halves(c);
    if j == 1 { SecondValue(a, b); } else if j == 2 { ThirdValue(b, c); }
  }

  function Joined(a: Byte, b: Byte, c: Byte): nat {
    0x1_0000 * a as int + 0x100 * b as int + c as int
  }

  lemma CharIs(v: Byte)
    requires v < 64
    ensures CharOf(v) as int == TableOne(v as int) as int
  {
    CharIsTableOne(v as int);
  }

  function Raw(d: seq<Byte>, k: nat): Byte {
    if k < |d| then d[k] else 0
  }

  lemma OneSextets(d: seq<Byte>)
    requires |d| == 1
    ensures Sextets(d) == [SextetOf(d[0], 0, 0, 0), SextetOf(d[0], 0, 0, 1), PAD, PAD]
  {
    AloneIsZero(d[0]);
  }

  lemma TwoSextets(d: seq<Byte>)
    requires |d| == 2
    ensures Sextets(d) == [SextetOf(d[0], d[1], 0, 0), SextetOf(d[0], d[1], 0, 1), SextetOf(d[0], d[1], 0, 2), PAD]
  {
    AloneIsZero(d[1]);
  }

  lemma ThreeSextets(d: seq<Byte>, p: nat)
    requires |d| >= 3 && p < 4
    ensures 4 <= |Sextets(d)| && Sextets(d)[p] == SextetOf(d[0], d[1], d[2], p)
  {
    assert Group(d[0], d[1], d[2])[p] == SextetOf(d[0], d[1], d[2], p);
  }

  // The first four numbers.
  lemma FirstSextets(d: seq<Byte>, p: nat)
    requires d != [] && p < 4
    ensures 4 <= |Sextets(d)|
    ensures Sextets(d)[p] == if Padded(d, p) then PAD else SextetOf(Raw(d, 0), Raw(d, 1), Raw(d, 2), p)
  {
    if |d| == 1 { OneSextets(d); } else if |d| == 2 { TwoSextets(d); } else { ThreeSextets(d, p); }
  }

  lemma FirstGroup(d: seq<Byte>)
    ensures GroupNumber(d, 0) == Joined(Raw(d, 0), Raw(d, 1), Raw(d, 2))
  {
  }

  // The first four characters.
  lemma GroupChars(d: seq<Byte>, p: nat)
    requires d != [] && p < 4
    ensures 4 <= |Encode(d)| && Encode(d)[p] as int == CharAt(d, p) as int
  {
    FirstSextets(d, p);
    if !Padded(d, p) {
      var v := SextetOf(Raw(d, 0), Raw(d, 1), Raw(d, 2), p);
      SextetIs(Raw(d, 0), Raw(d, 1), Raw(d, 2), p);
      FirstGroup(d);
      CharIs(v);
    }
  }

  lemma LaterPlace(p: nat)
    requires p >= 4
    ensures (p - 4) / 4 == p / 4 - 1 && (p - 4) % 4 == p % 4 && p / 4 >= 1
  {
  }

  lemma LaterGroup(d: seq<Byte>, i: nat)
    requires |d| >= 3 && i >= 1
    ensures GroupNumber(d, i) == GroupNumber(d[3..], i - 1)
  {
    assert ByteAt(d, 3 * i) == ByteAt(d[3..], 3 * i - 3);
  }

  lemma LaterChars(d: seq<Byte>, p: nat)
    requires |d| >= 3 && p >= 4
    ensures CharAt(d, p) == CharAt(d[3..], p - 4)
  {
    LaterPlace(p);
    LaterGroup(d, p / 4);
  }

  lemma LaterEncoding(d: seq<Byte>)
    requires |d| >= 3
    ensures 4 <= |Encode(d)| && Encode(d)[4..] == Encode(d[3..])
  {
    EncodeGroup(d[..3], d[3..]);
    assert d == d[..3] + d[3..];
    SextetsLength(d[..3]);
  }

  // Every character of an encoding is the one that section 4 of RFC 4648 puts there.
  lemma {:induction false} EncodeAt(d: seq<Byte>, p: nat)
    requires p < |Encode(d)|
    ensures Encode(d)[p] as int == CharAt(d, p) as int
    decreases |d|
  {
    SextetsLength(d);
    if p < 4 {
      GroupChars(d, p);
    } else {
      LaterEncoding(d);
      EncodeAt(d[3..], p - 4);
      LaterChars(d, p);
    }
  }

  // ---------- refused texts ----------

  // A letter, a digit, + or /.
  predicate InAlphabet(c: Byte) {
    65 <= c <= 90 || 97 <= c <= 122 || 48 <= c <= 57 || c == 43 || c == 47
  }

  // The characters that may stand at k: = only among the last two.
  predicate Fits(s: seq<Byte>, k: nat)
    requires k < |s|
  {
    InAlphabet(s[k]) || (s[k] == 61 && k + 2 >= |s|)
  }

  // The first character to be refused: of the first quad with any, the last one.
  predicate Refused(s: seq<Byte>, k: nat) {
    && k < |s| && !Fits(s, k)
    && forall i :: 0 <= i < |s| && (i < k / 4 * 4 || k < i < k / 4 * 4 + 4) ==> Fits(s, i)
  }

  predicate QuadFits(q: seq<Byte>, last: bool, i: nat)
    requires |q| == 4 && i < 4
  {
    InAlphabet(q[i]) || (q[i] == 61 && last && i >= 2)
  }

  function ErrorOf(c: Byte): Result {
    Err(if c == 61 then IncorrectPadding else InvalidCharacter)
  }

  lemma QuadErrorNext(q: seq<Byte>, last: bool, j: nat)
    requires |q| == 4 && 0 < j <= 4
    ensures QuadError(q, last, j)
      == if QuadFits(q, last, j - 1) then QuadError(q, last, j - 1) else ErrorOf(q[j - 1])
  {
  }

  lemma {:induction false} QuadPasses(q: seq<Byte>, last: bool, j: nat)
    requires |q| == 4 && j <= 4 && forall i :: 0 <= i < j ==> QuadFits(q, last, i)
    ensures QuadError(q, last, j) == Ok([])
  {
    if j > 0 {
      QuadErrorNext(q, last, j);
      QuadPasses(q, last, j - 1);
    }
  }

  lemma {:induction false} QuadStops(q: seq<Byte>, last: bool, j: nat, k: nat)
    requires |q| == 4 && k < j <= 4 && !QuadFits(q, last, k) && forall i :: k < i < j ==> QuadFits(q, last, i)
    ensures QuadError(q, last, j) == ErrorOf(q[k])
  {
    QuadErrorNext(q, last, j);
    if k < j - 1 { QuadStops(q, last, j - 1, k); }
  }

  lemma QuadAccepts(q: seq<Byte>, last: bool)
    requires |q| == 4 && forall i :: 0 <= i < 4 ==> QuadFits(q, last, i)
    ensures Quad(q, last).Ok?
  {
    QuadPasses(q, last, 4);
    assert QuadFits(q, last, 0) && QuadFits(q, last, 1);
  }

  lemma FitsInQuad(s: seq<Byte>, i: nat)
    requires |s| % 4 == 0 && |s| >= 4
    ensures i < 4 ==> (Fits(s, i) <==> QuadFits(s[..4], |s| == 4, i))
    ensures 4 <= i < |s| ==> (Fits(s, i) <==> Fits(s[4..], i - 4))
  {
  }

  // A text of whole quads is decoded if every character fits where it stands.
  lemma {:induction false} AllFitDecode(s: seq<Byte>)
    requires |s| % 4 == 0 && forall i :: 0 <= i < |s| ==> Fits(s, i)
    ensures Quads(s).Ok?
    decreases |s|
  {
    if s != [] {
      var q, last := s[..4], |s| == 4;
      forall i | 0 <= i < 4 ensures QuadFits(q, last, i) {
        FitsInQuad(s, i);
      }
      QuadAccepts(q, last);
      forall i | 0 <= i < |s[4..]| ensures Fits(s[4..], i) {
        FitsInQuad(s, i + 4);
      }
      AllFitDecode(s[4..]);
    }
  }

  // The refused character says which error it is.
  lemma {:induction false} RefusedError(s: seq<Byte>, k: nat)
    requires |s| % 4 == 0 && Refused(s, k)
    ensures Quads(s) == ErrorOf(s[k])
    decreases |s|
  {
    var q, last := s[..4], |s| == 4;
    if k < 4 {
      FitsInQuad(s, k);
      forall i | k < i < 4 ensures QuadFits(q, last, i) {
        FitsInQuad(s, i);
      }
      QuadStops(q, last, 4, k);
    } else {
      forall i | 0 <= i < 4 ensures QuadFits(q, last, i) {
        FitsInQuad(s, i);
      }
      QuadAccepts(q, last);
      RefusedLater(s, k);
      RefusedError(s[4..], k - 4);
    }
  }

  lemma RefusedLater(s: seq<Byte>, k: nat)
    requires |s| % 4 == 0 && Refused(s, k) && k >= 4
    ensures Refused(s[4..], k - 4)
  {
    var t, j := s[4..], k - 4;
    FitsInQuad(s, k);
    assert j / 4 * 4 == k / 4 * 4 - 4;
    forall i | 0 <= i < |t| && (i < j / 4 * 4 || j < i < j / 4 * 4 + 4) ensures Fits(t, i) {
      FitsInQuad(s, i + 4);
      assert Fits(s, i + 4);
    }
  }

  // The decoder refuses a text of a length that is not a multiple of four, and otherwise at
  // the refused character, which says which error it is.
  lemma DecodeRefuses(s: seq<Byte>, k: nat)
    ensures |s| % 4 != 0 ==> Decode(s) == Err(IncorrectPadding)
    ensures |s| % 4 == 0 && Refused(s, k) ==>
      Decode(s) == Err(if s[k] == 61 then IncorrectPadding else InvalidCharacter)
  {
    if |s| % 4 == 0 && Refused(s, k) { RefusedError(s, k); }
  }

  // Such a character there is, unless all fit.
  lemma {:induction false} SomeRefused(s: seq<Byte>) returns (k: nat)
    requires |s| % 4 == 0 && exists i :: 0 <= i < |s| && !Fits(s, i)
    ensures Refused(s, k)
    decreases |s|
  {
    if j :| 0 <= j < 4 && !Fits(s, j) {
      k := if !Fits(s, 3) then 3 else if !Fits(s, 2) then 2 else if !Fits(s, 1) then 1 else 0;
    } else {
      var i :| 0 <= i < |s| && !Fits(s, i);
      FitsInQuad(s, i);
      k := SomeRefused(s[4..]);
      LaterRefused(s, k);
      k := k + 4;
    }
  }

  lemma LaterRefused(s: seq<Byte>, k: nat)
    requires |s| % 4 == 0 && |s| >= 4 && Refused(s[4..], k) && forall i :: 0 <= i < 4 ==> Fits(s, i)
    ensures Refused(s, k + 4)
  {
    FitsInQuad(s, k + 4);
    assert (k + 4) / 4 * 4 == k / 4 * 4 + 4;
    forall i | 0 <= i < |s| && (i < (k + 4) / 4 * 4 || k + 4 < i < (k + 4) / 4 * 4 + 4) ensures Fits(s, i) {
      FitsInQuad(s, i);
      if i >= 4 { assert Fits(s[4..], i - 4); }
    }
  }

  // Exactly the texts of whole quads are decoded in which every character fits where it stands.
  lemma DecodesIff(s: seq<Byte>)
    ensures Decode(s).Ok? <==> |s| % 4 == 0 && forall i :: 0 <= i < |s| ==> Fits(s, i)
  {
    if |s| % 4 == 0 {
      if forall i :: 0 <= i < |s| ==> Fits(s, i) {
        AllFitDecode(s);
      } else {
        var k := SomeRefused(s);
        RefusedError(s, k);
      }
    }
  }
}
