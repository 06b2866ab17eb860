// extmod/modubinascii.c: hexlify and unhexlify.

module Hex {
  import opened Codec
  import opened Seqs

  type Byte = bv8

  datatype Separator = NoSeparator | Separator(c: Byte)

  datatype Error = OddLength | NonHexDigit
  type Result = Outcome<Error>

  // A digit above 9 skips the characters between '9' and 'a'.
  function DigitChar(v: Byte): Byte {
    if v > 9 then v + 39 + 48 else v + 48
  }

  // unichar_isxdigit and unichar_xdigit_value
  predicate IsDigit(c: Byte) {
    48 <= c <= 57 || 65 <= c <= 70 || 97 <= c <= 102
  }

  function DigitValue(c: Byte): Byte {
    var n := c - 48;
    if n > 9 then (n & 0xDF) - 7 else n
  }

  function Lower(c: Byte): Byte {
    if 65 <= c <= 70 then c + 32 else c
  }

  lemma NibbleChars(b: Byte)
    ensures var hi, lo := DigitChar(b >> 4), DigitChar(b & 0xF);
      IsDigit(hi) && IsDigit(lo) && (DigitValue(hi) << 4) + DigitValue(lo) == b
  {
  }

  lemma CharNibbles(hi: Byte, lo: Byte)
    requires IsDigit(hi) && IsDigit(lo)
    ensures var b := (DigitValue(hi) << 4) + DigitValue(lo);
      DigitChar(b >> 4) == Lower(hi) && DigitChar(b & 0xF) == Lower(lo)
  {
    DigitRange(hi);
    DigitRange(lo);
    JoinNibbles(DigitValue(hi), DigitValue(lo));
  }

  lemma DigitRange(c: Byte)
    requires IsDigit(c)
    ensures DigitValue(c) < 16 && DigitChar(DigitValue(c)) == Lower(c)
  {
  }

  lemma JoinNibbles(h: Byte, l: Byte)
    requires h < 16 && l < 16
    ensures ((h << 4) + l) >> 4 == h && ((h << 4) + l) & 0xF == l
  {
  }

  // ---------- hexlify ----------

  function Pair(b: Byte): seq<Byte> {
    [DigitChar(b >> 4), DigitChar(b & 0xF)]
  }

  // Two characters for each byte, with the separator between bytes.
  function Hexlify(d: seq<Byte>, sep: Separator): seq<Byte> {
    if d == [] then []
    else Pair(d[0]) + (if sep.Separator? && |d| > 1 then [sep.c] else []) + Hexlify(d[1..], sep)
  }

  // The length the code allocates, in 32-bit unsigned arithmetic.
  function HexLength(n: nat, sep: Separator): nat {
    (2 * n + if sep.Separator? then n - 1 else 0) % 0x1_0000_0000
  }

  lemma {:induction false} HexlifyLength(d: seq<Byte>, sep: Separator)
    ensures |Hexlify(d, sep)| == if d == [] then 0 else 2 * |d| + if sep.Separator? then |d| - 1 else 0
  {
    if d != [] { HexlifyLength(d[1..], sep); }
  }

  // The allocated length is the length written exactly when that fits 32 bits, unless no bytes
  // are to be separated: then the length wraps to 2^32 - 1.
  lemma HexLengthIff(d: seq<Byte>, sep: Separator)
    ensures HexLength(|d|, sep) == |Hexlify(d, sep)|
       <==> |Hexlify(d, sep)| < 0x1_0000_0000 && !(d == [] && sep.Separator?)
  {
    HexlifyLength(d, sep);
  }

  // mod_binascii_hexlify. The result is all of what was allocated (HexLengthIff).
  method HexlifyBytes(data: seq<Byte>, sep: Separator) returns (vstr: array<Byte>)
    requires |Hexlify(data, sep)| < 0x1_0000_0000
    ensures fresh(vstr) && vstr.Length == HexLength(|data|, sep)
    ensures Hexlify(data, sep) <= vstr[..]
    ensures vstr[..] == Hexlify(data, sep) <==> !(data == [] && sep.Separator?)
  {
    HexLengthIff(data, sep);
    HexlifyFits(data, sep);
    vstr := new Byte[(2 * |data| + if sep.Separator? then |data| - 1 else 0) % 0x1_0000_0000](_ => 0);
    WriteDigits(vstr, data, sep);
  }

  lemma HexlifyFits(d: seq<Byte>, sep: Separator)
    requires |Hexlify(d, sep)| < 0x1_0000_0000
    ensures |Hexlify(d, sep)| <= HexLength(|d|, sep)
  {
    HexlifyLength(d, sep);
  }

  // The loop of mod_binascii_hexlify.
  method WriteDigits(vstr: array<Byte>, data: seq<Byte>, sep: Separator)
    requires |Hexlify(data, sep)| <= vstr.Length
    modifies vstr
    ensures Hexlify(data, sep) <= vstr[..]
  {
    var i, out, rest := |data|, 0, data;
    while i > 0
      invariant i == |rest| && 0 <= out && out + |Hexlify(rest, sep)| <= vstr.Length
      invariant vstr[..out] + Hexlify(rest, sep) == Hexlify(data, sep)
    {
      HexlifyStep(vstr[..out], rest, sep);
      i := i - 1;
      out := WriteOut(vstr, out, Pair(rest[0]));
      if sep.Separator? && i != 0 {
        out := WriteOut(vstr, out, [sep.c]);
      }
      rest := rest[1..];
    }
    assert vstr[..out] + [] == vstr[..out];
  }

  lemma HexlifyStep(before: seq<Byte>, rest: seq<Byte>, sep: Separator)
    requires rest != []
    ensures var done := before + Pair(rest[0]) + (if sep.Separator? && |rest| > 1 then [sep.c] else []);
      before + Hexlify(rest, sep) == done + Hexlify(rest[1..], sep)
    ensures |Hexlify(rest, sep)| == 2 + (if sep.Separator? && |rest| > 1 then 1 else 0) + |Hexlify(rest[1..], sep)|
  {
    var gap := if sep.Separator? && |rest| > 1 then [sep.c] else [];
    Regroup(before, Pair(rest[0]) + gap, Hexlify(rest[1..], sep));
    Regroup(before, Pair(rest[0]), gap);
  }

  // ---------- unhexlify ----------

  function Unhexlify(s: seq<Byte>): Result {
    if |s| % 2 != 0 then Err(OddLength) else Pairs(s)
  }

  function Pairs(s: seq<Byte>): Result
    requires |s| % 2 == 0
  {
    if s == [] then Ok([])
    else if !IsDigit(s[0]) || !IsDigit(s[1]) then Err(NonHexDigit)
    else Then([(DigitValue(s[0]) << 4) + DigitValue(s[1])], Pairs(s[2..]))
  }

  // The digits still to come, one at a time; with an odd number of them acc holds the high
  // half of a byte.
  function Digits(s: seq<Byte>, acc: Byte): Result {
    if s == [] then Ok([])
    else if !IsDigit(s[0]) then Err(NonHexDigit)
    else if |s| % 2 == 0 then Digits(s[1..], (acc + DigitValue(s[0])) << 4)
    else Then([acc + DigitValue(s[0])], Digits(s[1..], 0))
  }

  lemma {:induction false} DigitsArePairs(s: seq<Byte>)
    requires |s| % 2 == 0
    ensures Digits(s, 0) == Pairs(s)
  {
    if s != [] {
      DigitsArePairs(s[2..]);
      if IsDigit(s[0]) {
        assert s[1..][1..] == s[2..];
        ZeroPlus(DigitValue(s[0]));
      }
    }
  }

  lemma ZeroPlus(v: Byte)
    ensures 0 + v == v
  {
  }

  // mod_binascii_unhexlify
  method UnhexlifyBytes(data: seq<Byte>) returns (r: Result)
    ensures r == Unhexlify(data)
    ensures r.Ok? ==> |r.bytes| == |data| / 2
  {
    if |data| % 2 != 0 {
      return Err(OddLength);
    }
    var vstr := new Byte[|data| / 2](_ => 0);
    var hexByte: Byte, i, out, rest := 0, |data|, 0, data;
    DigitsArePairs(data);
    ThenNothing(Digits(data, 0));
    while i > 0
      invariant i == |rest| && out + (i + 1) / 2 == vstr.Length
      invariant i % 2 == 0 ==> hexByte == 0
      invariant Pairs(data) == Then(vstr[..out], Digits(rest, hexByte))
    {
      var hexCh := rest[0];
      i := i - 1;
      if !IsDigit(hexCh) {
        return Err(NonHexDigit);
      }
      hexByte := hexByte + DigitValue(hexCh);
      rest := rest[1..];
      if i % 2 == 1 {
        hexByte := hexByte << 4;
      } else {
        ThenThen(vstr[..out], [hexByte], Digits(rest, 0));
        out := WriteOut(vstr, out, [hexByte]);
        hexByte := 0;
      }
    }
    assert vstr[..out] + [] == vstr[..out] == vstr[..];
    r := Ok(vstr[..]);
  }

  // ---------- round trips ----------

  // unhexlify undoes hexlify without separator.
  lemma {:induction false} HexRoundTrip(d: seq<Byte>)
    ensures Unhexlify(Hexlify(d, NoSeparator)) == Ok(d)
  {
    HexlifyLength(d, NoSeparator);
    if d != [] {
      var s := Hexlify(d, NoSeparator);
      NibbleChars(d[0]);
      HexRoundTrip(d[1..]);
      HexlifyLength(d[1..], NoSeparator);
      assert s[2..] == Hexlify(d[1..], NoSeparator);
      assert d == [d[0]] + d[1..];
    }
  }

  function LowerAll(s: seq<Byte>): (r: seq<Byte>)
    ensures |r| == |s|
  {
    if s == [] then [] else [Lower(s[0])] + LowerAll(s[1..])
  }

  predicate AllDigits(s: seq<Byte>) {
    forall k :: 0 <= k < |s| ==> IsDigit(s[k])
  }

  // Exactly the even strings of hex digits are accepted, and hexlify gives them back in
  // lower case.
  lemma {:induction false} UnhexlifyIff(s: seq<Byte>)
    requires |s| % 2 == 0
    ensures Pairs(s).Ok? <==> AllDigits(s)
    ensures Pairs(s).Ok? ==> Hexlify(Pairs(s).bytes, NoSeparator) == LowerAll(s)
  {
    if s != [] {
      UnhexlifyIff(s[2..]);
      if IsDigit(s[0]) && IsDigit(s[1]) {
        assert s == [s[0], s[1]] + s[2..];
        CharNibbles(s[0], s[1]);
        if Pairs(s).Ok? {
          assert Pairs(s).bytes[1..] == Pairs(s[2..]).bytes;
          assert LowerAll(s) == [Lower(s[0])] + LowerAll(s[1..]);
          assert s[1..][1..] == s[2..];
        }
      }
    }
  }

  // ---------- character by character ----------

  const DIGITS := "0123456789abcdef"

  lemma DigitIs(v: Byte)
    requires v < 16
    ensures DigitChar(v) as int == DIGITS[v as int] as int
  {
  }

  lemma Nibbles(b: Byte)
    ensures (b >> 4) as int == b as int / 16 && (b & 0xF) as int == b as int % 16
  {
  }

  lemma PairIs(b: Byte)
    ensures Pair(b)[0] as int == DIGITS[b as int / 16] as int && Pair(b)[1] as int == DIGITS[b as int % 16] as int
  {
    Nibbles(b);
    DigitIs(b >> 4);
    DigitIs(b & 0xF);
  }

  // Where byte i begins.
  function Start(i: nat, sep: Separator): nat {
    if sep.Separator? then 3 * i else 2 * i
  }

  // Byte b at p: its high digit, its low digit, and the separator if another byte follows.
  predicate Written(h: seq<Byte>, p: nat, b: Byte, sep: Separator, more: bool) {
    && p + 1 < |h|
    && h[p] as int == DIGITS[b as int / 16] as int
    && h[p + 1] as int == DIGITS[b as int % 16] as int
    && (sep.Separator? && more ==> p + 2 < |h| && h[p + 2] == sep.c)
  }

  lemma FirstByte(d: seq<Byte>, sep: Separator)
    requires d != []
    ensures Written(Hexlify(d, sep), 0, d[0], sep, |d| > 1)
  {
    PairIs(d[0]);
  }

  lemma LaterBytes(d: seq<Byte>, sep: Separator)
    requires |d| > 1
    ensures Start(1, sep) <= |Hexlify(d, sep)| && Hexlify(d, sep)[Start(1, sep)..] == Hexlify(d[1..], sep)
  {
    var head := Pair(d[0]) + (if sep.Separator? then [sep.c] else []);
    assert Hexlify(d, sep) == head + Hexlify(d[1..], sep);
  }

  lemma WrittenLater(h: seq<Byte>, k: nat, p: nat, b: Byte, sep: Separator, more: bool)
    requires k <= |h| && Written(h[k..], p, b, sep, more)
    ensures Written(h, p + k, b, sep, more)
  {
  }

  // Each byte is written where it belongs.
  lemma {:induction false} HexlifyAt(d: seq<Byte>, sep: Separator, i: nat)
    requires i < |d|
    ensures Written(Hexlify(d, sep), Start(i, sep), d[i], sep, i + 1 < |d|)
  {
    if i == 0 {
      FirstByte(d, sep);
    } else {
      HexlifyAt(d[1..], sep, i - 1);
      LaterBytes(d, sep);
      WrittenLater(Hexlify(d, sep), Start(1, sep), Start(i - 1, sep), d[i], sep, i + 1 < |d|);
    }
  }

  // What is refused, and why.
  lemma UnhexlifyRefuses(s: seq<Byte>)
    ensures Unhexlify(s) == Err(OddLength) <==> |s| % 2 == 1
    ensures Unhexlify(s) == Err(NonHexDigit) <==> |s| % 2 == 0 && exists k :: 0 <= k < |s| && !IsDigit(s[k])
  {
    if |s| % 2 == 0 {
      UnhexlifyIff(s);
      PairsError(s);
    }
  }

  lemma {:induction false} PairsError(s: seq<Byte>)
    requires |s| % 2 == 0
    ensures Pairs(s).Err? ==> Pairs(s) == Err(NonHexDigit)
  {
    if s != [] { PairsError(s[2..]); }
  }
}
