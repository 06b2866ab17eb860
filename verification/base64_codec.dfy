// extmod/modubinascii.c: the base64 loops over their buffers.

module Base64Codec {
  import opened Codec
  import opened Seqs
  import opened Base64
  import opened Base64Laws

  // mod_binascii_b2a_base64: both passes fill exactly the buffer that was allocated.
  method B2aBase64(data: seq<Byte>) returns (vstr: array<Byte>)
    ensures fresh(vstr) && vstr.Length == EncodedLength(|data|) + 1
    ensures vstr[..] == Encode(data) + [NEWLINE]
  {
    vstr := new Byte[(if |data| != 0 then ((|data| - 1) / 3 + 1) * 4 else 0) + 1](_ => 0);
    SextetsLength(data);
    FirstPass(data, vstr);
    ghost var sextets := Sextets(data);
    var out, j := 0, vstr.Length - 1;
    while j > 0
      invariant 0 <= j && out + j == |sextets| == vstr.Length - 1
      invariant forall k :: 0 <= k < out ==> vstr[k] == CharOf(sextets[k])
      invariant forall k :: out <= k < |sextets| ==> vstr[k] == sextets[k]
    {
      vstr[out] := CharOf(vstr[out]);
      out := out + 1;
      j := j - 1;
    }
    vstr[out] := NEWLINE;
    assert vstr[..out] == Encode(data);
  }

  method FirstPass(data: seq<Byte>, vstr: array<Byte>)
    requires vstr.Length == |Sextets(data)| + 1
    modifies vstr
    ensures vstr[..vstr.Length - 1] == Sextets(data)
  {
    var i, pos, out := |data|, 0, 0;
    ghost var rest := data;
    while i >= 3
      invariant 0 <= i && pos + i == |data| && rest == data[pos..] && out + |Sextets(rest)| == vstr.Length - 1
      invariant vstr[..out] + Sextets(rest) == Sextets(data)
    {
      StepSextets(vstr[..out], rest);
      WriteQuad(vstr, out, First(data[pos]), Second(data[pos], data[pos + 1]), Third(data[pos + 1], data[pos + 2]),
          Fourth(data[pos + 2]));
      out := out + 4;
      pos := pos + 3;
      i := i - 3;
      rest := rest[3..];
    }
    if i != 0 {
      if i == 2 {
        WriteQuad(vstr, out, First(data[pos]), Second(data[pos], data[pos + 1]), ThirdAlone(data[pos + 1]), PAD);
      } else {
        WriteQuad(vstr, out, First(data[pos]), SecondAlone(data[pos]), PAD, PAD);
      }
    }
  }

  // *out++ four times.
  method WriteQuad(vstr: array<Byte>, out: nat, h0: Byte, h1: Byte, h2: Byte, h3: Byte)
    requires out + 4 <= vstr.Length
    modifies vstr
    ensures vstr[..out + 4] == old(vstr[..out]) + [h0, h1, h2, h3]
  {
    vstr[out], vstr[out + 1], vstr[out + 2], vstr[out + 3] := h0, h1, h2, h3;
  }

  lemma StepSextets(before: seq<Byte>, rest: seq<Byte>)
    requires |rest| >= 3
    ensures before + Sextets(rest) == before + Group(rest[0], rest[1], rest[2]) + Sextets(rest[3..])
  {
    Regroup(before, Group(rest[0], rest[1], rest[2]), Sextets(rest[3..]));
  }

  // The hold loop and the output of one quad.
  method DecodeQuad(q: seq<Byte>, last: bool) returns (r: Result)
    requires |q| == 4
    ensures r == Quad(q, last)
  {
    var hold := new Byte[4](_ => 0);
    var j := 4;
    while j > 0
      invariant 0 <= j <= 4
      invariant QuadError(q, last, j) == QuadError(q, last, 4)
      invariant forall k :: j <= k < 4 ==> Held(q[k], hold[k]) && (SymbolOf(q[k]).Pad? ==> k >= 2)
    {
      j := j - 1;
      var c := HoldOf(q[j]);
      if c.Pad? && (j < 2 || !last) {
        return Err(IncorrectPadding);
      } else if c.Bad? {
        return Err(InvalidCharacter);
      }
      hold[j] := if c.Pad? then PAD else c.v;
    }
    SymbolChar(q[2]);
    SymbolChar(q[3]);
    var bytes := [Out1(hold[0], hold[1])];
    if hold[2] != PAD {
      bytes := bytes + [Out2(hold[1], hold[2])];
      if hold[3] != PAD {
        bytes := bytes + [Out3(hold[2], hold[3])];
      }
    }
    r := Ok(bytes);
  }

  // The classification of one character.
  method HoldOf(c: Byte) returns (s: Symbol)
    ensures s == SymbolOf(c)
  {
    if 65 <= c <= 90 {
      s := Val(c - 65);
    } else if 97 <= c <= 122 {
      s := Val(c - 97 + 26);
    } else if 48 <= c <= 57 {
      s := Val(c - 48 + 52);
    } else if c == 43 {
      s := Val(62);
    } else if c == 47 {
      s := Val(63);
    } else if c == EQUALS {
      s := Pad;
    } else {
      s := Bad;
    }
  }

  predicate Held(c: Byte, v: Byte) {
    if SymbolOf(c).Val? then v == SymbolOf(c).v else SymbolOf(c).Pad? && v == PAD
  }

  // mod_binascii_a2b_base64. It returns the whole buffer it allocated: the decoded bytes
  // and, after stray padding, whatever the rest of the buffer held.
  method A2bBase64(data: seq<Byte>) returns (r: Result, vstr: array<Byte>, ghost written: nat)
    ensures fresh(vstr)
    ensures r == if Decode(data).Ok? then Ok(vstr[..]) else Decode(data)
    ensures Decode(data).Ok? ==> written == |Decode(data).bytes| <= vstr.Length && vstr[..written] == Decode(data).bytes
    ensures Decode(data).Ok? ==> (r == Decode(data) <==> !StrayPadding(data))
  {
    written := 0;
    if |data| % 4 != 0 {
      vstr := new Byte[0];
      return Err(IncorrectPadding), vstr, 0;
    }
    vstr := new Byte[DecodedLength(data)](_ => 0);
    if Decode(data).Ok? { LengthIff(data); }
    var bad, out := DecodeAll(data, vstr);
    if bad.Err? {
      return bad, vstr, 0;
    }
    assert out == vstr.Length ==> vstr[..out] == vstr[..];
    written := out;
    r := Ok(vstr[..]);
  }

  // Its loop.
  method DecodeAll(data: seq<Byte>, vstr: array<Byte>) returns (bad: Result, out: nat)
    requires |data| % 4 == 0 && vstr.Length == DecodedLength(data)
    modifies vstr
    ensures bad.Err? ==> Quads(data) == bad
    ensures bad.Ok? ==> out <= vstr.Length && Quads(data) == Ok(vstr[..out])
  {
    out := 0;
    bad := Ok([]);
    var i, rest := |data|, data;
    ghost var target := Quads(data);
    ThenNothing(target);
    while i > 0
      invariant i == |rest| && i % 4 == 0
      invariant 0 <= out <= vstr.Length && bad == Ok([])
      invariant i > 0 ==> out + DecodedLength(rest) == vstr.Length
      invariant target == Then(vstr[..out], Quads(rest))
    {
      bad, out := DecodeGroup(rest, i <= 4, vstr, out);
      if bad.Err? {
        return;
      }
      rest := rest[4..];
      i := i - 4;
    }
    EndOfQuads(vstr[..out], rest);
  }

  lemma EndOfQuads(before: seq<Byte>, rest: seq<Byte>)
    requires rest == []
    ensures Then(before, Quads(rest)) == Ok(before)
  {
    assert before + [] == before;
  }

  // One turn of it, on the characters from in on.
  method DecodeGroup(rest: seq<Byte>, last: bool, vstr: array<Byte>, start: nat) returns (bad: Result, out: nat)
    requires rest != [] && |rest| % 4 == 0 && last == (|rest| == 4)
    requires start + DecodedLength(rest) == vstr.Length
    modifies vstr
    ensures bad.Err? ==> Quads(rest) == bad
    ensures bad.Ok? ==> bad == Ok([]) && out <= vstr.Length && (!last ==> out + DecodedLength(rest[4..]) == vstr.Length)
    ensures bad.Ok? ==> Then(old(vstr[..start]), Quads(rest)) == Then(vstr[..out], Quads(rest[4..]))
  {
    out := start;
    var q := DecodeQuad(rest[..4], last);
    if q.Err? {
      bad := q;
      return;
    }
    RestLength(rest);
    ThenThen(vstr[..start], q.bytes, Quads(rest[4..]));
    out := WriteOut(vstr, start, q.bytes);
    bad := Ok([]);
  }

  // What a quad writes fits what was allocated for it.
  lemma RestLength(rest: seq<Byte>)
    requires |rest| % 4 == 0 && rest != [] && Quad(rest[..4], |rest| == 4).Ok?
    ensures var n := |Quad(rest[..4], |rest| == 4).bytes|;
      if |rest| == 4 then n <= DecodedLength(rest) else n == 3 && DecodedLength(rest) == 3 + DecodedLength(rest[4..])
  {
    QuadLength(rest[..4], |rest| == 4);
  }
}
