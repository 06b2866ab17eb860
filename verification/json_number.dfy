// Which texts the number loop and the two number parsers take.

module JsonNumber {
  import opened JsonText
  import opened JsonGrammar
  import opened Seqs

  // A minus or none, digits, a point with digits or none, an exponent mark with digits or none.
  datatype Numeral = Numeral(
    neg: bool, digits: seq<Byte>, point: bool, frac: seq<Byte>, mark: seq<Byte>, exp: seq<Byte>)

  // An e or E, with a minus or without.
  predicate LaxMark(mark: seq<Byte>) {
    IsExponentMark(mark) && (|mark| == 2 ==> mark[1] == 0x2D)
  }

  predicate LaxExponent(mark: seq<Byte>, exp: seq<Byte>) {
    AllDigits(exp) && if exp == [] then mark == [] else LaxMark(mark)
  }

  // A minus needs something behind it, which may be a point or an exponent alone; what does
  // not start with a minus starts with a digit.
  predicate LaxNumeral(n: Numeral) {
    && AllDigits(n.digits) && AllDigits(n.frac) && LaxExponent(n.mark, n.exp) && (n.frac != [] ==> n.point)
    && if n.neg then n.digits != [] || n.point || n.exp != [] else n.digits != []
  }

  function PointText(point: bool, frac: seq<Byte>): seq<Byte> {
    if point then [0x2E] + frac else []
  }

  function NumeralText(n: Numeral): seq<Byte> {
    Sign(n.neg) + (n.digits + (PointText(n.point, n.frac) + (n.mark + n.exp)))
  }

  ghost predicate IsNumber(text: seq<Byte>) {
    exists n :: LaxNumeral(n) && text == NumeralText(n)
  }

  // What the number parsers take, among runs of number bytes.
  predicate NumberTaken(text: seq<Byte>) {
    && text != [] && (text[0] == 0x2D || IsDigit(text[0]))
    && NumberBytes(text) && NumberAtom(text).Some?
  }

  lemma NumberTakenIff(text: seq<Byte>)
    ensures NumberTaken(text) <==> IsNumber(text)
  {
    if NumberTaken(text) {
      var n := NumeralOf(text);
    } else if IsNumber(text) {
      var n :| LaxNumeral(n) && text == NumeralText(n);
      NumeralTaken(n);
    }
  }

  // ---------- a numeral is taken ----------

  lemma PointRest(point: bool, frac: seq<Byte>, mark: seq<Byte>, exp: seq<Byte>)
    requires AllDigits(frac) && LaxExponent(mark, exp)
    ensures DecimalRest(PointText(point, frac) + (mark + exp), InInteger)
  {
    if point {
      assert (PointText(point, frac) + (mark + exp))[1..] == frac + (mark + exp);
      DigitsRest(frac, mark + exp, InFraction);
      ExponentRest(mark, exp, InFraction);
    } else {
      assert PointText(point, frac) + (mark + exp) == mark + exp;
      ExponentRest(mark, exp, InInteger);
    }
  }

  lemma NumeralBytes(n: Numeral)
    requires LaxNumeral(n)
    ensures NumberBytes(NumeralText(n))
  {
    NumberBytesCat(n.mark, n.exp);
    NumberBytesCat([0x2E], n.frac);
    NumberBytesCat(PointText(n.point, n.frac), n.mark + n.exp);
    NumberBytesCat(n.digits, PointText(n.point, n.frac) + (n.mark + n.exp));
    NumberBytesCat(Sign(n.neg), n.digits + (PointText(n.point, n.frac) + (n.mark + n.exp)));
  }

  lemma NumeralTaken(n: Numeral)
    requires LaxNumeral(n)
    ensures NumberTaken(NumeralText(n))
  {
    var tail := PointText(n.point, n.frac) + (n.mark + n.exp);
    var text, body := NumeralText(n), n.digits + tail;
    NumeralBytes(n);
    assert text[0] == if n.neg then 0x2D else n.digits[0];
    assert (if Cur(text) == 0x2D then text[1..] else text) == body;
    if n.point || n.exp != [] {
      assert text[|Sign(n.neg)| + |n.digits|] == tail[0] && IsFloatMark(tail[0]);
      PointRest(n.point, n.frac, n.mark, n.exp);
      DigitsRest(n.digits, tail, InInteger);
    } else {
      assert tail == [] && body == n.digits && text == Sign(n.neg) + n.digits;
      NotFloat(n.neg, n.digits);
      ParsesAs(text, n.neg, n.digits);
    }
  }

  // ---------- what is taken is a numeral ----------

  lemma {:induction false} ExponentDigits(r: seq<Byte>)
    requires DecimalRest(r, InExponent)
    ensures AllDigits(r)
    decreases r
  {
    if r != [] {
      ExponentDigits(r[1..]);
      forall i | 0 <= i < |r| ensures IsDigit(r[i]) {
        if i > 0 { assert r[i] == r[1..][i - 1]; }
      }
    }
  }

  lemma MarkSplit(r: seq<Byte>, part: DecimalPart) returns (mark: seq<Byte>, exp: seq<Byte>)
    requires r != [] && (r[0] == 0x65 || r[0] == 0x45) && !part.InExponent?
    requires DecimalRest(r, part) && NumberBytes(r)
    ensures LaxExponent(mark, exp) && r == mark + exp
  {
    var n := if Cur(r[1..]) == 0x2D then 2 else 1;
    assert |r| > 1 ==> IsNumberByte(r[1]);
    mark, exp := r[..n], r[n..];
    ExponentDigits(exp);
  }

  lemma {:induction false} LeadingDigits(r: seq<Byte>) returns (digits: seq<Byte>, rest: seq<Byte>)
    ensures AllDigits(digits) && r == digits + rest && (rest != [] ==> !IsDigit(rest[0]))
    decreases r
  {
    digits, rest := [], r;
    if r != [] && IsDigit(r[0]) {
      digits, rest := LeadingDigits(r[1..]);
      Regroup([r[0]], digits, rest);
      digits := [r[0]] + digits;
    }
  }

  lemma NumberBytesEnd(a: seq<Byte>, b: seq<Byte>)
    requires NumberBytes(a + b)
    ensures NumberBytes(b)
  {
    forall i | 0 <= i < |b| ensures IsNumberByte(b[i]) {
      assert (a + b)[|a| + i] == b[i];
    }
  }

  lemma FracSplit(r: seq<Byte>) returns (frac: seq<Byte>, mark: seq<Byte>, exp: seq<Byte>)
    requires DecimalRest(r, InFraction) && NumberBytes(r)
    ensures AllDigits(frac) && LaxExponent(mark, exp) && r == frac + (mark + exp)
  {
    var rest;
    frac, rest := LeadingDigits(r);
    DigitsRest(frac, rest, InFraction);
    NumberBytesEnd(frac, rest);
    mark, exp := [], [];
    if rest != [] { mark, exp := MarkSplit(rest, InFraction); }
  }

  lemma IntegerSplit(r: seq<Byte>) returns (n: Numeral)
    requires DecimalRest(r, InInteger) && NumberBytes(r)
    ensures !n.neg && AllDigits(n.digits) && AllDigits(n.frac) && LaxExponent(n.mark, n.exp)
    ensures n.frac != [] ==> n.point
    ensures r == n.digits + (PointText(n.point, n.frac) + (n.mark + n.exp))
  {
    var digits, rest := LeadingDigits(r);
    DigitsRest(digits, rest, InInteger);
    NumberBytesEnd(digits, rest);
    n := Numeral(false, digits, false, [], [], []);
    if rest != [] && rest[0] == 0x2E {
      var frac, mark, exp := FracSplit(rest[1..]);
      n := Numeral(false, digits, true, frac, mark, exp);
      Regroup([0x2E], frac, mark + exp);
      assert rest == [0x2E] + rest[1..];
    } else if rest != [] {
      var mark, exp := MarkSplit(rest, InInteger);
      n := Numeral(false, digits, false, [], mark, exp);
      assert [] + (mark + exp) == mark + exp;
    }
  }

  lemma NumeralOf(text: seq<Byte>) returns (n: Numeral)
    requires NumberTaken(text)
    ensures LaxNumeral(n) && text == NumeralText(n)
  {
    var neg := text[0] == 0x2D;
    var body := if neg then text[1..] else text;
    assert text == Sign(neg) + body;
    if IsFloat(text) {
      var m := IntegerSplit(body);
      n := m.(neg := neg);
      if !neg { DigitLeads(body, n); }
    } else {
      n := Numeral(neg, body, false, [], [], []);
      assert body + ([] + ([] + [])) == body;
    }
  }

  lemma DigitLeads(body: seq<Byte>, n: Numeral)
    requires body != [] && IsDigit(body[0]) && body == n.digits + (PointText(n.point, n.frac) + (n.mark + n.exp))
    requires LaxExponent(n.mark, n.exp) && (n.frac != [] ==> n.point)
    ensures n.digits != []
  {
    var tail := PointText(n.point, n.frac) + (n.mark + n.exp);
    assert tail != [] ==> !IsDigit(tail[0]);
  }
}
