// py/parsenum.c: the loops that make a number of the bytes the loader has collected.

module JsonNumeral {
  import opened JsonText
  import opened JsonGrammar

  function Tens(k: nat): real {
    if k == 0 then 1.0 else 10.0 * Tens(k - 1)
  }

  function Tenths(k: nat): real {
    if k == 0 then 1.0 else 0.1 * Tenths(k - 1)
  }

  // n with k digits behind the point.
  function PointAt(n: int, k: nat): real {
    n as real * Tenths(k)
  }

  // v * pow(10, e), over the reals
  function Scaled(v: real, e: int): real {
    v * if e < 0 then Tenths(-e) else Tens(e)
  }

  // The variables of the loop of mp_parse_num_decimal.
  datatype Decimals = Decimals(part: DecimalPart, value: real, mult: real, exp: int, expNeg: bool)

  const FIRST := Decimals(InInteger, 0.0, 0.1, 0, false)

  // One digit.
  function TakeDigit(s: Decimals, dig: nat): Decimals {
    match s.part
    case InInteger => s.(value := 10.0 * s.value + dig as real)
    case InFraction => s.(value := s.value + dig as real * s.mult, mult := s.mult * 0.1)
    case InExponent => s.(exp := 10 * s.exp + dig)
  }

  function Result(s: Decimals): real {
    Scaled(s.value, if s.expNeg then -s.exp else s.exp)
  }

  // The rest of the loop, to the end of the text; None for an error.
  function DecimalLoop(r: seq<Byte>, s: Decimals): Option<Decimals>
    decreases |r|
  {
    if r == [] then Some(s)
    else if IsDigit(r[0]) then DecimalLoop(r[1..], TakeDigit(s, r[0] - 0x30))
    else if s.part.InInteger? && r[0] == 0x2E then DecimalLoop(r[1..], s.(part := InFraction))
    else if !s.part.InExponent? && (r[0] == 0x45 || r[0] == 0x65) then
      var sign := Cur(r[1..]);
      var exponent := if sign == 0x2B || sign == 0x2D then r[2..] else r[1..];
      if exponent == [] then None else DecimalLoop(exponent, s.(part := InExponent, expNeg := sign == 0x2D))
    else None
  }

  lemma {:induction false} LoopEndsIff(r: seq<Byte>, s: Decimals)
    ensures DecimalLoop(r, s).Some? <==> DecimalRest(r, s.part)
    decreases |r|
  {
    if r != [] {
      if IsDigit(r[0]) {
        LoopEndsIff(r[1..], TakeDigit(s, r[0] - 0x30));
      } else if s.part.InInteger? && r[0] == 0x2E {
        LoopEndsIff(r[1..], s.(part := InFraction));
      } else if !s.part.InExponent? && (r[0] == 0x45 || r[0] == 0x65) {
        var sign := Cur(r[1..]);
        var exponent := if sign == 0x2B || sign == 0x2D then r[2..] else r[1..];
        LoopEndsIff(exponent, s.(part := InExponent, expNeg := sign == 0x2D));
      }
    }
  }

  // mp_parse_num_decimal over the reals, on the bytes the number loop collects.
  method ParseDecimal(text: seq<Byte>) returns (ok: bool, value: real)
    ensures ok <==> IsDecimal(text)
    ensures ok ==> Some(value) == DecimalOf(text)
  {
    var i, neg := 0, false;
    if text != [] && text[0] == 0x2D {
      i, neg := 1, true;
    }
    var start, s := i, FIRST;
    LoopEndsIff(text[start..], FIRST);
    assert text[0..] == text;
    ok, value := true, 0.0;
    while i < |text| && ok
      invariant start <= i <= |text|
      invariant ok ==> DecimalLoop(text[i..], s) == DecimalLoop(text[start..], FIRST)
      invariant !ok ==> DecimalLoop(text[start..], FIRST) == None
      decreases |text| - i, ok
    {
      var dig := text[i];
      assert text[i..][0] == dig && text[i..][1..] == text[i + 1..];
      if IsDigit(dig) {
        s := TakeDigit(s, dig - 0x30);
        i := i + 1;
      } else if s.part.InInteger? && dig == 0x2E {
        s := s.(part := InFraction);
        i := i + 1;
      } else if !s.part.InExponent? && (dig == 0x45 || dig == 0x65) {
        i := i + 1;
        s := s.(part := InExponent, expNeg := false);
        if i < |text| && (text[i] == 0x2B || text[i] == 0x2D) {
          s := s.(expNeg := text[i] == 0x2D);
          i := i + 1;
        }
        ok := i < |text|;
      } else {
        ok := false;
      }
    }
    ok := ok && i > start;
    if ok {
      assert text[i..] == [];
      value := if neg then -Result(s) else Result(s);
    }
  }

  // The number a text stands for.
  function DecimalOf(text: seq<Byte>): Option<real> {
    var neg := Cur(text) == 0x2D;
    var body := if neg then text[1..] else text;
    if body == [] then None
    else match DecimalLoop(body, FIRST)
      case None => None
      case Some(s) => Some(if neg then -Result(s) else Result(s))
  }

  // mp_parse_num_integer in base 10, on the bytes the number loop collects.
  method ParseInteger(text: seq<Byte>) returns (n: Option<int>)
    ensures n == ParseInt(text)
  {
    var i, neg := 0, false;
    if text != [] && text[0] == 0x2D {
      i, neg := 1, true;
    }
    var start, val: int := i, 0;
    while i < |text| && IsDigit(text[i])
      invariant start <= i <= |text|
      invariant AllDigits(text[start..i]) && val == DigitsValue(text[start..i])
    {
      assert text[start..i + 1] == text[start..i] + [text[i]];
      DigitsNext(text[start..i], text[i]);
      val := val * 10 + text[i] - 0x30;
      i := i + 1;
    }
    ghost var digits := text[start..];
    assert text[0..] == text;
    if i == start || i != |text| {
      assert i < |text| ==> digits[i - start] == text[i];
      return None;
    }
    assert text[start..i] == digits;
    n := Some(if neg then -val else val);
  }

  // ---------- what the loop computes ----------

  // In the integer part, after the digits front.
  function Whole(front: seq<Byte>): Decimals {
    Decimals(InInteger, DigitsValue(front) as real, 0.1, 0, false)
  }

  // In the fraction, after the digits front, k of them behind the point.
  function Fraction(front: seq<Byte>, k: nat): Decimals {
    Decimals(InFraction, DigitsValue(front) as real * Tenths(k), Tenths(k + 1), 0, false)
  }

  lemma {:induction false} WholeLoop(front: seq<Byte>, digits: seq<Byte>, rest: seq<Byte>)
    requires AllDigits(front) && AllDigits(digits)
    ensures DecimalLoop(digits + rest, Whole(front)) == DecimalLoop(rest, Whole(front + digits))
    decreases digits
  {
    if digits == [] {
      assert digits + rest == rest && front + digits == front;
    } else {
      DigitsNext(front, digits[0]);
      assert TakeDigit(Whole(front), digits[0] - 0x30) == Whole(front + [digits[0]]);
      assert (digits + rest)[1..] == digits[1..] + rest;
      WholeLoop(front + [digits[0]], digits[1..], rest);
      assert front + [digits[0]] + digits[1..] == front + digits;
    }
  }

  lemma FractionDigit(front: seq<Byte>, k: nat, d: Byte)
    requires AllDigits(front) && IsDigit(d)
    ensures TakeDigit(Fraction(front, k), d - 0x30) == Fraction(front + [d], k + 1)
  {
    DigitsNext(front, d);
    FractionSum(DigitsValue(front) as real, (d as int - 0x30) as real, Tenths(k));
  }

  lemma FractionSum(n: real, d: real, p: real)
    ensures n * p + d * (0.1 * p) == (10.0 * n + d) * (0.1 * p)
  {
  }

  lemma {:induction false} FractionLoop(front: seq<Byte>, k: nat, digits: seq<Byte>, rest: seq<Byte>)
    requires AllDigits(front) && AllDigits(digits)
    ensures DecimalLoop(digits + rest, Fraction(front, k)) == DecimalLoop(rest, Fraction(front + digits, k + |digits|))
    decreases digits
  {
    if digits == [] {
      assert digits + rest == rest && front + digits == front;
    } else {
      FractionDigit(front, k, digits[0]);
      DigitsNext(front, digits[0]);
      assert (digits + rest)[1..] == digits[1..] + rest;
      FractionLoop(front + [digits[0]], k + 1, digits[1..], rest);
      assert front + [digits[0]] + digits[1..] == front + digits;
    }
  }

  lemma {:induction false} ExponentLoop(s: Decimals, front: seq<Byte>, digits: seq<Byte>)
    requires s.part.InExponent? && s.exp == DigitsValue(front) && AllDigits(front) && AllDigits(digits)
    ensures DecimalLoop(digits, s) == Some(s.(exp := DigitsValue(front + digits)))
    decreases digits
  {
    if digits == [] {
      assert front + digits == front;
    } else {
      DigitsNext(front, digits[0]);
      var next := TakeDigit(s, digits[0] - 0x30);
      ExponentLoop(next, front + [digits[0]], digits[1..]);
      assert front + [digits[0]] + digits[1..] == front + digits;
    }
  }

  predicate Negative(mark: seq<Byte>) {
    |mark| == 2 && mark[1] == 0x2D
  }

  // After an exponent, if any.
  function Exponent(mark: seq<Byte>, exp: seq<Byte>, s: Decimals): Decimals {
    if exp == [] then s else s.(part := InExponent, exp := DigitsValue(exp), expNeg := Negative(mark))
  }

  // An e or E and its sign, if the digits behind are not missing.
  lemma EntersExponent(mark: seq<Byte>, exp: seq<Byte>, s: Decimals)
    requires !s.part.InExponent? && IsExponentMark(mark) && exp != [] && AllDigits(exp)
    ensures DecimalLoop(mark + exp, s) == DecimalLoop(exp, s.(part := InExponent, expNeg := Negative(mark)))
  {
    var r := mark + exp;
    assert r[0] == mark[0] && r[|mark|..] == exp && Cur(r[1..]) == r[1];
    assert r[1] == if |mark| == 2 then mark[1] else exp[0];
  }

  lemma MarkLoop(mark: seq<Byte>, exp: seq<Byte>, s: Decimals)
    requires s.exp == 0 && !s.expNeg && !s.part.InExponent? && AllDigits(exp)
    requires if exp == [] then mark == [] else IsExponentMark(mark)
    ensures DecimalLoop(mark + exp, s) == Some(Exponent(mark, exp, s))
  {
    if exp == [] {
      assert mark + exp == [];
    } else {
      EntersExponent(mark, exp, s);
      ExponentLoop(s.(part := InExponent, expNeg := Negative(mark)), [], exp);
      assert [] + exp == exp;
    }
  }

  lemma FracLoop(digits: seq<Byte>, frac: seq<Byte>, mark: seq<Byte>, exp: seq<Byte>)
    requires AllDigits(digits) && AllDigits(frac) && AllDigits(exp)
    requires if exp == [] then mark == [] else IsExponentMark(mark)
    ensures DecimalLoop(FracText(frac) + (mark + exp), Whole(digits))
         == Some(Exponent(mark, exp, if frac == [] then Whole(digits) else Fraction(digits + frac, |frac|)))
  {
    var tail := mark + exp;
    if frac == [] {
      assert FracText(frac) + tail == tail;
      MarkLoop(mark, exp, Whole(digits));
    } else {
      var r := FracText(frac) + tail;
      assert r[0] == 0x2E && r[1..] == frac + tail;
      assert Whole(digits).(part := InFraction) == Fraction(digits, 0);
      FractionLoop(digits, 0, frac, tail);
      MarkLoop(mark, exp, Fraction(digits + frac, |frac|));
    }
  }

  // Any digits are the writing of a number, with leading zeros.
  lemma {:induction false} DigitsAreNumber(digits: seq<Byte>) returns (z: nat, n: nat)
    requires digits != [] && AllDigits(digits)
    ensures digits == Zeros(z) + DecimalDigits(n)
    decreases digits
  {
    if GoodDigits(digits) {
      n := DecimalDigitsOnto(digits);
      z := 0;
      assert Zeros(0) + digits == digits;
    } else {
      z, n := DigitsAreNumber(digits[1..]);
      ZeroFirst(z);
      assert digits == [0x30] + digits[1..];
      assert [0x30] + (Zeros(z) + DecimalDigits(n)) == ([0x30] + Zeros(z)) + DecimalDigits(n);
      z := z + 1;
    }
  }

  lemma {:induction false} ZeroFirst(z: nat)
    ensures [0x30] + Zeros(z) == Zeros(z + 1)
  {
    if z > 0 { ZeroFirst(z - 1); assert [0x30] + (Zeros(z - 1) + [0x30]) == ([0x30] + Zeros(z - 1)) + [0x30]; }
  }

  // The variables at the end of a decimal.
  function Final(j: Json): Decimals
    requires j.JDecimal?
  {
    Exponent(j.mark, j.exp, if j.frac == [] then Whole(j.digits) else Fraction(j.digits + j.frac, |j.frac|))
  }

  lemma ReachesFinal(j: Json)
    requires j.JDecimal? && Good(j)
    ensures DecimalLoop(j.digits + (FracText(j.frac) + (j.mark + j.exp)), FIRST) == Some(Final(j))
  {
    WholeLoop([], j.digits, FracText(j.frac) + (j.mark + j.exp));
    assert [] + j.digits == j.digits && Whole([]) == FIRST;
    FracLoop(j.digits, j.frac, j.mark, j.exp);
  }

  lemma FinalValue(j: Json)
    requires j.JDecimal? && Good(j)
    ensures Final(j).value == PointAt(DigitsValue(j.digits + j.frac), |j.frac|)
    ensures Final(j).expNeg == Negative(j.mark) && Final(j).exp == DigitsValue(j.exp)
  {
    if j.frac == [] { assert j.digits + j.frac == j.digits; }
  }

  lemma BehindSign(j: Json)
    requires j.JDecimal? && Good(j)
    ensures Text(j) != [] && j.neg == (Cur(Text(j)) == 0x2D)
    ensures (if j.neg then Text(j)[1..] else Text(j)) == j.digits + (FracText(j.frac) + (j.mark + j.exp))
  {
    assert Text(j)[0] == if j.neg then 0x2D else j.digits[0];
    assert Text(j)[|Sign(j.neg)|..] == j.digits + (FracText(j.frac) + (j.mark + j.exp));
    assert !j.neg ==> Text(j)[0..] == Text(j);
  }

  lemma NumberValue(digits: seq<Byte>, z: nat, n: nat)
    requires digits == Zeros(z) + DecimalDigits(n)
    ensures DigitsValue(digits) == n
  {
    DecimalDigitsRead(n);
    ZerosRead(z, DecimalDigits(n));
  }

  lemma DecimalFinal(j: Json)
    requires j.JDecimal? && Good(j)
    ensures DecimalOf(Text(j)) == Some(if j.neg then -Result(Final(j)) else Result(Final(j)))
  {
    BehindSign(j);
    ReachesFinal(j);
  }

  // A decimal of RFC 4627 stands for the number its digits write, with the point where it is,
  // times ten to the power of its exponent: n are the digits without the point, e those of the
  // exponent.
  lemma DecimalMeans(j: Json, z: nat, n: nat, z': nat, e: nat)
    requires j.JDecimal? && Good(j) && j.digits + j.frac == Zeros(z) + DecimalDigits(n)
    requires if j.exp == [] then e == 0 else j.exp == Zeros(z') + DecimalDigits(e)
    ensures var v := Scaled(PointAt(n, |j.frac|), Signed(Negative(j.mark), e));
      DecimalOf(Text(j)) == Some(if j.neg then -v else v)
  {
    DecimalFinal(j);
    FinalValue(j);
    NumberValue(j.digits + j.frac, z, n);
    if j.exp != [] { NumberValue(j.exp, z', e); }
  }
}
