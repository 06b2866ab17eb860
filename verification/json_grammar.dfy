// RFC 4627 section 2, and the loader's main theorem: every rendering of a value loads as it.

module JsonGrammar {
  import opened JsonText
  import opened JsonLoader

  // A JSON text with every choice its writer had: whitespace, escapes, number digits.
  datatype Char = Raw(b: Byte) | Esc(letter: Byte) | Uni(a: Byte, b: Byte, c: Byte, d: Byte)
  datatype Json =
    | JNull | JTrue | JFalse
    | JInt(neg: bool, n: nat)
    | JDecimal(neg: bool, digits: seq<Byte>, frac: seq<Byte>, mark: seq<Byte>, exp: seq<Byte>)
    | JStr(chars: seq<Char>)
    | JArr(inner: seq<Byte>, items: Items)
    | JObj(inner: seq<Byte>, members: Members)
  datatype Items = NoItems | Item(pre: seq<Byte>, c: Json, post: seq<Byte>, more: Items)
  datatype Members =
    | NoMembers
    | Member(pre: seq<Byte>, name: seq<Char>, beforeColon: seq<Byte>, afterColon: seq<Byte>, c: Json,
        post: seq<Byte>, more: Members)

  // ---------- which texts are JSON ----------

  predicate IsWs(ws: seq<Byte>) {
    forall i :: 0 <= i < |ws| ==> ws[i] == 0x20 || ws[i] == 0x09 || ws[i] == 0x0A || ws[i] == 0x0D
  }

  predicate IsHex(c: Byte) {
    IsDigit(c) || 0x41 <= c <= 0x46 || 0x61 <= c <= 0x66
  }

  function HexValue(c: Byte): nat
    requires IsHex(c)
  {
    if c <= 0x39 then c - 0x30 else if c <= 0x46 then c - 0x41 + 10 else c - 0x61 + 10
  }

  predicate GoodChar(ch: Char) {
    match ch
    case Raw(b) => b >= 0x20 && b != 0x22 && b != 0x5C
    case Esc(letter) => letter in {0x22, 0x5C, 0x2F, 0x62, 0x66, 0x6E, 0x72, 0x74}
    case Uni(a, b, c, d) =>
      IsHex(a) && IsHex(b) && IsHex(c) && IsHex(d)
  }

  function CodePoint(a: Byte, b: Byte, c: Byte, d: Byte): nat
    requires IsHex(a) && IsHex(b) && IsHex(c) && IsHex(d)
  {
    0x1000 * HexValue(a) + 0x100 * HexValue(b) + 0x10 * HexValue(c) + HexValue(d)
  }

  predicate GoodChars(chars: seq<Char>) {
    forall i :: 0 <= i < |chars| ==> GoodChar(chars[i])
  }

  predicate GoodDigits(digits: seq<Byte>) {
    && digits != [] && AllDigits(digits)
    && (|digits| > 1 ==> digits[0] != 0x30)
  }

  // An e or E with its sign, if any.
  predicate IsExponentMark(mark: seq<Byte>) {
    1 <= |mark| <= 2 && (mark[0] == 0x65 || mark[0] == 0x45) && (|mark| == 2 ==> mark[1] == 0x2B || mark[1] == 0x2D)
  }

  // A number with a fraction or an exponent, or both.
  predicate GoodDecimal(digits: seq<Byte>, frac: seq<Byte>, mark: seq<Byte>, exp: seq<Byte>) {
    && GoodDigits(digits) && AllDigits(frac) && AllDigits(exp)
    && (if exp == [] then mark == [] && frac != [] else IsExponentMark(mark))
  }

  predicate Good(j: Json) {
    match j
    case JDecimal(_, digits, frac, mark, exp) => GoodDecimal(digits, frac, mark, exp)
    case JStr(chars) => GoodChars(chars)
    case JArr(inner, items) => IsWs(inner) && GoodItems(items)
    case JObj(inner, members) => IsWs(inner) && GoodMembers(members)
    case _ => true
  }

  predicate GoodItems(items: Items) {
    match items
    case NoItems => true
    case Item(pre, c, post, more) => IsWs(pre) && IsWs(post) && Good(c) && GoodItems(more)
  }

  predicate GoodMembers(members: Members) {
    match members
    case NoMembers => true
    case Member(pre, name, w1, w2, c, post, more) =>
      IsWs(pre) && GoodChars(name) && IsWs(w1) && IsWs(w2) && IsWs(post) && Good(c) && GoodMembers(more)
  }

  // No exponent is written with a plus sign, which the number loop does not take.
  predicate NoPlus(j: Json) {
    match j
    case JDecimal(_, _, _, mark, _) => 0x2B !in mark
    case JArr(_, items) => ItemsNoPlus(items)
    case JObj(_, members) => MembersNoPlus(members)
    case _ => true
  }

  predicate ItemsNoPlus(items: Items) {
    match items
    case NoItems => true
    case Item(_, c, _, more) => NoPlus(c) && ItemsNoPlus(more)
  }

  predicate MembersNoPlus(members: Members) {
    match members
    case NoMembers => true
    case Member(_, _, _, _, c, _, more) => NoPlus(c) && MembersNoPlus(more)
  }

  // ---------- the text ----------

  function Sign(neg: bool): seq<Byte> {
    if neg then [0x2D] else []
  }

  function Signed(neg: bool, n: int): int {
    if neg then -n else n
  }

  // The decimal writing of a number: its last digit behind the writing of the rest.
  function DecimalDigits(n: nat): seq<Byte> {
    if n < 10 then [0x30 + n] else DecimalDigits(n / 10) + [0x30 + n % 10]
  }

  function Zeros(k: nat): seq<Byte> {
    if k == 0 then [] else Zeros(k - 1) + [0x30]
  }

  function FracText(frac: seq<Byte>): seq<Byte> {
    if frac == [] then [] else [0x2E] + frac
  }

  function CharText(ch: Char): seq<Byte> {
    match ch
    case Raw(b) => [b]
    case Esc(letter) => [0x5C, letter]
    case Uni(a, b, c, d) => [0x5C, 0x75, a, b, c, d]
  }

  function CharsText(chars: seq<Char>): seq<Byte> {
    if chars == [] then [] else CharText(chars[0]) + CharsText(chars[1..])
  }

  function Quoted(chars: seq<Char>): seq<Byte> {
    [0x22] + CharsText(chars) + [0x22]
  }

  function Text(j: Json): seq<Byte> {
    match j
    case JNull => [0x6E, 0x75, 0x6C, 0x6C]
    case JTrue => [0x74, 0x72, 0x75, 0x65]
    case JFalse => [0x66, 0x61, 0x6C, 0x73, 0x65]
    case JInt(neg, n) => Sign(neg) + DecimalDigits(n)
    case JDecimal(neg, digits, frac, mark, exp) => Sign(neg) + (digits + (FracText(frac) + (mark + exp)))
    case JStr(chars) => Quoted(chars)
    case JArr(inner, items) => [0x5B] + inner + ItemsText(items) + [0x5D]
    case JObj(inner, members) => [0x7B] + inner + MembersText(members) + [0x7D]
  }

  function ItemsText(items: Items): seq<Byte> {
    match items
    case NoItems => []
    case Item(pre, c, post, more) =>
      pre + (Text(c) + (post + (if more.NoItems? then [] else [0x2C] + ItemsText(more))))
  }

  function MembersText(members: Members): seq<Byte> {
    match members
    case NoMembers => []
    case Member(pre, name, w1, w2, c, post, more) =>
      pre + (Quoted(name)
          + ((w1 + [0x3A] + w2) + (Text(c) + (post + (if more.NoMembers? then [] else [0x2C] + MembersText(more))))))
  }

  // ---------- the value ----------

  function EscapeValue(letter: Byte): Byte {
    if letter == 0x62 then 0x08 else if letter == 0x66 then 0x0C else if letter == 0x6E then 0x0A
    else if letter == 0x72 then 0x0D else if letter == 0x74 then 0x09 else letter
  }

  function CharValue(ch: Char): seq<Byte>
    requires GoodChar(ch)
  {
    match ch
    case Raw(b) => [b]
    case Esc(letter) => [EscapeValue(letter)]
    case Uni(a, b, c, d) => Utf8(CodePoint(a, b, c, d))
  }

  function CharsValue(chars: seq<Char>): seq<Byte>
    requires GoodChars(chars)
  {
    if chars == [] then [] else CharValue(chars[0]) + CharsValue(chars[1..])
  }

  function AtomOf(j: Json): Atom
    requires Good(j)
  {
    match j
    case JTrue => Bool(true)
    case JFalse => Bool(false)
    case JInt(neg, n) => Int(Signed(neg, n))
    case JDecimal(_, _, _, _, _) => Decimal(Text(j))
    case JStr(chars) => Str(CharsValue(chars))
    case _ => Null
  }

  function ValueOf(j: Json): Value
    requires Good(j)
  {
    match j
    case JArr(_, items) => VList(ItemValues(items))
    case JObj(_, members) => VDict(MemberValues(members, map[]))
    case _ => VAtom(AtomOf(j))
  }

  function ItemValues(items: Items): seq<Value>
    requires GoodItems(items)
  {
    match items
    case NoItems => []
    case Item(_, c, _, more) => [ValueOf(c)] + ItemValues(more)
  }

  // Later members of the same name replace earlier ones.
  function MemberValues(members: Members, acc: map<Atom, Value>): map<Atom, Value>
    requires GoodMembers(members)
    decreases members
  {
    match members
    case NoMembers => acc
    case Member(_, name, _, _, c, _, more) => MemberValues(more, acc[Str(CharsValue(name)) := ValueOf(c)])
  }

  // ---------- strings ----------

  lemma BitOrDouble(a: nat, b: nat)
    ensures BitOr(2 * a, b) == 2 * BitOr(a, b / 2) + b % 2
  {
  }

  lemma ShiftInDigit(num: nat, c: Byte)
    requires c < 16
    ensures ShiftIn(num, c) == 16 * num + c
  {
    BitOrFourfold(4 * num, c);
    BitOrFourfold(num, c / 4);
    assert c / 4 / 4 == 0;
  }

  lemma BitOrFourfold(a: nat, b: nat)
    ensures BitOr(4 * a, b) == 4 * BitOr(a, b / 4) + b % 4
  {
    BitOrDouble(2 * a, b);
    BitOrDouble(a, b / 2);
    assert b / 2 / 2 == b / 4 && b % 4 == 2 * (b / 2 % 2) + b % 2;
  }

  lemma HexDigitValue(c: Byte)
    requires IsHex(c)
    ensures HexDigit(c) == HexValue(c) < 16
  {
  }

  function HexNumber(digits: seq<Byte>, num: nat): nat
    requires forall i :: 0 <= i < |digits| ==> IsHex(digits[i])
  {
    if digits == [] then num else HexNumber(digits[1..], 16 * num + HexValue(digits[0]))
  }

  // The digit loop, entered at the byte u before the digits, stops at the last of them.
  lemma {:induction false} EscapeReads(u: Byte, digits: seq<Byte>, rest: seq<Byte>, num: nat)
    requires forall i :: 0 <= i < |digits| ==> IsHex(digits[i])
    ensures EscapeDigits([u] + (digits + rest), |digits|, num)
         == (HexNumber(digits, num), [if digits == [] then u else digits[|digits| - 1]] + rest)
    decreases digits
  {
    if digits == [] {
      assert [] + rest == rest;
    } else {
      var r := [u] + (digits + rest);
      assert Next(r) == [digits[0]] + (digits[1..] + rest);
      HexDigitValue(digits[0]);
      ShiftInDigit(num, HexDigit(digits[0]));
      EscapeReads(digits[0], digits[1..], rest, 16 * num + HexValue(digits[0]));
    }
  }

  lemma CodePointNumber(a: Byte, b: Byte, c: Byte, d: Byte)
    requires IsHex(a) && IsHex(b) && IsHex(c) && IsHex(d)
    ensures HexNumber([a, b, c, d], 0) == CodePoint(a, b, c, d)
  {
    assert [a, b, c, d][1..] == [b, c, d] && [b, c, d][1..] == [c, d] && [c, d][1..] == [d] && [d][1..] == [];
    var n1 := HexValue(a);
    var n2 := 16 * n1 + HexValue(b);
    var n3 := 16 * n2 + HexValue(c);
    assert HexNumber([a, b, c, d], 0) == HexNumber([b, c, d], n1);
    assert HexNumber([b, c, d], n1) == HexNumber([c, d], n2);
    assert HexNumber([c, d], n2) == HexNumber([d], n3);
    assert HexNumber([d], n3) == 16 * n3 + HexValue(d);
  }

  lemma UnicodeReads(a: Byte, b: Byte, c: Byte, d: Byte, rest: seq<Byte>)
    requires GoodChar(Uni(a, b, c, d))
    ensures CharStep([0x5C, 0x75, a, b, c, d] + rest) == (Utf8(CodePoint(a, b, c, d)), rest)
  {
    var r := [0x5C, 0x75, a, b, c, d] + rest;
    assert Next(r) == [0x75] + ([a, b, c, d] + rest);
    EscapeReads(0x75, [a, b, c, d], rest, 0);
    CodePointNumber(a, b, c, d);
    assert Next([d] + rest) == rest;
  }

  lemma SimpleReads(letter: Byte, rest: seq<Byte>)
    requires GoodChar(Esc(letter))
    ensures CharStep([0x5C, letter] + rest) == ([EscapeValue(letter)], rest)
  {
    var r := [0x5C, letter] + rest;
    assert Next(r) == [letter] + rest && Next([letter] + rest) == rest;
  }

  lemma CharReads(ch: Char, rest: seq<Byte>)
    requires GoodChar(ch)
    ensures CharText(ch) + rest != [] && (CharText(ch) + rest)[0] != 0x22 && Cur(CharText(ch) + rest) != 0
    ensures CharStep(CharText(ch) + rest) == (CharValue(ch), rest)
  {
    match ch {
      case Raw(b) => assert ([b] + rest)[1..] == rest;
      case Esc(letter) => SimpleReads(letter, rest);
      case Uni(a, b, c, d) => UnicodeReads(a, b, c, d, rest);
    }
  }

  lemma ScanChar(ch: Char, rest: seq<Byte>, acc: seq<Byte>)
    requires GoodChar(ch)
    ensures ScanString(CharText(ch) + rest, acc) == ScanString(rest, acc + CharValue(ch))
  {
    CharReads(ch, rest);
  }

  lemma ScanEnd(rest: seq<Byte>, acc: seq<Byte>)
    ensures ScanString([0x22] + rest, acc) == Some((acc, rest))
  {
    assert ([0x22] + rest)[1..] == rest;
  }

  lemma {:induction false} CharsRead(chars: seq<Char>, acc: seq<Byte>, end: seq<Byte>)
    requires GoodChars(chars)
    ensures ScanString(CharsText(chars) + end, acc) == ScanString(end, acc + CharsValue(chars))
    decreases chars
  {
    if chars == [] {
      assert CharsText(chars) + end == end;
      assert acc + [] == acc;
    } else {
      var add := CharValue(chars[0]);
      assert CharsText(chars) + end == CharText(chars[0]) + (CharsText(chars[1..]) + end);
      ScanChar(chars[0], CharsText(chars[1..]) + end, acc);
      CharsRead(chars[1..], acc + add, end);
      assert (acc + add) + CharsValue(chars[1..]) == acc + CharsValue(chars);
    }
  }

  // utf8_get_char of py/unicode.c on the bytes of one character.
  function Utf8Decode(s: seq<Byte>): nat
    requires s != []
  {
    var bytes: seq<nat> := s;
    if bytes[0] < 0x80 then bytes[0]
    else if |s| == 2 then (bytes[0] % 0x20) * 0x40 + bytes[1] % 0x40
    else if |s| == 3 then (bytes[0] % 0x10) * 0x1000 + (bytes[1] % 0x40) * 0x40 + bytes[2] % 0x40
    else if |s| == 4 then
      (bytes[0] % 8) * 0x40000 + (bytes[1] % 0x40) * 0x1000 + (bytes[2] % 0x40) * 0x40 + bytes[3] % 0x40
    else 0
  }

  lemma Continuation(x: nat)
    ensures 0x80 <= x % 0x40 + 0x80 < 0xC0 && (x % 0x40 + 0x80) % 0x40 == x % 0x40
  {
  }

  // The bytes of one character: a head that tells their number, and the others.
  predicate IsUtf8(s: seq<Byte>) {
    && 1 <= |s| <= 4
    && (if |s| == 1 then s[0] < 0x80 else if |s| == 2 then 0xC0 <= s[0] < 0xE0
        else if |s| == 3 then 0xE0 <= s[0] < 0xF0 else 0xF0 <= s[0] < 0xF8)
    && forall i :: 0 < i < |s| ==> 0x80 <= s[i] < 0xC0
  }

  // A \u escape leaves the bytes from which its own code point is read back. Digits that are
  // no hexadecimal ones give code points of up to 20 bits.
  lemma Utf8RoundTrip(c: nat)
    requires c < 0x110000
    ensures Utf8Decode(Utf8(c)) == c && IsUtf8(Utf8(c))
  {
    Continuation(c);
    Continuation(c / 0x40);
    Continuation(c / 0x1000);
    if c >= 0x10000 { FourByteHead(c); } else if c >= 0x800 { ThreeByteHead(c); } else if c >= 0x80 { TwoByteHead(c); }
  }

  lemma FourByteHead(c: nat)
    requires c < 0x110000
    ensures (c / 0x40000 + 0xF0) % 256 == c / 0x40000 + 0xF0 && (c / 0x40000 + 0xF0) % 8 == c / 0x40000
    ensures c == (c / 0x40000) * 0x40000 + (c / 0x1000 % 0x40) * 0x1000 + (c / 0x40 % 0x40) * 0x40 + c % 0x40
  {
    FourByteParts(c / 0x40000, c / 0x1000, c / 0x40, c);
  }

  lemma FourByteParts(a: nat, b: nat, d: nat, c: nat)
    requires a == b / 0x40 && b == d / 0x40 && d == c / 0x40
    ensures c == a * 0x40000 + (b % 0x40) * 0x1000 + (d % 0x40) * 0x40 + c % 0x40
  {
  }

  lemma TwoByteHead(c: nat)
    requires c < 0x800
    ensures (c / 0x40 + 0xC0) % 0x20 == c / 0x40
  {
  }

  lemma ThreeByteHead(c: nat)
    requires c < 0x10000
    ensures (c / 0x1000 + 0xE0) % 0x10 == c / 0x1000
    ensures c == (c / 0x1000) * 0x1000 + (c / 0x40 % 0x40) * 0x40 + c % 0x40
  {
  }

  // ---------- tokens ----------

  lemma {:induction false} NumberReads(text: seq<Byte>, rest: seq<Byte>)
    requires NumberBytes(text) && !IsNumberByte(Cur(rest))
    ensures NumberRun(text + rest) == |text|
    decreases text
  {
    if text == [] {
      assert [] + rest == rest;
    } else {
      assert (text + rest)[1..] == text[1..] + rest;
      NumberReads(text[1..], rest);
    }
  }

  lemma NumberToken(text: seq<Byte>, a: Atom, rest: seq<Byte>)
    requires text != [] && (text[0] == 0x2D || IsDigit(text[0]))
    requires NumberBytes(text) && NumberAtom(text) == Some(a) && !IsNumberByte(Cur(rest))
    ensures ReadToken(text + rest) == (Atomic(a), rest)
  {
    var r := text + rest;
    assert r[1..] == text[1..] + rest;
    NumberReads(text[1..], rest);
    assert [r[0]] + r[1..][..|text| - 1] == text;
    assert r[1..][|text| - 1..] == rest;
  }

  lemma DigitsNext(front: seq<Byte>, d: Byte)
    requires AllDigits(front) && IsDigit(d)
    ensures AllDigits(front + [d]) && DigitsValue(front + [d]) == 10 * DigitsValue(front) + d - 0x30
  {
    assert (front + [d])[..|front|] == front;
  }

  lemma {:induction false} DecimalDigitsRead(n: nat)
    ensures GoodDigits(DecimalDigits(n)) && DigitsValue(DecimalDigits(n)) == n
    ensures DecimalDigits(n)[0] == 0x30 <==> n == 0
  {
    if n < 10 {
      DigitsNext([], 0x30 + n);
      assert [] + [0x30 + n] == DecimalDigits(n);
    } else {
      DecimalDigitsRead(n / 10);
      DigitsNext(DecimalDigits(n / 10), 0x30 + n % 10);
    }
  }

  // Every numeral without leading zeros is the decimal writing of a number.
  lemma {:induction false} DecimalDigitsOnto(digits: seq<Byte>) returns (n: nat)
    requires GoodDigits(digits)
    ensures DecimalDigits(n) == digits
    decreases digits
  {
    var k := |digits| - 1;
    assert digits == digits[..k] + [digits[k]];
    n := digits[k] - 0x30;
    if k > 0 {
      var front := DecimalDigitsOnto(digits[..k]);
      DecimalDigitsRead(front);
      n := 10 * front + n;
    }
  }

  lemma {:induction false} ZerosRead(k: nat, digits: seq<Byte>)
    requires AllDigits(digits)
    ensures AllDigits(Zeros(k) + digits) && DigitsValue(Zeros(k) + digits) == DigitsValue(digits)
    decreases |digits|, k
  {
    if digits != [] {
      var n := |digits| - 1;
      ZerosRead(k, digits[..n]);
      DigitsNext(Zeros(k) + digits[..n], digits[n]);
      assert Zeros(k) + digits == Zeros(k) + digits[..n] + [digits[n]];
    } else if k > 0 {
      ZerosRead(k - 1, []);
      assert Zeros(k - 1) + [] == Zeros(k - 1) && Zeros(k) + [] == Zeros(k);
      DigitsNext(Zeros(k - 1), 0x30);
    }
  }

  // The decimal writing of a number, with any leading zeros, is read as the number.
  lemma ZerosAtom(neg: bool, k: nat, n: nat)
    ensures NumberAtom(Sign(neg) + (Zeros(k) + DecimalDigits(n))) == Some(Int(Signed(neg, n)))
    ensures AllDigits(Zeros(k) + DecimalDigits(n)) && Zeros(k) + DecimalDigits(n) != []
  {
    DecimalDigitsRead(n);
    ZerosRead(k, DecimalDigits(n));
    DigitsAtom(neg, Zeros(k) + DecimalDigits(n));
  }

  lemma IntAtom(neg: bool, n: nat)
    ensures NumberAtom(Sign(neg) + DecimalDigits(n)) == Some(Int(Signed(neg, n)))
    ensures GoodDigits(DecimalDigits(n))
  {
    DecimalDigitsRead(n);
    DigitsAtom(neg, DecimalDigits(n));
  }

  lemma DigitsAtom(neg: bool, digits: seq<Byte>)
    requires digits != [] && AllDigits(digits)
    ensures NumberAtom(Sign(neg) + digits) == Some(Int(if neg then -DigitsValue(digits) else DigitsValue(digits)))
  {
    var text := Sign(neg) + digits;
    assert (if neg then text[1..] else text) == digits;
    assert text[0] == if neg then 0x2D else digits[0];
    NotFloat(neg, digits);
    ParsesAs(text, neg, digits);
  }

  lemma NotFloat(neg: bool, digits: seq<Byte>)
    requires AllDigits(digits)
    ensures !IsFloat(Sign(neg) + digits)
  {
    var text := Sign(neg) + digits;
    forall i | 0 <= i < |text| ensures !IsFloatMark(text[i]) {
      assert text[i] == 0x2D || IsDigit(text[i]);
    }
  }

  lemma ParsesAs(text: seq<Byte>, neg: bool, digits: seq<Byte>)
    requires digits != [] && AllDigits(digits) && text != []
    requires neg == (text[0] == 0x2D) && digits == if neg then text[1..] else text
    ensures ParseInt(text) == Some(if neg then -DigitsValue(digits) else DigitsValue(digits))
  {
  }

  predicate IsAtom(j: Json) {
    !j.JArr? && !j.JObj?
  }

  lemma LiteralReads(r: seq<Byte>, word: seq<Byte>, a: Atom, rest: seq<Byte>)
    requires r != [] && r == [r[0]] + word + rest
    ensures Literal(r[1..], word, a) == (Atomic(a), rest)
  {
    assert r[1..] == word + rest;
    assert (word + rest)[..|word|] == word && (word + rest)[|word|..] == rest;
  }

  // The three parts of a decimal, from the last to the first.
  lemma {:induction false} DigitsRest(digits: seq<Byte>, rest: seq<Byte>, part: DecimalPart)
    requires AllDigits(digits)
    ensures DecimalRest(digits + rest, part) == DecimalRest(rest, part)
    decreases digits
  {
    if digits == [] {
      assert digits + rest == rest;
    } else {
      assert (digits + rest)[1..] == digits[1..] + rest;
      DigitsRest(digits[1..], rest, part);
    }
  }

  lemma ExponentRest(mark: seq<Byte>, exp: seq<Byte>, part: DecimalPart)
    requires AllDigits(exp) && !part.InExponent? && if exp == [] then mark == [] else IsExponentMark(mark)
    ensures DecimalRest(mark + exp, part)
  {
    DigitsRest(exp, [], InExponent);
    assert exp + [] == exp;
    if exp != [] {
      var r := mark + exp;
      assert r[|mark|..] == exp && Cur(r[1..]) == r[1];
    }
  }

  lemma FracRest(frac: seq<Byte>, mark: seq<Byte>, exp: seq<Byte>)
    requires AllDigits(frac) && AllDigits(exp) && if exp == [] then mark == [] else IsExponentMark(mark)
    ensures DecimalRest(FracText(frac) + (mark + exp), InInteger)
  {
    if frac == [] {
      assert FracText(frac) + (mark + exp) == mark + exp;
      ExponentRest(mark, exp, InInteger);
    } else {
      assert (FracText(frac) + (mark + exp))[1..] == frac + (mark + exp);
      DigitsRest(frac, mark + exp, InFraction);
      ExponentRest(mark, exp, InFraction);
    }
  }

  lemma DecimalAtom(j: Json)
    requires j.JDecimal? && Good(j) && NoPlus(j)
    ensures NumberAtom(Text(j)) == Some(Decimal(Text(j)))
    ensures Text(j) != [] && (Text(j)[0] == 0x2D || IsDigit(Text(j)[0]))
    ensures NumberBytes(Text(j))
  {
    var text, tail := Text(j), FracText(j.frac) + (j.mark + j.exp);
    assert text == Sign(j.neg) + (j.digits + tail);
    assert (if Cur(text) == 0x2D then text[1..] else text) == j.digits + tail;
    FracRest(j.frac, j.mark, j.exp);
    DigitsRest(j.digits, tail, InInteger);
    var at := |Sign(j.neg)| + |j.digits|;
    assert text[at] == tail[0] && IsFloatMark(tail[0]);
    DecimalBytes(j);
  }

  lemma DecimalBytes(j: Json)
    requires j.JDecimal? && Good(j) && NoPlus(j)
    ensures NumberBytes(Text(j))
  {
    forall i | 0 <= i < |j.mark| ensures IsNumberByte(j.mark[i]) { assert j.mark[i] in j.mark; }
    NumberBytesCat(j.mark, j.exp);
    NumberBytesCat([0x2E], j.frac);
    NumberBytesCat(FracText(j.frac), j.mark + j.exp);
    NumberBytesCat(j.digits, FracText(j.frac) + (j.mark + j.exp));
    NumberBytesCat(Sign(j.neg), j.digits + (FracText(j.frac) + (j.mark + j.exp)));
  }

  predicate NumberBytes(s: seq<Byte>) {
    forall i :: 0 <= i < |s| ==> IsNumberByte(s[i])
  }

  lemma NumberBytesCat(a: seq<Byte>, b: seq<Byte>)
    requires NumberBytes(a) && NumberBytes(b)
    ensures NumberBytes(a + b)
  {
  }

  lemma AtomToken(j: Json, rest: seq<Byte>)
    requires Good(j) && IsAtom(j) && NoPlus(j) && !IsNumberByte(Cur(rest))
    ensures ReadToken(Text(j) + rest) == (Atomic(AtomOf(j)), rest)
    ensures Cur(Text(j) + rest) != 0
  {
    var r := Text(j) + rest;
    match j {
      case JNull => LiteralReads(r, [0x75, 0x6C, 0x6C], Null, rest);
      case JTrue => LiteralReads(r, [0x72, 0x75, 0x65], Bool(true), rest);
      case JFalse => LiteralReads(r, [0x61, 0x6C, 0x73, 0x65], Bool(false), rest);
      case JInt(neg, n) =>
        IntAtom(neg, n);
        NumberToken(Text(j), AtomOf(j), rest);
      case JDecimal(_, _, _, _, _) =>
        DecimalAtom(j);
        NumberToken(Text(j), AtomOf(j), rest);
      case JStr(chars) => StringToken(chars, rest);
    }
  }

  lemma StringToken(chars: seq<Char>, rest: seq<Byte>)
    requires GoodChars(chars)
    ensures Cur(Quoted(chars) + rest) == 0x22
    ensures ReadToken(Quoted(chars) + rest) == (Atomic(Str(CharsValue(chars))), rest)
  {
    QuoteSplit(CharsText(chars), rest);
    CharsRead(chars, [], [0x22] + rest);
    assert [] + CharsValue(chars) == CharsValue(chars);
    ScanEnd(rest, CharsValue(chars));
    QuoteToken(CharsText(chars) + ([0x22] + rest));
  }

  lemma QuoteSplit(inside: seq<Byte>, rest: seq<Byte>)
    ensures ([0x22] + inside + [0x22]) + rest == [0x22] + (inside + ([0x22] + rest))
  {
  }

  lemma QuoteToken(inside: seq<Byte>)
    requires ScanString(inside, []).Some?
    ensures var (bytes, rest) := ScanString(inside, []).value;
      ReadToken([0x22] + inside) == (Atomic(Str(bytes)), rest)
  {
    assert ([0x22] + inside)[1..] == inside;
  }
}
