// extmod/modujson.c: the one-pass JSON loader, the grammar of RFC 4627 section 2, and the
// proof that the loader computes what the grammar says.

module JsonText {

  type Byte = b: int | 0 <= b < 256

  datatype Option<T> = None | Some(value: T)

  // Values without parts. Decimal keeps the text of a number that has a fraction or exponent.
  datatype Atom = Null | Bool(b: bool) | Int(n: int) | Str(bytes: seq<Byte>) | Decimal(text: seq<Byte>)

  datatype Value = VAtom(a: Atom) | VList(items: seq<Value>) | VDict(entries: map<Atom, Value>)

  // ---------- reading the stream ----------

  // S_CUR over the unread bytes; 0 stands for the end, as does a NUL byte.
  function Cur(r: seq<Byte>): Byte {
    if r == [] then 0 else r[0]
  }

  // S_NEXT
  function Next(r: seq<Byte>): seq<Byte> {
    if r == [] then [] else r[1..]
  }

  predicate IsSkipped(c: Byte) {
    c == 0x2C || c == 0x3A || c == 0x20 || c == 0x09 || c == 0x0A || c == 0x0D
  }

  predicate IsSpace(c: Byte) {
    c == 0x20 || 0x09 <= c <= 0x0D
  }

  predicate IsDigit(c: Byte) {
    0x30 <= c <= 0x39
  }

  // ---------- escapes ----------

  // c | 0x20
  function OrBit5(c: Byte): Byte {
    if (c / 0x20) % 2 == 1 then c else c + 0x20
  }

  // The byte arithmetic on one digit of a \u escape, for any byte.
  function HexDigit(c: Byte): Byte {
    var d := (OrBit5(c) - 0x30) % 256;
    if d > 9 then (d - 39) % 256 else d
  }

  function BitOr(a: nat, b: nat): nat {
    if a == 0 then b else if b == 0 then a
    else 2 * BitOr(a / 2, b / 2) + if a % 2 == 1 || b % 2 == 1 then 1 else 0
  }

  // (num << 4) | c
  function ShiftIn(num: nat, c: Byte): nat {
    BitOr(16 * num, c)
  }

  const ESCAPE_DIGITS: nat := 4

  // The digit loop of a \u escape: k digits still to read behind the byte r starts with.
  function EscapeDigits(r: seq<Byte>, k: nat, num: nat): (nat, seq<Byte>)
    decreases k
  {
    if k == 0 then (num, r) else EscapeDigits(Next(r), k - 1, ShiftIn(num, HexDigit(Cur(Next(r)))))
  }

  // vstr_add_char, for code points below 0x110000
  function Utf8(c: nat): seq<Byte> {
    if c < 0x80 then [c]
    else if c < 0x800 then [c / 0x40 + 0xC0, c % 0x40 + 0x80]
    else if c < 0x10000 then [c / 0x1000 + 0xE0, c / 0x40 % 0x40 + 0x80, c % 0x40 + 0x80]
    else [(c / 0x40000 + 0xF0) % 256, c / 0x1000 % 0x40 + 0x80, c / 0x40 % 0x40 + 0x80, c % 0x40 + 0x80]
  }

  function SimpleEscape(c: Byte): Byte {
    match c
    case 0x62 => 0x08
    case 0x66 => 0x0C
    case 0x6E => 0x0A
    case 0x72 => 0x0D
    case 0x74 => 0x09
    case _ => c
  }

  // One pass of the string loop: the bytes it adds and what is left unread.
  function CharStep(r: seq<Byte>): (seq<Byte>, seq<Byte>)
    requires r != []
  {
    if r[0] != 0x5C then ([r[0]], r[1..])
    else
      var e := Next(r);
      if Cur(e) == 0x75 then
        var (num, d) := EscapeDigits(e, ESCAPE_DIGITS, 0);
        (Utf8(num), Next(d))
      else ([SimpleEscape(Cur(e))], Next(e))
  }

  lemma CharStepShrinks(r: seq<Byte>)
    requires r != []
    ensures |CharStep(r).1| < |r|
  {
    if r[0] == 0x5C { EscapeShrinks(Next(r), ESCAPE_DIGITS, 0); }
  }

  lemma {:induction false} EscapeShrinks(r: seq<Byte>, k: nat, num: nat)
    ensures |EscapeDigits(r, k, num).1| <= |r|
    decreases k
  {
    if k != 0 { EscapeShrinks(Next(r), k - 1, ShiftIn(num, HexDigit(Cur(Next(r))))); }
  }

  // The string loop: the bytes collected and what follows the closing quote.
  function ScanString(r: seq<Byte>, acc: seq<Byte>): Option<(seq<Byte>, seq<Byte>)>
    decreases |r|
  {
    if Cur(r) == 0 then None
    else if r[0] == 0x22 then Some((acc, r[1..]))
    else
      CharStepShrinks(r);
      var (add, rest) := CharStep(r);
      ScanString(rest, acc + add)
  }

  // ---------- numbers ----------

  predicate IsNumberByte(c: Byte) {
    c == 0x2E || c == 0x45 || c == 0x65 || c == 0x2D || IsDigit(c)
  }

  // The longest run of number bytes.
  function NumberRun(r: seq<Byte>): nat
    ensures NumberRun(r) <= |r|
  {
    if r == [] || !IsNumberByte(r[0]) then 0 else 1 + NumberRun(r[1..])
  }

  predicate IsFloatMark(c: Byte) {
    c == 0x2E || c == 0x45 || c == 0x65
  }

  predicate IsFloat(text: seq<Byte>) {
    exists i :: 0 <= i < |text| && IsFloatMark(text[i])
  }

  predicate AllDigits(text: seq<Byte>) {
    forall i :: 0 <= i < |text| ==> IsDigit(text[i])
  }

  function DigitsValue(text: seq<Byte>): int {
    if text == [] then 0 else 10 * DigitsValue(text[..|text| - 1]) + text[|text| - 1] - 0x30
  }

  // mp_parse_num_integer in base 10, on the bytes the number loop collects.
  function ParseInt(text: seq<Byte>): Option<int> {
    var neg := text != [] && text[0] == 0x2D;
    var digits := if neg then text[1..] else text;
    if digits == [] || !AllDigits(digits) then None
    else Some(if neg then -DigitsValue(digits) else DigitsValue(digits))
  }

  datatype DecimalPart = InInteger | InFraction | InExponent

  // The loop of mp_parse_num_decimal (py/parsenum.c) on what is left of the text, where it
  // ends at the end of the text and not at an unknown character.
  predicate DecimalRest(r: seq<Byte>, part: DecimalPart)
    decreases |r|
  {
    if r == [] then true
    else if IsDigit(r[0]) then DecimalRest(r[1..], part)
    else if part.InInteger? && r[0] == 0x2E then DecimalRest(r[1..], InFraction)
    else if !part.InExponent? && (r[0] == 0x45 || r[0] == 0x65) then
      var exponent := if Cur(r[1..]) == 0x2B || Cur(r[1..]) == 0x2D then r[2..] else r[1..];
      exponent != [] && DecimalRest(exponent, InExponent)
    else false
  }

  // mp_parse_num_decimal, on the bytes the number loop collects: whether it returns a number.
  predicate IsDecimal(text: seq<Byte>) {
    var body := if Cur(text) == 0x2D then text[1..] else text;
    body != [] && DecimalRest(body, InInteger)
  }

  function NumberAtom(text: seq<Byte>): Option<Atom> {
    if IsFloat(text) then (if IsDecimal(text) then Some(Decimal(text)) else None)
    else match ParseInt(text)
      case None => None
      case Some(n) => Some(Int(n))
  }
}

module JsonLoader {
  import opened JsonText

  // The heap of containers the loader creates; a Ptr is an index into it.
  datatype Ref = Prim(a: Atom) | Ptr(id: nat)
  datatype Obj = OList(items: seq<Ref>) | ODict(entries: map<Atom, Ref>)

  // The loader's variables: stack of open containers, innermost container, pending key.
  datatype State = State(heap: seq<Obj>, stack: seq<nat>, top: Option<nat>, key: Option<Atom>)

  datatype Result = Loaded(heap: seq<Obj>, root: Ref) | SyntaxError

  const START := State([], [], None, None)

  // What one switch pass produces: a value, a new container, a closing bracket, or nothing.
  datatype Token = Skip | Close | Atomic(a: Atom) | Open(container: Obj) | Bad

  function Literal(rest: seq<Byte>, word: seq<Byte>, a: Atom): (Token, seq<Byte>) {
    if |rest| >= |word| && rest[..|word|] == word then (Atomic(a), rest[|word|..]) else (Bad, rest)
  }

  // The switch on the current byte.
  function ReadToken(r: seq<Byte>): (t: (Token, seq<Byte>))
    requires r != []
    ensures |t.1| < |r|
  {
    var cur, rest := r[0], r[1..];
    if IsSkipped(cur) then (Skip, rest)
    else if cur == 0x6E then Literal(rest, [0x75, 0x6C, 0x6C], Null)
    else if cur == 0x66 then Literal(rest, [0x61, 0x6C, 0x73, 0x65], Bool(false))
    else if cur == 0x74 then Literal(rest, [0x72, 0x75, 0x65], Bool(true))
    else if cur == 0x22 then
      ScanStringShrinks(rest, []);
      match ScanString(rest, [])
      case None => (Bad, rest)
      case Some((bytes, rest')) => (Atomic(Str(bytes)), rest')
    else if cur == 0x2D || IsDigit(cur) then
      var n := NumberRun(rest);
      match NumberAtom([cur] + rest[..n])
      case None => (Bad, rest)
      case Some(a) => (Atomic(a), rest[n..])
    else if cur == 0x5B then (Open(OList([])), rest)
    else if cur == 0x7B then (Open(ODict(map[])), rest)
    else if cur == 0x7D || cur == 0x5D then (Close, rest)
    else (Bad, rest)
  }

  lemma {:induction false} ScanStringShrinks(r: seq<Byte>, acc: seq<Byte>)
    ensures ScanString(r, acc).Some? ==> |ScanString(r, acc).value.1| <= |r|
    decreases |r|
  {
    if Cur(r) != 0 && r[0] != 0x22 {
      CharStepShrinks(r);
      ScanStringShrinks(CharStep(r).1, acc + CharStep(r).0);
    }
  }

  // Append to the innermost list, or use as key or value of the innermost dict. None is the
  // jump to fail: a container as key.
  function Put(st: State, next: Ref): Option<State>
    requires st.top.Some?
  {
    var id := st.top.value;
    if id >= |st.heap| then None
    else match st.heap[id]
      case OList(items) => Some(st.(heap := st.heap[id := OList(items + [next])]))
      case ODict(entries) =>
        match st.key
        case None => if next.Prim? then Some(st.(key := Some(next.a))) else None
        case Some(k) => Some(st.(heap := st.heap[id := ODict(entries[k := next])], key := None))
  }

  // The end of the function: trailing whitespace, then exactly one object.
  function SkipSpace(r: seq<Byte>): seq<Byte> {
    if IsSpace(Cur(r)) then SkipSpace(Next(r)) else r
  }

  function Finish(st: State, root: Option<Ref>, r: seq<Byte>): Result {
    if Cur(SkipSpace(r)) != 0 || root.None? || st.stack != [] then SyntaxError
    else Loaded(st.heap, root.value)
  }

  function RootOf(st: State): Option<Ref> {
    if st.top.None? then None else Some(Ptr(st.top.value))
  }

  function Pop(st: State): State
    requires st.stack != []
  {
    st.(top := Some(st.stack[|st.stack| - 1]), stack := st.stack[..|st.stack| - 1])
  }

  // Enter the container just created; the one it was put into, if any, goes on the stack.
  function Push(before: State, put: State, container: Obj): State {
    var stack := if before.top.None? then before.stack else before.stack + [before.top.value];
    put.(heap := put.heap + [container], stack := stack, top := Some(|put.heap|))
  }

  // The main loop, from any state, on the unread bytes.
  function Run(st: State, r: seq<Byte>): Result
    decreases |r|
  {
    if Cur(r) == 0 then Finish(st, RootOf(st), r)
    else
      var (token, rest) := ReadToken(r);
      match token {
        case Skip => Run(st, rest)
        case Bad => SyntaxError
        case Close =>
          if st.top.None? then SyntaxError
          else if st.stack == [] then Finish(st, RootOf(st), rest)
          else Run(Pop(st), rest)
        case Atomic(a) =>
          if st.top.None? then Finish(st, Some(Prim(a)), rest)
          else
            var put := Put(st, Prim(a));
            if put.None? then SyntaxError else Run(put.value, rest)
        case Open(container) =>
          if st.top.None? then Run(Push(st, st, container), rest)
          else
            var put := Put(st, Ptr(|st.heap|));
            if put.None? then SyntaxError else Run(Push(st, put.value, container), rest)
      }
  }

  // The Python object a reference stands for. Children are always younger than the container
  // that holds them; anything else reads as None.
  function Reify(heap: seq<Obj>, ref: Ref): Value
    decreases if ref.Prim? || ref.id >= |heap| then 0 else |heap| - ref.id
  {
    if ref.Prim? then VAtom(ref.a)
    else if ref.id >= |heap| then VAtom(Null)
    else match heap[ref.id]
      case OList(items) =>
        VList(seq(|items|, i requires 0 <= i < |items| => ReifyChild(heap, ref.id, items[i])))
      case ODict(entries) =>
        VDict(map k | k in entries :: ReifyChild(heap, ref.id, entries[k]))
  }

  function ReifyChild(heap: seq<Obj>, id: nat, child: Ref): Value
    requires id < |heap|
    decreases |heap| - id, 0
  {
    if child.Prim? then VAtom(child.a)
    else if child.id <= id || child.id >= |heap| then VAtom(Null)
    else Reify(heap, child)
  }
}
