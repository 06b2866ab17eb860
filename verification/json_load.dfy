// extmod/modujson.c, mod_ujson_load as loops over a read position, equal to JsonLoader.Run.

module JsonLoad {
  import opened JsonText
  import opened JsonLoader
  import opened JsonNumeral

  function At(inp: seq<Byte>, i: nat): Byte {
    if i < |inp| then inp[i] else 0
  }

  // The read position after S_NEXT; it stays at the end of the stream.
  function Advance(inp: seq<Byte>, i: nat): (j: nat)
    requires i <= |inp|
    ensures j <= |inp|
    ensures Next(inp[i..]) == inp[j..] && Cur(inp[i..]) == At(inp, i)
  {
    if i < |inp| then i + 1 else i
  }

  // The digit loop of a \u escape, from the position of the u to that of the last digit.
  method ReadEscape(inp: seq<Byte>, start: nat) returns (num: nat, last: nat)
    requires start <= |inp|
    ensures start <= last <= |inp|
    ensures (num, inp[last..]) == EscapeDigits(inp[start..], ESCAPE_DIGITS, 0)
  {
    num, last := 0, start;
    var i := 0;
    while i < ESCAPE_DIGITS
      invariant 0 <= i <= ESCAPE_DIGITS && start <= last <= |inp|
      invariant EscapeDigits(inp[last..], ESCAPE_DIGITS - i, num) == EscapeDigits(inp[start..], ESCAPE_DIGITS, 0)
    {
      var next := Advance(inp, last);
      assert Cur(inp[next..]) == At(inp, next);
      num := ShiftIn(num, HexDigit(At(inp, next)));
      last := next;
      i := i + 1;
    }
  }

  // The inner loop of case '"'.
  method ReadString(inp: seq<Byte>, start: nat) returns (ok: bool, vstr: seq<Byte>, pos: nat)
    requires start <= |inp|
    ensures start <= pos <= |inp|
    ensures ok == ScanString(inp[start..], []).Some?
    ensures ok ==> ScanString(inp[start..], []) == Some((vstr, inp[pos..]))
  {
    vstr := [];
    pos := start;
    while At(inp, pos) != 0 && At(inp, pos) != 0x22
      invariant start <= pos <= |inp|
      invariant ScanString(inp[pos..], vstr) == ScanString(inp[start..], [])
      decreases |inp| - pos
    {
      ghost var r := inp[pos..];
      var c := At(inp, pos);
      var add := [c];
      var last := pos;
      if c == 0x5C {
        last := Advance(inp, last);
        c := At(inp, last);
        if c == 0x75 {
          var num;
          num, last := ReadEscape(inp, last);
          add := Utf8(num);
        } else {
          add := [SimpleEscape(c)];
        }
      }
      vstr := vstr + add;
      pos := Advance(inp, last);
      assert CharStep(r) == (add, inp[pos..]);
      CharStepShrinks(r);
    }
    ok := At(inp, pos) != 0;
    if ok {
      assert inp[pos..][0] == 0x22 && inp[pos..][1..] == inp[pos + 1..];
      pos := pos + 1;
    } else {
      assert Cur(inp[pos..]) == 0;
    }
  }

  // The inner loop of the number case, entered with the first byte already taken.
  method ReadNumber(inp: seq<Byte>, first: Byte, start: nat) returns (text: seq<Byte>, flt: bool, pos: nat)
    requires start <= |inp| && (first == 0x2D || IsDigit(first))
    ensures pos == start + NumberRun(inp[start..]) <= |inp|
    ensures text == [first] + inp[start..pos]
    ensures flt == IsFloat(text)
  {
    flt := false;
    text := [first];
    pos := start;
    while pos < |inp| && IsNumberByte(inp[pos])
      invariant start <= pos <= |inp|
      invariant text == [first] + inp[start..pos]
      invariant NumberRun(inp[start..]) == pos - start + NumberRun(inp[pos..])
      invariant flt == IsFloat(text)
      decreases |inp| - pos
    {
      var cur := inp[pos];
      ghost var was := text;
      text := text + [cur];
      if IsFloatMark(cur) {
        flt := true;
        assert text[|was|] == cur;
      } else {
        assert forall i :: 0 <= i < |was| ==> text[i] == was[i];
      }
      assert inp[pos..][1..] == inp[pos + 1..];
      pos := pos + 1;
    }
  }

  // The parse of the collected bytes.
  method MakeNumber(text: seq<Byte>, flt: bool) returns (n: Option<Atom>)
    requires flt == IsFloat(text)
    ensures n == NumberAtom(text)
  {
    if flt {
      var ok, value := ParseDecimal(text);
      n := if ok then Some(Decimal(text)) else None;
    } else {
      var i := ParseInteger(text);
      n := if i.Some? then Some(Int(i.value)) else None;
    }
  }

  // A literal after its first letter, byte by byte.
  method ReadWord(inp: seq<Byte>, start: nat, word: seq<Byte>) returns (ok: bool, pos: nat)
    requires start <= |inp|
    ensures ok == (|inp[start..]| >= |word| && inp[start..][..|word|] == word)
    ensures start <= pos <= |inp|
    ensures ok ==> inp[pos..] == inp[start..][|word|..]
  {
    pos := start;
    ok := true;
    var i := 0;
    while i < |word| && ok
      invariant 0 <= i <= |word| && start <= pos <= |inp|
      invariant ok ==> pos == start + i && inp[start..pos] == word[..i]
      invariant !ok ==> !(|inp[start..]| >= |word| && inp[start..][..|word|] == word)
      decreases |word| - i, ok
    {
      if pos < |inp| && inp[pos] == word[i] {
        assert inp[start..pos + 1] == inp[start..pos] + [inp[pos]] && word[..i + 1] == word[..i] + [word[i]];
        pos := pos + 1;
        i := i + 1;
      } else {
        ok := false;
        if |inp[start..]| >= |word| {
          assert inp[start..][..|word|][i] == inp[pos] != word[i];
        }
      }
    }
    if ok {
      assert inp[start..][..|word|] == inp[start..pos] && inp[start..][|word|..] == inp[pos..];
      assert word[..i] == word;
    }
  }

  // The switch on one byte: what it reads and where it stops.
  method ReadNext(inp: seq<Byte>, start: nat) returns (token: Token, pos: nat)
    requires start < |inp|
    ensures start < pos <= |inp|
    ensures token == ReadToken(inp[start..]).0
    ensures !token.Bad? ==> inp[pos..] == ReadToken(inp[start..]).1
  {
    var cur := inp[start];
    pos := start + 1;
    assert inp[start..][0] == cur && inp[start..][1..] == inp[pos..];
    if IsSkipped(cur) {
      return Skip, pos;
    }
    if cur == 0x6E || cur == 0x66 || cur == 0x74 {
      var word := if cur == 0x6E then [0x75, 0x6C, 0x6C] else if cur == 0x66 then [0x61, 0x6C, 0x73, 0x65]
          else [0x72, 0x75, 0x65];
      var ok;
      ok, pos := ReadWord(inp, pos, word);
      token := if !ok then Bad else Atomic(if cur == 0x6E then Null else Bool(cur == 0x74));
    } else if cur == 0x22 {
      var ok, vstr;
      ok, vstr, pos := ReadString(inp, pos);
      token := if ok then Atomic(Str(vstr)) else Bad;
    } else if cur == 0x2D || IsDigit(cur) {
      var text, flt;
      text, flt, pos := ReadNumber(inp, cur, pos);
      var n := MakeNumber(text, flt);
      assert inp[start + 1..pos] == inp[start + 1..][..NumberRun(inp[start + 1..])];
      assert inp[pos..] == inp[start + 1..][NumberRun(inp[start + 1..])..];
      token := if n.None? then Bad else Atomic(n.value);
    } else if cur == 0x5B {
      token := Open(OList([]));
    } else if cur == 0x7B {
      token := Open(ODict(map[]));
    } else if cur == 0x7D || cur == 0x5D {
      token := Close;
    } else {
      token := Bad;
    }
  }

  // How a turn of the main loop ends: with goto cont, goto success or goto fail.
  datatype Turned = Cont(st: State) | Success(root: Option<Ref>) | Fail

  function GoOn(t: Turned, st: State, rest: seq<Byte>): Result {
    match t
    case Cont(next) => Run(next, rest)
    case Success(root) => Finish(st, root, rest)
    case Fail => SyntaxError
  }

  // One turn, at a byte that is not the end.
  method Turn(st: State, inp: seq<Byte>, start: nat) returns (t: Turned, pos: nat)
    requires start < |inp| && inp[start] != 0
    ensures start < pos <= |inp|
    ensures Run(st, inp[start..]) == GoOn(t, st, inp[pos..])
  {
    var token;
    token, pos := ReadNext(inp, start);
    match token {
      case Skip =>
        t := Cont(st);
      case Bad =>
        t := Fail;
      case Close =>
        if st.top.None? {
          t := Fail;
        } else if st.stack == [] {
          t := Success(RootOf(st));
        } else {
          t := Cont(Pop(st));
        }
      case Atomic(a) =>
        if st.top.None? {
          t := Success(Some(Prim(a)));
        } else {
          var put := Put(st, Prim(a));
          t := if put.None? then Fail else Cont(put.value);
        }
      case Open(container) =>
        if st.top.None? {
          t := Cont(Push(st, st, container));
        } else {
          var put := Put(st, Ptr(|st.heap|));
          t := if put.None? then Fail else Cont(Push(st, put.value, container));
        }
    }
  }

  // mod_ujson_load. It stops on every input: each turn takes at least one unread byte.
  method Load(inp: seq<Byte>) returns (res: Result)
    ensures res == Run(START, inp)
  {
    var st := START;
    var pos := 0;
    var root: Option<Ref> := None;
    var done := false;
    assert inp[0..] == inp;
    while At(inp, pos) != 0 && !done
      invariant 0 <= pos <= |inp|
      invariant if done then Finish(st, root, inp[pos..]) == Run(START, inp) else Run(st, inp[pos..]) == Run(START, inp)
      decreases |inp| - pos, !done
    {
      var t;
      t, pos := Turn(st, inp, pos);
      match t {
        case Cont(st') =>
          st := st';
        case Success(found) =>
          root, done := found, true;
        case Fail =>
          return SyntaxError;
      }
    }
    if !done {
      root := RootOf(st);
      assert Cur(inp[pos..]) == At(inp, pos);
    }
    res := Conclude(st, root, inp, pos);
  }

  // From the label success on: eat trailing white space, and want one object and the end.
  method Conclude(st: State, root: Option<Ref>, inp: seq<Byte>, start: nat) returns (res: Result)
    requires start <= |inp|
    ensures res == Finish(st, root, inp[start..])
  {
    var pos := start;
    while IsSpace(At(inp, pos))
      invariant start <= pos <= |inp|
      invariant SkipSpace(inp[pos..]) == SkipSpace(inp[start..])
      decreases |inp| - pos
    {
      assert Next(inp[pos..]) == inp[pos + 1..] && Cur(inp[pos..]) == At(inp, pos);
      pos := pos + 1;
    }
    assert Cur(inp[pos..]) == At(inp, pos);
    if At(inp, pos) != 0 || root.None? || st.stack != [] {
      return SyntaxError;
    }
    return Loaded(st.heap, root.value);
  }
}
