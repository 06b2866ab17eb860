// The language the loader accepts, as a grammar of its own, and the reference parser for it.

module JsonLenient {
  import opened JsonText
  import opened JsonLoader
  import opened JsonGrammar
  import opened JsonNumber
  import opened Seqs

  // A text as the loader sees it. Separators are any commas, colons and white space; close is
  // either closing bracket, whatever was opened, or nothing at the end of the outermost group.
  datatype Node = Leaf(text: seq<Byte>) | Group(dict: bool, kids: Kids, close: seq<Byte>)
  datatype Kids = End(sep: seq<Byte>) | Kid(sep: seq<Byte>, node: Node, more: Kids)

  function OpenByte(dict: bool): Byte {
    if dict then 0x7B else 0x5B
  }

  function NodeText(node: Node): seq<Byte> {
    match node
    case Leaf(text) => text
    case Group(dict, kids, close) => [OpenByte(dict)] + (KidsText(kids) + close)
  }

  function KidsText(kids: Kids): seq<Byte> {
    match kids
    case End(sep) => sep
    case Kid(sep, node, more) => sep + (NodeText(node) + KidsText(more))
  }

  // ---------- spelling ----------

  // Commas, colons, spaces, tabs, newlines and returns.
  predicate AllSkipped(sep: seq<Byte>) {
    forall i :: 0 <= i < |sep| ==> sep[i] in {0x2C, 0x3A, 0x20, 0x09, 0x0A, 0x0D}
  }

  // No digit, point, minus or e comes next.
  predicate NumberEnds(rest: seq<Byte>) {
    rest != [] ==> rest[0] !in {0x2E, 0x2D, 0x65, 0x45} && !(0x30 <= rest[0] <= 0x39)
  }

  // Nothing but spaces, tabs and the line and page breaks between them before the end or a NUL.
  predicate SpacesTo(r: seq<Byte>, k: nat) {
    && k <= |r|
    && (forall i :: 0 <= i < k ==> r[i] in {0x20, 0x09, 0x0A, 0x0B, 0x0C, 0x0D})
    && (k < |r| ==> r[k] == 0)
  }

  ghost predicate TextEnds(r: seq<Byte>) {
    exists k :: SpacesTo(r, k)
  }

  lemma {:induction false} EndSeen(r: seq<Byte>)
    ensures TextEnds(r) <==> Cur(SkipSpace(r)) == 0
  {
    if IsSpace(Cur(r)) {
      EndSeen(r[1..]);
      if k: nat :| SpacesTo(r[1..], k) {
        assert k < |r[1..]| ==> r[k + 1] == r[1..][k];
        assert SpacesTo(r, k + 1);
      }
      if k: nat :| SpacesTo(r, k) {
        assert k > 0;
        assert SpacesTo(r[1..], k - 1);
      }
    } else if Cur(r) == 0 {
      assert SpacesTo(r, 0);
    } else {
      forall k: nat ensures !SpacesTo(r, k) {
        assert k > 0 ==> r[0] !in {0x20, 0x09, 0x0A, 0x0B, 0x0C, 0x0D};
      }
    }
  }

  // Any byte but a quote, a backslash and NUL stands for itself; any byte may follow a
  // backslash, and any four bytes a \u.
  predicate LaxChar(ch: Char) {
    match ch
    case Raw(b) => b != 0 && b != 0x22 && b != 0x5C
    case Esc(letter) => letter != 0x75
    case Uni(_, _, _, _) => true
  }

  predicate LaxChars(chars: seq<Char>) {
    forall i :: 0 <= i < |chars| ==> LaxChar(chars[i])
  }

  ghost predicate IsString(text: seq<Byte>) {
    exists chars :: LaxChars(chars) && text == Quoted(chars)
  }

  predicate IsLiteral(text: seq<Byte>) {
    text == Text(JNull) || text == Text(JTrue) || text == Text(JFalse)
  }

  // A value without parts; a number ends where number bytes end.
  ghost predicate LeafOk(text: seq<Byte>, rest: seq<Byte>) {
    IsLiteral(text) || IsString(text) || (IsNumber(text) && NumberEnds(rest))
  }

  ghost predicate NodeOk(node: Node, rest: seq<Byte>) {
    match node
    case Leaf(text) => LeafOk(text, rest)
    case Group(_, kids, close) => (close == [0x5D] || close == [0x7D]) && KidsOk(kids, close + rest)
  }

  ghost predicate KidsOk(kids: Kids, rest: seq<Byte>) {
    match kids
    case End(sep) => AllSkipped(sep)
    case Kid(sep, node, more) => AllSkipped(sep) && NodeOk(node, KidsText(more) + rest) && KidsOk(more, rest)
  }

  // ---------- keys ----------

  // Whether a key is waiting for its value after a node has been put into a container; None
  // when the node is refused. The loader has one pending key for all containers: a dict may
  // end while a key waits, and the next dict to receive anything takes it up. Only a group
  // cannot be a key.
  function Flow(node: Node, inDict: bool, pending: bool): Option<bool> {
    match node
    case Leaf(_) => Some(if inDict then !pending else pending)
    case Group(dict, kids, _) => if inDict && !pending then None else FlowKids(kids, dict, !inDict && pending)
  }

  function FlowKids(kids: Kids, dict: bool, pending: bool): Option<bool> {
    match kids
    case End(_) => Some(pending)
    case Kid(_, node, more) =>
      match Flow(node, dict, pending)
      case None => None
      case Some(p) => FlowKids(more, dict, p)
  }

  // ---------- the accepted texts ----------

  // Separators, one value, and white space up to the end or a NUL byte. The outermost group
  // may lack its bracket, and then ends there.
  ghost predicate Parts(t: seq<Byte>, before: seq<Byte>, node: Node, after: seq<Byte>) {
    && t == before + (NodeText(node) + after) && AllSkipped(before)
    && match node
       case Leaf(text) => LeafOk(text, after) && TextEnds(after)
       case Group(dict, kids, close) =>
         && FlowKids(kids, dict, false).Some?
         && if close == [] then KidsOk(kids, after) && Cur(after) == 0
            else NodeOk(node, after) && TextEnds(after)
  }

  ghost predicate Lenient(t: seq<Byte>) {
    exists before, node, after :: Parts(t, before, node, after)
  }

  // ---------- a recursive parser ----------

  datatype Parse = Parsed(kids: Kids, rest: seq<Byte>) | Refused

  function WithSep(sep: seq<Byte>, kids: Kids): Kids {
    kids.(sep := sep + kids.sep)
  }

  // The inside of a group, up to a closing bracket or the end.
  function ParseKids(r: seq<Byte>): (p: Parse)
    ensures p.Parsed? ==> |p.rest| <= |r| && Stops(p.rest)
    decreases |r|
  {
    if Cur(r) == 0 then Parsed(End([]), r)
    else
      var (token, rest) := ReadToken(r);
      match token
      case Bad => Refused
      case Close => Parsed(End([]), r)
      case Skip =>
        var p := ParseKids(rest);
        if p.Refused? then Refused else Parsed(WithSep([r[0]], p.kids), p.rest)
      case Atomic(_) =>
        var p := ParseKids(rest);
        if p.Refused? then Refused else Parsed(Kid([], Leaf(r[..|r| - |rest|]), p.kids), p.rest)
      case Open(container) =>
        var inner := ParseKids(rest);
        if inner.Refused? || Cur(inner.rest) == 0 then Refused
        else
          var p := ParseKids(inner.rest[1..]);
          if p.Refused? then Refused
          else Parsed(Kid([], Group(container.ODict?, inner.kids, [inner.rest[0]]), p.kids), p.rest)
  }

  predicate Stops(r: seq<Byte>) {
    Cur(r) == 0 || Cur(r) == 0x5D || Cur(r) == 0x7D
  }

  // ---------- leaves ----------

  // The bytes a lenient character stands for. The digits of an escape are any four bytes.
  function LaxValue(ch: Char): seq<Byte> {
    match ch
    case Raw(b) => [b]
    case Esc(letter) => [EscapeValue(letter)]
    case Uni(a, b, c, d) => Utf8(EscapeNumber([a, b, c, d], 0))
  }

  function LaxText(chars: seq<Char>): seq<Byte> {
    if chars == [] then [] else LaxValue(chars[0]) + LaxText(chars[1..])
  }

  function EscapeNumber(digits: seq<Byte>, num: nat): nat {
    if digits == [] then num else EscapeNumber(digits[1..], ShiftIn(num, HexDigit(digits[0])))
  }

  lemma {:induction false} EscapeEnds(u: Byte, digits: seq<Byte>, rest: seq<Byte>, num: nat)
    ensures EscapeDigits([u] + (digits + rest), |digits|, num)
         == (EscapeNumber(digits, num), [if digits == [] then u else digits[|digits| - 1]] + rest)
    decreases digits
  {
    if digits == [] {
      assert [] + rest == rest;
    } else {
      var r := [u] + (digits + rest);
      assert Next(r) == [digits[0]] + (digits[1..] + rest);
      EscapeEnds(digits[0], digits[1..], rest, ShiftIn(num, HexDigit(digits[0])));
    }
  }

  lemma LaxCharReads(ch: Char, rest: seq<Byte>)
    requires LaxChar(ch)
    ensures CharText(ch) + rest != [] && (CharText(ch) + rest)[0] != 0x22 && Cur(CharText(ch) + rest) != 0
    ensures CharStep(CharText(ch) + rest) == (LaxValue(ch), rest)
  {
    var r := CharText(ch) + rest;
    match ch {
      case Raw(b) => assert r[1..] == rest;
      case Esc(letter) => assert Next(r) == [letter] + rest && Next([letter] + rest) == rest;
      case Uni(a, b, c, d) =>
        assert Next(r) == [0x75] + ([a, b, c, d] + rest);
        EscapeEnds(0x75, [a, b, c, d], rest, 0);
        assert Next([d] + rest) == rest;
    }
  }

  lemma {:induction false} LaxCharsRead(chars: seq<Char>, acc: seq<Byte>, rest: seq<Byte>)
    requires LaxChars(chars)
    ensures ScanString(CharsText(chars) + ([0x22] + rest), acc) == Some((acc + LaxText(chars), rest))
    decreases chars
  {
    var r := CharsText(chars) + ([0x22] + rest);
    if chars == [] {
      assert r == [0x22] + rest && r[1..] == rest;
      assert acc + [] == acc;
    } else {
      var tail := CharsText(chars[1..]) + ([0x22] + rest);
      assert r == CharText(chars[0]) + tail;
      LaxCharReads(chars[0], tail);
      LaxCharsRead(chars[1..], acc + LaxValue(chars[0]), rest);
      Regroup(acc, LaxValue(chars[0]), LaxText(chars[1..]));
    }
  }

  // One pass of the string loop takes one lenient character, unless the text ends inside it.
  lemma CharSpelled(r: seq<Byte>) returns (ch: Char)
    requires Cur(r) != 0 && r[0] != 0x22
    ensures CharStep(r).1 != [] ==> LaxChar(ch) && r == CharText(ch) + CharStep(r).1
  {
    if r[0] != 0x5C {
      ch := Raw(r[0]);
    } else if Cur(Next(r)) != 0x75 {
      ch := Esc(Cur(Next(r)));
      if |r| > 1 { assert r == [0x5C, r[1]] + r[2..]; }
    } else if |r| >= 6 {
      ch := Uni(r[2], r[3], r[4], r[5]);
      assert Next(r) == [0x75] + ([r[2], r[3], r[4], r[5]] + r[6..]);
      EscapeEnds(0x75, [r[2], r[3], r[4], r[5]], r[6..], 0);
      assert Next([r[5]] + r[6..]) == r[6..];
    } else {
      ch := Raw(1);
      EscapeShort(Next(r), ESCAPE_DIGITS, 0);
    }
  }

  lemma {:induction false} EscapeShort(r: seq<Byte>, k: nat, num: nat)
    ensures |EscapeDigits(r, k, num).1| <= if |r| > k then |r| - k else 0
    decreases k
  {
    if k != 0 { EscapeShort(Next(r), k - 1, ShiftIn(num, HexDigit(Cur(Next(r))))); }
  }

  lemma {:induction false} StringSpelled(r: seq<Byte>, acc: seq<Byte>) returns (chars: seq<Char>)
    requires ScanString(r, acc).Some?
    ensures LaxChars(chars) && r == CharsText(chars) + ([0x22] + ScanString(r, acc).value.1)
    decreases |r|
  {
    if r[0] == 0x22 {
      chars := [];
      assert r == [0x22] + r[1..];
    } else {
      CharStepShrinks(r);
      var (add, rest) := CharStep(r);
      var ch := CharSpelled(r);
      var more := StringSpelled(rest, acc + add);
      chars := [ch] + more;
      CharsCons(ch, more, [0x22] + ScanString(r, acc).value.1);
    }
  }

  lemma CharsCons(ch: Char, more: seq<Char>, end: seq<Byte>)
    ensures CharText(ch) + (CharsText(more) + end) == CharsText([ch] + more) + end
    ensures LaxChar(ch) && LaxChars(more) ==> LaxChars([ch] + more)
  {
    assert ([ch] + more)[1..] == more;
    Regroup(CharText(ch), CharsText(more), end);
  }

  // What a leaf stands for: the atom that is read when it stands alone.
  function LeafAtom(text: seq<Byte>): Atom {
    if text != [] && ReadToken(text).0.Atomic? then ReadToken(text).0.a else Null
  }

  // A leaf is read as the same atom whatever follows it.
  lemma LeafReads(text: seq<Byte>, rest: seq<Byte>)
    requires LeafOk(text, rest)
    ensures text != [] && Cur(text + rest) != 0
    ensures ReadToken(text + rest) == (Atomic(LeafAtom(text)), rest)
  {
    assert text + [] == text;
    if IsNumber(text) && !IsNumberByte(Cur(rest)) {
      NumberTakenIff(text);
      NumberToken(text, NumberAtom(text).value, rest);
      NumberToken(text, NumberAtom(text).value, []);
    } else if IsString(text) {
      var chars :| LaxChars(chars) && text == Quoted(chars);
      LaxStringToken(chars, rest);
      LaxStringToken(chars, []);
    } else {
      LiteralToken(text, rest);
      LiteralToken(text, []);
    }
  }

  // A string leaf stands for its characters.
  lemma LaxStringToken(chars: seq<Char>, rest: seq<Byte>)
    requires LaxChars(chars)
    ensures Cur(Quoted(chars) + rest) == 0x22
    ensures ReadToken(Quoted(chars) + rest) == (Atomic(Str(LaxText(chars))), rest)
  {
    var inside := CharsText(chars) + ([0x22] + rest);
    QuoteSplit(CharsText(chars), rest);
    LaxCharsRead(chars, [], rest);
    QuoteToken(inside);
    assert [] + LaxText(chars) == LaxText(chars);
  }

  lemma LiteralToken(text: seq<Byte>, rest: seq<Byte>)
    requires IsLiteral(text)
    ensures Cur(text + rest) != 0
    ensures ReadToken(text + rest)
      == (Atomic(if text == Text(JNull) then Null else Bool(text == Text(JTrue))), rest)
  {
    if text == Text(JNull) {
      LiteralReads(text + rest, [0x75, 0x6C, 0x6C], Null, rest);
    } else if text == Text(JTrue) {
      LiteralReads(text + rest, [0x72, 0x75, 0x65], Bool(true), rest);
    } else {
      LiteralReads(text + rest, [0x61, 0x6C, 0x73, 0x65], Bool(false), rest);
    }
  }

  // Every value the switch reads is spelled as a leaf.
  lemma LeafSpelled(r: seq<Byte>)
    requires r != [] && ReadToken(r).0.Atomic?
    ensures var rest := ReadToken(r).1; var text := r[..|r| - |rest|];
      r == text + rest && text != [] && LeafOk(text, rest)
  {
    var rest := ReadToken(r).1;
    var text := r[..|r| - |rest|];
    if r[0] == 0x22 {
      ScanStringShrinks(r[1..], []);
      var chars := StringSpelled(r[1..], []);
      assert r == [0x22] + (CharsText(chars) + ([0x22] + rest));
      assert r == Quoted(chars) + rest;
      assert text == Quoted(chars);
    } else if r[0] == 0x2D || IsDigit(r[0]) {
      NumberSpelled(r);
    } else {
      LiteralSpelled(r);
    }
  }

  lemma NumberSpelled(r: seq<Byte>)
    requires r != [] && ReadToken(r).0.Atomic? && (r[0] == 0x2D || IsDigit(r[0]))
    ensures var rest := ReadToken(r).1; var text := r[..|r| - |rest|];
      r == text + rest && IsNumber(text) && !IsNumberByte(Cur(rest))
  {
    var n := NumberRun(r[1..]);
    var text, rest := [r[0]] + r[1..][..n], r[1..][n..];
    RunBytes(r[1..]);
    RunSplit(r, n);
    assert ReadToken(r).1 == rest && NumberTaken(text);
    NumberTakenIff(text);
  }

  lemma RunSplit(r: seq<Byte>, n: nat)
    requires r != [] && n < |r|
    ensures var text, rest := [r[0]] + r[1..][..n], r[1..][n..];
      r == text + rest && text == r[..|r| - |rest|]
  {
  }

  lemma {:induction false} RunBytes(r: seq<Byte>)
    ensures var n := NumberRun(r); NumberBytes(r[..n]) && !IsNumberByte(Cur(r[n..]))
  {
    if r != [] && IsNumberByte(r[0]) {
      RunBytes(r[1..]);
      var n := NumberRun(r[1..]);
      assert r[..n + 1] == [r[0]] + r[1..][..n] && r[n + 1..] == r[1..][n..];
    }
  }

  lemma LiteralSpelled(r: seq<Byte>)
    requires r != [] && ReadToken(r).0.Atomic? && r[0] != 0x22 && r[0] != 0x2D && !IsDigit(r[0])
    ensures var rest := ReadToken(r).1; var text := r[..|r| - |rest|];
      r == text + rest && IsLiteral(text)
  {
    var rest := ReadToken(r).1;
    var word: seq<Byte> := if r[0] == 0x6E then [0x75, 0x6C, 0x6C] else if r[0] == 0x66 then [0x61, 0x6C, 0x73, 0x65]
        else [0x72, 0x75, 0x65];
    assert r[1..] == word + rest;
    assert r == ([r[0]] + word) + rest;
    assert r[..|r| - |rest|] == [r[0]] + word;
  }
}
