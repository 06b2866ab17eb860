// Which of the texts the loader accepts are JSON.

module JsonStrict {
  import opened JsonText
  import opened JsonLoader
  import opened JsonGrammar
  import opened JsonNumber
  import opened JsonPlus
  import opened JsonLenient
  import opened JsonAccept
  import opened Seqs

  ghost predicate IsJson(t: seq<Byte>) {
    exists j, before, after :: Rendered(t, j, before, after)
  }

  ghost predicate Rendered(t: seq<Byte>, j: Json, before: seq<Byte>, after: seq<Byte>) {
    Good(j) && IsWs(before) && IsWs(after) && t == before + (Text(j) + after)
  }

  // ---------- what a lenient text must observe ----------

  // White space with one mark in it.
  ghost predicate Marked(sep: seq<Byte>, mark: Byte) {
    exists k :: 0 <= k < |sep| && sep[k] == mark && IsWs(sep[..k]) && IsWs(sep[k + 1..])
  }

  // Nothing in front of the first part, a comma in front of every other.
  ghost predicate Comma(sep: seq<Byte>, first: bool) {
    if first then IsWs(sep) else Marked(sep, 0x2C)
  }

  ghost predicate IsJsonAtom(text: seq<Byte>) {
    exists j :: Good(j) && IsAtom(j) && Text(j) == text
  }

  ghost predicate IsJsonString(text: seq<Byte>) {
    exists chars :: GoodChars(chars) && text == Quoted(chars)
  }

  // Leaves are JSON's, brackets pair, there is one comma between parts and none at the end,
  // and a dict is string keys and values with one colon between them.
  ghost predicate Strict(node: Node) {
    match node
    case Leaf(text) => IsJsonAtom(text)
    case Group(dict, kids, close) =>
      if dict then close == [0x7D] && StrictMembers(kids, true) else close == [0x5D] && StrictItems(kids, true)
  }

  ghost predicate StrictItems(kids: Kids, first: bool) {
    match kids
    case End(sep) => IsWs(sep)
    case Kid(sep, node, more) => Comma(sep, first) && Strict(node) && StrictItems(more, false)
  }

  ghost predicate StrictMembers(kids: Kids, first: bool) {
    match kids
    case End(sep) => IsWs(sep)
    case Kid(sep, key, value) =>
      && Comma(sep, first) && key.Leaf? && IsJsonString(key.text)
      && value.Kid? && Marked(value.sep, 0x3A) && Strict(value.node) && StrictMembers(value.more, false)
  }

  // ---------- a strict text is JSON ----------

  lemma SplitMark(sep: seq<Byte>, mark: Byte) returns (w1: seq<Byte>, w2: seq<Byte>)
    requires Marked(sep, mark)
    ensures IsWs(w1) && IsWs(w2) && sep == w1 + [mark] + w2
  {
    var k :| 0 <= k < |sep| && sep[k] == mark && IsWs(sep[..k]) && IsWs(sep[k + 1..]);
    w1, w2 := sep[..k], sep[k + 1..];
  }

  lemma {:induction false} StrictIsJson(node: Node) returns (j: Json)
    requires Strict(node)
    ensures Good(j) && Text(j) == NodeText(node)
    decreases node, 1
  {
    match node {
      case Leaf(text) =>
        j :| Good(j) && IsAtom(j) && Text(j) == text;
      case Group(dict, kids, close) =>
        if dict {
          var members := MembersOf(kids);
          j := if kids.End? then JObj(kids.sep, NoMembers) else JObj([], members);
          assert kids.End? ==> KidsText(kids) == kids.sep;
        } else {
          var items := ItemsOf(kids);
          j := if kids.End? then JArr(kids.sep, NoItems) else JArr([], items);
        }
        GroupJoined(OpenByte(dict), KidsText(kids), close);
    }
  }

  lemma GroupJoined(open: Byte, body: seq<Byte>, close: seq<Byte>)
    ensures [open] + [] + body + close == [open] + (body + close)
    ensures [open] + body + [] + close == [open] + (body + close)
  {
  }

  lemma {:induction false} ItemsOf(kids: Kids) returns (items: Items)
    requires StrictItems(kids, true)
    ensures kids.Kid? ==> items.Item? && GoodItems(items) && ItemsText(items) == KidsText(kids)
    decreases kids, 1
  {
    items := NoItems;
    if kids.Kid? { items := ItemsFrom(kids, kids.sep); }
  }

  // The items of a strict group, the first of them behind white space.
  lemma {:induction false} ItemsFrom(kids: Kids, lead: seq<Byte>) returns (items: Items)
    requires kids.Kid? && IsWs(lead) && Strict(kids.node) && StrictItems(kids.more, false)
    ensures items.Item? && GoodItems(items) && ItemsText(items) == lead + (NodeText(kids.node) + KidsText(kids.more))
    decreases kids, 0
  {
    var c := StrictIsJson(kids.node);
    match kids.more {
      case End(sep) =>
        items := Item(lead, c, sep, NoItems);
        assert sep + [] == sep;
      case Kid(sep, node, more) =>
        var w1, w2 := SplitMark(sep, 0x2C);
        var others := ItemsFrom(kids.more, w2);
        items := Item(lead, c, w1, others);
        CommaMoved(w1, 0x2C, w2, NodeText(node) + KidsText(more));
    }
  }

  lemma CommaMoved(w1: seq<Byte>, mark: Byte, w2: seq<Byte>, tail: seq<Byte>)
    ensures w1 + ([mark] + (w2 + tail)) == (w1 + [mark] + w2) + tail
  {
  }

  lemma {:induction false} MembersOf(kids: Kids) returns (members: Members)
    requires StrictMembers(kids, true)
    ensures kids.Kid? ==> members.Member? && GoodMembers(members) && MembersText(members) == KidsText(kids)
    decreases kids, 1
  {
    members := NoMembers;
    if kids.Kid? { members := MembersFrom(kids, kids.sep); }
  }

  lemma {:induction false} MembersFrom(kids: Kids, lead: seq<Byte>) returns (members: Members)
    requires kids.Kid? && IsWs(lead) && kids.node.Leaf? && IsJsonString(kids.node.text) && kids.more.Kid?
    requires Marked(kids.more.sep, 0x3A) && Strict(kids.more.node) && StrictMembers(kids.more.more, false)
    ensures members.Member? && GoodMembers(members)
    ensures MembersText(members) == lead + (kids.node.text + KidsText(kids.more))
    decreases kids, 0
  {
    var name :| GoodChars(name) && kids.node.text == Quoted(name);
    var c := StrictIsJson(kids.more.node);
    var v1, v2 := SplitMark(kids.more.sep, 0x3A);
    match kids.more.more {
      case End(sep) =>
        members := Member(lead, name, v1, v2, c, sep, NoMembers);
        assert sep + [] == sep;
      case Kid(sep, node, more) =>
        var w1, w2 := SplitMark(sep, 0x2C);
        var others := MembersFrom(kids.more.more, w2);
        members := Member(lead, name, v1, v2, c, w1, others);
        CommaMoved(w1, 0x2C, w2, NodeText(node) + KidsText(more));
    }
  }

  // ---------- JSON as a lenient text ----------

  function NodeOf(j: Json): Node {
    match j
    case JArr(inner, items) => Group(false, KidsOf(items, inner), [0x5D])
    case JObj(inner, members) => Group(true, PairsOf(members, inner), [0x7D])
    case _ => Leaf(Text(j))
  }

  function KidsOf(items: Items, lead: seq<Byte>): Kids
    decreases items
  {
    match items
    case NoItems => End(lead)
    case Item(pre, c, post, more) => Kid(lead + pre, NodeOf(c),
        KidsOf(more, post + if more.NoItems? then [] else [0x2C]))
  }

  function PairsOf(members: Members, lead: seq<Byte>): Kids
    decreases members
  {
    match members
    case NoMembers => End(lead)
    case Member(pre, name, w1, w2, c, post, more) =>
      Kid(lead + pre, Leaf(Quoted(name)),
          Kid(w1 + [0x3A] + w2, NodeOf(c), PairsOf(more, post + if more.NoMembers? then [] else [0x2C])))
  }

  lemma {:induction false} NodeOfText(j: Json)
    ensures NodeText(NodeOf(j)) == Text(j)
    decreases j
  {
    match j {
      case JArr(inner, items) => KidsOfText(items, inner);
      case JObj(inner, members) => PairsOfText(members, inner);
      case _ =>
    }
  }

  lemma {:induction false} KidsOfText(items: Items, lead: seq<Byte>)
    ensures KidsText(KidsOf(items, lead)) == lead + ItemsText(items)
    decreases items
  {
    match items {
      case NoItems => assert lead + [] == lead;
      case Item(pre, c, post, more) =>
        var sep := if more.NoItems? then [] else [0x2C];
        NodeOfText(c);
        KidsOfText(more, post + sep);
        Regroup(post, sep, ItemsText(more));
        Regroup(lead, pre, Text(c) + (post + (sep + ItemsText(more))));
        assert more.NoItems? ==> sep + ItemsText(more) == [];
    }
  }

  lemma {:induction false} PairsOfText(members: Members, lead: seq<Byte>)
    ensures KidsText(PairsOf(members, lead)) == lead + MembersText(members)
    decreases members
  {
    match members {
      case NoMembers => assert lead + [] == lead;
      case Member(pre, name, w1, w2, c, post, more) =>
        var sep := if more.NoMembers? then [] else [0x2C];
        NodeOfText(c);
        PairsOfText(more, post + sep);
        Regroup(post, sep, MembersText(more));
        Regroup(lead, pre, Quoted(name) + ((w1 + [0x3A] + w2) + (Text(c) + (post + (sep + MembersText(more))))));
        assert more.NoMembers? ==> sep + MembersText(more) == [];
    }
  }

  lemma {:induction false} NodeOfStrict(j: Json)
    requires Good(j)
    ensures Strict(NodeOf(j))
    decreases j
  {
    match j {
      case JArr(inner, items) => KidsOfStrict(items, inner, true);
      case JObj(inner, members) => PairsOfStrict(members, inner, true);
      case _ => assert IsAtom(j);
    }
  }

  lemma CommaLeads(lead: seq<Byte>, pre: seq<Byte>, first: bool)
    requires IsWs(pre) &&
      if first then IsWs(lead) else |lead| > 0 && lead[|lead| - 1] == 0x2C && IsWs(lead[..|lead| - 1])
    ensures Comma(lead + pre, first)
  {
    if !first {
      var k := |lead| - 1;
      var sep := lead + pre;
      assert sep[k] == 0x2C && sep[..k] == lead[..k] && sep[k + 1..] == pre;
    }
  }

  lemma {:induction false} KidsOfStrict(items: Items, lead: seq<Byte>, first: bool)
    requires GoodItems(items)
    requires if first || items.NoItems? then IsWs(lead)
             else |lead| > 0 && lead[|lead| - 1] == 0x2C && IsWs(lead[..|lead| - 1])
    ensures StrictItems(KidsOf(items, lead), first)
    decreases items
  {
    match items {
      case NoItems =>
      case Item(pre, c, post, more) =>
        CommaLeads(lead, pre, first);
        NodeOfStrict(c);
        var next := post + if more.NoItems? then [] else [0x2C];
        assert next[..|post|] == post;
        KidsOfStrict(more, next, false);
    }
  }

  lemma {:induction false} PairsOfStrict(members: Members, lead: seq<Byte>, first: bool)
    requires GoodMembers(members)
    requires if first || members.NoMembers? then IsWs(lead)
             else |lead| > 0 && lead[|lead| - 1] == 0x2C && IsWs(lead[..|lead| - 1])
    ensures StrictMembers(PairsOf(members, lead), first)
    decreases members
  {
    match members {
      case NoMembers =>
      case Member(pre, name, w1, w2, c, post, more) =>
        CommaLeads(lead, pre, first);
        NodeOfStrict(c);
        ColonMarked(w1, w2);
        var next := post + if more.NoMembers? then [] else [0x2C];
        assert next[..|post|] == post;
        PairsOfStrict(more, next, false);
    }
  }

  lemma ColonMarked(w1: seq<Byte>, w2: seq<Byte>)
    requires IsWs(w1) && IsWs(w2)
    ensures Marked(w1 + [0x3A] + w2, 0x3A)
  {
    var sep := w1 + [0x3A] + w2;
    assert sep[|w1|] == 0x3A && sep[..|w1|] == w1 && sep[|w1| + 1..] == w2;
  }

  // ---------- it is spelled as the loader expects ----------

  lemma WsSkipped(ws: seq<Byte>)
    requires IsWs(ws)
    ensures AllSkipped(ws)
  {
  }

  lemma AtomLeaf(j: Json, rest: seq<Byte>)
    requires Good(j) && IsAtom(j) && NoPlus(j) && !IsNumberByte(Cur(rest))
    ensures LeafOk(Text(j), rest)
  {
    match j {
      case JInt(neg, n) =>
        IntAtom(neg, n);
        NumberBytesCat(Sign(neg), DecimalDigits(n));
        NumberTakenIff(Text(j));
      case JDecimal(_, _, _, _, _) =>
        DecimalAtom(j);
        NumberTakenIff(Text(j));
      case JStr(chars) => StringLeaf(chars, rest);
      case _ =>
    }
  }

  lemma StringLeaf(chars: seq<Char>, rest: seq<Byte>)
    requires GoodChars(chars)
    ensures LeafOk(Quoted(chars), rest)
  {
    assert LaxChars(chars) && Quoted(chars) == Quoted(chars);
  }

  lemma {:induction false} NodeOfOk(j: Json, rest: seq<Byte>)
    requires Good(j) && NoPlus(j) && !IsNumberByte(Cur(rest))
    ensures NodeOk(NodeOf(j), rest)
    decreases j
  {
    match j {
      case JArr(inner, items) => KidsOfOk(items, inner, [0x5D] + rest);
      case JObj(inner, members) => PairsOfOk(members, inner, [0x7D] + rest);
      case _ => AtomLeaf(j, rest);
    }
  }

  // What follows a part starts with a separator or a bracket.
  lemma NotNumberAhead(post: seq<Byte>, last: bool, more: seq<Byte>, rest: seq<Byte>)
    requires IsWs(post) && Stops(rest) && (last ==> more == [])
    ensures !IsNumberByte(Cur((post + if last then [] else [0x2C]) + more + rest))
  {
    var lead := post + if last then [] else [0x2C];
    if lead == [] { assert lead + more + rest == rest; } else { assert (lead + more + rest)[0] == lead[0]; }
  }

  lemma {:induction false} KidsOfOk(items: Items, lead: seq<Byte>, rest: seq<Byte>)
    requires GoodItems(items) && ItemsNoPlus(items) && AllSkipped(lead) && Stops(rest)
    ensures KidsOk(KidsOf(items, lead), rest)
    decreases items
  {
    match items {
      case NoItems =>
      case Item(pre, c, post, more) =>
        var next := post + if more.NoItems? then [] else [0x2C];
        KidsOfOk(more, next, rest);
        KidsOfText(more, next);
        NotNumberAhead(post, more.NoItems?, ItemsText(more), rest);
        NodeOfOk(c, KidsText(KidsOf(more, next)) + rest);
    }
  }

  lemma {:induction false} PairsOfOk(members: Members, lead: seq<Byte>, rest: seq<Byte>)
    requires GoodMembers(members) && MembersNoPlus(members) && AllSkipped(lead) && Stops(rest)
    ensures KidsOk(PairsOf(members, lead), rest)
    decreases members
  {
    match members {
      case NoMembers =>
      case Member(pre, name, w1, w2, c, post, more) =>
        var next := post + if more.NoMembers? then [] else [0x2C];
        PairsOfOk(more, next, rest);
        PairsOfText(more, next);
        NotNumberAhead(post, more.NoMembers?, MembersText(more), rest);
        NodeOfOk(c, KidsText(PairsOf(more, next)) + rest);
        var value := Kid(w1 + [0x3A] + w2, NodeOf(c), PairsOf(more, next));
        StringLeaf(name, KidsText(value) + rest);
    }
  }

  // ---------- a text is spelled in one way ----------

  lemma {:induction false} SkipUnique(b1: seq<Byte>, t1: seq<Byte>, b2: seq<Byte>, t2: seq<Byte>)
    requires b1 + t1 == b2 + t2 && AllSkipped(b1) && AllSkipped(b2)
    requires t1 != [] && t2 != [] && !IsSkipped(t1[0]) && !IsSkipped(t2[0])
    ensures b1 == b2 && t1 == t2
    decreases b1
  {
    if b1 == [] || b2 == [] {
      FirstByte(b1, t1);
      FirstByte(b2, t2);
      assert b1 == [] && b2 == [] && [] + t1 == t1 && [] + t2 == t2;
    } else {
      assert (b1 + t1)[1..] == b1[1..] + t1 && (b2 + t2)[1..] == b2[1..] + t2;
      assert b1[0] == (b1 + t1)[0] == b2[0];
      SkipUnique(b1[1..], t1, b2[1..], t2);
      SplitFirst(b1);
      SplitFirst(b2);
    }
  }

  lemma FirstByte(b: seq<Byte>, t: seq<Byte>)
    requires t != []
    ensures (b + t)[0] == if b == [] then t[0] else b[0]
  {
  }

  ghost predicate RootOk(node: Node, after: seq<Byte>) {
    if node.Group? && node.close == [] then KidsOk(node.kids, after) && Cur(after) == 0 else NodeOk(node, after)
  }

  lemma NodeStarts(node: Node, after: seq<Byte>)
    requires RootOk(node, after)
    ensures NodeText(node) + after != [] && Cur(NodeText(node) + after) != 0
    ensures var (token, rest) := ReadToken(NodeText(node) + after);
      match node
      case Leaf(_) => token.Atomic? && rest == after
      case Group(dict, kids, close) =>
        && token == Open(if dict then ODict(map[]) else OList([])) && rest == KidsText(kids) + (close + after)
        && ParseKids(rest) == Parsed(kids, close + after)
  {
    match node {
      case Leaf(text) => LeafReads(text, after);
      case Group(dict, kids, close) =>
        GroupText(dict, kids, close, after);
        OpenToken(dict, KidsText(kids) + (close + after));
        assert close == [] ==> close + after == after;
        ParseComplete(kids, close + after);
    }
  }

  lemma NodeUnique(n1: Node, a1: seq<Byte>, n2: Node, a2: seq<Byte>)
    requires RootOk(n1, a1) && RootOk(n2, a2) && NodeText(n1) + a1 == NodeText(n2) + a2
    ensures n1 == n2 && a1 == a2
  {
    NodeStarts(n1, a1);
    NodeStarts(n2, a2);
    if n1.Leaf? {
      SamePrefix(n1.text, n2.text, a1);
    } else {
      assert n1.close + a1 == n2.close + a2;
      if n1.close == [] { assert n1.close + a1 == a1; }
      if n2.close == [] { assert n2.close + a2 == a2; }
      if n1.close != [] && n2.close != [] { CloseSplit(n1.close, a1); CloseSplit(n2.close, a2); }
    }
  }

  lemma SamePrefix(s1: seq<Byte>, s2: seq<Byte>, rest: seq<Byte>)
    requires s1 + rest == s2 + rest
    ensures s1 == s2
  {
    assert s1 == (s1 + rest)[..|s1|] && s2 == (s2 + rest)[..|s2|];
    assert |s1| + |rest| == |s2| + |rest|;
  }

  lemma DigitFirst(digits: seq<Byte>, rest: seq<Byte>)
    requires AllDigits(digits) && (rest != [] ==> !IsDigit(rest[0]))
    ensures digits != [] <==> digits + rest != [] && IsDigit((digits + rest)[0])
  {
    if digits == [] { assert digits + rest == rest; } else { assert (digits + rest)[0] == digits[0]; }
  }

  lemma {:induction false} DigitsUnique(a: seq<Byte>, x: seq<Byte>, b: seq<Byte>, y: seq<Byte>)
    requires a + x == b + y && AllDigits(a) && AllDigits(b)
    requires (x != [] ==> !IsDigit(x[0])) && (y != [] ==> !IsDigit(y[0]))
    ensures a == b && x == y
    decreases a
  {
    DigitFirst(a, x);
    DigitFirst(b, y);
    if a == [] {
      assert a + x == x && b + y == y;
    } else {
      assert (a + x)[0] == a[0] && (b + y)[0] == b[0];
      assert (a + x)[1..] == a[1..] + x && (b + y)[1..] == b[1..] + y;
      DigitsUnique(a[1..], x, b[1..], y);
      SplitFirst(a);
      SplitFirst(b);
    }
  }

  // A number the loader takes is JSON's exactly if it has an integer part without leading
  // zeros, and digits behind its point.
  lemma NumeralIsJsonIff(n: Numeral)
    requires LaxNumeral(n)
    ensures IsJsonAtom(NumeralText(n)) <==> GoodDigits(n.digits) && (n.point ==> n.frac != [])
  {
    if GoodDigits(n.digits) && (n.point ==> n.frac != []) {
      NumeralIsJson(n);
    }
    if IsJsonAtom(NumeralText(n)) {
      var j :| Good(j) && IsAtom(j) && Text(j) == NumeralText(n);
      JsonIsNumeral(n, j);
    }
  }

  lemma NumeralIsJson(n: Numeral)
    requires LaxNumeral(n) && GoodDigits(n.digits) && (n.point ==> n.frac != [])
    ensures IsJsonAtom(NumeralText(n))
  {
    if n.point || n.exp != [] {
      var j := JDecimal(n.neg, n.digits, n.frac, n.mark, n.exp);
      assert Good(j) && IsAtom(j) && Text(j) == NumeralText(n);
    } else {
      var value := DecimalDigitsOnto(n.digits);
      var j := JInt(n.neg, value);
      assert n.digits + ([] + ([] + [])) == n.digits;
      assert Good(j) && IsAtom(j) && Text(j) == NumeralText(n);
    }
  }

  lemma JsonIsNumeral(n: Numeral, j: Json)
    requires LaxNumeral(n) && Good(j) && IsAtom(j) && Text(j) == NumeralText(n)
    ensures GoodDigits(n.digits) && (n.point ==> n.frac != [])
  {
    assert NumeralText(n)[0] == if n.neg then 0x2D else n.digits[0];
    match j {
      case JInt(neg, value) =>
        DecimalDigitsRead(value);
        assert DecimalDigits(value) + [] == DecimalDigits(value);
        SameDigits(n, neg, DecimalDigits(value), []);
      case JDecimal(neg, digits, frac, mark, exp) =>
        DecimalTail(frac, mark, exp);
        DecimalTail([], n.mark, n.exp);
        SameDigits(n, neg, digits, FracText(frac) + (mark + exp));
        if n.point { SameFrac(n.frac, n.mark + n.exp, frac, mark, exp); }
      case _ =>
    }
  }

  lemma DecimalTail(frac: seq<Byte>, mark: seq<Byte>, exp: seq<Byte>)
    requires if exp == [] then mark == [] else IsExponentMark(mark)
    ensures var tail := FracText(frac) + (mark + exp); tail != [] ==> !IsDigit(tail[0])
    ensures mark + exp != [] ==> (mark + exp)[0] == 0x65 || (mark + exp)[0] == 0x45
  {
  }

  lemma SameFrac(frac: seq<Byte>, rest: seq<Byte>, frac': seq<Byte>, mark: seq<Byte>, exp: seq<Byte>)
    requires PointText(true, frac) + rest == FracText(frac') + (mark + exp)
    requires AllDigits(frac) && AllDigits(frac') && if exp == [] then mark == [] else IsExponentMark(mark)
    requires rest != [] ==> !IsDigit(rest[0])
    ensures frac == frac' != []
  {
    var text := PointText(true, frac) + rest;
    DecimalTail(frac', mark, exp);
    assert frac' == [] ==> text == mark + exp;
    assert text[0] == 0x2E && text[1..] == frac + rest && text[1..] == frac' + (mark + exp);
    DigitsUnique(frac, rest, frac', mark + exp);
  }

  lemma SameDigits(n: Numeral, neg: bool, digits: seq<Byte>, rest: seq<Byte>)
    requires LaxNumeral(n) && GoodDigits(digits) && NumeralText(n) == Sign(neg) + (digits + rest)
    requires rest != [] ==> !IsDigit(rest[0])
    ensures n.digits == digits && PointText(n.point, n.frac) + (n.mark + n.exp) == rest
  {
    var tail := PointText(n.point, n.frac) + (n.mark + n.exp);
    assert NumeralText(n)[0] == if n.neg then 0x2D else n.digits[0];
    assert (Sign(neg) + (digits + rest))[0] == if neg then 0x2D else digits[0];
    assert n.neg == neg;
    assert n.digits + tail == NumeralText(n)[|Sign(neg)|..] == digits + rest;
    assert tail != [] ==> !IsDigit(tail[0]);
    DigitsUnique(n.digits, tail, digits, rest);
  }

  // Every accepted text has one reading, and it is JSON exactly when that reading is strict:
  // white space around it, JSON's own literals, numbers and strings, brackets that pair, one
  // comma between parts, and string keys with a colon.
  lemma AcceptedIsJsonIff(t: seq<Byte>, before: seq<Byte>, node: Node, after: seq<Byte>)
    requires Parts(t, before, node, after)
    ensures IsJson(t) <==> IsWs(before) && Strict(node) && IsWs(after)
  {
    if IsWs(before) && Strict(node) && IsWs(after) {
      var j := StrictIsJson(node);
      assert Rendered(t, j, before, after);
    }
    if IsJson(t) {
      var j, b, a :| Rendered(t, j, b, a);
      PartsLoad(t, before, node, after);
      JsonTextLoadsIff(j, b, a);
      NodeOfText(j);
      NodeOfStrict(j);
      WsSkipped(b);
      NodeOfOk(j, a);
      NodeStarts(NodeOf(j), a);
      NodeStarts(node, after);
      SkipUnique(before, NodeText(node) + after, b, NodeText(NodeOf(j)) + a);
      NodeUnique(node, after, NodeOf(j), a);
    }
  }

  // Inputs that are not JSON but load: brackets that do not pair, a missing last bracket,
  // commas and colons as white space, and a key without a value.
  lemma AcceptsMoreThanJson()
    ensures NotJsonButLoads([0x5B, 0x31, 0x7D])
    ensures NotJsonButLoads([0x5B, 0x31])
    ensures NotJsonButLoads([0x5B, 0x2C, 0x31, 0x3A])
    ensures NotJsonButLoads([0x7B, 0x31, 0x7D])
  {
    Exception([0x5B, 0x31, 0x7D], false, [], [], [0x7D]);
    Exception([0x5B, 0x31], false, [], [], []);
    Exception([0x5B, 0x2C, 0x31, 0x3A], false, [0x2C], [0x3A], []);
    Exception([0x7B, 0x31, 0x7D], true, [], [], [0x7D]);
  }

  ghost predicate NotJsonButLoads(t: seq<Byte>) {
    Run(START, t).Loaded? && !IsJson(t)
  }

  // A 1 in brackets that do not pair, or in braces.
  lemma Exception(t: seq<Byte>, dict: bool, lead: seq<Byte>, trail: seq<Byte>, close: seq<Byte>)
    requires AllSkipped(lead) && AllSkipped(trail) && (close == [] || close == [0x5D] || close == [0x7D])
    requires t == [OpenByte(dict)] + ((lead + ([0x31] + trail)) + close) && (dict || close != [0x5D])
    ensures NotJsonButLoads(t)
  {
    var node := Group(dict, Kid(lead, Leaf([0x31]), End(trail)), close);
    OneInside(dict, lead, trail, close);
    AlonePart(node);
    assert NodeText(node) == t;
    PartsLoad(t, [], node, []);
    AcceptedIsJsonIff(t, [], node, []);
  }

  lemma AlonePart(node: Node)
    requires node.Group? && FlowKids(node.kids, node.dict, false).Some? && KidsOk(node.kids, node.close)
    requires node.close == [] || node.close == [0x5D] || node.close == [0x7D]
    ensures Parts(NodeText(node), [], node, [])
  {
    var t := NodeText(node);
    assert node.close + [] == node.close && [] + (t + []) == t;
    EndSeen([]);
  }

  lemma OneInside(dict: bool, lead: seq<Byte>, trail: seq<Byte>, close: seq<Byte>)
    requires AllSkipped(lead) && AllSkipped(trail) && (close == [] || close == [0x5D] || close == [0x7D])
    ensures var kids := Kid(lead, Leaf([0x31]), End(trail));
      KidsText(kids) == lead + ([0x31] + trail) && KidsOk(kids, close) && FlowKids(kids, dict, false) == Some(dict)
  {
    var end := End(trail);
    OneIsNumber();
    assert KidsText(end) == trail && !IsNumberByte(Cur(KidsText(end) + close));
    assert NodeOk(Leaf([0x31]), KidsText(end) + close) && KidsOk(end, close);
    assert Flow(Leaf([0x31]), dict, false) == Some(dict) && FlowKids(end, dict, dict) == Some(dict);
  }

  lemma OneIsNumber()
    ensures IsNumber([0x31])
  {
    IntAtom(false, 1);
    assert Sign(false) + [0x31] == [0x31];
    NumberTakenIff([0x31]);
  }
}
