// The one kind of JSON text the loader refuses: an exponent with a plus sign.

module JsonPlus {
  import opened JsonText
  import opened JsonLoader
  import opened JsonGrammar
  import opened JsonTheorem

  // The number loop stops in front of the plus, and what it has is not a number.
  lemma PlusToken(j: Json, rest: seq<Byte>)
    requires j.JDecimal? && Good(j) && !NoPlus(j)
    ensures ReadToken(Text(j) + rest).0 == Bad && Cur(Text(j) + rest) != 0
  {
    var e := j.mark[0];
    var tail := FracText(j.frac) + [e];
    var body := j.digits + tail;
    assert j.mark == [e] + [0x2B];
    SplitAtPlus(Sign(j.neg), j.digits, FracText(j.frac), e, j.exp, rest);
    PlusBytes(j.neg, j.digits, j.frac, e);
    PlusRefused(j.neg, j.digits, j.frac, e);
    BadNumber(Sign(j.neg) + body, [0x2B] + (j.exp + rest));
  }

  lemma SplitAtPlus(sign: seq<Byte>, digits: seq<Byte>, frac: seq<Byte>, e: Byte, exp: seq<Byte>, rest: seq<Byte>)
    ensures sign + (digits + (frac + ([e] + [0x2B] + exp))) + rest
        == (sign + (digits + (frac + [e]))) + ([0x2B] + (exp + rest))
  {
  }

  lemma BadNumber(text: seq<Byte>, rest: seq<Byte>)
    requires text != [] && (text[0] == 0x2D || IsDigit(text[0])) && NumberBytes(text)
    requires NumberAtom(text) == None && !IsNumberByte(Cur(rest))
    ensures ReadToken(text + rest).0 == Bad && Cur(text + rest) != 0
  {
    NumberReads(text[1..], rest);
    assert (text + rest)[1..] == text[1..] + rest;
    assert [text[0]] + (text[1..] + rest)[..|text| - 1] == text;
  }

  lemma PlusBytes(neg: bool, digits: seq<Byte>, frac: seq<Byte>, e: Byte)
    requires AllDigits(digits) && AllDigits(frac) && (e == 0x65 || e == 0x45)
    ensures NumberBytes(Sign(neg) + (digits + (FracText(frac) + [e])))
  {
    NumberBytesCat([0x2E], frac);
    NumberBytesCat(FracText(frac), [e]);
    NumberBytesCat(digits, FracText(frac) + [e]);
    NumberBytesCat(Sign(neg), digits + (FracText(frac) + [e]));
  }

  lemma PlusRefused(neg: bool, digits: seq<Byte>, frac: seq<Byte>, e: Byte)
    requires GoodDigits(digits) && AllDigits(frac) && (e == 0x65 || e == 0x45)
    ensures var text := Sign(neg) + (digits + (FracText(frac) + [e]));
      NumberAtom(text) == None && text != [] && (text[0] == 0x2D || IsDigit(text[0]))
  {
    var tail := FracText(frac) + [e];
    var text := Sign(neg) + (digits + tail);
    assert text[|text| - 1] == e && IsFloatMark(e);
    assert text[0] == if neg then 0x2D else digits[0];
    assert (if Cur(text) == 0x2D then text[1..] else text) == digits + tail;
    DigitsRest(digits, tail, InInteger);
    TailRefused(frac, e);
  }

  lemma TailRefused(frac: seq<Byte>, e: Byte)
    requires AllDigits(frac) && (e == 0x65 || e == 0x45)
    ensures !DecimalRest(FracText(frac) + [e], InInteger)
  {
    assert !DecimalRest([e], InFraction) && !DecimalRest([e], InInteger);
    if frac == [] {
      assert FracText(frac) + [e] == [e];
    } else {
      assert (FracText(frac) + [e])[1..] == frac + [e];
      DigitsRest(frac, [e], InFraction);
    }
  }

  lemma {:induction false} PlusFails(j: Json, st: State, rest: seq<Byte>)
    requires Good(j) && !NoPlus(j) && Ready(st, j)
    ensures Run(st, Text(j) + rest) == SyntaxError
    decreases j, 0
  {
    if j.JArr? {
      var put := Put(st, RefOf(j, |st.heap|)).value;
      var inside, tail := Push(st, put, OList([])), [0x5D] + rest;
      OpenText(Text(j) + rest, 0x5B, j.inner, ItemsText(j.items), 0x5D, rest);
      OpenRuns(Text(j) + rest, st, put, j.inner + (ItemsText(j.items) + tail));
      RunSkips(j.inner, inside, ItemsText(j.items) + tail);
      PlusFailsItems(j.items, inside, tail);
    } else if j.JObj? {
      var put := Put(st, RefOf(j, |st.heap|)).value;
      var inside, tail := Push(st, put, ODict(map[])), [0x7D] + rest;
      OpenText(Text(j) + rest, 0x7B, j.inner, MembersText(j.members), 0x7D, rest);
      OpenRuns(Text(j) + rest, st, put, j.inner + (MembersText(j.members) + tail));
      RunSkips(j.inner, inside, MembersText(j.members) + tail);
      PlusFailsMembers(j.members, inside, tail);
    } else {
      PlusToken(j, rest);
    }
  }

  lemma {:induction false} PlusFailsItems(items: Items, st: State, tail: seq<Byte>)
    requires GoodItems(items) && !ItemsNoPlus(items) && !IsNumberByte(Cur(tail))
    requires st.top.Some? && st.top.value < |st.heap| && st.heap[st.top.value].OList? && st.key == None
    ensures Run(st, ItemsText(items) + tail) == SyntaxError
    decreases items, 1
  {
    match items {
      case Item(pre, c, post, more) =>
        var sep := if more.NoItems? then [] else [0x2C];
        var after := post + (sep + (ItemsText(more) + tail));
        assert ItemsText(items) + tail == pre + (Text(c) + after);
        AfterValue(post, sep, ItemsText(more), tail);
        RunSkips(pre, st, Text(c) + after);
        if !NoPlus(c) {
          PlusFails(c, st, after);
        } else {
          RunValue(c, st, after);
          var st1 := Built(Put(st, RefOf(c, |st.heap|)).value, c);
          RunSkips(post, st1, sep + (ItemsText(more) + tail));
          RunSkips(sep, st1, ItemsText(more) + tail);
          ListStep(st, st1, c, more, items);
          PlusFailsItems(more, st1, tail);
        }
    }
  }

  lemma {:induction false} PlusFailsMembers(members: Members, st: State, tail: seq<Byte>)
    requires GoodMembers(members) && !MembersNoPlus(members) && !IsNumberByte(Cur(tail))
    requires st.top.Some? && st.top.value < |st.heap| && st.heap[st.top.value].ODict? && st.key == None
    ensures Run(st, MembersText(members) + tail) == SyntaxError
    decreases members, 1
  {
    match members {
      case Member(pre, name, w1, w2, c, post, more) =>
        var sep := if more.NoMembers? then [] else [0x2C];
        var after := post + (sep + (MembersText(more) + tail));
        MemberSplit(members, tail, sep, after);
        AfterValue(post, sep, MembersText(more), tail);
        if !NoPlus(c) {
          PlusFailsMember(members, st, after);
        } else {
          var st1 := RunMember(members.(more := NoMembers), st, after);
          RunSkips(post, st1, sep + (MembersText(more) + tail));
          RunSkips(sep, st1, MembersText(more) + tail);
          DictStep(st, st1, members);
          PlusFailsMembers(more, st1, tail);
        }
    }
  }

  lemma {:induction false} PlusFailsMember(members: Members, st: State, after: seq<Byte>)
    requires GoodMembers(members) && members.Member? && !NoPlus(members.c)
    requires st.top.Some? && st.top.value < |st.heap| && st.heap[st.top.value].ODict? && st.key == None
    ensures Run(st, members.pre +
      (Quoted(members.name) + ((members.beforeColon + [0x3A] + members.afterColon) + (Text(members.c) + after))))
          == SyntaxError
    decreases members, 0
  {
    var colon, value := members.beforeColon + [0x3A] + members.afterColon, Text(members.c) + after;
    var keyed := st.(key := Some(Str(CharsValue(members.name))));
    RunSkips(members.pre, st, Quoted(members.name) + (colon + value));
    RunName(members.name, st, colon + value);
    RunSkips(colon, keyed, value);
    PlusFails(members.c, keyed, after);
  }

  // A JSON text is refused exactly when some exponent in it has a plus sign.
  lemma JsonTextLoadsIff(j: Json, before: seq<Byte>, after: seq<Byte>)
    requires Good(j) && IsWs(before) && IsWs(after)
    ensures Run(START, before + (Text(j) + after)).Loaded? <==> NoPlus(j)
  {
    if NoPlus(j) {
      EveryJsonTextLoads(j, before, after);
    } else {
      RunSkips(before, START, Text(j) + after);
      if j.JArr? {
        var inside, tail := State([OList([])], [], Some(0), None), [0x5D] + after;
        OpenText(Text(j) + after, 0x5B, j.inner, ItemsText(j.items), 0x5D, after);
        RootOpens(Text(j) + after, j.inner + (ItemsText(j.items) + tail));
        RunSkips(j.inner, inside, ItemsText(j.items) + tail);
        PlusFailsItems(j.items, inside, tail);
      } else if j.JObj? {
        var inside, tail := State([ODict(map[])], [], Some(0), None), [0x7D] + after;
        OpenText(Text(j) + after, 0x7B, j.inner, MembersText(j.members), 0x7D, after);
        RootOpens(Text(j) + after, j.inner + (MembersText(j.members) + tail));
        RunSkips(j.inner, inside, MembersText(j.members) + tail);
        PlusFailsMembers(j.members, inside, tail);
      } else {
        PlusToken(j, after);
      }
    }
  }
}
