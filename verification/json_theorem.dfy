// The loader builds the right objects for every JSON text: the heap it leaves, and its meaning.

module JsonTheorem {
  import opened JsonText
  import opened JsonLoader
  import opened JsonGrammar
  import opened Seqs

  // ---------- the objects a text creates, in order of creation ----------

  // j read when the heap holds base objects.
  function RefOf(j: Json, base: nat): Ref
    requires Good(j)
  {
    if IsAtom(j) then Prim(AtomOf(j)) else Ptr(base)
  }

  function Objects(j: Json, base: nat): seq<Obj>
    requires Good(j)
    decreases j
  {
    match j
    case JArr(_, items) => [OList(ItemRefs(items, base + 1))] + ItemObjects(items, base + 1)
    case JObj(_, members) => [ODict(MemberRefs(members, base + 1, map[]))] + MemberObjects(members, base + 1)
    case _ => []
  }

  function ItemRefs(items: Items, base: nat): seq<Ref>
    requires GoodItems(items)
    decreases items
  {
    match items
    case NoItems => []
    case Item(_, c, _, more) => [RefOf(c, base)] + ItemRefs(more, base + |Objects(c, base)|)
  }

  function ItemObjects(items: Items, base: nat): seq<Obj>
    requires GoodItems(items)
    decreases items
  {
    match items
    case NoItems => []
    case Item(_, c, _, more) => Objects(c, base) + ItemObjects(more, base + |Objects(c, base)|)
  }

  function MemberRefs(members: Members, base: nat, acc: map<Atom, Ref>): map<Atom, Ref>
    requires GoodMembers(members)
    decreases members
  {
    match members
    case NoMembers => acc
    case Member(_, name, _, _, c, _, more) =>
      MemberRefs(more, base + |Objects(c, base)|, acc[Str(CharsValue(name)) := RefOf(c, base)])
  }

  function MemberObjects(members: Members, base: nat): seq<Obj>
    requires GoodMembers(members)
    decreases members
  {
    match members
    case NoMembers => []
    case Member(_, _, _, _, c, _, more) => Objects(c, base) + MemberObjects(more, base + |Objects(c, base)|)
  }

  // Objects grow behind the container that is being filled.
  lemma FillStep<T>(heap: seq<T>, id: nat, x: T, y: T, objs: seq<T>, more: seq<T>)
    requires id < |heap|
    ensures (heap[id := x] + objs)[id] == x
    ensures (heap[id := x] + objs)[id := y] + more == heap[id := y] + (objs + more)
  {
  }

  lemma FillNew<T>(heap: seq<T>, x: T, y: T, more: seq<T>)
    ensures (heap + [x])[|heap|] == x
    ensures (heap + [x])[|heap| := y] + more == heap + ([y] + more)
  {
  }

  lemma PopPush<T>(stack: seq<T>, top: T)
    ensures (stack + [top])[|stack|] == top && (stack + [top])[..|stack|] == stack
  {
  }

  // ---------- running over one piece of text ----------

  lemma {:induction false} RunSkips(ws: seq<Byte>, st: State, rest: seq<Byte>)
    requires forall i :: 0 <= i < |ws| ==> IsSkipped(ws[i])
    ensures Run(st, ws + rest) == Run(st, rest)
    decreases ws
  {
    if ws == [] {
      assert ws + rest == rest;
    } else {
      assert (ws + rest)[1..] == ws[1..] + rest;
      RunSkips(ws[1..], st, rest);
    }
  }

  // The state after the value j has been put into the open container and built.
  function Built(put: State, j: Json): State
    requires Good(j)
  {
    put.(heap := put.heap + Objects(j, |put.heap|))
  }

  ghost predicate Ready(st: State, j: Json)
    requires Good(j)
  {
    && st.top.Some? && st.top.value < |st.heap|
    && (st.heap[st.top.value].OList? <==> st.key == None)
  }

  lemma {:induction false} RunValue(j: Json, st: State, rest: seq<Byte>)
    requires Good(j) && NoPlus(j) && Ready(st, j) && !IsNumberByte(Cur(rest))
    ensures Run(st, Text(j) + rest) == Run(Built(Put(st, RefOf(j, |st.heap|)).value, j), rest)
    decreases j, 1
  {
    if j.JArr? {
      RunArray(j, st, rest);
    } else if j.JObj? {
      RunObject(j, st, rest);
    } else {
      AtomToken(j, rest);
      var put := Put(st, RefOf(j, |st.heap|)).value;
      assert put.heap + [] == put.heap;
    }
  }

  lemma OpenRuns(r: seq<Byte>, st: State, put: State, after: seq<Byte>)
    requires r != [] && r[1..] == after && (r[0] == 0x5B || r[0] == 0x7B)
    requires st.top.Some? && Put(st, Ptr(|st.heap|)) == Some(put)
    ensures Run(st, r) == Run(Push(st, put, if r[0] == 0x5B then OList([]) else ODict(map[])), after)
  {
  }

  lemma CloseRuns(st: State, close: Byte, rest: seq<Byte>)
    requires (close == 0x5D || close == 0x7D) && st.top.Some? && st.stack != []
    ensures Run(st, [close] + rest) == Run(Pop(st), rest)
  {
    assert ([close] + rest)[1..] == rest;
  }

  lemma {:induction false} RunArray(j: Json, st: State, rest: seq<Byte>)
    requires Good(j) && NoPlus(j) && j.JArr? && Ready(st, j) && !IsNumberByte(Cur(rest))
    ensures Run(st, Text(j) + rest) == Run(Built(Put(st, RefOf(j, |st.heap|)).value, j), rest)
    decreases j, 0
  {
    var put := Put(st, RefOf(j, |st.heap|)).value;
    var inside := Push(st, put, OList([]));
    var tail := [0x5D] + rest;
    OpenText(Text(j) + rest, 0x5B, j.inner, ItemsText(j.items), 0x5D, rest);
    OpenRuns(Text(j) + rest, st, put, j.inner + (ItemsText(j.items) + tail));
    RunSkips(j.inner, inside, ItemsText(j.items) + tail);
    RunItems(j.items, inside, tail);
    CloseRuns(FilledList(inside, j.items), 0x5D, rest);
    ListBuilt(put, inside, j.items, j, st.stack, st.top.value);
  }

  lemma {:induction false} RunObject(j: Json, st: State, rest: seq<Byte>)
    requires Good(j) && NoPlus(j) && j.JObj? && Ready(st, j) && !IsNumberByte(Cur(rest))
    ensures Run(st, Text(j) + rest) == Run(Built(Put(st, RefOf(j, |st.heap|)).value, j), rest)
    decreases j, 0
  {
    var put := Put(st, RefOf(j, |st.heap|)).value;
    var inside := Push(st, put, ODict(map[]));
    var tail := [0x7D] + rest;
    OpenText(Text(j) + rest, 0x7B, j.inner, MembersText(j.members), 0x7D, rest);
    OpenRuns(Text(j) + rest, st, put, j.inner + (MembersText(j.members) + tail));
    RunSkips(j.inner, inside, MembersText(j.members) + tail);
    RunMembers(j.members, inside, tail);
    CloseRuns(FilledDict(inside, j.members), 0x7D, rest);
    DictBuilt(put, inside, j.members, j, st.stack, st.top.value);
  }

  lemma OpenText(r: seq<Byte>, open: Byte, inner: seq<Byte>, body: seq<Byte>, close: Byte, rest: seq<Byte>)
    requires r == [open] + inner + body + [close] + rest
    ensures r != [] && r[0] == open && r[1..] == inner + (body + ([close] + rest))
  {
  }

  // The innermost list after all its items, and the objects they created.
  function FilledList(st: State, items: Items): State
    requires GoodItems(items) && st.top.Some? && st.top.value < |st.heap| && st.heap[st.top.value].OList?
  {
    var id := st.top.value;
    st.(heap := st.heap[id := OList(st.heap[id].items + ItemRefs(items, |st.heap|))] + ItemObjects(items, |st.heap|))
  }

  lemma {:induction false} RunItems(items: Items, st: State, tail: seq<Byte>)
    requires GoodItems(items) && ItemsNoPlus(items) && !IsNumberByte(Cur(tail))
    requires st.top.Some? && st.top.value < |st.heap| && st.heap[st.top.value].OList? && st.key == None
    ensures Run(st, ItemsText(items) + tail) == Run(FilledList(st, items), tail)
    decreases items
  {
    match items {
      case NoItems =>
        assert ItemsText(items) + tail == tail;
        assert st.heap[st.top.value].items + [] == st.heap[st.top.value].items;
        assert FilledList(st, items).heap == st.heap;
      case Item(pre, c, post, more) =>
        var id := st.top.value;
        var sep := if more.NoItems? then [] else [0x2C];
        var after := post + (sep + (ItemsText(more) + tail));
        assert ItemsText(items) + tail == pre + (Text(c) + after);
        AfterValue(post, sep, ItemsText(more), tail);
        RunSkips(pre, st, Text(c) + after);
        RunValue(c, st, after);
        var st1 := Built(Put(st, RefOf(c, |st.heap|)).value, c);
        RunSkips(post, st1, sep + (ItemsText(more) + tail));
        RunSkips(sep, st1, ItemsText(more) + tail);
        RunItems(more, st1, tail);
        ListStep(st, st1, c, more, items);
    }
  }

  // What follows a value is whitespace, a comma or a closing bracket, never a number byte.
  lemma AfterValue(post: seq<Byte>, sep: seq<Byte>, more: seq<Byte>, tail: seq<Byte>)
    requires IsWs(post) && !IsNumberByte(Cur(tail)) && ((sep == [] && more == []) || sep == [0x2C])
    ensures !IsNumberByte(Cur(post + (sep + (more + tail))))
  {
    if post == [] && sep == [] {
      assert post + (sep + (more + tail)) == tail;
    }
  }

  lemma ListStep(st: State, st1: State, c: Json, more: Items, items: Items)
    requires GoodItems(items) && items.Item? && items.c == c && items.more == more
    requires st.top.Some? && st.top.value < |st.heap| && st.heap[st.top.value].OList?
    requires st1 == Built(Put(st, RefOf(c, |st.heap|)).value, c)
    ensures st1.top == st.top && st1.key == st.key && st.top.value < |st1.heap| && st1.heap[st.top.value].OList?
    ensures FilledList(st1, more) == FilledList(st, items)
  {
    var id, n := st.top.value, |st.heap|;
    var objs, olds := Objects(c, n), st.heap[id].items;
    var refs := olds + [RefOf(c, n)];
    var all := olds + ItemRefs(items, n);
    assert ItemRefs(items, n) == [RefOf(c, n)] + ItemRefs(more, n + |objs|);
    Regroup(olds, [RefOf(c, n)], ItemRefs(more, n + |objs|));
    assert ItemObjects(items, n) == objs + ItemObjects(more, n + |objs|);
    FillStep(st.heap, id, OList(refs), OList(all), objs, ItemObjects(more, n + |objs|));
  }

  lemma ListBuilt(put: State, entered: State, items: Items, j: Json, stack: seq<nat>, top: nat)
    requires Good(j) && j.JArr? && j.items == items
    requires put.stack == stack && put.top == Some(top)
    requires entered == put.(heap := put.heap + [OList([])], stack := stack + [top], top := Some(|put.heap|))
    ensures Pop(FilledList(entered, items)) == Built(put, j)
  {
    var n := |put.heap|;
    var refs := ItemRefs(items, n + 1);
    assert [] + refs == refs;
    FillNew(put.heap, OList([]), OList(refs), ItemObjects(items, n + 1));
    PopPush(stack, top);
  }

  function FilledDict(st: State, members: Members): State
    requires GoodMembers(members) && st.top.Some? && st.top.value < |st.heap| && st.heap[st.top.value].ODict?
  {
    var id := st.top.value;
    st.(heap := st.heap[id := ODict(MemberRefs(members, |st.heap|, st.heap[id].entries))]
        + MemberObjects(members, |st.heap|))
  }

  lemma RunName(name: seq<Char>, st: State, rest: seq<Byte>)
    requires GoodChars(name) && st.key == None
    requires st.top.Some? && st.top.value < |st.heap| && st.heap[st.top.value].ODict?
    ensures Run(st, Quoted(name) + rest) == Run(st.(key := Some(Str(CharsValue(name)))), rest)
  {
    StringToken(name, rest);
  }

  lemma {:induction false} RunMembers(members: Members, st: State, tail: seq<Byte>)
    requires GoodMembers(members) && MembersNoPlus(members) && !IsNumberByte(Cur(tail))
    requires st.top.Some? && st.top.value < |st.heap| && st.heap[st.top.value].ODict? && st.key == None
    ensures Run(st, MembersText(members) + tail) == Run(FilledDict(st, members), tail)
    decreases members, 1
  {
    match members {
      case NoMembers =>
        assert MembersText(members) + tail == tail;
        assert FilledDict(st, members).heap == st.heap;
      case Member(pre, name, w1, w2, c, post, more) =>
        var sep := if more.NoMembers? then [] else [0x2C];
        var after := post + (sep + (MembersText(more) + tail));
        MemberSplit(members, tail, sep, after);
        AfterValue(post, sep, MembersText(more), tail);
        var st1 := RunMember(members, st, after);
        RunSkips(post, st1, sep + (MembersText(more) + tail));
        RunSkips(sep, st1, MembersText(more) + tail);
        DictStep(st, st1, members);
        RunMembers(more, st1, tail);
    }
  }

  lemma MemberSplit(members: Members, tail: seq<Byte>, sep: seq<Byte>, after: seq<Byte>)
    requires members.Member? && sep == if members.more.NoMembers? then [] else [0x2C]
    requires after == members.post + (sep + (MembersText(members.more) + tail))
    ensures MembersText(members) + tail == members.pre +
      (Quoted(members.name) + ((members.beforeColon + [0x3A] + members.afterColon) + (Text(members.c) + after)))
  {
  }

  // Whitespace, name, colon and value of one member.
  lemma {:induction false} RunMember(members: Members, st: State, after: seq<Byte>) returns (st1: State)
    requires GoodMembers(members) && MembersNoPlus(members) && members.Member? && !IsNumberByte(Cur(after))
    requires st.top.Some? && st.top.value < |st.heap| && st.heap[st.top.value].ODict? && st.key == None
    ensures st1 == Built(Put(st.(key := Some(Str(CharsValue(members.name)))), RefOf(members.c, |st.heap|)).value,
        members.c)
    ensures Run(st, members.pre +
      (Quoted(members.name) + ((members.beforeColon + [0x3A] + members.afterColon) + (Text(members.c) + after))))
          == Run(st1, after)
    decreases members, 0
  {
    var colon := members.beforeColon + [0x3A] + members.afterColon;
    var value := Text(members.c) + after;
    var keyed := st.(key := Some(Str(CharsValue(members.name))));
    RunSkips(members.pre, st, Quoted(members.name) + (colon + value));
    RunName(members.name, st, colon + value);
    RunSkips(colon, keyed, value);
    RunValue(members.c, keyed, after);
    st1 := Built(Put(keyed, RefOf(members.c, |st.heap|)).value, members.c);
  }

  lemma DictStep(st: State, st1: State, members: Members)
    requires GoodMembers(members) && members.Member?
    requires st.top.Some? && st.top.value < |st.heap| && st.heap[st.top.value].ODict? && st.key == None
    requires var keyed := st.(key := Some(Str(CharsValue(members.name))));
      st1 == Built(Put(keyed, RefOf(members.c, |st.heap|)).value, members.c)
    ensures st1.top == st.top && st1.key == None && st.top.value < |st1.heap| && st1.heap[st.top.value].ODict?
    ensures FilledDict(st1, members.more) == FilledDict(st, members)
  {
    var id, n := st.top.value, |st.heap|;
    var objs, olds := Objects(members.c, n), st.heap[id].entries;
    var entries := olds[Str(CharsValue(members.name)) := RefOf(members.c, n)];
    var all := MemberRefs(members, n, olds);
    assert MemberRefs(members.more, n + |objs|, entries) == all;
    FillStep(st.heap, id, ODict(entries), ODict(all), objs, MemberObjects(members.more, n + |objs|));
  }

  lemma DictBuilt(put: State, entered: State, members: Members, j: Json, stack: seq<nat>, top: nat)
    requires Good(j) && j.JObj? && j.members == members
    requires put.stack == stack && put.top == Some(top)
    requires entered == put.(heap := put.heap + [ODict(map[])], stack := stack + [top], top := Some(|put.heap|))
    ensures Pop(FilledDict(entered, members)) == Built(put, j)
  {
    var n := |put.heap|;
    var refs := MemberRefs(members, n + 1, map[]);
    FillNew(put.heap, ODict(map[]), ODict(refs), MemberObjects(members, n + 1));
    PopPush(stack, top);
  }

  // ---------- the meaning of the objects ----------

  ghost predicate Holds(heap: seq<Obj>, base: nat, objs: seq<Obj>) {
    base + |objs| <= |heap| && forall k :: 0 <= k < |objs| ==> heap[base + k] == objs[k]
  }

  lemma HoldsSplit(heap: seq<Obj>, base: nat, a: seq<Obj>, b: seq<Obj>)
    requires Holds(heap, base, a + b)
    ensures Holds(heap, base, a) && Holds(heap, base + |a|, b)
  {
    forall k | 0 <= k < |a| ensures heap[base + k] == a[k] {
      assert (a + b)[k] == a[k];
    }
    forall k | 0 <= k < |b| ensures heap[base + |a| + k] == b[k] {
      assert (a + b)[|a| + k] == b[k];
    }
  }

  lemma HoldsHead(heap: seq<Obj>, base: nat, x: Obj, rest: seq<Obj>)
    requires Holds(heap, base, [x] + rest)
    ensures base < |heap| && heap[base] == x && Holds(heap, base + 1, rest)
  {
    assert heap[base + 0] == ([x] + rest)[0];
    HoldsSplit(heap, base, [x], rest);
  }

  // Wherever a text's objects lie in the heap, they stand for its value.
  lemma {:induction false} ObjectsMean(j: Json, heap: seq<Obj>, base: nat)
    requires Good(j) && Holds(heap, base, Objects(j, base))
    ensures Reify(heap, RefOf(j, base)) == ValueOf(j)
    decreases j, 0
  {
    match j {
      case JArr(_, items) =>
        HoldsHead(heap, base, OList(ItemRefs(items, base + 1)), ItemObjects(items, base + 1));
        ItemsMean(items, heap, base + 1, base);
      case JObj(_, members) =>
        HoldsHead(heap, base, ODict(MemberRefs(members, base + 1, map[])), MemberObjects(members, base + 1));
        MembersMean(members, heap, base + 1, base, map[], map[]);
      case _ =>
    }
  }

  lemma {:induction false} ItemsMean(items: Items, heap: seq<Obj>, base: nat, id: nat)
    requires GoodItems(items) && id < base && Holds(heap, base, ItemObjects(items, base)) && id < |heap|
    ensures |ItemRefs(items, base)| == |ItemValues(items)|
    ensures forall k ::
      0 <= k < |ItemValues(items)| ==> ReifyChild(heap, id, ItemRefs(items, base)[k]) == ItemValues(items)[k]
    decreases items
  {
    match items {
      case NoItems =>
      case Item(_, c, _, more) =>
        HoldsSplit(heap, base, Objects(c, base), ItemObjects(more, base + |Objects(c, base)|));
        ChildMeans(c, heap, base, id);
        ItemsMean(more, heap, base + |Objects(c, base)|, id);
    }
  }

  lemma {:induction false} ChildMeans(c: Json, heap: seq<Obj>, base: nat, id: nat)
    requires Good(c) && id < base && id < |heap| && Holds(heap, base, Objects(c, base))
    ensures ReifyChild(heap, id, RefOf(c, base)) == ValueOf(c)
    decreases c, 1
  {
    ObjectsMean(c, heap, base);
  }

  ghost predicate Agree(heap: seq<Obj>, id: nat, refs: map<Atom, Ref>, values: map<Atom, Value>)
    requires id < |heap|
  {
    refs.Keys == values.Keys && forall k :: k in refs ==> ReifyChild(heap, id, refs[k]) == values[k]
  }

  lemma {:induction false} MembersMean(members: Members, heap: seq<Obj>, base: nat, id: nat, refs: map<Atom, Ref>,
      values: map<Atom, Value>)
    requires GoodMembers(members) && id < base && id < |heap| && Holds(heap, base, MemberObjects(members, base))
    requires Agree(heap, id, refs, values)
    ensures Agree(heap, id, MemberRefs(members, base, refs), MemberValues(members, values))
    decreases members
  {
    match members {
      case NoMembers =>
      case Member(_, name, _, _, c, _, more) =>
        HoldsSplit(heap, base, Objects(c, base), MemberObjects(more, base + |Objects(c, base)|));
        ChildMeans(c, heap, base, id);
        var key := Str(CharsValue(name));
        MembersMean(more, heap, base + |Objects(c, base)|, id, refs[key := RefOf(c, base)], values[key := ValueOf(c)]);
    }
  }

  // ---------- main theorem ----------

  lemma {:induction false} SpaceSkipped(ws: seq<Byte>)
    requires IsWs(ws)
    ensures Cur(SkipSpace(ws)) == 0
    decreases ws
  {
    if ws != [] { SpaceSkipped(ws[1..]); }
  }

  lemma RootOpens(r: seq<Byte>, after: seq<Byte>)
    requires r != [] && r[1..] == after && (r[0] == 0x5B || r[0] == 0x7B)
    ensures Run(START, r) == Run(State([if r[0] == 0x5B then OList([]) else ODict(map[])], [], Some(0), None), after)
  {
    assert [] + [OList([])] == [OList([])] && [] + [ODict(map[])] == [ODict(map[])];
  }

  lemma CloseToken(close: Byte, rest: seq<Byte>)
    requires close == 0x5D || close == 0x7D
    ensures ReadToken([close] + rest) == (Close, rest)
  {
    assert ([close] + rest)[1..] == rest;
  }

  lemma FinishesAfterSpace(st: State, root: Ref, rest: seq<Byte>)
    requires st.stack == [] && IsWs(rest)
    ensures Finish(st, Some(root), rest) == Loaded(st.heap, root)
  {
    SpaceSkipped(rest);
  }

  lemma RootCloses(st: State, close: Byte, rest: seq<Byte>)
    requires (close == 0x5D || close == 0x7D) && st.top.Some? && st.stack == [] && IsWs(rest)
    ensures Run(st, [close] + rest) == Loaded(st.heap, Ptr(st.top.value))
  {
    CloseToken(close, rest);
    FinishesAfterSpace(st, Ptr(st.top.value), rest);
  }

  lemma RootArray(j: Json, rest: seq<Byte>)
    requires Good(j) && NoPlus(j) && j.JArr? && IsWs(rest)
    ensures Run(START, Text(j) + rest) == Loaded(Objects(j, 0), Ptr(0))
  {
    var tail := [0x5D] + rest;
    var inside := State([OList([])], [], Some(0), None);
    OpenText(Text(j) + rest, 0x5B, j.inner, ItemsText(j.items), 0x5D, rest);
    RootOpens(Text(j) + rest, j.inner + (ItemsText(j.items) + tail));
    RunSkips(j.inner, inside, ItemsText(j.items) + tail);
    RunItems(j.items, inside, tail);
    assert [] + ItemRefs(j.items, 1) == ItemRefs(j.items, 1);
    assert [OList([])][0 := OList(ItemRefs(j.items, 1))] == [OList(ItemRefs(j.items, 1))];
    RootCloses(FilledList(inside, j.items), 0x5D, rest);
  }

  lemma RootObject(j: Json, rest: seq<Byte>)
    requires Good(j) && NoPlus(j) && j.JObj? && IsWs(rest)
    ensures Run(START, Text(j) + rest) == Loaded(Objects(j, 0), Ptr(0))
  {
    var tail := [0x7D] + rest;
    var inside := State([ODict(map[])], [], Some(0), None);
    OpenText(Text(j) + rest, 0x7B, j.inner, MembersText(j.members), 0x7D, rest);
    RootOpens(Text(j) + rest, j.inner + (MembersText(j.members) + tail));
    RunSkips(j.inner, inside, MembersText(j.members) + tail);
    RunMembers(j.members, inside, tail);
    assert [ODict(map[])][0 := ODict(MemberRefs(j.members, 1, map[]))] == [ODict(MemberRefs(j.members, 1, map[]))];
    RootCloses(FilledDict(inside, j.members), 0x7D, rest);
  }

  // The decimal writing of any number, with or without a minus, with any leading zeros, loads
  // as that number.
  lemma EveryIntegerLoads(neg: bool, zeros: nat, n: nat, before: seq<Byte>, after: seq<Byte>)
    requires IsWs(before) && IsWs(after)
    ensures Run(START, before + ((Sign(neg) + (Zeros(zeros) + DecimalDigits(n))) + after))
         == Loaded([], Prim(Int(Signed(neg, n))))
  {
    var digits := Zeros(zeros) + DecimalDigits(n);
    var text := Sign(neg) + digits;
    RunSkips(before, START, text + after);
    ZerosAtom(neg, zeros, n);
    NumberBytesCat(Sign(neg), digits);
    assert text[0] == if neg then 0x2D else digits[0];
    NumberToken(text, Int(Signed(neg, n)), after);
    AtomAlone(text + after, Int(Signed(neg, n)), after);
  }

  lemma AtomAlone(r: seq<Byte>, a: Atom, after: seq<Byte>)
    requires Cur(r) != 0 && ReadToken(r) == (Atomic(a), after) && IsWs(after)
    ensures Run(START, r) == Loaded([], Prim(a))
  {
    FinishesAfterSpace(START, Prim(a), after);
  }

  // For every JSON text (with any whitespace, escapes and nesting), the loader accepts it and
  // returns exactly its value.
  lemma EveryJsonTextLoads(j: Json, before: seq<Byte>, after: seq<Byte>)
    requires Good(j) && NoPlus(j) && IsWs(before) && IsWs(after)
    ensures var r := Run(START, before + (Text(j) + after));
      r.Loaded? && Reify(r.heap, r.root) == ValueOf(j)
  {
    RunSkips(before, START, Text(j) + after);
    if IsAtom(j) {
      AtomToken(j, after);
      SpaceSkipped(after);
    } else {
      if j.JArr? { RootArray(j, after); } else { RootObject(j, after); }
      ObjectsMean(j, Objects(j, 0), 0);
    }
  }
}
