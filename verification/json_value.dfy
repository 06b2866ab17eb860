// What the loader makes of every text it accepts, JSON or not, and where its one pending key goes.

module JsonValue {
  import opened JsonText
  import opened JsonLoader
  import opened JsonLenient
  import opened JsonAccept
  import opened Seqs

  // ---------- the value of a tree ----------

  // A container as far as it is filled, and the key that waits for a value. There is one such
  // key for all containers: it goes along into a container and comes back out of it.
  datatype Held = Held(value: Value, key: Option<Atom>)

  function Empty(dict: bool): Value {
    if dict then VDict(map[]) else VList([])
  }

  // Append to a list; in a dict, be the key that waits, or the value of the one that does.
  function Add(h: Held, v: Value): Held {
    match h.value
    case VAtom(_) => h
    case VList(items) => h.(value := VList(items + [v]))
    case VDict(entries) =>
      match h.key
      case None => if v.VAtom? then h.(key := Some(v.a)) else h
      case Some(k) => Held(VDict(entries[k := v]), None)
  }

  function AddNode(h: Held, node: Node): Held
    decreases node
  {
    match node
    case Leaf(text) => Add(h, VAtom(LeafAtom(text)))
    case Group(dict, kids, _) =>
      var inner := AddKids(Held(Empty(dict), if h.value.VDict? then None else h.key), kids);
      Add(h, inner.value).(key := inner.key)
  }

  function AddKids(h: Held, kids: Kids): Held
    decreases kids
  {
    match kids
    case End(_) => h
    case Kid(_, node, more) => AddKids(AddNode(h, node), more)
  }

  function NodeValue(node: Node): Value {
    match node
    case Leaf(text) => VAtom(LeafAtom(text))
    case Group(dict, kids, _) => AddKids(Held(Empty(dict), None), kids).value
  }

  // ---------- objects that only refer to younger ones ----------

  predicate RefIn(ref: Ref, id: nat, size: nat) {
    ref.Ptr? ==> id < ref.id < size
  }

  predicate ObjIn(obj: Obj, id: nat, size: nat) {
    match obj
    case OList(items) => forall k :: 0 <= k < |items| ==> RefIn(items[k], id, size)
    case ODict(entries) => forall k :: k in entries ==> RefIn(entries[k], id, size)
  }

  predicate Closed(heap: seq<Obj>) {
    forall i :: 0 <= i < |heap| ==> ObjIn(heap[i], i, |heap|)
  }

  predicate SameFrom(heap: seq<Obj>, heap': seq<Obj>, id: nat) {
    |heap| <= |heap'| && forall i :: id <= i < |heap| ==> heap'[i] == heap[i]
  }

  // What an object stands for depends on it and the younger ones only.
  lemma {:induction false} ReifyKept(heap: seq<Obj>, heap': seq<Obj>, id: nat)
    requires Closed(heap) && id < |heap| && SameFrom(heap, heap', id)
    ensures Reify(heap', Ptr(id)) == Reify(heap, Ptr(id))
    decreases |heap| - id
  {
    assert ObjIn(heap[id], id, |heap|);
    match heap[id] {
      case OList(items) =>
        forall k | 0 <= k < |items| ensures ReifyChild(heap', id, items[k]) == ReifyChild(heap, id, items[k]) {
          ChildKept(heap, heap', id, items[k]);
        }
      case ODict(entries) =>
        forall k | k in entries ensures ReifyChild(heap', id, entries[k]) == ReifyChild(heap, id, entries[k]) {
          ChildKept(heap, heap', id, entries[k]);
        }
    }
  }

  lemma {:induction false} ChildKept(heap: seq<Obj>, heap': seq<Obj>, id: nat, child: Ref)
    requires Closed(heap) && id < |heap| && RefIn(child, id, |heap|) && SameFrom(heap, heap', id + 1)
    ensures ReifyChild(heap', id, child) == ReifyChild(heap, id, child)
    decreases |heap| - id, 0
  {
    if child.Ptr? { ReifyKept(heap, heap', child.id); }
  }

  // ---------- the loader's state as a container ----------

  function View(st: State): Held
    requires Inside(st)
  {
    Held(Reify(st.heap, Ptr(st.top.value)), st.key)
  }

  // What reading may change: the open container, and what is behind all there was.
  predicate OnlyTop(heap: seq<Obj>, heap': seq<Obj>, top: nat) {
    |heap| <= |heap'| && forall i :: 0 <= i < |heap| && i != top ==> heap'[i] == heap[i]
  }

  ghost predicate Filled(st: State, st': State, h: Held)
    requires Inside(st)
  {
    && Inside(st') && st'.top == st.top && Closed(st'.heap) && OnlyTop(st.heap, st'.heap, st.top.value)
    && View(st') == h
  }

  // Putting a reference is adding what it will stand for.
  lemma PutAdds(st: State, ref: Ref, st': State)
    requires Inside(st) && Closed(st.heap) && Put(st, ref).Some?
    requires st'.top == st.top && OnlyTop(st.heap, st'.heap, st.top.value)
    requires st'.heap[st.top.value] == Put(st, ref).value.heap[st.top.value]
    requires ref.Ptr? ==> st.top.value < ref.id < |st'.heap|
    ensures Reify(st'.heap, Ptr(st.top.value)) == Add(View(st), ReifyChild(st'.heap, st.top.value, ref)).value
    ensures Put(st, ref).value.key == Add(View(st), ReifyChild(st'.heap, st.top.value, ref)).key
  {
    var top := st.top.value;
    assert ObjIn(st.heap[top], top, |st.heap|);
    match st.heap[top] {
      case OList(items) => ListAdds(st.heap, st'.heap, top, ref);
      case ODict(entries) =>
        if st.key.None? {
          ReifyKept(st.heap, st'.heap, top);
        } else {
          DictAdds(st.heap, st'.heap, top, st.key.value, ref);
        }
    }
  }

  lemma ListAdds(heap: seq<Obj>, heap': seq<Obj>, top: nat, ref: Ref)
    requires Closed(heap) && top < |heap| && heap[top].OList? && SameFrom(heap, heap', top + 1)
    requires heap'[top] == OList(heap[top].items + [ref])
    ensures Reify(heap, Ptr(top)).VList?
    ensures Reify(heap', Ptr(top)) == VList(Reify(heap, Ptr(top)).items + [ReifyChild(heap', top, ref)])
  {
    var items := heap[top].items;
    assert ObjIn(heap[top], top, |heap|);
    forall k | 0 <= k < |items| ensures ReifyChild(heap', top, items[k]) == ReifyChild(heap, top, items[k]) {
      ChildKept(heap, heap', top, items[k]);
    }
  }

  lemma DictAdds(heap: seq<Obj>, heap': seq<Obj>, top: nat, key: Atom, ref: Ref)
    requires Closed(heap) && top < |heap| && heap[top].ODict? && SameFrom(heap, heap', top + 1)
    requires heap'[top] == ODict(heap[top].entries[key := ref])
    ensures Reify(heap, Ptr(top)).VDict?
    ensures Reify(heap', Ptr(top)) == VDict(Reify(heap, Ptr(top)).entries[key := ReifyChild(heap', top, ref)])
  {
    var entries := heap[top].entries;
    assert ObjIn(heap[top], top, |heap|);
    forall k | k in entries ensures ReifyChild(heap', top, entries[k]) == ReifyChild(heap, top, entries[k]) {
      ChildKept(heap, heap', top, entries[k]);
    }
  }

  // ---------- reading a tree fills the container with it ----------

  lemma {:induction false} WalkFills(st: State, node: Node)
    requires Inside(st) && Closed(st.heap) && Walk(st, node).Some?
    ensures Filled(st, Walk(st, node).value, AddNode(View(st), node))
    decreases node
  {
    match node {
      case Leaf(text) =>
        var ref := Prim(LeafAtom(text));
        PutAdds(st, ref, Put(st, ref).value);
        PutClosed(st, ref);
      case Group(dict, kids, _) => GroupFills(st, node);
    }
  }

  lemma PutClosed(st: State, ref: Ref)
    requires Inside(st) && Closed(st.heap) && Put(st, ref).Some?
    ensures ref.Prim? ==> Closed(Put(st, ref).value.heap)
    ensures ref == Ptr(|st.heap|) ==> forall dict :: Closed(Put(st, ref).value.heap + [NewContainer(dict)])
  {
  }

  lemma {:induction false} WalkKidsFills(st: State, kids: Kids)
    requires Inside(st) && Closed(st.heap) && WalkKids(st, kids).Some?
    ensures Filled(st, WalkKids(st, kids).value, AddKids(View(st), kids))
    decreases kids
  {
    if kids.Kid? {
      WalkFills(st, kids.node);
      WalkKidsFills(Walk(st, kids.node).value, kids.more);
    }
  }

  lemma {:induction false} GroupFills(st: State, group: Node)
    requires group.Group? && Inside(st) && Closed(st.heap) && Walk(st, group).Some?
    ensures Filled(st, Walk(st, group).value, AddNode(View(st), group))
    decreases group, 0
  {
    var n := |st.heap|;
    var put := Put(st, Ptr(n)).value;
    var entered := Push(st, put, NewContainer(group.dict));
    var left := WalkKids(entered, group.kids).value;
    var st' := Walk(st, group).value;
    PutClosed(st, Ptr(n));
    EmptyView(entered, group.dict);
    WalkKidsFills(entered, group.kids);
    PutAdds(st, Ptr(n), st');
  }

  lemma EmptyView(entered: State, dict: bool)
    requires Inside(entered) && entered.heap[entered.top.value] == NewContainer(dict)
    ensures View(entered) == Held(Empty(dict), entered.key)
  {
    var v := Reify(entered.heap, Ptr(entered.top.value));
    assert if dict then v.VDict? && v.entries == map[] else v.VList? && v.items == [];
  }

  // ---------- main theorem ----------

  // Every accepted text loads as the value of its tree.
  lemma AcceptedLoadsAs(t: seq<Byte>, before: seq<Byte>, node: Node, after: seq<Byte>)
    requires Parts(t, before, node, after)
    ensures var r := Run(START, t); r.Loaded? && Reify(r.heap, r.root) == NodeValue(node)
  {
    PartsLoad(t, before, node, after);
    if node.Group? {
      var root := Root(NewContainer(node.dict));
      EmptyView(root, node.dict);
      WalkKidsFills(root, node.kids);
    }
  }

  // ---------- where the pending key goes ----------

  // The parts that any dict receives, in the order of the text, a container as None.
  function Received(kids: Kids, dict: bool): seq<Option<Atom>> {
    match kids
    case End(_) => []
    case Kid(_, node, more) => NodeReceived(node, dict) + Received(more, dict)
  }

  function NodeReceived(node: Node, dict: bool): seq<Option<Atom>> {
    match node
    case Leaf(text) => if dict then [Some(LeafAtom(text))] else []
    case Group(inner, kids, _) => (if dict then [None] else []) + Received(kids, inner)
  }

  function Odd(n: nat): bool {
    n % 2 == 1
  }

  // Counted through the whole text, every other part is a key.
  predicate KeysAreLeaves(parts: seq<Option<Atom>>, pending: bool) {
    forall i :: 0 <= i < |parts| && Odd(i) == pending ==> parts[i].Some?
  }

  // The key that waits after these parts: the last of them, if it has no value yet.
  function Waiting(key: Option<Atom>, parts: seq<Option<Atom>>): Option<Atom> {
    if parts == [] then key else if Odd(|parts|) != key.Some? then parts[|parts| - 1] else None
  }

  lemma OddSum(m: nat, n: nat)
    ensures Odd(m + n) == (Odd(m) != Odd(n))
  {
  }

  lemma KeysCat(a: seq<Option<Atom>>, b: seq<Option<Atom>>, pending: bool)
    ensures KeysAreLeaves(a + b, pending) <==> KeysAreLeaves(a, pending) && KeysAreLeaves(b, pending != Odd(|a|))
  {
    var s := a + b;
    forall i | 0 <= i < |b| ensures s[|a| + i] == b[i] && Odd(|a| + i) == (Odd(|a|) != Odd(i)) {
      OddSum(|a|, i);
    }
    if KeysAreLeaves(s, pending) {
      forall i | 0 <= i < |a| && Odd(i) == pending ensures a[i].Some? {
        assert s[i] == a[i];
      }
      forall i | 0 <= i < |b| && Odd(i) == (pending != Odd(|a|)) ensures b[i].Some? {
        assert s[|a| + i].Some?;
      }
    }
    if KeysAreLeaves(a, pending) && KeysAreLeaves(b, pending != Odd(|a|)) {
      forall i | 0 <= i < |s| && Odd(i) == pending ensures s[i].Some? {
        if i >= |a| { assert s[|a| + (i - |a|)] == b[i - |a|]; }
      }
    }
  }

  // A container in a dict has to be a value.
  lemma LeadingPart(dict: bool, pending: bool)
    ensures var first: seq<Option<Atom>> := if dict then [None] else [];
      (KeysAreLeaves(first, pending) <==> !dict || pending) && Odd(|first|) == dict
  {
    assert !Odd(0) && Odd(1);
  }

  // A tree goes through exactly when every other part that dicts receive, counted over all of
  // them, is not a container; and a key waits exactly after an odd number.
  lemma {:induction false} KeysAlternate(kids: Kids, dict: bool, pending: bool)
    ensures var f, parts := FlowKids(kids, dict, pending), Received(kids, dict);
      (f.Some? <==> KeysAreLeaves(parts, pending)) && (f.Some? ==> f.value == (pending != Odd(|parts|)))
    decreases kids
  {
    if kids.Kid? {
      var first, f := NodeReceived(kids.node, dict), Flow(kids.node, dict, pending);
      NodeKeysAlternate(kids.node, dict, pending);
      KeysCat(first, Received(kids.more, dict), pending);
      OddSum(|first|, |Received(kids.more, dict)|);
      if f.Some? { KeysAlternate(kids.more, dict, f.value); }
    }
  }

  lemma {:induction false} NodeKeysAlternate(node: Node, dict: bool, pending: bool)
    ensures var f, parts := Flow(node, dict, pending), NodeReceived(node, dict);
      (f.Some? <==> KeysAreLeaves(parts, pending)) && (f.Some? ==> f.value == (pending != Odd(|parts|)))
    decreases node
  {
    if node.Group? {
      var first: seq<Option<Atom>> := if dict then [None] else [];
      KeysAlternate(node.kids, node.dict, !dict && pending);
      LeadingPart(dict, pending);
      KeysCat(first, Received(node.kids, node.dict), pending);
      OddSum(|first|, |Received(node.kids, node.dict)|);
    }
  }

  lemma WaitingCat(key: Option<Atom>, a: seq<Option<Atom>>, b: seq<Option<Atom>>)
    requires KeysAreLeaves(a, key.Some?)
    ensures Waiting(key, a + b) == Waiting(Waiting(key, a), b)
  {
    OddSum(|a|, |b|);
    if a != [] { OddSum(|a| - 1, 1); }
    if b == [] { assert a + b == a; } else { assert (a + b)[|a + b| - 1] == b[|b| - 1]; }
  }

  // Which key waits, in whatever container.
  lemma {:induction false} KeyWaits(h: Held, kids: Kids)
    requires !h.value.VAtom? && KeysAreLeaves(Received(kids, h.value.VDict?), h.key.Some?)
    ensures var h' := AddKids(h, kids);
      h'.key == Waiting(h.key, Received(kids, h.value.VDict?)) && h'.value.VDict? == h.value.VDict? && !h'.value.VAtom?
    decreases kids
  {
    if kids.Kid? {
      var dict := h.value.VDict?;
      var first, rest := NodeReceived(kids.node, dict), Received(kids.more, dict);
      KeysCat(first, rest, h.key.Some?);
      NodeKeyWaits(h, kids.node);
      WaitingSome(h.key, first);
      WaitingCat(h.key, first, rest);
      KeyWaits(AddNode(h, kids.node), kids.more);
    }
  }

  lemma WaitingSome(key: Option<Atom>, parts: seq<Option<Atom>>)
    requires KeysAreLeaves(parts, key.Some?)
    ensures Waiting(key, parts).Some? == (key.Some? != Odd(|parts|))
  {
    if parts != [] { OddSum(|parts| - 1, 1); }
  }

  lemma {:induction false} NodeKeyWaits(h: Held, node: Node)
    requires !h.value.VAtom? && KeysAreLeaves(NodeReceived(node, h.value.VDict?), h.key.Some?)
    ensures var h' := AddNode(h, node);
      && h'.key == Waiting(h.key, NodeReceived(node, h.value.VDict?))
      && h'.value.VDict? == h.value.VDict? && !h'.value.VAtom?
    decreases node
  {
    if node.Group? {
      var dict := h.value.VDict?;
      var first: seq<Option<Atom>> := if dict then [None] else [];
      LeadingPart(dict, h.key.Some?);
      KeysCat(first, Received(node.kids, node.dict), h.key.Some?);
      KeyWaits(Held(Empty(node.dict), if dict then None else h.key), node.kids);
      WaitingCat(h.key, first, Received(node.kids, node.dict));
    }
  }

  // ---------- a dict that takes up the key of another ----------

  function Cat(front: Kids, more: Kids): Kids {
    match front
    case End(sep) => WithSep(sep, more)
    case Kid(sep, node, others) => Kid(sep, node, Cat(others, more))
  }

  function Count(kids: Kids): nat {
    match kids
    case End(_) => 0
    case Kid(_, _, more) => 1 + Count(more)
  }

  lemma {:induction false} AddCat(h: Held, front: Kids, more: Kids)
    ensures AddKids(h, Cat(front, more)) == AddKids(AddKids(h, front), more)
    decreases front
  {
    if front.Kid? { AddCat(AddNode(h, front.node), front.more, more); }
  }

  lemma {:induction false} ReceivedCat(front: Kids, more: Kids, dict: bool)
    ensures Received(Cat(front, more), dict) == Received(front, dict) + Received(more, dict)
    decreases front
  {
    if front.Kid? {
      ReceivedCat(front.more, more, dict);
      Regroup(NodeReceived(front.node, dict), Received(front.more, dict), Received(more, dict));
    }
  }

  lemma {:induction false} ListGrows(h: Held, kids: Kids)
    requires h.value.VList?
    ensures var v := AddKids(h, kids).value;
      v.VList? && h.value.items <= v.items && |v.items| == |h.value.items| + Count(kids)
    decreases kids
  {
    if kids.Kid? { ListGrows(AddNode(h, kids.node), kids.more); }
  }

  // A dict in a list begins with the key that waits when it opens: a key that another dict has
  // left, exactly if dicts have received an odd number of parts in front of it.
  lemma DictBegins(h: Held, front: Kids, dict: Node, more: Kids)
    requires h.value.VList? && dict.Group? && dict.dict
    requires KeysAreLeaves(Received(Cat(front, Kid([], dict, more)), false), h.key.Some?)
    ensures var key, n := Waiting(h.key, Received(front, false)), |h.value.items| + Count(front);
      && (key.Some? <==> h.key.Some? != Odd(|Received(front, false)|))
      && var v := AddKids(h, Cat(front, Kid([], dict, more))).value;
         v.VList? && n < |v.items| && v.items[n] == AddKids(Held(VDict(map[]), key), dict.kids).value
  {
    var before := AddKids(h, front);
    ReceivedCat(front, Kid([], dict, more), false);
    KeysCat(Received(front, false), Received(Kid([], dict, more), false), h.key.Some?);
    AddCat(h, front, Kid([], dict, more));
    KeyWaits(h, front);
    WaitingSome(h.key, Received(front, false));
    ListGrows(h, front);
    ListGrows(AddNode(before, dict), more);
  }

  function DictOfOne(text: seq<Byte>): Node {
    Group(true, Kid([], Leaf(text), End([])), [0x7D])
  }

  lemma OneLeaf(h: Held, text: seq<Byte>)
    ensures var one := Kid([], Leaf(text), End([]));
      && AddKids(h, one) == Add(h, VAtom(LeafAtom(text))) && KidsText(one) == text
      && Received(one, true) == [Some(LeafAtom(text))]
  {
    var end := End([]);
    assert KidsText(end) == [] && Received(end, true) == [] && AddKids(Add(h, VAtom(LeafAtom(text))), end)
      == Add(h, VAtom(LeafAtom(text)));
    assert [] + (text + []) == text && [Some(LeafAtom(text))] + [] == [Some(LeafAtom(text))];
    assert AddNode(h, Leaf(text)) == Add(h, VAtom(LeafAtom(text)));
    assert NodeReceived(Leaf(text), true) == [Some(LeafAtom(text))];
  }

  lemma DictOfOneAdds(h: Held, text: seq<Byte>)
    requires h.value.VList?
    ensures var inner := Add(Held(VDict(map[]), h.key), VAtom(LeafAtom(text)));
      AddNode(h, DictOfOne(text)) == Held(VList(h.value.items + [inner.value]), inner.key)
    ensures NodeReceived(DictOfOne(text), false) == [Some(LeafAtom(text))]
    ensures NodeText(DictOfOne(text)) == [0x7B] + (text + [0x7D])
  {
    OneLeaf(Held(VDict(map[]), h.key), text);
    assert [] + [Some(LeafAtom(text))] == [Some(LeafAtom(text))];
  }

  lemma DictOfOneOk(text: seq<Byte>, rest: seq<Byte>)
    requires LeafOk(text, [])
    ensures NodeOk(DictOfOne(text), rest)
  {
    assert KidsText(End([])) + ([0x7D] + rest) == [0x7D] + rest;
  }

  function TwoDicts(k: seq<Byte>, v: seq<Byte>): Node {
    Group(false, Kid([], DictOfOne(k), Kid([], DictOfOne(v), End([]))), [0x5D])
  }

  lemma TwoDictsText(k: seq<Byte>, v: seq<Byte>)
    ensures [0x5B, 0x7B] + k + [0x7D, 0x7B] + v + [0x7D, 0x5D] == NodeText(TwoDicts(k, v))
    ensures KidsText(Kid([], DictOfOne(v), End([]))) == [0x7B] + (v + [0x7D])
  {
    var h := Held(VList([]), None);
    DictOfOneAdds(h, k);
    DictOfOneAdds(h, v);
    var a, b := NodeText(DictOfOne(k)), NodeText(DictOfOne(v));
    var second := Kid([], DictOfOne(v), End([]));
    assert KidsText(End([])) == [] && b + [] == b && [] + b == b && [] + (a + b) == a + b;
    assert KidsText(second) == b;
    assert KidsText(TwoDicts(k, v).kids) == a + b;
    Brackets(k, v);
  }

  lemma Brackets(k: seq<Byte>, v: seq<Byte>)
    ensures [0x5B, 0x7B] + k + [0x7D, 0x7B] + v + [0x7D, 0x5D]
         == [0x5B] + ((([0x7B] + (k + [0x7D])) + ([0x7B] + (v + [0x7D]))) + [0x5D])
  {
  }

  lemma TwoDictsOk(k: seq<Byte>, v: seq<Byte>)
    requires LeafOk(k, []) && LeafOk(v, [])
    ensures NodeOk(TwoDicts(k, v), [])
  {
    var second := Kid([], DictOfOne(v), End([]));
    DictOfOneOk(v, KidsText(End([])) + ([0x5D] + []));
    assert KidsOk(End([]), [0x5D] + []);
    assert KidsOk(second, [0x5D] + []);
    DictOfOneOk(k, KidsText(second) + ([0x5D] + []));
    assert KidsOk(TwoDicts(k, v).kids, [0x5D] + []);
  }

  lemma TwoDictsValue(k: seq<Byte>, v: seq<Byte>)
    ensures NodeValue(TwoDicts(k, v)) == VList([VDict(map[]), VDict(map[LeafAtom(k) := VAtom(LeafAtom(v))])])
    ensures FlowKids(TwoDicts(k, v).kids, false, false).Some?
  {
    var h, end := Held(VList([]), None), End([]);
    var second := Kid([], DictOfOne(v), end);
    DictOfOneAdds(h, k);
    var h1 := AddNode(h, DictOfOne(k));
    assert h.value.items + [VDict(map[])] == [VDict(map[])];
    DictOfOneAdds(h1, v);
    var h2 := AddNode(h1, DictOfOne(v));
    assert AddKids(h2, end) == h2;
    assert AddKids(h1, second) == h2;
    assert AddKids(h, TwoDicts(k, v).kids) == h2;
    assert Received(end, false) == [];
    assert Received(second, false) == [Some(LeafAtom(v))] + [];
    assert Received(TwoDicts(k, v).kids, false) == [Some(LeafAtom(k))] + Received(second, false);
    KeysAlternate(TwoDicts(k, v).kids, false, false);
  }

  // For any two leaves k and v, [{k}{v}] loads as a list of an empty dict and of {k: v}.
  lemma KeyTakenUp(k: seq<Byte>, v: seq<Byte>)
    requires LeafOk(k, []) && LeafOk(v, [])
    ensures var r := Run(START, [0x5B, 0x7B] + k + [0x7D, 0x7B] + v + [0x7D, 0x5D]);
      r.Loaded? && Reify(r.heap, r.root) == VList([VDict(map[]), VDict(map[LeafAtom(k) := VAtom(LeafAtom(v))])])
  {
    var t := NodeText(TwoDicts(k, v));
    TwoDictsText(k, v);
    TwoDictsOk(k, v);
    TwoDictsValue(k, v);
    assert t == [] + (t + []);
    EndSeen([]);
    assert Parts(t, [], TwoDicts(k, v), []);
    AcceptedLoadsAs(t, [], TwoDicts(k, v), []);
  }

  // ---------- no key crosses a bracket if every dict holds pairs ----------

  predicate Paired(node: Node) {
    node.Group? ==> if node.dict then PairedMembers(node.kids) else PairedItems(node.kids)
  }

  predicate PairedItems(kids: Kids) {
    kids.Kid? ==> Paired(kids.node) && PairedItems(kids.more)
  }

  predicate PairedMembers(kids: Kids) {
    kids.Kid? ==> kids.node.Leaf? && kids.more.Kid? && Paired(kids.more.node) && PairedMembers(kids.more.more)
  }

  // Each container by itself.
  function PairedValue(node: Node): Value
    requires Paired(node)
  {
    match node
    case Leaf(text) => VAtom(LeafAtom(text))
    case Group(dict, kids, _) => if dict then VDict(MembersValue(kids, map[])) else VList(ItemsValue(kids))
  }

  function ItemsValue(kids: Kids): seq<Value>
    requires PairedItems(kids)
  {
    match kids
    case End(_) => []
    case Kid(_, node, more) => [PairedValue(node)] + ItemsValue(more)
  }

  function MembersValue(kids: Kids, entries: map<Atom, Value>): map<Atom, Value>
    requires PairedMembers(kids)
  {
    match kids
    case End(_) => entries
    case Kid(_, key, value) => MembersValue(value.more, entries[LeafAtom(key.text) := PairedValue(value.node)])
  }

  lemma {:induction false} PairedNode(node: Node)
    requires Paired(node)
    ensures NodeValue(node) == PairedValue(node)
    ensures node.Group? ==> AddKids(Held(Empty(node.dict), None), node.kids).key == None
    decreases node
  {
    if node.Group? {
      if node.dict { PairsAdd(map[], node.kids); } else {
        ItemsAdd([], node.kids);
        assert [] + ItemsValue(node.kids) == ItemsValue(node.kids);
      }
    }
  }

  lemma {:induction false} ItemsAdd(items: seq<Value>, kids: Kids)
    requires PairedItems(kids)
    ensures AddKids(Held(VList(items), None), kids) == Held(VList(items + ItemsValue(kids)), None)
    decreases kids
  {
    match kids {
      case End(_) => assert items + [] == items;
      case Kid(_, node, more) =>
        PairedNode(node);
        ItemsAdd(items + [PairedValue(node)], more);
        Regroup(items, [PairedValue(node)], ItemsValue(more));
    }
  }

  lemma PairAdds(entries: map<Atom, Value>, key: Atom, value: Node)
    requires Paired(value) && NodeValue(value) == PairedValue(value)
    requires value.Group? ==> AddKids(Held(Empty(value.dict), None), value.kids).key == None
    ensures AddNode(Held(VDict(entries), Some(key)), value) == Held(VDict(entries[key := PairedValue(value)]), None)
  {
  }

  lemma {:induction false} PairsAdd(entries: map<Atom, Value>, kids: Kids)
    requires PairedMembers(kids)
    ensures AddKids(Held(VDict(entries), None), kids) == Held(VDict(MembersValue(kids, entries)), None)
    decreases kids
  {
    if kids.Kid? {
      var h, key, value := Held(VDict(entries), None), LeafAtom(kids.node.text), kids.more.node;
      PairedNode(value);
      var keyed := AddNode(h, kids.node);
      assert keyed == Held(VDict(entries), Some(key));
      PairAdds(entries, key, value);
      assert AddKids(h, kids) == AddKids(keyed, kids.more);
      PairsAdd(entries[key := PairedValue(value)], kids.more.more);
    }
  }
}
