// Exactly which texts the loader accepts, and which of those are JSON.

module JsonAccept {
  import opened JsonText
  import opened JsonLoader
  import opened JsonTheorem
  import opened JsonLenient
  import opened Seqs

  // ---------- the parser is the grammar ----------

  lemma WithSepText(sep: seq<Byte>, kids: Kids, rest: seq<Byte>)
    ensures KidsText(WithSep(sep, kids)) + rest == sep + (KidsText(kids) + rest)
    ensures AllSkipped(sep) && KidsOk(kids, rest) ==> KidsOk(WithSep(sep, kids), rest)
  {
    Regroup(sep, KidsText(kids), rest);
    if kids.Kid? { Regroup(sep, kids.sep, NodeText(kids.node) + KidsText(kids.more)); }
  }

  lemma KidText(node: Node, more: Kids, rest: seq<Byte>)
    ensures KidsText(Kid([], node, more)) + rest == NodeText(node) + (KidsText(more) + rest)
  {
    Regroup(NodeText(node), KidsText(more), rest);
    assert [] + (NodeText(node) + KidsText(more)) == NodeText(node) + KidsText(more);
  }

  lemma GroupText(dict: bool, kids: Kids, close: seq<Byte>, rest: seq<Byte>)
    ensures NodeText(Group(dict, kids, close)) + rest == [OpenByte(dict)] + (KidsText(kids) + (close + rest))
  {
    Regroup(KidsText(kids), close, rest);
    Regroup([OpenByte(dict)], KidsText(kids) + close, rest);
  }

  // Whatever is parsed is spelled by the grammar.
  lemma {:induction false} ParseSound(r: seq<Byte>)
    requires ParseKids(r).Parsed?
    ensures var p := ParseKids(r); r == KidsText(p.kids) + p.rest && KidsOk(p.kids, p.rest)
    decreases |r|
  {
    if Cur(r) != 0 {
      var (token, rest) := ReadToken(r);
      match token {
        case Close =>
        case Skip =>
          ParseSound(rest);
          SkipSound(r[0], rest);
          SplitFirst(r);
        case Atomic(_) =>
          ParseSound(rest);
          LeafSpelled(r);
          LeafSound(r[..|r| - |rest|], rest);
        case Open(container) =>
          GroupSound(r, rest, container);
      }
    }
  }

  lemma SkipSound(b: Byte, rest: seq<Byte>)
    requires IsSkipped(b) && ParseKids(rest).Parsed?
    requires var p := ParseKids(rest); rest == KidsText(p.kids) + p.rest && KidsOk(p.kids, p.rest)
    ensures var p := ParseKids(rest); var kids := WithSep([b], p.kids);
      [b] + rest == KidsText(kids) + p.rest && KidsOk(kids, p.rest)
  {
    WithSepText([b], ParseKids(rest).kids, ParseKids(rest).rest);
  }

  lemma LeafSound(text: seq<Byte>, rest: seq<Byte>)
    requires LeafOk(text, rest) && ParseKids(rest).Parsed?
    requires var p := ParseKids(rest); rest == KidsText(p.kids) + p.rest && KidsOk(p.kids, p.rest)
    ensures var p := ParseKids(rest); var kids := Kid([], Leaf(text), p.kids);
      text + rest == KidsText(kids) + p.rest && KidsOk(kids, p.rest)
  {
    KidText(Leaf(text), ParseKids(rest).kids, ParseKids(rest).rest);
  }

  lemma {:induction false} GroupSound(r: seq<Byte>, rest: seq<Byte>, container: Obj)
    requires ParseKids(r).Parsed? && Cur(r) != 0 && ReadToken(r) == (Open(container), rest)
    ensures var p := ParseKids(r); r == KidsText(p.kids) + p.rest && KidsOk(p.kids, p.rest)
    decreases |r|, 0
  {
    GroupFactors(r, rest, container);
    var inner := ParseKids(rest);
    ParseSound(rest);
    ParseSound(inner.rest[1..]);
    SplitFirst(r);
    SplitFirst(inner.rest);
    var p := ParseKids(inner.rest[1..]);
    GroupSpelled(Group(container.ODict?, inner.kids, [inner.rest[0]]), inner.rest[1..], p.kids, p.rest);
  }

  lemma SplitFirst(r: seq<Byte>)
    requires r != []
    ensures r == [r[0]] + r[1..]
  {
  }

  // A group is parsed exactly when its inside is, up to a bracket, and what follows it is.
  lemma GroupFactors(r: seq<Byte>, rest: seq<Byte>, container: Obj)
    requires Cur(r) != 0 && ReadToken(r) == (Open(container), rest)
    ensures rest == r[1..] && r[0] == OpenByte(container.ODict?)
    ensures var inner := ParseKids(rest);
      if inner.Refused? || Cur(inner.rest) == 0 then ParseKids(r).Refused?
      else
        && (inner.rest[0] == 0x5D || inner.rest[0] == 0x7D) && |inner.rest[1..]| < |r|
        && var p := ParseKids(inner.rest[1..]);
           ParseKids(r) == if p.Refused? then Refused
               else Parsed(Kid([], Group(container.ODict?, inner.kids, [inner.rest[0]]), p.kids), p.rest)
  {
  }

  lemma GroupSpelled(group: Node, tail: seq<Byte>, more: Kids, rest: seq<Byte>)
    requires group.Group? && (group.close == [0x5D] || group.close == [0x7D]) && KidsOk(group.kids, group.close + tail)
    requires tail == KidsText(more) + rest && KidsOk(more, rest)
    ensures [OpenByte(group.dict)] + (KidsText(group.kids) + (group.close + tail))
        == KidsText(Kid([], group, more)) + rest
    ensures KidsOk(Kid([], group, more), rest)
  {
    GroupText(group.dict, group.kids, group.close, tail);
    KidText(group, more, rest);
  }

  lemma {:induction false} SkipsParsed(sep: seq<Byte>, r: seq<Byte>)
    requires AllSkipped(sep) && ParseKids(r).Parsed?
    ensures ParseKids(sep + r) == Parsed(WithSep(sep, ParseKids(r).kids), ParseKids(r).rest)
    decreases sep
  {
    var p := ParseKids(r);
    if sep == [] {
      assert sep + r == r && [] + p.kids.sep == p.kids.sep;
    } else {
      SkipsParsed(sep[1..], r);
      SkipParsed(sep[0], sep[1..] + r);
      SplitFirst(sep);
      Regroup([sep[0]], sep[1..], r);
      Regroup([sep[0]], sep[1..], p.kids.sep);
    }
  }

  lemma SkipParsed(b: Byte, r: seq<Byte>)
    requires IsSkipped(b) && ParseKids(r).Parsed?
    ensures ParseKids([b] + r) == Parsed(WithSep([b], ParseKids(r).kids), ParseKids(r).rest)
  {
    assert ([b] + r)[1..] == r;
  }

  // The grammar is unambiguous: the parser finds the very tree a text was spelled from.
  lemma {:induction false} ParseComplete(kids: Kids, rest: seq<Byte>)
    requires KidsOk(kids, rest) && Stops(rest)
    ensures ParseKids(KidsText(kids) + rest) == Parsed(kids, rest)
    decreases kids
  {
    match kids {
      case End(sep) =>
        assert ParseKids(rest) == Parsed(End([]), rest);
        SkipsParsed(sep, rest);
        assert sep + [] == sep;
      case Kid(sep, node, more) =>
        var tail := KidsText(more) + rest;
        ParseComplete(more, rest);
        NodeParsed(node, more, rest);
        SkipsParsed(sep, NodeText(node) + tail);
        Regroup(sep, NodeText(node) + KidsText(more), rest);
        Regroup(NodeText(node), KidsText(more), rest);
        assert sep + [] == sep;
    }
  }

  lemma {:induction false} NodeParsed(node: Node, more: Kids, rest: seq<Byte>)
    requires NodeOk(node, KidsText(more) + rest) && ParseKids(KidsText(more) + rest) == Parsed(more, rest)
    ensures ParseKids(NodeText(node) + (KidsText(more) + rest)) == Parsed(Kid([], node, more), rest)
    decreases node, 0
  {
    var tail := KidsText(more) + rest;
    match node {
      case Leaf(text) =>
        LeafReads(text, tail);
        LeafParsed(text, tail);
      case Group(dict, kids, close) =>
        ParseComplete(kids, close + tail);
        GroupParsed(node, tail);
    }
  }

  lemma LeafParsed(text: seq<Byte>, tail: seq<Byte>)
    requires Cur(text + tail) != 0 && ReadToken(text + tail).0.Atomic? && ReadToken(text + tail).1 == tail
    requires ParseKids(tail).Parsed?
    ensures ParseKids(text + tail) == Parsed(Kid([], Leaf(text), ParseKids(tail).kids), ParseKids(tail).rest)
  {
    assert (text + tail)[..|text|] == text;
  }

  lemma GroupParsed(group: Node, tail: seq<Byte>)
    requires group.Group? && (group.close == [0x5D] || group.close == [0x7D]) && ParseKids(tail).Parsed?
    requires ParseKids(KidsText(group.kids) + (group.close + tail)) == Parsed(group.kids, group.close + tail)
    ensures ParseKids(NodeText(group) + tail) == Parsed(Kid([], group, ParseKids(tail).kids), ParseKids(tail).rest)
  {
    var inside := KidsText(group.kids) + (group.close + tail);
    GroupText(group.dict, group.kids, group.close, tail);
    OpenToken(group.dict, inside);
    GroupFactors([OpenByte(group.dict)] + inside, inside, if group.dict then ODict(map[]) else OList([]));
    CloseSplit(group.close, tail);
  }

  lemma CloseSplit(close: seq<Byte>, tail: seq<Byte>)
    requires |close| == 1
    ensures close + tail != [] && (close + tail)[1..] == tail && [(close + tail)[0]] == close
  {
  }

  lemma OpenToken(dict: bool, inside: seq<Byte>)
    ensures ReadToken([OpenByte(dict)] + inside) == (Open(if dict then ODict(map[]) else OList([])), inside)
  {
    assert ([OpenByte(dict)] + inside)[1..] == inside;
  }

  // ---------- what a tree does to the loader's state ----------

  function NewContainer(dict: bool): Obj {
    if dict then ODict(map[]) else OList([])
  }

  // The state after a node has been put into the open container, or None where the loader fails.
  function Walk(st: State, node: Node): (r: Option<State>)
    requires st.top.Some?
    ensures r.Some? ==> r.value.stack == st.stack && r.value.top == st.top
    decreases node
  {
    match node
    case Leaf(text) => Put(st, Prim(LeafAtom(text)))
    case Group(dict, kids, _) =>
      var put := Put(st, Ptr(|st.heap|));
      if put.None? then None
      else
        match WalkKids(Push(st, put.value, NewContainer(dict)), kids)
        case None => None
        case Some(left) => Some(State(left.heap, st.stack, st.top, left.key))
  }

  function WalkKids(st: State, kids: Kids): (r: Option<State>)
    requires st.top.Some?
    ensures r.Some? ==> r.value.stack == st.stack && r.value.top == st.top
    decreases kids
  {
    match kids
    case End(_) => Some(st)
    case Kid(_, node, more) =>
      match Walk(st, node)
      case None => None
      case Some(st') => WalkKids(st', more)
  }

  // ---------- the loader is the parser ----------

  // What is read and what is done is what the parser parses and what the tree says; the loop
  // fails where either does.
  predicate RunsAsParsed(st: State, r: seq<Byte>)
    requires st.top.Some?
  {
    var p := ParseKids(r);
    Run(st, r) == if p.Parsed? then RunOn(WalkKids(st, p.kids), p.rest) else SyntaxError
  }

  function RunOn(w: Option<State>, rest: seq<Byte>): Result {
    if w.None? then SyntaxError else Run(w.value, rest)
  }

  // From inside any container the loop with its stack is the recursive parser.
  lemma {:induction false} RunParses(st: State, r: seq<Byte>)
    requires st.top.Some?
    ensures RunsAsParsed(st, r)
    decreases |r|
  {
    if Cur(r) != 0 {
      var (token, rest) := ReadToken(r);
      match token {
        case Bad =>
        case Close =>
        case Skip =>
          RunParses(st, rest);
        case Atomic(a) =>
          LeafSpelled(r);
          LeafReads(r[..|r| - |rest|], rest);
          var put := Put(st, Prim(a));
          if put.Some? { RunParses(put.value, rest); }
        case Open(container) =>
          if Put(st, Ptr(|st.heap|)).Some? { RunGroup(st, r, rest, container); }
      }
    }
  }

  lemma {:induction false} RunGroup(st: State, r: seq<Byte>, rest: seq<Byte>, container: Obj)
    requires st.top.Some? && Put(st, Ptr(|st.heap|)).Some?
    requires Cur(r) != 0 && ReadToken(r) == (Open(container), rest)
    ensures RunsAsParsed(st, r)
    decreases |r|, 0
  {
    var entered := Push(st, Put(st, Ptr(|st.heap|)).value, container);
    var inner := ParseKids(rest);
    GroupFactors(r, rest, container);
    OpenTokenRuns(st, r, rest, container);
    EmptyContainer(r, container);
    RunParses(entered, rest);
    if inner.Parsed? && Cur(inner.rest) != 0 {
      var group := Group(container.ODict?, inner.kids, [inner.rest[0]]);
      SplitFirst(inner.rest);
      GroupRuns(st, entered, group, inner.rest[1..]);
      var w := Walk(st, group);
      if w.Some? { RunParses(w.value, inner.rest[1..]); }
    }
  }

  lemma EmptyContainer(r: seq<Byte>, container: Obj)
    requires r != [] && ReadToken(r).0 == Open(container)
    ensures container == NewContainer(container.ODict?)
  {
  }

  lemma OpenTokenRuns(st: State, r: seq<Byte>, rest: seq<Byte>, container: Obj)
    requires Cur(r) != 0 && ReadToken(r) == (Open(container), rest)
    requires st.top.Some? && Put(st, Ptr(|st.heap|)).Some?
    ensures Run(st, r) == Run(Push(st, Put(st, Ptr(|st.heap|)).value, container), rest)
  {
  }

  // A group that is closed is one node more in the container around it.
  lemma GroupRuns(st: State, entered: State, group: Node, tail: seq<Byte>)
    requires st.top.Some? && Put(st, Ptr(|st.heap|)).Some?
    requires group.Group? && (group.close == [0x5D] || group.close == [0x7D])
    requires entered == Push(st, Put(st, Ptr(|st.heap|)).value, NewContainer(group.dict))
    ensures RunOn(WalkKids(entered, group.kids), group.close + tail) == RunOn(Walk(st, group), tail)
  {
    WalkGroup(st, group);
    var w := WalkKids(entered, group.kids);
    if w.Some? { CloseRuns(w.value, group.close[0], tail); }
  }

  lemma WalkGroup(st: State, group: Node)
    requires st.top.Some? && group.Group? && Put(st, Ptr(|st.heap|)).Some?
    ensures var entered := Push(st, Put(st, Ptr(|st.heap|)).value, NewContainer(group.dict));
      var w := WalkKids(entered, group.kids);
      Walk(st, group) == if w.None? then None else Some(Pop(w.value))
  {
    PopPush(st.stack, st.top.value);
  }

  // ---------- when a tree goes through ----------

  predicate Inside(st: State) {
    st.top.Some? && st.top.value < |st.heap|
  }

  predicate InDict(st: State)
    requires Inside(st)
  {
    st.heap[st.top.value].ODict?
  }

  predicate SameKinds(h: seq<Obj>, h': seq<Obj>) {
    |h| <= |h'| && forall i :: 0 <= i < |h| ==> h'[i].ODict? == h[i].ODict?
  }

  // The loader fails exactly where the grammar refuses a key, and a key waits afterwards
  // exactly when the grammar says so.
  lemma {:induction false} WalkFlows(st: State, node: Node)
    requires Inside(st)
    ensures var w, f := Walk(st, node), Flow(node, InDict(st), st.key.Some?);
      w.Some? == f.Some? && (w.Some? ==> SameKinds(st.heap, w.value.heap) && w.value.key.Some? == f.value)
    decreases node
  {
    var put := Put(st, Ptr(|st.heap|));
    if node.Group? && put.Some? {
      WalkKidsFlows(Push(st, put.value, NewContainer(node.dict)), node.kids);
    }
  }

  lemma {:induction false} WalkKidsFlows(st: State, kids: Kids)
    requires Inside(st)
    ensures var w, f := WalkKids(st, kids), FlowKids(kids, InDict(st), st.key.Some?);
      w.Some? == f.Some? && (w.Some? ==> SameKinds(st.heap, w.value.heap) && w.value.key.Some? == f.value)
    decreases kids
  {
    if kids.Kid? {
      WalkFlows(st, kids.node);
      if Walk(st, kids.node).Some? { WalkKidsFlows(Walk(st, kids.node).value, kids.more); }
    }
  }

  // ---------- which texts load ----------

  // The loader accepts exactly the lenient texts.
  lemma LoadsIff(t: seq<Byte>)
    ensures Run(START, t).Loaded? <==> Lenient(t)
  {
    if Run(START, t).Loaded? {
      var before, node, after := LoadedParts(t);
    } else if Lenient(t) {
      var before, node, after :| Parts(t, before, node, after);
      PartsLoad(t, before, node, after);
    }
  }

  lemma {:induction false} LoadedParts(t: seq<Byte>) returns (before: seq<Byte>, node: Node, after: seq<Byte>)
    requires Run(START, t).Loaded?
    ensures Parts(t, before, node, after)
    decreases |t|
  {
    var (token, rest) := ReadToken(t);
    match token {
      case Skip =>
        before, node, after := LoadedParts(rest);
        SplitFirst(t);
        Regroup([t[0]], before, NodeText(node) + after);
        before := [t[0]] + before;
      case Atomic(_) =>
        LeafSpelled(t);
        EndSeen(rest);
        before, node, after := [], Leaf(t[..|t| - |rest|]), rest;
        assert [] + t == t;
      case Open(container) =>
        before := [];
        node, after := LoadedGroup(t, rest, container);
        assert [] + t == t;
    }
  }

  function Root(container: Obj): State {
    State([container], [], Some(0), None)
  }

  lemma LoadedGroup(t: seq<Byte>, rest: seq<Byte>, container: Obj) returns (node: Node, after: seq<Byte>)
    requires Run(START, t).Loaded? && Cur(t) != 0 && ReadToken(t) == (Open(container), rest)
    ensures node.Group? && Parts(t, [], node, after) && t == NodeText(node) + after
  {
    RootOpens(t, rest);
    RunParses(Root(container), rest);
    ParseSound(rest);
    var p := ParseKids(rest);
    WalkKidsFlows(Root(container), p.kids);
    SplitFirst(t);
    if Cur(p.rest) == 0 {
      node, after := Group(container.ODict?, p.kids, []), p.rest;
      assert [] + after == after;
    } else {
      SplitFirst(p.rest);
      CloseToken(p.rest[0], p.rest[1..]);
      EndSeen(p.rest[1..]);
      node, after := Group(container.ODict?, p.kids, [p.rest[0]]), p.rest[1..];
    }
    GroupText(node.dict, node.kids, node.close, after);
    assert [] + t == t;
  }

  lemma PartsLoad(t: seq<Byte>, before: seq<Byte>, node: Node, after: seq<Byte>)
    requires Parts(t, before, node, after)
    ensures Run(START, t) == Made(node) && Made(node).Loaded?
  {
    RunSkips(before, START, NodeText(node) + after);
    EndSeen(after);
    match node {
      case Leaf(text) => LeafReads(text, after);
      case Group(dict, kids, close) => GroupLoads(node, after);
    }
  }

  // What the loader leaves for a tree.
  function Made(node: Node): Result {
    match node
    case Leaf(text) => Loaded([], Prim(LeafAtom(text)))
    case Group(dict, kids, _) =>
      match WalkKids(Root(NewContainer(dict)), kids)
      case None => SyntaxError
      case Some(st) => Loaded(st.heap, Ptr(0))
  }

  lemma GroupLoads(node: Node, after: seq<Byte>)
    requires node.Group? && FlowKids(node.kids, node.dict, false).Some?
    requires if node.close == [] then KidsOk(node.kids, after) && Cur(after) == 0
             else NodeOk(node, after) && TextEnds(after)
    ensures Run(START, NodeText(node) + after) == Made(node) && Made(node).Loaded?
  {
    var container := NewContainer(node.dict);
    var end := node.close + after;
    EndSeen(after);
    var inside := KidsText(node.kids) + end;
    GroupText(node.dict, node.kids, node.close, after);
    OpenToken(node.dict, inside);
    RootOpens(NodeText(node) + after, inside);
    assert node.close == [] ==> end == after;
    ParseComplete(node.kids, end);
    RunParses(Root(container), inside);
    WalkKidsFlows(Root(container), node.kids);
    if node.close != [] { CloseToken(node.close[0], after); }
  }
}
