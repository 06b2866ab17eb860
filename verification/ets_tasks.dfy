// esp8266/ets_alt_task.c: task event rings, posting, and the dispatch loop.

// One ring. i_put == -1 marks it full, so that equal indices can mean empty.
module EtsRing {

  datatype Event = Event(sig: nat, par: nat)

  // struct task_entry, with the memory its queue points to
  datatype Entry = Entry(queue: seq<Event>, qlen: nat, iGet: int, iPut: int)

  const UNUSED := Entry([], 0, 0, 0)

  // The value of an incremented int8_t.
  function Int8(x: int): int {
    if x > 127 then x - 256 else x
  }

  predicate Ring(e: Entry) {
    1 <= e.qlen <= 127 && |e.queue| == e.qlen && 0 <= e.iGet < e.qlen && -1 <= e.iPut < e.qlen
  }

  predicate Valid(e: Entry) {
    e == UNUSED || Ring(e)
  }

  type Task = e: Entry | Valid(e) witness UNUSED

  function Wrap(i: nat, n: nat): nat {
    if i >= n then i - n else i
  }

  function Count(e: Task): (n: nat)
    ensures n <= e.qlen
    ensures n == 0 <==> e.iGet == e.iPut
    ensures n == e.qlen && n > 0 <==> e.iPut == -1
  {
    if e.iPut == -1 then e.qlen else if e.iPut >= e.iGet then e.iPut - e.iGet else e.iPut - e.iGet + e.qlen
  }

  // n events from slot i on, around the ring.
  function Around(queue: seq<Event>, i: nat, n: nat): (r: seq<Event>)
    requires i < |queue| && n <= |queue|
    ensures |r| == n
    decreases n
  {
    if n == 0 then [] else Around(queue, i, n - 1) + [queue[Wrap(i + n - 1, |queue|)]]
  }

  lemma {:induction false} AroundAt(queue: seq<Event>, i: nat, n: nat, k: nat)
    requires i < |queue| && k < n <= |queue|
    ensures Around(queue, i, n)[k] == queue[Wrap(i + k, |queue|)]
    decreases n
  {
    if k < n - 1 { AroundAt(queue, i, n - 1, k); }
  }

  // The events waiting, oldest first.
  function Pending(e: Task): (r: seq<Event>)
    ensures |r| == Count(e)
  {
    if e == UNUSED then [] else Around(e.queue, e.iGet, Count(e))
  }

  // ets_post on one entry; the flag says the queue was full.
  function Post(e: Entry, ev: Event): (Entry, bool)
    requires e.iPut == -1 || 0 <= e.iPut < |e.queue|
  {
    if e.iPut == -1 then (e, true)
    else
      var next := Int8(e.iPut + 1);
      var put := if next == e.qlen then 0 else next;
      (e.(queue := e.queue[e.iPut := ev], iPut := if put == e.iGet then -1 else put), false)
  }

  // The dispatch of one entry that is not empty: the slot handed to the task, and the entry.
  function TakeOne(e: Entry): (Event, Entry)
    requires 0 <= e.iGet < |e.queue|
  {
    var put := if e.iPut == -1 then e.iGet else e.iPut;
    var next := Int8(e.iGet + 1);
    (e.queue[e.iGet], e.(iPut := put, iGet := if next == e.qlen then 0 else next))
  }

  // A post appends, or is refused exactly when the ring is full and then changes nothing.
  lemma PostAppends(e: Task, ev: Event)
    requires Ring(e)
    ensures var (f, full) := Post(e, ev);
      && Ring(f) && f.qlen == e.qlen
      && (full <==> |Pending(e)| == e.qlen) && (full ==> f == e)
      && (!full ==> Pending(f) == Pending(e) + [ev])
  {
    var (f, full) := Post(e, ev);
    if !full {
      assert Ring(f) && Count(f) == Count(e) + 1 && e.iPut == Wrap(e.iGet + Count(e), e.qlen);
      AroundPut(e.queue, e.iGet, Count(e), ev);
    }
  }

  lemma AroundPut(queue: seq<Event>, i: nat, n: nat, ev: Event)
    requires i < |queue| && n < |queue|
    ensures Around(queue[Wrap(i + n, |queue|) := ev], i, n + 1) == Around(queue, i, n) + [ev]
  {
    var after := queue[Wrap(i + n, |queue|) := ev];
    var p, q := Around(after, i, n + 1), Around(queue, i, n) + [ev];
    forall k | 0 <= k <= n ensures p[k] == q[k] {
      AroundAt(after, i, n + 1, k);
      if k < n { AroundAt(queue, i, n, k); }
    }
  }

  // The dispatch takes the oldest event and leaves the others.
  lemma TakesOldest(e: Task)
    requires e.iGet != e.iPut
    ensures var (ev, f) := TakeOne(e); Ring(f) && f.qlen == e.qlen && Pending(e) == [ev] + Pending(f)
  {
    var (ev, f) := TakeOne(e);
    assert Ring(f) && Count(f) == Count(e) - 1 && f.iGet == Wrap(e.iGet + 1, e.qlen);
    AroundTake(e.queue, e.iGet, Count(e));
  }

  lemma AroundTake(queue: seq<Event>, i: nat, n: nat)
    requires i < |queue| && 0 < n <= |queue|
    ensures Around(queue, i, n) == [queue[i]] + Around(queue, Wrap(i + 1, |queue|), n - 1)
  {
    var p, q := Around(queue, i, n), [queue[i]] + Around(queue, Wrap(i + 1, |queue|), n - 1);
    forall k | 0 <= k < n ensures p[k] == q[k] {
      AroundAt(queue, i, n, k);
      if k > 0 { AroundAt(queue, Wrap(i + 1, |queue|), n - 1, k - 1); }
    }
  }

  // A ring of any length a uint8_t can give, with indices an int8_t can hold, inside it.
  predicate Slots(e: Entry, len: nat) {
    && e.qlen == len == |e.queue|
    && 0 <= e.iGet < len && e.iGet <= 127
    && -1 <= e.iPut < len && e.iPut <= 127
  }

  // Posts and dispatches keep the indices inside a ring, whatever its state, exactly when it
  // has at most 127 slots.
  lemma KeepsSlotsIff(len: nat, ev: Event)
    requires 1 <= len <= 255
    ensures (forall e :: Slots(e, len) ==> Slots(Post(e, ev).0, len)) <==> len <= 127
    ensures (forall e :: Slots(e, len) ==> Slots(TakeOne(e).1, len)) <==> len <= 127
  {
    if len > 127 {
      PastTheLast(len, ev);
      var full := Entry(seq(len, _ => ev), len, 0, 127);
      assert Slots(full, len) && !Slots(Post(full, ev).0, len);
      var taken := Entry(seq(len, _ => ev), len, 127, 0);
      assert Slots(taken, len) && !Slots(TakeOne(taken).1, len);
    }
  }

  // Behind slot 127 comes -128, neither a slot nor the mark of a full ring.
  lemma PastTheLast(len: nat, ev: Event)
    requires 128 <= len <= 255
    ensures forall e :: Slots(e, len) && e.iPut == 127 ==> Post(e, ev).0.iPut == -128
    ensures forall e :: Slots(e, len) && e.iGet == 127 ==> TakeOne(e).1.iGet == -128
  {
  }
}

// Time in microseconds beyond 32 bits.
module EtsClock {

  const W := 0x1_0000_0000

  // The part of ets_loop_iter that watches the counter.
  function HighWord(high: nat, prev: nat, cur: nat): nat {
    if cur < prev then high + 1 else high
  }

  // If high was right at time last, it is right at time now exactly when the counter cannot
  // have come all the way round in between.
  lemma HighWordIff(last: nat, now: nat)
    requires last <= now
    ensures HighWord(last / W, last % W, now % W) == now / W <==> now - last < W
  {
    var d := now - last;
    var k, r := d / W, d % W;
    var q, s := last / W, last % W;
    assert last == W * q + s && d == W * k + r;
    if s + r < W {
      Split(now, q + k, s + r);
    } else {
      Split(now, q + k + 1, s + r - W);
    }
  }

  lemma Split(x: nat, q: nat, r: nat)
    requires x == W * q + r && r < W
    ensures x / W == q && x % W == r
  {
  }
}

// The table of tasks.
module EtsTable {
  import opened EtsRing

  const FIRST_PRIO := 0x14
  const LAST_PRIO := 0x20
  const COUNT := 13

  type Table = t: seq<Task> | |t| == COUNT witness seq(COUNT, _ => UNUSED)

  datatype Posting = Posting(prio: nat, ev: Event)

  // prio2id loops for ever on other priorities.
  predicate KnownPrio(prio: nat) {
    FIRST_PRIO <= prio <= LAST_PRIO
  }

  // What was accepted by a post, and what a handler was entered with.
  datatype Note = Accepted(id: nat, ev: Event) | Entered(id: nat, ev: Event)

  datatype System = System(t: Table, log: seq<Note>)

  predicate Registered(t: Table, p: Posting) {
    KnownPrio(p.prio) && t[p.prio - FIRST_PRIO].qlen > 0
  }

  predicate AllRegistered(t: Table, ps: seq<Posting>) {
    forall k :: 0 <= k < |ps| ==> Registered(t, ps[k])
  }

  predicate SameTasks(t: Table, u: Table) {
    forall i :: 0 <= i < COUNT ==> t[i].qlen == u[i].qlen
  }

  lemma PostsStayOk(t: Table, u: Table, ps: seq<Posting>)
    requires SameTasks(t, u) && AllRegistered(t, ps)
    ensures AllRegistered(u, ps)
  {
    forall k | 0 <= k < |ps| ensures Registered(u, ps[k]) {
      assert Registered(t, ps[k]);
    }
  }

  // ets_post
  function PostTo(s: System, p: Posting): (r: System)
    requires Registered(s.t, p)
    ensures SameTasks(s.t, r.t)
  {
    var id := p.prio - FIRST_PRIO;
    PostAppends(s.t[id], p.ev);
    var posted := Post(s.t[id], p.ev);
    if posted.1 then s else System(s.t[id := posted.0], s.log + [Accepted(id, p.ev)])
  }

  predicate Full(e: Task) {
    |Pending(e)| == e.qlen
  }

  // The event waits behind the others in the ring of its priority, unless that is full, and
  // is noted as accepted; all other rings are as they were.
  lemma PostWaits(s: System, p: Posting)
    requires Registered(s.t, p)
    ensures var r, id := PostTo(s, p), p.prio - 20;
      && Pending(r.t[id]) == (if Full(s.t[id]) then Pending(s.t[id]) else Pending(s.t[id]) + [p.ev])
      && r.log == (if Full(s.t[id]) then s.log else s.log + [Accepted(id, p.ev)])
      && forall i :: 0 <= i < COUNT && i != id ==> r.t[i] == s.t[i]
  {
    PostAppends(s.t[p.prio - FIRST_PRIO], p.ev);
  }

  function PostAll(s: System, ps: seq<Posting>): (r: System)
    requires AllRegistered(s.t, ps)
    ensures SameTasks(s.t, r.t)
  {
    if ps == [] then s else PostTo(PostAll(s, ps[..|ps| - 1]), ps[|ps| - 1])
  }

  // Enter the handler of entry i if an event waits.
  function Enter(s: System, i: nat): (r: System)
    requires i < COUNT
    ensures SameTasks(s.t, r.t)
  {
    if s.t[i].iGet == s.t[i].iPut then s
    else
      TakesOldest(s.t[i]);
      var (ev, e) := TakeOne(s.t[i]);
      System(s.t[i := e], s.log + [Entered(i, ev)])
  }

  // What else happens at one entry of a pass: posts from interrupts before it is looked at,
  // and posts by its handler if that runs.
  datatype Turn = Turn(before: seq<Posting>, during: seq<Posting>)

  predicate TurnsOk(t: Table, turns: seq<Turn>) {
    && |turns| == COUNT
    && forall i :: 0 <= i < COUNT ==> AllRegistered(t, turns[i].before) && AllRegistered(t, turns[i].during)
  }

  // One entry of the loop.
  function Visit(s: System, i: nat, turn: Turn): (r: System)
    requires i < COUNT && AllRegistered(s.t, turn.before) && AllRegistered(s.t, turn.during)
    ensures SameTasks(s.t, r.t)
  {
    var s1 := PostAll(s, turn.before);
    var s2 := Enter(s1, i);
    if s1.t[i].iGet == s1.t[i].iPut then s1 else PostAll(s2, turn.during)
  }

  // The loop over the first n entries.
  function Pass(s: System, turns: seq<Turn>, n: nat): (r: System)
    requires TurnsOk(s.t, turns) && n <= COUNT
    ensures SameTasks(s.t, r.t)
  {
    if n == 0 then s else
      var before := Pass(s, turns, n - 1);
      Visit(before, n - 1, turns[n - 1])
  }

  // ---------- first in, first out ----------

  function AcceptedBy(log: seq<Note>, i: nat): seq<Event> {
    if log == [] then []
    else
      var n := log[|log| - 1];
      AcceptedBy(log[..|log| - 1], i) + (if n.Accepted? && n.id == i then [n.ev] else [])
  }

  function EnteredWith(log: seq<Note>, i: nat): seq<Event> {
    if log == [] then []
    else
      var n := log[|log| - 1];
      EnteredWith(log[..|log| - 1], i) + (if n.Entered? && n.id == i then [n.ev] else [])
  }

  // Task i's handler has been entered with exactly the oldest of the events accepted for it,
  // in order; the others are still waiting.
  predicate Flows(s: System, i: nat)
    requires i < COUNT
  {
    AcceptedBy(s.log, i) == EnteredWith(s.log, i) + Pending(s.t[i])
  }

  predicate AllFlow(s: System) {
    forall i :: 0 <= i < COUNT ==> Flows(s, i)
  }

  lemma NoteAdded(log: seq<Note>, n: Note, i: nat)
    ensures AcceptedBy(log + [n], i) == AcceptedBy(log, i) + (if n.Accepted? && n.id == i then [n.ev] else [])
    ensures EnteredWith(log + [n], i) == EnteredWith(log, i) + (if n.Entered? && n.id == i then [n.ev] else [])
  {
    assert (log + [n])[..|log|] == log;
  }

  lemma PostFlows(s: System, p: Posting)
    requires Registered(s.t, p) && AllFlow(s)
    ensures AllFlow(PostTo(s, p))
  {
    var id := p.prio - FIRST_PRIO;
    PostAppends(s.t[id], p.ev);
    if !Post(s.t[id], p.ev).1 { EntryFlows(s, id, Post(s.t[id], p.ev).0, Accepted(id, p.ev)); }
  }

  lemma EnterFlows(s: System, i: nat)
    requires i < COUNT && AllFlow(s)
    ensures AllFlow(Enter(s, i))
  {
    if s.t[i].iGet != s.t[i].iPut {
      TakesOldest(s.t[i]);
      var (ev, e) := TakeOne(s.t[i]);
      EntryFlows(s, i, e, Entered(i, ev));
    }
  }

  // An event accepted at the end of one ring, or entered from the front of it.
  lemma EntryFlows(s: System, id: nat, e: Task, n: Note)
    requires AllFlow(s) && id < COUNT && n.id == id
    requires if n.Accepted? then Pending(e) == Pending(s.t[id]) + [n.ev] else Pending(s.t[id]) == [n.ev] + Pending(e)
    ensures AllFlow(System(s.t[id := e], s.log + [n]))
  {
    var r := System(s.t[id := e], s.log + [n]);
    forall i | 0 <= i < COUNT ensures Flows(r, i) {
      assert Flows(s, i);
      NoteFlows(s.log, n, i, Pending(s.t[i]), Pending(r.t[i]));
    }
  }

  lemma NoteFlows(log: seq<Note>, n: Note, i: nat, before: seq<Event>, after: seq<Event>)
    requires AcceptedBy(log, i) == EnteredWith(log, i) + before
    requires if n.id != i then after == before else if n.Accepted? then after == before + [n.ev]
        else before == [n.ev] + after
    ensures AcceptedBy(log + [n], i) == EnteredWith(log + [n], i) + after
  {
    NoteAdded(log, n, i);
    var e := EnteredWith(log, i);
    if n.id == i && n.Accepted? {
      assert e + (before + [n.ev]) == e + before + [n.ev];
    } else if n.id == i {
      assert e + ([n.ev] + after) == e + [n.ev] + after;
    }
  }

  lemma {:induction false} PostAllFlows(s: System, ps: seq<Posting>)
    requires AllRegistered(s.t, ps) && AllFlow(s)
    ensures AllFlow(PostAll(s, ps))
  {
    if ps != [] {
      PostAllFlows(s, ps[..|ps| - 1]);
      PostFlows(PostAll(s, ps[..|ps| - 1]), ps[|ps| - 1]);
    }
  }

  lemma VisitFlows(s: System, i: nat, turn: Turn)
    requires i < COUNT && AllRegistered(s.t, turn.before) && AllRegistered(s.t, turn.during) && AllFlow(s)
    ensures AllFlow(Visit(s, i, turn))
  {
    PostAllFlows(s, turn.before);
    var s1 := PostAll(s, turn.before);
    EnterFlows(s1, i);
    PostAllFlows(Enter(s1, i), turn.during);
  }

  lemma TurnStaysOk(t: Table, u: Table, turns: seq<Turn>, i: nat)
    requires SameTasks(t, u) && TurnsOk(t, turns) && i < COUNT
    ensures AllRegistered(u, turns[i].before) && AllRegistered(u, turns[i].during)
  {
    PostsStayOk(t, u, turns[i].before);
    PostsStayOk(t, u, turns[i].during);
  }

  lemma {:induction false} PassFlows(s: System, turns: seq<Turn>, n: nat)
    requires TurnsOk(s.t, turns) && n <= COUNT && AllFlow(s)
    ensures AllFlow(Pass(s, turns, n))
  {
    if n > 0 {
      PassFlows(s, turns, n - 1);
      TurnStaysOk(s.t, Pass(s, turns, n - 1).t, turns, n - 1);
      VisitFlows(Pass(s, turns, n - 1), n - 1, turns[n - 1]);
    }
  }

  // ---------- whole runs ----------

  datatype Op = PostOp(p: Posting) | PassOp(turns: seq<Turn>)

  predicate OpOk(t: Table, op: Op) {
    match op
    case PostOp(p) => Registered(t, p)
    case PassOp(turns) => TurnsOk(t, turns)
  }

  lemma OpStaysOk(t: Table, u: Table, op: Op)
    requires SameTasks(t, u) && OpOk(t, op)
    ensures OpOk(u, op)
  {
    if op.PassOp? {
      forall i | 0 <= i < COUNT ensures AllRegistered(u, op.turns[i].before) && AllRegistered(u, op.turns[i].during) {
        PostsStayOk(t, u, op.turns[i].before);
        PostsStayOk(t, u, op.turns[i].during);
      }
    }
  }

  function Run(s: System, ops: seq<Op>): (r: System)
    requires forall k :: 0 <= k < |ops| ==> OpOk(s.t, ops[k])
    ensures SameTasks(s.t, r.t)
  {
    if ops == [] then s
    else
      var before := Run(s, ops[..|ops| - 1]);
      OpStaysOk(s.t, before.t, ops[|ops| - 1]);
      match ops[|ops| - 1]
      case PostOp(p) => PostTo(before, p)
      case PassOp(turns) => Pass(before, turns, COUNT)
  }

  // Every ring is a bounded first-in first-out queue over any run of posts and passes.
  lemma {:induction false} RunFlows(s: System, ops: seq<Op>)
    requires AllFlow(s) && forall k :: 0 <= k < |ops| ==> OpOk(s.t, ops[k])
    ensures AllFlow(Run(s, ops))
  {
    if ops != [] {
      var n := |ops| - 1;
      RunFlows(s, ops[..n]);
      var before := Run(s, ops[..n]);
      match ops[n] {
        case PostOp(p) => PostFlows(before, p);
        case PassOp(turns) => PassFlows(before, turns, COUNT);
      }
    }
  }

  // ---------- one pass ----------

  function Entries(log: seq<Note>): seq<nat> {
    if log == [] then []
    else Entries(log[..|log| - 1]) + (if log[|log| - 1].Entered? then [log[|log| - 1].id] else [])
  }

  lemma EntriesAdded(log: seq<Note>, n: Note)
    ensures Entries(log + [n]) == Entries(log) + if n.Entered? then [n.id] else []
  {
    assert (log + [n])[..|log|] == log;
  }

  lemma {:induction false} PostsEnterNone(s: System, ps: seq<Posting>)
    requires AllRegistered(s.t, ps)
    ensures Entries(PostAll(s, ps).log) == Entries(s.log)
    ensures forall i ::
      0 <= i < COUNT && s.t[i].iGet != s.t[i].iPut ==> PostAll(s, ps).t[i].iGet != PostAll(s, ps).t[i].iPut
  {
    if ps != [] {
      var p, s' := ps[|ps| - 1], PostAll(s, ps[..|ps| - 1]);
      PostsEnterNone(s, ps[..|ps| - 1]);
      EntriesAdded(s'.log, Accepted(p.prio - FIRST_PRIO, p.ev));
      PostAppends(s'.t[p.prio - FIRST_PRIO], p.ev);
    }
  }

  lemma VisitEnters(s: System, i: nat, turn: Turn)
    requires i < COUNT && AllRegistered(s.t, turn.before) && AllRegistered(s.t, turn.during)
    ensures var r := Visit(s, i, turn);
      && (Entries(r.log) == Entries(s.log) || Entries(r.log) == Entries(s.log) + [i])
      && (s.t[i].iGet != s.t[i].iPut ==> Entries(r.log) == Entries(s.log) + [i])
      && StillWaiting(s.t, r.t, i + 1)
  {
    PostsEnterNone(s, turn.before);
    var s1 := PostAll(s, turn.before);
    if s1.t[i].iGet != s1.t[i].iPut {
      TakesOldest(s1.t[i]);
      EntriesAdded(s1.log, Entered(i, TakeOne(s1.t[i]).0));
      PostsEnterNone(Enter(s1, i), turn.during);
    }
  }

  // Events of the entries from n on are not consumed.
  predicate StillWaiting(t: Table, u: Table, n: nat) {
    forall i :: n <= i < COUNT && t[i].iGet != t[i].iPut ==> u[i].iGet != u[i].iPut
  }

  // The handlers entered by the first n entries of a pass.
  function EnteredIn(s: System, turns: seq<Turn>, n: nat): seq<nat>
    requires TurnsOk(s.t, turns) && n <= COUNT
  {
    if n == 0 then [] else
      var before, after := Pass(s, turns, n - 1), Pass(s, turns, n);
      EnteredIn(s, turns, n - 1) + if Entries(after.log) == Entries(before.log) then [] else [n - 1]
  }

  lemma NextEntered(log: seq<nat>, ids: seq<nat>, after: seq<nat>, i: nat, t: Table, u: Table)
    requires i < COUNT && Increasing(ids, i) && Includes(ids, t, i) && StillWaiting(t, u, i)
    requires after == log + ids || after == log + ids + [i]
    requires u[i].iGet != u[i].iPut ==> after == log + ids + [i]
    ensures var ids' := ids + if after == log + ids then [] else [i];
      after == log + ids' && Increasing(ids', i + 1) && Includes(ids', t, i + 1)
  {
    assert log + (ids + [i]) == log + ids + [i];
    Appended(ids, i, t);
    if after == log + ids {
      assert ids + [] == ids && |after| < |log + ids + [i]|;
    }
  }

  // The handlers entered by a pass: each at most once, in table order, and every one whose
  // event was already waiting when the pass began.
  lemma {:induction false} PassEnters(s: System, turns: seq<Turn>, n: nat)
    requires TurnsOk(s.t, turns) && n <= COUNT
    ensures var ids := EnteredIn(s, turns, n);
      Entries(Pass(s, turns, n).log) == Entries(s.log) + ids && Increasing(ids, n) && Includes(ids, s.t, n)
    ensures StillWaiting(s.t, Pass(s, turns, n).t, n)
  {
    if n > 0 {
      PassEnters(s, turns, n - 1);
      var before, i := Pass(s, turns, n - 1), n - 1;
      TurnStaysOk(s.t, before.t, turns, i);
      VisitEnters(before, i, turns[i]);
      assert Pass(s, turns, n) == Visit(before, i, turns[i]);
      NextEntered(Entries(s.log), EnteredIn(s, turns, i), Entries(Pass(s, turns, n).log), i, s.t, before.t);
    }
  }

  predicate Increasing(ids: seq<nat>, n: nat) {
    (forall a, b :: 0 <= a < b < |ids| ==> ids[a] < ids[b]) && forall a :: 0 <= a < |ids| ==> ids[a] < n
  }

  predicate Includes(ids: seq<nat>, t: Table, n: nat)
    requires n <= COUNT
  {
    forall i :: 0 <= i < n && t[i].iGet != t[i].iPut ==> i in ids
  }

  lemma Appended(ids: seq<nat>, i: nat, t: Table)
    requires i < COUNT && Increasing(ids, i) && Includes(ids, t, i)
    ensures Increasing(ids + [i], i + 1) && Includes(ids + [i], t, i + 1)
  {
    forall j | 0 <= j < i + 1 && t[j].iGet != t[j].iPut ensures j in ids + [i] {
      if j < i { assert j in ids; }
    }
  }
}
