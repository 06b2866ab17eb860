// extmod/modutimeq.c: a queue object driven by any sequence of calls is a run of the queue on
// the clock that does not wrap.

module UTimeQDrive {
  import opened UTimeQ

  datatype Call = PushCall(time: nat, callback: int, args: int) | PopCall

  datatype Reply = Pushed | Overflow | Gave(answer: Answer)

  // Where the window is for a push.
  function WindowFor(c: Clocked, time: nat): nat {
    if InWindow(c.last, Entry(time, 0, NULL, NULL)) then c.last else TrueTime(c.last, time)
  }

  function AtWindow(c: Clocked, time: nat): Clocked {
    c.(last := WindowFor(c, time))
  }

  function JobFor(c: Clocked, call: Call): Job
    requires call.PushCall?
  {
    JobOf(WindowFor(c, call.time), Entry(call.time, c.nextId, call.callback, call.args))
  }

  // A full queue refuses a push.
  function AfterPush(c: Clocked, alloc: nat, call: Call): Clocked
    requires call.PushCall?
  {
    var last := WindowFor(c, call.time);
    if |c.jobs| >= alloc then c.(last := last)
    else Clocked(c.jobs + multiset{JobFor(c, call)}, last, c.nextId + 1)
  }

  // What the module asks of its callers: clock readings below the period and, while anything
  // waits, within half a period of the last popped one, whichever of the earliest that was.
  ghost predicate Legal(c: Clocked, alloc: nat, calls: seq<Call>)
    decreases |calls|
  {
    calls == [] ||
    match calls[0]
    case PushCall(time, _, _) =>
      && time < MODULO && (c.jobs == multiset{} || WindowFor(c, time) == c.last)
      && Legal(AfterPush(c, alloc, calls[0]), alloc, calls[1..])
    case PopCall =>
      if c.jobs == multiset{} then Legal(c, alloc, calls[1..])
      else forall job, after :: OpStep(c, Pop(job), after) ==> Legal(after, alloc, calls[1..])
  }

  function AnswerOf(job: Job): Answer {
    Popped(job.due % MODULO, job.callback, job.args)
  }

  // One call and its reply; job is the one a pop takes out.
  ghost predicate CallStep(a: Clocked, alloc: nat, call: Call, reply: Reply, job: Job, b: Clocked) {
    match call
    case PushCall(_, _, _) =>
      && b == AfterPush(a, alloc, call)
      && if |a.jobs| < alloc then reply == Pushed && OpStep(AtWindow(a, call.time), Push(JobFor(a, call)), b)
         else reply == Overflow
    case PopCall =>
      if a.jobs == multiset{} then b == a && reply == Gave(IndexError)
      else OpStep(a, Pop(job), b) && reply == Gave(AnswerOf(job))
  }

  ghost predicate CallRun(states: seq<Clocked>, alloc: nat, calls: seq<Call>, replies: seq<Reply>, jobs: seq<Job>) {
    && |states| == |calls| + 1 && |replies| == |jobs| == |calls|
    && forall i :: 0 <= i < |calls| ==> CallStep(states[i], alloc, calls[i], replies[i], jobs[i], states[i + 1])
  }

  // The jobs the first k calls took out, and those they put in.
  function Taken(replies: seq<Reply>, jobs: seq<Job>, k: nat): seq<Job>
    requires k <= |replies| == |jobs|
  {
    if k == 0 then []
    else
      var r := replies[k - 1];
      Taken(replies, jobs, k - 1) + if r.Gave? && r.answer.Popped? then [jobs[k - 1]] else []
  }

  function PutIn(states: seq<Clocked>, calls: seq<Call>, replies: seq<Reply>, k: nat): seq<Job>
    requires k <= |replies| == |calls| <= |states|
  {
    if k == 0 then []
    else
      PutIn(states, calls, replies, k - 1) +
      if replies[k - 1] == Pushed && calls[k - 1].PushCall? then [JobFor(states[k - 1], calls[k - 1])] else []
  }

  // ---------- calls are a run ----------

  datatype History = History(states: seq<Clocked>, ops: seq<Op>) {
    ghost predicate Valid() {
      OpRun(states, ops)
    }

    function Last(): Clocked
      requires |states| > 0
    {
      states[|states| - 1]
    }
  }

  function Pushes(ops: seq<Op>): seq<Job> {
    if ops == [] then [] else Pushes(ops[..|ops| - 1]) + In(ops[|ops| - 1])
  }

  function In(op: Op): seq<Job> {
    if op.Push? then [op.job] else []
  }

  lemma Extended(h: History, op: Op, c: Clocked) returns (h': History)
    requires h.Valid() && OpStep(h.Last(), op, c)
    ensures h' == History(h.states + [c], h.ops + [op]) && h'.Valid() && h'.Last() == c && h'.states[0] == h.states[0]
    ensures PoppedJobs(h'.ops) == PoppedJobs(h.ops) + Out(op)
    ensures Pushes(h'.ops) == Pushes(h.ops) + In(op)
  {
    h' := History(h.states + [c], h.ops + [op]);
    assert h'.ops[..|h.ops|] == h.ops;
    forall i | 0 <= i < |h'.ops| ensures OpStep(h'.states[i], h'.ops[i], h'.states[i + 1]) {
      if i < |h.ops| { assert h'.ops[i] == h.ops[i]; }
    }
  }

  // An empty queue moves its window to the push.
  lemma Opened(h: History, call: Call) returns (h': History)
    requires h.Valid() && call.PushCall?
    requires h.Last().jobs == multiset{} || WindowFor(h.Last(), call.time) == h.Last().last
    ensures h'.Valid() && h'.states[0] == h.states[0] && h'.Last() == AtWindow(h.Last(), call.time)
    ensures PoppedJobs(h'.ops) == PoppedJobs(h.ops) && Pushes(h'.ops) == Pushes(h.ops)
  {
    var c := h.Last();
    h' := h;
    if WindowFor(c, call.time) != c.last {
      h' := Extended(h, Idle(WindowFor(c, call.time)), AtWindow(c, call.time));
      assert PoppedJobs(h.ops) + [] == PoppedJobs(h.ops) && Pushes(h.ops) + [] == Pushes(h.ops);
    }
  }

  lemma PushRuns(h: History, alloc: nat, call: Call, reply: Reply, job: Job, b: Clocked) returns (h': History)
    requires h.Valid() && call.PushCall? && CallStep(h.Last(), alloc, call, reply, job, b)
    requires h.Last().jobs == multiset{} || WindowFor(h.Last(), call.time) == h.Last().last
    ensures h'.Valid() && h'.states[0] == h.states[0] && h'.Last() == b
    ensures PoppedJobs(h'.ops) == PoppedJobs(h.ops)
    ensures Pushes(h'.ops) == Pushes(h.ops) + if |h.Last().jobs| < alloc then [JobFor(h.Last(), call)] else []
  {
    var c := h.Last();
    h' := Opened(h, call);
    if |c.jobs| < alloc {
      h' := Extended(h', Push(JobFor(c, call)), b);
      assert PoppedJobs(h.ops) + [] == PoppedJobs(h.ops);
    } else {
      assert Pushes(h.ops) + [] == Pushes(h.ops);
    }
  }

  // One legal call goes on with a run, and leaves the remaining calls legal.
  lemma CallRuns(h: History, alloc: nat, calls: seq<Call>, reply: Reply, job: Job, b: Clocked) returns (h': History)
    requires h.Valid() && calls != [] && Legal(h.Last(), alloc, calls)
    requires CallStep(h.Last(), alloc, calls[0], reply, job, b)
    ensures h'.Valid() && h'.states[0] == h.states[0] && h'.Last() == b && Legal(b, alloc, calls[1..])
    ensures PoppedJobs(h'.ops) == PoppedJobs(h.ops) + if reply.Gave? && reply.answer.Popped? then [job] else []
    ensures Pushes(h'.ops) == Pushes(h.ops) + if reply == Pushed && calls[0].PushCall?
      then [JobFor(h.Last(), calls[0])] else []
  {
    assert PoppedJobs(h.ops) + [] == PoppedJobs(h.ops) && Pushes(h.ops) + [] == Pushes(h.ops);
    match calls[0] {
      case PushCall(_, _, _) =>
        h' := PushRuns(h, alloc, calls[0], reply, job, b);
      case PopCall =>
        h' := h;
        if h.Last().jobs != multiset{} { h' := Extended(h, Pop(job), b); }
    }
  }

  lemma CallAt(states: seq<Clocked>, alloc: nat, calls: seq<Call>, replies: seq<Reply>, jobs: seq<Job>, i: nat)
    requires CallRun(states, alloc, calls, replies, jobs) && i < |calls|
    ensures CallStep(states[i], alloc, calls[i], replies[i], jobs[i], states[i + 1])
    ensures calls[i..][0] == calls[i] && calls[i..][1..] == calls[i + 1..]
  {
  }

  lemma {:induction false} CallsRun(states: seq<Clocked>, alloc: nat, calls: seq<Call>, replies: seq<Reply>,
      jobs: seq<Job>, k: nat)
    returns (h: History)
    requires CallRun(states, alloc, calls, replies, jobs) && Legal(states[0], alloc, calls) && k <= |calls|
    ensures h.Valid() && h.states[0] == states[0] && h.Last() == states[k] && Legal(states[k], alloc, calls[k..])
    ensures PoppedJobs(h.ops) == Taken(replies, jobs, k) && Pushes(h.ops) == PutIn(states, calls, replies, k)
    decreases k
  {
    if k == 0 {
      h := History([states[0]], []);
      assert calls[0..] == calls;
    } else {
      h := CallsRun(states, alloc, calls, replies, jobs, k - 1);
      CallAt(states, alloc, calls, replies, jobs, k - 1);
      h := CallRuns(h, alloc, calls[k - 1..], replies[k - 1], jobs[k - 1], states[k]);
    }
  }

  // Nothing is lost and nothing is made up: what was pushed is what was popped and what waits.
  lemma {:induction false} RunConserves(states: seq<Clocked>, ops: seq<Op>, k: nat)
    requires OpRun(states, ops) && states[0].jobs == multiset{} && k <= |ops|
    ensures states[k].jobs + multiset(PoppedJobs(ops[..k])) == multiset(Pushes(ops[..k]))
  {
    if k > 0 {
      RunConserves(states, ops, k - 1);
      assert ops[..k][..k - 1] == ops[..k - 1];
      StepConserves(states[k - 1], ops[k - 1], states[k], PoppedJobs(ops[..k - 1]), Pushes(ops[..k - 1]));
    }
  }

  lemma StepConserves(a: Clocked, op: Op, b: Clocked, popped: seq<Job>, pushed: seq<Job>)
    requires OpStep(a, op, b) && a.jobs + multiset(popped) == multiset(pushed)
    ensures b.jobs + multiset(popped + Out(op)) == multiset(pushed + In(op))
  {
    if !op.Push? { assert pushed + [] == pushed; }
    if !op.Pop? { assert popped + [] == popped; }
  }

  // Whatever legal calls a fresh queue gets, they take jobs out in order, and what they put in
  // is what they took out and what waits.
  lemma CallsInOrder(states: seq<Clocked>, alloc: nat, calls: seq<Call>, replies: seq<Reply>, jobs: seq<Job>)
    requires CallRun(states, alloc, calls, replies, jobs) && Legal(states[0], alloc, calls)
    requires states[0].jobs == multiset{}
    ensures AllInOrder(Taken(replies, jobs, |calls|))
    ensures states[|calls|].jobs + multiset(Taken(replies, jobs, |calls|))
         == multiset(PutIn(states, calls, replies, |calls|))
  {
    var h := CallsRun(states, alloc, calls, replies, jobs, |calls|);
    RunPopsInOrder(h.states, h.ops, states[0].last, states[0].nextId);
    RunConserves(h.states, h.ops, |h.ops|);
    assert h.ops[..|h.ops|] == h.ops;
  }

  // ---------- the object ----------

  ghost predicate Stands(q: Queue, id: nat, c: Clocked)
    reads q, q.items
  {
    q.Valid() && c == Clocked(multiset(q.Contents()), q.last, id)
  }

  lemma WindowHolds(c: Clocked, e: Entry)
    requires Sane(e)
    ensures InWindow(WindowFor(c, e.time), e)
  {
    StartsWindow(c.last, e);
  }

  // The postcondition of HeapPush, read as the step of a call.
  lemma PushIsCall(c: Clocked, alloc: nat, call: Call, before: seq<Job>, after: seq<Job>, ok: bool,
      job: Job)
    requires call.PushCall? && call.time < MODULO && c.jobs == multiset(before) && ok == (|before| < alloc)
    requires multiset(after) == if ok then multiset(before) + multiset{JobFor(c, call)} else multiset(before)
    ensures AfterPush(c, alloc, call)
         == Clocked(multiset(after), WindowFor(c, call.time), if ok then c.nextId + 1 else c.nextId)
    ensures CallStep(c, alloc, call, if ok then Pushed else Overflow, job, AfterPush(c, alloc, call))
  {
    var e := Entry(call.time, c.nextId, call.callback, call.args);
    assert |multiset(before)| == |before|;
    WindowHolds(c, e);
    if ok { PushIsStep(before, after, WindowFor(c, call.time), e, c.nextId); }
  }

  // One push on the object.
  method PushEntry(q: Queue, call: Call, id: nat, ghost c: Clocked, ghost job: Job)
    returns (reply: Reply, nextId: nat)
    requires Stands(q, id, c) && call.PushCall? && call.time < MODULO
    requires c.jobs == multiset{} || WindowFor(c, call.time) == c.last
    modifies q`len, q`last, q.items
    ensures Stands(q, nextId, AfterPush(c, q.items.Length, call))
    ensures CallStep(c, q.items.Length, call, reply, job, AfterPush(c, q.items.Length, call))
  {
    ghost var before := q.Contents();
    assert |c.jobs| == |before| == q.len;
    var ok;
    ok, nextId := q.HeapPush(call.time, id, call.callback, call.args);
    reply := if ok then Pushed else Overflow;
    PushIsCall(c, q.items.Length, call, before, q.Contents(), ok, job);
  }

  // One pop.
  method PopEntry(q: Queue, ghost id: nat, ghost c: Clocked) returns (reply: Reply, ghost job: Job, ghost b: Clocked)
    requires Stands(q, id, c)
    modifies q, q.items
    ensures Stands(q, id, b) && CallStep(c, q.items.Length, PopCall, reply, job, b)
  {
    ghost var before := q.Contents();
    assert |c.jobs| == |before| == q.len;
    var r;
    r, job := q.HeapPop();
    reply, b := Gave(r), Clocked(multiset(q.Contents()), q.last, id);
    if c.jobs != multiset{} { PopIsStep(before, q.Contents(), c.last, job, id); }
  }

  // One call.
  method CallOne(q: Queue, call: Call, id: nat, ghost c: Clocked)
    returns (reply: Reply, nextId: nat, ghost job: Job, ghost b: Clocked)
    requires Stands(q, id, c)
    requires call.PushCall? ==> call.time < MODULO && (c.jobs == multiset{} || WindowFor(c, call.time) == c.last)
    modifies q, q.items
    ensures Stands(q, nextId, b) && CallStep(c, q.items.Length, call, reply, job, b)
  {
    if call.PushCall? {
      b, job := AfterPush(c, q.items.Length, call), Job(0, 0, NULL, NULL);
      reply, nextId := PushEntry(q, call, id, c, job);
    } else {
      nextId := id;
      reply, job, b := PopEntry(q, id, c);
    }
  }

  // Calls on an object, one after the other.
  method CallAll(q: Queue, calls: seq<Call>, id: nat, ghost start: Clocked)
    returns (replies: seq<Reply>, nextId: nat, ghost states: seq<Clocked>, ghost jobs: seq<Job>)
    requires Stands(q, id, start) && Legal(start, q.items.Length, calls)
    modifies q, q.items
    ensures CallRun(states, q.items.Length, calls, replies, jobs) && states[0] == start
    ensures Stands(q, nextId, states[|calls|])
  {
    nextId, replies, states, jobs := id, [], [start], [];
    assert calls[0..] == calls;
    var i := 0;
    while i < |calls|
      invariant 0 <= i <= |calls|
      invariant CallRun(states, q.items.Length, calls[..i], replies, jobs) && states[0] == start
      invariant Stands(q, nextId, states[i]) && Legal(states[i], q.items.Length, calls[i..])
    {
      ghost var job, b;
      var reply;
      LegalNow(states[i], q.items.Length, calls, i);
      reply, nextId, job, b := CallOne(q, calls[i], nextId, states[i]);
      OneMore(states, q.items.Length, calls, replies, jobs, i, reply, job, b);
      replies, states, jobs := replies + [reply], states + [b], jobs + [job];
      i := i + 1;
    }
    assert calls[..i] == calls;
  }

  // Any legal calls on a new queue: each is answered by its own step on the unwrapped clock,
  // the last of which the object is in; jobs leave in order, and none is lost.
  method Drive(alloc: nat, ghost now: nat, counter: nat, calls: seq<Call>)
    returns (replies: seq<Reply>, q: Queue, nextId: nat, ghost states: seq<Clocked>, ghost jobs: seq<Job>)
    requires Legal(Clocked(multiset{}, now, counter), alloc, calls)
    ensures CallRun(states, alloc, calls, replies, jobs) && states[0] == Clocked(multiset{}, now, counter)
    ensures Stands(q, nextId, states[|calls|])
    ensures AllInOrder(Taken(replies, jobs, |calls|))
    ensures states[|calls|].jobs + multiset(Taken(replies, jobs, |calls|))
         == multiset(PutIn(states, calls, replies, |calls|))
  {
    q := new Queue(alloc, now);
    assert q.Contents() == [];
    replies, nextId, states, jobs := CallAll(q, calls, counter, Clocked(multiset{}, now, counter));
    CallsInOrder(states, alloc, calls, replies, jobs);
  }

  lemma LegalNow(c: Clocked, alloc: nat, calls: seq<Call>, i: nat)
    requires i < |calls| && Legal(c, alloc, calls[i..])
    ensures var call := calls[i];
      call.PushCall? ==> call.time < MODULO && (c.jobs == multiset{} || WindowFor(c, call.time) == c.last)
  {
  }

  lemma OneMore(states: seq<Clocked>, alloc: nat, calls: seq<Call>, replies: seq<Reply>, jobs: seq<Job>, i: nat,
      reply: Reply, job: Job, b: Clocked)
    requires i < |calls| && CallRun(states, alloc, calls[..i], replies, jobs) && Legal(states[i], alloc, calls[i..])
    requires CallStep(states[i], alloc, calls[i], reply, job, b)
    ensures CallRun(states + [b], alloc, calls[..i + 1], replies + [reply], jobs + [job])
    ensures Legal(b, alloc, calls[i + 1..])
  {
    assert calls[i..][1..] == calls[i + 1..];
    var next, rs, js := states + [b], replies + [reply], jobs + [job];
    forall k | 0 <= k < i + 1 ensures CallStep(next[k], alloc, calls[..i + 1][k], rs[k], js[k], next[k + 1]) {
      if k < i {
        assert CallStep(states[k], alloc, calls[..i][k], replies[k], jobs[k], states[k + 1]);
      }
    }
  }
}
