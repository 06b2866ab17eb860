// esp8266/ets_alt_task.c: the task table in place, and the loop over it.

module EtsLoop {
  import opened EtsRing
  import opened EtsClock
  import opened EtsTable

  class Loop {
    const tasks: array<Task>
    var disable: bool
    var timePrev: nat
    var timeHigh: nat
    ghost var log: seq<Note>

    ghost predicate Good()
      reads this, tasks
    {
      tasks.Length == COUNT && AllFlow(Sys())
    }

    ghost function Sys(): System
      requires tasks.Length == COUNT
      reads this, tasks
    {
      System(tasks[..], log)
    }

    constructor ()
      ensures Good() && fresh(tasks) && timeHigh == 0 && timePrev == 0 && log == []
    {
      tasks := new Task[COUNT](_ => UNUSED);
      disable, timePrev, timeHigh, log := false, 0, 0, [];
    }

    // ets_task, before the first post to the task: an empty ring.
    method EtsTask(prio: nat, queue: seq<Event>)
      requires Good() && KnownPrio(prio) && 1 <= |queue| <= 127
      requires tasks[prio - FIRST_PRIO] == UNUSED
      modifies tasks
      ensures Good() && Pending(tasks[prio - FIRST_PRIO]) == [] && tasks[prio - FIRST_PRIO].qlen == |queue|
      ensures forall i :: 0 <= i < COUNT && i != prio - FIRST_PRIO ==> tasks[i] == old(tasks[i])
    {
      ghost var before := Sys();
      tasks[prio - FIRST_PRIO] := Entry(queue, |queue|, 0, 0);
      forall i | 0 <= i < COUNT ensures Flows(Sys(), i) {
        assert Flows(before, i);
      }
    }

    // ets_post: true when the queue is full.
    method EtsPost(p: Posting) returns (full: bool)
      requires Good() && Registered(tasks[..], p)
      modifies tasks, this`log
      ensures Good() && Sys() == PostTo(old(Sys()), p)
      ensures full <==> Full(old(tasks[p.prio - 20]))
      ensures Pending(tasks[p.prio - 20]) == Pending(old(tasks[p.prio - 20])) + if full then [] else [p.ev]
      ensures forall i :: 0 <= i < COUNT && i != p.prio - 20 ==> tasks[i] == old(tasks[i])
    {
      var id := p.prio - FIRST_PRIO;
      ghost var before := Sys();
      full := tasks[id].iPut == -1;
      if !full {
        PutEvent(id, p.ev);
        log := log + [Accepted(id, p.ev)];
        assert tasks[..] == before.t[id := Post(before.t[id], p.ev).0];
      }
      assert Sys() == PostTo(before, p);
      PostFlows(before, p);
      PostWaits(before, p);
    }

    // Its store, into the slot that is free next.
    method PutEvent(id: nat, ev: Event)
      requires tasks.Length == COUNT && id < COUNT && Ring(tasks[id]) && tasks[id].iPut != -1
      modifies tasks
      ensures tasks[id] == Post(old(tasks[id]), ev).0
      ensures forall i :: 0 <= i < COUNT && i != id ==> tasks[i] == old(tasks[i])
    {
      var e := tasks[id];
      PostAppends(e, ev);
      var q, put := e.queue[e.iPut := ev], Int8(e.iPut + 1);
      if put == e.qlen {
        put := 0;
      }
      if put == e.iGet {
        put := -1;
      }
      tasks[id] := e.(queue := q, iPut := put);
    }

    method PostEach(ps: seq<Posting>)
      requires Good() && AllRegistered(tasks[..], ps)
      modifies tasks, this`log
      ensures Good() && Sys() == PostAll(old(Sys()), ps)
    {
      ghost var before := Sys();
      var k := 0;
      while k < |ps|
        invariant 0 <= k <= |ps| && Good()
        invariant Sys() == PostAll(before, ps[..k])
      {
        PostsStayOk(before.t, tasks[..], ps);
        assert ps[..k + 1][..k] == ps[..k];
        var full := EtsPost(ps[k]);
        k := k + 1;
      }
      assert ps[..k] == ps;
    }

    // The body of the dispatch loop for one entry, and what else happens around it. The
    // indices move before the handler runs, so that it may post to its own queue.
    method Dispatch(i: nat, turn: Turn) returns (progress: bool)
      requires Good() && i < COUNT && AllRegistered(tasks[..], turn.before) && AllRegistered(tasks[..], turn.during)
      modifies tasks, this`log
      ensures Good() && Sys() == Visit(old(Sys()), i, turn)
      ensures progress <==> Entries(log) != Entries(old(log))
    {
      ghost var before := Sys();
      VisitEnters(before, i, turn);
      PostsEnterNone(before, turn.before);
      PostEach(turn.before);
      ghost var s1 := Sys();
      progress := tasks[i].iGet != tasks[i].iPut;
      if progress {
        PostsStayOk(before.t, s1.t, turn.during);
        RunHandler(i);
        ghost var s2 := Sys();
        PostsStayOk(s1.t, s2.t, turn.during);
        PostsEnterNone(s2, turn.during);
        PostEach(turn.during);
        EntriesAdded(s1.log, Entered(i, TakeOne(s1.t[i]).0));
        assert |Entries(log)| == |Entries(s1.log)| + 1;
      }
    }

    method RunHandler(i: nat)
      requires Good() && i < COUNT && tasks[i].iGet != tasks[i].iPut
      modifies tasks, this`log
      ensures Good() && Sys() == Enter(old(Sys()), i)
      ensures log == old(log) + [Entered(i, Pending(old(tasks[i]))[0])]
    {
      ghost var before := Sys();
      EnterFlows(before, i);
      TakesOldest(tasks[i]);
      var e := tasks[i];
      var idx, put := e.iGet, e.iPut;
      if put == -1 {
        put := e.iGet;
      }
      var get := Int8(e.iGet + 1);
      if get == e.qlen {
        get := 0;
      }
      tasks[i] := e.(iPut := put, iGet := get);
      log := log + [Entered(i, e.queue[idx])];
      assert tasks[..] == before.t[i := TakeOne(e).1];
    }

    // ets_loop_iter. cur is the low word of the time now; the ghost time is the whole of it.
    method LoopIter(cur: nat, turns: seq<Turn>, ghost last: nat, ghost now: nat) returns (progress: bool)
      requires Good() && TurnsOk(tasks[..], turns)
      requires last <= now && cur == now % W && timePrev == last % W && timeHigh == last / W % W
      modifies tasks, this`log, this`timePrev, this`timeHigh
      ensures Good() && Sys() == if disable then old(Sys()) else Pass(old(Sys()), turns, COUNT)
      ensures progress <==> Entries(log) != Entries(old(log))
      ensures !disable && now - last < W ==> timePrev == now % W && timeHigh == now / W % W
    {
      if disable {
        return false;
      }
      WatchClock(cur, last, now);
      progress := DispatchAll(turns);
    }

    // Its first part: count the overflows of the low word.
    method WatchClock(cur: nat, ghost last: nat, ghost now: nat)
      requires last <= now && cur == now % W && timePrev == last % W && timeHigh == last / W % W
      modifies this`timePrev, this`timeHigh
      ensures timePrev == now % W && (now - last < W ==> timeHigh == now / W % W)
    {
      HighWordIff(last, now);
      NextHigh(last / W);
      if cur < timePrev {
        timeHigh := (timeHigh + 1) % W;
      }
      timePrev := cur;
    }

    // Its loop.
    method DispatchAll(turns: seq<Turn>) returns (progress: bool)
      requires Good() && TurnsOk(tasks[..], turns)
      modifies tasks, this`log
      ensures Good() && Sys() == Pass(old(Sys()), turns, COUNT)
      ensures progress <==> Entries(log) != Entries(old(log))
    {
      ghost var before := Sys();
      progress := false;
      var i := 0;
      while i < COUNT
        invariant 0 <= i <= COUNT && Good() && TurnsOk(before.t, turns)
        invariant Sys() == Pass(before, turns, i)
        invariant if progress then |Entries(log)| > |Entries(before.log)| else Entries(log) == Entries(before.log)
      {
        PostsStayOk(before.t, tasks[..], turns[i].before);
        PostsStayOk(before.t, tasks[..], turns[i].during);
        VisitEnters(Sys(), i, turns[i]);
        var ran := Dispatch(i, turns[i]);
        progress := progress || ran;
        i := i + 1;
      }
    }
  }

  lemma NextHigh(high: nat)
    ensures (high % W + 1) % W == (high + 1) % W
  {
  }
}
