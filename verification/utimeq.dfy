// extmod/modutimeq.c: a priority queue on a clock that wraps, as a queue on a clock that
// does not.

module UTimeQ {
  import opened HeapSift

  const WORD: nat := 0x1_0000_0000
  const MODULO: nat := 0x4000_0000 // MICROPY_PY_UTIME_TICKS_PERIOD on a 32-bit machine
  const HALF: nat := 0x2000_0000
  const NULL: int := 0

  // struct qentry; objects are pointers. id is the place of the push in the order of all
  // pushes; the field, like the counter it comes from, holds its low 32 bits.
  datatype Entry = Entry(time: nat, id: nat, callback: int, args: int)

  function Field(id: nat): nat {
    id % WORD
  }

  predicate Sane(e: Entry) {
    e.time < MODULO
  }

  // time_less_than in 32-bit arithmetic.
  function TimeLessThan(item: Entry, parent: Entry): bool {
    var res: nat := (parent.time - item.time) % WORD;
    if res == 0 then Field(item.id) < Field(parent.id)
    else
      var res' := if res >= WORD / 2 then (res + MODULO) % WORD else res;
      res' != 0 && res' < HALF
  }

  // Of any two times on the clock, the earlier one is that from which the other is less than
  // half a period ahead; equal times are in the order of their id fields.
  lemma LessIff(a: Entry, b: Entry)
    requires Sane(a) && Sane(b)
    ensures TimeLessThan(a, b) <==>
      if a.time == b.time then a.id % 0x1_0000_0000 < b.id % 0x1_0000_0000
      else (b.time - a.time) % 0x4000_0000 < 0x2000_0000
  {
  }

  // ---------- unwrapped time ----------

  // How far e lies behind the point last of the unwrapped clock, seen on the wrapping one.
  function Ahead(last: nat, time: nat): nat {
    (time - last) % MODULO
  }

  // e was pushed for a time in [last, last + MODULO/2).
  predicate InWindow(last: nat, e: Entry) {
    Sane(e) && Ahead(last, e.time) < HALF
  }

  function TrueTime(last: nat, time: nat): nat {
    last + Ahead(last, time)
  }

  // Unwrapped time first, then the id field.
  function RankAt(last: nat): Entry -> int {
    (e: Entry) => TrueTime(last, e.time) * WORD + Field(e.id)
  }

  lemma TrueTimeMod(last: nat, time: nat)
    requires time < MODULO
    ensures TrueTime(last, time) % MODULO == time
  {
    var q := (time - last) / MODULO;
    assert time - last == q * MODULO + Ahead(last, time);
    ModAdd(time, -q);
  }

  lemma ModAdd(x: nat, q: int)
    requires x < MODULO && x + q * MODULO >= 0
    ensures (x + q * MODULO) % MODULO == x
  {
  }

  // Inside one half period the wrapping test is the order of the unwrapped clock.
  lemma LessIsEarlier(last: nat, a: Entry, b: Entry)
    requires InWindow(last, a) && InWindow(last, b)
    ensures TimeLessThan(a, b)
        <==> TrueTime(last, a.time) < TrueTime(last, b.time) || (a.time == b.time && Field(a.id) < Field(b.id))
    ensures TrueTime(last, a.time) == TrueTime(last, b.time) <==> a.time == b.time
  {
    TrueTimeMod(last, a.time);
    TrueTimeMod(last, b.time);
    var da, db := Ahead(last, a.time), Ahead(last, b.time);
    var k := (last + da) / MODULO;
    SameLap(last, da, db, a.time, b.time);
  }

  // Two times in the window differ on the wrapped clock as they do on the unwrapped one, or
  // by that plus or minus one period.
  lemma SameLap(last: nat, da: nat, db: nat, a: nat, b: nat)
    requires da < HALF && db < HALF && a < MODULO && b < MODULO
    requires (last + da) % MODULO == a && (last + db) % MODULO == b
    ensures b - a == db - da || b - a == db - da + MODULO || b - a == db - da - MODULO
  {
    var p, q := (last + da) / MODULO, (last + db) / MODULO;
    assert last + da == p * MODULO + a && last + db == q * MODULO + b;
    assert b - a == db - da + (p - q) * MODULO;
  }

  lemma Ranks(last: nat, d: set<Entry>)
    requires forall e :: e in d ==> InWindow(last, e)
    ensures Ranked(TimeLessThan, RankAt(last), d)
  {
    forall x, y | x in d && y in d ensures TimeLessThan(x, y) <==> RankAt(last)(x) < RankAt(last)(y) {
      LessIsEarlier(last, x, y);
      LexIsRank(TrueTime(last, x.time), Field(x.id), TrueTime(last, y.time), Field(y.id));
    }
  }

  lemma LexIsRank(t: nat, i: nat, u: nat, j: nat)
    requires i < WORD && j < WORD
    ensures t * WORD + i < u * WORD + j <==> t < u || (t == u && i < j)
  {
    if t < u { assert t * WORD + WORD <= u * WORD; }
    if u < t { assert u * WORD + WORD <= t * WORD; }
  }

  // Moving the window up to the earliest entry moves no entry's unwrapped time.
  lemma WindowMoves(last: nat, e: Entry, first: Entry)
    requires InWindow(last, e) && InWindow(last, first) && TrueTime(last, first.time) <= TrueTime(last, e.time)
    ensures var last' := TrueTime(last, first.time);
      InWindow(last', e) && TrueTime(last', e.time) == TrueTime(last, e.time)
  {
    var last' := TrueTime(last, first.time);
    TrueTimeMod(last, e.time);
    var gap := TrueTime(last, e.time) - last';
    var q := (last' + gap) / MODULO;
    assert last' + gap == q * MODULO + e.time;
    assert e.time - last' == gap + -q * MODULO;
    AheadUnique(e.time - last', gap, -q);
  }

  // A moment with the entry's clock reading opens a window that holds the entry.
  lemma StartsWindow(last: nat, e: Entry)
    requires Sane(e)
    ensures InWindow(TrueTime(last, e.time), e)
  {
    var t := TrueTime(last, e.time);
    TrueTimeMod(last, e.time);
    assert t == (t / MODULO) * MODULO + e.time;
    AheadUnique(e.time - t, 0, -(t / MODULO));
  }

  lemma AheadUnique(x: int, r: nat, q: int)
    requires x == r + q * MODULO && r < MODULO
    ensures x % MODULO == r
  {
  }

  // ---------- the queue ----------

  // What an entry means: when it is due on the unwrapped clock, its place in push order, and
  // what to call.
  datatype Job = Job(due: nat, id: nat, callback: int, args: int)

  function JobOf(last: nat, e: Entry): Job {
    Job(TrueTime(last, e.time), e.id, e.callback, e.args)
  }

  function Jobs(last: nat, s: seq<Entry>): seq<Job> {
    seq(|s|, i requires 0 <= i < |s| => JobOf(last, s[i]))
  }

  predicate Before(a: Job, b: Job) {
    a.due < b.due || (a.due == b.due && Field(a.id) < Field(b.id))
  }

  datatype Answer = Popped(time: nat, callback: int, args: int) | IndexError

  class Queue {
    const items: array<Entry>
    var len: nat
    ghost var last: nat // the unwrapped time last popped

    ghost predicate Valid()
      reads this, items
    {
      && len <= items.Length
      && (forall i :: 0 <= i < len ==> InWindow(last, items[i]))
      && HeapFrom(items[..], 0, len, RankAt(last))
    }

    ghost function Contents(): seq<Job>
      requires len <= items.Length
      reads this, items
    {
      Jobs(last, items[..len])
    }

    constructor (alloc: nat, ghost now: nat)
      ensures Valid() && fresh(items) && items.Length == alloc && len == 0 && last == now
    {
      items := new Entry[alloc](_ => Entry(0, 0, NULL, NULL));
      len := 0;
      last := now;
    }

    // While the queue is empty, its window may start at any time.
    ghost method Restart(now: nat)
      requires len <= items.Length && len == 0
      modifies this`last
      ensures Valid() && last == now
    {
      last := now;
    }

    // mod_utimeq_heappush. id is the number of pushes so far, to any queue; the global counter
    // holds its low 32 bits. An empty queue takes any time: one outside the window is the next
    // moment with that clock reading, and the window starts there.
    method HeapPush(time: nat, id: nat, callback: int, args: int) returns (ok: bool, nextId: nat)
      requires Valid() && time < MODULO && (len > 0 ==> InWindow(last, Entry(time, id, callback, args)))
      modifies this`len, this`last, items
      ensures Valid()
      ensures last == if InWindow(old(last), Entry(time, id, callback, args)) then old(last)
          else TrueTime(old(last), time)
      ensures ok == (old(len) < items.Length)
      ensures nextId == if ok then id + 1 else id
      ensures len == if ok then old(len) + 1 else old(len)
      ensures multiset(Contents()) == if ok
        then multiset(old(Contents())) + multiset{JobOf(last, Entry(time, id, callback, args))}
        else multiset(old(Contents()))
    {
      ghost var e := Entry(time, id, callback, args);
      if !InWindow(last, e) {
        assert Contents() == [];
        StartsWindow(last, e);
        Restart(TrueTime(last, time));
        assert Contents() == [];
      }
      ok, nextId := PushInWindow(time, id, callback, args);
    }

    method PushInWindow(time: nat, id: nat, callback: int, args: int) returns (ok: bool, nextId: nat)
      requires Valid() && InWindow(last, Entry(time, id, callback, args))
      modifies this`len, items
      ensures Valid()
      ensures ok == (old(len) < items.Length)
      ensures nextId == if ok then id + 1 else id
      ensures len == if ok then old(len) + 1 else old(len)
      ensures multiset(Contents()) == if ok
        then multiset(old(Contents())) + multiset{JobOf(last, Entry(time, id, callback, args))}
        else multiset(old(Contents()))
    {
      if len == items.Length {
        return false, id;
      }
      var l := len;
      ghost var before := items[..];
      items[l] := Entry(time, id, callback, args);
      ghost var s := items[..];
      nextId := id + 1;
      SiftDownInPlace(items, 0, l, items[l], TimeLessThan);
      len := len + 1;
      ok := true;
      PushLaw(last, before, s, l, items[..]);
    }

    // mod_utimeq_heappop.
    method HeapPop() returns (r: Answer, ghost job: Job)
      requires Valid()
      modifies this, items
      ensures Valid()
      ensures old(len) == 0 ==> r == IndexError && len == 0 && last == old(last)
      ensures old(len) > 0 ==>
        && len == old(len) - 1 && job in old(Contents())
        && r == Popped(job.due % MODULO, job.callback, job.args)
        && (forall other :: other in old(Contents()) ==> !Before(other, job))
        && last == job.due >= old(last)
        && multiset(Contents()) == multiset(old(Contents())) - multiset{job}
    {
      job := Job(0, 0, 0, 0);
      if len == 0 {
        return IndexError, job;
      }
      ghost var s, n, was := items[..], len, last;
      r := Popped(items[0].time, items[0].callback, items[0].args);
      job := JobOf(last, items[0]);
      PopFirst(was, s, n);
      RemoveRoot(s);
    }

    // The last entry, moved to the root, finds its place; its old slot keeps no references.
    method RemoveRoot(ghost s: seq<Entry>)
      requires Valid() && len > 0 && s == items[..]
      modifies this`len, this`last, items
      ensures Valid() && len == old(len) - 1 && last == TrueTime(old(last), s[0].time)
      ensures multiset(Contents()) == multiset(old(Contents())) - multiset{JobOf(old(last), s[0])}
    {
      ghost var n, was := len, last;
      len := len - 1;
      items[0] := items[len];
      items[len] := Entry(items[len].time, items[len].id, NULL, NULL);
      ghost var t := items[..];
      if len != 0 {
        SiftUpInPlace(items, 0, len, TimeLessThan);
        PopRest(was, s, n, t);
      } else {
        JobsWithout(was, s[..n], []);
      }
      last := TrueTime(was, s[0].time);
    }

    // mod_utimeq_peektime
    method PeekTime() returns (r: Answer)
      requires Valid()
      ensures len == 0 ==> r == IndexError
      ensures len > 0 ==> r.Popped? && Contents() != [] && r.time == Contents()[0].due % MODULO
      ensures forall job :: job in Contents() ==> Contents()[0].due <= job.due
    {
      if len == 0 {
        return IndexError;
      }
      r := Popped(items[0].time, NULL, NULL);
      ghost var s := items[..];
      FirstIsEarliest(last, s, len);
      assert Contents()[0] == JobOf(last, s[0]);
      assert items[..len] == s[..len];
      TrueTimeMod(last, s[0].time);
    }
  }

  ghost predicate Windowed(last: nat, s: seq<Entry>, n: nat) {
    n <= |s| && forall i :: 0 <= i < n ==> InWindow(last, s[i])
  }

  ghost function Entries(s: seq<Entry>): set<Entry> {
    set e | e in s
  }

  lemma JobsSplit(last: nat, r: seq<Entry>, j: nat)
    requires j < |r|
    ensures multiset(Jobs(last, r)) == multiset(Jobs(last, r[..j] + r[j + 1..])) + multiset{JobOf(last, r[j])}
  {
    assert Jobs(last, r) == Jobs(last, r[..j]) + [JobOf(last, r[j])] + Jobs(last, r[j + 1..]);
    assert Jobs(last, r[..j] + r[j + 1..]) == Jobs(last, r[..j]) + Jobs(last, r[j + 1..]);
  }

  lemma RemoveAt(r: seq<Entry>, j: nat)
    requires j < |r|
    ensures multiset(r[..j] + r[j + 1..]) == multiset(r) - multiset{r[j]}
  {
    assert r == r[..j] + [r[j]] + r[j + 1..];
  }

  // The jobs of a sequence do not depend on its order.
  lemma {:induction false} JobsContent(last: nat, s: seq<Entry>, r: seq<Entry>)
    requires multiset(s) == multiset(r)
    ensures multiset(Jobs(last, s)) == multiset(Jobs(last, r))
    decreases s
  {
    if s == [] {
      assert |multiset(r)| == |r| == 0;
    } else {
      assert s[0] in multiset(r);
      var j :| 0 <= j < |r| && r[j] == s[0];
      SameRest(s, r, j);
      JobsContent(last, s[1..], r[..j] + r[j + 1..]);
      OneJobMore(last, s, r, j);
    }
  }

  lemma SameRest(s: seq<Entry>, r: seq<Entry>, j: nat)
    requires s != [] && j < |r| && r[j] == s[0] && multiset(s) == multiset(r)
    ensures multiset(s[1..]) == multiset(r[..j] + r[j + 1..])
  {
    RemoveAt(s, 0);
    RemoveAt(r, j);
    assert s[..0] + s[1..] == s[1..];
  }

  lemma OneJobMore(last: nat, s: seq<Entry>, r: seq<Entry>, j: nat)
    requires j < |r| && s != [] && s[0] == r[j]
    requires multiset(Jobs(last, s[1..])) == multiset(Jobs(last, r[..j] + r[j + 1..]))
    ensures multiset(Jobs(last, s)) == multiset(Jobs(last, r))
  {
    JobsSplit(last, r, j);
    JobsSplit(last, s, 0);
    assert s[..0] + s[1..] == s[1..];
  }

  lemma FirstIsEarliest(last: nat, s: seq<Entry>, n: nat)
    requires 0 < n <= |s| && Windowed(last, s, n) && HeapFrom(s, 0, n, RankAt(last))
    ensures forall i :: 0 <= i < n ==> !Before(JobOf(last, s[i]), JobOf(last, s[0]))
    ensures forall i :: 0 <= i < n ==> TrueTime(last, s[0].time) <= TrueTime(last, s[i].time)
  {
    forall i | 0 <= i < n
      ensures !Before(JobOf(last, s[i]), JobOf(last, s[0])) && TrueTime(last, s[0].time) <= TrueTime(last, s[i].time)
    {
      RootLeast(s, n, i, RankAt(last));
      LexIsRank(TrueTime(last, s[i].time), Field(s[i].id), TrueTime(last, s[0].time), Field(s[0].id));
    }
  }

  lemma PushLaw(last: nat, before: seq<Entry>, s: seq<Entry>, n: nat, r: seq<Entry>)
    requires n < |before| == |s| && s[..n] == before[..n]
    requires Windowed(last, s, n + 1) && HeapFrom(before, 0, n, RankAt(last))
    requires r == SiftDown(s, 0, n, s[n], TimeLessThan)
    ensures Windowed(last, r, n + 1) && HeapFrom(r, 0, n + 1, RankAt(last))
    ensures multiset(Jobs(last, r[..n + 1])) == multiset(Jobs(last, before[..n])) + multiset{JobOf(last, s[n])}
  {
    var d := Entries(s[..n + 1]);
    WindowedEntries(last, s, n + 1);
    forall i | 0 < i < n ensures Ordered(s, i, RankAt(last)) {
      assert Ordered(before, i, RankAt(last)) && s[..n][i] == before[..n][i]
          && s[..n][Parent(i)] == before[..n][Parent(i)];
    }
    PushOrders(s, n, TimeLessThan, RankAt(last), d);
    JobsAppended(last, before[..n], s[n], r[..n + 1]);
  }

  lemma JobsAppended(last: nat, front: seq<Entry>, e: Entry, r: seq<Entry>)
    requires multiset(r) == multiset(front) + multiset{e}
    ensures multiset(Jobs(last, r)) == multiset(Jobs(last, front)) + multiset{JobOf(last, e)}
  {
    JobsContent(last, r, front + [e]);
    assert Jobs(last, front + [e]) == Jobs(last, front) + [JobOf(last, e)];
  }

  lemma WindowedEntries(last: nat, s: seq<Entry>, n: nat)
    requires Windowed(last, s, n)
    ensures Within(s, n, Entries(s[..n])) && Ranked(TimeLessThan, RankAt(last), Entries(s[..n]))
    ensures forall e :: e in Entries(s[..n]) ==> InWindow(last, e)
  {
    assert forall i :: 0 <= i < n ==> s[i] == s[..n][i] && s[i] in s[..n];
    Ranks(last, Entries(s[..n]));
  }

  // The root is the entry to pop.
  lemma PopFirst(last: nat, s: seq<Entry>, n: nat)
    requires 0 < n <= |s| && Windowed(last, s, n) && HeapFrom(s, 0, n, RankAt(last))
    ensures var job := JobOf(last, s[0]);
      && job.due >= last && job.due % MODULO == s[0].time
      && (forall other :: other in Jobs(last, s[..n]) ==> !Before(other, job))
      && job in Jobs(last, s[..n])
  {
    FirstIsEarliest(last, s, n);
    TrueTimeMod(last, s[0].time);
    assert Jobs(last, s[..n])[0] == JobOf(last, s[0]);
  }

  // The other n - 1 entries, in the window the root opens.
  lemma PopRest(last: nat, s: seq<Entry>, n: nat, t: seq<Entry>)
    requires 1 < n <= |s| == |t| && Windowed(last, s, n) && HeapFrom(s, 0, n, RankAt(last))
    requires t[0] == s[n - 1] && forall i :: 0 < i < n - 1 ==> t[i] == s[i]
    ensures var r, job := SiftUp(t, 0, n - 1, TimeLessThan), JobOf(last, s[0]);
      && Windowed(job.due, r, n - 1) && HeapFrom(r, 0, n - 1, RankAt(job.due))
      && multiset(Jobs(job.due, r[..n - 1])) == multiset(Jobs(last, s[..n])) - multiset{job}
  {
    var r := SiftUp(t, 0, n - 1, TimeLessThan);
    WindowedEntries(last, s, n);
    PopOrders(s, t, n - 1, TimeLessThan, RankAt(last), Entries(s[..n]));
    AfterPop(last, s, n, r);
    JobsWithout(last, s[..n], r[..n - 1]);
  }

  lemma JobsWithout(last: nat, all: seq<Entry>, r: seq<Entry>)
    requires all != [] && multiset(r) == multiset(all) - multiset{all[0]}
    ensures multiset(Jobs(last, r)) == multiset(Jobs(last, all)) - multiset{JobOf(last, all[0])}
  {
    assert all == [all[0]] + all[1..];
    JobsContent(last, r, all[1..]);
    JobsRest(last, all);
  }

  lemma EarliestEntry(last: nat, s: seq<Entry>, n: nat)
    requires 0 < n <= |s| && Windowed(last, s, n) && HeapFrom(s, 0, n, RankAt(last))
    ensures s[0] in Entries(s[..n])
    ensures forall e :: e in Entries(s[..n]) ==> TrueTime(last, s[0].time) <= TrueTime(last, e.time)
  {
    FirstIsEarliest(last, s, n);
    forall e | e in Entries(s[..n]) ensures TrueTime(last, s[0].time) <= TrueTime(last, e.time) {
      var i :| 0 <= i < n && s[..n][i] == e;
    }
    assert s[..n][0] == s[0];
  }

  // What is left after the earliest entry is gone, seen from the window it opens.
  lemma AfterPop(last: nat, s: seq<Entry>, n: nat, r: seq<Entry>)
    requires 1 < n <= |s| && Windowed(last, s, n) && HeapFrom(s, 0, n, RankAt(last))
    requires Within(r, n - 1, Entries(s[..n])) && HeapFrom(r, 0, n - 1, RankAt(last))
    ensures var due := TrueTime(last, s[0].time);
      && Windowed(due, r, n - 1) && HeapFrom(r, 0, n - 1, RankAt(due))
      && Jobs(due, r[..n - 1]) == Jobs(last, r[..n - 1])
  {
    EarliestEntry(last, s, n);
    WindowedEntries(last, s, n);
    MoveWindow(last, s[0], r, n - 1, Entries(s[..n]));
  }

  lemma JobsRest(last: nat, s: seq<Entry>)
    requires s != []
    ensures multiset(Jobs(last, s[1..])) == multiset(Jobs(last, s)) - multiset{JobOf(last, s[0])}
  {
    assert Jobs(last, s) == [JobOf(last, s[0])] + Jobs(last, s[1..]);
  }

  // Seen from the window the earliest entry opens, nothing about the others changes.
  lemma MoveWindow(last: nat, first: Entry, r: seq<Entry>, n: nat, d: set<Entry>)
    requires Within(r, n, d) && HeapFrom(r, 0, n, RankAt(last)) && first in d
    requires forall e :: e in d ==> InWindow(last, e) && TrueTime(last, first.time) <= TrueTime(last, e.time)
    ensures var last' := TrueTime(last, first.time);
      && Windowed(last', r, n) && HeapFrom(r, 0, n, RankAt(last'))
      && Jobs(last', r[..n]) == Jobs(last, r[..n])
  {
    var last' := TrueTime(last, first.time);
    forall i | 0 <= i < n ensures InWindow(last', r[i]) && TrueTime(last', r[i].time) == TrueTime(last, r[i].time) {
      WindowMoves(last, r[i], first);
    }
    forall i | 0 < i < n ensures Ordered(r, i, RankAt(last')) {
      assert Ordered(r, i, RankAt(last));
    }
  }

  // ---------- runs ----------

  // One operation of the queue on the unwrapped clock. Idle moves the window of an empty one.
  datatype Op = Push(job: Job) | Pop(job: Job) | Idle(now: nat)

  datatype Clocked = Clocked(jobs: multiset<Job>, last: nat, nextId: nat)

  // What HeapPush, HeapPop and Restart promise. Ids may skip, for other queues take some.
  ghost predicate OpStep(a: Clocked, op: Op, b: Clocked) {
    match op
    case Push(job) =>
      && a.last <= job.due < a.last + HALF && job.id >= a.nextId
      && b == Clocked(a.jobs + multiset{job}, a.last, job.id + 1)
    case Pop(job) =>
      && job in a.jobs && (forall other :: other in a.jobs ==> !Before(other, job))
      && b == Clocked(a.jobs - multiset{job}, job.due, a.nextId)
    case Idle(now) =>
      a.jobs == multiset{} && now >= a.last && b == a.(last := now)
  }

  // The postconditions of HeapPush and HeapPop, read as steps.
  lemma PushIsStep(before: seq<Job>, after: seq<Job>, last: nat, e: Entry, seen: nat)
    requires InWindow(last, e) && seen <= e.id
    requires multiset(after) == multiset(before) + multiset{JobOf(last, e)}
    ensures OpStep(Clocked(multiset(before), last, seen), Push(JobOf(last, e)),
        Clocked(multiset(after), last, e.id + 1))
  {
  }

  lemma PopIsStep(before: seq<Job>, after: seq<Job>, last: nat, job: Job, seen: nat)
    requires job in before && forall other :: other in before ==> !Before(other, job)
    requires multiset(after) == multiset(before) - multiset{job}
    ensures OpStep(Clocked(multiset(before), last, seen), Pop(job), Clocked(multiset(after), job.due, seen))
  {
    assert forall other :: other in multiset(before) ==> other in before;
  }

  ghost predicate OpRun(states: seq<Clocked>, ops: seq<Op>) {
    |states| == |ops| + 1 && forall i :: 0 <= i < |ops| ==> OpStep(states[i], ops[i], states[i + 1])
  }

  // How often the counter has wrapped when an id is taken.
  function Lap(id: nat): nat {
    id / WORD
  }

  // Due in time order, and jobs due together in push order unless the counter has wrapped
  // between their pushes.
  predicate InOrder(a: Job, b: Job) {
    a.due <= b.due && (a.due == b.due && Lap(a.id) == Lap(b.id) ==> a.id < b.id)
  }

  predicate AllInOrder(out: seq<Job>) {
    forall i, j :: 0 <= i < j < |out| ==> InOrder(out[i], out[j])
  }

  // Ids below nextId are used up, no two waiting jobs share one, no waiting job is due before
  // the window, and everything popped was popped in order.
  ghost predicate RunInv(c: Clocked, popped: seq<Job>) {
    && AllInOrder(popped)
    && (forall p :: p in popped ==> p.due <= c.last && p.id < c.nextId)
    && (forall job :: job in c.jobs ==> c.last <= job.due && job.id < c.nextId && c.jobs[job] == 1)
    && (forall x, y :: x in c.jobs && y in c.jobs && x.id == y.id ==> x == y)
    && (forall p, job :: p in popped && job in c.jobs ==> InOrder(p, job))
  }

  // A queue nothing was pushed to, whatever the counter has reached.
  lemma FreshRunInv(now: nat, counter: nat)
    ensures RunInv(Clocked(multiset{}, now, counter), [])
  {
  }

  function Out(op: Op): seq<Job> {
    if op.Pop? then [op.job] else []
  }

  lemma OpStepKeeps(a: Clocked, op: Op, b: Clocked, popped: seq<Job>)
    requires OpStep(a, op, b) && RunInv(a, popped)
    ensures RunInv(b, popped + Out(op))
  {
    if op.Pop? {
      PopKeeps(a, op.job, b, popped);
    } else {
      assert popped + [] == popped;
    }
  }

  lemma PopKeeps(a: Clocked, job: Job, b: Clocked, popped: seq<Job>)
    requires OpStep(a, Pop(job), b) && RunInv(a, popped)
    ensures RunInv(b, popped + [job])
  {
    assert b.jobs[job] == 0;
    forall other | other in b.jobs ensures InOrder(job, other) {
      assert other in a.jobs && !Before(other, job);
      if other.due == job.due && Lap(other.id) == Lap(job.id) {
        SameLapOrder(job.id, other.id);
      }
    }
  }

  lemma SameLapOrder(m: nat, n: nat)
    requires m / WORD == n / WORD
    ensures m < n <==> Field(m) < Field(n)
  {
    assert m == WORD * (m / WORD) + m % WORD && n == WORD * (n / WORD) + n % WORD;
  }

  // The jobs popped in a run, in order.
  function PoppedJobs(ops: seq<Op>): seq<Job> {
    if ops == [] then [] else PoppedJobs(ops[..|ops| - 1]) + Out(ops[|ops| - 1])
  }

  lemma PoppedNext(ops: seq<Op>, k: nat)
    requires k < |ops|
    ensures PoppedJobs(ops[..k + 1]) == PoppedJobs(ops[..k]) + Out(ops[k])
  {
    assert ops[..k + 1][..k] == ops[..k];
  }

  lemma {:induction false} RunKeeps(states: seq<Clocked>, ops: seq<Op>, k: nat)
    requires OpRun(states, ops) && RunInv(states[0], []) && k <= |ops|
    ensures RunInv(states[k], PoppedJobs(ops[..k]))
  {
    if k > 0 {
      RunKeeps(states, ops, k - 1);
      PoppedNext(ops, k - 1);
      OpStepKeeps(states[k - 1], ops[k - 1], states[k], PoppedJobs(ops[..k - 1]));
    }
  }

  // Over any run from a fresh queue, jobs leave in order of unwrapped due time, and jobs due
  // together in push order unless the counter wrapped between their pushes.
  lemma RunPopsInOrder(states: seq<Clocked>, ops: seq<Op>, now: nat, counter: nat)
    requires OpRun(states, ops) && states[0] == Clocked(multiset{}, now, counter)
    ensures AllInOrder(PoppedJobs(ops))
  {
    FreshRunInv(now, counter);
    RunKeeps(states, ops, |ops|);
    assert ops[..|ops|] == ops;
  }

  // ---------- when the id counter wraps ----------

  // Of two pushes for one time, fewer than 2^32 apart, the comparison puts the first one first
  // exactly when the counter does not wrap between them.
  lemma SameTimeOrderIff(time: nat, m: nat, n: nat, callback: int, args: int, callback': int, args': int)
    requires m < n < m + WORD
    ensures TimeLessThan(Entry(time, m, callback, args), Entry(time, n, callback', args')) <==> Lap(m) == Lap(n)
    ensures TimeLessThan(Entry(time, n, callback', args'), Entry(time, m, callback, args)) <==> Lap(m) != Lap(n)
  {
    FieldOrderIff(m, n);
  }

  lemma FieldOrderIff(m: nat, n: nat)
    requires m < n < m + WORD
    ensures Field(m) < Field(n) <==> Lap(m) == Lap(n)
    ensures Field(m) != Field(n)
  {
    assert m == WORD * Lap(m) + Field(m) && n == WORD * Lap(n) + Field(n);
    if Lap(m) != Lap(n) { assert Lap(n) >= Lap(m) + 1; }
  }

  // In any run, of two jobs due together that wait together, and were pushed fewer than 2^32
  // pushes apart, the one that leaves was pushed first exactly when the counter did not wrap
  // between them.
  lemma RunOrderIff(states: seq<Clocked>, ops: seq<Op>, now: nat, counter: nat, k: nat, other: Job)
    requires OpRun(states, ops) && states[0] == Clocked(multiset{}, now, counter)
    requires k < |ops| && ops[k].Pop? && other in states[k].jobs && other != ops[k].job && other.due == ops[k].job.due
    requires other.id < ops[k].job.id + WORD && ops[k].job.id < other.id + WORD
    ensures ops[k].job.id < other.id <==> Lap(ops[k].job.id) == Lap(other.id)
  {
    var job := ops[k].job;
    FreshRunInv(now, counter);
    RunKeeps(states, ops, k);
    assert OpStep(states[k], ops[k], states[k + 1]) && !Before(other, job);
    if job.id < other.id { FieldOrderIff(job.id, other.id); } else { FieldOrderIff(other.id, job.id); }
  }

  // The first push after a wrap overtakes the last one before it.
  lemma WrappedIdOvertakes(time: nat, callback: int, args: int)
    ensures TimeLessThan(Entry(time, WORD, callback, args), Entry(time, WORD - 1, callback, args))
  {
    SameTimeOrderIff(time, WORD - 1, WORD, callback, args, callback, args);
  }
}
