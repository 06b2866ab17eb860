// esp8266/esppwm.c: the timer arithmetic, then the compiled toggle table, what it means
// and how each rewriting step of pwm_start keeps that meaning.

module PwmTicks {

  const PWM_DEPTH: nat := 1023
  const MAX_PERIOD: nat := 1_000_000

  // US_TO_RTC_TIMER_TICKS in 32-bit arithmetic, for an 80 MHz bus clock divided by 16.
  function Ticks(us: nat): nat {
    if us == 0 then 0
    else if us > 0x35A then
      ((us / 4) * (5_000_000 / 250_000) + (us % 4) * (5_000_000 / 1_000_000)) % 0x1_0000_0000
    else ((us * 5_000_000) % 0x1_0000_0000) / 1_000_000
  }

  lemma ScaledQuotient(us: nat)
    ensures us * 5_000_000 / 1_000_000 == 5 * us
  {
  }

  lemma SplitTicks(us: nat)
    ensures (us / 4) * (5_000_000 / 250_000) + (us % 4) * (5_000_000 / 1_000_000) == 5 * us
  {
  }

  lemma NoWrap(x: nat)
    requires x < 0x1_0000_0000
    ensures x % 0x1_0000_0000 == x
  {
  }

  // Both branches of the macro are exact: five timer ticks a microsecond.
  lemma TicksExact(us: nat)
    requires us <= MAX_PERIOD
    ensures Ticks(us) == 5 * us
  {
    if us > 0x35A {
      SplitTicks(us);
      NoWrap(5 * us);
    } else {
      NoWrap(us * 5_000_000);
      ScaledQuotient(us);
    }
  }

  // Step 1's time for one channel; the product is a 32-bit one.
  function DutyTicks(duty: nat, period: nat): nat {
    Ticks((period * duty) % 0x1_0000_0000 / PWM_DEPTH)
  }

  lemma ShareBound(product: nat, period: nat)
    requires product <= period * PWM_DEPTH
    ensures product / PWM_DEPTH <= period
    ensures product == period * PWM_DEPTH ==> product / PWM_DEPTH == period
  {
  }

  lemma MulMono(a: nat, b: nat, c: nat)
    requires b <= c
    ensures a * b <= a * c
  {
  }

  // The product never wraps, and zero and full duty come out exactly at the two ends.
  lemma DutyTicksExact(duty: nat, period: nat)
    requires duty <= PWM_DEPTH && period <= MAX_PERIOD
    ensures DutyTicks(duty, period) == 5 * (period * duty / PWM_DEPTH) <= 5 * period
    ensures duty == 0 ==> DutyTicks(duty, period) == 0
    ensures duty == PWM_DEPTH ==> DutyTicks(duty, period) == 5 * period
  {
    var product := period * duty;
    MulMono(period, duty, PWM_DEPTH);
    NoWrap(product);
    ShareBound(product, period);
    TicksExact(product / PWM_DEPTH);
  }
}

module PwmTable {

  // One slot of pwm_single_toggle. The two 16-bit masks are sets of pin numbers.
  datatype Entry = Entry(gpioSet: set<nat>, gpioClear: set<nat>, hTime: nat)

  // One active channel as the table sees it: its pin and the ticks it is high in a period.
  datatype Pulse = Pulse(pin: nat, ticks: nat)

  // Pins that stay at one level for some ticks.
  datatype Segment = Segment(ticks: nat, high: set<nat>)

  function Pins(pulses: seq<Pulse>): set<nat> {
    set c | c in pulses :: c.pin
  }

  ghost predicate ValidPulses(pulses: seq<Pulse>, total: nat) {
    && total > 0
    && (forall i :: 0 <= i < |pulses| ==> pulses[i].ticks <= total)
    && (forall i, j :: 0 <= i < j < |pulses| ==> pulses[i].pin != pulses[j].pin)
  }

  // ---------- the rewriting steps of pwm_start, on values ----------

  // Step 1: one clearing entry a channel, then the entry that starts the period.
  function InitTable(pulses: seq<Pulse>, total: nat): seq<Entry> {
    seq(|pulses|, i requires 0 <= i < |pulses| =>
      Entry({}, {pulses[i].pin}, pulses[i].ticks))
    + [Entry(Pins(pulses), {}, total)]
  }

  // Step 2: insertion from the right end, behind entries of the same time.
  function Insert(s: seq<Entry>, e: Entry): seq<Entry> {
    if s == [] || s[|s| - 1].hTime <= e.hTime then s + [e]
    else Insert(s[..|s| - 1], e) + [s[|s| - 1]]
  }

  function InsertSort(s: seq<Entry>): seq<Entry> {
    if s == [] then [] else Insert(InsertSort(s[..|s| - 1]), s[|s| - 1])
  }

  // Step 3: entry i is folded into entry i-1 where the times agree.
  function Combine(a: Entry, b: Entry): Entry {
    Entry(a.gpioSet + b.gpioSet, a.gpioClear + b.gpioClear, a.hTime)
  }

  function MergeAt(s: seq<Entry>, i: nat): (r: seq<Entry>)
    requires 0 < i < |s|
  {
    if s[i].hTime == s[i - 1].hTime then s[..i - 1] + [Combine(s[i - 1], s[i])] + s[i + 1..]
    else s
  }

  function MergeFrom(s: seq<Entry>, i: nat): seq<Entry>
    requires i < |s|
    decreases i
  {
    if i == 0 then s else MergeFrom(MergeAt(s, i), i - 1)
  }

  // Step 4: absolute times become waiting times, by a 32-bit subtraction.
  function Minus32(a: nat, b: nat): nat {
    if a >= b then a - b else (a - b) % 0x1_0000_0000
  }

  function DeltaAt(s: seq<Entry>, i: nat): Entry
    requires i < |s|
  {
    if i == 0 then s[0] else s[i].(hTime := Minus32(s[i].hTime, s[i - 1].hTime))
  }

  function Deltas(s: seq<Entry>): seq<Entry> {
    seq(|s|, i requires 0 <= i < |s| => DeltaAt(s, i))
  }

  // Step 5: the entry that ends the period clears nothing.
  function CleanLast(s: seq<Entry>): seq<Entry>
    requires s != []
  {
    s[|s| - 1 := s[|s| - 1].(gpioClear := {})]
  }

  // Step 6: a first entry at time zero moves its pins into the last entry.
  function StripZero(s: seq<Entry>): seq<Entry>
    requires s != []
  {
    if s[0].hTime != 0 then s
    else
      var last := s[|s| - 1];
      var s' := s[|s| - 1 := Entry(last.gpioSet - s[0].gpioClear, last.gpioClear + s[0].gpioClear, last.hTime)];
      s'[1..]
  }

  function MergeEqual(s: seq<Entry>): seq<Entry> {
    if s == [] then [] else MergeFrom(s, |s| - 1)
  }

  function Merged(pulses: seq<Pulse>, total: nat): seq<Entry> {
    MergeEqual(InsertSort(InitTable(pulses, total)))
  }

  function Compile(pulses: seq<Pulse>, total: nat): seq<Entry> {
    var s := Deltas(Merged(pulses, total));
    if s == [] then [] else StripZero(CleanLast(s))
  }

  // ---------- what a table with absolute times says ----------

  // Some entry clears pin p at time t.
  ghost predicate ClearedAt(s: seq<Entry>, p: nat, t: nat) {
    exists i :: 0 <= i < |s| && s[i].hTime == t && p in s[i].gpioClear
  }

  ghost predicate SetBy(s: seq<Entry>, p: nat) {
    exists i :: 0 <= i < |s| && p in s[i].gpioSet
  }

  // Some channel on pin p has a high time of exactly t ticks.
  ghost predicate DueAt(pulses: seq<Pulse>, p: nat, t: nat) {
    exists i :: 0 <= i < |pulses| && pulses[i].pin == p && pulses[i].ticks == t
  }

  // The meaning of a table for pin p at time t: it is cleared just when its channel's
  // high time is over, and the table raises it just when it is active.
  ghost predicate Says(s: seq<Entry>, pulses: seq<Pulse>, p: nat, t: nat) {
    && (ClearedAt(s, p, t) <==> DueAt(pulses, p, t))
    && (SetBy(s, p) <==> p in Pins(pulses))
  }

  // No time exceeds the period, some entry sits at its end, only such entries set pins, and
  // every earlier one clears some pin.
  ghost predicate BoundedAt(e: Entry, total: nat) {
    e.hTime == total || (e.hTime < total && e.gpioSet == {} && e.gpioClear != {})
  }

  ghost predicate Bounded(s: seq<Entry>, total: nat) {
    && (forall i :: 0 <= i < |s| ==> BoundedAt(s[i], total))
    && (exists i :: 0 <= i < |s| && s[i].hTime == total)
  }

  ghost predicate AtMostNext(s: seq<Entry>, i: nat) {
    i + 1 < |s| && s[i].hTime <= s[i + 1].hTime
  }

  ghost predicate BelowNext(s: seq<Entry>, i: nat) {
    i + 1 < |s| && s[i].hTime < s[i + 1].hTime
  }

  ghost predicate Sorted(s: seq<Entry>) {
    forall i: nat {:trigger AtMostNext(s, i)} :: i + 1 < |s| ==> AtMostNext(s, i)
  }

  ghost predicate StrictFrom(s: seq<Entry>, k: nat) {
    forall i: nat {:trigger BelowNext(s, i)} :: k <= i && i + 1 < |s| ==> BelowNext(s, i)
  }

  lemma {:induction false} StrictPair(s: seq<Entry>, k: nat, i: nat, j: nat)
    requires StrictFrom(s, k) && k <= i < j < |s|
    ensures s[i].hTime < s[j].hTime
    decreases j
  {
    assert BelowNext(s, j - 1);
    if i < j - 1 { StrictPair(s, k, i, j - 1); }
  }

  lemma InitSays(pulses: seq<Pulse>, total: nat, p: nat, t: nat)
    ensures Says(InitTable(pulses, total), pulses, p, t)
  {
    var s := InitTable(pulses, total);
    if i :| 0 <= i < |pulses| && pulses[i].pin == p && pulses[i].ticks == t {
      assert s[i].hTime == t && p in s[i].gpioClear;
    }
    assert p in s[|pulses|].gpioSet <==> p in Pins(pulses);
  }

  lemma InitBounded(pulses: seq<Pulse>, total: nat)
    requires ValidPulses(pulses, total)
    ensures Bounded(InitTable(pulses, total), total)
  {
    var s := InitTable(pulses, total);
    assert s[|pulses|].hTime == total;
    forall i | 0 <= i < |pulses| ensures BoundedAt(s[i], total) {
      assert pulses[i].pin in s[i].gpioClear;
    }
  }

  ghost predicate Covers(s: seq<Entry>, r: seq<Entry>) {
    forall i :: 0 <= i < |s| ==> s[i] in r
  }

  lemma CoversKeeps(s: seq<Entry>, r: seq<Entry>, p: nat, t: nat)
    requires Covers(s, r)
    ensures ClearedAt(s, p, t) ==> ClearedAt(r, p, t)
    ensures SetBy(s, p) ==> SetBy(r, p)
  {
    if i :| 0 <= i < |s| && s[i].hTime == t && p in s[i].gpioClear {
      assert s[i] in r;
    }
    if i :| 0 <= i < |s| && p in s[i].gpioSet {
      assert s[i] in r;
    }
  }

  lemma CoversBounded(s: seq<Entry>, r: seq<Entry>, total: nat)
    requires Covers(s, r) && Covers(r, s) && Bounded(s, total)
    ensures Bounded(r, total)
  {
    var k :| 0 <= k < |s| && s[k].hTime == total;
    assert s[k] in r;
    forall i | 0 <= i < |r|
      ensures BoundedAt(r[i], total)
    {
      assert r[i] in s;
    }
  }

  lemma {:induction false} InsertKeeps(s: seq<Entry>, e: Entry)
    ensures |Insert(s, e)| == |s| + 1
    ensures multiset(Insert(s, e)) == multiset(s) + multiset{e}
  {
    if s != [] && s[|s| - 1].hTime > e.hTime {
      InsertKeeps(s[..|s| - 1], e);
      assert s == s[..|s| - 1] + [s[|s| - 1]];
    }
  }

  lemma {:induction false} InsertSorts(s: seq<Entry>, e: Entry)
    requires Sorted(s)
    ensures |Insert(s, e)| == |s| + 1 && Sorted(Insert(s, e))
    ensures Insert(s, e)[|s|] == if s == [] || s[|s| - 1].hTime <= e.hTime then e else s[|s| - 1]
  {
    var r := Insert(s, e);
    if s == [] || s[|s| - 1].hTime <= e.hTime {
      forall i: nat | i + 1 < |r| ensures AtMostNext(r, i) {
        if i + 1 < |s| { assert AtMostNext(s, i); }
      }
    } else {
      var front, last := s[..|s| - 1], s[|s| - 1];
      forall i: nat | i + 1 < |front| ensures AtMostNext(front, i) {
        assert AtMostNext(s, i);
      }
      InsertSorts(front, e);
      var f := Insert(front, e);
      forall i: nat | i + 1 < |r| ensures AtMostNext(r, i) {
        if i + 1 < |f| { assert AtMostNext(f, i); } else if front != [] { assert AtMostNext(s, |s| - 2); }
      }
    }
  }

  lemma {:induction false} InsertSortSorts(s: seq<Entry>)
    ensures Sorted(InsertSort(s))
  {
    if s != [] {
      InsertSortSorts(s[..|s| - 1]);
      InsertSorts(InsertSort(s[..|s| - 1]), s[|s| - 1]);
    }
  }

  lemma {:induction false} InsertSortPermutes(s: seq<Entry>)
    ensures multiset(InsertSort(s)) == multiset(s)
    ensures |InsertSort(s)| == |s|
  {
    if s != [] {
      var front, last := s[..|s| - 1], s[|s| - 1];
      InsertSortPermutes(front);
      InsertKeeps(InsertSort(front), last);
      assert s == front + [last];
    }
  }

  // Where index j of a table ends up when entries i-1 and i are folded.
  function MovedTo(i: nat, j: nat): nat
    requires i > 0
  {
    if j < i then j else j - 1
  }

  ghost predicate Below(e: Entry, m: Entry) {
    e.hTime == m.hTime && e.gpioSet <= m.gpioSet && e.gpioClear <= m.gpioClear
  }

  // Folding loses no entry, and every folded entry is made of members of the old table.
  lemma MergeAtMembers(s: seq<Entry>, i: nat)
    requires 0 < i < |s| && s[i].hTime == s[i - 1].hTime
    ensures var r := MergeAt(s, i);
      && |r| == |s| - 1
      && (forall j :: 0 <= j < |s| ==> Below(s[j], r[MovedTo(i, j)]))
      && (forall j :: 0 <= j < |r| && j != i - 1 ==> r[j] == if j < i then s[j] else s[j + 1])
      && r[i - 1] == Combine(s[i - 1], s[i])
  {
    var r := MergeAt(s, i);
    MergeAtPlaces(s, i);
    forall j | 0 <= j < |s|
      ensures Below(s[j], r[MovedTo(i, j)])
    {
      if j == i - 1 || j == i { assert MovedTo(i, j) == i - 1; }
    }
  }

  lemma MergeAtPlaces(s: seq<Entry>, i: nat)
    requires 0 < i < |s| && s[i].hTime == s[i - 1].hTime
    ensures var r := MergeAt(s, i);
      && |r| == |s| - 1
      && (forall j :: 0 <= j < |r| && j != i - 1 ==> r[j] == if j < i then s[j] else s[j + 1])
      && r[i - 1] == Combine(s[i - 1], s[i])
  {
    var r := MergeAt(s, i);
    var left, right := s[..i - 1], s[i + 1..];
    assert r == left + [Combine(s[i - 1], s[i])] + right;
    assert r[i - 1] == Combine(s[i - 1], s[i]);
    forall j | 0 <= j < |r| && j != i - 1
      ensures r[j] == if j < i then s[j] else s[j + 1]
    {
      if j < i { assert r[j] == left[j]; } else { assert r[j] == right[j - i]; }
    }
  }

  lemma MergeAtSays(s: seq<Entry>, i: nat, p: nat, t: nat)
    requires 0 < i < |s|
    ensures ClearedAt(s, p, t) <==> ClearedAt(MergeAt(s, i), p, t)
    ensures SetBy(s, p) <==> SetBy(MergeAt(s, i), p)
  {
    if s[i].hTime == s[i - 1].hTime {
      var r := MergeAt(s, i);
      MergeAtMembers(s, i);
      if j :| 0 <= j < |s| && s[j].hTime == t && p in s[j].gpioClear {
        assert Below(s[j], r[MovedTo(i, j)]);
      }
      if j :| 0 <= j < |s| && p in s[j].gpioSet {
        assert Below(s[j], r[MovedTo(i, j)]);
      }
    }
  }

  lemma MergeAtBounded(s: seq<Entry>, i: nat, total: nat)
    requires 0 < i < |s| && Bounded(s, total)
    ensures Bounded(MergeAt(s, i), total)
  {
    if s[i].hTime == s[i - 1].hTime {
      MergeAtMembers(s, i);
      var k :| 0 <= k < |s| && s[k].hTime == total;
      assert Below(s[k], MergeAt(s, i)[MovedTo(i, k)]);
    }
  }

  lemma {:induction false} MergeFromSays(s: seq<Entry>, i: nat, p: nat, t: nat)
    requires i < |s|
    ensures ClearedAt(s, p, t) <==> ClearedAt(MergeFrom(s, i), p, t)
    ensures SetBy(s, p) <==> SetBy(MergeFrom(s, i), p)
    decreases i
  {
    if i != 0 {
      MergeAtSays(s, i, p, t);
      MergeFromSays(MergeAt(s, i), i - 1, p, t);
    }
  }

  lemma MergeAtStrict(s: seq<Entry>, i: nat)
    requires 0 < i < |s| && Sorted(s) && StrictFrom(s, i)
    ensures Sorted(MergeAt(s, i)) && StrictFrom(MergeAt(s, i), i - 1)
  {
    var r := MergeAt(s, i);
    assert AtMostNext(s, i - 1);
    if s[i].hTime == s[i - 1].hTime {
      forall j: nat | j + 1 < |r| ensures AtMostNext(r, j) && (i - 1 <= j ==> BelowNext(r, j)) {
        if j < i - 1 { assert AtMostNext(s, j); } else { assert BelowNext(s, j + 1); }
      }
    } else {
      forall j: nat | i - 1 <= j && j + 1 < |s| ensures BelowNext(s, j) {
        if j >= i { assert BelowNext(s, j); }
      }
    }
  }

  lemma {:induction false} MergeFromStrict(s: seq<Entry>, i: nat)
    requires i < |s| && Sorted(s) && StrictFrom(s, i)
    ensures StrictFrom(MergeFrom(s, i), 0)
    decreases i
  {
    if i != 0 {
      MergeAtStrict(s, i);
      MergeFromStrict(MergeAt(s, i), i - 1);
    }
  }

  lemma {:induction false} MergeFromBounded(s: seq<Entry>, i: nat, total: nat)
    requires i < |s| && Bounded(s, total)
    ensures Bounded(MergeFrom(s, i), total)
    decreases i
  {
    if i != 0 {
      MergeAtBounded(s, i, total);
      MergeFromBounded(MergeAt(s, i), i - 1, total);
    }
  }

  lemma {:induction false} MergeFromLength(s: seq<Entry>, i: nat)
    requires i < |s|
    ensures 0 < |MergeFrom(s, i)| <= |s|
    decreases i
  {
    if i != 0 { MergeFromLength(MergeAt(s, i), i - 1); }
  }

  lemma SameMembers(s: seq<Entry>, r: seq<Entry>)
    requires multiset(s) == multiset(r)
    ensures Covers(s, r) && Covers(r, s)
  {
    forall i | 0 <= i < |s| ensures s[i] in r { assert s[i] in multiset(s); }
    forall i | 0 <= i < |r| ensures r[i] in s { assert r[i] in multiset(r); }
  }

  lemma MergeEqualRises(t: seq<Entry>, total: nat)
    requires t != [] && Sorted(t) && Bounded(t, total)
    ensures 0 < |MergeEqual(t)| <= |t| && StrictFrom(MergeEqual(t), 0) && Bounded(MergeEqual(t), total)
  {
    MergeFromStrict(t, |t| - 1);
    MergeFromBounded(t, |t| - 1, total);
    MergeFromLength(t, |t| - 1);
  }

  lemma InsertSortBounded(s: seq<Entry>, total: nat)
    requires Bounded(s, total)
    ensures Bounded(InsertSort(s), total)
  {
    InsertSortPermutes(s);
    SameMembers(s, InsertSort(s));
    CoversBounded(s, InsertSort(s), total);
  }

  // After steps 1 to 3 the times rise strictly up to the end of the period.
  lemma MergedRises(pulses: seq<Pulse>, total: nat)
    requires ValidPulses(pulses, total)
    ensures var m := Merged(pulses, total);
      0 < |m| <= |pulses| + 1 && StrictFrom(m, 0) && Bounded(m, total)
  {
    var s := InitTable(pulses, total);
    InitBounded(pulses, total);
    InsertSortBounded(s, total);
    InsertSortSorts(s);
    InsertSortPermutes(s);
    MergeEqualRises(InsertSort(s), total);
  }

  lemma InsertSortSays(s: seq<Entry>, p: nat, t: nat)
    ensures ClearedAt(InsertSort(s), p, t) <==> ClearedAt(s, p, t)
    ensures SetBy(InsertSort(s), p) <==> SetBy(s, p)
  {
    InsertSortPermutes(s);
    SameMembers(s, InsertSort(s));
    CoversKeeps(s, InsertSort(s), p, t);
    CoversKeeps(InsertSort(s), s, p, t);
  }

  // ... and the meaning of step 1 is intact.
  lemma MergedSays(pulses: seq<Pulse>, total: nat, p: nat, t: nat)
    ensures Says(Merged(pulses, total), pulses, p, t)
  {
    var s := InitTable(pulses, total);
    InitSays(pulses, total, p, t);
    InsertSortSays(s, p, t);
    InsertSortPermutes(s);
    MergeFromSays(InsertSort(s), |s| - 1, p, t);
  }

  // Only the last entry sets pins, and it sets every active one.
  lemma MergedEnd(pulses: seq<Pulse>, total: nat)
    requires ValidPulses(pulses, total)
    ensures var m := Merged(pulses, total);
      && m != [] && m[|m| - 1].hTime == total && m[|m| - 1].gpioSet == Pins(pulses)
      && forall i :: 0 <= i < |m| - 1 ==> m[i].gpioSet == {}
  {
    MergedRises(pulses, total);
    var m := Merged(pulses, total);
    var k :| 0 <= k < |m| && m[k].hTime == total;
    if k < |m| - 1 { StrictPair(m, 0, k, |m| - 1); }
    forall i | 0 <= i < |m| - 1 ensures m[i].gpioSet == {} {
      StrictPair(m, 0, i, |m| - 1);
    }
    forall p ensures p in m[|m| - 1].gpioSet <==> p in Pins(pulses) {
      MergedSays(pulses, total, p, 0);
    }
  }

  // ---------- interpreting a table of waiting times ----------

  // gpio_output_set: raise the set mask, lower the clear mask, leave other pins alone.
  function Apply(e: Entry, high: set<nat>): set<nat> {
    (high + e.gpioSet) - e.gpioClear
  }

  // What the pins do from the moment entry k's waiting time is loaded until the period ends.
  function Segments(t: seq<Entry>, k: nat, high: set<nat>): seq<Segment>
    requires k < |t|
    decreases |t| - k
  {
    [Segment(t[k].hTime, high)] +
    if k + 1 < |t| then Segments(t, k + 1, Apply(t[k], high)) else []
  }

  function TotalTicks(w: seq<Segment>): nat {
    if w == [] then 0 else w[0].ticks + TotalTicks(w[1..])
  }

  // The pins that are high during tick tau of a waveform.
  function HighDuring(w: seq<Segment>, tau: nat): set<nat>
    requires tau < TotalTicks(w)
  {
    if tau < w[0].ticks then w[0].high else HighDuring(w[1..], tau - w[0].ticks)
  }

  function HighTicks(w: seq<Segment>, p: nat): nat {
    if w == [] then 0 else (if p in w[0].high then w[0].ticks else 0) + HighTicks(w[1..], p)
  }

  // m with absolute times, t with waiting times, agree at entry i.
  ghost predicate WaitsAt(m: seq<Entry>, t: seq<Entry>, i: nat)
    requires |m| == |t|
  {
    && i < |m|
    && m[i].hTime == t[i].hTime + (if i == 0 then 0 else m[i - 1].hTime)
    && (i < |m| - 1 ==> t[i].gpioClear == m[i].gpioClear && t[i].gpioSet == {})
  }

  ghost predicate Waits(m: seq<Entry>, t: seq<Entry>, k: nat) {
    |m| == |t| && forall i: nat {:trigger WaitsAt(m, t, i)} :: k <= i < |m| ==> WaitsAt(m, t, i)
  }

  // Some entry from k on has lowered p by time tau.
  ghost predicate LoweredFrom(m: seq<Entry>, k: nat, p: nat, tau: nat) {
    exists i :: k <= i < |m| && m[i].hTime <= tau && p in m[i].gpioClear
  }

  lemma {:induction false} WaitsRises(m: seq<Entry>, t: seq<Entry>, k: nat, i: nat)
    requires Waits(m, t, k) && k <= i < |m|
    ensures m[k].hTime <= m[i].hTime
    decreases i
  {
    if k < i {
      WaitsRises(m, t, k, i - 1);
      assert WaitsAt(m, t, i);
    }
  }

  lemma {:induction false} SegmentsTotal(m: seq<Entry>, t: seq<Entry>, k: nat, high: set<nat>)
    requires k < |t| && Waits(m, t, k)
    ensures TotalTicks(Segments(t, k, high)) == m[|m| - 1].hTime - if k == 0 then 0 else m[k - 1].hTime
    decreases |t| - k
  {
    assert WaitsAt(m, t, k);
    if k + 1 < |t| {
      assert Segments(t, k, high)[1..] == Segments(t, k + 1, Apply(t[k], high));
      SegmentsTotal(m, t, k + 1, Apply(t[k], high));
    } else {
      assert Segments(t, k, high)[1..] == [];
    }
  }

  // From entry k on, a pin stays high until an entry of m clears it.
  lemma {:induction false} SegmentsMeaning(m: seq<Entry>, t: seq<Entry>, k: nat, high: set<nat>, tau: nat, p: nat)
    requires k < |t| && Waits(m, t, k)
    requires (if k == 0 then 0 else m[k - 1].hTime) <= tau < m[|m| - 1].hTime
    ensures var from := if k == 0 then 0 else m[k - 1].hTime;
      && TotalTicks(Segments(t, k, high)) == m[|m| - 1].hTime - from
      && (p in HighDuring(Segments(t, k, high), tau - from) <==> p in high && !LoweredFrom(m, k, p, tau))
    decreases |t| - k
  {
    var from := if k == 0 then 0 else m[k - 1].hTime;
    var w := Segments(t, k, high);
    SegmentsTotal(m, t, k, high);
    assert WaitsAt(m, t, k);
    if tau < m[k].hTime {
      forall i | k <= i < |m| ensures tau < m[i].hTime { WaitsRises(m, t, k, i); }
    } else {
      var high' := Apply(t[k], high);
      assert k + 1 < |t|;
      assert w[1..] == Segments(t, k + 1, high');
      SegmentsMeaning(m, t, k + 1, high', tau, p);
      assert HighDuring(w, tau - from) == HighDuring(w[1..], tau - m[k].hTime);
      LoweredStep(m, k, p, tau);
    }
  }

  lemma LoweredStep(m: seq<Entry>, k: nat, p: nat, tau: nat)
    requires k < |m| && m[k].hTime <= tau
    ensures LoweredFrom(m, k, p, tau) <==> p in m[k].gpioClear || LoweredFrom(m, k + 1, p, tau)
  {
  }

  // ---------- main result ----------

  // A waveform over one period with every active pin high for exactly its own leading
  // tick count, low for the rest, and every other pin untouched.
  ghost predicate KeepsDuties(w: seq<Segment>, pulses: seq<Pulse>, total: nat, before: set<nat>) {
    && TotalTicks(w) == total
    && (forall tau, c :: 0 <= tau < total && c in pulses ==>
          (c.pin in HighDuring(w, tau) <==> tau < c.ticks))
    && (forall tau, p :: 0 <= tau < total && p !in Pins(pulses) ==>
          (p in HighDuring(w, tau) <==> p in before))
  }

  // What a compiled table looks like, whatever the duties.
  ghost predicate WellFormed(t: seq<Entry>, pulses: seq<Pulse>, total: nat) {
    && 0 < |t| <= |pulses| + 1
    && (forall i :: 0 <= i < |t| ==> t[i].hTime > 0 && t[i].gpioSet !! t[i].gpioClear)
    && (forall i :: 0 <= i < |t| - 1 ==> t[i].gpioSet == {})
    && (forall i :: 0 <= i < |t| ==> t[i].gpioSet + t[i].gpioClear <= Pins(pulses))
  }

  lemma {:induction false} SegmentsTail(u: seq<Entry>, k: nat, high: set<nat>)
    requires k + 1 < |u|
    ensures Segments(u[1..], k, high) == Segments(u, k + 1, high)
    decreases |u| - k
  {
    if k + 2 < |u| { SegmentsTail(u, k + 1, Apply(u[k + 1], high)); }
  }

  lemma DeltasWait(m: seq<Entry>)
    requires m != [] && StrictFrom(m, 0)
    requires forall i :: 0 <= i < |m| - 1 ==> m[i].gpioSet == {}
    ensures Waits(m, CleanLast(Deltas(m)), 0)
    ensures forall i :: 0 < i < |m| ==> CleanLast(Deltas(m))[i].hTime > 0
  {
    var d, u := Deltas(m), CleanLast(Deltas(m));
    forall i: nat | i < |m| ensures WaitsAt(m, u, i) && (i > 0 ==> u[i].hTime > 0) {
      assert d[i] == DeltaAt(m, i);
      if i > 0 { assert BelowNext(m, i - 1); }
    }
  }

  // Replacing the masks of the last entry leaves the waiting times of the others alone.
  lemma WaitsUpdate(m: seq<Entry>, u: seq<Entry>, e: Entry)
    requires u != [] && Waits(m, u, 0) && e.hTime == u[|u| - 1].hTime
    ensures Waits(m, u[|u| - 1 := e], 1)
  {
    var v := u[|u| - 1 := e];
    forall i: nat | 1 <= i < |m| ensures WaitsAt(m, v, i) {
      assert WaitsAt(m, u, i);
    }
  }

  // The compiled table, seen from the merged one: entries k.. of u, with k = 1 exactly
  // when the entry at time zero was stripped into the last one.
  lemma CompileShape(pulses: seq<Pulse>, total: nat) returns (m: seq<Entry>, u: seq<Entry>, k: nat)
    requires ValidPulses(pulses, total)
    ensures m == Merged(pulses, total)
    ensures 0 < |m| == |u| <= |pulses| + 1 && m[|m| - 1].hTime == total
    ensures k <= 1 && k < |m| && (k == 1 <==> m[0].hTime == 0)
    ensures Compile(pulses, total) == u[k..]
    ensures Waits(m, u, k)
    ensures forall i :: k <= i < |u| ==> u[i].hTime > 0
    ensures var first := if k == 1 then m[0].gpioClear else {};
      u[|u| - 1].gpioSet == Pins(pulses) - first && u[|u| - 1].gpioClear == first
  {
    MergedRises(pulses, total);
    MergedEnd(pulses, total);
    m := Merged(pulses, total);
    var d := CleanLast(Deltas(m));
    DeltasWait(m);
    var end := d[|d| - 1];
    assert end.gpioSet == Pins(pulses) && end.gpioClear == {};
    assert Compile(pulses, total) == StripZero(d);
    assert d[0].hTime == m[0].hTime && d[0].gpioClear == if |m| == 1 then {} else m[0].gpioClear;
    u, k := d, 0;
    assert d[0..] == d;
    if m[0].hTime == 0 {
      var e := Entry(Pins(pulses) - m[0].gpioClear, m[0].gpioClear, end.hTime);
      assert |m| > 1 && end.gpioClear + d[0].gpioClear == m[0].gpioClear;
      WaitsUpdate(m, d, e);
      u, k := d[|d| - 1 := e], 1;
    }
  }

  // Some channel on pin p has a high time of at most t ticks.
  ghost predicate DueBy(pulses: seq<Pulse>, p: nat, t: nat) {
    exists i :: 0 <= i < |pulses| && pulses[i].pin == p && pulses[i].ticks <= t
  }

  lemma PinDue(pulses: seq<Pulse>, total: nat, c: Pulse, t: nat)
    requires ValidPulses(pulses, total) && c in pulses
    ensures DueBy(pulses, c.pin, t) <==> c.ticks <= t
  {
    var i :| 0 <= i < |pulses| && pulses[i] == c;
  }

  lemma LoweredDue(pulses: seq<Pulse>, total: nat, p: nat, tau: nat)
    ensures LoweredFrom(Merged(pulses, total), 0, p, tau) <==> DueBy(pulses, p, tau)
  {
    var m := Merged(pulses, total);
    if i :| 0 <= i < |m| && m[i].hTime <= tau && p in m[i].gpioClear {
      MergedSays(pulses, total, p, m[i].hTime);
      assert ClearedAt(m, p, m[i].hTime);
    }
    if i :| 0 <= i < |pulses| && pulses[i].pin == p && pulses[i].ticks <= tau {
      MergedSays(pulses, total, p, pulses[i].ticks);
      assert DueAt(pulses, p, pulses[i].ticks);
    }
  }

  // The level of any pin at any tick of the period.
  lemma CompiledLevel(pulses: seq<Pulse>, total: nat, before: set<nat>, p: nat, tau: nat)
    requires ValidPulses(pulses, total) && tau < total
    ensures var t := Compile(pulses, total);
      && t != []
      && var w := Segments(t, 0, Apply(t[|t| - 1], before));
      && TotalTicks(w) == total
      && (p in HighDuring(w, tau) <==> (p in before || p in Pins(pulses)) && !DueBy(pulses, p, tau))
  {
    var m, u, k := CompileShape(pulses, total);
    var t := Compile(pulses, total);
    var high := Apply(t[|t| - 1], before);
    assert t[|t| - 1] == u[|u| - 1];
    if k == 1 { SegmentsTail(u, 0, high); } else { assert u[0..] == u; }
    SegmentsMeaning(m, u, k, high, tau, p);
    LoweredDue(pulses, total, p, tau);
  }

  // Main theorem. From the boundary at which the last entry is output, one pass over the
  // compiled table holds every active pin high for exactly its own
  // leading ticks of the period and low for the rest, whatever the pins were before.
  lemma CompiledTableKeepsDuties(pulses: seq<Pulse>, total: nat, before: set<nat>)
    requires ValidPulses(pulses, total)
    ensures var t := Compile(pulses, total);
      t != [] && KeepsDuties(Segments(t, 0, Apply(t[|t| - 1], before)), pulses, total, before)
  {
    CompiledLevel(pulses, total, before, 0, 0);
    var t := Compile(pulses, total);
    var w := Segments(t, 0, Apply(t[|t| - 1], before));
    forall tau: nat, c | tau < total && c in pulses
      ensures c.pin in HighDuring(w, tau) <==> tau < c.ticks
    {
      CompiledLevel(pulses, total, before, c.pin, tau);
      PinDue(pulses, total, c, tau);
    }
    forall tau: nat, p | tau < total && p !in Pins(pulses)
      ensures p in HighDuring(w, tau) <==> p in before
    {
      CompiledLevel(pulses, total, before, p, tau);
    }
  }

  // Shape of every compiled table: waiting times are positive, so no two outputs share an
  // instant; masks are disjoint; only the period entry raises pins.
  lemma CompiledTableWellFormed(pulses: seq<Pulse>, total: nat)
    requires ValidPulses(pulses, total)
    ensures WellFormed(Compile(pulses, total), pulses, total)
  {
    var m, u, k := CompileShape(pulses, total);
    MergedEnd(pulses, total);
    var t := Compile(pulses, total);
    forall i, p | 0 <= i < |m| && p in m[i].gpioClear
      ensures p in Pins(pulses)
    {
      MergedSays(pulses, total, p, m[i].hTime);
      assert ClearedAt(m, p, m[i].hTime);
    }
    forall i | 0 <= i < |t|
      ensures t[i].hTime > 0 && t[i].gpioSet !! t[i].gpioClear && t[i].gpioSet + t[i].gpioClear <= Pins(pulses)
      ensures i < |t| - 1 ==> t[i].gpioSet == {}
    {
      assert t[i] == u[i + k];
    }
  }

  // The same statement as an amount: the ticks a pin spends high add up to its own count.
  lemma {:induction false} HighTicksCount(w: seq<Segment>, p: nat, d: nat)
    requires d <= TotalTicks(w)
    requires forall tau :: 0 <= tau < TotalTicks(w) ==> (p in HighDuring(w, tau) <==> tau < d)
    ensures HighTicks(w, p) == d
  {
    if w != [] {
      var d' := if d < w[0].ticks then 0 else d - w[0].ticks;
      forall tau | 0 <= tau < TotalTicks(w[1..])
        ensures p in HighDuring(w[1..], tau) <==> tau < d'
      {
        assert HighDuring(w[1..], tau) == HighDuring(w, tau + w[0].ticks);
      }
      if w[0].ticks > 0 {
        assert HighDuring(w, 0) == HighDuring(w, w[0].ticks - 1) == w[0].high;
      }
      HighTicksCount(w[1..], p, d');
    }
  }

  lemma CompiledTableHighTicks(pulses: seq<Pulse>, total: nat, before: set<nat>, c: Pulse)
    requires ValidPulses(pulses, total) && c in pulses
    ensures var t := Compile(pulses, total);
      t != [] && HighTicks(Segments(t, 0, Apply(t[|t| - 1], before)), c.pin) == c.ticks
  {
    CompiledTableKeepsDuties(pulses, total, before);
    var t := Compile(pulses, total);
    HighTicksCount(Segments(t, 0, Apply(t[|t| - 1], before)), c.pin, c.ticks);
  }

  // The first entry of a table with several clears a channel that is neither off nor full on.
  lemma FirstEntryClears(pulses: seq<Pulse>, total: nat) returns (c: Pulse)
    requires ValidPulses(pulses, total) && |Compile(pulses, total)| > 1
    ensures c in pulses && 0 < c.ticks < total && c.pin in Compile(pulses, total)[0].gpioClear
  {
    var m, u, k := CompileShape(pulses, total);
    MergedRises(pulses, total);
    StrictPair(m, 0, k, |m| - 1);
    if k == 1 { StrictPair(m, 0, 0, 1); }
    assert BoundedAt(m[k], total) && WaitsAt(m, u, k);
    var p :| p in m[k].gpioClear;
    MergedSays(pulses, total, p, m[k].hTime);
    assert ClearedAt(m, p, m[k].hTime);
    var i :| 0 <= i < |pulses| && pulses[i].pin == p && pulses[i].ticks == m[k].hTime;
    c := pulses[i];
  }

  // The table has one entry, and the timer can stop, exactly when every channel is off or
  // full on.
  lemma SingleEntryIff(pulses: seq<Pulse>, total: nat)
    requires ValidPulses(pulses, total)
    ensures |Compile(pulses, total)| == 1 <==> forall c :: c in pulses ==> c.ticks == 0 || c.ticks == total
  {
    CompiledTableKeepsDuties(pulses, total, {});
    var t := Compile(pulses, total);
    if |t| > 1 {
      var c := FirstEntryClears(pulses, total);
    } else {
      var w := Segments(t, 0, Apply(t[0], {}));
      assert TotalTicks(w) == w[0].ticks + TotalTicks(w[1..]) && w[1..] == [];
      forall c | c in pulses ensures c.ticks == 0 || c.ticks == total {
        assert HighDuring(w, 0) == HighDuring(w, total - 1);
      }
    }
  }
}
