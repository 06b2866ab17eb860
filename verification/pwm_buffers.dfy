// esp8266/esppwm.c, the two table buffers: the interrupt handler may run between any two
// stores of pwm_start at which the timer can fire.

module PwmBuffers {
  import opened PwmTable
  import opened PwmHandler

  // Write carries the content of the other buffer after any store into an entry or into the
  // entry count. Check is the test of pwm_timer_down with, for a stopped timer, all up to the
  // load: before that store the timer cannot fire. Flip is the store into the toggle.
  datatype Action = Timer | Begin | Write(content: seq<Entry>) | Check(table: seq<Entry>) | Flip(table: seq<Entry>)

  datatype Phase = Idle | Building | Checked(started: bool)

  datatype Driver = Driver(m: Machine, phase: Phase)

  ghost predicate Enabled(d: Driver, a: Action)
    requires d.m.toggle < 2
  {
    match a
    case Timer => d.m.Valid() && !d.m.down
    case Begin => d.phase.Idle?
    case Write(_) => d.phase.Building?
    case Check(t) => d.phase.Building? && t != [] && d.m.Table(1 - d.m.toggle) == t
    case Flip(t) => d.phase.Checked? && d.m.Table(1 - d.m.toggle) == t
  }

  function Step(d: Driver, a: Action): Driver
    requires d.m.toggle < 2 && Enabled(d, a)
  {
    match a
    case Timer => d.(m := Interrupt(d.m))
    case Begin => d.(phase := Building)
    case Write(t) => d.(m := d.m.WithTable(1 - d.m.toggle, t))
    case Check(t) => Driver(Launch(d.m, t), Checked(d.m.down))
    case Flip(_) => Driver(PwmHandler.Flip(d.m), Idle)
  }

  // A build may begin when no build has finished since the handler last picked a table, and a
  // timer that pwm_start has just started may not end its period before the toggle flips.
  ghost predicate Safe(d: Driver, a: Action) {
    && (a.Begin? ==> d.m.live == d.m.toggle)
    && (a.Timer? && d.phase == Checked(true) ==> d.m.current < |d.m.Live()| - 1)
  }

  // The machine as it will be: after a direct start only the toggle is behind.
  function Settled(d: Driver): Machine {
    if d.phase == Checked(true) then d.m.(toggle := d.m.live) else d.m
  }

  // A timer that plays the published table is stopped exactly if there is nothing to time.
  ghost predicate Inv(d: Driver) {
    && Settled(d).Valid()
    && (Settled(d).live == Settled(d).toggle ==> (d.m.down <==> |d.m.Live()| == 1))
    && (!d.phase.Idle? ==> Settled(d).live == Settled(d).toggle)
    && (d.phase == Checked(true) ==> d.m.toggle < 2 && d.m.live == 1 - d.m.toggle && d.m.Published() != [])
    && (d.phase == Checked(false) ==> !d.m.down && d.m.Table(1 - d.m.toggle) != [])
  }

  // What an observer of the handler sees: the table to start next and the one being played.
  datatype View = View(next: seq<Entry>, playing: seq<Entry>, current: nat, down: bool, pins: set<nat>, load: nat)

  function Observe(m: Machine): View
    requires m.Valid()
  {
    View(m.Published(), m.Live(), m.current, m.down, m.pins, m.load)
  }

  // The same machine with no buffers: a stopped one takes a finished table at the check, a
  // running one at the flip, each in one step.
  ghost predicate ValidView(v: View) {
    v.next != [] && v.playing != [] && v.current < |v.playing|
  }

  ghost predicate HasTable(a: Action) {
    a.Check? ==> a.table != []
  }

  function AtomicStep(v: View, a: Action): View
    requires ValidView(v) && HasTable(a)
  {
    match a
    case Timer =>
      if v.current >= |v.playing| - 1 then
        var t := v.next;
        var pins := Apply(t[|t| - 1], v.pins);
        if |t| != 1 then View(t, t, 0, v.down, pins, t[0].hTime) else View(t, t, 0, true, pins, v.load)
      else
        v.(pins := Apply(v.playing[v.current], v.pins), current := v.current + 1,
            load := v.playing[v.current + 1].hTime)
    case Begin => v
    case Write(_) => v
    case Check(t) =>
      if v.down then
        var pins := Apply(t[0], v.pins);
        if |t| != 1 then View(t, t, v.current, false, pins, t[0].hTime) else View(t, t, v.current, true, pins, v.load)
      else v
    case Flip(t) => v.(next := t)
  }

  lemma StepRefines(d: Driver, a: Action)
    requires Inv(d) && Enabled(d, a) && Safe(d, a)
    ensures Inv(Step(d, a))
    ensures Observe(Settled(Step(d, a))) == AtomicStep(Observe(Settled(d)), a)
  {
    match a {
      case Timer => TimerRefines(d);
      case Check(t) => CheckRefines(d, t);
      case Flip(t) => FlipRefines(d, t);
      case _ => BuildRefines(d, a);
    }
  }

  lemma TimerRefines(d: Driver)
    requires Inv(d) && Enabled(d, Timer) && Safe(d, Timer)
    ensures Inv(Step(d, Timer)) && Observe(Settled(Step(d, Timer))) == AtomicStep(Observe(Settled(d)), Timer)
  {
  }

  lemma CheckRefines(d: Driver, t: seq<Entry>)
    requires Inv(d) && Enabled(d, Check(t))
    ensures Inv(Step(d, Check(t))) && Observe(Settled(Step(d, Check(t)))) == AtomicStep(Observe(Settled(d)), Check(t))
  {
  }

  lemma FlipRefines(d: Driver, t: seq<Entry>)
    requires Inv(d) && Enabled(d, Flip(t))
    ensures Inv(Step(d, Flip(t))) && Observe(Settled(Step(d, Flip(t)))) == AtomicStep(Observe(Settled(d)), Flip(t))
  {
  }

  lemma BuildRefines(d: Driver, a: Action)
    requires Inv(d) && Enabled(d, a) && Safe(d, a) && (a.Begin? || a.Write?)
    ensures Inv(Step(d, a)) && Observe(Settled(Step(d, a))) == AtomicStep(Observe(Settled(d)), a)
  {
  }

  // ---------- runs ----------

  ghost predicate SafeRun(d: Driver, run: seq<Action>)
    decreases run
  {
    run == [] ||
    (Inv(d) && Enabled(d, run[0]) && Safe(d, run[0]) && SafeRun(Step(d, run[0]), run[1..]))
  }

  ghost function Run(d: Driver, run: seq<Action>): Driver
    requires SafeRun(d, run)
    decreases run
  {
    if run == [] then d else Run(Step(d, run[0]), run[1..])
  }

  ghost predicate AtomicRun(v: View, run: seq<Action>, r: View)
    decreases run
  {
    if run == [] then r == v
    else ValidView(v) && HasTable(run[0]) && AtomicRun(AtomicStep(v, run[0]), run[1..], r)
  }

  // Over any safe run, whatever the interleaving, the handler behaves as if each finished
  // table had replaced the previous one in one step.
  lemma {:induction false} RunRefines(d: Driver, run: seq<Action>)
    requires Inv(d) && SafeRun(d, run)
    ensures Inv(Run(d, run))
    ensures AtomicRun(Observe(Settled(d)), run, Observe(Settled(Run(d, run))))
    decreases run
  {
    if run != [] {
      StepRefines(d, run[0]);
      RunRefines(Step(d, run[0]), run[1..]);
    }
  }

  function Timers(run: seq<Action>): nat {
    if run == [] then 0 else (if run[0].Timer? then 1 else 0) + Timers(run[1..])
  }

  // n interrupts of the undisturbed machine.
  function Interrupts(m: Machine, n: nat): (r: Machine)
    requires m.Valid()
    ensures r.Valid()
    decreases n
  {
    if n == 0 then m else Interrupts(Interrupt(m), n - 1)
  }

  ghost predicate SamePlay(a: Machine, b: Machine) {
    && b.Valid() && a.Live() == b.Live() && a.current == b.current && a.down == b.down
    && a.pins == b.pins && a.load == b.load
  }

  // Within a period, builds are invisible: after any safe run the pins and the timer stand
  // where the run's interrupts alone would have put them.
  lemma {:induction false} PeriodUndisturbed(d: Driver, run: seq<Action>, m: Machine)
    requires Inv(d) && SafeRun(d, run) && !d.m.down
    requires SamePlay(d.m, m)
    requires d.m.current + Timers(run) < |d.m.Live()|
    ensures SamePlay(Run(d, run).m, Interrupts(m, Timers(run)))
    decreases run
  {
    if run != [] {
      StepRefines(d, run[0]);
      StepPlays(d, run[0], m);
      PeriodUndisturbed(Step(d, run[0]), run[1..], if run[0].Timer? then Interrupt(m) else m);
    }
  }

  lemma StepPlays(d: Driver, a: Action, m: Machine)
    requires Inv(d) && Enabled(d, a) && Safe(d, a) && !d.m.down && SamePlay(d.m, m)
    requires a.Timer? ==> d.m.current + 1 < |d.m.Live()|
    ensures SamePlay(Step(d, a).m, if a.Timer? then Interrupt(m) else m)
    ensures !Step(d, a).m.down && Step(d, a).m.Live() == d.m.Live()
    ensures Step(d, a).m.current == d.m.current + if a.Timer? then 1 else 0
  {
  }

  // ---------- both guards are exact ----------

  // The writes of a build leave what the handler plays alone if and only if it plays from the
  // published bank while they happen; what it picks next they never touch.
  lemma WritesInvisibleIff(d: Driver)
    requires d.m.Valid() && d.phase.Building?
    ensures (forall t :: Step(d, Write(t)).m.Live() == d.m.Live()) <==> d.m.live == d.m.toggle
    ensures forall t :: Step(d, Write(t)).m.Published() == d.m.Published()
  {
    if d.m.live != d.m.toggle {
      var t := d.m.Live() + d.m.Live();
      assert Step(d, Write(t)).m.Live() == t;
    }
  }

  // Two builds within one period do reach that state.
  lemma SecondBuildIsUnsafe(d: Driver, t: seq<Entry>)
    requires Inv(d) && d.phase.Idle? && !d.m.down && d.m.live == d.m.toggle && t != []
    ensures var run := [Begin, Write(t), Check(t), Flip(t)];
      SafeRun(d, run) && !Safe(Run(d, run), Begin)
  {
    var d1 := Step(d, Begin);
    var d2 := Step(d1, Write(t));
    var d3 := Step(d2, Check(t));
    var run := [Begin, Write(t), Check(t), Flip(t)];
    assert run[1..] == [Write(t), Check(t), Flip(t)] && run[1..][1..] == [Check(t), Flip(t)];
    assert [Check(t), Flip(t)][1..] == [Flip(t)] && [Flip(t)][1..] == [];
    StepRefines(d, Begin);
    StepRefines(d1, Write(t));
    StepRefines(d2, Check(t));
    assert SafeRun(d3, [Flip(t)]);
    assert SafeRun(d2, [Check(t), Flip(t)]);
    assert SafeRun(d1, run[1..]);
    assert Run(d, run) == Run(d1, run[1..]) == Run(d2, [Check(t), Flip(t)]) == Run(d3, [Flip(t)]) == Step(d3, Flip(t));
  }

  // Interrupts within a period do not look at the toggle.
  lemma {:induction false} FlipLater(m: Machine, n: nat)
    requires m.Valid() && !m.down && m.live == 1 - m.toggle && m.current + n < |m.Live()|
    ensures PwmHandler.Flip(m).Valid()
    ensures PwmHandler.Flip(Interrupts(m, n)) == Interrupts(PwmHandler.Flip(m), n)
    ensures Later(m, Interrupts(m, n), n)
    decreases n
  {
    if n != 0 {
      FlipStep(m);
      FlipLater(Interrupt(m), n - 1);
    }
  }

  // r is m further on in the same period.
  ghost predicate Later(m: Machine, r: Machine, n: nat) {
    && r.current == m.current + n && !r.down && r.live == m.live && r.toggle == m.toggle
    && r.table0 == m.table0 && r.table1 == m.table1
  }

  lemma FlipStep(m: Machine)
    requires m.Valid() && !m.down && m.live == 1 - m.toggle && m.current + 1 < |m.Live()|
    ensures PwmHandler.Flip(m).Valid() && PwmHandler.Flip(Interrupt(m)) == Interrupt(PwmHandler.Flip(m))
    ensures Later(m, Interrupt(m), 1)
  {
  }

  lemma {:induction false} LastInterrupt(m: Machine, n: nat)
    requires m.Valid()
    ensures Interrupts(m, n + 1) == Interrupt(Interrupts(m, n))
    decreases n
  {
    if n != 0 { LastInterrupt(Interrupt(m), n - 1); }
  }

  // A stopped timer that is started directly is as good as started in one step if and only if
  // its first period has not ended before the toggle flips. If it has, the old table, which
  // has one entry, is picked and stops the timer again: the new one is not played.
  lemma StartWindowIff(m: Machine, t: seq<Entry>, n: nat)
    requires m.Valid() && m.down && |t| > 1 && m.Table(1 - m.toggle) == t && n <= |t|
    ensures Launch(m, t).Valid() && Publish(m, t).Valid()
    ensures var r := PwmHandler.Flip(Interrupts(Launch(m, t), n));
      && (r == Interrupts(Publish(m, t), n) <==> n < |t|)
      && (n == |t| ==> r.down && r.Published() == t && r.Live() == m.Live() && |r.Live()| == 1)
  {
    var on := Launch(m, t);
    assert Publish(m, t) == PwmHandler.Flip(on);
    if n < |t| {
      FlipLater(on, n);
    } else {
      FlipLater(on, n - 1);
      LastInterrupt(on, n - 1);
      LastInterrupt(Publish(m, t), n - 1);
    }
  }
}
