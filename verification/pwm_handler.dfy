// esp8266/esppwm.c, the timer interrupt handler as a state machine: what whole periods look
// like, and what the two table buffers guarantee when builds and interrupts interleave.

module PwmHandler {
  import opened PwmTable

  // Everything the handler reads and writes. Table(i) is pwm_single_toggle[i] cut to
  // pwm_channel_toggle[i] entries; live is the buffer pwm_single points into; pins are the
  // pins currently high; load is the last value written to the timer.
  datatype Machine = Machine(
    table0: seq<Entry>, table1: seq<Entry>, toggle: nat, live: nat, current: nat, down: bool,
    pins: set<nat>, load: nat)
  {
    ghost predicate Valid() {
      && toggle < 2 && live < 2
      && Published() != [] && current < |Live()|
      && (down ==> live == toggle && |Live()| == 1)
    }

    function Table(i: nat): seq<Entry> {
      if i == 0 then table0 else table1
    }

    function WithTable(i: nat, t: seq<Entry>): Machine {
      if i == 0 then this.(table0 := t) else this.(table1 := t)
    }

    function Live(): seq<Entry> {
      Table(live)
    }

    function Published(): seq<Entry> {
      Table(toggle)
    }
  }

  // pwm_tim1_intr_handler.
  function Interrupt(m: Machine): (r: Machine)
    requires m.Valid()
    ensures r.Valid()
  {
    if m.current >= |m.Live()| - 1 then
      var t := m.Published();
      var next := m.(live := m.toggle, pins := Apply(t[|t| - 1], m.pins), current := 0);
      if |t| != 1 then next.(load := t[0].hTime) else next.(down := true)
    else
      m.(pins := Apply(m.Live()[m.current], m.pins),
         current := m.current + 1,
         load := m.Live()[m.current + 1].hTime)
  }

  // pwm_start once table t has been built in the other buffer: a stopped timer is pointed at
  // it, entry 0 is output, and the timer is loaded if there is anything to time.
  function Launch(m: Machine, t: seq<Entry>): Machine
    requires m.toggle < 2 && t != []
  {
    if m.down then
      var on := m.(live := 1 - m.toggle, pins := Apply(t[0], m.pins));
      if |t| != 1 then on.(down := false, load := t[0].hTime) else on
    else m
  }

  // The last store of pwm_start.
  function Flip(m: Machine): Machine
    requires m.toggle < 2
  {
    m.(toggle := 1 - m.toggle)
  }

  // The end of pwm_start with nothing in between.
  function Publish(m: Machine, t: seq<Entry>): (r: Machine)
    requires m.toggle < 2 && m.live < 2 && t != []
    ensures m.down && m.current == 0 ==> r.Valid()
    ensures m.Valid() && m.live == m.toggle ==> r.Valid()
  {
    Flip(Launch(m.WithTable(1 - m.toggle, t), t))
  }

  // What a build leaves in the other buffer does not matter until it is published.
  lemma PublishOverwrites(m: Machine, draft: seq<Entry>, t: seq<Entry>)
    requires m.toggle < 2 && m.live < 2 && t != []
    ensures Publish(m.WithTable(1 - m.toggle, draft), t) == Publish(m, t)
  {
  }

  // ---------- whole periods ----------

  // The machine just after the handler has started a period of table t.
  ghost predicate AtStart(m: Machine, t: seq<Entry>) {
    && m.Valid() && m.Published() == t && m.live == m.toggle && m.current == 0
    && m.down == (|t| == 1)
    && (|t| != 1 ==> m.load == t[0].hTime)
  }

  // The machine waiting for the interrupt that ends a period; a timer the handler has stopped
  // counts as waiting too.
  ghost predicate AtEnd(m: Machine) {
    m.Valid() && m.current == |m.Live()| - 1
  }

  // What the pins do until the interrupt that starts the next period.
  function Play(m: Machine): seq<Segment>
    requires m.Valid()
    decreases |m.Live()| - m.current
  {
    [Segment(m.load, m.pins)] +
    if m.current >= |m.Live()| - 1 then [] else Play(Interrupt(m))
  }

  // The machine at the interrupt that starts the next period.
  function PeriodEnd(m: Machine): (r: Machine)
    requires m.Valid()
    ensures r.Valid() && r.current == |r.Live()| - 1
    ensures r.table0 == m.table0 && r.table1 == m.table1 && r.toggle == m.toggle && r.live == m.live && r.down == m.down
    decreases |m.Live()| - m.current
  {
    if m.current >= |m.Live()| - 1 then m else PeriodEnd(Interrupt(m))
  }

  lemma {:induction false} PlayIsSegments(m: Machine)
    requires m.Valid() && m.load == m.Live()[m.current].hTime
    ensures Play(m) == Segments(m.Live(), m.current, m.pins)
    decreases |m.Live()| - m.current
  {
    if m.current < |m.Live()| - 1 {
      PlayIsSegments(Interrupt(m));
    }
  }

  // The waveform of one period: the interrupts of a running timer, or, when the handler has
  // stopped the timer because the table has one entry, pins that do not move.
  function Waveform(m: Machine, total: nat): seq<Segment>
    requires m.Valid()
  {
    if m.down then [Segment(total, m.pins)] else Play(m)
  }

  // Any interrupt of a running timer that ends a period starts one in which the published table's pulses are
  // played exactly.
  lemma PeriodKeepsDuties(m: Machine, pulses: seq<Pulse>, total: nat)
    requires AtEnd(m)
    requires ValidPulses(pulses, total) && m.Published() == Compile(pulses, total)
    ensures var r := Interrupt(m);
      AtStart(r, m.Published()) && KeepsDuties(Waveform(r, total), pulses, total, m.pins)
  {
    var r := Interrupt(m);
    var t := m.Published();
    CompiledTableKeepsDuties(pulses, total, m.pins);
    if r.down {
      CompiledTableTotal(pulses, total);
      assert Segments(t, 0, r.pins) == [Segment(total, r.pins)];
    } else {
      PlayIsSegments(r);
    }
  }

  lemma CompiledTableTotal(pulses: seq<Pulse>, total: nat)
    requires ValidPulses(pulses, total) && |Compile(pulses, total)| == 1
    ensures Compile(pulses, total)[0].hTime == total
  {
    CompiledTableKeepsDuties(pulses, total, {});
    var t := Compile(pulses, total);
    var w := Segments(t, 0, Apply(t[0], {}));
    assert TotalTicks(w) == w[0].ticks + TotalTicks(w[1..]);
    assert w[1..] == [] && TotalTicks(w[1..]) == 0;
  }

  // The machine at the end of the n-th period from m; a stopped timer stays as it is.
  ghost function NthEnd(m: Machine, n: nat): (r: Machine)
    requires AtEnd(m)
    ensures AtEnd(r)
    ensures r.table0 == m.table0 && r.table1 == m.table1 && r.toggle == m.toggle
  {
    if n == 0 then m else PeriodEnd(Interrupt(NthEnd(m, n - 1)))
  }

  lemma StartUntouched(m: Machine, pulses: seq<Pulse>, total: nat)
    requires AtEnd(m)
    requires ValidPulses(pulses, total) && m.Published() == Compile(pulses, total)
    ensures Interrupt(m).pins - Pins(pulses) == m.pins - Pins(pulses)
  {
    CompiledTableWellFormed(pulses, total);
  }

  lemma {:induction false} OthersUntouched(m: Machine, pulses: seq<Pulse>, total: nat)
    requires ValidPulses(pulses, total) && m.Valid() && m.Live() == Compile(pulses, total)
    ensures PeriodEnd(m).pins - Pins(pulses) == m.pins - Pins(pulses)
    decreases |m.Live()| - m.current
  {
    if m.current < |m.Live()| - 1 {
      CompiledTableWellFormed(pulses, total);
      OthersUntouched(Interrupt(m), pulses, total);
    }
  }

  lemma PeriodUntouched(m: Machine, pulses: seq<Pulse>, total: nat)
    requires AtEnd(m)
    requires ValidPulses(pulses, total) && m.Published() == Compile(pulses, total)
    ensures PeriodEnd(Interrupt(m)).pins - Pins(pulses) == m.pins - Pins(pulses)
  {
    StartUntouched(m, pulses, total);
    OthersUntouched(Interrupt(m), pulses, total);
  }

  // A whole period of table t leaves pin p as it is.
  ghost predicate Spares(t: seq<Entry>, p: nat) {
    forall e {:trigger SparesAt(e, p)} :: AtEnd(e) && e.Published() == t ==> SparesAt(e, p)
  }

  ghost predicate SparesAt(e: Machine, p: nat)
    requires AtEnd(e)
  {
    p in PeriodEnd(Interrupt(e)).pins <==> p in e.pins
  }

  lemma {:induction false} NthEndSpares(m: Machine, p: nat, n: nat)
    requires AtEnd(m) && Spares(m.Published(), p)
    ensures p in NthEnd(m, n).pins <==> p in m.pins
  {
    if n != 0 {
      NthEndSpares(m, p, n - 1);
      assert SparesAt(NthEnd(m, n - 1), p);
    }
  }

  lemma NthEndUntouched(m: Machine, pulses: seq<Pulse>, total: nat, n: nat)
    requires AtEnd(m)
    requires ValidPulses(pulses, total) && m.Published() == Compile(pulses, total)
    ensures NthEnd(m, n).pins - Pins(pulses) == m.pins - Pins(pulses)
  {
    forall p | p !in Pins(pulses) ensures p in NthEnd(m, n).pins <==> p in m.pins {
      forall e | AtEnd(e) && e.Published() == m.Published() ensures SparesAt(e, p) {
        PeriodUntouched(e, pulses, total);
        assert p in PeriodEnd(Interrupt(e)).pins - Pins(pulses) <==> p in e.pins - Pins(pulses);
      }
      NthEndSpares(m, p, n);
    }
  }

  // Every period from m on plays the same pulses, and pins of inactive channels never move.
  lemma EveryPeriodKeepsDuties(m: Machine, pulses: seq<Pulse>, total: nat, n: nat)
    requires AtEnd(m)
    requires ValidPulses(pulses, total) && m.Published() == Compile(pulses, total)
    ensures var e := NthEnd(m, n);
      && KeepsDuties(Waveform(Interrupt(e), total), pulses, total, e.pins)
      && e.pins - Pins(pulses) == m.pins - Pins(pulses)
  {
    NthEndUntouched(m, pulses, total, n);
    PeriodKeepsDuties(NthEnd(m, n), pulses, total);
  }

  // ---------- the first period after a direct start ----------

  // pwm_start outputs entry 0, not the period entry, when it starts a stopped timer. The
  // period that follows is right exactly when there is nothing to time: every channel is off
  // or full on. Otherwise the pin that entry 0 clears starts its period low.
  lemma DirectStartIff(m: Machine, pulses: seq<Pulse>, total: nat)
    requires m.Valid() && m.down && ValidPulses(pulses, total)
    ensures Compile(pulses, total) != []
    ensures var r := Publish(m, Compile(pulses, total));
      && r.Valid()
      && (KeepsDuties(Waveform(r, total), pulses, total, m.pins) <==>
          forall c :: c in pulses ==> c.ticks == 0 || c.ticks == total)
  {
    CompiledTableKeepsDuties(pulses, total, m.pins);
    SingleEntryIff(pulses, total);
    var t := Compile(pulses, total);
    var r := Publish(m, t);
    if |t| == 1 {
      CompiledTableTotal(pulses, total);
      assert Segments(t, 0, r.pins) == [Segment(total, r.pins)];
    } else {
      var c := FirstEntryClears(pulses, total);
      var w := Waveform(r, total);
      CompiledTableWellFormed(pulses, total);
      assert w[0] == Segment(t[0].hTime, r.pins) && TotalTicks(w) >= t[0].hTime > 0;
      assert HighDuring(w, 0) == r.pins && c.pin !in r.pins;
    }
  }
}
