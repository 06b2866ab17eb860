// esp8266/esppwm.c, the driver's static state as one object: the channel table, pwm_start,
// and the interrupt handler, each proved against the models above.

module PwmDriver {
  import PwmBuffers
  import opened Seqs
  import opened PwmTicks
  import opened PwmTable
  import opened PwmHandler
  import opened PwmSteps

  const PWM_CHANNEL: nat := 8
  const PWM_FREQ_MAX: nat := 1000
  const PWM_1S: nat := 1_000_000
  const PIN_NUM: seq<nat> := [0, 2, 4, 5, 12, 13, 14, 15]

  // One row of the channel table.
  datatype Row = Row(channel: nat, duty: nat)

  ghost predicate ValidRows(rows: seq<Row>) {
    && |rows| <= PWM_CHANNEL
    && (forall i :: 0 <= i < |rows| ==> rows[i].channel < PWM_CHANNEL && rows[i].duty <= PWM_DEPTH)
    && (forall i, j :: 0 <= i < j < |rows| ==> rows[i].channel != rows[j].channel)
  }

  function PinOf(row: Row): nat
    requires row.channel < PWM_CHANNEL
  {
    PIN_NUM[row.channel]
  }

  // What the table says the pins should do, in timer ticks.
  function PulseOf(row: Row, period: nat): Pulse
    requires row.channel < PWM_CHANNEL
  {
    Pulse(PinOf(row), DutyTicks(row.duty, period))
  }

  function Pulses(rows: seq<Row>, period: nat): seq<Pulse>
    requires forall i :: 0 <= i < |rows| ==> rows[i].channel < PWM_CHANNEL
  {
    seq(|rows|, i requires 0 <= i < |rows| => PulseOf(rows[i], period))
  }

  lemma PulsesValid(rows: seq<Row>, period: nat)
    requires ValidRows(rows) && 0 < period <= MAX_PERIOD
    ensures ValidPulses(Pulses(rows, period), Ticks(period))
    ensures Ticks(period) == 5 * period
  {
    TicksExact(period);
    var pulses := Pulses(rows, period);
    forall i | 0 <= i < |pulses| ensures pulses[i].ticks <= 5 * period {
      DutyTicksExact(rows[i].duty, period);
    }
    forall i, j | 0 <= i < j < |pulses| ensures pulses[i].pin != pulses[j].pin {
      assert rows[i].channel != rows[j].channel;
    }
  }

  // Adding, removing and changing rows, on values.
  function IndexOf(rows: seq<Row>, channel: nat): (i: nat)
    ensures i <= |rows|
    ensures i < |rows| ==> rows[i].channel == channel
    ensures forall k :: 0 <= k < i ==> rows[k].channel != channel
  {
    if rows == [] || rows[0].channel == channel then 0 else 1 + IndexOf(rows[1..], channel)
  }

  lemma IndexUnique(rows: seq<Row>, i: nat, channel: nat)
    requires i <= |rows| && (i < |rows| ==> rows[i].channel == channel)
    requires forall k :: 0 <= k < i ==> rows[k].channel != channel
    ensures i == IndexOf(rows, channel)
  {
  }

  function Without(rows: seq<Row>, channel: nat): seq<Row> {
    var i := IndexOf(rows, channel);
    if i == |rows| then rows else rows[..i] + rows[i + 1..]
  }

  ghost predicate Absent(rows: seq<Row>, channel: nat) {
    forall i :: 0 <= i < |rows| ==> rows[i].channel != channel
  }

  // One row for the channel is gone, and the others are as they were and where they were.
  ghost predicate OneLess(before: seq<Row>, after: seq<Row>, channel: nat) {
    exists k, duty :: 0 <= k <= |after| && before == after[..k] + [Row(channel, duty)] + after[k..]
  }

  // What deleting a channel does to the rows.
  ghost predicate Deleted(before: seq<Row>, after: seq<Row>, channel: nat) {
    Absent(after, channel) && if Absent(before, channel) then after == before else OneLess(before, after, channel)
  }

  lemma WithoutDeletes(rows: seq<Row>, channel: nat)
    requires ValidRows(rows)
    ensures Deleted(rows, Without(rows, channel), channel)
  {
    var i := IndexOf(rows, channel);
    if i < |rows| {
      WithoutRows(rows, i);
      TakenOut(rows, i);
    }
  }

  lemma TakenOut(rows: seq<Row>, i: nat)
    requires i < |rows|
    ensures OneLess(rows, rows[..i] + rows[i + 1..], rows[i].channel)
  {
    var after := rows[..i] + rows[i + 1..];
    assert after[..i] == rows[..i] && after[i..] == rows[i + 1..];
    assert rows == rows[..i] + [rows[i]] + rows[i + 1..] && rows[i] == Row(rows[i].channel, rows[i].duty);
  }

  lemma AbsentPin(rows: seq<Row>, channel: nat)
    requires ValidRows(rows) && channel < PWM_CHANNEL && Absent(rows, channel)
    ensures PIN_NUM[channel] !in PinSet(rows)
  {
    forall i | 0 <= i < |rows| ensures PinOf(rows[i]) != PIN_NUM[channel] {
      PinsDiffer(rows[i], Row(channel, 0));
    }
  }

  function UpTo(n: nat): (s: set<nat>)
    ensures |s| == n && forall x :: x in s <==> 0 <= x < n
  {
    if n == 0 then {} else UpTo(n - 1) + {n - 1}
  }

  lemma RowsDeleted(rows: seq<Row>, channel: nat)
    ensures |Without(rows, channel)| == |rows| - if Absent(rows, channel) then 0 else 1
  {
    if IndexOf(rows, channel) < |rows| { assert rows[IndexOf(rows, channel)].channel == channel; }
  }

  lemma DeletedPin(rows: seq<Row>, channel: nat)
    requires ValidRows(rows) && channel < PWM_CHANNEL
    ensures ValidRows(Without(rows, channel)) && PIN_NUM[channel] !in PinSet(Without(rows, channel))
  {
    var i := IndexOf(rows, channel);
    WithoutDeletes(rows, channel);
    if i < |rows| { WithoutRows(rows, i); }
    AbsentPin(Without(rows, channel), channel);
  }

  // Distinct channels below 8 are at most 8, so a full table already holds every channel.
  lemma FullTableHasChannel(rows: seq<Row>, channel: nat)
    requires ValidRows(rows) && |rows| == PWM_CHANNEL && channel < PWM_CHANNEL
    ensures IndexOf(rows, channel) < |rows|
  {
    if IndexOf(rows, channel) == |rows| {
      var used := set i | 0 <= i < |rows| :: rows[i].channel;
      CountChannels(rows, |rows|);
      SubsetSize(used, UpTo(PWM_CHANNEL) - {channel});
    }
  }

  lemma {:induction false} CountChannels(rows: seq<Row>, n: nat)
    requires n <= |rows|
    requires forall i, j :: 0 <= i < j < |rows| ==> rows[i].channel != rows[j].channel
    ensures |set i | 0 <= i < n :: rows[i].channel| == n
  {
    if n != 0 {
      CountChannels(rows, n - 1);
      var before := set i | 0 <= i < n - 1 :: rows[i].channel;
      assert (set i | 0 <= i < n :: rows[i].channel) == before + {rows[n - 1].channel};
    }
  }

  // The union of the pins of a channel table.
  function PinSet(rows: seq<Row>): set<nat>
    requires forall i :: 0 <= i < |rows| ==> rows[i].channel < PWM_CHANNEL
  {
    set i | 0 <= i < |rows| :: PinOf(rows[i])
  }

  lemma PinsOfPulses(rows: seq<Row>, period: nat)
    requires ValidRows(rows)
    ensures Pins(Pulses(rows, period)) == PinSet(rows)
  {
    var pulses := Pulses(rows, period);
    forall p | p in PinSet(rows) ensures p in Pins(pulses) {
      var k :| 0 <= k < |rows| && p == PinOf(rows[k]);
      assert pulses[k] in pulses && pulses[k].pin == p;
    }
    forall p | p in Pins(pulses) ensures p in PinSet(rows) {
      var c :| c in pulses && c.pin == p;
      var k :| 0 <= k < |pulses| && pulses[k] == c;
      assert PinOf(rows[k]) == p;
    }
  }

  lemma PinsDiffer(a: Row, b: Row)
    requires a.channel < PWM_CHANNEL && b.channel < PWM_CHANNEL && a.channel != b.channel
    ensures PinOf(a) != PinOf(b)
  {
  }

  lemma PinsWithout(rows: seq<Row>, i: nat)
    requires ValidRows(rows) && i < |rows|
    ensures ValidRows(rows[..i] + rows[i + 1..])
    ensures PinSet(rows[..i] + rows[i + 1..]) == PinSet(rows) - {PinOf(rows[i])}
  {
    var rest := rows[..i] + rows[i + 1..];
    WithoutRows(rows, i);
    forall p | p in PinSet(rows) && p != PinOf(rows[i]) ensures p in PinSet(rest) {
      var k :| 0 <= k < |rows| && p == PinOf(rows[k]);
      assert k != i && rest[if k < i then k else k - 1] == rows[k];
    }
    forall k | 0 <= k < |rest| ensures PinOf(rest[k]) in PinSet(rows) - {PinOf(rows[i])} {
      PinsDiffer(rest[k], rows[i]);
    }
  }

  lemma WithoutRows(rows: seq<Row>, i: nat)
    requires ValidRows(rows) && i < |rows|
    ensures var rest := rows[..i] + rows[i + 1..];
      && ValidRows(rest) && |rest| == |rows| - 1
      && (forall k :: 0 <= k < |rest| ==> rest[k] == rows[if k < i then k else k + 1])
      && (forall k :: 0 <= k < |rest| ==> rest[k].channel != rows[i].channel)
  {
  }

  lemma PinsWith(rows: seq<Row>, row: Row)
    requires ValidRows(rows) && row.channel < PWM_CHANNEL
    ensures PinSet(rows + [row]) == PinSet(rows) + {PinOf(row)}
  {
    var more := rows + [row];
    assert more[|rows|] == row;
    forall p | p in PinSet(rows) ensures p in PinSet(more) {
      var k :| 0 <= k < |rows| && p == PinOf(rows[k]);
      assert more[k] == rows[k];
    }
  }

  lemma RowsWith(rows: seq<Row>, channel: nat)
    requires ValidRows(rows) && |rows| < PWM_CHANNEL && channel < PWM_CHANNEL
    requires IndexOf(rows, channel) == |rows|
    ensures ValidRows(rows + [Row(channel, 0)])
  {
  }

  // The initial values of the static variables.
  const NO_TABLES := Machine([], [], 1, 1, 0, true, {}, 0)

  // The table without channels, at 500 Hz, has one entry: the timer is not started.
  lemma NothingToPlay()
    ensures Ticks(2000) == 10_000 && Pulses([], 2000) == [] && Compile([], 10_000) != []
    ensures var r := Publish(NO_TABLES, Compile([], 10_000));
      r.Valid() && r.down && r.toggle == r.live && r.Published() == Compile([], 10_000)
  {
    TicksExact(2000);
    SingleEntryIff([], 10_000);
  }

  // After pwm_init the driver is in the invariant that every safe run keeps.
  lemma InitSafe()
    ensures Compile([], 10_000) != []
    ensures PwmBuffers.Inv(PwmBuffers.Driver(Publish(NO_TABLES, Compile([], 10_000)), PwmBuffers.Idle))
  {
    NothingToPlay();
  }

  lemma SetRow(rows: seq<Row>, i: nat, duty: nat)
    requires ValidRows(rows) && i < |rows| && duty <= PWM_DEPTH
    ensures ValidRows(rows[i := Row(rows[i].channel, duty)])
    ensures PinSet(rows[i := Row(rows[i].channel, duty)]) == PinSet(rows)
  {
    var r := rows[i := Row(rows[i].channel, duty)];
    forall k | 0 <= k < |rows| ensures PinOf(r[k]) == PinOf(rows[k]) && r[k].channel == rows[k].channel {
    }
  }

  lemma PeriodRange(freq: nat)
    requires 1 <= freq <= PWM_FREQ_MAX
    ensures var period := PWM_1S / freq;
      PWM_1S / PWM_FREQ_MAX <= period <= MAX_PERIOD && period * freq <= PWM_1S < (period + 1) * freq
  {
    var period := PWM_1S / freq;
    assert PWM_1S == period * freq + PWM_1S % freq;
    assert period * freq <= PWM_1S < (period + 1) * freq;
    assert period < 1000 ==> (period + 1) * freq <= 1000 * freq;
    assert period * freq >= period;
  }

  // Steps 1 to 6 of pwm_start, into bank a.
  method Build(a: array<Entry>, outIo: array<int>, duty: array<nat>, n: nat, period: nat, gpio: set<nat>,
      ghost rows: seq<Row>)
    returns (cnt: nat)
    requires ValidRows(rows) && n == |rows| && a.Length == PWM_CHANNEL + 1
    requires outIo.Length == duty.Length == PWM_CHANNEL
    requires forall i :: 0 <= i < n ==> outIo[i] == rows[i].channel && duty[i] == rows[i].duty
    requires gpio == PinSet(rows) && 0 < period <= MAX_PERIOD
    modifies a
    ensures 0 < cnt <= a.Length
    ensures a[..cnt] == Compile(Pulses(rows, period), Ticks(period))
  {
    var pulses := Pulses(rows, period);
    FillSlots(a, outIo, duty, n, period, gpio, rows);
    InsertionSort(a, n + 1);
    InsertSortPermutes(InitTable(pulses, Ticks(period)));
    cnt := MergeSlots(a, n + 1);
    TakeDeltas(a, cnt);
    cnt := CleanAndStrip(a, cnt);
    PulsesValid(rows, period);
    CompiledTableWellFormed(pulses, Ticks(period));
  }

  // Step 1.
  method FillSlots(a: array<Entry>, outIo: array<int>, duty: array<nat>, n: nat, period: nat, gpio: set<nat>,
      ghost rows: seq<Row>)
    requires ValidRows(rows) && n == |rows| && a.Length == PWM_CHANNEL + 1
    requires outIo.Length == duty.Length == PWM_CHANNEL
    requires forall i :: 0 <= i < n ==> outIo[i] == rows[i].channel && duty[i] == rows[i].duty
    requires gpio == PinSet(rows)
    modifies a
    ensures a[..n + 1] == InitTable(Pulses(rows, period), Ticks(period))
  {
    ghost var s := InitTable(Pulses(rows, period), Ticks(period));
    var i := 0;
    while i < n
      invariant 0 <= i <= n
      invariant forall k :: 0 <= k < i ==> a[k] == s[k]
    {
      var us := (period * duty[i]) % 0x1_0000_0000 / PWM_DEPTH;
      a[i] := Entry({}, {PIN_NUM[outIo[i]]}, Ticks(us));
      i := i + 1;
    }
    PinsOfPulses(rows, period);
    a[n] := Entry(gpio, {}, Ticks(period));
  }

  // The first loop of pwm_add.
  method ChannelOf(pinId: nat) returns (channel: int)
    ensures pinId !in PIN_NUM ==> channel == -1
    ensures pinId in PIN_NUM ==> 0 <= channel < PWM_CHANNEL && PIN_NUM[channel] == pinId
  {
    var i := 0;
    while i < PWM_CHANNEL
      invariant 0 <= i <= PWM_CHANNEL
      invariant forall k :: 0 <= k < i ==> PIN_NUM[k] != pinId
    {
      if PIN_NUM[i] == pinId {
        return i;
      }
      i := i + 1;
    }
    return -1;
  }

  // The row moves of pwm_delete: rows i+1 .. n-1 move down and row n-1 becomes free.
  method ShiftDown(outIo: array<int>, duty: array<nat>, i: nat, n: nat)
    requires i < n <= outIo.Length == duty.Length
    modifies outIo, duty
    ensures forall k :: 0 <= k < i || n <= k < outIo.Length ==> outIo[k] == old(outIo[k]) && duty[k] == old(duty[k])
    ensures forall k :: i <= k < n - 1 ==> outIo[k] == old(outIo[k + 1]) && duty[k] == old(duty[k + 1])
    ensures outIo[n - 1] == -1 && duty[n - 1] == 0
  {
    outIo[i] := -1;
    var j := i;
    while j < n - 1
      invariant i <= j <= n - 1
      invariant forall k :: 0 <= k < i || j < k < outIo.Length ==> outIo[k] == old(outIo[k]) && duty[k] == old(duty[k])
      invariant forall k :: i <= k < j ==> outIo[k] == old(outIo[k + 1]) && duty[k] == old(duty[k + 1])
    {
      outIo[j] := outIo[j + 1];
      duty[j] := duty[j + 1];
      j := j + 1;
    }
    outIo[n - 1] := -1;
    duty[n - 1] := 0;
  }

  // The channel table and the period.
  class ChannelTable {
    var gpio: set<nat>       // pwm_gpio
    var channelNum: nat      // pwm_channel_num
    const outIo: array<int>  // pwm_out_io_num
    const duty: array<nat>   // pwm.duty
    var freq: nat            // pwm.freq
    var period: nat          // pwm.period
    ghost var rows: seq<Row> // the table as a value

    // A dense prefix of distinct channels, -1 behind it, and a pin mask that is the union
    // of their pins.
    ghost predicate Valid()
      reads this, outIo, duty
    {
      && outIo.Length == duty.Length == PWM_CHANNEL
      && ValidRows(rows) && channelNum == |rows|
      && (forall i :: 0 <= i < channelNum ==> outIo[i] == rows[i].channel && duty[i] == rows[i].duty)
      && (forall i :: channelNum <= i < PWM_CHANNEL ==> outIo[i] == -1)
      && gpio == PinSet(rows)
      && 1 <= freq <= PWM_FREQ_MAX && period == PWM_1S / freq
    }

    // What the pins should do.
    ghost function Target(): seq<Pulse>
      requires Valid()
      reads this, outIo, duty
    {
      Pulses(rows, period)
    }

    // The initial values of the static variables; pwm_init sets 500 Hz before anything reads
    // the period.
    constructor ()
      ensures Valid() && rows == [] && period == 2000
      ensures fresh(outIo) && fresh(duty)
    {
      gpio, channelNum, rows := {}, 0, [];
      outIo := new int[PWM_CHANNEL](_ => -1);
      duty := new nat[PWM_CHANNEL](_ => 0);
      freq, period := 500, PWM_1S / 500;
    }

    // pwm_set_freq
    method SetFreq(f: nat)
      requires Valid()
      modifies this`freq, this`period
      ensures Valid() && rows == old(rows)
      ensures freq == if f > PWM_FREQ_MAX then PWM_FREQ_MAX else if f < 1 then 1 else f
      ensures PWM_1S / PWM_FREQ_MAX <= period <= MAX_PERIOD && period * freq <= PWM_1S < (period + 1) * freq
    {
      if f > PWM_FREQ_MAX {
        freq := PWM_FREQ_MAX;
      } else if f < 1 {
        freq := 1;
      } else {
        freq := f;
      }
      period := PWM_1S / freq;
      PeriodRange(freq);
    }

    // pwm_set_duty: a channel that is not in the table is left alone.
    method SetDuty(d: nat, channel: nat)
      requires Valid()
      modifies this`rows, duty
      ensures Valid()
      ensures var i := IndexOf(old(rows), channel);
        rows == if i == |old(rows)| then old(rows)
                  else old(rows)[i := Row(channel, if d >= PWM_DEPTH then PWM_DEPTH else d)]
    {
      var i := 0;
      while i < channelNum
        invariant 0 <= i <= channelNum
        invariant forall k :: 0 <= k < i ==> rows[k].channel != channel
      {
        if outIo[i] == channel {
          break;
        }
        i := i + 1;
      }
      IndexUnique(rows, i, channel);
      if i == channelNum {
        return;
      }
      SetRow(rows, i, if d >= PWM_DEPTH then PWM_DEPTH else d);
      if d < 1 {
        duty[i] := 0;
      } else if d >= PWM_DEPTH {
        duty[i] := PWM_DEPTH;
      } else {
        duty[i] := d;
      }
      rows := rows[i := Row(channel, duty[i])];
    }

    // pwm_get_duty
    method GetDuty(channel: nat) returns (d: nat)
      requires Valid()
      ensures var i := IndexOf(rows, channel); d == if i == |rows| then 0 else rows[i].duty
    {
      var i := 0;
      while i < channelNum
        invariant 0 <= i <= channelNum
        invariant forall k :: 0 <= k < i ==> rows[k].channel != channel
      {
        if outIo[i] == channel {
          IndexUnique(rows, i, channel);
          return duty[i];
        }
        i := i + 1;
      }
      IndexUnique(rows, i, channel);
      return 0;
    }

    // pwm_add: only an unknown pin is refused; a new channel starts at duty 0.
    method Add(pinId: nat) returns (channel: int)
      requires Valid()
      modifies this`gpio, this`channelNum, this`rows, outIo, duty
      ensures Valid()
      ensures pinId !in PIN_NUM ==> channel == -1 && rows == old(rows)
      ensures pinId in PIN_NUM ==>
        && 0 <= channel < PWM_CHANNEL && PIN_NUM[channel] == pinId
        && rows == if IndexOf(old(rows), channel) < |old(rows)| then old(rows) else old(rows) + [Row(channel, 0)]
    {
      channel := ChannelOf(pinId);
      if channel == -1 {
        return;
      }
      var i := 0;
      while i < PWM_CHANNEL
        invariant 0 <= i <= channelNum
        invariant forall k :: 0 <= k < i ==> rows[k].channel != channel
        invariant Valid()
      {
        if outIo[i] == channel {
          IndexUnique(rows, i, channel);
          return;
        }
        if outIo[i] == -1 {
          IndexUnique(rows, i, channel);
          Append(channel);
          return;
        }
        i := i + 1;
      }
      IndexUnique(rows, i, channel);
      FullTableHasChannel(rows, channel);
      assert false;
    }

    // The free slot of pwm_add.
    method Append(channel: nat)
      requires Valid() && channelNum < PWM_CHANNEL && channel < PWM_CHANNEL
      requires IndexOf(rows, channel) == |rows|
      modifies this`gpio, this`channelNum, this`rows, outIo, duty
      ensures Valid()
      ensures rows == old(rows) + [Row(channel, 0)]
    {
      ghost var row := Row(channel, 0);
      ghost var more := rows + [row];
      assert ValidRows(more) && PinSet(more) == gpio + {PinOf(row)} by {
        PinsWith(rows, row);
        RowsWith(rows, channel);
      }
      outIo[channelNum] := channel;
      duty[channelNum] := 0;
      gpio := gpio + {PIN_NUM[channel]};
      channelNum := channelNum + 1;
      assert forall i :: 0 <= i < channelNum ==> outIo[i] == more[i].channel && duty[i] == more[i].duty;
      rows := more;
    }

    // pwm_delete: the rows behind the deleted one move down.
    method Delete(channel: nat) returns (ok: bool)
      requires Valid()
      modifies this`gpio, this`channelNum, this`rows, outIo, duty
      ensures Valid() && ok
      ensures rows == Without(old(rows), channel) && Deleted(old(rows), rows, channel)
      ensures channelNum == old(channelNum) - if Absent(old(rows), channel) then 0 else 1
      ensures channel < PWM_CHANNEL ==> PIN_NUM[channel] !in gpio
    {
      ghost var was := rows;
      ok := Remove(channel);
      WithoutDeletes(was, channel);
      RowsDeleted(was, channel);
      if channel < PWM_CHANNEL { DeletedPin(was, channel); }
    }

    // Its loop.
    method Remove(channel: nat) returns (ok: bool)
      requires Valid()
      modifies this`gpio, this`channelNum, this`rows, outIo, duty
      ensures Valid() && ok && rows == Without(old(rows), channel)
    {
      ok := true;
      var i := 0;
      while i < channelNum
        invariant 0 <= i <= channelNum
        invariant forall k :: 0 <= k < i ==> rows[k].channel != channel
        invariant Valid()
      {
        if outIo[i] == channel {
          IndexUnique(rows, i, channel);
          ghost var was := rows;
          ghost var rest := was[..i] + was[i + 1..];
          WithoutRows(was, i);
          PinsWithout(was, i);
          gpio := gpio - {PIN_NUM[channel]};
          ShiftDown(outIo, duty, i, channelNum);
          channelNum := channelNum - 1;
          rows := rest;
          return;
        }
        i := i + 1;
      }
      IndexUnique(rows, i, channel);
    }
  }

  // The two table banks, the timer and the pins.
  class Pwm {
    const channels: ChannelTable
    // pwm_single_toggle and pwm_channel_toggle
    const bank0: array<Entry>
    const bank1: array<Entry>
    var count0: nat
    var count1: nat
    var toggle: nat       // pwm_toggle
    var live: nat         // the bank pwm_single and pwm_channel point into
    var timerDown: bool   // pwm_timer_down
    var current: nat      // pwm_current_channel
    // the hardware: pins that are high, and the last timer load
    var pins: set<nat>
    var load: nat

    ghost predicate Shape()
      reads this
    {
      && bank0 != bank1 && bank0.Length == bank1.Length == PWM_CHANNEL + 1
      && count0 <= PWM_CHANNEL + 1 && count1 <= PWM_CHANNEL + 1
      && toggle < 2 && live < 2
    }

    ghost function M(): Machine
      requires Shape()
      reads this, bank0, bank1
    {
      Machine(bank0[..count0], bank1[..count1], toggle, live, current, timerDown, pins, load)
    }

    ghost predicate Valid()
      reads this, bank0, bank1
    {
      Shape() && M().Valid()
    }

    // The initial values of the static variables, then pwm_init.
    constructor ()
      ensures Valid() && timerDown && toggle == live
      ensures fresh(channels) && channels.Valid() && channels.rows == [] && channels.period == 2000
      ensures M().Published() == Compile([], 10_000) && PwmBuffers.Inv(PwmBuffers.Driver(M(), PwmBuffers.Idle))
      ensures fresh(bank0) && fresh(bank1)
    {
      channels := new ChannelTable();
      bank0, bank1 := new Entry[PWM_CHANNEL + 1], new Entry[PWM_CHANNEL + 1];
      count0, count1 := 0, 0;
      toggle, live, timerDown, current := 1, 1, true, 0;
      pins, load := {}, 0;
      new;
      assert M() == NO_TABLES && channels.Target() == Pulses([], 2000);
      NothingToPlay();
      InitSafe();
      Start();
    }

    // pwm_start: build the table of the current channels in the bank the toggle does not
    // select, start a stopped timer, flip the toggle.
    method Start()
      requires Shape() && channels.Valid() && (timerDown ==> current == 0)
      modifies this`count0, this`count1, this`toggle, this`live, this`timerDown, this`pins, this`load, bank0, bank1
      ensures Shape()
      ensures Compile(channels.Target(), Ticks(channels.period)) != []
      ensures M() == Publish(old(M()), Compile(channels.Target(), Ticks(channels.period)))
    {
      PeriodRange(channels.freq);
      ghost var m := M();
      var a := if toggle == 1 then bank0 else bank1;
      var cnt := Build(a, channels.outIo, channels.duty, channels.channelNum, channels.period, channels.gpio,
          channels.rows);
      ghost var t := a[..cnt];
      PublishOverwrites(m, if toggle == 1 then bank0[..count0] else bank1[..count1], t);
      assert M() == m.WithTable(1 - toggle, if toggle == 1 then bank0[..count0] else bank1[..count1]);
      Launch(cnt, t);
    }

    // The end of pwm_start: start a stopped timer and flip the toggle.
    method Launch(cnt: nat, ghost t: seq<Entry>)
      requires Shape() && 0 < cnt <= PWM_CHANNEL + 1 && t != []
      requires t == if toggle == 1 then bank0[..cnt] else bank1[..cnt]
      modifies this`count0, this`count1, this`toggle, this`live, this`timerDown, this`pins, this`load
      ensures Shape()
      ensures M() == Publish(old(M()), t)
    {
      var a := if toggle == 1 then bank0 else bank1;
      if toggle == 1 { count0 := cnt; } else { count1 := cnt; }
      if timerDown {
        live := 1 - toggle;
        pins := Apply(a[0], pins);
        if cnt != 1 {
          timerDown := false;
          load := a[0].hTime;
        }
      }
      toggle := 1 - toggle;
    }

    // pwm_tim1_intr_handler
    method TimerInterrupt()
      requires Valid()
      modifies this`live, this`current, this`timerDown, this`pins, this`load
      ensures Valid()
      ensures M() == Interrupt(old(M()))
    {
      var localToggle := toggle;
      assert M().Live() == if live == 0 then bank0[..count0] else bank1[..count1];
      if current >= (if live == 0 then count0 else count1) - 1 {
        StartPeriod(localToggle);
      } else {
        NextEntry();
      }
    }

    // The branch of the handler that picks a table.
    method StartPeriod(localToggle: nat)
      requires Valid() && current >= |M().Live()| - 1 && localToggle == toggle
      modifies this`live, this`current, this`timerDown, this`pins, this`load
      ensures Valid()
      ensures M() == Interrupt(old(M()))
    {
      live := localToggle;
      var a := if live == 0 then bank0 else bank1;
      var cnt := if live == 0 then count0 else count1;
      assert M().Published() == a[..cnt];
      pins := Apply(a[cnt - 1], pins);
      current := 0;
      if cnt != 1 {
        load := a[0].hTime;
      } else {
        timerDown := true;
      }
    }

    // The branch that goes on in the table.
    method NextEntry()
      requires Valid() && current < |M().Live()| - 1
      modifies this`current, this`pins, this`load
      ensures Valid()
      ensures M() == Interrupt(old(M()))
    {
      var a := if live == 0 then bank0 else bank1;
      assert M().Live() == a[..if live == 0 then count0 else count1];
      pins := Apply(a[current], pins);
      current := current + 1;
      load := a[current].hTime;
    }
  }

  // ---------- what the table operations leave alone ----------

  datatype TableOp = AddOp(channel: nat) | DeleteOp(channel: nat) | DutyOp(channel: nat, duty: nat)

  // The effect Add, Delete and SetDuty promise on the table.
  function AfterOp(rows: seq<Row>, op: TableOp): seq<Row> {
    var i := IndexOf(rows, op.channel);
    match op
    case AddOp(channel) => if i < |rows| then rows else rows + [Row(channel, 0)]
    case DeleteOp(channel) => Without(rows, channel)
    case DutyOp(channel, duty) =>
      if i == |rows| then rows else rows[i := Row(channel, if duty >= PWM_DEPTH then PWM_DEPTH else duty)]
  }

  function AfterOps(rows: seq<Row>, ops: seq<TableOp>): seq<Row>
    decreases ops
  {
    if ops == [] then rows else AfterOps(AfterOp(rows, ops[0]), ops[1..])
  }

  lemma AfterOpKeeps(rows: seq<Row>, op: TableOp, row: Row)
    requires ValidRows(rows) && op.channel < PWM_CHANNEL
    ensures ValidRows(AfterOp(rows, op))
    ensures row.channel != op.channel ==> (row in AfterOp(rows, op) <==> row in rows)
  {
    var i := IndexOf(rows, op.channel);
    var r := AfterOp(rows, op);
    if i == |rows| {
      if op.AddOp? && |rows| == PWM_CHANNEL { FullTableHasChannel(rows, op.channel); }
    } else if op.DeleteOp? {
      WithoutRows(rows, i);
      if row in rows && row.channel != op.channel {
        var k :| 0 <= k < |rows| && rows[k] == row;
        assert r[if k < i then k else k - 1] == row;
      }
    } else if op.DutyOp? {
      SetRow(rows, i, if op.duty >= PWM_DEPTH then PWM_DEPTH else op.duty);
      if row in rows && row.channel != op.channel {
        var k :| 0 <= k < |rows| && rows[k] == row;
        assert r[k] == row;
      }
    }
  }

  // Over any sequence of operations on other channels, a channel keeps its row and its duty,
  // or stays absent.
  lemma {:induction false} OtherChannelsKeepDuty(rows: seq<Row>, ops: seq<TableOp>, row: Row)
    requires ValidRows(rows)
    requires forall k :: 0 <= k < |ops| ==> ops[k].channel < PWM_CHANNEL && ops[k].channel != row.channel
    ensures ValidRows(AfterOps(rows, ops))
    ensures row in AfterOps(rows, ops) <==> row in rows
    decreases ops
  {
    if ops != [] {
      AfterOpKeeps(rows, ops[0], row);
      OtherChannelsKeepDuty(AfterOp(rows, ops[0]), ops[1..], row);
    }
  }

  // Operation k is the last one on its channel, and a delete.
  ghost predicate DeletedLast(ops: seq<TableOp>, k: nat)
    requires k < |ops|
  {
    ops[k].DeleteOp? && forall j :: k < j < |ops| ==> ops[j].channel != ops[k].channel
  }

  // A channel whose last operation was a delete is in the table no more.
  lemma {:induction false} LastDeleteAbsent(rows: seq<Row>, ops: seq<TableOp>, k: nat)
    requires ValidRows(rows) && k < |ops| && DeletedLast(ops, k)
    requires forall j :: 0 <= j < |ops| ==> ops[j].channel < PWM_CHANNEL
    ensures ValidRows(AfterOps(rows, ops)) && Absent(AfterOps(rows, ops), ops[k].channel)
    decreases ops
  {
    var next := AfterOp(rows, ops[0]);
    AfterOpKeeps(rows, ops[0], Row(PWM_CHANNEL, 0));
    if k > 0 {
      LastDeleteAbsent(next, ops[1..], k - 1);
    } else {
      WithoutDeletes(rows, ops[0].channel);
      StaysAbsent(next, ops[1..], ops[0].channel);
    }
  }

  lemma {:induction false} StaysAbsent(rows: seq<Row>, ops: seq<TableOp>, channel: nat)
    requires ValidRows(rows) && Absent(rows, channel)
    requires forall j :: 0 <= j < |ops| ==> ops[j].channel < PWM_CHANNEL && ops[j].channel != channel
    ensures ValidRows(AfterOps(rows, ops)) && Absent(AfterOps(rows, ops), channel)
    decreases ops
  {
    if ops != [] {
      var next := AfterOp(rows, ops[0]);
      AfterOpKeeps(rows, ops[0], Row(channel, 0));
      forall i | 0 <= i < |next| ensures next[i].channel != channel {
        AfterOpKeeps(rows, ops[0], next[i]);
      }
      StaysAbsent(next, ops[1..], channel);
    }
  }

  // What a run of operations leaves a channel with.
  datatype Setting = Off | Duty(d: nat)

  function SettingOf(rows: seq<Row>, channel: nat): Setting {
    var i := IndexOf(rows, channel);
    if i == |rows| then Off else Duty(rows[i].duty)
  }

  // Adding a channel that is off turns it on with duty 0, deleting it turns it off, and setting
  // its duty, up to 1023, matters while it is on.
  function NextSetting(s: Setting, op: TableOp): Setting {
    match op
    case AddOp(_) => if s.Off? then Duty(0) else s
    case DeleteOp(_) => Off
    case DutyOp(_, duty) => if s.Off? then Off else Duty(if duty > 1023 then 1023 else duty)
  }

  // Only the operations on the channel itself count.
  function Latest(s: Setting, ops: seq<TableOp>, channel: nat): Setting
    decreases ops
  {
    if ops == [] then s
    else Latest(if ops[0].channel == channel then NextSetting(s, ops[0]) else s, ops[1..], channel)
  }

  lemma SettingIs(rows: seq<Row>, row: Row)
    requires ValidRows(rows)
    ensures SettingOf(rows, row.channel) == Duty(row.duty) <==> row in rows
  {
    var i := IndexOf(rows, row.channel);
    if i < |rows| && rows[i].duty == row.duty { assert rows[i] == row; }
  }

  lemma OpSetting(rows: seq<Row>, op: TableOp, channel: nat)
    requires ValidRows(rows) && op.channel < PWM_CHANNEL
    ensures var s := SettingOf(rows, channel);
      SettingOf(AfterOp(rows, op), channel) == if op.channel == channel then NextSetting(s, op) else s
  {
    var after := AfterOp(rows, op);
    AfterOpKeeps(rows, op, Row(PWM_CHANNEL, 0));
    if op.channel != channel {
      OtherSetting(rows, op, channel);
    } else if op.DeleteOp? {
      WithoutDeletes(rows, channel);
    } else if op.AddOp? && IndexOf(rows, channel) == |rows| {
      SettingIs(after, Row(channel, 0));
      assert after[|rows|] == Row(channel, 0);
    } else if op.DutyOp? && IndexOf(rows, channel) < |rows| {
      IndexUnique(after, IndexOf(rows, channel), channel);
    }
  }

  lemma OtherSetting(rows: seq<Row>, op: TableOp, channel: nat)
    requires ValidRows(rows) && op.channel < PWM_CHANNEL && op.channel != channel
    ensures SettingOf(AfterOp(rows, op), channel) == SettingOf(rows, channel)
  {
    var after := AfterOp(rows, op);
    var i, j := IndexOf(rows, channel), IndexOf(after, channel);
    if i < |rows| {
      AfterOpKeeps(rows, op, rows[i]);
      SettingIs(rows, rows[i]);
      SettingIs(after, rows[i]);
    } else {
      AfterOpKeeps(rows, op, Row(channel, 0));
      if j < |after| { AfterOpKeeps(rows, op, after[j]); }
    }
  }

  // Over any sequence of operations, every channel is on or off, and has the duty, as the
  // operations on it alone say.
  lemma {:induction false} RunSetting(rows: seq<Row>, ops: seq<TableOp>, channel: nat)
    requires ValidRows(rows) && forall j :: 0 <= j < |ops| ==> ops[j].channel < PWM_CHANNEL
    ensures SettingOf(AfterOps(rows, ops), channel) == Latest(SettingOf(rows, channel), ops, channel)
    decreases ops
  {
    if ops != [] {
      OpSetting(rows, ops[0], channel);
      AfterOpKeeps(rows, ops[0], Row(PWM_CHANNEL, 0));
      RunSetting(AfterOp(rows, ops[0]), ops[1..], channel);
    }
  }

  // One operation on the object.
  method ApplyOne(t: ChannelTable, op: TableOp)
    requires t.Valid() && op.channel < PWM_CHANNEL
    modifies t`gpio, t`channelNum, t`rows, t.outIo, t.duty
    ensures t.Valid() && t.rows == AfterOp(old(t.rows), op)
  {
    match op {
      case AddOp(channel) =>
        var c := t.Add(PIN_NUM[channel]);
        PinsDistinct(channel, c);
      case DeleteOp(channel) =>
        var ok := t.Delete(channel);
      case DutyOp(channel, duty) =>
        t.SetDuty(duty, channel);
    }
  }

  // The operations on the object, one after the other.
  method ApplyAll(t: ChannelTable, ops: seq<TableOp>)
    requires t.Valid() && forall k :: 0 <= k < |ops| ==> ops[k].channel < PWM_CHANNEL
    modifies t`gpio, t`channelNum, t`rows, t.outIo, t.duty
    ensures t.Valid() && t.rows == AfterOps(old(t.rows), ops)
    ensures forall c :: SettingOf(t.rows, c) == Latest(SettingOf(old(t.rows), c), ops, c)
    ensures forall k :: 0 <= k < |ops| && DeletedLast(ops, k) ==> Absent(t.rows, ops[k].channel)
  {
    ghost var start := t.rows;
    assert ValidRows(start);
    var i := 0;
    while i < |ops|
      invariant 0 <= i <= |ops| && t.Valid()
      invariant AfterOps(t.rows, ops[i..]) == AfterOps(start, ops)
    {
      assert ops[i..][0] == ops[i] && ops[i..][1..] == ops[i + 1..];
      ApplyOne(t, ops[i]);
      i := i + 1;
    }
    forall c ensures SettingOf(t.rows, c) == Latest(SettingOf(start, c), ops, c) {
      RunSetting(start, ops, c);
    }
    forall k | 0 <= k < |ops| && DeletedLast(ops, k)
      ensures Absent(t.rows, ops[k].channel)
    {
      LastDeleteAbsent(start, ops, k);
    }
  }

  lemma PinsDistinct(a: nat, b: nat)
    requires a < PWM_CHANNEL && b < PWM_CHANNEL && PIN_NUM[a] == PIN_NUM[b]
    ensures a == b
  {
  }

  // ---------- from duties to levels ----------

  // The pin of a channel that is not in the table stays as it is, in every period of the table
  // built for these rows.
  lemma AbsentPinStill(m: Machine, rows: seq<Row>, period: nat, n: nat, channel: nat, tau: nat)
    requires ValidRows(rows) && 0 < period <= MAX_PERIOD && tau < 5 * period
    requires channel < PWM_CHANNEL && Absent(rows, channel)
    requires AtEnd(m) && m.Published() == Compile(Pulses(rows, period), 5 * period)
    ensures var w := Waveform(Interrupt(NthEnd(m, n)), 5 * period);
      TotalTicks(w) == 5 * period && (PIN_NUM[channel] in HighDuring(w, tau) <==> PIN_NUM[channel] in m.pins)
  {
    var pulses, pin := Pulses(rows, period), PIN_NUM[channel];
    PulsesValid(rows, period);
    AbsentPin(rows, channel);
    PinsOfPulses(rows, period);
    EveryPeriodKeepsDuties(m, pulses, 5 * period, n);
    var e := NthEnd(m, n);
    assert pin in e.pins - Pins(pulses) <==> pin in m.pins - Pins(pulses);
  }

  // Once the handler has picked up the table built for these rows, then in every period each
  // channel's pin is high for its first 5*(period*duty/1023) ticks and low until the period's
  // 5*period ticks are over.
  lemma DutiesPlayed(m: Machine, rows: seq<Row>, period: nat, n: nat, row: Row, tau: nat)
    requires ValidRows(rows) && 0 < period <= MAX_PERIOD && row in rows && tau < 5 * period
    requires AtEnd(m) && m.Published() == Compile(Pulses(rows, period), 5 * period)
    ensures var w := Waveform(Interrupt(NthEnd(m, n)), 5 * period);
      && TotalTicks(w) == 5 * period
      && (PinOf(row) in HighDuring(w, tau) <==> tau < 5 * (period * row.duty / PWM_DEPTH))
  {
    var pulses := Pulses(rows, period);
    PulsesValid(rows, period);
    EveryPeriodKeepsDuties(m, pulses, 5 * period, n);
    var i :| 0 <= i < |rows| && rows[i] == row;
    assert pulses[i] in pulses;
    DutyTicksExact(row.duty, period);
  }
}
