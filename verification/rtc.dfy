// esp8266/machine_rtc.c: microseconds since 2000 from a 32-bit tick counter.

module RtcTime {
  import EtsClock

  // The tick counter's range, and that of a 64-bit integer.
  const W := EtsClock.W
  const W64 := 0x1_0000_0000_0000_0000

  // Ticks times the calibration, 12 bits of it a fraction.
  function Micros(ticks: nat, cal: nat): nat {
    (ticks * cal) / 4096
  }

  // A tick takes cal / 4096 microseconds; what is left of the last one is dropped.
  lemma MicrosRate(ticks: nat, cal: nat)
    ensures 4096 * Micros(ticks, cal) <= ticks * cal < 4096 * (Micros(ticks, cal) + 1)
  {
  }

  // What a number of whole turns adds.
  function TurnMicros(turns: nat, cal: nat): nat {
    if turns == 0 then 0 else TurnMicros(turns - 1, cal) + cal * 0x10_0000
  }

  lemma {:induction false} TurnMicrosIs(turns: nat, cal: nat)
    ensures TurnMicros(turns, cal) == turns * (cal * 0x10_0000)
  {
    if turns > 0 {
      TurnMicrosIs(turns - 1, cal);
      NextTurn(turns - 1, cal * 0x10_0000);
    }
  }

  // A value stored as int64_t.
  function Signed64(x: int): int {
    (x + W64 / 2) % W64 - W64 / 2
  }

  // A whole turn of the counter is a whole number of microseconds: cal << 20.
  lemma {:induction false} MicrosOfTurns(ticks: nat, turns: nat, cal: nat)
    ensures Micros(ticks + turns * W, cal) == Micros(ticks, cal) + turns * (cal * 0x10_0000)
  {
    var extra := turns * (cal * 0x10_0000);
    assert (ticks + turns * W) * cal == ticks * cal + 4096 * extra by {
      assert (ticks + turns * W) * cal == ticks * cal + (turns * W) * cal;
      assert (turns * W) * cal == turns * (W * cal);
      assert W * cal == 4096 * (cal * 0x10_0000);
    }
    DivAdd(ticks * cal, extra);
  }

  lemma DivAdd(a: nat, k: nat)
    ensures (a + 4096 * k) / 4096 == a / 4096 + k
  {
  }

  lemma MicrosMonotone(a: nat, b: nat, cal: nat)
    requires a <= b
    ensures Micros(a, cal) <= Micros(b, cal)
  {
    assert a * cal <= b * cal;
  }

  lemma SignedStored(a: int, x: int)
    ensures (a + Signed64(x)) % W64 == (a + x) % W64
    ensures Signed64(Signed64(x) + a) == Signed64(x + a)
  {
    var q := (x + W64 / 2) / W64;
    assert Signed64(x) == x - q * W64;
    ModTurns(a + x, q);
    ModTurns(x + a + W64 / 2, q);
  }

  lemma ModTurns(y: int, q: int)
    ensures (y - q * W64) % W64 == y % W64
  {
    var d := y / W64 - q;
    var r := y % W64;
    assert y - q * W64 == d * W64 + r;
    ModUnique(y - q * W64, d, r);
  }

  lemma ModUnique(x: int, d: int, r: int)
    requires x == d * W64 + r && 0 <= r < W64
    ensures x % W64 == r
  {
  }

  // With one overflow noted when the counter is below its last value, the time is exact if
  // and only if the counter was read again within one turn.
  lemma OverflowIff(last: nat, now: nat, cal: nat)
    requires last <= now && cal > 0
    ensures var turns := EtsClock.HighWord(last / W, last % W, now % W);
      Micros(now % W, cal) + turns * (cal * 0x10_0000) == Micros(now, cal) <==> now - last < W
  {
    var turns, k := EtsClock.HighWord(last / W, last % W, now % W), now / W;
    EtsClock.HighWordIff(last, now);
    assert now == now % W + k * W;
    MicrosOfTurns(now % W, k, cal);
    SameProduct(turns, k, cal * 0x10_0000);
  }

  lemma SameProduct(a: nat, b: nat, c: nat)
    requires c > 0
    ensures a * c == b * c <==> a == b
  {
    if a < b { assert b * c == a * c + (b - a) * c; assert (b - a) * c > 0; }
    if a > b { assert a * c == b * c + (a - b) * c; assert (a - b) * c > 0; }
  }

  // The unbounded clock: true ticks when the counter was last 0 before the clock was set, the
  // calibration, and delta as it was set.
  datatype Epoch = Epoch(base: nat, cal: nat, delta0: int)
  {
    // Microseconds at t true ticks.
    function At(t: nat): int
      requires base <= t
    {
      Micros(t - base, cal) + delta0
    }

    // The stored delta after a read at t.
    function DeltaAt(t: nat): int
      requires base <= t
    {
      Signed64(delta0 + TurnMicros((t - base) / W, cal))
    }
  }

  lemma AtMonotone(e: Epoch, a: nat, b: nat)
    requires e.base <= a <= b
    ensures e.At(a) <= e.At(b)
  {
    MicrosMonotone(a - e.base, b - e.base, e.cal);
  }

  // Reads in order of time, the first less than one turn after start and each other less than
  // one turn after the one before.
  predicate Paced(start: nat, ts: seq<nat>) {
    forall k :: 0 <= k < |ts| ==> Previous(start, ts, k) <= ts[k] < Previous(start, ts, k) + W
  }

  function Previous(start: nat, ts: seq<nat>, k: nat): nat
    requires k <= |ts|
  {
    if k == 0 then start else ts[k - 1]
  }

  class Rtc {
    // MEM_CAL_ADDR, MEM_DELTA_ADDR and rtc_last_ticks
    var cal: nat
    var delta: int
    var lastTicks: nat
    // True ticks at the last read, and the clock that was set.
    ghost var now: nat
    ghost var epoch: Epoch

    ghost predicate Valid()
      reads this
    {
      && epoch.base <= now && epoch.base % W == 0 && epoch.cal == cal < W
      && lastTicks == now % W && delta == epoch.DeltaAt(now)
    }

    // pyb_rtc_set_us_since_2000, at true time t.
    method SetUs(nowus: nat, calibration: nat, ticks: nat, ghost t: nat)
      requires calibration < W && ticks == t % W
      modifies this
      ensures Valid() && now == t && epoch.At(t) % W64 == nowus % W64
      ensures cal == epoch.cal == calibration
    {
      cal := calibration;
      lastTicks := ticks;
      delta := Signed64(nowus - (ticks * cal) / 4096);
      now, epoch := t, Epoch(t - t % W, cal, delta);
      SetConsistent(t, cal, nowus);
    }

    // pyb_rtc_get_us_since_2000, less than one turn of the counter after the last read.
    method GetUs(ticks: nat, ghost t: nat) returns (us: nat)
      requires Valid() && now <= t && ticks == t % W && t - now < W
      modifies this`delta, this`lastTicks, this`now
      ensures Valid() && now == t && us == epoch.At(t) % W64
    {
      CountTurns(epoch, now, t);
      if ticks < lastTicks {
        delta := Signed64(delta + cal * 0x10_0000);
      }
      lastTicks := ticks;
      now := t;
      us := (Micros(ticks, cal) + delta) % W64;
    }

    // Between sets time never runs back: any paced reads give the time of the unbounded clock
    // at each of them, and each is at least the one before, as long as 64 bits hold the time.
    method ReadAll(ticks: seq<nat>, ghost ts: seq<nat>) returns (us: seq<nat>)
      requires Valid() && |ticks| == |ts| && Paced(now, ts)
      requires forall k :: 0 <= k < |ts| ==> ticks[k] == ts[k] % W && epoch.base <= ts[k] && 0 <= epoch.At(ts[k]) < W64
      modifies this`delta, this`lastTicks, this`now
      ensures Valid() && |us| == |ts|
      ensures forall k :: 0 <= k < |us| ==> us[k] == epoch.At(ts[k])
      ensures forall i, k :: 0 <= i < k < |us| ==> us[i] <= us[k]
    {
      ghost var start, e := now, epoch;
      us := [];
      var k := 0;
      while k < |ticks|
        invariant 0 <= k <= |ticks| && |us| == k && Valid() && epoch == e && now == Previous(start, ts, k)
        invariant forall i :: 0 <= i < k ==> us[i] == e.At(ts[i])
      {
        var u := GetUs(ticks[k], ts[k]);
        InWord(e.At(ts[k]));
        us := us + [u];
        k := k + 1;
      }
      forall i, j | 0 <= i < j < |us| ensures us[i] <= us[j] {
        PacedAscend(start, ts, i, j);
        AtMonotone(e, ts[i], ts[j]);
      }
    }

    // rtc_prepare_deepsleep
    method PrepareDeepsleep(sleepUs: nat, ticks: nat, ghost t: nat)
      requires Valid() && now <= t && ticks == t % W && t - now < W
      modifies this`delta, this`lastTicks, this`now
      ensures delta == Signed64(epoch.At(t) % W64 + sleepUs) && lastTicks == ticks
    {
      var us := GetUs(ticks, t);
      delta := Signed64(us + sleepUs);
    }

    // mp_hal_rtc_init after a deep sleep: the counter restarted, the memory was kept.
    method WakeUp(ticks: nat)
      requires cal < W && ticks < W && delta == Signed64(delta)
      modifies this`lastTicks, this`now, this`epoch
      ensures Valid() && epoch == Epoch(0, cal, delta) && now == ticks
    {
      lastTicks := ticks;
      now, epoch := ticks, Epoch(0, cal, delta);
    }

    // A prepared deep sleep resumes at the prepared time plus the sleep, and goes on from there.
    method SleepAndWake(sleepUs: nat, before: nat, ghost t: nat, ticks: nat, later: nat) returns (us: nat)
      requires Valid() && now <= t && before == t % W && t - now < W && ticks <= later < W
      modifies this
      ensures us == (old(epoch).At(t) + sleepUs + Micros(later, old(cal))) % W64
    {
      ghost var time := epoch.At(t);
      PrepareDeepsleep(sleepUs, before, t);
      assert delta == Signed64(delta) by { StoredAgain(time % W64 + sleepUs); }
      WakeUp(ticks);
      SleepSum(epoch, time, sleepUs, later);
      InTurn(later);
      us := GetUs(later, later);
    }
  }

  lemma InWord(x: int)
    requires 0 <= x < W64
    ensures x % W64 == x
  {
  }

  lemma {:induction false} PacedAscend(start: nat, ts: seq<nat>, i: nat, j: nat)
    requires i < j < |ts|
    requires Paced(start, ts)
    ensures ts[i] <= ts[j]
  {
    assert Previous(start, ts, j) == ts[j - 1];
    if i + 1 < j { PacedAscend(start, ts, i, j - 1); }
  }

  lemma SetConsistent(t: nat, cal: nat, nowus: nat)
    ensures t - (t - t % W) == t % W && (t - t % W) % W == 0 && (t % W) / W == 0
    ensures var d := Signed64(nowus - Micros(t % W, cal));
      d == Signed64(d + TurnMicros(0, cal)) && (Micros(t % W, cal) + d) % W64 == nowus % W64
  {
    SignedStored(Micros(t % W, cal), nowus - Micros(t % W, cal));
    SignedStored(0, nowus - Micros(t % W, cal));
    assert t == W * (t / W) + t % W;
    TurnStart(t / W);
  }

  lemma TurnStart(q: nat)
    ensures (W * q) % W == 0
  {
  }

  lemma TurnCounted(base: nat, now: nat, t: nat)
    requires base <= now <= t && base % W == 0 && t - now < W
    ensures (t - base) / W == (now - base) / W + if t % W < now % W then 1 else 0
  {
    Rebase(base, now);
    Rebase(base, t);
    EtsClock.HighWordIff(now - base, t - base);
  }

  lemma TimeInTurn(e: Epoch, t: nat)
    requires e.base <= t && e.base % W == 0
    ensures e.At(t) == Micros(t % W, e.cal) + (e.delta0 + TurnMicros((t - e.base) / W, e.cal))
  {
    Rebase(e.base, t);
    MicrosOfTurns(t % W, (t - e.base) / W, e.cal);
    TurnMicrosIs((t - e.base) / W, e.cal);
  }

  lemma DeltaCounted(e: Epoch, now: nat, t: nat)
    requires e.base <= now <= t && e.base % W == 0 && t - now < W
    ensures e.DeltaAt(t) == if t % W < now % W then Signed64(e.DeltaAt(now) + e.cal * 0x10_0000) else e.DeltaAt(now)
  {
    TurnCounted(e.base, now, t);
    SignedStored(e.cal * 0x10_0000, e.delta0 + TurnMicros((now - e.base) / W, e.cal));
  }

  // The stored delta after a read, and the time it gives.
  lemma CountTurns(e: Epoch, now: nat, t: nat)
    requires e.base <= now <= t && e.base % W == 0 && t - now < W
    ensures var after := if t % W < now % W then Signed64(e.DeltaAt(now) + e.cal * 0x10_0000) else e.DeltaAt(now);
      after == e.DeltaAt(t) && (Micros(t % W, e.cal) + after) % W64 == e.At(t) % W64
  {
    DeltaCounted(e, now, t);
    TimeInTurn(e, t);
    SignedStored(Micros(t % W, e.cal), e.delta0 + TurnMicros((t - e.base) / W, e.cal));
  }

  lemma NextTurn(k: nat, turn: nat)
    ensures (k + 1) * turn == k * turn + turn
  {
  }

  lemma Rebase(base: nat, t: nat)
    requires base <= t && base % W == 0
    ensures (t - base) % W == t % W && t - base == t % W + (t - base) / W * W
  {
    var b := base / W;
    assert base == W * b;
    EtsClock.Split(t, b + (t - base) / W, (t - base) % W);
  }

  lemma StoredAgain(x: int)
    ensures Signed64(Signed64(x)) == Signed64(x)
  {
    SignedStored(0, x);
  }

  lemma InTurn(ticks: nat)
    requires ticks < W
    ensures ticks % W == ticks
  {
  }

  lemma SleepSum(e: Epoch, time: int, sleepUs: nat, later: nat)
    requires e.base == 0 && e.delta0 == Signed64(time % W64 + sleepUs)
    ensures e.At(later) % W64 == (time + sleepUs + Micros(later, e.cal)) % W64
  {
    var more := Micros(later, e.cal);
    SignedStored(more, time % W64 + sleepUs);
    ModTurns(time + sleepUs + more, time / W64);
    assert time == (time / W64) * W64 + time % W64;
  }
}
