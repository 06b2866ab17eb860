// extmod/modlwip.c: the receive side of a TCP socket. Callbacks append buffers to a chain
// while reads take bytes off its front, and a blocking read waits for either.

module LwipChain {
  import opened Seqs

  type Byte = x: nat | x < 256

  // A pbuf: TCP never hands over an empty one.
  type Pbuf = p: seq<Byte> | |p| > 0 witness [0]

  function Flat(chain: seq<Pbuf>): seq<Byte> {
    if chain == [] then [] else chain[0] + Flat(chain[1..])
  }

  lemma {:induction false} FlatCat(a: seq<Pbuf>, b: seq<Pbuf>)
    ensures Flat(a + b) == Flat(a) + Flat(b)
  {
    if a == [] {
      assert a + b == b;
    } else {
      FlatCat(a[1..], b);
      assert (a + b)[0] == a[0] && (a + b)[1..] == a[1..] + b;
      Regroup(a[0], Flat(a[1..]), Flat(b));
    }
  }

  // What is left to read when offset bytes of the first buffer have been read.
  function Unread(chain: seq<Pbuf>, offset: nat): seq<Byte>
    requires Positioned(chain, offset)
  {
    if chain == [] then [] else chain[0][offset..] + Flat(chain[1..])
  }

  predicate Positioned(chain: seq<Pbuf>, offset: nat) {
    if chain == [] then offset == 0 else offset < |chain[0]|
  }

  lemma UnreadCat(chain: seq<Pbuf>, offset: nat, more: seq<Pbuf>)
    requires Positioned(chain, offset)
    ensures Positioned(chain + more, offset)
    ensures Unread(chain + more, offset) == Unread(chain, offset) + Flat(more)
  {
    if chain == [] {
      assert chain + more == more;
    } else {
      FlatCat(chain[1..], more);
      assert (chain + more)[0] == chain[0] && (chain + more)[1..] == chain[1..] + more;
      Regroup(chain[0][offset..], Flat(chain[1..]), Flat(more));
    }
  }

  // What lwIP may do while the socket waits.
  datatype Net = Data(chain: seq<Pbuf>) | Closed | Failed(err: int)

  predicate NetOk(e: Net) {
    match e
    case Data(chain) => chain != []
    case Closed => true
    case Failed(err) => -16 <= err < 0
  }

  function BroughtBy(e: Net): seq<Byte> {
    if e.Data? then Flat(e.chain) else []
  }

  // No error has ended the connection.
  predicate Alive(events: seq<Net>) {
    events == [] || (Alive(events[..|events| - 1]) && !events[|events| - 1].Failed?)
  }

  // The bytes a sequence of events brings; none once the connection has failed.
  function Brought(events: seq<Net>): seq<Byte> {
    if events == [] then []
    else Brought(events[..|events| - 1]) + if Alive(events[..|events| - 1]) then BroughtBy(events[|events| - 1]) else []
  }

  // The bytes that have arrived after the first i events.
  function After(before: seq<Byte>, events: seq<Net>, i: nat): (r: seq<Byte>)
    requires i <= |events|
    ensures i == 0 ==> r == before
    ensures i == |events| ==> r == before + Brought(events)
  {
    assert i == |events| ==> events[..i] == events;
    before + Brought(events[..i])
  }

  lemma NextEvent(before: seq<Byte>, events: seq<Net>, i: nat)
    requires i < |events|
    ensures After(before, events, i + 1)
        == After(before, events, i) + if Alive(events[..i]) then BroughtBy(events[i]) else []
    ensures Alive(events[..i + 1]) <==> Alive(events[..i]) && !events[i].Failed?
  {
    assert events[..i + 1][..i] == events[..i] && events[..i + 1][i] == events[i];
  }

  // One turn of the wait: the clock read before it, and what happens during it.
  datatype Turn = Turn(now: nat, events: seq<Net>)

  predicate TurnOk(t: Turn) {
    forall k :: 0 <= k < |t.events| ==> NetOk(t.events[k])
  }

  function BroughtIn(turns: seq<Turn>): seq<Byte> {
    if turns == [] then [] else BroughtIn(turns[..|turns| - 1]) + Brought(turns[|turns| - 1].events)
  }
}

module LwipTcp {
  import opened LwipChain
  import opened Seqs

  const STATE_NEW := 0
  const STATE_CONNECTING := 1
  const STATE_CONNECTED := 2
  const STATE_PEER_CLOSED := 3

  const MP_EAGAIN := 11
  const MP_ETIMEDOUT := 110

  // error_lookup_table, from lwIP 1.4.1 on
  const ERROR_TABLE: seq<int> := [0, 12, 105, 11, 113, 115, 22, 11, 98, 114, 103, 104, 107, 107, 5, -1, 9]

  // Waiting: the wait outlasts the turns given.
  datatype Outcome = Got(bytes: seq<Byte>) | Error(errno: int) | Waiting

  // mp_hal_ticks_ms() - start, on the wrapping 32-bit clock
  function Elapsed(now: nat, start: nat): nat {
    (now - start) % 0x1_0000_0000
  }

  // Whether the time is up at turn t.
  predicate TimeUp(timeout: int, start: nat, turns: seq<Turn>, t: nat) {
    t < |turns| && timeout != -1 && Elapsed(turns[t].now, start) > timeout
  }

  // No turn before this one was past the time.
  predicate InTime(timeout: int, start: nat, turns: seq<Turn>, used: nat) {
    forall t :: 0 <= t < used ==> !TimeUp(timeout, start, turns, t)
  }

  // The turn reached is past the time, and finds the socket connected and nothing arrived.
  predicate TimedOut(timeout: int, start: nat, turns: seq<Turn>, used: nat, state: int)
    requires used <= |turns|
  {
    state == STATE_CONNECTED && BroughtIn(turns[..used]) == [] && TimeUp(timeout, start, turns, used)
  }

  class Socket {
    var state: int
    var incoming: seq<Pbuf>
    var recvOffset: nat
    var pcb: bool
    // Milliseconds, 0 for non-blocking, -1 for ever.
    var timeout: int
    // Bytes passed to tcp_recved, which opens the window again.
    var recved: nat
    // All bytes the peer sent, all bytes reads returned, and whether the peer closed.
    ghost var arrived: seq<Byte>
    ghost var delivered: seq<Byte>
    ghost var peerClosed: bool

    ghost predicate Valid()
      reads this
    {
      && Positioned(incoming, recvOffset)
      && delivered + Unread(incoming, recvOffset) == arrived
      && recved == |delivered|
      && -16 <= state <= STATE_PEER_CLOSED
      && (state == STATE_PEER_CLOSED ==> peerClosed)
      && (pcb <==> state >= 0)
      && -1 <= timeout < 0xFFFF_FFFF
    }

    constructor ()
      ensures Valid() && state == STATE_NEW && arrived == [] && delivered == [] && !peerClosed
    {
      state, incoming, recvOffset, pcb, timeout, recved := STATE_NEW, [], 0, true, -1, 0;
      arrived, delivered, peerClosed := [], [], false;
    }

    // _lwip_tcp_connected
    method OnConnected()
      requires Valid() && state == STATE_CONNECTING
      modifies this`state
      ensures Valid() && state == STATE_CONNECTED
    {
      state := STATE_CONNECTED;
    }

    // _lwip_tcp_recv with p == NULL
    method OnClosed()
      requires Valid() && pcb
      modifies this`state, this`peerClosed
      ensures Valid() && state == STATE_PEER_CLOSED
    {
      state := STATE_PEER_CLOSED;
      peerClosed := true;
    }

    // _lwip_tcp_recv; a packet may come as a chain of buffers.
    method OnData(p: seq<Pbuf>)
      requires Valid() && pcb && p != []
      modifies this`incoming, this`arrived
      ensures Valid() && arrived == old(arrived) + Flat(p) && incoming == old(incoming) + p
    {
      UnreadCat(incoming, recvOffset, p);
      if incoming == [] {
        incoming := p;
      } else {
        incoming := incoming + p;
      }
      arrived := arrived + Flat(p);
      assert incoming == old(incoming) + p;
    }

    // _lwip_tcp_error
    method OnError(err: int)
      requires Valid() && -16 <= err < 0
      modifies this`state, this`pcb
      ensures Valid() && state == err
    {
      state := err;
      pcb := false;
    }

    // poll_sockets, during which the callbacks above run; none runs once lwIP dropped the pcb.
    method PollSockets(events: seq<Net>)
      requires Valid() && pcb && forall k :: 0 <= k < |events| ==> NetOk(events[k])
      modifies this`state, this`pcb, this`incoming, this`arrived, this`peerClosed
      ensures Valid() && arrived == old(arrived) + Brought(events) && (pcb <==> Alive(events))
      ensures old(state) >= STATE_CONNECTED && state >= 0 ==> state >= STATE_CONNECTED
    {
      ghost var before := arrived;
      var i := 0;
      while i < |events|
        invariant 0 <= i <= |events| && Valid()
        invariant arrived == After(before, events, i) && (pcb <==> Alive(events[..i]))
        invariant old(state) >= STATE_CONNECTED && state >= 0 ==> state >= STATE_CONNECTED
      {
        NextEvent(before, events, i);
        assert After(before, events, i) + [] == After(before, events, i);
        if pcb {
          OnEvent(events[i]);
        }
        i := i + 1;
      }
      assert events[..i] == events;
    }

    method OnEvent(e: Net)
      requires Valid() && pcb && NetOk(e)
      modifies this`state, this`pcb, this`incoming, this`arrived, this`peerClosed
      ensures Valid() && arrived == old(arrived) + BroughtBy(e) && (pcb <==> !e.Failed?)
      ensures old(state) >= STATE_CONNECTED && state >= 0 ==> state >= STATE_CONNECTED
    {
      match e {
        case Data(chain) =>
          OnData(chain);
        case Closed =>
          OnClosed();
          assert arrived + [] == arrived;
        case Failed(err) =>
          OnError(err);
          assert arrived + [] == arrived;
      }
    }

    // lwip_tcp_receive. A new or connecting socket may be read only without blocking: for
    // any other read the code asserts that it is connected, closed or failed.
    method Receive(len: nat, start: nat, turns: seq<Turn>) returns (r: Outcome, ghost used: nat)
      requires Valid() && (state < STATE_CONNECTED ==> state < 0 || timeout == 0 || incoming != [])
      requires forall t :: 0 <= t < |turns| ==> TurnOk(turns[t])
      modifies this
      ensures Valid() && timeout == old(timeout) && used <= |turns|
      // Bytes leave in the order they arrived, each once, and the window follows.
      ensures delivered == old(delivered) + (if r.Got? then r.bytes else []) && (r.Got? ==> |r.bytes| <= len)
      // Nothing that arrived while it waited is lost.
      ensures arrived == old(arrived) + BroughtIn(turns[..used])
      // An empty read means the peer closed and everything it sent has been delivered.
      ensures r.Got? && r.bytes == [] && len > 0 ==> peerClosed && incoming == [] && delivered == arrived
      // A read with data at hand takes what it can of the first buffer, without waiting.
      ensures old(state) >= 0 && old(incoming) != [] ==>
        used == 0 && r == Got(old(incoming)[0][old(recvOffset)..][..Least(len, |old(incoming)[0]| - old(recvOffset))])
      // Without data it fails at once when it may not block...
      ensures old(state) >= 0 && old(incoming) == [] && timeout == 0 ==>
        used == 0 && r == if old(state) == STATE_PEER_CLOSED then Got([]) else Error(MP_EAGAIN)
      // ...and otherwise only because the connection failed or the time was up.
      ensures r.Error? && (old(state) < 0 || timeout != 0) ==>
        if state < 0 then r.errno == ERROR_TABLE[-state]
        else r.errno == MP_ETIMEDOUT && TimeUp(timeout, start, turns, used)
      // It waits past no turn at which the time was up...
      ensures InTime(timeout, start, turns, used)
      ensures r.Waiting? ==> used == |turns| && incoming == [] && state == STATE_CONNECTED
      // ...and one that finds it still connected and nothing arrived ends it.
      ensures old(state) >= 0 && old(incoming) == [] && timeout != 0 && TimedOut(timeout, start, turns, used, state) ==>
        r == Error(MP_ETIMEDOUT)
    {
      used := 0;
      assert arrived + BroughtIn(turns[..0]) == arrived;
      if state < 0 {
        return Error(ERROR_TABLE[-state]), used;
      }
      if incoming == [] {
        assert delivered == arrived;
        if timeout == 0 {
          if state == STATE_PEER_CLOSED {
            return Got([]), used;
          }
          return Error(MP_EAGAIN), used;
        }
        r, used := Block(len, start, turns);
        return;
      }
      var bytes := TakeFront(len);
      r := Got(bytes);
    }

    // A read that may block, with nothing at hand.
    method Block(len: nat, start: nat, turns: seq<Turn>) returns (r: Outcome, ghost used: nat)
      requires Valid() && state >= STATE_CONNECTED && incoming == [] && timeout != 0
      requires forall t :: 0 <= t < |turns| ==> TurnOk(turns[t])
      modifies this
      ensures Valid() && timeout == old(timeout) && used <= |turns|
      ensures delivered == old(delivered) + (if r.Got? then r.bytes else []) && (r.Got? ==> |r.bytes| <= len)
      ensures arrived == old(arrived) + BroughtIn(turns[..used])
      ensures r.Got? && r.bytes == [] && len > 0 ==> peerClosed && incoming == [] && delivered == arrived
      ensures r.Error? ==>
        if state < 0 then r.errno == ERROR_TABLE[-state]
        else r.errno == MP_ETIMEDOUT && TimeUp(timeout, start, turns, used)
      ensures InTime(timeout, start, turns, used)
      ensures r.Waiting? ==> used == |turns| && incoming == [] && state == STATE_CONNECTED
      ensures TimedOut(timeout, start, turns, used, state) ==> r == Error(MP_ETIMEDOUT)
    {
      var late;
      late, used := Wait(start, turns);
      NothingUnread(incoming, recvOffset);
      assert BroughtIn(turns[..used]) == [] ==> arrived == old(arrived);
      if late {
        return Error(MP_ETIMEDOUT), used;
      }
      if state == STATE_PEER_CLOSED {
        if incoming == [] {
          return Got([]), used;
        }
      } else if state != STATE_CONNECTED {
        return Error(ERROR_TABLE[-state]), used;
      } else if incoming == [] {
        return Waiting, used;
      }
      var bytes := TakeFront(len);
      r := Got(bytes);
    }

    // Its loop: ends when something arrives, the state changes or the time is up, or when
    // the turns given run out.
    method Wait(start: nat, turns: seq<Turn>) returns (late: bool, ghost used: nat)
      requires Valid() && state >= STATE_CONNECTED && incoming == []
      requires forall t :: 0 <= t < |turns| ==> TurnOk(turns[t])
      modifies this`state, this`pcb, this`incoming, this`arrived, this`peerClosed
      ensures Valid() && used <= |turns| && (state < 0 || state >= STATE_CONNECTED)
      ensures arrived == old(arrived) + BroughtIn(turns[..used])
      ensures InTime(timeout, start, turns, used)
      ensures late <==> TimeUp(timeout, start, turns, used) && state == STATE_CONNECTED && incoming == []
      ensures !late && state == STATE_CONNECTED && incoming == [] ==> used == |turns|
    {
      var i := 0;
      used := 0;
      late := false;
      assert arrived + BroughtIn(turns[..0]) == arrived;
      while state == STATE_CONNECTED && incoming == [] && i < |turns|
        invariant 0 <= i <= |turns| && used == i && Valid() && (state < 0 || state >= STATE_CONNECTED)
        invariant arrived == old(arrived) + BroughtIn(turns[..i])
        invariant InTime(timeout, start, turns, i)
      {
        if timeout != -1 && Elapsed(turns[i].now, start) > timeout {
          return true, used;
        }
        assert InTime(timeout, start, turns, i + 1);
        NextTurn(arrived, old(arrived), turns, i);
        PollSockets(turns[i].events);
        i := i + 1;
        used := i;
      }
    }

    // Its second half: at most the rest of the first buffer.
    method TakeFront(want: nat) returns (bytes: seq<Byte>)
      requires Valid() && pcb && incoming != []
      modifies this`incoming, this`recvOffset, this`recved, this`delivered
      ensures Valid() && delivered == old(delivered) + bytes
      ensures bytes == old(incoming)[0][old(recvOffset)..][..Least(want, |old(incoming)[0]| - old(recvOffset))]
    {
      var p := incoming[0];
      var remaining := |p| - recvOffset;
      var len := if want > remaining then remaining else want;
      bytes := p[recvOffset..][..len];
      TakeSplits(delivered, incoming, recvOffset, len);
      assert len == Least(want, remaining);
      remaining := remaining - len;
      if remaining == 0 {
        incoming := incoming[1..];
        recvOffset := 0;
      } else {
        recvOffset := recvOffset + len;
      }
      recved := recved + len;
      delivered := delivered + bytes;
    }
  }

  // Taking bytes off the front moves them from unread to delivered.
  lemma TakeSplits(delivered: seq<Byte>, chain: seq<Pbuf>, offset: nat, len: nat)
    requires Positioned(chain, offset) && chain != [] && offset + len <= |chain[0]|
    ensures var rest := if offset + len == |chain[0]| then chain[1..] else chain;
      var offset' := if offset + len == |chain[0]| then 0 else offset + len;
      Positioned(rest, offset')
      && delivered + Unread(chain, offset) == delivered + chain[0][offset..][..len] + Unread(rest, offset')
  {
    var tail := chain[0][offset..];
    var rest := Flat(chain[1..]);
    assert tail == tail[..len] + chain[0][offset + len..];
    Regroup(tail[..len], chain[0][offset + len..], rest);
    Regroup(delivered, tail[..len], chain[0][offset + len..] + rest);
    if offset + len == |chain[0]| {
      FlatIsUnread(chain[1..]);
      assert chain[0][offset + len..] + rest == rest;
    }
  }

  lemma FlatIsUnread(chain: seq<Pbuf>)
    ensures Positioned(chain, 0) && Unread(chain, 0) == Flat(chain)
  {
    if chain != [] { assert chain[0][0..] == chain[0]; }
  }

  lemma NothingUnread(chain: seq<Pbuf>, offset: nat)
    requires Positioned(chain, offset)
    ensures Unread(chain, offset) == [] <==> chain == []
  {
  }

  // On the wrapping clock too, the time since the start is the time that has passed, up to
  // 2^32 - 1 milliseconds.
  lemma ElapsedIs(start: nat, d: nat)
    requires d < 0x1_0000_0000
    ensures Elapsed((start + d) % 0x1_0000_0000, start) == d
  {
    var w, q := 0x1_0000_0000, (start + d) / 0x1_0000_0000;
    assert (start + d) % w - start == d + -q * w;
    assert (d + -q * w) % w == d;
  }

  function Least(a: nat, b: nat): nat {
    if a < b then a else b
  }

  lemma NextTurn(now: seq<Byte>, before: seq<Byte>, turns: seq<Turn>, i: nat)
    requires i < |turns|
    ensures now == before + BroughtIn(turns[..i])
        ==> now + Brought(turns[i].events) == before + BroughtIn(turns[..i + 1])
  {
    assert turns[..i + 1][..i] == turns[..i];
    Regroup(before, BroughtIn(turns[..i]), Brought(turns[i].events));
  }
}
