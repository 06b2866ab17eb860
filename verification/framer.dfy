// esp32/mptask.c: the byte-at-a-time command framer, and the multi-frame file upload on top
// of it.

module Framer {

  type Byte = x: nat | x < 256

  // py_data
  type Buffer = b: seq<Byte> | |b| == 128 witness Zeros(128)

  const START_FRAME_1: Byte := 0xFF
  const START_FRAME_2: Byte := 0x55

  function Zeros(n: nat): (r: seq<Byte>)
    ensures |r| == n && forall j :: 0 <= j < n ==> r[j] == 0
  {
    if n == 0 then [] else Zeros(n - 1) + [0]
  }

  // memset(py_data, 0, 128)
  function Cleared(): Buffer {
    Zeros(128)
  }

  // prec, dataLen, py_index, isStart, py_data
  datatype State = State(prec: Byte, left: Byte, index: nat, started: bool, buf: Buffer)

  // At most one buffer is handed to parseData for a byte.
  datatype Dispatch = Quiet | Run(buf: Buffer)

  // writeBuffer. Past the end of py_data the original writes into whatever follows; that
  // write is dropped here.
  function Put(b: Buffer, i: nat, c: Byte): Buffer {
    if i < 128 then b[i := c] else b
  }

  // The head of pyexec_pure_cmd_repl: look for the two start bytes, or take a byte in.
  function Accept(s: State, c: Byte): State {
    if c == START_FRAME_2 && !s.started then
      if s.prec == START_FRAME_1 then s.(index := 1, started := true) else s
    else if !s.started then s.(prec := c)
    else
      var left := if s.index == 2 then c else if s.index > 2 then (s.left + 255) % 256 else s.left;
      State(c, left, s.index, true, Put(s.buf, s.index, c))
  }

  function Reset(s: State): State {
    if s.index + 1 > 140 then s.(index := 0, started := false, buf := Cleared()) else s.(index := s.index + 1)
  }

  predicate Due(s: State) {
    s.started && s.left == 0 && s.index > 3
  }

  function Step(s: State, c: Byte): (State, Dispatch) {
    var t := Reset(Accept(s, c));
    if Due(t) then (t.(index := 0, started := false, buf := Cleared()), Run(t.buf)) else (t, Quiet)
  }

  // ---------- whole streams ----------

  datatype Fed = Fed(s: State, runs: seq<Buffer>)

  function Feed(s: State, bytes: seq<Byte>): Fed {
    if bytes == [] then Fed(s, [])
    else
      var f := Feed(s, bytes[..|bytes| - 1]);
      var (t, d) := Step(f.s, bytes[|bytes| - 1]);
      Fed(t, if d.Run? then f.runs + [d.buf] else f.runs)
  }

  lemma {:induction false} FeedConcat(s: State, a: seq<Byte>, b: seq<Byte>)
    ensures Feed(s, a + b).s == Feed(Feed(s, a).s, b).s
    ensures Feed(s, a + b).runs == Feed(s, a).runs + Feed(Feed(s, a).s, b).runs
  {
    if b == [] {
      assert a + b == a;
    } else {
      var n := |b| - 1;
      FeedConcat(s, a, b[..n]);
      assert (a + b)[..|a + b| - 1] == a + b[..n];
    }
  }

  lemma FeedOne(s: State, c: Byte)
    ensures Feed(s, [c]) == Fed(Step(s, c).0, if Step(s, c).1.Run? then [Step(s, c).1.buf] else [])
  {
    assert [c][..0] == [];
    assert Feed(s, []) == Fed(s, []);
  }

  // The frame around a payload.
  function Encode(p: seq<Byte>): seq<Byte>
    requires |p| < 256
  {
    [0xFF, 0x55, |p|] + p
  }

  // Nothing is being received, and nothing is left over from an earlier frame.
  predicate Between(s: State) {
    !s.started && s.index <= 140 && forall j :: 2 <= j < 128 ==> s.buf[j] == 0
  }

  // What parseData finds: the length, as much of the payload as there is room for, and zeros.
  predicate Holds(b: Buffer, len: nat, p: seq<Byte>) {
    b[2] == len && forall j :: 3 <= j < 128 ==> b[j] == if j - 3 < |p| then p[j - 3] else 0
  }

  // Inside a frame, after i payload bytes.
  predicate Receiving(s: State, p: seq<Byte>, i: nat)
    requires i <= |p| < 256
  {
    s.started && s.index == 3 + i && s.left == |p| - i && Holds(s.buf, |p|, p[..i])
  }

  lemma Header(s: State, p: seq<Byte>)
    requires Between(s) && |p| < 256
    ensures var f := Feed(s, Encode(p)[..3]); f.runs == [] && Receiving(f.s, p, 0)
  {
    var head := Encode(p)[..3];
    var s1 := Step(s, START_FRAME_1).0;
    var s2 := Step(s1, START_FRAME_2).0;
    assert s1.prec == START_FRAME_1 && !s1.started && forall j :: 2 <= j < 128 ==> s1.buf[j] == 0;
    assert s2 == s1.(index := 2, started := true);
    assert head == [START_FRAME_1] + [START_FRAME_2] + [|p|];
    FeedOne(s, START_FRAME_1);
    FeedOne(s1, START_FRAME_2);
    FeedOne(s2, |p|);
    FeedConcat(s, [START_FRAME_1], [START_FRAME_2]);
    FeedConcat(s, [START_FRAME_1] + [START_FRAME_2], [|p|]);
  }

  // The payload byte at which py_index passes its limit and the frame is given up.
  const LAST: nat := 137

  // A payload byte, whatever its value, is stored; the last one hands the buffer over.
  lemma PayloadByte(s: State, p: seq<Byte>, i: nat)
    requires i < |p| < 256 && i <= LAST && Receiving(s, p, i)
    ensures var (t, d) := Step(s, p[i]);
      if i == LAST then d.Quiet? && Between(t)
      else if i + 1 < |p| then d.Quiet? && Receiving(t, p, i + 1)
      else d.Run? && Holds(d.buf, |p|, p) && Between(t)
  {
    var b := Put(s.buf, 3 + i, p[i]);
    assert Holds(b, |p|, p[..i + 1]);
    assert p[..|p|] == p;
  }

  lemma {:induction false} Payload(s: State, p: seq<Byte>, i: nat)
    requires 1 <= |p| < 256 && i <= |p| && i <= LAST + 1 && Receiving(s, p, 0)
    ensures var f := Feed(s, p[..i]);
      if i == LAST + 1 then f.runs == [] && Between(f.s)
      else if i < |p| then f.runs == [] && Receiving(f.s, p, i)
      else |f.runs| == 1 && Holds(f.runs[0], |p|, p) && Between(f.s)
  {
    if i > 0 {
      Payload(s, p, i - 1);
      PayloadByte(Feed(s, p[..i - 1]).s, p, i - 1);
      assert p[..i][..i - 1] == p[..i - 1];
    }
  }

  // A frame is handed over once, whole, whatever its bytes are. One of 126 to 137 bytes is
  // handed over too, but py_data ends before it does.
  lemma FrameRuns(s: State, p: seq<Byte>)
    requires Between(s) && 1 <= |p| <= LAST
    ensures var f := Feed(s, Encode(p)); |f.runs| == 1 && Holds(f.runs[0], |p|, p) && Between(f.s)
  {
    Header(s, p);
    var t := Feed(s, Encode(p)[..3]).s;
    Payload(t, p, |p|);
    assert p[..|p|] == p && Encode(p) == Encode(p)[..3] + p;
    FeedConcat(s, Encode(p)[..3], p);
  }

  // A longer frame is given up after 138 bytes; the others are read as if between frames.
  lemma LongFrameDropped(s: State, p: seq<Byte>)
    requires Between(s) && LAST < |p| < 256
    ensures var f := Feed(s, Encode(p)[..3 + LAST + 1]); f.runs == [] && Between(f.s)
  {
    Header(s, p);
    var t := Feed(s, Encode(p)[..3]).s;
    Payload(t, p, LAST + 1);
    assert Encode(p)[..3 + LAST + 1] == Encode(p)[..3] + p[..LAST + 1];
    FeedConcat(s, Encode(p)[..3], p[..LAST + 1]);
  }

  // Whether the buffer has all of the payload, in its place.
  predicate Whole(b: Buffer, p: seq<Byte>) {
    b[2] == |p| && 3 + |p| <= 128 && forall j :: 0 <= j < |p| ==> b[3 + j] == p[j]
  }

  // A frame is handed over whole, and nothing else is, exactly when it has 1 to 125 bytes.
  lemma FrameRunsIff(s: State, p: seq<Byte>)
    requires Between(s) && |p| < 256
    ensures var f := Feed(s, Encode(p));
      (|f.runs| == 1 && Whole(f.runs[0], p) && Between(f.s)) <==> 1 <= |p| <= 125
  {
    if 1 <= |p| <= 125 {
      FrameRuns(s, p);
    } else if p == [] {
      Header(s, p);
      assert Encode(p)[..3] == Encode(p);
    }
  }

  predicate Payloads(ps: seq<seq<Byte>>) {
    forall k :: 0 <= k < |ps| ==> 1 <= |ps[k]| <= 125
  }

  function EncodeAll(ps: seq<seq<Byte>>): seq<Byte>
    requires Payloads(ps)
  {
    if ps == [] then [] else EncodeAll(ps[..|ps| - 1]) + Encode(ps[|ps| - 1])
  }

  // Frames one after the other are handed over one after the other: exactly their payloads,
  // in order, even when payloads contain start bytes.
  lemma {:induction false} FramesRun(s: State, ps: seq<seq<Byte>>)
    requires Between(s) && Payloads(ps)
    ensures var f := Feed(s, EncodeAll(ps));
      Between(f.s) && AllHeld(f.runs, ps)
  {
    if ps != [] {
      var n := |ps| - 1;
      FramesRun(s, ps[..n]);
      NextFrameRuns(s, ps[..n], ps[n]);
      assert ps == ps[..n] + [ps[n]];
    }
  }

  // What was handed over, frame by frame.
  predicate AllHeld(runs: seq<Buffer>, ps: seq<seq<Byte>>) {
    |runs| == |ps| && forall k :: 0 <= k < |ps| ==> Holds(runs[k], |ps[k]|, ps[k])
  }

  lemma NextFrameRuns(s: State, ps: seq<seq<Byte>>, p: seq<Byte>)
    requires Between(s) && Payloads(ps + [p]) && Payloads(ps) && 1 <= |p| <= 125
    requires var f := Feed(s, EncodeAll(ps)); Between(f.s) && AllHeld(f.runs, ps)
    ensures var f := Feed(s, EncodeAll(ps + [p])); Between(f.s) && AllHeld(f.runs, ps + [p])
  {
    var f := Feed(s, EncodeAll(ps));
    FrameRuns(f.s, p);
    FeedConcat(s, EncodeAll(ps), Encode(p));
    assert (ps + [p])[..|ps|] == ps;
  }

  // After a frame without payload, i more bytes.
  predicate Swallowing(s: State, i: nat) {
    s.started && s.index == 3 + i && s.left == (256 - i) % 256
  }

  lemma {:induction false} BytesSwallowed(s: State, bytes: seq<Byte>)
    requires Swallowing(s, 0) && |bytes| <= LAST
    ensures var f := Feed(s, bytes); f.runs == [] && Swallowing(f.s, |bytes|)
  {
    if bytes != [] { BytesSwallowed(s, bytes[..|bytes| - 1]); }
  }

  // A frame without payload is not handed over, and swallows the 137 bytes after it, whatever
  // they are: any frame of 1 to 125 bytes among them.
  lemma EmptyFrameSwallows(s: State, bytes: seq<Byte>)
    requires Between(s) && |bytes| <= LAST
    ensures Feed(s, Encode([]) + bytes).runs == []
  {
    Header(s, []);
    assert Encode([])[..3] == Encode([]);
    BytesSwallowed(Feed(s, Encode([])).s, bytes);
    FeedConcat(s, Encode([]), bytes);
  }

  lemma EmptyFrameSwallowsFrame(s: State, p: seq<Byte>)
    requires Between(s) && 1 <= |p| <= 125
    ensures Feed(s, Encode([]) + Encode(p)).runs == []
  {
    EmptyFrameSwallows(s, Encode(p));
  }
}
