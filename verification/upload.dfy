// esp32/mptask.c: the file upload commands that arrive in frames, and the byte handler over
// its static buffers.

module Upload {
  import opened Framer

  const RUN_CMD := 2
  const MICROPYTHON_ESP32 := 0x50

  // test_data
  type Store = t: seq<Byte> | |t| == 1024 witness Zeros(1024)

  // test_data, py_data_index, fileRevStart, and every /flash/main.py written so far. Once a
  // chunk would not fit the buffers (fits is false) nothing more is claimed.
  datatype Files = Files(test: Store, index: nat, receiving: bool, written: seq<seq<Byte>>, fits: bool)

  // Whether the copy of a chunk stays inside py_data and test_data.
  predicate ChunkFits(f: Files, b: Buffer) {
    4 <= b[2] <= 125 && f.index + b[2] - 4 <= 1024
  }

  function Splice(t: Store, i: nat, data: seq<Byte>): (r: Store)
    requires i + |data| <= 1024
  {
    t[..i] + data + t[i + |data|..]
  }

  // parseData, for the commands that concern files.
  function RunFrame(f: Files, b: Buffer): Files {
    if b[4] != RUN_CMD || b[5] != MICROPYTHON_ESP32 then f
    else if b[6] == 1 then f.(index := 0, receiving := false)
    else if b[6] == 2 then f.(index := 0, receiving := true)
    else if b[6] == 3 then
      if ChunkFits(f, b) && f.index <= 1024 then
        f.(test := Splice(f.test, f.index, b[7..3 + b[2]]), index := f.index + b[2] - 4)
      else f.(fits := false)
    else if b[6] == 4 then
      Files(f.test, f.index, false,
            if f.receiving && f.index <= 1024 then f.written + [f.test[..f.index]] else f.written, f.fits)
    else f
  }

  function RunFrames(f: Files, bufs: seq<Buffer>): Files {
    if bufs == [] then f else RunFrame(RunFrames(f, bufs[..|bufs| - 1]), bufs[|bufs| - 1])
  }

  lemma RunNext(f: Files, bufs: seq<Buffer>, k: nat)
    requires k < |bufs|
    ensures RunFrames(f, bufs[..k + 1]) == RunFrame(RunFrames(f, bufs[..k]), bufs[k])
  {
    assert bufs[..k + 1][..k] == bufs[..k];
  }

  // The payload of an upload command.
  function Command(cmd: Byte, data: seq<Byte>): seq<Byte> {
    [0, 2, 0x50, cmd] + data
  }

  function Commands(chunks: seq<seq<Byte>>): (ps: seq<seq<Byte>>)
    ensures |ps| == |chunks|
    ensures forall k :: 0 <= k < |ps| ==> ps[k] == Command(3, chunks[k])
  {
    if chunks == [] then [] else Commands(chunks[..|chunks| - 1]) + [Command(3, chunks[|chunks| - 1])]
  }

  function Concat(chunks: seq<seq<Byte>>): seq<Byte> {
    if chunks == [] then [] else Concat(chunks[..|chunks| - 1]) + chunks[|chunks| - 1]
  }

  predicate ChunksOk(chunks: seq<seq<Byte>>) {
    forall k :: 0 <= k < |chunks| ==> |chunks[k]| <= 121
  }

  // Start, chunks, commit.
  function Session(chunks: seq<seq<Byte>>): (ps: seq<seq<Byte>>)
    requires ChunksOk(chunks)
    ensures |ps| == |chunks| + 2 && Payloads(ps)
    ensures ps[0] == Command(2, []) && ps[|chunks| + 1] == Command(4, [])
    ensures forall k :: 0 <= k < |chunks| ==> ps[k + 1] == Command(3, chunks[k])
  {
    [Command(2, [])] + Commands(chunks) + [Command(4, [])]
  }

  lemma {:induction false} ConcatPrefix(chunks: seq<seq<Byte>>, k: nat)
    requires k <= |chunks|
    ensures |Concat(chunks[..k])| <= |Concat(chunks)|
    decreases |chunks|
  {
    if k == |chunks| {
      assert chunks[..k] == chunks;
    } else {
      var n := |chunks| - 1;
      ConcatPrefix(chunks[..n], k);
      assert chunks[..n][..k] == chunks[..k];
    }
  }

  // One chunk is appended to what was stored.
  lemma ChunkStored(f: Files, b: Buffer, data: seq<Byte>, stored: seq<Byte>)
    requires |data| <= 121 && Holds(b, |data| + 4, Command(3, data))
    requires f.index == |stored| && f.index + |data| <= 1024 && f.test[..f.index] == stored
    ensures var g := RunFrame(f, b);
      g.index == |stored + data| && g.test[..g.index] == stored + data
      && g.receiving == f.receiving && g.written == f.written && g.fits == f.fits
  {
    var c := Command(3, data);
    assert b[4] == c[1] && b[5] == c[2] && b[6] == c[3];
    assert b[7..7 + |data|] == data by {
      forall j | 0 <= j < |data| ensures b[7 + j] == data[j] { assert b[7 + j] == c[4 + j]; }
    }
  }

  // After the start and k chunks the store holds those chunks, one after the other.
  lemma {:induction false} ChunksStored(f: Files, bufs: seq<Buffer>, chunks: seq<seq<Byte>>, k: nat)
    requires ChunksOk(chunks) && |Concat(chunks)| <= 1024 && |bufs| == |chunks| + 2 && k <= |chunks|
    requires forall j :: 0 <= j < |bufs| ==> Holds(bufs[j], |Session(chunks)[j]|, Session(chunks)[j])
    ensures var g := RunFrames(f, bufs[..k + 1]); var stored := Concat(chunks[..k]);
      g.receiving && g.written == f.written && g.fits == f.fits && g.index == |stored| <= 1024
          && g.test[..g.index] == stored
  {
    RunNext(f, bufs, k);
    if k == 0 {
      var c := Session(chunks)[0];
      assert bufs[0][4] == c[1] && bufs[0][5] == c[2] && bufs[0][6] == c[3];
      assert bufs[..0] == [];
    } else {
      ChunksStored(f, bufs, chunks, k - 1);
      ConcatPrefix(chunks, k);
      assert chunks[..k][..k - 1] == chunks[..k - 1];
      assert Session(chunks)[k] == Command(3, chunks[k - 1]);
      ChunkStored(RunFrames(f, bufs[..k]), bufs[k], chunks[k - 1], Concat(chunks[..k - 1]));
    }
  }

  predicate IsCommand(b: Buffer, cmd: Byte) {
    b[4] == 2 && b[5] == 0x50 && b[6] == cmd
  }

  predicate NoStart(bufs: seq<Buffer>) {
    forall j :: 0 <= j < |bufs| ==> !IsCommand(bufs[j], 2)
  }

  // After a stop no file is written, whatever chunks and commits come, until another start.
  lemma {:induction false} StopDiscards(f: Files, stop: Buffer, bufs: seq<Buffer>)
    requires IsCommand(stop, 1) && NoStart(bufs)
    ensures var g := RunFrames(f, [stop] + bufs); !g.receiving && g.written == f.written
    decreases |bufs|
  {
    var all, n := [stop] + bufs, |bufs|;
    if n == 0 {
      assert all == [stop] && all[..0] == [];
    } else {
      StopDiscards(f, stop, bufs[..n - 1]);
      assert all[..n] == [stop] + bufs[..n - 1] && all[n] == bufs[n - 1];
    }
  }

  // Sending a start, any chunks of at most 1024 bytes together, and a commit, byte by byte
  // over the serial line, writes one file: the concatenation of the chunks.
  lemma UploadWrites(s: State, f: Files, chunks: seq<seq<Byte>>)
    requires Between(s) && ChunksOk(chunks) && |Concat(chunks)| <= 1024
    ensures var fed := Feed(s, EncodeAll(Session(chunks))); var g := RunFrames(f, fed.runs);
      Between(fed.s) && g.written == f.written + [Concat(chunks)] && g.fits == f.fits && !g.receiving
  {
    var ps, n := Session(chunks), |chunks|;
    FramesRun(s, ps);
    var bufs := Feed(s, EncodeAll(ps)).runs;
    ChunksStored(f, bufs, chunks, n);
    RunNext(f, bufs, n + 1);
    assert chunks[..n] == chunks && bufs[..n + 2] == bufs;
    Committed(RunFrames(f, bufs[..n + 1]), bufs[n + 1]);
  }

  lemma Committed(f: Files, b: Buffer)
    requires Holds(b, 4, Command(4, [])) && f.receiving && f.index <= 1024
    ensures var g := RunFrame(f, b);
      g.written == f.written + [f.test[..f.index]] && g.fits == f.fits && !g.receiving
  {
    var c := Command(4, []);
    assert b[4] == c[1] && b[5] == c[2] && b[6] == c[3];
  }

  // The static variables and their byte handler.
  class CommandLoop {
    var prec: Byte
    var dataLen: Byte
    var pyIndex: nat
    var isStart: bool
    const pyData: array<Byte>
    const testData: array<Byte>
    var pyDataIndex: nat
    var fileRevStart: bool
    var files: seq<seq<Byte>>
    ghost var fits: bool

    ghost predicate Valid() {
      pyData.Length == 128 && testData.Length == 1024 && pyData != testData
    }

    ghost function Framing(): State
      requires Valid()
      reads this, pyData
    {
      State(prec, dataLen, pyIndex, isStart, pyData[..])
    }

    ghost function Uploading(): Files
      requires Valid()
      reads this, testData
    {
      Files(testData[..], pyDataIndex, fileRevStart, files, fits)
    }

    constructor ()
      ensures Valid() && fresh(pyData) && fresh(testData) && Between(Framing()) && files == [] && fits
    {
      prec, dataLen, pyIndex, isStart := 0, 0, 0, false;
      pyData := new Byte[128](_ => 0);
      testData := new Byte[1024](_ => 0);
      pyDataIndex, fileRevStart, files, fits := 0, false, [], true;
      new;
      pyData[0] := 0x20;
      testData[0] := 0x20;
    }

    // memset(py_data, 0, 128)
    method Clear()
      requires Valid()
      modifies pyData
      ensures pyData[..] == Cleared()
    {
      var i := 0;
      while i < 128
        invariant 0 <= i <= 128 && forall j :: 0 <= j < i ==> pyData[j] == 0
      {
        pyData[i] := 0;
        i := i + 1;
      }
    }

    // The body of pyexec_pure_cmd_repl for the byte c.
    method ReceiveByte(c: Byte)
      requires Valid()
      modifies this, pyData, testData
      ensures var (s, d) := Step(old(Framing()), c);
        Framing() == s && Uploading() == if d.Run? then RunFrame(old(Uploading()), d.buf) else old(Uploading())
    {
      ghost var s0, f0 := Framing(), Uploading();
      AcceptByte(c);
      ghost var s1 := Framing();
      pyIndex := pyIndex + 1;
      if pyIndex > 140 {
        Clear();
        pyIndex, isStart := 0, false;
      }
      assert Framing() == Reset(s1) && Uploading() == f0;
      if isStart && dataLen == 0 && pyIndex > 3 {
        isStart := false;
        ParseData();
        pyIndex := 0;
        Clear();
      }
    }

    method AcceptByte(c: Byte)
      requires Valid()
      modifies this`prec, this`dataLen, this`pyIndex, this`isStart, pyData
      ensures Framing() == Accept(old(Framing()), c) && Uploading() == old(Uploading())
    {
      if c == START_FRAME_2 && !isStart {
        if prec == START_FRAME_1 {
          pyIndex, isStart := 1, true;
        }
      } else {
        prec := c;
        if isStart {
          if pyIndex == 2 {
            dataLen := c;
          } else if pyIndex > 2 {
            dataLen := (dataLen + 255) % 256;
          }
          if pyIndex < 128 {
            pyData[pyIndex] := c;
          }
        }
      }
    }

    // parseData and the MICROPYTHON_ESP32 case of runMoudle.
    method ParseData()
      requires Valid()
      modifies this`pyDataIndex, this`fileRevStart, this`files, this`fits, testData
      ensures Framing() == old(Framing())
      ensures Uploading() == RunFrame(old(Uploading()), old(pyData[..]))
    {
      if pyData[4] != RUN_CMD || pyData[5] != MICROPYTHON_ESP32 {
        return;
      }
      var cmd, len := pyData[6], pyData[2];
      if cmd == 1 {
        pyDataIndex, fileRevStart := 0, false;
      } else if cmd == 2 {
        pyDataIndex, fileRevStart := 0, true;
      } else if cmd == 3 {
        if 4 <= len <= 125 && pyDataIndex + len - 4 <= 1024 {
          CopyChunk(len - 4);
          pyDataIndex := pyDataIndex + len - 4;
        } else {
          fits := false;
        }
      } else if cmd == 4 {
        if fileRevStart && pyDataIndex <= 1024 {
          files := files + [testData[..pyDataIndex]];
        }
        fileRevStart := false;
      }
    }

    // memcpy(test_data + py_data_index, py_data + 7, n)
    method CopyChunk(n: nat)
      requires Valid() && n <= 121 && pyDataIndex + n <= 1024
      modifies testData
      ensures testData[..] == Splice(old(testData[..]), pyDataIndex, pyData[7..7 + n])
    {
      var i := 0;
      while i < n
        invariant 0 <= i <= n
        invariant forall j :: 0 <= j < 1024 ==>
          testData[j] == if pyDataIndex <= j < pyDataIndex + i then pyData[7 + j - pyDataIndex] else old(testData[j])
      {
        testData[pyDataIndex + i] := pyData[7 + i];
        i := i + 1;
      }
    }

    // Bytes off the serial line, one after the other.
    method ReceiveBytes(bytes: seq<Byte>)
      requires Valid()
      modifies this, pyData, testData
      ensures var fed := Feed(old(Framing()), bytes);
        Framing() == fed.s && Uploading() == RunFrames(old(Uploading()), fed.runs)
    {
      ghost var s, f := Framing(), Uploading();
      var i := 0;
      while i < |bytes|
        invariant 0 <= i <= |bytes| && Framing() == Feed(s, bytes[..i]).s
        invariant Uploading() == RunFrames(f, Feed(s, bytes[..i]).runs)
      {
        NextByte(s, f, bytes, i);
        ReceiveByte(bytes[i]);
        i := i + 1;
      }
      assert bytes[..i] == bytes;
    }

    // A whole session on the object: it commits one file, the concatenation of the chunks.
    method ReceiveUpload(chunks: seq<seq<Byte>>)
      requires Valid() && Between(Framing()) && ChunksOk(chunks) && |Concat(chunks)| <= 1024
      modifies this, pyData, testData
      ensures Between(Framing()) && files == old(files) + [Concat(chunks)] && fits == old(fits) && !fileRevStart
    {
      UploadWrites(Framing(), Uploading(), chunks);
      ReceiveBytes(EncodeAll(Session(chunks)));
    }
  }

  lemma NextByte(s: State, f: Files, bytes: seq<Byte>, i: nat)
    requires i < |bytes|
    ensures var (fed, (t, d)) := (Feed(s, bytes[..i]), Step(Feed(s, bytes[..i]).s, bytes[i]));
      var next, g := Feed(s, bytes[..i + 1]), RunFrames(f, fed.runs);
      next.s == t && RunFrames(f, next.runs) == if d.Run? then RunFrame(g, d.buf) else g
  {
    assert bytes[..i + 1][..i] == bytes[..i];
    var fed := Feed(s, bytes[..i]);
    var d := Step(fed.s, bytes[i]).1;
    if d.Run? { assert (fed.runs + [d.buf])[..|fed.runs|] == fed.runs; }
  }
}
