// extmod/modframebuf.c: scrolling in place, and blitting from another buffer.

module FrameBufMove {
  import opened FrameBufFormat
  import opened FrameBufPixels
  import opened FrameBuf
  import opened FrameBufLine

  // Pixels to be written and what each is to hold.
  type Overlay = imap<(nat, nat), Unit>

  ghost predicate LaidAt(g: Geometry, before: seq<Unit>, after: seq<Unit>, o: Overlay, done: Region, x: nat, y: nat)
    requires BufOk(g, before) && BufOk(g, after) && OnGrid(g, x, y)
  {
    Pix(g, after, x, y) == if (x, y) in o && (x, y) in done then o[(x, y)] else Pix(g, before, x, y)
  }

  // The overlay is in place inside a region; every other bit of the buffer is as before.
  ghost predicate Laid(g: Geometry, before: seq<Unit>, after: seq<Unit>, o: Overlay, done: Region) {
    && BufOk(g, before) && BufOk(g, after) && |after| == |before|
    && (forall x: nat, y: nat {:trigger LaidAt(g, before, after, o, done, x, y)} ::
          OnGrid(g, x, y) ==> LaidAt(g, before, after, o, done, x, y))
    && (forall j :: g.Units() <= j < |before| ==> after[j] == before[j])
  }

  lemma LayNone(g: Geometry, buf: seq<Unit>, o: Overlay)
    requires BufOk(g, buf)
    ensures Laid(g, buf, buf, o, iset{})
  {
    forall x: nat, y: nat | OnGrid(g, x, y) ensures LaidAt(g, buf, buf, o, iset{}, x, y) {}
  }

  lemma LayOne(g: Geometry, before: seq<Unit>, buf: seq<Unit>, o: Overlay, done: Region, x: nat, y: nat, col: bv32)
    requires Laid(g, before, buf, o, done) && OnGrid(g, x, y) && (x, y) in o && o[(x, y)] == Norm(g.format, col)
    ensures Laid(g, before, Set(g, buf, x, y, col), o, done + iset{(x, y)})
  {
    var after := Set(g, buf, x, y, col);
    forall px: nat, py: nat | OnGrid(g, px, py) ensures LaidAt(g, before, after, o, done + iset{(x, y)}, px, py) {
      assert LaidAt(g, before, buf, o, done, px, py);
      SetPix(g, buf, x, y, col, px, py);
    }
    IndexBound(g, x, y);
  }

  lemma SameLaid(g: Geometry, before: seq<Unit>, after: seq<Unit>, o: Overlay, r1: Region, r2: Region)
    requires Laid(g, before, after, o, r1)
    requires forall x: nat, y: nat :: (x, y) in o ==> ((x, y) in r1 <==> (x, y) in r2)
    ensures Laid(g, before, after, o, r2)
  {
    forall x: nat, y: nat | OnGrid(g, x, y) ensures LaidAt(g, before, after, o, r2, x, y) {
      assert LaidAt(g, before, after, o, r1, x, y);
    }
  }

  lemma LayNext(g: Geometry, before: seq<Unit>, buf: seq<Unit>, o: Overlay, done: Region, target: Region, x: nat,
      y: nat, col: bv32)
    requires Laid(g, before, buf, o, done) && OnGrid(g, x, y) && (x, y) in o && o[(x, y)] == Norm(g.format, col)
    requires forall px: nat, py: nat ::
      (px, py) in o ==> ((px, py) in target <==> (px, py) in done || (px == x && py == y))
    ensures Laid(g, before, Set(g, buf, x, y, col), o, target)
  {
    LayOne(g, before, buf, o, done, x, y, col);
    SameLaid(g, before, Set(g, buf, x, y, col), o, done + iset{(x, y)}, target);
  }

  // An overlay has one result.
  lemma LaidUnique(g: Geometry, before: seq<Unit>, a: seq<Unit>, b: seq<Unit>, o: Overlay, done: Region)
    requires Laid(g, before, a, o, done) && Laid(g, before, b, o, done)
    ensures a == b
  {
    forall x: nat, y: nat | OnGrid(g, x, y) ensures Pix(g, a, x, y) == Pix(g, b, x, y) {
      assert LaidAt(g, before, a, o, done, x, y) && LaidAt(g, before, b, o, done, x, y);
    }
    PixelsDetermine(g, a, b);
  }

  // A color read back from a pixel is not changed by storing it.
  lemma NormPix(f: Format, u: Unit, k: nat)
    requires UnitOk(f, u) && k < SlotCount(f)
    ensures Norm(f, SlotGet(f, u, k) as bv32) == SlotGet(f, u, k)
  {
    if f == GS4_HMSB { Nibble(u); }
    if f == RGB565 { Word(u); }
  }

  lemma Nibble(u: Unit)
    requires u <= 0xFF
    ensures (((u & 0x0F) as bv32) & 0xF) as bv16 == u & 0x0F
    ensures (((u >> 4) as bv32) & 0xF) as bv16 == u >> 4
  {
  }

  lemma Word(u: Unit)
    ensures ((u as bv32) & 0xFFFF) as bv16 == u
  {
  }

  // ---------- scroll ----------

  predicate Moves(g: Geometry, xstep: int, ystep: int, x: nat, y: nat) {
    x < g.width && y < g.height && 0 <= x - xstep < g.width && 0 <= y - ystep < g.height
  }

  lemma ScreenOnGrid(g: Geometry, x: nat, y: nat)
    requires g.Valid() && x < g.width && y < g.height
    ensures OnGrid(g, x, y)
  {
  }

  // The simultaneous copy: every pixel whose source is on the screen takes its source's value.
  ghost function Scrolled(g: Geometry, buf: seq<Unit>, xstep: int, ystep: int): Overlay
    requires BufOk(g, buf)
  {
    imap p: (nat, nat) | Moves(g, xstep, ystep, p.0, p.1) :: Pix(g, buf, p.0 - xstep, p.1 - ystep)
  }

  // Rows before y and, in row y, columns before x, in the order the loops run.
  ghost function Visited(x: int, y: int, dx: int, dy: int): Region {
    iset px: nat, py: nat | (if dy > 0 then py < y else py > y) || (py == y && (if dx > 0 then px < x else px > x))
        :: (px, py)
  }

  // The loops never read a pixel that was already written.
  lemma SourceUnvisited(x: int, y: int, xstep: int, ystep: int)
    requires x - xstep >= 0 && y - ystep >= 0
    ensures (x - xstep, y - ystep) !in Visited(x, y, if xstep < 0 then 1 else -1, if ystep < 0 then 1 else -1)
  {
  }

  // The end tests of both loops are for equality. Where each loop starts, how it steps and
  // where it is to end:
  function Start(size: nat, step: int): int {
    if step < 0 then 0 else size - 1
  }

  function Direction(step: int): int {
    if step < 0 then 1 else -1
  }

  function Stop(size: nat, step: int): int {
    if step < 0 then size + step else step - 1
  }

  // Some number of steps leads from the start to the end.
  ghost predicate Ends(size: nat, step: int) {
    exists n: nat :: Start(size, step) + n * Direction(step) == Stop(size, step)
  }

  // A loop ends exactly when the step is not longer than the side, and makes no turn exactly
  // when it is as long.
  lemma EndsIff(size: nat, step: int)
    ensures Ends(size, step) <==> Abs(step) <= size
    ensures Start(size, step) == Stop(size, step) <==> Abs(step) == size
  {
    if Abs(step) <= size {
      var n: nat := size - Abs(step);
      assert Start(size, step) + n * Direction(step) == Stop(size, step);
    }
  }

  predicate ScrollEnds(g: Geometry, xstep: int, ystep: int) {
    Abs(ystep) <= g.height && (Abs(ystep) == g.height || Abs(xstep) <= g.width)
  }

  // Scrolling ends exactly when the outer loop does and the inner one, if it is entered, does.
  lemma ScrollEndsIff(g: Geometry, xstep: int, ystep: int)
    ensures ScrollEnds(g, xstep, ystep) <==>
      Ends(g.height, ystep) && (Start(g.height, ystep) == Stop(g.height, ystep) || Ends(g.width, xstep))
  {
    EndsIff(g.height, ystep);
    EndsIff(g.width, xstep);
  }

  // The picture moves right and down: a pixel has the color of the one xstep to its left and
  // ystep above it, if both are on the screen.
  ghost predicate ShiftedAt(g: Geometry, before: seq<Unit>, after: seq<Unit>, xstep: int, ystep: int, x: nat, y: nat)
    requires BufOk(g, before) && BufOk(g, after) && OnGrid(g, x, y)
  {
    var from, down := x - xstep, y - ystep;
    if x < g.width && y < g.height && 0 <= from < g.width && 0 <= down < g.height then
      ScreenOnGrid(g, from, down);
      Pix(g, after, x, y) == Pix(g, before, from, down)
    else Pix(g, after, x, y) == Pix(g, before, x, y)
  }

  lemma ScrolledShifts(g: Geometry, before: seq<Unit>, after: seq<Unit>, xstep: int, ystep: int, x: nat, y: nat)
    requires BufOk(g, before) && OnGrid(g, x, y)
    requires var o := Scrolled(g, before, xstep, ystep); Laid(g, before, after, o, o.Keys)
    ensures ShiftedAt(g, before, after, xstep, ystep, x, y)
  {
    var o := Scrolled(g, before, xstep, ystep);
    assert LaidAt(g, before, after, o, o.Keys, x, y);
  }

  ghost predicate Shifted(g: Geometry, before: seq<Unit>, after: seq<Unit>, xstep: int, ystep: int) {
    && BufOk(g, before) && BufOk(g, after)
    && forall x: nat, y: nat {:trigger ShiftedAt(g, before, after, xstep, ystep, x, y)} ::
      OnGrid(g, x, y) ==> ShiftedAt(g, before, after, xstep, ystep, x, y)
  }

  // framebuf_scroll, for all steps with which it ends.
  method Scroll(fb: FrameBuffer, xstep: int, ystep: int)
    requires fb.Valid() && ScrollEnds(fb.g, xstep, ystep)
    modifies fb.buf
    ensures var o := Scrolled(fb.g, old(fb.buf[..]), xstep, ystep);
      fb.Valid() && Laid(fb.g, old(fb.buf[..]), fb.buf[..], o, o.Keys)
    ensures Shifted(fb.g, old(fb.buf[..]), fb.buf[..], xstep, ystep)
  {
    ghost var before := fb.buf[..];
    CopyRows(fb, xstep, ystep);
    forall x: nat, y: nat | OnGrid(fb.g, x, y) ensures ShiftedAt(fb.g, before, fb.buf[..], xstep, ystep, x, y) {
      ScrolledShifts(fb.g, before, fb.buf[..], xstep, ystep, x, y);
    }
  }

  // Its loops.
  method CopyRows(fb: FrameBuffer, xstep: int, ystep: int)
    requires fb.Valid() && ScrollEnds(fb.g, xstep, ystep)
    modifies fb.buf
    ensures var o := Scrolled(fb.g, old(fb.buf[..]), xstep, ystep);
      fb.Valid() && Laid(fb.g, old(fb.buf[..]), fb.buf[..], o, o.Keys)
  {
    ghost var before := fb.buf[..];
    ghost var o := Scrolled(fb.g, before, xstep, ystep);
    var sx, xend, dx := 0, fb.g.width + xstep, 1;
    if xstep >= 0 {
      sx, xend, dx := fb.g.width - 1, xstep - 1, -1;
    }
    var y, yend, dy := 0, fb.g.height + ystep, 1;
    if ystep >= 0 {
      y, yend, dy := fb.g.height - 1, ystep - 1, -1;
    }
    LayNone(fb.g, before, o);
    SameLaid(fb.g, before, before, o, iset{}, Visited(sx, y, dx, dy));
    while y != yend
      invariant if dy > 0 then 0 <= y <= yend else yend <= y < fb.g.height
      invariant Laid(fb.g, before, fb.buf[..], o, Visited(sx, y, dx, dy))
      decreases if dy > 0 then yend - y else y - yend
    {
      ScrollRow(fb, sx, xend, dx, y, dy, xstep, ystep, before);
      SameLaid(fb.g, before, fb.buf[..], o, Visited(xend, y, dx, dy), Visited(sx, y + dy, dx, dy));
      y := y + dy;
    }
    SameLaid(fb.g, before, fb.buf[..], o, Visited(sx, y, dx, dy), o.Keys);
  }

  // Its inner loop.
  method ScrollRow(fb: FrameBuffer, sx: int, xend: int, dx: int, y: int, dy: int, xstep: int, ystep: int,
      ghost before: seq<Unit>)
    requires BufOk(fb.g, before) && 0 <= y < fb.g.height && 0 <= y - ystep < fb.g.height
    requires dx == (if xstep < 0 then 1 else -1) && dy == (if ystep < 0 then 1 else -1)
    requires if xstep < 0 then sx == 0 <= xend == fb.g.width + xstep else sx == fb.g.width - 1 >= xend == xstep - 1
    requires var o := Scrolled(fb.g, before, xstep, ystep); Laid(fb.g, before, fb.buf[..], o, Visited(sx, y, dx, dy))
    modifies fb.buf
    ensures var o := Scrolled(fb.g, before, xstep, ystep); Laid(fb.g, before, fb.buf[..], o, Visited(xend, y, dx, dy))
  {
    ghost var o := Scrolled(fb.g, before, xstep, ystep);
    var x := sx;
    while x != xend
      invariant if dx > 0 then 0 <= x <= xend else xend <= x < fb.g.width
      invariant Laid(fb.g, before, fb.buf[..], o, Visited(x, y, dx, dy))
      decreases if dx > 0 then xend - x else x - xend
    {
      ScrollPixel(fb, x, y, xstep, ystep, before, o, Visited(x, y, dx, dy), Visited(x + dx, y, dx, dy));
      x := x + dx;
    }
  }

  method ScrollPixel(fb: FrameBuffer, x: nat, y: nat, xstep: int, ystep: int,
                     ghost before: seq<Unit>, ghost o: Overlay, ghost done: Region, ghost target: Region)
    requires Laid(fb.g, before, fb.buf[..], o, done) && o == Scrolled(fb.g, before, xstep, ystep)
    requires Moves(fb.g, xstep, ystep, x, y) && (x - xstep, y - ystep) !in done
    requires forall px: nat, py: nat ::
      (px, py) in o ==> ((px, py) in target <==> (px, py) in done || (px == x && py == y))
    modifies fb.buf
    ensures Laid(fb.g, before, fb.buf[..], o, target)
  {
    ghost var s := fb.buf[..];
    ScreenOnGrid(fb.g, x - xstep, y - ystep);
    ScreenOnGrid(fb.g, x, y);
    var c := fb.GetPixel(x - xstep, y - ystep);
    SourceIntact(fb.g, before, s, o, done, x, y, xstep, ystep);
    NormRead(fb.g, s, x - xstep, y - ystep);
    fb.SetPixel(x, y, c as bv32);
    LayNext(fb.g, before, s, o, done, target, x, y, c as bv32);
  }

  lemma SourceIntact(g: Geometry, before: seq<Unit>, s: seq<Unit>, o: Overlay, done: Region, x: nat, y: nat,
      xstep: int, ystep: int)
    requires Laid(g, before, s, o, done) && o == Scrolled(g, before, xstep, ystep)
    requires Moves(g, xstep, ystep, x, y) && (x - xstep, y - ystep) !in done
    ensures (x, y) in o && o[(x, y)] == Pix(g, s, x - xstep, y - ystep)
  {
    ScreenOnGrid(g, x - xstep, y - ystep);
    assert LaidAt(g, before, s, o, done, x - xstep, y - ystep);
  }

  lemma NormRead(g: Geometry, buf: seq<Unit>, x: nat, y: nat)
    requires BufOk(g, buf) && OnGrid(g, x, y)
    ensures Norm(g.format, Pix(g, buf, x, y) as bv32) == Pix(g, buf, x, y)
  {
    IndexBound(g, x, y);
    NormPix(g.format, buf[g.Index(x, y)], g.Slot(x, y));
  }

  // Scrolling there and back restores every pixel that stayed on the screen both times.
  lemma ScrollBack(g: Geometry, a: seq<Unit>, b: seq<Unit>, c: seq<Unit>, xstep: int, ystep: int, x: nat, y: nat)
    requires BufOk(g, a)
    requires var o := Scrolled(g, a, xstep, ystep); Laid(g, a, b, o, o.Keys)
    requires var o := Scrolled(g, b, -xstep, -ystep); Laid(g, b, c, o, o.Keys)
    requires OnGrid(g, x, y) && Moves(g, -xstep, -ystep, x, y)
    ensures Pix(g, c, x, y) == Pix(g, a, x, y)
  {
    var o, o' := Scrolled(g, a, xstep, ystep), Scrolled(g, b, -xstep, -ystep);
    ScreenOnGrid(g, x + xstep, y + ystep);
    assert LaidAt(g, b, c, o', o'.Keys, x, y);
    assert LaidAt(g, a, b, o, o.Keys, x + xstep, y + ystep);
  }

  // ---------- blit ----------

  predicate Shown(g: Geometry, sg: Geometry, x: int, y: int, px: nat, py: nat) {
    px < g.width && py < g.height && 0 <= px - x < sg.width && 0 <= py - y < sg.height
  }

  function Color(g: Geometry, buf: seq<Unit>, x: nat, y: nat): bv32
    requires BufOk(g, buf) && OnGrid(g, x, y)
  {
    Pix(g, buf, x, y) as bv32
  }

  // What a blit writes: the source's on-screen pixels that are not the key color.
  ghost function Blitted(g: Geometry, sg: Geometry, source: seq<Unit>, x: int, y: int, key: bv32): Overlay
    requires BufOk(sg, source)
  {
    imap p: (nat, nat) | Shown(g, sg, x, y, p.0, p.1) && Color(sg, source, p.0 - x, p.1 - y) != key ::
      Norm(g.format, Color(sg, source, p.0 - x, p.1 - y))
  }

  // A pixel on which one of the source lies has its color, unless that is the key; any other
  // pixel is as before.
  ghost predicate BlendedAt(g: Geometry, before: seq<Unit>, after: seq<Unit>, sg: Geometry, source: seq<Unit>, x: int,
      y: int, key: bv32, px: nat, py: nat)
    requires BufOk(g, before) && BufOk(g, after) && BufOk(sg, source) && OnGrid(g, px, py)
  {
    var sx, sy := px - x, py - y;
    if px < g.width && py < g.height && 0 <= sx < sg.width && 0 <= sy < sg.height then
      ScreenOnGrid(sg, sx, sy);
      var color := Color(sg, source, sx, sy);
      Pix(g, after, px, py) == if color != key then Norm(g.format, color) else Pix(g, before, px, py)
    else Pix(g, after, px, py) == Pix(g, before, px, py)
  }

  ghost predicate Blended(g: Geometry, before: seq<Unit>, after: seq<Unit>, sg: Geometry, source: seq<Unit>, x: int,
      y: int, key: bv32)
  {
    && BufOk(g, before) && BufOk(g, after) && BufOk(sg, source)
    && forall px: nat, py: nat {:trigger BlendedAt(g, before, after, sg, source, x, y, key, px, py)} ::
      OnGrid(g, px, py) ==> BlendedAt(g, before, after, sg, source, x, y, key, px, py)
  }

  lemma BlittedAt(g: Geometry, sg: Geometry, source: seq<Unit>, x: int, y: int, key: bv32, px: nat, py: nat)
    requires BufOk(sg, source)
    ensures var o := Blitted(g, sg, source, x, y, key);
      (px, py) in o <==> Shown(g, sg, x, y, px, py) && Color(sg, source, px - x, py - y) != key
    ensures var o := Blitted(g, sg, source, x, y, key);
      (px, py) in o ==> o[(px, py)] == Norm(g.format, Color(sg, source, px - x, py - y))
  {
  }

  lemma BlittedBlends(g: Geometry, before: seq<Unit>, after: seq<Unit>, sg: Geometry, source: seq<Unit>, x: int, y: int,
      key: bv32, o: Overlay, px: nat, py: nat)
    requires BufOk(sg, source) && OnGrid(g, px, py)
    requires o == Blitted(g, sg, source, x, y, key) && Laid(g, before, after, o, o.Keys)
    ensures BlendedAt(g, before, after, sg, source, x, y, key, px, py)
  {
    assert LaidAt(g, before, after, o, o.Keys, px, py);
    BlittedAt(g, sg, source, x, y, key, px, py);
  }

  // framebuf_blit, from a buffer that shares no memory with the destination.
  method Blit(fb: FrameBuffer, source: FrameBuffer, x: int, y: int, key: bv32)
    requires fb.Valid() && source.Valid() && fb.buf != source.buf
    modifies fb.buf
    ensures var o := Blitted(fb.g, source.g, source.buf[..], x, y, key);
      fb.Valid() && Laid(fb.g, old(fb.buf[..]), fb.buf[..], o, o.Keys)
    ensures Blended(fb.g, old(fb.buf[..]), fb.buf[..], source.g, source.buf[..], x, y, key)
  {
    ghost var before := fb.buf[..];
    CopyColors(fb, source, x, y, key);
    forall px: nat, py: nat | OnGrid(fb.g, px, py)
      ensures BlendedAt(fb.g, before, fb.buf[..], source.g, source.buf[..], x, y, key, px, py)
    {
      var o := Blitted(fb.g, source.g, source.buf[..], x, y, key);
      BlittedBlends(fb.g, before, fb.buf[..], source.g, source.buf[..], x, y, key, o, px, py);
    }
  }

  // Its clipping and its loops.
  method CopyColors(fb: FrameBuffer, source: FrameBuffer, x: int, y: int, key: bv32)
    requires fb.Valid() && source.Valid() && fb.buf != source.buf
    modifies fb.buf
    ensures var o := Blitted(fb.g, source.g, source.buf[..], x, y, key);
      fb.Valid() && Laid(fb.g, old(fb.buf[..]), fb.buf[..], o, o.Keys)
  {
    ghost var before := fb.buf[..];
    ghost var o := Blitted(fb.g, source.g, source.buf[..], x, y, key);
    LayNone(fb.g, before, o);
    if x >= fb.g.width || y >= fb.g.height || -x >= source.g.width || -y >= source.g.height {
      SameLaid(fb.g, before, before, o, iset{}, o.Keys);
      return;
    }
    var x0, y0 := if x > 0 then x else 0, if y > 0 then y else 0;
    var x1, y1 := if -x > 0 then -x else 0, if -y > 0 then -y else 0;
    var x0end := if fb.g.width < x + source.g.width then fb.g.width else x + source.g.width;
    var y0end := if fb.g.height < y + source.g.height then fb.g.height else y + source.g.height;
    SameLaid(fb.g, before, before, o, iset{}, Visited(x0, y0, 1, 1));
    while y0 < y0end
      invariant y0 <= y0end && y1 == y0 - y && 0 <= y0 && 0 <= y1
      invariant Laid(fb.g, before, fb.buf[..], o, Visited(x0, y0, 1, 1))
      invariant source.Valid() && o == Blitted(fb.g, source.g, source.buf[..], x, y, key)
    {
      BlitRow(fb, source, x, y, key, x0, y0, x1, y1, x0end, before);
      SameLaid(fb.g, before, fb.buf[..], o, Visited(x0end, y0, 1, 1), Visited(x0, y0 + 1, 1, 1));
      y0 := y0 + 1;
      y1 := y1 + 1;
    }
    SameLaid(fb.g, before, fb.buf[..], o, Visited(x0, y0, 1, 1), o.Keys);
  }

  // Its inner loop.
  method BlitRow(fb: FrameBuffer, source: FrameBuffer, x: int, ghost y: int, key: bv32, x0: int, y0: int, x1: int,
      y1: int, x0end: int, ghost before: seq<Unit>)
    requires source.Valid() && fb.buf != source.buf
    requires x0 == (if x > 0 then x else 0) <= x0end <= fb.g.width && x0end <= x + source.g.width && x1 == x0 - x
    requires 0 <= y0 < fb.g.height && y1 == y0 - y && 0 <= y1 < source.g.height
    requires Laid(fb.g, before, fb.buf[..], Blitted(fb.g, source.g, source.buf[..], x, y, key), Visited(x0, y0, 1, 1))
    modifies fb.buf
    ensures Laid(fb.g, before, fb.buf[..], Blitted(fb.g, source.g, source.buf[..], x, y, key), Visited(x0end, y0, 1, 1))
  {
    ghost var o := Blitted(fb.g, source.g, source.buf[..], x, y, key);
    ghost var pixels := source.buf[..];
    var cx0, cx1 := x0, x1;
    while cx0 < x0end
      invariant x0 <= cx0 <= x0end && cx1 == cx0 - x
      invariant source.buf[..] == pixels
      invariant Laid(fb.g, before, fb.buf[..], o, Visited(cx0, y0, 1, 1))
    {
      BlitPixel(fb, source, cx0, y0, cx1, y1, x, y, key, before, o, Visited(cx0, y0, 1, 1), Visited(cx0 + 1, y0, 1, 1));
      cx0 := cx0 + 1;
      cx1 := cx1 + 1;
    }
  }

  method SourceColor(source: FrameBuffer, x1: nat, y1: nat) returns (color: bv32)
    requires source.Valid() && OnGrid(source.g, x1, y1)
    ensures color == Color(source.g, source.buf[..], x1, y1)
  {
    var c := source.GetPixel(x1, y1);
    color := c as bv32;
  }

  method BlitPixel(fb: FrameBuffer, source: FrameBuffer, x0: nat, y0: nat, x1: nat, y1: nat, ghost x: int,
      ghost y: int, key: bv32, ghost before: seq<Unit>, ghost o: Overlay, ghost done: Region, ghost target: Region)
    requires source.Valid() && fb.buf != source.buf && Laid(fb.g, before, fb.buf[..], o, done)
    requires o == Blitted(fb.g, source.g, source.buf[..], x, y, key)
    requires Shown(fb.g, source.g, x, y, x0, y0) && x1 == x0 - x && y1 == y0 - y
    requires forall px: nat, py: nat ::
      (px, py) in o ==> ((px, py) in target <==> (px, py) in done || (px == x0 && py == y0))
    modifies fb.buf
    ensures Laid(fb.g, before, fb.buf[..], o, target)
  {
    ghost var s := fb.buf[..];
    var color := SourceColor(source, x1, y1);
    assert color == Color(source.g, source.buf[..], x0 - x, y0 - y);
    if color != key {
      fb.SetPixel(x0, y0, color);
      LayNext(fb.g, before, s, o, done, target, x0, y0, color);
    } else {
      SameLaid(fb.g, before, s, o, done, target);
    }
  }
}
