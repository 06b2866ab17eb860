// extmod/modframebuf.c, pixels and rectangle fills: the five fast fill loops leave exactly
// the buffer that setting the pixels one by one would leave.

module FrameBufPixels {
  import opened FrameBufFormat

  predicate BufOk(g: Geometry, buf: seq<Unit>) {
    g.Valid() && |buf| >= g.Units() && forall j :: 0 <= j < |buf| ==> UnitOk(g.format, buf[j])
  }

  predicate OnGrid(g: Geometry, x: nat, y: nat) {
    x < g.stride && y < g.Rows()
  }

  // getpixel
  function Pix(g: Geometry, buf: seq<Unit>, x: nat, y: nat): Unit
    requires BufOk(g, buf) && OnGrid(g, x, y)
  {
    IndexBound(g, x, y);
    SlotGet(g.format, buf[g.Index(x, y)], g.Slot(x, y))
  }

  // setpixel
  function Set(g: Geometry, buf: seq<Unit>, x: nat, y: nat, col: bv32): (r: seq<Unit>)
    requires BufOk(g, buf) && OnGrid(g, x, y)
    ensures BufOk(g, r) && |r| == |buf|
  {
    IndexBound(g, x, y);
    var j := g.Index(x, y);
    PutGet(g.format, buf[j], g.Slot(x, y), col, g.Slot(x, y));
    buf[j := SlotPut(g.format, buf[j], g.Slot(x, y), col)]
  }

  // Setting a pixel changes that pixel and no other bit.
  lemma SetPix(g: Geometry, buf: seq<Unit>, x: nat, y: nat, col: bv32, px: nat, py: nat)
    requires BufOk(g, buf) && OnGrid(g, x, y) && OnGrid(g, px, py)
    ensures Pix(g, Set(g, buf, x, y, col), px, py) ==
      if px == x && py == y then Norm(g.format, col) else Pix(g, buf, px, py)
  {
    IndexBound(g, x, y);
    IndexBound(g, px, py);
    if g.Index(px, py) == g.Index(x, y) {
      PutGet(g.format, buf[g.Index(x, y)], g.Slot(x, y), col, g.Slot(px, py));
      if g.Slot(px, py) == g.Slot(x, y) { PixelsDistinct(g, px, py, x, y); }
    }
  }

  // ---------- the formats, bit by bit ----------

  // The bits of a byte from the left, and from the right.
  const FROM_LEFT: seq<Unit> := [0x80, 0x40, 0x20, 0x10, 0x08, 0x04, 0x02, 0x01]
  const FROM_RIGHT: seq<Unit> := [0x01, 0x02, 0x04, 0x08, 0x10, 0x20, 0x40, 0x80]

  function OnOff(u: Unit, mask: Unit, on: bool): Unit {
    if on then u | mask else u & !mask
  }

  // Bit mask of unit j is on or off now, and nothing else has changed.
  predicate BitWritten(before: seq<Unit>, after: seq<Unit>, j: nat, mask: Unit, on: bool) {
    j < |before| && after == before[j := OnOff(before[j], mask, on)]
  }

  // The layouts: leftmost pixel in the highest bit or in the lowest one, eight rows in a byte
  // with the topmost in the lowest bit, two pixels in a byte with the left one in the high
  // half, a pixel a word.
  predicate Written(g: Geometry, before: seq<Unit>, after: seq<Unit>, x: nat, y: nat, col: bv32) {
    match g.format
    case MHLSB => BitWritten(before, after, (x + y * g.stride) / 8, FROM_LEFT[x % 8], col != 0)
    case MHMSB => BitWritten(before, after, (x + y * g.stride) / 8, FROM_RIGHT[x % 8], col != 0)
    case MVLSB => BitWritten(before, after, (y / 8) * g.stride + x, FROM_RIGHT[y % 8], col != 0)
    case GS4_HMSB =>
      var j, grey := (x + y * g.stride) / 2, (col & 0xF) as bv16;
      j < |before|
      && after == before[j := if x % 2 == 0 then (grey << 4) | (before[j] & 0x0F) else (before[j] & 0xF0) | grey]
    case RGB565 =>
      x + y * g.stride < |before| && after == before[x + y * g.stride := (col & 0xFFFF) as bv16]
  }

  predicate Displayed(g: Geometry, buf: seq<Unit>, x: nat, y: nat, c: Unit) {
    match g.format
    case MHLSB => BitRead(buf, (x + y * g.stride) / 8, FROM_LEFT[x % 8], c)
    case MHMSB => BitRead(buf, (x + y * g.stride) / 8, FROM_RIGHT[x % 8], c)
    case MVLSB => BitRead(buf, (y / 8) * g.stride + x, FROM_RIGHT[y % 8], c)
    case GS4_HMSB =>
      var j := (x + y * g.stride) / 2;
      j < |buf| && c == if x % 2 == 0 then buf[j] >> 4 else buf[j] & 0x0F
    case RGB565 => x + y * g.stride < |buf| && c == buf[x + y * g.stride]
  }

  predicate BitRead(buf: seq<Unit>, j: nat, mask: Unit, c: Unit) {
    j < |buf| && c == if buf[j] & mask != 0 then 1 else 0
  }

  lemma MaskIs(k: nat)
    requires k < 8
    ensures FROM_RIGHT[k] == OneBit(k) && FROM_LEFT[k] == OneBit(7 - k)
  {
  }

  lemma NibbleIs(u: Unit, col: bv32)
    requires u <= 0xFF
    ensures LowPut(u, col) == (u & 0xF0) | ((col & 0xF) as bv16)
    ensures HighPut(u, col) == (((col & 0xF) as bv16) << 4) | (u & 0x0F)
  {
  }

  lemma MaskOr(u: Unit, mask: Unit, on: bool)
    ensures MaskPut(u, mask, on) == OnOff(u, mask, on)
  {
    if on { MaskIn(u, mask); } else { MaskOut(u, mask); }
  }

  lemma MaskIn(u: Unit, mask: Unit)
    ensures MaskPut(u, mask, true) == u | mask
  {
  }

  lemma MaskOut(u: Unit, mask: Unit)
    ensures MaskPut(u, mask, false) == u & !mask
  {
  }

  lemma BitPut(buf: seq<Unit>, j: nat, k: nat, mask: Unit, col: bv32)
    requires j < |buf| && k < 8 && mask == OneBit(k)
    ensures BitWritten(buf, buf[j := MonoPut(buf[j], k, col)], j, mask, col != 0)
  {
    MaskOr(buf[j], mask, col != 0);
  }

  lemma SlotMask(g: Geometry, x: nat, y: nat)
    ensures g.format == MHLSB ==> FROM_LEFT[x % 8] == OneBit(g.Slot(x, y))
    ensures g.format == MHMSB ==> FROM_RIGHT[x % 8] == OneBit(g.Slot(x, y))
    ensures g.format == MVLSB ==> FROM_RIGHT[y % 8] == OneBit(g.Slot(x, y))
  {
    MaskIs(x % 8);
    MaskIs(y % 8);
  }

  // setpixel and getpixel work on exactly these bits.
  lemma SetWrites(g: Geometry, buf: seq<Unit>, x: nat, y: nat, col: bv32)
    requires BufOk(g, buf) && OnGrid(g, x, y)
    ensures Written(g, buf, Set(g, buf, x, y, col), x, y, col)
  {
    IndexBound(g, x, y);
    var j, k := g.Index(x, y), g.Slot(x, y);
    if IsMono(g.format) {
      SlotMask(g, x, y);
      BitPut(buf, j, k, OneBit(k), col);
    } else if g.format == GS4_HMSB {
      NibbleIs(buf[j], col);
    }
  }

  lemma PixShows(g: Geometry, buf: seq<Unit>, x: nat, y: nat)
    requires BufOk(g, buf) && OnGrid(g, x, y)
    ensures Displayed(g, buf, x, y, Pix(g, buf, x, y))
  {
    IndexBound(g, x, y);
    if IsMono(g.format) {
      SlotMask(g, x, y);
      assert BitRead(buf, g.Index(x, y), OneBit(g.Slot(x, y)), Pix(g, buf, x, y));
    }
  }

  type Region = iset<(nat, nat)>

  ghost predicate PaintedAt(g: Geometry, before: seq<Unit>, after: seq<Unit>, col: bv32, region: Region, x: nat, y: nat)
    requires BufOk(g, before) && BufOk(g, after) && OnGrid(g, x, y)
  {
    Pix(g, after, x, y) == if (x, y) in region then Norm(g.format, col) else Pix(g, before, x, y)
  }

  // Every pixel of the region has the color; every other bit of the buffer is as before.
  ghost predicate Painted(g: Geometry, before: seq<Unit>, after: seq<Unit>, col: bv32, region: Region) {
    && BufOk(g, before) && BufOk(g, after) && |after| == |before|
    && (forall x: nat, y: nat {:trigger PaintedAt(g, before, after, col, region, x, y)} ::
          OnGrid(g, x, y) ==> PaintedAt(g, before, after, col, region, x, y))
    && (forall j :: g.Units() <= j < |before| ==> after[j] == before[j])
  }

  lemma PaintNone(g: Geometry, buf: seq<Unit>, col: bv32)
    requires BufOk(g, buf)
    ensures Painted(g, buf, buf, col, iset{})
  {
    forall x: nat, y: nat | OnGrid(g, x, y) ensures PaintedAt(g, buf, buf, col, iset{}, x, y) {}
  }

  lemma PaintOne(g: Geometry, before: seq<Unit>, buf: seq<Unit>, col: bv32, region: Region, x: nat, y: nat)
    requires Painted(g, before, buf, col, region) && OnGrid(g, x, y)
    ensures Painted(g, before, Set(g, buf, x, y, col), col, region + iset{(x, y)})
  {
    var after := Set(g, buf, x, y, col);
    forall px: nat, py: nat | OnGrid(g, px, py)
      ensures PaintedAt(g, before, after, col, region + iset{(x, y)}, px, py)
    {
      assert PaintedAt(g, before, buf, col, region, px, py);
      SetPix(g, buf, x, y, col, px, py);
    }
    IndexBound(g, x, y);
  }

  lemma SameRegion(g: Geometry, before: seq<Unit>, after: seq<Unit>, col: bv32, r1: Region, r2: Region)
    requires Painted(g, before, after, col, r1)
    requires forall x: nat, y: nat :: OnGrid(g, x, y) ==> ((x, y) in r1 <==> (x, y) in r2)
    ensures Painted(g, before, after, col, r2)
  {
    forall x: nat, y: nat | OnGrid(g, x, y) ensures PaintedAt(g, before, after, col, r2, x, y) {
      assert PaintedAt(g, before, after, col, r1, x, y);
    }
  }

  lemma PaintNext(g: Geometry, before: seq<Unit>, buf: seq<Unit>, col: bv32, region: Region, target: Region, x: nat,
      y: nat)
    requires Painted(g, before, buf, col, region) && OnGrid(g, x, y)
    requires forall px: nat, py: nat :: (px, py) in target <==> (px, py) in region || (px == x && py == y)
    ensures Painted(g, before, Set(g, buf, x, y, col), col, target)
  {
    PaintOne(g, before, buf, col, region, x, y);
    SameRegion(g, before, Set(g, buf, x, y, col), col, region + iset{(x, y)}, target);
  }

  // Pixels and the units behind the grid determine a buffer.
  lemma PixelsDetermine(g: Geometry, a: seq<Unit>, b: seq<Unit>)
    requires BufOk(g, a) && BufOk(g, b) && |a| == |b|
    requires forall x: nat, y: nat :: OnGrid(g, x, y) ==> Pix(g, a, x, y) == Pix(g, b, x, y)
    requires forall j :: g.Units() <= j < |a| ==> a[j] == b[j]
    ensures a == b
  {
    forall j | 0 <= j < g.Units() ensures a[j] == b[j] {
      forall k | 0 <= k < SlotCount(g.format) ensures SlotGet(g.format, a[j], k) == SlotGet(g.format, b[j], k) {
        var x, y := PixelAt(g, j, k);
        assert Pix(g, a, x, y) == Pix(g, b, x, y);
      }
      SlotsDetermine(g.format, a[j], b[j]);
    }
  }

  lemma PaintedUnique(g: Geometry, before: seq<Unit>, a: seq<Unit>, b: seq<Unit>, col: bv32, region: Region)
    requires Painted(g, before, a, col, region) && Painted(g, before, b, col, region)
    ensures a == b
  {
    forall x: nat, y: nat | OnGrid(g, x, y) ensures Pix(g, a, x, y) == Pix(g, b, x, y) {
      assert PaintedAt(g, before, a, col, region, x, y) && PaintedAt(g, before, b, col, region, x, y);
    }
    PixelsDetermine(g, a, b);
  }

  // ---------- the reference: setpixel on every pixel of a rectangle ----------

  ghost function Rect(x: int, y: int, w: int, h: int): Region {
    iset px: nat, py: nat | x <= px < x + w && y <= py < y + h :: (px, py)
  }

  lemma RectGrows(region: Region, x: nat, y: nat, w: nat)
    ensures forall px: nat, py: nat :: (px, py) in region + Rect(x, y, w + 2, 1) <==>
      (px, py) in region + Rect(x, y, w, 1) || (x + w <= px <= x + w + 1 && py == y)
    ensures forall px: nat, py: nat :: (px, py) in region + Rect(x, y, w + 1, 1) <==>
      (px, py) in region + Rect(x, y, w, 1) || (px == x + w && py == y)
    ensures forall px: nat, py: nat :: (px, py) in region + Rect(x, y, 0, 1) <==> (px, py) in region
  {
  }

  lemma RectDeepens(region: Region, x: nat, y: nat, h: nat)
    ensures forall px: nat, py: nat :: (px, py) in region + Rect(x, y, 1, h + 1) <==>
      (px, py) in region + Rect(x, y, 1, h) || (px == x && py == y + h)
  {
  }

  function SetRow(g: Geometry, buf: seq<Unit>, x: nat, y: nat, w: nat, col: bv32): (r: seq<Unit>)
    requires BufOk(g, buf) && x + w <= g.stride && y < g.Rows()
    ensures BufOk(g, r) && |r| == |buf|
  {
    if w == 0 then buf else Set(g, SetRow(g, buf, x, y, w - 1, col), x + w - 1, y, col)
  }

  function SetRect(g: Geometry, buf: seq<Unit>, x: nat, y: nat, w: nat, h: nat, col: bv32): (r: seq<Unit>)
    requires BufOk(g, buf) && x + w <= g.stride && y + h <= g.Rows()
    ensures BufOk(g, r) && |r| == |buf|
  {
    if h == 0 then buf else SetRow(g, SetRect(g, buf, x, y, w, h - 1, col), x, y + h - 1, w, col)
  }

  lemma {:induction false} SetRowPaints(g: Geometry, before: seq<Unit>, buf: seq<Unit>, x: nat, y: nat, w: nat,
      col: bv32, region: Region)
    requires Painted(g, before, buf, col, region) && x + w <= g.stride && y < g.Rows()
    ensures Painted(g, before, SetRow(g, buf, x, y, w, col), col, region + Rect(x, y, w, 1))
  {
    if w == 0 {
      SameRegion(g, before, buf, col, region, region + Rect(x, y, w, 1));
    } else {
      SetRowPaints(g, before, buf, x, y, w - 1, col, region);
      var buf' := SetRow(g, buf, x, y, w - 1, col);
      var region' := region + Rect(x, y, w - 1, 1);
      RectGrows(region, x, y, w - 1);
      PaintNext(g, before, buf', col, region', region + Rect(x, y, w, 1), x + w - 1, y);
    }
  }

  lemma {:induction false} SetRectPaints(g: Geometry, buf: seq<Unit>, x: nat, y: nat, w: nat, h: nat, col: bv32)
    requires BufOk(g, buf) && x + w <= g.stride && y + h <= g.Rows()
    ensures Painted(g, buf, SetRect(g, buf, x, y, w, h, col), col, Rect(x, y, w, h))
  {
    if h == 0 {
      PaintNone(g, buf, col);
      SameRegion(g, buf, buf, col, iset{}, Rect(x, y, w, h));
    } else {
      SetRectPaints(g, buf, x, y, w, h - 1, col);
      var buf' := SetRect(g, buf, x, y, w, h - 1, col);
      SetRowPaints(g, buf, buf', x, y + h - 1, w, col, Rect(x, y, w, h - 1));
      SameRegion(g, buf, SetRow(g, buf', x, y + h - 1, w, col), col,
                 Rect(x, y, w, h - 1) + Rect(x, y + h - 1, w, 1), Rect(x, y, w, h));
    }
  }

  // A fill that paints a rectangle, in whatever order, equals the pixel-by-pixel one.
  lemma PaintedIsSetRect(g: Geometry, before: seq<Unit>, after: seq<Unit>, x: nat, y: nat, w: nat, h: nat, col: bv32)
    requires x + w <= g.stride && y + h <= g.Rows() && Painted(g, before, after, col, Rect(x, y, w, h))
    ensures after == SetRect(g, before, x, y, w, h, col)
  {
    SetRectPaints(g, before, x, y, w, h, col);
    PaintedUnique(g, before, after, SetRect(g, before, x, y, w, h, col), col, Rect(x, y, w, h));
  }
}
