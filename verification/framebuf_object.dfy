// extmod/modframebuf.c, the FrameBuffer object: its drawing loops in place.

module FrameBuf {
  import opened FrameBufFormat
  import opened FrameBufPixels

  // A rectangle after clipping, as xend - x and yend - y.
  datatype Clip = Clip(x: nat, y: nat, w: nat, h: nat)

  // The pointer steps of one GS4 row and the step to the next line add up to a line.
  lemma RowStop(x: nat, w: nat, stride: nat)
    requires stride % 2 == 0 && w <= stride
    ensures x % 2 == 1 ==> x + 1 == 2 * ((x + 1) / 2) && (x + 1) / 2 == x / 2 + 1
    ensures x % 2 == 0 ==> x == 2 * ((x + 1) / 2) && (x + 1) / 2 == x / 2
    ensures w > 0 && x % 2 == 1 ==> 1 + (w - 1) / 2 + (stride - w) / 2 == stride / 2
    ensures w == 0 || x % 2 == 0 ==> w / 2 + w % 2 + (stride - w) / 2 == stride / 2
    ensures w == w / 2 * 2 + w % 2 && (w > 0 ==> w - 1 == (w - 1) / 2 * 2 + (w - 1) % 2)
  {
  }

  // The head, the pairs and the tail of a row make its width, and end on the step's start.
  lemma RowParts(x: nat, w: nat, stride: nat, first: nat, ww: int)
    requires stride % 2 == 0 && w <= stride && first == (if x % 2 == 1 && w > 0 then 1 else 0) && ww == w - first
    ensures ww >= 0 && w == first + 2 * (ww / 2) + (if ww % 2 == 1 then 1 else 0)
    ensures first + ww / 2 + (if ww % 2 == 1 && x % 2 == 0 then 1 else 0) + (stride - w) / 2 == stride / 2
  {
    RowStop(x, w, stride);
  }

  // A memset byte is two pixels set.
  lemma PairSets(g: Geometry, s: seq<Unit>, pair: nat, x: nat, y: nat, col: bv32)
    requires g.format == GS4_HMSB && BufOk(g, s) && OnGrid(g, x, y) && OnGrid(g, x + 1, y)
    requires x % 2 == 0 && pair == Below(x / 2, y, g.stride / 2)
    ensures pair < |s| && s[pair := FillPair(col)] == Set(g, Set(g, s, x, y, col), x + 1, y, col)
  {
    BelowIndex(g, x, y);
    BelowIndex(g, x + 1, y);
    IndexBound(g, x, y);
    FillValues(s[pair], col);
  }

  lemma PaintPair(g: Geometry, before: seq<Unit>, s: seq<Unit>, col: bv32, region: Region, target: Region, x: nat,
      y: nat)
    requires Painted(g, before, s, col, region) && OnGrid(g, x, y) && OnGrid(g, x + 1, y)
    requires forall px: nat, py: nat :: (px, py) in target <==> (px, py) in region || (x <= px <= x + 1 && py == y)
    ensures Painted(g, before, Set(g, Set(g, s, x, y, col), x + 1, y, col), col, target)
  {
    PaintOne(g, before, s, col, region, x, y);
    PaintNext(g, before, Set(g, s, x, y, col), col, region + iset{(x, y)}, target, x + 1, y);
  }

  // The part of a rectangle that is on the screen.
  function Clipped(g: Geometry, x: int, y: int, w: int, h: int): (c: Clip)
    requires g.Valid()
    ensures c.x + c.w <= g.stride && c.y + c.h <= g.Rows()
  {
    if h < 1 || w < 1 || x + w <= 0 || y + h <= 0 || y >= g.height || x >= g.width then Clip(0, 0, 0, 0)
    else
      var x0 := if x > 0 then x else 0;
      var y0 := if y > 0 then y else 0;
      Clip(x0, y0, (if g.width < x + w then g.width else x + w) - x0,
          (if g.height < y + h then g.height else y + h) - y0)
  }

  lemma ClipRegion(g: Geometry, buf: seq<Unit>, x: int, y: int, w: int, h: int, col: bv32)
    requires BufOk(g, buf)
    ensures var c := Clipped(g, x, y, w, h);
      Painted(g, buf, SetRect(g, buf, c.x, c.y, c.w, c.h, col), col, Rect(x, y, w, h) * Rect(0, 0, g.width, g.height))
  {
    var c := Clipped(g, x, y, w, h);
    SetRectPaints(g, buf, c.x, c.y, c.w, c.h, col);
    SameRegion(g, buf, SetRect(g, buf, c.x, c.y, c.w, c.h, col), col, Rect(c.x, c.y, c.w, c.h),
               Rect(x, y, w, h) * Rect(0, 0, g.width, g.height));
  }

  class FrameBuffer {
    const g: Geometry
    const buf: array<Unit>

    ghost predicate Valid()
      reads buf
    {
      BufOk(g, buf[..])
    }

    constructor (g: Geometry, buf: array<Unit>)
      requires BufOk(g, buf[..])
      ensures this.g == g && this.buf == buf && Valid()
    {
      this.g, this.buf := g, buf;
    }

    // The setpixel functions.
    method SetPixel(x: nat, y: nat, col: bv32)
      requires Valid() && OnGrid(g, x, y)
      modifies buf
      ensures Valid() && buf[..] == Set(g, old(buf[..]), x, y, col)
      ensures Written(g, old(buf[..]), buf[..], x, y, col)
    {
      SetWrites(g, buf[..], x, y, col);
      IndexBound(g, x, y);
      var index, u;
      if g.format == MVLSB || g.format == MHLSB || g.format == MHMSB {
        var offset;
        if g.format == MVLSB {
          index, offset := (y / 8) * g.stride + x, y % 8;
        } else {
          index := (x + y * g.stride) / 8;
          offset := if g.format == MHMSB then x % 8 else 7 - x % 8;
        }
        assert index == g.Index(x, y) && offset == g.Slot(x, y);
        u := MonoPut(buf[index], offset, col);
      } else if g.format == RGB565 {
        index, u := x + y * g.stride, (col & 0xFFFF) as bv16;
      } else {
        index := (x + y * g.stride) / 2;
        if x % 2 == 1 {
          u := LowPut(buf[index], col);
        } else {
          u := HighPut(buf[index], col);
        }
      }
      StoreUnit(index, u, x, y, col);
    }

    method StoreUnit(index: nat, u: Unit, ghost x: nat, ghost y: nat, ghost col: bv32)
      requires Valid() && OnGrid(g, x, y) && index == g.Index(x, y) < buf.Length
      requires u == SlotPut(g.format, buf[index], g.Slot(x, y), col)
      modifies buf
      ensures Valid() && buf[..] == Set(g, old(buf[..]), x, y, col)
    {
      ghost var s := buf[..];
      buf[index] := u;
      assert buf[..] == s[index := u] == Set(g, s, x, y, col);
    }

    // The getpixel functions.
    method GetPixel(x: nat, y: nat) returns (c: bv16)
      requires Valid() && OnGrid(g, x, y)
      ensures c == Pix(g, buf[..], x, y) && Displayed(g, buf[..], x, y, c)
    {
      PixShows(g, buf[..], x, y);
      IndexBound(g, x, y);
      if g.format == MVLSB {
        c := if buf[(y / 8) * g.stride + x] & OneBit(y % 8) != 0 then 1 else 0;
      } else if g.format == RGB565 {
        c := buf[x + y * g.stride];
      } else if g.format == GS4_HMSB {
        if x % 2 == 1 {
          c := buf[(x + y * g.stride) / 2] & 0x0F;
        } else {
          c := buf[(x + y * g.stride) / 2] >> 4;
        }
      } else {
        var offset := if g.format == MHMSB then x % 8 else 7 - x % 8;
        c := if buf[(x + y * g.stride) / 8] & OneBit(offset) != 0 then 1 else 0;
      }
    }

    // *b = u, where u is unit b with pixel (x, y) set.
    method Store(b: nat, u: Unit, col: bv32, ghost x: nat, ghost y: nat, ghost before: seq<Unit>, ghost region: Region)
      requires Valid() && OnGrid(g, x, y) && Painted(g, before, buf[..], col, region)
      requires b == g.Index(x, y) < buf.Length && u == SlotPut(g.format, buf[b], g.Slot(x, y), col)
      modifies buf
      ensures Painted(g, before, buf[..], col, region + iset{(x, y)})
    {
      ghost var s := buf[..];
      StoreUnit(b, u, x, y, col);
      PaintOne(g, before, s, col, region, x, y);
    }

    // mono_horiz_fill_rect: column by column, one byte down per row.
    method MonoHorizFill(x: nat, y: nat, w: nat, h: nat, col: bv32)
      requires Valid() && (g.format == MHLSB || g.format == MHMSB)
      requires x + w <= g.stride && y + h <= g.Rows()
      modifies buf
      ensures Valid() && buf[..] == SetRect(g, old(buf[..]), x, y, w, h, col)
    {
      ghost var before := buf[..];
      PaintNone(g, before, col);
      SameRegion(g, before, before, col, iset{}, Rect(x, y, 0, h));
      var xx, ww := x, w;
      while ww > 0
        invariant x <= xx && 0 <= ww && xx + ww == x + w
        invariant Painted(g, before, buf[..], col, Rect(x, y, xx - x, h))
      {
        MonoHorizColumn(xx, y, h, col, before, Rect(x, y, xx - x, h));
        SameRegion(g, before, buf[..], col, Rect(x, y, xx - x, h) + Rect(xx, y, 1, h), Rect(x, y, xx + 1 - x, h));
        xx := xx + 1;
        ww := ww - 1;
      }
      assert xx - x == w;
      PaintedIsSetRect(g, before, buf[..], x, y, w, h, col);
    }

    // Its inner loop.
    method MonoHorizColumn(x: nat, y: nat, h: nat, col: bv32, ghost before: seq<Unit>, ghost region: Region)
      requires Painted(g, before, buf[..], col, region) && (g.format == MHLSB || g.format == MHMSB)
      requires x < g.stride && y + h <= g.Rows()
      modifies buf
      ensures Painted(g, before, buf[..], col, region + Rect(x, y, 1, h))
    {
      SameRegion(g, before, buf[..], col, region, region + Rect(x, y, 1, 0));
      var advance := g.stride / 8;
      var b := x / 8 + y * advance;
      BelowIs(x / 8, y, advance);
      var offset := if g.format == MHMSB then x % 8 else 7 - x % 8;
      var hh := h;
      while hh > 0
        invariant 0 <= hh <= h && b == Below(x / 8, y + (h - hh), advance)
        invariant Painted(g, before, buf[..], col, region + Rect(x, y, 1, h - hh))
      {
        RectDeepens(region, x, y, h - hh);
        StoreMono(b, offset, col, x, y + (h - hh), before, region + Rect(x, y, 1, h - hh),
            region + Rect(x, y, 1, h - (hh - 1)));
        b := b + advance;
        hh := hh - 1;
      }
    }

    method StoreMono(b: nat, offset: nat, col: bv32, ghost x: nat, ghost y: nat, ghost before: seq<Unit>,
        ghost region: Region, ghost target: Region)
      requires Painted(g, before, buf[..], col, region) && (g.format == MHLSB || g.format == MHMSB) && OnGrid(g, x, y)
      requires b == Below(x / 8, y, g.stride / 8) && offset == g.Slot(x, y)
      requires forall px: nat, py: nat :: (px, py) in target <==> (px, py) in region || (px == x && py == y)
      modifies buf
      ensures Painted(g, before, buf[..], col, target)
    {
      BelowIndex(g, x, y);
      IndexBound(g, x, y);
      Store(b, MonoPut(buf[b], offset, col), col, x, y, before, region);
      SameRegion(g, before, buf[..], col, region + iset{(x, y)}, target);
    }

    // mvlsb_fill_rect: row by row, one byte right per column.
    method MvlsbFill(x: nat, y: nat, w: nat, h: nat, col: bv32)
      requires Valid() && g.format == MVLSB
      requires x + w <= g.stride && y + h <= g.Rows()
      modifies buf
      ensures Valid() && buf[..] == SetRect(g, old(buf[..]), x, y, w, h, col)
    {
      ghost var before := buf[..];
      PaintNone(g, before, col);
      SameRegion(g, before, before, col, iset{}, Rect(x, y, w, 0));
      var yy, hh := y, h;
      while hh > 0
        invariant y <= yy && 0 <= hh && yy + hh == y + h
        invariant Painted(g, before, buf[..], col, Rect(x, y, w, yy - y))
      {
        MvlsbRow(x, yy, w, col, before, Rect(x, y, w, yy - y));
        SameRegion(g, before, buf[..], col, Rect(x, y, w, yy - y) + Rect(x, yy, w, 1), Rect(x, y, w, yy + 1 - y));
        yy := yy + 1;
        hh := hh - 1;
      }
      assert yy - y == h;
      PaintedIsSetRect(g, before, buf[..], x, y, w, h, col);
    }

    // Its inner loop.
    method MvlsbRow(x: nat, y: nat, w: nat, col: bv32, ghost before: seq<Unit>, ghost region: Region)
      requires Painted(g, before, buf[..], col, region) && g.format == MVLSB
      requires x + w <= g.stride && y < g.Rows()
      modifies buf
      ensures Painted(g, before, buf[..], col, region + Rect(x, y, w, 1))
    {
      SameRegion(g, before, buf[..], col, region, region + Rect(x, y, 0, 1));
      var b := (y / 8) * g.stride + x;
      var offset := y % 8;
      var ww := w;
      while ww > 0
        invariant 0 <= ww <= w && b == (y / 8) * g.stride + x + (w - ww)
        invariant Painted(g, before, buf[..], col, region + Rect(x, y, w - ww, 1))
      {
        ghost var xx := x + (w - ww);
        IndexBound(g, xx, y);
        Store(b, MonoPut(buf[b], offset, col), col, xx, y, before, region + Rect(x, y, w - ww, 1));
        SameRegion(g, before, buf[..], col, region + Rect(x, y, w - ww, 1) + iset{(xx, y)},
            region + Rect(x, y, w - (ww - 1), 1));
        b := b + 1;
        ww := ww - 1;
      }
    }

    // rgb565_fill_rect: one pointer over the whole rectangle.
    method Rgb565Fill(x: nat, y: nat, w: nat, h: nat, col: bv32)
      requires Valid() && g.format == RGB565
      requires x + w <= g.stride && y + h <= g.Rows()
      modifies buf
      ensures Valid() && buf[..] == SetRect(g, old(buf[..]), x, y, w, h, col)
    {
      ghost var before := buf[..];
      PaintNone(g, before, col);
      SameRegion(g, before, before, col, iset{}, Rect(x, y, w, 0));
      var b := x + y * g.stride;
      var hh := h;
      BelowIs(x, y, g.stride);
      while hh > 0
        invariant 0 <= hh <= h && b == Below(x, y + (h - hh), g.stride)
        invariant Painted(g, before, buf[..], col, Rect(x, y, w, h - hh))
      {
        ghost var row := y + (h - hh);
        b := Rgb565Row(b, x, row, w, col, before, Rect(x, y, w, h - hh));
        SameRegion(g, before, buf[..], col, Rect(x, y, w, h - hh) + Rect(x, row, w, 1), Rect(x, y, w, h - (hh - 1)));
        b := b + (g.stride - w);
        hh := hh - 1;
      }
      PaintedIsSetRect(g, before, buf[..], x, y, w, h, col);
    }

    // Its inner loop.
    method Rgb565Row(start: nat, ghost x: nat, ghost y: nat, w: nat, col: bv32, ghost before: seq<Unit>,
        ghost region: Region)
      returns (b: nat)
      requires Painted(g, before, buf[..], col, region) && g.format == RGB565
      requires x + w <= g.stride && y < g.Rows() && start == Below(x, y, g.stride)
      modifies buf
      ensures Painted(g, before, buf[..], col, region + Rect(x, y, w, 1))
      ensures b == start + w
    {
      SameRegion(g, before, buf[..], col, region, region + Rect(x, y, 0, 1));
      b := start;
      var ww := w;
      while ww > 0
        invariant 0 <= ww <= w && b == start + (w - ww)
        invariant Painted(g, before, buf[..], col, region + Rect(x, y, w - ww, 1))
      {
        ghost var xx := x + (w - ww);
        BelowIs(x, y, g.stride);
        IndexBound(g, xx, y);
        Store(b, (col & 0xFFFF) as bv16, col, xx, y, before, region + Rect(x, y, w - ww, 1));
        SameRegion(g, before, buf[..], col, region + Rect(x, y, w - ww, 1) + iset{(xx, y)},
            region + Rect(x, y, w - (ww - 1), 1));
        b := b + 1;
        ww := ww - 1;
      }
    }

    // gs4_hmsb_fill_rect: the odd nibbles at both ends of a row, memset in between.
    method Gs4Fill(x: nat, y: nat, w: nat, h: nat, col: bv32)
      requires Valid() && g.format == GS4_HMSB
      requires x + w <= g.stride && y + h <= g.Rows()
      modifies buf
      ensures Valid() && buf[..] == SetRect(g, old(buf[..]), x, y, w, h, col)
    {
      ghost var before := buf[..];
      PaintNone(g, before, col);
      SameRegion(g, before, before, col, iset{}, Rect(x, y, w, 0));
      var pixelPair := (x + y * g.stride) / 2;
      var toNextLine := (g.stride - w) / 2;
      var hh := h;
      DivByStep(x, y, g.stride / 2, 2);
      BelowIs(x / 2, y, g.stride / 2);
      while hh > 0
        invariant 0 <= hh <= h && pixelPair == Below(x / 2, y + (h - hh), g.stride / 2)
        invariant Painted(g, before, buf[..], col, Rect(x, y, w, h - hh))
      {
        ghost var row := y + (h - hh);
        pixelPair := Gs4Row(pixelPair, x, row, w, col, before, Rect(x, y, w, h - hh));
        SameRegion(g, before, buf[..], col, Rect(x, y, w, h - hh) + Rect(x, row, w, 1), Rect(x, y, w, h - (hh - 1)));
        pixelPair := pixelPair + toNextLine;
        hh := hh - 1;
      }
      PaintedIsSetRect(g, before, buf[..], x, y, w, h, col);
    }

    // One row of it; the pointer stops so that adding (stride - w) / 2 reaches the next row
    // whatever the parities of x and w.
    method Gs4Row(start: nat, x: nat, ghost y: nat, w: nat, col: bv32, ghost before: seq<Unit>, ghost region: Region)
      returns (pair: nat)
      requires Painted(g, before, buf[..], col, region) && g.format == GS4_HMSB
      requires x + w <= g.stride && y < g.Rows() && start == Below(x / 2, y, g.stride / 2)
      modifies buf
      ensures Painted(g, before, buf[..], col, region + Rect(x, y, w, 1))
      ensures pair + (g.stride - w) / 2 == start + g.stride / 2
    {
      var oddX := x % 2 == 1;
      ghost var half := (x + 1) / 2;
      var first := Gs4Head(start, oddX, x, y, w, col, before, region);
      var ww := w - first;
      RowParts(x, w, g.stride, first, ww);
      pair := MemsetPairs(start + first, ww / 2, half, first, x, y, col, before, region);
      pair := Gs4Tail(pair, ww % 2 == 1, oddX, half + ww / 2, first + 2 * (ww / 2), x, y, w, col, before, region);
    }

    // A row that ends on an even pixel sets that one last, and steps past it unless the row
    // started odd.
    method Gs4Tail(pair: nat, oddEnd: bool, oddX: bool, ghost half: nat, ghost done: nat, ghost x: nat, ghost y: nat,
        ghost w: nat, col: bv32, ghost before: seq<Unit>, ghost region: Region)
      returns (next: nat)
      requires Painted(g, before, buf[..], col, region + Rect(x, y, done, 1)) && g.format == GS4_HMSB
      requires w == done + (if oddEnd then 1 else 0) && x + w <= g.stride && y < g.Rows()
      requires oddEnd ==> x + done == 2 * half && pair == Below(half, y, g.stride / 2)
      modifies buf
      ensures Painted(g, before, buf[..], col, region + Rect(x, y, w, 1))
      ensures next == pair + if oddEnd && !oddX then 1 else 0
    {
      next := pair;
      if oddEnd {
        RectGrows(region, x, y, done);
        Halves(half, 0);
        Gs4End(pair, false, col, 2 * half, y, before, region + Rect(x, y, done, 1), region + Rect(x, y, w, 1));
        if !oddX {
          next := next + 1;
        }
      }
    }

    // A row that starts on an odd pixel takes that one first.
    method Gs4Head(start: nat, oddX: bool, ghost x: nat, ghost y: nat, w: nat, col: bv32, ghost before: seq<Unit>,
        ghost region: Region)
      returns (first: nat)
      requires Painted(g, before, buf[..], col, region) && g.format == GS4_HMSB && oddX == (x % 2 == 1)
      requires x + w <= g.stride && y < g.Rows() && start == Below(x / 2, y, g.stride / 2)
      modifies buf
      ensures first == if oddX && w > 0 then 1 else 0
      ensures Painted(g, before, buf[..], col, region + Rect(x, y, first, 1))
      ensures w > first ==> x + first == 2 * ((x + 1) / 2) && start + first == Below((x + 1) / 2, y, g.stride / 2)
    {
      RowStop(x, w, g.stride);
      RectGrows(region, x, y, 0);
      if oddX && w > 0 {
        Gs4End(start, true, col, x, y, before, region, region + Rect(x, y, 1, 1));
        BelowShift(x / 2, 1, y, g.stride / 2);
        first := 1;
      } else {
        SameRegion(g, before, buf[..], col, region, region + Rect(x, y, 0, 1));
        first := 0;
      }
    }

    // The single nibble at an odd start or an odd end of a row.
    method Gs4End(pair: nat, low: bool, col: bv32, ghost x: nat, ghost y: nat, ghost before: seq<Unit>,
        ghost region: Region, ghost target: Region)
      requires Painted(g, before, buf[..], col, region) && g.format == GS4_HMSB && OnGrid(g, x, y)
      requires low == (x % 2 == 1) && pair == Below(x / 2, y, g.stride / 2)
      requires forall px: nat, py: nat :: (px, py) in target <==> (px, py) in region || (px == x && py == y)
      modifies buf
      ensures Painted(g, before, buf[..], col, target)
    {
      BelowIndex(g, x, y);
      IndexBound(g, x, y);
      FillValues(buf[pair], col);
      if low {
        Store(pair, FillLow(buf[pair], col), col, x, y, before, region);
      } else {
        Store(pair, FillHigh(buf[pair], col), col, x, y, before, region);
      }
      SameRegion(g, before, buf[..], col, region + iset{(x, y)}, target);
    }

    // memset(pixel_pair, colored_pixel_pair, n): each unit is two pixels.
    method MemsetPairs(start: nat, n: nat, ghost half: nat, ghost done: nat, ghost x: nat, ghost y: nat, col: bv32,
        ghost before: seq<Unit>, ghost region: Region)
      returns (pair: nat)
      requires g.format == GS4_HMSB && x + done + 2 * n <= g.stride && y < g.Rows()
      requires n > 0 ==> x + done == 2 * half && start == Below(half, y, g.stride / 2)
      requires Painted(g, before, buf[..], col, region + Rect(x, y, done, 1))
      modifies buf
      ensures Painted(g, before, buf[..], col, region + Rect(x, y, done + 2 * n, 1))
      ensures pair == start + n
      ensures n > 0 ==> pair == Below(half + n, y, g.stride / 2)
    {
      pair := start;
      var i := 0;
      while i < n
        invariant 0 <= i <= n && pair == start + i
        invariant n > 0 ==> pair == Below(half + i, y, g.stride / 2)
        invariant Painted(g, before, buf[..], col, region + Rect(x, y, done + 2 * i, 1))
      {
        RectGrows(region, x, y, done + 2 * i);
        Halves(half + i, 0);
        StorePair(pair, col, 2 * (half + i), y, before, region + Rect(x, y, done + 2 * i, 1),
            region + Rect(x, y, done + 2 * (i + 1), 1));
        BelowShift(half + i, 1, y, g.stride / 2);
        pair := pair + 1;
        i := i + 1;
      }
    }

    method StorePair(pair: nat, col: bv32, ghost x: nat, ghost y: nat, ghost before: seq<Unit>, ghost region: Region,
        ghost target: Region)
      requires g.format == GS4_HMSB && Painted(g, before, buf[..], col, region)
      requires OnGrid(g, x, y) && OnGrid(g, x + 1, y) && x % 2 == 0 && pair == Below(x / 2, y, g.stride / 2)
      requires forall px: nat, py: nat :: (px, py) in target <==> (px, py) in region || (x <= px <= x + 1 && py == y)
      modifies buf
      ensures Painted(g, before, buf[..], col, target)
    {
      ghost var s := buf[..];
      PairSets(g, s, pair, x, y, col);
      buf[pair] := FillPair(col);
      assert buf[..] == s[pair := FillPair(col)];
      PaintPair(g, before, s, col, region, target, x, y);
    }

    // formats[format].fill_rect
    method FillDispatch(x: nat, y: nat, w: nat, h: nat, col: bv32)
      requires Valid() && x + w <= g.stride && y + h <= g.Rows()
      modifies buf
      ensures Valid() && buf[..] == SetRect(g, old(buf[..]), x, y, w, h, col)
    {
      if g.format == MVLSB {
        MvlsbFill(x, y, w, h, col);
      } else if g.format == RGB565 {
        Rgb565Fill(x, y, w, h, col);
      } else if g.format == GS4_HMSB {
        Gs4Fill(x, y, w, h, col);
      } else {
        MonoHorizFill(x, y, w, h, col);
      }
    }

    // fill_rect: clip, then fill. Exactly the on-screen pixels of the rectangle are set.
    method FillRect(x: int, y: int, w: int, h: int, col: bv32)
      requires Valid()
      modifies buf
      ensures Valid() && Painted(g, old(buf[..]), buf[..], col, Rect(x, y, w, h) * Rect(0, 0, g.width, g.height))
      ensures var c := Clipped(g, x, y, w, h); buf[..] == SetRect(g, old(buf[..]), c.x, c.y, c.w, c.h, col)
    {
      ghost var before := buf[..];
      ghost var c := Clipped(g, x, y, w, h);
      ClipRegion(g, before, x, y, w, h, col);
      if h < 1 || w < 1 || x + w <= 0 || y + h <= 0 || y >= g.height || x >= g.width {
        return;
      }
      var xend := if g.width < x + w then g.width else x + w;
      var yend := if g.height < y + h then g.height else y + h;
      var x0 := if x > 0 then x else 0;
      var y0 := if y > 0 then y else 0;
      FillDispatch(x0, y0, xend - x0, yend - y0, col);
    }

    // framebuf_fill
    method Fill(col: bv32)
      requires Valid()
      modifies buf
      ensures Valid() && buf[..] == SetRect(g, old(buf[..]), 0, 0, g.width, g.height, col)
    {
      FillDispatch(0, 0, g.width, g.height, col);
    }
  }

}
