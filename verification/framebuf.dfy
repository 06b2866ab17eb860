// extmod/modframebuf.c: five packed pixel formats over one buffer, and what the packing means
// for a plain grid of pixels.

module FrameBufFormat {

  datatype Format = MVLSB | RGB565 | GS4_HMSB | MHLSB | MHMSB

  // A buffer cell: a byte, or a 16-bit word for RGB565.
  type Unit = bv16

  predicate IsMono(f: Format) {
    f != RGB565 && f != GS4_HMSB
  }

  // Pixels in one unit.
  function SlotCount(f: Format): nat {
    if IsMono(f) then 8 else if f == GS4_HMSB then 2 else 1
  }

  predicate UnitOk(f: Format, u: Unit) {
    f == RGB565 || u <= 0xFF
  }

  // 1 << k
  function OneBit(k: nat): Unit
    requires k < 8
  {
    if k == 0 then 0x01 else if k == 1 then 0x02 else if k == 2 then 0x04 else if k == 3 then 0x08
    else if k == 4 then 0x10 else if k == 5 then 0x20 else if k == 6 then 0x40 else 0x80
  }

  // The color a pixel holds after it has been set to col.
  function Norm(f: Format, col: bv32): Unit {
    if IsMono(f) then (if col != 0 then 1 else 0)
    else if f == GS4_HMSB then (col & 0xF) as bv16
    else (col & 0xFFFF) as bv16
  }

  // What the getpixel functions read from a unit; slot 0 of GS4 is the high nibble.
  function SlotGet(f: Format, u: Unit, k: nat): Unit
    requires k < SlotCount(f)
  {
    if IsMono(f) then (if u & OneBit(k) != 0 then 1 else 0)
    else if f == GS4_HMSB then (if k == 1 then u & 0x0F else u >> 4)
    else u
  }

  // *b & ~(1 << k) | (col != 0) << k
  function MonoPut(u: Unit, k: nat, col: bv32): Unit
    requires k < 8
  {
    MaskPut(u, OneBit(k), col != 0)
  }

  function MaskPut(u: Unit, mask: Unit, on: bool): Unit {
    (u & !mask) | (if on then mask else 0)
  }

  // The two assignments of gs4_hmsb_setpixel, cut to a byte.
  function LowPut(u: Unit, col: bv32): Unit {
    (((col & 0xFF) as bv16) & 0x0F) | (u & 0xF0)
  }

  function HighPut(u: Unit, col: bv32): Unit {
    ((((col & 0xFF) as bv16) << 4) & 0xFF) | (u & 0x0F)
  }

  // What the setpixel functions write to a unit.
  function SlotPut(f: Format, u: Unit, k: nat, col: bv32): Unit
    requires k < SlotCount(f)
  {
    if IsMono(f) then MonoPut(u, k, col)
    else if f == GS4_HMSB then (if k == 1 then LowPut(u, col) else HighPut(u, col))
    else (col & 0xFFFF) as bv16
  }

  lemma MonoBits(u: Unit, j: nat, k: nat, col: bv32)
    requires j < 8 && k < 8
    ensures (MonoPut(u, k, col) & OneBit(j) != 0) == if j == k then col != 0 else u & OneBit(j) != 0
  {
  }

  lemma MonoSmall(u: Unit, k: nat, col: bv32)
    requires k < 8 && u <= 0xFF
    ensures MonoPut(u, k, col) <= 0xFF
  {
  }

  lemma NibbleFits(u: Unit, col: bv32)
    requires u <= 0xFF
    ensures var n := (col & 0xF) as bv16;
      && LowPut(u, col) <= 0xFF && HighPut(u, col) <= 0xFF
      && LowPut(u, col) & 0x0F == n && LowPut(u, col) >> 4 == u >> 4
      && HighPut(u, col) & 0x0F == u & 0x0F && HighPut(u, col) >> 4 == n
  {
  }

  // Setting one slot sets that pixel and no other.
  lemma PutGet(f: Format, u: Unit, k: nat, col: bv32, j: nat)
    requires UnitOk(f, u) && k < SlotCount(f) && j < SlotCount(f)
    ensures UnitOk(f, SlotPut(f, u, k, col))
    ensures SlotGet(f, SlotPut(f, u, k, col), j) == if j == k then Norm(f, col) else SlotGet(f, u, j)
  {
    if IsMono(f) {
      PutGetMono(f, u, k, col, j);
    } else if f == GS4_HMSB {
      NibbleFits(u, col);
    }
  }

  lemma PutGetMono(f: Format, u: Unit, k: nat, col: bv32, j: nat)
    requires IsMono(f) && u <= 0xFF && k < 8 && j < 8
    ensures SlotPut(f, u, k, col) <= 0xFF
    ensures SlotGet(f, SlotPut(f, u, k, col), j) == if j == k then Norm(f, col) else SlotGet(f, u, j)
  {
    MonoBits(u, j, k, col);
    MonoSmall(u, k, col);
  }

  // The slots of a unit are all there is to it.
  lemma SlotsDetermine(f: Format, u: Unit, v: Unit)
    requires UnitOk(f, u) && UnitOk(f, v)
    requires forall k :: 0 <= k < SlotCount(f) ==> SlotGet(f, u, k) == SlotGet(f, v, k)
    ensures u == v
  {
    if IsMono(f) {
      forall k | 0 <= k < 8 ensures (u & OneBit(k) != 0) == (v & OneBit(k) != 0) {
        assert SlotGet(f, u, k) == SlotGet(f, v, k);
      }
      EightBits(u, v);
    } else if f == GS4_HMSB {
      assert SlotGet(f, u, 0) == SlotGet(f, v, 0) && SlotGet(f, u, 1) == SlotGet(f, v, 1);
      TwoNibbles(u, v);
    } else {
      assert SlotGet(f, u, 0) == SlotGet(f, v, 0);
    }
  }

  lemma EightBits(u: Unit, v: Unit)
    requires u <= 0xFF && v <= 0xFF
    requires forall k :: 0 <= k < 8 ==> (u & OneBit(k) != 0) == (v & OneBit(k) != 0)
    ensures u == v
  {
    assert (u & OneBit(0) != 0) == (v & OneBit(0) != 0) && (u & OneBit(1) != 0) == (v & OneBit(1) != 0);
    assert (u & OneBit(2) != 0) == (v & OneBit(2) != 0) && (u & OneBit(3) != 0) == (v & OneBit(3) != 0);
    assert (u & OneBit(4) != 0) == (v & OneBit(4) != 0) && (u & OneBit(5) != 0) == (v & OneBit(5) != 0);
    assert (u & OneBit(6) != 0) == (v & OneBit(6) != 0) && (u & OneBit(7) != 0) == (v & OneBit(7) != 0);
    ByteBits(u, v);
  }

  lemma ByteBits(u: Unit, v: Unit)
    requires u <= 0xFF && v <= 0xFF
    requires (u & 0x01 != 0) == (v & 0x01 != 0) && (u & 0x02 != 0) == (v & 0x02 != 0)
    requires (u & 0x04 != 0) == (v & 0x04 != 0) && (u & 0x08 != 0) == (v & 0x08 != 0)
    requires (u & 0x10 != 0) == (v & 0x10 != 0) && (u & 0x20 != 0) == (v & 0x20 != 0)
    requires (u & 0x40 != 0) == (v & 0x40 != 0) && (u & 0x80 != 0) == (v & 0x80 != 0)
    ensures u == v
  {
  }

  lemma TwoNibbles(u: Unit, v: Unit)
    requires u >> 4 == v >> 4 && u & 0x0F == v & 0x0F
    ensures u == v
  {
  }

  // The values the GS4 fill writes, after col &= 0x0f: an odd end, an even end, and a pair.
  function FillLow(u: Unit, col: bv32): Unit {
    (u & 0xF0) | ((col & 0xF) as bv16)
  }

  function FillHigh(u: Unit, col: bv32): Unit {
    ((((col & 0xF) as bv16) << 4) & 0xFF) | (u & 0x0F)
  }

  function FillPair(col: bv32): Unit {
    ((((col & 0xF) as bv16) << 4) & 0xFF) | ((col & 0xF) as bv16)
  }

  lemma FillValues(u: Unit, col: bv32)
    ensures FillLow(u, col) == LowPut(u, col) && FillHigh(u, col) == HighPut(u, col)
    ensures u <= 0xFF ==> FillPair(col) == LowPut(HighPut(u, col), col)
  {
  }

  // ---------- coordinates ----------

  // width, height, stride and format of mp_obj_framebuf_t.
  datatype Geometry = Geometry(width: nat, height: nat, stride: nat, format: Format)
  {
    // What make_new establishes (the horizontal formats round the stride up) and what callers
    // owe: rows that do not overlap, whole bytes a row.
    predicate Valid() {
      && width <= stride && stride > 0
      && (format == GS4_HMSB ==> stride % 2 == 0)
      && (format == MHLSB || format == MHMSB ==> stride % 8 == 0)
    }

    // Units from one unit row to the next.
    function Pitch(): nat {
      if format == GS4_HMSB then stride / 2 else if format == MHLSB || format == MHMSB then stride / 8 else stride
    }

    // Pixel rows the buffer has room for; the vertical format works in blocks of eight.
    function Rows(): nat {
      if format == MVLSB then (height + 7) / 8 * 8 else height
    }

    function UnitRow(y: nat): nat {
      if format == MVLSB then y / 8 else y
    }

    function UnitCol(x: nat): nat {
      if format == GS4_HMSB then x / 2 else if format == MHLSB || format == MHMSB then x / 8 else x
    }

    // Units a buffer needs.
    function Units(): nat {
      UnitRow(Rows()) * Pitch()
    }

    // The unit and slot of a pixel, as the C code computes them.
    function Index(x: nat, y: nat): nat {
      if format == MVLSB then (y / 8) * stride + x
      else if format == GS4_HMSB then (x + y * stride) / 2
      else if format == RGB565 then x + y * stride
      else (x + y * stride) / 8
    }

    function Slot(x: nat, y: nat): (k: nat)
      ensures k < SlotCount(format)
    {
      if format == MVLSB then y % 8
      else if format == GS4_HMSB then x % 2
      else if format == RGB565 then 0
      else if format == MHMSB then x % 8 else 7 - x % 8
    }
  }

  lemma DivByStep(x: nat, y: nat, p: nat, k: nat)
    requires k > 0
    ensures (x + y * (p * k)) / k == x / k + y * p
  {
    var n := x / k + y * p;
    assert y * (p * k) == (y * p) * k;
    assert x + y * (p * k) == n * k + x % k;
    QuotientUnique(x + y * (p * k), n, k, x % k);
  }

  lemma QuotientUnique(a: nat, q: nat, k: nat, r: nat)
    requires k > 0 && a == q * k + r && r < k
    ensures a / k == q && a % k == r
  {
    RowUnique(a % k, a / k, r, q, k);
  }

  lemma AddRows(a: nat, b: nat, p: nat)
    ensures (a + b) * p == a * p + b * p
  {
  }

  lemma {:induction false} AtLeastOneRow(d: nat, p: nat)
    requires d > 0
    ensures d * p >= p
  {
    AddRows(d - 1, 1, p);
    assert (d - 1) * p >= 0;
  }

  lemma MoreRows(r: nat, r': nat, p: nat)
    requires r < r'
    ensures r' * p >= r * p + p
  {
    AddRows(r, r' - r, p);
    AtLeastOneRow(r' - r, p);
  }

  lemma RowUnique(c: nat, r: nat, c': nat, r': nat, p: nat)
    requires c < p && c' < p && c + r * p == c' + r' * p
    ensures c == c' && r == r'
  {
    if r < r' { MoreRows(r, r', p); } else if r > r' { MoreRows(r', r, p); }
  }

  // The unit in column c of row r, by stepping down one row at a time.
  function Below(c: nat, r: nat, p: nat): nat {
    if r == 0 then c else Below(c, r - 1, p) + p
  }

  lemma {:induction false} BelowIs(c: nat, r: nat, p: nat)
    ensures Below(c, r, p) == c + r * p
  {
    if r > 0 {
      BelowIs(c, r - 1, p);
      AddRows(r - 1, 1, p);
    }
  }

  lemma {:induction false} BelowShift(c: nat, d: nat, r: nat, p: nat)
    ensures Below(c + d, r, p) == Below(c, r, p) + d
  {
    if r > 0 { BelowShift(c, d, r - 1, p); }
  }

  // The unit a fill loop reaches by stepping down rows is the one setpixel computes.
  lemma BelowIndex(g: Geometry, x: nat, y: nat)
    requires g.Valid() && x < g.stride
    ensures g.Index(x, y) == Below(g.UnitCol(x), g.UnitRow(y), g.Pitch())
  {
    IndexForm(g, x, y);
    BelowIs(g.UnitCol(x), g.UnitRow(y), g.Pitch());
  }

  // Every format is a grid of units.
  lemma IndexForm(g: Geometry, x: nat, y: nat)
    requires g.Valid() && x < g.stride
    ensures g.Index(x, y) == g.UnitCol(x) + g.UnitRow(y) * g.Pitch()
    ensures g.UnitCol(x) < g.Pitch()
  {
    if g.format == GS4_HMSB {
      DivByStep(x, y, g.stride / 2, 2);
    } else if g.format == MHLSB || g.format == MHMSB {
      DivByStep(x, y, g.stride / 8, 8);
    }
  }

  lemma IndexBound(g: Geometry, x: nat, y: nat)
    requires g.Valid() && x < g.stride && y < g.Rows()
    ensures g.Index(x, y) < g.Units()
  {
    IndexForm(g, x, y);
    RowBound(g.UnitCol(x), g.UnitRow(y), g.UnitRow(g.Rows()), g.Pitch());
  }

  lemma RowBound(c: nat, r: nat, rows: nat, p: nat)
    requires c < p && r < rows
    ensures c + r * p < rows * p
  {
    MoreRows(r, rows, p);
  }

  // Different pixels never share a slot.
  lemma PixelsDistinct(g: Geometry, x: nat, y: nat, x': nat, y': nat)
    requires g.Valid() && x < g.stride && x' < g.stride
    requires g.Index(x, y) == g.Index(x', y') && g.Slot(x, y) == g.Slot(x', y')
    ensures x == x' && y == y'
  {
    IndexForm(g, x, y);
    IndexForm(g, x', y');
    RowUnique(g.UnitCol(x), g.UnitRow(y), g.UnitCol(x'), g.UnitRow(y'), g.Pitch());
  }

  // Every slot of every unit is some pixel.
  lemma PixelAt(g: Geometry, j: nat, k: nat) returns (x: nat, y: nat)
    requires g.Valid() && j < g.Units() && k < SlotCount(g.format)
    ensures x < g.stride && y < g.Rows() && g.Index(x, y) == j && g.Slot(x, y) == k
  {
    var p := g.Pitch();
    var c, r := j % p, j / p;
    SplitUnit(j, p, g.UnitRow(g.Rows()));
    Eighths(c, k); Eighths(c, 7 - k % 8); Eighths(r, k); Halves(c, k);
    if g.format == MVLSB { x, y := c, 8 * r + k; }
    else if g.format == RGB565 { x, y := c, r; }
    else if g.format == GS4_HMSB { x, y := 2 * c + k, r; }
    else if g.format == MHMSB { x, y := 8 * c + k, r; }
    else { x, y := 8 * c + 7 - k, r; }
    IndexForm(g, x, y);
  }

  lemma Eighths(c: nat, k: nat)
    ensures k < 8 ==> (8 * c + k) / 8 == c && (8 * c + k) % 8 == k
  {
  }

  lemma Halves(c: nat, k: nat)
    ensures k < 2 ==> (2 * c + k) / 2 == c && (2 * c + k) % 2 == k
  {
  }

  lemma SplitUnit(j: nat, p: nat, rows: nat)
    requires p > 0 && j < rows * p
    ensures j == j % p + (j / p) * p && j % p < p && j / p < rows
  {
    var r := j / p;
    assert j == p * (j / p) + j % p;
    if r >= rows {
      if r > rows { MoreRows(rows, r, p); }
    }
  }
}
