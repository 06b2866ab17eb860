// extmod/modframebuf.c: lines.

module FrameBufLine {
  import opened FrameBufFormat
  import opened FrameBufPixels
  import opened FrameBuf

  function Abs(a: int): nat {
    if a < 0 then -a else a
  }

  // n pixels away from a, towards b.
  function Go(a: int, b: int, n: nat): int {
    if b > a then a + n else a - n
  }

  // 2 * n * i / (2 * d) rounded to the nearest integer, halves up.
  function Round(n: nat, d: nat, i: nat): nat
    requires d > 0
  {
    (2 * (n * i) + d) / (2 * d)
  }

  lemma RoundUnique(n: nat, d: nat, i: nat, k: nat)
    requires d > 0 && 2 * (d * k) <= 2 * (n * i) + d && 2 * (n * i) < 2 * (d * k) + d
    ensures Round(n, d, i) == k
  {
    var a := 2 * (n * i) + d;
    assert k * (2 * d) == 2 * (d * k);
    QuotientUnique(a, k, 2 * d, a - k * (2 * d));
  }

  lemma RoundIsNearest(n: nat, d: nat, i: nat)
    requires d > 0
    ensures var k := Round(n, d, i); 2 * (d * k) <= 2 * (n * i) + d && 2 * (n * i) < 2 * (d * k) + d
  {
    var a := 2 * (n * i) + d;
    var k := a / (2 * d);
    assert a == (2 * d) * k + a % (2 * d);
    assert (2 * d) * k == 2 * (d * k);
  }

  lemma MulNext(n: nat, i: nat)
    ensures n * (i + 1) == n * i + n
  {
  }

  // A line from (x1, y1) to (x2, y2): the longer axis is walked pixel by pixel, the shorter
  // one follows the ideal line to the nearest pixel.
  datatype Line = Line(x1: int, y1: int, x2: int, y2: int)
  {
    function Dx(): nat { Abs(x2 - x1) }
    function Dy(): nat { Abs(y2 - y1) }
    predicate Steep() { Dy() > Dx() }
    function Steps(): nat { if Steep() then Dy() else Dx() }
    function Minor(): nat { if Steep() then Dx() else Dy() }

    function Point(i: nat): (int, int) {
      var k := if Steps() == 0 then 0 else Round(Minor(), Steps(), i);
      if Steep() then (Go(x1, x2, k), Go(y1, y2, i)) else (Go(x1, x2, i), Go(y1, y2, k))
    }
  }

  lemma PointAt(l: Line, i: nat, k: nat)
    requires l.Steps() > 0 && exists e :: ErrorTerm(l.Steps(), l.Minor(), i, k, e)
    ensures l.Point(i) == if l.Steep() then (Go(l.x1, l.x2, k), Go(l.y1, l.y2, i))
        else (Go(l.x1, l.x2, i), Go(l.y1, l.y2, k))
  {
    TimesIs(l.Minor(), i);
    TimesIs(l.Steps(), k);
    RoundUnique(l.Minor(), l.Steps(), i, k);
  }

  // n * i, as the loop adds it up.
  function Times(n: nat, i: nat): nat {
    if i == 0 then 0 else Times(n, i - 1) + n
  }

  lemma {:induction false} TimesIs(n: nat, i: nat)
    ensures Times(n, i) == n * i
  {
    if i > 0 {
      TimesIs(n, i - 1);
      MulNext(n, i - 1);
    }
  }

  // After i pixels along the longer axis and k steps across, e is twice the signed distance,
  // scaled by the longer side, from the middle of the next pixel's edge to the ideal line.
  predicate ErrorTerm(dx: nat, dy: nat, i: nat, k: nat, e: int) {
    && e == 2 * Times(dy, i) + 2 * dy - dx - 2 * Times(dx, k)
    && (dx > 0 ==> 2 * Times(dx, k) <= 2 * Times(dy, i) + dx && 2 * Times(dy, i) < 2 * Times(dx, k) + dx)
  }

  lemma NextError(dx: nat, dy: nat, i: nat, k: nat, e: int)
    requires ErrorTerm(dx, dy, i, k, e) && dy <= dx && dx > 0
    ensures e >= 0 ==> ErrorTerm(dx, dy, i + 1, k + 1, e - 2 * dx + 2 * dy)
    ensures e < 0 ==> ErrorTerm(dx, dy, i + 1, k, e + 2 * dy)
  {
  }

  // The line starts and ends on its end points.
  lemma LineEnds(l: Line)
    ensures l.Point(0) == (l.x1, l.y1) && l.Point(l.Steps()) == (l.x2, l.y2)
  {
    var d, n := l.Steps(), l.Minor();
    if d > 0 {
      RoundUnique(n, d, 0, 0);
      assert n * d == d * n;
      RoundUnique(n, d, d, n);
    }
  }

  // Consecutive points are neighbours: one step along the longer axis, at most one across.
  lemma LineConnected(l: Line, i: nat)
    requires i < l.Steps()
    ensures var p, q := l.Point(i), l.Point(i + 1);
      && Abs(q.0 - p.0) <= 1 && Abs(q.1 - p.1) <= 1
      && (if l.Steep() then q.1 == Go(l.y1, l.y2, i + 1) != p.1 else q.0 == Go(l.x1, l.x2, i + 1) != p.0)
  {
    var d, n := l.Steps(), l.Minor();
    var k := Round(n, d, i);
    RoundIsNearest(n, d, i);
    MulNext(n, i);
    MulNext(d, k);
    if 2 * (n * (i + 1)) - 2 * (d * k) < d {
      RoundUnique(n, d, i + 1, k);
    } else {
      RoundUnique(n, d, i + 1, k + 1);
    }
  }

  // Every point is within half a pixel of the ideal line, measured across the longer axis:
  // |k - i*minor/major| <= 1/2 in integers.
  lemma LineNear(l: Line, i: nat)
    requires i <= l.Steps() && l.Steps() > 0
    ensures var p := l.Point(i);
      var across := if l.Steep() then Abs(p.0 - l.x1) else Abs(p.1 - l.y1);
      2 * Abs(across * l.Steps() - i * l.Minor()) <= l.Steps()
  {
    var d, n := l.Steps(), l.Minor();
    RoundIsNearest(n, d, i);
    var k := Round(n, d, i);
    assert k * d == d * k && i * n == n * i;
  }

  predicate OnScreen(g: Geometry, x: int, y: int) {
    0 <= x < g.width && 0 <= y < g.height
  }

  // The on-screen pixels of the first n points.
  ghost function LineRegion(g: Geometry, l: Line, n: nat): Region {
    iset i: nat | i < n && OnScreen(g, l.Point(i).0, l.Point(i).1) :: (l.Point(i).0 as nat, l.Point(i).1 as nat)
  }

  // A point of the line, if it is on the screen, has the color.
  ghost predicate PointShows(g: Geometry, buf: seq<Unit>, x: int, y: int, col: bv32) {
    && BufOk(g, buf)
    && (0 <= x < g.width && 0 <= y < g.height ==> OnGrid(g, x, y) && Pix(g, buf, x, y) == Norm(g.format, col))
  }

  lemma PointsShow(g: Geometry, before: seq<Unit>, after: seq<Unit>, col: bv32, l: Line, i: nat)
    requires Painted(g, before, after, col, LineRegion(g, l, l.Steps() + 1)) && i <= l.Steps()
    ensures PointShows(g, after, l.Point(i).0, l.Point(i).1, col)
  {
    var (x, y) := l.Point(i);
    if OnScreen(g, x, y) {
      assert (x as nat, y as nat) in LineRegion(g, l, l.Steps() + 1);
      assert PaintedAt(g, before, after, col, LineRegion(g, l, l.Steps() + 1), x, y);
    }
  }

  // framebuf_line. Exactly the on-screen points of the line change, both ends among them.
  method DrawLine(fb: FrameBuffer, startX: int, startY: int, x2: int, y2: int, col: bv32)
    requires fb.Valid()
    modifies fb.buf
    ensures var l := Line(startX, startY, x2, y2);
      fb.Valid() && Painted(fb.g, old(fb.buf[..]), fb.buf[..], col, LineRegion(fb.g, l, l.Steps() + 1))
    ensures PointShows(fb.g, fb.buf[..], startX, startY, col) && PointShows(fb.g, fb.buf[..], x2, y2, col)
  {
    ghost var l := Line(startX, startY, x2, y2);
    ghost var before := fb.buf[..];
    var x1, y1 := startX, startY;
    var dx, sx := x2 - x1, 1;
    if dx <= 0 {
      dx, sx := -dx, -1;
    }
    var dy, sy := y2 - y1, 1;
    if dy <= 0 {
      dy, sy := -dy, -1;
    }
    var steep := dy > dx;
    if steep {
      x1, y1 := y1, x1;
      dx, dy := dy, dx;
      sx, sy := sy, sx;
    }
    Walk(fb, x1, y1, dx, dy, sx, sy, steep, col, l);
    LineEnds(l);
    Plot(fb, x2, y2, col, before, l, l.Steps());
    PointsShow(fb.g, before, fb.buf[..], col, l, 0);
    PointsShow(fb.g, before, fb.buf[..], col, l, l.Steps());
  }

  // The loop along the longer axis.
  method Walk(fb: FrameBuffer, startX: int, startY: int, dx: nat, dy: nat, sx: int, sy: int, steep: bool, col: bv32,
      ghost l: Line)
    requires fb.Valid() && dx == l.Steps() && dy == l.Minor() && steep == l.Steep()
    requires (startX, startY) == if steep then (l.y1, l.x1) else (l.x1, l.y1)
    requires sx == Go(0, (if steep then l.y2 else l.x2) - startX, 1)
    requires sy == Go(0, (if steep then l.x2 else l.y2) - startY, 1)
    modifies fb.buf
    ensures fb.Valid() && Painted(fb.g, old(fb.buf[..]), fb.buf[..], col, LineRegion(fb.g, l, dx))
  {
    ghost var before, k := fb.buf[..], 0;
    var x1, y1 := startX, startY;
    var e := 2 * dy - dx;
    var i := 0;
    PaintNone(fb.g, before, col);
    SameRegion(fb.g, before, before, col, iset{}, LineRegion(fb.g, l, 0));
    while i < dx
      invariant 0 <= i <= dx && k >= 0
      invariant x1 == Moved(startX, sx, i) && y1 == Moved(startY, sy, k)
      invariant ErrorTerm(dx, dy, i, k, e)
      invariant Painted(fb.g, before, fb.buf[..], col, LineRegion(fb.g, l, i))
    {
      PlaceAt(l, i, k, e);
      PlotAlong(fb, x1, y1, steep, col, before, l, i);
      ghost var bump, e0 := 0, e;
      e, y1, bump := Adjust(e, y1, dx, dy, sy);
      NextError(dx, dy, i, k, e0);
      k := k + bump;
      x1 := x1 + sx;
      e := e + 2 * dy;
      i := i + 1;
    }
  }

  function Moved(start: int, step: int, n: nat): int {
    if step == 1 then start + n else start - n
  }

  lemma PlaceAt(l: Line, i: nat, k: nat, e: int)
    requires l.Steps() > 0 && ErrorTerm(l.Steps(), l.Minor(), i, k, e)
    ensures var (x0, y0, x', y') := if l.Steep() then (l.y1, l.x1, l.y2, l.x2) else (l.x1, l.y1, l.x2, l.y2);
      var x, y := Moved(x0, Go(0, x' - x0, 1), i), Moved(y0, Go(0, y' - y0, 1), k);
      l.Point(i) == if l.Steep() then (y, x) else (x, y)
  {
    PointAt(l, i, k);
  }

  // Its inner loop, which runs at most once.
  method Adjust(e: int, y1: int, dx: int, dy: nat, sy: int) returns (e': int, y1': int, ghost bump: nat)
    requires dx > 0 && dy <= dx && e < 2 * dy
    ensures e' == (if e >= 0 then e - 2 * dx else e) && e' < 0
    ensures y1' == if e >= 0 then y1 + sy else y1
    ensures bump == if e >= 0 then 1 else 0
  {
    e', y1', bump := e, y1, 0;
    while e' >= 0
      invariant if bump == 0 then e' == e && y1' == y1
                else bump == 1 && e >= 0 > e' && e' == e - 2 * dx && y1' == y1 + sy
      decreases e'
    {
      bump := bump + 1;
      y1' := y1' + sy;
      e' := e' - 2 * dx;
    }
  }

  // A point of the walk, with the axes swapped back when it is steep.
  method PlotAlong(fb: FrameBuffer, x1: int, y1: int, steep: bool, col: bv32, ghost before: seq<Unit>, ghost l: Line,
      ghost i: nat)
    requires (if steep then (y1, x1) else (x1, y1)) == l.Point(i)
    requires fb.Valid() && Painted(fb.g, before, fb.buf[..], col, LineRegion(fb.g, l, i))
    modifies fb.buf
    ensures fb.Valid() && Painted(fb.g, before, fb.buf[..], col, LineRegion(fb.g, l, i + 1))
  {
    if steep {
      Plot(fb, y1, x1, col, before, l, i);
    } else {
      Plot(fb, x1, y1, col, before, l, i);
    }
  }

  // The clipped setpixel of framebuf_line.
  method Plot(fb: FrameBuffer, x: int, y: int, col: bv32, ghost before: seq<Unit>, ghost l: Line, ghost i: nat)
    requires fb.Valid() && (x, y) == l.Point(i) && Painted(fb.g, before, fb.buf[..], col, LineRegion(fb.g, l, i))
    modifies fb.buf
    ensures fb.Valid() && Painted(fb.g, before, fb.buf[..], col, LineRegion(fb.g, l, i + 1))
  {
    ghost var s := fb.buf[..];
    if 0 <= x < fb.g.width && 0 <= y < fb.g.height {
      fb.SetPixel(x, y, col);
      PaintOne(fb.g, before, s, col, LineRegion(fb.g, l, i), x, y);
      SameRegion(fb.g, before, fb.buf[..], col, LineRegion(fb.g, l, i) + iset{(x as nat, y as nat)},
          LineRegion(fb.g, l, i + 1));
    } else {
      SameRegion(fb.g, before, s, col, LineRegion(fb.g, l, i), LineRegion(fb.g, l, i + 1));
    }
  }
}
