// extmod/moductypes.c: the sizes and accesses in 32-bit arithmetic.

module UctypesWidth {
  import opened UctypesSize
  import opened UctypesAccess

  // The largest mp_uint_t.
  const LIMIT := 0xFFFF_FFFF

  // 2^32 is a multiple of every alignment, so a rounded size below it was not rounded past it.
  lemma RoundingFits(t: nat, m: Max)
    requires m > 0 && RoundUp(true, t, m) <= LIMIT
    ensures t <= LIMIT && RoundUp(false, t, m) == RoundUp(true, t, m)
  {
    var x := t + m - 1;
    DownBounds(x, m);
    RoundUpBounds(t, m);
    SmallerFactor(x / m, Multiple(m), m);
    Products(x / m + 1, Multiple(m), m);
    assert x < (x / m + 1) * m;
  }

  lemma SmallerFactor(a: nat, b: nat, m: nat)
    requires a * m < b * m
    ensures a < b
  {
    if b <= a { Products(b, a, m); }
  }

  function Multiple(m: Max): (k: nat)
    requires m > 0
    ensures k * m == LIMIT + 1
  {
    assert Alignment(m);
    if m == 1 then LIMIT + 1 else if m == 2 then 0x8000_0000 else if m == 4 then 0x4000_0000
        else if m == 8 then 0x2000_0000
    else if m == 16 then 0x1000_0000 else if m == 32 then 0x800_0000 else if m == 64 then 0x400_0000 else 0x200_0000
  }

  lemma SizeFits(d: Desc, l: Layout, m: Max)
    ensures var s, w := Size(d, l, m, true), Size(d, l, m, false);
      s.max == w.max && (s.size <= LIMIT ==> s == w)
  {
    match d {
      case Dict(fields) =>
        WalkFits(fields, l, 0, 0, m);
        var s := Walk(fields, l, 0, m, true);
        if s.max > 0 && l.Native? && RoundUp(true, s.size, s.max) <= LIMIT { RoundingFits(s.size, s.max); }
      case Tuple(agg) => AggFits(agg, l, m);
      case _ =>
    }
  }

  lemma TimesFits(s: nat, w: nat, n: nat)
    requires s <= LIMIT ==> s == w
    ensures s * n <= LIMIT ==> Wrap(true, s * n) == Wrap(false, w * n)
  {
    if n > 0 { ItemEnds(s, 0, n); }
  }

  lemma AggFits(a: Agg, l: Layout, m: Max)
    ensures var s, w := AggSize(a, l, m, true), AggSize(a, l, m, false);
      s.max == w.max && (s.size <= LIMIT ==> s == w)
  {
    match a {
      case Struct(d) => SizeFits(d, l, m);
      case AggArray(n, d) =>
        SizeFits(d, l, m);
        TimesFits(Size(d, l, m, true).size, Size(d, l, m, false).size, n);
      case _ =>
    }
  }

  lemma FieldEndFits(value: FieldValue, l: Layout, m: Max)
    ensures var s, w := FieldEnd(value, l, m, true), FieldEnd(value, l, m, false);
      s.max == w.max && (s.size <= LIMIT ==> s == w)
    decreases value, 1
  {
    if value.Sub? { AggFits(value.agg, l, m); }
  }

  lemma WalkFits(fields: Fields, l: Layout, t: nat, t': nat, m: Max)
    ensures var s, w := Walk(fields, l, t, m, true), Walk(fields, l, t', m, false);
      s.max == w.max && (t == t' && s.size <= LIMIT ==> s == w)
  {
    match fields {
      case NoFields =>
      case Entry(_, value, rest) =>
        FieldEndFits(value, l, m);
        var s, w := FieldEnd(value, l, m, true), FieldEnd(value, l, m, false);
        WalkAligned(rest, l, Longer(s.size, t), s.max, true);
        WalkFits(rest, l, Longer(s.size, t), Longer(w.size, t'), s.max);
    }
  }

  lemma SizeIsWord(d: Desc, l: Layout, m: Max)
    ensures Size(d, l, m, false).size <= LIMIT
  {
    match d {
      case Dict(fields) =>
        WalkIsWord(fields, l, 0, m);
        var s := Walk(fields, l, 0, m, false);
        if s.max > 0 { DownBounds(Wrap(false, s.size + s.max - 1), s.max); }
      case Tuple(agg) => if agg.Struct? { SizeIsWord(agg.d, l, m); }
      case _ =>
    }
  }

  lemma WalkIsWord(fields: Fields, l: Layout, total: nat, m: Max)
    requires total <= LIMIT
    ensures Walk(fields, l, total, m, false).size <= LIMIT
  {
    if fields.Entry? {
      var s := FieldEnd(fields.value, l, m, false);
      WalkIsWord(fields.rest, l, Longer(s.size, total), s.max);
    }
  }

  // The computed size is the true one exactly when the true one is below 4 GiB.
  lemma SizeIff(d: Desc, l: Layout, m: Max)
    ensures Size(d, l, m, false) == Size(d, l, m, true) <==> Size(d, l, m, true).size < 0x1_0000_0000
  {
    SizeFits(d, l, m);
    SizeIsWord(d, l, m);
  }

  // Places that agree as far as any byte is concerned.
  predicate Alike(p: Place, q: Place, l: Layout) {
    || p == q
    || (p.View? && q.View? && p.d == q.d && Size(p.d, l, 0, true).size == 0)
    || (p.Bytes? && q.Bytes? && p.len == 0 && q.len == 0)
  }

  // A sub-structure without bytes leads to no byte, wherever it is.
  lemma AttrOfEmpty(d: Desc, at: nat, at': nat, name: string, l: Layout)
    requires Size(d, l, 0, true).size == 0
    ensures Alike(GetAttr(d, at, name, l, true), GetAttr(d, at', name, l, false), l)
  {
    AttrInside(d, at, name, 0, l);
    if d.Dict? && Lookup(d.fields, name).Sub? {
      AggFits(Lookup(d.fields, name).agg, l, 0);
    }
  }

  lemma AttrAlike(d: Desc, at: nat, name: string, bound: nat, l: Layout)
    requires at + Size(d, l, 0, true).size <= bound <= LIMIT
    ensures Alike(GetAttr(d, at, name, l, true), GetAttr(d, at, name, l, false), l)
  {
    if d.Dict? {
      FieldInside(d.fields, name, l, 0, 0);
      AttrInside(d, at, name, bound, l);
      if Lookup(d.fields, name).Sub? {
        SubAlike(Lookup(d.fields, name).offset, Lookup(d.fields, name).agg, at, bound, l);
      }
    }
  }

  lemma SubAlike(offset: Bits29, agg: Agg, at: nat, bound: nat, l: Layout)
    requires Below(GetSub(offset, agg, at, l, true), bound, l) && bound <= LIMIT
    ensures Alike(GetSub(offset, agg, at, l, true), GetSub(offset, agg, at, l, false), l)
  {
    AggFits(agg, l, 0);
  }

  lemma ItemOfEmpty(d: Desc, at: nat, at': nat, i: nat, l: Layout)
    requires Size(d, l, 0, true).size == 0
    ensures Alike(GetItem(d, at, i, l, true), GetItem(d, at', i, l, false), l)
  {
    ItemInside(d, at, i, 0, l);
  }

  lemma ItemAlike(d: Desc, at: nat, i: nat, bound: nat, l: Layout)
    requires at + Size(d, l, 0, true).size <= bound <= LIMIT
    ensures Alike(GetItem(d, at, i, l, true), GetItem(d, at, i, l, false), l)
  {
    if d.Tuple? && d.agg.AggArray? {
      AggItemAlike(d.agg.n, d.agg.d, at, i, bound, l);
    } else if d.Tuple? && d.agg.ScalarArray? {
      ScalarItemAlike(d.agg.vt, d.agg.n, at, i, bound, l);
    }
  }

  lemma ScalarItemAlike(vt: ValType, n: Bits27, at: nat, i: nat, bound: nat, l: Layout)
    requires at + ItemSize(vt) * n <= bound <= LIMIT
    ensures var a := Tuple(ScalarArray(vt, n)); Alike(GetItem(a, at, i, l, true), GetItem(a, at, i, l, false), l)
  {
    if i < n {
      ScalarItemInside(vt, n, at, i, bound, l);
    }
  }

  lemma AggItemAlike(n: Bits27, d: Desc, at: nat, i: nat, bound: nat, l: Layout)
    requires at + Size(d, l, 0, true).size * n <= bound <= LIMIT
    ensures var a := Tuple(AggArray(n, d)); Alike(GetItem(a, at, i, l, true), GetItem(a, at, i, l, false), l)
  {
    if i < n {
      ItemEnds(Size(d, l, 0, true).size, i, n);
      SizeFits(d, l, 0);
      ItemAddress(at, Size(d, l, 0, true).size, Size(d, l, 0, false).size, i, bound);
    }
  }

  lemma ItemAddress(at: nat, s: nat, w: nat, i: nat, bound: nat)
    requires at + (s * i + s) <= bound <= LIMIT && (s <= LIMIT ==> s == w)
    ensures Wrap(true, at + s * i) == Wrap(false, at + w * i)
  {
  }

  lemma TakeAlike(p: Place, q: Place, step: Step, bound: nat, l: Layout)
    requires Below(p, bound, l) && bound <= LIMIT && Alike(p, q, l)
    ensures Alike(Take(p, step, l, true), Take(q, step, l, false), l)
  {
    if p.View? {
      match step {
        case Attr(name) =>
          if Size(p.d, l, 0, true).size == 0 {
            AttrOfEmpty(p.d, p.at, q.at, name, l);
          } else {
            AttrAlike(p.d, p.at, name, bound, l);
          }
        case Index(i) =>
          if Size(p.d, l, 0, true).size == 0 {
            ItemOfEmpty(p.d, p.at, q.at, i, l);
          } else {
            ItemAlike(p.d, p.at, i, bound, l);
          }
      }
    }
  }

  lemma {:induction false} FollowAlike(p: Place, q: Place, steps: seq<Step>, bound: nat, l: Layout)
    requires Below(p, bound, l) && bound <= LIMIT && Alike(p, q, l)
    ensures Alike(Follow(p, steps, l, true), Follow(q, steps, l, false), l)
    decreases |steps|
  {
    if steps != [] {
      AccessInside(p, [steps[0]], bound, l);
      assert Follow(p, [steps[0]], l, true) == Take(p, steps[0], l, true);
      TakeAlike(p, q, steps[0], bound, l);
      FollowAlike(Take(p, steps[0], l, true), Take(q, steps[0], l, false), steps[1..], bound, l);
    }
  }

  // The bytes of a place, or all of a sub-structure, end at or before size.
  predicate Within(p: Place, l: Layout, size: int) {
    && (p.Bytes? && p.len > 0 ==> p.at + p.len <= size)
    && (p.View? && Size(p.d, l, 0, false).size > 0 ==> p.at + Size(p.d, l, 0, false).size <= size)
  }

  // In 32-bit arithmetic too, no chain of accesses leaves the buffer of the structure, whose
  // length is the computed size, for any description below 4 GiB.
  lemma BytesInsideSize(d: Desc, steps: seq<Step>, l: Layout)
    requires Size(d, l, 0, true).size < 0x1_0000_0000
    ensures Within(Follow(View(d, 0), steps, l, false), l, Size(d, l, 0, false).size)
  {
    var bound := Size(d, l, 0, true).size;
    AccessInside(View(d, 0), steps, bound, l);
    FollowAlike(View(d, 0), View(d, 0), steps, bound, l);
    SizeFits(d, l, 0);
    var p := Follow(View(d, 0), steps, l, false);
    if p.View? { SizeFits(p.d, l, 0); }
  }

  // MP_OBJ_NEW_SMALL_INT and back, for a word of 32 bits: 31 bits are kept, and the top one of
  // them is a sign.
  function SmallInt(x: nat): (r: int)
    ensures -0x4000_0000 <= r < 0x4000_0000 && r <= x && (r == x <==> x < 0x4000_0000)
  {
    var kept := x % 0x8000_0000;
    if kept < 0x4000_0000 then kept else kept - 0x8000_0000
  }

  // uctypes_struct_sizeof
  function Reported(d: Desc, l: Layout): int {
    SmallInt(Size(d, l, 0, false).size)
  }

  // What sizeof reports is the true size exactly below 1 GiB.
  lemma ReportedIff(d: Desc, l: Layout)
    ensures Reported(d, l) == Size(d, l, 0, true).size <==> Size(d, l, 0, true).size < 0x4000_0000
  {
    SizeFits(d, l, 0);
    SizeIsWord(d, l, 0);
  }

  ghost predicate AllWithin(d: Desc, l: Layout, size: int) {
    forall steps :: Within(Follow(View(d, 0), steps, l, false), l, size)
  }

  // So all that can be reached lies inside the reported size exactly below 1 GiB.
  lemma BytesInsideReportedIff(d: Desc, l: Layout)
    requires Size(d, l, 0, true).size < 0x1_0000_0000
    ensures AllWithin(d, l, Size(d, l, 0, false).size)
    ensures AllWithin(d, l, Reported(d, l)) <==> Size(d, l, 0, true).size < 0x4000_0000
  {
    SizeFits(d, l, 0);
    forall steps ensures Within(Follow(View(d, 0), steps, l, false), l, Size(d, l, 0, false).size) {
      BytesInsideSize(d, steps, l);
    }
    if AllWithin(d, l, Reported(d, l)) {
      var none: seq<Step> := [];
      assert Follow(View(d, 0), none, l, false) == View(d, 0);
      assert Within(View(d, 0), l, Reported(d, l));
    }
  }

  // An array of 2^24 structures of 64 bytes is 1 GiB long, and is reported as -2^30.
  lemma NegativeSize()
    ensures var item := Dict(Entry("v", Word(6, 0), Entry("w", Word(6, 56), NoFields)));
      var d := Dict(Entry("x", Sub(0, AggArray(0x100_0000, item)), NoFields));
      Size(d, Native, 0, true).size == 0x4000_0000 && Reported(d, Native) == -0x4000_0000
  {
    var last := Entry("w", Word(6, 56), NoFields);
    var item := Dict(Entry("v", Word(6, 0), last));
    var x := AggArray(0x100_0000, item);
    var d := Dict(Entry("x", Sub(0, x), NoFields));
    assert ScalarSize(6) == 8;
    assert Walk(last, Native, 8, 8, true) == Sized(64, 8);
    assert Walk(item.fields, Native, 0, 0, true) == Sized(64, 8);
    assert Size(item, Native, 0, true) == Sized(64, 8);
    assert Walk(d.fields, Native, 0, 0, true) == Sized(0x4000_0000, 8);
    SizeFits(d, Native, 0);
  }

  lemma WrappedItem(x: Agg, item: Desc)
    requires item == Dict(Entry("v", Word(6, 0), Entry("w", Word(6, 56), NoFields)))
    requires x == AggArray(0x400_0000, item)
    ensures Size(item, Native, 0, false) == Sized(64, 8)
    ensures Follow(View(Tuple(x), 0), [Index(1), Attr("v")], Native, false) == Bytes(64, 8)
  {
    var last := Entry("w", Word(6, 56), NoFields);
    assert ScalarSize(6) == 8;
    assert Walk(last, Native, 8, 8, false) == Sized(64, 8);
    assert Walk(item.fields, Native, 0, 0, false) == Sized(64, 8);
    assert Size(item, Native, 0, false) == Sized(64, 8);
    var steps := [Index(1), Attr("v")];
    assert steps[1..] == [Attr("v")];
    assert Take(View(Tuple(x), 0), steps[0], Native, false) == View(item, 64);
    assert Take(View(item, 64), steps[1], Native, false) == Bytes(64, 8);
    assert Follow(View(item, 64), [steps[1]], Native, false) == Bytes(64, 8);
  }

  // Past 4 GiB the size wraps: that of an array of 2^26 structures of 64 bytes is 0.
  lemma WrappedSize()
    ensures var item := Dict(Entry("v", Word(6, 0), Entry("w", Word(6, 56), NoFields)));
      var d := Dict(Entry("x", Sub(0, AggArray(0x400_0000, item)), NoFields));
      Size(d, Native, 0, false).size == 0
      && Follow(View(d, 0), [Attr("x"), Index(1), Attr("v")], Native, false) == Bytes(64, 8)
  {
    var item := Dict(Entry("v", Word(6, 0), Entry("w", Word(6, 56), NoFields)));
    var x := AggArray(0x400_0000, item);
    var d := Dict(Entry("x", Sub(0, x), NoFields));
    WrappedItem(x, item);
    assert Walk(d.fields, Native, 0, 0, false) == Sized(0, 8);
    var steps := [Attr("x"), Index(1), Attr("v")];
    assert steps[1..] == [Index(1), Attr("v")];
    assert Take(View(d, 0), steps[0], Native, false) == View(Tuple(x), 0);
  }
}
