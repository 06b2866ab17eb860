// extmod/moductypes.c: how large a described structure is, and which bytes its accesses
// touch. Sizing threads one "largest field so far" through the whole description; addressing
// starts a fresh one for every array element. They must still agree.

module UctypesSize {

  datatype Layout = LittleEndian | BigEndian | Native

  const FLOAT32 := 14

  // A descriptor word is a value type in its top bits and 27 bits below; the pointer size is 4.
  type ValType = t: nat | t < 16
  type Bits27 = x: nat | x < 0x800_0000
  type Bits29 = x: nat | x < 0x2000_0000

  datatype Desc = Dict(fields: Fields) | Tuple(agg: Agg) | Scalar | Junk

  datatype Fields = NoFields | Entry(name: string, value: FieldValue, rest: Fields)

  // bits holds the offset, and for bit fields their position and length above 17 bits of it.
  datatype FieldValue = Word(vt: ValType, bits: Bits27) | Sub(offset: Bits29, agg: Agg) | Other

  datatype Agg = Struct(d: Desc) | Ptr | ScalarArray(vt: ValType, n: Bits27) | AggArray(n: Bits27, d: Desc)

  // Field sizes are powers of two, and the largest one so far is 0 before there is any.
  predicate Alignment(m: nat) {
    m == 0 || m == 1 || m == 2 || m == 4 || m == 8 || m == 16 || m == 32 || m == 64 || m == 128
  }

  type Max = m: nat | Alignment(m)

  datatype Sized = Sized(size: nat, max: Max)

  // 1 << k
  function Shl1(k: nat): (m: Max)
    requires k < 8
    ensures m > 0
  {
    if k == 0 then 1 else if k == 1 then 2 else if k == 2 then 4 else if k == 3 then 8
    else if k == 4 then 16 else if k == 5 then 32 else if k == 6 then 64 else 128
  }

  function ScalarSize(vt: ValType): (m: Max)
    ensures 0 < m <= ItemSize(vt)
  {
    if vt == FLOAT32 then 4 else Shl1(vt % 8 / 2)
  }

  // GET_SCALAR_SIZE, which is not the size of a float.
  function ItemSize(vt: ValType): (m: Max)
    ensures m > 0
  {
    Shl1(vt / 2)
  }

  predicate IsBitField(vt: ValType) {
    8 <= vt <= 13
  }

  function WordOffset(w: FieldValue): nat
    requires w.Word?
  {
    if IsBitField(w.vt) then w.bits % 0x2_0000 else w.bits
  }

  function Larger(a: Max, b: Max): Max {
    if a > b then a else b
  }

  function Longer(a: nat, b: nat): nat {
    if a > b then a else b
  }

  // mp_uint_t is 32 bits wide; the ideal sizes are what it would hold if it were not.
  function Wrap(ideal: bool, x: nat): nat {
    if ideal then x else x % 0x1_0000_0000
  }

  // x & ~(m - 1)
  function Down(x: nat, m: nat): nat
    requires m > 0
  {
    var q: nat := x / m;
    q * m
  }

  // (t + m - 1) & ~(m - 1), whose first term wraps below zero when t and m are 0.
  function RoundUp(ideal: bool, t: nat, m: Max): nat {
    if m == 0 then 0 else Down(Wrap(ideal, t + m - 1), m)
  }

  // uctypes_struct_size
  function Size(d: Desc, l: Layout, m: Max, ideal: bool): Sized {
    match d
    case Dict(fields) =>
      var s := Walk(fields, l, 0, m, ideal);
      if l.Native? then Sized(RoundUp(ideal, s.size, s.max), s.max) else s
    case Tuple(agg) => AggSize(agg, l, m, ideal)
    case _ => Sized(0, m)
  }

  // uctypes_struct_agg_size
  function AggSize(a: Agg, l: Layout, m: Max, ideal: bool): Sized {
    match a
    case Struct(d) => Size(d, l, m, ideal)
    case Ptr => Sized(4, Larger(4, m))
    case ScalarArray(vt, n) => Sized(Wrap(ideal, ItemSize(vt) * n), Larger(ItemSize(vt), m))
    case AggArray(n, d) =>
      var s := Size(d, l, m, ideal);
      Sized(Wrap(ideal, s.size * n), s.max)
  }

  // The loop over the fields.
  function Walk(fields: Fields, l: Layout, total: nat, m: Max, ideal: bool): Sized {
    match fields
    case NoFields => Sized(total, m)
    case Entry(_, value, rest) =>
      var s := FieldEnd(value, l, m, ideal);
      Walk(rest, l, Longer(s.size, total), s.max, ideal)
  }

  // Where a field ends.
  function FieldEnd(value: FieldValue, l: Layout, m: Max, ideal: bool): Sized {
    match value
    case Word(vt, _) => Sized(Wrap(ideal, WordOffset(value) + ScalarSize(vt)), Larger(ScalarSize(vt), m))
    case Sub(offset, agg) =>
      var s := AggSize(agg, l, m, ideal);
      Sized(Wrap(ideal, offset + s.size), s.max)
    case Other => Sized(0, m)
  }

  // ---------- the methods ----------

  datatype Result = Ok(s: Sized) | SyntaxError | ScalarError

  // Descriptions in which every part is of a kind the code knows.
  predicate WellFormed(d: Desc) {
    match d
    case Dict(fields) => FieldsWellFormed(fields)
    case Tuple(agg) => AggWellFormed(agg)
    case _ => false
  }

  predicate AggWellFormed(a: Agg) {
    match a
    case Struct(d) => WellFormed(d)
    case AggArray(_, d) => WellFormed(d)
    case _ => true
  }

  predicate FieldsWellFormed(fields: Fields) {
    match fields
    case NoFields => true
    case Entry(_, value, rest) => (value.Sub? ==> AggWellFormed(value.agg)) && !value.Other? && FieldsWellFormed(rest)
  }

  method StructSize(d: Desc, l: Layout, m: Max) returns (r: Result)
    ensures r.Ok? <==> WellFormed(d)
    ensures r.Ok? ==> r.s == Size(d, l, m, false)
  {
    if d.Tuple? {
      r := StructAggSize(d.agg, l, m);
      return;
    } else if d.Scalar? {
      return ScalarError;
    } else if d.Junk? {
      return SyntaxError;
    }
    var fields, total: nat, max: Max := d.fields, 0, m;
    while fields.Entry?
      invariant fields == d.fields || fields < d.fields
      invariant FieldsWellFormed(d.fields) <==> FieldsWellFormed(fields)
      invariant Walk(d.fields, l, 0, m, false) == Walk(fields, l, total, max, false)
      decreases fields
    {
      r := FieldSize(fields.value, l, max);
      if !r.Ok? {
        return;
      }
      if r.s.size > total {
        total := r.s.size;
      }
      max := r.s.max;
      fields := fields.rest;
    }
    if l.Native? {
      total := if max == 0 then 0 else Down((total + max - 1) % 0x1_0000_0000, max);
    }
    r := Ok(Sized(total, max));
  }

  // One field: where it ends, and the largest field so far.
  method FieldSize(value: FieldValue, l: Layout, m: Max) returns (r: Result)
    ensures r.Ok? <==> !value.Other? && (value.Sub? ==> AggWellFormed(value.agg))
    ensures r.Ok? ==> r.s == FieldEnd(value, l, m, false)
  {
    if value.Word? {
      var offset := if IsBitField(value.vt) then value.bits % 0x2_0000 else value.bits;
      var s := ScalarSize(value.vt);
      r := Ok(Sized((offset + s) % 0x1_0000_0000, if s > m then s else m));
    } else if value.Other? {
      return SyntaxError;
    } else {
      r := StructAggSize(value.agg, l, m);
      if r.Ok? {
        r := Ok(Sized((value.offset + r.s.size) % 0x1_0000_0000, r.s.max));
      }
    }
  }

  method StructAggSize(a: Agg, l: Layout, m: Max) returns (r: Result)
    ensures r.Ok? <==> AggWellFormed(a)
    ensures r.Ok? ==> r.s == AggSize(a, l, m, false)
  {
    match a {
      case Struct(d) =>
        r := StructSize(d, l, m);
      case Ptr =>
        r := Ok(Sized(4, if 4 > m then 4 else m));
      case ScalarArray(vt, n) =>
        var s := ItemSize(vt);
        r := Ok(Sized(s * n % 0x1_0000_0000, if s > m then s else m));
      case AggArray(n, d) =>
        r := StructSize(d, l, m);
        if r.Ok? {
          r := Ok(Sized(r.s.size * n % 0x1_0000_0000, r.s.max));
        }
    }
  }

  // ---------- the accumulator is a power of two and only grows ----------

  lemma DownBounds(x: nat, m: nat)
    requires m > 0
    ensures Down(x, m) <= x < Down(x, m) + m
  {
    assert x == m * (x / m) + x % m;
  }

  lemma LeastMultiple(t: nat, m: nat, q: nat)
    requires m > 0 && t <= q * m
    ensures Down(t + m - 1, m) <= q * m
  {
    var p := (t + m - 1) / m;
    DownBounds(t + m - 1, m);
    if p > q { Products(q + 1, p, m); }
  }

  lemma RoundUpBounds(t: nat, m: Max)
    requires m > 0
    ensures t <= RoundUp(true, t, m) < t + m
  {
    DownBounds(t + m - 1, m);
  }

  // Rounding to a larger power of two is rounding to some multiple of the smaller one.
  lemma RoundUpMonotone(t: nat, t': nat, m: Max, m': Max)
    requires t <= t' && m <= m'
    ensures RoundUp(true, t, m) <= RoundUp(true, t', m')
  {
    if m > 0 {
      var k := Ratio(m, m');
      var q := (t' + m' - 1) / m';
      RoundUpBounds(t', m');
      assert q * m' == (q * k) * m;
      LeastMultiple(t, m, q * k);
    }
  }

  function Ratio(m: Max, m': Max): (k: nat)
    requires 0 < m <= m'
    ensures m' == k * m
    decreases m' - m
  {
    if m == m' then 1
    else
      assert Alignment(m) && Alignment(m') && Alignment(2 * m);
      var r := Ratio(2 * m, m');
      assert (2 * r) * m == r * (2 * m);
      2 * r
  }

  lemma Products(a: nat, b: nat, n: nat)
    requires a <= b
    ensures a * n <= b * n
  {
  }

  lemma SizeAligned(d: Desc, l: Layout, m: Max, ideal: bool)
    ensures var s := Size(d, l, m, ideal); s.max >= m
    ensures var s := Size(d, l, m, ideal); l.Native? && s.size > 0 ==> s.max > 0
  {
    match d {
      case Dict(fields) => WalkAligned(fields, l, 0, m, ideal);
      case Tuple(agg) => AggAligned(agg, l, m, ideal);
      case _ =>
    }
  }

  lemma AggAligned(a: Agg, l: Layout, m: Max, ideal: bool)
    ensures var s := AggSize(a, l, m, ideal); s.max >= m
    ensures var s := AggSize(a, l, m, ideal); l.Native? && s.size > 0 ==> s.max > 0
  {
    match a {
      case Struct(d) => SizeAligned(d, l, m, ideal);
      case AggArray(n, d) => SizeAligned(d, l, m, ideal);
      case _ =>
    }
  }

  lemma WalkAligned(fields: Fields, l: Layout, total: nat, m: Max, ideal: bool)
    ensures var s := Walk(fields, l, total, m, ideal); s.max >= m && s.size >= total
  {
    match fields {
      case NoFields =>
      case Entry(_, value, rest) =>
        var s := FieldEnd(value, l, m, ideal);
        if value.Sub? { AggAligned(value.agg, l, m, ideal); }
        WalkAligned(rest, l, Longer(s.size, total), s.max, ideal);
    }
  }

  // The recursive size is monotone in the accumulator.
  lemma SizeMonotone(d: Desc, l: Layout, m: Max, m': Max)
    requires m <= m'
    ensures var s, s' := Size(d, l, m, true), Size(d, l, m', true); s.size <= s'.size && s.max <= s'.max
  {
    match d {
      case Dict(fields) =>
        WalkMonotone(fields, l, 0, 0, m, m');
        WalkAligned(fields, l, 0, m, true);
        WalkAligned(fields, l, 0, m', true);
        var s, s' := Walk(fields, l, 0, m, true), Walk(fields, l, 0, m', true);
        RoundUpMonotone(s.size, s'.size, s.max, s'.max);
      case Tuple(agg) => AggMonotone(agg, l, m, m');
      case _ =>
    }
  }

  lemma AggMonotone(a: Agg, l: Layout, m: Max, m': Max)
    requires m <= m'
    ensures var s, s' := AggSize(a, l, m, true), AggSize(a, l, m', true); s.size <= s'.size && s.max <= s'.max
  {
    match a {
      case Struct(d) => SizeMonotone(d, l, m, m');
      case AggArray(n, d) =>
        SizeMonotone(d, l, m, m');
        Products(Size(d, l, m, true).size, Size(d, l, m', true).size, n);
      case _ =>
    }
  }

  lemma WalkMonotone(fields: Fields, l: Layout, t: nat, t': nat, m: Max, m': Max)
    requires t <= t' && m <= m'
    ensures var s, s' := Walk(fields, l, t, m, true), Walk(fields, l, t', m', true);
      s.size <= s'.size && s.max <= s'.max
  {
    match fields {
      case NoFields =>
      case Entry(_, value, rest) =>
        if value.Sub? { AggMonotone(value.agg, l, m, m'); }
        var s, s' := FieldEnd(value, l, m, true), FieldEnd(value, l, m', true);
        WalkMonotone(rest, l, Longer(s.size, t), Longer(s'.size, t'), s.max, s'.max);
    }
  }
}
