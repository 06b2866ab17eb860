// extmod/moductypes.c: the bytes a chain of field and index accesses touches.

module UctypesAccess {
  import opened UctypesSize

  // What an access yields: a sub-structure at an address, or bytes read or written. Nothing
  // stands for every error, and for following a pointer out of the structure.
  datatype Place = View(d: Desc, at: nat) | Bytes(at: nat, len: nat) | Nothing

  datatype Step = Attr(name: string) | Index(i: nat)

  function Lookup(fields: Fields, name: string): FieldValue {
    match fields
    case NoFields => Other
    case Entry(n, value, rest) => if n == name then value else Lookup(rest, name)
  }

  // uctypes_struct_attr_op
  function GetAttr(d: Desc, at: nat, name: string, l: Layout, ideal: bool): Place {
    if !d.Dict? then Nothing
    else match Lookup(d.fields, name)
      case Other => Nothing
      case Word(vt, bits) => Bytes(Wrap(ideal, at + WordOffset(Word(vt, bits))), ScalarSize(vt))
      case Sub(offset, agg) => GetSub(offset, agg, at, l, ideal)
  }

  // An array of bytes comes as a bytearray over all of it.
  function GetSub(offset: Bits29, agg: Agg, at: nat, l: Layout, ideal: bool): Place {
    if agg.Struct? then View(agg.d, Wrap(ideal, at + offset))
    else if agg.ScalarArray? && agg.vt == 0 then Bytes(Wrap(ideal, at + offset), AggSize(agg, l, 0, ideal).size)
    else View(Tuple(agg), Wrap(ideal, at + offset))
  }

  // uctypes_struct_subscr, for a non-negative index. Native scalars are indexed as C arrays,
  // the others by GET_SCALAR_SIZE.
  function GetItem(d: Desc, at: nat, i: nat, l: Layout, ideal: bool): Place {
    if !d.Tuple? then Nothing
    else match d.agg
      case ScalarArray(vt, n) =>
        if i >= n || IsBitField(vt) then Nothing
        else Bytes(Wrap(ideal, at + (if l.Native? then ScalarSize(vt) else ItemSize(vt)) * i), ScalarSize(vt))
      case AggArray(n, item) =>
        if i >= n then Nothing else View(item, Wrap(ideal, at + Size(item, l, 0, ideal).size * i))
      case _ => Nothing
  }

  // The same for a store, which only scalars take. Where mp_int_t has 32 bits, set_aligned
  // stores 64-bit integers at the start of the array, whatever the index.
  function SetItem(d: Desc, at: nat, i: nat, l: Layout, ideal: bool): Place {
    var p := GetItem(d, at, i, l, ideal);
    if !p.Bytes? then Nothing
    else if l.Native? && Is64(d.agg.vt) then Bytes(at, p.len)
    else p
  }

  predicate Is64(vt: ValType) {
    vt == 6 || vt == 7
  }

  function Take(p: Place, step: Step, l: Layout, ideal: bool): Place {
    if !p.View? then Nothing
    else match step
      case Attr(name) => GetAttr(p.d, p.at, name, l, ideal)
      case Index(i) => GetItem(p.d, p.at, i, l, ideal)
  }

  function Follow(p: Place, steps: seq<Step>, l: Layout, ideal: bool): Place
    decreases |steps|
  {
    if steps == [] then p else Follow(Take(p, steps[0], l, ideal), steps[1..], l, ideal)
  }

  // The bytes of a place lie below a bound: the whole of a sub-structure (which it exposes
  // through the buffer protocol) or the bytes accessed.
  predicate Below(p: Place, bound: nat, l: Layout) {
    match p
    case View(d, at) => var s := Size(d, l, 0, true).size; s == 0 || at + s <= bound
    case Bytes(at, len) => len == 0 || at + len <= bound
    case Nothing => true
  }

  // A field that is not empty ends inside its structure.
  lemma FieldInside(fields: Fields, name: string, l: Layout, total: nat, m: Max)
    ensures var f, s := Lookup(fields, name), Walk(fields, l, total, m, true);
      && (f.Word? ==> WordOffset(f) + ScalarSize(f.vt) <= s.size && s.max > 0)
      && (f.Sub? ==> var a := AggSize(f.agg, l, 0, true);
            f.offset + a.size <= s.size && (l.Native? && a.size > 0 ==> s.max > 0))
  {
    match fields {
      case NoFields =>
      case Entry(n, value, rest) =>
        var s := FieldEnd(value, l, m, true);
        if value.Sub? {
          AggAligned(value.agg, l, 0, true);
          AggMonotone(value.agg, l, 0, m);
        }
        WalkAligned(rest, l, Longer(s.size, total), s.max, true);
        FieldInside(rest, name, l, Longer(s.size, total), s.max);
    }
  }

  lemma AttrInside(d: Desc, at: nat, name: string, bound: nat, l: Layout)
    requires Below(View(d, at), bound, l)
    ensures Below(GetAttr(d, at, name, l, true), bound, l)
  {
    if d.Dict? {
      FieldInside(d.fields, name, l, 0, 0);
      WalkAligned(d.fields, l, 0, 0, true);
      var s := Walk(d.fields, l, 0, 0, true);
      if s.max > 0 { RoundUpBounds(s.size, s.max); }
    }
  }

  lemma ItemEnds(item: nat, i: nat, n: nat)
    requires i < n
    ensures item * i + item <= item * n
  {
    assert item * n == item * i + item * (n - i);
    assert item * (n - i) == item + item * (n - i - 1);
  }

  lemma ScalarItemInside(vt: ValType, n: Bits27, at: nat, i: nat, bound: nat, l: Layout)
    requires i < n && at + ItemSize(vt) * n <= bound
    ensures Below(GetItem(Tuple(ScalarArray(vt, n)), at, i, l, true), bound, l)
  {
    ItemEnds(ItemSize(vt), i, n);
    Products(ScalarSize(vt), ItemSize(vt), i);
  }

  lemma ScalarsNotEmpty(vt: ValType, n: nat)
    requires n > 0
    ensures ItemSize(vt) * n > 0
  {
    Products(1, ItemSize(vt), n);
  }

  lemma ItemInside(d: Desc, at: nat, i: nat, bound: nat, l: Layout)
    requires Below(View(d, at), bound, l)
    ensures Below(GetItem(d, at, i, l, true), bound, l)
  {
    if d.Tuple? && d.agg.ScalarArray? && i < d.agg.n {
      ScalarsNotEmpty(d.agg.vt, d.agg.n);
      assert Size(d, l, 0, true).size == ItemSize(d.agg.vt) * d.agg.n;
      ScalarItemInside(d.agg.vt, d.agg.n, at, i, bound, l);
    } else if d.Tuple? && d.agg.AggArray? && i < d.agg.n {
      var item := Size(d.agg.d, l, 0, true).size;
      ItemEnds(item, i, d.agg.n);
      assert Size(d, l, 0, true).size == item * d.agg.n;
    }
  }

  // A store reaches the element a load reads back exactly if it is the first one, or not a
  // 64-bit integer of a native array.
  lemma StoreHitsIff(vt: ValType, n: Bits27, at: nat, i: nat, l: Layout)
    requires i < n && !IsBitField(vt)
    ensures var a := Tuple(ScalarArray(vt, n));
      SetItem(a, at, i, l, true) == GetItem(a, at, i, l, true) <==> i == 0 || !(l.Native? && Is64(vt))
  {
    if i > 0 { Products(1, ScalarSize(vt), i); }
  }

  lemma StoreInside(d: Desc, at: nat, i: nat, bound: nat, l: Layout)
    requires Below(View(d, at), bound, l)
    ensures Below(SetItem(d, at, i, l, true), bound, l)
  {
    ItemInside(d, at, i, bound, l);
  }

  // Whatever chain of fields and indices is followed, the bytes lie inside the computed size.
  lemma {:induction false} AccessInside(p: Place, steps: seq<Step>, bound: nat, l: Layout)
    requires Below(p, bound, l)
    ensures Below(Follow(p, steps, l, true), bound, l)
    decreases |steps|
  {
    if steps != [] {
      if p.View? {
        match steps[0] {
          case Attr(name) => AttrInside(p.d, p.at, name, bound, l);
          case Index(i) => ItemInside(p.d, p.at, i, bound, l);
        }
      }
      AccessInside(Take(p, steps[0], l, true), steps[1..], bound, l);
    }
  }
}
