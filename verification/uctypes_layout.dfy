// extmod/moductypes.c: the layout a description declares, told without the functions that
// compute it: widths as a table, fields as a list, sizes as least bounds.

module UctypesLayout {
  import opened UctypesSize
  import opened UctypesAccess

  // The bytes of a scalar: integers from UINT8 to INT64, bit fields in 8, 16 and 32 bits, and
  // the two floats.
  const WIDTHS: seq<nat> := [1, 1, 2, 2, 4, 4, 8, 8, 1, 1, 2, 2, 4, 4, 4, 8]

  // The bytes of an array element where arrays are sized; right for the integers only.
  const STRIDES: seq<nat> := [1, 1, 2, 2, 4, 4, 8, 8, 16, 16, 32, 32, 64, 64, 128, 128]

  lemma ScalarWidths(vt: ValType)
    ensures ScalarSize(vt) == WIDTHS[vt] && ItemSize(vt) == STRIDES[vt]
  {
  }

  // Bit fields keep their position and length above 17 bits of offset.
  function DeclaredOffset(vt: ValType, bits: Bits27): nat {
    if 8 <= vt <= 13 then bits % 0x2_0000 else bits
  }

  function Entries(fields: Fields): seq<(string, FieldValue)> {
    match fields
    case NoFields => []
    case Entry(name, value, rest) => [(name, value)] + Entries(rest)
  }

  predicate Named(fields: Fields, name: string, i: nat) {
    i < |Entries(fields)| && Entries(fields)[i].0 == name
  }

  // The names of a dictionary differ, so a field is found exactly by its own.
  lemma {:induction false} LookupFinds(fields: Fields, name: string, i: nat)
    requires Named(fields, name, i) && forall j: nat :: Named(fields, name, j) ==> j >= i
    ensures Lookup(fields, name) == Entries(fields)[i].1
  {
    if i > 0 {
      assert !Named(fields, name, 0);
      forall j: nat | Named(fields.rest, name, j) ensures j >= i - 1 {
        assert Named(fields, name, j + 1);
      }
      LookupFinds(fields.rest, name, i - 1);
    }
  }

  lemma {:induction false} LookupMisses(fields: Fields, name: string)
    requires forall j: nat :: !Named(fields, name, j)
    ensures Lookup(fields, name) == Other
  {
    if fields.Entry? {
      assert !Named(fields, name, 0);
      forall j: nat ensures !Named(fields.rest, name, j) {
        assert !Named(fields, name, j + 1);
      }
      LookupMisses(fields.rest, name);
    }
  }

  // ---------- the size of a structure ----------

  // The sizes that count for alignment.
  function Units(d: Desc): set<nat> {
    match d
    case Dict(fields) => FieldUnits(fields)
    case Tuple(agg) => AggUnits(agg)
    case _ => {}
  }

  function AggUnits(a: Agg): set<nat> {
    match a
    case Struct(d) => Units(d)
    case Ptr => {4}
    case ScalarArray(vt, _) => {STRIDES[vt]}
    case AggArray(_, d) => Units(d)
  }

  function FieldUnits(fields: Fields): set<nat> {
    match fields
    case NoFields => {}
    case Entry(_, value, rest) => ValueUnits(value) + FieldUnits(rest)
  }

  function ValueUnits(value: FieldValue): set<nat> {
    match value
    case Word(vt, _) => {WIDTHS[vt]}
    case Sub(_, agg) => AggUnits(agg)
    case Other => {}
  }

  // x is the largest of m and the units.
  predicate LargestOf(x: nat, m: nat, units: set<nat>) {
    (x == m || x in units) && m <= x && forall u :: u in units ==> u <= x
  }

  // The largest field is the largest scalar anywhere inside, or what was the largest before.
  lemma LargestUnit(d: Desc, l: Layout, m: Max)
    ensures LargestOf(Size(d, l, m, true).max, m, Units(d))
  {
    match d {
      case Dict(fields) => LargestField(fields, l, 0, m);
      case Tuple(agg) => LargestInAgg(agg, l, m);
      case _ =>
    }
  }

  lemma LargestInAgg(a: Agg, l: Layout, m: Max)
    ensures LargestOf(AggSize(a, l, m, true).max, m, AggUnits(a))
  {
    match a {
      case Struct(d) => LargestUnit(d, l, m);
      case AggArray(_, d) => LargestUnit(d, l, m);
      case ScalarArray(vt, _) => ScalarWidths(vt);
      case Ptr =>
    }
  }

  lemma LargestField(fields: Fields, l: Layout, total: nat, m: Max)
    ensures LargestOf(Walk(fields, l, total, m, true).max, m, FieldUnits(fields))
  {
    match fields {
      case NoFields =>
      case Entry(_, value, rest) =>
        var s := FieldEnd(value, l, m, true);
        LargestInField(value, l, m);
        LargestField(rest, l, Longer(s.size, total), s.max);
    }
  }

  lemma LargestInField(value: FieldValue, l: Layout, m: Max)
    ensures LargestOf(FieldEnd(value, l, m, true).max, m, ValueUnits(value))
    decreases value, 1
  {
    match value {
      case Word(vt, _) => ScalarWidths(vt);
      case Sub(_, agg) => LargestInAgg(agg, l, m);
      case Other =>
    }
  }

  // The bytes an aggregate takes, where those of the structures in it are known.
  function Extent(a: Agg, l: Layout, m: Max): nat {
    match a
    case Struct(d) => Size(d, l, m, true).size
    case Ptr => 4
    case ScalarArray(vt, n) => STRIDES[vt] * n
    case AggArray(n, d) => Size(d, l, m, true).size * n
  }

  // Where a field ends, when the largest field before it has m bytes.
  function End(value: FieldValue, l: Layout, m: Max): nat {
    match value
    case Word(vt, bits) => DeclaredOffset(vt, bits) + WIDTHS[vt]
    case Sub(offset, agg) => offset + Extent(agg, l, m)
    case Other => 0
  }

  function FirstFields(fields: Fields, i: nat): Fields {
    if i == 0 || fields.NoFields? then NoFields
    else Entry(fields.name, fields.value, FirstFields(fields.rest, i - 1))
  }

  // Field i of a structure, which ends at end; what precedes it sets the alignment it is sized
  // with, as far as that exceeds m.
  ghost predicate EndsAt(fields: Fields, l: Layout, m: Max, i: nat, x: Max, end: nat) {
    && i < |Entries(fields)|
    && LargestOf(x, m, FieldUnits(FirstFields(fields, i)))
    && end == End(Entries(fields)[i].1, l, x)
  }

  lemma FirstEnd(value: FieldValue, l: Layout, m: Max)
    ensures FieldEnd(value, l, m, true).size == End(value, l, m)
  {
    match value {
      case Word(vt, _) => ScalarWidths(vt);
      case Sub(_, agg) => if agg.ScalarArray? { ScalarWidths(agg.vt); }
      case Other =>
    }
  }

  lemma {:induction false} WalkCovers(fields: Fields, l: Layout, total: nat, m: Max, i: nat, x: Max, end: nat)
    requires EndsAt(fields, l, m, i, x, end)
    ensures end <= Walk(fields, l, total, m, true).size
  {
    var s := FieldEnd(fields.value, l, m, true);
    FirstEnd(fields.value, l, m);
    WalkAligned(fields.rest, l, Longer(s.size, total), s.max, true);
    if i > 0 {
      LargestInField(fields.value, l, m);
      WalkCovers(fields.rest, l, Longer(s.size, total), s.max, i - 1, x, end);
    }
  }

  lemma {:induction false} WalkTight(fields: Fields, l: Layout, total: nat, m: Max) returns (i: nat, x: Max)
    ensures var t := Walk(fields, l, total, m, true).size; t == total || EndsAt(fields, l, m, i, x, t)
  {
    i, x := 0, m;
    if fields.Entry? {
      var s := FieldEnd(fields.value, l, m, true);
      FirstEnd(fields.value, l, m);
      LargestInField(fields.value, l, m);
      i, x := WalkTight(fields.rest, l, Longer(s.size, total), s.max);
      if Walk(fields, l, total, m, true).size == Longer(s.size, total) {
        i, x := 0, m;
      } else {
        i := i + 1;
      }
    }
  }

  // Every field ends inside its structure, except that a native structure without any scalar
  // has no bytes, wherever the empty structures in it are put.
  lemma SizeCovers(fields: Fields, l: Layout, m: Max, i: nat, x: Max, end: nat)
    requires EndsAt(fields, l, m, i, x, end)
    ensures var s := Size(Dict(fields), l, m, true);
      if l.Native? && s.max == 0 then s.size == 0 else end <= s.size
  {
    WalkCovers(fields, l, 0, m, i, x, end);
    var s := Walk(fields, l, 0, m, true);
    if l.Native? && s.max > 0 { RoundUpBounds(s.size, s.max); }
  }

  // A structure ends with its last field, or in native layout with the padding up to the next
  // multiple of its largest scalar.
  predicate Padded(s: Sized, end: nat, l: Layout, q: nat) {
    if l.Native? then s.size == q * s.max && end <= s.size < end + s.max else s.size == end
  }

  // No structure is longer than its fields and their padding.
  lemma SizeTight(fields: Fields, l: Layout, m: Max) returns (i: nat, x: Max, end: nat, q: nat)
    ensures var s := Size(Dict(fields), l, m, true);
      s.size > 0 ==> EndsAt(fields, l, m, i, x, end) && Padded(s, end, l, q)
  {
    i, x := WalkTight(fields, l, 0, m);
    var s := Walk(fields, l, 0, m, true);
    end, q := s.size, 0;
    if l.Native? && s.max > 0 {
      RoundUpBounds(s.size, s.max);
      q := (s.size + s.max - 1) / s.max;
    }
  }
}
