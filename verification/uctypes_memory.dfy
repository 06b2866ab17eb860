// extmod/moductypes.c: what loads and stores along a chain of accesses do to memory, against
// where the description declares its parts.

module UctypesMemory {
  import opened UctypesSize
  import opened UctypesAccess
  import opened UctypesWidth
  import opened UctypesLayout

  type Byte = b: nat | b < 256

  datatype Option<T> = None | Some(value: T)

  datatype Span = Span(at: nat, len: nat)

  // ---------- the declared place ----------

  // The bytes a chain names, counted from the start of the structure: the declared offsets and
  // the indices times the element sizes, added up. A store takes scalars only, and one to a
  // native array of 64-bit integers goes to the first of them, whatever the index.
  function Declared(d: Desc, steps: seq<Step>, l: Layout, store: bool): Option<Span>
    decreases |steps|, 1
  {
    if steps == [] then None
    else match steps[0]
      case Attr(name) => if d.Dict? then FieldSpan(Lookup(d.fields, name), steps[1..], l, store) else None
      case Index(i) => if d.Tuple? then ItemSpan(d.agg, i, steps[1..], l, store) else None
  }

  function FieldSpan(value: FieldValue, rest: seq<Step>, l: Layout, store: bool): Option<Span>
    decreases |rest|, 2
  {
    match value
    case Word(vt, bits) => if rest == [] then Some(Span(DeclaredOffset(vt, bits), WIDTHS[vt])) else None
    case Sub(offset, agg) =>
      if IsBytes(agg) then if rest == [] && !store then Some(Span(offset, agg.n)) else None
      else Moved(offset, Declared(Inner(agg), rest, l, store))
    case Other => None
  }

  function ItemSpan(agg: Agg, i: nat, rest: seq<Step>, l: Layout, store: bool): Option<Span>
    decreases |rest|, 2
  {
    match agg
    case ScalarArray(vt, n) =>
      if i >= n || 8 <= vt <= 13 || rest != [] then None
      else Some(Span(if store && IsNative64(vt, l) then 0 else Stride(vt, l) * i, WIDTHS[vt]))
    case AggArray(n, item) => ElementSpan(Size(item, l, 0, true).size, n, i, Declared(item, rest, l, store))
    case _ => None
  }

  function ElementSpan(size: nat, n: nat, i: nat, s: Option<Span>): Option<Span> {
    if i >= n then None else Moved(size * i, s)
  }

  function Moved(shift: nat, s: Option<Span>): Option<Span> {
    if s.None? then None else Some(Span(shift + s.value.at, s.value.len))
  }

  // Native arrays are those of C; the others have the elements they are sized with.
  function Stride(vt: ValType, l: Layout): nat {
    if l.Native? then WIDTHS[vt] else STRIDES[vt]
  }

  predicate IsNative64(vt: ValType, l: Layout) {
    l.Native? && 6 <= vt <= 7
  }

  // UINT8
  predicate IsBytes(agg: Agg) {
    agg.ScalarArray? && agg.vt == 0
  }

  // What the view of an aggregate is described by.
  function Inner(agg: Agg): Desc {
    if agg.Struct? then agg.d else Tuple(agg)
  }

  // ---------- loads and stores ----------

  // The bytes at an address; None where they are not all in memory.
  function Fetch(mem: seq<Byte>, at: nat, len: nat): Option<seq<Byte>> {
    if len == 0 then Some([]) else if at + len <= |mem| then Some(mem[at..at + len]) else None
  }

  // The bytes a chain of loads ends with; None for an error, or a view.
  function Load(mem: seq<Byte>, d: Desc, at: nat, steps: seq<Step>, l: Layout): Option<seq<Byte>> {
    var p := Follow(View(d, at), steps, l, false);
    if p.Bytes? then Fetch(mem, p.at, p.len) else None
  }

  // uctypes_struct_attr_op and uctypes_struct_subscr, given a value
  function Assign(p: Place, step: Step, l: Layout, ideal: bool): Place {
    if !p.View? then Nothing
    else match step
      case Attr(name) =>
        if p.d.Dict? && Lookup(p.d.fields, name).Word? then GetAttr(p.d, p.at, name, l, ideal) else Nothing
      case Index(i) => SetItem(p.d, p.at, i, l, ideal)
  }

  // All steps of a store but the last one are loads.
  function Target(p: Place, steps: seq<Step>, l: Layout, ideal: bool): Place
    decreases |steps|
  {
    if steps == [] then Nothing
    else if |steps| == 1 then Assign(p, steps[0], l, ideal)
    else Target(Take(p, steps[0], l, ideal), steps[1..], l, ideal)
  }

  // Memory after a chain whose last step is given the bytes v; None for an error.
  function Store(mem: seq<Byte>, d: Desc, at: nat, steps: seq<Step>, l: Layout, v: seq<Byte>): Option<seq<Byte>> {
    var p := Target(View(d, at), steps, l, false);
    if p.Bytes? && |v| == p.len && p.at + p.len <= |mem| then Some(mem[..p.at] + v + mem[p.at + p.len..]) else None
  }

  // ---------- addresses are the declared ones ----------

  // A place at the declared distance from an address.
  predicate At(p: Place, at: nat, s: Option<Span>) {
    if s.Some? then p == Bytes(at + s.value.at, s.value.len) else !p.Bytes?
  }

  lemma NothingFollows(p: Place, steps: seq<Step>, l: Layout, ideal: bool)
    requires !p.View?
    ensures Follow(p, steps, l, ideal) == if steps == [] then p else Nothing
    decreases |steps|
  {
    if steps != [] {
      NothingFollows(Nothing, steps[1..], l, ideal);
    }
  }

  // One load, at the place p it leads to, and the steps after it.
  predicate Leads(p: Place, at: nat, s: Option<Span>, rest: seq<Step>, l: Layout, store: bool) {
    if p.View? then p.at >= at && s == Moved(p.at - at, Declared(p.d, rest, l, store))
    else if rest == [] then !store ==> At(p, at, s)
    else s == None
  }

  lemma AttrLeads(d: Desc, at: nat, name: string, rest: seq<Step>, l: Layout, store: bool)
    requires d.Dict?
    ensures Leads(GetAttr(d, at, name, l, true), at, FieldSpan(Lookup(d.fields, name), rest, l, store), rest, l, store)
  {
    var value := Lookup(d.fields, name);
    if value.Word? { ScalarWidths(value.vt); }
  }

  lemma ScalarLeads(vt: ValType, n: Bits27, at: nat, i: nat, l: Layout)
    requires i < n && !IsBitField(vt)
    ensures GetItem(Tuple(ScalarArray(vt, n)), at, i, l, true) == Bytes(at + Stride(vt, l) * i, WIDTHS[vt])
  {
    ScalarWidths(vt);
    assert Stride(vt, l) == if l.Native? then ScalarSize(vt) else ItemSize(vt);
  }

  lemma ViewLeads(item: Desc, at: nat, size: nat, n: nat, i: nat, rest: seq<Step>, l: Layout, store: bool)
    requires i < n
    ensures var s := ElementSpan(size, n, i, Declared(item, rest, l, store));
      Leads(View(item, at + size * i), at, s, rest, l, store)
  {
  }

  lemma AggLeads(n: Bits27, item: Desc, at: nat, i: nat, rest: seq<Step>, l: Layout, store: bool)
    ensures var a := AggArray(n, item);
      Leads(GetItem(Tuple(a), at, i, l, true), at, ItemSpan(a, i, rest, l, store), rest, l, store)
  {
    if i < n { ViewLeads(item, at, Size(item, l, 0, true).size, n, i, rest, l, store); }
  }

  lemma ItemLeads(d: Desc, at: nat, i: nat, rest: seq<Step>, l: Layout, store: bool)
    requires d.Tuple?
    ensures Leads(GetItem(d, at, i, l, true), at, ItemSpan(d.agg, i, rest, l, store), rest, l, store)
  {
    match d.agg {
      case ScalarArray(vt, n) => if i < n && !IsBitField(vt) { ScalarLeads(vt, n, at, i, l); }
      case AggArray(n, item) => AggLeads(n, item, at, i, rest, l, store);
      case _ =>
    }
  }

  lemma TakeLeads(d: Desc, at: nat, steps: seq<Step>, l: Layout, store: bool)
    requires steps != []
    ensures Leads(Take(View(d, at), steps[0], l, true), at, Declared(d, steps, l, store), steps[1..], l, store)
  {
    match steps[0] {
      case Attr(name) => if d.Dict? { AttrLeads(d, at, name, steps[1..], l, store); }
      case Index(i) => if d.Tuple? { ItemLeads(d, at, i, steps[1..], l, store); }
    }
  }

  lemma {:induction false} FollowDeclared(d: Desc, at: nat, steps: seq<Step>, l: Layout)
    ensures At(Follow(View(d, at), steps, l, true), at, Declared(d, steps, l, false))
    decreases |steps|
  {
    if steps != [] {
      var p := Take(View(d, at), steps[0], l, true);
      TakeLeads(d, at, steps, l, false);
      if p.View? {
        FollowDeclared(p.d, p.at, steps[1..], l);
      } else {
        NothingFollows(p, steps[1..], l, true);
      }
    }
  }

  lemma NothingTargets(p: Place, steps: seq<Step>, l: Layout, ideal: bool)
    requires !p.View?
    ensures Target(p, steps, l, ideal) == Nothing
    decreases |steps|
  {
    if |steps| > 1 {
      NothingTargets(Nothing, steps[1..], l, ideal);
    }
  }

  lemma AssignAttr(d: Desc, at: nat, name: string, l: Layout)
    requires d.Dict?
    ensures At(Assign(View(d, at), Attr(name), l, true), at, FieldSpan(Lookup(d.fields, name), [], l, true))
  {
    var value := Lookup(d.fields, name);
    if value.Word? { ScalarWidths(value.vt); }
  }

  lemma AssignItem(d: Desc, at: nat, i: nat, l: Layout)
    requires d.Tuple?
    ensures At(SetItem(d, at, i, l, true), at, ItemSpan(d.agg, i, [], l, true))
  {
    if d.agg.ScalarArray? && i < d.agg.n && !IsBitField(d.agg.vt) {
      ScalarLeads(d.agg.vt, d.agg.n, at, i, l);
    }
  }

  lemma AssignDeclared(d: Desc, at: nat, step: Step, l: Layout)
    ensures At(Assign(View(d, at), step, l, true), at, Declared(d, [step], l, true))
  {
    assert [step][1..] == [];
    match step {
      case Attr(name) => if d.Dict? { AssignAttr(d, at, name, l); }
      case Index(i) => if d.Tuple? { AssignItem(d, at, i, l); }
    }
  }

  lemma {:induction false} TargetDeclared(d: Desc, at: nat, steps: seq<Step>, l: Layout)
    ensures At(Target(View(d, at), steps, l, true), at, Declared(d, steps, l, true))
    decreases |steps|
  {
    if |steps| == 1 {
      assert steps == [steps[0]];
      AssignDeclared(d, at, steps[0], l);
    } else if steps != [] {
      var p := Take(View(d, at), steps[0], l, true);
      TakeLeads(d, at, steps, l, true);
      if p.View? {
        TargetDeclared(p.d, p.at, steps[1..], l);
      } else {
        NothingTargets(p, steps[1..], l, true);
      }
    }
  }

  // ---------- and so they are in 32 bits ----------

  lemma AssignAlike(p: Place, q: Place, step: Step, bound: nat, l: Layout)
    requires Below(p, bound, l) && bound <= LIMIT && Alike(p, q, l)
    ensures Alike(Assign(p, step, l, true), Assign(q, step, l, false), l)
  {
    TakeAlike(p, q, step, bound, l);
    if p.View? && step.Index? && p.d.Tuple? && p.d.agg.ScalarArray? && step.i < p.d.agg.n {
      ScalarsNotEmpty(p.d.agg.vt, p.d.agg.n);
      assert Size(p.d, l, 0, true).size == ItemSize(p.d.agg.vt) * p.d.agg.n;
      assert p == q;
    }
  }

  lemma {:induction false} TargetAlike(p: Place, q: Place, steps: seq<Step>, bound: nat, l: Layout)
    requires Below(p, bound, l) && bound <= LIMIT && Alike(p, q, l)
    ensures Alike(Target(p, steps, l, true), Target(q, steps, l, false), l)
    decreases |steps|
  {
    if |steps| == 1 {
      AssignAlike(p, q, steps[0], bound, l);
    } else if steps != [] {
      AccessInside(p, [steps[0]], bound, l);
      assert Follow(p, [steps[0]], l, true) == Take(p, steps[0], l, true);
      TakeAlike(p, q, steps[0], bound, l);
      TargetAlike(Take(p, steps[0], l, true), Take(q, steps[0], l, false), steps[1..], bound, l);
    }
  }

  // ---------- what loads read and stores change ----------

  // The structure lies in memory, whose addresses have 32 bits.
  predicate Holds(mem: seq<Byte>, d: Desc, at: nat, l: Layout) {
    at + Size(d, l, 0, true).size <= |mem| <= LIMIT
  }

  function ReadAt(mem: seq<Byte>, at: nat, s: Option<Span>): Option<seq<Byte>> {
    if s.None? then None else Fetch(mem, at + s.value.at, s.value.len)
  }

  // A load reads the bytes that the description declares, and never fails for want of memory.
  lemma LoadReads(mem: seq<Byte>, d: Desc, at: nat, steps: seq<Step>, l: Layout)
    requires Holds(mem, d, at, l)
    ensures var s := Declared(d, steps, l, false); var r := Load(mem, d, at, steps, l);
      r == ReadAt(mem, at, s) && (s.Some? ==> r.Some? && |r.value| == s.value.len)
  {
    FollowDeclared(d, at, steps, l);
    AccessInside(View(d, at), steps, |mem|, l);
    FollowAlike(View(d, at), View(d, at), steps, |mem|, l);
  }

  // Stores that do not go where the index says: to a native array of 64-bit integers, not at 0.
  predicate IgnoresIndex(d: Desc, steps: seq<Step>, l: Layout)
    decreases |steps|
  {
    && steps != []
    && match steps[0]
       case Attr(name) =>
         && d.Dict?
         && var value := Lookup(d.fields, name); value.Sub? && IgnoresIndex(Inner(value.agg), steps[1..], l)
       case Index(i) =>
         && d.Tuple?
         && match d.agg
            case ScalarArray(vt, n) => IsNative64(vt, l) && 0 < i
            case AggArray(_, item) => IgnoresIndex(item, steps[1..], l)
            case _ => false
  }

  // s is where a store goes and t where the load of the same chain reads.
  predicate Matching(s: Option<Span>, t: Option<Span>, off: bool) {
    s.Some? ==>
      && t.Some?
      && s.value.len == t.value.len > 0
      && if off then s.value.at + s.value.len <= t.value.at else s == t
  }

  lemma EightBytes(i: nat)
    requires i > 0
    ensures 8 <= 8 * i
  {
  }

  lemma WordMatches(value: FieldValue, rest: seq<Step>, l: Layout)
    requires !value.Sub?
    ensures Matching(FieldSpan(value, rest, l, true), FieldSpan(value, rest, l, false), false)
  {
    if value.Word? { ScalarWidths(value.vt); }
  }

  lemma SubMatches(value: FieldValue, rest: seq<Step>, l: Layout, off: bool)
    requires value.Sub?
    requires Matching(Declared(Inner(value.agg), rest, l, true), Declared(Inner(value.agg), rest, l, false), off)
    ensures Matching(FieldSpan(value, rest, l, true), FieldSpan(value, rest, l, false), off)
  {
  }

  lemma ItemMatches(n: Bits27, item: Desc, i: nat, rest: seq<Step>, l: Layout, off: bool)
    requires Matching(Declared(item, rest, l, true), Declared(item, rest, l, false), off)
    ensures var a := AggArray(n, item); Matching(ItemSpan(a, i, rest, l, true), ItemSpan(a, i, rest, l, false), off)
  {
  }

  lemma ScalarMatches(vt: ValType, n: Bits27, i: nat, rest: seq<Step>, l: Layout)
    ensures var a := ScalarArray(vt, n);
      Matching(ItemSpan(a, i, rest, l, true), ItemSpan(a, i, rest, l, false), IsNative64(vt, l) && 0 < i)
  {
    ScalarWidths(vt);
    if i > 0 { EightBytes(i); }
  }

  lemma {:induction false} StoreMatches(d: Desc, steps: seq<Step>, l: Layout)
    ensures Matching(Declared(d, steps, l, true), Declared(d, steps, l, false), IgnoresIndex(d, steps, l))
    decreases |steps|
  {
    if steps != [] && steps[0].Attr? && d.Dict? {
      var value := Lookup(d.fields, steps[0].name);
      if value.Sub? {
        StoreMatches(Inner(value.agg), steps[1..], l);
        SubMatches(value, steps[1..], l, IgnoresIndex(Inner(value.agg), steps[1..], l));
      } else {
        WordMatches(value, steps[1..], l);
      }
    } else if steps != [] && steps[0].Index? && d.Tuple? {
      match d.agg {
        case ScalarArray(vt, n) => ScalarMatches(vt, n, steps[0].i, steps[1..], l);
        case AggArray(n, item) =>
          StoreMatches(item, steps[1..], l);
          ItemMatches(n, item, steps[0].i, steps[1..], l, IgnoresIndex(item, steps[1..], l));
        case _ => assert Declared(d, steps, l, true) == None;
      }
    } else {
      assert Declared(d, steps, l, true) == None;
    }
  }

  // The same memory, except for the bytes v at an address.
  predicate Replaced(mem: seq<Byte>, after: seq<Byte>, at: nat, v: seq<Byte>) {
    && at + |v| <= |mem| == |after|
    && after[at..at + |v|] == v
    && after[..at] == mem[..at]
    && after[at + |v|..] == mem[at + |v|..]
  }

  // A store replaces the bytes that the description declares for it, and those alone.
  lemma StoreWrites(mem: seq<Byte>, d: Desc, at: nat, steps: seq<Step>, l: Layout, v: seq<Byte>)
    requires Holds(mem, d, at, l)
    ensures var s := Declared(d, steps, l, true); var r := Store(mem, d, at, steps, l, v);
      && (r.Some? <==> s.Some? && |v| == s.value.len)
      && (r.Some? ==> Replaced(mem, r.value, at + s.value.at, v))
  {
    TargetDeclared(d, at, steps, l);
    TargetAlike(View(d, at), View(d, at), steps, |mem|, l);
    StoreMatches(d, steps, l);
    LoadReads(mem, d, at, steps, l);
  }


  lemma SliceKept(mem: seq<Byte>, after: seq<Byte>, at: nat, v: seq<Byte>, from: nat, len: nat)
    requires Replaced(mem, after, at, v) && from + len <= |mem|
    requires from + len <= at || at + |v| <= from
    ensures mem[from..from + len] == after[from..from + len]
  {
    var k := at + |v|;
    forall j | from <= j < from + len ensures mem[j] == after[j] {
      if from + len <= at {
        assert mem[..at][j] == after[..at][j];
      } else {
        assert mem[k..][j - k] == after[k..][j - k];
      }
    }
  }

  // ---------- what a load finds after a store ----------

  predicate ReadsBack(mem: seq<Byte>, d: Desc, at: nat, steps: seq<Step>, l: Layout, v: seq<Byte>) {
    var r := Store(mem, d, at, steps, l, v);
    r.Some? ==> Load(r.value, d, at, steps, l) == Some(v)
  }

  ghost predicate AlwaysReadsBack(mem: seq<Byte>, d: Desc, at: nat, steps: seq<Step>, l: Layout) {
    forall v: seq<Byte> :: ReadsBack(mem, d, at, steps, l, v)
  }

  lemma StoredReadsBack(mem: seq<Byte>, d: Desc, at: nat, steps: seq<Step>, l: Layout, v: seq<Byte>)
    requires Holds(mem, d, at, l) && !IgnoresIndex(d, steps, l)
    ensures ReadsBack(mem, d, at, steps, l, v)
  {
    StoreMatches(d, steps, l);
    StoreWrites(mem, d, at, steps, l, v);
    var r := Store(mem, d, at, steps, l, v);
    if r.Some? { LoadReads(r.value, d, at, steps, l); }
  }

  lemma MisplacedKept(mem: seq<Byte>, d: Desc, at: nat, steps: seq<Step>, l: Layout, v: seq<Byte>)
    requires Holds(mem, d, at, l) && IgnoresIndex(d, steps, l)
    ensures var r := Store(mem, d, at, steps, l, v);
      r.Some? ==> Load(r.value, d, at, steps, l) == Load(mem, d, at, steps, l)
  {
    var r := Store(mem, d, at, steps, l, v);
    StoreMatches(d, steps, l);
    StoreWrites(mem, d, at, steps, l, v);
    if r.Some? {
      LoadReads(mem, d, at, steps, l);
      LoadReads(r.value, d, at, steps, l);
      var s, t := Declared(d, steps, l, true).value, Declared(d, steps, l, false).value;
      SliceKept(mem, r.value, at + s.at, v, at + t.at, t.len);
    }
  }

  // The bytes of the element read are not those of a value that differs from them.
  lemma MisplacedStore(mem: seq<Byte>, d: Desc, at: nat, steps: seq<Step>, l: Layout) returns (v: seq<Byte>)
    requires Holds(mem, d, at, l) && Declared(d, steps, l, true).Some? && IgnoresIndex(d, steps, l)
    ensures !ReadsBack(mem, d, at, steps, l, v)
  {
    StoreMatches(d, steps, l);
    LoadReads(mem, d, at, steps, l);
    var was := Load(mem, d, at, steps, l).value;
    v := Another(was);
    StoreWrites(mem, d, at, steps, l, v);
    MisplacedKept(mem, d, at, steps, l, v);
  }

  function Another(was: seq<Byte>): (v: seq<Byte>)
    requires was != []
    ensures |v| == |was| && v != was
  {
    var first: Byte := if was[0] == 0 then 1 else 0;
    assert ([first] + was[1..])[0] != was[0];
    [first] + was[1..]
  }

  // The chain that stored a value reads it back, whatever the value, exactly if the store goes
  // where its index says.
  lemma ReadsBackIff(mem: seq<Byte>, d: Desc, at: nat, steps: seq<Step>, l: Layout)
    requires Holds(mem, d, at, l) && Declared(d, steps, l, true).Some?
    ensures AlwaysReadsBack(mem, d, at, steps, l) <==> !IgnoresIndex(d, steps, l)
  {
    if IgnoresIndex(d, steps, l) {
      var v := MisplacedStore(mem, d, at, steps, l);
    } else {
      forall v: seq<Byte> ensures ReadsBack(mem, d, at, steps, l, v) {
        StoredReadsBack(mem, d, at, steps, l, v);
      }
    }
  }

  // Where a field lies in its structure, all of it.
  function Whole(value: FieldValue, l: Layout): Span {
    match value
    case Word(vt, bits) => Span(DeclaredOffset(vt, bits), WIDTHS[vt])
    case Sub(offset, agg) => Span(offset, Extent(agg, l, 0))
    case Other => Span(0, 0)
  }

  predicate Disjoint(s: Span, t: Span) {
    s.at + s.len <= t.at || t.at + t.len <= s.at
  }

  // Two chains that part somewhere: at two fields that do not overlap, or at two elements of
  // an array. Stores to native arrays of 64-bit integers all go to the first element.
  predicate Part(d: Desc, stored: seq<Step>, loaded: seq<Step>, l: Layout)
    decreases |stored|
  {
    && stored != []
    && loaded != []
    && match stored[0]
       case Attr(a) =>
         && d.Dict?
         && loaded[0].Attr?
         && var f, g := Lookup(d.fields, a), Lookup(d.fields, loaded[0].name);
         || Disjoint(Whole(f, l), Whole(g, l))
         || (a == loaded[0].name && f.Sub? && Part(Inner(f.agg), stored[1..], loaded[1..], l))
       case Index(i) =>
         && d.Tuple?
         && loaded[0].Index?
         && match d.agg
            case ScalarArray(vt, _) => loaded[0].i != if IsNative64(vt, l) then 0 else i
            case AggArray(_, item) => i != loaded[0].i || Part(item, stored[1..], loaded[1..], l)
            case _ => false
  }

  predicate InSize(s: Option<Span>, size: nat) {
    s.Some? && s.value.len > 0 ==> s.value.at + s.value.len <= size
  }

  lemma DeclaredInside(d: Desc, steps: seq<Step>, l: Layout, store: bool)
    ensures InSize(Declared(d, steps, l, store), Size(d, l, 0, true).size)
  {
    FollowDeclared(d, 0, steps, l);
    AccessInside(View(d, 0), steps, Size(d, l, 0, true).size, l);
    StoreMatches(d, steps, l);
  }

  // s lies in w.
  predicate InSpan(s: Option<Span>, w: Span) {
    s.Some? && s.value.len > 0 ==> w.at <= s.value.at && s.value.at + s.value.len <= w.at + w.len
  }

  lemma FieldInWhole(value: FieldValue, rest: seq<Step>, l: Layout, store: bool)
    ensures InSpan(FieldSpan(value, rest, l, store), Whole(value, l))
  {
    if value.Sub? {
      var agg := value.agg;
      DeclaredInside(Inner(agg), rest, l, store);
      FirstEnd(Sub(0, agg), l, 0);
      assert Extent(agg, l, 0) == Size(Inner(agg), l, 0, true).size;
    }
  }

  predicate Apart(s: Option<Span>, t: Option<Span>) {
    s.Some? && t.Some? && s.value.len > 0 && t.value.len > 0 ==> Disjoint(s.value, t.value)
  }

  lemma Ordered(item: nat, i: nat, j: nat)
    requires i < j
    ensures item * i + item <= item * j
  {
    ItemEnds(item, i, j);
  }

  lemma ScalarsApart(vt: ValType, n: Bits27, i: nat, j: nat, rest: seq<Step>, rest': seq<Step>, l: Layout)
    requires j != if IsNative64(vt, l) then 0 else i
    ensures var a := ScalarArray(vt, n); Apart(ItemSpan(a, i, rest, l, true), ItemSpan(a, j, rest', l, false))
  {
    ScalarWidths(vt);
    var i' := if IsNative64(vt, l) then 0 else i;
    if i' < j { Ordered(Stride(vt, l), i', j); } else { Ordered(Stride(vt, l), j, i'); }
  }

  lemma Elements(size: nat, i: nat, j: nat)
    requires i != j
    ensures size * i + size <= size * j || size * j + size <= size * i
  {
    if i < j { Ordered(size, i, j); } else { Ordered(size, j, i); }
  }

  lemma ElementsApart(size: nat, n: nat, i: nat, j: nat, s: Option<Span>, t: Option<Span>)
    requires i != j && InSize(s, size) && InSize(t, size)
    ensures Apart(ElementSpan(size, n, i, s), ElementSpan(size, n, j, t))
  {
    Elements(size, i, j);
  }

  lemma ItemsApart(n: Bits27, item: Desc, i: nat, j: nat, rest: seq<Step>, rest': seq<Step>, l: Layout)
    requires i != j
    ensures var a := AggArray(n, item); Apart(ItemSpan(a, i, rest, l, true), ItemSpan(a, j, rest', l, false))
  {
    DeclaredInside(item, rest, l, true);
    DeclaredInside(item, rest', l, false);
    var s, t := Declared(item, rest, l, true), Declared(item, rest', l, false);
    ElementsApart(Size(item, l, 0, true).size, n, i, j, s, t);
  }

  lemma {:induction false} PartsApart(d: Desc, stored: seq<Step>, loaded: seq<Step>, l: Layout)
    requires Part(d, stored, loaded, l)
    ensures Apart(Declared(d, stored, l, true), Declared(d, loaded, l, false))
    decreases |stored|
  {
    match stored[0] {
      case Attr(a) =>
        var f, g := Lookup(d.fields, a), Lookup(d.fields, loaded[0].name);
        if Disjoint(Whole(f, l), Whole(g, l)) {
          FieldInWhole(f, stored[1..], l, true);
          FieldInWhole(g, loaded[1..], l, false);
        } else {
          PartsApart(Inner(f.agg), stored[1..], loaded[1..], l);
        }
      case Index(i) =>
        if d.agg.ScalarArray? {
          ScalarsApart(d.agg.vt, d.agg.n, i, loaded[0].i, stored[1..], loaded[1..], l);
        } else if i != loaded[0].i {
          ItemsApart(d.agg.n, d.agg.d, i, loaded[0].i, stored[1..], loaded[1..], l);
        } else {
          PartsApart(d.agg.d, stored[1..], loaded[1..], l);
        }
    }
  }

  // A store leaves what every chain reads that parts from its own.
  lemma OthersKept(mem: seq<Byte>, d: Desc, at: nat, stored: seq<Step>, loaded: seq<Step>, l: Layout, v: seq<Byte>)
    requires Holds(mem, d, at, l) && Part(d, stored, loaded, l)
    ensures var r := Store(mem, d, at, stored, l, v);
      r.Some? ==> Load(r.value, d, at, loaded, l) == Load(mem, d, at, loaded, l)
  {
    var r := Store(mem, d, at, stored, l, v);
    StoreWrites(mem, d, at, stored, l, v);
    if r.Some? {
      PartsApart(d, stored, loaded, l);
      StoreMatches(d, stored, l);
      LoadReads(mem, d, at, loaded, l);
      LoadReads(r.value, d, at, loaded, l);
      var s, t := Declared(d, stored, l, true).value, Declared(d, loaded, l, false);
      if t.Some? && t.value.len > 0 { SliceKept(mem, r.value, at + s.at, v, at + t.value.at, t.value.len); }
    }
  }
}
