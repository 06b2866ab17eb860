// extmod/moductypes.c: reading and writing a bit field within the integer that holds it.

module UctypesBits {

  // A 32-bit word, bit 0 first, with C's operators.
  type Bits = v: seq<bool> | |v| == 32 witness seq(32, _ => false)

  function Shr(v: Bits, k: nat): (r: Bits)
    ensures forall j :: 0 <= j < 32 ==> r[j] == (j + k < 32 && v[j + k])
  {
    seq(32, j requires 0 <= j < 32 => j + k < 32 && v[j + k])
  }

  function Shl(v: Bits, k: nat): (r: Bits)
    ensures forall j :: 0 <= j < 32 ==> r[j] == (j >= k && v[j - k])
  {
    seq(32, j requires 0 <= j < 32 => j >= k && v[j - k])
  }

  function And(v: Bits, w: Bits): (r: Bits)
    ensures forall j :: 0 <= j < 32 ==> r[j] == (v[j] && w[j])
  {
    seq(32, j requires 0 <= j < 32 => v[j] && w[j])
  }

  function Or(v: Bits, w: Bits): (r: Bits)
    ensures forall j :: 0 <= j < 32 ==> r[j] == (v[j] || w[j])
  {
    seq(32, j requires 0 <= j < 32 => v[j] || w[j])
  }

  function Not(v: Bits): (r: Bits)
    ensures forall j :: 0 <= j < 32 ==> r[j] == !v[j]
  {
    seq(32, j requires 0 <= j < 32 => !v[j])
  }

  // (1 << len) - 1
  function Ones(len: nat): (r: Bits)
    ensures forall j :: 0 <= j < 32 ==> r[j] == (j < len)
  {
    seq(32, j => j < len)
  }

  // val >>= bit_offset; val &= mask
  function GetField(v: Bits, pos: nat, len: nat): Bits {
    And(Shr(v, pos), Ones(len))
  }

  // The mask-and-merge of a store, cut to the 8, 16 or 32 bits that are written.
  function SetField(v: Bits, pos: nat, len: nat, x: Bits, width: nat): Bits {
    And(Or(And(v, Not(Shl(Ones(len), pos))), Shl(And(x, Ones(len)), pos)), Ones(width))
  }

  // A load takes bits pos to pos + len, down to bit 0.
  lemma GetFieldBits(v: Bits, pos: nat, len: nat, k: nat)
    requires k < 32
    ensures GetField(v, pos, len)[k] <==> k < len && pos + k < 32 && v[pos + k]
  {
  }

  // A store puts the low bits of the value there and keeps the others, as far as they are
  // written at all.
  lemma SetFieldBits(v: Bits, pos: nat, len: nat, x: Bits, width: nat, k: nat)
    requires k < 32
    ensures SetField(v, pos, len, x, width)[k] <==> k < width && if pos <= k < pos + len then x[k - pos] else v[k]
  {
  }

  // Writing a field and reading it back gives the value, cut to the field's length, for every
  // value exactly when the field fits the integer.
  lemma FieldRoundTripIff(v: Bits, pos: nat, len: nat, width: nat)
    requires pos < 32 && len < 32 && width <= 32
    ensures (forall x: Bits :: GetField(SetField(v, pos, len, x, width), pos, len) == And(x, Ones(len)))
      <==> (len == 0 || pos + len <= width)
  {
    if len == 0 || pos + len <= width {
      forall x: Bits ensures GetField(SetField(v, pos, len, x, width), pos, len) == And(x, Ones(len)) {
        FieldRoundTrip(v, pos, len, x, width);
      }
    } else {
      var x := Ones(32);
      var j := len - 1;
      assert !GetField(SetField(v, pos, len, x, width), pos, len)[j] && And(x, Ones(len))[j];
    }
  }

  lemma FieldRoundTrip(v: Bits, pos: nat, len: nat, x: Bits, width: nat)
    requires len == 0 || pos + len <= width <= 32
    ensures GetField(SetField(v, pos, len, x, width), pos, len) == And(x, Ones(len))
  {
    var got := GetField(SetField(v, pos, len, x, width), pos, len);
    forall j | 0 <= j < 32 ensures got[j] == And(x, Ones(len))[j] {
      if j < len { assert Ones(width)[j + pos]; }
    }
  }

  // A store changes no bit of a field that does not overlap it.
  lemma OtherFieldsKept(v: Bits, pos: nat, len: nat, x: Bits, width: nat, pos': nat, len': nat)
    requires pos' + len' <= width <= 32 && (pos + len <= pos' || pos' + len' <= pos)
    ensures GetField(SetField(v, pos, len, x, width), pos', len') == GetField(v, pos', len')
  {
  }
}
