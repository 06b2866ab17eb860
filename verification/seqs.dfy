// What several parts use: facts about sequences and sets, and the output buffers and results
// of the text codecs.

module Seqs {

  lemma Regroup<T>(a: seq<T>, b: seq<T>, c: seq<T>)
    ensures a + (b + c) == a + b + c
  {
  }

  lemma SubsetSize<T>(a: set<T>, b: set<T>)
    requires a <= b
    ensures |a| <= |b| && (a != b ==> |a| < |b|)
  {
    assert b == a + (b - a);
  }
}

module Codec {
  import opened Seqs

  // Bytes, or the exception that is raised.
  datatype Outcome<E> = Ok(bytes: seq<bv8>) | Err(e: E)

  // What is decoded before a point, followed by what is decoded after it.
  function Then<E>(before: seq<bv8>, r: Outcome<E>): Outcome<E> {
    if r.Err? then r else Ok(before + r.bytes)
  }

  lemma ThenThen<E>(a: seq<bv8>, b: seq<bv8>, r: Outcome<E>)
    ensures Then(a, Then(b, r)) == Then(a + b, r)
  {
    if r.Ok? { Regroup(a, b, r.bytes); }
  }

  lemma ThenNothing<E>(r: Outcome<E>)
    ensures Then([], r) == r
  {
    if r.Ok? { assert [] + r.bytes == r.bytes; }
  }

  // *out++ for each of a few bytes.
  method WriteOut(vstr: array<bv8>, start: nat, bytes: seq<bv8>) returns (out: nat)
    requires start + |bytes| <= vstr.Length
    modifies vstr
    ensures out == start + |bytes| && vstr[..out] == old(vstr[..start]) + bytes
  {
    out := start;
    var k := 0;
    while k < |bytes|
      invariant 0 <= k <= |bytes| && out == start + k
      invariant vstr[..out] == old(vstr[..start]) + bytes[..k]
    {
      vstr[out] := bytes[k];
      assert bytes[..k + 1] == bytes[..k] + [bytes[k]];
      out := out + 1;
      k := k + 1;
    }
  }
}
