// extmod/moduheapq.c: heap operations on a Python list.

module HeapQ {
  import opened Seqs
  import opened HeapSift

  // Any strict weak order: irreflexive, transitive, with transitive incomparability.
  ghost predicate WeakOrder<T>(lt: (T, T) -> bool, d: set<T>) {
    && (forall x :: x in d ==> !lt(x, x))
    && (forall x, y, z :: x in d && y in d && z in d && lt(x, y) && lt(y, z) ==> lt(x, z))
    && (forall x, y, z :: x in d && y in d && z in d && lt(x, z) ==> lt(x, y) || lt(y, z))
  }

  // How many items of d lie below x.
  ghost function RankIn<T(!new)>(lt: (T, T) -> bool, d: set<T>): T -> int {
    x => |set y | y in d && lt(y, x)|
  }

  // Counting smaller items explains any strict weak order on finitely many items, so the
  // heap lemmas, which speak of ranks, cover them all.
  lemma CountingRanks<T(!new)>(lt: (T, T) -> bool, d: set<T>)
    requires WeakOrder(lt, d)
    ensures Ranked(lt, RankIn(lt, d), d)
  {
    forall x, y | x in d && y in d ensures lt(x, y) <==> RankIn(lt, d)(x) < RankIn(lt, d)(y) {
      var below, belowY := set z | z in d && lt(z, x), set z | z in d && lt(z, y);
      if lt(x, y) {
        assert x in belowY && x !in below;
        SubsetSize(below, belowY);
      } else {
        forall z | z in belowY ensures z in below {
          assert lt(z, x) || lt(x, y);
        }
        SubsetSize(belowY, below);
      }
    }
  }

  ghost function Items<T>(s: seq<T>): set<T> {
    set x | x in s
  }

  // A heap, stated without ranks: no item is smaller than its parent.
  ghost predicate IsHeap<T>(s: seq<T>, lt: (T, T) -> bool) {
    forall i {:trigger Above(s, i, lt)} :: 0 < i < |s| ==> Above(s, i, lt)
  }

  ghost predicate Above<T>(s: seq<T>, i: nat, lt: (T, T) -> bool)
    requires 0 < i < |s|
  {
    !lt(s[i], s[Parent(i)])
  }

  lemma HeapRank<T>(s: seq<T>, n: nat, lt: (T, T) -> bool, rank: T -> int, d: set<T>)
    requires n <= |s| && Within(s, n, d) && Ranked(lt, rank, d)
    ensures IsHeap(s[..n], lt) <==> HeapFrom(s, 0, n, rank)
  {
    forall i | 0 < i < n ensures Above(s[..n], i, lt) <==> Ordered(s, i, rank) {
    }
    if IsHeap(s[..n], lt) {
      forall i | 0 < i < n ensures Ordered(s, i, rank) { assert Above(s[..n], i, lt); }
    }
    if HeapFrom(s, 0, n, rank) {
      forall i | 0 < i < n ensures Above(s[..n], i, lt) { assert Ordered(s, i, rank); }
    }
  }

  datatype Popped<T> = Item(value: T) | IndexError

  // A Python list: the first len cells of items.
  class List<T(0, !new)> {
    var items: array<T>
    var len: nat

    ghost predicate Valid()
      reads this
    {
      len <= items.Length
    }

    ghost function Contents(): seq<T>
      requires Valid()
      reads this, items
    {
      items[..len]
    }

    constructor (s: seq<T>)
      ensures Valid() && fresh(items) && Contents() == s
    {
      items := new T[|s|](i requires 0 <= i < |s| => s[i]);
      len := |s|;
    }

    // mp_obj_list_append: a full list moves to a larger array.
    method Append(x: T)
      requires Valid()
      modifies this, items
      ensures Valid() && (items == old(items) || fresh(items))
      ensures Contents() == old(Contents()) + [x]
    {
      if len == items.Length {
        var s := items[..];
        items := new T[2 * len + 4](i => if 0 <= i < |s| then s[i] else x);
        assert items[..len] == s;
      }
      items[len] := x;
      len := len + 1;
    }

    method HeapPush(item: T, lt: (T, T) -> bool, ghost d: set<T>)
      requires Valid() && WeakOrder(lt, d) && Items(Contents() + [item]) <= d
      requires IsHeap(Contents(), lt)
      modifies this, items
      ensures Valid() && (items == old(items) || fresh(items))
      ensures IsHeap(Contents(), lt)
      ensures multiset(Contents()) == multiset(old(Contents())) + multiset{item}
    {
      ghost var before := Contents();
      Append(item);
      Settle(lt, before, item, d);
    }

    // The item appended to a heap finds its place.
    method Settle(lt: (T, T) -> bool, ghost before: seq<T>, ghost item: T, ghost d: set<T>)
      requires Valid() && WeakOrder(lt, d) && Items(before + [item]) <= d && IsHeap(before, lt)
      requires Contents() == before + [item]
      modifies items
      ensures IsHeap(Contents(), lt) && multiset(Contents()) == multiset(before) + multiset{item}
    {
      ghost var s := items[..];
      assert len == |before| + 1 && items[len - 1] == Contents()[len - 1] == item;
      SiftDownInPlace(items, 0, len - 1, items[len - 1], lt);
      PushLaw(s, before, item, lt, d);
      assert items[..len] == SiftDown(s, 0, len - 1, item, lt)[..len];
    }

    method HeapPop(lt: (T, T) -> bool, ghost d: set<T>) returns (r: Popped<T>)
      requires Valid() && WeakOrder(lt, d) && Items(Contents()) <= d
      requires IsHeap(Contents(), lt)
      modifies this`len, items
      ensures Valid() && IsHeap(Contents(), lt)
      ensures old(Contents()) == [] ==> r == IndexError && Contents() == []
      ensures old(Contents()) != [] ==>
        && r == Item(old(Contents())[0]) && (forall x :: x in old(Contents()) ==> !lt(x, r.value))
        && multiset(Contents()) == multiset(old(Contents())) - multiset{r.value}
    {
      if len == 0 {
        return IndexError;
      }
      ghost var s := items[..len];
      r := Item(items[0]);
      len := len - 1;
      items[0] := items[len];
      if len != 0 {
        Refill(lt, s, d);
      } else {
        PopLast(s, lt, d);
      }
    }

    // The last item, moved to the root, finds its place.
    method Refill(lt: (T, T) -> bool, ghost s: seq<T>, ghost d: set<T>)
      requires Valid() && WeakOrder(lt, d) && Items(s) <= d && IsHeap(s, lt)
      requires 1 < len + 1 == |s| <= items.Length && items[..len] == [s[len]] + s[1..len]
      modifies items
      ensures IsHeap(Contents(), lt) && multiset(Contents()) == multiset(s) - multiset{s[0]}
      ensures forall x :: x in s ==> !lt(x, s[0])
    {
      ghost var t := items[..];
      SiftUpInPlace(items, 0, len, lt);
      PopLaw(s, t, lt, d);
      assert items[..len] == SiftUp(t, 0, len, lt)[..len];
    }

    method Heapify(lt: (T, T) -> bool, ghost d: set<T>)
      requires Valid() && WeakOrder(lt, d) && Items(Contents()) <= d
      modifies items
      ensures Valid() && IsHeap(Contents(), lt)
      ensures multiset(Contents()) == multiset(old(Contents()))
    {
      ghost var rank := RankIn(lt, d);
      CountingRanks(lt, d);
      ghost var s := items[..];
      assert Within(s, len, d) by { assert forall i :: 0 <= i < len ==> s[i] in Contents(); }
      var i := len / 2;
      while i > 0
        invariant 0 <= i <= len / 2
        invariant HeapFrom(items[..], i, len, rank) && Within(items[..], len, d)
        invariant multiset(items[..len]) == multiset(old(Contents()))
      {
        i := i - 1;
        ghost var t := items[..];
        SiftUpInPlace(items, i, len, lt);
        SiftUpOrders(t, i, len, lt, rank, d);
        SiftUpStays(t, i, len, lt, d);
      }
      HeapRank(items[..], len, lt, rank, d);
      assert items[..][..len] == Contents();
    }
  }

  lemma PushLaw<T(!new)>(s: seq<T>, before: seq<T>, item: T, lt: (T, T) -> bool, d: set<T>)
    requires |s| > |before| && s[..|before| + 1] == before + [item]
    requires WeakOrder(lt, d) && Items(before + [item]) <= d && IsHeap(before, lt)
    ensures var r := SiftDown(s, 0, |before|, item, lt)[..|before| + 1];
      IsHeap(r, lt) && multiset(r) == multiset(before) + multiset{item}
  {
    var n := |before|;
    CountingRanks(lt, d);
    forall i | 0 <= i <= n ensures s[i] in d {
      assert s[i] == (before + [item])[i] && s[i] in Items(before + [item]);
    }
    assert s[..n] == before && s[n] == item;
    RankedPush(s, n, lt, RankIn(lt, d), d);
  }

  lemma RankedPush<T>(s: seq<T>, n: nat, lt: (T, T) -> bool, rank: T -> int, d: set<T>)
    requires n < |s| && Within(s, n + 1, d) && Ranked(lt, rank, d) && IsHeap(s[..n], lt)
    ensures var r := SiftDown(s, 0, n, s[n], lt)[..n + 1];
      IsHeap(r, lt) && multiset(r) == multiset(s[..n]) + multiset{s[n]}
  {
    HeapRank(s, n, lt, rank, d);
    PushOrders(s, n, lt, rank, d);
    HeapRank(SiftDown(s, 0, n, s[n], lt), n + 1, lt, rank, d);
  }

  lemma PopLaw<T(!new)>(s: seq<T>, t: seq<T>, lt: (T, T) -> bool, d: set<T>)
    requires |s| > 1 && |t| >= |s| && t[..|s| - 1] == [s[|s| - 1]] + s[1..|s| - 1]
    requires WeakOrder(lt, d) && Items(s) <= d && IsHeap(s, lt)
    ensures var r := SiftUp(t, 0, |s| - 1, lt)[..|s| - 1];
      && IsHeap(r, lt) && multiset(r) == multiset(s) - multiset{s[0]}
      && forall x :: x in s ==> !lt(x, s[0])
  {
    CountingRanks(lt, d);
    assert Within(s, |s|, d);
    RankedPop(s, t, lt, RankIn(lt, d), d);
  }

  lemma RankedPop<T>(s: seq<T>, t: seq<T>, lt: (T, T) -> bool, rank: T -> int, d: set<T>)
    requires |s| > 1 && |t| >= |s| && t[..|s| - 1] == [s[|s| - 1]] + s[1..|s| - 1]
    requires Within(s, |s|, d) && Ranked(lt, rank, d) && IsHeap(s, lt)
    ensures var r := SiftUp(t, 0, |s| - 1, lt)[..|s| - 1];
      && IsHeap(r, lt) && multiset(r) == multiset(s) - multiset{s[0]}
      && forall x :: x in s ==> !lt(x, s[0])
  {
    var n := |s| - 1;
    assert s[..|s|] == s;
    HeapRank(s, |s|, lt, rank, d);
    LeastFirst(s, lt, rank, d);
    forall i | 0 <= i < n ensures t[i] == if i == 0 then s[n] else s[i] {
      assert t[i] == t[..n][i];
    }
    PopOrders(s, t, n, lt, rank, d);
    HeapRank(SiftUp(t, 0, n, lt), n, lt, rank, d);
  }

  lemma LeastFirst<T>(s: seq<T>, lt: (T, T) -> bool, rank: T -> int, d: set<T>)
    requires s != [] && HeapFrom(s, 0, |s|, rank) && Within(s, |s|, d) && Ranked(lt, rank, d)
    ensures forall x :: x in s ==> !lt(x, s[0])
  {
    forall x | x in s ensures !lt(x, s[0]) {
      var i :| 0 <= i < |s| && s[i] == x;
      RootLeast(s, |s|, i, rank);
    }
  }

  lemma PopLast<T(!new)>(s: seq<T>, lt: (T, T) -> bool, d: set<T>)
    requires |s| == 1 && WeakOrder(lt, d) && Items(s) <= d
    ensures multiset(s) - multiset{s[0]} == multiset{} && forall x :: x in s ==> !lt(x, s[0])
  {
    assert s == [s[0]];
  }

  ghost predicate SortedBy<T>(s: seq<T>, lt: (T, T) -> bool) {
    forall i, j :: 0 <= i < j < |s| ==> !lt(s[j], s[i])
  }

  // heapify, then pop until empty: the list comes out sorted.
  method HeapSort<T(0, !new)>(list: List<T>, lt: (T, T) -> bool, ghost d: set<T>) returns (out: seq<T>)
    requires list.Valid() && WeakOrder(lt, d) && Items(list.Contents()) <= d
    modifies list`len, list.items
    ensures SortedBy(out, lt)
    ensures multiset(out) == multiset(old(list.Contents()))
  {
    out := [];
    ghost var all := list.Contents();
    list.Heapify(lt, d);
    SameItems(list.Contents(), all);
    while list.len > 0
      invariant list.Valid() && list.items == old(list.items)
      invariant IsHeap(list.Contents(), lt) && Items(list.Contents()) <= d
      invariant Draining(out, list.Contents(), all, lt)
      decreases list.len
    {
      ghost var was := list.Contents();
      var r := list.HeapPop(lt, d);
      DrainStep(out, was, list.Contents(), all, r.value, lt);
      out := out + [r.value];
    }
    assert list.Contents() == [];
  }

  // Out is sorted, nothing left is smaller than anything out, and nothing is lost.
  ghost predicate Draining<T>(out: seq<T>, left: seq<T>, all: seq<T>, lt: (T, T) -> bool) {
    && SortedBy(out, lt) && multiset(out) + multiset(left) == multiset(all)
    && forall x, y :: x in out && y in left ==> !lt(y, x)
  }

  lemma DrainStep<T>(out: seq<T>, was: seq<T>, left: seq<T>, all: seq<T>, x: T, lt: (T, T) -> bool)
    requires Draining(out, was, all, lt) && x in was
    requires multiset(left) == multiset(was) - multiset{x} && forall y :: y in was ==> !lt(y, x)
    ensures Draining(out + [x], left, all, lt)
    ensures Items(left) <= Items(was)
  {
    forall y | y in left ensures y in was {
      assert y in multiset(left) && y in multiset(was);
    }
    var r := out + [x];
    forall i, j | 0 <= i < j < |r| ensures !lt(r[j], r[i]) {
      if j == |out| { assert r[i] == out[i] && out[i] in out; }
    }
    assert multiset(r) == multiset(out) + multiset{x};
  }

  lemma SameItems<T>(s: seq<T>, r: seq<T>)
    requires multiset(s) == multiset(r)
    ensures Items(s) == Items(r)
  {
    forall x ensures x in s <==> x in r {
      assert x in s <==> x in multiset(s);
      assert x in r <==> x in multiset(r);
    }
  }
}
