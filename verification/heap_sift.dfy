// The sifting loops that extmod/moduheapq.c and extmod/modutimeq.c share: an item moves up
// from a leaf, or the hole moves down to a leaf first. Order is any test lt that some integer
// rank explains on the items in play.

module HeapSift {

  function Parent(i: nat): nat
    requires i > 0
  {
    (i - 1) / 2
  }

  // ---------- the loops on values ----------

  // heap_siftdown: the item at pos moves towards start past larger parents.
  function SiftDown<T>(s: seq<T>, start: nat, pos: nat, item: T, lt: (T, T) -> bool): (r: seq<T>)
    requires pos < |s|
    ensures |r| == |s|
    decreases pos
  {
    if pos > start && lt(item, s[Parent(pos)]) then
      SiftDown(s[pos := s[Parent(pos)]], start, Parent(pos), item, lt)
    else s[pos := item]
  }

  // The child heap_siftup bubbles up: the right one unless the left one is smaller.
  function SmallerChild<T>(s: seq<T>, pos: nat, n: nat, lt: (T, T) -> bool): (c: nat)
    requires 2 * pos + 1 < n <= |s|
    ensures (c == 2 * pos + 1 || c == 2 * pos + 2) && c < n
  {
    if 2 * pos + 2 < n && !lt(s[2 * pos + 1], s[2 * pos + 2]) then 2 * pos + 2 else 2 * pos + 1
  }

  // The first loop of heap_siftup: the hole at pos moves down to a leaf.
  function HoleToLeaf<T>(s: seq<T>, pos: nat, n: nat, lt: (T, T) -> bool): (r: (seq<T>, nat))
    requires pos < n <= |s|
    ensures |r.0| == |s| && pos <= r.1 < n
    decreases n - pos
  {
    if 2 * pos + 1 < n then
      var c := SmallerChild(s, pos, n, lt);
      HoleToLeaf(s[pos := s[c]], c, n, lt)
    else (s, pos)
  }

  // heap_siftup
  function SiftUp<T>(s: seq<T>, pos: nat, n: nat, lt: (T, T) -> bool): (r: seq<T>)
    requires pos < n <= |s|
    ensures |r| == |s|
  {
    var (t, leaf) := HoleToLeaf(s, pos, n, lt);
    SiftDown(t, pos, leaf, s[pos], lt)
  }

  // ---------- the loops in place ----------

  method SiftDownInPlace<T>(a: array<T>, start: nat, last: nat, item: T, lt: (T, T) -> bool)
    requires last < a.Length
    modifies a
    ensures a[..] == SiftDown(old(a[..]), start, last, item, lt)
  {
    var pos := last;
    while pos > start
      invariant 0 <= pos < a.Length
      invariant SiftDown(a[..], start, pos, item, lt) == SiftDown(old(a[..]), start, last, item, lt)
    {
      var parentPos := (pos - 1) / 2;
      var parent := a[parentPos];
      ghost var s := a[..];
      if lt(item, parent) {
        a[pos] := parent;
        assert a[..] == s[pos := s[parentPos]];
        pos := parentPos;
      } else {
        break;
      }
    }
    ghost var s := a[..];
    a[pos] := item;
    assert a[..] == s[pos := item];
  }

  method SiftUpInPlace<T>(a: array<T>, start: nat, n: nat, lt: (T, T) -> bool)
    requires start < n <= a.Length
    modifies a
    ensures a[..] == SiftUp(old(a[..]), start, n, lt)
  {
    var pos := start;
    var item := a[pos];
    var childPos := 2 * pos + 1;
    while childPos < n
      invariant pos < n && childPos == 2 * pos + 1
      invariant HoleToLeaf(a[..], pos, n, lt) == HoleToLeaf(old(a[..]), start, n, lt)
      decreases n - pos
    {
      ghost var s := a[..];
      if childPos + 1 < n {
        var lessThan := lt(a[childPos], a[childPos + 1]);
        if !lessThan {
          childPos := childPos + 1;
        }
      }
      a[pos] := a[childPos];
      assert a[..] == s[pos := s[childPos]];
      pos := childPos;
      childPos := 2 * pos + 1;
    }
    SiftDownInPlace(a, start, pos, item, lt);
  }

  // ---------- order ----------

  // On the items of d, lt is the order of rank.
  ghost predicate Ranked<T>(lt: (T, T) -> bool, rank: T -> int, d: set<T>) {
    forall x, y :: x in d && y in d ==> (lt(x, y) <==> rank(x) < rank(y))
  }

  ghost predicate Within<T>(s: seq<T>, n: nat, d: set<T>) {
    n <= |s| && forall i :: 0 <= i < n ==> s[i] in d
  }

  // Item i is not smaller than its parent.
  ghost predicate Ordered<T>(s: seq<T>, i: nat, rank: T -> int)
    requires 0 < i < |s|
  {
    rank(s[Parent(i)]) <= rank(s[i])
  }

  // Every node from k down, and so for k = 0 the whole heap, is in order with its children.
  ghost predicate HeapFrom<T>(s: seq<T>, k: nat, n: nat, rank: T -> int) {
    n <= |s| && forall i {:trigger Ordered(s, i, rank)} :: 0 < i < n && k <= Parent(i) ==> Ordered(s, i, rank)
  }

  // p is k or below it in the tree.
  predicate Descends(k: nat, p: nat) {
    p == k || (p > k && Descends(k, Parent(p)))
  }

  ghost predicate ChildrenAtLeast<T>(s: seq<T>, p: nat, n: nat, least: int, rank: T -> int)
    requires n <= |s|
  {
    && (2 * p + 1 < n ==> least <= rank(s[2 * p + 1]))
    && (2 * p + 2 < n ==> least <= rank(s[2 * p + 2]))
  }

  // HeapFrom with a hole at p, whose content does not matter; the hole's children are not
  // smaller than its parent.
  ghost predicate HoleFrom<T>(s: seq<T>, k: nat, p: nat, n: nat, rank: T -> int) {
    && p < n <= |s|
    && (forall i {:trigger Ordered(s, i, rank)} :: 0 < i < n && k <= Parent(i) && i != p && Parent(i) != p
         ==> Ordered(s, i, rank))
    && (p > 0 && k <= Parent(p) ==> ChildrenAtLeast(s, p, n, rank(s[Parent(p)]), rank))
  }

  // The hole trades places with its parent.
  lemma HoleUp<T>(s: seq<T>, k: nat, p: nat, n: nat, item: T, rank: T -> int)
    requires p > k && Descends(k, p) && HoleFrom(s, k, p, n, rank) && rank(item) < rank(s[Parent(p)])
    ensures var q := Parent(p);
      && HoleFrom(s[p := s[q]], k, q, n, rank)
      && ChildrenAtLeast(s[p := s[q]], q, n, rank(item), rank)
  {
    var q := Parent(p);
    var t := s[p := s[q]];
    var sibling := if p == 2 * q + 1 then 2 * q + 2 else 2 * q + 1;
    if sibling < n { assert Ordered(s, sibling, rank); }
    if q > 0 && k <= Parent(q) { assert Ordered(s, q, rank); }
    forall i | 0 < i < n && k <= Parent(i) && i != q && Parent(i) != q ensures Ordered(t, i, rank) {
      if Parent(i) != p { assert Ordered(s, i, rank); }
    }
  }

  // A hole whose children are not smaller than the item may take it, or pass it up.
  lemma {:induction false} SiftDownOrders<T>(s: seq<T>, k: nat, p: nat, n: nat, item: T, lt: (T, T) -> bool,
      rank: T -> int, d: set<T>)
    requires Descends(k, p) && HoleFrom(s, k, p, n, rank) && ChildrenAtLeast(s, p, n, rank(item), rank)
    requires Within(s, n, d) && item in d && Ranked(lt, rank, d)
    ensures HeapFrom(SiftDown(s, k, p, item, lt), k, n, rank)
    decreases p
  {
    if p > k && lt(item, s[Parent(p)]) {
      var q := Parent(p);
      var t := s[p := s[q]];
      HoleUp(s, k, p, n, item, rank);
      SiftDownOrders(t, k, q, n, item, lt, rank, d);
    } else {
      var t := s[p := item];
      forall i | 0 < i < n && k <= Parent(i) ensures Ordered(t, i, rank) {
        if i != p && Parent(i) != p { assert Ordered(s, i, rank); }
      }
    }
  }

  // The smaller child moves into the hole.
  lemma HoleDown<T>(s: seq<T>, k: nat, p: nat, c: nat, n: nat, rank: T -> int)
    requires k <= p && HoleFrom(s, k, p, n, rank)
    requires c < n && c > 0 && Parent(c) == p && ChildrenAtLeast(s, p, n, rank(s[c]), rank)
    ensures HoleFrom(s[p := s[c]], k, c, n, rank)
  {
    var t := s[p := s[c]];
    if 2 * c + 1 < n { assert Ordered(s, 2 * c + 1, rank); }
    if 2 * c + 2 < n { assert Ordered(s, 2 * c + 2, rank); }
    forall i | 0 < i < n && k <= Parent(i) && i != c && Parent(i) != c ensures Ordered(t, i, rank) {
      if i != p && Parent(i) != p { assert Ordered(s, i, rank); }
    }
  }

  lemma {:induction false} HoleToLeafKeeps<T>(s: seq<T>, k: nat, p: nat, n: nat, lt: (T, T) -> bool, rank: T -> int,
      d: set<T>)
    requires Descends(k, p) && HoleFrom(s, k, p, n, rank)
    requires Within(s, n, d) && Ranked(lt, rank, d)
    ensures var (t, leaf) := HoleToLeaf(s, p, n, lt);
      && Descends(k, leaf) && HoleFrom(t, k, leaf, n, rank) && Within(t, n, d) && 2 * leaf + 1 >= n
    decreases n - p
  {
    if 2 * p + 1 < n {
      var c := SmallerChild(s, p, n, lt);
      var t := s[p := s[c]];
      HoleDown(s, k, p, c, n, rank);
      HoleToLeafKeeps(t, k, c, n, lt, rank, d);
    }
  }

  // heap_siftup puts node k in order with everything below it.
  lemma SiftUpOrders<T>(s: seq<T>, k: nat, n: nat, lt: (T, T) -> bool, rank: T -> int, d: set<T>)
    requires k < n && HeapFrom(s, k + 1, n, rank)
    requires Within(s, n, d) && Ranked(lt, rank, d)
    ensures HeapFrom(SiftUp(s, k, n, lt), k, n, rank)
  {
    forall i | 0 < i < n && k <= Parent(i) && i != k && Parent(i) != k ensures Ordered(s, i, rank) {
    }
    HoleToLeafKeeps(s, k, k, n, lt, rank, d);
    var (t, leaf) := HoleToLeaf(s, k, n, lt);
    SiftDownOrders(t, k, leaf, n, s[k], lt, rank, d);
  }

  // A new last item moves up to its place.
  lemma SiftDownAppends<T>(s: seq<T>, p: nat, lt: (T, T) -> bool, rank: T -> int, d: set<T>)
    requires p < |s| && HeapFrom(s, 0, p, rank)
    requires Within(s, p + 1, d) && Ranked(lt, rank, d)
    ensures HeapFrom(SiftDown(s, 0, p, s[p], lt), 0, p + 1, rank)
  {
    RootDescends(p);
    SiftDownOrders(s, 0, p, p + 1, s[p], lt, rank, d);
  }

  lemma {:induction false} RootDescends(p: nat)
    ensures Descends(0, p)
  {
    if p > 0 { RootDescends(Parent(p)); }
  }

  // The root of a heap is a least item.
  lemma {:induction false} RootLeast<T>(s: seq<T>, n: nat, i: nat, rank: T -> int)
    requires HeapFrom(s, 0, n, rank) && i < n
    ensures rank(s[0]) <= rank(s[i])
    decreases i
  {
    if i > 0 {
      RootLeast(s, n, Parent(i), rank);
      assert Ordered(s, i, rank);
    }
  }

  // ---------- content ----------

  lemma Swapped<T>(s: seq<T>, i: nat, j: nat, item: T)
    requires i < |s| && j < |s| && i != j
    ensures multiset(s[i := s[j]][j := item]) == multiset(s[i := item])
  {
    var t := s[i := item];
    assert s[i := s[j]][j := item] == t[i := t[j]][j := t[i]];
  }

  lemma {:induction false} SiftDownContent<T>(s: seq<T>, start: nat, pos: nat, item: T, lt: (T, T) -> bool)
    requires pos < |s|
    ensures multiset(SiftDown(s, start, pos, item, lt)) == multiset(s[pos := item])
    ensures forall i :: pos < i < |s| ==> SiftDown(s, start, pos, item, lt)[i] == s[i]
    decreases pos
  {
    if pos > start && lt(item, s[Parent(pos)]) {
      SiftDownContent(s[pos := s[Parent(pos)]], start, Parent(pos), item, lt);
      Swapped(s, pos, Parent(pos), item);
    }
  }

  lemma {:induction false} HoleToLeafContent<T>(s: seq<T>, pos: nat, n: nat, item: T, lt: (T, T) -> bool)
    requires pos < n <= |s|
    ensures var (t, leaf) := HoleToLeaf(s, pos, n, lt);
      && multiset(t[leaf := item]) == multiset(s[pos := item])
      && forall i :: n <= i < |s| ==> t[i] == s[i]
    decreases n - pos
  {
    if 2 * pos + 1 < n {
      var c := SmallerChild(s, pos, n, lt);
      HoleToLeafContent(s[pos := s[c]], c, n, item, lt);
      Swapped(s, pos, c, item);
    }
  }

  // heap_siftup permutes the first n items and leaves the others.
  lemma SiftUpContent<T>(s: seq<T>, pos: nat, n: nat, lt: (T, T) -> bool)
    requires pos < n <= |s|
    ensures multiset(SiftUp(s, pos, n, lt)) == multiset(s)
    ensures forall i :: n <= i < |s| ==> SiftUp(s, pos, n, lt)[i] == s[i]
  {
    HoleToLeafContent(s, pos, n, s[pos], lt);
    var (t, leaf) := HoleToLeaf(s, pos, n, lt);
    SiftDownContent(t, pos, leaf, s[pos], lt);
    assert s[pos := s[pos]] == s;
  }

  lemma SamePrefix<T>(r: seq<T>, s: seq<T>, n: nat)
    requires n <= |r| == |s| && multiset(r) == multiset(s) && r[n..] == s[n..]
    ensures multiset(r[..n]) == multiset(s[..n])
  {
    assert r == r[..n] + r[n..] && s == s[..n] + s[n..];
    var a, b, c := multiset(r[..n]), multiset(s[..n]), multiset(r[n..]);
    assert a + c == b + c;
    assert a == (a + c) - c && b == (b + c) - c;
  }

  lemma PrefixWithin<T>(r: seq<T>, s: seq<T>, n: nat, d: set<T>)
    requires n <= |r| && n <= |s| && multiset(r[..n]) == multiset(s[..n]) && Within(s, n, d)
    ensures Within(r, n, d)
  {
    forall i | 0 <= i < n ensures r[i] in d {
      assert r[..n][i] in multiset(s[..n]);
      var j :| 0 <= j < n && s[..n][j] == r[i];
    }
  }

  // heap_siftup rearranges the first n items among themselves.
  lemma SiftUpStays<T>(s: seq<T>, pos: nat, n: nat, lt: (T, T) -> bool, d: set<T>)
    requires pos < n && Within(s, n, d)
    ensures multiset(SiftUp(s, pos, n, lt)[..n]) == multiset(s[..n])
    ensures Within(SiftUp(s, pos, n, lt), n, d)
  {
    SiftUpContent(s, pos, n, lt);
    SamePrefix(SiftUp(s, pos, n, lt), s, n);
    PrefixWithin(SiftUp(s, pos, n, lt), s, n, d);
  }

  lemma PushContent<T>(s: seq<T>, n: nat, r: seq<T>, d: set<T>)
    requires n < |s| == |r| && Within(s, n + 1, d)
    requires multiset(r) == multiset(s) && forall i :: n < i < |s| ==> r[i] == s[i]
    ensures Within(r, n + 1, d)
    ensures multiset(r[..n + 1]) == multiset(s[..n]) + multiset{s[n]}
  {
    assert r[n + 1..] == s[n + 1..];
    SamePrefix(r, s, n + 1);
    PrefixWithin(r, s, n + 1, d);
    assert s[..n + 1] == s[..n] + [s[n]];
  }

  // A new item at position n moves up to its place among the n before it.
  lemma PushOrders<T>(s: seq<T>, n: nat, lt: (T, T) -> bool, rank: T -> int, d: set<T>)
    requires n < |s| && Within(s, n + 1, d) && Ranked(lt, rank, d) && HeapFrom(s, 0, n, rank)
    ensures var r := SiftDown(s, 0, n, s[n], lt);
      && HeapFrom(r, 0, n + 1, rank) && Within(r, n + 1, d)
      && multiset(r[..n + 1]) == multiset(s[..n]) + multiset{s[n]}
  {
    SiftDownAppends(s, n, lt, rank, d);
    SiftDownContent(s, 0, n, s[n], lt);
    assert s[n := s[n]] == s;
    PushContent(s, n, SiftDown(s, 0, n, s[n], lt), d);
  }

  lemma RootReplaced<T>(s: seq<T>, t: seq<T>, n: nat)
    requires 0 < n < |s| && n <= |t|
    requires t[0] == s[n] && forall i :: 0 < i < n ==> t[i] == s[i]
    ensures multiset(t[..n]) == multiset(s[..n + 1]) - multiset{s[0]}
  {
    var p := s[..n + 1];
    assert p == [s[0]] + p[1..n] + [s[n]] && t[..n] == [s[n]] + p[1..n];
  }

  // With the last of n + 1 items in the root's place, the first n are put in order again.
  lemma PopOrders<T>(s: seq<T>, t: seq<T>, n: nat, lt: (T, T) -> bool, rank: T -> int, d: set<T>)
    requires 0 < n < |s| && n <= |t| && Within(s, n + 1, d) && Ranked(lt, rank, d) && HeapFrom(s, 0, n + 1, rank)
    requires t[0] == s[n] && forall i :: 0 < i < n ==> t[i] == s[i]
    ensures var r := SiftUp(t, 0, n, lt);
      && HeapFrom(r, 0, n, rank) && Within(r, n, d)
      && multiset(r[..n]) == multiset(s[..n + 1]) - multiset{s[0]}
  {
    forall i | 0 < i < n && 1 <= Parent(i) ensures Ordered(t, i, rank) {
      assert Ordered(s, i, rank);
    }
    assert Within(t, n, d);
    SiftUpOrders(t, 0, n, lt, rank, d);
    SiftUpStays(t, 0, n, lt, d);
    RootReplaced(s, t, n);
  }
}
