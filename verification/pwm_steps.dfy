// esp8266/esppwm.c, the loops of pwm_start, each proved equal to its step in PwmTable.

module PwmSteps {
  import opened PwmTable

  // Insert puts the entry behind the last slot whose time does not exceed its own.
  lemma {:induction false} InsertAtSlot(s: seq<Entry>, k: nat, e: Entry)
    requires k <= |s| && (k == 0 || s[k - 1].hTime <= e.hTime)
    requires forall i :: k <= i < |s| ==> e.hTime < s[i].hTime
    ensures Insert(s, e) == s[..k] + [e] + s[k..]
    decreases |s|
  {
    if k < |s| {
      var front := s[..|s| - 1];
      InsertAtSlot(front, k, e);
      assert front[..k] == s[..k] && s[k..] == front[k..] + [s[|s| - 1]];
    } else {
      assert s[..k] == s && s[k..] == [];
    }
  }

  lemma InsertStops(s: seq<Entry>, k: nat, e: Entry, r: seq<Entry>)
    requires k <= |s| && (k == 0 || s[k - 1].hTime <= e.hTime)
    requires forall i :: k <= i < |s| ==> e.hTime < s[i].hTime
    requires |r| == |s| + 1 && r[k] == e
    requires forall i :: 0 <= i < k ==> r[i] == s[i]
    requires forall i :: k < i < |r| ==> r[i] == s[i - 1]
    ensures r == Insert(s, e)
  {
    InsertAtSlot(s, k, e);
  }

  // The body of pwm_insert_sort: slot i moves left past every larger time.
  method InsertSlot(a: array<Entry>, i: nat)
    requires 0 < i < a.Length && a[i].hTime < a[i - 1].hTime
    modifies a
    ensures a[..i + 1] == Insert(old(a[..i]), old(a[i]))
    ensures forall k :: i < k < a.Length ==> a[k] == old(a[k])
  {
    ghost var s := a[..i];
    var tmp := a[i];
    a[i] := a[i - 1];
    var j := ShiftLarger(a, i, tmp, s);
    a[j + 1] := tmp;
    InsertStops(s, j + 1, tmp, a[..i + 1]);
  }

  // The inner loop: slots with a larger time than tmp move right.
  method ShiftLarger(a: array<Entry>, i: nat, tmp: Entry, ghost s: seq<Entry>) returns (j: int)
    requires 0 < i < a.Length && s == a[..i] && a[i] == a[i - 1] && tmp.hTime < a[i - 1].hTime
    modifies a
    ensures -1 <= j < i - 1 && (j >= 0 ==> s[j].hTime <= tmp.hTime)
    ensures forall k :: 0 <= k <= j ==> a[k] == s[k]
    ensures forall k :: j < k < i ==> tmp.hTime < s[k].hTime
    ensures forall k :: j + 1 < k <= i ==> a[k] == s[k - 1]
    ensures forall k :: i < k < a.Length ==> a[k] == old(a[k])
  {
    j := i - 1;
    while j >= 0 && tmp.hTime < a[j].hTime
      invariant -1 <= j < i && (j == i - 1 ==> tmp.hTime < a[j].hTime)
      invariant forall k :: 0 <= k <= j ==> a[k] == s[k]
      invariant forall k :: j < k < i ==> tmp.hTime < s[k].hTime
      invariant forall k :: j + 1 < k <= i ==> a[k] == s[k - 1]
      invariant a[i] == s[i - 1]
      invariant forall k :: i < k < a.Length ==> a[k] == old(a[k])
    {
      a[j + 1] := a[j];
      j := j - 1;
    }
  }

  lemma InsertSortStep(s: seq<Entry>, i: nat)
    requires i < |s|
    ensures InsertSort(s[..i + 1]) == Insert(InsertSort(s[..i]), s[i])
  {
    assert s[..i + 1][..i] == s[..i];
  }

  // pwm_insert_sort on the first n slots.
  method InsertionSort(a: array<Entry>, n: nat)
    requires n <= a.Length
    modifies a
    ensures a[..n] == InsertSort(old(a[..n]))
    ensures a[n..] == old(a[n..])
  {
    ghost var s := a[..];
    if n == 0 { return; }
    InsertSortStep(s, 0);
    var i := 1;
    while i < n
      invariant 1 <= i <= n
      invariant a[..i] == InsertSort(s[..i])
      invariant forall k :: i <= k < a.Length ==> a[k] == s[k]
    {
      ghost var s0, e := a[..i], a[i];
      InsertSortStep(s, i);
      if a[i].hTime < a[i - 1].hTime {
        InsertSlot(a, i);
      } else {
        assert a[..i + 1] == s0 + [e] == Insert(s0, e);
      }
      i := i + 1;
    }
  }

  // memcpy loop of step 3: slots i+1 .. cnt-1 move one place left.
  method CloseGap(a: array<Entry>, i: nat, cnt: nat)
    requires i < cnt <= a.Length
    modifies a
    ensures a[..cnt - 1] == old(a[..i] + a[i + 1..cnt])
  {
    ghost var s := a[..cnt];
    var j := i + 1;
    while j < cnt
      invariant i + 1 <= j <= cnt
      invariant forall k :: 0 <= k < i || j <= k < cnt ==> a[k] == s[k]
      invariant forall k :: i <= k < j - 1 ==> a[k] == s[k + 1]
    {
      a[j - 1] := a[j];
      j := j + 1;
    }
  }

  lemma CloseGapMerges(s: seq<Entry>, i: nat, s1: seq<Entry>, r: seq<Entry>)
    requires 0 < i < |s| == |s1| && s[i].hTime == s[i - 1].hTime
    requires s1 == s[i - 1 := Combine(s[i - 1], s[i])]
    requires r == s1[..i] + s1[i + 1..]
    ensures r == MergeAt(s, i)
  {
    assert s1[..i] == s[..i - 1] + [Combine(s[i - 1], s[i])];
    assert s1[i + 1..] == s[i + 1..];
  }

  // Step 3, from the last live slot down: fold equal times and close the gap.
  method MergeSlots(a: array<Entry>, n: nat) returns (cnt: nat)
    requires 0 < n <= a.Length
    modifies a
    ensures 0 < cnt <= n
    ensures a[..cnt] == MergeEqual(old(a[..n]))
  {
    cnt := n;
    var i := n - 1;
    while i > 0
      invariant 0 <= i < cnt <= n
      invariant MergeFrom(a[..cnt], i) == MergeEqual(old(a[..n]))
    {
      ghost var s := a[..cnt];
      if a[i].hTime == a[i - 1].hTime {
        a[i - 1] := Combine(a[i - 1], a[i]);
        ghost var s1 := a[..cnt];
        assert s1[..i] == a[..i] && s1[i + 1..] == a[i + 1..cnt];
        CloseGap(a, i, cnt);
        cnt := cnt - 1;
        CloseGapMerges(s, i, s1, a[..cnt]);
      }
      i := i - 1;
    }
  }

  // Step 4, from the last live slot down.
  method TakeDeltas(a: array<Entry>, cnt: nat)
    requires 0 < cnt <= a.Length
    modifies a
    ensures a[..cnt] == Deltas(old(a[..cnt]))
  {
    ghost var s := a[..cnt];
    var i := cnt - 1;
    while i > 0
      invariant 0 <= i < cnt
      invariant forall k :: 0 <= k <= i ==> a[k] == s[k]
      invariant forall k :: i < k < cnt ==> a[k] == DeltaAt(s, k)
    {
      a[i] := a[i].(hTime := Minus32(a[i].hTime, a[i - 1].hTime));
      i := i - 1;
    }
  }

  // Steps 5 and 6.
  method CleanAndStrip(a: array<Entry>, n: nat) returns (cnt: nat)
    requires 0 < n <= a.Length
    modifies a
    ensures cnt <= n
    ensures a[..cnt] == StripZero(CleanLast(old(a[..n])))
  {
    cnt := n;
    a[n - 1] := a[n - 1].(gpioClear := {});
    ghost var s := a[..n];
    assert s == CleanLast(old(a[..n]));
    if a[0].hTime == 0 {
      a[cnt - 1] := a[cnt - 1].(gpioSet := a[cnt - 1].gpioSet - a[0].gpioClear);
      a[cnt - 1] := a[cnt - 1].(gpioClear := a[cnt - 1].gpioClear + a[0].gpioClear);
      ghost var s' := a[..n];
      assert s' == s[n - 1 := Entry(s[n - 1].gpioSet - s[0].gpioClear, s[n - 1].gpioClear + s[0].gpioClear,
          s[n - 1].hTime)];
      var i := 1;
      while i < cnt
        invariant 1 <= i <= cnt
        invariant forall k :: 0 <= k < i - 1 ==> a[k] == s'[k + 1]
        invariant forall k :: i - 1 <= k < cnt ==> a[k] == s'[k] || k == i - 1
        invariant forall k :: i <= k < cnt ==> a[k] == s'[k]
      {
        a[i - 1] := a[i];
        i := i + 1;
      }
      cnt := cnt - 1;
      assert a[..cnt] == s'[1..];
    }
  }
}
