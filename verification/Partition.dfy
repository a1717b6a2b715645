/** qsort_partition_copy and qsort_partition_move of src/c7sort.hpp: Hoare partitions whose
    scans test no bound. */
module Partition {
  import opened Order

  /** The place of the median of the elements at left + 1, in the middle and at right - 1. */
  function PivotIndex<T>(lt: (T, T) -> bool, s: seq<T>, left: nat, right: nat): (k: nat)
    requires left < right < |s|
  {
    var v0, v1, v2 := left + 1, left + (right - left) / 2, right - 1;
    if lt(s[v0], s[v1]) then
      if lt(s[v1], s[v2]) then v1 else if lt(s[v0], s[v2]) then v2 else v0
    else
      if lt(s[v0], s[v2]) then v0 else if lt(s[v1], s[v2]) then v2 else v1
  }

  /** The pivot is one of the three, and no two of them are both less or both greater. */
  lemma PivotIsMedian<T(!new)>(lt: (T, T) -> bool, s: seq<T>, left: nat, right: nat)
    requires StrictWeakOrder(lt) && left < right < |s|
    ensures var v, k := [left + 1, left + (right - left) / 2, right - 1], PivotIndex(lt, s, left, right);
      && k in v
      && forall i, j :: 0 <= i < j < 3 ==>
           !(lt(s[v[i]], s[k]) && lt(s[v[j]], s[k])) && !(lt(s[k], s[v[i]]) && lt(s[k], s[v[j]]))
  {
    var a, b, c := s[left + 1], s[left + (right - left) / 2], s[right - 1];
    assert OrderLaws(lt, a, b, c) && OrderLaws(lt, a, c, b) && OrderLaws(lt, b, a, c);
    assert OrderLaws(lt, b, c, a) && OrderLaws(lt, c, a, b) && OrderLaws(lt, c, b, a);
    assert OrderLaws(lt, a, b, a) && OrderLaws(lt, a, c, a) && OrderLaws(lt, b, c, b);
  }

  /** Even with two elements the pivot is not the rightmost one, so a scan upwards stops short of it. */
  lemma PivotBeforeRight<T(!new)>(lt: (T, T) -> bool, s: seq<T>, left: nat, right: nat)
    requires StrictWeakOrder(lt) && left < right < |s|
    ensures left <= PivotIndex(lt, s, left, right) < right
  {
    assert OrderLaws(lt, s[left], s[left], s[left]);
  }

  /** Nothing before p exceeds x, and nothing after q is less than x. */
  ghost predicate Parted<T>(lt: (T, T) -> bool, s: seq<T>, left: int, right: int, p: int, q: int, x: T)
    requires 0 <= left && right < |s|
  {
    && left <= p && q <= right
    && (forall i :: left <= i < p <= right + 1 ==> Le(lt, s[i], x))
    && (forall j :: left - 1 <= q < j <= right ==> Le(lt, x, s[j]))
  }

  /** Nothing in lo..c-1 exceeds anything in c..hi-1. */
  ghost predicate Cut<T>(lt: (T, T) -> bool, s: seq<T>, lo: int, c: int, hi: int)
    requires 0 <= lo && hi <= |s|
  {
    forall i, j :: lo <= i < c <= j < hi ==> Le(lt, s[i], s[j])
  }

  /** A rearrangement on one side of a cut keeps the cut. */
  lemma CutKept<T>(lt: (T, T) -> bool, s: seq<T>, t: seq<T>, lo: int, hi: int, first: int, c: int, last: int)
    requires 0 <= first <= lo <= hi <= last <= |s| && (c <= lo || hi <= c)
    requires Rearranged(s, t, lo, hi) && Cut(lt, s, first, c, last)
    ensures Cut(lt, t, first, c, last)
  {
    forall i, j | first <= i < c <= j < last
      ensures Le(lt, t[i], t[j])
    {
      var i', j' := i, j;
      if lo <= i < hi { i' := RearrangedOrigin(s, t, lo, hi, i); }
      if lo <= j < hi { j' := RearrangedOrigin(s, t, lo, hi, j); }
      assert Le(lt, s[i'], s[j']);
    }
  }

  /** A cut inside a range that is itself cut off at both ends is a cut of the whole. */
  lemma CutInside<T>(lt: (T, T) -> bool, s: seq<T>, first: int, left: int, p: int, right: int, last: int)
    requires 0 <= first <= left <= p <= right + 1 <= last + 1 <= |s|
    requires Cut(lt, s, first, left, last + 1) && Cut(lt, s, first, right + 1, last + 1)
    requires Cut(lt, s, left, p, right + 1)
    ensures Cut(lt, s, first, p, last + 1)
  {
  }

  lemma JoinSorted<T>(lt: (T, T) -> bool, s: seq<T>, t: seq<T>, lo: nat, mid: nat, hi: nat)
    requires lo <= mid <= hi <= |s| && Rearranged(s, t, mid, hi)
    requires Sorted(lt, s, lo, mid) && Sorted(lt, t, mid, hi) && Cut(lt, t, lo, mid, hi)
    ensures Sorted(lt, t, lo, hi)
  {
  }

  method Swap<T>(a: array<T>, i: nat, j: nat, ghost lo: nat, ghost hi: nat)
    requires lo <= i < hi <= a.Length && lo <= j < hi
    modifies a
    ensures a[..] == Swapped(old(a[..]), i, j)
    ensures a[i] == old(a[j]) && a[j] == old(a[i])
    ensures forall k :: 0 <= k < a.Length && k != i && k != j ==> a[k] == old(a[k])
    ensures Rearranged(old(a[..]), a[..], lo, hi)
  {
    SwapRearranges(a[..], i, j);
    a[i], a[j] := a[j], a[i];
    assert a[..] == Swapped(old(a[..]), i, j);
  }

  /** while (lessthan(*p, x)) p++; the sentinel stops it. */
  method ScanUp<T(!new)>(a: array<T>, p0: nat, x: T, lt: (T, T) -> bool, ghost sentinel: nat)
    returns (p: nat)
    requires p0 <= sentinel < a.Length && !lt(a[sentinel], x)
    ensures p0 <= p <= sentinel && !lt(a[p], x)
    ensures forall i :: p0 <= i < p ==> lt(a[i], x)
  {
    p := p0;
    while lt(a[p], x)
      invariant p0 <= p <= sentinel
      invariant forall i :: p0 <= i < p ==> lt(a[i], x)
      decreases sentinel - p
    {
      p := p + 1;
    }
  }

  /** while (lessthan(x, *q)) q--; the sentinel stops it. */
  method ScanDown<T(!new)>(a: array<T>, q0: nat, x: T, lt: (T, T) -> bool, ghost sentinel: nat)
    returns (q: nat)
    requires sentinel <= q0 < a.Length && !lt(x, a[sentinel])
    ensures sentinel <= q <= q0 && !lt(x, a[q])
    ensures forall j :: q < j <= q0 ==> lt(x, a[j])
  {
    q := q0;
    while lt(x, a[q])
      invariant sentinel <= q <= q0
      invariant forall j :: q < j <= q0 ==> lt(x, a[j])
      decreases q
    {
      q := q - 1;
    }
  }

  lemma PartedByScans<T(!new)>(lt: (T, T) -> bool, s: seq<T>, left: nat, right: nat,
                               p: int, q: int, p': int, q': int, x: T)
    requires StrictWeakOrder(lt) && right < |s|
    requires Parted(lt, s, left, right, p, q, x)
    requires left <= p <= p' <= right + 1 && left - 1 <= q' <= q <= right
    requires forall i :: p <= i < p' ==> lt(s[i], x)
    requires forall j :: q' < j <= q ==> lt(x, s[j])
    ensures Parted(lt, s, left, right, p', q', x)
  {
    forall i | p <= i < p' { LtImpliesLe(lt, s[i], x); }
    forall j | q' < j <= q { LtImpliesLe(lt, x, s[j]); }
  }

  lemma PartedBySwap<T>(lt: (T, T) -> bool, s: seq<T>, left: nat, right: nat, p: nat, q: nat, x: T)
    requires left <= p <= q <= right < |s| && Parted(lt, s, left, right, p, q, x)
    requires Le(lt, x, s[p]) && Le(lt, s[q], x)
    ensures Parted(lt, Swapped(s, p, q), left, right, p + 1, q - 1, x)
  {
  }

  lemma PartedIsCut<T(!new)>(lt: (T, T) -> bool, s: seq<T>, left: nat, right: nat, p: int, q: int, x: T)
    requires StrictWeakOrder(lt) && right < |s|
    requires Parted(lt, s, left, right, p, q, x) && left - 1 <= q < p <= right + 1
    ensures Cut(lt, s, left, p, right + 1)
  {
    forall i, j | left <= i < p <= j < right + 1
      ensures Le(lt, s[i], s[j])
    {
      LeTransitive(lt, s[i], x, s[j]);
    }
  }

  /** Both scans and, if they have not crossed, the swap.  m is an index from p to q, or next to
      them, whose element stops the scan upwards; l is one for the scan downwards. */
  method ScanAndSwap<T(!new)>(a: array<T>, left: nat, right: nat, p0: nat, q0: nat, x: T, lt: (T, T) -> bool,
                              ghost m: nat, ghost l: nat)
    returns (p: nat, q: int)
    requires StrictWeakOrder(lt)
    requires left <= p0 <= q0 <= right < a.Length
    requires p0 <= m <= right && m <= q0 + 1 && !lt(a[m], x)
    requires left <= l <= q0 && p0 <= l + 1 && !lt(x, a[l])
    requires Parted(lt, a[..], left, right, p0, q0, x)
    modifies a
    ensures Parted(lt, a[..], left, right, p, q, x)
    ensures Rearranged(old(a[..]), a[..], left, right + 1)
    ensures p0 <= p <= m + 1 && p <= q0 + 1 && l - 1 <= q <= q0
    ensures p <= q ==> p0 < p && q < q0
    ensures m == l ==> p0 < p && q < q0
    ensures forall i :: 0 <= i < a.Length && !(p0 <= i <= q0) ==> a[i] == old(a[i])
  {
    p := ScanUp(a, p0, x, lt, m);
    q := ScanDown(a, q0, x, lt, l);
    PartedByScans(lt, a[..], left, right, p0, q0, p, q, x);
    if p <= q {
      PartedBySwap(lt, a[..], left, right, p, q, x);
      Swap(a, p, q, left, right + 1);
      p, q := p + 1, q - 1;
    }
  }

  method PartitionCopy<T(!new)>(a: array<T>, left: nat, right: nat, lt: (T, T) -> bool) returns (p: nat)
    requires StrictWeakOrder(lt)
    requires left < right < a.Length
    modifies a
    ensures left < p <= right
    ensures Cut(lt, a[..], left, p, right + 1)
    ensures Rearranged(old(a[..]), a[..], left, right + 1)
  {
    PivotBeforeRight(lt, a[..], left, right);
    hide StrictWeakOrder, Parted;
    ghost var k := PivotIndex(lt, a[..], left, right);
    var s := a[PivotIndex(lt, a[..], left, right)];
    var q: int;
    PivotEqualsItself(lt, s);
    PartedAtStart(lt, a[..], left, right, s);
    p, q := ScanAndSwap(a, left, right, left, right, s, lt, k, k);
    while p <= q
      invariant left < p <= right && left - 1 <= q < right
      invariant Parted(lt, a[..], left, right, p, q, s)
      invariant Rearranged(old(a[..]), a[..], left, right + 1)
      decreases q - p
    {
      PartedEnds(lt, a[..], left, right, p, q, s);
      p, q := ScanAndSwap(a, left, right, p, q, s, lt, q + 1, p - 1);
    }
    PartedIsCut(lt, a[..], left, right, p, q, s);
  }

  lemma PivotEqualsItself<T(!new)>(lt: (T, T) -> bool, x: T)
    requires StrictWeakOrder(lt)
    ensures !lt(x, x)
  {
    assert OrderLaws(lt, x, x, x);
  }

  lemma PartedAtStart<T>(lt: (T, T) -> bool, s: seq<T>, left: nat, right: nat, x: T)
    requires left < right < |s|
    ensures Parted(lt, s, left, right, left, right, x)
  {
  }

  /** The neighbours of the open range p..q are sentinels for the next scans. */
  lemma PartedEnds<T>(lt: (T, T) -> bool, s: seq<T>, left: nat, right: nat, p: int, q: int, x: T)
    requires right < |s| && Parted(lt, s, left, right, p, q, x) && left < p <= q < right
    ensures !lt(s[q + 1], x) && !lt(x, s[p - 1])
  {
  }

  /** The first turn of qsort_partition_move, which moves the pivot along with the swap of *p
      and *q: afterwards the pivot value is at sp, outside p..q. */
  method FirstSwapWithPivot<T(!new)>(a: array<T>, left: nat, right: nat, mid: nat, lt: (T, T) -> bool)
    returns (p: nat, q: int, sp: nat)
    requires StrictWeakOrder(lt)
    requires left <= mid < right < a.Length
    modifies a
    ensures Rearranged(old(a[..]), a[..], left, right + 1)
    ensures left < p <= right && left - 1 <= q < right
    ensures left <= sp <= right && !(p <= sp <= q)
    ensures Parted(lt, a[..], left, right, p, q, a[sp])
  {
    hide StrictWeakOrder, Parted, Rearranged;
    var x := a[mid];
    PivotEqualsItself(lt, x);
    PartedAtStart(lt, a[..], left, right, x);
    p := ScanUp(a, left, x, lt, mid);
    q := ScanDown(a, right, x, lt, mid);
    PartedByScans(lt, a[..], left, right, left, right, p, q, x);
    sp := SwapPastPivot(a, left, right, p, q, mid, lt);
    p, q := p + 1, q - 1;
  }

  /** Exchanges *p and *q, and tells where the pivot at sp0 is then. */
  method SwapPastPivot<T(!new)>(a: array<T>, left: nat, right: nat, p: nat, q: nat, sp0: nat, lt: (T, T) -> bool)
    returns (sp: nat)
    requires left <= p <= sp0 <= q <= right < a.Length
    requires Parted(lt, a[..], left, right, p, q, a[sp0])
    requires Le(lt, a[sp0], a[p]) && Le(lt, a[q], a[sp0]) && Le(lt, a[sp0], a[sp0])
    modifies a
    ensures Rearranged(old(a[..]), a[..], left, right + 1)
    ensures (sp == p || sp == q) && a[sp] == old(a[sp0])
    ensures Parted(lt, a[..], left, right, p + 1, q - 1, a[sp])
  {
    hide Parted, Rearranged, Swapped;
    ghost var s0, x := a[..], a[sp0];
    sp := sp0;
    RearrangedSelf(s0, left, right + 1);
    if sp == p {
      sp := q;
    } else if sp == q {
      sp := p;
    } else {
      PartedByPivotSwap(lt, a[..], left, right, p, q, sp);
      Swap(a, p, sp, left, right + 1);
      sp := q;
    }
    ghost var s1 := a[..];
    PartedBySwap(lt, s1, left, right, p, q, x);
    Swap(a, p, q, left, right + 1);
    RearrangedTransitive(s0, s1, a[..], left, right + 1);
  }

  /** Exchanging the pivot with a greater or equivalent element at p keeps the outer parts. */
  lemma PartedByPivotSwap<T>(lt: (T, T) -> bool, s: seq<T>, left: nat, right: nat, p: nat, q: nat, sp: nat)
    requires left <= p < sp < q <= right < |s| && Parted(lt, s, left, right, p, q, s[sp])
    ensures Parted(lt, Swapped(s, p, sp), left, right, p, q, s[sp])
  {
  }

  method PartitionMove<T(!new)>(a: array<T>, left: nat, right: nat, lt: (T, T) -> bool) returns (p: nat)
    requires StrictWeakOrder(lt)
    requires left < right < a.Length
    modifies a
    ensures left < p <= right
    ensures Cut(lt, a[..], left, p, right + 1)
    ensures Rearranged(old(a[..]), a[..], left, right + 1)
  {
    PivotBeforeRight(lt, a[..], left, right);
    hide StrictWeakOrder, Parted;
    var sp := PivotIndex(lt, a[..], left, right);
    var v1 := left + (right - left) / 2;
    if sp != v1 {
      Swap(a, sp, v1, left, right + 1);
      sp := v1;
    }
    var q: int;
    p, q, sp := FirstSwapWithPivot(a, left, right, sp, lt);
    ghost var x := a[sp];
    while p <= q
      invariant left < p <= right && left - 1 <= q < right
      invariant left <= sp <= right && !(p <= sp <= q) && a[sp] == x
      invariant Parted(lt, a[..], left, right, p, q, x)
      invariant Rearranged(old(a[..]), a[..], left, right + 1)
      decreases q - p
    {
      PartedEnds(lt, a[..], left, right, p, q, x);
      p, q := ScanAndSwap(a, left, right, p, q, a[sp], lt, q + 1, p - 1);
    }
    PartedIsCut(lt, a[..], left, right, p, q, x);
  }
}
