/** msort_mt_main of src/c7sort.hpp.  The two threads that sort the halves, and the two that
    merge them, write disjoint parts of the arrays; they are run here one after the other. */
module MergeSortMt {
  import opened Order
  import opened Keys
  import Merge
  import ParallelMerge
  import MergeSort

  /** t is sorted within lo..hi-1 and has the keys of d and only elements of d there; it is a
      permutation if exact. */
  ghost predicate Delivered<T(!new)>(lt: (T, T) -> bool, exact: bool, d: seq<T>, t: seq<T>, lo: nat, hi: nat)
    requires lo <= hi <= |d| == |t|
  {
    && Sorted(lt, t, lo, hi)
    && SameKeys(lt, d[lo..hi], t[lo..hi]) && Drawn(d[lo..hi], t[lo..hi])
    && (exact ==> multiset(d[lo..hi]) == multiset(t[lo..hi]))
  }

  lemma DeliveredElsewhere<T(!new)>(lt: (T, T) -> bool, exact: bool, d: seq<T>, t: seq<T>,
                                    d': seq<T>, t': seq<T>, lo: nat, hi: nat, from: nat, to: nat)
    requires lo <= hi <= |d| == |t| && from <= to <= |d|
    requires to <= lo || hi <= from
    requires SameOutside(d, d', from, to) && SameOutside(t, t', from, to)
    requires Delivered(lt, exact, d, t, lo, hi)
    ensures Delivered(lt, exact, d', t', lo, hi)
  {
    assert d[lo..hi] == d'[lo..hi] && t[lo..hi] == t'[lo..hi];
  }

  /** Both halves delivered to s, the exact merge of s delivers the whole to t. */
  lemma ExactMergeDelivers<T(!new)>(lt: (T, T) -> bool, exact: bool, d: seq<T>, s: seq<T>, u: seq<T>, t: seq<T>,
                                    lo: nat, mid: nat, hi: nat)
    requires lo <= mid <= hi <= |d| == |s| == |u| == |t|
    requires Delivered(lt, exact, d, s, lo, mid) && Delivered(lt, exact, d, s, mid, hi)
    requires Merge.SortedInto(lt, s, u, t, lo, hi)
    ensures Delivered(lt, exact, d, t, lo, hi)
  {
    hide Sorted, SameKeys, Drawn;
    assert d[lo..hi] == d[lo..mid] + d[mid..hi] && s[lo..hi] == s[lo..mid] + s[mid..hi];
    ConcatHasSameKeys(lt, d[lo..mid], d[mid..hi], s[lo..mid], s[mid..hi]);
    PermutationHasSameKeys(lt, s[lo..hi], t[lo..hi]);
    SameKeysTransitive(lt, d[lo..hi], s[lo..hi], t[lo..hi]);
    ConcatDrawn(d[lo..mid], d[mid..hi], s[lo..mid], s[mid..hi]);
    PermutationDrawn(s[lo..hi], t[lo..hi]);
    DrawnTransitive(d[lo..hi], s[lo..hi], t[lo..hi]);
  }

  lemma SameKeysTransitive<T(!new)>(lt: (T, T) -> bool, s: seq<T>, t: seq<T>, u: seq<T>)
    requires SameKeys(lt, s, t) && SameKeys(lt, t, u)
    ensures SameKeys(lt, s, u)
  {
  }

  /** What is put in place is sorted there if it is sorted. */
  lemma SortedInPlace<T>(lt: (T, T) -> bool, u: seq<T>, lo: nat, both: seq<T>)
    requires lo + |both| <= |u| && Sorted(lt, both, 0, |both|)
    ensures var t := Merge.Overwrite(u, lo, both);
      t[lo..lo + |both|] == both && Sorted(lt, t, lo, lo + |both|)
  {
    var t := Merge.Overwrite(u, lo, both);
    forall i, j | lo <= i < j < lo + |both|
      ensures Le(lt, t[i], t[j])
    {
      assert t[i] == both[i - lo] && t[j] == both[j - lo];
    }
  }

  /** Both halves delivered as a and b, what has the keys and only elements of these has those
      of the original too. */
  lemma KeysOfBoth<T(!new)>(lt: (T, T) -> bool, d: seq<T>, d': seq<T>, a: seq<T>, b: seq<T>, both: seq<T>)
    requires SameKeys(lt, d, a) && SameKeys(lt, d', b) && Drawn(d, a) && Drawn(d', b)
    requires SameKeys(lt, a + b, both) && Drawn(a + b, both)
    ensures SameKeys(lt, d + d', both) && Drawn(d + d', both)
  {
    hide SameKeys, Drawn;
    ConcatHasSameKeys(lt, d, d', a, b);
    SameKeysTransitive(lt, d + d', a + b, both);
    ConcatDrawn(d, d', a, b);
    DrawnTransitive(d + d', a + b, both);
  }

  /** The same for the parallel merge, which is not exact. */
  lemma ParallelMergeDelivers<T(!new)>(lt: (T, T) -> bool, d: seq<T>, s: seq<T>, u: seq<T>,
                                       lo: nat, mid: nat, hi: nat)
    requires StrictWeakOrder(lt)
    requires lo < mid < hi <= |d| == |s| == |u| && hi - mid - 1 <= mid - lo
    requires Delivered(lt, false, d, s, lo, mid) && Delivered(lt, false, d, s, mid, hi)
    ensures var both := ParallelMerge.BothParts(lt, s[lo..mid], s[mid..hi]);
            |both| == hi - lo && Delivered(lt, false, d, Merge.Overwrite(u, lo, both), lo, hi)
  {
    hide SameKeys, Drawn, StrictWeakOrder, Sorted, ParallelMerge.BothParts, ParallelMerge.LosesTie, Merge.Overwrite;
    var a, b := s[lo..mid], s[mid..hi];
    var both := ParallelMerge.BothParts(lt, a, b);
    Merge.HalfSorted(lt, s, lo, mid);
    Merge.HalfSorted(lt, s, mid, hi);
    ParallelMerge.BothPartsResult(lt, a, b);
    SortedInPlace(lt, u, lo, both);
    KeysOfBoth(lt, d[lo..mid], d[mid..hi], a, b, both);
    assert d[lo..hi] == d[lo..mid] + d[mid..hi];
  }

  method MsortMtMain<T(!new)>(parallelMerge: bool, odd: bool, out: array<T>, inp: array<T>, off: nat, n: nat,
                              level: nat, lt: (T, T) -> bool, threshold: int, mtThreshold: int)
    requires StrictWeakOrder(lt) && threshold >= 2 && mtThreshold >= 2
    requires out != inp && out.Length == inp.Length
    requires off + n <= out.Length && n < 0x8000_0000_0000_0000
    requires odd ==> n >= 1
    modifies out, inp
    ensures Delivered(lt, !parallelMerge, old(if odd then inp[..] else out[..]), out[..], off, off + n)
    ensures SameOutside(old(out[..]), out[..], off, off + n)
    ensures SameOutside(old(inp[..]), inp[..], off, off + n)
    decreases level
  {
    hide StrictWeakOrder, Delivered;
    if level == 0 || n < mtThreshold {
      SortSingle(odd, out, inp, off, n, lt, threshold, parallelMerge);
    } else {
      ghost var d, u := if odd then inp[..] else out[..], out[..];
      var h := n / 2;
      MsortMtMain(parallelMerge, !odd, inp, out, off, h, level - 1, lt, threshold, mtThreshold);
      ghost var s1, d1 := inp[..], if odd then inp[..] else out[..];
      MsortMtMain(parallelMerge, !odd, inp, out, off + h, n - h, level - 1, lt, threshold, mtThreshold);
      DeliveredElsewhere(lt, !parallelMerge, d, s1, d, inp[..], off, off + h, off + h, off + n);
      DeliveredElsewhere(lt, !parallelMerge, d1, inp[..], d, inp[..], off + h, off + n, off, off + h);
      MergeDelivered(parallelMerge, out, inp, off, n, lt, d);
    }
  }

  method SortSingle<T(!new)>(odd: bool, out: array<T>, inp: array<T>, off: nat, n: nat,
                             lt: (T, T) -> bool, threshold: int, ghost parallelMerge: bool)
    requires StrictWeakOrder(lt) && threshold >= 2
    requires out != inp && out.Length == inp.Length
    requires off + n <= out.Length && n < 0x8000_0000_0000_0000
    requires odd ==> n >= 1
    modifies out, inp
    ensures Delivered(lt, !parallelMerge, old(if odd then inp[..] else out[..]), out[..], off, off + n)
    ensures SameOutside(old(out[..]), out[..], off, off + n)
    ensures SameOutside(old(inp[..]), inp[..], off, off + n)
  {
    hide StrictWeakOrder, Sorted, SameKeys, Drawn, SameOutside;
    ghost var d := if odd then inp[..] else out[..];
    ghost var before := if odd then inp[off..off + n] else out[off..off + n];
    assert d[off..off + n] == before;
    var aborted := MergeSort.MsortStMain(odd, out, inp, off, n, lt, threshold);
    assert out[..][off..off + n] == out[off..off + n];
    PermutationHasSameKeys(lt, before, out[off..off + n]);
    PermutationDrawn(before, out[off..off + n]);
  }

  lemma DeliveredSorted<T(!new)>(lt: (T, T) -> bool, exact: bool, d: seq<T>, t: seq<T>, lo: nat, hi: nat)
    requires lo <= hi <= |d| == |t| && Delivered(lt, exact, d, t, lo, hi)
    ensures Sorted(lt, t, lo, hi)
  {
  }

  method MergeDelivered<T(!new)>(parallelMerge: bool, out: array<T>, inp: array<T>, off: nat, n: nat,
                                 lt: (T, T) -> bool, ghost d: seq<T>)
    requires StrictWeakOrder(lt)
    requires out != inp && out.Length == inp.Length == |d| && n >= 2 && off + n <= out.Length
    requires Delivered(lt, !parallelMerge, d, inp[..], off, off + n / 2)
    requires Delivered(lt, !parallelMerge, d, inp[..], off + n / 2, off + n)
    modifies out
    ensures Delivered(lt, !parallelMerge, d, out[..], off, off + n)
    ensures SameOutside(old(out[..]), out[..], off, off + n)
  {
    hide Sorted, SameKeys, Drawn, Delivered, StrictWeakOrder;
    ghost var s, u := inp[..], out[..];
    DeliveredSorted(lt, !parallelMerge, d, s, off, off + n / 2);
    DeliveredSorted(lt, !parallelMerge, d, s, off + n / 2, off + n);
    if parallelMerge {
      MergeBothWays(out, inp, off, n, lt);
      ParallelMergeDelivers(lt, d, s, u, off, off + n / 2, off + n);
    } else {
      Merge.MergeHalves(out, inp, off, n, lt);
      ExactMergeDelivers(lt, true, d, s, u, out[..], off, off + n / 2, off + n);
    }
  }

  /** The two merging threads. */
  method MergeBothWays<T(!new)>(out: array<T>, inp: array<T>, off: nat, n: nat, lt: (T, T) -> bool)
    requires StrictWeakOrder(lt)
    requires out != inp && out.Length == inp.Length && n >= 2 && off + n <= out.Length
    requires Sorted(lt, inp[..], off, off + n / 2) && Sorted(lt, inp[..], off + n / 2, off + n)
    modifies out
    ensures var both := ParallelMerge.BothParts(lt, inp[..][off..off + n / 2], inp[..][off + n / 2..off + n]);
            |both| == n && out[..] == Merge.Overwrite(old(out[..]), off, both)
  {
    hide Merge.StableMerge, Sorted, StrictWeakOrder, Merge.Overwrite;
    ghost var a, b, u := inp[off..off + n / 2], inp[off + n / 2..off + n], out[..];
    assert a == inp[..][off..off + n / 2] && b == inp[..][off + n / 2..off + n];
    ParallelMerge.MergeAsc(out, inp, off, n, lt);
    ParallelMerge.MergeDsc(out, inp, off, n, lt);
    Merge.OverwriteTwice(u, off, Merge.StableMerge(lt, a, b)[..n / 2], ParallelMerge.DscPart(lt, a, b));
  }

  /** msort_mt (parallelMerge) and msort_mt_mv: sorts the n elements of left from off on.  The
      result has the keys of the input and only elements of it; it is a permutation of it if
      one thread merges the halves, or if equivalent elements of the input are equal. */
  method MsortMt<T(!new)>(parallelMerge: bool, work: array<T>, left: array<T>, off: nat, n: nat,
                          lt: (T, T) -> bool, threadDepth: nat, mtThreshold: int, threshold: int)
    requires StrictWeakOrder(lt) && threshold >= 2 && mtThreshold >= 2
    requires left != work && left.Length == work.Length
    requires off + n <= left.Length && n < 0x8000_0000_0000_0000
    modifies left, work
    ensures Sorted(lt, left[..], off, off + n)
    ensures SameKeys(lt, old(left[..])[off..off + n], left[..][off..off + n])
    ensures Drawn(old(left[..])[off..off + n], left[..][off..off + n])
    ensures SameOutside(old(left[..]), left[..], off, off + n)
    ensures !parallelMerge || TiesAreEqual(lt, old(left[..])[off..off + n]) ==>
              multiset(old(left[..])[off..off + n]) == multiset(left[..][off..off + n])
  {
    hide Sorted, SameKeys, Drawn, TiesAreEqual, StrictWeakOrder, SameOutside;
    MsortMtMain(parallelMerge, false, left, work, off, n, threadDepth, lt, threshold, mtThreshold);
    if TiesAreEqual(lt, old(left[..])[off..off + n]) {
      SameKeysArePermutation(lt, old(left[..])[off..off + n], left[..][off..off + n]);
    }
  }
}
