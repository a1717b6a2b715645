/** qsort_st_main and qsort_mt_main of src/c7sort.hpp: quick sort with a stack of 128 pending
    ranges; when the stack is full both parts go to the heap sort. */
module QuickSort {
  import opened Order
  import InsertionSort
  import HeapSort
  import opened Partition

  const MAX_DEPTH := 128

  /** Elements left..right, both inclusive. */
  datatype Range = Range(left: int, right: int)

  /** The pending ranges, from the top of the stack down, tile from..last, and nothing before a
      pending range exceeds anything in it or after it. */
  ghost predicate Pending<T>(lt: (T, T) -> bool, s: seq<T>, st: seq<Range>, first: int, from: int, last: int)
    requires 0 <= first && last < |s|
  {
    && Cut(lt, s, first, from, last + 1)
    && if st == [] then from == last + 1
       else
         var r := st[|st| - 1];
         && r.left == from <= r.right <= last
         && Pending(lt, s, st[..|st| - 1], first, r.right + 1, last)
  }

  /** Work before the pending ranges leaves them as they are. */
  lemma {:induction false} PendingKept<T>(lt: (T, T) -> bool, s: seq<T>, t: seq<T>, lo: int, hi: int,
                                          st: seq<Range>, first: int, from: int, last: int)
    requires 0 <= first <= lo <= hi <= from <= last + 1 <= |s|
    requires Rearranged(s, t, lo, hi) && Pending(lt, s, st, first, from, last)
    ensures Pending(lt, t, st, first, from, last)
    decreases |st|
  {
    hide Cut, Rearranged;
    CutKept(lt, s, t, lo, hi, first, from, last + 1);
    if st != [] {
      PendingKept(lt, s, t, lo, hi, st[..|st| - 1], first, st[|st| - 1].right + 1, last);
    }
  }

  /** The state at the head of the loop: left..right is the running range. */
  ghost predicate Running<T>(lt: (T, T) -> bool, s: seq<T>, st: seq<Range>,
                             first: int, left: int, right: int, last: int)
  {
    && 0 <= first <= left <= right + 1 <= last + 1 <= |s| && (st != [] ==> left <= right)
    && Sorted(lt, s, first, left) && Cut(lt, s, first, left, last + 1)
    && Pending(lt, s, st, first, right + 1, last)
  }

  /** All up to right is in place; the top of the stack is the next range to run. */
  ghost predicate Settled<T>(lt: (T, T) -> bool, s: seq<T>, st: seq<Range>, first: int, right: int, last: int) {
    && 0 <= first <= right + 1 <= last + 1 <= |s|
    && Sorted(lt, s, first, right + 1)
    && Pending(lt, s, st, first, right + 1, last)
  }

  lemma RangeSettled<T>(lt: (T, T) -> bool, s: seq<T>, t: seq<T>, st: seq<Range>,
                        first: int, left: int, right: int, last: int)
    requires Running(lt, s, st, first, left, right, last)
    requires Rearranged(s, t, left, right + 1) && Sorted(lt, t, left, right + 1)
    ensures Settled(lt, t, st, first, right, last)
  {
    CutKept(lt, s, t, left, right + 1, first, left, last + 1);
    PendingKept(lt, s, t, left, right + 1, st, first, right + 1, last);
  }

  lemma PopRuns<T>(lt: (T, T) -> bool, s: seq<T>, st: seq<Range>, first: int, right: int, last: int)
    requires Settled(lt, s, st, first, right, last) && st != []
    ensures var r := st[|st| - 1];
            r.left == right + 1 <= r.right && Running(lt, s, st[..|st| - 1], first, r.left, r.right, last)
  {
  }

  lemma AllSettled<T>(lt: (T, T) -> bool, s: seq<T>, first: int, right: int, last: int)
    requires Settled(lt, s, [], first, right, last)
    ensures right == last && 0 <= first <= last + 1 <= |s| && Sorted(lt, s, first, last + 1)
  {
  }

  /** Partitioning the running range at p: the right part is pending, the left part runs. */
  lemma PushRuns<T>(lt: (T, T) -> bool, s: seq<T>, t: seq<T>, st: seq<Range>,
                    first: int, left: int, right: int, last: int, p: int)
    requires Running(lt, s, st, first, left, right, last) && left < p <= right
    requires Rearranged(s, t, left, right + 1) && Cut(lt, t, left, p, right + 1)
    ensures Running(lt, t, st + [Range(p, right)], first, left, p - 1, last)
  {
    CutKept(lt, s, t, left, right + 1, first, left, last + 1);
    PendingKept(lt, s, t, left, right + 1, st, first, right + 1, last);
    assert Cut(lt, t, first, p, last + 1);
    hide Cut, Rearranged, Sorted;
    assert (st + [Range(p, right)])[..|st|] == st;
  }

  method QsortStMain<T(!new)>(stdPartition: bool, a: array<T>, first: nat, last: int, lt: (T, T) -> bool,
                              threshold: int)
    requires StrictWeakOrder(lt) && threshold >= 1
    requires first <= last + 1 <= a.Length
    modifies a
    ensures Sorted(lt, a[..], first, last + 1)
    ensures Rearranged(old(a[..]), a[..], first, last + 1)
  {
    hide StrictWeakOrder, Running, Settled, Rearranged;
    var stack := new Range[MAX_DEPTH];
    var stack_idx := 0;
    var left, right := first, last;
    ghost var st: seq<Range> := [];
    ghost var s0 := a[..];
    StartRuns(lt, s0, first, last);
    RearrangedSelf(s0, first, last + 1);
    while true
      invariant 0 <= stack_idx <= stack.Length && stack.Length == MAX_DEPTH && fresh(stack)
      invariant st == stack[..stack_idx]
      invariant first <= left <= right + 1 <= last + 1 && (st != [] ==> left <= right)
      invariant Running(lt, a[..], st, first, left, right, last)
      invariant Rearranged(s0, a[..], first, last + 1)
      decreases last + 1 - left, right + 1 - left
    {
      ghost var s := a[..];
      if right - left < threshold {
        InsertionSort.Dsort(a, left, right, lt);
        RangeSettled(lt, s, a[..], st, first, left, right, last);
        RearrangedWithin(s0, s, a[..], left, right + 1, first, last + 1);
        if stack_idx == 0 {
          break;
        }
        PopRuns(lt, a[..], st, first, right, last);
        stack_idx := stack_idx - 1;
        assert st[..|st| - 1] == stack[..stack_idx] && st[|st| - 1] == stack[stack_idx];
        left, right := stack[stack_idx].left, stack[stack_idx].right;
        st := stack[..stack_idx];
      } else {
        var p := Divide(stdPartition, a, left, right, lt);
        if stack_idx == stack.Length {
          HeapSortBoth(a, left, p, right, lt, s);
          RangeSettled(lt, s, a[..], st, first, left, right, last);
          RearrangedWithin(s0, s, a[..], left, right + 1, first, last + 1);
          PopRuns(lt, a[..], st, first, right, last);
          stack_idx := stack_idx - 1;
          assert st[..|st| - 1] == stack[..stack_idx] && st[|st| - 1] == stack[stack_idx];
          left, right := stack[stack_idx].left, stack[stack_idx].right;
          st := stack[..stack_idx];
        } else {
          PushRuns(lt, s, a[..], st, first, left, right, last, p);
          RearrangedWithin(s0, s, a[..], left, right + 1, first, last + 1);
          stack[stack_idx] := Range(p, right);
          stack_idx := stack_idx + 1;
          st := st + [Range(p, right)];
          assert st == stack[..stack_idx];
          right := p - 1;
        }
      }
    }
    AllSettled(lt, a[..], first, right, last);
  }

  lemma StartRuns<T>(lt: (T, T) -> bool, s: seq<T>, first: int, last: int)
    requires 0 <= first <= last + 1 <= |s|
    ensures Running(lt, s, [], first, first, last, last)
  {
  }

  method Divide<T(!new)>(stdPartition: bool, a: array<T>, left: nat, right: nat, lt: (T, T) -> bool)
    returns (p: nat)
    requires StrictWeakOrder(lt)
    requires left < right < a.Length
    modifies a
    ensures left < p <= right
    ensures Cut(lt, a[..], left, p, right + 1)
    ensures Rearranged(old(a[..]), a[..], left, right + 1)
  {
    if stdPartition {
      p := PartitionCopy(a, left, right, lt);
    } else {
      p := PartitionMove(a, left, right, lt);
    }
  }

  /** What is done when the stack is full: both parts of the range are heap sorted. */
  method HeapSortBoth<T(!new)>(a: array<T>, left: nat, p: nat, right: nat, lt: (T, T) -> bool, ghost s: seq<T>)
    requires StrictWeakOrder(lt)
    requires left < p <= right < a.Length && |s| == a.Length
    requires Cut(lt, a[..], left, p, right + 1) && Rearranged(s, a[..], left, right + 1)
    modifies a
    ensures Sorted(lt, a[..], left, right + 1)
    ensures Rearranged(s, a[..], left, right + 1)
  {
    hide StrictWeakOrder, Rearranged, Cut;
    ghost var s1 := a[..];
    HeapSort.Hsort(a, left, p - left, lt);
    ghost var s2 := a[..];
    CutKept(lt, s1, s2, left, p, left, p, right + 1);
    RearrangedWithin(s, s1, s2, left, p, left, right + 1);
    HeapSort.Hsort(a, p, (right + 1) - p, lt);
    CutKept(lt, s2, a[..], p, right + 1, left, p, right + 1);
    RearrangedWithin(s, s2, a[..], p, right + 1, left, right + 1);
    JoinSorted(lt, s2, a[..], left, p, right + 1);
  }

  /** The two threads of qsort_mt_main sort disjoint ranges; they are run one after the other.
      A part of one element is not sorted at all. */
  method QsortMtMain<T(!new)>(stdPartition: bool, a: array<T>, left: nat, right: int, lt: (T, T) -> bool,
                              threshold: int, mtThreshold: int, level: nat)
    requires StrictWeakOrder(lt) && threshold >= 1 && mtThreshold >= 1
    requires left <= right + 1 <= a.Length
    modifies a
    ensures Sorted(lt, a[..], left, right + 1)
    ensures Rearranged(old(a[..]), a[..], left, right + 1)
    decreases level
  {
    hide StrictWeakOrder, Rearranged, Cut;
    if level == 0 || right - left < mtThreshold {
      QsortStMain(stdPartition, a, left, right, lt, threshold);
    } else {
      ghost var s := a[..];
      var p := Divide(stdPartition, a, left, right, lt);
      ghost var s1 := a[..];
      RearrangedSelf(s1, left, p);
      if left < p - 1 {
        QsortMtMain(stdPartition, a, left, p - 1, lt, threshold, mtThreshold, level - 1);
      }
      ghost var s2 := a[..];
      CutKept(lt, s1, s2, left, p, left, p, right + 1);
      RearrangedWithin(s, s1, s2, left, p, left, right + 1);
      RearrangedSelf(s2, p, right + 1);
      if p < right {
        QsortMtMain(stdPartition, a, p, right, lt, threshold, mtThreshold, level - 1);
      }
      CutKept(lt, s2, a[..], p, right + 1, left, p, right + 1);
      RearrangedWithin(s, s2, a[..], p, right + 1, left, right + 1);
      JoinSorted(lt, s2, a[..], left, p, right + 1);
    }
  }
}
