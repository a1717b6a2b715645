/** msort_st_main of src/c7sort.hpp: the merge sort that drives an explicit stack.
    The data starts in one of two arrays.  An operation with parity 0 leaves its sorted
    segment in that data array, an operation with parity 1 in the other one. */
module MergeSort {
  import opened Order
  import opened Powers
  import InsertionSort
  import Merge

  datatype Op = Sort | Merge

  datatype Frame<T> = Frame(op: Op, odd: bool, out: array<T>, inp: array<T>, off: nat, n: nat)

  /** The segment an operation has to deliver. */
  datatype Segment = Segment(odd: bool, off: nat, n: nat)

  /** The two arrays, and what they hold now; data0 is what data held at the start. */
  datatype Memory<T> = Memory(data: array<T>, work: array<T>, data0: seq<T>, d: seq<T>, w: seq<T>)
  {
    ghost predicate Valid() {
      |data0| == |d| == |w|
    }

    /** What the array that an operation of this parity delivers into holds. */
    ghost function At(odd: bool): seq<T> {
      if odd then w else d
    }

    ghost function Out(odd: bool): array<T> {
      if odd then work else data
    }
  }

  const MAX_DEPTH := 64

  /** A segment met after halving a size below 2^63 `level` times. */
  ghost predicate Fits(seg: Segment, level: nat) {
    && level <= MAX_DEPTH
    && seg.n <= Pow2(if level == MAX_DEPTH then 0 else 63 - level)
    && (level == MAX_DEPTH ==> !seg.odd)
    && (seg.odd ==> seg.n >= 1)
  }

  ghost function Seg<T>(f: Frame<T>): Segment {
    Segment(f.odd, f.off, f.n)
  }

  ghost function LeftHalf(seg: Segment): Segment {
    Segment(!seg.odd, seg.off, seg.n / 2)
  }

  ghost function RightHalf(seg: Segment): Segment {
    Segment(!seg.odd, seg.off + seg.n / 2, seg.n - seg.n / 2)
  }

  /** The elements of the segment have not been touched yet. */
  ghost predicate Raw<T>(mem: Memory<T>, seg: Segment)
    requires mem.Valid() && seg.off + seg.n <= |mem.d|
  {
    forall i :: seg.off <= i < seg.off + seg.n ==> mem.d[i] == mem.data0[i]
  }

  /** The segment is delivered: sorted, and a permutation of what it was at the start. */
  ghost predicate Done<T>(lt: (T, T) -> bool, mem: Memory<T>, seg: Segment)
    requires mem.Valid() && seg.off + seg.n <= |mem.d|
  {
    var s := mem.At(seg.odd);
    var hi := seg.off + seg.n;
    Sorted(lt, s, seg.off, hi) && multiset(s[seg.off..hi]) == multiset(mem.data0[seg.off..hi])
  }

  ghost predicate Placed<T>(mem: Memory<T>, f: Frame<T>) {
    f.out == mem.Out(f.odd) && f.inp == mem.Out(!f.odd)
  }

  /** Delivering seg, at depth level, is what the operations on the stack st wait for in
      order to deliver root. */
  ghost predicate Waiting<T>(lt: (T, T) -> bool, mem: Memory<T>, st: seq<Frame<T>>,
                             root: Segment, seg: Segment, level: nat)
    requires mem.Valid()
  {
    && Fits(seg, level) && |st| <= 2 * level && seg.off + seg.n <= |mem.d|
    && root.off <= seg.off && seg.off + seg.n <= root.off + root.n
    && if st == [] then seg == root
       else
         level > 0 &&
         var f := st[|st| - 1];
         Placed(mem, f) &&
         if f.op == Merge then
           && f.n >= 1 && seg == RightHalf(Seg(f))
           && Done(lt, mem, LeftHalf(Seg(f)))
           && Waiting(lt, mem, st[..|st| - 1], root, Seg(f), level - 1)
         else
           |st| >= 2 &&
           var m := st[|st| - 2];
           && Placed(mem, m) && m.op == Merge && m.n >= 1 && m.off + m.n <= |mem.d|
           && seg == LeftHalf(Seg(m)) && Seg(f) == RightHalf(Seg(m))
           && Fits(Seg(f), level) && Raw(mem, Seg(f))
           && Waiting(lt, mem, st[..|st| - 2], root, Seg(m), level - 1)
  }

  /** The operation can be run: a Sort on untouched elements, a Merge on two delivered halves. */
  ghost predicate Ready<T>(lt: (T, T) -> bool, mem: Memory<T>, op: Op, seg: Segment)
    requires mem.Valid() && seg.off + seg.n <= |mem.d|
  {
    if op == Sort then Raw(mem, seg)
    else seg.n >= 1 && Done(lt, mem, LeftHalf(seg)) && Done(lt, mem, RightHalf(seg))
  }

  /** The state at the head of the loop. */
  ghost predicate Running<T>(lt: (T, T) -> bool, mem: Memory<T>, st: seq<Frame<T>>,
                             root: Segment, f: Frame<T>, level: nat)
  {
    && mem.Valid() && Placed(mem, f) && f.off + f.n <= |mem.d|
    && Waiting(lt, mem, st, root, Seg(f), level)
    && Ready(lt, mem, f.op, Seg(f))
  }

  /** The two arrays changed at most within the segment. */
  ghost predicate ChangedWithin<T>(mem: Memory<T>, mem': Memory<T>, seg: Segment) {
    && mem' == mem.(d := mem'.d, w := mem'.w)
    && SameOutside(mem.d, mem'.d, seg.off, seg.off + seg.n)
    && SameOutside(mem.w, mem'.w, seg.off, seg.off + seg.n)
  }

  /** What an operation delivers into does not change elsewhere. */
  lemma SameElsewhere<T>(mem: Memory<T>, mem': Memory<T>, seg: Segment, odd: bool, lo: nat, hi: nat)
    requires mem.Valid() && ChangedWithin(mem, mem', seg) && lo <= hi <= |mem.d|
    requires hi <= seg.off || seg.off + seg.n <= lo
    ensures mem'.Valid() && mem'.data0 == mem.data0 && |mem'.At(odd)| == |mem.At(odd)| == |mem.data0|
    ensures forall i :: lo <= i < hi ==> mem.At(odd)[i] == mem'.At(odd)[i]
  {
  }

  lemma DoneElsewhere<T>(lt: (T, T) -> bool, mem: Memory<T>, mem': Memory<T>, seg: Segment, other: Segment)
    requires mem.Valid() && ChangedWithin(mem, mem', seg) && other.off + other.n <= |mem.d|
    requires other.off + other.n <= seg.off || seg.off + seg.n <= other.off
    requires Done(lt, mem, other)
    ensures mem'.Valid() && |mem'.d| == |mem.d| && Done(lt, mem', other)
  {
    hide Sorted, ChangedWithin;
    var lo, hi := other.off, other.off + other.n;
    SameElsewhere(mem, mem', seg, other.odd, lo, hi);
    SameSegment(lt, mem.At(other.odd), mem'.At(other.odd), lo, hi);
  }

  lemma RawElsewhere<T>(mem: Memory<T>, mem': Memory<T>, seg: Segment, other: Segment)
    requires mem.Valid() && ChangedWithin(mem, mem', seg) && other.off + other.n <= |mem.d|
    requires other.off + other.n <= seg.off || seg.off + seg.n <= other.off
    requires Raw(mem, other)
    ensures mem'.Valid() && |mem'.d| == |mem.d| && Raw(mem', other)
  {
    hide ChangedWithin;
    SameElsewhere(mem, mem', seg, false, other.off, other.off + other.n);
  }

  /** What is changed within a segment is changed within a larger one, and no array is
      exchanged. */
  lemma ChangedWithinLarger<T>(mem: Memory<T>, mem': Memory<T>, seg: Segment, larger: Segment)
    requires mem.Valid() && ChangedWithin(mem, mem', seg)
    requires larger.off <= seg.off && seg.off + seg.n <= larger.off + larger.n
    ensures ChangedWithin(mem, mem', larger)
    ensures mem'.Valid() && |mem'.d| == |mem.d| && forall f :: Placed(mem, f) ==> Placed(mem', f)
  {
  }

  /** Work on the segment does not disturb the operations that wait for it. */
  lemma {:induction false} WaitingUndisturbed<T>(lt: (T, T) -> bool, mem: Memory<T>, mem': Memory<T>,
                                                 st: seq<Frame<T>>, root: Segment, seg: Segment, level: nat)
    requires mem.Valid() && Waiting(lt, mem, st, root, seg, level)
    requires ChangedWithin(mem, mem', seg)
    ensures mem'.Valid() && Waiting(lt, mem', st, root, seg, level)
    decreases |st|
  {
    hide Done, Fits, Raw, Placed, ChangedWithin, Memory.Valid;
    ChangedWithinLarger(mem, mem', seg, seg);
    if st != [] {
      var f := st[|st| - 1];
      if f.op == Merge {
        DoneElsewhere(lt, mem, mem', seg, LeftHalf(Seg(f)));
        ChangedWithinLarger(mem, mem', seg, Seg(f));
        WaitingUndisturbed(lt, mem, mem', st[..|st| - 1], root, Seg(f), level - 1);
      } else {
        RawElsewhere(mem, mem', seg, Seg(f));
        ChangedWithinLarger(mem, mem', seg, Seg(st[|st| - 2]));
        WaitingUndisturbed(lt, mem, mem', st[..|st| - 2], root, Seg(st[|st| - 2]), level - 1);
      }
    }
  }

  /** Once the running operation has delivered its segment, the top of the stack can run. */
  lemma PopIsReady<T>(lt: (T, T) -> bool, mem: Memory<T>, st: seq<Frame<T>>,
                      root: Segment, seg: Segment, level: nat)
    returns (level': nat)
    requires mem.Valid() && st != [] && Waiting(lt, mem, st, root, seg, level)
    requires Done(lt, mem, seg)
    ensures Running(lt, mem, st[..|st| - 1], root, st[|st| - 1], level')
  {
    hide Fits;
    var f := st[|st| - 1];
    var rest := st[..|st| - 1];
    if f.op == Merge {
      level' := level - 1;
    } else {
      level' := level;
      assert rest[|rest| - 1] == st[|st| - 2] && rest[..|rest| - 1] == st[..|st| - 2];
    }
  }

  /** Halving a segment that is no leaf: the stack has room, and the left half can run. */
  lemma PushIsReady<T>(lt: (T, T) -> bool, mem: Memory<T>, st: seq<Frame<T>>, root: Segment,
                       f: Frame<T>, level: nat)
    requires Running(lt, mem, st, root, f, level) && f.op == Sort
    requires f.odd || f.n >= 2
    ensures |st| + 2 <= 2 * MAX_DEPTH
    ensures var m := f.(op := Merge);
            var r := Frame(Sort, !f.odd, f.inp, f.out, f.off + f.n / 2, f.n - f.n / 2);
            var l := Frame(Sort, !f.odd, f.inp, f.out, f.off, f.n / 2);
            Running(lt, mem, st + [m, r], root, l, level + 1)
  {
    var m := f.(op := Merge);
    var r := Frame(Sort, !f.odd, f.inp, f.out, f.off + f.n / 2, f.n - f.n / 2);
    var st' := st + [m, r];
    assert st'[|st'| - 1] == r && st'[|st'| - 2] == m && st'[..|st'| - 2] == st;
  }

  ghost function Now<T>(data: array<T>, work: array<T>, data0: seq<T>): Memory<T>
    reads data, work
  {
    Memory(data, work, data0, data[..], work[..])
  }

  /** A bound on the turns of the loop that an operation costs. */
  function Weight<T>(f: Frame<T>): nat {
    if f.op == Merge || f.n == 0 then 1 else 9 * f.n - 8 + if f.odd then 3 else 0
  }

  function StackWeight<T>(st: seq<Frame<T>>): nat {
    if st == [] then 0 else StackWeight(st[..|st| - 1]) + Weight(st[|st| - 1])
  }

  lemma PushWeight<T>(st: seq<Frame<T>>, f: Frame<T>)
    requires f.op == Sort && (f.odd || f.n >= 2) && f.n >= 1
    ensures var m := f.(op := Merge);
            var r := Frame(Sort, !f.odd, f.inp, f.out, f.off + f.n / 2, f.n - f.n / 2);
            var l := Frame(Sort, !f.odd, f.inp, f.out, f.off, f.n / 2);
            StackWeight(st + [m, r]) + Weight(l) < StackWeight(st) + Weight(f)
  {
    var m := f.(op := Merge);
    var r := Frame(Sort, !f.odd, f.inp, f.out, f.off + f.n / 2, f.n - f.n / 2);
    assert (st + [m, r])[..|st| + 1] == st + [m];
    assert (st + [m])[..|st|] == st;
  }

  /** The OP_SORT branch at a leaf. */
  method DeliverLeaf<T(!new)>(f: Frame<T>, lt: (T, T) -> bool,
                              ghost mem: Memory<T>, ghost st: seq<Frame<T>>, ghost root: Segment, ghost level: nat)
    requires StrictWeakOrder(lt) && mem.data != mem.work
    requires mem == Now(mem.data, mem.work, mem.data0)
    requires Running(lt, mem, st, root, f, level) && f.op == Sort && !f.odd
    modifies mem.data
    ensures var mem' := Now(mem.data, mem.work, mem.data0);
            && mem'.Valid() && ChangedWithin(mem, mem', Seg(f))
            && Done(lt, mem', Seg(f)) && Waiting(lt, mem', st, root, Seg(f), level)
  {
    hide Waiting, Ready, Done;
    InsertionSort.Dsort(f.out, f.off, f.off + f.n - 1, lt);
    ghost var mem' := Now(mem.data, mem.work, mem.data0);
    SortedRawIsDone(lt, mem, mem', Seg(f));
    WaitingUndisturbed(lt, mem, mem', st, root, Seg(f), level);
  }

  lemma SortedRawIsDone<T>(lt: (T, T) -> bool, mem: Memory<T>, mem': Memory<T>, seg: Segment)
    requires mem.Valid() && !seg.odd && seg.off + seg.n <= |mem.d|
    requires Ready(lt, mem, Sort, seg) && mem' == mem.(d := mem'.d)
    requires Rearranged(mem.d, mem'.d, seg.off, seg.off + seg.n)
    requires Sorted(lt, mem'.d, seg.off, seg.off + seg.n)
    ensures ChangedWithin(mem, mem', seg) && Done(lt, mem', seg)
  {
    RearrangedSegment(mem.d, mem'.d, seg.off, seg.off + seg.n);
    assert mem.d[seg.off..seg.off + seg.n] == mem.data0[seg.off..seg.off + seg.n];
  }

  /** The OP_MERGE branch. */
  method DeliverMerge<T(!new)>(f: Frame<T>, lt: (T, T) -> bool,
                               ghost mem: Memory<T>, ghost st: seq<Frame<T>>, ghost root: Segment, ghost level: nat)
    requires StrictWeakOrder(lt) && mem.data != mem.work
    requires mem == Now(mem.data, mem.work, mem.data0)
    requires Running(lt, mem, st, root, f, level) && f.op == Merge
    modifies f.out
    ensures var mem' := Now(mem.data, mem.work, mem.data0);
            && mem'.Valid() && ChangedWithin(mem, mem', Seg(f))
            && Done(lt, mem', Seg(f)) && Waiting(lt, mem', st, root, Seg(f), level)
  {
    hide Waiting, Ready, Done, ChangedWithin, Memory.Valid;
    MergeSegment(f, lt, mem);
    WaitingUndisturbed(lt, mem, Now(mem.data, mem.work, mem.data0), st, root, Seg(f), level);
  }

  method MergeSegment<T(!new)>(f: Frame<T>, lt: (T, T) -> bool, ghost mem: Memory<T>)
    requires StrictWeakOrder(lt) && mem.data != mem.work && mem.Valid()
    requires mem == Now(mem.data, mem.work, mem.data0)
    requires Placed(mem, f) && f.off + f.n <= |mem.d| && Ready(lt, mem, Merge, Seg(f))
    modifies f.out
    ensures var mem' := Now(mem.data, mem.work, mem.data0);
            mem'.Valid() && ChangedWithin(mem, mem', Seg(f)) && Done(lt, mem', Seg(f))
  {
    hide Ready, Done, Sorted, ChangedWithin, StrictWeakOrder, Merge.SortedInto;
    HalvesDelivered(lt, mem, Seg(f));
    ghost var s, u := mem.At(!f.odd), mem.At(f.odd);
    MergeFrame(f, lt, s, u);
    assert Now(mem.data, mem.work, mem.data0) == if f.odd then mem.(w := f.out[..]) else mem.(d := f.out[..]);
    MergedIsDone(lt, mem, Seg(f), s, u, f.out[..], f.off, f.off + f.n);
  }

  method MergeFrame<T(!new)>(f: Frame<T>, lt: (T, T) -> bool, ghost s: seq<T>, ghost u: seq<T>)
    requires StrictWeakOrder(lt) && f.out != f.inp && f.inp[..] == s && f.out[..] == u
    requires 1 <= f.n && f.off + f.n <= |s| == |u|
    requires Sorted(lt, s, f.off, f.off + f.n / 2) && Sorted(lt, s, f.off + f.n / 2, f.off + f.n)
    modifies f.out
    ensures Merge.SortedInto(lt, s, u, f.out[..], f.off, f.off + f.n)
  {
    hide Sorted, StrictWeakOrder, Merge.StableMerge, Merge.Overwrite, Merge.SortedInto;
    Merge.MergeHalves(f.out, f.inp, f.off, f.n, lt);
  }

  lemma DoneMeans<T>(lt: (T, T) -> bool, mem: Memory<T>, seg: Segment, lo: nat, hi: nat)
    requires mem.Valid() && lo == seg.off && hi == seg.off + seg.n <= |mem.d| && Done(lt, mem, seg)
    ensures Sorted(lt, mem.At(seg.odd), lo, hi)
    ensures multiset(mem.At(seg.odd)[lo..hi]) == multiset(mem.data0[lo..hi])
  {
  }

  lemma HalvesDelivered<T>(lt: (T, T) -> bool, mem: Memory<T>, seg: Segment)
    requires mem.Valid() && seg.off + seg.n <= |mem.d| && Ready(lt, mem, Merge, seg)
    ensures seg.n >= 1
    ensures Sorted(lt, mem.At(!seg.odd), seg.off, seg.off + seg.n / 2)
    ensures Sorted(lt, mem.At(!seg.odd), seg.off + seg.n / 2, seg.off + seg.n)
    ensures multiset(mem.At(!seg.odd)[seg.off..seg.off + seg.n])
         == multiset(mem.data0[seg.off..seg.off + seg.n])
  {
    hide Sorted, Done;
    var s, lo, mid, hi := mem.At(!seg.odd), seg.off, seg.off + seg.n / 2, seg.off + seg.n;
    DoneMeans(lt, mem, LeftHalf(seg), lo, mid);
    DoneMeans(lt, mem, RightHalf(seg), mid, hi);
    assert s[lo..hi] == s[lo..mid] + s[mid..hi];
    assert mem.data0[lo..hi] == mem.data0[lo..mid] + mem.data0[mid..hi];
  }

  lemma MergedIsDone<T>(lt: (T, T) -> bool, mem: Memory<T>, seg: Segment,
                        s: seq<T>, u: seq<T>, t: seq<T>, lo: nat, hi: nat)
    requires mem.Valid() && lo == seg.off && hi == seg.off + seg.n <= |mem.d|
    requires s == mem.At(!seg.odd) && u == mem.At(seg.odd)
    requires multiset(s[lo..hi]) == multiset(mem.data0[lo..hi]) && Merge.SortedInto(lt, s, u, t, lo, hi)
    ensures var mem' := if seg.odd then mem.(w := t) else mem.(d := t);
            mem'.Valid() && ChangedWithin(mem, mem', seg) && Done(lt, mem', seg)
  {
    hide Sorted, SameOutside;
    SameLength(u, t, lo, hi);
    SameOutsideSelf(s, lo, hi);
  }

  lemma SameLength<T>(s: seq<T>, t: seq<T>, lo: int, hi: int)
    requires SameOutside(s, t, lo, hi)
    ensures |s| == |t|
  {
  }

  lemma SameOutsideSelf<T>(s: seq<T>, lo: int, hi: int)
    ensures SameOutside(s, s, lo, hi)
  {
  }

  lemma PopWeight<T>(st: seq<Frame<T>>, f: Frame<T>)
    requires st != []
    ensures StackWeight(st[..|st| - 1]) + Weight(st[|st| - 1]) < StackWeight(st) + Weight(f)
  {
  }

  /** The turns of the loop that run an operation: a leaf of the recursion, or a merge. */
  method Deliver<T(!new)>(f: Frame<T>, lt: (T, T) -> bool, ghost mem0: Memory<T>,
                          ghost mem: Memory<T>, ghost st: seq<Frame<T>>, ghost root: Segment, ghost level: nat)
    returns (ghost mem': Memory<T>)
    requires StrictWeakOrder(lt) && mem.data != mem.work
    requires mem == Now(mem.data, mem.work, mem.data0)
    requires Running(lt, mem, st, root, f, level) && (f.op == Sort ==> !f.odd)
    requires ChangedWithin(mem0, mem, root)
    modifies f.out
    ensures mem' == Now(mem.data, mem.work, mem.data0) && mem'.Valid()
    ensures ChangedWithin(mem0, mem', root)
    ensures Done(lt, mem', Seg(f)) && Waiting(lt, mem', st, root, Seg(f), level)
  {
    hide Waiting, Ready, Done, ChangedWithin;
    if f.op == Sort {
      DeliverLeaf(f, lt, mem, st, root, level);
    } else {
      DeliverMerge(f, lt, mem, st, root, level);
    }
    mem' := Now(mem.data, mem.work, mem.data0);
    WithinRoot(lt, mem0, mem, mem', st, root, Seg(f), level);
  }

  method PushHalves<T>(stack: array<Frame<T>>, idx: nat, f: Frame<T>)
    requires idx + 2 <= stack.Length
    modifies stack
    ensures stack[..idx + 2] == old(stack[..idx]) +
              [f.(op := Merge), Frame(Sort, !f.odd, f.inp, f.out, f.off + f.n / 2, f.n - f.n / 2)]
  {
    stack[idx] := f.(op := Merge);
    stack[idx + 1] := Frame(Sort, !f.odd, f.inp, f.out, f.off + f.n / 2, f.n - f.n / 2);
  }

  /** The loop of msort_st_main, from the first operation on. */
  method RunOperations<T(!new)>(stack: array<Frame<T>>, f0: Frame<T>, lt: (T, T) -> bool, threshold: int,
                           ghost mem0: Memory<T>)
    returns (aborted: bool, ghost mem: Memory<T>)
    requires StrictWeakOrder(lt) && threshold >= 2 && stack.Length == 2 * MAX_DEPTH
    requires stack as object != mem0.data && stack as object != mem0.work
    requires mem0.data != mem0.work && mem0 == Now(mem0.data, mem0.work, mem0.data0)
    requires Running(lt, mem0, [], Seg(f0), f0, 0)
    modifies stack, mem0.data, mem0.work
    ensures !aborted && mem == Now(mem0.data, mem0.work, mem0.data0)
    ensures f0.off + f0.n <= |mem.d| && mem.Valid() && ChangedWithin(mem0, mem, Seg(f0)) && Done(lt, mem, Seg(f0))
  {
    hide Waiting, Ready, Done, Running, ChangedWithin, StackWeight, Weight, StrictWeakOrder;
    aborted := false;
    var f, stack_idx := f0, 0;
    ghost var root, level: nat, st: seq<Frame<T>> := Seg(f0), 0, [];
    mem := mem0;
    NothingChanged(mem0, root);
    while true
      invariant 0 <= stack_idx <= stack.Length && st == stack[..stack_idx]
      invariant mem == Now(mem0.data, mem0.work, mem0.data0)
      invariant Running(lt, mem, st, root, f, level) && ChangedWithin(mem0, mem, root)
      decreases StackWeight(st) + Weight(f)
    {
      RunningFacts(lt, mem, st, root, f, level);
      if f.op == Sort && !(f.n < threshold && !f.odd) {
        PushIsReady(lt, mem, st, root, f, level);
        PushWeight(st, f);
        if stack_idx + 2 > stack.Length {
          aborted := true;
          return;
        }
        PushHalves(stack, stack_idx, f);
        stack_idx := stack_idx + 2;
        st, level := stack[..stack_idx], level + 1;
        f := Frame(Sort, !f.odd, f.inp, f.out, f.off, f.n / 2);
      } else {
        mem := Deliver(f, lt, mem0, mem, st, root, level);
        if stack_idx == 0 {
          break;
        }
        level := PopIsReady(lt, mem, st, root, Seg(f), level);
        PopWeight(st, f);
        stack_idx := stack_idx - 1;
        f := stack[stack_idx];
        assert st[..|st| - 1] == stack[..stack_idx];
        st := stack[..stack_idx];
      }
    }
    OnlyRootIsLeft(lt, mem, root, Seg(f), level);
  }

  lemma OnlyRootIsLeft<T>(lt: (T, T) -> bool, mem: Memory<T>, root: Segment, seg: Segment, level: nat)
    requires mem.Valid() && Waiting(lt, mem, [], root, seg, level)
    ensures root == seg && seg.off + seg.n <= |mem.d|
  {
  }

  lemma NothingChanged<T>(mem: Memory<T>, seg: Segment)
    ensures ChangedWithin(mem, mem, seg)
  {
  }

  /** Sorts the n elements of `inp` (odd) or of `out` (not odd) from off on into `out`.
      aborted tells whether the stack overflowed. */
  method MsortStMain<T(!new)>(odd: bool, out: array<T>, inp: array<T>, off: nat, n: nat,
                              lt: (T, T) -> bool, threshold: int)
    returns (aborted: bool)
    requires StrictWeakOrder(lt) && threshold >= 2
    requires out != inp && out.Length == inp.Length
    requires off + n <= out.Length && n < 0x8000_0000_0000_0000
    requires odd ==> n >= 1
    modifies out, inp
    ensures !aborted
    ensures Sorted(lt, out[..], off, off + n)
    ensures multiset(out[off..off + n]) == old(multiset((if odd then inp else out)[off..off + n]))
    ensures SameOutside(old(out[..]), out[..], off, off + n)
    ensures SameOutside(old(inp[..]), inp[..], off, off + n)
  {
    hide Waiting, Ready, Done, Running, ChangedWithin;
    var f := Frame(Sort, odd, out, inp, off, n);
    var stack := new Frame<T>[2 * MAX_DEPTH](_ => f);
    ghost var data, work := if odd then inp else out, if odd then out else inp;
    ghost var mem0 := Now(data, work, data[..]);
    ghost var mem;
    Start(lt, mem0, f);
    aborted, mem := RunOperations(stack, f, lt, threshold, mem0);
    Finish(lt, mem0, mem, Seg(f));
  }

  lemma Start<T>(lt: (T, T) -> bool, mem: Memory<T>, f: Frame<T>)
    requires mem.Valid() && Placed(mem, f) && f.op == Sort && mem.data0 == mem.d
    requires f.off + f.n <= |mem.d| && f.n < 0x8000_0000_0000_0000 && (f.odd ==> f.n >= 1)
    ensures Running(lt, mem, [], Seg(f), f, 0)
  {
    Pow2Of63();
  }

  lemma RunningFacts<T>(lt: (T, T) -> bool, mem: Memory<T>, st: seq<Frame<T>>,
                        root: Segment, f: Frame<T>, level: nat)
    requires Running(lt, mem, st, root, f, level)
    ensures mem.Valid() && Placed(mem, f) && f.off + f.n <= |mem.d| && (f.odd ==> f.n >= 1)
  {
  }

  lemma WithinRoot<T>(lt: (T, T) -> bool, mem0: Memory<T>, mem: Memory<T>, mem': Memory<T>,
                      st: seq<Frame<T>>, root: Segment, seg: Segment, level: nat)
    requires mem'.Valid() && Waiting(lt, mem', st, root, seg, level)
    requires ChangedWithin(mem0, mem, root) && ChangedWithin(mem, mem', seg)
    ensures ChangedWithin(mem0, mem', root)
  {
  }

  lemma Finish<T>(lt: (T, T) -> bool, mem0: Memory<T>, mem: Memory<T>, root: Segment)
    requires mem0.Valid() && mem.Valid() && root.off + root.n <= |mem.d| && Done(lt, mem, root)
    requires ChangedWithin(mem0, mem, root)
    ensures Sorted(lt, mem.At(root.odd), root.off, root.off + root.n)
    ensures multiset(mem.At(root.odd)[root.off..root.off + root.n])
         == multiset(mem0.data0[root.off..root.off + root.n])
    ensures SameOutside(mem0.d, mem.d, root.off, root.off + root.n)
    ensures SameOutside(mem0.w, mem.w, root.off, root.off + root.n)
  {
  }
}
