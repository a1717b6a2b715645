/** rsort_st_main and rsort_mt_main of src/c7sort.hpp: the radix sort on the masked bits of an
    unsigned key.  A key type narrower than 64 bits is the case of a mask without higher bits. */
module RadixSort {
  import opened Order
  import opened Powers
  import opened Radix
  import opened Partition
  import InsertionSort

  const STACK_SIZE := 64

  /** The order by the masked key. */
  function KeyLess<T>(key: T -> nat, mask: nat): (T, T) -> bool {
    (x, y) => And(key(x), mask) < And(key(y), mask)
  }

  lemma KeyLessIsOrder<T(!new)>(key: T -> nat, mask: nat)
    ensures StrictWeakOrder(KeyLess(key, mask))
  {
  }

  predicate One<T>(key: T -> nat, tst: nat, x: T) {
    And(key(x), tst) != 0
  }

  /** The test mask for bit b, with 0 past the lowest bit. */
  function TestMask(b: int): nat {
    if b < 0 then 0 else Pow2(b)
  }

  /** The elements left..right have the same masked bits from b on. */
  ghost predicate RangeAgrees<T>(key: T -> nat, mask: nat, b: nat, s: seq<T>, left: int, right: int)
    requires 0 <= left && right < |s|
  {
    forall i, j :: left <= i <= right && left <= j <= right ==> AgreeFrom(mask, b, key(s[i]), key(s[j]))
  }

  /** Within left..right, exactly the elements from p on have the test bit. */
  ghost predicate BitParted<T>(key: T -> nat, tst: nat, s: seq<T>, left: int, p: int, right: int)
    requires 0 <= left && right < |s|
  {
    && left <= p <= right + 1
    && (forall i :: left <= i < p ==> !One(key, tst, s[i]))
    && (forall j :: p <= j <= right ==> One(key, tst, s[j]))
  }

  /** The exchange loop, with scans that test no bound. */
  method PartitionByBit<T>(a: array<T>, left: nat, right: int, key: T -> nat, tst: nat)
    returns (p: int, q: int)
    requires left <= right + 1 <= a.Length
    modifies a
    ensures q == p - 1 && BitParted(key, tst, a[..], left, p, right)
    ensures Rearranged(old(a[..]), a[..], left, right + 1)
  {
    hide Rearranged;
    p, q := left, right;
    RearrangedSelf(a[..], left, right + 1);
    while p <= q && !One(key, tst, a[p])
      invariant left <= p <= right + 1
      invariant forall i :: left <= i < p ==> !One(key, tst, a[i])
    {
      p := p + 1;
    }
    while p <= q && One(key, tst, a[q])
      invariant p - 1 <= q <= right
      invariant forall j :: q < j <= right ==> One(key, tst, a[j])
      decreases q
    {
      q := q - 1;
    }
    while p < q
      invariant left <= p <= q + 1 <= right + 1
      invariant forall i :: left <= i < p ==> !One(key, tst, a[i])
      invariant forall j :: q < j <= right ==> One(key, tst, a[j])
      invariant p <= q ==> One(key, tst, a[p]) && !One(key, tst, a[q])
      invariant Rearranged(old(a[..]), a[..], left, right + 1)
      decreases q - p
    {
      ghost var s := a[..];
      Swap(a, p, q, left, right + 1);
      RearrangedTransitive(old(a[..]), s, a[..], left, right + 1);
      p, q := ScanBoth(a, left, right, p + 1, q - 1, key, tst);
    }
  }

  method ScanBoth<T>(a: array<T>, left: nat, right: int, p0: nat, q0: int, key: T -> nat, tst: nat)
    returns (p: int, q: int)
    requires left < p0 <= q0 + 1 && q0 < right < a.Length && p0 <= right
    requires forall i :: left <= i < p0 ==> !One(key, tst, a[i])
    requires forall j :: q0 < j <= right ==> One(key, tst, a[j])
    ensures p0 <= p <= q + 1 && q <= q0
    ensures forall i :: left <= i < p ==> !One(key, tst, a[i])
    ensures forall j :: q < j <= right ==> One(key, tst, a[j])
    ensures p <= q ==> One(key, tst, a[p]) && !One(key, tst, a[q])
  {
    p, q := p0, q0;
    while !One(key, tst, a[p])
      invariant p0 <= p <= q0 + 1
      invariant forall i :: left <= i < p ==> !One(key, tst, a[i])
      decreases q0 + 1 - p
    {
      p := p + 1;
    }
    while One(key, tst, a[q])
      invariant p - 1 <= q <= q0
      invariant forall j :: q < j <= right ==> One(key, tst, a[j])
      decreases q
    {
      q := q - 1;
    }
  }

  /** The loop that looks for the next lower bit of the mask, from bit b0 on. */
  method NextBit(mask: nat, tst0: nat, ghost b0: int) returns (tst: nat, ghost b: int)
    requires b0 >= -1 && tst0 == TestMask(b0)
    ensures -1 <= b <= b0 && tst == TestMask(b)
    ensures b >= 0 ==> Bit(mask, b)
    ensures forall c :: b < c <= b0 ==> !Bit(mask, c)
  {
    tst, b := tst0, b0;
    while tst != 0 && And(mask, tst) == 0
      invariant -1 <= b <= b0 && tst == TestMask(b)
      invariant forall c :: b < c <= b0 ==> !Bit(mask, c)
      decreases b
    {
      AndOneBit(mask, b);
      tst, b := tst / 2, b - 1;
    }
    if b >= 0 { AndOneBit(mask, b); }
  }

  lemma AgreeFromNext(mask: nat, b: nat, b': nat, x: nat, y: nat)
    requires b' <= b && AgreeFrom(mask, b + 1, x, y) && Bit(x, b) == Bit(y, b)
    requires forall c :: b' <= c < b ==> !Bit(mask, c)
    ensures AgreeFrom(mask, b', x, y)
  {
    forall c: nat | b' <= c && Bit(mask, c)
      ensures Bit(x, c) == Bit(y, c)
    {
      if c == b { } else { assert c >= b + 1; }
    }
  }

  /** The parts of a range parted by its bit b agree from the next masked bit on, and are in order. */
  lemma PartsAgree<T>(key: T -> nat, mask: nat, b: nat, b': nat, s: seq<T>, left: nat, p: int, right: int)
    requires right < |s| && Bit(mask, b)
    requires RangeAgrees(key, mask, b + 1, s, left, right) && BitParted(key, Pow2(b), s, left, p, right)
    requires b' <= b && forall c :: b' <= c < b ==> !Bit(mask, c)
    ensures RangeAgrees(key, mask, b', s, left, p - 1) && RangeAgrees(key, mask, b', s, p, right)
    ensures Cut(KeyLess(key, mask), s, left, p, right + 1)
  {
    forall i, j | left <= i <= right && left <= j <= right && (i < p <==> j < p)
      ensures AgreeFrom(mask, b', key(s[i]), key(s[j]))
    {
      AndOneBit(key(s[i]), b);
      AndOneBit(key(s[j]), b);
      AgreeFromNext(mask, b, b', key(s[i]), key(s[j]));
    }
    forall i, j | left <= i < p <= j <= right
      ensures Le(KeyLess(key, mask), s[i], s[j])
    {
      AndOneBit(key(s[i]), b);
      AndOneBit(key(s[j]), b);
      HighestBitDecides(mask, b, key(s[i]), key(s[j]));
    }
  }

  lemma AgreeingKept<T>(key: T -> nat, mask: nat, b: nat, s: seq<T>, t: seq<T>, left: nat, right: int)
    requires left <= right + 1 <= |s|
    requires Rearranged(s, t, left, right + 1) && RangeAgrees(key, mask, b, s, left, right)
    ensures RangeAgrees(key, mask, b, t, left, right)
  {
    forall i, j | left <= i <= right && left <= j <= right
      ensures AgreeFrom(mask, b, key(t[i]), key(t[j]))
    {
      var i' := RearrangedOrigin(s, t, left, right + 1, i);
      var j' := RearrangedOrigin(s, t, left, right + 1, j);
      assert AgreeFrom(mask, b, key(s[i']), key(s[j']));
    }
  }

  /** When no masked bit is left, the parts need no sorting. */
  lemma PartsSorted<T>(key: T -> nat, mask: nat, s: seq<T>, left: nat, p: int, right: int)
    requires left <= p <= right + 1 <= |s|
    requires RangeAgrees(key, mask, 0, s, left, p - 1) && RangeAgrees(key, mask, 0, s, p, right)
    requires Cut(KeyLess(key, mask), s, left, p, right + 1)
    ensures Sorted(KeyLess(key, mask), s, left, right + 1)
  {
    forall i, j | left <= i < j < right + 1
      ensures Le(KeyLess(key, mask), s[i], s[j])
    {
      if i < p <= j {
      } else {
        AgreeOnAll(mask, key(s[i]), key(s[j]));
      }
    }
  }

  /** A pending range and the test mask to go on with. */
  datatype Entry = Entry(left: int, right: int, tst: nat)

  /** The pending ranges, from the top of the stack down, tile from..last; the i-th entry of the
      stack goes on with bit bits[i], and the bits decrease towards the top. */
  ghost predicate Pending<T>(key: T -> nat, mask: nat, s: seq<T>, st: seq<Entry>, bits: seq<nat>,
                             first: int, from: int, last: int)
    requires 0 <= first && last < |s|
  {
    && |st| == |bits| && Cut(KeyLess(key, mask), s, first, from, last + 1)
    && if st == [] then from == last + 1
       else
         var (e, b) := (st[|st| - 1], bits[|st| - 1]);
         && first <= e.left == from <= e.right + 1 <= last + 1
         && e.tst == Pow2(b) && Bit(mask, b) && |st| + b < STACK_SIZE
         && RangeAgrees(key, mask, b + 1, s, e.left, e.right)
         && Pending(key, mask, s, st[..|st| - 1], bits[..|st| - 1], first, e.right + 1, last)
  }

  lemma {:induction false} PendingKept<T>(key: T -> nat, mask: nat, s: seq<T>, t: seq<T>, lo: int, hi: int,
                                          st: seq<Entry>, bits: seq<nat>, first: int, from: int, last: int)
    requires 0 <= first <= lo <= hi <= from <= last + 1 <= |s|
    requires Rearranged(s, t, lo, hi) && Pending(key, mask, s, st, bits, first, from, last)
    ensures Pending(key, mask, t, st, bits, first, from, last)
    decreases |st|
  {
    CutKept(KeyLess(key, mask), s, t, lo, hi, first, from, last + 1);
    hide Cut;
    if st != [] {
      PendingKept(key, mask, s, t, lo, hi, st[..|st| - 1], bits[..|st| - 1], first, st[|st| - 1].right + 1, last);
    }
  }

  /** The state at the head of the loop: left..right is the running range, b its test bit. */
  ghost predicate Running<T>(key: T -> nat, mask: nat, s: seq<T>, st: seq<Entry>, bits: seq<nat>, b: nat,
                             first: int, left: int, right: int, last: int)
  {
    && 0 <= first <= left <= right + 1 <= last + 1 <= |s| && |st| + b < STACK_SIZE
    && Bit(mask, b) && RangeAgrees(key, mask, b + 1, s, left, right)
    && Sorted(KeyLess(key, mask), s, first, left) && Cut(KeyLess(key, mask), s, first, left, last + 1)
    && Pending(key, mask, s, st, bits, first, right + 1, last)
  }

  /** All up to right is in place. */
  ghost predicate Settled<T>(key: T -> nat, mask: nat, s: seq<T>, st: seq<Entry>, bits: seq<nat>,
                             first: int, right: int, last: int)
  {
    && 0 <= first <= right + 1 <= last + 1 <= |s|
    && Sorted(KeyLess(key, mask), s, first, right + 1)
    && Pending(key, mask, s, st, bits, first, right + 1, last)
  }

  lemma RangeSettled<T>(key: T -> nat, mask: nat, s: seq<T>, t: seq<T>, st: seq<Entry>, bits: seq<nat>, b: nat,
                        first: int, left: int, right: int, last: int)
    requires Running(key, mask, s, st, bits, b, first, left, right, last)
    requires Rearranged(s, t, left, right + 1) && Sorted(KeyLess(key, mask), t, left, right + 1)
    ensures Settled(key, mask, t, st, bits, first, right, last)
  {
    CutKept(KeyLess(key, mask), s, t, left, right + 1, first, left, last + 1);
    PendingKept(key, mask, s, t, left, right + 1, st, bits, first, right + 1, last);
  }

  lemma PopRuns<T>(key: T -> nat, mask: nat, s: seq<T>, st: seq<Entry>, bits: seq<nat>,
                   first: int, right: int, last: int)
    requires Settled(key, mask, s, st, bits, first, right, last) && st != []
    ensures |bits| == |st|
    ensures var (e, b) := (st[|st| - 1], bits[|st| - 1]);
            && e.left == right + 1 <= e.right + 1 && e.tst == Pow2(b)
            && Running(key, mask, s, st[..|st| - 1], bits[..|st| - 1], b, first, e.left, e.right, last)
  {
  }

  lemma AllSettled<T>(key: T -> nat, mask: nat, s: seq<T>, bits: seq<nat>, first: int, right: int, last: int)
    requires Settled(key, mask, s, [], bits, first, right, last)
    ensures right == last && 0 <= first <= last + 1 <= |s| && Sorted(KeyLess(key, mask), s, first, last + 1)
  {
  }

  /** The ones of the running range are pending for the next masked bit b', its zeros run. */
  lemma PushRuns<T>(key: T -> nat, mask: nat, s: seq<T>, t: seq<T>, st: seq<Entry>, bits: seq<nat>, b: nat,
                    first: int, left: int, right: int, last: int, p: int, b': nat)
    requires Running(key, mask, s, st, bits, b, first, left, right, last) && left <= p <= right + 1
    requires |s| == |t| && Rearranged(s, t, left, right + 1) && Cut(KeyLess(key, mask), t, left, p, right + 1)
    requires b' < b && Bit(mask, b')
    requires RangeAgrees(key, mask, b' + 1, t, left, p - 1) && RangeAgrees(key, mask, b' + 1, t, p, right)
    ensures |st| < STACK_SIZE
    ensures Running(key, mask, t, st + [Entry(p, right, Pow2(b'))], bits + [b'], b', first, left, p - 1, last)
  {
    hide Cut, Rearranged, Sorted, RangeAgrees;
    var lt := KeyLess(key, mask);
    CutKept(lt, s, t, left, right + 1, first, left, last + 1);
    PendingKept(key, mask, s, t, left, right + 1, st, bits, first, right + 1, last);
    CutInside(lt, t, first, left, p, right, last);
    SortedKept(lt, s, t, left, right + 1, first, left);
    PendingMore(key, mask, t, st, bits, first, p, right, last, b');
  }

  lemma PendingMore<T>(key: T -> nat, mask: nat, s: seq<T>, st: seq<Entry>, bits: seq<nat>,
                       first: int, p: int, right: int, last: int, b: nat)
    requires 0 <= first <= p <= right + 1 <= last + 1 <= |s|
    requires Pending(key, mask, s, st, bits, first, right + 1, last)
    requires |st| + 1 + b < STACK_SIZE && Bit(mask, b)
    requires RangeAgrees(key, mask, b + 1, s, p, right) && Cut(KeyLess(key, mask), s, first, p, last + 1)
    ensures Pending(key, mask, s, st + [Entry(p, right, Pow2(b))], bits + [b], first, p, last)
  {
    hide Cut, RangeAgrees;
    assert (st + [Entry(p, right, Pow2(b))])[..|st|] == st && (bits + [b])[..|st|] == bits;
  }

  function Pow3(k: nat): nat {
    if k == 0 then 1 else 3 * Pow3(k - 1)
  }

  /** A bound on the turns of the loop that the pending ranges cost. */
  function StackWeight(bits: seq<nat>): nat {
    if bits == [] then 0 else StackWeight(bits[..|bits| - 1]) + Pow3(bits[|bits| - 1])
  }

  lemma {:induction false} Pow3Grows(b': nat, b: nat)
    requires b' < b
    ensures 3 * Pow3(b') <= Pow3(b) && Pow3(b') > 0
  {
    if b' == b - 1 {
      Pow3Positive(b');
    } else {
      Pow3Grows(b', b - 1);
    }
  }

  lemma {:induction false} Pow3Positive(b: nat)
    ensures Pow3(b) > 0
  {
    if b > 0 { Pow3Positive(b - 1); }
  }

  lemma PushWeight(bits: seq<nat>, b: nat, b': nat)
    requires b' < b
    ensures StackWeight(bits + [b']) + Pow3(b') < StackWeight(bits) + Pow3(b)
  {
    assert (bits + [b'])[..|bits|] == bits;
    Pow3Grows(b', b);
  }

  lemma PopWeight(bits: seq<nat>, b: nat)
    requires bits != []
    ensures StackWeight(bits[..|bits| - 1]) + Pow3(bits[|bits| - 1]) < StackWeight(bits) + Pow3(b)
  {
    Pow3Positive(b);
  }

  /** One turn of the loop on a range that is not left to dsort: parts it by its bit, and finds
      the next bit.  b' < 0 means that no masked bit is left and the range is sorted. */
  method PartAndStep<T(!new)>(a: array<T>, left: nat, right: int, mask: nat, tst: nat, key: T -> nat, ghost b: nat)
    returns (p: int, q: int, tst': nat, ghost b': int)
    requires left <= right + 1 <= a.Length && tst == Pow2(b) && Bit(mask, b)
    requires RangeAgrees(key, mask, b + 1, a[..], left, right)
    modifies a
    ensures left <= p == q + 1 <= right + 1
    ensures Rearranged(old(a[..]), a[..], left, right + 1)
    ensures Cut(KeyLess(key, mask), a[..], left, p, right + 1)
    ensures -1 <= b' < b && tst' == TestMask(b') && (b' >= 0 ==> Bit(mask, b'))
    ensures RangeAgrees(key, mask, b' + 1, a[..], left, p - 1) && RangeAgrees(key, mask, b' + 1, a[..], p, right)
    ensures b' == -1 ==> Sorted(KeyLess(key, mask), a[..], left, right + 1)
  {
    hide Rearranged, RangeAgrees, Cut, Sorted;
    ghost var s := a[..];
    p, q := PartitionByBit(a, left, right, key, tst);
    AgreeingKept(key, mask, b + 1, s, a[..], left, right);
    tst', b' := NextBit(mask, tst / 2, b - 1);
    PartsAgree(key, mask, b, b' + 1, a[..], left, p, right);
    if b' == -1 {
      PartsSorted(key, mask, a[..], left, p, right);
    }
  }

  method RsortStMain<T(!new)>(a: array<T>, left: nat, right: int, mask: nat, tst: nat, key: T -> nat,
                              threshold: int, ghost b: nat)
    requires left <= right + 1 <= a.Length
    requires b < STACK_SIZE && tst == Pow2(b) && RangeAgrees(key, mask, b + 1, a[..], left, right)
    modifies a
    ensures Sorted(KeyLess(key, mask), a[..], left, right + 1)
    ensures Rearranged(old(a[..]), a[..], left, right + 1)
  {
    hide Rearranged, RangeAgrees, Sorted;
    RearrangedSelf(a[..], left, right + 1);
    var start, b' := NextBit(mask, tst, b);
    LowerBits(key, mask, b + 1, b' + 1, a[..], left, right);
    if start == 0 {
      NothingToSort(key, mask, a[..], left, right);
      return;
    }
    var stack := new Entry[STACK_SIZE];
    SortRanges(stack, a, left, right, mask, start, key, threshold, b');
  }

  /** The main loop of rsort_st_main. */
  method SortRanges<T(!new)>(stack: array<Entry>, a: array<T>, first: nat, last: int, mask: nat, tst0: nat,
                             key: T -> nat, threshold: int, ghost b0: nat)
    requires stack.Length == STACK_SIZE && stack as object != a
    requires first <= last + 1 <= a.Length
    requires b0 < STACK_SIZE && tst0 == Pow2(b0) && Bit(mask, b0)
    requires RangeAgrees(key, mask, b0 + 1, a[..], first, last)
    modifies a, stack
    ensures Sorted(KeyLess(key, mask), a[..], first, last + 1)
    ensures Rearranged(old(a[..]), a[..], first, last + 1)
  {
    hide Running, Settled, Rearranged, RangeAgrees, Cut, Sorted, StackWeight, Pow3, StrictWeakOrder;
    ghost var s0 := a[..];
    RearrangedSelf(s0, first, last + 1);
    KeyLessIsOrder(key, mask);
    var left, right: int, tst, stack_idx := first, last, tst0, 0;
    ghost var st: seq<Entry>, bits: seq<nat>, b: nat := [], [], b0;
    StartRuns(key, mask, s0, b, first, last);
    while true
      invariant 0 <= stack_idx <= stack.Length
      invariant st == stack[..stack_idx]
      invariant 0 <= first <= left <= right + 1 <= last + 1
      invariant tst == Pow2(b)
      invariant Running(key, mask, a[..], st, bits, b, first, left, right, last)
      invariant Rearranged(s0, a[..], first, last + 1)
      decreases StackWeight(bits) + Pow3(b)
    {
      ghost var s := a[..];
      if right - left < threshold {
        InsertionSort.Dsort(a, left, right, KeyLess(key, mask));
        RangeSettled(key, mask, s, a[..], st, bits, b, first, left, right, last);
        RearrangedWithin(s0, s, a[..], left, right + 1, first, last + 1);
        if stack_idx == 0 {
          AllSettled(key, mask, a[..], bits, first, right, last);
          return;
        }
        PopRuns(key, mask, a[..], st, bits, first, right, last);
        PopWeight(bits, b);
        stack_idx := stack_idx - 1;
        assert st[..|st| - 1] == stack[..stack_idx] && st[|st| - 1] == stack[stack_idx];
        left, right, tst := stack[stack_idx].left, stack[stack_idx].right, stack[stack_idx].tst;
        st, b, bits := stack[..stack_idx], bits[|bits| - 1], bits[..|bits| - 1];
      } else {
        RunningRange(key, mask, s, st, bits, b, first, left, right, last);
        var p, q;
        ghost var b';
        p, q, tst, b' := PartAndStep(a, left, right, mask, tst, key, b);
        RearrangedWithin(s0, s, a[..], left, right + 1, first, last + 1);
        if tst == 0 {
          RangeSettled(key, mask, s, a[..], st, bits, b, first, left, right, last);
          if stack_idx == 0 {
            AllSettled(key, mask, a[..], bits, first, right, last);
            return;
          }
          PopRuns(key, mask, a[..], st, bits, first, right, last);
          PopWeight(bits, b);
          stack_idx := stack_idx - 1;
          assert st[..|st| - 1] == stack[..stack_idx] && st[|st| - 1] == stack[stack_idx];
          left, right, tst := stack[stack_idx].left, stack[stack_idx].right, stack[stack_idx].tst;
          st, b, bits := stack[..stack_idx], bits[|bits| - 1], bits[..|bits| - 1];
        } else {
          PushRuns(key, mask, s, a[..], st, bits, b, first, left, right, last, p, b');
          PushWeight(bits, b, b');
          stack[stack_idx] := Entry(p, right, tst);
          stack_idx := stack_idx + 1;
          st, bits, b := st + [Entry(p, right, tst)], bits + [b'], b';
          assert st == stack[..stack_idx];
          right := q;
        }
      }
    }
  }

  lemma RunningRange<T>(key: T -> nat, mask: nat, s: seq<T>, st: seq<Entry>, bits: seq<nat>, b: nat,
                        first: int, left: int, right: int, last: int)
    requires Running(key, mask, s, st, bits, b, first, left, right, last)
    ensures 0 <= left && right < |s| && Bit(mask, b) && RangeAgrees(key, mask, b + 1, s, left, right)
  {
  }

  lemma StartRuns<T>(key: T -> nat, mask: nat, s: seq<T>, b: nat, first: int, last: int)
    requires 0 <= first <= last + 1 <= |s| && b < STACK_SIZE && Bit(mask, b)
    requires RangeAgrees(key, mask, b + 1, s, first, last)
    ensures Running(key, mask, s, [], [], b, first, first, last, last)
  {
  }

  /** A range that agrees from bit c on agrees from b on if the mask has no bit in between. */
  lemma LowerBits<T>(key: T -> nat, mask: nat, c: nat, b: nat, s: seq<T>, left: int, right: int)
    requires 0 <= left && right < |s| && RangeAgrees(key, mask, c, s, left, right)
    requires forall k :: b <= k < c ==> !Bit(mask, k)
    ensures RangeAgrees(key, mask, b, s, left, right)
  {
    forall i, j | left <= i <= right && left <= j <= right
      ensures AgreeFrom(mask, b, key(s[i]), key(s[j]))
    {
      assert AgreeFrom(mask, c, key(s[i]), key(s[j]));
    }
  }

  lemma NothingToSort<T>(key: T -> nat, mask: nat, s: seq<T>, left: int, right: int)
    requires 0 <= left <= right + 1 <= |s| && RangeAgrees(key, mask, 0, s, left, right)
    ensures Sorted(KeyLess(key, mask), s, left, right + 1)
  {
    forall i, j | left <= i < j < right + 1
      ensures Le(KeyLess(key, mask), s[i], s[j])
    {
      AgreeOnAll(mask, key(s[i]), key(s[j]));
    }
  }

  /** rsort_st for a mask type of the given width; the keys themselves may be wider. */
  method RsortSt<T(!new)>(a: array<T>, left: nat, n: nat, mask: nat, width: nat, key: T -> nat, threshold: int)
    requires left + n <= a.Length && 1 <= width <= STACK_SIZE && mask < Pow2(width)
    modifies a
    ensures Sorted(KeyLess(key, mask), a[..], left, left + n)
    ensures Rearranged(old(a[..]), a[..], left, left + n)
  {
    forall i, j | left <= i < left + n && left <= j < left + n
      ensures AgreeFrom(mask, width, key(a[i]), key(a[j]))
    {
      AgreeAboveWidth(mask, width, key(a[i]), key(a[j]));
    }
    RsortStMain(a, left, left + n - 1, mask, Pow2(width - 1), key, threshold, width - 1);
  }

  /** rsort_mt_main; the two threads sort disjoint ranges and are run one after the other. */
  method RsortMtMain<T(!new)>(a: array<T>, left: nat, right: int, mask: nat, tst: nat, key: T -> nat,
                              threshold: int, mtThreshold: int, level: nat, ghost b: nat)
    requires left <= right + 1 <= a.Length
    requires b < STACK_SIZE && tst == Pow2(b) && Bit(mask, b) && RangeAgrees(key, mask, b + 1, a[..], left, right)
    modifies a
    ensures Sorted(KeyLess(key, mask), a[..], left, right + 1)
    ensures Rearranged(old(a[..]), a[..], left, right + 1)
    decreases level
  {
    hide Rearranged, RangeAgrees, Cut;
    if level == 0 || right - left < mtThreshold {
      RsortStMain(a, left, right, mask, tst, key, threshold, b);
      return;
    }
    ghost var s, lt := a[..], KeyLess(key, mask);
    var p, q, tst', b' := PartAndStep(a, left, right, mask, tst, key, b);
    if tst' == 0 {
      return;
    }
    ghost var s1 := a[..];
    RearrangedSelf(s1, left, p);
    if left < q {
      RsortMtMain(a, left, q, mask, tst', key, threshold, mtThreshold, level - 1, b');
    }
    ghost var s2 := a[..];
    CutKept(lt, s1, s2, left, p, left, p, right + 1);
    AgreesElsewhere(key, mask, b' + 1, s1, s2, left, p, right);
    RearrangedWithin(s, s1, s2, left, p, left, right + 1);
    RearrangedSelf(s2, p, right + 1);
    if p < right {
      RsortMtMain(a, p, right, mask, tst', key, threshold, mtThreshold, level - 1, b');
    }
    CutKept(lt, s2, a[..], p, right + 1, left, p, right + 1);
    RearrangedWithin(s, s2, a[..], p, right + 1, left, right + 1);
    JoinSorted(lt, s2, a[..], left, p, right + 1);
  }

  lemma AgreesElsewhere<T>(key: T -> nat, mask: nat, b: nat, s: seq<T>, t: seq<T>, lo: int, p: int, right: int)
    requires 0 <= lo <= p <= right + 1 <= |s|
    requires Rearranged(s, t, lo, p) && RangeAgrees(key, mask, b, s, p, right)
    ensures |s| == |t| && RangeAgrees(key, mask, b, t, p, right)
  {
  }
}
