/** heap_up, heap_down and hsort_st of src/c7sort.hpp.  The heap is the start of
    the array's tail a[left..], and heap indices count from left. */
module HeapSort {
  import opened Order

  function LeftChild(i: nat): nat { 2 * i + 1 }

  function Parent(i: nat): nat
    requires i > 0
  {
    (i - 1) / 2
  }

  /** Among h[..n], no element is greater than its parent. */
  ghost predicate Heap<T>(lt: (T, T) -> bool, h: seq<T>, n: nat)
    requires n <= |h|
  {
    forall i :: 0 < i < n ==> Le(lt, h[i], h[Parent(i)])
  }

  /** A heap but for the link between k and its parent. */
  ghost predicate HeapButUp<T>(lt: (T, T) -> bool, h: seq<T>, n: nat, k: nat)
    requires n <= |h|
  {
    && (forall i :: 0 < i < n && i != k ==> Le(lt, h[i], h[Parent(i)]))
    && Bridged(lt, h, n, k)
  }

  /** A heap but for the links between k and its children. */
  ghost predicate HeapButDown<T>(lt: (T, T) -> bool, h: seq<T>, n: nat, k: nat)
    requires n <= |h|
  {
    && (forall i :: 0 < i < n && Parent(i) != k ==> Le(lt, h[i], h[Parent(i)]))
    && Bridged(lt, h, n, k)
  }

  /** The children of k do not exceed the parent of k. */
  ghost predicate Bridged<T>(lt: (T, T) -> bool, h: seq<T>, n: nat, k: nat)
    requires n <= |h|
  {
    0 < k < n ==> forall i :: 0 < i < n && Parent(i) == k ==> Le(lt, h[i], h[Parent(k)])
  }

  /** v is what s[left..] would be with x put into the hole at c. */
  ghost predicate HoleView<T>(v: seq<T>, s: seq<T>, left: nat, c: nat, x: T) {
    && left + |v| == |s| && c < |v| && v[c] == x
    && forall i :: 0 <= i < |v| && i != c ==> v[i] == s[left + i]
  }

  /** Filling the hole at i from j swaps i and j in the view. */
  lemma HoleMoves<T>(v: seq<T>, s: seq<T>, left: nat, i: nat, j: nat, x: T)
    requires HoleView(v, s, left, i, x) && j < |v|
    ensures HoleView(Swapped(v, i, j), s[left + i := s[left + j]], left, j, x)
  {
  }

  lemma HoleStart<T>(v: seq<T>, s: seq<T>, left: nat, c: nat)
    requires left + c < |s| && v == s[left..]
    ensures HoleView(v, s, left, c, s[left + c])
  {
  }

  lemma HoleRead<T>(v: seq<T>, s: seq<T>, left: nat, c: nat, x: T, i: nat)
    requires HoleView(v, s, left, c, x) && i < |v|
    ensures v[i] == if i == c then x else s[left + i]
  {
  }

  lemma HoleFilled<T>(v: seq<T>, s: seq<T>, left: nat, c: nat, x: T)
    requires HoleView(v, s, left, c, x)
    ensures s[left + c := x][left..] == v
  {
  }

  method Put<T>(a: array<T>, left: nat, i: nat, x: T)
    requires left + i < a.Length
    modifies a
    ensures a[..] == old(a[..])[left + i := x] && a[left..] == a[..][left..]
    ensures a[..left] == old(a[..left])
  {
    a[left + i] := x;
  }

  lemma UpStep<T(!new)>(lt: (T, T) -> bool, h: seq<T>, n: nat, c: nat)
    requires StrictWeakOrder(lt)
    requires 0 < c < n <= |h| && HeapButUp(lt, h, n, c)
    requires lt(h[Parent(c)], h[c])
    ensures HeapButUp(lt, Swapped(h, c, Parent(c)), n, Parent(c))
  {
    var p := Parent(c);
    var t := Swapped(h, c, p);
    LtImpliesLe(lt, h[p], h[c]);
    forall i | 0 < i < n && i != p
      ensures Le(lt, t[i], t[Parent(i)])
    {
      if Parent(i) == p && i != c { LeTransitive(lt, h[i], h[p], h[c]); }
    }
    forall i | 0 < i < n && Parent(i) == p && p > 0
      ensures Le(lt, t[i], t[Parent(p)])
    {
      if i != c { LeTransitive(lt, h[i], h[p], h[Parent(p)]); }
    }
  }

  lemma UpStart<T>(lt: (T, T) -> bool, h: seq<T>, c: nat)
    requires c < |h| && Heap(lt, h, c)
    ensures HeapButUp(lt, h, c + 1, c)
  {
  }

  lemma UpEnd<T>(lt: (T, T) -> bool, h: seq<T>, n: nat, c: nat)
    requires c < n <= |h| && HeapButUp(lt, h, n, c)
    requires c == 0 || !lt(h[Parent(c)], h[c])
    ensures Heap(lt, h, n)
  {
  }

  /** Extends the heap 0..c0-1 by the element at c0. */
  method HeapUp<T(!new)>(a: array<T>, left: nat, c0: nat, lt: (T, T) -> bool)
    requires StrictWeakOrder(lt)
    requires left + c0 < a.Length && Heap(lt, a[left..], c0)
    modifies a
    ensures Heap(lt, a[left..], c0 + 1)
    ensures Rearranged(old(a[left..]), a[left..], 0, c0 + 1)
    ensures a[..left] == old(a[..left])
  {
    hide Heap, HeapButUp, HoleView, StrictWeakOrder, Rearranged, Swapped;
    var c: nat := c0;
    var target := a[left + c];
    ghost var v := a[left..];
    UpStart(lt, v, c);
    HoleStart(v, a[..], left, c);
    RearrangedSelf(v, 0, c0 + 1);
    while c > 0
      invariant c <= c0 && left + |v| == a.Length
      invariant HoleView(v, a[..], left, c, target) && a[..left] == old(a[..left])
      invariant HeapButUp(lt, v, c0 + 1, c)
      invariant Rearranged(old(a[left..]), v, 0, c0 + 1)
    {
      var p := Parent(c);
      HoleRead(v, a[..], left, c, target, c);
      HoleRead(v, a[..], left, c, target, p);
      if lt(a[left + p], target) {
        UpStep(lt, v, c0 + 1, c);
        RearrangedBySwap(old(a[left..]), v, 0, c0 + 1, c, p);
        HoleMoves(v, a[..], left, c, p, target);
        v := Swapped(v, c, p);
        Put(a, left, c, a[left + p]);
        c := p;
      } else {
        break;
      }
    }
    HoleRead(v, a[..], left, c, target, c);
    UpEnd(lt, v, c0 + 1, c);
    HoleFilled(v, a[..], left, c, target);
    Put(a, left, c, target);
  }

  lemma DownStep<T(!new)>(lt: (T, T) -> bool, h: seq<T>, n: nat, p: nat, c: nat)
    requires StrictWeakOrder(lt)
    requires 0 < c < n <= |h| && Parent(c) == p
    requires HeapButDown(lt, h, n, p) && Le(lt, h[p], h[c])
    requires forall i :: 0 < i < n && Parent(i) == p ==> Le(lt, h[i], h[c])
    ensures HeapButDown(lt, Swapped(h, p, c), n, c)
  {
  }

  /** c is the child of p that heap_down picks, l its left child. */
  lemma GreaterChild<T(!new)>(lt: (T, T) -> bool, h: seq<T>, n: nat, p: nat, l: nat, c: nat)
    requires StrictWeakOrder(lt)
    requires l == LeftChild(p) < n <= |h|
    requires c == if l + 1 < n && lt(h[l], h[l + 1]) then l + 1 else l
    ensures forall i :: 0 < i < n && Parent(i) == p ==> Le(lt, h[i], h[c])
  {
    LtImpliesLe(lt, h[c], h[c]);
    if c == l + 1 { LtImpliesLe(lt, h[l], h[c]); }
  }

  lemma AboveChildren<T(!new)>(lt: (T, T) -> bool, h: seq<T>, n: nat, p: nat, c: nat)
    requires StrictWeakOrder(lt)
    requires p < n && c < n <= |h| && HeapButDown(lt, h, n, p)
    requires lt(h[c], h[p])
    requires forall i :: 0 < i < n && Parent(i) == p ==> Le(lt, h[i], h[c])
    ensures Heap(lt, h, n)
  {
    LtImpliesLe(lt, h[c], h[p]);
    forall i | 0 < i < n && Parent(i) == p
      ensures Le(lt, h[i], h[p])
    {
      LeTransitive(lt, h[i], h[c], h[p]);
    }
  }

  lemma DownEnd<T>(lt: (T, T) -> bool, h: seq<T>, n: nat, p: nat)
    requires p < n <= |h| && HeapButDown(lt, h, n, p) && LeftChild(p) >= n
    ensures Heap(lt, h, n)
  {
  }

  /** Lets the element at p0 sink to its place in the heap 0..n-1. */
  method HeapDown<T(!new)>(a: array<T>, left: nat, n: nat, p0: nat, lt: (T, T) -> bool)
    requires StrictWeakOrder(lt)
    requires p0 < n && left + n <= a.Length && HeapButDown(lt, a[left..], n, p0)
    modifies a
    ensures Heap(lt, a[left..], n)
    ensures Rearranged(old(a[left..]), a[left..], 0, n)
    ensures a[..left] == old(a[..left])
  {
    hide Heap, HeapButDown, HoleView, StrictWeakOrder, Rearranged, Swapped;
    var p: nat := p0;
    var target := a[left + p];
    ghost var v := a[left..];
    HoleStart(v, a[..], left, p);
    RearrangedSelf(v, 0, n);
    while true
      invariant p < n && left + |v| == a.Length
      invariant HoleView(v, a[..], left, p, target) && a[..left] == old(a[..left])
      invariant HeapButDown(lt, v, n, p)
      invariant Rearranged(old(a[left..]), v, 0, n)
      decreases n - p
    {
      var c := LeftChild(p);
      if c >= n {
        DownEnd(lt, v, n, p);
        break;
      }
      HoleRead(v, a[..], left, p, target, p);
      HoleRead(v, a[..], left, p, target, c);
      if c + 1 < n { HoleRead(v, a[..], left, p, target, c + 1); }
      if c + 1 < n && lt(a[left + c], a[left + (c + 1)]) {
        c := c + 1;
      }
      GreaterChild(lt, v, n, p, LeftChild(p), c);
      if lt(a[left + c], target) {
        AboveChildren(lt, v, n, p, c);
        break;
      }
      DownStep(lt, v, n, p, c);
      RearrangedBySwap(old(a[left..]), v, 0, n, p, c);
      HoleMoves(v, a[..], left, p, c, target);
      v := Swapped(v, p, c);
      Put(a, left, p, a[left + c]);
      p := c;
    }
    HoleFilled(v, a[..], left, p, target);
    Put(a, left, p, target);
  }

  lemma {:induction false} RootIsGreatest<T(!new)>(lt: (T, T) -> bool, h: seq<T>, n: nat, i: nat)
    requires StrictWeakOrder(lt)
    requires i < n <= |h| && Heap(lt, h, n)
    ensures Le(lt, h[i], h[0])
  {
    if i == 0 {
      LtImpliesLe(lt, h[0], h[0]);
    } else {
      RootIsGreatest(lt, h, n, Parent(i));
      LeTransitive(lt, h[i], h[Parent(i)], h[0]);
    }
  }

  /** From index i on the elements are sorted, and none is less than one before i. */
  ghost predicate TailAbove<T>(lt: (T, T) -> bool, h: seq<T>, i: int, n: nat)
    requires n <= |h|
  {
    forall j, k :: 0 <= j < k < n && i <= k ==> Le(lt, h[j], h[k])
  }

  lemma ExtractRoot<T(!new)>(lt: (T, T) -> bool, h: seq<T>, i: nat, n: nat)
    requires StrictWeakOrder(lt)
    requires 0 < i < n <= |h|
    requires Heap(lt, h, i + 1) && TailAbove(lt, h, i + 1, n)
    ensures HeapButDown(lt, Swapped(h, 0, i), i, 0)
    ensures TailAbove(lt, Swapped(h, 0, i), i, n)
  {
    forall j | 0 <= j < i + 1
      ensures Le(lt, h[j], h[0])
    {
      RootIsGreatest(lt, h, i + 1, j);
    }
  }

  lemma TailStays<T(!new)>(lt: (T, T) -> bool, h: seq<T>, t: seq<T>, i: nat, n: nat)
    requires i < n <= |h|
    requires Rearranged(h, t, 0, i) && TailAbove(lt, h, i, n)
    ensures TailAbove(lt, t, i, n)
  {
    forall j, k | 0 <= j < k < n && i <= k
      ensures Le(lt, t[j], t[k])
    {
      if j < i {
        var o := RearrangedOrigin(h, t, 0, i, j);
        assert Le(lt, h[o], h[k]);
      }
    }
  }

  /** Sorts the n elements from left on. */
  method Hsort<T(!new)>(a: array<T>, left: nat, n: nat, lt: (T, T) -> bool)
    requires StrictWeakOrder(lt)
    requires left + n <= a.Length
    modifies a
    ensures Sorted(lt, a[..], left, left + n)
    ensures Rearranged(old(a[..]), a[..], left, left + n)
  {
    var i: nat := 1;
    while i < n
      invariant 1 <= i && (n == 0 ==> i == 1) && (n > 0 ==> i <= n && Heap(lt, a[left..], i))
      invariant Rearranged(old(a[left..]), a[left..], 0, n) && a[..left] == old(a[..left])
    {
      HeapUp(a, left, i, lt);
      i := i + 1;
    }
    i := i - 1;
    while i > 0
      invariant n == 0 ==> i == 0
      invariant n > 0 ==> i < n && Heap(lt, a[left..], i + 1) && TailAbove(lt, a[left..], i + 1, n)
      invariant Rearranged(old(a[left..]), a[left..], 0, n) && a[..left] == old(a[..left])
    {
      MoveRootOut(a, left, i, n, lt);
      i := i - 1;
    }
    TailRearranged(old(a[..]), a[..], left, n);
    forall j, k | left <= j < k < left + n
      ensures Le(lt, a[j], a[k])
    {
      assert Le(lt, a[left..][j - left], a[left..][k - left]);
    }
  }

  /** One step of the second loop of hsort_st. */
  method MoveRootOut<T(!new)>(a: array<T>, left: nat, i: nat, n: nat, lt: (T, T) -> bool)
    requires StrictWeakOrder(lt)
    requires 0 < i < n && left + n <= a.Length
    requires Heap(lt, a[left..], i + 1) && TailAbove(lt, a[left..], i + 1, n)
    modifies a
    ensures Heap(lt, a[left..], i) && TailAbove(lt, a[left..], i, n)
    ensures Rearranged(old(a[left..]), a[left..], 0, n) && a[..left] == old(a[..left])
  {
    ghost var was := a[left..];
    ExtractRoot(lt, was, i, n);
    a[left], a[left + i] := a[left + i], a[left];
    ghost var mid := a[left..];
    SwapRearranges(was, 0, i);
    assert mid == Swapped(was, 0, i);
    HeapDown(a, left, i, 0, lt);
    TailStays(lt, mid, a[left..], i, n);
  }

  lemma TailRearranged<T>(s: seq<T>, t: seq<T>, left: nat, n: nat)
    requires left + n <= |s| == |t|
    requires Rearranged(s[left..], t[left..], 0, n) && s[..left] == t[..left]
    ensures Rearranged(s, t, left, left + n)
  {
    assert s == s[..left] + s[left..] && t == t[..left] + t[left..];
    forall i | 0 <= i < |s| && !(left <= i < left + n)
      ensures s[i] == t[i]
    {
      if i < left { assert s[..left][i] == t[..left][i]; } else { assert s[left..][i - left] == t[left..][i - left]; }
    }
  }
}
