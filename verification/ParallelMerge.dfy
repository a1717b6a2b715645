/** msort_merge_asc and msort_merge_dsc of src/c7sort.hpp: two threads merge the same
    two sorted halves, one from the front and one from the back. */
module ParallelMerge {
  import opened Order
  import opened Keys
  import opened Merge

  function Front<T>(s: seq<T>): seq<T>
    requires s != []
  {
    s[..|s| - 1]
  }

  function Last<T>(s: seq<T>): T
    requires s != []
  {
    s[|s| - 1]
  }

  lemma ConsLeft<T>(lt: (T, T) -> bool, x: T, a: seq<T>, b: seq<T>)
    requires b == [] || !lt(b[0], x)
    ensures StableMerge(lt, [x] + a, b) == [x] + StableMerge(lt, a, b)
  {
    assert ([x] + a)[1..] == a;
    if a == [] {
    } else if b == [] {
    }
  }

  lemma ConsRight<T>(lt: (T, T) -> bool, y: T, a: seq<T>, b: seq<T>)
    requires a == [] || lt(y, a[0])
    ensures StableMerge(lt, a, [y] + b) == [y] + StableMerge(lt, a, b)
  {
    assert ([y] + b)[1..] == b;
  }

  /** The stable merge taken apart at its end: of equivalent last elements, the right one is last. */
  function EndOfMerge<T>(lt: (T, T) -> bool, a: seq<T>, b: seq<T>): seq<T>
    requires a != [] && b != []
  {
    if !lt(Last(b), Last(a)) then StableMerge(lt, a, Front(b)) + [Last(b)]
    else StableMerge(lt, Front(a), b) + [Last(a)]
  }

  lemma {:induction false} MergeFromTheEnd<T(!new)>(lt: (T, T) -> bool, a: seq<T>, b: seq<T>)
    requires StrictWeakOrder(lt) && Sorted(lt, a, 0, |a|) && Sorted(lt, b, 0, |b|)
    requires a != [] && b != []
    ensures StableMerge(lt, a, b) == EndOfMerge(lt, a, b)
    decreases |a| + |b|
  {
    if !lt(b[0], a[0]) {
      if |a| == 1 {
        OneLeft(lt, a, b);
      } else {
        MergeFromTheEnd(lt, a[1..], b);
        LeftStep(lt, a, b);
      }
    } else {
      if |b| == 1 {
        OneRight(lt, a, b);
      } else {
        MergeFromTheEnd(lt, a, b[1..]);
        RightStep(lt, a, b);
      }
    }
  }

  lemma OneLeft<T(!new)>(lt: (T, T) -> bool, a: seq<T>, b: seq<T>)
    requires StrictWeakOrder(lt) && Sorted(lt, b, 0, |b|)
    requires |a| == 1 && b != [] && !lt(b[0], a[0])
    ensures StableMerge(lt, a, b) == EndOfMerge(lt, a, b)
  {
    var x := a[0];
    HeadIsLeast(lt, x, b);
    assert !lt(Last(b), x);
    assert StableMerge(lt, [], b) == b && StableMerge(lt, [], Front(b)) == Front(b);
    hide StableMerge, Sorted, StrictWeakOrder;
    assert a == [x] + [] && Last(a) == x && b == Front(b) + [Last(b)];
    ConsLeft(lt, x, [], b);
    ConsLeft(lt, x, [], Front(b));
  }

  lemma OneRight<T(!new)>(lt: (T, T) -> bool, a: seq<T>, b: seq<T>)
    requires StrictWeakOrder(lt) && Sorted(lt, a, 0, |a|)
    requires |b| == 1 && a != [] && lt(b[0], a[0])
    ensures StableMerge(lt, a, b) == EndOfMerge(lt, a, b)
  {
    var y, x := b[0], Last(a);
    if !lt(y, x) && |a| > 1 { LeTransitive(lt, a[0], x, y); }
    assert lt(y, x);
    assert StableMerge(lt, a, []) == a && StableMerge(lt, Front(a), []) == Front(a);
    hide StableMerge, Sorted, StrictWeakOrder;
    assert b == [y] + [] && Last(b) == y && a == Front(a) + [x];
    ConsRight(lt, y, a, []);
    ConsRight(lt, y, Front(a), []);
  }

  lemma LeftStep<T>(lt: (T, T) -> bool, a: seq<T>, b: seq<T>)
    requires |a| > 1 && b != [] && !lt(b[0], a[0])
    requires StableMerge(lt, a[1..], b) == EndOfMerge(lt, a[1..], b)
    ensures StableMerge(lt, a, b) == EndOfMerge(lt, a, b)
  {
    hide StableMerge;
    var (x, a') := (a[0], a[1..]);
    assert a == [x] + a' && Front(a) == [x] + Front(a');
    ConsLeft(lt, x, a', b);
    ConsLeft(lt, x, a', Front(b));
    ConsLeft(lt, x, Front(a'), b);
  }

  lemma RightStep<T>(lt: (T, T) -> bool, a: seq<T>, b: seq<T>)
    requires |b| > 1 && a != [] && lt(b[0], a[0])
    requires StableMerge(lt, a, b[1..]) == EndOfMerge(lt, a, b[1..])
    ensures StableMerge(lt, a, b) == EndOfMerge(lt, a, b)
  {
    hide StableMerge;
    var (y, b') := (b[0], b[1..]);
    assert b == [y] + b' && Front(b) == [y] + Front(b');
    ConsRight(lt, y, a, b');
    ConsRight(lt, y, Front(a), b');
    ConsRight(lt, y, a, Front(b'));
  }

  /** How many of a and of b are left after k steps of the descending loop from i of a and j of b. */
  function Remaining<T>(lt: (T, T) -> bool, a: seq<T>, b: seq<T>, i: nat, j: nat, k: nat): (r: (nat, nat))
    requires i <= |a| && j <= |b|
    ensures r.0 <= i && r.1 <= j
    ensures k <= i && k < j ==> r.0 + r.1 == i + j - k && r.1 > 0
    decreases k
  {
    if k == 0 || i == 0 || j == 0 then (i, j)
    else if !lt(b[j - 1], a[i - 1]) then Remaining(lt, a, b, i, j - 1, k - 1)
    else Remaining(lt, a, b, i - 1, j, k - 1)
  }

  /** The first i of a and the first j of b are what the merge has first. */
  ghost predicate MergeStartsWith<T>(lt: (T, T) -> bool, a: seq<T>, b: seq<T>, i: nat, j: nat)
    requires i <= |a| && j <= |b|
  {
    StableMerge(lt, a[..i], b[..j]) == StableMerge(lt, a, b)[..i + j]
  }

  lemma {:induction false} RemainingMerge<T(!new)>(lt: (T, T) -> bool, a: seq<T>, b: seq<T>,
                                                   i: nat, j: nat, k: nat)
    requires StrictWeakOrder(lt) && Sorted(lt, a, 0, |a|) && Sorted(lt, b, 0, |b|)
    requires i <= |a| && j <= |b| && MergeStartsWith(lt, a, b, i, j)
    ensures var (i', j') := Remaining(lt, a, b, i, j, k); MergeStartsWith(lt, a, b, i', j')
    decreases k
  {
    hide StableMerge, MergeStartsWith, Sorted, StrictWeakOrder;
    if k > 0 && i > 0 && j > 0 {
      BackStep(lt, a, b, i, j);
      if !lt(b[j - 1], a[i - 1]) {
        RemainingMerge(lt, a, b, i, j - 1, k - 1);
      } else {
        RemainingMerge(lt, a, b, i - 1, j, k - 1);
      }
    }
  }

  lemma PrefixesFromTheEnd<T(!new)>(lt: (T, T) -> bool, a: seq<T>, b: seq<T>, i: nat, j: nat)
    requires StrictWeakOrder(lt) && Sorted(lt, a, 0, |a|) && Sorted(lt, b, 0, |b|)
    requires 0 < i <= |a| && 0 < j <= |b|
    ensures StableMerge(lt, a[..i], b[..j]) ==
            if !lt(b[j - 1], a[i - 1]) then StableMerge(lt, a[..i], b[..j - 1]) + [b[j - 1]]
            else StableMerge(lt, a[..i - 1], b[..j]) + [a[i - 1]]
  {
    hide StableMerge, StrictWeakOrder;
    MergeFromTheEnd(lt, a[..i], b[..j]);
    assert Front(a[..i]) == a[..i - 1] && Front(b[..j]) == b[..j - 1];
  }

  lemma BackStep<T(!new)>(lt: (T, T) -> bool, a: seq<T>, b: seq<T>, i: nat, j: nat)
    requires StrictWeakOrder(lt) && Sorted(lt, a, 0, |a|) && Sorted(lt, b, 0, |b|)
    requires 0 < i <= |a| && 0 < j <= |b| && MergeStartsWith(lt, a, b, i, j)
    ensures var m := StableMerge(lt, a, b);
            if !lt(b[j - 1], a[i - 1])
            then MergeStartsWith(lt, a, b, i, j - 1) && m[i + j - 1] == b[j - 1]
            else MergeStartsWith(lt, a, b, i - 1, j) && m[i + j - 1] == a[i - 1]
  {
    hide StableMerge, StrictWeakOrder, Sorted;
    PrefixesFromTheEnd(lt, a, b, i, j);
    var m := StableMerge(lt, a, b);
    if !lt(b[j - 1], a[i - 1]) {
      TakeOffLast(m, i + j, StableMerge(lt, a[..i], b[..j - 1]), b[j - 1]);
    } else {
      TakeOffLast(m, i + j, StableMerge(lt, a[..i - 1], b[..j]), a[i - 1]);
    }
  }

  lemma TakeOffLast<T>(m: seq<T>, k: nat, s: seq<T>, x: T)
    requires 0 < k <= |m| && m[..k] == s + [x]
    ensures m[..k - 1] == s && m[k - 1] == x
  {
    assert m[..k][..k - 1] == m[..k - 1] && m[..k][k - 1] == m[k - 1];
  }

  /** The lengths left for the last, separate step of msort_merge_dsc. */
  function AtLastStep<T>(lt: (T, T) -> bool, a: seq<T>, b: seq<T>): (nat, nat)
    requires b != []
  {
    Remaining(lt, a, b, |a|, |b|, |b| - 1)
  }

  /** What the last step writes at position |a|. */
  function LastWritten<T>(lt: (T, T) -> bool, a: seq<T>, b: seq<T>): T
    requires b != [] && |b| - 1 <= |a|
  {
    var (i, j) := AtLastStep(lt, a, b);
    if i == 0 || lt(a[i - 1], b[j - 1]) then b[j - 1] else a[i - 1]
  }

  /** The descending thread's share of the output. */
  function DscPart<T>(lt: (T, T) -> bool, a: seq<T>, b: seq<T>): seq<T>
    requires b != [] && |b| - 1 <= |a|
  {
    [LastWritten(lt, a, b)] + StableMerge(lt, a, b)[|a| + 1..]
  }

  /** Both shares together. */
  function BothParts<T>(lt: (T, T) -> bool, a: seq<T>, b: seq<T>): seq<T>
    requires b != [] && |b| - 1 <= |a|
  {
    StableMerge(lt, a, b)[..|a|] + DscPart(lt, a, b)
  }

  /** The last step meets equivalent but different elements. */
  predicate LosesTie<T(==)>(lt: (T, T) -> bool, a: seq<T>, b: seq<T>)
    requires b != [] && |b| - 1 <= |a|
  {
    var (i, j) := AtLastStep(lt, a, b);
    i > 0 && Equivalent(lt, a[i - 1], b[j - 1]) && a[i - 1] != b[j - 1]
  }

  lemma WholeMerge<T>(lt: (T, T) -> bool, a: seq<T>, b: seq<T>)
    ensures MergeStartsWith(lt, a, b, |a|, |b|)
  {
    hide StableMerge;
    assert a[..|a|] == a && b[..|b|] == b;
  }

  lemma OnlyRightLeft<T>(lt: (T, T) -> bool, a: seq<T>, b: seq<T>, j: nat)
    requires 0 < j <= |b| && MergeStartsWith(lt, a, b, 0, j)
    ensures StableMerge(lt, a, b)[j - 1] == b[j - 1]
  {
    assert b[..j][j - 1] == StableMerge(lt, a, b)[..j][j - 1];
  }

  /** The last step writes the element that the stable merge has there, or an equivalent one. */
  lemma LastStepElement<T(!new)>(lt: (T, T) -> bool, a: seq<T>, b: seq<T>)
    requires StrictWeakOrder(lt) && Sorted(lt, a, 0, |a|) && Sorted(lt, b, 0, |b|)
    requires b != [] && |b| - 1 <= |a|
    ensures var m := StableMerge(lt, a, b);
            && Equivalent(lt, m[|a|], LastWritten(lt, a, b))
            && (m[|a|] != LastWritten(lt, a, b) <==> LosesTie(lt, a, b))
  {
    hide StableMerge, MergeStartsWith, Sorted, StrictWeakOrder, Remaining;
    var m := StableMerge(lt, a, b);
    var (i, j) := AtLastStep(lt, a, b);
    WholeMerge(lt, a, b);
    RemainingMerge(lt, a, b, |a|, |b|, |b| - 1);
    LtImpliesLe(lt, m[|a|], m[|a|]);
    if i > 0 {
      BackStep(lt, a, b, i, j);
      if lt(a[i - 1], b[j - 1]) { LtImpliesLe(lt, a[i - 1], b[j - 1]); }
    } else {
      OnlyRightLeft(lt, a, b, j);
    }
  }

  /** What both threads leave behind, for all sorted halves: it is sorted, has the keys and only
      elements of the halves, and it is a permutation of them exactly if the last step loses no
      tie. */
  lemma BothPartsResult<T(!new)>(lt: (T, T) -> bool, a: seq<T>, b: seq<T>)
    requires StrictWeakOrder(lt) && Sorted(lt, a, 0, |a|) && Sorted(lt, b, 0, |b|)
    requires b != [] && |b| - 1 <= |a|
    ensures |BothParts(lt, a, b)| == |a| + |b|
    ensures Sorted(lt, BothParts(lt, a, b), 0, |a| + |b|)
    ensures SameKeys(lt, a + b, BothParts(lt, a, b)) && Drawn(a + b, BothParts(lt, a, b))
    ensures multiset(BothParts(lt, a, b)) == multiset(a + b) <==> !LosesTie(lt, a, b)
  {
    var m, x := StableMerge(lt, a, b), LastWritten(lt, a, b);
    assert BothParts(lt, a, b) == m[|a| := x];
    LastStepElement(lt, a, b);
    MergeSorted(lt, a, b);
    MergePermutes(lt, a, b);
    LastIsDrawn(lt, a, b);
    hide StableMerge, LosesTie, LastWritten;
    PermutationDrawn(a + b, m);
    PermutationHasSameKeys(lt, a + b, m);
    UpdateHasSameKeys(lt, m, |a|, x);
    UpdateStaysSorted(lt, m, |a|, x);
    UpdateIsPermutation(m, |a|, x);
  }

  lemma LastIsDrawn<T>(lt: (T, T) -> bool, a: seq<T>, b: seq<T>)
    requires b != [] && |b| - 1 <= |a|
    ensures LastWritten(lt, a, b) in a + b
  {
    hide Remaining;
    var (i, j) := AtLastStep(lt, a, b);
    assert (a + b)[|a| + (j - 1)] == b[j - 1];
    assert i > 0 ==> (a + b)[i - 1] == a[i - 1];
  }

  lemma UpdateStaysSorted<T(!new)>(lt: (T, T) -> bool, m: seq<T>, k: nat, x: T)
    requires StrictWeakOrder(lt) && k < |m| && Sorted(lt, m, 0, |m|) && Equivalent(lt, m[k], x)
    ensures Sorted(lt, m[k := x], 0, |m|)
  {
    forall i | 0 <= i < k
      ensures Le(lt, m[i], x)
    {
      LeTransitive(lt, m[i], m[k], x);
    }
    forall j | k < j < |m|
      ensures Le(lt, x, m[j])
    {
      LeTransitive(lt, x, m[k], m[j]);
    }
  }

  lemma UpdateIsPermutation<T>(m: seq<T>, k: nat, x: T)
    requires k < |m|
    ensures multiset(m[k := x]) == multiset(m) <==> x == m[k]
  {
    assert m == m[..k] + [m[k]] + m[k + 1..] && m[k := x] == m[..k] + [x] + m[k + 1..];
    assert multiset(m)[x] == multiset(m[..k])[x] + multiset([m[k]])[x] + multiset(m[k + 1..])[x];
    assert multiset(m[k := x])[x] == multiset(m[..k])[x] + multiset([x])[x] + multiset(m[k + 1..])[x];
  }

  /** The smallest input on which the parallel merge is no permutation: two records with
      equal keys, of which the second is lost.  msort_mt gets there with n == 2, a depth of 1 and
      an mt_threshold of 2: each half is one record, and both threads merge them. */
  lemma TieIsLost()
    ensures var lt := (x: (int, int), y: (int, int)) => x.0 < y.0;
            && StrictWeakOrder(lt) && LosesTie(lt, [(7, 1)], [(7, 2)])
            && BothParts(lt, [(7, 1)], [(7, 2)]) == [(7, 1), (7, 1)]
  {
    var lt := (x: (int, int), y: (int, int)) => x.0 < y.0;
    assert AtLastStep(lt, [(7, 1)], [(7, 2)]) == (1, 1);
  }

  /** After i of a and j of b, what remains of the merge is the merge of the rests. */
  ghost predicate MergeGoesOn<T>(lt: (T, T) -> bool, a: seq<T>, b: seq<T>, i: nat, j: nat) {
    i <= |a| && j <= |b| && StableMerge(lt, a, b)[i + j..] == StableMerge(lt, a[i..], b[j..])
  }

  lemma AscStart<T>(lt: (T, T) -> bool, a: seq<T>, b: seq<T>)
    ensures MergeGoesOn(lt, a, b, 0, 0)
  {
    assert a[0..] == a && b[0..] == b;
  }

  lemma AscStep<T>(lt: (T, T) -> bool, a: seq<T>, b: seq<T>, i: nat, j: nat)
    requires MergeGoesOn(lt, a, b, i, j) && i < |a| && j < |b|
    ensures var m := StableMerge(lt, a, b);
            if !lt(b[j], a[i]) then m[i + j] == a[i] && MergeGoesOn(lt, a, b, i + 1, j)
            else m[i + j] == b[j] && MergeGoesOn(lt, a, b, i, j + 1)
    ensures StableMerge(lt, a, b)[..i + j + 1] == StableMerge(lt, a, b)[..i + j] + [StableMerge(lt, a, b)[i + j]]
  {
    var m := StableMerge(lt, a, b);
    var r := m[i + j..];
    assert r[0] == m[i + j] && r[1..] == m[i + j + 1..];
    assert a[i..][1..] == a[i + 1..] && b[j..][1..] == b[j + 1..];
  }

  /** The ascending thread: writes the first n / 2 elements of the merge. */
  method MergeAsc<T>(out: array<T>, inp: array<T>, off: nat, n: nat, lt: (T, T) -> bool)
    requires out != inp && out.Length == inp.Length && n > 0 && off + n <= inp.Length
    modifies out
    ensures var m := StableMerge(lt, inp[off..off + n / 2], inp[off + n / 2..off + n]);
            out[..] == Overwrite(old(out[..]), off, m[..n / 2])
  {
    hide StableMerge, Overwrite, MergeGoesOn;
    var h := n / 2;
    ghost var a, b, u := inp[off..off + h], inp[off + h..off + n], out[..];
    ghost var m := StableMerge(lt, a, b);
    AscStart(lt, a, b);
    OverwriteNothing(u, off, m[..0]);
    var o, eo, p, q := off, off + h, off, off + h;
    while o != eo
      invariant off <= o <= eo && off <= p && off + h <= q && (p - off) + (q - off - h) == o - off
      invariant a == inp[off..off + h] && b == inp[off + h..off + n]
      invariant MergeGoesOn(lt, a, b, p - off, q - off - h)
      invariant out[..] == Overwrite(u, off, m[..o - off])
      decreases eo - o
    {
      ghost var i, j := p - off, q - off - h;
      AscStep(lt, a, b, i, j);
      assert a[i] == inp[p] && b[j] == inp[q];
      if !lt(inp[q], inp[p]) {
        PutNext(out, o, inp[p], u, off, m[..i + j]);
        o, p := o + 1, p + 1;
      } else {
        PutNext(out, o, inp[q], u, off, m[..i + j]);
        o, q := o + 1, q + 1;
      }
    }
  }

  lemma OverwriteNothing<T>(u: seq<T>, o: nat, r: seq<T>)
    requires o <= |u| && r == []
    ensures Overwrite(u, o, r) == u
  {
  }

  method PutBefore<T>(out: array<T>, o: nat, x: T, ghost u: seq<T>, ghost r: seq<T>)
    requires o + 1 + |r| <= out.Length == |u| && out[..] == Overwrite(u, o + 1, r)
    modifies out
    ensures out[..] == Overwrite(u, o, [x] + r)
  {
    ghost var t := out[..];
    out[o] := x;
    assert out[..] == t[o := x];
  }

  /** The descending loop, k steps from its end, has i of a and j of b left. */
  ghost predicate Descending<T>(lt: (T, T) -> bool, a: seq<T>, b: seq<T>, i: nat, j: nat, k: nat) {
    && i <= |a| && j <= |b| && b != []
    && MergeStartsWith(lt, a, b, i, j)
    && Remaining(lt, a, b, i, j, k) == AtLastStep(lt, a, b)
  }

  lemma DscStart<T>(lt: (T, T) -> bool, a: seq<T>, b: seq<T>)
    requires b != []
    ensures Descending(lt, a, b, |a|, |b|, |b| - 1)
  {
    WholeMerge(lt, a, b);
  }

  lemma DscStep<T(!new)>(lt: (T, T) -> bool, a: seq<T>, b: seq<T>, i: nat, j: nat, k: nat)
    requires StrictWeakOrder(lt) && Sorted(lt, a, 0, |a|) && Sorted(lt, b, 0, |b|)
    requires Descending(lt, a, b, i, j, k) && i > 0 && j > 0 && k > 0
    ensures var m := StableMerge(lt, a, b);
            if !lt(b[j - 1], a[i - 1])
            then Descending(lt, a, b, i, j - 1, k - 1) && m[i + j - 1..] == [b[j - 1]] + m[i + j..]
            else Descending(lt, a, b, i - 1, j, k - 1) && m[i + j - 1..] == [a[i - 1]] + m[i + j..]
  {
    hide StableMerge, MergeStartsWith, Sorted, StrictWeakOrder, AtLastStep;
    BackStep(lt, a, b, i, j);
  }

  lemma DscEnd<T>(lt: (T, T) -> bool, a: seq<T>, b: seq<T>, i: nat, j: nat)
    requires Descending(lt, a, b, i, j, 0) && |b| - 1 <= |a| && i + j == |a| + 1
    ensures DscPart(lt, a, b) ==
            [if i == 0 || lt(a[i - 1], b[j - 1]) then b[j - 1] else a[i - 1]] + StableMerge(lt, a, b)[i + j..]
  {
    hide StableMerge, MergeStartsWith, AtLastStep;
    assert Remaining(lt, a, b, i, j, 0) == (i, j);
  }

  /** The descending thread: writes the rest, with a test of its own for the last step. */
  method MergeDsc<T(!new)>(out: array<T>, inp: array<T>, off: nat, n: nat, lt: (T, T) -> bool)
    requires StrictWeakOrder(lt)
    requires out != inp && out.Length == inp.Length && n > 0 && off + n <= inp.Length
    requires Sorted(lt, inp[..], off, off + n / 2) && Sorted(lt, inp[..], off + n / 2, off + n)
    modifies out
    ensures out[..] == Overwrite(old(out[..]), off + n / 2,
                                 DscPart(lt, inp[off..off + n / 2], inp[off + n / 2..off + n]))
  {
    hide StableMerge, Overwrite, Descending, DscPart, Sorted, StrictWeakOrder;
    var h := n / 2;
    ghost var a, b, u := inp[off..off + h], inp[off + h..off + n], out[..];
    ghost var m := StableMerge(lt, a, b);
    HalfSorted(lt, inp[..], off, off + h);
    HalfSorted(lt, inp[..], off + h, off + n);
    DscStart(lt, a, b);
    OverwriteNothing(u, off + n, m[n..]);
    var o, bo, p, q := off + n - 1, off + h, off + h - 1, off + n - 1;
    ghost var i, j := h, n - h;
    while o != bo
      invariant bo <= o < off + n && p == off + i - 1 && q == off + h + j - 1 && i + j == o + 1 - off
      invariant 0 <= i <= h && 0 < j <= n - h
      invariant a == inp[off..off + h] && b == inp[off + h..off + n]
      invariant Descending(lt, a, b, i, j, o - bo)
      invariant out[..] == Overwrite(u, o + 1, m[i + j..])
      decreases o - bo
    {
      DscStep(lt, a, b, i, j, o - bo);
      assert a[i - 1] == inp[p] && b[j - 1] == inp[q];
      if !lt(inp[q], inp[p]) {
        PutBefore(out, o, inp[q], u, m[i + j..]);
        o, q, j := o - 1, q - 1, j - 1;
      } else {
        PutBefore(out, o, inp[p], u, m[i + j..]);
        o, p, i := o - 1, p - 1, i - 1;
      }
    }
    DscEnd(lt, a, b, i, j);
    assert b[j - 1] == inp[q] && (i > 0 ==> a[i - 1] == inp[p]);
    var last := if p == off - 1 || lt(inp[p], inp[q]) then inp[q] else inp[p];
    PutBefore(out, o, last, u, m[i + j..]);
  }
}
