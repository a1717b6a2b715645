/** msort_merge of src/c7sort.hpp: merges two sorted neighbours of one array
    into another array. */
module Merge {
  import opened Order

  /** The stable merge: of equivalent heads, the left one goes first. */
  function StableMerge<T>(lt: (T, T) -> bool, a: seq<T>, b: seq<T>): (r: seq<T>)
    ensures |r| == |a| + |b|
  {
    if a == [] then b
    else if b == [] then a
    else if !lt(b[0], a[0]) then [a[0]] + StableMerge(lt, a[1..], b)
    else [b[0]] + StableMerge(lt, a, b[1..])
  }

  lemma {:induction false} MergePermutes<T>(lt: (T, T) -> bool, a: seq<T>, b: seq<T>)
    ensures multiset(StableMerge(lt, a, b)) == multiset(a) + multiset(b)
  {
    if a != [] && b != [] {
      if !lt(b[0], a[0]) {
        assert a == [a[0]] + a[1..];
        MergePermutes(lt, a[1..], b);
      } else {
        assert b == [b[0]] + b[1..];
        MergePermutes(lt, a, b[1..]);
      }
    }
  }

  lemma HeadIsLeast<T(!new)>(lt: (T, T) -> bool, x: T, s: seq<T>)
    requires StrictWeakOrder(lt) && Sorted(lt, s, 0, |s|)
    requires s == [] || Le(lt, x, s[0])
    ensures forall k :: 0 <= k < |s| ==> Le(lt, x, s[k])
  {
    forall k | 0 < k < |s|
      ensures Le(lt, x, s[k])
    {
      LeTransitive(lt, x, s[0], s[k]);
    }
  }

  lemma LeAllOfMerge<T>(lt: (T, T) -> bool, x: T, a: seq<T>, b: seq<T>)
    requires forall k :: 0 <= k < |a| ==> Le(lt, x, a[k])
    requires forall k :: 0 <= k < |b| ==> Le(lt, x, b[k])
    ensures forall k :: 0 <= k < |a| + |b| ==> Le(lt, x, StableMerge(lt, a, b)[k])
  {
    var r := StableMerge(lt, a, b);
    MergePermutes(lt, a, b);
    forall k | 0 <= k < |r|
      ensures Le(lt, x, r[k])
    {
      assert r[k] in multiset(r);
      assert r[k] in a || r[k] in b;
    }
  }

  lemma {:induction false} MergeSorted<T(!new)>(lt: (T, T) -> bool, a: seq<T>, b: seq<T>)
    requires StrictWeakOrder(lt) && Sorted(lt, a, 0, |a|) && Sorted(lt, b, 0, |b|)
    ensures Sorted(lt, StableMerge(lt, a, b), 0, |a| + |b|)
  {
    if a != [] && b != [] {
      LtImpliesLe(lt, a[0], a[0]);
      LtImpliesLe(lt, b[0], b[0]);
      if !lt(b[0], a[0]) {
        HeadIsLeast(lt, a[0], a);
        HeadIsLeast(lt, a[0], b);
        LeAllOfMerge(lt, a[0], a[1..], b);
        MergeSorted(lt, a[1..], b);
      } else {
        LtImpliesLe(lt, b[0], a[0]);
        HeadIsLeast(lt, b[0], a);
        HeadIsLeast(lt, b[0], b);
        LeAllOfMerge(lt, b[0], a, b[1..]);
        MergeSorted(lt, a, b[1..]);
      }
    }
  }

  // ---- equivalent elements ----

  ghost predicate Tied<T>(lt: (T, T) -> bool, a: seq<T>, b: seq<T>) {
    exists i, j :: 0 <= i < |a| && 0 <= j < |b| && Equivalent(lt, a[i], b[j])
  }

  /** No element of a is one of b, so that their order can be told from the merge. */
  ghost predicate Apart<T>(a: seq<T>, b: seq<T>) {
    forall i, j :: 0 <= i < |a| && 0 <= j < |b| ==> a[i] != b[j]
  }

  /** What is below the head of a sorted sequence is below all of it. */
  lemma BelowAll<T(!new)>(lt: (T, T) -> bool, x: T, s: seq<T>)
    requires StrictWeakOrder(lt) && Sorted(lt, s, 0, |s|) && s != [] && lt(x, s[0])
    ensures forall k :: 0 <= k < |s| ==> lt(x, s[k])
  {
    forall k | 0 < k < |s|
      ensures lt(x, s[k])
    {
      assert Le(lt, s[0], s[k]);
      assert OrderLaws(lt, s[k], x, s[0]) && OrderLaws(lt, x, s[0], s[k]) && OrderLaws(lt, x, s[k], s[0]);
    }
  }

  lemma TiedLater<T(!new)>(lt: (T, T) -> bool, a: seq<T>, b: seq<T>)
    requires StrictWeakOrder(lt) && Sorted(lt, b, 0, |b|) && a != [] && b != [] && lt(a[0], b[0])
    ensures Tied(lt, a, b) <==> Tied(lt, a[1..], b)
  {
    BelowAll(lt, a[0], b);
    if Tied(lt, a, b) {
      var i, j :| 0 <= i < |a| && 0 <= j < |b| && Equivalent(lt, a[i], b[j]);
      assert a[1..][i - 1] == a[i];
    }
    if Tied(lt, a[1..], b) {
      var i, j :| 0 <= i < |a| - 1 && 0 <= j < |b| && Equivalent(lt, a[1..][i], b[j]);
      assert a[i + 1] == a[1..][i];
    }
  }

  lemma TiedSwapped<T>(lt: (T, T) -> bool, a: seq<T>, b: seq<T>)
    ensures Tied(lt, a, b) <==> Tied(lt, b, a)
  {
    if Tied(lt, a, b) {
      var i, j :| 0 <= i < |a| && 0 <= j < |b| && Equivalent(lt, a[i], b[j]);
      assert Equivalent(lt, b[j], a[i]);
    }
    if Tied(lt, b, a) {
      var i, j :| 0 <= i < |b| && 0 <= j < |a| && Equivalent(lt, b[i], a[j]);
      assert Equivalent(lt, a[j], b[i]);
    }
  }

  /** msort_merge, which lets the right one of equivalent heads go first, keeps the order of
      equivalent elements exactly if there are none to be kept in order. */
  lemma {:induction false} OrderIsKept<T(!new)>(lt: (T, T) -> bool, a: seq<T>, b: seq<T>)
    requires StrictWeakOrder(lt) && Sorted(lt, a, 0, |a|) && Sorted(lt, b, 0, |b|) && Apart(a, b)
    ensures StableMerge(lt, b, a) == StableMerge(lt, a, b) <==> !Tied(lt, a, b)
    decreases |a| + |b|
  {
    if a == [] || b == [] {
      assert !Tied(lt, a, b);
    } else {
      HeadsDecide(lt, a, b);
      hide StableMerge, Tied, StrictWeakOrder;
      if lt(a[0], b[0]) {
        OrderIsKept(lt, a[1..], b);
        TiedLater(lt, a, b);
        SameTails(a[0], StableMerge(lt, a[1..], b), StableMerge(lt, b, a[1..]));
      } else if lt(b[0], a[0]) {
        OrderIsKept(lt, a, b[1..]);
        TiedLater(lt, b, a);
        TiedSwapped(lt, a, b);
        TiedSwapped(lt, a, b[1..]);
        SameTails(b[0], StableMerge(lt, a, b[1..]), StableMerge(lt, b[1..], a));
      } else {
        TiedHeads(lt, a, b);
      }
    }
  }

  lemma SameTails<T>(x: T, s: seq<T>, t: seq<T>)
    ensures [x] + s == [x] + t <==> s == t
  {
    assert ([x] + s)[1..] == s && ([x] + t)[1..] == t;
  }

  lemma TiedHeads<T>(lt: (T, T) -> bool, a: seq<T>, b: seq<T>)
    requires a != [] && b != [] && Equivalent(lt, a[0], b[0])
    ensures Tied(lt, a, b)
  {
  }

  /** Both merges start with the same head, unless the heads are equivalent. */
  lemma HeadsDecide<T(!new)>(lt: (T, T) -> bool, a: seq<T>, b: seq<T>)
    requires StrictWeakOrder(lt) && a != [] && b != []
    ensures lt(a[0], b[0]) ==> (
      && StableMerge(lt, a, b) == [a[0]] + StableMerge(lt, a[1..], b)
      && StableMerge(lt, b, a) == [a[0]] + StableMerge(lt, b, a[1..]))
    ensures lt(b[0], a[0]) ==> (
      && StableMerge(lt, a, b) == [b[0]] + StableMerge(lt, a, b[1..])
      && StableMerge(lt, b, a) == [b[0]] + StableMerge(lt, b[1..], a))
    ensures Equivalent(lt, a[0], b[0]) ==> StableMerge(lt, a, b)[0] == a[0] && StableMerge(lt, b, a)[0] == b[0]
  {
    assert OrderLaws(lt, a[0], b[0], a[0]);
  }

  /** Two records with equal keys that msort_merge puts the other way round. */
  lemma OrderIsLost()
    ensures var lt := (x: (int, int), y: (int, int)) => x.0 < y.0;
            && StrictWeakOrder(lt)
            && StableMerge(lt, [(7, 1)], [(7, 2)]) == [(7, 1), (7, 2)]
            && StableMerge(lt, [(7, 2)], [(7, 1)]) == [(7, 2), (7, 1)]
  {
  }

  // ---- merging in memory ----

  /** t holds the sorted elements of s[lo..hi] at lo..hi-1 and is u elsewhere. */
  ghost predicate SortedInto<T>(lt: (T, T) -> bool, s: seq<T>, u: seq<T>, t: seq<T>, lo: int, hi: int)
    requires 0 <= lo <= hi <= |s| && |s| == |u|
  {
    SameOutside(u, t, lo, hi) && Sorted(lt, t, lo, hi) && multiset(t[lo..hi]) == multiset(s[lo..hi])
  }

  /** u with r written over it from o on. */
  function Overwrite<T>(u: seq<T>, o: nat, r: seq<T>): (t: seq<T>)
    requires o + |r| <= |u|
    ensures |t| == |u|
  {
    u[..o] + r + u[o + |r|..]
  }

  lemma OverwriteNext<T>(u: seq<T>, o: nat, r: seq<T>, x: T)
    requires o + |r| < |u|
    ensures Overwrite(u, o, r)[o + |r| := x] == Overwrite(u, o, r + [x])
  {
  }

  lemma OverwriteTwice<T>(u: seq<T>, o: nat, r: seq<T>, r': seq<T>)
    requires o + |r| + |r'| <= |u|
    ensures Overwrite(Overwrite(u, o, r), o + |r|, r') == Overwrite(u, o, r + r')
  {
  }

  lemma OverwriteIsLocal<T>(u: seq<T>, o: nat, r: seq<T>)
    requires o + |r| <= |u|
    ensures SameOutside(u, Overwrite(u, o, r), o, o + |r|)
    ensures Overwrite(u, o, r)[o..o + |r|] == r
  {
  }

  lemma OverwriteSorted<T>(lt: (T, T) -> bool, u: seq<T>, o: nat, r: seq<T>)
    requires o + |r| <= |u| && Sorted(lt, r, 0, |r|)
    ensures Sorted(lt, Overwrite(u, o, r), o, o + |r|)
  {
    var t := Overwrite(u, o, r);
    forall i, j | o <= i < j < o + |r|
      ensures Le(lt, t[i], t[j])
    {
      assert t[i] == r[i - o] && t[j] == r[j - o];
    }
  }

  lemma HalfSorted<T>(lt: (T, T) -> bool, s: seq<T>, lo: nat, hi: nat)
    requires lo <= hi <= |s| && Sorted(lt, s, lo, hi)
    ensures Sorted(lt, s[lo..hi], 0, hi - lo)
  {
  }

  /** What msort_merge writes: a stable merge for which the right half is the left one. */
  lemma MergedInto<T(!new)>(lt: (T, T) -> bool, s: seq<T>, u: seq<T>, b: nat, m: nat, e: nat)
    requires StrictWeakOrder(lt) && b <= m <= e <= |s| == |u|
    requires Sorted(lt, s, b, m) && Sorted(lt, s, m, e)
    ensures SortedInto(lt, s, u, Overwrite(u, b, StableMerge(lt, s[m..e], s[b..m])), b, e)
  {
    hide StableMerge, StrictWeakOrder, Sorted, SameOutside, Overwrite;
    var r := StableMerge(lt, s[m..e], s[b..m]);
    HalfSorted(lt, s, b, m);
    HalfSorted(lt, s, m, e);
    MergeSorted(lt, s[m..e], s[b..m]);
    MergePermutes(lt, s[m..e], s[b..m]);
    OverwriteIsLocal(u, b, r);
    OverwriteSorted(lt, u, b, r);
    assert s[b..e] == s[b..m] + s[m..e];
  }

  method PutNext<T>(out: array<T>, o: nat, x: T, ghost u: seq<T>, ghost off: nat, ghost r: seq<T>)
    requires o == off + |r| < out.Length == |u| && out[..] == Overwrite(u, off, r)
    modifies out
    ensures out[..] == Overwrite(u, off, r + [x])
  {
    OverwriteNext(u, off, r, x);
    ghost var t := out[..];
    out[o] := x;
    assert out[..] == t[o := x];
  }

  /** The last loop of msort_merge: copies inp[p..ep] to out, from o on. */
  method CopyRun<T>(out: array<T>, o0: nat, inp: array<T>, p0: nat, ep: nat)
    requires out != inp && p0 <= ep <= inp.Length && o0 + (ep - p0) <= out.Length
    modifies out
    ensures out[..] == Overwrite(old(out[..]), o0, inp[p0..ep])
  {
    var o, p := o0, p0;
    while p < ep
      invariant p0 <= p <= ep && o == o0 + (p - p0)
      invariant out[..] == Overwrite(old(out[..]), o0, inp[p0..p])
    {
      OverwriteNext(old(out[..]), o0, inp[p0..p], inp[p]);
      ghost var t := out[..];
      out[o] := inp[p];
      assert out[..] == t[o := inp[p]];
      assert inp[p0..p + 1] == inp[p0..p] + [inp[p]];
      o, p := o + 1, p + 1;
    }
  }

  /** r has been written, and what is left of the runs a and b makes up the merge. */
  ghost predicate Merging<T>(lt: (T, T) -> bool, r: seq<T>, a: seq<T>, b: seq<T>, i: nat, j: nat) {
    && i <= |a| && j <= |b| && |r| == i + j
    && r + StableMerge(lt, b[j..], a[i..]) == StableMerge(lt, b, a)
  }

  lemma MergingStarts<T>(lt: (T, T) -> bool, a: seq<T>, b: seq<T>)
    ensures Merging(lt, [], a, b, 0, 0)
  {
    assert a[0..] == a && b[0..] == b;
  }

  lemma TakeLeft<T>(lt: (T, T) -> bool, r: seq<T>, a: seq<T>, b: seq<T>, i: nat, j: nat)
    requires Merging(lt, r, a, b, i, j) && i < |a| && j < |b| && lt(a[i], b[j])
    ensures Merging(lt, r + [a[i]], a, b, i + 1, j)
  {
    assert a[i..][1..] == a[i + 1..];
    assert StableMerge(lt, b[j..], a[i..]) == [a[i]] + StableMerge(lt, b[j..], a[i + 1..]);
  }

  lemma TakeRight<T>(lt: (T, T) -> bool, r: seq<T>, a: seq<T>, b: seq<T>, i: nat, j: nat)
    requires Merging(lt, r, a, b, i, j) && j < |b| && (i < |a| ==> !lt(a[i], b[j]))
    ensures Merging(lt, r + [b[j]], a, b, i, j + 1)
  {
    assert b[j..][1..] == b[j + 1..];
    assert StableMerge(lt, b[j..], a[i..]) == [b[j]] + StableMerge(lt, b[j + 1..], a[i..]);
  }

  lemma MergingEnds<T>(lt: (T, T) -> bool, r: seq<T>, a: seq<T>, b: seq<T>, i: nat, j: nat)
    requires Merging(lt, r, a, b, i, j)
    ensures i == |a| ==> r + b[j..] == StableMerge(lt, b, a)
    ensures j == |b| ==> r + a[i..] == StableMerge(lt, b, a)
  {
  }

  /** One turn of the first loop of msort_merge: moves the lesser head to out[o]. */
  method MergeOne<T(!new)>(out: array<T>, inp: array<T>, lt: (T, T) -> bool, o: nat, p: nat, q: nat,
                           ghost off: nat, ghost m: nat, ghost e: nat, ghost u: seq<T>, ghost r: seq<T>)
    returns (tookLeft: bool, ghost r': seq<T>)
    requires StrictWeakOrder(lt)
    requires out != inp && off <= p <= m <= q < e <= inp.Length && (p < m || p == q)
    requires o == off + |r| < |u|
    requires Merging(lt, r, inp[off..m], inp[m..e], p - off, q - m)
    requires out[..] == Overwrite(u, off, r)
    modifies out
    ensures r' == r + [inp[if tookLeft then p else q]] && (tookLeft ==> p < m)
    ensures Merging(lt, r', inp[off..m], inp[m..e], if tookLeft then p + 1 - off else p - off,
                    if tookLeft then q - m else q + 1 - m)
    ensures out[..] == Overwrite(u, off, r')
  {
    hide Merging, Overwrite;
    ghost var a, b := inp[off..m], inp[m..e];
    assert OrderLaws(lt, inp[p], inp[p], inp[p]);
    assert b[q - m] == inp[q] && (p < m ==> a[p - off] == inp[p]);
    tookLeft := lt(inp[p], inp[q]);
    if tookLeft {
      TakeLeft(lt, r, a, b, p - off, q - m);
      PutNext(out, o, inp[p], u, off, r);
    } else {
      TakeRight(lt, r, a, b, p - off, q - m);
      PutNext(out, o, inp[q], u, off, r);
    }
    r' := r + [inp[if tookLeft then p else q]];
    assert inp[off..m] == a && inp[m..e] == b;
  }

  /** The first loop of msort_merge: merges until one of the runs inp[off..m] and inp[m..e]
      is used up.  r is then written, and inp[p..ep] is still to be copied. */
  method MergeHeads<T(!new)>(out: array<T>, inp: array<T>, off: nat, m: nat, e: nat, lt: (T, T) -> bool)
    returns (o: nat, p: nat, ep: nat, ghost r: seq<T>)
    requires StrictWeakOrder(lt)
    requires out != inp && out.Length == inp.Length
    requires off <= m < e <= inp.Length && (off < m || e == m + 1)
    modifies out
    ensures p <= ep <= e && o == off + |r| && o + (ep - p) == e
    ensures out[..] == Overwrite(old(out[..]), off, r)
    ensures r + inp[p..ep] == StableMerge(lt, inp[m..e], inp[off..m])
  {
    hide Merging, Overwrite, StrictWeakOrder, StableMerge;
    var q: nat := m;
    o, p, ep, r := off, off, m, [];
    ghost var a, b, u := inp[off..m], inp[m..e], out[..];
    ghost var merged := StableMerge(lt, b, a);
    MergingStarts(lt, a, b);
    OverwriteNothing(u, off);
    while true
      invariant off <= p <= m == ep <= q < e && (p < m || e == m + 1)
      invariant o == off + |r| && |r| == (p - off) + (q - m)
      invariant inp[off..m] == a && inp[m..e] == b && out[..] == Overwrite(u, off, r)
      invariant Merging(lt, r, a, b, p - off, q - m)
      decreases m - p + e - q
    {
      var tookLeft;
      tookLeft, r := MergeOne(out, inp, lt, o, p, q, off, m, e, u, r);
      o := o + 1;
      if tookLeft {
        p := p + 1;
        if p == ep {
          MergingEnds(lt, r, a, b, p - off, q - m);
          assert inp[q..e] == b[q - m..];
          p, ep := q, e;
          break;
        }
      } else {
        q := q + 1;
        if q == e {
          MergingEnds(lt, r, a, b, p - off, q - m);
          assert inp[p..m] == a[p - off..];
          break;
        }
      }
    }
    assert r + inp[p..ep] == merged;
  }

  lemma OverwriteNothing<T>(u: seq<T>, o: nat)
    requires o <= |u|
    ensures Overwrite(u, o, []) == u
  {
  }

  /** The halves are inp[off..off + n / 2] and inp[off + n / 2..off + n]; with n == 1 the
      left half is empty and both heads are the same element. */
  method MergeHalves<T(!new)>(out: array<T>, inp: array<T>, off: nat, n: nat, lt: (T, T) -> bool)
    requires StrictWeakOrder(lt)
    requires out != inp && out.Length == inp.Length
    requires 1 <= n && off + n <= inp.Length
    requires Sorted(lt, inp[..], off, off + n / 2) && Sorted(lt, inp[..], off + n / 2, off + n)
    modifies out
    ensures out[..] == Overwrite(old(out[..]), off,
                                 StableMerge(lt, inp[off + n / 2..off + n], inp[off..off + n / 2]))
    ensures SortedInto(lt, inp[..], old(out[..]), out[..], off, off + n)
  {
    hide SortedInto, Sorted, StableMerge, StrictWeakOrder, Overwrite;
    ghost var m, s, u := off + n / 2, inp[..], out[..];
    ghost var a, b := inp[off..m], inp[m..off + n];
    assert a == s[off..m] && b == s[m..off + n];
    var o, p, ep, r := MergeHeads(out, inp, off, off + n / 2, off + n, lt);
    ghost var rest := inp[p..ep];
    CopyRun(out, o, inp, p, ep);
    OverwriteTwice(u, off, r, rest);
    MergedInto(lt, s, u, off, m, off + n);
    assert inp[off..m] == a && inp[m..off + n] == b && inp[..] == s;
  }
}
