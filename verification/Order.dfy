/** Strict weak orders, sorted segments and rearrangements: the vocabulary in
    which every sort of this project states what it does to an array. */
module Order {

  predicate Equivalent<T>(lt: (T, T) -> bool, x: T, y: T) {
    !lt(x, y) && !lt(y, x)
  }

  /** Irreflexivity, transitivity and transitivity of equivalence, at x, y, z. */
  predicate OrderLaws<T>(lt: (T, T) -> bool, x: T, y: T, z: T) {
    && !lt(x, x)
    && (lt(x, y) && lt(y, z) ==> lt(x, z))
    && (Equivalent(lt, x, y) && Equivalent(lt, y, z) ==> Equivalent(lt, x, z))
  }

  /** What the callers of the sorts must pass as `lessthan`. */
  ghost predicate StrictWeakOrder<T(!new)>(lt: (T, T) -> bool) {
    forall x, y, z :: OrderLaws(lt, x, y, z)
  }

  /** "x may stand before y". */
  predicate Le<T>(lt: (T, T) -> bool, x: T, y: T) {
    !lt(y, x)
  }

  lemma LtImpliesLe<T(!new)>(lt: (T, T) -> bool, x: T, y: T)
    requires StrictWeakOrder(lt)
    requires lt(x, y) || x == y
    ensures Le(lt, x, y)
  {
    assert OrderLaws(lt, x, y, x);
  }

  lemma LeTransitive<T(!new)>(lt: (T, T) -> bool, x: T, y: T, z: T)
    requires StrictWeakOrder(lt)
    requires Le(lt, x, y) && Le(lt, y, z)
    ensures Le(lt, x, z)
  {
    assert OrderLaws(lt, x, y, z);
    assert OrderLaws(lt, z, x, y);
    assert OrderLaws(lt, y, z, x);
  }

  /** Indices lo..hi-1 of s are in ascending order. */
  ghost predicate Sorted<T>(lt: (T, T) -> bool, s: seq<T>, lo: int, hi: int)
    requires 0 <= lo && hi <= |s|
  {
    forall i, j :: lo <= i < j < hi ==> Le(lt, s[i], s[j])
  }

  ghost predicate SameOutside<T>(s: seq<T>, t: seq<T>, lo: int, hi: int) {
    && |s| == |t|
    && forall i :: 0 <= i < |s| && !(lo <= i < hi) ==> s[i] == t[i]
  }

  /** t is s with the elements at lo..hi-1 permuted. */
  ghost predicate Rearranged<T>(s: seq<T>, t: seq<T>, lo: int, hi: int) {
    SameOutside(s, t, lo, hi) && multiset(s) == multiset(t)
  }

  function Swapped<T>(s: seq<T>, i: nat, j: nat): (r: seq<T>)
    requires i < |s| && j < |s|
    ensures |r| == |s|
  {
    s[i := s[j]][j := s[i]]
  }

  lemma SwapRearranges<T>(s: seq<T>, i: nat, j: nat)
    requires i < |s| && j < |s|
    ensures multiset(Swapped(s, i, j)) == multiset(s)
  {
  }

  lemma RearrangedSelf<T>(s: seq<T>, lo: int, hi: int)
    ensures Rearranged(s, s, lo, hi)
  {
  }

  lemma RearrangedTransitive<T>(s: seq<T>, t: seq<T>, u: seq<T>, lo: int, hi: int)
    requires Rearranged(s, t, lo, hi) && Rearranged(t, u, lo, hi)
    ensures Rearranged(s, u, lo, hi)
  {
  }

  lemma RearrangedWithin<T>(s: seq<T>, t: seq<T>, u: seq<T>, lo: int, hi: int, first: int, last: int)
    requires Rearranged(s, t, first, last) && Rearranged(t, u, lo, hi) && first <= lo && hi <= last
    ensures Rearranged(s, u, first, last)
  {
  }

  lemma RearrangedBySwap<T>(s: seq<T>, t: seq<T>, lo: int, hi: int, i: nat, j: nat)
    requires Rearranged(s, t, lo, hi) && lo <= i < hi <= |s| && lo <= j < hi
    ensures Rearranged(s, Swapped(t, i, j), lo, hi)
  {
    SwapRearranges(t, i, j);
  }

  lemma MultisetSplit<T>(s: seq<T>, lo: int, hi: int)
    requires 0 <= lo <= hi <= |s|
    ensures multiset(s) == multiset(s[..lo]) + multiset(s[lo..hi]) + multiset(s[hi..])
  {
    assert s == s[..lo] + s[lo..hi] + s[hi..];
  }

  /** A rearrangement permutes the segment it is confined to. */
  lemma RearrangedSegment<T>(s: seq<T>, t: seq<T>, lo: int, hi: int)
    requires 0 <= lo <= hi <= |s| && Rearranged(s, t, lo, hi)
    ensures multiset(s[lo..hi]) == multiset(t[lo..hi])
  {
    MultisetSplit(s, lo, hi);
    MultisetSplit(t, lo, hi);
    assert s[..lo] == t[..lo];
    assert s[hi..] == t[hi..];
    var rest := multiset(s[..lo]) + multiset(s[hi..]);
    assert multiset(s[lo..hi]) == multiset(s) - rest;
    assert multiset(t[lo..hi]) == multiset(t) - rest;
  }

  /** Taking s[p] out and putting it back in front of s[q..p] is a rearrangement. */
  lemma RotateRearranges<T>(s: seq<T>, t: seq<T>, q: int, p: int)
    requires 0 <= q <= p < |s| && SameOutside(s, t, q, p + 1)
    requires t[q] == s[p] && forall i :: q < i <= p ==> t[i] == s[i - 1]
    ensures Rearranged(s, t, q, p + 1)
  {
    assert s == s[..q] + s[q..p] + [s[p]] + s[p + 1..];
    assert t == s[..q] + [s[p]] + s[q..p] + s[p + 1..];
  }

  /** So every element found in the segment afterwards was there before. */
  lemma RearrangedOrigin<T>(s: seq<T>, t: seq<T>, lo: int, hi: int, k: int) returns (o: int)
    requires 0 <= lo <= k < hi <= |s| && Rearranged(s, t, lo, hi)
    ensures lo <= o < hi && s[o] == t[k]
  {
    RearrangedSegment(s, t, lo, hi);
    assert t[k] == t[lo..hi][k - lo];
    assert t[k] in multiset(t[lo..hi]);
    assert t[k] in s[lo..hi];
    var m :| 0 <= m < hi - lo && s[lo..hi][m] == t[k];
    o := lo + m;
  }

  /** A segment that is the same in both is sorted in both. */
  lemma SameSegment<T>(lt: (T, T) -> bool, s: seq<T>, t: seq<T>, lo: int, hi: int)
    requires 0 <= lo <= hi <= |s| == |t| && forall i :: lo <= i < hi ==> s[i] == t[i]
    requires Sorted(lt, s, lo, hi)
    ensures Sorted(lt, t, lo, hi) && s[lo..hi] == t[lo..hi]
  {
  }

  lemma SortedKept<T>(lt: (T, T) -> bool, s: seq<T>, t: seq<T>, lo: int, hi: int, first: int, last: int)
    requires 0 <= first && last <= lo && last <= |s| && Rearranged(s, t, lo, hi) && Sorted(lt, s, first, last)
    ensures |s| == |t| && Sorted(lt, t, first, last)
  {
  }
}
