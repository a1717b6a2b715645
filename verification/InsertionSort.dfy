/** dsort of src/c7sort.hpp: the insertion sort that ends every other sort. */
module InsertionSort {
  import opened Order

  /** Sorts left..right, both inclusive; right may be left - 1 for an empty range. */
  method Dsort<T(!new)>(a: array<T>, left: int, right: int, lt: (T, T) -> bool)
    requires StrictWeakOrder(lt)
    requires 0 <= left <= right + 1 <= a.Length
    modifies a
    ensures Sorted(lt, a[..], left, right + 1)
    ensures Rearranged(old(a[..]), a[..], left, right + 1)
  {
    var p := left + 1;
    while p <= right
      invariant left + 1 <= p <= right + 1 || p == left + 1
      invariant Sorted(lt, a[..], left, if p <= right + 1 then p else right + 1)
      invariant Rearranged(old(a[..]), a[..], left, right + 1)
    {
      if lt(a[p], a[p - 1]) {
        InsertAt(a, left, p, lt);
      } else {
        forall i | left <= i < p
          ensures Le(lt, a[i], a[p])
        {
          if i < p - 1 { LeTransitive(lt, a[i], a[p - 1], a[p]); }
        }
      }
      p := p + 1;
    }
  }

  /** The inner do-while: moves a[p] down to its place among left..p-1. */
  method InsertAt<T(!new)>(a: array<T>, left: int, p: int, lt: (T, T) -> bool)
    requires StrictWeakOrder(lt)
    requires 0 <= left < p < a.Length
    requires Sorted(lt, a[..], left, p) && lt(a[p], a[p - 1])
    modifies a
    ensures Sorted(lt, a[..], left, p + 1)
    ensures Rearranged(old(a[..]), a[..], left, p + 1)
  {
    var tmp := a[p];
    ghost var was := a[..];
    var q := p;
    a[q] := a[q - 1];
    q := q - 1;
    while q > left && lt(tmp, a[q - 1])
      invariant left <= q < p
      invariant forall i :: 0 <= i < a.Length && !(q < i <= p) ==> a[i] == was[i]
      invariant forall i :: q < i <= p ==> a[i] == was[i - 1]
      invariant lt(tmp, was[q])
    {
      a[q] := a[q - 1];
      q := q - 1;
    }
    a[q] := tmp;
    RotateRearranges(was, a[..], q, p);
    InsertedSorted(lt, was, a[..], left, q, p);
  }

  /** Rotating s[p] in front of s[q..p] sorts left..p, if q is where s[p] belongs. */
  lemma InsertedSorted<T(!new)>(lt: (T, T) -> bool, s: seq<T>, t: seq<T>, left: int, q: int, p: int)
    requires StrictWeakOrder(lt)
    requires 0 <= left <= q < p < |s| == |t|
    requires Sorted(lt, s, left, p)
    requires lt(s[p], s[q]) && (q > left ==> Le(lt, s[q - 1], s[p]))
    requires forall i :: left <= i < q ==> t[i] == s[i]
    requires t[q] == s[p] && forall i :: q < i <= p ==> t[i] == s[i - 1]
    ensures Sorted(lt, t, left, p + 1)
  {
    forall i | left <= i < q
      ensures Le(lt, s[i], s[p])
    {
      if i < q - 1 { LeTransitive(lt, s[i], s[q - 1], s[p]); }
    }
    LtImpliesLe(lt, s[p], s[q]);
    forall j | q <= j < p
      ensures Le(lt, s[p], s[j])
    {
      if q < j { LeTransitive(lt, s[p], s[q], s[j]); }
    }
  }
}
