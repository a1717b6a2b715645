/** Counting elements up to equivalence.  A merge that writes one of two equivalent
    elements twice loses the other one, but conserves the keys. */
module Keys {
  import opened Order

  function KeyCount<T>(lt: (T, T) -> bool, s: seq<T>, x: T): nat {
    if s == [] then 0 else (if Equivalent(lt, s[0], x) then 1 else 0) + KeyCount(lt, s[1..], x)
  }

  /** s and t have equally many elements of every class of equivalent elements. */
  ghost predicate SameKeys<T(!new)>(lt: (T, T) -> bool, s: seq<T>, t: seq<T>) {
    forall x :: KeyCount(lt, s, x) == KeyCount(lt, t, x)
  }

  /** Every element of t is an element of s. */
  ghost predicate Drawn<T>(s: seq<T>, t: seq<T>) {
    forall i :: 0 <= i < |t| ==> t[i] in s
  }

  /** Among the elements of s equivalent ones are equal. */
  ghost predicate TiesAreEqual<T>(lt: (T, T) -> bool, s: seq<T>) {
    forall i, j :: 0 <= i < |s| && 0 <= j < |s| && Equivalent(lt, s[i], s[j]) ==> s[i] == s[j]
  }

  lemma DrawnTransitive<T>(s: seq<T>, t: seq<T>, u: seq<T>)
    requires Drawn(s, t) && Drawn(t, u)
    ensures Drawn(s, u)
  {
  }

  lemma ConcatDrawn<T>(s: seq<T>, s': seq<T>, t: seq<T>, t': seq<T>)
    requires Drawn(s, t) && Drawn(s', t')
    ensures Drawn(s + s', t + t')
  {
  }

  lemma PermutationDrawn<T>(s: seq<T>, t: seq<T>)
    requires multiset(s) == multiset(t)
    ensures Drawn(s, t)
  {
    forall i | 0 <= i < |t| ensures t[i] in s {
      assert t[i] in multiset(t);
    }
  }

  lemma {:induction false} KeyCountConcat<T>(lt: (T, T) -> bool, s: seq<T>, t: seq<T>, x: T)
    ensures KeyCount(lt, s + t, x) == KeyCount(lt, s, x) + KeyCount(lt, t, x)
  {
    if s == [] {
      assert s + t == t;
    } else {
      assert (s + t)[1..] == s[1..] + t;
      KeyCountConcat(lt, s[1..], t, x);
    }
  }

  lemma KeyCountWithout<T>(lt: (T, T) -> bool, t: seq<T>, k: nat, x: T)
    requires k < |t|
    ensures KeyCount(lt, t, x) == KeyCount(lt, [t[k]], x) + KeyCount(lt, t[..k] + t[k + 1..], x)
  {
    assert t == t[..k] + ([t[k]] + t[k + 1..]);
    KeyCountConcat(lt, t[..k], [t[k]] + t[k + 1..], x);
    KeyCountConcat(lt, [t[k]], t[k + 1..], x);
    KeyCountConcat(lt, t[..k], t[k + 1..], x);
  }

  lemma PermutationOfTail<T>(s: seq<T>, t: seq<T>) returns (k: nat)
    requires s != [] && multiset(s) == multiset(t)
    ensures k < |t| && t[k] == s[0] && multiset(s[1..]) == multiset(t[..k] + t[k + 1..])
  {
    assert s[0] in multiset(t);
    k :| 0 <= k < |t| && t[k] == s[0];
    OneTakenOut(s, 0);
    OneTakenOut(t, k);
    assert s[..0] + s[1..] == s[1..];
  }

  lemma OneTakenOut<T>(s: seq<T>, k: nat)
    requires k < |s|
    ensures multiset(s) - multiset{s[k]} == multiset(s[..k] + s[k + 1..])
  {
    assert s == s[..k] + [s[k]] + s[k + 1..];
  }

  lemma {:induction false} KeyCountPermutation<T>(lt: (T, T) -> bool, s: seq<T>, t: seq<T>, x: T)
    requires multiset(s) == multiset(t)
    ensures KeyCount(lt, s, x) == KeyCount(lt, t, x)
  {
    if s == [] {
      assert |multiset(t)| == 0;
    } else {
      var k := PermutationOfTail(s, t);
      KeyCountPermutation(lt, s[1..], t[..k] + t[k + 1..], x);
      KeyCountWithout(lt, t, k, x);
    }
  }

  lemma PermutationHasSameKeys<T(!new)>(lt: (T, T) -> bool, s: seq<T>, t: seq<T>)
    requires multiset(s) == multiset(t)
    ensures SameKeys(lt, s, t)
  {
    forall x { KeyCountPermutation(lt, s, t, x); }
  }

  lemma ConcatHasSameKeys<T(!new)>(lt: (T, T) -> bool, s: seq<T>, s': seq<T>, t: seq<T>, t': seq<T>)
    requires SameKeys(lt, s, t) && SameKeys(lt, s', t')
    ensures SameKeys(lt, s + s', t + t')
  {
    forall x
      ensures KeyCount(lt, s + s', x) == KeyCount(lt, t + t', x)
    {
      KeyCountConcat(lt, s, s', x);
      KeyCountConcat(lt, t, t', x);
    }
  }

  /** Exchanging one element for an equivalent one conserves the keys. */
  lemma UpdateHasSameKeys<T(!new)>(lt: (T, T) -> bool, s: seq<T>, k: nat, y: T)
    requires StrictWeakOrder(lt) && k < |s| && Equivalent(lt, s[k], y)
    ensures SameKeys(lt, s, s[k := y])
  {
    assert s == s[..k] + ([s[k]] + s[k + 1..]);
    assert s[k := y] == s[..k] + ([y] + s[k + 1..]);
    forall x
      ensures KeyCount(lt, s, x) == KeyCount(lt, s[k := y], x)
    {
      KeyCountConcat(lt, s[..k], [s[k]] + s[k + 1..], x);
      KeyCountConcat(lt, s[..k], [y] + s[k + 1..], x);
      assert OrderLaws(lt, s[k], y, x) && OrderLaws(lt, y, s[k], x);
    }
  }

  lemma {:induction false} KeyCountIsMultiplicity<T(!new)>(lt: (T, T) -> bool, s: seq<T>, t: seq<T>, k: nat)
    requires StrictWeakOrder(lt) && TiesAreEqual(lt, s) && Drawn(s, t) && k < |s|
    ensures KeyCount(lt, t, s[k]) == multiset(t)[s[k]]
  {
    if t != [] {
      assert t == [t[0]] + t[1..];
      assert OrderLaws(lt, s[k], s[k], s[k]);
      var i :| 0 <= i < |s| && s[i] == t[0];
      assert Equivalent(lt, s[i], s[k]) <==> s[i] == s[k];
      KeyCountIsMultiplicity(lt, s, t[1..], k);
    }
  }

  /** If only elements of s were used and none of them can be taken for another, the same keys
      are the same elements. */
  lemma SameKeysArePermutation<T(!new)>(lt: (T, T) -> bool, s: seq<T>, t: seq<T>)
    requires StrictWeakOrder(lt) && TiesAreEqual(lt, s) && Drawn(s, t) && SameKeys(lt, s, t)
    ensures multiset(s) == multiset(t)
  {
    forall x: T
      ensures multiset(s)[x] == multiset(t)[x]
    {
      if x in s {
        var k :| 0 <= k < |s| && s[k] == x;
        KeyCountIsMultiplicity(lt, s, s, k);
        KeyCountIsMultiplicity(lt, s, t, k);
      } else {
        assert x !in t;
      }
    }
  }
}
