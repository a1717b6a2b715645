/** Writers that have been granted space by reserve of src/c7mlog/reader.cpp copy their records
    into the ring at the same time, piece by piece and in any order of the bytes. */
module Interleaving {
  import opened Bytes
  import opened Numbers
  import opened Ring
  import opened Reserve

  /** One byte put at one place of the ring. */
  datatype Store = Store(at: nat, b: Byte)

  function Apply(ring: seq<Byte>, stores: seq<Store>): (r: seq<Byte>)
    requires forall i :: 0 <= i < |stores| ==> stores[i].at < |ring|
    ensures |r| == |ring|
    decreases |stores|
  {
    if stores == [] then ring
    else
      var last := stores[|stores| - 1];
      Apply(ring, stores[..|stores| - 1])[last.at := last.b]
  }

  /** What one writer stores into its grant. */
  function StoresOf(g: Grant, data: seq<Byte>, n: nat): (ws: seq<Store>)
    requires n > 0
    ensures |ws| == |data| && forall i :: 0 <= i < |ws| ==> ws[i] == Store((g.addr + i) % n, data[i])
  {
    seq(|data|, i requires 0 <= i < |data| => Store((g.addr + i) % n, data[i]))
  }

  /** What all of them store, one after the other in the order of their grants. */
  function AllStores(gs: seq<Grant>, datas: seq<seq<Byte>>, n: nat): (ws: seq<Store>)
    requires n > 0 && |gs| == |datas|
    ensures forall i :: 0 <= i < |ws| ==> ws[i].at < n
  {
    if gs == [] then []
    else
      var last := |gs| - 1;
      AllStores(gs[..last], datas[..last], n) + StoresOf(gs[last], datas[last], n)
  }

  /** The puts of the records in the order of their grants. */
  function PutAll(ring: seq<Byte>, gs: seq<Grant>, datas: seq<seq<Byte>>): (r: seq<Byte>)
    requires |ring| > 0 && |gs| == |datas|
    ensures |r| == |ring|
  {
    if gs == [] then ring
    else
      var last := |gs| - 1;
      Write(PutAll(ring, gs[..last], datas[..last]), gs[last].addr, datas[last])
  }

  // ---- one put is its stores ----

  lemma {:induction false} ApplyTwo(ring: seq<Byte>, a: seq<Store>, b: seq<Store>)
    requires forall i :: 0 <= i < |a| ==> a[i].at < |ring|
    requires forall i :: 0 <= i < |b| ==> b[i].at < |ring|
    ensures Apply(Apply(ring, a), b) == Apply(ring, a + b)
    decreases |b|
  {
    if b == [] {
      assert a + b == a;
    } else {
      ApplyTwo(ring, a, b[..|b| - 1]);
      assert (a + b)[..|a + b| - 1] == a + b[..|b| - 1];
    }
  }

  lemma {:induction false} PutIsItsStores(ring: seq<Byte>, g: Grant, data: seq<Byte>)
    requires |ring| > 0
    ensures Apply(ring, StoresOf(g, data, |ring|)) == Write(ring, g.addr, data)
    decreases |data|
  {
    if data != [] {
      var front, last, ws := data[..|data| - 1], data[|data| - 1], StoresOf(g, data, |ring|);
      PutIsItsStores(ring, g, front);
      assert ws[..|ws| - 1] == StoresOf(g, front, |ring|);
      WriteInTwo(ring, g.addr, front, [last]);
      assert front + [last] == data;
      WriteOne(Write(ring, g.addr, front), g.addr + |front|, last);
    }
  }

  lemma WriteOne(ring: seq<Byte>, addr: nat, b: Byte)
    requires |ring| > 0
    ensures Write(ring, addr, [b]) == ring[addr % |ring| := b]
  {
    assert [b][1..] == [];
    assert Write(ring[addr % |ring| := b], addr + 1, []) == ring[addr % |ring| := b];
  }

  lemma {:induction false} PutsAreTheirStores(ring: seq<Byte>, gs: seq<Grant>, datas: seq<seq<Byte>>)
    requires |ring| > 0 && |gs| == |datas|
    ensures Apply(ring, AllStores(gs, datas, |ring|)) == PutAll(ring, gs, datas)
  {
    hide Apply, Write, StoresOf;
    if gs == [] {
      assert Apply(ring, []) == ring by { ApplyNone(ring); }
    } else {
      var last := |gs| - 1;
      PutsAreTheirStores(ring, gs[..last], datas[..last]);
      ApplyTwo(ring, AllStores(gs[..last], datas[..last], |ring|), StoresOf(gs[last], datas[last], |ring|));
      PutIsItsStores(PutAll(ring, gs[..last], datas[..last]), gs[last], datas[last]);
    }
  }

  lemma ApplyNone(ring: seq<Byte>)
    ensures Apply(ring, []) == ring
  {
  }

  // ---- the order of stores at different places ----

  /** No place is given two values. */
  ghost predicate Agree(stores: seq<Store>) {
    forall i, j :: 0 <= i < |stores| && 0 <= j < |stores| && stores[i].at == stores[j].at ==> stores[i] == stores[j]
  }

  lemma {:induction false} StoredAt(ring: seq<Byte>, stores: seq<Store>, a: nat)
    requires a < |ring| && Agree(stores) && forall i :: 0 <= i < |stores| ==> stores[i].at < |ring|
    ensures forall i :: 0 <= i < |stores| && stores[i].at == a ==> Apply(ring, stores)[a] == stores[i].b
    ensures (forall i :: 0 <= i < |stores| ==> stores[i].at != a) ==> Apply(ring, stores)[a] == ring[a]
    decreases |stores|
  {
    if stores != [] {
      StoredAt(ring, stores[..|stores| - 1], a);
      var last := stores[|stores| - 1];
      if last.at != a {
        assert Apply(ring, stores)[a] == Apply(ring, stores[..|stores| - 1])[a];
      }
    }
  }

  lemma OrderDoesNotMatter(ring: seq<Byte>, stores: seq<Store>, stores': seq<Store>)
    requires forall i :: 0 <= i < |stores| ==> stores[i].at < |ring|
    requires multiset(stores) == multiset(stores') && Agree(stores)
    ensures forall i :: 0 <= i < |stores'| ==> stores'[i].at < |ring|
    ensures Apply(ring, stores') == Apply(ring, stores)
  {
    hide Apply;
    SameStores(stores, stores');
    SameStores(stores', stores);
    forall a | 0 <= a < |ring|
      ensures Apply(ring, stores')[a] == Apply(ring, stores)[a]
    {
      StoredAt(ring, stores, a);
      StoredAt(ring, stores', a);
      if i :| 0 <= i < |stores| && stores[i].at == a {
        assert stores[i] in stores';
      }
    }
  }

  lemma SameStores(stores: seq<Store>, stores': seq<Store>)
    requires multiset(stores) == multiset(stores')
    ensures forall i :: 0 <= i < |stores'| ==> stores'[i] in stores
  {
    forall i | 0 <= i < |stores'|
      ensures stores'[i] in stores
    {
      assert stores'[i] in multiset(stores');
    }
  }

  // ---- puts at the same time ----

  /** The records fill the grants i..j-1. */
  predicate Filling(s: State, i: nat, j: nat, datas: seq<seq<Byte>>) {
    && i <= j <= |s.grants| && |datas| == j - i
    && forall k :: 0 <= k < |datas| ==> |datas[k]| == s.grants[i + k].size
  }

  /** From the start of the first to the end of the last grant there is at most one lap. */
  predicate InOneLap(s: State, i: nat, j: nat)
    requires i <= j <= |s.grants|
  {
    i < j ==> s.grants[j - 1].begin + s.grants[j - 1].size - s.grants[i].begin <= s.ringSize
  }

  lemma {:induction false} StoresOnTheLine(s: State, i: nat, j: nat, datas: seq<seq<Byte>>)
    requires Inv(s) && Filling(s, i, j, datas)
    ensures var ws := AllStores(s.grants[i..j], datas, s.ringSize);
      if i == j then ws == []
      else
        && |ws| == s.grants[j - 1].begin + s.grants[j - 1].size - s.grants[i].begin
        && forall m :: 0 <= m < |ws| ==> ws[m].at == (s.grants[i].begin + m) % s.ringSize
    decreases j - i
  {
    hide Inv, Consecutive, StoresOf;
    if i < j {
      var gs, n, last := s.grants[i..j], s.ringSize, j - 1 - i;
      SliceEnds(s.grants, i, j);
      StoresOnTheLine(s, i, j - 1, datas[..last]);
      GrantIsPlaced(s, j - 1);
      StartsWhereLastEnds(s, i, j - 1);
      var before := s.grants[j - 1].begin - s.grants[i].begin;
      StoresOfGrant(s.grants[j - 1], datas[last], s.grants[i].begin, before, n);
      StoresBehind(AllStores(gs[..last], datas[..last], n), StoresOf(gs[last], datas[last], n), s.grants[i].begin, n);
    }
  }

  lemma SliceEnds<T>(s: seq<T>, i: nat, j: nat)
    requires i < j <= |s|
    ensures s[i..j][..j - 1 - i] == s[i..j - 1] && s[i..j][j - 1 - i] == s[j - 1]
  {
  }

  lemma StoresOfGrant(g: Grant, data: seq<Byte>, begin: nat, before: nat, n: nat)
    requires n > 0 && g.begin == begin + before && g.addr % n == g.begin % n
    ensures forall m :: 0 <= m < |data| ==> StoresOf(g, data, n)[m].at == (begin + (before + m)) % n
  {
    var ws := StoresOf(g, data, n);
    forall m | 0 <= m < |data|
      ensures ws[m].at == (begin + (before + m)) % n
    {
      SameRemainder(g.addr, g.begin, m, n);
      assert g.begin + m == begin + (before + m);
    }
  }

  lemma StartsWhereLastEnds(s: State, i: nat, j: nat)
    requires Inv(s) && i <= j < |s.grants|
    ensures if i == j then s.grants[j].begin == s.grants[i].begin
            else s.grants[j].begin == s.grants[j - 1].begin + s.grants[j - 1].size
    ensures s.grants[j].begin >= s.grants[i].begin
  {
    if i < j { GrantsInOrder(s, i, j); }
  }

  lemma StoresBehind(a: seq<Store>, b: seq<Store>, begin: nat, n: nat)
    requires n > 0
    requires forall m :: 0 <= m < |a| ==> a[m].at == (begin + m) % n
    requires forall m :: 0 <= m < |b| ==> b[m].at == (begin + (|a| + m)) % n
    ensures forall m :: 0 <= m < |a + b| ==> (a + b)[m].at == (begin + m) % n
  {
    forall m | |a| <= m < |a + b|
      ensures (a + b)[m].at == (begin + m) % n
    {
      assert (a + b)[m] == b[m - |a|];
      assert begin + (|a| + (m - |a|)) == begin + m;
    }
  }

  lemma StoresAgree(s: State, i: nat, j: nat, datas: seq<seq<Byte>>)
    requires Inv(s) && Filling(s, i, j, datas) && InOneLap(s, i, j)
    ensures Agree(AllStores(s.grants[i..j], datas, s.ringSize))
  {
    hide Inv, AllStores;
    var ws, n := AllStores(s.grants[i..j], datas, s.ringSize), s.ringSize;
    StoresOnTheLine(s, i, j, datas);
    forall k, l | 0 <= k < |ws| && 0 <= l < |ws| && ws[k].at == ws[l].at
      ensures ws[k] == ws[l]
    {
      var begin := s.grants[i].begin;
      if k < l { RemaindersDiffer(begin + l, begin + k, n); }
      if l < k { RemaindersDiffer(begin + k, begin + l, n); }
    }
  }

  /** In every run: whatever order the bytes of the records granted within one lap are stored in,
      those of different writers between each other, the ring ends up as if the records had been
      put one after the other in the order of their grants. */
  lemma PutsAtTheSameTime(run: seq<State>, at: nat, i: nat, j: nat, ring: seq<Byte>,
                          datas: seq<seq<Byte>>, stores: seq<Store>)
    requires Run(run) && at < |run| && |ring| == run[at].ringSize
    requires Filling(run[at], i, j, datas) && InOneLap(run[at], i, j)
    requires multiset(stores) == multiset(AllStores(run[at].grants[i..j], datas, |ring|))
    ensures forall k :: 0 <= k < |stores| ==> stores[k].at < |ring|
    ensures Apply(ring, stores) == PutAll(ring, run[at].grants[i..j], datas)
  {
    hide Run, Inv, Agree, Apply, AllStores, PutAll;
    var gs := run[at].grants[i..j];
    InvOverRuns(run, at);
    StoresAgree(run[at], i, j, datas);
    OrderDoesNotMatter(ring, AllStores(gs, datas, |ring|), stores);
    PutsAreTheirStores(ring, gs, datas);
  }
}
