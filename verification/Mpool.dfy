/** The strategies of src/c7mpool.hpp with their linked free list.  Each method is one critical
    section; it takes the pool from one state of PoolState to the next. */
module Mpool {
  import opened PoolState

  /** The union at the front of an item. */
  datatype Link<T(0)> = Unset | ToPool(pool: Strategy<T>) | ToNext(next: Item?<T>)

  class Item<T(0)> {
    ghost const number: nat
    var link: Link<T>
    var data: T

    constructor (ghost number: nat)
      ensures this.number == number
    {
      this.number := number;
      link := Unset;
      data := *;
    }
  }

  class Strategy<T(0)> {
    const chunkSize: nat
    const chunkLimit: nat
    const waitable: bool
    var free: Item?<T>
    var attached: bool
    var lending: nat
    var chunks: seq<seq<Item<T>>>
    ghost var items: seq<Item<T>>     // all items by their numbers
    ghost var state: Pool

    /** The free list runs through the free items in order and ends with null. */
    ghost predicate Linked(from: Item?<T>, numbers: seq<nat>)
      reads `items, items
    {
      && (forall k :: 0 <= k < |numbers| ==> numbers[k] < |items|)
      && from == ItemAt(numbers, 0)
      && forall k :: 0 <= k < |numbers| ==> items[numbers[k]].link == ToNext(ItemAt(numbers, k + 1))
    }

    ghost function ItemAt(numbers: seq<nat>, k: nat): Item?<T>
      requires forall i :: 0 <= i < |numbers| ==> numbers[i] < |items|
      reads `items
    {
      if k < |numbers| then items[numbers[k]] else null
    }

    ghost predicate Represents(p: Pool)
      reads `free, `attached, `lending, `chunks, `items, items
    {
      RepresentsFrom(p, free)
    }

    /** The same with the free list found at from, wherever free points. */
    ghost predicate RepresentsFrom(p: Pool, from: Item?<T>)
      reads `attached, `lending, `chunks, `items, items
    {
      && p.chunkSize == chunkSize && p.limit == chunkLimit && p.waitable == waitable
      && p.chunks == |chunks| && p.count == |items| && p.lending == lending && p.attached == attached
      && (forall i :: 0 <= i < |items| ==> items[i].number == i)
      && Linked(from, p.free)
      && forall n :: n in p.lent ==> n < |items| && items[n].link == ToPool(this)
    }

    ghost predicate Valid()
      reads this, items
    {
      Inv(state) && Represents(state)
    }

    constructor (chunkSize: nat, chunkLimit: nat, waitable: bool)
      requires chunkSize > 0
      ensures Valid() && Init(state) && items == []
      ensures this.chunkSize == chunkSize && this.chunkLimit == chunkLimit && this.waitable == waitable
    {
      this.chunkSize, this.chunkLimit, this.waitable := chunkSize, chunkLimit, waitable;
      free, attached, lending, chunks, items := null, true, 0, [], [];
      state := Pool(chunkSize, chunkLimit, waitable, 0, 0, [], {}, 0, 0, 0, true, 0);
    }

    /** Takes s off the front of the free list and makes it point to its pool. */
    method Lend(s: Item<T>, ghost p: Pool)
      requires Partition(p) && p.free != [] && RepresentsFrom(p, s)
      modifies `free, s`link
      ensures Represents(Take(p)) && s.link == ToPool(this)
      ensures s in items && s.number == p.free[0] && s.number !in p.lent
    {
      assert s == items[p.free[0]];
      free := s.link.next;
      s.link := ToPool(this);
    }

    /** alloc of either strategy. */
    method Alloc(ghost p: Pool) returns (s: Item?<T>)
      requires Partition(p) && p.free == [] && p.chunkSize > 0 && RepresentsFrom(p, null)
      requires waitable ==> |chunks| <= chunkLimit
      modifies `chunks, `items
      ensures old(items) <= items && forall i :: |old(items)| <= i < |items| ==> fresh(items[i])
      ensures if p.MayAllocate() then s != null && fresh(s) && RepresentsFrom(Grow(p), s)
              else s == null && items == old(items) && chunks == old(chunks)
      ensures s == null <==> waitable && |old(chunks)| == chunkLimit
      ensures |chunks| == if s == null then |old(chunks)| else |old(chunks)| + 1
    {
      if waitable && |chunks| == chunkLimit { return null; }
      var chunk := MakeChunk(chunkSize, |items|);
      chunks := chunks + [chunk];
      items := items + chunk;
      Grown(p, chunk);
      s := chunk[0];
    }

    lemma Grown(p: Pool, chunk: seq<Item<T>>)
      requires p.chunkSize == chunkSize == |chunk| > 0 && p.limit == chunkLimit && p.waitable == waitable
      requires p.chunks + 1 == |chunks| && p.lending == lending && p.attached == attached
      requires p.free == [] && |items| == p.count + |chunk| && items[p.count..] == chunk
      requires forall i :: 0 <= i < p.count ==> items[i].number == i
      requires forall n :: n in p.lent ==> n < p.count && items[n].link == ToPool(this)
      requires Chain(chunk, p.count)
      ensures RepresentsFrom(Grow(p), chunk[0])
    {
      var q := Grow(p);
      assert q.free == seq(|chunk|, i => p.count + i);
      ChainLinked(chunk, p.count, q.free);
      forall i | p.count <= i < |items| ensures items[i].number == i {
        InChunk(p.count, chunk, i - p.count);
      }
    }

    lemma ChainLinked(chunk: seq<Item<T>>, first: nat, numbers: seq<nat>)
      requires |chunk| > 0 && first <= |items| && items[first..] == chunk && Chain(chunk, first)
      requires |numbers| == |chunk| && forall k :: 0 <= k < |numbers| ==> numbers[k] == first + k
      ensures Linked(chunk[0], numbers)
    {
      InChunk(first, chunk, 0);
      forall k | 0 <= k < |numbers| ensures items[numbers[k]].link == ToNext(ItemAt(numbers, k + 1)) {
        InChunk(first, chunk, k);
        assert numbers[k] == first + k;
        if k + 1 < |chunk| {
          InChunk(first, chunk, k + 1);
          assert numbers[k + 1] == first + k + 1;
          assert chunk[k].link == ToNext(chunk[k + 1]);
        } else {
          assert chunk[k].link == ToNext(null);
        }
      }
    }

    lemma InChunk(first: nat, chunk: seq<Item<T>>, i: nat)
      requires first <= |items| && items[first..] == chunk && i < |chunk|
      ensures items[first + i] == chunk[i]
    {
    }

    /** Items numbered from first on and linked one to the next. */
    static ghost predicate Chain(chunk: seq<Item<T>>, first: nat)
      reads chunk
    {
      forall i :: 0 <= i < |chunk| ==>
        && chunk[i].number == first + i
        && (i + 1 < |chunk| ==> chunk[i].link == ToNext(chunk[i + 1]))
        && (i + 1 == |chunk| ==> chunk[i].link == ToNext(null))
    }

    /** A chunk whose items are linked one to the next. */
    static method MakeChunk(n: nat, ghost first: nat) returns (chunk: seq<Item<T>>)
      requires n > 0
      ensures |chunk| == n && (forall i :: 0 <= i < n ==> fresh(chunk[i])) && Chain(chunk, first)
    {
      chunk := [];
      for i := 0 to n
        invariant |chunk| == i && forall j :: 0 <= j < i ==> fresh(chunk[j]) && chunk[j].number == first + j
      {
        var item := new Item<T>(first + i);
        chunk := chunk + [item];
      }
      for i := 1 to n
        invariant forall j :: 0 <= j < n ==> fresh(chunk[j]) && chunk[j].number == first + j
        invariant forall j :: 0 <= j < i - 1 ==> chunk[j].link == ToNext(chunk[j + 1])
      {
        chunk[i - 1].link := ToNext(chunk[i]);
      }
      chunk[n - 1].link := ToNext(null);
    }

    /** Puts s back in front of the free list. */
    method Return(s: Item<T>, ghost p: Pool)
      requires Partition(p) && Represents(p) && p.lending > 0
      requires s in items && s.number in p.lent
      modifies `free, `lending, s`link
      ensures Represents(Returned(p, s.number))
    {
      ghost var q := Returned(p, s.number);
      s.link := ToNext(free);
      free := s;
      lending := lending - 1;
      assert forall k :: 0 <= k < |p.free| ==> q.free[k + 1] == p.free[k];
    }

    method Back(s: Item<T>)
      requires Valid() && state.deleted == 0
      requires s in items && s.number in state.lent
      modifies this, s`link
      ensures Valid() && items == old(items) && PoolState.Back(old(state), state, s.number)
    {
      hide Partition, RepresentsFrom, Sized;
      BackInv(state, DeletedIfUnused(Returned(state, s.number)), s.number);
      Return(s, state);
      state := Returned(state, s.number);
      Kept(state, DeletedIfUnused(state));
      Shown(state);
      if lending == 0 && !attached {
        state := state.(deleted := state.deleted + 1);
      }
    }

    method Detached()
      requires Valid() && state.deleted == 0 && attached
      modifies this
      ensures Valid() && items == old(items) && Detach(old(state), state)
    {
      DetachInv(state, DeletedIfUnused(state.(attached := false)));
      attached := false;
      state := state.(attached := false);
      if lending == 0 && !attached {
        state := state.(deleted := state.deleted + 1);
      }
    }

    /** get up to the item or, with null, to the first wait. */
    method Get() returns (s: Item?<T>)
      requires Valid() && state.deleted == 0 && (attached || state.lent != {})
      modifies this, items
      ensures Valid() && PoolState.Get(old(state), state)
      ensures old(items) <= items && forall i :: |old(items)| <= i < |items| ==> fresh(items[i])
      ensures s == null <==> state.lent == old(state.lent)
      ensures s != null ==>
        s in items && s.link == ToPool(this) && s.number !in old(state.lent) && state.lent == old(state.lent) + {s.number}
      ensures s == null <==> old(free) == null && waitable && |old(chunks)| == chunkLimit
      ensures |chunks| == if s != null && old(free) == null then |old(chunks)| + 1 else |old(chunks)|
    {
      hide Partition, RepresentsFrom, Sized, Inv, PoolState.Get;
      ghost var p, q := state, state.(lending := state.lending + 1);
      Shown(p);
      AfterGetInv(p);
      InvMeans(p, q);
      CountIn(p);
      state := AfterGet(p);
      if free == null {
        s := Alloc(q);
        if s == null {
          Kept(q, state);
        } else {
          GrowInv(q);
          Lend(s, Grow(q));
        }
      } else {
        s := free;
        Lend(s, q);
      }
    }

    lemma InvMeans(p: Pool, q: Pool)
      requires Inv(p) && q.count == p.count && q.free == p.free && q.lent == p.lent
      ensures Partition(p) && Partition(q) && p.chunkSize > 0
      ensures p.waitable ==> p.chunks <= p.limit
    {
    }

    method CountIn(ghost p: Pool)
      requires Represents(p)
      modifies `lending
      ensures Represents(p.(lending := p.lending + 1))
    {
      lending := lending + 1;
    }

    lemma Shown(p: Pool)
      requires Represents(p)
      ensures p.free == [] <==> free == null
      ensures free != null ==> free in items
      ensures p.lending == lending && p.attached == attached && p.count == |items|
      ensures p.chunks == |chunks| && p.chunkSize == chunkSize && p.limit == chunkLimit && p.waitable == waitable
    {
    }

    lemma Kept(p: Pool, q: Pool)
      requires Represents(p) && q == p.(asleep := q.asleep, awake := q.awake, deleted := q.deleted)
      ensures Represents(q)
    {
    }

    /** The turn of a getter that was notified: the item or, with null, another wait. */
    method Resume() returns (s: Item?<T>)
      requires Valid() && state.deleted == 0 && state.awake > 0
      modifies this, items
      ensures Valid() && items == old(items) && PoolState.Resume(old(state), state)
      ensures s == null <==> state.lent == old(state.lent)
      ensures s != null ==>
        s in items && s.link == ToPool(this) && s.number !in old(state.lent) && state.lent == old(state.lent) + {s.number}
    {
      hide Partition, RepresentsFrom, Sized, Inv, PoolState.Resume;
      ghost var p, q := state, state.(awake := state.awake - 1);
      AfterResumeInv(p);
      InvMeans(p, q);
      Shown(p);
      Kept(p, q);
      if free == null {
        s := null;
        state := q.(asleep := q.asleep + 1);
        Kept(p, state);
      } else {
        s := free;
        state := Take(q);
        Lend(s, q);
      }
    }
  }
}
