/** The state of a memory pool of src/c7mpool.hpp between its critical sections, whose steps
    any number of lenders take in any order.  Items are numbered as their chunks are made. */
module PoolState {

  datatype Pool = Pool(
    chunkSize: nat, limit: nat, waitable: bool,
    chunks: nat,
    count: nat,          // the items of all chunks
    free: seq<nat>,      // the free list
    lent: set<nat>,      // items a pointer owns
    asleep: nat,         // getters in wait
    awake: nat,          // getters notified and about to look at the free list again
    lending: nat,
    attached: bool,
    deleted: nat)        // how often the strategy has deleted itself
  {
    predicate MayAllocate() { !waitable || chunks < limit }

    /** Somebody has a reference to the strategy: its mpool, a pointer or a waiting getter. */
    predicate InUse() { attached || lent != {} || asleep + awake > 0 }
  }

  /** What mpool's constructor leaves: a strategy attached with no chunk yet. */
  ghost predicate Init(p: Pool) {
    && p.chunkSize > 0
    && p == Pool(p.chunkSize, p.limit, p.waitable, 0, 0, [], {}, 0, 0, 0, true, 0)
  }

  // ---- steps ----

  /** The item at the front of the free list goes to a pointer. */
  function Take(p: Pool): Pool
    requires p.free != []
  {
    p.(free := p.free[1..], lent := p.lent + {p.free[0]})
  }

  /** A new chunk, whose items are on the free list in order. */
  function Grow(p: Pool): Pool {
    p.(chunks := p.chunks + 1, count := p.count + p.chunkSize,
       free := p.free + seq(p.chunkSize, i => p.count + i))
  }

  /** get up to the item or to the first wait. */
  ghost predicate Get(p: Pool, p': Pool) {
    && p.deleted == 0 && (p.attached || p.lent != {})
    && var q := p.(lending := p.lending + 1);
       if p.free != [] then p' == Take(q)
       else if p.MayAllocate() then p.chunkSize > 0 && p' == Take(Grow(q))
       else p' == q.(asleep := p.asleep + 1)
  }

  /** A getter back from wait. */
  ghost predicate Resume(p: Pool, p': Pool) {
    && p.deleted == 0 && p.awake > 0
    && var q := p.(awake := p.awake - 1);
       p' == if p.free == [] then q.(asleep := p.asleep + 1) else Take(q)
  }

  function Returned(p: Pool, item: nat): Pool
    requires p.lending > 0
  {
    p.(free := [item] + p.free, lent := p.lent - {item}, lending := p.lending - 1, asleep := 0, awake := p.awake + p.asleep)
  }

  function DeletedIfUnused(p: Pool): Pool {
    if p.lending == 0 && !p.attached then p.(deleted := p.deleted + 1) else p
  }

  ghost predicate Back(p: Pool, p': Pool, item: nat) {
    && p.deleted == 0 && item in p.lent && p.lending > 0
    && p' == DeletedIfUnused(Returned(p, item))
  }

  ghost predicate Detach(p: Pool, p': Pool) {
    && p.deleted == 0 && p.attached
    && p' == DeletedIfUnused(p.(attached := false))
  }

  ghost predicate Next(p: Pool, p': Pool) {
    Get(p, p') || Resume(p, p') || Detach(p, p') || exists item :: Back(p, p', item)
  }

  // ---- invariants ----

  ghost predicate Distinct(s: seq<nat>) {
    forall i, j :: 0 <= i < j < |s| ==> s[i] != s[j]
  }

  /** Every item is either on the free list, once, or lent. */
  ghost predicate Partition(p: Pool) {
    && Distinct(p.free)
    && (forall x: nat :: x < p.count <==> x in p.free || x in p.lent)
    && (forall x: nat :: x in p.free ==> x !in p.lent)
  }

  ghost predicate Sized(p: Pool) {
    p.count == p.chunks * p.chunkSize
  }

  ghost predicate Counted(p: Pool) {
    && p.chunkSize > 0 && Sized(p)
    && p.lending == |p.lent| + p.asleep + p.awake
    && (p.waitable ==> p.chunks <= p.limit)
  }

  /** Nobody sleeps while an item is free, and getters wait only when no chunk may be added. */
  ghost predicate NoLostWakeup(p: Pool) {
    && (p.asleep > 0 ==> p.free == [])
    && (p.asleep + p.awake > 0 ==> !p.MayAllocate())
  }

  /** The strategy deletes itself once, exactly when nobody refers to it any more. */
  ghost predicate Lifetime(p: Pool) {
    p.deleted == if p.attached || p.lending > 0 then 0 else 1
  }

  ghost predicate Inv(p: Pool) {
    Partition(p) && Counted(p) && NoLostWakeup(p) && Lifetime(p)
  }

  lemma TakeInv(p: Pool)
    requires Partition(p) && p.free != []
    ensures Partition(Take(p)) && |Take(p).lent| == |p.lent| + 1
  {
    var q := Take(p);
    assert p.free[0] !in p.lent;
    assert forall x :: x in p.free <==> x == p.free[0] || x in q.free;
    assert p.free[0] !in q.free;
  }

  lemma GrowInv(p: Pool)
    requires Partition(p) && p.free == []
    ensures Partition(Grow(p))
  {
    var q := Grow(p);
    forall x: nat | p.count <= x < q.count ensures x in q.free {
      assert q.free[x - p.count] == x;
    }
  }

  lemma TakenInv(p: Pool, q: Pool)
    requires Inv(p) && q.free != [] && Partition(q) && Sized(q)
    requires q == p.(lending := p.lending + 1, chunks := q.chunks, count := q.count, free := q.free)
    requires p.deleted == 0 && (q.waitable ==> q.chunks <= q.limit)
    requires p.free == [] ==> p.MayAllocate()
    requires p.free != [] ==> q.chunks == p.chunks
    ensures Inv(Take(q))
  {
    hide Partition;
    TakeInv(q);
    SamePartition(q, q);
  }

  lemma GetInv(p: Pool, p': Pool)
    requires Inv(p) && Get(p, p')
    ensures Inv(p')
  {
    hide Partition, Sized;
    var q := p.(lending := p.lending + 1);
    SamePartition(p, q);
    if p.free != [] {
      TakenInv(p, q);
    } else if p.MayAllocate() {
      GrowInv(q);
      GrowSized(p, Grow(q));
      TakenInv(p, Grow(q));
    } else {
      SamePartition(p, p');
    }
  }

  /** The state after a get. */
  function AfterGet(p: Pool): Pool {
    var q := p.(lending := p.lending + 1);
    if p.free != [] then Take(q)
    else if p.MayAllocate() && p.chunkSize > 0 then Take(Grow(q))
    else q.(asleep := p.asleep + 1)
  }

  lemma AfterGetInv(p: Pool)
    requires Inv(p) && p.deleted == 0 && (p.attached || p.lent != {})
    ensures Get(p, AfterGet(p)) && Inv(AfterGet(p))
  {
    GetInv(p, AfterGet(p));
  }

  lemma AfterResumeInv(p: Pool)
    requires Inv(p) && p.deleted == 0 && p.awake > 0
    ensures var q := p.(awake := p.awake - 1);
      var p' := if p.free == [] then q.(asleep := q.asleep + 1) else Take(q);
      Resume(p, p') && Inv(p')
  {
    var q := p.(awake := p.awake - 1);
    ResumeInv(p, if p.free == [] then q.(asleep := q.asleep + 1) else Take(q));
  }

  lemma GrowSized(p: Pool, q: Pool)
    requires Sized(p) && q.chunkSize == p.chunkSize
    requires q.chunks == p.chunks + 1 && q.count == p.count + p.chunkSize
    ensures Sized(q)
  {
    assert (p.chunks + 1) * p.chunkSize == p.chunks * p.chunkSize + p.chunkSize;
  }

  lemma SamePartition(p: Pool, q: Pool)
    ensures p.count == q.count && p.free == q.free && p.lent == q.lent ==> Partition(p) == Partition(q)
    ensures p.count == q.count && p.chunks == q.chunks && p.chunkSize == q.chunkSize ==> Sized(p) == Sized(q)
  {
  }

  lemma ResumeInv(p: Pool, p': Pool)
    requires Inv(p) && Resume(p, p')
    ensures Inv(p')
  {
    hide Partition;
    var q := p.(awake := p.awake - 1);
    SamePartition(p, q);
    if p.free != [] { TakeInv(q); }
    SamePartition(q, p');
  }

  lemma ReturnedInv(p: Pool, item: nat)
    requires Partition(p) && item in p.lent && p.lending > 0
    ensures Partition(Returned(p, item)) && |Returned(p, item).lent| == |p.lent| - 1
  {
    var q := Returned(p, item);
    assert forall x :: x in q.free <==> x == item || x in p.free;
  }

  lemma BackInv(p: Pool, p': Pool, item: nat)
    requires Inv(p) && Back(p, p', item)
    ensures Inv(p')
  {
    hide Partition;
    ReturnedInv(p, item);
    SamePartition(Returned(p, item), p');
  }

  lemma DetachInv(p: Pool, p': Pool)
    requires Inv(p) && Detach(p, p')
    ensures Inv(p')
  {
  }

  lemma NextInv(p: Pool, p': Pool)
    requires Inv(p) && Next(p, p')
    ensures Inv(p')
  {
    hide Inv, Get, Resume, Detach, Back;
    if Get(p, p') {
      GetInv(p, p');
    } else if Resume(p, p') {
      ResumeInv(p, p');
    } else if Detach(p, p') {
      DetachInv(p, p');
    } else {
      var item :| Back(p, p', item);
      BackInv(p, p', item);
    }
  }

  // ---- runs ----

  ghost predicate Run(run: seq<Pool>) {
    && |run| > 0 && Init(run[0])
    && forall i :: 0 <= i < |run| - 1 ==> Next(run[i], run[i + 1])
  }

  lemma {:induction false} InvOverRuns(run: seq<Pool>, i: nat)
    requires Run(run) && i < |run|
    ensures Inv(run[i])
  {
    if i > 0 {
      InvOverRuns(run, i - 1);
      NextInv(run[i - 1], run[i]);
    }
  }

  lemma {:induction false} SameMakeOverRuns(run: seq<Pool>, i: nat)
    requires Run(run) && i < |run|
    ensures run[i].chunkSize == run[0].chunkSize && run[i].limit == run[0].limit && run[i].waitable == run[0].waitable
  {
    if i > 0 { SameMakeOverRuns(run, i - 1); }
  }

  lemma {:induction false} SubsetSize(s: set<nat>, n: nat)
    requires forall x :: x in s ==> x < n
    ensures |s| <= n
  {
    if n == 0 {
      assert s == {};
    } else {
      SubsetSize(s - {n - 1}, n - 1);
    }
  }

  /** A waitable pool never lends more items than its chunks may hold. */
  lemma LendsWithinLimit(run: seq<Pool>, i: nat)
    requires Run(run) && i < |run| && run[0].waitable
    ensures |run[i].lent| <= run[0].limit * run[0].chunkSize
  {
    InvOverRuns(run, i);
    SameMakeOverRuns(run, i);
    var p := run[i];
    assert forall x :: x in p.lent ==> x < p.count;
    SubsetSize(p.lent, p.count);
    assert (p.limit - p.chunks) * p.chunkSize >= 0;
  }

  /** The strategy is there as long as anybody refers to it, and is deleted by the very step
      after which nobody does; no step follows that one. */
  lemma DeletedOnceWhenUnused(run: seq<Pool>, i: nat)
    requires Run(run) && i < |run|
    ensures run[i].deleted == if run[i].InUse() then 0 else 1
    ensures run[i].deleted == 1 ==> i == |run| - 1
    ensures run[i].deleted == 1 ==> forall x: nat :: x < run[i].count <==> x in run[i].free
  {
    InvOverRuns(run, i);
    assert run[i].lent != {} <==> |run[i].lent| > 0;
    if i < |run| - 1 { assert Next(run[i], run[i + 1]); }
  }

  /** As long as an item is free, every getter that waits is on its way to look for one. */
  lemma NobodySleepsOnAFreeItem(run: seq<Pool>, i: nat)
    requires Run(run) && i < |run| && run[i].free != []
    ensures run[i].asleep == 0
    ensures run[i].awake > 0 ==> exists p' :: Resume(run[i], p') && p'.lent == run[i].lent + {run[i].free[0]}
  {
    InvOverRuns(run, i);
    var p := run[i];
    if p.awake > 0 {
      assert Resume(p, Take(p.(awake := p.awake - 1)));
    }
  }

  lemma {:induction false} UpToSize(s: set<nat>, n: nat)
    requires forall x: nat :: x in s <==> x < n
    ensures |s| == n
  {
    if n == 0 {
      assert s == {};
    } else {
      UpToSize(s - {n - 1}, n - 1);
    }
  }

  /** In a pool that is not waitable nobody ever waits; in a waitable one a getter sleeps only while
      every item that its chunks may ever hold is lent. */
  lemma WaitsOnlyWhenAllIsLent(run: seq<Pool>, i: nat)
    requires Run(run) && i < |run|
    ensures !run[0].waitable ==> run[i].asleep + run[i].awake == 0
    ensures run[i].asleep > 0 ==> run[0].waitable && |run[i].lent| == run[0].limit * run[0].chunkSize
  {
    InvOverRuns(run, i);
    SameMakeOverRuns(run, i);
    var p := run[i];
    if p.asleep > 0 {
      UpToSize(p.lent, p.count);
    }
  }

  /** The item that has come back last is the first to be lent again. */
  lemma LastBackIsLentFirst(p: Pool, p': Pool, p'': Pool, item: nat)
    requires Back(p, p', item) && (Get(p', p'') || Resume(p', p''))
    ensures item !in p'.lent && p''.lent == p'.lent + {item}
    ensures |p'.free| > 0 && p''.free == p.free
  {
  }

  /** No chunk is added while an item is free. */
  lemma GrowsOnlyWhenAllIsLent(run: seq<Pool>, i: nat)
    requires Run(run) && i < |run| - 1 && run[i + 1].chunks != run[i].chunks
    ensures run[i + 1].chunks == run[i].chunks + 1
    ensures |run[i].lent| == run[i].chunks * run[i].chunkSize
    ensures |run[i + 1].lent| == |run[i].lent| + 1
  {
    InvOverRuns(run, i);
    InvOverRuns(run, i + 1);
    var p := run[i];
    assert Next(p, run[i + 1]) && p.free == [];
    UpToSize(p.lent, p.count);
    OneLentMore(p, run[i + 1]);
  }

  lemma OneLentMore(p: Pool, p': Pool)
    requires Inv(p) && Inv(p') && Next(p, p') && p'.chunks != p.chunks
    ensures |p'.lent| == |p.lent| + 1
  {
  }
}
