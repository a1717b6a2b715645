/** prescan and scan of src/c7mlog/reader12.cpp: the records of all partitions, which each
    partition's reader gives newest first, are merged with a priority queue. */
module MlogMerge {
  import opened Bytes
  import opened Ring
  import opened MlogRecord
  import opened Mlog
  import opened MlogReader

  /** operator< of rec_desc_t. */
  predicate Less(a: Desc, b: Desc) {
    a.time < b.time || (a.time == b.time && a.order < b.order)
  }

  /** What each partition's reader would give, in the order it gives it. */
  type Streams = ss: seq<seq<Desc>> |
    forall i, k :: 0 <= i < |ss| && 0 <= k < |ss[i]| ==> ss[i][k].part == i

  predicate Descending(s: seq<Desc>) {
    forall i, j :: 0 <= i < j < |s| ==> !Less(s[i], s[j])
  }

  predicate AllDescending(ss: Streams) {
    forall i :: 0 <= i < |ss| ==> Descending(ss[i])
  }

  function ByPart(recs: seq<Desc>, part: nat): seq<Desc> {
    if recs == [] then []
    else
      var front, last := recs[..|recs| - 1], recs[|recs| - 1];
      if last.part == part then ByPart(front, part) + [last] else ByPart(front, part)
  }

  function Total(ss: seq<seq<Desc>>): nat {
    if ss == [] then 0 else |ss[0]| + Total(ss[1..])
  }

  function Sum(ns: seq<nat>): nat {
    if ns == [] then 0 else ns[0] + Sum(ns[1..])
  }

  // ---- what prescan has taken ----

  /** recs consists of the first taken[i] records of every partition i, in that partition's
      order, and of nothing else. */
  ghost predicate Interleaves(ss: Streams, taken: seq<nat>, recs: seq<Desc>) {
    && |taken| == |ss|
    && (forall i :: 0 <= i < |ss| ==> taken[i] <= |ss[i]| && ByPart(recs, i) == ss[i][..taken[i]])
    && (forall k :: 0 <= k < |recs| ==> recs[k].part < |ss|)
    && Sum(taken) == |recs|
  }

  /** No record left behind is newer than one taken. */
  ghost predicate LeavesTheOldest(ss: Streams, taken: seq<nat>, recs: seq<Desc>)
    requires |taken| == |ss|
  {
    forall i, k, r :: 0 <= i < |ss| && taken[i] <= k < |ss[i]| && 0 <= r < |recs| ==> !Less(recs[r], ss[i][k])
  }

  predicate HasHead(ss: Streams, taken: seq<nat>, i: int)
    requires |taken| == |ss|
  {
    0 <= i < |ss| && taken[i] < |ss[i]|
  }

  /** The queue holds the next record of every partition that has one. */
  ghost predicate Queued(ss: Streams, taken: seq<nat>, queue: multiset<Desc>)
    requires |taken| == |ss|
  {
    && (forall d :: d in queue ==> queue[d] == 1 && HasHead(ss, taken, d.part) && d == ss[d.part][taken[d.part]])
    && (forall i :: HasHead(ss, taken, i) ==> ss[i][taken[i]] in queue)
  }

  lemma {:induction false} HasGreatest(queue: multiset<Desc>) returns (top: Desc)
    requires queue != multiset{}
    ensures top in queue && forall d :: d in queue ==> !Less(top, d)
    decreases |queue|
  {
    var d :| d in queue;
    var rest := queue - multiset{d};
    assert forall e :: e in queue ==> e == d || e in rest;
    if rest == multiset{} {
      top := d;
    } else {
      top := HasGreatest(rest);
      if Less(top, d) { top := d; }
    }
  }

  lemma {:induction false} SumOneMore(ns: seq<nat>, i: nat)
    requires i < |ns|
    ensures Sum(ns[i := ns[i] + 1]) == Sum(ns) + 1
  {
    var ns' := ns[i := ns[i] + 1];
    if i == 0 {
      assert ns'[1..] == ns[1..];
    } else {
      SumOneMore(ns[1..], i - 1);
      assert ns'[1..] == ns[1..][i - 1 := ns[1..][i - 1] + 1];
    }
  }

  lemma {:induction false} SumOfNone(ns: seq<nat>)
    requires forall i :: 0 <= i < |ns| ==> ns[i] == 0
    ensures Sum(ns) == 0
  {
    if ns != [] { SumOfNone(ns[1..]); }
  }

  lemma {:induction false} SumAtMostTotal(ss: seq<seq<Desc>>, ns: seq<nat>)
    requires |ss| == |ns| && forall i :: 0 <= i < |ns| ==> ns[i] <= |ss[i]|
    ensures Sum(ns) <= Total(ss)
    ensures Sum(ns) == Total(ss) <==> forall i :: 0 <= i < |ns| ==> ns[i] == |ss[i]|
  {
    if ns != [] {
      SumAtMostTotal(ss[1..], ns[1..]);
      assert forall i :: 1 <= i < |ns| ==> ns[i] == ns[1..][i - 1] && ss[i] == ss[1..][i - 1];
    }
  }

  lemma TakeOne(ss: Streams, taken: seq<nat>, recs: seq<Desc>, top: Desc)
    requires Interleaves(ss, taken, recs)
    requires HasHead(ss, taken, top.part) && top == ss[top.part][taken[top.part]]
    ensures Interleaves(ss, taken[top.part := taken[top.part] + 1], recs + [top])
  {
    var p, recs' := top.part, recs + [top];
    assert recs'[..|recs|] == recs;
    SumOneMore(taken, p);
    assert ss[p][..taken[p] + 1] == ss[p][..taken[p]] + [top];
  }

  lemma DequeueOne(ss: Streams, taken: seq<nat>, queue: multiset<Desc>, top: Desc)
    requires |taken| == |ss| && Queued(ss, taken, queue) && top in queue
    ensures HasHead(ss, taken, top.part)
    ensures var rest := queue - multiset{top};
      && (forall d :: d in rest ==>
           rest[d] == 1 && d.part != top.part && HasHead(ss, taken, d.part) && d == ss[d.part][taken[d.part]])
      && (forall i :: HasHead(ss, taken, i) && i != top.part ==> ss[i][taken[i]] in rest)
  {
    assert forall d :: d in queue && d.part == top.part ==> d == top;
    assert top !in queue - multiset{top};
  }

  /** After the record taken, the next one of its partition is queued if there is one. */
  lemma RequeueOne(ss: Streams, taken: seq<nat>, queue: multiset<Desc>, top: Desc)
    requires |taken| == |ss| && Queued(ss, taken, queue) && top in queue
    ensures HasHead(ss, taken, top.part)
    ensures var p := top.part;
            var taken', rest := taken[p := taken[p] + 1], queue - multiset{top};
            Queued(ss, taken', if taken'[p] < |ss[p]| then rest + multiset{ss[p][taken'[p]]} else rest)
  {
    DequeueOne(ss, taken, queue, top);
    var p := top.part;
    var taken', rest := taken[p := taken[p] + 1], queue - multiset{top};
    forall i | HasHead(ss, taken', i) && i != p ensures ss[i][taken'[i]] in rest {
      assert HasHead(ss, taken, i);
    }
    if taken'[p] < |ss[p]| {
      assert ss[p][taken'[p]].part == p;
    }
  }

  /** Nothing queued, and so nothing left behind, is newer than what has been taken. */
  lemma StillTheOldest(ss: Streams, taken: seq<nat>, recs: seq<Desc>, queue: multiset<Desc>, top: Desc)
    requires |taken| == |ss| && AllDescending(ss) && Queued(ss, taken, queue)
    requires top in queue && forall d :: d in queue ==> !Less(top, d)
    requires Descending(recs) && LeavesTheOldest(ss, taken, recs)
    ensures Descending(recs + [top])
    ensures LeavesTheOldest(ss, taken[top.part := taken[top.part] + 1], recs + [top])
  {
    var p, recs' := top.part, recs + [top];
    var taken' := taken[p := taken[p] + 1];
    assert HasHead(ss, taken, p);
    forall i, k, r | 0 <= i < |ss| && taken'[i] <= k < |ss[i]| && 0 <= r < |recs'|
      ensures !Less(recs'[r], ss[i][k])
    {
      if r == |recs| {
        assert HasHead(ss, taken, i);
        assert !Less(top, ss[i][taken[i]]);
        assert Descending(ss[i]);
        assert taken[i] < k ==> !Less(ss[i][taken[i]], ss[i][k]);
      }
    }
  }

  /** What is known of prescan's loop. */
  ghost predicate Merging(ss: Streams, taken: seq<nat>, queue: multiset<Desc>, recs: seq<Desc>) {
    && |taken| == |ss| && Interleaves(ss, taken, recs) && Queued(ss, taken, queue)
    && (AllDescending(ss) ==> Descending(recs) && LeavesTheOldest(ss, taken, recs))
  }

  lemma TopTaken(ss: Streams, taken: seq<nat>, queue: multiset<Desc>, recs: seq<Desc>, top: Desc)
    requires Merging(ss, taken, queue, recs)
    requires top in queue && forall d :: d in queue ==> !Less(top, d)
    ensures |taken| == |ss| && HasHead(ss, taken, top.part)
    ensures var p := top.part;
            var taken', rest := taken[p := taken[p] + 1], queue - multiset{top};
            Merging(ss, taken', if taken'[p] < |ss[p]| then rest + multiset{ss[p][taken'[p]]} else rest, recs + [top])
  {
    hide Interleaves, LeavesTheOldest, Descending, AllDescending, Less;
    RequeueOne(ss, taken, queue, top);
    TakeOne(ss, taken, recs, top);
    if AllDescending(ss) { StillTheOldest(ss, taken, recs, queue, top); }
  }

  lemma NothingTaken(ss: Streams)
    ensures var taken: seq<nat> := seq(|ss|, _ => 0);
      Interleaves(ss, taken, []) && Descending([]) && LeavesTheOldest(ss, taken, [])
  {
    SumOfNone(seq(|ss|, _ => 0));
  }

  lemma AllOrEnough(ss: Streams, taken: seq<nat>, queue: multiset<Desc>)
    requires |taken| == |ss| && forall i :: 0 <= i < |ss| ==> taken[i] <= |ss[i]|
    requires Queued(ss, taken, queue)
    ensures Sum(taken) <= Total(ss) && (queue == multiset{} ==> Sum(taken) == Total(ss))
  {
    SumAtMostTotal(ss, taken);
    if queue == multiset{} { assert forall i :: 0 <= i < |ss| ==> !HasHead(ss, taken, i); }
  }

  // ---- what the partitions' readers give ----

  /** The log of a partition: the bytes up to its last clear, and the records written since. */
  datatype PartLog = PartLog(start: seq<Byte>, recs: seq<Record>)

  ghost predicate Holding(ring: Buffer, log: PartLog, q: Query)
    reads ring, ring.top
  {
    && ring.Valid() && Logged(ring.top[..], ring.nextaddr, log.start, log.recs)
    && Steady(log.recs, ring.top.Length, q)
  }

  /** What the gets of a new reader of the partition give. */
  ghost function PartYield(part: nat, ring: Buffer, log: PartLog, q: Query): (g: seq<Given>)
    requires Holding(ring, log, q)
    reads ring, ring.top
    ensures forall k :: 0 <= k < |g| ==> g[k].desc.part == part && g[k].record in log.recs
  {
    Yield(part, log.recs, ring.nextaddr + 2 * ring.top.Length, ring.top.Length, q)
  }

  type Yields = gs: seq<seq<Given>> |
    forall i, k :: 0 <= i < |gs| && 0 <= k < |gs[i]| ==> gs[i][k].desc.part == i

  /** gs is what all the partitions yield. */
  ghost predicate AreYields(rings: seq<Buffer>, logs: seq<PartLog>, q: Query, gs: Yields)
    reads rings, set i | 0 <= i < |rings| :: rings[i].top
  {
    && |logs| == |rings| == |gs|
    && forall i :: 0 <= i < |rings| ==> Holding(rings[i], logs[i], q) && gs[i] == PartYield(i, rings[i], logs[i], q)
  }

  function Descs(g: seq<Given>): seq<Desc> {
    seq(|g|, k requires 0 <= k < |g| => g[k].desc)
  }

  function StreamsOf(gs: Yields): Streams {
    seq(|gs|, i requires 0 <= i < |gs| => Descs(gs[i]))
  }

  /** The reader's next gets give g and then nothing. */
  ghost predicate Gives(rd: Reader, q: Query, g: seq<Given>)
    reads rd, rd.ring, rd.ring.top
  {
    && rd.Valid() && Steady(rd.left, rd.recaddr - rd.brkaddr, rd.Bounded(q))
    && (forall j :: 0 <= j < |rd.left| ==> WellFormed(rd.left[j]))
    && rd.recaddr >= rd.brkaddr
    && g == Yield(rd.part, rd.left, rd.recaddr, rd.recaddr - rd.brkaddr, rd.Bounded(q))
  }

  method Fetch(rd: Reader, q: Query, ghost g: seq<Given>) returns (r: Found)
    requires Gives(rd, q, g)
    modifies rd
    ensures g == [] ==> r == NotFound
    ensures g != [] ==> r == Found(g[0].desc) && Gives(rd, q, g[1..])
  {
    hide Standing, RecordAt, Find, Newest, Steady, Yield;
    ghost var recs, addr, room := rd.left, rd.recaddr, rd.recaddr - rd.brkaddr;
    SteadyGoesOn(recs, room, rd.Bounded(q));
    YieldUnfolds(rd.part, recs, addr, room, rd.Bounded(q));
    r := rd.Get(q);
  }

  /** A reader set up on a partition gives what the partition yields. */
  method NewReader(part: nat, ring: Buffer, logBeg: int, q: Query, ghost log: PartLog) returns (rd: Reader)
    requires Holding(ring, log, BoundedBy(q, logBeg))
    ensures fresh(rd) && rd.part == part && rd.ring == ring
    ensures Gives(rd, q, PartYield(part, ring, log, BoundedBy(q, logBeg)))
  {
    hide Standing, Logged, Steady, Yield;
    AcceptableIsWell(ring, log);
    rd := new Reader(logBeg, ring, part, log.start, log.recs);
  }

  lemma AcceptableIsWell(ring: Buffer, log: PartLog)
    requires |ring.top[..]| > 0 && Logged(ring.top[..], ring.nextaddr, log.start, log.recs)
    ensures Acceptable(log.recs, ring.top.Length)
    ensures forall j :: 0 <= j < |log.recs| ==> WellFormed(log.recs[j])
  {
  }

  // ---- prescan ----

  /** Of every partition with a record left the reader gives what is behind it. */
  ghost predicate AllGive(readers: seq<Reader>, q: Query, gs: Yields, taken: seq<nat>)
    reads readers, set i | 0 <= i < |readers| :: readers[i].ring,
          set i | 0 <= i < |readers| :: readers[i].ring.top
  {
    && |readers| == |gs| == |taken|
    && (forall i, j :: 0 <= i < j < |readers| ==> readers[i] != readers[j])
    && forall i :: HasHead(StreamsOf(gs), taken, i) ==> Gives(readers[i], q, gs[i][taken[i] + 1..])
  }

  /** Takes the top of the queue and puts the next record of its partition in. */
  method TakeTop(readers: seq<Reader>, q: Query, queue: multiset<Desc>, ghost recs: seq<Desc>,
                 ghost gs: Yields, ghost taken: seq<nat>)
    returns (queue': multiset<Desc>, top: Desc, ghost taken': seq<nat>)
    requires Merging(StreamsOf(gs), taken, queue, recs) && queue != multiset{}
    requires AllGive(readers, q, gs, taken)
    modifies readers
    ensures Merging(StreamsOf(gs), taken', queue', recs + [top]) && AllGive(readers, q, gs, taken')
  {
    hide Merging, Less, Gives;
    ghost var some := HasGreatest(queue);
    top :| top in queue && forall d :: d in queue ==> !Less(top, d);
    TopTaken(StreamsOf(gs), taken, queue, recs, top);
    var p := top.part;
    taken' := taken[p := taken[p] + 1];
    queue' := queue - multiset{top};
    ghost var g := gs[p][taken[p] + 1..];
    var r := Fetch(readers[p], q, g);
    if r.Found? {
      queue' := queue' + multiset{r.desc};
    }
  }

  /** The first records of the first n partitions. */
  ghost predicate FirstsQueued(gs: Yields, n: nat, queue: multiset<Desc>) {
    && n <= |gs|
    && (forall d :: d in queue ==> queue[d] == 1 && d.part < n && gs[d.part] != [] && d == gs[d.part][0].desc)
    && forall j :: 0 <= j < n && gs[j] != [] ==> gs[j][0].desc in queue
  }

  lemma QueueFirst(gs: Yields, n: nat, queue: multiset<Desc>)
    requires n < |gs| && FirstsQueued(gs, n, queue)
    ensures FirstsQueued(gs, n + 1, if gs[n] == [] then queue else queue + multiset{gs[n][0].desc})
  {
    if gs[n] != [] {
      assert gs[n][0].desc.part == n;
      assert gs[n][0].desc !in queue;
    }
  }

  lemma FirstsAreQueued(gs: Yields, queue: multiset<Desc>)
    requires FirstsQueued(gs, |gs|, queue)
    ensures Queued(StreamsOf(gs), seq(|gs|, _ => 0), queue)
  {
  }

  /** Sets up a reader and gets the first record. */
  method OpenOne(part: nat, ring: Buffer, logBeg: int, q: Query, ghost log: PartLog, ghost g: seq<Given>)
    returns (rd: Reader, r: Found)
    requires Holding(ring, log, BoundedBy(q, logBeg)) && g == PartYield(part, ring, log, BoundedBy(q, logBeg))
    ensures fresh(rd)
    ensures g == [] ==> r == NotFound
    ensures g != [] ==> r == Found(g[0].desc) && Gives(rd, q, g[1..])
  {
    hide Gives, Holding, PartYield;
    rd := NewReader(part, ring, logBeg, q, log);
    r := Fetch(rd, q, g);
  }

  /** Sets up the readers and queues the first record of every partition. */
  method Open(rings: seq<Buffer>, logBeg: int, q: Query, ghost logs: seq<PartLog>, ghost gs: Yields)
    returns (readers: seq<Reader>, queue: multiset<Desc>)
    requires AreYields(rings, logs, BoundedBy(q, logBeg), gs)
    ensures forall i :: 0 <= i < |readers| ==> fresh(readers[i])
    ensures AllGive(readers, q, gs, seq(|gs|, _ => 0))
    ensures Queued(StreamsOf(gs), seq(|gs|, _ => 0), queue)
  {
    hide Gives, Holding, PartYield, FirstsQueued, Queued;
    readers, queue := [], multiset{};
    assert FirstsQueued(gs, 0, queue) by { NothingQueued(gs); }
    for i := 0 to |rings|
      invariant |readers| == i && FirstsQueued(gs, i, queue)
      invariant forall j :: 0 <= j < i ==> fresh(readers[j])
      invariant forall j, k :: 0 <= j < k < i ==> readers[j] != readers[k]
      invariant forall j :: 0 <= j < i && gs[j] != [] ==> Gives(readers[j], q, gs[j][1..])
    {
      QueueFirst(gs, i, queue);
      var rd, r := OpenOne(i, rings[i], logBeg, q, logs[i], gs[i]);
      readers := readers + [rd];
      if r.Found? {
        queue := queue + multiset{r.desc};
      }
    }
    FirstsAreQueued(gs, queue);
  }

  lemma NothingQueued(gs: Yields)
    ensures FirstsQueued(gs, 0, multiset{})
  {
  }

  /** What is taken are the maxcount newest of all the records that the partitions yield, or all if
      there are no more; with partitions not in descending order each partition's own order is
      kept all the same. */
  method Prescan(rings: seq<Buffer>, logBeg: int, q: Query, maxcount: nat, ghost logs: seq<PartLog>, ghost gs: Yields)
    returns (recs: seq<Desc>, ghost taken: seq<nat>)
    requires AreYields(rings, logs, BoundedBy(q, logBeg), gs)
    ensures Interleaves(StreamsOf(gs), taken, recs)
    ensures |recs| == if maxcount < Total(StreamsOf(gs)) then maxcount else Total(StreamsOf(gs))
    ensures AllDescending(StreamsOf(gs)) ==> Descending(recs) && LeavesTheOldest(StreamsOf(gs), taken, recs)
  {
    hide AllDescending, LeavesTheOldest, Descending, Queued, AreYields, AllGive;
    ghost var ss := StreamsOf(gs);
    var readers, queue := Open(rings, logBeg, q, logs, gs);
    taken := seq(|ss|, _ => 0);
    assert taken == seq(|gs|, _ => 0);
    recs := [];
    NothingTaken(ss);
    var count := maxcount;
    while count > 0 && queue != multiset{}
      invariant forall i :: 0 <= i < |readers| ==> fresh(readers[i])
      invariant Merging(ss, taken, queue, recs) && AllGive(readers, q, gs, taken)
      invariant |recs| + count == maxcount
    {
      var top;
      queue, top, taken := TakeTop(readers, q, queue, recs, gs, taken);
      recs := recs + [top];
      count := count - 1;
    }
    AllOrEnough(ss, taken, queue);
  }

  // ---- scan ----

  const UNLIMITED := 0xFFFF_FFFF_FFFF_FFFE    // -1UL - 1

  function Limit(cnt: Addr, maxcount: nat): nat {
    var asked := if maxcount > 0 then maxcount else UNLIMITED;
    if cnt < asked then cnt else asked
  }

  function Reversed(s: seq<Desc>): seq<Desc> {
    seq(|s|, i requires 0 <= i < |s| => s[|s| - 1 - i])
  }

  /** What the caller of scan is handed. */
  datatype Told = Told(info: Info, data: seq<Byte>)

  /** It is one of the records that the partition of d yields, the one that d stands for. */
  ghost predicate Tells(gs: Yields, d: Desc, t: Told) {
    d.part < |gs| &&
    exists k :: 0 <= k < |gs[d.part]| && gs[d.part][k].desc == d &&
      t == Told(InfoOf(gs[d.part][k].record), gs[d.part][k].record.data)
  }

  lemma {:induction false} InItsPart(recs: seq<Desc>, m: nat)
    requires m < |recs|
    ensures recs[m] in ByPart(recs, recs[m].part)
  {
    var front := recs[..|recs| - 1];
    if m < |front| {
      InItsPart(front, m);
      assert recs[m] in ByPart(front, recs[m].part);
    }
  }

  /** Every record taken is one of its partition's, and still in the ring. */
  lemma TakenIsThere(rings: seq<Buffer>, logs: seq<PartLog>, q: Query, gs: Yields, taken: seq<nat>,
                     recs: seq<Desc>, m: nat)
    returns (k: nat)
    requires AreYields(rings, logs, q, gs) && Interleaves(StreamsOf(gs), taken, recs) && m < |recs|
    ensures var p := recs[m].part; p < |gs| == |rings| && k < |gs[p]| && gs[p][k].desc == recs[m]
    ensures var g := gs[recs[m].part][k]; Describes(g.desc, recs[m].part, g.record, rings[recs[m].part].top[..])
  {
    hide Holding, PartYield, ByPart, Describes;
    InItsPart(recs, m);
    var p := recs[m].part;
    var s := StreamsOf(gs)[p];
    assert recs[m] in s[..taken[p]];
    k :| 0 <= k < |s| && s[k] == recs[m];
    PartYieldDescribes(p, rings[p], logs[p], q, k);
  }

  lemma PartYieldDescribes(part: nat, ring: Buffer, log: PartLog, q: Query, k: nat)
    requires Holding(ring, log, q) && k < |PartYield(part, ring, log, q)|
    ensures var g := PartYield(part, ring, log, q)[k]; Describes(g.desc, part, g.record, ring.top[..])
  {
    hide Standing, Steady, Yield, Describes;
    AcceptableIsWell(ring, log);
    StandingAtTheEnd(ring.top[..], ring.nextaddr, log.start, log.recs);
    YieldDescribes(ring.top[..], part, ring.nextaddr + 2 * ring.top.Length, ring.top.Length, log.start, log.recs,
                   log.start + LogBytes(log.recs), q, k);
  }

  lemma PartYieldWanted(part: nat, ring: Buffer, log: PartLog, q: Query, logBeg: int, k: nat)
    requires Holding(ring, log, BoundedBy(q, logBeg)) && k < |PartYield(part, ring, log, BoundedBy(q, logBeg))|
    ensures var g := PartYield(part, ring, log, BoundedBy(q, logBeg))[k];
      && g.desc.time == g.record.header.time && g.desc.order == g.record.header.order
      && Wanted(InfoOf(g.record), q, logBeg)
  {
    hide Standing, Steady, Yield, BoundedBy;
    AcceptableIsWell(ring, log);
    var i := GivenAreWanted(part, log.recs, ring.nextaddr + 2 * ring.top.Length, ring.top.Length, q, logBeg, k);
  }

  /** What the caller of scan has asked for. */
  predicate Wanted(info: Info, q: Query, logBeg: int) {
    info.time >= logBeg && info.time >= q.timeMin && info.weakOrder >= q.orderMin && q.choice(info)
  }

  lemma ToldIsWanted(rings: seq<Buffer>, logs: seq<PartLog>, q: Query, logBeg: int, gs: Yields, d: Desc, t: Told)
    requires AreYields(rings, logs, BoundedBy(q, logBeg), gs) && Tells(gs, d, t)
    ensures Wanted(t.info, q, logBeg) && t.info.time == d.time && t.info.weakOrder == d.order
  {
    hide Holding, PartYield, Wanted, BoundedBy;
    var k :| 0 <= k < |gs[d.part]| && gs[d.part][k].desc == d
             && t == Told(InfoOf(gs[d.part][k].record), gs[d.part][k].record.data);
    PartYieldWanted(d.part, rings[d.part], logs[d.part], q, logBeg, k);
  }

  /** No time and, at the same time, no order goes down. */
  ghost predicate Ascending(told: seq<Told>) {
    forall i, j :: 0 <= i < j < |told| ==>
      told[i].info.time < told[j].info.time
      || (told[i].info.time == told[j].info.time && told[i].info.weakOrder <= told[j].info.weakOrder)
  }

  /** No time and, at the same time, no order goes up in what a partition yields. */
  ghost predicate NewestFirst(gs: Yields) {
    forall p, i, j :: 0 <= p < |gs| && 0 <= i < j < |gs[p]| ==>
      gs[p][i].desc.time > gs[p][j].desc.time
      || (gs[p][i].desc.time == gs[p][j].desc.time && gs[p][i].desc.order >= gs[p][j].desc.order)
  }

  /** Nothing that is left is newer than what is handed over. */
  ghost predicate LeftAreOlder(gs: Yields, taken: seq<nat>, told: seq<Told>)
    requires |taken| == |gs|
  {
    forall p, k, i :: 0 <= p < |gs| && taken[p] <= k < |gs[p]| && 0 <= i < |told| ==>
      gs[p][k].desc.time < told[i].info.time
      || (gs[p][k].desc.time == told[i].info.time && gs[p][k].desc.order <= told[i].info.weakOrder)
  }

  lemma NewestFirstDescends(gs: Yields)
    requires NewestFirst(gs)
    ensures AllDescending(StreamsOf(gs))
  {
    forall p | 0 <= p < |gs|
      ensures Descending(StreamsOf(gs)[p])
    {
    }
  }

  lemma ToldInOrder(gs: Yields, taken: seq<nat>, recs: seq<Desc>, told: seq<Told>)
    requires |taken| == |gs| && |told| <= |recs|
    requires Descending(recs) && LeavesTheOldest(StreamsOf(gs), taken, recs)
    requires forall i :: 0 <= i < |told| ==>
      told[i].info.time == recs[|recs| - 1 - i].time && told[i].info.weakOrder == recs[|recs| - 1 - i].order
    ensures Ascending(told) && LeftAreOlder(gs, taken, told)
  {
    forall i, j | 0 <= i < j < |told|
      ensures told[i].info.time < told[j].info.time
        || (told[i].info.time == told[j].info.time && told[i].info.weakOrder <= told[j].info.weakOrder)
    {
      assert !Less(recs[|recs| - 1 - j], recs[|recs| - 1 - i]);
    }
    forall p, k, i | 0 <= p < |gs| && taken[p] <= k < |gs[p]| && 0 <= i < |told|
      ensures gs[p][k].desc.time < told[i].info.time
        || (gs[p][k].desc.time == told[i].info.time && gs[p][k].desc.order <= told[i].info.weakOrder)
    {
      assert !Less(recs[|recs| - 1 - i], StreamsOf(gs)[p][k]);
    }
  }

  /** Names, fields and log data of one record. */
  method Tell(rings: seq<Buffer>, d: Desc, ghost gs: Yields, ghost k: nat) returns (t: Told)
    requires d.part < |rings| == |gs| && k < |gs[d.part]| && gs[d.part][k].desc == d
    requires Describes(d, d.part, gs[d.part][k].record, rings[d.part].top[..])
    ensures Tells(gs, d, t)
  {
    var info, dbuf := Access(rings[d.part], d.addr, gs[d.part][k].record);
    t := Told(info, dbuf[..info.size]);
  }

  /** The records are handed over oldest first, as they were put, until one is refused, which is
      the last.  There are as many as hdr_->cnt, the rings and, unless it is zero, maxcount allow. */
  method Scan(rings: seq<Buffer>, logBeg: int, cnt: Addr, maxcount: nat, q: Query, access: Told -> bool,
              ghost logs: seq<PartLog>, ghost gs: Yields)
    returns (told: seq<Told>, ghost recs: seq<Desc>, ghost taken: seq<nat>)
    requires AreYields(rings, logs, BoundedBy(q, logBeg), gs)
    ensures Interleaves(StreamsOf(gs), taken, recs)
    ensures |recs| <= cnt && |recs| <= Total(StreamsOf(gs)) && (maxcount > 0 ==> |recs| <= maxcount)
    ensures |recs| == cnt || |recs| == Total(StreamsOf(gs)) || (maxcount > 0 && |recs| == maxcount)
    ensures |told| <= |recs| && forall i :: 0 <= i < |told| ==> Tells(gs, Reversed(recs)[i], told[i])
    ensures forall i :: 0 <= i < |told| - 1 ==> access(told[i])
    ensures |told| < |recs| ==> told != [] && !access(told[|told| - 1])
    ensures forall i :: 0 <= i < |told| ==> Wanted(told[i].info, q, logBeg)
    ensures |taken| == |gs| && (NewestFirst(gs) ==> Ascending(told) && LeftAreOlder(gs, taken, told))
  {
    hide AreYields, Interleaves, LeavesTheOldest, AllDescending, Descending, Tells, Less, StreamsOf, Describes, Wanted,
         NewestFirst, Ascending, LeftAreOlder;
    var found;
    found, taken := Prescan(rings, logBeg, q, Limit(cnt, maxcount), logs, gs);
    recs := found;
    told := [];
    for i := 0 to |found|
      invariant |told| == i
      invariant forall j :: 0 <= j < i ==> access(told[j])
      invariant forall j :: 0 <= j < i ==> Tells(gs, Reversed(recs)[j], told[j])
    {
      ghost var m := |found| - 1 - i;
      ghost var k := TakenIsThere(rings, logs, BoundedBy(q, logBeg), gs, taken, recs, m);
      var t := Tell(rings, found[|found| - 1 - i], gs, k);
      told := told + [t];
      if !access(t) { break; }
    }
    ToldAsAsked(rings, logs, q, logBeg, gs, taken, recs, told);
  }

  lemma ToldAsAsked(rings: seq<Buffer>, logs: seq<PartLog>, q: Query, logBeg: int, gs: Yields,
                    taken: seq<nat>, recs: seq<Desc>, told: seq<Told>)
    requires AreYields(rings, logs, BoundedBy(q, logBeg), gs) && Interleaves(StreamsOf(gs), taken, recs)
    requires |told| <= |recs| && forall i :: 0 <= i < |told| ==> Tells(gs, Reversed(recs)[i], told[i])
    requires AllDescending(StreamsOf(gs)) ==> Descending(recs) && LeavesTheOldest(StreamsOf(gs), taken, recs)
    ensures |taken| == |gs| && forall i :: 0 <= i < |told| ==> Wanted(told[i].info, q, logBeg)
    ensures NewestFirst(gs) ==> Ascending(told) && LeftAreOlder(gs, taken, told)
  {
    hide AreYields, Tells, Wanted, BoundedBy, Descending, LeavesTheOldest, AllDescending, NewestFirst, Ascending, LeftAreOlder;
    forall i | 0 <= i < |told|
      ensures Wanted(told[i].info, q, logBeg)
      ensures told[i].info.time == recs[|recs| - 1 - i].time && told[i].info.weakOrder == recs[|recs| - 1 - i].order
    {
      ToldIsWanted(rings, logs, q, logBeg, gs, Reversed(recs)[i], told[i]);
    }
    if NewestFirst(gs) {
      NewestFirstDescends(gs);
      ToldInOrder(gs, taken, recs, told);
    }
  }
}
