/** fpipe of src/c7threadcom.hpp: two buffers circulate between one producer and one consumer
    through two channels.  Every interleaving of the atomic steps of blocking calls is a run. */
module Fpipe {
  import opened Wrappers
  import opened Pipe1

  datatype Buf<T> = Buf(top: seq<T>, cnt: nat, idx: nat)

  datatype Command<T> = Put(x: T) | Flush | Close

  /** Where the producer is: in no call, in put, at the start of flush, in put_ready called by
      flush, at the two steps of close after its flush, or past close. */
  datatype Producer<T> =
    | Idle
    | Putting(x: T)
    | Flushing(closing: bool)
    | Readying(closing: bool)
    | Closing
    | Resetting
    | Closed

  /** The two buffers of bufs_ are told apart by a bool. */
  datatype State<T> = State(
    n: nat,                    // n_elm_
    buf0: Buf<T>,              // bufs_
    buf1: Buf<T>,
    put: Option<bool>,         // put_ and get_
    get: Option<bool>,
    put2get: Slot<bool>,
    get2put: Slot<bool>,
    producer: Producer<T>,
    getting: bool,             // the consumer is in a get call
    sent: seq<T>,              // what put has accepted, in order
    received: seq<T>,          // what get has returned, in order
    sawClosed: bool)           // get has returned CLOSED
  {
    function Buf(i: bool): Buf<T> {
      if i then buf1 else buf0
    }

    function With(i: bool, b: Buf<T>): State<T> {
      if i then this.(buf1 := b) else this.(buf0 := b)
    }

    /** The number of places that own buffer i. */
    function Owners(i: bool): nat {
      (if put == Some(i) then 1 else 0) + (if get == Some(i) then 1 else 0)
      + (if put2get.Held() == Some(i) then 1 else 0) + (if get2put.Held() == Some(i) then 1 else 0)
    }
  }

  datatype Event<T> = Begin(c: Command<T>) | BeginGet | ProducerStep | ConsumerStep

  /** The state after reset(), with any contents of the storage. */
  predicate Initial<T>(s: State<T>) {
    && s.n >= 1 && |s.buf0.top| == |s.buf1.top| == s.n
    && s.buf0.cnt == s.n && s.buf0.idx == 0 && s.buf1.cnt == s.buf1.idx == s.n
    && s.put == Some(false) && s.get == Some(true)
    && s.put2get.phase == EMPTY && s.get2put.phase == EMPTY
    && s.producer.Idle? && !s.getting && s.sent == [] && s.received == [] && !s.sawClosed
  }

  predicate Fits<T>(b: Buf<T>, n: nat) {
    b.idx <= b.cnt <= n == |b.top|
  }

  /** Every buffer is within its storage. */
  predicate Shape<T>(s: State<T>) {
    s.n >= 1 && Fits(s.buf0, s.n) && Fits(s.buf1, s.n) && s.put2get.Valid() && s.get2put.Valid()
  }

  /** One atomic step; None while the step waits or does not apply. */
  function Next<T>(s: State<T>, e: Event<T>): Option<State<T>>
    requires Shape(s)
  {
    match e
    case Begin(c) => if s.producer.Idle? then Some(s.(producer := Begun(c))) else None
    case BeginGet => if s.getting then None else Some(s.(getting := true))
    case ProducerStep => ProducerNext(s)
    case ConsumerStep => ConsumerNext(s)
  }

  function Begun<T>(c: Command<T>): Producer<T> {
    match c
    case Put(x) => Putting(x)
    case Flush => Flushing(false)
    case Close => Flushing(true)
  }

  function AfterFlush<T>(closing: bool): Producer<T> {
    if closing then Closing else Idle
  }

  /** put_ is a buffer with room. */
  predicate HasRoom<T>(s: State<T>) {
    s.put.Some? && s.Buf(s.put.value).idx < s.Buf(s.put.value).cnt
  }

  function ProducerNext<T>(s: State<T>): Option<State<T>>
    requires Shape(s)
  {
    match s.producer
    case Idle | Closed => None
    case Putting(x) =>
      if HasRoom(s) then
        var i := s.put.value;
        var b := s.Buf(i);
        Some(s.With(i, Buf(b.top[b.idx := x], b.cnt, b.idx + 1)).(sent := s.sent + [x], producer := Idle))
      else PutReady(s)
    case Flushing(closing) =>
      if s.put == None || s.Buf(s.put.value).idx == 0 then Some(s.(producer := AfterFlush(closing)))
      else
        var b := s.Buf(s.put.value);
        Some(s.With(s.put.value, b.(cnt := b.idx)).(producer := Readying(closing)))
    case Readying(closing) =>
      if HasRoom(s) then Some(s.(producer := AfterFlush(closing))) else PutReady(s)
    case Closing => Some(s.(put2get := s.put2get.Close(), producer := Resetting))
    case Resetting => Some(s.(get2put := s.get2put.Reset(), producer := Closed))
  }

  /** The steps of put_ready: hand the full buffer over, then take an empty one. */
  function PutReady<T>(s: State<T>): Option<State<T>>
    requires Shape(s)
  {
    if s.put.Some? then
      var (slot, r) := s.put2get.Put(s.put.value);
      if r == OK then Some(s.(put2get := slot, put := None)) else None
    else
      var (slot, r) := s.get2put.Get();
      if r == OK then
        var i := s.get2put.Held().value;
        Some(s.With(i, s.Buf(i).(cnt := s.n, idx := 0)).(get2put := slot, put := Some(i)))
      else None
  }

  function ConsumerNext<T>(s: State<T>): Option<State<T>>
    requires Shape(s)
  {
    if !s.getting then None
    else if s.get.Some? then
      var i := s.get.value;
      var b := s.Buf(i);
      if b.idx < b.cnt then
        Some(s.With(i, b.(idx := b.idx + 1)).(received := s.received + [b.top[b.idx]], getting := false))
      else
        var (slot, r) := s.get2put.Put(i);
        if r == OK then Some(s.(get2put := slot, get := None)) else None
    else
      var (slot, r) := s.put2get.Get();
      if r == OK then
        var i := s.put2get.Held().value;
        Some(s.With(i, s.Buf(i).(idx := 0)).(put2get := slot, get := Some(i)))
      else if r == IS_CLOSED then Some(s.(getting := false, sawClosed := true))
      else None
  }

  /** What is on its way: the unread rest of get_, the buffer in put2get_, the filled part of put_. */
  function Queue<T>(s: State<T>): seq<T>
    requires Shape(s)
  {
    Unread(s) + InTransit(s) + Filled(s)
  }

  function Unread<T>(s: State<T>): seq<T>
    requires Shape(s)
  {
    if s.get == None then [] else var b := s.Buf(s.get.value); b.top[b.idx..b.cnt]
  }

  function InTransit<T>(s: State<T>): seq<T>
    requires Shape(s)
  {
    if s.put2get.Held() == None then [] else var b := s.Buf(s.put2get.Held().value); b.top[..b.cnt]
  }

  function Filled<T>(s: State<T>): seq<T>
    requires Shape(s)
  {
    if s.put == None then [] else var b := s.Buf(s.put.value); b.top[..b.idx]
  }

  /** Each buffer is owned in exactly one place; close may drop one that get2put_ held. */
  predicate Ownership<T>(s: State<T>) {
    && s.Owners(false) <= 1 && s.Owners(true) <= 1
    && (!s.producer.Closed? ==> s.Owners(false) == s.Owners(true) == 1)
  }

  predicate Phases<T>(s: State<T>) {
    && (s.put2get.phase in {CLOSING, CLOSED} <==> s.producer.Resetting? || s.producer.Closed?)
    && s.put2get.phase != ABORTED && s.get2put.phase in {EMPTY, EXIST}
    && (s.put == None ==> s.producer.Putting? || s.producer.Readying?)
    && (s.put.Some? ==> s.Buf(s.put.value).cnt >= 1)
    && (s.put.Some? && s.producer.Readying? ==>
          s.Buf(s.put.value).idx == s.Buf(s.put.value).cnt || s.Buf(s.put.value).idx == 0)
    && (s.producer.Closing? || s.producer.Resetting? || s.producer.Closed? ==> s.Buf(s.put.value).idx == 0)
    && (s.put2get.Held().Some? ==> s.Buf(s.put2get.Held().value).cnt >= 1)
    && (s.sawClosed ==> s.put2get.phase == CLOSED && s.get == None)
  }

  /** Where the buffers are and where the two threads are, without the elements. */
  predicate Control<T>(s: State<T>) {
    Shape(s) && Ownership(s) && Phases(s)
  }

  predicate Inv<T(==)>(s: State<T>) {
    Control(s) && s.sent == s.received + Queue(s)
  }

  lemma InitialInv<T>(s: State<T>)
    requires Initial(s)
    ensures Inv(s)
  {
  }

  /** Two places never hold the same buffer. */
  lemma HoldersDiffer<T>(s: State<T>)
    requires Ownership(s)
    ensures s.put.Some? ==> s.put != s.get && s.put != s.put2get.Held()
    ensures s.get.Some? ==> s.get != s.put2get.Held()
  {
    assert s.put.Some? ==> s.Owners(s.put.value) <= 1;
    assert s.get.Some? ==> s.Owners(s.get.value) <= 1;
  }

  lemma SliceHead<T>(top: seq<T>, idx: nat, cnt: nat)
    requires idx < cnt <= |top|
    ensures top[idx..cnt] == [top[idx]] + top[idx + 1..cnt]
  {
  }

  lemma SliceStore<T>(top: seq<T>, idx: nat, x: T)
    requires idx < |top|
    ensures top[idx := x][..idx + 1] == top[..idx] + [x]
  {
  }

  /** put_ready hands a full (or flushed) buffer over. */
  lemma HandOver<T>(s: State<T>)
    requires Control(s) && (s.producer.Putting? || s.producer.Readying?) && !HasRoom(s)
    requires s.put.Some? && PutReady(s).Some?
    ensures Control(PutReady(s).value)
    ensures Queue(PutReady(s).value) == Queue(s)
  {
    HandOverControl(s);
    hide Phases, Ownership;
    var s' := PutReady(s).value;
    assert Unread(s') == Unread(s) && InTransit(s') == Filled(s);
  }

  lemma HandOverControl<T>(s: State<T>)
    requires Control(s) && (s.producer.Putting? || s.producer.Readying?) && !HasRoom(s)
    requires s.put.Some? && PutReady(s).Some?
    ensures Control(PutReady(s).value)
  {
    if s.put == Some(false) {
    } else {
    }
  }

  /** put_ready takes an empty buffer. */
  lemma TakeEmpty<T>(s: State<T>)
    requires Control(s) && (s.producer.Putting? || s.producer.Readying?)
    requires s.put == None && PutReady(s).Some?
    ensures Control(PutReady(s).value)
    ensures Queue(PutReady(s).value) == Queue(s)
  {
  }

  lemma Store<T>(s: State<T>)
    requires Control(s) && s.producer.Putting? && HasRoom(s)
    ensures Control(ProducerNext(s).value)
    ensures Queue(ProducerNext(s).value) == Queue(s) + [s.producer.x]
  {
    StoreControl(s);
    HoldersDiffer(s);
    hide Phases, Ownership;
    var s', b := ProducerNext(s).value, s.Buf(s.put.value);
    SliceStore(b.top, b.idx, s.producer.x);
    assert Unread(s') == Unread(s) && InTransit(s') == InTransit(s);
    assert Filled(s') == Filled(s) + [s.producer.x];
  }

  lemma StoreControl<T>(s: State<T>)
    requires Control(s) && s.producer.Putting? && HasRoom(s)
    ensures Control(ProducerNext(s).value)
  {
  }

  lemma CutBuffer<T>(s: State<T>)
    requires Control(s) && s.producer.Flushing?
    ensures Control(ProducerNext(s).value)
    ensures Queue(ProducerNext(s).value) == Queue(s)
  {
    CutBufferControl(s);
    HoldersDiffer(s);
    hide Phases, Ownership;
    var s' := ProducerNext(s).value;
    assert Unread(s') == Unread(s) && InTransit(s') == InTransit(s) && Filled(s') == Filled(s);
  }

  lemma CutBufferControl<T>(s: State<T>)
    requires Control(s) && s.producer.Flushing?
    ensures Control(ProducerNext(s).value)
  {
    if s.put == Some(false) {
    } else {
    }
  }

  lemma FinishFlush<T>(s: State<T>)
    requires Control(s) && s.producer.Readying? && HasRoom(s)
    ensures Control(ProducerNext(s).value)
    ensures Queue(ProducerNext(s).value) == Queue(s)
  {
  }

  lemma CloseBoth<T>(s: State<T>)
    requires Control(s) && (s.producer.Closing? || s.producer.Resetting?)
    ensures Control(ProducerNext(s).value)
    ensures Queue(ProducerNext(s).value) == Queue(s)
  {
  }

  lemma Read<T>(s: State<T>)
    requires Control(s) && s.getting && s.get.Some? && s.Buf(s.get.value).idx < s.Buf(s.get.value).cnt
    ensures Control(ConsumerNext(s).value)
    ensures Queue(s) == [s.Buf(s.get.value).top[s.Buf(s.get.value).idx]] + Queue(ConsumerNext(s).value)
  {
    hide Phases, Ownership, Unread, InTransit, Filled;
    var s', b := ConsumerNext(s).value, s.Buf(s.get.value);
    ReadControl(s);
    HoldersDiffer(s);
    OneLessUnread(s, s', s.get.value);
    HeadInFront(b.top[b.idx], Unread(s'), InTransit(s'), Filled(s'));
  }

  lemma OneLessUnread<T>(s: State<T>, s': State<T>, i: bool)
    requires Shape(s) && Shape(s') && s.Buf(i).idx < s.Buf(i).cnt
    requires s'.get == s.get == Some(i) && s'.put == s.put != Some(i)
    requires s'.put2get == s.put2get && s.put2get.Held() != Some(i)
    requires s'.Buf(i) == s.Buf(i).(idx := s.Buf(i).idx + 1) && s'.Buf(!i) == s.Buf(!i)
    ensures InTransit(s') == InTransit(s) && Filled(s') == Filled(s)
    ensures Unread(s) == [s.Buf(i).top[s.Buf(i).idx]] + Unread(s')
  {
    var b := s.Buf(i);
    SliceHead(b.top, b.idx, b.cnt);
  }

  lemma HeadInFront<T>(x: T, a: seq<T>, b: seq<T>, c: seq<T>)
    ensures [x] + a + b + c == [x] + (a + b + c)
  {
  }

  lemma ReadControl<T>(s: State<T>)
    requires Control(s) && s.getting && s.get.Some? && s.Buf(s.get.value).idx < s.Buf(s.get.value).cnt
    ensures Control(ConsumerNext(s).value)
  {
  }

  lemma GiveBack<T>(s: State<T>)
    requires Control(s) && s.getting && s.get.Some? && s.Buf(s.get.value).idx == s.Buf(s.get.value).cnt
    requires ConsumerNext(s).Some?
    ensures Control(ConsumerNext(s).value)
    ensures Queue(s) == Queue(ConsumerNext(s).value)
  {
  }

  lemma TakeFull<T>(s: State<T>)
    requires Control(s) && s.getting && s.get == None && ConsumerNext(s).Some?
    ensures Control(ConsumerNext(s).value)
    ensures Queue(s) == Queue(ConsumerNext(s).value)
  {
    TakeFullControl(s);
    HoldersDiffer(s);
    hide Phases, Ownership;
    var s' := ConsumerNext(s).value;
    assert Filled(s') == Filled(s);
    assert Unread(s') + InTransit(s') == InTransit(s);
  }

  lemma TakeFullControl<T>(s: State<T>)
    requires Control(s) && s.getting && s.get == None && ConsumerNext(s).Some?
    ensures Control(ConsumerNext(s).value)
  {
    if s.put2get.Held() == Some(false) {
    } else if s.put2get.Held() == Some(true) {
    }
  }

  /** How a step acts on the abstract queue: it appends what put accepts, takes what get
      returns, or changes nothing. */
  predicate FifoStep<T(==)>(s: State<T>, s': State<T>)
    requires Shape(s) && Shape(s')
  {
    if s'.sent != s.sent then
      s'.received == s.received && |s'.sent| == |s.sent| + 1 && s.sent <= s'.sent
      && Queue(s') == Queue(s) + [s'.sent[|s.sent|]]
    else if s'.received != s.received then
      Queue(s) != [] && s'.received == s.received + [Queue(s)[0]] && Queue(s') == Queue(s)[1..]
    else Queue(s') == Queue(s)
  }

  /** Every step of either thread keeps the invariant and is a step of a FIFO. */
  lemma EveryStepIsFifo<T>(s: State<T>, e: Event<T>)
    requires Inv(s) && Next(s, e).Some?
    ensures Inv(Next(s, e).value) && FifoStep(s, Next(s, e).value)
  {
    match e
    case Begin(_) =>
    case BeginGet =>
    case ProducerStep => ProducerStepIsFifo(s);
    case ConsumerStep => ConsumerStepIsFifo(s);
  }

  lemma ProducerStepIsFifo<T>(s: State<T>)
    requires Inv(s) && ProducerNext(s).Some?
    ensures Inv(ProducerNext(s).value) && FifoStep(s, ProducerNext(s).value)
  {
    hide Phases, Ownership, Queue;
    if s.producer.Flushing? {
      CutBuffer(s);
    } else if s.producer.Closing? || s.producer.Resetting? {
      CloseBoth(s);
    } else if HasRoom(s) {
      if s.producer.Putting? { Store(s); } else { FinishFlush(s); }
    } else if s.put.Some? {
      HandOver(s);
    } else {
      TakeEmpty(s);
    }
  }

  lemma ConsumerStepIsFifo<T>(s: State<T>)
    requires Inv(s) && ConsumerNext(s).Some?
    ensures Inv(ConsumerNext(s).value) && FifoStep(s, ConsumerNext(s).value)
  {
    hide Phases, Ownership, Queue;
    if s.get == None {
      TakeFull(s);
    } else if s.Buf(s.get.value).idx < s.Buf(s.get.value).cnt {
      Read(s);
    } else {
      GiveBack(s);
    }
  }

  /** The events es, in this order, lead from s to s'. */
  ghost predicate Leads<T(!new)>(s: State<T>, es: seq<Event<T>>, s': State<T>)
    decreases |es|
  {
    if es == [] then s == s'
    else Shape(s) && Next(s, es[0]).Some? && Leads(Next(s, es[0]).value, es[1..], s')
  }

  lemma {:induction false} InvOverRuns<T(!new)>(s: State<T>, es: seq<Event<T>>, s': State<T>)
    requires Inv(s) && Leads(s, es, s')
    ensures Inv(s')
    decreases |es|
  {
    if es != [] {
      EveryStepIsFifo(s, es[0]);
      hide Inv, FifoStep;
      InvOverRuns(Next(s, es[0]).value, es[1..], s');
    }
  }

  /** For every interleaving: get returns a prefix of what was put, in order, and reports CLOSED
      only when it has returned all of it. */
  lemma FifoOverRuns<T(!new)>(s: State<T>, es: seq<Event<T>>, s': State<T>)
    requires Initial(s) && Leads(s, es, s')
    ensures s'.received <= s'.sent
    ensures s'.sawClosed ==> s'.received == s'.sent
    ensures s'.producer.Idle? || s'.producer.Putting? || s'.producer.Flushing? ==>
              s'.Owners(false) == s'.Owners(true) == 1
  {
    InitialInv(s);
    InvOverRuns(s, es, s');
  }

  lemma OneOfTwo(o: Option<bool>)
    ensures o == None || o == Some(false) || o == Some(true)
  {
    if o.Some? && o.value { } else if o.Some? { assert !o.value; }
  }

  /** When both threads have a buffer, the channels have none. */
  lemma BothHaveOne<T>(s: State<T>)
    requires Ownership(s) && s.put.Some? && s.get.Some?
    ensures s.put2get.Held() == None && s.get2put.Held() == None
  {
    OneOfTwo(s.put);
    OneOfTwo(s.get);
    OneOfTwo(s.put2get.Held());
    OneOfTwo(s.get2put.Held());
  }

  /** In no reachable state do a call of the producer and a get both wait. */
  lemma NeverBothStuck<T>(s: State<T>)
    requires Inv(s) && !s.producer.Idle? && !s.producer.Closed? && s.getting
    ensures ProducerNext(s).Some? || ConsumerNext(s).Some?
  {
    assert s.put.Some? ==> s.Owners(s.put.value) <= 1;
  }

  /** After close no get waits, neither for a buffer nor to give one back. */
  lemma NoWaitAfterClose<T>(s: State<T>)
    requires Inv(s) && s.producer.Closed? && s.getting
    ensures ConsumerNext(s).Some?
  {
    if s.get.Some? { BothHaveOne(s); }
  }

  /** A get that waits has had everything that has left put_. */
  lemma WaitsForElements<T>(s: State<T>)
    requires Inv(s) && s.getting && Next(s, ConsumerStep) == None
    ensures Unread(s) == [] && InTransit(s) == [] && s.sent == s.received + Filled(s)
    ensures s.producer.Idle? ==> s.get == None && s.put2get.phase == EMPTY
  {
    if s.get.Some? {
      if s.put.Some? { BothHaveOne(s); }
      WaitsToGiveBack(s);
    }
    assert [] + [] + Filled(s) == Filled(s);
  }

  lemma WaitsToGiveBack<T>(s: State<T>)
    requires Control(s) && s.get.Some? && s.get2put.Held().Some?
    ensures s.put2get.Held() == None
  {
    OneOfTwo(s.get);
    OneOfTwo(s.get2put.Held());
    OneOfTwo(s.put2get.Held());
  }

  // ---- the calls made ----

  /** The elements of the puts begun. */
  function PutsOf<T>(es: seq<Event<T>>): seq<T> {
    if es == [] then []
    else (if es[0].Begin? && es[0].c.Put? then [es[0].c.x] else []) + PutsOf(es[1..])
  }

  function BeingPut<T>(s: State<T>): seq<T> {
    if s.producer.Putting? then [s.producer.x] else []
  }

  lemma StepPuts<T>(s: State<T>, e: Event<T>)
    requires Shape(s) && Next(s, e).Some?
    ensures var t := Next(s, e).value; t.sent + BeingPut(t) == s.sent + BeingPut(s) + PutsOf([e])
  {
    hide ProducerNext, ConsumerNext, PutReady;
    match e
    case ProducerStep => ProducerPuts(s);
    case ConsumerStep => ConsumerPutsNothing(s);
    case _ =>
  }

  lemma ProducerPuts<T>(s: State<T>)
    requires Shape(s) && ProducerNext(s).Some?
    ensures var t := ProducerNext(s).value; t.sent + BeingPut(t) == s.sent + BeingPut(s)
  {
    hide Shape, HasRoom;
  }

  lemma ConsumerPutsNothing<T>(s: State<T>)
    requires Shape(s) && ConsumerNext(s).Some?
    ensures var t := ConsumerNext(s).value; t.sent == s.sent && t.producer == s.producer
  {
    hide Shape;
  }

  lemma {:induction false} StepsPut<T(!new)>(s: State<T>, es: seq<Event<T>>, s': State<T>)
    requires Leads(s, es, s')
    ensures s'.sent + BeingPut(s') == s.sent + BeingPut(s) + PutsOf(es)
    decreases |es|
  {
    hide Next, Shape;
    if es != [] {
      var t := Next(s, es[0]).value;
      StepPuts(s, es[0]);
      StepsPut(t, es[1..], s');
      var a, b, d := s.sent + BeingPut(s), PutsOf([es[0]]), PutsOf(es[1..]);
      assert a + b + d == a + (b + d);
    }
  }

  /** In every run what put has accepted is what the puts that have come back were called with. */
  lemma SentIsWhatWasPut<T(!new)>(start: State<T>, es: seq<Event<T>>, s: State<T>)
    requires Initial(start) && Leads(start, es, s)
    ensures s.sent + BeingPut(s) == PutsOf(es)
  {
    hide Leads, PutsOf;
    StepsPut(start, es, s);
    assert start.sent + BeingPut(start) == [];
  }

  /** The producer has begun to close. */
  predicate InClose<T>(s: State<T>) {
    match s.producer
    case Idle | Putting(_) => false
    case Flushing(closing) => closing
    case Readying(closing) => closing
    case Closing | Resetting | Closed => true
  }

  /** No get has been told that the channel is closed, nor will the next one be. */
  predicate Open<T>(s: State<T>) {
    !InClose(s) && !s.sawClosed && (s.put2get.phase == EMPTY || s.put2get.phase == EXIST)
  }

  lemma StepCloses<T>(s: State<T>, e: Event<T>)
    requires Shape(s) && Next(s, e).Some?
    ensures var t := Next(s, e).value;
      && (InClose(t) <==> InClose(s) || e == Begin(Close))
      && (Open(s) && e != Begin(Close) ==> Open(t))
  {
    hide ProducerNext, ConsumerNext, PutReady, Shape;
    match e
    case ProducerStep => ProducerCloses(s);
    case ConsumerStep => ConsumerClosesNothing(s);
    case _ =>
  }

  lemma ProducerCloses<T>(s: State<T>)
    requires Shape(s) && ProducerNext(s).Some?
    ensures var t := ProducerNext(s).value; (InClose(t) <==> InClose(s)) && (Open(s) ==> Open(t))
  {
    hide HasRoom;
  }

  lemma ConsumerClosesNothing<T>(s: State<T>)
    requires Shape(s) && ConsumerNext(s).Some?
    ensures var t := ConsumerNext(s).value; t.producer == s.producer && (Open(s) ==> Open(t))
  {
    hide Shape;
  }

  lemma {:induction false} StepsClose<T(!new)>(s: State<T>, es: seq<Event<T>>, s': State<T>)
    requires Leads(s, es, s')
    ensures InClose(s') <==> InClose(s) || Begin(Close) in es
    ensures Open(s) && Begin(Close) !in es ==> Open(s')
    decreases |es|
  {
    hide Next, Shape, InClose, Open;
    if es != [] {
      StepCloses(s, es[0]);
      StepsClose(Next(s, es[0]).value, es[1..], s');
    }
  }

  /** In every run: the producer closes the channel, for good, if and only if close has been called,
      and before that no get says CLOSED; whoever is in no call can begin any. */
  lemma ClosesWhenTold<T(!new)>(start: State<T>, es: seq<Event<T>>, s: State<T>, c: Command<T>)
    requires Initial(start) && Leads(start, es, s)
    ensures Shape(s) && (InClose(s) <==> Begin(Close) in es)
    ensures s.sawClosed ==> Begin(Close) in es
    ensures s.producer.Idle? ==> Next(s, Begin(c)).Some?
    ensures !s.getting ==> Next(s, BeginGet).Some?
  {
    InitialInv(start);
    InvOverRuns(start, es, s);
    StepsClose(start, es, s);
  }

  // ---- flush ----

  /** The producer is in a flush that close has not called. */
  predicate InFlush<T>(s: State<T>) {
    (s.producer.Flushing? || s.producer.Readying?) && !s.producer.closing
  }

  lemma FlushEmpties<T>(s: State<T>)
    requires Inv(s) && InFlush(s) && Next(s, ProducerStep).Some?
    ensures var t := Next(s, ProducerStep).value; t.producer.Idle? ==> Filled(t) == []
  {
  }

  lemma {:induction false} SentGrows<T(!new)>(s: State<T>, es: seq<Event<T>>, s': State<T>)
    requires Inv(s) && Leads(s, es, s')
    ensures s.sent <= s'.sent
    decreases |es|
  {
    if es != [] {
      EveryStepIsFifo(s, es[0]);
      hide Inv, Queue;
      SentGrows(Next(s, es[0]).value, es[1..], s');
    }
  }

  lemma StaysEmptyInStep<T>(s: State<T>, e: Event<T>, t: State<T>)
    requires Inv(s) && Shape(t) && Next(s, e) == Some(t) && Filled(s) == [] && t.sent == s.sent
    ensures Filled(t) == []
  {
    hide Inv, Queue;
    InvMeans(s);
    HoldersDiffer(s);
    if e == ProducerStep {
      ProducerStaysEmpty(s, t);
    }
  }

  lemma InvMeans<T>(s: State<T>)
    requires Inv(s)
    ensures Control(s)
  {
  }

  lemma ProducerStaysEmpty<T>(s: State<T>, t: State<T>)
    requires Control(s) && Shape(t) && ProducerNext(s) == Some(t) && Filled(s) == [] && t.sent == s.sent
    ensures Filled(t) == []
  {
  }

  lemma {:induction false} StaysEmpty<T(!new)>(s: State<T>, es: seq<Event<T>>, s': State<T>)
    requires Inv(s) && Leads(s, es, s') && Filled(s) == [] && s'.sent == s.sent
    ensures Inv(s') && Filled(s') == []
    decreases |es|
  {
    if es != [] {
      EveryStepIsFifo(s, es[0]);
      SentGrows(Next(s, es[0]).value, es[1..], s');
      hide Inv, Queue;
      StaysEmptyInStep(s, es[0], Next(s, es[0]).value);
      StaysEmpty(Next(s, es[0]).value, es[1..], s');
    }
  }

  /** The get that the consumer is in waits. */
  predicate GetWaits<T(==)>(s: State<T>) {
    Shape(s) && s.getting && Next(s, ConsumerStep) == None
  }

  /** In every run: when a flush comes back put_ holds nothing, and as long as nothing is put then,
      a get that waits has returned everything that was ever put. */
  lemma FlushHandsOver<T(!new)>(start: State<T>, before: seq<Event<T>>, s: State<T>, t: State<T>,
                                after: seq<Event<T>>, s': State<T>)
    requires Initial(start) && Leads(start, before, s)
    requires InFlush(s) && Leads(s, [ProducerStep], t) && t.producer.Idle?
    requires Leads(t, after, s') && s'.sent == s.sent
    ensures Shape(t) && Filled(t) == []
    ensures GetWaits(s') ==> s'.received == s'.sent
  {
    InitialInv(start);
    InvOverRuns(start, before, s);
    InvOverRuns(s, [ProducerStep], t);
    SentGrows(s, [ProducerStep], t);
    SentGrows(t, after, s');
    FlushEmpties(s);
    StaysEmpty(t, after, s');
    if GetWaits(s') { WaitsForElements(s'); }
  }

  /** And at any time a get that waits lacks at most what one buffer holds. */
  lemma WaitsForOneBuffer<T(!new)>(start: State<T>, es: seq<Event<T>>, s: State<T>)
    requires Initial(start) && Leads(start, es, s) && GetWaits(s)
    ensures s.received <= s.sent && |s.sent| <= |s.received| + s.n
  {
    InitialInv(start);
    InvOverRuns(start, es, s);
    WaitsForElements(s);
    assert s.sent[..|s.received|] == s.received;
  }

  function DrainSteps<T>(s: State<T>): nat
    requires Shape(s)
  {
    2 * |Queue(s)| + (if s.put2get.phase == CLOSING then 2 else 0)
    + (if s.get.Some? then 1 else 0) + (if s.getting then 0 else 1)
  }

  lemma DrainProgress<T>(s: State<T>)
    requires Inv(s) && s.producer.Closed? && s.getting && ConsumerNext(s).Some?
    ensures var t := ConsumerNext(s).value;
            Inv(t) && t.producer.Closed? && t.sent == s.sent && (t.sawClosed || DrainSteps(t) < DrainSteps(s))
  {
    ConsumerStepIsFifo(s);
    hide Phases, Ownership, Queue;
  }

  /** After close the consumer alone can go on getting, until it has received every element put,
      and then sees CLOSED. */
  lemma {:induction false} DrainsAfterClose<T(!new)>(s: State<T>) returns (es: seq<Event<T>>, s': State<T>)
    requires Inv(s) && s.producer.Closed?
    ensures Leads(s, es, s') && Inv(s') && s'.sawClosed && s'.received == s'.sent == s.sent
    ensures forall e :: e in es ==> e.BeginGet? || e.ConsumerStep?
    decreases DrainSteps(s)
  {
    if s.sawClosed {
      AllReceived(s);
      es, s' := [], s;
    } else {
      var e: Event<T> := if s.getting then ConsumerStep else BeginGet;
      if s.getting {
        NoWaitAfterClose(s);
        DrainProgress(s);
      } else {
        EveryStepIsFifo(s, e);
      }
      hide Inv, ConsumerNext, Queue;
      var t := Next(s, e).value;
      if t.sawClosed {
        es, s' := [], t;
        AllReceived(t);
      } else {
        es, s' := DrainsAfterClose(t);
      }
      assert ([e] + es)[1..] == es;
      es := [e] + es;
    }
  }

  lemma AllReceived<T>(s: State<T>)
    requires Inv(s) && s.sawClosed
    ensures s.received == s.sent
  {
  }

  /** Having reported CLOSED, get reports it again at every further call. */
  lemma ClosedAgain<T>(s: State<T>)
    requires Inv(s) && s.sawClosed && s.getting
    ensures ConsumerNext(s) == Some(s.(getting := false))
  {
  }
}
