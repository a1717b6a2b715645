/** th_output, th_iter and double_buffer of src/c7nseq/thread.hpp: a thread produces a sequence,
    an iterator consumes it, and two buffers go to and fro between them on two lists.  Every
    interleaving of the critical sections is a run. */
module DoubleBuffer {

  /** A vector.  A buffer in circulation has the capacity both buffers were given at first. */
  datatype Buf<T> = Buf(items: seq<T>, capacity: nat)

  function Flat<T>(bufs: seq<Buf<T>>): seq<T> {
    if bufs == [] then [] else bufs[0].items + Flat(bufs[1..])
  }

  lemma {:induction false} FlatOneMore<T>(bufs: seq<Buf<T>>, b: Buf<T>)
    ensures Flat(bufs + [b]) == Flat(bufs) + b.items
  {
    if bufs == [] {
      assert (bufs + [b])[1..] == [];
    } else {
      FlatOneMore(bufs[1..], b);
      assert (bufs + [b])[1..] == bufs[1..] + [b];
    }
  }

  // ---- the two threads ----

  /** The thread between calls, in put's wait, past its last value or its failed put, and past
      shutdown_producer. */
  datatype Producer = Filling | InPut | Leaving | Finished

  /** The iterator before its first buffer, on one, in get's wait, past its end, and dropped. */
  datatype Consumer = Starting | OnBuffer | InGet | AtEnd | Dropped

  datatype State<T> = State(
    size: nat,
    free: seq<Buf<T>>, wait: seq<Buf<T>>,
    producer: Producer, vTh: Buf<T>,
    consumer: Consumer, vec: Buf<T>, idx: nat,
    produced: seq<T>,      // what the thread has put out
    seen: seq<T>)          // what the iterator has given

  ghost predicate Init<T(!new)>(s: State<T>) {
    && s.size > 0
    && s.free == [Buf([], s.size)] && s.wait == []
    && s.producer == Filling && s.vTh == Buf([], s.size)
    && s.consumer == Starting && s.vec == Buf([], 0) && s.idx == 0
    && s.produced == [] && s.seen == []
  }

  function Empty<T>(): Buf<T> { Buf([], 0) }

  datatype Event<T> =
    | Output(x: T) | PutBegin | PutEnd | Return | ShutdownProducer
    | First | Increment | GetEnd | End | ShutdownConsumer

  predicate Enabled<T>(s: State<T>, e: Event<T>) {
    match e
    case Output(_) => s.producer == Filling && |s.vTh.items| < s.vTh.capacity
    case PutBegin => s.producer == Filling && |s.vTh.items| == s.vTh.capacity
    case PutEnd => s.producer == InPut && s.free != []
    case Return => s.producer == Filling && |s.vTh.items| < s.vTh.capacity
    case ShutdownProducer => s.producer == Leaving
    case First => s.consumer == Starting && s.wait != []
    case Increment => s.consumer == OnBuffer && s.vec.items != [] && s.idx < |s.vec.items|
    case GetEnd => s.consumer == InGet && s.wait != []
    case End => s.consumer == OnBuffer && s.vec.items == [] && s.producer == Finished
    case ShutdownConsumer => s.consumer == OnBuffer || s.consumer == AtEnd
  }

  function Next<T>(s: State<T>, e: Event<T>): State<T>
    requires Enabled(s, e)
  {
    match e
    case Output(x) => s.(vTh := s.vTh.(items := s.vTh.items + [x]), produced := s.produced + [x])
    case PutBegin => s.(wait := s.wait + [s.vTh], vTh := Empty(), producer := InPut)
    case PutEnd =>
      s.(free := s.free[1..], vTh := s.free[0].(items := []),
         producer := if s.free[0].capacity == s.size then Filling else Leaving)
    case Return =>
      // flush, if there is anything to flush
      if s.vTh.items != [] then s.(wait := s.wait + [s.vTh], vTh := Empty(), producer := Leaving)
      else s.(producer := Leaving)
    case ShutdownProducer => s.(wait := s.wait + [Empty()], producer := Finished)
    case First | GetEnd => s.(wait := s.wait[1..], vec := s.wait[0], idx := 0, consumer := OnBuffer)
    case Increment =>
      var t := s.(seen := s.seen + [s.vec.items[s.idx]]);
      if s.idx == |s.vec.items| - 1
      then t.(free := s.free + [s.vec], vec := Empty(), idx := 0, consumer := InGet)
      else t.(idx := s.idx + 1)
    case End => s.(consumer := AtEnd)
    case ShutdownConsumer => s.(free := s.free + [Empty()], consumer := Dropped)
  }

  // ---- what every run keeps ----

  /** What the iterator's buffer still holds. */
  function InHand<T>(s: State<T>): seq<T>
    requires s.idx <= |s.vec.items|
  {
    s.vec.items[s.idx..]
  }

  /** What waits and what is in the thread's buffer. */
  function Pending<T>(s: State<T>): seq<T> {
    Flat(s.wait) + s.vTh.items
  }

  ghost predicate Conserved<T>(s: State<T>) {
    s.idx <= |s.vec.items| && s.produced == s.seen + InHand(s) + Pending(s)
  }

  ghost predicate Full<T>(bufs: seq<Buf<T>>) {
    forall i :: 0 <= i < |bufs| ==> bufs[i].items != []
  }

  /** The iterator has not come to the empty vector that says the thread is done. */
  predicate BeforeMark<T>(s: State<T>) {
    (s.consumer == OnBuffer ==> s.vec.items != []) && s.consumer != AtEnd
  }

  /** The empty vector comes last on the waiting list, once the thread is finished. */
  ghost predicate Marked<T>(s: State<T>) {
    if s.producer != Finished then Full(s.wait) && BeforeMark(s)
    else if s.wait != [] then
      s.wait[|s.wait| - 1] == Empty() && Full(s.wait[..|s.wait| - 1]) && BeforeMark(s)
    else s.vec.items == [] && s.idx == 0 && s.consumer != Starting && s.consumer != InGet
  }

  /** Each thread has a buffer only where it may use one. */
  predicate Placed<T>(s: State<T>) {
    && (s.producer != Filling ==> s.vTh.items == [])
    && (s.consumer == OnBuffer && s.vec.items != [] ==> s.idx < |s.vec.items|)
    && (s.consumer == Starting || s.consumer == InGet ==> s.vec.items == [] && s.idx == 0)
    && (s.consumer == AtEnd ==> s.vec.items == [] && s.idx == 0)
  }

  /** All buffers but the marks of the two shutdowns have the size they were given. */
  ghost predicate Capacities<T>(s: State<T>) {
    && s.size > 0
    && (forall i :: 0 <= i < |s.wait| ==> s.wait[i].items != [] ==> s.wait[i].capacity == s.size)
    && (s.vec.items != [] ==> s.vec.capacity == s.size)
    && (s.producer == Filling ==> s.vTh.capacity == s.size && |s.vTh.items| <= s.size)
    && (forall i :: 0 <= i < |s.free| - 1 ==> s.free[i].capacity == s.size)
    && (s.free != [] && s.consumer != Dropped ==> s.free[|s.free| - 1].capacity == s.size)
    && (s.consumer == Dropped && (s.producer == Filling || s.producer == InPut) ==>
          s.free != [] && s.free[|s.free| - 1].capacity == 0)
  }

  /** As long as the thread runs, both buffers are somewhere. */
  ghost predicate TwoBuffers<T>(s: State<T>) {
    s.producer == Filling || s.producer == InPut ==>
      (if s.producer == Filling then 1 else 0) + |s.wait| + |s.free|
      + (if s.vec.items != [] then 1 else 0) == if s.consumer == Dropped then 3 else 2
  }

  ghost predicate Inv<T>(s: State<T>) {
    Conserved(s) && Marked(s) && Placed(s) && Capacities(s) && TwoBuffers(s)
  }

  lemma FlatFirst<T>(bufs: seq<Buf<T>>)
    requires bufs != []
    ensures Flat(bufs) == bufs[0].items + Flat(bufs[1..])
  {
  }

  predicate ByProducer<T>(e: Event<T>) {
    e.Output? || e.PutBegin? || e.PutEnd? || e.Return? || e.ShutdownProducer?
  }

  lemma PendingKept<T>(s: State<T>, e: Event<T>)
    requires Placed(s) && Enabled(s, e) && ByProducer(e)
    ensures Pending(Next(s, e)) == if e.Output? then Pending(s) + [e.x] else Pending(s)
  {
    hide Flat;
    FlatOneMore(s.wait, s.vTh);
    FlatOneMore<T>(s.wait, Empty());
  }

  lemma Joined<T>(a: seq<T>, b: seq<T>, c: seq<T>, x: T)
    ensures a + b + (c + [x]) == a + b + c + [x]
  {
  }

  lemma ProducerConserved<T>(s: State<T>, e: Event<T>)
    requires Conserved(s) && Placed(s) && Enabled(s, e) && ByProducer(e)
    ensures Conserved(Next(s, e))
  {
    hide Pending;
    PendingKept(s, e);
    if e.Output? { Joined(s.seen, InHand(s), Pending(s), e.x); }
  }

  lemma ConsumerConserved<T>(s: State<T>, e: Event<T>)
    requires Conserved(s) && Placed(s) && Enabled(s, e) && !ByProducer(e)
    ensures Conserved(Next(s, e))
  {
    hide Flat;
    if e.Increment? {
      assert InHand(s)[1..] == InHand(Next(s, e));
      Moved(s.seen, InHand(s), Pending(s));
    } else if e.First? || e.GetEnd? {
      FlatFirst(s.wait);
      assert InHand(s) == [] && InHand(Next(s, e)) == s.wait[0].items;
      assert Pending(s) == s.wait[0].items + Pending(Next(s, e));
    }
  }

  lemma Moved<T>(a: seq<T>, b: seq<T>, c: seq<T>)
    requires b != []
    ensures a + [b[0]] + b[1..] + c == a + b + c
  {
  }

  lemma ProducerMarked<T>(s: State<T>, e: Event<T>)
    requires Marked(s) && Placed(s) && Capacities(s) && Enabled(s, e) && ByProducer(e)
    ensures Marked(Next(s, e)) && Placed(Next(s, e))
  {
    hide Capacities;
    CapacityShown(s);
    if e.ShutdownProducer? { assert (s.wait + [Empty()])[..|s.wait|] == s.wait; }
  }

  lemma ConsumerMarked<T>(s: State<T>, e: Event<T>)
    requires Marked(s) && Placed(s) && Enabled(s, e) && !ByProducer(e)
    ensures Marked(Next(s, e)) && Placed(Next(s, e))
  {
    if (e.First? || e.GetEnd?) && s.producer == Finished && |s.wait| > 1 {
      assert s.wait[1..][..|s.wait| - 2] == s.wait[..|s.wait| - 1][1..];
    }
  }

  lemma CapacityShown<T>(s: State<T>)
    requires Capacities(s)
    ensures s.size > 0 && (s.producer == Filling ==> s.vTh.capacity == s.size)
  {
  }

  lemma ProducerCapacities<T>(s: State<T>, e: Event<T>)
    requires Capacities(s) && Enabled(s, e) && ByProducer(e)
    ensures Capacities(Next(s, e))
  {
  }

  lemma ConsumerCapacities<T>(s: State<T>, e: Event<T>)
    requires Capacities(s) && Enabled(s, e) && !ByProducer(e)
    ensures Capacities(Next(s, e))
  {
  }

  lemma NextTwoBuffers<T>(s: State<T>, e: Event<T>)
    requires Inv(s) && Enabled(s, e)
    ensures TwoBuffers(Next(s, e))
  {
  }

  lemma InitInv<T(!new)>(s: State<T>)
    requires Init(s)
    ensures Inv(s)
  {
  }

  lemma NextInv<T>(s: State<T>, e: Event<T>)
    requires Inv(s) && Enabled(s, e)
    ensures Inv(Next(s, e))
  {
    hide Conserved, Marked, Placed, Capacities, TwoBuffers, Next;
    if ByProducer(e) {
      ProducerConserved(s, e);
      ProducerCapacities(s, e);
      ProducerMarked(s, e);
    } else {
      ConsumerConserved(s, e);
      ConsumerCapacities(s, e);
      ConsumerMarked(s, e);
    }
    NextTwoBuffers(s, e);
  }

  // ---- runs ----

  ghost predicate Run<T(!new)>(run: seq<State<T>>, events: seq<Event<T>>) {
    && |run| == |events| + 1 && Init(run[0])
    && forall i :: 0 <= i < |events| ==> Enabled(run[i], events[i]) && run[i + 1] == Next(run[i], events[i])
  }

  lemma {:induction false} InvOverRuns<T(!new)>(run: seq<State<T>>, events: seq<Event<T>>, i: nat)
    requires Run(run, events) && i < |run|
    ensures Inv(run[i])
  {
    if i == 0 {
      InitInv(run[0]);
    } else {
      InvOverRuns(run, events, i - 1);
      NextInv(run[i - 1], events[i - 1]);
    }
  }

  /** What the iterator gives is what the thread put out, in order; at its end all of it. */
  lemma SeesWhatIsProduced<T(!new)>(run: seq<State<T>>, events: seq<Event<T>>, i: nat)
    requires Run(run, events) && i < |run|
    ensures run[i].seen <= run[i].produced
    ensures run[i].consumer == AtEnd ==> run[i].seen == run[i].produced && run[i].producer == Finished
  {
    InvOverRuns(run, events, i);
    var s := run[i];
    assert s.produced[..|s.seen|] == s.seen;
  }

  predicate ProducerStuck<T>(s: State<T>) { s.producer == InPut && s.free == [] }

  predicate ConsumerStuck<T>(s: State<T>) {
    (s.consumer == Starting || s.consumer == InGet) && s.wait == []
  }

  /** The two threads never wait for each other, and the iterator's end is reached. */
  lemma NeverBothStuck<T(!new)>(run: seq<State<T>>, events: seq<Event<T>>, i: nat)
    requires Run(run, events) && i < |run|
    ensures !(ProducerStuck(run[i]) && ConsumerStuck(run[i]))
    ensures run[i].producer == Finished ==> !ConsumerStuck(run[i])
    ensures run[i].consumer == Dropped ==> !ProducerStuck(run[i])
  {
    InvOverRuns(run, events, i);
  }

  /** Each thread can take its next step unless it waits: as long as its buffer is not full the
      producer can put out any value or return, and a full one it hands over. */
  lemma GoesOnUnlessStuck<T(!new)>(run: seq<State<T>>, events: seq<Event<T>>, i: nat, x: T)
    requires Run(run, events) && i < |run|
    ensures var s := run[i];
      match s.producer
      case Filling =>
        && |s.vTh.items| <= s.size
        && if |s.vTh.items| < s.size then Enabled(s, Event.Output(x)) && Enabled(s, Return) && !Enabled(s, PutBegin)
           else Enabled(s, PutBegin) && !Enabled(s, Event.Output(x))
      case InPut => ProducerStuck(s) || Enabled(s, PutEnd)
      case Leaving => Enabled(s, ShutdownProducer)
      case Finished => true
    ensures var s := run[i];
      match s.consumer
      case Starting => ConsumerStuck(s) || Enabled(s, First)
      case InGet => ConsumerStuck(s) || Enabled(s, GetEnd)
      case OnBuffer => Enabled(s, if s.vec.items != [] then Increment else End) && Enabled(s, ShutdownConsumer)
      case AtEnd => Enabled(s, ShutdownConsumer)
      case Dropped => true
  {
    InvOverRuns(run, events, i);
  }

  /** An iterator that waits has given all values put out but for those in the thread's buffer,
      which is not full, and all of them once the thread has left its function. */
  lemma WaitsForValues<T(!new)>(run: seq<State<T>>, events: seq<Event<T>>, i: nat)
    requires Run(run, events) && i < |run| && ConsumerStuck(run[i])
    ensures var s := run[i];
      && s.seen <= s.produced && |s.produced| <= |s.seen| + s.size
      && (s.producer != Filling ==> s.seen == s.produced)
  {
    InvOverRuns(run, events, i);
    var s := run[i];
    assert InHand(s) == [] && Flat(s.wait) == [];
    assert s.produced == s.seen + s.vTh.items;
  }

  // ---- the iterator on its own ----

  ghost predicate Leads<T>(s: State<T>, es: seq<Event<T>>, t: State<T>)
    decreases |es|
  {
    if es == [] then s == t else Enabled(s, es[0]) && Leads(Next(s, es[0]), es[1..], t)
  }

  /** What the iterator still has to do. */
  function Measure<T>(s: State<T>): int {
    2 * (|s.produced| - |s.seen|) + |s.wait| + if s.consumer == AtEnd then 0 else 1
  }

  lemma ConsumerProgress<T>(s: State<T>, e: Event<T>)
    requires Inv(s) && s.producer == Finished && Enabled(s, e) && !ByProducer(e) && e != ShutdownConsumer
    ensures var t := Next(s, e);
      && t.producer == Finished && t.consumer != Dropped && t.produced == s.produced
      && Measure(t) >= 0 && Measure(t) < Measure(s)
  {
    NextInv(s, e);
    SeenIsPrefix(s);
    SeenIsPrefix(Next(s, e));
  }

  lemma SeenIsPrefix<T>(s: State<T>)
    requires Conserved(s)
    ensures s.seen <= s.produced
  {
    assert s.produced == s.seen + (InHand(s) + Pending(s));
  }

  lemma FinishedGoesOn<T>(s: State<T>) returns (e: Event<T>)
    requires Inv(s) && s.producer == Finished && s.consumer != Dropped && s.consumer != AtEnd
    ensures Enabled(s, e) && !ByProducer(e) && e != ShutdownConsumer
  {
    e := match s.consumer
      case Starting => First
      case InGet => GetEnd
      case _ => if s.vec.items != [] then Increment else End;
  }

  /** Once the thread is finished the iterator alone reaches its end, and has then given all. */
  lemma {:induction false} ReachesEnd<T(!new)>(s: State<T>) returns (es: seq<Event<T>>, t: State<T>)
    requires Inv(s) && s.producer == Finished && s.consumer != Dropped
    ensures Leads(s, es, t) && t.consumer == AtEnd && t.seen == t.produced == s.produced
    ensures forall e :: e in es ==> e == First || e == Increment || e == GetEnd || e == End
    decreases Measure(s)
  {
    hide Inv, Enabled, Next, Measure;
    if s.consumer == AtEnd {
      EndHasAll(s);
      es, t := [], s;
    } else {
      var e := FinishedGoesOn(s);
      ConsumerProgress(s, e);
      NextInv(s, e);
      es, t := ReachesEnd(Next(s, e));
      assert ([e] + es)[1..] == es;
      es := [e] + es;
    }
  }

  // ---- the iterator dropped early ----

  /** How many real buffers lie before the one of shutdown_consumer. */
  function Before<T>(free: seq<Buf<T>>, size: nat): nat {
    if free == [] || free[0].capacity != size then 0 else 1 + Before(free[1..], size)
  }

  lemma {:induction false} AllBefore<T>(free: seq<Buf<T>>, size: nat)
    requires size > 0 && free != [] && free[|free| - 1].capacity == 0
    requires forall i :: 0 <= i < |free| - 1 ==> free[i].capacity == size
    ensures Before(free, size) == |free| - 1
  {
    if |free| > 1 { AllBefore(free[1..], size); }
  }

  predicate Running<T>(s: State<T>) {
    s.producer == Filling || s.producer == InPut
  }

  /** A put that gives the thread a buffer to go on with. */
  ghost predicate PutSucceeds<T(!new)>(run: seq<State<T>>, events: seq<Event<T>>, k: nat)
    requires Run(run, events) && k < |events|
  {
    events[k] == PutEnd && run[k + 1].producer == Filling
  }

  /** How many puts succeed from step i up to step j. */
  ghost function Successes<T(!new)>(run: seq<State<T>>, events: seq<Event<T>>, i: nat, j: nat): nat
    requires Run(run, events) && i <= j <= |events|
    decreases j
  {
    if i == j then 0 else Successes(run, events, i, j - 1) + if PutSucceeds(run, events, j - 1) then 1 else 0
  }

  /** After the drop only a put uses up a buffer, and nothing adds to them. */
  lemma DroppedStep<T(!new)>(run: seq<State<T>>, events: seq<Event<T>>, i: nat)
    requires Run(run, events) && i < |events| && run[i].consumer == Dropped
    ensures run[i + 1].consumer == Dropped && (Running(run[i + 1]) ==> Running(run[i]))
    ensures events[i] == PutEnd ==> Running(run[i])
    ensures Running(run[i]) ==>
      var b, b' := Before(run[i].free, run[i].size), Before(run[i + 1].free, run[i + 1].size);
      && b <= 2
      && (events[i] != PutEnd ==> b' == b)
      && (events[i] == PutEnd ==> if b > 0 then b' == b - 1 && run[i + 1].producer == Filling
                                  else run[i + 1].producer == Leaving)
  {
    InvOverRuns(run, events, i);
    var s := run[i];
    assert Enabled(s, events[i]) && run[i + 1] == Next(s, events[i]);
    if Running(s) { AllBefore(s.free, s.size); }
  }

  lemma {:induction false} BuffersRunOut<T(!new)>(run: seq<State<T>>, events: seq<Event<T>>, i: nat, j: nat)
    requires Run(run, events) && i <= j <= |events| && run[i].consumer == Dropped
    ensures run[j].consumer == Dropped && (Running(run[j]) ==> Running(run[i]))
    ensures !Running(run[i]) ==> Successes(run, events, i, j) == 0
    ensures var b := Before(run[i].free, run[i].size);
      && (Running(run[i]) ==> Successes(run, events, i, j) <= b)
      && (Running(run[j]) ==> Successes(run, events, i, j) + Before(run[j].free, run[j].size) == b)
    decreases j
  {
    hide Run, Before, Next, Enabled;
    if i < j {
      BuffersRunOut(run, events, i, j - 1);
      DroppedStep(run, events, j - 1);
    }
  }

  /** In every run: after the iterator is dropped at most two puts succeed, as many as there are
      buffers, and the next one that comes back makes the thread leave. */
  lemma PutsRunOut<T(!new)>(run: seq<State<T>>, events: seq<Event<T>>, i: nat, j: nat)
    requires Run(run, events) && i <= j <= |events| && run[i].consumer == Dropped
    ensures Successes(run, events, i, j) <= 2
    ensures j < |events| && events[j] == PutEnd ==>
      if Successes(run, events, i, j) < Before(run[i].free, run[i].size) <= 2
      then run[j + 1].producer == Filling else run[j + 1].producer == Leaving
  {
    hide Before, Next, Enabled;
    BuffersRunOut(run, events, i, j);
    if Running(run[i]) { AtMostTwo(run, events, i); }
    if j < |events| { DroppedStep(run, events, j); }
  }

  lemma AtMostTwo<T(!new)>(run: seq<State<T>>, events: seq<Event<T>>, i: nat)
    requires Run(run, events) && i < |run| && run[i].consumer == Dropped && Running(run[i])
    ensures Before(run[i].free, run[i].size) <= 2
  {
    InvOverRuns(run, events, i);
    AllBefore(run[i].free, run[i].size);
  }

  // ---- in memory ----

  /** The lists of double_buffer with the thread's buffer of th_output and the iterator's of
      th_iter.  A method is one critical section, or what a thread does between two of them; a
      wait on the condition variable lies between UpToWait and BehindWait, which needs what the
      wait is for. */
  class Shared<T(!new)> {
    const size: nat
    var free: seq<Buf<T>>
    var wait: seq<Buf<T>>
    var vTh: Buf<T>
    var vec: Buf<T>
    var idx: nat
    ghost var state: State<T>

    ghost predicate Valid()
      reads this
    {
      && state.size == size && state.free == free && state.wait == wait
      && state.vTh == vTh && state.vec == vec && state.idx == idx
      && Inv(state)
    }

    /** double_buffer and init_producer. */
    constructor (size: nat)
      requires size > 0
      ensures Valid() && Init(state) && this.size == size
    {
      this.size := size;
      var lists := [Buf([], size), Buf([], size)];
      vTh, free, wait := lists[0], lists[1..], [];
      vec, idx := Buf([], 0), 0;
      state := State(size, [Buf([], size)], [], Filling, Buf([], size), Starting, Buf([], 0), 0, [], []);
      new;
      InitInv(state);
    }

    /** operator<< of th_output, up to its put. */
    method Output(x: T) returns (full: bool)
      requires Valid() && Enabled(state, Event.Output(x))
      modifies this
      ensures Valid() && state == Next(old(state), Event.Output(x))
      ensures full <==> Enabled(state, PutBegin)
    {
      NextInv(state, Event.Output(x));
      state := Next(state, Event.Output(x));
      vTh := vTh.(items := vTh.items + [x]);
      full := |vTh.items| == vTh.capacity;
    }

    method PutUpToWait()
      requires Valid() && Enabled(state, PutBegin)
      modifies this
      ensures Valid() && state == Next(old(state), PutBegin)
    {
      NextInv(state, PutBegin);
      state := Next(state, PutBegin);
      wait := wait + [vTh];
      vTh := Empty();
    }

    method PutBehindWait() returns (ok: bool)
      requires Valid() && Enabled(state, PutEnd)
      modifies this
      ensures Valid() && state == Next(old(state), PutEnd)
      ensures ok <==> state.producer == Filling
    {
      NextInv(state, PutEnd);
      state := Next(state, PutEnd);
      vTh := free[0];
      vTh := vTh.(items := []);
      free := free[1..];
      ok := vTh.capacity == size;
    }

    /** flush of th_output, when the thread's function has returned. */
    method Flush()
      requires Valid() && Enabled(state, Return)
      modifies this
      ensures Valid() && state == Next(old(state), Return)
    {
      NextInv(state, Return);
      state := Next(state, Return);
      if |vTh.items| != 0 {
        wait := wait + [vTh];
        vTh := Empty();
      }
    }

    method ShutDownProducer()
      requires Valid() && Enabled(state, ShutdownProducer)
      modifies this
      ensures Valid() && state == Next(old(state), ShutdownProducer)
    {
      NextInv(state, ShutdownProducer);
      state := Next(state, ShutdownProducer);
      wait := wait + [Empty()];
    }

    method InitConsumerBehindWait()
      requires Valid() && Enabled(state, First)
      modifies this
      ensures Valid() && state == Next(old(state), First)
    {
      NextInv(state, First);
      state := Next(state, First);
      vec := wait[0];
      wait := wait[1..];
    }

    /** operator*: the next of the values put out that has not been given. */
    method Value() returns (x: T)
      requires Valid() && Enabled(state, Increment)
      ensures |state.seen| < |state.produced| && x == state.produced[|state.seen|]
    {
      assert state.produced == state.seen + InHand(state) + Pending(state);
      assert InHand(state)[0] == vec.items[idx];
      x := vec.items[idx];
    }

    /** operator++, up to the wait of get if the buffer is used up. */
    method Step() returns (waits: bool)
      requires Valid() && Enabled(state, Increment)
      modifies this
      ensures Valid() && state == Next(old(state), Increment)
      ensures waits <==> state.consumer == InGet
    {
      NextInv(state, Increment);
      state := Next(state, Increment);
      waits := idx == |vec.items| - 1;
      if waits {
        free := free + [vec];
        vec, idx := Empty(), 0;
      } else {
        idx := idx + 1;
      }
    }

    method GetBehindWait()
      requires Valid() && Enabled(state, GetEnd)
      modifies this
      ensures Valid() && state == Next(old(state), GetEnd)
    {
      NextInv(state, GetEnd);
      state := Next(state, GetEnd);
      vec := wait[0];
      wait := wait[1..];
      idx := 0;
    }

    /** The comparison with th_iter_end, whose join comes back once the thread is finished: all
        that was put out has been given. */
    method IsEnd() returns (end: bool)
      requires Valid() && state.consumer == OnBuffer && (vec.items == [] ==> state.producer == Finished)
      modifies `state
      ensures Valid() && (end <==> state.consumer == AtEnd)
      ensures state == if end then Next(old(state), End) else old(state)
      ensures end ==> state.seen == state.produced
    {
      end := |vec.items| == 0;
      if end {
        NextInv(state, End);
        state := Next(state, End);
        EndHasAll(state);
      }
    }

    method ShutDownConsumer()
      requires Valid() && Enabled(state, ShutdownConsumer)
      modifies this
      ensures Valid() && state == Next(old(state), ShutdownConsumer)
    {
      NextInv(state, ShutdownConsumer);
      state := Next(state, ShutdownConsumer);
      free := free + [Empty()];
    }
  }

  lemma EndHasAll<T>(s: State<T>)
    requires Inv(s) && s.consumer == AtEnd
    ensures s.seen == s.produced && s.producer == Finished
  {
  }
}
