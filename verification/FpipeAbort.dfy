/** abort of fpipe in src/c7threadcom.hpp: another thread ends both channels, one after the other,
    while producer and consumer go on with their blocking calls. */
module FpipeAbort {
  import opened Wrappers
  import opened Pipe1
  import Fpipe

  /** abort is not called yet, between its two channels, or done. */
  datatype Aborter = NotCalled | HalfDone | Done

  datatype State<T> = State(pipe: Fpipe.State<T>, aborter: Aborter)

  datatype Event<T> = Step(e: Fpipe.Event<T>) | AbortStep

  /** The call the producer is in comes back with ABORT. */
  predicate ProducerAborted<T>(p: Fpipe.State<T>) {
    && (p.producer.Putting? || p.producer.Readying?) && !Fpipe.HasRoom(p)
    && if p.put.Some? then p.put2get.Put(p.put.value).1 == ABORT else p.get2put.Get().1 == ABORT
  }

  /** close goes on after a flush that was aborted. */
  function AfterAbort<T>(producer: Fpipe.Producer<T>): Fpipe.Producer<T> {
    if producer.Readying? && producer.closing then Fpipe.Closing else Fpipe.Idle
  }

  /** The buffer of the consumer is read to its end. */
  predicate Exhausted<T>(p: Fpipe.State<T>) {
    p.get.Some? && p.Buf(p.get.value).idx >= p.Buf(p.get.value).cnt
  }

  /** The get the consumer is in comes back with ABORT. */
  predicate ConsumerAborted<T>(p: Fpipe.State<T>) {
    p.getting &&
    if p.get == None then p.put2get.Get().1 == ABORT
    else Exhausted(p) && p.get2put.Put(p.get.value).1 == ABORT
  }

  /** One atomic step; None while it waits or does not apply. */
  function Next<T>(s: State<T>, event: Event<T>): Option<State<T>>
    requires Fpipe.Shape(s.pipe)
  {
    match event
    case AbortStep => AbortNext(s)
    case Step(e) =>
      var next := Fpipe.Next(s.pipe, e);
      if next.Some? then Some(s.(pipe := next.value))
      else if e.ProducerStep? && ProducerAborted(s.pipe) then
        Some(s.(pipe := s.pipe.(producer := AfterAbort(s.pipe.producer))))
      else if e.ConsumerStep? && ConsumerAborted(s.pipe) then
        Some(s.(pipe := s.pipe.(getting := false)))
      else None
  }

  function AbortNext<T>(s: State<T>): Option<State<T>> {
    match s.aborter
    case NotCalled => Some(State(s.pipe.(get2put := s.pipe.get2put.Abort()), HalfDone))
    case HalfDone => Some(State(s.pipe.(put2get := s.pipe.put2get.Abort()), Done))
    case Done => None
  }

  /** What is aborted stays so, but for get2put_ when close resets it. */
  predicate Inv<T>(s: State<T>) {
    && Fpipe.Shape(s.pipe)
    && (s.aborter == Done ==> s.pipe.put2get.phase == ABORTED)
    && (s.aborter != NotCalled && !s.pipe.producer.Closed? ==> s.pipe.get2put.phase == ABORTED)
    && (s.aborter != NotCalled && s.pipe.producer.Closed? ==> s.pipe.get2put.phase in {EMPTY, EXIST, ABORTED})
  }

  predicate Starts<T>(s: State<T>) {
    && Fpipe.Initial(s.pipe) && s.pipe.put2get.Valid() && s.pipe.get2put.Valid()
    && s.aborter == NotCalled
  }

  /** The events lead from s to s'. */
  predicate Leads<T(==)>(s: State<T>, es: seq<Event<T>>, s': State<T>)
    decreases |es|
  {
    if es == [] then s == s'
    else Fpipe.Shape(s.pipe) && Next(s, es[0]).Some? && Leads(Next(s, es[0]).value, es[1..], s')
  }

  lemma PutReadyShape<T>(p: Fpipe.State<T>)
    requires Fpipe.Shape(p) && Fpipe.PutReady(p).Some?
    ensures Fpipe.Shape(Fpipe.PutReady(p).value)
  {
  }

  lemma WithShape<T>(p: Fpipe.State<T>, i: bool, b: Fpipe.Buf<T>)
    requires Fpipe.Shape(p) && Fpipe.Fits(b, p.n)
    ensures Fpipe.Shape(p.With(i, b))
  {
  }

  lemma ProducerShape<T>(p: Fpipe.State<T>)
    requires Fpipe.Shape(p) && Fpipe.ProducerNext(p).Some?
    ensures Fpipe.Shape(Fpipe.ProducerNext(p).value)
  {
    hide Fpipe.PutReady;
    match p.producer
    case Putting(x) =>
      if Fpipe.HasRoom(p) {
        var b := p.Buf(p.put.value);
        WithShape(p, p.put.value, Fpipe.Buf(b.top[b.idx := x], b.cnt, b.idx + 1));
      } else {
        PutReadyShape(p);
      }
    case Flushing(_) =>
      if p.put.Some? {
        var b := p.Buf(p.put.value);
        WithShape(p, p.put.value, b.(cnt := b.idx));
      }
    case Readying(_) =>
      if !Fpipe.HasRoom(p) { PutReadyShape(p); }
    case _ =>
  }

  lemma ConsumerShape<T>(p: Fpipe.State<T>)
    requires Fpipe.Shape(p) && Fpipe.ConsumerNext(p).Some?
    ensures Fpipe.Shape(Fpipe.ConsumerNext(p).value)
  {
  }

  lemma ProducerInv<T>(s: State<T>)
    requires Inv(s) && Next(s, Step(Fpipe.ProducerStep)).Some?
    ensures Inv(Next(s, Step(Fpipe.ProducerStep)).value)
  {
    hide Fpipe.Shape;
    if Fpipe.ProducerNext(s.pipe).Some? {
      ProducerShape(s.pipe);
    } else {
      SameShape(s.pipe, s.pipe.(producer := AfterAbort(s.pipe.producer)));
    }
  }

  lemma ConsumerInv<T>(s: State<T>)
    requires Inv(s) && Next(s, Step(Fpipe.ConsumerStep)).Some?
    ensures Inv(Next(s, Step(Fpipe.ConsumerStep)).value)
  {
    hide Fpipe.Shape;
    if Fpipe.ConsumerNext(s.pipe).Some? {
      ConsumerShape(s.pipe);
    } else {
      SameShape(s.pipe, s.pipe.(getting := false));
    }
  }

  lemma SameShape<T>(p: Fpipe.State<T>, q: Fpipe.State<T>)
    requires Fpipe.Shape(p) && q == p.(producer := q.producer, getting := q.getting)
    ensures Fpipe.Shape(q)
  {
  }

  lemma NextInv<T>(s: State<T>, e: Event<T>)
    requires Inv(s) && Next(s, e).Some?
    ensures Inv(Next(s, e).value)
  {
    hide Inv, Next;
    if e == Step(Fpipe.ProducerStep) {
      ProducerInv(s);
    } else if e == Step(Fpipe.ConsumerStep) {
      ConsumerInv(s);
    } else {
      OtherInv(s, e);
    }
  }

  lemma OtherInv<T>(s: State<T>, e: Event<T>)
    requires Inv(s) && Next(s, e).Some? && (e.AbortStep? || e.e.Begin? || e.e.BeginGet?)
    ensures Inv(Next(s, e).value)
  {
  }

  lemma {:induction false} InvOverRuns<T>(s: State<T>, es: seq<Event<T>>, s': State<T>)
    requires Inv(s) && Leads(s, es, s')
    ensures Inv(s')
    decreases |es|
  {
    hide Inv, Next;
    if es != [] {
      NextInv(s, es[0]);
      InvOverRuns(Next(s, es[0]).value, es[1..], s');
    }
  }

  lemma StartInv<T>(s: State<T>)
    requires Starts(s)
    ensures Inv(s)
  {
  }

  // ---- who waits after abort ----

  predicate ProducerCalls<T>(s: State<T>) {
    !s.pipe.producer.Idle? && !s.pipe.producer.Closed?
  }

  predicate ProducerWaits<T>(s: State<T>)
    requires Fpipe.Shape(s.pipe)
  {
    ProducerCalls(s) && Next(s, Step(Fpipe.ProducerStep)) == None
  }

  predicate ConsumerWaits<T>(s: State<T>)
    requires Fpipe.Shape(s.pipe)
  {
    s.pipe.getting && Next(s, Step(Fpipe.ConsumerStep)) == None
  }

  /** The consumer has one buffer, and close has reset get2put_, where the other one lies. */
  predicate Stranded<T>(s: State<T>) {
    s.pipe.producer.Closed? && s.pipe.get2put.phase == EXIST && s.pipe.get.Some?
  }

  /** Once abort is done, this does not change any more. */
  lemma StrandedForGood<T>(s: State<T>, e: Event<T>)
    requires Inv(s) && s.aborter == Done && Next(s, e).Some?
    ensures Next(s, e).value.aborter == Done
    ensures Stranded(Next(s, e).value) <==> Stranded(s)
  {
  }

  lemma WaitsWhenStranded<T>(s: State<T>)
    requires Inv(s) && s.aborter == Done
    ensures !ProducerWaits(s)
    ensures ConsumerWaits(s) <==> s.pipe.getting && Stranded(s) && Exhausted(s.pipe)
  {
  }

  lemma {:induction false} StrandedSince<T>(s: State<T>, es: seq<Event<T>>, s': State<T>)
    requires Inv(s) && s.aborter == Done && Leads(s, es, s')
    ensures Inv(s') && s'.aborter == Done
    ensures Stranded(s') <==> Stranded(s)
    decreases |es|
  {
    hide Inv, Next, Stranded;
    if es != [] {
      NextInv(s, es[0]);
      StrandedForGood(s, es[0]);
      StrandedSince(Next(s, es[0]).value, es[1..], s');
    }
  }

  /** In every run: once abort is done no call of the producer waits, and a get waits if and only
      if the consumer was stranded when abort came back and has read its buffer to the end. */
  lemma AbortEndsTheWaits<T>(start: State<T>, before: seq<Event<T>>, s: State<T>, after: seq<Event<T>>, s': State<T>)
    requires Starts(start) && Leads(start, before, s) && s.aborter == Done && Leads(s, after, s')
    ensures Fpipe.Shape(s'.pipe) && !ProducerWaits(s')
    ensures ConsumerWaits(s') <==> s'.pipe.getting && Stranded(s) && Exhausted(s'.pipe)
  {
    hide Leads, Stranded, ProducerWaits, ConsumerWaits, Exhausted;
    StartInv(start);
    InvOverRuns(start, before, s);
    StrandedSince(s, after, s');
    WaitsWhenStranded(s');
  }

  // ---- a stranded consumer ----

  lemma {:induction false} LeadsOn<T>(s: State<T>, es: seq<Event<T>>, s': State<T>, es': seq<Event<T>>, s'': State<T>)
    requires Leads(s, es, s') && Leads(s', es', s'')
    ensures Leads(s, es + es', s'')
    decreases |es|
  {
    hide Next;
    if es == [] {
      assert es + es' == es';
    } else {
      assert (es + es')[1..] == es[1..] + es';
      LeadsOn(Next(s, es[0]).value, es[1..], s', es', s'');
    }
  }

  lemma OneMore<T>(s: State<T>, es: seq<Event<T>>, t: State<T>, e: Event<T>, u: State<T>)
    requires Leads(s, es, t) && Fpipe.Shape(t.pipe) && Next(t, e) == Some(u)
    ensures Leads(s, es + [e], u)
  {
    hide Next;
    assert [e][1..] == [] && Leads(t, [e], u);
    LeadsOn(s, es, t, [e], u);
  }

  function Pipe(idx0: nat, put: Option<bool>, get: Option<bool>, put2get: Slot<bool>, get2put: Slot<bool>,
                producer: Fpipe.Producer<int>, getting: bool, received: seq<int>): Fpipe.State<int>
  {
    Fpipe.State(1, Fpipe.Buf([7], 1, idx0), Fpipe.Buf([0], 1, 1), put, get, put2get, get2put,
                producer, getting, [7], received, false)
  }

  const FRESH: Slot<bool> := Slot(EMPTY, None, 0, 0)

  /** close has got to the put_ready of its flush. */
  function Flushed(): State<int> {
    State(Pipe(1, Some(false), Some(true), FRESH, FRESH, Fpipe.Readying(true), false, []), NotCalled)
  }

  /** abort comes in between; close has gone on to its end. */
  function ClosedMeanwhile(): State<int> {
    State(Pipe(1, None, Some(true), Slot(CLOSING, Some(false), 1, 0), FRESH, Fpipe.Closed, false, []), HalfDone)
  }

  /** abort has come back, and the consumer is in its next get. */
  function Left(): State<int> {
    State(Pipe(1, None, Some(false), Slot(ABORTED, Some(false), 1, 1), Slot(EXIST, Some(true), 1, 0),
               Fpipe.Closed, true, [7]), Done)
  }

  function Producing(): Event<int> { Step(Fpipe.ProducerStep) }

  function Consuming(): Event<int> { Step(Fpipe.ConsumerStep) }

  lemma FirstPart() returns (start: State<int>, es: seq<Event<int>>)
    ensures Starts(start) && Leads(start, es, Flushed())
  {
    hide Leads;
    start := State(Fpipe.State(1, Fpipe.Buf([0], 1, 0), Fpipe.Buf([0], 1, 1), Some(false), Some(true), FRESH, FRESH,
                               Fpipe.Idle, false, [], [], false), NotCalled);
    assert [0][0 := 7] == [7] && [] + [7] == [7];
    es := Chained(start, Step(Fpipe.Begin(Fpipe.Put(7))), Producing(), Step(Fpipe.Begin(Fpipe.Close)), Producing());
  }

  /** Four steps, all of which apply. */
  lemma Chained(s: State<int>, a: Event<int>, b: Event<int>, c: Event<int>, d: Event<int>) returns (es: seq<Event<int>>)
    requires Fpipe.Shape(s.pipe) && Next(s, a).Some?
    requires var s1 := Next(s, a).value;
      && Fpipe.Shape(s1.pipe) && Next(s1, b).Some?
      && var s2 := Next(s1, b).value;
         && Fpipe.Shape(s2.pipe) && Next(s2, c).Some?
         && var s3 := Next(s2, c).value; Fpipe.Shape(s3.pipe) && Next(s3, d).Some?
    ensures es == [a, b, c, d]
    ensures Leads(s, es, Next(Next(Next(Next(s, a).value, b).value, c).value, d).value)
  {
    hide Next;
    es := [a, b, c, d];
    var s1 := Next(s, a).value;
    var s2 := Next(s1, b).value;
    var s3 := Next(s2, c).value;
    var s4 := Next(s3, d).value;
    assert Leads(s, [], s);
    assert [] + [a] == [a] && [a] + [b] == [a, b] && [a, b] + [c] == [a, b, c] && [a, b, c] + [d] == es;
    OneMore(s, [], s, a, s1);
    OneMore(s, [a], s1, b, s2);
    OneMore(s, [a, b], s2, c, s3);
    OneMore(s, [a, b, c], s3, d, s4);
  }

  lemma SecondPart() returns (es: seq<Event<int>>)
    ensures Leads(Flushed(), es, ClosedMeanwhile())
  {
    hide Leads;
    es := Chained(Flushed(), Producing(), AbortStep, Producing(), Producing());
    var s := State(Pipe(1, None, Some(true), Slot(CLOSING, Some(false), 1, 0), Slot(ABORTED, None, 0, 0),
                        Fpipe.Resetting, false, []), HalfDone);
    OneMore(Flushed(), es, s, Producing(), ClosedMeanwhile());
    es := es + [Producing()];
  }

  /** The consumer has given its buffer back, and got and read the other one. */
  function ReadMeanwhile(): State<int> {
    State(Pipe(1, None, Some(false), Slot(CLOSED, Some(false), 1, 1), Slot(EXIST, Some(true), 1, 0),
               Fpipe.Closed, false, [7]), HalfDone)
  }

  lemma ThirdPart() returns (es: seq<Event<int>>)
    ensures Leads(ClosedMeanwhile(), es, ReadMeanwhile())
  {
    hide Leads;
    assert [] + [7] == [7];
    es := Chained(ClosedMeanwhile(), Step(Fpipe.BeginGet), Consuming(), Consuming(), Consuming());
  }

  lemma FourthPart() returns (es: seq<Event<int>>)
    ensures Leads(ReadMeanwhile(), es, Left())
  {
    var s := ReadMeanwhile();
    var t := State(s.pipe.(put2get := s.pipe.put2get.Abort()), Done);
    assert Leads(s, [], s);
    hide Leads;
    es := [];
    OneMore(s, es, s, AbortStep, t);
    es := es + [AbortStep];
    OneMore(s, es, t, Step(Fpipe.BeginGet), Left());
    es := es + [Step(Fpipe.BeginGet)];
  }

  /** One element is put, and close hands it over; abort ends get2put_, close goes on to its end,
      the consumer takes the element, and only then abort ends put2get_.  The next get waits, and
      nothing will ever wake it. */
  lemma GetWaitsForEver() returns (start: State<int>, es: seq<Event<int>>)
    ensures Starts(start) && Leads(start, es, Left())
    ensures Left().aborter == Done && Stranded(Left()) && ConsumerWaits(Left())
    ensures forall after, s' :: Leads(Left(), after, s') && s'.pipe.getting && Exhausted(s'.pipe) ==>
      Fpipe.Shape(s'.pipe) && ConsumerWaits(s')
  {
    hide Leads;
    var es0, es1, es2, es3;
    start, es0 := FirstPart();
    es1 := SecondPart();
    es2 := ThirdPart();
    es3 := FourthPart();
    LeadsOn(start, es0, Flushed(), es1, ClosedMeanwhile());
    LeadsOn(start, es0 + es1, ClosedMeanwhile(), es2, ReadMeanwhile());
    LeadsOn(start, es0 + es1 + es2, ReadMeanwhile(), es3, Left());
    es := es0 + es1 + es2 + es3;
    forall after, s' | Leads(Left(), after, s') && s'.pipe.getting && Exhausted(s'.pipe)
      ensures Fpipe.Shape(s'.pipe) && ConsumerWaits(s')
    {
      AbortEndsTheWaits(start, es, Left(), after, s');
    }
  }
}
