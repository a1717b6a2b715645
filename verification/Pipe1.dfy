/** pipe1 of src/c7threadcom.hpp: a channel for one element.  A call that waits on the
    condition variable is one that is WAITING here, and changes nothing until it is made again. */
module Pipe1 {
  import opened Wrappers

  function Elements<T>(o: Option<T>): seq<T> {
    if o.Some? then [o.value] else []
  }

  datatype Phase = EMPTY | EXIST | CLOSING | CLOSED | ABORTED

  datatype Status = OK | IS_CLOSED | ABORT | WAITING

  /** The state of a pipe1; data is stale unless the phase is EXIST or CLOSING. */
  datatype Slot<T> = Slot(phase: Phase, data: Option<T>, putN: nat, getN: nat)
  {
    /** The element in the channel. */
    function Held(): Option<T> {
      if phase == EXIST || phase == CLOSING then data else None
    }

    predicate Valid() {
      phase == EXIST || phase == CLOSING ==> data.Some?
    }

    function Put(x: T): (Slot<T>, Status) {
      match phase
      case EXIST => (this, WAITING)
      case EMPTY => (Slot(EXIST, Some(x), putN + 1, getN), OK)
      case CLOSING | CLOSED => (this, IS_CLOSED)
      case ABORTED => (this, ABORT)
    }

    function Get(): (Slot<T>, Status) {
      match phase
      case EMPTY => (this, WAITING)
      case EXIST => (this.(phase := EMPTY, getN := getN + 1), OK)
      case CLOSING => (this.(phase := CLOSED, getN := getN + 1), OK)
      case CLOSED => (this, IS_CLOSED)
      case ABORTED => (this, ABORT)
    }

    function Close(): Slot<T> {
      match phase
      case EMPTY => this.(phase := CLOSED)
      case EXIST => this.(phase := CLOSING)
      case _ => this
    }

    function Abort(): Slot<T> {
      this.(phase := ABORTED)
    }

    function Reset(): Slot<T> {
      Slot(EMPTY, data, 0, 0)
    }
  }

  class Pipe<T> {
    var state: Phase
    var data: Option<T>
    var put_n: nat
    var get_n: nat

    ghost function View(): Slot<T>
      reads this
    {
      Slot(state, data, put_n, get_n)
    }

    constructor ()
      ensures View() == Slot(EMPTY, None, 0, 0)
    {
      state, data, put_n, get_n := EMPTY, None, 0, 0;
    }

    method Put(x: T) returns (r: Status)
      modifies this
      ensures (View(), r) == old(View()).Put(x)
    {
      if state == EXIST {
        return WAITING;
      }
      if state == EMPTY {
        state := EXIST;
        data := Some(x);
        put_n := put_n + 1;
        return OK;
      }
      if state == CLOSING || state == CLOSED {
        return IS_CLOSED;
      }
      return ABORT;
    }

    method Get() returns (r: Status, x: Option<T>)
      requires View().Valid()
      modifies this
      ensures (View(), r) == old(View()).Get()
      ensures x == if r == OK then old(View()).Held() else None
      ensures r == OK ==> x.Some?
    {
      x := None;
      if state == EMPTY {
        return WAITING, None;
      }
      if state == EXIST || state == CLOSING {
        x := data;
        state := if state == EXIST then EMPTY else CLOSED;
        get_n := get_n + 1;
        return OK, x;
      }
      if state == CLOSED {
        return IS_CLOSED, None;
      }
      return ABORT, None;
    }

    method Close()
      modifies this
      ensures View() == old(View()).Close()
    {
      if state == EMPTY {
        state := CLOSED;
      } else if state == EXIST {
        state := CLOSING;
      }
    }

    method Abort()
      modifies this
      ensures View() == old(View()).Abort()
    {
      if state != ABORTED {
        state := ABORTED;
      }
    }

    method Reset()
      modifies this
      ensures View() == old(View()).Reset()
    {
      state := EMPTY;
      put_n, get_n := 0, 0;
    }
  }

  datatype Call<T> = PutCall(x: T) | GetCall | CloseCall | AbortCall | ResetCall

  /** What a sequence of calls on a pipe1 does, with the elements accepted and delivered so far. */
  datatype History<T> = History(slot: Slot<T>, accepted: seq<T>, delivered: seq<T>)

  function Made<T>(h: History<T>, c: Call<T>): History<T> {
    match c
    case PutCall(x) =>
      var (s, r) := h.slot.Put(x);
      History(s, if r == OK then h.accepted + [x] else h.accepted, h.delivered)
    case GetCall =>
      var (s, r) := h.slot.Get();
      History(s, h.accepted, if r == OK then h.delivered + Elements(h.slot.Held()) else h.delivered)
    case CloseCall => h.(slot := h.slot.Close())
    case AbortCall => h.(slot := h.slot.Abort())
    case ResetCall => History(h.slot.Reset(), [], [])
  }

  function MadeAll<T>(h: History<T>, cs: seq<Call<T>>): History<T>
    decreases |cs|
  {
    if cs == [] then h else MadeAll(Made(h, cs[0]), cs[1..])
  }

  /** Between resets: unless aborted, what was delivered and what is held is what was accepted;
      aborting loses the held element only. */
  ghost predicate Conserves<T>(h: History<T>) {
    && h.slot.Valid()
    && h.slot.putN == |h.accepted| && h.slot.getN == |h.delivered|
    && (h.slot.phase != ABORTED ==> h.accepted == h.delivered + Elements(h.slot.Held()))
    && (h.slot.phase == ABORTED ==> h.delivered <= h.accepted && |h.accepted| <= |h.delivered| + 1)
  }

  lemma {:induction false} OneElementFifo<T>(h: History<T>, cs: seq<Call<T>>)
    requires Conserves(h)
    ensures Conserves(MadeAll(h, cs))
    decreases |cs|
  {
    if cs != [] { OneElementFifo(Made(h, cs[0]), cs[1..]); }
  }

  /** Once CLOSED, every get reports it and nothing is accepted, until a reset or an abort. */
  lemma {:induction false} ClosedForGood<T>(h: History<T>, cs: seq<Call<T>>)
    requires h.slot.phase == CLOSED
    requires forall c :: c in cs ==> !c.ResetCall? && !c.AbortCall?
    ensures MadeAll(h, cs) == h && h.slot.Get().1 == IS_CLOSED
    decreases |cs|
  {
    if cs != [] {
      assert cs[0] in cs;
      ClosedForGood(h, cs[1..]);
    }
  }

  // ---- what a call comes back with ----

  /** What is called on a pipe1 that has just been made. */
  function Begun<T>(): History<T> {
    History(Slot(EMPTY, None, 0, 0), [], [])
  }

  predicate NoReset<T>(cs: seq<Call<T>>) {
    forall i :: 0 <= i < |cs| ==> !cs[i].ResetCall?
  }

  /** There was a close that no reset has followed. */
  ghost predicate IsClosed<T>(cs: seq<Call<T>>) {
    exists k :: 0 <= k < |cs| && cs[k].CloseCall? && NoReset(cs[k + 1..])
  }

  /** There was an abort that no reset has followed. */
  ghost predicate IsAborted<T>(cs: seq<Call<T>>) {
    exists k :: 0 <= k < |cs| && cs[k].AbortCall? && NoReset(cs[k + 1..])
  }

  lemma {:induction false} OneCallMore<T>(h: History<T>, cs: seq<Call<T>>, c: Call<T>)
    ensures MadeAll(h, cs + [c]) == Made(MadeAll(h, cs), c)
    decreases |cs|
  {
    if cs == [] {
      assert cs + [c] == [c] && [c][1..] == [];
    } else {
      assert (cs + [c])[1..] == cs[1..] + [c];
      OneCallMore(Made(h, cs[0]), cs[1..], c);
    }
  }

  lemma EndsWith<T>(cs: seq<Call<T>>, c: Call<T>)
    ensures IsClosed(cs + [c]) <==> c.CloseCall? || (IsClosed(cs) && !c.ResetCall?)
    ensures IsAborted(cs + [c]) <==> c.AbortCall? || (IsAborted(cs) && !c.ResetCall?)
  {
    var all := cs + [c];
    assert all[|cs|] == c && all[|cs| + 1..] == [];
    forall k | 0 <= k < |cs|
      ensures all[k] == cs[k] && (NoReset(all[k + 1..]) <==> NoReset(cs[k + 1..]) && !c.ResetCall?)
    {
      var rest := cs[k + 1..];
      assert all[k + 1..] == rest + [c];
      assert (rest + [c])[|rest|] == c;
      if NoReset(rest + [c]) { assert forall i :: 0 <= i < |rest| ==> rest[i] == (rest + [c])[i]; }
    }
    if IsClosed(cs) {
      var k :| 0 <= k < |cs| && cs[k].CloseCall? && NoReset(cs[k + 1..]);
      assert all[k].CloseCall?;
    }
    if IsAborted(cs) {
      var k :| 0 <= k < |cs| && cs[k].AbortCall? && NoReset(cs[k + 1..]);
      assert all[k].AbortCall?;
    }
  }

  predicate Ended<T>(s: Slot<T>) { s.phase == CLOSING || s.phase == CLOSED }

  lemma PhaseAfter<T>(h: History<T>, c: Call<T>)
    ensures var s, s' := h.slot, Made(h, c).slot;
      && (s'.phase == ABORTED <==> c.AbortCall? || (s.phase == ABORTED && !c.ResetCall?))
      && (Ended(s') <==> !c.AbortCall? && !c.ResetCall? && s.phase != ABORTED && (c.CloseCall? || Ended(s)))
  {
  }

  lemma {:induction false} PhaseTells<T>(cs: seq<Call<T>>)
    ensures var s := MadeAll(Begun(), cs).slot;
      && (s.phase == ABORTED <==> IsAborted(cs))
      && (Ended(s) <==> IsClosed(cs) && !IsAborted(cs))
    decreases |cs|
  {
    if cs != [] {
      hide IsClosed, IsAborted, Ended, Made;
      var front, c := cs[..|cs| - 1], cs[|cs| - 1];
      assert cs == front + [c];
      PhaseTells(front);
      OneCallMore(Begun(), front, c);
      EndsWith(front, c);
      PhaseAfter(MadeAll(Begun(), front), c);
    }
  }

  /** After any sequence of calls on a new pipe1: a put is refused with ABORT after an abort and with
      CLOSED after a close that no reset has followed, waits while an element is held, and
      succeeds otherwise; a get gives the element that is held even after a close. */
  lemma CallsTell<T>(cs: seq<Call<T>>, x: T)
    ensures var h := MadeAll(Begun(), cs);
      && |h.accepted| - |h.delivered| in {0, 1}
      && h.slot.Put(x).1 == (if IsAborted(cs) then ABORT else if IsClosed(cs) then IS_CLOSED
                             else if |h.accepted| > |h.delivered| then WAITING else OK)
      && h.slot.Get().1 == (if IsAborted(cs) then ABORT else if |h.accepted| > |h.delivered| then OK
                            else if IsClosed(cs) then IS_CLOSED else WAITING)
  {
    hide IsClosed, IsAborted;
    OneElementFifo<T>(Begun(), cs);
    PhaseTells(cs);
  }
}
