/** The reserve loop of src/c7mlog/reader.cpp run by any number of threads: each reads nextaddr,
    and swaps in the next address if nextaddr still has the value read. */
module Reserve {
  import opened Numbers
  import opened Ring

  type Size = n: int | 0 < n <= SIZE_MAX witness 1

  /** A thread outside reserve, about to read nextaddr, or about to compare and swap.  since is
      how many grants there were when it read. */
  datatype Thread = Outside | Reading(size: nat) | Swapping(size: nat, addr: nat, ghost since: nat)

  /** A granted reservation: the address returned and where it lies on the unbounded line. */
  datatype Grant = Grant(addr: nat, size: nat, begin: nat)

  datatype State = State(ringSize: Size, nextaddr: nat, threads: seq<Thread>, grants: seq<Grant>, origin: nat)
  {
    /** The logical end of all that is granted. */
    function End(): nat {
      if grants == [] then origin else grants[|grants| - 1].begin + grants[|grants| - 1].size
    }
  }

  ghost predicate Init(s: State) {
    && 32 < s.ringSize <= SIZE_MAX && s.nextaddr < s.ringSize
    && s.grants == [] && s.origin == s.nextaddr
    && forall t :: 0 <= t < |s.threads| ==> s.threads[t] == Outside
  }

  // ---- steps ----

  ghost predicate Enter(s: State, s': State, t: nat, size: nat) {
    && t < |s.threads| && s.threads[t] == Outside
    && 0 < size && size + 32 < WORD && Granted(size, s.ringSize)
    && s' == s.(threads := s.threads[t := Reading(size)])
  }

  ghost predicate ReadNext(s: State, s': State, t: nat) {
    && t < |s.threads| && s.threads[t].Reading?
    && s' == s.(threads := s.threads[t := Swapping(s.threads[t].size, s.nextaddr, |s.grants|)])
  }

  ghost predicate SwapDone(s: State, s': State, t: nat) {
    && t < |s.threads| && s.threads[t].Swapping? && s.nextaddr == s.threads[t].addr
    && var addr, size := s.threads[t].addr, s.threads[t].size;
       s' == s.(nextaddr := (addr + size) % WORD % s.ringSize,
                threads := s.threads[t := Outside],
                grants := s.grants + [Grant(addr, size, s.End())])
  }

  ghost predicate SwapFailed(s: State, s': State, t: nat) {
    && t < |s.threads| && s.threads[t].Swapping? && s.nextaddr != s.threads[t].addr
    && s' == s.(threads := s.threads[t := Reading(s.threads[t].size)])
  }

  ghost predicate Step(s: State, s': State, t: nat, size: nat) {
    Enter(s, s', t, size) || ReadNext(s, s', t) || SwapDone(s, s', t) || SwapFailed(s, s', t)
  }

  ghost predicate Next(s: State, s': State) {
    exists t: nat, size: nat :: Step(s, s', t, size)
  }

  ghost predicate Run(run: seq<State>) {
    && |run| > 0 && Init(run[0])
    && forall i :: 0 <= i < |run| - 1 ==> Next(run[i], run[i + 1])
  }

  // ---- what every run keeps ----

  ghost predicate Fits(size: nat, s: State) { 0 < size && size + 32 <= s.ringSize }

  /** Grants lie one behind the other, each at its logical address modulo the ring's size. */
  ghost predicate Consecutive(s: State) {
    && (forall i :: 0 <= i < |s.grants| ==>
         Fits(s.grants[i].size, s) && s.grants[i].addr == s.grants[i].begin % s.ringSize)
    && (|s.grants| > 0 ==> s.grants[0].begin == s.origin)
    && forall i :: 0 < i < |s.grants| ==> s.grants[i].begin == s.grants[i - 1].begin + s.grants[i - 1].size
  }

  /** nextaddr is the logical end modulo the ring's size, and has moved on if it differs from
      what a thread has read. */
  ghost predicate Inv(s: State) {
    && 32 < s.ringSize <= SIZE_MAX
    && s.nextaddr == s.End() % s.ringSize
    && Consecutive(s)
    && forall t :: 0 <= t < |s.threads| ==>
         match s.threads[t]
         case Outside => true
         case Reading(size) => Fits(size, s)
         case Swapping(size, addr, since) =>
           Fits(size, s) && addr < s.ringSize && since <= |s.grants|
           && (since == |s.grants| ==> addr == s.nextaddr)
  }

  lemma InitInv(s: State)
    requires Init(s)
    ensures Inv(s)
  {
    DivisionIs(s.nextaddr, 0, s.nextaddr, s.ringSize);
  }

  /** Though the value compared may have gone round the ring since it was read, the interval
      granted starts at the logical end. */
  lemma SwapDoneInv(s: State, s': State, t: nat)
    requires Inv(s) && SwapDone(s, s', t)
    ensures Inv(s')
  {
    var addr, size, n := s.threads[t].addr, s.threads[t].size, s.ringSize;
    assert (addr + size) % WORD == addr + size by { DivisionIs(addr + size, 0, addr + size, WORD); }
    DivisionIs(addr, 0, addr, n);
    SameRemainder(addr, s.End(), size, n);
  }

  lemma EnterInv(s: State, s': State, t: nat, size: nat)
    requires Inv(s) && Enter(s, s', t, size)
    ensures Inv(s')
  {
    DivisionIs(size + 32, 0, size + 32, WORD);
  }

  lemma ReadNextInv(s: State, s': State, t: nat)
    requires Inv(s) && ReadNext(s, s', t)
    ensures Inv(s')
  {
    DivisionIs(s.nextaddr, 0, s.nextaddr, s.ringSize);
  }

  lemma NextInv(s: State, s': State)
    requires Inv(s) && Next(s, s')
    ensures Inv(s')
  {
    hide Inv, Enter, ReadNext, SwapDone;
    var t: nat, size: nat :| Step(s, s', t, size);
    if SwapDone(s, s', t) {
      SwapDoneInv(s, s', t);
    } else if Enter(s, s', t, size) {
      EnterInv(s, s', t, size);
    } else if ReadNext(s, s', t) {
      ReadNextInv(s, s', t);
    } else {
      SwapFailedInv(s, s', t);
    }
  }

  lemma SwapFailedInv(s: State, s': State, t: nat)
    requires Inv(s) && SwapFailed(s, s', t)
    ensures Inv(s')
  {
  }

  lemma {:induction false} InvOverRuns(run: seq<State>, i: nat)
    requires Run(run) && i < |run|
    ensures Inv(run[i])
  {
    if i == 0 {
      InitInv(run[0]);
    } else {
      InvOverRuns(run, i - 1);
      NextInv(run[i - 1], run[i]);
    }
  }

  lemma {:induction false} GrantsInOrder(s: State, i: nat, j: nat)
    requires Consecutive(s) && i < j < |s.grants|
    ensures s.grants[i].begin + s.grants[i].size <= s.grants[j].begin
    decreases j
  {
    if i < j - 1 { GrantsInOrder(s, i, j - 1); }
  }

  /** In every run two grants do not overlap on the line, nor do their k-th and l-th bytes meet
      in the ring as long as at most one lap lies from the start of the one to the end of the
      other. */
  lemma GrantsAreDisjoint(run: seq<State>, at: nat, i: nat, j: nat, k: nat, l: nat)
    requires Run(run) && at < |run| && i < j < |run[at].grants|
    requires k < run[at].grants[i].size && l < run[at].grants[j].size
    ensures var s := run[at]; var g, h := s.grants[i], s.grants[j];
      && g.begin + k < h.begin + l
      && (h.begin + h.size - g.begin <= s.ringSize ==> (g.addr + k) % s.ringSize != (h.addr + l) % s.ringSize)
  {
    hide Run, Inv, Consecutive;
    var s := run[at];
    var n, g, h := s.ringSize, s.grants[i], s.grants[j];
    InvOverRuns(run, at);
    GrantIsPlaced(s, i);
    GrantIsPlaced(s, j);
    GrantsInOrder(s, i, j);
    SameRemainder(g.addr, g.begin, k, n);
    SameRemainder(h.addr, h.begin, l, n);
    if h.begin + h.size - g.begin <= n {
      RemaindersDiffer(h.begin + l, g.begin + k, n);
    }
  }

  lemma GrantIsPlaced(s: State, i: nat)
    requires Inv(s) && i < |s.grants|
    ensures Consecutive(s)
    ensures s.grants[i].addr % s.ringSize == s.grants[i].begin % s.ringSize
  {
    var n, g := s.ringSize, s.grants[i];
    DivisionIs(g.addr, 0, g.addr, n);
  }

  /** Lock freedom: a swap fails only if another thread was granted space since the read. */
  lemma SomeoneAdvances(run: seq<State>, i: nat, t: nat)
    requires Run(run) && i < |run| - 1 && SwapFailed(run[i], run[i + 1], t)
    ensures |run[i].grants| > run[i].threads[t].since
  {
    InvOverRuns(run, i);
  }

  /** since is the number of grants at the read, and no step but the thread's own changes it. */
  lemma SinceIsFixedAtTheRead(s: State, s': State, t: nat)
    requires Next(s, s') && t < |s.threads|
    ensures |s'.threads| == |s.threads|
    ensures s'.threads[t].Swapping? ==>
      s'.threads[t] == s.threads[t] || (s.threads[t].Reading? && s'.threads[t].since == |s.grants| == |s'.grants|)
  {
  }

  /** In every run each thread can go on by itself: a reservation that fits can be begun, what has been
      read can be swapped, and if nobody was granted space in between it is granted, where the last
      grant ended. */
  lemma ThreadsGoOn(run: seq<State>, i: nat, t: nat, size: nat) returns (s': State)
    requires Run(run) && i < |run| && t < |run[i].threads|
    requires 0 < size && size + 32 <= run[i].ringSize
    ensures Next(run[i], s')
    ensures var s := run[i];
      match s.threads[t]
      case Outside => s'.threads[t] == Reading(size) && s'.grants == s.grants
      case Reading(n) => s'.threads[t] == Swapping(n, s.End() % s.ringSize, |s.grants|) && s'.grants == s.grants
      case Swapping(n, addr, since) =>
        if addr != s.nextaddr then s'.threads[t] == Reading(n) && s'.grants == s.grants && since < |s.grants|
        else s'.threads[t] == Outside && s'.grants == s.grants + [Grant(s.End() % s.ringSize, n, s.End())]
  {
    InvOverRuns(run, i);
    var s := run[i];
    match s.threads[t]
    case Outside =>
      s' := s.(threads := s.threads[t := Reading(size)]);
      assert Step(s, s', t, size);
    case Reading(n) =>
      s' := s.(threads := s.threads[t := Swapping(n, s.nextaddr, |s.grants|)]);
      assert Step(s, s', t, size);
    case Swapping(n, addr, since) =>
      if addr != s.nextaddr {
        s' := s.(threads := s.threads[t := Reading(n)]);
      } else {
        s' := s.(nextaddr := (addr + n) % WORD % s.ringSize, threads := s.threads[t := Outside],
                 grants := s.grants + [Grant(addr, n, s.End())]);
      }
      assert Step(s, s', t, size);
  }
}
