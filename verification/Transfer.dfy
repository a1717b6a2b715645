/** The transfer loops of src/c7fd.cpp over a kernel that may take or give any part of what it
    is offered, or fail. */
module Transfer {
  import opened Bytes

  datatype Status = OK | BUSY | ERR | CLOSED | INCOMP

  datatype IoResult = IoResult(status: Status, done: nat)

  function Flat(parts: seq<seq<Byte>>): seq<Byte> {
    if parts == [] then [] else parts[0] + Flat(parts[1..])
  }

  // ---- the kernel ----

  class Outgoing {
    var sent: seq<Byte>             // what the kernel has taken
    ghost var failures: seq<bool>   // of every call that failed, whether it would have blocked

    constructor ()
      ensures sent == [] && failures == []
    {
      sent, failures := [], [];
    }

    /** ::write or ::writev: offered bytes, it takes z of them, or fails with errno set. */
    method Write(offered: seq<Byte>) returns (z: int, wouldBlock: bool)
      modifies this
      ensures z <= |offered|
      ensures sent == if z > 0 then old(sent) + offered[..z] else old(sent)
      ensures failures == if z > 0 then old(failures) else old(failures) + [wouldBlock]
    {
      z, wouldBlock := *, *;
      if z > |offered| { z := |offered|; }
      if z > 0 { sent := sent + offered[..z]; } else { failures := failures + [wouldBlock]; }
    }
  }

  class Incoming {
    var rest: seq<Byte>             // what the peer has sent or will send before it closes
    ghost var failures: seq<bool>   // of every call that failed, whether it would have blocked

    constructor (rest: seq<Byte>)
      ensures this.rest == rest && failures == []
    {
      this.rest, failures := rest, [];
    }

    /** ::read of at most n bytes: 0 when the peer has closed, negative when it fails. */
    method Read(n: nat) returns (z: int, data: seq<Byte>, wouldBlock: bool)
      requires n > 0
      modifies this
      ensures z <= n && (z == 0 ==> old(rest) == [])
      ensures z > 0 ==> z <= |old(rest)| && data == old(rest)[..z] && rest == old(rest)[z..]
      ensures z <= 0 ==> rest == old(rest)
      ensures failures == if z >= 0 then old(failures) else old(failures) + [wouldBlock]
    {
      z, data, wouldBlock := *, [], *;
      if z > n { z := n; }
      if z > |rest| { z := |rest|; }
      if z == 0 && rest != [] { z := -1; }
      if z > 0 {
        data := rest[..z];
        rest := rest[z..];
      }
      if z < 0 { failures := failures + [wouldBlock]; }
    }
  }

  /** The failed call that a status reports, if it reports one. */
  function Reports(status: Status): seq<bool> {
    match status
    case BUSY => [true]
    case ERR => [false]
    case _ => []
  }

  /** How reading n bytes ends if no call fails: with all of them, or where the stream ends. */
  function ReadToEnd(rest: seq<Byte>, n: nat): IoResult {
    if n <= |rest| then IoResult(OK, n)
    else if rest == [] then IoResult(CLOSED, 0)
    else IoResult(INCOMP, |rest|)
  }

  // ---- reading and writing one buffer ----

  /** What is read lies at the front of the buffer's part, in order, whatever the outcome. */
  method ReadN(port: Incoming, buf: array<Byte>, at: nat, reqN: nat) returns (r: IoResult)
    requires at + reqN <= buf.Length
    modifies port, buf
    ensures r.done <= reqN && r.done <= |old(port.rest)|
    ensures buf[at..at + r.done] == old(port.rest)[..r.done] && port.rest == old(port.rest)[r.done..]
    ensures forall k :: 0 <= k < at || at + r.done <= k < buf.Length ==> buf[k] == old(buf[k])
    ensures r.status == OK <==> r.done == reqN
    ensures port.failures == old(port.failures) + Reports(r.status)
    ensures r.status != BUSY && r.status != ERR ==> r == ReadToEnd(old(port.rest), reqN)
  {
    var n := 0;
    while n != reqN
      invariant n <= reqN && n <= |old(port.rest)|
      invariant buf[at..at + n] == old(port.rest)[..n] && port.rest == old(port.rest)[n..]
      invariant forall k :: 0 <= k < at || at + n <= k < buf.Length ==> buf[k] == old(buf[k])
      invariant port.failures == old(port.failures)
      decreases reqN - n
    {
      var z, data, wouldBlock := port.Read(reqN - n);
      if z <= 0 {
        if z == 0 && n == 0 { return IoResult(CLOSED, n); }
        else if z == 0 { return IoResult(INCOMP, n); }
        else if wouldBlock { return IoResult(BUSY, n); }
        else { return IoResult(ERR, n); }
      }
      ghost var was := buf[..];
      CopyInto(buf, at + n, data);
      OneRead(was, buf[..], at, n, data, old(port.rest));
      n := n + z;
    }
    r := IoResult(OK, n);
  }

  lemma OneRead(was: seq<Byte>, now: seq<Byte>, at: nat, n: nat, data: seq<Byte>, all: seq<Byte>)
    requires at + n + |data| <= |was| && n + |data| <= |all|
    requires now == was[..at + n] + data + was[at + n + |data|..]
    requires was[at..at + n] == all[..n] && data == all[n..][..|data|]
    ensures now[at..at + n + |data|] == all[..n + |data|] && all[n..][|data|..] == all[n + |data|..]
    ensures forall k :: 0 <= k < at || at + n + |data| <= k < |now| ==> now[k] == was[k]
  {
    assert now[at..at + n + |data|] == was[at..at + n] + data;
    assert all[..n + |data|] == all[..n] + all[n..][..|data|];
  }

  method WriteN(port: Outgoing, buf: seq<Byte>) returns (r: IoResult)
    modifies port
    ensures r.done <= |buf| && port.sent == old(port.sent) + buf[..r.done]
    ensures r.status == OK <==> r.done == |buf|
    ensures port.failures == old(port.failures) + Reports(r.status)
    ensures r.status == OK || r.status == BUSY || r.status == ERR
  {
    var n := 0;
    assert old(port.sent) + buf[..0] == old(port.sent);
    while n != |buf|
      invariant n <= |buf| && port.sent == old(port.sent) + buf[..n]
      invariant port.failures == old(port.failures)
      decreases |buf| - n
    {
      var z, wouldBlock := port.Write(buf[n..]);
      if z <= 0 { return IoResult(if wouldBlock then BUSY else ERR, n); }
      assert buf[..n] + buf[n..][..z] == buf[..n + z];
      n := n + z;
    }
    r := IoResult(OK, n);
  }

  // ---- writing a vector of buffers ----

  lemma SkipWhole(parts: seq<seq<Byte>>, n: nat)
    requires parts != [] && |parts[0]| <= n <= |Flat(parts)|
    ensures n - |parts[0]| <= |Flat(parts[1..])|
    ensures Flat(parts[1..])[n - |parts[0]|..] == Flat(parts)[n..]
  {
    assert Flat(parts) == parts[0] + Flat(parts[1..]);
  }

  lemma SkipPart(parts: seq<seq<Byte>>, n: nat)
    requires parts != [] && n < |parts[0]|
    ensures n <= |Flat(parts)| && Flat(parts[0 := parts[0][n..]]) == Flat(parts)[n..]
  {
    var now := parts[0 := parts[0][n..]];
    assert now[1..] == parts[1..];
    assert Flat(now) == parts[0][n..] + Flat(parts[1..]);
    assert Flat(parts) == parts[0] + Flat(parts[1..]);
  }

  lemma NothingFlat()
    ensures Flat([]) == []
  {
  }

  /** Takes z bytes off the vector: whole entries first, then the front of one. */
  method Advance(iov: array<seq<Byte>>, p: nat, ioc: nat, z: nat) returns (p': nat, ioc': nat)
    requires p + ioc <= iov.Length && z <= |Flat(iov[p..p + ioc])|
    modifies iov
    ensures p <= p' && p' + ioc' == p + ioc
    ensures Flat(iov[p'..p' + ioc']) == old(Flat(iov[p..p + ioc]))[z..]
    ensures forall k :: 0 <= k < p || p + ioc <= k < iov.Length ==> iov[k] == old(iov[k])
  {
    hide Flat;
    p', ioc' := p, ioc;
    var left := z;
    ghost var all := Flat(iov[p..p + ioc]);
    while left > 0
      invariant p <= p' && p' + ioc' == p + ioc && 0 <= left <= z
      invariant left <= |Flat(iov[p'..p' + ioc'])|
      invariant Flat(iov[p'..p' + ioc'])[left..] == all[z..]
      invariant forall k :: 0 <= k < p || p + ioc <= k < iov.Length ==> iov[k] == old(iov[k])
      decreases left + ioc'
    {
      ghost var parts := iov[p'..p' + ioc'];
      if ioc' == 0 { NothingFlat(); }
      if |iov[p']| <= left {
        SkipWhole(parts, left);
        left := left - |iov[p']|;
        iov[p'] := [];
        p' := p' + 1;
        ioc' := ioc' - 1;
        assert iov[p'..p' + ioc'] == parts[1..];
      } else {
        SkipPart(parts, left);
        iov[p'] := iov[p'][left..];
        assert iov[p'..p' + ioc'] == parts[0 := parts[0][left..]];
        left := 0;
      }
    }
    ghost var now := Flat(iov[p'..p' + ioc']);
    assert now[0..] == now;
  }

  /** What is written is the front of the vector's bytes; the vector is left with the others. */
  method WriteV(port: Outgoing, iov: array<seq<Byte>>, p: nat, ioc: nat)
    returns (r: IoResult, p': nat, ioc': nat)
    requires p + ioc <= iov.Length
    modifies port, iov
    ensures p <= p' && p' + ioc' == p + ioc
    ensures r.done <= |old(Flat(iov[p..p + ioc]))|
    ensures port.sent == old(port.sent) + old(Flat(iov[p..p + ioc]))[..r.done]
    ensures Flat(iov[p'..p' + ioc']) == old(Flat(iov[p..p + ioc]))[r.done..]
    ensures r.status == OK <==> r.done == |old(Flat(iov[p..p + ioc]))|
    ensures r.status == OK ==> ioc' == 0
    ensures port.failures == old(port.failures) + Reports(r.status)
    ensures r.status == OK || r.status == BUSY || r.status == ERR
  {
    hide Flat;
    p', ioc' := p, ioc;
    var n := 0;
    ghost var all := Flat(iov[p..p + ioc]);
    while ioc' > 0
      invariant p <= p' && p' + ioc' == p + ioc && n <= |all|
      invariant port.sent == old(port.sent) + all[..n] && port.failures == old(port.failures)
      invariant Flat(iov[p'..p' + ioc']) == all[n..]
      decreases |all| - n, ioc'
    {
      ghost var parts := iov[p'..p' + ioc'];
      if |iov[p']| == 0 {
        SkipWhole(parts, 0);
        p' := p' + 1;
        ioc' := ioc' - 1;
        assert iov[p'..p' + ioc'] == parts[1..];
        continue;
      }
      FlatAtLeast(parts);
      var z, wouldBlock := port.Write(Flat(iov[p'..p' + ioc']));
      if z <= 0 { return IoResult(if wouldBlock then BUSY else ERR, n), p', ioc'; }
      OnePart(old(port.sent), all, n, z);
      p', ioc' := Advance(iov, p', ioc', z);
      n := n + z;
    }
    NothingFlat();
    assert iov[p'..p' + ioc'] == [];
    r := IoResult(OK, n);
  }

  lemma FlatAtLeast(parts: seq<seq<Byte>>)
    requires parts != []
    ensures |Flat(parts)| >= |parts[0]|
  {
  }

  lemma OnePart(was: seq<Byte>, all: seq<Byte>, n: nat, z: nat)
    requires n + z <= |all|
    ensures was + all[..n] + all[n..][..z] == was + all[..n + z]
    ensures all[n..][z..] == all[n + z..]
  {
    assert all[..n] + all[n..][..z] == all[..n + z];
  }
}
