/** rbuffer7 of src/c7mlog/reader.cpp: a ring of bytes under addresses that wrap.  The model
    speaks of the log, the unbounded line of all bytes ever written (the contents found at the
    start being its first lap); the ring always is the last lap of the log. */
module Ring {
  import opened Bytes
  import opened Numbers

  const WORD := 0x1_0000_0000
  type Addr = a: int | 0 <= a < WORD   // raddr_t
  const TOO_LARGE: Addr := WORD - 1
  const SIZE_MIN := 16                 // _DUMMY_LOG_SIZE, the smallest ring of all
  const SIZE_MAX := 0x4000_0000        // C7_MLOG_SIZE_MAX

  // ---- the ring as a value ----

  /** The bytes at addresses addr, addr + 1, .... */
  function Read(ring: seq<Byte>, addr: nat, size: nat): (r: seq<Byte>)
    requires |ring| > 0
    ensures |r| == size
  {
    seq(size, i requires 0 <= i < size => ring[(addr + i) % |ring|])
  }

  /** The ring after its bytes at addr, addr + 1, ... have been set one after the other. */
  function Write(ring: seq<Byte>, addr: nat, data: seq<Byte>): (r: seq<Byte>)
    requires |ring| > 0
    ensures |r| == |ring|
    decreases |data|
  {
    if data == [] then ring else Write(ring[addr % |ring| := data[0]], addr + 1, data[1..])
  }

  /** The ring holds the last lap of the log. */
  ghost predicate Holds(ring: seq<Byte>, log: seq<Byte>) {
    && 0 < |ring| <= |log|
    && forall p :: |log| - |ring| <= p < |log| ==> ring[p % |ring|] == log[p]
  }

  lemma HoldsOneMore(ring: seq<Byte>, log: seq<Byte>, addr: nat, b: Byte)
    requires Holds(ring, log) && addr % |ring| == |log| % |ring|
    ensures Holds(ring[addr % |ring| := b], log + [b])
  {
    var n := |ring|;
    forall p | |log| + 1 - n <= p < |log| + 1
      ensures ring[addr % n := b][p % n] == (log + [b])[p]
    {
      if p < |log| { RemaindersDiffer(|log|, p, n); }
    }
  }

  /** Writing where the log ends makes the log longer by what is written. */
  lemma {:induction false} WriteExtendsTheLog(ring: seq<Byte>, log: seq<Byte>, addr: nat, data: seq<Byte>)
    requires Holds(ring, log) && addr % |ring| == |log| % |ring|
    ensures Holds(Write(ring, addr, data), log + data)
    decreases |data|
  {
    if data == [] {
      assert log + data == log;
    } else {
      HoldsOneMore(ring, log, addr, data[0]);
      SameRemainder(addr, |log|, 1, |ring|);
      WriteExtendsTheLog(ring[addr % |ring| := data[0]], log + [data[0]], addr + 1, data[1..]);
      assert log + [data[0]] + data[1..] == log + data;
    }
  }

  /** Reading inside the last lap gives the bytes of the log. */
  lemma ReadIsFromTheLog(ring: seq<Byte>, log: seq<Byte>, addr: nat, size: nat, p: nat)
    requires Holds(ring, log) && addr % |ring| == p % |ring|
    requires |log| - |ring| <= p && p + size <= |log|
    ensures Read(ring, addr, size) == log[p..p + size]
  {
    forall i | 0 <= i < size ensures Read(ring, addr, size)[i] == log[p + i] {
      SameRemainder(addr, p, i, |ring|);
    }
  }

  lemma {:induction false} WriteInTwo(ring: seq<Byte>, addr: nat, a: seq<Byte>, b: seq<Byte>)
    requires |ring| > 0
    ensures Write(Write(ring, addr, a), addr + |a|, b) == Write(ring, addr, a + b)
    decreases |a|
  {
    if a == [] {
      assert a + b == b;
    } else {
      WriteInTwo(ring[addr % |ring| := a[0]], addr + 1, a[1..], b);
      assert (a + b)[1..] == a[1..] + b;
    }
  }

  /** Inside one lap the bytes land side by side. */
  lemma {:induction false} WriteInPlace(ring: seq<Byte>, addr: nat, data: seq<Byte>)
    requires |ring| > 0 && addr % |ring| + |data| <= |ring|
    ensures var a := addr % |ring|;
            Write(ring, addr, data) == ring[..a] + data + ring[a + |data|..]
    decreases |data|
  {
    var n, a := |ring|, addr % |ring|;
    if data == [] {
      assert ring[..a] + data + ring[a + |data|..] == ring;
    } else {
      var ring' := ring[a := data[0]];
      if |data| == 1 {
        assert data[1..] == [];
        assert Write(ring, addr, data) == ring';
      } else {
        WithinLap(addr, 1, n);
        WriteInPlace(ring', addr + 1, data[1..]);
        assert ring'[..a + 1] == ring[..a] + [data[0]];
        assert ring'[a + 1 + |data[1..]|..] == ring[a + |data|..];
      }
    }
  }

  lemma ReadInTwo(ring: seq<Byte>, addr: nat, a: nat, b: nat)
    requires |ring| > 0
    ensures Read(ring, addr, a) + Read(ring, addr + a, b) == Read(ring, addr, a + b)
  {
    var all, left, right := Read(ring, addr, a + b), Read(ring, addr, a), Read(ring, addr + a, b);
    forall i | a <= i < a + b ensures all[i] == right[i - a] {
      assert addr + a + (i - a) == addr + i;
    }
  }

  lemma ReadInPlace(ring: seq<Byte>, addr: nat, size: nat)
    requires |ring| > 0 && addr % |ring| + size <= |ring|
    ensures var a := addr % |ring|; Read(ring, addr, size) == ring[a..a + size]
  {
    forall i | 0 <= i < size ensures Read(ring, addr, size)[i] == ring[addr % |ring| + i] {
      WithinLap(addr, i, |ring|);
    }
  }

  // ---- the ring in memory ----

  class Buffer {
    const top: array<Byte>
    var nextaddr: Addr

    ghost predicate Valid()
      reads this
    {
      SIZE_MIN <= top.Length <= SIZE_MAX && nextaddr < top.Length
    }

    constructor (size: nat)
      requires SIZE_MIN <= size <= SIZE_MAX
      ensures Valid() && top.Length == size && nextaddr == 0 && fresh(top)
    {
      top := new Byte[size](_ => 0);
      nextaddr := 0;
    }

    method Put(addr: Addr, data: seq<Byte>) returns (next: Addr)
      requires top.Length > 0 && |data| < WORD
      modifies top
      ensures top[..] == Write(old(top[..]), addr, data)
      ensures next == (addr + |data|) % WORD
    {
      hide Write;
      next := (addr + |data|) % WORD;
      var rest := data;
      assert data[0..] == data;
      var rbuf := addr % top.Length;
      var rrest := top.Length - rbuf;
      ghost var done := 0;
      while |rest| > 0
        invariant 0 <= rbuf < top.Length && rrest == top.Length - rbuf
        invariant 0 <= done <= |data| && rest == data[done..]
        invariant |rest| > 0 ==> rbuf == (addr + done) % top.Length
        invariant Write(top[..], addr + done, rest) == Write(old(top[..]), addr, data)
        decreases |rest|
      {
        var cpsize := if |rest| < rrest then |rest| else rrest;
        ghost var before := top[..];
        CopyInto(top, rbuf, rest[..cpsize]);
        OneCopy(before, top[..], addr + done, rest, cpsize);
        assert rest[cpsize..] == data[done + cpsize..];
        rest := rest[cpsize..];
        done := done + cpsize;
        rbuf, rrest := 0, top.Length;
      }
      NothingWritten(top[..], addr + done);
    }

    method Get(addr: Addr, size: Addr) returns (data: seq<Byte>)
      requires top.Length > 0
      ensures data == Read(top[..], addr, size)
    {
      data := [];
      var rbuf, rest := addr % top.Length, size;
      var rrest := top.Length - rbuf;
      while rest > 0
        invariant 0 <= rbuf < top.Length && rrest == top.Length - rbuf
        invariant 0 <= rest <= size
        invariant rest > 0 ==> rbuf == (addr + (size - rest)) % top.Length
        invariant data == Read(top[..], addr, size - rest)
      {
        var cpsize := if rest < rrest then rest else rrest;
        OneFetch(top[..], addr, size - rest, cpsize);
        data := data + top[rbuf..rbuf + cpsize];
        rest := rest - cpsize;
        rbuf, rrest := 0, top.Length;
      }
    }

    /** The read of nextaddr and its compare-and-swap taken as one step. */
    method Reserve(size: Addr) returns (addr: Addr)
      requires Valid()
      modifies `nextaddr
      ensures Valid()
      ensures Granted(size, top.Length) ==>
        addr == old(nextaddr) && nextaddr == (old(nextaddr) + size) % WORD % top.Length
      ensures !Granted(size, top.Length) ==> addr == TOO_LARGE && nextaddr == old(nextaddr)
    {
      if (size + 32) % WORD > top.Length { return TOO_LARGE; }
      addr := nextaddr;
      nextaddr := (addr + size) % WORD % top.Length;
    }

    /** A zero word, which no record has as its size, becomes the start of the log. */
    method Clear()
      requires Valid()
      modifies this, top
      ensures Valid() && nextaddr == 4
      ensures Holds(top[..], old(top[..]) + [0, 0, 0, 0])
      ensures nextaddr == |old(top[..]) + [0, 0, 0, 0]| % top.Length
    {
      hide Write, Holds;
      ClearStartsALog(top[..], [0, 0, 0, 0]);
      nextaddr := Put(0, [0, 0, 0, 0]);
    }
  }

  /** The test of reserve, whose sum wraps like every raddr_t. */
  predicate Granted(size: Addr, ringSize: nat) {
    (size + 32) % WORD <= ringSize
  }

  /** What is granted fits in the ring, unless the sum of the test wraps. */
  lemma GrantedFits(size: Addr, ringSize: nat)
    requires 32 <= ringSize <= SIZE_MAX
    ensures (Granted(size, ringSize) ==> size + 32 <= ringSize) <==> size + 32 < WORD
  {
  }

  lemma ClearStartsALog(ring: seq<Byte>, zeros: seq<Byte>)
    requires |zeros| < |ring|
    ensures Holds(Write(ring, 0, zeros), ring + zeros)
    ensures |ring + zeros| % |ring| == |zeros|
  {
    DivisionIs(|ring|, 1, 0, |ring|);
    DivisionIs(|ring| + |zeros|, 1, |zeros|, |ring|);
    forall p | 0 <= p < |ring| ensures ring[p % |ring|] == ring[p] { DivisionIs(p, 0, p, |ring|); }
    WriteExtendsTheLog(ring, ring, 0, zeros);
  }

  lemma NothingWritten(ring: seq<Byte>, addr: nat)
    requires |ring| > 0
    ensures Write(ring, addr, []) == ring
  {
  }

  lemma OneCopy(before: seq<Byte>, after: seq<Byte>, addr: nat, rest: seq<Byte>, cpsize: nat)
    requires |before| > 0 && cpsize <= |rest| && addr % |before| + cpsize <= |before|
    requires var a := addr % |before|; after == before[..a] + rest[..cpsize] + before[a + cpsize..]
    ensures Write(after, addr + cpsize, rest[cpsize..]) == Write(before, addr, rest)
    ensures addr % |before| + cpsize == |before| ==> (addr + cpsize) % |before| == 0
  {
    WriteInPlace(before, addr, rest[..cpsize]);
    WriteInTwo(before, addr, rest[..cpsize], rest[cpsize..]);
    assert rest[..cpsize] + rest[cpsize..] == rest;
    AcrossTheEnd(addr, |before|);
  }

  lemma OneFetch(ring: seq<Byte>, addr: nat, done: nat, cpsize: nat)
    requires |ring| > 0 && (addr + done) % |ring| + cpsize <= |ring|
    ensures var a := (addr + done) % |ring|;
            Read(ring, addr, done) + ring[a..a + cpsize] == Read(ring, addr, done + cpsize)
    ensures (addr + done) % |ring| + cpsize == |ring| ==> (addr + (done + cpsize)) % |ring| == 0
  {
    ReadInPlace(ring, addr + done, cpsize);
    ReadInTwo(ring, addr, done, cpsize);
    AcrossTheEnd(addr + done, |ring|);
  }
}
