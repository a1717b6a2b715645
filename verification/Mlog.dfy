/** The log of src/c7mlog/writer.cpp and src/c7mlog/reader.cpp over one partition: a writer
    appends records to a ring, a reader steps back over them from the newest. */
module Mlog {
  import opened Bytes
  import opened Numbers
  import opened Ring
  import opened MlogRecord

  /** Records a ring of n bytes takes. */
  ghost predicate Acceptable(recs: seq<Record>, n: nat) {
    forall i :: 0 <= i < |recs| ==> WellFormed(recs[i]) && recs[i].header.size + 32 <= n
  }

  ghost function LogBytes(recs: seq<Record>): seq<Byte>
    requires forall i :: 0 <= i < |recs| ==> WellFormed(recs[i])
  {
    if recs == [] then []
    else
      assert WellFormed(recs[|recs| - 1]);
      LogBytes(recs[..|recs| - 1]) + RecordBytes(recs[|recs| - 1])
  }

  /** A log that ends with a zero word, as clear leaves it. */
  predicate Cleared(start: seq<Byte>) {
    |start| >= 4 && start[|start| - 4..] == [0, 0, 0, 0]
  }

  /** The ring ends with these records, written one after the other since the last clear. */
  ghost predicate Logged(ring: seq<Byte>, nextaddr: nat, start: seq<Byte>, recs: seq<Record>) {
    && |ring| > 0 && Acceptable(recs, |ring|) && Cleared(start)
    && Holds(ring, start + LogBytes(recs))
    && nextaddr == |start + LogBytes(recs)| % |ring|
  }

  // ---- writing ----

  /** The arguments of put, with the parts of the environment it looks at. */
  datatype Entry = Entry(
    time: int, srcName: seq<Byte>, line: int, level: nat, category: nat, minidata: nat,
    thName: seq<Byte>, thId: nat, pid: nat, unset: Unset)
  {
    predicate InRange() {
      && -U64 <= 2 * time < U64 && level < 8 && minidata < U64 && thId < U32 && pid < U32
      && unset.InRange()
    }
  }

  /** Of a name too long for a record its end is kept. */
  function Shortened(name: seq<Byte>): (r: seq<Byte>)
    ensures |r| <= NAME_MAX && (|name| <= NAME_MAX ==> r == name) && (|name| > NAME_MAX ==> |r| == NAME_MAX)
    ensures name == name[..|name| - |r|] + r
  {
    if |name| > NAME_MAX then name[|name| - NAME_MAX..] else name
  }

  function Flatten(iov: seq<seq<Byte>>): seq<Byte> {
    if iov == [] then [] else Flatten(iov[..|iov| - 1]) + iov[|iov| - 1]
  }

  function RecordSize(e: Entry, dataSize: nat): nat {
    SizeOf(dataSize, |Shortened(e.thName)|, |Shortened(e.srcName)|)
  }

  function MakeHeader(e: Entry, dataSize: nat, order: nat): Header
    requires order < U32
  {
    Header(RecordSize(e, dataSize), order, e.time, e.minidata, e.level, e.category % 32,
           |Shortened(e.thName)|, |Shortened(e.srcName)|, e.line % 16384, 0, e.pid, e.thId,
           U32 - 1 - order)
  }

  function RecordOf(e: Entry, data: seq<Byte>, order: nat): Record
    requires order < U32
  {
    Record(MakeHeader(e, |data|, order), e.unset, data, Shortened(e.thName), Shortened(e.srcName))
  }

  /** What a reader is told is what put was given, but for the ends of long names and the bits of
      category and line that a record has no room for. */
  lemma ToldWhatWasPut(e: Entry, data: seq<Byte>, order: nat)
    requires e.InRange() && RecordSize(e, |data|) < U32 && order < U32
    ensures var r := RecordOf(e, data, order); var info := InfoOf(r);
      && WellFormed(r) && MakeInfo(r.header, Body(r)) == info && Body(r)[..info.size] == data
      && info.time == e.time && info.level == e.level && info.minidata == e.minidata
      && info.pid == e.pid && info.threadId == e.thId && info.weakOrder == order
      && info.category == e.category % 32 && info.sourceLine == e.line % 16384
      && info.threadName == (if |e.thName| <= 63 then e.thName else e.thName[|e.thName| - 63..])
      && info.sourceName == (if |e.srcName| <= 63 then e.srcName else e.srcName[|e.srcName| - 63..])
      && r.header.control == 0 && r.header.order + r.header.brOrder == U32 - 1
  {
    hide MakeInfo, Body;
    var r := RecordOf(e, data, order);
    MadeWell(e, data, order);
    InfoRoundTrip(r);
  }

  lemma MadeWell(e: Entry, data: seq<Byte>, order: nat)
    requires e.InRange() && RecordSize(e, |data|) < U32 && order < U32
    ensures WellFormed(RecordOf(e, data, order))
  {
  }

  lemma SizeOfRecord(e: Entry, data: seq<Byte>, order: nat)
    requires order < U32
    ensures RecordOf(e, data, order).header.size == RecordSize(e, |data|)
  {
  }

  /** The log grows by a record's bytes, and so do the records in it. */
  lemma RecordAppended(ring: seq<Byte>, addr: nat, start: seq<Byte>, recs: seq<Record>, r: Record)
    requires Logged(ring, addr, start, recs) && WellFormed(r) && r.header.size + 32 <= |ring|
    ensures Logged(Write(ring, addr, RecordBytes(r)), (addr + r.header.size) % |ring|, start, recs + [r])
  {
    hide Write, Holds, RecordBytes, LogBytes, WellFormed, Cleared;
    var log := start + LogBytes(recs);
    LogBytesGrow(start, recs, r);
    AcceptableGrows(recs, r, |ring|);
    PlaceAfter(addr, |log|, r.header.size, |ring|);
    WriteExtendsTheLog(ring, log, addr, RecordBytes(r));
  }

  lemma LogBytesGrow(start: seq<Byte>, recs: seq<Record>, r: Record)
    requires WellFormed(r) && forall i :: 0 <= i < |recs| ==> WellFormed(recs[i])
    ensures forall i :: 0 <= i < |recs + [r]| ==> WellFormed((recs + [r])[i])
    ensures r.header.InRange()
    ensures start + LogBytes(recs + [r]) == start + LogBytes(recs) + RecordBytes(r)
    ensures |RecordBytes(r)| == r.header.size
  {
    hide RecordBytes;
    RecordLength(r);
    assert (recs + [r])[..|recs + [r]| - 1] == recs;
  }

  lemma AcceptableGrows(recs: seq<Record>, r: Record, n: nat)
    requires Acceptable(recs, n) && WellFormed(r) && r.header.size + 32 <= n
    ensures Acceptable(recs + [r], n)
  {
    hide WellFormed;
  }

  lemma PlaceAfter(addr: nat, end: nat, size: nat, n: nat)
    requires n > 0 && addr == end % n
    ensures addr % n == end % n && (addr + size) % n == (end + size) % n
  {
    DivisionIs(addr, 0, addr, n);
    SameRemainder(addr, end, size, n);
  }

  class Writer {
    const ring: Buffer
    var cnt: Addr
    ghost var start: seq<Byte>      // the log up to the last clear
    ghost var recs: seq<Record>     // the records written since

    ghost predicate Valid()
      reads this, ring, ring.top
    {
      ring.Valid() && Logged(ring.top[..], ring.nextaddr, start, recs)
    }

    constructor (ring: Buffer)
      requires ring.Valid()
      modifies ring, ring.top
      ensures this.ring == ring && Valid() && recs == [] && cnt == 0
    {
      this.ring := ring;
      cnt := 0;
      start := ring.top[..] + [0, 0, 0, 0];
      recs := [];
      new;
      ring.Clear();
      assert start + LogBytes([]) == start;
    }

    method Clear()
      requires Valid()
      modifies this, ring, ring.top
      ensures Valid() && recs == [] && cnt == 0
    {
      cnt := 0;
      start := ring.top[..] + [0, 0, 0, 0];
      recs := [];
      ring.Clear();
      assert start + LogBytes([]) == start;
    }

    /** Writes a piece behind what this put has written so far, from address first on. */
    method Append(addr: Addr, piece: seq<Byte>, ghost was: seq<Byte>, ghost first: Addr, ghost done: seq<Byte>)
      returns (next: Addr)
      requires ring.Valid() && |was| == ring.top.Length
      requires addr == first + |done| && addr + |piece| < WORD
      requires ring.top[..] == Write(was, first, done)
      modifies ring.top
      ensures ring.top[..] == Write(was, first, done + piece)
      ensures next == first + |done + piece|
    {
      hide Write;
      WriteInTwo(was, first, done, piece);
      next := ring.Put(addr, piece);
    }

    method AppendAll(addr: Addr, iov: seq<seq<Byte>>, ghost was: seq<Byte>, ghost first: Addr, ghost done: seq<Byte>)
      returns (next: Addr)
      requires ring.Valid() && |was| == ring.top.Length
      requires addr == first + |done| && addr + |Flatten(iov)| < WORD
      requires ring.top[..] == Write(was, first, done)
      modifies ring.top
      ensures ring.top[..] == Write(was, first, done + Flatten(iov))
      ensures next == first + |done + Flatten(iov)|
    {
      hide Write;
      next := addr;
      assert done + Flatten(iov[..0]) == done;
      for i := 0 to |iov|
        invariant next == addr + |Flatten(iov[..i])|
        invariant ring.top[..] == Write(was, first, done + Flatten(iov[..i]))
      {
        FlattenPrefix(iov, i);
        assert done + Flatten(iov[..i]) + iov[i] == done + Flatten(iov[..i + 1]);
        next := Append(next, iov[i], was, first, done + Flatten(iov[..i]));
      }
      assert iov[..|iov|] == iov;
    }

    method AppendThreadName(addr: Addr, tn: seq<Byte>, ghost was: seq<Byte>, ghost first: Addr, ghost done: seq<Byte>)
      returns (next: Addr)
      requires ring.Valid() && |was| == ring.top.Length
      requires addr == first + |done| && addr + |NameBytes(tn)| < WORD
      requires ring.top[..] == Write(was, first, done)
      modifies ring.top
      ensures ring.top[..] == Write(was, first, done + NameBytes(tn))
      ensures next == first + |done + NameBytes(tn)|
    {
      hide Write;
      next := addr;
      if |tn| > 0 {
        next := Append(next, tn + [0], was, first, done);
      } else {
        assert done + [] == done;
      }
    }

    method AppendSourceName(addr: Addr, sn: seq<Byte>, ghost was: seq<Byte>, ghost first: Addr, ghost done: seq<Byte>)
      returns (next: Addr)
      requires ring.Valid() && |was| == ring.top.Length
      requires addr == first + |done| && addr + |NameBytes(sn)| < WORD
      requires ring.top[..] == Write(was, first, done)
      modifies ring.top
      ensures ring.top[..] == Write(was, first, done + NameBytes(sn))
      ensures next == first + |done + NameBytes(sn)|
    {
      hide Write;
      next := addr;
      if |sn| > 0 {
        next := Append(next, sn, was, first, done);
        next := Append(next, [0], was, first, done + sn);
        assert done + sn + [0] == done + NameBytes(sn);
      } else {
        assert done + [] == done;
      }
    }

    /** Header, log data, thread name, source name and size, in this order. */
    method PutRecord(addr: Addr, h: Header, unset: Unset, iov: seq<seq<Byte>>, tn: seq<Byte>, sn: seq<Byte>)
      requires ring.Valid()
      requires WellFormed(Record(h, unset, Flatten(iov), tn, sn)) && addr + h.size < WORD
      modifies ring.top
      ensures ring.top[..]
           == Write(old(ring.top[..]), addr, RecordBytes(Record(h, unset, Flatten(iov), tn, sn)))
    {
      hide Write, HeaderBytes, ToBytes, Flatten, NameBytes;
      HeaderRoundTrip(h, unset);
      ghost var was, hb, d := ring.top[..], HeaderBytes(h, unset), Flatten(iov);
      var at := ring.Put(addr, HeaderBytes(h, unset));
      at := AppendAll(at, iov, was, addr, hb);
      at := AppendThreadName(at, tn, was, addr, hb + d);
      ghost var named := hb + d + NameBytes(tn);
      at := AppendSourceName(at, sn, was, addr, named);
      at := Append(at, ToBytes(h.size, 4), was, addr, named + NameBytes(sn));
      assert named + NameBytes(sn) + ToBytes(h.size, 4)
          == RecordBytes(Record(h, unset, d, tn, sn));
    }

    /** Fills in the order of a record and writes the record into the space it was granted. */
    method Store(addr: Addr, e: Entry, iov: seq<seq<Byte>>, dataSize: nat, order: Addr)
      requires ring.Valid() && e.InRange() && dataSize == |Flatten(iov)|
      requires addr + RecordSize(e, dataSize) < WORD
      modifies ring.top
      ensures WellFormed(RecordOf(e, Flatten(iov), order))
      ensures ring.top[..] == Write(old(ring.top[..]), addr, RecordBytes(RecordOf(e, Flatten(iov), order)))
    {
      hide Write, Flatten, RecordBytes;
      MadeWell(e, Flatten(iov), order);
      PutRecord(addr, MakeHeader(e, dataSize, order), e.unset, iov, Shortened(e.thName), Shortened(e.srcName));
    }

    method Put(e: Entry, iov: seq<seq<Byte>>) returns (ok: bool)
      requires Valid() && e.InRange()
      requires RecordSize(e, |Flatten(iov)|) + 32 < WORD
      modifies this, ring, ring.top
      ensures Valid() && start == old(start)
      ensures ok <==> RecordSize(e, |Flatten(iov)|) + 32 <= ring.top.Length
      ensures ok ==> cnt == (old(cnt) + 1) % WORD && recs == old(recs) + [RecordOf(e, Flatten(iov), cnt)]
      ensures !ok ==> recs == old(recs) && cnt == old(cnt) && ring.top[..] == old(ring.top[..])
    {
      hide Write, Holds, Flatten, RecordBytes, LogBytes, Cleared, Logged, RecordSize, Entry.InRange, WellFormed, RecordOf, MakeHeader;
      var dataSize := DataSize(iov);
      var size := RecordSize(e, dataSize);
      SumsDoNotWrap(ring.nextaddr, size, ring.top.Length);
      var addr := ring.Reserve(size);
      if addr == TOO_LARGE { return false; }
      cnt := (cnt + 1) % WORD;
      ghost var was, r := ring.top[..], RecordOf(e, Flatten(iov), cnt);
      Store(addr, e, iov, dataSize, cnt);
      SizeOfRecord(e, Flatten(iov), cnt);
      RecordAppended(was, addr, start, recs, r);
      recs := recs + [r];
      ok := true;
    }
  }

  lemma SumsDoNotWrap(nextaddr: Addr, size: nat, n: nat)
    requires size + 32 < WORD && nextaddr < n <= SIZE_MAX
    ensures (size + 32) % WORD == size + 32
    ensures size + 32 <= n ==> nextaddr + size < WORD && (nextaddr + size) % WORD == nextaddr + size
  {
  }

  /** Nothing has been written since a clear. */
  ghost predicate Emptied(ring: Buffer)
    reads ring, ring.top
  {
    ring.Valid() && exists start :: Logged(ring.top[..], ring.nextaddr, start, [])
  }

  method ClearOne(ring: Buffer)
    requires ring.Valid()
    modifies ring, ring.top
    ensures Emptied(ring)
  {
    ghost var start := ring.top[..] + [0, 0, 0, 0];
    ring.Clear();
    assert start + LogBytes([]) == start;
    assert Logged(ring.top[..], ring.nextaddr, start, []);
  }

  /** clear of a writer: rbuf_ has a ring for every level, the same one for several of them. */
  method ClearAll(rbuf: seq<Buffer>) returns (cnt: Addr)
    requires forall i :: 0 <= i < |rbuf| ==> rbuf[i].Valid()
    requires forall i, j :: 0 <= i < |rbuf| && 0 <= j < |rbuf| && rbuf[i] != rbuf[j] ==> rbuf[i].top != rbuf[j].top
    modifies rbuf, set i | 0 <= i < |rbuf| :: rbuf[i].top
    ensures cnt == 0 && forall i :: 0 <= i < |rbuf| ==> Emptied(rbuf[i])
  {
    hide Logged;
    cnt := 0;
    for i := 0 to |rbuf|
      invariant forall j :: 0 <= j < |rbuf| ==> rbuf[j].Valid()
      invariant forall j :: 0 <= j < i ==> Emptied(rbuf[j])
    {
      ClearOne(rbuf[i]);
    }
  }

  method DataSize(iov: seq<seq<Byte>>) returns (size: nat)
    ensures size == |Flatten(iov)|
  {
    size := 0;
    for i := 0 to |iov|
      invariant size == |Flatten(iov[..i])|
    {
      FlattenPrefix(iov, i);
      size := size + |iov[i]|;
    }
    assert iov[..|iov|] == iov;
  }

  lemma FlattenPrefix(iov: seq<seq<Byte>>, i: nat)
    requires i < |iov|
    ensures Flatten(iov[..i + 1]) == Flatten(iov[..i]) + iov[i]
    ensures |Flatten(iov[..i + 1])| <= |Flatten(iov)|
    decreases |iov| - i
  {
    assert iov[..i + 1][..i] == iov[..i];
    if i + 1 < |iov| {
      FlattenPrefix(iov, i + 1);
    } else {
      assert iov[..i + 1] == iov;
    }
  }
}
