/** rec_reader of src/c7mlog/reader.cpp: a walk from the newest record backwards. */
module MlogReader {
  import opened Bytes
  import opened Numbers
  import opened Ring
  import opened MlogRecord
  import opened Mlog

  // ---- which record a walk finds ----

  /** What the caller of get asks for. */
  datatype Query = Query(choice: Info -> bool, orderMin: nat, timeMin: int)
  {
    predicate InWindow(r: Record) { r.header.order >= orderMin && r.header.time >= timeMin }
  }

  /** Nothing from before the log was opened is asked for. */
  function BoundedBy(q: Query, logBeg: int): Query {
    q.(timeMin := if q.timeMin > logBeg then q.timeMin else logBeg)
  }

  datatype Outcome = Hit(index: nat) | End | Lost

  /** Walking back over recs with room bytes of the lap left.  A record that is cut ends the
      walk if at least its size is still there to be read; with less it is lost. */
  function Find(recs: seq<Record>, room: int, q: Query): (o: Outcome)
    ensures o.Hit? ==> o.index < |recs|
  {
    if room < 4 then Lost
    else if recs == [] then End
    else
      var last := |recs| - 1;
      if recs[last].header.size > room then End
      else if !q.InWindow(recs[last]) then End
      else if q.choice(InfoOf(recs[last])) then Hit(last)
      else Find(recs[..last], room - recs[last].header.size, q)
  }

  /** The bytes of the newest k records. */
  function Newest(recs: seq<Record>, k: nat): nat
    requires k <= |recs|
  {
    if k == 0 then 0 else recs[|recs| - 1].header.size + Newest(recs[..|recs| - 1], k - 1)
  }

  /** A hit is the newest accepted record, found if and only if it and all after it are
      still in the ring and inside the window asked for. */
  lemma {:induction false} HitIsNewestAccepted(recs: seq<Record>, room: int, q: Query, i: nat)
    requires forall j :: 0 <= j < |recs| ==> WellFormed(recs[j])
    ensures Find(recs, room, q) == Hit(i) <==>
      && i < |recs| && Newest(recs, |recs| - i) <= room
      && q.choice(InfoOf(recs[i]))
      && (forall j :: i <= j < |recs| ==> q.InWindow(recs[j]))
      && (forall j :: i < j < |recs| ==> !q.choice(InfoOf(recs[j])))
  {
    hide InfoOf, Query.InWindow, WellFormed;
    if recs != [] {
      var last := |recs| - 1;
      AtLeastAHeader(recs[last]);
      HitIsNewestAccepted(recs[..last], room - recs[last].header.size, q, i);
      if i < last {
        assert recs[..last][i] == recs[i];
        NewestIsPositive(recs[..last], last - i);
      }
    }
  }

  lemma AtLeastAHeader(r: Record)
    requires WellFormed(r)
    ensures r.header.size >= HEADER_SIZE + 4
  {
  }

  lemma {:induction false} NewestIsPositive(recs: seq<Record>, k: nat)
    requires 0 < k <= |recs| && forall j :: 0 <= j < |recs| ==> WellFormed(recs[j])
    ensures Newest(recs, k) >= HEADER_SIZE + 4
  {
    assert WellFormed(recs[|recs| - 1]);
    if k > 1 { NewestIsPositive(recs[..|recs| - 1], k - 1); }
  }

  /** As many records as fit in the ring are found, newest first, one by each get. */
  lemma {:induction false} NewestComeFirst(recs: seq<Record>, room: int, q: Query, k: nat, j: nat)
    requires forall i :: 0 <= i < |recs| ==> WellFormed(recs[i])
    requires k <= |recs| && Newest(recs, k) <= room && j < k
    requires forall i :: |recs| - k <= i < |recs| ==> q.InWindow(recs[i]) && q.choice(InfoOf(recs[i]))
    ensures Find(recs[..|recs| - j], room - Newest(recs, j), q) == Hit(|recs| - 1 - j)
  {
    hide InfoOf, Query.InWindow;
    var last := |recs| - 1;
    assert WellFormed(recs[last]);
    if j == 0 {
      assert recs[..|recs|] == recs;
    } else {
      NewestComeFirst(recs[..last], room - recs[last].header.size, q, k - 1, j - 1);
      assert recs[..last][..last - (j - 1)] == recs[..|recs| - j];
    }
  }

  /** With the zero word still in the ring the walk ends after the oldest record. */
  lemma {:induction false} AllThenEnd(recs: seq<Record>, room: int, q: Query)
    requires forall i :: 0 <= i < |recs| ==> WellFormed(recs[i])
    requires Newest(recs, |recs|) + 4 <= room
    requires forall i :: 0 <= i < |recs| ==> q.InWindow(recs[i])
    ensures Find(recs, room, q) == End <==> forall i :: 0 <= i < |recs| ==> !q.choice(InfoOf(recs[i]))
    ensures Find(recs, room, q) != Lost
  {
    if recs != [] {
      var last := |recs| - 1;
      assert WellFormed(recs[last]);
      AllThenEnd(recs[..last], room - recs[last].header.size, q);
    }
  }

  // ---- records and where they lie ----

  /** At this address the ring holds this record. */
  ghost predicate RecordAt(ring: seq<Byte>, addr: int, r: Record) {
    |ring| > 0 && addr >= 0 && WellFormed(r) && Read(ring, addr, r.header.size) == RecordBytes(r)
  }

  /** Reading a record piece by piece, header first, gives back what was put. */
  lemma RecordIsRead(ring: seq<Byte>, addr: nat, r: Record)
    requires RecordAt(ring, addr, r)
    ensures HeaderFrom(Read(ring, addr, HEADER_SIZE)) == r.header
    ensures r.header.size == HEADER_SIZE + |Body(r)|
    ensures |Body(r)| >= 4 + NameSize(r.header.tnSize) + NameSize(r.header.snSize)
    ensures r.header.order == U32 - 1 - r.header.brOrder
    ensures r.header.tnSize == |r.tn| && r.header.snSize == |r.sn|
    ensures Read(ring, addr + HEADER_SIZE, r.header.size - HEADER_SIZE) == Body(r)
    ensures MakeInfo(r.header, Body(r)) == InfoOf(r)
    ensures Body(r)[..InfoOf(r).size] == r.data
  {
    hide Read, MakeInfo, InfoOf, RecordBytes, Body, HeaderFrom;
    RecordEnds(r);
    InfoRoundTrip(r);
    var rest := r.header.size - HEADER_SIZE;
    ReadInTwo(ring, addr, HEADER_SIZE, rest);
    assert Read(ring, addr, HEADER_SIZE) == RecordBytes(r)[..HEADER_SIZE];
    assert Read(ring, addr + HEADER_SIZE, rest) == RecordBytes(r)[HEADER_SIZE..];
  }

  /** The reader stands behind the records left, at addr, with room bytes of the lap before it. */
  ghost predicate Standing(ring: seq<Byte>, addr: int, room: int, start: seq<Byte>, recs: seq<Record>, log: seq<Byte>) {
    && Holds(ring, log) && Acceptable(recs, |ring|) && Cleared(start)
    && start + LogBytes(recs) <= log && addr >= room >= 0
    && var at := |start + LogBytes(recs)|;
       room == |ring| - (|log| - at) && addr % |ring| == at % |ring|
  }

  /** Where a walk starts. */
  lemma StandingAtTheEnd(ring: seq<Byte>, nextaddr: nat, start: seq<Byte>, recs: seq<Record>)
    requires Logged(ring, nextaddr, start, recs)
    ensures Standing(ring, nextaddr + 2 * |ring|, |ring|, start, recs, start + LogBytes(recs))
  {
    hide Holds, LogBytes, Cleared;
    var n, log := |ring|, start + LogBytes(recs);
    LapsApart(nextaddr + 2 * n, nextaddr, 2, n);
    DivisionIs(nextaddr, 0, nextaddr, n);
  }

  /** The record that ends where the reader stands. */
  lemma LastOfTheLog(ring: seq<Byte>, addr: nat, room: int, start: seq<Byte>, recs: seq<Record>, log: seq<Byte>)
    requires Standing(ring, addr, room, start, recs, log) && recs != []
    ensures var r, at := recs[|recs| - 1], |start + LogBytes(recs[..|recs| - 1])|;
      && WellFormed(r) && r.header.size + 32 <= |ring| && at + r.header.size <= |log|
      && room == |ring| - (|log| - (at + r.header.size)) && addr >= room >= 0
      && addr % |ring| == (at + r.header.size) % |ring|
      && start + LogBytes(recs[..|recs| - 1]) <= log
      && log[at..at + r.header.size] == RecordBytes(r)
  {
    hide Holds, RecordBytes, Cleared;
    var r, before := recs[|recs| - 1], start + LogBytes(recs[..|recs| - 1]);
    assert WellFormed(r);
    RecordLength(r);
    assert start + LogBytes(recs) == before + RecordBytes(r);
    assert log[..|before + RecordBytes(r)|] == before + RecordBytes(r);
    assert log[|before|..|before| + r.header.size] == (before + RecordBytes(r))[|before|..];
  }

  lemma SizeInFront(ring: seq<Byte>, addr: nat, log: seq<Byte>, at: nat, r: Record)
    requires WellFormed(r) && Holds(ring, log) && addr >= 4 && at + r.header.size <= |log|
    requires addr % |ring| == (at + r.header.size) % |ring| && |log| - |ring| <= at + r.header.size - 4
    requires log[at..at + r.header.size] == RecordBytes(r)
    ensures FromBytes(Read(ring, addr - 4, 4)) == r.header.size
  {
    hide Holds, RecordBytes, WellFormed, Read, FromBytes;
    RecordEnds(r);
    var size := r.header.size;
    SameRemainder(addr, at + size, -4, |ring|);
    ReadIsFromTheLog(ring, log, addr - 4, 4, at + size - 4);
    assert log[at + size - 4..at + size] == log[at..at + size][size - 4..];
  }

  lemma OneBack(ring: seq<Byte>, addr: nat, room: int, start: seq<Byte>, recs: seq<Record>, log: seq<Byte>)
    requires Standing(ring, addr, room, start, recs, log) && recs != []
    ensures var r := recs[|recs| - 1];
      && WellFormed(r) && r.header.size + 32 <= |ring|
      && (4 <= room ==> FromBytes(Read(ring, addr - 4, 4)) == r.header.size)
      && (r.header.size <= room ==>
            && Standing(ring, addr - r.header.size, room - r.header.size, start, recs[..|recs| - 1], log)
            && RecordAt(ring, addr - r.header.size, r))
  {
    hide Holds, RecordBytes, LogBytes, Cleared, Read, FromBytes, WellFormed;
    var n, r, rest := |ring|, recs[|recs| - 1], recs[..|recs| - 1];
    var at, size := |start + LogBytes(rest)|, r.header.size;
    LastOfTheLog(ring, addr, room, start, recs, log);
    if 4 <= room {
      SizeInFront(ring, addr, log, at, r);
    }
    if size <= room {
      SameRemainder(addr, at + size, -size, n);
      ReadIsFromTheLog(ring, log, addr - size, size, at);
    }
  }

  lemma {:induction false} NewestStand(ring: seq<Byte>, addr: nat, room: int, start: seq<Byte>,
                                      recs: seq<Record>, log: seq<Byte>, j: nat)
    requires Standing(ring, addr, room, start, recs, log) && j < |recs| && Newest(recs, j + 1) <= room
    ensures RecordAt(ring, addr - Newest(recs, j + 1), recs[|recs| - 1 - j])
    decreases j
  {
    hide Standing, RecordAt;
    OneBack(ring, addr, room, start, recs, log);
    var last := |recs| - 1;
    var size := recs[last].header.size;
    if j > 0 {
      StandingInside(ring, addr, room, start, recs, log);
      NewestGrows(recs[..last], j);
      NewestStand(ring, addr - size, room - size, start, recs[..last], log, j - 1);
    }
  }

  lemma StandingInside(ring: seq<Byte>, addr: nat, room: int, start: seq<Byte>, recs: seq<Record>, log: seq<Byte>)
    requires Standing(ring, addr, room, start, recs, log)
    ensures addr >= room
    ensures forall i :: 0 <= i < |recs| ==> WellFormed(recs[i])
  {
  }

  lemma NewestGrows(recs: seq<Record>, k: nat)
    requires 0 < k <= |recs| && forall i :: 0 <= i < |recs| ==> WellFormed(recs[i])
    ensures Newest(recs, k) > 0
  {
    NewestIsPositive(recs, k);
  }

  /** Across wrap-around and after any number of puts: the newest records that together fit in
      the ring are there, at the addresses a reader steps back to, and each is read back with
      its header, its log data and its names. */
  lemma NewestComeBack(ring: seq<Byte>, nextaddr: nat, start: seq<Byte>, recs: seq<Record>, j: nat)
    requires Logged(ring, nextaddr, start, recs) && j < |recs| && Newest(recs, j + 1) <= |ring|
    ensures var r, addr := recs[|recs| - 1 - j], nextaddr + 2 * |ring| - Newest(recs, j + 1);
      && addr >= 0 && WellFormed(r)
      && HeaderFrom(Read(ring, addr, HEADER_SIZE)) == r.header
      && Read(ring, addr + HEADER_SIZE, r.header.size - HEADER_SIZE) == Body(r)
      && r.header.size == HEADER_SIZE + |Body(r)|
      && |Body(r)| >= 4 + NameSize(r.header.tnSize) + NameSize(r.header.snSize)
      && MakeInfo(r.header, Body(r)) == InfoOf(r) && Body(r)[..InfoOf(r).size] == r.data
  {
    hide Standing, Holds, Cleared, Read, Body, MakeInfo, InfoOf, HeaderFrom;
    StandingAtTheEnd(ring, nextaddr, start, recs);
    NewestStand(ring, nextaddr + 2 * |ring|, |ring|, start, recs, start + LogBytes(recs), j);
    RecordIsRead(ring, nextaddr + 2 * |ring| - Newest(recs, j + 1), recs[|recs| - 1 - j]);
  }

  lemma ZeroBack(ring: seq<Byte>, addr: nat, room: int, start: seq<Byte>, log: seq<Byte>)
    requires Standing(ring, addr, room, start, [], log) && 4 <= room
    ensures FromBytes(Read(ring, addr - 4, 4)) == 0
  {
    hide Holds, Read;
    assert start + LogBytes([]) == start;
    SameRemainder(addr, |start|, -4, |ring|);
    ReadIsFromTheLog(ring, log, addr - 4, 4, |start| - 4);
    assert log[|start| - 4..|start|] == [0, 0, 0, 0];
    assert FromBytes([0, 0, 0, 0]) == 0;
  }

  // ---- how far the reader has come ----

  lemma {:induction false} LogUpTo(recs: seq<Record>, i: nat)
    requires i <= |recs| && forall j :: 0 <= j < |recs| ==> WellFormed(recs[j])
    ensures |LogBytes(recs)| == |LogBytes(recs[..i])| + Newest(recs, |recs| - i)
  {
    hide RecordBytes, WellFormed;
    if i == |recs| {
      assert recs[..i] == recs;
    } else {
      RecordLength(recs[|recs| - 1]);
      LogUpTo(recs[..|recs| - 1], i);
      assert recs[..|recs| - 1][..i] == recs[..i];
    }
  }

  /** Standing behind the first i records it has passed the bytes of those behind them. */
  lemma RoomDrops(ring: seq<Byte>, addr: int, room: int, addr': int, room': int, start: seq<Byte>,
                  recs: seq<Record>, i: nat, log: seq<Byte>)
    requires Standing(ring, addr, room, start, recs, log) && i <= |recs|
    requires Standing(ring, addr', room', start, recs[..i], log)
    ensures room' == room - Newest(recs, |recs| - i)
  {
    hide Holds, Cleared, LogBytes;
    LogUpTo(recs, i);
  }

  // ---- the reader ----

  datatype Desc = Desc(time: int, order: nat, part: nat, addr: Addr, tnSize: nat, snSize: nat)
  datatype Found = NotFound | Found(desc: Desc)

  class Reader {
    const ring: Buffer
    const logBeg: int
    const part: nat
    var recaddr: Addr
    var brkaddr: Addr
    ghost const start: seq<Byte>
    ghost const log: seq<Byte>
    ghost var left: seq<Record>       // the records not walked over yet

    ghost predicate Valid()
      reads this, ring, ring.top
    {
      && SIZE_MIN <= ring.top.Length <= SIZE_MAX && brkaddr >= ring.top.Length
      && Standing(ring.top[..], recaddr, recaddr - brkaddr, start, left, log)
    }

    constructor (logBeg: int, ring: Buffer, part: nat, ghost start: seq<Byte>, ghost recs: seq<Record>)
      requires ring.Valid() && Acceptable(recs, ring.top.Length)
      requires Logged(ring.top[..], ring.nextaddr, start, recs)
      ensures this.ring == ring && this.logBeg == logBeg && this.part == part
      ensures Valid() && left == recs
      ensures recaddr == ring.nextaddr + 2 * ring.top.Length && brkaddr == recaddr - ring.top.Length
    {
      hide Logged, Standing;
      StandingAtTheEnd(ring.top[..], ring.nextaddr, start, recs);
      this.ring, this.logBeg, this.part := ring, logBeg, part;
      recaddr := ring.nextaddr + ring.top.Length * 2;
      brkaddr := ring.nextaddr + ring.top.Length * 2 - ring.top.Length;
      this.start, this.log, this.left := start, start + LogBytes(recs), recs;
    }

    function Bounded(q: Query): Query {
      BoundedBy(q, logBeg)
    }

    ghost function Next(q: Query): Outcome
      reads this
    {
      Find(left, recaddr - brkaddr, Bounded(q))
    }

    /** The outcome a get that started with recs has come to. */
    ghost predicate Reached(o: Outcome, recs: seq<Record>, r: Found)
      requires o.Hit? ==> o.index < |recs|
      reads this, ring, ring.top
    {
      match o
      case Hit(i) =>
        && r.Found? && r.desc.addr == recaddr && Describes(r.desc, part, recs[i], ring.top[..])
        && Valid() && left == recs[..i]
      case End => r == NotFound
      case Lost => true
    }

    /** Steps back over one record, or to the zero word, or to where a record is cut. */
    method StepBack() returns (size: Addr)
      requires Valid() && recaddr - brkaddr >= 4
      modifies `recaddr
      ensures var room := old(recaddr) - brkaddr;
              size == 0 || recaddr < brkaddr <==> left == [] || left[|left| - 1].header.size > room
      ensures !(size == 0 || recaddr < brkaddr) ==>
        && size == left[|left| - 1].header.size && recaddr == old(recaddr) - size && recaddr + size < WORD
        && RecordAt(ring.top[..], recaddr, left[|left| - 1])
        && Standing(ring.top[..], recaddr, recaddr - brkaddr, start, left[..|left| - 1], log)
    {
      hide Standing, FromBytes, Read;
      ghost var room := recaddr - brkaddr;
      if left == [] {
        ZeroBack(ring.top[..], recaddr, room, start, log);
      } else {
        OneBack(ring.top[..], recaddr, room, start, left, log);
        RecordLength(left[|left| - 1]);
      }
      var word := ring.Get((recaddr - 4) % WORD, 4);
      size := FromBytes(word);
      recaddr := (recaddr - size) % WORD;
    }

    /** One turn of get. */
    method Back(q: Query) returns (more: bool, r: Found)
      requires Valid() && Next(q) != Lost
      modifies this
      ensures brkaddr == old(brkaddr)
      ensures more ==> Valid() && Next(q) == old(Next(q)) && |left| < |old(left)| && left <= old(left)
      ensures !more ==> Reached(old(Next(q)), old(left), r)
    {
      hide Standing, HeaderFrom, FromBytes, MakeInfo, InfoOf, Body, Read, RecordAt;
      var size := StepBack();
      if size == 0 || recaddr < brkaddr { return false, NotFound; }
      ghost var last := left[|left| - 1];
      left := left[..|left| - 1];
      RecordIsRead(ring.top[..], recaddr, last);
      var bytes := ring.Get(recaddr, HEADER_SIZE);
      var rec := HeaderFrom(bytes);
      if rec.size != size || rec.order != U32 - 1 - rec.brOrder || rec.order < q.orderMin || rec.time < Bounded(q).timeMin {
        return false, NotFound;
      }
      var dbuf := ring.Get(recaddr + HEADER_SIZE, size - HEADER_SIZE);
      var info := MakeInfo(rec, dbuf);
      if q.choice(info) {
        return false, Found(Desc(rec.time, rec.order, part, recaddr, rec.tnSize, rec.snSize));
      }
      more, r := true, NotFound;
    }

    method Get(q: Query) returns (r: Found)
      requires Valid() && Next(q) != Lost
      modifies this
      ensures brkaddr == old(brkaddr)
      ensures Reached(old(Next(q)), old(left), r)
      ensures old(Next(q)).Hit? ==> recaddr == old(recaddr) - Newest(old(left), |old(left)| - |left|)
    {
      hide Standing, Find, Describes;
      ghost var addr, room, recs, o := recaddr, recaddr - brkaddr, left, Next(q);
      var more := true;
      r := NotFound;
      while more
        invariant brkaddr == old(brkaddr)
        invariant more ==> Valid() && Next(q) == old(Next(q)) && left <= old(left)
        invariant !more ==> Reached(old(Next(q)), old(left), r)
        decreases more, |left|
      {
        more, r := Back(q);
      }
      if o.Hit? {
        RoomDrops(ring.top[..], addr, room, recaddr, recaddr - brkaddr, start, recs, o.index, log);
      }
    }
  }

  ghost predicate Describes(d: Desc, part: nat, r: Record, ring: seq<Byte>) {
    && d == Desc(r.header.time, r.header.order, part, d.addr, |r.tn|, |r.sn|)
    && RecordAt(ring, d.addr, r) && d.addr + r.header.size < WORD
  }

  /** What scan does with the address of a record. */
  method Access(ring: Buffer, addr: Addr, ghost r: Record) returns (info: Info, dbuf: seq<Byte>)
    requires ring.top.Length > 0 && RecordAt(ring.top[..], addr, r) && addr + r.header.size < WORD
    ensures info == InfoOf(r) && info.size <= |dbuf| && dbuf[..info.size] == r.data
  {
    hide HeaderFrom, MakeInfo, Body, Read;
    RecordIsRead(ring.top[..], addr, r);
    RecordLength(r);
    var bytes := ring.Get(addr, HEADER_SIZE);
    var rec := HeaderFrom(bytes);
    dbuf := ring.Get(addr + HEADER_SIZE, rec.size - HEADER_SIZE);
    info := MakeInfo(rec, dbuf);
  }

  // ---- many gets ----

  /** The first k gets give the k newest records, newest first, whatever the log has been through;
      how many fit in the ring is what bounds k. */
  method GetNewest(rd: Reader, q: Query, k: nat) returns (ds: seq<Desc>)
    requires rd.Valid() && k <= |rd.left| && Newest(rd.left, k) <= rd.recaddr - rd.brkaddr
    requires forall i :: |rd.left| - k <= i < |rd.left| ==>
      rd.Bounded(q).InWindow(rd.left[i]) && q.choice(InfoOf(rd.left[i]))
    modifies rd
    ensures rd.Valid() && rd.brkaddr == old(rd.brkaddr) && rd.left == old(rd.left)[..|old(rd.left)| - k]
    ensures rd.recaddr == old(rd.recaddr) - Newest(old(rd.left), k)
    ensures |ds| == k && forall j :: 0 <= j < k ==>
      Describes(ds[j], rd.part, old(rd.left)[|old(rd.left)| - 1 - j], rd.ring.top[..])
  {
    hide Standing, Describes, InfoOf, Query.InWindow, Newest, Find;
    ghost var recs, n, addr, room := rd.left, |rd.left|, rd.recaddr, rd.recaddr - rd.brkaddr;
    ghost var ring := rd.ring.top[..];
    StandingInside(ring, addr, room, rd.start, recs, rd.log);
    NewestOfNone(recs);
    assert recs[..n] == recs;
    ds := [];
    for j := 0 to k
      invariant rd.Valid() && rd.brkaddr == old(rd.brkaddr) && rd.left == recs[..n - j]
      invariant rd.recaddr == addr - Newest(recs, j)
      invariant |ds| == j && forall i :: 0 <= i < j ==> Describes(ds[i], rd.part, recs[n - 1 - i], ring)
    {
      NewestComeFirst(recs, room, rd.Bounded(q), k, j);
      var r := rd.Get(q);
      assert rd.left == recs[..n - 1 - j];
      RoomDrops(ring, addr, room, rd.recaddr, rd.recaddr - rd.brkaddr, rd.start, recs, n - 1 - j, rd.log);
      ds := ds + [r.desc];
    }
  }

  lemma NewestOfNone(recs: seq<Record>)
    ensures Newest(recs, 0) == 0
  {
  }

  /** With the zero word still in the ring all records are given, and then none. */
  method GetAll(rd: Reader, q: Query, k: nat) returns (ds: seq<Desc>, last: Found)
    requires rd.Valid() && k == |rd.left| && Newest(rd.left, k) + 4 <= rd.recaddr - rd.brkaddr
    requires forall i :: 0 <= i < |rd.left| ==>
      rd.Bounded(q).InWindow(rd.left[i]) && q.choice(InfoOf(rd.left[i]))
    modifies rd
    ensures |ds| == k && forall j :: 0 <= j < k ==>
      Describes(ds[j], rd.part, old(rd.left)[k - 1 - j], rd.ring.top[..])
    ensures last == NotFound
  {
    hide Standing, Describes, Newest;
    ds := GetNewest(rd, q, k);
    last := rd.Get(q);
  }

  // ---- all that a walk gives ----

  /** What a get gives, and the record it stands for. */
  datatype Given = Given(desc: Desc, record: Record)

  function DescOf(part: nat, r: Record, addr: Addr): Desc {
    Desc(r.header.time, r.header.order, part, addr, |r.tn|, |r.sn|)
  }

  /** What one get after the other gives, from addr back with room bytes of the lap left. */
  ghost function Yield(part: nat, recs: seq<Record>, addr: Addr, room: nat, q: Query): (g: seq<Given>)
    requires room <= addr && forall j :: 0 <= j < |recs| ==> WellFormed(recs[j])
    ensures forall k :: 0 <= k < |g| ==> g[k].desc.part == part && g[k].record in recs
    decreases |recs|
  {
    match Find(recs, room, q)
    case Hit(i) =>
      HitIsNewestAccepted(recs, room, q, i);
      var back := Newest(recs, |recs| - i);
      [Given(DescOf(part, recs[i], addr - back), recs[i])] + Yield(part, recs[..i], addr - back, room - back, q)
    case _ => []
  }

  /** A walk over all records does not run into one of which only the size has been overwritten. */
  predicate Steady(recs: seq<Record>, room: int, q: Query) {
    Find(recs, room, q.(choice := _ => false)) != Lost
  }

  lemma {:induction false} SteadyGoesOn(recs: seq<Record>, room: int, q: Query)
    requires Steady(recs, room, q)
    ensures var o := Find(recs, room, q);
      o != Lost && (o.Hit? ==> Steady(recs[..o.index], room - Newest(recs, |recs| - o.index), q))
  {
    if room >= 4 && recs != [] {
      var last := |recs| - 1;
      if recs[last].header.size <= room && q.InWindow(recs[last]) {
        if q.choice(InfoOf(recs[last])) {
          assert Newest(recs[..last], 0) == 0;
        } else {
          SteadyGoesOn(recs[..last], room - recs[last].header.size, q);
          var o := Find(recs, room, q);
          if o.Hit? { assert recs[..last][..o.index] == recs[..o.index]; }
        }
      }
    }
  }

  lemma {:induction false} StandingBack(ring: seq<Byte>, addr: nat, room: int, start: seq<Byte>,
                                       recs: seq<Record>, i: nat, log: seq<Byte>)
    requires Standing(ring, addr, room, start, recs, log)
    requires i < |recs| && Newest(recs, |recs| - i) <= room
    ensures var back := Newest(recs, |recs| - i);
      && Standing(ring, addr - back, room - back, start, recs[..i], log)
      && RecordAt(ring, addr - back, recs[i])
      && back >= recs[i].header.size
    decreases |recs|
  {
    hide Standing, RecordAt;
    var last := |recs| - 1;
    var size := recs[last].header.size;
    assert size <= Newest(recs, |recs| - i);
    OneBack(ring, addr, room, start, recs, log);
    StandingInside(ring, addr, room, start, recs, log);
    if i < last {
      StandingBack(ring, addr - size, room - size, start, recs[..last], i, log);
      assert recs[..last][..i] == recs[..i];
    } else {
      assert Newest(recs[..last], 0) == 0;
    }
  }

  lemma YieldUnfolds(part: nat, recs: seq<Record>, addr: Addr, room: nat, q: Query)
    requires room <= addr && forall j :: 0 <= j < |recs| ==> WellFormed(recs[j])
    ensures var o, g := Find(recs, room, q), Yield(part, recs, addr, room, q);
      if !o.Hit? then g == []
      else
        var back := Newest(recs, |recs| - o.index);
        && back <= room
        && g == [Given(DescOf(part, recs[o.index], addr - back), recs[o.index])]
                + Yield(part, recs[..o.index], addr - back, room - back, q)
  {
    hide Find, Newest, InfoOf, WellFormed, Query.InWindow;
    var o := Find(recs, room, q);
    HitIsNewestAccepted(recs, room, q, if o.Hit? then o.index else 0);
  }

  /** Each of them is in the ring at the address told. */
  lemma {:induction false} YieldDescribes(ring: seq<Byte>, part: nat, addr: Addr, room: nat, start: seq<Byte>,
                                         recs: seq<Record>, log: seq<Byte>, q: Query, k: nat)
    requires Standing(ring, addr, room, start, recs, log) && addr >= room
    requires forall j :: 0 <= j < |recs| ==> WellFormed(recs[j])
    requires k < |Yield(part, recs, addr, room, q)|
    ensures var g := Yield(part, recs, addr, room, q)[k]; Describes(g.desc, part, g.record, ring)
    decreases |recs|
  {
    hide Standing, RecordAt, Find, Newest, Yield, WellFormed;
    var o := Find(recs, room, q);
    YieldUnfolds(part, recs, addr, room, q);
    StandingBack(ring, addr, room, start, recs, o.index, log);
    if k > 0 {
      var back := Newest(recs, |recs| - o.index);
      YieldDescribes(ring, part, addr - back, room - back, start, recs[..o.index], log, q, k - 1);
    }
  }

  // ---- which records are given ----

  lemma {:induction false} NewestInTwo(recs: seq<Record>, h: nat, i: nat)
    requires i <= h <= |recs|
    ensures Newest(recs, |recs| - i) == Newest(recs, |recs| - h) + Newest(recs[..h], h - i)
    decreases |recs|
  {
    if h == |recs| {
      assert recs[..h] == recs;
    } else {
      NewestInTwo(recs[..|recs| - 1], h, i);
      assert recs[..|recs| - 1][..h] == recs[..h];
    }
  }

  /** What is given is chosen, and neither it nor any newer record is overwritten, older than the log
      or than asked for, or of an order below the one asked for. */
  lemma {:induction false} GivenAreWanted(part: nat, recs: seq<Record>, addr: Addr, room: nat, q: Query,
                                         logBeg: int, k: nat) returns (i: nat)
    requires room <= addr && forall j :: 0 <= j < |recs| ==> WellFormed(recs[j])
    requires k < |Yield(part, recs, addr, room, BoundedBy(q, logBeg))|
    ensures var g := Yield(part, recs, addr, room, BoundedBy(q, logBeg))[k];
      && i < |recs| && g.record == recs[i] && q.choice(InfoOf(recs[i]))
      && g.desc.time == recs[i].header.time && g.desc.order == recs[i].header.order
    ensures Newest(recs, |recs| - i) <= room
    ensures forall j :: i <= j < |recs| ==>
      recs[j].header.time >= logBeg && recs[j].header.time >= q.timeMin && recs[j].header.order >= q.orderMin
    decreases |recs|
  {
    hide Find, Newest, Yield, WellFormed, InfoOf;
    var b := BoundedBy(q, logBeg);
    YieldUnfolds(part, recs, addr, room, b);
    var h := Find(recs, room, b).index;
    HitIsNewestAccepted(recs, room, b, h);
    if k > 0 {
      var back := Newest(recs, |recs| - h);
      i := GivenAreWanted(part, recs[..h], addr - back, room - back, q, logBeg, k - 1);
      NewestInTwo(recs, h, i);
      forall j | i <= j < |recs|
        ensures recs[j].header.time >= logBeg && recs[j].header.time >= q.timeMin && recs[j].header.order >= q.orderMin
      {
        if j >= h { assert b.InWindow(recs[j]); } else { assert recs[..h][j] == recs[j]; }
      }
    } else {
      i := h;
      assert forall j :: h <= j < |recs| ==> b.InWindow(recs[j]);
    }
  }

  /** The newest accepted record from i on. */
  lemma NewestAccepted(recs: seq<Record>, i: nat, q: Query) returns (h: nat)
    requires i < |recs| && q.choice(InfoOf(recs[i]))
    ensures i <= h < |recs| && q.choice(InfoOf(recs[h]))
    ensures forall j :: h < j < |recs| ==> !q.choice(InfoOf(recs[j]))
  {
    hide InfoOf;
    h := |recs| - 1;
    while !q.choice(InfoOf(recs[h]))
      invariant i <= h < |recs| && forall j :: h < j < |recs| ==> !q.choice(InfoOf(recs[j]))
      decreases h
    {
      h := h - 1;
    }
  }

  /** A record is given if it is chosen and no record from it on is overwritten, older than asked
      for or of an order below the one asked for. */
  lemma {:induction false} WantedAreGiven(part: nat, recs: seq<Record>, addr: Addr, room: nat, q: Query,
                                         logBeg: int, i: nat) returns (k: nat)
    requires room <= addr && forall j :: 0 <= j < |recs| ==> WellFormed(recs[j])
    requires i < |recs| && Newest(recs, |recs| - i) <= room && q.choice(InfoOf(recs[i]))
    requires forall j :: i <= j < |recs| ==>
      recs[j].header.time >= logBeg && recs[j].header.time >= q.timeMin && recs[j].header.order >= q.orderMin
    ensures var g := Yield(part, recs, addr, room, BoundedBy(q, logBeg));
      k < |g| && g[k].record == recs[i] && g[k].desc.addr == addr - Newest(recs, |recs| - i)
    decreases |recs|
  {
    hide Find, Newest, Yield, WellFormed, InfoOf;
    var b := BoundedBy(q, logBeg);
    var h := NewestAccepted(recs, i, b);
    NewestInTwo(recs, h, i);
    HitIsNewestAccepted(recs, room, b, h);
    assert Find(recs, room, b) == Hit(h);
    YieldUnfolds(part, recs, addr, room, b);
    if h == i {
      k := 0;
    } else {
      var back := Newest(recs, |recs| - h);
      k := WantedAreGiven(part, recs[..h], addr - back, room - back, q, logBeg, i);
      k := k + 1;
    }
  }
}
