/** rec5_t of src/c7mlog/private.hpp and the record around it: header, log data, thread name,
    source name and the record's size once more, from which a reader steps backwards.  The
    layout is the little-endian one with bit-fields filled from the low end. */
module MlogRecord {
  import opened Bytes
  import opened Numbers
  import opened Powers

  // ---- rows of numbers in fixed widths ----

  datatype Field = Field(value: nat, width: nat)

  function Values(fs: seq<Field>): (r: seq<nat>) {
    seq(|fs|, i requires 0 <= i < |fs| => fs[i].value)
  }

  function Widths(fs: seq<Field>): (r: seq<nat>) {
    seq(|fs|, i requires 0 <= i < |fs| => fs[i].width)
  }

  function Sum(ws: seq<nat>): nat {
    if ws == [] then 0 else ws[0] + Sum(ws[1..])
  }

  /** Fields side by side, their widths in bytes. */
  function Lay(fs: seq<Field>): (r: seq<Byte>) {
    if fs == [] then [] else ToBytes(fs[0].value, fs[0].width) + Lay(fs[1..])
  }

  function Take(ws: seq<nat>, s: seq<Byte>): (r: seq<nat>)
    requires Sum(ws) <= |s|
    ensures |r| == |ws|
  {
    if ws == [] then [] else [FromBytes(s[..ws[0]])] + Take(ws[1..], s[ws[0]..])
  }

  /** Bit-fields in one number, their widths in bits. */
  function Pack(fs: seq<Field>): nat {
    if fs == [] then 0 else fs[0].value + Pow2(fs[0].width) * Pack(fs[1..])
  }

  function Unpack(ws: seq<nat>, n: nat): (r: seq<nat>)
    ensures |r| == |ws|
  {
    if ws == [] then [] else
      [n % Pow2(ws[0])] + Unpack(ws[1..], Quotient(n, Pow2(ws[0])))
  }

  lemma {:induction false} TakeWhatIsLaid(fs: seq<Field>)
    requires forall i :: 0 <= i < |fs| ==> fs[i].value < Pow256(fs[i].width)
    ensures |Lay(fs)| == Sum(Widths(fs))
    ensures Take(Widths(fs), Lay(fs)) == Values(fs)
  {
    if fs != [] {
      TakeWhatIsLaid(fs[1..]);
      BytesRoundTrip(fs[0].value, fs[0].width);
      assert Widths(fs)[1..] == Widths(fs[1..]);
      assert Values(fs) == [fs[0].value] + Values(fs[1..]);
      var w := fs[0].width;
      assert Lay(fs)[..w] == ToBytes(fs[0].value, w);
      assert Lay(fs)[w..] == Lay(fs[1..]);
    }
  }

  lemma {:induction false} UnpackWhatIsPacked(fs: seq<Field>)
    requires forall i :: 0 <= i < |fs| ==> fs[i].value < Pow2(fs[i].width)
    ensures Unpack(Widths(fs), Pack(fs)) == Values(fs)
    ensures Pack(fs) < Pow2(Sum(Widths(fs)))
  {
    if fs != [] {
      UnpackWhatIsPacked(fs[1..]);
      assert Widths(fs)[1..] == Widths(fs[1..]);
      assert Values(fs) == [fs[0].value] + Values(fs[1..]);
      var w, rest := fs[0].width, Pack(fs[1..]);
      DivisionIs(Pack(fs), rest, fs[0].value, Pow2(w));
      Pow2Add(w, Sum(Widths(fs[1..])));
      BelowProduct(fs[0].value, rest, Pow2(w), Pow2(Sum(Widths(fs[1..]))));
    }
  }

  // ---- the header ----

  const HEADER_SIZE := 48              // sizeof(rec5_t)
  const NAME_MAX := 63                 // _TN_MAX and _SN_MAX
  const U32 := 0x1_0000_0000
  const U64 := 0x1_0000_0000_0000_0000

  datatype Header = Header(
    size: nat, order: nat, time: int, minidata: nat,
    level: nat, category: nat, tnSize: nat, snSize: nat, line: nat, control: nat,
    pid: nat, thId: nat, brOrder: nat)
  {
    predicate InRange() {
      && size < U32 && order < U32 && -U64 <= 2 * time < U64 && minidata < U64
      && level < 8 && category < 32 && tnSize < 64 && snSize < 64 && line < 16384 && control < 64
      && pid < U32 && thId < U32 && brOrder < U32
    }
  }

  /** What the writer leaves unset in a header: its reserved bits and its padding. */
  datatype Unset = Unset(bits: nat, padding: nat)
  {
    predicate InRange() { bits < 16777216 && padding < U32 }
  }

  function BitFields(h: Header, u: Unset): seq<Field> {
    [Field(h.level, 3), Field(h.category, 5), Field(h.tnSize, 6), Field(h.snSize, 6),
     Field(h.line, 14), Field(h.control, 6), Field(u.bits, 24)]
  }

  function ByteFields(h: Header, u: Unset): seq<Field>
    requires h.InRange()
  {
    [Field(h.size, 4), Field(h.order, 4), Field(if h.time < 0 then h.time + U64 else h.time, 8),
     Field(h.minidata, 8), Field(Pack(BitFields(h, u)), 8),
     Field(h.pid, 4), Field(h.thId, 4), Field(h.brOrder, 4), Field(u.padding, 4)]
  }

  function HeaderBytes(h: Header, u: Unset): seq<Byte>
    requires h.InRange()
  {
    Lay(ByteFields(h, u))
  }

  function HeaderFrom(s: seq<Byte>): Header
    requires |s| == HEADER_SIZE
  {
    WidthsOfHeader();
    var v := Take([4, 4, 8, 8, 8, 4, 4, 4, 4], s);
    var b := Unpack([3, 5, 6, 6, 14, 6, 24], v[4]);
    Header(v[0], v[1], if 2 * v[2] < U64 then v[2] else v[2] - U64, v[3],
           b[0], b[1], b[2], b[3], b[4], b[5], v[5], v[6], v[7])
  }

  lemma WidthsOfHeader()
    ensures Sum([4, 4, 8, 8, 8, 4, 4, 4, 4]) == HEADER_SIZE
  {
    assert Sum([8, 4, 4, 4, 4]) == 24;
    assert [4, 4, 8, 8, 8, 4, 4, 4, 4][4..] == [8, 4, 4, 4, 4];
  }

  lemma WidthsOfBits()
    ensures Sum([3, 5, 6, 6, 14, 6, 24]) == 64
    ensures Pow2(3) == 8 && Pow2(5) == 32 && Pow2(6) == 64 && Pow2(14) == 16384
    ensures Pow2(24) == 16777216 && Pow2(64) == U64
  {
    assert [3, 5, 6, 6, 14, 6, 24][3..] == [6, 14, 6, 24];
    Pow2Add(6, 8);
    Pow2Add(12, 12);
    Pow2Of63();
  }

  lemma BitsRoundTrip(h: Header, u: Unset)
    requires h.InRange() && u.InRange()
    ensures Pack(BitFields(h, u)) < U64
    ensures Unpack([3, 5, 6, 6, 14, 6, 24], Pack(BitFields(h, u)))
         == [h.level, h.category, h.tnSize, h.snSize, h.line, h.control, u.bits]
  {
    hide Pack, Unpack, Sum, Pow2;
    WidthsOfBits();
    var bits := BitFields(h, u);
    UnpackWhatIsPacked(bits);
    assert Widths(bits) == [3, 5, 6, 6, 14, 6, 24];
  }

  lemma FieldsRoundTrip(h: Header, u: Unset)
    requires h.InRange() && u.InRange()
    ensures |HeaderBytes(h, u)| == HEADER_SIZE
    ensures Take([4, 4, 8, 8, 8, 4, 4, 4, 4], HeaderBytes(h, u)) == Values(ByteFields(h, u))
  {
    hide Lay, Take, Pack, Sum, Pow256, BitFields;
    BitsRoundTrip(h, u);
    WidthsOfHeader();
    Bytes.Widths();
    var fields := ByteFields(h, u);
    assert Widths(fields) == [4, 4, 8, 8, 8, 4, 4, 4, 4];
    TakeWhatIsLaid(fields);
  }

  /** A header is read back as it was written, whatever is in the bits left unset. */
  lemma HeaderRoundTrip(h: Header, u: Unset)
    requires h.InRange() && u.InRange()
    ensures |HeaderBytes(h, u)| == HEADER_SIZE
    ensures HeaderFrom(HeaderBytes(h, u)) == h
  {
    hide Take, Pack, Unpack, Sum, HeaderBytes, BitFields;
    FieldsRoundTrip(h, u);
    BitsRoundTrip(h, u);
  }

  // ---- the header as it lies in the ring ----

  lemma TakeFirst(w: nat, more: seq<nat>, s: seq<Byte>)
    requires Sum([w] + more) <= |s|
    ensures Sum([w] + more) == w + Sum(more)
    ensures Take([w] + more, s) == [FromBytes(s[..w])] + Take(more, s[w..])
  {
    hide FromBytes;
    assert ([w] + more)[1..] == more;
  }

  lemma {:induction false} SumSplits(ws: seq<nat>, more: seq<nat>)
    ensures Sum(ws + more) == Sum(ws) + Sum(more)
  {
    if ws == [] {
      assert ws + more == more;
    } else {
      assert (ws + more)[1..] == ws[1..] + more;
      SumSplits(ws[1..], more);
    }
  }

  /** The number number i of a row begins where the widths in front of it end. */
  lemma {:induction false} TakenAt(ws: seq<nat>, i: nat, s: seq<Byte>)
    requires i < |ws| && Sum(ws) <= |s|
    ensures Sum(ws[..i]) + ws[i] <= |s|
    ensures Take(ws, s)[i] == FromBytes(s[Sum(ws[..i])..Sum(ws[..i]) + ws[i]])
  {
    hide FromBytes, Take, Sum;
    SumsSplitAt(ws, i);
    var w, more := ws[0], ws[1..];
    assert ws == [w] + more;
    TakeFirst(w, more, s);
    if i == 0 {
      assert Sum(ws[..0]) == 0 && s[0..w] == s[..w];
    } else {
      TakenAt(more, i - 1, s[w..]);
      assert ws[..i] == [w] + more[..i - 1];
      SumOfMore(w, more[..i - 1]);
      var at := Sum(more[..i - 1]);
      assert s[w..][at..at + ws[i]] == s[w + at..w + at + ws[i]];
    }
  }

  lemma SumOfMore(w: nat, more: seq<nat>)
    ensures Sum([w] + more) == w + Sum(more)
  {
    assert ([w] + more)[1..] == more;
  }

  lemma SumsSplitAt(ws: seq<nat>, i: nat)
    requires i < |ws|
    ensures Sum(ws[..i]) + ws[i] <= Sum(ws)
    ensures Sum(ws[..0]) == 0
  {
    assert ws == ws[..i] + ws[i..] && ws[i..] == [ws[i]] + ws[i + 1..];
    SumSplits(ws[..i], ws[i..]);
    SumOfMore(ws[i], ws[i + 1..]);
  }

  /** Where each number of rec5_t lies. */
  lemma PlacesOfHeader(i: nat)
    requires i < 9
    ensures Sum([4, 4, 8, 8, 8, 4, 4, 4, 4][..i]) == [0, 4, 8, 16, 24, 32, 36, 40, 44][i]
  {
    hide Sum;
    var ws := [4, 4, 8, 8, 8, 4, 4, 4, 4];
    SumsSplitAt(ws, 0);
    SumStep(ws, 0); SumStep(ws, 1); SumStep(ws, 2); SumStep(ws, 3);
    SumStep(ws, 4); SumStep(ws, 5); SumStep(ws, 6); SumStep(ws, 7);
  }

  lemma SumStep(ws: seq<nat>, i: nat)
    requires i < |ws|
    ensures Sum(ws[..i + 1]) == Sum(ws[..i]) + ws[i]
  {
    assert ws[..i + 1] == ws[..i] + [ws[i]];
    SumSplits(ws[..i], [ws[i]]);
  }

  /** The numbers of a header, in their places of rec5_t. */
  lemma HeaderInPlace(h: Header, u: Unset)
    requires h.InRange() && u.InRange()
    ensures |HeaderBytes(h, u)| == HEADER_SIZE
    ensures var s := HeaderBytes(h, u);
      && FromBytes(s[0..4]) == h.size && FromBytes(s[4..8]) == h.order
      && FromBytes(s[8..16]) == (if h.time < 0 then h.time + U64 else h.time)
      && FromBytes(s[16..24]) == h.minidata
      && FromBytes(s[32..36]) == h.pid && FromBytes(s[36..40]) == h.thId && FromBytes(s[40..44]) == h.brOrder
    ensures var w := FromBytes(HeaderBytes(h, u)[24..32]);
      && w % 8 == h.level && w / 8 % 32 == h.category && w / 0x100 % 64 == h.tnSize && w / 0x4000 % 64 == h.snSize
      && w / 0x10_0000 % 16384 == h.line && w / 0x4_0000_0000 % 64 == h.control
  {
    hide HeaderBytes, BitFields, Take, Sum, FromBytes, Pack;
    FieldsRoundTrip(h, u);
    WidthsOfHeader();
    var ws, v, s := [4, 4, 8, 8, 8, 4, 4, 4, 4], Values(ByteFields(h, u)), HeaderBytes(h, u);
    forall i | 0 <= i < 9 ensures Sum(ws[..i]) + ws[i] <= |s| && v[i] == FromBytes(s[Sum(ws[..i])..Sum(ws[..i]) + ws[i]]) {
      TakenAt(ws, i, s);
    }
    PlacesOfHeader(0); PlacesOfHeader(1); PlacesOfHeader(2); PlacesOfHeader(3); PlacesOfHeader(4);
    PlacesOfHeader(5); PlacesOfHeader(6); PlacesOfHeader(7);
    assert v[0] == h.size && v[1] == h.order && v[2] == (if h.time < 0 then h.time + U64 else h.time);
    assert v[3] == h.minidata && v[5] == h.pid && v[6] == h.thId && v[7] == h.brOrder;
    assert v[4] == Pack(BitFields(h, u));
    BitsInPlace(h, u);
  }

  lemma PackFirst(value: nat, width: nat, more: seq<Field>)
    requires value < Pow2(width)
    ensures Pack([Field(value, width)] + more) == value + Pow2(width) * Pack(more)
    ensures Pack([Field(value, width)] + more) % Pow2(width) == value
    ensures Pack([Field(value, width)] + more) / Pow2(width) == Pack(more)
  {
    var f := [Field(value, width)] + more;
    assert f[1..] == more;
    DivisionIs(Pack(f), Pack(more), value, Pow2(width));
  }

  lemma BitsInPlace(h: Header, u: Unset)
    requires h.InRange()
    ensures var w := Pack(BitFields(h, u));
      && w % 8 == h.level && w / 8 % 32 == h.category && w / 0x100 % 64 == h.tnSize && w / 0x4000 % 64 == h.snSize
      && w / 0x10_0000 % 16384 == h.line && w / 0x4_0000_0000 % 64 == h.control
  {
    hide Pack, Pow2;
    var f := BitFields(h, u);
    BitsTakenApart(h, u);
    var w := Pack(f);
    TakenOffTwice(w, 8, 32);
    TakenOffTwice(w, 0x100, 64);
    TakenOffTwice(w, 0x4000, 64);
    TakenOffTwice(w, 0x10_0000, 16384);
  }

  lemma BitsTakenApart(h: Header, u: Unset)
    requires h.InRange()
    ensures var f := BitFields(h, u);
      && Pack(f) % 8 == h.level && Pack(f) / 8 == Pack(f[1..])
      && Pack(f[1..]) % 32 == h.category && Pack(f[1..]) / 32 == Pack(f[2..])
      && Pack(f[2..]) % 64 == h.tnSize && Pack(f[2..]) / 64 == Pack(f[3..])
      && Pack(f[3..]) % 64 == h.snSize && Pack(f[3..]) / 64 == Pack(f[4..])
      && Pack(f[4..]) % 16384 == h.line && Pack(f[4..]) / 16384 == Pack(f[5..])
      && Pack(f[5..]) % 64 == h.control
  {
    hide Pack, Pow2;
    WidthsOfBits();
    var f := BitFields(h, u);
    assert f == [f[0]] + f[1..] && f[1..] == [f[1]] + f[2..] && f[2..] == [f[2]] + f[3..];
    assert f[3..] == [f[3]] + f[4..] && f[4..] == [f[4]] + f[5..] && f[5..] == [f[5]] + f[6..];
    PackFirst(h.level, 3, f[1..]);
    PackFirst(h.category, 5, f[2..]);
    PackFirst(h.tnSize, 6, f[3..]);
    PackFirst(h.snSize, 6, f[4..]);
    PackFirst(h.line, 14, f[5..]);
    PackFirst(h.control, 6, f[6..]);
  }

  lemma TakenOffTwice(w: nat, m: nat, n: nat)
    requires m > 0 && n > 0
    ensures m * n > 0 && w / m / n == w / (m * n)
  {
    var q := w / m;
    assert w == m * q + w % m && q == n * (q / n) + q % n;
    assert m * q == m * n * (q / n) + m * (q % n);
    BelowProduct(w % m, q % n, m, n);
    assert m * n > 0 by { Multiples(m, n); }
    DivisionIs(w, q / n, m * (q % n) + w % m, m * n);
  }

  // ---- the whole record ----

  datatype Record = Record(header: Header, unset: Unset, data: seq<Byte>, tn: seq<Byte>, sn: seq<Byte>)

  function NameBytes(name: seq<Byte>): (r: seq<Byte>)
    ensures |r| == NameSize(|name|)
  {
    if name == [] then [] else name + [0]
  }

  function NameSize(n: nat): nat {
    if n == 0 then 0 else n + 1
  }

  function SizeOf(data: nat, tn: nat, sn: nat): nat {
    HEADER_SIZE + data + NameSize(tn) + NameSize(sn) + 4
  }

  ghost predicate WellFormed(r: Record) {
    && r.header.InRange() && r.unset.InRange()
    && r.header.tnSize == |r.tn| && r.header.snSize == |r.sn|
    && r.header.size == SizeOf(|r.data|, |r.tn|, |r.sn|)
    && r.header.brOrder == U32 - 1 - r.header.order
  }

  function Body(r: Record): seq<Byte> {
    r.data + NameBytes(r.tn) + NameBytes(r.sn) + ToBytes(r.header.size, 4)
  }

  function RecordBytes(r: Record): seq<Byte>
    requires r.header.InRange()
  {
    HeaderBytes(r.header, r.unset) + Body(r)
  }

  lemma RecordLength(r: Record)
    requires WellFormed(r)
    ensures |HeaderBytes(r.header, r.unset)| == HEADER_SIZE
    ensures |RecordBytes(r)| == r.header.size
  {
    HeaderRoundTrip(r.header, r.unset);
  }

  /** From the end of a record its size is read, and at its start its header. */
  lemma RecordEnds(r: Record)
    requires WellFormed(r)
    ensures |RecordBytes(r)| == r.header.size >= HEADER_SIZE + 4
    ensures FromBytes(RecordBytes(r)[r.header.size - 4..]) == r.header.size
    ensures HeaderFrom(RecordBytes(r)[..HEADER_SIZE]) == r.header
    ensures RecordBytes(r)[HEADER_SIZE..] == Body(r)
  {
    hide Lay, Take, Pack, Unpack, Sum, HeaderFrom, HeaderBytes, ToBytes, FromBytes;
    RecordLength(r);
    HeaderRoundTrip(r.header, r.unset);
    Bytes.Widths();
    BytesRoundTrip(r.header.size, 4);
    var n, tail := r.header.size, ToBytes(r.header.size, 4);
    assert RecordBytes(r)[..HEADER_SIZE] == HeaderBytes(r.header, r.unset);
    assert RecordBytes(r)[n - 4..] == tail;
  }

  /** Behind the header lie the log data, then the thread name and the source name, each with a
      zero behind it unless it is empty, and at the end the record's own size. */
  lemma RecordInPlace(r: Record)
    requires WellFormed(r)
    ensures var s, d := RecordBytes(r), 48 + |r.data|;
      var n := if r.tn == [] then d else d + |r.tn| + 1;
      var e := if r.sn == [] then n else n + |r.sn| + 1;
      && |s| == e + 4 && FromBytes(s[e..]) == |s|
      && s[48..d] == r.data
      && (r.tn != [] ==> s[d..d + |r.tn|] == r.tn && s[d + |r.tn|] == 0)
      && (r.sn != [] ==> s[n..n + |r.sn|] == r.sn && s[n + |r.sn|] == 0)
  {
    hide HeaderBytes, HeaderFrom, FromBytes, ToBytes, NameBytes, RecordBytes, Body;
    RecordEnds(r);
    RecordInPieces(r);
    PiecesInPlace(RecordBytes(r), HeaderBytes(r.header, r.unset), r.data, r.tn, r.sn, ToBytes(r.header.size, 4));
  }

  lemma PiecesInPlace(s: seq<Byte>, h: seq<Byte>, data: seq<Byte>, tn: seq<Byte>, sn: seq<Byte>, l: seq<Byte>)
    requires s == h + data + NameBytes(tn) + NameBytes(sn) + l && |h| == 48 && |l| == 4
    ensures var d := 48 + |data|;
      var n := if tn == [] then d else d + |tn| + 1;
      var e := if sn == [] then n else n + |sn| + 1;
      && |s| == e + 4
      && (tn != [] ==> s[d..d + |tn|] == tn && s[d + |tn|] == 0)
      && (sn != [] ==> s[n..n + |sn|] == sn && s[n + |sn|] == 0)
  {
    hide NameBytes;
    var t, m := NameBytes(tn), NameBytes(sn);
    LengthOfName(tn);
    LengthOfName(sn);
    assert s == h + data + t + (m + l);
    NameInPlace(h + data, tn, m + l);
    NameInPlace(h + data + t, sn, l);
  }

  lemma RecordInPieces(r: Record)
    requires WellFormed(r)
    ensures |HeaderBytes(r.header, r.unset)| == 48
    ensures RecordBytes(r)
         == HeaderBytes(r.header, r.unset) + r.data + NameBytes(r.tn) + NameBytes(r.sn) + ToBytes(r.header.size, 4)
    ensures RecordBytes(r)[48..48 + |r.data|] == r.data
  {
    hide HeaderBytes, ToBytes, NameBytes;
    RecordLength(r);
  }

  lemma LengthOfName(name: seq<Byte>)
    ensures |NameBytes(name)| == if name == [] then 0 else |name| + 1
  {
  }

  lemma NameInPlace(front: seq<Byte>, name: seq<Byte>, back: seq<Byte>)
    ensures var s, at := front + NameBytes(name) + back, |front|;
      name != [] ==> s[at..at + |name|] == name && s[at + |name|] == 0
  {
  }

  // ---- what a reader is told ----

  datatype Info = Info(
    threadId: nat, threadName: seq<Byte>, sourceName: seq<Byte>, sourceLine: nat, weakOrder: nat,
    size: nat, time: int, level: nat, category: nat, minidata: nat, pid: nat)

  /** The names lie behind the log data, the source name last, so sizes are taken off the end. */
  function MakeInfo(h: Header, data: seq<Byte>): Info
    requires h.size == HEADER_SIZE + |data| && |data| >= 4 + NameSize(h.tnSize) + NameSize(h.snSize)
  {
    var size := h.size - HEADER_SIZE - 4;
    var snAt := if h.snSize > 0 then size - (h.snSize + 1) else size;
    var sourceName := if h.snSize > 0 then data[snAt..snAt + h.snSize] else [];
    var tnAt := if h.tnSize > 0 then snAt - (h.tnSize + 1) else snAt;
    var threadName := if h.tnSize > 0 then data[tnAt..tnAt + h.tnSize] else [];
    Info(h.thId, threadName, sourceName, h.line, h.order, tnAt, h.time, h.level, h.category,
         h.minidata, h.pid)
  }

  function InfoOf(r: Record): Info {
    Info(r.header.thId, r.tn, r.sn, r.header.line, r.header.order, |r.data|, r.header.time,
         r.header.level, r.header.category, r.header.minidata, r.header.pid)
  }

  /** Names, log data and fields are all found again in a record's bytes. */
  lemma InfoRoundTrip(r: Record)
    requires WellFormed(r)
    ensures r.header.size == HEADER_SIZE + |Body(r)|
    ensures |Body(r)| >= 4 + NameSize(r.header.tnSize) + NameSize(r.header.snSize)
    ensures MakeInfo(r.header, Body(r)) == InfoOf(r)
    ensures Body(r)[..InfoOf(r).size] == r.data
  {
    hide ToBytes;
    var d, t, s := r.data, NameBytes(r.tn), NameBytes(r.sn);
    var body := Body(r);
    assert body[..|d|] == d;
    assert body[|d|..|d| + |t|] == t;
    assert body[|d| + |t|..|d| + |t| + |s|] == s;
    if r.sn != [] { NameFound(body, |d| + |t|, r.sn); }
    if r.tn != [] { NameFound(body, |d|, r.tn); }
  }

  lemma NameFound(body: seq<Byte>, at: nat, name: seq<Byte>)
    requires at + |name| + 1 <= |body| && body[at..at + |name| + 1] == name + [0]
    ensures body[at..at + |name|] == name
  {
    forall i | 0 <= i < |name| ensures body[at + i] == name[i] {
      assert body[at..at + |name| + 1][i] == name[i];
    }
  }
}
