/** multipart_msgbuf of src/c7event/msgbuf_impl.hpp: a header, the sizes of N parts and the
    parts, sent as one vector and received into one aligned storage. */
module Msgbuf {
  import opened Bytes
  import opened Numbers
  import opened Transfer

  const PART_ALIGN := 8
  const WHOLE_ALIGN := 8192
  const PART_MAX := 0x8000_0000      // sizes travel as int32_t
  const U32 := 0x1_0000_0000

  // ---- the bytes of a message ----

  function Swapped(s: seq<Byte>): (r: seq<Byte>)
    ensures |r| == |s|
  {
    seq(|s|, i requires 0 <= i < |s| => s[|s| - 1 - i])
  }

  /** A size as it travels, its bytes reversed for a peer of the other endianness. */
  function SizeBytes(n: nat, flip: bool): (r: seq<Byte>)
    ensures |r| == 4
  {
    var b := ToBytes(n % U32, 4);
    if flip then Swapped(b) else b
  }

  function SizeFrom(s: seq<Byte>, flip: bool): nat {
    FromBytes(if flip then Swapped(s) else s)
  }

  function SizesBytes(parts: seq<seq<Byte>>, flip: bool): (r: seq<Byte>)
    ensures |r| == 4 * |parts|
  {
    if parts == [] then [] else SizeBytes(|parts[0]|, flip) + SizesBytes(parts[1..], flip)
  }

  function MessageBytes(header: seq<Byte>, parts: seq<seq<Byte>>, flip: bool): seq<Byte> {
    header + SizesBytes(parts, flip) + Flat(parts)
  }

  lemma SizeRoundTrip(n: nat, flip: bool)
    requires n < U32
    ensures SizeFrom(SizeBytes(n, flip), flip) == n
  {
    hide ToBytes, FromBytes, Pow256, Swapped;
    Widths();
    BytesRoundTrip(n, 4);
    SwappedTwice(ToBytes(n, 4));
  }

  lemma SwappedTwice(s: seq<Byte>)
    ensures Swapped(Swapped(s)) == s
  {
  }

  lemma SizeBack(s: seq<Byte>, flip: bool)
    requires |s| == 4
    ensures SizeFrom(s, flip) < U32 && SizeBytes(SizeFrom(s, flip), flip) == s
  {
    hide ToBytes, FromBytes, Pow256, Swapped;
    var t := if flip then Swapped(s) else s;
    Widths();
    FromBytesBound(t);
    NumberRoundTrip(t);
    SwappedTwice(s);
  }

  lemma {:induction false} SizesAgree(a: seq<seq<Byte>>, b: seq<seq<Byte>>, flip: bool)
    requires |a| == |b| && SizesBytes(a, flip) == SizesBytes(b, flip)
    requires forall i :: 0 <= i < |a| ==> |a[i]| < U32 && |b[i]| < U32
    ensures forall i :: 0 <= i < |a| ==> |a[i]| == |b[i]|
  {
    if a != [] {
      var sa, sb := SizesBytes(a, flip), SizesBytes(b, flip);
      assert sa[..4] == SizeBytes(|a[0]|, flip) && sb[..4] == SizeBytes(|b[0]|, flip);
      assert sa[4..] == SizesBytes(a[1..], flip) && sb[4..] == SizesBytes(b[1..], flip);
      SizeRoundTrip(|a[0]|, flip);
      SizeRoundTrip(|b[0]|, flip);
      SizesAgree(a[1..], b[1..], flip);
      assert forall i :: 1 <= i < |a| ==> a[i] == a[1..][i - 1] && b[i] == b[1..][i - 1];
    }
  }

  lemma {:induction false} PartsAgree(a: seq<seq<Byte>>, b: seq<seq<Byte>>, r: seq<Byte>, t: seq<Byte>)
    requires |a| == |b| && forall i :: 0 <= i < |a| ==> |a[i]| == |b[i]|
    requires Flat(a) + r == Flat(b) + t
    ensures a == b && r == t
  {
    if a == [] {
      assert Flat(a) + r == r && Flat(b) + t == t;
    } else {
      var s := Flat(a) + r;
      assert s == a[0] + (Flat(a[1..]) + r) && s == b[0] + (Flat(b[1..]) + t);
      assert s[..|a[0]|] == a[0] && s[..|b[0]|] == b[0];
      assert s[|a[0]|..] == Flat(a[1..]) + r && s[|b[0]|..] == Flat(b[1..]) + t;
      PartsAgree(a[1..], b[1..], r, t);
      assert a == [a[0]] + a[1..] && b == [b[0]] + b[1..];
    }
  }

  /** A message tells where it ends: what is received is what was sent, and no more is read. */
  lemma MessagesDelimitThemselves(h: seq<Byte>, a: seq<seq<Byte>>, r: seq<Byte>,
                                  g: seq<Byte>, b: seq<seq<Byte>>, t: seq<Byte>, flip: bool)
    requires |h| == |g| && |a| == |b|
    requires forall i :: 0 <= i < |a| ==> |a[i]| < PART_MAX && |b[i]| < PART_MAX
    requires MessageBytes(h, a, flip) + r == MessageBytes(g, b, flip) + t
    ensures h == g && a == b && r == t
  {
    hide Flat, SizesBytes;
    var s, n := MessageBytes(h, a, flip) + r, |h| + 4 * |a|;
    assert s == h + SizesBytes(a, flip) + (Flat(a) + r) && s == g + SizesBytes(b, flip) + (Flat(b) + t);
    assert s[..|h|] == h && s[..|h|] == g;
    assert s[|h|..n] == SizesBytes(a, flip) && s[|h|..n] == SizesBytes(b, flip);
    assert s[n..] == Flat(a) + r && s[n..] == Flat(b) + t;
    SizesAgree(a, b, flip);
    PartsAgree(a, b, r, t);
  }

  /** A size travels as four bytes, the lowest first, or last for a peer of the other endianness. */
  lemma SizeOnTheWire(n: nat, flip: bool)
    requires n < U32
    ensures var b0, b1, b2, b3 := n % 256, n / 256 % 256, n / 0x1_0000 % 256, n / 0x100_0000;
      SizeBytes(n, flip) == if flip then [b3, b2, b1, b0] else [b0, b1, b2, b3]
  {
    assert n / 256 / 256 == n / 0x1_0000 && n / 0x1_0000 / 256 == n / 0x100_0000;
    FourBytes(n);
  }

  lemma FourBytes(n: nat)
    ensures ToBytes(n, 4) == [n % 256, n / 256 % 256, n / 256 / 256 % 256, n / 256 / 256 / 256 % 256]
  {
    var m := n / 256;
    assert ToBytes(m / 256, 2) == [m / 256 % 256, m / 256 / 256 % 256];
  }

  /** Where the size and the bytes of a part lie in a message. */
  lemma {:induction false} PartOnTheWire(parts: seq<seq<Byte>>, flip: bool, i: nat)
    requires i < |parts|
    ensures SizesBytes(parts, flip)[4 * i..4 * i + 4] == SizeBytes(|parts[i]|, flip)
    ensures var at := |Flat(parts[..i])|;
      at + |parts[i]| <= |Flat(parts)| && Flat(parts)[at..at + |parts[i]|] == parts[i]
  {
    hide SizeBytes;
    if i > 0 {
      PartOnTheWire(parts[1..], flip, i - 1);
      assert parts[..i][1..] == parts[1..][..i - 1];
      var at := |Flat(parts[1..][..i - 1])|;
      assert Flat(parts)[|parts[0]| + at..|parts[0]| + at + |parts[i]|] == Flat(parts[1..])[at..at + |parts[i]|];
      assert SizesBytes(parts, flip)[4 * i..4 * i + 4] == SizesBytes(parts[1..], flip)[4 * (i - 1)..4 * (i - 1) + 4];
    }
  }

  /** The header comes first, then all sizes, then all parts. */
  lemma MessageOnTheWire(header: seq<Byte>, parts: seq<seq<Byte>>, flip: bool, i: nat)
    requires i < |parts|
    ensures var s := MessageBytes(header, parts, flip);
      && |s| == |header| + 4 * |parts| + |Flat(parts)| && s[..|header|] == header
      && s[|header| + 4 * i..|header| + 4 * i + 4] == SizeBytes(|parts[i]|, flip)
      && var at := |header| + 4 * |parts| + |Flat(parts[..i])|;
         at + |parts[i]| <= |s| && s[at..at + |parts[i]|] == parts[i]
  {
    hide SizeBytes, SizesBytes, Flat;
    PartOnTheWire(parts, flip, i);
    Pieces(header, SizesBytes(parts, flip), Flat(parts), 4 * i, |Flat(parts[..i])|, |parts[i]|);
  }

  lemma Pieces(h: seq<Byte>, sizes: seq<Byte>, all: seq<Byte>, i: nat, at: nat, n: nat)
    requires i + 4 <= |sizes| && at + n <= |all|
    ensures var s := h + sizes + all;
      && s[..|h|] == h && s[|h| + i..|h| + i + 4] == sizes[i..i + 4]
      && s[|h| + |sizes| + at..|h| + |sizes| + at + n] == all[at..at + n]
  {
  }

  // ---- the layout of the storage ----

  /** c7_align for a power of two: (n - 1) with the low bits set, plus one; zero wraps to zero. */
  function Align(n: nat, unit: nat): (r: nat)
    requires unit > 0
    ensures r >= n
  {
    if n == 0 then 0 else
      assert n - 1 == unit * ((n - 1) / unit) + (n - 1) % unit;
      unit * ((n - 1) / unit) + unit
  }

  lemma AlignIsLeast(n: nat, unit: nat, m: nat)
    requires unit > 0
    ensures Align(n, unit) % unit == 0
    ensures m % unit == 0 && m >= n ==> m >= Align(n, unit)
  {
    if n > 0 {
      var q, k := (n - 1) / unit, m / unit;
      assert unit * (q + 1) == unit * q + unit;
      DivisionIs(unit * (q + 1), q + 1, 0, unit);
      assert m == unit * k + m % unit;
      assert unit * (k - (q + 1)) == unit * k - unit * (q + 1);
      Multiples(unit, k - (q + 1));
    }
  }

  /** Where part i starts if it is not empty. */
  function Offset(lens: seq<nat>, i: nat): nat
    requires i <= |lens|
  {
    if i == 0 then 0 else Offset(lens, i - 1) + Align(lens[i - 1], PART_ALIGN)
  }

  lemma NoOffset(lens: seq<nat>)
    ensures Offset(lens, 0) == 0
  {
  }

  lemma NextOffset(lens: seq<nat>, i: nat)
    requires i < |lens|
    ensures Offset(lens, i + 1) == Offset(lens, i) + Align(lens[i], PART_ALIGN)
    ensures lens[i] == 0 ==> Align(lens[i], PART_ALIGN) == 0
  {
  }

  lemma {:induction false} OffsetsGrow(lens: seq<nat>, i: nat, j: nat)
    requires i < j <= |lens|
    ensures Offset(lens, i) + lens[i] <= Offset(lens, i) + Align(lens[i], PART_ALIGN) <= Offset(lens, j)
    decreases j
  {
    if i < j - 1 { OffsetsGrow(lens, i, j - 1); }
  }

  lemma {:induction false} OffsetsAligned(lens: seq<nat>, i: nat)
    requires i <= |lens|
    ensures Offset(lens, i) % PART_ALIGN == 0
  {
    if i > 0 {
      OffsetsAligned(lens, i - 1);
      AlignIsLeast(lens[i - 1], PART_ALIGN, 0);
    }
  }

  // ---- parts in the storage ----

  /** Each part that is not empty has a place of its own, aligned and inside the storage. */
  predicate LaidOut(size: nat, base: seq<int>, len: seq<nat>) {
    && |base| == |len|
    && (forall i :: 0 <= i < |len| && len[i] == 0 ==> base[i] == -1)
    && (forall i :: 0 <= i < |len| && len[i] > 0 ==>
         base[i] >= 0 && base[i] % PART_ALIGN == 0 && base[i] + len[i] <= size)
    && forall i, j :: 0 <= i < j < |len| && len[i] > 0 && len[j] > 0 ==> base[i] + len[i] <= base[j]
  }

  function PartAt(mem: seq<Byte>, base: seq<int>, len: seq<nat>, i: nat): (r: seq<Byte>)
    requires LaidOut(|mem|, base, len) && i < |len|
    ensures |r| == len[i]
  {
    if len[i] == 0 then [] else mem[base[i]..base[i] + len[i]]
  }

  /** The first k parts. */
  function PartsIn(mem: seq<Byte>, base: seq<int>, len: seq<nat>, k: nat): (r: seq<seq<Byte>>)
    requires LaidOut(|mem|, base, len) && k <= |len|
    ensures |r| == k && forall i :: 0 <= i < k ==> r[i] == PartAt(mem, base, len, i)
  {
    if k == 0 then [] else PartsIn(mem, base, len, k - 1) + [PartAt(mem, base, len, k - 1)]
  }

  lemma OffsetsLaid(size: nat, base: seq<int>, len: seq<nat>)
    requires |len| == |base| && size >= Offset(len, |len|)
    requires forall i :: 0 <= i < |len| ==> base[i] == if len[i] > 0 then Offset(len, i) else -1
    ensures LaidOut(size, base, len)
  {
    hide Align, Offset;
    forall i | 0 <= i < |len| && len[i] > 0
      ensures base[i] >= 0 && base[i] % PART_ALIGN == 0 && base[i] + len[i] <= size
    {
      OffsetsAligned(len, i);
      OffsetsGrow(len, i, |len|);
    }
    forall i, j | 0 <= i < j < |len| && len[i] > 0 && len[j] > 0 ensures base[i] + len[i] <= base[j] {
      OffsetsGrow(len, i, j);
    }
  }

  lemma {:induction false} FlatOneMore(parts: seq<seq<Byte>>, p: seq<Byte>)
    ensures Flat(parts + [p]) == Flat(parts) + p
  {
    if parts == [] {
      assert (parts + [p])[1..] == [];
    } else {
      FlatOneMore(parts[1..], p);
      assert (parts + [p])[1..] == parts[1..] + [p];
    }
  }

  /** Reading part i leaves the parts before it as they are. */
  lemma PartRead(mem: seq<Byte>, now: seq<Byte>, base: seq<int>, len: seq<nat>, i: nat)
    requires |mem| == |now| && LaidOut(|mem|, base, len) && i < |len|
    requires len[i] == 0 ==> now == mem
    requires len[i] > 0 ==> forall k :: 0 <= k < base[i] || base[i] + len[i] <= k < |mem| ==> now[k] == mem[k]
    ensures PartsIn(now, base, len, i + 1) == PartsIn(mem, base, len, i) + [PartAt(now, base, len, i)]
  {
    forall j | 0 <= j < i ensures PartAt(now, base, len, j) == PartAt(mem, base, len, j) {
      if len[j] > 0 && len[i] > 0 { assert base[j] + len[j] <= base[i]; }
    }
    assert PartsIn(now, base, len, i) == PartsIn(mem, base, len, i);
  }

  // ---- messages in memory ----

  class Message {
    const n: nat
    var header: seq<Byte>
    var storage: array<Byte>
    var len: seq<nat>       // iov_len of parts 1 to n
    var base: seq<int>      // iov_base as an offset into the storage, -1 for null

    ghost predicate Laid()
      reads this
    {
      |len| == n && LaidOut(storage.Length, base, len)
    }

    ghost function Parts(): seq<seq<Byte>>
      requires Laid()
      reads this, storage
    {
      PartsIn(storage[..], base, len, n)
    }

    constructor (n: nat)
      ensures this.n == n && storage.Length == 0 && fresh(storage)
    {
      this.n := n;
      header, storage, len, base := [], new Byte[0], [], [];
    }

    /** Whole blocks of WHOLE_ALIGN bytes are reserved; the storage never shrinks. */
    method Reserve(size: nat) returns (ok: bool)
      modifies `storage
      ensures ok ==> storage.Length >= size
      ensures old(storage.Length) >= Align(size, WHOLE_ALIGN) ==> ok && storage == old(storage)
      ensures storage == old(storage) || fresh(storage)
    {
      var newSize := Align(size, WHOLE_ALIGN);
      ok := true;
      if storage.Length < newSize {
        ok := *;
        if ok { storage := new Byte[newSize]; }
      }
    }

    method SetupIovBase() returns (ok: bool)
      requires |len| == n
      modifies `storage, `base
      ensures ok ==> Laid()
      ensures old(storage.Length) >= Align(Offset(len, n), WHOLE_ALIGN) ==> ok
      ensures storage == old(storage) || fresh(storage)
    {
      hide Align, Offset, LaidOut;
      var newSize := 0;
      NoOffset(len);
      for i := 0 to n
        invariant newSize == Offset(len, i) && storage == old(storage)
      {
        NextOffset(len, i);
        newSize := newSize + Align(len[i], PART_ALIGN);
      }
      ok := Reserve(newSize);
      if ok { PlaceParts(); }
    }

    method PlaceParts()
      requires |len| == n && storage.Length >= Offset(len, n)
      modifies `base
      ensures Laid()
    {
      hide Align, Offset, LaidOut;
      var sp := 0;
      NoOffset(len);
      base := [];
      for i := 0 to n
        invariant sp == Offset(len, i) && |base| == i
        invariant forall j :: 0 <= j < i ==> base[j] == if len[j] > 0 then Offset(len, j) else -1
      {
        NextOffset(len, i);
        if len[i] > 0 {
          base := base + [sp];
          sp := sp + Align(len[i], PART_ALIGN);
        } else {
          base := base + [-1];
        }
      }
      OffsetsLaid(storage.Length, base, len);
    }

    // ---- receiving ----

    /** Reads part after part into its place. */
    method ReadParts(port: Incoming) returns (r: IoResult)
      requires Laid()
      modifies port, storage
      ensures r.status == OK ==> old(port.rest) == Flat(Parts()) + port.rest
      ensures port.failures == old(port.failures) + Reports(r.status)
      ensures r.status == OK <==> port.failures == old(port.failures) && Total(len) <= |old(port.rest)|
    {
      hide Flat, LaidOut;
      r := IoResult(OK, 0);
      Nothing(port.rest);
      NoTotal(len);
      for i := 0 to n
        invariant old(port.rest) == Flat(PartsIn(storage[..], base, len, i)) + port.rest
        invariant port.failures == old(port.failures) && r == IoResult(OK, 0)
        invariant |old(port.rest)| == Total(len[..i]) + |port.rest|
      {
        TotalGrows(len, i);
        r := ReadPart(i, port);
        if r.status != OK { return; }
        r := IoResult(OK, 0);
      }
      assert len[..n] == len;
    }

    static lemma Nothing(rest: seq<Byte>)
      ensures Flat([]) + rest == rest
    {
    }

    method ReadPart(i: nat, port: Incoming) returns (r: IoResult)
      requires Laid() && i < n
      modifies port, storage
      ensures r.status == OK ==>
        && Flat(PartsIn(storage[..], base, len, i + 1)) + port.rest == old(Flat(PartsIn(storage[..], base, len, i)) + port.rest)
        && |old(port.rest)| == len[i] + |port.rest|
      ensures port.failures == old(port.failures) + Reports(r.status)
      ensures r.status == OK <==> port.failures == old(port.failures) && len[i] <= |old(port.rest)|
    {
      hide Flat;
      ghost var mem, before, rest := storage[..], PartsIn(storage[..], base, len, i), port.rest;
      r := IoResult(OK, 0);
      if len[i] > 0 {
        r := ReadN(port, storage, base[i], len[i]);
        if r.status != OK { return; }
      }
      ghost var p := PartAt(storage[..], base, len, i);
      assert rest == p + port.rest;
      PartRead(mem, storage[..], base, len, i);
      FlatOneMore(before, p);
      Joined(Flat(before), p, port.rest);
    }

    method RecvHeader(port: Incoming, headerSize: nat, flip: bool) returns (r: IoResult, ghost sizes: seq<Byte>)
      modifies `header, `len, port
      ensures r.status == OK ==>
        && |header| == headerSize && |sizes| == 4 * n && len == SizesFrom(sizes, n, flip)
        && old(port.rest) == header + sizes + port.rest
      ensures port.failures == old(port.failures) + Reports(r.status)
      ensures r.status == OK <==> port.failures == old(port.failures) && headerSize + 4 * n <= |old(port.rest)|
    {
      hide SizesFrom;
      var block := new Byte[headerSize + 4 * n];
      ghost var all := port.rest;
      sizes := [];
      r := ReadN(port, block, 0, block.Length);
      if r.status != OK { return; }
      sizes := block[headerSize..];
      header := block[..headerSize];
      len := SizesFrom(block[headerSize..], n, flip);
      assert header + sizes == block[..];
      assert block[..] == block[0..block.Length];
      assert all == all[..block.Length] + all[block.Length..];
    }

    /** One message, whole and no more, or a status other than OK: without a failed call, and with
        the storage reserved, only if the stream ends before the message does. */
    method Recv(port: Incoming, headerSize: nat, flip: bool) returns (r: IoResult, ghost reserved: bool)
      requires SaneSizes(port.rest, headerSize, n, flip)
      modifies this, storage, port
      ensures r.status == OK ==>
        && Laid() && |header| == headerSize
        && (forall i :: 0 <= i < n ==> |Parts()[i]| < PART_MAX)
        && old(port.rest) == MessageBytes(header, Parts(), flip) + port.rest
      ensures reserved ==> port.failures == old(port.failures) + Reports(r.status)
      ensures !reserved ==> r.status == ERR && port.failures == old(port.failures)
      ensures !reserved ==> |len| == n && old(storage.Length) < Align(Offset(len, n), WHOLE_ALIGN)
      ensures reserved ==>
        (r.status == OK <==> port.failures == old(port.failures) && WholeMessage(old(port.rest), headerSize, n, flip))
    {
      hide Flat, LaidOut, SizesFrom;
      ghost var sizes, all := [], port.rest;
      reserved := true;
      r, sizes := RecvHeader(port, headerSize, flip);
      if r.status != OK { return; }
      SizesInFront(header, sizes, port.rest, all);
      var ok := SetupIovBase();
      if !ok { return IoResult(ERR, 0), false; }
      r := ReadParts(port);
      if r.status == OK {
        SizesRead(sizes, Parts(), n, flip);
        Assembled(header, sizes, Flat(Parts()), port.rest);
      }
    }
  }

  lemma Joined(a: seq<Byte>, b: seq<Byte>, c: seq<Byte>)
    ensures a + b + c == a + (b + c)
  {
  }

  function Total(lens: seq<nat>): nat {
    if lens == [] then 0 else Total(lens[..|lens| - 1]) + lens[|lens| - 1]
  }

  lemma NoTotal(lens: seq<nat>)
    ensures Total(lens[..0]) == 0
  {
  }

  lemma {:induction false} TotalGrows(lens: seq<nat>, i: nat)
    requires i < |lens|
    ensures Total(lens[..i + 1]) == Total(lens[..i]) + lens[i]
    ensures Total(lens[..i + 1]) <= Total(lens)
    decreases |lens| - i
  {
    assert lens[..i + 1][..i] == lens[..i];
    if i + 1 < |lens| {
      TotalGrows(lens, i + 1);
    } else {
      assert lens[..i + 1] == lens;
    }
  }

  /** The stream has the header, the sizes and as many bytes as these add up to. */
  predicate WholeMessage(rest: seq<Byte>, headerSize: nat, n: nat, flip: bool) {
    && |rest| >= headerSize + 4 * n
    && |rest| >= headerSize + 4 * n + Total(SizesFrom(rest[headerSize..headerSize + 4 * n], n, flip))
  }

  lemma SizesInFront(h: seq<Byte>, sizes: seq<Byte>, rest: seq<Byte>, all: seq<Byte>)
    requires all == h + sizes + rest
    ensures |all| >= |h| + |sizes| && all[|h|..|h| + |sizes|] == sizes
  {
  }

  lemma Assembled(h: seq<Byte>, s: seq<Byte>, f: seq<Byte>, r: seq<Byte>)
    ensures h + s + (f + r) == h + s + f + r
  {
  }

  /** The sizes behind a header. */
  function SizesFrom(s: seq<Byte>, n: nat, flip: bool): (r: seq<nat>)
    requires |s| == 4 * n
    ensures |r| == n
  {
    if n == 0 then [] else [SizeFrom(s[..4], flip)] + SizesFrom(s[4..], n - 1, flip)
  }

  /** The sizes that are going to be read are not negative as int32_t. */
  predicate SaneSizes(rest: seq<Byte>, headerSize: nat, n: nat, flip: bool) {
    |rest| >= headerSize + 4 * n ==>
      var sizes := SizesFrom(rest[headerSize..headerSize + 4 * n], n, flip);
      forall i :: 0 <= i < n ==> sizes[i] < PART_MAX
  }

  lemma {:induction false} SizesRead(s: seq<Byte>, parts: seq<seq<Byte>>, n: nat, flip: bool)
    requires |s| == 4 * n && |parts| == n
    requires forall i :: 0 <= i < n ==> |parts[i]| == SizesFrom(s, n, flip)[i]
    ensures SizesBytes(parts, flip) == s
  {
    if n > 0 {
      SizeBack(s[..4], flip);
      assert forall i :: 0 <= i < n - 1 ==> |parts[1..][i]| == SizesFrom(s, n, flip)[i + 1];
      SizesRead(s[4..], parts[1..], n - 1, flip);
      assert s == s[..4] + s[4..];
    }
  }

  lemma {:induction false} SizesComeBack(parts: seq<seq<Byte>>, flip: bool)
    requires forall i :: 0 <= i < |parts| ==> |parts[i]| < U32
    ensures forall i :: 0 <= i < |parts| ==> SizesFrom(SizesBytes(parts, flip), |parts|, flip)[i] == |parts[i]|
  {
    if parts != [] {
      var s := SizesBytes(parts, flip);
      assert s[..4] == SizeBytes(|parts[0]|, flip) && s[4..] == SizesBytes(parts[1..], flip);
      SizeRoundTrip(|parts[0]|, flip);
      SizesComeBack(parts[1..], flip);
    }
  }

  /** What a peer sends whose parts are below 2^31 has no negative sizes. */
  lemma SentSizesAreSane(header: seq<Byte>, parts: seq<seq<Byte>>, flip: bool, rest: seq<Byte>)
    requires forall i :: 0 <= i < |parts| ==> |parts[i]| < PART_MAX
    ensures SaneSizes(MessageBytes(header, parts, flip) + rest, |header|, |parts|, flip)
  {
    hide SizesFrom, SizesBytes, Flat;
    var sizes := SizesBytes(parts, flip);
    SizesComeBack(parts, flip);
    Assembled(header, sizes, Flat(parts), rest);
    SizesInFront(header, sizes, Flat(parts) + rest, MessageBytes(header, parts, flip) + rest);
  }

  /** The header block and the parts as one vector. */
  method Send(port: Outgoing, header: seq<Byte>, parts: seq<seq<Byte>>, flip: bool) returns (r: IoResult)
    modifies port
    ensures r.done <= |MessageBytes(header, parts, flip)|
    ensures port.sent == old(port.sent) + MessageBytes(header, parts, flip)[..r.done]
    ensures r.status == OK <==> r.done == |MessageBytes(header, parts, flip)|
    ensures port.failures == old(port.failures) + Reports(r.status)
    ensures r.status == OK || r.status == BUSY || r.status == ERR
  {
    hide Flat, SizesBytes;
    var block := HeaderBlock(header, parts, flip);
    var iov := new seq<Byte>[1 + |parts|](i requires 0 <= i < 1 + |parts| => if i == 0 then block else parts[i - 1]);
    assert iov[0..0 + iov.Length] == [block] + parts;
    FlatHead(block, parts);
    var p, ioc;
    r, p, ioc := WriteV(port, iov, 0, iov.Length);
  }

  method HeaderBlock(header: seq<Byte>, parts: seq<seq<Byte>>, flip: bool) returns (block: seq<Byte>)
    ensures block == header + SizesBytes(parts, flip)
  {
    hide SizesBytes, SizeBytes;
    block := header;
    NoSizes(flip);
    assert parts[..0] == [] && header + [] == header;
    for i := 0 to |parts|
      invariant block == header + SizesBytes(parts[..i], flip)
    {
      OneSizeMore(parts[..i], parts[i], flip);
      assert parts[..i + 1] == parts[..i] + [parts[i]];
      block := block + SizeBytes(|parts[i]|, flip);
    }
    assert parts[..|parts|] == parts;
  }

  lemma NoSizes(flip: bool)
    ensures SizesBytes([], flip) == []
  {
  }

  lemma {:induction false} OneSizeMore(parts: seq<seq<Byte>>, p: seq<Byte>, flip: bool)
    ensures SizesBytes(parts + [p], flip) == SizesBytes(parts, flip) + SizeBytes(|p|, flip)
  {
    hide SizeBytes;
    if parts == [] {
      assert (parts + [p])[1..] == [];
    } else {
      OneSizeMore(parts[1..], p, flip);
      assert (parts + [p])[1..] == parts[1..] + [p];
    }
  }

  lemma FlatHead(block: seq<Byte>, parts: seq<seq<Byte>>)
    ensures Flat([block] + parts) == block + Flat(parts)
  {
    assert ([block] + parts)[1..] == parts;
  }

  // ---- from one end to the other ----

  lemma {:induction false} TotalOfParts(lens: seq<nat>, parts: seq<seq<Byte>>)
    requires |lens| == |parts| && forall i :: 0 <= i < |parts| ==> lens[i] == |parts[i]|
    ensures Total(lens) == |Flat(parts)|
  {
    if parts == [] {
      assert lens == [];
    } else {
      var k := |parts| - 1;
      TotalOfParts(lens[..k], parts[..k]);
      FlatOneMore(parts[..k], parts[k]);
      assert parts[..k] + [parts[k]] == parts;
    }
  }

  /** A stream that starts with a message has a whole one. */
  lemma SentIsWhole(header: seq<Byte>, parts: seq<seq<Byte>>, flip: bool, later: seq<Byte>)
    requires forall i :: 0 <= i < |parts| ==> |parts[i]| < PART_MAX
    ensures WholeMessage(MessageBytes(header, parts, flip) + later, |header|, |parts|, flip)
  {
    hide SizesFrom, SizesBytes, Flat, Total;
    var sizes := SizesBytes(parts, flip);
    SizesComeBack(parts, flip);
    TotalOfParts(SizesFrom(sizes, |parts|, flip), parts);
    Assembled(header, sizes, Flat(parts), later);
    SizesInFront(header, sizes, Flat(parts) + later, MessageBytes(header, parts, flip) + later);
  }

  /** From a stream that starts with a message: on OK the receiver holds exactly its header and its
      parts, and what comes later is left; and OK it is, unless a call fails or the storage
      cannot be reserved. */
  method RecvMessage(m: Message, port: Incoming, headerSize: nat, flip: bool,
                     ghost header: seq<Byte>, ghost parts: seq<seq<Byte>>, ghost later: seq<Byte>)
    returns (r: IoResult, ghost reserved: bool)
    requires |header| == headerSize && |parts| == m.n
    requires forall i :: 0 <= i < |parts| ==> |parts[i]| < PART_MAX
    requires port.rest == MessageBytes(header, parts, flip) + later
    modifies m, m.storage, port
    ensures r.status == OK ==>
      m.Laid() && m.header == header && m.Parts() == parts && port.rest == later
    ensures r.status == OK <==> reserved && port.failures == old(port.failures)
    ensures !reserved ==> |m.len| == m.n && old(m.storage.Length) < Align(Offset(m.len, m.n), WHOLE_ALIGN)
  {
    hide SaneSizes, MessageBytes, LaidOut, WholeMessage;
    SentSizesAreSane(header, parts, flip, later);
    SentIsWhole(header, parts, flip, later);
    r, reserved := m.Recv(port, headerSize, flip);
    if r.status == OK {
      MessagesDelimitThemselves(header, parts, later, m.header, m.Parts(), port.rest, flip);
    }
  }

  /** However both kernels split the transfer: if no call fails and the storage can be reserved,
      the message that is received is the one that was sent, and the bytes sent behind it are
      still to be received. */
  method SendThenRecv(m: Message, header: seq<Byte>, parts: seq<seq<Byte>>, flip: bool, later: seq<Byte>)
    returns (s: IoResult, r: IoResult, out: Outgoing, port: Incoming, ghost reserved: bool)
    requires |parts| == m.n && forall i :: 0 <= i < |parts| ==> |parts[i]| < PART_MAX
    modifies m, m.storage
    ensures s.status == OK <==> out.failures == []
    ensures s.status == OK && r.status == OK ==>
      m.Laid() && m.header == header && m.Parts() == parts && port.rest == later
    ensures out.failures == port.failures == [] && reserved ==> s.status == OK && r.status == OK
  {
    hide MessageBytes, LaidOut;
    out := new Outgoing();
    s := Send(out, header, parts, flip);
    port := new Incoming(out.sent + later);
    r, reserved := s, true;
    if s.status == OK {
      ghost var all := MessageBytes(header, parts, flip);
      assert all[..|all|] == all && [] + all == all;
      r, reserved := RecvMessage(m, port, |header|, flip, header, parts, later);
    }
  }
}
