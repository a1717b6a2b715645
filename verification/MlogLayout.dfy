/** Where the partitions of a log file lie: setup_context of src/c7mlog/writer.cpp places the
    rings and routes the log levels to them, load of src/c7mlog/reader12.cpp finds them again. */
module MlogLayout {
  import opened Wrappers

  const PART_CNT := 8          // _PART_CNT, one for each log level
  const IHDRSIZE: nat := 160   // _IHDRSIZE: the 152 bytes of hdr12_t aligned to 16
  const REVISION := 12

  /** A ring of size bytes at off in the file. */
  datatype Region = Region(off: nat, size: nat)

  function Total(sizes: seq<nat>): nat {
    if sizes == [] then 0 else Total(sizes[..|sizes| - 1]) + sizes[|sizes| - 1]
  }

  lemma TotalOneMore(sizes: seq<nat>, i: nat)
    requires i < |sizes|
    ensures Total(sizes[..i + 1]) == Total(sizes[..i]) + sizes[i]
  {
    assert sizes[..i + 1][..i] == sizes[..i];
  }

  lemma {:induction false} TotalGrows(sizes: seq<nat>, i: nat, j: nat)
    requires i <= j <= |sizes|
    ensures Total(sizes[..i]) <= Total(sizes[..j])
    decreases j
  {
    if i < j {
      TotalOneMore(sizes, j - 1);
      TotalGrows(sizes, i, j - 1);
    }
  }

  /** The region of partition i. */
  function RegionOf(base: nat, sizes: seq<nat>, i: nat): Region
    requires i < |sizes|
  {
    Region(base + Total(sizes[..i]), sizes[i])
  }

  /** Regions lie one behind the other and inside the file. */
  lemma RegionsApart(base: nat, sizes: seq<nat>, i: nat, j: nat)
    requires i < j < |sizes|
    ensures var r, s := RegionOf(base, sizes, i), RegionOf(base, sizes, j);
      base <= r.off && r.off + r.size <= s.off && s.off + s.size <= base + Total(sizes)
  {
    hide Total;
    TotalOneMore(sizes, i);
    TotalGrows(sizes, i + 1, j);
    TotalOneMore(sizes, j);
    TotalGrows(sizes, j + 1, |sizes|);
    assert sizes[..|sizes|] == sizes;
  }

  /** A level is logged to the nearest partition at or below it that has a ring. */
  ghost predicate RoutedTo(sizes: seq<nat>, level: nat, part: nat)
    requires level < |sizes|
  {
    part <= level && sizes[part] > 0 && forall k :: part < k <= level ==> sizes[k] == 0
  }

  /** rbufobj_ and rbuf_: with a ring for level 0 every level is routed. */
  method SetupContext(hdrsize: nat, sizes: seq<nat>) returns (rings: seq<Option<Region>>, route: seq<nat>)
    requires |sizes| == PART_CNT && sizes[0] > 0
    ensures |rings| == |route| == PART_CNT
    ensures forall i :: 0 <= i < PART_CNT ==>
      rings[i] == if sizes[i] > 0 then Some(RegionOf(IHDRSIZE + hdrsize, sizes, i)) else None
    ensures forall level :: 0 <= level < PART_CNT ==>
      && route[level] <= level && sizes[route[level]] > 0
      && forall k :: route[level] < k <= level ==> sizes[k] == 0
  {
    hide Total;
    var off, rb := IHDRSIZE + hdrsize, 0;
    NothingTotal(sizes);
    rings, route := [], [];
    for i := 0 to PART_CNT
      invariant |rings| == |route| == i && off == IHDRSIZE + hdrsize + Total(sizes[..i])
      invariant i > 0 ==> RoutedTo(sizes, i - 1, rb)
      invariant forall j :: 0 <= j < i ==>
        rings[j] == if sizes[j] > 0 then Some(RegionOf(IHDRSIZE + hdrsize, sizes, j)) else None
      invariant forall level :: 0 <= level < i ==> RoutedTo(sizes, level, route[level])
    {
      TotalOneMore(sizes, i);
      if sizes[i] > 0 {
        rings := rings + [Some(Region(off, sizes[i]))];
        rb := i;
        off := off + sizes[i];
      } else {
        rings := rings + [None];
      }
      route := route + [rb];
    }
  }

  lemma NothingTotal(sizes: seq<nat>)
    ensures Total(sizes[..0]) == 0
  {
  }

  // ---- reading a file ----

  /** The header of a file as far as load looks at it. */
  datatype Header = Header(rev: nat, hdrsize: nat, sizes: seq<nat>)

  datatype Loaded = Rings(rings: seq<Region>) | TooSmallForHeader | WrongRevision | TooSmallForParts

  /** The rings there are, in the order of their partitions. */
  function RingsOf(base: nat, sizes: seq<nat>, k: nat): seq<Region>
    requires k <= |sizes|
  {
    if k == 0 then []
    else RingsOf(base, sizes, k - 1) + (if sizes[k - 1] > 0 then [RegionOf(base, sizes, k - 1)] else [])
  }

  method Load(fileSize: nat, h: Header) returns (r: Loaded)
    requires |h.sizes| == PART_CNT
    ensures r == if fileSize < IHDRSIZE then TooSmallForHeader
                 else if h.rev != REVISION then WrongRevision
                 else if fileSize < IHDRSIZE + h.hdrsize + Total(h.sizes) then TooSmallForParts
                 else Rings(RingsOf(IHDRSIZE + h.hdrsize, h.sizes, PART_CNT))
  {
    hide Total;
    if fileSize < IHDRSIZE { return TooSmallForHeader; }
    if h.rev != REVISION { return WrongRevision; }
    var reqsize := IHDRSIZE + h.hdrsize;
    NothingTotal(h.sizes);
    for i := 0 to PART_CNT
      invariant reqsize == IHDRSIZE + h.hdrsize + Total(h.sizes[..i])
    {
      TotalOneMore(h.sizes, i);
      reqsize := reqsize + h.sizes[i];
    }
    assert h.sizes[..PART_CNT] == h.sizes;
    if fileSize < reqsize { return TooSmallForParts; }
    var off := IHDRSIZE + h.hdrsize;
    var rings := [];
    for i := 0 to PART_CNT
      invariant off == IHDRSIZE + h.hdrsize + Total(h.sizes[..i])
      invariant rings == RingsOf(IHDRSIZE + h.hdrsize, h.sizes, i)
    {
      TotalOneMore(h.sizes, i);
      if h.sizes[i] > 0 {
        rings := rings + [Region(off, h.sizes[i])];
        off := off + h.sizes[i];
      }
    }
    r := Rings(rings);
  }

  /** How many of the partitions before i have a ring. */
  function Rank(sizes: seq<nat>, i: nat): nat
    requires i <= |sizes|
  {
    if i == 0 then 0 else Rank(sizes, i - 1) + (if sizes[i - 1] > 0 then 1 else 0)
  }

  /** The reader's rings are the writer's: the one written for partition i is found at its rank,
      and there are no others. */
  lemma {:induction false} ReaderFindsRing(base: nat, sizes: seq<nat>, i: nat, k: nat)
    requires i < k <= |sizes| && sizes[i] > 0
    ensures |RingsOf(base, sizes, k)| == Rank(sizes, k)
    ensures Rank(sizes, i) < Rank(sizes, k)
    ensures RingsOf(base, sizes, k)[Rank(sizes, i)] == RegionOf(base, sizes, i)
    decreases k
  {
    RingCount(base, sizes, i);
    if i < k - 1 { ReaderFindsRing(base, sizes, i, k - 1); }
  }

  lemma {:induction false} RingCount(base: nat, sizes: seq<nat>, k: nat)
    requires k <= |sizes|
    ensures |RingsOf(base, sizes, k)| == Rank(sizes, k)
  {
    if k > 0 { RingCount(base, sizes, k - 1); }
  }
}
