/** Where the two halves meet: the lists the pinner sends are lists the scatter-gather allocator can use. */
module PinnedBuffers {
  import opened Machine
  import opened Physlist
  import opened Placement
  import opened SlotWalk
  import opened Carving
  import opened CarvingRuns
  import opened Framing
  import opened Descriptors
  import opened Traversal
  import opened RoundTrip
  import opened PageSplit

  /** pl was sent for the buffer [addr, addr + size) under this page table. */
  ghost predicate PinnedFor(pl: seq<Extent>, table: PageTable, addr: u64, size: u32) {
    size > 0 && Accepted(addr, size) && Pinned(pl, PagesOf(table, addr, size), addr % PAGE_SIZE, size)
  }

  /** The frames of the buffer: none of them is frame 0, and no frame is mapped twice. */
  ghost predicate ProperFrames(table: PageTable, addr: u64, size: u32) {
    var pages := PagesOf(table, addr, size);
    && (forall i :: 0 <= i < |pages| ==> pages[i] > 0)
    && (forall i, j :: 0 <= i < j < |pages| ==> pages[i] != pages[j])
  }

  /** The list sent for a buffer of proper frames. */
  ghost predicate WellPinned(pl: seq<Extent>, table: PageTable, addr: u64, size: u32) {
    PinnedFor(pl, table, addr, size) && ProperFrames(table, addr, size)
  }

  lemma {:induction false} PinnedIsWellFormed(pl: seq<Extent>, table: PageTable, addr: u64, size: u32)
    requires WellPinned(pl, table, addr, size)
    ensures WellFormed(pl) && Disjoint(pl)
  {
    var pages, offset := PagesOf(table, addr, size), addr % PAGE_SIZE;
    PinnedStart(pl, pages, offset, size, |pages|);
    forall i | 0 <= i < |pl| ensures 0 < pl[i].len && 0 < pl[i].addr && pl[i].addr + pl[i].len <= U64 {
      PinnedExtentInPage(pl, pages, offset, size, i);
    }
    forall i, j | 0 <= i < j < |pl|
      ensures pl[i].addr + pl[i].len <= pl[j].addr || pl[j].addr + pl[j].len <= pl[i].addr
    {
      PinnedExtentInPage(pl, pages, offset, size, i);
      PinnedExtentInPage(pl, pages, offset, size, j);
      FramesApart(pages[i], pages[j]);
    }
  }

  lemma {:induction false} FramesApart(p: nat, q: nat)
    requires p != q
    ensures (p + 1) * PAGE_SIZE <= q * PAGE_SIZE || (q + 1) * PAGE_SIZE <= p * PAGE_SIZE
  {
  }

  lemma {:induction false} PinnedIsPaged(pl: seq<Extent>, table: PageTable, addr: u64, size: u32)
    requires PinnedFor(pl, table, addr, size)
    ensures Paged(pl) && |pl| > 0 && forall i :: 0 <= i < |pl| ==> pl[i].len < LEN_SPAN
  {
    var pages, offset := PagesOf(table, addr, size), addr % PAGE_SIZE;
    PinnedExtent(pl, pages, offset, size, 0);
    forall i | 0 <= i < |pl|
      ensures pl[i].len < LEN_SPAN && (i > 0 ==> pl[i].addr % 64 == 0)
      ensures i < |pl| - 1 ==> (pl[i].addr + pl[i].len) % 64 == 0
    {
      PinnedExtentInPage(pl, pages, offset, size, i);
    }
  }

  /**
   When the allocator places every descriptor of a pinned buffer correctly, in terms of the buffer's
   address and size alone: not more than a descriptor lies beyond the last 64-byte boundary, and a
   buffer inside one page reaches a boundary at all.
   */
  predicate GoodDescriptorBuffer(addr: u64, size: u32, d: DescSize) {
    && (addr + size) % 64 <= d
    && (NumPages(addr % PAGE_SIZE, size) == 1 ==> Pad(addr % PAGE_SIZE) <= size)
  }

  lemma {:induction false} PinnedHasRoom(pl: seq<Extent>, table: PageTable, addr: u64, size: u32, d: DescSize)
    requires PinnedFor(pl, table, addr, size)
    ensures RoomAtTheEnd(pl, d) <==> GoodDescriptorBuffer(addr, size, d)
  {
    var n := NumPages(addr % PAGE_SIZE, size);
    PinnedEnd(pl, table, addr, size, n);
    if n == 1 { SinglePage(pl, table, addr, size); }
    RoomIs(pl, d, (addr + size) % 64, Pad(addr % PAGE_SIZE), size);
  }

  lemma {:induction false} RoomIs(pl: seq<Extent>, d: DescSize, over: nat, pad: nat, size: nat)
    requires |pl| > 0 && over == (pl[|pl| - 1].addr + pl[|pl| - 1].len) % 64
    requires |pl| == 1 ==> pad == Pad(pl[0].addr) && size == pl[0].len
    ensures RoomAtTheEnd(pl, d) <==> over <= d && (|pl| == 1 ==> pad <= size)
  {
  }

  /** The physical end of a pinned buffer and its virtual end are alike modulo 64. */
  lemma {:induction false} PinnedEnd(pl: seq<Extent>, table: PageTable, addr: u64, size: u32, n: nat)
    requires PinnedFor(pl, table, addr, size) && n == NumPages(addr % PAGE_SIZE, size)
    ensures |pl| == n > 0 && (pl[n - 1].addr + pl[n - 1].len) % 64 == (addr + size) % 64
  {
    var pages := PagesOf(table, addr, size);
    PinnedExtentInPage(pl, pages, addr % PAGE_SIZE, size, n - 1);
    EndModulo(pages[n - 1], addr, size, n - 1, pl[n - 1].addr + pl[n - 1].len);
  }

  lemma {:induction false} EndModulo(page: nat, addr: nat, size: nat, i: nat, end: nat)
    requires end == page * PAGE_SIZE + (addr % PAGE_SIZE + size - i * PAGE_SIZE)
    ensures end % 64 == (addr + size) % 64
  {
  }

  lemma {:induction false} SinglePage(pl: seq<Extent>, table: PageTable, addr: u64, size: u32)
    requires PinnedFor(pl, table, addr, size) && NumPages(addr % PAGE_SIZE, size) == 1
    ensures |pl| == 1 && pl[0].len == size && Pad(pl[0].addr) == Pad(addr % PAGE_SIZE)
  {
    var pages := PagesOf(table, addr, size);
    PinnedExtentInPage(pl, pages, addr % PAGE_SIZE, size, 0);
    PinnedStart(pl, pages, addr % PAGE_SIZE, size, 1);
    assert Start(pl, 1) == pl[0].len;
    PadInPage(pages[0], addr % PAGE_SIZE);
  }

  lemma {:induction false} PadInPage(page: nat, offset: nat)
    ensures Pad(page * PAGE_SIZE + offset) == Pad(offset)
  {
    ModDrop(page * 64, offset);
    assert page * PAGE_SIZE == 64 * (page * 64);
  }

  /** Two pinned buffers make up buffers for a list. */
  lemma {:induction false} PinnedAreUsable(sg: seq<Extent>, data: seq<Extent>, table: PageTable,
                                           sgAddr: u64, sgSize: u32, dataAddr: u64, dataSize: u32, d: DescSize)
    requires WellPinned(sg, table, sgAddr, sgSize)
    requires WellPinned(data, table, dataAddr, dataSize)
    ensures Usable(BufferPair(sg, data, d)) && Disjoint(sg) && Disjoint(data)
  {
    PinnedIsWellFormed(sg, table, sgAddr, sgSize);
    PinnedIsPaged(sg, table, sgAddr, sgSize);
    PinnedIsWellFormed(data, table, dataAddr, dataSize);
  }

  /** In a pinned buffer the allocator hands out exactly the usable slots if and only if the buffer is a good one. */
  lemma {:induction false} PinnedPlacesExactly(pl: seq<Extent>, table: PageTable, addr: u64, size: u32, d: DescSize)
    requires WellPinned(pl, table, addr, size)
    ensures Places(pl, 0, d) == Slots(pl, 0, d) <==> GoodDescriptorBuffer(addr, size, d)
  {
    PinnedIsWellFormed(pl, table, addr, size);
    PinnedIsPaged(pl, table, addr, size);
    PinnedHasRoom(pl, table, addr, size, d);
    PlacesAreSlotsExactly(pl, d);
  }

  function PinnedPair(sg: seq<Extent>, data: seq<Extent>, d: DescSize, ghost table: PageTable, ghost sgAddr: u64,
                      ghost sgSize: u32, ghost dataAddr: u64, ghost dataSize: u32): (b: Buffers)
    requires WellPinned(sg, table, sgAddr, sgSize)
    requires WellPinned(data, table, dataAddr, dataSize)
    ensures b == BufferPair(sg, data, d)
  {
    PinnedAreUsable(sg, data, table, sgAddr, sgSize, dataAddr, dataSize, d);
    BufferPair(sg, data, d)
  }

  /** A buffer of one page less one byte, page-aligned: legal to pin, and yet the allocator overruns its end. */
  lemma {:induction false} OverrunHappens(pl: seq<Extent>, table: PageTable, d: DescSize)
    requires WellPinned(pl, table, 0x1000, 4095) && d < 63
    ensures Fits(pl, 4032, d) && Find(pl, 4032 + d, d) == 4096 > Total(pl)
    ensures Places(pl, 0, d) != Slots(pl, 0, d)
  {
    PinnedPlacesExactly(pl, table, 0x1000, 4095, d);
    var page := WholeStart(pl, table, 0x1000, 4095);
    LastPlaceOfPage(pl, page * 64, d);
  }

  lemma {:induction false} WholeStart(pl: seq<Extent>, table: PageTable, addr: u64, size: u32) returns (page: nat)
    requires PinnedFor(pl, table, addr, size) && addr % PAGE_SIZE == 0 && NumPages(0, size) == 1
    ensures |pl| == 1 && pl[0] == Extent(page * PAGE_SIZE, size)
  {
    var pages := PagesOf(table, addr, size);
    page := pages[0];
    SinglePage(pl, table, addr, size);
    PinnedExtentInPage(pl, pages, 0, size, 0);
  }

  lemma {:induction false} LastPlaceOfPage(pl: seq<Extent>, page64: nat, d: DescSize)
    requires |pl| == 1 && pl[0] == Extent(64 * page64, 4095) && d < 63
    ensures Fits(pl, 4032, d) && Find(pl, 4032 + d, d) == 4096 > Total(pl)
  {
    assert Start(pl, 1) == 4095;
    InExtent(pl, 0, 4032);
    InExtent(pl, 0, 4032 + d);
    ModDrop(page64 + 63, 0);
    ModDrop(page64 + 63, d);
  }

  /**
   The whole way: buffers pinned under a page table, any calls of add that take no more descriptors
   than the buffer has slots for, the list written, every descriptor filled by the device. Call k of
   the traversal returns the k-th buffer added, in order and whole.
   */
  lemma {:induction false} PinnedRoundTrip(b: Buffers, ops: seq<AddOp>, words: Words, after: Words,
                                           sentinelOffset: u32, dataBuf: nat, k: nat, table: PageTable,
                                           sgAddr: u64, sgSize: u32, dataSize: u32)
    requires WellPinned(b.sg, table, sgAddr, sgSize)
    requires dataBuf < U64 && PinnedFor(b.data, table, dataBuf, dataSize)
    requires |Run(b, ops).entries| <= |SlotAddresses(b.sg, b.d)|
    requires var es := Run(b, ops).entries;
             Slotted(b, es) ==> FilledByDevice(Written(words, b, es, sentinelOffset), after, b, es)
    ensures var es := Run(b, ops).entries;
            && Slotted(b, es)
            && var sts := Statuses(after, b, es);
               var sizes := Sizes(b, ops);
               Returned(dataBuf, es, sts, Walk(sts, At(0), k)) ==
                 if k < |sizes| then S2mmBuf(dataBuf + Sum(sizes[..k]), sizes[k], TransferSuccess)
                 else S2mmBuf(0, 0, EndOfList)
  {
    PinnedIsWellFormed(b.sg, table, sgAddr, sgSize);
    PinnedIsPaged(b.data, table, dataBuf, dataSize);
    RunIsSlotted(b, ops);
    AddedIsReturned(b, ops, words, after, sentinelOffset, dataBuf, k);
    if k < |Frames(b, ops)| {
      FrameIsShort(b, ops, k);
      ShortMeans(Frames(b, ops)[k]);
    }
  }

  /** Byte j of entry i goes to the frame the page table gives for its place in the user's buffer. */
  lemma {:induction false} EntriesAgreeWithPaging(b: Buffers, st: ListState, i: nat, j: nat, table: PageTable,
                                                  dataBuf: u64, dataSize: u32)
    requires PinnedFor(b.data, table, dataBuf, dataSize)
    requires Tiled(b, st) && i < |st.entries| && j < st.entries[i].len
    ensures st.entries[i].bufPhys + j == Translate(table, dataBuf + st.entries[i].dataOffset + j)
  {
    EntriesTranslate(b, st, i, j);
    PinnedTranslates(table, dataBuf, dataSize, b.data, st.entries[i].dataOffset + j);
  }
}
