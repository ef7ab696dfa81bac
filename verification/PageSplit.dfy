/** Cutting a user buffer at page boundaries, and the physlist that comes of it. */
module PageSplit {
  import opened Machine
  import opened Physlist

  const PAGE_SHIFT: nat := 12
  const PAGE_SIZE: nat := 4096
  const MAX_PAGES: nat := 1024  // PINNER_MAX_PAGES

  /** A page frame; `page_to_phys` gives its physical address. */
  type Page = p: int | 0 <= p < 0x10_0000_0000_0000

  // ----- page arithmetic

  /** Start of the page that holds addr, computed with an or and a subtraction. */
  function PageStart(addr: u64): nat {
    OrMaskMinusMask(addr, PAGE_SHIFT);
    BitOr(addr, Pow2(PAGE_SHIFT) - 1) - (Pow2(PAGE_SHIFT) - 1)
  }

  lemma {:induction false} PageStartRoundsDown(addr: u64)
    ensures PageStart(addr) == addr - addr % PAGE_SIZE
  {
    OrMaskMinusMask(addr, PAGE_SHIFT);
    assert Pow2(4) == 16 && Pow2(8) == 256;
    assert Pow2(12) == PAGE_SIZE;
  }

  /** `num_pages`, from the offset into the first page and the size. */
  function NumPages(offset: nat, size: u32): nat {
    (offset + size + (PAGE_SIZE - 1)) / PAGE_SIZE
  }

  /** The virtual pages that hold some byte of [addr, addr + size), taken byte by byte. */
  function PagesTouched(addr: nat, size: nat): set<nat> {
    if size == 0 then {} else PagesTouched(addr, size - 1) + {(addr + size - 1) / PAGE_SIZE}
  }

  lemma {:induction false} TouchedExactly(addr: nat, size: nat, v: nat)
    requires size > 0
    ensures v in PagesTouched(addr, size) <==> addr / 4096 <= v <= (addr + size - 1) / 4096
  {
    if size > 1 {
      TouchedExactly(addr, size - 1, v);
      NextByte(addr + size - 2);
    }
  }

  lemma {:induction false} NextByte(a: nat)
    ensures a / 4096 <= (a + 1) / 4096 <= a / 4096 + 1
  {
  }

  lemma {:induction false} TouchedCount(addr: nat, size: nat)
    requires size > 0
    ensures var first, last := addr / PAGE_SIZE, (addr + size - 1) / PAGE_SIZE;
            && |PagesTouched(addr, size)| == last - first + 1 && last in PagesTouched(addr, size)
            && forall v :: v in PagesTouched(addr, size) ==> first <= v <= last
    decreases size
  {
    if size > 1 {
      TouchedCount(addr, size - 1);
      var before, last := (addr + size - 2) / PAGE_SIZE, (addr + size - 1) / PAGE_SIZE;
      if last == before {
        assert PagesTouched(addr, size) == PagesTouched(addr, size - 1);
      } else {
        assert last == before + 1 && last !in PagesTouched(addr, size - 1);
      }
    } else {
      assert PagesTouched(addr, 0) == {};
    }
  }

  /** For a non-empty buffer the formula counts the pages it touches. */
  lemma {:induction false} NumPagesCounts(addr: nat, size: u32)
    requires size > 0
    ensures NumPages(addr % PAGE_SIZE, size) == |PagesTouched(addr, size)|
  {
    TouchedCount(addr, size);
  }

  /** What the validation at the start of a pin accepts. */
  predicate Accepted(addr: u64, size: u32) {
    0 < NumPages(addr % PAGE_SIZE, size) <= MAX_PAGES
  }

  /**
   It accepts the buffers that touch 1 to 1024 pages, and besides them, against the intention, the
   empty buffers that do not start on a page boundary.
   */
  lemma {:induction false} AcceptedExactly(addr: u64, size: u32)
    ensures Accepted(addr, size) <==>
            if size > 0 then |PagesTouched(addr, size)| <= 1024 else addr % 4096 != 0
  {
    if size > 0 { NumPagesCounts(addr, size); }
  }

  // ----- the scatterlist

  /** `struct scatterlist`, as far as it is used. */
  datatype ScatterEntry = ScatterEntry(page: Page, length: u32, offset: u32, dmaAddress: u64)

  const ZEROED := ScatterEntry(0, 0, 0, 0)

  /** The part of a buffer that lies in its i-th page: bytes lo up to hi, counted from the first page's start. */
  function Lo(offset: nat, i: nat): nat {
    if i == 0 then offset else i * PAGE_SIZE
  }

  function Hi(offset: nat, size: nat, i: nat): nat {
    if offset + size < (i + 1) * PAGE_SIZE then offset + size else (i + 1) * PAGE_SIZE
  }

  /** The scatterlist entry for that part. */
  ghost predicate Covers(e: ScatterEntry, page: Page, offset: nat, size: nat, i: nat) {
    && e.page == page && e.dmaAddress == page * PAGE_SIZE
    && e.offset == Lo(offset, i) % PAGE_SIZE && e.length == Hi(offset, size, i) - Lo(offset, i)
  }

  ghost predicate CoversAll(sg: seq<ScatterEntry>, pages: seq<Page>, offset: nat, size: nat) {
    && |sg| == |pages|
    && forall i {:trigger sg[i]} :: 0 <= i < |sg| ==> Covers(sg[i], pages[i], offset, size, i)
  }

  /** Error codes of the module; EMAP stands for whatever negative value mapping for DMA returns. */
  datatype Errno = Ok | EINVAL | ENOMEM | EAGAIN | ENOSYS | EMAP

  /**
   `pinner_alloc_and_fill_sglist`; canAlloc says whether the allocation succeeds. No subtraction
   underflows, given the caller's number of pages.
   */
  method AllocAndFillSglist(pageArr: array<Page>, numPages: int, firstPageOffset: u32, totalSz: u32, canAlloc: bool)
    returns (ret: Errno, sglist: array<ScatterEntry>)
    requires numPages <= pageArr.Length
    requires firstPageOffset < PAGE_SIZE && numPages == NumPages(firstPageOffset, totalSz)
    ensures ret == if numPages <= 0 then EINVAL else if !canAlloc then ENOMEM else Ok
    ensures fresh(sglist)
    ensures ret == Ok ==> CoversAll(sglist[..], pageArr[..numPages], firstPageOffset, totalSz)
  {
    if numPages <= 0 {
      sglist := new ScatterEntry[0];
      return EINVAL, sglist;
    }
    if !canAlloc {
      sglist := new ScatterEntry[0];
      return ENOMEM, sglist;
    }
    sglist := new ScatterEntry[numPages](_ => ZEROED);

    var firstPageSz: u32 := if totalSz < PAGE_SIZE - firstPageOffset then totalSz else PAGE_SIZE - firstPageOffset;
    sglist[0] := ScatterEntry(pageArr[0], firstPageSz, firstPageOffset, pageArr[0] * PAGE_SIZE);
    var i := 1;
    while i < numPages - 1
      invariant 1 <= i && (i <= numPages - 1 || numPages == 1)
      invariant forall j :: 0 <= j < i && j < numPages ==> Covers(sglist[j], pageArr[j], firstPageOffset, totalSz, j)
    {
      sglist[i] := ScatterEntry(pageArr[i], PAGE_SIZE, 0, pageArr[i] * PAGE_SIZE);
      i := i + 1;
    }
    if numPages > 1 {
      var lastSz: u32 := totalSz - (PAGE_SIZE - firstPageOffset) - (numPages - 2) * PAGE_SIZE;
      sglist[numPages - 1] := ScatterEntry(pageArr[numPages - 1], lastSz, 0, pageArr[numPages - 1] * PAGE_SIZE);
    }
    return Ok, sglist;
  }

  // ----- the physlist sent to the user

  function ExtentOf(e: ScatterEntry): Extent {
    Extent(e.dmaAddress + e.offset, e.length)
  }

  function PhyslistOf(sg: seq<ScatterEntry>): (pl: seq<Extent>)
    ensures |pl| == |sg| && forall i :: 0 <= i < |sg| ==> pl[i] == ExtentOf(sg[i])
  {
    if sg == [] then [] else PhyslistOf(sg[..|sg| - 1]) + [ExtentOf(sg[|sg| - 1])]
  }

  /**
   `pinner_send_physlist`: the flags say whether the allocation and the two copies succeed. The
   user's list is complete exactly when the call succeeds.
   */
  method SendPhyslist(sg: seq<ScatterEntry>, canAlloc: bool, copyCount: bool, copyEntries: bool)
    returns (ret: Errno, sent: seq<Extent>)
    ensures ret == if !canAlloc then ENOMEM else if copyCount && copyEntries then Ok else EAGAIN
    ensures ret == Ok ==> sent == PhyslistOf(sg)
  {
    if !canAlloc {
      return ENOMEM, [];
    }
    var entries := new Extent[|sg|](_ => Extent(0, 0));
    var i := 0;
    while i < |sg|
      invariant 0 <= i <= |sg|
      invariant forall j :: 0 <= j < i ==> entries[j] == ExtentOf(sg[j])
    {
      entries[i] := Extent(sg[i].dmaAddress + sg[i].offset, sg[i].length);
      i := i + 1;
    }
    if !copyCount || !copyEntries {
      return EAGAIN, [];
    }
    assert entries[..] == PhyslistOf(sg);
    return Ok, entries[..];
  }

  // ----- the split is an exact partition

  ghost predicate Pinned(pl: seq<Extent>, pages: seq<Page>, offset: nat, size: u32) {
    && offset < PAGE_SIZE && |pages| == NumPages(offset, size)
    && exists sg :: CoversAll(sg, pages, offset, size) && pl == PhyslistOf(sg)
  }

  lemma {:induction false} PinnedExtent(pl: seq<Extent>, pages: seq<Page>, offset: nat, size: u32, i: nat)
    requires Pinned(pl, pages, offset, size) && i < |pages|
    ensures |pl| == |pages|
    ensures pl[i].addr == pages[i] * PAGE_SIZE + Lo(offset, i) % PAGE_SIZE
    ensures pl[i].len == Hi(offset, size, i) - Lo(offset, i)
  {
    var sg :| CoversAll(sg, pages, offset, size) && pl == PhyslistOf(sg);
    assert Covers(sg[i], pages[i], offset, size, i);
  }

  /** A pin of no bytes at address 1 is accepted, and an empty extent is sent for it. */
  lemma {:induction false} EmptyPinAccepted(pl: seq<Extent>, p: Page)
    requires Pinned(pl, [p], 1, 0)
    ensures Accepted(1, 0) && PagesTouched(1, 0) == {} && pl == [Extent(p * PAGE_SIZE + 1, 0)]
  {
    PinnedExtent(pl, [p], 1, 0, 0);
  }

  /** The pages, the offset and the size determine the list that is sent. */
  lemma {:induction false} PinnedUnique(pl: seq<Extent>, pl': seq<Extent>, pages: seq<Page>, offset: nat, size: u32)
    requires Pinned(pl, pages, offset, size) && Pinned(pl', pages, offset, size)
    ensures pl == pl'
  {
    assert |pl| == |pl'| == |pages|;
    forall i | 0 <= i < |pages| ensures pl[i] == pl'[i] {
      PinnedExtent(pl, pages, offset, size, i);
      PinnedExtent(pl', pages, offset, size, i);
    }
  }

  /** Every extent lies in one page; all but the first start a page, and all but the last end one. */
  lemma {:induction false} PinnedExtentInPage(pl: seq<Extent>, pages: seq<Page>, offset: nat, size: u32, i: nat)
    requires Pinned(pl, pages, offset, size) && size > 0 && i < |pages|
    ensures |pl| == |pages| && 0 < pl[i].len <= PAGE_SIZE
    ensures pages[i] * PAGE_SIZE <= pl[i].addr && pl[i].addr + pl[i].len <= (pages[i] + 1) * PAGE_SIZE
    ensures i > 0 ==> pl[i].addr == pages[i] * PAGE_SIZE
    ensures i == 0 ==> pl[i].addr == pages[i] * PAGE_SIZE + offset
    ensures i < |pages| - 1 ==> pl[i].addr + pl[i].len == (pages[i] + 1) * PAGE_SIZE
    ensures i == |pages| - 1 ==> pl[i].addr + pl[i].len == pages[i] * PAGE_SIZE + (offset + size - i * PAGE_SIZE)
  {
    PinnedExtent(pl, pages, offset, size, i);
    assert offset + size > i * PAGE_SIZE;
  }

  /** Up to page i the extents hold the bytes before that page, and all together the whole buffer. */
  lemma {:induction false} PinnedStart(pl: seq<Extent>, pages: seq<Page>, offset: nat, size: u32, i: nat)
    requires Pinned(pl, pages, offset, size) && size > 0 && i <= |pages|
    ensures |pl| == |pages|
    ensures Start(pl, i) == if i == 0 then 0 else if i < |pages| then i * PAGE_SIZE - offset else size
    decreases i
  {
    PinnedExtent(pl, pages, offset, size, 0);
    if i > 0 {
      PinnedStart(pl, pages, offset, size, i - 1);
      PinnedExtentInPage(pl, pages, offset, size, i - 1);
    }
  }

  /** A page table gives the frame of each virtual page. */
  type PageTable = nat -> Page

  /** What the memory management unit makes of a virtual address. */
  function Translate(table: PageTable, addr: nat): nat {
    table(addr / PAGE_SIZE) * PAGE_SIZE + addr % PAGE_SIZE
  }

  /** The pages of a buffer, as `get_user_pages_fast` hands them out when it can. */
  function PagesOf(table: PageTable, addr: u64, size: u32): (pages: seq<Page>)
    ensures |pages| == NumPages(addr % PAGE_SIZE, size)
  {
    seq(NumPages(addr % PAGE_SIZE, size), i requires 0 <= i => table(addr / PAGE_SIZE + i))
  }

  /**
   The list sent for a pinned buffer agrees with paging: byte k of the buffer is where the page table
   puts it, and offsets beyond the buffer are not found.
   */
  lemma {:induction false} PinnedTranslates(table: PageTable, addr: u64, size: u32, pl: seq<Extent>, k: nat)
    requires size > 0 && Pinned(pl, PagesOf(table, addr, size), addr % PAGE_SIZE, size)
    ensures Total(pl) == size
    ensures PhysOrNull(pl, k) == if k < size then Translate(table, addr + k) else 0
    ensures Translate(table, addr + k) == table((addr + k) / 4096) * 4096 + (addr + k) % 4096
  {
    var pages, offset := PagesOf(table, addr, size), addr % PAGE_SIZE;
    PinnedStart(pl, pages, offset, size, |pages|);
    if k < size {
      var i := (offset + k) / PAGE_SIZE;
      PinnedStart(pl, pages, offset, size, i);
      PinnedStart(pl, pages, offset, size, i + 1);
      PinnedExtentInPage(pl, pages, offset, size, i);
      InExtent(pl, i, k);
      SamePage(addr, k);
    }
  }

  lemma {:induction false} SamePage(addr: nat, k: nat)
    ensures (addr + k) / PAGE_SIZE == addr / PAGE_SIZE + (addr % PAGE_SIZE + k) / PAGE_SIZE
    ensures (addr + k) % PAGE_SIZE == (addr % PAGE_SIZE + k) % PAGE_SIZE
  {
  }
}
