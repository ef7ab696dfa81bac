/** Writing a list to memory, starting a transfer, and dequeuing the returned buffers. */
module Transfer {
  import opened Machine
  import opened Physlist
  import opened Placement
  import opened Carving
  import opened Framing
  import opened Ring
  import opened SgLists
  import opened Descriptors
  import opened Traversal
  import opened RoundTrip

  /** Physical memory, as the process reaches it: through the translation of a pinned buffer. */
  class Ram {
    var words: Words

    /** Reading the status word of a descriptor. */
    method ReadStatus(pl: seq<Extent>, offset: u32) returns (s: Status)
      requires WellFormed(pl) && offset < Total(pl)
      ensures s == LoadStatus(words, Phys(pl, offset))
    {
      var a := VirtToPhys(pl, offset);
      s := LoadStatus(words, a);
    }

    /** Writing a word through the buffer; at is where it goes. */
    method Store(pl: seq<Extent>, offset: u32, w: Word, ghost at: nat)
      requires WellFormed(pl) && offset < Total(pl) && Phys(pl, offset) == at
      modifies this
      ensures words == old(words)[at := w]
    {
      var a := VirtToPhys(pl, offset);
      words := words[a := w];
    }
  }

  /** The words of a descriptor at offset o follow each other in physical memory, from address a on. */
  ghost predicate LaidOut(pl: seq<Extent>, o: nat, a: nat) {
    && WellFormed(pl) && o + 28 < Total(pl) && Phys(pl, o) == a
    && Phys(pl, o + 4) == a + 4 && Phys(pl, o + 8) == a + 8 && Phys(pl, o + 12) == a + 12
    && Phys(pl, o + 24) == a + 24 && Phys(pl, o + 28) == a + 28
  }

  lemma {:induction false} SlotIsLaidOut(b: Buffers, o: nat)
    requires Fits(b.sg, o, b.d)
    ensures LaidOut(b.sg, o, Phys(b.sg, o))
  {
    PhysRunsOn(b.sg, o, 4);
    PhysRunsOn(b.sg, o, 8);
    PhysRunsOn(b.sg, o, 12);
    PhysRunsOn(b.sg, o, 24);
    PhysRunsOn(b.sg, o, 28);
  }

  /** `s2mm_write_sg_entry`: descriptor d goes to physical address at. */
  method WriteSgEntry(ram: Ram, b: Buffers, e: SgEntry, ghost at: nat, ghost d: Descriptor)
    requires Fits(b.sg, e.sgOffset, b.d) && at == Phys(b.sg, e.sgOffset)
    requires d == Encode(PhysOrNull64(b.sg, e.next.sgOffset), e.bufPhys, e.len, e.isEof, e.isSof)
    modifies ram
    ensures ram.words == WriteAt(old(ram.words), at, d)
  {
    SlotIsLaidOut(b, e.sgOffset);
    StoreFields(ram, b, e, at);
  }

  /** The six stores, once it is known that they go to one stretch of physical memory. */
  method StoreFields(ram: Ram, b: Buffers, e: SgEntry, ghost at: nat)
    requires LaidOut(b.sg, e.sgOffset, at)
    modifies ram
    ensures ram.words == WriteAt(old(ram.words), at,
              Encode(PhysOrNull64(b.sg, e.next.sgOffset), e.bufPhys, e.len, e.isEof, e.isSof))
  {
    var control := Control(e.len % LEN_SPAN, e.isEof, e.isSof);
    ram.Store(b.sg, e.sgOffset + 24, ControlWord(control), at + 24);
    ram.Store(b.sg, e.sgOffset + 28, StatusWord(CLEARED), at + 28);
    ram.Store(b.sg, e.sgOffset + 8, Plain(Lsb(e.bufPhys)), at + 8);
    ram.Store(b.sg, e.sgOffset + 12, Plain(Msb(e.bufPhys)), at + 12);

    var nextPhys := VirtToPhys(b.sg, e.next.sgOffset);
    ram.Store(b.sg, e.sgOffset, Plain(Lsb(nextPhys)), at);
    ram.Store(b.sg, e.sgOffset + 4, Plain(Msb(nextPhys)), at + 4);
  }

  /** items are what has to be written for the entries es. */
  ghost predicate ItemsAre(b: Buffers, es: seq<Node>, sentinelOffset: nat, items: seq<Item>) {
    && |items| == |es|
    && forall i {:trigger items[i]} :: 0 <= i < |es| ==> ItemIs(b, es, sentinelOffset, i, items[i])
  }

  ghost predicate ItemIs(b: Buffers, es: seq<Node>, sentinelOffset: nat, i: nat, m: Item)
    requires i < |es|
  {
    var e, nextOffset := es[i], if i + 1 < |es| then es[i + 1].sgOffset else sentinelOffset;
    && Fits(b.sg, e.sgOffset, b.d) && m.at == Phys(b.sg, e.sgOffset) && e.bufPhys < U64
    && m.d == Encode(PhysOrNull64(b.sg, nextOffset), e.bufPhys, e.len, e.eof, e.sof)
  }

  lemma {:induction false} ItemsToWrite(b: Buffers, es: seq<Node>, sentinelOffset: u32, words: Words)
    returns (items: seq<Item>)
    requires Slotted(b, es)
    ensures ItemsAre(b, es, sentinelOffset, items)
    ensures WriteAll(words, items, |items|) == Written(words, b, es, sentinelOffset)
  {
    items := Items(b, es, sentinelOffset);
  }

  /** The i-th item is what has to be written for the i-th node. */
  lemma {:induction false} ItemOfNode(b: Buffers, sentinel: SgEntry, nodes: seq<SgEntry>, es: seq<Node>,
                                      items: seq<Item>, i: nat)
    requires IsRing(sentinel, nodes) && Values(nodes) == es && i < |nodes|
    requires ItemsAre(b, es, sentinel.sgOffset, items)
    ensures var e := nodes[i];
            && Fits(b.sg, e.sgOffset, b.d) && items[i].at == Phys(b.sg, e.sgOffset)
            && items[i].d == Encode(PhysOrNull64(b.sg, e.next.sgOffset), e.bufPhys, e.len, e.isEof, e.isSof)
  {
    assert ItemIs(b, es, sentinel.sgOffset, i, items[i]) && nodes[i].Value() == es[i];
    if i + 1 < |nodes| { assert nodes[i + 1].Value() == es[i + 1]; }
  }

  /** The loop of `axidma_write_sg_list`. */
  method WriteEntries(ram: Ram, b: Buffers, sentinel: SgEntry,
                      ghost nodes: seq<SgEntry>, ghost es: seq<Node>, ghost items: seq<Item>)
    requires IsRing(sentinel, nodes) && Values(nodes) == es
    requires ItemsAre(b, es, sentinel.sgOffset, items)
    modifies ram
    ensures ram.words == WriteAll(old(ram.words), items, |items|)
  {
    ghost var i := 0;
    var e := sentinel.next;
    while e != sentinel
      invariant 0 <= i <= |items| == |nodes|
      invariant e == if i < |items| then nodes[i] else sentinel
      invariant ram.words == WriteAll(old(ram.words), items, i)
      decreases |items| - i
    {
      ItemOfNode(b, sentinel, nodes, es, items, i);
      WriteSgEntry(ram, b, e, items[i].at, items[i].d);
      e := e.next;
      i := i + 1;
    }
  }

  /** `axidma_ctx`, with the registers it maps. */
  class AxidmaCtx {
    var lst: SgList?
    var dmacr: u32
    var curdescLsb: u32
    var curdescMsb: u32
    var taildescLsb: u32
    var taildescMsb: u32

    /** As `axidma_open` leaves it. */
    constructor ()
      ensures lst == null
    {
      lst := null;
    }

    /** `axidma_write_sg_list`, on a list with entries es. An empty list is left alone. */
    method WriteSgList(list: SgList, ram: Ram, ghost es: seq<Node>)
      requires list.Valid() && Values(list.nodes) == es && Slotted(list.b, es)
      modifies `lst, list`toVisit, ram
      ensures list.Valid() && Values(list.nodes) == es
      ensures es == [] ==> lst == old(lst) && list.toVisit == old(list.toVisit) && ram.words == old(ram.words)
      ensures es != [] ==>
                && lst == list && list.toVisit == list.nodes[0]
                && ram.words == Written(old(ram.words), list.b, es, list.sentinel.sgOffset)
    {
      if list.sentinel.next == list.sentinel {
        return;
      }
      lst := list;
      list.toVisit := list.sentinel.next;

      assert list.Valid() && Values(list.nodes) == es;
      ghost var items := ItemsToWrite(list.b, es, list.sentinel.sgOffset, ram.words);
      WriteEntries(ram, list.b, list.sentinel, list.nodes, es, items);
    }

    /**
     The values `axidma_s2mm_transfer` programs. It does nothing before a list has been written, and
     nothing when the list holds no entry.
     */
    method S2mmTransfer(enableTimeout: bool, ghost es: seq<Node>) returns (started: bool)
      requires lst != null ==> IsRing(lst.sentinel, lst.nodes) && Values(lst.nodes) == es
      modifies `dmacr, `curdescLsb, `curdescMsb, `taildescLsb, `taildescMsb
      ensures started <==> lst != null && EofCount(es) > 0
      ensures !started ==> unchanged(this)
      ensures started ==>
                && |es| > 0
                && dmacr == (if enableTimeout then 200 else 0) * 0x100_0000 + EofCount(es) % 0x100 * 0x1_0000 + 0x7001
      ensures started ==>
                var head := PhysOrNull(lst.b.sg, es[0].sgOffset);
                curdescLsb == head % 0x1_0000_0000 && curdescMsb == head / 0x1_0000_0000
      ensures started ==>
                var tail := PhysOrNull(lst.b.sg, es[|es| - 1].sgOffset);
                taildescLsb == tail % 0x1_0000_0000 && taildescMsb == tail / 0x1_0000_0000
    {
      if lst == null {
        return false;
      }
      var cnt := CountFrames(lst.sentinel, lst.nodes);
      if cnt == 0 {
        return false;
      }
      assert |lst.nodes| == |es|;
      var first, last := lst.sentinel.next, lst.sentinel.prev;
      assert first.Value() == es[0] && last.Value() == es[|es| - 1];
      curdescLsb, curdescMsb := SplitAddress(lst.b.sg, first.sgOffset);
      dmacr := ControlRegister(enableTimeout, cnt);
      taildescLsb, taildescMsb := SplitAddress(lst.b.sg, last.sgOffset);
      return true;
    }
  }

  /** The physical address of a descriptor, in the two halves the registers take. */
  method SplitAddress(pl: seq<Extent>, offset: u32) returns (lsb: u32, msb: u32)
    requires WellFormed(pl)
    ensures lsb == PhysOrNull(pl, offset) % 0x1_0000_0000 && msb == PhysOrNull(pl, offset) / 0x1_0000_0000
  {
    var phys := VirtToPhys(pl, offset);
    lsb, msb := Lsb(phys), Msb(phys);
  }

  /** The control register: a timeout field, the interrupt threshold, and the run and interrupt bits. */
  method ControlRegister(enableTimeout: bool, cnt: nat) returns (r: u32)
    ensures r == ControlValue(enableTimeout, cnt)
  {
    var timeout := if enableTimeout then 200 else 0;
    ThreeFields(timeout, cnt % 0x100, 0x7001);
    r := OrFields(timeout, cnt % 0x100, 0x7001);
  }

  function ControlValue(enableTimeout: bool, cnt: nat): nat {
    (if enableTimeout then 200 else 0) * 0x100_0000 + cnt % 0x100 * 0x1_0000 + 0x7001
  }

  function OrFields(timeout: nat, threshold: nat, low: nat): nat {
    BitOr(BitOr(timeout * Pow2(24), threshold * Pow2(16)), low)
  }

  /** The interrupt threshold the hardware reads out of the register: the number of frames modulo 256. */
  lemma {:induction false} ThresholdRead(enableTimeout: bool, cnt: nat)
    ensures var r := ControlValue(enableTimeout, cnt);
            && r < U32 && r / 0x1_0000 % 0x100 == cnt % 0x100
            && r % 0x1_0000 == 0x7001 && r / 0x100_0000 == if enableTimeout then 200 else 0
  {
  }

  /** The three fields do not overlap, so none of them disturbs another. */
  lemma {:induction false} ThreeFields(timeout: nat, threshold: nat, low: nat)
    requires timeout < 0x100 && threshold < 0x100 && low < 0x1_0000
    ensures OrFields(timeout, threshold, low) == timeout * 0x100_0000 + threshold * 0x1_0000 + low
  {
    PowersOfTwo();
    var high := timeout * 0x100 + threshold;
    assert BitOr(timeout * Pow2(24), threshold * Pow2(16)) == high * Pow2(16) by {
      OrOfDisjointFields(timeout, 24, threshold * Pow2(16));
    }
    OrOfDisjointFields(high, 16, low);
  }

  lemma {:induction false} PowersOfTwo()
    ensures Pow2(16) == 0x1_0000 && Pow2(24) == 0x100_0000
  {
    assert Pow2(4) == 16;
    assert Pow2(8) == 256;
    assert Pow2(12) == 0x1000;
    assert Pow2(16) == 0x1_0000;
    assert Pow2(20) == 0x10_0000;
  }

  /** The loop that counts the frames of a list. */
  method CountFrames(sentinel: SgEntry, ghost nodes: seq<SgEntry>) returns (cnt: nat)
    requires IsRing(sentinel, nodes)
    ensures cnt == EofCount(Values(nodes))
  {
    ghost var i, es := 0, Values(nodes);
    var e := sentinel.next;
    cnt := 0;
    while e != sentinel
      invariant 0 <= i <= |nodes|
      invariant e == if i < |nodes| then nodes[i] else sentinel
      invariant cnt == EofCount(es[..i])
      decreases |nodes| - i
    {
      assert es[..i + 1][..i] == es[..i] && es[i] == e.Value();
      if e.isEof {
        cnt := cnt + 1;
      }
      e := e.next;
      i := i + 1;
    }
    assert es[..i] == es;
  }

  // ----- dequeuing

  /** The list's traversal stands at pos. */
  ghost predicate StandsAt(lst: SgList, pos: Position)
    reads lst
  {
    match pos
    case Unset => lst.toVisit == null
    case At(i) => i <= |lst.nodes| && lst.toVisit == if i < |lst.nodes| then lst.nodes[i] else lst.sentinel
  }

  /** `axidma_reset_lst_traversal`. */
  method ResetTraversal(lst: SgList)
    requires lst.Valid()
    modifies lst`toVisit
    ensures lst.Valid() && StandsAt(lst, At(0)) && lst.toVisit == lst.sentinel.next
  {
    lst.toVisit := lst.sentinel.next;
  }

  /** `axidma_dequeue_s2mm_buf`, on a list with entries es and reported statuses sts. */
  method DequeueS2mmBuf(lst: SgList, ram: Ram, ghost es: seq<Node>, ghost sts: seq<Status>, ghost pos: Position)
    returns (ret: S2mmBuf)
    requires lst.Valid() && Values(lst.nodes) == es && StandsAt(lst, pos)
    requires StatusesAre(ram.words, lst.b, es, sts)
    modifies lst`toVisit
    ensures lst.Valid() && Values(lst.nodes) == es
    ensures Possible(sts, pos) && StandsAt(lst, Next(sts, pos))
    ensures ret == Returned(lst.dataBuf, es, sts, pos)
  {
    var e := lst.toVisit;
    if e == null {
      return NO_BUFFER;
    }
    if e == lst.sentinel {
      lst.toVisit := null;
      return NO_BUFFER;
    }
    ret := DequeueGroup(lst, ram, e, es, sts, pos.i);
  }

  /** The same, from an entry of the list on. */
  method DequeueGroup(lst: SgList, ram: Ram, e: SgEntry, ghost es: seq<Node>, ghost sts: seq<Status>, ghost i: nat)
    returns (ret: S2mmBuf)
    requires lst.Valid() && Values(lst.nodes) == es && i < |lst.nodes| && e == lst.nodes[i]
    requires StatusesAre(ram.words, lst.b, es, sts)
    modifies lst`toVisit
    ensures lst.Valid() && Values(lst.nodes) == es
    ensures StandsAt(lst, Next(sts, At(i)))
    ensures ret == Returned(lst.dataBuf, es, sts, At(i))
  {
    var base := lst.dataBuf + e.dataOffset;
    assert base == lst.dataBuf + es[i].dataOffset;
    var len, failed, last := CollectGroup(lst.sentinel, ram, lst.b, e, lst.nodes, es, sts, i);
    ret := S2mmBuf(base, len, if failed then TransferFailed else TransferSuccess);
    GroupReturned(lst.dataBuf, es, sts, i, ret);
    lst.toVisit := last.next;
  }

  lemma {:induction false} GroupReturned(dataBuf: nat, es: seq<Node>, sts: seq<Status>, i: nat, ret: S2mmBuf)
    requires |sts| == |es| && i < |es|
    requires var end := GroupEnd(sts, i);
             && ret.base == dataBuf + es[i].dataOffset && ret.len == Length32(sts, i, end + 1)
             && ret.code == if AnyFailed(sts, i, end + 1) then TransferFailed else TransferSuccess
    ensures ret == Returned(dataBuf, es, sts, At(i)) && Next(sts, At(i)) == At(GroupEnd(sts, i) + 1)
  {
  }

  /** Every descriptor can be reached, and sts are the statuses they hold. */
  ghost predicate StatusesAre(words: Words, b: Buffers, es: seq<Node>, sts: seq<Status>) {
    && |sts| == |es|
    && forall i {:trigger StatusIs(words, b, es[i], sts[i])} :: 0 <= i < |es| ==> StatusIs(words, b, es[i], sts[i])
  }

  ghost predicate StatusIs(words: Words, b: Buffers, e: Node, s: Status) {
    Fits(b.sg, e.sgOffset, b.d) && s == ReadAt(words, Phys(b.sg, e.sgOffset)).status
  }

  /** The status field of the descriptor of entry e. */
  method ReadStatus(ram: Ram, b: Buffers, e: SgEntry, ghost n: Node, ghost expected: Status) returns (s: Status)
    requires e.Value() == n && StatusIs(ram.words, b, n, expected)
    ensures s == expected
  {
    SlotIsLaidOut(b, e.sgOffset);
    s := ram.ReadStatus(b.sg, e.sgOffset + 28);
  }

  /** Only the last node of a ring is the one before the sentinel. */
  lemma {:induction false} AtTheTail(sentinel: SgEntry, nodes: seq<SgEntry>, j: nat)
    requires IsRing(sentinel, nodes) && j < |nodes|
    ensures nodes[j] == sentinel.prev <==> j + 1 == |nodes|
  {
    if j + 1 < |nodes| { RingDistinct(sentinel, nodes, j, |nodes| - 1); }
  }

  lemma {:induction false} StatusesRead(words: Words, b: Buffers, es: seq<Node>)
    requires Slotted(b, es)
    ensures StatusesAre(words, b, es, Statuses(words, b, es))
  {
  }

  lemma {:induction false} GroupStep(sts: seq<Status>, start: nat, j: nat, len: nat)
    requires start <= j < |sts| && len == Length32(sts, start, j)
    ensures Wrap32(len + sts[j].len) == Length32(sts, start, j + 1)
    ensures AnyFailed(sts, start, j + 1) <==> AnyFailed(sts, start, j) || Failed(sts[j])
    ensures GroupEnd(sts, j) == if sts[j].eof || j + 1 == |sts| then j else GroupEnd(sts, j + 1)
  {
    Length32Adds(sts, start, j);
  }

  /** The loop over the descriptors of one group; last is the entry it ends with. */
  method CollectGroup(sentinel: SgEntry, ram: Ram, b: Buffers, first: SgEntry,
                      ghost nodes: seq<SgEntry>, ghost es: seq<Node>, ghost sts: seq<Status>, ghost start: nat)
    returns (len: u32, failed: bool, last: SgEntry)
    requires IsRing(sentinel, nodes) && Values(nodes) == es && start < |nodes| == |sts| && first == nodes[start]
    requires StatusesAre(ram.words, b, es, sts)
    ensures var end := GroupEnd(sts, start);
            && last == nodes[end] && len == Length32(sts, start, end + 1)
            && (failed <==> AnyFailed(sts, start, end + 1))
  {
    len, failed := 0, false;
    last := first.prev;
    ghost var j: nat := start;
    var more := true;
    while more
      invariant start <= j <= |nodes|
      invariant last == if j > 0 then nodes[j - 1] else sentinel
      invariant more ==> j < |nodes| && GroupEnd(sts, start) == GroupEnd(sts, j)
      invariant !more ==> j > start && GroupEnd(sts, start) == j - 1
      invariant len == Length32(sts, start, j)
      invariant failed <==> AnyFailed(sts, start, j)
      decreases |nodes| - j, more
    {
      last := last.next;
      AtTheTail(sentinel, nodes, j);
      GroupStep(sts, start, j, len);
      assert StatusIs(ram.words, b, es[j], sts[j]);
      var status := ReadStatus(ram, b, last, es[j], sts[j]);
      len := Wrap32(len + status.len);
      failed := failed || !status.complete || status.decodeErr || status.intErr || status.slaveErr;
      j := j + 1;
      if last == sentinel.prev {
        more := false;
      } else {
        more := !status.eof;
      }
    }
  }
}
