/** A whole session, as the example program runs it: add, write, transfer, and take the buffers back. */
module Session {
  import opened Machine
  import opened Physlist
  import opened SlotWalk
  import opened Carving
  import opened Framing
  import opened Ring
  import opened SgLists
  import opened Descriptors
  import opened Traversal
  import opened RoundTrip
  import opened Transfer
  import opened PageSplit
  import opened PinnedBuffers

  /** Adds buffers to a new list, one call after the other. */
  method AddAll(heap: Heap, lst: SgList, ops: seq<AddOp>)
    requires lst.Valid() && lst.nodes == [] && lst.State() == FRESH
    modifies lst`sgOffset, lst`dataOffset, lst`nodes, heap, lst.sentinel`prev, lst.sentinel`next
    ensures lst.Valid() && lst.State() == Run(lst.b, ops)
    ensures fresh(NodeSet(lst.nodes)) && heap.live == old(heap.live) + NodeSet(lst.nodes)
  {
    var i := 0;
    ghost var st, nodes := lst.State(), lst.nodes;
    while i < |ops|
      invariant 0 <= i <= |ops| && lst.Valid()
      invariant lst.State() == st == Run(lst.b, ops[..i])
      invariant lst.nodes == nodes && fresh(NodeSet(nodes)) && heap.live == old(heap.live) + NodeSet(nodes)
    {
      assert lst.sentinel.prev == lst.sentinel || lst.sentinel.prev in NodeSet(nodes);
      RunNext(lst.b, ops, i);
      var code, added := lst.AddEntry(heap, ops[i].sz, ops[i].mallocs);
      NodesGrow(nodes, lst.nodes, added, code == AddSuccess);
      st, nodes := lst.State(), lst.nodes;
      i := i + 1;
    }
    assert ops[..i] == ops;
  }

  lemma {:induction false} RunNext(b: Buffers, ops: seq<AddOp>, i: nat)
    requires i < |ops|
    ensures Run(b, ops[..i + 1]) == AddStep(b, Run(b, ops[..i]), ops[i].sz, ops[i].mallocs)
  {
    assert ops[..i + 1][..i] == ops[..i];
  }

  lemma {:induction false} NodesGrow(before: seq<SgEntry>, after: seq<SgEntry>, added: seq<SgEntry>, grown: bool)
    requires after == if grown then before + added else before
    ensures NodeSet(after) == NodeSet(before) + if grown then NodeSet(added) else {}
  {
  }

  method BuildList(heap: Heap, sgBuf: nat, dataBuf: nat, b: Buffers, ops: seq<AddOp>) returns (lst: SgList)
    modifies heap
    ensures fresh(lst) && lst.Valid() && Values(lst.nodes) == Run(b, ops).entries && lst.toVisit == null
    ensures lst.b == b && lst.dataBuf == dataBuf
    ensures heap.live == old(heap.live) + NodeSet(lst.nodes)
  {
    lst := new SgList(sgBuf, dataBuf, b);
    AddAll(heap, lst, ops);
  }

  /** These are the first buffers that a walk from pos returns. */
  predicate AreReturned(received: seq<S2mmBuf>, dataBuf: nat, es: seq<Node>, sts: seq<Status>, pos: Position)
    requires |sts| == |es| && Possible(sts, pos)
  {
    forall k :: 0 <= k < |received| ==>
      received[k] == Returned(dataBuf, es, sts, Walk(sts, pos, k)) && received[k].code != EndOfList
  }

  /** Dequeues buffers until the end of the list is reported. */
  method Receive(lst: SgList, ram: Ram, ghost es: seq<Node>, ghost sts: seq<Status>, ghost pos: Position)
    returns (received: seq<S2mmBuf>)
    requires lst.Valid() && Values(lst.nodes) == es && StatusesAre(ram.words, lst.b, es, sts)
    requires StandsAt(lst, pos) && (pos == At(0) || pos == Unset)
    modifies lst`toVisit
    ensures AreReturned(received, lst.dataBuf, es, sts, pos)
    ensures Returned(lst.dataBuf, es, sts, Walk(sts, pos, |received|)).code == EndOfList
  {
    received := [];
    ghost var n, at := |Groups(sts, 0)|, pos;
    var buf := DequeueS2mmBuf(lst, ram, es, sts, pos);
    while buf.code != EndOfList
      invariant lst.Valid() && Values(lst.nodes) == es
      invariant at == Walk(sts, pos, |received|) && StandsAt(lst, Next(sts, at))
      invariant buf == Returned(lst.dataBuf, es, sts, at)
      invariant AreReturned(received, lst.dataBuf, es, sts, pos)
      invariant |received| <= n
      decreases n - |received|
    {
      StillGoing(lst.dataBuf, es, sts, pos, |received|);
      OneMoreReturned(received, lst.dataBuf, es, sts, pos, buf);
      received := received + [buf];
      at := Next(sts, at);
      buf := DequeueS2mmBuf(lst, ram, es, sts, at);
    }
  }

  lemma {:induction false} OneMoreReturned(received: seq<S2mmBuf>, dataBuf: nat, es: seq<Node>, sts: seq<Status>,
                                           pos: Position, buf: S2mmBuf)
    requires |sts| == |es| && Possible(sts, pos) && AreReturned(received, dataBuf, es, sts, pos)
    requires buf == Returned(dataBuf, es, sts, Walk(sts, pos, |received|)) && buf.code != EndOfList
    ensures AreReturned(received + [buf], dataBuf, es, sts, pos)
    ensures Walk(sts, pos, |received| + 1) == Next(sts, Walk(sts, pos, |received|))
  {
  }

  lemma {:induction false} StillGoing(dataBuf: nat, es: seq<Node>, sts: seq<Status>, pos: Position, k: nat)
    requires |sts| == |es| && (pos == At(0) || pos == Unset)
    requires Returned(dataBuf, es, sts, Walk(sts, pos, k)).code != EndOfList
    ensures k < |Groups(sts, 0)|
  {
    if pos == Unset { WalkFromUnset(sts, k); } else { WalkEnds(dataBuf, es, sts, 0, k); }
  }

  lemma {:induction false} WalkFromUnset(sts: seq<Status>, k: nat)
    ensures Walk(sts, Unset, k) == Unset
  {
    if k > 0 { WalkFromUnset(sts, k - 1); }
  }

  // ----- starting a transfer

  /** However the sentinel's offset happens to be, the device fills every descriptor of the list once written. */
  ghost predicate DeviceFills(device: Words -> Words, words: Words, b: Buffers, es: seq<Node>)
    requires Slotted(b, es)
  {
    forall sentinelOffset: u32 ::
      var written := Written(words, b, es, sentinelOffset);
      FilledByDevice(written, device(written), b, es)
  }

  /** The registers name the first and the last descriptor of the chain in memory. */
  ghost predicate Programmed(ctx: AxidmaCtx, words: Words, b: Buffers, es: seq<Node>, enableTimeout: bool)
    requires Slotted(b, es)
    reads ctx
  {
    && |es| > 0
    && var chain := Chain(words, Address(b, es, 0), |es|);
       && ctx.curdescLsb == chain[0] % U32 && ctx.curdescMsb == chain[0] / U32
       && ctx.taildescLsb == chain[|es| - 1] % U32 && ctx.taildescMsb == chain[|es| - 1] / U32
       && ctx.dmacr == ControlValue(enableTimeout, EofCount(es))
  }

  lemma {:induction false} ChainEnds(words: Words, b: Buffers, es: seq<Node>, sentinelOffset: u32)
    requires Slotted(b, es) && |es| > 0
    ensures var chain := Chain(Written(words, b, es, sentinelOffset), Address(b, es, 0), |es|);
            && chain[0] == PhysOrNull(b.sg, es[0].sgOffset)
            && chain[|es| - 1] == PhysOrNull(b.sg, es[|es| - 1].sgOffset)
  {
    ChainFollowsList(words, b, es, sentinelOffset, 0);
    ChainFollowsList(words, b, es, sentinelOffset, |es| - 1);
  }

  /** Writes a list and starts the transfer. */
  method Send(ctx: AxidmaCtx, lst: SgList, ram: Ram, ghost es: seq<Node>, enableTimeout: bool) returns (started: bool)
    requires ctx.lst == null && lst.Valid() && Values(lst.nodes) == es && lst.toVisit == null
    requires Slotted(lst.b, es)
    modifies ctx, lst`toVisit, ram
    ensures lst.Valid() && Values(lst.nodes) == es && StandsAt(lst, if es == [] then Unset else At(0))
    ensures started <==> EofCount(es) > 0
    ensures ram.words ==
            if es == [] then old(ram.words) else Written(old(ram.words), lst.b, es, lst.sentinel.sgOffset)
    ensures started ==> Programmed(ctx, ram.words, lst.b, es, enableTimeout)
  {
    ctx.WriteSgList(lst, ram, es);
    if es != [] { ChainEnds(old(ram.words), lst.b, es, lst.sentinel.sgOffset); }
    started := Start(ctx, lst, es, enableTimeout);
  }

  /** The transfer only touches registers. */
  method Start(ctx: AxidmaCtx, lst: SgList, ghost es: seq<Node>, enableTimeout: bool) returns (started: bool)
    requires lst.Valid() && Values(lst.nodes) == es && Slotted(lst.b, es)
    requires ctx.lst == if es == [] then null else lst
    modifies ctx
    ensures lst.Valid() && Values(lst.nodes) == es
    ensures started <==> EofCount(es) > 0
    ensures started ==> |es| > 0 && ctx.dmacr == ControlValue(enableTimeout, EofCount(es))
    ensures started ==>
              var head := PhysOrNull(lst.b.sg, es[0].sgOffset);
              ctx.curdescLsb == head % U32 && ctx.curdescMsb == head / U32
    ensures started ==>
              var tail := PhysOrNull(lst.b.sg, es[|es| - 1].sgOffset);
              ctx.taildescLsb == tail % U32 && ctx.taildescMsb == tail / U32
  {
    started := ctx.S2mmTransfer(enableTimeout, es);
  }

  /** The device does its part if the transfer has been started. */
  method Fill(ram: Ram, started: bool, device: Words -> Words)
    modifies ram
    ensures ram.words == if started then device(old(ram.words)) else old(ram.words)
  {
    if started {
      ram.words := device(ram.words);
    }
  }

  /** The device does its part if the transfer has been started; then the buffers are taken back. */
  method Collect(lst: SgList, ram: Ram, started: bool, device: Words -> Words, ghost es: seq<Node>, ghost pos: Position)
    returns (received: seq<S2mmBuf>)
    requires lst.Valid() && Values(lst.nodes) == es && Slotted(lst.b, es)
    requires StandsAt(lst, pos) && (pos == At(0) || pos == Unset)
    modifies lst`toVisit, ram
    ensures lst.Valid() && Values(lst.nodes) == es
    ensures ram.words == if started then device(old(ram.words)) else old(ram.words)
    ensures var sts := Statuses(ram.words, lst.b, es);
            && AreReturned(received, lst.dataBuf, es, sts, pos)
            && Returned(lst.dataBuf, es, sts, Walk(sts, pos, |received|)).code == EndOfList
  {
    Fill(ram, started, device);
    received := TakeBack(lst, ram, es, pos);
  }

  /** Dequeues until the end, whatever the statuses in memory are. */
  method TakeBack(lst: SgList, ram: Ram, ghost es: seq<Node>, ghost pos: Position) returns (received: seq<S2mmBuf>)
    requires lst.Valid() && Values(lst.nodes) == es && Slotted(lst.b, es)
    requires StandsAt(lst, pos) && (pos == At(0) || pos == Unset)
    modifies lst`toVisit
    ensures lst.Valid() && Values(lst.nodes) == es
    ensures var sts := Statuses(ram.words, lst.b, es);
            && AreReturned(received, lst.dataBuf, es, sts, pos)
            && Returned(lst.dataBuf, es, sts, Walk(sts, pos, |received|)).code == EndOfList
  {
    StatusesRead(ram.words, lst.b, es);
    received := Receive(lst, ram, es, Statuses(ram.words, lst.b, es), pos);
  }

  /** Sends a list, and takes back what comes. */
  method Exchange(lst: SgList, ram: Ram, ghost es: seq<Node>, enableTimeout: bool, device: Words -> Words)
    returns (ctx: AxidmaCtx, started: bool, received: seq<S2mmBuf>, ghost written: Words)
    requires lst.Valid() && Values(lst.nodes) == es && lst.toVisit == null && Slotted(lst.b, es)
    modifies lst`toVisit, ram
    ensures fresh(ctx) && lst.Valid() && Values(lst.nodes) == es
    ensures started <==> EofCount(es) > 0
    ensures written == if es == [] then old(ram.words) else Written(old(ram.words), lst.b, es, lst.sentinel.sgOffset)
    ensures started ==> Programmed(ctx, written, lst.b, es, enableTimeout)
    ensures ram.words == if started then device(written) else written
    ensures var pos, sts := if es == [] then Unset else At(0), Statuses(ram.words, lst.b, es);
            && AreReturned(received, lst.dataBuf, es, sts, pos)
            && Returned(lst.dataBuf, es, sts, Walk(sts, pos, |received|)).code == EndOfList
  {
    ctx := new AxidmaCtx();
    started := Send(ctx, lst, ram, es, enableTimeout);
    written := ram.words;
    received := Collect(lst, ram, started, device, es, if es == [] then Unset else At(0));
  }

  // ----- everything comes back

  /** What was received are the buffers added, in order and at their places. */
  ghost predicate AllBack(received: seq<S2mmBuf>, dataBuf: nat, b: Buffers, ops: seq<AddOp>) {
    var frames, sizes := Frames(b, ops), Sizes(b, ops);
    && |received| == |sizes| == |frames|
    && forall k :: 0 <= k < |received| ==> IsBuffer(received[k], dataBuf + Sum(sizes[..k]), sizes[k], frames[k])
  }

  /** A list is empty exactly when no add succeeded. */
  lemma {:induction false} EmptyExactly(b: Buffers, ops: seq<AddOp>)
    ensures Run(b, ops).entries == [] <==> Sizes(b, ops) == []
    ensures EofCount(Run(b, ops).entries) == |Sizes(b, ops)| == |Frames(b, ops)|
  {
    RunIsFramed(b, ops);
    RunEofCount(b, ops);
    if Run(b, ops).entries == [] { assert EofCount([]) == 0; }
  }

  /**
   The session: a new list, any calls of add, the list written, the transfer started, and buffers
   dequeued until the end is reported. For a list within the capacity of its descriptor buffer and a
   device that fills every descriptor, the buffers received are exactly those added.
   */
  method RunSession(heap: Heap, ram: Ram, sgBuf: nat, dataBuf: nat, b: Buffers, ops: seq<AddOp>,
                    enableTimeout: bool, device: Words -> Words)
    returns (ctx: AxidmaCtx, lst: SgList, started: bool, received: seq<S2mmBuf>,
             ghost es: seq<Node>, ghost written: Words)
    requires Slotted(b, Run(b, ops).entries) && DeviceFills(device, ram.words, b, Run(b, ops).entries)
    modifies heap, ram
    ensures es == Run(b, ops).entries && Slotted(b, es)
    ensures fresh(lst) && lst.Valid() && Values(lst.nodes) == es
    ensures heap.live == old(heap.live) + NodeSet(lst.nodes)
    ensures written == if es == [] then old(ram.words) else Written(old(ram.words), b, es, lst.sentinel.sgOffset)
    ensures ram.words == if started then device(written) else written
    ensures started <==> Sizes(b, ops) != []
    ensures started ==> Programmed(ctx, written, b, es, enableTimeout)
    ensures AllBack(received, dataBuf, b, ops)
  {
    es := Run(b, ops).entries;
    lst := BuildList(heap, sgBuf, dataBuf, b, ops);
    ctx, started, received, written := Exchange(lst, ram, es, enableTimeout, device);
    Closing(received, b, ops, es, old(ram.words), device, lst.sentinel.sgOffset, dataBuf, started, written, ram.words);
  }

  /** The registers then, as numbers. */
  lemma {:induction false} ProgrammedMeans(ctx: AxidmaCtx, words: Words, b: Buffers, es: seq<Node>, enableTimeout: bool)
    requires Slotted(b, es) && Programmed(ctx, words, b, es, enableTimeout)
    ensures var chain := Chain(words, Address(b, es, 0), |es|);
            && |es| > 0
            && ctx.curdescLsb == chain[0] % 0x1_0000_0000 && ctx.curdescMsb == chain[0] / 0x1_0000_0000
            && ctx.taildescLsb == chain[|es| - 1] % 0x1_0000_0000
            && ctx.taildescMsb == chain[|es| - 1] / 0x1_0000_0000
    ensures ctx.dmacr / 0x1_0000 % 0x100 == EofCount(es) % 0x100
  {
    ThresholdRead(enableTimeout, EofCount(es));
  }

  /** The buffers then: each at its place, and whole exactly when its entries are short enough for a descriptor. */
  lemma {:induction false} AllBackMeans(received: seq<S2mmBuf>, dataBuf: nat, b: Buffers, ops: seq<AddOp>, k: nat)
    requires AllBack(received, dataBuf, b, ops) && k < |received|
    ensures |received| == |Sizes(b, ops)| == |Frames(b, ops)|
    ensures received[k].base == dataBuf + Sum(Sizes(b, ops)[..k]) && received[k].code == TransferSuccess
    ensures received[k].len <= Sizes(b, ops)[k]
    ensures received[k].len == Sizes(b, ops)[k] <==> forall e :: e in Frames(b, ops)[k] ==> e.len < 0x400_0000
  {
    ShortMeans(Frames(b, ops)[k]);
  }

  /** What the walk returned until it ended are the buffers added. */
  lemma {:induction false} Closing(received: seq<S2mmBuf>, b: Buffers, ops: seq<AddOp>, es: seq<Node>,
                                   words: Words, device: Words -> Words, sentinelOffset: u32, dataBuf: nat,
                                   started: bool, written: Words, after: Words)
    requires es == Run(b, ops).entries && Slotted(b, es) && DeviceFills(device, words, b, es)
    requires started <==> EofCount(es) > 0
    requires written == if es == [] then words else Written(words, b, es, sentinelOffset)
    requires after == if started then device(written) else written
    requires var pos, sts := if es == [] then Unset else At(0), Statuses(after, b, es);
             && AreReturned(received, dataBuf, es, sts, pos)
             && Returned(dataBuf, es, sts, Walk(sts, pos, |received|)).code == EndOfList
    ensures AllBack(received, dataBuf, b, ops)
    ensures started <==> Sizes(b, ops) != []
  {
    EmptyExactly(b, ops);
    if es != [] {
      var n := |Sizes(b, ops)|;
      AddedIsBuffer(b, ops, words, after, sentinelOffset, dataBuf, |received|);
      if |received| > n {
        AddedIsBuffer(b, ops, words, after, sentinelOffset, dataBuf, n);
      }
      forall k | 0 <= k < |received|
        ensures IsBuffer(received[k], dataBuf + Sum(Sizes(b, ops)[..k]), Sizes(b, ops)[k], Frames(b, ops)[k])
      {
        AddedIsBuffer(b, ops, words, after, sentinelOffset, dataBuf, k);
      }
    }
  }

  /**
   The same with two pinned buffers: within the capacity of the descriptor buffer every buffer added
   is received, in full.
   */
  method RunPinnedSession(heap: Heap, ram: Ram, sgAddr: u64, sg: seq<Extent>, dataAddr: u64, data: seq<Extent>,
                          d: DescSize, ops: seq<AddOp>, enableTimeout: bool, device: Words -> Words,
                          ghost table: PageTable, ghost sgSize: u32, ghost dataSize: u32,
                          ghost b: Buffers, ghost es: seq<Node>)
    returns (received: seq<S2mmBuf>)
    requires WellPinned(sg, table, sgAddr, sgSize)
    requires WellPinned(data, table, dataAddr, dataSize)
    requires b == BufferPair(sg, data, d) && es == Run(b, ops).entries
    requires |es| <= |SlotAddresses(sg, d)| && (Slotted(b, es) ==> DeviceFills(device, ram.words, b, es))
    modifies heap, ram
    ensures |received| == |Sizes(b, ops)|
    ensures forall k :: 0 <= k < |received| ==>
              received[k] == S2mmBuf(dataAddr + Sum(Sizes(b, ops)[..k]), Sizes(b, ops)[k], TransferSuccess)
  {
    var pair := PinnedPair(sg, data, d, table, sgAddr, sgSize, dataAddr, dataSize);
    PinnedIsWellFormed(sg, table, sgAddr, sgSize);
    RunIsSlotted(b, ops);
    var ctx, lst, started;
    ghost var es', written;
    ctx, lst, started, received, es', written := RunSession(heap, ram, sgAddr, dataAddr, pair, ops, enableTimeout, device);
    PinnedAllBack(received, dataAddr, b, ops, table, dataSize);
  }

  lemma {:induction false} PinnedAllBack(received: seq<S2mmBuf>, dataAddr: u64, b: Buffers, ops: seq<AddOp>,
                                         table: PageTable, dataSize: u32)
    requires PinnedFor(b.data, table, dataAddr, dataSize) && AllBack(received, dataAddr, b, ops)
    ensures |received| == |Sizes(b, ops)|
    ensures forall k :: 0 <= k < |received| ==>
              received[k] == S2mmBuf(dataAddr + Sum(Sizes(b, ops)[..k]), Sizes(b, ops)[k], TransferSuccess)
  {
    PinnedIsPaged(b.data, table, dataAddr, dataSize);
    forall k | 0 <= k < |received|
      ensures received[k] == S2mmBuf(dataAddr + Sum(Sizes(b, ops)[..k]), Sizes(b, ops)[k], TransferSuccess)
    {
      FrameIsShort(b, ops, k);
    }
  }
}
