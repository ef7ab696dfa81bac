/** The example program: pin two buffers, run a session with them, and unpin them again. */
module ExampleProgram {
  import opened Physlist
  import opened SlotWalk
  import opened Carving
  import opened Framing
  import opened Ring
  import opened Descriptors
  import opened Traversal
  import opened Transfer
  import opened PageSplit
  import opened PinnedBuffers
  import opened PinState
  import opened PinTheorems
  import opened Pinner
  import opened Session

  /** The kernel grabs the pages the page table gives, and they are proper frames. */
  ghost predicate GrabsProperly(env: PinEnv, table: PageTable) {
    && Legal(env) && env.size > 0 && env.pages == PagesOf(table, env.addr, env.size)
    && ProperFrames(table, env.addr, env.size)
  }

  /** What a granted pin sends is the physlist of the buffer under the page table. */
  lemma {:induction false} GrantedIsWellPinned(env: PinEnv, table: PageTable, sent: seq<Extent>)
    requires GrabsProperly(env, table) && PinAnswerFor(env) == Granted
    requires Pinned(sent, env.pages, env.addr % PAGE_SIZE, env.size)
    ensures WellPinned(sent, table, env.addr, env.size)
  {
  }

  lemma {:induction false} SentIs(env: PinEnv, table: PageTable, sent: seq<Extent>, pl: seq<Extent>)
    requires GrabsProperly(env, table) && PinAnswerFor(env) == Granted
    requires Pinned(sent, env.pages, env.addr % PAGE_SIZE, env.size) && WellPinned(pl, table, env.addr, env.size)
    ensures sent == pl
  {
    PinnedUnique(sent, pl, env.pages, env.addr % PAGE_SIZE, env.size);
  }

  /** The second buffer is not pinned if the first one is refused. */
  ghost function AfterPins(k: Kernel, id: nat, sgEnv: PinEnv, dataEnv: PinEnv): (k': Kernel)
    requires Legal(sgEnv) && Legal(dataEnv)
    ensures PinAnswerFor(sgEnv) != Granted ==> k' == Step(k, Pin(id, sgEnv))
    ensures PinAnswerFor(sgEnv) == Granted ==> k' == Step(Step(k, Pin(id, sgEnv)), Pin(id, dataEnv))
  {
    var k1 := Step(k, Pin(id, sgEnv));
    if PinAnswerFor(sgEnv) == Granted then Step(k1, Pin(id, dataEnv)) else k1
  }

  /** Pins one buffer, and then another. */
  method PinBoth(m: Module, info: ProcInfo, ghost u: nat, sgEnv: PinEnv, dataEnv: PinEnv)
    returns (ok: bool, sg: Reply, data: Reply)
    requires m.Valid() && u < |m.users| && m.users[u] == info && Legal(sgEnv) && Legal(dataEnv)
    modifies m`refs, info`pinningList
    ensures m.Valid() && m.users == old(m.users)
    ensures ok <==> PinAnswerFor(sgEnv) == Granted && PinAnswerFor(dataEnv) == Granted
    ensures m.State() == AfterPins(old(m.State()), info.id, sgEnv, dataEnv)
    ensures ok ==>
              && m.State() == Step(Step(old(m.State()), Pin(info.id, sgEnv)), Pin(info.id, dataEnv))
              && sg.PinReply? && sg.handle == Handle(info.magic, sgEnv.magic)
              && Pinned(sg.sent, sgEnv.pages, sgEnv.addr % PAGE_SIZE, sgEnv.size)
              && data.PinReply? && data.handle == Handle(info.magic, dataEnv.magic)
              && Pinned(data.sent, dataEnv.pages, dataEnv.addr % PAGE_SIZE, dataEnv.size)
  {
    data := Code(Ok);
    sg := m.Write(info, u, Command(Pin(info.id, sgEnv)));
    if sg.answer != Granted {
      return false, sg, data;
    }
    data := m.Write(info, u, Command(Pin(info.id, dataEnv)));
    ok := data.answer == Granted;
  }

  /** Unpins one buffer, and then another. */
  method UnpinBoth(m: Module, info: ProcInfo, ghost u: nat, first: Handle, second: Handle)
    requires m.Valid() && u < |m.users| && m.users[u] == info
    modifies m`refs, info`pinningList
    ensures m.Valid() && m.users == old(m.users)
    ensures m.State() == Step(Step(old(m.State()), Unpin(info.id, first, true)), Unpin(info.id, second, true))
  {
    var reply := m.Write(info, u, Command(Unpin(info.id, first, true)));
    reply := m.Write(info, u, Command(Unpin(info.id, second, true)));
  }

  /** The buffers as the library sees them, and the list it is going to build. */
  ghost predicate Expecting(sgEnv: PinEnv, dataEnv: PinEnv, table: PageTable, d: DescSize, ops: seq<AddOp>,
                            device: Words -> Words, words: Words, b: Buffers, es: seq<Node>) {
    && WellPinned(b.sg, table, sgEnv.addr, sgEnv.size) && WellPinned(b.data, table, dataEnv.addr, dataEnv.size)
    && b.d == d && es == Run(b, ops).entries
    && |es| <= |SlotAddresses(b.sg, d)| && (Slotted(b, es) ==> DeviceFills(device, words, b, es))
  }

  /**
   The whole program. It goes through exactly when both pins are granted. Then, within the capacity of
   the descriptor buffer and with a device that fills every descriptor, the buffers received are all
   those added, in order and in full, and the module is left with the pinnings and page counts it had.
   Otherwise it stops at the pin that is refused.
   */
  method RunProgram(m: Module, info: ProcInfo, ghost u: nat, sgEnv: PinEnv, dataEnv: PinEnv, d: DescSize,
                    heap: Heap, ram: Ram, ops: seq<AddOp>, enableTimeout: bool, device: Words -> Words,
                    ghost table: PageTable, ghost b: Buffers, ghost es: seq<Node>)
    returns (ok: bool, received: seq<S2mmBuf>)
    requires m.Valid() && u < |m.users| && m.users[u] == info
    requires GrabsProperly(sgEnv, table) && GrabsProperly(dataEnv, table)
    requires PinAnswerFor(sgEnv) == Granted && PinAnswerFor(dataEnv) == Granted ==>
               Expecting(sgEnv, dataEnv, table, d, ops, device, ram.words, b, es)
    modifies m`refs, info`pinningList, heap, ram
    ensures m.Valid() && m.users == old(m.users)
    ensures ok <==> PinAnswerFor(sgEnv) == Granted && PinAnswerFor(dataEnv) == Granted
    ensures if ok then AllReceived(received, dataEnv.addr, b, ops) else received == []
    ensures ok ==> SameBooks(old(m.State()), m.State())
    ensures !ok ==>
              && m.State() == AfterPins(old(m.State()), info.id, sgEnv, dataEnv)
              && ram.words == old(ram.words) && heap.live == old(heap.live)
  {
    ghost var k := m.State();
    m.FindIs(u);
    received := [];
    var sg, data;
    ok, sg, data := PinBoth(m, info, u, sgEnv, dataEnv);
    if !ok {
      return;
    }
    received := UseBuffers(m, sgEnv, dataEnv, sg.sent, data.sent, d, heap, ram, ops, enableTimeout, device, table, b, es);
    UnpinBoth(m, info, u, data.handle, sg.handle);
    NoTrace(k, info.id, sgEnv, dataEnv);
  }

  /** The same files with the same pinnings, and the same count of every page. */
  ghost predicate SameBooks(k: Kernel, k': Kernel) {
    k'.users == k.users && forall p: Page :: Count(k'.refs, p) == Count(k.refs, p)
  }

  lemma {:induction false} NoTrace(k: Kernel, id: nat, e1: PinEnv, e2: PinEnv)
    requires Legal(e1) && PinAnswerFor(e1) == Granted && Legal(e2) && PinAnswerFor(e2) == Granted
    requires FindFile(k.users, id) < |k.users|
    ensures var magic := k.users[FindFile(k.users, id)].magic;
            var k2 := Step(Step(k, Pin(id, e1)), Pin(id, e2));
            var k3 := Step(k2, Unpin(id, Handle(magic, e2.magic), true));
            SameBooks(k, Step(k3, Unpin(id, Handle(magic, e1.magic), true)))
  {
    var magic := k.users[FindFile(k.users, id)].magic;
    var k2 := Step(Step(k, Pin(id, e1)), Pin(id, e2));
    var k3 := Step(k2, Unpin(id, Handle(magic, e2.magic), true));
    var k4 := Step(k3, Unpin(id, Handle(magic, e1.magic), true));
    PinTwiceThenUnpin(k, id, e1, e2, 0);
    forall p: Page ensures Count(k4.refs, p) == Count(k.refs, p) { PinTwiceThenUnpin(k, id, e1, e2, p); }
  }

  /** All the buffers added, in order and in full. */
  ghost predicate AllReceived(received: seq<S2mmBuf>, dataAddr: nat, b: Buffers, ops: seq<AddOp>) {
    && |received| == |Sizes(b, ops)|
    && forall k :: 0 <= k < |received| ==>
         received[k] == S2mmBuf(dataAddr + Sum(Sizes(b, ops)[..k]), Sizes(b, ops)[k], TransferSuccess)
  }

  /** What happens between pinning and unpinning; the module has no part in it. */
  method UseBuffers(ghost m: Module, sgEnv: PinEnv, dataEnv: PinEnv, sg: seq<Extent>, data: seq<Extent>, d: DescSize,
                    heap: Heap, ram: Ram, ops: seq<AddOp>, enableTimeout: bool, device: Words -> Words,
                    ghost table: PageTable, ghost b: Buffers, ghost es: seq<Node>)
    returns (received: seq<S2mmBuf>)
    requires GrabsProperly(sgEnv, table) && PinAnswerFor(sgEnv) == Granted
    requires GrabsProperly(dataEnv, table) && PinAnswerFor(dataEnv) == Granted
    requires Pinned(sg, sgEnv.pages, sgEnv.addr % PAGE_SIZE, sgEnv.size)
    requires Pinned(data, dataEnv.pages, dataEnv.addr % PAGE_SIZE, dataEnv.size)
    requires Expecting(sgEnv, dataEnv, table, d, ops, device, ram.words, b, es)
    modifies heap, ram
    ensures m.State() == old(m.State()) && AllReceived(received, dataEnv.addr, b, ops)
  {
    GrantedIsWellPinned(sgEnv, table, sg);
    GrantedIsWellPinned(dataEnv, table, data);
    SentIs(sgEnv, table, sg, b.sg);
    SentIs(dataEnv, table, data, b.data);
    received := RunPinnedSession(heap, ram, sgEnv.addr, sg, dataEnv.addr, data, d, ops, enableTimeout, device,
                                 table, sgEnv.size, dataEnv.size, b, es);
  }
}
