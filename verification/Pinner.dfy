/** The pinner module: its commands, working in place on the users list and the page counts. */
module Pinner {
  import opened Machine
  import opened Physlist
  import opened PageSplit
  import opened PinState

  /** `struct pinning`. */
  datatype PinRecord = PinRecord(sglist: seq<ScatterEntry>, magic: u32)

  function PagesIn(sg: seq<ScatterEntry>): (pages: seq<Page>)
    ensures |pages| == |sg| && forall i {:trigger pages[i]} :: 0 <= i < |sg| ==> pages[i] == sg[i].page
  {
    if sg == [] then [] else PagesIn(sg[..|sg| - 1]) + [sg[|sg| - 1].page]
  }

  function PinningOf(r: PinRecord): Pinning {
    Pinning(PagesIn(r.sglist), r.magic)
  }

  function PinningsOf(rs: seq<PinRecord>): (ps: seq<Pinning>)
    ensures |ps| == |rs| && forall i {:trigger ps[i]} :: 0 <= i < |rs| ==> ps[i] == PinningOf(rs[i])
  {
    if rs == [] then [] else [PinningOf(rs[0])] + PinningsOf(rs[1..])
  }

  lemma {:induction false} PinningsWithout(rs: seq<PinRecord>, i: nat)
    requires i < |rs|
    ensures PinningsOf(Without(rs, i)) == Without(PinningsOf(rs), i)
  {
  }

  lemma {:induction false} MatchIs(rs: seq<PinRecord>, magic: u32, i: nat)
    requires i <= |rs| && (forall j :: 0 <= j < i ==> rs[j].magic != magic) && (i < |rs| ==> rs[i].magic == magic)
    ensures Match(PinningsOf(rs), magic) == i
  {
    var ps := PinningsOf(rs);
    var m := Match(ps, magic);
    assert i < |ps| ==> ps[i].magic == magic;
    assert m < |ps| ==> rs[m].magic == magic;
  }

  /** `struct proc_info`; the kernel's linked list of pinnings is a sequence, head first. */
  class ProcInfo {
    const id: nat
    const magic: u32
    var pinningList: seq<PinRecord>

    constructor (id: nat, magic: u32)
      ensures this.id == id && this.magic == magic && pinningList == []
    {
      this.id, this.magic, pinningList := id, magic, [];
    }

    ghost function Value(): File
      reads `pinningList
    {
      File(id, magic, PinningsOf(pinningList))
    }
  }

  ghost function Files(us: seq<ProcInfo>): (fs: seq<File>)
    reads us`pinningList
    ensures |fs| == |us| && forall i {:trigger fs[i]} :: 0 <= i < |us| ==> fs[i] == us[i].Value()
  {
    if us == [] then [] else Files(us[..|us| - 1]) + [us[|us| - 1].Value()]
  }

  /** No two users are the same open file. */
  predicate Distinct(us: seq<ProcInfo>) {
    forall i, j :: 0 <= i < j < |us| ==> us[i].id != us[j].id
  }

  lemma {:induction false} DistinctWithout(us: seq<ProcInfo>, i: nat)
    requires Distinct(us) && i < |us|
    ensures Distinct(Without(us, i))
    ensures forall j :: 0 <= j < |us| && j != i ==> us[j] != us[i]
  {
  }

  lemma {:induction false} DistinctWith(info: ProcInfo, us: seq<ProcInfo>)
    requires Distinct(us) && forall i :: 0 <= i < |us| ==> us[i].id != info.id
    ensures Distinct([info] + us)
  {
  }

  lemma {:induction false} FilesWithout(us: seq<ProcInfo>, i: nat, fs: seq<File>)
    requires i < |us| == |fs|
    requires forall j :: 0 <= j < |us| && j != i ==> us[j].Value() == fs[j]
    ensures Files(Without(us, i)) == Without(fs, i)
  {
    var us', fs' := Without(us, i), Without(fs, i);
    forall j | 0 <= j < |us'| ensures us'[j].Value() == fs'[j] {
      if j >= i { assert us'[j] == us[j + 1]; }
    }
  }

  lemma {:induction false} FilesWith(info: ProcInfo, us: seq<ProcInfo>)
    ensures Files([info] + us) == [info.Value()] + Files(us)
  {
  }

  lemma {:induction false} FilesWithChanged(us: seq<ProcInfo>, i: nat, fs: seq<File>)
    requires i < |us| == |fs|
    requires forall j :: 0 <= j < |us| && j != i ==> us[j].Value() == fs[j]
    ensures Files(us) == fs[i := us[i].Value()]
  {
  }

  /** What a write to the device brings. */
  datatype Request = BadSize | Unreadable | Unknown | Command(op: Op)

  datatype Reply = PinReply(answer: PinAnswer, handle: Handle, sent: seq<Extent>) | Code(ret: Errno)

  /** `dma_sync_sg_for_cpu` or `dma_sync_sg_for_device`, and the pinning it is called for. */
  datatype Direction = ForCpu | ForDevice
  datatype Sync = Sync(pinning: Pinning, dir: Direction)

  class Module {
    var users: seq<ProcInfo>
    /** The references the module has taken on pages, over those it started from. */
    var refs: Refs

    ghost predicate Valid()
      reads `users
    {
      Distinct(users)
    }

    ghost function State(): Kernel
      reads `users, `refs, users`pinningList
    {
      Kernel(Files(users), refs)
    }

    lemma {:induction false} FindIs(i: nat)
      requires Valid() && i < |users|
      ensures FindFile(Files(users), users[i].id) == i
    {
      var j := FindFile(Files(users), users[i].id);
      assert Files(users)[i].id == users[i].id;
      assert Files(users)[j].id == users[j].id;
    }

    lemma {:induction false} NotFound(id: nat)
      requires forall i :: 0 <= i < |users| ==> users[i].id != id
      ensures FindFile(Files(users), id) == |users|
    {
    }

    // ----- page references

    method PutPage(p: Page)
      modifies `refs
      ensures refs == old(refs)[p := Count(old(refs), p) - 1]
    {
      refs := refs[p := Count(refs, p) - 1];
    }

    /** `put_page_list`. */
    method PutPageList(p: array<Page>, numPages: int)
      requires 0 <= numPages <= p.Length
      modifies `refs
      ensures refs == PutAll(old(refs), p[..numPages])
    {
      var i := 0;
      while i < numPages
        invariant 0 <= i <= numPages
        invariant refs == PutAll(old(refs), p[..i])
      {
        assert p[..i + 1][..i] == p[..i];
        PutPage(p[i]);
        i := i + 1;
      }
    }

    /** `pinner_put_sglist_pages`. */
    method PutSglistPages(sglist: seq<ScatterEntry>)
      modifies `refs
      ensures refs == PutAll(old(refs), PagesIn(sglist))
    {
      var i := 0;
      while i < |sglist|
        invariant 0 <= i <= |sglist|
        invariant refs == PutAll(old(refs), PagesIn(sglist)[..i])
      {
        assert PagesIn(sglist)[..i + 1][..i] == PagesIn(sglist)[..i];
        PutPage(sglist[i].page);
        i := i + 1;
      }
      assert PagesIn(sglist)[..i] == PagesIn(sglist);
    }

    /** `get_user_pages_fast`, answering as env says: it takes a reference on each page it grabs. */
    method GetUserPages(p: array<Page>, env: PinEnv) returns (n: int)
      requires env.grabbed <= |env.pages| == p.Length
      modifies `refs, p
      ensures n == env.grabbed && p[..] == env.pages
      ensures refs == GetAll(old(refs), Grabbed(env))
    {
      forall i | 0 <= i < p.Length { p[i] := env.pages[i]; }
      var i := 0;
      while i < env.grabbed
        invariant 0 <= i <= |Grabbed(env)| && p[..] == env.pages
        invariant refs == GetAll(old(refs), Grabbed(env)[..i])
      {
        assert Grabbed(env)[..i + 1][..i] == Grabbed(env)[..i];
        refs := refs[p[i] := Count(refs, p[i]) + 1];
        i := i + 1;
      }
      assert Grabbed(env)[..i] == Grabbed(env);
      n := env.grabbed;
    }

    // ----- freeing

    /** `pinner_free_pinning`, for the i-th pinning of a file. */
    method FreePinning(info: ProcInfo, i: nat)
      requires i < |info.pinningList|
      modifies `refs, info`pinningList
      ensures info.pinningList == Without(old(info.pinningList), i)
      ensures refs == PutAll(old(refs), PinningOf(old(info.pinningList)[i]).pages)
    {
      PutSglistPages(info.pinningList[i].sglist);
      info.pinningList := info.pinningList[..i] + info.pinningList[i + 1..];
    }

    /** `pinner_free_pinnings`. */
    method FreePinnings(info: ProcInfo)
      modifies `refs, info`pinningList
      ensures info.pinningList == []
      ensures refs == PutPinnings(old(refs), PinningsOf(old(info.pinningList)))
    {
      while info.pinningList != []
        invariant PutPinnings(refs, PinningsOf(info.pinningList)) ==
                  PutPinnings(old(refs), PinningsOf(old(info.pinningList)))
        decreases |info.pinningList|
      {
        ghost var rs := info.pinningList;
        FreePinning(info, 0);
        assert Without(rs, 0) == rs[1..] && PinningsOf(rs)[1..] == PinningsOf(rs[1..]);
      }
    }

    /** `pinner_free_proc_info`, for the i-th user. */
    method FreeProcInfo(info: ProcInfo, i: nat)
      requires Valid() && i < |users| && users[i] == info
      modifies this, info`pinningList
      ensures Valid() && users == Without(old(users), i)
      ensures State() == Kernel(Without(old(Files(users)), i),
                                PutPinnings(old(refs), old(Files(users))[i].pinnings))
    {
      ghost var us, fs := users, Files(users);
      FreePinnings(info);
      FilesWithout(us, i, fs);
      DistinctWithout(us, i);
      users := Without(users, i);
    }

    // ----- commands

    /** `pinner_open`. */
    method Open(id: nat, canAlloc: bool, magic: u32) returns (info: ProcInfo?)
      requires Valid() && forall i :: 0 <= i < |users| ==> users[i].id != id
      modifies `users
      ensures Valid()
      ensures State() == Step(old(State()), OpenFile(id, canAlloc, magic))
      ensures if canAlloc then
                && info != null && fresh(info) && users == [info] + old(users)
                && info.id == id && info.magic == magic && info.pinningList == []
              else info == null && users == old(users)
      ensures refs == old(refs)
    {
      if !canAlloc {
        return null;
      }
      NotFound(id);
      var user := new ProcInfo(id, magic);
      FilesWith(user, users);
      DistinctWith(user, users);
      users := [user] + users;
      info := user;
    }

    /** `pinner_release`, for the file of the i-th user. */
    method Release(info: ProcInfo, i: nat)
      requires Valid() && i < |users| && users[i] == info
      modifies this, info`pinningList
      ensures Valid() && users == Without(old(users), i)
      ensures State() == Step(old(State()), ReleaseFile(info.id))
    {
      FindIs(i);
      FreeProcInfo(info, i);
    }

    /** The search both unpin and flush make, from the head of the list. */
    method FindPinning(info: ProcInfo, magic: u32) returns (i: nat)
      ensures i == Match(PinningsOf(info.pinningList), magic)
    {
      i := 0;
      while i < |info.pinningList| && info.pinningList[i].magic != magic
        invariant i <= |info.pinningList| && forall j :: 0 <= j < i ==> info.pinningList[j].magic != magic
      {
        i := i + 1;
      }
      MatchIs(info.pinningList, magic, i);
    }

    /**
     `pinner_do_flush`; synced lists the directions in which it asks for a pinning to be synchronised,
     in order. Bits 0 and 1 of the flags each suppress one.
     */
    method DoFlush(info: ProcInfo, handle: Handle, canCopy: bool, flags: u32) returns (ret: Errno, synced: seq<Sync>)
      ensures ret == Lookup(info.Value(), handle, canCopy)
      ensures ret != Ok ==> synced == []
      ensures ret == Ok ==>
                var p := info.Value().pinnings[Match(info.Value().pinnings, handle.pinMagic)];
                synced == (if flags % 2 == 0 then [Sync(p, ForCpu)] else []) +
                          (if flags / 2 % 2 == 0 then [Sync(p, ForDevice)] else [])
    {
      synced := [];
      if !canCopy {
        return EAGAIN, synced;
      }
      if handle.userMagic != info.magic {
        return EINVAL, synced;
      }
      var i := FindPinning(info, handle.pinMagic);
      if i == |info.pinningList| {
        return EINVAL, synced;
      }
      if flags % 2 == 0 {
        synced := synced + [Sync(PinningOf(info.pinningList[i]), ForCpu)];
      }
      if flags / 2 % 2 == 0 {
        synced := synced + [Sync(PinningOf(info.pinningList[i]), ForDevice)];
      }
      return Ok, synced;
    }

    /** `pinner_do_unpin`. */
    method DoUnpin(info: ProcInfo, handle: Handle, canCopy: bool) returns (ret: Errno)
      modifies `refs, info`pinningList
      ensures ret == Lookup(old(info.Value()), handle, canCopy)
      ensures ret != Ok ==> refs == old(refs) && info.Value() == old(info.Value())
      ensures ret == Ok ==>
                var ps := old(info.Value()).pinnings;
                var i := Match(ps, handle.pinMagic);
                && info.Value().pinnings == Without(ps, i)
                && refs == PutAll(old(refs), ps[i].pages)
    {
      if !canCopy {
        return EAGAIN;
      }
      if handle.userMagic != info.magic {
        return EINVAL;
      }
      var i := FindPinning(info, handle.pinMagic);
      if i == |info.pinningList| {
        return EINVAL;
      }
      FreePinning(info, i);
      PinningsWithout(old(info.pinningList), i);
      return Ok;
    }

    /** `pinner_do_pin`; sent is what the user's physlist then holds. */
    method DoPin(info: ProcInfo, env: PinEnv) returns (answer: PinAnswer, handle: Handle, sent: seq<Extent>)
      requires Legal(env)
      modifies `refs, info`pinningList
      ensures answer == PinAnswerFor(env)
      ensures refs == RefsAfterPin(old(refs), env)
      ensures info.Value().pinnings == PinningsAfterPin(old(info.Value()).pinnings, env, answer)
      ensures answer == Granted ==>
                && handle == Handle(info.magic, env.magic)
                && Pinned(sent, env.pages, env.addr % PAGE_SIZE, env.size)
    {
      handle, sent := Handle(0, 0), [];
      var start := PageStart(env.addr);
      PageStartRoundsDown(env.addr);
      var firstPgOffset: u32 := env.addr - start;
      var numPages := (firstPgOffset + env.size + (PAGE_SIZE - 1)) / PAGE_SIZE;
      if numPages > MAX_PAGES || numPages <= 0 {
        return Refused(EINVAL), handle, sent;
      }
      if !env.canAllocArray {
        return Refused(ENOMEM), handle, sent;
      }
      var p := new Page[numPages](_ => 0);
      var n := GetUserPages(p, env);
      assert p[..numPages] == env.pages;
      if n != numPages {
        PutPageList(p, numPages);
        return Refused(EAGAIN), handle, sent;
      }
      if !env.canAllocPinning {
        PutPageList(p, numPages);
        return Refused(ENOMEM), handle, sent;
      }
      var ret, sglist := AllocAndFillSglist(p, numPages, firstPgOffset, env.size, env.canAllocSglist);
      if ret != Ok {
        // freeing a pinning that has no scatterlist puts no page, and unlinks a node that was never linked
        return Oops, handle, sent;
      }
      answer, sent := Publish(info, env, sglist[..]);
      if answer == Granted {
        handle := Handle(info.magic, env.magic);
      }
    }

    /** The second half of `pinner_do_pin`: insert the pinning, and take it out again if anything fails. */
    method Publish(info: ProcInfo, env: PinEnv, sg: seq<ScatterEntry>) returns (answer: PinAnswer, sent: seq<Extent>)
      requires CoversAll(sg, env.pages, env.addr % PAGE_SIZE, env.size)
      modifies `refs, info`pinningList
      ensures answer == if !env.canMap then Refused(EMAP) else if !env.canAllocEntries then Refused(ENOMEM)
                        else if !env.copyCount || !env.copyEntries || !env.canCopyHandle then Refused(EAGAIN)
                        else Granted
      ensures answer == Granted ==> refs == old(refs) && sent == PhyslistOf(sg)
      ensures answer != Granted ==> refs == PutAll(old(refs), env.pages)
      ensures PinningsOf(info.pinningList) == PinningsAfterPin(PinningsOf(old(info.pinningList)), env, answer)
    {
      ghost var before := info.pinningList;
      assert PagesIn(sg) == env.pages;
      info.pinningList := [PinRecord(sg, env.magic)] + info.pinningList;
      assert info.pinningList[1..] == before && Without(info.pinningList, 0) == before;
      sent := [];
      if !env.canMap {
        FreePinning(info, 0);
        return Refused(EMAP), sent;
      }
      var ret;
      ret, sent := SendPhyslist(sg, env.canAllocEntries, env.copyCount, env.copyEntries);
      if ret != Ok {
        FreePinning(info, 0);
        return Refused(ret), sent;
      }
      if !env.canCopyHandle {
        FreePinning(info, 0);
        return Refused(EAGAIN), sent;
      }
      return Granted, sent;
    }

    /** `pinner_write`: what arrives is a command, unless it is malformed, unreadable or unknown. */
    method Write(info: ProcInfo, ghost u: nat, request: Request) returns (reply: Reply)
      requires Valid() && u < |users| && users[u] == info
      requires request.Command? ==>
                 (request.op.Pin? && Legal(request.op.env)) || request.op.Unpin? || request.op.Flush?
      requires request.Command? ==> request.op.id == info.id
      modifies `refs, info`pinningList
      ensures Valid() && users == old(users)
      ensures State() == if request.Command? then Step(old(State()), request.op) else old(State())
      ensures match request
              case BadSize => reply == Code(EINVAL)
              case Unreadable => reply == Code(EAGAIN)
              case Unknown => reply == Code(ENOSYS)
              case Command(op) =>
                if op.Pin? then
                  && reply.PinReply? && reply.answer == PinAnswerFor(op.env)
                  && (reply.answer == Granted ==>
                        && reply.handle == Handle(info.magic, op.env.magic)
                        && Pinned(reply.sent, op.env.pages, op.env.addr % PAGE_SIZE, op.env.size))
                else reply == Code(Lookup(old(info.Value()), op.handle, op.canCopy))
    {
      ghost var fs := Files(users);
      FindIs(u);
      match request
      case BadSize => reply := Code(EINVAL);
      case Unreadable => reply := Code(EAGAIN);
      case Unknown => reply := Code(ENOSYS);
      case Command(Pin(_, env)) =>
        var answer, handle, sent := DoPin(info, env);
        reply := PinReply(answer, handle, sent);
        FilesWithChanged(users, u, fs);
      case Command(Unpin(_, handle, canCopy)) =>
        var ret := DoUnpin(info, handle, canCopy);
        reply := Code(ret);
        FilesWithChanged(users, u, fs);
      case Command(Flush(_, handle, canCopy, flags)) =>
        var ret, synced := DoFlush(info, handle, canCopy, flags);
        reply := Code(ret);
    }

    /** One round of `pinner_exit`. */
    method FreeFirst()
      requires Valid() && users != []
      modifies this, (users[0] as ProcInfo)`pinningList
      ensures Valid() && users == old(users)[1..]
      ensures Unload(State()) == Unload(old(State()))
    {
      ghost var fs := Files(users);
      FreeProcInfo(users[0], 0);
      assert Without(fs, 0) == fs[1..];
    }

    /** `pinner_exit`. */
    method Exit()
      requires Valid()
      modifies this, users
      ensures State() == Unload(old(State())) && users == []
    {
      ghost var all := users;
      while users != []
        invariant Valid() && forall u :: u in users ==> u in all
        invariant Unload(State()) == Unload(old(State()))
        decreases |users|
      {
        assert users[0] in users;
        FreeFirst();
      }
      assert Files(users) == [];
    }
  }
}
