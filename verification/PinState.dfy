/** The pinner's bookkeeping on values: open files, their pinnings, and the page reference counts. */
module PinState {
  import opened Machine
  import opened PageSplit

  // ----- reference counts

  /** References taken on each page; a page not in the map has none. Counts may be driven below zero. */
  type Refs = map<Page, int>

  function Count(refs: Refs, p: Page): int {
    if p in refs then refs[p] else 0
  }

  /** `put_page` on each of some pages, one after the other. */
  function PutAll(refs: Refs, pages: seq<Page>): Refs {
    if pages == [] then refs
    else
      var before, p := PutAll(refs, pages[..|pages| - 1]), pages[|pages| - 1];
      before[p := Count(before, p) - 1]
  }

  /** One reference taken on each of some pages. */
  function GetAll(refs: Refs, pages: seq<Page>): Refs {
    if pages == [] then refs
    else
      var before, p := GetAll(refs, pages[..|pages| - 1]), pages[|pages| - 1];
      before[p := Count(before, p) + 1]
  }

  /** How often a page occurs in a list of pages. */
  function Occurs(pages: seq<Page>, p: Page): nat {
    if pages == [] then 0 else Occurs(pages[..|pages| - 1], p) + (if pages[|pages| - 1] == p then 1 else 0)
  }

  lemma {:induction false} PutCounts(refs: Refs, pages: seq<Page>, p: Page)
    ensures Count(PutAll(refs, pages), p) == Count(refs, p) - Occurs(pages, p)
  {
    if pages != [] { PutCounts(refs, pages[..|pages| - 1], p); }
  }

  lemma {:induction false} GetCounts(refs: Refs, pages: seq<Page>, p: Page)
    ensures Count(GetAll(refs, pages), p) == Count(refs, p) + Occurs(pages, p)
  {
    if pages != [] { GetCounts(refs, pages[..|pages| - 1], p); }
  }

  lemma {:induction false} OccursConcat(s: seq<Page>, t: seq<Page>, p: Page)
    ensures Occurs(s + t, p) == Occurs(s, p) + Occurs(t, p)
  {
    if t == [] {
      assert s + t == s;
    } else {
      assert (s + t)[..|s + t| - 1] == s + t[..|t| - 1];
      OccursConcat(s, t[..|t| - 1], p);
    }
  }

  // ----- pinnings and files

  /** `struct pinning`: the pages its scatterlist names, and its magic. */
  datatype Pinning = Pinning(pages: seq<Page>, magic: u32)

  /** `struct proc_info`; id is the open file it belongs to. */
  datatype File = File(id: nat, magic: u32, pinnings: seq<Pinning>)

  datatype Kernel = Kernel(users: seq<File>, refs: Refs)

  /** Scatterlist slots of a file's live pinnings that name page p. */
  function Held(pinnings: seq<Pinning>, p: Page): nat {
    if pinnings == [] then 0 else Occurs(pinnings[0].pages, p) + Held(pinnings[1..], p)
  }

  /** The same over all files. */
  function HeldByAll(users: seq<File>, p: Page): nat {
    if users == [] then 0 else Held(users[0].pinnings, p) + HeldByAll(users[1..], p)
  }

  /** Over its base, every page has exactly one reference for each slot of a live pinning that names it. */
  ghost predicate Conserved(base: Refs, k: Kernel) {
    forall p: Page :: Count(k.refs, p) == Count(base, p) + HeldByAll(k.users, p)
  }

  function Without<T>(s: seq<T>, i: nat): seq<T>
    requires i < |s|
  {
    s[..i] + s[i + 1..]
  }

  lemma {:induction false} HeldWithout(pinnings: seq<Pinning>, i: nat, p: Page)
    requires i < |pinnings|
    ensures Held(pinnings, p) == Held(Without(pinnings, i), p) + Occurs(pinnings[i].pages, p)
    decreases i
  {
    if i > 0 {
      HeldWithout(pinnings[1..], i - 1, p);
      assert Without(pinnings, i)[1..] == Without(pinnings[1..], i - 1);
    } else {
      assert Without(pinnings, 0) == pinnings[1..];
    }
  }

  lemma {:induction false} AllWithout(users: seq<File>, i: nat, p: Page)
    requires i < |users|
    ensures HeldByAll(users, p) == HeldByAll(Without(users, i), p) + Held(users[i].pinnings, p)
    decreases i
  {
    if i > 0 {
      AllWithout(users[1..], i - 1, p);
      assert Without(users, i)[1..] == Without(users[1..], i - 1);
    } else {
      assert Without(users, 0) == users[1..];
    }
  }

  lemma {:induction false} AllWithChanged(users: seq<File>, i: nat, pinnings: seq<Pinning>, p: Page)
    requires i < |users|
    ensures HeldByAll(users[i := users[i].(pinnings := pinnings)], p) ==
            HeldByAll(users, p) - Held(users[i].pinnings, p) + Held(pinnings, p)
    decreases i
  {
    var users' := users[i := users[i].(pinnings := pinnings)];
    if i > 0 {
      AllWithChanged(users[1..], i - 1, pinnings, p);
      assert users'[1..] == users[1..][i - 1 := users[1..][i - 1].(pinnings := pinnings)];
    } else {
      assert users'[1..] == users[1..];
    }
  }

  // ----- pinning

  /** How the world answers a pin command. */
  datatype PinEnv = PinEnv(
    addr: u64, size: u32,
    canAllocArray: bool,          // the array of page pointers
    grabbed: int,                 // what get_user_pages_fast returns
    pages: seq<Page>,             // the array afterwards: the pages grabbed, and whatever was there beyond them
    canAllocPinning: bool, canAllocSglist: bool, magic: u32,
    canMap: bool, canAllocEntries: bool, copyCount: bool, copyEntries: bool, canCopyHandle: bool)

  ghost predicate Legal(env: PinEnv) {
    env.grabbed <= |env.pages| == NumPages(env.addr % PAGE_SIZE, env.size)
  }

  function Grabbed(env: PinEnv): (s: seq<Page>)
    requires env.grabbed <= |env.pages|
  {
    if env.grabbed <= 0 then [] else env.pages[..env.grabbed]
  }

  /** Oops: the module follows a null pointer, after which only the counts are of interest. */
  datatype PinAnswer = Granted | Refused(e: Errno) | Oops

  /** What a pin command answers. */
  ghost function PinAnswerFor(env: PinEnv): PinAnswer {
    if !Accepted(env.addr, env.size) then Refused(EINVAL)
    else if !env.canAllocArray then Refused(ENOMEM)
    else if env.grabbed != |env.pages| then Refused(EAGAIN)
    else if !env.canAllocPinning then Refused(ENOMEM)
    else if !env.canAllocSglist then Oops
    else if !env.canMap then Refused(EMAP)
    else if !env.canAllocEntries then Refused(ENOMEM)
    else if !env.copyCount || !env.copyEntries || !env.canCopyHandle then Refused(EAGAIN)
    else Granted
  }

  /** The counts after a pin command: every exit puts back what it thinks it holds. */
  ghost function RefsAfterPin(refs: Refs, env: PinEnv): Refs
    requires env.grabbed <= |env.pages|
  {
    if !Accepted(env.addr, env.size) || !env.canAllocArray then refs
    else
      var taken := GetAll(refs, Grabbed(env));
      if env.grabbed != |env.pages| || !env.canAllocPinning then PutAll(taken, env.pages)
      else if !env.canAllocSglist || PinAnswerFor(env) == Granted then taken
      else PutAll(taken, env.pages)
  }

  function PinningsAfterPin(pinnings: seq<Pinning>, env: PinEnv, answer: PinAnswer): seq<Pinning> {
    if answer == Granted then [Pinning(env.pages, env.magic)] + pinnings else pinnings
  }

  /** The two exits that do not put back what was taken are not reached. */
  predicate Balanced(env: PinEnv) {
    Accepted(env.addr, env.size) && env.canAllocArray ==>
      env.grabbed == |env.pages| && (env.canAllocPinning ==> env.canAllocSglist)
  }

  // ----- commands

  datatype Handle = Handle(userMagic: u32, pinMagic: u32)

  datatype Op =
    | OpenFile(id: nat, canAlloc: bool, magic: u32)
    | Pin(id: nat, env: PinEnv)
    | Unpin(id: nat, handle: Handle, canCopy: bool)
    | Flush(id: nat, handle: Handle, canCopy: bool, flags: u32)   // the size field of a flush command holds flags
    | ReleaseFile(id: nat)

  /** Position of a file in the list of users, or the length of the list. */
  function FindFile(users: seq<File>, id: nat): (i: nat)
    ensures i <= |users| && (i < |users| ==> users[i].id == id)
    ensures forall j :: 0 <= j < i ==> users[j].id != id
  {
    if users == [] || users[0].id == id then 0 else 1 + FindFile(users[1..], id)
  }

  /** Position of the first pinning with a magic, from the head of the list, or the length of the list. */
  function Match(pinnings: seq<Pinning>, magic: u32): (i: nat)
    ensures i <= |pinnings| && (i < |pinnings| ==> pinnings[i].magic == magic)
    ensures forall j :: 0 <= j < i ==> pinnings[j].magic != magic
  {
    if pinnings == [] || pinnings[0].magic == magic then 0 else 1 + Match(pinnings[1..], magic)
  }

  /** Whether an unpin or flush command finds its pinning. */
  function Lookup(f: File, handle: Handle, canCopy: bool): Errno {
    if !canCopy then EAGAIN
    else if handle.userMagic != f.magic || Match(f.pinnings, handle.pinMagic) == |f.pinnings| then EINVAL
    else Ok
  }

  /** The pages of some pinnings, in the order in which freeing them one by one from the head puts them. */
  function PutPinnings(refs: Refs, pinnings: seq<Pinning>): Refs
    decreases pinnings
  {
    if pinnings == [] then refs else PutPinnings(PutAll(refs, pinnings[0].pages), pinnings[1..])
  }

  /** What one command does. Only commands on open files reach the module, and opening makes a new file. */
  ghost function Step(k: Kernel, op: Op): Kernel
    requires op.Pin? ==> Legal(op.env)
  {
    var i := FindFile(k.users, op.id);
    match op
    case OpenFile(id, canAlloc, magic) =>
      if canAlloc && i == |k.users| then k.(users := [File(id, magic, [])] + k.users) else k
    case Pin(id, env) =>
      if i == |k.users| then k
      else
        var f := k.users[i];
        Kernel(k.users[i := f.(pinnings := PinningsAfterPin(f.pinnings, env, PinAnswerFor(env)))],
               RefsAfterPin(k.refs, env))
    case Unpin(id, handle, canCopy) =>
      if i == |k.users| || Lookup(k.users[i], handle, canCopy) != Ok then k
      else
        var f := k.users[i];
        var j := Match(f.pinnings, handle.pinMagic);
        Kernel(k.users[i := f.(pinnings := Without(f.pinnings, j))], PutAll(k.refs, f.pinnings[j].pages))
    case Flush(_, _, _, _) => k
    case ReleaseFile(id) =>
      if i == |k.users| then k
      else Kernel(Without(k.users, i), PutPinnings(k.refs, k.users[i].pinnings))
  }

  ghost predicate LegalRun(ops: seq<Op>) {
    forall i :: 0 <= i < |ops| && ops[i].Pin? ==> Legal(ops[i].env)
  }

  ghost function RunAll(k: Kernel, ops: seq<Op>): Kernel
    requires LegalRun(ops)
  {
    if ops == [] then k else Step(RunAll(k, ops[..|ops| - 1]), ops[|ops| - 1])
  }

  /** `pinner_exit`: frees the users from the head until none is left. */
  function Unload(k: Kernel): Kernel
    decreases |k.users|
  {
    if k.users == [] then k else Unload(Kernel(k.users[1..], PutPinnings(k.refs, k.users[0].pinnings)))
  }
}
