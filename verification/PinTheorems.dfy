/** What the pinner's bookkeeping keeps, over every command and every run. */
module PinTheorems {
  import opened Machine
  import opened PageSplit
  import opened PinState

  // ----- conservation of page references

  lemma {:induction false} PutPinningsCounts(refs: Refs, pinnings: seq<Pinning>, p: Page)
    ensures Count(PutPinnings(refs, pinnings), p) == Count(refs, p) - Held(pinnings, p)
    decreases pinnings
  {
    if pinnings != [] {
      PutCounts(refs, pinnings[0].pages, p);
      PutPinningsCounts(PutAll(refs, pinnings[0].pages), pinnings[1..], p);
    }
  }

  /** By how much a pin command moves the count of a page, over what its answer entitles it to. */
  function Imbalance(env: PinEnv, p: Page): int
    requires env.grabbed <= |env.pages|
  {
    if !Accepted(env.addr, env.size) || !env.canAllocArray then 0
    else if env.grabbed != |env.pages| then Occurs(Grabbed(env), p) - Occurs(env.pages, p)
    else if env.canAllocPinning && !env.canAllocSglist then Occurs(env.pages, p)
    else 0
  }

  lemma {:induction false} PinMovesCounts(refs: Refs, env: PinEnv, p: Page)
    requires Legal(env)
    ensures Count(RefsAfterPin(refs, env), p) ==
            Count(refs, p) + Imbalance(env, p) + (if PinAnswerFor(env) == Granted then Occurs(env.pages, p) else 0)
  {
    GetCounts(refs, Grabbed(env), p);
    PutCounts(GetAll(refs, Grabbed(env)), env.pages, p);
    if env.grabbed > 0 && env.grabbed == |env.pages| { assert Grabbed(env) == env.pages; }
  }

  /** Some page is out of balance exactly when one of the two early exits is taken. */
  lemma {:induction false} ImbalanceExactly(env: PinEnv)
    requires Legal(env)
    ensures (forall p: Page :: Imbalance(env, p) == 0) <==> Balanced(env)
  {
    if !Balanced(env) {
      var g := if env.grabbed <= 0 then 0 else env.grabbed;
      var p := env.pages[if env.grabbed != |env.pages| then g else 0];
      if env.grabbed != |env.pages| {
        OccursConcat(Grabbed(env), env.pages[g..], p);
        assert env.pages == Grabbed(env) + env.pages[g..];
        HeadOccurs(env.pages[g..]);
      } else {
        HeadOccurs(env.pages);
      }
      assert Imbalance(env, p) != 0;
    }
  }

  lemma {:induction false} HeadOccurs(pages: seq<Page>)
    requires |pages| > 0
    ensures Occurs(pages, pages[0]) > 0
  {
    if |pages| > 1 { HeadOccurs(pages[..|pages| - 1]); }
  }

  /** A pin command on an open file keeps every count in step with the pinnings exactly when it is balanced. */
  lemma {:induction false} PinConservesExactly(base: Refs, k: Kernel, id: nat, env: PinEnv)
    requires Conserved(base, k) && Legal(env) && FindFile(k.users, id) < |k.users|
    ensures Conserved(base, Step(k, Pin(id, env))) <==> Balanced(env)
  {
    var k' := Step(k, Pin(id, env));
    forall p: Page ensures
      Count(k'.refs, p) == Count(base, p) + HeldByAll(k'.users, p) <==> Imbalance(env, p) == 0
    {
      PinCounts(base, k, id, env, p);
    }
    ImbalanceExactly(env);
    if Conserved(base, k') {
      forall p: Page ensures Imbalance(env, p) == 0 {
        assert Count(k'.refs, p) == Count(base, p) + HeldByAll(k'.users, p);
      }
    }
  }

  lemma {:induction false} PinCounts(base: Refs, k: Kernel, id: nat, env: PinEnv, p: Page)
    requires Conserved(base, k) && Legal(env) && FindFile(k.users, id) < |k.users|
    ensures var k' := Step(k, Pin(id, env));
            Count(k'.refs, p) == Count(base, p) + HeldByAll(k'.users, p) + Imbalance(env, p)
  {
    var i := FindFile(k.users, id);
    var f := k.users[i];
    PinMovesCounts(k.refs, env, p);
    AllWithChanged(k.users, i, PinningsAfterPin(f.pinnings, env, PinAnswerFor(env)), p);
    HeldAfterPin(f.pinnings, env, PinAnswerFor(env), p);
  }

  lemma {:induction false} HeldAfterPin(pinnings: seq<Pinning>, env: PinEnv, answer: PinAnswer, p: Page)
    ensures Held(PinningsAfterPin(pinnings, env, answer), p) ==
            Held(pinnings, p) + (if answer == Granted then Occurs(env.pages, p) else 0)
  {
    if answer == Granted {
      assert ([Pinning(env.pages, env.magic)] + pinnings)[1..] == pinnings;
    }
  }

  /** A pin of one byte for which no page is grabbed: a reference is put that was never taken. */
  lemma {:induction false} ShortGrabUnbalances(k: Kernel, id: nat, env: PinEnv, p: Page)
    requires env.addr == 0x1000 && env.size == 1 && env.canAllocArray && env.grabbed == 0 && env.pages == [p]
    requires FindFile(k.users, id) < |k.users|
    ensures Legal(env) && PinAnswerFor(env) == Refused(EAGAIN)
    ensures var k' := Step(k, Pin(id, env)); k'.users == k.users && Count(k'.refs, p) == Count(k.refs, p) - 1
  {
    assert NumPages(0, 1) == 1;
    PinMovesCounts(k.refs, env, p);
    HeadOccurs(env.pages);
  }

  /** Commands other than pin are always balanced. */
  predicate BalancedOp(op: Op) {
    op.Pin? ==> Balanced(op.env)
  }

  lemma {:induction false} StepConserves(base: Refs, k: Kernel, op: Op)
    requires Conserved(base, k) && BalancedOp(op) && (op.Pin? ==> Legal(op.env))
    ensures Conserved(base, Step(k, op))
  {
    var i, k' := FindFile(k.users, op.id), Step(k, op);
    forall p: Page ensures Count(k'.refs, p) == Count(base, p) + HeldByAll(k'.users, p) {
      match op
      case OpenFile(id, canAlloc, magic) =>
        assert ([File(id, magic, [])] + k.users)[1..] == k.users;
      case Pin(id, env) =>
        if i < |k.users| {
          PinCounts(base, k, id, env, p);
          ImbalanceExactly(env);
        }
      case Unpin(id, handle, canCopy) =>
        if i < |k.users| && Lookup(k.users[i], handle, canCopy) == Ok {
          var f := k.users[i];
          var j := Match(f.pinnings, handle.pinMagic);
          PutCounts(k.refs, f.pinnings[j].pages, p);
          HeldWithout(f.pinnings, j, p);
          AllWithChanged(k.users, i, Without(f.pinnings, j), p);
        }
      case Flush(_, _, _, _) =>
      case ReleaseFile(id) =>
        if i < |k.users| {
          PutPinningsCounts(k.refs, k.users[i].pinnings, p);
          AllWithout(k.users, i, p);
        }
    }
  }

  /** In every state reached by balanced commands, references and pinnings are in step. */
  lemma {:induction false} RunConserves(base: Refs, ops: seq<Op>)
    requires LegalRun(ops) && forall i :: 0 <= i < |ops| ==> BalancedOp(ops[i])
    ensures Conserved(base, RunAll(Kernel([], base), ops))
  {
    if ops != [] {
      RunConserves(base, ops[..|ops| - 1]);
      StepConserves(base, RunAll(Kernel([], base), ops[..|ops| - 1]), ops[|ops| - 1]);
    }
  }

  /** Closing a file takes back exactly the references its own pinnings hold, and forgets the file. */
  lemma {:induction false} ReleaseTakesItsShare(k: Kernel, id: nat, p: Page)
    requires FindFile(k.users, id) < |k.users|
    ensures var i, k' := FindFile(k.users, id), Step(k, ReleaseFile(id));
            && k'.users == Without(k.users, i)
            && Count(k'.refs, p) == Count(k.refs, p) - Held(k.users[i].pinnings, p)
  {
    PutPinningsCounts(k.refs, k.users[FindFile(k.users, id)].pinnings, p);
  }

  lemma {:induction false} ExitCounts(k: Kernel, p: Page)
    ensures Unload(k).users == [] && Count(Unload(k).refs, p) == Count(k.refs, p) - HeldByAll(k.users, p)
    decreases |k.users|
  {
    if k.users != [] {
      PutPinningsCounts(k.refs, k.users[0].pinnings, p);
      ExitCounts(Kernel(k.users[1..], PutPinnings(k.refs, k.users[0].pinnings)), p);
    }
  }

  /** Whatever balanced commands came before, unloading the module brings every count back to its base. */
  lemma {:induction false} ExitRestoresBase(base: Refs, ops: seq<Op>, p: Page)
    requires LegalRun(ops) && forall i :: 0 <= i < |ops| ==> BalancedOp(ops[i])
    ensures Count(Unload(RunAll(Kernel([], base), ops)).refs, p) == Count(base, p)
  {
    RunConserves(base, ops);
    ExitCounts(RunAll(Kernel([], base), ops), p);
  }

  // ----- pin, then unpin

  /**
   An unpin with the handle just returned undoes the pin, whatever other magics there are: both work
   from the head of the list.
   */
  lemma {:induction false} PinThenUnpin(k: Kernel, id: nat, env: PinEnv, p: Page)
    requires Legal(env) && PinAnswerFor(env) == Granted && FindFile(k.users, id) < |k.users|
    ensures var f := k.users[FindFile(k.users, id)];
            var k' := Step(Step(k, Pin(id, env)), Unpin(id, Handle(f.magic, env.magic), true));
            k'.users == k.users && Count(k'.refs, p) == Count(k.refs, p)
  {
    var i := FindFile(k.users, id);
    var f, k1 := k.users[i], Step(k, Pin(id, env));
    var f1 := f.(pinnings := [Pinning(env.pages, env.magic)] + f.pinnings);
    assert k1.users == k.users[i := f1];
    FindAfterChange(k.users, id, f1);
    assert Match(f1.pinnings, env.magic) == 0;
    assert Without(f1.pinnings, 0) == f.pinnings;
    assert k1.users[i := f] == k.users;
    PinMovesCounts(k.refs, env, p);
    PutCounts(k1.refs, env.pages, p);
  }

  /** Two pins, undone in reverse order, leave no trace; in between the second is at the head of the list. */
  lemma {:induction false} PinTwiceThenUnpin(k: Kernel, id: nat, e1: PinEnv, e2: PinEnv, p: Page)
    requires Legal(e1) && PinAnswerFor(e1) == Granted && Legal(e2) && PinAnswerFor(e2) == Granted
    requires FindFile(k.users, id) < |k.users|
    ensures var magic := k.users[FindFile(k.users, id)].magic;
            var k2 := Step(Step(k, Pin(id, e1)), Pin(id, e2));
            var k3 := Step(k2, Unpin(id, Handle(magic, e2.magic), true));
            var k4 := Step(k3, Unpin(id, Handle(magic, e1.magic), true));
            k4.users == k.users && Count(k4.refs, p) == Count(k.refs, p)
  {
    var i := FindFile(k.users, id);
    var f, k1 := k.users[i], Step(k, Pin(id, e1));
    FindAfterChange(k.users, id, f.(pinnings := PinningsAfterPin(f.pinnings, e1, Granted)));
    PinThenUnpin(k1, id, e2, p);
    PinThenUnpin(k, id, e1, p);
    var k3 := Step(Step(k1, Pin(id, e2)), Unpin(id, Handle(f.magic, e2.magic), true));
    UnpinAlike(k1, k3, id, Handle(f.magic, e1.magic), p);
  }

  /** Unpinning looks at the lists alone, and changes the counts by what it puts. */
  lemma {:induction false} UnpinAlike(k: Kernel, k': Kernel, id: nat, handle: Handle, p: Page)
    requires k.users == k'.users && Count(k.refs, p) == Count(k'.refs, p)
    ensures var s, s' := Step(k, Unpin(id, handle, true)), Step(k', Unpin(id, handle, true));
            s.users == s'.users && Count(s.refs, p) == Count(s'.refs, p)
  {
    var i := FindFile(k.users, id);
    if i < |k.users| && Lookup(k.users[i], handle, true) == Ok {
      var pages := k.users[i].pinnings[Match(k.users[i].pinnings, handle.pinMagic)].pages;
      PutCounts(k.refs, pages, p);
      PutCounts(k'.refs, pages, p);
    }
  }

  lemma {:induction false} FindAfterChange(users: seq<File>, id: nat, f: File)
    requires FindFile(users, id) < |users| && f.id == id
    ensures FindFile(users[FindFile(users, id) := f], id) == FindFile(users, id)
  {
    if users[0].id != id {
      FindAfterChange(users[1..], id, f);
      assert users[FindFile(users, id) := f][1..] == users[1..][FindFile(users[1..], id) := f];
    }
  }

  /** Changing one file does not move another. */
  lemma {:induction false} FindOther(users: seq<File>, i: nat, f: File, id: nat)
    requires i < |users| && f.id == users[i].id
    ensures FindFile(users[i := f], id) == FindFile(users, id)
  {
    if i == 0 {
      assert users[0 := f][1..] == users[1..];
    } else {
      assert users[i := f][1..] == users[1..][i - 1 := f];
      if users[0].id != id { FindOther(users[1..], i - 1, f, id); }
    }
  }

  /** The pinnings with a given magic, in list order. */
  function Having(pinnings: seq<Pinning>, magic: u32): seq<Pinning> {
    if pinnings == [] then []
    else (if pinnings[0].magic == magic then [pinnings[0]] else []) + Having(pinnings[1..], magic)
  }

  lemma {:induction false} HavingFirst(pinnings: seq<Pinning>, magic: u32)
    ensures var j := Match(pinnings, magic);
            if j < |pinnings| then
              Having(pinnings, magic) == [pinnings[j]] + Having(Without(pinnings, j), magic)
            else Having(pinnings, magic) == []
  {
    if pinnings != [] {
      var rest := pinnings[1..];
      if pinnings[0].magic == magic {
        assert Without(pinnings, 0) == rest;
      } else {
        HavingFirst(rest, magic);
        var j := Match(rest, magic);
        if j < |rest| {
          assert Without(pinnings, j + 1) == [pinnings[0]] + Without(rest, j);
          HavingInTail(pinnings[0], Without(rest, j), magic);
        }
      }
    }
  }

  lemma {:induction false} HavingInTail(pn: Pinning, pinnings: seq<Pinning>, magic: u32)
    requires pn.magic != magic
    ensures Having([pn] + pinnings, magic) == Having(pinnings, magic)
  {
    assert ([pn] + pinnings)[1..] == pinnings;
  }

  lemma {:induction false} HavingOther(pinnings: seq<Pinning>, i: nat, magic: u32)
    requires i < |pinnings| && pinnings[i].magic != magic
    ensures Having(Without(pinnings, i), magic) == Having(pinnings, magic)
  {
    if i == 0 {
      assert Without(pinnings, 0) == pinnings[1..];
    } else {
      HavingOther(pinnings[1..], i - 1, magic);
      assert Without(pinnings, i)[1..] == Without(pinnings[1..], i - 1);
    }
  }

  /** File id is open, and pn is its only pinning with that magic. */
  predicate Owns(k: Kernel, id: nat, userMagic: u32, pn: Pinning) {
    var i := FindFile(k.users, id);
    i < |k.users| && k.users[i].magic == userMagic && Having(k.users[i].pinnings, pn.magic) == [pn]
  }

  /** A command that leaves the file's pinning pn alone: not its release or its unpin, nor a pin reusing its magic. */
  predicate Spares(op: Op, id: nat, userMagic: u32, pn: Pinning) {
    op.id == id ==>
      && !op.ReleaseFile? && (op.Pin? ==> op.env.magic != pn.magic)
      && (op.Unpin? ==> op.handle != Handle(userMagic, pn.magic))
  }

  lemma {:induction false} StepKeepsOwner(k: Kernel, op: Op, id: nat, userMagic: u32, pn: Pinning)
    requires (op.Pin? ==> Legal(op.env)) && Owns(k, id, userMagic, pn) && Spares(op, id, userMagic, pn)
    ensures Owns(Step(k, op), id, userMagic, pn)
  {
    var i, o := FindFile(k.users, id), FindFile(k.users, op.id);
    match op
    case OpenFile(id', canAlloc, magic) =>
      var users' := [File(id', magic, [])] + k.users;
      assert users'[1..] == k.users;
    case Pin(id', env) =>
      if o < |k.users| {
        var f := k.users[o];
        var f' := f.(pinnings := PinningsAfterPin(f.pinnings, env, PinAnswerFor(env)));
        FindOther(k.users, o, f', id);
        if o == i && PinAnswerFor(env) == Granted { assert f'.pinnings[1..] == f.pinnings; }
      }
    case Unpin(id', handle, canCopy) =>
      if o < |k.users| && Lookup(k.users[o], handle, canCopy) == Ok {
        var f := k.users[o];
        var j := Match(f.pinnings, handle.pinMagic);
        FindOther(k.users, o, f.(pinnings := Without(f.pinnings, j)), id);
        if o == i { HavingOther(f.pinnings, j, pn.magic); }
      }
    case Flush(_, _, _, _) =>
    case ReleaseFile(id') =>
      if o < |k.users| { FindAfterRemoval(k.users, o, id); }
  }

  /** The file with a given id, if it is open. */
  function Found(users: seq<File>, id: nat): seq<File> {
    var i := FindFile(users, id);
    if i < |users| then [users[i]] else []
  }

  lemma {:induction false} FoundInTail(f: File, users: seq<File>, id: nat)
    ensures Found([f] + users, id) == if f.id == id then [f] else Found(users, id)
  {
    assert ([f] + users)[1..] == users;
  }

  lemma {:induction false} FoundAfterRemoval(users: seq<File>, o: nat, id: nat)
    requires o < |users| && users[o].id != id
    ensures Found(Without(users, o), id) == Found(users, id)
  {
    var f, rest := users[0], users[1..];
    assert users == [f] + rest;
    FoundInTail(f, rest, id);
    if o == 0 {
      assert Without(users, 0) == rest;
    } else {
      assert Without(users, o) == [f] + Without(rest, o - 1);
      FoundInTail(f, Without(rest, o - 1), id);
      FoundAfterRemoval(rest, o - 1, id);
    }
  }

  lemma {:induction false} FindAfterRemoval(users: seq<File>, o: nat, id: nat)
    requires o < |users| && users[o].id != id
    ensures var i, i' := FindFile(users, id), FindFile(Without(users, o), id);
            if i < |users| then i' < |Without(users, o)| && Without(users, o)[i'] == users[i]
            else i' == |Without(users, o)|
  {
    FoundAfterRemoval(users, o, id);
    var i := FindFile(users, id);
    if i < |users| { assert Found(users, id)[0] == users[i]; }
  }

  lemma {:induction false} RunKeepsOwner(k: Kernel, ops: seq<Op>, id: nat, userMagic: u32, pn: Pinning)
    requires LegalRun(ops) && Owns(k, id, userMagic, pn)
    requires forall i :: 0 <= i < |ops| ==> Spares(ops[i], id, userMagic, pn)
    ensures Owns(RunAll(k, ops), id, userMagic, pn)
  {
    if ops != [] {
      RunKeepsOwner(k, ops[..|ops| - 1], id, userMagic, pn);
      StepKeepsOwner(RunAll(k, ops[..|ops| - 1]), ops[|ops| - 1], id, userMagic, pn);
    }
  }

  /** A pin whose magic is new to its file makes its file own the pinning. */
  lemma {:induction false} PinMakesOwner(k: Kernel, id: nat, env: PinEnv)
    requires Legal(env) && PinAnswerFor(env) == Granted && FindFile(k.users, id) < |k.users|
    requires Having(k.users[FindFile(k.users, id)].pinnings, env.magic) == []
    ensures Owns(Step(k, Pin(id, env)), id, k.users[FindFile(k.users, id)].magic, Pinning(env.pages, env.magic))
  {
    var i := FindFile(k.users, id);
    var f := k.users[i];
    var f1 := f.(pinnings := [Pinning(env.pages, env.magic)] + f.pinnings);
    FindAfterChange(k.users, id, f1);
    assert f1.pinnings[1..] == f.pinnings;
  }

  /**
   After any commands that spare it, unpinning with the handle of a pin removes exactly that pinning:
   it puts that pinning's pages, takes it out of its file's list, and leaves all else as it was.
   */
  lemma {:induction false} UnpinRemovesOwn(k: Kernel, ops: seq<Op>, id: nat, userMagic: u32, pn: Pinning)
    requires LegalRun(ops) && Owns(k, id, userMagic, pn)
    requires forall i :: 0 <= i < |ops| ==> Spares(ops[i], id, userMagic, pn)
    ensures var k1 := RunAll(k, ops);
            var i, k2 := FindFile(k1.users, id), Step(k1, Unpin(id, Handle(userMagic, pn.magic), true));
            && i < |k1.users|
            && var j := Match(k1.users[i].pinnings, pn.magic);
               && j < |k1.users[i].pinnings| && k1.users[i].pinnings[j] == pn
               && k2.users == k1.users[i := k1.users[i].(pinnings := Without(k1.users[i].pinnings, j))]
               && k2.refs == PutAll(k1.refs, pn.pages)
               && Having(k2.users[i].pinnings, pn.magic) == []
  {
    RunKeepsOwner(k, ops, id, userMagic, pn);
    var k1 := RunAll(k, ops);
    var pinnings := k1.users[FindFile(k1.users, id)].pinnings;
    var j := Match(pinnings, pn.magic);
    HavingFirst(pinnings, pn.magic);
    assert Having(pinnings, pn.magic)[0] == pinnings[j];
    assert Having(pinnings, pn.magic)[1..] == Having(Without(pinnings, j), pn.magic);
  }
}
