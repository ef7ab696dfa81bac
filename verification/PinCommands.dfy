/** What each command of the pinner answers and does, in terms of its arguments and the lists alone. */
module PinCommands {
  import opened Machine
  import opened PageSplit
  import opened PinState
  import opened PinTheorems

  // ----- pin

  /** The pages a pin has to grab: those its bytes lie in; one for no bytes inside a page, none at its start. */
  lemma {:induction false} WantedCounts(env: PinEnv)
    ensures NumPages(env.addr % PAGE_SIZE, env.size) ==
            if env.size > 0 then |PagesTouched(env.addr, env.size)| else if env.addr % 4096 == 0 then 0 else 1
  {
    if env.size > 0 { NumPagesCounts(env.addr, env.size); }
  }

  /** The steps of a pin in order, each taken only if the ones before succeed, and the answer for each that fails. */
  lemma {:induction false} PinAnswers(env: PinEnv)
    requires Legal(env)
    ensures var n := if env.size > 0 then |PagesTouched(env.addr, env.size)| else if env.addr % 4096 == 0 then 0 else 1;
            var valid := 1 <= n <= 1024;
            var grabbed := valid && env.canAllocArray && env.grabbed == n;
            var listed := grabbed && env.canAllocPinning && env.canAllocSglist;
            var sending := listed && env.canMap && env.canAllocEntries;
            var sent := sending && env.copyCount && env.copyEntries && env.canCopyHandle;
            var answer := PinAnswerFor(env);
            && (answer == Granted <==> sent)
            && (answer == Refused(EINVAL) <==> !valid)
            && (answer == Refused(EAGAIN) <==>
                  (valid && env.canAllocArray && env.grabbed != n) || (sending && !sent))
            && (answer == Refused(ENOMEM) <==>
                  || (valid && !env.canAllocArray)
                  || (grabbed && !env.canAllocPinning)
                  || (listed && env.canMap && !env.canAllocEntries))
            && (answer == Refused(EMAP) <==> listed && !env.canMap)
            && (answer == Oops <==> grabbed && env.canAllocPinning && !env.canAllocSglist)
  {
    WantedCounts(env);
  }

  lemma {:induction false} OccursIsMultiplicity(pages: seq<Page>, p: Page)
    ensures Occurs(pages, p) == multiset(pages)[p]
  {
    if pages != [] {
      var n := |pages| - 1;
      OccursIsMultiplicity(pages[..n], p);
      assert pages == pages[..n] + [pages[n]];
    }
  }

  /**
   A granted pin goes to the head of its file's list, and each page it names has one reference more for
   each time. A refused one leaves the lists alone, and the counts too, except that a short grab puts
   pages that were not taken, and that nothing is put back once the null pointer has been followed.
   */
  lemma {:induction false} PinDoes(k: Kernel, id: nat, env: PinEnv, p: Page)
    requires Legal(env) && FindFile(k.users, id) < |k.users|
    ensures var i, answer, k' := FindFile(k.users, id), PinAnswerFor(env), Step(k, Pin(id, env));
            var short := answer != Refused(EINVAL) && env.canAllocArray && env.grabbed != |env.pages|;
            var taken := if short then (if env.grabbed > 0 then env.pages[..env.grabbed] else [])
                         else if answer == Granted || answer == Oops then env.pages else [];
            var put := if short then env.pages else [];
            && k'.users == (if answer == Granted
                            then k.users[i := File(k.users[i].id, k.users[i].magic,
                                                   [Pinning(env.pages, env.magic)] + k.users[i].pinnings)]
                            else k.users)
            && Count(k'.refs, p) == Count(k.refs, p) + multiset(taken)[p] - multiset(put)[p]
  {
    PinMovesCounts(k.refs, env, p);
    OccursIsMultiplicity(env.pages, p);
    OccursIsMultiplicity(Grabbed(env), p);
  }

  /** When a pin keeps references and pinnings in step: neither a short grab nor a failing scatterlist. */
  lemma {:induction false} BalancedExactly(env: PinEnv)
    requires Legal(env)
    ensures Balanced(env) <==>
            && PinAnswerFor(env) != Oops
            && (PinAnswerFor(env) == Refused(EINVAL) || !env.canAllocArray || env.grabbed == |env.pages|)
  {
  }

  // ----- unpin and flush

  /** An unreadable handle, a handle of another file, a handle of no pinning, and one that is found. */
  lemma {:induction false} LookupAnswers(f: File, handle: Handle, canCopy: bool)
    ensures var found := handle.userMagic == f.magic &&
                         exists j :: 0 <= j < |f.pinnings| && f.pinnings[j].magic == handle.pinMagic;
            && (Lookup(f, handle, canCopy) == EAGAIN <==> !canCopy)
            && (Lookup(f, handle, canCopy) == EINVAL <==> canCopy && !found)
            && (Lookup(f, handle, canCopy) == Ok <==> canCopy && found)
  {
  }

  /** A refused unpin changes nothing; another one takes out the first pinning with its magic and puts its pages. */
  lemma {:induction false} UnpinDoes(k: Kernel, id: nat, handle: Handle, canCopy: bool, p: Page)
    requires FindFile(k.users, id) < |k.users|
    ensures var i, k' := FindFile(k.users, id), Step(k, Unpin(id, handle, canCopy));
            var ps := k.users[i].pinnings;
            if Lookup(k.users[i], handle, canCopy) != Ok then k' == k
            else
              exists j :: 0 <= j < |ps| && ps[j].magic == handle.pinMagic
                && (forall l :: 0 <= l < j ==> ps[l].magic != handle.pinMagic)
                && k'.users == k.users[i := File(k.users[i].id, k.users[i].magic, ps[..j] + ps[j + 1..])]
                && Count(k'.refs, p) == Count(k.refs, p) - multiset(ps[j].pages)[p]
  {
    var i := FindFile(k.users, id);
    if Lookup(k.users[i], handle, canCopy) == Ok {
      var ps := k.users[i].pinnings;
      var j := Match(ps, handle.pinMagic);
      PutCounts(k.refs, ps[j].pages, p);
      OccursIsMultiplicity(ps[j].pages, p);
      assert 0 <= j < |ps| && ps[j].magic == handle.pinMagic;
    }
  }

  // ----- the other commands

  /** A flush leaves the books alone, and so does any command on a file that is not open. */
  lemma {:induction false} OthersDoNothing(k: Kernel, op: Op)
    requires op.Pin? ==> Legal(op.env)
    ensures op.Flush? ==> Step(k, op) == k
    ensures !op.OpenFile? && (forall i :: 0 <= i < |k.users| ==> k.users[i].id != op.id) ==> Step(k, op) == k
  {
  }

  /** A new file comes to the head of the list, with the magic drawn for it and no pinnings. */
  lemma {:induction false} OpenDoes(k: Kernel, id: nat, canAlloc: bool, magic: u32)
    requires forall i :: 0 <= i < |k.users| ==> k.users[i].id != id
    ensures Step(k, OpenFile(id, canAlloc, magic)) ==
            Kernel(if canAlloc then [File(id, magic, [])] + k.users else k.users, k.refs)
  {
  }

  /** A released file is taken out of the list, and nothing else is. */
  lemma {:induction false} ReleaseDoes(k: Kernel, id: nat, p: Page)
    requires FindFile(k.users, id) < |k.users|
    ensures var i, k' := FindFile(k.users, id), Step(k, ReleaseFile(id));
            && k'.users == k.users[..i] + k.users[i + 1..]
            && Count(k'.refs, p) == Count(k.refs, p) - Held(k.users[i].pinnings, p)
  {
    ReleaseTakesItsShare(k, id, p);
  }

  /** What a file holds, and all of them: each scatterlist slot that names the page counts once. */
  lemma {:induction false} HeldCountsSlots(pn: Pinning, pinnings: seq<Pinning>, f: File, users: seq<File>, p: Page)
    ensures Held([], p) == 0 && Held([pn] + pinnings, p) == multiset(pn.pages)[p] + Held(pinnings, p)
    ensures HeldByAll([], p) == 0 && HeldByAll([f] + users, p) == Held(f.pinnings, p) + HeldByAll(users, p)
  {
    OccursIsMultiplicity(pn.pages, p);
    assert ([pn] + pinnings)[1..] == pinnings;
    assert ([f] + users)[1..] == users;
  }
}
