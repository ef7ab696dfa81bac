/** What every add keeps, and so what holds of a list after any run of adds, successful or not. */
module CarvingRuns {
  import opened Physlist
  import opened Placement
  import opened SlotWalk
  import opened Carving

  // ----- the two invariants

  /** Where the piece before entry i ends. */
  function DataEnd(es: seq<Node>, i: nat): nat
    requires i <= |es|
  {
    if i == 0 then 0 else es[i - 1].dataOffset + es[i - 1].len
  }

  /** An entry's bytes lie in one extent, and bufPhys is where that stretch begins in physical memory. */
  ghost predicate Backed(pl: seq<Extent>, e: Node) {
    && 0 < e.len && e.dataOffset < Total(pl)
    && e.dataOffset + e.len <= Start(pl, IndexOf(pl, e.dataOffset) + 1)
    && e.bufPhys == Phys(pl, e.dataOffset)
  }

  ghost predicate TiledAt(pl: seq<Extent>, es: seq<Node>, i: nat)
    requires i < |es|
  {
    es[i].dataOffset == DataEnd(es, i) && Backed(pl, es[i])
  }

  /** The entries cover what has been given out of the data buffer, in order, without gap or overlap. */
  ghost predicate Tiled(b: Buffers, st: ListState) {
    && DataEnd(st.entries, |st.entries|) == st.dataOffset <= Total(b.data)
    && forall i :: 0 <= i < |st.entries| ==> TiledAt(b.data, st.entries, i)
  }

  /** The entries sit at the first places of the walk through the descriptor buffer; the rest is still ahead. */
  ghost predicate Placed(b: Buffers, st: ListState)
  {
    TakenFrom(Places(b.sg, 0, b.d), Places(b.sg, st.sgOffset, b.d), st, b.d)
  }

  ghost predicate TakenFrom(all: seq<nat>, rest: seq<nat>, st: ListState, d: nat) {
    && |st.entries| <= |all|
    && all[|st.entries|..] == rest
    && (forall i :: 0 <= i < |st.entries| ==> st.entries[i].sgOffset == all[i])
    && (|st.entries| > 0 ==> st.sgOffset == all[|st.entries| - 1] + d)
  }

  // ----- every add keeps them

  lemma {:induction false} NewNodesTile(b: Buffers, st: ListState, sz: nat, i: nat)
    requires Available(b, st, sz)
    requires i < |NewNodes(b, st, sz)|
    ensures var ns := NewNodes(b, st, sz);
            && Backed(b.data, ns[i])
            && ns[0].dataOffset == st.dataOffset
            && ns[i].dataOffset + ns[i].len == if i + 1 < |ns| then ns[i + 1].dataOffset else st.dataOffset + sz
  {
    CutInside(b.data, st.dataOffset, sz, i);
    CutTiles(b.data, st.dataOffset, sz, i);
  }

  lemma {:induction false} AppendedTile(b: Buffers, st: ListState, sz: nat, i: nat)
    requires Available(b, st, sz)
    requires DataEnd(st.entries, |st.entries|) == st.dataOffset
    requires i < |NewNodes(b, st, sz)|
    ensures TiledAt(b.data, st.entries + NewNodes(b, st, sz), |st.entries| + i)
  {
    NewNodesTile(b, st, sz, i);
    if i > 0 { NewNodesTile(b, st, sz, i - 1); }
  }

  lemma {:induction false} AppendKeepsTiled(b: Buffers, st: ListState, sz: nat)
    requires Available(b, st, sz) && Tiled(b, st)
    ensures Tiled(b, Appended(b, st, sz))
  {
    var ns, k := NewNodes(b, st, sz), |st.entries|;
    var es := st.entries + ns;
    NewNodesTile(b, st, sz, |ns| - 1);
    forall i | 0 <= i < |es| ensures TiledAt(b.data, es, i) {
      if i < k {
        assert TiledAt(b.data, st.entries, i);
      } else {
        AppendedTile(b, st, sz, i - k);
      }
    }
  }

  lemma {:induction false} TakeMore(all: seq<nat>, rest: seq<nat>, st: ListState, st': ListState, ns: seq<Node>, d: nat)
    requires TakenFrom(all, rest, st, d) && 0 < |ns| <= |rest|
    requires forall i :: 0 <= i < |ns| ==> ns[i].sgOffset == rest[i]
    requires st'.entries == st.entries + ns && st'.sgOffset == ns[|ns| - 1].sgOffset + d
    ensures TakenFrom(all, rest[|ns|..], st', d)
  {
    assert all[|st.entries|..][|ns|..] == all[|st'.entries|..];
  }

  lemma {:induction false} AppendKeepsPlaced(b: Buffers, st: ListState, sz: nat, all: seq<nat>, rest: seq<nat>)
    requires rest == Places(b.sg, st.sgOffset, b.d) && TakenFrom(all, rest, st, b.d)
    ensures Available(b, st, sz) ==>
              TakenFrom(all, Places(b.sg, Appended(b, st, sz).sgOffset, b.d), Appended(b, st, sz), b.d)
  {
    if Available(b, st, sz) {
      var st', pieces := Appended(b, st, sz), Cut(b.data, st.dataOffset, sz);
      WalkGoesOn(b.sg, st.sgOffset, b.d, pieces, rest);
      assert Places(b.sg, st'.sgOffset, b.d) == rest[|pieces|..];
      TakeMore(all, rest, st, st', NodesFor(b.data, pieces, rest), b.d);
    }
  }

  lemma {:induction false} WalkGoesOn(pl: seq<Extent>, o: nat, d: DescSize, pieces: seq<Piece>, rest: seq<nat>)
    requires WellFormed(pl) && rest == Places(pl, o, d) && 0 < |pieces| <= |rest|
    ensures Places(pl, rest[|pieces| - 1] + d, d) == rest[|pieces|..]
  {
    PlacesSplit(pl, o, d, |pieces|);
  }

  /** Both invariants survive every call, whatever its answer ... */
  lemma {:induction false} AddKeepsInvariants(b: Buffers, st: ListState, sz: nat, mallocs: nat)
    requires Tiled(b, st) && Placed(b, st)
    ensures Tiled(b, AddStep(b, st, sz, mallocs)) && Placed(b, AddStep(b, st, sz, mallocs))
  {
    if AddOutcome(b, st, sz, mallocs) == AddSuccess {
      AppendKeepsTiled(b, st, sz);
      AppendKeepsPlaced(b, st, sz, Places(b.sg, 0, b.d), Places(b.sg, st.sgOffset, b.d));
    }
  }

  /** ... and so hold after any run. */
  lemma {:induction false} RunKeepsInvariants(b: Buffers, ops: seq<AddOp>)
    ensures Tiled(b, Run(b, ops)) && Placed(b, Run(b, ops))
  {
    if ops != [] {
      var op := ops[|ops| - 1];
      RunKeepsInvariants(b, ops[..|ops| - 1]);
      AddKeepsInvariants(b, Run(b, ops[..|ops| - 1]), op.sz, op.mallocs);
    }
  }

  // ----- what tiling gives

  /** Byte j of every entry is the byte the data buffer's own translation puts there. */
  lemma {:induction false} EntriesTranslate(b: Buffers, st: ListState, i: nat, j: nat)
    requires Tiled(b, st) && i < |st.entries| && j < st.entries[i].len
    ensures var e := st.entries[i];
            e.dataOffset + j < Total(b.data) && e.bufPhys + j == Phys(b.data, e.dataOffset + j)
  {
    assert TiledAt(b.data, st.entries, i);
    PhysRunsOn(b.data, st.entries[i].dataOffset, j);
  }

  lemma {:induction false} EntriesInOrder(b: Buffers, st: ListState, i: nat, k: nat)
    requires Tiled(b, st) && i < k <= |st.entries|
    ensures st.entries[i].dataOffset + st.entries[i].len <= DataEnd(st.entries, k)
    decreases k
  {
    if k > i + 1 {
      EntriesInOrder(b, st, i, k - 1);
      assert TiledAt(b.data, st.entries, k - 1);
    }
  }

  /** No physical byte belongs to two entries. */
  lemma {:induction false} EntriesSeparate(b: Buffers, st: ListState, i: nat, j: nat, i': nat, j': nat)
    requires Disjoint(b.data) && Tiled(b, st) && i < i' < |st.entries|
    requires j < st.entries[i].len && j' < st.entries[i'].len
    ensures st.entries[i].bufPhys + j != st.entries[i'].bufPhys + j'
  {
    EntriesTranslate(b, st, i, j);
    EntriesTranslate(b, st, i', j');
    OffsetsApart(b, st, i, j, i', j');
    PhysInjective(b.data, st.entries[i].dataOffset + j, st.entries[i'].dataOffset + j');
  }

  lemma {:induction false} OffsetsApart(b: Buffers, st: ListState, i: nat, j: nat, i': nat, j': nat)
    requires Tiled(b, st) && i < i' < |st.entries| && j < st.entries[i].len
    ensures st.entries[i].dataOffset + j < st.entries[i'].dataOffset + j'
  {
    EntriesInOrder(b, st, i, i');
    assert TiledAt(b.data, st.entries, i');
  }

  // ----- what placement gives

  lemma {:induction false} EntryAtPlace(b: Buffers, st: ListState, i: nat)
    requires Placed(b, st) && i < |st.entries|
    ensures |st.entries| <= |Places(b.sg, 0, b.d)| && st.entries[i].sgOffset == Places(b.sg, 0, b.d)[i]
  {
  }

  /**
   A descriptor is aligned and inside one extent exactly while there are slots for it, and the next
   one starts after it in any case.
   */
  lemma {:induction false} DescriptorsPlaced(b: Buffers, st: ListState, i: nat)
    requires Placed(b, st) && i < |st.entries|
    ensures Fits(b.sg, st.entries[i].sgOffset, b.d) <==> i < |Slots(b.sg, 0, b.d)|
    ensures st.entries[i].sgOffset + b.d <=
            if i + 1 < |st.entries| then st.entries[i + 1].sgOffset else st.sgOffset
  {
    EntryAtPlace(b, st, i);
    PlaceFitsExactly(b.sg, b.d, i);
    if i + 1 < |st.entries| {
      EntryAtPlace(b, st, i + 1);
      PlacesAscend(b.sg, b.d, i);
    }
  }

  /** The physical byte ranges of the descriptors in slots are disjoint. */
  lemma {:induction false} DescriptorsSeparate(b: Buffers, st: ListState, i: nat, k: nat)
    requires Placed(b, st) && Disjoint(b.sg) && i < k < |st.entries| && k < |Slots(b.sg, 0, b.d)|
    ensures st.entries[i].sgOffset < Total(b.sg) && st.entries[k].sgOffset < Total(b.sg)
    ensures var p, q := Phys(b.sg, st.entries[i].sgOffset), Phys(b.sg, st.entries[k].sgOffset);
            p + b.d <= q || q + b.d <= p
  {
    DescriptorsPlaced(b, st, i);
    DescriptorsPlaced(b, st, k);
    DescriptorsAscend(b, st, i, k);
    AlignedApart(b.sg, st.entries[i].sgOffset, st.entries[k].sgOffset, b.d);
  }

  lemma {:induction false} DescriptorsAscend(b: Buffers, st: ListState, i: nat, k: nat)
    requires Placed(b, st) && i < k < |st.entries|
    ensures st.entries[i].sgOffset < st.entries[k].sgOffset
    decreases k
  {
    DescriptorsPlaced(b, st, k - 1);
    if i < k - 1 { DescriptorsAscend(b, st, i, k - 1); }
  }

  lemma {:induction false} AlignedApart(pl: seq<Extent>, o: nat, o': nat, d: DescSize)
    requires WellFormed(pl) && Disjoint(pl) && Fits(pl, o, d) && Fits(pl, o', d) && o != o'
    ensures Phys(pl, o) + 64 <= Phys(pl, o') || Phys(pl, o') + 64 <= Phys(pl, o)
  {
    PhysInjective(pl, o, o');
  }

  /** A list with more descriptors than there are slots has exactly one more, and it starts past the buffer's end. */
  lemma {:induction false} ListGoesAstray(b: Buffers, st: ListState)
    requires Placed(b, st) && |st.entries| > |Slots(b.sg, 0, b.d)|
    ensures |st.entries| == |Slots(b.sg, 0, b.d)| + 1
    ensures st.entries[|st.entries| - 1].sgOffset > Total(b.sg)
  {
    SlotsThenAstray(b.sg, 0, b.d);
    EntryAtPlace(b, st, |st.entries| - 1);
  }

  /** With room at the end of the buffer that cannot happen to any run of adds. */
  lemma {:induction false} RoomNeverExceeded(b: Buffers, ops: seq<AddOp>)
    requires RoomAtTheEnd(b.sg, b.d) && Disjoint(b.sg)
    ensures |Run(b, ops).entries| <= |SlotAddresses(b.sg, b.d)|
  {
    RunKeepsInvariants(b, ops);
    PlacesAreSlotsExactly(b.sg, b.d);
    CapacityIsSlots(b.sg, b.d);
  }

  // ----- capacity

  /** The slots from the list's offset on are those its entries have not taken. */
  lemma {:induction false} RestOfSlots(b: Buffers, ops: seq<AddOp>)
    ensures |Run(b, ops).entries| <= |Slots(b.sg, 0, b.d)| ==>
              Slots(b.sg, Run(b, ops).sgOffset, b.d) == Slots(b.sg, 0, b.d)[|Run(b, ops).entries|..]
  {
    var st := Run(b, ops);
    RunKeepsInvariants(b, ops);
    EmptyIsFresh(b, ops);
    if 0 < |st.entries| <= |Slots(b.sg, 0, b.d)| {
      SlotsThenAstray(b.sg, 0, b.d);
      RestAfter(b, st, Slots(b.sg, 0, b.d), Places(b.sg, 0, b.d), Places(b.sg, st.sgOffset, b.d));
    }
  }

  lemma {:induction false} RestAfter(b: Buffers, st: ListState, slots: seq<nat>, all: seq<nat>, rest: seq<nat>)
    requires slots == Slots(b.sg, 0, b.d) && ThenAstray(slots, all, Total(b.sg))
    requires TakenFrom(all, rest, st, b.d) && 0 < |st.entries| <= |slots|
    ensures Slots(b.sg, st.sgOffset, b.d) == slots[|st.entries|..]
  {
    SlotsSplit(b.sg, 0, b.d, |st.entries|);
  }

  /** No usable slot is ever skipped: those taken and those still ahead make up the whole capacity. */
  lemma {:induction false} CapacityKept(b: Buffers, ops: seq<AddOp>)
    requires Disjoint(b.sg)
    ensures |Run(b, ops).entries| <= |SlotAddresses(b.sg, b.d)| ==>
              |Run(b, ops).entries| + |Slots(b.sg, Run(b, ops).sgOffset, b.d)| == |SlotAddresses(b.sg, b.d)|
  {
    CapacityIsSlots(b.sg, b.d);
    RestOfSlots(b, ops);
  }

  /** What is still handed out then are exactly these slots, if and only if there is room at the end. */
  lemma {:induction false} ReachableAreSlots(b: Buffers, ops: seq<AddOp>)
    ensures |Run(b, ops).entries| <= |Slots(b.sg, 0, b.d)| ==>
              (Places(b.sg, Run(b, ops).sgOffset, b.d) == Slots(b.sg, Run(b, ops).sgOffset, b.d) <==>
               RoomAtTheEnd(b.sg, b.d))
  {
    var st := Run(b, ops);
    RunKeepsInvariants(b, ops);
    RestOfSlots(b, ops);
    SlotsThenAstray(b.sg, 0, b.d);
    PlacesAreSlotsExactly(b.sg, b.d);
    RestsDiffer(Slots(b.sg, 0, b.d), Places(b.sg, 0, b.d), Total(b.sg), |st.entries|);
  }

  lemma {:induction false} RestsDiffer(slots: seq<nat>, places: seq<nat>, total: nat, n: nat)
    requires ThenAstray(slots, places, total)
    ensures n <= |slots| ==> n <= |places| && (slots[n..] == places[n..] <==> slots == places)
  {
    if slots != places && n <= |slots| { assert |slots[n..]| != |places[n..]|; }
  }

  lemma {:induction false} EmptyIsFresh(b: Buffers, ops: seq<AddOp>)
    ensures |Run(b, ops).entries| == 0 ==> Run(b, ops).sgOffset == 0
  {
    if ops != [] {
      var op := ops[|ops| - 1];
      var st := Run(b, ops[..|ops| - 1]);
      EmptyIsFresh(b, ops[..|ops| - 1]);
      if AddOutcome(b, st, op.sz, op.mallocs) == AddSuccess {
        assert |NewNodes(b, st, op.sz)| > 0;
      }
    }
  }

  // ----- when an add succeeds

  /** How many extents the buffer [off, off + sz) touches. */
  ghost function Touched(pl: seq<Extent>, off: nat, sz: nat): int
    requires 0 < sz && off + sz <= Total(pl)
  {
    IndexOf(pl, off + sz - 1) - IndexOf(pl, off) + 1
  }

  /** Enough data bytes are left, enough nodes, and enough of capacity descriptors, one for each extent touched. */
  ghost predicate CanAdd(b: Buffers, st: ListState, sz: nat, mallocs: nat, capacity: nat)
    requires sz > 0
  {
    && st.dataOffset + sz <= Total(b.data)
    && Touched(b.data, st.dataOffset, sz) <= mallocs
    && |st.entries| + Touched(b.data, st.dataOffset, sz) <= capacity
  }

  /**
   An add succeeds exactly when enough data bytes are left, enough descriptor places are ahead for the
   data extents it touches, and every node is allocated; it then adds one node per extent touched.
   */
  lemma {:induction false} AddSucceedsExactly(b: Buffers, st: ListState, sz: nat, mallocs: nat)
    requires sz > 0
    ensures AddOutcome(b, st, sz, mallocs) == AddSuccess <==>
            CanAdd(b, st, sz, mallocs, |st.entries| + |Places(b.sg, st.sgOffset, b.d)|)
    ensures AddOutcome(b, st, sz, mallocs) == AddSuccess ==>
              |AddStep(b, st, sz, mallocs).entries| == |st.entries| + Touched(b.data, st.dataOffset, sz)
  {
    if st.dataOffset + sz <= Total(b.data) { CutCount(b.data, st.dataOffset, sz); }
  }

  /** The slots that physical memory has, and one place more where there is no room at the end. */
  ghost function PlacesInAll(b: Buffers): nat {
    |SlotAddresses(b.sg, b.d)| + if RoomAtTheEnd(b.sg, b.d) then 0 else 1
  }

  /** After any run, the descriptors that count are those of physical memory. */
  lemma {:induction false} RunAddSucceedsExactly(b: Buffers, ops: seq<AddOp>, sz: nat, mallocs: nat)
    requires sz > 0 && Disjoint(b.sg)
    ensures AddOutcome(b, Run(b, ops), sz, mallocs) == AddSuccess <==>
            CanAdd(b, Run(b, ops), sz, mallocs, PlacesInAll(b))
  {
    PlacesLeft(b, ops);
    AddSucceedsWithin(b, Run(b, ops), sz, mallocs, PlacesInAll(b));
  }

  lemma {:induction false} AddSucceedsWithin(b: Buffers, st: ListState, sz: nat, mallocs: nat, capacity: nat)
    requires sz > 0 && |st.entries| + |Places(b.sg, st.sgOffset, b.d)| == capacity
    ensures AddOutcome(b, st, sz, mallocs) == AddSuccess <==> CanAdd(b, st, sz, mallocs, capacity)
  {
    AddSucceedsExactly(b, st, sz, mallocs);
  }

  lemma {:induction false} PlacesLeft(b: Buffers, ops: seq<AddOp>)
    requires Disjoint(b.sg)
    ensures |Run(b, ops).entries| + |Places(b.sg, Run(b, ops).sgOffset, b.d)| == PlacesInAll(b)
  {
    RunKeepsInvariants(b, ops);
    CapacityIsSlots(b.sg, b.d);
    SlotsThenAstray(b.sg, 0, b.d);
    PlacesAreSlotsExactly(b.sg, b.d);
  }

  /**
   What a call answers when the data buffer suffices: the first thing that is missing as the extents are
   served one by one, a place before the node that goes with it. No bytes at all are an error.
   */
  lemma {:induction false} AddAnswers(b: Buffers, st: ListState, sz: nat, mallocs: nat)
    requires st.dataOffset + sz <= Total(b.data)
    ensures sz == 0 ==> AddOutcome(b, st, sz, mallocs) == AddError
    ensures sz > 0 ==>
              var touched := IndexOf(b.data, st.dataOffset + sz - 1) - IndexOf(b.data, st.dataOffset) + 1;
              var room := |Places(b.sg, st.sgOffset, b.d)|;
              AddOutcome(b, st, sz, mallocs) ==
                if room < touched && room <= mallocs then AddSgOom
                else if mallocs < touched then AddError
                else AddSuccess
  {
    if sz > 0 { CutCount(b.data, st.dataOffset, sz); }
  }

  /** Which failure is reported when the data buffer is short: extents left are still served first. */
  lemma {:induction false} ShortOfDataReports(b: Buffers, st: ListState, sz: nat, mallocs: nat)
    requires sz > 0 && st.dataOffset + sz > Total(b.data)
    ensures var left := if st.dataOffset < Total(b.data) then |b.data| - IndexOf(b.data, st.dataOffset) else 0;
            var room := |Places(b.sg, st.sgOffset, b.d)|;
            AddOutcome(b, st, sz, mallocs) ==
              if room < left && room <= mallocs then AddSgOom
              else if mallocs < left then AddError
              else AddBufOom
  {
    if st.dataOffset < Total(b.data) { CutCountBeyond(b.data, st.dataOffset, sz); }
  }
}
