/** `sg_list`: apportioning buffers and keeping their scatter-gather entries. */
module SgLists {
  import opened Machine
  import opened Physlist
  import opened Placement
  import opened SlotWalk
  import opened Carving
  import opened Ring

  class SgList {
    const sentinel: SgEntry
    var toVisit: SgEntry?

    const sgBuf: nat
    var sgOffset: u32
    const dataBuf: nat
    var dataOffset: u32
    /** `sg_plist` and `data_plist`, and the size of a descriptor. */
    const b: Buffers

    /** The entries, in the order of the ring. */
    ghost var nodes: seq<SgEntry>

    ghost predicate Valid()
      reads `nodes, sentinel`next, sentinel`prev, nodes`next, nodes`prev
    {
      IsRing(sentinel, nodes)
    }

    ghost function State(): ListState
      reads `nodes, `sgOffset, `dataOffset
      reads nodes`sgOffset, nodes`dataOffset, nodes`bufPhys, nodes`len, nodes`isSof, nodes`isEof
    {
      ListState(Values(nodes), sgOffset, dataOffset)
    }

    /** `axidma_list_new`, once the list itself has been allocated. */
    constructor (sgBuf: nat, dataBuf: nat, b: Buffers)
      ensures Valid() && State() == FRESH && toVisit == null && nodes == []
      ensures this.sgBuf == sgBuf && this.dataBuf == dataBuf && this.b == b
      ensures fresh(sentinel)
    {
      sentinel := new SgEntry();
      toVisit := null;
      this.sgBuf, sgOffset, this.dataBuf, dataOffset, this.b := sgBuf, 0, dataBuf, 0, b;
      nodes := [];
      new;
      InitNode(sentinel);
    }

    /**
     `axidma_add_entry`; mallocs is the number of node allocations that will succeed. Nothing of the
     list is touched before everything has succeeded, and a failing call leaves no node behind.
     */
    method AddEntry(heap: Heap, sz: u32, mallocs: nat) returns (code: AddCode, ghost added: seq<SgEntry>)
      requires Valid() && NodeSet(nodes) <= heap.live
      modifies `sgOffset, `dataOffset, `nodes, heap, sentinel`prev, sentinel.prev`next
      ensures Valid()
      ensures code == AddOutcome(b, old(State()), sz, mallocs)
      ensures State() == AddStep(b, old(State()), sz, mallocs)
      ensures code != AddSuccess ==> heap.live == old(heap.live) && unchanged(this, sentinel, old(nodes))
      ensures code == AddSuccess ==>
                && nodes == old(nodes) + added && fresh(NodeSet(added))
                && heap.live == old(heap.live) + NodeSet(added)
    {
      added := [];
      if sz == 0 {
        return AddError, added;
      }
      var ind, offsetInEntry := GetEntryIndex(b.data, dataOffset);
      if ind == -1 {
        return AddBufOom, added;
      }
      ghost var st := State();
      ghost var p := PlanFor(b, st, sz, mallocs, ind);
      code, added := AddPieces(heap, sz, mallocs, ind, offsetInEntry, st, p);
      OutcomeIs(b, st, sz, mallocs, p, code);
    }

    /** The call once its arguments are known to be good: build aside, then commit. */
    method AddPieces(heap: Heap, sz: u32, mallocs: nat, ind: nat, offsetInEntry: u32, ghost st: ListState, ghost p: Plan)
      returns (code: AddCode, ghost added: seq<SgEntry>)
      requires Valid() && State() == st
      requires p.Valid() && p.b == b && p.mallocs == mallocs
      requires Stands(p, 0, Cursor(ind, offsetInEntry, sz, sgOffset, dataOffset))
      modifies `sgOffset, `dataOffset, `nodes, heap, sentinel`prev, sentinel.prev`next
      ensures Valid()
      ensures code == p.Outcome()
      ensures code != AddSuccess ==> heap.live == old(heap.live) && unchanged(this, sentinel, old(nodes))
      ensures code != AddSuccess ==> State() == st
      ensures code == AddSuccess ==>
                && 0 < |p.pieces| <= |p.places|
                && State() == Extended(st, p)
                && nodes == old(nodes) + added && fresh(NodeSet(added))
                && heap.live == old(heap.live) + NodeSet(added)
    {
      var tmp, sgOff, dataOff;
      code, tmp, sgOff, dataOff, added := BuildFrame(heap, b, mallocs,
                                                     Cursor(ind, offsetInEntry, sz, sgOffset, dataOffset), p);
      assert State() == st;
      if code == AddSuccess {
        Commit(tmp, added, st, p.nodes, sgOff, dataOff);
      }
    }

    /** Splices the temporary list in and takes over the new offsets. */
    method Commit(tmp: SgEntry, ghost made: seq<SgEntry>, ghost st: ListState, ghost ns: seq<Node>,
                  sgOff: u32, dataOff: u32)
      requires Valid() && IsRing(tmp, made) && |made| > 0 && tmp != sentinel && tmp !in nodes
      requires forall x :: x in NodeSet(made) ==> x != sentinel && x !in nodes
      requires State() == st && Values(made) == ns
      modifies `sgOffset, `dataOffset, `nodes, sentinel`prev, sentinel.prev`next, tmp.next`prev, tmp.prev`next
      ensures Valid() && nodes == old(nodes) + made
      ensures State() == ListState(st.entries + ns, sgOff, dataOff)
    {
      Splice(sentinel, tmp, nodes, made, st.entries, ns);
      sgOffset, dataOffset := sgOff, dataOff;
      nodes := nodes + made;
    }
  }

  /** The C heap, as far as list objects go. */
  class Lists {
    var live: set<SgList>
  }

  /** `axidma_list_new`. */
  method ListNew(lists: Lists, sgBuf: nat, dataBuf: nat, b: Buffers, canAlloc: bool) returns (lst: SgList?)
    modifies lists
    ensures lst != null <==> canAlloc
    ensures lists.live == old(lists.live) + if lst == null then {} else {lst}
    ensures lst != null ==>
              && fresh(lst) && fresh(lst.sentinel) && lst.Valid() && lst.State() == FRESH
              && lst.toVisit == null && lst.nodes == []
              && lst.sgBuf == sgBuf && lst.dataBuf == dataBuf && lst.b == b
  {
    if !canAlloc {
      return null;
    }
    var list := new SgList(sgBuf, dataBuf, b);
    lists.live := lists.live + {list};
    lst := list;
  }

  /** `axidma_list_del`: every node is freed, then the list, and nothing else. */
  method ListDel(lists: Lists, heap: Heap, lst: SgList?)
    requires lst != null ==> lst in lists.live && lst.Valid() && NodeSet(lst.nodes) <= heap.live
    modifies lists, heap
    ensures heap.live == old(heap.live) - if lst == null then {} else NodeSet(lst.nodes)
    ensures lists.live == old(lists.live) - if lst == null then {} else {lst}
  {
    if lst == null {
      return;
    }
    FreeList(heap, lst.sentinel, lst.nodes);
    lists.live := lists.live - {lst};
  }

  method Splice(head: SgEntry, tmp: SgEntry, ghost nodes: seq<SgEntry>, ghost made: seq<SgEntry>,
                ghost es: seq<Node>, ghost ns: seq<Node>)
    requires IsRing(head, nodes) && IsRing(tmp, made) && |made| > 0 && tmp != head && tmp !in nodes
    requires forall x :: x in NodeSet(made) ==> x != head && x !in nodes
    requires Values(nodes) == es && Values(made) == ns
    modifies head`prev, head.prev`next, tmp.next`prev, tmp.prev`next
    ensures IsRing(head, nodes + made) && Values(nodes + made) == es + ns
  {
    assert forall j :: 0 <= j < |made| ==> made[j] in NodeSet(made);
    AddListBefore(head, tmp, nodes, made);
    ValuesConcat(nodes, made);
  }

  /**
   What a call of add has before it: the pieces of its buffer, the first of them in extent index and
   the buffer ending at end; the places ahead of sgStart; the nodes to make; and how many of them can
   be allocated.
   */
  datatype Plan = Plan(b: Buffers, sgStart: nat, index: nat, end: nat,
                       pieces: seq<Piece>, places: seq<nat>, nodes: seq<Node>, mallocs: nat)
  {
    ghost predicate Valid() {
      && PiecesAt(b.data, index, end, pieces) && PlacesAt(b.sg, sgStart, b.d, places)
      && (|pieces| <= |places| ==> nodes == NodesFor(b.data, pieces, places))
    }

    ghost function Outcome(): AddCode {
      PiecesOutcome(|pieces|, |places|, mallocs, end > Total(b.data))
    }
  }

  /** The local variables of `axidma_add_entry` that its loop updates. */
  datatype Cursor = Cursor(ind: nat, offsetInEntry: u32, sz: u32, sgOffset: u32, dataOffset: u32)

  /** Where the loop stands before piece k: sz bytes are still to be served, from dataOffset on. */
  ghost predicate Stands(p: Plan, k: nat, c: Cursor) {
    && k < |p.pieces| && k <= |p.places| && c.ind == p.index + k && c.ind < |p.b.data|
    && c.dataOffset == p.pieces[k].off && 0 < c.sz && c.dataOffset + c.sz == p.end
    && c.offsetInEntry == c.dataOffset - Start(p.b.data, c.ind)
    && c.sgOffset == if k == 0 then p.sgStart else p.places[k - 1] + p.b.d
  }

  lemma {:induction false} PlanFor(b: Buffers, st: ListState, sz: nat, mallocs: nat, index: nat) returns (p: Plan)
    requires sz > 0 && Holds(b.data, index, st.dataOffset)
    ensures p.Valid() && p.b == b && p.sgStart == st.sgOffset && p.index == index
    ensures p.end == st.dataOffset + sz && p.mallocs == mallocs
    ensures p.pieces == Cut(b.data, st.dataOffset, sz) && p.places == Places(b.sg, st.sgOffset, b.d)
    ensures |p.pieces| > 0 && p.pieces[0].off == st.dataOffset
  {
    var pieces, places := Cut(b.data, st.dataOffset, sz), Places(b.sg, st.sgOffset, b.d);
    var end := st.dataOffset + sz;
    p := Plan(b, st.sgOffset, index, end, pieces, places,
              if |pieces| <= |places| then NodesFor(b.data, pieces, places) else [], mallocs);
    CutStartsAt(b.data, st.dataOffset, sz, index);
    forall k {:trigger PieceAt(b.data, index, end, pieces, k)} | 0 <= k < |pieces|
      ensures PieceAt(b.data, index, end, pieces, k)
    {
      CutAt(b.data, st.dataOffset, sz, index, k);
    }
    forall k | 0 <= k <= |places| ensures PlaceAt(b.sg, st.sgOffset, b.d, places, k) {
      PlacesNext(b.sg, st.sgOffset, b.d, k);
    }
  }

  lemma {:induction false} OutcomeIs(b: Buffers, st: ListState, sz: nat, mallocs: nat, p: Plan, code: AddCode)
    requires sz > 0 && st.dataOffset < Total(b.data) && p.Valid()
    requires p.b == b && p.end == st.dataOffset + sz && p.mallocs == mallocs
    requires p.pieces == Cut(b.data, st.dataOffset, sz) && p.places == Places(b.sg, st.sgOffset, b.d)
    requires code == p.Outcome()
    ensures code == AddOutcome(b, st, sz, mallocs)
    ensures code == AddSuccess ==> Available(b, st, sz)
    ensures code == AddSuccess ==> 0 < |p.pieces| <= |p.places| && AddStep(b, st, sz, mallocs) == Extended(st, p)
    ensures code != AddSuccess ==> AddStep(b, st, sz, mallocs) == st
  {
  }

  /** The list with the planned nodes appended, and both offsets past them. */
  ghost function Extended(st: ListState, p: Plan): ListState
    requires 0 < |p.pieces| <= |p.places|
  {
    ListState(st.entries + p.nodes, p.places[|p.pieces| - 1] + p.b.d, p.end)
  }

  /** The first node of a buffer is flagged SOF and the last one EOF. */
  ghost function Flagged(vals: seq<Node>): seq<Node> {
    seq(|vals|, i requires 0 <= i < |vals| =>
      vals[i].(sof := i == 0 || vals[i].sof, eof := i == |vals| - 1 || vals[i].eof))
  }

  lemma {:induction false} FlaggedBare(vals: seq<Node>, p: Plan)
    requires p.Valid() && Bare(vals, p) && |vals| == |p.pieces|
    ensures Flagged(vals) == p.nodes
  {
  }

  method FlagFrame(tmp: SgEntry, ghost made: seq<SgEntry>)
    requires IsRing(tmp, made) && |made| > 0
    modifies tmp.next`isSof, tmp.prev`isEof
    ensures IsRing(tmp, made) && Values(made) == Flagged(old(Values(made)))
  {
    forall i | 0 < i < |made| ensures made[0] != made[i] { RingDistinct(tmp, made, 0, i); }
    forall i | 0 <= i < |made| - 1 ensures made[i] != made[|made| - 1] { RingDistinct(tmp, made, i, |made| - 1); }
    tmp.next.isSof := true;
    tmp.prev.isEof := true;
  }

  /** Builds the whole temporary list, or frees again what there is of it. */
  method BuildFrame(heap: Heap, b: Buffers, mallocs: nat, start: Cursor, ghost p: Plan)
    returns (code: AddCode, tmp: SgEntry, sgOff: u32, dataOff: u32, ghost made: seq<SgEntry>)
    requires p.Valid() && p.b == b && p.mallocs == mallocs && Stands(p, 0, start)
    modifies heap
    ensures fresh(tmp) && code == p.Outcome()
    ensures code != AddSuccess ==> heap.live == old(heap.live)
    ensures code == AddSuccess ==>
              && tmp.next in NodeSet(made) && tmp.prev in NodeSet(made)
              && IsRing(tmp, made) && fresh(NodeSet(made)) && heap.live == old(heap.live) + NodeSet(made)
              && 0 < |made| == |p.pieces| <= |p.places|
              && Values(made) == p.nodes
              && sgOff == p.places[|p.pieces| - 1] + b.d && dataOff == p.end
  {
    tmp := new SgEntry();
    InitNode(tmp);
    code, sgOff, dataOff, made := BuildPieces(heap, tmp, b, mallocs, start, p);
    if code != AddSuccess {
      FreeList(heap, tmp, made);
      return;
    }
    FlaggedBare(Values(made), p);
    assert tmp.next in NodeSet(made) && tmp.prev in NodeSet(made);
    FlagFrame(tmp, made);
  }

  /** Allocates a node, fills it in and links it in at the end of the temporary list. */
  method MakeEntry(heap: Heap, tmp: SgEntry, b: Buffers, sgOff: u32, dataOff: u32, len: u32,
                   ghost made: seq<SgEntry>)
    returns (e: SgEntry)
    requires IsRing(tmp, made)
    modifies heap, tmp`prev, tmp.prev`next
    ensures fresh(e) && heap.live == old(heap.live) + {e}
    ensures IsRing(tmp, made + [e]) && tmp.prev == e && NodeSet(made + [e]) == NodeSet(made) + {e}
    ensures Values(made + [e]) ==
            old(Values(made)) + [Node(sgOff, dataOff, PhysOrNull(b.data, dataOff), len, false, false)]
  {
    e := heap.Malloc();
    e.sgOffset := sgOff;
    e.dataOffset := dataOff;
    e.bufPhys := VirtToPhys(b.data, dataOff);
    e.len := len;
    AddBefore(tmp, e, made);
    e.isEof := false;
    e.isSof := false;
    NodeSetGrows(made, e);
  }

  /** The nodes hold the pieces and places they stand for; frame flags are not set yet. */
  ghost predicate Bare(vals: seq<Node>, p: Plan) {
    && |vals| <= |p.pieces| && |vals| <= |p.places|
    && forall i :: 0 <= i < |vals| ==> vals[i] == BareNode(p, i)
  }

  ghost function BareNode(p: Plan, i: nat): Node
    requires i < |p.pieces| && i < |p.places|
  {
    Node(p.places[i], p.pieces[i].off, PhysOrNull(p.b.data, p.pieces[i].off), p.pieces[i].len, false, false)
  }

  /** The search for the descriptor of piece k finds place k of the plan. */
  method NextPlace(b: Buffers, sgOff: u32, ghost p: Plan, ghost k: nat) returns (place: u32)
    requires p.Valid() && p.b == b && k <= |p.places| && sgOff == if k == 0 then p.sgStart else p.places[k - 1] + b.d
    ensures place == if k < |p.places| then p.places[k] else NOT_FOUND
    ensures k < |p.places| ==> place < NOT_FOUND - 64
  {
    assert PlaceAt(b.sg, p.sgStart, b.d, p.places, k);
    PagedSearch(b.sg, sgOff, b.d);
    place := FindContiguousAlignedAfter(b.sg, sgOff, b.d);
  }

  /** One turn of the loop: a place for the descriptor, then a node holding it. The link goes in last. */
  method ServePiece(heap: Heap, tmp: SgEntry, b: Buffers, sgOff: u32, dataOff: u32, len: u32, canMalloc: bool,
                    ghost p: Plan, ghost made: seq<SgEntry>)
    returns (code: AddCode, next: u32, ghost made': seq<SgEntry>, ghost added: set<SgEntry>)
    requires IsRing(tmp, made) && Bare(Values(made), p) && p.Valid() && p.b == b
    requires |made| < |p.pieces| && p.pieces[|made|] == Piece(dataOff, len)
    requires sgOff == if |made| == 0 then p.sgStart else p.places[|made| - 1] + b.d
    modifies heap, tmp`prev, tmp.prev`next
    ensures code == if |made| == |p.places| then AddSgOom else if !canMalloc then AddError else AddSuccess
    ensures IsRing(tmp, made') && Bare(Values(made'), p)
    ensures fresh(added) && heap.live == old(heap.live) + added && NodeSet(made') == NodeSet(made) + added
    ensures code != AddSuccess ==> made' == made && tmp.prev == old(tmp.prev)
    ensures code == AddSuccess ==>
              |made'| == |made| + 1 <= |p.places| && next == p.places[|made|] + b.d && tmp.prev in added
  {
    made', added := made, {};
    var place := NextPlace(b, sgOff, p, |made|);
    if place == NOT_FOUND {
      return AddSgOom, place, made', added;
    }
    if !canMalloc {
      return AddError, place, made', added;
    }
    var e := MakeEntry(heap, tmp, b, place, dataOff, len, made);
    made', added := made + [e], {e};
    return AddSuccess, place + b.d, made', added;
  }

  /** What the loop learns from piece k: sz bytes are still to be served, space is left in the extent. */
  lemma {:induction false} PieceStep(p: Plan, k: nat, c: Cursor, space: int)
    requires p.Valid() && Stands(p, k, c) && space == p.b.data[c.ind].len - c.offsetInEntry
    ensures 0 < space < U32 && c.dataOffset + space < 0x8000_0000
    ensures p.pieces[k] == Piece(c.dataOffset, if space < c.sz then space else c.sz)
    ensures space >= c.sz ==> k + 1 == |p.pieces| && p.end <= Total(p.b.data)
    ensures space < c.sz && c.ind + 1 < |p.b.data| ==>
              k + 1 < |p.pieces| && p.pieces[k + 1].off == c.dataOffset + space == Start(p.b.data, c.ind + 1)
    ensures space < c.sz && c.ind + 1 >= |p.b.data| ==> k + 1 == |p.pieces| && p.end > Total(p.b.data)
  {
    assert PieceAt(p.b.data, p.index, p.end, p.pieces, k);
  }

  /**
   The body of the loop: serves the piece the cursor stands at. The loop goes on while done is false;
   code says what stopped it otherwise.
   */
  method Turn(heap: Heap, tmp: SgEntry, b: Buffers, c: Cursor, canMalloc: bool, ghost p: Plan, ghost made: seq<SgEntry>)
    returns (done: bool, code: AddCode, c': Cursor, ghost made': seq<SgEntry>, ghost added: set<SgEntry>)
    requires IsRing(tmp, made) && Bare(Values(made), p) && p.Valid() && p.b == b && Stands(p, |made|, c)
    requires |made| <= p.mallocs && (canMalloc <==> |made| < p.mallocs)
    modifies heap, tmp`prev, tmp.prev`next
    ensures IsRing(tmp, made') && Bare(Values(made'), p)
    ensures fresh(added) && heap.live == old(heap.live) + added && NodeSet(made') == NodeSet(made) + added
    ensures !done ==>
              && c'.sz < c.sz && Stands(p, |made'|, c') && canMalloc
              && |made'| == |made| + 1 && tmp.prev in added
    ensures done ==> code == p.Outcome()
    ensures done && code == AddSuccess ==>
              && |made'| == |p.pieces| <= |p.places| && c'.dataOffset == p.end
              && c'.sgOffset == p.places[|p.pieces| - 1] + b.d
  {
    PieceStep(p, |made|, c, b.data[c.ind].len - c.offsetInEntry);
    var space: u32 := b.data[c.ind].len - c.offsetInEntry;
    c' := c;

    var len := if space < c.sz then space else c.sz;
    var next;
    code, next, made', added := ServePiece(heap, tmp, b, c.sgOffset, c.dataOffset, len, canMalloc, p, made);
    if code != AddSuccess {
      done := true;
      return;
    }

    if space >= c.sz {
      done, c' := true, c.(sgOffset := next, dataOffset := c.dataOffset + c.sz);
      return;
    }
    done, c' := false, Cursor(c.ind + 1, 0, c.sz - space, next, c.dataOffset + space);
    if c'.ind >= |b.data| {
      done, code := true, AddBufOom;
    }
  }

  /** The loop that serves the pieces of a buffer one by one; it fills the temporary list only. */
  method BuildPieces(heap: Heap, tmp: SgEntry, b: Buffers, mallocs: nat, start: Cursor, ghost p: Plan)
    returns (code: AddCode, sgOff: u32, dataOff: u32, ghost made: seq<SgEntry>)
    requires IsRing(tmp, []) && p.Valid() && p.b == b && p.mallocs == mallocs && Stands(p, 0, start)
    modifies heap, tmp`prev, tmp`next
    ensures IsRing(tmp, made) && fresh(NodeSet(made)) && heap.live == old(heap.live) + NodeSet(made)
    ensures code == p.Outcome()
    ensures code == AddSuccess ==>
              && 0 < |made| == |p.pieces| <= |p.places|
              && Bare(Values(made), p)
              && sgOff == p.places[|p.pieces| - 1] + b.d && dataOff == p.end
  {
    var c, left: nat, done := start, mallocs, false;
    ghost var added: set<SgEntry>;
    code, made := AddSuccess, [];
    while !done
      invariant IsRing(tmp, made) && Bare(Values(made), p)
      invariant fresh(NodeSet(made)) && heap.live == old(heap.live) + NodeSet(made)
      invariant !done ==> mallocs == left + |made| && Stands(p, |made|, c)
      invariant !done ==> tmp.prev == tmp || tmp.prev in NodeSet(made)
      invariant done ==> code == p.Outcome()
      invariant done && code == AddSuccess ==>
                  && |made| == |p.pieces| <= |p.places| && c.dataOffset == p.end
                  && c.sgOffset == p.places[|p.pieces| - 1] + b.d
      decreases !done, c.sz
    {
      done, code, c, made, added := Turn(heap, tmp, b, c, left > 0, p, made);
      if !done {
        left := left - 1;
      }
    }
    sgOff, dataOff := c.sgOffset, c.dataOffset;
  }
}
