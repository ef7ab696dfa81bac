/**
 What adding a buffer to a scatter-gather list does, on values: the buffer is cut where the data
 extents end, and each piece is given the next descriptor place.
 */
module Carving {
  import opened Machine
  import opened Physlist
  import opened Placement
  import opened SlotWalk

  /** The two pinned buffers behind a list, and the size of a descriptor. */
  datatype BufferPair = BufferPair(sg: seq<Extent>, data: seq<Extent>, d: DescSize)

  ghost predicate Usable(b: BufferPair) {
    WellFormed(b.sg) && Paged(b.sg) && WellFormed(b.data)
  }

  type Buffers = b: BufferPair | Usable(b) witness BufferPair([], [], 56)

  /** The values held by one `sg_entry`. */
  datatype Node = Node(sgOffset: nat, dataOffset: nat, bufPhys: nat, len: nat, sof: bool, eof: bool)

  /** The abstract value of an `sg_list`. */
  datatype ListState = ListState(entries: seq<Node>, sgOffset: nat, dataOffset: nat)

  /** `add_entry_code`. */
  datatype AddCode = AddSuccess | AddSgOom | AddBufOom | AddError

  datatype Piece = Piece(off: nat, len: nat)

  /** [off, off + sz), as far as the buffer reaches, cut where extents end. */
  ghost function Cut(pl: seq<Extent>, off: nat, sz: nat): seq<Piece>
    decreases sz
  {
    if sz == 0 || off >= Total(pl) then []
    else
      var space := Start(pl, IndexOf(pl, off) + 1) - off;
      if sz <= space then [Piece(off, sz)]
      else [Piece(off, space)] + Cut(pl, off + space, sz - space)
  }

  /**
   The answer of `axidma_add_entry`; mallocs is the number of node allocations that succeed before
   one fails. Pieces are served in order: first a place for the descriptor, then the node.
   */
  ghost function AddOutcome(b: Buffers, st: ListState, sz: nat, mallocs: nat): AddCode
  {
    if sz == 0 then AddError
    else if st.dataOffset >= Total(b.data) then AddBufOom
    else
      PiecesOutcome(|Cut(b.data, st.dataOffset, sz)|, |Places(b.sg, st.sgOffset, b.d)|, mallocs,
                    st.dataOffset + sz > Total(b.data))
  }

  /** How serving the pieces ends: room places and mallocs nodes are there for need pieces. */
  function PiecesOutcome(need: nat, room: nat, mallocs: nat, short: bool): AddCode {
    if room < need && room <= mallocs then AddSgOom
    else if mallocs < need then AddError
    else if short then AddBufOom
    else AddSuccess
  }

  /** One node for each piece, at the places given. */
  ghost function NodesFor(pl: seq<Extent>, pieces: seq<Piece>, places: seq<nat>): seq<Node>
    requires |pieces| <= |places|
  {
    seq(|pieces|, i requires 0 <= i < |pieces| =>
      Node(places[i], pieces[i].off, PhysOrNull(pl, pieces[i].off), pieces[i].len, i == 0, i == |pieces| - 1))
  }

  /** Piece k lies in extent index + k; it ends with the buffer or with that extent, whichever comes first. */
  ghost predicate PieceAt(pl: seq<Extent>, index: nat, end: nat, pieces: seq<Piece>, k: nat)
    requires k < |pieces|
  {
    var i := index + k;
    && i < |pl| && Start(pl, i) <= pieces[k].off < Start(pl, i + 1) <= Total(pl) && pieces[k].off < end
    && pieces[k].len == (if end <= Start(pl, i + 1) then end else Start(pl, i + 1)) - pieces[k].off
    && (k + 1 == |pieces| <==> end <= Start(pl, i + 1) || i + 1 == |pl|)
    && (k + 1 < |pieces| ==> pieces[k + 1].off == Start(pl, i + 1))
  }

  ghost predicate PiecesAt(pl: seq<Extent>, index: nat, end: nat, pieces: seq<Piece>) {
    forall k {:trigger PieceAt(pl, index, end, pieces, k)} ::
      0 <= k < |pieces| ==> PieceAt(pl, index, end, pieces, k)
  }

  lemma {:induction false} CutAt(pl: seq<Extent>, off: nat, sz: nat, index: nat, k: nat)
    requires WellFormed(pl) && Holds(pl, index, off) && k < |Cut(pl, off, sz)|
    ensures PieceAt(pl, index, off + sz, Cut(pl, off, sz), k)
    decreases k
  {
    InExtent(pl, index, off);
    HoldsNext(pl, index);
    StartMonotone(pl, index + 1, |pl|);
    var space := Start(pl, index + 1) - off;
    if sz > space && off + space < Total(pl) {
      var rest := Cut(pl, off + space, sz - space);
      assert Cut(pl, off, sz) == [Piece(off, space)] + rest;
      if k == 0 {
        CutStartsAt(pl, off + space, sz - space, index + 1);
      } else {
        CutAt(pl, off + space, sz - space, index + 1, k - 1);
      }
    }
  }

  lemma {:induction false} CutStartsAt(pl: seq<Extent>, off: nat, sz: nat, i: nat)
    requires Holds(pl, i, off) && sz > 0
    ensures |Cut(pl, off, sz)| > 0 && Cut(pl, off, sz)[0].off == off
  {
    InExtent(pl, i, off);
  }

  lemma {:induction false} HoldsNext(pl: seq<Extent>, i: nat)
    requires WellFormed(pl) && i < |pl|
    ensures if i + 1 < |pl| then Holds(pl, i + 1, Start(pl, i + 1)) && Start(pl, i + 1) < Total(pl)
            else Start(pl, i + 1) == Total(pl)
  {
    if i + 1 < |pl| { StartMonotone(pl, i + 2, |pl|); }
  }

  /** Every piece lies in the buffer, and in a single extent of it. */
  lemma {:induction false} CutInside(pl: seq<Extent>, off: nat, sz: nat, i: nat)
    requires i < |Cut(pl, off, sz)|
    ensures var p := Cut(pl, off, sz)[i];
            && off <= p.off < Total(pl) && 0 < p.len
            && p.off + p.len <= Start(pl, IndexOf(pl, p.off) + 1) <= Total(pl)
            && p.off + p.len <= off + sz
    decreases i
  {
    var space := Start(pl, IndexOf(pl, off) + 1) - off;
    StartMonotone(pl, IndexOf(pl, off) + 1, |pl|);
    if i > 0 { CutInside(pl, off + space, sz - space, i - 1); }
  }

  /** The pieces lie end to end, from off to where the buffer or the extents end. */
  lemma {:induction false} CutTiles(pl: seq<Extent>, off: nat, sz: nat, i: nat)
    requires off < Total(pl) && i < |Cut(pl, off, sz)|
    ensures var c := Cut(pl, off, sz);
            && c[0].off == off
            && c[i].off + c[i].len ==
               if i + 1 < |c| then c[i + 1].off
               else if off + sz <= Total(pl) then off + sz else Total(pl)
    decreases sz
  {
    var space := Start(pl, IndexOf(pl, off) + 1) - off;
    StartMonotone(pl, IndexOf(pl, off) + 1, |pl|);
    if sz > space {
      if off + space < Total(pl) {
        var rest := Cut(pl, off + space, sz - space);
        CutTiles(pl, off + space, sz - space, if i == 0 then 0 else i - 1);
      }
    }
  }

  lemma {:induction false} NextExtent(pl: seq<Extent>, off: nat)
    requires WellFormed(pl) && off < Total(pl) && Start(pl, IndexOf(pl, off) + 1) < Total(pl)
    ensures IndexOf(pl, Start(pl, IndexOf(pl, off) + 1)) == IndexOf(pl, off) + 1
  {
    var i := IndexOf(pl, off) + 1;
    InExtent(pl, i, Start(pl, i));
  }

  /** There are as many pieces as the buffer touches extents. */
  lemma {:induction false} CutCount(pl: seq<Extent>, off: nat, sz: nat)
    requires WellFormed(pl) && 0 < sz && off + sz <= Total(pl)
    ensures |Cut(pl, off, sz)| == IndexOf(pl, off + sz - 1) - IndexOf(pl, off) + 1
    decreases sz
  {
    var i := IndexOf(pl, off);
    var space := Start(pl, i + 1) - off;
    if sz <= space {
      InExtent(pl, i, off + sz - 1);
    } else {
      var next, rest := off + space, sz - space;
      NextExtent(pl, off);
      CutCount(pl, next, rest);
      assert next + rest == off + sz;
      assert |Cut(pl, off, sz)| == 1 + |Cut(pl, next, rest)|;
    }
  }

  /** A buffer that does not fit touches every extent from off on. */
  lemma {:induction false} CutCountBeyond(pl: seq<Extent>, off: nat, sz: nat)
    requires WellFormed(pl) && off < Total(pl) < off + sz
    ensures |Cut(pl, off, sz)| == |pl| - IndexOf(pl, off)
    decreases sz
  {
    var i := IndexOf(pl, off);
    var space := Start(pl, i + 1) - off;
    StartMonotone(pl, i + 1, |pl|);
    if i + 1 < |pl| {
      OneExtentEach(pl, i + 1, |pl|);
      NextExtent(pl, off);
      CutCountBeyond(pl, off + space, sz - space);
    }
  }

  /** The buffer and its descriptors can be had: enough bytes, and a place for every piece. */
  ghost predicate Available(b: Buffers, st: ListState, sz: nat) {
    && 0 < sz && st.dataOffset + sz <= Total(b.data)
    && |Cut(b.data, st.dataOffset, sz)| <= |Places(b.sg, st.sgOffset, b.d)|
  }

  /** The nodes a successful add appends. */
  ghost function NewNodes(b: Buffers, st: ListState, sz: nat): (nodes: seq<Node>)
    requires Available(b, st, sz)
    ensures |nodes| == |Cut(b.data, st.dataOffset, sz)| > 0
  {
    NodesFor(b.data, Cut(b.data, st.dataOffset, sz), Places(b.sg, st.sgOffset, b.d))
  }

  /** The list with one more buffer: its nodes appended, both offsets advanced. */
  ghost function Appended(b: Buffers, st: ListState, sz: nat): ListState
    requires Available(b, st, sz)
  {
    var nodes := NewNodes(b, st, sz);
    ListState(st.entries + nodes, nodes[|nodes| - 1].sgOffset + b.d, st.dataOffset + sz)
  }

  /** A failing add changes nothing. */
  ghost function AddStep(b: Buffers, st: ListState, sz: nat, mallocs: nat): ListState
  {
    if AddOutcome(b, st, sz, mallocs) == AddSuccess then Appended(b, st, sz) else st
  }

  // ----- runs

  /** A call of `axidma_add_entry`. */
  datatype AddOp = AddOp(sz: u32, mallocs: nat)

  const FRESH := ListState([], 0, 0)

  /** The list after a run of calls on a fresh list, in order, successful or not. */
  ghost function Run(b: Buffers, ops: seq<AddOp>): ListState
  {
    if ops == [] then FRESH
    else
      var op := ops[|ops| - 1];
      AddStep(b, Run(b, ops[..|ops| - 1]), op.sz, op.mallocs)
  }
}
