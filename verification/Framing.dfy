/** The SOF and EOF flags along the list: one well-bracketed frame for each successful add. */
module Framing {
  import opened Carving
  import opened CarvingRuns

  function SumLen(es: seq<Node>): nat {
    if es == [] then 0 else SumLen(es[..|es| - 1]) + es[|es| - 1].len
  }

  function Sum(sizes: seq<nat>): nat {
    if sizes == [] then 0 else Sum(sizes[..|sizes| - 1]) + sizes[|sizes| - 1]
  }

  /** A frame opens at its first entry, closes at its last, and nowhere in between; it spans sz bytes. */
  predicate IsFrame(es: seq<Node>, sz: nat) {
    && |es| > 0 && SumLen(es) == sz
    && (forall i :: 0 <= i < |es| ==> (es[i].sof <==> i == 0))
    && (forall i :: 0 <= i < |es| ==> (es[i].eof <==> i == |es| - 1))
  }

  function Flatten(frames: seq<seq<Node>>): seq<Node> {
    if frames == [] then [] else Flatten(frames[..|frames| - 1]) + frames[|frames| - 1]
  }

  /** The sizes asked for by the successful calls of a run, in order. */
  ghost function Sizes(b: Buffers, ops: seq<AddOp>): seq<nat> {
    if ops == [] then []
    else
      var op, before := ops[|ops| - 1], ops[..|ops| - 1];
      if AddOutcome(b, Run(b, before), op.sz, op.mallocs) == AddSuccess then Sizes(b, before) + [op.sz]
      else Sizes(b, before)
  }

  /** The entries each successful call appended. */
  ghost function Frames(b: Buffers, ops: seq<AddOp>): seq<seq<Node>> {
    if ops == [] then []
    else
      var op, before := ops[|ops| - 1], ops[..|ops| - 1];
      var st := Run(b, before);
      if AddOutcome(b, st, op.sz, op.mallocs) == AddSuccess then Frames(b, before) + [NewNodes(b, st, op.sz)]
      else Frames(b, before)
  }

  lemma {:induction false} NewNodesSum(b: Buffers, st: ListState, sz: nat, i: nat)
    requires Available(b, st, sz) && i < |NewNodes(b, st, sz)|
    ensures var ns := NewNodes(b, st, sz);
            SumLen(ns[..i + 1]) == ns[i].dataOffset + ns[i].len - st.dataOffset
  {
    var ns := NewNodes(b, st, sz);
    NewNodesTile(b, st, sz, i);
    assert ns[..i + 1][..i] == ns[..i];
    if i > 0 {
      NewNodesTile(b, st, sz, i - 1);
      NewNodesSum(b, st, sz, i - 1);
    }
  }

  lemma {:induction false} NewNodesFrame(b: Buffers, st: ListState, sz: nat)
    requires Available(b, st, sz)
    ensures IsFrame(NewNodes(b, st, sz), sz)
  {
    var ns := NewNodes(b, st, sz);
    NewNodesSum(b, st, sz, |ns| - 1);
    NewNodesTile(b, st, sz, |ns| - 1);
    assert ns[..|ns|] == ns;
  }

  ghost predicate AllFrames(frames: seq<seq<Node>>, sizes: seq<nat>) {
    && |frames| == |sizes|
    && forall k :: 0 <= k < |frames| ==> IsFrame(frames[k], sizes[k])
  }

  lemma {:induction false} FlattenSnoc(frames: seq<seq<Node>>, f: seq<Node>)
    ensures Flatten(frames + [f]) == Flatten(frames) + f
  {
    assert (frames + [f])[..|frames|] == frames;
  }

  lemma {:induction false} SumSnoc(sizes: seq<nat>, n: nat)
    ensures Sum(sizes + [n]) == Sum(sizes) + n
  {
    assert (sizes + [n])[..|sizes|] == sizes;
  }

  /** A list made of these frames, of these sizes. */
  ghost predicate Framed(st: ListState, frames: seq<seq<Node>>, sizes: seq<nat>) {
    Flatten(frames) == st.entries && AllFrames(frames, sizes) && st.dataOffset == Sum(sizes)
  }

  lemma {:induction false} AppendKeepsFramed(b: Buffers, st: ListState, sz: nat, frames: seq<seq<Node>>, sizes: seq<nat>)
    requires Available(b, st, sz) && Framed(st, frames, sizes)
    ensures Framed(Appended(b, st, sz), frames + [NewNodes(b, st, sz)], sizes + [sz])
  {
    NewNodesFrame(b, st, sz);
    FlattenSnoc(frames, NewNodes(b, st, sz));
    SumSnoc(sizes, sz);
  }

  /** After any run the list is the concatenation of one frame per successful add. */
  lemma {:induction false} RunIsFramed(b: Buffers, ops: seq<AddOp>)
    ensures Framed(Run(b, ops), Frames(b, ops), Sizes(b, ops))
  {
    if ops != [] {
      var op, before := ops[|ops| - 1], ops[..|ops| - 1];
      RunIsFramed(b, before);
      if AddOutcome(b, Run(b, before), op.sz, op.mallocs) == AddSuccess {
        AppendKeepsFramed(b, Run(b, before), op.sz, Frames(b, before), Sizes(b, before));
      }
    }
  }

  // ----- counting frames

  /** What that comes to: the flags of the k-th frame, its bytes, and where they lie. */
  lemma {:induction false} FrameMeans(b: Buffers, ops: seq<AddOp>, k: nat, i: nat)
    requires k < |Frames(b, ops)| && i < |Frames(b, ops)[k]|
    ensures var f := Frames(b, ops)[k];
            && |Frames(b, ops)| == |Sizes(b, ops)|
            && (f[i].sof <==> i == 0) && (f[i].eof <==> i == |f| - 1)
            && SumLen(f) == Sizes(b, ops)[k]
  {
    RunIsFramed(b, ops);
    assert IsFrame(Frames(b, ops)[k], Sizes(b, ops)[k]);
  }

  /** The sizes are those of the calls that succeed, in order. */
  lemma {:induction false} SizesGrow(b: Buffers, ops: seq<AddOp>, op: AddOp)
    ensures Sizes(b, []) == []
    ensures Sizes(b, ops + [op]) ==
            Sizes(b, ops) + if AddOutcome(b, Run(b, ops), op.sz, op.mallocs) == AddSuccess then [op.sz] else []
  {
    assert (ops + [op])[..|ops|] == ops;
  }

  function EofCount(es: seq<Node>): nat {
    if es == [] then 0 else EofCount(es[..|es| - 1]) + (if es[|es| - 1].eof then 1 else 0)
  }

  lemma {:induction false} EofCountConcat(s: seq<Node>, t: seq<Node>)
    ensures EofCount(s + t) == EofCount(s) + EofCount(t)
  {
    if t == [] {
      assert s + t == s;
    } else {
      assert (s + t)[..|s + t| - 1] == s + t[..|t| - 1];
      EofCountConcat(s, t[..|t| - 1]);
    }
  }

  lemma {:induction false} NoEof(es: seq<Node>)
    requires forall i :: 0 <= i < |es| ==> !es[i].eof
    ensures EofCount(es) == 0
  {
    if es != [] { NoEof(es[..|es| - 1]); }
  }

  lemma {:induction false} FramesCounted(frames: seq<seq<Node>>, sizes: seq<nat>)
    requires AllFrames(frames, sizes)
    ensures EofCount(Flatten(frames)) == |frames|
  {
    if frames != [] {
      var n := |frames| - 1;
      var f := frames[n];
      FramesCounted(frames[..n], sizes[..n]);
      EofCountConcat(Flatten(frames[..n]), f);
      assert IsFrame(f, sizes[n]);
      NoEof(f[..|f| - 1]);
    }
  }

  /** The transfer's counting loop counts the successful adds. */
  lemma {:induction false} RunEofCount(b: Buffers, ops: seq<AddOp>)
    ensures EofCount(Run(b, ops).entries) == |Sizes(b, ops)|
  {
    RunIsFramed(b, ops);
    FramesCounted(Frames(b, ops), Sizes(b, ops));
  }
}
