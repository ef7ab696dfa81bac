/** From adding buffers to getting them back: lists, descriptors, the device and the traversal together. */
module RoundTrip {
  import opened Machine
  import opened Carving
  import opened CarvingRuns
  import opened Framing
  import opened Descriptors
  import opened Traversal

  // ----- where the frames lie in the list

  function FrameStart(frames: seq<seq<Node>>, k: nat): nat
    requires k <= |frames|
  {
    if k == 0 then 0 else FrameStart(frames, k - 1) + |frames[k - 1]|
  }

  lemma {:induction false} StartIsLength(frames: seq<seq<Node>>, k: nat)
    requires k <= |frames|
    ensures FrameStart(frames, k) == |Flatten(frames[..k])|
  {
    if k > 0 {
      StartIsLength(frames, k - 1);
      assert frames[..k][..k - 1] == frames[..k - 1];
    }
  }

  lemma {:induction false} PrefixesNest(frames: seq<seq<Node>>, k: nat)
    requires k <= |frames|
    ensures Flatten(frames[..k]) <= Flatten(frames)
    decreases |frames| - k
  {
    if k < |frames| {
      PrefixesNest(frames, k + 1);
      assert frames[..k + 1][..k] == frames[..k];
    } else {
      assert frames[..k] == frames;
    }
  }

  /** Frame k is the stretch of the list from its start on. */
  lemma {:induction false} FrameLies(frames: seq<seq<Node>>, k: nat)
    requires k < |frames|
    ensures var s := FrameStart(frames, k);
            && s + |frames[k]| == FrameStart(frames, k + 1) <= |Flatten(frames)|
            && Flatten(frames)[..s] == Flatten(frames[..k])
            && Flatten(frames)[s..s + |frames[k]|] == frames[k]
  {
    StartIsLength(frames, k);
    StartIsLength(frames, k + 1);
    PrefixesNest(frames, k);
    PrefixesNest(frames, k + 1);
    assert frames[..k + 1][..k] == frames[..k];
  }

  lemma {:induction false} SumLenConcat(s: seq<Node>, t: seq<Node>)
    ensures SumLen(s + t) == SumLen(s) + SumLen(t)
  {
    if t == [] {
      assert s + t == s;
    } else {
      assert (s + t)[..|s + t| - 1] == s + t[..|t| - 1];
      SumLenConcat(s, t[..|t| - 1]);
    }
  }

  lemma {:induction false} FramesSum(frames: seq<seq<Node>>, sizes: seq<nat>)
    requires AllFrames(frames, sizes)
    ensures SumLen(Flatten(frames)) == Sum(sizes)
  {
    if frames != [] {
      var n := |frames| - 1;
      FramesSum(frames[..n], sizes[..n]);
      SumLenConcat(Flatten(frames[..n]), frames[n]);
    }
  }

  /** An entry's data offset is the number of bytes given out before it. */
  lemma {:induction false} OffsetsAddUp(b: Buffers, st: ListState, i: nat)
    requires Tiled(b, st) && i <= |st.entries|
    ensures DataEnd(st.entries, i) == SumLen(st.entries[..i])
  {
    if i > 0 {
      OffsetsAddUp(b, st, i - 1);
      assert TiledAt(b.data, st.entries, i - 1);
      assert st.entries[..i][..i - 1] == st.entries[..i - 1];
    }
  }

  // ----- the device

  /** The status words of all descriptors, read back. */
  ghost function Statuses(words: Words, b: Buffers, es: seq<Node>): (sts: seq<Status>)
    requires Slotted(b, es)
    ensures |sts| == |es|
  {
    seq(|es|, i requires 0 <= i < |es| => ReadAt(words, Address(b, es, i)).status)
  }

  /** The device has filled every descriptor: what it reports is what the control word asked for. */
  ghost predicate FilledByDevice(before: Words, after: Words, b: Buffers, es: seq<Node>)
    requires Slotted(b, es)
  {
    forall i :: 0 <= i < |es| ==>
      var c := ReadAt(before, Address(b, es, i)).control;
      var s := ReadAt(after, Address(b, es, i)).status;
      s.len == c.len && s.eof == c.eof && !Failed(s)
  }

  /** Each status says that its entry has been filled, as far as the length asked for goes. */
  predicate AllFilled(es: seq<Node>, sts: seq<Status>) {
    && |sts| == |es|
    && forall i :: 0 <= i < |es| ==> sts[i].len == es[i].len % LEN_SPAN && sts[i].eof == es[i].eof && !Failed(sts[i])
  }

  /** No entry is too long for the length field of a descriptor. */
  predicate Short(es: seq<Node>) {
    forall i :: 0 <= i < |es| ==> es[i].len < LEN_SPAN
  }

  lemma {:induction false} FilledAsAsked(words: Words, after: Words, b: Buffers, es: seq<Node>, sentinelOffset: u32)
    requires Slotted(b, es) && FilledByDevice(Written(words, b, es, sentinelOffset), after, b, es)
    ensures AllFilled(es, Statuses(after, b, es))
  {
    var before, sts := Written(words, b, es, sentinelOffset), Statuses(after, b, es);
    forall i | 0 <= i < |es|
      ensures sts[i].len == es[i].len % LEN_SPAN && sts[i].eof == es[i].eof && !Failed(sts[i])
    {
      var c := ReadAt(before, Address(b, es, i)).control;
      assert c.len == es[i].len % LEN_SPAN && c.eof == es[i].eof by { ListReadsBack(words, b, es, sentinelOffset, i); }
    }
  }

  /** The descriptor of a written list asks for its entry's whole length exactly when that is below 2^26. */
  lemma {:induction false} ControlAsksForAll(words: Words, b: Buffers, es: seq<Node>, sentinelOffset: u32, i: nat)
    requires Slotted(b, es) && i < |es|
    ensures var c := ReadAt(Written(words, b, es, sentinelOffset), Address(b, es, i)).control;
            c.len <= es[i].len && (c.len == es[i].len <==> es[i].len < 0x400_0000)
  {
    ListReadsBack(words, b, es, sentinelOffset, i);
    CutLength(es[i].len);
  }

  lemma {:induction false} CutLength(len: nat)
    ensures len % LEN_SPAN <= len
    ensures len % LEN_SPAN == len <==> len < LEN_SPAN
  {
  }

  /** An entry of 2^26 bytes: its descriptor asks for nothing. */
  lemma {:induction false} LongEntryAsksForNothing(words: Words, b: Buffers, es: seq<Node>, sentinelOffset: u32, i: nat)
    requires Slotted(b, es) && i < |es| && es[i].len == 0x400_0000
    ensures ReadAt(Written(words, b, es, sentinelOffset), Address(b, es, i)).control.len == 0
  {
    ListReadsBack(words, b, es, sentinelOffset, i);
  }

  // ----- a device that does not overfill

  lemma {:induction false} StatusesAtMost(es: seq<Node>, sts: seq<Status>, n: nat)
    requires |sts| == |es| && n <= |es| && forall j :: 0 <= j < |es| ==> sts[j].len <= es[j].len
    ensures SumStatus(sts, 0, n) <= SumLen(es[..n])
  {
    if n > 0 {
      StatusesAtMost(es, sts, n - 1);
      assert es[..n][..n - 1] == es[..n - 1];
    }
  }

  /** What a device reports for a list built by adds fits 32 bits, unless it reports more than it was asked for. */
  lemma {:induction false} ReportsFit(b: Buffers, ops: seq<AddOp>, sts: seq<Status>)
    requires |sts| == |Run(b, ops).entries|
    requires forall j :: 0 <= j < |sts| ==> sts[j].len <= Run(b, ops).entries[j].len
    ensures SumStatus(sts, 0, |sts|) < U32
  {
    var st := Run(b, ops);
    RunKeepsInvariants(b, ops);
    StatusesAtMost(st.entries, sts, |sts|);
    OffsetsAddUp(b, st, |sts|);
    assert st.entries[..|sts|] == st.entries;
  }

  /** No length is lost, then, however the statuses group the descriptors. */
  lemma {:induction false} NothingIsLost(dataBuf: nat, b: Buffers, ops: seq<AddOp>, sts: seq<Status>, i: nat, k: nat)
    requires |sts| == |Run(b, ops).entries| && i <= |sts| && k <= |Groups(sts, i)|
    requires forall j :: 0 <= j < |sts| ==> sts[j].len <= Run(b, ops).entries[j].len
    ensures TotalReturned(dataBuf, Run(b, ops).entries, sts, i, k) == SumStatus(sts, i, GroupStart(sts, i, k))
  {
    ReportsFit(b, ops, sts);
    TotalIsReported(dataBuf, Run(b, ops).entries, sts, i, k);
    forall g | 0 <= g < k ensures GroupSum(sts, i, g) < U32 {
      var start := GroupStart(sts, i, g);
      var end := GroupEnd(sts, start) + 1;
      SumSplits(sts, 0, start, |sts|);
      SumSplits(sts, start, end, |sts|);
    }
  }

  // ----- getting the buffers back

  lemma {:induction false} StatusesSum(es: seq<Node>, sts: seq<Status>, s: nat, n: nat)
    requires AllFilled(es, sts) && s + n <= |es|
    ensures SumStatus(sts, s, s + n) <= SumLen(es[s..s + n])
    ensures SumStatus(sts, s, s + n) == SumLen(es[s..s + n]) <==> Short(es[s..s + n])
    decreases n
  {
    if n > 0 {
      StatusesSum(es, sts, s, n - 1);
      assert es[s..s + n][..n - 1] == es[s..s + n - 1];
      CutLength(es[s + n - 1].len);
      ShortSnoc(es[s..s + n - 1], es[s + n - 1]);
      assert es[s..s + n] == es[s..s + n - 1] + [es[s + n - 1]];
    }
  }

  lemma {:induction false} ShortSnoc(es: seq<Node>, e: Node)
    ensures Short(es + [e]) <==> Short(es) && e.len < LEN_SPAN
  {
    assert Short(es + [e]) ==> e.len < LEN_SPAN && Short(es) by {
      assert (es + [e])[|es|] == e;
      assert forall i :: 0 <= i < |es| ==> (es + [e])[i] == es[i];
    }
  }

  /**
   What the traversal should return for a buffer of this size at this place: all of it, unless one of
   its entries is too long for its descriptor.
   */
  predicate IsBuffer(r: S2mmBuf, base: nat, size: nat, frame: seq<Node>) {
    && r.base == base && r.code == TransferSuccess
    && r.len <= size && (r.len == size <==> Short(frame))
  }

  /** From the start of frame k, one call returns the whole frame. */
  lemma {:induction false} FrameReturned(b: Buffers, st: ListState, frames: seq<seq<Node>>, sizes: seq<nat>,
                                         sts: seq<Status>, dataBuf: nat, k: nat)
    requires Framed(st, frames, sizes) && Tiled(b, st) && AllFilled(st.entries, sts) && k < |frames|
    ensures FrameStart(frames, k) < FrameStart(frames, k + 1) <= |sts|
    ensures IsBuffer(Returned(dataBuf, st.entries, sts, At(FrameStart(frames, k))),
                     dataBuf + Sum(sizes[..k]), sizes[k], frames[k])
    ensures Next(sts, At(FrameStart(frames, k))) == At(FrameStart(frames, k + 1))
  {
    var es, s, f := st.entries, FrameStart(frames, k), frames[k];
    FrameLies(frames, k);
    assert IsFrame(f, sizes[k]);
    SizeFits(b, st, frames, sizes, k);
    FrameEnds(es, sts, s, f, sizes[k]);
    FrameBegins(b, st, frames, sizes, k);
    GroupIsBuffer(es, sts, dataBuf, s, f, sizes[k], Sum(sizes[..k]));
  }

  lemma {:induction false} GroupIsBuffer(es: seq<Node>, sts: seq<Status>, dataBuf: nat, s: nat, f: seq<Node>,
                                         size: nat, offset: nat)
    requires |sts| == |es| && s < |es| && |f| > 0 && s + |f| <= |es|
    requires GroupEnd(sts, s) == s + |f| - 1 && es[s].dataOffset == offset
    requires Length32(sts, s, s + |f|) <= size && (Length32(sts, s, s + |f|) == size <==> Short(f))
    requires !AnyFailed(sts, s, s + |f|)
    ensures IsBuffer(Returned(dataBuf, es, sts, At(s)), dataBuf + offset, size, f)
    ensures Next(sts, At(s)) == At(s + |f|)
  {
  }

  /** The statuses of a frame make up one group. */
  lemma {:induction false} FrameEnds(es: seq<Node>, sts: seq<Status>, s: nat, f: seq<Node>, size: nat)
    requires AllFilled(es, sts) && s + |f| <= |es| && es[s..s + |f|] == f && IsFrame(f, size) && size < U32
    ensures |f| > 0 && GroupEnd(sts, s) == s + |f| - 1
    ensures Length32(sts, s, s + |f|) <= size && (Length32(sts, s, s + |f|) == size <==> Short(f))
    ensures !AnyFailed(sts, s, s + |f|)
  {
    forall i | s <= i < s + |f| ensures sts[i].eof <==> i == s + |f| - 1 { assert es[i] == f[i - s]; }
    GroupEndIs(sts, s, s + |f| - 1);
    StatusesSum(es, sts, s, |f|);
    Length32Exact(sts, s, s + |f|);
  }

  /** A frame's first entry lies where the frames before it end. */
  lemma {:induction false} FrameBegins(b: Buffers, st: ListState, frames: seq<seq<Node>>, sizes: seq<nat>, k: nat)
    requires Framed(st, frames, sizes) && Tiled(b, st) && k < |frames|
    ensures var s := FrameStart(frames, k);
            s < |st.entries| && st.entries[s].dataOffset == Sum(sizes[..k])
  {
    FrameLies(frames, k);
    assert IsFrame(frames[k], sizes[k]);
    FramesSum(frames[..k], sizes[..k]);
    OffsetsAddUp(b, st, FrameStart(frames, k));
    assert TiledAt(b.data, st.entries, FrameStart(frames, k));
  }

  lemma {:induction false} SizeFits(b: Buffers, st: ListState, frames: seq<seq<Node>>, sizes: seq<nat>, k: nat)
    requires Framed(st, frames, sizes) && Tiled(b, st) && k < |sizes|
    ensures sizes[k] < U32
  {
    SumBounds(sizes, k);
  }

  lemma {:induction false} SumBounds(sizes: seq<nat>, k: nat)
    requires k < |sizes|
    ensures sizes[k] <= Sum(sizes)
  {
    if k < |sizes| - 1 { SumBounds(sizes[..|sizes| - 1], k); }
  }

  lemma {:induction false} WalkVisitsFrames(b: Buffers, st: ListState, frames: seq<seq<Node>>, sizes: seq<nat>,
                                            sts: seq<Status>, dataBuf: nat, k: nat)
    requires Framed(st, frames, sizes) && Tiled(b, st) && AllFilled(st.entries, sts) && k <= |frames|
    ensures FrameStart(frames, k) <= |sts| && Walk(sts, At(0), k) == At(FrameStart(frames, k))
  {
    if k > 0 {
      WalkVisitsFrames(b, st, frames, sizes, sts, dataBuf, k - 1);
      FrameReturned(b, st, frames, sizes, sts, dataBuf, k - 1);
    }
  }

  /**
   The round trip. Whatever calls of add made up the list, successful or not, and however their
   buffers were split: once the list has been written and the device has filled every descriptor,
   call k of the traversal returns the buffer of the k-th successful add, at its place, and whole if
   and only if none of its entries is too long for a descriptor; every later call reports the end of
   the list. RunIsSlotted says when the list can be written at all.
   */
  lemma {:induction false} AddedIsReturned(b: Buffers, ops: seq<AddOp>, words: Words, after: Words,
                                           sentinelOffset: u32, dataBuf: nat, k: nat)
    requires Slotted(b, Run(b, ops).entries)
    requires FilledByDevice(Written(words, b, Run(b, ops).entries, sentinelOffset), after, b, Run(b, ops).entries)
    ensures var es, sizes := Run(b, ops).entries, Sizes(b, ops);
            var sts := Statuses(after, b, es);
            var r := Returned(dataBuf, es, sts, Walk(sts, At(0), k));
            && |Frames(b, ops)| == |sizes|
            && if k < |sizes| then
                 && r.base == dataBuf + Sum(sizes[..k]) && r.code == TransferSuccess && r.len <= sizes[k]
                 && (r.len == sizes[k] <==> forall e :: e in Frames(b, ops)[k] ==> e.len < 0x400_0000)
               else r == S2mmBuf(0, 0, EndOfList)
  {
    AddedIsBuffer(b, ops, words, after, sentinelOffset, dataBuf, k);
    if k < |Frames(b, ops)| { ShortMeans(Frames(b, ops)[k]); }
  }

  lemma {:induction false} AddedIsBuffer(b: Buffers, ops: seq<AddOp>, words: Words, after: Words,
                                         sentinelOffset: u32, dataBuf: nat, k: nat)
    requires Slotted(b, Run(b, ops).entries)
    requires FilledByDevice(Written(words, b, Run(b, ops).entries, sentinelOffset), after, b, Run(b, ops).entries)
    ensures var es, sizes := Run(b, ops).entries, Sizes(b, ops);
            var sts := Statuses(after, b, es);
            var r := Returned(dataBuf, es, sts, Walk(sts, At(0), k));
            && |Frames(b, ops)| == |sizes|
            && if k < |sizes| then IsBuffer(r, dataBuf + Sum(sizes[..k]), sizes[k], Frames(b, ops)[k])
               else r == NO_BUFFER
  {
    var st, frames, sizes := Run(b, ops), Frames(b, ops), Sizes(b, ops);
    var sts := Statuses(after, b, st.entries);
    RunIsFramed(b, ops);
    RunKeepsInvariants(b, ops);
    FilledAsAsked(words, after, b, st.entries, sentinelOffset);
    ReturnedInOrder(b, st, frames, sizes, sts, dataBuf, k);
  }

  lemma {:induction false} ShortMeans(es: seq<Node>)
    ensures Short(es) <==> forall e :: e in es ==> e.len < 0x400_0000
  {
  }

  /** Entries cut from short extents are short. */
  lemma {:induction false} FrameIsShort(b: Buffers, ops: seq<AddOp>, k: nat)
    requires k < |Frames(b, ops)| && forall i :: 0 <= i < |b.data| ==> b.data[i].len < LEN_SPAN
    ensures Short(Frames(b, ops)[k])
  {
    RunIsFramed(b, ops);
    RunKeepsInvariants(b, ops);
    EntriesAreShort(b, Run(b, ops));
    ShortInAll(Frames(b, ops), k);
  }

  lemma {:induction false} EntriesAreShort(b: Buffers, st: ListState)
    requires Tiled(b, st) && forall i :: 0 <= i < |b.data| ==> b.data[i].len < LEN_SPAN
    ensures Short(st.entries)
  {
    forall i | 0 <= i < |st.entries| ensures st.entries[i].len < LEN_SPAN {
      assert TiledAt(b.data, st.entries, i);
    }
  }

  lemma {:induction false} ShortInAll(frames: seq<seq<Node>>, k: nat)
    requires k < |frames| && Short(Flatten(frames))
    ensures Short(frames[k])
  {
    FrameLies(frames, k);
    var s, all := FrameStart(frames, k), Flatten(frames);
    forall i | 0 <= i < |frames[k]| ensures frames[k][i].len < LEN_SPAN {
      assert frames[k][i] == all[s..s + |frames[k]|][i] == all[s + i];
    }
  }

  lemma {:induction false} ReturnedInOrder(b: Buffers, st: ListState, frames: seq<seq<Node>>, sizes: seq<nat>,
                                           sts: seq<Status>, dataBuf: nat, k: nat)
    requires Framed(st, frames, sizes) && Tiled(b, st) && AllFilled(st.entries, sts)
    ensures var r := Returned(dataBuf, st.entries, sts, Walk(sts, At(0), k));
            if k < |sizes| then IsBuffer(r, dataBuf + Sum(sizes[..k]), sizes[k], frames[k])
            else r == NO_BUFFER
    decreases k
  {
    if k < |frames| {
      WalkVisitsFrames(b, st, frames, sizes, sts, dataBuf, k);
      FrameReturned(b, st, frames, sizes, sts, dataBuf, k);
    } else if k == |frames| {
      WalkVisitsFrames(b, st, frames, sizes, sts, dataBuf, k);
      StartIsLength(frames, k);
      assert frames[..k] == frames;
    } else {
      AfterTheEnd(b, st, frames, sizes, sts, dataBuf, k);
    }
  }

  lemma {:induction false} AfterTheEnd(b: Buffers, st: ListState, frames: seq<seq<Node>>, sizes: seq<nat>,
                                       sts: seq<Status>, dataBuf: nat, k: nat)
    requires Framed(st, frames, sizes) && Tiled(b, st) && AllFilled(st.entries, sts) && k > |frames|
    ensures Walk(sts, At(0), k) == Unset
  {
    if k == |frames| + 1 {
      WalkVisitsFrames(b, st, frames, sizes, sts, dataBuf, |frames|);
      StartIsLength(frames, |frames|);
      assert frames[..|frames|] == frames;
    } else {
      AfterTheEnd(b, st, frames, sizes, sts, dataBuf, k - 1);
    }
  }
}
