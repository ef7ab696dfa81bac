/** Walking a finished list: which descriptors make up one returned buffer, and where the walk ends. */
module Traversal {
  import opened Machine
  import opened Carving
  import opened Descriptors

  /** `buf_code`. */
  datatype BufCode = TransferSuccess | TransferFailed | EndOfList

  /** `s2mm_buf`; base 0 is NULL. */
  datatype S2mmBuf = S2mmBuf(base: nat, len: nat, code: BufCode)

  /** `to_vist`: NULL, or entry i of the list; the sentinel comes after the last entry. */
  datatype Position = Unset | At(i: nat)

  const NO_BUFFER := S2mmBuf(0, 0, EndOfList)

  predicate Failed(s: Status) {
    !s.complete || s.decodeErr || s.intErr || s.slaveErr
  }

  predicate AnyFailed(sts: seq<Status>, i: nat, j: nat)
    requires j <= |sts|
  {
    exists k :: i <= k < j && Failed(sts[k])
  }

  /** The group that starts at entry i ends at the next reported EOF, or at the last entry. */
  function GroupEnd(sts: seq<Status>, i: nat): (j: nat)
    requires i < |sts|
    ensures i <= j < |sts|
    decreases |sts| - i
  {
    if sts[i].eof || i + 1 == |sts| then i else GroupEnd(sts, i + 1)
  }

  lemma {:induction false} GroupEndIs(sts: seq<Status>, i: nat, j: nat)
    requires i <= j < |sts| && (sts[j].eof || j + 1 == |sts|)
    requires forall k :: i <= k < j ==> !sts[k].eof
    ensures GroupEnd(sts, i) == j
    decreases j - i
  {
    if i < j { GroupEndIs(sts, i + 1, j); }
  }

  function SumStatus(sts: seq<Status>, i: nat, j: nat): nat
    requires i <= j <= |sts|
  {
    if i == j then 0 else SumStatus(sts, i, j - 1) + sts[j - 1].len
  }

  /** The same, added up in 32 bits. */
  function Length32(sts: seq<Status>, i: nat, j: nat): u32
    requires i <= j <= |sts|
  {
    SumStatus(sts, i, j) % U32
  }

  lemma {:induction false} Length32Adds(sts: seq<Status>, i: nat, j: nat)
    requires i <= j < |sts|
    ensures Length32(sts, i, j + 1) == Wrap32(Length32(sts, i, j) + sts[j].len)
  {
  }

  lemma {:induction false} Length32Exact(sts: seq<Status>, i: nat, j: nat)
    requires i <= j <= |sts|
    ensures Length32(sts, i, j) <= SumStatus(sts, i, j)
    ensures Length32(sts, i, j) == SumStatus(sts, i, j) <==> SumStatus(sts, i, j) < U32
  {
  }

  /** Positions a list with these statuses can be at. */
  predicate Possible(sts: seq<Status>, pos: Position) {
    pos.At? ==> pos.i <= |sts|
  }

  /** The buffer `axidma_dequeue_s2mm_buf` returns; its length field is a 32-bit sum. */
  function Returned(dataBuf: nat, es: seq<Node>, sts: seq<Status>, pos: Position): S2mmBuf
    requires |sts| == |es| && Possible(sts, pos)
  {
    if pos.Unset? || pos.i == |es| then NO_BUFFER
    else
      var j := GroupEnd(sts, pos.i) + 1;
      S2mmBuf(dataBuf + es[pos.i].dataOffset, Length32(sts, pos.i, j),
              if AnyFailed(sts, pos.i, j) then TransferFailed else TransferSuccess)
  }

  /** Where a call leaves the walk: past the group, and off the list once its end has been reported. */
  function Next(sts: seq<Status>, pos: Position): (pos': Position)
    requires Possible(sts, pos)
    ensures Possible(sts, pos')
  {
    if pos.Unset? || pos.i == |sts| then Unset else At(GroupEnd(sts, pos.i) + 1)
  }

  /** Where k calls leave the walk. */
  function Walk(sts: seq<Status>, pos: Position, k: nat): (pos': Position)
    requires Possible(sts, pos)
    ensures Possible(sts, pos')
  {
    if k == 0 then pos else Next(sts, Walk(sts, pos, k - 1))
  }

  /**
   What one call returns from entry i on: the place of that entry, the lengths of its group added up in
   32 bits, and a failure exactly when a descriptor of the group is incomplete or has an error bit set.
   */
  lemma {:induction false} CallReturns(dataBuf: nat, es: seq<Node>, sts: seq<Status>, i: nat)
    requires |sts| == |es| && i < |es|
    ensures var r, end := Returned(dataBuf, es, sts, At(i)), GroupEnd(sts, i);
            && r.base == dataBuf + es[i].dataOffset
            && r.len == SumStatus(sts, i, end + 1) % 0x1_0000_0000
            && r.code != EndOfList
            && (r.code == TransferFailed <==>
                  exists j :: i <= j <= end &&
                    (!sts[j].complete || sts[j].decodeErr || sts[j].intErr || sts[j].slaveErr))
  {
  }

  /** Off the list, and once its end has been reported, there is nothing to return. */
  lemma {:induction false} NothingReturned(dataBuf: nat, es: seq<Node>, sts: seq<Status>, pos: Position)
    requires |sts| == |es| && Possible(sts, pos)
    ensures Returned(dataBuf, es, sts, pos) == S2mmBuf(0, 0, EndOfList) <==> pos == Unset || pos == At(|es|)
  {
  }

  /** A group ends at the first EOF that is reported from its start on, or else with the list. */
  lemma {:induction false} GroupEndExactly(sts: seq<Status>, i: nat, j: nat)
    requires i <= j < |sts|
    ensures GroupEnd(sts, i) == j <==> (sts[j].eof || j + 1 == |sts|) && forall k :: i <= k < j ==> !sts[k].eof
    decreases j - i
  {
    if i < j && !sts[i].eof { GroupEndExactly(sts, i + 1, j); }
  }

  /** Where the groups from entry i on start. */
  function Groups(sts: seq<Status>, i: nat): (g: seq<nat>)
    requires i <= |sts|
    ensures forall k :: 0 <= k < |g| ==> i <= g[k] < |sts|
    decreases |sts| - i
  {
    if i == |sts| then [] else [i] + Groups(sts, GroupEnd(sts, i) + 1)
  }

  /** The groups are consecutive: each starts where the one before ended, and the last ends with the list. */
  lemma {:induction false} GroupsPartition(sts: seq<Status>, i: nat, k: nat)
    requires i <= |sts| && k < |Groups(sts, i)|
    ensures |Groups(sts, i)| <= |sts| - i
    ensures Groups(sts, i)[0] == i
    ensures GroupEnd(sts, Groups(sts, i)[k]) + 1 ==
            if k + 1 < |Groups(sts, i)| then Groups(sts, i)[k + 1] else |sts|
    decreases |sts| - i
  {
    var next := GroupEnd(sts, i) + 1;
    if next < |sts| {
      GroupsPartition(sts, next, if k == 0 then 0 else k - 1);
    }
  }

  /** Repeated calls visit the groups one by one ... */
  lemma {:induction false} WalkVisitsGroups(sts: seq<Status>, i: nat, k: nat)
    requires i <= |sts| && k <= |Groups(sts, i)|
    ensures Walk(sts, At(i), k) == At(if k < |Groups(sts, i)| then Groups(sts, i)[k] else |sts|)
    decreases k
  {
    if k > 0 {
      WalkVisitsGroups(sts, i, k - 1);
      GroupsPartition(sts, i, k - 1);
    } else if i < |sts| {
      assert Groups(sts, i)[0] == i;
    }
  }

  /** ... and after that report the end of the list, for good. */
  lemma {:induction false} WalkEnds(dataBuf: nat, es: seq<Node>, sts: seq<Status>, i: nat, k: nat)
    requires |sts| == |es| && i <= |sts|
    ensures |Groups(sts, i)| <= |sts| - i
    ensures Returned(dataBuf, es, sts, Walk(sts, At(i), k)).code == EndOfList <==> k >= |Groups(sts, i)|
    ensures k > |Groups(sts, i)| ==> Walk(sts, At(i), k) == Unset
    decreases k
  {
    var n := |Groups(sts, i)|;
    if n > 0 { GroupsPartition(sts, i, 0); }
    if k <= n {
      WalkVisitsGroups(sts, i, k);
    } else {
      WalkEnds(dataBuf, es, sts, i, k - 1);
      WalkVisitsGroups(sts, i, n);
    }
  }

  /** Call k fails exactly when group k holds a descriptor that is incomplete or has an error bit set. */
  lemma {:induction false} GroupFails(dataBuf: nat, es: seq<Node>, sts: seq<Status>, i: nat, k: nat)
    requires |sts| == |es| && i <= |sts| && k < |Groups(sts, i)|
    ensures var start := Groups(sts, i)[k];
            Returned(dataBuf, es, sts, Walk(sts, At(i), k)).code == TransferFailed <==>
              exists j :: start <= j <= GroupEnd(sts, start) &&
                (!sts[j].complete || sts[j].decodeErr || sts[j].intErr || sts[j].slaveErr)
  {
    WalkVisitsGroups(sts, i, k);
    CallReturns(dataBuf, es, sts, Groups(sts, i)[k]);
  }

  /** All the lengths returned by the first k calls. */
  function TotalReturned(dataBuf: nat, es: seq<Node>, sts: seq<Status>, i: nat, k: nat): nat
    requires |sts| == |es| && i <= |sts|
  {
    if k == 0 then 0
    else TotalReturned(dataBuf, es, sts, i, k - 1) + Returned(dataBuf, es, sts, Walk(sts, At(i), k - 1)).len
  }

  lemma {:induction false} SumSplits(sts: seq<Status>, i: nat, j: nat, k: nat)
    requires i <= j <= k <= |sts|
    ensures SumStatus(sts, i, k) == SumStatus(sts, i, j) + SumStatus(sts, j, k)
    decreases k
  {
    if j < k { SumSplits(sts, i, j, k - 1); }
  }

  /** Where group k starts; past the last group, where the list ends. */
  function GroupStart(sts: seq<Status>, i: nat, k: nat): (s: nat)
    requires i <= |sts| && k <= |Groups(sts, i)|
    ensures i <= s <= |sts|
  {
    if k < |Groups(sts, i)| then Groups(sts, i)[k] else |sts|
  }

  /** All the lengths the device reported in group k. */
  function GroupSum(sts: seq<Status>, i: nat, k: nat): nat
    requires i <= |sts| && k < |Groups(sts, i)|
  {
    var start := GroupStart(sts, i, k);
    SumStatus(sts, start, GroupEnd(sts, start) + 1)
  }

  /** Call k never returns more than its group reported, and returns all of it exactly when that is below 2^32. */
  lemma {:induction false} GroupIsReported(dataBuf: nat, es: seq<Node>, sts: seq<Status>, i: nat, k: nat)
    requires |sts| == |es| && i <= |sts| && k < |Groups(sts, i)|
    ensures var len := Returned(dataBuf, es, sts, Walk(sts, At(i), k)).len;
            len <= GroupSum(sts, i, k) && (len == GroupSum(sts, i, k) <==> GroupSum(sts, i, k) < U32)
    ensures SumStatus(sts, i, GroupStart(sts, i, k + 1)) == SumStatus(sts, i, GroupStart(sts, i, k)) + GroupSum(sts, i, k)
  {
    var start := GroupStart(sts, i, k);
    WalkVisitsGroups(sts, i, k);
    GroupsPartition(sts, i, k);
    Length32Exact(sts, start, GroupEnd(sts, start) + 1);
    SumSplits(sts, i, start, GroupEnd(sts, start) + 1);
  }

  /**
   Nothing the device reported is counted twice, and nothing is lost exactly as long as no single
   group reaches 2^32, whatever the whole list adds up to.
   */
  lemma {:induction false} TotalIsReported(dataBuf: nat, es: seq<Node>, sts: seq<Status>, i: nat, k: nat)
    requires |sts| == |es| && i <= |sts| && k <= |Groups(sts, i)|
    ensures var all := SumStatus(sts, i, GroupStart(sts, i, k));
            && TotalReturned(dataBuf, es, sts, i, k) <= all
            && (TotalReturned(dataBuf, es, sts, i, k) == all <==> forall g :: 0 <= g < k ==> GroupSum(sts, i, g) < U32)
    decreases k
  {
    if k > 0 {
      TotalIsReported(dataBuf, es, sts, i, k - 1);
      GroupIsReported(dataBuf, es, sts, i, k - 1);
    } else if i < |sts| {
      assert Groups(sts, i)[0] == i;
    }
  }

  // ----- a group that is too long

  const FULL := Status(LEN_SPAN - 1, false, false, false, false, false, true)

  lemma {:induction false} FullSum(sts: seq<Status>, n: nat)
    requires n <= |sts| && forall i :: 0 <= i < |sts| ==> sts[i] == FULL
    ensures SumStatus(sts, 0, n) == n * (LEN_SPAN - 1)
  {
    if n > 0 { FullSum(sts, n - 1); }
  }

  /** 65 full descriptors without an EOF among them: the one buffer returned is said to be shorter than it is. */
  lemma {:induction false} LongGroupLosesLength(dataBuf: nat, es: seq<Node>, sts: seq<Status>)
    requires |sts| == |es| == 65 && forall i :: 0 <= i < |sts| ==> sts[i] == FULL
    ensures Groups(sts, 0) == [0]
    ensures Returned(dataBuf, es, sts, At(0)).len == SumStatus(sts, 0, 65) - U32
  {
    GroupEndIs(sts, 0, 64);
    FullSum(sts, 65);
  }
}
