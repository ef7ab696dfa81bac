/** Placing scatter-gather descriptors: contiguous, and aligned to 64 bytes in physical memory. */
module Placement {
  import opened Machine
  import opened Physlist

  const NOT_FOUND: u32 := 0xFFFF_FFFF

  /**
   The shape of a pinned buffer: its extents are cut at page boundaries, so only its very first and
   its very last byte can be off a 64-byte boundary.
   */
  ghost predicate Paged(pl: seq<Extent>) {
    && (forall i :: 0 < i < |pl| ==> pl[i].addr % 64 == 0)
    && (forall i :: 0 <= i < |pl| - 1 ==> (pl[i].addr + pl[i].len) % 64 == 0)
  }

  /** sz bytes can be placed at offset o: aligned in physical memory, and inside one extent. */
  ghost predicate Fits(pl: seq<Extent>, o: nat, sz: nat) {
    && o < Total(pl)
    && Phys(pl, o) % 64 == 0
    && o + sz <= Start(pl, IndexOf(pl, o) + 1)
  }

  /** That is: the bytes lie in one extent, and start at a physical address that is a multiple of 64. */
  lemma {:induction false} FitsExactly(pl: seq<Extent>, o: nat, sz: nat)
    requires sz > 0
    ensures Fits(pl, o, sz) <==>
              exists i :: 0 <= i < |pl| && Start(pl, i) <= o && o + sz <= Start(pl, i + 1) &&
                (pl[i].addr + (o - Start(pl, i))) % 64 == 0
  {
    if i :| 0 <= i < |pl| && Start(pl, i) <= o && o + sz <= Start(pl, i + 1) &&
            (pl[i].addr + (o - Start(pl, i))) % 64 == 0
    {
      InExtent(pl, i, o);
    }
    if Fits(pl, o, sz) {
      var i := IndexOf(pl, o);
      assert Start(pl, i) <= o && o + sz <= Start(pl, i + 1) && (pl[i].addr + (o - Start(pl, i))) % 64 == 0;
    }
  }

  /** r is the smallest offset from o on at which sz bytes can be placed. */
  ghost predicate IsFirst(pl: seq<Extent>, o: nat, sz: nat, r: nat) {
    o <= r && Fits(pl, r, sz) && forall x :: o <= x < r ==> !Fits(pl, x, sz)
  }

  /** What a search from offset o should find. */
  ghost function FirstFit(pl: seq<Extent>, o: nat, sz: nat): (r: nat)
    ensures r == NOT_FOUND || o <= r < Total(pl)
  {
    if r: nat :| IsFirst(pl, o, sz, r) then r else NOT_FOUND
  }

  /** A place, if there is any, has a first one before it. */
  lemma {:induction false} SomeFirst(pl: seq<Extent>, o: nat, sz: nat, x: nat) returns (r: nat)
    requires o <= x && Fits(pl, x, sz)
    ensures IsFirst(pl, o, sz, r)
    decreases x
  {
    if y: nat :| o <= y < x && Fits(pl, y, sz) {
      r := SomeFirst(pl, o, sz, y);
    } else {
      r := x;
    }
  }

  /** Sound, least and complete. */
  lemma {:induction false} FirstFitSpec(pl: seq<Extent>, o: nat, sz: nat)
    requires Total(pl) < NOT_FOUND
    ensures var r := FirstFit(pl, o, sz);
            && (r != 0xFFFF_FFFF ==> o <= r && Fits(pl, r, sz))
            && (forall x: nat :: o <= x && (r == 0xFFFF_FFFF || x < r) ==> !Fits(pl, x, sz))
  {
    forall x: nat | o <= x && Fits(pl, x, sz) ensures FirstFit(pl, o, sz) <= x {
      var r := SomeFirst(pl, o, sz, x);
      assert r < NOT_FOUND;
    }
  }

  /** Distance from physical address a up to the next 64-byte boundary. */
  function Pad(a: nat): (p: nat)
    ensures p < 64
    ensures (a + p) % 64 == 0
  {
    if a % 64 == 0 then 0 else 64 - a % 64
  }

  lemma {:induction false} ModDrop(k: nat, r: nat)
    ensures (64 * k + r) % 64 == r % 64
  {
  }

  /** Rounding offset o up to an aligned physical address runs past the end of the buffer. */
  ghost predicate Overruns(pl: seq<Extent>, o: nat) {
    o < Total(pl) && o + Pad(Phys(pl, o)) > Total(pl)
  }

  /** What the code returns: the first fit, or, when rounding up overruns, an offset beyond the buffer. */
  ghost function Find(pl: seq<Extent>, o: nat, sz: nat): (r: nat)
    ensures r == NOT_FOUND || o <= r < Total(pl) + 64
    ensures r != NOT_FOUND ==> o < Total(pl)
  {
    if Overruns(pl, o) then o + Pad(Phys(pl, o)) else FirstFit(pl, o, sz)
  }

  /** Offsets that cannot be used may be skipped. */
  lemma {:induction false} SkipUnfit(pl: seq<Extent>, o: nat, o': nat, sz: nat)
    requires o <= o' <= Total(pl) < NOT_FOUND
    requires forall x: nat :: o <= x < o' ==> !Fits(pl, x, sz)
    ensures FirstFit(pl, o, sz) == FirstFit(pl, o', sz)
  {
    FirstFitSpec(pl, o, sz);
    FirstFitSpec(pl, o', sz);
  }

  lemma {:induction false} FitIsFirst(pl: seq<Extent>, o: nat, sz: nat)
    requires Fits(pl, o, sz) && Total(pl) < NOT_FOUND
    ensures FirstFit(pl, o, sz) == o
  {
    assert IsFirst(pl, o, sz, o);
  }

  /** Between an offset and its rounded-up place nothing is aligned. */
  lemma {:induction false} PaddingUnfit(pl: seq<Extent>, i: nat, o: nat, o': nat, sz: nat)
    requires o < Total(pl) && Holds(pl, i, o) && o <= o' <= Start(pl, i + 1)
    requires o' <= o + Pad(Phys(pl, o))
    ensures forall x: nat :: o <= x < o' ==> !Fits(pl, x, sz)
  {
    InExtent(pl, i, o);
    forall x: nat | o <= x < o' ensures !Fits(pl, x, sz) { PhysRunsOn(pl, o, x - o); }
  }

  /** Where too little of an extent is left, nothing further on in that extent fits either. */
  lemma {:induction false} ShortTailUnfit(pl: seq<Extent>, i: nat, o: nat, sz: nat)
    requires i < |pl| && Start(pl, i) <= o && Start(pl, i + 1) < o + sz
    ensures forall x: nat :: o <= x < Start(pl, i + 1) ==> !Fits(pl, x, sz)
  {
    forall x: nat | o <= x < Start(pl, i + 1) ensures !Fits(pl, x, sz) { InExtent(pl, i, x); }
  }

  /** Only the last extent of a pinned buffer can be overrun. */
  lemma {:induction false} OverrunsOnlyAtTheEnd(pl: seq<Extent>, i: nat, o: nat)
    requires Paged(pl) && o < Total(pl) && Holds(pl, i, o)
    ensures o + Pad(Phys(pl, o)) > Start(pl, i + 1) <==> Overruns(pl, o)
    ensures Overruns(pl, o) ==> i == |pl| - 1
  {
    InExtent(pl, i, o);
    StartMonotone(pl, i + 1, |pl|);
    if i < |pl| - 1 { PadReaches(Phys(pl, o), Start(pl, i + 1) - o); }
  }

  lemma {:induction false} PadReaches(a: nat, rest: nat)
    requires (a + rest) % 64 == 0
    ensures Pad(a) <= rest
  {
    ModDrop(a / 64, a % 64 + rest);
  }

  lemma {:induction false} BoundaryNeverOverruns(pl: seq<Extent>, i: nat)
    requires WellFormed(pl) && Paged(pl) && 0 < i <= |pl|
    ensures !Overruns(pl, Start(pl, i))
  {
    if i < |pl| { InExtent(pl, i, Start(pl, i)); }
  }

  // ----- the search on any list

  /** A search that stands at offset o in extent i comes to extent j at its start, or at o itself. */
  ghost function EnteredAt(pl: seq<Extent>, i: nat, o: nat, j: nat): nat
    requires j < |pl|
  {
    if j == i then o else Start(pl, j)
  }

  /** Where the search then rounds up to. */
  ghost function RoundedIn(pl: seq<Extent>, i: nat, o: nat, j: nat): nat
    requires i <= |pl| && Start(pl, i) <= o && j < |pl|
  {
    var e := EnteredAt(pl, i, o, j);
    e + Pad(pl[j].addr + (e - Start(pl, j)))
  }

  /** Rounding up passes the end of extent j, and so the subtraction of the code wraps there. */
  ghost predicate WrapsIn(pl: seq<Extent>, i: nat, o: nat, j: nat)
    requires i <= |pl| && Start(pl, i) <= o
  {
    i <= j < |pl| && Start(pl, j + 1) < RoundedIn(pl, i, o, j)
  }

  /** That happens first in extent j, and before any place has been met. */
  ghost predicate StopsIn(pl: seq<Extent>, i: nat, o: nat, sz: nat, j: nat)
    requires i <= |pl| && Start(pl, i) <= o
  {
    && WrapsIn(pl, i, o, j)
    && (forall k :: i <= k < j ==> !WrapsIn(pl, i, o, k))
    && forall x :: o <= x < EnteredAt(pl, i, o, j) ==> !Fits(pl, x, sz)
  }

  /** The answer from offset o in extent i on: the first fit, unless the subtraction wraps before. */
  ghost function Search(pl: seq<Extent>, i: nat, o: nat, sz: nat): nat
    requires i <= |pl| && Start(pl, i) <= o
  {
    if j: nat :| StopsIn(pl, i, o, sz, j) then RoundedIn(pl, i, o, j) else FirstFit(pl, o, sz)
  }

  /** The answer for offset o. */
  ghost function Searched(pl: seq<Extent>, o: nat, sz: nat): nat {
    if o < Total(pl) then Search(pl, IndexOf(pl, o), o, sz) else NOT_FOUND
  }

  lemma {:induction false} SearchStops(pl: seq<Extent>, i: nat, o: nat, sz: nat, j: nat)
    requires i <= |pl| && Start(pl, i) <= o && StopsIn(pl, i, o, sz, j)
    ensures Search(pl, i, o, sz) == RoundedIn(pl, i, o, j)
  {
    assert forall k: nat :: StopsIn(pl, i, o, sz, k) ==> !(k < j) && !(j < k);
  }

  lemma {:induction false} SearchEnds(pl: seq<Extent>, sz: nat)
    ensures Search(pl, |pl|, Total(pl), sz) == NOT_FOUND
  {
  }

  /** What is decided inside one extent: rounded is the rounded-up place, and end is where the extent ends. */
  lemma {:induction false} SearchStep(pl: seq<Extent>, i: nat, o: nat, inEntry: nat, sz: nat)
    returns (rounded: nat, end: nat)
    requires Total(pl) < NOT_FOUND && 0 < sz && i < |pl|
    requires Start(pl, i) <= o <= Start(pl, i + 1) && inEntry == o - Start(pl, i)
    ensures end == Start(pl, i) + pl[i].len == Start(pl, i + 1) <= Total(pl)
    ensures rounded == o + Pad(pl[i].addr + inEntry)
    ensures Search(pl, i, o, sz) == if rounded > end || rounded + sz <= end then rounded else Search(pl, i + 1, end, sz)
  {
    StartMonotone(pl, i + 1, |pl|);
    rounded, end := RoundedIn(pl, i, o, i), Start(pl, i + 1);
    if rounded > end {
      SearchStops(pl, i, o, sz, i);
    } else if rounded + sz <= end {
      SearchFinds(pl, i, o, sz, rounded);
    } else {
      SearchGoesOn(pl, i, o, sz, rounded);
    }
  }

  lemma {:induction false} SearchFinds(pl: seq<Extent>, i: nat, o: nat, sz: nat, rounded: nat)
    requires Total(pl) < NOT_FOUND && 0 < sz && i < |pl| && Start(pl, i) <= o
    requires rounded == RoundedIn(pl, i, o, i) && rounded + sz <= Start(pl, i + 1)
    ensures Search(pl, i, o, sz) == rounded
  {
    InExtent(pl, i, o);
    StartMonotone(pl, i + 1, |pl|);
    PhysRunsOn(pl, o, rounded - o);
    PaddingUnfit(pl, i, o, rounded, sz);
    SkipUnfit(pl, o, rounded, sz);
    FitIsFirst(pl, rounded, sz);
    NotStopped(pl, i, o, sz, rounded);
  }

  lemma {:induction false} NotStopped(pl: seq<Extent>, i: nat, o: nat, sz: nat, x: nat)
    requires i < |pl| && Start(pl, i) <= o && !WrapsIn(pl, i, o, i)
    requires o <= x < Start(pl, i + 1) && Fits(pl, x, sz)
    ensures forall j: nat :: !StopsIn(pl, i, o, sz, j)
  {
    forall j: nat ensures !StopsIn(pl, i, o, sz, j) {
      if i < j < |pl| { StartMonotone(pl, i + 1, j); }
    }
  }

  lemma {:induction false} SearchGoesOn(pl: seq<Extent>, i: nat, o: nat, sz: nat, rounded: nat)
    requires Total(pl) < NOT_FOUND && 0 < sz && i < |pl| && Start(pl, i) <= o
    requires rounded == RoundedIn(pl, i, o, i) <= Start(pl, i + 1) < rounded + sz
    ensures Search(pl, i, o, sz) == Search(pl, i + 1, Start(pl, i + 1), sz)
  {
    var next, end := i + 1, Start(pl, i + 1);
    StartMonotone(pl, next, |pl|);
    NothingLeft(pl, i, o, sz, rounded);
    SkipUnfit(pl, o, end, sz);
    if j: nat :| StopsIn(pl, i, o, sz, j) {
      StopsAlike(pl, i, o, sz, j);
      SearchStops(pl, i, o, sz, j);
      SearchStops(pl, next, end, sz, j);
    } else {
      forall j: nat ensures !StopsIn(pl, next, end, sz, j) { StopsAlike(pl, i, o, sz, j); }
    }
  }

  lemma {:induction false} NothingLeft(pl: seq<Extent>, i: nat, o: nat, sz: nat, rounded: nat)
    requires 0 < sz && i < |pl| && Start(pl, i) <= o
    requires rounded == RoundedIn(pl, i, o, i) <= Start(pl, i + 1) < rounded + sz
    ensures forall x: nat :: o <= x < Start(pl, i + 1) ==> !Fits(pl, x, sz)
  {
    if o < Start(pl, i + 1) {
      InExtent(pl, i, o);
      PaddingUnfit(pl, i, o, rounded, sz);
      ShortTailUnfit(pl, i, rounded, sz);
    }
  }

  /** Going on at the end of an extent that has nothing to offer changes nothing. */
  lemma {:induction false} StopsAlike(pl: seq<Extent>, i: nat, o: nat, sz: nat, j: nat)
    requires i < |pl| && Start(pl, i) <= o <= Start(pl, i + 1) && !WrapsIn(pl, i, o, i)
    requires forall x: nat :: o <= x < Start(pl, i + 1) ==> !Fits(pl, x, sz)
    ensures StopsIn(pl, i, o, sz, j) <==> StopsIn(pl, i + 1, Start(pl, i + 1), sz, j)
    ensures i < j < |pl| ==> RoundedIn(pl, i, o, j) == RoundedIn(pl, i + 1, Start(pl, i + 1), j)
  {
    var next, end := i + 1, Start(pl, i + 1);
    if StopsIn(pl, next, end, sz, j) {
      forall k | i <= k < j ensures !WrapsIn(pl, i, o, k) {
        if k > i { assert !WrapsIn(pl, next, end, k); }
      }
    }
    if StopsIn(pl, i, o, sz, j) {
      forall k | next <= k < j ensures !WrapsIn(pl, next, end, k) { assert !WrapsIn(pl, i, o, k); }
    }
  }

  /** In a list cut at page boundaries that is Find. */
  lemma {:induction false} PagedSearch(pl: seq<Extent>, o: nat, sz: nat)
    requires WellFormed(pl) && Paged(pl)
    ensures Searched(pl, o, sz) == Find(pl, o, sz)
  {
    if o < Total(pl) {
      var i := IndexOf(pl, o);
      InExtent(pl, i, o);
      OverrunsOnlyAtTheEnd(pl, i, o);
      assert forall j: nat :: WrapsIn(pl, i, o, j) <==> j == i && Overruns(pl, o);
      if Overruns(pl, o) { SearchStops(pl, i, o, sz, i); }
    }
  }

  /** `find_contiguous_aligned_after`. Its subtraction wraps exactly when rounding up passes the end of an extent. */
  method FindContiguousAlignedAfter(pl: seq<Extent>, start: u32, sz: u32) returns (r: u32)
    requires Total(pl) + 64 < U32 && 0 < sz <= U32 - 64
    ensures r == Searched(pl, start, sz)
  {
    var offset: u32 := start;
    var ind, offsetInEntry: u32 := GetEntryIndex(pl, offset);
    if ind == -1 {
      return NOT_FOUND;
    }
    ghost var goal := Searched(pl, start, sz);
    InExtent(pl, ind, start);
    SearchEnds(pl, sz);
    while ind < |pl|
      invariant 0 <= ind <= |pl| && Start(pl, ind) <= offset <= Total(pl)
      invariant ind < |pl| ==> offset <= Start(pl, ind + 1) && offsetInEntry == offset - Start(pl, ind)
      invariant ind == |pl| ==> offset == Total(pl)
      invariant goal == Search(pl, ind, offset, sz)
    {
      ghost var rounded, end := SearchStep(pl, ind, offset, offsetInEntry, sz);
      var alignment := (pl[ind].addr + offsetInEntry) % 0x40;
      if alignment != 0 {
        var adjustment := 0x40 - alignment;
        offset := offset + adjustment;
        offsetInEntry := offsetInEntry + adjustment;
      }
      assert offset == rounded;
      var spaceLeft: u32 := Wrap32(pl[ind].len - offsetInEntry);
      if sz <= spaceLeft {
        return offset;
      }
      offset := offset + spaceLeft;
      offsetInEntry := 0;
      ind := ind + 1;
      assert offset == end == Start(pl, ind);
    }
    return NOT_FOUND;
  }
}
