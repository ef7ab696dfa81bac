/**
 A physlist describes a buffer that is contiguous in virtual memory and scattered in physical
 memory: its extents, in order of increasing virtual address.
 */
module Physlist {
  import opened Machine

  /** `struct pinner_physlist_entry`. */
  datatype Extent = Extent(addr: nat, len: u32)

  /** Virtual offset at which extent i begins: the lengths before it added up. */
  function Start(pl: seq<Extent>, i: nat): nat
    requires i <= |pl|
  {
    if i == 0 then 0 else Start(pl, i - 1) + pl[i - 1].len
  }

  function Total(pl: seq<Extent>): nat {
    Start(pl, |pl|)
  }

  ghost predicate Disjoint(pl: seq<Extent>) {
    forall i, j :: 0 <= i < j < |pl| ==>
      pl[i].addr + pl[i].len <= pl[j].addr || pl[j].addr + pl[j].len <= pl[i].addr
  }

  /** No extent runs past the end of 64-bit physical memory. */
  ghost predicate Addressable(pl: seq<Extent>) {
    forall i :: 0 <= i < |pl| ==> pl[i].addr + pl[i].len <= U64
  }

  /**
   What the library takes for granted of a list it is handed: real, non-empty stretches of
   physical memory, far less than 2^32 bytes of them (the pinner stops at 4 MiB).
   */
  ghost predicate WellFormed(pl: seq<Extent>) {
    && Addressable(pl)
    && (forall i :: 0 <= i < |pl| ==> 0 < pl[i].len && 0 < pl[i].addr)
    && Total(pl) < 0x8000_0000
  }

  /** Extent i is the one that holds the byte at virtual offset o. */
  ghost predicate Holds(pl: seq<Extent>, i: int, o: int) {
    0 <= i < |pl| && Start(pl, i) <= o < Start(pl, i + 1)
  }

  lemma {:induction false} StartMonotone(pl: seq<Extent>, i: nat, j: nat)
    requires i <= j <= |pl|
    ensures Start(pl, i) <= Start(pl, j)
    decreases j - i
  {
    if i < j { StartMonotone(pl, i, j - 1); }
  }

  /** At most one extent holds a given offset. */
  lemma {:induction false} HoldsUnique(pl: seq<Extent>, i: int, j: int, o: int)
    requires Holds(pl, i, o) && Holds(pl, j, o)
    ensures i == j
  {
    if i < j { StartMonotone(pl, i + 1, j); }
    if j < i { StartMonotone(pl, j + 1, i); }
  }

  /** Every offset below the total is held by some extent. */
  lemma {:induction false} HoldsExists(pl: seq<Extent>, o: nat, n: nat) returns (i: nat)
    requires n <= |pl| && o < Start(pl, n)
    ensures i < n && Holds(pl, i, o)
  {
    if Start(pl, n - 1) <= o { i := n - 1; } else { i := HoldsExists(pl, o, n - 1); }
  }

  /** The extent that holds offset o. */
  ghost function IndexOf(pl: seq<Extent>, o: nat): (i: nat)
    requires o < Total(pl)
    ensures Holds(pl, i, o)
  {
    assert exists i: nat :: Holds(pl, i, o) by { var i := HoldsExists(pl, o, |pl|); }
    var i: nat :| Holds(pl, i, o);
    i
  }

  /** Physical address of the byte at virtual offset o. */
  ghost function Phys(pl: seq<Extent>, o: nat): nat
    requires o < Total(pl)
  {
    var i := IndexOf(pl, o);
    pl[i].addr + (o - Start(pl, i))
  }

  /** The same with the code's answer for an offset outside the list. */
  ghost function PhysOrNull(pl: seq<Extent>, o: nat): nat {
    if o < Total(pl) then Phys(pl, o) else 0
  }

  lemma {:induction false} InExtent(pl: seq<Extent>, i: int, o: int)
    requires Holds(pl, i, o)
    ensures o < Total(pl) && IndexOf(pl, o) == i
    ensures Phys(pl, o) == pl[i].addr + (o - Start(pl, i))
  {
    StartMonotone(pl, i + 1, |pl|);
    HoldsUnique(pl, i, IndexOf(pl, o), o);
  }

  /** Physical addresses run on with virtual offsets inside one extent. */
  lemma {:induction false} PhysRunsOn(pl: seq<Extent>, o: nat, n: nat)
    requires o < Total(pl) && o + n < Start(pl, IndexOf(pl, o) + 1)
    ensures o + n < Total(pl) && IndexOf(pl, o + n) == IndexOf(pl, o)
    ensures Phys(pl, o + n) == Phys(pl, o) + n
  {
    InExtent(pl, IndexOf(pl, o), o + n);
  }

  /** No two bytes of the buffer share a physical address, and none lies at address 0. */
  lemma {:induction false} PhysInjective(pl: seq<Extent>, o: nat, o': nat)
    requires WellFormed(pl) && Disjoint(pl) && o < Total(pl) && o' < Total(pl)
    ensures 0 < Phys(pl, o) < U64
    ensures Phys(pl, o) == Phys(pl, o') ==> o == o'
  {
    var i, i' := IndexOf(pl, o), IndexOf(pl, o');
    if i < i' || i' < i {
      assert Phys(pl, o) < pl[i].addr + pl[i].len && Phys(pl, o') < pl[i'].addr + pl[i'].len;
    }
  }

  lemma {:induction false} OneExtentEach(pl: seq<Extent>, i: nat, j: nat)
    requires WellFormed(pl) && i <= j <= |pl|
    ensures Start(pl, i) + (j - i) <= Start(pl, j)
  {
    if i < j { OneExtentEach(pl, i, j - 1); }
  }

  /** `get_entry_index`: index -1 stands for "not found", and then offsetInEntry is left alone. */
  method GetEntryIndex(pl: seq<Extent>, offset: u32) returns (index: int, offsetInEntry: u32)
    ensures offset < Total(pl) ==>
              Holds(pl, index, offset) && offsetInEntry == offset - Start(pl, index)
    ensures offset >= Total(pl) <==> index == -1
  {
    var rest: u32 := offset;
    offsetInEntry := 0;
    var i := 0;
    while i < |pl|
      invariant 0 <= i <= |pl|
      invariant rest == offset - Start(pl, i)
    {
      if rest >= pl[i].len {
        rest := rest - pl[i].len;
        i := i + 1;
        continue;
      }
      assert Holds(pl, i, offset);
      InExtent(pl, i, offset);
      return i, rest;
    }
    return -1, offsetInEntry;
  }

  /** `virt_to_phys`: 0 (NULL) stands for "not found". */
  method VirtToPhys(pl: seq<Extent>, offset: u32) returns (phys: u64)
    requires Addressable(pl)
    ensures phys == PhysOrNull(pl, offset)
    ensures (forall i :: 0 <= i < |pl| ==> 0 < pl[i].addr) ==> (phys == 0 <==> offset >= Total(pl))
  {
    var rest: u32 := offset;
    var i := 0;
    while i < |pl|
      invariant 0 <= i <= |pl|
      invariant rest == offset - Start(pl, i)
    {
      if rest >= pl[i].len {
        rest := rest - pl[i].len;
        i := i + 1;
        continue;
      }
      assert Holds(pl, i, offset);
      InExtent(pl, i, offset);
      return pl[i].addr + rest;
    }
    return 0;
  }
}
