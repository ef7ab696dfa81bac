/** The run of places that repeated searches hand out, and how much of the buffer they use. */
module SlotWalk {
  import opened Physlist
  import opened Placement

  /** `sizeof(sg_descriptor)`: 52 bytes of fields, and whatever padding the ABI adds. */
  type DescSize = d: int | 52 <= d <= 64 witness 56

  /** The usable slots from offset o on, in the order a correct search takes them. */
  ghost function Slots(pl: seq<Extent>, o: nat, d: DescSize): seq<nat>
    decreases if o < Total(pl) then Total(pl) - o else 0
  {
    var r := FirstFit(pl, o, d);
    if r == NOT_FOUND then [] else [r] + Slots(pl, r + d, d)
  }

  /** The places the code takes from offset o on, each search starting where the last place ended. */
  ghost function Places(pl: seq<Extent>, o: nat, d: DescSize): seq<nat>
    decreases if o < Total(pl) then Total(pl) - o else 0
  {
    var r := Find(pl, o, d);
    if r == NOT_FOUND then [] else [r] + Places(pl, r + d, d)
  }

  /** After k places have been taken, the rest of the run is what a walk from there hands out. */
  lemma {:induction false} PlacesSplit(pl: seq<Extent>, o: nat, d: DescSize, k: nat)
    requires Total(pl) < 0x8000_0000 && 0 < k <= |Places(pl, o, d)|
    ensures Places(pl, Places(pl, o, d)[k - 1] + d, d) == Places(pl, o, d)[k..]
    decreases k
  {
    var r := Find(pl, o, d);
    if k > 1 {
      PlacesSplit(pl, r + d, d, k - 1);
      TailOfCons(r, Places(pl, r + d, d), k);
    }
  }

  lemma {:induction false} TailOfCons(r: nat, rest: seq<nat>, k: nat)
    requires 1 < k <= |rest| + 1
    ensures ([r] + rest)[k - 1] == rest[k - 2] && ([r] + rest)[k..] == rest[k - 1..]
  {
  }

  /** The search for place k starts where place k - 1 ended; the one after the last finds nothing. */
  ghost predicate PlaceAt(pl: seq<Extent>, start: nat, d: DescSize, places: seq<nat>, k: nat)
    requires k <= |places|
  {
    var r := Find(pl, if k == 0 then start else places[k - 1] + d, d);
    if k < |places| then r == places[k] < Total(pl) + 64 else r == NOT_FOUND
  }

  ghost predicate PlacesAt(pl: seq<Extent>, start: nat, d: DescSize, places: seq<nat>) {
    forall k {:trigger PlaceAt(pl, start, d, places, k)} :: 0 <= k <= |places| ==> PlaceAt(pl, start, d, places, k)
  }

  lemma {:induction false} PlacesNext(pl: seq<Extent>, o: nat, d: DescSize, k: nat)
    requires Total(pl) < 0x8000_0000 && k <= |Places(pl, o, d)|
    ensures PlaceAt(pl, o, d, Places(pl, o, d), k)
    decreases k
  {
    if k > 0 {
      var r := Find(pl, o, d);
      PlacesNext(pl, r + d, d, k - 1);
      PlaceAtOneLater(pl, o, r, d, Places(pl, r + d, d), k - 1);
    }
  }

  lemma {:induction false} PlaceAtOneLater(pl: seq<Extent>, o: nat, r: nat, d: DescSize, rest: seq<nat>, k: nat)
    requires k <= |rest| && PlaceAt(pl, r + d, d, rest, k)
    ensures PlaceAt(pl, o, d, [r] + rest, k + 1)
  {
  }

  lemma {:induction false} PlacesAscend(pl: seq<Extent>, d: DescSize, i: nat)
    requires Total(pl) < 0x8000_0000 && i + 1 < |Places(pl, 0, d)|
    ensures Places(pl, 0, d)[i] + d <= Places(pl, 0, d)[i + 1]
  {
    PlacesNext(pl, 0, d, i + 1);
  }

  lemma {:induction false} SlotsSplit(pl: seq<Extent>, o: nat, d: DescSize, k: nat)
    requires Total(pl) < 0x8000_0000 && 0 < k <= |Slots(pl, o, d)|
    ensures Slots(pl, Slots(pl, o, d)[k - 1] + d, d) == Slots(pl, o, d)[k..]
    decreases k
  {
    var r := FirstFit(pl, o, d);
    if k > 1 {
      SlotsSplit(pl, r + d, d, k - 1);
      TailOfCons(r, Slots(pl, r + d, d), k);
    }
  }

  /** A place and the descriptor put there stay below 2^32. */
  lemma {:induction false} PlacesBounded(pl: seq<Extent>, o: nat, d: DescSize, k: nat)
    requires Total(pl) < 0x8000_0000 && k < |Places(pl, o, d)|
    ensures o <= Places(pl, o, d)[k] < Total(pl) + 64
    decreases k
  {
    if k > 0 { PlacesBounded(pl, Find(pl, o, d) + d, d, k - 1); }
  }

  lemma {:induction false} FitsApart(pl: seq<Extent>, x: nat, y: nat, d: DescSize)
    requires Fits(pl, x, d) && Fits(pl, y, d) && x < y
    ensures x + d <= y
  {
    var i, j := IndexOf(pl, x), IndexOf(pl, y);
    if i < j {
      StartMonotone(pl, i + 1, j);
    } else if j < i {
      StartMonotone(pl, j + 1, i);
    } else {
      assert Phys(pl, y) - Phys(pl, x) == y - x;
    }
  }

  /** The slots from o on are all the offsets that fit from o on. */
  lemma {:induction false} SlotsComplete(pl: seq<Extent>, o: nat, d: DescSize, x: nat)
    requires Total(pl) < 0x8000_0000
    ensures x in Slots(pl, o, d) <==> o <= x && Fits(pl, x, d)
    decreases if o < Total(pl) then Total(pl) - o else 0
  {
    FirstThenRest(pl, o, d, x);
    var r := FirstFit(pl, o, d);
    if r != NOT_FOUND {
      SlotsComplete(pl, r + d, d, x);
      InCons(r, Slots(pl, r + d, d), x);
    }
  }

  lemma {:induction false} FirstThenRest(pl: seq<Extent>, o: nat, d: DescSize, x: nat)
    requires Total(pl) < 0x8000_0000
    ensures var r := FirstFit(pl, o, d);
            o <= x && Fits(pl, x, d) <==> r != NOT_FOUND && (x == r || (r + d <= x && Fits(pl, x, d)))
  {
    FirstFitSpec(pl, o, d);
    var r := FirstFit(pl, o, d);
    if r != NOT_FOUND && r < x && Fits(pl, x, d) { FitsApart(pl, r, x, d); }
  }

  lemma {:induction false} InCons(r: nat, rest: seq<nat>, x: nat)
    ensures x in [r] + rest <==> x == r || x in rest
  {
  }

  /** They come lowest first, and no two of them overlap. */
  lemma {:induction false} SlotsApart(pl: seq<Extent>, o: nat, d: DescSize, i: nat, j: nat)
    requires Total(pl) < 0x8000_0000 && i < j < |Slots(pl, o, d)|
    ensures Slots(pl, o, d)[i] + d <= Slots(pl, o, d)[j]
    decreases i
  {
    var r := FirstFit(pl, o, d);
    var rest := Slots(pl, r + d, d);
    assert Slots(pl, o, d) == [r] + rest;
    if i == 0 {
      assert rest[j - 1] in rest;
      SlotsComplete(pl, r + d, d, rest[j - 1]);
    } else {
      SlotsApart(pl, r + d, d, i - 1, j - 1);
    }
  }

  // ----- capacity

  /** The 64-byte-aligned physical addresses at which a descriptor lies inside one extent. */
  ghost function SlotAddresses(pl: seq<Extent>, d: DescSize): set<nat> {
    set i, a | 0 <= i < |pl| && pl[i].addr <= a < pl[i].addr + pl[i].len && SlotAt(pl[i], a, d) :: a
  }

  ghost predicate SlotAt(e: Extent, a: nat, d: DescSize) {
    a % 64 == 0 && e.addr <= a && a + d <= e.addr + e.len
  }

  lemma {:induction false} DistinctCount(s: seq<nat>, t: set<nat>)
    requires forall i, j :: 0 <= i < j < |s| ==> s[i] != s[j]
    requires forall x :: x in s <==> x in t
    ensures |s| == |t|
  {
    if s == [] {
      assert t == {};
    } else {
      var x, rest := s[0], s[1..];
      assert s == [x] + rest;
      assert x in s && x in t;
      forall y ensures y in rest <==> y in t - {x} {
        if y in rest { assert y in s; }
        if y in t - {x} { assert y in s; }
      }
      DistinctCount(rest, t - {x});
    }
  }

  lemma {:induction false} SlotFits(pl: seq<Extent>, d: DescSize, k: nat)
    requires WellFormed(pl) && k < |Slots(pl, 0, d)|
    ensures Fits(pl, Slots(pl, 0, d)[k], d)
  {
    assert Slots(pl, 0, d)[k] in Slots(pl, 0, d);
    SlotsComplete(pl, 0, d, Slots(pl, 0, d)[k]);
  }

  /** The slots of a buffer as physical addresses. */
  ghost function PhysicalSlots(pl: seq<Extent>, d: DescSize): seq<nat>
    requires WellFormed(pl)
  {
    var slots := Slots(pl, 0, d);
    seq(|slots|, k requires 0 <= k < |slots| => SlotFits(pl, d, k); Phys(pl, slots[k]))
  }

  lemma {:induction false} PhysicalSlotsDistinct(pl: seq<Extent>, d: DescSize, i: nat, j: nat)
    requires WellFormed(pl) && Disjoint(pl) && i < j < |Slots(pl, 0, d)|
    ensures PhysicalSlots(pl, d)[i] != PhysicalSlots(pl, d)[j]
  {
    var slots := Slots(pl, 0, d);
    SlotFits(pl, d, i);
    SlotFits(pl, d, j);
    SlotsApart(pl, 0, d, i, j);
    PhysInjective(pl, slots[i], slots[j]);
  }

  lemma {:induction false} PhysicalSlotsAreAddresses(pl: seq<Extent>, d: DescSize, a: nat)
    requires WellFormed(pl)
    ensures a in PhysicalSlots(pl, d) <==> a in SlotAddresses(pl, d)
  {
    var slots := Slots(pl, 0, d);
    if a in PhysicalSlots(pl, d) {
      var k :| 0 <= k < |slots| && PhysicalSlots(pl, d)[k] == a;
      SlotFits(pl, d, k);
      SlotHasAddress(pl, slots[k], d);
    }
    if a in SlotAddresses(pl, d) {
      var o := AddressHasSlot(pl, a, d);
      SlotsComplete(pl, 0, d, o);
      var k :| 0 <= k < |slots| && slots[k] == o;
      assert PhysicalSlots(pl, d)[k] == a;
    }
  }

  /** The walk visits as many slots as physical memory has slot addresses: none is skipped. */
  lemma {:induction false} CapacityIsSlots(pl: seq<Extent>, d: DescSize)
    requires WellFormed(pl) && Disjoint(pl)
    ensures |SlotAddresses(pl, d)| == |Slots(pl, 0, d)|
  {
    var addrs := PhysicalSlots(pl, d);
    forall i, j | 0 <= i < j < |addrs| ensures addrs[i] != addrs[j] {
      PhysicalSlotsDistinct(pl, d, i, j);
    }
    forall a ensures a in addrs <==> a in SlotAddresses(pl, d) {
      PhysicalSlotsAreAddresses(pl, d, a);
    }
    DistinctCount(addrs, SlotAddresses(pl, d));
  }

  lemma {:induction false} SlotHasAddress(pl: seq<Extent>, o: nat, d: DescSize)
    requires Fits(pl, o, d)
    ensures Phys(pl, o) in SlotAddresses(pl, d)
  {
    var i, a := IndexOf(pl, o), Phys(pl, o);
    assert SlotAt(pl[i], a, d);
  }

  lemma {:induction false} AddressHasSlot(pl: seq<Extent>, a: nat, d: DescSize) returns (o: nat)
    requires a in SlotAddresses(pl, d)
    ensures Fits(pl, o, d) && Phys(pl, o) == a
  {
    var i :| 0 <= i < |pl| && pl[i].addr <= a < pl[i].addr + pl[i].len && SlotAt(pl[i], a, d);
    o := Start(pl, i) + (a - pl[i].addr);
    InExtent(pl, i, o);
  }

  // ----- when the code's places are the slots

  /**
   What a caller can check of the buffer beforehand: at its physical end, no more than a descriptor
   is left over beyond the last 64-byte boundary; and a buffer of one extent reaches a boundary.
   */
  predicate RoomAtTheEnd(pl: seq<Extent>, d: DescSize) {
    |pl| > 0 ==>
      var last := pl[|pl| - 1];
      && (last.addr + last.len) % 64 <= d
      && (|pl| == 1 ==> Pad(last.addr) <= last.len)
  }

  lemma {:induction false} NoOverrunAfterSlot(pl: seq<Extent>, s: nat, d: DescSize)
    requires WellFormed(pl) && Paged(pl) && RoomAtTheEnd(pl, d) && Fits(pl, s, d)
    ensures !Overruns(pl, s + d)
  {
    if s + d < Total(pl) {
      var i, n := IndexOf(pl, s), |pl|;
      if s + d < Start(pl, i + 1) {
        PhysRunsOn(pl, s, d);
        OverrunsOnlyAtTheEnd(pl, i, s + d);
        if i == n - 1 {
          var room := Total(pl) - (s + d);
          assert pl[i].addr + pl[i].len == Phys(pl, s) + d + room;
          RoomAfterSlot(Phys(pl, s), d, room);
        }
      } else {
        BoundaryNeverOverruns(pl, i + 1);
      }
    }
  }

  lemma {:induction false} RoomAfterSlot(a: nat, d: DescSize, room: nat)
    requires a % 64 == 0 && 0 < room && (a + d + room) % 64 <= d
    ensures Pad(a + d) <= room
  {
    ModDrop(a / 64, d);
    ModDrop(a / 64, d + room);
  }

  lemma {:induction false} NoOverrunAtStart(pl: seq<Extent>, d: DescSize)
    requires WellFormed(pl) && Paged(pl) && RoomAtTheEnd(pl, d)
    ensures !Overruns(pl, 0)
  {
    if |pl| > 0 {
      StartMonotone(pl, 1, |pl|);
      assert Start(pl, 1) == pl[0].len;
      if 0 < Total(pl) {
        InExtent(pl, 0, 0);
        OverrunsOnlyAtTheEnd(pl, 0, 0);
      }
    }
  }

  lemma {:induction false} PlacesAreSlots(pl: seq<Extent>, o: nat, d: DescSize)
    requires Total(pl) < 0x8000_0000 && !Overruns(pl, o)
    requires forall s: nat :: Fits(pl, s, d) ==> !Overruns(pl, s + d)
    ensures Places(pl, o, d) == Slots(pl, o, d)
    decreases if o < Total(pl) then Total(pl) - o else 0
  {
    var r := FirstFit(pl, o, d);
    if r != NOT_FOUND {
      FitsWhereFound(pl, o, d);
      PlacesAreSlots(pl, r + d, d);
    }
  }

  lemma {:induction false} FitsWhereFound(pl: seq<Extent>, o: nat, d: DescSize)
    requires Total(pl) < 0x8000_0000
    ensures FirstFit(pl, o, d) != NOT_FOUND ==> Fits(pl, FirstFit(pl, o, d), d)
  {
    FirstFitSpec(pl, o, d);
  }

  /** Where an overrun follows some slot f, the walk hands out a place that is no slot. */
  lemma {:induction false} PlacesGoAstray(pl: seq<Extent>, f: nat, d: DescSize)
    requires WellFormed(pl) && Fits(pl, f, d) && Overruns(pl, f + d)
    ensures Places(pl, 0, d) != Slots(pl, 0, d)
  {
    SlotsComplete(pl, 0, d, f);
    var k :| 0 <= k < |Slots(pl, 0, d)| && Slots(pl, 0, d)[k] == f;
    if Places(pl, 0, d) == Slots(pl, 0, d) {
      NextIsPastTheEnd(pl, Places(pl, 0, d), k, d);
      SlotFits(pl, d, k + 1);
    }
  }

  lemma {:induction false} NextIsPastTheEnd(pl: seq<Extent>, places: seq<nat>, k: nat, d: DescSize)
    requires WellFormed(pl) && places == Places(pl, 0, d) && k < |places| && Overruns(pl, places[k] + d)
    ensures k + 1 < |places| && places[k + 1] > Total(pl)
  {
    PlacesNext(pl, 0, d, k + 1);
  }

  // ----- how far the code's places can be trusted

  /** Where rounding up overruns the buffer, no slot is left. */
  lemma {:induction false} NoSlotAfterOverrun(pl: seq<Extent>, o: nat, d: DescSize)
    requires WellFormed(pl) && Paged(pl) && Overruns(pl, o)
    ensures Slots(pl, o, d) == []
  {
    var i := IndexOf(pl, o);
    OverrunsOnlyAtTheEnd(pl, i, o);
    PaddingUnfit(pl, i, o, Total(pl), d);
    FirstFitSpec(pl, o, d);
  }

  /** All the slots, in order, and then at most one place more, which lies past the end. */
  predicate ThenAstray(slots: seq<nat>, places: seq<nat>, total: nat) {
    slots == places || (|places| == |slots| + 1 && places[..|slots|] == slots && places[|slots|] > total)
  }

  lemma {:induction false} ThenAstrayAfter(r: nat, slots: seq<nat>, places: seq<nat>, total: nat)
    requires ThenAstray(slots, places, total)
    ensures ThenAstray([r] + slots, [r] + places, total)
  {
    if slots != places { assert ([r] + places)[..|slots| + 1] == [r] + slots; }
  }

  /** The walk hands out every slot; what may come after is no slot. */
  lemma {:induction false} SlotsThenAstray(pl: seq<Extent>, o: nat, d: DescSize)
    requires WellFormed(pl) && Paged(pl)
    ensures ThenAstray(Slots(pl, o, d), Places(pl, o, d), Total(pl))
    decreases if o < Total(pl) then Total(pl) - o else 0
  {
    var r := Find(pl, o, d);
    if Overruns(pl, o) {
      NoSlotAfterOverrun(pl, o, d);
      PlacesAfterOverrun(pl, o, d);
    } else if r != NOT_FOUND {
      SlotsThenAstray(pl, r + d, d);
      ThenAstrayAfter(r, Slots(pl, r + d, d), Places(pl, r + d, d), Total(pl));
    }
  }

  lemma {:induction false} PlacesAfterOverrun(pl: seq<Extent>, o: nat, d: DescSize)
    requires WellFormed(pl) && Overruns(pl, o)
    ensures Places(pl, o, d) == [Find(pl, o, d)] && Find(pl, o, d) > Total(pl)
  {
    assert Places(pl, Find(pl, o, d) + d, d) == [];
  }

  /** Place i is fit for a descriptor exactly while slots last. */
  lemma {:induction false} PlaceFitsExactly(pl: seq<Extent>, d: DescSize, i: nat)
    requires WellFormed(pl) && Paged(pl) && i < |Places(pl, 0, d)|
    ensures Fits(pl, Places(pl, 0, d)[i], d) <==> i < |Slots(pl, 0, d)|
  {
    SlotsThenAstray(pl, 0, d);
    if i < |Slots(pl, 0, d)| { SlotFits(pl, d, i); }
  }

  lemma {:induction false} OverrunIsAstray(pl: seq<Extent>, o: nat, d: DescSize)
    requires Total(pl) < 0x8000_0000 && Overruns(pl, o)
    ensures Places(pl, o, d) != Slots(pl, o, d)
  {
    var r := Find(pl, o, d);
    assert Places(pl, o, d)[0] == r > Total(pl);
    if Slots(pl, o, d) != [] { assert Slots(pl, o, d)[0] < Total(pl); }
  }

  lemma {:induction false} ReachesBoundary(addr: nat, len: nat)
    requires Pad(addr) <= len
    ensures (addr + len) % 64 <= len
  {
    ModDrop((addr + Pad(addr)) / 64, len - Pad(addr));
  }

  lemma {:induction false} LastBoundary(end: nat, d: DescSize)
    requires end % 64 > d
    ensures (end - end % 64) % 64 == 0 && Pad(end - end % 64 + d) > end % 64 - d
  {
    ModDrop(end / 64, 0);
    ModDrop(end / 64, d);
  }

  /** The slot at the last 64-byte boundary of the buffer, where one is there. */
  lemma {:induction false} LastSlot(pl: seq<Extent>, d: DescSize) returns (f: nat)
    requires WellFormed(pl) && Paged(pl) && |pl| > 0
    requires var last := pl[|pl| - 1];
             (last.addr + last.len) % 64 > d && (|pl| == 1 ==> Pad(last.addr) <= last.len)
    ensures Fits(pl, f, d) && Overruns(pl, f + d)
  {
    var i := |pl| - 1;
    var over := (pl[i].addr + pl[i].len) % 64;
    ReachesBoundary(pl[i].addr, pl[i].len);
    LastBoundary(pl[i].addr + pl[i].len, d);
    f := Total(pl) - over;
    InExtent(pl, i, f);
    PhysRunsOn(pl, f, d);
  }

  /** From a fresh list the code hands out exactly the usable slots if and only if there is room at the end. */
  lemma {:induction false} PlacesAreSlotsExactly(pl: seq<Extent>, d: DescSize)
    requires WellFormed(pl) && Paged(pl)
    ensures Places(pl, 0, d) == Slots(pl, 0, d) <==> RoomAtTheEnd(pl, d)
  {
    if RoomAtTheEnd(pl, d) {
      NoOverrunAtStart(pl, d);
      forall s: nat | Fits(pl, s, d) ensures !Overruns(pl, s + d) { NoOverrunAfterSlot(pl, s, d); }
      PlacesAreSlots(pl, 0, d);
    } else {
      var last := pl[|pl| - 1];
      if |pl| == 1 && Pad(last.addr) > last.len {
        assert Start(pl, 1) == last.len;
        InExtent(pl, 0, 0);
        OverrunIsAstray(pl, 0, d);
      } else {
        var f := LastSlot(pl, d);
        PlacesGoAstray(pl, f, d);
      }
    }
  }
}
