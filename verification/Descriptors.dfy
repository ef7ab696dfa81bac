/** The scatter-gather descriptors as the hardware reads them: 32-bit words in physical memory. */
module Descriptors {
  import opened Machine
  import opened Physlist
  import opened Placement
  import opened SlotWalk
  import opened Carving
  import opened CarvingRuns

  const LEN_SPAN := 0x400_0000
  /** The len bit-fields are 26 bits wide. */
  type len26 = n: int | 0 <= n < 0x400_0000

  /** Word 6 of a descriptor. */
  datatype Control = Control(len: len26, eof: bool, sof: bool)

  /** Word 7 of a descriptor. */
  datatype Status = Status(len: len26, eof: bool, sof: bool, intErr: bool, slaveErr: bool, decodeErr: bool, complete: bool)

  const CLEARED := Status(0, false, false, false, false, false, false)

  /** A 32-bit word: a number, or a word of bit-fields. How bit-fields are packed is the ABI's business. */
  datatype Word = Plain(v: u32) | ControlWord(c: Control) | StatusWord(s: Status)

  /** Physical memory, word by word; which value an address not in the map reads as does not matter. */
  type Words = map<nat, Word>

  function LoadPlain(words: Words, a: nat): u32 {
    if a in words && words[a].Plain? then words[a].v else 0
  }

  function LoadControl(words: Words, a: nat): Control {
    if a in words && words[a].ControlWord? then words[a].c else Control(0, false, false)
  }

  function LoadStatus(words: Words, a: nat): Status {
    if a in words && words[a].StatusWord? then words[a].s else CLEARED
  }

  function Lsb(x: u64): u32 {
    x % 0x1_0000_0000
  }

  function Msb(x: u64): u32 {
    x / 0x1_0000_0000
  }

  function Join(lsb: u32, msb: u32): u64 {
    lsb + msb * 0x1_0000_0000
  }

  lemma {:induction false} JoinSplit(x: u64)
    ensures Join(Lsb(x), Msb(x)) == x
  {
  }

  /** `sg_descriptor`: its words 0 to 3, 6 and 7. Nothing writes the others. */
  datatype Descriptor = Descriptor(nextLsb: u32, nextMsb: u32, bufferLsb: u32, bufferMsb: u32, control: Control, status: Status)
  {
    function Next(): u64 { Join(nextLsb, nextMsb) }
    function Buffer(): u64 { Join(bufferLsb, bufferMsb) }
  }

  /** The descriptor at physical address a. */
  function ReadAt(words: Words, a: nat): Descriptor {
    Descriptor(LoadPlain(words, a), LoadPlain(words, a + 4), LoadPlain(words, a + 8), LoadPlain(words, a + 12),
               LoadControl(words, a + 24), LoadStatus(words, a + 28))
  }

  function WriteAt(words: Words, a: nat, d: Descriptor): Words {
    words[a + 24 := ControlWord(d.control)][a + 28 := StatusWord(d.status)]
    [a + 8 := Plain(d.bufferLsb)][a + 12 := Plain(d.bufferMsb)]
    [a := Plain(d.nextLsb)][a + 4 := Plain(d.nextMsb)]
  }

  /** What is written for an entry: the length is cut to 26 bits, and the status is cleared. */
  function Encode(next: u64, buffer: u64, len: nat, eof: bool, sof: bool): Descriptor {
    Descriptor(Lsb(next), Msb(next), Lsb(buffer), Msb(buffer), Control(len % LEN_SPAN, eof, sof), CLEARED)
  }

  lemma {:induction false} EncodeDecodes(next: u64, buffer: u64, len: nat, eof: bool, sof: bool)
    ensures var d := Encode(next, buffer, len, eof, sof);
            && d.Next() == next && d.Buffer() == buffer
            && d.control == Control(len % LEN_SPAN, eof, sof) && d.status == CLEARED
  {
    JoinSplit(next);
    JoinSplit(buffer);
  }

  // ----- many descriptors in one memory

  datatype Item = Item(at: nat, d: Descriptor)

  lemma {:induction false} WriteThenRead(words: Words, m: Item)
    ensures ReadAt(WriteAt(words, m.at, m.d), m.at) == m.d
  {
  }

  /** A write leaves every descriptor alone that does not overlap it. */
  lemma {:induction false} WriteElsewhere(words: Words, m: Item, a: nat)
    requires m.at + 32 <= a || a + 32 <= m.at
    ensures ReadAt(WriteAt(words, m.at, m.d), a) == ReadAt(words, a)
  {
  }

  ghost predicate Apart(items: seq<Item>) {
    forall i, j :: 0 <= i < j < |items| ==> items[i].at + 32 <= items[j].at || items[j].at + 32 <= items[i].at
  }

  /** Memory after the first n items have been written, in order. */
  function WriteAll(words: Words, items: seq<Item>, n: nat): Words
    requires n <= |items|
  {
    if n == 0 then words else WriteAt(WriteAll(words, items, n - 1), items[n - 1].at, items[n - 1].d)
  }

  /** No later write clobbers an earlier descriptor, and no earlier one touches what is still to be written. */
  lemma {:induction false} AllReadBack(words: Words, items: seq<Item>, n: nat, i: nat)
    requires n <= |items| && i < |items| && Apart(items)
    ensures ReadAt(WriteAll(words, items, n), items[i].at) == if i < n then items[i].d else ReadAt(words, items[i].at)
    decreases n
  {
    if n > 0 {
      if i == n - 1 {
        WriteThenRead(WriteAll(words, items, n - 1), items[n - 1]);
      } else {
        AllReadBack(words, items, n - 1, i);
        WriteElsewhere(WriteAll(words, items, n - 1), items[n - 1], items[i].at);
      }
    }
  }

  ghost predicate Linked(items: seq<Item>) {
    forall i :: 0 <= i < |items| - 1 ==> items[i].d.Next() == items[i + 1].at
  }

  /** Following the next-descriptor fields through physical memory from address a, n descriptors in all. */
  function Chain(words: Words, a: nat, n: nat): (c: seq<nat>)
    ensures |c| == n
    decreases n
  {
    if n == 0 then [] else [a] + Chain(words, ReadAt(words, a).Next(), n - 1)
  }

  /** The chain from item i on visits the items in order. */
  lemma {:induction false} ChainVisits(words: Words, items: seq<Item>, i: nat, k: nat)
    requires i <= k < |items| && Apart(items) && Linked(items)
    ensures Chain(WriteAll(words, items, |items|), items[i].at, |items| - i)[k - i] == items[k].at
    decreases k - i
  {
    if i < k {
      AllReadBack(words, items, |items|, i);
      ChainVisits(words, items, i + 1, k);
    }
  }

  // ----- a whole list

  /** Every descriptor has its own slot, in physical memory apart from all others. */
  ghost predicate Slotted(b: Buffers, es: seq<Node>) {
    && (forall i :: 0 <= i < |es| ==> Fits(b.sg, es[i].sgOffset, b.d))
    && (forall i :: 0 <= i < |es| ==> es[i].bufPhys < U64)
    && (forall i, j {:trigger SlotsDisjoint(b, es, i, j)} :: 0 <= i < j < |es| ==> SlotsDisjoint(b, es, i, j))
  }

  ghost predicate SlotsDisjoint(b: Buffers, es: seq<Node>, i: nat, j: nat)
    requires i < |es| && j < |es|
    requires Fits(b.sg, es[i].sgOffset, b.d) && Fits(b.sg, es[j].sgOffset, b.d)
  {
    var p, q := Phys(b.sg, es[i].sgOffset), Phys(b.sg, es[j].sgOffset);
    p + b.d <= q || q + b.d <= p
  }

  /** Physical address of descriptor i. */
  ghost function Address(b: Buffers, es: seq<Node>, i: nat): (a: u64)
    requires i < |es| && Fits(b.sg, es[i].sgOffset, b.d)
  {
    Phys(b.sg, es[i].sgOffset)
  }

  ghost function PhysOrNull64(pl: seq<Extent>, o: nat): (a: u64)
    requires WellFormed(pl)
    ensures a == PhysOrNull(pl, o)
  {
    PhysOrNull(pl, o)
  }

  /**
   The next field of entry i: the physical address of the following entry's descriptor, and for the
   last entry whatever the sentinel's offset, which is never initialised, translates to.
   */
  ghost function NextAddress(b: Buffers, es: seq<Node>, sentinelOffset: nat, i: nat): u64
    requires i < |es|
  {
    PhysOrNull64(b.sg, if i + 1 < |es| then es[i + 1].sgOffset else sentinelOffset)
  }

  /** What is written for entry i. */
  ghost function EncodeEntry(b: Buffers, es: seq<Node>, sentinelOffset: nat, i: nat): Descriptor
    requires i < |es| && es[i].bufPhys < U64
  {
    Encode(NextAddress(b, es, sentinelOffset, i), es[i].bufPhys, es[i].len, es[i].eof, es[i].sof)
  }

  ghost function Items(b: Buffers, es: seq<Node>, sentinelOffset: nat): (items: seq<Item>)
    requires Slotted(b, es)
    ensures |items| == |es|
    ensures forall i {:trigger items[i]} :: 0 <= i < |es| ==>
              items[i] == Item(Address(b, es, i), EncodeEntry(b, es, sentinelOffset, i))
  {
    seq(|es|, i requires 0 <= i < |es| => Item(Address(b, es, i), EncodeEntry(b, es, sentinelOffset, i)))
  }

  lemma {:induction false} ItemsApart(b: Buffers, es: seq<Node>, sentinelOffset: nat)
    requires Slotted(b, es)
    ensures Apart(Items(b, es, sentinelOffset))
  {
    var items := Items(b, es, sentinelOffset);
    forall i, j | 0 <= i < j < |items| ensures items[i].at + 32 <= items[j].at || items[j].at + 32 <= items[i].at {
      assert SlotsDisjoint(b, es, i, j);
      assert items[i].at == Address(b, es, i) && items[j].at == Address(b, es, j);
    }
  }

  /** The fields of entry i's descriptor. */
  ghost predicate Describes(d: Descriptor, b: Buffers, es: seq<Node>, sentinelOffset: nat, i: nat)
    requires i < |es|
  {
    && d.Next() == NextAddress(b, es, sentinelOffset, i) && d.Buffer() == es[i].bufPhys
    && d.control == Control(es[i].len % LEN_SPAN, es[i].eof, es[i].sof) && d.status == CLEARED
  }

  lemma {:induction false} EntryDecodes(b: Buffers, es: seq<Node>, sentinelOffset: nat, i: nat)
    requires i < |es| && es[i].bufPhys < U64
    ensures Describes(EncodeEntry(b, es, sentinelOffset, i), b, es, sentinelOffset, i)
  {
    EncodeDecodes(NextAddress(b, es, sentinelOffset, i), es[i].bufPhys, es[i].len, es[i].eof, es[i].sof);
  }

  lemma {:induction false} ItemsLinked(b: Buffers, es: seq<Node>, sentinelOffset: nat)
    requires Slotted(b, es)
    ensures Linked(Items(b, es, sentinelOffset))
  {
    var items := Items(b, es, sentinelOffset);
    forall i | 0 <= i < |items| - 1 ensures items[i].d.Next() == items[i + 1].at {
      EntryDecodes(b, es, sentinelOffset, i);
    }
  }

  /** Memory after `axidma_write_sg_list`. */
  ghost function Written(words: Words, b: Buffers, es: seq<Node>, sentinelOffset: nat): Words
    requires Slotted(b, es)
  {
    WriteAll(words, Items(b, es, sentinelOffset), |es|)
  }

  /** Each descriptor reads back as its entry, with the status cleared. */
  lemma {:induction false} ListReadsBack(words: Words, b: Buffers, es: seq<Node>, sentinelOffset: nat, i: nat)
    requires Slotted(b, es) && i < |es|
    ensures Describes(ReadAt(Written(words, b, es, sentinelOffset), Address(b, es, i)), b, es, sentinelOffset, i)
  {
    ItemsApart(b, es, sentinelOffset);
    AllReadBack(words, Items(b, es, sentinelOffset), |es|, i);
    EntryDecodes(b, es, sentinelOffset, i);
  }

  /**
   The words of a written descriptor, at the offsets the hardware reads them from: the next descriptor's
   address and the buffer's, low half first, then control and status.
   */
  lemma {:induction false} DescriptorWords(words: Words, b: Buffers, es: seq<Node>, sentinelOffset: nat, i: nat,
                                           m: Words, a: nat)
    requires Slotted(b, es) && i < |es| && m == Written(words, b, es, sentinelOffset) && a == Phys(b.sg, es[i].sgOffset)
    ensures var e := es[i];
            var next := PhysOrNull(b.sg, if i + 1 < |es| then es[i + 1].sgOffset else sentinelOffset);
            && {a, a + 4, a + 8, a + 12, a + 24, a + 28} <= m.Keys
            && m[a] == Plain(next % 0x1_0000_0000) && m[a + 4] == Plain(next / 0x1_0000_0000)
            && m[a + 8] == Plain(e.bufPhys % 0x1_0000_0000) && m[a + 12] == Plain(e.bufPhys / 0x1_0000_0000)
            && m[a + 24] == ControlWord(Control(e.len % 0x400_0000, e.eof, e.sof))
            && m[a + 28] == StatusWord(Status(0, false, false, false, false, false, false))
  {
    var items := Items(b, es, sentinelOffset);
    ItemsApart(b, es, sentinelOffset);
    WordsStay(words, items, |es|, i);
  }

  /** The words of descriptor d are at address a. */
  predicate HasWords(m: Words, a: nat, d: Descriptor) {
    && {a, a + 4, a + 8, a + 12, a + 24, a + 28} <= m.Keys
    && m[a] == Plain(d.nextLsb) && m[a + 4] == Plain(d.nextMsb)
    && m[a + 8] == Plain(d.bufferLsb) && m[a + 12] == Plain(d.bufferMsb)
    && m[a + 24] == ControlWord(d.control) && m[a + 28] == StatusWord(d.status)
  }

  lemma {:induction false} WriteHasWords(words: Words, a: nat, d: Descriptor)
    ensures HasWords(WriteAt(words, a, d), a, d)
  {
  }

  lemma {:induction false} WriteKeepsWords(words: Words, at: nat, other: Descriptor, a: nat, d: Descriptor)
    requires HasWords(words, a, d) && (at + 32 <= a || a + 32 <= at)
    ensures HasWords(WriteAt(words, at, other), a, d)
  {
  }

  /** What the i-th write has put into memory, no later one takes away. */
  lemma {:induction false} WordsStay(words: Words, items: seq<Item>, n: nat, i: nat)
    requires i < n <= |items| && Apart(items)
    ensures HasWords(WriteAll(words, items, n), items[i].at, items[i].d)
    decreases n
  {
    var before, last := WriteAll(words, items, n - 1), items[n - 1];
    if i < n - 1 {
      WordsStay(words, items, n - 1, i);
      WriteKeepsWords(before, last.at, last.d, items[i].at, items[i].d);
    } else {
      WriteHasWords(before, last.at, last.d);
    }
  }

  /**
   The chain decodes to the list: from the first descriptor on, following the next fields visits the
   descriptor of entry k after k hops, and so the last one after |es| - 1; no two are the same.
   */
  lemma {:induction false} ChainFollowsList(words: Words, b: Buffers, es: seq<Node>, sentinelOffset: nat, k: nat)
    requires Slotted(b, es) && k < |es|
    ensures Chain(Written(words, b, es, sentinelOffset), Address(b, es, 0), |es|)[k] == Address(b, es, k)
    ensures forall j :: 0 <= j < k ==> Address(b, es, j) != Address(b, es, k)
  {
    var items := Items(b, es, sentinelOffset);
    ItemsApart(b, es, sentinelOffset);
    ItemsLinked(b, es, sentinelOffset);
    ChainOfItems(words, items, |es|, k);
    forall j | 0 <= j < k ensures Address(b, es, j) != Address(b, es, k) { assert items[j].at != items[k].at; }
  }

  lemma {:induction false} ChainOfItems(words: Words, items: seq<Item>, n: nat, k: nat)
    requires k < |items| == n && Apart(items) && Linked(items)
    ensures Chain(WriteAll(words, items, n), items[0].at, n)[k] == items[k].at
    ensures forall j :: 0 <= j < k ==> items[j].at != items[k].at
  {
    ChainVisits(words, items, 0, k);
    AddressesDiffer(items, k);
  }

  lemma {:induction false} AddressesDiffer(items: seq<Item>, k: nat)
    requires Apart(items) && k < |items|
    ensures forall j :: 0 <= j < k ==> items[j].at != items[k].at
  {
  }

  /**
   A list built by adds can be written out exactly as long as it has no more descriptors than physical
   memory has slots for them.
   */
  lemma {:induction false} RunIsSlotted(b: Buffers, ops: seq<AddOp>)
    requires Disjoint(b.sg)
    ensures Slotted(b, Run(b, ops).entries) <==> |Run(b, ops).entries| <= |SlotAddresses(b.sg, b.d)|
  {
    var st := Run(b, ops);
    RunKeepsInvariants(b, ops);
    CapacityIsSlots(b.sg, b.d);
    if |st.entries| <= |Slots(b.sg, 0, b.d)| {
      StateIsSlotted(b, st);
    } else {
      DescriptorsPlaced(b, st, |st.entries| - 1);
    }
  }

  lemma {:induction false} StateIsSlotted(b: Buffers, st: ListState)
    requires Disjoint(b.sg) && Tiled(b, st) && Placed(b, st) && |st.entries| <= |Slots(b.sg, 0, b.d)|
    ensures Slotted(b, st.entries)
  {
    var es := st.entries;
    forall i | 0 <= i < |es| ensures Fits(b.sg, es[i].sgOffset, b.d) && es[i].bufPhys < U64 {
      DescriptorsPlaced(b, st, i);
      assert TiledAt(b.data, es, i);
    }
    forall i, j | 0 <= i < j < |es| ensures SlotsDisjoint(b, es, i, j) {
      DescriptorsSeparate(b, st, i, j);
    }
  }
}
