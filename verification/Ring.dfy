/** The circular doubly linked list of scatter-gather entries, and the memory its nodes live in. */
module Ring {
  import opened Machine
  import opened Carving

  /** `sg_entry`. Link and value fields of a new node hold whatever is in memory. */
  class SgEntry {
    var prev: SgEntry
    var next: SgEntry
    var sgOffset: u32
    var dataOffset: u32
    var bufPhys: u64
    var len: u32
    var isSof: bool
    var isEof: bool

    constructor ()
    {
      prev := this;
      next := this;
    }

    ghost function Value(): Node
      reads `sgOffset, `dataOffset, `bufPhys, `len, `isSof, `isEof
    {
      Node(sgOffset, dataOffset, bufPhys, len, isSof, isEof)
    }
  }

  /** The C heap, as far as list nodes go: the nodes allocated and not yet freed. */
  class Heap {
    var live: set<SgEntry>

    method Malloc() returns (e: SgEntry)
      modifies this
      ensures fresh(e) && live == old(live) + {e}
    {
      e := new SgEntry();
      live := live + {e};
    }

    /** Freeing what is not allocated is not allowed. */
    method Free(e: SgEntry)
      requires e in live
      modifies this
      ensures live == old(live) - {e}
    {
      live := live - {e};
    }
  }

  ghost function NodeSet(ns: seq<SgEntry>): set<SgEntry> {
    set x | x in ns
  }

  lemma {:induction false} NodeSetGrows(ns: seq<SgEntry>, e: SgEntry)
    ensures NodeSet(ns + [e]) == NodeSet(ns) + {e}
  {
    assert forall x :: x in ns + [e] <==> x in ns || x == e;
  }

  ghost function Values(ns: seq<SgEntry>): (vs: seq<Node>)
    reads ns`sgOffset, ns`dataOffset, ns`bufPhys, ns`len, ns`isSof, ns`isEof
    ensures |vs| == |ns| && forall i {:trigger vs[i]} :: 0 <= i < |ns| ==> vs[i] == ns[i].Value()
  {
    if ns == [] then [] else Values(ns[..|ns| - 1]) + [ns[|ns| - 1].Value()]
  }

  lemma {:induction false} ValuesConcat(a: seq<SgEntry>, b: seq<SgEntry>)
    ensures Values(a + b) == Values(a) + Values(b)
  {
  }

  /** Sentinel s and the nodes ns, in this order, form one cycle of mutually inverse next and prev links. */
  ghost predicate IsRing(s: SgEntry, ns: seq<SgEntry>)
    reads s`next, s`prev, ns`next, ns`prev
  {
    && s !in ns
    && s.next == (if |ns| == 0 then s else ns[0])
    && s.prev == (if |ns| == 0 then s else ns[|ns| - 1])
    && (forall i {:trigger ns[i].next} :: 0 <= i < |ns| ==> ns[i].next == if i + 1 < |ns| then ns[i + 1] else s)
    && (forall i {:trigger ns[i].prev} :: 0 <= i < |ns| ==> ns[i].prev == if i > 0 then ns[i - 1] else s)
  }

  /** No node occurs twice in a ring: two equal nodes would have to be equally far from the sentinel. */
  lemma {:induction false} RingDistinct(s: SgEntry, ns: seq<SgEntry>, i: nat, j: nat)
    requires IsRing(s, ns) && i < j < |ns|
    ensures ns[i] != ns[j]
    decreases |ns| - j
  {
    if j + 1 < |ns| { RingDistinct(s, ns, i + 1, j + 1); }
    assert ns[i].next != ns[j].next;
  }

  /** `sg_entry_init`. */
  method InitNode(node: SgEntry)
    modifies node`next, node`prev
    ensures IsRing(node, [])
  {
    node.next := node;
    node.prev := node;
  }

  /** `sg_entry_add_before`. */
  method AddBefore(head: SgEntry, node: SgEntry, ghost ns: seq<SgEntry>)
    requires IsRing(head, ns) && node != head && node !in ns
    modifies head`prev, head.prev`next, node`next, node`prev
    ensures IsRing(head, ns + [node])
  {
    var oldtail := head.prev;

    oldtail.next := node;
    node.prev := oldtail;

    node.next := head;
    head.prev := node;

    ghost var all := ns + [node];
    forall i {:trigger all[i].next} | 0 <= i < |all|
      ensures all[i].next == if i + 1 < |all| then all[i + 1] else head
    {
      if i + 1 < |ns| { assert old(ns[i].next) != head; }
    }
  }

  /**
   `sg_entry_add_list_before`. The spliced list must not be empty. Afterwards the cycle through head
   holds all nodes, in order, and neither visits the other list's sentinel nor links to it.
   */
  method AddListBefore(head: SgEntry, sentinel: SgEntry, ghost ns: seq<SgEntry>, ghost added: seq<SgEntry>)
    requires IsRing(head, ns) && IsRing(sentinel, added) && |added| > 0
    requires head != sentinel && head !in added && sentinel !in ns
    requires forall i, j :: 0 <= i < |ns| && 0 <= j < |added| ==> ns[i] != added[j]
    modifies head`prev, head.prev`next, sentinel.next`prev, sentinel.prev`next
    ensures IsRing(head, ns + added)
    ensures sentinel !in ns + added && sentinel != head
    ensures forall x :: x in ns + added + [head] ==> x.next != sentinel && x.prev != sentinel
  {
    var oldtail := head.prev;

    oldtail.next := sentinel.next;
    sentinel.next.prev := oldtail;

    head.prev := sentinel.prev;
    sentinel.prev.next := head;

    ghost var all := ns + added;
    forall i {:trigger all[i].next} | 0 <= i < |all|
      ensures all[i].next == if i + 1 < |all| then all[i + 1] else head
    {
      if i < |ns| { assert old(ns[i].next) != sentinel; } else { assert old(added[i - |ns|].next) != head; }
    }
    forall i {:trigger all[i].prev} | 0 <= i < |all| ensures all[i].prev == if i > 0 then all[i - 1] else head {
      if i < |ns| { assert old(ns[i].prev) != sentinel; } else { assert old(added[i - |ns|].prev) != head; }
    }
  }

  /** `axidma_free_list`: frees every node of the ring once, and reads none after freeing it. */
  method FreeList(heap: Heap, sentinel: SgEntry, ghost ns: seq<SgEntry>)
    requires IsRing(sentinel, ns) && NodeSet(ns) <= heap.live
    modifies heap
    ensures heap.live == old(heap.live) - NodeSet(ns)
  {
    var e := sentinel.next;
    ghost var i := 0;
    while e != sentinel
      invariant 0 <= i <= |ns|
      invariant e == if i < |ns| then ns[i] else sentinel
      invariant heap.live == old(heap.live) - NodeSet(ns[..i])
      invariant IsRing(sentinel, ns)
      decreases |ns| - i
    {
      forall j | 0 <= j < i ensures ns[j] != e { RingDistinct(sentinel, ns, j, i); }
      assert e in heap.live;
      var tmp := e.next;
      heap.Free(e);
      assert NodeSet(ns[..i + 1]) == NodeSet(ns[..i]) + {e};
      e := tmp;
      i := i + 1;
    }
    assert ns[..i] == ns;
  }
}
