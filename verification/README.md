# AXI DMA scatter-gather lists and the pinner module, modelled and proved

A user process pins two buffers with the *pinner* kernel module: one for data, one for the
descriptors the AXI DMA hardware reads. For each the module answers with a *physlist*, the stretches
of physical memory the buffer is made of. With the two physlists `src/axidma.c` apportions the data
buffer (`axidma_add_entry`), keeps the pieces in a circular list, writes one descriptor per piece
into the second buffer, starts the transfer, and afterwards walks the list to hand the filled buffers
back (`axidma_dequeue_s2mm_buf`).

This project models both halves and proves what they are for:

- **The round trip** (`AddedIsReturned`, `PinnedRoundTrip`; and of the code itself, from the empty list
  to the last buffer received, `RunSession`, and from the pin commands to the unpin commands, `RunProgram`). Whatever calls of add came before,
  successful or not, and however their buffers were split at page boundaries: once the device has
  filled every descriptor, call *k* of dequeue returns the buffer of the *k*-th successful add, whole
  and at its place, and every later call reports the end of the list. A list can be written at all
  exactly as long as it has no more descriptors than physical memory has slots for (`RunIsSlotted`).
- **The chain in physical memory is the list** (`ChainFollowsList`, `ListReadsBack`).
- **Carving** keeps its invariants over every run: the pieces tile the data, the descriptors sit in
  usable slots and apart from each other, no slot is skipped, every frame is well bracketed; a failing
  add leaves no trace, on a heap of linked nodes; and an add succeeds exactly when it can.
- **The physlist is what the MMU does** (`PinnedTranslates`), byte for byte.
- **Page references are conserved** (`RunConserves`, `ExitRestoresBase`), and an unpin undoes its own
  pin (`PinThenUnpin`, `UnpinRemovesOwn`).

## How it is built

| files | what they hold |
|---|---|
| `Machine`, `Physlist`, `Placement`, `SlotWalk` | machine words; physlists; the aligned first-fit search and the run of places it hands out |
| `Carving`, `CarvingRuns`, `Framing` | `axidma_add_entry` on values, and what every run of adds keeps |
| `Ring`, `SgLists` | the linked ring and `axidma_add_entry` working on it in place, against `Carving` |
| `Descriptors`, `Transfer` | the descriptor words in physical memory; the methods that write the list, start a transfer and dequeue |
| `Traversal`, `RoundTrip` | what dequeuing returns for any statuses, and the round trip |
| `Session`, `ExampleProgram` | a whole session of the library, and the example program around it: the methods composed |
| `PageSplit`, `PinnedBuffers` | the page arithmetic of a pin, and a pinned buffer in the hands of the allocator |
| `PinState`, `PinCommands`, `PinTheorems`, `Pinner` | the module's bookkeeping on values, what each command answers and does, what runs of them conserve, and the commands working in place |

Objects whose fields the C code updates are classes (`SgEntry`, `SgList`, `AxidmaCtx`, `ProcInfo`,
`Module`); loops are loops. Each method is proved against a function on values, and the theorems are
about those functions.

What the outside world does is a parameter. Every allocation, copy to or from user space and DMA
mapping succeeds or fails as its caller says; `get_user_pages_fast` returns any count it can return;
magics are arbitrary numbers; the device is a change of physical memory of which only the status
words matter. A C `unsigned` is a `u32`, so that every assignment is a proof that nothing wraps;
where wrapping is possible, `Wrap32` spells it out.

## Where the code falls short of its promise

Each of these is a theorem here, with the exact condition under which the code keeps its promise.

- *The search for a descriptor place can run past the end of the buffer.* Rounding up to 64 bytes
  (`src/axidma.c:210-215`) may leave an extent; the unsigned subtraction in line 220 then wraps, and
  a place outside the extent is returned (`Search`, for any physlist). In a pinned buffer that can only be
  the last extent, after every slot has been handed out: a list has then exactly one descriptor too many,
  and it lies past the buffer's end (`ListGoesAstray`). No list can come to that if `GoodDescriptorBuffer`
  holds: at most one descriptor's length lies between the last 64-byte boundary and the buffer's end, and a
  buffer inside a single page reaches a boundary at all (`PinnedPlacesExactly` and `PlacesAreSlotsExactly`,
  both if and only if; `RoomNeverExceeded`). `OverrunHappens` is the concrete case of 4095 bytes at
  address 0x1000. A buffer that starts and ends on 64-byte boundaries always meets the condition.
- *A pin of zero bytes is accepted at an address that is not page-aligned* (`modules/pinner/pinner.c:199-212`);
  at an aligned one it is refused. `AcceptedExactly` states what is accepted; `EmptyPinAccepted` is the case of
  address 1, for which an empty extent is sent.
- *Two early failures of a pin do not balance the page references*: a short count from
  `get_user_pages_fast` puts pages that were never taken, and a failing scatterlist allocation leads to a
  null pointer being followed before anything is put back. `PinConservesExactly`: a pin keeps references
  and pinnings in step if and only if neither exit is taken. `ShortGrabUnbalances` is a pin of one byte that
  drops a reference too many.
- *A descriptor holds only the low 26 bits of a length* (`ControlAsksForAll`), so a buffer comes back whole if
  and only if none of its entries is that long (`AddedIsReturned`). Entries cut at page boundaries are far
  below that; `LongEntryAsksForNothing` is an entry of 2^26 bytes.
- *The length of a returned buffer is a 32-bit sum*: no length is lost if and only if no single buffer reaches
  2^32 (`TotalIsReported`). Only a device that reports more than it was asked for can bring that about: the
  list is then too short for what is reported, as in `LongGroupLosesLength`; otherwise `NothingIsLost`.
- *The interrupt threshold is the number of frames modulo 256* (`ThresholdRead`).
- *A failing add reports a shortage of descriptors before a shortage of data* when both are short, since
  pieces are served before the end of the data buffer is noticed (`ShortOfDataReports`).

## Model

| member | source | states |
|---|---|---|
| Physlist.GetEntryIndex | src/axidma.c:166-179 | finds the extent that holds an offset and the offset into it; not found exactly beyond the total |
| Physlist.HoldsUnique | src/axidma.c:163-179 | at most one extent holds an offset, so the answer is the only possible one |
| Physlist.HoldsExists | src/axidma.c:163-179 | every offset below the total is held by some extent |
| Physlist.VirtToPhys | src/axidma.c:183-194 | the translation of an offset, in any list; 0 exactly for offsets outside a list whose addresses are not 0 |
| Physlist.PhysRunsOn | src/axidma.c:183-194 | inside one extent physical addresses run on with virtual ones |
| Physlist.PhysInjective | src/axidma.c:181-194 | with disjoint extents, no two offsets have the same physical address |
| Placement.FindContiguousAlignedAfter | src/axidma.c:200-237 | on any list of extents, empty ones and inner boundaries anywhere included, the loop returns the first fit from its start on, unless rounding up passes the end of an extent before, and then that rounded-up offset |
| Placement.PagedSearch | src/axidma.c:200-237 | in a buffer cut at page boundaries that can only be the end of the whole buffer |
| Placement.FirstFitSpec | src/axidma.c:196-199 | the first fit is aligned and inside one extent, is the least such offset, and is missing exactly when none exists |
| Placement.FitsExactly | src/axidma.c:196-199 | a place fits exactly when its bytes lie in one extent and start at a multiple of 64 in physical memory |
| Placement.SearchStep | src/axidma.c:208-232 | what one turn of the loop decides, as numbers: the rounded-up offset if that overruns the extent or fits, and else the search from the extent's end |
| Placement.OverrunsOnlyAtTheEnd | src/axidma.c:210-220 | line 220 wraps only in the last extent of a buffer cut at page boundaries, and exactly when rounding up passes the buffer's end |
| SlotWalk.SlotsComplete | src/axidma.c:200-237 | the slots a correct search visits from an offset on are all the offsets that fit from there on |
| SlotWalk.SlotsApart | src/axidma.c:200-237 | slots come in increasing order and do not overlap |
| SlotWalk.CapacityIsSlots | src/axidma.c:196-237 | as many slots are visited as there are 64-byte-aligned physical addresses with room for a descriptor in one extent |
| SlotWalk.PlacesAreSlotsExactly | src/axidma.c:208-232 | from a fresh list the code hands out exactly the usable slots if and only if there is room at the end of the buffer |
| SlotWalk.SlotsThenAstray | src/axidma.c:208-232 | the code hands out every slot, in order, and then at most one place more, which lies past the end of the buffer |
| SlotWalk.PlaceFitsExactly | src/axidma.c:208-232 | a place is fit for a descriptor exactly while slots last |
| Carving.CutTiles | src/axidma.c:305-318 | the pieces of a buffer lie end to end, up to its end or that of the data buffer |
| Carving.CutInside | src/axidma.c:279-318 | every piece is non-empty and lies in a single extent |
| Carving.CutCount | src/axidma.c:279-326 | there are as many pieces as the buffer touches extents |
| Carving.NewNodes | src/axidma.c:290-318 | a successful add appends one node for each piece, at least one |
| CarvingRuns.AddKeepsInvariants | src/axidma.c:246-344 | every add, whatever its answer, keeps the data tiled and the descriptors at consecutive places |
| CarvingRuns.RunKeepsInvariants | src/axidma.c:246-344 | both invariants hold after any run of adds |
| CarvingRuns.EntriesTranslate | src/axidma.c:298-300 | byte j of an entry is at the physical address the data buffer's translation gives |
| CarvingRuns.EntriesSeparate | src/axidma.c:279-336 | no physical byte belongs to two entries |
| CarvingRuns.DescriptorsPlaced | src/axidma.c:283-307 | a descriptor is aligned and inside one extent exactly while there are slots for it; each ends before the next begins, and the last at or below the list's offset |
| CarvingRuns.DescriptorsSeparate | src/axidma.c:283-307 | the physical byte ranges of the descriptors in slots are disjoint |
| CarvingRuns.CapacityKept | src/axidma.c:284-307 | entries plus slots still ahead are the whole capacity as long as it is not exceeded: no slot is skipped |
| CarvingRuns.ReachableAreSlots | src/axidma.c:284-307 | what is still handed out are exactly these slots if and only if there is room at the end of the buffer |
| CarvingRuns.ListGoesAstray | src/axidma.c:210-222 | a list with more descriptors than slots has exactly one more, and it starts past the buffer's end |
| CarvingRuns.RoomNeverExceeded | src/axidma.c:210-222 | with room at the end of the buffer no run of adds exceeds the capacity |
| CarvingRuns.AddSucceedsExactly | src/axidma.c:246-344 | from any state, an add succeeds exactly when enough bytes, enough places ahead for the extents touched and enough memory are left, and then adds one node per extent |
| CarvingRuns.RunAddSucceedsExactly | src/axidma.c:246-344 | after any run, the same with the slots that physical memory has and the entries that have taken them (and one place more where there is no room at the end) |
| CarvingRuns.AddAnswers | src/axidma.c:246-296 | which code a call answers when the data buffer suffices: no bytes, a missing place before a missing node, or success |
| CarvingRuns.ShortOfDataReports | src/axidma.c:283-325 | which error a call reports when the data buffer is too short |
| Framing.RunIsFramed | src/axidma.c:302-334 | after any run the list is a concatenation of well-bracketed frames, one per successful add, each as long as was asked for |
| Framing.FrameMeans | src/axidma.c:302-334 | the flags and the bytes of the k-th frame, one by one |
| Framing.SizesGrow | src/axidma.c:246-344 | a frame is added exactly by a call that succeeds, with the size it asked for |
| Framing.RunEofCount | src/axidma.c:425-431 | the entries marked EOF are as many as the successful adds |
| Ring.InitNode | src/axidma.c:87-90 | a fresh sentinel is a ring of its own |
| Ring.AddBefore | src/axidma.c:92-101 | the node becomes the last of the ring; next and prev stay inverse over one cycle |
| Ring.RingDistinct | src/axidma.c:87-113 | no node occurs twice in a ring |
| Ring.AddListBefore | src/axidma.c:103-113 | splicing a non-empty ring appends its nodes in order and leaves its sentinel unreachable |
| Ring.FreeList | src/axidma.c:143-151 | frees every node of the ring exactly once, and reads no freed node |
| SgLists.ListNew | src/axidma.c:116-137 | a new list is an empty ring with both offsets 0 and no traversal; none when memory is short |
| SgLists.ListDel | src/axidma.c:154-159 | frees exactly the nodes of the list and the list, and does nothing without a list |
| SgLists.SgList.AddEntry | src/axidma.c:246-344 | on the linked nodes: answer and new state are those of the value model; on failure nothing is changed and every temporary node is freed; on success the ring is old ++ new |
| SgLists.BuildPieces | src/axidma.c:279-326 | the loop serves the pieces one by one and stops with the right code, offsets and nodes |
| SgLists.FlagFrame | src/axidma.c:328-330 | the first node of the temporary list is flagged SOF and the last EOF, nothing else changes |
| SgLists.SgList.Commit | src/axidma.c:332-336 | splicing and the two offsets take over the whole temporary list |
| Descriptors.EncodeDecodes | src/axidma.c:357-374 | a descriptor's fields decode to what was encoded, the length cut to 26 bits, the status cleared |
| Descriptors.AllReadBack | src/axidma.c:397-400 | no later write clobbers an earlier descriptor, and none touches one still to be written |
| Descriptors.ListReadsBack | src/axidma.c:347-404 | after writing, each descriptor in memory holds its entry's address, length and flags, and a cleared status |
| Descriptors.DescriptorWords | include/axidma.h:25-54 | the six words of a written descriptor as numbers, at their offsets: next and buffer address, low half first, control, cleared status |
| Descriptors.ChainFollowsList | src/axidma.c:372-400 | following the next fields from the first descriptor visits the entries in order, once each, and reaches the last after n - 1 hops |
| Descriptors.RunIsSlotted | src/axidma.c:246-404 | a list built by adds can be written so if and only if it has no more descriptors than memory has slots |
| Transfer.WriteSgEntry | src/axidma.c:347-375 | the six stores put one encoded descriptor at its physical address and change nothing else |
| Transfer.WriteEntries | src/axidma.c:397-400 | the loop writes every entry's descriptor, in order |
| Transfer.AxidmaCtx.WriteSgList | src/axidma.c:377-404 | memory then holds the whole list and the traversal stands at its first entry; an empty list is left alone |
| Transfer.CountFrames | src/axidma.c:425-431 | counts the entries marked EOF |
| Transfer.AxidmaCtx.S2mmTransfer | src/axidma.c:412-459 | starts only with a written, non-empty list; programs the addresses of the first and the last descriptor, low half and high half, and the control word, as numbers |
| Transfer.ThresholdRead | src/axidma.c:454 | the control word's threshold field reads as the count modulo 256, and the other fields as intended |
| Transfer.ThreeFields | src/axidma.c:454 | the or-ed fields of the control word do not disturb each other |
| Transfer.CollectGroup | src/axidma.c:502-539 | the loop ends at the next reported EOF or at the last entry, adding up lengths and failures of just that group |
| Transfer.DequeueS2mmBuf | src/axidma.c:479-546 | returns what the value model says and moves the traversal past the group |
| Transfer.ResetTraversal | src/axidma.c:551-553 | the traversal stands at the first entry again |
| Traversal.GroupsPartition | src/axidma.c:506-542 | for any statuses, the groups are consecutive and cover the list |
| Traversal.WalkVisitsGroups | src/axidma.c:479-546 | repeated calls return the groups one by one |
| Traversal.GroupEndExactly | src/axidma.c:538-539 | a group ends at the first EOF reported from its start on, or else with the list |
| Traversal.CallReturns | src/axidma.c:496-534 | what one call returns: the place, the 32-bit sum, and a failure exactly when a descriptor of the group is incomplete or has one of the three error bits |
| Traversal.GroupFails | src/axidma.c:532-534 | the same failures for the k-th of repeated calls |
| Traversal.NothingReturned | src/axidma.c:483-494 | off the list, and only there, a call returns no base, no length and END_OF_LIST |
| Traversal.WalkEnds | src/axidma.c:483-494 | the end is reported after as many calls as there are groups, at most one per entry, and from then on |
| Traversal.GroupIsReported | src/axidma.c:530 | a call returns no more than its group reported, and all of it exactly when that is below 2^32 |
| Traversal.TotalIsReported | src/axidma.c:530 | for any statuses, returned lengths never exceed those reported, and add up to all of them exactly when no single group reaches 2^32 |
| Traversal.LongGroupLosesLength | src/axidma.c:530 | 65 descriptors reported full, without an EOF: the length returned is short by 2^32 |
| RoundTrip.NothingIsLost | src/axidma.c:479-546 | for a list built by adds and a device that reports no more than it was asked for, returned lengths add up to all those reported |
| RoundTrip.FrameLies | src/axidma.c:328-336 | frame k is the stretch of the list after the frames before it |
| RoundTrip.ControlAsksForAll | src/axidma.c:361 | the descriptor of a written list asks for its entry's whole length exactly when that is below 2^26 |
| RoundTrip.LongEntryAsksForNothing | src/axidma.c:361 | the descriptor of an entry of 2^26 bytes asks for 0 |
| RoundTrip.FrameReturned | src/axidma.c:496-542 | from the start of a filled frame, one call returns exactly that frame's buffer, whole unless an entry is too long, and moves to the next frame |
| RoundTrip.AddedIsReturned | src/axidma.c:246-546 | the round trip, for every list that can be written; a buffer comes back whole exactly when none of its entries is too long |
| Session.RunSession | example.c:50-85 | the code composed: a new list, adds, writing, transfer and dequeuing until the end; memory holds the written list, the registers name the ends of its chain, and what is received are the buffers added |
| Session.ProgrammedMeans | src/axidma.c:443-459 | the registers after a session, as numbers: the ends of the chain in memory, and the number of frames modulo 256 |
| Session.AllBackMeans | src/axidma.c:479-546 | the k-th buffer received in a session: base, code and length |
| Session.RunPinnedSession | example.c:50-85 | the same with pinned buffers: every buffer added is received in full |
| ExampleProgram.RunProgram | example.c:38-94 | two pins, the session, two unpins: it goes through exactly when both pins are granted, every buffer added is received in full, and the module is left with the pinnings and page counts it had; otherwise it stops at the pin that is refused |
| ExampleProgram.PinBoth | example.c:38-48 | both pins as steps of the value model, with their handles and physlists; no second pin after a refused first one |
| Session.AddAll | example.c:52-64 | the list after the calls is the run of the value model, and its nodes are those allocated |
| Session.Receive | example.c:70-85 | dequeuing until the end returns the walk's buffers, and ends |
| Machine.OrMaskMinusMask | modules/pinner/pinner.c:196 | or-ing in a low mask and subtracting it again clears those bits |
| PageSplit.PageStartRoundsDown | modules/pinner/pinner.c:196 | the start computed is the address rounded down to a page |
| PageSplit.NumPagesCounts | modules/pinner/pinner.c:202 | for a non-empty buffer num_pages is the number of pages holding some byte of it |
| PageSplit.TouchedExactly | modules/pinner/pinner.c:199-202 | the pages that hold some byte of a buffer are those from its first byte's to its last byte's |
| PageSplit.AcceptedExactly | modules/pinner/pinner.c:199-212 | what the validation accepts: 1 to 1024 pages touched, or no byte at an unaligned address |
| PageSplit.EmptyPinAccepted | modules/pinner/pinner.c:199-212 | no byte at address 1 is accepted, and one empty extent is sent |
| PageSplit.AllocAndFillSglist | modules/pinner/pinner.c:134-180 | entry i covers exactly the part of the buffer in page i, and no subtraction wraps |
| PageSplit.SendPhyslist | modules/pinner/pinner.c:90-132 | sends one extent per scatterlist entry, or the right error |
| PageSplit.PinnedExtentInPage | modules/pinner/pinner.c:154-176 | every length is 1 to a page; all extents but the first start a page, all but the last end one |
| PageSplit.PinnedStart | modules/pinner/pinner.c:154-176 | the lengths add up to the bytes before each page, and in all to the buffer's size |
| PageSplit.PinnedUnique | modules/pinner/pinner.c:107-176 | pages, offset and size determine the list sent |
| PageSplit.PinnedTranslates | modules/pinner/pinner.c:107-112 | looking up byte k in the physlist sent gives the MMU's translation of that byte, and not-found beyond the buffer |
| PinnedBuffers.PinnedIsWellFormed | modules/pinner/pinner.c:107-176 | a pinned buffer's physlist has positive, disjoint extents and a total far below 2^32 |
| PinnedBuffers.PinnedIsPaged | modules/pinner/pinner.c:154-176 | only its first and last byte can be off a 64-byte boundary, and no length reaches 2^26 |
| PinnedBuffers.PinnedHasRoom | src/axidma.c:210-222 | whether there is room at the end, in terms of the buffer's address and size alone |
| PinnedBuffers.PinnedPlacesExactly | src/axidma.c:200-237 | in a pinned buffer the search hands out exactly the usable slots if and only if address and size are good |
| PinnedBuffers.OverrunHappens | src/axidma.c:215-222 | a concrete buffer of 4095 bytes: after the slot at 4032 the search returns 4096 |
| PinnedBuffers.PinnedRoundTrip | src/axidma.c:246-546 | the round trip for two buffers the module pinned, for every list within the capacity of its descriptor buffer |
| PinnedBuffers.EntriesAgreeWithPaging | src/axidma.c:300 | byte j of an entry goes to the frame the page table gives for its place in the user's buffer |
| PinTheorems.PinConservesExactly | modules/pinner/pinner.c:182-284 | a pin keeps references and pinnings in step if and only if it takes neither of two early exits |
| PinCommands.BalancedExactly | modules/pinner/pinner.c:221-239 | those two exits: a short grab, and the null pointer after a failing scatterlist |
| PinCommands.PinAnswers | modules/pinner/pinner.c:182-284 | when a pin is granted, and which error it answers otherwise, in terms of the pages touched and of each step's success |
| PinCommands.PinDoes | modules/pinner/pinner.c:182-284 | what a pin does to its file's list and to the count of each page, at every exit |
| PinCommands.LookupAnswers | modules/pinner/pinner.c:343-371 | what an unpin or flush answers: an unreadable handle, one that names no pinning of the file, one that does |
| PinCommands.UnpinDoes | modules/pinner/pinner.c:337-378 | a refused unpin changes nothing; another takes out the first pinning with its magic and puts its pages |
| PinCommands.OpenDoes | modules/pinner/pinner.c:380-406 | a new file at the head, with the magic drawn for it and no pinnings; nothing when memory is short |
| PinCommands.ReleaseDoes | modules/pinner/pinner.c:408-416 | the file leaves the list, and each count drops by what it held |
| PinCommands.OthersDoNothing | modules/pinner/pinner.c:287-335 | a flush leaves the books alone, and so does a command on a file that is not open |
| PinCommands.HeldCountsSlots | modules/pinner/pinner.c:33-46 | what is held of a page counts each scatterlist slot of each live pinning once |
| PinTheorems.PinMovesCounts | modules/pinner/pinner.c:182-284 | by how much each exit of a pin moves the count of each page |
| PinTheorems.ShortGrabUnbalances | modules/pinner/pinner.c:216-222 | a pin of one byte for which no page is grabbed drops a reference that was never taken |
| PinTheorems.StepConserves | modules/pinner/pinner.c:182-416 | every balanced command keeps each page's references equal to the scatterlist slots of live pinnings naming it |
| PinTheorems.RunConserves | modules/pinner/pinner.c:182-416 | so in every state reachable by such commands |
| PinTheorems.ReleaseTakesItsShare | modules/pinner/pinner.c:63-88 | closing a file takes back exactly the references of its own pinnings |
| PinTheorems.ExitRestoresBase | modules/pinner/pinner.c:486-499 | after any such run, module exit brings every count back to where it started |
| PinTheorems.PinThenUnpin | modules/pinner/pinner.c:337-378 | an unpin right after its pin restores the lists and all counts, even if magics collide |
| PinTheorems.PinTwiceThenUnpin | modules/pinner/pinner.c:337-378 | so do two pins undone in reverse order |
| PinTheorems.RunKeepsOwner | modules/pinner/pinner.c:182-416 | commands of other files, and pins and unpins with other magics, leave a pinning alone |
| PinTheorems.PinMakesOwner | modules/pinner/pinner.c:242-243 | a pin with a new magic is the only pinning of its file with that magic |
| PinTheorems.UnpinRemovesOwn | modules/pinner/pinner.c:337-378 | after any commands that spare it, the handle of a pin unpins exactly that pinning |
| Pinner.Module.PutPageList | modules/pinner/pinner.c:26-31 | drops one reference for each page in the array, repeats included |
| Pinner.Module.PutSglistPages | modules/pinner/pinner.c:33-46 | drops one reference for each scatterlist slot |
| Pinner.Module.FreePinning | modules/pinner/pinner.c:48-64 | takes one pinning out of its list and puts its pages |
| Pinner.Module.FreePinnings | modules/pinner/pinner.c:66-74 | empties a file's list and puts the pages of all its pinnings |
| Pinner.Module.FreeProcInfo | modules/pinner/pinner.c:76-88 | removes just this user, putting the pages of its pinnings only |
| Pinner.Module.Open | modules/pinner/pinner.c:380-405 | a new user with the magic drawn and without pinnings at the head of the list, or nothing when memory is short |
| Pinner.Module.Release | modules/pinner/pinner.c:407-416 | the step of the value model, in place |
| Pinner.Module.FindPinning | modules/pinner/pinner.c:356-366 | the first pinning from the head with the magic sought |
| Pinner.Module.DoPin | modules/pinner/pinner.c:182-284 | every exit's answer, counts and list, as PinAnswers and PinDoes spell them out; on success the handle and a physlist that splits the buffer by pages |
| Pinner.Module.Publish | modules/pinner/pinner.c:242-283 | failures after the insertion take the pinning out again and put its pages |
| Pinner.Module.DoUnpin | modules/pinner/pinner.c:337-378 | answers and effect of an unpin; a refused one changes nothing |
| Pinner.Module.DoFlush | modules/pinner/pinner.c:287-335 | finds its pinning under exactly the conditions of an unpin, and asks to synchronise just that one, in the directions the flags leave |
| Pinner.Module.Write | modules/pinner/pinner.c:419-452 | dispatches a command; each write is one step of the value model |
| Pinner.Module.Exit | modules/pinner/pinner.c:486-499 | frees all users from the head of the list |

## Left out

- Opening and closing the context (beyond its having no list yet), mapping the registers, waiting for the interrupt, and when registers are written (`src/axidma.c:45-83`, `src/axidma.c:461-471`): only the values programmed are modelled.
- Cache flushing and the small wrappers around `write` (`src/pinner_fns.c`): hardware and I/O.
- Null pointers passed for lists and contexts, whose guards return at once; `ctx->lst` before any list was written is modelled.
- How the compiler packs bit-fields into words 6 and 7 of a descriptor, and byte order: those words are records of their fields, with the 26-bit lengths cut explicitly.
- The sentinel's `sg_offset`, which nothing initialises: the last descriptor's next field is whatever the sentinel's offset translates to, and claims about the chain stop at the last descriptor.
- What the device does on an early or late end of packet: the walk is proved for arbitrary statuses, and only the round trip assumes that every descriptor is filled as asked.
- Physlist.VirtToPhys: asks that no extent runs past 2^64, because the address added there is a 64-bit number.
- Placement.FindContiguousAlignedAfter: claims nothing about lists that come within 64 bytes of 2^32 in all, nor about sizes of 0 or within 64 bytes of 2^32, because a pinned buffer has at most 4 MiB and the only caller passes the size of a descriptor.
- The search as the allocator sees it, and all claims about whole runs, are about non-empty extents at addresses other than 0, 2^31 bytes of them at most, cut at page boundaries for the descriptor buffer, as the module sends them.
- Transfer.ControlRegister: shifts natural numbers, because the bits are the same; in C `200<<24` overflows a signed int (`src/axidma.c:454`), which the language leaves undefined.
- `dma_map_sg`, `dma_unmap_sg`, `dma_sync_sg_for_cpu` and `dma_sync_sg_for_device` themselves; mapping is taken to leave `dma_address` at the page's base, because the offset is added afterwards, and the code it fails with is the single value EMAP.
- Pinner.Module.DoPin: stops at the null pointer that follows a failing scatterlist allocation, because what the kernel does then is not decided by this code, and states only the references already taken; it does not say what the user's physlist or handle holds after a failing pin, because the caller must not use them then, nor that the page-pointer array is never freed on success.
- Pinner.Module.DoFlush: models what is asked for, because the synchronisation itself has no effect on the module's state.
- The module's linked lists of users and pinnings are sequences, head first; relinking in place is proved for the library's ring.
- Concurrent commands: each command is one atomic step; the mutex guards only the list of users.
- Random generation of magics: they are arbitrary, and distinct only where a theorem says so.
- Registration of the device, and pages other than 4096 bytes; the lemma about the page mask holds for every size.
- Session.AddAll: makes every call, where the example program stops at the first refusal, because that is the same run with a shorter sequence of calls; its other output is left out.
- The UIO kernel modules and the other example programs.
