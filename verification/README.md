# Verified model of the list, arithmetic, packet and trace-id headers

The ti-img-rogue driver keeps most of its shared algorithms in a handful of headers.
This project models four of them in Dafny and proves what they promise:

* `include/dllist.h`: the intrusive circular doubly linked list. `DList.dfy` has the node
  class and every operation with its pointer writes; `DListIter.dfy` the forward and
  backward iteration macros with a loop body that may unlink or move the current node;
  `DListSort.dfy` the in-place sort, whose effect on the order is `Selection.dfy`; and
  `DListRuns.dfy` any number of lists at once under any run of operations.
* `include/log2.h`: integer logarithms and powers of two (`Log2.dfy`, `ExactLog2.dfy`), in
  the variant over the count-leading-zeros builtin and in the portable one. Words are
  natural numbers with the bitwise operators defined in `Bits.dfy`; the width is a
  parameter wherever the code allows it. `ImgDefs.dfy` has `PVR_ALIGN` and `MAX`.
* `include/pvrsrv_tlcommon.h`: the transport-layer packet format. `TlPacket.dfy` has the
  header word and the address macro, `TlStream.dfy` the layout of packets in memory and the
  walk over them, `TlClient.dfy` what a client sees.
* `include/rgx_fwif_sf.h` and `include/rgxfw_log_helper.h`: the trace-id word and the search
  for it (`TraceId.dfy`).

A list is described by a ghost sequence of its members. `Ring(head, s)` says that the links
of `head` and `s` are one closed ring in this order; the operations state the new sequences,
and their `modifies` clauses state that no other link changes. A comparison callback gets
the number of calls made before it, so a callback may answer anything, even contradict
itself. An iteration body is likewise any function of the visit number and the node.

Every lemma switches automatic induction off: a proof by induction shows its recursive calls.

Where the code and its comments differ, the code is modelled:

* `dllist_sort` is called an insertion sort that passes neighbours to the callback. The code
  reverses the list and then selects, and passes the running smallest node and the current
  one. With a strict callback equal nodes come out in reverse order
  (`Selection.StrictSortReversesTies`), so that the sort is stable exactly when there are no
  equal nodes (`Selection.StrictSortStableIff`; `Selection.StrictSortSwapsEquals` shows a pair).
* `dllist_insert_list_at_head` loses the members when both arguments are the same non-empty
  list; the contract of `DList.InsertListAtHead` says what is left.
* `dllist_replace_head` loses the members likewise when both heads are the same
  (`DList.ReplaceHead`).
* `NumMipLevels` counts one level too few when a size is zero and none is above one
  (`Log2.NumMipLevelsIsChain`), as for 1x1x0 (`Log2.NumMipLevelsMissesALevel`).
* The comment on `idToStringID` says the ids increase. They are ordered by argument count
  first (`TraceId.CreateOrder`), and the first two rows of the main group already decrease
  (`TraceId.IdsDoNotIncrease`).
* The sentinel row belongs to group 0, but its id number runs over into the group field, so
  its word decodes to group 15 (`TraceId.SentinelLosesGroup`). Group and argument count come
  back exactly when both fit and the id number sets no bit in their fields that they do not
  have (`TraceId.DecodeCreatedIff`); all three fields come back exactly when all three fit
  (`TraceId.RoundTripIff`).

## Model

| member | source | states |
|---|---|---|
| `DList.Init` | include/dllist.h:132-136 | An initialised head is an empty ring. |
| `DList.IsEmpty` | include/dllist.h:147-151 | True exactly when the ring has no members. |
| `DList.AddToHead` | include/dllist.h:163-175 | The node becomes the first member of the same ring, also of an empty one; only the head, the node and the old first node are written. |
| `DList.AddToTail` | include/dllist.h:187-199 | The node becomes the last member; only the head, the node and the old last node are written. |
| `DList.GetNextNode` | include/dllist.h:224-231 | The first member, or null when there is none. |
| `DList.GetPrevNode` | include/dllist.h:244-251 | The last member, or null when there is none. |
| `DList.RemoveNode` | include/dllist.h:262-270 | Unlinking any node of a ring, its head included, leaves the others in one closed ring and the node with null links. |
| `DList.RemoveMember` | include/dllist.h:262-270 | Seen from the list: its members without the removed one, in their old order. |
| `DList.Rotate` | include/dllist.h:55-67 | Any member can be taken as the head of the same ring, so that head operations serve every node. |
| `DList.RingUnique` | include/dllist.h:64-67 | The links determine the members of a head. |
| `DList.ReplaceHead` | include/dllist.h:284-303 | The new head holds all members in order and the old head is an empty ring, whatever the new head held before; the same non-empty list given twice becomes an empty head to which the old members still lead. |
| `DList.InsertListAtHead` | include/dllist.h:318-333 | Two lists become their concatenation and an empty list, for every combination of lengths; the same non-empty list given twice becomes an empty head and a ring without a head. |
| `DList.LinksOfRing` | include/dllist.h:64-67 | The links are a ring if and only if every two neighbours, the head between last and first included, lead to each other. |
| `DList.MoveToEmpty` | include/dllist.h:284-333 | For an empty destination inserting the list and replacing the head come to the same: all members in order at the new head, the old head empty. |
| `DList.ReplaceThereAndBack` | include/dllist.h:284-303 | Replacing a head and replacing it back restores both links of both heads and of every member. |
| `DListIter.ForeachNode` | include/dllist.h:86-89 | The nodes visited are the original ones, once each and in order, while the body unlinks or moves the current one; the list keeps the nodes the body keeps, the other list holds the nodes sent to its head, latest first, its old members, and the nodes sent to its tail; dropped nodes have null links. |
| `DListIter.ForeachNodeBackwards` | include/dllist.h:91-94 | The same for the walk from the tail: the nodes are visited, and sent, in reverse order. |
| `DListIter.BothDirectionsFilter` | include/dllist.h:86-94 | When the body decides by the node alone, both directions leave the order-preserving filter of the list. |
| `DListIter.BackwardsIsReversed` | include/dllist.h:86-94 | Walking backwards is walking the reversed list and reversing what is left. |
| `DListIter.IterationConserves` | include/dllist.h:74-94 | Kept, sent and dropped nodes together are the original nodes, none lost or duplicated. |
| `DListIter.BackwardIterationConserves` | include/dllist.h:91-94 | The same for the walk from the tail. |
| `DListIter.SentInOrder` | include/dllist.h:86-89 | For every body, also one that goes by the number of the visit: what the other list ends as, in closed form, its old members untouched. |
| `DListIter.SentFromInOrder` | include/dllist.h:91-94 | The same for the walk from the tail. |
| `DListIter.SentIsFilters` | include/dllist.h:86-94 | When the body decides by the node alone: forwards the nodes sent to the head arrive reversed and those sent to the tail in order, backwards the other way round. |
| `DListIter.NothingSent` | include/dllist.h:86-89 | Visits that only keep or drop leave the other list as it was. |
| `DListIter.NothingSentFrom` | include/dllist.h:91-94 | Also in the walk from the tail. |
| `DListIter.SendAll` | include/dllist.h:365-369 | Moving every node to the head of an empty list reverses it; to the tail, copies it. |
| `DListSort.FindSmallest` | include/dllist.h:372-379 | The inner loop ends with the running smallest node of the whole list after one call less than there are nodes. |
| `DListSort.Sort` | include/dllist.h:358-384 | For every callback the head ends with the members in the order `SortOrder`, after n(n-1)/2 calls, and no link leads to the temporary head. |
| `Selection.SortOrderPermutes` | include/dllist.h:358-384 | Whatever the callback answers, the result is a permutation of the members. |
| `Selection.DrainCallsTotal` | include/dllist.h:371-383 | The passes together make n(n-1)/2 calls. |
| `Selection.SortCallNumbers` | include/dllist.h:371-383 | The calls are numbered pass by pass and front to back: a callback that says yes to one call only moves exactly the node which that call offers, and none if the sort makes no such call. |
| `Selection.PickIsLeast` | include/dllist.h:374-379 | The selected node has a least key: the last such one with a non-strict callback, the first with a strict one. |
| `Selection.SortIsStable` | include/dllist.h:343-384 | With a callback for key(a) >= key(b) the result is ascending and equal keys keep their order. |
| `Selection.StrictSortReversesTies` | include/dllist.h:343-384 | With a callback for key(a) > key(b) the result is ascending and every group of equal keys is exactly reversed. |
| `Selection.StrictSortStableIff` | include/dllist.h:343-384 | With the strict callback the sort is stable if and only if all keys differ. |
| `Selection.StrictSortSwapsEquals` | include/dllist.h:343-384 | Two members of one key come out swapped under the strict callback. |
| `Selection.AscendingUnique` | include/dllist.h:343-384 | Ascending keys and the order of equal keys determine the whole result. |
| `DListRuns.Apply` | include/dllist.h:132-384 | One legal operation among any number of lists: where it leaves the list it works on, link for link, in terms of the old members (a sort with a key callback: ascending, with ties kept or reversed); every other list and loose node is untouched. |
| `DListRuns.Run` | include/dllist.h:132-384 | Any legal run of operations takes the links from one described state to the state after the run. |
| `DListRuns.RunOne` | include/dllist.h:132-384 | The empty run changes nothing, and a run of one operation is that operation. |
| `DListRuns.RunConcat` | include/dllist.h:132-384 | Two runs one after the other are one run: legality and outcome compose. |
| `DListRuns.AddAllToTail` | include/dllist.h:187-199 | Adding any nodes one by one at the tail leaves them in order behind the old members and nothing else changed. |
| `DListRuns.AddAllToHead` | include/dllist.h:163-175 | At the head, reversed in front of them. |
| `DListRuns.RunAdds` | include/dllist.h:163-199 | Both on the links, among any number of other lists. |
| `DListRuns.RemoveUndoesAdd` | include/dllist.h:163-270 | Adding a node at either end and removing it restores the whole state. |
| `DListRuns.NextOneRole` | include/dllist.h:132-384 | Every operation keeps each node in exactly one role: head, one place in one list, or loose. |
| `DListRuns.NextSameNodes` | include/dllist.h:132-384 | No operation loses a node or brings one in. |
| `DListRuns.RunConserves` | include/dllist.h:132-384 | Both hold over whole runs. |
| `DListRuns.QueryInList` | include/dllist.h:210-213 | The in-list test is true of a tracked node exactly when it is the head or a member of some ring. |
| `ImgDefs.AlignIsLeastMultipleIff` | include/img_defs.h:206-212 | At every word width the macro gives the least multiple not below x if and only if x is at most 2^w - n; otherwise it gives zero. |
| `ImgDefs.AlignTwice` | include/img_defs.h:206-212 | Aligning to one power of two and then another is aligning once to the larger, on every input. |
| `Log2.ClzTop` | include/log2.h:85-93 | The leading zeros locate the highest set bit. |
| `Log2.FloorLog2Adjunction` | include/log2.h:80-108 | k is at most the floor logarithm exactly when 2^k is at most n. |
| `Log2.CeilLog2Adjunction` | include/log2.h:110-142 | The ceiling logarithm is at most k exactly when n is at most 2^k, for zero and one too. |
| `Log2.FloorLog2Portable` | include/log2.h:262-287 | The shift loop agrees with the builtin variant on every input of every width. |
| `Log2.CeilLog2Portable` | include/log2.h:294-333 | So does the loop of the ceiling logarithm. |
| `Log2.IsPower2Iff` | include/log2.h:47-67 | The test accepts exactly zero and the powers of two. |
| `Log2.CeilFloorLog2` | include/log2.h:52-142 | The two logarithms differ by one exactly off the powers of two. |
| `Log2.RoundUpIsLeastPowerOfTwo` | include/log2.h:166-214 | From 1 to half the range the result is 2^CeilLog2(n), the least power of two not below n; elsewhere it is zero. |
| `Log2.SmearBit` | include/log2.h:226-231 | After k rounds a bit is set exactly when one of the 2^k original bits from it upwards was. |
| `Log2.SmearRoundsUp` | include/log2.h:224-255 | At every width 2^k the smear computes what the builtin variant computes, on every input. |
| `Log2.RoundUpToNextPowerOfTwoPortable` | include/log2.h:224-235 | The five rounds at 32 bits agree with the builtin variant. |
| `Log2.RoundUpToNextPowerOfTwo64Portable` | include/log2.h:243-255 | The six rounds at 64 bits agree with the builtin variant. |
| `ExactLog2.Table32` | include/log2.h:342-343 | The constants are the masks of the positions whose number has a given bit. |
| `ExactLog2.Table64` | include/log2.h:361-365 | The same for 64 bits. |
| `ExactLog2.MaskTest` | include/log2.h:344-349 | The test against mask j asks whether the number of some set bit has bit j. |
| `ExactLog2.ExactLog2Portable` | include/log2.h:340-352 | For every 32-bit word the result is the bitwise or of the numbers of its set bits. |
| `ExactLog2.ExactLog264Portable` | include/log2.h:359-375 | The same for 64-bit words. |
| `ExactLog2.OrOfSetBitsBit` | include/log2.h:340-375 | Bit j of that reference is set exactly when some set bit has bit j in its number. |
| `ExactLog2.LogarithmsAgreeOnPowersOfTwo` | include/log2.h:80-164 | On powers of two the exact, floor and ceiling logarithms and the mask result are one number, and it is the exponent. |
| `Log2.NumMipLevelsIsChain` | include/log2.h:379-404 | The count is the length of the chain of halved sizes down to 1x1x1 if and only if all sizes are positive or some size is above one. |
| `Log2.NumMipLevelsMissesALevel` | include/log2.h:379-404 | For 1x1x0 the count is one where the chain has two levels. |
| `TlPacket.PacketHdrRoundTripIff` | include/pvrsrv_tlcommon.h:178-210 | Length and type come back from the header word if and only if they fit 16 and 8 bits, and then the drop mark is clear. |
| `TlPacket.SpecialWords` | include/pvrsrv_tlcommon.h:171-177 | The data, padding and write-failed macros give words of type 1, 3 and 2 with the length in the low bits. |
| `TlPacket.MarkKeepsFields` | include/pvrsrv_tlcommon.h:215-223 | Setting the drop mark keeps length and type, and the check sees it. |
| `TlPacket.NextPacketAfterFiller` | include/pvrsrv_tlcommon.h:200-204 | The address macro skips the header, the data and the least filler that reaches a multiple of eight. |
| `TlStream.WalkIffEncoded` | include/pvrsrv_tlcommon.h:67-204 | A walk over a buffer succeeds with given packets if and only if they are valid and the buffer is their layout; it stops exactly at the end. |
| `TlClient.NoViewIff` | include/pvrsrv_tlcommon.h:136-204 | A buffer gives a client nothing if and only if no list of valid packets is laid out as it. |
| `TlClient.ViewConcat` | include/pvrsrv_tlcommon.h:136-204 | Two streams laid out one behind the other are seen one behind the other. |
| `TlClient.PaddingIsSkipped` | include/pvrsrv_tlcommon.h:136-174 | A packet with the word of the padding macro, anywhere in a stream and whatever it holds, leaves the client's view unchanged. |
| `TlClient.OthersAreSeen` | include/pvrsrv_tlcommon.h:136-179 | A packet of any type but 3 is seen, with its type and data, between what comes before and after. |
| `TlClient.DataIsSeen` | include/pvrsrv_tlcommon.h:119-172 | A packet of the data macro is seen with type 1 and its data. |
| `TlClient.WriteFailureIsSeen` | include/pvrsrv_tlcommon.h:123-177 | The packet of a failed write is seen with type 2 and no data. |
| `TlClient.PacketInPlace` | include/pvrsrv_tlcommon.h:67-87 | Every packet stands byte for byte at its address: header word, reserved word, data. |
| `TlClient.WriteThenRead` | include/pvrsrv_tlcommon.h:168-210 | Any list of written packets is read back with its types, lengths and data, unmarked, whatever the reserved words and fillers hold. |
| `TlClient.WriteThenSee` | include/pvrsrv_tlcommon.h:136-210 | A client sees exactly the written messages, if none is padding, type 3. |
| `TlClient.WalkSteps` | include/pvrsrv_tlcommon.h:200-204 | The address macro leads from each packet exactly to the next; every step is at least eight and every address a multiple of eight. |
| `TlClient.DisturbanceIsInvisible` | include/pvrsrv_tlcommon.h:136-142 | Padding packets at any boundaries and drop marks on any packets leave the client's view of the buffer unchanged. |
| `TlClient.MarkedExactly` | include/pvrsrv_tlcommon.h:215-223 | The check is true of exactly the marked packets, apart from those marked before. |
| `TlClient.MarkingIsInvisible` | include/pvrsrv_tlcommon.h:212-223 | Storing the mark into any set of headers in memory, in any order, marks those packets of the walk and changes nothing the client sees. |
| `TraceId.DecodeCreated` | include/rgx_fwif_sf.h:1983-2014 | Group, argument count and id number come back out of the word, and it is valid. |
| `TraceId.DecodeCreatedIff` | include/rgx_fwif_sf.h:1997-2014 | For all arguments, group and argument count come back if and only if both fit their fields and the id number sets no bit there that they do not have. |
| `TraceId.RoundTripIff` | include/rgx_fwif_sf.h:1983-2014 | For all arguments, id number, group and argument count all come back if and only if all three fit. |
| `TraceId.SentinelLosesGroup` | include/rgx_fwif_sf.h:1980-2012 | The sentinel row's fields give a word of group 15 instead of 0. |
| `TraceId.ValidIdIff` | include/rgx_fwif_sf.h:1996-2003 | A word is valid if and only if it is made from fitting fields. |
| `TraceId.CreateInjective` | include/rgx_fwif_sf.h:1997-2009 | Different fields give different words. |
| `TraceId.CreateOrder` | include/rgx_fwif_sf.h:1983-2000 | Words are ordered by argument count, then group, then id number. |
| `TraceId.IdsDoNotIncrease` | include/rgx_fwif_sf.h:111-115 | Two neighbouring rows whose words decrease. |
| `TraceId.SentinelClashIff` | include/rgx_fwif_sf.h:1980-2014 | A word equals the sentinel's if and only if all its fields are full; the sentinel is valid and decodes to group 15. |
| `TraceId.IdToStringId` | include/rgxfw_log_helper.h:64-77 | The search never passes the first sentinel and returns the first row before it with the id, or the sentinel's word. |
| `TraceId.SearchBuiltTable` | include/rgxfw_log_helper.h:57-77 | On a table as built, row i is found for its own id only, and every other word, the sentinel's included, gives the sentinel's word. |

## Left out

- Container pointers: `IMG_CONTAINER_OF` and `dllist_cur` are pointer arithmetic; a node's payload appears only through the callback and the keys.
- Iteration bodies that touch several other lists at once, or unlink nodes other than the current one, which the macros do not support.
- `DListRuns.Run`: covers the use the comments allow, that is adding only nodes in no list and moving only to empty heads; iteration is not one of its operations.
- The stack frame of the temporary head: `DListSort.Sort` allocates a node and proves that no link to it survives.
- The result of the count-leading-zeros builtin at zero, which is undefined; `Log2.ExactLog2Gcc` asks for a non-zero word.
- 32-bit wrap-around of the loop counters: logarithms stay below the width, and `TraceId.IdToStringId` counts rows without a bound.
- Byte order: `TlStream.Bytes32` fixes the least significant byte first; the struct in the source takes the order of the host.
- Pointer casts and alignment of `GET_PACKET_HDR`: addresses are offsets into a byte sequence.
- The writer of the transport-layer ring buffer, its locking, and the stream-open flags; they are not part of this model.
- The text of the trace strings and the literal rows; tables are arbitrary tables of the shape the macros build.
- Error codes, register definitions, build configuration, debug macros and operating-system wrappers: declarations and foreign calls.
