# ko6: verified models of its allocators, tables, threads and device tree library

ko6 is a small teaching kernel. This project models, in Dafny, the parts of it whose correctness rests on
invariants that span many operations, and proves those invariants for all inputs and all runs:

- `Ring`, `SlabGeometry`, `SlabBooks`, `Kmem`: the slab allocator. Free lists are threaded through the free
  memory itself; the model keeps the link words, the page descriptors with their 8-bit use counter and the
  counters, and proves that the heap is partitioned after every run.
- `Primes`, `Pigeonhole`, `Probing`, `HashBuckets`, `HashTable`: the open-addressing hash table, proved to
  refine a map, and the number theory under its probe sequence.
- `FdtFormat`, `FdtReader`, `FdtCheck`, `FdtWriter`, `FdtFinish`, `FdtProps`, `FdtEditor`, `FdtWhole`: the flattened
  device tree library (sections 5.2 to 5.5 of the Devicetree Specification v0.4): bytes, tokens, the writer
  and reader round trip, the validator, and editing in place.
- `Threads`, `ThreadProofs`, `ThreadRuns`, `ThreadKernel`: scheduler, mutex, barrier, exit and join as one
  machine over unbounded runs, and the kernel's own methods on ThreadTab and wait rings, which take its steps.
- `UserHeap`, `UserMalloc`, `UserStacks`: first-fit user heap with lazy merging, and user stacks.
- `Radix`, `RadixTree`, `RadixSet`: the radix tree with shortcut roots.
- `Fifo`: the one-writer one-reader queue under all interleavings of single accesses.
- `FileRead`: block-spanning file reads behind an open-file offset.
- `Machine`: words, bytes, error codes and optional values, shared by all modules.
- `Arith`: multiplication, division and remainder facts.

Operations that change state in place are methods on classes or arrays, each proved against a function or
predicate on values; the theorems are about those. `dafny verify dfyconfig.toml` checks everything.

Where the code and its documentation disagree, the model follows the code. The exact condition under which
the documented property holds is proved, with an input at which it fails:

- `kmalloc` tests for a free page before it rounds the size; a size that rounds up to a page can yield a NULL
  object (`Kmem.NullOnlyForRoundedPages`; fails at `Kmem.NullObjectReached`).
- `kfree` does not notice an object that is freed twice unless its page is free by then
  (`Kmem.FreeKeepsInvExactly`).
- The probe position `h1 + try*h2` can wrap at 32 bits; probes cover the table exactly if it does not, or if the
  table has two slots (`Probing.ProbesCoverExactlyWithoutWrap`; fails at `HashTable.WrappingProbesMiss`). The
  table is a map in any case (`HashTable.RunAnyKeys`); only when it reports to be full depends on it
  (`HashTable.FullWithFreeSlot`).
- `hto_create` takes the -1 of `largest_prime` for a number of slots (`HashTable.TableBytesExact`).
- The room test for a property name in the sequential writer is unsigned and wraps for a name longer than the
  buffer (`FdtWriter.StringFitsIsExact`; fails at `FdtWriter.RoomTestWraps`).
- A name offset that names no string can name one after another property is added
  (`FdtEditor.NameKeptExactly`, `FdtEditor.SetItemsExactly`; fails at `FdtEditor.DanglingNameChanges`).
- `thread_join` serves one joiner; a second one strands the first (`ThreadRuns.JoinKeepsInvExactly`;
  fails at `ThreadRuns.TwoJoinersStrandOne`). The comments speak of several processors; `ThreadCurrent` is one
  global and `thread_notify` takes the caller's lock, so the model has one processor.
- The rounding of a user `malloc` request wraps for the last sizes below 2^32 (`UserHeap.RoundingIsExact`;
  fails at `UserHeap.HugeRequestIsSmall`).
- `free_ustack` accepts a stack that was given back at the boundary, whose magic numbers are still there
  (`UserStacks.Stacks.FreeUstack`; fails at `UserStacks.FreedTwice`).
- `radix_set` does not always hook a new shortcut root under an existing one, and looks at one byte only when it
  updates a root; it keeps the tree well linked exactly under `RadixSet.Safe` (`RadixSet.Set`; fails at
  `RadixSet.UnsafeExample`).
- `fs1_read` clips a read with a sum that can wrap (`FileRead.ReadIsExact`; fails at
  `FileRead.ReadReturnsNothing`).

## Model

| member | source | states |
|---|---|---|
| `Ring.LinkMemory.Init` | src/soft/common/list.h:191-193 | the root alone is an empty ring |
| `Ring.LinkMemory.IsEmpty` | src/soft/common/list.h:95-97 | the test on the root holds exactly for the empty ring |
| `Ring.LinkMemory.AddAfter` | src/soft/common/list.h:204-209 | four link writes insert the item at one position of the item sequence, in both directions of the ring |
| `Ring.LinkMemory.AddLast` | src/soft/common/list.h:221-223 | the item becomes the last of the sequence |
| `Ring.LinkMemory.Unlink` | src/soft/common/list.h:231-235 | exactly the item at its position leaves the sequence |
| `Ring.AddedAfterIsRing` | src/soft/common/list.h:204-209 | the links written by an insertion form the ring of the longer sequence |
| `Ring.UnlinkedIsRing` | src/soft/common/list.h:231-235 | the links written by an unlink form the ring of the shorter sequence |
| `Ring.RingIsUnique` | src/soft/common/list.h:153-157 | a root determines the items that list_foreach visits |
| `Ring.RingFrame` | src/soft/common/list.h:204-235 | a list is untouched by link writes to nodes that are not in it |
| `SlabGeometry.SlotsDisjoint` | src/soft/kernel/kmemkernel.c:199-200 | the objects that the cutting loop makes of one page do not overlap |
| `SlabGeometry.SlotIsLineAligned` | src/soft/kernel/kmemkernel.c:193-200 | every object starts on a cache line |
| `SlabGeometry.SlotCountBound` | src/soft/kernel/kmemkernel.c:94-95 | a page holds at most 256 objects, one more than the 8-bit counter can tell |
| `SlabBooks.ObjectsDisjoint` | src/soft/kernel/kmemkernel.c:186-210 | no two objects of the heap, live or free, of any classes, overlap |
| `SlabBooks.TakenKeepsInv` | src/soft/kernel/kmemkernel.c:202-206 | taking the first object of a list keeps the heap invariant |
| `SlabBooks.CarvedKeepsInv` | src/soft/kernel/kmemkernel.c:196-206 | cutting a page and taking its first object keeps the heap invariant |
| `SlabBooks.GivenKeepsInv` | src/soft/kernel/kmemkernel.c:226-232 | putting back an object that is not the last of its page keeps the heap invariant |
| `SlabBooks.ReturnedKeepsInv` | src/soft/kernel/kmemkernel.c:232-243 | giving back a page whose last object is freed keeps the heap invariant |
| `SlabBooks.CounterReachesZero` | src/soft/kernel/kmemkernel.c:232 | the decremented 8-bit counter is 0 exactly when the object was the last live one of its page, although 256 live objects also wrap it to 0 |
| `SlabBooks.NothingLiveNothingUsed` | src/soft/kernel/kmemkernel.c:226-243 | when nothing is live every page is in Slab[0], every other list is empty and every ObjectsThisSize is 0 |
| `Kmem.AllocatedIsNewObject` | src/soft/kernel/kmemkernel.c:193-209 | kmalloc marks exactly one new object as live, in a page cut for its class, on a line, and disturbs no other live object |
| `Kmem.NewObjectOverlapsNoLiveOne` | src/soft/kernel/kmemkernel.c:186-210 | the new object overlaps no live object |
| `Kmem.NullOnlyForRoundedPages` | src/soft/kernel/kmemkernel.c:188-202 | kmalloc goes on with a NULL object exactly for sizes that only rounding makes a page, when no page is free: the panic looks at the size before rounding |
| `Kmem.NullObjectReached` | src/soft/kernel/kmemkernel.c:188-202 | in a heap of one page, after one page has been allocated, 4095 bytes get a NULL object and no panic |
| `Kmem.PageFreeWhenEmpty` | src/soft/kernel/kmemkernel.c:226-243 | a page is in Slab[0] exactly when nothing in it is live |
| `Kmem.FreedReturnsEmptyPages` | src/soft/kernel/kmemkernel.c:217-243 | kfree removes one live object and returns the page exactly when it was the last |
| `Kmem.FreedKeepsInv` | src/soft/kernel/kmemkernel.c:217-244 | kfree of a live object keeps the heap invariant |
| `Kmem.FreeKeepsInvExactly` | src/soft/kernel/kmemkernel.c:217-244 | kfree of any object of a cut page keeps the heap invariant if and only if the object is live: a second kfree never does |
| `Kmem.HomeByMask` | src/soft/kernel/kmemkernel.c:233 | masking the low bits of an object gives the first byte of its page |
| `Kmem.EveryRunPartitionsTheHeap` | src/soft/kernel/kmemkernel.c:167-244 | after every run of kmalloc and kfree from the empty heap in which no kmalloc goes on with a NULL object and no dead object is freed: each page is free, one live page, or cut into disjoint objects, each live or exactly once in the list of its class, and when nothing is live all counters are 0 |
| `Kmem.Served` | src/soft/kernel/kmemkernel.c:186-244 | every request that does not go on with a NULL object or free a dead object keeps the heap invariant |
| `Kmem.SoundHeapIsPartitioned` | src/soft/kernel/kmemkernel.c:167-244 | the heap invariant means that partition, page by page and list by list |
| `Kmem.Allocator.constructor` | src/soft/kernel/kmemkernel.c:167-182 | initialisation gives the empty heap with all pages free |
| `Kmem.Allocator.InitPages` | src/soft/kernel/kmemkernel.c:178-181 | all pages join Slab[0] in address order and are marked free |
| `Kmem.Allocator.Cut` | src/soft/kernel/kmemkernel.c:199-200 | the cutting loop chains exactly the objects of the page, in order |
| `Kmem.Allocator.Kmalloc` | src/soft/kernel/kmemkernel.c:186-210 | panic, NULL object and success are told apart exactly; success is the specified allocation from the least class that holds the size, the words of the new object that were links are cleared, and no word of another live object changes |
| `Kmem.Allocator.UnlinkPage` | src/soft/kernel/kmemkernel.c:234-238 | the unlink loop removes all and only the objects of the page from the list |
| `Kmem.Allocator.ReleasePage` | src/soft/kernel/kmemkernel.c:233-242 | an empty slab becomes a free page at the head of Slab[0] |
| `Kmem.Allocator.Kfree` | src/soft/kernel/kmemkernel.c:217-244 | panics exactly when the object is outside the heap or its page is free, otherwise frees the live object; no word of another live object changes |
| `Kmem.Allocator.ClientWrite` | src/soft/kernel/kmemkernel.c:202-209 | what a client writes in its object cannot damage any free list |
| `Kmem.Serve` | src/soft/kernel/kmemkernel.c:186-244 | the methods on the memory take the steps of those runs, and leave the words of all other live objects alone |
| `Primes.LargestPrime` | src/soft/common/htopen.c:88-95 | the greatest prime not above n, or -1 when there is none |
| `Primes.PrimeByTrial` | src/soft/common/htopen.c:91 | no divisor up to the square root means prime |
| `Probing.HashedKeys` | src/soft/common/htopen.c:110-129 | the two hash words of a string, of one with a negative char, and of a pointer |
| `Probing.Hash` | src/soft/common/htopen.c:110-129 | the probe position for both key types, computed with 32-bit wrap-around, is a slot of the table |
| `Probing.UnwrappedProbesVisitAll` | src/soft/common/htopen.c:127-128 | without 32-bit wrap-around, the probes of a key are a permutation of the slots of a table of prime size |
| `Probing.ProbesCoverExactlyWithoutWrap` | src/soft/common/htopen.c:127-128 | the probes visit every slot if and only if h1 + try*h2 does not wrap or the table has two slots |
| `HashTable.CoversExactlyWithoutWrap` | src/soft/common/htopen.c:56-59 | the same condition, told from the key and the table size alone |
| `HashTable.WrappingProbesMiss` | src/soft/common/htopen.c:110-129 | a pointer key and a table of 3 slots, one never used, whose probes for the key meet the two used slots only |
| `HashTable.FullWithFreeSlot` | src/soft/common/htopen.c:216-262 | on that table hto_set reports -ENOSPC although a slot was never used |
| `HashBuckets.AbsentAfterScan` | src/soft/common/htopen.c:200-213 | a search that meets a never-used slot, or has made all tries, proves the key absent |
| `HashBuckets.InsertKept` | src/soft/common/htopen.c:230-240 | a new key in a slot that its own search reaches keeps every key findable |
| `HashBuckets.MoveKept` | src/soft/common/htopen.c:242-246 | moving a key to an earlier freed slot of its search keeps every key findable |
| `HashBuckets.DeleteKept` | src/soft/common/htopen.c:280-286 | a deleted key leaves a freed slot that hides no other key |
| `HashBuckets.KeyCount` | src/soft/common/htopen.c:71-77 | stored keys are the slots less the never-used and the freed ones |
| `HashBuckets.SearchSeesAllSlots` | src/soft/common/htopen.c:254-261 | a key whose probes cover the table sees only foreign keys exactly when the table is full |
| `HashTable.FullExactlyAtSize` | src/soft/common/htopen.c:254-261 | hto_set reports a full table only when every slot holds another live key, absent wrap-around |
| `HashTable.Table.Walk` | src/soft/common/htopen.c:194-212 | where a probe loop stops and which freed slot it remembers |
| `HashTable.Table.Search` | src/soft/common/htopen.c:194-212 | the loop finds the key exactly if the map has it |
| `HashTable.Table.Get` | src/soft/common/htopen.c:191-214 | the value of the key in the map or NULL; the pair of a key that is there ends up in the first slot of its search that no other key occupies, and nothing else changes |
| `HashTable.Table.Relocate` | src/soft/common/htopen.c:205-209 | the key moves to the freed slot and the map keeps its entry |
| `HashTable.Table.Set` | src/soft/common/htopen.c:216-262 | the map gets the entry, or the exact error condition holds and nothing changes; the result is the try that met the key or, for a new key, the one whose slot it got; the pair is put into the first slot of the search that no other key occupies |
| `HashTable.Table.Del` | src/soft/common/htopen.c:274-290 | the value of the key, which leaves the map; exactly its slot is marked |
| `HashTable.Run` | src/soft/common/htopen.c:191-290 | absent wrap-around, any run of set, get and delete answers as a plain map with room for size keys does |
| `HashTable.RunAnyKeys` | src/soft/common/htopen.c:191-290 | without any condition on the keys, every run is answered by one map in which exactly the accepted sets took effect; a stored key is never refused |
| `HashTable.Create` | src/soft/common/htopen.c:159-175 | an empty table of the largest prime size, or NULL exactly when memory is short or that prime exceeds 510, the slots that fit a page |
| `HashTable.TableBytesExact` | src/soft/common/htopen.c:161-170 | the bytes asked for hold the slots that are cleared if and only if at least 2 slots are wanted and the size does not wrap; below 2, 4 bytes are asked for |
| `HashTable.Rehash` | src/soft/common/htopen.c:312-335 | NULL exactly when the new size, computed in an unsigned word, is below 2 or too large for a page, or memory is short; otherwise no tombstones, no foreign entry, the largest prime size, and the same map whenever every key finds room; a key is dropped only if all its probes in the new table meet other keys; from 100 percent on, if the product does not wrap, the table is never smaller |
| `HashTable.ScaledSizeExact` | src/soft/common/htopen.c:317 | absent wrap-around the new size is the whole part of that percentage |
| `HashTable.Reinsert` | src/soft/common/htopen.c:324-330 | reinsertion adds only entries of the old map, all of them when they fit, and drops a key only if all its probes meet other keys |
| `FdtFormat.Enc32` | src/soft/external/libfdt/libfdt_env.h:67-70 | the big-endian word reads back as its value |
| `FdtFormat.MagicBytes` | src/soft/external/libfdt/fdt.h:50 | the magic number is the big-endian word of its four bytes |
| `FdtFormat.TokenBytes` | src/soft/external/libfdt/fdt.c:162-221 | each kind of token, written out as bytes, reads as that token |
| `FdtFormat.LexPrefix` | src/soft/external/libfdt/fdt.c:162-221 | a token depends on its own bytes only |
| `FdtFormat.NextShift` | src/soft/external/libfdt/fdt.c:162-221 | a token reads the same wherever its bytes are moved by a multiple of 4 |
| `FdtFormat.WalkShift` | src/soft/external/libfdt/fdt.c:162-221 | a stretch of tokens reads the same wherever it is moved |
| `FdtFormat.TreeUnique` | src/soft/external/libfdt/fdt.c:162-221 | a structure block has one reading |
| `FdtFormat.StrAtAppend` | src/soft/external/libfdt/fdt_ro.c:34-98 | appending to the strings block changes no string in it |
| `FdtReader.OffsetPtr` | src/soft/external/libfdt/fdt.c:140-160 | for any header words: accepts exactly ranges inside the total size and, from version 17 on, inside the structure block, despite wrapping sums |
| `FdtReader.SkipName` | src/soft/external/libfdt/fdt.c:178-184 | the loop finds the end of a node name, or that there is none |
| `FdtReader.SkipProp` | src/soft/external/libfdt/fdt.c:186-203 | the end of a property, or that its length is not plausible |
| `FdtReader.NextTag` | src/soft/external/libfdt/fdt.c:162-221 | tag and next offset of the token at an offset, or END and a negative error |
| `FdtReader.GetString` | src/soft/external/libfdt/fdt_ro.c:34-98 | for finished trees and trees being written: the string at an offset of the strings block, counted from its end while writing, or the exact error |
| `FdtReader.NumMemRsv` | src/soft/external/libfdt/fdt_ro.c:189-199 | the number of reservations before the terminator, or that there is none |
| `FdtReader.TerminatorHasSizeZero` | src/soft/external/libfdt/fdt_ro.c:189-199 | the terminator is the entry whose 64-bit size is 0 |
| `FdtReader.GetMemRsv` | src/soft/external/libfdt/fdt_ro.c:160-187 | the two 64-bit words of entry n, taken modulo 2^28, or BADOFFSET exactly if the entry does not lie inside the total size |
| `FdtReader.ReadItem` | src/soft/external/libfdt/fdt_ro.c:469-500 | the name of a node, or name and value of a property, as the token says |
| `FdtReader.ReadAll` | src/soft/external/libfdt/fdt.c:162-221 | walking from offset 0 to END yields all tokens with resolved names |
| `FdtCheck.CheckHeader` | src/soft/external/libfdt/fdt.c:89-138 | for all versions: accepts exactly aligned headers with supported version whose blocks lie inside the total size |
| `FdtCheck.CheckHeaderErrors` | src/soft/external/libfdt/fdt.c:89-138 | which error is given, exactly: alignment, then magic number, then version, then size |
| `FdtCheck.HeaderSizes` | src/soft/external/libfdt/fdt.c:69-81 | the header sizes of the versions |
| `FdtCheck.RoProbeExact` | src/soft/external/libfdt/fdt.c:18-50 | each result of the probe of the reader, exactly |
| `FdtCheck.CheckedIsReadable` | src/soft/external/libfdt/fdt.c:18-50 | what the header check accepts passes the probe, unless its size is the largest int |
| `FdtCheck.BalancedIsAccepted` | src/soft/external/libfdt/fdt_check.c:13-96 | a nested token sequence under one empty-named root whose names resolve passes |
| `FdtCheck.AcceptedIsBalanced` | src/soft/external/libfdt/fdt_check.c:13-96 | only such a sequence passes |
| `FdtCheck.CheckStruct` | src/soft/external/libfdt/fdt_check.c:38-95 | the loop returns that verdict, and ends because every tag advances the offset |
| `FdtCheck.CheckFull` | src/soft/external/libfdt/fdt_check.c:13-96 | 0 exactly for valid header, size, reservations and structure; otherwise the first error in that order |
| `FdtWriter.PutBytes` | src/soft/external/libfdt/fdt_sw.c:325-335 | memcpy replaces exactly the bytes it covers |
| `FdtWriter.MoveBytes` | src/soft/external/libfdt/fdt_rw.c:66 | memmove is right for overlapping regions in both directions |
| `FdtWriter.FindString` | src/soft/external/libfdt/fdt.c:315-325 | the first occurrence of the string with its terminator, at any place, or that there is none |
| `FdtWriter.StringFitsIsExact` | src/soft/external/libfdt/fdt_sw.c:250-262 | the unsigned room test is right if and only if the names would fit in the whole buffer |
| `FdtWriter.RoomTestWraps` | src/soft/external/libfdt/fdt_sw.c:250-262 | in a buffer of 100 bytes with 6 left, a name of 71 bytes passes the room test and one of 7 does not |
| `FdtWriter.NameAdded` | src/soft/external/libfdt/fdt_sw.c:259-265 | a name put in front of the others moves none of them relative to the end |
| `FdtWriter.PropWritten` | src/soft/external/libfdt/fdt_sw.c:293-335 | the written words read back as the property asked for |
| `FdtWriter.BeginWritten` | src/soft/external/libfdt/fdt_sw.c:219-234 | the written words read back as the node asked for |
| `FdtWriter.EndWritten` | src/soft/external/libfdt/fdt_sw.c:236-248 | the written word reads back as the end of a node |
| `FdtWriter.Create` | src/soft/external/libfdt/fdt_sw.c:109-141 | the two errors exactly, or an empty tree in the reserve-map state on a cleared buffer |
| `FdtWriter.Writer.AddReservemapEntry` | src/soft/external/libfdt/fdt_sw.c:188-206 | state and room decide the result; on success the two big-endian 64-bit words of the new entry are address and size, no other byte changes, and the reservations have got this one |
| `FdtWriter.Writer.FinishReservemap` | src/soft/external/libfdt/fdt_sw.c:208-217 | exact result; on success the reservations end with a terminator, the earlier ones are as they were, and the tree accepts nodes |
| `FdtWriter.Writer.GrabSpace` | src/soft/external/libfdt/fdt_sw.c:94-107 | room is granted exactly if structure and names stay apart |
| `FdtWriter.Writer.BeginNode` | src/soft/external/libfdt/fdt_sw.c:219-234 | exact error condition; on success one more call is recorded in the block, on failure nothing changes |
| `FdtWriter.Writer.AddString` | src/soft/external/libfdt/fdt_sw.c:250-266 | the name is added, or there is no room, exactly |
| `FdtWriter.Writer.FindAddString` | src/soft/external/libfdt/fdt_sw.c:276-291 | an existing occurrence is reused, otherwise the name is added; no room exactly when it is new and does not fit |
| `FdtWriter.Writer.Property` | src/soft/external/libfdt/fdt_sw.c:293-335 | exact result: no room exactly when the name, if new, and the property do not fit; success records one more property, failure takes the added name back |
| `FdtWriter.Writer.EndNodeTag` | src/soft/external/libfdt/fdt_sw.c:236-248 | exact error condition and one more closing token |
| `FdtFinish.AllFixedReadAsCalls` | src/soft/external/libfdt/fdt_sw.c:360-374 | with corrected offsets every token reads as the call that wrote it |
| `FdtFinish.NameCorrected` | src/soft/external/libfdt/fdt_sw.c:362-370 | one correction changes the name offset of one property and no other token |
| `FdtFinish.StringsMoved` | src/soft/external/libfdt/fdt_sw.c:352-356 | after the strings have moved, structure, strings and reservations are intact |
| `FdtFinish.CorrectNames` | src/soft/external/libfdt/fdt_sw.c:358-374 | the loop corrects every name offset and ends without error |
| `FdtFinish.Finish` | src/soft/external/libfdt/fdt_sw.c:337-384 | exact error condition; otherwise a finished tree with the written tokens, corrected, the same names and the same reservations, whose total size is the end of its strings |
| `FdtFinish.FinishAndRead` | src/soft/external/libfdt/fdt_sw.c:219-384 | round trip: reading the finished tree gives back the calls, with their names and values |
| `FdtFinish.FinishAndReserve` | src/soft/external/libfdt/fdt_sw.c:188-217 | round trip of the reservations: the readers give back the pairs given, in order, up to the first of size 0, which is the terminator if none of them has size 0 |
| `FdtFinish.AcceptedExactlyIfBalanced` | src/soft/external/libfdt/fdt_check.c:38-95 | the validator accepts a finished tree exactly if the calls nest under one empty-named root |
| `FdtFinish.FinishAndCheck` | src/soft/external/libfdt/fdt_check.c:13-96 | the same for the whole of fdt_check_full on the finished blob |
| `FdtProps.SetThenRead` | src/soft/external/libfdt/fdt_rw.c:258-289 | after setting a property it reads as the new value and every other property of every node as before |
| `FdtProps.DeleteThenRead` | src/soft/external/libfdt/fdt_rw.c:318-331 | after deleting a property its name reads as the next one of that name, if any, and all others as before |
| `FdtProps.CheckNodeOffset` | src/soft/external/libfdt/fdt.c:223-233 | the offset after a node tag, or BADOFFSET |
| `FdtProps.NextProp` | src/soft/external/libfdt/fdt_ro.c:201-223 | on any structure block: the next property past NOPs, or why there is none |
| `FdtProps.FindProperty` | src/soft/external/libfdt/fdt_ro.c:394-422 | on any readable blob: the first property of that name before the next node boundary, or the error that ended the search |
| `FdtProps.GetProp` | src/soft/external/libfdt/fdt_ro.c:451-506 | on any readable blob: the value of the property that the search finds, or its error |
| `FdtProps.FindItemExactly` | src/soft/external/libfdt/fdt_ro.c:201-223 | the search of the item list finds the first property of the name before the next node boundary; NOTFOUND exactly at such a boundary, BADSTRUCTURE exactly at the end of the tree |
| `FdtProps.SearchOnTree` | src/soft/external/libfdt/fdt_ro.c:201-223 | on a tree that search agrees with the first item of that name in the list of items |
| `FdtProps.NodeSearchOnTree` | src/soft/external/libfdt/fdt_ro.c:394-422 | so does the search from a node |
| `FdtProps.ReadOnTree` | src/soft/external/libfdt/fdt_ro.c:451-506 | and reading gives the value that the item list has for that node and name |
| `FdtEditor.Splice` | src/soft/external/libfdt/fdt_rw.c:54-68 | exact errors, or the tail moved |
| `FdtEditor.RwProbeExact` | src/soft/external/libfdt/fdt_rw.c:13-41 | on a header that the header check accepts: 0 exactly if room for a terminator follows the start of the reservations and the structure block ends before the strings, otherwise BADVERSION or BADLAYOUT |
| `FdtEditor.RwProbeErrors` | src/soft/external/libfdt/fdt_rw.c:13-41 | on any header whose sums do not wrap: 0 exactly if the reader accepts it, the version is 17 or later and the blocks are in order |
| `FdtEditor.ReservationsBehindHeader` | src/soft/external/libfdt/fdt_rw.c:13-23 | a tree whose reservations follow the header of 40 bytes can be edited |
| `FdtEditor.SpliceStruct` | src/soft/external/libfdt/fdt_rw.c:83-95 | bytes around the splice point and all strings are preserved and header words follow |
| `FdtEditor.TokensSpliced` | src/soft/external/libfdt/fdt_rw.c:83-95 | replacing a stretch of tokens leaves all tokens before and behind it |
| `FdtEditor.FindAddName` | src/soft/external/libfdt/fdt_rw.c:127-153 | no room exactly when the name is new and does not fit; otherwise it resolves at the returned offset and the structure block is untouched |
| `FdtEditor.NameKeptExactly` | src/soft/external/libfdt/fdt_rw.c:127-153 | exactly which name offsets an appended name changes: those that named no string and now reach the new terminator |
| `FdtEditor.DanglingNameChanges` | src/soft/external/libfdt/fdt_rw.c:127-153 | an offset that names no string names ab after b has been added |
| `FdtEditor.ItemsKeptExactly` | src/soft/external/libfdt/fdt_rw.c:127-153 | adding a name leaves every item of the tree as it was if and only if every name offset resolved, or lies behind the added name, or nothing was added |
| `FdtEditor.ResolvedNamesStay` | src/soft/external/libfdt/fdt_rw.c:127-153 | it holds whenever all names of the tree resolve |
| `FdtEditor.SetItemsExactly` | src/soft/external/libfdt/fdt_rw.c:258-289 | fdt_setprop sets one item and keeps all others if and only if that holds of the names |
| `FdtEditor.ReplaceValue` | src/soft/external/libfdt/fdt_rw.c:184-200 | exact room condition; the property has the new value and every other token is kept |
| `FdtEditor.AddProperty` | src/soft/external/libfdt/fdt_rw.c:202-233 | exact room condition; a new first property of the node, or nothing changed and the added name dropped |
| `FdtEditor.SetProp` | src/soft/external/libfdt/fdt_rw.c:258-289 | exact result of probe, search and room; success sets one item of the tree and keeps all others exactly if the names stay, with sizes and strings told exactly; every failure leaves structure and strings as they were |
| `FdtEditor.OffsetKept` | src/soft/external/libfdt/fdt_rw.c:258-289 | a node keeps its offset when no token before it changes |
| `FdtWhole.FinishedIsEditable` | src/soft/external/libfdt/fdt_rw.c:25-41 | a tree finished by the sequential writer passes the probe of the editor, and all its names resolve |
| `FdtWhole.NodeAfterSet` | src/soft/external/libfdt/fdt_rw.c:184-233 | where every node of the tree is after fdt_setprop: at its offset, or moved by the growth if it is behind the edited one |
| `FdtWhole.ReadAfterSet` | src/soft/external/libfdt/fdt_ro.c:451-506 | what is read at the moved offset of any node, for any name |
| `FdtWhole.GetSetGet` | src/soft/external/libfdt/fdt_rw.c:258-289 | fdt_getprop, fdt_setprop, fdt_getprop: any node and any name read as before, at the moved offset, except the property set, which reads as its new value |
| `FdtWhole.SetAndCheck` | src/soft/external/libfdt/fdt_rw.c:258-289 | a blob that fdt_check_full accepts is accepted after fdt_setprop, whatever its result, and the outcome is the exact one |
| `FdtWhole.DeleteAndCheck` | src/soft/external/libfdt/fdt_rw.c:318-331 | the same after fdt_delprop |
| `FdtEditor.DelProp` | src/soft/external/libfdt/fdt_rw.c:318-331 | exact result; the first property of that name disappears, or nothing changes |
| `ThreadRuns.ElectIsFirst` | src/soft/kernel/kthread.c:138-151 | sched_elect picks the first READY thread in circular order after the current one |
| `ThreadRuns.StepKeepsInv` | src/soft/kernel/kthread.c:165-178 | every call, with what the elected thread then completes, keeps the invariant |
| `ThreadRuns.After` | src/soft/kernel/kthread.c:165-178 | every state of every run satisfies the invariant |
| `ThreadRuns.OneRunningThread` | src/soft/kernel/kthread.c:165-178 | at every switch point exactly the current thread is RUNNING |
| `ThreadRuns.MutexOverRuns` | src/soft/kernel/ksynchro.c:94-144 | over whole runs, threads told apart by address: busy exactly when owned, only the owner inside, queue of distinct WAIT threads, first come first served, no lost wake-up |
| `ThreadRuns.LockReturnsAsOwner` | src/soft/kernel/ksynchro.c:94-111 | a caller that is back from lock owns the mutex |
| `ThreadRuns.WaiterReturnsAsOwner` | src/soft/kernel/ksynchro.c:94-111 | so does a thread that had to wait in lock, when it leaves it |
| `ThreadRuns.UnlockGivesUp` | src/soft/kernel/ksynchro.c:126-144 | after unlock the caller does not own the mutex |
| `ThreadRuns.BarrierOverRuns` | src/soft/kernel/ksynchro.c:212-236 | over whole runs: arrivals are expected times rounds plus waiting, and with at most `expected` users the arrival counts differ by at most one |
| `ThreadRuns.JoinsOverRuns` | src/soft/kernel/kthread.c:372-413 | over whole runs: a join returns only after exit and with the exit value, and each thread is released once |
| `ThreadRuns.JoinKeepsInvExactly` | src/soft/kernel/kthread.c:395-413 | thread_join keeps the invariant if and only if nobody else has joined the thread |
| `ThreadRuns.TwoJoinersStrandOne` | src/soft/kernel/kthread.c:372-413 | with two joiners the first waits for a thread that no longer exists |
| `ThreadRuns.SecondJoinAccepted` | src/soft/kernel/kthread.c:395-405 | the second join is accepted from a sound state |
| `ThreadRuns.StepTowards` | src/soft/kernel/kthread.c:138-178 | a READY thread stays READY until elected, and every other election brings it closer |
| `ThreadRuns.YieldGivesWay` | src/soft/kernel/kthread.c:354-359 | yield hands the processor to the next READY thread if there is another one |
| `ThreadRuns.ReadyIsElected` | src/soft/kernel/kthread.c:138-178 | fairness: a READY thread is elected after at most THREAD_MAX - 1 other elections |
| `ThreadProofs.LockKeeps` | src/soft/kernel/ksynchro.c:94-111 | lock keeps the invariant whether it takes the mutex or waits |
| `ThreadProofs.UnlockKeeps` | src/soft/kernel/ksynchro.c:126-144 | unlock keeps the invariant whether it hands over or frees |
| `ThreadProofs.UnlockHandsOver` | src/soft/kernel/ksynchro.c:134-137 | ownership goes to the first of the queue, which becomes READY |
| `ThreadProofs.BarrierOpens` | src/soft/kernel/ksynchro.c:221-228 | the last arrival wakes every waiting thread, empties the queue and completes a round |
| `ThreadProofs.BarrierBlocks` | src/soft/kernel/ksynchro.c:229-233 | an earlier arrival joins the queue and is counted |
| `ThreadProofs.ExitKeeps` | src/soft/kernel/kthread.c:372-384 | thread_exit makes a ZOMBIE and wakes its joiner |
| `ThreadProofs.JoinWaits` | src/soft/kernel/kthread.c:400-405 | join of a running thread waits for it |
| `ThreadProofs.JoinReaps` | src/soft/kernel/kthread.c:409-412 | join of an ended thread takes its value and releases it |
| `ThreadProofs.ResumeKeeps` | src/soft/kernel/kthread.c:165-178 | the elected thread completes the call it was in |
| `ThreadKernel.Kernel.constructor` | src/soft/kernel/kthread.c:102-114 | the first thread runs in an otherwise empty table |
| `ThreadKernel.Kernel.SchedElect` | src/soft/kernel/kthread.c:138-151 | the circular search returns the specified election |
| `ThreadKernel.Kernel.SchedSwitch` | src/soft/kernel/kthread.c:165-178 | the switch takes the specified step |
| `ThreadKernel.Kernel.ThreadWait` | src/soft/kernel/kthread.c:440-447 | the caller waits and another thread is elected |
| `ThreadKernel.Kernel.ThreadYield` | src/soft/kernel/kthread.c:354-359 | takes the machine step of a yield |
| `ThreadKernel.Kernel.MutexNew` | src/soft/kernel/ksynchro.c:47-59 | a free mutex with an empty queue |
| `ThreadKernel.Kernel.Lock` | src/soft/kernel/ksynchro.c:94-111 | takes the machine step of a lock, on the ring of waiting threads, with the exact error codes; the owner is the address of a thread |
| `ThreadKernel.Kernel.Unlock` | src/soft/kernel/ksynchro.c:126-144 | takes the machine step of an unlock, with the exact error codes |
| `ThreadKernel.Kernel.BarrierNew` | src/soft/kernel/ksynchro.c:178-196 | a new barrier, or EINVAL for 0 threads |
| `ThreadKernel.Kernel.Arrive` | src/soft/kernel/ksynchro.c:212-236 | takes the machine step of an arrival |
| `ThreadKernel.Kernel.WakeQueue` | src/soft/kernel/ksynchro.c:222-226 | the loop unlinks and notifies every waiting thread and leaves other queues alone |
| `ThreadKernel.Kernel.ThreadCreate` | src/soft/kernel/kthread.c:302-329 | the new thread takes the first empty slot |
| `ThreadKernel.Kernel.ThreadExit` | src/soft/kernel/kthread.c:372-384 | takes the machine step of an exit |
| `ThreadKernel.Kernel.ThreadJoin` | src/soft/kernel/kthread.c:395-413 | takes the machine step of a join; the value is there at once if the thread has ended |
| `UserHeap.RoundingIsExact` | src/soft/ulib/memory.c:40-41 | the rounded request holds the bytes and the header if and only if the sum with the rounding slack stays below 2^32 |
| `UserHeap.RoundingIsLeast` | src/soft/ulib/memory.c:40-41 | the rounding gives the whole lines that hold the request and its header, and none more |
| `UserHeap.WrappedRounding` | src/soft/ulib/memory.c:40-41 | the requests whose rounding wraps are rounded to nothing or to one line |
| `UserHeap.HugeRequestIsSmall` | src/soft/ulib/memory.c:40-41 | a request of 2^32 - 1 bytes is rounded to one line of 16 bytes |
| `UserHeap.LiveApart` | src/soft/ulib/memory.c:38-61 | live blocks lie inside the heap and do not overlap |
| `UserHeap.TakenLive` | src/soft/ulib/memory.c:43-60 | first fit makes one new live block and moves no other |
| `UserHeap.NothingTaken` | src/soft/ulib/memory.c:49-60 | a request that is rounded to nothing yields a free block and changes no block |
| `UserHeap.MergedHasNoFreePair` | src/soft/ulib/memory.c:63-71 | merge leaves no two adjacent free blocks |
| `UserHeap.MergedLive` | src/soft/ulib/memory.c:63-71 | merge moves no live block and keeps the heap tiled |
| `UserHeap.MergedRuns` | src/soft/ulib/memory.c:63-71 | merge keeps the runs of free blocks and their sizes |
| `UserHeap.RunsMeansHasRun` | src/soft/ulib/memory.c:95-104 | the recursive and the quantified form of a large enough run agree |
| `UserHeap.FoundExactlyIfRun` | src/soft/ulib/memory.c:95-104 | malloc finds a block if and only if a run of consecutive free blocks is large enough, also when no words are looked for |
| `UserMalloc.TilesPoke` | src/soft/ulib/memory.c:19-23 | what a client writes into its block reaches no header |
| `UserMalloc.FlagOfNoBlock` | src/soft/ulib/memory.c:127-133 | a word with the flag set that starts no live block is no header |
| `UserMalloc.RunHoldsBytes` | src/soft/ulib/memory.c:40-47 | a run of free blocks is large enough exactly if it has the bytes asked for and the four of a header |
| `UserMalloc.BlockHoldsBytes` | src/soft/ulib/memory.c:40-47 | the same for a single block |
| `UserMalloc.LineCeilOfLine` | src/soft/ulib/memory.c:51 | the end of the new block is where the request ends |
| `UserMalloc.Heap.constructor` | src/soft/ulib/memory.c:81-93 | one free block tiles the heap |
| `UserMalloc.Heap.Search` | src/soft/ulib/memory.c:43-47 | the loop stops at the first free block that is large enough, or at the end |
| `UserMalloc.Heap.TryMalloc` | src/soft/ulib/memory.c:38-61 | for every size: header writes realise the specified cut, or nothing changes; absent wrap-around NULL exactly if no free block has the bytes asked for and the four of a header, and the words taken are the least whole lines |
| `UserMalloc.Heap.Merge` | src/soft/ulib/memory.c:63-71 | the nested loops realise the specified merge |
| `UserMalloc.Heap.Malloc` | src/soft/ulib/memory.c:95-104 | for every size; absent wrap-around NULL exactly if no run of consecutive free blocks has the bytes asked for and the four of a header, otherwise a fresh aligned block of the least whole lines that hold them |
| `UserMalloc.Heap.Free` | src/soft/ulib/memory.c:127-133 | for every address of the heap: exit exactly for NULL or where flag or magic number are missing; a live block, and only it, stops being live; any other word that looks like a header costs its flag and no block |
| `UserMalloc.Heap.ClientWrite` | src/soft/ulib/memory.c:60 | a write inside a live block keeps the heap valid |
| `UserStacks.StacksApart` | src/soft/kernel/kmemuser.c:37-53 | live stacks lie in the region and overlap no other stack |
| `UserStacks.AllFreed` | src/soft/kernel/kmemuser.c:66-83 | no live stack exactly when the boundary is back at its start, and then the list is empty |
| `UserStacks.LowestFreed` | src/soft/kernel/kmemuser.c:72-73 | freeing the lowest stack moves the boundary |
| `UserStacks.ShrunkRegion` | src/soft/kernel/kmemuser.c:74-80 | giving back free stacks at the boundary restores that the lowest stack is not free |
| `UserStacks.OtherFreed` | src/soft/kernel/kmemuser.c:81-82 | freeing another stack keeps the list strictly ascending |
| `UserStacks.Reused` | src/soft/kernel/kmemuser.c:40-49 | reusing the highest free stack keeps the region |
| `UserStacks.LinkIsNotMagic` | src/soft/kernel/kmemuser.c:69-70 | a stack in the free list no longer carries its magic number |
| `UserStacks.Stacks.MallocUstack` | src/soft/kernel/kmemuser.c:37-53 | panics exactly when a new stack would reach the heap; otherwise one new live stack |
| `UserStacks.Stacks.AddSort` | src/soft/common/list.h:289-297 | the item lands at its place in address order |
| `UserStacks.Stacks.GiveBack` | src/soft/kernel/kmemuser.c:74-80 | the loop gives back exactly the free stacks at the boundary |
| `UserStacks.Stacks.FreeUstack` | src/soft/kernel/kmemuser.c:66-83 | panics exactly when a magic number is gone, which includes a stack in the free list; what is accepted leaves a valid region if and only if it was a live stack, which alone stops being live |
| `UserStacks.FreedTwice` | src/soft/kernel/kmemuser.c:66-83 | the only stack, freed twice: both calls are accepted and the region is no longer valid |
| `Radix.ShortcutIsFullWalk` | src/soft/common/radix.c:110-133 | on well-linked trees the walk from a shortcut root is the full walk |
| `Radix.ValueWritten` | src/soft/common/radix.c:144 | storing a value affects the walk of its index only |
| `Radix.NodeLinked` | src/soft/common/radix.c:153-157 | a fresh node in an empty slot changes no entry |
| `RadixTree.Tree.Get` | src/soft/common/radix.c:110-133 | what the walk from the shortcut root finds; on well-linked trees the entry of the table |
| `RadixTree.Tree.Foreach` | src/soft/common/radix.c:253-292 | every entry that is not NULL once, in increasing index order |
| `RadixTree.Tree.CleanupNode` | src/soft/common/radix.c:305-327 | a node goes exactly if no entry lies below it; every node left below has an entry, no node is lost without being freed, no entry changes, the roots follow, and no walk reaches a freed node |
| `RadixTree.CleanedExactly` | src/soft/common/radix.c:305-327 | what is freed in a subtree are exactly the nodes that walks reached and that had no entry below them |
| `RadixTree.Tree.Cleanup` | src/soft/common/radix.c:329-336 | exactly the nodes without an entry below them are freed; no entry changes, the tree stays well linked, every node that a walk reaches has an entry below it, a root that is not NULL has an entry among its indices, and neither a root nor a walk leads to a freed node |
| `RadixSet.RootAdded` | src/soft/common/radix.c:185-197 | a new root above the topmost one keeps links and table |
| `RadixSet.MisplacedRoot` | src/soft/common/radix.c:179 | a root sent to a node under nonzero bytes breaks the links |
| `RadixSet.Stored` | src/soft/common/radix.c:213 | the stored value is one entry of the table and no link changes |
| `RadixSet.Set` | src/soft/common/radix.c:135-215 | the tree stays well linked if and only if the condition Safe held, and then exactly one entry is set; in any case the walk of radix_get finds the value; -1 only without memory |
| `RadixSet.SetThenGet` | src/soft/common/radix.c:110-215 | radix_get finds what radix_set has stored, whether or not the tree is still well linked |
| `RadixSet.UnsafeExample` | src/soft/common/radix.c:139-146 | a sound well-linked tree on which setting a small index is not safe |
| `Fifo.StepKeeps` | src/soft/kernel/klibc.c:142-161 | every single access of writer or reader keeps the invariant |
| `Fifo.PulledIsPrefix` | src/soft/kernel/klibc.c:142-161 | under every interleaving the pulled characters are a prefix of the pushed ones, at most depth - 1 behind |
| `Fifo.Queue.Push` | src/soft/kernel/klibc.c:142-151 | fails exactly when depth - 1 characters wait |
| `Fifo.Queue.Pull` | src/soft/kernel/klibc.c:153-161 | the oldest waiting character, or failure exactly when there is none |
| `FileRead.ClippingIsExact` | src/soft/fs/fs1/fs1.c:178 | clipping a read to the file is right if and only if its end does not wrap round |
| `FileRead.ReadOutcome` | src/soft/fs/fs1/fs1.c:174-201 | when the end does not wrap: all bytes asked for and there exactly if all their blocks can be read, -EIO exactly if the first cannot, else the bytes up to the first that cannot |
| `FileRead.ReadIsExact` | src/soft/fs/fs1/fs1.c:177-185 | with all blocks there, a read is right if and only if its end does not wrap round, or wraps into the block it began in and the file ends with that block |
| `FileRead.ReadReturnsNothing` | src/soft/fs/fs1/fs1.c:177-185 | a read of 2^32 - 1000 bytes at 5000 in a file of 8192 bytes returns 0, as at the end of the file |
| `FileRead.Fs1Read` | src/soft/fs/fs1/fs1.c:174-201 | for every offset and size and with any blocks failing: the exact result, that many bytes of the file, and the rest of the buffer untouched |
| `FileRead.CopyBlock` | src/soft/fs/fs1/fs1.c:187-199 | one turn of the loop extends the copied prefix of the file |
| `FileRead.File.Read` | src/soft/fs/vfs.c:411-421 | for every file size, with failing blocks: what reads returned is always a prefix of the file, and the whole file once a read returns 0; a count of 2^31 or more reads as an error |

## Left out

- Block pages and their reference count, `blockio_*`: the count shares its bits with the slab counter; block reads are a function of the block here, and may fail.
- KFS, pvfs and pfs file systems, mount table, path resolution, `vfs_seek`, directories: not needed for the reading theorem.
- Interrupts, spin locks, context save and load, and the idle loop of `sched_elect`: hardware; a step that gives the processor away is taken only when some thread is READY.
- `process_threads_cleanup` and the other cleanups by process, mutex destroy, barrier re-initialisation and destroy: not part of the machine.
- Thread local storage, kernel stacks and the stack of a thread as memory: a thread is its address, slot, state, place, exit value and joiner.
- Kmem.Allocator.Kfree: asks that the object be live, outside the heap or in a free page; what any other kfree does to the books, and that it always damages them, is Kmem.FreeKeepsInvExactly, without the memory words.
- Kmem.EveryRunPartitionsTheHeap: runs in which no kmalloc goes on with a NULL object; after one that does, the descriptor of a page outside the heap has been written.
- Kmem.Allocator.Kmalloc: of the memory cleared in a new object only the first two words, which were list links, are modelled; a request of 0 bytes gets an object that is not cleared.
- Primes.LargestPrime: for n below 46340 squared; from there on the trial divisor squared can exceed a signed int, which C leaves undefined.
- HashTable.Create: for at least 2 slots and a byte size below 2^32; otherwise slots beyond the memory asked for are cleared (HashTable.TableBytesExact).
- HashTable.Table.Del: the key's own memory is not modelled; the code frees it also for pointer keys.
- `hto_set_grow`: it tests for -1 but a full table returns -ENOSPC, so it does not grow when full; `hto_foreach`, statistics and destruction are left out as well.
- FdtWriter.Writer.Property: asks that the names with the new one fit the whole buffer; beyond that the room test wraps and the name is copied outside the buffer (FdtWriter.StringFitsIsExact).
- FdtWriter.Writer.AddString: asks the same.
- FdtWriter.Writer.FindAddString: asks the same for a name that is not there yet.
- FdtCheck.CheckFull: versions 2 to 16, which have no size of the structure block, and a total size of INT_MAX are left out.
- FdtReader.GetString: asks that the strings block of a header that passes the probe lie inside the buffer; the code would read beyond it.
- FdtEditor.SetProp: asks for a finished tree whose tokens walk to END, and that an offset that reads as a node be a node of the tree.
- FdtEditor.DelProp: asks the same.
- FdtWhole.SetAndCheck: asks that the reservations end before the structure block, as every writer lays them out.
- FdtWhole.DeleteAndCheck: asks the same.
- FdtWhole.GetSetGet: for names that stay in the sense of FdtEditor.SetItemsExactly.
- Device tree headers are nine words read through accessors; their byte layout, versions before 17, `fdt_resize`, `fdt_move`, sub-node and path searches, overlays and phandles are left out.
- UserMalloc.Heap.Malloc: for heaps below 2^31 in the address space; `calloc`, `strdup` and `sbrk` are left out.
- UserMalloc.Heap.Free: addresses of whole words of the heap only.
- UserStacks.Stacks.FreeUstack: addresses whose two words have been written as a stack before.
- RadixSet.Set: asks for a well-linked tree; what it does to a tree that an unsafe call has left is not stated.
- RadixTree.Tree.CleanupNode: a freed node is not handed out again; new nodes have fresh addresses.
- RadixTree.Tree.Cleanup: what the roots are on a tree that was not well linked is not stated; what is freed is.
- RadixTree.Tree.Scan: the four nested loops of radix_foreach are one method that calls itself level by level; `radix_destroy` and `radix_stat` are left out.
- FileRead.Fs1Read: block numbers of the file do not wrap at 2^32.
- FileRead.File.Read: reads whose end does not wrap round; FileRead.Fs1Read and FileRead.ReadIsExact tell the others.
- String and format helpers, character devices, shell, ELF loader, tools and simulator sources: I/O or easy members.
