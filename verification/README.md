# TinyBIOS: a verified model of its allocators, keyboard controller driver, console and fw_cfg scan

The project models five parts of the firmware and proves what they promise, for every input, every run and
every device behaviour. The whole project is listed in `dfyconfig.toml`.

Memory is one flat sequence of bytes indexed by physical address. Headers, bitmaps and objects live inside it,
so "metadata and live objects never collide" is a statement about bytes.

| files | part |
|---|---|
| `Arithmetic`, `Bytes` | integer widths, little-endian encodings, stores into memory |
| `Bitmap`, `SlabLayout`, `Slab`, `SlabRuns` | the slab allocator: bitmap as a set, layout arithmetic, the operations on memory, whole runs against a pool |
| `Blocks` | the heap as its comments describe it: a sequence of blocks |
| `Headers`, `HeapAllocator`, `HeapRuns` | the documented heap algorithm in place on memory, and whole runs of it |
| `HeapAsWritten` | the heap allocator exactly as its text reads |
| `HeapAsWrittenSearch`, `HeapAsWrittenSplit`, `HeapAsWrittenAlloc`, `HeapAsWrittenFree`, `HeapAsWrittenRuns` | exactly when that text does what is documented: the search, the split, `malloc` and `calloc`, `free`, whole runs |
| `Kbdctl`, `KbdctlDriver`, `KbdctlTrace` | the 8042 driver as functions of a port history, in place, and what it says on its ports byte by byte |
| `Numerals`, `Console`, `Formats` | number printers, padding, the format interpreter |
| `FwCfg` | `strncmp`, byte swapping and the fw_cfg directory scan |

## The heap: text and documentation

The text of `src/mm/malloc.c` departs from its comments, so the heap is modelled twice.

`HeapAsWritten` follows the text line by line. A NULL link passes the validity test there, so address 0 is read
and written as if it held a header; a wrapped subtraction, a wrapped sum and a store on top of another header are
all modelled as they happen. "As documented" means the list, the pointer and the frame: no byte changes outside
the heap or in a payload in use. The results are exact conditions on the code as it stands:

- `malloc`, when it finds a block, does what is documented if and only if the rounded size does not wrap, the block
  leaves at least 32 bytes beyond the rounded size, and, should it be the last block and be split, the bytes at
  address 0 do not look like a free header and already link to the new block. A tight fit is split anyway and the
  list is lost; a split of the last block stores the new block's address in the first eight bytes of memory, which
  the first `malloc` on any fresh heap does.
- Up to those eight bytes, `malloc` does what is documented whenever the rounding does not wrap and the fit is not
  tight, provided the byte at address 24, which the text reads as the free flag of the NULL header, is zero.
- `calloc` does what is documented, zeroed bytes included, if and only if `malloc` does for the product modulo
  2^64 and the product does not wrap to a size for which there is a block. 2^32 objects of 2^32 bytes fit a heap of
  96 bytes.
- `free` does what is documented if and only if neither neighbour is free and, for the first and the last block, that
  flag is zero. `fuse_blocks` keeps the higher header, makes it its own successor and clears the lower one, so a block
  that `malloc` split off is lost when freed while its remainder is still free; once another request has taken the
  remainder it can be freed. With the flag set, `free` fuses the bytes at address 0 with the block wherever it reads
  them. This is proved except where, with the flag set and not for the first block, the walk would go on from the link
  found at address 0.
- A split in front of a free block gives the documented list if and only if no block follows that free one: the
  text clears the header after it. `malloc` never gets there in a coalesced heap.
- Running out of memory does not yield NULL by itself: the search goes on from address 0 along the links it finds
  there. It returns NULL if and only if they lead past the heap, or the bytes at address 0 look like a large enough
  free header; it never returns when they lead back to themselves or into the list, as in a zeroed first page; and
  it hands out whatever looks like a large enough free header on the way.
- `heap_init` leaves a heap that ends 480 bytes beyond the region it was given.
- Calls that stay inside these conditions leave memory holding exactly the documented heap, hand out the documented
  pointers and keep every byte of an object that is not freed and that the client does not store to, run after run.

`HeapAllocator` implements the documented algorithm in place. Its repairs are marked in the code:

1. NULL is not a valid header address (lines 63-68), so a missing successor is neither read nor written (lines 211, 217).
2. `fuse_blocks` keeps the lower block (lines 133-134) and looks at the successor itself, not one further (line 138).
3. The backward walk goes on from the merged block, whose header is the left one (lines 157-162).
4. The space test does not wrap on tight fits (line 194), and the last block is held to it too (lines 236-238).
5. After a merge inside `insert_new_block` the absorbed header is cleared, not the one after it (lines 213-214).
6. A request whose rounding wraps, and a `calloc` whose product wraps, get NULL (lines 109-110, 305).

Each departure has its theorem: 1 in `InsertLast`, `InsertMeetsFreeNull`, `FirstNeverFreed`,
`FreeSwallowsNull` and `NullExactly`, 2 and 3 in `FuseMakesSelfLoop` and `FreeExact`, 4 in `TightFitCorrupts` and `AllocateBlockExact`, 5 in
`InsertSwallows` and `InsertExact`, 6 in `MallocExact`, `CallocExact` and `CallocWrapsToSmallBlock`.

## Model

| member | source | states |
|---|---|---|
| Bitmap.SetAdds | src/include/mm/bitmap.h:32-34 | setting an entry adds exactly that member to the set, over all bytes of the bitmap |
| Bitmap.ClearRemoves | src/include/mm/bitmap.h:37-39 | clearing an entry removes exactly that member |
| Bitmap.BitmapSizeIsLeast | src/include/mm/bitmap.h:12-19 | a byte count suffices for all entries below n if and only if it is at least `bitmap_size(n)` |
| Bitmap.EntryIsBit | src/include/mm/bitmap.h:16-29 | entry e is bit e % 8, counted from the least significant, of byte e / 8 |
| Bitmap.BitmapSet | src/include/mm/bitmap.h:32-34 | the in-place set changes one byte as the set function says |
| Bitmap.BitmapClear | src/include/mm/bitmap.h:37-39 | the in-place clear changes one byte as the clear function says |
| SlabLayout.LayoutExact | src/mm/slab.c:10-19 | with the fields truncated to their widths, metadata and all objects fit the region if and only if the subtraction on line 14 does not go below zero |
| SlabLayout.CountFits | src/mm/slab.c:10-19 | the count derived from the larger bitmap fits together with `slab_overhead` for the bitmap finally stored |
| SlabLayout.OverheadIsNextMultiple | src/include/mm/slab.h:40-43 | the overhead is the next multiple of the object size strictly after header and bitmap |
| SlabLayout.CountInNumbers | src/mm/slab.c:10-14 | of the w objects that would fit alone, the least k whose bytes exceed 8 and the bitmap of w are given up; the stored count is w - k modulo 2^16 and its bitmap (w - k + 7) / 8 bytes |
| SlabLayout.WasteBound | src/mm/slab.c:10-14 | bytes unused after the last object are at most 2A - 2 + `bitmap_size(k)` for object size A and k entries given up |
| SlabLayout.IndexUndoesMem | src/include/mm/slab.h:52-65 | `slab_index` undoes `slab_mem`, also from any address inside the object, through all truncations |
| SlabLayout.IndexOfAnyAddress | src/include/mm/slab.h:63-65 | for any address at all, the 64-bit distance from the first object in whole objects, its low 16 bits |
| SlabLayout.ObjectsApart | src/include/mm/slab.h:52-54 | objects of different index do not overlap |
| Slab.InitSlab | src/mm/slab.c:9-23 | the header reads back the geometry, the object size in its low 16 bits, only header and bitmap bytes change, and the region is sound, with no entry in use, if and only if the subtraction on line 14 does not wrap and those 16 bits are not zero |
| Slab.HeaderInBytes | src/include/mm/slab.h:12-22 | the header is the 8 bytes from the start: object size in 0 and 1, count in 2 and 3, bitmap size in 4 to 7, little-endian |
| Slab.RegionInNumbers | src/mm/slab.c:9-23 | the geometry that is laid out, from start, end and size in numbers |
| Slab.ObjectInBytes | src/include/mm/slab.h:40-54 | object i lies i sizes after the first multiple of the object size above 8 plus the bitmap bytes |
| Slab.LiveInBytes | src/include/mm/slab.h:73-95 | entry e is in use when bit e % 8 of the byte at start + 8 + e / 8 is set |
| Slab.PageOfWords | src/mm/slab.c:9-23 | 4096 bytes at 0x1000 for objects of 8 bytes: 502 entries, the first at 0x1048 |
| SlabLayout.TruncatedFits | src/mm/slab.c:10-19 | objects of the truncated size fit wherever the layout was computed for the full size without a wrap |
| Slab.SlabAlloc | src/include/mm/slab.h:73-84 | the scan in place returns the address of the first clear entry and sets its bit, or returns 0 and changes nothing |
| Slab.SlabFree | src/include/mm/slab.h:92-95 | freeing through any address inside an object clears that object's bit and nothing else |
| Slab.BitChanged | src/include/mm/slab.h:80-94 | setting or clearing a bit keeps the header, stays inside the bitmap and changes the live set by that entry |
| SlabRuns.NullExactlyWhenFull | src/include/mm/slab.h:73-84 | the result is 0 exactly when all entries are live |
| SlabRuns.ScanIsLeastFree | src/include/mm/slab.h:76-77 | the scan over bitmap bytes finds the lowest index not in the live set |
| SlabRuns.AllocInBytes | src/include/mm/slab.h:73-84 | for the lowest entry i not in use the address returned is i sizes after the first multiple of the size above 8 plus the bitmap bytes; 0 when all are in use |
| SlabRuns.StepRefinesPool | src/include/mm/slab.h:73-95 | each operation acts as the lowest-index pool does and returns its address, touching only bitmap bytes or the byte the client writes |
| SlabRuns.RunRefinesPool | src/include/mm/slab.h:73-95 | in every legal run of allocations, frees and client writes the addresses are the pool's, the bitmap is the live set, the header is unchanged, and other bytes change only by client writes |
| SlabRuns.ObjectsNeverCollide | src/include/mm/slab.h:40-54 | two objects lie apart, above header and bitmap, inside the region |
| SlabRuns.Perform | src/include/mm/slab.h:73-95 | the code on real memory makes exactly the steps the run theorem is about |
| Blocks.TilesTotalSize | src/mm/malloc.c:48-67 | the sizes of blocks that tile the heap add up to it |
| Blocks.TilesSpread | src/mm/malloc.c:48-67 | blocks that tile the heap lie in order, apart, inside it |
| Blocks.AlignedSizeGrowth | src/mm/malloc.c:108-112 | a request grows by 33 to 64 bytes to a multiple of 32 if and only if it is below 2^64 - 64; beyond that the result is 0 or 32 |
| Blocks.AlignedSizeIs | src/mm/malloc.c:108-112 | below that limit the rounded size is 32 * (request / 32 + 2) |
| Blocks.FirstFit | src/mm/malloc.c:171-182 | the lowest free block that is large enough, with none before it, or none at all |
| Blocks.SplitsExactly | src/mm/malloc.c:193-240 | in a coalesced heap the block is cut exactly when more than 96 bytes would be left, and otherwise handed out whole |
| Blocks.MallocInNumbers | src/mm/malloc.c:285-294 | `malloc` in numbers: the lowest free block with 32 * (request / 32 + 2) bytes, the pointer 32 bytes into it, the rest cut off when it exceeds 96 bytes, NULL when there is none |
| Blocks.CallocInNumbers | src/mm/malloc.c:304-310 | `calloc` in numbers: the same for the product, NULL from 2^64 on |
| Blocks.AllocateNeverMeetsFreeNeighbour | src/mm/malloc.c:211-215 | in a coalesced heap the merge inside `insert_new_block` is never reached from `malloc` |
| Blocks.AllocateKeeps | src/mm/malloc.c:203-240 | allocation keeps tiling and coalescing and adds exactly the granted block to those in use |
| Blocks.AllocateKeepsAlignment | src/mm/malloc.c:101-112 | headers stay 32-byte aligned |
| Blocks.ReleaseKeeps | src/mm/malloc.c:247-250 | release keeps the tiling, takes exactly the one block out of use and keeps alignment |
| Blocks.ReleaseIsCoalesce | src/mm/malloc.c:144-163 | the two-way walk from the freed block computes the global coalescing of all free runs, leaving no two free neighbours |
| Blocks.CoalesceSeesThroughMerge | src/mm/malloc.c:125-142 | merging two free neighbours does not change the coalesced heap |
| Headers.HeaderLayout | src/include/stdlib.h:40-45 | a header is 32 bytes: previous at 0, next at 8, size at 16, each little-endian byte by byte, the flag at 24 |
| Headers.FieldEffect | src/include/stdlib.h:40-45 | storing one 64-bit field changes that field of that header and no other header |
| HeapAllocator.FuseLinks | src/mm/malloc.c:131-142 | the stores of a fuse leave a doubly linked list of the merged blocks, with the absorbed header cleared |
| HeapAllocator.InsertLinks | src/mm/malloc.c:203-221 | the stores of a split leave a doubly linked list of the split blocks, with or without a free neighbour |
| HeapAllocator.HeaderStoresKeepPayloads | src/mm/malloc.c:131-221 | header stores over headers or inside free blocks change no byte of a payload in use and none outside the heap |
| HeapAllocator.GrantedRoom | src/mm/malloc.c:285-294 | the payload handed out is longer than the request and inside the heap |
| HeapAllocator.PayloadStore | src/mm/malloc.c:285-310 | a store inside a payload disturbs no header |
| HeapAllocator.Heap.HeapInit | src/mm/malloc.c:48-55 | one free block from the start address to the limit of the validity test |
| HeapAllocator.Heap.GetFreeBlock | src/mm/malloc.c:171-182 | the walk over links returns the first fit, or NULL exactly when there is none |
| HeapAllocator.Heap.FuseBlocks | src/mm/malloc.c:131-142 | memory holds the list with the two blocks merged; only header bytes change |
| HeapAllocator.Heap.FuseWalkthrough | src/mm/malloc.c:150-163 | both loops together merge the maximal free run around the block |
| HeapAllocator.Heap.InsertNewBlock | src/mm/malloc.c:203-221 | memory holds the list with the block split; only header bytes change |
| HeapAllocator.Heap.AllocateBlock | src/mm/malloc.c:229-240 | memory holds the list after allocation, and payloads in use keep their bytes |
| HeapAllocator.Heap.DeleteBlock | src/mm/malloc.c:247-250 | memory holds the list after release; the freed header still reads free exactly when its left neighbour was in use |
| HeapAllocator.Heap.Malloc | src/mm/malloc.c:285-294 | blocks and pointer are those of the specification, and payloads in use keep their bytes |
| HeapAllocator.Heap.Calloc | src/mm/malloc.c:304-310 | as `malloc` for the product, and the requested bytes are all zero |
| HeapAllocator.Heap.Free | src/mm/malloc.c:341-347 | panics exactly when the header is marked free; otherwise releases the block; a second free would be noticed exactly when the left neighbour was in use |
| HeapRuns.StepKeepsInvariant | src/mm/malloc.c:285-347 | every operation keeps tiling, coalescing, alignment, the linked list in memory and the match of live pointers with blocks in use |
| HeapRuns.RunKeepsInvariant | src/mm/malloc.c:285-347 | every state of every run that starts inside the invariant keeps it |
| HeapRuns.ReachableFromHeapInit | src/mm/malloc.c:48-347 | every state reachable from `heap_init` keeps the invariant, and is the initial heap again whenever nothing is live |
| HeapRuns.Start | src/mm/malloc.c:48-55 | `heap_init` on memory that is handed over sets up the initial state of those runs |
| HeapRuns.ObjectsNeverCollide | src/mm/malloc.c:285-310 | live objects of the requested size lie inside the heap, apart from all headers and each other; block sizes sum to the heap |
| HeapRuns.ClientDataSurvives | src/mm/malloc.c:285-347 | a byte of a live object keeps its value over any stretch of any run in which its owner does not write it |
| HeapRuns.FreeInAnyOrder | src/mm/malloc.c:144-163 | freeing all live pointers in any order restores the single initial block |
| HeapRuns.Perform | src/mm/malloc.c:285-347 | each call of the in-place allocator is one of the steps of the run theorems |
| HeapAsWritten.HeapInitOvershoots | src/mm/malloc.c:48-55 | memory holds one free block, which ends 480 bytes past the region given |
| HeapAsWrittenSearch.SearchFinds | src/mm/malloc.c:171-182 | while a block fits, the search as written finds the first one |
| HeapAsWrittenSearch.SearchRunsIntoNull | src/mm/malloc.c:171-182 | when none fits, the search as written reads a header at address 0 |
| HeapAsWrittenSearch.OutOfMemory | src/mm/malloc.c:171-182 | for any path of links from address 0: a link past the heap yields NULL, one back to the path or into the list never ends, a large enough free-looking header is handed out, one outside memory faults |
| HeapAsWrittenSearch.NullExactly | src/mm/malloc.c:171-182 | when no block fits, NULL comes back if and only if the links from address 0 lead past the heap or the bytes there look large enough |
| HeapAsWrittenSplit.TightFitCorrupts | src/mm/malloc.c:193-221 | splitting a block that has no room for a header destroys the list |
| HeapAsWrittenSplit.InsertAsDocumented | src/mm/malloc.c:203-221 | a split with room, before a block in use, gives the documented list and keeps every byte outside free space |
| HeapAsWrittenSplit.InsertLast | src/mm/malloc.c:203-221 | unless the bytes at address 0 look like a free header, a split of the last block gives the documented list, keeps every byte from address 8 up outside free space, and the first eight exactly when they already hold the new block's address |
| HeapAsWrittenSplit.InsertSwallows | src/mm/malloc.c:211-217 | before a free block the header after it is cleared: the list is right exactly when there is none, and then the bytes at address 0 are cleared |
| HeapAsWrittenSplit.InsertExact | src/mm/malloc.c:203-221 | unless the bytes at address 0 look like a free header, a split with room gives the documented list if and only if no block follows a free right neighbour |
| HeapAsWrittenSplit.InsertMeetsFreeNull | src/mm/malloc.c:211-217 | when the bytes at address 0 look like a free header, a split of the last block never meets the documentation |
| HeapAsWrittenAlloc.AllocateBlockKeeps | src/mm/malloc.c:229-240 | a block with room is allocated as documented, for a split of the last block unless the bytes at address 0 look like a free header, up to the first eight bytes of memory, which keep their value exactly when the last block is not split or they already link to the new one |
| HeapAsWrittenAlloc.AllocateBlockExact | src/mm/malloc.c:229-240 | list and frame are as documented if and only if the block leaves room for one more header and the store through NULL, if any, is harmless |
| HeapAsWrittenAlloc.MallocExact | src/mm/malloc.c:285-294 | for every request and whatever is at address 0, `malloc` meets its documentation, frame included, if and only if the request is safe |
| HeapAsWrittenAlloc.MallocKeeps | src/mm/malloc.c:285-294 | unless the bytes at address 0 look like a free header, a request that finds a block with room gets it as documented, and outside free space only the first eight bytes of memory can differ |
| HeapAsWrittenAlloc.FirstMallocWritesNull | src/mm/malloc.c:203-221 | the first split on a fresh heap overwrites the first eight bytes of memory |
| HeapAsWrittenAlloc.CallocExact | src/mm/malloc.c:304-310 | `calloc` meets its documentation, zeroed bytes and frame included, if and only if the request is safe and the product does not wrap to a size for which there is a block |
| HeapAsWrittenAlloc.CallocKeeps | src/mm/malloc.c:304-310 | unless the bytes at address 0 look like a free header, a product that finds a block with room gets it zeroed and as documented, and outside free space only the first eight bytes of memory can differ |
| HeapAsWrittenAlloc.CallocWrapsToSmallBlock | src/mm/malloc.c:305 | 2^32 objects of 2^32 bytes get the first 32 bytes of a fresh heap where NULL is documented |
| HeapAsWrittenFree.FuseMakesSelfLoop | src/mm/malloc.c:131-142 | fusing neighbours makes the higher header its own predecessor and successor and clears the lower |
| HeapAsWrittenFree.FreeListExact | src/mm/malloc.c:247-250 | unless the bytes at address 0 look like a free header, `free` leaves the documented list if and only if neither neighbour is free, and then keeps the frame |
| HeapAsWrittenFree.FreeExact | src/mm/malloc.c:247-250 | `free` meets its documentation, frame included, if and only if neither neighbour is free and, at either end of the list, the bytes at address 0 do not look like a free header; with a free-looking header there, for the first block whatever its link, for the others when its link stops the walk |
| HeapAsWrittenFree.FirstNeverFreed | src/mm/malloc.c:157-162 | the first block is never freed as documented while the bytes at address 0 look like a free header, whatever they link to |
| HeapAsWrittenFree.FreeKeeps | src/mm/malloc.c:247-250 | a block between blocks in use is freed as documented whatever is at address 0 |
| HeapAsWrittenFree.FreeSwallowsNull | src/mm/malloc.c:150-163 | a free-looking header at address 0 whose link stops the walk is fused with the freed block wherever `free` reads it, and cleared; at an end of the list that also breaks the list, unless the link is the one the list needs |
| HeapAsWrittenFree.SplitThenFreeCorrupts | src/mm/malloc.c:203-250 | freeing a block right after `malloc` split it off destroys the list, unless the bytes at address 0 look like a free header |
| HeapAsWrittenRuns.SmoothCall | src/mm/malloc.c:285-347 | one call inside those conditions, out of memory included, or one client store inside an object, leaves the documented list, pointer and other bytes and keeps the bytes at address 0 harmless |
| HeapAsWrittenRuns.SmoothRunsAgree | src/mm/malloc.c:285-347 | every run of such calls and stores leaves memory holding exactly the documented heap, returns the documented pointers and changes no byte outside the heap from address 8 up |
| HeapAsWrittenRuns.SmoothRunsKeepObjects | src/mm/malloc.c:285-347 | in every such run an object that is not freed keeps its block, and every byte to which the client does not store |
| HeapAsWrittenRuns.FreedAfterNextSplit | src/mm/malloc.c:203-250 | a block split off by `malloc` is freed as documented once the next request has taken its remainder |
| Kbdctl.PollingOutcome | src/drivers/kbdctl/8042.c:54-67 | polling stops at the first status with the awaited bits and gives up only after all turns |
| Kbdctl.SetDefaultInit | src/drivers/kbdctl/8042.c:195-226 | every port access is handshaken and at most 12 * 5000 status reads are made, whatever the device answers |
| Kbdctl.EveryRunIsHandshaken | src/drivers/kbdctl/8042.c:54-287 | in every sequence of driver calls against any device, each access is immediately preceded by a status read that permits it, and waiting is bounded |
| Kbdctl.ReadConfigRegister | src/drivers/kbdctl/8042.c:126-131 | reading keeps the configuration and returns it, or 0xff |
| Kbdctl.WriteConfigRegister | src/drivers/kbdctl/8042.c:138-150 | the old byte or the new one remains, and the new one on success |
| Kbdctl.NewConfigIsNotError | src/drivers/kbdctl/8042.c:205-207 | the byte written is ((initial & 0xBC & ~3) \| 4) and never the 0xff that reports an error |
| Kbdctl.Reconfiguration | src/drivers/kbdctl/8042.c:195-226 | success leaves the new byte, an unreadable byte is left alone, any other exit leaves the initial or the new byte, and the status changes only on success |
| Kbdctl.FailedSelfTestRollsBack | src/drivers/kbdctl/8042.c:212-219 | a failed self-test leaves the initial byte or panics |
| Kbdctl.WorkingControllerIsInitialised | src/drivers/kbdctl/8042.c:195-241 | a ready, obedient controller is always initialised, unless its byte is 0xff |
| Kbdctl.WorkingControllerExists | src/drivers/kbdctl/8042.c:195-287 | for every configuration byte there is a controller that meets the assumptions of these theorems |
| Kbdctl.EnableDevicesRegister | src/drivers/kbdctl/8042.c:263-287 | enabling the devices adds interrupt bits to the configuration byte or leaves 0xff, and only the former when its reads succeed |
| Kbdctl.InterruptsOnly | src/drivers/kbdctl/8042.c:263-287 | with interrupt bits added, the byte agrees with the old one in every other bit |
| Kbdctl.WorkingControllerIsEnabled | src/drivers/kbdctl/8042.c:263-287 | on a working controller one or two devices are enabled and exactly their interrupt bits are set |
| Kbdctl.FailedReadIsWritten | src/drivers/kbdctl/8042.c:272-274 | a controller that does not answer the read command has its configuration overwritten with 0xff, and the device is reported enabled |
| Kbdctl.MuteExists | src/drivers/kbdctl/8042.c:126-131 | such a controller exists for every configuration byte, among those that never answer untruthfully |
| KbdctlDriver.Driver.CtrlRdy | src/drivers/kbdctl/8042.c:54-67 | the polling loop in place makes the port reads of the polling function |
| KbdctlDriver.Driver.SetDefaultInit | src/drivers/kbdctl/8042.c:195-226 | the driver in place makes the port accesses and status updates the theorems are about |
| KbdctlDriver.Driver.EnableDevices | src/drivers/kbdctl/8042.c:263-287 | likewise for enabling the devices |
| KbdctlTrace.SendGivesUp | src/drivers/kbdctl/8042.c:54-105 | a send gives up exactly after 5000 statuses with bit 1 set, and otherwise writes right after the first status with it clear |
| KbdctlTrace.ReceiveGivesUp | src/drivers/kbdctl/8042.c:54-92 | a receive gives up with 0xff after 5000 statuses with bit 0 clear, and otherwise reads port 0x60 right after the first with it set |
| KbdctlTrace.DisablePortsSays | src/drivers/kbdctl/8042.c:111-120 | 0xAD, then 0xA7 go to port 0x64; the result tells exactly which of them did not go out |
| KbdctlTrace.ResetDeviceSays | src/drivers/kbdctl/8042.c:157-171 | a reset succeeds exactly when 0xD4 for the second device and 0xFF have gone to port 0x64 and 0xFA came back |
| KbdctlTrace.A20Says | src/drivers/kbdctl/8042.c:177-185 | success is reported exactly when 0xD1 has gone to port 0x64 and 0xDF to port 0x60 |
| KbdctlTrace.DefaultInitSays | src/drivers/kbdctl/8042.c:195-226 | for every device, success means exactly these accesses: 0x20, the byte c, 0x60, the new byte, 0x20, the new byte, 0xAA, 0x55, then the A20 bytes as far as they went out; and exactly that status |
| KbdctlTrace.A20EnabledExactly | src/drivers/kbdctl/8042.c:220-225 | for every device, A20 is recorded as enabled if and only if the last two accesses write 0xD1 to 0x64 and 0xDF to 0x60 |
| KbdctlTrace.RestoreSays | src/drivers/kbdctl/8042.c:212-219 | after a failed self-test that does not panic the last accesses write the byte read first and read it back |
| KbdctlTrace.WorkingControllerHears | src/drivers/kbdctl/8042.c:195-226 | on a working controller reconfiguration makes ten accesses besides status reads, given port by port and byte by byte, and A20 is recorded as enabled |
| KbdctlTrace.EnableDevicesSays | src/drivers/kbdctl/8042.c:263-287 | for every device, a device is counted only after 0xAE, 0xAB and the answer 0, a second one only when enabling ends with 0xA9 and the answer 0; the status counts one initialisation when any is counted |
| KbdctlTrace.WorkingControllerHearsEnabling | src/drivers/kbdctl/8042.c:263-287 | on a working controller, the accesses of enabling for its configuration byte, port by port, with the interrupt bits 1 and 2 |
| Numerals.Itoah | src/stdlib/itoa.c:66-80 | fills the buffer with the 16-digit uppercase hexadecimal numeral and leaves the rest |
| Numerals.HexValueOfDigits | src/stdlib/itoa.c:66-80 | the numeral's value is the number printed |
| Numerals.HexDigitsOfValue | src/stdlib/itoa.c:66-80 | every hexadecimal string is the numeral of its value |
| Numerals.HexDigitsOrdered | src/stdlib/itoa.c:66-80 | numerals compare as strings exactly as the numbers compare |
| Numerals.Itoa | src/stdlib/itoa.c:41-58 | the carry loop fills the buffer with the 16-digit decimal numeral of the sum of nibble_i * 10^i |
| Numerals.DecValueIsModulo | src/stdlib/itoa.c:41-58 | that numeral stands for the sum modulo 10^16 |
| Numerals.ItoaIsDecimalExactlyBelow16 | src/stdlib/itoa.c:36-58 | the true decimal value is printed if and only if the argument is below 16 |
| Numerals.ItoaPrintsPackedDigits | src/stdlib/itoa.c:41-58 | on packed decimal digits it prints those digits |
| Numerals.PackedValueSplits | src/stdlib/itoa.c:41-58 | a nibble counts as itself, and the nibbles above the first i count 10^i times what they count alone |
| Console.BPutInt | src/console.c:82-108 | sends the end of the numeral that starts at the first significant digit or at the width; for a width above 16 it starts in front of its buffer |
| Console.StartInBuffer | src/console.c:101-106 | printing starts inside the buffer if and only if the width is at most the numeral's length |
| Console.PaddedHexExact | src/console.c:82-108 | for every int and width to 16, exactly max(width, minimal count) digits, whose hexadecimal value is the number, plus 2^64 when it is negative |
| Console.PaddedDecExact | src/console.c:82-108 | in base ten likewise, with the packed sum of the nibbles of that number modulo 10^16 for the value |
| Console.MinDigitsIsLeast | src/console.c:93-100 | the minimal count is the least number of digits that can hold the value |
| Formats.ParseWidth | src/console.c:136-147 | the width loop consumes exactly the characters that do not compare above '9', weighing every one but the last by ten |
| Formats.WidthExact | src/console.c:139-146 | the width is the decimal value of its digits if and only if all but the last two are zeros |
| Formats.WidthInNumbers | src/console.c:139-146 | a width character weighs the low four bits of its code, ten times that in front of another one |
| Formats.WidthCharacters | src/console.c:139 | as a signed char a width character is at most 0x39, and not 0 inside a string |
| Formats.FormatDirective | src/console.c:134-174 | from the percent sign to the letter, one directive sends the rendering of its argument and adds that kind's amount to the count; without a known letter the character before is sent instead |
| Formats.Letters | src/console.c:127-172 | which characters are directives, escapes and stray percent signs |
| Formats.LettersSend | src/console.c:148-170 | what each letter sends for its argument: the string, the numeral with its value and digit count, the character whose code is the argument modulo 256 |
| Formats.SentIsLast | src/console.c:122-177 | every other item sends its last character, a lone backslash nothing |
| Formats.CountedIsSent | src/console.c:148-170 | strings and characters are counted as sent; a number if and only if its minimal digit count is four more than the width asked for |
| Formats.CountedAllIsSent | src/console.c:110-183 | the count for a format is the number of characters sent plus the surpluses of numbers, less one for each escaped character |
| Formats.Vfblogf | src/console.c:116-183 | for every well-formed format, stray percent signs and a closing backslash included, the loop sends the recursive meaning, each argument used once and in order, then one NUL, which is counted unless escaped |
| Formats.ParseUnparse | src/console.c:126-182 | every format string is read as items that print as the string, unless a zero flag is followed by nothing above '9' up to its end |
| Formats.UnparseParse | src/console.c:126-182 | the items printed are read back as those items, so each format string has one reading |
| FwCfg.SwappedRead32 | src/mainboards/qemu/fwcfg/fwcfg.c:74-81 | swapping the bytes of the little-endian reading gives the big-endian number |
| FwCfg.Strncmp | src/stdlib/string.c:55-66 | the number of differing bytes up to the first end of a string; zero exactly for equal C strings of at most n bytes |
| FwCfg.CStringsDecided | src/stdlib/string.c:57-64 | once one string ends, the bytes read so far decide equality |
| FwCfg.DecodeSerialized | src/mainboards/qemu/fwcfg/fwcfg.c:78-82 | decoding a serialised entry gives back size, select and name |
| FwCfg.DecodeInBytes | src/include/mainboards/qemu/fwcfg/fwcfg.h:45-50 | of any 64-byte record, size is bytes 0 to 3 and select bytes 4 and 5, both big-endian, and name is bytes 8 to 63 |
| FwCfg.SerializeInBytes | src/include/mainboards/qemu/fwcfg/fwcfg.h:45-50 | a directory entry has those bytes |
| FwCfg.DirectoryInBytes | src/mainboards/qemu/fwcfg/fwcfg.c:72-77 | the directory is a four-byte big-endian count, then entry j at 4 + 64 * j |
| FwCfg.SameName | src/mainboards/qemu/fwcfg/fwcfg.c:78 | two names are the same if and only if no byte among the first 56, up to the end of the string, tells them apart |
| FwCfg.FirstNamed | src/mainboards/qemu/fwcfg/fwcfg.c:77-84 | the first entry with the name, with none before it, or none at all |
| FwCfg.Stream.Insb | src/include/mainboards/qemu/fwcfg/fwcfg.h:95-99 | fills the buffer with the next bytes of the stream and advances past them |
| FwCfg.FindFileEntry | src/mainboards/qemu/fwcfg/fwcfg.c:66-87 | for every serialised directory in item 0x19 the scan returns the first entry of that name, with its size, select and name, and NULL exactly when there is none or no record could be allocated |

## Left out

- `realloc` and `resize_block`: the destination that `get_free_block` finds is never marked allocated, and the copy and the delete happen twice, so there is no documented outcome to compare the text with.
- HeapAsWritten.FuseForward, HeapAsWritten.FuseBackward, HeapAsWritten.GetFreeBlock: these loops carry a bound on their turns because as written they need not end; the exactness theorems hold for every sufficiently large bound.
- HeapAsWrittenFree.FreeExact: with a free-looking header at address 0, and for another block than the first, it asks that the link found there stops the walk: it is zero, past the heap, or leads to a header that does not look free and reaches into no header of the list in part. From any other link the walk goes on through whatever memory it meets.
- HeapAllocator.Heap.HeapInit: takes the address after the scaled pointer addition; `HeapAsWritten` has that addition.
- HeapAllocator.Heap.Free: a pointer that never was a payload is outside the model, as the source gives it no meaning.
- Slab.InitSlab: asks that the object size is not zero, as the source divides by it, that it is not within 2^32 of 2^64, where the sum on line 14 wraps too, and, when line 14 wraps, that the bytes the code then clears exist.
- SlabLayout.SlabMem: the product of two 16-bit values is computed in `int`, so for regions of 2^31 bytes or more C leaves it undefined; the model takes it modulo 2^32.
- SlabLayout.WasteBound: assumes that the count fits 16 bits; a larger count is truncated when stored, which is safe but wastes the rest.
- Kbdctl.Reconfiguration: assumes that a data read after the read command returns the configuration byte, so a late reply to an earlier command is dropped, and that the self-test keeps the byte.
- Kbdctl.EnableDevices: the status it updates is taken to be the driver's own; the source reads it through the device structure.
- Formats.Vfblogf: a zero flag followed by nothing above '9' up to the end of the string, on which the source reads past the string (`Formats.ParseUnparse` shows this to be the only unreadable case), widths above 16 for numbers, on which `Console.BPutInt` starts in front of its buffer, and arguments of the wrong type are not well formed.
- FwCfg.Stream: the signature probe, the port numbers and reads of item contents (`fwcfg_read_file` overwrites one word each time) are not modelled.
- Serial transmission, including the carriage return sent before a line feed, is below the level of the console model.
- Paging, memory maps, PCI, ATA, PIC, PIT, CMOS, VGA, interrupt tables, option ROMs, context switching and assembly: fixed register sequences and tables whose effect is decided by hardware outside the model.
- `panic` is a terminal outcome; its dumps are not modelled.
