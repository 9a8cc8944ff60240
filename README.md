# InfOS memory core in Dafny

This project models the memory-management core of the InfOS teaching kernel and proves properties of that model. It covers six parts:

- **Buddy frame allocator** (`BuddyPageAllocator`). There are 18 free lists indexed by order. Lists hold frame indices over an array of one-byte frame descriptors: 0 means free, 1 means allocated.
  - `initialise` carves the frames into blocks of 2^17.
  - `allocate(order)` takes the head of the lowest non-empty list at or above `order` and splits it down to `order`.
  - `free(page, order)` merges the block with its buddy `index ^ (1 << order)` while the buddy's base flag says free, then appends the result.
  - It is a class (`Buddy.BuddyAllocator`) with the flag bytes as an `array<bv8>` and the lists as an `array<seq<nat>>`. Every method is proved against specification functions (`Split`, `Marked`, `Coalesce`, `TopBases`).
  - Every method keeps the class invariant `Valid`: each block on list `o` is aligned at order `o` and lies inside the whole top blocks (`WholeFrames(nrFrames)`). So every block `allocate` hands out can be passed back to `free`.
  - Those functions carry their own lemmas:
    - frame conservation for `allocate`;
    - buddy arithmetic (`buddy(buddy(i)) == i`, the pair is aligned one order up);
    - what the merge loop stops on.
  - Concrete runs on one top block are proved in `BuddyScenarios`.
- **The kernel's singly linked list** (`infos::util::LinkedList`). It is a class over heap nodes whose meaning is a ghost sequence, with contracts for `clear`, `append`, `remove_first`, `first`, `next`, `remove` and `empty`.
- **The 64-bit x86 page-table entry and virtual-address layout** (section 4.5 of the Intel 64 and IA-32 Architectures Software Developer's Manual, Volume 3A):
  - the four 9-bit table indices of an address;
  - the split of an entry word into a frame-aligned address field and a 12-bit flag field;
  - the getters and setters of both fields.
- **The generic page-table-entry flags** and their `get_flag`/`set_flag` accessors, applied to the x86 entry, and the documented "cookie" contract of a virtual memory area.
- **The ELF loader's rules** (System V gABI chapters 4 and 5):
  - the header checks, in their order;
  - the offset of each program header;
  - the PT_LOAD page loop, with its size/offset case analysis, as a plan of copies and a set of mapped pages;
  - the PT_INTERP rejections.
- **The page allocator front end**: `pgd_to_pfn`, `pfn_to_pgd` with its round trips, and the `alloc_page`/`free_page` wrappers over the buddy allocator.

Three things in the code do not fit together. The model follows the code in each case:

- The buddy allocator's methods are named `initialise`, `allocate` and `free`. The interface it registers with declares `init`, `allocate_pages` and `free_pages` (include/infos/mm/page-allocator.h:45-51). `AllocPage` and `FreePage` call `Allocate` and `Free` directly.
- `remove_specific_block` calls `remove(current)` with one argument, but `LinkedList::remove` takes two (a `prev` it ignores, and the target). The model reads the call as "remove element `current`", which is `LinkedList.Remove(target)`.
- `free` tests only the buddy's base flag, not whether the buddy is on list `order`, and removing an absent buddy does nothing. A buddy that has been split and has a free lower piece is therefore merged. That bug is the first row under "## Findings". No global "free blocks never overlap" invariant holds, so none is claimed. Operations get per-call contracts, and the behaviour is shown on concrete runs.

## Model

| member | source | states |
|---|---|---|
| `Buddy.BuddyAllocator.Initialise` | mm/buddy-allocator.cpp:13-26 | Takes over the `count` descriptors. Lists 0..16 end empty. List 17 holds exactly 0, 2^17, 2*2^17, ... for the floor(count / 2^17) whole blocks. Exactly those base flags become 0; every other flag, including the trailing frames', keeps its value. |
| `Buddy.BuddyAllocator.ClearLists` | mm/buddy-allocator.cpp:17-19 | Every one of the 18 lists is empty afterwards. |
| `Buddy.BuddyAllocator.CarveTopBlocks` | mm/buddy-allocator.cpp:21-26 | After the stepping loop, list 17 is `TopBases(n / 2^17)`, the lower lists are still empty, and exactly the bases of whole blocks are flagged free. |
| `Buddy.BuddyAllocator.CarveBlock` | mm/buddy-allocator.cpp:22-25 | One pass of the loop keeps the carving invariant: the block at `i` is inserted iff it fits whole. |
| `Buddy.CarvedBasesAll` | mm/buddy-allocator.cpp:22-25 | After k passes, list 17 holds the first min(k, n / 2^17) block bases, in order. |
| `Buddy.CarvedFlags` | mm/buddy-allocator.cpp:22-25 | After the passes up to `i`, a flag is 0 iff it is the base of a visited block that fits; otherwise it is as before. |
| `Buddy.CarveEnd` | mm/buddy-allocator.cpp:22-26 | Once the loop has passed the end, the flagged frames are exactly the bases of the whole blocks. |
| `Buddy.TopBases` | mm/buddy-allocator.cpp:21-24 | The m top-order bases: entry j is j * 2^17. |
| `Buddy.TopBlockSizeIsPow2` | mm/buddy-allocator.cpp:21 | `1 << (MAX_ORDER - 1)` is 131072 and is aligned at order 17. |
| `Buddy.BuddyAllocator.Allocate` | mm/buddy-allocator.cpp:29-47 | The result is NULL iff lists `order`..17 are all empty, and then nothing changes. Otherwise: it is the old head of the lowest non-empty list `found >= order`; the lists become `Split(old, order, found)`; the free frames drop by exactly 2^order; the split-off halves are flagged free and the returned base is flagged 1. The returned block lies inside the whole top blocks. |
| `Buddy.BuddyAllocator.IsFree` | mm/buddy-allocator.cpp:71-73 | `is_free`: the frame's flag byte is 0. `Coalesce` stops exactly at a buddy for which it fails (`CoalesceFacts`). |
| `Buddy.FirstNonEmpty` | mm/buddy-allocator.cpp:30-35 | The scan's stopping order: every list below it, from `from` on, is empty, and the list at it is non-empty unless it is 18. |
| `Buddy.BuddyAllocator.SplitDown` | mm/buddy-allocator.cpp:39-43 | For k from found-1 down to `order`, `block + 2^k` is appended to list k and flagged free; nothing else changes. |
| `Buddy.AddHalvesStep` | mm/buddy-allocator.cpp:39-42 | Each further split step appends one upper half to the list of the lowered order. |
| `Buddy.AddHalvesFrames` | mm/buddy-allocator.cpp:39-43 | The upper halves split off an order-`found` block down to `order` hold 2^found - 2^order frames. |
| `Buddy.SplitTakesBlock` | mm/buddy-allocator.cpp:37-44 | Taking the head of list `found` and splitting it to `order` leaves the lists holding exactly 2^order frames fewer. |
| `Buddy.MarkedFlags` | mm/buddy-allocator.cpp:39-42 | After splitting, a flag is 0 iff it is the base of one of the split-off halves; every other flag is kept. |
| `Buddy.FramesFromUpdate` | mm/buddy-allocator.cpp:37-44 | Replacing a list changes the frame count by the change in its length times 2^o. |
| `Buddy.FreeFramesGrow` | mm/buddy-allocator.cpp:79-83 | Appending one block to list o adds 2^o frames to the count. |
| `Buddy.BuddyAllocator.InsertBlock` | mm/buddy-allocator.cpp:79-83 | Flags frame `index` free, appends it to list `order` and changes nothing else. A block inside the whole top blocks keeps the invariant. |
| `Buddy.WholeBlockFits` | mm/buddy-allocator.cpp:21-24 | A top block that fits in the frames lies inside the whole top blocks, so every block `initialise` inserts keeps the invariant. |
| `Bits.XorInvolutive` | mm/buddy-allocator.cpp:53 | `(a ^ b) ^ b == a` for the natural-number exclusive or. |
| `Bits.XorPow2Aligned` | mm/buddy-allocator.cpp:53 | On an order-k aligned index, `^ (1 << k)` adds 2^k when the index is aligned one order up, and subtracts it otherwise. |
| `Buddy.BuddyOf` | mm/buddy-allocator.cpp:53 | `index ^ (1 << order)`. `BuddyOfBuddy`, `BuddyPair` and `BuddyWithinFrames` state its properties. |
| `Buddy.BuddyOfBuddy` | mm/buddy-allocator.cpp:53 | The buddy of the buddy is the block itself. |
| `Buddy.BuddyPair` | mm/buddy-allocator.cpp:53-59 | An aligned block and its buddy differ, are both aligned, and are the two halves of the block at `min(index, buddy)`, which is aligned one order up. |
| `Buddy.BuddyWithinFrames` | mm/buddy-allocator.cpp:53-54 | Within a range whose length is a multiple of 2^17, the buddy of a block below order 17 and the pair's union stay in the range, so the unchecked descriptor index is safe. |
| `Buddy.WholeFrames` | mm/buddy-allocator.cpp:21-26 | The frames covered by the whole top-order blocks `initialise` carves: a multiple of 2^17, at most the frame count and less than 2^17 below it. |
| `Buddy.Coalesce` | mm/buddy-allocator.cpp:52-61 | The merge loop as written: the final order is at least the initial one and at most 17, and the final block is aligned and lies within the whole top blocks. |
| `Buddy.CoalesceStep` | mm/buddy-allocator.cpp:53-60 | One iteration: stop at a buddy whose flag is not 0; otherwise remove the buddy from list `order` (a no-op when it is absent) and continue from `min(index, buddy)` one order up. |
| `Buddy.CoalesceFacts` | mm/buddy-allocator.cpp:52-61 | The final block contains the freed one. Merging stops only at order 17 or at a buddy whose base flag is not 0. It only takes entries off lists. |
| `Buddy.CoalesceChecked` | mm/buddy-allocator.cpp:56-58 | The merge loop with the membership test added: the result is aligned, lies within the whole top blocks, and contains the freed block. |
| `Buddy.CoalesceCheckedConserves` | mm/buddy-allocator.cpp:52-63 | With the membership test, the frames held by the lists plus the final block equal the frames held before plus the freed block. |
| `Buddy.BuddyAllocator.MergeBuddies` | mm/buddy-allocator.cpp:52-61 | The loop ends in exactly the state `Coalesce` describes: the same lists, final base and final order. The flags are untouched. |
| `Buddy.BuddyAllocator.Free` | mm/buddy-allocator.cpp:49-64 | For any frame count, and any aligned block inside the whole top blocks: the lists become those `Coalesce` leaves, with the final block appended to the list of its final order. Only the final base flag changes, to 0. |
| `Buddy.BuddyAllocator.RemoveSpecificBlock` | mm/buddy-allocator.cpp:91-100 | List `order` loses the first occurrence of `page`; it is unchanged when `page` is absent. No other list changes. |
| `Buddy.CursorWalksByPosition` | mm/buddy-allocator.cpp:92-98 | On a list without repeated indices, the `first()`/`next()` cursor visits the entries in order and then stops. This is the positional scan `RemoveSpecificBlock` performs. |
| `Buddy.CursorAlternates` | mm/buddy-allocator.cpp:92-98 | If the head `a` is followed by `b` and the first `b` by `a`, the cursor alternates between them forever. |
| `Buddy.CursorCycles` | mm/buddy-allocator.cpp:92-98 | On [5, 7, 5, 9] the cursor never reaches 9, so the walk for 9 does not end. |
| `BuddyScenarios.InitialiseWhole` | mm/buddy-allocator.cpp:13-26 | `initialise` on exactly 2^17 frames leaves block 0 alone on list 17. |
| `BuddyScenarios.SplitWholeBlock` | mm/buddy-allocator.cpp:37-43 | Splitting the whole block down to `order` leaves `2^o` alone on each list o from `order` to 16. |
| `BuddyScenarios.MarkedWholeBlock` | mm/buddy-allocator.cpp:39-42 | That split flags every upper half `2^o` free. |
| `BuddyScenarios.AllocateFromWhole` | mm/buddy-allocator.cpp:29-47 | From the whole block, `allocate(order)` returns frame 0, flags it allocated, leaves each upper half on its list and flagged free, and keeps every flag past the top block. |
| `BuddyScenarios.AllocateSecondFrame` | mm/buddy-allocator.cpp:29-47 | The next `allocate(0)` returns frame 1 and empties list 0. |
| `BuddyScenarios.FreeStaysAtZero` | mm/buddy-allocator.cpp:52-56 | Freeing one frame of {0, 1} while the other is allocated stops at order 0. |
| `BuddyScenarios.MergePair` | mm/buddy-allocator.cpp:53-60 | With the other frame free on list 0, frames 0 and 1 merge into the order-1 block at 0. |
| `BuddyScenarios.MergeOne` | mm/buddy-allocator.cpp:53-60 | The order-k block at 0 merges with its free buddy 2^k, which leaves list k. |
| `BuddyScenarios.MergeUpward` | mm/buddy-allocator.cpp:52-61 | With 2^o alone on each list o from k to 16 and flagged free, freeing at 0 merges up to order 17 and empties those lists. |
| `BuddyScenarios.ClearedStep` | mm/buddy-allocator.cpp:58 | Emptying list k and then the lists from k + 1 on is emptying the lists from k on. |
| `BuddyScenarios.FreeMergesFromZero` | mm/buddy-allocator.cpp:49-64 | Freeing the second frame of the pair merges all the way to the whole block. |
| `BuddyScenarios.FreeFirstOfPair` | mm/buddy-allocator.cpp:49-64 | The first `free(i, 0)` puts `i` alone on list 0 and flags it free. |
| `BuddyScenarios.FreeSecondOfPair` | mm/buddy-allocator.cpp:49-64 | The second `free` leaves block 0 alone on list 17 and every other list empty. |
| `BuddyScenarios.WholeBlockBack` | mm/buddy-allocator.cpp:63 | Appending block 0 to list 17 of the emptied lists gives the initial lists. |
| `BuddyScenarios.FreeBothFrames` | mm/buddy-allocator.cpp:13-64 | `initialise` on 2^17 frames, `allocate(0)` twice, then freeing both frames in either order leaves block 0 alone on list 17 and every other list empty. |
| `BuddyScenarios.AllocateUpperPair` | mm/buddy-allocator.cpp:29-47 | From that state with list 0 empty, `allocate(0)` splits the order-1 block at 2, returns frame 2 and puts frame 3 on list 0. |
| `BuddyScenarios.AllocateLastFrame` | mm/buddy-allocator.cpp:29-47 | The next `allocate(0)` returns frame 3. |
| `BuddyScenarios.FreeTwoStays` | mm/buddy-allocator.cpp:52-56 | `free(2, 0)` with frame 3 allocated stops at order 0. |
| `BuddyScenarios.FreeLowerFrame` | mm/buddy-allocator.cpp:49-64 | `free(2, 0)` with frame 3 allocated puts frame 2 on list 0. |
| `BuddyScenarios.StaleFirstMerge` | mm/buddy-allocator.cpp:53-58 | `free(0, 1)` merges with the order-1 "buddy" at 2 on its flag alone, although list 1 is empty. |
| `BuddyScenarios.StaleBuddyMerges` | mm/buddy-allocator.cpp:52-61 | From there the merge carries on up to order 17. |
| `BuddyScenarios.StaleBuddyChecked` | mm/buddy-allocator.cpp:56-58 | With the membership test the same `free(0, 1)` stops at order 1. |
| `BuddyScenarios.StaleBlockBack` | mm/buddy-allocator.cpp:63 | The lists the stale merge leaves: block 0 on list 17 and frame 2 still on list 0. |
| `BuddyScenarios.FreeStalePair` | mm/buddy-allocator.cpp:49-64 | `free(0, 1)` in the stale state leaves block 0 on list 17 and frame 2 on list 0. |
| `BuddyScenarios.FramesFromNoBlocks` | mm/buddy-allocator.cpp:17-19 | Empty lists hold no frames. |
| `BuddyScenarios.StaleFreeFrames` | mm/buddy-allocator.cpp:79-83 | Those lists count 2^17 + 1 free frames, one more than exist. |
| `BuddyScenarios.PartialTail` | mm/buddy-allocator.cpp:13-83 | On 2^17 + 1 frames, `initialise`, then `allocate(0)`, then `free` of the returned frame at order 0, all through the real methods: list 17 ends as `[0]`, every other list is empty, frame 0 is flagged free, and the last frame keeps its old flag. |
| `BuddyScenarios.OutsideWholeBlock` | mm/buddy-allocator.cpp:38-42 | Splitting the block at 0 flags no frame past the top block. |
| `BuddyScenarios.StaleMerge` | mm/buddy-allocator.cpp:13-64 | The sequence `initialise`, `allocate(1)`, `allocate(0)`, `allocate(0)`, `free(2, 0)`, `free(0, 1)` on one top block ends with lists counting 2^17 + 1 frames while frame 3 is still allocated. |
| `LinkedLists.LinkedList.constructor` | include/infos/util/linked-list.h:20 | A new list is empty. |
| `LinkedLists.LinkedList.Clear` | include/infos/util/linked-list.h:22-30 | The list is empty afterwards. |
| `LinkedLists.LinkedList.Append` | include/infos/util/linked-list.h:32-46 | The contents become `old + [x]`. Only a fresh node is added to the list's footprint. |
| `LinkedLists.LinkedList.RemoveFirst` | include/infos/util/linked-list.h:48-56 | On an empty list it returns NULL and changes nothing. Otherwise it returns `old[0]` and the contents become `old[1..]`. |
| `LinkedLists.LinkedList.First` | include/infos/util/linked-list.h:58-61 | Returns the head element, or NULL on an empty list; it reads only. |
| `LinkedLists.LinkedList.Next` | include/infos/util/linked-list.h:63-73 | Returns the element after the first occurrence of `d`, or NULL when `d` is last or absent. |
| `LinkedLists.After` | include/infos/util/linked-list.h:63-73 | What `next(x)` answers: something iff `x` occurs before the last position. That is then the element after the first occurrence of `x`. |
| `LinkedLists.FirstIndex` | include/infos/util/linked-list.h:63-73 | The position of the first occurrence: it holds `x`, and no earlier position does. |
| `LinkedLists.LinkedList.Remove` | include/infos/util/linked-list.h:75-107 | Deletes exactly the first occurrence of `target` and keeps the other elements in order. A no-op when `target` is absent. |
| `LinkedLists.WithoutFirst` | include/infos/util/linked-list.h:75-107 | Without an occurrence the list is unchanged. Otherwise it is one shorter, and its multiset plus `x` is the old multiset. |
| `LinkedLists.LinkedList.Unlink` | include/infos/util/linked-list.h:91-102 | Relinking the predecessor, or the head, past the k-th node removes exactly element k. |
| `LinkedLists.LinkedList.Empty` | include/infos/util/linked-list.h:109-112 | True iff the list holds no element. |
| `X86Vma.VaTableIndices` | include/arch/x86/vma.h:23-33 | `va_table_indices` with each `BITS` use expanded: each of the four indices is in 0..511. `IndicesRecombine` and `SameIndices` say which address bits they are. |
| `X86Vma.IndicesRecombine` | include/arch/x86/vma.h:29-32 | `pm << 39`, `pdp << 30`, `pd << 21` and `pt << 12` or-ed together is bits 12-47 of the address, so the 16-bit narrowing loses nothing. |
| `X86Vma.IndicesOfCanonicalBits` | include/arch/x86/vma.h:29-32 | The indices depend on bits 12-47 only. |
| `X86Vma.SameIndices` | include/arch/x86/vma.h:29-32 | Two addresses have equal indices iff they agree on bits 12-47. |
| `X86Vma.SamePageSameIndices` | include/arch/x86/vma.h:27-33 | Two addresses in one 4 KiB page have identical indices. |
| `X86Vma.X86PageTableEntry.BaseAddress` | include/arch/x86/vma.h:56-58 | `base_address()` has its low 12 bits clear. |
| `X86Vma.X86PageTableEntry.Flags` | include/arch/x86/vma.h:65-67 | `flags()` is below 4096. `EntryFields` proves that `base_address()` and `flags()` together make up the word. |
| `X86Vma.AddressFieldAligned` | include/arch/x86/vma.h:56-58 | `base_address()` has its low 12 bits clear. |
| `X86Vma.FlagFieldLow` | include/arch/x86/vma.h:65-67 | `flags()` is below 4096. |
| `X86Vma.EntryFields` | include/arch/x86/vma.h:56-67 | The word is the bitwise or of `base_address()` and `flags()`. |
| `X86Vma.WithAddressAddress` | include/arch/x86/vma.h:60-63 | After `base_address(a)`, `base_address()` is `a & ~0xfff`. |
| `X86Vma.WithAddressFlags` | include/arch/x86/vma.h:60-63 | `base_address(a)` leaves `flags()` unchanged. |
| `X86Vma.WithFlagsFlags` | include/arch/x86/vma.h:69-72 | After `flags(f)`, `flags()` is `f & 0xfff`. |
| `X86Vma.WithFlagsAddress` | include/arch/x86/vma.h:69-72 | `flags(f)` leaves `base_address()` unchanged. |
| `X86Vma.WithOwnFlags` | include/arch/x86/vma.h:65-72 | Writing back the flags just read leaves the word as it was. |
| `X86Vma.WithFlagsLow` | include/arch/x86/vma.h:69-72 | Only the low 12 bits of the setter's argument matter. |
| `X86Vma.X86PageTableEntry.SetBaseAddress` | include/arch/x86/vma.h:60-63 | The setter's two statements leave the word `WithAddress(old, addr)`. |
| `X86Vma.X86PageTableEntry.SetFlags` | include/arch/x86/vma.h:69-72 | The setter's two statements leave the word `WithFlags(old, flags)`. |
| `Vma.FlagUpdateKeeps` | include/infos/mm/vma.h:80-86 | The flag word `set_flag` computes keeps every bit outside the mask. |
| `Vma.FlagUpdateWrites` | include/infos/mm/vma.h:80-86 | The flag word `set_flag` computes has every mask bit set when `v` holds, and every mask bit clear otherwise. |
| `X86Vma.X86PageTableEntry.SetFlag` | include/infos/mm/vma.h:80-86 | `set_flag(mask, v)` is the read-modify-write through the flags getter and setter. |
| `X86Vma.SetFlagReadsBack` | include/infos/mm/vma.h:79-86 | After `set_flag(mask, v)`, `get_flag(mask)` reads `v` if the mask has a bit in the 12-bit field, and false if it has none. |
| `X86Vma.SetFlagKeepsAddress` | include/infos/mm/vma.h:80-86 | `set_flag` keeps the address field. |
| `X86Vma.SetFlagKeepsOtherFlags` | include/infos/mm/vma.h:80-86 | `set_flag` keeps every flag bit outside the mask. |
| `X86Vma.X86PageTableEntry.GetFlag` | include/infos/mm/vma.h:79 | `get_flag(mask)` holds iff the word has a bit set that is in the mask and in the 12-bit flag field. |
| `X86Vma.X86PageTableEntry.Present` | include/infos/mm/vma.h:88 | `present()` holds iff bit 0 of the entry word is set. |
| `X86Vma.X86PageTableEntry.Writable` | include/infos/mm/vma.h:91 | `writable()` holds iff bit 1 of the entry word is set. |
| `X86Vma.X86PageTableEntry.User` | include/infos/mm/vma.h:94 | `user()` holds iff bit 2 of the entry word is set. |
| `X86Vma.X86PageTableEntry.Huge` | include/infos/mm/vma.h:97 | `huge()` holds iff bit 7 of the entry word is set. |
| `Vma.FlagSet` | include/infos/mm/vma.h:79 | `get_flag` on a flag word: some bit of the mask is set. Its meaning on the entry word is `GetFlag`'s contract and `FieldBitReads`. |
| `Vma.FlagUpdate` | include/infos/mm/vma.h:80-86 | The flag word `set_flag` passes to the setter, in 16-bit arithmetic. `FlagUpdateKeeps` and `FlagUpdateWrites` state what it keeps and what it writes. |
| `X86Vma.FieldBitReads` | include/infos/mm/vma.h:79 | For a mask below bit 12, `get_flag(mask)` holds iff the entry word has one of the mask's bits set. |
| `X86Vma.OutsideFieldUnset` | include/infos/mm/vma.h:79 | A mask with no bit in the flag field, such as `PTE_NONPT_PAT`, never reads as set. |
| `X86Vma.OutsideFieldUnchanged` | include/infos/mm/vma.h:80-86 | Setting or clearing such a mask leaves the entry word unchanged. |
| `X86Vma.AccessorMasks` | include/infos/mm/vma.h:43-50 | The masks of `present`, `writable`, `user` and `huge` are single bits (0, 1, 2, 7) of the 12-bit flag field. |
| `X86Vma.AccessorWrites` | include/infos/mm/vma.h:88-98 | Each accessor's setter makes its getter read `v`, keeps the address and changes no other flag. |
| `X86Vma.X86PageTableEntry.SetPresent` | include/infos/mm/vma.h:89 | `present(v)` is `set_flag(PTE_PRESENT, v)`. |
| `X86Vma.X86PageTableEntry.SetWritable` | include/infos/mm/vma.h:92 | `writable(v)` is `set_flag(PTE_WRITABLE, v)`. |
| `X86Vma.X86PageTableEntry.SetUser` | include/infos/mm/vma.h:95 | `user(v)` is `set_flag(PTE_ALLOW_USER, v)`. |
| `X86Vma.X86PageTableEntry.SetHuge` | include/infos/mm/vma.h:98 | `huge(v)` is `set_flag(PTE_HUGE, v)`. |
| `X86Vma.HugeAliases` | include/infos/mm/vma.h:50-52 | After the entry is set huge or not, `PTE_PS` and `PTE_PT_PAT` read the same as `PTE_HUGE`. |
| `Vma.VirtualMemoryArea.SetPteCookie` | include/infos/mm/vma.h:163-167 | Succeeds iff the entry exists and is not present. It then holds the cookie and stays not present. Other pages are untouched, and nothing changes on failure. |
| `Vma.VirtualMemoryArea.GetPteCookie` | include/infos/mm/vma.h:168-170 | Returns a value iff the entry holds a cookie, and then that cookie; such a page is not mapped. |
| `Vma.VirtualMemoryArea.IsMapped` | include/infos/mm/vma.h:146 | `is_mapped(va)`: the page's entry is a present mapping. `SetPteCookie` and `CookieRoundTrip` prove that a cookie never makes a page mapped. |
| `Vma.CookieRoundTrip` | include/infos/mm/vma.h:151-170 | Setting a cookie and getting it at any address of the same page returns the value set, and `is_mapped` stays false. |
| `ElfLoader.CheckHeader` | fs/exec/elf-loader.cpp:44-84 | No failure iff all seven checks hold: full read, magic 0x464c457f, class 2, data 1, ET_EXEC, machine 0x3e, version 1. Otherwise the result is the first failing check, and all earlier checks pass. |
| `ElfLoader.PhEntryOffset` | fs/exec/elf-loader.cpp:89-93 | The `unsigned int` product `i * phentsize` cannot wrap, because both factors are below 2^16. The offset is a signed 64-bit `off_t` congruent to `phoff + i * phentsize` modulo 2^64, so it equals that sum whenever the sum is below 2^63. A negative offset reads nothing. |
| `ElfLoader.AlignDown` | fs/exec/elf-loader.cpp:135 | The page boundary at or below x. |
| `ElfLoader.AlignUp` | fs/exec/elf-loader.cpp:172 | The page boundary at or above x. |
| `ElfLoader.NextPageLeast` | fs/exec/elf-loader.cpp:135-139 | `nextpage_vaddr` is always the smallest page boundary strictly above `current_vaddr`. |
| `ElfLoader.NextPageOfBoundary` | fs/exec/elf-loader.cpp:139 | From a page boundary, adding `__page_size` is the next boundary. |
| `ElfLoader.AlignUpUnaligned` | fs/exec/elf-loader.cpp:162-172 | For an unaligned `vaddr`, `__align_up_page(vaddr)` is the next page boundary, so the first partial copy ends there. |
| `ElfLoader.PageCopy` | fs/exec/elf-loader.cpp:151-204 | A visited page gets a copy iff it starts below the end of the file data. The copy starts at `current_vaddr`, is non-empty, ends at the next boundary or the end of the file data, whichever is first, and reads `offset + (current - vaddr)`. In the last case, `current < file_end < nextpage`, so the asserts hold. |
| `ElfLoader.TilesSnoc` | fs/exec/elf-loader.cpp:207-210 | A copy that starts where the tiled range ends extends the tiling. |
| `ElfLoader.MapStep` | fs/exec/elf-loader.cpp:143-147 | Mapping the current page keeps "every address visited so far is mapped, and nothing else is". |
| `ElfLoader.CopyStep` | fs/exec/elf-loader.cpp:148-210 | Adding the current page's copy keeps the copies within pages, at the right offsets, and tiling up to the next boundary. |
| `ElfLoader.LoadSegment` | fs/exec/elf-loader.cpp:134-211 | Every copy stays within one page and uses `offset + (va - vaddr)`. Every page the segment overlaps is mapped, and no other page is added. With `filesz <= memsz` the copies tile `[vaddr, vaddr + filesz)` exactly, so pages at or past the end of the file data get none. |
| `ElfLoader.StrnEqual` | fs/exec/elf-loader.cpp:220 | `strncmp(a, b, n) == 0`: equal up to position n, or up to a NUL both strings share. `StrnEqualName` characterises it against a NUL-free name. |
| `ElfLoader.StrnEqualName` | fs/exec/elf-loader.cpp:220 | Against a NUL-free name `b`, `strncmp(a, b, n) == 0` iff `a` agrees with `b` on every position below n that `b` has, and, when n runs past `b`, `a` has a NUL where `b` ends. |
| `ElfLoader.InterpNameCheck` | fs/exec/elf-loader.cpp:215-227 | Any `filesz`: a segment of at most 24 bytes passes iff its bytes are a prefix of `__INFOS_DYNAMIC_LINKER__`. A longer segment passes iff its first 25 bytes are the name and its terminating NUL. |
| `ElfLoader.TerminatedNamePasses` | fs/exec/elf-loader.cpp:215-227 | The usual payload, the name with its NUL, passes for every `filesz` of 25 or more. |
| `ElfLoader.LoadEntries` | fs/exec/elf-loader.cpp:89-244 | The program header loop: the first entry that cannot be read, or the first PT_INTERP naming another interpreter, with every earlier entry read and accepted. Then NULL if any PT_INTERP occurred, with every entry read and accepted. A process iff every entry is readable and none is PT_INTERP, with each PT_LOAD planned and mapped and only overlapped pages mapped. |
| `ElfLoader.Load` | fs/exec/elf-loader.cpp:37-266 | A bad header is returned iff a check fails, with that check. Then come the first unreadable entry, the first PT_INTERP with another name (every earlier entry read and accepted in both cases), and NULL for any PT_INTERP at all. A failed command-line copy is returned iff the header is good, every entry is readable and none is PT_INTERP, and a non-empty command line did not copy. A process is returned iff the header is good, every entry is readable, none is PT_INTERP, and the command line is empty or copied. Each PT_LOAD then has its copy plan and its pages mapped, every mapped page overlaps some PT_LOAD segment, and the entry argument is 0x102000 for a non-empty command line and NULL otherwise. |
| `PageAllocators.PgdToPfn` | include/infos/mm/page-allocator.h:78-84 | `pgd_to_pfn`: the 64-bit byte offset from the array, divided by the descriptor size. `PgdToPfnIndex` and `PgdToPfnRoundTrip` state what it returns. |
| `PageAllocators.PgdToPfnIndex` | include/infos/mm/page-allocator.h:78-84 | `pgd_to_pfn` of descriptor i's address is i: the byte offset divided by `sizeof(PageDescriptor)`. |
| `PageAllocators.PfnToPgd` | include/infos/mm/page-allocator.h:101-106 | As written: NULL iff `pfn > _nr_pages`. |
| `PageAllocators.PfnToPgdRoundTrip` | include/infos/mm/page-allocator.h:78-106 | `pgd_to_pfn(pfn_to_pgd(pfn)) == pfn` for every non-NULL result. |
| `PageAllocators.PfnToPgdPastEnd` | include/infos/mm/page-allocator.h:103-105 | `pfn == _nr_pages` is accepted, and the address returned is not a descriptor. |
| `PageAllocators.PfnToPgdChecked` | include/infos/mm/page-allocator.h:101-106 | With the bound `pfn >= _nr_pages`: NULL exactly for frame numbers without a descriptor. Otherwise the result is a descriptor, and it converts back to `pfn`. |
| `PageAllocators.DescriptorInArray` | include/infos/mm/page-allocator.h:105 | `&_page_descriptors[i]` for i < `_nr_pages` is a descriptor of the array. |
| `PageAllocators.PgdToPfnRoundTrip` | include/infos/mm/page-allocator.h:78-106 | Every descriptor's frame number is below `_nr_pages` and converts back to that descriptor. |
| `PageAllocators.AllocPage` | include/infos/mm/page-allocator.h:74 | `alloc_page()` is allocation at order 0: NULL iff every list is empty, and then nothing changes. Otherwise one frame inside the whole top blocks, taken from the lowest non-empty list; the lists are `Split` down to order 0 and the free frames drop by one; the split-off halves are flagged free and the returned frame is flagged 1. |
| `PageAllocators.FreePage` | include/infos/mm/page-allocator.h:76 | `free_page(p)` is `free` at order 0, for any frame count and any frame inside the whole top blocks: the merge and final insertion of `Free` with order 0. |

## Left out

- `index_of` is not a separate member. Frames are named by their index in the descriptor array, so `page - _page_descriptors` is the identity on those names.
- `remove_block` (mm/buddy-allocator.cpp:85-89) is never called, so it is not modelled.
- Buddy.BuddyAllocator.RemoveSpecificBlock: scans list `order` by position, not by the source's `first()`/`next(current)` cursor.
  - `Buddy.CursorWalksByPosition` proves the two walks are the same when the list has no repeated index.
  - On a list with repeats the source's walk can cycle forever (`Buddy.CursorCycles`). The positional scan always ends.
  - No invariant in the model rules repeats out, because the stale merge in "## Findings" breaks the invariants that would.
- Buddy.BuddyAllocator.Initialise: requires `count <= 2^31 - 2^17`. The source's loop counter is a signed 32-bit `int`, compared with `(int)nr_page_descriptors`, and it would overflow past that bound. Larger counts are not modelled.
- Buddy.BuddyAllocator.Initialise: requires the new descriptor array to be a different object from the free-list array. This is an artefact of holding both as Dafny arrays; in the source they cannot alias.
- Buddy.BuddyAllocator.Free: follows the merge loop as written (`Coalesce`), including the stale-buddy merge. The corrected loop `CoalesceChecked` is modelled and proved beside it. It is not wired into `Free`, because the allocator's behaviour is the as-written one.
- Buddy.BuddyAllocator.Free: requires the freed block to be order-aligned and to lie inside the whole top blocks (`WholeFrames(nrFrames)`), which is the case for every block `initialise` lists and `allocate` splits off. Freeing frames of the partial tail that `initialise` never lists is a caller error that can read past the descriptor array in the source, and is not modelled.
- The `BITS` macro is not a member of its own. Its four uses are expanded in `X86Vma.VaTableIndices`, where its `int` mask `(1 << 9) - 1` is exact.
- The `VMA` method bodies (vma.cpp, with the page-table walk, `allocate_virt`, `copy_to`, `create_unused_ptes`, `dump`) are not part of this model. The cookie API is modelled only from its documentation:
  - one leaf per virtual page, keyed by the page address as a number;
  - a leaf is unused, holds a cookie, or is a present mapping.
- `__page_size`, `__align_down_page` and `__align_up_page` come from headers that are not part of this model. They are taken to be 4096 and rounding down and up to a multiple of it.
- ElfLoader.LoadSegment: addresses are unbounded naturals. `uintptr_t` wrap-around of `vaddr + filesz`, `vaddr + memsz` and `nextpage_vaddr` is not modelled.
- ElfLoader.Load: the file is abstracted:
  - `bytes` is the header read's result;
  - a map from file offsets to the program headers that can be read there (a missing offset is a short `pread`);
  - each PT_INTERP entry's name bytes.
  - for the command line, its text and whether its `copy_to` succeeded.
  The returned values of `allocate_virt`, `pread` and the segments' `copy_to`, which the source ignores, are not modelled. A loaded process is abstracted to its mapped pages, per-header copy plans and entry argument.
- ElfLoader.Load: an entry's `interp` stands for the `new char[filesz]` buffer after its `pread`. When `interp` is shorter than `filesz` (a short read), `CharAt` reads the missing bytes as NUL, whereas the source's buffer holds uninitialised bytes there.
- ElfLoader.Load: a negative `off_t` offset for a program header reads nothing. The file object's `pread` is not part of this model.
- ElfLoader.Load: the user stack (fs/exec/elf-loader.cpp:246), the allocation of the command-line page (:251), `Process` construction and deletion, and all logging are I/O and foreign calls, and are left out. The command-line copy's outcome is a parameter.
- PageAllocators.AllocPage and PageAllocators.FreePage call the buddy allocator directly. `alloc_pages`/`free_pages` (page-allocator.cpp), with their locking and any algorithm indirection, are not part of this model.
- `pgd_to_pa`, `pgd_to_vpa`, `pgd_to_kva` and `vpa_to_pgd` use conversions from headers that are not part of this model.
- `PageAllocator::init`, `setup_page_descriptors` and `self_test` are also not part of this model.
- The mutex and all multi-core locking are concurrency, and are left out.
- C++ `new`/`delete` of list nodes and buffers are treated as infallible allocation. Freed nodes are not tracked.

## Findings

| source | as written | input that shows it | evidently intended | confidence | as-written member | corrected member |
|---|---|---|---|---|---|---|
| mm/buddy-allocator.cpp:56-58 | `free` merges with the buddy whenever the buddy's base flag is 0. It does not check that the buddy is a free block of the current order, and `remove_specific_block` silently does nothing when the buddy is not on the list. | On 2^17 frames: `initialise`, `allocate(1)` (returns 0), `allocate(0)` (2), `allocate(0)` (3), `free(2, 0)`, `free(0, 1)`. Frame 2 is free only at order 0, yet block 0 merges with it up to order 17. The lists then hold block 0 at order 17 and frame 2 at order 0, 2^17 + 1 frames, while frame 3 is allocated. | Merge only with a buddy that is on list `order`, so the lists' frames plus the freed block are conserved. | not executed | `BuddyScenarios.StaleMerge` | `Buddy.CoalesceChecked` |
| include/infos/mm/page-allocator.h:103 | `pfn_to_pgd` returns NULL only when `pfn > _nr_pages`. | `pfn == _nr_pages` returns the address one past the last descriptor. | `pfn >= _nr_pages` returns NULL, so every non-NULL result is a descriptor. | not executed | `PageAllocators.PfnToPgdPastEnd` | `PageAllocators.PfnToPgdChecked` |
