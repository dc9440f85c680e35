# Allocator toolkit and game bookkeeping, modelled in Dafny

This project models two things. The first is the memory-allocator toolkit of the single-header library `src/my.h`:
- `fz_align_to_power_of_two`;
- the stretch-buffer array (`fz__vec_*` and the `fz_Vec_*` macros);
- the arena (bump) allocator with its temporary marks;
- the LIFO stack allocator;
- the fixed-slot pool allocator;
- the best-fit free-list allocator with forward coalescing.

The second is the small integer routines of the game in `src/main.cpp` that use them:
- `spawn_entity`;
- the resets of `change_game_state`;
- the high-score update of `perform_player_death` with `scoresort`.

Each allocator is an immutable record over natural-number addresses, and each operation is a pure function from state to state. The source's `assert`s become `requires`. A pointer is an address, and a buffer is the range `[base, base + capacity)`. Alignment is applied to absolute addresses, as in the C code. Sizes are those of a 64-bit target:
- a stack header is 16 bytes;
- a free-list size word is 8;
- the free-list prev/next links are 16;
- a pool link is 8;
- the array header is 24.

`size_t` wrap-around is written out (`Mem.SubWrap`) wherever a subtraction in the source can go negative. Byte contents are abstract: a `memmove` is recorded as a `Mem.Move(src, dst, count)` value, so the direction and the length of a copy are visible.

Modules, one per file:
- `Mem` (mem.dfy): header sizes, `SubWrap`, and the `Grant` / `Resized` results.
- `Align` (align.dfy).
- `Arena` (arena.dfy).
- `Stack` (stack.dfy).
- `Pool` (pool.dfy): the free list is the sequence of slot addresses from the head.
- `Freelist` (freelist.dfy): the free list is a sequence of `Node(addr, size)` in list order, and the blocks handed out are a map from address to size. `Valid` states four things:
  - every free node and live block lies in the aligned buffer and can carry its links;
  - no two of them overlap;
  - free plus live bytes account for the whole aligned buffer;
  - the buffer fits the 64-bit address space.
- `FreelistLinks` (freelist_links.dfy): the same free list as the actual `prev`/`next` pointer fields, with the sentinel. It proves that the link stores of allocate and free rebuild exactly the circular list that `Freelist` describes.
- `Vec` (vec.dfy): `caps`, `used`, and a storage sequence of length `caps`.
- `Scores` (scores.dfy) and `Game` (game.dfy).

Where the code as written breaks a property its design evidently intends, the model keeps both versions. An `…AsWritten` member follows the code, and a lemma exhibits the failure. The member without the suffix is the corrected one; the property is proved about it, and the rest of the model uses it. See "## Findings".

## Model

| member | source | states |
|---|---|---|
| Mem.SubWrap | src/my.h:801 | size_t subtraction: the true difference when it is non-negative, 2^64 minus the shortfall otherwise, always below 2^64 |
| Align.AlignUp | src/my.h:171-185 | for a power-of-two size the result is a multiple of it, at least the input and less than input + size; it equals the input exactly when the input is already aligned |
| Align.AlignUpIsLeast | src/my.h:171-185 | the result is the least multiple of size that is at least the input |
| Align.AlignUpIdempotent | src/my.h:171-185 | aligning an aligned value changes nothing |
| Align.AlignUpMonotone | src/my.h:171-185 | a larger input never aligns to a smaller boundary |
| Arena.Init | src/my.h:649-656 | a non-null buffer gives an empty valid arena over it; a null buffer leaves the arena unchanged |
| Arena.Pushed | src/my.h:673 | a request below the 16-byte push alignment becomes exactly 16; any other request is kept |
| Arena.Padding | src/my.h:690-695 | the padding is below 16 and brings memory + used to a 16-byte boundary |
| Arena.Allocate | src/my.h:671-707 | under the strict capacity assertion, the block is 16-aligned, starts less than 16 bytes past the old watermark, ends exactly at the new watermark, and the watermark stays below the capacity |
| Arena.Free | src/my.h:710-713 | freeing leaves the arena unchanged |
| Arena.ReallocAsWritten | src/my.h:663-704 | as written: the last block is kept in place with no copy, and the watermark rises by the 16-aligned growth `size - old_size`, or not at all when the block shrinks, with no capacity check; any other block is relocated exactly as a fresh allocation, with the copy running from the new block into the old one |
| Arena.Realloc | src/my.h:663-704 | as intended: the arena stays valid; the last block grows in place and the watermark rises by the 16-aligned growth `size - old_size` (not at all when it shrinks); any other block is relocated exactly as a fresh allocation, past the old watermark, with its old_size bytes copied from old to new; the block handed back holds the request |
| Arena.BeginTemp | src/my.h:725-730 | the mark records the current watermark |
| Arena.EndTemp | src/my.h:732-734 | only the watermark moves, back to the mark |
| Arena.AllocateEach | src/my.h:671-707 | a run of allocations keeps buffer and capacity, never lowers the watermark, and keeps it below the capacity |
| Arena.TempScopeRestores | src/my.h:725-734 | whatever was allocated since begin_temp, end_temp gives back exactly the arena at the mark |
| Arena.RewindThenAllocate | src/my.h:690-700 | after a rewind, the next block starts at or after the saved watermark |
| Arena.ReallocAsWrittenOverrunsBuffer | src/my.h:678-687 | as written, growing the last block past the end of the buffer succeeds in place and leaves the arena invalid |
| Arena.ReallocAsWrittenOverrunExample | src/my.h:678-687 | a 64-byte arena whose last block is grown to 1000 bytes ends with its watermark at 1024 |
| Arena.ReallocAsWrittenCopiesBackwards | src/my.h:702-704 | as written, a relocated block's copy goes from the fresh block into the old one, never to the address handed back |
| Stack.Init | src/my.h:742-747 | an empty valid stack over the buffer, prev and current at 0 |
| Stack.Padding | src/my.h:763-766 | the padding is below 16 and brings base + current to a 16-byte boundary |
| Stack.Allocate | src/my.h:760-780 | with a fixed capacity: the header (old prev, padding) goes at the aligned address, the block follows it and ends at the new current inside the buffer, and the new block is the top (prev = old current); validity is kept |
| Stack.AllocateAsWritten | src/my.h:760-780 | as written: the same block and prev, but caps advances with current, so caps - current never changes |
| Stack.Free | src/my.h:782-792 | only the top block is freed: current returns to prev and prev to the header's saved offset, and validity is kept |
| Stack.FreeAsWritten | src/my.h:782-792 | as written: the same prev and current, and caps shrinks by the size of the block now on top |
| Stack.ReallocAsWritten | src/my.h:794-807 | as written: the pointer is returned unchanged and current never goes down |
| Stack.Realloc | src/my.h:794-807 | as intended: the top block is extended, inside the buffer, to hold size bytes from ptr; current never goes down, a request the block already holds leaves the stack unchanged, nothing but current changes, and validity is kept |
| Stack.AllocateThenFree | src/my.h:760-792 | freeing the block just allocated restores the stack, apart from the stale header word |
| Stack.AllocateThenFreeAsWritten | src/my.h:776-791 | as written, the round trip restores prev and current but leaves caps changed by the block size minus the previous top block's size |
| Stack.BuriedBlockIsNotTop | src/my.h:784-787 | once a second block is allocated, the first is no longer on top, so the LIFO assertion refuses it |
| Stack.NestedFreeRestores | src/my.h:760-792 | allocate A, allocate B, free B, free A: the stack is back where it started, apart from header words |
| Stack.AsWrittenCapacityDrift | src/my.h:768-777 | as written, caps - current is the same after any number of allocations |
| Stack.OverrunFirstStep | src/my.h:768-777 | the first 16-byte block on a 64-byte stack is accepted, and caps rises to 96 |
| Stack.OverrunSecondStep | src/my.h:768-777 | the second is accepted, and caps rises to 128 |
| Stack.OverrunThirdStep | src/my.h:768-777 | the third is accepted at address 80, past the 64-byte buffer |
| Stack.FixedCapacityRefusesSecond | src/my.h:768 | with a fixed capacity, the same stack refuses the second block |
| Stack.ReallocAsWrittenNeverGrows | src/my.h:801-804 | as written, prev - current wraps, so realloc never extends a top block for any request that fits in the address space |
| Stack.ReallocAsWrittenExample | src/my.h:801-804 | a 16-byte block grown to 64 leaves current at 32 as written, and at 80 as intended |
| Pool.Init | src/my.h:819-841 | memory_size / element_size slots, chained in ascending address order with the head at the buffer start, each slot wholly inside the buffer and on the element grid, no repeats |
| Pool.InitLinkStoresAsWritten | src/my.h:831 | the as-written loop performs available_count - 1 link stores when at least one slot fits |
| Pool.InitAsWrittenOverrunsSmallBuffer | src/my.h:824-835 | when no slot fits, the as-written loop count wraps to 2^64 - 1 and its second store lies outside the buffer, while Init leaves the list empty |
| Pool.Allocate | src/my.h:856-866 | fails exactly when the list is empty; otherwise it hands out the head and drops it from the list, and validity (every free address starts a whole slot on the element grid, no repeats) is kept with the block no longer free |
| Pool.Free | src/my.h:868-879 | an in-range block goes on the head and nothing else changes; from a valid pool the result is valid exactly when the address starts a whole slot on the element grid and is not already free, since the range check lets a double free or a mid-slot address through |
| Pool.FreeMisalignedExample | src/my.h:868-877 | freeing address 1 of a pool of two 32-byte slots is accepted, the list becomes 1, 0, 32, and the invariant is broken |
| Pool.FreeThenAllocate | src/my.h:856-879 | the block freed last is the block allocated next, and the pool is back where it was |
| Pool.AllocateMany | src/my.h:856-866 | a successful run of n allocations hands out n addresses |
| Pool.DrainHandsOutFreeList | src/my.h:856-866 | allocating as many blocks as are free hands out exactly the free list in order, and the next allocation fails |
| Freelist.Init | src/my.h:896-910 | one node at the first 16-byte boundary, spanning to the end of the buffer; a buffer too small for the size word makes the size wrap |
| Freelist.InitValid | src/my.h:896-910 | a fresh free list is valid exactly when the buffer holds a whole list node after the alignment padding |
| Freelist.Scan | src/my.h:926-939 | as intended: the scan result is the first of the smallest nodes that hold the request, or none when no node does |
| Freelist.Select | src/my.h:926-943 | best fit: none exactly when every node is smaller than the request, otherwise the first of the smallest fitting nodes |
| Freelist.ScanAsWritten | src/my.h:926-939 | the as-written scan returns a list position, either the starting candidate or one it visited |
| Freelist.SelectAsWritten | src/my.h:926-943 | as written, a node is chosen only when it is strictly larger than the request, and an empty list fails |
| Freelist.ScanAsWrittenStopsAtExact | src/my.h:930-933 | an exact fit ahead of the scan ends it on a node of exactly the request size |
| Freelist.SelectAsWrittenRejectsExactFit | src/my.h:930-943 | any node of exactly the rounded size makes the as-written allocation fail, while best fit hands out such a node |
| Freelist.ScanAsWrittenKeepsSmallCandidate | src/my.h:927-937 | while the candidate is too small, only an exact fit replaces it |
| Freelist.SelectAsWrittenFailsOnSmallHead | src/my.h:927-943 | when the first node is too small, the as-written allocation fails whatever else is free |
| Freelist.SelectAsWrittenMissesFitExample | src/my.h:927-943 | free nodes of 16 and 64 bytes and a 32-byte request: as written it fails, and best fit picks the second node |
| Freelist.ScanAgrees | src/my.h:929-939 | with a fitting candidate and no exact fit, the as-written scan makes the best-fit choice |
| Freelist.SelectAgreesWhenHeadFits | src/my.h:926-943 | when the head fits and no node fits exactly, the as-written selection is best fit |
| Freelist.SplitValid | src/my.h:945-956 | splitting keeps the invariant when the block and the rest can each carry the links |
| Freelist.SplitAccounting | src/my.h:947-951 | a split keeps free + live bytes the same |
| Freelist.WholeValid | src/my.h:957-964 | handing out a whole node keeps the invariant |
| Freelist.WholeAccounting | src/my.h:957-964 | handing out a whole node keeps free + live bytes the same |
| Freelist.Request | src/my.h:921 | for a non-zero size, the rounded request is a multiple of 16, at least the size and less than size + 16, so it always holds the list links |
| Freelist.AllocateAsWritten | src/my.h:921-964 | as written: fails exactly when the as-written selection does; otherwise the block is live and holds the request |
| Freelist.Allocate | src/my.h:921-964 | fails exactly when no node holds the rounded request; otherwise it hands out the address after the size word of a best-fitting node k and adds only that block to the live map; when k splits, the block is exactly the request and k's rest, request + 8 bytes further on and that much smaller, stays at k's list position; otherwise k leaves the list and the block is all of it; no other node changes and the invariant is kept |
| Freelist.CarveFacts | src/my.h:945-964 | carving node k keeps the invariant, hands out the address after k's size word, and either leaves k's rest in k's place with exactly the request handed out or removes k whole |
| Freelist.SplitAsWrittenLeavesRunt | src/my.h:945-956 | a node at least twice the request, but smaller than the request plus a list node, splits as written into a rest too small for its links, and the invariant breaks |
| Freelist.AllocateAsWrittenLeavesRuntExample | src/my.h:945-956 | a 16-byte request on a 32-byte node leaves an 8-byte node as written; as intended the node is handed out whole |
| Freelist.NodeAt | src/my.h:975-984 | the first free node starting at the address, or none exactly when no node starts there |
| Freelist.CoalesceAccounting | src/my.h:987-992 | merging the freed block into the following node keeps free + live bytes the same |
| Freelist.PrependAccounting | src/my.h:993-998 | pushing the freed block on the head keeps free + live bytes the same |
| Freelist.Free | src/my.h:967-999 | the block leaves the live map; when a free node starts right after it, that node is replaced in place by one starting at the block's size word and holding block, size word and node together, so the list keeps its length and order; otherwise the block goes on the head as a node of its own size |
| Freelist.FreeValid | src/my.h:967-999 | free keeps the invariant |
| Freelist.FreeReturnsBytes | src/my.h:967-999 | the freed bytes, size word included, return to the free list, and a node now starts at the block's size word holding at least the block |
| Freelist.Realloc | src/my.h:1001-1015 | for a larger size: fails exactly when no node holds the request; otherwise the invariant is kept, the new block is fresh and holds the size, the old block is freed, and block_size bytes are copied from old to new |
| Freelist.SplitThenFree | src/my.h:945-999 | freeing a block just split off a node merges it back and restores the free list exactly |
| Freelist.WholeThenFree | src/my.h:957-999 | freeing a node handed out whole restores the live blocks and the free bytes |
| Freelist.AllocateThenFree | src/my.h:921-999 | allocate then free restores the live blocks and the free bytes, and restores the list exactly when the allocation split its node |
| FreelistLinks.Init | src/my.h:904-909 | the sentinel and the first node form a two-element ring |
| FreelistLinks.UnlinkRing | src/my.h:957-960 | unlinking a node removes exactly it from the ring, the rest keeping their order |
| FreelistLinks.ReplaceRing | src/my.h:952-956 | a fresh node put in a node's place changes only that position of the ring |
| FreelistLinks.PushFrontRing | src/my.h:993-998 | the intended head insertion yields the ring with the new node first |
| FreelistLinks.PushFrontAsWrittenBreaksRing | src/my.h:995-997 | the as-written head insertion never yields that ring, because the old head's prev still names the sentinel |
| FreelistLinks.LostNodeExample | src/my.h:957-960 | free a block onto a one-node list, then allocate the old node whole: as written the sentinel then points at itself and the freed block is lost; as intended it is the only node |
| FreelistLinks.SplitRestIsFresh | src/my.h:949 | the rest of a split node starts inside it, so at no free node's address |
| FreelistLinks.FreedHeaderIsFresh | src/my.h:971 | a freed block's size word lies inside the block, so at no free node's address |
| FreelistLinks.CarveKeepsRing | src/my.h:945-960 | after allocating from a valid free list, the prev/next links form exactly the new free list, in its order |
| FreelistLinks.FreeKeepsRing | src/my.h:967-999 | after free, the prev/next links form exactly the new free list, in its order |
| Vec.Create | src/my.h:619-628 | a valid empty array with the requested capacity |
| Vec.NextCap | src/my.h:604-607 | the new capacity exceeds the needed length, is the old one doubled zero or more times, and is the old one or at most twice the length |
| Vec.GrownCaps | src/my.h:602-607 | with an empty capacity counted as 1, the grown capacity exceeds used + grow_count and is never below the old one |
| Vec.Grow | src/my.h:598-617 | growing keeps used and the contents, sets the grown capacity, and leaves room for grow_count more |
| Vec.GrowSizes | src/my.h:608-611 | as intended, the old size is the block create allocated and the new size holds the header and the grown storage |
| Vec.GrowSizesAsWrittenShort | src/my.h:608-611 | the as-written old and new sizes are each one header short of the intended ones |
| Vec.GrowSizesAsWrittenExample | src/my.h:602-611 | a full array of two 8-byte elements grown by one needs 56 bytes, and 32 are requested as written |
| Vec.MaybeGrow | src/my.h:218-219 | grows only a full array; contents and used are kept |
| Vec.Length | src/my.h:212 | 0 for a null array, used otherwise |
| Vec.Capacity | src/my.h:213 | 0 for a null array, caps otherwise |
| Vec.Push | src/my.h:225 | the contents become the old contents plus the object; the capacity changes only when the array was full |
| Vec.Pop | src/my.h:226 | the last element is dropped from the contents and handed back; storage and capacity are kept |
| Vec.Last | src/my.h:228 | the last element of the contents |
| Vec.Clear | src/my.h:227 | a non-null array is emptied with its storage kept and yields 1; a null array yields 0 |
| Vec.RemoveUnordered | src/my.h:230 | the last element takes slot i and the array shrinks by one |
| Vec.RemoveUnorderedDropsOne | src/my.h:230 | the contents lose exactly one copy of element i |
| Vec.RemoveOrdered | src/my.h:229 | as intended, the contents are those before i followed by those after i |
| Vec.RemoveOrderedAsWrittenOverreads | src/my.h:229 | on a full array, the as-written memmove reads one element past the storage |
| Vec.RemoveOrderedAsWrittenAgrees | src/my.h:229 | on a non-full array, the as-written removal has the intended contents |
| Vec.SetLength | src/my.h:214 | as intended, the length is set exactly when it grows the array within its capacity, keeping the old contents as a prefix; otherwise nothing changes and the value is 0 |
| Vec.SetLengthAsWrittenOverflows | src/my.h:214 | the as-written condition sets a length past the capacity and refuses every length that fits |
| Vec.PushThenPop | src/my.h:225-226 | pop after push hands back the object and the original contents |
| Vec.PushThenLast | src/my.h:225-228 | the object pushed last is the last element |
| Vec.PushAll | src/my.h:225 | pushing a run of objects counts each of them |
| Vec.PushAllAppends | src/my.h:225 | a run of pushes appends exactly the objects, in order |
| Vec.PushAllWithinCapacity | src/my.h:218-225 | pushing onto an array with room for every object never grows it |
| Scores.ScanLowest | src/main.cpp:236-243 | the loop's result is -1 when no entry is below the score, else the first position holding the minimum, which is below the score |
| Scores.FindLowest | src/main.cpp:236-243 | -1 exactly when every entry is at least the score; otherwise the first position of the table's minimum, which is below the score |
| Scores.ReplaceLowest | src/main.cpp:244-246 | the table is kept when nothing is below the score; otherwise it loses that minimum and gains the score |
| Scores.Insert | src/main.cpp:226-228 | inserting into a non-increasing sequence keeps it non-increasing and adds exactly the element |
| Scores.SortDescending | src/main.cpp:226-228 | a non-increasing permutation of the table |
| Scores.DescendingUnique | src/main.cpp:248 | two non-increasing arrangements of the same entries are equal, so qsort's table is determined whatever order it visits ties in |
| Scores.UpdateHighScores | src/main.cpp:236-248 | the new table is non-increasing, keeps its size, and is a permutation of the table after replacement |
| Scores.ScoreEntersTable | src/main.cpp:236-248 | the score is on the new table exactly when it beat some entry or was already there |
| Scores.DroppedIsLowest | src/main.cpp:236-248 | every surviving entry other than the score is at least the dropped entry, and the dropped entry is below the score |
| Game.SpawnEntity | src/main.cpp:252-265 | the slot is the lowest free one among 1 to 1023, or 0 exactly when all are taken; that slot gets the type and a cleared being_destroyed, and no other slot changes |
| Game.ClearEntities | src/main.cpp:199-201 | every entity's type becomes ENTITY_NONE and nothing else changes |
| Game.ChangeGameState | src/main.cpp:192-215 | the state is recorded and hitting_wall set to -1; entering STATE_PLAYING also frees every slot, keeping each being_destroyed flag, and zeroes score, combo and additional_score; nothing else changes, the high-score table included |
| Game.PerformPlayerDeath | src/main.cpp:230-250 | the bonus is added to the score, the combo counters reset, and the state becomes STATE_PLAYER_DIED; the table keeps its size, is non-increasing, and is a permutation of the table with the lowest entry below the score replaced |
| Game.DeathThenReplayKeepsTable | src/main.cpp:192-250 | starting a new round after a death keeps the table the death produced and zeroes the score |
| Game.DeathTableDetermined | src/main.cpp:226-248 | any non-increasing arrangement of the updated entries is the table the death produces |
| Game.SpawnTwice | src/main.cpp:252-265 | after the slots are cleared, two spawns receive slots 1 and 2 |

## Left out

- Heap and platform wrappers are not modelled: `fz_platform_*`, `fz_heap_operation`, and `xmalloc` / `xfree` / `xrealloc` / `xcalloc`. They are thin calls into the C runtime.
- The global allocator (`fz_set_allocator`, `fz_set_temp_allocator`, `fz_nil_operation`) and the `fz_*_allocator` constructors are not modelled. They only store pointers in a struct.
- Byte contents are not modelled. A `memmove` is a `Move` record, and the zeroing `memset`s of the pool are not represented at all.
- `fz__vec_release` and `fz__vec_sort` are not modelled. One hands the block back to the allocator and the other is a plain `qsort` call. The sorting property is stated for the score table in `Scores`.
- The ring allocator is not modelled because it is declared but has no body. The hash map is not modelled because it is compiled out.
- `fz_ScopeExit` and `fz_Temp_Block` are not modelled. They are C++ scope helpers.
- Pool reallocation is not modelled, since the source marks that path unreachable.
- Size_t overflow of additions is not modelled, only of the subtractions listed above. This covers arena and stack watermarks, pool slot addresses, and free-list block ends.
- Vec.NextCap: the 32-bit `int` overflow of `caps`, `used` and the doubling loop is not modelled, because the integers are unbounded.
- Vec.Push: requires a non-null array. The source dereferences the header of a null array.
- Vec.Pop: requires a non-empty array. The source's `used--` underflows on an empty one.
- Vec.Create: slots not yet in use hold a caller-chosen fill value. In the source their contents are unspecified.
- Freelist.Free: requires a block that is live and not already free. This is stronger than the source's range assertion. The source reads whatever size word precedes the pointer, so any other pointer is undefined behaviour.
- Freelist.Allocate: requires a non-zero size, as the allocator interface asks of its callers. The source does not check it: a zero request rounds to 0 and splits the chosen node 8 bytes in, so the rest node's size and links are written over the chosen node's own links (my.h:949-956). That corruption is not modelled.
- Freelist.AllocateAsWritten: requires a non-zero size, for the same reason. The contract does not state validity, because the as-written split can break it (see the findings).
- Pool.Allocate: on an empty free list the source still zeroes `size` bytes at the null chunk (my.h:859-864), which is undefined behaviour. The model returns None, the failure the allocator's design describes, and does not model that write.
- Vec.RemoveUnordered: requires an index below the length. The macro does not check it: for a larger index it pops the last element into a slot outside the contents, or past the storage.
- Vec.RemoveOrdered: requires an index below the length. The macro does not check it: for a larger index `Length - i` wraps as a `size_t`, and the move runs far past the storage.
- Vec.Last: requires a non-empty array. On an empty one the source reads index -1, before the first element.
- Stack.Realloc: requires the grown block to stay inside the buffer. The source has no capacity check on this path (my.h:794-807). As written the wrapped size keeps the block from ever growing, so the missing check is never reached (see the findings).
- Scores.Insert: scoresort's `b - a` can overflow `int` for scores of opposite sign near the limits. The model compares exactly.
- Game.PerformPlayerDeath: the bonus from `calc_additional_score` is a float product truncated to `int`, and it is taken as an integer input. The score addition does not wrap.
- Game.ChangeGameState: the float timers, the time scale and the player fields it resets are not modelled. Entity fields other than `type` and `being_destroyed` are not modelled either.
- Rendering, audio, input, physics, `interval_tick` and the main loop of the game are not modelled.

## Findings

| source | as written | input that shows it | evidently intended | confidence | as-written member | corrected member |
|---|---|---|---|---|---|---|
| src/my.h:702-704 | a relocated block is copied with `memmove(ptr, memory, old_size)`, from the fresh block into the old one | any realloc of a block that is not the last one | copy the old contents into the new block | high, not executed | Arena.ReallocAsWrittenCopiesBackwards | Arena.Realloc |
| src/my.h:678-687 | the last block grows in place with no capacity check | a 64-byte arena, last block 16 bytes at 16, realloc to 1000: watermark 1024 | the same strict capacity check as allocation | high, not executed | Arena.ReallocAsWrittenOverrunsBuffer | Arena.Realloc |
| src/my.h:777-791 | `caps` grows with every allocation and shrinks on free, so the capacity assertion never counts earlier blocks | three 16-byte blocks on a 64-byte stack: the third lands at 80 | a fixed capacity | high, not executed | Stack.AsWrittenCapacityDrift | Stack.Allocate |
| src/my.h:801 | `prev - current` is negative for every top block and wraps, so realloc never grows it | a 16-byte block at the bottom of a stack grown to 64: current stays at 32 | the block's size is `current - (ptr - base)`, and the extension is checked against the capacity like an allocation | high, not executed | Stack.ReallocAsWrittenNeverGrows | Stack.Realloc |
| src/my.h:831 | the loop bound `available_count - 1` wraps when no slot fits | memory_size 16, element_size 32: the bound wraps to 2^64 - 1, so the loop writes past the buffer from its second store (the `int` index overflows long before the bound) | an empty pool | medium, not executed | Pool.InitAsWrittenOverrunsSmallBuffer | Pool.Init |
| src/my.h:927, 935 | the candidate starts at the first node even when it is too small, and only an exact fit can replace it | free nodes of 16 and 64 bytes, request 32: allocation fails | best fit among the fitting nodes | high, not executed | Freelist.SelectAsWrittenFailsOnSmallHead | Freelist.Select |
| src/my.h:930-943 | an exact fit ends the scan, and then the `<=` check rejects it | a free node of exactly the rounded request | hand out the exact fit | high, not executed | Freelist.SelectAsWrittenRejectsExactFit | Freelist.Allocate |
| src/my.h:945-951 | a node at least twice the request is split even when the rest cannot hold its own links | a 32-byte node and a 16-byte request: an 8-byte rest node | split only when the rest holds a list node | high, not executed | Freelist.AllocateAsWrittenLeavesRuntExample | Freelist.Allocate |
| src/my.h:995-997 | head insertion leaves the old head's prev pointing at the sentinel | free a block onto a one-node list, then allocate that node whole: the freed block is lost | set the old head's prev to the new node | high, not executed | FreelistLinks.PushFrontAsWrittenBreaksRing | FreelistLinks.PushFrontRing |
| src/my.h:608-611 | grow passes old and new sizes without the 24-byte header | two 8-byte elements, full, grow by one: 32 bytes requested for 56 used | sizes of the whole block, header included | high, not executed | Vec.GrowSizesAsWrittenShort | Vec.GrowSizes |
| src/my.h:229 | the ordered remove moves `Length - i` elements, one too many | a full array: the move reads one slot past the storage | move `Length - i - 1` elements | high, not executed | Vec.RemoveOrderedAsWrittenOverreads | Vec.RemoveOrdered |
| src/my.h:214 | SetLength applies only when the length exceeds the capacity | caps 4, used 1, length 3: refused; length 5: applied past the storage | apply when `used < len <= caps` | medium, not executed | Vec.SetLengthAsWrittenOverflows | Vec.SetLength |
