# Verified models of the lab programs

This project models the parts of the repository that do the hardest work, and proves what they are for.
Each Dafny file follows one source file; where the source works by updating memory step by step, so does
the model, and every such method is proved against a specification whose own properties are proved beside it.

| file | source | what is modelled |
|---|---|---|
| `Basics.dfy` | | arithmetic and small types that several models share |
| `HeapModel.dfy` | `malloc lab/mm.c` | the abstract heap: blocks that tile it, ten free lists, the program's operations as steps, and the invariant `Good` |
| `HeapPolicy.dfy` | `malloc lab/mm.c` | which block `malloc` chooses, what each step does to the live blocks, and the counts of the checker |
| `HeapWords.dfy` | `malloc lab/mm.c` | how 32-bit words hold a state (`Rep`): boundary tags, and lists threaded through free payloads; what each write does to both |
| `Allocator.dfy` | `malloc lab/mm.c` | class `Heap`: the program over an array of words, reads and writes as in the source |
| `HeapRuns.dfy` | `malloc lab/mm.c` | whole runs of `malloc`, `free`, `realloc` and writes by the owners of blocks |
| `HeapClient.dfy` | `malloc lab/mm.c` | a client that makes any sequence of calls and writes; what the program then does is such a run |
| `HeapChecks.dfy` | `malloc lab/mm.c` | what `mm_checkheap` tests in any heap whose walks end, and that sound heaps pass |
| `Transpose.dfy` | `cache lab/cachelab-handout/trans.c` | the three cache-blocked transposes, in place on two-dimensional arrays |
| `RioReader.dfy` | `proxy lab/proxylab-handout/csapp.c` | the buffered reader over a `read()` that may be interrupted, fail, or return few bytes |
| `SioFormat.dfy` | `proxy lab/proxylab-handout/csapp.c` | the in-place integer printer |
| `CacheSim.dfy` | `cache lab/cachelab-handout/csim.c` | the set-associative cache simulator over any trace |
| `FloatBits.dfy` | `data lab/bits.c` | integer/binary32 conversion and doubling, against IEEE 754-2008 (sections 3.4, 4.3.1, 5.8) |
| `CommandLine.dfy` | `shell lab/tsh.c` | `parseline`, a tokenizer that cuts its buffer into C strings in place |
| `CommandSpelling.dfy` | `shell lab/tsh.c` | which command lines are well formed, in any quotes and with any white space, what they mean, and which mistakes are errors |
| `ObjectCache.dfy` | `proxy lab/proxylab-handout/cache.c` | the byte-bounded doubly linked object list |

`dafny verify dfyconfig.toml` checks everything.

## How to read the allocator

`HeapModel.State` is the abstract state: the blocks keyed by address, the ten lists, and the set `loose` of free
blocks that are on no list in the middle of an operation. `Good` is the invariant that `mm_checkheap` looks for,
without bounds on its counts: the blocks tile the heap from prologue to epilogue, sizes are multiples of 8 and at
least 16, addresses are multiples of 8, no two free blocks touch, and each list holds, once each, exactly the free
blocks of its size range. `HeapWords.Rep` says that the words hold such a state: equal header and footer for every
block, prologue and epilogue, and next and previous links that are inverse around every ring. `Heap.Valid` is both
together. `Kept(m, m', bs)` says that no word of an allocated payload of `bs` differs between `m` and `m'`.

Assumptions: the base of the heap is a multiple of 8; the heap is at most 2^32 bytes, because links and sizes are
32-bit words; a request is at most `MAX_REQUEST` = 2^64 - 16 bytes, and `HeapPolicy.AdjustExact` shows that the
rounding in `malloc` wraps exactly above that; `free` and `realloc` get a live block or NULL; words are little-endian.
`mem_sbrk` is not part of this model's source files: `Heap.Sbrk` is a bounded bump over the region that the constructor
of `Heap` allocates, may fail at any time, and hands out words of unknown content; `Heap.asked` records
every call and whether it was granted. Addresses are offsets from `first_listp`; `basep` is `heap_basep`, with 0 for NULL.

## Results that are not what one might expect

- The digits that `sio_ltoa` leaves denote its argument exactly if the argument is not negative (`SioFormat.TextDenotes`).
- An object is cached as it was received exactly if it has no NUL byte followed by another byte within its length, because
  it is copied with `strncpy` (`ObjectCache.StrncpyFaithful`).
- After a hit in the object cache, the list is properly doubly linked exactly if the object found was already the first:
  the line moved to the front keeps its previous link (`ObjectCache.Cache.Promote`).
- `float_f2i` undoes `float_i2f` exactly for zero and the integers of the form m x 2^k with m below 2^24 (`FloatBits.RoundTrip`).
- `parseline` gives back up to 126 arguments, files and background flag from their quoted form exactly if the flag is set
  or the last argument does not begin with `&`; with 127 arguments there is room for neither files nor flag
  (`CommandLine.RenderParse`).
- `realloc` copies whole old blocks, so when the block grows it copies the old footer and the following header too. This
  changes no other payload and no tag (`Allocator.Heap.CopyPayload`).

## Model

| member | source | states |
|---|---|---|
| `HeapModel.UnlistGood` | malloc lab/mm.c:196-199 | taking a free block off its list keeps the invariant, with that block loose |
| `HeapModel.EnlistGood` | malloc lab/mm.c:180-191 | putting a loose block with allocated neighbours at the front of the bucket of its size keeps the invariant |
| `HeapModel.CutGood` | malloc lab/mm.c:230-245 | splitting a loose block keeps tiling, alignment, lists and separation, with only the remainder loose |
| `HeapModel.PlaceGood` | malloc lab/mm.c:227-252 | both branches of place lead from the full invariant to the full invariant |
| `HeapModel.MergeGood` | malloc lab/mm.c:267-318 | in all four cases the melted block tiles the heap, is aligned and is the only unlisted free block |
| `HeapModel.RunMaximal` | malloc lab/mm.c:267-318 | what is melted is all the free memory around the block: only free blocks, and neither neighbour free |
| `HeapModel.CoalesceMaximal` | malloc lab/mm.c:267-318 | coalesce puts one free block over that run and leaves every other block as it was |
| `HeapModel.CoalesceGood` | malloc lab/mm.c:267-318 | from one freed, unlisted block, coalesce restores the whole invariant |
| `HeapModel.CoalesceFirst` | malloc lab/mm.c:267-318 | the melted block is at the front of the list of its new size |
| `HeapModel.EmptyGood` | malloc lab/mm.c:412-426 | the heap with only table and walls satisfies the invariant |
| `HeapPolicy.LogBucket` | malloc lab/mm.c:201-221 | the bit length of size / 16, capped at 9, is the bucket of the documented size ranges |
| `HeapPolicy.BucketMonotone` | malloc lab/mm.c:201-221 | a larger size never has an earlier bucket, so a search may skip the earlier ones |
| `HeapPolicy.AdjustExact` | malloc lab/mm.c:451-456 | the rounded size holds payload and tags exactly for requests up to 2^64 - 16; then it is a multiple of 8, at least 16, and less than 16 too large |
| `HeapPolicy.ExtendBlock` | malloc lab/mm.c:323-338 | after an extension the last block is free, listed, holds all new bytes and ends at the new top |
| `HeapPolicy.BestEnd` | malloc lab/mm.c:343-390 | when a walk from the bucket of asize has ended, nothing found means nothing anywhere fits, and what was found is the best there is |
| `HeapPolicy.FirstFound` | malloc lab/mm.c:350-364 | below 128 bytes the first fit in walking order comes before every other block that fits |
| `HeapPolicy.ChosenIsFound` | malloc lab/mm.c:343-390 | the block chosen is free and fits; below 128 bytes it is the first such, from there on none that fits is smaller |
| `HeapPolicy.PlaceLive` | malloc lab/mm.c:227-252 | place makes exactly one more block live, with at most 8 spare bytes |
| `HeapPolicy.FreeLive` | malloc lab/mm.c:478-488 | free keeps the invariant and ends the life of exactly that block, whatever is merged |
| `HeapPolicy.ObtainedLive` | malloc lab/mm.c:459-471 | a block found or obtained by extension is new, large enough, and no other live block is moved, resized or freed |
| `HeapPolicy.MallocLive` | malloc lab/mm.c:440-472 | malloc fails and changes nothing, or adds exactly one live block, not live before, with room for the request |
| `HeapPolicy.FreeInBucketsStep` | malloc lab/mm.c:653-692 | walking one more bucket counts exactly its free blocks |
| `HeapPolicy.FreeCounts` | malloc lab/mm.c:697-714 | the free blocks in the ten buckets are the free blocks in the heap |
| `HeapWords.InsertRep` | malloc lab/mm.c:180-191 | the four link writes insert the block at the front of its ring and disturb no other ring, tag, wall or payload |
| `HeapWords.DeleteRep` | malloc lab/mm.c:196-199 | the two link writes take the block out of its ring and disturb no other ring, tag, wall or payload |
| `HeapWords.CutRep` | malloc lab/mm.c:233-241 | the four tag writes of a split represent the split heap |
| `HeapWords.MergeRep` | malloc lab/mm.c:278-315 | two tag writes over the whole run represent the merged heap, although stale tags remain inside |
| `HeapWords.AppendRep` | malloc lab/mm.c:327-335 | the new block's tags and the new epilogue represent the larger heap, whatever mem_sbrk's words contain |
| `HeapWords.PayloadWrite` | malloc lab/mm.c:519-519 | a write inside an allocated payload leaves tags, lists and all other payloads alone |
| `HeapWords.CopyResult` | malloc lab/mm.c:508-520 | the bytes copied before the old block is freed are still there afterwards |
| `HeapWords.CopyKept` | malloc lab/mm.c:508-520 | malloc, copy and free together change no payload but the old and the new one |
| `Allocator.Heap.InsFreeBlk` | malloc lab/mm.c:180-191 | the program's writes realise Enlist and change no live payload |
| `Allocator.Heap.DelFreeBlk` | malloc lab/mm.c:196-199 | the program's writes realise Unlist and change no live payload |
| `Allocator.Heap.ListIndex` | malloc lab/mm.c:205-221 | the shifting loop returns the bucket of the documented range |
| `Allocator.Heap.Place` | malloc lab/mm.c:227-252 | place on words realises Place on states, keeps the full invariant, and changes no live payload |
| `Allocator.Heap.Coalesce` | malloc lab/mm.c:267-318 | the four cases on words realise Coalesce on states, restore the full invariant, and return the start of the run |
| `Allocator.Heap.ExtendHeap` | malloc lab/mm.c:323-338 | mem_sbrk is asked once for the even number of words; refused, nothing has changed and the answer is NULL; granted, the heap is the old one extended by so much and coalesced |
| `Allocator.Heap.FirstFitBucket` | malloc lab/mm.c:354-360 | the walk of one ring ends; it returns the chosen block, or nothing so far fits |
| `Allocator.Heap.BestFitBucket` | malloc lab/mm.c:373-384 | the walk of one ring ends with the best of all blocks seen so far |
| `Allocator.Heap.FindFit` | malloc lab/mm.c:343-390 | NULL exactly if every free block anywhere is smaller; else a free block that fits, below 128 bytes the first in order of bucket and list, and from there on no larger than any other that fits and the first of its size |
| `Allocator.Heap.ExtendAndPlace` | malloc lab/mm.c:465-469 | mem_sbrk is asked once, for the rounded size or 512 bytes, whichever is more; NULL exactly if it refuses, and else the block is cut from the run that ends in the new bytes |
| `Allocator.Heap.Malloc` | malloc lab/mm.c:440-472 | malloc keeps the invariant and changes no live payload; it asks mem_sbrk once if the size is not 0 and no free block fits, and otherwise not at all; NULL exactly for size 0 or if mem_sbrk refuses, and then no word has changed |
| `Allocator.Heap.Free` | malloc lab/mm.c:478-488 | free keeps the invariant and every remaining payload; free(NULL) changes nothing |
| `Allocator.Heap.Memcpy` | malloc lab/mm.c:519-519 | byte-wise copy between disjoint regions, writing nothing else |
| `Allocator.Heap.CopyPayload` | malloc lab/mm.c:514-519 | the copy of min(old block size, size) bytes stays inside the new payload and disturbs nothing else |
| `Allocator.Heap.Realloc` | malloc lab/mm.c:494-523 | to size 0 it frees; else NULL exactly if mem_sbrk is asked and refuses, and then every live block is unchanged; else the first min(old payload, size) bytes are the old ones, the old block is freed, and no other payload changes |
| `Allocator.Heap.Init` | malloc lab/mm.c:399-434 | mem_sbrk is asked for 96 bytes and, if these are granted, for 4096; success exactly if both are granted; then the heap is valid and holds one free block of 4096 bytes, and else nothing was obtained or the valid empty heap is left |
| `Allocator.Heap.CheckHeapInit` | malloc lab/mm.c:557-571 | in any heap: no complaint exactly if heap_basep is not NULL, aligned and in the heap |
| `Allocator.Heap.CheckWalls` | malloc lab/mm.c:576-602 | in any heap with these words: no complaint exactly if prologue and epilogue hold 9, 9 and 1 |
| `Allocator.Heap.CheckBlock` | malloc lab/mm.c:616-645 | no complaint exactly if the block is aligned, its header equals its footer, and it is allocated or followed by an allocated one |
| `Allocator.Heap.CheckNode` | malloc lab/mm.c:663-681 | no complaint exactly if the member is in the heap, in the list of its size, and the previous of its next |
| `Allocator.Heap.CheckEachBlock` | malloc lab/mm.c:607-648 | in any heap whose walk ends: no complaint exactly if every block passes, and the count is that of the free headers met |
| `Allocator.Heap.CheckBucket` | malloc lab/mm.c:661-688 | in any list whose walk ends: no complaint exactly if every member is in the heap, in the list of its size, and the previous of its next; all members are counted |
| `Allocator.Heap.CheckFreeList` | malloc lab/mm.c:653-692 | no complaint exactly if all ten lists pass, and the count is that of all members |
| `Allocator.Heap.CheckHeap` | malloc lab/mm.c:697-714 | in any heap whose walks end, sound or not, mm_checkheap is silent exactly if every test holds: heap_basep, walls, all blocks, all lists, and equal counts |
| `Allocator.Heap.CheckSound` | malloc lab/mm.c:697-714 | on a valid heap mm_checkheap is silent |
| `HeapChecks.WalkSound` | malloc lab/mm.c:607-648 | in a valid heap the walk from any block ends, every block on it passes, and it meets all free blocks from there on |
| `HeapChecks.ListsSound` | malloc lab/mm.c:653-692 | in a valid heap the walk of each list ends, every member passes, and the members are as many as the free blocks |
| `HeapChecks.SoundPasses` | malloc lab/mm.c:557-714 | a valid heap can be looked through and passes every test, the two counts included |
| `HeapRuns.RunHonours` | malloc lab/mm.c:399-523 | after any run of malloc, free and realloc the invariant holds and the live blocks are exactly those owed to the caller, each large enough |
| `HeapRuns.PayloadsSafe` | malloc lab/mm.c:440-472 | in every reachable state pointers owed are multiples of 8, payloads have the requested size, lie in the heap and are disjoint, tags between them |
| `HeapRuns.FreshPointer` | malloc lab/mm.c:440-523 | malloc and realloc never return a pointer that is still owed |
| `HeapRuns.TiledTotal` | malloc lab/mm.c:323-338 | the sizes of blocks that tile the heap, in whatever order they are added, come to its length |
| `HeapRuns.RunConserves` | malloc lab/mm.c:399-523 | in every reachable state the block sizes add up to the bytes obtained from mem_sbrk less the 96-byte preamble |
| `HeapRuns.RunTop` | malloc lab/mm.c:399-523 | the heap never shrinks |
| `HeapRuns.FreeAllLeavesOne` | malloc lab/mm.c:478-488 | once everything owed is freed, in whatever order, one free block is left that is the whole heap; only a heap without any block, which a successful mm_init rules out, has none |
| `HeapRuns.RunKeepsPayload` | malloc lab/mm.c:440-523 | between any two points of a run a payload changes only if its owner writes, frees or reallocates it |
| `HeapRuns.WrittenIsRead` | malloc lab/mm.c:440-523 | a word written into a payload is there at any later point, unless it is written again or the block is freed or reallocated |
| `HeapClient.ServeOne` | malloc lab/mm.c:440-523 | any one request makes the program take the step it calls for, NULL pointers included, and the client's account follows; NULL is the answer to a request of some bytes exactly if mem_sbrk refuses |
| `HeapClient.Replay` | malloc lab/mm.c:399-523 | after mm_init succeeds, any sequence of requests makes the program's words and states a run, so all results on runs hold of it; in the end exactly the blocks owed are live; mm_init fails or some request of some bytes is answered by NULL exactly if mem_sbrk has refused |
| `Transpose.IsTranspose` | cache lab/cachelab-handout/trans.c:194-206 | returns 1 exactly on transposes |
| `Transpose.Trans` | cache lab/cachelab-handout/trans.c:155-170 | the row-wise scan transposes any shape |
| `Transpose.Transpose32` | cache lab/cachelab-handout/trans.c:36-58 | the unrolled strips write every cell of the 32 x 32 transpose and no other |
| `Transpose.Transpose67` | cache lab/cachelab-handout/trans.c:129-140 | the clamped tiles write every cell of the 61 x 67 transpose and no other |
| `Transpose.ParkRow` | cache lab/cachelab-handout/trans.c:73-90 | one row of the upper half: left part home, right part parked four columns off, nothing else touched |
| `Transpose.UnparkRow` | cache lab/cachelab-handout/trans.c:94-111 | parked cells are moved four rows down with the values they had before being overwritten, nothing else touched |
| `Transpose.Block64` | cache lab/cachelab-handout/trans.c:64-125 | the three phases transpose one 8 x 8 block and disturb no cell outside it |
| `Transpose.Transpose64` | cache lab/cachelab-handout/trans.c:61-126 | for every A and any initial B the result is the transpose |
| `Transpose.TransposeSubmit` | cache lab/cachelab-handout/trans.c:29-143 | for N = 32, 64 and 67 the first 32, 64 and 61 rows of B are transposed and further rows left alone, for any other N all rows; so B is the transpose exactly if the rows left alone already held it |
| `RioReader.Rio.constructor` | proxy lab/proxylab-handout/csapp.c:823-828 | a fresh reader has everything in the stream still to deliver |
| `RioReader.Rio.Refill` | proxy lab/proxylab-handout/csapp.c:795-806 | with bytes in the buffer nothing happens; else bytes move from the stream to the buffer without loss; fails exactly if the first read() that is not interrupted fails |
| `RioReader.Rio.RefillEmpty` | proxy lab/proxylab-handout/csapp.c:795-806 | read() is called up to the first outcome that is not EINTR and no further; an error is reported and the stream left alone, else the buffer holds exactly the bytes it gave, or there were none |
| `RioReader.Rio.Attempt` | proxy lab/proxylab-handout/csapp.c:796-805 | one call of read() is told apart exactly: EINTR, another error, end of file, or bytes |
| `RioReader.Rio.Read` | proxy lab/proxylab-handout/csapp.c:791-816 | delivered bytes followed by those still pending are the bytes pending before; with bytes in the buffer it delivers min(n, these) without calling read(), else -1 exactly if the first read() that is not interrupted fails; nothing delivered means end of file or n = 0 |
| `RioReader.Rio.ReadN` | proxy lab/proxylab-handout/csapp.c:835-851 | -1 exactly if the last read() of the call failed, and no earlier one did; else exactly min(n, bytes remaining) are delivered; in any case none is lost |
| `RioReader.Rio.ReadLine` | proxy lab/proxylab-handout/csapp.c:857-880 | -1 exactly if the last read() of the call failed, and no earlier one did; else exactly the bytes to the first newline, maxlen - 1 or end of file are delivered, then a NUL unless nothing was read; in any case none is lost |
| `RioReader.ReportsOn` | proxy lab/proxylab-handout/csapp.c:791-880 | errors are reported over several calls: if none failed before, all fail exactly if the last read() did |
| `RioReader.LineLenSpec` | proxy lab/proxylab-handout/csapp.c:857-880 | a line has no newline before its last byte, is at most maxlen - 1 long, and stops only at a newline, that length, or the end |
| `RioReader.RepliesArePrefix` | proxy lab/proxylab-handout/csapp.c:835-880 | the replies to any interleaving of requests, joined, are a prefix of the stream |
| `RioReader.Serve` | proxy lab/proxylab-handout/csapp.c:791-880 | for any interleaving of both calls, any chunking and any interruptions, the client ends early exactly if a read() fails, at the first that does; else the replies are those computed from the plain stream |
| `SioFormat.DigitsEval` | proxy lab/proxylab-handout/csapp.c:232-241 | for v >= 0 the digits, reversed, are a numeral in base b that evaluates to v |
| `SioFormat.TextDenotes` | proxy lab/proxylab-handout/csapp.c:232-241 | the text denotes v exactly if v >= 0, and then begins with 0 only for v = 0; for negative v the text itself is given |
| `SioFormat.DigitsLength` | proxy lab/proxylab-handout/csapp.c:232-241 | a k-bit number has at most k digits |
| `SioFormat.SioReverse` | proxy lab/proxylab-handout/csapp.c:220-229 | the string before the terminator is reversed in place, the rest is untouched |
| `SioFormat.PutDigits` | proxy lab/proxylab-handout/csapp.c:236-238 | the do-while loop leaves the digits, least significant first |
| `SioFormat.SioLtoa` | proxy lab/proxylab-handout/csapp.c:232-241 | the array holds the text and its terminator, and nothing beyond is written |
| `CacheSim.AccessOk` | cache lab/cachelab-handout/csim.c:156-212 | an access keeps the valid lines a prefix with distinct tags, and leaves the tag in the set |
| `CacheSim.AccessHolds` | cache lab/cachelab-handout/csim.c:156-212 | after an access a set holds the tag accessed and otherwise only tags it held; without eviction it holds all of them |
| `CacheSim.FirstMin` | cache lab/cachelab-handout/csim.c:177-205 | the line evicted is the first with the smallest counter |
| `CacheSim.MaxAccessed` | cache lab/cachelab-handout/csim.c:157-205 | the value that the scan keeps is the largest counter of the set |
| `CacheSim.MissNewest` | cache lab/cachelab-handout/csim.c:189-205 | a line brought in has the tag and a counter one above the largest, so above all others; no other line changes |
| `CacheSim.HitRaises` | cache lab/cachelab-handout/csim.c:166-172 | a hit adds 1 to the counter of the line that has the tag and changes nothing else |
| `CacheSim.Ledger` | cache lab/cachelab-handout/csim.c:130-252 | after any trace hits + misses = operations + modifies, and misses - evictions = valid lines, at most 2^s x E |
| `CacheSim.StepHolding` | cache lab/cachelab-handout/csim.c:130-213 | an access misses exactly if its block is not held; afterwards it is held, and only an eviction drops another |
| `CacheSim.HeldIsSeen` | cache lab/cachelab-handout/csim.c:130-252 | only blocks referenced before are ever held |
| `CacheSim.MissesCoverBlocks` | cache lab/cachelab-handout/csim.c:130-252 | after any trace there are at least as many misses as distinct blocks referenced |
| `CacheSim.FullMissCrowds` | cache lab/cachelab-handout/csim.c:202-212 | an eviction means that its set has seen more than E tags, the new one included |
| `CacheSim.UncrowdedNeverEvicts` | cache lab/cachelab-handout/csim.c:130-252 | if no set sees more than E tags there is no eviction, and the misses are the distinct blocks |
| `CacheSim.DirectMappedHit` | cache lab/cachelab-handout/csim.c:130-252 | with E = 1 an access hits exactly if the latest access to its set had the same tag |
| `CacheSim.StepCounter` | cache lab/cachelab-handout/csim.c:156-212 | a block that an operation leaves in the cache has the counter it had, plus 1 if the operation was on it |
| `CacheSim.CounterCounts` | cache lab/cachelab-handout/csim.c:130-252 | over any operations during which a block stays in the cache, its counter grows by exactly the accesses to it |
| `CacheSim.SplitFaithful` | cache lab/cachelab-handout/csim.c:139-153 | the 64-bit shifts give tag and set index, and address = tag x 2^(s+b) + set x 2^b + offset |
| `CacheSim.SameLineIffSameBlock` | cache lab/cachelab-handout/csim.c:139-153 | two addresses share tag and set exactly if they are in the same 2^b-byte block |
| `CacheSim.Scan` | cache lab/cachelab-handout/csim.c:156-185 | the one loop finds the matching line, else the first invalid line, else the first with the smallest counter, and the largest counter |
| `CacheSim.Locate` | cache lab/cachelab-handout/csim.c:139-153 | the shifts compute the tag and the set of the address's block |
| `CacheSim.Simulator.constructor` | cache lab/cachelab-handout/csim.c:111-127 | the cache starts with 2^s sets of E invalid lines and zero counters |
| `CacheSim.Simulator.Apply` | cache lab/cachelab-handout/csim.c:154-212 | only the addressed set changes, to the set after the access; counters and result code follow the effect |
| `CacheSim.Simulator.Execute` | cache lab/cachelab-handout/csim.c:130-213 | one instruction is one step of the cache; only the addressed set changes, and that set, the code 1 to 5 and what is added to hits, misses and evictions are spelled out for hit, empty line and eviction |
| `CacheSim.HitExecuted` | cache lab/cachelab-handout/csim.c:166-172 | on a hit: code 2, one hit or for a modify two, and the counter of the matching line one more |
| `CacheSim.MissExecuted` | cache lab/cachelab-handout/csim.c:189-212 | on a miss: the first invalid line, or else the first with the smallest counter, is filled with one more than the largest counter; a modify hits once; codes 1 and 3, for a modify 4 and 5 |
| `CacheSim.Simulator.Replay` | cache lab/cachelab-handout/csim.c:226-252 | the loop over a trace computes the cache after that trace |
| `FloatBits.AndField` | data lab/bits.c:420-432 | a mask of n ones above lo zeros selects that field |
| `FloatBits.NoneBetween` | data lab/bits.c:393-434 | no binary32 magnitude lies between neighbouring significands of one exponent |
| `FloatBits.NormaliseScale` | data lab/bits.c:420-423 | the loop's invariant: each doubling lowers the exponent by one, at most 31 times |
| `FloatBits.RoundedNearest` | data lab/bits.c:425-432 | the rounded fraction, carry into the exponent included, is nearest with ties to even |
| `FloatBits.I2fNearest` | data lab/bits.c:393-434 | for every 32-bit integer no finite binary32 number is nearer, and a tie goes to an even significand |
| `FloatBits.NearestUnique` | data lab/bits.c:393-434 | two words of one sign that are both nearest to a value, ties to even, are the same word |
| `FloatBits.I2fDetermined` | data lab/bits.c:393-434 | a word is the result for x exactly if it is nearest to x, ties to even, and negative just if x is |
| `FloatBits.FloatI2f` | data lab/bits.c:393-434 | for every 32-bit integer, the smallest included, whose negation wraps, the bit manipulation gives the nearest word, ties to even, negative exactly for negative integers; for 0 it is +0 |
| `FloatBits.IntegerPartOf` | data lab/bits.c:456-477 | for a value of magnitude at least one, the integer part is the leading one at its place plus the fraction shifted there, without the bits below one |
| `FloatBits.F2iHuge` | data lab/bits.c:463-465 | infinities, NaNs and values of magnitude 2^31 or more give 0x80000000 |
| `FloatBits.F2iTruncates` | data lab/bits.c:447-483 | for finite words below 2^31 in magnitude, abs(result) <= magnitude < abs(result) + 1, and a result other than 0 has the sign of the word; for all others it is 0x80000000 |
| `FloatBits.FloatF2i` | data lab/bits.c:447-483 | for all 2^32 arguments the shifts and masks compute the value truncated toward zero, or 0x80000000 when it is 2^31 or more in magnitude, infinite or NaN |
| `FloatBits.TwiceDoubles` | data lab/bits.c:359-383 | doubling is exact and keeps the sign; above the largest exponent it is infinity, and no finite number would be the double |
| `FloatBits.FloatTwice` | data lab/bits.c:359-383 | for all 2^32 arguments the shifts and masks compute the double, exact and of the same sign below the largest exponent; infinities and NaNs come back unchanged |
| `FloatBits.NearestMonotone` | data lab/bits.c:393-434 | rounding to nearest never reverses an order |
| `FloatBits.TwiceI2f` | data lab/bits.c:359-434 | float_twice(float_i2f(x)) = float_i2f(2x) whenever 2x fits |
| `FloatBits.I2fMonotone` | data lab/bits.c:393-434 | float_i2f is monotone in value |
| `FloatBits.I2fExact` | data lab/bits.c:393-434 | up to 2^24 in magnitude float_i2f is exact |
| `FloatBits.RoundTrip` | data lab/bits.c:393-483 | for every 32-bit integer, float_f2i(float_i2f(x)) = x exactly if x is zero or m x 2^k in magnitude with 1 <= m < 2^24 |
| `FloatBits.ShortIffDropsNothing` | data lab/bits.c:420-432 | the eight bits that float_i2f drops after normalising are zero exactly for those integers |
| `FloatBits.RoundTripSmall` | data lab/bits.c:393-483 | all integers up to 2^24 in magnitude come back |
| `FloatBits.LongRounded` | data lab/bits.c:425-432 | an integer that loses bits is rounded to another integer |
| `CommandLine.RenderParse` | shell lab/tsh.c:245-370 | any number of single-quoted arguments, optional files and & come back from their rendering exactly if: with 1 to 126 arguments, & is given or the last does not begin with &; with 127, neither files nor & is given and the last does not begin with &; with none, & is given; with more, never |
| `CommandLine.ScanFull` | shell lab/tsh.c:335-336 | the 127th argument ends the scan, whatever follows |
| `CommandLine.RenderMeans` | shell lab/tsh.c:245-370 | what the rendering of any arguments and files means in every case |
| `CommandLine.ParseRendered` | shell lab/tsh.c:245-370 | on a rendered line that fits the buffer, the pointers left in the buffer are C strings with the arguments and files that the rendering means; if these come back, they are those rendered, and flag and built-in command are right |
| `CommandLine.ScanArgs` | shell lab/tsh.c:299-338 | any number of quoted arguments is collected in order, whatever follows |
| `CommandLine.ScanFile` | shell lab/tsh.c:279-297 | a redirection mark and a quoted name set the file and nothing else |
| `CommandLine.FindIsFirst` | shell lab/tsh.c:299-303 | a quoted token ends at the first matching quote |
| `CommandLine.WordLenEnds` | shell lab/tsh.c:303-306 | a plain token extends to the first white space or the end |
| `CommandLine.SpaceLenEnds` | shell lab/tsh.c:275-277 | exactly the leading white space is skipped |
| `CommandLine.PointsKept` | shell lab/tsh.c:315-338 | writes at or beyond the cursor leave the tokens recorded before it as they were |
| `CommandLine.Terminate` | shell lab/tsh.c:315-316 | the terminator makes the token a C string, and leaves earlier tokens and the rest of the line alone |
| `CommandLine.TakeToken` | shell lab/tsh.c:299-338 | one token is cut, recorded where the flags say, and the cursor moves past it; an error means a malformed line |
| `CommandLine.ParseTokens` | shell lab/tsh.c:271-339 | the loop ends, fails only on malformed lines, and otherwise every recorded pointer is a C string with the text of its token |
| `CommandLine.ParseLine` | shell lab/tsh.c:245-370 | -1 exactly for NULL and malformed lines; else flag, files and arguments are those the line means, and the built-in command is quit, jobs, bg or fg exactly if the first argument is that word, and none of them without arguments |
| `CommandLine.FindBuiltin` | shell lab/tsh.c:352-362 | each of the four built-in commands is found exactly for its own name |
| `CommandSpelling.ScanItems` | shell lab/tsh.c:271-339 | any number of tokens and redirections, in either kind of quotes or none and with any white space, is read as spelled, whatever follows |
| `CommandSpelling.SpelledLine` | shell lab/tsh.c:245-370 | a line so spelled means the words spelled, up to 127 arguments, with & found as the source finds it; it is malformed exactly if a file is given twice before that |
| `CommandSpelling.BothFlags` | shell lab/tsh.c:279-344 | once both redirections wait for a name, the line is malformed whatever follows |
| `CommandSpelling.MistakenLine` | shell lab/tsh.c:279-344 | a redirection without a name, one redirection after another, or a quote not closed makes the line malformed, whatever came before in good order |
| `ObjectCache.StrncpyFaithful` | proxy lab/proxylab-handout/cache.c:82-82 | the stored copy equals the object exactly if no NUL is followed by another byte |
| `ObjectCache.StrncpyByte` | proxy lab/proxylab-handout/cache.c:82-82 | each byte is copied exactly up to the first NUL, and all after that are NUL |
| `ObjectCache.TrimShortest` | proxy lab/proxylab-handout/cache.c:115-127 | eviction keeps what fits, and keeping one object more would not fit |
| `ObjectCache.NewestThatFit` | proxy lab/proxylab-handout/cache.c:69-93 | evicting at each addition keeps the same objects as taking the longest run of newest objects that fits |
| `ObjectCache.Replay` | proxy lab/proxylab-handout/cache.c:21-93 | after init_cache and any calls of add_object, the linked list is well formed and holds the longest run of newest objects that fits |
| `ObjectCache.Cache.constructor` | proxy lab/proxylab-handout/cache.c:21-25 | an empty list with all bytes remaining |
| `ObjectCache.Cache.Insert` | proxy lab/proxylab-handout/cache.c:98-108 | the line becomes the first; the list is doubly linked exactly if the line's previous link was NULL |
| `ObjectCache.Cache.Remove` | proxy lab/proxylab-handout/cache.c:132-146 | exactly this line leaves the list, and both directions still describe the same list |
| `ObjectCache.Cache.Evict` | proxy lab/proxylab-handout/cache.c:115-127 | exactly the shortest tail that makes room is removed, and the remaining size stays right |
| `ObjectCache.Cache.AddObject` | proxy lab/proxylab-handout/cache.c:69-93 | the list stays doubly linked, remaining size plus lengths is MAX_CACHE_SIZE, and the contents are those of the bounded list with strncpy's copy of the object in front; the list holds lines it held before and the new one |
| `ObjectCache.Cache.Find` | proxy lab/proxylab-handout/cache.c:31-53 | the first line with the tag, or NULL exactly if there is none |
| `ObjectCache.Cache.Promote` | proxy lab/proxylab-handout/cache.c:54-61 | a hit moves the line to the front of the next chain; the list stays doubly linked exactly if it was first already |

## Left out

Weaker than the code, or with a reading of their own:

- Allocator.Heap.Realloc: the contract promises the old payload; that up to 8 bytes beyond it are copied too is used in the proof and not promised.
- Allocator.Heap.Init: pointers are offsets from first_listp, so the addresses kept in static variables are not modelled.
- Allocator.Heap.CheckHeap: complaints are counted instead of printed, and nothing is said of heaps whose walks do not end.
- RioReader.Rio.ReadN: the return value is an unbounded integer, so a count beyond the range of ssize_t is not modelled.
- RioReader.Rio.ReadLine: the counter at csapp.c:859 is an int, unbounded in the model, so a line of 2^31 - 1 or more bytes is not modelled.
- RioReader.Serve: stands for any client of one rio_t; it is not a function of the source, and neither are HeapClient.Replay, ObjectCache.Replay and CommandLine.ParseRendered.
- CacheSim.Simulator.Execute: takes a parsed instruction, and its counters do not overflow; sets are sequences of lines held in one array, not separately allocated.
- CommandLine.ParseLine: lines of 1024 characters or more are not modelled; such a line would leave the buffer without a terminator. Messages on standard error are left out.
- ObjectCache.Cache.AddObject: the stored bytes are the length bytes that strncpy writes; the rest of the buffer is not modelled, and neither is the limit of MAXLINE bytes for the uri that strcpy writes to tag. Unsigned wrap-around of the sizes cannot occur under its invariant and is not modelled.
- SioFormat.SioLtoa: the argument is an unbounded integer; with DigitsLength a long needs at most 63 digits.

Not modelled:

- calloc, which clears its result without testing for NULL and multiplies without testing for wrap-around; debug output; the inside of mem_sbrk.
- Least-recently-used order in the simulator: a hit adds 1 to a counter and a miss sets the largest plus 1, which is not that policy. Reading trace files, arguments and the summary are left out too.
- Cache-miss counts of the transposes, and transpose_submit with fewer columns M than it assumes for its N, where it reads and writes outside the arrays.
- The locks of the object cache, its time order under hits, and free_cache, which only runs before exit.
- Job control, signals, processes and redirection effects of the shell.
- The proxy itself, the socket, address and thread wrappers, and the error wrappers of csapp.c.
- The bomb and attack labs, and the one-line bit puzzles of bits.c.
