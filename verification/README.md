# BGET and the Q31 inlines, modelled and proved

This project models the heap of the firmware, the BGET buffer allocator in
`libs/bget/bget.c`, and a handful of fixed-point inlines of
`libs/CMSIS/Include/arm_math.h`, and proves what they are for.

`dafny verify dfyconfig.toml` checks everything.

## The allocator

BGET keeps three views of one memory. Blocks tile each pool, each with a signed size. Each header
carries a back tag, the size of the block before it if that is free. A circular doubly linked list with
its head outside the pools runs through all free blocks. The configuration is the one compiled into the
firmware (`libs/bget/bget.c:406-444`): best fit, wiping with 0x55, statistics, validation, automatic
expansion; headers of 8, 12 and 16 bytes, a quantum of 4.

The model has two levels.

* **Bytes.** The class `Allocator.Bget` has the static variables of `bget.c` as fields and memory as an
  array of bytes. Its methods do what the C functions do, load by load and store by store: headers are
  little-endian 32-bit words at aligned addresses, a size is a two's complement word, 0 is the null
  pointer. Every consistency assert of the entry points is an `assert` in the method
  (`size > 0` and the release function's presence are what callers must see to).
* **Blocks.** `Heap.Heap` is a value: pools as sequences of blocks, the free list as a sequence of addresses,
  the directly acquired blocks, the settings of `bectl`, the counters. The functions `Get`, `Rel`,
  `AddPool` say what the entry points do to it.

`Valid()` ties the two: the invariant `Heap.Inv` holds of the value, and memory shows exactly that value
(`Image.ImageOf`). Every method of the class equates its new value with a function of the old one, and says
through `Frames.Kept` that no byte of another live buffer has changed. `Contents.RunData` says, without a look
at memory, which bytes the buffers hold after a run of writes, clears, reallocations and releases, and `Perform`
proves that memory shows them. Since `Valid()` is kept, the
asserts hold in every run. What the allocator promises is then proved about the value: `Runs` quantifies over all runs of
legal calls, and the modules after it take one promise each.

| file | what is in it |
|---|---|
| `Memory` | bytes, words, loads, stores, `memset`, `memcpy`, `memcmp` |
| `Blocks`, `Pools` | blocks of a pool, layouts, splices; several pools |
| `Heap`, `Tallies`, `HeapFacts` | the value, its invariant, the operations, and that each keeps the invariant |
| `Image`, `Live`, `Frames`, `Joins`, `Growth` | what memory shows, and what each operation's stores do to that |
| `Fit`, `Serve`, `Client`, `Validate` | best fit, what a caller gets, whose byte is whose, the validator |
| `Outcomes`, `Contents` | what each call comes to in sizes, places and counts, and what the clients' bytes become |
| `Bget` | the class |
| `Runs`, `Lengths`, `Shrink`, `Conservation`, `RoundTrip`, `Refinement`, `Census` | theorems about runs |
| `Saturate`, `Park`, `Circular` | fixed point and circular copies |

What a caller must see to is what the source asks for: a request is positive; a new pool is aligned, apart
from everything the allocator owns, and has room for one free block after masking; only live buffers are released,
a direct one only while a release function is set; the expansion increment is at least a header when an
acquisition function is set (the subtraction at line 697 is unsigned). The call-backs are parameters.
`acquired` is what the acquisition function returns. `plan` lists what the compaction function does on each
successive call and whether it returns nonzero. It may do whatever a client may: allocate, clear, reallocate,
release, add pools, set other call-backs and write into buffers, with further compaction nested in its own
allocations. All theorems hold for every plan and every answer.

Two places where the code and its description disagree:

* The description of `bectl` (`libs/bget/bget.c:344-346`) says empty pools are released only if all have the
  size of the expansion increment. The code compares the pools with one another; the increment is not
  consulted. `Shrink.DescribedIff` says for every state and buffer when a release does as described,
  `Shrink.IncrementNotConsulted` is a run where it does not, and `Shrink.ShrinkExact` says when a pool is
  handed back. The model follows the code.
* The circular copies mention negative increments in their comments, but only wrap upwards.
  `Circular.StaysInRange` says which increments they handle.

## Fixed point

`Saturate` writes out shifts, masks and casts on 32- and 64-bit words and proves the fast forms equal to
clamping. `Park` bounds the error of each output of the Park
transform and of its inverse, and of the one followed by the other, first
whenever nothing clips, then for all vectors at least five units short of full scale, for which nothing clips.
`Circular` proves the loops against copies in arithmetic sequence modulo the length, for any overlap of source,
ring and destination, and that a block read back from where it was written is the block.

## Model

| member | source | states |
|---|---|---|
| Allocator.Bget.constructor | libs/bget/bget.c:513-545 | Before the first call the free list is its own neighbour in memory, there are no pools, no call-backs are set, all counters are zero, and the invariant holds. |
| Allocator.Bget.UnlinkChecked | libs/bget/bget.c:904-907 | If the neighbours of a listed block point back at it, both asserts hold and exactly the two link words of the neighbours change. |
| Allocator.Bget.LinkTailChecked | libs/bget/bget.c:883-888 | If the list is closed at both ends, both asserts hold and the four stores append the block to the circle and write no other word. |
| Allocator.Bget.JoinLeft | libs/bget/bget.c:866-890 | With a free block before it the released block's size is added to that block's; otherwise it goes to the tail of the list with its size negated. The new start is returned. |
| Allocator.Bget.JoinRight | libs/bget/bget.c:897-918 | A free block after the joined one leaves the list and its size is added; the address after the whole run is returned. |
| Allocator.Bget.Seal | libs/bget/bget.c:919-928 | After wiping and setting the next back tag, memory shows the heap with the run replaced by one free block, and nothing outside that run, the next tag and link words has changed. |
| Allocator.Bget.JoinPooled | libs/bget/bget.c:843-928 | A pooled release without hand-back: the new heap is the join of the old, memory shows it, `totalloc` stays non-negative, and every other live buffer keeps its bytes. |
| Allocator.Bget.HandBack | libs/bget/bget.c:937-952 | A pool that is one free block is taken off the list and dropped, its asserts hold, and the two link words of its neighbours are all that changes in memory. |
| Allocator.Bget.ReleaseDirect | libs/bget/bget.c:823-841 | A direct buffer is removed, exactly its recorded size leaves `totalloc`, which stays non-negative, and all its usable bytes, and no others, are set to 0x55. |
| Allocator.Bget.Brel | libs/bget/bget.c:812-955 | After the release of any live buffer it is live no more, invariant and memory image hold, no byte of another live buffer has changed, and a direct buffer, and nothing else, is wiped; the heap is what `Rel` makes of it. |
| Allocator.Bget.ReadSize | libs/bget/bget.c:818-824 | The size field of a live buffer is zero exactly for a direct one, and minus the block size, at most -16, for a pooled one. |
| Allocator.Bget.LayPool | libs/bget/bget.c:1009-1038 | Back tag, links, size, wiping and sentinel of a new pool, as a change to the memory's words. |
| Allocator.Bget.Bpool | libs/bget/bget.c:976-1039 | Adding a region puts a pool with one free block, of the length rounded down to a multiple of 4 and less 8, behind the other pools and at the tail of the list, updates `pool_len` in all three cases, and touches no live buffer. |
| Allocator.Bget.FindBest | libs/bget/bget.c:594-613 | The scan of the linked list in memory returns the block that `Best` picks, and the list head exactly when none fits. |
| Allocator.Bget.SplitTail | libs/bget/bget.c:628-650 | The tail of the block becomes the buffer, the rest stays free where it is on the list; the four header words written are the only ones. |
| Allocator.Bget.TakeWhole | libs/bget/bget.c:651-674 | The whole block leaves the list and becomes the buffer; link words, its size and the next back tag are the only words written. |
| Allocator.Bget.CarveAt | libs/bget/bget.c:613-676 | The block is split if and only if more than 16 bytes are left over: then its tail becomes the buffer and the rest stays free in place; otherwise all of it becomes the buffer and it leaves the list, the order of the others kept. The buffer is new, and no live one changes. |
| Allocator.Bget.Perform | libs/bget/bget.c:683-689 | Any run of legal calls, by clients or by a compaction function, nested call-backs included, does what `Run` says and keeps invariant and image; every live buffer that is neither released nor written into in it still lives and has every byte it had; and whatever data memory showed before, it shows afterwards what `RunData` makes of it. |
| Allocator.Bget.PerformCall | libs/bget/bget.c:319-325 | The same for one call, and: a write changes exactly the bytes written; a clearing allocation leaves only zeros in the usable area; a reallocation leaves the old data in the new buffer and the old buffer dead; a released buffer is dead; new call-backs are the ones given. |
| Allocator.Bget.WriteData | libs/bget/bget.c:319-325 | A client that writes into a live buffer stores its data there and changes no other byte of memory; the allocator's image holds. |
| Allocator.Bget.Reserve | libs/bget/bget.c:693-741 | When nothing fits: null, and nothing changed, without an acquisition function or if it answers null; if the block needed is at most the increment less 8, a new pool at the storage acquired and a buffer from the pools; otherwise the storage itself behind a 12-byte header, recorded with its exact size. Other buffers are untouched. |
| Allocator.Bget.AcquireDirect | libs/bget/bget.c:697-718 | A direct block is marked by a zero size field, its total size is recorded and counted, and no live buffer changes. |
| Allocator.Bget.Bget | libs/bget/bget.c:561-741 | All of `bget`, call-backs and recursion included, performs `Get`, keeps invariant and image, and changes no byte of a live buffer that the compaction function neither releases nor writes into; data written during compaction is shown. It terminates: the inner call finds a block on its first scan. |
| Allocator.Bget.Bgetz | libs/bget/bget.c:747-771 | As `bget`, and every byte of the usable area, which is at least the request, is zero. |
| Allocator.Bget.Bgetr | libs/bget/bget.c:777-808 | Performs the reallocation on the heap; unless the compaction function writes into the old buffer, the first min(new size, old usable size) bytes of the new one are the old contents; the old buffer is live no more; on null no buffer has changed that compaction did not touch. |
| Allocator.Bget.MoveData | libs/bget/bget.c:791-807 | Copying and then releasing: the new buffer holds the old bytes, lives on, and no third buffer has changed. |
| Allocator.Bget.UsableSize | libs/bget/bget.c:793-802 | The size read from the headers is the usable size of the buffer, pooled or direct. |
| Allocator.Bget.Bectl | libs/bget/bget.c:961-971 | Only the call-backs and the increment change. |
| Allocator.Bget.Bstats | libs/bget/bget.c:1045-1064 | `totfree` is the sum over the whole free list and `maxfree` the largest size on it, or -1 if it is empty. |
| Allocator.Bget.Bstatse | libs/bget/bget.c:1070-1082 | The reported numbers count live pools and live direct buffers, and the increment is negated exactly when `pool_len` is -1. |
| Allocator.Bget.StillWiped | libs/bget/bget.c:1222-1233 | Comparing a region with itself shifted by one, and its first byte, decides whether all of it is 0x55. |
| Allocator.Bget.Bpoolv | libs/bget/bget.c:1199-1239 | The walk ends, at the sentinel or earlier, and returns 1 exactly when no size is zero and every free block has good links and an intact body; also on damaged pools. |
| Allocator.Bget.ValidatePool | libs/bget/bget.c:1199-1239 | On every pool of a valid allocator the validator returns 1. |
| HeapFacts.CarveAll | libs/bget/bget.c:628-674 | A carve replaces one free block by one or two of the same total size, starting where it started, and moves no other block. |
| HeapFacts.CarveKeeps | libs/bget/bget.c:628-676 | Serving from a fitting block keeps the invariant. |
| HeapFacts.ReleaseJoins | libs/bget/bget.c:864-918 | In all four cases the run of the released block and its free neighbours becomes one free block of the total size, and every other block stays. |
| HeapFacts.JoinListed | libs/bget/bget.c:878-918 | The list holds the free blocks again, each once, and its length has changed by +1, 0 or -1 according to the two neighbours. |
| HeapFacts.JoinWellFormed | libs/bget/bget.c:910-915 | After the join no two free blocks are neighbours, and the sentinel is still last. |
| HeapFacts.WholePoolTest | libs/bget/bget.c:937-938 | The unsigned comparison with `pool_len` succeeds exactly if a release function is set, `pool_len` is positive and the pool has become one free block. |
| HeapFacts.DropKeepsInv | libs/bget/bget.c:937-952 | Dropping such a pool keeps the invariant. |
| HeapFacts.RelKeeps | libs/bget/bget.c:812-955 | Every release of a live buffer keeps the invariant. |
| HeapFacts.AddPoolKeeps | libs/bget/bget.c:976-1039 | Every legal new pool keeps the invariant. |
| Fit.BestIsFirstSmallest | libs/bget/bget.c:602-612 | The scan settles on the first in list order of the smallest blocks that fit, or on none when none fits. |
| Fit.NeedFits | libs/bget/bget.c:576-586 | Rounding gives room for at least the request, for fewer than a quantum more than max(request, SizeQ), and no size overflows. |
| Fit.ExpansionFits | libs/bget/bget.c:721-731 | After a request that fits an expansion block has had one added, a block fits, though the increment is rounded down: the recursion cannot loop. |
| Serve.GetServes | libs/bget/bget.c:561-741 | The answer is null, or it is one new buffer of at least the size and bounded excess; apart from buffers that the compaction function releases or is handed, every other buffer lives on with its size. |
| Serve.GetrServes | libs/bget/bget.c:788-803 | When a reallocation has its new buffer, the old one still lives with its size, and the new one is another and holds the request. |
| Client.LiveApart | libs/bget/bget.c:628-674 | The usable areas of two live buffers never overlap. |
| Client.LivePublic | libs/bget/bget.c:628-674 | No byte of a live buffer belongs to a header, a free block, the list head or a sentinel. |
| Client.ImageClient | libs/bget/bget.c:628-674 | A client that writes only within live buffers leaves the allocator's image intact. |
| Joins.SizeFacts | libs/bget/bget.c:824-841 | In every valid state zero in the size field separates direct from pooled buffers. |
| Joins.TotallocNonNegative | libs/bget/bget.c:829-859 | `totalloc` covers the size of any live buffer, so subtracting it never goes below zero. |
| Validate.SentinelDistinct | libs/bget/bget.c:557 | No size field of a real block, nor zero, equals the end sentinel. |
| Validate.ShiftedEqual | libs/bget/bget.c:1223-1226 | A region equals itself shifted by one and starts with a byte if and only if it consists of that byte. |
| Validate.IntactMeans | libs/bget/bget.c:1199-1239 | What the validator accepts, in bytes: every free block's two neighbours point back at it and every byte after its header is 0x55. |
| Validate.ReachableIntact | libs/bget/bget.c:1199-1239 | Every pool of every valid state can be walked and passes the validator. |
| Runs.RunKeeps | libs/bget/bget.c:561-1039 | The invariant holds after every run of legal calls from any state where it holds; compaction functions are such runs themselves. |
| Runs.GetKeeps | libs/bget/bget.c:561-741 | Every allocation, with any call-backs, keeps the invariant. |
| Runs.ReachableHolds | libs/bget/bget.c:513-545 | In particular from the initial state. |
| Runs.NeverHandsBack | libs/bget/bget.c:984-991 | Once `pool_len` is -1 it stays -1 and no run ever hands back a pool. |
| Lengths.PoolLenMeans | libs/bget/bget.c:538-544 | In every state reached from the start, `pool_len` is 0 if no pool was ever added, the common length if all ever added have one, by hand or by expansion, and -1 otherwise; `numpget` counts them. |
| Shrink.PoolWithoutBuffers | libs/bget/bget.c:892-918 | A pool has no live buffer if and only if it is a single free block of its length less a header, however it got there. |
| Shrink.LastBuffer | libs/bget/bget.c:864-938 | A join leaves the pool one free block if and only if the buffer was the last live one in it. |
| Shrink.ShrinkExact | libs/bget/bget.c:937-952 | A release hands back a pool if and only if a release function is set, `pool_len` is positive and the buffer was the last in its pool; then exactly that pool goes, off the list as well. |
| Shrink.DescribedIff | libs/bget/bget.c:937-938 | A release does what lines 344-346 say if and only if no release function is set, `pool_len` is not positive, `pool_len` equals the increment, or the pool holds another live buffer. |
| Shrink.IncrementNotConsulted | libs/bget/bget.c:937-938 | A concrete run after which a release does not: a pool is handed back although its length is not the increment. |
| Conservation.FreeListTotal | libs/bget/bget.c:1045-1064 | The list adds up to the free bytes of all pools, in whatever order it is. |
| Conservation.Conserved | libs/bget/bget.c:643-646 | Pool bytes less sentinels are pooled allocated bytes plus listed free bytes; `totalloc` is pooled plus direct; the differences of the counters count blocks, direct blocks and pools. |
| Census.BuffersCounted | libs/bget/bget.c:520-525 | The difference of the two call counters is the number of live buffers. |
| RoundTrip.RoundTripHeap | libs/bget/bget.c:628-676 | Allocating from the pools and releasing again restores pools and direct blocks, the list exactly if the block was split, and otherwise up to moving its block to the tail. |
| RoundTrip.RoundTripWords | libs/bget/bget.c:864-928 | The same in memory: whatever the client wrote in the buffer, every word of every pool is back, except link words if the block was taken whole. |
| Refinement.RelMap | libs/bget/bget.c:812-955 | Seen as a map from live buffers to usable sizes, a release removes one entry. |
| Refinement.GetMap | libs/bget/bget.c:561-741 | On the map, compaction changes only entries it releases or is handed; after it, unless the answer is null, an allocation adds one entry whose size is between the request and max(request, SizeQ) + (SizeQuant - 1) + SizeQ + 8, and changes no other. |
| Refinement.QuietMap | libs/bget/bget.c:961-1039 | New pools, new call-backs and client writes leave the map as it is. |
| Refinement.ServedByBest | libs/bget/bget.c:595-731 | Every answer from a pool, whatever call-backs came before, is carved from the first of the smallest blocks that fit in the heap as it was scanned last; if a block fits at once, that is the heap at the call. |
| Outcomes.ServedExactly | libs/bget/bget.c:595-676 | The same for every answer of `bget` from a pool, carved from the first of the smallest blocks that fit: whether the block was split, where the buffer lies, and how long it is. |
| Outcomes.ReleaseOrder | libs/bget/bget.c:864-918 | A joined block takes the place of the free block before it, or the tail; a free block after it leaves; all others keep their order in the list. |
| Outcomes.CompactsUntil | libs/bget/bget.c:681-691 | The compaction function is called exactly as long as nothing fits, it is set and it has not returned zero. |
| Outcomes.GetOutcome | libs/bget/bget.c:693-741 | Where an answer comes from: the pools if a scan finds a block; else null without storage acquired; else a new pool of the rounded increment if the block needed is at most the increment less 8; else the storage itself, with the block size plus 4 recorded. |
| Outcomes.GetrMap | libs/bget/bget.c:777-808 | On the map of live buffers a reallocation that succeeds puts the new buffer in and takes the old one out; one that fails changes nothing beyond compaction. |
| Outcomes.DoMap | libs/bget/bget.c:812-1039 | Calls that do not allocate: a release takes its buffer off the map; a new pool comes last, as one free block; new settings are the ones given and leave `pool_len` alone; a write leaves the heap alone. |
| Outcomes.PoolAdded | libs/bget/bget.c:976-1038 | A new pool is no longer than the region given and less than 4 bytes shorter. |
| Outcomes.GetCounters | libs/bget/bget.c:643-716 | After compaction, a successful allocation is one more get and adds the bytes of its block, header of 8 or 12 included, to `totalloc`; pools and direct acquisitions are counted; a null answer counts nothing. |
| Outcomes.RelCounters | libs/bget/bget.c:812-955 | Every release is one more and takes the bytes of its block, header included, off `totalloc`; a direct one and a pool handed back are counted. |
| Contents.LastWrite | libs/bget/bget.c:319-325 | The last write into a buffer is what a run leaves in it, if nothing touches the buffer afterwards, whatever else the run does. |
| Contents.GetrData | libs/bget/bget.c:803-806 | What a buffer held that compaction leaves alone is known of the buffer it is reallocated to, up to the new length, and of the old one nothing is. |
| Refinement.NullIffNoFit | libs/bget/bget.c:740 | Without compaction and acquisition functions the answer is null if and only if no free block fits, and then nothing has changed. |
| Refinement.BufferSurvives | libs/bget/bget.c:561-1039 | A buffer that is neither released nor handed out in a run is live after it exactly if it was before, with the same size. |
| Saturate.ClipIsClamp | libs/CMSIS/Include/arm_math.h:412-417 | Exact saturation of every 64-bit number. |
| Saturate.Mult32x64IsProduct | libs/CMSIS/Include/arm_math.h:453-459 | The split product is the full product divided by 2 to the 32nd, rounded down, and no intermediate result needs more than 64 bits. |
| Saturate.Ssat | libs/CMSIS/Include/arm_math.h:600-634 | The loop and the two one-sided tests saturate to any width from 1 to 31 bits. |
| Saturate.QAdd8Lanes | libs/CMSIS/Include/arm_math.h:648-670 | Each byte of the result is the saturated sum of the two signed bytes. |
| Saturate.QSub8Lanes | libs/CMSIS/Include/arm_math.h:675-696 | Each byte of the result is the saturated difference. |
| Saturate.QAdd16Lanes | libs/CMSIS/Include/arm_math.h:705-723 | Each halfword of the result is the saturated sum. |
| Saturate.QSub16Lanes | libs/CMSIS/Include/arm_math.h:751-768 | Each halfword of the result is the saturated difference. |
| Saturate.QAddIsSaturating | libs/CMSIS/Include/arm_math.h:900-915 | The 32-bit sum and difference, saturated. |
| Park.MulExact | libs/CMSIS/Include/arm_math.h:5663 | Unless both factors are -1, a Q31 product is the exact product rounded down. |
| Park.MulExactIff | libs/CMSIS/Include/arm_math.h:5663 | A Q31 product is the exact product rounded down if and only if the factors are not both -1. |
| Park.ParkClose | libs/CMSIS/Include/arm_math.h:5651-5680 | Id is alpha cos + beta sin, less than two units too small; Iq is beta cos - alpha sin, less than one unit off; or they are clipped at the end of the range the exact value lies beyond or near. |
| Park.InverseClose | libs/CMSIS/Include/arm_math.h:5771-5801 | The same for alpha = Id cos - Iq sin and beta = Id sin + Iq cos. |
| Park.RoundTripError | libs/CMSIS/Include/arm_math.h:5651-5680 | If no product is (-1)(-1) and no addition clips, Park and inverse Park give back alpha and beta times sin^2 + cos^2, off by less than 4 and less than 5 units. |
| Park.ShortNeverClips | libs/CMSIS/Include/arm_math.h:5771-5801 | For a vector at least five units short of full scale and sin^2 + cos^2 at most one nothing clips, so the bound holds. |
| Circular.SlotStep | libs/CMSIS/Include/arm_math.h:6285-6287 | The single conditional subtraction visits exactly the arithmetic sequence start + k * increment, wrapped. |
| Circular.WrapIsMod | libs/CMSIS/Include/arm_math.h:6285-6287 | Where an address lies in the ring, defined by adding or taking off the length, is the remainder. |
| Circular.StaysInRange | libs/CMSIS/Include/arm_math.h:6284-6287 | A step keeps every offset in range if and only if the increment is between 0 and the length. |
| Circular.CircularWrite | libs/CMSIS/Include/arm_math.h:6257-6295 | Memory is what copying the strided source, sample by sample, to the slots of the arithmetic sequence makes of it, even where source and ring overlap; the new offset is the next slot, cut to 16 bits. |
| Circular.CopiedAtOnce | libs/CMSIS/Include/arm_math.h:6276-6291 | If no sample is read from a place already written, that is the same as storing the whole block at once. |
| Circular.CircularRead | libs/CMSIS/Include/arm_math.h:6302-6351 | The same from the slots to a destination that is itself a ring; the new offset is the next slot. |
| Circular.PlaceWraps | libs/CMSIS/Include/arm_math.h:6330-6335 | A destination pointer that moves by one goes round its own ring. |
| Circular.PlaceStrides | libs/CMSIS/Include/arm_math.h:6330-6335 | A destination pointer that moves by any nonzero step goes round a ring of a whole number of steps. |
| Circular.PlaceRuns | libs/CMSIS/Include/arm_math.h:6330-6335 | If the step never lands on the end of the ring, the pointer does not wrap. |
| Circular.WriteReadRoundTrip | libs/CMSIS/Include/arm_math.h:6257-6351 | A block that fits once round the ring is read back as it was written, into any destination ring apart from it. |
| Circular.OffsetsAgree | libs/CMSIS/Include/arm_math.h:6294 | After equal counts of samples from equal starts the write offset equals the read offset, for every start below 65536 and every count, if and only if the ring has at most 65536 slots. |

## Left out

- BGET's dump and print routines (`bufdump`, `bpoold`, `stats`) and its test driver: I/O and floating point.
- The messages that `bpoolv` prints and the failing assert beside them; the model returns 0 there.
- Allocator.Bget.Bpoolv: memory on which the walk would follow a link or a size out of memory is not covered, since the C code has no defined behaviour there.
- Allocator.Bget.Perform: clients and compaction functions act through the entry points and by writing into live buffers; writes to memory the allocator does not own are not modelled.
- Allocator.Bget.Bget: the compaction function gives up after finitely many calls (the length of `plan`); the loop has no bound of its own.
- Allocator.Bget.Bgetr: the compaction function does not release the buffer being reallocated, which the description at lines 328-330 forbids.
- Heap.Requestable: requests so large that a rounded size would exceed a 32-bit `bufsize` are excluded.
- The second scan in `bget` (lines 616-679) starts at a block that fits, so it ends at its first block; it is modelled as that one step.
- The size and sequence number passed to the compaction function and the size passed to the acquisition function: any behaviour of theirs is covered, whatever they are told.
- What the release function does with a block handed to it; from then on the allocator claims nothing about those bytes.
- 32-bit overflow of the counters: they are mathematical integers.
- Memory is one array of at most 2 to the 32nd bytes that also holds the list head; the rest of the firmware's memory is not part of this model.
- Saturate.Ssat: a width of 32, where the power of two no longer fits 32 bits, is excluded.
- Saturate.QAdd8: masking disjoint lanes and combining them with `|` is written as a sum.
- Circular.CircularWrite: the offset plus the increment fits 32 bits, and increments are those of `Circular.StaysInRange`; the f32, Q15 and Q7 versions share their code and are one generic method over an array of samples.
- Circular.CircularRead: the same.
- The other functions of `arm_math.h`, among them those whose code is not full saturation (`clip_q63_to_q15`, `clip_q31_to_q7`), reciprocals and interpolators.
- `inc/grizzly_*.h`, the interleave tables of `src/buffs_iram2.c`, drivers, networking and OSC: data, hardware or short loops that would only add easy members.
