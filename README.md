# A verified model of the umalloc free-list allocator

`umalloc.c` is the user-space allocator of a small teaching operating system:
Kernighan and Ritchie's free-list `malloc`, `free` and `morecore` (The C
Programming Language, 2nd ed., section 8.7). This project models that code in
Dafny and proves what it promises.

**Memory.** Memory is a sequence of header cells (`mem`), indexed by unit
address:
- Cell 0 is the null address, so `freep == 0` keeps its C meaning.
- Cell 1 is the static sentinel `base`.
- The heap that `sbrk` hands out lies above cell 1 and grows by appending cells.

A block at address `b` covers the units `[b, b + size)`, and its payload
pointer is `b + 1`. The block's own header cell counts in `size`.

**The allocator class.** `Umalloc.Allocator` holds `mem` and `freep` as fields.
Its methods update them in place, as the C code updates the statics and the
headers. Three ghost fields describe the state:
- `view`: the free list as a sequence of spans in address order, starting at
  `base`.
- `cur`: the index of `freep` in `view`.
- `live`: the allocated blocks and their sizes.

**The invariant.** `Valid()`, which is `State`, ties the ghost fields to the
headers:
- The list is sorted, with no overlapping and no touching free blocks.
- Every free block's header points to the next block in address order. The last
  one points back to `base`: that is the single wrap edge of the circular list.
- Allocated blocks are disjoint from the free blocks and from each other.

**The specification functions.** Module `FreeList` holds pure functions on the
abstract list:
- `NextFit`: the next-fit search from the cursor.
- `Carve`: exact fit or tail split.
- `Slot`: the insertion point for free.
- `Release`: insertion with coalescing in both directions.
- `Total`: the number of free units.

**What is proved.** Each method's new state is one of these functions applied
to the old state. `Malloc`'s result is described by `Search`, through the
predicate `Outcome`. Lemmas prove that the functions keep the list well formed,
conserve free units, and find the right block.

## Model

| member | source | states |
|---|---|---|
| Umalloc.Units | umalloc.c:89 | at least one unit, and the units after the header hold nbytes bytes with less than one unit to spare |
| Umalloc.Chunk | umalloc.c:70-71 | morecore asks for at least the units needed and at least 4096, and exactly one of the two |
| FreeList.Scan | umalloc.c:98-100 | a hit is a block large enough, found at least d links after the cursor |
| FreeList.NextFit | umalloc.c:98-100 | the block malloc's loop stops at, searching from the block after freep; a hit is large enough |
| FreeList.ScanSpec | umalloc.c:98-100 | the scan from d links after the cursor fails only if no block from there to the full circle fits, and a hit is the first fitting block on that stretch |
| FreeList.NextFitSpec | umalloc.c:98-100 | the next-fit search fails exactly when no free block is large enough; otherwise every block that comes before the hit, counting from the block after the cursor, is too small |
| FreeList.Carve | umalloc.c:102-113 | the block handed out is the last nu units of the block taken; the list loses that block on an exact fit and keeps its length otherwise |
| FreeList.CarveTiles | umalloc.c:102-113 | an exact fit drops the block from the list; a larger block stays in place with size old - nu; the block handed out ends where the old block ended, is nu units long and is apart from every remaining free block; the blocks before it are unchanged |
| FreeList.CarveWellFormed | umalloc.c:100-113 | taking a block keeps the free list sorted, gap-separated and positive-sized |
| FreeList.CarveTotal | umalloc.c:100-113 | taking nu units lowers the free units by exactly nu |
| FreeList.SortedOrdered | umalloc.c:35-38 | the neighbour-by-neighbour address order that free's loop relies on is the same as the order between every pair of free blocks |
| FreeList.Below | umalloc.c:35-38 | any block of a sorted free list ends before every later block starts |
| FreeList.Slot | umalloc.c:35-38 | the last free block below the address being freed: every later block lies at or above it |
| FreeList.StopsAtSlot | umalloc.c:35-38 | free's loop condition (strictly between p and p->s.ptr, or past the wrap point p >= p->s.ptr) holds at a block exactly when it is the last free block below bp |
| FreeList.Release | umalloc.c:41-57 | the blocks before the insertion point are kept, and the list grows by one block, less one for each merge |
| FreeList.ReleaseWellFormed | umalloc.c:41-57 | inserting a block that fits the gap after its insertion point (merging forward and/or backward) keeps the list sorted, with no overlapping and no touching blocks |
| FreeList.ReleaseTotal | umalloc.c:41-57 | releasing a block raises the free units by exactly its size |
| FreeList.ReleaseSpan | umalloc.c:41-57 | each block of the new list is either an untouched old block (other than those merged) or the one merged span from p or bp to the end of bp or of p->s.ptr |
| FreeList.ReleaseKeepsPrefix | umalloc.c:51-61 | the blocks up to the insertion point stay in place, so the cursor left at p is still the block at the insertion index |
| FreeList.ReleaseHolds | umalloc.c:41-57 | after a release, the block at the insertion point or just after it is at least as large as the released block |
| FreeList.ReleasedFitsRequest | umalloc.c:51-57 | after a release, a request no larger than the released block fits, from any cursor, without growing the heap |
| Umalloc.ExactFitLinked | umalloc.c:102-104 | pointing the predecessor's header past the block relinks the circular list without that block |
| Umalloc.SplitLinked | umalloc.c:105-113 | shrinking the block's header and writing the tail's header keeps the circular list linked |
| Umalloc.SpliceLinked | umalloc.c:41-57 | writing the predecessor's pointer and the new block's header links the list with blocks i to i+t-1 replaced by the new block |
| Umalloc.InsertLinked | umalloc.c:41-49 | when p does not touch bp, free's header writes link the list with bp inserted (and merged with its successor when they touch) |
| Umalloc.AbsorbLinked | umalloc.c:51-54 | when p ends where bp starts, free's header writes link the list with p grown over bp (and over bp's successor when it touches) |
| Umalloc.State | umalloc.c:21-22 | the invariant over base, freep and the heap: before the first malloc freep is null and nothing is allocated; afterwards the headers link a well-formed free list containing freep, and allocated blocks are apart from it and from each other |
| Umalloc.WrapEdge | umalloc.c:37 | under the invariant, a free block's header points to a lower or equal address exactly when it is the last free block, so free's wrap test fires at one block only |
| Umalloc.CarveLive | umalloc.c:100-118 | the block handed out was not allocated; afterwards all blocks lie in the heap and the allocated blocks, the new one included, are apart from the free list and from each other |
| Umalloc.CarveApart | umalloc.c:100-118 | the allocated blocks stay apart from the carved list and from the block handed out |
| Umalloc.ReleaseLive | umalloc.c:41-61 | after a release the remaining allocated blocks keep their headers and stay apart from the merged free list |
| Umalloc.Joined | umalloc.c:41-57 | free's writes change only the headers of bp and p |
| Umalloc.JoinedHeaders | umalloc.c:41-57 | free's writes leave bp's header pointing past the merged successor with the summed size, or p's header holding the merged size, as the merges fire |
| Umalloc.ReleasedFits | umalloc.c:24-38 | a block allowed to be freed is no free block, and it fits the gap after its insertion point |
| Umalloc.FreeEntry | umalloc.c:31-38 | the block to free is not on the free list; the block free stops at lies below it and its header lies in memory |
| Umalloc.FreeExit | umalloc.c:24-62 | after free's writes the allocator invariant holds for the released list, with the cursor at the insertion point and the block no longer allocated |
| Umalloc.GrownReleasable | umalloc.c:72-77 | after sbrk and the header write, the invariant still holds and the new region is a block free may release, above every free block and allocated to no one |
| Umalloc.TopFits | umalloc.c:72-77 | a region granted at the heap top fits after the last free block |
| Umalloc.FirstState | umalloc.c:91-95 | base as a zero-size self-loop is a valid, empty free list |
| Umalloc.Taken | umalloc.c:102-113 | the block handed out lies inside the fitting block and ends where it ended |
| Umalloc.TakeEntry | umalloc.c:98-104 | the fitting block and its predecessor lie in memory, and the predecessor's header points at it |
| Umalloc.TakeExit | umalloc.c:100-118 | after malloc's writes the invariant holds for the carved list, with the cursor at the predecessor and the new block allocated |
| Umalloc.SearchRefused | umalloc.c:98-125 | malloc's search yields nothing exactly when no free block fits and the operating system refuses: a granted chunk always fits |
| Umalloc.SearchTaken | umalloc.c:98-125 | a block malloc's search hands out is apart from the new free list; that list is well formed and has lost exactly nu units, after gaining the chunk when the heap grew |
| Umalloc.Search | umalloc.c:98-125 | malloc's outcome on the list: a fit from the cursor, or failing that a fit on the list with a released chunk at the heap top, or nothing when the operating system refuses |
| Umalloc.SearchFound | umalloc.c:98-118 | a fit found on the starting list, or on the grown list after a failed first circle, is the block Search describes |
| Umalloc.CarveFacts | umalloc.c:100-113 | carving nu units from a fitting block leaves a well-formed list with nu fewer free units, apart from the block handed out |
| Umalloc.Follow | umalloc.c:98 | following a free block's header reaches the next block in cyclic order, and the cursor's block is reached again only after a full circle |
| Umalloc.OutcomeTaken | umalloc.c:115-118 | a fit taken from the block Search names is malloc's outcome |
| Umalloc.OutcomeRefused | umalloc.c:122-124 | no fit and a refused sbrk is malloc's Null outcome |
| Umalloc.Allocator.constructor | umalloc.c:21-22 | the statics start at zero: no free list and nothing allocated |
| Umalloc.Allocator.LiveReleasable | umalloc.c:24-31 | every allocated block may be passed to free |
| Umalloc.Allocator.Locate | umalloc.c:35-38 | free's loop stops at the last free block below bp, in cyclic order, including the wrap point |
| Umalloc.Allocator.Join | umalloc.c:41-57 | free's header writes, step by step, compute Joined |
| Umalloc.Allocator.Free | umalloc.c:24-62 | the free list becomes Release at Slot, freep becomes the block at the insertion point, the block is no longer allocated, and the invariant is kept |
| Umalloc.Allocator.Sbrk | umalloc.c:72 | sbrk either appends n fresh cells at the top and returns the old top, or returns -1 and changes nothing |
| Umalloc.Allocator.Grow | umalloc.c:72-76 | when granted, the new region gets a header of n units and can be released above every free block; otherwise memory is unchanged |
| Umalloc.Allocator.Morecore | umalloc.c:64-79 | on failure nothing changes and the result is 0; otherwise the heap grows by Chunk(nu), the chunk is released into the list past its last block, and the result is the new freep |
| Umalloc.Allocator.Take | umalloc.c:102-113 | malloc's header writes, step by step, compute Taken |
| Umalloc.Allocator.TakeFrom | umalloc.c:100-118 | the free list becomes Carve of the old one, freep becomes the predecessor, and the block handed out is newly allocated with nu units |
| Umalloc.Allocator.ScanStart | umalloc.c:98 | the search starts at the block after the cursor |
| Umalloc.Allocator.ScanStep | umalloc.c:98-100 | a block too small that is not the cursor's block moves the scan one link on |
| Umalloc.Allocator.ScanExhausted | umalloc.c:122 | back at freep with no fit: the heap has not grown and no block of the starting list fits |
| Umalloc.Allocator.ScanRegrown | umalloc.c:122-123 | after morecore the scan resumes after the new cursor, on a list with a fit |
| Umalloc.Allocator.ScanFound | umalloc.c:100 | a fitting block p is block i of the list with predecessor prevp, and taking it is Search's outcome |
| Umalloc.Allocator.Prime | umalloc.c:91-95 | the first malloc makes base a zero-size self-loop with freep on it; later calls change nothing |
| Umalloc.Allocator.Claim | umalloc.c:100-118 | taking the fitting block gives malloc's outcome |
| Umalloc.Allocator.Regrow | umalloc.c:122-124 | at freep with no fit: morecore either fails, giving the Null outcome, or grows the heap and the scan resumes on a list with a fit |
| Umalloc.Allocator.Probe | umalloc.c:98-124 | one turn of the search loop: finish with malloc's outcome, or step on with the scan invariant kept and the ghost measure lowered |
| Umalloc.Allocator.Malloc | umalloc.c:81-126 | the result, new free list, cursor, allocated blocks and heap size are those of Search from the starting list and cursor; Null exactly when Search finds nothing |

## Left out

- sbrk: the operating-system call becomes `Sbrk`, which grants or refuses according to the parameter `osGrants`. A granted region is appended at the top of the heap and its cells are zeroed. The model does not cover a region that is not contiguous with the heap.
- Byte layout: pointer casts, `char*` arithmetic and the `Align` member of the header union are not modelled. Addresses are unit indices, a payload pointer is the block address plus one, and a header is 8 bytes (a 4-byte pointer and a 4-byte `uint`).
- `uint` overflow: the unit computation (line 89) and the byte count passed to sbrk (line 72) are 32-bit in C. `Malloc` instead requires `nbytes <= MaxRequest`, which keeps both in range. Wrap-around is not modelled.
- `Free`: in C it is undefined to free a block twice, to free a pointer that is not one unit past a block header, or to free a block that overlaps a free block or another allocated block. `Free` requires instead that the block be `Releasable`: a heap block above `base`, inside memory, with a size of at least one unit, apart from every free block and from every allocated block other than itself. `Free` does not require that the block is allocated. `LiveReleasable` shows that every allocated block qualifies, and `GrownReleasable` shows that the fresh region morecore hands to free qualifies too.
- Payload contents: what callers store in their blocks is not modelled. Only header cells carry meaning.
- `Malloc`: the search loop is bounded by a ghost measure: the steps left in the circle, plus one use of morecore. Termination relies on the proof that the grown list has a fit.
- The C search loop's body is split into the methods `Probe`, `Claim` and `Regrow`, and the first-call setup into `Prime`; `Morecore`'s sbrk step is `Grow`. The loop itself, the writes and the branches are the C code's.
- A block's size counts its own header unit: `bp + bp->s.size` is the next block (umalloc.c:41, 51), and malloc adds one unit for the header (umalloc.c:89). The model's sizes are the same.
- Headers provided by the rest of the system (types, stat, user, param) are outside this model. So is concurrency: the C code has no locking and assumes a single thread.
