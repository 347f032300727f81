# LevOS 7: models and proofs

LevOS 7 is a small x86 kernel. This project models its heap, its paging and copy-on-write
fork, its intrusive list and hash table, its memory areas and demand paging, its ext2 block
allocation and file I/O, its work queue and scheduler, its path canonicalisation and its
Internet checksums, and proves what these layers promise. `dafny verify dfyconfig.toml`
checks everything.

Code that changes state in the kernel is a class or a method here, proved against a pure
specification (`Step`, `MapStep`, `Canonical`, `Contents`, ...), and the lemmas about that
specification carry the claims over whole runs.

| files | what they model |
|---|---|
| `common.dfy`, `bits.dfy`, `bitruns.dfy` | shared types, words as naturals with `&`, `\|` and powers of two, runs of bits |
| `bitmap.dfy` | `lib/bitmap.c` |
| `heaplayout.dfy`, `heap.dfy` | `mm/heap.c`: the layout and its invariant; the allocator and its clients |
| `pageentry.dfy`, `eagerfork.dfy`, `paging.dfy`, `mmu.dfy` | `mm/page.c` with the page-directory part of fork: entry bits; the reference in which fork copies every page; tables and frames; the code and its refinement of the reference |
| `ordering.dfy`, `list.dfy` | `lib/list.c`: sorting theory on sequences; the linked list |
| `hash.dfy` | `lib/hash.c` |
| `ext2disk.dfy`, `ext2alloc.dfy`, `ext2tree.dfy`, `ext2inode.dfy`, `ext2bytes.dfy`, `ext2file.dfy`, `ext2run.dfy` | `fs/ext2`: blocks and the numbers in them; block allocation; the block tree; the inode code; the bytes of a file; file reads and writes; many open files against plain byte arrays |
| `vma.dfy` | `mm/vma.c`, `mm/mapping.c` |
| `faults.dfy` | a page fault of a user task, from its areas to its page tables |
| `work.dfy`, `sched.dfy` | `kernel/work.c`; task selection in `kernel/sched.c` |
| `path.dfy` | `__canonicalize_path` and `strtok_r` |
| `checksum.dfy` | `net/ip.c` and the checksum part of `net/tcp.c` |

## What the code does not do as intended

Each of these is proved, with the condition under which the code does behave.

- Heap: `na_realloc` frees the old block with the default alignment. For a block with an alignment
  above 1 that finds the block exactly if its stored offset is below 80; otherwise the block is
  never freed. A block without alignment has no stored offset, and the word in front of it belongs
  to somebody else: there the block is found exactly if that word is 0 or at least 80, and
  otherwise a live block just below may be freed instead (`Heap.ReallocFreesOld`,
  `Heap.ReallocFreesNeighbour`).
- Heap: alignment comes out right for all addresses that a block may start at exactly for powers
  of two (`Heap.AlignedIffPowerOf2`).
- Fork: marking pages copy-on-write ignores whether they were writable, so read-only pages are
  writable afterwards; and `mark_all_user_pages_cow` hands `pde_mark_writeable` the address of the
  table, so the first entry of every table stops being zero, and a page not yet loaded there can
  never be loaded, in the parent, in the child or in theirs (`Paging.RightsAfterFork`,
  `EagerFork.StuckStays`).
- Paging: in an area that is not writeable only the pages that come from its file lose the write
  right; all of it can be written if it has no file, and so can what lies at or beyond the end of
  the mapping, rounded up (`Faults.AfterFault`).
- ext2: the descriptors of the block groups are looked for behind the superblock only with blocks
  of 1024 bytes. With larger blocks block 0 is read, the boot record; if that is empty, a volume of
  up to 32 groups has no block to give (`Ext2Alloc.DescriptorsFound`, `Ext2Alloc.EmptyBootRecord`).
- ext2: a doubly indirect block, or one below it, is taken without being zeroed, and points
  nowhere exactly if the block held zeros (`Ext2Tree.NewIndexPointsNowhere`).
- ext2: adding a block beyond the end leaves the block before it without one
  (`Ext2Inode.GapLeft`).
- ext2: where a write creates the block it starts in, the bytes in front of the data are what
  malloc left in the buffer; they are kept for every such buffer exactly if the write starts on a
  block bound or the block was there (`Ext2Bytes.FrontKept`). Where it creates the block it ends in,
  the bytes behind the data repeat the block before. No byte beside the data changes, whatever
  the data and the buffer, exactly if both ends are all right: at the end that means that nothing of
  the file is behind the data in that block, or the block was there, or what it repeats are zeros
  that stood in front of the data in a block that was there (`Ext2Bytes.WriteIsOverlay`).
- Memory areas: a fault looks up the start of the page. In an area that does not start on a page
  the first addresses are served only if the page begins in an unreserved area in front, and then
  with that area's bytes (`Vma.FaultFindsArea`, `Vma.FaultServed`, `Vma.FilledByte`). `do_mmap`
  brings the kernel down for lengths below a page (`Vma.AddressSpace.Mmap`).
- Work queue: a queued item is freed in exactly the runs in which it is cancelled between the
  clearing of `current_work` and the test of the flag (`Work.FreedIffTooLate`); a reschedule is
  lost if the clock ticks past the delay in between (`Work.RescheduleLost`); cancelling an item
  that runs and is queued again does not stop its next run, and cancelling it once more, when it
  runs no longer, leaves the lock taken, after which nothing in the queue ever runs
  (`Work.CancelDooms`, `Work.NothingStarts`).

`__canonicalize_path` would change its own result a second time if the working directory had "."
or ".." in it (`Path.CanonicalTwice`, `Path.PlainIff`). No task ever has such a one: all start in
the root and move by chdir alone (`Path.CwdIsCanonical`).

## Model

| member | source | states |
|---|---|---|
| Bits.AndMask | lib/hash.c:300-306 | a mask of k ones is the remainder by 2^k: find_bucket's `&` stays in range |
| Bits.TestFindsPowers | lib/hash.c:331-335 | what passes the power-of-two test is a power of two |
| Bits.PowersPassTheTest | lib/hash.c:331-335 | every power of two passes it |
| Bits.ClearLowest | lib/hash.c:323-328 | `x & (x - 1)` clears the lowest one-bit |
| BitRuns.FirstRun | lib/bitmap.c:250-265 | the result is the first position with a run of the wanted bits, none exactly if there is none |
| Bitmaps.MarkChangesOneBit | lib/bitmap.c:132-154 | or-ing with a mask, or and-ing with its complement, changes the addressed bit of a 32-bit word and no other |
| Bitmaps.TestReadsOneBit | lib/bitmap.c:168-172 | a word masked with one bit is nonzero exactly if the bit is set |
| Bitmaps.OneBitChanged | lib/bitmap.c:10-23 | a changed bit of one word is a changed bit of the bitmap at its index and nowhere else |
| Bitmaps.Bitmap.Mark | lib/bitmap.c:132-141 | the bitmap with that bit set |
| Bitmaps.Bitmap.Reset | lib/bitmap.c:145-154 | the bitmap with that bit clear |
| Bitmaps.Bitmap.Test | lib/bitmap.c:168-172 | the bit |
| Bitmaps.Bitmap.SetMultiple | lib/bitmap.c:185-192 | exactly the cnt bits from start on take the value |
| Bitmaps.Bitmap.Count | lib/bitmap.c:196-206 | how many bits of the range have the value |
| Bitmaps.Bitmap.Contains | lib/bitmap.c:210-219 | whether some bit of the range has the value |
| Bitmaps.Bitmap.Scan | lib/bitmap.c:250-263 | the first run of cnt equal bits from start on, or none |
| Bitmaps.Bitmap.ScanAndFlip | lib/bitmap.c:272-280 | the first run is found and flipped, nothing else changes, nothing at all if there is none |
| HeapLayout.LinkInOk | mm/heap.c:518-653 | linking a minor into a gap that fits keeps the minors address-ordered, disjoint, inside the major and linked both ways |
| HeapLayout.LinkOutOk | mm/heap.c:805-822 | unlinking one keeps all that |
| HeapLayout.GapsAreFree | mm/heap.c:447-482 | the gaps of a major add up to its size less its usage, so a major too full by usage has no gap that fits |
| HeapLayout.MajorsApart | mm/heap.c:100-120 | different majors have different pages |
| HeapLayout.LiveBlocksDisjoint | mm/heap.c:347-685 | any two live blocks of the heap, headers included, are disjoint |
| HeapLayout.FillOk | mm/heap.c:482-653 | placing a minor keeps the whole layout, usage and in-use totals |
| HeapLayout.UnfillOk | mm/heap.c:805-822 | removing a minor keeps them |
| HeapLayout.AppendOk | mm/heap.c:267-317 | appending a fresh major keeps the layout and adds its pages to the total |
| HeapLayout.DropOk | mm/heap.c:824-832 | dropping an empty major keeps the layout and gives its pages back |
| Heap.AlignRoundTrip | mm/heap.c:123-147 | for any alignment the requested bytes lie inside the padded payload, clear of the stored offset, and UNALIGN recovers the payload start |
| Heap.AlignedIffPowerOf2 | mm/heap.c:123-138 | for every alignment with which a block fits the heap, all addresses a block may start at give multiples of it exactly if it is a power of two |
| Heap.Misaligned | mm/heap.c:123-138 | for any other alignment, an address near the end of the heap that comes out wrong |
| Heap.HandleFindsHeader | mm/heap.c:738-743 | na_free with the alignment of na_malloc finds precisely the minor that na_malloc made |
| Heap.ReallocFreesOld | mm/heap.c:962-972 | for every alignment, and any word in front of an unaligned pointer: when na_realloc's free finds the old block, and what it finds otherwise |
| Heap.ReallocFreesNeighbour | mm/heap.c:962-972 | a heap with two unaligned blocks in which it frees the live neighbour |
| Heap.TooFullHasNoRoom | mm/heap.c:447-482 | skipping a major by usage never skips a gap that fits |
| Heap.RoomIsWide | mm/heap.c:482-653 | some gap of a major fits exactly if the bytes and 28 for a header are free in one stretch behind its header of 24 |
| Heap.PagesAreClear | mm/heap.c:267-317 | the scan for a new major finds pages exactly if some n of at least 16 that hold the size and 52 bytes of headers are clear in a row |
| Heap.ClientsApart | mm/heap.c:347-685 | the bytes of two clients are disjoint, and clear of each other's stored offsets |
| Heap.HandleKept | mm/heap.c:347-685 | an allocation leaves every earlier pointer good for na_free |
| Heap.AllFreedAllReturned | mm/heap.c:824-832 | when nothing is live, no major, no page and no byte is accounted for |
| Heap.Heap.AllocateNewPage | mm/heap.c:267-317 | null exactly if no n clear pages in a row are there for any n of at least 16 with n * 4096 bytes for the size and 52 of headers; otherwise a major of the fewest such pages, over the first place where they are clear, and they alone become taken |
| Heap.Heap.PlaceIn | mm/heap.c:482-653 | the first gap of a major that fits gets the minor; null exactly if no gap fits |
| Heap.Heap.Scan | mm/heap.c:434-685 | the search over the majors ends (it restarts at the root at most once) with the minor placed, or with null when no gap fits and no pages are left |
| Heap.Heap.Malloc | mm/heap.c:347-685 | with 64 bytes and the alignment added where there is one: a pointer exactly if some major has that many bytes and 28 free in one stretch behind its header, or enough clear pages for a major of its own are there; a major is added only in the second case, of the fewest pages and in the first place; the layout and all counters are kept; the block is zeroed unless it went behind the last minor of its major, and no other byte changes |
| Heap.Heap.MallocAny | mm/heap.c:347-416 | the same for requests of nothing, which become a request of one byte with the default alignment |
| Heap.Heap.FreeLive | mm/heap.c:798-843 | exactly that minor goes, its size leaves the counters, and its major goes exactly if it was the last |
| Heap.Heap.Free | mm/heap.c:720-851 | for any pointer and any word in front of it: where no live header is found only an error or warning count changes; else that block is freed and every other pointer stays good |
| Heap.Heap.Realloc | mm/heap.c:883-972 | shrinking notes the size; growing makes a new block with the bytes of the old one and frees what the default alignment finds; all other pointers stay good; it panics exactly if it has to grow and there is no space for the size and 80 bytes |
| Heap.Heap.Grow | mm/heap.c:963-971 | the growing part: a panic exactly if there is no space for the size and 80 bytes; else the new pointer is good for free, and the old bytes are there |
| Heap.OthersSee | mm/heap.c:347-685 | writing into one client's bytes leaves what all others see |
| Heap.Heap.Serve | mm/heap.c:338-972 | over any run of na_malloc, na_free, na_realloc and stores every client sees what it would see in a buffer of its own; the live headers are those of the pointers out, each once, and of the blocks realloc left behind, of which there are none without realloc or with small alignments; when none is left every page is free; a run stops short only where an operation asks for more than the stretches between minors and the clear pages have, never if the pages that all requests would take one by one are at most 2048, or where realloc frees a block below an unaligned one with a small word in front |
| PageEntry.CreatePteLaws | mm/page.c:31-49 | a fresh entry names its frame, has the asked rights, and is neither copy-on-write nor zero |
| PageEntry.MarkCowLaws | mm/page.c:499-527 | marking read-only and copy-on-write moves exactly those two flags |
| PageEntry.MarkWriteableLaws | mm/page.c:541-551 | marking an entry writeable sets one flag, so even an empty one is zero no more |
| PageEntry.FlagsAre | include/levos/page.h:12-24 | the flags are bits 0, 1 and 9 of the number, and the frame is what 4096 goes into it |
| PageEntry.EntryIs | mm/page.c:31-49 | a fresh entry as a number: the page address with 9, and 4 and 2 for the rights |
| PageEntry.MarksAre | mm/page.c:504-527 | the marks take away or add 2, and add 512, where they are not there yet |
| EagerFork.OthersDoNotTouch | kernel/sched.c:714-722 | whatever other address spaces do, a space keeps its contents |
| EagerFork.ForkCopiesContents | kernel/sched.c:714-722 | right after fork parent and child read what the parent had |
| EagerFork.StoreIsRead | mm/page.c:202-278 | a store is done exactly where the page is there and may be written; it is read back, and nothing else changes for anybody |
| EagerFork.LoadIsRead | mm/vma.c:119-182 | a page that was loaded reads as what was loaded and may be written unless it came from the file of an area that is not writeable; no other page reads differently |
| EagerFork.StuckStays | mm/page.c:463-477 | over any run a page that fork made stuck stays so, every access to it is refused, and every child has it stuck, too |
| Paging.FreshFrameOk | mm/page.c:149-187 | mapping an unused frame keeps every shared frame read-only and copy-on-write on all sides |
| Paging.StoreIsLocal | mm/page.c:149-187 | a store through a writable entry changes that page of that space and no other |
| Paging.ForkKeepsSharing | mm/page.c:410-480 | after fork every frame mapped twice is copy-on-write and read-only wherever it is mapped |
| Paging.RightsAfterFork | mm/page.c:457-480 | for parent and child, in terms of the entries before: a page can be written after a fork exactly if it was present, and loaded exactly if it could be before and is not the first of a table |
| Paging.ForkRefines | kernel/sched.c:714-722 | the marked tables stand for the world in which every page was copied |
| Mmu.AddressSplit | mm/page.c:21-30 | directory index, table index and offset name every user address once |
| Mmu.NeverTakenForHeap | mm/page.c:160-163 | __do_cow never takes the entry of a frame for a heap page to free |
| Mmu.Mmu.constructor | mm/page.c:391-394 | one address space with nothing in it |
| Mmu.Mmu.CopyPageDir | mm/page.c:410-445 | the child has the parent's entries in tables of its own, and nobody else's change |
| Mmu.Mmu.MarkAllUserPagesCow | mm/page.c:457-480 | exactly the user entries of one directory are marked |
| Mmu.Mmu.Fork | kernel/sched.c:714-722 | refines a fork that copies every page, and leaves every page with the rights that follow from its entry before |
| Mmu.Mmu.PallocGetPage | mm/palloc.c:44-60 | the frame handed out was unused and is used now |
| Mmu.Mmu.DoCow | mm/page.c:148-187 | the page moves to a frame of its own, writable, and no space can tell |
| Mmu.Mmu.WriteByte | mm/page.c:202-278 | a store, with the fault it may take, does what it does in the reference; it is let through exactly if the entry is writable or copy-on-write, takes a frame exactly if it has to copy, and fails exactly if there is none then |
| Mmu.Mmu.LoadPage | mm/vma.c:119-182 | loading a missing page, from a file or as zeros, does what it does in the reference and takes a frame; it is refused exactly for page 0 and where the entry is not zero, and fails exactly if no frame is free |
| Mmu.Mmu.Run | mm/page.c:148-480 | for every interleaving of reads, writes, loads and forks all results are those of eager copying; it stops short only at a store or load for want of a frame, and never with as many frames as stores and loads |
| Ordering.StableTrans | lib/list.c:345-376 | stable rearrangements compose |
| Ordering.OneRunIsSorted | lib/list.c:345-376 | a list of at most one run is sorted |
| Ordering.RunsSplit | lib/list.c:309-322 | splitting a list splits its runs, but for one at the cut |
| Ordering.MergeKeeps | lib/list.c:327-340 | keeping the first run's element keeps the merge invariant |
| Ordering.MergeMoves | lib/list.c:327-340 | moving the second run's element in front keeps it, and is stable |
| Ordering.OrderedInsertSorted | lib/list.c:381-396 | inserting in front of the first greater element keeps the list sorted |
| Ordering.UniqueLosesNothing | lib/list.c:398-420 | kept and dropped together are the list, and each dropped element equals a kept one |
| Ordering.UniqueOfSorted | lib/list.c:398-420 | of a sorted list a strictly increasing one is left |
| Lists.SpliceLinked | lib/list.c:142-159 | after the six writes of list_splice the spliced sequence is linked both ways |
| Lists.SplicedAt | lib/list.c:142-159 | where each element of the spliced sequence comes from |
| Lists.ReversedLinked | lib/list.c:277-289 | swapped links make the reversed sequence linked both ways |
| Lists.ReversedTwice | lib/list.c:277-289 | reversing twice restores the list |
| Lists.List.Insert | lib/list.c:130-137 | the sequence with the element inserted, links inverse |
| Lists.List.Remove | lib/list.c:203-209 | the sequence without the element, links inverse |
| Lists.List.Splice | lib/list.c:142-159 | the elements of the range moved in front of the place |
| Lists.List.SpliceFrom | lib/list.c:142-159 | the same from another list, which loses them; an empty range moves nothing |
| Lists.List.Reverse | lib/list.c:277-289 | the reversed sequence, for every list |
| Lists.List.InsertOrdered | lib/list.c:381-396 | inserted where the order puts it, after its equals |
| Lists.List.FindEndOfRun | lib/list.c:309-322 | the end of the longest run from there |
| Lists.List.InplaceMerge | lib/list.c:326-340 | two sorted ranges become one, stably, with the same nodes |
| Lists.List.Pass | lib/list.c:345-376 | a pass makes half as many runs, rounded up, as there were, stably |
| Lists.List.Sort | lib/list.c:344-376 | ends with a stable, sorted rearrangement of the same nodes |
| Lists.List.Unique | lib/list.c:398-420 | the first of each group of equal neighbours stays, the others go to the end of duplicates |
| Hash.BucketInRange | lib/hash.c:300-306 | a power-of-two bucket count makes the masked hash the remainder |
| Hash.PushedRepresents | lib/hash.c:410-417 | pushing an element of a new key on its bucket is adding it to the map |
| Hash.UnchainedRepresents | lib/hash.c:419-425 | unchaining one is removing its key |
| Hash.FoundInBucket | lib/hash.c:308-321 | an element equal to e is in the bucket e selects or not in the table at all |
| Hash.LastDecides | lib/hash.c:93-149 | in any run, what is found for a key is decided by the last operation on it that is no find: the new element after a replace, nothing after a delete, the first one after an insert |
| Hash.OthersUndisturbed | lib/hash.c:93-149 | operations on other keys leave what is found for a key |
| Hash.TurnOffKeepsTop | lib/hash.c:323-328 | turning off the lowest one-bit of a number that is no power of two keeps its highest |
| Hash.NewBucketCnt | lib/hash.c:346-367 | the loop ends with the largest power of two within half the elements, at least 4 |
| Hash.AllMoved | lib/hash.c:383-406 | when all buckets have been moved the map is the old one |
| Hash.HashTable.FindElem | lib/hash.c:308-321 | the equal element, or none exactly if the map has none |
| Hash.HashTable.Rehash | lib/hash.c:346-408 | the contents stay, the bucket count stays a power of two, and is the ideal one if memory was there |
| Hash.HashTable.HashInsert | lib/hash.c:93-104 | adds the element only if no equal one is there, and returns the one that was |
| Hash.HashTable.HashReplace | lib/hash.c:109-122 | puts the element in the place of an equal one, and returns that |
| Hash.HashTable.HashDelete | lib/hash.c:139-149 | removes the equal element and returns it |
| Hash.HashTable.HashFind | lib/hash.c:126-130 | the map's lookup |
| Hash.HashTable.Run | lib/hash.c:93-149 | any sequence of operations returns what a plain map returns, whichever rehash allocations fail |
| Hash.HashIterator.HashNext | lib/hash.c:213-232 | one more element of the table, or the end exactly when all were visited |
| Hash.HashTable.Elements | lib/hash.c:175-232 | the iteration idiom visits every entry once |
| Ext2Disk.WordSet | fs/ext2/inode.c:321 | storing a 32-bit word in a block changes that word only |
| Ext2Disk.WordsRoundTrip | fs/ext2/block.c:83 | the words of a bitmap come back from the block they were written to |
| Ext2Disk.BitOfWord | lib/bitmap.c:10-23 | bit j of a word of the bitmap is bit j modulo 8 of the byte of the block it falls in |
| Ext2Alloc.DescriptorsFound | fs/ext2/super.c:49 | the block the descriptors are read from is the one behind the superblock exactly with blocks of 1024 bytes, and block 0 with larger ones |
| Ext2Alloc.TakenIsInUse | fs/ext2/block.c:99 | there the allocator's block numbers are those of ext2 |
| Ext2Alloc.EmptyBootRecord | fs/ext2/block.c:46-52 | with descriptors read from an empty boot record no group has a block to give |
| Ext2Alloc.MarkedViews | fs/ext2/block.c:82-91 | what bitmaps and counts read as after the bitmap and the descriptors were written |
| Ext2Alloc.GroupOnDisk | fs/ext2/block.c:62-99 | what the allocation changes, read off the bytes of the disk |
| Ext2Alloc.NothingIsThere | fs/ext2/block.c:54-80 | a group is passed over only if its count is zero or all bits of its bitmap on disk are set |
| Ext2Alloc.TakeKeepsCounts | fs/ext2/block.c:78-91 | taking a clear bit keeps the group counts equal to the clear bits and the total equal to their sum |
| Ext2Alloc.TakeOne | fs/ext2/block.c:99 | taking a bit takes that block number and no other |
| Ext2Alloc.Volume.AllocBlock | fs/ext2/block.c:37-105 | from whatever block the descriptors are read, on its bytes: the block that the word at byte 32 i names has its first clear bit set, the 16-bit count at 32 i + 12 goes down by one, and no other byte of those or of any other block changes; group i is the first that has a count and a clear bit, and the number is i times the group size plus the bit plus 1; -1 exactly if there is no such group, so on a consistent volume exactly if none is free; nothing is handed out twice |
| Ext2Alloc.Volume.AllocMany | fs/ext2/block.c:37-105 | a run of allocations hands out distinct blocks that were free, as many as there were |
| Ext2Tree.HomesApart | fs/ext2/inode.c:283-372 | different logical blocks have their pointers in different places |
| Ext2Tree.PtrIsPointer | fs/ext2/inode.c:209-259 | the pointers of the tree are those of the format: 12 in the inode, bs / 4 little-endian words in the singly indirect block, as many times as many below the doubly indirect one |
| Ext2Tree.PutPtr | fs/ext2/inode.c:283-372 | storing a pointer at its place changes that pointer and no other, even when it is an index block's |
| Ext2Tree.PutTree | fs/ext2/inode.c:283-372 | and keeps all pointers of the tree distinct |
| Ext2Tree.NewIndexPointsNowhere | fs/ext2/inode.c:334-360 | a new index block points nowhere exactly if the block held zeros when it was taken |
| Ext2Tree.StoreData | fs/ext2/file.c:190-236 | writing a block of the file changes that block of the file and no pointer |
| Ext2Tree.OtherFileKept | fs/ext2/inode.c:374-429 | a step on one file leaves the blocks and pointers of a file that shares none with it |
| Ext2Inode.CostSplit | fs/ext2/inode.c:374-429 | what blocks cost, index blocks included, is what part of them costs and what the rest costs after that |
| Ext2Inode.GapLeft | fs/ext2/inode.c:414-429 | after adding a block all blocks up to it are there exactly if it was the very next |
| Ext2Inode.FileSystem.GetBlock | fs/ext2/inode.c:209-259 | the number that the format has for the block, read off the bytes; -1 exactly if the index block below the doubly indirect one is not there, -38 exactly beyond it |
| Ext2Inode.FileSystem.SetBlockNumber | fs/ext2/inode.c:283-372 | afterwards the very word that the format has for b holds r, and those of all other blocks, and their contents, are unchanged; exactly the missing index blocks are taken |
| Ext2Inode.FileSystem.AllocateInodeBlock | fs/ext2/inode.c:374-412 | block b is a fresh block full of zeros, all others are as they were, and the sector count is at least (b + 1) * (bs / 512) and else as it was; one block and the missing index blocks are taken |
| Ext2Inode.FileSystem.AddBlock | fs/ext2/inode.c:414-429 | exactly the blocks from the first that the sector count does not cover up to the last but one before min, and min, are fresh and zero; all others are as they were; the sector count covers min |
| Ext2Inode.FileSystem.ReadOrCreate | fs/ext2/inode.c:261-281 | the block read if it was there, and nothing changed; else the blocks up to it added and the buffer as it was |
| Ext2File.File.FileReadBlock | fs/ext2/file.c:93-188 | the bytes of the block of the disk that the format has for b |
| Ext2File.File.ReadFile | fs/ext2/file.c:239-325 | exactly contents[fpos..min(fpos + count, size)], holes as zeros, the position advanced by that, the rest of the buffer untouched |
| Ext2File.File.WritePiece | fs/ext2/file.c:398-460 | one block of the file patched, every other as it was, whether or not blocks had to be created in front |
| Ext2File.CreatedNext | fs/ext2/file.c:398-460 | from the second block on a write creates the block it comes to, and that alone, if it was missing |
| Ext2File.WriteStep | fs/ext2/file.c:398-460 | after each block all blocks so far are what the write makes of them, the others as before, and the buffer holds the last one |
| Ext2File.File.WriteFile | fs/ext2/file.c:327-467 | at any position, in files with holes too: what every block becomes, which blocks are created and what that takes of the free ones; position and length advance |
| Ext2File.StaysWithoutHoles | fs/ext2/file.c:327-467 | a file without holes has none after a write within it or at its end |
| Ext2Bytes.NewByteIs | fs/ext2/file.c:398-460 | every byte after a write: the data, or the old byte, or in a block that was created what was left in the buffer |
| Ext2Bytes.ContentsOnDisk | fs/ext2/file.c:239-325 | byte k of the contents is byte k modulo bs of the block that the format has for k / bs |
| Ext2Bytes.LeftByteIs | fs/ext2/inode.c:270-276 | what was left in it: garbage in the first block, the byte one block before in the last |
| Ext2Bytes.FrontKept | fs/ext2/inode.c:270-276 | the bytes in front of the data survive every garbage exactly if there are none or the block was there |
| Ext2Bytes.WriteIsOverlay | fs/ext2/file.c:327-467 | writes of n bytes at fpos lay them over the contents, for all data and all garbage, exactly if both ends are undisturbed |
| Ext2Bytes.UndisturbedByte | fs/ext2/file.c:398-460 | then every byte beside the data is the old one |
| Ext2Bytes.DisturbedBehind | fs/ext2/file.c:432-446 | where the condition fails behind the data, a byte that changes |
| Ext2Bytes.OverlaidReads | fs/ext2/file.c:239-467 | what was written is read back, and the bytes around it are the old ones |
| Ext2Bytes.OtherContentsKept | fs/ext2/file.c:327-467 | a write to one file leaves the contents of every file that shares no block with it |
| Ext2Run.WriteWithin | fs/ext2/file.c:327-467 | a write within a file without holes or at its end lays the data over its contents and makes no holes |
| Ext2Run.CreatedBound | fs/ext2/inode.c:414-429 | such a write creates none but the blocks it touches |
| Ext2Run.StepKeepsAll | fs/ext2/file.c:327-467 | a write to one of any number of files without common blocks keeps them all whole and without common blocks, and the contents of the others |
| Ext2Run.RunFiles | fs/ext2/file.c:239-467 | any sequence of seeks, reads and writes on any open files, some of them of the same inode, gives the results, contents and positions of plain byte arrays |
| Vma.NeighboursDecide | mm/vma.c:22-42 | comparing with the two neighbours finds an overlap exactly if some area overlaps |
| Vma.InsertedOk | mm/vma.c:44-70 | the list stays ordered and disjoint |
| Vma.OneHolder | mm/vma.c:98-117 | at most one area holds an address |
| Vma.GapIsFree | mm/vma.c:315-338 | a region that is found overlaps no area |
| Vma.AddressSpace.CreateInsert | mm/vma.c:44-70 | succeeds exactly if memory is there and the interval is disjoint from all areas; otherwise nothing changes |
| Vma.AddressSpace.Find | mm/vma.c:98-117 | the only area that holds the address, none exactly if none does |
| Vma.AddressSpace.FindFreeRegion | mm/vma.c:315-338 | the end of the first area followed by a gap of more than len, none exactly if there is none |
| Vma.AddressSpace.Mmap | mm/vma.c:340-399 | which of the outcomes comes when, and the area that is added, with its write right: a region that was found is never refused |
| Vma.MmapAligned | mm/vma.c:361-399 | whole pages asked for keep all areas on page bounds |
| Vma.MappingLoad | mm/mapping.c:25-59 | up to max_len bytes of the file, then zeros |
| Vma.Load | mm/vma.c:119-182 | on all three ways through, every byte is the file's at its place within mapping and file, and zero otherwise, in the last page of the mapping too; the write right goes exactly on the way through mapping_load of an area that is not writeable |
| Vma.FaultFindsArea | mm/vma.c:184-201 | the rounded fault address is in the area for all its addresses exactly if the area starts on a page |
| Faults.Serve | mm/page.c:202-239 | a fault is refused exactly for page 0, an entry that is not zero, or an address whose page starts in no unreserved area; else the page of that area is brought, unless no frame is free |
| Faults.AfterFault | mm/vma.c:119-182 | every byte of it then reads as the area says, and it can be written exactly if the area is writeable, has no file, or has none for that page |
| Vma.FaultServed | mm/vma.c:184-201 | a fault within an area is served exactly if the page starts in it and it is not reserved, or the page starts in an unreserved area in front |
| Vma.AddressSpace.HandleFault | mm/vma.c:184-201 | fills the page exactly if an unreserved area holds it |
| Vma.AddressSpace.Touch | mm/vma.c:184-201 | after touching addresses in any order exactly the pages that can be served are filled |
| Vma.FillsAgree | mm/vma.c:119-182 | two orders of faults give the same page wherever both filled it |
| Vma.FilledByte | mm/vma.c:119-201 | byte k of a filled area is file byte offset + k, or zero past the mapping or the file; in front of the first page bound it is a byte of the area that the page starts in |
| Work.StepKeeps | kernel/work.c:32-152 | every step keeps the queue ordered by deadline, free of repeats and of freed items, but for one |
| Work.OnlyTooLate | kernel/work.c:72-92 | only a cancel between the clearing of current_work and the test, of an item queued again, leads to that one |
| Work.FreedIffTooLate | kernel/work.c:123-136 | in any run a queued item is freed exactly if such a cancel comes and the test follows |
| Work.FreedInQueue | kernel/work.c:123-136 | it can happen to every item that is queued again while it runs |
| Work.RunKeeps | kernel/work.c:32-152 | any run without such a cancel keeps the invariant |
| Work.RunsAfterDeadline | kernel/work.c:138-152 | what runs is strictly past the deadline that it has |
| Work.AskedIsStored | kernel/work.c:32-70 | an accepted request stores the time asked for, or the clock at the call plus the delay, and queues the item behind all with no later deadline and in front of all with a later one; no other step changes an item's deadline |
| Work.NotBeforeAsked | kernel/work.c:43-152 | in any run from such a request until the next for the same item, the item runs only when the clock is past the time asked for |
| Work.DueItemsRun | kernel/work.c:121-152 | if the first n items of the queue are due, n rounds of the worker call the functions of just those that were not killed |
| Work.CancelDooms | kernel/work.c:72-92 | cancelling a queued item stops it exactly if it is not the one that is running; the lock stays taken exactly if it was cancelled before and does not run |
| Work.NothingStarts | kernel/work.c:83-84 | once the lock stays taken the queue never changes, and nothing runs but the item at hand |
| Work.CancelledNeverRuns | kernel/work.c:72-152 | an item that was stopped never runs, however the run goes on |
| Work.RescheduleLost | kernel/work.c:43-70 | an item rescheduled with the clock moving past the delay is not queued by that, nor freed; otherwise it is queued |
| Work.WorkQueue.ScheduleWork | kernel/work.c:32-41 | queued in front of the first later deadline |
| Work.WorkQueue.ScheduleWorkAt | kernel/work.c:43-52 | refused exactly if the time has passed, and then nothing changes; else the item has that time and is in the queue |
| Work.WorkQueue.WorkReschedule | kernel/work.c:60-71 | refused exactly if the running item was cancelled; else it has the clock at the call plus the delay as its deadline and is in the queue, unless the clock has gone past that |
| Work.WorkQueue.WorkCancel | kernel/work.c:72-92 | the flag that is set depends on whether the item is current; -1, with the lock held, exactly if it was cancelled and is not |
| Work.WorkQueue.Take | kernel/work.c:138-152 | takes the first item if it is due, and leaves the queue as it was otherwise |
| Work.WorkQueue.BeginWork | kernel/work.c:121-130 | the function is called exactly if the item was not killed |
| Work.WorkQueue.EndWork | kernel/work.c:130-136 | the item is freed exactly if it was not rescheduled |
| Work.WorkQueue.Interleave | kernel/work.c:32-152 | every interleaving of callers, clock and worker is a run of the specification |
| Sched.FirstIsUnique | kernel/sched.c:890-911 | there is one first eligible task after a given one |
| Sched.NextFurther | kernel/sched.c:890-911 | passing over a task that cannot run leaves the same first one, closer |
| Sched.PickComesCloser | kernel/sched.c:973-985 | a pick that passes over an eligible task leaves fewer tasks in front of it, dying ones being reaped on the way |
| Sched.Fair | kernel/sched.c:973-985 | a task that stays eligible is chosen within as many picks as there are tasks, those that join counted, whatever happens in between |
| Sched.ChosenAgain | kernel/sched.c:973-985 | with nothing but picks, the running task that gives way, and every task that waits for its turn, is chosen within as many picks as there are tasks |
| Sched.Scheduler.Exit | kernel/syscall.c:462-467 | the current task is dying and the cleanup is asked for |
| Sched.Scheduler.Cleanup | kernel/sched.c:858-866 | each task in so many words: the dying are off the ring, those asleep or blocked that one of them wakes can run, and the others are as they were |
| Sched.Scheduler.PickNextTask | kernel/sched.c:850-911 | reaps the dying and ends with the first task that can run behind the current one, going round, waking it if it slept; all others are as the reaping left them |
| Sched.Scheduler.Reschedule | kernel/sched.c:928-985 | with preemption on: a task that was running is afterwards running or preempted, the next in turn that can run is running, and every other task keeps its state unless it was dying or was woken by one that was; with preemption off the current one runs on |
| Path.TokensOfConcat | lib/string.c:158-195 | the components of a path joined with a separator are those of both parts |
| Path.TokensOfJoin | fs/vfs.c:446-465 | cutting up a joined path gives back its components |
| Path.OneToken | lib/string.c:158-195 | skipping separators and taking what follows is taking the first component |
| Path.StrtokR | lib/string.c:158-195 | the first token, ended by a NUL in the buffer, and the place behind it |
| Path.WalkSplits | fs/vfs.c:397-437 | the result is what is left of the start with plain components on top |
| Path.PlainIff | fs/vfs.c:363-437 | "." or ".." is in the result exactly if it is in the part of the working directory that is left |
| Path.CanonicalTwice | fs/vfs.c:355-475 | idempotent exactly if the result has no "." or "..", as with every canonical working directory |
| Path.CwdIsCanonical | kernel/syscall.c:985-1012 | after any run of chdirs the working directory has no "." or "..", so canonicalising is always idempotent |
| Path.ChdirsCompose | kernel/syscall.c:985-1012 | a run of chdirs along relative paths leads where one along all of them does |
| Path.Composes | fs/vfs.c:355-475 | going to a and then to a relative b is going to a/b |
| Path.OneMore | fs/vfs.c:397-437 | a plain component comes behind what a path is, "." changes nothing, and a/c/.. is a |
| Path.Starts | fs/vfs.c:355-437 | the root is its own parent, a path from the root does not depend on the working directory, and any other is the working directory with it behind |
| Path.SizeOfJoin | fs/vfs.c:439-446 | the computed size is the length of the result |
| Path.PushAll | fs/vfs.c:363-437 | both tokenising loops: components pushed raw, or resolved |
| Path.Canonicalize | fs/vfs.c:355-475 | the canonical path and its NUL, filling the buffer exactly |
| Checksum.FoldKeeps | net/ip.c:34-38 | folding ends, keeps the sum modulo 65535, and gives zero for zero only |
| Checksum.FoldsToOnes | net/ip.c:34-38 | a sum folds to 0xFFFF exactly if it is a positive multiple of 65535 |
| Checksum.ComplementCompletes | net/ip.c:34-42 | any sum with the complement of its fold added folds to 0xFFFF |
| Checksum.OrderDoesNotMatter | net/ip.c:23-43 | reading in the other byte order multiplies the sum by 256 modulo 65535 |
| Checksum.OnesInBothOrders | net/ip.c:23-43 | the words sum to 0xFFFF in one byte order exactly if they do in the other |
| Checksum.SumIsInternetSum | net/tcp.c:46-86 | the sum is the one of RFC 1071: two bytes at a time, the high one first, an odd last byte with a zero behind it |
| Checksum.InternetSumParts | net/tcp.c:46-86 | pseudo-header and segment are summed up as one; a zero behind an odd number of bytes makes no difference |
| Checksum.PseudoIsInternetSum | net/tcp.c:64-75 | what is added for the pseudo-header is the sum of its twelve bytes: addresses, 0, 6, length |
| Checksum.ChecksumsHold | net/tcp.c:46-98 | the two predicates used below say just that the bytes of header, and of pseudo-header and segment, sum up to 0xFFFF |
| Checksum.IpCalculateChecksum | net/ip.c:23-43 | the complement of the folded sum of the ten header words |
| Checksum.IpUpdateLength | net/ip.c:45-52 | the length is stored, the header sums to 0xFFFF in both byte orders, and no other byte changes |
| Checksum.IpSetProto | net/ip.c:54-61 | the protocol is stored, the header sums to 0xFFFF, and no other byte changes |
| Checksum.TcpCalculateChecksum | net/tcp.c:46-86 | the swapped complement of segment and pseudo-header, for even and odd lengths |
| Checksum.TcpFinalizePacket | net/tcp.c:88-98 | segment and pseudo-header sum to 0xFFFF, so does the IP header, and only the checksum and length fields change |

## Assumptions

- Sizes, addresses, block numbers and ticks do not wrap around at 32 bits.
- Clients of the hash table bring a strict weak order that agrees with their hash. The TCP and
  UDP comparators do not (they compare an element with itself), the ARP cache does.
- Blocks of the disk that are not in use hold zeros, and block 0 does: of the index blocks only
  the singly indirect one is zeroed when it is allocated (fs/ext2/inode.c:315-316), and an unset
  singly indirect pointer makes the getter read block 0 (fs/ext2/inode.c:223).
- Values read just after a `free` are what they were just before it (fs/ext2/inode.c:250-251).
- A work item is queued by one caller at a time and is not queued already.
- Whoever makes a task dying asks for the cleanup, as `sys_exit` does; no task that a dying one
  wakes up is the current one.
- The sector count of an inode covers the blocks that are there, as it does in every file that this
  code has written.
- A file's contents do not change while pages are loaded from it.

## Left out

- Heap.Heap.Malloc: the iterator number is not modelled; bytes of headers and stored offsets are kept in maps of their own, apart from the bytes of clients.
- Heap.Heap.Realloc: the word in front of an unaligned pointer is a parameter, as it belongs to another client.
- Heap.Heap.Free: a header is live if it is in the map; that a dead word never looks like the magic number is assumed, and the counter of possible overruns is left out.
- Heap.Heap.Serve: a request of nothing with no alignment gets the default alignment and has to be freed with it; na_free with the alignment asked for would not find it. A run stops where memory is out, which is a panic, and where realloc freed a block that was not its own.
- Mmu.Mmu.CopyPageDir: new directories and tables get numbers never used before instead of heap addresses, and the table's own entry flags are not modelled.
- Mmu.Mmu.LoadPage: takes the page's contents as given; vma.dfy says what they are, and faults.dfy puts both together.
- Mmu.Mmu.WriteByte: a failing malloc in __do_cow is left out; with no free frame the store fails, where the kernel panics.
- Hash.HashTable.FindElem: chains are sequences with the list operations that list.dfy proves for linked nodes.
- Ext2Alloc.Volume.AllocBlock: failing allocations of buffers are left out, as is writing the superblock back; the descriptors fit one block.
- Ext2Inode.FileSystem.SetBlockNumber: a full disk is left out: callers compare the -1 of the allocator with zero and go on. The blocks of files are kept in a map of their own, apart from bitmaps and descriptors.
- Ext2Inode.FileSystem.ReadOrCreate: takes the inode as a value and hands back the new one where the code updates a buffer in place.
- Ext2File.File.WriteFile: positions beyond the reach of the doubly indirect block are left out, as is a sector count that does not cover the blocks that are there, with which blocks would be replaced.
- Vma.AddressSpace.CreateInsert: the list of areas is a sequence; flags other than those for reserved and writeable areas, and locking, are left out.
- Path.PushAll: the list of components is a sequence.
- Path.Canonicalize: failing allocations are left out.
- Sched.Scheduler.PickNextTask: what reaping does beside the ring is left out, signals to a parent that is the current task included; with no eligible task the search never ends.
- Sched.Scheduler.Reschedule: signals delivered on the way and the stack switch are left out.
- Work.WorkQueue.Interleave: the steps are those between which the lock or the processor can change hands; races on the flag words are left out. A call that would wait for a lock that is never given back is no step.
- The triply indirect block, directories, truncation and inode allocation of ext2.
- The TCP state machine, the UDP and ICMP checksums, ARP and the network drivers.
- TLB, register frames, kernel page faults and the kernel half of page tables.
- Exit beside the ring, wait, signals, unmapping of areas, the other devices, procfs, devfs and the terminal.
