# Pintos, verified

A Dafny model of the parts of the Pintos kernel where state is hardest to keep straight, and proofs
of what that code is for. Each module follows one source file, or one layer over several:

- `LinkedList`, `StableSort`: the intrusive doubly linked list and its in-place natural merge sort.
- `Synch`, `SynchInvariant`, `SynchRuns`, `SynchCalls`: threads, semaphores, locks and condition variables as a step
  machine. A step is a section that runs with interrupts off; the timer may preempt between any two,
  and interrupt handlers may "up" semaphores. The results hold in every reachable state or over every
  run.
- `Bits`, `Bitmap`, `Palloc`, `Malloc`: words and their bits, the bitmap, the page allocator and the
  block allocator on top of it, with the bytes that realloc moves and free overwrites.
- `Disk`, `Swap`, `InodeIO`, `Directory`, `DirectoryIO`, `Ownership`, `InodeTable`, `DiskState`,
  `MapFile`, `FileSysState`, `FileSys`, `FileSysCases`: the swap table, and the file system from sectors up to
  filesys_create, filesys_open, filesys_remove and the file operations, over the bytes on the device.
- `Hash`: the chained hash table, and the comparison function of the supplemental page table.
- `PageDir`, `Loader`, `Stack`: page directories, the PT_LOAD case of the loader, argument passing.
- `Arithmetic`, `Printf`, `Vprintf`, `Formats`, `Ustar`: 64-bit division on a 32-bit divide instruction,
  integer formatting and atoi, printf and what its formats mean, ustar headers.

Code that changes state in place is modelled by classes and methods with loops, each proved against a
specification on values. Whether a request for memory succeeds is a parameter of the operation that
makes it, so every error path is there. Machine integers are written out where their width matters.

`dafny verify dfyconfig.toml` checks everything.

## Model

| member | source | states |
|---|---|---|
| LinkedList.List.Insert | pintos/src/lib/kernel/list.c:168-178 | The links spell out the old sequence with the element put in before the given one. |
| LinkedList.List.Remove | pintos/src/lib/kernel/list.c:248-255 | The links spell out the old sequence without the element, and the one that followed it is returned. |
| LinkedList.List.Splice | pintos/src/lib/kernel/list.c:183-204 | Relinking six pointers exchanges two adjacent blocks of the list and loses no element. |
| LinkedList.List.FindEndOfRun | pintos/src/lib/kernel/list.c:357-372 | The run returned is nonempty and sorted, and it cannot be extended. |
| LinkedList.List.InplaceMerge | pintos/src/lib/kernel/list.c:379-399 | Two adjacent runs become their stable merge in place, and the rest of the list stays. |
| LinkedList.List.Sort | pintos/src/lib/kernel/list.c:404-440 | For every strict weak order, list_sort leaves a sorted rearrangement in which equal elements keep their order; it ends, because each pass leaves fewer runs. |
| StableSort.StableSortUnique | pintos/src/lib/kernel/list.c:404-440 | There is only one stable sort of distinct elements, so the contract of Sort determines the whole result. |
| StableSort.MergeStable | pintos/src/lib/kernel/list.c:379-399 | Taking from the second run only what is strictly less gives a stable sort of the two runs. |
| SynchInvariant.StepKeepsInv | pintos/src/threads/synch.c:60-338 | Every enabled step, preemption, interrupt, creation and exit included, is defined in a good state and leads to a good state. |
| SynchRuns.ReachableInv | pintos/src/threads/thread.c:87-119 | Hence every state that any run from start-up reaches is good. |
| SynchRuns.ElemInOneList | pintos/src/threads/thread.c:239-269 | In every reachable state a thread's list element is in at most one list: the ready list holds ready threads once, wait lists blocked ones once, and never two lists the same; so thread_unblock's assertion in sema_up holds. |
| SynchRuns.NoLostWakeup | pintos/src/threads/synch.c:60-121 | In every reachable state value + downs = initial value + ups, and while a thread waits, at least `value` others have been woken, are not blocked and have yet to test the value again. |
| SynchCalls.UnitsCounted | pintos/src/threads/synch.c:60-121 | Over every run, a semaphore's value, its ups and its downs change by exactly the calls of sema_up, from threads and interrupt handlers, and the threads that got out of sema_down or succeeded with sema_try_down; likewise for the semaphores in locks. |
| SynchCalls.UpWakesFront | pintos/src/threads/synch.c:107-121 | In every reachable state, every sema_up adds one to the value and takes the thread that has waited longest, if any, from blocked to the back of the ready list; other semaphores stay and the caller goes on. |
| SynchCalls.DownExactly | pintos/src/threads/synch.c:60-78 | In every reachable state, a thread in sema_down takes a unit and goes on, or there is none and it goes to sleep behind the other waiters, to test again. |
| SynchCalls.TryExactly | pintos/src/threads/synch.c:83-101 | sema_try_down takes a unit exactly if there is one and never sleeps, and lock_try_acquire goes on to become the holder exactly then. |
| SynchCalls.LineExactly | pintos/src/threads/thread.c:258-326 | In every reachable state, the order of turns (running thread, then ready list) changes as it should: thread_yield sends the first to the end, sleep and thread_exit take it out, thread_create and sema_up add one at the end, and nothing else moves anybody. |
| SynchRuns.MutualExclusion | pintos/src/threads/synch.c:192-236 | In every reachable state at most one thread is past a lock's sema_down and not past its sema_up, although it can be preempted next to the assignments to `holder`. |
| SynchCalls.BusyExactly | pintos/src/threads/synch.c:192-236 | In every reachable state a lock's semaphore is 0 if and only if some thread is inside, and never above 1. |
| SynchCalls.AcquireReturnsHolding | pintos/src/threads/synch.c:192-302 | Over every run, lock_acquire and cond_wait return to their caller only when it is the holder of the lock. |
| SynchCalls.ReleaseReturnsOutside | pintos/src/threads/synch.c:226-236 | Over every run, lock_release returns with the caller no longer inside. |
| SynchRuns.CondListsExclusive | pintos/src/threads/synch.c:287-338 | No two threads are inside the queue operations of the condition variables of one lock. |
| SynchRuns.AcquiresNotHeld | pintos/src/threads/synch.c:192-302 | In every reachable state a thread about to acquire a lock, directly or at the end of cond_wait, does not hold it, which is what lock_acquire asserts. |
| SynchRuns.DispatchedInTurn | pintos/src/threads/thread.c:502-578 | Over every run, the thread in place k of the ready list is the one dispatched by the (k+1)-th later call of schedule. |
| SynchRuns.SignalReleasesTarget | pintos/src/threads/synch.c:311-322 | In every reachable state, the sema_up in cond_signal releases the waiter that was taken off the queue, asleep or not, and changes no queue and no other semaphore. |
| SynchCalls.SignalsAsMany | pintos/src/threads/synch.c:311-338 | Over every run, while a thread is in cond_signal or cond_broadcast only it touches the queue, and when it returns it has taken off one waiter, or all that it found, as far as there were any. |
| SynchRuns.WaitsItsTurn | pintos/src/threads/synch.c:287-322 | Over every run with at most k signals, the waiter in place k of the queue is still waiting. |
| SynchRuns.SignalledInTurn | pintos/src/threads/synch.c:287-322 | Over every run, the (k+1)-th signal takes as its target the waiter that was in place k, and no other. |
| SynchRuns.SignalDelivered | pintos/src/threads/synch.c:287-322 | Over every run, from the moment a signaller has taken a waiter off the queue: when the signaller runs again the waiter is released, it stays so whatever happens, and when it runs it gets through its semaphore. |
| SynchRuns.OnlySignalledLeave | pintos/src/threads/synch.c:287-302 | Nobody gets past its semaphore in cond_wait without having been signalled. |
| SynchRuns.StackSemaphoreUnreferenced | pintos/src/threads/synch.c:287-322 | The semaphore on a waiter's stack is on no queue, awaited by nobody and about to be "upped" by nobody once its thread has left it. |
| Bitmap.Bitmap.Contains | pintos/src/lib/kernel/bitmap.c:251-264 | True exactly when some bit of the range has the value. |
| Bitmap.Bitmap.SetMultiple | pintos/src/lib/kernel/bitmap.c:218-229 | Bits of the range take the value, all others are kept, over the words in memory. |
| Bitmap.Bitmap.Scan | pintos/src/lib/kernel/bitmap.c:296-311 | The least position from START on where CNT bits have the value, or none if there is none. |
| Bitmap.Bitmap.ScanAndFlip | pintos/src/lib/kernel/bitmap.c:320-327 | First fit, and exactly the bits found are flipped; without a fit nothing changes. |
| Bitmap.Bitmap.MaskLast | pintos/src/lib/kernel/bitmap.c:65-70 | Masking the last word clears its spare bits and no bit of the map. |
| Bitmap.FileSizeLeast | pintos/src/lib/kernel/bitmap.c:50-61 | The least number of whole words that is enough. |
| MapFile.WriteMap | pintos/src/lib/kernel/bitmap.c:356-361 | The write succeeds exactly when memory or whole sectors allow it; then the file holds the map's bits; in any case only data of the map's file change. |
| MapFile.ReadMap | pintos/src/lib/kernel/bitmap.c:341-352 | The read succeeds under the same condition, and then the map is the file's bits: what WriteMap wrote is read back. |
| Palloc.Pool.Get | pintos/src/threads/palloc.c:70-101 | The pages handed out are a new run apart from all outstanding ones; failure means that no run of that many free pages exists. |
| Palloc.Pool.Free | pintos/src/threads/palloc.c:117-142 | Returning an outstanding run gives back exactly its pages. |
| Palloc.PageAllocator.Free | pintos/src/threads/palloc.c:117-142 | Finding the pool by address, an outstanding run of either pool goes back to its own pool. |
| Palloc.PoolLayout | pintos/src/threads/palloc.c:45-62 | The two pools' used maps and pages lie one after the other in the free memory, without overlap and without a page lost. |
| Palloc.RoundUpLeast | pintos/src/lib/round.h:10-10 | The least number of steps that is enough. |
| Malloc.DescriptorSizes | pintos/src/threads/malloc.c:71-85 | malloc_init's loop makes the seven descriptors for 16 to 1024 bytes. |
| Malloc.StartOf | pintos/src/threads/malloc.c:267-294 | block_to_arena and arena_to_block undo each other, and the assertions in them hold. |
| Malloc.Heap.Malloc | pintos/src/threads/malloc.c:89-154 | The block is new, none of those outstanding, and of the smallest descriptor that is large enough, or of as few pages as possible. A free block of that size is used before the pool is asked. Failure means a request for no bytes, or no such free block and no room in the pool. |
| Malloc.Heap.Free | pintos/src/threads/malloc.c:218-264 | Exactly that block is given up, a small one is filled with 0xcc, an arena goes back to the pool with its last block, and no byte of another outstanding block changes. |
| Malloc.Heap.Realloc | pintos/src/threads/malloc.c:194-214 | On success the new block, as malloc would choose it, begins with the old one's first min(old block size, new size) bytes and replaces it; it fails only where malloc would, and then the old block stays as it was; no byte of another block changes. |
| Malloc.Heap.OutstandingDisjoint | pintos/src/threads/malloc.c:89-264 | After any sequence of calls, outstanding blocks do not overlap, in the whole room they have. |
| Malloc.Heap.AllReturned | pintos/src/threads/malloc.c:218-264 | When every block has been freed, the pool has back every page that arenas took. |
| Malloc.PointersFit | pintos/src/userprog/process.c:637-720 | The block that setup_stack gets for 4 * argc + 1 bytes has room for the argc + 1 pointers that it stores there. |
| Swap.SwapSpace.SwapOut | pintos/src/vm/swap.c:42-59 | A page goes to a slot not in use, and only a full swap device refuses it. |
| Swap.SwapSpace.SwapIn | pintos/src/vm/swap.c:62-75 | The page read back is the one that was put in that slot, whatever went in and out since, and the slot is free again. |
| Swap.SwapSpace.ClearSlot | pintos/src/vm/swap.c:77-81 | Only that slot is given up. |
| InodeIO.SectorsLeast | pintos/src/filesys/inode.c:25-29 | The least number of sectors that is enough. |
| InodeIO.TransferredExactly | pintos/src/filesys/inode.c:200-318 | A transfer moves the largest number of bytes that was asked for and is there; without memory, the whole sectors of it from an aligned offset, or none. |
| InodeIO.ReadAt | pintos/src/filesys/inode.c:200-250 | The chunk loop puts exactly the file's bytes from OFFSET on, clipped to request and length, into the buffer; without memory only whole sectors from an aligned offset. |
| InodeIO.WriteAt | pintos/src/filesys/inode.c:257-318 | The device afterwards is the device before with exactly those bytes spliced in, none while writes are denied. |
| InodeIO.FileUpdated | pintos/src/filesys/inode.c:257-318 | Then the file reads as its old contents with the bytes spliced in. |
| InodeIO.OtherSectorKept | pintos/src/filesys/inode.c:257-318 | Then no sector outside the file's extent differs. |
| DirectoryIO.Lookup | pintos/src/filesys/directory.c:91-112 | The first slot in use with the name, or where the read fails. |
| DirectoryIO.WriteSlot | pintos/src/filesys/directory.c:141-179 | One 20-byte entry is written, or nothing. |
| Directory.NewEntry | pintos/src/filesys/directory.c:141-179 | The bytes written decode to the sector, the name and in_use. |
| Directory.CanListExactly | pintos/src/filesys/directory.c:141-179 | dir_add succeeds if and only if the name has one to 14 characters and is not found before memory runs out, the entry can be written, and a slot is free or cannot be read for lack of memory. |
| Directory.AddedExactly | pintos/src/filesys/directory.c:141-179 | Then the name is found with its sector, the slot is the first that is free or where memory ran out, and no other slot changes. |
| Directory.UniqueExactly | pintos/src/filesys/directory.c:141-179 | dir_add keeps names unique if and only if its lookup does not give up for lack of memory before an entry of that name. |
| Directory.DuplicateName | pintos/src/filesys/directory.c:141-179 | With "a" in the first of the sixteen slots and any slot free, a call whose first read gets no memory lists "a" twice. |
| Directory.OverwritesExactly | pintos/src/filesys/directory.c:141-179 | Every name that was found before dir_add is found afterwards if and only if its search for a free slot does not give up, for lack of memory, at a slot in use whose name no other slot has. |
| Ownership.InodeReleased | pintos/src/filesys/inode.c:163-186 | Unmarking what one inode owns keeps the others' sectors marked and apart. |
| InodeTable.DenyAtMostOpen | pintos/src/filesys/inode.c:322-338 | Files that deny writes to an inode are among those that hold it open, which is what the assertions say. |
| FileSys.FileSystem.SectorOwnership | pintos/src/filesys/free-map.c:27-50 | Between any two operations, a sector that belongs to an inode (the free map's, the root's, listed, or open and perhaps removed) is marked and belongs to no other. |
| FileSys.FileSystem.InodeCache | pintos/src/filesys/inode.c:111-142 | Between any two operations there is one in-memory inode for a sector, its header is the one on disk, and its counters count openers and deniers. |
| FileSys.FileSystem.CanRemount | pintos/src/filesys/free-map.c:53-61 | With no file open and the map on disk up to date, what is on the device meets the condition of Mount. |
| FileSys.FileSystem.Allocate | pintos/src/filesys/free-map.c:27-41 | First fit; it succeeds exactly when there is room and the map can be written, and then the map on disk is the one in memory; failure restores the map. |
| FileSys.FileSystem.Release | pintos/src/filesys/free-map.c:44-50 | The range is unmarked, in memory and, if the write succeeds, on disk. |
| FileSys.FileSystem.InodeOpen | pintos/src/filesys/inode.c:111-142 | An open inode is shared, otherwise one is loaded; it fails exactly for lack of memory; the state stays in order. |
| FileSys.FileSystem.InodeClose | pintos/src/filesys/inode.c:163-186 | The last reference to a removed inode unmarks exactly its sectors; any other leaves device and map alone. |
| FileSys.FileSystem.InodeCreate | pintos/src/filesys/inode.c:72-106 | It succeeds exactly with memory, room and a map that can be written; then the inode is one of zeros of that length in sectors nobody owned, and no other inode is touched. |
| FileSys.FileSystem.Create | pintos/src/filesys/filesys.c:45-59 | The exact condition of success; then the name is listed, exactly the new inode's sectors are newly marked and the file reads as zeros. A failure leaves the free map as it was if and only if dir_add is not what failed or the file has no data; otherwise exactly the sectors of the data stay marked. The exact conditions under which names stay unique and under which every name found before is found afterwards. Every other inode is untouched. |
| FileSysCases.EmptyNameLeaks | pintos/src/filesys/filesys.c:45-59 | On every formatted device with two free sectors, filesys_create of one byte under the empty name fails and leaves a sector marked, with no name in use. |
| FileSysCases.DuplicateFile | pintos/src/filesys/filesys.c:45-59 | On every such device, "a" can be created twice, when one read gets no memory. |
| FileSysCases.LostFile | pintos/src/filesys/filesys.c:45-59 | On every such device, creating "b" can succeed at the cost of "a", when one read gets no memory. |
| FileSys.FileSystem.Remove | pintos/src/filesys/filesys.c:83-91 | The exact condition of success; then the name is gone, and the inode's sectors are freed now if it is not open and not at all otherwise. Every other inode is untouched, names stay unique. |
| FileSys.FileSystem.Open | pintos/src/filesys/filesys.c:66-77 | The exact condition of success; then a new file at position 0 is open on the inode of that name. Device and free map do not change. |
| FileSys.FileSystem.Reopen | pintos/src/filesys/file.c:38-42 | A new file on the same inode, exactly if memory can be had. Device and free map do not change. |
| FileSys.FileSystem.Close | pintos/src/filesys/file.c:45-54 | The file is gone and its denial with it; the last file on a removed inode frees exactly that inode's sectors; every other inode is untouched. |
| FileSys.FileSystem.Read | pintos/src/filesys/file.c:68-74 | The bytes read are those of the file at the position, which advances by their number. |
| FileSys.FileSystem.Write | pintos/src/filesys/file.c:94-100 | Exactly the bytes asked for, clipped, change in this file, none while another file denies writes, and every other inode, open or not, is untouched. |
| FileSys.WrittenIsRead | pintos/src/filesys/file.c:68-100 | What was written is what a later read of the same place finds. |
| FileSys.FileSystem.DenyWrite | pintos/src/filesys/file.c:118-127 | The file denies writes afterwards, whether or not it did before, and the counter keeps up. |
| FileSys.FileSystem.AllowWrite | pintos/src/filesys/file.c:132-141 | The file no longer denies writes, and the counter keeps up. |
| FileSys.BlankReadsZeros | pintos/src/filesys/inode.c:72-106 | A file just created reads as zeros at every offset. |
| FileSys.Format | pintos/src/filesys/filesys.c:94-103 | Map file, map and root directory are laid out as expected, and the map on disk is the one in memory. |
| FileSys.Mount | pintos/src/filesys/free-map.c:53-61 | From a disk in order as its own map has it, free_map_open recovers that map and a file system in order. |
| FileSys.Init | pintos/src/filesys/filesys.c:17-31 | Formatting and mounting give a file system in order with no name in use, in which exactly the two headers, the map's data and the root directory's are marked. |
| Hash.BucketCount | pintos/src/lib/kernel/hash.c:351-413 | The loop that clears least bits leaves a power of two, the greatest one not above half the count, or 4. |
| Hash.BucketIsRemainder | pintos/src/lib/kernel/hash.c:305-310 | The bucket is the hash value modulo the number of buckets. |
| Hash.Table.Insert | pintos/src/lib/kernel/hash.c:98-110 | An equal element is returned and nothing changes, or none existed and the set grows by exactly this one. |
| Hash.Table.Replace | pintos/src/lib/kernel/hash.c:114-127 | The equal element, if any, is exchanged for this one. |
| Hash.Table.Find | pintos/src/lib/kernel/hash.c:131-135 | An equal element of the set, or none exists. |
| Hash.Table.Delete | pintos/src/lib/kernel/hash.c:144-154 | Exactly the equal element goes, or none existed. |
| Hash.Table.Rehash | pintos/src/lib/kernel/hash.c:351-413 | The set and its count are unchanged; with memory there are fewer than four elements a bucket, without it the buckets stay. |
| Hash.Visit | pintos/src/lib/kernel/hash.c:199-235 | Iteration visits every element of the set exactly once. |
| Hash.AddressLessNoOrder | pintos/src/vm/page.c:129-138 | The supplemental page table's comparison is not an order: two addresses are each less than the other. |
| Hash.AddressLessSuitable | pintos/src/vm/page.c:129-138 | It still tells addresses apart, which is all that the table needs. |
| PageDir.EntryRoundTrip | pintos/src/threads/pte.h:70-104 | A page table entry made for a page decodes to that page and its writability; it is present and the user's, and a directory entry is writable besides. |
| PageDir.PageDirectory.LookupPage | pintos/src/userprog/pagedir.c:56-86 | It finds or creates the table without changing any translation, and fails exactly when there is neither table nor memory. |
| PageDir.PageDirectory.SetPage | pintos/src/userprog/pagedir.c:98-119 | Exactly one translation is added, and it fails exactly when there is neither table nor memory. |
| PageDir.PageDirectory.GetPage | pintos/src/userprog/pagedir.c:125-137 | The translation of any user address, or null if its page is not mapped. |
| PageDir.PageDirectory.ClearPage | pintos/src/userprog/pagedir.c:143-157 | Exactly one translation is removed. |
| PageDir.PageDirectory.SetFlag | pintos/src/userprog/pagedir.c:163-215 | The flag of a mapped page takes the value; its other flag, other pages' flags and all translations stay. |
| PageDir.PageDirectory.Destroy | pintos/src/userprog/pagedir.c:27-48 | Each page is freed as often as it is mapped, a table or the directory; if frames, tables and directory are different pages, exactly those are freed, each once. |
| Loader.ValidatesExactly | pintos/src/userprog/process.c:533-574 | validate_segment accepts a header if and only if, in unbounded numbers, file offset and address agree within a page, the offset is in the file, p_filesz <= p_memsz > 0 and the segment lies from page 1 up to PHYS_BASE. |
| Loader.LayoutMeetsAssertions | pintos/src/userprog/process.c:470-499 | For every header that validate_segment accepts nothing wraps, the assertions of load_segment and file_seek hold, and the pages lie below PHYS_BASE, not at page 0, and cover the segment. |
| Loader.LoadSegment | pintos/src/userprog/process.c:590-633 | It succeeds exactly when every page can be had, read and mapped; then every page holds its file bytes and zeros and has the permission asked for, and no other page changes. |
| Loader.LoadPhdr | pintos/src/userprog/process.c:470-499 | It succeeds if and only if the header is acceptable in that sense, the file has all of p_filesz, and each page that the segment reaches into is not mapped yet and can be had. Then exactly those pages are added, the process reads the file's bytes at the segment's addresses and zeros up to p_memsz, and may write there if and only if bit 1 of p_flags is set. |
| Loader.SegmentSeen | pintos/src/userprog/process.c:590-633 | Once every page is loaded, the byte at each address of the segment is the file's, or zero past p_filesz. |
| Stack.Spacing | pintos/src/lib/string.c:234-275 | Every string is its tokens with gaps of spaces around them, none of them empty between two tokens. |
| Stack.TokensOf | pintos/src/lib/string.c:234-275 | However nonempty words without spaces are spaced so, they are the tokens: the tokens are the maximal runs of other characters and nothing else. |
| Stack.Strtok | pintos/src/lib/string.c:234-275 | Over the string in place, the next token and the rest, or none when only separators are left. |
| Stack.CountTokens | pintos/src/userprog/process.c:637-720 | The first pass over a copy counts the command line's words. |
| Stack.SetupStack | pintos/src/userprog/process.c:637-720 | The page ends in a frame (return address, argc, argv, pointers in order, a null pointer, word alignment, the strings), and a process that follows argc and argv in it reads exactly the words of the command line. |
| Stack.DecodedFrame | pintos/src/userprog/process.c:637-720 | That reading gives the words for every such frame, wherever the strings lie. |
| Arithmetic.Nlz | pintos/src/lib/arithmetic.c:41-73 | The number of leading zeros of a nonzero word. |
| Arithmetic.Udiv64 | pintos/src/lib/arithmetic.c:77-127 | The exact quotient for every 64-bit dividend and nonzero divisor; the divide instruction never traps. |
| Arithmetic.Umod64 | pintos/src/lib/arithmetic.c:131-135 | The low 32 bits of the remainder. |
| Arithmetic.UmodExactly | pintos/src/lib/arithmetic.c:131-135 | It is the remainder for every dividend if and only if the divisor is at most 2^32. |
| Arithmetic.TruncExactly | pintos/src/lib/arithmetic.c:139-154 | The quotient and remainder meant are the only ones with a remainder less than the divisor and of the dividend's sign: rounding is toward zero. |
| Arithmetic.Sdiv64 | pintos/src/lib/arithmetic.c:139-146 | Truncating division, wrapped to 64 bits. |
| Arithmetic.SdivExactly | pintos/src/lib/arithmetic.c:139-146 | It is the truncated quotient if and only if it is not the most negative number divided by -1. |
| Arithmetic.Smod64 | pintos/src/lib/arithmetic.c:150-154 | The remainder of truncating division, cut to 32 bits. |
| Arithmetic.SmodExactly | pintos/src/lib/arithmetic.c:150-154 | It is that remainder for every dividend if and only if the divisor's magnitude is at most 2^31. |
| Printf.FormatInteger | pintos/src/lib/stdio.c:469-547 | The characters put out, through a 64-character buffer that never overflows, are padding, sign, prefix and digits in the order that the flags ask for. |
| Printf.ReversedValue | pintos/src/lib/stdio.c:469-547 | The digits, read back in their base and without the group separators, are the number. |
| Printf.WidthExactly | pintos/src/lib/stdio.c:469-547 | The field is max(needed, width) wide if and only if '-' and '0' are not both in force with something to pad. |
| Vprintf.FlagsInARow | pintos/src/lib/stdio.c:339-460 | The flags of a specification are the flag characters in a row, up to the first other character. |
| Vprintf.NumberReadsBack | pintos/src/lib/stdio.c:339-460 | A width or precision in the text is the number that it is the decimal of, for every number. |
| Vprintf.ParseConversion | pintos/src/lib/stdio.c:339-460 | Flags, width, precision, length, the place of the letter and the arguments used are those that the text and the arguments determine, place by place: what each `*` takes, what '-', '+', a negative width and a precision override. |
| Vprintf.BothFlagsExactly | pintos/src/lib/stdio.c:339-460 | '-' and '0' end up both in force if and only if the text has a '0' flag and no '-', its width is `*` with a negative argument, and it has no precision or a negative one. |
| Vprintf.FieldWidthExactly | pintos/src/lib/stdio.c:339-547 | A number's field is as wide as the text asks for, or as wide as it must be, if and only if not that case with something to pad. |
| Formats.DoublePadding | pintos/src/lib/stdio.c:339-547 | "%0*d" with -5 and 7 prints nine characters. |
| Vprintf.Vprintf | pintos/src/lib/stdio.c:156-333 | For every format and arguments for which C defines it, what is put out is the text with each specification replaced by its conversion, the arguments taken in order. |
| Vprintf.LiteralText | pintos/src/lib/stdio.c:156-333 | Text without '%' is put out as it is. |
| Formats.WholeFormat | pintos/src/lib/stdio.c:156-333 | A format prints what its parts print, one after the other: text as it is, "%%" as '%', and each specification, of any flags, width, precision, length and letter, what it prints on its own for its own argument. |
| Formats.StringFormat | pintos/src/lib/stdio.c:156-333 | %s prints the string, or its first characters if there is a precision, or "(null)", to the left or right in a field of the width asked for, with spaces. |
| Formats.PlainString | pintos/src/lib/stdio.c:156-333 | "%s" prints every string as it is. |
| Formats.CharFormat | pintos/src/lib/stdio.c:156-333 | %c prints the one character in such a field. |
| Formats.NumberFormat | pintos/src/lib/stdio.c:339-547 | %d, %i, %o, %u, %x and %X, with any flags, precision and length, print sign, prefix and digits of the right case that stand for the argument as a number of that type, as many as the precision asks for, and no zeros in front beyond that and what '#' asks for. |
| Formats.WidthFormat | pintos/src/lib/stdio.c:339-547 | A width puts spaces in front of that, or after it with '-'. |
| Formats.ZeroFormat | pintos/src/lib/stdio.c:339-547 | With a '0' that nothing overrides, it puts zeros between sign, prefix and digits instead. |
| Formats.GroupFormat | pintos/src/lib/stdio.c:469-547 | The flag ' puts a comma after every three digits from the end, four hexadecimal ones, and nowhere else. |
| Formats.PointerFormat | pintos/src/lib/stdio.c:156-333 | %p is %#x. |
| Formats.OtherLetters | pintos/src/lib/stdio.c:156-333 | An unsupported letter is named in the output, and no argument is taken. |
| Formats.StarWidthMeans | pintos/src/lib/stdio.c:339-460 | A width given as `*` is as if the argument were in the text, with '-' if it is negative, outside the case that BothFlagsExactly names. |
| Formats.StarPrecisionMeans | pintos/src/lib/stdio.c:339-460 | A precision given as `.*` is as if the argument were in the text, and none if it is negative. |
| Formats.OctalFormat | pintos/src/lib/stdio.c:156-547 | For every N > 0, "%0No" puts out the octal digits filled up with zeros to N places. |
| Vprintf.Vsnprintf | pintos/src/lib/stdio.c:25-52 | Of what the format puts out, the longest prefix that fits is stored and terminated, nothing beyond it changes, and the full length is returned. |
| Printf.Atoi | pintos/src/lib/stdlib.c:9-41 | The value of optional space, sign and digits, for numbers in the range of int. |
| Printf.AtoiExactly | pintos/src/lib/stdlib.c:9-41 | For white space, a sign or none, digits and whatever follows, that value is the number that the digits stand for, with the sign. |
| Printf.AtoiSplits | pintos/src/lib/stdlib.c:9-41 | Every string is of that form. |
| Formats.AtoiUndoesPrintf | pintos/src/lib/stdlib.c:9-41 | atoi gives back every int from what the format "%d" puts out for it. |
| Ustar.StripSafe | pintos/src/lib/ustar.c:65-73 | After stripping, the name is a nonempty suffix of the original or ".", starts with none of "/", "./" and "../", is not "..", and stripping it again changes nothing. |
| Ustar.StripExactly | pintos/src/lib/ustar.c:65-73 | A name that is any row of "/", "./" and "../" and a rest that starts with none of them is stripped to the rest, or to "." if that is empty or "..". |
| Ustar.StripSplits | pintos/src/lib/ustar.c:65-73 | Every name is of that form. |
| Ustar.CalculateChksum | pintos/src/lib/ustar.c:36-54 | The sum of all bytes with those of the checksum field taken as spaces. |
| Ustar.SumBlank | pintos/src/lib/ustar.c:36-54 | A header of null bytes sums up to eight spaces. |
| Ustar.SumChanged | pintos/src/lib/ustar.c:36-54 | Changing one byte changes the sum as much, or not at all in the checksum field. |
| Ustar.ParseOctalField | pintos/src/lib/ustar.c:129-162 | Digits up to a space or a null byte, refused when there are none, another character, no end, or a value that would not fit an unsigned long. |
| Ustar.OctalFieldExactly | pintos/src/lib/ustar.c:129-162 | A field is accepted with a value if and only if octal digits, at least one, up to a space or a null byte stand for it and it fits an unsigned long. |
| Ustar.OctalRoundTrip | pintos/src/lib/ustar.c:129-162 | A number that n octal digits can hold is put out in just n of them and read back. |
| Ustar.MakeHeader | pintos/src/lib/ustar.c:82-118 | It succeeds exactly for stripped names of at most 99 characters and then fills in every field of the header, mode, owner, time and padding included, through snprintf with the formats that the source gives, with a right checksum. |
| Ustar.HeaderRoundTrip | pintos/src/lib/ustar.c:181-227 | Parsing a header that was made gives the stripped name, the type and the size, for every size that an int can hold. |
| Ustar.ParseExactly | pintos/src/lib/ustar.c:181-227 | The exact conditions under which a header is the end of the archive, or is accepted, and what name, type and size it then gives. |
| Ustar.TamperingNoticed | pintos/src/lib/ustar.c:181-227 | Changing any one byte outside the checksum field of an accepted header makes it refused. |

## Left out

- Interrupt and device drivers, timer arithmetic, command line, the loader's assembly, page_fault, frame eviction, memory-mapped files, system calls, process_execute, process_wait and process_exit.
- list_reverse, list_unique, list_insert_ordered, list_max, list_min; hash_clear, hash_apply, hash_destroy; qsort and bsearch of stdlib.c; dir_readdir; calloc; hex_dump; they would add easy members.
- Synch: modelled on values as a step machine, not as objects; the reuse of a thread's page after it exits, sema_try_down called from interrupt handlers, priorities, and counters wrapping at 2^32 are not captured. Each condition variable belongs to one lock.
- SynchRuns.SignalDelivered: says what happens when the threads concerned run again; that they do run again depends on the timer and on the other threads, and no fairness is assumed.
- SynchCalls.UnitsCounted: not for the semaphores on the stacks of waiting threads, which each cond_wait initialises anew; SynchRuns.SignalDelivered is about those.
- LinkedList.List.Splice: within one list and towards the front only, which is the only use made of it.
- Palloc.Pool.Get: does not model page contents, PAL_ZERO and the 0xcc filling of freed pages, nor the panic of PAL_ASSERT.
- Palloc.Pool.Free: takes back whole runs as they were handed out, which is all that the kernel does; the source would also take part of one.
- Palloc.PageAllocator.Free: likewise.
- Malloc.Heap.Malloc: sizes within a page and a header of 2^32, for which the rounding up wraps, are excluded; the descriptors' locks and two threads inside the allocator at once are not modelled. Headers and free-list links are kept apart from the bytes of memory.
- Malloc.Heap.Realloc: likewise for sizes.
- Malloc.Heap.Free: takes only pointers to outstanding blocks, as its callers must.
- Swap.SwapSpace.SwapIn: takes only a slot in use, which is the caller's obligation: the source flips the bit of any slot.
- Swap.SwapSpace.ClearSlot: likewise.
- The file system is used by one thread at a time, since the source has no locks in it; pointers are numbers.
- FileSys.FileSystem.InodeOpen: only for inodes that exist, as all callers do; the source would read a header from any sector.
- FileSys.FileSystem.SectorOwnership: the converse, that a marked sector belongs to an inode, fails for the reasons that Create and Directory.OverwritesExactly state, and is not claimed.
- FileSys.FileSystem.Create: sizes above INT_MAX - 511, for which bytes_to_sectors overflows a signed int, which C leaves undefined, are excluded.
- FileSys.FileSystem.InodeCreate: likewise.
- FileSys.FileSystem.Seek: positions are unbounded; overflow of off_t is not modelled.
- FileSys.Init: memory is assumed for what filesys_init would otherwise panic about.
- PageDir.PageDirectory.SetFlag: only on user pages; the kernel part of a page directory and the flushing of translation caches are not modelled.
- Loader.LoadPhdr: only PT_LOAD; load's other program headers, its ELF header checks and its order of segments are not modelled.
- Stack.SetupStack: command lines whose frame fits in one page, and memory for the copies; the source checks neither.
- Vprintf.Vprintf: widths and precisions are unbounded integers; formats that end inside a specification, missing arguments, arguments of another kind and the negation of the least 64-bit number, all undefined in C, are excluded.
- Formats.WholeFormat: its parts have their widths and precisions in the text; a `*` is related to that by StarWidthMeans and StarPrecisionMeans for one specification at a time.
- Printf.Atoi: numbers outside the range of int, for which the source overflows, are excluded.
- Ustar.MakeHeader: regular files and directories only, which are the two types there are.
