# A verified model of the Linux 0.01 kernel core

This project models the parts of the `linux-0.01` kernel in which correctness is least
visible in any one function: memory management, the buffer cache, file storage, the disk
queue, the scheduler and its wait lists, the console, terminal input, the argument block
of execve, and the open-file table. Each part is written twice. The first form works in
place, as the C code does, on arrays and fields. The second is a simple reference that has
nothing of the mechanism in it: a fork that copies every page, a plain disk, a file as a
byte sequence, a 25x80 grid, a line editor with a current line. The in-place form is proved
to do what the reference does, over every run. What the references do is stated once more,
in TerminalLaws and in lemmas whose names end in Law or InBytes, on words, bits, bytes and
cells alone: these can be read against the C source without any other definition.

The kernel does not preempt itself, so where tasks interleave the model is a machine whose
steps run from one sleep point to the next.

## Files

| module | file | what it is |
|---|---|---|
| Sets, Bytes | Sets.dfy, Bytes.dfy | two facts about finite sets; the byte type |
| Paging | Paging.dfy | page directory, page tables and `mem_map` as one value, and what each elementary change keeps |
| MemoryManagement | MemoryManager.dfy | mm/memory.c and the page part of kernel/fork.c, in place |
| TableViews, CopyOnWrite | TableViews.dfy, CopyOnWrite.dfy | loads, stores and kernel pages through the page tables; the machine with private pages, by task and page, and the refinement over every run |
| BufferProtocol | BufferProtocol.dfy | getblk, get_hash_table and brelse between their sleep points |
| BufferLists, BufferCaches | BufferLists.dfy, BufferCache.dfy | hash chains and free ring; the cache against a plain disk |
| BlockTree, FileSystems, FileData | BlockTree.dfy, FileSystem.dfy, FileData.dfy | block map over the zone bitmap; in-place allocation and truncation; file contents as byte sequences |
| Elevator, HardDisk | Elevator.dfy, HardDisk.dfy | the request queue as a sequence; the linked list that implements it |
| WaitQueues | WaitQueues.dfy | sleep_on and wake_up: chains that exist only in stack variables |
| Schedulers | Scheduler.dfy | schedule, do_timer, sys_nice, and counter epochs over runs |
| Terminal, TerminalLaws, Consoles | Terminal.dfy, TerminalLaws.dfy, Console.dfy | the grid terminal; what each byte does to it, cell by cell; kernel/console.c over video memory |
| LineDiscipline, Ttys | LineDiscipline.dfy, Tty.dfy | input editing on sequences; the ring queues and copy_to_cooked, tty_read |
| ExecArgs, ExecTables | ExecArgs.dfy, ExecTables.dfy | copy_strings; create_tables and the way from execve to argv and envp |
| FileTables | FileTable.dfy | descriptors and file counts at every sleep point |

## How to read the main results

* **Copy on write.** `CopyOnWrite.Run`: whatever tasks fork, load, store, exec and exit, and
  whatever pages the kernel takes, maps and gives back, every load returns what it would if
  fork had copied every page of the parent's segment, and an event fails only when pages run
  out (`CopyOnWrite.Step`). The reference knows tasks and pages only; `CopyOnWrite.PageAtAddress`
  says which address a page has, and `MemoryManagement.CopiedPages` which pages a fork copies.
  `Paging.Inv` holds throughout: each counter is the number of page-table entries, directory
  entries and kernel holds that name the page.
* **Buffer cache.** `BufferProtocol.EveryInterleaving` and `IdentityOverRuns` are about all
  interleavings; `BufferCaches.Run` is about contents, from any state and with any buffers in
  use.
* **Files.** `FileData.Run`: reads, writes and truncations of many files on one device behave
  like operations on separate byte sequences, beside inodes that have no tree.
  `BlockTree.BmapInBytes` says on the bytes of the disk which block bmap finds.
* **Disk.** `Elevator.NoStarvation`: a queued request becomes current after boundedly many
  completions, whatever arrives meanwhile. `Elevator.SweepsOverRuns`: when the queue stays in
  two sweeps.
* **Scheduling.** `Schedulers.EveryEpoch`: at every recharge of every run each runnable task has
  used the time it was granted.
* **Waiting.** `WaitQueues.WakeUpSuffices`: after one wake_up every earlier sleeper becomes
  runnable.
* **Console.** `Consoles.Console.ConWrite`: for every byte stream the visible window is the
  grid terminal's screen, and no byte writes a cell that is not on the screen while it is handled.
* **Input.** `Ttys.Tty.Valid` is an invariant of all calls: what readers took, followed by what
  is queued, is what the reference makes of everything received, as long as no erase came too
  late for characters already read.
* **Exec.** `ExecTables.Execve`: the i-th pointer the new program finds names the i-th string given.

## Where the code does not do what is expected of it

* hd.c: insertion keeps at most one descent in the queue exactly when no queued request clashes
  with the new one at the same place (`Elevator.AddTwoSweeps`, with
  `Elevator.SamePlaceBreaksSweeps` as an instance). The absence of starvation does not need
  distinct places.
* memory.c: do_no_page loses a page when put_page finds none for the page table; the contract of
  `MemoryManagement.MemoryManager.DoNoPage` says exactly when, and
  `MemoryManagement.LosesLastPage` is an instance.
* buffer.c:103 writes a back link through a null pointer when the bucket was empty; the model
  writes it only when there is a next buffer.
* bitmap.c: new_block sets a bit past the last zone before it finds that the device is full;
  `FileSystems.FailedAllocation` shows that this harms nothing.
* bitmap.c:50-53: free_block returns early for a block in use and leaves the count raised that it
  took in order to look (`BufferCaches.BufferCache.FreeCached`).
* fcntl.c: dup2 with twice the same descriptor closes it and fails.
* console.c:431-433 compares the column, not the character, with '7' and '8'. `Terminal.ColumnDecides`
  says what then happens, `EscSevenRecords` and `EscEightReturns` when that is what is meant, and
  `EscSevenFails` is an instance.
* console.c:544 ignores a start position that is not on the screen and leaves the cursor address at 0.
* tty_io.c:169 raises signals when ISIG is off (`LineDiscipline.SignalsWhenIsigIsOff`, with
  `IsigTurnsInterruptsOff` as an instance). tty_read does not stop at a newline
  (`LineDiscipline.AtMostOneLine` says exactly when a reader gets at most one line), so an
  erase can come too late for characters that have been read
  (`LineDiscipline.EditingCommutesWithReading` says when, `EraseAfterRead` is an instance).
* exec.c:175 tests an unsigned number for being negative. Strings that are too long are not
  refused: `ExecArgs.ArgPages.CopyStrings` says what happens instead. A failure of the first
  copy_strings is passed to the second as an address (`ExecArgs.ArgPages.LoadArgs`).

## Model

| member | source | states |
|---|---|---|
| `Paging.ShareInv` | linux-0.01/mm/memory.c:147-159 | sharing one page with a child keeps every counter equal to the number of references and leaves no shared page writable |
| `Paging.ShareLook` | linux-0.01/mm/memory.c:147-159 | the child reads what the parent reads there, and no other page of any task looks different |
| `Paging.AboveLow` | linux-0.01/mm/memory.c:153 | comparing the whole entry with LOW_MEM asks whether its page is managed |
| `Paging.DropCorrect` | linux-0.01/mm/memory.c:94-99 | dropping one entry keeps the invariant, empties that entry and changes no other |
| `Paging.ReferencedIsCounted` | linux-0.01/mm/memory.c:63-73 | whatever an entry or a table names has a count of at least one, so the free-page panic is unreachable from free_page_tables |
| `Paging.AllocCorrect` | linux-0.01/mm/memory.c:37-57 | a newly taken page was held and mapped by nobody, is zero, and taking it changes nobody's view |
| `Paging.AttachTable` | linux-0.01/mm/memory.c:143-145 | a zeroed page becomes an empty page table; counters still match references |
| `Paging.DropTable` | linux-0.01/mm/memory.c:100-101 | giving back an emptied table keeps the invariant and every entry |
| `Paging.MapHeld` | linux-0.01/mm/memory.c:181-191 | a page the kernel holds becomes visible, writable and private at one place, nowhere else |
| `Paging.CountOneIsPrivate` | linux-0.01/mm/memory.c:199 | a count of one holds exactly when the faulting entry is the only mapping of the page |
| `Paging.WritableIsPrivate` | linux-0.01/mm/memory.c:194-209 | every writable user mapping is of a managed page with count exactly one |
| `Paging.EnableWrite` | linux-0.01/mm/memory.c:199-202 | setting the write bit on the last mapping keeps the invariant and every view |
| `Paging.CopyOnWriteCorrect` | linux-0.01/mm/memory.c:203-208 | moving the entry to a copied page keeps the invariant, changes no view and makes the entry writable |
| `Paging.PokeCorrect` | linux-0.01/mm/memory.c:194-209 | a store through a writable entry reaches neither a page table nor another address space |
| `Paging.CountsDetermined` | linux-0.01/mm/memory.c:31 | mem_map is a function of who refers to what |
| `Paging.CountBounded` | linux-0.01/mm/memory.c:31 | a counter never exceeds 63, so the sixteen-bit increments cannot wrap |
| `Paging.ReleaseHeld` | linux-0.01/mm/memory.c:63-73 | a page kept by the kernel has count one, and giving it back keeps the invariant and every entry |
| `Paging.ScribbleUnseen` | linux-0.01/kernel/fork.c:73-105 | writing into a held page keeps the invariant, every entry and every view |
| `Paging.InvLaw` | linux-0.01/mm/memory.c:31 | in bits: a counter is the number of present page-table entries and present directory entries with that page number, and one more if the kernel holds the page; where an entry has the write bit it is one |
| `Paging.EntryBits` | linux-0.01/mm/memory.c:147-159 | bit 0 is present, bit 1 is writable, the page number is from bit 12 on |
| `MemoryManagement.MemoryManager.constructor` | linux-0.01/boot/head.s:137-149 | the boot state satisfies the invariant; task 0 has its first 640 kB identity-mapped and nothing else is mapped |
| `MemoryManagement.MemoryManager.GetFreePage` | linux-0.01/mm/memory.c:37-57 | 0 exactly when no page is free, otherwise the highest free page, counted, zeroed and no longer free |
| `MemoryManagement.MemoryManager.FreePage` | linux-0.01/mm/memory.c:63-73 | one reference less for a managed page, nothing for a low page; the two panics are its preconditions |
| `MemoryManagement.MemoryManager.FreePageTables` | linux-0.01/mm/memory.c:79-105 | the range ends up unmapped, every other directory entry, page and view is as before |
| `MemoryManagement.MemoryManager.FreeTable` | linux-0.01/mm/memory.c:93-101 | one directory entry is emptied, everything else stays |
| `MemoryManagement.MemoryManager.FreeEntry` | linux-0.01/mm/memory.c:94-99 | one entry is emptied, everything else stays |
| `MemoryManagement.MemoryManager.CopyTable` | linux-0.01/mm/memory.c:146-159 | the child table shows the first nr pages of the parent, other entries change at most their write bit, and the set of free pages is the same |
| `MemoryManagement.MemoryManager.ShareEntry` | linux-0.01/mm/memory.c:148-158 | one turn of the loop is the elementary sharing step; the counter does not wrap |
| `MemoryManagement.MemoryManager.NewTable` | linux-0.01/mm/memory.c:143-145 | fails exactly when no page is free; otherwise an empty table and one free page less |
| `MemoryManagement.MemoryManager.CopyPageTables` | linux-0.01/mm/memory.c:124-163 | succeeds exactly when there is a free page for each present table of the range; then the child sees every page that the parent sees below the limit (160 pages from address 0), and the parent's entries change at most in write bits |
| `MemoryManagement.MemoryManager.CopyMem` | linux-0.01/kernel/fork.c:33-54 | on failure mem_map is restored exactly and every view is as before; on success the child sees every page of the parent below the limit; when each happens |
| `MemoryManagement.MemoryManager.CopyProcess` | linux-0.01/kernel/fork.c:61-110 | the page effects of copy_process: refused exactly when free pages do not exceed the tables to copy, and then mem_map is as before; otherwise the child sees every page of the parent below the limit |
| `MemoryManagement.MemoryManager.ForkThenExit` | linux-0.01/kernel/fork.c:46-52 | a child that exits without having written gives back exactly what its fork took |
| `MemoryManagement.MemoryManager.PutPage` | linux-0.01/mm/memory.c:171-192 | fails exactly when a table is missing and no page is free, without effect; otherwise the page appears at that place only |
| `MemoryManagement.MemoryManager.DoNoPage` | linux-0.01/mm/memory.c:237-245 | fails exactly when memory is short, and then the page it took stays held for ever; otherwise a zero page appears |
| `MemoryManagement.MemoryManager.UnWpPage` | linux-0.01/mm/memory.c:194-209 | fails exactly when the page is shared and none is free; otherwise the entry is writable and no view has changed |
| `MemoryManagement.MemoryManager.WriteVerify` | linux-0.01/mm/memory.c:224-235 | afterwards the page is absent or writable, and no view has changed |
| `MemoryManagement.MemoryManager.VerifyArea` | linux-0.01/kernel/fork.c:18-31 | afterwards every present page of the area is writable with count one, so the kernel may store there |
| `MemoryManagement.MemoryManager.FreeHeldPage` | linux-0.01/kernel/fork.c:107-110 | giving back the page of the task structure restores its counter and no view changes |
| `MemoryManagement.MemoryManager.TaskPage` | linux-0.01/mm/memory.c:37-57 | a page for the kernel: counted, held, and nobody sees a change |
| `MemoryManagement.MemoryManager.Fill` | linux-0.01/kernel/fork.c:73-105 | what the kernel writes into a page it holds is seen by nobody |
| `MemoryManagement.LosesLastPage` | linux-0.01/mm/memory.c:237-245 | with one page free and no table, the fault fails and the page stays held although nothing names it |
| `MemoryManagement.Restored` | linux-0.01/kernel/fork.c:49-52 | clean-up after a partial copy leaves every reference, hence every counter, as it was |
| `MemoryManagement.ShareFree` | linux-0.01/mm/memory.c:153-158 | sharing a page changes no page from free to used or back |
| `MemoryManagement.CopiedPages` | linux-0.01/mm/memory.c:124-163 | of a segment at 64 Mb or above every page p with 4096 * p below the limit is the parent's, of one at 0 each of the first 160 below it |
| `CopyOnWrite.PageAtAddress` | linux-0.01/mm/memory.c:124-163 | page p of task t is what the tables show at linear address t * 64 Mb + 4096 * p |
| `CopyOnWrite.AbsFork` | linux-0.01/mm/memory.c:124-163 | sharing the tables duplicates, to every reader, every page that the parent has in its segment |
| `CopyOnWrite.ForkLaw` | linux-0.01/kernel/fork.c:61-110 | after a fork the child has exactly the pages of its parent, with their contents; every page that existed is as before |
| `CopyOnWrite.StoreLaw` | linux-0.01/mm/memory.c:194-222 | a store changes one word of one page of one task |
| `CopyOnWrite.LoadLaw` | linux-0.01/mm/memory.c:237-245 | a load delivers the word that is there, zero where nothing was, and changes no word of any task |
| `CopyOnWrite.ExitLaw` | linux-0.01/kernel/exit.c:68-69 | an exit takes the pages of its task and no others |
| `CopyOnWrite.MapLaw` | linux-0.01/mm/memory.c:171-191 | a page that the kernel maps appears at one place, with its contents, and is the kernel's no more |
| `CopyOnWrite.ExecLaw` | linux-0.01/fs/exec.c:268-291 | an exec leaves its task an empty segment of 64 Mb, and nobody else notices |
| `CopyOnWrite.AbsFree` | linux-0.01/mm/memory.c:79-105 | freeing the tables is, to every reader, dropping the range |
| `TableViews.UserLoad` | linux-0.01/mm/memory.c:237-245 | a load, with the fault it may take, returns what the eager machine returns; it fails only with fewer than two pages free |
| `TableViews.UserStore` | linux-0.01/mm/memory.c:194-222 | a store, with its faults, changes exactly one word of one address space; it fails only with fewer than two pages free |
| `CopyOnWrite.ForkEvent` | linux-0.01/kernel/fork.c:61-110 | the page effects of copy_process refine a fork that duplicates every page of the parent; the child's task structure gets a page the kernel did not have; refused exactly when free pages do not exceed the tables to copy, with mem_map unchanged |
| `CopyOnWrite.HoldEvent` | linux-0.01/mm/memory.c:37-57 | the kernel takes a page for itself, refused exactly when none is free; no task sees a change |
| `CopyOnWrite.ReleaseEvent` | linux-0.01/mm/memory.c:63-73 | the kernel gives a page of its own back; no task sees a change |
| `CopyOnWrite.MapEvent` | linux-0.01/mm/memory.c:171-191 | a page of the kernel's own, with what it wrote there, appears at one place of one task and nowhere else |
| `CopyOnWrite.LoadEvent` | linux-0.01/mm/memory.c:237-245 | a load of a task refines the eager load; without memory the task dies |
| `CopyOnWrite.StoreEvent` | linux-0.01/mm/memory.c:194-222 | a store of a task refines the eager store; without memory the task dies |
| `CopyOnWrite.ExitEvent` | linux-0.01/kernel/exit.c:68-69 | exit refines dropping the address space |
| `CopyOnWrite.Boot` | linux-0.01/boot/head.s:137-149 | the machine starts in a state from which runs are covered |
| `CopyOnWrite.Step` | linux-0.01/mm/memory.c:79-245 | one event of any task refines one event of the eager machine; with 17 pages free none fails |
| `CopyOnWrite.Run` | linux-0.01/mm/memory.c:79-245 | over every run, in which the kernel also takes, maps and releases pages of its own, every load returns what it would had each fork copied every page and each store been private; each counter is the number of references and holds |
| `BufferProtocol.NextInv` | linux-0.01/fs/buffer.c:71-204 | every step of every task keeps: one hashed buffer per block, counts equal to holders, off the free list only while being evicted |
| `BufferProtocol.RecheckInv` | linux-0.01/fs/buffer.c:131-136 | the recheck of get_hash_table never fires |
| `BufferProtocol.DropInv` | linux-0.01/fs/buffer.c:196-204 | the panic of brelse is unreachable |
| `BufferProtocol.TakeInv` | linux-0.01/fs/buffer.c:151-168 | a buffer found unused after the wait may be taken off the lists |
| `BufferProtocol.RelabelInv` | linux-0.01/fs/buffer.c:174-193 | after sync_dev the buffer gets its label or, when somebody was quicker, is given back |
| `BufferProtocol.IdentityKept` | linux-0.01/fs/buffer.c:123-137 | a hashed buffer in use keeps device and block through every step of every task |
| `BufferProtocol.IdentityOverRuns` | linux-0.01/fs/buffer.c:123-137 | over every interleaving a buffer that is hashed and stays in use keeps device and block |
| `BufferProtocol.AlwaysInv` | linux-0.01/fs/buffer.c:71-204 | the invariant holds in every state of every run |
| `BufferProtocol.EveryInterleaving` | linux-0.01/fs/buffer.c:71-204 | over every interleaving: at most one hashed buffer per block, an unused buffer is on the free list, no recheck ever failed |
| `BufferProtocol.StepLaw` | linux-0.01/fs/buffer.c:123-204 | field by field, what each step does to each buffer |
| `BufferCaches.UnlinkOk` | linux-0.01/fs/buffer.c:71-87 | the pointer assignments of remove_from_queues take the buffer out of the ring and its chain and leave every other list correct |
| `BufferCaches.EnlistOk` | linux-0.01/fs/buffer.c:89-104 | the pointer assignments of insert_into_queues append it to the ring and put it at the head of its chain |
| `BufferCaches.WriteOutKeeps` | linux-0.01/fs/buffer.c:52-66 | writing a dirty buffer out changes no block's logical contents |
| `BufferCaches.RelabelKeeps` | linux-0.01/fs/buffer.c:176-180 | relabelling a clean buffer changes no block's logical contents |
| `BufferCaches.ReadInKeeps` | linux-0.01/fs/buffer.c:216-219 | reading a block in changes no block's logical contents |
| `BufferCaches.BufferCache.constructor` | linux-0.01/fs/buffer.c:225-254 | the initial rings and chains are correct and the logical contents are those of the device |
| `BufferCaches.BufferCache.FindBuffer` | linux-0.01/fs/buffer.c:106-114 | returns a buffer with that label, and none only if there is none |
| `BufferCaches.BufferCache.FindUnused` | linux-0.01/fs/buffer.c:151-159 | the first unused buffer of the free list; none exactly when all are in use |
| `BufferCaches.BufferCache.SyncDev` | linux-0.01/fs/buffer.c:52-66 | no buffer of the device stays dirty; contents and counts are unchanged |
| `BufferCaches.BufferCache.SysSync` | linux-0.01/fs/buffer.c:37-50 | afterwards the device alone holds every block |
| `BufferCaches.BufferCache.RemoveFromQueues` | linux-0.01/fs/buffer.c:71-87 | the buffer leaves both lists, the order of the others is kept |
| `BufferCaches.BufferCache.InsertIntoQueues` | linux-0.01/fs/buffer.c:89-104 | the buffer becomes the last of the free list and is found under its label |
| `BufferCaches.BufferCache.Getblk` | linux-0.01/fs/buffer.c:144-194 | returns the buffer of that block with one more holder; when none had it, the oldest unused one, moved to the end of the list; logical contents never change |
| `BufferCaches.BufferCache.Evict` | linux-0.01/fs/buffer.c:167-193 | write-back, relabelling and relinking keep every block's contents |
| `BufferCaches.BufferCache.Brelse` | linux-0.01/fs/buffer.c:196-204 | one holder less, contents unchanged |
| `BufferCaches.BufferCache.Bread` | linux-0.01/fs/buffer.c:210-223 | the caller gets the logical contents of the block |
| `BufferCaches.BufferCache.Modify` | linux-0.01/fs/file_dev.c:63-76 | storing into a held buffer changes that block and no other |
| `BufferCaches.BufferCache.Forget` | linux-0.01/fs/bitmap.c:55-56 | giving up the contents of a buffer changes no other block |
| `BufferCaches.BufferCache.FreeCached` | linux-0.01/fs/bitmap.c:48-58 | a cached block that nobody uses is given up, ends clean and not up to date, and others keep their contents; for a block in use nothing changes but its count, which stays raised |
| `BufferCaches.Perform` | linux-0.01/fs/buffer.c:52-223 | each call, with any buffers in use, refines one call on a plain disk with pointers |
| `BufferCaches.Run` | linux-0.01/fs/buffer.c:52-223 | over every run, from any state and with any buffers in use, bread returns what the plain disk holds through the one buffer of the block, and sleeps exactly when all are in use for other blocks; freed blocks are unspecified |
| `BufferCaches.SomeReference` | linux-0.01/fs/buffer.c:225-254 | every state in which the buffers in use have labels is one from which runs may start |
| `BufferCaches.ModifyLaw` | linux-0.01/fs/file_dev.c:63-76 | a store through a pointer in use changes its block and no other |
| `BufferCaches.BreadLaw` | linux-0.01/fs/buffer.c:210-223 | bread adds one use of the buffer it returns, for the block asked for, and changes no block |
| `BufferCaches.BrelseLaw` | linux-0.01/fs/buffer.c:196-204 | brelse takes one use away and nothing else |
| `BufferCaches.FreeLaw` | linux-0.01/fs/bitmap.c:48-58 | freeing a block gives up its contents and no other's |
| `BufferCaches.LogicalLaw` | linux-0.01/fs/buffer.c:210-223 | what a block holds is its buffer's data if one is up to date, otherwise the device's |
| `BufferCaches.LinkedLaw` | linux-0.01/fs/buffer.c:68-104 | the free ring and the hash chains in links: next and previous of each entry, and who is on which chain |
| `BufferCaches.CoherentLaw` | linux-0.01/fs/buffer.c:106-114 | there is one buffer per block, and one that is up to date and not dirty holds what the device does |
| `BufferLists.RingRemove` | linux-0.01/fs/buffer.c:83-86 | unlinking from a circular doubly linked list removes exactly that entry |
| `BufferLists.RingAppend` | linux-0.01/fs/buffer.c:92-95 | linking before the head appends |
| `BufferLists.ChainRemove` | linux-0.01/fs/buffer.c:74-79 | unlinking from a hash chain removes exactly that entry |
| `BufferLists.ChainPush` | linux-0.01/fs/buffer.c:101-103 | linking at the head of a hash chain |
| `BlockTree.HungInv` | linux-0.01/fs/inode.c:58-113 | hanging a fresh block at an empty place keeps all block numbers distinct and marked |
| `BlockTree.TakeCorrect` | linux-0.01/fs/bitmap.c:82-95 | a newly allocated block was nobody's; no file and no mapping changes |
| `BlockTree.TakeAndHang` | linux-0.01/fs/inode.c:58-113 | allocation and the store of the number together grow exactly one place of one file |
| `BlockTree.StoreEntryPath` | linux-0.01/fs/inode.c:77-82 | storing into a pointer block changes one place of the tree and no file data |
| `BlockTree.PathOfInjective` | linux-0.01/fs/inode.c:66-107 | different block indexes have different places |
| `BlockTree.BmapInBytes` | linux-0.01/fs/inode.c:52-115 | bmap is, on the bytes of the disk: a zone below 7, the little-endian halfword k-7 of block zone 7 below 519, and above that halfword (k-519) % 512 of the block named by halfword (k-519) / 512 of block zone 8 |
| `BlockTree.PathInBytes` | linux-0.01/fs/inode.c:52-115 | every place of a tree, read as little-endian halfwords of zones 7 and 8 |
| `BlockTree.EntryInBytes` | linux-0.01/fs/inode.c:77-107 | an entry of a pointer block is bytes 2i and 2i+1 of it, low byte first |
| `BlockTree.InvLaw` | linux-0.01/fs/bitmap.c:67-97 | a number at one place of a tree is a data block whose bit is set, and stands at no other place of any tree |
| `BlockTree.FileInBytes` | linux-0.01/fs/file_dev.c:18-37 | byte pos of a file is byte pos % 1024 of its block pos / 1024, zero where it has none |
| `FileSystems.FileSystem.constructor` | linux-0.01/fs/bitmap.c:67-97 | a device with nothing allocated satisfies the invariant, whatever its device nodes hold |
| `FileSystems.FileSystem.NewBlock` | linux-0.01/fs/bitmap.c:67-97 | 0 exactly when the device is full; otherwise an unmarked data block, now marked and zeroed |
| `FileSystems.FileSystem.FreeBlock` | linux-0.01/fs/bitmap.c:39-65 | clears that bit and no other |
| `FileSystems.FileSystem.GetZone` | linux-0.01/fs/inode.c:58-65 | zone i, allocated if wanted; no other place of any file changes |
| `FileSystems.FileSystem.GetEntry` | linux-0.01/fs/inode.c:77-84 | the little-endian halfword at an entry of a pointer block, allocated if wanted; no other place of any file changes |
| `FileSystems.FileSystem.BlockMap` | linux-0.01/fs/inode.c:49-115 | bmap changes nothing; create_block fills at most the places on the way to the block, keeps every file byte and all numbers distinct, and returns 0 only on a full device |
| `FileSystems.FileSystem.DoubleIndirect` | linux-0.01/fs/inode.c:86-114 | the same for the double-indirect part, also when it runs out of space midway |
| `FileSystems.OneBlockChanges` | linux-0.01/fs/inode.c:49-115 | create_block changes the file-to-disk mapping at the requested index and nowhere else |
| `FileSystems.FailedAllocation` | linux-0.01/fs/bitmap.c:82-87 | a failed allocation changes no mapping, whatever stray bit it set |
| `FileSystems.FileSystem.FreeInd` | linux-0.01/fs/truncate.c:5-21 | frees exactly the blocks below one pointer block, and itself; no bit is freed twice |
| `FileSystems.FileSystem.FreeDind` | linux-0.01/fs/truncate.c:23-39 | frees exactly the blocks below zone 8, and itself; no bit is freed twice |
| `FileSystems.FileSystem.Truncate` | linux-0.01/fs/truncate.c:41-58 | clears exactly the bits of the blocks reachable from that inode, empties it and leaves every other file and mapping; nothing else for other kinds of inode |
| `FileSystems.TruncatedBitmap` | linux-0.01/fs/truncate.c:41-58 | a bit is left marked exactly when it was marked and not the inode's; without leaks before, none after |
| `FileSystems.TruncatedBits` | linux-0.01/fs/truncate.c:41-58 | bit by bit: what is unmarked is what the inode had; its nine zones and its size are zero |
| `FileData.PatchCorrect` | linux-0.01/fs/file_dev.c:63-76 | storing into one block of a file changes those bytes of that file, no byte of another, and no mapping |
| `FileData.WriteTurn` | linux-0.01/fs/file_dev.c:58-77 | one turn writes the bytes it reports, and none only on a full device |
| `FileData.WriteAll` | linux-0.01/fs/file_dev.c:58-77 | the loop writes a prefix of the buffer, all of it unless the device fills up |
| `FileData.FileWrite` | linux-0.01/fs/file_dev.c:42-84 | the file becomes the splice of the bytes reported, gaps read as zero, other files are unchanged; short only on a full device |
| `FileData.FileRead` | linux-0.01/fs/file_dev.c:11-40 | returns the file's bytes, zeros for holes, and changes nothing |
| `FileData.SysRead` | linux-0.01/fs/read_write.c:66-71 | returns the matching slice of the file's contents, up to its end |
| `FileData.TruncatedContent` | linux-0.01/fs/truncate.c:41-58 | truncate empties one file and leaves the contents of all others |
| `FileData.EmptyDevice` | linux-0.01/fs/file_dev.c:11-84 | there is a device from which runs can start: every file empty, device nodes arbitrary |
| `FileData.Step` | linux-0.01/fs/file_dev.c:11-84 | each call refines the byte-sequence operation; bytes beyond the size stay zero; inodes without a tree are untouched |
| `FileData.Run` | linux-0.01/fs/file_dev.c:11-84 | over every run every read returns what plain byte sequences would |
| `FileData.ContentInBytes` | linux-0.01/fs/file_dev.c:18-37 | the contents of a file by bytes of the disk |
| `FileData.WriteLaw` | linux-0.01/fs/file_dev.c:58-77 | byte by byte: the data written, zeros in a gap, the rest of the file and every other file as before |
| `FileData.AppendLaw` | linux-0.01/fs/file_dev.c:54-55 | an appending write puts its bytes at the end |
| `FileData.ReadTruncLaw` | linux-0.01/fs/read_write.c:66-72 | how many bytes a read delivers and which; a truncated file is empty |
| `FileData.ReadsBack` | linux-0.01/fs/file_dev.c:11-84 | what was just written is read back |
| `Elevator.AddKeeps` | linux-0.01/kernel/hd.c:340-356 | exactly the new request is added; the first two entries are never touched |
| `Elevator.AddTwoSweeps` | linux-0.01/kernel/hd.c:347-354 | insertion keeps at most one descent behind the current request exactly when there is no clash; distinct places suffice |
| `Elevator.DoneTwoSweeps` | linux-0.01/kernel/hd.c:262-270 | completion keeps at most one descent |
| `Elevator.SamePlaceBreaksSweeps` | linux-0.01/kernel/hd.c:347-354 | a second request for one sector can leave three sweeps |
| `Elevator.SweepsOverRuns` | linux-0.01/kernel/hd.c:262-366 | over every run at most one descent lies behind the current request exactly when no arrival clashes; arrivals for places not queued never do |
| `Elevator.PositionOrder` | linux-0.01/kernel/hd.c:52-56 | IN_ORDER is the order of a position number |
| `Elevator.ArrivalKeepsWait` | linux-0.01/kernel/hd.c:327-366 | whatever arrives, the measure of a queued request does not grow |
| `Elevator.CompletionShortensWait` | linux-0.01/kernel/hd.c:262-270 | every completion makes it smaller |
| `Elevator.NoStarvation` | linux-0.01/kernel/hd.c:262-366 | any queued request becomes current after boundedly many completions, whatever arrives meanwhile |
| `Elevator.TwoSweepBound` | linux-0.01/kernel/hd.c:262-366 | with two sweeps the bound is two passes over the disk |
| `Elevator.ChsOrder` | linux-0.01/kernel/hd.c:101-117 | on one drive IN_ORDER is the order of absolute sector numbers under the cylinder, head, sector split |
| `Elevator.AddLaw` | linux-0.01/kernel/hd.c:340-356 | the request goes behind the first two, before the first entry where it is in order, and everything else keeps its order |
| `Elevator.TwoSweepsLaw` | linux-0.01/kernel/hd.c:340-356 | two sweeps means at most one place behind the current request where the head turns back |
| `Elevator.NoStarvationBound` | linux-0.01/kernel/hd.c:340-356 | entry k becomes current after k times as many completions as two drives have places |
| `HardDisk.RequestQueue.constructor` | linux-0.01/kernel/hd.c:397-404 | the queue starts empty |
| `HardDisk.RequestQueue.AddRequest` | linux-0.01/kernel/hd.c:327-366 | the linked list afterwards is the reference insertion; the disk is active |
| `HardDisk.RequestQueue.FindGap` | linux-0.01/kernel/hd.c:347-352 | the search loop stops at the reference's gap |
| `HardDisk.RequestQueue.LinkBehind` | linux-0.01/kernel/hd.c:353-354 | the two link assignments insert at that place |
| `HardDisk.RequestQueue.RwAbsHd` | linux-0.01/kernel/hd.c:368-395 | the lowest free slot gets the place, the command and the buffer asked for and is queued; the caller must wait exactly when all slots are taken |
| `HardDisk.RequestQueue.Interrupt` | linux-0.01/kernel/hd.c:253-290 | after its second sector the current request leaves the queue; the next becomes current |
| `HardDisk.RequestQueue.DoRequest` | linux-0.01/kernel/hd.c:292-320 | active afterwards exactly when there is a request, unless sorting |
| `HardDisk.LinkedInsert` | linux-0.01/kernel/hd.c:353-354 | linking behind an entry inserts at the next position of the list |
| `HardDisk.LinkedLaw` | linux-0.01/kernel/hd.c:58 | this_request is the first request, each slot links to the next one and the last to none |
| `WaitQueues.NextInv` | linux-0.01/kernel/sched.c:114-157 | every sleeper is in exactly one chain, from a queue head or from a woken task that has not resumed |
| `WaitQueues.WakeUpReaches` | linux-0.01/kernel/sched.c:151-157 | wake_up reaches exactly those asleep on that queue: the newest at once, the others behind it |
| `WaitQueues.NeverFurther` | linux-0.01/kernel/sched.c:126-127 | no step moves a sleeper away from being woken; each resumption of its leader brings it one nearer |
| `WaitQueues.EventuallyWoken` | linux-0.01/kernel/sched.c:114-128 | after as many leader resumptions as its distance a task has been made runnable, whatever else happened |
| `WaitQueues.WakeUpSuffices` | linux-0.01/kernel/sched.c:114-157 | one wake_up is enough for every earlier sleeper of the queue |
| `WaitQueues.SleepRepresents` | linux-0.01/kernel/sched.c:122-124 | the stores of sleep_on put the task at the newest end of the chain |
| `WaitQueues.WakeUpRepresents` | linux-0.01/kernel/sched.c:151-157 | the stores of wake_up detach the chain and wake its newest member |
| `WaitQueues.ResumeRepresents` | linux-0.01/kernel/sched.c:126-127 | the store after schedule wakes the next member |
| `WaitQueues.WaitLists.SleepOn` | linux-0.01/kernel/sched.c:114-125 | the caller is uninterruptible, the queue's head is the caller, its tmp is the old head, and nothing else changes; so the pointers represent the chain step |
| `WaitQueues.WaitLists.FinishSleep` | linux-0.01/kernel/sched.c:126-128 | the pointers afterwards represent the chain step |
| `WaitQueues.WaitLists.WakeUpQueue` | linux-0.01/kernel/sched.c:151-157 | the old head is runnable, the head is null, and nothing else changes; so the pointers represent the chain step |
| `WaitQueues.SleepLaw` | linux-0.01/kernel/sched.c:122-124 | a task that goes to sleep becomes the last member of its queue; every earlier member keeps its place and every other chain is the same |
| `WaitQueues.WakeUpLaw` | linux-0.01/kernel/sched.c:151-157 | the queue is emptied, its newest sleeper may run and leads the others; every other chain is the same |
| `WaitQueues.ResumeLaw` | linux-0.01/kernel/sched.c:126-127 | a woken task that runs lets the newest of those behind it run, which leads the others; every other chain is the same |
| `WaitQueues.RepresentsLaw` | linux-0.01/kernel/sched.c:114-128 | the head of each queue is its newest sleeper, tmp of each sleeper is the next older one, and the tasks in state 2 are exactly the members of chains |
| `Schedulers.Scheduler.Select` | linux-0.01/kernel/sched.c:88-97 | a runnable task of greatest counter, the last such; 0 exactly when none is runnable |
| `Schedulers.Scheduler.Schedule` | linux-0.01/kernel/sched.c:68-105 | signals, then one recharge exactly when every runnable task is out of time, then the best task: the loop runs at most twice |
| `Schedulers.Scheduler.DoTimer` | linux-0.01/kernel/sched.c:159-169 | the current task loses one tick, never below zero; schedule is called only from user mode at zero |
| `Schedulers.Scheduler.Nice` | linux-0.01/kernel/sched.c:207-212 | priorities stay positive |
| `Schedulers.RechargedRuns` | linux-0.01/kernel/sched.c:98-102 | after a recharge the best task has time left, so the loop ends |
| `Schedulers.AlwaysSound` | linux-0.01/kernel/sched.c:68-212 | in every state of every run priorities are positive and the accounts of time granted and used are right |
| `Schedulers.EveryEpoch` | linux-0.01/kernel/sched.c:87-103 | at every recharge of every run every runnable task has used at least the time it was granted |
| `Schedulers.WholeQuantumUsed` | linux-0.01/kernel/sched.c:87-103 | the same for one recharge |
| `Schedulers.OnlyOwnTicks` | linux-0.01/kernel/sched.c:159-169 | between recharges of a run a task loses exactly the ticks in which it ran |
| `Schedulers.CountersBounded` | linux-0.01/kernel/sched.c:99-102 | over every run counters stay below twice the highest priority held |
| `Schedulers.TimeOnlyByTicks` | linux-0.01/kernel/sched.c:159-169 | one event without a recharge takes time from a task only if it is a tick of its own |
| `Schedulers.FollowsSound` | linux-0.01/kernel/sched.c:68-212 | every event keeps the accounts of time granted and used |
| `Schedulers.ScheduleLaw` | linux-0.01/kernel/sched.c:68-105 | every field of every slot after schedule; when it recharges; the task chosen is the last runnable one with the greatest counter |
| `Schedulers.AccountsLaw` | linux-0.01/kernel/sched.c:99-102 | what a recharge grants, whom a tick is charged to, and what a new task is granted |
| `Terminal.ControlSequence` | linux-0.01/kernel/console.c:436-453 | a control sequence runs its command with exactly the parameters written, for up to sixteen 32-bit numbers |
| `Terminal.DigitsParsed` | linux-0.01/kernel/console.c:447-449 | the decimal digits of a number leave that number as parameter |
| `Terminal.ParametersParsed` | linux-0.01/kernel/console.c:443-450 | parameters separated by semicolons are parsed in order |
| `Terminal.CursorAddressing` | linux-0.01/kernel/console.c:471-499 | row and column given from one put the cursor there |
| `Terminal.EscSevenRecords` | linux-0.01/kernel/console.c:419-433 | ESC 7 records the cursor exactly in column 55, or where it was recorded already |
| `Terminal.EscEightReturns` | linux-0.01/kernel/console.c:419-433 | ESC 8 goes back exactly in column 56, or where the cursor is there already |
| `Terminal.ColumnDecides` | linux-0.01/kernel/console.c:419-433 | after ESC any byte but the five letters records, goes back or does nothing by the column alone |
| `Terminal.EscSevenFails` | linux-0.01/kernel/console.c:419-433 | ESC 7, carriage return, ESC 8 from column 3 ends in column 0 |
| `TerminalLaws.LineFeeds` | linux-0.01/kernel/console.c:129-137 | one row down, or on the last row of the region every row of the region moves up, its last row is blank, all other cells and the cursor stay |
| `TerminalLaws.ReverseLineFeeds` | linux-0.01/kernel/console.c:139-147 | one row up, or on the first row of the region its rows move down and the first is blank |
| `TerminalLaws.NextRow` | linux-0.01/kernel/console.c:423-424 | ESC E goes to the start of the next row, if there is one |
| `TerminalLaws.Prints` | linux-0.01/kernel/console.c:382-393 | the character and the attribute fill the cell at the cursor, no other cell changes; from a full row by way of a line feed |
| `TerminalLaws.PlainMoves` | linux-0.01/kernel/console.c:394-406 | carriage return, backspace, escape, and bytes without effect |
| `TerminalLaws.Tabs` | linux-0.01/kernel/console.c:407-417 | to the next multiple of eight, beyond column 80 by way of a line feed |
| `TerminalLaws.RubsOut` | linux-0.01/kernel/console.c:155-162 | the cell before the cursor is blank, no other changes |
| `TerminalLaws.ErasesDisplay` | linux-0.01/kernel/console.c:164-191 | exactly the cells after the cursor, before it, or all of them are blank |
| `TerminalLaws.ErasesLine` | linux-0.01/kernel/console.c:193-222 | the same for the row of the cursor |
| `TerminalLaws.InsertsLines` | linux-0.01/kernel/console.c:326-334 | cell by cell, for n rows, where n is at least one and at most the room there is |
| `TerminalLaws.DeletesLines` | linux-0.01/kernel/console.c:346-354 | cell by cell, for n rows |
| `TerminalLaws.InsertsCells` | linux-0.01/kernel/console.c:316-324 | cell by cell, for n cells |
| `TerminalLaws.DeletesCells` | linux-0.01/kernel/console.c:336-344 | cell by cell, for n cells |
| `TerminalLaws.SetsAttribute` | linux-0.01/kernel/console.c:224-236 | the last known parameter decides the attribute |
| `TerminalLaws.LastKnown` | linux-0.01/kernel/console.c:224-236 | the same for any number of parameters |
| `TerminalLaws.SetsMargins` | linux-0.01/kernel/console.c:512-520 | the margins from the two parameters, when they are proper |
| `TerminalLaws.GoesTo` | linux-0.01/kernel/console.c:454-490 | G, d, H and f and where they put the cursor, counted from one |
| `TerminalLaws.MovesVertically` | linux-0.01/kernel/console.c:458-481 | A, B, e, E and F in unsigned 32-bit arithmetic; off the screen nothing moves |
| `TerminalLaws.MovesHorizontally` | linux-0.01/kernel/console.c:466-473 | C, a and D |
| `TerminalLaws.SavesAndRestores` | linux-0.01/kernel/console.c:521-526 | s records the cursor and u goes back to it |
| `TerminalLaws.Sequences` | linux-0.01/kernel/console.c:436-450 | how the bytes of a control sequence collect parameters |
| `Consoles.RunFeeds` | linux-0.01/kernel/console.c:378-529 | a run of handled bytes ends with the screen of the grid terminal |
| `Consoles.Console.HardwareScroll` | linux-0.01/kernel/console.c:69-97 | moving the window on, or back to the start of video memory, is scrolling the grid by one row |
| `Consoles.Console.Scrup` | linux-0.01/kernel/console.c:67-111 | scrolls the region up by one row in the grid; only cells of the window are written |
| `Consoles.Console.Scrdown` | linux-0.01/kernel/console.c:113-127 | scrolls the region down by one row; only cells of the window are written |
| `Consoles.Console.Lf` | linux-0.01/kernel/console.c:129-137 | line feed of the grid terminal |
| `Consoles.Console.Ri` | linux-0.01/kernel/console.c:139-147 | reverse line feed of the grid terminal |
| `Consoles.Console.GotoXY` | linux-0.01/kernel/console.c:48-55 | moves the cursor, or nothing when out of range; the address agrees |
| `Consoles.Console.Del` | linux-0.01/kernel/console.c:155-162 | rubs out the cell before the cursor |
| `Consoles.Console.CsiJ` | linux-0.01/kernel/console.c:164-191 | erases to the end, from the start, or all of the screen |
| `Consoles.Console.CsiK` | linux-0.01/kernel/console.c:193-222 | erases to the end, from the start, or all of the line |
| `Consoles.Console.CsiSgr` | linux-0.01/kernel/console.c:224-236 | the attribute after all parameters in order |
| `Consoles.Console.InsertChar` | linux-0.01/kernel/console.c:261-273 | opens one blank cell in the row |
| `Consoles.Console.DeleteChar` | linux-0.01/kernel/console.c:288-301 | closes one cell of the row |
| `Consoles.Console.InsertLine` | linux-0.01/kernel/console.c:275-286 | opens one row; the scroll region is restored |
| `Consoles.Console.DeleteLine` | linux-0.01/kernel/console.c:303-314 | closes one row; the scroll region is restored |
| `Consoles.Console.CsiAt` | linux-0.01/kernel/console.c:316-324 | opens n cells at once; only cells of the window are written |
| `Consoles.Console.CsiP` | linux-0.01/kernel/console.c:336-344 | closes n cells at once; only cells of the window are written |
| `Consoles.Console.CsiL` | linux-0.01/kernel/console.c:326-334 | opens n rows at once; only cells of the window are written |
| `Consoles.Console.CsiM` | linux-0.01/kernel/console.c:346-354 | closes n rows at once; every cell written was on the screen at one of the origins passed through |
| `Consoles.Console.SaveCur` | linux-0.01/kernel/console.c:359-363 | remembers the cursor |
| `Consoles.Console.RestoreCur` | linux-0.01/kernel/console.c:365-370 | restores it, with its address |
| `Consoles.Console.PrintChar` | linux-0.01/kernel/console.c:382-393 | prints in the grid, continuing on the next line when the row is full |
| `Consoles.Console.TabStop` | linux-0.01/kernel/console.c:407-417 | moves to the next tab stop |
| `Consoles.Console.SetRegion` | linux-0.01/kernel/console.c:512-520 | sets the scroll region only if it is a proper one |
| `Consoles.Console.GroundByte` | linux-0.01/kernel/console.c:381-418 | one byte outside sequences |
| `Consoles.Console.EscapeByte` | linux-0.01/kernel/console.c:419-435 | the byte after ESC |
| `Consoles.Console.ParameterByte` | linux-0.01/kernel/console.c:436-450 | parameter bytes |
| `Consoles.Console.CommandByte` | linux-0.01/kernel/console.c:451-527 | every command of the grid terminal; every cell written was on the screen on the way |
| `Consoles.Console.WriteByte` | linux-0.01/kernel/console.c:378-529 | one byte refines one step of the grid terminal; the window stays in video memory, the address agrees with the cursor, and every cell written was on the screen on the way |
| `Consoles.Console.ConWrite` | linux-0.01/kernel/console.c:372-531 | for every byte stream and after each of its bytes the window of video memory is the grid terminal's screen, and each byte writes only cells that are on the screen while it is handled |
| `Consoles.Console.constructor` | linux-0.01/kernel/console.c:540-544 | the console starts with the window at the start of video memory; its cursor address is right exactly when the start position is on the screen |
| `Consoles.Console.ValidLaw` | linux-0.01/kernel/console.c:31-40 | cell (r, c) of the screen is the word at origin + 80 * r + c of video memory, and pos is the cursor's cell |
| `Ttys.TtyQueue.Chars` | linux-0.01/include/linux/tty.h:30 | the number of characters queued |
| `Ttys.TtyQueue.Left` | linux-0.01/include/linux/tty.h:27 | the room left: 1023 minus the characters queued |
| `Ttys.TtyQueue.Empty` | linux-0.01/include/linux/tty.h:26 | exactly when nothing is queued |
| `Ttys.TtyQueue.Full` | linux-0.01/include/linux/tty.h:29 | exactly when 1023 characters are queued |
| `Ttys.TtyQueue.Last` | linux-0.01/include/linux/tty.h:28 | the newest character |
| `Ttys.TtyQueue.Put` | linux-0.01/include/linux/tty.h:33-34 | appends; on a full queue it loses everything |
| `Ttys.TtyQueue.Get` | linux-0.01/include/linux/tty.h:31-32 | takes the oldest character |
| `Ttys.TtyQueue.DropLast` | linux-0.01/include/linux/tty.h:25 | takes back the newest character |
| `Ttys.Tty.constructor` | linux-0.01/kernel/tty_io.c:40-54 | the terminal starts with empty queues and all accounted for |
| `Ttys.Tty.CopyToCooked` | linux-0.01/kernel/tty_io.c:129-193 | the keys taken from the read queue edit the cooked queue as the reference does, until nothing is left or it is full |
| `Ttys.Tty.CookOne` | linux-0.01/kernel/tty_io.c:134-190 | one key; secondary.data remains the number of terminators queued |
| `Ttys.Tty.Edit` | linux-0.01/kernel/tty_io.c:135-190 | one key edits the queue as the reference does |
| `Ttys.Tty.EraseLast` | linux-0.01/kernel/tty_io.c:146-159 | erase takes nothing from an empty queue and no terminator |
| `Ttys.Tty.Accept` | linux-0.01/kernel/tty_io.c:175-190 | appends, counting terminators |
| `Ttys.Tty.Receive` | linux-0.01/kernel/rs_io.s:89-105 | a received character is queued and copy_to_cooked goes on until nothing is left to edit or the line queue is full; with no room the character is dropped; nothing already received is lost |
| `Ttys.Tty.Take` | linux-0.01/kernel/tty_io.c:226-237 | takes up to nr characters, the end of the queue or an end-of-file character; secondary.data stays right |
| `Ttys.Tty.TtyRead` | linux-0.01/kernel/tty_io.c:195-253 | what is returned is what was taken; a canonical reader proceeds only with a terminator or at most 20 places left and returns nothing only for end of file; otherwise at least the minimum; -EINTR exactly as stated |
| `Ttys.ReadyLaw` | linux-0.01/kernel/tty_io.c:221-222 | when a canonical reader goes on: a terminator is queued or at most 20 places are left |
| `LineDiscipline.CookRefines` | linux-0.01/kernel/tty_io.c:129-191 | editing the queue is editing lines: erase never reaches into a finished one |
| `LineDiscipline.CookAllRefines` | linux-0.01/kernel/tty_io.c:129-191 | the same over every sequence of keys |
| `LineDiscipline.CookCounts` | linux-0.01/kernel/tty_io.c:175-176 | the number of terminators grows exactly when one is appended; erase never takes one |
| `LineDiscipline.EditingCommutesWithReading` | linux-0.01/kernel/tty_io.c:146-159 | taking characters away early changes the result of a key exactly when it is an erase that comes too late |
| `LineDiscipline.KeyConserves` | linux-0.01/kernel/tty_io.c:129-191 | one key on, everything received is still accounted for |
| `LineDiscipline.EraseAfterRead` | linux-0.01/kernel/tty_io.c:146-159 | "ab", newline, "cd" read with room for 100: the erase typed then is lost |
| `LineDiscipline.SignalsWhenIsigIsOff` | linux-0.01/kernel/tty_io.c:169-174 | a signal is raised exactly when the interrupt character is asked for and ISIG is off; what is meant holds exactly for characters that do not ask |
| `LineDiscipline.IsigTurnsInterruptsOff` | linux-0.01/kernel/tty_io.c:169-174 | with ISIG on, control-C is an ordinary character |
| `LineDiscipline.AtMostOneLine` | linux-0.01/kernel/tty_io.c:226-237 | a canonical reader gets at most one line exactly when its room, the queue or an end-of-file character stops it there |
| `LineDiscipline.ReadsPastNewline` | linux-0.01/kernel/tty_io.c:226-237 | two lines typed ahead come out of one read |
| `LineDiscipline.KeyLaw` | linux-0.01/kernel/tty_io.c:134-190 | for each received character, in numbers: how it is mapped, and whether it is dropped, erases, stops, starts, interrupts or is queued |
| `LineDiscipline.CountLaw` | linux-0.01/kernel/tty_io.c:175-176 | the terminator count is the number of queued newlines and end-of-file characters |
| `ExecArgs.ArgPages.constructor` | linux-0.01/fs/exec.c:234-235 | no page to begin with |
| `ExecArgs.ArgPages.Allocate` | linux-0.01/fs/exec.c:178-182 | allocates the missing pages from i up, failing exactly when there are too few; pages in use stay a suffix |
| `ExecArgs.ArgPages.Store` | linux-0.01/fs/exec.c:183-189 | copies the string below top; panics or leaves the page table exactly when it does not fit |
| `ExecArgs.ArgPages.CopyString` | linux-0.01/fs/exec.c:171-189 | one string: when it is copied, when memory is short, when it panics |
| `ExecArgs.ArgPages.CopyStrings` | linux-0.01/fs/exec.c:162-192 | succeeds exactly when the strings fit and pages suffice, and then no panic is reachable; the strings lie packed below top in pages that form a suffix |
| `ExecArgs.ArgPages.ReleaseAll` | linux-0.01/fs/exec.c:272-274 | every page is given back |
| `ExecArgs.ArgPages.LoadArgs` | linux-0.01/fs/exec.c:270-277 | succeeds exactly when fewer than 131068 bytes are needed and pages suffice; the failure return gives every page back; when a failure is taken for an address |
| `ExecTables.NamesOne` | linux-0.01/fs/exec.c:129-138 | an address names one string |
| `ExecTables.UserMemory.Skip` | linux-0.01/fs/exec.c:131 | moves past the zero that ends the string |
| `ExecTables.UserMemory.FillTable` | linux-0.01/fs/exec.c:129-133 | entry i of the table points to string i, a null pointer follows, nothing outside the table is written |
| `ExecTables.UserMemory.CreateTables` | linux-0.01/fs/exec.c:116-140 | above the stack pointer lie argc, argv, envp, the two null-terminated vectors and then the strings; only the tables are written |
| `ExecTables.ChangeLdt` | linux-0.01/fs/exec.c:210-216 | the strings appear at the top of the new data segment: below linear offset 0x4000000 - 4, page for page from 0x4000000 - 131072 |
| `ExecTables.Execve` | linux-0.01/fs/exec.c:268-291 | when execve gets as far as the new program, the i-th pointer of each vector names exactly the i-th string given |
| `ExecTables.StartLaw` | linux-0.01/fs/exec.c:116-140 | argc, argv and envp lie at the stack pointer, and word i of each vector is the address where string i can be read byte by byte up to its zero |
| `ExecTables.NamesReads` | linux-0.01/fs/exec.c:129-138 | an address that names a string reads as its bytes, none of them zero, and then a zero |
| `FileTables.CloseInv` | linux-0.01/fs/open.c:172-188 | the panic of sys_close is unreachable and counts stay right |
| `FileTables.DupInv` | linux-0.01/fs/fcntl.c:25-26 | counts stay right |
| `FileTables.OpenBeginInv` | linux-0.01/fs/open.c:128-139 | counts are right while open_namei sleeps |
| `FileTables.OpenEndInv` | linux-0.01/fs/open.c:140-164 | counts stay right when open succeeds and when it is undone, whatever happened meanwhile |
| `FileTables.PipeBeginInv` | linux-0.01/fs/pipe.c:59-78 | counts are right while the inode is being found |
| `FileTables.PipeEndInv` | linux-0.01/fs/pipe.c:79-91 | counts stay right when pipe succeeds and when it is undone |
| `FileTables.ForkInv` | linux-0.01/kernel/fork.c:111-113 | counts stay right |
| `FileTables.CountBounded` | linux-0.01/kernel/fork.c:111-113 | counts never exceed 1280 |
| `FileTables.AbandonInv` | linux-0.01/kernel/exit.c:73-75 | counts stay right when a task dies inside open or pipe |
| `FileTables.AlwaysCounted` | linux-0.01/fs/open.c:121-188 | at every sleep point of every run each count is the number of descriptors of all tasks that name the file |
| `FileTables.FileTable.constructor` | linux-0.01/fs/open.c:134-138 | nothing is open |
| `FileTables.FileTable.FreeFd` | linux-0.01/fs/open.c:128-130 | the lowest free descriptor |
| `FileTables.FileTable.FreeFile` | linux-0.01/fs/open.c:134-136 | the lowest free file |
| `FileTables.FileTable.SysOpen` | linux-0.01/fs/open.c:127-139 | refused, without effect, exactly when no descriptor or no file is free; otherwise the lowest of both |
| `FileTables.FileTable.SysOpenEnd` | linux-0.01/fs/open.c:140-164 | done or undone, as the step of the table says |
| `FileTables.FileTable.SysClose` | linux-0.01/fs/open.c:172-188 | refused exactly when the descriptor is not open |
| `FileTables.FileTable.DupFd` | linux-0.01/fs/fcntl.c:12-28 | the lowest free descriptor from arg, which then names the file of fd with one reference more, or which of the three errors |
| `FileTables.FileTable.SysDup2` | linux-0.01/fs/fcntl.c:30-34 | newfd is closed first; then newfd names the file, or which error; equal descriptors fail |
| `FileTables.FileTable.TwoFiles` | linux-0.01/fs/pipe.c:59-66 | two files or none; none exactly when there are not two |
| `FileTables.FileTable.SysPipe` | linux-0.01/fs/pipe.c:59-78 | refused, without effect, exactly when there are not two files and two descriptors |
| `FileTables.FileTable.SysPipeEnd` | linux-0.01/fs/pipe.c:79-91 | done or undone, as the step of the table says |
| `FileTables.FileTable.CopyFiles` | linux-0.01/kernel/fork.c:111-113 | the child's row is the parent's, every other row is unchanged, and each count grows by the parent's descriptors naming the file |
| `FileTables.FileTable.CloseAll` | linux-0.01/kernel/exit.c:73-75 | the task, even one killed inside open or pipe, has no descriptor left; the others keep theirs |
| `FileTables.OpenLaw` | linux-0.01/fs/open.c:139 | one descriptor names the new file, whose count is one; no other descriptor or count changes |
| `FileTables.OpenDoneLaw` | linux-0.01/fs/open.c:140-164 | the descriptor keeps its file, or both are free again; no other descriptor or count changes |
| `FileTables.CloseLaw` | linux-0.01/fs/open.c:181-187 | one descriptor is free and the count of its file one less |
| `FileTables.DupLaw` | linux-0.01/fs/fcntl.c:25-26 | the new descriptor names the file of the old one, which has one reference more |
| `FileTables.PipeLaw` | linux-0.01/fs/pipe.c:59-78 | two descriptors name two files in order, each with count one |
| `FileTables.PipeDoneLaw` | linux-0.01/fs/pipe.c:79-91 | nothing changes, or the two descriptors and files are free again |
| `FileTables.ForkLaw` | linux-0.01/kernel/fork.c:75-113 | the child has every descriptor of its parent, every other row is unchanged, and each count grows by the number of the parent's descriptors that name the file |
| `FileTables.OccurrencesAre` | linux-0.01/kernel/fork.c:111-113 | counting along the row gives the number of descriptors that name the file |
| `FileTables.Dup2Law` | linux-0.01/fs/fcntl.c:30-34 | newfd names the file of oldfd and no other descriptor moves; without a good oldfd newfd is only closed |
| `FileTables.InvLaw` | linux-0.01/fs/open.c:121-188 | a count is the number of pairs of a task and a descriptor that names the file |

## Left out

Whole parts of the repository:

- `src/` (heap, paging, kmalloc, sorted array, tar, initrd, vfs): the invariants its allocators aim at are not kept by the code as written.
- kernel/mktime.c, kernel/vsprintf.c, stat, ioctl, time stamps, permission checks: small loops or dispatch.
- fs/namei.c, fs/block_dev.c, fs/super.c: path walking and raw device copying; open_namei and get_pipe_inode appear as sleep points with either outcome.
- iget, iput and get_empty_inode, hence inode counts: the file-table model ends where a file's last descriptor is closed.
- interruptible_sleep_on: its queue handling is a different protocol from sleep_on.
- Assembly files, descriptor tables, segment registers, ports, the FPU and the TLB: hardware. head.s enters as the boot state only.
- tty_write, echo and IUCLC: independent of what the input queue holds.
- respond (ESC Z) on the console, with its re-entry into the input side.
- do_exit apart from its pages and descriptors; read_area and the header checks of do_execve.

Choices in what is modelled:

- Memory: pages are named by frame number and linear addresses by directory and table index; pages below LOW_MEM are constant, so task 0's own stores into them are outside the runs. Pages that the kernel keeps are a ghost set.
- Buffer cache: the content results are for calls that do not overlap, between which buffers may stay in use, with I/O that succeeds and at least two buffers; under interleaving the results are about identity and uniqueness. The interleaving model lets a scan settle on any unused buffer and a sleeper wake at any time, which allows more runs than the code has. Locks and b_wait are waits at sleep points.
- File system: sequential access to an inode, I/O that succeeds, file sizes below the reach of the block map (the source panics beyond). The contents of a freed block are unspecified.
- Disk: add_request runs without an interrupt inside it; error, retry and reset paths are left out.
- Scheduler: the signal word is 32 bits; the number of ticks is not bounded.
- Console: addresses are in cells of two bytes.
- Terminal input: interrupts arrive between passes of a reader, one event each time it has to wait; control characters and flags are fixed.
- Exec: the argument strings are given as values, each shorter than a data segment; put_page succeeds when the pages are entered.
- Ttys.Tty.TtyRead: covers VTIME of zero, the value that all three terminals start with; alarms are not modelled.
- Ttys.Tty.Receive: the queueing of the serial handler; the keyboard handler is foreign code of the same shape.
- BufferCaches.BufferCache.SysSync: without writing the inodes into buffers first.
- MemoryManagement.MemoryManager.ForkThenExit: nothing happens between the fork and the exit; with other events in between, pages that the parent copied meanwhile are its own, and the counters are those of `Paging.CountsDetermined`.
- FileSystems.FileSystem.FreeBlock: the bitmap part of free_block; its cache part is BufferCaches.BufferCache.FreeCached, and the two are not joined in one state.
- HardDisk.RequestQueue.Interrupt: the success path; bad_rw_intr depends on the controller.
- HardDisk.RequestQueue.DoRequest: whether the disk is working, without the command sent to the controller.
- Consoles.Console.EscapeByte: without the answer to ESC Z.
- Ttys.Tty.Edit: without IUCLC and echo.
- ExecTables.ChangeLdt: put_page finds a page for its table; the source ignores its failure.
- FileTables.FileTable.SysClose: without iput and close_on_exec.
