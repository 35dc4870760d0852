# RasPiK in Dafny

RasPiK is a small bare-metal kernel for the Raspberry Pi. This project models the parts of it
that hold state over long runs and proves what they keep: the heap allocator, the process ring
with its round-robin scheduler, the FAT32 reader, the console, files in memory, the ELF loader
and the SD clock divider. `dafny verify dfyconfig.toml` checks everything.

Each part comes as a specification on values, theorems about the specification, and the code in
its own form (a class whose methods rewrite headers, links, arrays or pixels in place), proved
to do what the specification says. What a specification answers is fixed in turn by laws stated
without it: which block, byte, field or pixel comes out. Arithmetic, Bytes and Wrappers hold what
several parts share.

| part | specification and theorems | code |
|---|---|---|
| heap allocator (`src/mem.c`) | HeapTiles, HeapTheorems, HeapRuns, HeapRequests, HeapMemory, HeapBytes, LostRover | Allocator |
| processes (`src/process.c`, `src/scheduler.c`) | ProcessRing, ProcessTable, ProcessRuns, ProcessRecords, ProcessReaping | Scheduler |
| FAT32 (`src/fs/fat32.c`) | Bytes, Fat32, and the lemmas of Fat32Read and Fat32Dir | methods of Fat32Read and Fat32Dir |
| console (`src/klog.c`, `src/graphics.c`) | Typescript | Graphics, Console |
| files in memory (`src/fs/vffs.c`, `src/fs/vfs.c`) | functions of Vffs and Vfs | classes of Vffs and Vfs |
| ELF loader (`src/elf.c`) | functions of Elf | Elf.Loader |
| clock divider (`import/src/emmc.c`) | functions of ClockDivider | methods of ClockDivider |

## What is proved, in short

- **Heap.** The heap is a line of tiles, free or live, without gaps. The pointer code keeps one
  circular, address-sorted free list that mirrors that line, its two-lap search always ends, and
  no allocator step writes a live payload. The theorems hold for every run in which no freed
  block ends at the rover (`heap_start`); that condition is exact, and so are the conditions
  under which a heap that has lost its rover still serves a request or takes a block back.
- **Processes.** The scheduler's walk ends exactly when a ready process exists or one will be
  left alone; it deletes from the ring it walks and leaves a doubly linked ring, the stack table
  and "at most one runs" in order. Waiting is bounded, an awaited dead process survives 999,999
  selections of its waiter, and on every ring the dead that are due at least halve with each
  return of any process that keeps taking its turns, awaited ones among them or not.
- **FAT32.** Both readers return the chain's clusters joined and cut, wherever the sector count
  and the code's walk along the chain reach; the exact conditions are given for a read at any
  offset and for a file read in pieces. Listing and lookup agree up to the exact
  condition under which an earlier file shadows a later one.
- **Console.** Every pixel, after every ASCII stream, is what the last 36 lines of an endless
  typescript prescribe. Scrolling in place is dropping the first row.
- **Files in memory.** Files refine byte sequences that a write truncates behind itself, and
  reading back returns what was written exactly if no 0xFF byte is in it.
- **ELF.** Every address holds the byte of the last segment that covers it. Segments need not be
  disjoint; where they are, the image is independent of their order.
- **Clock divider.** The exact conditions under which the divided clock stays within the target,
  and above half of it.

## Where the code and what one expects of it differ

The model follows the code. These are the points where the code does not do what its comments,
documentation or name suggest. Each names the theorem that says so.

- `kfree` never moves `heap_start` (src/mem.c:44-57). A free that absorbs the block the rover
  stands on leaves the rover off the list. A later request can then search for ever, or be given
  a block that stays on the free list, and a later free can leave its block off it.
  HeapRuns.FreeKeeps has the exact condition, LostRover a run (RoverCanBeLost) and the exact
  consequences (SearchEndsIff, ServedRightIff, FreedOffTheList, FreedRightly).
- `kmalloc` accepts sizes above 2^32 - 8 and hands out a block with no room for them
  (src/mem.c:64; HeapBytes.RequestHasRoomIff).
- `add_process` resets return value and waiting time of the current process instead of the new
  one (src/process.c:25-29), even when it then fails. A new process has whatever its memory held
  (ProcessTable.AddMarksTheWrongProcess); with a large number there it is never removed once it
  terminates (ProcessReaping.BornStuckIff, ProcessReaping.StuckForEver).
- Removing a process makes the scheduler step onto the one behind it without looking at it, so a
  lap removes only every other one of a row of dead processes (ProcessReaping.ReapHalves).
- The FAT32 sector count is rounded up unless it is a non-zero multiple of 512, when it should
  be rounded up unless the length is a multiple of the sector size (src/fs/fat32.c:385-387;
  Fat32Read.ReadFromStartIff, Fat32Read.ShortByOneByte).
- That count is counted from the start of the file whatever the offset, so reading a file in
  pieces soon goes wrong (src/fs/fat32.c:380-411; Fat32Read.ReadIff, Fat32Read.ThirdSectorFails,
  Fat32Read.PiecesIff).
- A FAT entry's sign is tested before its reserved top bits are masked off
  (src/fs/fat32.c:360-364), so an entry with the top bit set ends a chain
  (Fat32.NextIsSuccessorIff, Fat32.ReachesEndIff, Fat32Read.TopBitCutsChain).
- Looking a file up compares the stem only as far as the entry's stem goes
  (src/fs/fat32.c:199-201; Fat32Dir.ShadowsIff, Fat32Dir.EarlierFileShadows).
- Opening a file in memory without the append mask empties it, even when it is opened for
  reading only, and even when no descriptor is free (src/fs/vfs.c:74-82; Vfs.Vfs.GetNode,
  Vfs.Vfs.Open).
- The file layer writes through whatever `krealloc` returned (src/fs/vffs.c:82-83,
  src/fs/vfs.c:79-80). With the heap full, a write that has to grow the file loses it and reports
  success, and so does emptying it (Vffs.VFile.Write, Vffs.VFile.Truncate).
- Every read of a file puts a NUL behind what it returns, so a buffer needs room for one byte
  more than it gets; `load_elf` leaves none (src/elf.c:74-75; Vffs.VFile.Read,
  Fat32Read.CopyOut).
- A backspace in the last column does not undo the character before it (src/klog.c:57-83;
  Typescript.BackspaceUndoesIff).
- A remainder makes the clock divider's quotient smaller, not larger (import/src/emmc.c:325-328),
  so the clock can run faster than asked (ClockDivider.NoFasterIff, ClockDivider.FasterThanAsked),
  or be divided by 2046 when it should be divided by two (ClockDivider.NotHalvedIff,
  ClockDivider.FarSlowerThanAsked).

## How it is modelled

- Heap addresses count 8-byte header units; the anchor lies below the heap bottom, which is
  aligned. Each allocator call is atomic. The stack pointer that limits growth is a parameter.
- Process records are linked objects; the ring as a sequence from the current process on is a
  ghost field tied to the links. Memory left over from earlier use (`junk`) and the success of
  the allocator (`memory`, `room`) are parameters of the operations that allocate.
- A disk is a function from sector numbers to 512 bytes, and every read succeeds. Cluster chains
  are given as ghost sequences that the table must link up as the format says, the four
  reserved bits of an entry not counting.
- The framebuffer is an array of bytes with any pitch of at least 2400, in either byte order; the
  font is a parameter.
- Masks that are tested for being fully set (open modes, permissions) are booleans. One vffs is
  mounted. What `krealloc` hands out is modelled by its contract; a file whose memory was refused
  has a null pointer for its bytes, and what the code then writes at the addresses from zero on
  is not part of this model.
- An executable lies in the same array of bytes that it is loaded to.

## Model

| member | source | states |
|---|---|---|
| HeapRuns.MallocFailsIff | src/mem.c:60-103 | A request returns NULL if and only if no free block is big enough and growing by the larger of 1024 units and the request would pass the stack pointer, and then nothing has changed; otherwise the block is cut from the next fit of the heap as it was or as it is after one growth. |
| HeapRuns.GrowthSuffices | src/mem.c:88-98 | After one successful growth some free block fits, so the heap never grows twice for one request. |
| HeapRuns.MallocKeeps | src/mem.c:60-103 | A request keeps exact tiling, full coalescing and the rover on the free list, adds exactly one live block of the requested units inside the heap, keeps every other live block, and overlaps none of them. |
| HeapRuns.MallocThenFree | src/mem.c:75-87 | Freeing the block just obtained restores the very line of blocks it was cut from. |
| HeapRequests.MallocServes | src/mem.c:72-101 | A served request gets the upper end of the first free block with room from the rover on, or else from the bottom, or else of the top block of a heap grown by the larger of 1024 units and the request; the rover ends on the ring node next below that block. |
| HeapRequests.TakeMovesRover | src/mem.c:85 | After a request the rover is on the ring the block was cut from, below that block, with no free block between. |
| HeapRequests.ReallocAnswers | src/mem.c:123-144 | Reallocating a held block frees it for size 0 and returns it for its own size; otherwise it returns NULL and changes nothing exactly when a request of that size would fail, and else a different live block of that size, with the old one gone. |
| HeapRequests.CarriedIs | src/mem.c:139-141 | The number of bytes carried over is the smaller of the old block's capacity and the new size. |
| HeapRuns.FreeKeeps | src/mem.c:32-58 | Freeing keeps tiling, coalescing, heap end and rover, ends exactly one live block, and keeps the rover on the free list if and only if the freed block does not end where the rover stands. |
| HeapRuns.TouchingIsAbsorbing | src/mem.c:44-48 | The condition a caller can check (the block ends at the rover) is the same as the absorption of the rover by the upward merge. |
| HeapRuns.StepKeeps | src/mem.c:32-144 | Every kmalloc, kfree, kcalloc or krealloc keeps the heap invariant, and keeps the rover on the free list if and only if no block it frees ends at the rover. |
| HeapRuns.InitialIsSound | src/mem.c:6-8 | The empty heap, with the list anchor alone on the free list, satisfies the invariant. |
| HeapRuns.RunConserves | src/mem.c:20-103 | At every point of every run whose frees spare the rover, free and live blocks tile the heap exactly, no two free blocks touch, and free plus live units add up to the heap's size. |
| HeapRuns.LiveBlockSurvivesRun | src/mem.c:60-144 | Over any such run a live block that no call names is still there, whole, at the same place. |
| HeapTheorems.ReleaseRing | src/mem.c:44-57 | What a release does to the free list: the upper neighbour's node goes when it is absorbed, and the block's own node comes in unless the lower neighbour absorbs it. |
| HeapTheorems.ReleaseRover | src/mem.c:44-57 | A release keeps the rover on the free list if and only if it does not absorb the rover as the block's upper neighbour. |
| HeapTheorems.ReleaseUnits | src/mem.c:44-57 | Exactly the block's units move from live to free through either or both merges. |
| HeapTheorems.TakeRing | src/mem.c:77-86 | A split leaves the free list as it was and an exact fit removes one node. |
| HeapTheorems.TakeLive | src/mem.c:75-87 | Handing out a block adds that block and changes no other live block. |
| HeapTheorems.GrowKeeps | src/mem.c:88-98 | Growth inside kmalloc always keeps the invariant and the rover on the free list. |
| HeapMemory.StopsAtPredecessor | src/mem.c:36-43 | On an ascending ring with one wrap, kfree's search condition holds at the unique predecessor of the block and at no other node, whatever node the search starts from. |
| HeapMemory.UpperMerge | src/mem.c:44-50 | The address comparison for the upward merge is true exactly when the tile above the block is free. |
| HeapMemory.LowerMerge | src/mem.c:51-57 | The address comparison for the downward merge is true exactly when the tile below the block is free. |
| HeapMemory.FreeRepresented | src/mem.c:44-57 | The stores of kfree turn a memory that represents a heap into one that represents the heap with the block released, and touch no live payload. |
| HeapMemory.TakeRepresented | src/mem.c:75-87 | The stores of kmalloc turn a memory that represents a heap into one that represents it with the block taken, and touch no live payload. |
| HeapMemory.WidenedRepresented | src/mem.c:91-96 | Writing the header of the new memory represents the heap with one more live block on top. |
| HeapMemory.LapGoesOn | src/mem.c:99-100 | One step of kmalloc's search keeps the account of the lap: every free block passed since the rover is too small. |
| HeapMemory.LapEnds | src/mem.c:88-90 | A lap that comes back to the rover without a fit proves that no free block fits. |
| HeapMemory.LapFinds | src/mem.c:75-86 | The first fitting node of the lap is the next fit above the rover, or else the lowest fit. |
| HeapBytes.CopyKeeps | src/mem.c:114-121 | Bytes copied into a fresh block change no header and no other block's payload. |
| HeapBytes.ReallocKeepsOthers | src/mem.c:136-143 | Allocating, copying and freeing in turn keep every payload that the reallocation is not about. |
| HeapBytes.RequestHasRoomIff | src/mem.c:64 | A block has room for the bytes asked for if and only if the size is at most 2^32 - 8, and never more than 7 bytes to spare; above that the rounding wraps to a header-only block. |
| HeapBytes.PutThenGet | src/mem.c:118-119 | A byte stored in a unit reads back and its seven neighbours stay. |
| LostRover.RoverCanBeLost | src/mem.c:44-57 | A legal run of five calls from the empty heap, and a free that then leaves the rover off the free list. |
| LostRover.FreeLosesRover | src/mem.c:44-57 | Exactly the frees of a block that ends at the rover leave the rover inside a free block, off the free list, with a stale link that still leads to the list. |
| LostRover.WalkStaysOnRing | src/mem.c:99-100 | Following links from a node of the free list never leaves it. |
| LostRover.SearchEndsIff | src/mem.c:73-101 | With the rover lost, the search meets a block with room if and only if there is one; it never meets the rover, so otherwise it goes on for ever and does not grow the heap. |
| LostRover.HandedOutButFree | src/mem.c:75-86 | With the rover lost, a request that the first node reached fits exactly is unlinked at the stale header: memory goes on to represent a heap in which the block handed out is free. |
| LostRover.ServedRightIff | src/mem.c:75-87 | A request served from the lost rover leaves memory as it should be, wherever the search stops, if and only if it is not an exact fit by the very first node reached. |
| LostRover.FreedOffTheList | src/mem.c:36-57 | A block whose place the search finds at the lost rover itself is linked in at the stale header: the free list stays as it was and memory does not represent the heap with the block freed. |
| LostRover.FreedRightly | src/mem.c:36-57 | For any other block the search goes on to the free list, stops at the block's place in it and nowhere else there, and the block is freed rightly. |
| Allocator.Allocator.constructor | src/mem.c:6-8 | A new allocator represents the empty heap. |
| Allocator.Allocator.Brk | src/mem.c:10-18 | The heap end moves exactly when the address is between the heap bottom and the stack pointer; a refused first call still sets it to the bottom. |
| Allocator.Allocator.Sbrk | src/mem.c:20-30 | The old heap end is returned and the end advanced, or -1 returned and the end kept when the stack is in the way. |
| Allocator.Allocator.FindPlace | src/mem.c:36-43 | The search, started from the rover, terminates at the free-list node with as many free blocks below as the freed block has. |
| Allocator.Allocator.LinkBlock | src/mem.c:44-57 | Block and node are relinked, with either, both or no merge, and no other unit is written. |
| Allocator.Allocator.KFree | src/mem.c:32-58 | The pointer code does to memory exactly what releasing the tile does to the line of tiles, and no live payload changes. |
| Allocator.Allocator.TakeNode | src/mem.c:75-87 | The node found is handed out whole or its upper end is, and it is the next fit. |
| Allocator.Allocator.GrowHeap | src/mem.c:88-98 | The heap grows by the larger of 1024 units and the request exactly when the stack allows it. |
| Allocator.Allocator.StartList | src/mem.c:65-71 | The first request makes the anchor a ring of its own. |
| Allocator.Allocator.KMalloc | src/mem.c:60-103 | The search terminates for every request; heap and result are those of the tile specification, and no live payload changes. |
| Allocator.Allocator.KMemcpy | src/mem.c:114-121 | Exactly the given bytes are copied and no unit outside the destination changes. |
| Allocator.Allocator.KRealloc | src/mem.c:123-144 | Heap and result are those of the specification; the first min(old capacity, new size) bytes are carried over and every other live payload is unchanged. |
| Allocator.Allocator.KCalloc | src/mem.c:105-112 | The block for the 32-bit product is all zero bytes and no other payload changes. |
| ProcessRing.WalkEndsIff | src/scheduler.c:38-48 | The scheduler's loop ends if and only if some process is ready, or the ring has others and all but one of them will be removed. |
| ProcessRing.WalkIsTicks | src/scheduler.c:38-48 | The walk is a finite number of steps, and it stops at the first one that reaches a ready process. |
| ProcessRing.UnschedulableNeverStops | src/scheduler.c:38-48 | Without that condition no number of steps reaches a ready process. |
| ProcessRing.TickLooks | src/scheduler.c:40-46 | Looking at a process that will be removed uses up one of finitely many looks; passing any other costs none. |
| ProcessRing.TickKeepsWait | src/scheduler.c:40-47 | A step never makes a process unready, and makes one ready only by leaving it alone on the ring. |
| ProcessRing.WalkReaps | src/scheduler.c:38-48 | The walk stops at the first ready process ahead; those behind it keep their order, then comes the starting process, then what is left of the processes passed. |
| ProcessTable.ScheduleKeeps | src/scheduler.c:29-50 | A scheduler call keeps ring, pids and stack slots in order and leaves exactly one process running, the current one. |
| ProcessTable.KillKeeps | src/process.c:162-181 | Changing a status keeps the table in order. |
| ProcessTable.AwaitKeeps | src/process.c:201-207 | Marking a process as awaited keeps the table in order. |
| ProcessTable.AddKeeps | src/process.c:11-96 | Adding a process keeps the table in order, whether or not it succeeds. |
| ProcessTable.AddFailsIff | src/process.c:44-62 | Adding fails if and only if memory or stack slots ran out; then the ring stays but for the reset of the current process. |
| ProcessTable.AddMarksTheWrongProcess | src/process.c:25-29 | Adding wipes the current process's own return value and mark, also when no slot is left, and the new process starts unmarked if and only if its memory held zero. |
| ProcessTable.StacksApart | src/process.c:37-55 | The stacks of two processes lie at least one stack size apart. |
| ProcessRecords.ScheduleRecords | src/scheduler.c:29-50 | A scheduler call saves the given stack pointer in the record that was current and no other, counts one more run for the selected process and no other, makes it run, and otherwise changes only the status of the one that ran and the age of dead ones. |
| ProcessRecords.KillChanges | src/process.c:162-181 | Exactly the process with the pid given changes its status, and nothing else in the table changes. |
| ProcessRecords.AwaitChanges | src/process.c:201-207 | Exactly the process with the pid given gets a waiting time of 1, and nothing else in the table changes. |
| ProcessRecords.AddedRecord | src/process.c:19-95 | Every field of a new process: its stack pointer is its own slot's stack, the lowest free one, 2048 bytes per slot above that of slot 0; parent, run count and pid are as the source has them, and the table changes nowhere else but for the reset of the current process. |
| ProcessRecords.StartsApart | src/process.c:37-55 | Over every legal run from the empty table, two processes that have not run yet start at least one stack size apart. |
| ProcessRuns.RunKeepsTable | src/process.c:11-212 | Over every legal run from the empty table, pids and slots are unique, a stack is in use exactly when one process owns it, process 1 stays, and at most the current process runs. |
| ProcessRuns.ScheduleAdvances | src/scheduler.c:35-50 | A scheduler call selects a given ready process or brings it strictly nearer. |
| ProcessRuns.BoundedWaiting | src/scheduler.c:35-50 | A ready process that nobody kills is selected within as many scheduler calls as its ring distance plus the number of processes added meanwhile. |
| ProcessRuns.AwaitedSurvives | src/process.c:201-209 | A terminated process marked as awaited stays on the ring until a process that keeps taking turns has been selected 999,999 times. |
| ProcessReaping.ReapHalves | src/scheduler.c:40-47 | Of consecutive terminated processes nobody awaits, every other one is removed, the first included, and the rest keep their order. |
| ProcessReaping.ScheduleReapsHalf | src/scheduler.c:29-50 | One scheduler call across k such processes removes exactly ceil(k/2) of them and selects the ready process behind them. |
| ProcessReaping.ReapHalvesDues | src/scheduler.c:40-47 | Passing over any stretch of the ring, in which no mark is just running out, removes at least half of the processes due in it, whether or not others in it are awaited. |
| ProcessReaping.ScheduleHalves | src/scheduler.c:29-50 | A scheduler call on a ring where no mark is just running out keeps a bound on the processes due, those passed since a process was last selected counted twice, and halves it when it selects that process. |
| ProcessReaping.ReturnsHalveDead | src/scheduler.c:29-50 | On any ring, over any run in which nobody else becomes due, n returns of a process that keeps taking its turns leave at most 1/2^n of the processes due; from a start between its turns one return more is needed. |
| ProcessReaping.LapsReapAll | src/scheduler.c:29-50 | Hence fewer than 2^n of them are all gone after n returns, and no process is due any more. |
| ProcessReaping.BornStuckIff | src/process.c:25-29 | A new process, once terminated, has a waiting time past the limit if and only if its memory held one. |
| ProcessReaping.StuckForEver | src/scheduler.c:40-46 | Over any run that leaves it alone such a process stays on the ring, terminated: nothing ever removes it. |
| Scheduler.ProcessManager.constructor | src/process.c:3-7 | The kernel starts with no process and no stack in use. |
| Scheduler.ProcessManager.FindProcess | src/process.c:188-199 | The walk round the ring finds the process with that pid, or none if there is none. |
| Scheduler.ProcessManager.Kill | src/process.c:162-181 | Exactly the named process changes status, and the ring stays linked both ways. |
| Scheduler.ProcessManager.MarkAwaited | src/process.c:201-207 | Exactly the named process is marked, and the result says whether there is one. |
| Scheduler.ProcessManager.Unlink | src/process.c:119-124 | Taking a record out closes the doubly linked cycle over it and frees its stack slot. |
| Scheduler.ProcessManager.RemoveProcess | src/process.c:98-135 | Exactly the named process leaves the ring and the stack table; a process left alone becomes ready; -1 and no change when there is none. |
| Scheduler.ProcessManager.ExamineNext | src/scheduler.c:40-46 | The record just ahead is removed, aged or left as the ring specification says, in linked records. |
| Scheduler.ProcessManager.WalkOn | src/scheduler.c:40-48 | One turn of the loop is one step of the ring specification. |
| Scheduler.ProcessManager.Schedule | src/scheduler.c:29-50 | The loop terminates while it deletes from the ring it walks, and its result is the specified ring with exactly the stacks of the departed freed. |
| Scheduler.ProcessManager.FindSlot | src/process.c:45-55 | The lowest free stack slot is found, or none. |
| Scheduler.ProcessManager.InsertAmong | src/process.c:80-85 | A record goes in behind the current one and the cycle closes in both directions. |
| Scheduler.ProcessManager.Insert | src/process.c:67-86 | The same for rings of any size, the empty one and the one-element one included. |
| Scheduler.ProcessManager.AddProcess | src/process.c:11-96 | Table and pid are those of the specification: the current process is reset, the new one keeps what its memory held for return value and waiting time, and -1 comes back when memory or slots ran out. |
| Fat32.GetEntryReadsTable | src/fs/fat32.c:70-110 | An entry never crosses a sector, and for every cluster number below 2^30 it is the signed little-endian word at byte 4c of the table. |
| Fat32.TableWordIs | src/fs/fat32.c:70-110 | The entry of a cluster is made of the four bytes, lowest first, at its place in the table's sectors. |
| Fat32.SuccessorIs | src/fs/fat32.c:364-366 | Its lower 28 bits are the next cluster, unless they are 0x0FFFFFF7 or more. |
| Fat32.NextIsSuccessorIff | src/fs/fat32.c:360-366 | The code finds the cluster that the format names, whose four top bits do not count, if and only if the entry's top bit is clear or the chain ends there anyway; otherwise it takes the chain to end. |
| Fat32.ReachesEndIff | src/fs/fat32.c:312-372 | The code follows a chain of the format to its end if and only if no entry on the way has its top bit set. |
| Fat32.ClusterOfLastSector | src/fs/fat32.c:358-368 | The cluster number recovered from a cluster's last sector is that cluster. |
| Fat32.ChainBytesLength | src/fs/fat32.c:312-372 | A chain holds as many bytes as its clusters have sectors times 512. |
| Fat32.ChainByteAt | src/fs/fat32.c:368 | Each byte of a chain lies in the sector of its cluster, clusters being counted from 2 at the root. |
| Fat32Read.ReadSectors | src/fs/fat32.c:320-354 | The sectors of a cluster are joined in the buffer until the bytes to read run out. |
| Fat32Read.ReadShortFile | src/fs/fat32.c:277-310 | The buffer gets the beginning of the first cluster, as many sectors as were counted, and nothing else changes. |
| Fat32Read.FollowChain | src/fs/fat32.c:358-368 | From the last sector read, the table leads to the first sector of the next cluster of the format's chain, exactly when there is one and the entry's top bit is clear. |
| Fat32Read.ReadLongFile | src/fs/fat32.c:312-372 | On any chain of the format, the buffer gets the beginning of the concatenated clusters, cut to the size, to the clusters counted and to those the code gets to. |
| Fat32Read.LoadFile | src/fs/fat32.c:391-407 | Either reader fills the buffer with the file's beginning, as far as the sector count and the clusters the code gets to reach. |
| Fat32Read.CopyOut | src/fs/fat32.c:409-412 | The caller gets the bytes from the offset on, then a NUL, and nothing behind it changes. |
| Fat32Read.ReadFile | src/fs/fat32.c:374-416 | Count, new offset and bytes of a read: file contents where they were loaded, and what the buffer held before where they were not. |
| Fat32Read.FaithfulIff | src/fs/fat32.c:374-416 | A read returns the file's bytes whatever the buffer held if and only if the bytes returned lie within the loaded beginning. |
| Fat32Read.CountIs | src/fs/fat32.c:379-411 | A read returns all bytes asked for if the file has them, else what is left. |
| Fat32Read.FetchedIs | src/fs/fat32.c:385-387 | The sectors fetched are those the bytes fill and one more, which is missing where the former are a non-zero multiple of 512, rounded up to whole clusters beyond the first. |
| Fat32Read.ReadFromStartIff | src/fs/fat32.c:380-388 | From offset 0, that is so if and only if the code gets to the clusters that hold the bytes and they do not end inside a sector after a non-zero multiple of 512 whole sectors. |
| Fat32Read.ReadIff | src/fs/fat32.c:374-416 | At any offset, that is so if and only if offset plus count lies within 512 times the sectors fetched for that count from the file's start, and within the clusters the code gets to. |
| Fat32Read.FarReadFails | src/fs/fat32.c:380-412 | A read inside the file at 512 * (len / 512 + sectors per cluster) or later is always wrong. |
| Fat32Read.ThirdSectorFails | src/fs/fat32.c:380-412 | With clusters of 8 sectors, reading 512 bytes at 1024 is wrong for every file of at least 1536 bytes. |
| Fat32Read.PiecesIff | src/fs/fat32.c:374-416 | A file read from start to end in pieces of a fixed length comes back right if and only if the whole file lies within the sectors fetched for the last piece alone, and within the clusters the code gets to. |
| Fat32Read.TopBitCutsChain | src/fs/fat32.c:360-366 | On a two-cluster chain with a reserved top bit set, the second cluster of every two-sector file comes back wrong. |
| Fat32Read.ShortByOneByte | src/fs/fat32.c:386-388 | A file of 512 * 512 + 1 bytes read in one go comes back wrong. |
| Fat32Dir.LiveConcat | src/fs/fat32.c:148-155 | The files of a directory are those of its first part and, unless that holds the end mark, those of the rest. |
| Fat32Dir.EntryOfBytes | src/fs/fat32.c:383 | Where an entry's fields lie: the first cluster's upper half at byte 20, its lower half at byte 26, the size from byte 28. |
| Fat32Dir.EntriesAt | src/fs/fat32.c:148-167 | Entry k of a directory is made of its 32 bytes from 32 * k on. |
| Fat32Dir.ListedIff | src/fs/fat32.c:150-154 | An entry is a listed file exactly when it has neither the volume nor the directory bit and is neither deleted nor the end mark. |
| Fat32Dir.ShortNameIs | src/fs/fat32.c:159-165 | A listed name is the characters up to a NUL or a space, a dot and the three extension characters. |
| Fat32Dir.UpperIs | src/fs/fat32.c:190-195 | Small letters become capitals and nothing else changes. |
| Fat32Dir.AcceptsIff | src/fs/fat32.c:197-206 | The test of a name, character by character. |
| Fat32Dir.ListingIs | src/fs/fat32.c:148-168 | The listing has every file, in order, as long as there is room. |
| Fat32Dir.LookupIs | src/fs/fat32.c:236-257 | The lookup gives the first file that the test accepts, or none exactly when it accepts none. |
| Fat32Dir.CheckFilename | src/fs/fat32.c:197-206 | The test accepts exactly the names that begin with the entry's stem and end with its extension, in capitals. |
| Fat32Dir.ReadDir | src/fs/fat32.c:112-188 | The listing is the names of the directory's files up to the end mark, cluster by cluster, at most eight clusters' worth, over the clusters the code gets to; that is the whole directory if it gets to all or meets the end mark. |
| Fat32Dir.GetNode | src/fs/fat32.c:208-275 | The lookup gives the first file before the end mark that the test accepts, wherever clusters divide the directory, or none, over the clusters the code gets to; what it gives is one of the directory's 32-byte entries, field by field. |
| Fat32Dir.OwnNameAcceptedIff | src/fs/fat32.c:190-206 | An entry is accepted for its own listed name if and only if that name is in capitals. |
| Fat32Dir.ShadowsIff | src/fs/fat32.c:197-206 | Another entry is accepted for it too if and only if it has the same extension and a stem that begins the name. |
| Fat32Dir.EarlierFileShadows | src/fs/fat32.c:197-206 | With A.TXT in front of AB.TXT, looking up AB.TXT finds A.TXT. |
| Fat32Dir.ListedIsFound | src/fs/fat32.c:112-275 | Every listed name in capitals is found, and what is found is the listed file if and only if no earlier file shadows it. |
| Graphics.SplitColor | src/graphics.c:160-174 | Taking a color apart and putting it together keeps its 24 bits. |
| Graphics.PixelRoundTrip | src/graphics.c:160-205 | The color put at a pixel is got back in either byte order, and putting back what was got changes no byte. |
| Graphics.BytesInOrder | src/graphics.c:176-205 | Red, green, blue under QEMU and the reverse on the hardware. |
| Graphics.BitIs | src/graphics.c:214-220 | Bit j of a font row is the one worth 2^j. |
| Graphics.LitIs | src/graphics.c:207-222 | A glyph has 16 rows of one byte each, whose lowest bit is the leftmost pixel. |
| Graphics.PixelsApart | src/graphics.c:176-189 | Pixels lie inside the framebuffer and no two share a byte. |
| Graphics.Screen.PutPixel | src/graphics.c:176-189 | One pixel changes: exactly its three bytes, in either byte order, at row times pitch plus three times column. |
| Graphics.Screen.GetPixel | src/graphics.c:191-205 | The color is the one that the pixel's three stored bytes make up, below 2^24. |
| Graphics.Screen.DrawChar | src/graphics.c:207-222 | Exactly the lit pixels of the glyph take the color. |
| Graphics.Screen.ClearChar | src/graphics.c:224-229 | Exactly one cell becomes black. |
| Graphics.Screen.CopyChar | src/graphics.c:231-241 | One cell becomes a copy of another and all other pixels stay. |
| Typescript.BlankAfterCursor | src/klog.c:42-89 | Every cell at or after the cursor is blank, in every state. |
| Typescript.NextLineSeen | src/klog.c:24-40 | A new line moves what is seen up one row, with a blank row below, when the cursor is on the last row, and moves the cursor down otherwise. |
| Typescript.TypedWhere | src/klog.c:57-72 | A character on a full line goes to the next one, and all lines before the cursor's stay. |
| Typescript.TypedNewline | src/klog.c:66-72 | A newline puts the cursor at the start of a new line. |
| Typescript.TypedTab | src/klog.c:73-76 | A tab moves over four blank columns if they leave the cursor inside the line, and else does nothing but leave a full line. |
| Typescript.TypedBackspace | src/klog.c:77-83 | A backspace takes the last character of the cursor's line away, if it has any. |
| Typescript.TypedGlyph | src/klog.c:84-87 | Any other character appears behind the line in its color. |
| Typescript.CursorIs | src/klog.c:57-87 | The cursor is right after the last line, on that line's row of the screen. |
| Typescript.SeenIs | src/klog.c:24-40 | The screen has the last 36 lines of the paper. |
| Typescript.PlainTextIsKept | src/klog.c:57-86 | Text without control characters is all there, in order, behind what was there before: wrapping neither loses nor repeats a character. |
| Typescript.PlainTextFillsLines | src/klog.c:57-63 | Such text breaks into lines only where a line is full. |
| Typescript.WritingInParts | src/klog.c:42-89 | Writing two strings in turn is writing their concatenation. |
| Typescript.BackspaceUndoesIff | src/klog.c:76-83 | A backspace undoes the character before it if and only if the cursor stood at least two columns before the end of the line. |
| Console.CellOf | src/klog.c:24-40 | A pixel of the text area belongs to exactly one cell. |
| Console.InkIs | src/klog.c:84-86 | Cells of 8 by 16 pixels start at the margin of 10; a glyph has its color where its font rows are lit and the rest is black. |
| Console.Console.ClearKlog | src/klog.c:6-13 | From any state, the screen shows blank paper with the cursor at the top left. |
| Console.Console.Scroll | src/klog.c:24-40 | The in-place, column-wise copying and clearing moves the text area up by exactly one row of cells, leaves a blank row, and changes nothing outside. |
| Console.Console.NextRow | src/klog.c:57-72 | The cursor goes to the start of the next row, scrolling on the last one, as a new line on the paper. |
| Console.Console.Erase | src/klog.c:76-83 | Clearing the cell before the cursor takes the last character off the paper. |
| Console.Console.Draw | src/klog.c:84-86 | Only the glyph drawn shows in its cell, because the cell was blank. |
| Console.Console.KlogWrite | src/klog.c:42-89 | After every ASCII stream all pixels of the screen, and the cursor, are those of the last 36 lines of the typescript, and the count returned is the length. |
| Vffs.ReadBackIff | src/fs/vffs.c:60-98 | Reading from where a write began returns the data up to its first 0xFF byte; all of it if and only if it has none. |
| Vffs.ReadableIff | src/fs/vffs.c:64-72 | A read returns n bytes exactly when none of them is 0xFF and it stops for the length asked for, the end, or a 0xFF byte. |
| Vffs.WrittenIs | src/fs/vffs.c:84-92 | A file after a write, byte by byte. |
| Vffs.WritesJoin | src/fs/vffs.c:75-98 | Writes that follow one another leave their data joined. |
| Vffs.VFile.Read | src/fs/vffs.c:60-73 | A read returns the bytes from the offset up to the end, a 0xFF byte or the length asked for, adds a NUL, and advances by what it returned; without permission nothing changes. |
| Vffs.VFile.Write | src/fs/vffs.c:75-98 | The file and its end mark survive if and only if it need not grow or memory is granted, though success is reported either way; a surviving file keeps what was before the offset, gets the data and drops what was behind it; past the end, the old mark stays in front of the gap; a locked or read-only file is unchanged. |
| Vffs.VFile.Resize | src/mem.c:136-143 | Bytes that fit are kept and the others are arbitrary; without memory for the new block the pointer is lost. |
| Vffs.VFile.Truncate | src/fs/vfs.c:76-82 | The file becomes empty with its end mark if and only if memory is granted; otherwise it is lost. |
| Vffs.FileSystem.Get | src/fs/vffs.c:34-40 | The file with that name is found if there is one. |
| Vffs.FileSystem.Create | src/fs/vffs.c:3-32 | A new empty file comes last if and only if the name is new, the table not full and memory granted; names stay unique. |
| Vffs.FileSystem.Remove | src/fs/vffs.c:42-58 | The named file leaves the table, the others keep their order and stay packed. |
| Vfs.Vfs.GetNode | src/fs/vfs.c:44-84 | A file is had exactly when it exists, or may be created and there is room for it, and its permissions fit the mode; it is the one the table had, or a new one behind the others; it is emptied unless opened for appending, lost exactly when that finds no memory, and no other file changes. |
| Vfs.Vfs.Open | src/fs/vfs.c:122-142 | The lowest free descriptor takes the file, at its end; opening fails exactly when the file cannot be had or no descriptor is free; the table keeps its files and gains at most the new one; a file opened without the append mask is empty afterwards even when no descriptor was free. |
| Vfs.Vfs.Close | src/fs/vfs.c:144-155 | An open descriptor becomes free and no other changes. |
| Vfs.SoughtIs | src/fs/vfs.c:213-226 | Where the three kinds of seek lead, with and without wrapping around; the end counts from the last byte. |
| Vfs.Vfs.Read | src/fs/vfs.c:157-174 | A read goes to the file at the descriptor's offset and advances that offset alone. |
| Vfs.Vfs.Write | src/fs/vfs.c:176-192 | A write changes one file and one offset, fails without effect exactly when the descriptor is closed or read-only or the file may not be written, and loses that file exactly when it has to grow and finds no memory. |
| Vfs.Vfs.Seek | src/fs/vfs.c:194-228 | The new offset in 32 bits, with the end counted from the last byte, or a failure without effect. |
| Vfs.Vfs.WriteThenRead | user/apps/example.c:127-138 | Writing, seeking back and reading returns the data up to its first 0xFF byte and leaves it in the file, if and only if there is room for it. |
| Elf.OthersUntouched | src/elf.c:83-86 | Loading changes no address outside the loadable segments. |
| Elf.SegmentIsLoaded | src/elf.c:46-60 | An address gets the byte of the last loadable segment it lies in, the file's byte or zero behind the file bytes. |
| Elf.FileUntouched | src/elf.c:83-86 | The file in memory stays as it is while it is loaded, so headers read late are those of the file. |
| Elf.ArmExecutableIff | src/elf.c:3-26 | The bytes that mark the files taken. |
| Elf.HeadersAre | src/elf.c:83-86 | Where the program headers lie and which of their words are used. |
| Elf.WordsOfBytes | src/elf.c:46-56 | Words and half words are little-endian. |
| Elf.Loader.Memcpy | src/elf.c:28-37 | Exactly the destination gets the source's bytes. |
| Elf.Loader.Memset | src/elf.c:39-44 | Exactly the given range is filled. |
| Elf.Loader.CheckElf | src/elf.c:3-26 | Exactly the files marked as 32-bit little-endian ARM executables, version 1, pass. |
| Elf.Loader.LoadSegment | src/elf.c:46-60 | Covered addresses get the segment's bytes and no other address changes. |
| Elf.Loader.LoadElf | src/elf.c:76-90 | Every address holds the byte of the last segment that covers it, or what it held before, and the entry point is returned; another kind of file changes nothing. |
| ClockDivider.CeilLogIs | import/src/emmc.c:341-353 | The exponent found is the only one whose power of two is the least not below the quotient. |
| ClockDivider.RoundUpBit | import/src/emmc.c:341-353 | The scan from bit 31 down gives the rounded-up binary logarithm, or -1 for zero. |
| ClockDivider.EmmcGetClockDivider | import/src/emmc.c:318-374 | The packed word holds the divider for the quotient, or the failure code for an old controller; decoded, it keeps the clock within the target, and above half of it, under exactly the conditions below. |
| ClockDivider.PackedRoundTrip | import/src/emmc.c:366-368 | The 10-bit divider has its lower eight bits in bits 8 to 15 and its upper two in bits 6 and 7, every other bit is zero, and it can be taken back out. |
| ClockDivider.NoFasterIff | import/src/emmc.c:318-374 | The divided clock is no faster than the target if and only if a condition on the quotient and remainder holds: always for a whole quotient up to 2046, and with a remainder only if neither the quotient nor the number below it is a power of two, or the largest divider is in use and still enough. |
| ClockDivider.NotHalvedIff | import/src/emmc.c:318-374 | It is faster than half the target if and only if the quotient is more than one or there is no remainder. |
| ClockDivider.FasterThanAsked | import/src/emmc.c:318-374 | From 50 MHz, 20 MHz asked for give 50 MHz. |
| ClockDivider.FarSlowerThanAsked | import/src/emmc.c:318-374 | From 50 MHz, 40 MHz asked for give less than 25 kHz. |

## Left out

- Direct user calls of `brk` that lower the heap end, and preemption inside an allocator call: the code handles neither.
- Allocator.Allocator.KMalloc: requests whose 32-bit sums of units and addresses wrap around are excluded by `Fits`; UnitsFor itself wraps as the code does.
- Allocator.Allocator.Brk: addresses are multiples of 8, as all those that the kernel itself passes are.
- Allocator.Allocator.Sbrk: increments whose 32-bit sum with the heap end wraps around are excluded.
- Allocator.Allocator.GrowHeap: growth whose 32-bit address sum wraps around is excluded.
- Allocator.Allocator.KRealloc: requests whose 32-bit sums wrap around are excluded by `Fits`, as for kmalloc.
- Allocator.Allocator.KCalloc: the product wraps around as in the code, but products whose rounded size does are excluded by `Fits`.
- Allocator.Allocator.FindPlace: starts from a rover on the free list.
- Allocator.Allocator.KFree: is proved for live blocks and a rover on the free list, which is the condition whose loss LostRover describes; the search from a lost rover is described there on the memory, not by a method that need not end.
- `exit`'s immediate self-removal (src/process.c:154-160), marked as broken in the repository's own list of things to do; processes die by `kill` and are reaped by the scheduler.
- Scheduler.ProcessManager.RemoveProcess: process 1, whose removal halts the machine, and the current process are excluded.
- Scheduler.ProcessManager.Schedule: is called where its loop ends; ProcessRing.WalkEndsIff says exactly when that is.
- ProcessTable.AddKeeps: a new process is not added as running, which no caller does.
- ProcessTable.KillKeeps: process 1 is not terminated, and no process but the current one is set running.
- ProcessRing.WalkEndsIff: a waiting time past the limit grows without bound; in the code it is an `int` that overflows after some 2^31 looks.
- ProcessRing.UnschedulableNeverStops: the same waiting time never overflows here.
- ProcessReaping.LapsReapAll: no scheduler call of the run meets a terminated process whose waiting time is one short of the limit (or -1), since looking at it would make it due; awaited processes are otherwise allowed everywhere.
- ProcessReaping.StuckForEver: a waiting time past the limit never overflows here.
- Killing another process into RUN or process 1 into TERM, and the wrap-around of pids and stack addresses.
- Names, program counters, registers and descriptor tables of processes; context switching, `exec`'s jump and system-call dispatch, which have no state of their own to keep.
- ProcessRuns.AwaitedSurvives: the busy loop of `waitpid` is its caller's taking turns; the dead process does not reset its own mark through `add_process`.
- Fat32Read.CopyOut: a caller's buffer without room for the NUL behind what is returned.
- Fat32Read.ReadFile: a caller's buffer without room for that NUL; sectors of 512 bytes, files whose chain covers their size, and no failure of the device or of the allocator.
- Fat32Dir.CheckFilename: names of fewer than three characters, for which the code reads in front of the name.
- Fat32Dir.GetNode: names of fewer than three characters, for which the code reads in front of the name; malformed or cyclic chains.
- Fat32Dir.ListedIsFound: extensions with a NUL, which ends the listed name early.
- Console.Console.KlogWrite: the echo on the serial line, and characters above 127, for which the font table has no glyph.
- Init-time output of the console, tags and colors of messages: they only call what is modelled.
- Vffs.VFile.Read: a caller's buffer without room for the NUL behind what is returned.
- Vfs.Vfs.Read: a caller's buffer without room for that NUL.
- Vffs.VFile.Resize: a size equal to the block's own capacity, a multiple of 8, for which krealloc gives the same block back and needs no memory.
- Vfs.Vfs.Write: an offset and length whose sum passes 2^32.
- Vfs.Vfs.WriteThenRead: a start past the end of the file, a buffer no longer than the data, and what reading a file gives whose memory was refused.
- Vffs.VFile.Write: sums that pass 2^32, and what the gap behind a write past the end contains apart from its first byte.
- Removing a file that is still open, which leaves the descriptor pointing to freed memory; `chmod`, `stat`, `readdir` and path parsing of the file layer; mount and device tables.
- Elf.Loader.LoadSegment: segments whose file size exceeds their memory size or that overlap the file, as for LoadElf.
- Elf.Loader.LoadElf: opening and reading the file, files shorter than their headers, and segments whose file size exceeds their memory size, for which the code's subtraction wraps around, or that overlap the file.
- ClockDivider.EmmcGetClockDivider: a target of zero, by which the code divides.
- Mailbox, serial line, timers, interrupts, boot code and the rest of the SD driver: hardware whose answers are not part of this model.
