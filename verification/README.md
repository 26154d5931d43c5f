# BazingaOS in Dafny

BazingaOS is a small MINIX-style system: a kernel with synchronous messages, a file system task, and a
memory manager task.  This project models its state-heavy parts and proves what they keep over every run.

| file | what it models |
|---|---|
| `Ipc.dfy`, `IpcInvariant.dfy`, `IpcRuns.dfy` | the rendezvous protocol as a machine over whole kernel entries, its invariant, and its runs: acyclic waiting, no lost wakeup, exactly-once delivery, arrival order |
| `ProcTable.dfy` | the process table with its intrusive queues, proved to implement that machine step by step |
| `Scheduler.dfy` | `schedule` and the clock tick: what is picked, when the loop ends, how long a process waits |
| `Bits.dfy`, `Device.dfy` | bytes, bitmaps, the disk behind `rw_sector`, and `fsbuf` |
| `SectorMap.dfy`, `SectorRuns.dfy` | allocating and freeing sector-map bits across sectors, `set_smap`, and the map over every run of creations and deletions |
| `FileIo.dfy` | the read-modify-write loop of `do_rdwt` and `do_lseek` against a byte splice of the disk |
| `InodeMap.dfy`, `InodeCache.dfy` | the inode map on disk; the inode cache over the inode array on disk |
| `RefCounts.dfy`, `FileTables.dfy` | `fd_cnt`, `i_cnt`, inode numbers and the inode map over every run of open, create, close, fork, exit, stat and unlink; the tables and the inode cache implement them |
| `Directory.dfy`, `DirectoryFile.dfy` | creating and finding directory entries, and the loops over the directory file on disk |
| `Lifecycle.dfy` | fork, exit, wait, zombies and adoption |
| `Strings.dfy`, `ExecArgs.dfy` | C strings; packing an argument block in one address space and relocating it into another |
| `MemorySlots.dfy` | address slots and the segment descriptors that hold them |

Conventions.  Each kernel entry is one atomic step.  A `panic` or a failed assertion is a stop that nothing
follows: `Stop(reason)` in the message protocol, `ok == false`, `-1` or `None` elsewhere.  Where the source
changes state in place the model is a class or an array method whose postcondition equates the new state with
a function of the old one; what the source promises is then proved of that function.  A C record kept in a
table is one datatype value per array cell, and the links of the send queues are arrays of their own.  Nested C
loops are one method per level.

Where the code does less than its comments or names suggest, the model follows the code, and the exact
condition under which it does meet the intent is proved:

- `kernel/proc.c:348` — a receive from a named process that has to block while an interrupt is pending trips
  the last assertion: `IpcInvariant.ReceiveKeepsInv` (if and only if), `IpcRuns.PendingInterruptStops` (a run).
- `fs/open.c:226-238` — allocation skips set bits, so a file's sectors form one run only if no set bit lies in
  the span: `Bits.FillIsRun`, `SectorRuns.CreateIsRunIff` (if and only if), `SectorRuns.CreationMaySplit` (a run of
  creations from mkfs on).
- `fs/link.c:110` — the assertion parses as `fsbuf[i] & 1`, so a run that ends with its byte also needs bit 0 of the
  byte after it: `SectorMap.FreeRun`, `SectorRuns.UnlinkTestsIff` (if and only if).  Created files pass; cmd.tar cannot
  be deleted on a partition whose map takes 6 sectors more than a multiple of 8:
  `SectorRuns.FormatThenDeleteTar` (if and only if), `SectorRuns.TarRefused` (a partition of 26 MB).
- `fs/read_write.c:75,83` — a write past the capacity does not clip the bytes it moves: `FileIo.WriteStaysInFile`
  (if and only if), `FileIo.WriteMayLeaveFile` and `FileIo.WriteMayFillNextFile` (two inputs).
- `fs/read_write.c:114-120` — a read with the position beyond the size makes the file grow to that position:
  `FileIo.ReadGrowsIff` (if and only if), `FileIo.ReadMayGrowFile` (a run).
- `fs/link.c:52-60` — a refused unlink keeps the inode it took: `RefCounts.RunsConserve` counts these exactly,
  `RefCounts.UnlinkGoesThroughIff` (if and only if) and `RefCounts.RefusedForever` say that such a file can never be
  deleted again, `RefCounts.ClosedFileStaysRefused` is a run in which nobody has it open any more.
- `fs/open.c:324-329` — with no unused entry and a full last sector the new entry is written behind the buffer's
  sector and lost: `Directory.InsertLookup`, `DirectoryFile.CreateThenSearch` (if and only if),
  `Directory.FullSectorLosesEntry` (28 creations after mkfs).
- `fs/misc.c:95` — the search looks at one entry beyond the directory's size: `Directory.ExtraEntryIff` (if and only
  if), `Directory.ExtraEntryMatters` (three creations and two deletions after mkfs), `Directory.OkLooksProper` (never
  over runs of creations).
- `mm/forkexit.c:299-309` — a freed slot keeps its parent, so `do_wait` may block a caller without children:
  `Lifecycle.ChildlessBlocksIff` (if and only if, in terms of the history), `Lifecycle.WaitMayBlockChildless` (a run).
- `mm/main.c:87-92` — the comparisons are signed, so sizes and memories of 2 GB and more are misjudged:
  `MemorySlots.AllocFits` (if and only if), `MemorySlots.HugeSizeAccepted` and `MemorySlots.LargeMachineRefuses` (inputs).
- `mm/forkexit.c:61-64` — the size of a segment is computed in 32 bits, where 4 GB is 0:
  `MemorySlots.SizeIsTrueIff` (if and only if), `MemorySlots.FlatCallerCopiesNothing` (the flat segments of the loader).
- `mm/main.c:92` — the test uses the caller's size, while the child gets a segment of 1 MB:
  `MemorySlots.SegmentInsideIff` (if and only if), `MemorySlots.SegmentMayLeaveMemory` (an input).
- `lib/exec.c:42` — only the pointer table is checked against the size of the buffer: `ExecArgs.Execv` says what is
  written for arguments of any length, `ExecArgs.StaysInBufferIff` (if and only if) when that is the buffer,
  `ExecArgs.LongArgumentOverruns` is an input.
- `fs/main.c:202` — the sector map has bits for sectors behind the partition: `SectorRuns.FilesOnPartition` (never
  used while cmd.tar is there), `SectorRuns.CreateOnPartitionIff` (if and only if),
  `SectorRuns.CreationMayLeavePartition` (a run).

Two places are modelling choices: of `deadlock` only the decision is modelled (`ProcTable.Kernel.Deadlock`), because its
report loop, `kernel/proc.c:398-405`, runs before the sender has a message; and there is one superblock and one device,
because `get_super_block` assigns instead of comparing (`fs/main.c:416`), so every device gets the first superblock.

## Model

| member | source | states |
|---|---|---|
| IpcInvariant.ReachesStep | kernel/proc.c:389-417 | one step of the walk along blocked sends: a process leads to `b` exactly when its target is `b` or leads to `b` |
| IpcInvariant.EnqueueAcyclic | kernel/proc.c:126-188 | blocking a sender on a receiver that does not lead back to it closes no cycle |
| IpcInvariant.AcyclicMeansNoCycle | kernel/proc.c:389-417 | every walk along blocked sends ends if and only if no process leads back to itself |
| IpcInvariant.WithoutAt | kernel/proc.c:275-314 | taking a sender out of a queue keeps all the others in order |
| IpcInvariant.WakeKeepsInv | kernel/proc.c:143-151 | waking a receiver keeps records, queues, acyclicity and attentiveness |
| IpcInvariant.EnqueueKeepsInv | kernel/proc.c:158-188 | queueing a sender nobody listens to keeps the whole invariant |
| IpcInvariant.TakeKeepsInv | kernel/proc.c:302-326 | taking a queued sender and releasing it keeps the whole invariant |
| IpcInvariant.WaitKeepsInv | kernel/proc.c:327-350 | blocking a receiver that has nothing to receive keeps the whole invariant, so no wakeup is lost |
| IpcInvariant.SendKeepsInv | kernel/proc.c:118-191 | a send keeps the invariant, and stops exactly when it is to oneself or would close a cycle; no other assertion fails |
| IpcInvariant.ReceiveKeepsInv | kernel/proc.c:198-353 | a receive keeps the invariant, and stops exactly when it names the caller itself, or names a process that is not sending while an interrupt is pending |
| IpcInvariant.NotifyKeepsInv | kernel/proc.c:424-449 | reporting an interrupt never fails an assertion and keeps the invariant |
| IpcRuns.BootInv | kernel/main.c:57-126 | the table `kernel_main` sets up satisfies the invariant |
| IpcRuns.StepKeepsInv | kernel/proc.c:53-82 | every kernel entry that does not stop keeps the invariant |
| IpcRuns.RunsKeepInv | kernel/proc.c:118-353 | in every reachable state the fields of each record agree, each queue holds exactly the processes blocked on its owner, once each, sends form no cycle, and no receiver sleeps on something available |
| IpcRuns.RunsHaveNoSendCycle | kernel/proc.c:126-130 | no reachable state has a process that leads back to itself along blocked sends |
| IpcRuns.StepConserves | kernel/proc.c:133-188 | one entry moves at most one message between accepted, in flight and received, for every pair of processes |
| IpcRuns.ExactlyOnceInOrder | kernel/proc.c:118-326 | over every run and pair, what was accepted from `a` to `d` is what `d` received from `a`, in order and unchanged, followed by the message `a` is still blocked on |
| IpcRuns.MessagesNameSender | kernel/proc.c:60-62 | every message accepted or received over a run carries its real sender as source |
| IpcRuns.TakenIsQueued | kernel/proc.c:242-300 | what a receive takes is the head of its queue for ANY, and otherwise the named process, blocked on the receiver |
| IpcRuns.ReceiveDelivers | kernel/proc.c:302-326 | a completed receive copies the sender's buffer to the caller's, wakes the sender and removes exactly it from the queue, the head for ANY and the named one otherwise; no other record or buffer changes |
| IpcRuns.SendDelivers | kernel/proc.c:133-188 | what is sent is the caller's buffer with the caller as source; a listening receiver has it at once and is runnable, any other send blocks the caller at the tail of the queue; no other record or buffer changes |
| IpcRuns.StepMoves | kernel/proc.c:118-353 | one entry does nothing to the messages for a process, puts one behind the others, passes one straight through, or takes one out; a receive from ANY takes the first |
| IpcRuns.ArrivalOrder | kernel/proc.c:118-353 | over every run and for every process, the messages accepted for it are exactly those received, each once, and those in its queue, which stand there in the order they were accepted |
| IpcRuns.AnyTakesEarliest | kernel/proc.c:242-260 | at every point of every run, a receive from ANY takes, of all messages accepted for its caller and not yet received, the one accepted earliest |
| IpcRuns.ReceiveBlocksOrCompletes | kernel/proc.c:209-350 | what a receive does, in this order: a receive from oneself stops; a pending interrupt is handed over first, for ANY and INTERRUPT, with the queue left alone; else the first queued sender (for ANY) or the named one is taken; else a pending interrupt stops it; else the caller blocks on that source and buffer; in each case no other record, queue or buffer changes |
| IpcRuns.InterruptWakesOrWaits | kernel/proc.c:424-449 | an interrupt wakes a process blocked on ANY or INTERRUPT, with source and type in its buffer and nothing left pending, and is remembered for every other process; nothing else changes |
| IpcRuns.BlockedUntilServed | kernel/proc.c:133-151 | a blocked receiver stays as it is until a process it listens to sends to it, or an interrupt it listens to arrives, and then its buffer holds that message |
| IpcRuns.InterruptRemembered | kernel/proc.c:424-449 | an interrupt that finds its process not listening stays recorded until that process receives from ANY or INTERRUPT |
| IpcRuns.MutualSendStops | kernel/proc.c:126-130 | a run in which a send is stopped because it would close a cycle |
| IpcRuns.PendingInterruptStops | kernel/proc.c:344-348 | a run in which a receive from a named process stops because an interrupt is pending |
| ProcTable.AppendLinked | kernel/proc.c:160-179 | linking a process behind the tail of one chain appends it to that queue and leaves every other chain alone |
| ProcTable.RemoveLinked | kernel/proc.c:304-314 | unlinking the k-th process of one chain removes it from that queue and leaves every other chain alone |
| ProcTable.QueuesDisjoint | kernel/proc.c:158-188 | no process is on two queues |
| ProcTable.TakeRepresents | kernel/proc.c:302-326 | after a take the links still represent the queues, and no idle process is linked |
| ProcTable.Kernel.constructor | kernel/main.c:57-126 | the table after boot: records as set there, all queues empty, everything consistent |
| ProcTable.Kernel.Deadlock | kernel/proc.c:389-417 | the walk ends and returns true exactly when blocked sends lead from `dest` to `src` |
| ProcTable.Kernel.MsgSend | kernel/proc.c:118-191 | on the linked table, a send is the step `Send`, stops exactly when that stops, and proves the source's assertions on the way |
| ProcTable.Kernel.Enqueue | kernel/proc.c:158-188 | the sender is blocked at the tail of the receiver's chain; all other records are unchanged |
| ProcTable.Kernel.Append | kernel/proc.c:160-179 | the walk to the end of the chain ends and links the sender there |
| ProcTable.Kernel.MsgReceive | kernel/proc.c:198-353 | on the linked table, a receive is the step `Receive`, whose outcome `IpcRuns.ReceiveBlocksOrCompletes` decides, stops exactly when that stops, and proves the source's assertions on the way |
| ProcTable.Kernel.TakeOrBlock | kernel/proc.c:241-352 | the part of a receive that is not served by an interrupt: taking a queued message, or blocking |
| ProcTable.Kernel.FindPrevious | kernel/proc.c:268-286 | the walk finds the named sender and the process queued just before it |
| ProcTable.Kernel.TakeFrom | kernel/proc.c:302-326 | dequeue, copy and release together are the step `Take` |
| ProcTable.Kernel.Dequeue | kernel/proc.c:304-314 | the chain without the sender, every other link unchanged |
| ProcTable.Kernel.CopyAndRelease | kernel/proc.c:316-325 | the receiver's buffer holds the sender's message and the sender is runnable |
| ProcTable.Kernel.InformInt | kernel/proc.c:424-449 | on the linked table, reporting an interrupt is the step `Notify` |
| ProcTable.Kernel.SysSend | kernel/proc.c:53-70 | the source is stamped on the caller's buffer, then the step `Send` |
| ProcTable.Kernel.SysReceive | kernel/proc.c:53-76 | the source is stamped on the caller's buffer, then the step `Receive` |
| Scheduler.CanPickAfterRefill | kernel/proc.c:41-44 | one refill is enough if some runnable process has positive priority |
| Scheduler.NoPickEver | kernel/proc.c:31-45 | otherwise no number of refills produces a process to run |
| Scheduler.PickIsUnique | kernel/proc.c:32-39 | the pick is determined by the table |
| Scheduler.Cpu.Scan | kernel/proc.c:32-39 | the first runnable process of greatest positive ticks, or 0 exactly when there is none |
| Scheduler.Cpu.RefillAll | kernel/proc.c:41-44 | every runnable process has its priority in ticks and is otherwise unchanged; every blocked process and free slot is exactly as before |
| Scheduler.Cpu.Schedule | kernel/proc.c:26-46 | ends after at most one refill with the first runnable process of greatest positive ticks; the table is unchanged if some runnable process had ticks left, and refilled otherwise |
| Scheduler.Cpu.ClockHandler | kernel/clock.c:12-28 | the running process loses exactly one tick and keeps the rest of its record; unless the interrupt was nested the table is rescheduled, a new process is picked and a pressed key is reported to the TTY |
| Scheduler.SettledIsRescheduled | kernel/proc.c:31-45 | the table of the runs changes only where no runnable process has ticks left, and then only in the ticks of runnable processes, which become their priorities |
| Scheduler.BootInv | kernel/main.c:57-153 | the table and the first task kernel_main sets up start a run |
| Scheduler.BootPriorities | kernel/main.c:57-153 | the priorities after boot add up to 85, which makes the waiting bound 170 ticks |
| Scheduler.SettleKeepsWait | kernel/proc.c:26-46 | rescheduling does not lengthen the bound on how long a runnable process waits |
| Scheduler.StepSpendsWait | kernel/clock.c:12-28 | every tick outside the kernel that passes a runnable process over uses up one unit of that bound; nested ticks and rescheduling do not lengthen it |
| Scheduler.WaitIsSpent | kernel/clock.c:12-28 | over a run that passes it over, ticks plus the remaining bound never exceed the initial bound |
| Scheduler.RunnableIsSelected | kernel/clock.c:12-28 | a process of positive priority that stays runnable runs within twice the sum of the priorities in ticks outside the kernel, however many nested ones come between, and one more if the run starts with a process that has used up its ticks |
| Bits.FillFirstMeaning | fs/open.c:220-245 | a bit is set after filling exactly when it was set or fewer than `n` clear bits precede it |
| Bits.FillFirstAppend | fs/open.c:217-254 | filling a map is filling its first part, then the rest with what is left |
| Bits.FillIsRun | fs/open.c:226-238 | the filled bits form one run if and only if the `n` bits from the first clear one on are clear |
| Bits.FillBlock | fs/open.c:226-238 | with nothing clear before a block of `n` clear bits, exactly that block is filled |
| Device.Disk.Read | fs/main.c:164-176 | the buffer starts with the bytes of the disk, its rest is unchanged |
| Device.Disk.Write | fs/main.c:164-176 | the bytes of the buffer are on the disk, all others unchanged |
| Device.Disk.RdSect | include/sys/fs.h:83-89 | one whole sector is in the buffer |
| Device.Disk.WrSect | include/sys/fs.h:75-81 | one whole sector of the disk is replaced by the buffer |
| SectorMap.AllocInByte | fs/open.c:224-244 | the bit loop fills the first clear bits of a byte, early exit included, and notes the first sector |
| SectorMap.AllocInSector | fs/open.c:220-245 | the byte loop with its skip of full bytes fills the first clear bits of a sector |
| SectorMap.AllocOnDisk | fs/open.c:219-249 | one sector of the map is filled on disk although it is only written back once a clear bit was seen |
| SectorMap.AllocSmapBit | fs/open.c:209-259 | over the whole multi-sector map exactly the first `n` clear bits are set, the result is the sector of the first, it succeeds exactly when there are `n`, and nothing else on disk changes |
| SectorMap.ClearUp | fs/link.c:81-87 | the first byte loses exactly the bits of the run, and the loop goes through exactly when they are set |
| SectorMap.Carry | fs/link.c:92-97 | stepping over a sector boundary changes nothing of the disk as it will be |
| SectorMap.ClearWhole | fs/link.c:88-100 | the middle bytes are cleared, across sectors, exactly when all are full |
| SectorMap.ClearLast | fs/link.c:101-112 | the byte treated as last loses its low bits, exactly when its bit 0 is set |
| SectorMap.RunLayout | fs/link.c:74-79 | the byte count and sector the source computes are those of the run, negative quotient included |
| SectorMap.ReleasedBits | fs/link.c:81-112 | the bytes the pass leaves hold every bit as before except those of the run |
| SectorMap.RunSetBits | fs/link.c:85-98 | the byte tests hold exactly when the bits of the run outside the last byte are set |
| SectorMap.FreePass | fs/link.c:81-112 | the three phases together, as one change of the disk |
| SectorMap.FreeRun | fs/link.c:72-112 | for every start and length: it goes through exactly when the run's bits outside the last byte and bit 0 of that byte are set, and then exactly the bits of the run are cleared on the whole disk |
| SectorRuns.MarkRun | fs/main.c:285-311 | the bit loop sets exactly a run of bits, across sectors |
| SectorRuns.FillHead | fs/main.c:262-275 | the first sector of the map has bits 0 to 2048 set and no other |
| SectorRuns.SetSmap | fs/main.c:259-312 | afterwards exactly the reserved bit, the root directory and cmd.tar are marked, and nothing outside the map changed |
| SectorRuns.MkfsIsFresh | fs/main.c:259-312 | the map `set_smap` leaves starts a run |
| SectorRuns.ExtentsDisjoint | fs/open.c:265-292 | live extents, that of cmd.tar included, are disjoint from each other and from the root directory |
| SectorRuns.Uniform | fs/open.c:209-259 | below cmd.tar, or everywhere once that is deleted, every block of 2048 bits is all set or all clear |
| SectorRuns.FirstClearStartsBlock | fs/open.c:217-238 | while a free block remains, the first clear bit starts one |
| SectorRuns.CreateKeepsInv | fs/open.c:279-286 | a creation takes a whole free block and keeps the invariant |
| SectorRuns.UnlinkKeepsInv | fs/link.c:72-120 | a deletion, of a created file or of cmd.tar, keeps the invariant |
| SectorRuns.CreateThenUnlink | fs/link.c:72-120 | creating and deleting a file restores the map and the live files |
| SectorRuns.UnlinkTestsIff | fs/link.c:85-110 | a deletion goes through exactly when the extent starts inside a byte or the bit behind it is set: always for created files, and for cmd.tar exactly when it is not aligned to a byte |
| SectorRuns.CreateIsRunIff | fs/open.c:226-238 | a creation that succeeds gets one run of sectors if and only if a whole free block remains or cmd.tar starts on a block boundary |
| SectorRuns.CreationMaySplit | fs/open.c:226-238 | a run of creations from mkfs on after which the next one is given sectors on both sides of cmd.tar |
| SectorRuns.RunsKeepInv | fs/open.c:265-292 | from mkfs on, over every run of creations and deletions, of cmd.tar too, live extents are blocks of their own and the set bits are exactly what is in use |
| SectorRuns.CreateOnDisk | fs/open.c:282-283 | the allocation pass over the disk is the creation step |
| SectorRuns.UnlinkOnDisk | fs/link.c:72-112 | a release pass that goes through is the deletion step on the map |
| SectorRuns.CreateExtent | fs/open.c:265-292 | on disk, a creation gets a block of its own and the sector number of its start |
| SectorRuns.DeleteExtent | fs/link.c:72-112 | on disk, a deletion releases exactly the file's extent; it stops only for a cmd.tar aligned to a byte |
| SectorRuns.CreateAndDelete | fs/link.c:72-112 | on disk, creating a file and deleting it leaves the map as it was |
| SectorRuns.TarPlace | fs/main.c:198-204 | where the superblock puts cmd.tar in the map, and for which map sizes it is aligned to a byte |
| SectorRuns.FilesOnPartition | fs/main.c:198-204 | while cmd.tar is there, every file lies on the partition |
| SectorRuns.CreateOnPartitionIff | fs/open.c:209-259 | a creation stays on the partition if and only if a whole free block on the partition is left |
| SectorRuns.CreationMayLeavePartition | fs/main.c:198-204 | a run of a deletion and creations after which a file lies behind the partition |
| SectorRuns.FormatThenDeleteTar | fs/link.c:72-112 | mkfs followed by the deletion of cmd.tar stops exactly on partitions whose map takes 6 sectors more than a multiple of 8 |
| SectorRuns.TarRefused | fs/link.c:108-110 | on a partition of 53248 sectors that deletion stops |
| FileIo.ReadModifyWrite | fs/read_write.c:90-106 | reading a stretch, writing over part of it and writing it back is a splice of the disk |
| FileIo.MoveChunk | fs/read_write.c:87-112 | one turn of the loop puts the next bytes of the data on disk and moves the position |
| FileIo.TakeTurn | fs/read_write.c:87-112 | the next bytes land right behind those already written |
| FileIo.NextChunk | fs/read_write.c:87-112 | one turn of the loop, from the plan's point of view: what has been counted and what has reached the disk |
| FileIo.WriteLoop | fs/read_write.c:87-112 | the loop ends after at most two turns and splices the data into the disk up to the end of its last chunk |
| FileIo.DoWrite | fs/read_write.c:64-122 | a write at any position is a splice of the disk, of all the data within the capacity and up to the end of the last chunk beyond it; the result, the new position and the new size are exact |
| FileIo.WriteStaysInFile | fs/read_write.c:75-83 | a write stays within the file if and only if it ends within the capacity, and then all of it lands |
| FileIo.WriteCounts | fs/read_write.c:75-111 | at any position a write counts whole sectors up to the one its clipped end lies in, and lands up to the end of that sector; a stretch of 2049 sectors counts two buffers, and behind the last sector nothing is counted |
| FileIo.WriteMayLeaveFile | fs/read_write.c:75-83 | a write at the end of a file of 2048 sectors that lands behind it |
| FileIo.WriteMayFillNextFile | fs/read_write.c:81-112 | a write to the start of such a file that overwrites the 2048 sectors behind it |
| FileIo.InCapacityFits | fs/read_write.c:75-83 | a write within the capacity never overruns the buffer, and all of it lands |
| FileIo.ReadLoop | fs/read_write.c:87-112 | the loop ends and hands exactly the wanted bytes of the disk to the caller |
| FileIo.DoRead | fs/read_write.c:64-122 | a read returns the bytes from the position on, as many as asked and available, and moves the position on by exactly their number; a position beyond the size reads nothing and becomes the size |
| FileIo.ReadableIsCount | fs/read_write.c:68-72 | the number of bytes read is the greatest that is asked for and lies between position and size |
| FileIo.CountsAdd | fs/read_write.c:68-111 | what two reads in a row return adds up to what one read of their sum returns |
| FileIo.ReadTwice | fs/read_write.c:64-122 | two reads in a row give, one behind the other, the bytes one read of their sum gives, and leave the position behind them |
| FileIo.DoLseek | fs/lseek.c:32-57 | the position becomes the offset, the old position plus the offset, or the size plus the offset, clamped to the extent |
| FileIo.Seek | fs/lseek.c:42-56 | the new position is the one inside the extent nearest to the asked one |
| FileIo.WriteThenRead | fs/read_write.c:64-122 | a write within the capacity, a seek back and a read: the read returns exactly the data, and no other byte of the disk changed |
| FileIo.ReadGrowsIff | fs/read_write.c:114-120 | a read changes the size exactly when the position lies beyond it |
| FileIo.ReadMayGrowFile | fs/read_write.c:114-120 | a seek and a read that make an empty file grow |
| FileIo.OtherFilesUntouched | fs/read_write.c:64-122 | a write within the capacity leaves disjoint extents alone |
| FileIo.StepKeepsBounds | fs/read_write.c:108-120 | every open, seek, read and in-capacity write keeps positions and sizes within the extent |
| FileIo.StepDecides | fs/read_write.c:108-120 | an open starts at 0, a seek goes where it is asked, a read and a write move their position by what they read and wrote and the size up to it; no other descriptor and no other file changes |
| FileIo.RunsStayInBounds | fs/lseek.c:32-57 | over every run of these, with shared descriptors and inodes, positions and sizes stay within the extent |
| InodeCache.WordsRoundTrip | include/sys/fs.h:37-50 | the on-disk fields of an inode read back as written |
| InodeCache.InodeLayout | include/sys/fs.h:37-50 | which bytes of its place on disk hold the mode, the size, the first sector and the number of sectors of an inode |
| InodeMap.SetImap | fs/main.c:241-252 | mkfs marks exactly the numbers 0 to 5 in the inode map |
| InodeMap.AllocImapBit | fs/open.c:168-199 | exactly the first clear bit of the inode map is set, its number is the result, it fails exactly when the map is full, and nothing else on disk changes |
| InodeMap.AllocAddsOne | fs/open.c:168-199 | the number allocated was not marked, and becomes so |
| InodeMap.FreeImapBit | fs/link.c:62-70 | the release of a number goes through exactly when it is marked, and clears its bit and no other |
| InodeMap.AllocThenFree | fs/link.c:62-70 | releasing the number just allocated restores the map |
| InodeCache.PlaceInSector | fs/main.c:466-468 | the sector and offset computed for an inode are its own 32 bytes of the array, inside one sector |
| InodeCache.StoreInode | fs/main.c:493-511 | writing one inode makes it read back and leaves all others alone |
| InodeCache.StoreMirrors | fs/main.c:493-511 | changing a cached inode together with the disk keeps the cache a mirror |
| InodeCache.LoadMirrors | fs/main.c:459-474 | loading an inode that is not cached keeps the cache a mirror without duplicates |
| InodeCache.Cache.constructor | fs/main.c:98-101 | the empty cache mirrors the disk |
| InodeCache.Cache.Find | fs/main.c:437-454 | the slot of the inode if it is cached, else the first free slot if any |
| InodeCache.Cache.GetInode | fs/main.c:431-476 | the slot holds the inode as it is on disk with one more user; it fails exactly when the inode is not cached and no slot is free |
| InodeCache.Cache.PutInode | fs/main.c:482-486 | one user less, nothing else changes |
| InodeCache.Cache.ShareInode | fs/main.c:523-527 | one user more, nothing else changes |
| InodeCache.Cache.NewInode | fs/open.c:347-363 | a number that is not cached gets the first free slot and one user; its fields are on disk, where nothing but the 32 bytes of that inode changes |
| InodeCache.Cache.SyncInode | fs/main.c:493-511 | exactly the 16 bytes of the inode change on disk |
| InodeCache.Cache.Store | fs/open.c:100-104 | changing a cached inode and syncing it replaces exactly that inode on disk and keeps the cache transparent |
| InodeCache.Cache.Erase | fs/link.c:114-120 | clearing, putting and syncing an inode, in that order, leaves it all zero on disk, every other one alone, and the cache transparent |
| RefCounts.TotalZero | fs/main.c:541-553 | a set of descriptors has no references exactly when no entry points into it |
| RefCounts.BindKeepsInv | fs/open.c:94-116 | taking an inode by its number and binding a free descriptor to its slot keeps all counts exact |
| RefCounts.ShareKeepsInv | fs/main.c:523-527 | counting one inherited entry keeps all counts exact |
| RefCounts.DropKeepsInv | fs/open.c:153-156 | giving an entry back never takes a count below zero and keeps all counts exact |
| RefCounts.ForkKeepsInv | fs/main.c:517-530 | a fork leaves the child with the parent's entries and all counts exact |
| RefCounts.ExitKeepsInv | fs/main.c:536-553 | an exit leaves no entry and all counts exact |
| RefCounts.NewInodeCountsOne | fs/open.c:347-363 | a number that was clear in the inode map is not cached, so setting its count to 1 counts one user |
| RefCounts.OpenKeepsInv | fs/open.c:70-116 | opening a file, found or new, keeps all counts exact |
| RefCounts.StatKeepsInv | fs/misc.c:131-140 | a stat leaves every count as it was |
| RefCounts.RefuseKeepsInv | fs/link.c:52-60 | a refused unlink leaves the count too large by exactly one |
| RefCounts.UnlinkKeepsInv | fs/link.c:52-120 | an unlink, refused or not, keeps the counts, the uniqueness of cached numbers and the inode map in step |
| RefCounts.CachedIff | fs/main.c:431-476 | an inode is cached exactly while some process has it open, while it is the root, or once an unlink of it was refused |
| RefCounts.UnlinkGoesThroughIff | fs/link.c:52-60 | an unlink goes through exactly when the file is regular, no process has it open, it is not the root, and no earlier unlink of it was refused |
| RefCounts.RefusedForever | fs/link.c:52-60 | over every run, once an unlink of a file has been refused every later one is refused too |
| RefCounts.ClosedFileStaysRefused | fs/link.c:52-60 | a run after which nobody has the file open and its unlink is still refused |
| RefCounts.StepKeepsInv | fs/open.c:94-159 | every operation keeps the counts |
| RefCounts.FileIffPointed | fs/open.c:106-114 | a descriptor is open on a file exactly while some entry points at it |
| RefCounts.StepDecides | fs/open.c:94-159 | what each operation does to the entries of every process (one filled, one emptied, a table copied, a table emptied, none), to the file every descriptor is on, and to the inode map and the refused unlinks |
| RefCounts.BootInv | fs/main.c:98-127 | after start-up only the root directory is held |
| RefCounts.RunsConserve | fs/main.c:517-553 | over every run, `fd_cnt` counts the entries of each descriptor, a descriptor is bound exactly while counted, no inode is cached twice, every cached inode is marked in the inode map, and `i_cnt` is the entries reaching the inode, plus one for the root, plus the refused unlinks of that inode |
| RefCounts.EntryKeepsFile | fs/main.c:517-553 | over every run, an entry stays on its descriptor and that on its file until the process closes it or exits |
| RefCounts.UnlinkedIsUnused | fs/link.c:52-120 | over every run, when an unlink goes through, no descriptor of any process is on that inode number, and no slot holds it afterwards |
| FileTables.PicksSlotFor | fs/main.c:437-458 | the slot the search of get_inode picks is the one the counts speak of |
| FileTables.Tables.constructor | fs/main.c:98-127 | the tables after start-up, with the root directory taken into the empty cache |
| FileTables.Tables.GetSlot | fs/main.c:431-476 | get_inode on the cache is one more user of that inode number |
| FileTables.Tables.NewSlot | fs/open.c:347-363 | new_inode on the cache is one user of a new inode number, whose fields on disk are the given ones |
| FileTables.Tables.Truncate | fs/open.c:100-104 | the size on disk becomes 0; the other fields, every other inode and every other byte are unchanged |
| FileTables.Tables.DoOpen | fs/open.c:41-116 | the first free entry and the first free descriptor are bound to the inode of that number, found or new; a new inode has the given fields on disk, O_TRUNC changes the size to 0 and nothing else, and without either the disk is unchanged, as it is in every other inode; it fails exactly when entry, descriptor or slot is missing, and then changes nothing |
| FileTables.Tables.DoClose | fs/open.c:145-159 | on the tables and the cache, a close gives exactly one entry back |
| FileTables.Tables.FsExit | fs/main.c:536-553 | on the tables and the cache, an exit is the step `ExitFrom` and empties the process's row |
| FileTables.Tables.Fork | fs/main.c:517-530 | on the tables and the cache, a fork is the step `ForkFrom`: the copied row, counted entry by entry |
| FileTables.Tables.DoStat | fs/misc.c:131-140 | on the cache, a stat takes the inode and puts it back |
| FileTables.Tables.DoUnlink | fs/link.c:52-120 | on the cache and the disk, an unlink is refused, keeping the inode and the disk, or leaves that inode all zero on disk and every other one alone, exactly as the mode on disk and the count decide |
| Lifecycle.AdoptOneKeeps | mm/forkexit.c:236-248 | one turn of the adoption loop keeps what do_exit needs |
| Lifecycle.LeaveKeeps | mm/forkexit.c:217-233 | reporting or hanging leaves only the caller's children to be adopted |
| Lifecycle.ExitKeepsInv | mm/forkexit.c:207-249 | an exit keeps the invariant |
| Lifecycle.ForkKeepsInv | mm/forkexit.c:28-55 | a fork keeps the invariant |
| Lifecycle.WaitKeepsInv | mm/forkexit.c:259-293 | a wait keeps the invariant |
| Lifecycle.WaitDecides | mm/forkexit.c:259-293 | the caller is left waiting exactly when some slot names it as parent and no such slot hangs; else the first hanging child is reported to it, with its status, and freed, or it is told that no slot names it; nothing else changes |
| Lifecycle.ForkDecides | mm/forkexit.c:28-55 | the child's slot is in use with the caller as parent, and nothing else changes |
| Lifecycle.ExitDecides | mm/forkexit.c:207-249 | every slot and every reply after an exit: a waiting parent is told and the slot freed, else the caller hangs with its status; all its children go to INIT, which, if it waits, collects the first that hangs and no other |
| Lifecycle.AdoptCollects | mm/forkexit.c:235-248 | the adoption loop lets a waiting INIT collect the first hanging child of the caller only |
| Lifecycle.RunsKeepInv | mm/forkexit.c:207-309 | over every run, nobody waits for a child that hangs, and nobody in use has a free or hanging parent |
| Lifecycle.StepAccounts | mm/forkexit.c:207-309 | every step keeps exits equal to reports plus held statuses |
| Lifecycle.ExitsReportedOnce | mm/forkexit.c:299-309 | over every run and slot, the exit statuses in order are those reported, followed by the one a hanging process holds |
| Lifecycle.ExitAnswersWaits | mm/forkexit.c:223-248 | an exit sends as many replies to a process as waits of it end |
| Lifecycle.WaitsAnsweredOnce | mm/forkexit.c:259-309 | over every run and for every process, the calls of wait are those answered with a child, those answered without one, and the one it is still waiting in |
| Lifecycle.WaitsAreSettled | mm/forkexit.c:259-293 | over every run, each call of wait is answered at once or leaves its caller waiting, as the slots decide |
| Lifecycle.AdoptParents | mm/forkexit.c:236-240 | after the loop the caller's children, and only they, have INIT as parent |
| Lifecycle.ParentIsGuardian | mm/forkexit.c:53-53 | over every run, the recorded parent of every slot, in use or freed, is the process that last forked into it, or INIT once that one has exited |
| Lifecycle.StepTellsParent | mm/forkexit.c:299-306 | a step only appends replies, each about a process in use and to its recorded parent |
| Lifecycle.RepliesGoToGuardian | mm/forkexit.c:299-306 | over every run, every exit is reported to the process that forked the child, or to INIT if that one had exited |
| Lifecycle.BlocksChildlessIff | mm/forkexit.c:267-284 | a wait blocks a caller without children exactly when some slot names it and every slot that does is free |
| Lifecycle.FreeIffReported | mm/forkexit.c:299-309 | over every run, a slot is free exactly when every fork into it has been reported |
| Lifecycle.ChildlessBlocksIff | mm/forkexit.c:267-284 | over every run, in terms of forks, exits and reports alone: a wait blocks a caller without children exactly when something was ever in its care and all of it has been reported |
| Lifecycle.ToldChildlessIff | mm/forkexit.c:285-292 | over every run, a wait is answered with "no child" exactly when no slot was ever put into the caller's care |
| Lifecycle.WaitMayBlockChildless | mm/forkexit.c:299-309 | a run after which a wait blocks a process that has no child left |
| Lifecycle.Manager.constructor | kernel/main.c:57-126 | the table after boot |
| Lifecycle.Manager.SendAndFree | mm/forkexit.c:299-309 | the reply is sent to the parent and the slot is free, its other fields unchanged |
| Lifecycle.Manager.LeaveProcess | mm/forkexit.c:217-233 | on the table, do_exit up to its loop is the step `Leave` |
| Lifecycle.Manager.AdoptSlot | mm/forkexit.c:236-248 | on the table, one turn of the loop is the step `AdoptOne` |
| Lifecycle.Manager.ForkProcess | mm/forkexit.c:28-55 | the first free slot becomes a copy of the caller's with the caller as parent; -1 exactly when none is free |
| Lifecycle.Manager.ExitProcess | mm/forkexit.c:207-249 | on the table, do_exit is the step `Exit`, adoption loop included |
| Lifecycle.Manager.WaitChild | mm/forkexit.c:259-293 | on the table, do_wait is the step `Wait`, whose outcome `Lifecycle.WaitDecides` decides; it answers at once exactly when the caller is not left waiting |
| ExecArgs.PackNext | lib/exec.c:52-59 | storing the next pointer and string leaves the earlier ones and the null pointer alone |
| ExecArgs.PackedIsBlock | lib/exec.c:40-59 | when all are stored the buffer is an argument block |
| ExecArgs.Execv | lib/exec.c:34-66 | for arguments of any number and length: the assertion stops exactly from 255 arguments on; otherwise the memory from the buffer on holds the pointers, a null pointer and the strings, and no other cell changed |
| ExecArgs.StaysInBufferIff | lib/exec.c:38-59 | the cells written lie in the buffer if and only if the block has at most 1024 of them |
| ExecArgs.LongArgumentOverruns | lib/exec.c:42-58 | an argument that passes the assertion and overruns the buffer |
| ExecArgs.MoveNext | mm/exec.c:74-79 | moving one pointer leaves the others and the strings alone |
| ExecArgs.MovedBlock | mm/exec.c:70-80 | a block whose pointers are all moved by the distance it moves is the same block at the new place |
| ExecArgs.MovePointers | mm/exec.c:74-79 | the loop ends at the null pointer, has moved every pointer and counted them |
| ExecArgs.Relocate | mm/exec.c:65-84 | the block at the top of the image holds the caller's arguments, and nothing else of the image changes |
| ExecArgs.Exec | mm/exec.c:65-84 | end to end, for every caller whose memory holds the image, every block of at most 1024 bytes and every load that spares it, following the table at `eax` gives the caller's strings in order, `ecx` is their number, and every other cell of the load is in place |
| ExecArgs.ProgramReads | mm/exec.c:80-84 | reading the k-th pointer as a C string gives the k-th argument |
| MemorySlots.Descriptor.Init | kernel/protect.c:73-81 | every base and 20-bit limit read back from the fields, by `ldt_seg_linear` and by the sum in do_fork; which field holds which bits |
| MemorySlots.AllocFits | mm/main.c:83-97 | for every size and every memory: alloc_mem accepts exactly the sizes that fit if and only if a stated condition on sizes and memories of 2 GB and more holds |
| MemorySlots.HugeSizeAccepted | mm/main.c:87-92 | a size of almost 4 GB that is accepted on a machine of 32 MB |
| MemorySlots.LargeMachineRefuses | mm/main.c:92-95 | a page that is refused on a machine of 2 GB |
| MemorySlots.SizeIsTrueIff | mm/forkexit.c:59-64 | the 32-bit size of a segment is its true size if and only if it is not the flat segment of 4 GB |
| MemorySlots.FlatCallerCopiesNothing | kernel/main.c:98-101 | a fork of a caller with the loader's flat segments is accepted and copies nothing |
| MemorySlots.SlotsDisjoint | kernel/proc.c:90-110 | addresses below 1 MB map into the process's own slot, and distinct processes or addresses never meet |
| MemorySlots.SlotsFollow | mm/main.c:77-94 | the slots follow each other without a gap in the order of the processes, from 10 MB on |
| MemorySlots.InitSlot | mm/forkexit.c:77-79 | a child's segment has the slot's base and exactly its size |
| MemorySlots.ForkSegments | mm/forkexit.c:57-79 | a child's code and data segments agree as do_fork asserts of a caller and cover its slot; the bytes copied are the caller's size, which is its true size exactly unless it is flat |
| MemorySlots.SegmentInsideIff | mm/forkexit.c:73-79 | a child's segment lies in the memory if and only if its whole slot does, whatever alloc_mem was asked for |
| MemorySlots.SegmentMayLeaveMemory | mm/main.c:92-95 | a fork that alloc_mem accepts although the child's segment ends beyond the memory |
| Directory.InsertLookup | fs/open.c:299-341 | after a creation every other name is looked up as before, and the new one is found with its inode number if and only if the entry was not lost |
| Directory.InsertDecides | fs/open.c:299-341 | the new entry goes to the first unused one, else behind the last, and nowhere when the directory fills whole sectors; no other entry changes |
| Directory.FullSectorLosesEntry | fs/open.c:324-337 | the 28th creation after mkfs is not found |
| Directory.RunsKeepOk | fs/open.c:299-341 | over every run of creations the directory stays well formed |
| Directory.LookupsAreStable | fs/misc.c:58-104 | over every run a lookup keeps its result until its name is created |
| Directory.CreatedIsFound | fs/misc.c:58-104 | over every run of creations, every created name whose own entry was not lost is found with its inode number ever after |
| Directory.NamesAreDistinct | fs/open.c:70-77 | a name that was created and found is not created again |
| Directory.ExtraEntryIff | fs/misc.c:87-100 | the search gives the answer of the directory's own entries if and only if it stops there, finds the name before, or the next entry does not carry it or is unused |
| Directory.OkLooksProper | fs/misc.c:87-100 | with nothing beyond the size the answer is always that of the directory's own entries |
| Directory.ExtraEntryMatters | fs/link.c:122-160 | three creations and two deletions after mkfs after which a file is found only in the entry beyond the size |
| DirectoryFile.EntryRoundTrip | include/sys/fs.h:65-69 | an entry of 16 bytes reads back as stored, whatever its unused bytes hold |
| DirectoryFile.EntryLayout | include/sys/fs.h:65-69 | the first four bytes of an entry are the inode number, the name is what follows up to its first 0 |
| DirectoryFile.StoreEntry | fs/open.c:332-337 | storing an entry changes that entry of the directory file and nothing else on disk |
| DirectoryFile.ScanSector | fs/open.c:312-319 | one sector is searched for the first unused entry |
| DirectoryFile.FindPlace | fs/open.c:308-330 | the sector loop finds the place of the first unused entry, else of one more at the end |
| DirectoryFile.WriteEntry | fs/open.c:332-337 | the entry is on disk, unless it lies behind the 512 bytes that are written back |
| DirectoryFile.NewDirectoryEntry | fs/open.c:299-341 | on disk, a creation is the step `Insert` on the entries, and no byte outside the directory file changes |
| DirectoryFile.SearchFile | fs/misc.c:58-104 | the nested loops find the first entry of that name among those examined on disk, or 0 |
| DirectoryFile.CreateThenSearch | fs/misc.c:58-104 | on disk, a creation is found by a search if and only if its entry was not lost |

## Left out

- Boot code, assembly, GDT, IDT and TSS set-up, the interrupt controller and the timer.
- `kernel/hd.c`: the disk is an array of bytes behind `rw_sector`; the 8-bit sector count of the drive is below that.
- Console, keyboard and TTY, including the suspended reads of a terminal.
- `printf`, `untar`, the shell, the thin message wrappers of `lib/`, and ELF parsing: the load of a program is an arbitrary change of memory outside the caller's argument block.
- Freedom from deadlock between the tasks: the kernel stops on a cycle of sends, and only that is modelled.
- Messages to ANY or INTERRUPT, which index outside the process table, null message pointers and an invalid function number.
- Message buffers are private to a process; that tasks share one flat address space, where two buffers could overlap, is not modelled.
- ProcTable.Kernel.InformInt: the source writes through the untranslated pointer of its process, which is that process's own buffer for tasks only, the processes it is called for; the model writes the process's own buffer.
- The message protocol has no fork and no exit among its steps: a fork copies a record while its owner is blocked, and that the copied queue is empty is assumed by the source.
- Interrupts nested in a system call of the message protocol.
- `ticks` and `priority` are kept apart from the fields of the message protocol; every change of who is runnable is a step of the scheduler.
- Scheduler.RunnableIsSelected: no forks, which copy ticks.
- More than one superblock or device.
- The inode map of `RefCounts.dfy` is a set of numbers, and the number a creation takes from it is a parameter; `InodeMap.dfy` is the map on disk, of one sector as mkfs makes it.
- The superblock, the inode array and the root directory that mkfs writes, besides the two maps.
- SectorRuns.RunsKeepInv: creations with no whole free block left are not steps; `SectorRuns.CreateIsRunIff` says what such a creation gets.
- FileIo.DoWrite: writes that overrun `fsbuf`, and transfers whose chunks end behind the disk, are excluded by `CanWrite`; the size it changes is synced by `InodeCache.Cache.Store`.
- FileIo.DoRead: transfers whose chunks end behind the disk, and positions and sizes beyond the capacity, which only writes past it produce, are excluded.
- Negative byte counts, character devices, the checks of descriptor numbers and of the open mode.
- FileTables.Tables.DoOpen: starts once the path has been looked up; the assertions on the open flags and on the file's mode are not modelled.
- FileTables.Tables.DoUnlink: is the part of `do_unlink` that concerns the inode and its counts; the release of the number and of the sectors on disk are `InodeMap.FreeImapBit` and `SectorRuns.DeleteExtent`, and the order of the three is not modelled.
- Directory shrinking in `do_unlink` and the removal of the entry, beyond the function `Directory.Remove`: its loop is not modelled, and no run contains deletions of entries.
- `strip_path`: names have been extracted, and have 1 to 11 characters; a longer name overflows the entry.
- The exit of INIT, `free_mem`, and the copying of the parent's registers at a fork.
- ExecArgs.Exec: argument blocks beyond 1024 bytes overrun the buffers of execv and of do_exec, and loads that overwrite the block change the arguments.
