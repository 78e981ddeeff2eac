# FAT file layer and process table of a teaching kernel

This project models two parts of a small 32-bit teaching operating system
and proves properties of the model in Dafny.

- **The FAT file layer** (`OS/src/fat.c`). It works on a 1.44 MB floppy
  with 512-byte sectors. Its pieces are:
  - two in-memory copies of a 16-bit allocation table (`fat0`, `fat1`,
    2304 entries each; 0 marks a free cluster, 0xFFFF ends a chain);
  - the root directory region, which holds 32-byte records;
  - file handles that stage a file's bytes in a memory buffer.

  The model covers these operations:
  - `init_fs` (table and directory loading, and renaming the directory's
    record to "ROOT");
  - `openFile` and `closeFile`, which walk the chain and move sectors;
    `closeFile` grows the chain at its tail;
  - `createFile` and `deleteFile`;
  - `readByte` and `writeByte`;
  - `findFile`.

  Modules:
  - `FatLayout`: constants and the record layout.
  - `FatChain`: what a cluster chain is.
  - `FatDirectory`: the directory scans.
  - `Fat`: the classes that hold the state.
- **The process table** (`OS/src/multitasking.c`). It has six
  process-control-block slots, the count of slots handed out
  (`process_index`) and the `prev` / `running` / `next` / `kernel`
  pointers. The model covers `createproc`, the bookkeeping of
  `startkernel`, the round-robin `schedule`, `yield`, `exit` and the
  bookkeeping tail of `switchcontext`. The `Multitasking` module holds
  them.

The floppy driver is represented by the log of transfers it is asked to do
(`Fat.Transfer`). `findFreeCluster` is not among the source files shown. It
is an abstract method that answers 0xFFFF or some free cluster numbered 2 or
above.

Behaviour of the code that the model keeps as written:
- The null checks in `closeFile`, `openFile`, `createFile` and `deleteFile`
  join their tests with `||`. They therefore pass for every non-null
  handle, and `closeFile` never looks at `isOpened`.
- `openFile` reads one byte from sector 33 + c for each cluster c.
  `closeFile` writes 512 bytes to sector 33 + c - 2. The two operations do
  not address the same sector for a cluster, so no round trip is claimed.
- `closeFile` does not store the file size, and neither operation touches
  `fat1`.
- `createFile` writes the new record through `parent->entry`, whose
  target the code does not show. The model chooses to make it the parent
  directory's own record, kept apart from the directory region (see
  "Left out"). The operation then closes the file through the file's own
  record.
- `schedule` counts every slot of the array, handed out or not. The array
  is zero-initialised, and 0 is both USER and READY, so each unused slot
  counts as a ready user process (`Multitasking.UnusedSlotsCount`). The
  cyclic search, by contrast, only visits slots already handed out.

Further facts about the code that the model keeps:
- `deleteFile` clears only `fat0`; nothing writes `fat1`;
- `closeFile` does not store the size;
- `openFile` reads sector 33 + c while `closeFile` writes 33 + c - 2;
- the comment above `createFile` (fat.c:96-105) promises changes to both
  table copies and to the directory record on the disk image; the code
  changes only `fat0` in memory and writes neither a table nor the
  directory back to the disk;
- the code has no consistency check or repair, rename, migration or
  duplicate-name check.

## Model

| member | source | states |
|---|---|---|
| FatLayout.DecodeEncode | OS/src/fat.c:103 | reading back the 32 bytes of a directory record gives the record: name, extension, attribute, the 14 other bytes, the little-endian starting cluster and size |
| FatLayout.EncodeDecode | OS/src/fat.c:103 | every 32-byte image is the encoding of the record read from it |
| FatLayout.FlushSector | OS/src/fat.c:49 | the sector closeFile writes for any cluster from 2 on lies past the root directory, so a flush never overwrites the tables or the directory |
| FatLayout.LoadSector | OS/src/fat.c:83 | the sector openFile reads for any cluster lies past the root directory, and is never the one closeFile writes for that cluster |
| FatLayout.SectorsFor | OS/src/fat.c:45-51 | the number of loop rounds for a size: the least n with 512 n >= size |
| FatChain.EndOnlyAtLast | OS/src/fat.c:81-86 | on a chain, the entry 0xFFFF is read at the last cluster and nowhere else, so the walk stops exactly at the chain's end |
| FatChain.ShiftedEqual | OS/src/fat.c:85 | two positions of a chain that hold the same cluster are followed by the same clusters |
| FatChain.ChainDistinct | OS/src/fat.c:136-144 | no cluster occurs twice on a chain, so the freeing walk never reads an entry it has already cleared |
| FatChain.PrefixAgree | OS/src/fat.c:81-86 | two chains from the same start agree on their common length |
| FatChain.ChainUnique | OS/src/fat.c:81-86 | the chain from a start cluster is determined by the table |
| FatChain.ChainUnaffected | OS/src/fat.c:122 | writing an entry that is not on a chain leaves the chain intact |
| FatChain.FreeNotOnChain | OS/src/fat.c:110-122 | a free cluster is not on any chain, so createFile's new cluster leaves the file's chain intact |
| FatChain.FreedStep | OS/src/fat.c:139-143 | clearing the next cluster's entry extends the freed prefix of the chain by one |
| FatChain.FreedExactly | OS/src/fat.c:136-144 | after the chain is freed, an entry is 0 exactly when it was on the chain or was already free, and every chain sharing no cluster with it is intact |
| FatChain.ExtendedChain | OS/src/fat.c:60-61 | linking a free cluster after the last one and marking it 0xFFFF gives the chain with exactly that cluster appended |
| FatChain.GrewByOne | OS/src/fat.c:53-61 | one more such link keeps the chain an extension of the original chain by clusters that were free, with every other entry unchanged |
| FatChain.OnlyTailChanged | OS/src/fat.c:53-61 | when a chain grew, only its old last cluster and the added clusters changed; the links between the old clusters are the same |
| FatDirectory.FindFromSpec | OS/src/fat.c:193-204 | the scan returns the first record before the first 0 name byte whose name and extension match; it returns nothing exactly when no such record matches |
| FatDirectory.FindFile | OS/src/fat.c:189-206 | findFile finds a record if and only if one before the first 0 name byte matches; it returns the first match, and the directory is a value it cannot change |
| FatDirectory.TombstoneBytes | OS/src/fat.c:154 | deleting a record changes its first byte to 0 and no other byte, and makes the record end every scan |
| FatDirectory.TombstoneHidesRest | OS/src/fat.c:147-158 | after a record is deleted, a scan still finds a match that lies before it and finds nothing from it on |
| FatDirectory.RemovedHides | OS/src/fat.c:147-158 | after deleteFile, the deleted name is no longer found; any other name is found only if it lies before the deleted record |
| FatDirectory.CreatedEntryBytes | OS/src/fat.c:116-121 | the record createFile writes holds the name, the extension, 15 zero bytes, the new cluster, and a size of 0 |
| Fat.Loads | OS/src/fat.c:81-86 | openFile's log for a chain holds as many reads as the chain has clusters (read k: cluster k into buffer offset 512 k) |
| Fat.Flushes | OS/src/fat.c:46-51 | closeFile's log for the clusters flushed holds one write per cluster (write k: buffer bytes 512 k to 512 k + 512 to that cluster's sector) |
| Fat.FlushesAppend | OS/src/fat.c:49 | one more loop round appends exactly one write to the log |
| Fat.FileHandle.ReadByte | OS/src/fat.c:168-171 | the result is the byte staged at the index of the buffer's contents; together with WriteByte, reading an index back gives the byte last written there |
| Fat.FileHandle.WriteByte | OS/src/fat.c:176-187 | on a handle that is not open, -1 and nothing changes; otherwise the byte is stored at the index, readByte returns it, and the size grows by exactly 1 (mod 2^32), also when a byte is overwritten |
| Fat.FileSystem.InitFs | OS/src/fat.c:15-36 | the two tables come from sectors 1 and 10 (9 sectors each) and the directory from sector 19 (14 sectors); the directory's record is renamed "ROOT" in its first four bytes |
| Fat.FileSystem.FindFreeCluster | OS/src/fat.c:110 | the answer is 0xFFFF or a free cluster of fat0 |
| Fat.FileSystem.GrowChain | OS/src/fat.c:53-61 | with no free cluster nothing changes; otherwise the chain grows by exactly the cluster found, which is linked after the tail and marked 0xFFFF |
| Fat.FileSystem.FlushCluster | OS/src/fat.c:49 | one write appends the next 512 buffer bytes to the log for the cluster at hand |
| Fat.FileSystem.OpenFile | OS/src/fat.c:74-94 | the reads logged are exactly one per chain cluster, in chain order; the handle is open and the result is 0 |
| Fat.FileSystem.CloseFile | OS/src/fat.c:38-72 | the chain only grows, by clusters that were free, and no other entry changes; when the loop finishes the log gains exactly ceil(size / 512) writes, one per cluster in chain order, and the handle is closed; for size 0 the table is not read at all, so any starting cluster is accepted, nothing but the open flag changes, and the handle is closed; when no cluster is free the chain stays too short, every cluster of it was written, and the open flag is kept |
| Fat.FileSystem.CreateFile | OS/src/fat.c:106-130 | with no free cluster, -1 and nothing changes; otherwise 0, the free cluster now reads 0xFFFF as a one-cluster chain, the parent's record holds the file's name and extension, that cluster, size 0 and zero bytes elsewhere, and the file is closed as closeFile states, for an empty file with any starting cluster too |
| Fat.FileSystem.DeleteFile | OS/src/fat.c:132-163 | fat0 becomes the table with exactly the file's chain freed, and the directory loses exactly the first matching record before the first unused one |
| Fat.FileSystem.FreeChain | OS/src/fat.c:136-144 | the walk reads each link before clearing it and frees exactly the chain's clusters |
| Fat.RemoveEntry | OS/src/fat.c:146-158 | the first record before the first unused one whose name and extension match gets a 0 first byte; nothing else changes, and nothing at all when none matches |
| Multitasking.ReadyCount | OS/src/multitasking.c:21-30 | the count of USER and READY slots never exceeds the number of slots |
| Multitasking.ReadyCountPositive | OS/src/multitasking.c:21-33 | the count is positive exactly when some slot is a ready user process |
| Multitasking.UnusedSlotsCount | OS/src/multitasking.c:6 | the zero-initialised slots not yet handed out each add one to the count, because 0 is both USER and READY |
| Multitasking.ReadyCountUpdate | OS/src/multitasking.c:89-90 | overwriting one slot changes the count by what the old and new values contribute (used by CreateProc, which fills a slot that already counted) |
| Multitasking.CyclicPick | OS/src/multitasking.c:40-58 | the search returns the first of the MaxProcs steps whose slot is a ready user process, and returns nothing when no step's slot is one |
| Multitasking.CyclicPickComplete | OS/src/multitasking.c:40-58 | MaxProcs steps over at most MaxProcs handed-out slots visit every one of them, so the search fails only when none is a ready user process |
| Multitasking.StartOf | OS/src/multitasking.c:38 | the search starts at one past the previous process's pid, wrapped over the slots handed out, or at 0 |
| Multitasking.SchedulePicksCreated | OS/src/multitasking.c:33-58 | if some handed-out slot is a ready user process, next becomes a ready user slot, the first one in cyclic order from the start; if none is, next does not change |
| Multitasking.ProcessTable.constructor | OS/src/multitasking.c:6-14 | at boot no slot is handed out and every pointer is null, yet the count is already 6 |
| Multitasking.ProcessTable.CountReady | OS/src/multitasking.c:21-30 | the first loop returns the count over all six slots |
| Multitasking.ProcessTable.PickNext | OS/src/multitasking.c:40-58 | the second loop returns the step the cyclic search selects |
| Multitasking.ProcessTable.Schedule | OS/src/multitasking.c:19-61 | returns the count; next becomes the slot the cyclic search selects when the count is positive and the search finds one; nothing else changes |
| Multitasking.ProcessTable.CreateProc | OS/src/multitasking.c:68-98 | with six slots handed out, -1 and nothing changes; otherwise the next slot becomes a ready user process with its own index as pid, eip = func and esp = ebp = stack; next points at it, the slot count grows by 1, and every other slot is unchanged; in both cases schedule's ready count stays the same, since the slot filled was an unused one that counted already |
| Multitasking.ProcessTable.StartKernel | OS/src/multitasking.c:105-125 | with the table full, -1 and nothing changes; otherwise the next slot becomes a running kernel process with its own index as pid, and kernel and running point at it |
| Multitasking.ProcessTable.SwitchContext | OS/src/multitasking.c:205-218 | the running process keeps its resume address and stack pointers; prev takes running, running takes next, and the new running process is RUNNING |
| Multitasking.ProcessTable.Exit | OS/src/multitasking.c:134-145 | the running process is TERMINATED; a user process then switches to the kernel, while the kernel returns without a switch |
| Multitasking.ProcessTable.Yield | OS/src/multitasking.c:152-170 | a user process becomes READY and switches to the kernel; the kernel schedules, halts with nothing changed exactly when the count is 0, and otherwise switches to the process scheduled |

## Left out

- `OS/src/io.c` and `OS/src/kernel.c` are not part of this model. They hold screen, keyboard and port I/O, and a demonstration driver.
- `fat.h` is not part of this model. The directory record is taken to be the standard 32-byte FAT record, as the comment at fat.c:103 describes, and the table to be 0x1200 bytes, as the load addresses at fat.c:18-27 imply.
- The floppy driver is not part of this model. Transfers are logged but the bytes they move are not, so `OpenFile` leaves the staging buffer as it was.
- `findFreeCluster` is not part of this model. Its answer is left open, apart from being 0xFFFF or a free cluster numbered 2 or above. Clusters 0 and 1 are excluded because linking to cluster 0 would write the free marker into the chain.
- Memory addresses, `memset`, `memcpy` and `stringcompare` are replaced by arrays, record updates and sequence equality.
- Pointer aliasing between a file's record and the directory is not modelled. A handle holds its own copy of its record.
- The directory scans stop at the end of the 224-record region. The code has no such bound and would read past the region.
- Fat.FileSystem.CloseFile: requires a well-formed, non-empty chain when the size is positive. With the start 0xFFFF, the code would index the table at 0xFFFF, past its end. For size 0 nothing is required of the starting cluster, as in the code. `Fat.FileSystem.CreateFile` requires the same.
- Fat.FileSystem.OpenFile: requires the handle's start to head a well-formed chain. Otherwise the code's walk `while (currentCluster != 0xFFFF)` either never ends, on a cycle, or reads past the 2304-entry table, on a link to a free or out-of-range cluster (for example start 0 with fat0[0] = 0xFFF0).
- Fat.FileSystem.DeleteFile: requires the handle's start to head a well-formed chain. Otherwise the freeing walk at fat.c:139-144 either never ends or reads past the table, as for `Fat.FileSystem.OpenFile`.
- Fat.FileSystem.FreeChain: requires the same well-formed chain as `Fat.FileSystem.DeleteFile`, for the same reason.
- Fat.FileSystem.CloseFile: requires a staging buffer that holds every sector it writes. The code writes whole sectors from memory with no bound.
- Fat.FileSystem.CloseFile: the test at fat.c:56 names `newCuster`. It is read as the cluster just found, `newCluster`.
- Fat.FileSystem.CreateFile: the target of `parent->entry` is not shown by the code. The model keeps the record written there apart from the directory region, so a file made by `CreateFile` is not found by `FindFile` in the model. The changes the comment at fat.c:96-105 promises to `fat1` and to the disk image are not delivered, as in the code.
- Fat.FileHandle.ReadByte: the casts at fat.c:170 and fat.c:183 name `unit8_t`. They are read as `uint8`, and `Fat.FileHandle.WriteByte` stores a `uint8`.
- Fat.FileSystem.DeleteFile: fat.c:136 and fat.c:152 write `file->entry.startingCluster` and `file->entry.filename`, where the other operations use `file->entry->`. Both are read as the same record, the handle's `entry`.
- Fat.FileHandle.WriteByte: on an open handle, requires the index to lie inside the buffer, because the code then writes through a raw pointer with no bound. A closed handle answers -1 for any index, as in the code.
- Fat.FileHandle.ReadByte: requires the index to lie inside the buffer. The code reads through a raw pointer with no bound.
- Fat.FileSystem.InitFs: the table images and the directory image are parameters standing for what the driver delivers.
- Multitasking.ProcessTable.SwitchContext: saving and reloading the general-purpose registers, eflags and cr3, and the computed jump, are not modelled (multitasking.c:180-204, 208-209, 220-245). Of the saved state, only the resume address and the two stack pointers are kept, and they are given as parameters.
- Multitasking.ProcessTable.StartKernel: the call of the kernel function is not modelled. The fields of the local record that the code never sets are a parameter, `junk`.
- Multitasking.ProcessTable.Yield: the screen clearing, the message and the endless loop on an empty schedule are modelled as the result `halted`, with no change. When the kernel yields, the method requires that schedule leaves `next` set. Otherwise the code would switch through a null pointer.
- Multitasking.ProcessTable.Exit: when the running process is a user process, requires `kernel` to be set. Otherwise the code would switch through a null `kernel` pointer. `Multitasking.ProcessTable.Yield` requires the same.
- Multitasking.ProcessTable.Schedule: requires a slot handed out once the count is positive. Otherwise the code divides by zero at multitasking.c:42.
- Multitasking.Proc: pids are integers and addresses are natural numbers. The 8-bit `process_index` never exceeds 6, so it never wraps.
