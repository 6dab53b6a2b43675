# A verified model of a small x86-64 operating system

The repository is a teaching operating system: a boot loader and the tool that builds its disk, a
kernel with four-level paging, preemptive scheduling and a keyboard driver, and a FAT32 file system.
This project models the four parts of it that carry unbounded behaviour and proves what they are for.

**FAT32 driver and file system calls** (`FatTable`, `FatVolume`, `FatTree`, `FatGrowth`, `FatNames`,
`FatDriver`, `DiskBytes`, `DiskFrontEnd`). The disk is a sequence of 512-byte sectors. `FatDriver.Driver` follows
kernel/fat32.c: it reaches the disk through one shared buffer, sector by sector. A volume (`Vol`) is
what a disk means: FAT copy 0 as a function from cluster to next cluster, the clusters, and the sectors
outside both; `FatOnDisk`, `ClusterOnDisk` and `DiskBytes` say in plain sector and byte numbers where each
of them lies. `FsOK` is the invariant of a sound volume: at most one predecessor per cluster, no cycle,
no link into a free cluster, and directories whose live entries lead to the heads of different chains.
The driver records the volume after every single sector write in the ghost set `seen`; `Good()` says
that all of them are crash-safe, that all FAT copies are equal, and that the volume is sound. Every
operation keeps `Good()` and only adds to `seen` (the one exception is a removal that hits a chain in use).
The volumes it adds spare every cluster that is in use and not its own (`Trail`), so that a crash loses no
other file. An operation fails only on a full volume (`Full`); `ok == false` stands for the halt in `fail`. `DiskFrontEnd.FileSystem` follows kernel/disk.c and proves
what two or three calls do together: write then read, write then remove, write then list, make, enter and
leave a directory, list to the end.

**Kernel steps** (`KernelState`, `KernelCode`, `KernelCalls`, `KernelRuns`, `KernelWitness`). One entry into the kernel
is one step, from the saved registers to the return to user mode. `KernelState.Step` is the step as a function;
`KernelCode.Kernel` changes the kernel variables in place as the C code does, and is proved to refine
it. `KernelCalls` says what each interrupt number does; `KernelRuns` proves what holds over all runs, for any number of processes from 4 to 127 and any ring
size from 2 on; `KernelWitness` holds runs from the first state of the system in which something is lost.

**Paging and process loading** (`Paging`, `VirtualMemory`, `UserMemory`, `ProcessLoad`). `Paging.Walk` is the
processor's translation as sections 4.5 and 4.6 of volume 3A of the Intel SDM describe it, and is
written without reference to the kernel. The kernel's own walk, which may allocate tables, is proved
against it.

**Boot image and boot loader** (`BootImage`, `BootLoader`). The layout that mkbootdisk produces, the
loader that reads whole sectors, and the proof that booting the built image puts every segment where
its program header says.

Some results show that the code does less than one might expect. They are stated as such:

- A name of eight characters without extension is stored with whatever follows its NUL as extension
  (`EightCharacters`). `NameRoundTrip` gives the exact condition for a name to survive.
- A directory record keeps 16 bits of the file size. `WriteThenRead` returns the whole file exactly when
  it is shorter than 65536 bytes (`Returned`).
- A written file is not always listed. `WriteThenList` gives the exact condition: a name that starts with
  0xE5 makes its own record look removed, and a blank name hides its record and every later one
  (`UnlistedNames`, `WriteUnnamed`).
- Reading a file that ends with the last sector of its chain appends a cluster to it (`CoveredRead`), and
  so does listing a directory whose records fill its chain, unless the volume is full (`Ends`).
- A record that is already removed can be removed again. If a chain starts at its cluster by then, that chain
  is freed, whoever owns it: the volume stays crash-safe exactly when no cluster continues into the chain and
  nothing reachable from the root leads to it (`FreedCrashSafe`). In `RemoveReused` file B loses its clusters
  to a second removal of file A. If the cluster is free, the driver goes on to cluster 0 and clears entry 0;
  once entry 0 is 0 it never returns (`FreeClusterEnds`, `RemoveTwice`).
- `keyboard_waiting` is never cleared. `KeyboardOrder` says that the characters that `getchar` returns are
  the accepted ones in order exactly when no key comes, after the reader's first block, while it is not
  blocked, and the reader is not started anew before it took its answer; in the run of `StrayKey` two keys
  are accepted and the one `getchar` returns the second, and in that of `RestartedReader` the one accepted
  key is not returned. Because `keyboard_waiting` is kept, a key can also set a stopped process running
  again (`StoppedStays`, `StoppedRunsAgain`).
- `map_page` links the tables it allocates without user permission, so a user page is open to user mode
  only if all its tables were there before. `MapPage` gives the exact condition for the given flags to
  take effect, and `UserFlagLost` a page for which they do not.

Where the code departs from its comments the code is followed: getToDirEl has 16 records per sector where
a comment says 32. `readFileName` looks at the byte before the name when all eight characters are spaces;
the value it finds has no effect, and the model tests the index first. `frames_info` is static in a header,
so the copy that `init_process` increments is not the one `assign_physical_page` uses; the model has the
latter.

## Model

| member | source | states |
|---|---|---|
| `FatTable.ChainUnique` | kernel/fat32.c:87-95 | following `nextCluster` from a cluster gives one chain only |
| `FatTable.ChainDistinct` | kernel/fat32.c:87-95 | no cluster occurs twice in a chain |
| `FatTable.HeadsDisjoint` | kernel/fat32.c:55-95 | chains from different heads share no cluster |
| `FatTable.NoCycle` | kernel/fat32.c:87-95 | in a safe table, following links never returns to the start |
| `FatTable.ChainExists` | kernel/fat32.c:279-289 | in a safe table whose entries are links or end marks, every allocated cluster starts a finite chain, so following and freeing terminate |
| `FatTable.MarkSafe` | kernel/fat32.c:61-63 | marking a free cluster keeps the table safe |
| `FatTable.LinkSafe` | kernel/fat32.c:72-76 | pointing a chain end at the newly marked cluster keeps the table safe |
| `FatTable.FreeSafe` | kernel/fat32.c:283-285 | freeing a cluster that nobody points at keeps the table safe |
| `FatTable.ChainRun` | kernel/fat32.c:279-289 | from the first cluster of a chain, `removeFATChain` visits exactly the chain, although it destroys the links as it goes |
| `FatTable.RunUnique` | kernel/fat32.c:279-289 | what it visits is determined by where it starts |
| `FatTable.FreeClusterEnds` | kernel/fat32.c:283-288 | from a free cluster it ends if and only if it ends from cluster 0; it does if entry 0 is an end mark, and never does if entry 0 is 0 |
| `FatVolume.FatSectorInjective` | kernel/fat32.c:49-53 | different sectors of different FAT copies have different addresses |
| `FatVolume.DataSectorInjective` | kernel/fat32.c:147 | different (cluster, sector) pairs have different addresses |
| `FatVolume.AreasDisjoint` | kernel/fat32.c:39-53 | no sector belongs both to a FAT copy and to a cluster |
| `Bytes.ReadsLittleEndian` | kernel/fat32.c:90 | two, four and eight bytes are read low byte first |
| `Bytes.StoredNumbers` | kernel/fat32.c:62 | the bytes 03 00 00 00 are 3 and FF FF FF 0F are the end mark |
| `FatVolume.FatOnDisk` | kernel/fat32.c:87-95 | entry c lies in every FAT copy at sector fatLBA + i * sectorPerFat + c / 128, bytes 4 * (c % 128) to + 3, low byte first |
| `FatVolume.ClusterOnDisk` | kernel/fat32.c:147 | sector t of cluster c lies at fatLBA + nbFats * sectorPerFat + (c - 2) * sectorPerCluster + t |
| `DiskBytes.ContentOnDisk` | kernel/fat32.c:166-182 | byte i of a file lies in sector i / 512 of its chain, at place i % 512 |
| `DiskBytes.RecordOnDisk` | kernel/fat32.c:139-150 | record i of a directory is bytes 32 * (i % 16) to + 31 of sector i / 16 of its chain |
| `FatVolume.VolDeterminesDisk` | kernel/fat32.c:49-53 | with equal FAT copies the volume determines every sector of the disk: nothing the theorems about volumes say is lost on the disk |
| `FatVolume.WriteFatCopy0` | kernel/fat32.c:49-53 | writing one word into its sector of copy 0 sets that entry and changes nothing else of the volume |
| `FatVolume.WriteOtherCopy` | kernel/fat32.c:49-53 | writing another copy does not change the volume |
| `FatVolume.WriteData` | kernel/fat32.c:259-265 | writing a data sector changes that sector of that cluster only and keeps the FAT copies equal |
| `FatVolume.FlatPut` | kernel/fat32.c:259-265 | in a chain without repetitions, one written sector changes exactly one position of the chain's contents |
| `FatVolume.LogIs` | kernel/fat32.c:189-204 | the log of a directory is what comes before its first zero byte, if only free records follow |
| `FatTree.FormattedFs` | kernel/fat32.c:24-46 | a freshly formatted volume, with any end mark for its root, is sound and its root directory is empty |
| `FatTree.ReachableEntries` | kernel/fat32.c:231-300 | in a crash-safe volume, every live non-dot entry of every directory reachable from the root points at the head of an allocated chain, and such a directory has only free records behind its end |
| `FatTree.MarkFs` | kernel/fat32.c:61-71 | marking a free cluster, with anything in its sectors, keeps the volume sound, every log as it was, and makes the cluster a chain that nothing leads to |
| `FatTree.ExtendFs` | kernel/fat32.c:72-76 | extending any chain with a zeroed cluster keeps the volume sound and every directory log as it was |
| `FatTree.WriteOrphanFs` | kernel/fat32.c:256-272 | writing a sector of a file that is not in a directory yet keeps the volume sound and every log as it was |
| `FatTree.AppendFs` | kernel/fat32.c:205-228 | writing a record over the end marker of a directory appends it to that log, changes no other directory, and keeps the volume sound |
| `FatTree.RemoveFs` | kernel/fat32.c:291-298 | marking any record as removed keeps the volume sound; nothing leads to the chain of a live one any more |
| `FatTree.FreeFs` | kernel/fat32.c:279-289 | freeing the first cluster of a chain that nothing leads to keeps the volume sound; the rest is again such a chain |
| `FatTree.FreedSound` | kernel/fat32.c:279-300 | for a given set of directories: freeing a whole chain keeps the volume sound if and only if no live entry, directory or cluster leads to it |
| `FatTree.FreedCrashSafe` | kernel/fat32.c:279-300 | freeing a whole chain leaves a crash-safe volume if and only if no cluster continues into it and it is neither the root nor the target of a live entry of a directory reachable from the root |
| `FatGrowth.GrownContent` | kernel/fat32.c:87-95 | a chain extended by `nextCluster` holds its old bytes followed by zeros |
| `FatGrowth.CoveredRead` | kernel/fat32.c:166-182 | reading from a chain that holds the file gives its first bytes as they were, and appends one zeroed cluster exactly when the last sector read is the last of the chain |
| `FatGrowth.AppendedOther` | kernel/fat32.c:184-229 | appending a record to one directory leaves the chain and the records of every other head as they were |
| `FatGrowth.OthersKept` | kernel/fat32.c:231-277 | in every volume that a write to one directory leaves on the disk on the way, every other file and directory has its chain and its bytes |
| `FatGrowth.BuiltCount` | kernel/fat32.c:250-272 | a file takes exactly as many free clusters as its chain has |
| `FatNames.ReadFileName` | kernel/fat32.c:97-120 | writes the decoded name and a NUL within 13 bytes |
| `FatNames.WriteFileName` | kernel/fat32.c:122-137 | writes the 11 encoded bytes and nothing behind them |
| `FatNames.NameRoundTrip` | kernel/fat32.c:97-137 | reading gives back the written name if and only if the name is storable: no trailing space in the base, and either at most seven characters without extension, or an extension of at most three characters that does not start with a space, or eight characters whose NUL is followed by a space |
| `FatNames.NamesInjective` | kernel/fat32.c:97-137 | different storable names have different encodings |
| `FatNames.EightCharacters` | kernel/fat32.c:127-136 | any eight characters without extension, with zeros behind the NUL, come back with a "." appended |
| `FatNames.GivenBackEmpty` | kernel/fat32.c:97-137 | the name read back is empty if and only if the base is blank and there is no extension |
| `FatNames.EncodedBytes` | kernel/fat32.c:122-137 | each of the 11 stored bytes |
| `FatNames.StoredNames` | kernel/fat32.c:97-137 | "README.TXT" is stored as "README  TXT" and reads back |
| `FatDriver.Driver.UpdateEveryFat` | kernel/fat32.c:49-53 | sets one entry in every copy, copy 0 first, and keeps all copies equal; the four bytes of the entry, low byte first, in each copy; the one new volume is the only one ever on the disk |
| `FatDriver.Driver.AllocateFreeCluster` | kernel/fat32.c:55-85 | takes the first free cluster, marks it with the bytes FF FF FF 0F, zeroes it and links it; every single write is crash-safe; fails only if no cluster is free, and then writes nothing |
| `FatDriver.Driver.NextCluster` | kernel/fat32.c:87-95 | the number whose four bytes, low byte first, lie at the cluster's entry, if it is below 0x0FFFFFF8; from there on the chain is extended by one zeroed cluster |
| `FatDriver.Driver.GetToDirEl` | kernel/fat32.c:139-150 | finds the sector of record `index` of the chain and leaves the record at its place in the buffer; extends the chain only as far as the index needs |
| `FatDriver.Driver.GetMetadataFileFromDirectory` | kernel/fat32.c:152-164 | returns what record `index` says: attribute, size and cluster from their bytes, with cluster 2 for a cluster field of zero |
| `FatDriver.MetaBytes` | kernel/fat32.c:152-164 | every field of a record byte by byte, with cluster 2 for a cluster field of zero |
| `FatDriver.Driver.ReadFile` | kernel/fat32.c:166-182 | copies the first bytes of the concatenated clusters and nothing behind them; the chain grows to one cluster more than the full ones, by zeroed clusters; every directory reads as before |
| `FatDriver.Driver.FindSlot` | kernel/fat32.c:185-204 | stops at the first record with a zero first byte, across the whole chain, which it extends by one cluster if it is full |
| `FatDriver.Driver.StoreEntry` | kernel/fat32.c:205-227 | stores the entry in its 32 bytes of the buffer, with 16 bits of the size, and keeps every byte it does not name |
| `FatGrowth.HeldBytes` | kernel/fat32.c:205-227 | each byte of the stored record: name, attribute, the halves of the cluster at 20 and 26, two bytes of the size at 28 |
| `FatDriver.Driver.AddFileToDirectory` | kernel/fat32.c:184-229 | appends exactly one record to the log of the directory, with the old bytes of the slot where the entry has none; keeps the earlier records and the free tail; extends the chain by one cluster only if it was full; fails, and changes nothing, if and only if directory and volume are both full; crash-safe and sparing every other cluster after every write |
| `FatDriver.Driver.Mkdir` | kernel/fat32.c:231-248 | succeeds if and only if there is a free cluster, and one more if the parent is full; the new directory holds exactly two records and then the end marker, which read as "." leading to itself and ".." leading to its parent; the parent's log gains one record; on failure too every cluster in use is as it was; crash-safe after every write |
| `FatDriver.Driver.WriteContents` | kernel/fat32.c:252-272 | succeeds if and only if there are 1 + sectors / sectorPerCluster free clusters; builds the file on a chain of that many, the lowest free one first; on failure too every cluster in use is as it was |
| `FatDriver.Driver.WriteFile` | kernel/fat32.c:250-277 | succeeds if and only if there are 1 + sectors / sectorPerCluster free clusters, and one more if the directory is full; the file's bytes lie on a new chain of that many clusters and the directory gains its record; on failure every cluster in use is as it was; crash-safe after every write |
| `FatDriver.Driver.RemoveFATChain` | kernel/fat32.c:279-289 | whenever it ends inside the table: clears exactly the entries it visits, in every copy, one after the other; on a chain these are its members; crash-safe after every write if nothing leads to the chain |
| `FatDriver.Driver.RemoveEntryFromDirectory` | kernel/fat32.c:291-300 | for any record in the chain of the directory: marks it and clears what `removeFATChain` visits from its cluster on. A live record, or one whose chain nothing leads to, is removed safely, crash-safe after every write; one that is not live leaves a crash-safe volume if and only if no cluster and nothing reachable leads to its chain; one whose cluster is free costs entry 0 |
| `DiskFrontEnd.ListingExact` | kernel/disk.c:188-203 | repeated calls list exactly the indices of the records that are not removed and come before the first empty name, once each and in order |
| `DiskFrontEnd.RemovedName` | kernel/fat32.c:13-18 | looking at the first byte of the decoded name tells removed records from the others |
| `DiskFrontEnd.ListedName` | kernel/fat32.c:274-276 | a file or directory is listed under the name it was made with if and only if that name is storable |
| `DiskFrontEnd.FileSystem.Lookup` | kernel/fat32.c:152-164 | reading a record inside the chain changes nothing on the disk; reading just past its end appends exactly one zeroed cluster, or fails and changes nothing on a full volume; in no case does anything but the chain of the directory grow; records behind the log have no name |
| `DiskFrontEnd.FileSystem.ListFiles` | kernel/disk.c:188-203 | returns the next record that is not removed, with its index and name, or -1 and starts over; the disk changes, by exactly one zeroed cluster, if and only if the scan runs through a directory that fills its chain and the volume is not full |
| `DiskFrontEnd.FileSystem.ListAll` | kernel/disk.c:186-203 | calls from position 0 until -1 give the whole listing, names included; the disk changes under the same exact condition |
| `DiskFrontEnd.FileSystem.ChangeDirectory` | kernel/disk.c:212-217 | for any index: the current cluster is the one in the record's field, or 2 if the four bytes of the field are zero, and the listing starts over; the volume is unchanged for a record of the log |
| `DiskFrontEnd.FileSystem.MakeDirectory` | kernel/disk.c:204-206 | one free cluster becomes a directory whose two records read as "." and ".." and lead to it and to its parent, the current log gains its record, and the three appends are all that changes; the exact condition for success; on failure every cluster in use is as it was |
| `DiskFrontEnd.FileSystem.ReadFile` | kernel/disk.c:219-223 | for any record of the log, removed and dot records included: the first bytes of its chain as they were; a covered read extends the chain exactly when it uses the chain's last sector; every directory reads as before |
| `DiskFrontEnd.FileSystem.WriteFile` | kernel/disk.c:225-227 | succeeds if and only if the file fits; then its bytes lie on the disk along new clusters and its record at the end of the current log; on failure every cluster in use is as it was; no write on the way touches another file |
| `DiskFrontEnd.FileSystem.RemoveDirectory` | kernel/disk.c:208-210 | as `RemoveEntryFromDirectory`, for the current directory and its log |
| `DiskFrontEnd.FileSystem.WriteThenRead` | kernel/disk.c:219-227 | for every name and content: if the file fits, the read cannot fail, returns the bytes written (all of them if and only if there are fewer than 65536), and leaves the disk as the write left it |
| `DiskFrontEnd.FileSystem.ReadBack` | kernel/fat32.c:166-182 | reading a file whose chain has a cluster to spare leaves every sector of the disk as it was |
| `DiskFrontEnd.FileSystem.WriteThenRemove` | kernel/fat32.c:250-300 | for every name and content: every FAT entry is what it was, except that a directory that was full, and no other, has one free cluster appended; every cluster in use but the one that got the record holds what it held; the log gained one removed record |
| `DiskFrontEnd.FileSystem.RemoveTwice` | kernel/disk.c:208-210 | write, remove, remove again: entry 0 of the FAT is 0, and a third removal of that record would never end |
| `DiskFrontEnd.FileSystem.RemoveReused` | kernel/disk.c:208-210 | write A, remove A, write B, remove A's record again: the cluster of B's live record is free, and in the root directory the volume is no longer crash-safe |
| `DiskFrontEnd.FileSystem.WriteThenList` | kernel/disk.c:188-227 | a written file is in the listing that follows if and only if its name does not start with 0xE5 and is not blank and no earlier record has an empty name; in every outcome all clusters in use outside the directory are as they were |
| `DiskFrontEnd.FileSystem.WriteUnnamed` | kernel/disk.c:188-227 | after a file with an empty name, neither it nor the next file written is listed, whatever its name |
| `DiskFrontEnd.UnlistedNames` | kernel/fat32.c:6-18 | one name for each way in which a new file stays unlisted |
| `DiskFrontEnd.HiddenBehind` | kernel/disk.c:190-195 | no record from one with an empty name on is ever listed |
| `DiskFrontEnd.FileSystem.MakeEnterLeave` | kernel/fat32.c:231-248 | entering the new directory, listing it, which gives "." and "..", and entering the one listed as ".." leads back, also when the parent's chain had to grow |
| `DiskFrontEnd.FileSystem.EnterLeaveRoot` | kernel/fat32.c:160-162 | entering a directory of the root and then its record 1, if that has a cluster field of zero, leads back to the root |
| `KernelCode.Kernel.KbBufferPut` | kernel/shell.c:12-18 | appends to the ring unless it is full |
| `KernelCode.Kernel.KeyInput` | kernel/shell.c:26-43 | the character of a scan code, if it has one, joins the queue; shift count and extended flag follow |
| `KernelCode.Kernel.KeyboardHandler` | kernel/shell.c:20-52 | the oldest character goes to the process in `keyboard_waiting`, which becomes runnable, and another process may be chosen |
| `KernelCode.Kernel.SysGetchar` | kernel/interrupt_handlers.c:105-117 | takes the oldest character, or blocks the caller and registers it |
| `KernelCode.Kernel.SysStart` | kernel/process.c:133-137 | starts process 2 or 3 at 0x100000 + 0x40000 * id, with the stack pointer 8 below the end of its memory, if it is free, else halts |
| `KernelCode.Kernel.SysStop` | kernel/process.c:140-144 | frees process 2 or 3 if it is runnable, else halts |
| `KernelCode.Kernel.DoSchedule` | kernel/process.c:117-130 | refines the choice of `Pick` |
| `KernelCode.Kernel.Exception` | kernel/interrupt_handlers.c:156-227 | one entry into the kernel refines one step of the state machine, halts included |
| `KernelCalls.DecidesExactly` | kernel/interrupt_handlers.c:221-226 | the scheduler is asked if and only if the interrupt is the timer (32) or yield (0x88), a getchar that blocks, a process stopping itself, or a key that is delivered; otherwise the caller goes on |
| `KernelCalls.TickSwitches` | kernel/interrupt_handlers.c:146-154 | on the timer and on yield another process is resumed whenever one other than the idle one and the caller can run, the one whose turn comes first |
| `KernelCalls.HaltsExactly` | kernel/process.c:133-144 | exactly which interrupts halt the machine |
| `KernelCalls.StartCall` | kernel/process.c:133-137 | `start` makes process 2 or 3 runnable at its entry point with a full stack and changes nobody else |
| `KernelCalls.StopCall` | kernel/process.c:140-144 | `stop` frees that process and changes no other state |
| `KernelCalls.ListFilesCall` | kernel/interrupt_handlers.c:119-122 | rax of the caller is the listed index, or all ones for -1 |
| `KernelCalls.OtherCalls` | kernel/interrupt_handlers.c:156-227 | every other call changes nothing but the saved registers of the caller, which goes on |
| `KernelCalls.KeyTable` | kernel/shell.c:26-40 | what each scan code puts into the ring, the arrow keys included, and that a ring that is not full takes it |
| `KernelCalls.KeyFlags` | kernel/shell.c:26-43 | the shift count and the 0xE0 flag after a key |
| `KernelCalls.CharInRax` | kernel/shell.c:47 | a character from 0x80 on is sign-extended into rax |
| `KernelRuns.PickNearest` | kernel/process.c:117-130 | the choice is the runnable process whose turn comes first |
| `KernelRuns.ScheduleInv` | kernel/process.c:117-130 | after a decision the resumed process is runnable, and it is the idle process only if no other one is |
| `KernelRuns.InitialOK` | kernel/process.c:91-104 | the first state of the system satisfies the invariants of the scheduler and of the keyboard |
| `KernelCalls.FirstState` | kernel/process.c:91-104 | the first state in plain numbers: who can run, entry points and stack pointers |
| `KernelRuns.RunInv` | kernel/interrupt_handlers.c:156-227 | at every return to user mode of every run: `reschedule` is 0, the resumed process is runnable, and the idle process runs only if no other can |
| `KernelRuns.Fairness` | kernel/process.c:117-130 | a process that stays runnable is resumed within n - 1 scheduling decisions |
| `KernelCalls.TickFairness` | kernel/interrupt_handlers.c:146-154 | within n - 1 timer or yield interrupts every process that stays runnable is resumed |
| `KernelRuns.RunKeyboard` | kernel/interrupt_handlers.c:105-117 | in every state of every run with one reader: a blocked process is the reader and is in `keyboard_waiting`, and from its first block on the ring is empty |
| `KernelRuns.KeyboardOrder` | kernel/shell.c:12-52 | the rax values with which the reader is resumed from its getchar calls, followed by the queued characters, are the accepted characters in order, if and only if no key came after the first block while the reader was not blocked and the reader was not started anew with an answer it had not taken |
| `KernelRuns.StepReader` | kernel/interrupt_handlers.c:105-117 | what one step does to the reader's state and rax and to the ring, for each kind of event |
| `KernelWitness.StrayKey` | kernel/shell.c:46-51 | a run from the first state in which "a" and "b" are accepted and the one getchar is resumed with "b" |
| `KernelWitness.RestartedReader` | kernel/process.c:133-144 | a run from the first state in which "a" is accepted for a reader that is stopped and started anew before it is resumed, and no getchar returns it |
| `KernelRuns.StepRegs` | kernel/interrupt_handlers.c:156-227 | one step changes no saved register of a process but rax, and rax only for its own getchar or list_files or for a key delivered to it |
| `KernelRuns.RegisterIsolation` | kernel/interrupt_handlers.c:156-227 | the same from a process's entry into the kernel to its next resume, over any run in which it is not started anew |
| `KernelRuns.StoppedStays` | kernel/process.c:140-144 | in every run a stopped process stays stopped if and only if it is not started and no key comes for it |
| `KernelWitness.StoppedRunsAgain` | kernel/shell.c:46-51 | a run from the first state in which a process that was stopped, and not started again, is resumed on a key |
| `Paging.IndexOfAddr` | kernel/virtual_memory.c:116-119 | the four index helpers are the four digits of the page number |
| `Paging.IndexInjective` | kernel/virtual_memory.c:116-119 | the four indices determine the page |
| `Paging.EntryLayout` | kernel/virtual_memory.c:127-143 | bits 0, 1 and 2 of an entry are present, writable and user, and the address begins at bit 12 |
| `Paging.StoredEntry` | kernel/virtual_memory.c:189 | the stored entry is the frame address plus the flags |
| `Paging.VisitUnique` | kernel/virtual_memory.c:121-184 | walks that meet in a table took the same indices to get there |
| `Paging.LinkWalk` | kernel/virtual_memory.c:129-140 | linking a zeroed table where there was none changes no translation |
| `Paging.LinkTree` | kernel/virtual_memory.c:129-140 | the tables remain a tree |
| `Paging.SetEntryHere` | kernel/virtual_memory.c:186-190 | the page gets the new last entry, under the rights of the levels above |
| `Paging.SetEntryOther` | kernel/virtual_memory.c:186-190 | every other page translates as before |
| `VirtualMemory.PageTables.NextTable` | kernel/virtual_memory.c:127-144 | one level of the walk: the next table, allocated, zeroed and linked without user permission if missing |
| `VirtualMemory.PageTables.GetPage` | kernel/virtual_memory.c:121-184 | finds the table with the entry for an address if and only if the allocator has as many tables as are missing; no translation changes, also when it runs out part-way; the rights above the entry are those of the old path, without user permission if a table was missing |
| `VirtualMemory.PageTables.MapPage` | kernel/virtual_memory.c:186-190 | with any allocator of unused page-aligned tables: succeeds if and only if it has as many tables as are missing; then the page translates to the frame, with the given flags if and only if the tables that were there grant them and, for user permission, none was missing; every other page as before |
| `VirtualMemory.UserFlagLost` | kernel/virtual_memory.c:171-177 | the kernel's own table and the first page above memory: mapping succeeds, but not for user mode |
| `VirtualMemory.PageTables.Init` | kernel/virtual_memory.c:200-216 | every page below the top of memory translates to itself, writable but for page 0, closed to user mode; no other page is mapped |
| `ProcessLoad.Machine.InitFraming` | kernel/virtual_memory.c:98-112 | owner and count of every frame |
| `ProcessLoad.Machine.AssignPhysicalPage` | kernel/virtual_memory.c:86-96 | takes and clears a frame if and only if the address is aligned, in memory and unused; else nothing changes |
| `ProcessLoad.Machine.OpenImage` | kernel/process.c:55-63 | the image pages are open to user mode and the first one is in use |
| `ProcessLoad.Machine.OpenStack` | kernel/process.c:71-81 | the stack page is open and zero; the repeated assignment of the first image page does not wipe it |
| `ProcessLoad.Machine.LoadProcess` | kernel/process.c:46-88 | whatever the frames held before: the image at its base, zeros to the end of its last page, a zero stack page, and no other byte changed, in particular none below the processes, where the page tables are; the entry point is 0x100000 + 0x40000 * id; the stack pointer lies 8 below the end of the stack page, all of which is zero and open to user mode |
| `ProcessLoad.OpenedPages` | kernel/process.c:53-63 | a load opens exactly the pages that hold a byte of the image, and the last page of the process |
| `ProcessLoad.FrameOwners` | kernel/virtual_memory.c:98-112 | the owner of every frame by its address |
| `ProcessLoad.BootAndLoad` | kernel/virtual_memory.c:200-218 | after any sequence of loads a page is open to user mode at all four levels if and only if it is an image or stack page of a process loaded; every page still translates to itself and page 0 is not writable |
| `BootImage.KernelInImage` | _build/mkbootdisk.c:122-185 | whole sectors, at least 1024 of them, the signature, the boot code first and the first file from sector 1 on |
| `BootImage.FileAt` | _build/mkbootdisk.c:166-178 | each file lies where the arguments before it end, with zeros up to a whole sector behind it |
| `BootImage.SkipAt` | _build/mkbootdisk.c:152-164 | "@n" brings the image to sector n exactly, or fails if it is past it |
| `BootImage.ImageEnd` | _build/mkbootdisk.c:181-185 | zeros up to 1024 sectors, and exactly when there is no image |
| `BootImage.DiskWrite` | _build/mkbootdisk.c:52-72 | appends all the bytes however few each write takes |
| `BootImage.WriteFile` | _build/mkbootdisk.c:166-178 | appends the file and zeros to the end of its last sector |
| `BootImage.MakeBootDisk` | _build/mkbootdisk.c:122-185 | the loops produce the layout, or nothing for a boot block over 510 bytes or a skip backwards |
| `BootLoader.ReadSeg` | bootloader/boot.c:63-80 | every byte of memory after the call: the sectors that hold the segment, then zeros, and the rest unchanged |
| `BootLoader.HeaderFields` | bootloader/elf.h:9-28 | the magic bytes 7F 45 4C 46 and where the place and the number of program headers are read |
| `BootLoader.SegmentFields` | bootloader/elf.h:31-41 | which bytes of a program header are the offset, the address, the size in the file and the size in memory |
| `BootLoader.SegmentLoaded` | bootloader/boot.c:47-50 | whole sectors read from `p_offset / 512 + 1` put the file bytes at `p_va` when the two agree modulo 512 |
| `BootLoader.Boot` | bootloader/boot.c:36-56 | does not start without the ELF magic; otherwise every segment is at its address with zeros to its memory size, and nothing outside the segments' sectors and the scratch page changed |
| `BootLoader.BuildAndBoot` | bootloader/boot.c:36-80 | the same for the image that the builder makes of any boot block, a bootable kernel and any further files |

## Left out

- ATA port sequences, drive probing and the search for the partition (kernel/disk.c:14-103): the disk is a sequence of sectors and the geometry is given. `readBootSector` only copies fields.
- GDT, TSS, IDT and PIC setup and the assembly stubs: entry and return are an atomic save and restore.
- kernel/io.c: the character of a scan code is part of the event; `fail` and a false `assert` halt.
- userspace/: the user programs. The idle process makes no system calls (userspace/p_idle.c:1-4), which `RunInv` asks of the runs.
- Partition search and multiboot patching (_build/mkbootdisk.c:193-317), the partition limit and I/O errors of `diskwrite`.
- `alloc_frame` and `find_free_frame`: never called in the kernel.
- FAT entries with reserved top bits and cyclic or damaged tables: outside `FsOK`. The driver keeps the top bits clear.
- Volume labels and long-name records: they look like live entries with first cluster 0, which `FsOK` excludes, as it does any live entry that does not lead to a chain of its own.
- FatDriver.Driver.RemoveFATChain: only where it ends inside the table; a run that leaves the table would take other sectors for FAT sectors, and one that does not end has no outcome.
- FatDriver.Driver.RemoveEntryFromDirectory: for a record behind the log it says what is written, not when the volume stays crash-safe; not for an index past the chain of the directory, where the code first extends the chain.
- DiskFrontEnd.FileSystem.RemoveDirectory: as `RemoveEntryFromDirectory`.
- FatTree.RemoveFs: the record lies in the log.
- FatTree.FreedSound: for one set of directories; `FreedCrashSafe` says it for the volume.
- The geometry has a data area for every cluster number the FAT can hold and at most 2^28 sectors, the root directory is a chain like the others, and negative sizes or indices are not modelled.
- FatNames.Encoded: takes the memory from the name on, at least 12 bytes of it, because the code reads there even when the name is shorter.
- DiskFrontEnd.FileSystem.ReadFile: the index lies in the log and a complete chain starts at the record's cluster; following the links of a freed chain is not modelled.
- KernelState.Step: takes what `list_files` returns, and whether a file system call fails, from the event: the two parts are not composed.
- KernelCode.Kernel.Exception: as `KernelState.Step`.
- KernelCode.Kernel.SysStart: sets registers and state; what `load_process` does to memory is in `ProcessLoad`.
- KernelRuns.KeyboardOrder: the reader is not the idle process, which makes no system calls.
- BootLoader.Boot: the loader's own code and stack, the page tables of bootentry.S and the jump to the entry point are not part of the memory model; segments that overlap them are not excluded. Addresses do not wrap, because memory is finite.
- User-mode execution, and interrupts inside the kernel: an entry into the kernel is one atomic step.
- Paging.Walk: links have no page-size bit and no bit above the address, which `TreeOK` asks for and the kernel keeps; execute-disable and protection-key bits of last entries are not part of it.
- ProcessLoad.BootAndLoad: the tables are not bytes of the modelled memory; they lie below the processes, where `LoadProcess` shows that no load writes.
