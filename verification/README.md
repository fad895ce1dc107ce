# gcgos, modelled and verified in Dafny

gcgos is a small AArch64 kernel with an image builder. This project models its file system and `mkfs`, its
page allocator and page tables, `fork` and `exec`, the scheduler and process table, and `printint`, and
proves properties that span their functions. Check everything with `dafny verify dfyconfig.toml`.

How the pieces fit:

- **Shared.** `Options` and `ProcState` hold the two small datatypes that several modules use.
- **Files.** `Bytes`, `Layout` and `Bitmap` are bytes, on-disk structures and bits. `Volume` is the shared
  theory: a disk together with the inodes in force, the sector each block slot owns, and the bytes of each
  file. `Append`, `Mkfs` and the class `Builder` are the image builder. `Balloc`, `Kfs` (inode table),
  `Overwriting`, `WriteI`, `ReadI` (with file descriptors), `Directory`, `PathWalk` (`namei`), `Creation`
  (`ialloc`, `mknod`) and `Names` are the kernel side. `Boot` joins both programs, `Runs` states safety over
  every run, `LostBlocks` what a file loses with its last reference, `InodeLock` the calls of many processes
  around `inode_table_lock`, and `FileSystem` holds the imperative kernel code (classes `Kernel` and `Descriptor`), each
  method proved equal to the function of the same operation, with every buffer given back.
- **Memory.** `Arm` shows that the descriptor macros act on bit fields and `Encoding` that those fields are
  the words of the model; `Kalloc` is the intrusive free list (class `Kmem`); `PageTable` and `Vm` are the
  three-level tree as a refinement of a flat map; `TableCost` counts the tables a mapping needs; `Fork`,
  `Loader` and `ArgStack` are `copyproc` and the two halves of `kexec`; `Spaces` starts at boot, builds the
  table of a new process, frees that of a collected one, and states the invariant over every run.
  `UserMemory` reads pages as bytes and `Exec` is `kexec` in one memory: what the program reads there.
- **Processes.** `Scheduler` interleaves any number of CPUs at the grain of single memory accesses, with the
  spin lock held across the switch. `Processes` is the process table on one CPU (class `ProcTable`).
- **Console.** `PrintInt`.

Where the code falls short of what it is for, the model keeps the code and a lemma says exactly when it
works: `Kalloc.RunKeepsExactly`, `Spaces.RunsFromBootAreReady`, `Vm.WalkAddrOfUnmapped`,
`Loader.SegmentEndsExactly`, `Loader.SegmentPlaceExactly`, `ArgStack.ArgumentsFoundExactly`,
`ReadI.ReadiDeliversExactly`, `Kfs.IputPuts`, `LostBlocks.WriteSurvivesExactly`, `Processes.RunsSafeExactly`,
`Processes.WaitEndsExactly`, `PrintInt.BufferSufficesExactly`, `Names.MknodRoundTrip`; that a sleep on a busy
inode is never left is `InodeLock.SleepIsNeverLeft`. Cases that are reached are shown by
`Kalloc.DoubleFreeHandsOutTwice`, `Spaces.LeakAfterBoot`, `Spaces.BootCollectPanics`,
`LostBlocks.BootLosesBlock`, `Loader.WholePageFaults`, `Processes.BootLosesZombie` and
`ArgStack.EvenCountLosesFirst`.

Conventions. A 64-bit word is three fields (`Kalloc.Word`), justified bit by bit in `Arm`; addresses of pages
are page numbers; the disk is an ideal array of 512-byte sectors. A panic, a sleep on a busy inode and a
failed call are separate results. "In force" means the inode in memory while it is referenced and the one on
disk otherwise: `iupdate` does not write block addresses, so the two may differ, and content claims are about
the inode in force. `FsOk` and `TreeOk` are the invariants of the file system; `Boot.BootTree` and
`Runs.RunKeeps` show that they hold in every state the modelled calls can reach from an image.

## Model

| member | source | states |
|---|---|---|
| Layout.DinodeRoundTrip | include/fs.h:16-24 | an inode stored in its 140 bytes and decoded again is the same inode |
| Layout.PutInodeGets | mkfs/mkfs.c:48-67 | winode changes the inode it names and no other, the three of one sector included |
| Layout.PutHeaderGets | kernel/fs.c:134-147 | iupdate sets every field on disk except the block addresses, and touches no other inode |
| Layout.SuperRoundTrip | mkfs/mkfs.c:170-174 | the size and inode count that the kernel reads are those mkfs wrote |
| Layout.NameRoundTrip | include/fs.h:40-44 | a name of at most 14 bytes stored zero-padded is read back as that name |
| Bitmap.MarkReads | mkfs/mkfs.c:85-88 | setting the bit of a sector sets that bit and no other, over all bitmap sectors |
| Bitmap.UnmarkReads | kernel/fs.c:43-60 | bfree clears the bit of its sector and no other |
| Volume.WriteBlock | kernel/fs.c:272-277 | writing a block of a file changes those bytes of that file and no byte of any other file |
| Append.RoundOnTight | mkfs/mkfs.c:104-141 | a round of iappend fails exactly at the size limit or when the image is full; else it appends its chunk and takes exactly the sectors the new size needs |
| Append.AppendLoopAppends | mkfs/mkfs.c:94-141 | iappend refines sequence append across direct and indirect blocks: other files and metadata unchanged, sectors owned once and below freeblock, zero from freeblock on, tails zero |
| Mkfs.IappendAppends | mkfs/mkfs.c:94-145 | the same on the image with the inode written back: succeeds if and only if the file stays addressable and enough sectors are left |
| Mkfs.AddChunksAppends | mkfs/mkfs.c:203-203 | appending a file in chunks of 512 succeeds and means exactly what appending it at once would |
| Mkfs.AddFileHolds | mkfs/mkfs.c:194-203 | one more file: when it fits, and the image that then holds one more file |
| Mkfs.AddFilesHolds | mkfs/mkfs.c:190-205 | adding files one by one succeeds exactly when all of them fit |
| Mkfs.MakeBuildsImage | mkfs/mkfs.c:146-208 | an image results if and only if everything fits; it holds every file byte for byte under its entry, and its bitmap marks exactly the sectors below freeblock |
| Builder.Builder.IappendFile | mkfs/mkfs.c:94-145 | the imperative loop on the global counters does what the model function says, or exits when it does |
| Builder.Builder.Balloc | mkfs/mkfs.c:80-91 | the bitmap sector with exactly the first `used` bits set |
| Builder.Builder.BuildImage | mkfs/mkfs.c:146-208 | the whole builder run produces the modelled image |
| Balloc.AllocTakesLeast | kernel/fs.c:14-41 | balloc fails exactly when every bit is set; otherwise it returns the least clear sector, sets that bit and changes nothing else |
| Balloc.AllocIncreases | kernel/fs.c:14-41 | while nothing is freed a later call returns a greater sector |
| Balloc.FreeRestores | kernel/fs.c:43-60 | bfree of the sector just returned restores every byte of the disk |
| Kfs.IgetGets | kernel/fs.c:62-109 | iget sleeps if and only if the entry of the inode is busy, panics if and only if the inode has no entry and every entry is referenced; otherwise one more reference to that inode and to no other, all files as before |
| Kfs.IputPuts | kernel/fs.c:169-176 | one reference less; files stay as they are if and only if other references remain or the addresses in memory are those on disk |
| LostBlocks.WriteSurvivesExactly | kernel/fs.c:134-286 | a file whose addresses in memory are those on disk survives a write and its last iput if and only if the write needs no new block |
| LostBlocks.BootLosesBlock | kernel/fs.c:134-286 | the first block written to an empty file of an image is lost with its last reference |
| InodeLock.SleepIsNeverLeft | kernel/fs.c:62-82 | iget or ilock asleep on a busy entry keeps inode_table_lock, so on any number of CPUs and whoever is killed the entry stays busy, the table never changes again and no other call gets the lock |
| InodeLock.StuckForever | kernel/fs.c:62-176 | the invariant behind it, over every run from such a state |
| WriteI.TakeBlockOk | kernel/fs.c:246-250 | a block taken for an empty slot keeps the invariant and changes no byte of any file |
| WriteI.RoundWrites | kernel/fs.c:241-280 | one round of writei overwrites its chunk; it fails exactly when it needs a sector and none is free |
| WriteI.LoopWrites | kernel/fs.c:241-280 | the loop of writei fails exactly when fewer sectors are free than blocks are missing |
| WriteI.WriteOverwrites | kernel/fs.c:228-286 | writei refines byte-range overwrite with extension, returns n, keeps all other files, and succeeds if and only if there are enough free sectors |
| WriteI.WriteKeeps | kernel/fs.c:228-286 | wherever it writes in the direct range, holes included, writei keeps the invariant and every other file |
| ReadI.LoopStores | kernel/fs.c:212-223 | where every byte of a request lands, and that no other byte of memory changes, given the double advance of dst |
| ReadI.ReadiDeliversExactly | kernel/fs.c:198-225 | readi returns the number of bytes that are there, and stores them contiguously for every prior memory if and only if they lie in one block |
| ReadI.ReadBack | kernel/fd.c:55-66 | reading 512 bytes a call from offset 0 yields the whole content and then 0 |
| ReadI.WritesFollow | kernel/fd.c:36-54 | successive fd_write calls overwrite one after the other from the offset on |
| ReadI.WritesReadBack | kernel/fd.c:36-66 | what any successive fd_write calls wrote is read back by fd_read calls |
| Directory.SplitIsParts | kernel/fs.c:304-338 | the walk over a path meets exactly the non-empty parts of the path cut at every slash |
| Directory.MatchesExactly | kernel/fs.c:320-323 | the comparison accepts an entry if and only if its name is the component, and stops at the end of the component |
| Directory.ScanFindsName | kernel/fs.c:313-332 | the scan of the raw blocks finds what the directory's content says |
| Directory.FreeSlotAtEnd | kernel/fs.c:355-367 | entries are dense: the first free one is at the size, and exists if and only if the size is not a multiple of 512 |
| PathWalk.FromResolves | kernel/fs.c:305-339 | the loop of namei from any directory in hand, resources included |
| PathWalk.NameiResolves | kernel/fs.c:294-340 | namei refines path resolution over file contents; one more reference on success, none on failure; it sleeps only on a busy inode of the path and panics only when the table is full |
| Creation.IallocIs | kernel/fs.c:111-132 | ialloc is iget of the first inode of type 0 followed by an update of its type |
| Creation.MknodCreates | kernel/fs.c:342-378 | mknod succeeds if and only if an inode, an entry of the inode table and a directory slot are free, says which is missing, and appends one entry, keeping every other file |
| Creation.CreatedKeepsTree | kernel/fs.c:342-378 | mknod keeps directories, inode table, bitmap and ownership well-formed |
| Creation.NamesAfter | kernel/fs.c:355-376 | after mknod every directory gives every name what it gave before, and the new name the new inode if it was unused |
| Names.WalkAfter | kernel/fs.c:294-378 | every path that resolved before mknod resolves to the same inode after it |
| Names.MknodRoundTrip | kernel/fs.c:294-378 | the path given to mknod resolves to the new inode if and only if its only part is what was stored and the name was unused |
| Names.PlainName | kernel/fs.c:371-371 | for a name without slash that means at most 14 bytes |
| Names.MknodThenNamei | kernel/fs.c:294-378 | in any later state with those files namei finds exactly the new inode, or must sleep or panic for lack of entries |
| Boot.BootTree | mkfs/mkfs.c:146-208 | every image satisfies every invariant the kernel relies on |
| Boot.BootFindsFiles | kernel/fs.c:294-340 | on the booted kernel a name resolves to the inode of the first file of that name given to mkfs, which holds its bytes; other names do not resolve |
| Runs.StepKeeps | kernel/fs.c:169-378 | every call keeps the invariant and moves each count by the references it gives out or takes back |
| Runs.RunKeeps | kernel/fs.c:62-378 | the same over runs: counts balance references given and returned |
| Runs.RunsFromImageAreSafe | kernel/fs.c:14-378 | over every run from an image no sector is owned twice, owned sectors are marked data sectors, balloc hands out only unowned data sectors, one entry per inode, memory and disk agree, counts equal outstanding references |
| FileSystem.Kernel.Getblk | kernel/bio.c:8-23 | the first buffer that is not busy becomes busy |
| FileSystem.Kernel.Bread | kernel/bio.c:26-33 | a free buffer holds the sector |
| FileSystem.Kernel.Bwrite | kernel/bio.c:35-40 | the sector on disk becomes the buffer |
| FileSystem.Kernel.Brelse | kernel/bio.c:42-42 | the busy flags are as before the buffer was taken |
| FileSystem.Kernel.Balloc | kernel/fs.c:14-41 | the scan over bitmap buffers does what Alloc says and gives its buffers back |
| FileSystem.Kernel.Bfree | kernel/fs.c:43-60 | clears the bit on disk and gives its buffers back |
| FileSystem.Kernel.IgetEntry | kernel/fs.c:62-109 | the scan of the inode table with its remembered free entry does what Iget says |
| FileSystem.Kernel.IputEntry | kernel/fs.c:169-176 | count and busy flag of the entry |
| FileSystem.Kernel.Iupdate | kernel/fs.c:134-147 | the header on disk, through a buffer |
| FileSystem.Kernel.IallocEntry | kernel/fs.c:111-132 | the scan of the inode sectors does what Ialloc says when an inode is free |
| FileSystem.Kernel.ReadiInto | kernel/fs.c:198-225 | the loops of readi store in memory exactly what Readi says |
| FileSystem.Kernel.WriteiFrom | kernel/fs.c:228-292 | the loops of writei, balloc included, do what Write says |
| FileSystem.Kernel.MatchName | kernel/fs.c:320-323 | the matching loop: hit if and only if the entry's name is the component |
| FileSystem.Kernel.NameiPath | kernel/fs.c:294-340 | the nested loops of namei do what Namei says, every buffer given back |
| FileSystem.Kernel.MknodIn | kernel/fs.c:342-378 | mknod on buffers does what Mknod says when an inode is free |
| FileSystem.Descriptor.ReadInto | kernel/fd.c:55-66 | the offset moves by what readi returned |
| FileSystem.Descriptor.WriteFrom | kernel/fd.c:36-54 | the offset moves by what writei returned |
| Arm.PackIsBijective | include/arm.h:125-184 | a 64-bit word is exactly one triple of fields |
| Arm.DecodeActsOnFields | include/arm.h:177-184 | PTE2PA, PTE_FLAGS and the valid bits on fields |
| Arm.EncodeActsOnFields | include/arm.h:177-184 | PA2PTE with attribute bits on fields |
| Arm.IndicesAreDigits | include/arm.h:182-184 | PX yields the three 9-bit digits of the page number |
| Encoding.DescriptorsAreWords | include/arm.h:125-184 | on 64-bit words, what walk and mappages write, what PTE2PA reads and the type bits are the words and tests of the model |
| Kalloc.FreerangeBuilds | kernel/kalloc.c:27-38 | the list holds exactly the whole pages of the range, each once |
| Kalloc.FreshPagesClean | kernel/kalloc.c:27-58 | from zeroed RAM every free page reads as an empty table |
| Kalloc.RunKeepsPartition | kernel/kalloc.c:40-58 | every sequence of kalloc and kfree of owned pages keeps free and owned pages a partition |
| Kalloc.FreeKeepsExactly | kernel/kalloc.c:40-58 | one call keeps the partition if and only if it is not a kfree of a page of the range that is not owned (kfree of a page outside panics and changes nothing); a page already free closes the list to a ring |
| Kalloc.RunKeepsExactly | kernel/kalloc.c:40-58 | free and owned pages are a partition after every step of a run if and only if every page that kfree takes is owned at that moment |
| Kalloc.FreerangePartitions | kernel/kalloc.c:27-38 | after freerange the pages of the range are all free, which is where such runs start |
| Kalloc.FreedPageClean | kernel/kalloc.c:40-49 | a freed page reads as an empty table if and only if its words other than the link did |
| Kalloc.DoubleFreeHandsOutTwice | kernel/kalloc.c:40-58 | what then goes wrong first: a page freed twice is handed out twice |
| Kalloc.Kmem.Kfree | kernel/kalloc.c:40-49 | pushes the page, panics outside the range |
| Kalloc.Kmem.Kalloc | kernel/kalloc.c:51-58 | pops the list |
| Kalloc.Kmem.Freerange | kernel/kalloc.c:27-38 | the loop frees exactly the whole pages between its bounds |
| PageTable.GrowPaths | kernel/vm.c:79-83 | a table descriptor for a clean fresh page adds exactly one position to the forest |
| PageTable.LeafSetsOnePage | kernel/vm.c:105-105 | a page descriptor translates its page and no other page of any address space |
| PageTable.WalkReady | kernel/vm.c:68-86 | walk with alloc keeps the tree proper, every translation and every data page, takes one page for each missing table, and fails if and only if fewer are free |
| PageTable.MapStepRefines | kernel/vm.c:103-105 | one round maps its page or stops with every translation as it was, and which of the two it is |
| PageTable.MapLoopRefines | kernel/vm.c:101-110 | mappages refines the flat map on every run, early stops included |
| TableCost.NeedSplits | kernel/vm.c:72-84 | mapping one page leaves exactly the missing tables of the others |
| TableCost.MapLoopCost | kernel/vm.c:101-110 | on unmapped pages mappages runs out of memory if and only if fewer pages are free than tables are missing, and takes exactly those from the list |
| Vm.MapPagesRefines | kernel/vm.c:88-118 | when mappages returns 0, page x of the range translates to pa + x pages, walkaddr agrees, every other page of every space translates as before, no table page is shared |
| Vm.MapPagesSucceeds | kernel/vm.c:88-112 | it succeeds if and only if the range is whole unmapped pages below MAXVA and as many pages are free as tables are missing; on such a range it returns -1 exactly otherwise |
| Vm.WalkAddrOfMapped | kernel/vm.c:113-118 | on mapped pages walkaddr returns the frame the hardware walk uses |
| Vm.WalkAddrOfUnmapped | kernel/vm.c:113-118 | walkaddr returns something if and only if the level-0 table is there, and is right if and only if the page is mapped or that table is missing |
| Vm.WalkAddrLeaksFreePage | kernel/vm.c:79-118 | whenever mappages makes a level-0 table for a page that is not its first, walkaddr returns the first free page for the first one |
| Vm.Walkaddr | kernel/vm.c:113-118 | the imperative walkaddr does what the function says |
| Vm.UvmcreatRoot | kernel/vm.c:120-125 | the root is the page that kalloc returns |
| Vm.UvmcreatReady | kernel/vm.c:120-125 | uvmcreat adds an address space that translates nothing and changes no translation of the others |
| Vm.KinitReady | kernel/kalloc.c:20-38 | freerange on zeroed RAM establishes the invariant of the page tables |
| Vm.Mappages | kernel/vm.c:88-112 | the imperative loop does what the function says |
| Fork.CopyOne | kernel/proc.c:157-167 | one mapped page: a fresh frame with the same words and low ten attribute bits; it fails if and only if fewer pages are free than the copy and its missing tables need |
| Fork.ForkCopies | kernel/proc.c:155-168 | the loop never panics and ends if and only if as many pages are free as there are mapped pages and missing child tables; then below the limit the child maps a page exactly when the parent does, equal contents and low attribute bits, fresh distinct frames, nothing else changed |
| Fork.CopyPages | kernel/proc.c:155-168 | the imperative loop on byte addresses does what the function says |
| Spaces.ProcPagetableMakes | kernel/proc.c:69-81 | proc_pagetable takes exactly four pages, succeeds if and only if they are free, never panics, and maps the trampoline and the trap frame and nothing below |
| Spaces.ForkOfFreshSpace | kernel/proc.c:145-168 | allocproc and the page loop together: fork of the pages succeeds if and only if four pages and those the copy needs are free |
| Spaces.ReleaseReady | kernel/kalloc.c:40-49 | a data page or a root given to kfree, when its words but the link read as no descriptor: the other spaces keep tables and translations |
| Spaces.StepReadyExactly | kernel/kalloc.c:40-49 | a step keeps the invariant of the page tables if and only if it is not a kfree of a page that still reads as a table |
| Spaces.RunsFromBootAreReady | kernel/vm.c:68-125 | from zeroed RAM, after kinit and any sequence of uvmcreat, mappages, kalloc, data writes, the page loop of fork, and kfree of data pages and roots: no table page is shared, and tables, data and clean free pages are disjoint, throughout the run if and only if every freed page reads as an empty table but for the link |
| Spaces.CollectedRootPanics | kernel/proc.c:229-230 | the root that wait frees still holds its tables, so the next proc_pagetable panics with remap |
| Spaces.BootCollectPanics | kernel/proc.c:229-230 | this is reached from boot: one process made, collected, and the next one made |
| Spaces.LeakAfterBoot | kernel/vm.c:113-118 | two calls after boot, walkaddr gives away a free page |
| Loader.SegmentLoaded | kernel/exec.c:35-63 | a segment whose blocks exist and span at most 8 blocks is loaded byte for byte from sector p_offset / 512 on |
| Loader.SegmentPlace | kernel/exec.c:35-65 | its bytes start where the program expects them when p_offset is a multiple of 512 |
| Loader.SegmentEndsExactly | kernel/exec.c:35-63 | a segment is loaded if and only if its blocks can all be had and are at most 8, and ends in the panic if and only if it meets an indirect entry of 0 first; otherwise kexec leaves the page or the disk |
| Loader.WholePageFaults | kernel/exec.c:35-63 | 4096 bytes from a sector boundary make kexec copy a ninth block past the page |
| Loader.SegmentPlaceExactly | kernel/exec.c:35-65 | whatever the first block holds, the bytes start where the program expects them if and only if p_offset is a multiple of 512 or there are none |
| Loader.SegmentMisplaced | kernel/exec.c:35-65 | otherwise a first block with two different bytes is found at the wrong place |
| Loader.LoaderInvertsBuilder | kernel/exec.c:35-63 | for every file given to mkfs, direct or indirect, the loaded page holds the bytes given to mkfs |
| Loader.LoadInto | kernel/exec.c:35-63 | the loops that copy sectors into the page do what the function says |
| ArgStack.CursorsAgreeExactly | kernel/exec.c:79-97 | kernel and user cursor agree at every argument if and only if no length is a multiple of 16 |
| ArgStack.LayoutSoundExactly | kernel/exec.c:79-102 | cursors agree and regions are disjoint if and only if no length is a multiple of 16 and argc is odd |
| ArgStack.StackDecodes | kernel/exec.c:69-112 | then the program finds every argument through argv, argv[argc] is 0, and sp is 16-byte aligned |
| ArgStack.ArgumentsFoundExactly | kernel/exec.c:69-112 | whatever the page held, the program finds its arguments if and only if no length is a multiple of 16 and argc is odd |
| ArgStack.MultipleLosesFirst | kernel/exec.c:84-97 | with a length that is a multiple of 16 the first argument pointer is read from memory that was not written |
| ArgStack.EvenCountLosesFirst | kernel/exec.c:95-102 | with an even argc the null entry overwrites the first argument |
| ArgStack.PushArguments | kernel/exec.c:69-102 | the two-cursor loops build exactly the modelled page |
| UserMemory.WordHoldsBytes | kernel/exec.c:61-64 | eight bytes stored in a word of memory are read back, each one |
| UserMemory.StoredPage | kernel/exec.c:61-64 | a page of bytes stored in a frame is read back |
| Exec.ExecOne | kernel/exec.c:39-65 | one page taken, filled and mapped: it fails if and only if fewer pages are free than itself and the tables it is missing |
| Exec.ExecLoads | kernel/exec.c:31-106 | the page loop of kexec runs out of memory if and only if fewer pages are free than it has pages and missing tables; otherwise every page is seen at its address, in fresh frames, and no other translation and no data page has changed |
| Exec.KexecShowsProgram | kernel/exec.c:28-106 | with proc_pagetable before it: the program reads byte p_offset + x of its file at p_vaddr + x and finds its arguments through its tables, if and only if enough pages are free; every other address space is as before |
| ArgStack.ForkCoversExec | kernel/proc.c:155-155 | fork visits every page kexec mapped exactly when no PT_LOAD address lies beyond the stack page |
| Scheduler.RunKeepsInv | kernel/proc.c:302-343 | lock, current process and saved registers stay consistent in every interleaving |
| Scheduler.NeverCurrentTwice | kernel/spinlock.c:5-23 | no two CPUs have the same current process, whatever anybody writes to p->state without the lock |
| Scheduler.ResumesWhereItLeft | kernel/proc.c:302-343 | a process resumes with exactly the registers it had when it last called sched |
| Processes.RunsSafeExactly | kernel/proc.c:206-293 | over every run no zombie is lost and live pids are distinct throughout, if and only if no exit strands a child and none makes a second live process bear pid 1 |
| Processes.RunsLoseNoZombie | kernel/proc.c:206-293 | in particular over every run in which processes exit without live children |
| Processes.ExitStrandsExactly | kernel/proc.c:246-271 | an exit loses no zombie if and only if no renamed child stays asleep in wait beside a zombie whose parent is pid 1 |
| Processes.BootLosesZombie | kernel/proc.c:246-271 | such an exit is reached from boot with three slots or more, and the same run ends with two live processes of pid 1 |
| Processes.ExitKeepsPidsExactly | kernel/proc.c:266-268 | live pids stay distinct across an exit if and only if at most one live process then bears pid 1 |
| Processes.WaitEndsExactly | kernel/proc.c:224-243 | the scan collects the first zombie child if there is one, returns -1 if and only if the table is empty, and sleeps otherwise |
| Processes.WaitCollects | kernel/proc.c:216-245 | wait collects the first zombie child whenever there is one and keeps the CPU |
| Processes.WaitSleepsExactly | kernel/proc.c:224-243 | wait sleeps if and only if no zombie child exists |
| Processes.WaitWithoutChildrenSleeps | kernel/proc.c:224-243 | so wait without children sleeps instead of returning |
| Processes.BoundedWaiting | kernel/proc.c:302-336 | between two dispatches of one process every process RUNNABLE at the first is dispatched |
| Processes.BootedInv | kernel/proc.c:99-108 | the invariant holds after userinit |
| Processes.ProcTable.WakeupOn | kernel/proc.c:288-293 | the loop wakes exactly the sleepers on the channel |
| Processes.ProcTable.ProcExit | kernel/proc.c:246-271 | the loops of proc_exit do what the step says |
| Processes.ProcTable.CollectZombie | kernel/proc.c:224-242 | the scan with its havekids flag ends as the model says, and frees the slot it collects |
| Processes.ProcTable.ProcKill | kernel/proc.c:273-286 | the first process with the pid is marked killed, and woken if asleep |
| Processes.ProcTable.ForkFrom | kernel/proc.c:61-97 | the first unused slot gets the next pid |
| PrintInt.PrintedReadsBack | kernel/printf.c:7-25 | the text parses back to the argument for every 64-bit value and every base from 2 to 16 |
| PrintInt.BufferSufficesExactly | kernel/printf.c:7-25 | the 20-byte buffer suffices for every value if and only if the base is at least 10 |
| PrintInt.Printint | kernel/printf.c:7-25 | the do-while loop and the backward emission print exactly that text |

## Left out

- Indirect blocks in kernel reads and writes: bmap indexes from the start of struct buf and keeps the buffer (kernel/fs.c:191-192), so kernel claims stop at block 30; mkfs and kexec are covered with indirect blocks.
- Concurrency inside the file system: calls run one after another, except around the inode table (`InodeLock`); a getblk with no free buffer would spin and is excluded by `Ready`.
- FileSystem.Kernel.ReadiInto: device inodes and files that reach indirect blocks.
- FileSystem.Descriptor.ReadInto: the same; fd_read of a device also moves the offset.
- FileSystem.Descriptor.WriteFrom: writes that reach indirect blocks.
- WriteI.RoundWrites: offsets in indirect blocks.
- WriteI.LoopWrites: writes that reach indirect blocks.
- WriteI.WriteOverwrites: writes that reach indirect blocks; offsets beyond the size, which leave a hole, are in `WriteKeeps`.
- WriteI.WriteKeeps: writes that reach indirect blocks.
- ReadI.LoopStores: files that reach indirect blocks.
- ReadI.ReadBack: files longer than 31 blocks.
- ReadI.WritesFollow: writes that reach indirect blocks.
- ReadI.WritesReadBack: files longer than 31 blocks.
- LostBlocks.WriteSurvivesExactly: writes within the 31 direct blocks.
- Device files: readi and writei of type T_DEV go to drivers that are not modelled.
- FileSystem.Kernel.IallocEntry: needs a free inode, because of the next line.
- FileSystem.Kernel.MknodIn: needs a free inode, because of the next line.
- A full inode table in ialloc: the original runs past the table (kernel/fs.c:119-129); it is the outcome NoInode, and what is then written is not modelled.
- ReadI.ReadiDeliversExactly: files that reach indirect blocks; memory from the caller's address on is taken to be long enough for twice the request, because dst advances twice.
- FileSystem.Kernel.WriteiFrom: writes that reach indirect blocks; after a panic the state is not described.
- File descriptor tables and closing: fd_close marks a shared descriptor closed whatever its count, so only the offsets are modelled.
- sys_unlink, ifree, pipes and the console: unfinished, they decide no specification.
- Several devices: there is one disk, so `dev` does not appear.
- Mkfs.AddFileHolds: names longer than 13 bytes, which strcpy writes past the entry, and more than 98 files, whose inodes mkfs writes past the 100 of the superblock; mkfs checks neither.
- Mkfs.AddFilesHolds: the same two bounds.
- Mkfs.MakeBuildsImage: the same two bounds.
- Builder.Builder.BuildImage: the same two bounds.
- mkfs: command line and host files become a list of names and bytes; superblock bytes beyond the three fields are taken as zero.
- Processes.RunsSafeExactly: one CPU; pids are unbounded.
- Processes.RunsLoseNoZombie: exits with live children, which `RunsSafeExactly` covers.
- Processes.ProcTable.ProcExit: the loop that closes the descriptors of the process, since descriptor tables are not modelled.
- Processes.ProcTable.CollectZombie: the two kfree calls on the collected slot, which are in `Spaces.Collected` on the memory side.
- Processes.ProcTable.ProcKill: what a killed process does when it next sees the flag.
- Fork.ForkCopies: what copyproc does after an exhausted allocator, which it ignores (kernel/proc.c:161-167), is not described; the trap frame and the context of the child are not part of it.
- Fork.CopyPages: sizes from 2 GB on, where the int counter of the loop overflows, which C leaves undefined.
- Spaces.ProcPagetableMakes: what follows an unchecked null of kalloc is the outcome OutOfPages.
- Scheduler: creation of processes and the writes of copyproc to a context are initial conditions; interrupts are arbitrary writes of p->state and calls of sched.
- Kalloc and PageTable: RAM is zero at boot; after a kfree of a page that still reads as a table (`Spaces.StepReadyExactly`) nothing more is said than that proc_pagetable panics (`Spaces.CollectedRootPanics`).
- Exec.KexecShowsProgram: the program headers are given as a list, so headers beyond sector 0 and the ELF fields themselves are not modelled, nor is the inode reference that kexec never returns; segments that do not start at a sector boundary, and arguments without a sound layout, are in `Loader` and `ArgStack`.
- UserMemory.WordHoldsBytes: that a load of byte k of a word reads its bits 8k to 8k + 7 is the definition of `ByteOf`.
- Drivers, trap and interrupt plumbing, assembly, the older loader in kernel/elf.c, user programs.
