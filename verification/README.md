# A verified model of personaOS

This project models the parts of the personaOS kernel, and of its image formatter, whose
correctness spans many functions, and proves what they promise. It is written in Dafny 4.11;
`dafny verify dfyconfig.toml` checks everything.

- `PondLayout`, `PondDir`, `PondVolume`, `PondSteps`, `PondFs`: PondFS: records, directories, block ownership, the inode cache and every operation except `unlink`
- `RamFile`, `PondRefinesRam`, `PondRun`, `PondMeaning`, `FullPond`: RamFs files, PondFS files as a refinement of them, runs of operations on many handles and what a second mount shows, the specifications in bytes and bits of the device, and a full volume
- `Mkpondfs`, `Vfs`, `RoundTrip`: the formatter, the mount table and path walk, and the way from a source tree to an opened path
- `Pmm`, `PageTables`, `TableGrowth`, `Vmm`, `Ranges`, `Elf`: frame allocator, four-level page tables, address spaces, fresh pages in several ranges, segment loading
- `Caps`, `Frames`, `Ipc`, `CapsRun`, `IpcRun`: capabilities, frame ownership, the IPC system calls and whole runs of them
- `Sched`: run queue, wait queues and process lifecycle
- `Nvme`, `Dhcp`: the NVMe queue pair against a controller, and the DHCP offer parser
- `Prelude`, `Bits`, `Utf8`: integers, little-endian words, bitmaps, UTF-8 validity

Code that changes state is a class whose methods carry the loops of the original and are proved
against functions and invariants on values; pure code is functions. A volume, a set of page
tables with the free frames, the capability state and the scheduler state each have one
invariant that every operation keeps.

How the pieces are read:

- A **flat map** is the user half of an address space as a map from page number to leaf entry.
  Every page-table operation is stated as a change of one flat map.
- A **frame** is owned by the free bitmap, a page-table node, a user mapping, a queued message
  or the running call. `Frames.Exclusive` says no frame has two owners, `Frames.SameFrames`
  that the owned frames are the same before and after.
- `IpcRun.Effect` is what one call does: its result, its own mappings, and that of no other task an
  address space, a mapping or a byte changes.
- A **token** is the right to receive on a port, or the registrar. `Caps.Unique` says no token is
  held twice among all tables, all queued messages and the running call.
- `Sched.Inv` is the scheduler's partition together with the absence of lost wake-ups; `Sched.Known`, that
  every queued id is a registered task's, holds whatever is killed. `Sched.RunTo` is the state after a
  run of steps, `Sched.Served` the tasks switched to in it.
- `Vmm.Reach` says how many of a list of fresh pages can be mapped; `Vmm.Spare`, how many frames are
  left then.

Where the code falls short of what its comments say, the model follows the code, shows the case
and states exactly when the promise holds:

- A receive that runs out of page-table frames after it mapped its first page frees frames that
  are mapped. `Ipc.Kernel.SysRecv` states the exact condition, `IpcRun.BreaksExample` a state
  where it holds. Capabilities are not affected (`CapsRun.AlwaysUnique`).
- A steal that meets a hole maps the detached pages back with the flags of a handed-over page.
  The translation is always restored, the flags only if they were those already
  (`Vmm.RolledBack`, `Vmm.RolledBackWritable`).
- The search for a payload address stops one payload short of the window's end, so an empty
  window refuses a payload of more than half its size (`Vmm.EmptyWindow`).
- Killing a parked task leaves it in the wait queue; the next wake-up makes it ready again
  (`Sched.Scheduler.Kill`, `Sched.KillThenWake`).
- `alloc_one` does not return on a full bitmap when the hint is 0 (`Pmm.ProbeHaltsExactly`).
- The free-frame counter is exact only if no two usable regions share a page (`Pmm.CountExact`)
  and no free frame is freed (`Pmm.FrameAllocator.FreeFrame`, `Pmm.DoubleFree`).
- A `create` that fails while the directory is rewritten leaves the directory empty, and a
  `create` with an empty name adds no visible entry (`PondFs.PondFs.Create`,
  `FullPond.CreateEmpties`).
- The registrar is not found behind a vacant id above 32 (`Ipc.Kernel.FindRegistrar`,
  `Ipc.RegistrarUnseen`).
- Capabilities given back after EINVAL or EFAULT have new ids, and a send of pages by a task
  without an address space, or on a full queue, loses its capabilities (`Ipc.Kernel.SysSend`,
  `Ipc.RightLost`).
- An anonymous mapping that fails keeps the pages it mapped and loses the frame it was about to map,
  unless there was none (`Vmm.Vmm.MapAnon`, `Vmm.LosesFrame`).
- Every loaded segment is writable, whatever its flags (`Elf.LoadSeg`).

## Model

| member | source | states |
|---|---|---|
| `RoundTrip.FormatMountOpen` | tools/mkpondfs/src/main.rs:153-308 | Formatting succeeds exactly when the image has 64 blocks and the tree fits; then, with the image mounted at `/` beside the RAM file system at `/boot` as the kernel does it, every path but `/boot` and those that start with `/boot/` is looked up in the PondFS, which for joined components means the first one is not `boot`; a path that is empty or does not start with a slash is InvalidPath; any other gives exactly what the tree has: the file's bytes, the directory's children in order, or the error |
| `RoundTrip.Walk` | kernel/src/fs/mod.rs:97-107 | Following path components from the root agrees with descending the source tree, errors included |
| `RoundTrip.Open` | kernel/src/fs/mod.rs:77-107 | `lookup` through any mount table: InvalidPath, NotFound without a covering mount, another file system, or the node the tree has below the mount point of the path |
| `RoundTrip.BootMounts` | kernel/src/main.rs:96-107 | With the RAM file system at `/boot` and PondFS at `/`, the longest mount point for a path is `/boot` if it covers it and `/` otherwise |
| `RoundTrip.FindsEach` | kernel/src/fs/mod.rs:97-107 | Following the names from the root to any node of the tree finds that node |
| `RoundTrip.FindsOnly` | kernel/src/fs/mod.rs:97-107 | A walk that finds a node followed the names to it; NotFound and NotDir come exactly from a missing name and from a file on the way |
| `RoundTrip.Step` | kernel/src/fs/pondfs/mod.rs:425-443 | One `lookup` in a directory that holds a tree node finds the child of that name, or reports NotFound or NotDir as the tree does |
| `RoundTrip.Inspect` | kernel/src/fs/pondfs/mod.rs:399-453 | An inode that holds a file reads back its bytes; one that holds a directory lists exactly its children |
| `PondRefinesRam.Run` | kernel/src/fs/pondfs/mod.rs:399-423 | Any sequence of reads and writes on a PondFS file gives the replies and the contents of the same sequence on an in-memory file; it stops exactly at the first write that ends beyond 48 KiB or finds too few free blocks, judged by the state before the run, and otherwise completes; no other inode changes |
| `PondRefinesRam.PondStep` | kernel/src/fs/pondfs/mod.rs:399-423 | One operation refines one RamFs operation; it is refused exactly beyond 48 KiB (Unsupported) or without enough free blocks (NoSpace), and then the contents are unchanged |
| `PondFs.RoomAfter` | kernel/src/fs/pondfs/mod.rs:259-299 | A write that fits leaves room for exactly the writes there was room for |
| `PondRun.Run` | kernel/src/fs/pondfs/mod.rs:399-502 | Any run of lookups, creates, writes, reads and listings on any number of handles, state by state: every reply and every change is determined by the table of files and directories and the free blocks before it, refusals included; every state is consistent; an inode in memory is newer than on disk only if it was before or a write or create on it failed with NoSpace or Unsupported |
| `PondRun.Reboot` | kernel/src/fs/pondfs/mod.rs:69-107 | Mount an intact image, run any operations, mount the device again: if none failed for want of space, the second mount shows the volume, every file and every directory as the run left it |
| `PondFs.CleanIntact` | kernel/src/fs/pondfs/mod.rs:140-151 | When no inode is newer in memory than on disk, superblock, bitmap and inode table on the device are those in memory |
| `PondRun.FolderAlways` | kernel/src/fs/pondfs/mod.rs:399-502 | A directory stays one through every run |
| `PondRun.Do` | kernel/src/fs/pondfs/mod.rs:399-502 | One operation on one handle does to the table of files and directories what its name says; a write or create is refused exactly beyond 48 KiB, without a free inode or without enough free blocks, and then leaves the table as it was, or the directory empty; and exactly when the inode in memory becomes newer than on disk |
| `PondRun.TreeTwo` | kernel/src/fs/pondfs/mod.rs:455-502 | A volume in which only two inodes changed is a table in which only those two entries did |
| `RamFile.WriteByte` | kernel/src/fs/ramfs.rs:68-80 | Every byte after a write comes from the buffer, else from the old contents, else it is zero |
| `RamFile.ReadByte` | kernel/src/fs/ramfs.rs:54-66 | A read delivers the bytes from the offset on, as many as asked for and as there are |
| `RamFile.ReadWritten` | kernel/src/fs/ramfs.rs:54-80 | Reading where a buffer was written returns the buffer |
| `RamFile.RamInode.ReadAt` | kernel/src/fs/ramfs.rs:54-66 | Delivers the bytes from the offset to the end or the buffer's length and leaves the rest of the buffer alone; IsDir on a directory |
| `RamFile.RamInode.WriteAt` | kernel/src/fs/ramfs.rs:68-80 | The contents become the zero-extended, overwritten contents; IsDir on a directory |
| `PondLayout.InodeRoundTrip` | kernel/src/fs/pondfs/layout.rs:36-48 | Decoding an encoded 128-byte inode record gives the inode back |
| `PondLayout.SuperblockRoundTrip` | kernel/src/fs/pondfs/layout.rs:22-34 | Decoding an encoded superblock gives the superblock back |
| `PondLayout.SuperblockLayout` | kernel/src/fs/pondfs/layout.rs:22-34 | The superblock field by field: offset, width and byte order |
| `PondLayout.InodeLayout` | kernel/src/fs/pondfs/layout.rs:36-46 | An inode record field by field, with the twelve block numbers from byte 32 on |
| `PondLayout.ZeroInode` | kernel/src/fs/pondfs/layout.rs:36-46 | A zeroed record is an unused inode without blocks |
| `PondDir.DirRoundTrip` | kernel/src/fs/pondfs/mod.rs:305-379 | Decoding inverts encoding for every list of entries with valid UTF-8 names of 1 to 65535 bytes, whatever the uninitialised header padding holds |
| `PondDir.EntryLayout` | kernel/src/fs/pondfs/mod.rs:305-338 | One entry byte by byte: the inode number, the length at 8, the kind at 10 (1 a file, 2 a directory), the name at 16, the next entry at the next multiple of four; when the listing ends and when it is rejected |
| `Utf8.ValidMeaning` | kernel/src/fs/pondfs/mod.rs:324-326 | A name is accepted exactly when it encodes some sequence of Unicode scalar values |
| `PondDir.EmptyNameVanishes` | kernel/src/fs/pondfs/mod.rs:305-338 | An entry with an empty name at the end of a listing is lost on reading, the entries before it are not |
| `PondDir.DecodeEncoded` | kernel/src/fs/pondfs/mod.rs:305-338 | Decoding where an encoded entry starts yields that entry and the start of the next |
| `PondDir.EncodeAppend` | kernel/src/fs/pondfs/mod.rs:347-365 | Serializing one more entry appends exactly its record |
| `PondDir.NamesFit` | kernel/src/fs/pondfs/mod.rs:340-379 | In a listing that fits an inode no name overflows its length field |
| `PondVolume.WriteSlot` | kernel/src/fs/pondfs/mod.rs:140-151 | Patching one record of an inode-table block changes that slot of the table and no other |
| `PondSteps.AttachOwned` | kernel/src/fs/pondfs/mod.rs:271-279 | Giving a missing slot a fresh zeroed block keeps block ownership, every other inode and the inode's own image |
| `PondSteps.ChunkImage` | kernel/src/fs/pondfs/mod.rs:281-294 | Patching part of one block changes exactly those bytes of the file image |
| `PondSteps.ReleaseOwnership` | kernel/src/fs/pondfs/mod.rs:189-204 | Clearing a slot and its bitmap bit keeps one owner per used block |
| `PondSteps.ReleaseSound` | kernel/src/fs/pondfs/mod.rs:366-374 | Releasing a block beyond the size keeps the volume sound and every other inode's bytes |
| `PondSteps.ResizeSound` | kernel/src/fs/pondfs/mod.rs:295-298 | Changing the size over allocated blocks keeps the volume sound |
| `PondFs.Mount` | kernel/src/fs/pondfs/mod.rs:69-107 | Mounting succeeds exactly when magic and version match and the bitmap and the root inode's slot are on the device; an intact image becomes a valid file system whose view is what is on disk |
| `PondMeaning.SuperBytes` | kernel/src/fs/pondfs/mod.rs:69-78 | A device is a PondFS exactly when it starts with POND and version 1 |
| `PondMeaning.SlotBytes` | kernel/src/fs/pondfs/mod.rs:120-138 | Inode records lie 32 to a block, 128 bytes apart |
| `PondMeaning.FileByte` | kernel/src/fs/pondfs/mod.rs:231-257 | Byte i of a file is byte i % 4096 of its block number i / 4096 |
| `PondMeaning.BlockBit` | kernel/src/fs/pondfs/mod.rs:169-187 | Data block number i has bit i % 8, least significant first, of bitmap byte i / 8 |
| `PondMeaning.RoomBlocks` | kernel/src/fs/pondfs/mod.rs:259-299 | There is room exactly when the missing blocks below the end are at most the free ones |
| `PondMeaning.OneOwner` | kernel/src/fs/pondfs/mod.rs:169-225 | In a consistent volume a block number stands in one place only, in the data region, with its bit set |
| `PondMeaning.NoBlockLost` | kernel/src/fs/pondfs/mod.rs:169-225 | Every set bit of a consistent volume is that of a block some inode names |
| `PondMeaning.NewRecord` | kernel/src/fs/pondfs/mod.rs:466-484 | A new inode has its kind, one link, no bytes and no blocks |
| `PondFs.LoadBitmap` | kernel/src/fs/pondfs/mod.rs:80-87 | The in-memory bitmap is the bitmap region of the device |
| `PondFs.PondFs.LoadInode` | kernel/src/fs/pondfs/mod.rs:120-138 | The record of the inode's slot on disk; NotFound outside 1..inode_count |
| `PondFs.PondFs.WriteInode` | kernel/src/fs/pondfs/mod.rs:140-151 | Only the inode's slot of the on-disk table changes; bitmap and data blocks stay |
| `PondFs.PondFs.GetOrLoad` | kernel/src/fs/pondfs/mod.rs:153-163 | All handles of one inode are one shared state; loading changes nothing visible |
| `PondFs.PondFs.AllocDataBlock` | kernel/src/fs/pondfs/mod.rs:169-187 | The lowest free block, marked in memory and on disk alike; NoSpace only when none is free |
| `PondFs.PondFs.FreeDataBlock` | kernel/src/fs/pondfs/mod.rs:189-204 | Clears exactly that block's bit in memory and on disk; Io outside the data region |
| `PondFs.PondFs.AllocInode` | kernel/src/fs/pondfs/mod.rs:206-225 | The lowest unused slot from 1 on, over the whole table; NoSpace only when all are in use, Io only when the table runs off the device |
| `PondFs.PondFs.ReadFileAt` | kernel/src/fs/pondfs/mod.rs:231-257 | Succeeds exactly when every block in range is present; delivers the file's bytes and leaves the rest of the buffer alone; else Unsupported or Io by the first byte that cannot be read |
| `PondFs.PondFs.EnsureBlocks` | kernel/src/fs/pondfs/mod.rs:270-279 | Allocates every missing block below a bound, exactly when enough are free, without changing any byte of any file |
| `PondFs.PondFs.CopyIn` | kernel/src/fs/pondfs/mod.rs:281-294 | The file image becomes the old image with the buffer spliced in; every other inode is kept |
| `PondFs.PondFs.WriteFileAt` | kernel/src/fs/pondfs/mod.rs:259-299 | Unsupported beyond 48 KiB, NoSpace exactly without room (image unchanged), otherwise the spliced image and the larger size; ownership is kept |
| `PondFs.FileWriteRefines` | kernel/src/fs/pondfs/mod.rs:259-299 | With zeros beyond the size, splicing the image is the RamFs write of the contents, and the zeros are kept |
| `PondFs.PondFs.ReadAt` | kernel/src/fs/pondfs/mod.rs:399-406 | Returns what a RamFs read of the contents returns; IsDir unless a file |
| `PondFs.PondFs.WriteAt` | kernel/src/fs/pondfs/mod.rs:408-423 | Contents become the RamFs write, or stay on error; the exact condition of each error; exactly the missing blocks are taken from the free ones, on NoSpace all the free ones; no other inode's slot or bytes change; afterwards the inode is written back, and after an error it is newer in memory exactly when it got a block |
| `PondFs.FileKeepsConsistent` | kernel/src/fs/pondfs/mod.rs:408-423 | Writing one file keeps every directory's listing and links and every file's zero tail |
| `PondFs.PondFs.DirReadEntries` | kernel/src/fs/pondfs/mod.rs:305-338 | The decoded contents of the directory, or the error of the first byte that cannot be read |
| `PondFs.PondFs.ParseEntries` | kernel/src/fs/pondfs/mod.rs:312-337 | The parsing loop computes the recursive decoding of the buffer |
| `PondFs.PondFs.Serialize` | kernel/src/fs/pondfs/mod.rs:345-365 | The serialized bytes are the encoding of the entries for some header padding |
| `PondFs.PondFs.FreeExcess` | kernel/src/fs/pondfs/mod.rs:366-374 | Frees exactly the blocks from the new length up to the old one, clears their slots and leaves every other block as it was; the volume stays sound apart from the size |
| `PondFs.RoomKept` | kernel/src/fs/pondfs/mod.rs:366-376 | Freeing the excess blocks first does not change whether the new listing fits |
| `PondFs.PondFs.DirWriteEntries` | kernel/src/fs/pondfs/mod.rs:340-379 | Unsupported beyond 48 KiB, NoSpace exactly without room, in both cases the listing is empty; otherwise the contents are the encoding of the entries, on exactly the blocks they need and those beyond the old size; other inodes are kept |
| `PondFs.PondFs.Readdir` | kernel/src/fs/pondfs/mod.rs:445-453 | Lists exactly the names and kinds of the decoded entries, in order |
| `PondFs.PondFs.Lookup` | kernel/src/fs/pondfs/mod.rs:425-443 | Finds an inode exactly when the name is listed, and the inode the listing names for it; changes nothing visible |
| `PondFs.PondFs.Create` | kernel/src/fs/pondfs/mod.rs:455-502 | Each error exactly when its condition holds; on success one fresh inode and one appended entry (none visible for an empty name) and nothing else; a failure while the listing is rewritten leaves it empty and one inode in use without an entry, and nothing else changed; when the directory's inode is then newer in memory than on disk |
| `PondFs.ListingAfterCreate` | kernel/src/fs/pondfs/mod.rs:455-502 | After one more entry was serialized the directory decodes to the old entries and the new one, with valid unique links |
| `FullPond.CreateEmpties` | kernel/src/fs/pondfs/mod.rs:455-502 | On a concrete full device, mounted: the root directory lists one file, `create` of a second returns NoSpace, and then the directory lists nothing |
| `FullPond.DeviceIntact` | kernel/src/fs/pondfs/mod.rs:69-107 | That device is an intact volume, with a free inode and no free block |
| `Mkpondfs.Format` | tools/mkpondfs/src/main.rs:273-308 | Succeeds exactly when the tree fits; the image is then intact and its root inode holds the tree |
| `Mkpondfs.FinalizedIntact` | tools/mkpondfs/src/main.rs:197-236 | A finished draft, once written out, satisfies every invariant a mounted volume needs |
| `Mkpondfs.Formatter.Visit` | tools/mkpondfs/src/main.rs:239-271 | Fills a directory inode so that it holds its source subtree, exactly when the subtree fits; uses exactly the inodes and blocks counted for it; everything already written stays |
| `Mkpondfs.Formatter.ReserveChildren` | tools/mkpondfs/src/main.rs:239-262 | The first pass reserves one inode per child and completes subdirectories, exactly when they fit |
| `Mkpondfs.Formatter.WriteFiles` | tools/mkpondfs/src/main.rs:262-269 | The second pass writes every file body, exactly when all fit |
| `Mkpondfs.Formatter.WriteFileBytes` | tools/mkpondfs/src/main.rs:153-169 | Succeeds exactly when the bytes fit; the inode's image is then the bytes followed by zeros, and its blocks are owned by it alone |
| `Mkpondfs.Formatter.WriteDirectory` | tools/mkpondfs/src/main.rs:171-195 | The directory's contents decode to exactly the entries given |
| `Mkpondfs.Formatter.AllocDataBlock` | tools/mkpondfs/src/main.rs:124-135 | The lowest free data block, and its bit is set |
| `Mkpondfs.Formatter.AllocInode` | tools/mkpondfs/src/main.rs:137-144 | The lowest unused inode from 1 on |
| `Mkpondfs.Formatter.Finalize` | tools/mkpondfs/src/main.rs:197-236 | Table, bitmap and superblock on the image decode to the formatter's state; no data block is touched |
| `Mkpondfs.SizeBitmap` | tools/mkpondfs/src/main.rs:91-101 | The sizing loop ends at the fixed point of the recursive definition |
| `PondMeaning.FreshDataBlocks` | tools/mkpondfs/src/main.rs:80-106 | A fresh image has all blocks for data but one superblock, two inode blocks and one bitmap block per 32768 data blocks begun |
| `Mkpondfs.BitmapSize` | tools/mkpondfs/src/main.rs:91-101 | The settled bitmap covers the remaining blocks and never pushes the layout past the image |
| `Mkpondfs.SizedLayout` | tools/mkpondfs/src/main.rs:80-122 | The layout computed for a fresh image is in order, inside the image and covered by the bitmap |
| `Mkpondfs.HoldsFrame` | tools/mkpondfs/src/main.rs:239-271 | An inode goes on holding its subtree while the inodes of the subtree are kept |
| `Vfs.Mounts.Mount` | kernel/src/fs/mod.rs:63-73 | The table becomes the old table with this path rebound, longest paths first |
| `Vfs.Mounts.ResolveMount` | kernel/src/fs/mod.rs:77-94 | The longest mount point that covers the path, with a remainder whose components are those of the path below it; none exactly when nothing covers it |
| `Vfs.CoversJoin` | kernel/src/fs/mod.rs:79-88 | A mount point covers a path exactly when its components are the first components of the path |
| `Vfs.MountOnly` | kernel/src/fs/mod.rs:77-94 | At most one mount point is the longest that covers a path |
| `Vfs.SplitJoin` | kernel/src/fs/mod.rs:97-107 | Splitting a joined path gives its components back |
| `Vfs.ComponentsCut` | kernel/src/fs/mod.rs:77-107 | Cutting a path at a slash splits its components |
| `Pmm.ProbeHaltsExactly` | kernel/src/mm/pmm.rs:130-147 | The search loop of `alloc_one` ends if and only if the hint is not 0 or some frame is free |
| `Pmm.ProbeDiverges` | kernel/src/mm/pmm.rs:130-147 | With hint 0 and a full bitmap the exit test never fires |
| `Pmm.FrameAllocator.AllocOne` | kernel/src/mm/pmm.rs:130-147 | The first free frame from the hint on, wrapping once, as the step machine finds it; none exactly when no frame is free; called when the loop ends, as `ProbeHaltsExactly` says |
| `Pmm.FrameAllocator.AllocFrame` | kernel/src/mm/pmm.rs:159-164 | Takes one frame out of the free set and keeps the counter exact |
| `Pmm.FrameAllocator.AllocContig` | kernel/src/mm/pmm.rs:168-191 | The lowest run of n free frames; fails only when there is none or n is 0; the counter stays exact |
| `Pmm.FrameAllocator.FreeFrame` | kernel/src/mm/pmm.rs:195-201 | Adds the frame to the free set; the counter stays exact if and only if the frame was not free already |
| `Pmm.DoubleFree` | kernel/src/mm/pmm.rs:195-201 | A concrete double free that changes no bit |
| `Pmm.Init` | kernel/src/mm/pmm.rs:34-113 | None exactly without memory or without a usable region for the bitmap; otherwise a frame is free exactly when some usable region counts it among its whole pages, it is not one of the bitmap's and it is not frame 0; the bitmap has just the pages for the whole map and lies at the start of the first usable region with room for it; the counter exceeds the free set by what overlapping regions share |
| `Pmm.MapExtent` | kernel/src/mm/pmm.rs:38-49 | The frames counted reach to the end of the region that ends last and no page further, usable or not, and the bitmap has the fewest pages that cover them |
| `Pmm.CountExact` | kernel/src/mm/pmm.rs:79-95 | Counting region by region is exact if and only if the regions share no page |
| `PageTables.IndexDigits` | kernel/src/mm/vmm.rs:464-475 | The four shift-and-mask indexes are the base-512 digits of the page number |
| `PageTables.PutLeafFlat` | kernel/src/mm/vmm.rs:136-185 | Writing one leaf slot changes one binding of one address space and no other translation anywhere |
| `PageTables.GraftSpaces` | kernel/src/mm/vmm.rs:440-462 | Hanging in a zeroed table changes no translation |
| `PageTables.ReflagSpaces` | kernel/src/mm/vmm.rs:444-452 | Widening an inner entry changes no translation |
| `TableGrowth.LackGrown` | kernel/src/mm/vmm.rs:136-150 | Once one page is mapped, what the rest of a range lacks is what the range lacked beyond that page's path |
| `TableGrowth.LackOne` | kernel/src/mm/vmm.rs:440-462 | The tables one page lacks are as many as `ensure_child` will allocate for it |
| `TableGrowth.LackBuilt` | kernel/src/mm/vmm.rs:440-462 | Once the tables of some pages are there, any other pages lack what they lacked beyond those |
| `Vmm.Vmm.EnsureChild` | kernel/src/mm/vmm.rs:440-462 | Follows the entry, widening its flags to the union, or hangs in a fresh zeroed table; fails exactly when absent and no frame is free |
| `Vmm.Vmm.EnsurePath` | kernel/src/mm/vmm.rs:141-143 | The page table of an address, adding exactly the missing tables; OutOfMemory exactly when there are more of them than free frames; every inner entry then grants the requested rights and none forbids execution |
| `Vmm.Vmm.Map4k` | kernel/src/mm/vmm.rs:136-150 | Adds exactly one binding to the flat map of the address space, or none with the exact condition of each error; every inner entry on the way is then writable, a user entry if the page is, and does not forbid execution; no other space changes; frames only move from the free set to page tables |
| `Vmm.GrantsKept` | kernel/src/mm/vmm.rs:440-462 | Mapping a page takes no permission from any other page: what the inner entries on its way granted they still grant |
| `PageTables.LeafSteps` | kernel/src/mm/vmm.rs:464-475 | The walk in address bits: bits 39 to 47, 30 to 38, 21 to 29 and 12 to 20 select the entries of the four tables |
| `Vmm.Vmm.Unmap4k` | kernel/src/mm/vmm.rs:172-185 | Removes exactly the page's binding and returns its frame's address; none exactly when it was not mapped |
| `Vmm.Vmm.WalksAgree` | kernel/src/mm/vmm.rs:189-266 | `phys_for_virt` and `is_mapped_4k` agree with the flat map |
| `Vmm.Vmm.NewUser` | kernel/src/mm/vmm.rs:98-111 | A new space maps no user page and translates the kernel half as the kernel does; every other space is unchanged |
| `Vmm.Vmm.MapAnon` | kernel/src/mm/vmm.rs:155-165 | Succeeds exactly when aligned, vacant and frames suffice for pages and tables; maps distinct zeroed frames taken from the free set; on failure exactly as many pages stay mapped as could be, and a frame is lost exactly unless none was left |
| `Vmm.LosesFrame` | kernel/src/mm/vmm.rs:155-165 | A concrete state where mapping a mapped page takes the only free frame and loses it |
| `Vmm.ReachOn` | kernel/src/mm/vmm.rs:155-165 | After one list of pages was mapped, how far another gets is how far both get from the start |
| `Vmm.ReachRange` | kernel/src/mm/vmm.rs:155-165 | For consecutive pages that is alignment of the first, vacancy, and frames for the pages and the tables of the range |
| `Ranges.SofarStop` | kernel/src/fs/elf.rs:31-50 | Where one range of several stops, all of them do, seen from the state before the first |
| `Ranges.FreshAgrees` | kernel/src/user/mod.rs:61-72 | In a new address space the pages that fit are told by their addresses and the number of free frames alone |
| `Vmm.Vmm.CopyToUser` | kernel/src/mm/vmm.rs:213-230 | The bytes stand at the address up to the first unmapped page; no other user byte and no frame outside the space changes |
| `Vmm.Vmm.ZeroUser` | kernel/src/mm/vmm.rs:232-245 | The range is zero up to the first unmapped page; nothing else changes |
| `Vmm.Vmm.StealPages` | kernel/src/mm/vmm.rs:279-311 | Either takes exactly the range's frames in order, or maps the detached prefix back; page tables and free frames are unchanged |
| `Vmm.RolledBack` | kernel/src/mm/vmm.rs:290-305 | A failed steal restores every page's translation, and the mapping itself if and only if the prefix already had the flags of a handed-over page |
| `Vmm.RolledBackWritable` | kernel/src/mm/vmm.rs:290-305 | A read-only page next to a hole comes back writable |
| `Vmm.Vmm.InstallPages` | kernel/src/mm/vmm.rs:318-326 | Succeeds exactly when the free frames cover the tables the whole range lacks; otherwise exactly as many pages are mapped, in order, as there are tables for |
| `Vmm.Vmm.FindUserVmRange` | kernel/src/mm/vmm.rs:335-355 | The lowest start the search can accept; none exactly when there is none |
| `Vmm.EmptyWindow` | kernel/src/mm/vmm.rs:335-355 | Even in an empty window a run is found exactly when it takes at most half the window |
| `Vmm.WindowMeaning` | kernel/src/mm/vmm.rs:335-355 | What the search accepts, in addresses: page-aligned, from 0x2000_0000 on, n - 1 pages more than the run needs before 0x6000_0000, and all n pages vacant |
| `Elf.LoadSeg` | kernel/src/fs/elf.rs:55-88 | Succeeds exactly when the pages are vacant and frames suffice; then every address of the segment reads as its file byte, or zero beyond them, its pages are user pages, writable whatever the segment says and executable exactly if it is, and every other user byte is unchanged |
| `Elf.Load` | kernel/src/fs/elf.rs:27-52 | All segments load exactly when all their pages together can be mapped from the state before; the error is always Map; then every address of every segment reads as its file byte, or zero beyond them, and what was mapped before is unchanged |
| `Caps.RemoveSound` | kernel/src/ipc/cap_table.rs:40-42 | Taking a capability into the hands of a call keeps receive rights and registrar unique |
| `Caps.InstallSound` | kernel/src/ipc/cap_table.rs:29-34 | Installing it under a fresh id keeps them unique and every port referred to |
| `Caps.PushSound` | kernel/src/ipc/port.rs:62-69 | So does moving what is in hand into a queued message |
| `Caps.PopSound` | kernel/src/ipc/port.rs:71-73 | So does taking the message at the head of a queue |
| `Caps.GrantSound` | kernel/src/ipc/cap.rs:18-22 | A capability without receive right may be made at will |
| `Caps.NewPortSound` | kernel/src/ipc/port.rs:47-51 | The receive right of a new port is the first for that port |
| `Caps.CloseSound` | kernel/src/ipc/port.rs:34-44 | A port nothing refers to can go with its messages |
| `Caps.ReapedSound` | kernel/src/ipc/port.rs:34-44 | So can all ports left without a reference, one after the other, until none is left |
| `Caps.CloseAllKeeps` | kernel/src/ipc/port.rs:34-44 | Nothing but those ports and their queues is gone |
| `Caps.PublishSound` | kernel/src/ipc/registry.rs:18-25 | Publishing records a live port and keeps uniqueness |
| `Caps.InitSound` | kernel/src/user/mod.rs:85-89 | The first task holds the only registrar |
| `Frames.Move` | kernel/src/ipc/port.rs:24-40 | Frames that change hands one to one keep exactly one owner and none is lost |
| `Frames.StealMoves` | kernel/src/mm/vmm.rs:279-311 | Stolen frames move from the address space to the sending call |
| `Frames.RestoreMoves` | kernel/src/mm/vmm.rs:290-305 | A rolled-back steal leaves every frame with its owner |
| `Frames.InstallMoves` | kernel/src/mm/vmm.rs:318-326 | Installed frames move from the receiving call to the address space |
| `Frames.PushMoves` | kernel/src/ipc/port.rs:62-69 | Frames move from the call to the message at the tail of the queue |
| `Frames.PopMoves` | kernel/src/ipc/port.rs:71-73 | Frames move from the head of the queue to the call |
| `Frames.FreeAllMoves` | kernel/src/ipc/port.rs:34-40 | Dropping a message moves all its frames to the free set, each counted once |
| `Frames.AnonMoves` | kernel/src/mm/vmm.rs:155-165 | Anonymous pages move from the free set to the address space; only lost frames become unowned |
| `Frames.NewUserMoves` | kernel/src/mm/vmm.rs:98-111 | A new address space takes one free frame |
| `IpcRun.Run` | kernel/src/ipc/syscalls.rs:50-373 | Any run of calls, and of stores by the tasks into their own memory, with the states between them and what each returned: it ends early exactly at the first receive whose payload runs out of page-table frames after its first page; up to there no frame has two owners, none was lost but by a failed task start, and the frame counter is exact; receive rights and the registrar are unique in every state, that last one included |
| `IpcRun.Do` | kernel/src/ipc/syscalls.rs:50-373 | Each call returns and does what its state says; no other task's address space, mapping or byte changes, nor a byte of a queued message; it breaks frame ownership exactly when it is such a receive, loses a frame exactly when it is a task start that stops with frames left, and keeps receive rights and registrar unique in every case |
| `CapsRun.AlwaysUnique` | kernel/src/ipc/cap.rs:18-22 | In every state of every run of calls, whatever becomes of the payloads, at most one capability can receive on a port, at most one is the registrar, and every port is referred to |
| `CapsRun.AlwaysReceiver` | kernel/src/ipc/syscalls.rs:213-243 | In every run, a receive that parks or takes a message, and a receiver that is woken, holds the right to receive on that port, nobody else does, and no other queue changes |
| `CapsRun.AlwaysSender` | kernel/src/ipc/syscalls.rs:98-211 | In every run, a queue grows only by a send of a task that holds a capability for that port with the send right |
| `CapsRun.OnlyReceiver` | kernel/src/ipc/syscalls.rs:213-243 | For one call: the receiver's token is the one it names, and exactly the message at the head leaves |
| `CapsRun.OnlySender` | kernel/src/ipc/syscalls.rs:98-211 | For one call: the message joins at the tail |
| `CapsRun.StepGood` | kernel/src/ipc/syscalls.rs:50-373 | Each call keeps that, on every path |
| `IpcRun.Boot` | kernel/src/main.rs:143-157 | The state before the first task satisfies the invariant |
| `IpcRun.PayloadArrives` | kernel/src/ipc/syscalls.rs:162-292 | Once the frames are handed over, every byte of the payload reads at the receiver's address as it did at the sender's |
| `IpcRun.Delivered` | kernel/src/ipc/syscalls.rs:162-292 | Over any run: a payload sent by one call and received by a later one reads, byte by byte, at the receiver's address as it did at the sender's when it was sent, whatever was called and stored in between |
| `IpcRun.BytesInFlight` | kernel/src/ipc/port.rs:24-40 | While a message is queued, no call and no store changes a byte of its pages |
| `IpcRun.BreaksExample` | kernel/src/ipc/syscalls.rs:274-280 | A concrete legal state, each frame with one owner, where a 513-page receive maps its first pages and then runs out of page-table frames |
| `Ipc.Kernel.SysPortCreate` | kernel/src/ipc/syscalls.rs:50-59 | A fresh port with the one capability that may receive, under a fresh id |
| `Ipc.Kernel.SysCapDrop` | kernel/src/ipc/syscalls.rs:61-72 | The slot goes, with every port it was the last reference to; EBADF exactly for an unknown id |
| `Ipc.Kernel.SysCapDup` | kernel/src/ipc/syscalls.rs:74-96 | Installs the same port with send and dup where held and asked for by bits 0 and 2 of the mask, and never receive; exact error conditions and codes |
| `Ipc.Kernel.SysSend` | kernel/src/ipc/syscalls.rs:98-211 | Only a holder of the send right changes anything; refused sends change nothing; a delivered message carries each named capability once and the frames of the pages in order, which the sender no longer has; EINVAL and EFAULT give everything back, the capabilities under fresh ids; EAGAIN loses them and frees the frames; invariants and frames are kept in every case, and no other address space changes |
| `Ipc.SendCases` | kernel/src/ipc/syscalls.rs:98-146 | A send gets to the port exactly with a readable message of at most eight capabilities the caller has, and a port capability with the send right; each refusal with its code |
| `Ipc.PayloadCases` | kernel/src/ipc/syscalls.rs:148-210 | The payload is refused, the queue is full at sixteen messages, or the message is queued, each with its code |
| `Ipc.RightLost` | kernel/src/ipc/syscalls.rs:197-208 | A concrete legal state and a send on a full queue after which the right to receive on a port is nowhere |
| `Ipc.Kernel.TakeCaps` | kernel/src/ipc/syscalls.rs:125-146 | Moves each named capability once out of the table, in order of first mention |
| `Ipc.Kernel.Steal` | kernel/src/ipc/syscalls.rs:162-179 | Succeeds exactly when aligned and every page is mapped; frames go into the hands of the call, or every translation is as before |
| `Ipc.Kernel.Post` | kernel/src/ipc/port.rs:60-69 | Queued behind the others, or on a full queue dropped with its frames freed and ports released |
| `Ipc.Kernel.SysRecv` | kernel/src/ipc/syscalls.rs:213-303 | Only the holder of the receive token parks or is handed a message; refused, parked on an empty queue, or handed the message at the head with its control words, its capabilities and its payload; after ENOMEM exactly the pages there were tables for are mapped, after any other error none; no other address space changes; receive rights and registrar stay unique in every case; frame ownership survives if and only if the payload does not run out of page-table frames after its first page |
| `Ipc.RecvCases` | kernel/src/ipc/syscalls.rs:213-235 | A receive gets to the port exactly with a buffer and a port capability with the receive right; each refusal with its code |
| `Ipc.DeliverCases` | kernel/src/ipc/syscalls.rs:245-303 | The code of each outcome for the receiver: too many capabilities for the buffer, no address space for the payload, no room or no tables for it, or success |
| `Ipc.Kernel.ResumeRecv` | kernel/src/ipc/syscalls.rs:236-243 | A woken receiver does the same with the port it was parked on |
| `Ipc.Kernel.Deliver` | kernel/src/ipc/syscalls.rs:245-302 | E2BIG drops the message and frees its frames; otherwise the capabilities are installed and the payload mapped in order at the lowest acceptable address, or freed; what is mapped after each error |
| `Ipc.Kernel.InstallPayload` | kernel/src/ipc/syscalls.rs:266-292 | The exact result, what is mapped after a failure, and the exact condition under which frames end up mapped and free |
| `Ipc.Kernel.FreePages` | kernel/src/ipc/port.rs:34-40 | Every frame of the message goes to the free set and is counted |
| `Ipc.Kernel.Reap` | kernel/src/ipc/port.rs:1-6 | Ports nothing refers to are released one after the other until every port left is referred to, and their queued frames freed; nothing else changes |
| `Ipc.Kernel.FindRegistrar` | kernel/src/ipc/syscalls.rs:334-351 | True exactly when the table has the registrar with no vacant id between 33 and it |
| `Ipc.RegistrarUnseen` | kernel/src/ipc/syscalls.rs:334-351 | A registrar at id 34 alone is not found |
| `Ipc.Kernel.SysPublish` | kernel/src/ipc/syscalls.rs:305-360 | Binds an unused name for a holder of registrar and port; the exact order of errors; never overwrites |
| `Ipc.PublishCases` | kernel/src/ipc/syscalls.rs:305-360 | Publishing succeeds exactly for a UTF-8 name of 1 to 64 bytes not taken, a port capability and a registrar that is seen; each refusal with its code |
| `Ipc.RegistrarSeen` | kernel/src/ipc/syscalls.rs:334-356 | A registrar at id 33 is seen whatever ids below it are vacant |
| `Ipc.Kernel.SysLookup` | kernel/src/ipc/syscalls.rs:361-370 | A fresh capability that can only send |
| `Ipc.Kernel.Spawn` | kernel/src/user/mod.rs:50-81 | A task is started exactly when there is a frame for its root and frames for all its pages, aligned and distinct, and every table above them; it has an empty table (the first one the registrar) and its own address space; a failed start loses a frame exactly unless none was left, and leaves the capabilities alone; no other address space and no frame in use changes |
| `Ipc.Kernel.UserStore` | kernel/src/mm/vmm.rs:213-230 | A task's stores go through its own mappings, up to the first page it does not have, and leave every frame mapped elsewhere alone |
| `Sched.Run` | kernel/src/sched/mod.rs:78-321 | Any run of steps, kills of parked tasks and of idle included, ends in the state the step functions give, and the tasks switched to, in order, are the current ones of the states after a switch; a task among the first n of the run queue that nobody kills is among the first n tasks switched to, and is switched to before n ticks are over; the invariant holds throughout exactly when no parked task and not idle is killed, and exited tasks then stay exited |
| `Sched.Do` | kernel/src/syscall.rs:322-386 | Each step of the current task leaves the state its step function gives, field by field, and switches exactly when it calls `schedule` with somebody queued |
| `Sched.BoundedWait` | kernel/src/sched/mod.rs:66-159 | Round robin: a task among the first n of the run queue that nobody kills is among the first n tasks switched to, at the latest with the n-th tick, whatever else runs, wakes, parks, exits or is killed |
| `Sched.StepKept` | kernel/src/syscall.rs:322-386 | Each step moves nobody but its victim back in the run queue, runs the first in line if it switches, and keeps the invariant exactly unless it kills a parked task or idle |
| `Sched.HarmlessRun` | kernel/src/sched/mod.rs:257-321 | The invariant (every task in the one place its state says, no lost wake-up, idle alive) holds in every state of a run if and only if no parked task and not idle is killed in it |
| `Sched.Boot` | kernel/src/sched/mod.rs:78-103 | The state the scheduler starts from satisfies the invariant, with idle current though not marked running |
| `Sched.Scheduler.Schedule` | kernel/src/sched/mod.rs:107-159 | The head of the run queue becomes current; the previous task goes to the tail unless blocked or dead; nothing happens on an empty queue |
| `Sched.SwitchPartition` | kernel/src/sched/mod.rs:107-159 | A switch keeps every task in the one place its state says |
| `Sched.IdleQueued` | kernel/src/sched/mod.rs:107-130 | Unless idle runs it is in the run queue, so a switch from any other task finds a successor |
| `Sched.Scheduler.WakeAll` | kernel/src/sched/mod.rs:300-321 | Exactly the entries of the key leave the wait queue, in the order `swap_remove` gives, and their tasks become ready at the tail of the run queue in the order they were taken out, nobody moving back |
| `Sched.Scheduler.BlockOn` | kernel/src/sched/mod.rs:287-294 | The current task is parked on the key and another one runs |
| `Sched.ParkOutcome` | kernel/src/sched/mod.rs:287-294 | Parking on something that has not happened keeps the invariant |
| `Sched.Scheduler.CurrentExit` | kernel/src/sched/mod.rs:207-223 | The parent is woken and another task runs if there is one, the first in line; under the invariant the task is dead with its code and the invariant holds again |
| `Sched.Scheduler.Kill` | kernel/src/sched/mod.rs:257-277 | Nobody but the victim is moved back in the run queue; the invariant survives if and only if the task is neither parked nor idle |
| `Sched.KillThenWake` | kernel/src/sched/mod.rs:257-321 | A parked task that is killed is ready and queued again after the next wake-up of its key |
| `Sched.Scheduler.FindExitedChild` | kernel/src/sched/mod.rs:240-248 | The first registered matching child that has exited, with its code |
| `Sched.Scheduler.HasChild` | kernel/src/sched/mod.rs:250-255 | True exactly when a matching child is registered |
| `Sched.Scheduler.SysSpawn` | kernel/src/syscall.rs:322-343 | A fresh id, registered last, ready, with the caller as parent and exit code 0, at the tail of the run queue; nothing else changes |
| `Sched.SpawnedForGood` | kernel/src/syscall.rs:322-386 | After a spawn by t, however the run goes on, the new id has t as its parent; whenever t runs, waiting for it finds a child and t may kill it |
| `Sched.StepLineage` | kernel/src/syscall.rs:322-386 | No step forgets a task or changes its parent |
| `Sched.Scheduler.SysWaitpid` | kernel/src/syscall.rs:345-367 | No matching child: -1; otherwise the first registered one that has exited, with its code; otherwise the caller parks on its children, and only then |
| `Sched.Scheduler.SysKill` | kernel/src/syscall.rs:369-386 | Only the parent or Spring (id 2) may kill; the exact results, and exactly when the invariant survives |
| `Sched.Scheduler.SysSend` | kernel/src/ipc/syscalls.rs:191-210 | Queues the message and wakes every receiver parked on the port, keeping everybody's place in the run queue; a full queue changes nothing |
| `Sched.Scheduler.SysRecv` | kernel/src/ipc/syscalls.rs:236-243 | Takes a message, or parks exactly when the queue is empty |
| `Sched.Scheduler.Tick` | kernel/src/sched/mod.rs:66-74 | The invariant holds; from a task other than idle the CPU goes to another task |
| `Sched.SwapRemoveKeeps` | kernel/src/sched/mod.rs:264-274 | `swap_remove` never raises the index of a task that stays |
| `Sched.PurgeFacts` | kernel/src/sched/mod.rs:264-274 | The purge of a killed task takes out that task and no other, and moves nobody back |
| `Sched.SweepUnparks` | kernel/src/sched/mod.rs:300-313 | The sweep for a key takes out exactly the entries of that key, as many times as they stand in the wait queue |
| `Nvme.SubmitAll` | kernel/src/drivers/nvme/mod.rs:116-146 | Any number of commands over any number of ring wraps: the i-th answer is the controller's answer to the i-th command, with its low sixteen bits kept and its number modulo 2^16 above them, executed as the i-th; tails, heads and phase are then those of that many rounds |
| `Nvme.QueuePair.SubmitSync` | kernel/src/drivers/nvme/mod.rs:116-146 | After any delay returns the answer to the command just issued, read from the ring entry at the head, which carries the command's id |
| `Nvme.QueuePair.PhaseTells` | kernel/src/drivers/nvme/mod.rs:130-133 | The phase tag at the head matches exactly when the command was answered: no stale entry is ever accepted |
| `Nvme.QueuePair.ControllerStep` | kernel/src/drivers/nvme/mod.rs:121-143 | The controller model of section 4.6 of NVM Express 1.3: one completion per submission, tagged with a phase inverted on every wrap, never into a full ring |
| `Nvme.QueuePair.constructor` | kernel/src/drivers/nvme/mod.rs:340-359 | Zeroed rings and phase 1 on both sides are the idle state before the first command |
| `Nvme.Next` | kernel/src/drivers/nvme/mod.rs:136-139 | Advancing a ring index modulo the depth, and the phase that goes with it |
| `Dhcp.ParseOffer` | kernel/src/drivers/e1000.rs:508-571 | Returns an offer exactly for a reply to our request whose last message type is 2, with the last router and DNS values and the offered address; stays in bounds for every header length |
| `Dhcp.HeaderBytes` | kernel/src/drivers/e1000.rs:508-535 | The fixed part of an offer byte by byte: 08 00 at 12, 17 at 23, ports 67 and 68 behind the IPv4 header, [2, 1, 6], the transaction id, our MAC at 28 and the cookie at 236 of the DHCP part |
| `Dhcp.OfferRoundTrip` | kernel/src/drivers/e1000.rs:508-571 | For every packet with that fixed part, any header length, MAC and address, and behind the cookie any encoded option list, an end mark and any bytes: the offer is that address with the last router and DNS options, zeros if none, exactly when the last message type is 2 |
| `Dhcp.OptionsPadded` | kernel/src/drivers/e1000.rs:536-571 | Pad bytes before an option do not matter, and an option cut off by the end is dropped |
| `Dhcp.ParseOptions` | kernel/src/drivers/e1000.rs:532-560 | The loop gives the last-occurrence values of the recursively decoded options (section 2 of RFC 2132) |
| `Dhcp.OptionsRoundTrip` | kernel/src/drivers/e1000.rs:536-560 | Any list of options is read back from its encoding, whatever follows END |
| `Dhcp.LastMeaning` | kernel/src/drivers/e1000.rs:553-558 | The value taken is that of the last long enough option of the code; none exactly when there is none |
| `Bits.SetBitMeaning` | kernel/src/mm/pmm.rs:120-122 | Setting a bit of the byte map sets that bit and changes no other |
| `Bits.ClearBitMeaning` | kernel/src/mm/pmm.rs:123-125 | Clearing a bit of the byte map clears that bit and changes no other |
| `Caps.DropSound` | kernel/src/ipc/cap.rs:38-41 | Letting go of capabilities keeps the others unique |
| `Caps.ParkSound` | kernel/src/ipc/syscalls.rs:236-243 | Parking or waking a receiver moves no capability |
| `Caps.SpawnSound` | kernel/src/ipc/cap_table.rs:21-27 | A task that starts with an empty table adds no token |
| `Frames.TwoOwners` | kernel/src/ipc/port.rs:34-40 | A frame that is mapped and free has two owners |
| `Ipc.DupRights` | kernel/src/ipc/syscalls.rs:74-96 | What a duplicate may do: send exactly if held and bit 0 of the mask is set, duplicate exactly if held and bit 2 is set, never receive |
| `Ipc.Installed` | kernel/src/ipc/syscalls.rs:261-263 | Installed in a row, each capability stands under the id reported for it, and no other slot or table changes |
| `Ipc.BothOwners` | kernel/src/ipc/syscalls.rs:278-280 | An install that stops after its first page leaves a frame mapped that the dropped message frees |
| `Ipc.Returned` | kernel/src/ipc/syscalls.rs:278-280 | An install that stops before its first page leaves every frame with one owner |
| `Sched.WakePartition` | kernel/src/sched/mod.rs:300-321 | A wake-up keeps every task in the one place its state says, and wakes no exited task |
| `Sched.ExitOutcome` | kernel/src/sched/mod.rs:207-223 | From marking the task dead to the switch: the invariant holds again, and no waiting parent is missed |
| `Sched.KillOutcome` | kernel/src/sched/mod.rs:257-277 | On values: the invariant survives a kill if and only if the task is neither parked nor idle |
| `Sched.SwapRemoveBag` | kernel/src/sched/mod.rs:304-312 | `swap_remove` takes out one entry and loses none of the others |
| `Elf.SegmentBytes` | kernel/src/fs/elf.rs:77-85 | Zeroed pages, then zeros, then the file bytes make up the segment's image, and leave every other page as it was |
| `Nvme.QueuePair.Issue` | kernel/src/drivers/nvme/mod.rs:117-127 | The command stands under its id in the slot the controller reads next |
| `Nvme.QueuePair.Acknowledge` | kernel/src/drivers/nvme/mod.rs:136-141 | Head, phase and doorbell are those of the idle state before the next command |
| `Dhcp.OptionAt` | kernel/src/drivers/e1000.rs:536-560 | One pass of the loop consumes one option, one padding byte or everything |

## Left out

- Ipc.Kernel.Spawn: takes the page ranges of segments and stack as a parameter; `Elf.Load` says what the segments' pages hold.
- Ipc.Kernel.UserStore: a store reaches any page that is mapped, whatever its flags, so it allows more than the processor does.
- IpcRun.Run: says nothing about memory after a receive that broke frame ownership; `CapsRun.AlwaysUnique` goes on for the capabilities.
- IpcRun.Boot: the bootloader's low identity range and its 2 MiB entries are not in the model's page tables; the kernel's root has an empty user half there and counts as owning no user frame.
- PondFs.PondFs.Create: assumes a table of exactly `inode_count` slots, as the formatter lays it out; `PondFs.PondFs.AllocInode` does not.
- Sched.Scheduler.SysSpawn: a program that cannot be loaded is `Ipc.Kernel.Spawn`'s matter; here the spawn succeeds.
- Sched.Scheduler.SysRecv: one turn of the waiting loop is one step, so with nothing to switch to (idle was killed) the step ends with the caller still current.
- Elf.LoadSeg: takes segments within the user half whose file bytes are in the file and no more than the memory size.
- Mkpondfs.Format: takes a source tree with distinct non-empty UTF-8 names, as a directory on the host has them, and an image of fewer than 2^63 blocks.
- Ipc.Kernel.SysPublish: assumes that the caller's table has handed out fewer than 2^31 ids, the width of a capability id.
- Nvme.QueuePair.SubmitSync: takes the controller's delay as a parameter; a controller that never answers is not modelled, and rings have at least two slots.
- `unlink`: for an existing name it locks the file system mutex it already holds, so there is no completed run to describe.
- I/O errors of the block device, and what is on disk between the writes of one operation.
- Special files in the formatter's source directory, and names that are not valid UTF-8.
- Release of address spaces and of the tables of exited tasks: the original never frees them, and neither does the model.
- `map_mmio`, the kernel half of address spaces beyond being shared, and TLB flushes.
- The meaning of the cache bit; it is carried along and compared, no more.
- Locks and interrupts: system calls run with interrupts masked on one CPU, so each is one step, and a receive or wait that parks is split at that point.
- User pointers: message structures and buffers are parameters and results; addresses passed in lie in the user half.
- Overflow of 64-bit and 32-bit counters (ids, ticks, free frames) beyond what the original checks.
- Reference counting: a port goes away in the call after which nothing refers to it; a cycle of ports that refer to each other stays, as in the original.
- Inline assembly, context-switch stacks, boot, ACPI, PCI, drivers other than the NVMe queue pair and the DHCP parser, the system libraries and the user programs.
- The ELF header parser; the model starts from the list of loadable segments.
- RamFs directories, and the file-descriptor table.
- Controller errors of NVMe beyond the status it returns; the controller executes commands in order, as one outstanding command allows no other.
