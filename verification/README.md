# A verified model of the kernel

This project models, in Dafny 4.11, the three parts of the kernel whose correctness is not
local to one function, and proves what they keep over every call and every run.

| part | files | main results |
|---|---|---|
| storage stack | `Layout`, `VirtioDisk`, `BufferCache`, `DiskModel`, `FileSystem`, `Directory`, `DirOps`, `Path`, `SysFile`, `FileRuns`, `FileClient`, `Mkfs`, `Boot` | a write is exactly a splice of the file's bytes; one global disk invariant is kept by every operation; the cache is transparent; directories are finite maps; path lookup is a fold; reference counts are exact on every exit of open and close; in every run of file system calls sizes never shrink and directories only gain names; what one process writes through a descriptor is what any process reads after opening the path; a built image is given byte by byte, boots into the invariant and reads back |
| memory | `PageAlloc`, `PageTable` | the free list is acyclic although it lives in the free pages; `mappages` extends a finite map by a range or by a prefix of it, for every range; the MMU of the Sv39 specification sees exactly that map; the kernel's map is the identity on five ranges |
| processes | `ProcModel`, `ProcInv`, `ProcRuns`, `Proc` | the process tree, page ownership, no vain sleep, round-robin fairness and exactly-once reports of exits, over all runs of the state machine, which the table's loops implement |

Code that changes things step by step is a class with the same loops and the same order of
updates; each method is tied to a specification function or relation, and the properties are
lemmas about those. Tables of structs are sequences of records held in a field and
reassigned; a pointer into a table is an index and a null pointer is -1.

`dafny verify dfyconfig.toml` checks everything.

## How the pieces fit

* `Layout` holds constants and byte codecs (little-endian words, dinodes, the superblock,
  bitmaps). `VirtioDisk` is the split-ring driver composed with a step model of the device
  (sections 2.4.5 to 2.4.8 of VirtIO 1.0); `BufferCache` is the LRU ring in front of it.
* `DiskModel` is about disks as values: `FsInv` says that no block is held by two slots, every
  held block is a data block whose bitmap bit is set, slots are mapped exactly below the file
  size, and `addrs[12]` is set exactly for files beyond 12 blocks. `BmapGrow` is the central
  lemma: one step of `bmap` at the end of a file keeps all of it and conserves blocks.
* `FileSystem` is `fs.c` up to `writei` and `ialloc`. Its `Valid()` says that the disk satisfies
  `FsInv` for a table `ino`, that `ino` is exactly what the dinode blocks hold, and that every
  loaded cache entry equals its entry of `ino`; this is why running `iupdate` only on growth
  is enough.
* `Directory` and `DirOps` read a directory file as a map from names (14 bytes at most) to
  inode numbers; `Path` folds lookups over the components; `SysFile` is the open-file table.
* `FileRuns` runs arbitrary sequences of open, read, write and close; `MayCall` decides from the
  state before a call whether it can run out of a resource. `FileClient` is a program of seven calls
  and what it may count on.
* What is on disk or in memory is stated in bytes, words and numbers where it meets the outside: the
  superblock, the root inode and its directory (`Mkfs.Builder.constructor`), dinodes
  (`Layout.DinodeBytes`), bitmap bits (`DiskModel.BitAtByte`), the blocks of a file
  (`DiskModel.ContentBytes`), the flags of open (`SysFile.ModeBits`), the entries of the page table
  (`Vm.KernelPteIs`) and the words of the trapframe.
* `Mkfs` builds images with the same block-level lemmas, and `Boot` boots them.
* `PageTable` has two views of one tree: `Leaf`, the abstract map from pages to entries, and
  `Translate`, the translation algorithm of section 4.3.2 of the RISC-V Privileged
  Architecture (20211203) with the Sv39 parameters of section 4.4.
* `ProcModel` states the steps between context switches, `ProcInv` the invariant each step
  keeps, `ProcRuns` the consequences over runs, and `Proc` the loops of `proc.c` on top of the
  real allocator and page table.

## Where the code and its comments differ

The model follows the code.

* `binit` inserts each buffer at the head, so the list starts as buf[29] .. buf[0], the
  opposite of its comment (`kernel/fs/bio.c:59`).
* `skipelem` also strips the slashes after an element, so `nameiparent("/a/")` succeeds with
  the root (`kernel/fs/fs.c:654-656` against `kernel/fs/fs.c:721-722`).
* `writei` calls `iupdate` only when the file grew (`kernel/fs/fs.c:560`).
* `balloc` tests only the first bit of each bitmap byte against the size
  (`kernel/fs/fs.c:142`). While a block is free it returns the lowest free block, for every size
  of the disk. When none is free it returns a block past the end exactly when some bit between
  the size and the next multiple of 8 is clear (`Fs.FileSystem.Balloc`): never when the size is a
  multiple of 8 (`Fs.NoneBeyond`), always on a full image of any other size (`Mkfs.FullImage`).
  `Boot.BallocPastTheEnd` fills an image of 1001 blocks and gets block 1001.
* The driver ignores the device number of a buffer: `Bio.WriteStaysCurrent` says exactly when a
  write keeps the cache transparent, and `Bio.StaleIffOtherDevice` that only a buffer of another
  device can break it. The kernel uses one device, ROOTDEV.
* `wait` stores the status through an address it does not check (`kernel/proc/proc.c:335-338`).
  The store keeps the free list and the page table intact exactly when it leaves the link of a
  free page and the entries of the inner tables meaning what they meant
  (`Vm.KernelVm.StoreInt`); any page that is neither free nor a table will do
  (`ProcTables.ProcTable.PlainStatusFits`).
* `exit` hands its children to slot 0 without waking it (`kernel/proc/proc.c:303-309`):
  `ProcRuns.OrphanUnnoticed` says exactly when slot 0 is left asleep above a zombie, and
  `ProcRuns.SlotZeroSleepsInVain` gives a run. Even then some process can run.
* `fork` neither shares nor clears open files, uses up a pid when it fails, and forgets the
  trapframe page when there is none left for the kernel stack.
* `mappages` takes its arguments in the order of `kernel/mm/vm.c:105`, not of
  `kernel/include/defs.h:49`.
* A text segment whose end is not page-aligned makes `kvmininit` panic, and no other does
  (`Vm.Kvmininit`); the linker script aligns it (`kernel.ld:26`).

## Model

| member | source | states |
|---|---|---|
| `Layout.DinodeRoundTrip` | kernel/include/fs.h:33-40 | the 64 bytes of a dinode decode to the fields they were encoded from |
| `Layout.SuperRoundTrip` | kernel/include/fs.h:22-31 | the superblock decodes to the fields it was encoded from |
| `Layout.WordBytes` | kernel/include/fs.h:22-31 | a 32-bit word on disk is four bytes, the lowest one first |
| `Layout.HalfBytes` | kernel/include/fs.h:33-40 | a 16-bit field on disk is two bytes, the lower one first |
| `Layout.DinodeBytes` | kernel/include/fs.h:33-40 | each of the 64 bytes of a dinode: type at 0, major at 2, minor at 4, nlink at 6, size at 8, and the thirteen pointers from 12 on |
| `Layout.SuperBytes` | kernel/include/fs.h:22-31 | each byte of block 1: eight words in the order of the struct, and zeros |
| `Layout.PutGetDinode` | kernel/fs/fs.c:312-323 | storing one of the 16 dinodes of a block changes that one and no other |
| `Layout.PutWordWord` | kernel/fs/fs.c:400-408 | storing one pointer of an indirect block changes that one of its 256 words |
| `Layout.PutWordBytes` | kernel/fs/fs.c:400-408 | the four bytes a pointer store writes, and that no other byte of the block changes |
| `Layout.SetBitBit` | kernel/fs/fs.c:147 | setting a bitmap bit sets that bit and no other |
| `Layout.ClearBitBit` | kernel/fs/fs.c:172 | clearing a bitmap bit clears that bit and no other |
| `Layout.ClearBitSetBit` | kernel/fs/fs.c:167-175 | clearing undoes setting, so bfree's store is the inverse of balloc's |
| `Layout.BitPlace` | kernel/fs/fs.c:143-147 | bit i of a bitmap block is the bit of weight 2^(i%8) in byte i/8; setting adds that weight to the byte and clearing takes it away |
| `Virtio.RingContinues` | kernel/driver/virtio_disk.c:271-289 | 16-bit ring indices count up, wrap from 65535 to 0, and stay consecutive modulo 8 across the wrap |
| `Virtio.VirtioDisk.AllocDesc` | kernel/driver/virtio_disk.c:201-210 | the first free descriptor, and only it, is taken |
| `Virtio.VirtioDisk.FreeChain` | kernel/driver/virtio_disk.c:213-224 | exactly the three descriptors of the chain become free |
| `Virtio.VirtioDisk.Submit` | kernel/driver/virtio_disk.c:234-273 | the request is laid out as a well-formed chain and offered; nothing else changes |
| `Virtio.VirtioDisk.Publish` | kernel/driver/virtio_disk.c:266-273 | the chain is put in the ring slot the device reads next and the index advances by one, so the device sees one new request |
| `Virtio.VirtioDisk.DeviceStep` | kernel/driver/virtio_disk.c:270-277 | the device model: one offered chain is served, its completion posted, one block or one buffer changed |
| `Virtio.VirtioDisk.Await` | kernel/driver/virtio_disk.c:280-291 | for any latency the wait ends with every completion read and only the own buffer released |
| `Virtio.VirtioDisk.Complete` | kernel/driver/virtio_disk.c:283-290 | one completion clears the buffer it names and advances used_idx by one, never past used.idx |
| `Virtio.VirtioDisk.Rw` | kernel/driver/virtio_disk.c:233-295 | an atomic block read or write, after which all eight descriptors are free again, for any index values |
| `Virtio.VirtioDisk.RwAll` | kernel/driver/virtio_disk.c:233-295 | any number of requests: every read returns what the writes before it left, the disk ends as those writes leave it, and the ring slots stay consecutive across the wrap of the 16-bit indices |
| `Virtio.BlocksAfterWrite` | kernel/driver/virtio_disk.c:234 | writing two consecutive sectors is writing one 1024-byte block |
| `Bio.UnlinkRing` | kernel/fs/bio.c:200-203 | taking a buffer out leaves one cycle through the others with inverse links |
| `Bio.LinkFirstRing` | kernel/fs/bio.c:205-208 | inserting at the head leaves one cycle with the buffer first |
| `Bio.MoveToFrontLru` | kernel/fs/bio.c:191-210 | after a release the list is again strictly ordered by time of last release |
| `Bio.InitialLru` | kernel/fs/bio.c:63-87 | binit's list is ordered buf[29] .. buf[0] |
| `Bio.BufferCache.constructor` | kernel/fs/bio.c:63-87 | the initialised cache is valid: one ring through all 30 buffers, no valid buffer |
| `Bio.BufferCache.FindCached` | kernel/fs/bio.c:108-116 | a buffer with the key if there is one, else none |
| `Bio.BufferCache.FindLru` | kernel/fs/bio.c:119-128 | the least recently released buffer with no holder |
| `Bio.BufferCache.Bget` | kernel/fs/bio.c:105-132 | a held buffer with the key; keys stay unique; a recycled buffer is the least recently released free one and is not valid |
| `Bio.BufferCache.Bread` | kernel/fs/bio.c:147-161 | the buffer holds what the disk block holds, the disk is unchanged, one reference more; bget's panic is unreachable while a buffer is spare |
| `Bio.BufferCache.Fill` | kernel/fs/bio.c:152-158 | the miss: the buffer gets what the disk block holds and the cache is transparent again |
| `Bio.BufferCache.Bwrite` | kernel/fs/bio.c:171-175 | the disk block becomes the buffer's data and the cache is transparent again |
| `Bio.BufferCache.Brelse` | kernel/fs/bio.c:191-211 | one reference less; the last release puts the buffer first in the list with the newest stamp |
| `Bio.BufferCache.HeldIsDisk` | kernel/fs/bio.c:147-161 | a held buffer that was not written equals its disk block |
| `Bio.SpareAfterOne` | kernel/fs/fs.c:400-408 | with two spare buffers one is still spare while another is held, so the two-buffer case of bmap cannot panic |
| `Bio.WriteStaysCurrent` | kernel/fs/bio.c:171-175 | a write keeps every valid buffer equal to its block exactly when no other buffer holds that block number with other data |
| `Bio.OneDeviceStaysCurrent` | kernel/fs/bio.c:105-132 | with one nonzero device and unique keys every write keeps the cache transparent |
| `Bio.StaleIffOtherDevice` | kernel/fs/bio.c:105-132 | with unique keys a write makes a valid buffer stale exactly when a buffer of another device holds the same block number with other data |
| `DiskModel.AllocInv` | kernel/fs/fs.c:135-160 | allocating a free block keeps the global invariant, disturbs no file, and yields a block nobody holds |
| `DiskModel.AllocFree` | kernel/fs/fs.c:147 | allocation takes exactly that block out of the free set |
| `DiskModel.GrowInv` | kernel/fs/fs.c:374-413 | an inode may take new blocks nobody held; the invariant then holds for the new table |
| `DiskModel.LinkDirect` | kernel/fs/fs.c:380-386 | a fresh block in the next direct slot extends the file and keeps the invariant |
| `DiskModel.LinkIndirect` | kernel/fs/fs.c:391-410 | a fresh block in the next indirect slot extends the file and keeps the invariant |
| `DiskModel.LinkIndirectGrows` | kernel/fs/fs.c:400-408 | the store in the indirect block maps exactly one more block of the file, and every other block stays where it was |
| `DiskModel.WriteBlock` | kernel/fs/fs.c:546-557 | rewriting one data block of a file splices its bytes there and changes no other file |
| `DiskModel.BlockBytes` | kernel/fs/fs.c:546-557 | the file's bytes in one logical block are the bytes of its physical block |
| `DiskModel.ContentBytes` | kernel/fs/fs.c:374-410 | byte j of a file lies in block addrs[j/1024] below 12288, and from there on in the block whose number is the four bytes at 4*((j-12288)/1024) of block addrs[12] |
| `DiskModel.BitAtByte` | kernel/fs/fs.c:138-147 | block b is marked by the bit of weight 2^(b%8) in byte b%8192/8 of block bmapstart + b/8192 |
| `DiskModel.BmapGrow` | kernel/fs/fs.c:374-413 | bmap at the end of a file: invariant kept, old bytes a prefix, every other file and all non-bitmap metadata untouched, and free blocks plus held blocks conserved |
| `Fs.LowestIsFree` | kernel/fs/fs.c:141-150 | the lowest clear bit balloc can reach is a free block exactly when there is one, and lies past the end exactly when no block is free and a bit beyond the size is clear |
| `Fs.NoneBeyond` | kernel/fs/fs.c:142 | with a number of blocks that is a multiple of 8 the scan ends at the size, so no block past the end is ever found |
| `Fs.FoundBit` | kernel/fs/fs.c:141-146 | the bit at which the three loops stop is the lowest clear one |
| `Fs.FreeUndoesAlloc` | kernel/fs/fs.c:167-175 | bfree after balloc restores the bitmap; only the zeroed block itself differs |
| `Fs.FreeBits` | kernel/fs/fs.c:167-175 | bfree makes exactly one block free |
| `Fs.PutInodeTable` | kernel/fs/fs.c:309-324 | rewriting one dinode changes that entry of the inode table and no other |
| `Fs.PutInodeIs` | kernel/fs/fs.c:312-323 | the dinode goes to byte 64*(inum%16) of block inodestart + inum/16 |
| `Fs.PutInodeKeeps` | kernel/fs/fs.c:309-324 | rewriting a dinode touches no bitmap and no data block, so the invariant and all files stay |
| `Fs.NewInode` | kernel/fs/fs.c:339-355 | a free inode that becomes an empty one keeps the invariant |
| `Fs.Claimed` | kernel/fs/fs.c:339-355 | the dinode ialloc writes makes a free inode an empty file: invariant, table and free blocks kept, every file as before |
| `Fs.FileSystem.Fsinit` | kernel/fs/fs.c:91-102 | a disk that satisfies the invariant gives a valid file system with an empty inode cache |
| `Fs.FileSystem.Bzero` | kernel/fs/fs.c:112-117 | the block is zero and nothing else changed |
| `Fs.FileSystem.Balloc` | kernel/fs/fs.c:135-160 | for every size of the disk: the lowest clear bit is marked and its block zeroed; a free block whenever there is one; a block at or past the size exactly when none is free and a bit beyond the size is clear; the panic exactly when neither; all buffers given back |
| `Fs.FileSystem.TryBitmapBlock` | kernel/fs/fs.c:141-156 | one bitmap block: its lowest clear bit is taken, or all its bits that the scan reaches are set |
| `Fs.FileSystem.ZeroTaken` | kernel/fs/fs.c:150 | the block that was marked is zeroed, or the driver is handed a block past the end of the device |
| `Fs.FileSystem.Bfree` | kernel/fs/fs.c:167-175 | the block's bit is cleared and nothing else changes; the panic is excluded by the precondition |
| `Fs.FileSystem.Iget` | kernel/fs/fs.c:203-223 | one reference more to the only cache entry of the inode, every other entry as before; a free entry is needed only when the inode has none |
| `Fs.StepForetold` | kernel/fs/fs.c:203-223 | whether iget will find an entry in the middle of a lookup is decided by the cache the lookup started with |
| `Fs.FileSystem.Iput` | kernel/fs/fs.c:289-297 | one reference less, and an entry without references holds no loaded inode |
| `Fs.FileSystem.Ilock` | kernel/fs/fs.c:241-266 | the entry is loaded with exactly the inode on disk, whose type is never 0, so the panic is unreachable |
| `Fs.FileSystem.Iupdate` | kernel/fs/fs.c:309-324 | the dinode on disk becomes the in-core one and no other changes |
| `Fs.FileSystem.Bmap` | kernel/fs/fs.c:374-413 | looks the block up or allocates it, and the indirect block when missing, as BmapStep says, with at most two buffers held |
| `Fs.FileSystem.BmapIndirect` | kernel/fs/fs.c:391-410 | the indirect half of bmap |
| `Fs.FileSystem.Readi` | kernel/fs/fs.c:437-467 | returns exactly content[off..min(off+n,size)], or nothing if off+n wraps or off is past the end; disk, cache entries and references unchanged |
| `Fs.FileSystem.Writei` | kernel/fs/fs.c:535-565 | -1 and nothing changed exactly when off > size, off + n >= 2^32, or off + n > 274432; otherwise the content becomes the splice, with the frame of WroteFile |
| `Fs.FileSystem.WriteChunk` | kernel/fs/fs.c:546-557 | one round of the loop is one splice inside a block |
| `Fs.FileSystem.WriteLoop` | kernel/fs/fs.c:546-557 | the loop across direct and indirect blocks writes exactly x at off |
| `Fs.FileSystem.FinishWrite` | kernel/fs/fs.c:560-563 | in-core and on-disk inode agree after the conditional iupdate |
| `Fs.FileSystem.WriteBytes` | kernel/fs/fs.c:546-564 | loop and size update together keep Valid and change one file only |
| `Fs.FileSystem.Ialloc` | kernel/fs/fs.c:339-355 | the first free inode becomes an empty inode of the type and gets a reference; no file changes |
| `Directory.NamesMatch` | kernel/fs/fs.c:502-509 | the 14-byte comparison decides equality of the names the fields stand for |
| `Directory.FillName` | kernel/fs/fs.c:602-604 | the field is the name up to its NUL, filled up with zeros |
| `Directory.LeftByWrite` | kernel/fs/fs.c:602-609 | the sixteen bytes of a new entry: inode number, lower byte first, then the name and zeros; no other byte of the directory changes |
| `Directory.MapIsEntries` | kernel/fs/fs.c:493-514 | with unique names each nonempty entry, its inode number in bytes 0 and 1 and its name in bytes 2 to 15, is a binding of the map |
| `Directory.MapFromEntries` | kernel/fs/fs.c:493-514 | every binding of the map comes from 16 bytes that say so |
| `Directory.AddedMap` | kernel/fs/fs.c:594-609 | an entry written to an empty slot or appended adds exactly one name to the map |
| `Directory.AddedUnique` | kernel/fs/fs.c:594-609 | names stay unique when the new one was absent |
| `DirOps.ReadEntry` | kernel/fs/fs.c:494-496 | reading entry i of a directory always yields 16 bytes, so the panic is unreachable |
| `DirOps.Dirlookup` | kernel/fs/fs.c:488-518 | the inode the map gives for the name with one reference more, or none exactly when the name is absent; nothing else changes |
| `DirOps.FindSlot` | kernel/fs/fs.c:593-600 | the first empty slot, or the end |
| `DirOps.Dirlink` | kernel/fs/fs.c:582-612 | -1 with nothing changed exactly when the name is present, which needs no room; otherwise the first empty slot or a new one at the end holds the inode number and the zero-filled name, byte for byte, the map gains exactly the name, names stay unique and every other file is as before |
| `DirOps.Linked` | kernel/fs/fs.c:602-609 | a linked name keeps the whole tree well formed and updates one map |
| `DirOps.CreateFile` | kernel/syscall/sysfile.c:97-104 | a new empty file under a new name: one inode claimed, one directory map extended, no other file changed |
| `Path.ElementFirst` | kernel/fs/fs.c:640-653 | the bytes up to the next '/' give the first component: all of them if they are fewer than 14, else the first 14 |
| `Path.TrailingSlash` | kernel/fs/fs.c:654-656 | a trailing slash does not change the components |
| `Path.OnlySlashes` | kernel/fs/fs.c:635-638 | a path of slashes alone has no component |
| `Path.StoredName` | kernel/fs/fs.c:646-652 | the name buffer stands for the whole element if it is shorter than 14 bytes, else for its first 14 |
| `Path.Skipelem` | kernel/fs/fs.c:630-659 | none exactly when only '/' is left; otherwise the name stands for the bytes from the next other byte up to the next '/', cut to 14, the rest starts after all slashes that follow, and it has the other components |
| `Path.ElementStored` | kernel/fs/fs.c:640-653 | the element up to the next slash, as it is stored, is the first component, and the rest has the others |
| `Path.ParentIsWalk` | kernel/fs/fs.c:683-728 | nameiparent's result is where all components but the last lead, if that is a directory |
| `Path.WalkThroughParent` | kernel/fs/fs.c:683-728 | looking the last component up in the parent is looking up the whole path |
| `Path.NamexRound` | kernel/fs/fs.c:697-718 | one round follows one component towards the goal or fails, with the reference moved or dropped |
| `Path.Descend` | kernel/fs/fs.c:708-717 | the inode the directory gives for the name with its one reference, or none exactly when the name is absent; the directory's own reference is dropped either way |
| `Path.Namex` | kernel/fs/fs.c:683-728 | equals folding directory lookup over the components (all but the last for the parent); one reference more on success, none on any failure; the disk is unchanged |
| `Path.Namei` | kernel/fs/fs.c:740-743 | the inode the path leads to, or none |
| `SysFile.CountsAreExact` | kernel/fs/file.c:52-105 | each file's ref is the number of descriptors that hold it and each cache entry's ref the number of open files that point at it |
| `SysFile.FilesOpened` | kernel/syscall/sysfile.c:119-150 | a new open file in a free slot and a free descriptor keeps all counts exact |
| `SysFile.ModeBits` | kernel/syscall/sysfile.c:28-32 | O_CREAT is bit 9 of the mode; a file is readable when the mode is even and writable when it is not a multiple of 4 |
| `SysFile.FileTable.RefusedIs` | kernel/syscall/sysfile.c:72-116 | open refuses, without bit 9, a path that leads nowhere or to a directory in a mode other than 0, and with bit 9 a path without a parent directory or one to an inode of type 2 or 3 |
| `SysFile.FilesClosed` | kernel/syscall/sysfile.c:234-242 | clearing a descriptor and closing its file keeps all counts exact |
| `SysFile.ParentStays` | kernel/syscall/sysfile.c:74-104 | a new file does not change where the path's parent is found |
| `SysFile.MadeFile` | kernel/fs/fs.c:339-355 | the inode of a new file is of type 1, empty and without blocks, and every other field is zero |
| `SysFile.FileTable.constructor` | kernel/fs/file.c:41-43 | at boot nothing is open and all counts are exact |
| `SysFile.FileTable.Filealloc` | kernel/fs/file.c:52-60 | the first free file slot gets its first reference; -1 exactly when none is free |
| `SysFile.FileTable.Fileclose` | kernel/fs/file.c:89-105 | the last reference clears the slot and gives the inode back |
| `SysFile.FileTable.TakeFd` | kernel/syscall/sysfile.c:126-133 | the lowest free descriptor, or -1 when the process has none |
| `SysFile.FileTable.InstallFile` | kernel/syscall/sysfile.c:119-150 | an open file on the inode at offset 0, readable when the mode is even and writable when it is not a multiple of 4, or everything given back when either table is full |
| `SysFile.FileTable.OpenExisting` | kernel/syscall/sysfile.c:108-115 | fails exactly when the path leads nowhere or to a directory opened with any flag |
| `SysFile.FileTable.OpenFound` | kernel/syscall/sysfile.c:84-94 | an existing name: directories and devices are refused and all references returned |
| `SysFile.FileTable.OpenNew` | kernel/syscall/sysfile.c:97-104 | a new name: a new empty file and exactly one reference to it |
| `SysFile.FileTable.OpenIn` | kernel/syscall/sysfile.c:81-105 | in the parent directory: an existing file, a refusal, or a new file, with exact references |
| `SysFile.FileTable.OpenCreate` | kernel/syscall/sysfile.c:74-105 | what O_CREAT gives, from the tree before to the tree after |
| `SysFile.FileTable.CreatedIsFound` | kernel/syscall/sysfile.c:74-105 | after O_CREAT the path leads to the opened file |
| `SysFile.FileTable.CreatedMonotone` | kernel/syscall/sysfile.c:74-105 | whatever O_CREAT does, no inode disappears, changes its type or shrinks |
| `SysFile.FileTable.OpenTarget` | kernel/syscall/sysfile.c:72-116 | the inode to open with one reference, or none with all counts and the disk unchanged |
| `SysFile.FileTable.SysOpen` | kernel/syscall/sysfile.c:61-151 | Valid on every exit; no inode shrinks; the tree is untouched unless bit 9 of the mode is set and the name is new; -1 exactly when the path is refused or a table is full, with all counts as before; otherwise the lowest descriptor holds a new file, at offset 0, on the inode the path leads to, readable and writable as the low bits of the mode say |
| `SysFile.FileTable.SysClose` | kernel/syscall/sysfile.c:234-242 | -1 exactly for a bad descriptor; otherwise one reference less, and all counts exact |
| `SysFile.FileTable.Fileread` | kernel/fs/file.c:119-129 | returns the bytes at the offset and advances it by their number, never past the size |
| `SysFile.FileTable.Filewrite` | kernel/fs/file.c:146-156 | -1 with nothing changed exactly when not writable or too far; otherwise the bytes are spliced at the offset, the offset advances by their number, and only that file grows |
| `SysFile.FileTable.SysRead` | kernel/syscall/sysfile.c:163-176 | a bad descriptor gives -1; otherwise exactly what Fileread promises for its file, with the disk and all counts unchanged |
| `SysFile.FileTable.SysWrite` | kernel/syscall/sysfile.c:206-224 | a bad descriptor gives n on descriptor 1 and -1 on the others, with nothing changed; otherwise -1 exactly when its file is not writable or the range too far, and else the splice at the offset and nothing else |
| `SysFile.OneFileGrew` | kernel/fs/file.c:146-156 | one non-directory that grew changes no directory, no type and no other size |
| `FileRuns.Run` | kernel/syscall/sysfile.c:61-242 | any sequence of open, read, write and close by any processes: Valid throughout, no inode disappears, changes type or shrinks, no directory loses or rebinds a name, and all maps are unchanged if no call had O_CREAT; it stops only at a call that MayCall refuses |
| `FileRuns.Do` | kernel/syscall/sysfile.c:61-242 | each single call keeps the same |
| `FileRuns.MayCall` | kernel/syscall/sysfile.c:61-242 | decides from the state whether a call has the blocks, the inode and the cache entries that it takes |
| `FileRuns.KeptByWrite` | kernel/fs/file.c:146-156 | growth of a file that is no directory leaves every directory map as it was |
| `FileRuns.KeptByCreate` | kernel/syscall/sysfile.c:97-104 | a new file adds one name to one map and rebinds none |
| `FileRuns.KeptTrans` | kernel/syscall/sysfile.c:61-242 | what one call keeps and the next call keeps, both keep |
| `FileClient.WriteThenRead` | kernel/syscall/sysfile.c:61-242 | a process opens a path with 0x202, writes a and then b, and closes it; any process that then opens the path with 0 and reads gets a followed by b; each way in which this can stop is named |
| `FileClient.WriteOn` | kernel/syscall/sysfile.c:206-224 | a write behind the bytes x leaves the descriptor behind x followed by the new ones, and the path still leads to the file |
| `FileClient.ReadFromStart` | kernel/syscall/sysfile.c:163-176 | open, read and close give the first bytes of the inode the path leads to, and fail exactly when a table is full or no cache entry is left |
| `FileClient.SameWalk` | kernel/fs/fs.c:683-728 | in an unchanged tree every path leads where it led |
| `Mkfs.NextIsAlloc` | mkfs/mkfs.c:72-85 | taking the next block does to the image what the kernel's balloc would do |
| `Mkfs.FreeCount` | mkfs/mkfs.c:81-85 | the free blocks are exactly those from the frontier on |
| `Mkfs.FullImage` | mkfs/mkfs.c:81-85 | on a full image the kernel's balloc finds a block exactly when the number of blocks is not a multiple of 8, and then the one just past the end |
| `Mkfs.RootDirectory` | mkfs/mkfs.c:216-229 | the root's two entries are the map of "." and ".." to inode 1 |
| `Mkfs.Builder.constructor` | mkfs/mkfs.c:173-229 | for every total that leaves data blocks the image satisfies the kernel's disk invariant; every byte of block 1, the 64 bytes of the root inode in block 2, and the 32 bytes of the root directory in the first data block are given as numbers |
| `Mkfs.Builder.RootOnDisk` | mkfs/mkfs.c:212-229 | the root inode has type 2, one link, size 32 and one block, the first after the metadata |
| `Mkfs.Builder.MarkMeta` | mkfs/mkfs.c:212-213 | exactly the metadata blocks are marked |
| `Mkfs.Builder.NextBlock` | mkfs/mkfs.c:81-85 | the frontier block, marked; the invariant holds |
| `Mkfs.Builder.Winode` | mkfs/mkfs.c:87-94 | one dinode of the image is replaced |
| `Mkfs.Builder.Ialloc` | mkfs/mkfs.c:104-113 | the next inode, empty and of the given type |
| `Mkfs.Builder.AppendChunk` | mkfs/mkfs.c:121-157 | one round of iappend's loop |
| `Mkfs.Builder.Iappend` | mkfs/mkfs.c:115-162 | the file's bytes become the old ones followed by the new ones, across direct and indirect blocks, every other file unchanged, and the invariant holds |
| `Boot.SectorsRoundTrip` | mkfs/mkfs.c:50-57 | the image's sectors, grouped in pairs, are its blocks again |
| `Boot.BootImage` | kernel/fs/fs.c:91-102 | a built image boots into a valid file system |
| `Boot.BootTables` | kernel/boot/main.c:49-53 | with exact and empty open-file tables |
| `Boot.BallocOnFull` | kernel/fs/fs.c:135-160 | booted on any full image: balloc panics when the size is a multiple of 8, and otherwise returns the block at the size |
| `Boot.FillImage` | mkfs/mkfs.c:115-162 | an image of 1001 blocks filled to the last one |
| `Boot.BallocPastTheEnd` | kernel/fs/fs.c:141-150 | on that image balloc answers block 1001, which the disk does not have |
| `Boot.AppendAll` | mkfs/mkfs.c:115-162 | any number of iappend calls within the size bound append the concatenation |
| `Boot.AppendThenRead` | mkfs/mkfs.c:115-162 | what iappend wrote is what the kernel's iget, ilock and readi return after boot |
| `Kalloc.ChainEnds` | kernel/mm/kalloc.c:84-86 | following the links visits every free page once, in order, and then reaches NULL |
| `Kalloc.PutIntGet` | kernel/proc/proc.c:335-338 | a 32-bit store changes its own half of a 64-bit word and not the other |
| `Kalloc.PutIntHalf` | kernel/proc/proc.c:335-338 | at a multiple of 8 the store writes the low half of the 64-bit word, and else the high half; the other half stays |
| `Kalloc.IntStoredWord` | kernel/proc/proc.c:335-338 | the word is number addr%4096/8 of the page at addr - addr%4096, and no other word changes |
| `Kalloc.StoreChain` | kernel/proc/proc.c:335-338 | a stray store leaves the free list intact exactly when it does not change the first word of a free page |
| `Kalloc.PhysMem.Kinit` | kernel/mm/kalloc.c:41-51 | exactly the multiples of 4096 in [end, 0x88000000) are free, the highest first |
| `Kalloc.PhysMem.Kfree` | kernel/mm/kalloc.c:67-87 | the page is first on the list and its first word links to the old head; no other word of memory changes |
| `Kalloc.PhysMem.Kalloc` | kernel/mm/kalloc.c:99-119 | the head of the list, zeroed and no longer free; 0 exactly when none is free; every other page unchanged |
| `Kalloc.PhysMem.ClearPage` | kernel/mm/kalloc.c:111-115 | the page is zero and nothing else changed |
| `Kalloc.PhysMem.CopyPage` | kernel/proc/proc.c:385-388 | the destination page equals the source page |
| `Vm.PteRoundTrip` | kernel/include/riscv.h:23-25 | PTE2PA undoes PA2PTE up to the page offset and PTE_FLAGS returns the permissions |
| `Vm.IndicesInjective` | kernel/include/riscv.h:18-20 | below MAXVA the three indices determine the page |
| `Vm.AddNode` | kernel/mm/vm.c:64-85 | linking a cleared page below an unused entry keeps the table a tree of distinct pages |
| `Vm.AddNodeLeaves` | kernel/mm/vm.c:64-85 | and changes no translation |
| `Vm.SetLeaf` | kernel/mm/vm.c:130 | a store to one leaf entry changes that translation and no other |
| `Vm.TreeFrame` | kernel/mm/vm.c:42-91 | memory outside the table's pages does not matter to it |
| `Vm.StoreTree` | kernel/proc/proc.c:335-338 | a stray store leaves the page table a tree exactly when, in a table above the leaves, it keeps each used entry and makes no unused one valid |
| `Vm.HardwareAgrees` | kernel/mm/vm.c:42-91 | for every address below MAXVA the translation algorithm finds exactly the leaf entry of its page, or faults |
| `Vm.MappedMeaning` | kernel/mm/vm.c:130 | an entry mappages wrote, readable or executable, sends each address to the same offset of its physical page with these permissions |
| `Vm.KernelVm.Root` | kernel/mm/vm.c:153-160 | a cleared root maps nothing |
| `Vm.KernelVm.Walk` | kernel/mm/vm.c:42-91 | the leaf entry of va, or null exactly when its table is missing; with allocation it is missing only when memory is exhausted; no translation changes |
| `Vm.KernelVm.AddTable` | kernel/mm/vm.c:64-85 | a new table comes from the free list and changes no translation |
| `Vm.KernelVm.StoreInt` | kernel/proc/proc.c:335-338 | a store through an unchecked aligned address writes one half of word addr%4096/8 of its page and nothing else, and keeps free list and page table valid exactly when it spares the links and inner entries; outside the tables it changes no translation |
| `Vm.KernelVm.PlainPageSpares` | kernel/proc/proc.c:335-338 | a store to a page that is neither free nor a table always does |
| `Vm.KernelVm.MapOne` | kernel/mm/vm.c:118-130 | one page: mapped with that translation and no other changed, or the panic exactly when it already was mapped, or no memory |
| `Vm.KernelVm.MapLoop` | kernel/mm/vm.c:116-137 | the loop maps the pages in order and stops at the first that is already mapped, or that needs a table when no page is left; exactly the pages before it have been added |
| `Vm.KernelVm.MapPages` | kernel/mm/vm.c:105-139 | for every range below MAXVA: the panic on size 0; otherwise exactly the first k pages are added to the abstract map, where k is all of them on success, and the next one was mapped already at the remap panic or lacks a table with no page left on -1; it succeeds exactly when no page of the range was mapped and the missing tables fit in the free pages; free pages plus tables conserved |
| `Vm.KernelVm.Kalloc` | kernel/mm/kalloc.c:99-119 | kalloc never hands out a table page and changes no translation |
| `Vm.KernelVm.Kfree` | kernel/mm/kalloc.c:67-87 | kfree of an allocated page changes no translation |
| `Vm.Kvmininit` | kernel/mm/vm.c:152-190 | with seventy free pages and any end of the text segment: the remap panic exactly when that end is not page-aligned, otherwise entry v is 1024*v + 11 (V, R, X) for the text, 1024*v + 7 (V, R, W) for the other four ranges, and 0 elsewhere |
| `Vm.KernelPteIs` | kernel/mm/vm.c:152-190 | those numbers, range by range |
| `Vm.KernelIdentity` | kernel/mm/vm.c:152-190 | the MMU then is the identity on exactly the five ranges, given by their addresses, and faults elsewhere; text can be read and executed but not written, the rest read and written but not executed, and user mode can use none of it |
| `Vm.GrantUser` | kernel/proc/proc.c:171-174 | the |= of userinit changes one entry's permission bits and no other translation |
| `Vm.GrantedMeaning` | kernel/proc/proc.c:171-184 | the page stays at its physical address and its entry ends in 31 (with X) or 23 |
| `Vm.UserIdentity` | kernel/proc/proc.c:171-184 | the MMU lets user mode read and write such a page at its own address, and execute it if X is set |
| `Vm.BootedIdentity` | kernel/proc/proc.c:143-184 | the whole address space of the first process: the identity map of the kernel, in which user mode can use the code page and the stack page and no other |
| `ProcInv.DispatchKeeps` | kernel/proc/proc.c:234-245 | a dispatch keeps the invariant |
| `ProcInv.YieldKeeps` | kernel/proc/proc.c:254-261 | a yield keeps the invariant |
| `ProcInv.SleepKeeps` | kernel/proc/proc.c:266-272 | going to sleep in wait, with a child and no zombie child, keeps the invariant |
| `ProcInv.ExitIs` | kernel/proc/proc.c:294-315 | exit, slot by slot: children handed to slot 0, the parent's sleepers woken, a zombie left |
| `ProcInv.ExitKeeps` | kernel/proc/proc.c:294-315 | an exit keeps the invariant |
| `ProcInv.ZombieIsLeaf` | kernel/proc/proc.c:330-353 | a collected child has no children left and is not slot 0 |
| `ProcInv.CollectKeeps` | kernel/proc/proc.c:333-352 | collecting a child keeps the invariant |
| `ProcInv.WaitKeeps` | kernel/proc/proc.c:323-362 | one pass of wait keeps the invariant |
| `ProcInv.ForkCases` | kernel/proc/proc.c:369-408 | fork changes nothing, or touches one FREE slot and loses a page, or adds one ready child with two pages of its own |
| `ProcInv.ForkedIs` | kernel/proc/proc.c:369-408 | fork written out: -1 exactly when no slot is FREE or fewer than two pages are, otherwise the lowest FREE slot gets the record with the next pid, the first two free pages and the caller as parent |
| `ProcInv.WaitedIs` | kernel/proc/proc.c:323-362 | wait written out for a zombie child, no child, and living children only |
| `ProcInv.ExitedIs` | kernel/proc/proc.c:294-315 | exit written out, slot by slot and field by field |
| `ProcInv.ForkKeeps` | kernel/proc/proc.c:369-408 | fork keeps the invariant on all four exits |
| `ProcInv.StepKeeps` | kernel/proc/proc.c:224-408 | every step keeps the invariant |
| `ProcInv.BootedInv` | kernel/proc/proc.c:143-216 | the state after userinit satisfies it |
| `ProcInv.RunKeeps` | kernel/proc/proc.c:143-408 | it holds in every state of every run |
| `ProcRuns.TreeStays` | kernel/proc/proc.c:294-408 | slot 0 is never FREE, every other live process has a live parent with a smaller pid, live pids are distinct and below nextpid, and slot 0 is the one root |
| `ProcRuns.PagesNeverShared` | kernel/proc/proc.c:340-352 | in every run a page is free, reserved, or a page of exactly one live slot |
| `ProcRuns.OwnedPages` | kernel/proc/proc.c:92-97 | a live slot's two pages exist, differ, and are neither free nor reserved |
| `ProcRuns.SomeoneCanRun` | kernel/proc/proc.c:266-284 | below every sleeper some process can run |
| `ProcRuns.NoVainSleep` | kernel/proc/proc.c:266-362 | in every run a sleeper other than slot 0 has no zombie child, and every sleeper has a READY or RUNNING descendant |
| `ProcRuns.NeverStuck` | kernel/proc/proc.c:224-247 | while any process has not exited, some process can run |
| `ProcRuns.OrphanUnnoticed` | kernel/proc/proc.c:301-309 | exit leaves slot 0 asleep above a zombie exactly when it slept, the caller is not its child, and the caller has a zombie child |
| `ProcRuns.SlotZeroSleepsInVain` | kernel/proc/proc.c:301-309 | a run in which that happens |
| `ProcRuns.ReadyStep` | kernel/proc/proc.c:230-246 | a READY slot stays READY until dispatched, and each other dispatch brings the scheduler's loop closer to it |
| `ProcRuns.FairWait` | kernel/proc/proc.c:230-246 | at most 63 other dispatches come before its own |
| `ProcRuns.EachOnce` | kernel/proc/proc.c:230-246 | no other slot is dispatched twice before it, and they come in the loop's order |
| `ProcRuns.OnlyOneRuns` | kernel/proc/proc.c:237-243 | in every run a slot is RUNNING exactly when it is cpu.proc |
| `ProcRuns.WaitReports` | kernel/proc/proc.c:333-352 | a successful wait reports a zombie child of the caller with the status of its exit, frees the slot and returns both pages |
| `ProcRuns.WaitFails` | kernel/proc/proc.c:357-358 | wait fails exactly when the caller has no child |
| `ProcRuns.ReportedOnce` | kernel/proc/proc.c:323-362 | in every run a pid is reported at most once, with the status its exit recorded |
| `ProcRuns.ExitRecorded` | kernel/proc/proc.c:294-315 | a recorded status was the argument of an exit call of the process with that pid |
| `ProcRuns.EveryReportHasItsExit` | kernel/proc/proc.c:294-362 | in every run each report of wait goes back to an exit call with that pid and that status |
| `ProcTables.ProcTable.Boot` | kernel/proc/proc.c:60-65 | procinit and userinit give the boot state |
| `ProcTables.ProcTable.Userinit` | kernel/proc/proc.c:143-216 | the first process in slot 0 with pid 1, its code and stack pages as user pages at their physical addresses, word 3 (epc) and word 6 (sp) of its trapframe, every other translation unchanged; no panic is reachable |
| `ProcTables.ProcTable.Procinit` | kernel/proc/proc.c:60-65 | every slot becomes FREE |
| `ProcTables.ProcTable.Scheduler` | kernel/proc/proc.c:224-247 | the READY slot at the least distance from the loop's variable, going round, becomes RUNNING; this is the Dispatch step |
| `ProcTables.ProcTable.Yield` | kernel/proc/proc.c:254-261 | the caller becomes READY and the loop goes on after it; this is the Yield step |
| `ProcTables.ProcTable.Wakeup` | kernel/proc/proc.c:277-284 | exactly the sleepers on the channel, other than the caller, become READY |
| `ProcTables.ProcTable.Exit` | kernel/proc/proc.c:294-315 | the caller a zombie with its status, its children handed to slot 0, sleepers on its parent READY, and every other record as before; this is the Exit step |
| `ProcTables.ProcTable.Allocproc` | kernel/proc/proc.c:78-118 | the first FREE slot with a trapframe page, or -1 having used up a pid when there is a slot but no page |
| `ProcTables.ProcTable.Fork` | kernel/proc/proc.c:369-408 | -1 exactly when no slot is FREE or fewer than two pages are; otherwise the child's whole record in the lowest FREE slot, its trapframe the caller's with word 14 (a0) cleared, and no page in use changes; this is the Fork step |
| `ProcTables.ProcTable.Wait` | kernel/proc/proc.c:323-362 | the first zombie child is cleared and its pid returned, or -1 without a child, or the caller sleeps; the status is stored at an aligned nonzero address as one half of word addr%4096/8 of its page, and every other word of every page in use is kept; no translation changes when that page is no table; this is the Wait step |
| `ProcTables.ProcTable.Resume` | kernel/proc/proc.c:266-272 | returning from sleep is one more pass of wait with the address it was called with: the same result, the same store and the same frame |
| `ProcTables.ProcTable.PlainStatusFits` | kernel/proc/proc.c:335-338 | any aligned address in a page that is neither free nor a page table will do for wait |
| `ProcTables.ProcTable.Reap` | kernel/proc/proc.c:334-352 | the child's slot is cleared and both pages are free; no other page and no translation changes |
| `ProcTables.BootKernel` | kernel/boot/main.c:33-53 | seventy-four free pages are enough for kinit, kvmininit and userinit to run without a panic, ending in the kernel's map with two user pages in RAM, whose entries end in 31 and 23 |

## Left out

* Preemption inside a system call and any interleaving of two file-system operations: the code has no locks, so each call, and each stretch between two context switches, is one step.
* Crash consistency: there is no log and writes are not grouped.
* UART, console output, PLIC, boot and CSR set-up, trap entry, and the assembly save and restore of registers; `swtch` is the boundary between steps.
* Feature negotiation, MMIO registers, memory barriers and error completions of the virtio device; the device model always completes with status 0. A block past the end of the device is not handed to it: `Absent` marks where the code would.
* More than one device behind the buffer cache: the cache is attached to one nonzero device, and the lemmas on two devices say what would go wrong.
* File removal and truncation, which the code does not have; `iput` of an inode without links only empties the cache entry, as in the code.
* Preconditions stand for running out of resources where the code panics: free blocks for `bmap`, `writei` and what calls them (`balloc` itself has none), a free inode for `ialloc`, a free cache entry for `iget` when it takes one, a spare buffer for `bget`, a free descriptor for the driver, and enough pages for `kvmininit` and `userinit`.
* `filedup`, the console branch of `sys_read` and the text of console output; `sys_write` to descriptor 1 without a file only returns its count.
* User memory and the copying of paths and buffers from it: paths are NUL-free byte strings and buffers are sequences of bytes.
* 16-bit fields of an inode are kept as bit patterns; the signed reading of `short` is never used by the code modelled.
* Wrap-around of the 32-bit pid counter and of reference counts, and of the `int` counter of `balloc` on disks of 2^31 blocks or more.
* Fields of `struct proc` that nothing modelled reads: `name`, `sz`, `killed`, `pagetable`, and the saved context except for whether the process is inside `wait`.
* The contents of the first program's code page; `userinit`'s page is a page of unspecified bytes.
* `walkaddr`, which is declared but not defined, and `kvminithart`, which only writes a register.
* The idle loop of the scheduler when no slot is READY; `ProcRuns.NeverStuck` says that this needs every process to have exited.
* Pages lost by a failed `fork`: ownership is stated as disjointness, not as the absence of leaks.
* Access permissions, the A and D bits and physical memory attributes in address translation; reserved bits are treated as faults, as section 4.3.2 asks.
- Vm.KernelVm.MapPages: requires the range to end at or below MAXVA, because `walk` panics otherwise.
- ProcTables.ProcTable.Wait: requires the status address to be aligned, in a page above the kernel image, and to spare the links of free pages and the entries of inner page tables (`StatusFits`; `Vm.KernelVm.StoreInt` shows the last to be exactly what validity needs). A store to the kernel image, a device or no memory at all, and a misaligned one, are not modelled.
- ProcTables.ProcTable.Resume: requires the same of the address wait was called with.
- Kalloc.PhysMem.Kfree: requires that the page is not already free, which the code does not test.
- Fs.FileSystem.Bfree: requires the bit to be set, because the code panics otherwise; nothing in the kernel calls it.
- ProcTables.ProcTable.Scheduler: requires a READY slot, because the search would otherwise not end.
