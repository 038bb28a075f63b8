# A teaching kernel, modelled and proved in Dafny

This project models the parts of a small x86 teaching operating system whose correctness is not obvious from any one
function: its block file system and the tool that builds disk images for it, its processes and semaphores, its virtual
memory, a condition variable and the dining philosophers built on semaphores, the heap allocator of its user programs,
the command parser of its shell, and its number conversions. Each part is a set of modules:

| part | modules |
|---|---|
| disk and its cache | `Bytes`, `BlockDevice` |
| block file system | `FsLayout`, `FsInvariant`, `Bitmap`, `FileSystem` |
| directories and paths | `Directory`, `Tree`, `Path`, `PathOps`, `Walk`, `Open`, `Remove`, `PathLaws`, `PathStarts` |
| open files, descriptors, current directories | `FileTable`, `Descriptors`, `DescriptorRuns`, `FileLaws`, `OpenModes` |
| the image builder, and mounting its images | `Image`, `Mkfs`, `Mount` |
| processes, semaphores, wait and exit, scheduling | `Processes`, `ProcessInvariant`, `ProcessTheorems`, `ExitCodes`, `Semaphores`, `Kernel`, `WaitList`, `PooledLists` |
| virtual memory | `PageTables`, `AddressSpaces`, `SpaceOps`, `SpaceCopy`, `SpaceTeardown`, `SpaceRuns`, `VirtualMemory` |
| semaphore protocols | `CondVar`, `SignalBound`, `SignalStuck`, `Philosophers` |
| user heap | `Heap`, `Malloc` |
| shell parser | `ShellGrammar`, `ShellLexer`, `ShellSyntax`, `Shell` |
| number conversion | `Numbers` |
| used everywhere | `Options` |

`dafny verify dfyconfig.toml` checks everything.

## How it is put together

Code that changes things in place is modelled by classes and methods with loops over mutable state: `Device` holds
sectors and cache slots, `Fs` the table of active inodes, `FileTable` the open files, `Descriptors` the descriptor
tables, `Image` the mapped image with its two counters, `Kernel` the process control blocks and semaphores, `WaitLists`
the linked nodes, `VirtualMemory` the pages of memory, `UserHeap` the headers of the heap, and the shell and the number
conversions work on character arrays. Every method is proved against a function or predicate over plain values, and the
theorems are about those: what every operation keeps, what holds over every run, what undoes what.

**File system.** A disk is a sequence of blocks; `Contents(disk, i)` is the byte sequence that inode `i` stands for. The
ghost map `owner` names for every owned block the one inode and position that holds it; `Separated` says that the bitmap
marks exactly the first 64 blocks and the owned ones. `Sized` says that a file has exactly the blocks its size calls
for, so there are no holes. `Fs.Valid` is these together with the agreement of the inode table and the disk, and every
operation keeps it. A directory stands for a finite map (`DirMap`), names being compared as C strings; the ghost map
`links` names for every inode in use, the root aside, the one entry of the one directory that links it (`TreeOk`).
Inodes that are removed but still open are the dead ones: their bytes stay, their number is not issued again.
`FileTable` and `Descriptors` account for every reference: an active inode's count is the number of open files on it
and of current directories in it, a file's count is the number of descriptors that refer to it. `DescriptorRuns` follows
removed inodes over runs of system calls, from the first process on; `FileLaws` and `OpenModes` say what several calls
on one descriptor, and the modes of opening, come to, and `PathStarts` where paths begin.

**Processes.** The interrupt gates of this kernel leave interrupts off, so that a system call is one atomic step up to
the points where it yields, blocks or exits. `Processes` is that state machine, `ProcessInvariant` its invariant, and
`Kernel.Handle` shows that the kernel's own code does exactly its steps. `WaitList` is the doubly linked list the wait
lists are kept in; the state machine itself uses the sequence that such a list holds, and `PooledLists` lets linked
lists follow any run of it.

**Virtual memory.** Memory is an array of pages of 1024 words. The ghost field `use` says what each page is for; `WF`
says that the tables in memory agree with it, so that every page of the kernel heap is free, the kernel's, or in one
place of one address space. `ViewOf` is what a process sees of a page.

**Semaphore protocols.** Every interleaving of any number of threads is a run of single steps, each one semaphore
operation or one access to shared memory. `SignalStuck.SignalExact` gives the numbers of threads for which the producers
and consumers could do with `my_cv_signal`.

**Heap.** Memory is an array of 8-byte units, of which headers use a link and a size; `base` lies below the units that
`sbrk` gave.

**Shell.** The grammar is a set of functions over tokens; the parser's methods work on the line in memory and agree with
them, panics included. `ShellSyntax` is the grammar without a parser: what a line is made of, how it is spelt and what
it means; the parser accepts just the lines that it describes.

## Model

| member | source | states |
|---|---|---|
| `BlockDevice.Device.constructor` | kernel/src/disk.c:59 | with a cold cache over any sectors, cache and disk agree |
| `BlockDevice.Device.CopyFromDisk` | kernel/src/disk.c:36-42 | the eight sectors read are the block |
| `BlockDevice.Device.CopyToDisk` | kernel/src/disk.c:44-50 | the eight sectors written become the block, and no sector of another block changes |
| `BlockDevice.Device.BgetCache` | kernel/src/disk.c:61-69 | the one slot a block can be in holds it afterwards; every valid slot still equals the disk, whatever block was there before |
| `BlockDevice.Device.Bread` | kernel/src/disk.c:71-76 | the bytes that the disk holds, through the direct-mapped cache |
| `BlockDevice.Device.Bwrite` | kernel/src/disk.c:78-84 | the disk has the block with the bytes patched in, no other block changes, and every valid slot equals the disk |
| `BlockDevice.Device.Bzero` | kernel/src/disk.c:86-90 | the block is zero on disk and in its slot |
| `Bytes.WordBit` | kernel/src/fs.c:193-233 | little-endian agreement: bit j of a 32-bit word is bit j % 8 of its byte j / 8, so the words of `balloc` and the bytes of `bfree` are one set of bits |
| `Bytes.DecPatchEnc` | kernel/src/fs.c:154-160 | words written into a block at any place are read back from there |
| `Bytes.BitOfSetBit` | kernel/src/fs.c:205-212 | or-ing in `1 << j` sets bit j and no other |
| `Bytes.BitOfClearBit` | kernel/src/fs.c:217-228 | and-ing with `~(1 << j)` clears bit j and no other |
| `FsLayout.DinodeOfWrite` | kernel/src/fs.c:150-160 | writing one dinode changes that dinode and none of its neighbours in the block |
| `FsLayout.SameFileSame` | kernel/src/fs.c:418-452 | a file whose dinode and own blocks are untouched has the same bytes and the same shape |
| `Bitmap.BitmapWordBit` | kernel/src/fs.c:193-215 | bit m of word i of the bitmap is the bit of block 32 * i + m |
| `Bitmap.AllOnesWord` | kernel/src/fs.c:193-215 | a word of all ones, which `balloc` skips, has no free block |
| `Bitmap.NotAllOnes` | kernel/src/fs.c:193-215 | any other word has one |
| `Bitmap.SetBitInWord` | kernel/src/fs.c:193-215 | the word that `balloc` writes back marks its block and changes no other bit of the bitmap |
| `Bitmap.ClearBitInByte` | kernel/src/fs.c:217-228 | the byte that `bfree` writes back unmarks its block and changes no other bit of the bitmap |
| `FsInvariant.Untouched` | kernel/src/fs.c:418-452 | separation gives framing: what is written to blocks of other files does not change a file |
| `FsInvariant.AllocKeeps` | kernel/src/fs.c:193-215 | a block just allocated belongs to nobody, and no file changes |
| `FsInvariant.LinkDinode` | kernel/src/fs.c:418-434 | a zeroed block linked in a dinode slot keeps the bitmap and the ownership exact, and a recycled index block revives no stale entry |
| `FsInvariant.LinkEntry` | kernel/src/fs.c:435-451 | a block linked in an entry of the index block keeps them exact, too |
| `FsInvariant.DataWrite` | kernel/src/fs.c:481-511 | writing inside a data block changes that block of that file and nothing of any other file |
| `FsInvariant.FreeFile` | kernel/src/fs.c:513-537 | clearing the bits of all blocks of a file and writing back its emptied dinode keeps bitmap and ownership exact |
| `FileSystem.Fs.constructor` | kernel/src/fs.c:146-148 | the super block is read; over an image that satisfies the invariant the kernel starts in it, with no inode active |
| `FileSystem.Fs.Dialloc` | kernel/src/fs.c:162-184 | the first free inode, marked with the type and otherwise zero on disk |
| `FileSystem.Fs.Difree` | kernel/src/fs.c:186-191 | the dinode is all zeros on disk |
| `FileSystem.Fs.Balloc` | kernel/src/fs.c:193-215 | the first block whose bit is clear, now zero and marked; no other block and no other bit changes |
| `FileSystem.Fs.Bfree` | kernel/src/fs.c:217-228 | exactly the bit of the block is cleared |
| `FileSystem.FreeBlockExists` | kernel/src/fs.c:193-215 | while fewer blocks are owned than the disk has for data, `balloc` finds one |
| `FileSystem.Fs.Iget` | kernel/src/fs.c:235-257 | the one slot of an active inode is shared, else the first free slot is loaded from disk; two slots never hold the same inode |
| `FileSystem.Fs.Iwalk` | kernel/src/fs.c:418-451 | the k-th block of a file; the next one after the last is allocated zeroed, with an index block where needed, and every other file stays as it is |
| `FileSystem.Fs.Iread` | kernel/src/fs.c:454-478 | exactly the slice of the contents clipped at the size, -1 for every offset beyond the end whatever the length, and nothing on disk changes |
| `FileSystem.ClipExact` | kernel/src/fs.c:454-465 | the clip in 32-bit arithmetic is the right one if and only if off + len does not wrap |
| `FileSystem.Fs.Iwrite` | kernel/src/fs.c:481-511 | the contents become old[..off] + buf + old[off + n..], n is returned, -1 beyond the end; all other files are unchanged; the blocks taken are exactly those the new size calls for |
| `FileSystem.Fs.Itrunc` | kernel/src/fs.c:513-537 | exactly the blocks that the file owned are freed, its contents are empty, and all other files are unchanged |
| `FileSystem.Fs.Idup` | kernel/src/fs.c:539-543 | one more reference to the same slot |
| `FileSystem.Fs.Iclose` | kernel/src/fs.c:545-552 | the last close of a deleted inode frees the inode and all its blocks, any other leaves the disk as it is |
| `FileSystem.Fs.Active` | kernel/src/fs.c:136-141 | a slot in use holds an allocated inode, and its dinode in memory equals that on disk |
| `Directory.CStrOfCopy` | kernel/src/fs.c:298-357 | a name copied over old bytes is, as a C string, that name, whatever follows the NUL |
| `Directory.LookupIsMap` | kernel/src/fs.c:317-343 | scanning the entries finds what the finite map of the directory says |
| `Directory.BindAdds` | kernel/src/fs.c:344-357 | an entry written at a free place adds exactly one binding, and names stay unique |
| `Directory.UnbindRemoves` | kernel/src/fs.c:620-623 | clearing an entry removes exactly its binding |
| `Tree.CreateKeepsTree` | kernel/src/fs.c:344-357 | after a creation every inode in use is still named by exactly one entry of one directory, and every entry names an inode in use |
| `Tree.RemoveKeepsTree` | kernel/src/fs.c:593-628 | so it is after a removal |
| `Tree.AsideKeepsTree` | kernel/src/fs.c:545-552 | a change to one file that is no directory leaves the tree alone |
| `Tree.EntryAlive` | kernel/src/fs.c:317-343 | no entry of a linked directory names a free inode |
| `Path.SkipElem` | kernel/src/fs.c:279-296 | the next component, cut to 27 bytes, and the rest of the path without leading slashes |
| `Path.ComponentsAreNames` | kernel/src/fs.c:279-296 | every component of a path can be a name in a directory |
| `PathOps.Idirinit` | kernel/src/fs.c:298-310 | a new directory holds `.` and `..`, naming itself and its parent |
| `PathOps.FindEntry` | kernel/src/fs.c:317-343 | the scan gives the entry that binds the name, or says that none does and where a new one goes |
| `PathOps.CreateEntry` | kernel/src/fs.c:344-357 | a fresh inode, bound to the name in the parent and nowhere else; a new directory has its two entries; no other file changes |
| `PathOps.Ilookup` | kernel/src/fs.c:317-357 | the inode bound to the name, opened, or one created under it; the invariant and the tree are kept |
| `Walk.Descend` | kernel/src/fs.c:359-395 | one step of a walk: the next inode is held, the reference to the directory is given back |
| `Walk.IopenParent` | kernel/src/fs.c:359-395 | the directory that holds the last component, from where the path starts, is opened, and every other reference taken on the way is given back |
| `Open.Iopen` | kernel/src/fs.c:397-416 | the inode that the components lead to is opened; if there is none and a type is given, one is created in the parent; else nothing changes; no other reference is left |
| `Open.ResolveLast` | kernel/src/fs.c:397-416 | a path leads where its last component leads from the directory that the others lead to |
| `Remove.Idirempty` | kernel/src/fs.c:579-591 | whether any entry but the first two is in use |
| `Remove.Iremove` | kernel/src/fs.c:593-628 | 0 and exactly one binding less if the path names a file, or an empty directory, under a name other than `.` and `..`; else -1 and nothing changes; an open inode keeps its bytes and is marked, one that is not open is freed with all its blocks |
| `PathLaws.ResolveGrows` | kernel/src/fs.c:359-416 | added bindings never change where a path leads that leads somewhere |
| `PathLaws.CreatedIsFound` | kernel/src/fs.c:397-416 | the file that opening a path created is where the path leads from then on, and every path that led somewhere still leads there |
| `PathLaws.RemovedIsGone` | kernel/src/fs.c:593-628 | after a removal the path leads nowhere, and no path comes to lead anywhere else than before |
| `PathStarts.ComponentsJoin` | kernel/src/fs.c:273-296 | the components of q, a slash and p are those of q and then those of p |
| `PathStarts.OneComponent` | kernel/src/fs.c:273-296 | a name without a slash is one component, of which the first 27 bytes count |
| `PathStarts.OpensHere` | kernel/src/fs.c:359-416 | opening a plain name opens what the current directory binds it to, or binds it there to a new inode |
| `PathStarts.UnlinksHere` | kernel/src/fs.c:593-628 | removing a plain name removes it from the current directory, if it is no dot and bound to a file or an empty directory, else -1 and nothing changes |
| `PathStarts.UnlinksInRoot` | kernel/src/fs.c:593-628 | with a slash before it, from the root |
| `PathStarts.BareIffRemovable` | kernel/src/fs.c:579-591 | a directory can be removed if and only if its only names are `.` and `..` |
| `PathStarts.DotLeadsHere` | kernel/src/fs.c:298-312 | `.` leads back to the directory it is in, and `..` of the root to the root |
| `PathStarts.DotDotLeadsBack` | kernel/src/fs.c:298-312 | down into any directory and `..` is back where it was |
| `PathStarts.FromRoot` | kernel/src/fs.c:364-368 | an absolute path is opened as what follows its slash is from the root |
| `PathStarts.AnyDirectory` | kernel/src/fs.c:364-368 | and so it is whatever the current directory is |
| `PathStarts.AnyRemover` | kernel/src/fs.c:364-368 | an absolute path is removed the same, whoever removes it |
| `PathStarts.ChangedTo` | kernel/src/syscall.c:320-333 | a successful chdir leaves the process where the path led, and at most frees the removed directory that it left |
| `PathStarts.ChdirThenOpen` | kernel/src/syscall.c:320-333 | after changing to q, a relative path p leads where q + "/" + p led before |
| `FileTable.FileTable.constructor` | kernel/src/file.c:6 | with no file open every reference to an active inode is another holder's |
| `FileTable.FileTable.Falloc` | kernel/src/file.c:8-19 | the first file that is not in use, or none |
| `FileTable.FileTable.Fopen` | kernel/src/file.c:21-75 | the file refers to the inode opened unless the mode is refused; an emptied file has lost its bytes; a device keeps no reference to its inode; on failure nothing is held |
| `FileTable.FileTable.Fread` | kernel/src/file.c:77-93 | the bytes from the offset on, as many as asked for and there are, and the offset moves by just as many; -1 and no move from any offset beyond the end |
| `FileTable.FileTable.Fwrite` | kernel/src/file.c:95-111 | the bytes go in at the offset, which moves by just as many; no other inode changes |
| `FileTable.FileTable.WritableFile` | kernel/src/file.c:43-69 | what is open for writing is a plain file, so no directory is ever written through a file |
| `FileTable.FileTable.Fseek` | kernel/src/file.c:113-136 | the new offset is the 32-bit sum with 0, the old offset or the size; a device keeps none; no other file changes |
| `FileTable.SoughtWithin` | kernel/src/file.c:113-136 | from within the file the new offset stays within its size if and only if this holds of the offset asked for: for each way of seeking the exact range, wrap-around included |
| `FileTable.SoughtBeyond` | kernel/src/file.c:113-136 | each way of seeking can cross the size |
| `FileTable.FileTable.Fdup` | kernel/src/file.c:138-143 | one more reference to the file, none more to its inode |
| `FileTable.FileTable.Fclose` | kernel/src/file.c:145-152 | the last close gives the inode back: if it was deleted and this was its last reference, it and all its blocks are freed |
| `FileTable.FileTable.Release` | kernel/src/fs.c:545-552 | a holder that is no file gives its reference back, and every open file keeps its inode |
| `FileTable.FileTable.Unlink` | kernel/src/fs.c:593-628 | unlinking leaves every open file and the inode it refers to as they were |
| `FileTable.FileTable.FileInUse` | kernel/src/file.c:57-60 | an open disk file keeps its inode active, so its number is not issued again |
| `FileTable.ClosedKeeps` | kernel/src/fs.c:545-552 | closing one inode leaves all inodes that stay active as they were |
| `FileTable.ClosedDrops` | kernel/src/fs.c:545-552 | a close loses exactly the deleted inode it was the last to refer to, if it was, with exactly its blocks |
| `FileTable.DroppedTwice` | kernel/src/fs.c:545-552 | so do any number of closes one after another |
| `FileTable.LastClose` | kernel/src/fs.c:545-552 | the last close of a deleted inode takes it from the dead and leaves the tree alone |
| `FileTable.UsersUpdate` | kernel/src/file.c:145-152 | how changing one file changes the number of open files on each inode |
| `FileTable.AfterWrite` | kernel/src/file.c:95-111 | writing through a file keeps the tree and the references of all files |
| `Descriptors.FdChanged` | kernel/src/syscall.c:236-284 | changing one descriptor keeps every file's count equal to the descriptors that refer to it |
| `Descriptors.CwdChanged` | kernel/src/syscall.c:319-333 | changing one current directory keeps the references of active inodes equal to the open files and current directories on them |
| `Descriptors.HeldInUse` | kernel/src/proc.c:200-218 | what a live process refers to is in use |
| `Descriptors.DeadCounts` | kernel/src/proc.c:143-161 | the entries that a zombie keeps in its table count for nothing |
| `Descriptors.Descriptors.AllocFile` | kernel/src/proc.c:200-209 | the lowest free descriptor, or -1 |
| `Descriptors.Descriptors.GetFile` | kernel/src/proc.c:211-218 | the file of a descriptor, none if it is out of range |
| `Descriptors.Descriptors.SysOpen` | kernel/src/syscall.c:237-251 | the lowest free descriptor refers to the file that was opened by path as `fopen` says; without a free descriptor or file nothing changes at all; on any other failure no descriptor and no file changes, and every reference is given back |
| `Descriptors.Descriptors.SysClose` | kernel/src/syscall.c:254-265 | exactly the descriptor is cleared, its file has one reference less and keeps its other fields; the file system is as it was unless this was the last reference to a disk file, whose inode is then given back; -1 and no change without a file |
| `Descriptors.Descriptors.SysDup` | kernel/src/syscall.c:269-284 | the lowest free descriptor refers to the same file, which has one reference more and keeps its offset; every other file and the file system are as they were; -1 and no change otherwise |
| `Descriptors.Descriptors.SysChdir` | kernel/src/syscall.c:320-333 | the process is in the directory that the path leads to and the old one is given back; else -1, with the disk and all references as they were |
| `Descriptors.Descriptors.SysUnlink` | kernel/src/syscall.c:336-338 | the file the path names from the current directory is removed as `iremove` says; no descriptor, no open file and no current directory changes |
| `Descriptors.Descriptors.ForkFiles` | kernel/src/proc.c:117-125 | the child holds what the parent holds; each file counts exactly its descriptors more and keeps its other fields, the directory's inode one more, and the disk is as it was |
| `Descriptors.Descriptors.ExitFiles` | kernel/src/proc.c:150-160 | each file loses exactly the references of the process and keeps its other fields; of all inodes just those are freed that were deleted and held by nobody else, with exactly their blocks |
| `Descriptors.Descriptors.BootFiles` | kernel/src/proc.c:12-23 | a process with an empty table in the root; the disk is as it was, the inode of the root has one reference more |
| `Descriptors.Descriptors.ClearFiles` | kernel/src/proc.c:42-48 | a slot that is not in use gets an empty table, and no count changes |
| `Descriptors.Descriptors.CopyFiles` | kernel/src/proc.c:107-126 | copying the table of a process counts each file once for each of its descriptors |
| `Descriptors.Descriptors.SysRead` | kernel/src/syscall.c:48-58 | what the file of the descriptor gives; its offset moves and nothing else changes |
| `Descriptors.Descriptors.SysWrite` | kernel/src/syscall.c:35-45 | what the file of the descriptor takes; its offset moves, and all references are as they were |
| `Descriptors.Descriptors.SysLseek` | kernel/src/syscall.c:287-296 | the offset of the file of the descriptor, and nothing else |
| `FileLaws.TwoReads` | kernel/src/file.c:77-93 | two reads, through one descriptor or through two that share their file, give together what one read of both lengths gives, and leave everything as it does |
| `FileLaws.DupShares` | kernel/src/syscall.c:269-284 | a duplicate shares its file, and so its offset, with the descriptor it was made from |
| `FileLaws.ForkShares` | kernel/src/proc.c:117-122 | so does every descriptor of a child with that of its parent |
| `FileLaws.TwoWrites` | kernel/src/file.c:95-111 | two writes leave every file and the offset as one write of all the bytes does |
| `FileLaws.ReadBack` | kernel/src/file.c:77-136 | what was written is read again after seeking back, from the start or by a negative distance from where the write ended |
| `FileLaws.SeekNothing` | kernel/src/file.c:113-136 | seeking by nothing gives 0 from the start, the old offset from the current one, the size from the end |
| `FileLaws.AppendAtEnd` | kernel/src/file.c:95-136 | after seeking to the end a write appends |
| `OpenModes.OpensBound` | kernel/src/file.c:21-75 | a bound name is opened unless O_DIR meets a plain file, or writing or O_TRUNC a directory; with O_TRUNC a plain file is empty; the file starts at offset 0 and can be read and written as the mode says; nothing else changes |
| `OpenModes.OpensNothing` | kernel/src/file.c:32-47 | a free name without O_CREATE is not opened, and nothing changes |
| `OpenModes.OpensNew` | kernel/src/file.c:32-75 | a free name with O_CREATE is bound to a new and empty plain file, with O_DIR to a new directory |
| `DescriptorRuns.Handle` | kernel/src/syscall.c:35-338 | the kernel carries out every call on descriptors and paths and makes one step of a run, which keeps the whole invariant |
| `DescriptorRuns.ActiveIffHeld` | kernel/src/fs.c:235-257 | an inode is active if and only if some live process has it open or as its current directory |
| `DescriptorRuns.ResolveAlive` | kernel/src/fs.c:359-416 | a path from a linked directory never leads to a removed inode |
| `DescriptorRuns.UnlinkRemoves` | kernel/src/fs.c:593-628 | an inode that is unlinked while some live process holds it is marked and keeps its bytes; one that nobody holds is freed at once |
| `DescriptorRuns.StepDeletion` | kernel/src/fs.c:545-552 | any call but a write to it: a removed inode that is still held keeps its number and its bytes; the call after which nobody holds it frees it, and the blocks freed are exactly those of the inodes that went |
| `DescriptorRuns.RunKeepsHeld` | kernel/src/fs.c:545-628 | over any run of open, dup, close, read, write, seek, chdir, fork, exit, unlink and new processes, a removed inode keeps its number and its bytes as long as some live process holds it and nobody writes to it |
| `DescriptorRuns.RunFreesLast` | kernel/src/proc.c:143-161 | in any such run the call after which nobody holds it frees it, and the blocks freed are exactly those of the inodes that nobody holds any more |
| `Image.Image.constructor` | utils/mkfs.c:109-121 | zeros behind the boot sector and the kernel |
| `Image.Image.Balloc` | utils/mkfs.c:149-155 | the next block, which is zero and nobody's, is marked; no other bit changes |
| `Image.Image.Ialloc` | utils/mkfs.c:157-164 | the next inode becomes an empty file of the given type, no other file changes |
| `Image.Image.Iwalk` | utils/mkfs.c:166-196 | the k-th block of a file, allocated if it is the next one, with the index block where needed |
| `Image.Image.Iappend` | utils/mkfs.c:198-218 | the bytes are at the end of the file, no other file changes, and just the blocks that the size calls for are taken |
| `Image.SetBitInByte` | utils/mkfs.c:149-155 | the byte written to the bitmap marks the block in the sense of the kernel's bitmap words |
| `Image.AppendedTwice` | utils/mkfs.c:198-218 | appending in pieces is appending the whole |
| `Mkfs.FormattedOk` | utils/mkfs.c:129-136 | an image of zeros with two bitmap words of ones has no file, no block owned, and exactly the first 64 blocks marked |
| `Mkfs.InitDisk` | utils/mkfs.c:129-147 | the super block is the one the kernel expects, the root holds `.` and `..`, and the kernel's file-system invariant holds |
| `Mkfs.EntryAdded` | utils/mkfs.c:227-233 | the root has exactly one binding more, to an empty file, and the tree is a tree |
| `Mkfs.NamesApart` | utils/mkfs.c:227-233 | two names of the root are bound to two inodes |
| `Mkfs.AddFile` | utils/mkfs.c:221-243 | the root has a file of this name with these bytes, and all the files it had are as they were |
| `Mount.MakeImage` | utils/mkfs.c:109-127 | for any files with distinct short names that fit, the image holds exactly these files and satisfies the kernel's invariant |
| `Mount.RootPath` | kernel/src/fs.c:279-296 | "/" and a file name are a path of that one component |
| `Mount.FoundByName` | kernel/src/fs.c:359-416 | in an image that mkfs filled "/name" leads to a plain file with the bytes given for the name |
| `Mount.MountImage` | kernel/src/fs.c:146-148 | the kernel mounts the image: its invariant holds and nothing is open |
| `Mount.ReadByName` | kernel/src/fs.c:397-478 | `iopen("/name")` and `iread` from the start give the bytes that mkfs was given |
| `Mount.RoundTrip` | utils/mkfs.c:109-243 | all of it at once: build, copy to a disk, mount, open by name, read; the result is the original file |
| `ProcessInvariant.StepInv` | kernel/src/proc.c:25-178 | whatever the running process does, no assertion fails and the invariant of processes, families, semaphores and wait lists is kept |
| `ProcessInvariant.SemPUserKeeps` | kernel/src/sem.c:11-20 | P keeps it: a list is as long as the value is negative, nobody waits twice |
| `ProcessInvariant.SemVUserKeeps` | kernel/src/sem.c:23-31 | V keeps it, and there is someone to wake where the value says so |
| `ProcessInvariant.ExitKeeps` | kernel/src/proc.c:128-161 | exit keeps it: the parent is told, children are orphaned, semaphores are closed, reused slots get no strangers for children |
| `ProcessInvariant.ForkKeeps` | kernel/src/proc.c:96-126 | fork keeps it |
| `ProcessInvariant.ReapKeeps` | kernel/src/syscall.c:167-176 | the second half of wait keeps it |
| `ProcessInvariant.ZombieThere` | kernel/src/syscall.c:166-168 | a process that goes on in `sys_wait` has a zombie child to find |
| `ProcessInvariant.ScheduleKeeps` | kernel/src/proc.c:222-243 | `schedule` always finds a ready process, because the idle one never blocks |
| `ProcessInvariant.RecycledIsEmpty` | kernel/src/sem.c:36-48 | a user semaphore nobody has open has no waiters |
| `ProcessTheorems.InitInv` | kernel/src/proc.c:12-23 | the invariant holds at the start |
| `ProcessTheorems.RunSafe` | kernel/src/syscall.c:130-180 | in every run of fork, exit, wait, yield and the semaphore calls nothing ever fails; the assertion in `sys_wait` holds |
| `ProcessTheorems.WaitReaps` | kernel/src/syscall.c:155-180 | `sys_wait` hands back a child of the caller that has exited and forgets just that one |
| `ProcessTheorems.WaiterHasChild` | kernel/src/syscall.c:155-180 | a process blocked in `sys_wait` has a child alive, which will wake it |
| `ProcessTheorems.ForkedChild` | kernel/src/proc.c:96-126 | a fork leaves a ready child with a number of its own and the semaphores that its parent has open, and changes nobody else |
| `ExitCodes.StepKept` | kernel/src/proc.c:96-161 | every step keeps the numbers of processes and the codes of those that have exited; a process dies only by its own exit |
| `ExitCodes.CodeComesBack` | kernel/src/syscall.c:155-180 | in every run: whenever `sys_wait` hands back the number of a process that exited, it hands back the code that it exited with |
| `ExitCodes.HandedBackExited` | kernel/src/syscall.c:155-180 | whatever `sys_wait` hands back, a process with that number exited with that code before |
| `Semaphores.Moves` | kernel/src/sem.c:11-48 | P and V move the value of the semaphore under their number by one, opening sets it, nothing else moves any |
| `Semaphores.PWaits` | kernel/src/sem.c:11-20 | P goes on if and only if the value is positive; else it waits, last in the list |
| `Semaphores.VWakes` | kernel/src/sem.c:23-31 | V makes the process ready that waited longest, if one waits, and nobody else |
| `Semaphores.Closes` | kernel/src/syscall.c:223-234 | closing gives up the number and one reference, and nothing else |
| `Semaphores.NoNumber` | kernel/src/syscall.c:199-234 | without such a number P, V and close do nothing |
| `Semaphores.Balance` | kernel/src/sem.c:11-31 | over any run the value of an open semaphore is what it was, and the V's less the P's since |
| `Semaphores.NoneTooMany` | kernel/src/sem.c:11-31 | over any run no more P's are through than the value at the start and the V's since allow; exactly as many while somebody waits |
| `ProcessTheorems.BlockedIffWaiting` | kernel/src/sem.c:11-31 | a process is BLOCKED if and only if it is in a wait list, and it is in one place of one list |
| `ProcessTheorems.StepQueues` | kernel/src/sem.c:11-31 | wakeups are first come, first served: in every step a process joins a list at its end, or the first leaves it |
| `ProcessTheorems.OpenThenV` | kernel/src/sem.c:36-48 | a V on a semaphore just opened finds someone to wake where the code looks for one, if and only if the initial value is not negative |
| `ProcessTheorems.PoolLasts` | kernel/klib/list.c:3-29 | at most 63 list nodes are ever in use, so the pool of 256 never runs out |
| `ProcessTheorems.ScheduleProgress` | kernel/src/proc.c:222-243 | `schedule` ends within 64 probes; a ready process runs or comes closer to its turn |
| `ProcessTheorems.ReadyRuns` | kernel/src/proc.c:222-243 | no process stays ready over 64 calls of `schedule` in any run |
| `Kernel.Kernel.P` | kernel/src/sem.c:11-20 | the value falls; if it is negative the caller is last in the list and blocked |
| `Kernel.Kernel.V` | kernel/src/sem.c:23-31 | the value rises; if someone waited, the one that came first is ready |
| `Kernel.Kernel.UsemAlloc` | kernel/src/sem.c:36-48 | the first unused user semaphore, initialised, or none |
| `Kernel.Kernel.ProcAlloc` | kernel/src/proc.c:25-55 | the first unused slot but slot 0, with every field set |
| `Kernel.Kernel.SysFork` | kernel/src/syscall.c:130-139 | the child is a ready copy of its parent, with a number of its own; -1 and no change if no slot is free |
| `Kernel.Kernel.FindZombieChild` | kernel/src/proc.c:163-172 | the first zombie child of the caller, or none |
| `Kernel.Kernel.SysExit` | kernel/src/syscall.c:143-151 | the whole step of exit, and the next process running |
| `Kernel.Kernel.SysWait` | kernel/src/syscall.c:155-176 | -1 exactly without children; the number and exit code of an exited child of the caller, which is forgotten, if there is one; else the caller blocks |
| `Kernel.Kernel.SysResume` | kernel/src/syscall.c:166-176 | a caller that was blocked gets the number and exit code of an exited child of its own, which is forgotten |
| `Kernel.Kernel.SysSemOpen` | kernel/src/syscall.c:183-197 | the first free entry of the caller's table, whose index is returned, gets the first unused semaphore with this value; -1 and no change if there is none of either |
| `Kernel.Kernel.SysSemP` | kernel/src/syscall.c:199-209 | P on the semaphore of an entry, and 0; -1 and no change without one |
| `Kernel.Kernel.SysSemV` | kernel/src/syscall.c:211-221 | V on the semaphore of an entry, or -1 |
| `Kernel.Kernel.SysSemClose` | kernel/src/syscall.c:223-234 | one reference less, the entry is free |
| `Kernel.Kernel.Probe` | kernel/src/proc.c:230-241 | the loop of `schedule` ends, at the first ready slot going round |
| `Kernel.Kernel.Handle` | kernel/src/syscall.c:125-234 | the kernel carries out every event without failing and in finite time, does the step of the state machine, and keeps the invariant |
| `WaitList.AddNextKeeps` | kernel/klib/list.c:9-14 | relinking puts the node after the head of its ring and leaves every other ring as it is |
| `WaitList.RemovePrevKeeps` | kernel/klib/list.c:16-22 | relinking takes out the node before the head, and nothing else |
| `WaitList.WaitLists.constructor` | kernel/klib/list.c:24-37 | the pool is all in the free list, every list is empty |
| `WaitList.WaitLists.Empty` | kernel/klib/list.c:39-41 | whether a list holds nothing |
| `WaitList.WaitLists.Enqueue` | kernel/klib/list.c:43-48 | the value comes last in its list, no other list changes, one node less is free |
| `WaitList.WaitLists.Dequeue` | kernel/klib/list.c:50-58 | the value that came first, whose node is free again; nothing from an empty list |
| `WaitList.WaitLists.Conserved` | kernel/klib/list.c:5-6 | nodes are conserved: those free and those in use are always the 256 of the pool |
| `PooledLists.StepLists` | kernel/src/sem.c:11-31 | every event does to the wait lists of the state machine just the one list operation that the kernel calls in it |
| `PooledLists.PoolIsEnough` | kernel/klib/list.c:3-29 | when the linked lists are the wait lists of the state machine, at most 63 nodes of the 256 are in use and all others are in the free list |
| `PooledLists.Follow` | kernel/src/sem.c:8-31 | an event on linked nodes: a free node is there when one is needed, the process woken is the one the state machine wakes, and the linked lists go on to be its wait lists |
| `PooledLists.FollowRun` | kernel/klib/list.c:3-58 | so over every run from the start: no more than 63 nodes are ever in use and none is lost |
| `VirtualMemory.VirtualMemory.constructor` | kernel/src/vme.c:33-69 | the kernel's tables map physical memory to itself but for page 0, the kernel heap is one free list, and the heap is shared out |
| `VirtualMemory.VirtualMemory.Kalloc` | kernel/src/vme.c:71-85 | the head of the free list, zeroed, for the use it is meant for |
| `VirtualMemory.VirtualMemory.Kfree` | kernel/src/vme.c:87-103 | the page is the new head of the free list |
| `VirtualMemory.VirtualMemory.VmAlloc` | kernel/src/vme.c:106-121 | a directory with the kernel's tables and nothing else |
| `VirtualMemory.VirtualMemory.WalkPte` | kernel/src/vme.c:150-189 | the entry of a page, with a table made, or the directory entry's flags widened, if asked to map |
| `VirtualMemory.VirtualMemory.VmMap` | kernel/src/vme.c:214-251 | every page that holds a byte of [va, va + len) is mapped with the flags asked for, the last and partly covered one too, and every page that holds none is seen as before |
| `VirtualMemory.VirtualMemory.VmUnmap` | kernel/src/vme.c:253-281 | no page that holds a byte of the range is mapped, and every page that holds none is seen as before |
| `VirtualMemory.MappedBytes` | kernel/src/vme.c:214-226 | mapping the pages from PAGE_DOWN(va) to PAGE_UP(va + len) is mapping the pages of the bytes of [va, va + len) |
| `VirtualMemory.GoneBytes` | kernel/src/vme.c:253-260 | so it is for unmapping |
| `VirtualMemory.VirtualMemory.VmCopyCurr` | kernel/src/vme.c:283-300 | the new directory is a copy of the current one between the kernel's memory and the top of user memory |
| `VirtualMemory.VirtualMemory.VmTeardown` | kernel/src/vme.c:123-143 | directory, tables and pages of the address space are free |
| `PageTables.MakeCovered` | kernel/src/vme.c:150-189 | an entry made with flags that the directory entry has is covered by it |
| `AddressSpaces.ViewPlain` | kernel/src/vme.c:150-189 | what a process sees of a page are the page table's own flags: the directory entry takes nothing away; and each page seen is a frame of its own |
| `AddressSpaces.MapPageMaps` | kernel/src/vme.c:226-250 | mapping a page adds the flags to those it had, a new page is zero, exactly the free pages needed are taken, nothing else in any address space changes |
| `AddressSpaces.MapRangeMaps` | kernel/src/vme.c:214-251 | so it is for a whole range |
| `SpaceOps.UnmapPageUnmaps` | kernel/src/vme.c:260-280 | unmapping a page frees its frame and changes nothing else |
| `SpaceOps.StoreIsPrivate` | kernel/src/vme.c:283-300 | a store is seen in one word of one page of the process that makes it, and by nobody else |
| `SpaceOps.FramesApart` | kernel/src/vme.c:214-251 | no two places of any address spaces share a frame |
| `SpaceCopy.UnmapRangeUnmaps` | kernel/src/vme.c:253-281 | unmapping a range frees every page that was mapped there, and clears nothing else |
| `SpaceCopy.CopyPageCopies` | kernel/src/vme.c:287-299 | a page copied has the same flags and content, and nothing else changes |
| `SpaceCopy.ForkCopies` | kernel/src/vme.c:283-300 | the child sees the same user pages as its parent, with equal flags and contents; nothing changes for anyone else; just the free pages this needs are taken |
| `SpaceCopy.ForkIsolates` | kernel/src/vme.c:283-300 | the first store after a fork, by either process, is invisible to the other |
| `SpaceTeardown.AllocDirMakes` | kernel/src/vme.c:106-121 | a new address space has no user page, and no other changes |
| `SpaceTeardown.TeardownRemoves` | kernel/src/vme.c:123-143 | teardown gives back exactly what the address space took, and touches no other |
| `SpaceTeardown.IdentityMapped` | kernel/src/vme.c:41-60 | in every address space the kernel finds physical memory at its own address, and address 0 unmapped |
| `SpaceRuns.ApplyKeeps` | kernel/src/vme.c:71-300 | after every operation each page is free, the kernel's, or in exactly one place of one address space |
| `SpaceRuns.RunKeeps` | kernel/src/vme.c:71-300 | so it is after every run of operations |
| `SpaceRuns.TablesKept` | kernel/src/vme.c:41-60 | no operation touches the kernel's own tables |
| `SpaceRuns.RunLocal` | kernel/src/vme.c:106-300 | a run of operations on one address space is not noticed by any other |
| `SpaceRuns.OwnStores` | kernel/src/vme.c:106-300 | while others do whatever they do, what a process sees changes by its own stores alone |
| `SpaceRuns.RunIsolates` | kernel/src/vme.c:283-300 | after a fork, over any run of stores by both and of anything that others do: parent and child each see the page as the parent had it with exactly their own stores |
| `SpaceRuns.LifeLeavesNoTrace` | kernel/src/vme.c:106-143 | an address space made, used in any way and torn down leaves every page in the use it was in and every other address space as it was |
| `CondVar.StepInv` | lab/lab8/condition_sem.c:79-183 | every step of every thread keeps the invariant of the handshake |
| `CondVar.RunSafe` | lab/lab8/condition_sem.c:79-183 | in every interleaving: whenever `cv.lock` is free, `sleep` and `handshake` are 0 and `nwait` counts the threads between their increment and P(sleep); 0 <= cnt <= BUF_SIZE; both assertions hold; the mutex excludes |
| `CondVar.NoDeadlock` | lab/lab8/condition_sem.c:143-183 | with the program's broadcast some thread can always take a step |
| `CondVar.BroadcastWakesAll` | lab/lab8/condition_sem.c:123-132 | a broadcast wakes exactly the threads that wait when it takes the lock, and no late waiter steals a wakeup |
| `CondVar.SignalWakesOne` | lab/lab8/condition_sem.c:110-121 | a signal wakes exactly one of them, if there is one |
| `SignalBound.StepFew` | lab/lab8/condition_sem.c:110-121 | with `my_cv_signal` and at most twice as many threads as places, every step keeps the bound on how many threads have given up for what is in the buffer |
| `SignalBound.SignalSafe` | lab/lab8/condition_sem.c:110-183 | then no run ever gets stuck |
| `SignalStuck.TurnsStick` | lab/lab8/condition_sem.c:110-183 | with more threads, turn after turn more of them stay asleep until all do |
| `SignalStuck.SignalSticks` | lab/lab8/condition_sem.c:110-183 | so that a run gets stuck, whatever the numbers of producers and consumers are |
| `SignalStuck.SignalExact` | lab/lab8/condition_sem.c:110-183 | with `my_cv_signal` in place of the broadcast some run gets stuck if and only if producers and consumers together are more than twice BUF_SIZE |
| `CondVar.SweptNobody` | lab/lab8/condition_sem.c:123-132 | when the count of a broadcast has run out, nobody is left between giving up and P(sleep) |
| `Philosophers.StepInv` | user/src/phase4/philosopher.c:17-30 | every step keeps every fork in one place and N - 1 philosophers at most in the room |
| `Philosophers.NeighboursExclude` | user/src/phase4/philosopher.c:17-30 | no two neighbours eat at once, in any run |
| `Philosophers.NoDeadlock` | user/src/phase4/philosopher.c:8-30 | for every N >= 2 no reachable state is deadlocked |
| `Philosophers.AloneIsStuck` | user/src/phase4/philosopher.c:8-30 | for N = 1 a deadlock is reached: the condition is needed |
| `Heap.FreeListOk` | user/ulib/stdlib.c:43-53 | after the joins of `free` the list is closed, in order of address, and fully coalesced |
| `Heap.FreeUnits` | user/ulib/stdlib.c:43-53 | the free units are those that were free and those of the block |
| `Heap.TakeTailOk` | user/ulib/stdlib.c:85-95 | taking the end of a free block keeps the list so |
| `Heap.TakeWholeOk` | user/ulib/stdlib.c:85-95 | so does taking a whole one |
| `Heap.NotBoth` | user/ulib/stdlib.c:19-32 | no unit is both free and in use |
| `Malloc.UnitsSuffice` | user/ulib/stdlib.c:79 | the block holds the bytes asked for, in 32-bit arithmetic, if and only if nbytes + 7 does not wrap; and it is no larger than needed |
| `Malloc.FreeState` | user/ulib/stdlib.c:34-54 | freeing keeps live blocks apart, and every unit from `sbrk` is free or in use |
| `Malloc.TookState` | user/ulib/stdlib.c:84-95 | so does handing out a block, which is nobody else's |
| `Malloc.GrownState` | user/ulib/stdlib.c:56-71 | so does memory from `sbrk` |
| `Malloc.UserStore` | user/ulib/stdlib.c:73-95 | nothing that a program writes into its own block upsets the heap |
| `Malloc.StopsBefore` | user/ulib/stdlib.c:40-42 | the search of `free` stops at the free block before the block freed, and nowhere else |
| `Malloc.UserHeap.Find` | user/ulib/stdlib.c:40-42 | the search ends, there |
| `Malloc.UserHeap.Free` | user/ulib/stdlib.c:34-54 | exactly this block is no longer in use, all others keep what they hold, and a free block large enough for it is at `freep` |
| `Malloc.UserHeap.OtherSbrk` | user/ulib/stdlib.c:3-17 | memory that other code gets from `sbrk` is none of the allocator's, whose state is kept |
| `Malloc.UserHeap.Morecore` | user/ulib/stdlib.c:56-71 | at least 4096 units more, or none, and room for the request at `freep` |
| `Malloc.UserHeap.Alloc` | user/ulib/stdlib.c:73-100 | a block apart from all others, which keep what they hold; at most one `morecore`; none only if no free block is large enough and `sbrk` has less left than `morecore` asks for |
| `Numbers.ReverseInPlace` | lib/src/stdlib/utoa.c:30-36 | the part of the array is reversed, the rest stays |
| `Numbers.DigitsBackward` | lib/src/stdlib/utoa.c:20-28 | the digits of the value, the least significant first |
| `Numbers.Utoa` | lib/src/stdlib/utoa.c:3-39 | the numeral of the value and a NUL; an empty string for a base there is not |
| `Numbers.ItoaInto` | lib/src/stdlib/itoa.c:3-30 | sign and magnitude in base ten, the unsigned numeral in any other base |
| `Numbers.NumeralValue` | lib/src/stdlib/utoa.c:20-28 | the digits written have the value that was converted |
| `Numbers.NumeralCanonical` | lib/src/stdlib/utoa.c:8-28 | the digits are 0 to 9 and small letters, and no zero stands before another digit |
| `Numbers.Cutoff` | lib/src/stdlib/strtoul.c:32-52 | the overflow test is exact: one more digit passes the limit if and only if it says so |
| `Numbers.Strtoul` | lib/src/stdlib/strtoul.c:3-60 | the value of the longest run of digits, at most ULONG_MAX, negated in 32 bits after a minus sign; and where it ends |
| `Numbers.Strtol` | lib/src/stdlib/strtol.c:3-84 | on any string the mathematical value of the longest run of digits clamped to the range of a long; and where it ends |
| `Numbers.StrtolReads` | lib/src/stdlib/strtol.c:3-84 | white space, a sign, a prefix, digits and a rest read as the value of the digits with the sign, clamped to the range of a long, and the end is where the rest starts, or the beginning if there are no digits |
| `Numbers.StrtoulReads` | lib/src/stdlib/strtoul.c:3-60 | the same for `strtoul`: at most ULONG_MAX, and after a minus sign the negation modulo 2^32 |
| `Numbers.EveryStringSplits` | lib/src/stdlib/strtol.c:20-40 | every string can be taken apart so, in every base |
| `Numbers.UtoaStrtoul` | lib/src/stdlib/utoa.c:3-39 | `strtoul` undoes `utoa` for every 32-bit value and every base from 2 to 36 |
| `Numbers.ItoaStrtol` | lib/src/stdlib/itoa.c:3-30 | `strtol` undoes `itoa` if and only if the base is ten or the value is not negative; in base ten this includes INT_MIN |
| `ShellGrammar.ParseRender` | user/src/phase6/sh.c:321-441 | rendering a tree, with parentheses where they are needed, and parsing it gives the tree |
| `ShellGrammar.LineParsed` | user/src/phase6/sh.c:338-353 | so does a line that is followed by a closing parenthesis |
| `ShellGrammar.ItemParsed` | user/src/phase6/sh.c:368-441 | so does a command, or a line in parentheses, with its redirections, followed by what may follow it |
| `ShellGrammar.ParsedIffWell` | user/src/phase6/sh.c:409-441 | the parser produces a tree from some tokens if and only if each of its commands has at most 9 words |
| `ShellSyntax.SimpleParsed` | user/src/phase6/sh.c:409-441 | words and redirections of a command in any order, a redirection first too, parse to all the words in their order with all the redirections around them in theirs |
| `ShellSyntax.AnyOrder` | user/src/phase6/sh.c:409-441 | a tree over a command is parsed from any mixture of its words and its redirections |
| `ShellSyntax.ParsedIffDerived` | user/src/phase6/sh.c:321-441 | the parser gives a tree if and only if the tokens spell a line of the grammar that means it |
| `ShellSyntax.OneMeaning` | user/src/phase6/sh.c:321-441 | no tokens spell lines of two meanings |
| `ShellSyntax.RedirSymbols` | user/src/phase6/sh.c:368-391 | which redirection each symbol stands for, before a command or after it |
| `ShellSyntax.LineSymbols` | user/src/phase6/sh.c:338-407 | which symbol makes which command out of others |
| `ShellSyntax.LineIffSpells` | user/src/phase6/sh.c:256-441 | from characters to trees: a line parses to a tree if and only if it spells a line of the grammar that means it, with blanks where they are needed or wanted |
| `ShellSyntax.PanicsIffUnspelt` | user/src/phase6/sh.c:256-441 | the parser panics exactly on the lines that spell nothing |
| `ShellLexer.LexText` | user/src/phase6/sh.c:256-318 | a line that spells tokens with any blanks, none where none is needed, has exactly these tokens |
| `ShellLexer.LineSpells` | user/src/phase6/sh.c:256-318 | every line spells its tokens |
| `ShellLexer.LineRoundTrip` | user/src/phase6/sh.c:321-336 | every line that spells a rendered tree parses to the tree |
| `ShellLexer.LineIffWell` | user/src/phase6/sh.c:321-336 | the trees that lines parse to are exactly those with at most 9 words in each command |
| `Shell.GetToken` | user/src/phase6/sh.c:259-302 | the next token, where it begins and ends, and the position of the one after it |
| `Shell.Peek` | user/src/phase6/sh.c:304-313 | whether the next token starts with one of the characters; no token is passed over |
| `Shell.ParseRedirs` | user/src/phase6/sh.c:368-391 | what the grammar says, on the line in memory |
| `Shell.ParseBlock` | user/src/phase6/sh.c:393-407 | so for a block |
| `Shell.ParseExec` | user/src/phase6/sh.c:409-441 | so for a command, whose words are stored in the tree under the redirections around it |
| `Shell.ParsePipe` | user/src/phase6/sh.c:355-366 | so for a pipeline |
| `Shell.ParseLine` | user/src/phase6/sh.c:338-353 | so for a line; all of the mutual recursion ends, because tokens are used up |
| `Shell.NulTerminate` | user/src/phase6/sh.c:442-487 | every word of the tree is ended, and no character of any word is overwritten |
| `Shell.TreeLoads` | user/src/phase6/sh.c:442-487 | then every argument and file name, read as a C string, is its original token |
| `Shell.ParseCmd` | user/src/phase6/sh.c:321-336 | it panics exactly if the line spells no line of the grammar, else the tree in memory is the one that the line means |
| `Shell.ParseRendered` | user/src/phase6/sh.c:321-487 | a line that spells a tree leaves that tree in memory |

## What the code asks of its callers

These are the preconditions in the model; the code aborts, or does something else, without them.

- Reading from within a file: off + len does not wrap in 32 bits; `FileSystem.ClipExact` shows that this is exactly when
  the clip is right.
- Writing: off + len is within the largest file, (12 + 1024) * 4096 bytes, and the disk has the blocks it takes.
- Opening and creating: a free slot in the inode table for each inode held at a time (two on a walk), a free inode and
  free blocks where something may be created. A path that does not begin with a slash starts from a current directory
  that has not been removed.
- The super block is the one that the image builder writes.
- `kfree` looks at the head of the free list, so that list must not be empty; `kalloc` needs a free page; the range
  given to `vm_map` does not pass the end of the address space.
- Semaphores are opened with values that are not negative. `ProcessTheorems.OpenThenV` shows that this is exactly what
  the first V needs.
- A request to `malloc` stays below 2^31 bytes, because `sbrk` takes a signed number. `Malloc.UnitsSuffice` is the exact
  condition for the size computed from it in 32 bits to be enough.
- The base given to `strtoul` is 0 or from 2 to 36. (`strtol` checks its base itself.)
- Files for an image have distinct names of 1 to 27 characters, without slashes and other than `.` and `..`, and fit.

## Where the code differs from its own comments

- kernel/src/file.c:114 asks that seeking does not cross the size of the file. The code does not check:
  `FileTable.SoughtBeyond` gives offsets that do cross it, and `FileTable.SoughtWithin` the exact condition on the offset
  asked for, for each way of seeking, for staying within. Reading or writing from beyond the end gives -1.

## Left out

- Disk ports and interrupts: `read_disk` and `write_disk` are stores to and loads from an array of sectors.
- EASY_FS, the other half of kernel/src/fs.c.
- `sys_exec` and loading programs: it frees only the directory page of the old address space and leaves a freed
  directory in place when it fails, so no page property would hold.
- `sys_brk` over a fork: the program break is not copied to the child.
- `vm_walk` on pages that are not present: it can give the frame of an unmapped page. The model uses it on present ones.
- `sys_fstat`: it looks the descriptor up and copies three numbers.
- Device files: what a device reads and answers is a parameter of `Fread` and `Fwrite`, and `iadddev` is not there.
- System calls that are not implemented, the register contexts, stacks and page-table bits that the hardware sets.
- Zombies without a parent: the code never frees them, and nothing is claimed about them.
- Paths through a removed directory that is still open: its `..` may name a free inode. Paths start from directories
  that are linked.
- `list_remove`, which nothing calls.
- Overflow of `next_pid`, of reference counts and of semaphore values: they are unbounded numbers.
- The shell's `runcmd`, and the memory of its tree nodes: trees are values, and `WithArgv` stands for the pointer that
  `parseexec` keeps to the command inside the redirections.
- ProcessTheorems.RunSafe: runs have no exec and no user memory; pages are the subject of `SpaceRuns`.
- SpaceRuns.RunKeeps: an operation is made only when enough pages are free, as the code aborts otherwise.
- CondVar.NoDeadlock: it is about the broadcast that the program uses; for a signal in its place `SignalStuck.SignalExact`
  is the theorem.
- DescriptorRuns.Handle: device files answer what the call is given; exec and `sys_fstat` are not among the calls.
- Numbers.Strtol: the end position is not stated for a base there is not, because the code does not store it then.
- Mount.RoundTrip: the host's files are given as their bytes; the boot sector and the kernel image before the file
  system are arbitrary blocks.
- Kernel.Kernel.Handle: one step at a time; what user programs compute between system calls is not there.
