# xv6 kernel, shell and allocators: a verified model

A Dafny model of a teaching repository built around xv6: its file system, block cache, process
table, pipes and address spaces, its shell, its user-level allocator and `grep`, two course
allocators and the request queue of a threaded web server. `dafny verify dfyconfig.toml`
checks everything. Code that updates state in the source is a class or a method with loops
here; what it computes is a function or an invariant, and lemmas state what that function is
good for. The concurrent code (block cache, process table, pipes, web server) is cut at its
locks: every method is one stretch that runs without interruption, any thread may run any of
them next, and the class invariant therefore holds in every interleaving. Calls on the file
system and on address spaces are taken one at a time.

All xv6 files are those of `p3b/xv6_submitted_ver_yudong`.

**File system** (`DiskCodec`, `DiskFormat`, `FsImage`, `FsTruncate`, `FsInodes`, `FsWrite`,
`FsSpace`, `Directory`, `FsDirectory`, `FileSystem`). The disk is a sequence of 512-byte blocks in
the real layout: superblock, inode records, bitmap, data. A ghost map gives each data block in use its one
pointer; marked blocks are metadata and owned blocks, and free blocks are zero. From that,
`readi` and `writei` treat a file as a byte sequence, `itrunc` frees exactly the blocks of its
inode, and directories are lists of entries. `FsSpace` counts blocks: a step fails for want of
them exactly when it needs more than are free. `LinkTree`, `LinkTreeProofs`, `Paths` and
`Sysfile` say what `create`, `link` and `unlink` by path do to the tree of inodes, over any
run, and `TreeLaws` says it without those functions, by the names a directory holds and the
inodes they lead to. `FsTree` reads a disk as such a tree, with link counts, entries, device
numbers and the bytes of every file, and in `SysCalls` the calls themselves, down to the blocks
they read and write, have exactly those effects. `FsRuns` puts calls in sequence on a disk, where
link counts cannot overflow below 1024 data blocks; `LinkOverflow` shows that on a larger one
they can.

**Shell** (`ShellParser`, `ShellGrammar`, `ShellRoundTrip`, `ShellTerminate`, `Shell`). The
parser as functions over spans of the line and the methods that compute them; the language as
derivations apart from the parser, which accepts exactly the lines that have one; the round trip
through a printed command; and the in-place terminators, after which the command read from the
buffer is the one that was parsed.

**K&R allocator** (`FreeList`, `Umalloc`). Addresses count eight-byte headers.

**Address spaces** (`PageTable`, `VirtualMemory`, `ExecImage`, `AddressLayout`). Two-level page tables
(32-bit paging, Intel SDM volume 3A, section 4.3) in frames of one pool, and on top of them
the layout of this kernel: code, a guard page, the heap growing up, the stack growing down.
`ExecImage` says byte by byte what `exec` builds, argument block included.

**Block cache** (`LruRing`, `BufferCache`, `Bio`), **process table** (`ProcTable`, `Proc`,
`SleepLock`), **pipes** (`Pipe`).

**Course allocators**: the nibble map of `p3a/mem2.c` (`NibbleMap`, `NibbleAllocator`) and the
tiling list of `p3a/xuyi/mem1.c` (`Tiling`, `TilingAllocator`); `Rounding` is arithmetic for both.

**Web server** (`RequestQueue`, `WebMonitor`) and **pattern matcher** (`Regex`).

## Where the code does not keep its promise

Each of these is stated with the exact condition, on the state before the call, under which the
code does keep it; the last member named shows an input that fails.

- Link counts are 16-bit: a successful call keeps the tree good if and only if no count is at
  32767 when it is raised. With fewer than 1024 data blocks, as on the disk that mkfs makes, that
  never happens (`FsRuns.NoOverflow`, `Sysfile.StepKeepsGood`, `LinkOverflow.LinkOverflowInput`).
- `balloc` scans to the end of a bitmap block, past the size of the disk; its result is a block
  of the disk if and only if one was free (`FileSystem.FileSystem.Balloc`,
  `FileSystem.BallocPastDisk`).
- `exec` stores `heap_bot` before it can fail; after a failure the old image is well laid out if
  and only if `exec` did not get that far or the value is the same (`AddressLayout.Tasks.Exec`,
  `AddressLayout.LateFailureInput`).
- `sbrk` may shrink into the code; the layout survives if and only if it does not
  (`AddressLayout.SbrkKeepsLayout`). A shrink to size 0 reports failure after freeing the pages
  (`AddressLayout.Tasks.Shrink`, `AddressLayout.SbrkInput`).
- The page-fault test leaves out the first byte of the page below the stack
  (`AddressLayout.FaultWindow`, `AddressLayout.FaultInput`).
- A failed `new_exec` leaves its limit behind; the limit holds if and only if the old stack fits it
  (`AddressLayout.Tasks.NewExec`, `AddressLayout.LimitInput`).
- A `setupkvm` that fails keeps the frames it took; `exec` then loses frames if and only if between
  1 and 12 were free (`VirtualMemory.Machine.Setupkvm`, `VirtualMemory.LastFrameLeaks`).
- `fork`, which takes a kernel stack first and gives it back, loses frames if and only if between 2
  and 13 were free (`AddressLayout.Tasks.Fork`, `AddressLayout.ForkLeaks`).
- `exec` lets arguments run into the code when that reaches up to the stack page; no byte of code is
  written over if and only if the block stays in the stack page (`ExecImage.CodeSurvives`,
  `ExecImage.CodeLostInput`).
- `loaduvm` does not look whether a page is there; it writes to physical page 0 if and only if the
  segment begins at address 0 and is not empty (`VirtualMemory.Machine.Loaduvm`,
  `VirtualMemory.LoadAtZero`).
- `kill` accepts the number of an unused slot, and 0; the next process made there is born
  killed. Unused slots stay unmarked if and only if the slot found is in use
  (`Proc.Ptable.Kill`, `Proc.Ptable.ForkFail`, `Proc.KillZeroMarksUnused`).
- A killed pipe writer leaves bytes behind a sleeping reader without waking it if and only if it
  has more than 512 bytes left and a reader sleeps (`Pipe.PipeBuffer.Write`, `Pipe.KilledWriter`).
- `Mem_Free` of the nibble map accepts addresses inside its own header, and past the region where
  a byte looks like a block; the map survives if and only if the address is neither
  (`NibbleAllocator.Mem.Free`, `NibbleAllocator.FreeOfHeader`).
- The tiling allocator checks for eight bytes of header; the list survives if and only if neither
  part of the split is negative (`TilingAllocator.Region.MemAlloc`). A larger header breaks it
  (`TilingAllocator.WideHeaderBreaks`), and so does a request that wraps 32 bits
  (`TilingAllocator.LargeRequestBreaks`).
- `Mem_Free` of a pointer that is no block crashes if and only if the word in front of it looks
  like a busy header (`TilingAllocator.Region.MemFree`, `TilingAllocator.StrayFree`).
- `malloc` rounds up in 32 bits; the block holds the request if and only if it is at most
  2^32 - 8 bytes (`Umalloc.UnitsHoldRequest`, `Umalloc.LargestRequest`).

A crash of `copyout` at an address without a page table cannot happen: `exec`, its only caller,
passes addresses that have one (`VirtualMemory.ArgumentsHaveTables`, `ExecImage.PieceMapped`).

## Model

| member | source | states |
|---|---|---|
| DiskCodec.InodeRoundTrip | p3b/xv6_submitted_ver_yudong/include/fs.h:25-33 | Writing an inode as its 64-byte disk record and reading it back gives the same inode, negative shorts included |
| DiskCodec.PutEntry | p3b/xv6_submitted_ver_yudong/kernel/fs.c:338-341 | Storing entry j of an indirect block changes that 32-bit entry and none of the other 127 |
| DiskCodec.WithBit | p3b/xv6_submitted_ver_yudong/kernel/fs.c:64-68 | Setting or clearing bit k of a bitmap block changes that bit alone |
| DiskCodec.PutInode | p3b/xv6_submitted_ver_yudong/kernel/fs.c:177-186 | Storing one record in an inode block leaves the other seven readable as before |
| DiskFormat.RecordBytes | p3b/xv6_submitted_ver_yudong/include/fs.h:25-33 | Every field of an inode record at its byte offset, low bytes first, negative shorts in two's complement |
| DiskFormat.RecordRead | p3b/xv6_submitted_ver_yudong/include/fs.h:35-36 | Record k of a block begins at byte 64k |
| DiskFormat.EntryRead | p3b/xv6_submitted_ver_yudong/kernel/fs.c:338 | Entry j of an indirect block is bytes 4j to 4j + 3, low byte first |
| DiskFormat.BitRead | p3b/xv6_submitted_ver_yudong/kernel/fs.c:62-64 | Bit i of a bitmap block is bit i % 8, from the lowest, of byte i / 8 |
| DiskFormat.Places | p3b/xv6_submitted_ver_yudong/include/fs.h:38-45 | The block and the place in it of every inode record and every bit, all below the data |
| DiskFormat.FreshPlaces | p3b/xv6_submitted_ver_yudong/tools/mkfs.c:22-24 | On the disk mkfs makes the bitmap is block 28 and the data begin at 29 |
| DiskFormat.ByteRead | p3b/xv6_submitted_ver_yudong/kernel/fs.c:317-347 | Byte p of a file is byte p % 512 of the block that the inode, or the indirect block from byte 6144 on, gives for p / 512 |
| DiskFormat.DirentBytes | p3b/xv6_submitted_ver_yudong/include/fs.h:50-53 | A directory entry is the number, low byte first, and the name with zeros behind it |
| FsImage.NoSharing | p3b/xv6_submitted_ver_yudong/kernel/fs.c:320-347 | No block number is held by two pointers anywhere on the disk, and every block pointed to is a data block marked in the bitmap |
| FsImage.NoLeak | p3b/xv6_submitted_ver_yudong/kernel/fs.c:79-97 | A block is marked exactly when it is metadata or some pointer reaches it; every unmarked block is all zero |
| FsImage.ClaimKeepsOwned | p3b/xv6_submitted_ver_yudong/kernel/fs.c:326-344 | Marking a free block and storing its number in an empty pointer keeps the ownership invariant |
| FsImage.ClaimKeepsBytes | p3b/xv6_submitted_ver_yudong/kernel/fs.c:332-344 | A newly allocated block, indirect blocks included, changes no byte of any file: it was zero |
| FsImage.ReleaseKeepsOwned | p3b/xv6_submitted_ver_yudong/kernel/fs.c:79-97 | Zeroing and unmarking a block whose pointer is dead keeps ownership of all the others |
| FsImage.SameFileSettled | p3b/xv6_submitted_ver_yudong/kernel/fs.c:320-347 | A file whose pointers and bytes are untouched by a step stays consistent |
| FsInodes.FormatEnds | p3b/xv6_submitted_ver_yudong/tools/mkfs.c:67-95 | The empty image, metadata blocks marked and everything else zero, satisfies the whole invariant |
| FsTruncate.Trimmed | p3b/xv6_submitted_ver_yudong/kernel/fs.c:352-380 | After the two loops of itrunc the marks left are the old ones minus exactly the blocks the inode reached |
| FsWrite.WritingEnds | p3b/xv6_submitted_ver_yudong/kernel/fs.c:434-450 | At the end of the write loop the content is the old one with the span overwritten, and the invariant holds with the new size |
| FsWrite.Overwrite | p3b/xv6_submitted_ver_yudong/kernel/fs.c:421-451 | Byte by byte: the written bytes inside the span, the old ones outside it |
| FileSystem.FileSystem.Format | p3b/xv6_submitted_ver_yudong/tools/mkfs.c:67-95 | An empty file system satisfies the invariant; exactly the metadata bits are set, those past the disk included in the clear ones |
| FileSystem.FileSystem.Balloc | p3b/xv6_submitted_ver_yudong/kernel/fs.c:53-76 | The lowest clear bit of the scanned bitmap blocks is taken and only it is set; the number is below the disk size exactly when some block below it was free |
| FileSystem.BallocPastDisk | p3b/xv6_submitted_ver_yudong/kernel/fs.c:60-75 | On a disk of five metadata blocks balloc hands out block 5 |
| FsSpace.NeedIsGrowth | p3b/xv6_submitted_ver_yudong/kernel/fs.c:317-347 | A write inside one block needs as many new blocks as the size formula says: none, the data block, or also the indirect block |
| FsSpace.FileCount | p3b/xv6_submitted_ver_yudong/kernel/fs.c:319-347 | A file of a given size owns exactly the data blocks that hold it and, past twelve of them, one indirect block |
| FsSpace.Conservation | p3b/xv6_submitted_ver_yudong/kernel/fs.c:53-97 | Free blocks and the blocks that all file sizes call for always add up to the data area |
| FsSpace.ClearedGivesBack | p3b/xv6_submitted_ver_yudong/kernel/fs.c:352-380 | Emptying one file frees exactly as many blocks as its size called for |
| FileSystem.FileSystem.Bfree | p3b/xv6_submitted_ver_yudong/kernel/fs.c:78-97 | The block is zeroed and its bit cleared; a clear bit is the panic "freeing free block" |
| FileSystem.FileSystem.Iupdate | p3b/xv6_submitted_ver_yudong/kernel/fs.c:170-187 | The inode record of that inode alone is rewritten |
| FileSystem.FileSystem.AllocAddr | p3b/xv6_submitted_ver_yudong/kernel/fs.c:324-330 | Succeeds exactly when a block is free: a direct or indirect pointer that was empty gets it, zero, and one block fewer is free; no file changes |
| FileSystem.FileSystem.AllocEntry | p3b/xv6_submitted_ver_yudong/kernel/fs.c:338-344 | Succeeds exactly when a block is free: an empty indirect entry gets it, zero, and one block fewer is free; no file changes |
| FileSystem.FileSystem.Bmap | p3b/xv6_submitted_ver_yudong/kernel/fs.c:317-347 | The block of file block bn, the one there was or a fresh zero one; succeeds exactly when the 0, 1 or 2 blocks it needs are free, and takes just those; all bytes of all files stay |
| FileSystem.FileSystem.Itrunc | p3b/xv6_submitted_ver_yudong/kernel/fs.c:349-380 | The file becomes empty, exactly the blocks it reached lose their mark and are as many as its size says, every other file keeps its bytes and pointers |
| FileSystem.FileSystem.Readi | p3b/xv6_submitted_ver_yudong/kernel/fs.c:393-418 | The result is exactly the slice of the content, clipped at the size; -1 in the source's cases; nothing changes |
| FileSystem.FileSystem.Writei | p3b/xv6_submitted_ver_yudong/kernel/fs.c:420-451 | content becomes old[..off] + src[..n'] + old[off + n'..] with n' clipped at 71680 bytes; every other inode keeps its bytes; runs out of blocks exactly when the file's growth, indirect block counted, exceeds the free ones, and otherwise takes exactly that many |
| FileSystem.FileSystem.Ialloc | p3b/xv6_submitted_ver_yudong/kernel/fs.c:145-168 | The lowest free inode number from 1 on, its record typed and otherwise zero; fails exactly when there is none |
| FileSystem.FileSystem.Iput | p3b/xv6_submitted_ver_yudong/kernel/fs.c:280-300 | With the last reference and no links the inode is freed, with exactly its blocks; otherwise nothing changes |
| FileSystem.FileSystem.Dirlookup | p3b/xv6_submitted_ver_yudong/kernel/fs.c:461-493 | Finds the first entry with that name, and fails exactly when no used entry has it |
| FileSystem.FileSystem.Dirlink | p3b/xv6_submitted_ver_yudong/kernel/fs.c:495-523 | Fails exactly when the name is taken; panics exactly when the directory is full or its growth exceeds the free blocks; otherwise the first unused entry, or a new one at the end, is the new pair and nothing else changes |
| Directory.NamecmpCorrect | p3b/xv6_submitted_ver_yudong/kernel/fs.c:453-459 | strncmp on 14 bytes says equal exactly when the names up to the first NUL are equal |
| Directory.DirentRoundTrip | p3b/xv6_submitted_ver_yudong/kernel/fs.c:514-520 | An entry written with strncpy reads back as its inode number and the name cut at 14 bytes |
| Directory.Find | p3b/xv6_submitted_ver_yudong/kernel/fs.c:471-488 | The first matching entry, or the length when none matches |
| Directory.PlaceEntry | p3b/xv6_submitted_ver_yudong/kernel/fs.c:508-520 | A 16-byte write at an entry boundary replaces or appends exactly one entry of the decoded list |
| FsDirectory.EntriesAt | p3b/xv6_submitted_ver_yudong/kernel/fs.c:471-488 | Entries below the size are the directory's; those between the size and the end of the last block are unused |
| FsDirectory.LookupResult | p3b/xv6_submitted_ver_yudong/kernel/fs.c:461-493 | Scanning whole blocks past the size still finds the first match among the real entries, or that there is none |
| FsDirectory.LinkedEntries | p3b/xv6_submitted_ver_yudong/kernel/fs.c:495-523 | The bytes dirlink writes decode to the old entries with one placed |
| LinkTreeProofs.LinkKeepsInv | p3b/xv6_submitted_ver_yudong/kernel/sysfile.c:110-146 | link keeps tree and link counts unless the target already has 32767 links, in which case the count turns negative and the tree is not good |
| LinkTreeProofs.CreateFileKeepsInv | p3b/xv6_submitted_ver_yudong/kernel/sysfile.c:213-255 | A new file or device keeps tree and counts |
| LinkTreeProofs.CreateDirKeepsInv | p3b/xv6_submitted_ver_yudong/kernel/sysfile.c:213-255 | A new directory with its two dot entries keeps the counts and the tree, one level below its parent |
| LinkTreeProofs.UnlinkFileKeepsInv | p3b/xv6_submitted_ver_yudong/kernel/sysfile.c:164-211 | Removing a name keeps the counts and frees the inode exactly when it was the last one |
| LinkTreeProofs.UnlinkDirKeepsInv | p3b/xv6_submitted_ver_yudong/kernel/sysfile.c:164-211 | Removing an empty directory frees it and takes its ".." off the parent's count |
| LinkTreeProofs.UnlinkKeepsInv | p3b/xv6_submitted_ver_yudong/kernel/sysfile.c:164-211 | unlink always keeps the invariant, never panics, and frees the inode exactly when one entry named it |
| Paths.FirstElement | p3b/xv6_submitted_ver_yudong/kernel/fs.c:539-562 | A path is its first piece cut to 14 bytes, followed by the pieces of the rest |
| Paths.Skipelem | p3b/xv6_submitted_ver_yudong/kernel/fs.c:525-562 | Splits off the first element; None exactly when there is none; what remains starts without a slash |
| Paths.WalkIgnoresCounts | p3b/xv6_submitted_ver_yudong/kernel/fs.c:564-600 | Path resolution does not depend on link counts |
| FsTree.OneNode | p3b/xv6_submitted_ver_yudong/kernel/fs.c:319-451 | A step that touches one inode changes at most that node of the tree the disk stands for |
| FsTree.LinkEntry | p3b/xv6_submitted_ver_yudong/kernel/fs.c:495-523 | On disk, dirlink places exactly the entry that the tree operation places, fails exactly when the name is taken, and panics exactly when the directory is full or the blocks it needs are not free |
| FsTree.ClearEntry | p3b/xv6_submitted_ver_yudong/kernel/sysfile.c:198-200 | Writing a zeroed entry clears exactly that entry and cannot fail |
| FsTree.SetMeta | p3b/xv6_submitted_ver_yudong/kernel/sysfile.c:236-240 | iupdate of a changed count or device number changes those of that node and nothing else |
| FsTree.Allocate | p3b/xv6_submitted_ver_yudong/kernel/fs.c:145-168 | ialloc adds an empty node at the lowest free number |
| FsTree.PutLast | p3b/xv6_submitted_ver_yudong/kernel/fs.c:280-300 | iput of the last reference removes the node exactly when its count is 0, and its blocks are free again |
| SysCalls.Look | p3b/xv6_submitted_ver_yudong/kernel/fs.c:461-493 | dirlookup on the blocks finds what Lookup finds in the tree |
| SysCalls.Namex | p3b/xv6_submitted_ver_yudong/kernel/fs.c:564-613 | On disk, one directory at a time, gives the inode, or the directory and last element, that resolution in the tree defines |
| SysCalls.IsDirEmpty | p3b/xv6_submitted_ver_yudong/kernel/sysfile.c:148-162 | Reading entry by entry, true exactly when every entry k >= 2 has inode number 0 |
| SysCalls.AddDots | p3b/xv6_submitted_ver_yudong/kernel/sysfile.c:245-247 | The two entries of a new directory, for which exactly one block must be free |
| SysCalls.Create | p3b/xv6_submitted_ver_yudong/kernel/sysfile.c:213-255 | On disk, create has the effect and the answer of the tree operation, device numbers and the bytes of every file included; it panics exactly when that does or needs more blocks than are free, and otherwise takes exactly those |
| SysCalls.Link | p3b/xv6_submitted_ver_yudong/kernel/sysfile.c:110-146 | Likewise, with nlink++ first and nlink-- on the failure path: a failed link changes nothing |
| SysCalls.Unlink | p3b/xv6_submitted_ver_yudong/kernel/sysfile.c:164-211 | Likewise: clear the entry, drop the parent's link for a directory, drop the link, free inode and blocks at zero; it never panics |
| SysCalls.MakeRoot | p3b/xv6_submitted_ver_yudong/kernel/sysfile.c:242-248 | An empty file system with a root directory, which exists exactly when there is a data block, stands for the tree all runs start from |
| TreeLaws.LookupFinds | p3b/xv6_submitted_ver_yudong/kernel/fs.c:461-493 | dirlookup finds exactly the one entry in use with the name cut at 14 bytes |
| TreeLaws.CreateExisting | p3b/xv6_submitted_ver_yudong/kernel/sysfile.c:224-232 | create of a name that is there changes nothing, and succeeds exactly for a file where a file was asked for |
| TreeLaws.CreateNew | p3b/xv6_submitted_ver_yudong/kernel/sysfile.c:233-255 | create of a new name: the lowest free number, a node of that type and device with one link, "." and ".." for a directory, one entry and one link of the parent more, and nothing else; the panic exactly when the directory or the inodes are full |
| TreeLaws.LinkLaw | p3b/xv6_submitted_ver_yudong/kernel/sysfile.c:110-146 | link fails exactly for a directory or a name that is there, panics exactly when the directory is full, and otherwise adds that entry and one link, and nothing else |
| TreeLaws.UnlinkAnswer | p3b/xv6_submitted_ver_yudong/kernel/sysfile.c:164-197 | unlink fails exactly for ".", "..", a name that is not there, and a directory with an entry k >= 2 in use |
| TreeLaws.UnlinkEffect | p3b/xv6_submitted_ver_yudong/kernel/sysfile.c:198-211 | Otherwise that entry goes, one link of its inode, the inode with its last link, a link of the parent for a directory, and nothing else |
| TreeLaws.OccupiedIs | p3b/xv6_submitted_ver_yudong/kernel/sysfile.c:148-162 | A directory is in use exactly when it has a name other than "." and ".." |
| TreeLaws.CreateUndone | p3b/xv6_submitted_ver_yudong/kernel/sysfile.c:164-255 | After create and unlink of a new file the tree is as before, and the directory can be removed exactly if it could before |
| TreeLaws.ByPath | p3b/xv6_submitted_ver_yudong/kernel/sysfile.c:164-255 | create and unlink by path act in the directory, and on the name, that resolution gives; without one they fail |
| TreeLaws.LinkByPath | p3b/xv6_submitted_ver_yudong/kernel/sysfile.c:110-146 | link likewise, with two paths |
| TreeLaws.ElementsJoin | p3b/xv6_submitted_ver_yudong/kernel/fs.c:539-562 | The elements of q/p are those of q and then those of p |
| TreeLaws.RootPath | p3b/xv6_submitted_ver_yudong/kernel/fs.c:572-575 | "/" is the root and the empty path the current directory |
| TreeLaws.PathsCompose | p3b/xv6_submitted_ver_yudong/kernel/fs.c:564-600 | Resolving q/p, p without a slash in front, is resolving p from where q leads |
| TreeLaws.OneName | p3b/xv6_submitted_ver_yudong/kernel/fs.c:539-593 | A single name resolves to the inode its entry names, with the name cut at 14 bytes |
| TreeLaws.ParentOfPath | p3b/xv6_submitted_ver_yudong/kernel/fs.c:583-600 | The parent of q/w is the directory q leads to, with last element w |
| TreeLaws.DotPaths | p3b/xv6_submitted_ver_yudong/kernel/fs.c:564-600 | "." leads to the directory itself and ".." to its second entry's inode |
| TreeLaws.CreatedIsFound | p3b/xv6_submitted_ver_yudong/kernel/sysfile.c:213-255 | After a successful create the path leads to the inode it returned |
| TreeLaws.LinkedIsFound | p3b/xv6_submitted_ver_yudong/kernel/sysfile.c:110-146 | After a successful link both paths lead to the same inode |
| TreeLaws.UnlinkedIsGone | p3b/xv6_submitted_ver_yudong/kernel/sysfile.c:164-211 | After a successful unlink the path leads nowhere |
| FsRuns.RefsFit | p3b/xv6_submitted_ver_yudong/kernel/sysfile.c:110-255 | A directory entry takes 16 bytes, so the entries naming an inode are at most 32 for each block in use |
| FsRuns.CountsFit | p3b/xv6_submitted_ver_yudong/kernel/sysfile.c:110-255 | With fewer than 1024 data blocks (mkfs makes 995) no link count exceeds 32736 |
| FsRuns.NoOverflow | p3b/xv6_submitted_ver_yudong/kernel/sysfile.c:110-255 | On such a disk no call overflows a link count |
| FsRuns.Call | p3b/xv6_submitted_ver_yudong/kernel/sysfile.c:110-255 | Any call on disk is the step of the tree, or panics exactly when that does or lacks blocks; the tree stays good exactly when the call does not overflow a count |
| FsRuns.Serve | p3b/xv6_submitted_ver_yudong/kernel/sysfile.c:110-255 | Over any sequence of calls on a disk with fewer than 1024 data blocks: the trees of the run, each one step from the one before and all good, the answers, which are those of the steps, and the disk, which stands for the last tree; a call that panics beyond the panics of the tree lacked blocks, which three free blocks a call rule out |
| FsRuns.FreshRun | p3b/xv6_submitted_ver_yudong/tools/mkfs.c:22-24 | The same from a new disk of the size mkfs makes, with 994 blocks free behind the root |
| LinkOverflow.LinkOverflowInput | p3b/xv6_submitted_ver_yudong/kernel/sysfile.c:125-126 | A good tree, with eight directories of links to one file, in which one more link makes the count negative |
| Sysfile.EmptyTreeIsGood | p3b/xv6_submitted_ver_yudong/kernel/sysfile.c:213-255 | The root alone is a good tree |
| Sysfile.StepKeepsGood | p3b/xv6_submitted_ver_yudong/kernel/sysfile.c:110-255 | A successful call keeps the tree good if and only if it takes no link count past 32767; a failed one changes nothing |
| Sysfile.RunKeepsGood | p3b/xv6_submitted_ver_yudong/kernel/sysfile.c:110-255 | In any run of calls from a good tree every tree is good, as long as no successful call overflows a link count |
| Sysfile.ReachesRoot | p3b/xv6_submitted_ver_yudong/kernel/sysfile.c:233-240 | From any directory, as many ".." steps as its depth lead to the root |
| Sysfile.GoodMeans | p3b/xv6_submitted_ver_yudong/kernel/sysfile.c:110-255 | In a good tree every link count is the number of entries naming the inode (not counting "."), and is positive; ".." is the parent that names the directory |
| ShellRoundTrip.RoundTrip | p3b/xv6_submitted_ver_yudong/user/sh.c:326-445 | Parsing the fully parenthesised printing of any legal command tree gives that tree |
| ShellRoundTrip.ArgsRoundTrip | p3b/xv6_submitted_ver_yudong/user/sh.c:414-445 | Words separated by single blanks are read as exactly those arguments |
| ShellRoundTrip.BlockRoundTrip | p3b/xv6_submitted_ver_yudong/user/sh.c:398-412 | A parenthesised tree is read as a block of that tree |
| ShellRoundTrip.RedirRoundTrip | p3b/xv6_submitted_ver_yudong/user/sh.c:373-396 | A redirection behind a block wraps the block with the right file, mode and descriptor |
| ShellTerminate.LineSound | p3b/xv6_submitted_ver_yudong/user/sh.c:343-358 | Every pointer pair the parser stores spans a word and ends on a delimiter or the end of the line; every exec has at most 9 arguments |
| ShellTerminate.PrintingIsNormal | p3b/xv6_submitted_ver_yudong/user/sh.c:326-445 | Whatever line was parsed, printing the result and parsing again gives the same tree |
| ShellGrammar.ParserIsGrammar | p3b/xv6_submitted_ver_yudong/user/sh.c:326-445 | The parser accepts exactly the lines that have a derivation in the grammar, with any blanks, and builds what the derivation stands for; "<" is mode 0 on descriptor 0, ">" and ">>" are mode 0x201 on descriptor 1 |
| ShellGrammar.RedirectedLine | p3b/xv6_submitted_ver_yudong/user/sh.c:373-396 | A word, one of "<", ">" and ">>", and a file name parse as that command with that redirection, mode and descriptor in numbers |
| ShellGrammar.LineParse | p3b/xv6_submitted_ver_yudong/user/sh.c:343-358 | A derived line is parsed up to its end, with its pipes, lists and background marks |
| ShellGrammar.LineFound | p3b/xv6_submitted_ver_yudong/user/sh.c:343-358 | What parseline accepts has a derivation that ends where it stops |
| ShellGrammar.BlockFound | p3b/xv6_submitted_ver_yudong/user/sh.c:398-412 | A block that is accepted has its two parentheses, a derived line between them and its redirections |
| ShellTerminate.EndsOnDelimiter | p3b/xv6_submitted_ver_yudong/user/sh.c:448-492 | Each NUL that nulterminate writes lands outside every word |
| ShellTerminate.PointersReadTokens | p3b/xv6_submitted_ver_yudong/user/sh.c:448-492 | After the NULs are written every argv and file pointer reads as its source token |
| ShellTerminate.ReadsAsParsed | p3b/xv6_submitted_ver_yudong/user/sh.c:448-492 | When every pointer reads as its token, the command read from the buffer is the parsed tree, files, modes and descriptors included |
| ShellTerminate.Nulterminate | p3b/xv6_submitted_ver_yudong/user/sh.c:448-492 | Exactly the end positions of the command's spans are set to NUL |
| Shell.Gettoken | p3b/xv6_submitted_ver_yudong/user/sh.c:264-307 | The loop-and-switch scanner computes the token function, ">>" included |
| Shell.Peek | p3b/xv6_submitted_ver_yudong/user/sh.c:309-319 | Skips blanks and tells whether the next character is one of the given ones |
| Shell.Parseredirs | p3b/xv6_submitted_ver_yudong/user/sh.c:373-396 | Reads the redirections the grammar function gives, or fails with its message; the first opens for reading on descriptor 0 behind "<", and with mode 0x201 on descriptor 1 behind ">" and ">>" |
| Shell.Parseexec | p3b/xv6_submitted_ver_yudong/user/sh.c:414-445 | Arguments and redirections in order; too many arguments and syntax errors as the grammar function says; terminates by consuming input |
| Shell.Parseblock | p3b/xv6_submitted_ver_yudong/user/sh.c:398-412 | A parenthesised line with the redirections behind it |
| Shell.Parsepipe | p3b/xv6_submitted_ver_yudong/user/sh.c:360-371 | Right-nested pipes |
| Shell.Parseline | p3b/xv6_submitted_ver_yudong/user/sh.c:343-358 | Background marks and lists |
| Shell.Parsecmd | p3b/xv6_submitted_ver_yudong/user/sh.c:326-341 | Parses the line and terminates its words in place: the command, each pointer read from the buffer as a C string, is the tree that was parsed |
| FreeList.InsertSorted | p3b/xv6_submitted_ver_yudong/user/umalloc.c:30-43 | Joining a freed block with the neighbours it touches keeps the list sorted, disjoint and without touching blocks |
| FreeList.InsertCovers | p3b/xv6_submitted_ver_yudong/user/umalloc.c:30-43 | The units on the list afterwards are the old ones and the freed ones |
| FreeList.TakeCovers | p3b/xv6_submitted_ver_yudong/user/umalloc.c:74-84 | Taking a block or its tail removes exactly those units |
| FreeList.ListIsCanonical | p3b/xv6_submitted_ver_yudong/user/umalloc.c:24-44 | The list is determined by the free units: two lists over the same units are equal |
| Umalloc.UnitsHoldRequest | p3b/xv6_submitted_ver_yudong/user/umalloc.c:69 | The units computed in 32-bit arithmetic hold the request exactly when nbytes is at most 2^32 - 8, and waste less than eight bytes |
| Umalloc.LargestRequest | p3b/xv6_submitted_ver_yudong/user/umalloc.c:69 | A request of 2^32 - 1 bytes gets a block without payload |
| Umalloc.GrowsByInt | p3b/xv6_submitted_ver_yudong/user/umalloc.c:50-53 | The byte count for sbrk is a positive int if and only if nbytes is at most 2^31 - 16, or wraps |
| Umalloc.StopsThere | p3b/xv6_submitted_ver_yudong/user/umalloc.c:30-32 | The search of free stops at a list node exactly when the block belongs behind it, wrap-around at base included |
| Umalloc.RelinkedIsLinked | p3b/xv6_submitted_ver_yudong/user/umalloc.c:33-42 | The pointer writes of free leave one circular list in address order |
| Umalloc.Heap.FindPlace | p3b/xv6_submitted_ver_yudong/user/umalloc.c:29-32 | The search from the rover terminates within one lap at the right node |
| Umalloc.Heap.LinkIn | p3b/xv6_submitted_ver_yudong/user/umalloc.c:33-43 | The size and pointer fields after both joins |
| Umalloc.Heap.Free | p3b/xv6_submitted_ver_yudong/user/umalloc.c:24-44 | The block leaves the live set and its units join the free ones; the rover stands on the last list block below it; the heap stays valid |
| Umalloc.Heap.TakeAt | p3b/xv6_submitted_ver_yudong/user/umalloc.c:74-84 | An exact fit is unlinked, otherwise the tail is cut off; the rover stands on the list block before it |
| Umalloc.Heap.Morecore | p3b/xv6_submitted_ver_yudong/user/umalloc.c:46-61 | At least 4096 units are added to the free list, or nothing changes when sbrk fails |
| Umalloc.Heap.Malloc | p3b/xv6_submitted_ver_yudong/user/umalloc.c:63-90 | The first block behind the rover, cyclically, that is large enough, taken from its end; NULL exactly when none is and sbrk fails; with new memory, the block that holds it; the result is a new live block of free or new units and the rover stands before it; at most one growth; terminates |
| Umalloc.Heap.Search | p3b/xv6_submitted_ver_yudong/user/umalloc.c:73-88 | The loop from the rover: the block to take and the one before it, after growing at most once |
| FreeList.OneRun | p3b/xv6_submitted_ver_yudong/user/umalloc.c:33-42 | Consecutive free units lie in one block |
| FreeList.NewFit | p3b/xv6_submitted_ver_yudong/user/umalloc.c:55-60 | When nothing fitted before, a block that fits after growing holds all the new memory |
| Umalloc.PassedOne | p3b/xv6_submitted_ver_yudong/user/umalloc.c:71-89 | Having come round to the rover, no block on the list fits |
| Umalloc.LiveIsNotFree | p3b/xv6_submitted_ver_yudong/user/umalloc.c:24-90 | A live block's units are in the arena and not on the list |
| PageTable.NoSharing | p3b/xv6_submitted_ver_yudong/kernel/vm.c:77-98 | No frame backs two pages of any address spaces, nor is it on the free list |
| PageTable.EntryAfter | p3b/xv6_submitted_ver_yudong/kernel/vm.c:52-72 | Writing an entry of one page table changes that entry of that address space alone |
| PageTable.AttachPage | p3b/xv6_submitted_ver_yudong/kernel/vm.c:87-90 | Mapping a filled frame at an empty page adds exactly that page to the address space |
| PageTable.DetachPage | p3b/xv6_submitted_ver_yudong/kernel/vm.c:268-275 | Unmapping removes exactly that page |
| PageTable.KeptView | p3b/xv6_submitted_ver_yudong/kernel/vm.c:228-353 | A step on one address space leaves the bytes of every other one |
| PageTable.WritePage | p3b/xv6_submitted_ver_yudong/kernel/vm.c:370-393 | Writing a user page changes that page of that address space alone |
| VirtualMemory.Machine.Kalloc | p3b/xv6_submitted_ver_yudong/kernel/kalloc.c:56-70 | The head of the free list, or 0 exactly when it is empty |
| VirtualMemory.Machine.Kinit | p3b/xv6_submitted_ver_yudong/kernel/kalloc.c:22-32 | The pages are on the free list, the last one first |
| VirtualMemory.Machine.Kfree | p3b/xv6_submitted_ver_yudong/kernel/kalloc.c:34-54 | The frame is filled with junk and put at the head of the list |
| VirtualMemory.Machine.Walkpgdir | p3b/xv6_submitted_ver_yudong/kernel/vm.c:49-72 | The page table for an address, made if asked for and a frame is left; no entry changes |
| VirtualMemory.Machine.MapUser | p3b/xv6_submitted_ver_yudong/kernel/vm.c:228-251 | mappages of one user page cannot fail, since the first page table exists |
| VirtualMemory.Machine.MapKernel | p3b/xv6_submitted_ver_yudong/kernel/vm.c:74-98 | All pages of the range are mapped in order exactly when there are as many free frames as missing page tables; otherwise none is left |
| VirtualMemory.Machine.Setupkvm | p3b/xv6_submitted_ver_yudong/kernel/vm.c:133-149 | A new address space with pages 160 to 4095 and those from 0xFE000 on mapped one to one and no other page, exactly when 13 frames are free, which it takes; otherwise the frames there were are all lost |
| VirtualMemory.Machine.MapRegions | p3b/xv6_submitted_ver_yudong/kernel/vm.c:142-146 | The four regions of kmap take 12 page tables |
| VirtualMemory.LastFrameLeaks | p3b/xv6_submitted_ver_yudong/kernel/vm.c:138-146 | With one frame left setupkvm fails and the frame is gone |
| VirtualMemory.Machine.Allocuvm | p3b/xv6_submitted_ver_yudong/kernel/vm.c:226-251 | All new pages zeroed and mapped, or no change at all when there are fewer free frames than pages |
| VirtualMemory.Machine.Deallocuvm | p3b/xv6_submitted_ver_yudong/kernel/vm.c:253-278 | Exactly the pages from the rounded new size to the old one are unmapped and their frames freed |
| VirtualMemory.Machine.Freevm | p3b/xv6_submitted_ver_yudong/kernel/vm.c:280-295 | Every frame of the address space, page tables and directory included, is free afterwards and nothing else changes |
| VirtualMemory.Machine.CopyRange | p3b/xv6_submitted_ver_yudong/kernel/vm.c:308-320 | The pages of one region are copied to fresh frames; false exactly when frames run out |
| VirtualMemory.Machine.Copyuvm | p3b/xv6_submitted_ver_yudong/kernel/vm.c:297-353 | Succeeds exactly when 13 frames and one for each user page are free: the child's pages are code, heap and stack with the parent's bytes on frames of its own; a failure leaves the frames as they were if and only if 13 were free, or none |
| VirtualMemory.ReleaseUndoes | p3b/xv6_submitted_ver_yudong/kernel/vm.c:350-352 | Freeing an address space that did not exist before gives back exactly the frames taken for it |
| VirtualMemory.Machine.Copyout | p3b/xv6_submitted_ver_yudong/kernel/vm.c:370-393 | The bytes land at the address across pages; -1 or a crash exactly when a touched page is not the user's, and then the pages before it have been written; a crash exactly when the first page has no page table |
| VirtualMemory.Machine.Loaduvm | p3b/xv6_submitted_ver_yudong/kernel/vm.c:203-224 | The bytes of the file are in the pages from the address on; a short file fails, an unaligned address panics; bytes go to physical page 0 exactly when the segment begins at address 0 and is not empty |
| VirtualMemory.Machine.LoadPage | p3b/xv6_submitted_ver_yudong/kernel/vm.c:212-221 | One page of it |
| VirtualMemory.LoadAtZero | p3b/xv6_submitted_ver_yudong/kernel/vm.c:212-221 | A segment at address 0 lands in physical page 0 |
| VirtualMemory.TablesStay | p3b/xv6_submitted_ver_yudong/kernel/vm.c:52-72 | A page table that is there keeps its place while frames keep their use |
| VirtualMemory.ArgumentsHaveTables | p3b/xv6_submitted_ver_yudong/kernel/vm.c:356-368 | Every address that exec can copy arguments to has a page table, so copyout never crashes there |
| AddressLayout.RegionsApart | p3b/xv6_submitted_ver_yudong/kernel/exec.c:47-60 | Code, heap and stack pages are pairwise apart and the page under the heap is unmapped |
| AddressLayout.LateFailure | p3b/xv6_submitted_ver_yudong/kernel/exec.c:58 | Replacing heap_bot of a well laid out process keeps the layout if and only if the value is the old one |
| AddressLayout.FaultWindow | p3b/xv6_submitted_ver_yudong/kernel/trap.c:48 | The unsigned test accepts the lowest stack address and the page under it except that page's first byte |
| AddressLayout.FaultInput | p3b/xv6_submitted_ver_yudong/kernel/trap.c:48 | Address 0x9E000 under a one-page stack is refused, 0x9E001 accepted |
| AddressLayout.SbrkKeepsLayout | p3b/xv6_submitted_ver_yudong/kernel/sysproc.c:59-79 | A shrinking sbrk keeps the layout if and only if it does not end below the heap bottom |
| AddressLayout.SbrkInput | p3b/xv6_submitted_ver_yudong/kernel/sysproc.c:59-79 | Two shrinks of a one-page program that unmap its code, one reported as a success and one as a failure |
| AddressLayout.GrowKeepsLayout | p3b/xv6_submitted_ver_yudong/kernel/sysproc.c:72-78 | A growing sbrk that passes the check stays a page clear of the stack |
| AddressLayout.StackGrowsInLayout | p3b/xv6_submitted_ver_yudong/kernel/trap.c:46-60 | The page the fault handler adds is unmapped and keeps the three regions apart |
| AddressLayout.ImageLayout | p3b/xv6_submitted_ver_yudong/kernel/exec.c:55-60 | What exec builds satisfies the layout |
| AddressLayout.Tasks.Sbrk | p3b/xv6_submitted_ver_yudong/kernel/sysproc.c:59-79 | For n >= 0 succeeds exactly when the new size leaves a page under the stack free and the pages fit the free frames, for n < 0 exactly when 0 <= size + n + 4096 <= stack bound and the size is not 0; the pages and the size afterwards, whatever it answers; keeps every process well laid out exactly when it does not cut into code |
| AddressLayout.RefusedIs | p3b/xv6_submitted_ver_yudong/kernel/sysproc.c:72 | The unsigned test refuses exactly when the new size leaves no page under the stack, or is more than a page below 0 |
| AddressLayout.Tasks.Grow | p3b/xv6_submitted_ver_yudong/kernel/proc.c:107-123 | Zeroed pages up to the new size, or no change when frames run out |
| AddressLayout.Tasks.Shrink | p3b/xv6_submitted_ver_yudong/kernel/proc.c:107-123 | Pages above the new size go; a new size of 0 is reported as a failure although the pages are gone |
| AddressLayout.Tasks.Fault | p3b/xv6_submitted_ver_yudong/kernel/trap.c:46-60 | Grows the stack by one zero page exactly when the address is in the window, the heap is a page away, the limit allows it and a frame is free; the limit then holds |
| AddressLayout.Tasks.Exec | p3b/xv6_submitted_ver_yudong/kernel/exec.c:31-109 | The outcome follows from the free frames, the program and its arguments; success replaces the image by exactly the bytes of ImageView; a failure keeps the old pages, well laid out if and only if heap_bot was not reached or is the same; "remap" only for code that reaches the stack page |
| AddressLayout.Tasks.LoadImage | p3b/xv6_submitted_ver_yudong/kernel/exec.c:36-51 | Gets past the segment exactly when 13 frames and those of its pages are free, it ends below 640K, is no longer in the file than in memory and is all there; its bytes are then in place; otherwise the frames go back if setupkvm had succeeded |
| AddressLayout.Tasks.AddStack | p3b/xv6_submitted_ver_yudong/kernel/exec.c:59-89 | The stack page, then the arguments, which fit exactly as Fits says; "remap" exactly when code lies there and a frame is free |
| AddressLayout.Tasks.LoadSegment | p3b/xv6_submitted_ver_yudong/kernel/exec.c:36-51 | The body of the loop over the segments |
| AddressLayout.Tasks.PushArgs | p3b/xv6_submitted_ver_yudong/kernel/exec.c:63-81 | Succeeds exactly when there are at most 32 arguments and the block ends above the lowest mapped address under 640K; the strings and the words of ustack are then in memory, every other byte as before |
| AddressLayout.Tasks.PushString | p3b/xv6_submitted_ver_yudong/kernel/exec.c:64-70 | One string, aligned down to four bytes; copyout never meets a missing page table |
| AddressLayout.Tasks.Boot | p3b/xv6_submitted_ver_yudong/kernel/proc.c:76-103 | userinit and the first exec: exactly when the frames for both spaces are there, the first process has its image and the frames of the initial code are free again |
| AddressLayout.FramesBack | p3b/xv6_submitted_ver_yudong/kernel/vm.c:280-295 | Freeing a space gives back as many frames as making it took, whatever was taken in between |
| ExecImage.PieceMapped | p3b/xv6_submitted_ver_yudong/kernel/exec.c:66-70 | A piece of the argument block is mapped exactly when it does not go below the lowest address; its address lies under 16M or, wrapped, within 32M of 2^32 |
| ExecImage.StringPushed | p3b/xv6_submitted_ver_yudong/kernel/exec.c:64-71 | Copying one string adds it to the image of the strings before |
| ExecImage.WholeImage | p3b/xv6_submitted_ver_yudong/kernel/exec.c:36-81 | Segment, strings and words together are the image, byte by byte |
| ExecImage.ArgvReads | p3b/xv6_submitted_ver_yudong/kernel/exec.c:64-81 | argv[j] in memory points to a copy of argument j that ends in a NUL |
| ExecImage.FrameReads | p3b/xv6_submitted_ver_yudong/kernel/exec.c:72-81 | Return address, argc, argv and the final null stand where main looks for them, low bytes first |
| ExecImage.BlockPlan | p3b/xv6_submitted_ver_yudong/kernel/exec.c:63-79 | Each string with its NUL goes below the one before, at a multiple of four with at most three bytes lost; four words and one per argument go below the last |
| ExecImage.ExecAnswers | p3b/xv6_submitted_ver_yudong/kernel/exec.c:31-89 | In numbers, when exec of a program with a segment succeeds, panics or gets as far as storing heap_bot, and where the heap begins |
| ExecImage.ExecAnswersEmpty | p3b/xv6_submitted_ver_yudong/kernel/exec.c:31-89 | The same without a segment |
| ExecImage.CodeSurvives | p3b/xv6_submitted_ver_yudong/kernel/exec.c:63-81 | The argument block touches no code if and only if it stays in the stack page |
| ExecImage.CodeReads | p3b/xv6_submitted_ver_yudong/kernel/exec.c:40-51 | Under the argument block memory holds the bytes of the file at the segment's address and zeros behind them |
| ExecImage.CodeLostInput | p3b/xv6_submitted_ver_yudong/kernel/exec.c:63-81 | With code in every page below, an argument of 4096 characters fits and lies over code |
| AddressLayout.LateFailureInput | p3b/xv6_submitted_ver_yudong/kernel/exec.c:55-60 | An exec without segments and with an argument of 4096 characters fails and breaks the layout of its caller |
| AddressLayout.Tasks.NewExec | p3b/xv6_submitted_ver_yudong/kernel/sysproc.c:21-36 | The outcome of exec; the stack limit holds after success, and after a failure exactly when the old stack fits it |
| AddressLayout.LimitInput | p3b/xv6_submitted_ver_yudong/kernel/sysproc.c:21-36 | A failed new_exec with limit 1 leaves a process with two stack pages over its limit |
| AddressLayout.Tasks.Fork | p3b/xv6_submitted_ver_yudong/kernel/proc.c:129-164 | Takes a frame for the kernel stack, then copies: succeeds exactly when 14 frames and one for every page the parent has mapped are free; the child reads the same bytes at every user address; a failure leaves every frame as it was if and only if at most 1 or at least 14 were free |
| AddressLayout.PagesAre | p3b/xv6_submitted_ver_yudong/kernel/vm.c:308-345 | The three loops of copyuvm copy as many pages as are mapped |
| AddressLayout.ForkLeaks | p3b/xv6_submitted_ver_yudong/kernel/proc.c:129-143 | With 13 frames left a fork fails and 12 of them are gone |
| AddressLayout.Tasks.Reap | p3b/xv6_submitted_ver_yudong/kernel/proc.c:225-237 | The kernel stack and all frames of the zombie's address space are freed |
| AddressLayout.ForkedApart | p3b/xv6_submitted_ver_yudong/kernel/vm.c:297-353 | No two processes share a frame |
| LruRing.Unlink | p3b/xv6_submitted_ver_yudong/kernel/bio.c:126-127 | Two pointer writes take a buffer out of the ring and leave a ring of the others |
| LruRing.Push | p3b/xv6_submitted_ver_yudong/kernel/bio.c:128-132 | Four pointer writes put it behind the head |
| BufferCache.ClaimKeeps | p3b/xv6_submitted_ver_yudong/kernel/bio.c:70-91 | Claiming the found buffer, or recycling the victim with B_VALID cleared, keeps one buffer per block and one holder per busy buffer |
| BufferCache.ClaimSeen | p3b/xv6_submitted_ver_yudong/kernel/bio.c:82-91 | Recycling a buffer changes no block as its users see it |
| BufferCache.IoSeen | p3b/xv6_submitted_ver_yudong/kernel/bio.c:95-115 | A transfer between buffer and disk changes no block as its users see it |
| BufferCache.SeenIsDisk | p3b/xv6_submitted_ver_yudong/kernel/bio.c:1-22 | A block of which no modified buffer exists reads as on disk |
| BufferCache.StampKeeps | p3b/xv6_submitted_ver_yudong/kernel/bio.c:126-132 | Moving the released buffer to the front keeps the list in order of last release |
| Bio.Bcache.constructor | p3b/xv6_submitted_ver_yudong/kernel/bio.c:39-56 | binit makes a ring of all buffers, none of a real device |
| Bio.Bcache.Look | p3b/xv6_submitted_ver_yudong/kernel/bio.c:68-92 | The cached buffer, free or to be waited for; else the least recently released free one; else none is free |
| Bio.Bcache.Bget | p3b/xv6_submitted_ver_yudong/kernel/bio.c:61-93 | In every interleaving: the buffer that has the block is claimed with its content, or, if none has it, the least recently released free one with B_VALID cleared; the user sleeps on one that is busy with its block; the panic exactly when the block is not cached and all are busy; the contents seen do not change |
| Bio.Bcache.Claim | p3b/xv6_submitted_ver_yudong/kernel/bio.c:70-91 | The two ways a buffer is taken: the cached block keeps its flags and data, a recycled buffer is neither valid nor dirty |
| Bio.Bcache.Complete | p3b/xv6_submitted_ver_yudong/kernel/bio.c:95-115 | After the transfer the buffer equals its disk block; a written buffer's data is on disk |
| Bio.Bcache.Modify | p3b/xv6_submitted_ver_yudong/kernel/bio.c:107-115 | A holder's write changes its own block only |
| Bio.Bcache.Bwrite | p3b/xv6_submitted_ver_yudong/kernel/bio.c:107-115 | Marks the buffer dirty and hands it to the driver |
| Bio.Bcache.Brelse | p3b/xv6_submitted_ver_yudong/kernel/bio.c:117-137 | The buffer goes to the front with the latest release time; its sleepers, and nobody else, go back to look for the block they asked for; valid free buffers still equal the disk if and only if this one does |
| Bio.Bcache.ToFront | p3b/xv6_submitted_ver_yudong/kernel/bio.c:126-132 | The pointer writes of brelse move the buffer to the front and keep the order of the others |
| BufferCache.WantsKept | p3b/xv6_submitted_ver_yudong/kernel/bio.c:61-93 | A step on one buffer leaves every other user looking for, waiting for or holding the block it called bread with |
| Bio.WokenWants | p3b/xv6_submitted_ver_yudong/kernel/bio.c:76-78 | After a wakeup too, every user still wants the block it called bread with |
| Bio.HeldIsSeen | p3b/xv6_submitted_ver_yudong/kernel/bio.c:95-105 | What bread returns is the block it was called with, as every user sees it, and as it is on disk while unmodified |
| Bio.SleeperIsAwaited | p3b/xv6_submitted_ver_yudong/kernel/bio.c:76-78 | A sleeper's buffer is held by another user, so a wakeup is still to come |
| ProcTable.WakingKeeps | p3b/xv6_submitted_ver_yudong/kernel/proc.c:372-389 | Making sleepers runnable keeps the table invariant |
| ProcTable.ExitKeeps | p3b/xv6_submitted_ver_yudong/kernel/proc.c:169-207 | exit keeps it: the parent is woken, children go to init, init is woken for zombies, and the zombie has no children |
| ProcTable.ExitedIs | p3b/xv6_submitted_ver_yudong/kernel/proc.c:166-207 | What exit does to each slot, in terms of its old content |
| ProcTable.EmbryoKeeps | p3b/xv6_submitted_ver_yudong/kernel/proc.c:128-164 | The unlocked writes of fork keep it, in any interleaving |
| ProcTable.ReapKeeps | p3b/xv6_submitted_ver_yudong/kernel/proc.c:221-238 | wait returns a process number that no wait has returned before |
| ProcTable.LiveKeeps | p3b/xv6_submitted_ver_yudong/kernel/proc.c:335-368 | A change of state of one live process keeps it; sleeping in wait only without a zombie child |
| ProcTable.TargetIs | p3b/xv6_submitted_ver_yudong/kernel/proc.c:394-412 | The number of a process in the table finds that process |
| ProcTable.KillClean | p3b/xv6_submitted_ver_yudong/kernel/proc.c:394-412 | kill leaves unused slots unmarked if and only if the slot it finds is in use |
| Proc.Ptable.constructor | p3b/xv6_submitted_ver_yudong/kernel/proc.c:75-103 | One process, init |
| Proc.Ptable.Allocproc | p3b/xv6_submitted_ver_yudong/kernel/proc.c:28-73 | The first unused slot becomes an embryo with the next number; its killed flag and channel are left as they were; fails exactly when no slot is unused |
| Proc.Ptable.ForkFail | p3b/xv6_submitted_ver_yudong/kernel/proc.c:138-144 | The slot is unused again; it is left marked exactly when the embryo had been killed |
| Proc.Ptable.ForkParent | p3b/xv6_submitted_ver_yudong/kernel/proc.c:149 | The unlocked write of the parent, before the child can run |
| Proc.Ptable.Wakeup | p3b/xv6_submitted_ver_yudong/kernel/proc.c:382-389 | The same under the lock, which keeps the table invariant |
| Proc.Ptable.ForkCommit | p3b/xv6_submitted_ver_yudong/kernel/proc.c:160-163 | The child becomes runnable with its live parent |
| Proc.Ptable.Wakeup1 | p3b/xv6_submitted_ver_yudong/kernel/proc.c:370-380 | Slot by slot: who sleeps on the channel is runnable, every other slot as before |
| Proc.Ptable.Sleep | p3b/xv6_submitted_ver_yudong/kernel/proc.c:335-368 | The process is asleep on the event |
| Proc.Ptable.Exit | p3b/xv6_submitted_ver_yudong/kernel/proc.c:166-207 | Slot by slot: the process is a zombie; children have init as parent; the sleepers on the parent and, if a child is a zombie, those on init are runnable; nothing else changes |
| Proc.Ptable.Abandon | p3b/xv6_submitted_ver_yudong/kernel/proc.c:194-201 | Slot by slot: children go to init, whose sleepers wake exactly if one of them is a zombie |
| Proc.Ptable.Wait | p3b/xv6_submitted_ver_yudong/kernel/proc.c:209-250 | Collects the first zombie child: its slot is unused with number 0 and no parent, and no other slot changes but for the channel of a caller that slept; fails only without children or when killed; sleeps only with children and no zombie among them |
| Proc.Ptable.Kill | p3b/xv6_submitted_ver_yudong/kernel/proc.c:391-412 | Marks the first slot with that number, which is runnable afterwards if it slept, and touches no other; unused slots stay unmarked if and only if that one is in use |
| Proc.WaitersMissNothing | p3b/xv6_submitted_ver_yudong/kernel/proc.c:166-250 | Whoever sleeps in wait has no zombie child; zombies and unused slots have no children; the parent of every forked process is live |
| Proc.KillZeroMarksUnused | p3b/xv6_submitted_ver_yudong/kernel/proc.c:394-412 | kill(0) marks an unused slot, which the next process made there inherits |
| SleepLock.NextInv | p3b/xv6_submitted_ver_yudong/kernel/proc.c:333-389 | Every lock-by-lock step of sleepers and wakers keeps: a sleeper on a true condition has a wakeup coming |
| SleepLock.NoLostWakeup | p3b/xv6_submitted_ver_yudong/kernel/proc.c:333-389 | In every run of any number of sleepers and wakers no wakeup is lost |
| SleepLock.WakeupFindsSleeper | p3b/xv6_submitted_ver_yudong/kernel/proc.c:344-357 | A wakeup after the sleeper gave up its lock never meets it half asleep |
| Pipe.CounterTests | p3b/xv6_submitted_ver_yudong/kernel/pipe.c:82-113 | The tests on wrapping counters say empty and full exactly when the pipe is |
| Pipe.PutKeeps | p3b/xv6_submitted_ver_yudong/kernel/pipe.c:90 | Storing a byte keeps the ring equal to the unread bytes |
| Pipe.TakeKeeps | p3b/xv6_submitted_ver_yudong/kernel/pipe.c:113 | The byte taken is the oldest unread one |
| Pipe.PipeBuffer.Write | p3b/xv6_submitted_ver_yudong/kernel/pipe.c:75-95 | In every interleaving, sleeps included, the bytes a call has appended are exactly the first i of its buffer when it sleeps at i and all of them when it returns; the answer follows; sleepers stay right if and only if this is not a killed writer with more than 512 bytes left while a reader sleeps |
| Pipe.PipeBuffer.CopyIn | p3b/xv6_submitted_ver_yudong/kernel/pipe.c:80-91 | The copying loop goes on at byte i of the buffer and appends what fits, in order |
| Pipe.CallsGoOn | p3b/xv6_submitted_ver_yudong/kernel/pipe.c:75-118 | A step of one process keeps, for every other, the call it is in and the bytes it has sent |
| Pipe.WokenSide | p3b/xv6_submitted_ver_yudong/kernel/pipe.c:62-67 | A wakeup sends the sleepers of one side back into the call they are in, at the byte where they stopped, and touches nobody else |
| Pipe.KilledWriter | p3b/xv6_submitted_ver_yudong/kernel/pipe.c:80-87 | A killed writer of 513 bytes leaves a reader asleep at a full pipe |
| Pipe.PipeBuffer.CopyOut | p3b/xv6_submitted_ver_yudong/kernel/pipe.c:110-114 | The next unread bytes, as many as asked for or there are |
| Pipe.PipeBuffer.Read | p3b/xv6_submitted_ver_yudong/kernel/pipe.c:97-118 | Bytes read continue the prefix of bytes written, as many as the call asked for, also after a sleep, or there are; sleeps exactly at an empty pipe open for writing, unless killed |
| Pipe.PipeBuffer.Close | p3b/xv6_submitted_ver_yudong/kernel/pipe.c:57-73 | Wakes the other side and keeps the sleepers right |
| Pipe.PipeBuffer.Kill | p3b/xv6_submitted_ver_yudong/kernel/proc.c:394-412 | The process leaves its sleep |
| Pipe.PipeBuffer.KillMissed | p3b/xv6_submitted_ver_yudong/kernel/pipe.c:83-88 | A kill that falls between the test and the sleep leaves the process asleep, and sleepers right |
| Pipe.NeverBothAsleep | p3b/xv6_submitted_ver_yudong/kernel/pipe.c:75-118 | A reader and a writer are never asleep at the same time |
| NibbleMap.ScanFree | p3a/mem2.c:101-107 | At the start of a free run the running address is that of the run; when the run is long enough it is the lowest that fits |
| NibbleMap.ScanUsed | p3a/mem2.c:147-165 | Moving the address by the run and the block that begins here keeps it in step with the scan |
| NibbleMap.TakeKeeps | p3a/mem2.c:107-144 | Marking a free run as a block keeps blocks apart and the map exact |
| NibbleMap.GiveKeeps | p3a/mem2.c:204-213 | Clearing a block's nibbles keeps the other blocks |
| NibbleMap.HeadIsBlock | p3a/mem2.c:186-203 | A nibble 6, A or E stands exactly at the first unit of a block of 1, 5 and 16 units |
| NibbleMap.FreeUnitsOfPart | p3a/mem2.c:142 | Marking n free units lowers the count of zero nibbles by n |
| NibbleAllocator.Mem.Init | p3a/mem2.c:17-78 | The region is the request rounded up to whole pages; the map marks exactly its own units, one block each; mem_available is 31/32 of the region |
| NibbleAllocator.Mem.Mark | p3a/mem2.c:110-137 | The head and the continuation nibbles are written, every other nibble stays |
| NibbleAllocator.Mem.FindRun | p3a/mem2.c:94-167 | The lowest run that fits and its address, or none exactly when there is none |
| NibbleAllocator.Mem.Alloc | p3a/mem2.c:80-170 | The lowest fitting run as a new block clear of the header, or NULL exactly when there is none or the size is not 16, 80 or 256 |
| NibbleAllocator.Mem.Free | p3a/mem2.c:172-221 | Inside the region, succeeds exactly on the first byte of a block; the map stays sound if and only if that is not one of the header's, nor an address past the region where a byte looks like a block's |
| NibbleAllocator.FreeOfHeader | p3a/mem2.c:172-221 | In a region of one page freeing its first byte succeeds and breaks the map |
| NibbleAllocator.BlocksApart | p3a/mem2.c:80-221 | Two blocks in use share no byte |
| Tiling.TotalConstant | p3a/xuyi/mem1.c:112-237 | Sizes and headers add up to the region |
| Tiling.PayloadsApart | p3a/xuyi/mem1.c:112-237 | The bytes of two blocks, headers included, do not overlap |
| Tiling.SplitTiles | p3a/xuyi/mem1.c:138-149 | The split keeps the tiling if and only if neither part is negative |
| Tiling.SplitCoalesced | p3a/xuyi/mem1.c:138-149 | Splitting a free block leaves no two free neighbours and a free last block |
| Tiling.FreedCoalesced | p3a/xuyi/mem1.c:199-236 | After a free no two neighbours are free and the last block is |
| Tiling.FreedBusy | p3a/xuyi/mem1.c:163-237 | Exactly the given block leaves the busy ones |
| TilingAllocator.Region.constructor | p3a/xuyi/mem1.c:47-100 | One free block over the request rounded up to whole pages |
| TilingAllocator.Region.MemAlloc | p3a/xuyi/mem1.c:112-152 | First fit, in 32-bit arithmetic; NULL exactly when nothing fits; the list stays valid if and only if neither part of the split is negative, which 8-byte headers guarantee for requests below 2147483637 |
| TilingAllocator.Region.MemFree | p3a/xuyi/mem1.c:163-237 | Frees a busy block with its free neighbours, the unguarded next pointer never being NULL; -1 for a free block; for any other aligned pointer -1 or, exactly when the word in front looks like a busy header, a crash |
| TilingAllocator.Region.Merge | p3a/xuyi/mem1.c:196-236 | A busy block becomes free and joins its free neighbours in each of the four cases |
| TilingAllocator.StrayFree | p3a/xuyi/mem1.c:163-194 | A pointer into a fresh page with 5 in front of it crashes |
| TilingAllocator.Region.FindPrev | p3a/xuyi/mem1.c:191-200 | The block before, or the block itself when it is the first; NULL exactly when the address is no block |
| TilingAllocator.WideHeaderBreaks | p3a/xuyi/mem1.c:129 | With 16-byte headers a fresh page and a request of 4072 bytes break the tiling |
| Tiling.RequestSizes | p3a/xuyi/mem1.c:119-129 | Below 2147483637 a request grows by less than four bytes to a multiple of four; from there on it wraps, and then any free block passes the test |
| TilingAllocator.LargeRequestBreaks | p3a/xuyi/mem1.c:119-129 | Every such request breaks the tiling of a fresh page |
| RequestQueue.InsertedSorted | p4a/server.c:56-82 | Insertion keeps the queue sorted and adds just the new request |
| RequestQueue.InsertedStable | p4a/server.c:68-71 | Requests of equal size stay in order of arrival |
| RequestQueue.Queue.Put | p4a/server.c:56-82 | The window becomes the old one with the request inserted; fill_index follows it; other slots are untouched |
| RequestQueue.Queue.Bubble | p4a/server.c:65-79 | The swap loop stops where the request belongs |
| RequestQueue.Queue.Get | p4a/server.c:84-90 | The first arrived of the smallest requests; the rest stay |
| WebMonitor.Server.Produce | p4a/server.c:103-119 | Waits exactly when the buffer is full; otherwise a waiting consumer wakes; the monitor invariant holds |
| WebMonitor.Server.Consume | p4a/server.c:125-136 | Waits exactly when the buffer is empty; otherwise takes the smallest request and wakes the producer |
| WebMonitor.Server.SpuriousConsumer | p4a/server.c:128-129 | A wait that returns without a signal keeps the monitor invariant |
| WebMonitor.NeverAllWaiting | p4a/server.c:103-136 | The producer and all consumers are never all waiting |
| Regex.Match | p3b/xv6_submitted_ver_yudong/user/grep.c:71-81 | 1 exactly when some substring is in the pattern's language: from the start after "^", to the end before an anchoring "$" |
| Regex.MatchHere | p3b/xv6_submitted_ver_yudong/user/grep.c:83-95 | 1 exactly when a prefix of the text is in the language; terminates by pattern length |
| Regex.MatchStar | p3b/xv6_submitted_ver_yudong/user/grep.c:97-105 | 1 exactly when some number of repetitions followed by the rest matches |
| Regex.StarMatches | p3b/xv6_submitted_ver_yudong/user/grep.c:88-89 | A starred character matches any number of copies, of any character for ".", followed by a match of the rest |
| Regex.OneMatches | p3b/xv6_submitted_ver_yudong/user/grep.c:92-93 | A single character matches one text character followed by a match of the rest |
| Regex.LanguageIsPieces | p3b/xv6_submitted_ver_yudong/user/grep.c:65-66 | The language is the concatenations of one piece per pattern atom |

## Left out

- FileSystem.FileSystem.Writei: when more blocks are needed than are free the outcome is `OutOfBlocks`, which stands for the panic of `balloc` or for a block number beyond the disk; nothing is promised afterwards.
- FileSystem.FileSystem.Readi: a device inode gives `Device`; the device drivers are not part of this model.
- FileSystem.FileSystem.Iput: the reference count is an argument; `iget`, `idup` and the inode locks are not modelled, so file-system calls are sequential.
- FileSystem.FileSystem.Format: the directories and files that the image builder adds, with sizes rounded up to blocks, are not modelled; runs start from the empty image.
- SysCalls.Create: calls are sequential; no file is open and no directory in use as cwd is unlinked, so each last `iput` frees (`FsRuns.Serve` stops at a call whose cwd is gone). `sys_open` and file descriptors are not modelled.
- SysCalls.MakeRoot: the root of the image builder has its size rounded up to a block, which this one has not.
- Disk errors, crashes in the middle of a call, and the buffer cache under the file system (its agreement with the disk is proved in `Bio`).
- Shell.Parsecmd: running the commands, and the allocation of command nodes; the commands point into the line by positions.
- Umalloc.Heap.Morecore: `sbrk` is taken to provide the memory asked for; from 2^31 - 15 bytes on the byte count is no positive int (`Umalloc.GrowsByInt`), and what `sbrk` then does is not followed.
- AddressLayout.Tasks.Exec: at most one LOAD segment, which does not reach around 2^32, and readable program headers; the arguments are strings of less than 640K each.
- VirtualMemory.Machine.Allocuvm: calls on address spaces are sequential; `kalloc` and `kfree` lock frame by frame, and another processor taking frames in the middle of `allocuvm`, `copyuvm` or `exec` is not modelled. The same holds of `Copyuvm`, `Fork` and `Exec`.
- VirtualMemory.Machine.MapKernel: of the permission bits of an entry only the user bit is modelled; the write bit, which of all pages only the kernel's text lacks, is not.
- AddressLayout.Tasks.Fault: a fault that is not handled kills the process; traps other than page faults are not modelled.
- The first process before its exec, which has no stack bound, and the exemptions for process 1 in argument checks.
- Bio.Bcache.Bget: a process that holds several buffers counts as several users; the disk queue and its driver are one completion step, and disk 1 being absent is not modelled.
- Proc.Ptable.Allocproc: process numbers do not overflow; kernel stacks, trap frames, open files and cwd are not part of the table.
- Proc.Ptable.Schedule: the scheduler's loop and context switches are one step that picks any runnable process.
- Pipe.PipeBuffer.Close: that an end in use is open comes from file reference counts, which are a precondition here; freeing the pipe's page is not modelled.
- NibbleAllocator.Mem.Init: page sizes that are multiples of 512; sums of `int` sizes do not overflow; the mutex makes calls sequential.
- NibbleAllocator.Mem.Free: pointers below the region, where the code shifts by negative amounts; past it, the bytes overwritten there; before `Mem_Init`, the crash when the byte cannot be read.
- TilingAllocator.Region.MemFree: the word in front of a pointer that is no block is an input, since payload bytes are not modelled.
- TilingAllocator.Region.MemAlloc: what else the wild writes after a wrapped request hit.
- RequestQueue.Queue.Put: file names are strings; the fixed-size copies of `rc_cpy` and the `stat` record are not modelled.
- WebMonitor.Server.Consume: handling the request, which the server does inside the mutex, and `Accept`.
- Regex.Match: `grep`'s line buffer; text longer than it.
- The other allocators of p3a, the UDP file server of p5a and the lottery scheduler of p2b, whose code does not keep the invariants it aims at.
- Hardware and boot, device drivers, system-call argument checks, `printf`, user test programs and the socket code: mostly input and output.
