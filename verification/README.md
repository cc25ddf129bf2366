# Verified models of seven laboratory systems

The repository holds solutions to operating-systems laboratories, written in C.
This project models the seven components whose correctness is not obvious from
any one function, and proves what they promise, or exactly when they do not keep
it. `dafny verify dfyconfig.toml` checks everything.

**OSPFS** (`Ospfs*.dfy`). The disk is an array of blocks with a free-block
bitmap; each inode holds a tree of ten direct, 256 indirect and 256 times 256
doubly indirect block pointers. `OspfsDisk`, `OspfsTree` and `OspfsSpec` define
pointers, trees and the functions `AddBlock`, `RemoveBlock`, `ChangeSize`;
`OspfsInv`, `OspfsBlocks`, `OspfsResize` and `OspfsChangeSize` prove the
allocator's invariant and conservation over all files; `OspfsBytes` shows that
writing refines a flat byte sequence; `OspfsDirs` and `OspfsLinks` treat
directories as sequences of entries, and a directory as a map from names to
inodes. `OspfsKernel` and `OspfsDirOps` are the kernel code in place, on arrays
of bitmap words, blocks and inodes, proved equal to these functions.

**The formatter** (`Format*.dfy`). `FormatCache` is the 16-slot write-back cache
in place; `FormatImage` compares `storeblk` with the kernel's `add_block` and
decoder; `FormatRuns` follows whole images; `FormatFresh` is the disk
without files, from which runs of directory calls start, and holds real inputs for
the failures below; `FormatFull` is a directory of 266 full blocks; `FormatDisk` is
the formatter in place, working through the cache, and `FormatWhole` a whole run of it.

**The ramdisk lock** (`Osprd*.dfy`). `OsprdLock` is a state machine whose
interleaved steps are the critical sections and waits of the ioctl calls. Testing
the wait condition and granting the lock are two separate steps. `OsprdDevice`
shows that each piece of the driver, in place, with its linked list of readers, is one step.

**Two MD5s** (`Md5*.dfy`). `Md5Spec` states RFC 1321; `Md5Lab3` and `Md5Lab4` are
the two streaming implementations in place; `Md5Text` covers the text digests, and
`Md5Vector` computes the standard's first test vector.

**The peer** (`Peer*.dfy`). The bounded task buffer under any schedule of short
reads and writes; the message codec (`PeerCodec`), the formatting loop (`PeerCodecOps`)
and the scanning loop (`PeerScan`), on buffers and memory as they are. `PeerText` says
which texts the codec writes and reads, character by character.

**Schedulers** (`Schedos.dfy`) and **process table** (`Mpos*.dfy`). The
scheduling algorithms, and fork, newthread, yield, exit, kill and wait; `MposCalls` says
what each call returns and leaves in every slot. `Options`
holds one datatype that several of the modules share.

## Where the code and its documentation differ

The models follow the code. What it then does instead is stated exactly.

- `remove_block` frees the block at index n, the count, where its header asks for
  the last block (lab3/ospfsmod.c:812-832, 838-873). A file may therefore own one
  block more than its size needs; the next growth overwrites and loses it. Shrinking
  keeps one block too many (`SpareLostExample`), and -ENOSPC is undone exactly only when the first
  `add_block` failed. `OspfsDocumented` proves the exact undo for the index the
  header asks for.
- When the third allocation fails at block 266, `oi_indirect2` keeps pointing at a
  freed block (lab3/ospfsmod.c:779-797). This is the case `Dangles`: 266 blocks
  and no spare, growing, with exactly two blocks free. `DanglesExample` gets there
  with two calls from a fresh disk, `LinkBreaksExample` with a directory.
- Sizes within a block of 2^32 round up to zero blocks (lab3/ospfsmod.c:136-139;
  `SizeWrapsExample`).
- `ospfs_create` cuts long names to 123 bytes, having looked up the full one, and
  claims an inode before it finds an entry (lab3/ospfsmod.c:1310-1351). So a name can
  come up twice (`CreateClashExample`), and an inode be lost (`CreateWastesExample`).
  It keeps a reused inode's block pointers: they belong to the spare block, if any.
- Deleting a file's last name keeps one of its blocks, for the reason above
  (`UnlinkKeepsBlockExample`).
- lab3's MD5 length words drop carries (lab3/md5.c:268-281). They are right for
  exactly the lengths `LengthCounts` describes, which include all below 2^29.
- Without `allow_at` the text digest is not injective (lab4/md5.c:402-405).
- The -EDEADLK returns keep a ticket that is never retired
  (lab2/osprd.c:275-281, 289-293), after which nobody is ever served; and the
  loops that should unlink a reader unlink nothing (lab2/osprd.c:184-199,
  472-487), so that a process once granted a read lock loses a ticket whenever it asks
  for a write lock. A second read lock on a locked file is counted and never released.
- `%d` does not read back 2147483638 and above, nor negative numbers
  (lab4/writescan.c:199-211).
- `%d` asks for ten characters of room and may write eleven and a null byte
  (lab4/writescan.c:104-110): `OverrunExample` writes one byte past the buffer.
- The %s loop of the scanner looks for the two digits of an escape without asking whether
  the text ends before them (lab4/writescan.c:162-166). It gets behind the text exactly
  when no space comes and the text ends in an escape that the memory behind it completes;
  `PeerScan` states this for whole formats. A null byte behind the text stops it.
- Every process starts with share -1 (weensyos2/schedos-kern.c:95), which means no end:
  once dispatched by algorithm 3 or 4 it is dispatched at every call. So is one whose
  share is lowered below its count.
- A second `sys_wait` for one process forgets the first waiter
  (weensyos1/mpos-kern.c:236-241).
- `sys_kill` of a blocked process leaves its number in the wait queue of the one it
  waits for, whose exit then makes the empty slot runnable; and of a zombie it wakes
  whoever the zombie's stale wait queue names (weensyos1/mpos-kern.c:185-218).

## Model

| member | source | states |
|---|---|---|
| `OspfsChangeSize.InvMeans` | lab3/ospfsmod.c:608-700 | what the invariant says: over all files and all direct, indirect and doubly indirect pointers, a block is used once only, lies in the data area, is not free, and exactly the pointers the size needs (up to one spare file block) are there |
| `OspfsChangeSize.Conservation` | lab3/ospfsmod.c:581-615 | free blocks, the cost of every file (n, one more past 10 blocks, two and one per 256 past 266) and lost blocks make up the whole data area |
| `OspfsChangeSize.ResizeKeepsInv` | lab3/ospfsmod.c:916-947 | for every file, size and disk: the invariant survives `change_size` if and only if the rounded size does not wrap and the call does not run into the half-failed growth at block 266 |
| `OspfsChangeSize.UnsafeBreaks` | lab3/ospfsmod.c:779-797 | the calls shut out really break it: an inode that points at a free block, or a size beyond the file's blocks |
| `FormatFresh.DanglesExample` | lab3/ospfsmod.c:779-797 | on a fresh disk of 273 blocks, resizing a file to 266 blocks and then by one byte more gets there: -ENOSPC and an inode pointing at a free block |
| `FormatFresh.SizeWrapsExample` | lab3/ospfsmod.c:136-139 | on a fresh disk an empty file asked to have 2^32 - 1 bytes gets that size and no block |
| `OspfsChangeSize.ResizeEffect` | lab3/ospfsmod.c:916-947 | when a safe call succeeds, how many blocks the file ends with, which bytes and other files stay, and that one block is lost exactly when growth overwrites the block an earlier shrink left behind |
| `FormatFresh.SpareLostExample` | lab3/ospfsmod.c:812-832 | on a fresh disk a file grows to one block, shrinks to none and grows again: two blocks are gone for a file of one, and one of them no file reaches |
| `OspfsChangeSize.EnospcKeepsFile` | lab3/ospfsmod.c:922-932 | after -ENOSPC the size, every visible block and its contents, and every other file are as before |
| `OspfsChangeSize.EnospcRestores` | lab3/ospfsmod.c:922-932 | -ENOSPC restores inode, block map and bitmap exactly if and only if the first `add_block` was the one that failed, without the half-failed growth at 266 |
| `OspfsChangeSize.RollbackKeepsABlock` | lab3/ospfsmod.c:812-838 | a concrete disk on which the exact undo that the header promises fails: an empty file keeps one block |
| `OspfsChangeSize.RunSafe` | lab3/ospfsmod.c:916-947 | over every run of safe calls on any files the invariant holds and blocks are conserved up to the losses counted |
| `OspfsChangeSize.LoopsEffect` | lab3/ospfsmod.c:921-941 | what the growing, shrinking and rollback loops do together to free map, trees and contents |
| `OspfsChangeSize.RemoveMends` | lab3/ospfsmod.c:846-858 | `remove_block` at 266 clears the pointer a failed growth left at a freed block |
| `OspfsBlocks.AddTop` | lab3/ospfsmod.c:743-809 | `add_block` on file block n succeeds exactly when as many blocks are free as the tree needs, hangs a zeroed block in the right place, and keeps all else |
| `OspfsBlocks.AddFails` | lab3/ospfsmod.c:754-797 | a failed `add_block` gives back what it took, but for the doubly indirect pointer when its third allocation fails |
| `OspfsBlocks.RemoveTop` | lab3/ospfsmod.c:834-877 | `remove_block` on the last block of the tree frees it and each index block it was alone in, and leaves the rest |
| `OspfsBlocks.RemoveNull` | lab3/ospfsmod.c:834-877 | `remove_block` at an index just past the tree changes no tree and no bitmap bit |
| `OspfsResize.AddStep` | lab3/ospfsmod.c:743-809 | one growth step with its size update, the spare slot overwritten when there is one |
| `OspfsResize.RemoveStep` | lab3/ospfsmod.c:834-877 | one shrink step as written: slot n is freed, slot n - 1 stays |
| `OspfsResize.FailedKeeps` | lab3/ospfsmod.c:779-797 | the failed third allocation leaves free map, trees and used blocks alone |
| `OspfsInv.LinkCore` | lab3/ospfsmod.c:755-805 | hanging a fresh block anywhere in a tree keeps all blocks of all files distinct and used |
| `OspfsInv.DropCore` | lab3/ospfsmod.c:840-873 | clearing a pointer and freeing its block keeps them so too |
| `OspfsInv.LinkAll` | lab3/ospfsmod.c:755-805 | a stored pointer changes that entry of that file's tree and no other pointer or data block of any file |
| `OspfsTree.LinkAt` | lab3/ospfsmod.c:648-700 | the three index functions address each pointer once: storing one changes no other |
| `OspfsDocumented.GrowThenUndo` | lab3/ospfsmod.c:812-832 | with the documented index n - 1, the growing loop to any block count and the removal of as many blocks restore inode and free map exactly, across every boundary of the tree |
| `OspfsDocumented.DocumentedResize` | lab3/ospfsmod.c:880-947 | `change_size` with the documented index and the cleared pointer, for every size: -ENOSPC exactly when the blocks do not suffice, and then everything is as before; on success the size asked for, no block left behind or lost, old bytes kept, new blocks zero, other files untouched |
| `OspfsDocumented.DocRuns` | lab3/ospfsmod.c:916-947 | over every run of such calls on any files, with no condition on them: the invariant holds and free blocks and file costs add up to the same sum |
| `OspfsKernel.Ospfs.BitvectorTest` | lab3/ospfsmod.c:117-122 | one bit of the in-place bitmap, by word and mask |
| `OspfsKernel.Ospfs.BitvectorSet` | lab3/ospfsmod.c:103-108 | sets that bit of the map and no other |
| `OspfsKernel.Ospfs.BitvectorClear` | lab3/ospfsmod.c:110-115 | clears that bit of the map and no other |
| `OspfsBits.BitUpdate` | lab3/ospfsmod.c:103-122 | setting or clearing bit i of the word array changes bit i only |
| `OspfsKernel.Ospfs.AllocateBlock` | lab3/ospfsmod.c:581-594 | takes the lowest free block from 2 on, or gives 0 and changes nothing |
| `OspfsKernel.Ospfs.FreeBlock` | lab3/ospfsmod.c:608-615 | sets the block's bit, unless it lies before the inodes |
| `OspfsKernel.Ospfs.AddBlock` | lab3/ospfsmod.c:743-809 | in place, equal to the function the lemmas are about |
| `OspfsKernel.Ospfs.RemoveBlock` | lab3/ospfsmod.c:834-877 | in place, equal to the function the lemmas are about; -EIO exactly on an empty file |
| `OspfsKernel.Ospfs.ChangeSize` | lab3/ospfsmod.c:916-947 | the loops in place: new disk, bitmap, inode and status are those of the function whose invariant, effect and rollback are proved |
| `OspfsKernel.Ospfs.InodeBlockno` | lab3/ospfsmod.c:181-197 | three-level lookup; 0 past the end of the file and for symlinks |
| `OspfsKernel.Ospfs.Read` | lab3/ospfsmod.c:1002-1053 | for every position and count: exactly the slice of the file's flat byte sequence, cut at its end; -EIO past it |
| `OspfsKernel.Ospfs.Write` | lab3/ospfsmod.c:1073-1133 | appending or not, for every disk: -ENOSPC with the file as it was, or all bytes written at their place in the flat sequence |
| `OspfsKernel.Ospfs.WriteBlocks` | lab3/ospfsmod.c:1096-1128 | the copying loop across blocks |
| `OspfsBytes.WriteFlat` | lab3/ospfsmod.c:1073-1133 | a write at any position changes exactly its bytes, keeps the earlier ones, gives zeros in added blocks and touches no other file |
| `OspfsBytes.ResizeBytes` | lab3/ospfsmod.c:886-947 | a resize keeps the bytes of kept blocks, zeroes added ones, and keeps other files |
| `OspfsBytes.BlockWrite` | lab3/ospfsmod.c:1118-1122 | a data block of one file holds bytes of that file block only |
| `OspfsDirs.StoreEntry` | lab3/ospfsmod.c:1262-1265 | the 128 bytes of an entry, written in place, replace that entry of the directory |
| `OspfsDirs.ClearEntry` | lab3/ospfsmod.c:538-541 | clearing the inode number blanks that entry only |
| `OspfsDirs.GrownEntries` | lab3/ospfsmod.c:1204-1216 | the zero bytes of a grown directory are blank entries |
| `OspfsDirs.EntryEffect` | lab3/ospfsmod.c:1260-1266 | bytes stored at an entry change that directory's contents there and nothing else |
| `OspfsDirs.BlankEffect` | lab3/ospfsmod.c:1192-1219 | which entry is found: the first blank one, or in a full directory the second of the 64 blank ones that its growth adds; all entries stay, and all other files |
| `OspfsDirs.BlankExactly` | lab3/ospfsmod.c:1192-1219 | an entry is found exactly when the directory has a blank one or as many blocks are free as eight more of its blocks need |
| `OspfsDirs.UnsafeGrowth` | lab3/ospfsmod.c:1192-1219 | exactly where growing a directory is unsafe: it fails and breaks the allocator |
| `OspfsDirs.FrameContents` | lab3/ospfsmod.c:916-947 | a resize keeps the bytes below both sizes and the contents of all other files |
| `OspfsLinks.FindNames` | lab3/ospfsmod.c:1147-1161 | the search decides whether a name is bound, and to which inode |
| `OspfsLinks.NamesBind` | lab3/ospfsmod.c:1260-1266 | filling a blank entry binds one new name and keeps names unique |
| `OspfsLinks.NamesUnbind` | lab3/ospfsmod.c:538-541 | blanking an entry unbinds its name and no other |
| `OspfsLinks.LinkKeeps` | lab3/ospfsmod.c:1250-1268 | each error exactly in its case, -ENOSPC exactly without space; on success one more name and one more link, else nothing; no regular file changes its size or bytes; the directories stay in order if and only if the call does not make a full directory grow into the dangling case |
| `OspfsLinks.LinkBreaks` | lab3/ospfsmod.c:1192-1268 | that one growth: link fails and the allocator is no longer sound |
| `FormatFull.LinkBreaksExample` | lab3/ospfsmod.c:1192-1268 | a disk of 273 blocks with a root directory of 266: one create and 2127 links keep it in order, the next link does this |
| `OspfsLinks.FreeInodeUnnamed` | lab3/ospfsmod.c:1299-1307 | the inode found is never one that an entry names |
| `OspfsLinks.CreateKeeps` | lab3/ospfsmod.c:1310-1351 | each error exactly in its case; the cut name bound to an unnamed inode of size 0; no regular file changes its size or bytes; consistency kept if and only if the name is there already, no inode is free, or there is space for an entry and the cut name is not taken |
| `OspfsLinks.ClaimWasted` | lab3/ospfsmod.c:1329-1341 | a create that fails after claiming leaves an inode with one link and no name |
| `FormatFresh.CreateWastesExample` | lab3/ospfsmod.c:1329-1341 | the first create on a fresh disk of 6 blocks does so |
| `FormatFresh.CreateClashExample` | lab3/ospfsmod.c:1310-1351 | two creates on a fresh disk of 20 blocks, of names that agree in 123 bytes, both succeed and enter one name twice |
| `OspfsLinks.UnlinkKeeps` | lab3/ospfsmod.c:525-554 | the name goes, the count drops, blocks are released exactly when the last name goes, and then all but one; no other regular file changes its size or bytes, nor does this one while it has a name |
| `FormatFresh.UnlinkKeepsBlockExample` | lab3/ospfsmod.c:525-554 | a file of one block created on a fresh disk and unlinked is an unused inode of size 0 whose block is not free |
| `OspfsLinks.ResizeKeeps` | lab3/ospfsmod.c:916-947 | `change_size` on a file keeps the directories in order if and only if it keeps the allocator sound, and then the size and bytes of every other regular file |
| `OspfsLinks.ApplyKeeps` | lab3/ospfsmod.c:525-1351 | one create, link, unlink, resize or store of bytes keeps the directories in order if and only if its condition holds |
| `OspfsLinks.RunsKeepLinks` | lab3/ospfsmod.c:525-1351 | over every run of create, link, unlink, resize and store calls, mixed in any way, that meet those conditions when they come: names unique, link count equal to the number of entries, allocator sound |
| `OspfsDirOps.FindDirentry` | lab3/ospfsmod.c:1147-1161 | the loop over entries is the specified search |
| `OspfsDirOps.CreateBlankDirentry` | lab3/ospfsmod.c:1192-1219 | the search and the growth are the specified ones |
| `OspfsDirOps.LinkFile` | lab3/ospfsmod.c:1250-1268 | in place, equal to the specified link |
| `OspfsDirOps.FreeInode` | lab3/ospfsmod.c:1299-1307 | the loop gives the first inode from 2 on without links |
| `OspfsDirOps.CreateFile` | lab3/ospfsmod.c:1310-1351 | in place, equal to the specified create |
| `OspfsDirOps.UnlinkFile` | lab3/ospfsmod.c:525-554 | in place, equal to the specified unlink |
| `FormatFresh.FreshLinked` | lab3/ospfsformat.c:782-810 | for all arguments main accepts, the disk it writes without files has an empty root directory and meets every condition the directory results ask for |
| `FormatFresh.FreshRunsKeepLinks` | lab3/ospfsmod.c:525-1351 | so from a fresh disk on every run of link, unlink and store calls, of creates that have space and no clash and of safe resizes, keeps names unique, counts right and the allocator sound: no directory ever gets to 266 blocks |
| `FormatCache.Cache.GetBlk` | lab3/ospfsformat.c:207-263 | aborts only off the disk, with every slot busy, or on a type clash; otherwise the block's slot, every busy slot still bound to its block |
| `FormatCache.Cache.Write` | lab3/ospfsformat.c:207-269 | a write through a held pointer reaches that block of the uncached disk |
| `FormatCache.Cache.FlushDisk` | lab3/ospfsformat.c:713-721 | afterwards the disk is the uncached one |
| `FormatCache.Run` | lab3/ospfsformat.c:194-269 | for every sequence of getblk, write and putblk and the final flush, the disk is that of the same operations without a cache; with fewer than 16 pointers held and no block taken twice it never aborts |
| `FormatImage.StoreIsAdd` | lab3/ospfsformat.c:318-360 | `storeblk` does what the kernel's `add_block` does once the data block is taken: same pointers, same index blocks, same order, same failure |
| `FormatImage.StoreDecodes` | lab3/ospfsformat.c:318-360 | the kernel's decoder finds block n where `storeblk` put it, at each level |
| `FormatImage.StoreCommutes` | lab3/ospfsformat.c:503-519 | storing a block and filling it commute |
| `FormatRuns.AppendGood` | lab3/ospfsformat.c:503-519 | a block can be stored exactly when the disk has room for it and its index blocks and the file is not full; the image stays well formed |
| `FormatRuns.ImageIsSound` | lab3/ospfsformat.c:678-695 | after any formatter run the image handed over satisfies the kernel allocator's invariant: nothing reachable is free or shared |
| `FormatRuns.KernelReadsBack` | lab3/ospfsformat.c:503-525 | for every offset of every file the kernel's lookup gives the block stored there, and its byte |
| `FormatRuns.StoredDistinct` | lab3/ospfsformat.c:503-519 | stored blocks are pairwise distinct, in the data area and below nextb |
| `FormatRuns.ReadsBytes` | lab3/ospfsformat.c:503-525 | the kernel's view of a written file is the bytes written |
| `FormatDisk.Formatter.constructor` | lab3/ospfsformat.c:271-316 | an empty well-formed image |
| `FormatDisk.Formatter.StoreBlock` | lab3/ospfsformat.c:318-360 | through the cache, equal to the uncached `storeblk`; fails only where that one does or the cache is short |
| `FormatDisk.Formatter.WriteData` | lab3/ospfsformat.c:503-525 | the data loop: when it does not abort the file holds exactly the bytes, zeroes behind them in its last block, and others are kept; with a quiet cache it aborts if and only if the disk has too few blocks, counting the one fetched to find the end of a file of whole blocks |
| `FormatDisk.Formatter.FinishFs` | lab3/ospfsformat.c:678-695 | bit i of the free map is set if and only if nextb <= i < nblocks |
| `FormatDisk.Formatter.LastDirBlock` | lab3/ospfsformat.c:383-400 | the walk to a directory's last block ends at the one the kernel decodes |
| `FormatWhole.FormatFiles` | lab3/ospfsformat.c:271-721 | opendisk, the bytes of one file after another, finishfs and the final flush, all in place: it ends normally if and only if the blocks suffice, and then the kernel finds a sound allocator and in every file exactly the bytes given |
| `OsprdLock.NextInv` | lab2/osprd.c:221-497 | every step of every call, in any interleaving, keeps the lock invariant |
| `OsprdLock.Exclusion` | lab2/osprd.c:274-459 | in every reachable state at most one writer and no reader beside it; the write counter equals the files flagged, the read counter if and only if no flagged file was granted again |
| `OsprdLock.TicketPartition` | lab2/osprd.c:274-327 | every live ticket is with one waiter, abandoned, or lost to -EDEADLK; never two of these |
| `OsprdLock.NoBubble` | lab2/osprd.c:300-326 | the ticket served belongs to a waiter if and only if it was not lost to -EDEADLK |
| `OsprdLock.NoStall` | lab2/osprd.c:298-387 | unless the served ticket is lost, its owner can move or the lock is held |
| `OsprdLock.GrantsInOrder` | lab2/osprd.c:314-387 | grants come in strictly increasing ticket order |
| `OsprdLock.PassesExactly` | lab2/osprd.c:298-343 | in every reachable state, over the files and counters: a waiting task may pass if and only if its ticket is served, no file is locked for writing and, when its own is writable, nobody reads |
| `OsprdLock.GrantExactly` | lab2/osprd.c:318-387 | what a grant changes: the file flagged, one counter, writer or reader list, and the tail moved to the next ticket not abandoned |
| `OsprdLock.InterruptExactly` | lab2/osprd.c:301-316 | what a signal changes: the ticket is passed over, at once if it is served and later if not |
| `OsprdLock.ReleaseExactly` | lab2/osprd.c:162-491 | what a release and a last close change |
| `OsprdLock.AcquireExactly` | lab2/osprd.c:274-297 | each blocking acquire takes one ticket; -EDEADLK exactly for the process with the write lock and for a writer on the reader list |
| `OsprdLock.TryExactly` | lab2/osprd.c:390-443 | in every reachable state: a non-blocking acquire gets the lock if and only if no ticket is out, no file is locked for writing and, for a writer, nobody reads; what it then changes |
| `OsprdLock.TwoReadersExample` | lab2/osprd.c:298-387 | a run from setup in which two blocking acquires hold read locks at one time |
| `OsprdLock.TryOvertakesNobody` | lab2/osprd.c:390-443 | a non-blocking acquire succeeds only when nobody waits |
| `OsprdLock.RefusalStopsDevice` | lab2/osprd.c:275-293 | a ticket lost to -EDEADLK stops all later grants in every continuation |
| `OsprdLock.RefusalExample` | lab2/osprd.c:275-281 | a run from setup that gets there |
| `OsprdLock.RegrantBlocksWriters` | lab2/osprd.c:402-491 | a read grant on a flagged file keeps the read counter above zero for ever, so no writer is granted |
| `OsprdLock.RegrantExample` | lab2/osprd.c:426-491 | a run from setup that gets there |
| `OsprdLock.OnceReader` | lab2/osprd.c:184-297 | a process once granted a read lock stays on the reader list in every continuation, whatever is released: it never again waits for a write lock, each blocking acquire for one is refused and loses its ticket |
| `OsprdLock.OnceReaderExample` | lab2/osprd.c:285-293 | a run from setup in which a process takes and releases a read lock and then asks for a write lock: nobody holds the lock or waits, and the ticket served is lost |
| `OsprdDevice.Osprd.Setup` | lab2/osprd.c:501-514 | the initial state of the state machine |
| `OsprdDevice.Osprd.OpenFile` | lab2/osprd.c:151-157 | opening gives a file that holds no lock: the Open step |
| `OsprdDevice.Osprd.SkipTickets` | lab2/osprd.c:305-311 | the restarting loop over the array terminates at the first ticket not abandoned |
| `OsprdDevice.ReaderList.Contains` | lab2/osprd.c:286-295 | the walk over the linked list finds a process if and only if it is on it |
| `OsprdDevice.ReaderList.Append` | lab2/osprd.c:363-376 | the walk to the end hangs a new node there |
| `OsprdDevice.ReaderList.Unlink` | lab2/osprd.c:184-199 | the loop that is to unlink a process leaves every node and link as it was, because both cursors move together |
| `OsprdDevice.Osprd.TakeTicket` | lab2/osprd.c:274-282 | the first critical section is the Acquire step |
| `OsprdDevice.Osprd.CheckReaders` | lab2/osprd.c:285-297 | the search of the reader list is the Check step |
| `OsprdDevice.Osprd.TestWait` | lab2/osprd.c:298-343 | the wait condition, in place, is the Pass step that `OsprdLock.PassesExactly` characterises |
| `OsprdDevice.Osprd.Abandon` | lab2/osprd.c:301-316 | the signal path is the Interrupt step |
| `OsprdDevice.Osprd.GrantLock` | lab2/osprd.c:318-387 | the last critical section is the Grant step, without a second test |
| `OsprdDevice.Osprd.TryLock` | lab2/osprd.c:390-443 | TRYACQUIRE is the TryAcquire step of `OsprdLock.TryExactly`, its two error codes told apart |
| `OsprdDevice.Osprd.ReleaseLock` | lab2/osprd.c:447-491 | RELEASE is the Release step; -EINVAL exactly when not flagged |
| `OsprdDevice.Osprd.CloseLast` | lab2/osprd.c:162-211 | the last close is the Close step |
| `Md5Agree.BothDigests` | lab3/md5.c:224-330 | two cuts of one message, two implementations: lab4's digest is that of RFC 1321, and lab3's equals it wherever its length words count |
| `Md5Vector.EmptyDigest` | lab4/md5.c:137-385 | the first test vector of RFC 1321: the standard digest of the empty message is d41d8cd98f00b204e9800998ecf8427e, computed through all 64 operations |
| `Md5Spec.WordsRead` | lab3/md5.c:94-112 | four bytes read as a word, low-order byte first, and written out again are the same bytes |
| `Md5Agree.Lab3IsMd5` | lab3/md5.c:262-306 | lab3's padded message is RFC 1321's under the length condition |
| `Md5Length.LengthRight` | lab3/md5.c:268-281 | the carry code gives the high word of RFC 1321 section 3.2 if and only if the stated condition on the length holds |
| `Md5Length.LengthSteps` | lab3/md5.c:268-281 | each 32-bit statement of that code |
| `Md5Length.OneTooHigh` | lab3/md5.c:268-281 | for messages below 4 GiB a wrong high-order length word is one too high |
| `Md5Length.SafeBelow512MiB` | lab3/md5.c:268-281 | the condition holds below 2^29 bytes and fails at 2^29 |
| `Md5Rounds.RolRotates` | lab3/md5.c:52-61 | the shift-and-or macro rotates |
| `Md5Rounds.Quad` | lab3/md5.c:131-209 | four unrolled operations with rotated register names are four steps of RFC 1321 section 3.4 |
| `Md5Lab3.FF` | lab3/md5.c:78-88 | the optimised boolean functions are those of the standard |
| `Md5Lab3.Md5Context.Transform` | lab3/md5.c:90-216 | 64 unrolled steps in place are the block function of RFC 1321 |
| `Md5Lab3.Md5Context.Update` | lab3/md5.c:224-252 | any cut: the registers are the fold of the full blocks, the buffer holds the rest |
| `Md5Lab3.Md5Context.Length` | lab3/md5.c:268-281 | the two length words of do_final |
| `Md5Lab3.Md5Context.PadMessage` | lab3/md5.c:283-295 | both padding branches reach 56 bytes of the last block |
| `Md5Lab3.Md5Context.Final` | lab3/md5.c:262-322 | padding, length, transform and output of the whole message |
| `Md5Lab3.Md5Context.Digest` | lab3/md5.c:324-330 | asking again gives the same digest |
| `Md5Lab3.Md5` | lab3/md5.c:64-330 | one digest for every way of cutting the message into calls |
| `Md5Lab4.CountAdds` | lab4/md5.c:337-341 | the shifted and carried count words are the bit length modulo 2^64 |
| `Md5Lab4.Md5State.Process` | lab4/md5.c:136-315 | the other unrolled transform is the same block function |
| `Md5Lab4.Md5State.Append` | lab4/md5.c:327-363 | any cut: fold, buffer and count words of the concatenation, as long as offset and byte count add up to an int |
| `Md5Lab4.Md5State.Finish` | lab4/md5.c:365-386 | padding by append, length, output: the digest of RFC 1321 |
| `Md5Lab4.Md5` | lab4/md5.c:317-386 | one digest for every way of cutting, the standard's |
| `Md5Text.Window` | lab4/md5.c:397-401 | the six bits picked across bytes are those of the digest as one number |
| `Md5Text.ShrBits` | lab4/md5.c:397-401 | from any bit on, the digest as one number is made of the single bits of its bytes, low-order bit first |
| `Md5Text.FinishText` | lab4/md5.c:388-408 | between cuts six bits apart, or five after six ones when `@` is not allowed, each character is the one of the literal alphabet that the bits number; with `allow_at` 22 characters that decode to the digest; without it 22 to 26 that do so if and only if no group of six bits is all ones |
| `Md5Text.WalkIsDigits` | lab4/md5.c:402-405 | the text without `@` is the plain one if and only if that has no `@` |
| `Md5Text.WalkDecodes` | lab4/md5.c:402-405 | the text without `@` decodes to the digest if and only if the plain one has no `@` |
| `Md5Text.SameTextTwice` | lab4/md5.c:402-405 | without `@` two different digests share one text |
| `Md5Text.FinalText` | lab3/md5.c:332-347 | 26 characters, each the one of the literal alphabet that the next five bits number, which decode to the digest |
| `Md5Text.DigitsDecode` | lab3/md5.c:332-347 | enough base-2^k digits of a digest determine it |
| `PeerBuffer.TaskBuf.ReadTo` | lab4/osppeer.c:170-192 | bytes enter at the back of the queue: as many as the call offers, the free space before the end of the array and the rest of the file allow; each of the four results exactly in its case |
| `PeerBuffer.TaskBuf.WriteFrom` | lab4/osppeer.c:198-223 | bytes leave from the front, in order: as many as the call takes of those before the end of the array |
| `PeerBuffer.Download` | lab4/osppeer.c:626-645 | for every schedule of short reads, short writes, retries and failures: what reached the disk is a prefix of what was sent; every completed round and what it moves; more than 2^31 bytes written if and only if it ends as too long, in the first round that exceeds the limit; failed at the first read that fails or write that fails with bytes buffered; done only at the end of the file with all of it written |
| `PeerBuffer.Upload` | lab4/osppeer.c:809-823 | the same for the loop that writes first, which has no size limit |
| `PeerCodec.RoundTrip` | lab4/writescan.c:80-237 | scanning a written message gives back the arguments if and only if every %d is in 0..2147483637 and no empty string stands between two spaces |
| `PeerCodec.QuoteTakes` | lab4/writescan.c:22-62 | unquoting undoes quoting, for every string |
| `PeerText.QuotesOne` | lab4/writescan.c:22-54 | letters, digits and $-_.+!*'(), are written as they are, every other character as % and two upper-case hexadecimal digits |
| `PeerText.QuoteAppend` | lab4/writescan.c:22-54 | a text is quoted character by character |
| `PeerText.QuoteBare` | lab4/writescan.c:22-54 | a text of unreserved characters is quoted to itself |
| `PeerText.UnquotesHex` | lab4/writescan.c:57-168 | for every byte, in either spelling of either digit, % and its two digits give it back |
| `PeerText.KeepsOther` | lab4/writescan.c:157-175 | a % that no two hexadecimal digits follow is kept, and so is every other character but white space |
| `PeerText.StopsAtSpace` | lab4/writescan.c:157-175 | white space and the end of the text end a %s |
| `PeerText.DigitsNumber` | lab4/writescan.c:104-110 | %d writes the decimal digits of the number, no zero in front |
| `PeerText.TakesNumber` | lab4/writescan.c:199-211 | for any run of digits, zeros in front included: %d accepts it if and only if there is one and the number is at most 2147483637 |
| `PeerText.TakesByteRun` | lab4/writescan.c:179-198 | for any run of digits: a number of an address is accepted if and only if there is one and it is at most 255 |
| `PeerText.TakesQuad` | lab4/writescan.c:179-198 | four runs of digits with dots between them: an address if and only if each is accepted |
| `PeerText.WritesLiterals` | lab4/writescan.c:80-133 | the format up to its first % is written as it stands |
| `PeerText.WritesConversion` | lab4/writescan.c:89-125 | what each of %s, %d, %I and %% writes before the rest of the format |
| `PeerText.RequestText` | lab4/writescan.c:80-133 | "GET %s OSP2P\n" with filename is written as GET filename OSP2P |
| `PeerText.ScansWord` | lab4/writescan.c:212-237 | characters of the format other than white space and % must come in the text, in order |
| `PeerText.ScansWhite` | lab4/writescan.c:212-237 | white space in the format, however much, takes all white space in the text, at least one |
| `PeerText.ScansConversion` | lab4/writescan.c:157-237 | what each of %s, %d, %I, %% and %n takes before the rest of the format |
| `PeerText.RequestRead` | lab4/writescan.c:157-237 | GET a%2fb OSP2P is read by "GET %s OSP2P\n" as the name a/b |
| `PeerCodec.TakesDecimal` | lab4/writescan.c:199-211 | which printed numbers the overflow guard of %d accepts |
| `PeerCodec.TakesIp` | lab4/writescan.c:179-198 | a printed address is read back |
| `PeerCodecOps.HttpQuote` | lab4/writescan.c:22-54 | in place, the quoted text that `PeerText.QuotesOne` spells out, and its null byte, in 3 * length + 1 bytes |
| `PeerCodecOps.EnsureBuf` | lab4/writescan.c:64-77 | more than the room asked for, the contents kept |
| `PeerCodecOps.OnlyIntsOverrun` | lab4/writescan.c:89-125 | strings and addresses stay inside the buffer; a %d does if and only if it has at most ten characters, the buffer was just enlarged, or position plus characters stay below the capacity |
| `PeerCodecOps.ShortContained` | lab4/writescan.c:80-133 | without an integer below -999999999 no message overruns its buffer |
| `PeerCodecOps.OverrunExample` | lab4/writescan.c:104-110 | -1000000000 after 3061 bytes writes one byte past the first buffer |
| `PeerCodecOps.Writef` | lab4/writescan.c:80-133 | the formatting loop, for every format and all arguments: it copies past the end of its buffer if and only if the stated condition fails, and else writes the specified message, which the `PeerText` rows spell out |
| `PeerScan.VsnScanf` | lab4/writescan.c:157-237 | the scanning loop on every text and memory behind it: the cursor of a %s gets behind the text if and only if at some %s that is reached no space follows and the text ends in an escape that the memory behind it completes; else it accepts exactly what the specified scanner accepts, with its values, %n included; the `PeerText` rows spell that scanner out |
| `PeerScan.CursorStays` | lab4/writescan.c:162-168 | from any position: the loop of one %s stays in the text if and only if a space follows or the text ends in no such escape |
| `PeerScan.CutEscape` | lab4/writescan.c:162-166 | the text "%" before "41" takes a %s behind the text; "a %" does not, and "OK%" does not for the format "OK" |
| `PeerScan.NullKeeps` | lab4/writescan.c:162-166 | with a null byte behind the text no format ever does |
| `PeerScan.SentKeeps` | lab4/writescan.c:80-237 | a written message whose arguments are readable is scanned inside its text, whatever lies behind it |
| `PeerScan.SendAndReceive` | lab4/writescan.c:80-237 | both loops, whatever lies behind the message in memory: unless the buffer overruns, the message is read inside its text and gives back the arguments if and only if they are readable |
| `Schedos.RoundRobin` | weensyos2/schedos-kern.c:202-211 | algorithm 0 dispatches the next runnable process in slot order |
| `Schedos.StrictPriority` | weensyos2/schedos-kern.c:226-246 | algorithm 2 dispatches a best-priority process, the last one met |
| `Schedos.Choose` | weensyos2/schedos-kern.c:247-285 | the shared search of algorithms 3 and 4 ends at an eligible process |
| `Schedos.BestLevelIs` | weensyos2/schedos-kern.c:263-285 | algorithm 4 may dispatch a process if and only if it is runnable and has share -1 or no runnable process has a better level |
| `Schedos.NoLimitRuns` | weensyos2/schedos-kern.c:247-285 | a runnable process with share -1 that runs goes on running under both algorithms |
| `Schedos.ProportionalShare` | weensyos2/schedos-kern.c:247-262 | algorithm 3 in place, the search over all runnable processes; one with share -1 that runs goes on running |
| `Schedos.MultiLevel` | weensyos2/schedos-kern.c:263-285 | algorithm 4 in place, the search over exactly the processes of `Schedos.BestLevelIs`; one with share -1 that runs goes on running |
| `Schedos.Sweep` | weensyos2/schedos-kern.c:247-285 | from a fresh table the dispatches are whole blocks of p_share, slot by slot |
| `Schedos.Cycles` | weensyos2/schedos-kern.c:247-285 | so for any number of cycles each eligible process gets exactly p_share consecutive dispatches a cycle |
| `Schedos.OnceRound` | weensyos2/schedos-kern.c:247-285 | each eligible process has one place in a cycle, the others none |
| `Schedos.EligibleStays` | weensyos2/schedos-kern.c:247-285 | dispatching changes counts only, so each call finds the same processes eligible |
| `Schedos.SchedulesTrace` | weensyos2/schedos-kern.c:247-285 | so n calls that find the eligible processes anew dispatch the same as n calls with the first ones |
| `Schedos.AnyStart` | weensyos2/schedos-kern.c:247-285 | from any table on, with any shares and counts, for any number of calls: one round for what is left of the shares up to the first process that never comes to the end of its share (a negative share, or a count already above it), then cycles of whole shares if there is none, else that process for ever |
| `Mpos.StepKeeps` | weensyos1/mpos-kern.c:130-244 | a trap, of all seven, keeps "blocked exactly when one live process names it" if and only if it is neither a wait that overwrites an earlier waiter nor a kill of a blocked process or of a zombie whose stale waiter field misleads it |
| `Mpos.RunsKeepInv` | weensyos1/mpos-kern.c:130-244 | over every run without those: slot 0 never runs and blocked processes and wait queues agree |
| `Mpos.BlockedHasOneOwner` | weensyos1/mpos-kern.c:236-241 | a process is blocked if and only if a live process names it, and that is the one it waits for |
| `Mpos.Forgotten` | weensyos1/mpos-kern.c:236-241 | a second waiter leaves the first one blocked with nobody to wake it |
| `Mpos.OverwriteExample` | weensyos1/mpos-kern.c:236-241 | a run from the start in which two processes wait for a third gets there |
| `Mpos.KillExample` | weensyos1/mpos-kern.c:185-218 | a run from the start in which a waiting process is killed: its empty slot is made runnable when the one it waited for exits |
| `Mpos.ZombieExample` | weensyos1/mpos-kern.c:185-218 | a run from the start in which a zombie is killed: its stale wait queue wakes a process that still waits for another |
| `Mpos.ExitWakes` | weensyos1/mpos-kern.c:165-183 | exit wakes the process that waits for it, with the exit status in its %eax, and somebody runs |
| `Mpos.ForkCopies` | weensyos1/mpos-kern.c:272-370 | the child gets an empty slot, the registers but %eax and %esp, and the stack at the same offset in its own region; no other stack or process changes |
| `Mpos.ForkSparesStacks` | weensyos1/mpos-kern.c:308-370 | fork changes no byte of the stack region of any process but the child |
| `Mpos.SomeoneRuns` | weensyos1/mpos-kern.c:404-413 | the scheduler's search finds a runnable process if there is one |
| `MposCalls.RunsNext` | weensyos1/mpos-kern.c:404-413 | schedule runs the first runnable process met going round from the current one, and spins if and only if none is runnable |
| `MposCalls.GetPidReturns` | weensyos1/mpos-kern.c:143-151 | getpid gives the caller its number and changes nothing else |
| `MposCalls.ForkReturns` | weensyos1/mpos-kern.c:272-306 | fork gives the number of the lowest empty slot, which holds the copy, or -1 and no change |
| `MposCalls.NewThreadReturns` | weensyos1/mpos-kern.c:373-391 | newthread: the lowest empty slot starts at the address given, with the base of its own region as stack pointer; -1 and no change when none is empty |
| `MposCalls.YieldReturns` | weensyos1/mpos-kern.c:163-168 | yield changes nothing but who runs |
| `MposCalls.ExitReturns` | weensyos1/mpos-kern.c:170-183 | exit: the caller is a zombie with its status, its waiter runs with that status in %eax, all else stays |
| `MposCalls.KillReturns` | weensyos1/mpos-kern.c:185-218 | kill: -1 for a bad number, else 0; what becomes of the process and of the one in its wait queue, slot by slot |
| `MposCalls.WaitReturns` | weensyos1/mpos-kern.c:220-244 | wait: -1 for a bad number; for a zombie its exit status, and its slot is empty; else the caller blocks in its wait queue; all else stays |
| `MposCalls.StatusArrives` | weensyos1/mpos-kern.c:170-244 | over every run between the exit of a process and the first call that asks for it: a wait then returns the status it exited with |
| `MposKernel.Kernel.CopyStack` | weensyos1/mpos-kern.c:308-370 | the copy and the new stack pointer, in place |
| `MposKernel.Kernel.ForkProcess` | weensyos1/mpos-kern.c:272-306 | do_fork in place, -1 without an empty slot |
| `MposKernel.Kernel.NewThread` | weensyos1/mpos-kern.c:373-391 | sys_newthread in place |
| `MposKernel.Kernel.KillProcess` | weensyos1/mpos-kern.c:185-218 | sys_kill in place |
| `MposKernel.Kernel.PickNext` | weensyos1/mpos-kern.c:404-413 | schedule in place; not found exactly when it would spin |
| `MposKernel.Kernel.Interrupt` | weensyos1/mpos-kern.c:130-244 | each trap in place is one step of the state machine, whose results the `MposCalls` rows state slot by slot |

## Left out

- OSPFS: symbolic links, `ospfs_dir_readdir`, `ospfs_dir_lookup`, dentries, Linux
  inodes and `-ENOMEM`; copies between user and kernel memory succeed.
- OSPFS: inode numbers and blocks are indices into arrays of their own; the bitmap
  and the inodes are not bytes of the same memory as the data blocks, so a free of
  a block before the data area is bounded by `os_firstinob` as in the code, and
  aliasing between inodes and data blocks is not modelled.
- OSPFS: the test `n > OSPFS_MAXFILEBLKS` (lab3/ospfsmod.c:754) is modelled as
  failing from 65802 blocks on; no disk has enough blocks for a file to get there.
- OspfsKernel.Ospfs.Write: the size asked for does not round past 2^32; what `change_size`
  does there is stated by `OspfsChangeSize.UnsafeBreaks`.
- OspfsKernel.Ospfs.FreeBlock: block numbers lie on the disk; the code would set a bit behind
  the map for others, which no caller passes while the invariant holds.
- OspfsBytes.WriteFlat: bytes between the old end of a file and the end of its last
  block are whatever the disk held, as in the code; only whole added blocks are zero.
- OspfsLinks.RunsKeepLinks: only regular files are linked and unlinked.
- OspfsLinks.UnlinkKeeps: no name of a symbolic link, whose inode has another layout.
- OspfsDirOps.UnlinkFile: the same.
- FormatFresh.FreshRunsKeepLinks: the runs contain no unsafe resize and no create that lacks
  space or clashes; `OspfsLinks.ApplyKeeps` says what those do.
- Formatter: directories and the walk over the host's files, `allocdirentry`'s search
  for a slot and its copy of the name, hard and symbolic links; byte order is
  little-endian, so swizzling is the identity; the inode table and the free map are
  arrays of their own and do not pass through the cache; block 0 is never fetched.
- FormatCache.Cache.GetBlk: not for block 0, which an unused slot also has as its number;
  the formatter never fetches it.
- FormatCache.Run: block 0 is left out for that reason, and a block past the disk, with
  which the formatter aborts.
- FormatDisk.Formatter.FinishFs: the free map is an array of its own, so the map's blocks do
  not go through the cache.
- FormatWhole.FormatFiles: directory entries; the inode of a file is its place in the list.
- FormatDisk.Formatter.LastDirBlock: the search for a free slot in that block, and the new
  block when there is none.
- Lock: TRYACQUIRE and the signal path are one step each, as on the uniprocessor
  build (lab2/spinlock.h:3); wake-ups, the two missing unlocks
  (lab2/osprd.c:424, 460) and block requests are not modelled; tickets and the
  abandoned list are unbounded where the driver has 32 bits and 100 slots.
- MD5: big-endian paths.
- Peer: sockets, trackers, peers and the MD5 check of a download; a system call is an
  event that moves some bytes, moves none, asks to try again or fails.
- PeerCodecOps.Writef: ends when a text is copied past the buffer, whose effect C does not
  define; writing the message to the socket is left out.
- PeerScan.VsnScanf: ends when the cursor is behind the text; the code reads on to the next
  space there. At least two bytes lie behind the text, as after any null byte that is not the
  last of its memory.
- PeerCodec.RoundTrip: formats in which a string is followed by white space or the end,
  and a number by something that is no digit, and without `%n`, which is not written.
- Schedulers: algorithm 1, and changes of share, priority or state between calls;
  `interrupt`'s updates of those fields. Run counts do not wrap.
- Schedulers: a call for which the loop never ends, because every process it may take has a
  share of 0 and no count, or because there is none.
- Process table: a scheduler that would spin for ever stops the run.
- Mpos.StepKeeps: a forking process's stack pointer lies in its own region; with another the
  copy would run over the stacks of other processes.
- Mpos.RunsKeepInv: the same.
- MposKernel.Kernel.CopyStack: the same.
- MposKernel.Kernel.ForkProcess: the same.
- MposKernel.Kernel.Interrupt: the same.
- The shell of lab1, boot loaders, console output and the build scripts.
