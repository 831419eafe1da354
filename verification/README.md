# caseyOS: a model of its kernel and file system

caseyOS is a small x86 kernel with a Minix-style file system. This project models its parts
with the hardest invariants and proves what they keep, in Dafny 4.11. `dafny verify
dfyconfig.toml` checks all of it.

**The file-system stack** is one refinement, from byte arrays down to a disk of blocks:

- `Rings`, `HashTable`: the circular hash rows and the free list of the buffer heads. Heads are
  numbered, and every link field is a table, so a pointer is an index.
- `CacheState`, `BufferCache`: the write-back buffer cache. Its `view` is the logical disk; no
  operation but a holder's own change alters it. `FreeBufferAsWritten` treats `free_buffer`
  exactly as it is written.
- `Bitmap`, `FileTree`, `FileSystem`: the zone map as a set, the tree of block numbers with its
  indirect blocks, allocation, `__bmap`, and giving blocks back. `Owned` says that all block
  numbers of all trees are distinct and in use.
- `FileBytes`, `FileRw`: files as byte arrays, `file_rd` and `file_wr`.
- `InodeTable`: the inode table, a second write-back cache, over the blocks before the data zones
  and through the same buffer cache; the inode map; and inodes that come into use and go out of it.
- `DirEntries`, `Directory`, `HardLinks`: directories as maps kept in files, and link counts.
- `FileNames`, `OpenFiles`: creating, linking and unlinking files, and opening, reading, writing and
  closing them, on inodes of the table and directories in files.
- `EndToEnd`: the layers together. `FirstSession` starts from a disk and meets the requirements of
  all of them, on one device.

**The kernel**: `Scheduler` (ticks and the choice of the next thread), `Frames` (register frames
and the delivery of system-call results), `SendGraph` (the detection of waiting circles), `Mail`
(posting and picking), `Paging` (frames and page tables), `Numbers` (printing and parsing).

Each kernel entry runs with interrupts off (kernel/dtcntl.c:76-79), so a method is one atomic
step; what holds of every reachable state is in the `Valid` predicates and the requirements of
the methods, which constructors establish and methods keep. `crash` and `panic` are requirements,
to be met by callers. `hide` statements only keep definitions out of proofs that do not need them.

Where a method is proved against a specification function, its contract or a lemma whose name ends
in `Is` or `Means` also says the result in stored words, bytes and fields, without that function.

## Where the code differs from what it seems meant to do

The model follows the code. Where a property is false of it, there is a lemma with an input that
shows it, and one that says exactly when it holds:

- fs/buffer.c:117-118 clears a whole hash row when the freed buffer is its first
  (`FreeBufferAsWritten`). The cache under the stack above uses a repaired form, `HashTable.Unhash`,
  that moves the head of the row on as the comment there intends; no other code is repaired.
- fs/bitmap.c:28-42 misses zero bits (`Bitmap.ZeroBitMissed`).
- fs/bitmap.c:95-100 leaves a bit beyond the device set (`FileSystem.FileSys.MarkZone`,
  `FileSystem.BitBehindDevice`).
- fs/bitmap.c:141-155 leaves size and zones of the entry's last inode in a new one
  (`InodeTable.Table.NewInode`, `InodeTable.NotEmpty`), and fs/inode.c:330-351 does not mark the
  inode it empties (`InodeTable.ChangeSurvives`, `InodeTable.EmptiedNamesFree`).
- fs/file_rw.c:56-72 mixes two positions under O_APPEND (`FileBytes.LandingAppend`,
  `FileBytes.AppendMisses`, `FileBytes.AppendedAtStart`).
- fs/namei.c:45 lets the compared length grow from entry to entry (`DirEntries.FoundInner`), and
  fs/namei.c:100 writes behind the slot for a name of 14 characters
  (`DirEntries.FourteenSpills`, `DirEntries.LastSlotSpills`).
- `i_nlinks` is one byte (`FileNames.Tree.Link`, `HardLinks.LinkWraps`).
- lib/string.c:88 never sees an error (`Numbers.MeantExactly`, `Numbers.NoDigitCounts`).

Two more are right only because of how the kernel uses them. choose_max could
pass task 0 over after a reload, if task 0 had not the least priority (`Scheduler.ChosenIsTop`,
`Scheduler.ChosenIsBest`). kernel/sched.c:211-219 delivers the result of a call only for the last
switch of an entry; no handler switches twice, so the case does not arise (`Frames.OneSwitchDelivers`,
`Frames.DeliveredLater`; `Frames.OnlyDeliveries` says what it would take).

## Model

| member | source | states |
|---|---|---|
| Rings.RingAppend | fs/buffer.c:40-43 | linking a node in before the head of a circular list puts it at the tail, in both directions |
| Rings.RingRemove | fs/buffer.c:121-122 | unlinking any node of a circular list leaves the list of the others, in order, in both directions |
| Rings.RingEnds | fs/buffer.c:99-102 | where the two pointers of the two-ended scan are after m rounds, and that its two stopping tests say exactly that they met, for odd and even lengths |
| HashTable.AddHashRows | fs/buffer.c:22-46 | add_hash puts the buffer at the tail of the row of its block; every other row stays as it is |
| HashTable.UnhashRows | fs/buffer.c:117-123 | (repaired, see above) free_buffer takes the buffer out of its row and out of no other |
| HashTable.PutFreeRing | fs/buffer.c:125-135 | a freed buffer goes to the tail of the free ring |
| HashTable.TakeFreeRing | fs/buffer.c:57-69 | get_buffer takes the head of the free ring, the only one included, and leaves the ring of the others |
| HashTable.FreeLinked | fs/buffer.c:108-142 | free_buffer keeps every buffer in exactly one place: the free ring or its own row |
| HashTable.TakenLinked | fs/buffer.c:55-73 | so does taking a free buffer for a block |
| HashTable.InitLinked | fs/buffer.c:145-177 | init_buffer makes one free ring of all buffers and empty rows |
| FreeBufferAsWritten.AsWrittenRows | fs/buffer.c:117-123 | free_buffer as written keeps the table well formed, and leaves the right row exactly if the buffer is not the first of its row or is the only one |
| FreeBufferAsWritten.FoundAfter | fs/buffer.c:117-123 | after free_buffer as written exactly the blocks of the other buffers of a cleared row are no longer found |
| FreeBufferAsWritten.LogicalKept | fs/buffer.c:117-118 | free_buffer as written keeps the logical disk if and only if that holds or the disk has what the other buffers of the row hold |
| FreeBufferAsWritten.ChangeLost | fs/buffer.c:117-118 | two blocks of one device on one row: freeing the clean first one loses the change of the other |
| FreeBufferAsWritten.SameExactlyIfHarmless | fs/buffer.c:117-123 | free_buffer as written makes the links of the repaired one if and only if the buffer is not the first of several on its row |
| FreeBufferAsWritten.RunsAgree | fs/buffer.c:49-142 | over any run of frees and takes in which every free is harmless the cache as written is the repaired one, and it parts from it at the first free that is not |
| CacheState.FreedCoherent | fs/buffer.c:136-140 | freeing a buffer whose block the disk has leaves the logical disk as it is |
| CacheState.SyncedCoherent | fs/buffer.c:216-224 | writing one buffer back, and freeing or cleaning it or neither, leaves the logical disk as it is |
| CacheState.TakenCoherent | fs/buffer.c:69-72 | taking a free buffer for a block that is not cached leaves the logical disk as it is |
| CacheState.DroppedCoherent | fs/blk_drv.c:176-182 | letting go of a buffer keeps the invariant that a buffer nobody holds is dirty and valid, and one that is valid and clean equals the disk |
| CacheState.ReadCoherent | fs/blk_drv.c:217-218 | reading a block into an invalid buffer leaves the logical disk as it is |
| CacheState.NotAllHeld | fs/buffer.c:53-76 | with fewer blocks held than there are buffers, some buffer is free or waits to be written |
| BufferCache.Cache.constructor | fs/buffer.c:145-177 | a new cache is valid and invisible: every block reads as on disk |
| BufferCache.Cache.FindBuffer | fs/buffer.c:81-105 | the two-ended scan finds a buffer if and only if one of the block exists |
| HashTable.XorBits | fs/buffer.c:17 | bit i of the number that hash rows are chosen by is 1 if and only if bit i of the device or of the block is, but not of both |
| BufferCache.Cache.FreeBuffer | fs/buffer.c:108-142 | a buffer nobody holds becomes free, at the tail of the free ring, and nothing reads differently (with the repaired row handling) |
| BufferCache.Cache.SyncOne | fs/buffer.c:216-224 | one step of sync_blks: what is written, counted, freed, cleaned, and where it stops |
| BufferCache.Cache.SyncBlks | fs/buffer.c:208-236 | a pass over all buffers leaves no dirty one of the device, or at least n fewer; a pass with a large enough limit leaves the whole device on disk; nothing reads differently |
| BufferCache.Cache.GetBuffer | fs/buffer.c:49-78 | the unbounded retry loop ends whenever a buffer is free or some buffer of the device is held by nobody; the buffer got is blank and hashed under the block |
| BufferCache.Cache.GetBlk | fs/blk_drv.c:186-207 | the caller holds the one buffer of the block once more: the one that is cached, else the first free one, whose key and count alone change; no block reads differently |
| BufferCache.Cache.Bread | fs/blk_drv.c:210-221 | the buffer returned holds exactly the logical block; no block reads differently |
| BufferCache.Cache.Brelse | fs/blk_drv.c:173-183 | one holder lets go: the count goes down by one, and a buffer that nobody holds and that need not be written is free, last of the free ring; no block reads differently and all other held buffers stay where they are |
| BufferCache.Cache.Store | fs/file_rw.c:93-96 | a holder changes a buffer and marks it dirty: exactly that block reads differently |
| Bitmap.SetBitIs | fs/bitmap.c:10-26 | setb and clrb change exactly the bit they are given |
| Bitmap.BitIs | fs/bitmap.c:10-26 | bit k is the bit of weight 2^(k % 8) of byte k / 8; setting it adds that weight to the byte and clearing it takes it away |
| Bitmap.FindFirstZero | fs/bitmap.c:28-42 | the result is a zero bit, the first of its byte, of the first byte of the form 2^k-1; -1 exactly if there is no such byte |
| Bitmap.ZeroBitMissed | fs/bitmap.c:28-42 | the search is not complete: a block with zero bits in every byte for which it returns -1 |
| FileSystem.UsedWith | fs/bitmap.c:66-72 | changing one bit of the zone map adds or removes exactly one zone of the set of zones in use |
| FileSystem.TheFirstZero | fs/bitmap.c:86-100 | there is only one bit that new_block can take; whether a zone can be had is decided there, and if none can, also not at the next call |
| FileSystem.FileSys.constructor | fs/super.c:82-128 | a formatted device is in order and all places for block numbers are empty |
| FileSystem.FileSys.MarkZone | fs/bitmap.c:86-100 | a zone handed out was not in use and is now; 0 is returned if and only if the bit that find_first_zero yields first is missing or beyond the device, and then the set of zones in use is unchanged; else exactly that bit of the map is set; the map is unchanged if and only if there is no such bit, and one is set also when 0 is returned |
| FileSystem.BitBehindDevice | fs/bitmap.c:95-100 | a device without data zones and a map of zeros: no zone can be had, and bit 0 of the map is set for good |
| FileSystem.FileSys.NewBlock | fs/bitmap.c:76-111 | new_block yields a data zone that was not in use, in range, and reading as zeros, whenever one can be had; no other block reads differently |
| FileSystem.FileSys.FreeBlock | fs/bitmap.c:45-74 | free_block takes exactly one zone out of use and clears exactly its bit; its ways to crash are its requirements |
| FileTree.DataSlotInverse | fs/inode.c:189-268 | every place for a data block number, direct, indirect or doubly indirect, belongs to exactly one block number of one file |
| FileTree.BlockIs | fs/inode.c:173-281 | what block n of a file is in terms of the inode's zones and the words of the tables, for all three ranges: zone n; word n - 7 of the table in zone 7; word (n - 519) % 512 of the table that word (n - 519) / 512 of the table in zone 8 names; none where a table is missing |
| FileTree.FileBlkIs | fs/inode.c:296-351 | the blocks of a file, which clear_iblks frees, are those that its inode names, those that the tables in zones 7 and 8 name, and those that the tables named by the latter name |
| FileTree.PointedPtr | fs/inode.c:225-229 | writing a block number into one place of the tree changes that place and no other, although places are stored in blocks of the same disk |
| FileTree.Allocate | fs/inode.c:193-198 | a new zone put into an empty place keeps ownership: all block numbers in all trees are distinct and in use |
| FileTree.Release | fs/inode.c:339-343 | giving a block back empties one place, changes no other, and keeps ownership |
| FileTree.GrownMoved | fs/inode.c:193-198 | what comes into use in a step of __bmap belongs to the file, and the file keeps its blocks |
| FileTree.AllFreed | fs/inode.c:330-351 | the blocks freed by the three parts of clear_iblks are together exactly the blocks of the file |
| FileSystem.FileSys.FillEntry | fs/inode.c:223-231 | an empty entry of an indirect block gets a new block of zeros or, if there is none, nothing changes |
| FileSystem.FileSys.MapEntry | fs/inode.c:216-234 | one step through an indirect block: its entry, filled on demand, no other place moves, and a zone that came into use is the one entered |
| FileSystem.FileSys.MapDirect | fs/inode.c:189-201 | block numbers below 7: the answer is the zone of the inode |
| FileSystem.FileSys.MapSingle | fs/inode.c:203-235 | block numbers below 7 + 512: the answer is word n - 7 of the table in zone 7, or 0 without one, also when only the indirect block could be had |
| FileSystem.FileSys.MapDouble | fs/inode.c:237-280 | all other block numbers: the answer is word (n - 519) % 512 of the table that word (n - 519) / 512 of the table in zone 8 names, or 0 without one of them, also when one or both indirect blocks were allocated in vain |
| FileSystem.FileSys.BMap | fs/inode.c:173-292 | the answer is the zone of the inode or the word of the table that n stands for, in all three ranges; bmap changes nothing; create_block puts a block of zeros where there was none; no other block of any file moves or changes, ownership is kept, what came into use belongs to the file, and it fails only if no zone can be had |
| FileSystem.FileSys.CreateBlock | fs/inode.c:289-292 | create_block keeps all the file has, and every zone that came into use, tables too, belongs to the file afterwards; it fails only if no zone can be had |
| FileSystem.CreatedThenMapped | fs/inode.c:283-292 | after create_block(n) returned b, bmap(n) is b and bmap(m) is as before for every other m of every file; a failed call changes no lookup |
| FileSystem.FileSys.FreeFileBlk | fs/inode.c:354-411 | free_file_blk takes exactly one block of the file away and out of use: zone n, or the word of the table that n stands for, is 0 afterwards, and no other zone and no other word of that table changes |
| FileSystem.FileSys.FreeInd | fs/inode.c:296-310 | free_ind frees the blocks named by an indirect block and the block itself, each once |
| FileSystem.FileSys.FreeDind | fs/inode.c:313-327 | free_dind frees the whole doubly indirect branch, each block once |
| FileSystem.FileSys.ClearIblks | fs/inode.c:330-351 | clear_iblks frees exactly the blocks of an inode whose mode is 0x8000 to 0x8FFF, each once, empties it, and leaves every other file as it is; on any other inode, a directory too, it does nothing |
| FileBytes.ExtendedBytes | fs/inode.c:173-281 | allocating blocks changes no byte of any file, holes included |
| FileBytes.ByteIs | fs/file_rw.c:26-36 | byte o of a file is byte o % 1024 of the block that zone o / 1024 or the word of a table names, and 0 in a hole |
| FileBytes.StoredBytes | fs/file_rw.c:93-96 | writing a block of a file changes bytes of that block of that file only |
| FileBytes.LandingAppend | fs/file_rw.c:56-72 | with O_APPEND all bytes land behind the old end if and only if the file position is in the block of that end, and not before it if the bytes reach into another block |
| FileBytes.WrotePlain | fs/file_rw.c:49-110 | without O_APPEND exactly the bytes [pos, pos + written) of the file are replaced, and no byte of another file |
| FileBytes.WroteAppend | fs/file_rw.c:56-72 | with O_APPEND the same holds under that condition |
| FileBytes.AppendMisses | fs/file_rw.c:56-72 | without it some buffer of that length leaves some byte of the file other than an append should |
| FileBytes.AppendedAtStart | fs/file_rw.c:56-72 | a file of one block opened with O_APPEND at position 0: the byte appended goes over the first byte |
| FileBytes.OthersBytes | fs/file_rw.c:49-110 | a file that keeps its blocks keeps its bytes |
| FileBytes.StillBytes | fs/inode.c:57-92 | writing inodes back changes no byte of any file |
| FileBytes.ReadBack | fs/file_rw.c:12-110 | a read from the same position gets back what was written |
| FileRw.ReadBlk | fs/file_rw.c:31-36 | part of a block is copied out and no block reads differently |
| FileRw.FileRd | fs/file_rw.c:12-47 | file_rd delivers the bytes of the file from the position on, holes as zeros, advances the position and changes no file |
| FileRw.WriteRound | fs/file_rw.c:66-98 | one round of file_wr |
| FileRw.FileWr | fs/file_rw.c:49-110 | file_wr writes the first w bytes each to its landing place, changes no byte of another file, sets the size to the maximum of the old size and the new end, and stops early only if no zone can be had |
| EndToEnd.WriteThenRead | fs/file_rw.c:12-110 | file_wr and then file_rd from the same position through the whole stack, on an inode of the table: what was written is read back, and no other byte of any file changed |
| EndToEnd.CreateThenFind | fs/namei.c:11-287 | open with O_CREAT of an absent name and then find_entry through the whole stack: the name is found with the number of the new file |
| EndToEnd.FirstSession | fs/super.c:82-180 | a new device, an empty root directory, a file created in it, found, written and read back: all requirements of all layers are met, on one cache, one file system and one table |
| DirEntries.CmpZero | lib/string.c:42-48 | strncmp is 0 exactly if the strings agree on the first len characters, NULs included |
| DirEntries.EntIs | fs/fs.h:116-119 | slot j is bytes 16 * j to 16 * j + 15: a number of two bytes and the name up to the first NUL, at most 14 characters |
| DirEntries.HitLast | fs/namei.c:43-46 | looked up as a last component a slot is taken exactly if it has the name, however name_len has grown |
| DirEntries.FoundInner | fs/namei.c:43-46 | looked up before a slash a component is found if and only if a slot with its name has no slot with a longer name before it |
| DirEntries.InnerMissed | fs/namei.c:45 | a directory that is there and is not found on the way to a file in it |
| DirEntries.PutNameEnt | fs/namei.c:99-100 | storing a name of 1 to 13 characters changes one slot of the block and no other |
| DirEntries.FourteenSpills | fs/namei.c:70-100 | a name of 14 characters is not closed in its slot and overruns the inode number of the next |
| DirEntries.LastSlotSpills | fs/namei.c:99-100 | in the last slot of a block the NUL falls behind the block, into another buffer |
| DirEntries.AddedMaps | fs/namei.c:57-109 | adding an absent name adds one mapping, keeps names unique and changes no other lookup |
| DirEntries.RemovedMaps | fs/namei.c:690-691 | clearing a slot takes away one mapping and changes no other lookup |
| DirEntries.ScanBlk | fs/namei.c:41-51 | the scan of one block from any name_len finds the first slot taken, or none and the name_len to go on with |
| Directory.FindsByName | fs/namei.c:11-55 | a last component of any length is found if and only if a slot has the name, cut to 13 characters if longer than 14; with unique names the slot that has it is found |
| Directory.FindEntry | fs/namei.c:11-55 | find_entry yields the first slot of the whole directory that is taken for the name, with its buffer held, or none if there is none; nothing reads differently |
| Directory.StoredEnt | fs/namei.c:99-102 | writing a block in which one slot changed changes that slot of the directory, and no other file |
| Directory.MapDir | fs/namei.c:80-87 | asking for a block of a directory leaves its slots; a block created behind them adds slots that are not in use |
| Directory.AddEntry | fs/namei.c:57-109 | add_entry puts the name into the first slot not in use, growing the directory by one block if there is none; all other slots and all other files stay as they are; it fails only if no zone can be had or the directory is full, and then nothing changed |
| Directory.SetIno | fs/namei.c:280-283 | the inode number of the slot found is written and the buffer let go; nothing else changes |
| Directory.ClearSlot | fs/namei.c:690-693 | the slot found is cleared and the buffer let go; nothing else changes |
| HardLinks.FindIs | fs/namei.c:252-252 | find_entry finds the slot that the operations below work on |
| HardLinks.PutIs | fs/namei.c:272-280 | add_entry and the writing of the inode number make of a directory what the operations below make of it |
| HardLinks.PutRefs | fs/namei.c:619-626 | a new name adds one reference to its inode and none to another |
| HardLinks.ClearRefs | fs/namei.c:690-691 | a cleared name takes one reference from its inode and none from another |
| HardLinks.LinkWraps | fs/namei.c:632 | 255 names for one inode are in order; one more makes the count 0 |
| FileNames.Lookup | fs/namei.c:252 | find_entry on an inode of the table yields the slot that has the name, if there is one; nothing reads differently and all stays in order |
| FileNames.Enter | fs/namei.c:619-628 | add_entry and the writing of the inode number put the name into the first slot not in use or into a new block; every other file keeps its blocks and bytes; they fail only if no slot is free and no block can be had |
| FileNames.TreeDir | fs/namei.c:619-628 | a changed directory leaves all other directories and link counts as they were |
| FileNames.CreatedMeans | fs/namei.c:252-287 | what the directory and the link counts are afterwards, slot by slot: when creating fails, which slot gets the name, and that the number was not there |
| FileNames.LinkedMeans | fs/namei.c:566-638 | likewise for link: when it fails, which slot gets the name, and the count plus one, in one byte |
| FileNames.UnlinkedMeans | fs/namei.c:641-701 | likewise for unlink: the first slot with the name is cleared and the count of the file it named goes down by one |
| FileNames.FullDirIs | fs/namei.c:70-87 | without room means that every slot is in use and that no zone can be had or the directory has its greatest size |
| FileNames.Tree.constructor | fs/super.c:156-180 | a root directory without names is a tree in order |
| FileNames.Tree.Create | fs/namei.c:252-287 | open with O_CREAT and O_EXCL: a file with one link and one name, or none and no name, or nothing, and exactly when; names stay unique and every link count the number of names of its inode; every other file keeps its blocks and bytes; of the inodes held before, the directory alone has one holder less |
| FileNames.Tree.Link | fs/namei.c:566-638 | link adds one name and counts it, or changes nothing, and exactly when; all stays in order if and only if the one-byte count was below 255; both inodes, and no other, have one holder less |
| FileNames.Tree.Unlink | fs/namei.c:641-701 | unlink takes the first slot with the name away and counts its link off, unless it names a directory; the count is always positive; all stays in order; of the inodes held before, the directory alone has one holder less |
| OpenFiles.WriteFile | fs/file_rw.c:49-110 | file_wr on an open file of the tree: the file has the bytes and its size is the maximum of the old one and the new end, every other file is as it was, and directories, link counts, inodes and blocks stay in order |
| OpenFiles.ReadFile | fs/file_rw.c:12-47 | file_rd on an open file of the tree delivers its bytes |
| OpenFiles.Open | fs/inode.c:95-133 | iget of an inode of the tree keeps the tree and every file; an inode in the table has one holder more |
| OpenFiles.Close | fs/inode.c:136-163 | iput keeps the tree in order: a file that others hold, that is changed or has links loses one holder and stays; one without links held once is out of the tree and of the table, and no name stands for it |
| InodeTable.Apart | fs/inode.c:44-49 | two inodes have no byte of the device in common, and all lie before the first data zone |
| InodeTable.DecodedEncoded | fs/fs.h:29-37 | an inode whose fields fit is read back from its 32 bytes as it was written |
| InodeTable.DecodedIs | fs/fs.h:29-37 | at which of the 32 bytes each field is, low bytes first |
| InodeTable.OnDiskIs | fs/inode.c:41-49 | inode num is bytes 32 * (num % 32) to 32 * (num % 32) + 31 of block 18 + num / 32 |
| InodeTable.WrittenIs | fs/inode.c:70-75 | writing one inode back changes the bytes of that inode and of no other |
| InodeTable.GetBuf | fs/blk_rw.c:11-26 | getbuf reads the bytes from the logical block, through the cache, and changes nothing |
| InodeTable.SetBuf | fs/blk_rw.c:29-43 | setbuf changes the bytes in one block of the inode area, through the cache; every file keeps its blocks and bytes, and ownership holds |
| InodeTable.Table.WriteDevInode | fs/inode.c:57-78 | a marked inode is on disk as it is in the table and clean afterwards; no inode and no file changes |
| InodeTable.Table.SyncDevInodes | fs/inode.c:81-92 | after sync_dev_inodes every entry is clean; no inode and no file changed |
| InodeTable.Table.FindEmpty | fs/inode.c:19-26 | the scan from both ends yields the first entry in the order 0, 63, 1, 62, ... that is clean and not held |
| InodeTable.Table.GetEmptyInode | fs/inode.c:12-30 | the unbounded loop ends whenever some entry is not held, and yields the first clean one not held, or if there is none the first not held; no inode and no file changes |
| InodeTable.VictimFirst | fs/inode.c:12-30 | no entry that is not held comes before the one taken: clean ones come first, and among those that are alike the order is 0, 63, 1, 62, ... |
| InodeTable.Table.ReadDevInode | fs/inode.c:33-51 | an entry that is not valid gets the fields that its bytes on disk stand for |
| InodeTable.Table.Fetch | fs/inode.c:118-131 | an inode that is not in the table gets the entry that get_empty_inode yields, with what it is on disk; no inode and no file changes |
| InodeTable.Table.Iget | fs/inode.c:95-133 | iget yields the only entry of the inode, with mode, size, links and zones that the inode has, whether or not its entry was reused in the meantime; no inode changes, and no block or byte of any file |
| InodeTable.Table.Iput | fs/inode.c:136-163 | an inode that others hold, that is changed, or that has links loses one holder and is clean, its entry, number, zones and bit of the map stay, and no file changes; a clean one without links held once goes: its entry is blank, its bit is cleared, and exactly its blocks go out of use if its mode is 0x8000 to 0x8FFF, none otherwise |
| InodeTable.ChangeSurvives | fs/inode.c:95-163 | an inode changed, let go, and fetched again after its entry was reused is as changed if and only if the change was marked, or the inode was already, or nothing changed |
| InodeTable.Table.Truncate | fs/namei.c:312-313 | only a regular file is emptied, a directory keeps its blocks; emptying a held file leaves all in order if and only if it was marked before or there was nothing to empty |
| InodeTable.EmptiedReused | fs/inode.c:330-351 | a clean file that is emptied and fetched again after its entry was reused names blocks that are free: ownership is broken |
| InodeTable.EmptiedNamesFree | fs/inode.c:330-351 | an input that shows it |
| InodeTable.Table.NewInode | fs/bitmap.c:117-156 | a new inode has the first number that find_first_zero yields, whose bit alone is set, is marked, held once and has one link, and the size and zones of the entry it takes; ownership holds afterwards if and only if that entry, which get_empty_inode yields, had no zones |
| InodeTable.NotEmpty | fs/bitmap.c:141-155 | a table in order whose entry 0 is clean, not held and has a zone: the new inode gets that zone, and it has two owners |
| Scheduler.Sched.Scan | kernel/sched.c:111-125 | one pass finds the first of the runnable threads with the most ticks, if one has more than the thread it starts from |
| Scheduler.BestIs | kernel/sched.c:111-125 | in the fields of the threads: no runnable thread has more ticks than the one found, and every runnable one before it has fewer |
| Scheduler.Sched.ChooseMax | kernel/sched.c:102-157 | a pass, and if the best has no ticks left a reload of every thread and a second pass |
| Scheduler.ChosenIsTop | kernel/sched.c:102-157 | with the priorities of this kernel, where task 0 has the least, choose_max always yields a candidate with the most ticks |
| Scheduler.AlwaysTop | kernel/sched.c:20-157 | so after every clock interrupt of a run that schedules, a candidate with the most ticks runs |
| Scheduler.ChosenIsBest | kernel/sched.c:102-157 | with any priorities: a candidate is chosen; ticks are reloaded exactly if no candidate has any; the one chosen has the most ticks if and only if there was no reload or task 0 cannot be passed over |
| Scheduler.Sched.Clock | kernel/sched.c:20-38 | the clock interrupt takes one tick from the thread running, unless it is below 0 or the kernel was entered more than 8 deep, and from no other, reloads all or none, and schedules |
| Scheduler.TickIs | kernel/sched.c:20-38 | in one interrupt only the thread running is charged, candidates and priorities stay, and the next thread is a candidate with the most ticks, after a full epoch also across the reload |
| Scheduler.TickThreads | kernel/sched.c:20-38 | what every thread is after a clock interrupt |
| Scheduler.ExactQuota | kernel/sched.c:20-157 | over any run of clock interrupts, between two reloads every candidate is charged exactly its priority in ticks |
| Scheduler.EpochLength | kernel/sched.c:20-157 | so an epoch lasts exactly as many charged ticks as the candidates have priority between them, and cannot go on for more |
| Scheduler.Sched.SleepOn | kernel/sched.c:171-177 | the thread is stuck and another, runnable one is chosen; a stuck one is left alone |
| Scheduler.Sched.WakeUp | kernel/sched.c:181-187 | the thread is runnable and runs at once, and no other changes; a runnable one is left alone |
| Frames.SwitchKeeps | kernel/sched.c:61-98 | switch_to changes no thread's registers and no thread's interrupt flag, wherever these are kept |
| Frames.Kernel.SwitchTo | kernel/sched.c:61-98 | the thread left keeps frame and flag in its slot, the process gets those of the thread entered, and nothing happens on a switch to itself |
| Frames.Kernel.RetPrc | kernel/sched.c:199-220 | a thread that was left in a call keeps the result in its slot; a frame that was entered by a call gets in eax the result due to it; no other slot and no other frame changes |
| Frames.EntryRefines | kernel/kernel.asm:98-108 | a kernel entry that delivers changes the registers of the interrupted thread to what is due to it and those of no other |
| Frames.OnlyDeliveries | kernel/sched.c:205-219 | an entry with any number of switches does that for every result if and only if it did not switch, or switched away from the interrupted thread last, or neither that one nor the last thread left waits for a result |
| Frames.OneSwitchDelivers | kernel/sched.c:61-98 | at most one switch is enough |
| Frames.DeliveredLater | kernel/sched.c:199-220 | over any run of entries a thread goes on with its own call's result in eax if it made a call, and with its registers unchanged if it was interrupted |
| SendGraph.RecordAcyclic | ipc/send.c:33-38 | recording a receiver from which the sender cannot be reached keeps the graph of waiting threads acyclic |
| SendGraph.NoReturn | ipc/send.c:24-43 | in an acyclic graph the walk never comes to the same thread twice |
| SendGraph.ReachesIs | ipc/send.c:23-43 | one thread is reachable from another if and only if a chain of threads, each sending to the next, leads there |
| SendGraph.AcyclicIs | ipc/send.c:14-44 | acyclic means that no chain of two or more comes back to where it began |
| SendGraph.Threads.Walk | ipc/send.c:23-43 | the unbounded walk ends, at the sender, at a thread that sends to nobody, or where there is no thread |
| SendGraph.Threads.TryToSend | ipc/send.c:14-44 | the result is 1 if and only if the sender is reachable from the receiver; otherwise the send is recorded exactly if the chain ends at a thread; the graph stays acyclic |
| SendGraph.Threads.NewProc | kernel/creatp.c:78-88 | a new process adds no edge |
| SendGraph.Threads.AddThread | kernel/syscall.c:61-80 | a new thread gets the first slot without an id and sends to nobody; the graph stays acyclic |
| SendGraph.Threads.EndThread | kernel/syscall.c:110-111 | ending a thread keeps the graph acyclic |
| SendGraph.SelfSendWaits | ipc/send.c:74-77 | a thread let send to itself would wait for itself, which is why sys_sendmail refuses it |
| Mail.BoxBounds | include/sys/msgno.h:39-41 | the counts are never above 31 and 64 |
| Mail.FindInLevel | ipc/msgcall.c:89-104 | the scan that stops when its count runs out finds the first slot with a mail for the thread that has the message asked for, if it asks for one, and none if and only if there is none |
| Mail.FindMail | ipc/msgcall.c:58-108 | a mail is found if and only if one answers, the first that does, system mail first |
| Mail.FindEmpty | ipc/msgcall.c:41-44 | the first open slot, or none if there is none |
| Mail.FillBox | ipc/post.c:68-80 | depositing adds one mail to the mailbox and keeps its counts right |
| Mail.EmptyBox | ipc/pick.c:44-72 | picking takes one mail out and keeps the counts right |
| Mail.PostOffice.Post | ipc/post.c:13-88 | refused posts change nothing; a post to a full level deposits nothing, returns -1, and puts the sender and only the sender into TS_FULL_WAIT; any other fills the first open slot with the mail as given, and the receiver, if it was in TS_RECVING, and only the receiver, is in TS_RUNNING; every mail posted was picked once or is still there |
| Mail.PostOffice.Pick | ipc/pick.c:12-89 | a pick succeeds if and only if a mail answers, hands it out as it was posted, and puts its sender, if it was in TS_SENDING, and no other thread, into TS_RUNNING; otherwise the thread and only the thread is in TS_RECVING; every mail posted was picked once or is still there |
| Mail.PostedMeans | ipc/post.c:49-87 | a post in the slots, counts and states: when it fails, which slot gets the mail, and that no other slot and no state but the receiver's changes |
| Mail.PickedMeans | ipc/pick.c:41-89 | a pick likewise: when it fails, which slot is opened, and which mail is handed out |
| Mail.StepOk | ipc/post.c:13-88 | every step, a post, a pick, or a state other than TS_RECVING set from outside, keeps counts and slots in order, and that no mail answers a thread in TS_RECVING |
| Mail.NoLostWakeUp | ipc/pick.c:86-88 | a thread that waits after a pick of any posted mail has no mail addressed to it in its mailbox |
| Mail.DeliveredInRuns | ipc/post.c:84-85 | over any run of posts, picks and states set from outside: a mail deposited stays until its receiver acts or has its state set, a receiver that waited for it is in TS_RUNNING all that time, and its next pick of any mail or of that message succeeds |
| Mail.SenderRuns | ipc/pick.c:78-81 | over any such run a sender that a pick woke stays in TS_RUNNING until it acts or has its state set |
| Paging.SearchEnds | kernel/page/page_map.c:21-29 | the cyclic search comes to a free frame if and only if there is one |
| Paging.NextFitIs | kernel/page/page_map.c:21-29 | the frame taken comes, going up from the last one and around, before every other free frame |
| Paging.TranslateIs | kernel/page/page_map.c:85-102 | what an address is mapped to, in the bits of the address and the words of the directory and the table |
| Paging.Pager.FindEmptyPage | kernel/page/page_map.c:18-31 | the next free frame in cyclic order, counted; all its 1024 words are 0, and no other page and no other count changes |
| Paging.Pager.FreePage | kernel/page/page_map.c:34-43 | the count of a frame goes down by one; memory below 4 MB is left alone |
| Paging.SetEntry | kernel/page/page_map.c:102-102 | writing a table entry changes what that entry refers to and nothing else, for tables are distinct frames |
| Paging.NewTable | kernel/page/page_map.c:97-100 | a new table changes no mapping |
| Paging.Pager.MapPageToPhys | kernel/page/page_map.c:75-105 | exactly one virtual page is mapped differently, also when a table had to be allocated: its word is the address with the low three bits set, every other word of that table is as before, or 0 in a new one, and no other page changes |
| Paging.Pager.DoNoPage | kernel/page/page_map.c:107-110 | a page fault maps the page to the next free frame, all of whose words are 0 and which no other page is mapped to, and changes no other mapping; but for that frame and the table no page changes |
| Paging.CanFree | kernel/page/page_map.c:36-41 | the panics of free_page are not reached from a mapping |
| Paging.RefsInIs | kernel/page/page_map.c:54-70 | a frame has at most one reference in a range, the one that is recorded for it; Paging.RefsInAre says which words are references |
| Paging.Pager.FreePageDirTables | kernel/page/page_map.c:48-72 | exactly the given 4 MB ranges are unmapped, and every frame's count goes down by exactly its references in them; their directory entries and the words of their tables that were present are 0, and every other entry, word and page is as before |
| Paging.Pager.constructor | boot/loader.asm:393-428 | at the start all memory is mapped to itself, word by word, and no frame is in use |
| Numbers.Itoa | lib/string.c:109-132 | the digits of n, most significant first, and a NUL; the rest of the buffer is untouched |
| Numbers.DigitsFit | lib/string.c:109-122 | no number has more than 32 digits |
| Numbers.DigitsLead | lib/string.c:109-122 | no zeros lead, but for 0 itself |
| Numbers.DigitCharIs | lib/string.c:174-177 | which characters digits are printed as |
| Numbers.Reverse | lib/string.c:125-130 | the in-place reversal |
| Numbers.IsNum | lib/string.c:67-77 | the value of a hexadecimal digit, and 255 for any other character |
| Numbers.NumOfIs | lib/string.c:67-77 | exactly the characters 0 to 9, a to f and A to F are digits, and which |
| Numbers.Strtol | lib/string.c:79-100 | the value in 32-bit arithmetic; the error position is never set |
| Numbers.RoundTripExact | lib/string.c:79-132 | for bases 2 to 16 strtol of itoa of n is n if and only if n is below 2^31 |
| Numbers.MeantExactly | lib/string.c:79-100 | strtol delivers the value of the digits before the first character that is none, and where that is, if and only if every character is a digit; with one stray character at the end its value is right only by overflow |
| Numbers.NoDigitCounts | lib/string.c:88-97 | 1x is read as 265 without a position |
| Numbers.Number | lib/string.c:170-220 | what number prints, and nothing for a base out of range |
| Numbers.HeadIs | lib/string.c:183-207 | which sign and which prefix come first |
| Numbers.PrintedIs | lib/string.c:196-218 | where the padding is and what it is made of: spaces or zeros to the width, zeros to the precision |
| Numbers.PrintedLength | lib/string.c:187-218 | exactly max(width, max(precision, digits) + sign + prefix) characters |
| Numbers.PrintedDenotes | lib/string.c:182-195 | the digits denote the unsigned magnitude; with the sign they are the number, the least int included |
| Numbers.ValueOfDigits | lib/string.c:191-195 | the digits of n in any base up to 36 have the value n |

## Left out

- HashTable.UnhashRows: is about the repaired row handling of `free_buffer`; the original is in `FreeBufferAsWritten`.
- HashTable.FreeLinked: is about the repaired row handling of `free_buffer`.
- BufferCache.Cache.FreeBuffer: uses the repaired row handling; counts are unbounded, while `bh_cnt` is one byte and wraps at 256 holders of one buffer.
- FileSystem.FileSys.FreeBlock: what a freed block reads as afterwards is left open, since its buffer is dropped unwritten.
- FileSystem.FileSys.FreeFileBlk: requires that the place of the block, if it exists, is not empty; for a hole `free_block` crashes on zone 0.
- FileSystem.FileSys.ClearIblks: leaves the mark of the inode alone, as the code does (`InodeTable.ChangeSurvives`); requires that nobody holds a block of the file, on which `free_block` crashes.
- FreeBufferAsWritten.LogicalKept: is about one call; buffers that it leaves behind in no row are found by nobody later, and what their holders store is lost. `FreeBufferAsWritten.RunsAgree` is about runs.
- InodeTable.Table.Iget: for inodes in use; the code would fetch any number.
- InodeTable.Table.NewInode: with the uid, the mode and `i_valid` that its callers set at once (fs/namei.c:266-269); afterwards, when ownership is broken, nothing more is said.
- InodeTable.Table.Truncate: the time stamp that `clear_iblks` sets is left alone.
- Directory.FindEntry: for directories without holes; `add_entry`, which alone makes them grow, leaves none.
- Directory.AddEntry: for directories without holes; names of exactly 14 characters are excluded, for they overrun their slot (`DirEntries.FourteenSpills`).
- EndToEnd.CreateThenFind: names of exactly 14 characters are excluded likewise; the directory is held twice.
- EndToEnd.FirstSession: the root directory begins empty, while `load_root` enters a name and makes the system directories.
- FileNames.Tree.Create: requires that the entry `new_inode` takes has no zones, without which no order can be kept (`InodeTable.Table.NewInode`); the mode is not that of a directory, and the name not of 14 characters; the path is one that `dir_namei` has resolved.
- FileNames.Tree.Link: both inodes are held from the start, while the code takes the directory only after its first test; the name is not of 14 characters.
- Scheduler.ExactQuota: over runs without blocking, waking or new threads, with all priorities at least 1.
- Frames.DeliveredLater: for entries that switch at most once; `sys_exit`, which restores a frame itself (kernel/exit.c:76-84), is not modelled.
- Mail.PostOffice.Post: the queue of senders to a full mailbox (ipc/post.c:52-61) is not modelled; pids and tids are natural numbers, while a negative tid passes the check of ipc/post.c:32.
- Mail.PostOffice.Pick: the time stamps are not compared; mail sent by `sys_sendmail`, on which it panics, is absent.
- Paging.Pager.MapPageToPhys: requires a frame that is not mapped yet and an address above the first 64 MB, which map all memory to itself; mapping over a page that was mapped leaves the old frame counted, as in the code.
- Paging.Pager.DoNoPage: for addresses above the first 64 MB, which map all memory to itself.
- Paging.Pager.FindEmptyPage: with frames but no free one the code loops forever; that case is excluded (`Paging.SearchEnds`).
- The file system has one device, the root device; the zone map and the inode map are kept in fields, and `sync_bmaps` is not modelled.
- The last part of `sys_sendmail` (ipc/send.c:89-122), `sys_replymail`, and the waking of senders to a full mailbox are unfinished.
- `breada`, `blk_rd`, `blk_wr`, `bread_page`: their loops on unsigned counters do not end.
- `sys_exit`, `sys_waitpid`, `sys_kill`; of `sys_end_thread` only its effect on the send graph.
- Paths of several components, `mkdir`, `rmdir` and `is_dir_empty`.
- Time stamps, but for the one on disk that new_inode sets; locks, device drivers, console, partition tables, ELF loading and assembly beyond its effect on frames and page tables.
