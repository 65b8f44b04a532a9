# A verified model of NovariaOS subsystems

NovariaOS is a small x86-64 kernel with its own file system drivers, memory allocators and a
bytecode virtual machine. This project models the parts of it that keep the hardest invariants and
proves, with Dafny 4.11, what they promise. `dafny verify dfyconfig.toml` checks everything.

* **ext2** (`Ext2*.dfy`, `FileSpec.dfy`, `FileRun.dfy`). A volume is a disk of blocks and a table of
  inodes. The block map is a radix tree whose nodes are disk blocks; `Ext2Tree` says what it means for
  all files' trees together to be a forest that shares nothing, `Ext2Graft` how several writes to disk
  graft a branch, `Ext2Bmap` how logical block numbers become paths. `Ext2Fs` is the driver, `Ext2Run`
  whole runs, compared with files apart from any disk (`FileRun`), `Ext2Space` what a write costs.
  `Ext2Alloc` is the bitmap allocator, once for blocks and inodes. `Ext2DirBlock` works on the bytes
  of `rec_len` chains, `Ext2Dir` on whole directories. `Ext2Layout` says where every byte of a file is
  on the disk, in ordinary arithmetic; reads and writes are stated against it.
* **Buddy allocator and its front ends** (`BuddyTree`, `BuddyAlloc`, `CpuPool`, `Slab*`). The ghost
  field `owner` gives every page the order of the block that holds it; tiling, coalescing and
  completeness are proved from that. The per-CPU pools partition what the buddy allocator has
  handed out. Slab memory is a map from page addresses to pages with real links; the pages are
  blocks of the buddy allocator.
* **FAT32** (`Fat*.dfy`). The table is a graph in mirrored copies; files are paths in it, and file
  contents lie along the paths. `FatLayout` is their place on the disk, `FatRun` compares whole runs
  with `FileRun`.
* **NVM** (`Nvm*.dfy`). What each instruction does to the cells, as laws of the process object; stores
  and loads and call frames over whole runs; round-robin scheduling; messages.
* **NVMe completion queue** (`Nvme.dfy`), once with its ring and phase bit and once as a ledger of
  commands and completions, and **real-time clock** (`Rtc.dfy`) against the calendar in one formula
  (`Gregorian.dfy`).

Three conventions recur. Products and quotients by run-time block sizes are written as repeated
addition and subtraction (`Arith.Times`, `Quot`, `Rem`); `TimesIs` and `QuotIs` identify them with
the ordinary operators. Large invariants are passed on as one fact with `Whole`, which is the
identity on propositions. Ghost fields hold what the code's data mean (`free`, `out`, `owner`,
`chains`, `lists`); every `Valid` ties them to the real fields.

Where code and documentation disagree the model follows the code. `docs/3.6-IPC-syscalls.md` says
that a receive with no message blocks and then delivers; in the code the system call is not
repeated, so a woken process goes on without a message and receives it by asking again.

Findings stated as exact conditions rather than plain promises, with the members that state them and
those that give a failing input:

* a full-count write acts as on a byte array exactly when its end stays below 2^32 and no earlier
  write left bytes between the end of the file and its position (both drivers). A write cut short by
  a full disk stores bytes past the end without moving it, and they stay (`FileRun.FullWrite`,
  `Leftover`, `LeftoverSevens`, and `LeftoverRun` for each driver);
* a write is cut short exactly when the blocks missing for its bytes exceed the free ones
  (`Ext2Space.AllStored`; for FAT32 clusters, `Fat32.Write`);
* `ext2_dir_add_entry` ignores the result of `ext2_bmap_set`: it returns 0 and loses the entry
  exactly when the new block could not be linked (`Ext2Dir.AddEntry`, `ThirteenthBlock`);
* `ext2_free_block` keeps the accounts exactly when the block was in use and is not block 0 (`Free`,
  `FreedTwice`);
* a buddy block is large enough exactly for requests up to 1 MiB (`MinimumOrder`, `TooSmall`);
* an NVMe call is guaranteed its own completion exactly when no earlier call on the queue timed out,
  since completions are not matched by command number; after a timeout it depends on the order of the
  controller's answers (`OwnCompletion`, `SettledIffAnswered`, `LateAnswer`, `LuckyAnswer`);
* initialising a CPU's pool or slab caches keeps the books exactly when they hold nothing yet
  (`CpuPool.CpuPools.Init`, `InitAgain`, `Slab.Slabs.CpuInit`, `CpuInitAgain`);
* freeing a slab object on another CPU than its page's owner keeps the books exactly when the page is
  full and not the first of its list (`SlabElsewhere.KeptExactly`);
* the clock returns a timestamp exactly before 2100-01-01 and, in 12-hour mode, outside 12:00-12:59
  (`Rtc.RoundTrip`, `NoonAndCentury`); in that mode it reads the hour right exactly in the morning
  (`Rtc.ReadsHour`), and the date it writes is right exactly before the year 65536 (`Rtc.DateIs`).

## Model

| member | source | states |
|---|---|---|
| `Ext2Alloc.GroupAllocator.AllocInGroup` | core/fs/ext2.c:156-184 | within a group the lowest free number is taken; 0 exactly when the group's counter is 0; group and total counters stay equal to the clear bits |
| `Ext2Alloc.GroupAllocator.Alloc` | core/fs/ext2.c:186-192 | the least free number of all groups; 0 exactly when nothing is free, which is exactly when the superblock count is 0, and then nothing changes |
| `Ext2Alloc.GroupAllocator.ClearBit` | core/fs/ext2.c:202-211 | clearing a bit and raising both counters keeps the accounts exactly when the bit was set and is not that of block 0 (the 16- and 32-bit counters wrap) |
| `Ext2Alloc.GroupAllocator.Free` | core/fs/ext2.c:194-212 | freeing undoes allocating through the (group, index) to number bijection; numbers outside the groups are ignored; the accounts survive exactly when the number was in use and is not 0 |
| `Ext2Alloc.FreedTwice` | core/fs/ext2.c:194-212 | a failing input: after one number is freed twice the counter says two and one is free |
| `Ext2Alloc.Locate` | core/fs/ext2.c:195-199 | block and inode numbers and (group, index) pairs correspond one to one |
| `Ext2Alloc.SomeFree` | core/fs/ext2.c:186-192 | the total counter is zero exactly when no number is free |
| `Ext2Bmap.PathOfValid` | core/fs/ext2.c:130-154 | every logical block below 12+p+p^2+p^3 has a path inside its tables, from which the block number can be read back |
| `Ext2Bmap.LbnOfValid` | core/fs/ext2.c:130-154 | every path to data is the path of one logical block in range: numbers and paths correspond one to one |
| `Ext2Bmap.BmapResolves` | core/fs/ext2.c:116-154 | the lookup with its divisions and remainders follows exactly that path, at all four depths |
| `Ext2Bmap.PositionInRange` | core/fs/ext2.c:776-780 | every 32-bit file position falls into a logical block the map can hold |
| `Ext2Layout.BmapIs` | core/fs/ext2.c:116-154 | at all four depths the lookup is the one in ordinary division and remainder: twelve blocks named by the inode, then p, p*p and p*p*p behind one, two and three tables of little-endian 32-bit entries |
| `Ext2Layout.ByteIs` | core/fs/ext2.c:776-793 | so the abstract byte x of a file is the byte on the disk at x / block size and x % block size, for every 32-bit position |
| `Ext2Layout.RingLast` | core/fs/ext2.c:809-851 | where byte i of the data ends up when the position wraps at 2^32, for data of any length |
| `Ext2Layout.RingOther` | core/fs/ext2.c:809-851 | which bytes of the file such data does not reach |
| `Ext2Tree.LinkWf` | core/fs/ext2.c:214-241 | linking a block nobody owns into an entry keeps the pointer structure a tree: no block has two parents |
| `Ext2Tree.StoreWf` | core/fs/ext2.c:18-23 | writing a block that is no pointer table changes no pointer |
| `Ext2Graft.Graft` | core/fs/ext2.c:243-347 | any number of new tables and the data block, written to disk one after another from the bottom up, change the map at one logical block and nowhere else, for all files |
| `Ext2Graft.GrowAll` | core/fs/ext2.c:214-241 | fresh, zeroed, unshared tables along a path change no mapping |
| `Ext2Fs.Ext2.LoadTable` | core/fs/ext2.c:216-231 | an existing table as it is, or a new one of zeros in a block that was free |
| `Ext2Fs.Ext2.SetIndirect` | core/fs/ext2.c:214-241 | one entry of one table changes; it fails exactly when the table is missing and no block is free, and then nothing changes |
| `Ext2Fs.Ext2.SetSingle` | core/fs/ext2.c:253-260 | the single-indirect case of the map update, with its exact failure condition |
| `Ext2Fs.Ext2.SetDouble` | core/fs/ext2.c:263-293 | the double-indirect case of the map update, with its exact failure condition |
| `Ext2Fs.Ext2.SetTriple` | core/fs/ext2.c:295-346 | the triple-indirect case of the map update, with its exact failure condition |
| `Ext2Fs.Ext2.BmapSet` | core/fs/ext2.c:243-347 | on 0 the map yields the new block at the given logical block and is unchanged at every other one of every file, the tree stays a tree, and as many free blocks are taken as tables were missing; it fails exactly when fewer are free, and then map and disk are as before and no block is free |
| `Ext2Fs.MapSetPlaces` | core/fs/ext2.c:243-347 | in ordinary arithmetic: afterwards logical block l of file g is the new block for the given l and g, and for all other ones what it was |
| `Ext2Fs.Ext2.Provide` | core/fs/ext2.c:824-838 | the block behind a position, allocated if it was missing and the free blocks suffice, with no byte of any file changed; fails exactly when they do not, and then none is free |
| `Ext2Files.BlockWrote` | core/fs/ext2.c:839-843 | splicing bytes into one logical block writes exactly those bytes of the file and of no other file |
| `Ext2Files.StoreData` | core/fs/ext2.c:839-843 | overwriting a mapped data block changes that logical block and no other of any file |
| `Ext2Files.GraftData` | core/fs/ext2.c:825-830 | entering a block in the map replaces one logical block and no other |
| `Ext2Space.CostIs` | core/fs/ext2.c:818-830 | the blocks a hole costs, the missing tables and itself, are the paths on its way that lead nowhere |
| `Ext2Space.MoreHoles` | core/fs/ext2.c:814-850 | writing on: the blocks missing for a further block are those missing after what was written so far, tables shared with it counted once |
| `Ext2Space.AllStored` | core/fs/ext2.c:803-862 | a write is complete exactly when the blocks missing for its bytes, tables included, do not exceed the free ones |
| `Ext2Fs.Ext2.StoreChunk` | core/fs/ext2.c:818-843 | one round of the write loop: the bytes of one block are on the disk at the block and offset that quotient and remainder by the block size name, whether it was mapped or not and whatever the block buffer held before; every other byte of this and all other files is where it was; at its exact cost in blocks |
| `Ext2Fs.Ext2.StoreAll` | core/fs/ext2.c:814-850 | the whole loop: a prefix of the buffer at its 32-bit position, wrapping past 2^32 as the position does, exactly as long as the free blocks suffice for, and nothing else; other files untouched even when it fails |
| `Ext2Fs.Ext2.Commit` | core/fs/ext2.c:853-858 | the size grows to the new position and the inode is written back |
| `Ext2Fs.Ext2.WriteBytes` | core/fs/ext2.c:803-862 | the write path of a non-empty buffer on a writable volume, with position, size, inode table, free blocks and contents of this and all other files after success and after a full disk |
| `Ext2Fs.Ext2.Write` | core/fs/ext2.c:803-862 | cut short exactly when fewer blocks are free than are missing for the bytes, tables included; then it has stored the longest prefix the free blocks suffice for, taken them all, and left size, position and inode table. Byte i is afterwards in the block that Place names for (position + i) / block size, at offset (position + i) % block size, the position taken modulo 2^32; all other bytes of this and all other files are on the disk as before. A write that returns the count acts on a file as on a sparse byte array exactly when its end stays below 2^32 and no earlier call left bytes in the gap before it |
| `Ext2Fs.PutDone` | core/fs/ext2.c:803-862 | that exact condition, for every position, wrapping ones included, and with nothing asked of what lies past the end of the file |
| `Ext2Fs.Ext2.LoadChunk` | core/fs/ext2.c:778-793 | one round of the read loop: byte k is the one on the disk in the block that Place names for (position + k) / block size, at offset (position + k) % block size, and zero for a hole |
| `Ext2Fs.Ext2.LoadAll` | core/fs/ext2.c:774-797 | the read loop returns the file's bytes in order |
| `Ext2Fs.Ext2.Read` | core/fs/ext2.c:758-801 | byte k is the one on the disk in the block that Place names for (position + k) / block size, at offset (position + k) % block size, and zero for a hole; as many as asked for, cut at the end of the file; that is the abstract contents from the position on, and the position moves by as much |
| `FileSpec.ReadAfterWrite` | core/fs/ext2.c:758-862 | reading back a written range gives what was written, reading elsewhere what was there, reading a gap zeros |
| `Ext2Run.WriteStep` | core/fs/ext2.c:803-862 | every write is a step of the runs below, whatever it returns and wherever it ends: a failing one has stored a prefix and left the size, a wrapping one goes on at position 0 |
| `Ext2Run.RunShows` | core/fs/ext2.c:803-862 | after any sequence of writes to any files at any positions, full or cut short by a full disk, every byte of every file is the one the calls stored, and zero where they stored none |
| `Ext2Run.ShownContents` | core/fs/ext2.c:758-800 | so the contents of every file are those of its abstract counterpart |
| `Ext2Run.RunContents` | core/fs/ext2.c:758-862 | the two together: from a volume with nothing but zeros stored past the ends of its files, after any run of completed writes the contents of all files are those of byte arrays after the same writes, zeros in the gaps included |
| `Ext2Run.LeftoverRun` | core/fs/ext2.c:803-862 | a run of the driver that reaches the failing state: with one free block, a block of sevens and one more to an empty file fail and leave it empty; a 9 at the last byte of the block then has sevens before it, not zeros |
| `FileRun.FullWrite` | core/fs/ext2.c:803-862 | a full write acts on the contents as on a byte array with zeros in the gap, exactly when it ends below 2^32 and nothing but zeros is stored between the end of the file and its position |
| `FileRun.ShortWrite` | core/fs/fat32.c:1274-1280 | a write cut short shows what it stored below the old end; bytes past the end stay behind unless they are zeros, with the exact condition |
| `FileRun.Leftover` | core/fs/ext2.c:825-856 | the failing family: whatever non-zero byte a write cut short left past the end shows in the gap of a later full write behind it |
| `FileRun.LeftoverSevens` | core/fs/ext2.c:818-856 | a failing input for every block size c: of c + 1 sevens at the front of an empty file c are stored; a 9 at any k up to c is then read behind k sevens, not behind k zeros |
| `FileRun.CompletedRun` | core/fs/ext2.c:803-862 | after any sequence of completed calls every file holds what the byte arrays hold |
| `Ext2DirBlock.ChainJoin` | core/fs/ext2.c:412-426 | records that tile two adjacent stretches tile both together, and their entries follow each other |
| `Ext2DirBlock.RecordLayout` | core/fs/ext2.c:412-424 | the bytes of a record: little-endian inode and length, name length, file type, name |
| `Ext2DirBlock.FindInBlock` | core/fs/ext2.c:412-426 | the scan of one block finds the first entry of a name, 0 if there is none |
| `Ext2DirBlock.AddInBlock` | core/fs/ext2.c:512-547 | an entry, with its file type, goes into the first record with room: a free record takes it, one in use shrinks to what its name needs and a second one behind it takes it; the block stays tiled by 4-aligned records large enough for their names; it fails exactly when no record has room |
| `Ext2DirBlock.MakeBlock` | core/fs/ext2.c:552-560 | a fresh directory block is one record with the one entry |
| `Ext2DirBlock.RemoveInBlock` | core/fs/ext2.c:587-605 | removal takes exactly the first entry of the name out: the record before it grows over it, or, at the front of a block, it becomes free; the block stays tiled |
| `Ext2DirBlock.InsertedFind` | core/fs/ext2.c:394-432 | looking up a name in a list with one entry inserted |
| `Ext2Dir.Lookup` | core/fs/ext2.c:394-432 | lookup over all blocks, holes skipped, is the search in the directory's list of entries; 0 for a non-directory |
| `Ext2Dir.AddEntry` | core/fs/ext2.c:481-568 | on 0 the directory has exactly the new entry more, with its name, inode and file type, in place or in a new block, and all other files are as before; the entry is lost exactly when its new block could not be linked, which the driver does not notice; each error leaves everything as it was |
| `Ext2Dir.ThirteenthBlock` | core/fs/ext2.c:549-566 | a failing input, as a call: with twelve full blocks, no indirect table and one free block the call returns 0 and the directory has the entries it had; with more free blocks it has the new one |
| `Ext2Dir.RemoveEntry` | core/fs/ext2.c:570-611 | on 0 exactly the named entry is gone and all other files are as before; -ENOENT exactly when the name is absent, and then nothing changes |
| `Ext2Dir.AddIsMapUpdate` | core/fs/ext2.c:481-568 | after adding an absent name lookup finds it with its inode and file type, every other name is looked up as before, names stay unique |
| `Ext2Dir.RemoveIsMapRemoval` | core/fs/ext2.c:570-611 | after removal lookup does not find the name, every other name is looked up as before |
| `BuddyAlloc.MinimumOrder` | core/kernel/mem/buddy.c:10-20 | the least order that holds the size; the block is large enough exactly up to 1 MiB, since the order saturates |
| `BuddyAlloc.TooSmall` | core/kernel/mem/buddy.c:10-20 | a failing input, as a call: a request beyond 1 MiB that the pool admits gets a block of 1 MiB unless every such block overlaps one that is out, and always if nothing is out |
| `BuddyAlloc.FlipIsBuddy` | core/kernel/mem/buddy.c:22-29 | the exclusive-or on the offset leads to the block whose index differs in the last bit |
| `BuddyAlloc.Allocator.constructor` | core/kernel/mem/buddy.c:240-341 | of a pool that is not rejected, the largest block that fits beside the bitmaps is managed and free as one block, the bitmaps lie behind it, the pool is rounded down to whole blocks of that order, every order has as many bits as blocks fit, and the invariant holds |
| `BuddyAlloc.BitmapsApart` | core/kernel/mem/buddy.c:273-299 | for every pool size, the bitmaps placed at the end of the reduced pool do not reach into the managed block |
| `BuddyAlloc.Allocator.AddressIndex` | core/kernel/mem/buddy.c:31-51 | address and index of a block inside the managed region are inverse, and the block ends inside the region |
| `BuddyAlloc.Allocator.FirstFree` | core/kernel/mem/buddy.c:84-91 | the least clear bit of an order, or -1 exactly when none is clear |
| `BuddyTree.TakeKeeps` | core/kernel/mem/buddy.c:157-170 | handing out a free block keeps tiling and merging |
| `BuddyTree.CutKeeps` | core/kernel/mem/buddy.c:126-154 | halving a block that is out, keeping the left half out and freeing the right, keeps tiling and leaves no two free buddies |
| `BuddyTree.GiveKeeps` | core/kernel/mem/buddy.c:182-186 | marking a returned block free keeps the tiling; only its own pair may be unmerged |
| `BuddyTree.MergeKeeps` | core/kernel/mem/buddy.c:212-233 | replacing two free buddies by their parent keeps the tiling and moves the one possible unmerged pair up |
| `BuddyTree.ExactlyOneTile` | core/kernel/mem/buddy.c:97-238 | every byte of the managed block lies in exactly one block that is free or out |
| `BuddyTree.OneBlock` | core/kernel/mem/buddy.c:191-235 | if every page of a block is free, one free block contains them all |
| `BuddyTree.Complete` | core/kernel/mem/buddy.c:118-172 | nothing is free from an order up exactly when every aligned block of that order overlaps a block that is out |
| `BuddyTree.FreeIs` | core/kernel/mem/buddy.c:118-238 | a block is free exactly when none that is out overlaps it and its parent, if it has one, is overlapped: what is free can be told from what is out |
| `BuddyTree.OutDecides` | core/kernel/mem/buddy.c:118-238 | so the bitmaps do not depend on the history: the same blocks out, the same blocks free |
| `BuddyTree.AllBack` | core/kernel/mem/buddy.c:174-238 | with nothing out, the managed block alone is free |
| `BuddyAlloc.Allocator.Restored` | core/kernel/mem/buddy.c:325-337 | freeing everything, in any order after any history, restores the initial bitmaps |
| `BuddyAlloc.Allocator.AllocBlock` | core/kernel/mem/buddy.c:118-172 | NULL exactly when nothing is free from the order up, and then nothing changes; otherwise exactly one block of that order more is out, and it overlapped none of the others; it starts at the lowest free block of the least order from there up that has one; the recursion ends |
| `BuddyAlloc.Allocator.MergeUp` | core/kernel/mem/buddy.c:191-237 | the merge loop ends with no two free buddies anywhere |
| `BuddyAlloc.Allocator.FreeBlock` | core/kernel/mem/buddy.c:174-238 | the block is no longer out and the invariant holds; an invalid address changes nothing |
| `BuddyAlloc.Allocator.Alloc` | core/kernel/mem/buddy.c:343-368 | NULL exactly for size 0, a size beyond the pool, or when every aligned block of the order overlaps one that is out; otherwise the block is inside, aligned, of the least sufficient order, disjoint from all that are out, and found by first fit |
| `BuddyAlloc.Allocator.Release` | core/kernel/mem/buddy.c:370-398 | NULL, a bad order or a bad address change nothing; an outstanding block is returned |
| `BuddyAlloc.AllocThenRelease` | core/kernel/mem/buddy.c:343-398 | handing a block out and taking it back restores every bit and counter: all splits are undone |
| `BuddyAlloc.Allocator.FreeMemory` | core/kernel/mem/buddy.c:400-411 | free memory and outstanding memory always add up to the managed block |
| `CpuPool.CpuPools.Init` | core/kernel/mem/cpu_pool.c:30-36 | a CPU's pool is set up with empty stacks; the partition of blocks survives exactly when they were empty before, as they are on the first call |
| `CpuPool.CpuPools.StackOrders` | core/kernel/mem/cpu_pool.c:10-28 | the CPUs below 64 that are initialised have stacks, for the orders 12, 13 and 14 exactly |
| `CpuPool.InitAgain` | core/kernel/mem/cpu_pool.c:30-57 | a failing input, as a run: a refill, then a second initialisation, and the cached blocks are with nobody |
| `CpuPool.CpuPools.Refill` | core/kernel/mem/cpu_pool.c:52-57 | at most eight blocks move from the buddy allocator to one stack, fewer only if the allocator then has none, none exactly when it had none, and then nothing changes; clients' blocks and all other stacks are untouched |
| `CpuPool.CpuPools.Flush` | core/kernel/mem/cpu_pool.c:82-85 | the upper half of a full stack goes back to the buddy allocator, the lower half and all other stacks stay |
| `CpuPool.CpuPools.Alloc` | core/kernel/mem/cpu_pool.c:38-63 | for every CPU number and order: NULL exactly when the CPU has no such block cached and the buddy allocator has none, and then nothing changes; with a stack that is not empty its top, and the buddy allocator is not asked; with an empty one a refill leaves seven blocks behind, or the allocator exhausted; otherwise one block moves to the client; every block outside the buddy allocator is with a client or in exactly one slot of one stack |
| `CpuPool.CpuPools.Release` | core/kernel/mem/cpu_pool.c:65-87 | exactly that block leaves the client. With fewer than 16 blocks on the stack it goes on top and the buddy allocator is untouched; with 16 the lower eight stay below it and exactly the upper eight go back; without a stack exactly this block goes back; no other stack changes |
| `CpuPool.ReleaseThenAlloc` | core/kernel/mem/cpu_pool.c:38-87 | a block given back is the next one handed out on that CPU, and the stacks are then as before, but for the half a full one gave up |
| `CpuPool.PushLocated` | core/kernel/mem/cpu_pool.c:76-79 | a block put on a stack is in that slot and no other |
| `CpuPool.PopLocated` | core/kernel/mem/cpu_pool.c:49-50 | a block taken from a stack is in no slot, the other slots keep theirs |
| `SlabLists.PushLinked` | core/kernel/mem/slab.c:65-71 | pushing keeps a list linked in both directions and puts the page first |
| `SlabLists.UnlinkLinked` | core/kernel/mem/slab.c:54-63 | removing any page of a list, first, middle or last, keeps it linked in both directions |
| `SlabLists.DropListed` | core/kernel/mem/slab.c:54-63 | no other list notices the removal, and the page is on no list |
| `SlabLists.PlaceListed` | core/kernel/mem/slab.c:65-71 | no other list notices the push, and the page is on exactly that list |
| `Slab.ListRemove` | core/kernel/mem/slab.c:54-63 | any page of a list linked in both directions can be taken out: the list without it is linked, in the same order |
| `Slab.ListPush` | core/kernel/mem/slab.c:65-71 | a page that is not on a linked list becomes its first page, and the list stays linked |
| `SlabPages.MaskSlot` | core/kernel/mem/slab.c:238-239 | masking the address of any object gives its page |
| `SlabPages.ObjSizes` | core/kernel/mem/slab.c:52 | the sizes of the eight classes |
| `SlabPages.InitPage` | core/kernel/mem/slab.c:73-93 | a new page's free list chains exactly the slots that fit behind the header, each once, from the last one down to the first, and its count is the list's length |
| `SlabPages.TakeOk` | core/kernel/mem/slab.c:154-156 | taking the first free object keeps free and live objects a partition of the page's slots and the counter the length of the free list |
| `SlabPages.GiveOk` | core/kernel/mem/slab.c:170-173 | giving an object back keeps the partition and the counter |
| `SlabPages.OtherOk` | core/kernel/mem/slab.c:135-197 | other pages do not notice an object changing hands |
| `Slab.TakeObject` | core/kernel/mem/slab.c:154-164 | a free object of the first partial page becomes live; the page moves to the full list exactly when that was its last free object |
| `Slab.GiveObject` | core/kernel/mem/slab.c:167-179 | a live object becomes the first free one of its page; the page becomes the first of the partial list exactly when it was full, and no list changes otherwise |
| `Slab.NewPage` | core/kernel/mem/slab.c:95-102 | a page from the buddy allocator starts with all slots free, on a partial list |
| `Slab.Adopt` | core/kernel/mem/slab.c:138-146 | the CPU's cache takes over the first page of the global partial list, with its owner |
| `Slab.CacheAlloc` | core/kernel/mem/slab.c:135-165 | an object is found unless both partial lists are empty and there is no new page, and exactly then NULL: the first free object of the first page of the cache's partial list or, if that is empty, of the global one or, if that is empty, the last slot of a new page; its page then belongs to the cache |
| `Slab.PageAligned` | core/kernel/mem/slab.c:238-239 | the pages of a pool are aligned, as masking needs them, exactly when the pool is |
| `Slab.FreshPage` | core/kernel/mem/slab.c:95-102 | a block that the buddy allocator did not have out is the address of no slab page |
| `Slab.Serve` | core/kernel/mem/slab.c:135-165 | the buddy allocator is asked for a page only if no page of the class has a free object, and is untouched otherwise; every slab page is a block it has out |
| `Slab.HomeIs` | core/kernel/mem/slab.c:248-264 | the list a page is on can be told from its size, owner and counter, so the free path touches the lists that hold the page |
| `Slab.Slabs.CpuInit` | core/kernel/mem/slab.c:124-133 | the switch to per-CPU caches resets the CPU's list heads: the invariant over all pages survives exactly when they were null, as they are on the first call |
| `Slab.CpuInitAgain` | core/kernel/mem/slab.c:124-165 | a failing input, as a run: an allocation, then a second initialisation, and the CPU's pages are on no list |
| `Slab.Slabs.Alloc` | core/kernel/mem/slab.c:199-233 | on the buddy allocator: a new object of the least size class that fits, distinct from every live object; NULL exactly when there is no such class, or no page of it has a free object and every page of the pool overlaps a block that is out, and then nothing changes |
| `Slab.Slabs.Release` | core/kernel/mem/slab.c:235-265 | a live object comes back and no other, as the first free one of its page, and a page that was full becomes the first of its partial list; NULL and addresses outside slab pages change nothing; every page stays on exactly one well-linked list, partial exactly when it has a free object |
| `Slab.ReleaseThenAlloc` | core/kernel/mem/slab.c:135-265 | an object of a full page that is given back is the next one handed out in its size class |
| `SlabElsewhere.FreeElsewhere` | core/kernel/mem/slab.c:181-197 | a free on another CPU than the page's owner, as the code does it on the global lists, with the exact condition |
| `SlabElsewhere.KeptExactly` | core/kernel/mem/slab.c:248-262 | some books fit the memory afterwards exactly when the page was full and not the first of its owner's list |
| `SlabElsewhere.LinkedOnce` | core/kernel/mem/slab.c:54-71 | the links determine a list: two lists linked from the same head are the same |
| `FatTable.Mixed` | core/fs/fat32.c:164-167 | the written entry has the new low 28 bits and the old high four |
| `FatTable.Table.Get` | core/fs/fat32.c:111-137 | the entry as every copy shows it; out-of-range clusters are refused |
| `FatTable.Table.Put` | core/fs/fat32.c:139-179 | all copies agree on the low 28 bits and every copy keeps its own high bits at every entry; that these are still those of mount time is part of the invariant every operation keeps; out-of-range clusters are refused and change nothing |
| `FatChains.AllocKeeps` | core/fs/fat32.c:205-225 | marking a free cluster touches no chain |
| `FatChains.StartKeeps` | core/fs/fat32.c:1180-1193 | an end-marked cluster becomes the chain of an empty file; all chains stay acyclic, terminated and disjoint |
| `FatChains.ExtendKeeps` | core/fs/fat32.c:227-242 | linking appends exactly one cluster; all chains stay acyclic, terminated and disjoint |
| `FatChains.FreeFrom` | core/fs/fat32.c:244-266 | freeing ends on every table content, cyclic and cross-linked ones included |
| `FatChains.FreeEffect` | core/fs/fat32.c:244-266 | on every table and from every start, an entry afterwards is unchanged, or it was reachable from the start and is free |
| `FatChains.FreesChain` | core/fs/fat32.c:244-266 | on a proper chain exactly its clusters become free |
| `FatChains.FreeKeeps` | core/fs/fat32.c:993-1000 | the other files' chains stay acyclic, terminated and disjoint |
| `Fat32.Fat32.AllocCluster` | core/fs/fat32.c:205-225 | the first free cluster, entry 0, marked 0x0FFFFFF8 as an end; -ENOSPC exactly when there is none, and then nothing changes |
| `Fat32.Fat32.ExtendChain` | core/fs/fat32.c:227-242 | alloc and link; a cluster that cannot be linked is given back, so that every failure leaves the table as it was |
| `FatFiles.GrowWrites` | core/fs/fat32.c:1228-1236 | a cleared cluster linked behind a file changes no byte of any file |
| `FatFiles.GrowDraws` | core/fs/fat32.c:205-242 | the clusters a file has and the free ones together stay the same when its chain grows |
| `FatFiles.PieceWrote` | core/fs/fat32.c:1252-1263 | read-modify-write of one cluster writes exactly those bytes of the file and of no other file |
| `FatFiles.WrittenContents` | core/fs/fat32.c:1158-1308 | bytes written anywhere plus the new size give the byte array after the write exactly when nothing was left behind in the gap |
| `FatLayout.HopFrom` | core/fs/fat32.c:1208-1226 | following the low 28 bits of the first table copy from a cluster of a chain leads along the chain, and past its end to an end mark |
| `FatLayout.ByteIs` | core/fs/fat32.c:1120-1151 | so the abstract byte x of a file is the byte on the disk in the cluster x / cluster size steps from its first one, at offset x % cluster size |
| `Fat32.Fat32.Walk` | core/fs/fat32.c:1208-1244 | the first phase reaches the cluster of the position, extending the chain with zeros as needed and changing no byte of any file; it fails exactly when the clusters run out |
| `Fat32.Fat32.Fill` | core/fs/fat32.c:1246-1294 | the second phase writes a prefix of the buffer at its position along the chain and nothing else; if not all of it, to the end of the chain and with no cluster left |
| `Fat32.Fat32.Start` | core/fs/fat32.c:1180-1206 | the first cluster of an empty file is cleared and entered in its directory entry |
| `Fat32.Fat32.Conclude` | core/fs/fat32.c:1298-1305 | position and size after the write, in the handle and in the directory entry |
| `Fat32.Fat32.Write` | core/fs/fat32.c:1158-1308 | the count is full exactly when the file's clusters and the free ones hold the bytes; a short one has filled them, left none free and stored exactly the prefix it reports, with position and size as before. A write that returns the count overwrites exactly its range, fills the gap with zeros and sets the size to the maximum, exactly when its end stays below 2^32 and no earlier call left bytes in the gap; every other file is unchanged. Byte i is on the disk in the cluster (position + i) / cluster size steps from the first, at offset (position + i) % cluster size; all other bytes of this and all other files are on the disk as before |
| `Fat32.Fat32.Gather` | core/fs/fat32.c:1133-1151 | the read loop returns the file's bytes in order |
| `Fat32.Fat32.Read` | core/fs/fat32.c:1098-1156 | byte k is the one on the disk in the cluster (position + k) / cluster size steps along the table from the first, at offset (position + k) % cluster size; as many as asked for, cut at the end of the file; that is the abstract contents from the position on |
| `Fat32.Fat32.FreeChain` | core/fs/fat32.c:244-266 | the loop computes that function, on any table |
| `Fat32.Fat32.Truncate` | core/fs/fat32.c:993-1015 | the file is empty, exactly its clusters are free, all other files are unchanged |
| `FatRun.WriteStep` | core/fs/fat32.c:1158-1308 | every write is a step of the runs below, whatever it returns and wherever it ends |
| `FatRun.TruncateStep` | core/fs/fat32.c:993-1015 | every truncation is a step of the runs below |
| `FatRun.RunShows` | core/fs/fat32.c:993-1308 | after any sequence of writes and truncations on any files, with any results, every byte of every file is the one the calls stored; clusters given back and taken over never show old bytes |
| `FatRun.ShownContents` | core/fs/fat32.c:1098-1156 | so the contents of every file are those of its abstract counterpart |
| `FatRun.RunContents` | core/fs/fat32.c:993-1308 | the two together: from a volume with nothing but zeros stored past the ends of its files, after any run of completed writes and truncations the contents of all files are those of byte arrays after the same calls |
| `FatRun.LeftoverRun` | core/fs/fat32.c:1158-1308 | a run of the driver that reaches the failing state: with one free cluster, a cluster of sevens and one more to an empty file come back short and leave it empty; a 9 at the last byte of the cluster then has sevens before it, not zeros |
| `Nvm.ExecSafe` | core/kernel/nvm/nvm.c:171-186 | no instruction takes the instruction pointer past the code or the stack pointer past the stack |
| `NvmProcess.Process.Execute` | core/kernel/nvm/nvm.c:171-186 | fetch and dispatch by the instruction table, result true exactly while the process stays active; what each instruction does to the cells is stated by the laws below |
| `NvmLaws.PushLaw` | core/kernel/nvm/instructions/stack.c:18-41 | PUSH leaves its operand, four bytes, most significant first, in two's complement, on top and goes on behind it; stops exactly without the bytes or without room |
| `NvmLaws.PopLaw` | core/kernel/nvm/instructions/stack.c:43-53 | POP takes the top cell off; stops exactly on an empty stack |
| `NvmLaws.DupPop` | core/kernel/nvm/instructions/stack.c:43-72 | DUP then POP leaves the cells as they were |
| `NvmLaws.SwapLaw` | core/kernel/nvm/instructions/stack.c:74-87 | SWAP exchanges the two top cells; stops exactly with fewer |
| `NvmLaws.SwapTwice` | core/kernel/nvm/instructions/stack.c:74-87 | twice leaves the cells as they were |
| `NvmLaws.BinaryLaw` | core/kernel/nvm/instructions/arithmetic.c:6-197 | each of the sixteen two-operand instructions leaves its value of the second and the top cell in place of both; stops exactly with fewer than two cells, and DIV and MOD on a zero divisor |
| `NvmLaws.NotLaw` | core/kernel/nvm/instructions/bitwise.c:57-70 | NOT leaves -1 - x of the top cell x |
| `NvmLaws.JmpLaw` | core/kernel/nvm/instructions/flowcontrol.c:6-24 | JMP goes to a target from 4 up inside the code, stops at any other, and is skipped when the code ends within its operand |
| `NvmLaws.JumpLaw` | core/kernel/nvm/instructions/flowcontrol.c:26-94 | JZ pops a cell and goes to its target exactly when the cell is 0, JNZ exactly when it is not 0, otherwise on to the next instruction; an invalid target stops the process only when the jump is taken |
| `NvmLaws.CallLaw` | core/kernel/nvm/instructions/flowcontrol.c:96-127 | CALL pushes the address behind it and goes to its target |
| `NvmLaws.RetLaw` | core/kernel/nvm/instructions/flowcontrol.c:129-149 | RET goes to the top cell and pops it; stops exactly if that is no code address |
| `NvmLaws.EnterLaw` | core/kernel/nvm/instructions/stack.c:89-111 | ENTER n pushes the frame base, makes its cell the new base and pushes n zeros |
| `NvmLaws.LeaveLaw` | core/kernel/nvm/instructions/stack.c:113-131 | LEAVE cuts the stack at the base and restores the base saved there |
| `NvmLaws.LoadCellLaw` | core/kernel/nvm/instructions/memory.c:34-54 | LOAD_REL and LOAD_ARG push the cell they name, counted from the base; outside the stack in use LOAD_REL stops and LOAD_ARG does nothing |
| `NvmLaws.StoreCellLaw` | core/kernel/nvm/instructions/memory.c:56-72 | STORE_REL and STORE_ARG pop a cell into the one they name, and do nothing without one |
| `NvmLaws.StoredIsLoaded` | core/kernel/nvm/instructions/memory.c:7-32 | over any run: LOAD k pushes what the last STORE k popped, whatever ran in between |
| `NvmLaws.StoredRelIsLoaded` | core/kernel/nvm/instructions/memory.c:34-72 | over any run: LOAD_REL pushes what the last STORE_REL to the same cell popped, unless another instruction wrote the cell, in this frame or in one called and left in between |
| `NvmLaws.WritesOnly` | core/kernel/nvm/nvm.c:171-186 | which cells each instruction may change, for all instructions; no other cell changes |
| `NvmLaws.HaltLaw` | core/kernel/nvm/instructions/stack.c:7-12 | HALT stops the process with exit code 0 and leaves its cells |
| `NvmLaws.NopLaw` | core/kernel/nvm/nvm.c:179-185 | NOP, BREAK and every opcode without a handler go on with the next byte and change nothing else |
| `NvmProcess.Process.RunCall` | core/kernel/nvm/instructions/flowcontrol.c:96-149 | the process object, executing from a CALL until that call is over, nested calls included: its caller's instruction, stack and frame pointer and all caller cells but the arguments are restored |
| `NvmProcess.Process.Enter` | core/kernel/nvm/instructions/stack.c:89-111 | old frame saved, new frame started, its cells cleared one by one |
| `NvmFrames.StepInv` | core/kernel/nvm/instructions/flowcontrol.c:96-184 | every instruction of a disciplined program keeps all frames in progress: return addresses, saved frames, callers' cells, nesting |
| `NvmFrames.BodyStep` | core/kernel/nvm/instructions/memory.c:34-72 | an instruction of a body changes nothing below its frame base |
| `NvmFrames.LoadArgReads` | core/kernel/nvm/instructions/flowcontrol.c:151-166 | over any run: LOAD_ARG k pushes the k-th cell from the top of the stack at the CALL, unless the function stored to that argument in between |
| `NvmFrames.LoadArgStored` | core/kernel/nvm/instructions/flowcontrol.c:151-184 | over any run: if it did, LOAD_ARG k pushes what the last STORE_ARG k of that function stored |
| `NvmFrames.ArgKept` | core/kernel/nvm/instructions/flowcontrol.c:151-184 | an argument keeps its value as long as its function does not store to it, whatever the functions called meanwhile do |
| `NvmFrames.CallerRestored` | core/kernel/nvm/instructions/stack.c:89-132 | over any run with calls nested to any depth: when the call is over, instruction, stack and frame pointer are those after the CALL and all caller cells but the arguments are unchanged |
| `NvmScheduler.Next` | core/kernel/nvm/nvm.c:195-205 | the search loop picks the first runnable slot in cyclic order, or stays |
| `NvmScheduler.PickChosen` | core/kernel/nvm/nvm.c:195-224 | the pick is the runnable slot that comes first after the current one, modulo 32, and with nobody runnable the current one |
| `NvmScheduler.FromReaches` | core/kernel/nvm/nvm.c:198-203 | whatever is picked is at least as near as any given runnable slot |
| `NvmScheduler.BoundedWaiting` | core/kernel/nvm/nvm.c:189-225 | a process that stays runnable is picked within 32 rounds, whatever the others do |
| `NvmScheduler.PickedWithin` | core/kernel/nvm/nvm.c:189-225 | it is picked after at most as many rounds as there are slots in front of it |
| `NvmScheduler.Scheduler.Tick` | core/kernel/nvm/nvm.c:189-205 | every tenth tick picks the nearest runnable slot, and stays with nobody runnable; the other ticks do nothing; the tick counter wraps |
| `NvmIpc.ForRemove` | core/kernel/nvm/syscalls.c:456-466 | taking out the first message of a recipient takes it off the front of their messages and leaves all others' as they are |
| `NvmIpc.Mailbox.Send` | core/kernel/nvm/syscalls.c:407-437 | refused exactly when the sender has fewer than two cells or 32 messages wait, and then nothing changes; otherwise a message from the sender to the low 16 bits of its second cell with the low 8 bits of its top cell is last in the queue, both cells are popped, and exactly that recipient is woken |
| `NvmIpc.Mailbox.Wake` | core/kernel/nvm/syscalls.c:429-435 | exactly the recipient is woken, if active and waiting |
| `NvmIpc.Mailbox.Close` | core/kernel/nvm/syscalls.c:463-466 | the in-place shift removes exactly one message |
| `NvmIpc.Mailbox.Receive` | core/kernel/nvm/syscalls.c:441-472 | the oldest message for the caller, exactly when there is one and two cells of stack are free: its sender and its content are pushed; without a message the caller waits; per recipient accepted messages are received ones followed by pending ones, and nobody waits with a message pending |
| `NvmIpc.SendThenReceive` | core/kernel/nvm/syscalls.c:407-472 | a run: after p sends with cells r and b, process r, waiting or not and with nothing pending, receives p and the low 8 bits of b |
| `NvmIpc.SendKeeps` | core/kernel/nvm/syscalls.c:426-427 | sending keeps every recipient's order without loss or duplicate |
| `NvmIpc.ReceiveKeeps` | core/kernel/nvm/syscalls.c:456-466 | receiving keeps every recipient's order without loss or duplicate |
| `NvmIpc.SendAwake` | core/kernel/nvm/syscalls.c:429-435 | after a send nobody waits with a message pending |
| `Nvme.PhaseTest` | core/drivers/nvme.c:327-329 | the phase bit at the head matches exactly when an unconsumed completion sits there, and it is the next one |
| `Nvme.PostKeeps` | core/drivers/nvme.c:135-140 | a controller that does not overrun the window keeps the ring's meaning, across wraps |
| `Nvme.PollKeeps` | core/drivers/nvme.c:139-145 | a poll consumes exactly the next completion or nothing |
| `Nvme.Exact` | core/drivers/nvme.c:320-352 | over every interleaving of posts and polls and any number of trips, consumed completions are a prefix of posted ones and the test stays exact |
| `Nvme.QueuePair.PollOnce` | core/drivers/nvme.c:328-337 | head and phase advance over the ring as the code does it, and the doorbell says so |
| `Nvme.QueuePair.SubmitAndWait` | core/drivers/nvme.c:320-352 | against a controller that answers any outstanding commands in any order or not at all: an answered call consumes the oldest unconsumed completion and returns its status, its own if every earlier call was answered; a call that gives up consumes nothing |
| `Nvme.OwnCompletion` | core/drivers/nvme.c:320-352 | own completions are guaranteed against every controller exactly when all earlier commands were answered |
| `Nvme.OwnWhen` | core/drivers/nvme.c:327-337 | in one call: the completion taken is its own exactly when none was waiting and the first one posted during the call is its own |
| `Nvme.OwnIfSettled` | core/drivers/nvme.c:368-374 | if every earlier command was answered, an answered call takes its own completion, whatever the controller does |
| `Nvme.OtherIfUnsettled` | core/drivers/nvme.c:347-351 | if some earlier command is unanswered, some controller makes the call take another command's completion |
| `Nvme.SettledIffAnswered` | core/drivers/nvme.c:320-352 | over any calls and controllers: all commands are answered exactly when no call timed out, and a queue never recovers from a timeout |
| `Nvme.LateAnswer` | core/drivers/nvme.c:347-351 | a failing input: command 0 times out, its completion comes during call 1, and call 1 takes it |
| `Nvme.LateAnswerRun` | core/drivers/nvme.c:320-352 | the same run on the queue pair with its ring: call 1 returns the failure of command 0 although its own command succeeded |
| `Nvme.LuckyAnswer` | core/drivers/nvme.c:347-351 | after the same timeout a controller that answers out of order gives call 1 its own completion |
| `Rtc.YearsFrom` | core/arch/rtc.c:181-192 | the year loop ends at the year of the calendar the day lies in, up to the last year 16 bits hold |
| `Gregorian.DateUnique` | core/arch/rtc.c:172-223 | the formula gives every date of the calendar its own number, so a number names one date |
| `Gregorian.MonthStart` | core/arch/rtc.c:194-196 | the formula against the calendar: months of 31 and 30 days in a period of five from March on, and a leap day before it |
| `Rtc.MonthCivil` | core/arch/rtc.c:117-119 | the table of month lengths is that of the formula, for every year |
| `Rtc.DaysToCivil` | core/arch/rtc.c:123-129 | so is the sum over years, for every year from 1970 on |
| `Rtc.DateIs` | core/arch/rtc.c:181-218 | the date is the timestamp's exactly before the year 65536 |
| `Rtc.Weekdays` | core/arch/rtc.c:219-220 | the weekday starts with Thursday and goes up by one each day, from 7 to 1 |
| `Rtc.ReadsDate` | core/arch/rtc.c:62-149 | whatever date from 1970 to 2099 the registers show, the timestamp read is that of the formula |
| `Rtc.ReadsTime` | core/arch/rtc.c:62-112 | in 24-hour mode the time of day read is the one the registers show |
| `Rtc.ReadsHour` | core/arch/rtc.c:91-103 | in 12-hour mode, with bit 7 for the afternoon, the hour read is right exactly in the morning, since the digits are decoded before the bit is tested |
| `Rtc.MonthsFrom` | core/arch/rtc.c:199-213 | the month loop ends at the month the day lies in |
| `Rtc.BcdBack` | core/arch/rtc.c:20-26 | binary-coded decimal and back, below 100 |
| `Rtc.ReadBack` | core/arch/rtc.c:62-112 | what the registers give back of what was written, in both hour modes |
| `Rtc.RoundTrip` | core/arch/rtc.c:62-223 | for every timestamp and both hour modes, reading what was set returns it exactly before 2100-01-01 and, in 12-hour mode, exactly outside the hour after noon |
| `Rtc.NoonAndCentury` | core/arch/rtc.c:62-223 | failing inputs, as calls: noon of the first day in 12-hour mode, and the first second of 2100 |
| `Rtc.Clock.ReadUnix` | core/arch/rtc.c:114-149 | from 1970 on the timestamp is the number of days of the Gregorian date in the registers, by the closed formula, times 86400, plus the time of day |
| `Rtc.Clock.SetUnix` | core/arch/rtc.c:172-223 | the registers show, in two decimal digits each, the time of day and a date of the Gregorian calendar, which is the timestamp's, by the closed formula, exactly while the year fits 16 bits; and the weekday, day 0 being a Thursday |
| `Rtc.Clock.SetAndRead` | core/arch/rtc.c:114-223 | set and read with no tick between, with the exact condition |

## Left out

- I/O errors and failed kernel allocations: reads and writes of blocks, sectors and clusters succeed, so every property is about a call that does not fail that way.
- Packing: bitmaps are sequences of bits, not words or bytes; FAT entries are not cut into sectors; ext2 inodes, group descriptors and the superblock are records, not bytes. Pointer blocks and directory blocks are modelled to the byte.
- Mounting, path resolution, open, close, stat and readdir of both file systems, inode creation, ext2 truncation, and the block count `i_blocks`.
- ext2 volumes are taken to have a block size of at least 1 KiB that divides 2^32, for directories at most 32 KiB, and set padding bits in the last group; one open handle per file.
- FAT32 directory entries are a table from files to (first cluster, size); their place inside directory clusters, names and long names are not modelled.
- The bitmaps of the buddy allocator are sequences beside the pool, not bytes in it. Locks, the block counts above the managed block and `buddy_get_total_memory` are not modelled.
- BuddyAlloc.Allocator.FreeBlock: a block inside the pool that is not outstanding is outside the contract, since the code does not check for it.
- BuddyAlloc.Allocator.Release: a block inside the pool that is not outstanding is outside the contract, since the code does not check for it.
- CpuPool.CpuPools.Release: a block given back with another order than its own is outside the contract, since the code does not check for it.
- Slab.Slabs.Release: an address inside a slab page that is no live object is outside the contract, since the code does not check for it; a free from another CPU than the owner is `SlabElsewhere`. A magic number in foreign memory is taken not to occur.
- Slab.Slabs.Alloc: the pool of the buddy allocator starts at a page, as the memory map's regions do; more than one CPU allocating at a time is not modelled.
- NVM arithmetic is a parameter, so results hold for any arithmetic; SYS_SPAWN, capabilities and what heap, absolute-memory and system-call instructions do are not modelled; code is shorter than 2^31 bytes.
- Nvm.ExecSafe: not for heap and absolute-memory instructions and system calls, whose effect is not modelled.
- NvmProcess.Process.Execute: not for those instructions either, nor for a process that is not active, which the scheduler does not run.
- NvmProcess.Process.RunCall: runs without those instructions; `NvmFrames.CallerRestored` allows them as long as they change nothing below the frame base.
- NvmFrames.CallerRestored: asks of the code that functions ENTER first and RET right after LEAVE, never reach below their own frame base and store only to their own arguments; runs that stop the process are not considered.
- NvmScheduler.Scheduler.Tick: the slice of up to 5000 instructions itself is not run; others' flags may change arbitrarily between rounds instead.
- NVMe: physical pages and the contents of commands; command numbers do not wrap at 2^16, and a submission queue overrun by 256 unanswered commands is not modelled.
- Rtc.Clock.ReadUnix: registers must hold a month and a day, as they do after setting; the update-in-progress wait, weekday names and interrupts are not modelled.
- Drivers for PCI, AHCI, IDE, keyboard, serial and framebuffer, the TTY and shell, the ELF loader, procfs, devfs, ISO 9660, the VFS layer, ChaCha20, `allocator.c` and string helpers: input and output plumbing, or easy members.
