# Proofs about the GAS file system

GAS is a small file system: a kernel module (`src/kern`) that keeps the blocks of a file
in a tree of pointers with six direct, one single, one double and one triple indirect
pointer, and a formatter (`src/makefs`). This project models the parts of both that decide
whether data survive, and proves what they promise.

## What is modelled

* **Paths.dfy** - logical block numbers and the paths that lead to them; the order of paths.
* **Tree.dfy** - what the stored pointers mean: a map from positions (an inode and the
  pointers taken from there) to blocks. `Rep` ties it to what is stored; grafting a branch
  and pruning a subtree are the only two ways in which it changes.
* **Cut.dfy**, **Chains.dfy** - cutting a tree at a path, and chains of pointers.
* **BitMap.dfy** - the kernel's allocation maps, a class over a two-dimensional bit array.
* **Itree.dfy** - the class `FileSystem`: `gas_get_block`, `gas_truncate_inode` and all they
  call, as methods that change pointers in place. `Valid` says that the pointers represent
  a well-formed tree and that the set bits are exactly the reserved ones and those of the
  blocks in the tree.
* **FileMap.dfy** - the same operations seen as changes of the map from logical to physical
  blocks, and what holds over whole runs of them.
* **Blocks.dfy** - the arithmetic of `gas_blocks`.
* **Protocol.dfy**, **Safety.dfy**, **Runs.dfy**, **Calls.dfy** - any number of threads in `gas_get_block`
  and `gas_truncate_inode`, step by step under the two locks; the invariant; what holds
  over every run under every interleaving; in which ways a call can end, that none is ever
  stuck, and that one left alone gets done. Lookups and creations of any block overlap
  truncations freely; only where truncation clears a pointer without the lock do creations
  of blocks that it reaches have to be over.
* **Words.dfy** - the formatter's bitmaps: searches and range operations on 64-bit words.
* **Cache.dfy** - its write-back cache.
* **Mkfs.dfy** - its layout, superblock, allocation maps, inode list and root directory
  with its entries.
* **Fresh.dfy** - the kernel mounts a formatted device, reads the layout that was meant, and
  finds it in a state from which its runs may start.
* **Dir.dfy** - directories as pages of slots, refining a finite map.
* **Namei.dfy** - link counts and the tree of directories over runs of calls.

The number of pointers in a block, `fan`, is any number from 1 up; so are the numbers of
blocks, inodes, maps and threads.

Where code and comments disagree, the code is followed. Six places deserve mention, each
with the exact condition under which the code does what one expects:

* `block_to_path` does not bound the top offset of a triple indirect path; all offsets fit
  exactly when the device has no more blocks than a file can (`Paths.OffsetsFitIffCapacity`).
* `gas_count_free_blocks` passes the number of blocks of the data zone plus one, so that the
  maps it counts may end before the device does (`BitMap.FreeCountIsRight`); on a formatted
  device of 32800 blocks it misses 32 (`Fresh.FormattedIsMiscounted`).
* `gas_add_link` looks for an existing name only up to the first free slot
  (`Dir.AddKeepsUnique`).
* `gas_iterate` takes steps of 260 bytes where a page has 4096. At the end of each page it
  reads a sixteenth entry, which can make an absent name appear (`Dir.LookupsAgreeIff`) or
  give a file on a later page the wrong inode (`Dir.LiveLookupsAgreeIff`); and it comes to
  the size too early, so that from 76 slots on `gas_inode_by_name` does not find files that
  exist (`Dir.FoundIffReached`, `Dir.LastOf76IsMissed`).
* `bitmap_alloc_region` uses 0 for failure (`Words.ZeroMeansFull`), so that `allocate_blk`
  passes over a region at the first place of a map; the root directory lies at the start of
  the data zone exactly when that does not happen (`Mkfs.RootIsFirst`).
* When `gas_add_link` fails, `gas_create` and `gas_link` leave a link count that is one too
  high (`Namei.FailedCreateLeaks`, `Namei.FailedLinkLeaks`).

## Model

| member | source | states |
|---|---|---|
| Paths.BlockToPath | src/kern/gas_itree.c:17-58 | there is a path exactly for block numbers on the device, and its length fits its first offset |
| Paths.PathReadsBack | src/kern/gas_itree.c:17-58 | the path determines the block number; the offsets are inside their blocks exactly for numbers within the capacity of a file |
| Paths.OffsetsFitIffCapacity | src/kern/gas_itree.c:49-56 | every path of a device stays inside its blocks if and only if the device is no larger than 6 + I + I^2 + I^3 |
| Paths.PathOfBlock | src/kern/gas_itree.c:17-58 | every path with offsets in range is the path of its block number: the other half of the inverse |
| Paths.OrderOfComplete | src/kern/gas_itree.c:17-58 | smaller numbers have lexicographically smaller offsets and conversely, for all offsets in range |
| Paths.OrderIsomorphism | src/kern/gas_itree.c:17-58 | a comes before b if and only if the path of a is to the left of the path of b, which is what lets truncation cut by path |
| BitMap.AllocMap.FindFirstZero | src/kern/bitmap.c:84-85 | the first clear bit of one map, or its width |
| BitMap.AllocMap.New | src/kern/bitmap.c:73-101 | fails only if every bit of every map is set and then changes nothing; otherwise sets one clear bit, the first in the first map with a clear bit, going up from the map used last and from map 0 after the last |
| BitMap.AllocMap.Free | src/kern/bitmap.c:44-71 | clears exactly the given bit, and none outside the range that may be freed; says whether it was set |
| BitMap.AllocMap.Weight16 | src/kern/bitmap.c:37-38 | the number of set bits of a 16-bit word |
| BitMap.AllocMap.CountFree | src/kern/bitmap.c:28-42 | the number of clear bits in the maps that the count of bits reaches into |
| BitMap.AllocMap.CountFreeBlocks | src/kern/bitmap.c:103-109 | the number of clear bits in the maps that the size of the data zone plus one reaches into |
| BitMap.FreeCountIsRight | src/kern/bitmap.c:103-109 | that is the number of free blocks, for every map of a device with nothing free outside the data zone, if and only if those maps reach to the end of the device |
| BitMap.WholeMaps | src/kern/bitmap.c:106 | for a data zone of k whole maps, k + 1 maps are counted |
| BitMap.CountIsExact | src/kern/bitmap.c:28-42 | a count over fewer bits is a lower bound, and equal if and only if no bit beyond is clear |
| Tree.WalkIsGet | src/kern/gas_itree.c:97-132 | the tree is what one finds by following the stored pointers from the inode |
| Tree.SpliceGrafts | src/kern/gas_itree.c:180-212 | storing the first block of a chained branch at a vacant pointer represents the tree with the branch, however the other pointers lie |
| Tree.ClearCuts | src/kern/gas_itree.c:249-253 | clearing a pointer represents the tree without everything behind it |
| Cut.CutAtBlock | src/kern/gas_itree.c:330-389 | cutting at a path unmaps the logical blocks from its block number on, in its inode, and no others |
| Cut.CutShaped | src/kern/gas_itree.c:330-389 | the tree that is left is well formed |
| Cut.CutTight | src/kern/gas_itree.c:240-253 | cutting leaves no block of pointers without a pointer |
| Cut.RemainingIsCut | src/kern/gas_itree.c:356-386 | what find_shared, the clearing of the ends and the killing of whole subtrees leave together is exactly the cut tree, in each of the ways find_shared can end |
| Cut.DirectIsCut | src/kern/gas_itree.c:349-354 | the same for a cut among the direct pointers |
| Chains.ClimbStep | src/kern/gas_itree.c:241-244 | one step of the climb is right: nothing to the left in the block means nothing kept below it |
| Chains.ChainMissing | src/kern/gas_itree.c:441-442 | the number of blocks to allocate is the number of positions that the tree lacks on the path |
| Chains.BranchSpliced | src/kern/gas_itree.c:141-212 | a branch as alloc_branch builds it, stored where the chain ended, extends the tree along the path of the logical block and nowhere else |
| Itree.FileSystem.VerifyChain | src/kern/gas_itree.c:75-80 | true exactly when every pointer of the chain still has the value that was read |
| Itree.FileSystem.GetBranch | src/kern/gas_itree.c:97-132 | the chain lies on the tree, up to the first zero or to the depth asked for |
| Itree.FileSystem.AllocBranch | src/kern/gas_itree.c:141-178 | all or nothing: that many fresh blocks linked through otherwise zero blocks of pointers, or the maps as before because fewer were free; blocks in use keep their contents either way |
| Itree.FileSystem.SpliceBranch | src/kern/gas_itree.c:180-212 | stores the branch exactly when the chain holds and the place is vacant; else gives every block of the branch back |
| Itree.FileSystem.GetBlock | src/kern/gas_itree.c:391-459 | lookup, creation, no-space and out-of-range results; the tree changes only by the path of the block, and Valid holds again; of all that was in use one pointer changes when a block is mapped, and nothing otherwise, and no data block |
| Itree.FileSystem.GetBlockIsStep | src/kern/gas_itree.c:391-459 | a call that finds or maps a block is a step of the runs of FileMap, with the block that is mapped afterwards as its result; any other changes nothing |
| Itree.FileSystem.AllZeroes | src/kern/gas_itree.c:214-220 | true exactly when the pointers before the end are zero |
| Itree.FileSystem.Climb | src/kern/gas_itree.c:240-244 | ends at the highest level that holds nothing to keep |
| Itree.FileSystem.FindShared | src/kern/gas_itree.c:222-263 | finds the level of the cut, detaches there or steps back in the last block, and returns the pointers whose blocks stay shared |
| Itree.FileSystem.FreeNode | src/kern/gas_itree.c:291-304 | frees a block and exactly the blocks below it, each with its bit still set, and touches no other |
| Itree.FileSystem.FreeBranches | src/kern/gas_itree.c:265-308 | clears a range of pointers, frees exactly the blocks behind them, each with its bit still set, and leaves other blocks and pointers alone |
| Itree.FileSystem.CutPath | src/kern/gas_itree.c:356-373 | find_shared and the clearing of the ends together leave what Cut.RemainingIsCut starts from |
| Itree.FileSystem.KillSlots | src/kern/gas_itree.c:374-386 | whole subtrees go, from one pointer of the inode to another |
| Itree.FileSystem.Truncate | src/kern/gas_itree.c:330-389 | of this inode exactly the blocks go that hold no byte before its size, and no other inode loses any; the bits of exactly the dropped blocks are cleared (Valid); blocks other than those of pointers keep their contents |
| Itree.BlocksMean | src/kern/gas_itree.c:342 | a block is before the cut if and only if it starts before the size in bytes |
| Itree.FileSystem.EvictInode | src/kern/gas_inode.c:109-121 | an inode without links loses all its blocks and its number; one with links keeps everything |
| FileMap.TruncateMap | src/kern/gas_itree.c:330-389 | as a map of logical blocks: those from the cut on become unmapped, all others of all inodes keep their physical block |
| FileMap.TruncateFrees | src/kern/gas_itree.c:284-308 | what truncation frees is the blocks whose positions go, as many as those, and none that stays (FreeNode and FreeBranches free each of them once) |
| FileMap.ExtendMap | src/kern/gas_itree.c:391-459 | as a map: creation maps the one block if it was unmapped, changes no other, and uses one block for each missing level |
| FileMap.ExtendTight | src/kern/gas_itree.c:141-178 | creation leaves no block of pointers empty |
| FileMap.RunKeeps | src/kern/gas_itree.c:330-459 | over every run of creations and truncations the tree stays well formed and no block of pointers is all zero |
| FileMap.TruncateToZero | src/kern/gas_itree.c:330-389 | truncation to nothing removes exactly the blocks of the inode |
| FileMap.GrowAndTruncate | src/kern/gas_itree.c:330-459 | any sequence of creations in an empty inode followed by truncation to zero gives back the same tree, and with Valid the same bitmap |
| Blocks.GasBlocks | src/kern/gas_itree.c:313-328 | the loop counts exactly the data blocks and blocks of pointers of a file without holes, for the least number of blocks that hold its size |
| Blocks.CountNodes | src/kern/gas_itree.c:319-326 | the sum of rounded quotients is the number of positions on the way to the first d blocks |
| Blocks.SparseBound | src/kern/gas_itree.c:313-328 | every file with its blocks below d has at most that many, and just that many if and only if it has no holes |
| Safety.Verified | src/kern/gas_itree.c:75-80 | a chain that still holds lies on the tree as it is now, even if its pointers went to zero and back in between |
| Safety.ReadMeans | src/kern/gas_itree.c:108-121 | what is read to the end under verify_chain is the block that is mapped |
| Safety.TakesKeeps | src/kern/gas_itree.c:146-156 | taking a block keeps the invariant: it was free, and no other thread can know of it |
| Safety.LinksKeeps | src/kern/gas_itree.c:157-164 | so does clearing the block before and linking it to the new one |
| Safety.SpliceLands | src/kern/gas_itree.c:184-192 | a splice that is let through extends the current tree along the path of its logical block, which was not there |
| Safety.ClimbMeans | src/kern/gas_itree.c:240-244 | on the shared state, nothing from before the cut is below where the climb ends |
| Safety.CutsSharedKeeps | src/kern/gas_itree.c:232-254 | the locked part of find_shared keeps the invariant and changes the tree only by a subtree that holds nothing to keep |
| Safety.ClearsEndKeeps | src/kern/gas_itree.c:366-373 | so does clearing a pointer after the path |
| Safety.ClearsSlotKeeps | src/kern/gas_itree.c:374-386 | and clearing a pointer of the inode |
| Safety.CutChainIsCurrent | src/kern/gas_itree.c:113-115 | in a truncation verify_chain never fails |
| Safety.BehindIsBelow | src/kern/gas_itree.c:284-308 | the blocks that free_branches comes to are those that the tree had there |
| Safety.ClearedMeansCut | src/kern/gas_itree.c:366-386 | once the loops have been through all pointers after the path, no position from the cut on is left, if what they passed stayed that way |
| Runs.StepKeeps | src/kern/gas_itree.c:222-459 | every step of every thread keeps the invariant: set bits are reserved, owned by the tree, or known to one thread, all apart; and its own truncation keeps what it has dealt with free of blocks from the cut on |
| Runs.RunIsSafe | src/kern/gas_itree.c:222-459 | so every state of every run satisfies it |
| Runs.StepOnBlock | src/kern/gas_itree.c:180-389 | a logical block changes only when its own call splices it in, or a truncation that reaches it takes it out |
| Runs.MappedStays | src/kern/gas_itree.c:180-212 | once mapped, a block stays where it is as long as no truncation that reaches it takes a step |
| Runs.PointerStays | src/kern/gas_itree.c:180-192 | as long as no truncation of the inode takes a step, no pointer of its tree that is set ever changes |
| Runs.RunStaysRight | src/kern/gas_itree.c:391-459 | over a run in which no truncation under way reaches a logical block, every call for it that has come to a physical block has come to the one that is mapped |
| Runs.Agreement | src/kern/gas_itree.c:391-459 | all calls for one logical block, wherever in such a run they end, find the same physical block |
| Runs.NothingLost | src/kern/gas_itree.c:172-177 | after any run in which all calls have returned a bit is set if and only if it is reserved or its block can be reached |
| Runs.FreedByItsHolder | src/kern/gas_itree.c:205-211 | a bit that a step clears was set, is known to the stepping thread alone, and its block cannot be reached |
| Runs.SpliceMaps | src/kern/gas_itree.c:180-212 | a splice maps the block of its call, which was unmapped, or changes no pointer |
| Runs.CutIsDone | src/kern/gas_itree.c:366-389 | over every run, in whatever way a truncation ends, no block that it reaches is mapped then, if none was mapped since it began |
| Runs.TruncationGoesOn | src/kern/gas_itree.c:330-389 | a truncation ends only when its loops have been through all their pointers and everything is freed |
| Runs.LateBlockStays | src/kern/gas_itree.c:366-389 | a block that is mapped behind the back of the loops is still mapped when the truncation ends |
| Runs.CutNeverRereads | src/kern/gas_itree.c:222-234 | in every run the chain of a truncation holds until it is used |
| Calls.CreationGoesOn | src/kern/gas_itree.c:401-459 | a creation stays with its block and goes on, until it has found it or has found no space |
| Calls.CreationEnds | src/kern/gas_itree.c:391-459 | over every run, a call that may create returns only after it has found its block or has met a lack of space |
| Calls.SoloNearer | src/kern/gas_itree.c:401-459 | every step of a creation that meets space brings it nearer to its end, by a measure of at most 33: nothing is read again unless a pointer has changed, and a lost splice leads back to reading |
| Calls.SoloFinds | src/kern/gas_itree.c:401-459 | a creation that is left alone has found its block after at most 34 steps, however much has interfered before |
| Calls.CallCanStep | src/kern/gas_itree.c:391-459 | in every reachable state each call can take a step, and has to give up only if no block is free |
| Calls.MappedIsFound | src/kern/gas_itree.c:408-424 | over every run in which no truncation under way reaches the block, a call that starts when it is mapped can only end by finding it |
| Calls.CutReachesFrom | src/kern/gas_itree.c:342-346 | a truncation to a number of blocks reaches just the logical blocks from that number on |
| Calls.CutCanStep | src/kern/gas_itree.c:222-389 | a truncation can always take a step, unless a pointer is to be cleared without the lock while a call may create a block behind it |
| Calls.StepOnRow | src/kern/gas_itree.c:141-389 | a step changes nothing in a block that holds no pointers and that other threads may know of |
| Calls.DataStays | src/kern/gas_itree.c:391-459 | over every run the contents of a mapped data block stay as they are, as long as no truncation that reaches it takes a step |
| Calls.ReservedStays | src/kern/gas_itree.c:141-389 | over every run these calls never write to metadata |
| Words.AndBits | src/makefs/bitmap.c:52 | a bit of the bitwise and is set exactly if it is set in both operands |
| Words.OrBits | src/makefs/bitmap.c:92 | a bit of the bitwise or is set exactly if it is set in one of the operands |
| Words.NotBits | src/makefs/bitmap.c:102 | complement flips all 64 bits |
| Words.FromBits | src/makefs/bitmap.h:8 | the mask of all ones shifted left has the bits from there on |
| Words.UpToBits | src/makefs/bitmap.c:72-92 | the mask of all ones shifted right has the bits before there |
| Words.LastMaskBits | src/makefs/bitmap.h:9 | the mask for the last word of a range |
| Words.HalvesOnce | src/makefs/bitmap.c:7-11 | one halving of __ffs keeps the lowest bit in the half that it goes on with |
| Words.Ffs | src/makefs/bitmap.c:3-37 | the place of the lowest set bit |
| Words.FindNextBit | src/makefs/bitmap.c:39-77 | the least set bit from the offset on, or the size |
| Words.FindNextZeroBit | src/makefs/bitmap.c:79-117 | the least clear bit from the offset on, or the size |
| Words.FindNextZeroArea | src/makefs/bitmap.c:163-182 | the least aligned free region within bounds, or a value beyond the size if and only if there is none; the search ends |
| Words.AlignMask | src/makefs/bitmap.h:14 | the mask expression rounds up to a multiple of the power of two, as long as nothing overflows |
| Words.BitmapSet | src/makefs/bitmap.c:119-139 | sets exactly the range, for any alignment |
| Words.BitmapClear | src/makefs/bitmap.c:141-161 | clears exactly the range, for any alignment |
| Words.SameBits | src/makefs/bitmap.c:119-161 | words with the same bits are equal |
| Words.ClearUndoesSet | src/makefs/bitmap.c:119-161 | clearing a range after setting it restores every word if the range was clear |
| Words.AllocRegion | src/makefs/bitmap.c:184-192 | takes the least free region, or nothing if there is none |
| Words.FreeRegion | src/makefs/bitmap.c:194-197 | clears exactly the region |
| Words.ZeroMeansFull | src/makefs/bitmap.c:184-192 | the result 0 means failure, and only then, if and only if the region at position 0 is not the one found |
| Cache.SyncKeeps | src/makefs/mkfs.c:166-181 | bc_sync keeps what readers get of a block if and only if no change of it is unmarked |
| Cache.Transparent | src/makefs/mkfs.c:150-226 | no operation but a caller's change alters what readers get of any block |
| Cache.LatestIsRead | src/makefs/mkfs.c:150-226 | over every run in which changes go to cached blocks and are marked before a sync, readers get the last change, and after a sync so does the device |
| Cache.BlockCache.Find | src/makefs/mkfs.c:183-193 | the first entry with the number |
| Cache.BlockCache.Read | src/makefs/mkfs.c:195-209 | the buffer of the block, fetched if need be; block numbers in the list stay unique |
| Cache.BlockCache.Insert | src/makefs/mkfs.c:160-164 | a new entry at the head |
| Cache.BlockCache.Write | src/makefs/mkfs.c:211-226 | marks the entry, or writes it through |
| Cache.BlockCache.Sync | src/makefs/mkfs.c:166-181 | writes the dirty entries and drops the list |
| Cache.BlockCache.WriteBlock | src/makefs/mkfs.c:144-148 | replaces one block of the device |
| Mkfs.LayoutFits | src/makefs/mkfs.c:395-400 | from 256 blocks on everything fits, every number has a bit, less than one map is spare, and there is one inode for four blocks up to whole blocks of inodes |
| Mkfs.LayoutNeeds256 | src/makefs/mkfs.c:397-399 | a device has inodes and an inode map if and only if it has 256 blocks or more |
| Mkfs.InitSuperBlock | src/makefs/mkfs.c:32-46 | the seven numbers of the superblock, and no other block written |
| Mkfs.InitInodeList | src/makefs/mkfs.c:124-136 | every block of the inode list is zero, and no other block is written |
| Mkfs.SetHalf | src/makefs/mkfs.c:301 | a store of 32 bits changes that number of the block and no other |
| Mkfs.InitMap | src/makefs/mkfs.c:58-80 | one map has exactly the preset bits and the bits beyond the end |
| Mkfs.InitMaps | src/makefs/mkfs.c:48-122 | all maps do, whatever their number, and no other block is written |
| Mkfs.AllocateBlk | src/makefs/mkfs.c:228-249 | the least free region in the first map with one, except that a region at the first place of a map is passed over; zero if there is no other |
| Mkfs.AllocateInode | src/makefs/mkfs.c:251-264 | the least free inode from 1 on |
| Mkfs.FreeInode | src/makefs/mkfs.c:266-275 | clears the bit of an inode of the first inode block, and no other |
| Mkfs.NewInode | src/makefs/mkfs.c:287-317 | an inode with its blocks, its first pointer and its other fields stored and marked, and all other pointers as before; or the inode map as before because something was full |
| Mkfs.AllocateFor | src/makefs/mkfs.c:295-301 | blocks are taken and their address is stored in the inode, zero if there were none |
| Mkfs.AddDentry | src/makefs/mkfs.c:326-351 | writes one entry of 260 bytes after those that are there and adds to the size; refuses when the block is full |
| Mkfs.MakeRoot | src/makefs/mkfs.c:353-365 | the root inode, its blocks and its two entries, with every change marked |
| Mkfs.InitDevice | src/makefs/mkfs.c:412-415 | the device before the root is made: the superblock; [0, data_st) and the bits from the number of blocks on; inode 0 and the bits from the number of inodes on; an inode list of zeros |
| Mkfs.RootIsFirst | src/makefs/mkfs.c:353-365 | the root gets inode 1 and the first data block if and only if five blocks fit there within one map and not at its first place |
| Mkfs.Format | src/makefs/mkfs.c:395-418 | and then the stored maps have exactly the metadata, the five blocks and two inodes, and the bits that stand for nothing; the superblock holds the layout; the one pointer in the inode list that is not zero is the first of the root; and inode 1 is a directory with 2 links, 520 bytes and the entries "." and ".." |
| Fresh.FormattedMounts | src/kern/gas_super.c:42-95 | the kernel accepts the superblock of the formatter and computes the same starts of the inode list and of the data zone |
| Fresh.KernelFindsPointer | src/kern/gas_inode.c:9-24 | the kernel looks for each pointer of each inode where the formatter keeps it |
| Fresh.FormattedList | src/makefs/mkfs.c:124-136 | read by the kernel, no inode of a formatted device has a block but the root |
| Fresh.RootRep | src/makefs/mkfs.c:301-317 | such pointers represent the tree with the one block of the root |
| Fresh.FormattedRoot | src/makefs/mkfs.c:353-365 | read by the kernel, the root is a directory with 2 links whose table is that of gas_make_empty, with inode 1 for itself and its parent |
| Fresh.FormattedIsAtRest | src/makefs/mkfs.c:301-365 | the formatted device, as the kernel reads it, is a state from which the runs of Runs may start; the other four blocks of the root directory are set but unreachable, for good |
| Fresh.FormattedIsMiscounted | src/kern/bitmap.c:106 | on a formatted device of 32800 blocks gas_count_free_blocks gives 32 free blocks too few |
| Fresh.FormattedIsCounted | src/kern/bitmap.c:106 | on one of 32900 blocks, whose data zone is one whole map, it looks at both maps |
| Dir.CountOfSize | src/kern/gas_dir.c:9-31 | the size says how many slots there are and is 4096 a + 260 m with 1 <= m <= 15, or 0 |
| Dir.PlaceMeans | src/kern/gas_dir.c:186-204 | where a place in a page lies in the table, and which place is its end |
| Dir.StoresSlot | src/kern/gas_dir.c:216-226 | writing a slot and growing the file by it stores it in the table |
| Dir.Directory.FindRoom | src/kern/gas_dir.c:180-214 | stops at the first free slot, or at the name if it comes before; -EINVAL is never reached |
| Dir.Directory.AddLink | src/kern/gas_dir.c:167-234 | the slot goes to the first free place or the end; exists, no space and success, and the whole table after each |
| Dir.Directory.MakeEmpty | src/kern/gas_dir.c:237-271 | the two entries of a new directory |
| Dir.Directory.FindEntry | src/kern/gas_dir.c:281-318 | the first live slot with the name, if there is one |
| Dir.Directory.DeleteEntry | src/kern/gas_dir.c:321-344 | frees that slot and changes no other |
| Dir.Directory.EmptyDir | src/kern/gas_dir.c:349-391 | true exactly when every live slot is "." for the directory itself, or ".." |
| Dir.Directory.InodeByName | src/kern/gas_dir.c:88-125 | the first match among the entries that the 260-byte steps come to |
| Dir.AddIsUpdate | src/kern/gas_dir.c:167-234 | adding an absent name is an update of the map |
| Dir.AddKeepsUnique | src/kern/gas_dir.c:203-209 | when a slot is stored, live names stay unique if and only if the name was absent |
| Dir.DeleteIsRemoval | src/kern/gas_dir.c:321-344 | deleting what is found is a removal from the map |
| Dir.EmptyMeans | src/kern/gas_dir.c:349-391 | the test for emptiness, on the map |
| Dir.WalkIsTable | src/kern/gas_dir.c:95-123 | on one page the steps come to just the slots |
| Dir.LookupsAgreeIff | src/kern/gas_dir.c:432-441 | whatever lies at the ends of pages, an absent name is not found if and only if the directory is at most 3900 bytes long |
| Dir.FoundIffReached | src/kern/gas_dir.c:95-123 | a name whose only slot is at place k of page n is found, if the ends of pages do not hold it, if and only if 260 (16 n + k) is less than the size; otherwise the result is that it does not exist |
| Dir.LiveLookupsAgreeIff | src/kern/gas_dir.c:95-123 | whatever lies at the ends of pages, such a name is found rightly if and only if n is 0 |
| Dir.LastOf76IsMissed | src/kern/gas_dir.c:95-123 | the file in the last slot of 76 is not found |
| Dir.TableIsMap | src/kern/gas_dir.c:167-344 | over every run from a new directory the table is the map, with unique names |
| Dir.ChangeMeans | src/kern/gas_dir.c:167-344 | after each change of such a run a lookup finds what was added, not what was removed, and other names as before |
| Namei.CreateKeeps | src/kern/gas_namei.c:110-123 | a creation keeps all counts |
| Namei.CreateMeans | src/kern/gas_namei.c:110-123 | a new file with count 1 and the one name; every other inode, and every other name, is as it was |
| Namei.LinkKeeps | src/kern/gas_namei.c:155-163 | so does a hard link |
| Namei.LinkMeans | src/kern/gas_namei.c:155-163 | one more name and one more in the count, and nothing else |
| Namei.UnlinkKeeps | src/kern/gas_namei.c:166-187 | so does unlink |
| Namei.UnlinkMeans | src/kern/gas_namei.c:166-187 | one name less and one less in the count, and nothing else |
| Namei.MkdirKeeps | src/kern/gas_namei.c:45-81 | so does mkdir, and the new directory hangs one level below its parent |
| Namei.MkdirMeans | src/kern/gas_namei.c:45-81 | an empty directory with count 2 and one name, one more in the count of its parent, and nothing else |
| Namei.RmdirKeeps | src/kern/gas_namei.c:189-206 | so does rmdir, whose directory nothing else can name |
| Namei.RmdirMeans | src/kern/gas_namei.c:189-206 | no name and count 0, one less in the count of the parent, and nothing else |
| Namei.EvictKeeps | src/kern/gas_inode.c:109-121 | so does the end of an inode without a name |
| Namei.ClimbsToRoot | src/kern/gas_namei.c:45-81 | directories form a tree: from each, the parents lead to inode 1 |
| Namei.RunKeeps | src/kern/gas_namei.c:45-206 | over every run the count of a file is the number of its names and that of a directory is 2 plus its subdirectories |
| Namei.AfterMeans | src/kern/gas_namei.c:45-206 | what each call of such a run does to every inode and every name |
| Namei.FailedCreateLeaks | src/kern/gas_namei.c:15-19 | a creation whose gas_add_link fails breaks the counts |
| Namei.FailedLinkLeaks | src/kern/gas_namei.c:155-163 | so does a link |
| Namei.Namespace.Create | src/kern/gas_namei.c:110-123 | the state after gas_create, in each outcome |
| Namei.Namespace.Link | src/kern/gas_namei.c:155-163 | the state after gas_link, in each outcome |
| Namei.Namespace.Unlink | src/kern/gas_namei.c:166-187 | the state after gas_unlink, in each outcome |
| Namei.Namespace.Mkdir | src/kern/gas_namei.c:45-81 | a mkdir that fails at any point leaves everything as it was, the count of the parent included |
| Namei.Namespace.Rmdir | src/kern/gas_namei.c:189-206 | exactly when a directory is not empty, its name is not there, or the entry cannot be deleted it is refused, each with its error, and nothing changes; otherwise the name and both counts go |

## Left out

- Itree.FileSystem.GetBlock: one caller at a time; the retry loop of `gas_get_block` and what other threads do between its steps are in Protocol.dfy.
- Itree.FileSystem.Truncate: `block_truncate_page` is not part of this model; it changes the contents of a data block only.
- Itree.FileSystem.FindShared: one caller at a time; the exit for a pointer that has been filled since it was read is in Protocol.dfy.
- FileMap.TruncateFrees: says how many blocks go and which; that no bit is cleared twice is in the contracts of FreeNode and FreeBranches.
- Safety.ClearsEndKeeps: the pointers that truncation clears without a lock are cleared one per step, together with the blocks behind them becoming the thread's own; the order of clearing and freeing is left open, so the code's order is one of many. A pointer that is set is cleared only when no call is about to create a block that the truncation reaches (the page locks of the kernel); `Protocol.Alone` states this and no proof is made of it.
- Runs.CutIsDone: the last step of a truncation is taken when its loops have been through all their pointers and its blocks are freed, which is where the code returns; that the loops come to an end is proved in Itree.dfy only.
- Runs.RunIsSafe: truncations of one inode exclude each other (i_mutex); `Protocol.Compatible` states this and no proof is made of it.
- Runs.Agreement: a lookup that a truncation overtakes may read on in blocks that are no longer its own for as long as that truncation runs; what it finds is then not constrained.
- Runs.StepKeeps: a no-space result of `gas_new_block` is allowed at any time, since the map used last is read outside the lock and concurrent callers can miss a free block.
- Words.FindNextZeroArea: positions are unbounded numbers; the callers' `int` and 64-bit values are far from overflowing for maps of 32768 bits. `align` stands for the mask plus one; that the mask expression means the same is Words.AlignMask.
- Cache.BlockCache.Read: callers hold buffers only as long as the list does; the freed memory behind them is not part of this model.
- Mkfs.Format: addresses have 32 bits; where the data zone would start at block 2^32 or later, the address of the root is cut off and nothing is promised of what is stored. What `gas_add_dentry` does with an entry that crosses the end of its block is undefined and not part of this model; here it gives up.
- Dir.Directory.AddLink: names are C strings of at most 255 characters, as `gas_lookup` sees to; whether a block for a new slot can be had is a parameter.
- Dir.Directory.InodeByName: what `gas_iterate` reads beyond the last slot of a page is a parameter.
- Namei.RunKeeps: calls in which `gas_add_link` fails for a file are not among the runs, as they break the counts; the checks of the kernel before it calls (names absent or present, no hard links to directories, no use of removed directories, at most 32000 links) are preconditions.
- Failed reads (`sb_bread`, `read_mapping_page`): after one, truncation makes no useful promise.
- gas_rename: not among the directory operations that the module installs, and its `gas_set_link` never stores the new inode number.
- gas_mknod, gas_symlink, gas_lookup: as gas_create, or calls into the kernel.
- Devices, mode bits, owners, timestamps, byte order, printing, command-line handling, the rest of mounting and the page cache.
