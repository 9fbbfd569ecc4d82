# A verified model of a small ext2 file system on a floppy image

This project models the storage engine of a user-space ext2-style file
system served over FUSE from a 1440-block, 1024-byte-per-block floppy image.
The model covers:
- the block-group layout and on-disk records of `ext2.h`;
- the superblock and block managers of `BlockManager.cpp`, with their block
  bitmaps and descriptor cache;
- the inode manager of `InodeManager.cpp`: inode allocation, block addressing
  through direct, single-, double- and triple-indirect pointers, reading and
  writing file data, resizing, and directory entries;
- the path helpers of `util.cpp`;
- the file operations of `floppy.cpp` that FUSE dispatches to (`read`, `write`,
  `truncate`, `mkdir`, `create`, `unlink`, `rename`, `rmdir`).

Each stateful class of the source is a Dafny `class` whose methods are proved
against specification functions on the disk image. Properties about those
functions are proved as lemmas: round trips of record codecs, allocation
picking the first free entry, writes followed by reads, resizing keeping the
records consistent, directory entry lists after adding and deleting, and the
error replies of each file operation.

Modules, from the bottom up:
- `Device`: the device itself, 1440 blocks of 1024 bytes, held by a `Disk` object.
- `Bytes`: bytes and their bits, and little-endian 16- and 32-bit words.
- `Arith`: recursive multiplication, division and remainder, with the linear
  facts the other modules use.
- `Ext2`: the superblock, group descriptor, inode and directory entry records,
  with their codecs and round trips.
- `Blocks`: the file-system block view of the device, the `SuperBlockManager`
  and `BlockManager` classes, and the block bitmap.
- `Scan`: first-fit search over bitmaps.
- `Inodes`: where inode records live, the inode bitmap, and reading and writing inode records.
- `Addressing`: mapping a file's block index to a block through the pointer levels.
- `Streams`: reading and writing byte ranges of a file, chunk by chunk.
- `Directories`: the directory entry chain, lookup, adding and deleting entries.
- `Allocation`: giving a file its next block, and allocating indirect blocks on the way.
- `Freeing`: releasing a file's blocks from one indirect level.
- `Resizing`: `resize`, growing or shrinking a file.
- `InodeManagement`: the `InodeManager` class.
- `Paths`: `splitPath` and `splitPathParent`.
- `Floppy`: the file operations as functions of the image.
- `FileSystem`: the `MyFS` class, whose methods are proved to carry those functions out.

Where the source asserts something about its arguments that a caller can
check, the model asks for it with `requires`. Where the source asserts
something about the disk contents, such as a zero pointer, a full bitmap or
a missing entry, the model returns an explicit abort (`None`, or `false`
from a method), and nothing further is claimed on that path.

The source's `resize` has three defects, listed under "## Findings". Every
operation that resizes a file or a directory therefore takes a variant of
`Freeing.Variant`: `AsWritten` runs the source's code as written, and
`Corrected` repairs the three defects. A row marked "(either variant)" is
proved for both. `MyFS`'s constructor, like the source's, runs `AsWritten`;
`Mount` runs the variant it is given. Three lemmas about the slots a shrink
leaves (`Resizing.FreeLevelSlot`, `Resizing.FreeLevelsSlots` and
`Resizing.ShrinkSlots`) are proved for `Corrected` only, and their rows say
so. For `AsWritten`, `Freeing.WrittenAborts` and `Freeing.WrittenReleasesEarly`
state where the source departs from them.

A few functions carry no `ensures` of their own. Lemmas beside them state
what they compute:
- `Directories.FirstNamed`: `Directories.FirstNamedIn`;
- `Blocks.FirstFree`: `Blocks.FirstFreeFacts`;
- `Streams.ReadStream`: `Streams.ReadStreamLength` and `Streams.ReadStreamPlaced`;
- `Streams.WriteStream`: `Streams.WriteStreamShape` and `Streams.WriteStreamPlaced`;
- `Inodes.InodeBlock`: `Inodes.InodeLocation`.

## Model

| member | source | states |
|---|---|---|
| Device.Disk.Bread | device.cpp:39-46 | `bread` returns the stored block blockNo |
| Device.Disk.Bwrite | device.cpp:32-38 | `bwrite` stores b at blockNo and changes no other block |
| Bytes.Zeros | BlockManager.cpp:118-121 | the zero-initialised buffer `getIdleBlock` writes over the block it hands out: n bytes, all zero |
| Bytes.SetBit | BlockManager.cpp:56-68 | `x \|= 1 << k` sets and `x &= ~(1 << k)` clears bit k of a byte, keeping the other seven bits |
| Bytes.SetBitAdds | BlockManager.cpp:58-59 | setting a clear bit with `\|=` adds its weight to the byte |
| Bytes.BitsDetermine | BlockManager.cpp:56-85 | a bitmap byte is determined by its eight bits |
| Bytes.SetBitAt | BlockManager.cpp:56-69 | setting bit n of a bitmap block changes bit n only, and no byte but byte n / 8 |
| Bytes.SetBitAtRestore | BlockManager.cpp:46-71 | tagging a bit back to its old value undoes a tag |
| Bytes.DecodeEncodeWords | ext2.h:18-93 | little-endian 32-bit words written and read back, whatever follows them, are the same words |
| Bytes.EncodeDecodeWords | ext2.h:18-93 | every byte string of whole words is the encoding of the words it decodes to |
| Bytes.Splice | InodeManager.cpp:223 | `memcpy(s + off, t, \|t\|)`: the copied range holds t and every other byte is unchanged |
| Bytes.SetWordAt | InodeManager.cpp:446-458 | `*((uint32_t*)s + i) = w` overwrites word i and no other word |
| Ext2.Upper4Least | ext2.h:113 | `UPPER4(x)` is the least multiple of 4 at or above x |
| Ext2.Pack16Split | ext2.h:63-82 | two 16-bit fields packed into one little-endian word unpack to the same fields |
| Ext2.Pack16Join | ext2.h:63-82 | every 32-bit word is the packing of its two 16-bit halves |
| Ext2.EncodeSuper | ext2.h:18-46 | a superblock record occupies its fixed number of bytes |
| Ext2.SuperRoundTrip | ext2.h:18-46 | a superblock written at the front of a buffer reads back unchanged, whatever follows it |
| Ext2.EncodeDesc | ext2.h:48-57 | a group descriptor occupies 32 bytes |
| Ext2.DescRoundTrip | ext2.h:48-57 | a group descriptor written into a buffer reads back unchanged |
| Ext2.EncodeInode | ext2.h:63-82 | an inode record occupies 128 bytes |
| Ext2.InodeRoundTrip | ext2.h:63-82 | an inode record written into a buffer reads back unchanged |
| Ext2.InodeBytesRoundTrip | ext2.h:63-82 | every 128-byte string is the encoding of the inode it decodes to |
| Ext2.EncodeDentry | ext2.h:88-93 | a dentry header occupies 8 bytes |
| Ext2.DentryRoundTrip | ext2.h:88-93 | a dentry header written into a buffer reads back unchanged |
| Blocks.BlockBytes | ext2.h:18-46 | a filesystem block holds `1024 << s_log_block_size` bytes, never fewer than 1024 |
| Blocks.FsRead | BlockManager.cpp:129-140 | `readBlock` returns exactly one filesystem block of bytes |
| Blocks.FsWrite | BlockManager.cpp:141-151 | `writeBlock` leaves a device of 1440 blocks; `FsWriteDevice`, `FsReadWrite` and `FsWriteTwice` state what it stores |
| Blocks.JoinChop | BlockManager.cpp:129-151 | cutting a filesystem block into device blocks (`writeBlock`) and gluing them back (`readBlock`) gives the block back |
| Blocks.ChopJoin | BlockManager.cpp:129-151 | gluing device blocks together and cutting them apart again gives the same device blocks |
| Blocks.FsWriteDevice | BlockManager.cpp:141-151 | `writeBlock` leaves every device block outside the written filesystem block unchanged |
| Blocks.FsReadWrite | BlockManager.cpp:129-151 | a written block reads back as written, and every other block reads as before |
| Blocks.FsWriteTwice | BlockManager.cpp:141-151 | a second write of the same block replaces the first |
| Blocks.FsWriteSame | BlockManager.cpp:129-151 | writing back what was read leaves the device unchanged |
| Blocks.OnDeviceBelow | BlockManager.cpp:129-151 | a filesystem block lies on the 1440-block device exactly when its number is below the number of whole filesystem blocks |
| Blocks.ViewWrite | BlockManager.cpp:141-151 | on the filesystem image, `writeBlock(data, bid)` replaces entry bid and no other |
| Blocks.Entries | InodeManager.cpp:149-203 | an indirect block holds `block_size / 4` pointers, at least 256 |
| Blocks.InodesPerBlock | InodeManager.cpp:68-81 | an inode-table block holds `block_size / sizeof(inode)` records, at least 8 |
| Blocks.InodesFillBlock | InodeManager.cpp:68-81 | those records fill the block exactly: `inodes_per_block * 128` is the block size, so `inode_table` leaves no bytes over |
| Blocks.StoredDescs | BlockManager.cpp:33-44 | the descriptor table is one record per group, read from block `1 + s_first_data_block` |
| Blocks.GroupStart | BlockManager.cpp:94-125 | every group the scan visits starts inside the filesystem |
| Blocks.TaggableAboveFirst | BlockManager.cpp:46-86 | the two assertions of `tagBlock`/`state` together exclude every block before `s_first_data_block`, and locate the block by group and offset |
| Blocks.BelowFirst | BlockManager.cpp:46-86 | a block before the first data block wraps around in 32-bit subtraction to a group past the descriptor table |
| Blocks.WrappedGroup | BlockManager.cpp:46-86 | the 32-bit wrap-around of `b - s_first_data_block` yields a group index past every group on the device |
| Blocks.Tag | BlockManager.cpp:46-71 | `tagBlock` keeps the image well-formed |
| Blocks.TagThenState | BlockManager.cpp:46-86 | after `tagBlock(b, v)`, `state(b) == v`, every other block's state is as before, and no block but b's bitmap block changes |
| Blocks.FirstFreeFacts | BlockManager.cpp:94-125 | the scan finds the first (group, bit) in ascending order whose bit is clear, and finds nothing exactly when every bit it tests is set |
| Blocks.FirstFree | BlockManager.cpp:94-125 | the (group, bit) the nested scan of `getIdleBlock` stops at; `Blocks.FirstFreeFacts` states it |
| Blocks.AbsBlock | BlockManager.cpp:107-108 | `abs_bid = s_first_data_block + group * s_blocks_per_group + i` in 32 bits: that sum wherever it does not wrap |
| Blocks.ScanInRange | BlockManager.cpp:94-125 | every block the scan can return is below `s_blocks_count` |
| Blocks.AbsBlockLocates | BlockManager.cpp:46-125 | the block number the scan computes maps back, through `tagBlock`/`state`, to the group and bit it was found at |
| Blocks.IdleBlock | BlockManager.cpp:88-127 | the block `getIdleBlock` returns is inside the filesystem and the image stays well-formed |
| Blocks.IdleBlockSpec | BlockManager.cpp:88-127 | `getIdleBlock` returns the first free block of the scan; it was free, is now marked allocated and reads as zeros, no block but it and its bitmap block changes; with no free block it returns nothing and changes nothing |
| Blocks.IdleBlockMarks | BlockManager.cpp:88-127 | `getIdleBlock` changes the allocation state of no block but the one it returns |
| Blocks.SuperBlockManager.constructor | BlockManager.cpp:11-16 | the cached superblock is the record decoded from device block 1 |
| Blocks.SuperBlockManager.WriteSuperBlock | BlockManager.cpp:20-27 | replaces the cache, stores the encoded record at the front of device block 1 (which decodes back to it) and changes no other device block |
| Blocks.BlockManager.constructor | BlockManager.cpp:29-31 | starts with an empty descriptor table over the given device and superblock |
| Blocks.BlockManager.ReadBlock | BlockManager.cpp:129-140 | returns entry bid of the filesystem image |
| Blocks.BlockManager.WriteBlock | BlockManager.cpp:141-151 | the image afterwards is the old image with entry bid replaced |
| Blocks.BlockManager.Refresh | BlockManager.cpp:33-44 | the descriptor table becomes the stored one, and the image is unchanged |
| Blocks.BlockManager.TagBlock | BlockManager.cpp:46-71 | the image afterwards is `Tag` of the old one (the bit is set or cleared whatever its previous value) |
| Blocks.BlockManager.State | BlockManager.cpp:73-86 | returns the block's bit in its group's bitmap |
| Blocks.BlockManager.Claim | BlockManager.cpp:103-121 | marking the found bit and zero-filling the block yields exactly the result and image of `IdleBlock` |
| Blocks.BlockManager.GetIdleBlock | BlockManager.cpp:88-127 | the nested scan loop returns the block and leaves the image that `IdleBlock` specifies |
| Addressing.LocateIndex | InodeManager.cpp:139-206 | every logical block index below the triple-indirect limit is located in exactly one of the direct, single, double or triple ranges with indices that fit an indirect block, and maps back to itself; every index from the limit on is beyond reach (`assert(0)`) |
| Addressing.Locate | InodeManager.cpp:139-206 | the level tests of the data helpers: an index is direct exactly when it is below 12, and beyond the tree exactly when it is at or past the triple-indirect limit |
| Addressing.Index | InodeManager.cpp:139-206 | the logical index of an indirect location is at least 12 |
| Addressing.IndexLocate | InodeManager.cpp:139-206 | every location inside the pointer tree is where its own index is located |
| Addressing.PathFits | InodeManager.cpp:142-203 | a location's slot is one of the 15 pointers, below 12 exactly for a direct location and the last one, 14, exactly for a triple-indirect one; its path is as deep as its level with indices below `n_entries` |
| Addressing.EntryInBlock | InodeManager.cpp:155-198 | entry k of an indirect block lies inside the block |
| Addressing.Walk | InodeManager.cpp:150-200 | following pointers down the tree, with each pointer asserted non-zero and allocated, yields a block below `s_blocks_count` |
| Addressing.WalkFrame | InodeManager.cpp:150-200 | a walk depends only on the blocks it reads |
| Addressing.WalkAfterWrite | InodeManager.cpp:208-287 | writing a block that a walk does not read leaves the walk unchanged |
| Addressing.Resolve | InodeManager.cpp:133-287 | the block both data helpers find for a logical index is inside the filesystem |
| Addressing.ResolveBeyond | InodeManager.cpp:204-206 | resolution fails beyond the triple-indirect range, whatever the pointers |
| Addressing.ResolveFrame | InodeManager.cpp:133-207 | resolution depends only on the blocks it reads |
| Addressing.ResolveAfterWrite | InodeManager.cpp:208-287 | writing a block that resolution does not read leaves the resolution and what it reads unchanged |
| Addressing.ResolutionIs | InodeManager.cpp:133-287 | on a well-formed image the resolver the data helpers use is Resolve, and every block it yields is in the image |
| Addressing.InBlock | InodeManager.cpp:141 | `offset % block_size` is below the block size |
| Addressing.ReadIn | InodeManager.cpp:146-147 | the copy out of one block yields exactly the bytes asked for |
| Addressing.WriteIn | InodeManager.cpp:221-224 | the copy into one block stores the data at its position, keeps every other byte of the block and every other block |
| Addressing.ReadChunk | InodeManager.cpp:133-207 | `read_inode_data_helper` succeeds exactly when the index resolves, and then yields the bytes at the offset of the resolved block |
| Addressing.WriteChunk | InodeManager.cpp:208-287 | `write_inode_data_helper` succeeds exactly when the index resolves, and then changes only the given bytes of the resolved block |
| Addressing.ChunkRoundTrip | InodeManager.cpp:133-287 | a chunk written and read back at the same offset is the data written, unless the resolved block is one the resolution itself reads |
| Streams.NextBoundary | InodeManager.cpp:106 | `next_boundary`, `(cur + bs) / bs * bs`, is the first multiple of the block size above cur |
| Streams.ChunkLen | InodeManager.cpp:105-110 | each chunk of the loops is non-empty while bytes remain, never passes what remains, and lies in one block, as the helpers' opening assertion demands |
| Streams.ChunkLenBoundary | InodeManager.cpp:106-110 | the chunk length equals the source's `min(size - written, next_boundary - cur)` |
| Streams.ChunkAdvance | InodeManager.cpp:104-111 | a chunk that stops short of the end stops at a block boundary, so the next one starts the next logical block |
| Streams.DiskChunkWrite | InodeManager.cpp:208-287 | one chunk written through the file's resolution splices the bytes into the resolved block, and writes nothing where the chunk crosses a block or its block does not resolve |
| Streams.WriteFromStream | InodeManager.cpp:103-111 | counting `written` from w is writing the rest of the data at `offset + w` |
| Streams.ReadStreamTurn | InodeManager.cpp:121-128 | one turn of the read loop is a chunk followed by the read of the rest |
| Streams.WriteStreamTurn | InodeManager.cpp:104-111 | one turn of the write loop is a chunk followed by the write of the rest on the image it left |
| Streams.ReadStreamLength | InodeManager.cpp:116-131 | a successful `read_inode_data` returns exactly size bytes, the source's final `readed == size` |
| Streams.ReadStream | InodeManager.cpp:116-131 | the bytes the read loop gathers chunk by chunk; `Streams.ReadStreamLength` and `Streams.ReadStreamPlaced` state them |
| Streams.WriteStreamShape | InodeManager.cpp:99-114 | writing chunks leaves an image of the same number and size of blocks |
| Streams.WriteStream | InodeManager.cpp:99-114 | the image the write loop leaves chunk by chunk; `Streams.WriteStreamShape` and `Streams.WriteStreamPlaced` state it |
| Streams.ChunkBlocksConsecutive | InodeManager.cpp:104-111 | the loops visit every logical block from the one holding offset to the one holding the last byte, each once and in increasing order |
| Streams.ChunkBlocksRest | InodeManager.cpp:104-111 | after the first chunk, the loops visit the blocks of the remaining range |
| Streams.PinnedRest | InodeManager.cpp:104-111 | a placement that the writes do not move stays so for the rest of the range once its first block is written |
| Streams.WritePlacedFrame | InodeManager.cpp:99-114 | writing a range changes no block outside the blocks it is placed in |
| Streams.ReadHolds | InodeManager.cpp:116-131 | where the blocks hold the data, the read loop returns it |
| Streams.WritePlacedHolds | InodeManager.cpp:99-114 | with distinct blocks, the image after the write holds the data |
| Streams.PlacedRoundTrip | InodeManager.cpp:99-131 | with distinct blocks, reading back the range returns what was written |
| Streams.ReadStreamPlaced | InodeManager.cpp:116-131 | the read loop reads chunk k from the block its logical block resolves to |
| Streams.WriteStreamPlaced | InodeManager.cpp:99-114 | the write loop writes chunk k to the block its logical block resolves to |
| Streams.WriteStreamHead | InodeManager.cpp:104-111 | the first turn of the write loop writes its chunk to the first block and leaves the rest of the placement unmoved |
| Streams.PinnedRoundTrip | InodeManager.cpp:99-131 | for any resolution whose placement the writes do not move and which sends no two chunks to one block, the read after the write returns the bytes written |
| Streams.SeparatePinned | InodeManager.cpp:133-287 | a separate placement of a file (no data block is one of its indirect blocks or another chunk's block) lies in the image and is not moved by the writes |
| Streams.StreamRoundTrip | InodeManager.cpp:99-131 | over a separate range, `write_inode_data` succeeds and `read_inode_data` of the same range then returns exactly the bytes written |
| Scan.FirstClearBit | BlockManager.cpp:94-125 | the inner loop of both scans returns the first clear bit below the limit, or none when every one of those bits is set |
| Scan.FirstClearSkips | InodeManager.cpp:20-29 | set bits skipped by the inner loop leave the first clear position where it is |
| Scan.FirstClearLeast | BlockManager.cpp:94-125 | the nested scan finds the least clear position from where it starts, and none exactly when there is none |
| Scan.FirstClearFinds | InodeManager.cpp:17-31 | a clear position anywhere after the start means the scan finds one |
| Inodes.InodeLocation | InodeManager.cpp:68-81 | an inode's table block (`bg_inode_table + index / inodes_per_block`) is inside the filesystem and its record lies inside that block |
| Inodes.InodeBlock | InodeManager.cpp:74-75 | `bg_inode_table + index / inodes_per_block`; `Inodes.InodeLocation` states where it lies |
| Inodes.InodeSlot | InodeManager.cpp:76 | the record's index inside its table block is below the number of records the block holds |
| Inodes.InodeNumber | InodeManager.cpp:26 | `new_inode` numbers bit i of group g as `g * s_inodes_per_group + i + 1`, in 32 bits |
| Inodes.InodeLocInjective | InodeManager.cpp:68-98 | with disjoint inode tables, different inode numbers occupy different slots |
| Inodes.WriteInode | InodeManager.cpp:83-98 | `write_inode` changes no block but the inode's table block |
| Inodes.ReadWriteInode | InodeManager.cpp:68-98 | `write_inode` then `read_inode` returns the record written; every other inode reads as before |
| Inodes.WriteInodeSame | InodeManager.cpp:68-98 | writing back the record just read leaves the image unchanged |
| Inodes.InodeScanShape | InodeManager.cpp:12-32 | `getIdleInode` scans every group's inode bitmap, `s_inodes_per_group` bits each, all inside the bitmap block |
| Inodes.IdleInode | InodeManager.cpp:12-32 | `getIdleInode` keeps the image well-formed |
| Inodes.InodeNumberLocates | InodeManager.cpp:26 | the number `group * ipg + i + 1` is a valid inode number that maps back to group and index i |
| Inodes.IdleInodeSpec | InodeManager.cpp:12-32 | `getIdleInode` reports false, changing nothing, exactly when every inode is allocated; otherwise it reports the least free inode, which is now allocated, and every other inode keeps its state |
| Inodes.IidOrder | InodeManager.cpp:17-29 | a lower inode number comes earlier in the scan order |
| Inodes.IdleInodeBit | InodeManager.cpp:23-25 | setting the found bit allocates that inode and changes no other inode's state |
| Inodes.DelInode | InodeManager.cpp:54-66 | `del_inode` keeps the image well-formed |
| Inodes.DelInodeSpec | InodeManager.cpp:54-66 | `del_inode` fails (its assertion) exactly on a free inode; otherwise that inode, and no other, becomes free |
| Inodes.DelUndoesIdle | InodeManager.cpp:12-66 | freeing the inode `getIdleInode` just allocated restores the image |
| Inodes.NewInode | InodeManager.cpp:34-52 | `new_inode` returns a valid inode number when it succeeds |
| Inodes.IdleInodeValid | InodeManager.cpp:12-32 | the inode number `getIdleInode` reports is valid |
| Inodes.TableBlockNotBitmap | InodeManager.cpp:34-52 | an inode-table block is never an inode bitmap block, so writing a record keeps every inode's state |
| Inodes.NewInodeSpec | InodeManager.cpp:34-52 | the inode `new_inode` returns was free, is now allocated and holds the given record |
| Allocation.Descend | InodeManager.cpp:491-576 | the descent below an indirect block keeps the image well-formed |
| Allocation.AllocateData | InodeManager.cpp:485-577 | `allocate_data` keeps the image well-formed |
| Allocation.IdleFacts | BlockManager.cpp:88-127 | with the reserved blocks marked, the block `getIdleBlock` hands out is non-zero, no bitmap block and free beforehand; afterwards it is allocated and zero, every allocated block stays allocated and no other non-bitmap block changes |
| Allocation.WriteFacts | BlockManager.cpp:141-151 | writing a block that holds no bitmap changes no block's allocation state |
| Allocation.DescendSpec | InodeManager.cpp:491-576 | the descent leaves the path resolving to a block that was free before; the reserved blocks stay marked, no allocated block is freed, and no allocated block changes but bitmap blocks and the indirect blocks on the path |
| Allocation.DescendLeaf | InodeManager.cpp:491-576 | the same at the last level, where the entry is pointed at a fresh block and the indirect block written back |
| Allocation.DescendNew | InodeManager.cpp:504-576 | the same where the next entry is zero and a fresh indirect block is allocated for it |
| Allocation.DescendOld | InodeManager.cpp:504-576 | the same where the next entry points at an existing indirect block |
| Allocation.DescendGraft | InodeManager.cpp:504-576 | at a zero entry the descent continues below the freshly allocated block |
| Allocation.ChildFacts | InodeManager.cpp:504-576 | at a non-zero entry the descent continues in the child, and the chain below it is sound |
| Allocation.AllocateResolves | InodeManager.cpp:485-577 | a successful `allocate_data` leaves logical block bid resolving to a block that was free, changes only the slot it allocates in the inode, and keeps every other allocated block |
| Allocation.AllocateDirect | InodeManager.cpp:488-490 | the same for a direct slot |
| Allocation.AllocateNewSlot | InodeManager.cpp:491-576 | the same for a zero indirect slot, which gets a fresh top block |
| Allocation.AllocateOldSlot | InodeManager.cpp:491-576 | the same for a non-zero indirect slot, whose spine is followed |
| Allocation.AllocateFull | InodeManager.cpp:485-577 | with no free block left, `allocate_data` aborts (the assertion of `getIdleBlock`) exactly for the indices it serves |
| Allocation.DescendFull | InodeManager.cpp:491-576 | with no free block left the descent aborts |
| InodeManagement.ReadStreamOn | InodeManager.cpp:116-131 | a read whose first chunk reads d is d in front of the read of the rest |
| InodeManagement.ReadStreamOff | InodeManager.cpp:116-131 | a read whose first chunk aborts aborts |
| InodeManagement.ReadAdvance | InodeManager.cpp:120-128 | one turn of the read loop: what was read so far plus the chunk is in front of the read of the rest |
| InodeManagement.ChunkSize | InodeManager.cpp:105-110 | the chunk length the loops compute from `next_boundary` is the length up to the next block boundary, or to the end |
| InodeManagement.InodeManager.constructor | InodeManager.cpp:8-10 | keeps the two managers it is given |
| InodeManagement.InodeManager.ReadInode | InodeManager.cpp:68-81 | returns the record `Inodes.ReadInode` locates |
| InodeManagement.InodeManager.WriteInode | InodeManager.cpp:83-98 | the image afterwards is `Inodes.WriteInode` of the old one |
| InodeManagement.InodeManager.GetIdleInode | InodeManager.cpp:12-32 | the nested scan loop returns the inode number and leaves the image `IdleInode` specifies |
| InodeManagement.InodeManager.NewInode | InodeManager.cpp:34-52 | returns the number and leaves the image `Inodes.NewInode` specifies |
| InodeManagement.InodeManager.DelInode | InodeManager.cpp:54-66 | succeeds exactly where `Inodes.DelInode` does and then leaves its image; otherwise nothing is written |
| InodeManagement.InodeManager.CheckPointer | InodeManager.cpp:143-144 | the helpers' two assertions on a pointer hold exactly when it is non-zero and marked allocated |
| InodeManagement.InodeManager.WalkPointers | InodeManager.cpp:150-200 | the pointer-following loop yields exactly the block `Walk` specifies |
| InodeManagement.InodeManager.ResolveBlock | InodeManager.cpp:139-206 | the pointer cascade both helpers share yields exactly `Resolve` |
| InodeManagement.InodeManager.ReadHelper | InodeManager.cpp:133-207 | `read_inode_data_helper` returns exactly the chunk the disk reader yields |
| InodeManagement.InodeManager.WriteHelper | InodeManager.cpp:208-287 | `write_inode_data_helper` succeeds exactly when the disk writer does and leaves its image; otherwise nothing is written |
| InodeManagement.InodeManager.ReadFile | InodeManager.cpp:116-131 | the read loop returns exactly the chunk-by-chunk read `ReadStream` |
| InodeManagement.InodeManager.ReadTurn | InodeManager.cpp:122-128 | one turn reads a non-empty chunk within the range; an abort makes the whole read abort, and otherwise the bytes read so far followed by the rest of the range are the whole read |
| InodeManagement.InodeManager.ReadData | InodeManager.cpp:116-131 | `read_inode_data` returns `Directories.ReadData` of the image |
| InodeManagement.InodeManager.WriteFile | InodeManager.cpp:99-114 | the write loop succeeds exactly when the chunk-by-chunk write `WriteStream` does, and then leaves its image |
| InodeManagement.InodeManager.WriteTurn | InodeManager.cpp:105-110 | one turn writes a non-empty chunk within the data, and what is left to write from the new state is what was left from the old one |
| InodeManagement.InodeManager.WriteData | InodeManager.cpp:99-114 | `write_inode_data` succeeds exactly when `Directories.WriteData` does, and then leaves its image |
| InodeManagement.InodeManager.Release | InodeManager.cpp:453-456 | the release at the end of `free_indirect_blocks` does what `Freeing.Release` specifies |
| InodeManagement.InodeManager.ClearEntries | InodeManager.cpp:446-452 | the level-1 loop succeeds exactly when `Freeing.ClearEntries` does and then leaves its image |
| InodeManagement.InodeManager.LevelSize | InodeManager.cpp:460-463 | the repeated multiplication computes `n_entries^(level-1)` |
| InodeManagement.InodeManager.ChildRange | InodeManager.cpp:472-473 | `sub_start` and `sub_end` are the bounds of the next visit of the loop over children (either variant) |
| InodeManagement.InodeManager.FreeIndirect | InodeManager.cpp:441-483 | `free_indirect_blocks` succeeds exactly when `Freeing.FreeIndirect` does, returning its release answer and leaving its image (either variant) |
| InodeManagement.InodeManager.FreeChildren | InodeManager.cpp:465-477 | the loop over children succeeds exactly when `Freeing.FreeChildren` does, with its updated block and image (either variant) |
| InodeManagement.InodeManager.FreeChild | InodeManager.cpp:470-475 | one turn of the loop over children keeps the loop's outcome: the rest of the visits from the new state end where all of them would have from the old (either variant) |
| InodeManagement.InodeManager.FreeDirect | InodeManager.cpp:376-380 | the direct-slot loop of the shrink succeeds exactly when `Resizing.FreeDirect` does, with its inode and image |
| InodeManagement.InodeManager.FreeLevel | InodeManager.cpp:383-430 | one indirect level of the shrink does what `Resizing.FreeLevel` specifies (either variant) |
| InodeManagement.InodeManager.Shrink | InodeManager.cpp:374-430 | the shrink branch does what `Resizing.Shrink` specifies (either variant) |
| InodeManagement.InodeManager.Grow | InodeManager.cpp:431-435 | the grow loop does what `Resizing.Grow` specifies |
| InodeManagement.InodeManager.Resize | InodeManager.cpp:361-439 | `resize` succeeds exactly when `Resizing.Resize` does, and then leaves its image (either variant) |
| InodeManagement.InodeManager.Descend | InodeManager.cpp:491-576 | the descent succeeds exactly when `Allocation.Descend` does, and then leaves its image |
| InodeManagement.InodeManager.AllocateData | InodeManager.cpp:485-577 | `allocate_data` succeeds exactly when `Allocation.AllocateData` does, returning its inode and leaving its image |
| InodeManagement.InodeManager.CurDentry | InodeManager.cpp:583-590 | `cur_dentry` returns the header the directory reads at the offset |
| InodeManagement.InodeManager.CurDentryName | InodeManager.cpp:591-599 | `cur_dentry_name` returns the name the directory reads after the header |
| InodeManagement.InodeManager.FindNext | InodeManager.cpp:289-297 | `find_next` returns exactly the lookup `FindOnDisk` specifies |
| InodeManagement.InodeManager.FindIn | InodeManager.cpp:289-297 | the iterator loop of `find_next` computes `Directories.FindNext` over the directory it reads |
| InodeManagement.InodeManager.DirEmpty | InodeManager.cpp:346-359 | `dir_empty` returns `Directories.DirEmpty` |
| InodeManagement.InodeManager.EmptyIn | InodeManager.cpp:353-358 | the iterator loop of `dir_empty` computes `EmptyFrom` over the directory it reads |
| InodeManagement.InodeManager.DirDel | InodeManager.cpp:328-344 | `dir_del_dentry` succeeds exactly when `Directories.DirDel` does, and then leaves its image |
| InodeManagement.InodeManager.DelTarget | InodeManager.cpp:329-342 | the search of `dir_del_dentry` returns `Directories.DelTarget` |
| InodeManagement.InodeManager.DelIn | InodeManager.cpp:331-343 | the iterator loop of `dir_del_dentry` computes `DelFrom` over the directory it reads |
| InodeManagement.InodeManager.LastIn | InodeManager.cpp:309-312 | the first loop of `dir_add_dentry` computes `LastFrom`, the offset of the last entry |
| InodeManagement.InodeManager.Stretch | InodeManager.cpp:307-320 | the stretching step succeeds exactly when `Directories.Stretch` does, and then leaves its image (either variant) |
| InodeManagement.InodeManager.LastEntry | InodeManager.cpp:309-313 | returns the last entry and its header as `Directories.LastEntry` specifies |
| InodeManagement.InodeManager.StretchLast | InodeManager.cpp:314-318 | rewrites the last header and resizes as `Directories.StretchLast` specifies (either variant) |
| InodeManagement.InodeManager.Append | InodeManager.cpp:321-325 | the end of `dir_add_dentry` does what `Directories.Append` specifies (either variant) |
| InodeManagement.InodeManager.AppendAt | InodeManager.cpp:321-325 | resizes and writes the entry as `Directories.AppendAt` specifies (either variant) |
| InodeManagement.InodeManager.WriteEntry | InodeManager.cpp:323-325 | the two writes of the header and name do what `Directories.WriteEntry` specifies |
| InodeManagement.InodeManager.DirAdd | InodeManager.cpp:298-327 | `dir_add_dentry` succeeds exactly when `Directories.DirAdd` does, and then leaves its image (either variant) |
| Directories.Step | InodeManager.cpp:600-605 | `++it` moves forward and stays within `i_size`, or aborts on a zero rec_len or an overrun |
| Directories.ListingCons | InodeManager.cpp:579-612 | the chain of entries from an offset is its first entry followed by the chain from where `++` leads |
| Directories.EntryAt | InodeManager.cpp:583-605 | the entry the iterator reads at an offset lies at that offset and steps to the next one |
| Directories.ListingChained | InodeManager.cpp:579-612 | the entries of a chain lie in order inside `i_size`, each read from its own header and name |
| Directories.FindListing | InodeManager.cpp:289-297 | over a chain that lists, `find_next` yields the inode of the first entry with the name |
| Directories.FindFrom | InodeManager.cpp:289-297 | an inode the iteration of `find_next` returns is that of an entry at or after the start whose name is the one sought |
| Directories.FindOnDisk | InodeManager.cpp:289-297 | the same for a directory read from the image: the inode found belongs to an entry inside `i_size` with that name |
| Directories.FirstNamedIn | InodeManager.cpp:289-297 | the lookup finds the inode of an entry with the name, and finds nothing exactly when no entry has it |
| Directories.FirstNamed | InodeManager.cpp:289-297 | the inode of the first entry with the name; `Directories.FirstNamedIn` states it |
| Directories.EmptyListing | InodeManager.cpp:353-358 | over a chain that lists, the scan of `dir_empty` answers whether every name is "." or ".." |
| Directories.EmptyFrom | InodeManager.cpp:353-358 | the scan of `dir_empty` answers "not empty" only where some entry's name is neither "." nor ".." |
| Directories.LastListing | InodeManager.cpp:309-312 | over a chain that lists, the first loop of `dir_add_dentry` stops at the last entry |
| Directories.LastFrom | InodeManager.cpp:309-312 | the offset the first loop of `dir_add_dentry` stops at, when it moved, is the offset of an entry inside `i_size` |
| Directories.NamedIndex | InodeManager.cpp:332-342 | the index of the first entry with the name: no earlier entry has it |
| Directories.DelListing | InodeManager.cpp:328-344 | the loop of `dir_del_dentry` finds the first entry with the name and the one before it, and aborts exactly when there is none or it is the first entry |
| Directories.DelFrom | InodeManager.cpp:331-343 | the loop of `dir_del_dentry` returns a header read at the offset it gives, and an entry after the first with that name |
| Directories.ListingSplit | InodeManager.cpp:579-612 | a chain splits at any entry into the chain up to it and the chain from it |
| Directories.ListingExtend | InodeManager.cpp:579-612 | a chain read up to one size continues with the chain from that size on |
| Directories.ListingSame | InodeManager.cpp:579-612 | a directory that reads every entry of a chain the same way reads the same chain |
| Directories.ListingLinks | InodeManager.cpp:600-605 | each entry's rec_len is positive and reaches exactly to where the next entry, or the chain, ends |
| Directories.AddListing | InodeManager.cpp:321-325 | after appending at the old `i_size`, the directory lists the old entries followed by the new one |
| Directories.StretchListing | InodeManager.cpp:313-318 | after the stretch, the directory lists the same entries with only the last one's rec_len changed |
| Directories.DelLayout | InodeManager.cpp:335-338 | after `dir_del_dentry` the chain skips the deleted entry and lists every other entry unchanged, the one before it with the merged rec_len |
| Directories.DelJoin | InodeManager.cpp:337 | the merged rec_len of the two entries reaches to where the entry after them starts |
| Directories.Absorb | InodeManager.cpp:337 | `prev.rec_len += cur.rec_len` changes only the previous header's rec_len, to the sum where it fits 16 bits |
| Directories.FirstNamedConcat | InodeManager.cpp:289-297 | a lookup in two chains one after the other finds the first chain's entry if it has one |
| Directories.FindAfterAdd | InodeManager.cpp:298-327 | after `dir_add_dentry` of a name the directory did not hold, `find_next` of that name yields the inode added, and every other name finds what it found before |
| Directories.FindAfterStretch | InodeManager.cpp:307-320 | stretching the last entry changes no lookup |
| Directories.FindAfterDel | InodeManager.cpp:328-344 | after `dir_del_dentry`, a lookup of the name finds only a later entry with the same name, and a lookup of every other name finds what it found before |
| Directories.NewRecLenBounds | InodeManager.cpp:304-306 | a new entry's rec_len holds its 8-byte header and name, is a multiple of 4 and at most 264 |
| Directories.NewRecLen | InodeManager.cpp:305 | `UPPER4(8 + name length)`: a multiple of 4 holding the header and the name, less than 4 bytes over |
| Directories.StretchEnds | InodeManager.cpp:314-315 | the stretched last entry ends where its block ends, and the new `i_size` is that end |
| Directories.StretchRec | InodeManager.cpp:314 | the stretched rec_len is positive and reaches from the entry to the end of its block |
| Directories.StretchedSize | InodeManager.cpp:315 | `i_size + new_rec_len - rec_len` in 32 bits: that value wherever it does not wrap |
| Directories.AddFits | InodeManager.cpp:307-325 | the new header and its name each lie in one block, so the helpers can read them |
| Directories.Add32 | InodeManager.cpp:322 | `i_size + rec_len` in 32 bits: the sum, less 2^32 where it wraps |
| Directories.WrittenEntryReads | InodeManager.cpp:323-325 | an entry reads back from the header and name bytes `dir_add_dentry` writes |
| Directories.ReadData | InodeManager.cpp:116-131 | a successful `read_inode_data` returns exactly size bytes |
| Directories.WriteData | InodeManager.cpp:99-114 | `write_inode_data` keeps the image well-formed |
| Directories.Stretch | InodeManager.cpp:307-320 | the stretching step keeps the image well-formed (either variant) |
| Directories.StretchLast | InodeManager.cpp:314-318 | rewriting the last header and resizing keeps the image well-formed (either variant) |
| Directories.DirAdd | InodeManager.cpp:298-327 | `dir_add_dentry` keeps the image well-formed (either variant) |
| Directories.Append | InodeManager.cpp:321-325 | the end of `dir_add_dentry` keeps the image well-formed (either variant) |
| Directories.AppendAt | InodeManager.cpp:321-325 | resizing and writing the entry keeps the image well-formed (either variant) |
| Directories.WriteEntry | InodeManager.cpp:323-325 | the two writes keep the image well-formed |
| Directories.DirDel | InodeManager.cpp:328-344 | `dir_del_dentry` keeps the image well-formed |
| Directories.DirEmpty | InodeManager.cpp:346-359 | a directory with link count 2 is empty without reading it |
| Freeing.LevelEntries | InodeManager.cpp:460-463 | `level_entries`, `n_entries^(level-1)`, is positive |
| Freeing.WrittenVisits | InodeManager.cpp:465-476 | the loop as written visits consecutive children from i, none past `end / level_entries` |
| Freeing.CorrectedVisits | InodeManager.cpp:465-476 | the corrected loop visits consecutive children from i, each starting below end |
| Freeing.VisitsStep | InodeManager.cpp:465-476 | while the loop test holds, child i is visited with the source's `sub_start` and `sub_end`, then the rest (either variant) |
| Freeing.VisitsDone | InodeManager.cpp:469 | once the loop test fails no child is left (either variant) |
| Freeing.Release | InodeManager.cpp:453-456 | the release answers whether the block was released and keeps the image well-formed |
| Freeing.ClearEntries | InodeManager.cpp:446-452 | the level-1 loop keeps the image well-formed |
| Freeing.FreeIndirect | InodeManager.cpp:441-483 | `free_indirect_blocks` reports the release its test decides, and keeps the image well-formed (either variant) |
| Freeing.FreeChildren | InodeManager.cpp:469-477 | the loop over children keeps the image and the block's size (either variant) |
| Freeing.ClearEntriesSome | InodeManager.cpp:446-452 | the level-1 loop succeeds exactly when every entry in [start, end) lies in the block, is non-zero and can be tagged |
| Freeing.ClearEntriesState | InodeManager.cpp:446-452 | the level-1 loop leaves exactly the blocks named by the entries free and every other block in the state it had |
| Freeing.CorrectedCovers | InodeManager.cpp:465-476 | the corrected loop visits consecutive children, each over a non-empty part, and together they cover exactly [start, end) |
| Freeing.WrittenIndices | InodeManager.cpp:465-469 | the loop as written visits children `start / le` up to and including `end / le` |
| Freeing.WrittenExtraVisit | InodeManager.cpp:466-473 | when end is a multiple of `level_entries` the loop as written visits one child too many, starting at end with an empty range |
| Freeing.ChildrenAbort | InodeManager.cpp:470-471 | a visit to a zero entry, or one past the block, aborts the loop (either variant) |
| Freeing.WrittenAborts | InodeManager.cpp:465-476 | the loop as written aborts on such a shrink whenever the pointer after the last child is zero or past the block |
| Freeing.WrittenReleasesEarly | InodeManager.cpp:478-481 | the source releases an indirect block above level 1 whenever `start / level_entries == 0`, although its first child keeps the offsets before start; the corrected test keeps it |
| Resizing.Sectors | InodeManager.cpp:366 | `2 << log`, the 512-byte sectors per block, is at least 2 |
| Resizing.UsedBlocks | InodeManager.cpp:366 | `used_block = i_blocks / (2 << log)`: the whole blocks the sector count covers, `used * sectors <= i_blocks < (used + 1) * sectors` |
| Resizing.CeilBlocks | InodeManager.cpp:368 | the intended block count is zero exactly for an empty file |
| Resizing.CeilBlocksLeast | InodeManager.cpp:368 | the intended block count is the least number of blocks that hold size bytes |
| Resizing.AfterBlocks | InodeManager.cpp:368 | where `size + block_size - 1` does not wrap 32 bits, `after_block` is the intended count `CeilBlocks` |
| Resizing.AfterBlocksWraps | InodeManager.cpp:368 | where it wraps, `after_block` is 0 though the new size needs at least one block |
| Resizing.NeededBlocks | InodeManager.cpp:368 | the count the variant v of `resize` uses agrees with the intended count wherever the source's sum does not wrap (either variant) |
| Resizing.SectorsFit | InodeManager.cpp:437 | the sector count `resize` stores fits in the 32-bit `i_blocks`, whichever block count its variant computes |
| Resizing.Resized | InodeManager.cpp:436-437 | the inode `resize` writes has the new size, the block count of its variant (`after_block` for the source's) times `2 << log` sectors, and the same pointers (either variant) |
| Resizing.ClearSlot | InodeManager.cpp:379 | `inode.i_block_[s] = 0` zeroes slot s and no other |
| Resizing.FreeDirect | InodeManager.cpp:376-380 | the direct-slot loop keeps the image well-formed |
| Resizing.FreeLevel | InodeManager.cpp:383-430 | one indirect level of the shrink keeps the image well-formed (either variant) |
| Resizing.Shrink | InodeManager.cpp:374-430 | the shrink branch keeps the image well-formed (either variant) |
| Resizing.FreeLevels | InodeManager.cpp:383-430 | the three indirect levels keep the image well-formed (either variant) |
| Resizing.Grow | InodeManager.cpp:431-435 | the grow loop keeps the image well-formed |
| Resizing.Resize | InodeManager.cpp:361-439 | `resize` keeps the image well-formed (either variant) |
| Resizing.ResizeRecords | InodeManager.cpp:361-439 | after a successful `resize` the inode records the new size and the block count its variant computes for that size; when the count did not change only the size changed (either variant) |
| Resizing.ResizeIdempotent | InodeManager.cpp:361-439 | resizing a file a second time to the same size changes nothing (either variant) |
| Resizing.FreeDirectSome | InodeManager.cpp:376-380 | the direct-slot loop succeeds exactly when each slot it visits is non-zero and can be tagged |
| Resizing.FreeDirectSlots | InodeManager.cpp:376-380 | the loop zeroes the slots it visits and leaves the others |
| Resizing.FreeDirectState | InodeManager.cpp:376-380 | the loop marks the blocks the slots named free and leaves every other block's state |
| Resizing.FreeLevelSlot | InodeManager.cpp:383-430 | with the corrected release test one indirect level zeroes its slot exactly when the file used blocks past it and the new end is at or before it; no other slot changes |
| Resizing.FreeLevelsSlots | InodeManager.cpp:383-430 | with the corrected test the three levels leave each indirect slot zero exactly when its whole range lies past the new end, and the direct slots unchanged |
| Resizing.ShrinkSlots | InodeManager.cpp:374-430 | with the corrected release test, a successful shrink zeroes the direct slots from the new end to the old one and each indirect slot whose whole range lies past the new end; every other slot keeps its pointer |
| Resizing.DirectResolve | InodeManager.cpp:142-148 | a direct index resolves to its slot's pointer when that pointer is non-zero and allocated |
| Resizing.AllocateDirectSlot | InodeManager.cpp:488-490 | `allocate_data` of a direct index points the slot at a block now allocated, changes no other slot, keeps the reserved blocks reserved and frees nothing |
| Resizing.GrowDirect | InodeManager.cpp:431-435 | growing within the direct slots leaves every new index resolving to an allocated block, changes no other slot and frees nothing |
| Paths.Segments | util.cpp:4-15 | the runs between separators, one more than there are separators, none holding a separator |
| Paths.SegmentsLast | util.cpp:4-15 | the last run is empty exactly when the path is empty or ends with '/' |
| Paths.Tokens | util.cpp:4-15 | the tokens `getline` extracts: one per separator, plus one for a non-empty tail, none holding a separator |
| Paths.SplitPath | util.cpp:4-15 | the getline loop returns exactly `Tokens(path)` |
| Paths.JoinSegments | util.cpp:4-15 | joining the runs with '/' gives the path back |
| Paths.TokensRoundTrip | util.cpp:4-15 | joining the tokens with '/' gives the path back, less one trailing '/' |
| Paths.LeadingToken | floppy.cpp:29-30 | an absolute path gives an empty first token, the one `readdir` asserts and skips |
| Paths.TokensOfRoot | util.cpp:4-15 | `splitPath("")` has no token and `splitPath("/")` one empty token |
| Paths.LastSlash | util.cpp:19 | `find_last_of('/')` finds the last separator, and `npos` exactly when there is none |
| Paths.SplitParent | util.cpp:17-24 | `splitPathParent` returns ("", path) when there is no separator, and otherwise a parent and a name without a separator that rejoin to the path |
| Paths.SplitParentJoin | util.cpp:17-24 | a parent, '/' and a name without one split back into the two |
| Paths.SplitParentOfTest | util.cpp:17-24 | `splitPathParent("/test")` is ("", "test") |
| Paths.ParentAbsolute | util.cpp:17-24 | the parent of an absolute path is empty or absolute, so `readdir` accepts it |
| Floppy.Int32 | floppy.cpp:58-76 | the `int` a count is returned as lies in 32 signed bits, and is the count when that fits |
| Floppy.Next | floppy.cpp:36-39 | one step of `readdir` yields a valid inode number and its record |
| Floppy.Walk | floppy.cpp:31-43 | the lookup loop yields a valid inode number and its record |
| Floppy.ReadDir | floppy.cpp:23-44 | `readdir` yields a valid inode number and its record |
| Floppy.ReadDirRoot | floppy.cpp:23-44 | both "" and "/" resolve to inode 1 |
| Floppy.ReadAt | floppy.cpp:63-65 | 0 and no bytes at or past `i_size`; otherwise the count `min(size, i_size - offset)` and as many bytes |
| Floppy.ReadCount | floppy.cpp:64 | the count cut at `i_size` is `min(size, i_size - offset)` where `offset + size` does not wrap 64 bits |
| Floppy.ReadReply | floppy.cpp:58-66 | `read` answers -ENOENT exactly for a missing path, 0 and no bytes at or past the end, and otherwise the count read with as many bytes |
| Floppy.Write | floppy.cpp:68-76 | `write` keeps the image well-formed (either variant) |
| Floppy.WriteAt | floppy.cpp:74-75 | a successful write answers its size (either variant) |
| Floppy.Grow | floppy.cpp:74 | `write` resizes only when it ends past `i_size` (either variant) |
| Floppy.End | floppy.cpp:74 | `offset + size` in 64 bits: the sum where it fits, and below offset where it wraps |
| Floppy.LinkUp | floppy.cpp:95 | `i_links_count_++` in 16 bits |
| Floppy.LinkDown | floppy.cpp:130 | `i_links_count_--` in 16 bits |
| Floppy.WriteReply | floppy.cpp:68-76 | `write` answers -ENOENT exactly for a missing path and -EISDIR for a non-regular file, both changing nothing, and otherwise its size (either variant) |
| Floppy.Truncate | floppy.cpp:78-85 | `truncate` answers 0, -ENOENT or -EISDIR, and changes nothing when it answers an error (either variant) |
| Floppy.Done | floppy.cpp:83-84 | a step that does not abort answers 0 with the image it leaves |
| Floppy.ParentDir | floppy.cpp:92-94 | the parent check yields a directory's inode, or -ENOENT or -ENOTDIR |
| Floppy.Create | floppy.cpp:105-117 | `create` keeps the image well-formed (either variant) |
| Floppy.AddNew | floppy.cpp:114-115 | `new_inode` and its entry keep the image well-formed (either variant) |
| Floppy.CreateReply | floppy.cpp:87-117 | `create` and `mkdir` answer -EEXIST exactly where the path resolves, the parent's error where it has one, both changing nothing, and 0 exactly otherwise (either variant) |
| Floppy.CreateFull | floppy.cpp:87-117 | where every inode is in use, `create` and `mkdir` of a new name in an existing directory abort at `new_inode` (either variant) |
| Floppy.AddNewFull | floppy.cpp:114-115 | `new_inode` in `create` finds no free inode when every inode is in use (either variant) |
| Floppy.MakeDirFull | floppy.cpp:95-98 | the parent's new link leaves every inode in use, so `new_inode` in `mkdir` finds none (either variant) |
| Floppy.Mkdir | floppy.cpp:87-103 | `mkdir` keeps the image well-formed (either variant) |
| Floppy.MakeDir | floppy.cpp:95-101 | the parent's new link, `new_inode` and the three entries keep the image well-formed (either variant) |
| Floppy.AddDots | floppy.cpp:99-101 | the "." entry and the rest keep the image well-formed (either variant) |
| Floppy.AddUp | floppy.cpp:100-101 | the ".." entry and the parent's entry keep the image well-formed (either variant) |
| Floppy.Unlink | floppy.cpp:119-137 | `unlink` keeps the image well-formed (either variant) |
| Floppy.Unlinked | floppy.cpp:129-136 | removing the entry and dropping the link keep the image well-formed (either variant) |
| Floppy.DropLink | floppy.cpp:130-136 | dropping a link keeps the image well-formed (either variant) |
| Floppy.Release | floppy.cpp:132-133 | `resize(ciid, 0)` and `del_inode` keep the image well-formed (either variant) |
| Floppy.Rmdir | floppy.cpp:209-224 | `rmdir` keeps the image well-formed (either variant) |
| Floppy.Removed | floppy.cpp:220-222 | removing the entry, emptying and freeing the directory keep the image well-formed (either variant) |
| Floppy.UnlinkReply | floppy.cpp:119-137 | `unlink` answers each error exactly where its check fails first, changing nothing, and 0 exactly otherwise (either variant) |
| Floppy.UnlinkDrops | floppy.cpp:119-137 | a successful `unlink` removed a regular file; it leaves the file's inode free when its last link went, and otherwise its record with one link fewer (either variant) |
| Floppy.ReleaseFrees | floppy.cpp:132-133 | `resize(ciid, 0)` and `del_inode` leave the inode free (either variant) |
| Floppy.RmdirReply | floppy.cpp:209-224 | `rmdir` answers -ENOENT, -ENOTDIR, -ENOTEMPTY or the parent's error where its check fails first, changing nothing, and 0 exactly otherwise (either variant) |
| Floppy.RmdirFrees | floppy.cpp:209-224 | a successful `rmdir` removed a directory and leaves its inode free (either variant) |
| Floppy.Rename | floppy.cpp:139-207 | `rename` keeps the image well-formed (either variant) |
| Floppy.RenameWith | floppy.cpp:146-207 | `rename` once both paths are resolved keeps the image well-formed (either variant) |
| Floppy.Exchange | floppy.cpp:149-150 | the exchange keeps the image well-formed |
| Floppy.Move | floppy.cpp:153-206 | the moving part answers 0, -EISDIR or -EEXIST, changes nothing on an error, answers -EISDIR exactly for a directory onto a file and -EEXIST exactly for a file onto a file with RENAME_NOREPLACE (either variant) |
| Floppy.MoveInto | floppy.cpp:157-206 | the same once both parents resolved (either variant) |
| Floppy.Replace | floppy.cpp:183-185 | a file onto a file keeps the image well-formed (either variant) |
| Floppy.Relocate | floppy.cpp:189-205 | moving an entry keeps the image well-formed (either variant) |
| Floppy.Adopt | floppy.cpp:160-173 | adding the moved entry keeps the image well-formed (either variant) |
| Floppy.Relink | floppy.cpp:194-200 | the two link-count updates keep the image well-formed |
| Floppy.RenameReply | floppy.cpp:139-152 | `rename` answers -ENOENT, changing nothing, exactly where the source is missing or, with RENAME_EXCHANGE, the destination; an exchange answers 0 with the two records swapped; every error leaves the image unchanged (either variant) |
| Floppy.ExchangeSwaps | floppy.cpp:147-152 | after an exchange each of the two inode numbers holds the other's record |
| FileSystem.MyFS.constructor | floppy.cpp:9-14 | builds the three managers over the device with the superblock decoded from block 1 and an empty descriptor table, so the filesystem is not usable; its operations run the source's `resize` (`AsWritten`) |
| FileSystem.MyFS.Mount | floppy.cpp:9-14 | the corrected constructor: the same managers with the descriptor table loaded by `refresh`, over the image of the device, running the variant v of `resize` it is given |
| FileSystem.MyFS.Readdir | floppy.cpp:23-44 | `readdir` returns exactly `Floppy.ReadDir` of the image |
| FileSystem.MyFS.ParentOf | floppy.cpp:92-94 | the parent lookup and its check return `Floppy.ParentDir` |
| FileSystem.MyFS.Read | floppy.cpp:58-66 | `read` returns exactly `Floppy.Read`, whose replies `Floppy.ReadReply` states |
| FileSystem.MyFS.Write | floppy.cpp:68-76 | `write` answers and leaves the image as `Floppy.Write` does, with the file system's variant |
| FileSystem.MyFS.Truncate | floppy.cpp:78-85 | `truncate` answers and leaves the image as `Floppy.Truncate` does, with the file system's variant |
| FileSystem.MyFS.Create | floppy.cpp:105-117 | `create` answers and leaves the image as `Floppy.Create` does, with the file system's variant |
| FileSystem.MyFS.Mkdir | floppy.cpp:87-103 | `mkdir` answers and leaves the image as `Floppy.Mkdir` does, with the file system's variant |
| FileSystem.MyFS.Unlink | floppy.cpp:119-137 | `unlink` answers and leaves the image as `Floppy.Unlink` does, with the file system's variant |
| FileSystem.MyFS.Rmdir | floppy.cpp:209-224 | `rmdir` answers and leaves the image as `Floppy.Rmdir` does, with the file system's variant |
| FileSystem.MyFS.Rename | floppy.cpp:139-207 | `rename` answers and leaves the image as `Floppy.Rename` does, with the file system's variant |
| FileSystem.MyFS.RenameFound | floppy.cpp:146-207 | `rename` once both paths are resolved does what `Floppy.RenameWith` specifies, with the file system's variant |
| FileSystem.MyFS.MoveTo | floppy.cpp:153-206 | the moving part does what `Floppy.Move` specifies, with the file system's variant |
| FileSystem.MyFS.MovedInto | floppy.cpp:157-206 | the cases once both parents resolved do what `Floppy.MoveInto` specifies, with the file system's variant |
| FileSystem.MyFS.Replaced | floppy.cpp:183-185 | a file onto a file does what `Floppy.Replace` specifies, with the file system's variant |
| FileSystem.ReadFrom | floppy.cpp:63-65 | the read of a resolved file returns `Floppy.ReadAt` |
| FileSystem.WriteTo | floppy.cpp:74-75 | the resize and write of a resolved file succeed exactly when `Floppy.WriteAt` does, and leave its image (either variant) |
| FileSystem.AddNewIn | floppy.cpp:114-115 | does what `Floppy.AddNew` specifies (either variant) |
| FileSystem.MakeDirIn | floppy.cpp:95-101 | does what `Floppy.MakeDir` specifies (either variant) |
| FileSystem.AddDotsIn | floppy.cpp:99-101 | does what `Floppy.AddDots` specifies (either variant) |
| FileSystem.AddUpIn | floppy.cpp:100-101 | does what `Floppy.AddUp` specifies (either variant) |
| FileSystem.UnlinkedIn | floppy.cpp:129-136 | does what `Floppy.Unlinked` specifies (either variant) |
| FileSystem.DropLinkOf | floppy.cpp:130-136 | does what `Floppy.DropLink` specifies (either variant) |
| FileSystem.ReleaseInode | floppy.cpp:132-133 | does what `Floppy.Release` specifies (either variant) |
| FileSystem.RemovedIn | floppy.cpp:220-222 | does what `Floppy.Removed` specifies (either variant) |
| FileSystem.Exchanged | floppy.cpp:149-150 | the two `write_inode` calls leave the image `Floppy.Exchange` specifies |
| FileSystem.Relocated | floppy.cpp:189-205 | does what `Floppy.Relocate` specifies (either variant) |
| FileSystem.Adopted | floppy.cpp:160-173 | does what `Floppy.Adopt` specifies (either variant) |
| FileSystem.Relinked | floppy.cpp:194-200 | the two link-count updates leave the image `Floppy.Relink` specifies |

## Left out

- Device I/O: `MyDisk`'s file stream, `initialize` and the image file are not part of this model. The device is an in-memory `Disk` of 1440 blocks of 1024 bytes, read and written whole-block.
- The `bd->initialize` assert is not modelled. A `Disk` is always ready.
- `fuse.cpp` (the FUSE glue and its argument decoding), `img.cpp` (formatting and the test drivers), `ext2.cpp` and the `main` and `mytest` entry points are not part of this model. The formatted image is taken as given, through the `Formatted` and `Mounted` predicates.
- The filename constructor of `MyFS` and the `skipInit` switch are left out: they open hard-coded image paths.
- `isPowerOf` (util.cpp:25-28) is left out because it works in floating point (`log`, `pow`). Block sizes are modelled as `1024 << s_log_block_size` directly.
- Debug and trace output is left out.
- The free-block and free-inode counters of the superblock and the group descriptors are carried in the records but not maintained, because no operation of the source updates them.
- Directory iteration is modelled as an abort where an entry's `rec_len` is 0 or the chain runs past `i_size`. There the source loops for ever or reads past the end.
- An entry naming an inode number outside the inode tables is treated as an abort. The source would read outside the tables.
- An indirect-block entry index at or past the block's `block_size / 4` entries, which the loops of `free_indirect_blocks` reach (InodeManager.cpp:447 and 470), is modelled as an abort (`Freeing.ClearEntries`, `Freeing.FreeChildren`, `Freeing.ChildrenAbort`). The source reads the word past its buffer, which is undefined behaviour. The as-written loop `i <= end_index` reaches this whenever the freed range is a level's full span: with 1 KiB blocks, shrinking a file of 12 + 256 + 65536 blocks to 0 visits entry 256 of the 256-entry double-indirect block.
- The `==` and `!=` of the directory iterator are modelled by offset alone. The source first compares the two iterators' inode records with `memcmp`, but every comparison it makes is between iterators over the same record, where that test always agrees.
- A level-1 free never writes its block back. It releases the blocks in its range and zeroes their pointers only in its in-memory copy, so a kept level-1 block still names the released blocks. This is modelled as written.
- Every new directory entry gets file type `FT_REG_FILE`, directories included. This is modelled as written.
- `rmdir` leaves the parent's link count unchanged. This is modelled as written.
- `rename` ignores the reply of the `unlink` it calls. This is modelled as written.
- `off_t` offsets are modelled as unsigned 64-bit values. Negative offsets, which FUSE does not pass, are left out.
- Floppy.ReadDir and every file operation require an absolute path (empty, or starting with `/`). The source asserts this in `readdir`.
- Blocks.SuperBlockManager.WriteSuperBlock leaves the rest of device block 1, after the superblock's record, unspecified: the source writes an uninitialised device buffer there.
- Resizing.Grow: proved only to keep the image well-formed. The stronger claim, that every new index resolves to an allocated block, is proved only within the direct slots (`Resizing.GrowDirect`). Past them it is proved one `allocate_data` step at a time (`Allocation.AllocateResolves`). Chaining the steps would need the indirect spine to stay sound (`Allocation.SpineSound`) and entries written earlier to survive later allocations in a shared indirect block, and that proof is not part of this model.
- Floppy.CreateReply, Floppy.UnlinkDrops and Floppy.RmdirFrees: these state the replies, the inode freed or the link dropped, and the abort when no inode is free. They do not state that a lookup of the path afterwards finds (after `create` and `mkdir`) or misses (after `unlink` and `rmdir`) the entry. Nor do they state the parent's link count in the image `mkdir` leaves. Both need an invariant that the source neither checks nor keeps: every directory's data blocks are disjoint from the metadata blocks and from each other, so that writing one directory leaves every other lookup unchanged. The directory-level lookup facts are proved (`Directories.FindAfterAdd`, `Directories.FindAfterDel`).
- The scenario of `main` (floppy.cpp:229-243) is not modelled as a lemma: `create` "/test", `truncate` it to 1 MiB, `read` it block by block, and `truncate` it back to 0. Run on a concrete 1440-block image, it is beyond what the verifier evaluates. Stated for any mounted image, its second step needs the lookup of "/test" after `create`, which the previous line leaves out. Built with the source's constructor, its first `readdir` already reads an empty descriptor table (see "## Findings"). Each step is covered by the general lemmas of its operation.
- Functions whose own `ensures` states only that the image keeps its shape (`Shaped`) have their real property in a partner lemma or method named in the table; the table names those partners.

## Findings

| source | as written | input that shows it | evidently intended | confidence | as-written member | corrected member |
|---|---|---|---|---|---|---|
| InodeManager.cpp:469 | the loop over the children of an indirect block runs `i <= end_index`, so when the end of the freed range is a multiple of a child's span it visits one more child, with an empty range, and asserts its pointer is non-zero | with 1 KiB blocks, shrink to 0 a file of 12 + 256 + 256 blocks: at the double-indirect level end = 256 and a child spans 256, so child 1 is visited, its pointer is 0, and the assert fails | visit only the children that meet [start, end) | high, not executed | Freeing.WrittenAborts | Freeing.CorrectedCovers |
| InodeManager.cpp:478 | above level 1 an indirect block is released when `start_index == 0`, that is whenever start is below one child's span, although the first child keeps the offsets before start | with 1 KiB blocks, shrink a file of 12 + 256 + 300 blocks to 12 + 256 + 10: at the double-indirect level start = 10 and end = 300, and the double-indirect block is released and its pointer zeroed although child 0 still holds 10 blocks | release the block only when start is 0 | high, not executed | Freeing.WrittenReleasesEarly | Resizing.FreeLevelSlot |
| InodeManager.cpp:368 | `size + block_size - 1` is computed in 32 bits before the division that counts the blocks after the resize | with 1 KiB blocks, truncate a file to 0xFFFFFFFF bytes: the sum wraps, the count is 0, and every block of the file is freed | count the blocks as the ceiling of size / block size, without wrapping | medium, not executed | Resizing.AfterBlocksWraps | Resizing.CeilBlocksLeast |
| floppy.cpp:9-14 | the `MyFS` constructor builds the managers but never calls `bm_->refresh()`, so the group descriptor cache stays empty | any operation after `MyFS(bd)`: its `readdir` reads the root inode through an empty descriptor table | load the descriptor table when the file system is built | medium, not executed | FileSystem.MyFS.constructor | FileSystem.MyFS.Mount |
