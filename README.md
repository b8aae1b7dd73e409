# A block-device file system, modelled in Dafny

The system keeps a small Unix-like file system inside one host file that
acts as a block device. Block 0 holds the master block: magic number,
block size, block count, inode count, where the block bitmap and the inode
table start, and the root directory's inode number. The bitmap follows it,
one bit per block and eight bits per byte. The inode table comes next, one
block per inode. Each inode has a type (free, file, directory, symlink), a
length, an indirection level and 26 block pointers. At level L those
pointers go through L levels of pointer blocks. A pointer block holds
blockSize / 4 little-endian 32-bit numbers. A directory is an ordinary
inode whose bytes are the text `"\n" + name + "|" + number` for each
child, in insertion order.

While the file system is mounted, the bitmap, the inode table and a
write-back block cache live in memory. Unmount writes the master block,
the bitmap, the inode table and every dirty cached block to a fresh
device. Mount reads them back.

The model is split into one module per concern:

- `Bytes`: bytes and the little-endian signed and unsigned codecs.
- `Text`: splitting and joining strings, decimal numbers and ASCII.
- `Outcomes`: the `Result` and `Option` wrappers. Every Python exception
  the core can raise (a failed assert, `IndexError`, `struct.error`,
  `ValueError`, a call on `None`) becomes an `Err` with a `Fault`.
- `BlockDevice`: device file names, and the device as a class over the
  blocks it holds.
- `MasterBlocks`: `cielDiv` and the master block record.
- `INodes`: inode types, the inode record, the pointer-block codec, the
  slot arithmetic of the indirection tree, and the chunk arithmetic of
  the read and write loops.
- `BlockMaps` and `InodeMaps`: the two maps, as classes with the rules
  they follow stated as functions.
- `Volumes`: the in-memory state as a value, with the cache, the resolver
  and the read/write loops as functions on it.
- `ReadBack`: what the read loop returns after the write loop.
- `Images`: unmount, mount and createFileSystem on whole device images.
- `FileSystems`: the `FileSystem` class, whose methods are proved equal to
  the `Volumes` and `Images` functions.
- `Files`: the directory codec, and the `File` and `Directory` classes.
- `Paths`: `namei`, `splitPathName`, `open` and `makeFSObj`.

Inodes are values in the inode table. `File` and `Directory` objects
refer to their inode by its number.

## Model

| member | source | states |
|---|---|---|
| MasterBlocks.CeilDiv | FileSystem.py:492-493 | the result is the least r with x <= r*y, for a positive divisor |
| MasterBlocks.CeilDivUnique | FileSystem.py:492-493 | any r with (r-1)*y < x <= r*y is the ceiling quotient |
| MasterBlocks.BitmapBlocksMinimal | FileSystem.py:280 | blockMapBlockCount blocks are enough for one bit per block, and one fewer is not |
| MasterBlocks.NewMasterBlock | FileSystem.py:258-283 | the constructor fails only for block size 0; otherwise it gives magic number 0x700154ED, flags "X", the default constants, the bitmap size from cielDiv, and the inode table right after the bitmap |
| MasterBlocks.Layout2048 | FileSystem.py:262-283 | for 2048 blocks of 2048 bytes the bitmap takes one block and the inode table starts at block 2 |
| MasterBlocks.PackMaster | FileSystem.py:284-293 | packing succeeds exactly when every field fits its struct width, and the record has a fixed size |
| MasterBlocks.UnpackMaster | FileSystem.py:295-308 | unpacking succeeds exactly when the block holds a whole record whose flag byte is ASCII, and it keeps blockMapBlockCount |
| MasterBlocks.UnpackPack | FileSystem.py:284-308 | unpacking a packed master block, with any padding after it, gives back every packed field |
| MasterBlocks.NewMasterPackable | FileSystem.py:262-293 | a master block built for an i32 block count and an i16 block size can always be packed |
| BlockDevice.NormalizedParts | BlockDevice.py:24-39 | the dot-separated parts of a normalized name: at least two, none containing a dot |
| BlockDevice.SplitNormalized | BlockDevice.py:24-39 | splitting a normalized name at dots gives back exactly those parts |
| BlockDevice.NormalizeRecoversBlocksize | BlockDevice.py:24-51 | a name normalized for a non-default block size yields that block size back |
| BlockDevice.NormalizeDefault | BlockDevice.py:24-39 | for the default block size, normalize adds no size part |
| BlockDevice.NormalizeIdempotent | BlockDevice.py:24-39 | normalizing twice is the same as normalizing once |
| BlockDevice.NormalizeExample2048 | BlockDevice.py:24-39 | "testII" at block size 2048 becomes "testII.2048.dev" |
| BlockDevice.BlocksizeExample2048 | BlockDevice.py:42-51 | "testII.2048.dev" names block size 2048 |
| BlockDevice.NormalizeExampleDefault | BlockDevice.py:24-39 | "test" at the default block size becomes "test.dev" |
| BlockDevice.FilenameToBlocksize | BlockDevice.py:42-51 | the block size read from a name is never negative |
| BlockDevice.ReadDisk | BlockDevice.py:92-103 | a read succeeds exactly when the block exists and the buffer is one block long, and it returns that block |
| BlockDevice.WriteDisk | BlockDevice.py:105-124 | a write succeeds exactly when the asserts hold, and it replaces only block k by the buffer, zero-padded when asked |
| BlockDevice.Padded | BlockDevice.py:113-116 | padding keeps the buffer as a prefix, fills the rest of the block with zeros, and leaves a full or unpadded buffer as it is |
| BlockDevice.ReadAfterWrite | BlockDevice.py:92-124 | after a write, block k reads back as the padded bytes and every other block is unchanged |
| BlockDevice.ApplyWritesLast | BlockDevice.py:105-124 | after several writes a block holds the last write to it |
| BlockDevice.ApplyWritesUntouched | BlockDevice.py:105-124 | a block no write names keeps its bytes |
| BlockDevice.BlockDevice.Create | BlockDevice.py:53-85 | a created device has blockCount blocks of zeros (the source's last byte, 0x30, is under Left out) |
| BlockDevice.BlockDevice.Open | BlockDevice.py:53-85 | opening a device holds the file's blocks |
| BlockDevice.BlockDevice.ReadBlock | BlockDevice.py:92-103 | the buffer is filled with block k exactly when the read is allowed, and is untouched otherwise |
| BlockDevice.BlockDevice.WriteBlock | BlockDevice.py:105-124 | the device changes exactly as WriteDisk says, and not at all on failure |
| BlockDevice.BlockDevice.WriteAll | BlockDevice.py:105-124 | a sequence of writes leaves the device as ApplyWrites says |
| BlockDevice.BlockDevice.DeviceSize | BlockDevice.py:126-127 | the device holds blocks_to_bytes(number of blocks) bytes |
| Bytes.DecodeEncodeSigned | FileSystem.py:284-308 | a signed little-endian field decodes to the value packed into it |
| Bytes.EncodeDecodeSigned | FileSystem.py:284-308 | any field of bytes re-encodes to itself |
| INodes.TagRoundTrip | INode.py:5-9 | each inode type's stored byte ('O', 'f', 'd', 's') decodes to that type |
| INodes.NewINode | INode.py:13-39 | a new inode is free, at level 0, of length 2048, with 26 zero pointers |
| INodes.DecodeEncodePtrs | INode.py:126-138 | a block of pointers unpacks to the pointers packed into it |
| INodes.EncodeDecodePtrs | INode.py:126-138 | a block re-packs to its own bytes |
| INodes.PtrBlockSize | INode.py:126-138 | a packed pointer block fits one block, and fills it when the block size is a multiple of 4 |
| INodes.PackINode | INode.py:231-247 | a packed inode is one fixed-size record |
| INodes.PackINodeLayout | INode.py:231-247 | the record is the header followed by the 26 pointers, each at its own 4-byte slot |
| INodes.UnpackINode | INode.py:249-272 | an unpacked inode has 26 pointers and fits the record's field widths |
| INodes.UnpackPack | INode.py:231-272 | unpacking a packed inode, with any padding after it, gives back the same inode |
| INodes.SlotPathDigits | INode.py:160-227 | the slots the resolver picks at each level are the base-ppb digits of the block number |
| INodes.Capacity | INode.py:160-227 | the top-level slot is within the 26 pointers exactly when the block number is below 26 * ppb^level |
| INodes.ChunkFacts | INode.py:51-118 | each step of the read and write loops stays inside one block and inside the buffer |
| INodes.Advance | INode.py:51-118 | each step moves the offset forward, to the end of the buffer or to a block boundary, by exactly the chunk size |
| INodes.AsWrittenIndexAgrees | INode.py:77 | the source's buffer index agrees with the corrected one whenever the buffer starts at a block boundary |
| INodes.AsWrittenIndexOverruns | INode.py:77 | for a 4-byte block and a 4-byte buffer at offset 2, the source indexes 4 where 2 is meant |
| BlockMaps.FirstFree | FileSystem.py:336-350 | the first clear bit, or -1 when every bit is set |
| BlockMaps.SetBlockRule | FileSystem.py:318-334 | setting a block succeeds exactly when the index is in range and it is not setting a set block to True; on success that bit takes the new state and no other bit changes, so freeing a free block succeeds and changes nothing; on failure nothing changes |
| BlockMaps.SetBlockAgrees | FileSystem.py:318-334 | for every in-range index the code as written follows the rule |
| BlockMaps.SetBlockAsWrittenOffByOne | FileSystem.py:323 | index blockCount passes the bound check and raises, and index -1 passes and changes the last block |
| BlockMaps.Allocate | FileSystem.py:336-350 | allocation sets the first clear bit and returns its number, or returns -1 and changes nothing |
| BlockMaps.AllocatePrefix | FileSystem.py:336-350 | allocating n blocks after a used prefix of k sets exactly blocks k to k+n-1 |
| BlockMaps.ReserveFirst | FileSystem.py:39-41 | allocating n blocks on a fresh map sets exactly the first n |
| BlockMaps.ToFromBits | FileSystem.py:375-386 | a byte's bits convert to the number and back |
| BlockMaps.UnpackPackBits | FileSystem.py:375-407 | each bit, packed eight to a byte and unpacked again, comes back |
| BlockMaps.PackBits | FileSystem.py:375-386 | the packed bitmap has cielDiv(blockCount, 8) bytes |
| BlockMaps.BitmapPlanBlocks | FileSystem.py:375-386 | the bitmap is written to consecutive blocks from block 1 and never beyond blockMapBlockCount |
| BlockMaps.BitmapPlanDropsByte | FileSystem.py:383-385 | with 16 blocks and 2-byte blocks the source writes one byte where two are packed |
| BlockMaps.BitmapBoundAsWritten | FileSystem.py:383-400 | with 7 blocks the source's loops over blockCount // 8 bytes write no bitmap block and read none, so every flag reads clear, while the corrected pack writes the one packed byte to block 1 |
| BlockMaps.UnpackAsWrittenOverrunsLarge | FileSystem.py:400-406 | with 16384 blocks of 1024 bytes the source's unpack raises IndexError in the second bitmap block |
| BlockMaps.AsWrittenSingleRead | FileSystem.py:388-407 | when the bitmap's bytes fit one block, the source's unpack succeeds on any readable block 1 |
| BlockMaps.AsWrittenBitmapAgrees | FileSystem.py:388-407 | when the bitmap has at least 8 blocks and fits one block, the source's unpack returns what the corrected one returns |
| BlockMaps.BitmapPlansAgree | FileSystem.py:375-386 | when the bitmap has at least 8 blocks and fits one block less a byte, the source's pack makes the corrected pack's single write |
| BlockMaps.ReadBitmapRestores | FileSystem.py:375-407 | the corrected unpack reads back exactly the bitmap the corrected pack wrote |
| BlockMaps.AsWrittenRoundTrip | FileSystem.py:375-407 | when the packed bitmap fits one block with room to spare, the code as written round-trips too |
| BlockMaps.UnpackAsWrittenOverruns | FileSystem.py:403-406 | with 16 blocks and 1-byte blocks the source's unpack raises on the second block |
| BlockMaps.BlockMap.constructor | FileSystem.py:313-316 | a new map has every block free |
| BlockMaps.BlockMap.SetBlock | FileSystem.py:318-334 | the map and result follow SetBlockRule |
| BlockMaps.BlockMap.AllocateBlock | FileSystem.py:336-350 | the map and result follow Allocate |
| BlockMaps.BlockMap.FreeBlock | FileSystem.py:352-356 | freeing is SetBlockRule with the bit cleared |
| BlockMaps.BlockMap.Pack | FileSystem.py:375-386 | the device changes by exactly the bitmap's block writes |
| BlockMaps.BlockMap.Unpack | FileSystem.py:388-407 | the map becomes what ReadBitmap reads, and it fails exactly when that read fails |
| BlockMaps.BlockMap.UnpackBlock | FileSystem.py:401-406 | one pass of the outer loop fails, finishes or goes on to the next block exactly as UnpackLoop says |
| BlockMaps.BlockMap.FillBlock | FileSystem.py:403-406 | the inner loop sets the bits as Fill says, stops at blockCount, and fails when Fill fails |
| InodeMaps.WithFlags | FileSystem.py:419-431 | only the chosen inode's type changes |
| InodeMaps.SetInodeRule | FileSystem.py:419-431 | setting an inode succeeds exactly when the index is in range and the inode is free or is being freed, and then it changes only that inode's type |
| InodeMaps.SetInodeAgrees | FileSystem.py:419-431 | for every in-range index the code as written follows the rule |
| InodeMaps.SetInodeAsWrittenOffByOne | FileSystem.py:420 | index inodeCount passes the bound check and raises, and index -1 passes and changes the last inode |
| InodeMaps.InUse | FileSystem.py:433-452 | the scan sees an inode as used exactly when it is not free |
| InodeMaps.TagType | FileSystem.py:243-247 | a tag names a type exactly when it is one character and a known type byte |
| InodeMaps.AllocateInodeRule | FileSystem.py:433-452 | an unknown type changes nothing; otherwise the first free inode below inodeCount gets the type and its number is returned; failure only when none is free and the scan runs past the table |
| InodeMaps.FreshTable | FileSystem.py:413-417 | a new table has 256 free inodes numbered by position, except a root directory at 0 |
| InodeMaps.AllocateAfterPrefix | FileSystem.py:433-452 | after a used prefix of k inodes, allocation takes inode k |
| InodeMaps.FiveDirectoriesThenFree | FileSystem.py:561-578 | on a fresh table, five directory allocations take inodes 1 to 5 |
| InodeMaps.PackTableOnDisk | FileSystem.py:474-477 | packing the table leaves inode i's record in block start+i |
| InodeMaps.UnpackPackTable | FileSystem.py:474-489 | unpacking a packed table gives back the first inodeCount inodes |
| InodeMaps.InodeMap.constructor | FileSystem.py:413-417 | a new map holds the fresh table |
| InodeMaps.InodeMap.SetInode | FileSystem.py:419-431 | the table and result follow SetInodeRule |
| InodeMaps.InodeMap.AllocateInode | FileSystem.py:433-452 | the table and result follow AllocateInodeRule |
| InodeMaps.InodeMap.FreeInode | FileSystem.py:454-458 | freeing is SetInodeRule with the type FREE |
| InodeMaps.InodeMap.Truncate | INode.py:151-156 | truncation sets the inode's length and changes nothing else |
| InodeMaps.InodeMap.Pack | FileSystem.py:474-477 | the device changes as PackTable says |
| InodeMaps.InodeMap.Unpack | FileSystem.py:479-489 | the table becomes what ReadTable reads, and it fails exactly when that read fails |
| Volumes.Retrieve | FileSystem.py:54-62 | a hit returns the cached bytes and only ever raises the dirty flag; a miss reads the block from the device and caches it with the given flag; a miss fails exactly without a device or a readable block |
| Volumes.RetrieveAfterCache | FileSystem.py:54-66 | a block just cached is returned as cached |
| Volumes.WritePtrs | INode.py:126-132 | writing a pointer block fails exactly when the pointers do not fill or fit it, and otherwise caches the packed pointers as dirty |
| Volumes.ReadPtrs | INode.py:134-138 | reading a pointer block needs 4*ppb bytes and gives ppb pointers |
| Volumes.ReadWrittenPtrs | INode.py:126-138 | a pointer block just written reads back as the pointers written |
| Volumes.GetDiskAddr | INode.py:160-171 | a block number past the inode's length gives -1 and changes nothing |
| Volumes.ResolveGrows | INode.py:178-227 | resolving frees no block, clears no dirty flag, drops no cached block and changes no inode but the one resolved, and only its pointers |
| Volumes.GetDiskAddrGrows | INode.py:160-171 | the same for getDiskAddrOfBlock |
| Volumes.GetDiskAddrSettled | INode.py:160-227 | asking for the same block again from a state that keeps the inode and its pointer path returns the same address and changes nothing |
| Volumes.PathAvoidsZero | INode.py:178-227 | with block 0 in use, no lookup goes through block 0, the "not allocated" pointer |
| Volumes.Splice | INode.py:74-79 | copying a chunk changes only the chunk's positions, to the chunk's bytes |
| Volumes.WriteFromGrows | INode.py:89-118 | the write loop only grows the state |
| Volumes.ReadFromGrows | INode.py:51-81 | the read loop only grows the state |
| Volumes.ReadFrom | INode.py:51-81 | the read loop keeps the buffer length and the table sizes; what it returns after a write is ReadBack.WriteThenRead |
| Volumes.FetchBlock | INode.py:74-75 | looking up and retrieving one data block only grows the state |
| ReadBack.FetchAgain | INode.py:74-79 | fetching a block again from a state that cached it dirty, and kept the blocks its lookup went through, finds the same address and returns the cached bytes with no change |
| ReadBack.WritePassIs | INode.py:103-118 | a pass of the write loop that succeeds caches, dirty, the block it fetched with the next bytes of buf spliced in at startWriteAt |
| ReadBack.ReadBackChunk | INode.py:65-81 | a pass of the read loop over that state copies the spliced bytes into the read buffer at offset - file_offset and changes nothing |
| ReadBack.WriteThenReadChunk | INode.py:65-118 | at any offset the loops stand at, a read pass right after a write pass returns the bytes that pass took from buf, at the same buffer positions, and changes nothing |
| ReadBack.WriteThenRead | INode.py:51-118 | read after write of a request inside one block, whose lookup has distinct pointer blocks avoiding the data block, returns the bytes written and changes nothing |
| ReadBack.WriteThenReadTest | FileSystem.py:580-603 | the source's test case, 13 bytes at offset 27124 of 2048-byte blocks, reads back what was written, given that the write succeeds and that block 13 has its own lookup (OwnBlock) |
| Images.NewDevice | BlockDevice.py:53-85 | creating a device succeeds exactly for a positive count and size, and gives that many blocks of that size (their bytes, zeros here, are under Left out) |
| Images.FlushReads | FileSystem.py:92-96 | after flushing, each dirty cached block reads back as its padded data and every other block is unchanged |
| Images.Unmount | FileSystem.py:82-97 | unmount needs a positive size and count and a packable master block, and saves under the normalized name |
| Images.OpenBlocksize | FileSystem.py:69-80 | opening under the name unmount chose gives the block size the name carries |
| Images.MountUnmount | FileSystem.py:69-97 | mounting what was unmounted gives back the master block, the bitmap and the inode table, with an empty cache, on an image to which the dirty blocks were flushed (mount with the corrected bitmap count) |
| Images.MountTableAsWritten | FileSystem.py:70-80 | for 512 blocks of 126 bytes the table is saved in blocks 2 to 257, but mount as written computes block 3 from the default block count |
| Images.MountAs | FileSystem.py:69-80 | a mount that succeeds has a non-zero block size in the name and starts with an empty cache on the image given; as written (flag cleared: no recount, and the bitmap read by unpack as written) its bitmap block count is the one for 1024 blocks of the name's block size, and corrected it is the one for the block count and size read |
| Images.ReadMasterKept | FileSystem.py:70-80 | reading block 0 fails or succeeds alike with and without the recount; as written the count of the default master block is kept, and recounting changes only that field |
| Images.MountAsKept | FileSystem.py:69-80 | mount as written equals the corrected mount whenever the recounted bitmap size is the one for 1024 blocks and the bitmap has at least 8 blocks and fits one block; when both succeed and are equal, the recounted size is the one for 1024 blocks |
| Images.MountAsWrittenUnmount | FileSystem.py:69-97 | mount as written of an unmounted image loads the tables as written, with the saved master block but the bitmap count of 1024 blocks |
| Images.MountAsWrittenLarge | FileSystem.py:69-97 | for a 16384-block volume of 1024-byte blocks, mount as written of the unmounted image raises IndexError in the bitmap read (`FileSystem.py:406`), before the table is read |
| Images.MountAsWrittenShifted | FileSystem.py:69-97 | for a 512-block volume of 126-byte blocks, unmounted with the source's pack (which it equals here) and without a dirty cached block 0 or 258, mount as written fails: it reads the table one block late and decodes the zero block 258 as inode 255 |
| Images.ZerosDoNotDecode | INode.py:260-269 | a zero block is no inode: its type byte 0 names no INodeType, a ValueError |
| Images.ReadTableFails | FileSystem.py:479-489 | the table read fails when any block it reaches does not decode |
| Images.SavedUnwritten | FileSystem.py:82-97 | a block past the bitmap and the table that no dirty cached block names is saved as zeros |
| Images.CreateSaved | FileSystem.py:29-43 | a created image is the unmount of a fresh volume whose metadata blocks are reserved |
| Images.MountCreated | FileSystem.py:29-80 | mounting a created image gives a fresh table and a bitmap with exactly the metadata blocks in use |
| Images.ReservedFirst | FileSystem.py:39-41 | createFileSystem reserves exactly the first blocksToAlloc blocks |
| FileSystems.FileSystem.constructor | FileSystem.py:45-52 | a new file system has free maps, a fresh table, an empty cache, and no device or current directory |
| FileSystems.FileSystem.RetrieveBlock | FileSystem.py:54-62 | the cache changes as Retrieve says, and does not change on failure |
| FileSystems.FileSystem.CacheBlock | FileSystem.py:64-66 | the cache changes as Volumes.CacheBlock says |
| FileSystems.FileSystem.Unmount | FileSystem.py:82-97 | the image equals Images.Unmount of the state |
| FileSystems.FileSystem.CreateFileSystem | FileSystem.py:29-43 | the result equals Images.Create |
| FileSystems.FileSystem.Mount | FileSystem.py:69-80 | the mounted object's master block, maps, device and current directory equal Images.Mount of the image, with no parent set |
| FileSystems.FileSystem.WriteBlockOfPtrs | INode.py:126-132 | the state changes as WritePtrs says |
| FileSystems.FileSystem.ResolveBlock | INode.py:178-227 | the result and the new state equal Resolve |
| FileSystems.FileSystem.GetDiskAddrOfBlock | INode.py:160-171 | the result and the new state equal GetDiskAddr |
| FileSystems.FileSystem.WriteINode | INode.py:89-118 | the new state equals WriteFrom over the whole buffer, so ReadBack.WriteThenRead applies to it |
| FileSystems.FileSystem.ReadINode | INode.py:51-81 | the buffer and the new state equal ReadFrom over the whole buffer, so after WriteINode inside one block it returns the bytes written (ReadBack.WriteThenRead) |
| FileSystems.FileSystem.CopyInto | INode.py:74-79 | the buffer becomes the Splice of the chunk |
| FileSystems.FileSystem.Fetch | INode.py:74-75 | the address, the block and the new state equal FetchBlock, and it fails exactly when the lookup or the retrieval fails |
| FileSystems.FileSystem.ReadChunkAt | INode.py:65-81 | one pass of the read loop: the buffer and the state equal ReadChunk, and the offset moves as Advance says |
| FileSystems.FileSystem.WriteChunkAt | INode.py:103-118 | one pass of the write loop: the state equals WriteChunk, and the offset moves as Advance says |
| Files.InodeToObject | File.py:10-20 | a file inode gives a File, a directory inode a Directory, anything else nothing, always for that inode |
| Files.Lookup | File.py:79-81 | looking up a name finds nothing exactly when no child has it, and otherwise finds that child |
| Files.Put | File.py:64-77 | adding a child keeps the order of names and appends a new name at the end |
| Files.PutLookup | File.py:64-77 | after adding, the name maps to the new child and every other name maps as before |
| Files.PutUnique | File.py:64-77 | adding keeps names unique |
| Files.Linearize | File.py:83-96 | to_str succeeds exactly when every child is a File or a Directory |
| Files.LinearizeSnoc | File.py:83-96 | one more child appends "\n", its name, "\|" and its inode number |
| Files.TrimZeros | File.py:110-124 | trimming drops exactly the trailing zero bytes |
| Files.ParseLines | File.py:110-124 | a successful parse gives children with unique names and in-range inodes |
| Files.DecodeEncode | File.py:83-124 | a directory whose names have no "\n" or "\|" and whose children are Files or Directories reads back as the same ordered children, with any zero padding after it |
| Files.DecodeAsWrittenPadded | File.py:113-124 | the code as written cannot read back any non-empty directory once zero padding follows it |
| Files.FreshDirectoryAsWritten | File.py:113-124 | the code as written raises on a fresh 2048-byte zero directory, where the corrected one reads no children |
| Files.ReadDirectory | File.py:110-124 | reading a directory only grows the state and gives unique names and in-range inodes |
| Files.AddChildTo | File.py:64-77 | add_child succeeds only for a File or Directory child, maps the name to it, keeps every other name, and only grows the state |
| Files.ParseText | File.py:117-124 | the parse loop equals ParseLines |
| Files.File.constructor | File.py:27-30 | a new File starts at offset 0 |
| Files.File.Read | File.py:32-35 | the buffer and the state equal ReadFrom at the offset, and the offset advances by the buffer's length only on success |
| Files.File.Write | File.py:37-39 | the state equals WriteFrom at the offset, and the offset advances by the buffer's length only on success |
| Files.File.Truncate | File.py:50-51 | the inode's length is set and nothing else changes |
| Files.Directory.constructor | File.py:58-60 | a new Directory has no cached children |
| Files.Directory.Read | File.py:110-124 | the children and the state equal ReadDirectory |
| Files.Directory.EnsureCached | File.py:106-108 | the state equals Cached; with children already cached, nothing is read and nothing changes |
| Files.Directory.GetChildren | File.py:79-81 | the result equals Cached and stays cached; with children already cached, the same map is returned and nothing changes |
| Files.Directory.AddChild | File.py:64-77 | the children and the state equal AddChildTo |
| Files.Directory.ToStr | File.py:83-96 | the result equals Linearize of the cached children, and fails without them |
| Files.Directory.Flush | File.py:98-103 | the state equals FlushDirectory: the encoding written at offset 0 |
| Paths.JoinLast | FileSystem.py:151-156 | joining with one more part appends the separator and the part |
| Paths.SplitPathNameJoin | FileSystem.py:151-156 | the name has no "/", and the prefix, "/" and the name rejoin to the path |
| Paths.SplitPathNameWords | FileSystem.py:151-156 | the path's components are the prefix's components followed by the name |
| Paths.Walk | FileSystem.py:101-127 | walking keeps every inode but its pointers and keeps used blocks used; a found node is in range, and after a step its parent is a directory |
| Paths.WalkAppend | FileSystem.py:101-127 | walking a+b is walking a, then b from where a ended, and stops at the first missing name |
| Paths.NameI | FileSystem.py:101-127 | namei keeps the volume's inodes and found nodes are in range |
| Paths.Namei | FileSystem.py:101-127 | the result and the new state equal NameI |
| Paths.WalkStep | FileSystem.py:115-127 | one component of namei: no node for a non-directory or a missing name, an error when the read fails or the child is not a File or Directory, and otherwise the rest of the walk from that child with the node as parent |
| Paths.OpenTarget | FileSystem.py:133-149 | open fails exactly when namei fails, and finds a node exactly when namei finds a file |
| Paths.Open | FileSystem.py:133-149 | the result follows OpenTarget, as a fresh File at offset 0 |
| Paths.MakeNodeTypes | FileSystem.py:191-214 | makeFSObj changes the type of at most one inode, from free to the requested type, and none for an unknown type |
| Paths.AddNodeTypes | FileSystem.py:196-214 | the same for the step that adds the node |
| Paths.MakeNodeRejectsExisting | FileSystem.py:191-214 | when the path already names something, makeFSObj succeeds without changing any inode's type |
| Paths.MakeFSObj | FileSystem.py:191-214 | the new state equals MakeNode |
| Paths.LinkFSObj | FileSystem.py:210-214 | adding the child, and "." and ".." for a directory, changes the state as LinkNode says |
| Paths.AddDotEntries | FileSystem.py:212-214 | adding "." and ".." to a new directory changes the state as DotEntries says |
| Paths.LinkNodeTypes | FileSystem.py:210-214 | linking the new node changes no inode's type |
| Paths.DotEntriesTypes | FileSystem.py:212-214 | adding "." and ".." changes no inode's type |
| Paths.GrowsKeeps | FileSystem.py:101-127 | a step that only grows the state keeps what namei promises |
| Text.JoinSplit | FileSystem.py:151-156 | joining the parts split at a separator gives the string back |
| Text.SplitJoin | File.py:83-124 | splitting a join of separator-free parts gives the parts back |
| Text.ParseIntToString | File.py:83-124 | the decimal text of an inode number parses back to it |
| Text.AsciiRoundTrip | File.py:98-124 | ASCII text encodes to bytes and decodes back |

## Left out

- Input and output: the host file is the list of its blocks. Opening,
  seeking, truncating and closing the host file are not modelled. A device
  whose file does not split into whole blocks of its size fails its reads
  instead of re-chunking.
- Printing: printed error messages are not modelled. The value the code
  returns after printing is modelled (-1, False, None).
- `Shell.py` is not part of this model. Also left out are the printing and
  shell-facing helpers `printDir`, `printFile`, `writeFile`, `moveCurrDir`,
  `makeDir`, `makeFile`, `printBlockMap`, `printINodeMap` and `charRep`.
  They only format output or forward to modelled operations.
- numpy and struct are written out: the bitmap is a sequence of booleans,
  and struct "=" fields are fixed little-endian integers.
- Some code cannot run as written. It is modelled by its evident meaning:
  - `File.py:68,94,113` read `.type`, `.number` and `.num_bytes`, which an
    inode does not have. The model uses the inode's type, its inode
    number and its length.
  - `File.py:33,38` call `read` and `write` with their arguments swapped.
  - `File.py:123` passes an inode number where an inode is expected.
  - `FileSystem.py:116` misspells `isDirectory`.
  - `FileSystem.py:245` applies `ord` to a value that is already a number.
  - `INode.py:149` indexes a string with the type's byte value. `charRep`
    is only used for printing and is left out.
  - `makeFSObj` prints the directory's inode number before checking it for
    None. The model checks first.
- Volumes.GetDiskAddr: when alloc is False the source still allocates
  missing pointer blocks on the way down. That is what the code does, and
  the model keeps it.
- Files.File.Read: `INode.read` returns None, so `File.read` cannot count
  what it read. The model returns the buffer's length, which is what the
  loop reads.
- The source has some placeholders. `seek`, `sync` and `Directory.sync`
  are `pass`, and `open` ignores `mode`. None of these is modelled beyond
  taking `mode` as a parameter.
- Level growth is not implemented in the source, so a block past the
  inode's capacity fails. Truncate does not reclaim blocks. Reads past the
  end are not zero-filled. The model keeps each of these as the source has
  it.
- Paths.MakeFSObj: the source never flushes the parent directory, so the
  new entries are lost when the Directory object is dropped. The model
  also keeps only the new inode's type and the blocks the reads cached.
- Paths.Namei: each step builds a fresh Directory and reads it. No cache
  of directory objects is modelled, as none exists.
- Files.Directory.Read: on an error the source leaves a partly filled
  children map. The model states the new state only on success.
- FileSystems.FileSystem: after an error the object's state is not
  specified by the source. So Valid() and Ready() are stated only on the
  success paths.
- Text.AsciiDecode: only ASCII is modelled. Python's `encode()` and
  `decode()` are UTF-8 (`File.py:102`), so a byte of 128 or more fails
  here where the source decodes a multi-byte character.
- Files.Encode: a directory whose text holds a character outside ASCII is
  an `EncodingFault` here, while the source encodes it as UTF-8
  (`File.py:86-87,102`).
- Files.NameOk: names are required to be ASCII. Names with other
  characters, which the source stores as UTF-8, are not covered.
- Files.DecodeEncode: its round trip covers only ASCII names, by NameOk.
- Text.IsDecimal: only the ASCII digits 0-9 count. Python's
  `str.isdecimal` (`BlockDevice.py:36,49`) also accepts other Unicode
  decimal digits.
- Text.ParseInt: accepts only an optional "-" and ASCII digits. Python's
  `int()` (`File.py:123`) also allows surrounding whitespace, a leading
  "+" and "_" between digits.
- BlockDevice.BlockDevice.WriteBlock: the buffer is a value. The source
  pads the caller's bytearray in place (`BlockDevice.py:116`), and that
  change to the caller's object is not modelled.
- Files.InodeToObject: a child is a tag (File, Directory or nothing)
  together with its inode number, not a Python object.
- Files.DecodeEncode: the round trip is proved for names without "\n" or
  "\|" and for children that are Files or Directories. Other names do not
  survive the format.
- FileSystems.FileSystem: `namei`, `open` and `makeFSObj` are module-level
  methods that take the file system as a parameter. Dafny modules cannot
  import each other in a cycle.
- Concurrency is not modelled. The source is single-threaded.
- Volumes.ReadFrom: read after write (ReadBack.WriteThenRead) is proved
  within one mount, for a request inside one block whose lookup goes
  through distinct pointer blocks that avoid the data block. A request
  that spans several blocks is covered pass by pass by
  ReadBack.WriteThenReadChunk, but not as a whole. Read after write
  across unmount and mount is not proved.
- FileSystems.FileSystem.ReadINode: read after WriteINode holds through
  ReadBack.WriteThenRead, with the same limits as Volumes.ReadFrom.
- FileSystems.FileSystem.WriteINode: the same limits as Volumes.ReadFrom.
- Files.File.Read: read after Files.File.Write has the same limits as
  Volumes.ReadFrom.
- BlockDevice.BlockDevice.Create: the source sizes the new host file by
  seeking to its last byte and writing `b'0'` there (`BlockDevice.py:77-79`).
  So the last block ends in 0x30, not 0. The model's blocks are all zeros.
- Images.NewDevice: the same as BlockDevice.BlockDevice.Create. The 0x30
  last byte of a new device is not modelled.
- BlockMaps.BlockMap.SetBlock: after mount the source's map holds numpy
  uint8 values (`FileSystem.py:406`), not booleans. So the test
  `blockMap[blockID] is True` (`FileSystem.py:326`) never holds on a
  mounted map, and setting a used block to True succeeds there. The model
  keeps booleans, and setting a set block fails after mount as before.

Several members follow the corrected code of a "## Findings" row, not the
code as written:

- BlockMaps.BlockMap.Pack: writes whole bitmap blocks, as corrected for
  `FileSystem.py:383-385`. It also loops over cielDiv(blockCount, 8)
  bytes, as corrected for `FileSystem.py:383`, where the source stops at
  blockCount // 8. So the last byte of a count that is not a multiple of 8
  is written. For 7 blocks the source writes no bitmap at all. For 1025
  blocks of 128 bytes it never writes bit 1024.
- BlockMaps.BlockMap.Unpack: indexes each bit inside its block, as
  corrected for `FileSystem.py:403-406`. It also loops over
  cielDiv(blockCount, 8) bytes, as corrected for `FileSystem.py:400`. For 7
  blocks the source reads no bitmap, and for 1025 blocks of 128 bytes it
  never reads bit 1024, printing "not filled" and leaving it False.
- BlockMaps.BlockMap.SetBlock: rejects every index outside the map, as
  corrected for `FileSystem.py:323`.
- BlockMaps.BlockMap.FreeBlock: the same bound as SetBlock.
- InodeMaps.InodeMap.SetInode: rejects every index outside the table, as
  corrected for `FileSystem.py:420`.
- InodeMaps.InodeMap.FreeInode: the same bound as SetInode.
- Images.Unmount: saves the bitmap with the corrected pack.
- FileSystems.FileSystem.Unmount: the same as Images.Unmount.
- Images.Mount: recomputes the bitmap block count, as corrected for
  `FileSystem.py:70-80`, and reads the bitmap with the corrected unpack.
- Images.MountAs: with the flag cleared it keeps the default bitmap block
  count and reads the bitmap as `FileSystem.py:388-407` is written. The
  device it reads is still one the corrected unmount saved, when it is
  given one. Images.MountAsWrittenShifted picks a volume on which the
  source's pack makes the same writes.
- Images.MountUnmount: holds for the corrected mount.
- FileSystems.FileSystem.Mount: follows Images.Mount.
- Volumes.ReadFrom: indexes the buffer from its start, as corrected for
  `INode.py:77`.
- Volumes.WriteFrom: the same, as corrected for `INode.py:115`.
- FileSystems.FileSystem.ReadINode: follows Volumes.ReadFrom.
- FileSystems.FileSystem.WriteINode: follows Volumes.WriteFrom.
- FileSystems.FileSystem.ReadChunkAt: uses the corrected buffer index.
- FileSystems.FileSystem.WriteChunkAt: uses the corrected buffer index.
- Files.File.Read: follows Volumes.ReadFrom.
- Files.File.Write: follows Volumes.WriteFrom.
- Files.ReadDirectory: ignores the zero padding after the text, as
  corrected for `File.py:113-124`. As written, reading any directory
  inode longer than its text raises, such as every fresh 2048-byte one.
- Files.Directory.Read: follows Files.ReadDirectory.
- Paths.Namei: follows Files.ReadDirectory. As written, every walk
  through a padded directory raises.
- Paths.MakeFSObj: follows Files.ReadDirectory, and so Paths.Open and the
  rest of the path layer do too.

## Findings

| source | as written | input that shows it | evidently intended | confidence | as-written member | corrected member |
|---|---|---|---|---|---|---|
| FileSystem.py:323 | `blockID > blockCount` is the only bound check in setBlock | blockID = blockCount raises IndexError, and blockID = -1 changes the last block | reject every index outside 0 to blockCount-1 | not executed | BlockMaps.SetBlockAsWrittenOffByOne | BlockMaps.SetBlockRule |
| FileSystem.py:420 | `inodeID > inodeCount` is the only bound check in setInode | inodeID = inodeCount raises, and inodeID = -1 changes the last inode | reject every index outside 0 to inodeCount-1 | not executed | InodeMaps.SetInodeAsWrittenOffByOne | InodeMaps.SetInodeRule |
| FileSystem.py:383-385 | pack slices each bitmap block as `[i : i+blockSize-1]` | 16 blocks with 2-byte blocks: two bytes are packed, one is written | write whole blocks of blockSize bytes | not executed | BlockMaps.BitmapPlanDropsByte | BlockMaps.ReadBitmapRestores |
| FileSystem.py:383,400 | pack and unpack loop over `range(0, blockCount // 8, blockSize)` | 7 blocks: no bitmap block is written or read, and every flag reads clear | loop over cielDiv(blockCount, 8) bytes | not executed | BlockMaps.BitmapBoundAsWritten | BlockMaps.ReadBitmapRestores |
| FileSystem.py:403-406 | unpack indexes `values[x]` with the absolute bit number | 16 blocks with 1-byte blocks: the second block's read raises IndexError | index with the bit's position inside the block | not executed | BlockMaps.UnpackAsWrittenOverruns | BlockMaps.ReadBitmapRestores |
| INode.py:77,115 | the buffer index is `bp*blockSize + i` | a 4-byte buffer at file offset 2 with 4-byte blocks: the second chunk reads buffer[4] | index from the buffer's start, offset - file_offset + i | not executed | INodes.AsWrittenIndexOverruns | ReadBack.WriteThenReadChunk |
| FileSystem.py:70-80 | mount builds the master block for the default 1024 blocks, and unpack keeps its blockMapBlockCount | a 512-block image of 126-byte blocks: the table is saved from block 2 but read from block 3, and inode 255 is decoded from the zero block 258, a ValueError | recompute blockMapBlockCount from the unpacked block count | not executed | Images.MountAsWrittenShifted | Images.MountUnmount |
| File.py:113-124 | Directory.read keeps the zero padding after the text | any directory whose inode is longer than its text, such as a fresh 2048-byte one: the last record fails to parse | ignore the trailing zero bytes | not executed | Files.DecodeAsWrittenPadded | Files.DecodeEncode |
