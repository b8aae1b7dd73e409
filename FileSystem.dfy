/** The FileSystem object: the master block, the block map and inode map
    objects, the block cache and the device, updated in place. Each
    operation is proved against its counterpart on values in Volumes and
    Images. The INode methods that work through the file system (the
    resolver and the read/write loops) are methods here, on an inode
    number, because an INode reaches the cache and the allocator only
    through its file system. */
module FileSystems {
  import opened Bytes
  import opened Outcomes
  import opened BlockDevice
  import Dev = BlockDevice
  import opened MasterBlocks
  import opened INodes
  import opened BlockMaps
  import opened InodeMaps
  import opened Volumes
  import opened ReadBack
  import opened Images

  class FileSystem {
    const fileName: string
    var master: MasterBlock
    const blockMap: BlockMap
    const inodeMap: InodeMap
    var cache: map<int, Entry>
    /** rBlockDev: set by mount, null in a file system built in memory. */
    var dev: BlockDevice?
    /** currentDir, as its inode number and its parent's (None before
        mount sets it). */
    var cwd: Option<int>
    var cwdParent: Option<int>

    /** FileSystem(filename, blockcount, blocksize) given the master block
        those build: a clear block map, a fresh inode table, an empty
        cache, no device and no current directory. */
    constructor(fileName: string, master: MasterBlock)
      ensures this.fileName == fileName && this.master == master
      ensures blockMap.bits == Falses(if master.blockCount < 0 then 0 else master.blockCount)
      ensures inodeMap.inodes == FreshTable()
      ensures cache == map[] && dev == null && cwd == None && cwdParent == None
      ensures fresh(blockMap) && fresh(inodeMap)
    {
      this.fileName := fileName;
      this.master := master;
      blockMap := new BlockMap(master.blockCount);
      inodeMap := new InodeMap();
      cache := map[];
      dev := null;
      cwd := None;
      cwdParent := None;
    }

    /** What the operations change, as a value. */
    function State(): Vol
      reads this, blockMap, inodeMap
    {
      Vol(blockMap.bits, inodeMap.inodes, cache)
    }

    /** What they read and do not change: the device and the block size. */
    function Context(): Ctx
      reads this`dev, this`master, dev
    {
      Ctx(if dev == null then None else Some(dev.Snapshot()), master.blockSize)
    }

    // -------------------------------------------------------------------
    // The block cache

    /** retrieveBlock(blockNum, dirty) */
    method RetrieveBlock(k: int, dirty: bool) returns (r: Result<seq<byte>>)
      modifies this`cache
      ensures Retrieve(Context(), old(State()), k, dirty) == if r.Ok? then Ok((r.value, State())) else Err(r.fault)
      ensures r.Err? ==> cache == old(cache)
    {
      if k in cache {
        var e := cache[k];
        if !e.dirty && dirty {
          cache := cache[k := Entry(e.data, dirty)];
        }
        return Ok(e.data);
      }
      if dev == null {
        return Err(LookupFault);
      }
      if master.blockSize < 0 {
        return Err(ValueFault);
      }
      var buffer := new byte[master.blockSize];
      var ok := dev.ReadBlock(k, buffer);
      if !ok {
        return Err(DeviceFault);
      }
      cache := cache[k := Entry(buffer[..], dirty)];
      r := Ok(buffer[..]);
    }

    /** cacheBlock(blockNum, block) */
    method CacheBlock(k: int, block: seq<byte>)
      modifies this`cache
      ensures State() == Volumes.CacheBlock(old(State()), k, block)
    {
      cache := cache[k := Entry(block, true)];
    }

    // -------------------------------------------------------------------
    // unmount, mount and createFileSystem

    /** unmount: a new device of the master block's size, the master block
        written to block 0, then the bitmap, the inode table and every dirty
        cached block; the result is the saved device and its file name.
        Nothing of the file system changes. */
    method Unmount() returns (r: Result<(string, Disk)>)
      ensures r.Ok? <==> Images.Unmount(master, fileName, State()).Ok?
      ensures r.Ok? ==> r == Images.Unmount(master, fileName, State())
    {
      var bs := master.blockSize;
      if master.blockCount <= 0 {
        return Err(LookupFault);
      }
      if bs <= 0 {
        return Err(DeviceFault);
      }
      var d := new BlockDevice.Create(master.blockCount, bs);
      ghost var d0 := d.Snapshot();
      assert d.blocks == seq(master.blockCount, _ => Zeros(bs));
      assert NewDevice(master.blockCount, bs) == Ok(d0);
      var mb := PackMaster(master);
      if mb.Err? {
        return Err(mb.fault);
      }
      var ok := d.WriteBlock(0, mb.value, true);
      if !ok {
        return Err(DeviceFault);
      }
      ghost var d1 := d.Snapshot();
      ok := blockMap.Pack(d, bs);
      if !ok {
        return Err(DeviceFault);
      }
      ghost var d2 := d.Snapshot();
      ok := inodeMap.Pack(d, master.inodeCount, TableStart(master));
      if !ok {
        return Err(DeviceFault);
      }
      ghost var d3 := d.Snapshot();
      ok := FlushTo(d);
      if !ok {
        return Err(DeviceFault);
      }
      UnmountIs(master, fileName, State(), d0, mb.value, d1, d2, d3, d.Snapshot());
      r := Ok((NormalizeFilename(fileName, bs), d.Snapshot()));
    }

    /** createFileSystem(filename, blockcount, blocksize): a new file
        system whose first inodeMapAddress + inodeCount blocks are
        allocated, saved by unmount; None, with nothing saved, when those
        blocks do not fit. */
    static method CreateFileSystem(fileName: string, blockCount: int, blockSize: int)
      returns (r: Result<Option<(string, Disk)>>)
      ensures r.Ok? <==> Images.Create(fileName, blockCount, blockSize).Ok?
      ensures r.Ok? ==> r == Images.Create(fileName, blockCount, blockSize)
    {
      var m := NewMasterBlock(blockCount, blockSize);
      if m.Err? {
        return Err(m.fault);
      }
      var fs := new FileSystem(fileName, m.value);
      var toAlloc := m.value.inodeMapAddress + m.value.inodeCount;
      if toAlloc > m.value.blockCount {
        return Ok(None);
      }
      var i := 0;
      while i < toAlloc
        invariant i <= toAlloc || i == 0
        invariant fs.inodeMap.inodes == FreshTable() && fs.cache == map[]
        invariant fs.master == m.value && fs.fileName == fileName
        invariant AllocateN(fs.blockMap.bits, if toAlloc - i < 0 then 0 else toAlloc - i) == Reserved(blockCount, toAlloc)
        decreases toAlloc - i
      {
        var _ := fs.blockMap.AllocateBlock();
        i := i + 1;
      }
      assert fs.State() == Vol(Reserved(blockCount, toAlloc), FreshTable(), map[]);
      var saved := fs.Unmount();
      if saved.Err? {
        return Err(saved.fault);
      }
      r := Ok(Some(saved.value));
    }

    /** mount(filename), given the blocks of the host file: a file system
        with the block size the name gives and the default block count, its
        master block replaced by block 0 of the device, the bitmap block
        count recomputed from the block count read, then the bitmap and the
        inode table unpacked and the root made the current directory. */
    static method Mount(filename: string, image: seq<seq<byte>>) returns (r: Result<FileSystem>)
      ensures r.Ok? <==> Images.Mount(filename, image).Ok?
      ensures r.Ok? ==> fresh(r.value) && r.value.dev != null && fresh(r.value.dev) && r.value.cwd.Some?
      ensures r.Ok? ==> r.value.fileName == filename && r.value.cwdParent == None
      ensures r.Ok? ==>
        Images.Mount(filename, image) == Ok(Mounted(r.value.master, r.value.State(), r.value.dev.Snapshot(), r.value.cwd.value))
    {
      var m0 := NewMasterBlock(DefaultBlockCount, FilenameToBlocksize(filename));
      if m0.Err? {
        return Err(m0.fault);
      }
      var fs := new FileSystem(filename, m0.value);
      var d := new BlockDevice.Open(image, FilenameToBlocksize(NormalizeFilename(filename, Dev.DefaultBlockSize)));
      fs.dev := d;
      ghost var d0 := d.Snapshot();
      MountIs(filename, image, m0.value, d0);
      var ok := fs.UnpackMasterBlock();
      if ok.Err? {
        return Err(ok.fault);
      }
      d.numBlocks := fs.master.blockCount;
      assert d.Snapshot() == d0.(numBlocks := fs.master.blockCount);
      ok := fs.LoadTables();
      if ok.Err? {
        return Err(ok.fault);
      }
      r := Ok(fs);
    }

    /** MasterBlock.unpack(rBlockDev): block 0 read into a buffer of the
        current block size, the recorded fields unpacked; the bitmap block
        count is then recomputed from the block count read. */
    method UnpackMasterBlock() returns (r: Result<()>)
      requires dev != null
      modifies this`master
      ensures ReadMaster(dev.Snapshot(), old(master), true) == if r.Ok? then Ok(master) else Err(r.fault)
      ensures cwdParent == old(cwdParent)
    {
      if master.blockSize < 0 {
        return Err(DeviceFault);
      }
      var buffer := new byte[master.blockSize];
      var ok := dev.ReadBlock(0, buffer);
      if !ok {
        return Err(DeviceFault);
      }
      var m1 := UnpackMaster(master, buffer[..]);
      if m1.Err? {
        return Err(m1.fault);
      }
      var m := m1.value;
      if m.blockSize <= 0 {
        return Err(ValueFault);
      }
      master := m.(blockMapBlockCount := BitmapBlocks(m.blockCount, m.blockSize));
      r := Ok(());
    }

    /** The rest of mount: blockMap.unpack and inodeMap.unpack from the
        device, then the root directory as current directory. */
    method LoadTables() returns (r: Result<()>)
      requires dev != null && master.blockSize > 0 && inodeMap.inodes == FreshTable() && cache == map[]
      modifies blockMap, inodeMap, this`cwd
      ensures r.Ok? <==> Images.LoadTables(master, dev.Snapshot()).Ok?
      ensures r.Ok? ==> cwd.Some? && Images.LoadTables(master, dev.Snapshot()) == Ok(Mounted(master, State(), dev.Snapshot(), cwd.value))
      ensures cwdParent == old(cwdParent)
    {
      var ok := blockMap.Unpack(dev, master.blockCount, master.blockSize);
      if !ok {
        return Err(DeviceFault);
      }
      ok := inodeMap.Unpack(dev, master.inodeCount, TableStart(master), master.blockSize);
      if !ok {
        return Err(DeviceFault);
      }
      var root := PyIndex(master.rootDirAddress, |inodeMap.inodes|);
      if root.None? {
        return Err(IndexFault);
      }
      cwd := Some(root.value);
      r := Ok(());
    }

    /** The loop of unmount over blockCache: each dirty entry written to
        its block, padded, in whatever order the keys come. */
    method FlushTo(d: BlockDevice) returns (ok: bool)
      modifies d`blocks
      ensures ok == FlushCache(old(d.Snapshot()), cache).Ok?
      ensures ok ==> FlushCache(old(d.Snapshot()), cache) == Ok(d.Snapshot())
    {
      ghost var d3 := d.Snapshot();
      var todo := cache.Keys;
      ghost var done: set<int> := {};
      while todo != {}
        invariant todo + done == cache.Keys && todo !! done
        invariant d.Snapshot() == Flushed(d3, cache, done)
        invariant forall k :: k in done && cache[k].dirty ==> Writable(d3, k, cache[k].data, true)
        decreases |todo|
      {
        ghost var member := Member(todo);
        var key :| key in todo;
        FlushStep(d3, cache, done, key);
        if cache[key].dirty {
          ok := d.WriteBlock(key, cache[key].data, true);
          if !ok {
            assert !FlushWritable(d3, cache);
            return;
          }
        }
        todo := todo - {key};
        done := done + {key};
      }
      assert FlushWritable(d3, cache);
      FlushAll(d3, cache);
      ok := true;
    }

    // -------------------------------------------------------------------
    // Pointer blocks and the resolver

    /** INode.writeBlockOfPtrs(blockNum, ptrsToPack): the first
        ptrsPerBlock pointers packed one 'i' field at a time, then cached. */
    method WriteBlockOfPtrs(addr: int, ptrs: seq<int>) returns (r: Result<()>)
      modifies this`cache
      ensures WritePtrs(Context(), old(State()), addr, ptrs) == if r.Ok? then Ok(State()) else Err(r.fault)
      ensures r.Err? ==> cache == old(cache)
    {
      var count := PtrCount(Context());
      var bytes: seq<byte> := [];
      var x: nat := 0;
      while x < count
        invariant x <= count && PtrsFit(ptrs, x) && bytes == EncodePtrs(ptrs, x)
      {
        if x >= |ptrs| {
          return Err(IndexFault);
        }
        if !IsI32(ptrs[x]) {
          return Err(RangeFault);
        }
        bytes := bytes + EncodeSigned(ptrs[x], 4);
        x := x + 1;
      }
      CacheBlock(addr, bytes);
      r := Ok(());
    }

    /** Store a changed pointer list where it came from: the inode's own
        blockPtrs for the top level (parent pointer 0), else its pointer
        block. */
    method PersistPtrs(inum: int, blocks: seq<int>, parent: int) returns (r: Result<()>)
      requires 0 <= inum < |inodeMap.inodes|
      modifies this`cache, inodeMap
      ensures Persist(Context(), old(State()), inum, blocks, parent) == if r.Ok? then Ok(State()) else Err(r.fault)
    {
      if parent == 0 {
        inodeMap.inodes := inodeMap.inodes[inum := inodeMap.inodes[inum].(blockPtrs := blocks)];
        r := Ok(());
      } else {
        r := WriteBlockOfPtrs(parent, blocks);
      }
    }

    /** INode.getDiskAddrOfBlock_recursive for inode inum. The alloc flag
        is not consulted: a zero slot is always filled. */
    method ResolveBlock(inum: int, n: int, alloc: bool, blocks: seq<int>, level: int, parent: int) returns (r: Result<int>)
      requires 0 <= inum < |inodeMap.inodes|
      modifies this`cache, blockMap, inodeMap
      ensures Resolve(Context(), old(State()), inum, n, blocks, level, parent)
           == if r.Ok? then Ok((r.value, State())) else Err(r.fault)
      decreases if level > 0 then level else 0
    {
      var ctx := Context();
      if level == 0 {
        if |blocks| <= n {
          return Ok(-1);
        }
        var j := PyIndex(n, |blocks|);
        if j.None? {
          return Err(IndexFault);
        }
        if blocks[j.value] != 0 {
          return Ok(blocks[j.value]);
        }
        var a := blockMap.AllocateBlock();
        var p := PersistPtrs(inum, blocks[j.value := a], parent);
        if p.Err? {
          return Err(p.fault);
        }
        return Ok(a);
      } else if level < 0 {
        if Ppb(ctx) == 0 {
          return Err(ArithFault);
        }
        if |blocks| <= n * Pow(Ppb(ctx), -level) {
          return Ok(-1);
        }
        return Err(TypeFault);
      }
      var ptrsPerPtr := Pow(Ppb(ctx), level);
      if ptrsPerPtr == 0 {
        return Err(ArithFault);
      }
      var child := FloorDiv(n, ptrsPerPtr);
      if |blocks| <= child {
        return Ok(-1);
      }
      var j := PyIndex(child, |blocks|);
      if j.None? {
        return Err(IndexFault);
      }
      var rem := n - child * ptrsPerPtr;
      ghost var v := State();
      var next: seq<int>;
      var at: int;
      if blocks[j.value] == 0 {
        var a := blockMap.AllocateBlock();
        var p := PersistPtrs(inum, blocks[j.value := a], parent);
        if p.Err? {
          return Err(p.fault);
        }
        next := seq(PtrCount(ctx), _ => 0);
        var w := WriteBlockOfPtrs(a, next);
        assert w.Ok?;
        at := a;
        assert Fresh(ctx, v, inum, blocks, j.value, parent, rem) == Ok(Down(State(), rem, next, at));
      } else {
        at := blocks[j.value];
        var got := RetrieveBlock(at, true);
        if got.Err? {
          return Err(got.fault);
        }
        var ptrs := ReadPtrs(ctx, got.value);
        if ptrs.Err? {
          return Err(ptrs.fault);
        }
        next := ptrs.value;
        assert Follow(ctx, v, at, rem) == Ok(Down(State(), rem, next, at));
      }
      assert Descend(ctx, v, inum, n, blocks, level, parent) == Ok(Down(State(), rem, next, at));
      r := ResolveBlock(inum, rem, alloc, next, level - 1, at);
    }

    /** INode.getDiskAddrOfBlock(block_number, alloc) for inode inum: -1
        past the inode's length, else the resolver from its pointers and
        level. */
    method GetDiskAddrOfBlock(inum: int, n: int, alloc: bool) returns (r: Result<int>)
      requires 0 <= inum < |inodeMap.inodes|
      modifies this`cache, blockMap, inodeMap
      ensures GetDiskAddr(Context(), old(State()), inum, n) == if r.Ok? then Ok((r.value, State())) else Err(r.fault)
    {
      var node := inodeMap.inodes[inum];
      if n * master.blockSize > node.length {
        return Ok(-1);
      }
      r := ResolveBlock(inum, n, alloc, node.blockPtrs, node.level, 0);
    }

    /** The first two steps of a pass of INode.read's and INode.write's
        loops: getDiskAddrOfBlock, then retrieveBlock of that address. */
    method Fetch(inum: int, n: int, alloc: bool) returns (r: Result<(int, seq<byte>)>)
      requires 0 <= inum < |inodeMap.inodes|
      modifies this`cache, blockMap, inodeMap
      ensures FetchBlock(Context(), old(State()), inum, n)
           == if r.Ok? then Ok((r.value.0, r.value.1, State())) else Err(r.fault)
      ensures r.Ok? ==> 0 <= inum < |inodeMap.inodes|
    {
      var addr := GetDiskAddrOfBlock(inum, n, alloc);
      if addr.Err? {
        return Err(addr.fault);
      }
      var got := RetrieveBlock(addr.value, false);
      if got.Err? {
        return Err(got.fault);
      }
      r := Ok((addr.value, got.value));
    }

    // -------------------------------------------------------------------
    // The inode read/write loops

    /** INode.write(buffer, file_offset) on inode inum: chunk by chunk
        until the offset reaches the end of the request. */
    method WriteINode(inum: int, buffer: seq<byte>, fileOffset: nat) returns (r: Result<()>)
      requires 0 <= inum < |inodeMap.inodes| && master.blockSize > 0
      modifies this`cache, blockMap, inodeMap
      ensures WriteFrom(Context(), old(State()), inum, buffer, fileOffset, fileOffset)
           == if r.Ok? then Ok(State()) else Err(r.fault)
    {
      var bs := master.blockSize;
      var endOffset := fileOffset + |buffer|;
      var offset := fileOffset;
      ghost var ctx := Context();
      ghost var v0 := State();
      while endOffset - offset != 0
        invariant At(offset, fileOffset, |buffer|, bs) && 0 <= inum < |inodeMap.inodes|
        invariant Context() == ctx && master.blockSize == bs
        invariant WriteFrom(ctx, v0, inum, buffer, fileOffset, fileOffset)
               == WriteFrom(ctx, State(), inum, buffer, fileOffset, offset)
        decreases endOffset - offset
      {
        ghost var v := State();
        var next := WriteChunkAt(inum, buffer, fileOffset, offset);
        if next.Err? {
          return Err(next.fault);
        }
        WriteFromStep(ctx, v, inum, buffer, fileOffset, offset, State());
        offset := next.value;
      }
      r := Ok(());
    }

    /** One pass of INode.write's loop: the chunk's block is resolved
        (allocating), retrieved, overwritten with the next bytes of the
        buffer and cached; the result is the next offset. */
    method WriteChunkAt(inum: int, buffer: seq<byte>, fileOffset: nat, offset: nat) returns (r: Result<nat>)
      requires 0 <= inum < |inodeMap.inodes| && At(offset, fileOffset, |buffer|, master.blockSize)
      requires offset < fileOffset + |buffer|
      modifies this`cache, blockMap, inodeMap
      ensures WriteChunk(Context(), old(State()), inum, buffer, fileOffset, offset)
           == if r.Ok? then Ok(State()) else Err(r.fault)
      ensures r.Ok? ==> r.value == Advance(offset, fileOffset, fileOffset + |buffer|, master.blockSize)
      ensures r.Ok? ==> 0 <= inum < |inodeMap.inodes|
    {
      var bs := master.blockSize;
      var endOffset := fileOffset + |buffer|;
      var c := ChunkAt(offset, fileOffset, endOffset, bs);
      var (blockIndex, startWriteAt, restOfBlock) := (c.blockIndex, c.startWriteAt, c.restOfBlock);
      ghost var next := Advance(offset, fileOffset, endOffset, bs);
      ghost var ctx := Context();
      ghost var v0 := State();
      var got := Fetch(inum, blockIndex, true);
      if got.Err? {
        assert WriteChunk(ctx, v0, inum, buffer, fileOffset, offset) == Err(got.fault);
        return Err(got.fault);
      }
      var (addr, data) := got.value;
      ghost var v2 := State();
      if |data| < restOfBlock {
        assert WriteChunk(ctx, v0, inum, buffer, fileOffset, offset) == Err(IndexFault);
        return Err(IndexFault);
      }
      var count := restOfBlock - startWriteAt;
      var from := offset - fileOffset;
      assert count == Advance(offset, fileOffset, endOffset, bs) - offset;
      assert from == BufferIndex(offset, fileOffset, 0);
      var block := Overwrite(data, startWriteAt, buffer[from .. from + count]);
      CacheBlock(addr, block);
      WriteChunkIs(ctx, v0, inum, buffer, fileOffset, offset, c,
        from, count, addr, data, v2);
      assert WriteChunk(ctx, v0, inum, buffer, fileOffset, offset) == Ok(State());
      r := Ok(offset + count);
    }

    /** INode.read(buffer, file_offset) on inode inum: chunk by chunk
        until the offset reaches the end of the request. */
    method ReadINode(inum: int, buffer: array<byte>, fileOffset: nat) returns (r: Result<()>)
      requires 0 <= inum < |inodeMap.inodes| && master.blockSize > 0
      modifies buffer, this`cache, blockMap, inodeMap
      ensures ReadFrom(Context(), old(State()), inum, old(buffer[..]), fileOffset, fileOffset)
           == if r.Ok? then Ok((buffer[..], State())) else Err(r.fault)
    {
      var bs := master.blockSize;
      var endOffset := fileOffset + buffer.Length;
      var offset := fileOffset;
      ghost var ctx := Context();
      ghost var v0 := State();
      ghost var goal := ReadFrom(ctx, v0, inum, buffer[..], fileOffset, fileOffset);
      while endOffset - offset != 0
        invariant At(offset, fileOffset, buffer.Length, bs) && 0 <= inum < |inodeMap.inodes|
        invariant Context() == ctx && master.blockSize == bs && ctx.blockSize == bs
        invariant goal == ReadFrom(ctx, State(), inum, buffer[..], fileOffset, offset)
        decreases endOffset - offset
      {
        ghost var v := State();
        ghost var b := buffer[..];
        var next := ReadChunkAt(inum, buffer, fileOffset, offset);
        if next.Err? {
          return Err(next.fault);
        }
        ghost var w := State();
        ghost var b1 := buffer[..];
        ReadFromStep(ctx, v, inum, b, fileOffset, offset, b1, w, goal);
        assert next.value == Advance(offset, fileOffset, fileOffset + |b|, ctx.blockSize);
        offset := next.value;
      }
      r := Ok(());
    }

    /** One pass of INode.read's loop: the chunk's block is resolved,
        retrieved, copied into the next bytes of the buffer and cached; the
        result is the next offset. */
    method ReadChunkAt(inum: int, buffer: array<byte>, fileOffset: nat, offset: nat) returns (r: Result<nat>)
      requires 0 <= inum < |inodeMap.inodes| && At(offset, fileOffset, buffer.Length, master.blockSize)
      requires offset < fileOffset + buffer.Length
      modifies buffer, this`cache, blockMap, inodeMap
      ensures ReadChunk(Context(), old(State()), inum, old(buffer[..]), fileOffset, offset)
           == if r.Ok? then Ok((buffer[..], State())) else Err(r.fault)
      ensures r.Ok? ==> r.value == Advance(offset, fileOffset, fileOffset + buffer.Length, master.blockSize)
      ensures r.Ok? ==> 0 <= inum < |inodeMap.inodes|
    {
      var bs := master.blockSize;
      var endOffset := fileOffset + buffer.Length;
      var c := ChunkAt(offset, fileOffset, endOffset, bs);
      var (blockIndex, startWriteAt, restOfBlock) := (c.blockIndex, c.startWriteAt, c.restOfBlock);
      ghost var next := Advance(offset, fileOffset, endOffset, bs);
      ghost var ctx := Context();
      ghost var v0 := State();
      ghost var b0 := buffer[..];
      var got := Fetch(inum, blockIndex, false);
      if got.Err? {
        assert ReadChunk(ctx, v0, inum, b0, fileOffset, offset) == Err(got.fault);
        return Err(got.fault);
      }
      var (addr, data) := got.value;
      ghost var v2 := State();
      if |data| < restOfBlock {
        assert ReadChunk(ctx, v0, inum, b0, fileOffset, offset) == Err(IndexFault);
        return Err(IndexFault);
      }
      assert buffer[..] == b0;
      var from := offset - fileOffset;
      assert from == BufferIndex(offset, fileOffset, 0);
      CopyInto(buffer, from, data[startWriteAt .. restOfBlock]);
      ghost var b1 := buffer[..];
      CacheBlock(addr, data);
      assert State() == Volumes.CacheBlock(v2, addr, data) && buffer[..] == b1;
      ReadChunkIs(ctx, v0, inum, b0, fileOffset, offset, c, addr, data, v2);
      assert ReadChunk(ctx, v0, inum, b0, fileOffset, offset) == Ok((buffer[..], State()));
      r := Ok(offset + (restOfBlock - startWriteAt));
    }
  }

  /** A set that is not empty has a member. */
  lemma Member(s: set<int>) returns (x: int)
    requires s != {}
    ensures x in s
  {
    if forall y :: y !in s {
      assert false;
    }
    x :| x in s;
  }

  /** mount's stages: the master block read from the opened device, then
      the tables loaded from it with the block count read. */
  lemma MountIs(filename: string, image: seq<seq<byte>>, m0: MasterBlock, d0: Disk)
    requires NewMasterBlock(DefaultBlockCount, FilenameToBlocksize(filename)) == Ok(m0)
    requires d0 == Disk(image, |image|, FilenameToBlocksize(NormalizeFilename(filename, Dev.DefaultBlockSize)))
    ensures Images.Mount(filename, image)
         == match ReadMaster(d0, m0, true)
            case Err(f) => Err(f)
            case Ok(m) => Images.LoadTables(m, d0.(numBlocks := m.blockCount))
  {
  }

  /** unmount's stages add up to the saved image. */
  lemma UnmountIs(m: MasterBlock, fileName: string, v: Vol, d0: Disk, mb: seq<byte>, d1: Disk, d2: Disk, d3: Disk, d4: Disk)
    requires NewDevice(m.blockCount, m.blockSize) == Ok(d0) && PackMaster(m) == Ok(mb)
    requires WriteDisk(d0, 0, mb, true) == Ok(d1)
    requires ApplyWrites(d1, BitmapPlan(v.bits, m.blockSize)) == Ok(d2)
    requires PackTable(d2, v.inodes, TableStart(m), 0, m.inodeCount) == Ok(d3)
    requires FlushCache(d3, v.cache) == Ok(d4)
    ensures Images.Unmount(m, fileName, v) == Ok((NormalizeFilename(fileName, m.blockSize), d4))
  {
  }

  /** One turn of the write loop. */
  lemma WriteFromStep(ctx: Ctx, v: Vol, inum: int, buf: seq<byte>, start: nat, offset: nat, w: Vol)
    requires 0 <= inum < |v.inodes| && At(offset, start, |buf|, ctx.blockSize) && offset < start + |buf|
    requires WriteChunk(ctx, v, inum, buf, start, offset) == Ok(w)
    ensures WriteFrom(ctx, v, inum, buf, start, offset)
         == WriteFrom(ctx, w, inum, buf, start, Advance(offset, start, start + |buf|, ctx.blockSize))
  {
  }

  /** One turn of the read loop. */
  lemma ReadFromStep(ctx: Ctx, v: Vol, inum: int, buf: seq<byte>, start: nat, offset: nat, b: seq<byte>, w: Vol,
                     goal: Result<(seq<byte>, Vol)>)
    requires 0 <= inum < |v.inodes| && At(offset, start, |buf|, ctx.blockSize) && offset < start + |buf|
    requires ReadChunk(ctx, v, inum, buf, start, offset) == Ok((b, w))
    requires goal == ReadFrom(ctx, v, inum, buf, start, offset)
    ensures |b| == |buf| && 0 <= inum < |w.inodes|
    ensures At(Advance(offset, start, start + |buf|, ctx.blockSize), start, |b|, ctx.blockSize)
    ensures goal == ReadFrom(ctx, w, inum, b, start, Advance(offset, start, start + |buf|, ctx.blockSize))
  {
  }

  /** The copy loop of INode.write: src into a copy of dst from position
      at on. */
  method Overwrite(dst: seq<byte>, at: nat, src: seq<byte>) returns (r: seq<byte>)
    requires at + |src| <= |dst|
    ensures r == Splice(dst, at, src)
  {
    r := dst;
    var i := 0;
    while i < |src|
      invariant 0 <= i <= |src| && |r| == |dst|
      invariant forall q :: 0 <= q < |r| ==> r[q] == if at <= q < at + i then src[q - at] else dst[q]
    {
      r := r[at + i := src[i]];
      i := i + 1;
    }
  }

  /** The copy loop of INode.read: src into the caller's buffer from
      position at on. */
  method CopyInto(buffer: array<byte>, at: nat, src: seq<byte>)
    requires at + |src| <= buffer.Length
    modifies buffer
    ensures buffer[..] == Splice(old(buffer[..]), at, src)
  {
    var i := 0;
    while i < |src|
      invariant 0 <= i <= |src|
      invariant forall q :: 0 <= q < buffer.Length ==>
        buffer[q] == if at <= q < at + i then src[q - at] else old(buffer[q])
    {
      buffer[at + i] := src[i];
      i := i + 1;
    }
  }
}
