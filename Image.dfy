/** The whole-volume operations of FileSystem.py as values: the image
    unmount saves, the state mount rebuilds from an image, and
    createFileSystem. */
module Images {
  import opened Bytes
  import opened Outcomes
  import Text
  import opened BlockDevice
  import Dev = BlockDevice
  import opened MasterBlocks
  import opened INodes
  import opened BlockMaps
  import opened InodeMaps
  import opened Volumes

  /** The block the inode table starts at: 1 + blockMapBlockCount, in
      both InodeMap.pack and InodeMap.unpack. */
  function TableStart(m: MasterBlock): int
  {
    1 + m.blockMapBlockCount
  }

  /** The first block after the master block, the bitmap and the inode
      table. */
  function MetaEnd(m: MasterBlock): int
  {
    TableStart(m) + m.inodeCount
  }

  // ---------------------------------------------------------------------
  // unmount

  /** BlockDevice(create=True) before any write: blockCount zero blocks.
      A count below 1 only prints, leaving an object without a backing
      file (the first write_block is then an AttributeError); a block size
      below 1 makes the seek that sizes the file fail. */
  function NewDevice(blockCount: int, blockSize: int): (r: Result<Disk>)
    ensures r.Ok? <==> blockCount > 0 && blockSize > 0
    ensures r.Ok? ==> Uniform(r.value) && r.value.numBlocks == |r.value.blocks| == blockCount
                      && r.value.blockSize == blockSize
  {
    if blockCount <= 0 then Err(LookupFault)
    else if blockSize <= 0 then Err(DeviceFault)
    else Ok(Disk(seq(blockCount, _ => Zeros(blockSize)), blockCount, blockSize))
  }

  /** Every dirty cached block can be written with padding. */
  predicate FlushWritable(d: Disk, cache: map<int, Entry>) {
    forall k :: k in cache && cache[k].dirty ==> Writable(d, k, cache[k].data, true)
  }

  /** The loop of unmount over blockCache: every dirty entry written to its
      block, padded. The entries name distinct blocks and a write does not
      change which writes are legal, so the dictionary's order does not
      change the outcome; one illegal write fails the whole. */
  function FlushCache(d: Disk, cache: map<int, Entry>): (r: Result<Disk>)
  {
    if !FlushWritable(d, cache) then Err(DeviceFault)
    else Ok(d.(blocks := seq(|d.blocks|, i requires 0 <= i < |d.blocks| =>
      if i in cache && cache[i].dirty then Padded(cache[i].data, d.blockSize, true) else d.blocks[i])))
  }

  /** After the flush each dirty block reads back as its padded cache
      entry, every other block as before, and the device keeps its shape;
      it fails exactly when some dirty entry is not a legal write. */
  lemma FlushReads(d: Disk, cache: map<int, Entry>, k: int)
    requires Uniform(d)
    ensures FlushCache(d, cache).Ok? <==> FlushWritable(d, cache)
    ensures FlushCache(d, cache).Ok? ==>
      var d' := FlushCache(d, cache).value;
      && Uniform(d') && |d'.blocks| == |d.blocks| && d'.numBlocks == d.numBlocks && d'.blockSize == d.blockSize
      && (k in cache && cache[k].dirty ==> ReadDisk(d', k, d.blockSize) == Ok(Padded(cache[k].data, d.blockSize, true)))
      && (!(k in cache && cache[k].dirty) ==> ReadDisk(d', k, d.blockSize) == ReadDisk(d, k, d.blockSize))
      && (0 <= k < |d.blocks| && !(k in cache && cache[k].dirty) ==> d'.blocks[k] == d.blocks[k])
  {
  }

  /** The device after the dirty entries whose blocks are in done have
      been written, as unmount's loop leaves it part way. */
  function Flushed(d: Disk, cache: map<int, Entry>, done: set<int>): (r: Disk)
    ensures |r.blocks| == |d.blocks| && r.numBlocks == d.numBlocks && r.blockSize == d.blockSize
  {
    d.(blocks := seq(|d.blocks|, i requires 0 <= i < |d.blocks| =>
      if i in done && i in cache && cache[i].dirty then Padded(cache[i].data, d.blockSize, true) else d.blocks[i]))
  }

  /** One more entry of the loop: a dirty one is one write_block, a clean
      one changes nothing. */
  lemma FlushStep(d: Disk, cache: map<int, Entry>, done: set<int>, k: int)
    requires k in cache && k !in done
    ensures Writable(Flushed(d, cache, done), k, cache[k].data, true) == Writable(d, k, cache[k].data, true)
    ensures cache[k].dirty && Writable(d, k, cache[k].data, true) ==>
      WriteDisk(Flushed(d, cache, done), k, cache[k].data, true) == Ok(Flushed(d, cache, done + {k}))
    ensures !cache[k].dirty ==> Flushed(d, cache, done + {k}) == Flushed(d, cache, done)
  {
    var a := Flushed(d, cache, done);
    var b := Flushed(d, cache, done + {k});
    if cache[k].dirty && Writable(d, k, cache[k].data, true) {
      assert a.blocks[k := Padded(cache[k].data, d.blockSize, true)] == b.blocks;
    } else if !cache[k].dirty {
      assert a.blocks == b.blocks;
    }
  }

  /** The whole loop: every entry done is the flush, once every dirty entry
      was a legal write. */
  lemma FlushAll(d: Disk, cache: map<int, Entry>)
    requires FlushWritable(d, cache)
    ensures FlushCache(d, cache) == Ok(Flushed(d, cache, cache.Keys))
  {
    assert FlushCache(d, cache).value.blocks == Flushed(d, cache, cache.Keys).blocks;
  }

  /** unmount: a new device named after the file system and its block
      size, holding the packed master block in block 0, the packed bitmap,
      the inode table from TableStart on, and then every dirty cached
      block. */
  function Unmount(m: MasterBlock, fileName: string, v: Vol): (r: Result<(string, Disk)>)
    ensures r.Ok? ==> m.blockSize > 0 && m.blockCount > 0 && MasterBlocks.Packable(m)
    ensures r.Ok? ==> r.value.0 == NormalizeFilename(fileName, m.blockSize)
  {
    match NewDevice(m.blockCount, m.blockSize)
    case Err(f) => Err(f)
    case Ok(d0) =>
      match PackMaster(m)
      case Err(f) => Err(f)
      case Ok(mb) =>
        match WriteDisk(d0, 0, mb, true)
        case Err(f) => Err(f)
        case Ok(d1) =>
          match ApplyWrites(d1, BitmapPlan(v.bits, m.blockSize))
          case Err(f) => Err(f)
          case Ok(d2) =>
            match PackTable(d2, v.inodes, TableStart(m), 0, m.inodeCount)
            case Err(f) => Err(f)
            case Ok(d3) =>
              match FlushCache(d3, v.cache)
              case Err(f) => Err(f)
              case Ok(d4) => Ok((NormalizeFilename(fileName, m.blockSize), d4))
  }

  // ---------------------------------------------------------------------
  // mount

  /** A mounted file system: its master block, its state (the cache starts
      empty), the device misses are read from, and the inode number of the
      current directory, the root. */
  datatype Mounted = Mounted(master: MasterBlock, vol: Vol, disk: Disk, cwd: int)

  /** MasterBlock.unpack on the opened device: block 0, read into a buffer
      of the block size m0 has, replaces the recorded fields of m0. A block
      size read that is not positive makes the next bytearray or range step
      fail. With recount set the bitmap block count is recomputed from the
      block count read; without it, as written, it keeps the value m0 has. */
  function ReadMaster(d: Disk, m0: MasterBlock, recount: bool): (r: Result<MasterBlock>)
    ensures r.Ok? ==> r.value.blockSize > 0
  {
    match ReadDisk(d, 0, m0.blockSize)
    case Err(f) => Err(f)
    case Ok(b) =>
      match UnpackMaster(m0, b)
      case Err(f) => Err(f)
      case Ok(m1) =>
        if m1.blockSize <= 0 then Err(ValueFault)
        else if recount then Ok(m1.(blockMapBlockCount := BitmapBlocks(m1.blockCount, m1.blockSize)))
        else Ok(m1)
  }

  /** The rest of mount once the master block is read: the bitmap and the
      inode table read with the block size and counts of m, and the root
      inode as current directory. With corrected set the bitmap is read as
      intended; without it, as BlockMap.unpack is written. */
  function LoadTablesAs(m: MasterBlock, d: Disk, corrected: bool): (r: Result<Mounted>)
    requires m.blockSize > 0
  {
    match (if corrected then ReadBitmap(d, m.blockCount, m.blockSize) else ReadBitmapAsWritten(d, m.blockCount, m.blockSize))
    case Err(f) => Err(f)
    case Ok(bits) =>
      match ReadTable(d, FreshTable(), TableStart(m), m.blockSize, 0, m.inodeCount)
      case Err(f) => Err(f)
      case Ok(inodes) =>
        match PyIndex(m.rootDirAddress, |inodes|)
        case None => Err(IndexFault)
        case Some(root) => Ok(Mounted(m, Vol(bits, inodes, map[]), d, root))
  }

  /** The rest of mount, with the bitmap read as intended. */
  function LoadTables(m: MasterBlock, d: Disk): Result<Mounted>
    requires m.blockSize > 0
  {
    LoadTablesAs(m, d, true)
  }

  /** mount(filename) given the blocks of the host file the device opens:
      a FileSystem with the block size the name gives and the default
      block count, whose master block is replaced by block 0, the device's
      block count set to the one read, then the tables loaded. With
      corrected cleared this is the code as written: the bitmap block count
      of the default master block is kept and the bitmap is read by
      BlockMap.unpack as written. */
  function MountAs(filename: string, image: seq<seq<byte>>, corrected: bool): (r: Result<Mounted>)
    ensures r.Ok? ==> FilenameToBlocksize(filename) != 0 && r.value.vol.cache == map[] && r.value.disk.blocks == image
                      && r.value.master.blockSize > 0
    ensures r.Ok? && !corrected ==>
      r.value.master.blockMapBlockCount == BitmapBlocks(DefaultBlockCount, FilenameToBlocksize(filename))
    ensures r.Ok? && corrected ==>
      r.value.master.blockMapBlockCount == BitmapBlocks(r.value.master.blockCount, r.value.master.blockSize)
  {
    match NewMasterBlock(DefaultBlockCount, FilenameToBlocksize(filename))
    case Err(f) => Err(f)
    case Ok(m0) =>
      var d := Disk(image, |image|, FilenameToBlocksize(NormalizeFilename(filename, Dev.DefaultBlockSize)));
      match ReadMaster(d, m0, corrected)
      case Err(f) => Err(f)
      case Ok(m) => LoadTablesAs(m, d.(numBlocks := m.blockCount), corrected)
  }

  /** mount, with the bitmap block count recomputed and the bitmap read as
      intended. */
  function Mount(filename: string, image: seq<seq<byte>>): Result<Mounted>
  {
    MountAs(filename, image, true)
  }

  /** The device mount opens is named with the default block size, which
      only adds a missing ".dev": its block size is the one the name
      gives. */
  lemma OpenBlocksize(filename: string)
    ensures FilenameToBlocksize(NormalizeFilename(filename, Dev.DefaultBlockSize)) == FilenameToBlocksize(filename)
  {
    NormalizeDefault(filename);
    if '.' !in filename {
      Text.SplitNoSep(filename, '.');
      assert filename + ".dev" == filename + ['.'] + "dev";
      Text.SplitPrefix(filename, '.', "dev");
      Text.SplitNoSep("dev", '.');
      assert !Text.IsDigit("dev"[0]);
    }
  }

  /** A volume of 512 blocks of 126 bytes has its inode table packed from
      block 2 and ending before block 258, while mount as written computes
      block 3: the bitmap block count it keeps is the one for 1024 blocks. */
  lemma MountTableAsWritten()
    ensures NewMasterBlock(512, 126).Ok? && NewMasterBlock(DefaultBlockCount, 126).Ok?
    ensures TableStart(NewMasterBlock(512, 126).value) == 2 && MetaEnd(NewMasterBlock(512, 126).value) == 258
    ensures TableStart(NewMasterBlock(DefaultBlockCount, 126).value) == 3
  {
    CeilDivUnique(512, 8, 64);
    CeilDivUnique(64, 126, 1);
    CeilDivUnique(1024, 8, 128);
    CeilDivUnique(128, 126, 2);
  }

  /** Keeping the bitmap block count of the default master block, as
      written, and recomputing it from what block 0 records read the same
      master block but for that count. */
  lemma ReadMasterKept(d: Disk, m0: MasterBlock)
    ensures ReadMaster(d, m0, false).Ok? <==> ReadMaster(d, m0, true).Ok?
    ensures ReadMaster(d, m0, false).Ok? ==>
      && ReadMaster(d, m0, false).value.blockMapBlockCount == m0.blockMapBlockCount
      && ReadMaster(d, m0, true).value
         == ReadMaster(d, m0, false).value.(blockMapBlockCount := BitmapBlocks(ReadMaster(d, m0, false).value.blockCount,
                                                                             ReadMaster(d, m0, false).value.blockSize))
  {
  }

  /** The master block read fits the code as written: its recomputed
      bitmap block count is the default one, and its bitmap is at least a
      byte and fits one block. */
  predicate KeptFits(m: MasterBlock, m0: MasterBlock) {
    m.blockMapBlockCount == m0.blockMapBlockCount && 8 <= m.blockCount && m.blockSize > 0
    && CeilDiv(m.blockCount, 8) <= m.blockSize
  }

  /** Mount as written and the corrected mount agree whenever the master
      block read fits the code as written; when both succeed, they agree
      only if the recomputed count is the default one. */
  lemma MountAsKept(filename: string, image: seq<seq<byte>>, m0: MasterBlock, d: Disk)
    requires NewMasterBlock(DefaultBlockCount, FilenameToBlocksize(filename)) == Ok(m0)
    requires d == Disk(image, |image|, FilenameToBlocksize(NormalizeFilename(filename, Dev.DefaultBlockSize)))
    ensures (ReadMaster(d, m0, true).Ok? ==> KeptFits(ReadMaster(d, m0, true).value, m0))
            ==> MountAs(filename, image, false) == Mount(filename, image)
    ensures MountAs(filename, image, false).Ok? && Mount(filename, image).Ok?
            && MountAs(filename, image, false) == Mount(filename, image)
            ==> ReadMaster(d, m0, true).value.blockMapBlockCount == m0.blockMapBlockCount
  {
    ReadMasterKept(d, m0);
    if ReadMaster(d, m0, true).Ok? {
      var m := ReadMaster(d, m0, true).value;
      if KeptFits(m, m0) {
        AsWrittenBitmapAgrees(d.(numBlocks := m.blockCount), m.blockCount, m.blockSize);
      }
    }
  }

  /** Mount as written of what unmount saved keeps the bitmap block count
      of 1024 blocks: it loads the bitmap as written and the inode table as
      if the table started right after that many bitmap blocks. */
  lemma MountAsWrittenUnmount(m: MasterBlock, fileName: string, v: Vol, name: string)
    requires Unmount(m, fileName, v).Ok?
    requires FilenameToBlocksize(name) == m.blockSize && m.blockSize > 0 && m.blockMapBlockCount >= 0
    requires 0 in v.cache ==> !v.cache[0].dirty
    ensures MountAs(name, Unmount(m, fileName, v).value.1.blocks, false)
         == LoadTablesAs(m.(blockMapBlockCount := BitmapBlocks(DefaultBlockCount, m.blockSize)), Unmount(m, fileName, v).value.1, false)
  {
    var s := UnmountStages(m, fileName, v);
    StagesShape(m, v, s);
    var m0 := NewMasterBlock(DefaultBlockCount, m.blockSize).value;
    SavedMaster(m, v, s, m0);
    OpenBlocksize(name);
    var d := s.d4;
    assert Disk(d.blocks, |d.blocks|, m.blockSize) == d;
    assert ReadDisk(d, 0, m.blockSize) == Ok(d.blocks[0]);
    assert d.(numBlocks := m.blockCount) == d;
  }

  /** A volume of 16384 blocks of 1024 bytes, unmounted and mounted as
      written, fails in the bitmap read: its second bitmap block indexes
      past the first block's flags. */
  lemma MountAsWrittenLarge(fileName: string, v: Vol, name: string)
    requires NewMasterBlock(16384, 1024).Ok?
    requires Unmount(NewMasterBlock(16384, 1024).value, fileName, v).Ok?
    requires FilenameToBlocksize(name) == 1024 && (0 in v.cache ==> !v.cache[0].dirty)
    ensures MountAs(name, Unmount(NewMasterBlock(16384, 1024).value, fileName, v).value.1.blocks, false) == Err(IndexFault)
  {
    var m := NewMasterBlock(16384, 1024).value;
    MountAsWrittenUnmount(m, fileName, v, name);
    var s := UnmountStages(m, fileName, v);
    StagesShape(m, v, s);
    UnpackAsWrittenOverrunsLarge(s.d4);
  }

  /** A volume of 512 blocks of 126 bytes with one flag per block, whose
      block 258 holds no dirty cached block: the code's pack writes the
      bitmap as the intended one does, but mount as written reads the
      inode table from block 3, one block late, so its last inode is read
      from the zero block 258 after the table and fails to decode. */
  lemma MountAsWrittenShifted(fileName: string, v: Vol, name: string)
    requires NewMasterBlock(512, 126).Ok?
    requires Unmount(NewMasterBlock(512, 126).value, fileName, v).Ok? && |v.bits| == 512
    requires FilenameToBlocksize(name) == 126
    requires (0 in v.cache ==> !v.cache[0].dirty) && (258 in v.cache ==> !v.cache[258].dirty)
    ensures BitmapPlanAsWritten(v.bits, 126) == BitmapPlan(v.bits, 126)
    ensures MountAs(name, Unmount(NewMasterBlock(512, 126).value, fileName, v).value.1.blocks, false).Err?
  {
    var m := NewMasterBlock(512, 126).value;
    MountTableAsWritten();
    CeilDivUnique(512, 8, 64);
    BitmapPlansAgree(v.bits, 126);
    MountAsWrittenUnmount(m, fileName, v, name);
    var s := UnmountStages(m, fileName, v);
    StagesShape(m, v, s);
    SavedUnwritten(m, v, s, 258);
    ZerosDoNotDecode();
    ReadTableFails(s.d4, FreshTable(), 3, 126, 0, DefaultInodeCount, 255);
    AsWrittenSingleRead(s.d4, 512);
  }

  /** A block past the bitmap and the table that no dirty cached block
      names is saved as zeros. */
  lemma SavedUnwritten(m: MasterBlock, v: Vol, s: Stages, k: int)
    requires m.blockSize > 0 && 0 < k < |s.d1.blocks| && k < |s.d4.blocks| && s.d1.blocks[k] == Zeros(m.blockSize)
    requires k > BitmapBlocks(|v.bits|, m.blockSize) && !(TableStart(m) <= k < MetaEnd(m))
    requires Uniform(s.d1) && ApplyWrites(s.d1, BitmapPlan(v.bits, m.blockSize)) == Ok(s.d2)
    requires PackTable(s.d2, v.inodes, TableStart(m), 0, m.inodeCount) == Ok(s.d3)
    requires FlushCache(s.d3, v.cache) == Ok(s.d4) && !(k in v.cache && v.cache[k].dirty)
    ensures s.d4.blocks[k] == Zeros(m.blockSize)
  {
    BitmapUntouched(s.d1, v.bits, m.blockSize, k);
    PackTableUntouched(s.d2, v.inodes, TableStart(m), m.inodeCount, k);
    FlushReads(s.d3, v.cache, k);
  }

  /** A zero block is no inode: its type tag 0 names no INodeType. */
  lemma ZerosDoNotDecode()
    ensures UnpackINode(Zeros(126)).Err?
  {
    var b := Zeros(126);
    assert b[10..11] == [0];
    assert DecodeUnsigned([0]) == 0;
    assert TypeOfTag(DecodeSigned(b[10..11])) == None;
  }

  /** A table read fails when some block it reaches holds no inode. */
  lemma {:induction false} ReadTableFails(d: Disk, inodes: seq<INode>, start: int, blockSize: int, i: nat, count: int, k: int)
    requires i <= k < count && k < |inodes|
    requires ReadDisk(d, start + k, blockSize).Ok? ==> UnpackINode(ReadDisk(d, start + k, blockSize).value).Err?
    ensures ReadTable(d, inodes, start, blockSize, i, count).Err?
    decreases k - i
  {
    var b := ReadDisk(d, start + i, blockSize);
    if i < k && b.Ok? && UnpackINode(b.value).Ok? {
      ReadTableFails(d, inodes[i := UnpackINode(b.value).value], start, blockSize, i + 1, count, k);
    }
  }

  // ---------------------------------------------------------------------
  // Mounting what unmount saved

  /** Blocks lo .. hi-1 read the same from d and e. */
  predicate SameReads(d: Disk, e: Disk, lo: int, hi: int, blockSize: int) {
    forall k :: lo <= k < hi ==> ReadDisk(d, k, blockSize) == ReadDisk(e, k, blockSize)
  }

  /** The reads of a table depend only on the blocks it is read from. */
  lemma {:induction false} ReadTableFrame(d: Disk, e: Disk, inodes: seq<INode>, start: int, blockSize: int, i: nat, count: int)
    requires SameReads(d, e, start + i, start + count, blockSize)
    ensures ReadTable(d, inodes, start, blockSize, i, count) == ReadTable(e, inodes, start, blockSize, i, count)
    decreases count - i
  {
    if i < count && i < |inodes| {
      assert ReadDisk(d, start + i, blockSize) == ReadDisk(e, start + i, blockSize);
      var b := ReadDisk(d, start + i, blockSize);
      if b.Ok? && UnpackINode(b.value).Ok? {
        ReadTableFrame(d, e, inodes[i := UnpackINode(b.value).value], start, blockSize, i + 1, count);
      }
    }
  }

  /** A plan stays on a device whose blocks it names are unchanged. */
  lemma OnDiskFrame(d: Disk, e: Disk, w: seq<BlockWrite>)
    requires OnDisk(d, w) && e.numBlocks == d.numBlocks && e.blockSize == d.blockSize && |e.blocks| == |d.blocks|
    requires forall k :: 0 <= k < |w| ==> e.blocks[w[k].block] == d.blocks[w[k].block]
    ensures OnDisk(e, w)
  {
  }

  /** A successful pack of the table keeps the device's shape and every
      block outside start .. start+count-1. */
  lemma PackTableUntouched(d: Disk, inodes: seq<INode>, start: int, count: int, k: int)
    requires PackTable(d, inodes, start, 0, count).Ok?
    ensures var e := PackTable(d, inodes, start, 0, count).value;
      |e.blocks| == |d.blocks| && e.numBlocks == d.numBlocks && e.blockSize == d.blockSize
    ensures Uniform(d) ==> Uniform(PackTable(d, inodes, start, 0, count).value)
    ensures 0 <= k < |d.blocks| && !(start <= k < start + count) ==>
      PackTable(d, inodes, start, 0, count).value.blocks[k] == d.blocks[k]
  {
    if count > 0 {
      PackTableWrites(d, inodes, start, 0, count);
      var w := TableWrites(inodes, start, count);
      assert w[0..] == w;
      if Uniform(d) {
        ApplyWritesUniform(d, w);
      }
      if 0 <= k < |d.blocks| && !(start <= k < start + count) {
        ApplyWritesUntouched(d, w, k);
      }
    }
  }

  /** A successful bitmap plan keeps the device's shape and every block
      outside 1 .. the bitmap block count. */
  lemma BitmapUntouched(d: Disk, bits: seq<bool>, blockSize: int, k: int)
    requires blockSize > 0 && ApplyWrites(d, BitmapPlan(bits, blockSize)).Ok?
    ensures Uniform(d) ==> Uniform(ApplyWrites(d, BitmapPlan(bits, blockSize)).value)
    ensures 0 <= k < |d.blocks| && (k < 1 || k > BitmapBlocks(|bits|, blockSize)) ==>
      ApplyWrites(d, BitmapPlan(bits, blockSize)).value.blocks[k] == d.blocks[k]
  {
    BitmapPlanBlocks(bits, blockSize);
    if Uniform(d) {
      ApplyWritesUniform(d, BitmapPlan(bits, blockSize));
    }
    if 0 <= k < |d.blocks| && (k < 1 || k > BitmapBlocks(|bits|, blockSize)) {
      ApplyWritesUntouched(d, BitmapPlan(bits, blockSize), k);
    }
  }

  /** The stages of a successful unmount, as values. */
  datatype Stages = Stages(d1: Disk, d2: Disk, d3: Disk, d4: Disk, mb: seq<byte>)

  /** The intermediate devices of a successful unmount. */
  lemma UnmountStages(m: MasterBlock, fileName: string, v: Vol) returns (s: Stages)
    requires Unmount(m, fileName, v).Ok?
    ensures m.blockSize > 0 && m.blockCount > 0 && MasterBlocks.Packable(m)
    ensures PackMaster(m) == Ok(s.mb)
    ensures Uniform(s.d1) && |s.d1.blocks| == s.d1.numBlocks == m.blockCount && s.d1.blockSize == m.blockSize
    ensures s.d1.blocks[0] == Padded(s.mb, m.blockSize, true)
    ensures forall k :: 0 < k < |s.d1.blocks| ==> s.d1.blocks[k] == Zeros(m.blockSize)
    ensures ApplyWrites(s.d1, BitmapPlan(v.bits, m.blockSize)) == Ok(s.d2)
    ensures PackTable(s.d2, v.inodes, TableStart(m), 0, m.inodeCount) == Ok(s.d3)
    ensures FlushCache(s.d3, v.cache) == Ok(s.d4) && Unmount(m, fileName, v).value.1 == s.d4
  {
    var d0 := NewDevice(m.blockCount, m.blockSize).value;
    var mb := PackMaster(m).value;
    var d1 := WriteDisk(d0, 0, mb, true).value;
    var d2 := ApplyWrites(d1, BitmapPlan(v.bits, m.blockSize)).value;
    var d3 := PackTable(d2, v.inodes, TableStart(m), 0, m.inodeCount).value;
    var d4 := FlushCache(d3, v.cache).value;
    s := Stages(d1, d2, d3, d4, mb);
  }

  /** The shape of the saved device, stage by stage. */
  lemma StagesShape(m: MasterBlock, v: Vol, s: Stages)
    requires m.blockSize > 0
    requires Uniform(s.d1) && |s.d1.blocks| == s.d1.numBlocks == m.blockCount && s.d1.blockSize == m.blockSize
    requires ApplyWrites(s.d1, BitmapPlan(v.bits, m.blockSize)) == Ok(s.d2)
    requires PackTable(s.d2, v.inodes, TableStart(m), 0, m.inodeCount) == Ok(s.d3)
    requires FlushCache(s.d3, v.cache) == Ok(s.d4)
    ensures Uniform(s.d3) && |s.d3.blocks| == s.d3.numBlocks == m.blockCount && s.d3.blockSize == m.blockSize
    ensures Uniform(s.d4) && |s.d4.blocks| == s.d4.numBlocks == m.blockCount && s.d4.blockSize == m.blockSize
  {
    BitmapUntouched(s.d1, v.bits, m.blockSize, -1);
    PackTableUntouched(s.d2, v.inodes, TableStart(m), m.inodeCount, -1);
    FlushReads(s.d3, v.cache, -1);
  }

  /** What mount reads from block 0 of the saved image. */
  lemma SavedMaster(m: MasterBlock, v: Vol, s: Stages, base: MasterBlock)
    requires m.blockSize > 0 && m.blockMapBlockCount >= 0 && PackMaster(m) == Ok(s.mb)
    requires |s.d1.blocks| > 0 && s.d1.blocks[0] == Padded(s.mb, m.blockSize, true)
    requires ApplyWrites(s.d1, BitmapPlan(v.bits, m.blockSize)) == Ok(s.d2)
    requires PackTable(s.d2, v.inodes, TableStart(m), 0, m.inodeCount) == Ok(s.d3)
    requires Uniform(s.d3) && FlushCache(s.d3, v.cache) == Ok(s.d4) && (0 in v.cache ==> !v.cache[0].dirty)
    ensures |s.d4.blocks| > 0 && s.d4.blocks[0] == Padded(s.mb, m.blockSize, true)
    ensures UnpackMaster(base, s.d4.blocks[0]) == Ok(m.(blockMapBlockCount := base.blockMapBlockCount))
  {
    BitmapUntouched(s.d1, v.bits, m.blockSize, 0);
    PackTableUntouched(s.d2, v.inodes, TableStart(m), m.inodeCount, 0);
    FlushReads(s.d3, v.cache, 0);
    var p := Padded(s.mb, m.blockSize, true);
    assert p == s.mb + p[MasterBlocks.RecordSize..];
    MasterBlocks.UnpackPack(m, base, p[MasterBlocks.RecordSize..]);
  }

  /** What mount reads as the bitmap of the saved image: the bitmap blocks
      are left alone by the table and by the dirty blocks. */
  lemma SavedBitmap(m: MasterBlock, v: Vol, s: Stages)
    requires m.blockSize > 0 && m.inodeCount >= 0 && m.blockMapBlockCount == BitmapBlocks(|v.bits|, m.blockSize)
    requires |s.d1.blocks| == s.d1.numBlocks && s.d1.blockSize == m.blockSize
    requires ApplyWrites(s.d1, BitmapPlan(v.bits, m.blockSize)) == Ok(s.d2)
    requires PackTable(s.d2, v.inodes, TableStart(m), 0, m.inodeCount) == Ok(s.d3)
    requires Uniform(s.d3) && FlushCache(s.d3, v.cache) == Ok(s.d4)
    requires forall k :: k in v.cache && v.cache[k].dirty ==> k >= MetaEnd(m)
    ensures ReadBitmap(s.d4, |v.bits|, m.blockSize) == Ok(v.bits)
  {
    var w := BitmapPlan(v.bits, m.blockSize);
    BitmapPlanBlocks(v.bits, m.blockSize);
    ApplyWritesOnDisk(s.d1, w, 0, |w|);
    assert w[0..|w|] == w;
    PackTableUntouched(s.d2, v.inodes, TableStart(m), m.inodeCount, -1);
    FlushReads(s.d3, v.cache, -1);
    forall k | 0 <= k < |w|
      ensures s.d4.blocks[w[k].block] == s.d2.blocks[w[k].block]
    {
      PackTableUntouched(s.d2, v.inodes, TableStart(m), m.inodeCount, w[k].block);
      FlushReads(s.d3, v.cache, w[k].block);
    }
    OnDiskFrame(s.d2, s.d4, w);
    ReadBitmapRestores(s.d4, v.bits);
  }

  /** What mount reads as the inode table of the saved image: the table
      blocks are left alone by the dirty blocks. */
  lemma SavedTable(m: MasterBlock, v: Vol, s: Stages)
    requires 0 <= m.inodeCount <= |FreshTable()|
    requires forall j :: 0 <= j < m.inodeCount && j < |v.inodes| ==> |v.inodes[j].blockPtrs| == NumBlockPtrs
    requires PackTable(s.d2, v.inodes, TableStart(m), 0, m.inodeCount) == Ok(s.d3)
    requires Uniform(s.d3) && FlushCache(s.d3, v.cache) == Ok(s.d4) && s.d3.blockSize == m.blockSize
    requires forall k :: k in v.cache && v.cache[k].dirty ==> k >= MetaEnd(m)
    ensures m.inodeCount <= |v.inodes|
    ensures ReadTable(s.d4, FreshTable(), TableStart(m), m.blockSize, 0, m.inodeCount)
         == Ok(v.inodes[..m.inodeCount] + FreshTable()[m.inodeCount..])
  {
    UnpackPackTable(s.d2, v.inodes, FreshTable(), TableStart(m), m.inodeCount);
    forall k | TableStart(m) <= k < MetaEnd(m)
      ensures ReadDisk(s.d3, k, m.blockSize) == ReadDisk(s.d4, k, m.blockSize)
    {
      FlushReads(s.d3, v.cache, k);
    }
    ReadTableFrame(s.d3, s.d4, FreshTable(), TableStart(m), m.blockSize, 0, m.inodeCount);
  }

  /** Mounting what unmount saved restores the master block, the bitmap
      and the first inodeCount inodes (the rest of the table is fresh), with
      an empty cache and the root as current directory. It takes a name
      giving the saved block size, a bitmap count that fits the block
      count, one flag per block, no dirty cached block among the master,
      bitmap and inode blocks, and a table and root inside the 256 inodes
      mount starts from. */
  lemma MountUnmount(m: MasterBlock, fileName: string, v: Vol, name: string)
    requires Unmount(m, fileName, v).Ok?
    requires FilenameToBlocksize(name) == m.blockSize
    requires m.blockSize > 0 && m.blockMapBlockCount == BitmapBlocks(m.blockCount, m.blockSize)
    requires |v.bits| == m.blockCount
    requires forall k :: k in v.cache && v.cache[k].dirty ==> k >= MetaEnd(m)
    requires 0 <= m.inodeCount <= |FreshTable()| && 0 <= m.rootDirAddress < |FreshTable()|
    requires forall j :: 0 <= j < m.inodeCount && j < |v.inodes| ==> |v.inodes[j].blockPtrs| == NumBlockPtrs
    ensures m.inodeCount <= |v.inodes|
    ensures Mount(name, Unmount(m, fileName, v).value.1.blocks)
         == Ok(Mounted(m, Vol(v.bits, v.inodes[..m.inodeCount] + FreshTable()[m.inodeCount..], map[]),
                       Unmount(m, fileName, v).value.1, m.rootDirAddress))
  {
    var s := UnmountStages(m, fileName, v);
    StagesShape(m, v, s);
    BitmapBlocksMinimal(m.blockCount, m.blockSize);
    var m0 := NewMasterBlock(DefaultBlockCount, m.blockSize).value;
    SavedMaster(m, v, s, m0);
    SavedBitmap(m, v, s);
    SavedTable(m, v, s);
    MountSaved(name, s.d4, m, m0, v.bits, v.inodes[..m.inodeCount] + FreshTable()[m.inodeCount..]);
  }

  /** Mount of a device whose block 0, bitmap and table read as m, bits
      and inodes. */
  lemma MountSaved(name: string, d: Disk, m: MasterBlock, m0: MasterBlock, bits: seq<bool>, inodes: seq<INode>)
    requires FilenameToBlocksize(name) == m.blockSize && m.blockSize > 0
    requires NewMasterBlock(DefaultBlockCount, m.blockSize) == Ok(m0)
    requires m.blockMapBlockCount == BitmapBlocks(m.blockCount, m.blockSize)
    requires Uniform(d) && |d.blocks| == d.numBlocks == m.blockCount && d.blockSize == m.blockSize
    requires |d.blocks| > 0 && UnpackMaster(m0, d.blocks[0]) == Ok(m.(blockMapBlockCount := m0.blockMapBlockCount))
    requires ReadBitmap(d, m.blockCount, m.blockSize) == Ok(bits)
    requires ReadTable(d, FreshTable(), TableStart(m), m.blockSize, 0, m.inodeCount) == Ok(inodes)
    requires 0 <= m.rootDirAddress < |inodes|
    ensures Mount(name, d.blocks) == Ok(Mounted(m, Vol(bits, inodes, map[]), d, m.rootDirAddress))
  {
    OpenBlocksize(name);
    assert Disk(d.blocks, |d.blocks|, m.blockSize) == d;
    assert ReadDisk(d, 0, m.blockSize) == Ok(d.blocks[0]);
    var m1 := m.(blockMapBlockCount := m0.blockMapBlockCount);
    assert m1.(blockMapBlockCount := BitmapBlocks(m1.blockCount, m1.blockSize)) == m;
    assert d.(numBlocks := m.blockCount) == d;
  }

  // ---------------------------------------------------------------------
  // createFileSystem

  /** The bitmap createFileSystem saves: a fresh map of blockCount entries
      after allocateBlock has been called toAlloc times. */
  function Reserved(blockCount: int, toAlloc: int): seq<bool>
  {
    AllocateN(Falses(if blockCount < 0 then 0 else blockCount), if toAlloc < 0 then 0 else toAlloc)
  }

  /** createFileSystem: a master block for the given size, the blocks up
      to the end of the inode table reserved in a fresh bitmap, the fresh
      inode table, all saved by unmount. None when those blocks do not
      fit (the code prints and saves nothing). */
  function Create(fileName: string, blockCount: int, blockSize: int): (r: Result<Option<(string, Disk)>>)
  {
    match NewMasterBlock(blockCount, blockSize)
    case Err(f) => Err(f)
    case Ok(m) =>
      var toAlloc := m.inodeMapAddress + m.inodeCount;
      if toAlloc > m.blockCount then Ok(None)
      else
        match Unmount(m, fileName, Vol(Reserved(m.blockCount, toAlloc), FreshTable(), map[]))
        case Err(f) => Err(f)
        case Ok(saved) => Ok(Some(saved))
  }

  /** The reserved blocks are exactly the first toAlloc. */
  lemma ReservedFirst(blockCount: nat, toAlloc: nat)
    requires toAlloc <= blockCount
    ensures Reserved(blockCount, toAlloc) == seq(blockCount, i => i < toAlloc)
  {
    ReserveFirst(blockCount, toAlloc);
  }

  /** What a successful createFileSystem saves, in terms of unmount. */
  lemma CreateSaved(fileName: string, blockCount: int, blockSize: int)
    requires Create(fileName, blockCount, blockSize).Ok? && Create(fileName, blockCount, blockSize).value.Some?
    ensures blockSize != 0 && NewMasterBlock(blockCount, blockSize).Ok?
    ensures var m := NewMasterBlock(blockCount, blockSize).value;
      m.blockSize == blockSize && m.blockCount == blockCount &&
      0 <= MetaEnd(m) <= blockCount && m.inodeMapAddress + m.inodeCount == MetaEnd(m) &&
      Unmount(m, fileName, Vol(Reserved(blockCount, MetaEnd(m)), FreshTable(), map[]))
        == Ok(Create(fileName, blockCount, blockSize).value.value)
  {
    var m := NewMasterBlock(blockCount, blockSize).value;
    var toAlloc := m.inodeMapAddress + m.inodeCount;
    var v := Vol(Reserved(m.blockCount, toAlloc), FreshTable(), map[]);
    assert toAlloc <= m.blockCount;
    assert Create(fileName, blockCount, blockSize) == Ok(Some(Unmount(m, fileName, v).value));
    assert blockCount > 0 && blockSize > 0;
    BitmapBlocksMinimal(blockCount, blockSize);
    assert toAlloc == MetaEnd(m);
  }

  /** A new file system mounts as its master block, a bitmap with exactly
      the master, bitmap and inode blocks in use, and the fresh inode table
      whose root directory is the current directory. */
  lemma MountCreated(fileName: string, blockCount: int, blockSize: int, name: string)
    requires Create(fileName, blockCount, blockSize).Ok? && Create(fileName, blockCount, blockSize).value.Some?
    requires FilenameToBlocksize(name) == blockSize
    ensures blockSize > 0 && blockCount > 0 && NewMasterBlock(blockCount, blockSize).Ok?
    ensures var m := NewMasterBlock(blockCount, blockSize).value;
      var d := Create(fileName, blockCount, blockSize).value.value.1;
      Mount(name, d.blocks) == Ok(Mounted(m, Vol(seq(blockCount, i => i < MetaEnd(m)), FreshTable(), map[]), d, 0))
  {
    CreateSaved(fileName, blockCount, blockSize);
    var m := NewMasterBlock(blockCount, blockSize).value;
    var v := Vol(Reserved(blockCount, MetaEnd(m)), FreshTable(), map[]);
    var saved := Create(fileName, blockCount, blockSize).value.value;
    assert Unmount(m, fileName, v) == Ok(saved);
    BitmapBlocksMinimal(blockCount, blockSize);
    ReservedFirst(blockCount, MetaEnd(m));
    FreshTableWhole();
    MountUnmount(m, fileName, v, name);
  }

  /** Every fresh inode has its full pointer list, and the first 256 of
      the fresh table are all of it. */
  lemma FreshTableWhole()
    ensures forall j :: 0 <= j < 256 ==> |FreshTable()[j].blockPtrs| == NumBlockPtrs
    ensures FreshTable()[..256] + FreshTable()[256..] == FreshTable()
  {
    var t := FreshTable();
    assert t[..256] + t[256..] == t[..256];
  }
}
