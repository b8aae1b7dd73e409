/** The state a mounted file system works on, as values: the bitmap, the
    inode table and the write-back block cache, with the device it reads
    misses from. On it: the cache (retrieveBlock, cacheBlock), the
    indirect-block resolver and the inode read/write loops, and the
    whole-volume operations unmount, mount and createFileSystem. */
module Volumes {
  import opened Bytes
  import opened Outcomes
  import opened Arith
  import opened BlockDevice
  import opened MasterBlocks
  import opened INodes
  import opened BlockMaps
  import opened InodeMaps

  /** A cached block: its bytes, and whether unmount must write it. */
  datatype Entry = Entry(data: seq<byte>, dirty: bool)

  /** blockMap.blockMap, inodeMap.inodeMap and blockCache. */
  datatype Vol = Vol(bits: seq<bool>, inodes: seq<INode>, cache: map<int, Entry>)

  /** What the operations read but do not change: the device misses are
      read from (None before mount sets rBlockDev) and the master block's
      block size. */
  datatype Ctx = Ctx(disk: Option<Disk>, blockSize: int)

  /** ptrsPerBlock: blockSize // 4. */
  function Ppb(ctx: Ctx): int
  {
    FloorDiv(ctx.blockSize, 4)
  }

  /** The number of pointers a pointer block holds (range(ptrsPerBlock) is
      empty for a negative count). */
  function PtrCount(ctx: Ctx): nat
  {
    if Ppb(ctx) < 0 then 0 else Ppb(ctx)
  }

  // ---------------------------------------------------------------------
  // The block cache

  /** retrieveBlock(k, dirty): a hit returns the cached bytes and raises,
      never clears, the dirty flag; a miss reads block k from the device
      into a fresh one-block buffer and caches it with the given flag. */
  function Retrieve(ctx: Ctx, v: Vol, k: int, dirty: bool): (r: Result<(seq<byte>, Vol)>)
    ensures k in v.cache ==> r == Ok((v.cache[k].data,
      v.(cache := v.cache[k := Entry(v.cache[k].data, v.cache[k].dirty || dirty)])))
    ensures k !in v.cache ==>
      (r.Ok? <==> ctx.disk.Some? && ctx.blockSize >= 0 && Readable(ctx.disk.value, k, ctx.blockSize))
    ensures k !in v.cache && r.Ok? ==>
      r.value.0 == ctx.disk.value.blocks[k] && r.value.1 == v.(cache := v.cache[k := Entry(r.value.0, dirty)])
  {
    if k in v.cache then
      var e := v.cache[k];
      if !e.dirty && dirty then Ok((e.data, v.(cache := v.cache[k := Entry(e.data, true)])))
      else
        assert v.cache[k := Entry(e.data, e.dirty || dirty)] == v.cache;
        Ok((e.data, v))
    else if ctx.disk.None? then Err(LookupFault)
    else if ctx.blockSize < 0 then Err(ValueFault)
    else match ReadDisk(ctx.disk.value, k, ctx.blockSize)
      case Err(f) => Err(f)
      case Ok(b) => Ok((b, v.(cache := v.cache[k := Entry(b, dirty)])))
  }

  /** cacheBlock: store the block as dirty. */
  function CacheBlock(v: Vol, k: int, data: seq<byte>): (r: Vol)
  {
    v.(cache := v.cache[k := Entry(data, true)])
  }

  /** A block just cached is retrieved as cached, with no change. */
  lemma RetrieveAfterCache(ctx: Ctx, v: Vol, k: int, data: seq<byte>, dirty: bool)
    ensures Retrieve(ctx, CacheBlock(v, k, data), k, dirty) == Ok((data, CacheBlock(v, k, data)))
  {
    var v' := CacheBlock(v, k, data);
    assert v'.cache[k := Entry(data, true || dirty)] == v'.cache;
  }

  // ---------------------------------------------------------------------
  // Pointer blocks through the cache

  /** writeBlockOfPtrs: encode the first ptrsPerBlock pointers and cache
      them; a list that is too short is an IndexError, a pointer that does
      not fit an 'i' field a struct.error. */
  function WritePtrs(ctx: Ctx, v: Vol, addr: int, ptrs: seq<int>): (r: Result<Vol>)
    ensures r.Ok? <==> PtrCount(ctx) <= |ptrs| && PtrsFit(ptrs, PtrCount(ctx))
    ensures r.Ok? ==> r.value == CacheBlock(v, addr, EncodePtrs(ptrs, PtrCount(ctx)))
  {
    var c := PtrCount(ctx);
    if c > |ptrs| then Err(if PtrsFit(ptrs, |ptrs|) then IndexFault else RangeFault)
    else if !PtrsFit(ptrs, c) then Err(RangeFault)
    else Ok(CacheBlock(v, addr, EncodePtrs(ptrs, c)))
  }

  /** blockToBlockPtrs: ptrsPerBlock pointers from the front of a block; a
      block too short for them is a struct.error. */
  function ReadPtrs(ctx: Ctx, data: seq<byte>): (r: Result<seq<int>>)
    ensures r.Ok? <==> 4 * PtrCount(ctx) <= |data|
    ensures r.Ok? ==> |r.value| == PtrCount(ctx) && PtrsFit(r.value, PtrCount(ctx))
  {
    if |data| < 4 * PtrCount(ctx) then Err(FormatFault) else Ok(DecodePtrs(data, PtrCount(ctx)))
  }

  /** What writeBlockOfPtrs caches, blockToBlockPtrs reads back. */
  lemma ReadWrittenPtrs(ctx: Ctx, v: Vol, addr: int, ptrs: seq<int>)
    requires WritePtrs(ctx, v, addr, ptrs).Ok?
    ensures ReadPtrs(ctx, WritePtrs(ctx, v, addr, ptrs).value.cache[addr].data) == Ok(ptrs[..PtrCount(ctx)])
  {
    var c := PtrCount(ctx);
    DecodeEncodePtrs(ptrs, c, []);
    assert EncodePtrs(ptrs, c) + [] == EncodePtrs(ptrs, c);
  }

  // ---------------------------------------------------------------------
  // The indirect-block resolver

  /** Store a changed pointer list where it came from: the inode's own
      pointers when the parent pointer is 0, else the parent pointer
      block. */
  function Persist(ctx: Ctx, v: Vol, inum: int, blocks: seq<int>, parent: int): (r: Result<Vol>)
    requires 0 <= inum < |v.inodes|
  {
    if parent == 0 then Ok(v.(inodes := v.inodes[inum := v.inodes[inum].(blockPtrs := blocks)]))
    else WritePtrs(ctx, v, parent, blocks)
  }

  /** One step of the descent below a pointer list at a level above 0:
      Found(-1) for a slot past the list, else Down into the pointer block
      of slot n // ppb**level, with n's remainder and that block's pointers,
      at the address it lives at. */
  datatype Step = Found(addr: int, vol: Vol) | Down(vol: Vol, rem: int, ptrs: seq<int>, at: int)

  /** The level > 0 part of getDiskAddrOfBlock_recursive: a zero slot is
      filled by allocBlock, the changed list persisted and the new pointer
      block cached as ptrsPerBlock zero pointers; a nonzero slot's block is
      retrieved (marked dirty) and decoded. */
  function Descend(ctx: Ctx, v: Vol, inum: int, n: int, blocks: seq<int>, level: int, parent: int): (r: Result<Step>)
    requires 0 <= inum < |v.inodes| && level > 0
    ensures r.Ok? ==> |r.value.vol.inodes| == |v.inodes| && |r.value.vol.bits| == |v.bits|
    ensures r.Ok? && r.value.Found? ==> r.value == Found(-1, v)
  {
    var p := Pow(Ppb(ctx), level);
    if p == 0 then Err(ArithFault)
    else
      var child := FloorDiv(n, p);
      if |blocks| <= child then Ok(Found(-1, v))
      else match PyIndex(child, |blocks|)
        case None => Err(IndexFault)
        case Some(j) =>
          if blocks[j] == 0 then Fresh(ctx, v, inum, blocks, j, parent, n - child * p)
          else Follow(ctx, v, blocks[j], n - child * p)
  }

  /** A zero slot j: allocBlock fills it, the changed list is persisted and
      the new pointer block cached as ptrsPerBlock zero pointers. */
  function Fresh(ctx: Ctx, v: Vol, inum: int, blocks: seq<int>, j: int, parent: int, rem: int): (r: Result<Step>)
    requires 0 <= inum < |v.inodes| && 0 <= j < |blocks|
    ensures r.Ok? ==> r.value.Down? && r.value.at == FirstFree(v.bits) && r.value.rem == rem
    ensures r.Ok? ==> |r.value.vol.inodes| == |v.inodes| && |r.value.vol.bits| == |v.bits|
  {
    var a := Allocate(v.bits);
    match Persist(ctx, v.(bits := a.1), inum, blocks[j := a.0], parent)
    case Err(f) => Err(f)
    case Ok(v1) =>
      var zeros := seq(PtrCount(ctx), _ => 0);
      Ok(Down(CacheBlock(v1, a.0, EncodePtrs(zeros, PtrCount(ctx))), rem, zeros, a.0))
  }

  /** A nonzero slot: its pointer block is retrieved, marked dirty, and
      decoded. */
  function Follow(ctx: Ctx, v: Vol, at: int, rem: int): (r: Result<Step>)
    ensures r.Ok? ==> r.value.Down? && r.value.at == at && r.value.rem == rem
    ensures r.Ok? ==> r.value.vol.inodes == v.inodes && r.value.vol.bits == v.bits
  {
    match Retrieve(ctx, v, at, true)
    case Err(f) => Err(f)
    case Ok(got) =>
      match ReadPtrs(ctx, got.0)
      case Err(f) => Err(f)
      case Ok(ptrs) => Ok(Down(got.1, rem, ptrs, at))
  }

  /** getDiskAddrOfBlock_recursive(n, alloc, blocks, level, parent) for
      inode inum: the disk address of logical block n below the pointer
      list blocks, level levels above the data blocks. At level 0 slot n
      is the address; a zero slot (at any level) is filled by allocBlock,
      whether or not alloc was asked for, and the changed list persisted.
      -1 reports a slot past the list. A negative level makes the power a
      float: a slot in range is then a TypeError. */
  function Resolve(ctx: Ctx, v: Vol, inum: int, n: int, blocks: seq<int>, level: int, parent: int): (r: Result<(int, Vol)>)
    requires 0 <= inum < |v.inodes|
    ensures r.Ok? ==> |r.value.1.inodes| == |v.inodes| && |r.value.1.bits| == |v.bits|
    decreases if level > 0 then level else 0
  {
    if level == 0 then
      if |blocks| <= n then Ok((-1, v))
      else match PyIndex(n, |blocks|)
        case None => Err(IndexFault)
        case Some(j) =>
          if blocks[j] != 0 then Ok((blocks[j], v))
          else
            var a := Allocate(v.bits);
            match Persist(ctx, v.(bits := a.1), inum, blocks[j := a.0], parent)
            case Err(f) => Err(f)
            case Ok(v1) => Ok((a.0, v1))
    else if level < 0 then
      if Ppb(ctx) == 0 then Err(ArithFault)
      else if |blocks| <= n * Pow(Ppb(ctx), -level) then Ok((-1, v))
      else Err(TypeFault)
    else
      match Descend(ctx, v, inum, n, blocks, level, parent)
      case Err(f) => Err(f)
      case Ok(Found(a, w)) => Ok((a, w))
      case Ok(Down(w, rem, ptrs, at)) => Resolve(ctx, w, inum, rem, ptrs, level - 1, at)
  }

  /** getDiskAddrOfBlock(n): -1 for a block past the inode's length;
      otherwise the resolver from the inode's pointers and level. */
  function GetDiskAddr(ctx: Ctx, v: Vol, inum: int, n: int): (r: Result<(int, Vol)>)
    requires 0 <= inum < |v.inodes|
    ensures r.Ok? ==> |r.value.1.inodes| == |v.inodes| && |r.value.1.bits| == |v.bits|
    ensures n * ctx.blockSize > v.inodes[inum].length ==> r == Ok((-1, v))
  {
    var node := v.inodes[inum];
    if n * ctx.blockSize > node.length then Ok((-1, v))
    else Resolve(ctx, v, inum, n, node.blockPtrs, node.level, 0)
  }

  // ---------------------------------------------------------------------
  // What the resolver and the loops may change

  /** w grew from v: no block was freed, no dirty flag cleared, no cached
      block dropped, and no inode changed but inum's block pointers. */
  predicate Grows(v: Vol, w: Vol, inum: int) {
    && |w.bits| == |v.bits| && (forall i :: 0 <= i < |v.bits| && v.bits[i] ==> w.bits[i])
    && |w.inodes| == |v.inodes|
    && (forall i :: 0 <= i < |v.inodes| && i != inum ==> w.inodes[i] == v.inodes[i])
    && (0 <= inum < |v.inodes| ==> w.inodes[inum] == v.inodes[inum].(blockPtrs := w.inodes[inum].blockPtrs))
    && (forall k :: k in v.cache ==> k in w.cache && (v.cache[k].dirty ==> w.cache[k].dirty))
  }

  lemma GrowsTrans(u: Vol, v: Vol, w: Vol, inum: int)
    requires Grows(u, v, inum) && Grows(v, w, inum)
    ensures Grows(u, w, inum)
  {
  }

  lemma DescendGrows(ctx: Ctx, v: Vol, inum: int, n: int, blocks: seq<int>, level: int, parent: int)
    requires 0 <= inum < |v.inodes| && level > 0
    requires Descend(ctx, v, inum, n, blocks, level, parent).Ok?
    ensures Grows(v, Descend(ctx, v, inum, n, blocks, level, parent).value.vol, inum)
  {
    if Descend(ctx, v, inum, n, blocks, level, parent).value.Down? {
      DescendSlot(ctx, v, inum, n, blocks, level, parent);
    }
  }

  /** Resolving a block only allocates, caches and raises dirty flags. */
  lemma {:induction false} ResolveGrows(ctx: Ctx, v: Vol, inum: int, n: int, blocks: seq<int>, level: int, parent: int)
    requires 0 <= inum < |v.inodes|
    requires Resolve(ctx, v, inum, n, blocks, level, parent).Ok?
    ensures Grows(v, Resolve(ctx, v, inum, n, blocks, level, parent).value.1, inum)
    decreases if level > 0 then level else 0
  {
    if level > 0 {
      var s := Descend(ctx, v, inum, n, blocks, level, parent);
      if s.value.Down? {
        DescendGrows(ctx, v, inum, n, blocks, level, parent);
        ResolveGrows(ctx, s.value.vol, inum, s.value.rem, s.value.ptrs, level - 1, s.value.at);
        GrowsTrans(v, s.value.vol, Resolve(ctx, v, inum, n, blocks, level, parent).value.1, inum);
      }
    }
  }

  lemma GetDiskAddrGrows(ctx: Ctx, v: Vol, inum: int, n: int)
    requires 0 <= inum < |v.inodes| && GetDiskAddr(ctx, v, inum, n).Ok?
    ensures Grows(v, GetDiskAddr(ctx, v, inum, n).value.1, inum)
  {
    if n * ctx.blockSize <= v.inodes[inum].length {
      ResolveGrows(ctx, v, inum, n, v.inodes[inum].blockPtrs, v.inodes[inum].level, 0);
    }
  }

  // ---------------------------------------------------------------------
  // Resolving again finds the same block and changes nothing

  /** The pointer blocks a resolution descends through, top to bottom. */
  function Path(ctx: Ctx, v: Vol, inum: int, n: int, blocks: seq<int>, level: int, parent: int): seq<int>
    requires 0 <= inum < |v.inodes|
    decreases if level > 0 then level else 0
  {
    if level <= 0 then []
    else match Descend(ctx, v, inum, n, blocks, level, parent)
      case Ok(Down(w, rem, ptrs, at)) => [at] + Path(ctx, w, inum, rem, ptrs, level - 1, at)
      case _ => []
  }

  predicate Distinct(s: seq<int>) {
    |s| == 0 || (s[0] !in s[1..] && Distinct(s[1..]))
  }

  /** blocks is the pointer list kept at parent: the inode's own pointers
      for parent 0, else the dirty cached pointer block at parent. */
  predicate Stored(ctx: Ctx, v: Vol, inum: int, parent: int, blocks: seq<int>) {
    if parent == 0 then 0 <= inum < |v.inodes| && v.inodes[inum].blockPtrs == blocks
    else parent in v.cache && v.cache[parent].dirty && ReadPtrs(ctx, v.cache[parent].data) == Ok(blocks)
  }

  /** u gives inode inum the pointers w gives it. */
  predicate SamePtrs(u: Vol, w: Vol, inum: int) {
    |u.inodes| == |w.inodes| && 0 <= inum < |w.inodes| && u.inodes[inum].blockPtrs == w.inodes[inum].blockPtrs
  }

  /** u caches what w caches at block k (0 names the inode itself, not a
      block). */
  predicate AgreesAt(u: Vol, w: Vol, k: int) {
    k != 0 && k in w.cache ==> k in u.cache && u.cache[k] == w.cache[k]
  }

  /** u caches what w caches at each of the given blocks. */
  predicate Agrees(u: Vol, w: Vol, keys: seq<int>) {
    |keys| == 0 || (AgreesAt(u, w, keys[0]) && Agrees(u, w, keys[1..]))
  }

  /** v and w cache the same entry at block k, or neither caches it. */
  predicate SameAt(v: Vol, w: Vol, k: int) {
    (k in w.cache <==> k in v.cache) && (k in v.cache ==> w.cache[k] == v.cache[k])
  }

  /** One step down steps into a block other than 0, only allocates and
      caches, and below a pointer block leaves the inode alone. */
  lemma DescendFrame(ctx: Ctx, v: Vol, inum: int, n: int, blocks: seq<int>, level: int, parent: int)
    requires 0 <= inum < |v.inodes| && level > 0 && |v.bits| > 0 && v.bits[0]
    requires Descend(ctx, v, inum, n, blocks, level, parent).Ok?
    requires Descend(ctx, v, inum, n, blocks, level, parent).value.Down?
    ensures Descend(ctx, v, inum, n, blocks, level, parent).value.at != 0
    ensures Grows(v, Descend(ctx, v, inum, n, blocks, level, parent).value.vol, inum)
    ensures parent != 0 ==> Descend(ctx, v, inum, n, blocks, level, parent).value.vol.inodes[inum] == v.inodes[inum]
  {
  }

  /** One step down changes the cache only at the parent and at the block
      stepped into. */
  lemma DescendFrameAt(ctx: Ctx, v: Vol, inum: int, n: int, blocks: seq<int>, level: int, parent: int, k: int)
    requires 0 <= inum < |v.inodes| && level > 0
    requires Descend(ctx, v, inum, n, blocks, level, parent).Ok?
    requires Descend(ctx, v, inum, n, blocks, level, parent).value.Down?
    requires k != parent && k != Descend(ctx, v, inum, n, blocks, level, parent).value.at
    ensures SameAt(v, Descend(ctx, v, inum, n, blocks, level, parent).value.vol, k)
  {
  }

  lemma LeafFrame(ctx: Ctx, v: Vol, inum: int, n: int, blocks: seq<int>, level: int, parent: int)
    requires 0 <= inum < |v.inodes| && level <= 0
    requires Resolve(ctx, v, inum, n, blocks, level, parent).Ok?
    ensures parent != 0 ==> Resolve(ctx, v, inum, n, blocks, level, parent).value.1.inodes[inum] == v.inodes[inum]
  {
  }

  lemma LeafFrameAt(ctx: Ctx, v: Vol, inum: int, n: int, blocks: seq<int>, level: int, parent: int, k: int)
    requires 0 <= inum < |v.inodes| && level <= 0 && k != parent
    requires Resolve(ctx, v, inum, n, blocks, level, parent).Ok?
    ensures SameAt(v, Resolve(ctx, v, inum, n, blocks, level, parent).value.1, k)
  {
  }

  /** Below a step down, the resolution and its path continue from the
      block stepped into. */
  lemma ResolveDown(ctx: Ctx, v: Vol, inum: int, n: int, blocks: seq<int>, level: int, parent: int)
    requires 0 <= inum < |v.inodes| && level > 0
    requires Descend(ctx, v, inum, n, blocks, level, parent).Ok?
    requires Descend(ctx, v, inum, n, blocks, level, parent).value.Down?
    ensures Resolve(ctx, v, inum, n, blocks, level, parent)
         == Resolve(ctx, Descend(ctx, v, inum, n, blocks, level, parent).value.vol, inum,
                    Descend(ctx, v, inum, n, blocks, level, parent).value.rem,
                    Descend(ctx, v, inum, n, blocks, level, parent).value.ptrs, level - 1,
                    Descend(ctx, v, inum, n, blocks, level, parent).value.at)
    ensures Path(ctx, v, inum, n, blocks, level, parent)
         == [Descend(ctx, v, inum, n, blocks, level, parent).value.at]
          + Path(ctx, Descend(ctx, v, inum, n, blocks, level, parent).value.vol, inum,
                 Descend(ctx, v, inum, n, blocks, level, parent).value.rem,
                 Descend(ctx, v, inum, n, blocks, level, parent).value.ptrs, level - 1,
                 Descend(ctx, v, inum, n, blocks, level, parent).value.at)
  {
  }

  lemma DescendKeepsZero(ctx: Ctx, v: Vol, inum: int, n: int, blocks: seq<int>, level: int, parent: int)
    requires 0 <= inum < |v.inodes| && level > 0 && |v.bits| > 0 && v.bits[0]
    requires Descend(ctx, v, inum, n, blocks, level, parent).Ok?
    requires Descend(ctx, v, inum, n, blocks, level, parent).value.Down?
    ensures Descend(ctx, v, inum, n, blocks, level, parent).value.at != 0
    ensures |Descend(ctx, v, inum, n, blocks, level, parent).value.vol.bits| > 0
    ensures Descend(ctx, v, inum, n, blocks, level, parent).value.vol.bits[0]
  {
    DescendFrame(ctx, v, inum, n, blocks, level, parent);
  }

  /** A resolution below a pointer block leaves the inode alone. */
  lemma {:induction false} ResolveKeepsInode(ctx: Ctx, v: Vol, inum: int, n: int, blocks: seq<int>, level: int, parent: int)
    requires 0 <= inum < |v.inodes| && |v.bits| > 0 && v.bits[0]
    requires Resolve(ctx, v, inum, n, blocks, level, parent).Ok?
    ensures parent != 0 ==> Resolve(ctx, v, inum, n, blocks, level, parent).value.1.inodes[inum] == v.inodes[inum]
    decreases if level > 0 then level else 0
  {
    if level <= 0 {
      LeafFrame(ctx, v, inum, n, blocks, level, parent);
    } else if Descend(ctx, v, inum, n, blocks, level, parent).value.Down? {
      var d := Descend(ctx, v, inum, n, blocks, level, parent).value;
      DescendFrame(ctx, v, inum, n, blocks, level, parent);
      ResolveKeepsInode(ctx, d.vol, inum, d.rem, d.ptrs, level - 1, d.at);
      ResolveDown(ctx, v, inum, n, blocks, level, parent);
    }
  }

  /** A resolution changes the cache only at its parent and along its
      path. */
  lemma {:induction false} ResolveFrameAt(ctx: Ctx, v: Vol, inum: int, n: int, blocks: seq<int>, level: int, parent: int, k: int)
    requires 0 <= inum < |v.inodes|
    requires Resolve(ctx, v, inum, n, blocks, level, parent).Ok?
    requires k != parent && k !in Path(ctx, v, inum, n, blocks, level, parent)
    ensures SameAt(v, Resolve(ctx, v, inum, n, blocks, level, parent).value.1, k)
    decreases if level > 0 then level else 0
  {
    if level <= 0 {
      LeafFrameAt(ctx, v, inum, n, blocks, level, parent, k);
    } else if Descend(ctx, v, inum, n, blocks, level, parent).value.Down? {
      var d := Descend(ctx, v, inum, n, blocks, level, parent).value;
      ResolveDown(ctx, v, inum, n, blocks, level, parent);
      NotInCons(k, d.at, Path(ctx, d.vol, inum, d.rem, d.ptrs, level - 1, d.at));
      DescendFrameAt(ctx, v, inum, n, blocks, level, parent, k);
      ResolveFrameAt(ctx, d.vol, inum, d.rem, d.ptrs, level - 1, d.at, k);
    }
  }

  /** The slot a step down follows, or -1 when there is none. */
  function Slot(ctx: Ctx, n: int, blocks: seq<int>, level: int): (j: int)
    requires level > 0
    ensures j == -1 || 0 <= j < |blocks|
  {
    var p := Pow(Ppb(ctx), level);
    if p == 0 then -1
    else match PyIndex(FloorDiv(n, p), |blocks|)
      case Some(j) => j
      case None => -1
  }

  /** A step down is Fresh or Follow at the slot. */
  lemma DescendSlot(ctx: Ctx, v: Vol, inum: int, n: int, blocks: seq<int>, level: int, parent: int)
    requires 0 <= inum < |v.inodes| && level > 0
    requires Descend(ctx, v, inum, n, blocks, level, parent).Ok?
    requires Descend(ctx, v, inum, n, blocks, level, parent).value.Down?
    ensures 0 <= Slot(ctx, n, blocks, level)
    ensures Descend(ctx, v, inum, n, blocks, level, parent)
         == if blocks[Slot(ctx, n, blocks, level)] == 0
            then Fresh(ctx, v, inum, blocks, Slot(ctx, n, blocks, level), parent,
                       Descend(ctx, v, inum, n, blocks, level, parent).value.rem)
            else Follow(ctx, v, blocks[Slot(ctx, n, blocks, level)],
                        Descend(ctx, v, inum, n, blocks, level, parent).value.rem)
  {
  }

  lemma FreshStores(ctx: Ctx, v: Vol, inum: int, blocks: seq<int>, j: int, parent: int, rem: int)
    requires 0 <= inum < |v.inodes| && 0 <= j < |blocks| && |v.bits| > 0 && v.bits[0]
    requires Stored(ctx, v, inum, parent, blocks)
    requires Fresh(ctx, v, inum, blocks, j, parent, rem).Ok?
    requires Fresh(ctx, v, inum, blocks, j, parent, rem).value.at != parent
    ensures Stored(ctx, Fresh(ctx, v, inum, blocks, j, parent, rem).value.vol, inum,
                   Fresh(ctx, v, inum, blocks, j, parent, rem).value.at,
                   Fresh(ctx, v, inum, blocks, j, parent, rem).value.ptrs)
    ensures Stored(ctx, Fresh(ctx, v, inum, blocks, j, parent, rem).value.vol, inum, parent,
                   blocks[j := Fresh(ctx, v, inum, blocks, j, parent, rem).value.at])
  {
    var c := PtrCount(ctx);
    var a := Allocate(v.bits);
    var zeros := seq(c, _ => 0);
    DecodeEncodePtrs(zeros, c, []);
    assert EncodePtrs(zeros, c) + [] == EncodePtrs(zeros, c);
    assert zeros[..c] == zeros;
    if parent != 0 {
      ReadWrittenPtrs(ctx, v.(bits := a.1), parent, blocks[j := a.0]);
      assert blocks[j := a.0][..c] == blocks[j := a.0];
    }
  }

  lemma FollowStores(ctx: Ctx, v: Vol, inum: int, blocks: seq<int>, j: int, parent: int, rem: int)
    requires 0 <= j < |blocks| && blocks[j] != 0
    requires Stored(ctx, v, inum, parent, blocks)
    requires Follow(ctx, v, blocks[j], rem).Ok?
    ensures Stored(ctx, Follow(ctx, v, blocks[j], rem).value.vol, inum, blocks[j],
                   Follow(ctx, v, blocks[j], rem).value.ptrs)
    ensures Stored(ctx, Follow(ctx, v, blocks[j], rem).value.vol, inum, parent, blocks[j := blocks[j]])
  {
    assert blocks[j := blocks[j]] == blocks;
  }

  /** After a step down, the block stepped into holds the pointers the
      step returned, and the parent holds the list with the followed slot
      pointing there. */
  lemma DescendStores(ctx: Ctx, v: Vol, inum: int, n: int, blocks: seq<int>, level: int, parent: int)
    requires 0 <= inum < |v.inodes| && level > 0 && |v.bits| > 0 && v.bits[0]
    requires Stored(ctx, v, inum, parent, blocks)
    requires Descend(ctx, v, inum, n, blocks, level, parent).Ok?
    requires Descend(ctx, v, inum, n, blocks, level, parent).value.Down?
    requires Descend(ctx, v, inum, n, blocks, level, parent).value.at != parent
    ensures 0 <= Slot(ctx, n, blocks, level)
    ensures Stored(ctx, Descend(ctx, v, inum, n, blocks, level, parent).value.vol, inum,
                   Descend(ctx, v, inum, n, blocks, level, parent).value.at,
                   Descend(ctx, v, inum, n, blocks, level, parent).value.ptrs)
    ensures Stored(ctx, Descend(ctx, v, inum, n, blocks, level, parent).value.vol, inum, parent,
                   blocks[Slot(ctx, n, blocks, level) := Descend(ctx, v, inum, n, blocks, level, parent).value.at])
  {
    DescendSlot(ctx, v, inum, n, blocks, level, parent);
    var j := Slot(ctx, n, blocks, level);
    var rem := Descend(ctx, v, inum, n, blocks, level, parent).value.rem;
    if blocks[j] == 0 {
      FreshStores(ctx, v, inum, blocks, j, parent, rem);
    } else {
      FollowStores(ctx, v, inum, blocks, j, parent, rem);
    }
  }

  /** After a step down, the block stepped into holds the pointers the
      step returned. */
  lemma DescendCaches(ctx: Ctx, v: Vol, inum: int, n: int, blocks: seq<int>, level: int, parent: int)
    requires 0 <= inum < |v.inodes| && level > 0 && |v.bits| > 0 && v.bits[0]
    requires Descend(ctx, v, inum, n, blocks, level, parent).Ok?
    requires Descend(ctx, v, inum, n, blocks, level, parent).value.Down?
    ensures Stored(ctx, Descend(ctx, v, inum, n, blocks, level, parent).value.vol, inum,
                   Descend(ctx, v, inum, n, blocks, level, parent).value.at,
                   Descend(ctx, v, inum, n, blocks, level, parent).value.ptrs)
  {
    DescendSlot(ctx, v, inum, n, blocks, level, parent);
    var j := Slot(ctx, n, blocks, level);
    if blocks[j] == 0 {
      var c := PtrCount(ctx);
      var zeros := seq(c, _ => 0);
      DecodeEncodePtrs(zeros, c, []);
      assert EncodePtrs(zeros, c) + [] == EncodePtrs(zeros, c);
      assert zeros[..c] == zeros;
    }
  }

  /** After a step down, the block stepped into is a readable dirty
      pointer block. */
  lemma DescendPtrBlock(ctx: Ctx, v: Vol, inum: int, n: int, blocks: seq<int>, level: int, parent: int)
    requires 0 <= inum < |v.inodes| && level > 0
    requires Descend(ctx, v, inum, n, blocks, level, parent).Ok?
    requires Descend(ctx, v, inum, n, blocks, level, parent).value.Down?
    ensures PtrBlock(ctx, Descend(ctx, v, inum, n, blocks, level, parent).value.vol,
                     Descend(ctx, v, inum, n, blocks, level, parent).value.at)
  {
    DescendSlot(ctx, v, inum, n, blocks, level, parent);
  }

  /** Stepping down again, where the parent still holds the list with the
      followed slot filled and the block stepped into is cached dirty,
      reads that block from the cache and changes nothing. */
  lemma DescendAgain(ctx: Ctx, v: Vol, inum: int, n: int, blocks: seq<int>, level: int, parent: int, u: Vol, b: seq<int>)
    requires 0 <= inum < |v.inodes| && level > 0
    requires Descend(ctx, v, inum, n, blocks, level, parent).Ok?
    requires Descend(ctx, v, inum, n, blocks, level, parent).value.Down?
    requires 0 <= Slot(ctx, n, blocks, level) && Descend(ctx, v, inum, n, blocks, level, parent).value.at != 0
    requires 0 <= inum < |u.inodes|
    requires b == blocks[Slot(ctx, n, blocks, level) := Descend(ctx, v, inum, n, blocks, level, parent).value.at]
    requires Descend(ctx, v, inum, n, blocks, level, parent).value.at in u.cache
    requires u.cache[Descend(ctx, v, inum, n, blocks, level, parent).value.at].dirty
    requires ReadPtrs(ctx, u.cache[Descend(ctx, v, inum, n, blocks, level, parent).value.at].data).Ok?
    ensures Descend(ctx, u, inum, n, b, level, parent)
         == Ok(Down(u, Descend(ctx, v, inum, n, blocks, level, parent).value.rem,
                    ReadPtrs(ctx, u.cache[Descend(ctx, v, inum, n, blocks, level, parent).value.at].data).value,
                    Descend(ctx, v, inum, n, blocks, level, parent).value.at))
  {
    var at := Descend(ctx, v, inum, n, blocks, level, parent).value.at;
    assert u.cache[at := Entry(u.cache[at].data, true)] == u.cache;
  }

  /** Block k is cached dirty and holds a readable pointer block. */
  predicate PtrBlock(ctx: Ctx, v: Vol, k: int) {
    k in v.cache && v.cache[k].dirty && 4 * PtrCount(ctx) <= |v.cache[k].data|
  }

  lemma LeafPtrBlockAt(ctx: Ctx, v: Vol, inum: int, n: int, blocks: seq<int>, level: int, parent: int, k: int)
    requires 0 <= inum < |v.inodes| && level <= 0 && k != 0
    requires Resolve(ctx, v, inum, n, blocks, level, parent).Ok?
    requires PtrBlock(ctx, v, k)
    ensures PtrBlock(ctx, Resolve(ctx, v, inum, n, blocks, level, parent).value.1, k)
  {
    if level == 0 && |blocks| > n {
      var j := PyIndex(n, |blocks|).value;
      if blocks[j] == 0 && k == parent {
        var a := Allocate(v.bits);
        ReadWrittenPtrs(ctx, v.(bits := a.1), parent, blocks[j := a.0]);
      }
    }
  }

  lemma DescendPtrBlockAt(ctx: Ctx, v: Vol, inum: int, n: int, blocks: seq<int>, level: int, parent: int, k: int)
    requires 0 <= inum < |v.inodes| && level > 0 && k != 0
    requires Descend(ctx, v, inum, n, blocks, level, parent).Ok?
    requires Descend(ctx, v, inum, n, blocks, level, parent).value.Down?
    requires k != Descend(ctx, v, inum, n, blocks, level, parent).value.at
    requires PtrBlock(ctx, v, k)
    ensures PtrBlock(ctx, Descend(ctx, v, inum, n, blocks, level, parent).value.vol, k)
  {
    DescendSlot(ctx, v, inum, n, blocks, level, parent);
    var j := Slot(ctx, n, blocks, level);
    if blocks[j] == 0 && k == parent {
      var a := Allocate(v.bits);
      ReadWrittenPtrs(ctx, v.(bits := a.1), parent, blocks[j := a.0]);
    }
  }

  /** A resolution leaves every readable dirty pointer block off its path
      readable and dirty, its parent's included. */
  lemma {:induction false} ResolvePtrBlockAt(ctx: Ctx, v: Vol, inum: int, n: int, blocks: seq<int>, level: int, parent: int, k: int)
    requires 0 <= inum < |v.inodes| && k != 0
    requires Resolve(ctx, v, inum, n, blocks, level, parent).Ok?
    requires k !in Path(ctx, v, inum, n, blocks, level, parent)
    requires PtrBlock(ctx, v, k)
    ensures PtrBlock(ctx, Resolve(ctx, v, inum, n, blocks, level, parent).value.1, k)
    decreases if level > 0 then level else 0
  {
    if level <= 0 {
      LeafPtrBlockAt(ctx, v, inum, n, blocks, level, parent, k);
    } else if Descend(ctx, v, inum, n, blocks, level, parent).value.Down? {
      var d := Descend(ctx, v, inum, n, blocks, level, parent).value;
      ResolveDown(ctx, v, inum, n, blocks, level, parent);
      NotInCons(k, d.at, Path(ctx, d.vol, inum, d.rem, d.ptrs, level - 1, d.at));
      DescendPtrBlockAt(ctx, v, inum, n, blocks, level, parent, k);
      ResolvePtrBlockAt(ctx, d.vol, inum, d.rem, d.ptrs, level - 1, d.at, k);
    }
  }

  /** Two states that agree at parent, where the first is a frame of a
      state storing b1 there, store the same list there. */
  lemma SameList(ctx: Ctx, v: Vol, w: Vol, u: Vol, inum: int, parent: int, b1: seq<int>, b: seq<int>)
    requires Stored(ctx, v, inum, parent, b1) && Stored(ctx, u, inum, parent, b)
    requires parent != 0 ==> SameAt(v, w, parent)
    requires parent == 0 ==> |w.inodes| == |v.inodes| && w.inodes[inum].blockPtrs == v.inodes[inum].blockPtrs
    requires SamePtrs(u, w, inum) && AgreesAt(u, w, parent)
    ensures b == b1
  {
  }

  /** Settled at the data level (or below it). */
  lemma SettledLeaf(ctx: Ctx, v: Vol, inum: int, n: int, blocks: seq<int>, level: int, parent: int, u: Vol, b: seq<int>)
    requires 0 <= inum < |v.inodes| && |v.bits| > 0 && v.bits[0] && level <= 0
    requires Stored(ctx, v, inum, parent, blocks)
    requires Resolve(ctx, v, inum, n, blocks, level, parent).Ok?
    requires SamePtrs(u, Resolve(ctx, v, inum, n, blocks, level, parent).value.1, inum)
    requires AgreesAt(u, Resolve(ctx, v, inum, n, blocks, level, parent).value.1, parent)
    requires Stored(ctx, u, inum, parent, b)
    ensures Resolve(ctx, u, inum, n, b, level, parent)
         == Ok((Resolve(ctx, v, inum, n, blocks, level, parent).value.0, u))
  {
    var w := Resolve(ctx, v, inum, n, blocks, level, parent).value.1;
    if level == 0 && |blocks| > n && blocks[PyIndex(n, |blocks|).value] == 0 {
      var j := PyIndex(n, |blocks|).value;
      var a := Allocate(v.bits);
      if parent != 0 {
        ReadWrittenPtrs(ctx, v.(bits := a.1), parent, blocks[j := a.0]);
        assert blocks[j := a.0][..PtrCount(ctx)] == blocks[j := a.0];
      }
      assert Stored(ctx, w, inum, parent, blocks[j := a.0]);
      SameList(ctx, w, w, u, inum, parent, blocks[j := a.0], b);
    } else {
      assert w == v;
      SameList(ctx, v, v, u, inum, parent, blocks, b);
    }
  }

  lemma NotInCons(x: int, y: int, s: seq<int>)
    requires x !in [y] + s
    ensures x != y && x !in s
  {
    assert y in [y] + s;
    forall z | z in s ensures z in [y] + s {
      assert ([y] + s)[1..] == s;
    }
  }

  lemma DistinctCons(x: int, s: seq<int>)
    requires Distinct([x] + s)
    ensures x !in s && Distinct(s)
  {
    assert ([x] + s)[1..] == s;
  }

  lemma AgreesCons(u: Vol, w: Vol, x: int, s: seq<int>)
    requires Agrees(u, w, [x] + s)
    ensures AgreesAt(u, w, x) && Agrees(u, w, s)
  {
    assert ([x] + s)[1..] == s;
  }

  /** Once block n has been resolved, resolving it again from any state
      that agrees at the parent, at the inode's pointers and along the path
      returns the same address and changes nothing, provided the path's
      pointer blocks are distinct and avoid the parent (allocation never
      hands out block 0, which the created volume reserves). */
  lemma {:induction false} Settled(ctx: Ctx, v: Vol, inum: int, n: int, blocks: seq<int>, level: int, parent: int, u: Vol, b: seq<int>)
    requires 0 <= inum < |v.inodes| && |v.bits| > 0 && v.bits[0]
    requires Stored(ctx, v, inum, parent, blocks)
    requires Resolve(ctx, v, inum, n, blocks, level, parent).Ok?
    requires parent !in Path(ctx, v, inum, n, blocks, level, parent)
    requires Distinct(Path(ctx, v, inum, n, blocks, level, parent))
    requires SamePtrs(u, Resolve(ctx, v, inum, n, blocks, level, parent).value.1, inum)
    requires AgreesAt(u, Resolve(ctx, v, inum, n, blocks, level, parent).value.1, parent)
    requires Agrees(u, Resolve(ctx, v, inum, n, blocks, level, parent).value.1,
                    Path(ctx, v, inum, n, blocks, level, parent))
    requires Stored(ctx, u, inum, parent, b)
    ensures Resolve(ctx, u, inum, n, b, level, parent)
         == Ok((Resolve(ctx, v, inum, n, blocks, level, parent).value.0, u))
    decreases if level > 0 then level else 0
  {
    if level <= 0 {
      SettledLeaf(ctx, v, inum, n, blocks, level, parent, u, b);
    } else if Descend(ctx, v, inum, n, blocks, level, parent).value.Found? {
      SettledFound(ctx, v, inum, n, blocks, level, parent, u, b);
    } else {
      SettledDown(ctx, v, inum, n, blocks, level, parent, u, b);
      var d := Descend(ctx, v, inum, n, blocks, level, parent).value;
      var b' := ReadPtrs(ctx, u.cache[d.at].data).value;
      Settled(ctx, d.vol, inum, d.rem, d.ptrs, level - 1, d.at, u, b');
    }
  }

  /** An index past the pointer list is past it again in u. */
  lemma SettledFound(ctx: Ctx, v: Vol, inum: int, n: int, blocks: seq<int>, level: int, parent: int, u: Vol, b: seq<int>)
    requires 0 <= inum < |v.inodes| && level > 0
    requires Stored(ctx, v, inum, parent, blocks)
    requires Descend(ctx, v, inum, n, blocks, level, parent).Ok?
    requires Descend(ctx, v, inum, n, blocks, level, parent).value.Found?
    requires SamePtrs(u, v, inum) && AgreesAt(u, v, parent)
    requires Stored(ctx, u, inum, parent, b)
    ensures Resolve(ctx, u, inum, n, b, level, parent)
         == Ok((Resolve(ctx, v, inum, n, blocks, level, parent).value.0, u))
  {
    SameList(ctx, v, v, u, inum, parent, blocks, b);
  }

  /** Resolving again from u reads the parent's list with the followed
      slot filled. */
  lemma SettledList(ctx: Ctx, v: Vol, inum: int, n: int, blocks: seq<int>, level: int, parent: int, u: Vol, b: seq<int>)
    requires 0 <= inum < |v.inodes| && |v.bits| > 0 && v.bits[0] && level > 0
    requires Stored(ctx, v, inum, parent, blocks)
    requires Descend(ctx, v, inum, n, blocks, level, parent).Ok?
    requires Descend(ctx, v, inum, n, blocks, level, parent).value.Down?
    requires Resolve(ctx, v, inum, n, blocks, level, parent).Ok?
    requires parent !in Path(ctx, v, inum, n, blocks, level, parent)
    requires SamePtrs(u, Resolve(ctx, v, inum, n, blocks, level, parent).value.1, inum)
    requires AgreesAt(u, Resolve(ctx, v, inum, n, blocks, level, parent).value.1, parent)
    requires Stored(ctx, u, inum, parent, b)
    ensures 0 <= Slot(ctx, n, blocks, level)
    ensures b == blocks[Slot(ctx, n, blocks, level) := Descend(ctx, v, inum, n, blocks, level, parent).value.at]
  {
    var d := Descend(ctx, v, inum, n, blocks, level, parent).value;
    var w := Resolve(ctx, v, inum, n, blocks, level, parent).value.1;
    LowerFrame(ctx, v, inum, n, blocks, level, parent);
    DescendStores(ctx, v, inum, n, blocks, level, parent);
    SameList(ctx, d.vol, w, u, inum, parent, blocks[Slot(ctx, n, blocks, level) := d.at], b);
  }

  /** The parent's pointer list, as the step down leaves it, survives the
      rest of the resolution: the parent is not stepped into again. */
  lemma LowerFrame(ctx: Ctx, v: Vol, inum: int, n: int, blocks: seq<int>, level: int, parent: int)
    requires 0 <= inum < |v.inodes| && |v.bits| > 0 && v.bits[0] && level > 0
    requires Descend(ctx, v, inum, n, blocks, level, parent).Ok?
    requires Descend(ctx, v, inum, n, blocks, level, parent).value.Down?
    requires Resolve(ctx, v, inum, n, blocks, level, parent).Ok?
    requires parent !in Path(ctx, v, inum, n, blocks, level, parent)
    ensures Descend(ctx, v, inum, n, blocks, level, parent).value.at != parent
    ensures parent != 0 ==> SameAt(Descend(ctx, v, inum, n, blocks, level, parent).value.vol,
                                   Resolve(ctx, v, inum, n, blocks, level, parent).value.1, parent)
    ensures parent == 0 ==>
      |Resolve(ctx, v, inum, n, blocks, level, parent).value.1.inodes| == |Descend(ctx, v, inum, n, blocks, level, parent).value.vol.inodes|
      && Resolve(ctx, v, inum, n, blocks, level, parent).value.1.inodes[inum].blockPtrs
         == Descend(ctx, v, inum, n, blocks, level, parent).value.vol.inodes[inum].blockPtrs
  {
    var d := Descend(ctx, v, inum, n, blocks, level, parent).value;
    ResolveDown(ctx, v, inum, n, blocks, level, parent);
    NotInCons(parent, d.at, Path(ctx, d.vol, inum, d.rem, d.ptrs, level - 1, d.at));
    DescendKeepsZero(ctx, v, inum, n, blocks, level, parent);
    ResolveKeepsInode(ctx, d.vol, inum, d.rem, d.ptrs, level - 1, d.at);
    if parent != 0 {
      ResolveFrameAt(ctx, d.vol, inum, d.rem, d.ptrs, level - 1, d.at, parent);
    }
  }

  /** The block stepped into is a readable dirty pointer block in u, and
      holds the step's pointers just after the step. */
  lemma SettledBlock(ctx: Ctx, v: Vol, inum: int, n: int, blocks: seq<int>, level: int, parent: int, u: Vol)
    requires 0 <= inum < |v.inodes| && |v.bits| > 0 && v.bits[0] && level > 0
    requires Descend(ctx, v, inum, n, blocks, level, parent).Ok?
    requires Descend(ctx, v, inum, n, blocks, level, parent).value.Down?
    requires Resolve(ctx, v, inum, n, blocks, level, parent).Ok?
    requires Distinct(Path(ctx, v, inum, n, blocks, level, parent))
    requires AgreesAt(u, Resolve(ctx, v, inum, n, blocks, level, parent).value.1,
                      Descend(ctx, v, inum, n, blocks, level, parent).value.at)
    ensures PtrBlock(ctx, u, Descend(ctx, v, inum, n, blocks, level, parent).value.at)
  {
    var d := Descend(ctx, v, inum, n, blocks, level, parent).value;
    ResolveDown(ctx, v, inum, n, blocks, level, parent);
    DistinctCons(d.at, Path(ctx, d.vol, inum, d.rem, d.ptrs, level - 1, d.at));
    DescendKeepsZero(ctx, v, inum, n, blocks, level, parent);
    DescendPtrBlock(ctx, v, inum, n, blocks, level, parent);
    ResolvePtrBlockAt(ctx, d.vol, inum, d.rem, d.ptrs, level - 1, d.at, d.at);
    var w := Resolve(ctx, d.vol, inum, d.rem, d.ptrs, level - 1, d.at).value.1;
    assert w == Resolve(ctx, v, inum, n, blocks, level, parent).value.1;
    AgreedPtrBlock(ctx, u, w, d.at);
  }

  /** A pointer block is still one in a state that agrees with it there. */
  lemma AgreedPtrBlock(ctx: Ctx, u: Vol, w: Vol, k: int)
    requires k != 0 && AgreesAt(u, w, k) && PtrBlock(ctx, w, k)
    ensures PtrBlock(ctx, u, k)
  {
  }

  /** The step down of Settled: resolving again steps into the same block,
      read from u's cache, and the rest of the resolution meets Settled's
      premises. */
  lemma SettledDown(ctx: Ctx, v: Vol, inum: int, n: int, blocks: seq<int>, level: int, parent: int, u: Vol, b: seq<int>)
    requires 0 <= inum < |v.inodes| && |v.bits| > 0 && v.bits[0] && level > 0
    requires Stored(ctx, v, inum, parent, blocks)
    requires Descend(ctx, v, inum, n, blocks, level, parent).Ok?
    requires Descend(ctx, v, inum, n, blocks, level, parent).value.Down?
    requires Resolve(ctx, v, inum, n, blocks, level, parent).Ok?
    requires parent !in Path(ctx, v, inum, n, blocks, level, parent)
    requires Distinct(Path(ctx, v, inum, n, blocks, level, parent))
    requires SamePtrs(u, Resolve(ctx, v, inum, n, blocks, level, parent).value.1, inum)
    requires AgreesAt(u, Resolve(ctx, v, inum, n, blocks, level, parent).value.1, parent)
    requires Agrees(u, Resolve(ctx, v, inum, n, blocks, level, parent).value.1,
                    Path(ctx, v, inum, n, blocks, level, parent))
    requires Stored(ctx, u, inum, parent, b)
    ensures var d := Descend(ctx, v, inum, n, blocks, level, parent).value;
      && Resolve(ctx, v, inum, n, blocks, level, parent) == Resolve(ctx, d.vol, inum, d.rem, d.ptrs, level - 1, d.at)
      && 0 <= inum < |d.vol.inodes| && |d.vol.bits| > 0 && d.vol.bits[0]
      && Stored(ctx, d.vol, inum, d.at, d.ptrs)
      && d.at in u.cache && ReadPtrs(ctx, u.cache[d.at].data).Ok?
      && d.at !in Path(ctx, d.vol, inum, d.rem, d.ptrs, level - 1, d.at)
      && Distinct(Path(ctx, d.vol, inum, d.rem, d.ptrs, level - 1, d.at))
      && SamePtrs(u, Resolve(ctx, d.vol, inum, d.rem, d.ptrs, level - 1, d.at).value.1, inum)
      && AgreesAt(u, Resolve(ctx, d.vol, inum, d.rem, d.ptrs, level - 1, d.at).value.1, d.at)
      && Agrees(u, Resolve(ctx, d.vol, inum, d.rem, d.ptrs, level - 1, d.at).value.1,
                Path(ctx, d.vol, inum, d.rem, d.ptrs, level - 1, d.at))
      && Stored(ctx, u, inum, d.at, ReadPtrs(ctx, u.cache[d.at].data).value)
      && Resolve(ctx, u, inum, n, b, level, parent)
         == Resolve(ctx, u, inum, d.rem, ReadPtrs(ctx, u.cache[d.at].data).value, level - 1, d.at)
  {
    var d := Descend(ctx, v, inum, n, blocks, level, parent).value;
    ResolveDown(ctx, v, inum, n, blocks, level, parent);
    var rest := Path(ctx, d.vol, inum, d.rem, d.ptrs, level - 1, d.at);
    DistinctCons(d.at, rest);
    AgreesCons(u, Resolve(ctx, d.vol, inum, d.rem, d.ptrs, level - 1, d.at).value.1, d.at, rest);
    DescendKeepsZero(ctx, v, inum, n, blocks, level, parent);
    SettledList(ctx, v, inum, n, blocks, level, parent, u, b);
    SettledBlock(ctx, v, inum, n, blocks, level, parent, u);
    DescendCaches(ctx, v, inum, n, blocks, level, parent);
    DescendAgain(ctx, v, inum, n, blocks, level, parent, u, b);
    ResolveDown(ctx, u, inum, n, b, level, parent);
  }

  /** The pointer blocks getDiskAddrOfBlock(n) descends through. */
  function LookupPath(ctx: Ctx, v: Vol, inum: int, n: int): seq<int>
    requires 0 <= inum < |v.inodes|
  {
    var node := v.inodes[inum];
    if n * ctx.blockSize > node.length then [] else Path(ctx, v, inum, n, node.blockPtrs, node.level, 0)
  }

  /** With block 0 in use, no resolution descends through block 0. */
  lemma {:induction false} PathAvoidsZero(ctx: Ctx, v: Vol, inum: int, n: int, blocks: seq<int>, level: int, parent: int)
    requires 0 <= inum < |v.inodes| && |v.bits| > 0 && v.bits[0]
    ensures 0 !in Path(ctx, v, inum, n, blocks, level, parent)
    decreases if level > 0 then level else 0
  {
    if level > 0 {
      var s := Descend(ctx, v, inum, n, blocks, level, parent);
      if s.Ok? && s.value.Down? {
        var d := s.value;
        DescendFrame(ctx, v, inum, n, blocks, level, parent);
        PathAvoidsZero(ctx, d.vol, inum, d.rem, d.ptrs, level - 1, d.at);
        ResolveDown(ctx, v, inum, n, blocks, level, parent);
        NotInConsBack(0, d.at, Path(ctx, d.vol, inum, d.rem, d.ptrs, level - 1, d.at));
      }
    }
  }

  lemma NotInConsBack(x: int, y: int, s: seq<int>)
    requires x != y && x !in s
    ensures x !in [y] + s
  {
  }

  /** getDiskAddrOfBlock settles: once it has found block n, asking again
      from any state that keeps the inode and the blocks along the lookup
      path returns the same address and changes nothing, provided those
      pointer blocks are distinct. */
  lemma GetDiskAddrSettled(ctx: Ctx, v: Vol, inum: int, n: int, u: Vol)
    requires 0 <= inum < |v.inodes| && |v.bits| > 0 && v.bits[0]
    requires GetDiskAddr(ctx, v, inum, n).Ok?
    requires Distinct(LookupPath(ctx, v, inum, n))
    requires |u.inodes| == |v.inodes| && u.inodes[inum] == GetDiskAddr(ctx, v, inum, n).value.1.inodes[inum]
    requires Agrees(u, GetDiskAddr(ctx, v, inum, n).value.1, LookupPath(ctx, v, inum, n))
    ensures GetDiskAddr(ctx, u, inum, n) == Ok((GetDiskAddr(ctx, v, inum, n).value.0, u))
  {
    var node := v.inodes[inum];
    if n * ctx.blockSize <= node.length {
      var w := GetDiskAddr(ctx, v, inum, n).value.1;
      ResolveGrows(ctx, v, inum, n, node.blockPtrs, node.level, 0);
      PathAvoidsZero(ctx, v, inum, n, node.blockPtrs, node.level, 0);
      Settled(ctx, v, inum, n, node.blockPtrs, node.level, 0, u, u.inodes[inum].blockPtrs);
    }
  }

  // ---------------------------------------------------------------------
  // The inode read/write loops

  /** The block holding data block n of inode inum: its address resolved
      (allocating), then its bytes retrieved from the cache or the device,
      with the state both leave. */
  function FetchBlock(ctx: Ctx, v: Vol, inum: int, n: int): (r: Result<(int, seq<byte>, Vol)>)
    requires 0 <= inum < |v.inodes|
    ensures r.Ok? ==> Grows(v, r.value.2, inum)
  {
    match GetDiskAddr(ctx, v, inum, n)
    case Err(f) => Err(f)
    case Ok(found) =>
      GetDiskAddrGrows(ctx, v, inum, n);
      match Retrieve(ctx, found.1, found.0, false)
      case Err(f) => Err(f)
      case Ok(got) => Ok((found.0, got.0, got.1))
  }

  /** dst with src copied in at position at: the copy loops of read and
      write. */
  function Splice(dst: seq<byte>, at: nat, src: seq<byte>): (r: seq<byte>)
    requires at + |src| <= |dst|
    ensures |r| == |dst| && r[at..at + |src|] == src
    ensures forall i :: 0 <= i < |dst| && !(at <= i < at + |src|) ==> r[i] == dst[i]
  {
    dst[..at] + src + dst[at + |src|..]
  }

  /** The loop stands at the request's start, at a later block boundary
      or at its end. */
  predicate At(offset: nat, start: nat, count: nat, blockSize: int) {
    && blockSize > 0 && start <= offset <= start + count
    && (offset == start || offset == start + count || offset % blockSize == 0)
  }

  /** One pass of INode.write's loop at offset: the chunk's block is
      resolved (allocating), retrieved, overwritten in
      [startWriteAt, restOfBlock) with the next bytes of buf, and cached
      dirty. A block shorter than the chunk is an IndexError. */
  function WriteChunk(ctx: Ctx, v: Vol, inum: int, buf: seq<byte>, start: nat, offset: nat): (r: Result<Vol>)
    requires 0 <= inum < |v.inodes| && At(offset, start, |buf|, ctx.blockSize) && offset < start + |buf|
    ensures r.Ok? ==> |r.value.inodes| == |v.inodes| && |r.value.bits| == |v.bits|
  {
    var end := start + |buf|;
    var c := ChunkAt(offset, start, end, ctx.blockSize);
    var next := Advance(offset, start, end, ctx.blockSize);
    ChunkFacts(offset, start, end, ctx.blockSize);
    match FetchBlock(ctx, v, inum, c.blockIndex)
    case Err(f) => Err(f)
    case Ok(got) =>
      var (addr, data, w) := got;
      if |data| < c.restOfBlock then Err(IndexFault)
      else
        var i0 := BufferIndex(offset, start, 0);
        Ok(CacheBlock(w, addr, Splice(data, c.startWriteAt, buf[i0 .. i0 + (next - offset)])))
  }

  /** INode.write(buf, start): the loop from offset to the end of the
      request. */
  function WriteFrom(ctx: Ctx, v: Vol, inum: int, buf: seq<byte>, start: nat, offset: nat): (r: Result<Vol>)
    requires 0 <= inum < |v.inodes| && At(offset, start, |buf|, ctx.blockSize)
    ensures r.Ok? ==> |r.value.inodes| == |v.inodes| && |r.value.bits| == |v.bits|
    decreases start + |buf| - offset
  {
    if offset == start + |buf| then Ok(v)
    else match WriteChunk(ctx, v, inum, buf, start, offset)
      case Err(f) => Err(f)
      case Ok(w) => WriteFrom(ctx, w, inum, buf, start, Advance(offset, start, start + |buf|, ctx.blockSize))
  }

  /** One pass of INode.read's loop at offset: the chunk's block is
      resolved (allocating too), retrieved, copied into the next bytes of
      buf, and cached dirty. */
  function ReadChunk(ctx: Ctx, v: Vol, inum: int, buf: seq<byte>, start: nat, offset: nat): (r: Result<(seq<byte>, Vol)>)
    requires 0 <= inum < |v.inodes| && At(offset, start, |buf|, ctx.blockSize) && offset < start + |buf|
    ensures r.Ok? ==> |r.value.0| == |buf| && |r.value.1.inodes| == |v.inodes| && |r.value.1.bits| == |v.bits|
  {
    var end := start + |buf|;
    var c := ChunkAt(offset, start, end, ctx.blockSize);
    var next := Advance(offset, start, end, ctx.blockSize);
    ChunkFacts(offset, start, end, ctx.blockSize);
    match FetchBlock(ctx, v, inum, c.blockIndex)
    case Err(f) => Err(f)
    case Ok(got) =>
      var (addr, data, w) := got;
      if |data| < c.restOfBlock then Err(IndexFault)
      else
        var i0 := BufferIndex(offset, start, 0);
        Ok((Splice(buf, i0, data[c.startWriteAt..c.restOfBlock]), CacheBlock(w, addr, data)))
  }

  /** INode.read(buf, start): the loop from offset to the end of the
      request. */
  function ReadFrom(ctx: Ctx, v: Vol, inum: int, buf: seq<byte>, start: nat, offset: nat): (r: Result<(seq<byte>, Vol)>)
    requires 0 <= inum < |v.inodes| && At(offset, start, |buf|, ctx.blockSize)
    ensures r.Ok? ==> |r.value.0| == |buf| && |r.value.1.inodes| == |v.inodes| && |r.value.1.bits| == |v.bits|
    decreases start + |buf| - offset
  {
    if offset == start + |buf| then Ok((buf, v))
    else match ReadChunk(ctx, v, inum, buf, start, offset)
      case Err(f) => Err(f)
      case Ok(got) => ReadFrom(ctx, got.1, inum, got.0, start, Advance(offset, start, start + |buf|, ctx.blockSize))
  }

  lemma WriteChunkGrows(ctx: Ctx, v: Vol, inum: int, buf: seq<byte>, start: nat, offset: nat)
    requires 0 <= inum < |v.inodes| && At(offset, start, |buf|, ctx.blockSize) && offset < start + |buf|
    requires WriteChunk(ctx, v, inum, buf, start, offset).Ok?
    ensures Grows(v, WriteChunk(ctx, v, inum, buf, start, offset).value, inum)
  {
    ChunkFacts(offset, start, start + |buf|, ctx.blockSize);
    GetDiskAddrGrows(ctx, v, inum, ChunkAt(offset, start, start + |buf|, ctx.blockSize).blockIndex);
  }

  lemma ReadChunkGrows(ctx: Ctx, v: Vol, inum: int, buf: seq<byte>, start: nat, offset: nat)
    requires 0 <= inum < |v.inodes| && At(offset, start, |buf|, ctx.blockSize) && offset < start + |buf|
    requires ReadChunk(ctx, v, inum, buf, start, offset).Ok?
    ensures Grows(v, ReadChunk(ctx, v, inum, buf, start, offset).value.1, inum)
  {
    ChunkFacts(offset, start, start + |buf|, ctx.blockSize);
    GetDiskAddrGrows(ctx, v, inum, ChunkAt(offset, start, start + |buf|, ctx.blockSize).blockIndex);
  }

  /** INode.write never frees a block, clears a dirty flag or changes
      another inode. */
  lemma {:induction false} WriteFromGrows(ctx: Ctx, v: Vol, inum: int, buf: seq<byte>, start: nat, offset: nat)
    requires 0 <= inum < |v.inodes| && At(offset, start, |buf|, ctx.blockSize)
    requires WriteFrom(ctx, v, inum, buf, start, offset).Ok?
    ensures Grows(v, WriteFrom(ctx, v, inum, buf, start, offset).value, inum)
    decreases start + |buf| - offset
  {
    if offset < start + |buf| {
      var w := WriteChunk(ctx, v, inum, buf, start, offset).value;
      WriteChunkGrows(ctx, v, inum, buf, start, offset);
      var next := Advance(offset, start, start + |buf|, ctx.blockSize);
      WriteFromGrows(ctx, w, inum, buf, start, next);
      GrowsTrans(v, w, WriteFrom(ctx, w, inum, buf, start, next).value, inum);
    }
  }

  /** INode.read never frees a block, clears a dirty flag or changes
      another inode (it may allocate: the resolver ignores alloc). */
  lemma {:induction false} ReadFromGrows(ctx: Ctx, v: Vol, inum: int, buf: seq<byte>, start: nat, offset: nat)
    requires 0 <= inum < |v.inodes| && At(offset, start, |buf|, ctx.blockSize)
    requires ReadFrom(ctx, v, inum, buf, start, offset).Ok?
    ensures Grows(v, ReadFrom(ctx, v, inum, buf, start, offset).value.1, inum)
    decreases start + |buf| - offset
  {
    if offset < start + |buf| {
      var got := ReadChunk(ctx, v, inum, buf, start, offset).value;
      ReadChunkGrows(ctx, v, inum, buf, start, offset);
      var next := Advance(offset, start, start + |buf|, ctx.blockSize);
      ReadFromGrows(ctx, got.1, inum, got.0, start, next);
      GrowsTrans(v, got.1, ReadFrom(ctx, got.1, inum, got.0, start, next).value.1, inum);
    }
  }
}
