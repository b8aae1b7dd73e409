/** Inodes: the type tag, the inode record and its 126-byte on-disk form,
    blocks of pointers, and the arithmetic the indirect-block resolver and
    the read/write loops are built on. The operations that need the volume
    (allocation, the block cache) are in module Volume. */
module INodes {
  import opened Bytes
  import opened Outcomes
  import opened Arith

  // ---------------------------------------------------------------------
  // Type tags

  datatype INodeType = FREE | FILE | DIRECTORY | SYMLINK

  /** The one-byte tag: ord("O"), ord("f"), ord("d"), ord("s"). */
  function Tag(t: INodeType): byte
  {
    match t
    case FREE => 'O' as int
    case FILE => 'f' as int
    case DIRECTORY => 'd' as int
    case SYMLINK => 's' as int
  }

  /** INodeType(v): the type with tag v; any other value is a ValueError. */
  function TypeOfTag(v: int): (r: Option<INodeType>)
    ensures r.Some? ==> Tag(r.value) == v
  {
    if v == 'O' as int then Some(FREE)
    else if v == 'f' as int then Some(FILE)
    else if v == 'd' as int then Some(DIRECTORY)
    else if v == 's' as int then Some(SYMLINK)
    else None
  }

  lemma TagRoundTrip(t: INodeType)
    ensures TypeOfTag(Tag(t)) == Some(t)
  {
  }

  // ---------------------------------------------------------------------
  // The inode record

  const NumBlockPtrs := 26
  const DefaultDate := 777
  const DefaultPerms := 777
  const DefaultLevel := 0
  const DefaultLength := 2048
  const DefaultMagicNumber := 5000
  /** Size of the fixed header ("=hiibhbii") and of the whole record. */
  const HeaderSize := 22
  const RecordSize := 22 + 4 * 26

  datatype INode = INode(
    inodeNum: int,
    cdate: int,
    mdate: int,
    flags: INodeType,
    perms: int,
    level: int,
    length: int,
    magicNumber: int,
    blockPtrs: seq<int>)

  /** INode(fs, num): a FREE inode with the default fields and 26 empty
      pointers. */
  function NewINode(num: int): (n: INode)
    ensures n.inodeNum == num && n.flags == FREE && n.level == 0 && n.length == 2048
    ensures |n.blockPtrs| == NumBlockPtrs && forall x :: 0 <= x < NumBlockPtrs ==> n.blockPtrs[x] == 0
  {
    INode(num, DefaultDate, DefaultDate, FREE, DefaultPerms, DefaultLevel,
          DefaultLength, DefaultMagicNumber, seq(NumBlockPtrs, _ => 0))
  }

  predicate IsFile(n: INode) { n.flags == FILE }
  predicate IsDirectory(n: INode) { n.flags == DIRECTORY }

  /** Every pointer of ptrs below count fits an 'i' field. */
  predicate PtrsFit(ptrs: seq<int>, count: nat) {
    count <= |ptrs| && forall x :: 0 <= x < count ==> IsI32(ptrs[x])
  }

  /** struct.pack accepts every field of the record. */
  predicate Packable(n: INode) {
    && IsI16(n.inodeNum) && IsI32(n.cdate) && IsI32(n.mdate)
    && IsI16(n.perms) && IsI8(n.level) && IsI32(n.length) && IsI32(n.magicNumber)
    && PtrsFit(n.blockPtrs, NumBlockPtrs)
  }

  // ---------------------------------------------------------------------
  // Blocks of pointers: count consecutive 'i' fields

  /** The bytes of ptrs[0..count], four per pointer (writeBlockOfPtrs and
      the pointer part of the inode record). */
  function EncodePtrs(ptrs: seq<int>, count: nat): (s: seq<byte>)
    requires PtrsFit(ptrs, count)
    ensures |s| == 4 * count
  {
    if count == 0 then [] else EncodePtrs(ptrs, count - 1) + EncodeSigned(ptrs[count - 1], 4)
  }

  /** Pointer x of the encoding is the 4-byte field at 4 * x. */
  lemma {:induction false} EncodePtrsField(ptrs: seq<int>, count: nat, x: nat)
    requires PtrsFit(ptrs, count) && x < count
    ensures EncodePtrs(ptrs, count)[4 * x .. 4 * x + 4] == EncodeSigned(ptrs[x], 4)
  {
    var prefix := EncodePtrs(ptrs, count - 1);
    if x < count - 1 {
      EncodePtrsField(ptrs, count - 1, x);
      SlotInside(x, count - 1);
      assert EncodePtrs(ptrs, count)[4 * x .. 4 * x + 4] == prefix[4 * x .. 4 * x + 4];
    } else {
      assert EncodePtrs(ptrs, count)[4 * x .. 4 * x + 4] == EncodeSigned(ptrs[x], 4);
    }
  }

  /** blockToBlockPtrs: count pointers read from the front of a block. */
  function DecodePtrs(bytes: seq<byte>, count: nat): (ptrs: seq<int>)
    requires 4 * count <= |bytes|
    ensures |ptrs| == count && PtrsFit(ptrs, count)
  {
    if count == 0 then []
    else DecodePtrs(bytes, count - 1) + [DecodeSigned(bytes[4 * (count - 1) .. 4 * count])]
  }

  /** Pointer x is decoded from the 4-byte field at 4 * x. */
  lemma {:induction false} DecodePtrsField(bytes: seq<byte>, count: nat, x: nat)
    requires 4 * count <= |bytes| && x < count
    ensures DecodePtrs(bytes, count)[x] == DecodeSigned(bytes[4 * x .. 4 * x + 4])
  {
    if x < count - 1 {
      DecodePtrsField(bytes, count - 1, x);
    }
  }

  /** blockToBlockPtrs(writeBlockOfPtrs(ptrs)) == ptrs, whatever follows
      the encoding in the block. */
  lemma DecodeEncodePtrs(ptrs: seq<int>, count: nat, rest: seq<byte>)
    requires PtrsFit(ptrs, count)
    ensures DecodePtrs(EncodePtrs(ptrs, count) + rest, count) == ptrs[..count]
  {
    var d := DecodePtrs(EncodePtrs(ptrs, count) + rest, count);
    forall x | 0 <= x < count
      ensures d[x] == ptrs[x]
    {
      DecodePtrsField(EncodePtrs(ptrs, count) + rest, count, x);
      FieldRoundTrip(ptrs, count, rest, x);
    }
    assert d == ptrs[..count];
  }

  lemma FieldRoundTrip(ptrs: seq<int>, count: nat, rest: seq<byte>, x: nat)
    requires PtrsFit(ptrs, count) && x < count
    ensures DecodeSigned((EncodePtrs(ptrs, count) + rest)[4 * x .. 4 * x + 4]) == ptrs[x]
  {
    var e := EncodePtrs(ptrs, count);
    SlotInside(x, count);
    EncodePtrsField(ptrs, count, x);
    assert (e + rest)[4 * x .. 4 * x + 4] == e[4 * x .. 4 * x + 4];
    DecodeEncodeSigned(ptrs[x], 4);
  }

  /** ... and re-encoding decoded pointers gives back the bytes read. */
  lemma EncodeDecodePtrs(bytes: seq<byte>, count: nat)
    requires 4 * count <= |bytes|
    ensures EncodePtrs(DecodePtrs(bytes, count), count) == bytes[..4 * count]
  {
    var d := DecodePtrs(bytes, count);
    var e := EncodePtrs(d, count);
    forall i | 0 <= i < 4 * count
      ensures e[i] == bytes[i]
    {
      var x := i / 4;
      DivBounds(i, 4);
      SlotInside(x, count);
      var field := bytes[4 * x .. 4 * x + 4];
      DecodePtrsField(bytes, count, x);
      EncodePtrsField(d, count, x);
      assert d[x] == DecodeSigned(field);
      EncodeDecodeSigned(field);
      assert e[4 * x .. 4 * x + 4] == EncodeSigned(d[x], 4) == field;
      assert e[i] == e[4 * x .. 4 * x + 4][i - 4 * x];
    }
  }

  lemma SlotInside(x: int, count: int)
    requires 0 <= x < count
    ensures 4 * x + 4 <= 4 * count
  {
  }

  /** A block of blockSize/4 pointers fills the block exactly when the
      block size is a multiple of 4. */
  lemma PtrBlockSize(ptrs: seq<int>, blockSize: nat)
    requires PtrsFit(ptrs, blockSize / 4)
    ensures |EncodePtrs(ptrs, blockSize / 4)| <= blockSize
    ensures blockSize % 4 == 0 ==> |EncodePtrs(ptrs, blockSize / 4)| == blockSize
  {
  }

  // ---------------------------------------------------------------------
  // The record: "=hiibhbii" then 26 'i' pointers

  function PackHeader(n: INode): (s: seq<byte>)
    requires Packable(n)
    ensures |s| == HeaderSize
  {
    EncodeSigned(n.inodeNum, 2) + EncodeSigned(n.cdate, 4) + EncodeSigned(n.mdate, 4)
    + EncodeSigned(Tag(n.flags), 1) + EncodeSigned(n.perms, 2) + EncodeSigned(n.level, 1)
    + EncodeSigned(n.length, 4) + EncodeSigned(n.magicNumber, 4)
  }

  /** INode.pack's bytes, before write_block pads them to a block. */
  function PackINode(n: INode): (s: seq<byte>)
    requires Packable(n)
    ensures |s| == RecordSize
  {
    PackHeader(n) + EncodePtrs(n.blockPtrs, NumBlockPtrs)
  }

  /** The record's layout: the 22-byte header, then pointer x at byte
      22 + 4x. */
  lemma PackINodeLayout(n: INode)
    requires Packable(n)
    ensures PackINode(n)[..HeaderSize] == PackHeader(n)
    ensures forall x :: 0 <= x < NumBlockPtrs ==>
      PackINode(n)[HeaderSize + 4 * x .. HeaderSize + 4 * x + 4] == EncodeSigned(n.blockPtrs[x], 4)
  {
    var s := PackINode(n);
    assert s[..HeaderSize] == PackHeader(n);
    forall x | 0 <= x < NumBlockPtrs
      ensures s[HeaderSize + 4 * x .. HeaderSize + 4 * x + 4] == EncodeSigned(n.blockPtrs[x], 4)
    {
      EncodePtrsField(n.blockPtrs, NumBlockPtrs, x);
      assert s[HeaderSize + 4 * x .. HeaderSize + 4 * x + 4]
          == EncodePtrs(n.blockPtrs, NumBlockPtrs)[4 * x .. 4 * x + 4];
    }
  }

  /** INode.unpack on a block: the header fields, the type from its tag and
      26 pointers. Fewer than 126 bytes is a struct.error, an unknown tag a
      ValueError. */
  function UnpackINode(b: seq<byte>): (r: Result<INode>)
    ensures r.Ok? ==> |r.value.blockPtrs| == NumBlockPtrs && PtrsFit(r.value.blockPtrs, NumBlockPtrs)
    ensures r.Ok? ==> Packable(r.value)
  {
    if |b| < RecordSize then Err(FormatFault)
    else
      var tag := DecodeSigned(b[10..11]);
      match TypeOfTag(tag)
      case None => Err(FormatFault)
      case Some(t) =>
        Ok(INode(
          DecodeSigned(b[0..2]), DecodeSigned(b[2..6]), DecodeSigned(b[6..10]), t,
          DecodeSigned(b[11..13]), DecodeSigned(b[13..14]), DecodeSigned(b[14..18]),
          DecodeSigned(b[18..22]), DecodePtrs(b[HeaderSize..], NumBlockPtrs)))
  }

  /** Unpacking a packed record restores every field, whatever padding
      follows it in the block. */
  lemma UnpackPack(n: INode, pad: seq<byte>)
    requires Packable(n) && |n.blockPtrs| == NumBlockPtrs
    ensures UnpackINode(PackINode(n) + pad) == Ok(n)
  {
    var b := PackINode(n) + pad;
    var h := PackHeader(n);
    assert PackINode(n) == h + EncodePtrs(n.blockPtrs, NumBlockPtrs);
    assert b[..HeaderSize] == h;
    assert b[0..2] == EncodeSigned(n.inodeNum, 2);
    assert b[2..6] == EncodeSigned(n.cdate, 4);
    assert b[6..10] == EncodeSigned(n.mdate, 4);
    assert b[10..11] == EncodeSigned(Tag(n.flags), 1);
    assert b[11..13] == EncodeSigned(n.perms, 2);
    assert b[13..14] == EncodeSigned(n.level, 1);
    assert b[14..18] == EncodeSigned(n.length, 4);
    assert b[18..22] == EncodeSigned(n.magicNumber, 4);
    DecodeEncodeSigned(n.inodeNum, 2);
    DecodeEncodeSigned(n.cdate, 4);
    DecodeEncodeSigned(n.mdate, 4);
    DecodeEncodeSigned(Tag(n.flags), 1);
    DecodeEncodeSigned(n.perms, 2);
    DecodeEncodeSigned(n.level, 1);
    DecodeEncodeSigned(n.length, 4);
    DecodeEncodeSigned(n.magicNumber, 4);
    assert b[HeaderSize..] == EncodePtrs(n.blockPtrs, NumBlockPtrs) + pad;
    DecodeEncodePtrs(n.blockPtrs, NumBlockPtrs, pad);
    assert n.blockPtrs[..NumBlockPtrs] == n.blockPtrs;
  }

  /** A fresh inode fits its record. */
  lemma NewINodePackable(num: int)
    requires IsI16(num)
    ensures Packable(NewINode(num))
  {
  }

  // ---------------------------------------------------------------------
  // Index arithmetic of the indirect-block resolver

  /** base ** exp */
  function Pow(base: int, exp: nat): int
  {
    if exp == 0 then 1 else base * Pow(base, exp - 1)
  }

  lemma {:induction false} PowPositive(base: int, exp: nat)
    requires base > 0
    ensures Pow(base, exp) > 0
  {
    if exp > 0 {
      PowPositive(base, exp - 1);
    }
  }

  /** One level of the descent: child slot newBlockIndex = n // p and the
      index within it newBlockNumber = n - newBlockIndex * p. */
  function SplitIndex(n: nat, p: int): (r: (nat, nat))
    requires p > 0
    ensures r.0 * p + r.1 == n && r.1 < p
  {
    (n / p, n - (n / p) * p)
  }

  /** The slot used at each level, from the top (level) down to level 0. */
  function SlotPath(n: nat, ppb: int, level: nat): (path: seq<nat>)
    requires ppb > 0
    ensures |path| == level + 1
  {
    if level == 0 then [n]
    else
      PowPositive(ppb, level);
      var (child, rem) := SplitIndex(n, Pow(ppb, level));
      [child] + SlotPath(rem, ppb, level - 1)
  }

  /** The value a slot path denotes, most significant slot first. */
  function PathValue(path: seq<nat>, ppb: int): int
  {
    if path == [] then 0 else path[0] * Pow(ppb, |path| - 1) + PathValue(path[1..], ppb)
  }

  /** The slots are the base-ppb digits of n: below the top every slot is
      below ppb, and the top slot is n // ppb^level. */
  lemma {:induction false} SlotPathDigits(n: nat, ppb: int, level: nat)
    requires ppb > 0
    ensures PathValue(SlotPath(n, ppb, level), ppb) == n
    ensures forall i :: 1 <= i <= level ==> SlotPath(n, ppb, level)[i] < ppb
    ensures SlotPath(n, ppb, level)[0] == n / Pow(ppb, level)
  {
    if level > 0 {
      PowPositive(ppb, level);
      var p := Pow(ppb, level);
      var (child, rem) := SplitIndex(n, p);
      SlotPathDigits(rem, ppb, level - 1);
      var path := SlotPath(n, ppb, level);
      assert path[1..] == SlotPath(rem, ppb, level - 1);
      assert PathValue(path, ppb) == child * p + rem;
      if level > 1 {
        PowPositive(ppb, level - 1);
        SplitBelow(rem, ppb, level - 1);
      } else {
        assert SlotPath(rem, ppb, 0)[0] == rem;
      }
    }
  }

  lemma SplitBelow(rem: nat, ppb: int, level: nat)
    requires ppb > 0 && level >= 1 && rem < Pow(ppb, level + 1)
    ensures rem / Pow(ppb, level) < ppb
  {
    PowPositive(ppb, level);
    var p := Pow(ppb, level);
    assert Pow(ppb, level + 1) == ppb * p;
    DivBounds(rem, p);
    if rem / p >= ppb {
      MulMonotone(ppb, rem / p, p);
    }
  }

  /** An inode of this level addresses 26 * ppb^level logical blocks: the top
      slot is in range exactly when n is below that bound. */
  lemma Capacity(n: nat, ppb: int, level: nat)
    requires ppb > 0
    ensures SlotPath(n, ppb, level)[0] < NumBlockPtrs <==> n < NumBlockPtrs * Pow(ppb, level)
  {
    SlotPathDigits(n, ppb, level);
    PowPositive(ppb, level);
    var p := Pow(ppb, level);
    DivBounds(n, p);
    if n / p < NumBlockPtrs {
      Distrib(n / p, 1, p);
      MulMonotone(n / p + 1, NumBlockPtrs, p);
    } else {
      MulMonotone(NumBlockPtrs, n / p, p);
    }
  }

  // ---------------------------------------------------------------------
  // The read/write loops: one chunk per block

  /** One iteration's bounds: blockIndex, and the part
      [startWriteAt, restOfBlock) of that block the request covers. */
  datatype Chunk = Chunk(blockIndex: nat, startWriteAt: nat, restOfBlock: nat)

  function ChunkAt(offset: nat, start: nat, end: nat, blockSize: nat): Chunk
    requires blockSize > 0
  {
    var blockIndex := offset / blockSize;
    var readIndex := blockIndex * blockSize;
    var startWriteAt := if readIndex < start then start - readIndex else 0;
    var restOfBlock := if readIndex + blockSize > end then end - readIndex else blockSize;
    Chunk(blockIndex, startWriteAt, if restOfBlock < 0 then 0 else restOfBlock)
  }

  /** offset is where the loop stands: the request's start, or the start of
      a later block. */
  predicate LoopOffset(offset: nat, start: nat, end: nat, blockSize: nat) {
    blockSize > 0 && start <= offset < end && (offset == start || offset % blockSize == 0)
  }

  /** A chunk of the loop standing at offset: a non-empty run inside block
      blockIndex that begins at offset and ends at the next block boundary
      or at the end of the request. */
  predicate ChunkFits(c: Chunk, offset: nat, end: nat, blockSize: nat) {
    && blockSize > 0
    && c.startWriteAt < c.restOfBlock <= blockSize
    && c.blockIndex * blockSize + c.startWriteAt == offset
    && offset + (c.restOfBlock - c.startWriteAt) <= end
    && (offset + (c.restOfBlock - c.startWriteAt) == end
        || (offset + (c.restOfBlock - c.startWriteAt)) % blockSize == 0)
    && forall k :: offset <= k < offset + (c.restOfBlock - c.startWriteAt) ==> k / blockSize == c.blockIndex
  }

  /** Each iteration's chunk fits. */
  lemma ChunkFacts(offset: nat, start: nat, end: nat, blockSize: nat)
    requires LoopOffset(offset, start, end, blockSize)
    ensures ChunkFits(ChunkAt(offset, start, end, blockSize), offset, end, blockSize)
  {
    var c := ChunkAt(offset, start, end, blockSize);
    var readIndex := c.blockIndex * blockSize;
    DivBounds(offset, blockSize);
    if offset != start {
      assert offset % blockSize == 0;
      assert readIndex == offset;
    }
    var next := offset + (c.restOfBlock - c.startWriteAt);
    assert next == readIndex + c.restOfBlock;
    Distrib(c.blockIndex, 1, blockSize);
    forall k | offset <= k < next
      ensures k / blockSize == c.blockIndex
    {
      DivInBlock(k, c.blockIndex, blockSize);
    }
    if next != end {
      assert next == (c.blockIndex + 1) * blockSize;
      DivUnique(next, c.blockIndex + 1, 0, blockSize);
    }
  }

  /** Where the loop stands after the chunk at offset. */
  function Advance(offset: nat, start: nat, end: nat, blockSize: nat): (next: nat)
    requires LoopOffset(offset, start, end, blockSize)
    ensures offset < next <= end && (next == end || next % blockSize == 0)
    ensures var c := ChunkAt(offset, start, end, blockSize); next - offset == c.restOfBlock - c.startWriteAt
  {
    ChunkFacts(offset, start, end, blockSize);
    var c := ChunkAt(offset, start, end, blockSize);
    offset + (c.restOfBlock - c.startWriteAt)
  }

  lemma DivInBlock(k: nat, b: nat, blockSize: nat)
    requires blockSize > 0 && b * blockSize <= k < b * blockSize + blockSize
    ensures k / blockSize == b
  {
    DivUnique(k, b, k - b * blockSize, blockSize);
  }

  /** Where a chunk's i-th byte lives in the caller's buffer: as far into
      the buffer as the loop has advanced. */
  function BufferIndex(offset: nat, start: nat, i: nat): (r: int)
    requires start <= offset
    ensures r >= 0
  {
    offset - start + i
  }

  /** The loops' buffer[bp*blockSize + i], bp counting iterations. */
  function AsWrittenBufferIndex(bp: nat, blockSize: nat, i: nat): nat
  {
    bp * blockSize + i
  }

  /** Where the loop stands after bp iterations (bp >= 1: a block boundary). */
  function OffsetAfter(bp: nat, start: nat, blockSize: nat): nat
    requires blockSize > 0
  {
    if bp == 0 then start else (start / blockSize + bp) * blockSize
  }

  /** The as-written index agrees with the buffer position only in the first
      iteration or when the request starts on a block boundary. */
  lemma AsWrittenIndexAgrees(bp: nat, start: nat, blockSize: nat, i: nat)
    requires blockSize > 0
    ensures OffsetAfter(bp, start, blockSize) >= start
    ensures AsWrittenBufferIndex(bp, blockSize, i) == BufferIndex(OffsetAfter(bp, start, blockSize), start, i)
        <==> bp == 0 || start % blockSize == 0
  {
    DivBounds(start, blockSize);
    if bp > 0 {
      Distrib(start / blockSize, bp, blockSize);
      MulMonotone(1, bp, blockSize);
    }
  }

  /** Four bytes at offset 2 with 4-byte blocks: the second iteration writes
      buffer[4], past the end of the 4-byte buffer (an IndexError), while the
      byte it should transfer is buffer[2]. */
  lemma AsWrittenIndexOverruns()
    ensures ChunkAt(OffsetAfter(1, 2, 4), 2, 6, 4) == Chunk(1, 0, 2)
    ensures AsWrittenBufferIndex(1, 4, 0) == 4
    ensures BufferIndex(OffsetAfter(1, 2, 4), 2, 0) == 2
  {
  }
}
