/** The master block: the volume's layout parameters, derived from the
    block count and size, and their 25-byte record "=ihihiiic" in block 0. */
module MasterBlocks {
  import opened Bytes
  import opened Outcomes
  import opened Arith

  const DefaultBlockSize := 1024
  const DefaultBlockCount := 1024
  const DefaultInodeCount := 256
  const DefaultBlockMapAddress := 1
  const DefaultMagicNumber := 0x700154ED
  const DefaultRootDirAddress := 0
  const DefaultFlags := "X"
  const RecordSize := 25

  /** Python's x // y: the floor of x / y, for either sign of y. */
  function FloorDiv(x: int, y: int): (q: int)
    requires y != 0
    ensures y > 0 ==> q * y <= x < q * y + y
  {
    if y > 0 then x / y else (-x) / (-y)
  }

  /** cielDiv: -(-x // y), the ceiling of x / y for a positive y. */
  function CeilDiv(x: int, y: int): (r: int)
    requires y != 0
    ensures y > 0 ==> (r - 1) * y < x <= r * y
  {
    var r := -FloorDiv(-x, y);
    Distrib(r, -1, y);
    r
  }

  lemma CeilDivUnique(x: int, y: int, r: int)
    requires y > 0 && (r - 1) * y < x <= r * y
    ensures CeilDiv(x, y) == r
  {
    var c := CeilDiv(x, y);
    if c < r {
      MulMonotone(c, r - 1, y);
    } else if c > r {
      MulMonotone(r, c - 1, y);
    }
  }

  /** The in-memory master block. blockMapBlockCount is computed by the
      constructor and is not part of the record. */
  datatype MasterBlock = MasterBlock(
    magicNumber: int,
    blockSize: int,
    blockCount: int,
    inodeCount: int,
    blockMapAddress: int,
    inodeMapAddress: int,
    rootDirAddress: int,
    flags: string,
    blockMapBlockCount: int)

  /** The number of blockSize-byte blocks that hold blockCount bits. */
  function BitmapBlocks(blockCount: int, blockSize: int): int
    requires blockSize != 0
  {
    CeilDiv(CeilDiv(blockCount, 8), blockSize)
  }

  /** The bitmap blocks hold every bit, and one block fewer would not. */
  lemma BitmapBlocksMinimal(blockCount: nat, blockSize: int)
    requires blockSize > 0
    ensures var b := BitmapBlocks(blockCount, blockSize);
      b >= 0 && 8 * (b * blockSize) >= blockCount && (b == 0 || 8 * ((b - 1) * blockSize) < blockCount)
  {
    var bytes := CeilDiv(blockCount, 8);
    var b := CeilDiv(bytes, blockSize);
    assert bytes >= 0;
    if b < 0 {
      MulMonotone(b, -1, blockSize);
    }
    if b > 0 {
      assert (b - 1) * blockSize < bytes;
      assert (b - 1) * blockSize <= bytes - 1;
      assert 8 * (bytes - 1) < blockCount;
    }
  }

  /** MasterBlock(fs, blockcount=.., blocksize=..) with the other defaults;
      a zero block size is a ZeroDivisionError. */
  function NewMasterBlock(blockCount: int, blockSize: int): (r: Result<MasterBlock>)
    ensures r.Ok? <==> blockSize != 0
    ensures r.Ok? ==> var m := r.value;
      && m.magicNumber == 0x700154ED && m.flags == "X"
      && m.blockCount == blockCount && m.blockSize == blockSize
      && m.inodeCount == DefaultInodeCount && m.rootDirAddress == 0
      && m.blockMapAddress == DefaultBlockMapAddress
      && m.inodeMapAddress == m.blockMapAddress + m.blockMapBlockCount
      && m.blockMapBlockCount == BitmapBlocks(blockCount, blockSize)
  {
    if blockSize == 0 then Err(ArithFault)
    else
      var bmbc := BitmapBlocks(blockCount, blockSize);
      Ok(MasterBlock(DefaultMagicNumber, blockSize, blockCount, DefaultInodeCount,
                     DefaultBlockMapAddress, DefaultBlockMapAddress + bmbc,
                     DefaultRootDirAddress, DefaultFlags, bmbc))
  }

  /** A one-character ASCII flag, so bytes(flags, "utf8") is one byte. */
  predicate FlagFits(flags: string) {
    |flags| == 1 && flags[0] as int < 128
  }

  predicate Packable(m: MasterBlock) {
    && IsI32(m.magicNumber) && IsI16(m.blockSize) && IsI32(m.blockCount)
    && IsI16(m.inodeCount) && IsI32(m.blockMapAddress) && IsI32(m.inodeMapAddress)
    && IsI32(m.rootDirAddress) && FlagFits(m.flags)
  }

  /** MasterBlock.pack; a field that does not fit its format is a
      struct.error. */
  function PackMaster(m: MasterBlock): (r: Result<seq<byte>>)
    ensures r.Ok? <==> Packable(m)
    ensures r.Ok? ==> |r.value| == RecordSize
  {
    if !Packable(m) then Err(RangeFault)
    else
      Ok(EncodeSigned(m.magicNumber, 4) + EncodeSigned(m.blockSize, 2)
         + EncodeSigned(m.blockCount, 4) + EncodeSigned(m.inodeCount, 2)
         + EncodeSigned(m.blockMapAddress, 4) + EncodeSigned(m.inodeMapAddress, 4)
         + EncodeSigned(m.rootDirAddress, 4) + [m.flags[0] as int])
  }

  /** MasterBlock.unpack on the first block: the eight recorded fields
      replace those of m; blockMapBlockCount is kept. A short block is a
      struct.error, a flag byte that is not ASCII a decoding error. */
  function UnpackMaster(m: MasterBlock, b: seq<byte>): (r: Result<MasterBlock>)
    ensures r.Ok? ==> r.value.blockMapBlockCount == m.blockMapBlockCount && Packable(r.value)
    ensures r.Ok? <==> |b| >= RecordSize && b[24] < 128
  {
    if |b| < RecordSize then Err(FormatFault)
    else if b[24] >= 128 then Err(EncodingFault)
    else
      Ok(MasterBlock(
        DecodeSigned(b[0..4]), DecodeSigned(b[4..6]), DecodeSigned(b[6..10]),
        DecodeSigned(b[10..12]), DecodeSigned(b[12..16]), DecodeSigned(b[16..20]),
        DecodeSigned(b[20..24]), [b[24] as char], m.blockMapBlockCount))
  }

  /** Unpacking the packed record restores every recorded field, whatever
      follows the record in the block. */
  lemma UnpackPack(m: MasterBlock, base: MasterBlock, pad: seq<byte>)
    requires Packable(m)
    ensures PackMaster(m).Ok?
    ensures UnpackMaster(base, PackMaster(m).value + pad)
         == Ok(m.(blockMapBlockCount := base.blockMapBlockCount))
  {
    var b := PackMaster(m).value + pad;
    assert b[0..4] == EncodeSigned(m.magicNumber, 4);
    assert b[4..6] == EncodeSigned(m.blockSize, 2);
    assert b[6..10] == EncodeSigned(m.blockCount, 4);
    assert b[10..12] == EncodeSigned(m.inodeCount, 2);
    assert b[12..16] == EncodeSigned(m.blockMapAddress, 4);
    assert b[16..20] == EncodeSigned(m.inodeMapAddress, 4);
    assert b[20..24] == EncodeSigned(m.rootDirAddress, 4);
    assert b[24] == m.flags[0] as int;
    DecodeEncodeSigned(m.magicNumber, 4);
    DecodeEncodeSigned(m.blockSize, 2);
    DecodeEncodeSigned(m.blockCount, 4);
    DecodeEncodeSigned(m.inodeCount, 2);
    DecodeEncodeSigned(m.blockMapAddress, 4);
    DecodeEncodeSigned(m.inodeMapAddress, 4);
    DecodeEncodeSigned(m.rootDirAddress, 4);
    assert [b[24] as char] == m.flags;
  }

  /** The layout of the volumes the creation tests build: 2048 blocks of
      2048 bytes have a one-block bitmap and the inode table at block 2. */
  lemma Layout2048()
    ensures NewMasterBlock(2048, 2048).Ok?
    ensures NewMasterBlock(2048, 2048).value.blockMapBlockCount == 1
    ensures NewMasterBlock(2048, 2048).value.inodeMapAddress == 2
  {
    CeilDivUnique(2048, 8, 256);
    CeilDivUnique(256, 2048, 1);
  }

  /** A freshly made master block can be packed when its numbers fit. */
  lemma NewMasterPackable(blockCount: int, blockSize: int)
    requires blockSize > 0 && IsI32(blockCount) && IsI16(blockSize) && blockCount >= 0
    ensures NewMasterBlock(blockCount, blockSize).Ok?
    ensures Packable(NewMasterBlock(blockCount, blockSize).value)
  {
    var b := BitmapBlocks(blockCount, blockSize);
    BitmapBlocksMinimal(blockCount, blockSize);
    if b > 0 {
      MulMonotone(1, blockSize, b - 1);
      assert b - 1 <= (b - 1) * blockSize;
    }
    SignedRanges();
  }
}
