/** The block store: device file names that carry the block size, and a
    device holding a fixed number of equally sized blocks that are read and
    written whole. The host file behind a device is replaced by an
    in-memory sequence of blocks. */
module BlockDevice {
  import opened Bytes
  import opened Outcomes
  import opened Text

  const DefaultBlockSize := 1024

  // ---------------------------------------------------------------------
  // Device file names: "<name>.<blocksize>.dev" or "<name>.dev"

  /** The '.'-parts of normalize_filename's result, before they are joined. */
  function NormalizedParts(filename: string, blocksize: int): (parts: seq<string>)
    ensures |parts| >= 2
    ensures forall i :: 0 <= i < |parts| ==> '.' !in parts[i]
  {
    var parts := Split(filename, '.');
    var withDev := if |parts| == 1 then parts + ["dev"] else parts;
    if blocksize != DefaultBlockSize
       && (!IsDecimal(withDev[1]) || DecimalValue(withDev[1]) != blocksize)
    then
      IntToStringNoSep(blocksize, '.');
      [withDev[0], IntToString(blocksize)] + withDev[1..]
    else withDev
  }

  /** normalize_filename: append "dev" as a part when there is no '.', and
      insert the block size as the second part unless it is the default or
      already there. */
  function NormalizeFilename(filename: string, blocksize: int): string
  {
    Join(NormalizedParts(filename, blocksize), '.')
  }

  /** filename_to_blocksize: the decimal second part, else the default. */
  function FilenameToBlocksize(filename: string): (bs: int)
    ensures bs >= 0
  {
    var parts := Split(filename, '.');
    if |parts| == 1 || !IsDecimal(parts[1]) then DefaultBlockSize
    else DecimalValue(parts[1])
  }

  lemma SplitNormalized(filename: string, blocksize: int)
    ensures Split(NormalizeFilename(filename, blocksize), '.') == NormalizedParts(filename, blocksize)
  {
    SplitJoin(NormalizedParts(filename, blocksize), '.');
  }

  /** With the default block size only a missing extension changes. */
  lemma NormalizeDefault(filename: string)
    ensures NormalizeFilename(filename, DefaultBlockSize)
         == if '.' in filename then filename else filename + ".dev"
  {
    var parts := Split(filename, '.');
    JoinSplit(filename, '.');
    if '.' in filename {
      if |parts| == 1 {
        SplitNoSep(filename, '.');
        assert false;
      }
    } else {
      SplitNoSep(filename, '.');
      assert NormalizedParts(filename, DefaultBlockSize) == [filename, "dev"];
    }
  }

  /** A non-default block size is recovered from the normalized name. */
  lemma NormalizeRecoversBlocksize(filename: string, blocksize: int)
    requires blocksize >= 0 && blocksize != DefaultBlockSize
    ensures FilenameToBlocksize(NormalizeFilename(filename, blocksize)) == blocksize
  {
    SplitNormalized(filename, blocksize);
    var parts := NormalizedParts(filename, blocksize);
    if IntToString(blocksize) == parts[1] {
      DecimalRoundTrip(blocksize);
    }
  }

  /** Normalizing an already normalized name changes nothing (unmount
      renormalizes the name it was mounted from). A negative block size
      is inserted again on every pass, since "-5" is not decimal. */
  lemma NormalizeIdempotent(filename: string, blocksize: int)
    requires blocksize >= 0
    ensures NormalizeFilename(NormalizeFilename(filename, blocksize), blocksize)
         == NormalizeFilename(filename, blocksize)
  {
    SplitNormalized(filename, blocksize);
    var parts := NormalizedParts(filename, blocksize);
    if blocksize != DefaultBlockSize && IntToString(blocksize) == parts[1] {
      DecimalRoundTrip(blocksize);
    }
    assert NormalizedParts(NormalizeFilename(filename, blocksize), blocksize) == parts;
  }

  lemma NormalizeExampleDefault()
    ensures NormalizeFilename("test", DefaultBlockSize) == "test.dev"
  {
    NormalizeDefault("test");
  }

  lemma Decimal2048()
    ensures IntToString(2048) == "2048"
  {
    assert NatToDecimal(2) == "2";
    assert NatToDecimal(20) == NatToDecimal(2) + [DigitChar(0)];
    assert NatToDecimal(204) == NatToDecimal(20) + [DigitChar(4)];
    assert NatToDecimal(2048) == NatToDecimal(204) + [DigitChar(8)];
  }

  lemma PartsExample2048()
    ensures NormalizedParts("testII", 2048) == ["testII", "2048", "dev"]
  {
    assert '.' !in "testII";
    SplitNoSep("testII", '.');
    assert !IsDecimal("dev") by { assert !IsDigit("dev"[0]); }
    Decimal2048();
  }

  /** The names used by the creation tests: "testII" with block size 2048. */
  lemma NormalizeExample2048()
    ensures NormalizeFilename("testII", 2048) == "testII.2048.dev"
  {
    PartsExample2048();
    JoinExample2048();
  }

  lemma JoinExample2048()
    ensures Join(["testII", "2048", "dev"], '.') == "testII.2048.dev"
  {
    var parts := ["testII", "2048", "dev"];
    assert parts[1..][1..] == ["dev"];
    assert Join(parts[1..], '.') == "2048" + ['.'] + "dev";
    assert Join(parts, '.') == "testII" + ['.'] + ("2048" + ['.'] + "dev");
  }

  lemma BlocksizeExample2048()
    ensures FilenameToBlocksize("testII.2048.dev") == 2048
  {
    NormalizeExample2048();
    NormalizeRecoversBlocksize("testII", 2048);
  }

  // ---------------------------------------------------------------------
  // The device

  /** The whole image as one byte string, block after block. */
  function ImageBytes(blocks: seq<seq<byte>>): seq<byte>
  {
    if blocks == [] then [] else blocks[0] + ImageBytes(blocks[1..])
  }

  /** An image of equally sized blocks is blocks_to_bytes(|blocks|) long. */
  lemma {:induction false} ImageSize(blocks: seq<seq<byte>>, blocksize: nat)
    requires forall i :: 0 <= i < |blocks| ==> |blocks[i]| == blocksize
    ensures |ImageBytes(blocks)| == |blocks| * blocksize
  {
    if blocks != [] {
      ImageSize(blocks[1..], blocksize);
    }
  }

  /** write_block's buffer after the optional zero padding. */
  function Padded(buff: seq<byte>, blocksize: int, pad: bool): (r: seq<byte>)
    ensures pad && |buff| < blocksize ==> |r| == blocksize && r[..|buff|] == buff
    ensures !(pad && |buff| < blocksize) ==> r == buff
    ensures forall i :: |buff| <= i < |r| ==> r[i] == 0
  {
    if pad && |buff| < blocksize then buff + Zeros(blocksize - |buff|) else buff
  }

  /** The device's state as a value: its blocks, the num_blocks bound the
      asserts check, and its block size. */
  datatype Disk = Disk(blocks: seq<seq<byte>>, numBlocks: int, blockSize: int)

  /** The asserts of read_block hold and the host file has the whole block. */
  predicate Readable(d: Disk, k: int, buffLen: int) {
    0 <= k < d.numBlocks && buffLen == d.blockSize && k < |d.blocks| && |d.blocks[k]| == d.blockSize
  }

  /** read_block into a buffer of buffLen bytes: the block's bytes, or a
      failed assert. */
  function ReadDisk(d: Disk, k: int, buffLen: int): (r: Result<seq<byte>>)
    ensures r.Ok? <==> Readable(d, k, buffLen)
    ensures r.Ok? ==> |r.value| == buffLen && r.value == d.blocks[k]
  {
    if Readable(d, k, buffLen) then Ok(d.blocks[k]) else Err(DeviceFault)
  }

  predicate Writable(d: Disk, k: int, buff: seq<byte>, pad: bool) {
    0 <= k < d.numBlocks && k < |d.blocks| && |Padded(buff, d.blockSize, pad)| == d.blockSize
  }

  /** write_block: block k becomes the (padded) buffer. */
  function WriteDisk(d: Disk, k: int, buff: seq<byte>, pad: bool): (r: Result<Disk>)
    ensures r.Ok? <==> Writable(d, k, buff, pad)
    ensures r.Ok? ==> r.value == d.(blocks := d.blocks[k := Padded(buff, d.blockSize, pad)])
  {
    if Writable(d, k, buff, pad) then Ok(d.(blocks := d.blocks[k := Padded(buff, d.blockSize, pad)]))
    else Err(DeviceFault)
  }

  /** Every block of the image is one block long. */
  predicate Uniform(d: Disk) {
    forall i :: 0 <= i < |d.blocks| ==> |d.blocks[i]| == d.blockSize
  }

  /** Reading a block after writing it returns the padded buffer; every
      other block reads as before. */
  lemma ReadAfterWrite(d: Disk, k: int, buff: seq<byte>, pad: bool, j: int)
    requires WriteDisk(d, k, buff, pad).Ok?
    ensures var d' := WriteDisk(d, k, buff, pad).value;
      && ReadDisk(d', k, d.blockSize) == Ok(Padded(buff, d.blockSize, pad))
      && (j != k ==> ReadDisk(d', j, d.blockSize) == ReadDisk(d, j, d.blockSize))
  {
  }

  /** A write, in a list of writes applied in order. */
  datatype BlockWrite = BlockWrite(block: int, data: seq<byte>)

  /** write_block(w.block, w.data, True) for each write in turn; the first
      failing write fails the whole. */
  function ApplyWrites(d: Disk, writes: seq<BlockWrite>): (r: Result<Disk>)
    ensures r.Ok? ==> |r.value.blocks| == |d.blocks| && r.value.numBlocks == d.numBlocks
                      && r.value.blockSize == d.blockSize
    decreases |writes|
  {
    if writes == [] then Ok(d)
    else match WriteDisk(d, writes[0].block, writes[0].data, true)
      case Err(f) => Err(f)
      case Ok(d1) => ApplyWrites(d1, writes[1..])
  }

  /** A block no write names keeps its contents. */
  lemma {:induction false} ApplyWritesUntouched(d: Disk, writes: seq<BlockWrite>, k: int)
    requires ApplyWrites(d, writes).Ok? && 0 <= k < |d.blocks|
    requires forall i :: 0 <= i < |writes| ==> writes[i].block != k
    ensures ApplyWrites(d, writes).value.blocks[k] == d.blocks[k]
    decreases |writes|
  {
    if writes != [] {
      var d1 := WriteDisk(d, writes[0].block, writes[0].data, true).value;
      forall j | 0 <= j < |writes[1..]| ensures writes[1..][j].block != k {
        assert writes[1..][j] == writes[j + 1];
      }
      ApplyWritesUntouched(d1, writes[1..], k);
    }
  }

  /** The last write to a block decides its contents. */
  lemma {:induction false} ApplyWritesLast(d: Disk, writes: seq<BlockWrite>, i: int)
    requires ApplyWrites(d, writes).Ok? && 0 <= i < |writes|
    requires forall j :: i < j < |writes| ==> writes[j].block != writes[i].block
    ensures 0 <= writes[i].block < |d.blocks|
    ensures ApplyWrites(d, writes).value.blocks[writes[i].block] == Padded(writes[i].data, d.blockSize, true)
    decreases |writes|
  {
    var d1 := WriteDisk(d, writes[0].block, writes[0].data, true).value;
    if i == 0 {
      forall j | 0 <= j < |writes[1..]| ensures writes[1..][j].block != writes[0].block {
        assert writes[1..][j] == writes[j + 1];
      }
      ApplyWritesUntouched(d1, writes[1..], writes[0].block);
    } else {
      assert writes[1..][i - 1] == writes[i];
      forall j | i - 1 < j < |writes[1..]| ensures writes[1..][j].block != writes[i].block {
        assert writes[1..][j] == writes[j + 1];
      }
      ApplyWritesLast(d1, writes[1..], i - 1);
    }
  }

  /** Writing keeps every block one block long. */
  lemma {:induction false} ApplyWritesUniform(d: Disk, writes: seq<BlockWrite>)
    requires Uniform(d) && ApplyWrites(d, writes).Ok?
    ensures Uniform(ApplyWrites(d, writes).value)
    decreases |writes|
  {
    if writes != [] {
      ApplyWritesUniform(WriteDisk(d, writes[0].block, writes[0].data, true).value, writes[1..]);
    }
  }

  /** Every write of a plan is on the device, one padded block each. */
  predicate OnDisk(d: Disk, w: seq<BlockWrite>) {
    forall k :: 0 <= k < |w| ==>
      Readable(d, w[k].block, d.blockSize) && d.blocks[w[k].block] == Padded(w[k].data, d.blockSize, true)
  }

  /** A write of a plan can be read back from the device. */
  lemma OnDiskRead(d: Disk, w: seq<BlockWrite>, k: nat)
    requires OnDisk(d, w) && k < |w|
    ensures ReadDisk(d, w[k].block, d.blockSize) == Ok(Padded(w[k].data, d.blockSize, true))
  {
  }

  /** The writes after the first of a plan on the device are on it too. */
  lemma OnDiskTail(d: Disk, w: seq<BlockWrite>)
    requires OnDisk(d, w) && |w| > 0
    ensures OnDisk(d, w[1..])
  {
    assert forall k :: 0 <= k < |w| - 1 ==> w[1..][k] == w[k + 1];
  }

  /** Every write of a successful sequence was a legal write_block. */
  lemma {:induction false} ApplyWritesWritable(d: Disk, writes: seq<BlockWrite>, i: int)
    requires ApplyWrites(d, writes).Ok? && 0 <= i < |writes|
    ensures 0 <= writes[i].block < d.numBlocks
    ensures |Padded(writes[i].data, d.blockSize, true)| == d.blockSize
    decreases |writes|
  {
    if i > 0 {
      var d1 := WriteDisk(d, writes[0].block, writes[0].data, true).value;
      assert writes[1..][i - 1] == writes[i];
      ApplyWritesWritable(d1, writes[1..], i - 1);
    }
  }

  /** The writes w[lo..hi] that no later write overrides are on the
      device afterwards. */
  lemma ApplyWritesOnDisk(d: Disk, writes: seq<BlockWrite>, lo: int, hi: int)
    requires ApplyWrites(d, writes).Ok? && 0 <= lo <= hi <= |writes|
    requires forall i, j :: lo <= i < hi && i < j < |writes| ==> writes[j].block != writes[i].block
    ensures OnDisk(ApplyWrites(d, writes).value, writes[lo..hi])
  {
    var d' := ApplyWrites(d, writes).value;
    var w := writes[lo..hi];
    forall k | 0 <= k < |w|
      ensures Readable(d', w[k].block, d'.blockSize)
      ensures d'.blocks[w[k].block] == Padded(w[k].data, d'.blockSize, true)
    {
      assert w[k] == writes[lo + k];
      ApplyWritesLast(d, writes, lo + k);
      ApplyWritesWritable(d, writes, lo + k);
    }
  }

  class BlockDevice {
    const blocksize: int
    /** num_blocks: the size bound the asserts check; mount overwrites it
        with the block count read from the master block. */
    var numBlocks: int
    /** The contents of the backing file, one entry per block. */
    var blocks: seq<seq<byte>>

    ghost predicate Valid()
      reads this
    {
      forall i :: 0 <= i < |blocks| ==> |blocks[i]| == blocksize
    }

    /** BlockDevice(..., create=True): a zero-filled device of blockCount
        blocks (the sentinel byte at the end of the host file is not
        modelled). */
    constructor Create(blockCount: int, blocksize: int)
      requires blockCount > 0 && blocksize > 0
      ensures Valid() && this.blocksize == blocksize
      ensures numBlocks == blockCount && |blocks| == blockCount
      ensures forall i :: 0 <= i < blockCount ==> blocks[i] == Zeros(blocksize)
    {
      this.blocksize := blocksize;
      numBlocks := blockCount;
      blocks := seq(blockCount, _ => Zeros(blocksize));
    }

    /** BlockDevice(filename) on an existing file, given its contents. */
    constructor Open(image: seq<seq<byte>>, blocksize: int)
      ensures this.blocksize == blocksize && numBlocks == |image| && blocks == image
    {
      this.blocksize := blocksize;
      numBlocks := |image|;
      blocks := image;
    }

    /** The device's state as a value. */
    function Snapshot(): Disk
      reads this
    {
      Disk(blocks, numBlocks, blocksize)
    }

    /** read_block: fill buff with block k; the asserts (k below num_blocks,
        buff exactly one block) and a short read make it fail. */
    method ReadBlock(k: int, buff: array<byte>) returns (ok: bool)
      modifies buff
      ensures ok == Readable(Snapshot(), k, buff.Length)
      ensures ok ==> buff[..] == blocks[k]
      ensures !ok ==> buff[..] == old(buff[..])
    {
      ok := Readable(Snapshot(), k, buff.Length);
      if ok {
        var src := blocks[k];
        var i := 0;
        while i < buff.Length
          invariant 0 <= i <= buff.Length
          invariant buff[..i] == src[..i]
        {
          buff[i] := src[i];
          i := i + 1;
        }
        assert buff[..] == buff[..buff.Length];
      }
    }

    /** write_block: overwrite block k with buff, zero-extended to one block
        when pad is set. */
    method WriteBlock(k: int, buff: seq<byte>, pad: bool) returns (ok: bool)
      modifies this`blocks
      ensures ok == Writable(old(Snapshot()), k, buff, pad)
      ensures WriteDisk(old(Snapshot()), k, buff, pad) == if ok then Ok(Snapshot()) else Err(DeviceFault)
      ensures !ok ==> blocks == old(blocks)
    {
      ok := Writable(Snapshot(), k, buff, pad);
      if ok {
        blocks := blocks[k := Padded(buff, blocksize, pad)];
      }
    }

    /** A sequence of padded write_block calls; stops at the first failure. */
    method WriteAll(writes: seq<BlockWrite>) returns (ok: bool)
      modifies this`blocks
      ensures ok == ApplyWrites(old(Snapshot()), writes).Ok?
      ensures ok ==> ApplyWrites(old(Snapshot()), writes) == Ok(Snapshot())
    {
      var i := 0;
      ok := true;
      while i < |writes|
        invariant 0 <= i <= |writes|
        invariant ApplyWrites(old(Snapshot()), writes) == ApplyWrites(Snapshot(), writes[i..])
      {
        assert writes[i..][1..] == writes[i + 1..];
        ok := WriteBlock(writes[i].block, writes[i].data, true);
        if !ok {
          return;
        }
        i := i + 1;
      }
    }

    /** blocks_to_bytes */
    function BlocksToBytes(n: int): int
      reads this
    {
      n * blocksize
    }

    /** The device holds exactly blocks_to_bytes(number of blocks) bytes. */
    lemma DeviceSize()
      requires Valid() && blocksize >= 0
      ensures |ImageBytes(blocks)| == BlocksToBytes(|blocks|)
    {
      ImageSize(blocks, blocksize);
    }
  }
}
