/** The block bitmap: one flag per block, first-fit allocation, and its
    persistence as MSB-first bytes in the blocks after the master block. */
module BlockMaps {
  import opened Bytes
  import opened Outcomes
  import opened Arith
  import opened BlockDevice
  import opened MasterBlocks

  // ---------------------------------------------------------------------
  // Allocation rules

  /** The first clear entry, or -1 when every entry is set. */
  function FirstFree(bits: seq<bool>): (r: int)
    ensures r == -1 <==> forall i :: 0 <= i < |bits| ==> bits[i]
    ensures r != -1 ==> 0 <= r < |bits| && !bits[r] && forall j :: 0 <= j < r ==> bits[j]
  {
    if |bits| == 0 then -1
    else if !bits[0] then 0
    else
      var r := FirstFree(bits[1..]);
      if r == -1 then -1
      else
        assert forall j :: 1 <= j < r + 1 ==> bits[j] == bits[1..][j - 1];
        r + 1
  }

  /** setBlock with the bound the code intends (blockID below the count):
      setting a set block to True fails; anything else stores the new state. */
  function SetBlockRule(bits: seq<bool>, id: int, newState: bool): (r: (seq<bool>, bool))
    ensures r.1 <==> 0 <= id < |bits| && !(bits[id] && newState)
    ensures r.0 == if r.1 then bits[id := newState] else bits
  {
    if id < 0 || id >= |bits| then (bits, false)
    else if bits[id] then (if !newState then (bits[id := false], true) else (bits, false))
    else (bits[id := newState], true)
  }

  /** Python's a[i] for a list of length n: the position, or None for an
      IndexError. */
  function PyIndex(i: int, n: int): (r: Option<int>)
    ensures r.Some? <==> -n <= i < n
    ensures r.Some? ==> 0 <= r.value < n && (r.value == i || r.value == i + n)
  {
    if 0 <= i < n then Some(i) else if -n <= i < 0 then Some(i + n) else None
  }

  /** setBlock as written: the guard rejects only blockID > blockCount, so
      blockID == blockCount indexes past the list and a negative blockID
      counts from its end. */
  function SetBlockAsWritten(bits: seq<bool>, id: int, newState: bool): Result<(seq<bool>, bool)>
  {
    if id > |bits| then Ok((bits, false))
    else match PyIndex(id, |bits|)
      case None => Err(IndexFault)
      case Some(j) =>
        if bits[j] then (if !newState then Ok((bits[j := false], true)) else Ok((bits, false)))
        else Ok((bits[j := newState], true))
  }

  /** Inside the map the two agree. */
  lemma SetBlockAgrees(bits: seq<bool>, id: int, newState: bool)
    requires 0 <= id < |bits|
    ensures SetBlockAsWritten(bits, id, newState) == Ok(SetBlockRule(bits, id, newState))
  {
  }

  /** blockID == blockCount passes the guard and raises an IndexError, and
      -1 sets the last block. */
  lemma SetBlockAsWrittenOffByOne()
    ensures SetBlockAsWritten([false, false], 2, true) == Err(IndexFault)
    ensures SetBlockRule([false, false], 2, true) == ([false, false], false)
    ensures SetBlockAsWritten([false, false], -1, true) == Ok(([false, true], true))
    ensures SetBlockRule([false, false], -1, true) == ([false, false], false)
  {
    assert [false, false][1 := true] == [false, true];
  }

  /** allocateBlock: first-fit; the chosen entry is set and returned. */
  function Allocate(bits: seq<bool>): (r: (int, seq<bool>))
    ensures r.0 == FirstFree(bits)
    ensures r.0 == -1 ==> r.1 == bits
    ensures r.0 != -1 ==> r.1 == bits[r.0 := true]
  {
    var i := FirstFree(bits);
    if i == -1 then (-1, bits) else (i, SetBlockRule(bits, i, true).0)
  }

  /** Allocating n times from an empty map sets exactly the first n
      entries. */
  function AllocateN(bits: seq<bool>, n: nat): seq<bool>
    decreases n
  {
    if n == 0 then bits else AllocateN(Allocate(bits).1, n - 1)
  }

  function Falses(n: nat): (s: seq<bool>)
    ensures |s| == n && forall i :: 0 <= i < n ==> !s[i]
  {
    seq(n, _ => false)
  }

  /** The map after allocating from a map whose first k entries are set
      and the rest clear. */
  lemma {:induction false} AllocatePrefix(count: nat, k: nat, n: nat)
    requires k + n <= count
    ensures var bits := seq(count, i => i < k);
      AllocateN(bits, n) == seq(count, i => i < k + n)
    decreases n
  {
    var bits := seq(count, i => i < k);
    if n > 0 {
      if k < count {
        assert FirstFree(bits) == k by {
          assert !bits[k];
          assert forall j :: 0 <= j < k ==> bits[j];
        }
        assert Allocate(bits).1 == seq(count, i => i < k + 1);
      }
      AllocatePrefix(count, k + 1, n - 1);
    }
  }

  /** createFileSystem's reservation: allocating n <= count blocks on a
      fresh map sets exactly blocks 0 .. n-1. */
  lemma ReserveFirst(count: nat, n: nat)
    requires n <= count
    ensures AllocateN(Falses(count), n) == seq(count, i => i < n)
  {
    assert Falses(count) == seq(count, i => i < 0);
    AllocatePrefix(count, 0, n);
  }

  // ---------------------------------------------------------------------
  // MSB-first bit packing (numpy.packbits / numpy.unpackbits)

  /** The number whose binary digits, most significant first, are b. */
  function FromBits(b: seq<bool>): (x: nat)
    ensures x < Pow2(|b|)
  {
    if b == [] then 0 else 2 * FromBits(b[..|b| - 1]) + (if b[|b| - 1] then 1 else 0)
  }

  function Pow2(n: nat): (r: nat)
    ensures r >= 1
  {
    if n == 0 then 1 else 2 * Pow2(n - 1)
  }

  /** The low n binary digits of x, most significant first. */
  function ToBits(x: nat, n: nat): (b: seq<bool>)
    ensures |b| == n
  {
    if n == 0 then [] else ToBits(x / 2, n - 1) + [x % 2 == 1]
  }

  lemma {:induction false} ToFromBits(b: seq<bool>)
    ensures ToBits(FromBits(b), |b|) == b
  {
    if b != [] {
      var init := b[..|b| - 1];
      ToFromBits(init);
      var x := FromBits(b);
      assert x / 2 == FromBits(init);
      assert b == init + [b[|b| - 1]];
    }
  }

  /** One byte from up to eight flags, zero-filled on the right. */
  function PackByte(b: seq<bool>): (x: byte)
    requires |b| <= 8
  {
    var full := b + Falses(8 - |b|);
    assert Pow2(8) == 256;
    FromBits(full)
  }

  /** numpy.packbits: eight flags per byte, the first flag in the top bit;
      a partial last byte is zero-filled. */
  function PackBits(bits: seq<bool>): (bytes: seq<byte>)
    ensures |bytes| == CeilDiv(|bits|, 8)
  {
    if |bits| == 0 then
      CeilDivUnique(0, 8, 0);
      []
    else if |bits| <= 8 then
      CeilDivUnique(|bits|, 8, 1);
      [PackByte(bits)]
    else
      var rest := PackBits(bits[8..]);
      CeilDivUnique(|bits|, 8, |rest| + 1);
      [PackByte(bits[..8])] + rest
  }

  /** numpy.unpackbits: eight flags per byte, top bit first. */
  function UnpackBits(bytes: seq<byte>): (bits: seq<bool>)
    ensures |bits| == 8 * |bytes|
  {
    if bytes == [] then [] else ToBits(bytes[0], 8) + UnpackBits(bytes[1..])
  }

  /** Flag y of the unpacked bytes is digit y % 8 of byte y / 8. */
  lemma {:induction false} UnpackBitsAt(bytes: seq<byte>, y: nat)
    requires y < 8 * |bytes|
    ensures UnpackBits(bytes)[y] == ToBits(bytes[y / 8], 8)[y % 8]
  {
    if y >= 8 {
      UnpackBitsAt(bytes[1..], y - 8);
      DivUnique(y - 8, y / 8 - 1, y % 8, 8);
      assert UnpackBits(bytes)[y] == UnpackBits(bytes[1..])[y - 8];
    } else {
      DivUnique(y, 0, y, 8);
    }
  }

  /** Unpacking the packed bytes gives every flag back. */
  lemma {:induction false} UnpackPackBits(bits: seq<bool>, y: nat)
    requires y < |bits|
    ensures y < 8 * |PackBits(bits)|
    ensures UnpackBits(PackBits(bits))[y] == bits[y]
  {
    var packed := PackBits(bits);
    UnpackBitsAt(packed, y);
    if |bits| <= 8 {
      var full := bits + Falses(8 - |bits|);
      ToFromBits(full);
      assert full[y] == bits[y];
    } else if y < 8 {
      assert bits[..8] + Falses(0) == bits[..8];
      ToFromBits(bits[..8]);
      DivUnique(y, 0, y, 8);
      assert packed[0] == FromBits(bits[..8]);
    } else {
      UnpackPackBits(bits[8..], y - 8);
      UnpackBitsAt(PackBits(bits[8..]), y - 8);
      DivUnique(y - 8, y / 8 - 1, y % 8, 8);
      assert packed[y / 8] == PackBits(bits[8..])[(y - 8) / 8];
    }
  }

  // ---------------------------------------------------------------------
  // The bitmap on the device

  /** bytes[lo:hi] with Python's clamping, for 0 <= lo. */
  function Slice(bytes: seq<byte>, lo: nat, hi: int): (r: seq<byte>)
    ensures lo <= hi <= |bytes| ==> r == bytes[lo..hi]
    ensures |r| <= if hi < lo then 0 else hi - lo
  {
    var a := if lo < |bytes| then lo else |bytes|;
    var b := if hi < a then a else if hi < |bytes| then hi else |bytes|;
    bytes[a..b]
  }

  /** BlockMap.pack's loop: for i in range(i, byteCount, blockSize), write
      bytes[i:i+sliceLen] to block 1 + i // blockSize. */
  function PackPlan(bytes: seq<byte>, i: nat, byteCount: int, blockSize: int, sliceLen: int): (w: seq<BlockWrite>)
    requires blockSize > 0
    decreases byteCount - i
  {
    if i >= byteCount then []
    else [BlockWrite(1 + i / blockSize, Slice(bytes, i, i + sliceLen))]
         + PackPlan(bytes, i + blockSize, byteCount, blockSize, sliceLen)
  }

  /** The shape of a plan: blocks from first on, in increasing order, each
      starting below byteCount. */
  predicate PlanShape(w: seq<BlockWrite>, first: int, byteCount: int, blockSize: int) {
    && (forall k :: 0 <= k < |w| ==> w[k].block >= first && (w[k].block - 1) * blockSize < byteCount)
    && (forall k, l :: 0 <= k < l < |w| ==> w[k].block < w[l].block)
  }

  /** The loop's writes go to increasing blocks, from 1 + i // blockSize
      on, each starting below byteCount. */
  lemma {:induction false} PackPlanBlocks(bytes: seq<byte>, i: nat, byteCount: int, blockSize: int, sliceLen: int)
    requires blockSize > 0
    ensures PlanShape(PackPlan(bytes, i, byteCount, blockSize, sliceLen), 1 + i / blockSize, byteCount, blockSize)
    decreases byteCount - i
  {
    if i < byteCount {
      var w := PackPlan(bytes, i, byteCount, blockSize, sliceLen);
      var rest := PackPlan(bytes, i + blockSize, byteCount, blockSize, sliceLen);
      PackPlanBlocks(bytes, i + blockSize, byteCount, blockSize, sliceLen);
      var q := i / blockSize;
      DivBounds(i, blockSize);
      Distrib(q, 1, blockSize);
      DivUnique(i + blockSize, q + 1, i % blockSize, blockSize);
      assert w == [BlockWrite(1 + q, Slice(bytes, i, i + sliceLen))] + rest;
      assert (w[0].block - 1) * blockSize <= i;
      forall k | 1 <= k < |w|
        ensures w[k] == rest[k - 1] && w[k].block >= 2 + q
      {
      }
    }
  }

  /** The writes of pack as intended: every one of the ceil(blockCount/8)
      bytes, a whole block per write. */
  function BitmapPlan(bits: seq<bool>, blockSize: int): seq<BlockWrite>
    requires blockSize > 0
  {
    PackPlan(PackBits(bits), 0, CeilDiv(|bits|, 8), blockSize, blockSize)
  }

  /** The writes of pack as written: the loop stops at blockCount // 8 and
      each slice is one byte short of a block. */
  function BitmapPlanAsWritten(bits: seq<bool>, blockSize: int): seq<BlockWrite>
    requires blockSize > 0
  {
    PackPlan(PackBits(bits), 0, |bits| / 8, blockSize, blockSize - 1)
  }

  /** Sixteen set blocks and two-byte blocks: as written, block 1 receives
      only the first byte, so blocks 8..15 are lost; as intended it receives
      both. */
  lemma BitmapPlanDropsByte()
    ensures PackBits(seq(16, _ => true)) == [255, 255]
    ensures BitmapPlanAsWritten(seq(16, _ => true), 2) == [BlockWrite(1, [255])]
    ensures BitmapPlan(seq(16, _ => true), 2) == [BlockWrite(1, [255, 255])]
  {
    var bits := seq(16, _ => true);
    var eight := seq(8, _ => true);
    assert bits[..8] == eight && bits[8..] == eight;
    FromBitsAllSet(8);
    assert PackByte(eight) == 255 by { assert eight + Falses(0) == eight; }
    assert PackBits(eight) == [255];
    assert PackBits(bits) == [255, 255];
    CeilDivUnique(16, 8, 2);
    assert Slice([255, 255], 0, 2) == [255, 255];
    assert Slice([255, 255], 0, 1) == [255];
  }

  lemma {:induction false} FromBitsAllSet(n: nat)
    ensures FromBits(seq(n, _ => true)) == Pow2(n) - 1
  {
    if n > 0 {
      FromBitsAllSet(n - 1);
      assert seq(n, _ => true)[..n - 1] == seq(n - 1, _ => true);
    }
  }

  /** Fill flags x .. hi-1 from values[x - base], stopping (true) when x
      reaches the end of the map; an index past values is an IndexError. */
  function Fill(bits: seq<bool>, values: seq<bool>, x: nat, hi: nat, base: nat): (r: Result<(seq<bool>, bool)>)
    requires base <= x
    ensures r.Ok? ==> |r.value.0| == |bits|
    decreases hi - x
  {
    if x >= hi then Ok((bits, false))
    else if x >= |bits| then Ok((bits, true))
    else if x - base >= |values| then Err(IndexFault)
    else Fill(bits[x := values[x - base]], values, x + 1, hi, base)
  }

  /** BlockMap.unpack's loop from byte i: read block 1 + i // blockSize,
      unpack it and fill the flags it covers. rebase selects the intended
      index x - i*8 rather than the code's x. */
  function UnpackLoop(d: Disk, bits: seq<bool>, i: nat, byteCount: int, blockSize: int, rebase: bool): (r: Result<seq<bool>>)
    requires blockSize > 0
    ensures r.Ok? ==> |r.value| == |bits|
    decreases byteCount - i
  {
    if i >= byteCount then Ok(bits)
    else match ReadDisk(d, 1 + i / blockSize, blockSize)
      case Err(f) => Err(f)
      case Ok(block) =>
        match Fill(bits, UnpackBits(block), i * 8, (i + blockSize) * 8, if rebase then i * 8 else 0)
        case Err(f) => Err(f)
        case Ok(done) =>
          if done.1 then Ok(done.0)
          else UnpackLoop(d, done.0, i + blockSize, byteCount, blockSize, rebase)
  }

  /** BlockMap.unpack as intended: blockCount flags from the
      ceil(blockCount/8) bytes after the master block. */
  function ReadBitmap(d: Disk, blockCount: int, blockSize: int): (r: Result<seq<bool>>)
    requires blockSize > 0
    ensures r.Ok? ==> |r.value| == if blockCount < 0 then 0 else blockCount
  {
    var count := if blockCount < 0 then 0 else blockCount;
    UnpackLoop(d, Falses(count), 0, CeilDiv(count, 8), blockSize, true)
  }

  /** BlockMap.unpack as written. */
  function ReadBitmapAsWritten(d: Disk, blockCount: int, blockSize: int): (r: Result<seq<bool>>)
    requires blockSize > 0
  {
    var count := if blockCount < 0 then 0 else blockCount;
    UnpackLoop(d, Falses(count), 0, count / 8, blockSize, false)
  }

  /** Sixteen blocks and one-byte blocks span two bitmap blocks: as written,
      the second block's first flag reads values[8] of an 8-flag array. */
  lemma UnpackAsWrittenOverruns(d: Disk)
    requires Readable(d, 1, 1) && Readable(d, 2, 1)
    ensures ReadBitmapAsWritten(d, 16, 1).Err?
  {
    var v1 := UnpackBits(d.blocks[1]);
    var f1 := Fill(Falses(16), v1, 0, 8, 0);
    FillStopsAtHi(Falses(16), v1, 0, 8, 0);
    var bits1 := f1.value.0;
    assert Fill(bits1, UnpackBits(d.blocks[2]), 8, 16, 0) == Err(IndexFault);
  }

  /** Seven blocks make one packed byte but 7 // 8 is 0: as written, pack
      writes no bitmap block and unpack reads none, leaving every flag
      clear; as intended, pack writes the byte to block 1. */
  lemma BitmapBoundAsWritten(d: Disk, bs: int)
    requires bs > 0
    ensures BitmapPlanAsWritten(seq(7, _ => true), bs) == []
    ensures ReadBitmapAsWritten(d, 7, bs) == Ok(Falses(7))
    ensures BitmapPlan(seq(7, _ => true), bs) == [BlockWrite(1, PackBits(seq(7, _ => true)))]
  {
    CeilDivUnique(7, 8, 1);
    PackPlanWhole(PackBits(seq(7, _ => true)), bs);
  }

  /** A volume of 16384 blocks of 1024 bytes also has two bitmap blocks:
      as written, the second block's first flag reads values[8192] of a
      block's 8192 flags. */
  lemma UnpackAsWrittenOverrunsLarge(d: Disk)
    requires Readable(d, 1, 1024) && Readable(d, 2, 1024)
    ensures ReadBitmapAsWritten(d, 16384, 1024) == Err(IndexFault)
  {
    DivUnique(0, 0, 0, 1024);
    DivUnique(1024, 1, 0, 1024);
    var v1 := UnpackBits(d.blocks[1]);
    FillStopsAtHi(Falses(16384), v1, 0, 8192, 0);
    DivUnique(16384, 2048, 0, 8);
    var bits1 := Fill(Falses(16384), v1, 0, 8192, 0).value.0;
    assert UnpackLoop(d, Falses(16384), 0, 2048, 1024, false) == UnpackLoop(d, bits1, 1024, 2048, 1024, false);
    assert Fill(bits1, UnpackBits(d.blocks[2]), 8192, 16384, 0) == Err(IndexFault);
  }

  /** A fill whose values reach hi never overruns them. */
  lemma {:induction false} FillInside(bits: seq<bool>, values: seq<bool>, x: nat, hi: nat, base: nat)
    requires base <= x && hi - base <= |values|
    ensures Fill(bits, values, x, hi, base).Ok?
    decreases hi - x
  {
    if x < hi && x < |bits| {
      FillInside(bits[x := values[x - base]], values, x + 1, hi, base);
    }
  }

  /** With at most one block of bytes to read, the code's unpack succeeds
      on any readable block 1. */
  lemma AsWrittenSingleRead(d: Disk, blockCount: int)
    requires d.blockSize > 0 && 8 <= blockCount <= 8 * d.blockSize && Readable(d, 1, d.blockSize)
    ensures ReadBitmapAsWritten(d, blockCount, d.blockSize).Ok?
  {
    var bs := d.blockSize;
    DivUnique(0, 0, 0, bs);
    DivBounds(blockCount, 8);
    var f := Fill(Falses(blockCount), UnpackBits(d.blocks[1]), 0, (0 + bs) * 8, 0);
    FillInside(Falses(blockCount), UnpackBits(d.blocks[1]), 0, (0 + bs) * 8, 0);
    if !f.value.1 {
      assert UnpackLoop(d, f.value.0, bs, blockCount / 8, bs, false) == Ok(f.value.0);
    }
  }

  /** With the map inside one block, the code's unpack reads what the
      intended one reads: both make one pass over block 1 with base 0. */
  lemma AsWrittenBitmapAgrees(d: Disk, blockCount: int, blockSize: int)
    requires blockSize > 0 && 8 <= blockCount && CeilDiv(blockCount, 8) <= blockSize
    ensures ReadBitmapAsWritten(d, blockCount, blockSize) == ReadBitmap(d, blockCount, blockSize)
  {
    FloorBelowCeil(blockCount);
    DivUnique(0, 0, 0, blockSize);
    var r := ReadDisk(d, 1, blockSize);
    if r.Ok? {
      var f := Fill(Falses(blockCount), UnpackBits(r.value), 0, (0 + blockSize) * 8, 0);
      if f.Ok? && !f.value.1 {
        assert UnpackLoop(d, f.value.0, blockSize, blockCount / 8, blockSize, false) == Ok(f.value.0);
        assert UnpackLoop(d, f.value.0, blockSize, CeilDiv(blockCount, 8), blockSize, true) == Ok(f.value.0);
      }
    }
  }

  lemma {:induction false} FillStopsAtHi(bits: seq<bool>, values: seq<bool>, x: nat, hi: nat, base: nat)
    requires base <= x <= hi <= |bits| && hi - base <= |values|
    ensures Fill(bits, values, x, hi, base).Ok? && !Fill(bits, values, x, hi, base).value.1
    decreases hi - x
  {
    if x < hi {
      FillStopsAtHi(bits[x := values[x - base]], values, x + 1, hi, base);
    }
  }

  /** Flag y of the map is held by values at y - base. */
  predicate HoldsFlag(bits: seq<bool>, values: seq<bool>, base: int, y: int) {
    0 <= y < |bits| && 0 <= y - base < |values| && values[y - base] == bits[y]
  }

  /** One block's flags: bits x .. hi-1 come from values when values holds
      them at x - base. */
  lemma {:induction false} FillRestores(bits: seq<bool>, acc: seq<bool>, values: seq<bool>, x: nat, hi: nat, base: nat)
    requires base <= x <= hi && |acc| == |bits|
    requires forall y :: 0 <= y < x && y < |bits| ==> acc[y] == bits[y]
    requires forall y :: x <= y < hi && y < |bits| ==> HoldsFlag(bits, values, base, y)
    ensures Fill(acc, values, x, hi, base).Ok?
    ensures var r := Fill(acc, values, x, hi, base).value;
      && (forall y :: 0 <= y < hi && y < |bits| ==> r.0[y] == bits[y])
      && (r.1 ==> r.0 == bits)
      && (r.1 <==> x < hi && |bits| < hi)
    decreases hi - x
  {
    if x < hi && x < |bits| {
      assert HoldsFlag(bits, values, base, x);
      var acc' := acc[x := values[x - base]];
      FillRestores(bits, acc', values, x + 1, hi, base);
    }
  }

  /** The flags of the block written from bytes[i:i+blockSize] are the
      flags 8*i .. of the packed map. */
  lemma BlockFlags(bits: seq<bool>, i: nat, blockSize: int, y: nat)
    requires blockSize > 0 && i < CeilDiv(|bits|, 8)
    requires i * 8 <= y < (i + blockSize) * 8 && y < |bits|
    ensures HoldsFlag(bits, UnpackBits(Padded(Slice(PackBits(bits), i, i + blockSize), blockSize, true)), i * 8, y)
  {
    UnpackPackBits(bits, y);
    SliceFlags(PackBits(bits), i, blockSize, y);
  }

  /** Flag y of some bytes is flag y - 8*i of the padded block cut from
      them at byte i. */
  lemma SliceFlags(packed: seq<byte>, i: nat, blockSize: int, y: nat)
    requires blockSize > 0 && i < |packed|
    requires i * 8 <= y < (i + blockSize) * 8 && y < 8 * |packed|
    ensures |UnpackBits(Padded(Slice(packed, i, i + blockSize), blockSize, true))| == 8 * blockSize
    ensures UnpackBits(Padded(Slice(packed, i, i + blockSize), blockSize, true))[y - i * 8] == UnpackBits(packed)[y]
  {
    var slice := Slice(packed, i, i + blockSize);
    var block := Padded(slice, blockSize, true);
    UnpackBitsAt(packed, y);
    DivUnique(y - 8 * i, y / 8 - i, y % 8, 8);
    assert |block| == blockSize;
    UnpackBitsAt(block, y - 8 * i);
    var hi := if i + blockSize < |packed| then i + blockSize else |packed|;
    assert slice == packed[i..hi];
    assert y / 8 < hi;
    assert block[y / 8 - i] == slice[y / 8 - i] == packed[y / 8];
  }

  /** Every flag of the block written from bytes[i:i+blockSize] is held at
      its offset from 8*i. */
  lemma BlockHoldsFlags(bits: seq<bool>, i: nat, blockSize: int, values: seq<bool>)
    requires blockSize > 0 && i < CeilDiv(|bits|, 8)
    requires values == UnpackBits(Padded(Slice(PackBits(bits), i, i + blockSize), blockSize, true))
    ensures forall y :: i * 8 <= y < (i + blockSize) * 8 && y < |bits| ==> HoldsFlag(bits, values, i * 8, y)
  {
    forall y | i * 8 <= y < (i + blockSize) * 8 && y < |bits|
      ensures HoldsFlag(bits, values, i * 8, y)
    {
      BlockFlags(bits, i, blockSize, y);
    }
  }

  /** The first round of the pack loop writes block 1 + i // blockSize. */
  lemma PackPlanHead(bytes: seq<byte>, i: nat, byteCount: int, blockSize: int, sliceLen: int)
    requires blockSize > 0 && i < byteCount
    ensures PackPlan(bytes, i, byteCount, blockSize, sliceLen)
         == [BlockWrite(1 + i / blockSize, Slice(bytes, i, i + sliceLen))]
            + PackPlan(bytes, i + blockSize, byteCount, blockSize, sliceLen)
  {
  }

  /** One round of the unpack loop: read the block, fill its flags, and
      stop or go on to the next block. */
  lemma UnpackLoopStep(d: Disk, bits: seq<bool>, i: nat, byteCount: int, blockSize: int, rebase: bool,
                       block: seq<byte>, done: (seq<bool>, bool))
    requires blockSize > 0 && i < byteCount
    requires ReadDisk(d, 1 + i / blockSize, blockSize) == Ok(block)
    requires Fill(bits, UnpackBits(block), i * 8, (i + blockSize) * 8, if rebase then i * 8 else 0) == Ok(done)
    ensures done.1 ==> UnpackLoop(d, bits, i, byteCount, blockSize, rebase) == Ok(done.0)
    ensures !done.1 ==>
      UnpackLoop(d, bits, i, byteCount, blockSize, rebase) == UnpackLoop(d, done.0, i + blockSize, byteCount, blockSize, rebase)
  {
  }

  /** The intended pack loop's writes from byte i on are on the device. */
  predicate PlanOnDisk(d: Disk, bits: seq<bool>, i: nat)
    requires d.blockSize > 0
  {
    OnDisk(d, PackPlan(PackBits(bits), i, CeilDiv(|bits|, 8), d.blockSize, d.blockSize))
  }

  /** The first block of the plan from byte i on holds bytes i .. i+blockSize-1. */
  lemma PlanHeadOnDisk(d: Disk, packed: seq<byte>, i: nat)
    requires d.blockSize > 0 && i < |packed|
    requires OnDisk(d, PackPlan(packed, i, |packed|, d.blockSize, d.blockSize))
    ensures ReadDisk(d, 1 + i / d.blockSize, d.blockSize)
         == Ok(Padded(Slice(packed, i, i + d.blockSize), d.blockSize, true))
    ensures OnDisk(d, PackPlan(packed, i + d.blockSize, |packed|, d.blockSize, d.blockSize))
  {
    var bs := d.blockSize;
    var plan := PackPlan(packed, i, |packed|, bs, bs);
    PackPlanHead(packed, i, |packed|, bs, bs);
    OnDiskRead(d, plan, 0);
    OnDiskTail(d, plan);
    assert plan[1..] == PackPlan(packed, i + bs, |packed|, bs, bs);
  }

  /** One round of the intended unpack loop over blocks the intended pack
      loop wrote: either the map is complete, or the flags are right up to
      the next block's bytes and the rest of the plan is on the device. */
  lemma UnpackRound(d: Disk, bits: seq<bool>, acc: seq<bool>, i: nat) returns (next: seq<bool>, stop: bool)
    requires d.blockSize > 0 && |acc| == |bits| && i < CeilDiv(|bits|, 8)
    requires forall y :: 0 <= y < i * 8 && y < |bits| ==> acc[y] == bits[y]
    requires PlanOnDisk(d, bits, i)
    ensures stop ==> UnpackLoop(d, acc, i, CeilDiv(|bits|, 8), d.blockSize, true) == Ok(bits)
    ensures !stop ==>
      UnpackLoop(d, acc, i, CeilDiv(|bits|, 8), d.blockSize, true)
      == UnpackLoop(d, next, i + d.blockSize, CeilDiv(|bits|, 8), d.blockSize, true)
    ensures !stop ==> |next| == |bits|
    ensures !stop ==> forall y :: 0 <= y < (i + d.blockSize) * 8 && y < |bits| ==> next[y] == bits[y]
    ensures !stop ==> PlanOnDisk(d, bits, i + d.blockSize)
  {
    var bs := d.blockSize;
    var count := CeilDiv(|bits|, 8);
    var block := RoundBlock(d, bits, i);
    next, stop := RoundStep(d, bits, acc, i, block);
  }

  /** One round of the intended unpack loop on the block the intended pack
      loop wrote for byte i. */
  lemma RoundStep(d: Disk, bits: seq<bool>, acc: seq<bool>, i: nat, block: seq<byte>) returns (next: seq<bool>, stop: bool)
    requires d.blockSize > 0 && |acc| == |bits| && i < CeilDiv(|bits|, 8)
    requires forall y :: 0 <= y < i * 8 && y < |bits| ==> acc[y] == bits[y]
    requires block == Padded(Slice(PackBits(bits), i, i + d.blockSize), d.blockSize, true)
    requires ReadDisk(d, 1 + i / d.blockSize, d.blockSize) == Ok(block)
    ensures stop ==> UnpackLoop(d, acc, i, CeilDiv(|bits|, 8), d.blockSize, true) == Ok(bits)
    ensures !stop ==>
      UnpackLoop(d, acc, i, CeilDiv(|bits|, 8), d.blockSize, true)
      == UnpackLoop(d, next, i + d.blockSize, CeilDiv(|bits|, 8), d.blockSize, true)
    ensures !stop ==> |next| == |bits|
    ensures !stop ==> forall y :: 0 <= y < (i + d.blockSize) * 8 && y < |bits| ==> next[y] == bits[y]
  {
    var done := FillRound(bits, acc, i, d.blockSize, block);
    UnpackLoopStep(d, acc, i, CeilDiv(|bits|, 8), d.blockSize, true, block, done);
    next, stop := done.0, done.1;
  }

  /** The block one round of the intended unpack loop reads, and the rest
      of the plan. */
  lemma RoundBlock(d: Disk, bits: seq<bool>, i: nat) returns (block: seq<byte>)
    requires d.blockSize > 0 && i < CeilDiv(|bits|, 8) && PlanOnDisk(d, bits, i)
    ensures block == Padded(Slice(PackBits(bits), i, i + d.blockSize), d.blockSize, true)
    ensures ReadDisk(d, 1 + i / d.blockSize, d.blockSize) == Ok(block)
    ensures PlanOnDisk(d, bits, i + d.blockSize)
  {
    PlanHeadOnDisk(d, PackBits(bits), i);
    block := Padded(Slice(PackBits(bits), i, i + d.blockSize), d.blockSize, true);
  }

  /** The flags one round of the intended unpack loop fills in from block
      block of the intended pack loop. */
  lemma FillRound(bits: seq<bool>, acc: seq<bool>, i: nat, bs: int, block: seq<byte>) returns (done: (seq<bool>, bool))
    requires bs > 0 && |acc| == |bits| && i < CeilDiv(|bits|, 8)
    requires forall y :: 0 <= y < i * 8 && y < |bits| ==> acc[y] == bits[y]
    requires block == Padded(Slice(PackBits(bits), i, i + bs), bs, true)
    ensures Fill(acc, UnpackBits(block), i * 8, (i + bs) * 8, i * 8) == Ok(done)
    ensures |done.0| == |bits| && (done.1 ==> done.0 == bits)
    ensures !done.1 ==> forall y :: 0 <= y < (i + bs) * 8 && y < |bits| ==> done.0[y] == bits[y]
  {
    var values := UnpackBits(block);
    BlockHoldsFlags(bits, i, bs, values);
    FillRestores(bits, acc, values, i * 8, (i + bs) * 8, i * 8);
    done := Fill(acc, values, i * 8, (i + bs) * 8, i * 8).value;
  }

  /** The intended unpack loop reads back what the intended pack loop
      wrote, from byte i on. */
  lemma {:induction false} UnpackLoopRestores(d: Disk, bits: seq<bool>, acc: seq<bool>, i: nat)
    requires d.blockSize > 0 && |acc| == |bits|
    requires forall y :: 0 <= y < i * 8 && y < |bits| ==> acc[y] == bits[y]
    requires PlanOnDisk(d, bits, i)
    ensures UnpackLoop(d, acc, i, CeilDiv(|bits|, 8), d.blockSize, true) == Ok(bits)
    decreases CeilDiv(|bits|, 8) - i
  {
    if i >= CeilDiv(|bits|, 8) {
      assert 8 * CeilDiv(|bits|, 8) >= |bits|;
      assert acc == bits;
    } else {
      var next, stop := UnpackRound(d, bits, acc, i);
      if !stop {
        UnpackLoopRestores(d, bits, next, i + d.blockSize);
      }
    }
  }

  /** The bitmap round trip: a device holding the intended plan's writes
      reads back the same map. */
  lemma ReadBitmapRestores(d: Disk, bits: seq<bool>)
    requires d.blockSize > 0 && OnDisk(d, BitmapPlan(bits, d.blockSize))
    ensures ReadBitmap(d, |bits|, d.blockSize) == Ok(bits)
  {
    UnpackLoopRestores(d, bits, Falses(|bits|), 0);
  }

  /** As written the round trip holds when the whole map fits one block
      with a byte to spare and has at least eight entries: then the code's
      one write and one read are the intended ones. */
  lemma AsWrittenRoundTrip(d: Disk, bits: seq<bool>)
    requires d.blockSize > 0 && 8 <= |bits| && CeilDiv(|bits|, 8) <= d.blockSize - 1
    requires OnDisk(d, BitmapPlanAsWritten(bits, d.blockSize))
    ensures BitmapPlanAsWritten(bits, d.blockSize) == [BlockWrite(1, PackBits(bits))]
    ensures ReadBitmapAsWritten(d, |bits|, d.blockSize) == Ok(bits)
  {
    var bs := d.blockSize;
    AsWrittenSingleWrite(bits, bs);
    var plan := BitmapPlanAsWritten(bits, bs);
    OnDiskRead(d, plan, 0);
    var block := Padded(PackBits(bits), bs, true);
    var values := UnpackBits(block);
    forall y | 0 <= y < bs * 8 && y < |bits|
      ensures HoldsFlag(bits, values, 0, y)
    {
      assert Slice(PackBits(bits), 0, bs) == PackBits(bits);
      BlockFlags(bits, 0, bs, y);
    }
    FloorBelowCeil(|bits|);
    assert CeilDiv(|bits|, 8) * 8 >= |bits|;
    UnpackSingleBlock(d, bits, values, |bits| / 8, false);
  }

  /** A map that fits bitmap block 1 is read back in one round of the
      unpack loop, whichever index the loop uses. */
  lemma UnpackSingleBlock(d: Disk, bits: seq<bool>, values: seq<bool>, count: int, rebase: bool)
    requires d.blockSize > 0 && 1 <= count && |bits| < d.blockSize * 8
    requires ReadDisk(d, 1, d.blockSize).Ok? && UnpackBits(ReadDisk(d, 1, d.blockSize).value) == values
    requires forall y :: 0 <= y < d.blockSize * 8 && y < |bits| ==> HoldsFlag(bits, values, 0, y)
    ensures UnpackLoop(d, Falses(|bits|), 0, count, d.blockSize, rebase) == Ok(bits)
  {
    var bs := d.blockSize;
    DivUnique(0, 0, 0, bs);
    FillRestores(bits, Falses(|bits|), values, 0, (0 + bs) * 8, 0);
  }

  /** n // 8 is at least one and at most cielDiv(n, 8) for n >= 8. */
  lemma FloorBelowCeil(n: int)
    requires n >= 8
    ensures 1 <= n / 8 <= CeilDiv(n, 8)
  {
    DivBounds(n, 8);
  }

  /** With the map inside one block, the code's pack loop makes one write
      of the whole packed map. */
  lemma AsWrittenSingleWrite(bits: seq<bool>, bs: int)
    requires bs > 0 && 8 <= |bits| && CeilDiv(|bits|, 8) <= bs - 1
    ensures BitmapPlanAsWritten(bits, bs) == [BlockWrite(1, PackBits(bits))]
  {
    FloorBelowCeil(|bits|);
    PackPlanSingle(PackBits(bits), |bits| / 8, bs);
  }

  /** With the map inside one block short of a byte, the code's pack and
      the intended one make the same single write. */
  lemma BitmapPlansAgree(bits: seq<bool>, bs: int)
    requires bs > 0 && 8 <= |bits| && CeilDiv(|bits|, 8) <= bs - 1
    ensures BitmapPlanAsWritten(bits, bs) == BitmapPlan(bits, bs) == [BlockWrite(1, PackBits(bits))]
  {
    AsWrittenSingleWrite(bits, bs);
    FloorBelowCeil(|bits|);
    PackPlanWhole(PackBits(bits), bs);
  }

  /** A loop over at most a block of bytes, with slices a block long,
      makes one write of all of them to block 1. */
  lemma PackPlanWhole(bytes: seq<byte>, bs: int)
    requires bs > 0 && 1 <= |bytes| <= bs
    ensures PackPlan(bytes, 0, |bytes|, bs, bs) == [BlockWrite(1, bytes)]
  {
    DivUnique(0, 0, 0, bs);
    assert PackPlan(bytes, bs, |bytes|, bs, bs) == [];
    assert Slice(bytes, 0, bs) == bytes;
  }

  /** A loop over fewer bytes than a block, with slices longer than the
      bytes, makes one write of all of them to block 1. */
  lemma PackPlanSingle(bytes: seq<byte>, count: int, bs: int)
    requires bs > 0 && 1 <= count <= |bytes| <= bs - 1
    ensures PackPlan(bytes, 0, count, bs, bs - 1) == [BlockWrite(1, bytes)]
  {
    DivUnique(0, 0, 0, bs);
    assert PackPlan(bytes, bs, count, bs, bs - 1) == [];
    assert Slice(bytes, 0, bs - 1) == bytes;
  }

  /** The intended plan writes only bitmap blocks 1 .. bmbc, in increasing
      order. */
  lemma BitmapPlanBlocks(bits: seq<bool>, blockSize: int)
    requires blockSize > 0
    ensures PlanShape(BitmapPlan(bits, blockSize), 1, CeilDiv(|bits|, 8), blockSize)
    ensures forall k :: 0 <= k < |BitmapPlan(bits, blockSize)| ==>
      BitmapPlan(bits, blockSize)[k].block <= BitmapBlocks(|bits|, blockSize)
  {
    var w := BitmapPlan(bits, blockSize);
    var bmbc := BitmapBlocks(|bits|, blockSize);
    PackPlanBlocks(PackBits(bits), 0, CeilDiv(|bits|, 8), blockSize, blockSize);
    DivUnique(0, 0, 0, blockSize);
    forall k | 0 <= k < |w|
      ensures w[k].block <= bmbc
    {
      assert (w[k].block - 1) * blockSize < CeilDiv(|bits|, 8) <= bmbc * blockSize;
      if w[k].block > bmbc {
        MulMonotone(bmbc, w[k].block - 1, blockSize);
      }
    }
  }

  // ---------------------------------------------------------------------
  // The block map object

  /** BlockMap: the flag list of a file system, updated in place. */
  class BlockMap {
    var bits: seq<bool>

    /** BlockMap(fs): every block clear ([False] * blockCount, which is
        empty for a negative count). */
    constructor(blockCount: int)
      ensures bits == Falses(if blockCount < 0 then 0 else blockCount)
    {
      bits := Falses(if blockCount < 0 then 0 else blockCount);
    }

    /** setBlock, with the intended bound. */
    method SetBlock(id: int, newState: bool) returns (ok: bool)
      modifies this
      ensures (bits, ok) == SetBlockRule(old(bits), id, newState)
    {
      if id < 0 || id >= |bits| {
        return false;
      }
      if bits[id] {
        if !newState {
          bits := bits[id := false];
          return true;
        }
        return false;
      }
      bits := bits[id := newState];
      ok := true;
    }

    /** allocateBlock: scan for the first clear entry and set it; -1 when
        the map is full. setBlock cannot refuse a clear entry, so the
        code's second error return is never taken. */
    method AllocateBlock() returns (i: int)
      modifies this
      ensures (i, bits) == Allocate(old(bits))
    {
      i := 0;
      while i < |bits|
        invariant 0 <= i <= |bits| && bits == old(bits)
        invariant forall j :: 0 <= j < i ==> bits[j]
      {
        if !bits[i] {
          var ok := SetBlock(i, true);
          assert ok;
          return;
        }
        i := i + 1;
      }
      i := -1;
    }

    /** freeBlock: clear one entry. */
    method FreeBlock(id: int) returns (ok: bool)
      modifies this
      ensures (bits, ok) == SetBlockRule(old(bits), id, false)
    {
      ok := SetBlock(id, false);
    }

    /** pack: write the packed map to the blocks after the master block,
        one block-sized slice per block. */
    method Pack(dev: BlockDevice, blockSize: int) returns (ok: bool)
      requires blockSize > 0
      modifies dev`blocks
      ensures ok == ApplyWrites(old(dev.Snapshot()), BitmapPlan(bits, blockSize)).Ok?
      ensures ok ==> ApplyWrites(old(dev.Snapshot()), BitmapPlan(bits, blockSize)) == Ok(dev.Snapshot())
    {
      var bytes := PackBits(bits);
      var count := CeilDiv(|bits|, 8);
      var i: nat := 0;
      while i < count
        invariant ApplyWrites(old(dev.Snapshot()), BitmapPlan(bits, blockSize))
               == ApplyWrites(dev.Snapshot(), PackPlan(bytes, i, count, blockSize, blockSize))
        decreases count - i
      {
        PackPlanHead(bytes, i, count, blockSize, blockSize);
        ok := dev.WriteBlock(1 + i / blockSize, Slice(bytes, i, i + blockSize), true);
        if !ok {
          return;
        }
        i := i + blockSize;
      }
      ok := true;
    }

    /** The inner loop of unpack: flag x takes values[x - lo] for x from
        lo up to hi, stopping early at the end of the map (full); a block
        too short for the range is an IndexError (not filled). */
    method FillBlock(values: seq<bool>, lo: nat, hi: nat) returns (filled: bool, full: bool)
      modifies this
      ensures filled ==> Fill(old(bits), values, lo, hi, lo) == Ok((bits, full))
      ensures !filled ==> Fill(old(bits), values, lo, hi, lo).Err?
      ensures |bits| == |old(bits)|
    {
      var x: nat := lo;
      while x < hi
        invariant lo <= x && |bits| == |old(bits)|
        invariant Fill(old(bits), values, lo, hi, lo) == Fill(bits, values, x, hi, lo)
        decreases hi - x
      {
        if x >= |bits| {
          return true, true;
        }
        if x - lo >= |values| {
          return false, false;
        }
        bits := bits[x := values[x - lo]];
        x := x + 1;
      }
      return true, false;
    }

    /** unpack: rebuild a map of blockCount entries from the bitmap blocks,
        a block at a time, stopping at the last entry. */
    method Unpack(dev: BlockDevice, blockCount: int, blockSize: int) returns (ok: bool)
      requires blockSize > 0
      modifies this
      ensures ok == ReadBitmap(dev.Snapshot(), blockCount, blockSize).Ok?
      ensures ok ==> bits == ReadBitmap(dev.Snapshot(), blockCount, blockSize).value
    {
      var count := if blockCount < 0 then 0 else blockCount;
      var byteCount := CeilDiv(count, 8);
      bits := Falses(count);
      var buffer := new byte[blockSize];
      var i: nat := 0;
      while i < byteCount
        invariant |bits| == count
        invariant ReadBitmap(dev.Snapshot(), blockCount, blockSize)
               == UnpackLoop(dev.Snapshot(), bits, i, byteCount, blockSize, true)
        decreases byteCount - i
      {
        var full;
        ok, full := UnpackBlock(dev, buffer, i, byteCount);
        if !ok || full {
          return;
        }
        i := i + blockSize;
      }
      ok := true;
    }

    /** One pass of unpack's outer loop: read block 1 + i / blockSize into
        buffer and fill the flags of its bytes. */
    method UnpackBlock(dev: BlockDevice, buffer: array<byte>, i: nat, byteCount: int) returns (ok: bool, full: bool)
      requires buffer.Length > 0 && i < byteCount
      modifies this, buffer
      ensures |bits| == |old(bits)|
      ensures !ok ==> UnpackLoop(dev.Snapshot(), old(bits), i, byteCount, buffer.Length, true).Err?
      ensures ok && full ==> UnpackLoop(dev.Snapshot(), old(bits), i, byteCount, buffer.Length, true) == Ok(bits)
      ensures ok && !full ==>
        UnpackLoop(dev.Snapshot(), old(bits), i, byteCount, buffer.Length, true)
        == UnpackLoop(dev.Snapshot(), bits, i + buffer.Length, byteCount, buffer.Length, true)
    {
      var blockSize := buffer.Length;
      ok := dev.ReadBlock(1 + i / blockSize, buffer);
      if !ok {
        return ok, false;
      }
      var values := UnpackBits(buffer[..]);
      ghost var block := buffer[..];
      assert ReadDisk(dev.Snapshot(), 1 + i / blockSize, blockSize) == Ok(block);
      ghost var start := bits;
      ok, full := FillBlock(values, i * 8, (i + blockSize) * 8);
      if ok {
        UnpackLoopStep(dev.Snapshot(), start, i, byteCount, blockSize, true, block, (bits, full));
      }
    }
  }
}
