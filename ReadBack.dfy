/** INode.read after INode.write: the bytes the write loop stores, the read
    loop returns, within one mount. */
module ReadBack {
  import opened Bytes
  import opened Outcomes
  import opened Arith
  import opened BlockDevice
  import opened INodes
  import opened Volumes

  /** The lookup of data block n settles on a block of its own: it
      succeeds, the pointer blocks it descends through are distinct, and
      none of them is the data block it finds. */
  predicate OwnBlock(ctx: Ctx, v: Vol, inum: int, n: int)
    requires 0 <= inum < |v.inodes|
  {
    && GetDiskAddr(ctx, v, inum, n).Ok?
    && Distinct(LookupPath(ctx, v, inum, n))
    && GetDiskAddr(ctx, v, inum, n).value.0 !in LookupPath(ctx, v, inum, n)
  }

  /** A state that caches what w caches at every block but a agrees with
      w along any blocks that leave out a. */
  lemma {:induction false} AgreesOff(w: Vol, u: Vol, a: int, keys: seq<int>)
    requires a !in keys
    requires forall k :: k != a && k in w.cache ==> k in u.cache && u.cache[k] == w.cache[k]
    ensures Agrees(u, w, keys)
    decreases |keys|
  {
    if |keys| > 0 {
      assert keys[0] in keys;
      assert forall k :: k in keys[1..] ==> k in keys;
      AgreesOff(w, u, a, keys[1..]);
    }
  }

  /** The chunk the write loop handles, given what the resolver and the
      cache returned. */
  lemma WriteChunkIs(ctx: Ctx, v: Vol, inum: int, buf: seq<byte>, start: nat, offset: nat, c: Chunk,
                     from: nat, count: nat, addr: int, data: seq<byte>, w: Vol)
    requires 0 <= inum < |v.inodes| && At(offset, start, |buf|, ctx.blockSize) && offset < start + |buf|
    requires c == ChunkAt(offset, start, start + |buf|, ctx.blockSize)
    requires from == BufferIndex(offset, start, 0) && count == Advance(offset, start, start + |buf|, ctx.blockSize) - offset
    requires FetchBlock(ctx, v, inum, c.blockIndex) == Ok((addr, data, w))
    requires |data| >= c.restOfBlock
    ensures from + count <= |buf| && c.startWriteAt + count <= |data|
    ensures WriteChunk(ctx, v, inum, buf, start, offset)
         == Ok(CacheBlock(w, addr, Splice(data, c.startWriteAt, buf[from .. from + count])))
  {
    var next := Advance(offset, start, start + |buf|, ctx.blockSize);
    assert next - offset == count && BufferIndex(offset, start, 0) == from;
  }

  /** A pass of the write loop that succeeds fetched a block long enough
      for its chunk. */
  lemma FetchedForWrite(ctx: Ctx, v: Vol, inum: int, buf: seq<byte>, start: nat, offset: nat, c: Chunk)
    requires 0 <= inum < |v.inodes| && At(offset, start, |buf|, ctx.blockSize) && offset < start + |buf|
    requires c == ChunkAt(offset, start, start + |buf|, ctx.blockSize)
    requires WriteChunk(ctx, v, inum, buf, start, offset).Ok?
    ensures FetchBlock(ctx, v, inum, c.blockIndex).Ok? && c.restOfBlock <= |FetchBlock(ctx, v, inum, c.blockIndex).value.1|
  {
  }

  /** Fetching a block is its lookup, then a retrieval that changes the
      cache at the block found and nothing else. */
  lemma FetchParts(ctx: Ctx, v: Vol, inum: int, n: int)
    requires 0 <= inum < |v.inodes| && FetchBlock(ctx, v, inum, n).Ok?
    ensures GetDiskAddr(ctx, v, inum, n).Ok?
    ensures FetchBlock(ctx, v, inum, n).value.0 == GetDiskAddr(ctx, v, inum, n).value.0
    ensures FetchBlock(ctx, v, inum, n).value.2.inodes == GetDiskAddr(ctx, v, inum, n).value.1.inodes
    ensures forall k :: k != FetchBlock(ctx, v, inum, n).value.0 && k in GetDiskAddr(ctx, v, inum, n).value.1.cache ==>
      k in FetchBlock(ctx, v, inum, n).value.2.cache
      && FetchBlock(ctx, v, inum, n).value.2.cache[k] == GetDiskAddr(ctx, v, inum, n).value.1.cache[k]
  {
  }

  /** A block cached dirty is retrieved from the cache, and caching it
      again changes nothing. */
  lemma RetrieveDirty(ctx: Ctx, w: Vol, k: int)
    requires k in w.cache && w.cache[k].dirty
    ensures Retrieve(ctx, w, k, false) == Ok((w.cache[k].data, w))
    ensures CacheBlock(w, k, w.cache[k].data) == w
  {
    assert w.cache[k := Entry(w.cache[k].data, true)] == w.cache;
  }

  /** One pass of the read loop, given the chunk and what fetching its block
      gives. */
  lemma ReadChunkIs(ctx: Ctx, v: Vol, inum: int, buf: seq<byte>, start: nat, offset: nat, c: Chunk,
                    addr: int, data: seq<byte>, w: Vol)
    requires 0 <= inum < |v.inodes| && At(offset, start, |buf|, ctx.blockSize) && offset < start + |buf|
    requires c == ChunkAt(offset, start, start + |buf|, ctx.blockSize) && c.startWriteAt <= c.restOfBlock
    requires offset + (c.restOfBlock - c.startWriteAt) <= start + |buf|
    requires FetchBlock(ctx, v, inum, c.blockIndex) == Ok((addr, data, w))
    requires |data| >= c.restOfBlock
    ensures ReadChunk(ctx, v, inum, buf, start, offset)
        == Ok((Splice(buf, BufferIndex(offset, start, 0), data[c.startWriteAt..c.restOfBlock]),
               CacheBlock(w, addr, data)))
  {
  }

  /** A state that caches block a dirty, holding nd, and otherwise caches
      what the lookup of block n left along its own, distinct pointer
      blocks, where a is the block that lookup found: fetching block n
      again finds a, returns nd and changes nothing. */
  lemma FetchAgain(ctx: Ctx, v: Vol, inum: int, n: int, found: (int, Vol), w: Vol, nd: seq<byte>)
    requires 0 <= inum < |v.inodes| && |v.bits| > 0 && v.bits[0]
    requires GetDiskAddr(ctx, v, inum, n) == Ok(found)
    requires Distinct(LookupPath(ctx, v, inum, n)) && found.0 !in LookupPath(ctx, v, inum, n)
    requires w.inodes == found.1.inodes && found.0 in w.cache && w.cache[found.0] == Entry(nd, true)
    requires forall k :: k != found.0 && k in found.1.cache ==> k in w.cache && w.cache[k] == found.1.cache[k]
    ensures FetchBlock(ctx, w, inum, n) == Ok((found.0, nd, w))
  {
    AgreesOff(found.1, w, found.0, LookupPath(ctx, v, inum, n));
    GetDiskAddrSettled(ctx, v, inum, n, w);
    RetrieveDirty(ctx, w, found.0);
  }

  /** A pass of the read loop over the state a pass of the write loop left
      after fetching block c.blockIndex, splicing the next bytes of buf
      into it and caching it dirty. */
  lemma ReadBackChunk(ctx: Ctx, v: Vol, inum: int, buf: seq<byte>, start: nat, offset: nat, z: seq<byte>,
                      w: Vol, c: Chunk, next: nat)
    requires 0 <= inum < |v.inodes| && At(offset, start, |buf|, ctx.blockSize) && offset < start + |buf|
    requires |z| == |buf| && |v.bits| > 0 && v.bits[0]
    requires c == ChunkAt(offset, start, start + |buf|, ctx.blockSize)
    requires FetchBlock(ctx, v, inum, c.blockIndex).Ok?
    requires c.startWriteAt <= c.restOfBlock <= |FetchBlock(ctx, v, inum, c.blockIndex).value.1|
    requires next - offset == c.restOfBlock - c.startWriteAt && next <= start + |buf|
    requires w == CacheBlock(FetchBlock(ctx, v, inum, c.blockIndex).value.2, FetchBlock(ctx, v, inum, c.blockIndex).value.0,
                             Splice(FetchBlock(ctx, v, inum, c.blockIndex).value.1, c.startWriteAt,
                                    buf[offset - start .. next - start]))
    requires OwnBlock(ctx, v, inum, c.blockIndex)
    ensures ReadChunk(ctx, w, inum, z, start, offset) == Ok((Splice(z, offset - start, buf[offset - start .. next - start]), w))
  {
    var f := FetchBlock(ctx, v, inum, c.blockIndex).value;
    var nd := Splice(f.1, c.startWriteAt, buf[offset - start .. next - start]);
    FetchParts(ctx, v, inum, c.blockIndex);
    FetchAgain(ctx, v, inum, c.blockIndex, GetDiskAddr(ctx, v, inum, c.blockIndex).value, w, nd);
    RetrieveDirty(ctx, w, f.0);
    ReadChunkIs(ctx, w, inum, z, start, offset, c, f.0, nd, w);
    assert nd[c.startWriteAt .. c.restOfBlock] == buf[offset - start .. next - start];
  }

  /** A pass of the write loop that succeeds caches, dirty, the block it
      fetched with the chunk of buf spliced in. */
  lemma WritePassIs(ctx: Ctx, v: Vol, inum: int, buf: seq<byte>, start: nat, offset: nat, w: Vol,
                    c: Chunk, next: nat)
    requires 0 <= inum < |v.inodes| && At(offset, start, |buf|, ctx.blockSize) && offset < start + |buf|
    requires WriteChunk(ctx, v, inum, buf, start, offset) == Ok(w)
    requires c == ChunkAt(offset, start, start + |buf|, ctx.blockSize)
    requires next == Advance(offset, start, start + |buf|, ctx.blockSize)
    ensures FetchBlock(ctx, v, inum, c.blockIndex).Ok?
    ensures c.startWriteAt <= c.restOfBlock <= |FetchBlock(ctx, v, inum, c.blockIndex).value.1|
    ensures next - offset == c.restOfBlock - c.startWriteAt && next <= start + |buf|
    ensures w == CacheBlock(FetchBlock(ctx, v, inum, c.blockIndex).value.2, FetchBlock(ctx, v, inum, c.blockIndex).value.0,
                            Splice(FetchBlock(ctx, v, inum, c.blockIndex).value.1, c.startWriteAt,
                                   buf[offset - start .. next - start]))
  {
    FetchedForWrite(ctx, v, inum, buf, start, offset, c);
    var f := FetchBlock(ctx, v, inum, c.blockIndex).value;
    WriteChunkIs(ctx, v, inum, buf, start, offset, c, offset - start, next - offset, f.0, f.1, f.2);
  }

  /** One pass of the read loop, right after the pass of the write loop at
      the same offset, finds the block that pass wrote, copies the bytes
      that pass took from buf into the same positions of the read buffer,
      and changes nothing. */
  lemma WriteThenReadChunk(ctx: Ctx, v: Vol, inum: int, buf: seq<byte>, start: nat, offset: nat, z: seq<byte>,
                           w: Vol, next: nat)
    requires 0 <= inum < |v.inodes| && At(offset, start, |buf|, ctx.blockSize) && offset < start + |buf|
    requires |z| == |buf| && |v.bits| > 0 && v.bits[0]
    requires WriteChunk(ctx, v, inum, buf, start, offset) == Ok(w)
    requires next == Advance(offset, start, start + |buf|, ctx.blockSize)
    requires OwnBlock(ctx, v, inum, ChunkAt(offset, start, start + |buf|, ctx.blockSize).blockIndex)
    ensures ReadChunk(ctx, w, inum, z, start, offset) == Ok((Splice(z, offset - start, buf[offset - start .. next - start]), w))
  {
    var c := ChunkAt(offset, start, start + |buf|, ctx.blockSize);
    WritePassIs(ctx, v, inum, buf, start, offset, w, c, next);
    ReadBackChunk(ctx, v, inum, buf, start, offset, z, w, c, next);
  }

  /** A request inside one block is one pass of each loop. */
  lemma OneChunk(start: nat, count: nat, blockSize: nat)
    requires blockSize > 0 && count > 0 && start / blockSize == (start + count - 1) / blockSize
    ensures Advance(start, start, start + count, blockSize) == start + count
  {
    var b := start / blockSize;
    DivBounds(start, blockSize);
    DivBounds(start + count - 1, blockSize);
  }

  /** INode.read after INode.write of the same bytes at the same offset,
      inside one block whose lookup settles on a block of its own, returns
      those bytes and changes nothing. */
  lemma WriteThenRead(ctx: Ctx, v: Vol, inum: int, buf: seq<byte>, start: nat, z: seq<byte>)
    requires 0 <= inum < |v.inodes| && ctx.blockSize > 0 && |buf| > 0 && |z| == |buf|
    requires |v.bits| > 0 && v.bits[0]
    requires start / ctx.blockSize == (start + |buf| - 1) / ctx.blockSize
    requires WriteFrom(ctx, v, inum, buf, start, start).Ok?
    requires OwnBlock(ctx, v, inum, start / ctx.blockSize)
    ensures ReadFrom(ctx, WriteFrom(ctx, v, inum, buf, start, start).value, inum, z, start, start)
         == Ok((buf, WriteFrom(ctx, v, inum, buf, start, start).value))
  {
    var end := start + |buf|;
    OneChunk(start, |buf|, ctx.blockSize);
    assert ChunkAt(start, start, end, ctx.blockSize).blockIndex == start / ctx.blockSize;
    var w := WriteChunk(ctx, v, inum, buf, start, start).value;
    assert WriteFrom(ctx, v, inum, buf, start, start) == Ok(w);
    WriteThenReadChunk(ctx, v, inum, buf, start, start, z, w, end);
    assert buf[0 .. |buf|] == buf;
    assert Splice(z, 0, buf) == buf;
  }

  /** The write and read of FileSystem.py's own test: 13 bytes at offset
      27124 of 2048-byte blocks lie inside block 13, so they read back. */
  lemma WriteThenReadTest(ctx: Ctx, v: Vol, inum: int, buf: seq<byte>, z: seq<byte>)
    requires 0 <= inum < |v.inodes| && ctx.blockSize == 2048 && |buf| == 13 && |z| == 13
    requires |v.bits| > 0 && v.bits[0]
    requires WriteFrom(ctx, v, inum, buf, 27124, 27124).Ok?
    requires OwnBlock(ctx, v, inum, 13)
    ensures ReadFrom(ctx, WriteFrom(ctx, v, inum, buf, 27124, 27124).value, inum, z, 27124, 27124)
         == Ok((buf, WriteFrom(ctx, v, inum, buf, 27124, 27124).value))
  {
    WriteThenRead(ctx, v, inum, buf, 27124, z);
  }
}
