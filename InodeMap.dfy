/** The inode table: one inode per number, first-fit allocation by type,
    and its persistence as one inode record per block after the bitmap. */
module InodeMaps {
  import opened Bytes
  import opened Outcomes
  import opened BlockDevice
  import opened INodes
  import opened BlockMaps
  import MasterBlocks

  // ---------------------------------------------------------------------
  // Allocation rules

  /** inodes[id] with its type changed. */
  function WithFlags(inodes: seq<INode>, id: int, t: INodeType): (r: seq<INode>)
    requires 0 <= id < |inodes|
    ensures |r| == |inodes| && r[id].flags == t
    ensures forall j :: 0 <= j < |r| && j != id ==> r[j] == inodes[j]
  {
    inodes[id := inodes[id].(flags := t)]
  }

  /** setInode with the intended bound (inodeID below the master block's
      inodeCount and inside the table): an inode in use only goes back to
      FREE; anything else takes the new type. */
  function SetInodeRule(inodes: seq<INode>, count: int, id: int, newState: INodeType): (r: (seq<INode>, bool))
    ensures r.1 <==> 0 <= id < count && id < |inodes| && (inodes[id].flags == FREE || newState == FREE)
    ensures r.1 ==> r.0 == WithFlags(inodes, id, newState)
    ensures !r.1 ==> r.0 == inodes
  {
    if id < 0 || id >= count || id >= |inodes| then (inodes, false)
    else if inodes[id].flags != FREE then
      (if newState == FREE then (WithFlags(inodes, id, FREE), true) else (inodes, false))
    else (WithFlags(inodes, id, newState), true)
  }

  /** setInode as written: the guard rejects only inodeID > inodeCount, so
      inodeID == inodeCount indexes past the table and a negative inodeID
      counts from its end. */
  function SetInodeAsWritten(inodes: seq<INode>, count: int, id: int, newState: INodeType): Result<(seq<INode>, bool)>
  {
    if id > count then Ok((inodes, false))
    else match PyIndex(id, |inodes|)
      case None => Err(IndexFault)
      case Some(j) =>
        if inodes[j].flags != FREE then
          (if newState == FREE then Ok((WithFlags(inodes, j, FREE), true)) else Ok((inodes, false)))
        else Ok((WithFlags(inodes, j, newState), true))
  }

  /** Inside the table the two agree. */
  lemma SetInodeAgrees(inodes: seq<INode>, count: int, id: int, newState: INodeType)
    requires 0 <= id < count && id < |inodes|
    ensures SetInodeAsWritten(inodes, count, id, newState) == Ok(SetInodeRule(inodes, count, id, newState))
  {
  }

  /** On a one-inode table, inodeID 1 passes the guard and raises an
      IndexError, and -1 changes inode 0. */
  lemma SetInodeAsWrittenOffByOne()
    ensures SetInodeAsWritten([NewINode(0)], 1, 1, FILE) == Err(IndexFault)
    ensures SetInodeRule([NewINode(0)], 1, 1, FILE) == ([NewINode(0)], false)
    ensures SetInodeAsWritten([NewINode(0)], 1, -1, FILE) == Ok(([NewINode(0).(flags := FILE)], true))
    ensures SetInodeRule([NewINode(0)], 1, -1, FILE) == ([NewINode(0)], false)
  {
    assert WithFlags([NewINode(0)], 0, FILE) == [NewINode(0).(flags := FILE)];
  }

  /** The in-use flags of the first n inodes. */
  function InUse(inodes: seq<INode>, n: int): (r: seq<bool>)
    requires 0 <= n <= |inodes|
    ensures |r| == n && forall i :: 0 <= i < n ==> (r[i] <==> inodes[i].flags != FREE)
  {
    seq(n, i requires 0 <= i < n => inodes[i].flags != FREE)
  }

  /** The number of table entries the allocation loop can look at. */
  function Scanned(inodes: seq<INode>, count: int): (n: int)
    ensures 0 <= n <= |inodes|
  {
    if count < 0 then 0 else if count < |inodes| then count else |inodes|
  }

  /** The type a one-letter tag names: INodeType(ord(type)); a string that
      is not one character, or an unknown letter, names none. */
  function TagType(tag: string): (r: Option<INodeType>)
    ensures r.Some? <==> |tag| == 1 && TypeOfTag(tag[0] as int).Some?
    ensures r.Some? ==> Tag(r.value) == tag[0] as int
  {
    if |tag| != 1 then None else TypeOfTag(tag[0] as int)
  }

  /** allocateInode(type): -1 for a bad tag; otherwise the lowest FREE
      inode below inodeCount takes the type and is returned, and -1 means
      none is free. A count beyond the table ends in an IndexError once the
      scan runs past the table. */
  function AllocateInodeRule(inodes: seq<INode>, count: int, tag: string): (r: Result<(int, seq<INode>)>)
    ensures TagType(tag).None? ==> r == Ok((-1, inodes))
    ensures r.Err? <==> TagType(tag).Some? && count > |inodes| && FirstFree(InUse(inodes, |inodes|)) == -1
    ensures r.Ok? && r.value.0 == -1 ==> r.value.1 == inodes
    ensures r.Ok? && r.value.0 != -1 ==>
      var i := r.value.0;
      && 0 <= i < count && i < |inodes| && inodes[i].flags == FREE
      && (forall j :: 0 <= j < i ==> inodes[j].flags != FREE)
      && r.value.1 == WithFlags(inodes, i, TagType(tag).value)
    ensures TagType(tag).Some? && r == Ok((-1, inodes)) ==>
      forall j :: 0 <= j < Scanned(inodes, count) ==> inodes[j].flags != FREE
  {
    match TagType(tag)
    case None => Ok((-1, inodes))
    case Some(t) =>
      var n := Scanned(inodes, count);
      var i := FirstFree(InUse(inodes, n));
      if i != -1 then Ok((i, SetInodeRule(inodes, count, i, t).0))
      else if count > |inodes| then Err(IndexFault)
      else Ok((-1, inodes))
  }

  /** The table of a new file system: 256 fresh inodes, with inode 0 (the
      root directory) a DIRECTORY. */
  function FreshTable(): (t: seq<INode>)
    ensures |t| == MasterBlocks.DefaultInodeCount
    ensures t[0].flags == DIRECTORY && t[0].inodeNum == 0
    ensures forall x :: 1 <= x < |t| ==> t[x] == NewINode(x)
  {
    WithFlags(seq(MasterBlocks.DefaultInodeCount, x => NewINode(x)), 0, DIRECTORY)
  }

  /** Exactly the first k inodes are in use. */
  predicate UsedPrefix(inodes: seq<INode>, k: int) {
    forall i :: 0 <= i < |inodes| ==> (inodes[i].flags != FREE <==> i < k)
  }

  /** On a table whose first k inodes are in use, allocating a type other
      than FREE takes inode k. */
  lemma AllocateAfterPrefix(inodes: seq<INode>, count: int, k: nat, tag: string)
    requires UsedPrefix(inodes, k) && k < count <= |inodes|
    requires TagType(tag).Some? && TagType(tag).value != FREE
    ensures AllocateInodeRule(inodes, count, tag) == Ok((k, WithFlags(inodes, k, TagType(tag).value)))
    ensures UsedPrefix(WithFlags(inodes, k, TagType(tag).value), k + 1)
  {
    var used := InUse(inodes, Scanned(inodes, count));
    assert !used[k];
    var i := FirstFree(used);
    assert i == k;
  }

  /** The inode test: on a fresh table five directories take inodes 1 to 5,
      so inodes 0 .. 4 are directories; freeing inode 2 makes it FREE. */
  lemma FiveDirectoriesThenFree(t0: seq<INode>, t1: seq<INode>, t2: seq<INode>, t3: seq<INode>,
                                t4: seq<INode>, t5: seq<INode>)
    requires t0 == FreshTable()
    requires t1 == WithFlags(t0, 1, DIRECTORY) && t2 == WithFlags(t1, 2, DIRECTORY)
    requires t3 == WithFlags(t2, 3, DIRECTORY) && t4 == WithFlags(t3, 4, DIRECTORY)
    requires t5 == WithFlags(t4, 5, DIRECTORY)
    ensures AllocateInodeRule(t0, 256, "d") == Ok((1, t1))
    ensures AllocateInodeRule(t1, 256, "d") == Ok((2, t2))
    ensures AllocateInodeRule(t2, 256, "d") == Ok((3, t3))
    ensures AllocateInodeRule(t3, 256, "d") == Ok((4, t4))
    ensures AllocateInodeRule(t4, 256, "d") == Ok((5, t5))
    ensures forall i :: 0 <= i < 5 ==> t5[i].flags == DIRECTORY
    ensures SetInodeRule(t5, 256, 2, FREE).1 && SetInodeRule(t5, 256, 2, FREE).0[2].flags == FREE
  {
    assert TagType("d") == Some(DIRECTORY);
    assert UsedPrefix(t0, 1);
    AllocateAfterPrefix(t0, 256, 1, "d");
    AllocateAfterPrefix(t1, 256, 2, "d");
    AllocateAfterPrefix(t2, 256, 3, "d");
    AllocateAfterPrefix(t3, 256, 4, "d");
    AllocateAfterPrefix(t4, 256, 5, "d");
    forall i | 0 <= i < 5
      ensures t5[i].flags == DIRECTORY
    {
      assert t5[i] == t4[i];
      if i < 4 {
        assert t4[i] == t3[i];
        if i < 3 {
          assert t3[i] == t2[i];
          if i < 2 {
            assert t2[i] == t1[i];
            if i < 1 {
              assert t1[i] == t0[i];
            }
          }
        }
      }
    }
  }

  // ---------------------------------------------------------------------
  // Persistence: inode i in block start + i

  /** The writes of a table whose first count inodes are packable. */
  function TableWrites(inodes: seq<INode>, start: int, count: nat): (w: seq<BlockWrite>)
    requires count <= |inodes| && forall i :: 0 <= i < count ==> Packable(inodes[i])
    ensures |w| == count
    ensures forall i :: 0 <= i < count ==> w[i] == BlockWrite(start + i, PackINode(inodes[i]))
  {
    seq(count, i requires 0 <= i < count => BlockWrite(start + i, PackINode(inodes[i])))
  }

  /** InodeMap.pack from inode i on: inode.pack writes each record to its
      block in turn; an inode past the table is an IndexError, a field
      that does not fit a struct.error, a bad block number a failed assert. */
  function PackTable(d: Disk, inodes: seq<INode>, start: int, i: nat, count: int): (r: Result<Disk>)
    decreases count - i
  {
    if i >= count then Ok(d)
    else if i >= |inodes| then Err(IndexFault)
    else if !Packable(inodes[i]) then Err(RangeFault)
    else match WriteDisk(d, start + i, PackINode(inodes[i]), true)
      case Err(f) => Err(f)
      case Ok(d1) => PackTable(d1, inodes, start, i + 1, count)
  }

  /** A pack that succeeds had a packable inode for every block and made
      exactly the table's writes. */
  lemma {:induction false} PackTableWrites(d: Disk, inodes: seq<INode>, start: int, i: nat, count: int)
    requires PackTable(d, inodes, start, i, count).Ok? && i <= count && i <= |inodes|
    requires forall j :: 0 <= j < i ==> Packable(inodes[j])
    ensures count <= |inodes| && forall j :: i <= j < count ==> Packable(inodes[j])
    ensures PackTable(d, inodes, start, i, count)
         == ApplyWrites(d, TableWrites(inodes, start, count)[i..])
    decreases count - i
  {
    if i < count {
      var d1 := WriteDisk(d, start + i, PackINode(inodes[i]), true).value;
      PackTableWrites(d1, inodes, start, i + 1, count);
      var w := TableWrites(inodes, start, count);
      assert w[i..][1..] == w[i + 1..];
    }
  }

  /** After a successful pack every record is in its block. */
  lemma PackTableOnDisk(d: Disk, inodes: seq<INode>, start: int, count: int)
    requires PackTable(d, inodes, start, 0, count).Ok? && count >= 0
    ensures count <= |inodes| && forall j :: 0 <= j < count ==> Packable(inodes[j])
    ensures OnDisk(PackTable(d, inodes, start, 0, count).value, TableWrites(inodes, start, count))
  {
    PackTableWrites(d, inodes, start, 0, count);
    var w := TableWrites(inodes, start, count);
    assert w[0..] == w;
    ApplyWritesOnDisk(d, w, 0, count);
    assert w[0..count] == w;
  }

  /** InodeMap.unpack from inode i on: each record is read from its block
      into the table entry; an entry past the table is an IndexError, a
      failed read_block a failed assert, a short record a struct.error, an
      unknown type tag a ValueError. */
  function ReadTable(d: Disk, inodes: seq<INode>, start: int, blockSize: int, i: nat, count: int): (r: Result<seq<INode>>)
    ensures r.Ok? ==> |r.value| == |inodes|
    decreases count - i
  {
    if i >= count then Ok(inodes)
    else if i >= |inodes| then Err(IndexFault)
    else match ReadDisk(d, start + i, blockSize)
      case Err(f) => Err(f)
      case Ok(b) =>
        match UnpackINode(b)
        case Err(f) => Err(f)
        case Ok(n) => ReadTable(d, inodes[i := n], start, blockSize, i + 1, count)
  }

  /** A readable record in a block holding a packed inode restores it. */
  lemma ReadPacked(d: Disk, w: seq<BlockWrite>, k: nat, n: INode)
    requires OnDisk(d, w) && k < |w| && Packable(n) && |n.blockPtrs| == NumBlockPtrs
    requires w[k].data == PackINode(n)
    ensures ReadDisk(d, w[k].block, d.blockSize).Ok?
    ensures UnpackINode(ReadDisk(d, w[k].block, d.blockSize).value) == Ok(n)
  {
    OnDiskRead(d, w, k);
    var p := Padded(PackINode(n), d.blockSize, true);
    if |PackINode(n)| < d.blockSize {
      assert p == PackINode(n) + Zeros(d.blockSize - |PackINode(n)|);
      UnpackPack(n, Zeros(d.blockSize - |PackINode(n)|));
    } else {
      assert p == PackINode(n) + [];
      UnpackPack(n, []);
    }
  }

  /** One step of the read loop: a readable record n is stored at i. */
  lemma ReadTableStep(d: Disk, inodes: seq<INode>, start: int, blockSize: int, i: nat, count: int, n: INode)
    requires i < count && i < |inodes|
    requires RecordAt(d, start + i, n) && blockSize == d.blockSize
    ensures ReadTable(d, inodes, start, blockSize, i, count) == ReadTable(d, inodes[i := n], start, blockSize, i + 1, count)
  {
  }

  /** Blocks start .. start+count-1 of d hold readable records of the
      first count inodes. */
  predicate TableOnDisk(d: Disk, inodes: seq<INode>, start: int, count: nat)
    requires count <= |inodes|
  {
    forall j :: 0 <= j < count ==> RecordAt(d, start + j, inodes[j])
  }

  /** Block k of d holds a readable record of n. */
  predicate RecordAt(d: Disk, k: int, n: INode) {
    ReadDisk(d, k, d.blockSize).Ok? && UnpackINode(ReadDisk(d, k, d.blockSize).value) == Ok(n)
  }

  /** The blocks pack writes hold readable records of the table. */
  lemma TableWritesReadable(d: Disk, inodes: seq<INode>, start: int, count: nat)
    requires count <= |inodes|
    requires forall j :: 0 <= j < count ==> Packable(inodes[j]) && |inodes[j].blockPtrs| == NumBlockPtrs
    requires OnDisk(d, TableWrites(inodes, start, count))
    ensures TableOnDisk(d, inodes, start, count)
  {
    var w := TableWrites(inodes, start, count);
    forall j | 0 <= j < count
      ensures RecordAt(d, start + j, inodes[j])
    {
      ReadPacked(d, w, j, inodes[j]);
    }
  }

  /** Reading the table back from blocks that hold it restores inodes
      i .. count-1 and keeps the rest of the receiving table. */
  lemma {:induction false} ReadTableRestores(d: Disk, inodes: seq<INode>, acc: seq<INode>, start: int, i: nat, count: nat)
    requires count <= |inodes| && count <= |acc| && i <= count
    requires TableOnDisk(d, inodes, start, count)
    requires forall j :: 0 <= j < i ==> acc[j] == inodes[j]
    ensures ReadTable(d, acc, start, d.blockSize, i, count) == Ok(inodes[..count] + acc[count..])
    decreases count - i
  {
    if i < count {
      var next := acc[i := inodes[i]];
      RestoreStep(d, inodes, acc, start, i, count);
      ReadTableRestores(d, inodes, next, start, i + 1, count);
    } else {
      assert acc == inodes[..count] + acc[count..];
    }
  }

  /** One step of ReadTableRestores: inode i is read into the table. */
  lemma RestoreStep(d: Disk, inodes: seq<INode>, acc: seq<INode>, start: int, i: nat, count: nat)
    requires count <= |inodes| && count <= |acc| && i < count
    requires TableOnDisk(d, inodes, start, count)
    requires forall j :: 0 <= j < i ==> acc[j] == inodes[j]
    ensures ReadTable(d, acc, start, d.blockSize, i, count)
         == ReadTable(d, acc[i := inodes[i]], start, d.blockSize, i + 1, count)
    ensures forall j :: 0 <= j < i + 1 ==> acc[i := inodes[i]][j] == inodes[j]
    ensures acc[i := inodes[i]][count..] == acc[count..]
  {
    ReadTableStep(d, acc, start, d.blockSize, i, count, inodes[i]);
    assert acc[i := inodes[i]][count..] == acc[count..];
  }

  /** Unpacking what pack wrote restores the first count inodes, whatever
      the receiving table held. */
  lemma UnpackPackTable(d: Disk, inodes: seq<INode>, acc: seq<INode>, start: int, count: nat)
    requires PackTable(d, inodes, start, 0, count).Ok? && count <= |acc|
    requires forall j :: 0 <= j < count && j < |inodes| ==> |inodes[j].blockPtrs| == NumBlockPtrs
    ensures count <= |inodes|
    ensures var d' := PackTable(d, inodes, start, 0, count).value;
      ReadTable(d', acc, start, d'.blockSize, 0, count) == Ok(inodes[..count] + acc[count..])
  {
    PackTableOnDisk(d, inodes, start, count);
    TableWritesReadable(PackTable(d, inodes, start, 0, count).value, inodes, start, count);
    ReadTableRestores(PackTable(d, inodes, start, 0, count).value, inodes, acc, start, 0, count);
  }

  // ---------------------------------------------------------------------
  // The inode map object

  /** InodeMap: the inodes of a file system, updated in place. The master
      block's inodeCount, which the code reads through its master block
      reference, is passed to each operation. */
  class InodeMap {
    var inodes: seq<INode>

    /** InodeMap(fs): 256 fresh inodes, then inode 0 becomes the root
        DIRECTORY. */
    constructor()
      ensures inodes == FreshTable()
    {
      var table := seq(MasterBlocks.DefaultInodeCount, x => NewINode(x));
      inodes := table[0 := table[0].(flags := DIRECTORY)];
    }

    /** setInode, with the intended bound. */
    method SetInode(count: int, id: int, newState: INodeType) returns (ok: bool)
      modifies this
      ensures (inodes, ok) == SetInodeRule(old(inodes), count, id, newState)
    {
      if id < 0 || id >= count || id >= |inodes| {
        return false;
      }
      if inodes[id].flags != FREE {
        if newState == FREE {
          inodes := inodes[id := inodes[id].(flags := FREE)];
          return true;
        }
        return false;
      }
      inodes := inodes[id := inodes[id].(flags := newState)];
      ok := true;
    }

    /** allocateInode: scan for the first FREE inode and give it the type;
        setInode cannot refuse a FREE inode, so the code's second error
        return is never taken. */
    method AllocateInode(count: int, tag: string) returns (r: Result<int>)
      modifies this
      ensures AllocateInodeRule(old(inodes), count, tag)
           == if r.Ok? then Ok((r.value, inodes)) else Err(r.fault)
    {
      var t := TagType(tag);
      if t.None? {
        return Ok(-1);
      }
      ghost var n := Scanned(inodes, count);
      var i := 0;
      while i < count
        invariant 0 <= i && inodes == old(inodes) && (i <= n || n == count)
        invariant i <= Scanned(inodes, count)
        invariant forall j :: 0 <= j < i ==> inodes[j].flags != FREE
      {
        if i >= |inodes| {
          assert FirstFree(InUse(inodes, |inodes|)) == -1;
          return Err(IndexFault);
        }
        if inodes[i].flags == FREE {
          ghost var used := InUse(inodes, Scanned(inodes, count));
          assert !used[i] && forall j :: 0 <= j < i ==> used[j];
          var ok := SetInode(count, i, t.value);
          assert ok;
          return Ok(i);
        }
        i := i + 1;
      }
      r := Ok(-1);
    }

    /** freeInode: return an inode to FREE. */
    method FreeInode(count: int, id: int) returns (ok: bool)
      modifies this
      ensures (inodes, ok) == SetInodeRule(old(inodes), count, id, FREE)
    {
      ok := SetInode(count, id, FREE);
    }

    /** INode.truncate on inode inum: only its length changes. */
    method Truncate(inum: int, length: int)
      requires 0 <= inum < |inodes|
      modifies this
      ensures inodes == old(inodes)[inum := old(inodes)[inum].(length := length)]
    {
      inodes := inodes[inum := inodes[inum].(length := length)];
    }

    /** pack: inode i to block start + i for each i below count. */
    method Pack(dev: BlockDevice, count: int, start: int) returns (ok: bool)
      modifies dev`blocks
      ensures ok == PackTable(old(dev.Snapshot()), inodes, start, 0, count).Ok?
      ensures ok ==> PackTable(old(dev.Snapshot()), inodes, start, 0, count) == Ok(dev.Snapshot())
    {
      var i: nat := 0;
      while i < count
        invariant PackTable(old(dev.Snapshot()), inodes, start, 0, count)
               == PackTable(dev.Snapshot(), inodes, start, i, count)
        decreases count - i
      {
        if i >= |inodes| || !Packable(inodes[i]) {
          return false;
        }
        ok := dev.WriteBlock(start + i, PackINode(inodes[i]), true);
        if !ok {
          return;
        }
        i := i + 1;
      }
      ok := true;
    }

    /** unpack: inode i from block start + i for each i below count, each
        read into a buffer of the master block's block size. */
    method Unpack(dev: BlockDevice, count: int, start: int, blockSize: nat) returns (ok: bool)
      modifies this
      ensures var r := ReadTable(dev.Snapshot(), old(inodes), start, blockSize, 0, count);
        ok == r.Ok? && (ok ==> inodes == r.value)
    {
      var buffer := new byte[blockSize];
      var i: nat := 0;
      while i < count
        invariant ReadTable(dev.Snapshot(), old(inodes), start, blockSize, 0, count)
               == ReadTable(dev.Snapshot(), inodes, start, blockSize, i, count)
        decreases count - i
      {
        if i >= |inodes| {
          return false;
        }
        ok := dev.ReadBlock(start + i, buffer);
        if !ok {
          return;
        }
        var n := UnpackINode(buffer[..]);
        if n.Err? {
          return false;
        }
        inodes := inodes[i := n.value];
        i := i + 1;
      }
      ok := true;
    }
  }
}
