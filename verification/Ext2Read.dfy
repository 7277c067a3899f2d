/** Reading an ext2 file: the block tree of kernel/modules/ext2/src/inode.cpp and the buffered,
    run-coalescing read of kernel/modules/ext2/src/rw.cpp. */
module Ext2Read {
  import opened Division

  /** A mounted volume: what a block holds, as bytes and as the 32-bit numbers they spell. */
  datatype Volume = Volume(blockSize: nat, data: nat -> seq<int>, pointers: nat -> seq<nat>)

  datatype Inode = Inode(direct: seq<nat>, singly: nat, doubly: nat, triply: nat)

  /** ptr_per_block. */
  function PerBlock(vol: Volume): nat {
    vol.blockSize / 4
  }

  ghost predicate WellFormed(vol: Volume, inode: Inode) {
    && vol.blockSize >= 512
    && (forall b :: |vol.data(b)| == vol.blockSize)
    && (forall b :: |vol.pointers(b)| == PerBlock(vol))
    && |inode.direct| == 12
  }

  /** get_inode_block. Past the largest file the source reads outside the pointer block, and the
      answer is 0 here. read() asks for one block more than it reads, so that it may ask for that
      one; it never reads it. */
  function GetInodeBlock(vol: Volume, inode: Inode, index: nat): nat
    requires WellFormed(vol, inode)
  {
    var p := PerBlock(vol);
    if index < 12 then inode.direct[index]
    else if index < 12 + p then vol.pointers(inode.singly)[index - 12]
    else if index < 12 + p + p * p then Doubly(vol, inode, index - 12 - p)
    else if index < 12 + p + p * p + p * (p * p) then Triply(vol, inode, index - 12 - p - p * p)
    else 0
  }

  function Doubly(vol: Volume, inode: Inode, local: nat): nat
    requires WellFormed(vol, inode) && local < PerBlock(vol) * PerBlock(vol)
  {
    var p := PerBlock(vol);
    DivBounds(local, p, p);
    Second(vol, inode, inode.doubly, local / p, local % p)
  }

  function Triply(vol: Volume, inode: Inode, local: nat): nat
    requires WellFormed(vol, inode) && local < PerBlock(vol) * (PerBlock(vol) * PerBlock(vol))
  {
    var p := PerBlock(vol);
    ThreeDigits(local, p);
    Third(vol, inode, inode.triply, local / (p * p), local / p % p, local % p)
  }

  function Second(vol: Volume, inode: Inode, block: nat, q: nat, r: nat): nat
    requires WellFormed(vol, inode) && q < PerBlock(vol) && r < PerBlock(vol)
  {
    vol.pointers(vol.pointers(block)[q])[r]
  }

  function Third(vol: Volume, inode: Inode, block: nat, q2: nat, q1: nat, r: nat): nat
    requires WellFormed(vol, inode) && q2 < PerBlock(vol) && q1 < PerBlock(vol) && r < PerBlock(vol)
  {
    Second(vol, inode, vol.pointers(block)[q2], q1, r)
  }

  // ----- The tree, flattened in order -----

  function Leaves(vol: Volume, depth: nat, block: nat): seq<nat>
    decreases depth, 0
  {
    if depth == 0 then [block] else LeavesOf(vol, depth - 1, vol.pointers(block))
  }

  function LeavesOf(vol: Volume, depth: nat, blocks: seq<nat>): seq<nat>
    decreases depth, |blocks| + 1
  {
    if blocks == [] then [] else Leaves(vol, depth, blocks[0]) + LeavesOf(vol, depth, blocks[1..])
  }

  /** All blocks of the file in file order. */
  function FileBlocks(vol: Volume, inode: Inode): seq<nat> {
    inode.direct + Leaves(vol, 1, inode.singly) + Leaves(vol, 2, inode.doubly) + Leaves(vol, 3, inode.triply)
  }

  function Size(p: nat, depth: nat): nat {
    if depth == 0 then 1 else p * Size(p, depth - 1)
  }

  // ----- The tree lookup -----

  lemma {:induction false} LeavesLength(vol: Volume, inode: Inode, depth: nat, block: nat)
    requires WellFormed(vol, inode)
    ensures |Leaves(vol, depth, block)| == Size(PerBlock(vol), depth)
    decreases depth, 0
  {
    if depth > 0 { LeavesOfLength(vol, inode, depth - 1, vol.pointers(block)); }
  }

  lemma {:induction false} LeavesOfLength(vol: Volume, inode: Inode, depth: nat, blocks: seq<nat>)
    requires WellFormed(vol, inode)
    ensures |LeavesOf(vol, depth, blocks)| == |blocks| * Size(PerBlock(vol), depth)
    decreases depth, |blocks| + 1
  {
    if blocks != [] {
      LeavesLength(vol, inode, depth, blocks[0]);
      LeavesOfLength(vol, inode, depth, blocks[1..]);
      MulDifference(|blocks|, 1, Size(PerBlock(vol), depth));
    }
  }

  /** The leaves below the q-th block follow those below the blocks before it. */
  lemma {:induction false} LeavesOfAt(vol: Volume, inode: Inode, depth: nat, blocks: seq<nat>, q: nat, r: nat)
    requires WellFormed(vol, inode) && q < |blocks| && r < Size(PerBlock(vol), depth)
    ensures var i := q * Size(PerBlock(vol), depth) + r;
            && 0 <= i < |LeavesOf(vol, depth, blocks)| && r < |Leaves(vol, depth, blocks[q])|
            && LeavesOf(vol, depth, blocks)[i] == Leaves(vol, depth, blocks[q])[r]
    decreases q
  {
    var s := Size(PerBlock(vol), depth);
    LeavesLength(vol, inode, depth, blocks[q]);
    LeavesLength(vol, inode, depth, blocks[0]);
    if q > 0 {
      LeavesOfAt(vol, inode, depth, blocks[1..], q - 1, r);
      MulDifference(q, 1, s);
    }
  }

  lemma SizeOf(p: nat)
    ensures Size(p, 0) == 1 && Size(p, 1) == p && Size(p, 2) == p * p && Size(p, 3) == p * (p * p)
  {
    assert Size(p, 1) == p * Size(p, 0);
  }

  lemma LeafOne(vol: Volume, inode: Inode, block: nat, r: nat)
    requires WellFormed(vol, inode) && r < PerBlock(vol)
    ensures r < |Leaves(vol, 1, block)| && Leaves(vol, 1, block)[r] == vol.pointers(block)[r]
  {
    SizeOf(PerBlock(vol));
    LeavesOfAt(vol, inode, 0, vol.pointers(block), r, 0);
  }

  lemma LeafTwo(vol: Volume, inode: Inode, block: nat, q: nat, r: nat)
    requires WellFormed(vol, inode) && q < PerBlock(vol) && r < PerBlock(vol)
    ensures var i := q * PerBlock(vol) + r;
            0 <= i < |Leaves(vol, 2, block)| && Leaves(vol, 2, block)[i] == Second(vol, inode, block, q, r)
  {
    SizeOf(PerBlock(vol));
    LeavesOfAt(vol, inode, 1, vol.pointers(block), q, r);
    LeafOne(vol, inode, vol.pointers(block)[q], r);
  }

  lemma LeafThree(vol: Volume, inode: Inode, block: nat, q2: nat, q1: nat, r: nat)
    requires WellFormed(vol, inode) && q2 < PerBlock(vol) && q1 < PerBlock(vol) && r < PerBlock(vol)
    ensures var p := PerBlock(vol);
            var i := q2 * (p * p) + (q1 * p + r);
            0 <= i < |Leaves(vol, 3, block)| && Leaves(vol, 3, block)[i] == Third(vol, inode, block, q2, q1, r)
  {
    var p := PerBlock(vol);
    SizeOf(p);
    TwoDigits((0 * p + q1) * p + r, p, 0, q1, r);
    LeavesOfAt(vol, inode, 2, vol.pointers(block), q2, q1 * p + r);
    LeafTwo(vol, inode, vol.pointers(block)[q2], q1, r);
  }

  lemma FileBlocksCount(vol: Volume, inode: Inode)
    requires WellFormed(vol, inode)
    ensures var p := PerBlock(vol);
            && |Leaves(vol, 1, inode.singly)| == p && |Leaves(vol, 2, inode.doubly)| == p * p
            && |Leaves(vol, 3, inode.triply)| == p * (p * p)
            && |FileBlocks(vol, inode)| == 12 + p + p * p + p * (p * p)
  {
    LeavesLength(vol, inode, 1, inode.singly);
    LeavesLength(vol, inode, 2, inode.doubly);
    LeavesLength(vol, inode, 3, inode.triply);
    SizeOf(PerBlock(vol));
  }

  lemma DoublyIsLeaf(vol: Volume, inode: Inode, local: nat)
    requires WellFormed(vol, inode) && local < |Leaves(vol, 2, inode.doubly)| == PerBlock(vol) * PerBlock(vol)
    ensures Doubly(vol, inode, local) == Leaves(vol, 2, inode.doubly)[local]
  {
    var p := PerBlock(vol);
    DivBounds(local, p, p);
    DivMod(local, p);
    LeafTwo(vol, inode, inode.doubly, local / p, local % p);
  }

  lemma TriplyIsLeaf(vol: Volume, inode: Inode, local: nat)
    requires WellFormed(vol, inode) && local < |Leaves(vol, 3, inode.triply)| == PerBlock(vol) * (PerBlock(vol) * PerBlock(vol))
    ensures Triply(vol, inode, local) == Leaves(vol, 3, inode.triply)[local]
  {
    var p := PerBlock(vol);
    ThreeDigits(local, p);
    LeafThree(vol, inode, inode.triply, local / (p * p), local / p % p, local % p);
  }

  /** Block `index` of the file is element `index` of the flattened tree. */
  lemma InodeBlockIsLeaf(vol: Volume, inode: Inode, index: nat)
    requires WellFormed(vol, inode) && index < |FileBlocks(vol, inode)|
    ensures GetInodeBlock(vol, inode, index) == FileBlocks(vol, inode)[index]
  {
    var p := PerBlock(vol);
    FileBlocksCount(vol, inode);
    if index < 12 {
    } else if index < 12 + p {
      LeafOne(vol, inode, inode.singly, index - 12);
    } else if index < 12 + p + p * p {
      DoublyIsLeaf(vol, inode, index - 12 - p);
    } else {
      TriplyIsLeaf(vol, inode, index - 12 - p - p * p);
    }
  }

  // ----- The bytes of a file -----

  /** Byte `k` of the file by way of get_inode_block. */
  function ByteOf(vol: Volume, inode: Inode, k: nat): int
    requires WellFormed(vol, inode)
  {
    vol.data(GetInodeBlock(vol, inode, k / vol.blockSize))[k % vol.blockSize]
  }

  function Bytes(vol: Volume, inode: Inode, from: nat, count: nat): (r: seq<int>)
    requires WellFormed(vol, inode)
    ensures |r| == count
  {
    if count == 0 then [] else Bytes(vol, inode, from, count - 1) + [ByteOf(vol, inode, from + count - 1)]
  }

  lemma {:induction false} BytesAt(vol: Volume, inode: Inode, from: nat, count: nat, i: nat)
    requires WellFormed(vol, inode) && i < count
    ensures Bytes(vol, inode, from, count)[i] == ByteOf(vol, inode, from + i)
    decreases count
  {
    if i < count - 1 { BytesAt(vol, inode, from, count - 1, i); }
  }

  lemma {:induction false} BytesConcat(vol: Volume, inode: Inode, from: nat, a: nat, b: nat)
    requires WellFormed(vol, inode)
    ensures Bytes(vol, inode, from, a) + Bytes(vol, inode, from + a, b) == Bytes(vol, inode, from, a + b)
    decreases b
  {
    if b > 0 { BytesConcat(vol, inode, from, a, b - 1); }
  }

  /** A slice of one block. */
  lemma BlockSlice(vol: Volume, inode: Inode, q: nat, r: nat, n: nat)
    requires WellFormed(vol, inode) && r + n <= vol.blockSize
    ensures vol.data(GetInodeBlock(vol, inode, q))[r..r + n] == Bytes(vol, inode, q * vol.blockSize + r, n)
  {
    var slice, bytes := vol.data(GetInodeBlock(vol, inode, q))[r..r + n], Bytes(vol, inode, q * vol.blockSize + r, n);
    forall i | 0 <= i < n ensures slice[i] == bytes[i] {
      BytesAt(vol, inode, q * vol.blockSize + r, n, i);
      DivUnique(q * vol.blockSize + r + i, q, vol.blockSize, r + i);
    }
  }

  /** What the device returns for `count` consecutive blocks. */
  function DeviceRun(vol: Volume, block: nat, count: nat): seq<int> {
    if count == 0 then [] else DeviceRun(vol, block, count - 1) + vol.data(block + count - 1)
  }

  /** The next `count` blocks of the file from `start` are `block`, `block` + 1, ... */
  predicate Consecutive(vol: Volume, inode: Inode, start: nat, block: nat, count: nat)
    requires WellFormed(vol, inode)
  {
    count == 0 || (Consecutive(vol, inode, start, block, count - 1)
                   && GetInodeBlock(vol, inode, start + count - 1) == block + count - 1)
  }

  /** The contents of `count` blocks of the file from block `start`. */
  function BlockBytes(vol: Volume, inode: Inode, start: nat, count: nat): seq<int>
    requires WellFormed(vol, inode)
  {
    if count == 0 then [] else BlockBytes(vol, inode, start, count - 1) + vol.data(GetInodeBlock(vol, inode, start + count - 1))
  }

  /** One device read of a run is as good as one read per block. */
  lemma {:induction false} RunIsBlocks(vol: Volume, inode: Inode, start: nat, block: nat, count: nat)
    requires WellFormed(vol, inode) && Consecutive(vol, inode, start, block, count)
    ensures DeviceRun(vol, block, count) == BlockBytes(vol, inode, start, count)
    decreases count
  {
    if count > 0 { RunIsBlocks(vol, inode, start, block, count - 1); }
  }

  lemma {:induction false} BlockBytesConcat(vol: Volume, inode: Inode, start: nat, a: nat, b: nat)
    requires WellFormed(vol, inode)
    ensures BlockBytes(vol, inode, start, a) + BlockBytes(vol, inode, start + a, b) == BlockBytes(vol, inode, start, a + b)
    decreases b
  {
    if b > 0 { BlockBytesConcat(vol, inode, start, a, b - 1); }
  }

  lemma {:induction false} BlockBytesAreBytes(vol: Volume, inode: Inode, start: nat, count: nat, from: nat, n: nat)
    requires WellFormed(vol, inode) && from == start * vol.blockSize && n == count * vol.blockSize
    ensures BlockBytes(vol, inode, start, count) == Bytes(vol, inode, from, n)
    decreases count
  {
    if count > 0 {
      OneBlockLess(start, count, vol.blockSize);
      BlockBytesAreBytes(vol, inode, start, count - 1, from, n - vol.blockSize);
      WholeBlock(vol, inode, start + count - 1, from + n - vol.blockSize);
      BytesConcat(vol, inode, from, n - vol.blockSize, vol.blockSize);
    }
  }

  lemma OneBlockLess(start: nat, count: nat, bs: nat)
    requires count > 0
    ensures count * bs - bs == (count - 1) * bs >= 0
    ensures (start + count - 1) * bs == start * bs + count * bs - bs
  {
    MulDifference(count, 1, bs);
    MulDifference(start + count - 1, start, bs);
  }

  lemma WholeBlock(vol: Volume, inode: Inode, q: nat, from: nat)
    requires WellFormed(vol, inode) && from == q * vol.blockSize
    ensures vol.data(GetInodeBlock(vol, inode, q)) == Bytes(vol, inode, from, vol.blockSize)
  {
    var block := vol.data(GetInodeBlock(vol, inode, q));
    BlockSlice(vol, inode, q, 0, vol.blockSize);
    assert block[0..0 + vol.blockSize] == block;
  }

  /** The bytes of blocks one after the other. */
  function DataOf(vol: Volume, blocks: seq<nat>): seq<int> {
    if blocks == [] then [] else DataOf(vol, blocks[..|blocks| - 1]) + vol.data(blocks[|blocks| - 1])
  }

  /** The bytes of a file: those of its direct, single, double and triple pointer trees. */
  function FileData(vol: Volume, inode: Inode): seq<int> {
    DataOf(vol, FileBlocks(vol, inode))
  }

  lemma {:induction false} BlockBytesAreData(vol: Volume, inode: Inode, blocks: seq<nat>)
    requires WellFormed(vol, inode) && forall i: nat | i < |blocks| :: GetInodeBlock(vol, inode, i) == blocks[i]
    ensures BlockBytes(vol, inode, 0, |blocks|) == DataOf(vol, blocks)
    ensures |DataOf(vol, blocks)| == |blocks| * vol.blockSize
    decreases |blocks|
  {
    if blocks != [] {
      BlockBytesAreData(vol, inode, blocks[..|blocks| - 1]);
      MulDifference(|blocks|, 1, vol.blockSize);
    }
  }

  /** Going through get_inode_block finds the bytes of the trees. */
  lemma BytesAreFileData(vol: Volume, inode: Inode)
    requires WellFormed(vol, inode)
    ensures Bytes(vol, inode, 0, |FileData(vol, inode)|) == FileData(vol, inode)
  {
    var blocks := FileBlocks(vol, inode);
    forall i: nat | i < |blocks| ensures GetInodeBlock(vol, inode, i) == blocks[i] {
      InodeBlockIsLeaf(vol, inode, i);
    }
    BlockBytesAreData(vol, inode, blocks);
    BlockBytesAreBytes(vol, inode, 0, |blocks|, 0, |DataOf(vol, blocks)|);
  }

  lemma BytesSlice(vol: Volume, inode: Inode, data: seq<int>, from: nat, count: nat)
    requires WellFormed(vol, inode) && Bytes(vol, inode, 0, |data|) == data && from + count <= |data|
    ensures Bytes(vol, inode, from, count) == data[from..from + count]
  {
    forall i | 0 <= i < count ensures Bytes(vol, inode, from, count)[i] == data[from + i] {
      BytesAt(vol, inode, from, count, i);
      BytesAt(vol, inode, 0, |data|, from + i);
    }
  }

  /** An open file: Ext2StreamDataStorage with the node it belongs to. */
  class FileStream {
    const vol: Volume
    const inode: Inode
    const fileSize: nat
    /** The bytes of the file. */
    ghost const data: seq<int>
    var position: nat
    /** One block; its contents matter only while the position is inside a block. */
    var buffer: seq<int>

    /** A file is no larger than its blocks. */
    constructor (vol: Volume, inode: Inode, fileSize: nat, buffer: seq<int>)
      requires WellFormed(vol, inode) && fileSize <= |FileData(vol, inode)|
      ensures Valid() && position == 0
      ensures this.vol == vol && this.inode == inode && this.fileSize == fileSize && data == FileData(vol, inode)
    {
      this.vol, this.inode, this.fileSize, this.data := vol, inode, fileSize, FileData(vol, inode);
      position := 0;
      this.buffer := buffer;
      new;
      BytesAreFileData(vol, inode);
      DivUnique(0, 0, vol.blockSize, 0);
    }

    /** The buffer is in step with the position. */
    ghost predicate Valid()
      reads this
    {
      && WellFormed(vol, inode) && position <= fileSize <= |data| && Bytes(vol, inode, 0, |data|) == data
      && (position % vol.blockSize != 0 ==> buffer == vol.data(GetInodeBlock(vol, inode, position / vol.blockSize)))
    }

    /** The block loop: runs of consecutive blocks are read at once. */
    method ReadBlocks(first: nat, count: nat) returns (out: seq<int>)
      requires WellFormed(vol, inode)
      ensures out == BlockBytes(vol, inode, first, count)
    {
      out := [];
      var start, blocksToRead := first, count;
      while blocksToRead > 0
        invariant start + blocksToRead == first + count && start >= first && blocksToRead >= 0
        invariant out == BlockBytes(vol, inode, first, start - first)
        decreases blocksToRead
      {
        var block := GetInodeBlock(vol, inode, start);
        var blkCount := 0;
        while GetInodeBlock(vol, inode, start + blkCount) == block + blkCount && blkCount < blocksToRead
          invariant 0 <= blkCount <= blocksToRead
          invariant Consecutive(vol, inode, start, block, blkCount)
          decreases blocksToRead - blkCount
        {
          blkCount := blkCount + 1;
        }
        assert blkCount > 0;
        RunIsBlocks(vol, inode, start, block, blkCount);
        BlockBytesConcat(vol, inode, first, start - first, blkCount);
        out := out + DeviceRun(vol, block, blkCount);
        blocksToRead := blocksToRead - blkCount;
        start := start + blkCount;
      }
    }

    /** The part of read that serves the rest of the block the position is in, from the buffer. */
    method ReadHead(wanted: nat) returns (out: seq<int>)
      requires Valid() && position + wanted <= fileSize
      modifies this`position
      ensures Valid() && position == old(position) + |out| && |out| <= wanted
      ensures out == Bytes(vol, inode, old(position), |out|)
      ensures |out| == wanted || position % vol.blockSize == 0
    {
      var bs := vol.blockSize;
      var q, r := position / bs, position % bs;
      DivMod(position, bs);
      var sizeToRead := if bs - r == bs then 0 else bs - r;
      if sizeToRead > wanted { sizeToRead := wanted; }
      out := [];
      if sizeToRead > 0 {
        BlockSlice(vol, inode, q, r, sizeToRead);
        out := buffer[r..r + sizeToRead];
        Advanced(q, bs, r, sizeToRead);
        position := position + sizeToRead;
      }
    }

    /** The part of read that serves the start of a block through the buffer. */
    method ReadTail(wanted: nat) returns (out: seq<int>)
      requires Valid() && position % vol.blockSize == 0 && wanted < vol.blockSize && position + wanted <= fileSize
      modifies this
      ensures Valid() && position == old(position) + wanted
      ensures out == Bytes(vol, inode, old(position), wanted)
    {
      var bs := vol.blockSize;
      var q := position / bs;
      DivMod(position, bs);
      buffer := vol.data(GetInodeBlock(vol, inode, q));
      BlockSlice(vol, inode, q, 0, wanted);
      out := buffer[0..wanted];
      position := position + wanted;
      DivUnique(position, q, bs, wanted);
    }

    /** The part of read that serves whole blocks without the buffer. */
    method ReadBody(wanted: nat) returns (out: seq<int>)
      requires Valid() && position % vol.blockSize == 0 && position + wanted <= fileSize
      modifies this`position
      ensures Valid() && position == old(position) + |out| && wanted - vol.blockSize < |out| <= wanted
      ensures out == Bytes(vol, inode, old(position), |out|)
      ensures position % vol.blockSize == 0
    {
      var bs := vol.blockSize;
      var first, blocks := position / bs, wanted / bs;
      DivMod(position, bs);
      DivMod(wanted, bs);
      out := ReadBlocks(first, blocks);
      BlockBytesAreBytes(vol, inode, first, blocks, position, blocks * bs);
      MulDifference(first + blocks, blocks, bs);
      position := position + blocks * bs;
      DivUnique(position, first + blocks, bs, 0);
    }

    /** read: the next bytes of the file, as many as asked for or as are left. */
    method Read(length: nat) returns (out: seq<int>)
      requires Valid()
      modifies this
      ensures Valid()
      ensures position == if fileSize - old(position) < length then fileSize else old(position) + length
      ensures old(position) <= position && out == data[old(position)..position]
    {
      var total := if fileSize - position < length then fileSize - position else length;
      BytesSlice(vol, inode, data, position, total);
      out := ReadTotal(total);
    }

    /** read, once the length has been cut at the end of the file. */
    method ReadTotal(total: nat) returns (out: seq<int>)
      requires Valid() && position + total <= fileSize
      modifies this
      ensures Valid() && position == old(position) + total && out == Bytes(vol, inode, old(position), total)
    {
      out := ReadHead(total);
      if |out| < total {
        var rest := ReadAligned(total - |out|);
        BytesConcat(vol, inode, old(position), |out|, |rest|);
        out := out + rest;
      }
    }

    /** Whole blocks, then the start of the last one. */
    method ReadAligned(wanted: nat) returns (out: seq<int>)
      requires Valid() && position % vol.blockSize == 0 && position + wanted <= fileSize
      modifies this
      ensures Valid() && position == old(position) + wanted
      ensures |out| == wanted && out == Bytes(vol, inode, old(position), wanted)
    {
      out := ReadBody(wanted);
      if |out| < wanted {
        var tail := ReadTail(wanted - |out|);
        BytesConcat(vol, inode, old(position), |out|, |tail|);
        out := out + tail;
      }
    }

    /** Reading with any lengths and no seek, from a freshly opened stream, gives a prefix of
        the file. */
    method ReadSequence(lengths: seq<nat>) returns (out: seq<int>)
      requires Valid() && position == 0
      modifies this
      ensures Valid() && out == data[..position]
      ensures position == fileSize || position == Sum(lengths)
    {
      out := [];
      for i := 0 to |lengths|
        invariant Valid() && out == data[..position]
        invariant position == fileSize || position == Sum(lengths[..i])
      {
        ghost var before := position;
        var next := Read(lengths[i]);
        out := out + next;
        assert lengths[..i + 1][..i] == lengths[..i];
      }
      assert lengths[..|lengths|] == lengths;
    }
  }

  /** A file opened and read with any lengths, without a seek: what comes out is a prefix of its
      bytes, cut at its size. */
  method ReadFile(vol: Volume, inode: Inode, fileSize: nat, lengths: seq<nat>) returns (out: seq<int>)
    requires WellFormed(vol, inode) && fileSize <= |FileData(vol, inode)|
    ensures |out| == fileSize || |out| == Sum(lengths)
    ensures |out| <= fileSize && out == FileData(vol, inode)[..|out|]
  {
    var stream := new FileStream(vol, inode, fileSize, []);
    out := stream.ReadSequence(lengths);
  }

  function Sum(lengths: seq<nat>): nat {
    if lengths == [] then 0 else Sum(lengths[..|lengths| - 1]) + lengths[|lengths| - 1]
  }

  /** Moving inside a block, or exactly to its end. */
  lemma Advanced(q: nat, bs: nat, r: nat, n: nat)
    requires r + n <= bs && bs > 0
    ensures var p := q * bs + r + n;
            if r + n < bs then p / bs == q && p % bs == r + n else p % bs == 0
  {
    if r + n < bs { DivUnique(q * bs + r + n, q, bs, r + n); }
    else { MulDifference(q + 1, q, bs); DivUnique(q * bs + r + n, q + 1, bs, 0); }
  }
}
