/** File contents on an ext2 volume: data blocks, free blocks, and the bytes that an inode's pointers reach. */
module Ext2Data {
  import opened Utils
  import opened Arith
  import opened Ext2Bytes
  import opened Ext2Trees
  import opened Ext2Layout
  import opened Ext2Inodes

  // ---------- data blocks ----------

  /** Not the superblock, a descriptor, a bitmap or a part of an inode table. */
  ghost predicate DataBlock(geo: Geometry, blocks: Blocks, b: nat)
    requires Laid(geo, blocks)
  {
    && 0 < b < |blocks| && geo.DescBlock(geo.groups - 1) < b
    && (forall kind, g: nat :: g < geo.groups ==> BitmapBlock(geo, blocks, kind, g) != b)
    && (forall g: nat :: g < geo.groups ==> !InTable(geo, blocks, g, b))
  }

  /** Every bit that stands for this block is set. */
  ghost predicate NotFree(geo: Geometry, blocks: Blocks, b: nat)
    requires Laid(geo, blocks)
  {
    forall g: nat, i: nat :: g < geo.groups && i < geo.blocksPerGroup && BlockNumber(geo, g, i) == b ==>
        BitIn(geo, blocks, BlockKind, g, i)
  }

  /** What the block bitmap leaves free are data blocks. */
  ghost predicate FreeAreData(geo: Geometry, blocks: Blocks)
    requires Laid(geo, blocks)
  {
    forall g: nat, i: nat :: g < geo.groups && i < geo.blocksPerGroup && !BitIn(geo, blocks, BlockKind, g, i) ==>
      DataBlock(geo, blocks, BlockNumber(geo, g, i))
  }

  /** The direct pointers name different data blocks that are not free. */
  ghost predicate Owns(geo: Geometry, blocks: Blocks, ptrs: seq<nat>)
    requires Laid(geo, blocks) && |ptrs| == POINTERS
  {
    && (forall k :: 0 <= k < DIRECT && ptrs[k] != 0 ==>
           DataBlock(geo, blocks, ptrs[k]) && NotFree(geo, blocks, ptrs[k]))
    && (forall j, k :: 0 <= j < k < DIRECT && ptrs[j] != 0 ==> ptrs[j] != ptrs[k])
  }

  // ---------- writing to a data block ----------

  /** The superblock, the descriptors and the bitmaps are as before. */
  ghost predicate SameMeta(geo: Geometry, blocks: Blocks, blocks': Blocks)
    requires Laid(geo, blocks)
  {
    && |blocks'| == |blocks| && WholeBlocks(blocks', geo.bs)
    && forall b :: 0 <= b < |blocks| && Meta(geo, blocks, b) ==> blocks'[b] == blocks[b]
  }

  ghost predicate Meta(geo: Geometry, blocks: Blocks, b: nat)
    requires Laid(geo, blocks)
  {
    b <= geo.DescBlock(geo.groups - 1) || exists kind, g: nat :: g < geo.groups && BitmapBlock(geo, blocks, kind, g) == b
  }

  lemma {:induction false} DescIsMeta(geo: Geometry, blocks: Blocks, g: nat)
    requires Laid(geo, blocks) && g < geo.groups
    ensures Meta(geo, blocks, geo.DescBlock(g)) && Meta(geo, blocks, geo.SuperBlock())
    ensures forall kind :: Meta(geo, blocks, BitmapBlock(geo, blocks, kind, g))
    ensures geo.DescBlock(g) < |blocks| && geo.SuperBlock() < |blocks|
  {
    DescInBlock(geo, g);
  }

  lemma {:induction false} SameDescs(geo: Geometry, blocks: Blocks, blocks': Blocks)
    requires Laid(geo, blocks) && SameMeta(geo, blocks, blocks')
    ensures Laid(geo, blocks')
    ensures forall g: nat, field: nat :: g < geo.groups && field + 2 <= DESC ==>
                Desc16(geo, blocks', g, field) == Desc16(geo, blocks, g, field)
    ensures forall g: nat, field: nat :: g < geo.groups && field + 4 <= DESC ==>
                Desc32(geo, blocks', g, field) == Desc32(geo, blocks, g, field)
    ensures forall kind :: SuperCount(geo, blocks', kind) == SuperCount(geo, blocks, kind)
  {
    hide Meta;
    DescIsMeta(geo, blocks, 0);
    forall g: nat | g < geo.groups
      ensures blocks'[geo.DescBlock(g)] == blocks[geo.DescBlock(g)]
    {
      DescIsMeta(geo, blocks, g);
    }
    forall kind, g: nat | g < geo.groups
      ensures BitmapBlock(geo, blocks', kind, g) == BitmapBlock(geo, blocks, kind, g)
    {
    }
  }

  lemma {:induction false} SameBits(geo: Geometry, blocks: Blocks, blocks': Blocks)
    requires Laid(geo, blocks) && SameMeta(geo, blocks, blocks')
    ensures Laid(geo, blocks')
    ensures forall kind, g: nat, i: nat :: g < geo.groups && i < geo.PerGroup(kind) ==>
                BitIn(geo, blocks', kind, g, i) == BitIn(geo, blocks, kind, g, i)
    ensures forall kind, g: nat :: g < geo.groups ==> ZerosIn(geo, blocks', kind, g) == ZerosIn(geo, blocks, kind, g)
  {
    hide Laid, SameMeta, BitmapBlock, Bit, ClearBits;
    LaidShape(geo, blocks);
    SameDescs(geo, blocks, blocks');
    SameBitmaps(geo, blocks, blocks');
    forall kind, g: nat | g < geo.groups
      ensures BitmapBlock(geo, blocks, kind, g) < |blocks| == |blocks'|
      ensures blocks'[BitmapBlock(geo, blocks, kind, g)] == blocks[BitmapBlock(geo, blocks, kind, g)]
    {
      SameBitmap(geo, blocks, blocks', kind, g);
    }
  }

  lemma {:induction false} SameBitmaps(geo: Geometry, blocks: Blocks, blocks': Blocks)
    requires Laid(geo, blocks) && SameMeta(geo, blocks, blocks')
    ensures Laid(geo, blocks') && |blocks'| == |blocks|
    ensures forall kind, g: nat :: g < geo.groups ==>
                BitmapBlock(geo, blocks', kind, g) == BitmapBlock(geo, blocks, kind, g)
    ensures forall g: nat, b: nat :: g < geo.groups ==> InTable(geo, blocks', g, b) == InTable(geo, blocks, g, b)
  {
    hide SameMeta, Desc32;
    MetaLength(geo, blocks, blocks');
    SameDescs(geo, blocks, blocks');
  }

  lemma {:induction false} MetaLength(geo: Geometry, blocks: Blocks, blocks': Blocks)
    requires Laid(geo, blocks) && SameMeta(geo, blocks, blocks')
    ensures |blocks'| == |blocks| && WholeBlocks(blocks', geo.bs)
  {
  }

  lemma {:induction false} SameData(geo: Geometry, blocks: Blocks, blocks': Blocks)
    requires Laid(geo, blocks) && SameMeta(geo, blocks, blocks')
    ensures Laid(geo, blocks')
    ensures forall b: nat :: DataBlock(geo, blocks', b) == DataBlock(geo, blocks, b)
    ensures forall b: nat :: NotFree(geo, blocks', b) == NotFree(geo, blocks, b)
    ensures FreeAreData(geo, blocks') == FreeAreData(geo, blocks)
  {
    hide Laid, SameMeta, BitmapBlock, BitIn, InTable;
    LaidShape(geo, blocks);
    SameBits(geo, blocks, blocks');
    SameBitmaps(geo, blocks, blocks');
    forall b: nat
      ensures DataBlock(geo, blocks', b) == DataBlock(geo, blocks, b)
    {
    }
  }

  lemma {:induction false} SameBitmap(geo: Geometry, blocks: Blocks, blocks': Blocks, kind: Kind, g: nat)
    requires Laid(geo, blocks) && SameMeta(geo, blocks, blocks') && g < geo.groups
    ensures BitmapBlock(geo, blocks, kind, g) < |blocks| == |blocks'|
    ensures blocks'[BitmapBlock(geo, blocks, kind, g)] == blocks[BitmapBlock(geo, blocks, kind, g)]
  {
    hide Meta;
    DescIsMeta(geo, blocks, g);
    BitmapWhole(geo, blocks, kind, g);
  }

  lemma {:induction false} SameCounted(geo: Geometry, blocks: Blocks, blocks': Blocks, kind: Kind, count: nat)
    requires SameMetaLaid(geo, blocks, blocks') && Counted(geo, blocks, kind, count)
    ensures Counted(geo, blocks', kind, count)
  {
    hide Laid, SameMeta, Desc16, SuperCount, ZerosIn;
    SameDescs(geo, blocks, blocks');
    SameBits(geo, blocks, blocks');
    SameZerosBelow(geo, blocks, blocks', kind, geo.groups);
  }

  ghost predicate SameMetaLaid(geo: Geometry, blocks: Blocks, blocks': Blocks) {
    Laid(geo, blocks) && SameMeta(geo, blocks, blocks')
  }

  lemma {:induction false} SameZerosBelow(geo: Geometry, blocks: Blocks, blocks': Blocks, kind: Kind, n: nat)
    requires Laid(geo, blocks) && SameMeta(geo, blocks, blocks') && n <= geo.groups
    ensures Laid(geo, blocks') && ZerosBelow(geo, blocks', kind, n) == ZerosBelow(geo, blocks, kind, n)
  {
    hide Laid, SameMeta, ZerosIn;
    SameBits(geo, blocks, blocks');
    if n > 0 {
      SameZerosBelow(geo, blocks, blocks', kind, n - 1);
    }
  }

  /** Writing one data block. */
  lemma {:induction false} DataWrite(geo: Geometry, blocks: Blocks, b: nat, data: Block)
    requires Laid(geo, blocks) && DataBlock(geo, blocks, b) && |data| == geo.bs
    ensures SameMeta(geo, blocks, blocks[b := data])
  {
  }

  // ---------- allocating a data block ----------

  /** A freshly taken block is a data block, was free, and no other data block changed. */
  lemma {:induction false} TakenBlock(geo: Geometry, blocks: Blocks, g: nat, i: nat, count: nat)
    requires Laid(geo, blocks) && FreeAreData(geo, blocks) && g < geo.groups && i < geo.blocksPerGroup
    requires !BitIn(geo, blocks, BlockKind, g, i)
    ensures var (blocks', num) := (Taken(geo, blocks, BlockKind, g, i, count), BlockNumber(geo, g, i));
            && Laid(geo, blocks') && FreeAreData(geo, blocks') && |blocks'| == |blocks|
            && DataBlock(geo, blocks, num) && !NotFree(geo, blocks, num) && NotFree(geo, blocks', num)
            && (forall b: nat :: DataBlock(geo, blocks', b) == DataBlock(geo, blocks, b))
            && (forall b: nat :: DataBlock(geo, blocks, b) ==> blocks'[b] == blocks[b])
            && (forall b: nat :: NotFree(geo, blocks, b) ==> NotFree(geo, blocks', b))
  {
    hide BitIn, Taken, BitmapBlock, Laid, InTable;
    var blocks' := Taken(geo, blocks, BlockKind, g, i, count);
    TakenLaid(geo, blocks, BlockKind, g, i, count);
    TakenBlocks(geo, blocks, BlockKind, g, i, count);
    TakenTables(geo, blocks, g, i, count);
    DescInBlock(geo, g);
    forall h: nat, j: nat | h < geo.groups && j < geo.blocksPerGroup
      ensures BitIn(geo, blocks', BlockKind, h, j) == ((h == g && j == i) || BitIn(geo, blocks, BlockKind, h, j))
    {
      TakenBits(geo, blocks, BlockKind, g, i, count, BlockKind, h, j);
    }
    SameNumber(geo, g, i);
  }

  lemma {:induction false} TakenTables(geo: Geometry, blocks: Blocks, g: nat, i: nat, count: nat)
    requires Laid(geo, blocks) && g < geo.groups && i < geo.blocksPerGroup && !BitIn(geo, blocks, BlockKind, g, i)
    ensures Shape(geo, blocks) && Shape(geo, Taken(geo, blocks, BlockKind, g, i, count))
    ensures forall h: nat, b: nat :: h < geo.groups ==>
                InTable(geo, Taken(geo, blocks, BlockKind, g, i, count), h, b) == InTable(geo, blocks, h, b)
  {
    hide Taken, BitIn, Laid, Desc32;
    LaidShape(geo, blocks);
    TakenBlocks(geo, blocks, BlockKind, g, i, count);
    forall h: nat | h < geo.groups
      ensures Table(geo, Taken(geo, blocks, BlockKind, g, i, count), h) == Table(geo, blocks, h)
    {
      TakenDesc32(geo, blocks, BlockKind, g, i, count, h, TABLE_FIELD);
    }
  }

  /** A block has one bit. */
  lemma {:induction false} SameNumber(geo: Geometry, g: nat, i: nat)
    requires i < geo.blocksPerGroup
    ensures forall h: nat, j: nat :: j < geo.blocksPerGroup && BlockNumber(geo, h, j) == BlockNumber(geo, g, i) ==>
                h == g && j == i
  {
    forall h: nat, j: nat | j < geo.blocksPerGroup && BlockNumber(geo, h, j) == BlockNumber(geo, g, i)
      ensures h == g && j == i
    {
      var n := g * geo.blocksPerGroup + i;
      DivUnique(n, geo.blocksPerGroup, g, i);
      DivUnique(n, geo.blocksPerGroup, h, j);
    }
  }

  /** An inode whose missing block is filled with the new one owns its blocks. */
  lemma {:induction false} OwnsMore(geo: Geometry, blocks: Blocks, ptrs: seq<nat>, k: nat, g: nat, i: nat, count: nat)
    requires Laid(geo, blocks) && FreeAreData(geo, blocks) && g < geo.groups && i < geo.blocksPerGroup
    requires !BitIn(geo, blocks, BlockKind, g, i)
    requires |ptrs| == POINTERS && Owns(geo, blocks, ptrs) && k < DIRECT && ptrs[k] == 0
    ensures Laid(geo, Taken(geo, blocks, BlockKind, g, i, count))
    ensures Owns(geo, Taken(geo, blocks, BlockKind, g, i, count), ptrs[k := BlockNumber(geo, g, i)])
  {
    hide BitIn, Taken, Laid, NotFree, DataBlock, FreeAreData;
    TakenBlock(geo, blocks, g, i, count);
  }

  // ---------- bytes of a file ----------

  /** The file block of a position, and the place in it. */
  function Index(pos: nat, bs: nat): nat
    requires bs > 0
  {
    pos / bs
  }

  function At(pos: nat, bs: nat): nat
    requires bs > 0
  {
    pos % bs
  }

  /** The byte at a position of the file, if its block can be found. */
  function ByteAt(blocks: Blocks, bs: nat, ptrs: seq<nat>, pos: nat): Option<Byte>
    requires bs > 0 && (forall b :: 0 <= b < |blocks| ==> |blocks[b]| == bs) && |ptrs| == POINTERS
  {
    var (r, num) := Lookup(blocks, bs, ptrs, Index(pos, bs));
    DivMod(pos, bs);
    if r == 0 && 0 < num < |blocks| then Some(blocks[num][At(pos, bs)]) else None
  }

  /** Positions within one block. */
  lemma {:induction false} SameBlock(pos: nat, i: nat, bs: nat)
    requires bs > 0 && At(pos, bs) + i < bs
    ensures Index(pos + i, bs) == Index(pos, bs) && At(pos + i, bs) == At(pos, bs) + i
  {
    DivMod(pos, bs);
    DivUnique(pos + i, bs, Index(pos, bs), At(pos, bs) + i);
  }

  /** In the first twelve blocks the pointer is in the inode. */
  lemma {:induction false} DirectByte(blocks: Blocks, bs: nat, ptrs: seq<nat>, pos: nat)
    requires bs > 0 && WholeBlocks(blocks, bs) && |ptrs| == POINTERS && Index(pos, bs) < DIRECT
    ensures At(pos, bs) < bs
    ensures ByteAt(blocks, bs, ptrs, pos)
            == if 0 < ptrs[Index(pos, bs)] < |blocks| then Some(blocks[ptrs[Index(pos, bs)]][At(pos, bs)]) else None
  {
    DivMod(pos, bs);
  }

  // ---------- one step of a write ----------

  /** Patching part of a file block changes exactly those bytes of the file. */
  lemma {:induction false} PatchBytes(geo: Geometry, blocks: Blocks, ptrs: seq<nat>, pos: nat, piece: seq<Byte>, q: nat)
    requires Laid(geo, blocks) && |ptrs| == POINTERS && Owns(geo, blocks, ptrs) && Index(pos, geo.bs) < DIRECT
    requires ptrs[Index(pos, geo.bs)] != 0
    requires At(pos, geo.bs) + |piece| <= geo.bs && Index(q, geo.bs) < DIRECT
    ensures ptrs[Index(pos, geo.bs)] < |blocks| && |blocks[ptrs[Index(pos, geo.bs)]]| == geo.bs
    ensures var blocks' := blocks[ptrs[Index(pos, geo.bs)] := Put(blocks[ptrs[Index(pos, geo.bs)]], At(pos, geo.bs), piece)];
            WholeBlocks(blocks', geo.bs)
            && ByteAt(blocks', geo.bs, ptrs, q) == if pos <= q < pos + |piece| then Some(piece[q - pos])
                                                   else ByteAt(blocks, geo.bs, ptrs, q)
  {
    hide DataBlock, NotFree, Lookup, Put, ByteAt;
    OwnedInRange(geo, blocks, ptrs, Index(pos, geo.bs));
    var b := ptrs[Index(pos, geo.bs)];
    var blocks' := blocks[b := Put(blocks[b], At(pos, geo.bs), piece)];
    DirectByte(blocks, geo.bs, ptrs, q);
    DirectByte(blocks', geo.bs, ptrs, q);
    DivMod(pos, geo.bs);
    DivMod(q, geo.bs);
    if Index(q, geo.bs) == Index(pos, geo.bs) {
      PutByte(blocks[b], At(pos, geo.bs), piece, At(q, geo.bs));
    } else {
      OtherBlock(pos, |piece|, q, geo.bs);
    }
  }

  /** What a write does when the device fails to read the old contents of the block but then takes the new ones:
      the rest of the block becomes zero, so the file keeps its other bytes exactly where they were zero. */
  lemma {:induction false} FailedReadErases(geo: Geometry, blocks: Blocks, ptrs: seq<nat>, pos: nat, piece: seq<Byte>,
                                            q: nat)
    requires Laid(geo, blocks) && |ptrs| == POINTERS && Owns(geo, blocks, ptrs) && Index(pos, geo.bs) < DIRECT
    requires ptrs[Index(pos, geo.bs)] != 0
    requires At(pos, geo.bs) + |piece| <= geo.bs && Index(q, geo.bs) < DIRECT
    ensures ptrs[Index(pos, geo.bs)] < |blocks| && WholeBlocks(blocks, geo.bs)
    ensures var blocks' := blocks[ptrs[Index(pos, geo.bs)] := Put(Zeros(geo.bs), At(pos, geo.bs), piece)];
            WholeBlocks(blocks', geo.bs)
            && ByteAt(blocks', geo.bs, ptrs, q) == if pos <= q < pos + |piece| then Some(piece[q - pos])
                                                   else if Index(q, geo.bs) == Index(pos, geo.bs) then Some(0)
                                                        else ByteAt(blocks, geo.bs, ptrs, q)
  {
    hide DataBlock, NotFree, Lookup, Put, ByteAt;
    OwnedInRange(geo, blocks, ptrs, Index(pos, geo.bs));
    var blocks' := blocks[ptrs[Index(pos, geo.bs)] := Put(Zeros(geo.bs), At(pos, geo.bs), piece)];
    DirectByte(blocks, geo.bs, ptrs, q);
    DirectByte(blocks', geo.bs, ptrs, q);
    DivMod(pos, geo.bs);
    DivMod(q, geo.bs);
    if Index(q, geo.bs) == Index(pos, geo.bs) {
      PutByte(Zeros(geo.bs), At(pos, geo.bs), piece, At(q, geo.bs));
    } else {
      OtherBlock(pos, |piece|, q, geo.bs);
    }
  }

  lemma {:induction false} OwnedInRange(geo: Geometry, blocks: Blocks, ptrs: seq<nat>, k: nat)
    requires Laid(geo, blocks) && |ptrs| == POINTERS && Owns(geo, blocks, ptrs) && k < DIRECT && ptrs[k] != 0
    ensures ptrs[k] < |blocks| && |blocks[ptrs[k]]| == geo.bs && geo.bs > 0 && DataBlock(geo, blocks, ptrs[k])
  {
  }

  lemma {:induction false} OtherBlock(pos: nat, n: nat, q: nat, bs: nat)
    requires bs > 0 && At(pos, bs) + n <= bs && Index(q, bs) != Index(pos, bs)
    ensures !(pos <= q < pos + n)
  {
    if pos <= q < pos + n {
      SameBlock(pos, q - pos, bs);
    }
  }

  /** Filling a missing block keeps every byte that could be read. */
  lemma {:induction false} AllocBytes(geo: Geometry, blocks: Blocks, blocks': Blocks, ptrs: seq<nat>, k: nat, num: nat,
                                      q: nat)
    requires Laid(geo, blocks) && Laid(geo, blocks') && |ptrs| == POINTERS && Owns(geo, blocks, ptrs) && k < DIRECT
    requires ptrs[k] == 0
    requires |blocks'| == |blocks| && forall b: nat :: DataBlock(geo, blocks, b) ==> blocks'[b] == blocks[b]
    requires Index(q, geo.bs) < DIRECT && ByteAt(blocks, geo.bs, ptrs, q).Some?
    ensures ByteAt(blocks', geo.bs, ptrs[k := num], q) == ByteAt(blocks, geo.bs, ptrs, q)
  {
    hide DataBlock, NotFree, Lookup, ByteAt;
    DirectByte(blocks, geo.bs, ptrs, q);
    DirectByte(blocks', geo.bs, ptrs[k := num], q);
  }

  // ---------- what a whole write keeps ----------

  /** Everything that writing a file's data keeps, from the state before to a state on the way. */
  ghost predicate DataKept(geo: Geometry, blocks: Blocks, blocks': Blocks, ptrs: seq<nat>, ptrs': seq<nat>)
    requires Laid(geo, blocks) && Laid(geo, blocks') && |ptrs| == |ptrs'| == POINTERS
  {
    && |blocks'| == |blocks|
    && (forall b: nat :: DataBlock(geo, blocks', b) == DataBlock(geo, blocks, b))
    && (forall b: nat :: NotFree(geo, blocks, b) ==> NotFree(geo, blocks', b))
    && (forall b: nat :: DataBlock(geo, blocks, b) && NotFree(geo, blocks, b) && b !in ptrs[..DIRECT] ==>
           blocks'[b] == blocks[b])
    && (forall k :: 0 <= k < POINTERS && (ptrs[k] != 0 || k >= DIRECT) ==> ptrs'[k] == ptrs[k])
    && (forall k :: 0 <= k < DIRECT && ptrs[k] == 0 && ptrs'[k] != 0 ==>
           DataBlock(geo, blocks, ptrs'[k]) && !NotFree(geo, blocks, ptrs'[k]))
  }

  /** The pointers of the descriptors, and the blocks that are neither data nor descriptors nor bitmaps. */
  ghost predicate MetaKept(geo: Geometry, blocks: Blocks, blocks': Blocks)
    requires Laid(geo, blocks) && Laid(geo, blocks')
  {
    && |blocks'| == |blocks|
    && (forall kind, g: nat :: g < geo.groups ==>
           BitmapBlock(geo, blocks', kind, g) == BitmapBlock(geo, blocks, kind, g))
    && (forall g: nat :: g < geo.groups ==> Table(geo, blocks', g) == Table(geo, blocks, g))
    && (forall b: nat :: b < |blocks| && IsTableOnly(geo, blocks, b) && !DataBlock(geo, blocks, b) ==>
           blocks'[b] == blocks[b])
  }

  /** A table block that is no descriptor, bitmap or superblock. */
  ghost predicate IsTableOnly(geo: Geometry, blocks: Blocks, b: nat)
    requires Laid(geo, blocks)
  {
    geo.DescBlock(geo.groups - 1) < b && forall kind, g: nat :: g < geo.groups ==>
        BitmapBlock(geo, blocks, kind, g) != b
  }

  lemma {:induction false} KeptStart(geo: Geometry, blocks: Blocks, ptrs: seq<nat>)
    requires Laid(geo, blocks) && |ptrs| == POINTERS
    ensures DataKept(geo, blocks, blocks, ptrs, ptrs) && MetaKept(geo, blocks, blocks)
  {
  }

  /** Taking a block for a missing pointer. */
  lemma {:induction false} KeptAlloc(geo: Geometry, b0: Blocks, b1: Blocks, p0: seq<nat>, p1: seq<nat>, k: nat, g: nat,
                                     i: nat, count: nat)
    requires Laid(geo, b0) && Laid(geo, b1) && |p0| == |p1| == POINTERS && DataKept(geo, b0, b1, p0, p1)
    requires FreeAreData(geo, b1)
    requires g < geo.groups && i < geo.blocksPerGroup && !BitIn(geo, b1, BlockKind, g, i) && k < DIRECT && p1[k] == 0
    ensures Laid(geo, Taken(geo, b1, BlockKind, g, i, count))
    ensures DataKept(geo, b0, Taken(geo, b1, BlockKind, g, i, count), p0, p1[k := BlockNumber(geo, g, i)])
  {
    hide BitIn, Taken, Laid, NotFree, DataBlock, FreeAreData, InTable;
    TakenBlock(geo, b1, g, i, count);
  }

  lemma {:induction false} MetaAlloc(geo: Geometry, b0: Blocks, b1: Blocks, g: nat, i: nat, count: nat)
    requires Laid(geo, b0) && Laid(geo, b1) && MetaKept(geo, b0, b1)
    requires forall b: nat :: DataBlock(geo, b1, b) == DataBlock(geo, b0, b)
    requires g < geo.groups && i < geo.blocksPerGroup && !BitIn(geo, b1, BlockKind, g, i)
    ensures Laid(geo, Taken(geo, b1, BlockKind, g, i, count))
    ensures MetaKept(geo, b0, Taken(geo, b1, BlockKind, g, i, count))
  {
    hide BitIn, Taken, Laid, DataBlock, Desc32;
    LaidShape(geo, b1);
    TakenLaid(geo, b1, BlockKind, g, i, count);
    LaidShape(geo, Taken(geo, b1, BlockKind, g, i, count));
    TakenTableBlocks(geo, b1, g, i, count);
    forall h: nat | h < geo.groups
      ensures Table(geo, Taken(geo, b1, BlockKind, g, i, count), h) == Table(geo, b1, h)
    {
      TakenDesc32(geo, b1, BlockKind, g, i, count, h, TABLE_FIELD);
    }
  }

  lemma {:induction false} TakenTableBlocks(geo: Geometry, b1: Blocks, g: nat, i: nat, count: nat)
    requires Laid(geo, b1) && g < geo.groups && i < geo.blocksPerGroup && !BitIn(geo, b1, BlockKind, g, i)
    ensures |Taken(geo, b1, BlockKind, g, i, count)| == |b1|
    ensures forall b: nat :: b < |b1| && IsTableOnly(geo, b1, b) ==> Taken(geo, b1, BlockKind, g, i, count)[b] == b1[b]
  {
    hide BitIn, Taken, BitmapBlock;
    TakenBlocks(geo, b1, BlockKind, g, i, count);
    DescInBlock(geo, g);
  }

  /** Writing a block that the file owns. */
  lemma {:induction false} KeptWrite(geo: Geometry, b0: Blocks, b1: Blocks, p0: seq<nat>, p1: seq<nat>, k: nat,
                                     data: Block)
    requires Laid(geo, b0) && Laid(geo, b1) && |p0| == |p1| == POINTERS && DataKept(geo, b0, b1, p0, p1)
    requires MetaKept(geo, b0, b1)
    requires Owns(geo, b1, p1) && k < DIRECT && p1[k] != 0 && |data| == geo.bs
    ensures p1[k] < |b1| && Laid(geo, b1[p1[k] := data])
    ensures DataKept(geo, b0, b1[p1[k] := data], p0, p1) && MetaKept(geo, b0, b1[p1[k] := data])
    ensures Owns(geo, b1[p1[k] := data], p1) && (FreeAreData(geo, b1) ==> FreeAreData(geo, b1[p1[k] := data]))
  {
    hide BitIn, Laid, NotFree, DataBlock, FreeAreData, SameMeta, BitmapBlock, Table;
    OwnedInRange(geo, b1, p1, k);
    DataInRange(geo, b0);
    LaidShape(geo, b1);
    DataWrite(geo, b1, p1[k], data);
    SameData(geo, b1, b1[p1[k] := data]);
    SameBitmaps(geo, b1, b1[p1[k] := data]);
    SameTable(geo, b1, b1[p1[k] := data]);
    if p0[k] != 0 {
      WasOwned(p0, p1, k);
    }
  }

  lemma {:induction false} DataInRange(geo: Geometry, blocks: Blocks)
    requires Laid(geo, blocks)
    ensures forall b: nat :: DataBlock(geo, blocks, b) ==> 0 < b < |blocks|
  {
  }

  lemma {:induction false} SameTable(geo: Geometry, blocks: Blocks, blocks': Blocks)
    requires Laid(geo, blocks) && SameMeta(geo, blocks, blocks')
    ensures Laid(geo, blocks')
    ensures forall g: nat :: g < geo.groups ==> Table(geo, blocks', g) == Table(geo, blocks, g)
  {
    hide SameMeta, Desc32;
    SameDescs(geo, blocks, blocks');
  }

  lemma {:induction false} WasOwned(p0: seq<nat>, p1: seq<nat>, k: nat)
    requires |p0| == |p1| == POINTERS && k < DIRECT && p0[k] != 0 && p1[k] == p0[k]
    ensures p1[k] in p0[..DIRECT]
  {
    assert p0[..DIRECT][k] == p0[k];
  }

  // ---------- the bytes of a whole write ----------

  /** buf is in the file from offset on, as far as done, and the other bytes of the first twelve blocks are as before. */
  ghost predicate Stored(bs: nat, b0: Blocks, p0: seq<nat>, blocks: Blocks, ptrs: seq<nat>, buf: seq<Byte>,
                         offset: nat, done: nat) {
    && bs > 0 && WholeBlocks(b0, bs) && WholeBlocks(blocks, bs) && |p0| == |ptrs| == POINTERS && done <= |buf|
    && (done > 0 ==> Index(offset + done - 1, bs) < DIRECT)
    && (forall q: nat :: offset <= q < offset + done ==> ByteAt(blocks, bs, ptrs, q) == Some(buf[q - offset]))
    && (forall q: nat :: Index(q, bs) < DIRECT && !(offset <= q < offset + done) && ByteAt(b0, bs, p0, q).Some? ==>
          ByteAt(blocks, bs, ptrs, q) == ByteAt(b0, bs, p0, q))
  }

  /** Nothing is written from the thirteenth block on. */
  lemma {:induction false} NothingPastDirect(bs: nat, b0: Blocks, p0: seq<nat>, blocks: Blocks, ptrs: seq<nat>,
                                             buf: seq<Byte>, offset: nat, done: nat)
    requires Stored(bs, b0, p0, blocks, ptrs, buf, offset, done)
    ensures done > 0 ==> offset + done <= DIRECT * bs
    ensures Index(offset, bs) >= DIRECT ==> done == 0
  {
    hide ByteAt;
    if done > 0 {
      var last := offset + done - 1;
      DivMod(last, bs);
      DivOrder(offset, last, bs);
      Product(Index(last, bs), DIRECT - 1, bs, bs);
    }
  }

  // ---------- room for a write ----------

  /** How many of the pointers lo..hi are missing. */
  function Missing(ptrs: seq<nat>, lo: nat, hi: nat): nat
    decreases hi
  {
    if hi <= lo then 0 else Missing(ptrs, lo, hi - 1) + if hi - 1 < |ptrs| && ptrs[hi - 1] == 0 then 1 else 0
  }

  /** The write ends within the first twelve blocks, and there are free blocks for those that the file lacks. */
  predicate HasSpace(bs: nat, ptrs: seq<nat>, offset: nat, len: nat, free: nat)
    requires bs > 0
  {
    len == 0 || (offset + len <= DIRECT * bs && Lacking(bs, ptrs, offset, len) <= free)
  }

  /** The pointers lo..next were filled in, each with a free block, and the later ones are as they were. */
  ghost predicate Took(p0: seq<nat>, c0: map<Kind, nat>, ptrs: seq<nat>, counts: map<Kind, nat>, lo: nat, next: nat)
    requires BlockKind in c0
  {
    && |p0| == |ptrs| == POINTERS && BlockKind in counts && lo <= next
    && counts[BlockKind] + Missing(p0, lo, next) == c0[BlockKind]
    && forall k :: next <= k < DIRECT ==> ptrs[k] == p0[k]
  }

  /** One pointer was filled in if it was missing. */
  ghost predicate OneTaken(ptrs: seq<nat>, counts: map<Kind, nat>, ptrs': seq<nat>, counts': map<Kind, nat>, k: nat) {
    && k < |ptrs| == |ptrs'| && BlockKind in counts && BlockKind in counts'
    && counts[BlockKind] == counts'[BlockKind] + (if ptrs[k] == 0 then 1 else 0)
    && forall j :: 0 <= j < |ptrs| && j != k ==> ptrs'[j] == ptrs[j]
  }

  /** Blocks up to next have their part of the bytes written, and the next byte goes to block next. */
  ghost predicate Filled(bs: nat, offset: nat, done: nat, len: nat, next: nat)
    requires bs > 0
  {
    && Index(offset, bs) <= next && (done < len ==> next == Index(offset + done, bs))
    && next == if done == 0 then Index(offset, bs) else Index(offset + done - 1, bs) + 1
  }

  /** The blocks that writing the first done bytes fills in. */
  function Lacking(bs: nat, ptrs: seq<nat>, offset: nat, done: nat): nat
    requires bs > 0
  {
    if done == 0 then 0 else Missing(ptrs, Index(offset, bs), Index(offset + done - 1, bs) + 1)
  }

  lemma {:induction false} TookLacking(bs: nat, p0: seq<nat>, c0: map<Kind, nat>, ptrs: seq<nat>, counts: map<Kind, nat>,
                                       offset: nat, done: nat, len: nat, next: nat)
    requires bs > 0 && BlockKind in c0 && Took(p0, c0, ptrs, counts, Index(offset, bs), next)
    requires Filled(bs, offset, done, len, next)
    ensures BlockKind in counts && counts[BlockKind] + Lacking(bs, p0, offset, done) == c0[BlockKind]
  {
  }

  /** The inode counts the 512-byte sectors of the blocks taken, in 32 bits. */
  ghost predicate SectorsCounted(bs: nat, before: nat, c0: map<Kind, nat>, after: nat, counts: map<Kind, nat>) {
    && BlockKind in c0 && BlockKind in counts && counts[BlockKind] <= c0[BlockKind]
    && after == (before + (c0[BlockKind] - counts[BlockKind]) * (bs / 512)) % 0x1_0000_0000
  }

  lemma {:induction false} SectorsStep(bs: nat, before: nat, c0: map<Kind, nat>, now: nat, counts: map<Kind, nat>,
                                       after: nat, counts': map<Kind, nat>)
    requires SectorsCounted(bs, before, c0, now, counts) && SectorsCounted(bs, now, counts, after, counts')
    ensures SectorsCounted(bs, before, c0, after, counts')
  {
    var (a, b, q) := (c0[BlockKind] - counts[BlockKind], counts[BlockKind] - counts'[BlockKind], bs / 512);
    assert a * q + b * q == (a + b) * q;
    DivMod(before + a * q, 0x1_0000_0000);
    DivMod(now + b * q, 0x1_0000_0000);
    DivUnique(before + a * q + b * q, 0x1_0000_0000,
              (before + a * q) / 0x1_0000_0000 + (now + b * q) / 0x1_0000_0000, after);
  }

  lemma {:induction false} NoSectors(bs: nat, n: Inode, counts: map<Kind, nat>)
    requires Fits(n) && BlockKind in counts
    ensures SectorsCounted(bs, n.blocks, counts, n.blocks, counts)
  {
  }

  lemma {:induction false} TookNone(p0: seq<nat>, c0: map<Kind, nat>, lo: nat)
    requires |p0| == POINTERS && BlockKind in c0
    ensures Took(p0, c0, p0, c0, lo, lo)
  {
  }

  lemma {:induction false} TookNext(p0: seq<nat>, c0: map<Kind, nat>, ptrs: seq<nat>, counts: map<Kind, nat>,
                                    ptrs': seq<nat>, counts': map<Kind, nat>, lo: nat, k: nat)
    requires BlockKind in c0 && Took(p0, c0, ptrs, counts, lo, k) && OneTaken(ptrs, counts, ptrs', counts', k)
    requires k < DIRECT
    ensures Took(p0, c0, ptrs', counts', lo, k + 1)
  {
  }

  lemma {:induction false} FilledNone(bs: nat, offset: nat, len: nat)
    requires bs > 0
    ensures Filled(bs, offset, 0, len, Index(offset, bs))
  {
  }

  lemma {:induction false} FilledNext(bs: nat, offset: nat, done: nat, len: nat, next: nat)
    requires bs > 0 && Filled(bs, offset, done, len, next) && done < len
    ensures next == Index(offset + done, bs)
  {
  }

  /** A round goes to the end of its block or of the bytes. */
  lemma {:induction false} FilledStep(bs: nat, offset: nat, done: nat, take: nat, len: nat, k: nat)
    requires bs > 0 && Filled(bs, offset, done, len, k) && done < len
    requires take == Least(bs - At(offset + done, bs), len - done) && 0 < take
    ensures Filled(bs, offset, done + take, len, k + 1)
  {
    var pos := offset + done;
    DivMod(pos, bs);
    DivUnique(pos + take - 1, bs, k, At(pos, bs) + take - 1);
    if done + take < len {
      assert k * bs + bs == (k + 1) * bs;
      DivUnique(pos + take, bs, k + 1, 0);
    }
  }

  /** At the thirteenth block there is no room for the rest. */
  lemma {:induction false} PastDirect(bs: nat, p0: seq<nat>, offset: nat, done: nat, len: nat, free: nat)
    requires bs > 0 && done < len && Index(offset + done, bs) >= DIRECT
    ensures !HasSpace(bs, p0, offset, len, free)
  {
    DivMod(offset + done, bs);
    Product(DIRECT, Index(offset + done, bs), bs, bs);
  }

  /** For example with blocks of 1024 bytes one byte at position 12287 needs one free block at most, and one at
      12288 has no room however many blocks are free. */
  lemma {:induction false} ThirteenthBlock(ptrs: seq<nat>, free: nat)
    ensures HasSpace(1024, ptrs, 12287, 1, free + 1) && !HasSpace(1024, ptrs, 12288, 1, free)
  {
    assert Index(12287, 1024) == 11;
    assert Missing(ptrs, 11, 11) == 0 && Missing(ptrs, 11, 12) <= 1;
  }

  lemma {:induction false} MissingOrder(ptrs: seq<nat>, lo: nat, mid: nat, hi: nat)
    requires mid <= hi
    ensures Missing(ptrs, lo, mid) <= Missing(ptrs, lo, hi)
  {
    if mid < hi {
      MissingOrder(ptrs, lo, mid, hi - 1);
    }
  }

  /** Without a free block for the next pointer there are too few for all. */
  lemma {:induction false} NoBlockLeft(bs: nat, p0: seq<nat>, ptrs: seq<nat>, offset: nat, done: nat, len: nat,
                                       c0: map<Kind, nat>, counts: map<Kind, nat>, k: nat)
    requires bs > 0 && BlockKind in c0 && Took(p0, c0, ptrs, counts, Index(offset, bs), k)
    requires k == Index(offset + done, bs) < DIRECT
    requires ptrs[k] == 0 && counts[BlockKind] == 0 && done < len
    ensures !HasSpace(bs, p0, offset, len, c0[BlockKind])
  {
    hide Index;
    DivOrder(offset + done, offset + len - 1, bs);
    assert k <= Index(offset + len - 1, bs) by {
      IndexIsQuotient(offset + done, bs);
      IndexIsQuotient(offset + len - 1, bs);
    }
    assert Missing(p0, Index(offset, bs), k + 1) == c0[BlockKind] + 1;
    MissingOrder(p0, Index(offset, bs), k + 1, Index(offset + len - 1, bs) + 1);
  }

  lemma {:induction false} IndexIsQuotient(pos: nat, bs: nat)
    requires bs > 0
    ensures Index(pos, bs) == pos / bs
  {
  }

  /** After the last byte there was room. */
  lemma {:induction false} AllWritten(bs: nat, b0: Blocks, p0: seq<nat>, blocks: Blocks, ptrs: seq<nat>,
                                      buf: seq<Byte>, offset: nat, c0: map<Kind, nat>,
                                      counts: map<Kind, nat>, next: nat)
    requires Stored(bs, b0, p0, blocks, ptrs, buf, offset, |buf|) && BlockKind in c0
    requires Took(p0, c0, ptrs, counts, Index(offset, bs), next) && Filled(bs, offset, |buf|, |buf|, next)
    ensures HasSpace(bs, p0, offset, |buf|, c0[BlockKind])
  {
    hide ByteAt, Index;
    NothingPastDirect(bs, b0, p0, blocks, ptrs, buf, offset, |buf|);
  }

  lemma {:induction false} WritingCounted(geo: Geometry, blocks: Blocks, counts: map<Kind, nat>, n: Inode, b0: Blocks,
                                          p0: seq<nat>)
    requires Writing(geo, blocks, counts, n, b0, p0)
    ensures BlockKind in counts && Counted(geo, blocks, BlockKind, counts[BlockKind])
  {
  }

  /** A state in which a present block was filled in, and then one of its pieces written. */
  lemma {:induction false} StoredStep(bs: nat, b0: Blocks, p0: seq<nat>, b1: Blocks, p1: seq<nat>, b2: Blocks,
                                      b3: Blocks, p2: seq<nat>,
                                      buf: seq<Byte>, offset: nat, done: nat, take: nat)
    requires Stored(bs, b0, p0, b1, p1, buf, offset, done) && done + take <= |buf| && 0 < take
    requires WholeBlocks(b2, bs) && WholeBlocks(b3, bs) && |p2| == POINTERS
    requires Index(offset + done, bs) < DIRECT && At(offset + done, bs) + take <= bs
    requires forall q: nat :: Index(q, bs) < DIRECT && ByteAt(b1, bs, p1, q).Some? ==>
                 ByteAt(b2, bs, p2, q) == ByteAt(b1, bs, p1, q)
    requires forall q: nat :: Index(q, bs) < DIRECT ==>
               ByteAt(b3, bs, p2, q)
               == if offset + done <= q < offset + done + take then Some(buf[done..done + take][q - (offset + done)])
                                         else ByteAt(b2, bs, p2, q)
    ensures Stored(bs, b0, p0, b3, p2, buf, offset, done + take)
  {
    hide ByteAt;
    var (pos, end) := (offset + done, offset + done + take);
    forall q: nat | offset <= q < end
      ensures Index(q, bs) < DIRECT && ByteAt(b3, bs, p2, q) == Some(buf[q - offset])
    {
      if q < pos {
        DivOrder(q, pos - 1, bs);
      } else {
        SameBlock(pos, q - pos, bs);
      }
    }
    SameBlock(pos, take - 1, bs);
  }

  // ---------- the state during a write ----------

  /** Free bits stand for data blocks, and the counters are right. */
  ghost predicate Consistent(geo: Geometry, blocks: Blocks, counts: map<Kind, nat>) {
    && Laid(geo, blocks) && BlockKind in counts && InodeKind in counts
    && |blocks| <= 0x1_0000_0000 && FreeAreData(geo, blocks)
    && Counted(geo, blocks, BlockKind, counts[BlockKind]) && Counted(geo, blocks, InodeKind, counts[InodeKind])
  }

  /** The file owns its blocks, and the rest of the volume is as at b0, when its pointers were p0. */
  ghost predicate Writing(geo: Geometry, blocks: Blocks, counts: map<Kind, nat>, n: Inode, b0: Blocks, p0: seq<nat>) {
    && Consistent(geo, blocks, counts) && Fits(n) && Owns(geo, blocks, n.block)
    && Laid(geo, b0) && |p0| == POINTERS && DataKept(geo, b0, blocks, p0, n.block) && MetaKept(geo, b0, blocks)
  }

  lemma {:induction false} WritingShape(geo: Geometry, blocks: Blocks, counts: map<Kind, nat>, n: Inode, b0: Blocks,
                                        p0: seq<nat>)
    requires Writing(geo, blocks, counts, n, b0, p0)
    ensures geo.Sane() && geo.bs > 0 && WholeBlocks(blocks, geo.bs) && Laid(geo, blocks) && WholeBlocks(b0, geo.bs)
    ensures Fits(n) && |n.block| == |p0| == POINTERS && Owns(geo, blocks, n.block) && Consistent(geo, blocks, counts)
  {
  }

  /** After the write of one of its blocks, the file's state is as a write needs it. */
  lemma {:induction false} StillWriting(geo: Geometry, blocks: Blocks, counts: map<Kind, nat>, n: Inode, b0: Blocks,
                                        p0: seq<nat>, k: nat, data: Block)
    requires Writing(geo, blocks, counts, n, b0, p0) && k < DIRECT && |n.block| == POINTERS && n.block[k] != 0
    requires |data| == geo.bs
    ensures n.block[k] < |blocks| && Writing(geo, blocks[n.block[k] := data], counts, n, b0, p0)
  {
    hide BitIn, Laid, DataBlock, NotFree, Owns, FreeAreData, Counted, DataKept, MetaKept, SameMeta;
    OwnedInRange(geo, blocks, n.block, k);
    KeptWrite(geo, b0, blocks, p0, n.block, k, data);
    DataWrite(geo, blocks, n.block[k], data);
    SameCounted(geo, blocks, blocks[n.block[k] := data], BlockKind, counts[BlockKind]);
    SameCounted(geo, blocks, blocks[n.block[k] := data], InodeKind, counts[InodeKind]);
  }

  /** Taking a block for a missing pointer keeps it so too. */
  lemma {:induction false} AllocWriting(geo: Geometry, blocks: Blocks, counts: map<Kind, nat>, n: Inode, b0: Blocks,
                                        p0: seq<nat>, k: nat, g: nat, i: nat, m: nat)
    requires Writing(geo, blocks, counts, n, b0, p0) && k < DIRECT && |n.block| == POINTERS && n.block[k] == 0
    requires Full(m)
    requires Laid(geo, blocks) && g < geo.groups && i < geo.blocksPerGroup && !BitIn(geo, blocks, BlockKind, g, i)
    ensures var (blocks', num) := (Taken(geo, blocks, BlockKind, g, i, Less(counts[BlockKind])), BlockNumber(geo, g, i));
            && num != 0
            && Writing(geo, blocks', counts[BlockKind := Less(counts[BlockKind])], n.(block := n.block[k := num], blocks := m), b0, p0)
            && (forall b: nat :: DataBlock(geo, blocks, b) ==> b < |blocks'| == |blocks| && blocks'[b] == blocks[b])
  {
    hide BitIn, Taken, Laid, DataBlock, NotFree, Owns, FreeAreData, Counted, DataKept, MetaKept;
    var c := counts[BlockKind];
    TakenCounted(geo, blocks, BlockKind, g, i, c, BlockKind, 0);
    TakenCounted(geo, blocks, BlockKind, g, i, c, InodeKind, counts[InodeKind]);
    TakenBlock(geo, blocks, g, i, Less(c));
    OwnsMore(geo, blocks, n.block, k, g, i, Less(c));
    SameDataBlocks(geo, b0, blocks, p0, n.block);
    KeptAlloc(geo, b0, blocks, p0, n.block, k, g, i, Less(c));
    MetaAlloc(geo, b0, blocks, g, i, Less(c));
    DataInRange(geo, blocks);
  }

  lemma {:induction false} SameDataBlocks(geo: Geometry, b0: Blocks, b1: Blocks, p0: seq<nat>, p1: seq<nat>)
    requires Laid(geo, b0) && Laid(geo, b1) && |p0| == |p1| == POINTERS && DataKept(geo, b0, b1, p0, p1)
    ensures forall b: nat :: DataBlock(geo, b1, b) == DataBlock(geo, b0, b)
  {
  }

  lemma {:induction false} WriteBegins(geo: Geometry, blocks: Blocks, counts: map<Kind, nat>, n: Inode, buf: seq<Byte>,
                                       offset: nat)
    requires Consistent(geo, blocks, counts) && Fits(n) && Owns(geo, blocks, n.block)
    ensures Writing(geo, blocks, counts, n, blocks, n.block) && geo.bs > 0
    ensures Stored(geo.bs, blocks, n.block, blocks, n.block, buf, offset, 0)
  {
    hide DataBlock, NotFree, Owns, FreeAreData, Counted, ByteAt, DataKept, MetaKept;
    KeptStart(geo, blocks, n.block);
  }

  /** The size after the write fits 32 bits, and the rest does not depend on it. */
  lemma {:induction false} WriteEnds(geo: Geometry, blocks: Blocks, counts: map<Kind, nat>, n: Inode, buf: seq<Byte>,
                                     offset: nat, written: nat, b0: Blocks, p0: seq<nat>)
    requires Writing(geo, blocks, counts, n, b0, p0) && written <= |buf| && offset < 0x1_0000_0000
    requires Stored(geo.bs, b0, p0, blocks, n.block, buf, offset, written)
    ensures Fits(n.(size := offset + written)) && Writing(geo, blocks, counts, n.(size := offset + written), b0, p0)
  {
    hide Laid, DataBlock, NotFree, Owns, FreeAreData, Counted, ByteAt, DataKept, MetaKept;
    WritingShape(geo, blocks, counts, n, b0, p0);
    if written > 0 {
      DivMod(offset + written - 1, geo.bs);
      Product(Index(offset + written - 1, geo.bs), DIRECT, geo.bs, 4096);
    }
  }

  // ---------- reading ----------

  const POSITIONS: nat := 0x1_0000_0000

  /** How many bytes a read of len bytes asks for: positions are 32-bit sums. */
  function Asked(size: nat, len: nat, offset: nat): nat {
    if offset >= size then 0 else if (offset + len % POSITIONS) % POSITIONS > size then size - offset
                                  else len % POSITIONS
  }

  /** A read stops at the end of the file exactly when its range does not wrap, or wraps to a position past the end. */
  lemma {:induction false} AskedExact(size: nat, len: nat, offset: nat)
    requires offset < size < 0x1_0000_0000 && len < 0x1_0000_0000
    ensures Asked(size, len, offset) <= size - offset <==> offset + len < 0x1_0000_0000 || offset + len - 0x1_0000_0000 > size
    ensures Asked(size, len, offset) <= size - offset ==> Asked(size, len, offset) == Least(len, size - offset)
  {
    if offset + len < POSITIONS {
      assert (offset + len) % POSITIONS == offset + len;
    } else {
      assert (offset + len) % POSITIONS == offset + len - POSITIONS;
    }
  }

  /** For example the largest length at offset 5 of a file of 10 bytes. */
  lemma {:induction false} WrappedRead()
    ensures Asked(10, 0xFFFF_FFFF, 5) == 0xFFFF_FFFF
  {
  }

  /** out holds the file's bytes from offset on, asked of them or up to the first missing block; positions
      wrap around in 32 bits. */
  ghost predicate ReadsTo(blocks: Blocks, bs: nat, ptrs: seq<nat>, asked: nat, offset: nat, out: seq<Byte>) {
    && bs > 0 && WholeBlocks(blocks, bs) && |ptrs| == POINTERS && |out| <= asked
    && (forall i: nat :: i < |out| ==> ByteAt(blocks, bs, ptrs, (offset + i) % POSITIONS) == Some(out[i]))
    && (|out| < asked ==> ByteAt(blocks, bs, ptrs, (offset + |out|) % POSITIONS) == None)
  }

  /** The part of ReadsTo that has been read. */
  ghost predicate ReadSoFar(blocks: Blocks, bs: nat, ptrs: seq<nat>, offset: nat, out: seq<Byte>) {
    && bs > 0 && WholeBlocks(blocks, bs) && |ptrs| == POINTERS
    && forall i: nat :: i < |out| ==> ByteAt(blocks, bs, ptrs, (offset + i) % POSITIONS) == Some(out[i])
  }

  lemma {:induction false} ReadBegins(blocks: Blocks, bs: nat, ptrs: seq<nat>, offset: nat)
    requires bs > 0 && WholeBlocks(blocks, bs) && |ptrs| == POINTERS
    ensures ReadSoFar(blocks, bs, ptrs, offset, [])
  {
  }

  lemma {:induction false} ReadEnds(blocks: Blocks, bs: nat, ptrs: seq<nat>, asked: nat, offset: nat, out: seq<Byte>)
    requires ReadSoFar(blocks, bs, ptrs, offset, out) && |out| <= asked
    requires |out| < asked ==> ByteAt(blocks, bs, ptrs, (offset + |out|) % POSITIONS) == None
    ensures ReadsTo(blocks, bs, ptrs, asked, offset, out)
  {
    hide ByteAt;
  }

  /** One more piece of a block. */
  lemma {:induction false} ReadMore(blocks: Blocks, bs: nat, ptrs: seq<nat>, offset: nat, out: seq<Byte>, cur: nat,
                                    num: nat, piece: seq<Byte>)
    requires ReadSoFar(blocks, bs, ptrs, offset, out) && cur == (offset + |out|) % POSITIONS && POSITIONS % bs == 0
    requires Lookup(blocks, bs, ptrs, Index(cur, bs)) == (0, num) && 0 < num < |blocks|
    requires piece != [] && At(cur, bs) + |piece| <= bs && piece == blocks[num][At(cur, bs)..At(cur, bs) + |piece|]
    ensures ReadSoFar(blocks, bs, ptrs, offset, out + piece)
    ensures (offset + |out + piece|) % POSITIONS == (cur + |piece|) % POSITIONS
  {
    hide Lookup, ByteAt, Index, At;
    PositionStep(offset, |out|, cur, |piece|, 0, bs);
    forall i: nat | i < |out + piece|
      ensures ByteAt(blocks, bs, ptrs, (offset + i) % POSITIONS) == Some((out + piece)[i])
    {
      if i >= |out| {
        PositionStep(offset, |out|, cur, |piece|, i - |out|, bs);
        ReadStep(blocks, bs, ptrs, cur, |piece|, i - |out|);
      }
    }
  }

  /** A read whose range does not wrap into the file gives the file's bytes. */
  lemma {:induction false} ReadsExactly(blocks: Blocks, bs: nat, n: Inode, len: nat, offset: nat, out: seq<Byte>)
    requires ReadsTo(blocks, bs, n.block, Asked(n.size, len, offset), offset, out) && n.size < POSITIONS
    requires len < POSITIONS
    requires offset + len < POSITIONS || offset + len - POSITIONS > n.size
    ensures ReadsAs(blocks, bs, n, len, offset, out)
  {
    hide ByteAt, Asked;
    if offset < n.size {
      AskedExact(n.size, len, offset);
      forall i: nat | i < |out|
        ensures ByteAt(blocks, bs, n.block, offset + i) == Some(out[i])
      {
        assert (offset + i) % POSITIONS == offset + i;
      }
    } else {
      AskedCases(n.size, len, offset);
    }
  }

  lemma {:induction false} AskedCases(size: nat, len: nat, offset: nat)
    ensures Asked(size, len, offset) == if offset >= size then 0
                else if (offset + len % POSITIONS) % POSITIONS > size then size - offset else len % POSITIONS
  {
  }

  /** A block that begins below 4 GiB ends there, since blocks fill the range evenly. */
  lemma {:induction false} BlockEnds(cur: nat, take: nat, bs: nat)
    requires cur < POSITIONS && bs > 0 && POSITIONS % bs == 0 && At(cur, bs) + take <= bs
    ensures cur + take <= POSITIONS
  {
    DivMod(cur, bs);
    DivMod(POSITIONS, bs);
    if cur / bs < POSITIONS / bs {
      MulGap(cur / bs, POSITIONS / bs, bs);
    } else {
      DivOrder(cur, POSITIONS, bs);
    }
  }

  /** The position after i more bytes of one block. */
  lemma {:induction false} PositionStep(offset: nat, k: nat, cur: nat, take: nat, i: nat, bs: nat)
    requires cur == (offset + k) % POSITIONS && bs > 0 && POSITIONS % bs == 0 && At(cur, bs) + take <= bs && i < take
    ensures (offset + (k + i)) % POSITIONS == cur + i
    ensures (offset + (k + take)) % POSITIONS == (cur + take) % POSITIONS
  {
    BlockEnds(cur, take, bs);
    var q := (offset + k) / POSITIONS;
    DivMod(offset + k, POSITIONS);
    DivUnique(offset + (k + i), POSITIONS, q, cur + i);
    if cur + take < POSITIONS {
      DivUnique(offset + (k + take), POSITIONS, q, cur + take);
    } else {
      DivUnique(offset + (k + take), POSITIONS, q + 1, 0);
    }
  }

  /** out is what a read of len bytes at offset gives: the file's bytes, up to its end or its first missing block. */
  ghost predicate ReadsAs(blocks: Blocks, bs: nat, n: Inode, len: nat, offset: nat, out: seq<Byte>) {
    && bs > 0 && WholeBlocks(blocks, bs) && |n.block| == POINTERS
    && |out| <= (if offset < n.size then Least(len, n.size - offset) else 0)
    && (forall i: nat :: i < |out| ==> ByteAt(blocks, bs, n.block, offset + i) == Some(out[i]))
    && (offset < n.size && |out| < Least(len, n.size - offset) ==> ByteAt(blocks, bs, n.block, offset + |out|) == None)
  }

  /** The bytes of one block that a read takes next. */
  lemma {:induction false} ReadStep(blocks: Blocks, bs: nat, ptrs: seq<nat>, pos: nat, take: nat, i: nat)
    requires bs > 0 && WholeBlocks(blocks, bs) && |ptrs| == POINTERS && At(pos, bs) + take <= bs && i < take
    ensures ByteAt(blocks, bs, ptrs, pos + i)
            == var (r, num) := Lookup(blocks, bs, ptrs, Index(pos, bs));
               if r == 0 && 0 < num < |blocks| then Some(blocks[num][At(pos, bs) + i]) else None
  {
    hide Lookup;
    SameBlock(pos, i, bs);
  }

  /** What was written is read back, whatever blocks were allocated for it. */
  lemma {:induction false} WriteThenRead(bs: nat, b0: Blocks, p0: seq<nat>, blocks: Blocks, n: Inode, buf: seq<Byte>,
                                         offset: nat, written: nat, out: seq<Byte>)
    requires |n.block| == POINTERS && Stored(bs, b0, p0, blocks, n.block, buf, offset, written)
    requires offset + written <= n.size < POSITIONS
    requires ReadsTo(blocks, bs, n.block, Asked(n.size, written, offset), offset, out)
    ensures out == buf[..written]
  {
    hide ByteAt, Asked;
    ReadsExactly(blocks, bs, n, written, offset, out);
    assert forall q: nat :: offset <= q < offset + written ==> ByteAt(blocks, bs, n.block, q).Some?;
    assert |out| == written;
    forall i: nat | i < written
      ensures out[i] == buf[i]
    {
      assert ByteAt(blocks, bs, n.block, offset + i) == Some(buf[offset + i - offset]);
    }
  }

  // ---------- inodes under changes ----------

  /** Bitmaps and tables in the same places. */
  ghost predicate SamePlaces(geo: Geometry, blocks: Blocks, blocks': Blocks) {
    && Laid(geo, blocks) && Laid(geo, blocks') && |blocks'| == |blocks|
    && (forall kind, g: nat :: g < geo.groups ==>
           BitmapBlock(geo, blocks', kind, g) == BitmapBlock(geo, blocks, kind, g))
    && (forall g: nat :: g < geo.groups ==> Table(geo, blocks', g) == Table(geo, blocks, g))
  }

  /** Same places and table blocks: the same inodes. */
  ghost predicate SameTables(geo: Geometry, blocks: Blocks, blocks': Blocks)
    requires Tables(geo, blocks)
  {
    SamePlaces(geo, blocks, blocks')
    && forall g: nat, b: nat :: g < geo.groups && InTable(geo, blocks, g, b) && b < |blocks| ==> blocks'[b] == blocks[b]
  }

  lemma {:induction false} SameInodes(geo: Geometry, blocks: Blocks, blocks': Blocks, num: nat)
    requires Tables(geo, blocks) && SameTables(geo, blocks, blocks')
    ensures Tables(geo, blocks')
    ensures num > 0 && GroupOf(geo, num) < geo.groups ==> InodeOf(geo, blocks', num) == InodeOf(geo, blocks, num)
  {
    hide Laid, BitmapBlock, Table, Decoded;
    SamePlacesTables(geo, blocks, blocks');
    if num > 0 && GroupOf(geo, num) < geo.groups {
      SlotInTable(geo, blocks, num);
      SlotInTable(geo, blocks', num);
    }
  }

  lemma {:induction false} SamePlacesTables(geo: Geometry, blocks: Blocks, blocks': Blocks)
    requires Tables(geo, blocks) && SamePlaces(geo, blocks, blocks')
    ensures Tables(geo, blocks') && Shape(geo, blocks) && Shape(geo, blocks')
  {
    hide Laid, BitmapBlock, Table;
    LaidShape(geo, blocks);
    LaidShape(geo, blocks');
    forall g: nat, b: nat | g < geo.groups
      ensures InTable(geo, blocks', g, b) == InTable(geo, blocks, g, b)
    {
    }
    assert forall g: nat :: g < geo.groups ==>
             geo.DescBlock(geo.groups - 1) < Table(geo, blocks', g) && Table(geo, blocks', g) + TableBlocks(geo) <= |blocks'|;
    assert forall g: nat, kind, h: nat :: g < geo.groups && h < geo.groups ==>
             !InTable(geo, blocks', g, BitmapBlock(geo, blocks', kind, h));
  }

  /** Taking a bit leaves the tables and the data alone. */
  lemma {:induction false} TakenTablesData(geo: Geometry, blocks: Blocks, kind: Kind, g: nat, i: nat, count: nat)
    requires Tables(geo, blocks) && g < geo.groups && i < geo.PerGroup(kind) && !BitIn(geo, blocks, kind, g, i)
    ensures SameTables(geo, blocks, Taken(geo, blocks, kind, g, i, count))
    ensures forall b: nat :: DataBlock(geo, blocks, b) ==> Taken(geo, blocks, kind, g, i, count)[b] == blocks[b]
  {
    hide BitIn, Taken, Laid, Desc32;
    LaidShape(geo, blocks);
    TakenLaid(geo, blocks, kind, g, i, count);
    LaidShape(geo, Taken(geo, blocks, kind, g, i, count));
    TakenBlocks(geo, blocks, kind, g, i, count);
    DescInBlock(geo, g);
    forall h: nat | h < geo.groups
      ensures Table(geo, Taken(geo, blocks, kind, g, i, count), h) == Table(geo, blocks, h)
    {
      TakenDesc32(geo, blocks, kind, g, i, count, h, TABLE_FIELD);
    }
  }

  /** The blocks outside the inode tables are as before. */
  ghost predicate SameButTables(geo: Geometry, blocks: Blocks, blocks': Blocks)
    requires Laid(geo, blocks)
  {
    |blocks'| == |blocks| && WholeBlocks(blocks', geo.bs)
    && forall b: nat :: b < |blocks| && (forall g: nat :: g < geo.groups ==> !InTable(geo, blocks, g, b)) ==>
           blocks'[b] == blocks[b]
  }

  /** Writing an inode changes that inode and nothing else. */
  lemma {:induction false} InodeWritten(geo: Geometry, blocks: Blocks, num: nat, n: Inode, m: nat)
    requires Tables(geo, blocks) && num > 0 && GroupOf(geo, num) < geo.groups && Fits(n)
    ensures Tables(geo, WithInode(geo, blocks, num, n)) && SameButTables(geo, blocks, WithInode(geo, blocks, num, n))
    ensures m > 0 && GroupOf(geo, m) < geo.groups ==>
              InodeOf(geo, WithInode(geo, blocks, num, n), m) == if m == num then n else InodeOf(geo, blocks, m)
  {
    hide Laid, BitmapBlock, Table, Decoded, Encoded, Words, Put, GroupOf, LocalBytes;
    var blocks' := WithInode(geo, blocks, num, n);
    SlotInTable(geo, blocks, num);
    LaidShape(geo, blocks);
    InodeWriteShape(geo, blocks, num, n);
    ButTablesTables(geo, blocks, blocks');
    if m > 0 && GroupOf(geo, m) < geo.groups {
      SlotInTable(geo, blocks, m);
      var b := blocks[SlotBlock(geo, blocks, num)];
      if m == num {
        InodeRoundTrip(b, SlotAt(geo, num), n);
      } else if SlotBlock(geo, blocks, m) == SlotBlock(geo, blocks, num) {
        SlotsDisjoint(geo, blocks, m, num);
        InodeBeside(b, SlotAt(geo, num), Encoded(Words(n)), SlotAt(geo, m));
      }
    }
  }

  lemma {:induction false} InodeWriteShape(geo: Geometry, blocks: Blocks, num: nat, n: Inode)
    requires Tables(geo, blocks) && num > 0 && GroupOf(geo, num) < geo.groups && Fits(n)
    ensures Shape(geo, blocks) && SlotBlock(geo, blocks, num) < |blocks|
    ensures SameButTables(geo, blocks, WithInode(geo, blocks, num, n))
  {
    hide BitmapBlock, Table, Encoded, Words;
    SlotInTable(geo, blocks, num);
  }

  /** The tables stay where they are. */
  lemma {:induction false} ButTablesTables(geo: Geometry, blocks: Blocks, blocks': Blocks)
    requires Tables(geo, blocks) && SameButTables(geo, blocks, blocks')
    ensures Tables(geo, blocks') && SamePlaces(geo, blocks, blocks')
  {
    hide Tables, SameButTables, Laid, Desc32;
    TablesLaid(geo, blocks);
    ButTablesShape(geo, blocks, blocks');
    LaidShape(geo, blocks);
    forall g: nat, field: nat | g < geo.groups && field + 4 <= DESC
      ensures Desc32(geo, blocks', g, field) == Desc32(geo, blocks, g, field)
    {
      ButTablesDesc(geo, blocks, blocks', g, field);
    }
    PointersPlaces(geo, blocks, blocks');
    SamePlacesTables(geo, blocks, blocks');
  }

  lemma {:induction false} TablesLaid(geo: Geometry, blocks: Blocks)
    requires Tables(geo, blocks)
    ensures Laid(geo, blocks)
  {
  }

  lemma {:induction false} ButTablesShape(geo: Geometry, blocks: Blocks, blocks': Blocks)
    requires Laid(geo, blocks) && SameButTables(geo, blocks, blocks')
    ensures Shape(geo, blocks') && |blocks'| == |blocks|
  {
  }

  lemma {:induction false} ButTablesDesc(geo: Geometry, blocks: Blocks, blocks': Blocks, g: nat, field: nat)
    requires Tables(geo, blocks) && SameButTables(geo, blocks, blocks') && Shape(geo, blocks') && g < geo.groups
    requires field + 4 <= DESC
    ensures Desc32(geo, blocks', g, field) == Desc32(geo, blocks, g, field)
  {
    hide Get32;
    DescInBlock(geo, g);
  }

  /** The same pointers in the descriptors: the same layout. */
  ghost predicate SamePointers(geo: Geometry, blocks: Blocks, blocks': Blocks) {
    && Shape(geo, blocks) && Shape(geo, blocks') && |blocks'| == |blocks|
    && forall g: nat, field: nat :: g < geo.groups && field + 4 <= DESC ==>
           Desc32(geo, blocks', g, field) == Desc32(geo, blocks, g, field)
  }

  lemma {:induction false} PointersPlaces(geo: Geometry, blocks: Blocks, blocks': Blocks)
    requires Laid(geo, blocks) && SamePointers(geo, blocks, blocks')
    ensures SamePlaces(geo, blocks, blocks')
  {
    hide Desc32;
    forall kind, g: nat | g < geo.groups
      ensures BitmapBlock(geo, blocks', kind, g) == BitmapBlock(geo, blocks, kind, g)
    {
    }
  }
}
