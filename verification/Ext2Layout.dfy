/** Where ext2 keeps its counters and bitmaps, and what taking one bit changes. */
module Ext2Layout {
  import opened Utils
  import opened Arith
  import opened Ext2Bytes
  import opened Ext2Trees

  /** Blocks and inodes are allocated in the same way. */
  datatype Kind = BlockKind | InodeKind

  const DESC: nat := 32         // bytes of a group descriptor
  const SUPER_OFFSET: nat := 1024
  const TABLE_FIELD: nat := 8

  datatype Geometry = Geometry(bs: nat, groups: nat, blocksPerGroup: nat, inodesPerGroup: nat, firstDataBlock: nat,
                               descOffset: nat, inodeSize: nat)
  {
    function DescBlock(g: nat): nat requires bs > 0 { descOffset + g * DESC / bs }

    function DescAt(g: nat): nat requires bs > 0 { g * DESC % bs }

    function SuperBlock(): nat requires bs > 0 { SUPER_OFFSET / bs }

    function SuperAt(): nat requires bs > 0 { SUPER_OFFSET % bs }

    function PerGroup(kind: Kind): nat { if kind == BlockKind then blocksPerGroup else inodesPerGroup }

    ghost predicate Sane() {
      && (bs == 1024 || bs == 2048 || bs == 4096) && SuperBlock() < descOffset
      && 0 < blocksPerGroup <= 8 * bs && 0 < inodesPerGroup <= 8 * bs && groups > 0
    }
  }

  function BitmapField(kind: Kind): nat { if kind == BlockKind then 0 else 4 }

  function FreeField(kind: Kind): nat { if kind == BlockKind then 12 else 14 }

  function SuperField(kind: Kind): nat { if kind == BlockKind then 12 else 16 }

  /** The blocks exist as far as the descriptors; all have the block size. */
  ghost predicate Shape(geo: Geometry, blocks: Blocks) {
    geo.Sane() && WholeBlocks(blocks, geo.bs) && geo.DescBlock(geo.groups - 1) < |blocks|
  }

  // ---------- descriptors ----------

  lemma {:induction false} DescInBlock(geo: Geometry, g: nat)
    requires geo.Sane()
    ensures geo.DescAt(g) + DESC <= geo.bs && geo.SuperAt() + 20 <= geo.bs
    ensures g < geo.groups ==> geo.SuperBlock() < geo.descOffset <= geo.DescBlock(g) <= geo.DescBlock(geo.groups - 1)
  {
    DescAligned(geo.bs, g);
    if g < geo.groups {
      DivOrder(g * DESC, (geo.groups - 1) * DESC, geo.bs);
    }
  }

  lemma {:induction false} DescAligned(bs: nat, g: nat)
    requires bs == 1024 || bs == 2048 || bs == 4096
    ensures g * DESC % bs + DESC <= bs && g * DESC % bs % DESC == 0
  {
    if bs == 1024 {
      DivUnique(g * DESC, 1024, g / 32, g % 32 * DESC);
    } else if bs == 2048 {
      DivUnique(g * DESC, 2048, g / 64, g % 64 * DESC);
    } else {
      DivUnique(g * DESC, 4096, g / 128, g % 128 * DESC);
    }
  }

  /** Two descriptors do not overlap. */
  lemma {:induction false} DescApart(geo: Geometry, g: nat, h: nat)
    requires geo.Sane() && g != h && geo.DescBlock(g) == geo.DescBlock(h)
    ensures geo.DescAt(g) + DESC <= geo.DescAt(h) || geo.DescAt(h) + DESC <= geo.DescAt(g)
  {
    DivMod(g * DESC, geo.bs);
    DivMod(h * DESC, geo.bs);
  }

  ghost function Desc16(geo: Geometry, blocks: Blocks, g: nat, field: nat): nat
    requires Shape(geo, blocks) && g < geo.groups && field + 2 <= DESC
  {
    DescInBlock(geo, g);
    Get16(blocks[geo.DescBlock(g)], geo.DescAt(g) + field)
  }

  ghost function Desc32(geo: Geometry, blocks: Blocks, g: nat, field: nat): nat
    requires Shape(geo, blocks) && g < geo.groups && field + 4 <= DESC
  {
    DescInBlock(geo, g);
    Get32(blocks[geo.DescBlock(g)], geo.DescAt(g) + field)
  }

  ghost function BitmapBlock(geo: Geometry, blocks: Blocks, kind: Kind, g: nat): nat
    requires Shape(geo, blocks) && g < geo.groups
  {
    Desc32(geo, blocks, g, BitmapField(kind))
  }

  ghost function FreeCount(geo: Geometry, blocks: Blocks, kind: Kind, g: nat): nat
    requires Shape(geo, blocks) && g < geo.groups
  {
    Desc16(geo, blocks, g, FreeField(kind))
  }

  ghost function SuperCount(geo: Geometry, blocks: Blocks, kind: Kind): nat
    requires Shape(geo, blocks)
  {
    DescInBlock(geo, 0);
    Get32(blocks[geo.SuperBlock()], geo.SuperAt() + SuperField(kind))
  }

  /** Bitmaps lie behind the descriptors, inside the volume, and each group and kind has its own. */
  ghost predicate Laid(geo: Geometry, blocks: Blocks) {
    && Shape(geo, blocks)
    && (forall kind, g: nat :: g < geo.groups ==>
           geo.DescBlock(geo.groups - 1) < BitmapBlock(geo, blocks, kind, g) < |blocks|)
    && (forall k1, g1: nat, k2, g2: nat :: g1 < geo.groups && g2 < geo.groups && (k1 != k2 || g1 != g2) ==>
          BitmapBlock(geo, blocks, k1, g1) != BitmapBlock(geo, blocks, k2, g2))
  }

  /** Bit i of the group's bitmap is set. */
  ghost predicate BitIn(geo: Geometry, blocks: Blocks, kind: Kind, g: nat, i: nat)
    requires Laid(geo, blocks) && g < geo.groups && i < geo.PerGroup(kind)
  {
    BitmapWhole(geo, blocks, kind, g);
    Bit(blocks[BitmapBlock(geo, blocks, kind, g)], i)
  }

  lemma {:induction false} BitmapWhole(geo: Geometry, blocks: Blocks, kind: Kind, g: nat)
    requires Laid(geo, blocks) && g < geo.groups
    ensures BitmapBlock(geo, blocks, kind, g) < |blocks| && |blocks[BitmapBlock(geo, blocks, kind, g)]| == geo.bs
    ensures geo.PerGroup(kind) <= 8 * geo.bs
  {
  }

  // ---------- taking a bit ----------

  function Less(n: nat): nat { if n > 0 then n - 1 else 0 }

  /** The block of a group's descriptor with another free count. */
  function WithFree(geo: Geometry, b: Block, kind: Kind, g: nat, free: nat): Block
    requires geo.Sane() && |b| == geo.bs
  {
    DescInBlock(geo, g);
    Put(b, geo.DescAt(g) + FreeField(kind), Bytes16(free))
  }

  function WithSuper(geo: Geometry, b: Block, kind: Kind, count: nat): Block
    requires geo.Sane() && |b| == geo.bs
  {
    DescInBlock(geo, 0);
    Put(b, geo.SuperAt() + SuperField(kind), Bytes32(count))
  }

  /** Bit i of group g set, and both counters written. */
  ghost function Taken(geo: Geometry, blocks: Blocks, kind: Kind, g: nat, i: nat, count: nat): Blocks
    requires Laid(geo, blocks) && g < geo.groups && i < geo.PerGroup(kind) && !BitIn(geo, blocks, kind, g, i)
  {
    BitmapWhole(geo, blocks, kind, g);
    DescInBlock(geo, g);
    var (bm, gd, sb) := (BitmapBlock(geo, blocks, kind, g), geo.DescBlock(g), geo.SuperBlock());
    blocks[bm := SetBit(blocks[bm], i)]
          [gd := WithFree(geo, blocks[gd], kind, g, Less(FreeCount(geo, blocks, kind, g)))]
          [sb := WithSuper(geo, blocks[sb], kind, count)]
  }

  /** The three blocks that change. */
  lemma {:induction false} TakenBlocks(geo: Geometry, blocks: Blocks, kind: Kind, g: nat, i: nat, count: nat)
    requires Laid(geo, blocks) && g < geo.groups && i < geo.PerGroup(kind) && !BitIn(geo, blocks, kind, g, i)
    ensures var (bs', bm) := (Taken(geo, blocks, kind, g, i, count), BitmapBlock(geo, blocks, kind, g));
            var (gd, sb) := (geo.DescBlock(g), geo.SuperBlock());
            && sb < gd < bm < |blocks| && |bs'| == |blocks| && |blocks[bm]| == |blocks[gd]| == |blocks[sb]| == geo.bs
            && i < 8 * |blocks[bm]| && !Bit(blocks[bm], i)
            && bs'[bm] == SetBit(blocks[bm], i)
            && bs'[gd] == WithFree(geo, blocks[gd], kind, g, Less(FreeCount(geo, blocks, kind, g)))
            && bs'[sb] == WithSuper(geo, blocks[sb], kind, count)
            && (forall b :: 0 <= b < |blocks| && b != bm && b != gd && b != sb ==> bs'[b] == blocks[b])
            && Shape(geo, bs')
  {
    hide WithFree, WithSuper, SetBit;
    BitmapWhole(geo, blocks, kind, g);
    DescInBlock(geo, g);
    PutLength(geo, blocks[geo.DescBlock(g)], kind, g, Less(FreeCount(geo, blocks, kind, g)));
    SuperLength(geo, blocks[geo.SuperBlock()], kind, count);
  }

  lemma {:induction false} PutLength(geo: Geometry, b: Block, kind: Kind, g: nat, free: nat)
    requires geo.Sane() && |b| == geo.bs
    ensures |WithFree(geo, b, kind, g, free)| == |b|
  {
  }

  lemma {:induction false} SuperLength(geo: Geometry, b: Block, kind: Kind, count: nat)
    requires geo.Sane() && |b| == geo.bs
    ensures |WithSuper(geo, b, kind, count)| == |b|
  {
  }

  /** Descriptor fields after the write: one count changes, nothing else. */
  lemma {:induction false} DescAfter(geo: Geometry, b: Block, kind: Kind, g: nat, free: nat, h: nat, field: nat)
    requires geo.Sane() && |b| == geo.bs && free < 0x1_0000 && field + 2 <= DESC
    requires h == g || geo.DescBlock(h) == geo.DescBlock(g)
    requires field % 2 == 0
    ensures geo.DescAt(h) + DESC <= geo.bs
    ensures Get16(WithFree(geo, b, kind, g, free), geo.DescAt(h) + field)
            == if h == g && field == FreeField(kind) then free else Get16(b, geo.DescAt(h) + field)
  {
    DescInBlock(geo, g);
    DescInBlock(geo, h);
    if h != g {
      DescApart(geo, g, h);
    }
    var at := geo.DescAt(g) + FreeField(kind);
    if h == g && field == FreeField(kind) {
      Get16Put(b, at, free);
    } else {
      GetBeside(b, at, Bytes16(free), geo.DescAt(h) + field);
    }
  }

  /** Every 16-bit field of every descriptor after a bit is taken. */
  lemma {:induction false} TakenDesc16(geo: Geometry, blocks: Blocks, kind: Kind, g: nat, i: nat, count: nat, h: nat,
                                       field: nat)
    requires Laid(geo, blocks) && g < geo.groups && i < geo.PerGroup(kind) && !BitIn(geo, blocks, kind, g, i)
    requires h < geo.groups && field + 2 <= DESC && field % 2 == 0
    ensures Shape(geo, Taken(geo, blocks, kind, g, i, count))
    ensures Desc16(geo, Taken(geo, blocks, kind, g, i, count), h, field)
            == if h == g && field == FreeField(kind) then Less(FreeCount(geo, blocks, kind, g))
               else Desc16(geo, blocks, h, field)
  {
    hide Laid, BitIn, WithFree, WithSuper, Taken, Get16, BitmapBlock, Less, Bit, SetBit;
    TakenBlocks(geo, blocks, kind, g, i, count);
    LaidShape(geo, blocks);
    DescInBlock(geo, h);
    FreeIn16Bits(geo, blocks, kind, g);
    if geo.DescBlock(h) == geo.DescBlock(g) {
      DescAfter(geo, blocks[geo.DescBlock(g)], kind, g, Less(FreeCount(geo, blocks, kind, g)), h, field);
    } else {
      DescBelowBitmap(geo, blocks, kind, g, h);
    }
  }

  lemma {:induction false} LaidShape(geo: Geometry, blocks: Blocks)
    requires Laid(geo, blocks)
    ensures Shape(geo, blocks)
  {
  }

  lemma {:induction false} FreeIn16Bits(geo: Geometry, blocks: Blocks, kind: Kind, g: nat)
    requires Shape(geo, blocks) && g < geo.groups
    ensures FreeCount(geo, blocks, kind, g) < 0x1_0000 && Less(FreeCount(geo, blocks, kind, g)) < 0x1_0000
  {
  }

  lemma {:induction false} DescBelowBitmap(geo: Geometry, blocks: Blocks, kind: Kind, g: nat, h: nat)
    requires Laid(geo, blocks) && g < geo.groups && h < geo.groups
    ensures geo.SuperBlock() < geo.DescBlock(h) < BitmapBlock(geo, blocks, kind, g) < |blocks|
  {
    DescInBlock(geo, h);
  }

  lemma {:induction false} Desc32Parts(geo: Geometry, blocks: Blocks, g: nat, field: nat)
    requires Shape(geo, blocks) && g < geo.groups && field + 4 <= DESC
    ensures Desc32(geo, blocks, g, field) == Desc16(geo, blocks, g, field) + 0x1_0000 * Desc16(geo, blocks, g, field + 2)
  {
  }

  /** The bitmap and table pointers stay. */
  lemma {:induction false} TakenDesc32(geo: Geometry, blocks: Blocks, kind: Kind, g: nat, i: nat, count: nat, h: nat,
                                       field: nat)
    requires Laid(geo, blocks) && g < geo.groups && i < geo.PerGroup(kind) && !BitIn(geo, blocks, kind, g, i)
    requires h < geo.groups && (field == 0 || field == 4 || field == TABLE_FIELD)
    ensures Shape(geo, Taken(geo, blocks, kind, g, i, count))
    ensures Desc32(geo, Taken(geo, blocks, kind, g, i, count), h, field) == Desc32(geo, blocks, h, field)
  {
    hide Laid, BitIn, Taken, Desc16, Desc32;
    LaidShape(geo, blocks);
    TakenDesc16(geo, blocks, kind, g, i, count, h, field);
    TakenDesc16(geo, blocks, kind, g, i, count, h, field + 2);
    Desc32Parts(geo, blocks, h, field);
    Desc32Parts(geo, Taken(geo, blocks, kind, g, i, count), h, field);
  }

  lemma {:induction false} TakenLaid(geo: Geometry, blocks: Blocks, kind: Kind, g: nat, i: nat, count: nat)
    requires Laid(geo, blocks) && g < geo.groups && i < geo.PerGroup(kind) && !BitIn(geo, blocks, kind, g, i)
    ensures Laid(geo, Taken(geo, blocks, kind, g, i, count))
    ensures forall k, h: nat :: h < geo.groups ==>
              BitmapBlock(geo, Taken(geo, blocks, kind, g, i, count), k, h) == BitmapBlock(geo, blocks, k, h)
  {
    hide BitIn, Taken, Desc32;
    TakenBlocks(geo, blocks, kind, g, i, count);
    forall k, h: nat | h < geo.groups
      ensures BitmapBlock(geo, Taken(geo, blocks, kind, g, i, count), k, h) == BitmapBlock(geo, blocks, k, h)
    {
      TakenDesc32(geo, blocks, kind, g, i, count, h, BitmapField(k));
    }
  }

  /** Exactly the taken bit is set in addition. */
  lemma {:induction false} TakenBits(geo: Geometry, blocks: Blocks, kind: Kind, g: nat, i: nat, count: nat, k: Kind,
                                     h: nat, j: nat)
    requires Laid(geo, blocks) && g < geo.groups && i < geo.PerGroup(kind) && !BitIn(geo, blocks, kind, g, i)
    requires h < geo.groups && j < geo.PerGroup(k)
    ensures Laid(geo, Taken(geo, blocks, kind, g, i, count))
    ensures BitIn(geo, Taken(geo, blocks, kind, g, i, count), k, h, j)
            == ((k == kind && h == g && j == i) || BitIn(geo, blocks, k, h, j))
  {
    hide Taken, BitmapBlock, Bit, SetBit, WithFree, WithSuper;
    TakenBlocks(geo, blocks, kind, g, i, count);
    TakenLaid(geo, blocks, kind, g, i, count);
    BitmapWhole(geo, blocks, k, h);
    if k == kind && h == g {
      BitAfter(blocks[BitmapBlock(geo, blocks, kind, g)], i, j);
    } else {
      DescBelowBitmap(geo, blocks, k, h, g);
    }
  }

  // ---------- the counters ----------

  ghost function ZerosIn(geo: Geometry, blocks: Blocks, kind: Kind, g: nat): nat
    requires Laid(geo, blocks) && g < geo.groups
  {
    BitmapWhole(geo, blocks, kind, g);
    ClearBits(blocks[BitmapBlock(geo, blocks, kind, g)], geo.PerGroup(kind))
  }

  /** The clear bits of the first n groups. */
  ghost function ZerosBelow(geo: Geometry, blocks: Blocks, kind: Kind, n: nat): nat
    requires Laid(geo, blocks) && n <= geo.groups
  {
    if n == 0 then 0 else ZerosBelow(geo, blocks, kind, n - 1) + ZerosIn(geo, blocks, kind, n - 1)
  }

  /** Every group's count is its number of clear bits, and the superblock's count, in memory and on disk, is their sum. */
  ghost predicate Counted(geo: Geometry, blocks: Blocks, kind: Kind, count: nat) {
    && Laid(geo, blocks) && count < 0x1_0000_0000
    && (forall g: nat :: g < geo.groups ==> FreeCount(geo, blocks, kind, g) == ZerosIn(geo, blocks, kind, g))
    && SuperCount(geo, blocks, kind) == count == ZerosBelow(geo, blocks, kind, geo.groups)
  }

  lemma {:induction false} TakenZeros(geo: Geometry, blocks: Blocks, kind: Kind, g: nat, i: nat, count: nat, k: Kind,
                                      h: nat)
    requires Laid(geo, blocks) && g < geo.groups && i < geo.PerGroup(kind) && !BitIn(geo, blocks, kind, g, i)
    requires h < geo.groups
    ensures Laid(geo, Taken(geo, blocks, kind, g, i, count))
    ensures ZerosIn(geo, blocks, kind, g) > 0
    ensures ZerosIn(geo, Taken(geo, blocks, kind, g, i, count), k, h)
            == ZerosIn(geo, blocks, k, h) - if k == kind && h == g then 1 else 0
  {
    hide Taken, BitmapBlock, Bit, SetBit, WithFree, WithSuper, ClearBits;
    TakenBlocks(geo, blocks, kind, g, i, count);
    TakenLaid(geo, blocks, kind, g, i, count);
    BitmapWhole(geo, blocks, k, h);
    BitmapWhole(geo, blocks, kind, g);
    ZerosAfter(blocks[BitmapBlock(geo, blocks, kind, g)], i, geo.PerGroup(kind));
    if !(k == kind && h == g) {
      DescBelowBitmap(geo, blocks, k, h, g);
    }
  }

  lemma {:induction false} TakenZerosBelow(geo: Geometry, blocks: Blocks, kind: Kind, g: nat, i: nat, count: nat,
                                           k: Kind, n: nat)
    requires Laid(geo, blocks) && g < geo.groups && i < geo.PerGroup(kind) && !BitIn(geo, blocks, kind, g, i)
    requires n <= geo.groups
    ensures Laid(geo, Taken(geo, blocks, kind, g, i, count))
    ensures k == kind && g < n ==> ZerosBelow(geo, blocks, k, n) > 0
    ensures ZerosBelow(geo, Taken(geo, blocks, kind, g, i, count), k, n)
            == ZerosBelow(geo, blocks, k, n) - if k == kind && g < n then 1 else 0
  {
    hide Taken, BitIn, Laid, ZerosIn;
    TakenLaid(geo, blocks, kind, g, i, count);
    if n > 0 {
      TakenZerosBelow(geo, blocks, kind, g, i, count, k, n - 1);
      TakenZeros(geo, blocks, kind, g, i, count, k, n - 1);
    }
  }

  lemma {:induction false} TakenSuper(geo: Geometry, blocks: Blocks, kind: Kind, g: nat, i: nat, count: nat, k: Kind)
    requires Laid(geo, blocks) && g < geo.groups && i < geo.PerGroup(kind) && !BitIn(geo, blocks, kind, g, i)
    requires count < 0x1_0000_0000
    ensures Shape(geo, Taken(geo, blocks, kind, g, i, count))
    ensures SuperCount(geo, Taken(geo, blocks, kind, g, i, count), k) == if k == kind then count
                                                                         else SuperCount(geo, blocks, k)
  {
    hide Taken, BitIn, Laid, Get32, Put;
    TakenBlocks(geo, blocks, kind, g, i, count);
    LaidShape(geo, blocks);
    DescInBlock(geo, 0);
    var (b, at) := (blocks[geo.SuperBlock()], geo.SuperAt() + SuperField(kind));
    Get32Put(b, at, count);
    if k != kind {
      GetBeside(b, at, Bytes32(count), geo.SuperAt() + SuperField(k));
    }
  }

  /** With all bits set the count is zero. */
  lemma {:induction false} AllBitsSet(geo: Geometry, blocks: Blocks, kind: Kind, count: nat)
    requires Counted(geo, blocks, kind, count)
    requires forall h: nat, j: nat :: h < geo.groups && j < geo.PerGroup(kind) ==> BitIn(geo, blocks, kind, h, j)
    ensures count == 0
  {
    hide BitIn, Laid, ZerosIn, SuperCount, FreeCount, BitmapBlock, Bit;
    NoZerosBelow(geo, blocks, kind, geo.groups);
  }

  lemma {:induction false} NoZerosBelow(geo: Geometry, blocks: Blocks, kind: Kind, n: nat)
    requires Laid(geo, blocks) && n <= geo.groups
    requires forall h: nat, j: nat :: h < geo.groups && j < geo.PerGroup(kind) ==> BitIn(geo, blocks, kind, h, j)
    ensures ZerosBelow(geo, blocks, kind, n) == 0
  {
    hide BitIn, Laid, ZerosIn, BitmapBlock, Bit;
    if n > 0 {
      NoZerosBelow(geo, blocks, kind, n - 1);
      NoZerosIn(geo, blocks, kind, n - 1);
    }
  }

  lemma {:induction false} NoZerosIn(geo: Geometry, blocks: Blocks, kind: Kind, g: nat)
    requires Laid(geo, blocks) && g < geo.groups && forall j: nat :: j < geo.PerGroup(kind) ==>
                 BitIn(geo, blocks, kind, g, j)
    ensures ZerosIn(geo, blocks, kind, g) == 0
  {
    hide Bit, BitmapBlock;
    BitmapWhole(geo, blocks, kind, g);
    var bm := blocks[BitmapBlock(geo, blocks, kind, g)];
    forall j: nat | j < geo.PerGroup(kind)
      ensures Bit(bm, j)
    {
      assert BitIn(geo, blocks, kind, g, j);
    }
    NoClearBits(bm, geo.PerGroup(kind));
  }

  /** A clear bit is counted. */
  lemma {:induction false} SomeFree(geo: Geometry, blocks: Blocks, kind: Kind, g: nat, i: nat, count: nat)
    requires Counted(geo, blocks, kind, count) && g < geo.groups && i < geo.PerGroup(kind)
    requires !BitIn(geo, blocks, kind, g, i)
    ensures count > 0
  {
    hide BitIn, Laid, ZerosIn, ZerosBelow, SuperCount, FreeCount;
    TakenCounted(geo, blocks, kind, g, i, count, kind, 0);
  }

  /** Taking a bit and counting down keeps the counters of both kinds equal to the clear bits. */
  lemma {:induction false} TakenCounted(geo: Geometry, blocks: Blocks, kind: Kind, g: nat, i: nat, count: nat, k: Kind,
                                        other: nat)
    requires Counted(geo, blocks, kind, count) && g < geo.groups && i < geo.PerGroup(kind)
    requires !BitIn(geo, blocks, kind, g, i)
    requires k != kind ==> Counted(geo, blocks, k, other)
    ensures count > 0
    ensures Counted(geo, Taken(geo, blocks, kind, g, i, Less(count)), k, if k == kind then count - 1 else other)
  {
    hide Taken, BitIn, Laid, ZerosIn, ZerosBelow, SuperCount, Desc16;
    TakenLaid(geo, blocks, kind, g, i, Less(count));
    TakenZerosBelow(geo, blocks, kind, g, i, Less(count), k, geo.groups);
    TakenZerosBelow(geo, blocks, kind, g, i, Less(count), kind, geo.groups);
    TakenSuper(geo, blocks, kind, g, i, Less(count), k);
    forall h: nat | h < geo.groups
      ensures FreeCount(geo, Taken(geo, blocks, kind, g, i, Less(count)), k, h)
              == ZerosIn(geo, Taken(geo, blocks, kind, g, i, Less(count)), k, h)
    {
      TakenZeros(geo, blocks, kind, g, i, Less(count), k, h);
      TakenDesc16(geo, blocks, kind, g, i, Less(count), h, FreeField(k));
    }
  }
}
