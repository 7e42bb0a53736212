/** ext2.c on the blocks that a block cache presents, its device's faults being over. */
module Ext2 {
  import opened Utils
  import opened Arith
  import CacheModel
  import opened BlockCaches
  import opened Ext2Bytes
  import opened Ext2Trees
  import opened Ext2Layout
  import opened Ext2Inodes
  import opened Ext2Data
  import opened Ext2Dirs
  import opened Ext2Create

  /** The blocks that the cache presents, and their number. */
  ghost predicate Presents(es: seq<CacheModel.Entry>, disk: seq<Block>, blocks: Blocks) {
    |disk| == |blocks| && forall b: nat :: CacheModel.View(es, disk, b) == if b < |blocks| then Some(blocks[b])
                                                                           else None
  }

  class Ext2 {
    const geo: Geometry
    const cache: BlockCache
    ghost var blocks: Blocks    // what the cache presents
    var counts: map<Kind, nat>  // s_free_blocks_count and s_free_inodes_count in memory

    constructor (geo: Geometry, cache: BlockCache, ghost blocks: Blocks, counts: map<Kind, nat>)
      requires Presents(cache.intended, cache.disk.blocks, blocks)
      requires cache.Valid() && cache.Intact() && cache.Ready() && cache.disk.Over() && cache.blockSize == geo.bs
      requires cache.timestamp < OLDEST_START
      ensures Steady() && this.geo == geo && this.cache == cache && this.blocks == blocks && this.counts == counts
    {
      this.geo, this.cache, this.blocks, this.counts := geo, cache, blocks, counts;
    }

    ghost predicate Valid()
      reads this
    {
      Laid(geo, blocks) && BlockKind in counts && InodeKind in counts
    }

    // ---------- blocks ----------

    /** The cache presents the blocks, is fit for use, and its device's faults are over. */
    ghost predicate Steady()
      reads this`blocks, Repr()
    {
      && cache.Valid() && cache.Intact() && cache.Ready() && cache.disk.Over() && cache.blockSize == geo.bs
      && cache.timestamp < OLDEST_START
      && Presents(cache.intended, cache.disk.blocks, blocks)
    }

    /** The objects that every access changes. */
    ghost function Repr(): set<object> { {cache, cache.entries, cache.disk} }

    /** The cache's clock has room for n more accesses. */
    ghost predicate Room(n: nat)
      reads cache
    {
      cache.timestamp + n < OLDEST_START
    }

    /** Bounds on the accesses of allocating a block or an inode, and of creating a file. */
    ghost function AllocCost(): nat { 2 * geo.groups + 5 }

    ghost function CreateCost(): nat { 2 + DIRECT + AllocCost() + 3 + AllocCost() + 5 }

    method BlockRead(b: nat) returns (r: int, data: Block)
      requires Steady() && Room(1)
      modifies Repr()
      ensures Steady() && cache.timestamp <= old(cache.timestamp) + 1
      ensures if b < |blocks| then r == 0 && data == blocks[b] else r == -1
    {
      hide CacheModel.Tracks, CacheModel.Coherent;
      ghost var (es, disk) := (cache.intended, cache.disk.blocks);
      r, data := cache.Read(b);
      forall c: nat
        ensures CacheModel.View(cache.intended, cache.disk.blocks, c) == CacheModel.View(es, disk, c)
      {
        assert cache.Sees(c) == old(cache.Sees(c));
      }
      assert cache.Sees(b) == CacheModel.View(cache.intended, cache.disk.blocks, b);
    }

    method BlockWrite(b: nat, data: Block) returns (r: int)
      requires Steady() && Room(1) && b < |blocks| && |data| == geo.bs
      modifies this`blocks, Repr()
      ensures Steady() && cache.timestamp <= old(cache.timestamp) + 1
      ensures r == 0 && blocks == old(blocks)[b := data]
    {
      hide CacheModel.Tracks, CacheModel.Coherent;
      ghost var (es, disk) := (cache.intended, cache.disk.blocks);
      r := cache.Write(b, data);
      forall c: nat
        ensures CacheModel.View(cache.intended, cache.disk.blocks, c) == if c == b then Some(data)
                                                                         else CacheModel.View(es, disk, c)
      {
        assert cache.Sees(c) == if r == 0 && c == b then Some(data) else old(cache.Sees(c));
      }
      blocks := blocks[b := data];
    }

    // ---------- block pointers ----------

    /** ext2_get_block_num. */
    method GetBlockNum(ptrs: seq<nat>, index: nat) returns (r: int, num: nat)
      requires Steady() && Room(3)
      requires WholeBlocks(blocks, geo.bs) && |ptrs| == POINTERS && geo.bs / 4 <= 1024 && geo.bs % 4 == 0
      requires index < 0x1_0000_0000
      modifies Repr()
      ensures Steady() && cache.timestamp <= old(cache.timestamp) + 3
      ensures (r, if r == 0 then num else 0) == Lookup(blocks, geo.bs, ptrs, index)
    {
      hide Steady, Descend, Get32, Pointer, Lookup, Power, Times32;
      var p := geo.bs / 4;
      var square := Times32(p, p);
      var cube := Times32(square, p);
      Products(p);
      LookupCases(blocks, geo.bs, ptrs, index);
      num := 0;
      if index < DIRECT {
        return 0, ptrs[index];
      }
      var k := index - DIRECT;
      if k < p {
        r, num := Leaf1(ptrs[12], k);
        return;
      }
      k := k - p;
      if k < square {
        r, num := Double(ptrs[13], k);
        return;
      }
      k := k - square;
      if k < cube {
        r, num := Triple(ptrs[14], k);
        return;
      }
      r := -4;
    }

    /** A 32-bit product. */
    function Times32(a: nat, b: nat): nat { a * b % 0x1_0000_0000 }

    lemma {:induction false} Products(p: nat)
      requires p <= 1024
      ensures Power(p, 1) == p && Times32(p, p) == Power(p, 2) && Times32(Power(p, 2), p) == Power(p, 3)
    {
      NoOverflow(p);
      Powers(p);
    }

    /** The lookup, tree by tree. */
    lemma {:induction false} LookupCases(blocks: Blocks, bs: nat, ptrs: seq<nat>, k: nat)
      requires WholeBlocks(blocks, bs) && |ptrs| == POINTERS
      ensures var (p, square, cube) := (Power(bs / 4, 1), Power(bs / 4, 2), Power(bs / 4, 3));
              Lookup(blocks, bs, ptrs, k)
              == if k < DIRECT then (0, ptrs[k])
                 else if k - DIRECT < p then Descend(blocks, bs, ptrs[12], 1, k - DIRECT)
                 else if k - DIRECT - p < square then Descend(blocks, bs, ptrs[13], 2, k - DIRECT - p)
                 else if k - DIRECT - p - square < cube then Descend(blocks, bs, ptrs[14], 3, k - DIRECT - p - square)
                 else (-4, 0)
    {
      hide Descend;
      Powers(bs / 4);
    }

    /** The pointer at a double index. */
    method Double(ptr: nat, k: nat) returns (r: int, num: nat)
      requires Steady() && Room(2)
      requires WholeBlocks(blocks, geo.bs) && k < Power(geo.bs / 4, 2)
      modifies Repr()
      ensures Steady() && cache.timestamp <= old(cache.timestamp) + 2
      ensures (r, if r == 0 then num else 0) == Descend(blocks, geo.bs, ptr, 2, k)
    {
      hide Steady, Descend, Power;
      var p := geo.bs / 4;
      Powers(p);
      TwoDigits(k, p);
      r, num := Leaf2(ptr, k / p, k % p);
    }

    /** The pointer at a triple index. */
    method Triple(ptr: nat, k: nat) returns (r: int, num: nat)
      requires Steady() && Room(3)
      requires WholeBlocks(blocks, geo.bs) && k < Power(geo.bs / 4, 3)
      modifies Repr()
      ensures Steady() && cache.timestamp <= old(cache.timestamp) + 3
      ensures (r, if r == 0 then num else 0) == Descend(blocks, geo.bs, ptr, 3, k)
    {
      hide Steady, Descend, Power;
      Powers(geo.bs / 4);
      var i, j, l := Digits3(k, geo.bs / 4);
      r, num := Leaf3(ptr, i, j, l);
    }

    method Digits3(k: nat, p: nat) returns (i: nat, j: nat, l: nat)
      requires k < p * p * p
      ensures i < p && j < p && l < p && k == i * Power(p, 2) + (j * p + l)
    {
      ThreeDigits(k, p);
      i, j, l := k / (p * p), k / p % p, k % p;
    }

    lemma {:induction false} TwoDigits(k: nat, p: nat)
      requires k < p * p
      ensures p > 0 && k / p < p && k % p < p && k == k / p * p + k % p
    {
      DivBelow(k, p, p);
      DivMod(k, p);
    }

    lemma {:induction false} ThreeDigits(k: nat, p: nat)
      requires k < p * p * p
      ensures p > 0 && p * p > 0 && k / (p * p) < p && k / p % p < p && k % p < p
      ensures k == k / (p * p) * Power(p, 2) + (k / p % p * p + k % p)
    {
      hide Power;
      Powers(p);
      DivMod(k, p);
      DivMod(k / p, p);
      var (a, b, c) := (k / p / p, k / p % p, k % p);
      Regroup3(a, b, c, p, k);
      MulGap(b, p, p);
      DivUnique(k, p * p, a, b * p + c);
      DivBelow(k, p * p, p);
    }

    lemma {:induction false} Regroup3(a: nat, b: nat, c: nat, p: nat, k: nat)
      requires k == (a * p + b) * p + c
      ensures k == a * (p * p) + (b * p + c)
    {
    }

    /** The pointer at index i of a pointer block. */
    method Leaf1(ptr: nat, i: nat) returns (r: int, num: nat)
      requires Steady() && Room(1)
      requires WholeBlocks(blocks, geo.bs) && i < geo.bs / 4 == Power(geo.bs / 4, 1)
      modifies Repr()
      ensures Steady() && cache.timestamp <= old(cache.timestamp) + 1
      ensures (r, if r == 0 then num else 0) == Descend(blocks, geo.bs, ptr, 1, i)
    {
      hide Steady;
      Powers(geo.bs / 4);
      DivUnique(i, 1, i, 0);
      if ptr == 0 {
        return -2, 0;
      }
      var got, data := BlockRead(ptr);
      if got != 0 {
        return -3, 0;
      }
      DescendLeaf(blocks, geo.bs, Pointer(blocks, ptr, i));
      return 0, Get32(data, i * 4);
    }

    lemma {:induction false} DescendLeaf(blocks: Blocks, bs: nat, ptr: nat)
      requires WholeBlocks(blocks, bs)
      ensures Descend(blocks, bs, ptr, 0, 0) == (0, ptr)
    {
    }

    /** One step down: pointer i of the block, then leaf r below it. */
    lemma {:induction false} DescendStep(blocks: Blocks, bs: nat, ptr: nat, d: nat, i: nat, r: nat)
      requires WholeBlocks(blocks, bs) && d > 0 && i < bs / 4 && r < Power(bs / 4, d - 1)
      ensures i * Power(bs / 4, d - 1) + r < Power(bs / 4, d)
      ensures Descend(blocks, bs, ptr, d, i * Power(bs / 4, d - 1) + r)
              == if ptr == 0 then (-2, 0) else if ptr >= |blocks| then (-3, 0)
                                               else Descend(blocks, bs, Pointer(blocks, ptr, i), d - 1, r)
    {
      hide Pointer;
      var q := Power(bs / 4, d - 1);
      MulGap(i, bs / 4, q);
      DivUnique(i * q + r, q, i, r);
    }

    method Leaf2(ptr: nat, i: nat, j: nat) returns (r: int, num: nat)
      requires Steady() && Room(2)
      requires WholeBlocks(blocks, geo.bs) && i < geo.bs / 4 == Power(geo.bs / 4, 1) && j < geo.bs / 4
      modifies Repr()
      ensures Steady() && cache.timestamp <= old(cache.timestamp) + 2
      ensures i * (geo.bs / 4) + j < Power(geo.bs / 4, 2)
      ensures (r, if r == 0 then num else 0) == Descend(blocks, geo.bs, ptr, 2, i * (geo.bs / 4) + j)
    {
      hide Steady, Get32, Descend, Power;
      DescendStep(blocks, geo.bs, ptr, 2, i, j);
      if ptr == 0 {
        return -2, 0;
      }
      var got, data := BlockRead(ptr);
      if got != 0 {
        return -3, 0;
      }
      r, num := Leaf1(Get32(data, i * 4), j);
    }

    method Leaf3(ptr: nat, i: nat, j: nat, l: nat) returns (r: int, num: nat)
      requires Steady() && Room(3)
      requires WholeBlocks(blocks, geo.bs) && i < geo.bs / 4 == Power(geo.bs / 4, 1) && j < geo.bs / 4 && l < geo.bs / 4
      requires Power(geo.bs / 4, 2) == geo.bs / 4 * (geo.bs / 4)
      modifies Repr()
      ensures Steady() && cache.timestamp <= old(cache.timestamp) + 3
      ensures i * Power(geo.bs / 4, 2) + (j * (geo.bs / 4) + l) < Power(geo.bs / 4, 3)
      ensures (r, if r == 0 then num else 0)
              == Descend(blocks, geo.bs, ptr, 3, i * Power(geo.bs / 4, 2) + (j * (geo.bs / 4) + l))
    {
      hide Steady, Get32, Descend, Power;
      MulGap(j, geo.bs / 4, geo.bs / 4);
      DescendStep(blocks, geo.bs, ptr, 3, i, j * (geo.bs / 4) + l);
      if ptr == 0 {
        return -2, 0;
      }
      var got, data := BlockRead(ptr);
      if got != 0 {
        return -3, 0;
      }
      r, num := Leaf2(Get32(data, i * 4), j, l);
    }

    // ---------- allocation ----------

    /** No bit below group g, or in group g below i, is clear. */
    ghost predicate FullBelow(kind: Kind, g: nat, i: nat)
      reads this
      requires Laid(geo, blocks)
    {
      forall h: nat, j: nat :: h < geo.groups && j < geo.PerGroup(kind) && (h < g || (h == g && j < i)) ==>
          BitIn(geo, blocks, kind, h, j)
    }

    /** ext2_allocate_block and ext2_allocate_inode: takes the first clear bit and counts it. */
    method AllocateBit(kind: Kind) returns (r: int, g: nat, i: nat)
      requires Steady() && Room(AllocCost())
      requires Valid()
      modifies this`blocks, this`counts, Repr()
      ensures Steady() && cache.timestamp <= old(cache.timestamp) + AllocCost()
      ensures Valid() && (r == 0 || r == -6)
      ensures r == -6 ==> blocks == old(blocks) && counts == old(counts) && FullBelow(kind, geo.groups, 0)
      ensures r == 0 ==>
                g < geo.groups && i < geo.PerGroup(kind) && old(FullBelow(kind, g, i)) && !old(BitIn(geo, blocks, kind, g, i))
      ensures r == 0 ==> counts == old(counts)[kind := Less(old(counts)[kind])]
      ensures r == 0 ==> blocks == Taken(geo, old(blocks), kind, g, i, Less(old(counts)[kind]))
    {
      hide Steady, Laid, BitIn, Taken, BitmapBlock, Bit, SetBit, Get16, Get32, Put;
      LaidShape(geo, blocks);
      g, i := 0, 0;
      while g < geo.groups
        invariant g <= geo.groups && blocks == old(blocks) && counts == old(counts) && FullBelow(kind, g, 0)
        invariant Steady() && cache.timestamp <= old(cache.timestamp) + 2 * g
      {
        i := 0;
        BitmapWhole(geo, blocks, kind, g);
        var bm := ReadBitmap(kind, g);
        while i < geo.PerGroup(kind)
          invariant i <= geo.PerGroup(kind) && blocks == old(blocks) && counts == old(counts) && FullBelow(kind, g, i)
          invariant Steady() && cache.timestamp <= old(cache.timestamp) + 2 * (g + 1)
        {
          BitIs(kind, g, i, bm);
          if !Bit(bm, i) {
            TakenLaid(geo, blocks, kind, g, i, Less(counts[kind]));
            TakeBit(kind, g, i, bm);
            return 0, g, i;
          }
          i := i + 1;
        }
        g := g + 1;
      }
      r := -6;
    }

    lemma {:induction false} BitIs(kind: Kind, g: nat, i: nat, bm: Block)
      requires Laid(geo, blocks) && g < geo.groups && i < geo.PerGroup(kind)
      requires bm == blocks[BitmapBlock(geo, blocks, kind, g)]
      ensures i < 8 * |bm| && (BitIn(geo, blocks, kind, g, i) <==> Bit(bm, i))
    {
      BitmapWhole(geo, blocks, kind, g);
    }

    method ReadBitmap(kind: Kind, g: nat) returns (bm: Block)
      requires Steady() && Room(2)
      requires Laid(geo, blocks) && g < geo.groups
      modifies Repr()
      ensures Steady() && cache.timestamp <= old(cache.timestamp) + 2
      ensures BitmapBlock(geo, blocks, kind, g) < |blocks| && bm == blocks[BitmapBlock(geo, blocks, kind, g)]
    {
      hide Steady;
      DescInBlock(geo, g);
      BitmapWhole(geo, blocks, kind, g);
      var r, gd := BlockRead(geo.descOffset + g * DESC / geo.bs);
      r, bm := BlockRead(Get32(gd, g * DESC % geo.bs + BitmapField(kind)));
    }

    /** Writes the bitmap, the group's count and the superblock's count. */
    method TakeBit(kind: Kind, g: nat, i: nat, bm: Block)
      requires Steady() && Room(5)
      requires Laid(geo, blocks) && kind in counts && g < geo.groups && i < geo.PerGroup(kind)
      requires !BitIn(geo, blocks, kind, g, i)
      requires BitmapBlock(geo, blocks, kind, g) < |blocks| && bm == blocks[BitmapBlock(geo, blocks, kind, g)]
      modifies this`blocks, this`counts, Repr()
      ensures Steady() && cache.timestamp <= old(cache.timestamp) + 5
      ensures counts == old(counts)[kind := Less(old(counts)[kind])]
      ensures blocks == Taken(geo, old(blocks), kind, g, i, Less(old(counts)[kind]))
    {
      hide Steady, SetBit, Get16, Get32, Put, Bit, Laid, BitIn, Bytes16, Bytes32;
      LaidShape(geo, blocks);
      BitIs(kind, g, i, bm);
      DescInBlock(geo, g);
      BitmapWhole(geo, blocks, kind, g);
      DescBelowBitmap(geo, blocks, kind, g, g);
      var gdNum := geo.descOffset + g * DESC / geo.bs;
      var gdAt := g * DESC % geo.bs;
      var r, gd := BlockRead(gdNum);
      r := BlockWrite(Get32(gd, gdAt + BitmapField(kind)), SetBit(bm, i));
      gd := Put(gd, gdAt + FreeField(kind), Bytes16(Less(Get16(gd, gdAt + FreeField(kind)))));
      r := BlockWrite(gdNum, gd);
      counts := counts[kind := Less(counts[kind])];
      var sbNum := SUPER_OFFSET / geo.bs;
      var sb;
      r, sb := BlockRead(sbNum);
      sb := Put(sb, SUPER_OFFSET % geo.bs + SuperField(kind), Bytes32(counts[kind]));
      r := BlockWrite(sbNum, sb);
    }

    method AllocateBlock() returns (r: int, num: nat, ghost g: nat, ghost i: nat)
      requires Steady() && Room(AllocCost())
      requires Valid()
      modifies this`blocks, this`counts, Repr()
      ensures Steady() && cache.timestamp <= old(cache.timestamp) + AllocCost()
      ensures Valid() && (r == 0 || r == -6)
      ensures r == -6 ==> blocks == old(blocks) && counts == old(counts) && FullBelow(BlockKind, geo.groups, 0)
      ensures r == 0 ==>
                && g < geo.groups && i < geo.blocksPerGroup && old(FullBelow(BlockKind, g, i))
                && !old(BitIn(geo, blocks, BlockKind, g, i))
      ensures r == 0 ==>
                num == BlockNumber(geo, g, i) && counts == old(counts)[BlockKind := Less(old(counts)[BlockKind])]
      ensures r == 0 ==> blocks == Taken(geo, old(blocks), BlockKind, g, i, Less(old(counts)[BlockKind]))
    {
      hide Steady, Laid, BitIn, Taken, FullBelow;
      var group, bit;
      r, group, bit := AllocateBit(BlockKind);
      g, i := group, bit;
      num := group * geo.blocksPerGroup + bit + geo.firstDataBlock;
    }

    method AllocateInode() returns (r: int, num: nat, ghost g: nat, ghost i: nat)
      requires Steady() && Room(AllocCost())
      requires Valid()
      modifies this`blocks, this`counts, Repr()
      ensures Steady() && cache.timestamp <= old(cache.timestamp) + AllocCost()
      ensures Valid() && (r == 0 || r == -6) && 0 < num
      ensures r == -6 ==> blocks == old(blocks) && counts == old(counts) && FullBelow(InodeKind, geo.groups, 0)
      ensures r == 0 ==>
                && g < geo.groups && i < geo.inodesPerGroup && old(FullBelow(InodeKind, g, i))
                && !old(BitIn(geo, blocks, InodeKind, g, i))
      ensures r == 0 ==>
                num == InodeNumber(geo, g, i) && counts == old(counts)[InodeKind := Less(old(counts)[InodeKind])]
      ensures r == 0 ==> blocks == Taken(geo, old(blocks), InodeKind, g, i, Less(old(counts)[InodeKind]))
    {
      hide Steady, Laid, BitIn, Taken, FullBelow;
      var group, bit;
      r, group, bit := AllocateBit(InodeKind);
      g, i := group, bit;
      num := group * geo.inodesPerGroup + bit + 1;
    }

    // ---------- inodes ----------

    /** ext2_read_inode. */
    method ReadInode(num: nat) returns (r: int, n: Inode)
      requires Steady() && Room(2)
      requires Tables(geo, blocks)
      modifies Repr()
      ensures Steady() && cache.timestamp <= old(cache.timestamp) + 2
      ensures r == 0 <==> num > 0 && GroupOf(geo, num) < geo.groups
      ensures r == 0 ==> n == InodeOf(geo, blocks, num)
    {
      hide Steady;
      n := NoInode();
      if num == 0 {
        return -1, n;
      }
      var index := num - 1;
      var (group, local) := (index / geo.inodesPerGroup, index % geo.inodesPerGroup);
      if group >= geo.groups {
        return -2, n;
      }
      DescInBlock(geo, group);
      SlotInTable(geo, blocks, num);
      var got, gd := BlockRead(geo.descOffset + group * DESC / geo.bs);
      var table := Get32(gd, group * DESC % geo.bs + TABLE_FIELD);
      var data;
      got, data := BlockRead(table + local * geo.inodeSize / geo.bs);
      n := Decoded(data, local * geo.inodeSize % geo.bs);
      r := 0;
    }

    function NoInode(): (n: Inode) { Inode(0, 0, 0, 0, 0, 0, 0, 0, 0, 0, 0, 0, Zeros15(), 0, 0, 0, 0) }

    function Zeros15(): (s: seq<nat>)
      ensures |s| == POINTERS && forall k :: 0 <= k < POINTERS ==> s[k] == 0
    {
      [0, 0, 0, 0, 0, 0, 0, 0, 0, 0, 0, 0, 0, 0, 0]
    }

    /** ext2_write_inode: only the 116 bytes of the inode's slot change. */
    method WriteInode(num: nat, n: Inode) returns (r: int)
      requires Steady() && Room(3)
      requires Tables(geo, blocks) && Fits(n)
      modifies this`blocks, Repr()
      ensures Steady() && cache.timestamp <= old(cache.timestamp) + 3
      ensures r == 0 <==> num > 0 && GroupOf(geo, num) < geo.groups
      ensures r != 0 ==> blocks == old(blocks)
      ensures r == 0 ==> blocks == WithInode(geo, old(blocks), num, n)
    {
      hide Steady;
      if num == 0 {
        return -1;
      }
      var index := num - 1;
      var (group, local) := (index / geo.inodesPerGroup, index % geo.inodesPerGroup);
      if group >= geo.groups {
        return -2;
      }
      DescInBlock(geo, group);
      SlotInTable(geo, blocks, num);
      var got, gd := BlockRead(geo.descOffset + group * DESC / geo.bs);
      var table := Get32(gd, group * DESC % geo.bs + TABLE_FIELD);
      var data;
      got, data := BlockRead(table + local * geo.inodeSize / geo.bs);
      data := Put(data, local * geo.inodeSize % geo.bs, Encoded(Words(n)));
      r := BlockWrite(table + local * geo.inodeSize / geo.bs, data);
    }

    // ---------- file data ----------

    /** The block of a file at an index below 12, allocated if it is missing. */
    method EnsureBlock(n: Inode, k: nat, ghost b0: Blocks, ghost p0: seq<nat>) returns (r: int, n': Inode)
      requires Steady() && Room(AllocCost())
      requires Writing(geo, blocks, counts, n, b0, p0) && k < DIRECT && |n.block| == POINTERS && geo.bs > 0
      requires WholeBlocks(blocks, geo.bs) && Laid(geo, blocks)
      modifies this`blocks, this`counts, Repr()
      ensures Steady() && cache.timestamp <= old(cache.timestamp) + AllocCost()
      ensures Writing(geo, blocks, counts, n', b0, p0) && |n'.block| == POINTERS && WholeBlocks(blocks, geo.bs)
      ensures Laid(geo, blocks)
      ensures r == 0 || r == -6
      ensures r == -6 ==>
                n' == n && blocks == old(blocks) && counts == old(counts) && FullBelow(BlockKind, geo.groups, 0)
      ensures r == -6 ==> n.block[k] == 0 && BlockKind in counts && counts[BlockKind] == 0
      ensures r == 0 ==> n'.block[k] != 0 && n' == n.(block := n'.block, blocks := n'.blocks)
      ensures r == 0 ==> OneTaken(n.block, old(counts), n'.block, counts, k)
      ensures SectorsCounted(geo.bs, n.blocks, old(counts), n'.blocks, counts)
      ensures forall q: nat :: Index(q, geo.bs) < DIRECT && old(ByteAt(blocks, geo.bs, n.block, q)).Some? ==>
                ByteAt(blocks, geo.bs, n'.block, q) == old(ByteAt(blocks, geo.bs, n.block, q))
    {
      hide Steady, BitIn, Taken, Laid, DataBlock, Owns, FullBelow, ByteAt, Writing, Index, At;
      ghost var b1 := blocks;
      n' := n;
      r := 0;
      WritingCounted(geo, blocks, counts, n, b0, p0);
      WritingShape(geo, blocks, counts, n, b0, p0);
      NoSectors(geo.bs, n, counts);
      if n.block[k] != 0 {
        return;
      }
      var num;
      ghost var g, i;
      r, num, g, i := AllocateBlock();
      if r != 0 {
        NoneFree();
        return;
      }
      SomeFree(geo, b1, BlockKind, g, i, old(counts)[BlockKind]);
      n' := n.(block := n.block[k := num], blocks := (n.blocks + geo.bs / 512) % 0x1_0000_0000);
      AllocWriting(geo, b1, old(counts), n, b0, p0, k, g, i, n'.blocks);
      WritingShape(geo, blocks, counts, n', b0, p0);
      forall q: nat | Index(q, geo.bs) < DIRECT && ByteAt(b1, geo.bs, n.block, q).Some?
        ensures ByteAt(blocks, geo.bs, n.block[k := num], q) == ByteAt(b1, geo.bs, n.block, q)
      {
        AllocBytes(geo, b1, blocks, n.block, k, num, q);
      }
    }

    lemma {:induction false} NoneFree()
      requires Laid(geo, blocks) && FullBelow(BlockKind, geo.groups, 0)
      requires BlockKind in counts && Counted(geo, blocks, BlockKind, counts[BlockKind])
      ensures counts[BlockKind] == 0
    {
      hide BitIn, Counted, Laid;
      AllBitsSet(geo, blocks, BlockKind, counts[BlockKind]);
    }

    /** Patches one block of the file. */
    method PatchBlock(n: Inode, pos: nat, piece: seq<Byte>, ghost b0: Blocks, ghost p0: seq<nat>) returns (r: int)
      requires Steady() && Room(2)
      requires Writing(geo, blocks, counts, n, b0, p0) && geo.bs > 0 && Index(pos, geo.bs) < DIRECT
      requires At(pos, geo.bs) + |piece| <= geo.bs
      requires |n.block| == POINTERS && n.block[Index(pos, geo.bs)] != 0 && WholeBlocks(blocks, geo.bs)
      modifies this`blocks, Repr()
      ensures Steady() && cache.timestamp <= old(cache.timestamp) + 2
      ensures Writing(geo, blocks, counts, n, b0, p0) && r == 0 && WholeBlocks(blocks, geo.bs)
      ensures forall q: nat :: Index(q, geo.bs) < DIRECT ==>
                ByteAt(blocks, geo.bs, n.block, q)
                == if pos <= q < pos + |piece| then Some(piece[q - pos]) else old(ByteAt(blocks, geo.bs, n.block, q))
    {
      hide Steady, Laid, ByteAt, Put, Index, At, Writing, Owns;
      ghost var b1 := blocks;
      WritingShape(geo, blocks, counts, n, b0, p0);
      OwnedInRange(geo, blocks, n.block, Index(pos, geo.bs));
      var num := n.block[Index(pos, geo.bs)];
      var got, buf := BlockRead(num);
      if got != 0 {
        assert false; // the block is in range; FailedReadErases says what a device fault would do
      }
      buf := Put(buf, At(pos, geo.bs), piece);
      StillWriting(geo, b1, counts, n, b0, p0, Index(pos, geo.bs), buf);
      WritingShape(geo, b1[num := buf], counts, n, b0, p0);
      forall q: nat | Index(q, geo.bs) < DIRECT
        ensures ByteAt(b1[num := buf], geo.bs, n.block, q)
                == if pos <= q < pos + |piece| then Some(piece[q - pos]) else ByteAt(b1, geo.bs, n.block, q)
      {
        PatchBytes(geo, b1, n.block, pos, piece, q);
      }
      r := BlockWrite(num, buf);
    }

    /** ext2_write_inode_data: writes into the first twelve blocks, allocating those that are missing. */
    method WriteInodeData(n: Inode, buf: seq<Byte>, offset: nat) returns (n': Inode, written: nat)
      requires Steady() && Room(Base(|buf|, AllocCost() + 2))
      requires Consistent(geo, blocks, counts) && Fits(n) && Owns(geo, blocks, n.block) && offset < 0x1_0000_0000
      modifies this`blocks, this`counts, Repr()
      ensures Steady() && cache.timestamp <= old(cache.timestamp) + Base(|buf|, AllocCost() + 2)
      ensures written <= |buf| && Writing(geo, blocks, counts, n', old(blocks), n.block)
      ensures Stored(geo.bs, old(blocks), n.block, blocks, n'.block, buf, offset, written)
      ensures n' == n.(block := n'.block, blocks := n'.blocks, size := if n.size < offset + written then offset + written else n.size)
      ensures geo.bs > 0 && Laid(geo, blocks)
      ensures written < |buf| ==> Index(offset + written, geo.bs) >= DIRECT || FullBelow(BlockKind, geo.groups, 0)
      ensures SectorsCounted(geo.bs, n.blocks, old(counts), n'.blocks, counts)
      ensures counts[BlockKind] + Lacking(geo.bs, n.block, offset, written) == old(counts)[BlockKind]
      ensures written == |buf| <==> HasSpace(geo.bs, n.block, offset, |buf|, old(counts)[BlockKind])
    {
      hide Steady, BitIn, Laid, Owns, FullBelow, Stored, Writing, Index, At, Base, AllocCost, Consistent, Fits,
        HasSpace, Took, Filled, SectorsCounted, Lacking;
      ghost var (b0, c0) := (blocks, counts);
      BaseNext(0, AllocCost() + 2);
      n', written := n, 0;
      WriteBegins(geo, blocks, counts, n, buf, offset);
      WritingShape(geo, blocks, counts, n', b0, n.block);
      WritingCounted(geo, blocks, counts, n, b0, n.block);
      ghost var next := Index(offset, geo.bs);
      TookNone(n.block, c0, next);
      FilledNone(geo.bs, offset, |buf|);
      NoSectors(geo.bs, n, counts);
      var stop := false;
      while written < |buf| && !stop
        invariant written <= |buf| && Writing(geo, blocks, counts, n', b0, n.block)
        invariant n' == n.(block := n'.block, blocks := n'.blocks)
        invariant Laid(geo, blocks) && geo.bs > 0 && Stored(geo.bs, b0, n.block, blocks, n'.block, buf, offset, written)
        invariant stop ==> Index(offset + written, geo.bs) >= DIRECT || FullBelow(BlockKind, geo.groups, 0)
        invariant stop ==> written < |buf| && !HasSpace(geo.bs, n.block, offset, |buf|, c0[BlockKind])
        invariant BlockKind in c0 && Took(n.block, c0, n'.block, counts, Index(offset, geo.bs), next)
        invariant Filled(geo.bs, offset, written, |buf|, next) && SectorsCounted(geo.bs, n.blocks, c0, n'.blocks, counts)
        invariant Steady()
        invariant cache.timestamp <= old(cache.timestamp) + Base(if stop then written + 1 else written, AllocCost() + 2)
        decreases |buf| - written, !stop
      {
        var take;
        BaseNext(written, AllocCost() + 2);
        BaseOrder(written + 1, |buf|, AllocCost() + 2);
        ghost var (now, was) := (n'.blocks, counts);
        stop, n', take, next := WriteNext(n', buf, offset, written, b0, n.block, c0, next);
        SectorsStep(geo.bs, n.blocks, c0, now, was, n'.blocks, counts);
        BaseOrder(written + 1, if stop then written + 1 else written + take, AllocCost() + 2);
        written := written + take;
      }
      BaseOrder(if stop then written + 1 else written, |buf|, AllocCost() + 2);
      TookLacking(geo.bs, n.block, c0, n'.block, counts, offset, written, |buf|, next);
      if written == |buf| {
        AllWritten(geo.bs, b0, n.block, blocks, n'.block, buf, offset, c0, counts, next);
      }
      WriteEnds(geo, blocks, counts, n', buf, offset, written, b0, n.block);
      var newSize := offset + written;
      if newSize > n'.size {
        n' := n'.(size := newSize);
      }
    }

    /** One round of the writing loop. */
    method WriteNext(n: Inode, buf: seq<Byte>, offset: nat, done: nat, ghost b0: Blocks, ghost p0: seq<nat>,
                     ghost c0: map<Kind, nat>, ghost k: nat)
      returns (stop: bool, n': Inode, take: nat, ghost next: nat)
      requires Steady() && Room(AllocCost() + 2)
      requires done < |buf| && Writing(geo, blocks, counts, n, b0, p0)
      requires geo.bs > 0 && Stored(geo.bs, b0, p0, blocks, n.block, buf, offset, done)
      requires BlockKind in c0 && Took(p0, c0, n.block, counts, Index(offset, geo.bs), k)
      requires Filled(geo.bs, offset, done, |buf|, k)
      modifies this`blocks, this`counts, Repr()
      ensures Steady() && cache.timestamp <= old(cache.timestamp) + AllocCost() + 2
      ensures done + take <= |buf| && (stop <==> take == 0) && Writing(geo, blocks, counts, n', b0, p0)
      ensures n' == n.(block := n'.block, blocks := n'.blocks)
      ensures Laid(geo, blocks) && Stored(geo.bs, b0, p0, blocks, n'.block, buf, offset, done + take)
      ensures stop ==> Index(offset + done + take, geo.bs) >= DIRECT || FullBelow(BlockKind, geo.groups, 0)
      ensures Took(p0, c0, n'.block, counts, Index(offset, geo.bs), next)
      ensures SectorsCounted(geo.bs, n.blocks, old(counts), n'.blocks, counts)
      ensures Filled(geo.bs, offset, done + take, |buf|, next)
      ensures stop ==> !HasSpace(geo.bs, p0, offset, |buf|, c0[BlockKind])
    {
      hide Steady, BitIn, Laid, Owns, ByteAt, FullBelow, Stored, Writing, Index, At, Consistent, Fits, HasSpace, Took,
        Filled, OneTaken, SectorsCounted;
      WritingShape(geo, blocks, counts, n, b0, p0);
      WritingCounted(geo, blocks, counts, n, b0, p0);
      NoSectors(geo.bs, n, counts);
      var pos := offset + done;
      AtBelow(pos, geo.bs);
      n', take, next := n, 0, k;
      FilledNext(geo.bs, offset, done, |buf|, k);
      if Index(pos, geo.bs) >= DIRECT {
        PastDirect(geo.bs, p0, offset, done, |buf|, c0[BlockKind]);
        return true, n', take, next;
      }
      ghost var b1 := blocks;
      var r;
      r, n' := EnsureBlock(n, Index(pos, geo.bs), b0, p0);
      WritingShape(geo, blocks, counts, n', b0, p0);
      if r != 0 {
        NoBlockLeft(geo.bs, p0, n.block, offset, done, |buf|, c0, counts, k);
        return true, n', take, next;
      }
      TookNext(p0, c0, n.block, old(counts), n'.block, counts, Index(offset, geo.bs), k);
      next := k + 1;
      ghost var b2 := blocks;
      take := geo.bs - At(pos, geo.bs);
      if take > |buf| - done {
        take := |buf| - done;
      }
      r := PatchBlock(n', pos, buf[done..done + take], b0, p0);
      WritingShape(geo, blocks, counts, n', b0, p0);
      StoredStep(geo.bs, b0, p0, b1, n.block, b2, blocks, n'.block, buf, offset, done, take);
      FilledStep(geo.bs, offset, done, take, |buf|, k);
      stop := false;
    }

    lemma {:induction false} AtBelow(pos: nat, bs: nat)
      requires bs > 0
      ensures At(pos, bs) < bs
    {
      DivMod(pos, bs);
    }

    /** ext2_read_inode_data. */
    method ReadInodeData(n: Inode, len: nat, offset: nat) returns (out: seq<Byte>)
      requires Steady() && Room(Base(Asked(n.size, len, offset), 4))
      requires WholeBlocks(blocks, geo.bs) && geo.Sane() && Fits(n) && offset < POSITIONS
      modifies Repr()
      ensures Steady() && cache.timestamp <= old(cache.timestamp) + Base(Asked(n.size, len, offset), 4)
      ensures ReadsTo(blocks, geo.bs, n.block, Asked(n.size, len, offset), offset, out)
    {
      hide Steady, Lookup, ByteAt, Index, At, Base, ReadSoFar, ReadsTo, Asked;
      BaseNext(0, 4);
      out := [];
      AskedCases(n.size, len, offset);
      ReadBegins(blocks, geo.bs, n.block, offset);
      if offset >= n.size {
        ReadEnds(blocks, geo.bs, n.block, 0, offset, out);
        return;
      }
      var bytesToRead: nat := len % POSITIONS;
      if (offset + bytesToRead) % POSITIONS > n.size {
        bytesToRead := n.size - offset;
      }
      var cur: nat := offset;
      while |out| < bytesToRead
        invariant |out| <= bytesToRead && cur < POSITIONS && cur == (offset + |out|) % POSITIONS
        invariant ReadSoFar(blocks, geo.bs, n.block, offset, out)
        invariant Steady() && cache.timestamp <= old(cache.timestamp) + Base(|out|, 4)
        decreases bytesToRead - |out|
      {
        AtBelow(cur, geo.bs);
        BaseNext(|out|, 4);
        BaseOrder(|out| + 1, bytesToRead, 4);
        var r, piece := ReadPiece(n.block, cur, bytesToRead - |out|);
        if r != 0 {
          ReadStep(blocks, geo.bs, n.block, cur, 1, 0);
          ReadEnds(blocks, geo.bs, n.block, bytesToRead, offset, out);
          return;
        }
        ReadMore(blocks, geo.bs, n.block, offset, out, cur, Lookup(blocks, geo.bs, n.block, Index(cur, geo.bs)).1, piece);
        BaseOrder(|out| + 1, |out + piece|, 4);
        out := out + piece;
        cur := (cur + |piece|) % POSITIONS;
      }
      ReadEnds(blocks, geo.bs, n.block, bytesToRead, offset, out);
    }

    /** The bytes of one block from a position on, at most max of them. */
    method ReadPiece(ptrs: seq<nat>, pos: nat, max: nat) returns (r: int, piece: seq<Byte>)
      requires Steady() && Room(4)
      requires WholeBlocks(blocks, geo.bs) && geo.Sane() && |ptrs| == POINTERS && pos < 0x1_0000_0000 && 0 < max
      requires At(pos, geo.bs) < geo.bs
      modifies Repr()
      ensures Steady() && cache.timestamp <= old(cache.timestamp) + 4
      ensures var (status, num) := Lookup(blocks, geo.bs, ptrs, Index(pos, geo.bs));
              if status == 0 && 0 < num < |blocks| then
                r == 0 && 0 < |piece| <= max && At(pos, geo.bs) + |piece| <= geo.bs
                && piece == blocks[num][At(pos, geo.bs)..At(pos, geo.bs) + |piece|]
              else r != 0
    {
      hide Steady, Lookup, At;
      piece := [];
      IndexBelow(pos, geo.bs);
      var num;
      r, num := GetBlockNum(ptrs, Index(pos, geo.bs));
      if r != 0 || num == 0 {
        return -1, piece;
      }
      var data;
      r, data := BlockRead(num);
      if r != 0 {
        return;
      }
      var copySize := geo.bs - At(pos, geo.bs);
      if copySize > max {
        copySize := max;
      }
      piece := data[At(pos, geo.bs)..At(pos, geo.bs) + copySize];
    }

    lemma {:induction false} IndexBelow(pos: nat, bs: nat)
      requires bs > 0
      ensures Index(pos, bs) <= pos
    {
      DivMod(pos, bs);
      Product(Index(pos, bs), Index(pos, bs), 1, bs);
    }

    // ---------- directories ----------

    /** ext2_find_file_in_dir. */
    method FindFileInDir(n: Inode, name: Name) returns (r: int, ino: nat)
      requires Steady() && Room(DIRECT)
      requires Fits(n) && (n.mode / 0x1000 == 4 && n.size > 0 ==> DirOk(blocks, geo.bs, n))
      modifies Repr()
      ensures Steady() && cache.timestamp <= old(cache.timestamp) + DIRECT
      ensures (r, if r == 0 then ino else 0) == FoundInDir(blocks, geo.bs, n, name)
    {
      hide Steady, FindIn, Tiled;
      ino := 0;
      if n.mode / 0x1000 != DIRECTORY {
        return -2, ino;
      }
      if n.size == 0 {
        return -3, ino;
      }
      var readOffset: nat := 0;
      var k := 0;
      while k < DIRECT && readOffset < n.size && n.block[k] != 0
        invariant k <= DIRECT && readOffset == Base(k, geo.bs)
        invariant FindDir(blocks, geo.bs, n, 0, name) == FindDir(blocks, geo.bs, n, k, name)
        invariant Steady() && cache.timestamp <= old(cache.timestamp) + k
      {
        WholeInSize(k, geo.bs, n.size);
        var got, data := BlockRead(n.block[k]);
        var found;
        found, ino := ScanBlock(data, name, readOffset, n.size);
        if found {
          return 0, ino;
        }
        readOffset := readOffset + geo.bs;
        k := k + 1;
      }
      r := -5;
    }

    /** The scan of one directory block, which ends inside the directory's size. */
    method ScanBlock(data: Block, name: Name, readOffset: nat, size: nat) returns (found: bool, ino: nat)
      requires Tiled(data, 0) && readOffset + |data| <= size
      ensures FindIn(data, 0, name) == if found then Some(ino) else None
    {
      hide Matches, Ino, RecLen;
      var offset := 0;
      ino := 0;
      while offset < |data| && readOffset + offset < size
        invariant 0 <= offset <= |data| && Tiled(data, offset) && FindIn(data, 0, name) == FindIn(data, offset, name)
        decreases |data| - offset
      {
        LengthsFit(data, offset);
        if Matches(data, offset, name) {
          return true, Ino(data, offset);
        }
        offset := offset + RecLen(data, offset);
      }
      found := false;
    }

    // ---------- creating a file ----------

    /** The path is "/name": 0, or the code of what is wrong with it. */
    method CheckPath(path: Name) returns (r: int)
      ensures r == if path == [] || path[0] != 47 then -2 else if |path| == 1 || 47 in path[1..] then -3 else 0
    {
      if path == [] || path[0] != SLASH {
        return -2;
      }
      if |path| == 1 {
        return -3;
      }
      var i := 1;
      while i < |path|
        invariant 1 <= i <= |path| && SLASH !in path[1..i]
      {
        if path[i] == SLASH {
          assert path[1..][i - 1] == SLASH;
          return -3;
        }
        assert path[1..i + 1] == path[1..i] + [path[i]];
        i := i + 1;
      }
      assert path[1..i] == path[1..];
      r := 0;
    }

    /** Takes an inode bit and writes the inode of an empty file. */
    method NewNode(mode: nat) returns (r: int, num: nat)
      requires Steady() && Room(AllocCost() + 3)
      requires Consistent(geo, blocks, counts) && RootReady(geo, blocks) && mode < 0x1_0000
      modifies this`blocks, this`counts, Repr()
      ensures Steady() && cache.timestamp <= old(cache.timestamp) + AllocCost() + 3
      ensures Consistent(geo, blocks, counts) && Laid(geo, blocks) && (r == 0 || r == -6) && 0 < num
      ensures r == -6 ==> blocks == old(blocks) && counts == old(counts) && FullBelow(InodeKind, geo.groups, 0)
      ensures r == 0 ==> num < 0x1_0000_0000 && num != ROOT && OneInode(geo, old(blocks), blocks, num, NewInode(mode))
                         && DataBut(geo, old(blocks), blocks, 0) && SamePlaces(geo, old(blocks), blocks)
                         && SameBlockBits(geo, old(blocks), blocks)
                         && counts == old(counts)[InodeKind := Less(old(counts)[InodeKind])]
    {
      hide Steady, Laid, BitIn, Tables, InodeOf, Counted, FreeAreData, Taken, WithInode, FullBelow, SamePlaces,
        DataBlock, RootReady, OneInode, SameBlockBits;
      ghost var (b0, c0) := (blocks, counts);
      ReadyShape(geo, blocks);
      ghost var g, i;
      r, num, g, i := AllocateInode();
      if r != 0 {
        return;
      }
      InodeAdded(geo, b0, c0, g, i, NewInode(mode));
      r := WriteInode(num, NewInode(mode));
    }

    /** The root directory has no first block: a block is taken for it, but a blank one holds no record to split. */
    method FirstBlock(ghost b0: Blocks, ghost num: nat, ghost mode: nat) returns (r: int)
      requires Steady() && Room(AllocCost() + 1)
      requires RootReady(geo, b0) && mode < 0x1_0000 && OneInode(geo, b0, blocks, num, NewInode(mode)) && num != ROOT
      requires DataBut(geo, b0, blocks, 0) && SamePlaces(geo, b0, blocks) && Consistent(geo, blocks, counts)
      requires FreeAreBlank(geo, blocks)
      modifies this`blocks, this`counts, Repr()
      ensures Steady() && cache.timestamp <= old(cache.timestamp) + AllocCost() + 1
      ensures Consistent(geo, blocks, counts) && Leaked(geo, b0, blocks, num, mode)
      ensures r == -8 || r == -10
    {
      hide Steady, Laid, BitIn, Tables, InodeOf, Counted, FreeAreData, Taken, FullBelow, SamePlaces, DataBlock,
        RootReady, OneInode, DataBut, Leaked;
      ghost var (b2, c2) := (blocks, counts);
      ReadyShape(geo, b0);
      var num0;
      ghost var g, i;
      r, num0, g, i := AllocateBlock();
      if r != 0 {
        LeakedFrom(geo, b0, blocks, num, mode);
        return -8;
      }
      TakenBlockAfter(geo, b0, b2, c2, num, NewInode(mode), g, i);
      LeakedFrom(geo, b0, blocks, num, mode);
      var got, block := BlockRead(num0);
      if RecLen(block, 0) != 0 {
        assert false; // a blank block holds no record
      }
      r := -10;
    }

    /** Adds the record of the new file to the root directory's first block. */
    method AddRecord(ghost b0: Blocks, rootNode: Inode, num: nat, ghost mode: nat, name: Name) returns (r: int)
      requires Steady() && Room(5)
      requires RootReady(geo, b0) && mode < 0x1_0000 && OneInode(geo, b0, blocks, num, NewInode(mode)) && num != ROOT
      requires num < 0x1_0000_0000
      requires DataBut(geo, b0, blocks, 0) && SamePlaces(geo, b0, blocks) && Consistent(geo, blocks, counts)
      requires rootNode == InodeOf(geo, b0, ROOT) && rootNode.block[0] != 0 && |Copied(name)| < NAME_LIMIT
      requires DirOk(b0, geo.bs, rootNode)
      modifies this`blocks, Repr()
      ensures Steady() && cache.timestamp <= old(cache.timestamp) + 5
      ensures Consistent(geo, blocks, counts) && (r == 0 || r == -11)
      ensures r == 0 ==> Created(geo, b0, blocks, name, num, mode)
      ensures r == -11 ==> blocks == old(blocks) && NoRoom(geo, b0, |Copied(name)|)
    {
      hide Steady, Laid, Tables, InodeOf, Consistent, SamePlaces, DataBlock, FindDir, DirOk, Created, WithInode,
        Inserted, HasRoom, Tiled, FindIn;
      ghost var b2 := blocks;
      TablesLaid(geo, blocks);
      LaidShape(geo, blocks);
      FirstRootBlock(geo, b0, b2);
      var got, block := BlockRead(rootNode.block[0]);
      var ok, block' := InsertRecord(block, num, name);
      if !ok {
        return -11;
      }
      TiledInserted(block, block', num, name);
      RecordAdded(geo, b0, b2, counts, num, mode, name, block');
      r := BlockWrite(rootNode.block[0], block');
      r := WriteInode(ROOT, rootNode);
    }

    /** ext2_create_file. */
    method CreateFile(path: Name, mode: nat) returns (r: int, num: nat)
      requires Steady() && Room(CreateCost())
      requires Consistent(geo, blocks, counts) && RootReady(geo, blocks) && mode < 0x1_0000
      requires (path != [] ==> |Copied(path[1..])| < NAME_LIMIT)
      requires InodeOf(geo, blocks, ROOT).block[0] == 0 ==> FreeAreBlank(geo, blocks)
      modifies this`blocks, this`counts, Repr()
      ensures Steady() && cache.timestamp <= old(cache.timestamp) + CreateCost()
      ensures Consistent(geo, blocks, counts)
      ensures r == -2 <==> path == [] || path[0] != 47
      ensures r == -3 <==> path != [] && path[0] == 47 && (|path| == 1 || 47 in path[1..])
      ensures r == -2 || r == -3 ==> blocks == old(blocks) && counts == old(counts)
      ensures r != -2 && r != -3 ==> 0 < |path| && CreateOutcome(old(blocks), old(counts), path[1..], mode, r, num)
    {
      hide Steady, Consistent, RootReady, InodeOf, FreeAreBlank, CreateOutcome;
      num := 0;
      r := CheckPath(path);
      if r == 0 {
        r, num := CreateNamed(path[1..], mode);
        OutcomeCodes(old(blocks), old(counts), path[1..], mode, r, num);
      }
    }

    /** What the creation of a well-formed name ends in: it exists already (-5); no inode is free (-6); an inode was
        taken in vain because the root has no first block (-8, -10) or no room in it (-11); or it was created (0). */
    ghost predicate CreateOutcome(b0: Blocks, c0: map<Kind, nat>, name: Name, mode: nat, r: int, num: nat)
      reads this
    {
      && RootReady(geo, b0) && mode < 0x1_0000
      && var n := InodeOf(geo, b0, ROOT);
         && (r == -5 <==> FindDir(b0, geo.bs, n, 0, name).Some?)
         && (r == -5 || r == -6 ==> blocks == b0 && counts == c0)
         && (r == -6 ==> Laid(geo, blocks) && FullBelow(InodeKind, geo.groups, 0))
         && (r == -8 || r == -10 ==> n.block[0] == 0)
         && (r == -11 ==> NoRoom(geo, b0, |Copied(name)|))
         && (r == -8 || r == -10 || r == -11 ==> Leaked(geo, b0, blocks, num, mode))
         && (r == 0 ==> Created(geo, b0, blocks, name, num, mode))
         && (r == 0 ==> FindDir(blocks, geo.bs, n, 0, name) == if |name| <= 255 then Some(num) else None)
         && (r == 0 || r == -5 || r == -6 || r == -8 || r == -10 || r == -11)
    }

    lemma {:induction false} OutcomeCodes(b0: Blocks, c0: map<Kind, nat>, name: Name, mode: nat, r: int, num: nat)
      requires CreateOutcome(b0, c0, name, mode, r, num)
      ensures r != -2 && r != -3
    {
    }

    method CreateNamed(name: Name, mode: nat) returns (r: int, num: nat)
      requires Steady() && Room(CreateCost())
      requires Consistent(geo, blocks, counts) && RootReady(geo, blocks) && mode < 0x1_0000 && name != []
      requires |Copied(name)| < NAME_LIMIT
      requires InodeOf(geo, blocks, ROOT).block[0] == 0 ==> FreeAreBlank(geo, blocks)
      modifies this`blocks, this`counts, Repr()
      ensures Steady() && cache.timestamp <= old(cache.timestamp) + CreateCost()
      ensures Consistent(geo, blocks, counts) && CreateOutcome(old(blocks), old(counts), name, mode, r, num)
    {
      hide Steady, Laid, BitIn, Tables, InodeOf, FindDir, DirOk, Created, Leaked, FullBelow, FreeAreBlank, NoRoom,
        RootReady, DataBut, OneInode, SamePlaces,
        SameBlockBits, Counted, FreeAreData;
      num := 0;
      ghost var b0 := blocks;
      ReadyShape(geo, blocks);
      var rootNode;
      r, rootNode := ReadInode(ROOT);
      var existing;
      r, existing := FindFileInDir(rootNode, name);
      if r == 0 {
        return -5, num;
      }
      r, num := NewNode(mode);
      if r != 0 {
        return -6, num;
      }
      if rootNode.block[0] == 0 {
        StillBlank(geo, b0, blocks);
        r := FirstBlock(b0, num, mode);
        return;
      }
      LeakedFrom(geo, b0, blocks, num, mode);
      r := AddRecord(b0, rootNode, num, mode, name);
      if r == 0 {
        CreatedFound(geo, b0, blocks, name, num, mode);
      }
    }
  }
}
