/** ext2 as it lies on the disk, in numbers: the bytes of descriptors, inodes and directory records, and where
    inodes and blocks are. The other modules use names for these numbers. */
module Ext2Format {
  import opened Utils
  import opened Arith
  import opened Ext2Bytes
  import opened Ext2Trees
  import opened Ext2Layout
  import opened Ext2Inodes
  import opened Ext2Data
  import opened Ext2Dirs
  import opened Ext2Create

  /** Little-endian fields, byte by byte. */
  function Half16(b: Block, at: nat): nat
    requires at + 2 <= |b|
  {
    (b[at] as nat) + 0x100 * (b[at + 1] as nat)
  }

  function Word32(b: Block, at: nat): nat
    requires at + 4 <= |b|
  {
    (b[at] as nat) + 0x100 * (b[at + 1] as nat) + 0x1_0000 * (b[at + 2] as nat) + 0x100_0000 * (b[at + 3] as nat)
  }

  lemma {:induction false} Fields(b: Block)
    ensures forall at: nat :: at + 2 <= |b| ==> Get16(b, at) == Half16(b, at)
    ensures forall at: nat :: at + 4 <= |b| ==> Get32(b, at) == Word32(b, at)
  {
  }

  // ---------- superblock, descriptors, bitmaps ----------

  /** A group's descriptor has 32 bytes: the blocks of the two bitmaps and of the inode table, then the free counts. */
  lemma {:induction false} DescriptorBytes(geo: Geometry, blocks: Blocks, g: nat)
    requires Shape(geo, blocks) && g < geo.groups
    ensures geo.descOffset + g * 32 / geo.bs < |blocks| && g * 32 % geo.bs + 32 <= geo.bs
    ensures var (b, at) := (blocks[geo.descOffset + g * 32 / geo.bs], g * 32 % geo.bs);
            && |b| == geo.bs
            && BitmapBlock(geo, blocks, BlockKind, g) == Word32(b, at)
            && BitmapBlock(geo, blocks, InodeKind, g) == Word32(b, at + 4)
            && Table(geo, blocks, g) == Word32(b, at + 8)
            && FreeCount(geo, blocks, BlockKind, g) == Half16(b, at + 12)
            && FreeCount(geo, blocks, InodeKind, g) == Half16(b, at + 14)
  {
    hide Get16, Get32, Half16, Word32;
    DescInBlock(geo, g);
    Fields(blocks[geo.DescBlock(g)]);
  }

  /** The superblock begins at byte 1024 of the volume and has the free counts at 12 and 16. */
  lemma {:induction false} SuperBytes(geo: Geometry, blocks: Blocks)
    requires Shape(geo, blocks)
    ensures 1024 / geo.bs < |blocks| && 1024 % geo.bs + 20 <= geo.bs == |blocks[1024 / geo.bs]|
    ensures SuperCount(geo, blocks, BlockKind) == Word32(blocks[1024 / geo.bs], 1024 % geo.bs + 12)
    ensures SuperCount(geo, blocks, InodeKind) == Word32(blocks[1024 / geo.bs], 1024 % geo.bs + 16)
  {
    hide Get16, Get32, Half16, Word32;
    DescInBlock(geo, 0);
    Fields(blocks[geo.SuperBlock()]);
  }

  /** Bits are counted from the lowest of the first byte. */
  lemma {:induction false} BitmapBits(bm: Block, i: nat)
    requires i < 8 * |bm|
    ensures Bit(bm, i) <==> BitSet(bm[i / 8], i % 8)
  {
  }

  /** The bits of a group's bitmaps stand for successive blocks and inodes; the first ones are the first data block
      and inode 1. */
  lemma {:induction false} BitNumbers(geo: Geometry, g: nat, i: nat)
    requires geo.Sane() && i < geo.inodesPerGroup
    ensures BlockNumber(geo, g, i) == geo.firstDataBlock + g * geo.blocksPerGroup + i
    ensures InodeNumber(geo, g, i) == 1 + g * geo.inodesPerGroup + i
    ensures GroupOf(geo, InodeNumber(geo, g, i)) == g && (InodeNumber(geo, g, i) - 1) % geo.inodesPerGroup == i
  {
    DivUnique(g * geo.inodesPerGroup + i, geo.inodesPerGroup, g, i);
  }

  // ---------- inodes ----------

  /** The fields of an inode and their offsets. */
  lemma {:induction false} InodeBytes(b: Block, at: nat)
    requires at + 116 <= |b|
    ensures var n := Decoded(b, at);
            && n.mode == Half16(b, at) && n.uid == Half16(b, at + 2) && n.size == Word32(b, at + 4)
            && n.atime == Word32(b, at + 8) && n.ctime == Word32(b, at + 12) && n.mtime == Word32(b, at + 16)
            && n.dtime == Word32(b, at + 20) && n.gid == Half16(b, at + 24) && n.links == Half16(b, at + 26)
            && n.blocks == Word32(b, at + 28) && n.flags == Word32(b, at + 32) && n.osd1 == Word32(b, at + 36)
            && |n.block| == 15 && (forall k: nat :: k < 15 ==> n.block[k] == Word32(b, at + 40 + 4 * k))
            && n.generation == Word32(b, at + 100) && n.fileAcl == Word32(b, at + 104)
            && n.dirAcl == Word32(b, at + 108) && n.faddr == Word32(b, at + 112)
  {
    hide Get16, Get32, Half16, Word32;
    Fields(b);
  }

  /** Inode num is the ((num - 1) mod n)-th of its group's table, where a group has n inodes. */
  lemma {:induction false} InodePlace(geo: Geometry, blocks: Blocks, num: nat)
    requires Tables(geo, blocks) && num > 0 && (num - 1) / geo.inodesPerGroup < geo.groups
    ensures var at := (num - 1) % geo.inodesPerGroup * geo.inodeSize;
            && SlotBlock(geo, blocks, num) == Table(geo, blocks, (num - 1) / geo.inodesPerGroup) + at / geo.bs
            && SlotAt(geo, num) == at % geo.bs
  {
  }

  /** A new file's inode has its mode and one link, and is zero otherwise. */
  lemma {:induction false} NewInodeFields(mode: nat)
    requires mode < 0x1_0000
    ensures NewInode(mode).mode == mode && NewInode(mode).links == 1
    ensures var ws := Words(NewInode(mode));
            forall k: nat :: k < 29 ==> ws[k] == if k == 0 then mode else if k == 6 then 0x1_0000 else 0
  {
  }

  // ---------- block pointers ----------

  /** The first twelve pointers of an inode name data blocks; the last three name pointer blocks. With blocks of
      1024 bytes these hold 256 pointers. */
  lemma {:induction false} PointerPlaces(blocks: Blocks, ptrs: seq<nat>, k: nat)
    requires WholeBlocks(blocks, 1024) && |ptrs| == 15 && k < 268
    ensures k < 12 ==> Lookup(blocks, 1024, ptrs, k) == (0, ptrs[k])
    ensures 12 <= k && 0 < ptrs[12] < |blocks| ==>
              Lookup(blocks, 1024, ptrs, k) == (0, Word32(blocks[ptrs[12]], 4 * (k - 12)))
  {
    hide Get32, Word32;
    if 12 <= k && 0 < ptrs[12] < |blocks| {
      assert Power(256, 1) == 256 && Power(256, 0) == 1;
      Fields(blocks[ptrs[12]]);
      assert Descend(blocks, 1024, ptrs[12], 1, k - 12) == (0, Pointer(blocks, ptrs[12], k - 12));
    }
  }

  /** Byte pos of a file is byte pos mod bs of the block with index pos div bs. */
  lemma {:induction false} FilePlace(blocks: Blocks, bs: nat, ptrs: seq<nat>, pos: nat)
    requires bs > 0 && WholeBlocks(blocks, bs) && |ptrs| == 15
    ensures ByteAt(blocks, bs, ptrs, pos)
            == var (r, num) := Lookup(blocks, bs, ptrs, pos / bs);
               if r == 0 && 0 < num < |blocks| then Some(blocks[num][pos % bs]) else None
  {
    hide Lookup;
    DivMod(pos, bs);
  }

  // ---------- directories ----------

  /** A record: inode, length, length of the name, and from byte 8 on the name. */
  lemma {:induction false} RecordBytes(b: Block, off: nat, name: Name)
    requires off + 8 <= |b|
    ensures Ino(b, off) == Word32(b, off) && RecLen(b, off) == Half16(b, off + 4) && NameLen(b, off) == b[off + 6]
    ensures RecordOk(b, off) ==>
              (Matches(b, off, name) <==>
                 Word32(b, off) != 0 && b[off + 6] > 0 && b[off + 6] == |name| && b[off + 8..off + 8 + |name|] == name)
  {
    hide Get16, Get32, Half16, Word32;
    Fields(b);
  }

  /** A new record takes 8 bytes and the name, rounded up to a multiple of 4. */
  lemma {:induction false} RecordSize(nameLen: nat)
    ensures Needed(nameLen) % 4 == 0 && 8 + nameLen <= Needed(nameLen) < 8 + nameLen + 4
  {
  }

  /** Of a name as many bytes are copied as its length modulo 65536 says. */
  lemma {:induction false} BytesCopied(name: Name)
    ensures Copied(name) == name[..|name| % 0x1_0000]
  {
  }

  /** Files are created in inode 2, whose mode has type 4. */
  lemma {:induction false} RootIsDirectory(geo: Geometry, blocks: Blocks)
    requires RootReady(geo, blocks)
    ensures 1 / geo.inodesPerGroup < geo.groups && InodeOf(geo, blocks, 2).mode / 0x1000 == 4
  {
    hide InodeOf;
  }

  /** Only directories are searched: bits 12 to 15 of the mode are 4, which is bit 14 alone. */
  lemma {:induction false} OnlyDirectories(blocks: Blocks, bs: nat, n: Inode, name: Name)
    requires n.mode < 0x1_0000 && (n.mode / 0x1000 == 4 && n.size > 0 ==> DirOk(blocks, bs, n))
    ensures FoundInDir(blocks, bs, n, name).0 == -2
            <==> !(BitSet(n.mode, 14) && !BitSet(n.mode, 12) && !BitSet(n.mode, 13) && !BitSet(n.mode, 15))
  {
    hide FindDir, DirOk, BitSet;
    var kind := n.mode / 0x1000;
    assert Pow2(12) == 0x1000;
    DivMod(n.mode, 0x1000);
    BitsJoin(kind, n.mode % 0x1000, 12, 12);
    BitsJoin(kind, n.mode % 0x1000, 12, 13);
    BitsJoin(kind, n.mode % 0x1000, 12, 14);
    BitsJoin(kind, n.mode % 0x1000, 12, 15);
    FourBits(kind);
  }

  lemma {:induction false} FourBits(x: nat)
    requires x < 16
    ensures x == 4 <==> BitSet(x, 2) && !BitSet(x, 0) && !BitSet(x, 1) && !BitSet(x, 3)
  {
    assert BitSet(x, 1) == BitSet(x / 2, 0);
    assert BitSet(x, 2) == BitSet(x / 2, 1) == BitSet(x / 2 / 2, 0);
    assert BitSet(x, 3) == BitSet(x / 2, 2) == BitSet(x / 2 / 2, 1) == BitSet(x / 2 / 2 / 2, 0);
  }

  /** For example a root with mode 0x41ED whose one block has a record for "a" with inode 12: the name is found, and
      under the mode 0x81A4 of a regular file it is not looked for. */
  lemma {:induction false} RootSearched(blocks: Blocks, n: Inode)
    requires WholeBlocks(blocks, 1024) && |blocks| == 10 && n.mode == 0x41ED && n.size == 1024
    requires n.block == [9, 0, 0, 0, 0, 0, 0, 0, 0, 0, 0, 0, 0, 0, 0]
    requires blocks[9][..9] == [12, 0, 0, 0, 0, 4, 1, 1, 97]
    ensures DirOk(blocks, 1024, n) && FoundInDir(blocks, 1024, n, [97]) == (0, 12)
    ensures FoundInDir(blocks, 1024, n.(mode := 0x81A4), [97]) == (-2, 0)
  {
    var b := blocks[9];
    var s := b[..9];
    assert b[0] == s[0] && b[1] == s[1] && b[2] == s[2] && b[3] == s[3] && b[4] == s[4] && b[5] == s[5];
    assert b[6] == s[6] && b[8] == s[8];
    assert Ino(b, 0) == 12 && RecLen(b, 0) == 1024 && NameLen(b, 0) == 1;
    assert Tiled(b, 1024);
    assert b[8..9] == [97];
    assert FindIn(b, 0, [97]) == Some(12);
    assert FindDir(blocks, 1024, n, 0, [97]) == Some(12);
  }
}
