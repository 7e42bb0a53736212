/** ext2 inodes: their 116 bytes on disk, and the slots of the inode tables. */
module Ext2Inodes {
  import opened Utils
  import opened Arith
  import opened Ext2Bytes
  import opened Ext2Trees
  import opened Ext2Layout

  const INODE_BYTES: nat := 116
  const WORDS: nat := 29
  const ROOT: nat := 2
  const DIRECTORY: nat := 4  // the type nibble of a mode

  datatype Inode = Inode(mode: nat, uid: nat, size: nat, atime: nat, ctime: nat, mtime: nat, dtime: nat, gid: nat, links: nat,
                         blocks: nat, flags: nat, osd1: nat, block: seq<nat>, generation: nat, fileAcl: nat, dirAcl: nat, faddr: nat)

  predicate Half(v: nat) { v < 0x1_0000 }

  predicate Full(v: nat) { v < 0x1_0000_0000 }

  /** Every field fits its width. */
  predicate Fits(n: Inode) {
    && Half(n.mode) && Half(n.uid) && Half(n.gid) && Half(n.links)
    && Full(n.size) && Full(n.atime) && Full(n.ctime) && Full(n.mtime) && Full(n.dtime) && Full(n.blocks)
    && Full(n.flags)
    && Full(n.osd1) && Full(n.generation) && Full(n.fileAcl) && Full(n.dirAcl) && Full(n.faddr)
    && |n.block| == POINTERS && forall i :: 0 <= i < POINTERS ==> Full(n.block[i])
  }

  // ---------- bytes ----------

  /** The 32-bit words of an inode in disk order; two 16-bit fields share a word. */
  function Words(n: Inode): (ws: seq<nat>)
    requires Fits(n)
    ensures |ws| == WORDS && forall i :: 0 <= i < WORDS ==> Full(ws[i])
  {
    [n.mode + 0x1_0000 * n.uid, n.size, n.atime, n.ctime, n.mtime, n.dtime, n.gid + 0x1_0000 * n.links, n.blocks, n.flags, n.osd1]
    + n.block + [n.generation, n.fileAcl, n.dirAcl, n.faddr]
  }

  function Encoded(ws: seq<nat>): (s: seq<Byte>)
    ensures |s| == 4 * |ws|
  {
    if ws == [] then [] else Bytes32(ws[0]) + Encoded(ws[1..])
  }

  /** The inode whose bytes start at a position of a block. */
  function Decoded(b: Block, at: nat): (n: Inode)
    requires at + INODE_BYTES <= |b|
    ensures Fits(n)
  {
    FieldsFit(b);
    Inode(Get16(b, at), Get16(b, at + 2), Get32(b, at + 4), Get32(b, at + 8), Get32(b, at + 12), Get32(b, at + 16), Get32(b, at + 20),
          Get16(b, at + 24), Get16(b, at + 26), Get32(b, at + 28), Get32(b, at + 32), Get32(b, at + 36), Pointers(b, at + 40, POINTERS),
          Get32(b, at + 100), Get32(b, at + 104), Get32(b, at + 108), Get32(b, at + 112))
  }

  function Pointers(b: Block, at: nat, n: nat): (ps: seq<nat>)
    requires at + 4 * n <= |b|
    ensures |ps| == n && forall i :: 0 <= i < n ==> ps[i] == Get32(b, at + 4 * i)
  {
    if n == 0 then [] else Pointers(b, at, n - 1) + [Get32(b, at + 4 * (n - 1))]
  }

  lemma {:induction false} FieldsFit(b: Block)
    ensures forall k: nat :: k + 2 <= |b| ==> Half(Get16(b, k))
    ensures forall k: nat :: k + 4 <= |b| ==> Full(Get32(b, k))
  {
  }

  lemma {:induction false} EncodedWord(ws: seq<nat>, k: nat)
    requires k < |ws|
    ensures Encoded(ws)[4 * k..4 * k + 4] == Bytes32(ws[k])
  {
    var (head, tail) := (Bytes32(ws[0]), Encoded(ws[1..]));
    if k > 0 {
      EncodedWord(ws[1..], k - 1);
      assert Encoded(ws)[4 * k..4 * k + 4] == tail[4 * (k - 1)..4 * (k - 1) + 4];
    }
  }

  /** Word k after an inode is written. */
  lemma {:induction false} WordPut(b: Block, at: nat, ws: seq<nat>, k: nat)
    requires at + 4 * |ws| <= |b| && k < |ws| && Full(ws[k])
    ensures Get32(Put(b, at, Encoded(ws)), at + 4 * k) == ws[k]
    ensures Get16(Put(b, at, Encoded(ws)), at + 4 * k) == ws[k] % 0x1_0000
    ensures Get16(Put(b, at, Encoded(ws)), at + 4 * k + 2) == ws[k] / 0x1_0000
  {
    EncodedWord(ws, k);
    var (r, s) := (Put(b, at, Encoded(ws)), Bytes32(ws[k]));
    forall i: nat | i < 4
      ensures r[at + 4 * k + i] == s[i]
    {
      PutByte(b, at, Encoded(ws), at + 4 * k + i);
      assert Encoded(ws)[4 * k + i] == Encoded(ws)[4 * k..4 * k + 4][i];
    }
    WordBytes(r, at + 4 * k, ws[k]);
  }

  lemma {:induction false} WordBytes(b: Block, at: nat, v: nat)
    requires at + 4 <= |b| && Full(v) && b[at..at + 4] == Bytes32(v)
    ensures Get32(b, at) == v && Get16(b, at) == v % 0x1_0000 && Get16(b, at + 2) == v / 0x1_0000
  {
    var s := b[at..at + 4];
    assert s[0] == b[at] && s[1] == b[at + 1] && s[2] == b[at + 2] && s[3] == b[at + 3];
    Value16(v);
    Value16(v / 0x1_0000);
  }

  /** Reading an inode where it was just written gives it back. */
  lemma {:induction false} InodeRoundTrip(b: Block, at: nat, n: Inode)
    requires at + INODE_BYTES <= |b| && Fits(n)
    ensures Decoded(Put(b, at, Encoded(Words(n))), at) == n
  {
    hide Get16, Get32, Encoded, Put, Words;
    var (ws, r) := (Words(n), Put(b, at, Encoded(Words(n))));
    WordsAre(n);
    WordPut(b, at, ws, 0);
    WordPut(b, at, ws, 1);
    WordPut(b, at, ws, 2);
    WordPut(b, at, ws, 3);
    WordPut(b, at, ws, 4);
    WordPut(b, at, ws, 5);
    WordPut(b, at, ws, 6);
    WordPut(b, at, ws, 7);
    WordPut(b, at, ws, 8);
    WordPut(b, at, ws, 9);
    forall i: nat | i < POINTERS
      ensures Get32(r, at + 40 + 4 * i) == n.block[i]
    {
      WordPut(b, at, ws, 10 + i);
    }
    assert Pointers(r, at + 40, POINTERS) == n.block;
    WordPut(b, at, ws, 25);
    WordPut(b, at, ws, 26);
    WordPut(b, at, ws, 27);
    WordPut(b, at, ws, 28);
  }

  lemma {:induction false} WordsAre(n: Inode)
    requires Fits(n)
    ensures var ws := Words(n);
            && ws[0] % 0x1_0000 == n.mode && ws[0] / 0x1_0000 == n.uid && ws[1] == n.size && ws[2] == n.atime
            && ws[3] == n.ctime
            && ws[4] == n.mtime && ws[5] == n.dtime && ws[6] % 0x1_0000 == n.gid && ws[6] / 0x1_0000 == n.links
            && ws[7] == n.blocks
            && ws[8] == n.flags && ws[9] == n.osd1 && (forall i: nat :: i < POINTERS ==> ws[10 + i] == n.block[i])
            && ws[25] == n.generation && ws[26] == n.fileAcl && ws[27] == n.dirAcl && ws[28] == n.faddr
  {
  }

  /** An inode elsewhere in the block is not disturbed. */
  lemma {:induction false} InodeBeside(b: Block, at: nat, src: seq<Byte>, k: nat)
    requires at + |src| <= |b| && k + INODE_BYTES <= |b| && (k + INODE_BYTES <= at || at + |src| <= k)
    ensures Decoded(Put(b, at, src), k) == Decoded(b, k)
  {
    hide Get16, Get32, Put;
    var r := Put(b, at, src);
    GetBeside(b, at, src, k);
    GetBeside(b, at, src, k + 2);
    GetBeside(b, at, src, k + 4);
    GetBeside(b, at, src, k + 8);
    GetBeside(b, at, src, k + 12);
    GetBeside(b, at, src, k + 16);
    GetBeside(b, at, src, k + 20);
    GetBeside(b, at, src, k + 24);
    GetBeside(b, at, src, k + 26);
    GetBeside(b, at, src, k + 28);
    GetBeside(b, at, src, k + 32);
    GetBeside(b, at, src, k + 36);
    forall i: nat | i < POINTERS
      ensures Get32(r, k + 40 + 4 * i) == Get32(b, k + 40 + 4 * i)
    {
      GetBeside(b, at, src, k + 40 + 4 * i);
    }
    assert Pointers(r, k + 40, POINTERS) == Pointers(b, k + 40, POINTERS);
    GetBeside(b, at, src, k + 100);
    GetBeside(b, at, src, k + 104);
    GetBeside(b, at, src, k + 108);
    GetBeside(b, at, src, k + 112);
  }

  // ---------- slots ----------

  /** Inodes fill blocks evenly, and each group's table lies inside the volume, apart from the bitmaps and
      the other tables. */
  ghost predicate Tables(geo: Geometry, blocks: Blocks) {
    && Laid(geo, blocks) && INODE_BYTES <= geo.inodeSize && geo.bs % geo.inodeSize == 0
    && (forall g: nat :: g < geo.groups ==>
          geo.DescBlock(geo.groups - 1) < Table(geo, blocks, g) && Table(geo, blocks, g) + TableBlocks(geo) <= |blocks|)
    && (forall g: nat, kind, h: nat :: g < geo.groups && h < geo.groups ==>
           !InTable(geo, blocks, g, BitmapBlock(geo, blocks, kind, h)))
    && (forall g: nat, h: nat, b: nat :: g < geo.groups && h < geo.groups && g != h ==>
           !(InTable(geo, blocks, g, b) && InTable(geo, blocks, h, b)))
  }

  ghost function Table(geo: Geometry, blocks: Blocks, g: nat): nat
    requires Shape(geo, blocks) && g < geo.groups
  {
    Desc32(geo, blocks, g, TABLE_FIELD)
  }

  function TableBlocks(geo: Geometry): nat
    requires geo.bs > 0
  {
    (geo.inodesPerGroup * geo.inodeSize + geo.bs - 1) / geo.bs
  }

  ghost predicate InTable(geo: Geometry, blocks: Blocks, g: nat, b: nat)
    requires Shape(geo, blocks) && g < geo.groups
  {
    Table(geo, blocks, g) <= b < Table(geo, blocks, g) + TableBlocks(geo)
  }

  /** The group of an inode, and where its slot lies. */
  function GroupOf(geo: Geometry, num: nat): nat
    requires num > 0 && geo.inodesPerGroup > 0
  {
    (num - 1) / geo.inodesPerGroup
  }

  function LocalBytes(geo: Geometry, num: nat): nat
    requires num > 0 && geo.inodesPerGroup > 0
  {
    (num - 1) % geo.inodesPerGroup * geo.inodeSize
  }

  ghost function SlotBlock(geo: Geometry, blocks: Blocks, num: nat): nat
    requires Shape(geo, blocks) && num > 0 && GroupOf(geo, num) < geo.groups
  {
    Table(geo, blocks, GroupOf(geo, num)) + LocalBytes(geo, num) / geo.bs
  }

  function SlotAt(geo: Geometry, num: nat): nat
    requires num > 0 && geo.inodesPerGroup > 0 && geo.bs > 0
  {
    LocalBytes(geo, num) % geo.bs
  }

  /** A slot lies in one block, inside its group's table. */
  lemma {:induction false} SlotInTable(geo: Geometry, blocks: Blocks, num: nat)
    requires Tables(geo, blocks) && num > 0 && GroupOf(geo, num) < geo.groups
    ensures InTable(geo, blocks, GroupOf(geo, num), SlotBlock(geo, blocks, num))
    ensures SlotBlock(geo, blocks, num) < |blocks|
    ensures SlotAt(geo, num) + INODE_BYTES <= SlotAt(geo, num) + geo.inodeSize <= geo.bs
  {
    var local := (num - 1) % geo.inodesPerGroup;
    Evenly(local, geo.inodeSize, geo.bs);
    MulGap(local, geo.inodesPerGroup, geo.inodeSize);
    DivOrder(LocalBytes(geo, num) + geo.bs, geo.inodesPerGroup * geo.inodeSize + geo.bs - 1, geo.bs);
    DivMod(LocalBytes(geo, num), geo.bs);
    DivUnique(LocalBytes(geo, num) + geo.bs, geo.bs, LocalBytes(geo, num) / geo.bs + 1, LocalBytes(geo, num) % geo.bs);
  }

  lemma {:induction false} Evenly(k: nat, size: nat, bs: nat)
    requires 0 < size && 0 < bs && bs % size == 0
    ensures k * size % bs + size <= bs
  {
    var m := bs / size;
    DivMod(bs, size);
    DivMod(k, m);
    var (q, r) := (k / m, k % m);
    Regroup(q, m, r, size, k);
    MulGap(r, m, size);
    DivUnique(k * size, bs, q, r * size);
  }

  lemma {:induction false} Regroup(q: nat, m: nat, r: nat, size: nat, k: nat)
    requires k == q * m + r
    ensures k * size == q * (m * size) + r * size
  {
  }

  /** The slots of different inodes do not overlap. */
  lemma {:induction false} SlotsDisjoint(geo: Geometry, blocks: Blocks, a: nat, b: nat)
    requires Tables(geo, blocks) && a > 0 && b > 0 && a != b && GroupOf(geo, a) < geo.groups
    requires GroupOf(geo, b) < geo.groups
    requires SlotBlock(geo, blocks, a) == SlotBlock(geo, blocks, b)
    ensures SlotAt(geo, a) + geo.inodeSize <= SlotAt(geo, b) || SlotAt(geo, b) + geo.inodeSize <= SlotAt(geo, a)
  {
    SlotInTable(geo, blocks, a);
    SlotInTable(geo, blocks, b);
    DivMod(a - 1, geo.inodesPerGroup);
    DivMod(b - 1, geo.inodesPerGroup);
    DivMod(LocalBytes(geo, a), geo.bs);
    DivMod(LocalBytes(geo, b), geo.bs);
    var (i, j) := ((a - 1) % geo.inodesPerGroup, (b - 1) % geo.inodesPerGroup);
    if i < j {
      MulGap(i, j, geo.inodeSize);
    } else {
      MulGap(j, i, geo.inodeSize);
    }
  }

  // ---------- the inodes of a volume ----------

  ghost function InodeOf(geo: Geometry, blocks: Blocks, num: nat): (n: Inode)
    requires Tables(geo, blocks) && num > 0 && GroupOf(geo, num) < geo.groups
    ensures Fits(n)
  {
    SlotInTable(geo, blocks, num);
    Decoded(blocks[SlotBlock(geo, blocks, num)], SlotAt(geo, num))
  }

  ghost function WithInode(geo: Geometry, blocks: Blocks, num: nat, n: Inode): (blocks': Blocks)
    requires Tables(geo, blocks) && num > 0 && GroupOf(geo, num) < geo.groups && Fits(n)
    ensures |blocks'| == |blocks|
  {
    SlotInTable(geo, blocks, num);
    var b := SlotBlock(geo, blocks, num);
    blocks[b := Put(blocks[b], SlotAt(geo, num), Encoded(Words(n)))]
  }

  function InodeNumber(geo: Geometry, g: nat, i: nat): nat { g * geo.inodesPerGroup + i + 1 }

  function BlockNumber(geo: Geometry, g: nat, i: nat): nat { g * geo.blocksPerGroup + i + geo.firstDataBlock }
}
