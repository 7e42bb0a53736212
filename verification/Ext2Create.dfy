/** Creating a file: one more inode, and one more record in the root directory. */
module Ext2Create {
  import opened Utils
  import opened Arith
  import opened Ext2Bytes
  import opened Ext2Trees
  import opened Ext2Layout
  import opened Ext2Inodes
  import opened Ext2Data
  import opened Ext2Dirs

  const SLASH: nat := 47

  /** The inode of a new file. */
  function NewInode(mode: nat): (n: Inode)
    requires mode < 0x1_0000
    ensures Fits(n)
  {
    Inode(mode, 0, 0, 0, 0, 0, 0, 0, 1, 0, 0, 0, [0, 0, 0, 0, 0, 0, 0, 0, 0, 0, 0, 0, 0, 0, 0], 0, 0, 0, 0)
  }

  /** The root inode is in use, and is a directory of tiled data blocks. */
  ghost predicate RootReady(geo: Geometry, blocks: Blocks) {
    && Tables(geo, blocks) && GroupOf(geo, ROOT) < geo.groups && InodeNumber(geo, geo.groups, 0) <= 0x1_0000_0000
    && (forall g: nat, i: nat :: g < geo.groups && i < geo.inodesPerGroup && InodeNumber(geo, g, i) == ROOT ==>
           BitIn(geo, blocks, InodeKind, g, i))
    && RootDir(geo, blocks, InodeOf(geo, blocks, ROOT))
  }

  ghost predicate RootDir(geo: Geometry, blocks: Blocks, n: Inode)
    requires Laid(geo, blocks)
  {
    && n.mode / 0x1000 == DIRECTORY && DirOk(blocks, geo.bs, n)
    && (forall k :: 0 <= k < DIRECT && n.block[k] != 0 ==> DataBlock(geo, blocks, n.block[k]))
    && (forall k :: 1 <= k < DIRECT && n.block[0] != 0 ==> n.block[k] != n.block[0])
  }

  /** Inode num reads as n, and every other inode as before. */
  ghost predicate OneInode(geo: Geometry, blocks: Blocks, blocks': Blocks, num: nat, n: Inode) {
    && Tables(geo, blocks) && Tables(geo, blocks') && num > 0 && GroupOf(geo, num) < geo.groups
    && forall m: nat :: m > 0 && GroupOf(geo, m) < geo.groups ==>
         InodeOf(geo, blocks', m) == if m == num then n else InodeOf(geo, blocks, m)
  }

  /** The data blocks are as before, but for one. */
  ghost predicate DataBut(geo: Geometry, blocks: Blocks, blocks': Blocks, b: nat)
    requires Laid(geo, blocks)
  {
    |blocks'| == |blocks| && forall d: nat :: DataBlock(geo, blocks, d) && d != b ==> blocks'[d] == blocks[d]
  }

  /** A file was created: its stored name leads to the new inode or to an older one, every other name where it
      led before, the root block is tiled, and no other inode or data block changed. */
  ghost predicate Created(geo: Geometry, blocks: Blocks, blocks': Blocks, name: Name, num: nat, mode: nat)
    requires RootReady(geo, blocks) && mode < 0x1_0000
  {
    var n := InodeOf(geo, blocks, ROOT);
    && OneInode(geo, blocks, blocks', num, NewInode(mode)) && num != ROOT
    && DirOk(blocks', geo.bs, n) && n.block[0] != 0 && Tiled(blocks'[n.block[0]], 0)
    && HasRecord(blocks'[n.block[0]], num, name)
    && (forall other: Name :: Shows(FindDir(blocks, geo.bs, n, 0, other), FindDir(blocks', geo.bs, n, 0, other), other, name, num))
    && DataBut(geo, blocks, blocks', n.block[0])
  }

  /** An inode was taken for a file that found no place: no name leads to it, and the directory is as before. */
  ghost predicate Leaked(geo: Geometry, blocks: Blocks, blocks': Blocks, num: nat, mode: nat)
    requires RootReady(geo, blocks) && mode < 0x1_0000
  {
    var n := InodeOf(geo, blocks, ROOT);
    && OneInode(geo, blocks, blocks', num, NewInode(mode)) && num != ROOT && DirOk(blocks', geo.bs, n)
    && (forall other: Name :: FindDir(blocks', geo.bs, n, 0, other) == FindDir(blocks, geo.bs, n, 0, other))
    && DataBut(geo, blocks, blocks', 0)
  }

  // ---------- the new inode ----------

  lemma {:induction false} PlacesData(geo: Geometry, blocks: Blocks, blocks': Blocks)
    requires SamePlaces(geo, blocks, blocks')
    ensures forall b: nat :: DataBlock(geo, blocks', b) == DataBlock(geo, blocks, b)
  {
    hide Laid, BitmapBlock, Table;
    LaidShape(geo, blocks);
    LaidShape(geo, blocks');
    forall g: nat, b: nat | g < geo.groups
      ensures InTable(geo, blocks', g, b) == InTable(geo, blocks, g, b)
    {
    }
  }

  /** Taking an inode bit keeps the volume consistent. */
  lemma {:induction false} TakenInodeConsistent(geo: Geometry, blocks: Blocks, counts: map<Kind, nat>, g: nat, i: nat)
    requires Consistent(geo, blocks, counts) && Tables(geo, blocks) && g < geo.groups && i < geo.inodesPerGroup
    requires !BitIn(geo, blocks, InodeKind, g, i)
    ensures Consistent(geo, Taken(geo, blocks, InodeKind, g, i, Less(counts[InodeKind])), counts[InodeKind := Less(counts[InodeKind])])
  {
    hide Laid, Taken, BitIn, DataBlock, Counted, Tables;
    var (c, blocks') := (counts[InodeKind], Taken(geo, blocks, InodeKind, g, i, Less(counts[InodeKind])));
    TakenCounted(geo, blocks, InodeKind, g, i, c, InodeKind, 0);
    TakenCounted(geo, blocks, InodeKind, g, i, c, BlockKind, counts[BlockKind]);
    TakenTablesData(geo, blocks, InodeKind, g, i, Less(c));
    TakenPlaces(geo, blocks, InodeKind, g, i, Less(c));
    PlacesData(geo, blocks, blocks');
    forall h: nat, j: nat | h < geo.groups && j < geo.blocksPerGroup
      ensures BitIn(geo, blocks', BlockKind, h, j) == BitIn(geo, blocks, BlockKind, h, j)
    {
      TakenBits(geo, blocks, InodeKind, g, i, Less(c), BlockKind, h, j);
    }
  }

  lemma {:induction false} TakenPlaces(geo: Geometry, blocks: Blocks, kind: Kind, g: nat, i: nat, count: nat)
    requires Tables(geo, blocks) && g < geo.groups && i < geo.PerGroup(kind) && !BitIn(geo, blocks, kind, g, i)
    ensures SamePlaces(geo, blocks, Taken(geo, blocks, kind, g, i, count))
    ensures |Taken(geo, blocks, kind, g, i, count)| == |blocks|
  {
    hide Laid, Taken, BitIn;
    TakenTablesData(geo, blocks, kind, g, i, count);
  }

  /** Taking a block after the new inode keeps what the failed creation leaves. */
  lemma {:induction false} TakenBlockAfter(geo: Geometry, b0: Blocks, b2: Blocks, counts: map<Kind, nat>, num: nat,
                                           n: Inode, g: nat, i: nat)
    requires OneInode(geo, b0, b2, num, n) && Laid(geo, b0) && DataBut(geo, b0, b2, 0) && SamePlaces(geo, b0, b2)
    requires Consistent(geo, b2, counts)
    requires g < geo.groups && i < geo.blocksPerGroup && !BitIn(geo, b2, BlockKind, g, i)
    ensures var b3 := Taken(geo, b2, BlockKind, g, i, Less(counts[BlockKind]));
            && OneInode(geo, b0, b3, num, n) && DataBut(geo, b0, b3, 0)
            && Consistent(geo, b3, counts[BlockKind := Less(counts[BlockKind])])
            && BlockNumber(geo, g, i) < |b3| && b3[BlockNumber(geo, g, i)] == b2[BlockNumber(geo, g, i)]
  {
    hide Laid, Taken, BitIn, DataBlock, Counted, Tables, InodeOf, SamePlaces, SameTables;
    var c := counts[BlockKind];
    var b3 := Taken(geo, b2, BlockKind, g, i, Less(c));
    TakenCounted(geo, b2, BlockKind, g, i, c, BlockKind, 0);
    TakenCounted(geo, b2, BlockKind, g, i, c, InodeKind, counts[InodeKind]);
    TakenBlock(geo, b2, g, i, Less(c));
    TakenTablesData(geo, b2, BlockKind, g, i, Less(c));
    TakenPlaces(geo, b2, BlockKind, g, i, Less(c));
    PlacesData(geo, b0, b2);
    DataRange(geo, b2, BlockNumber(geo, g, i));
    LaidShape(geo, b0);
    SameInodes(geo, b2, b3, num);
    forall m: nat | m > 0 && GroupOf(geo, m) < geo.groups
      ensures InodeOf(geo, b3, m) == if m == num then n else InodeOf(geo, b0, m)
    {
      SameInodes(geo, b2, b3, m);
    }
  }

  /** Writing an inode keeps the volume consistent. */
  lemma {:induction false} ButTablesConsistent(geo: Geometry, blocks: Blocks, blocks': Blocks, counts: map<Kind, nat>)
    requires Consistent(geo, blocks, counts) && Tables(geo, blocks) && SameButTables(geo, blocks, blocks')
    ensures Consistent(geo, blocks', counts)
  {
    hide Laid, Counted, FreeAreData, SameMeta;
    ButTablesMeta(geo, blocks, blocks');
    SameData(geo, blocks, blocks');
    SameCounted(geo, blocks, blocks', BlockKind, counts[BlockKind]);
    SameCounted(geo, blocks, blocks', InodeKind, counts[InodeKind]);
  }

  lemma {:induction false} ButTablesMeta(geo: Geometry, blocks: Blocks, blocks': Blocks)
    requires Tables(geo, blocks) && SameButTables(geo, blocks, blocks')
    ensures SameMeta(geo, blocks, blocks')
  {
    hide Laid, BitmapBlock, Table;
    forall b | 0 <= b < |blocks| && Meta(geo, blocks, b)
      ensures blocks'[b] == blocks[b]
    {
    }
  }

  /** The inode number of a bit, and its group. */
  lemma {:induction false} NumberGroup(geo: Geometry, g: nat, i: nat)
    requires i < geo.inodesPerGroup
    ensures GroupOf(geo, InodeNumber(geo, g, i)) == g
    ensures g < geo.groups ==> InodeNumber(geo, g, i) < InodeNumber(geo, geo.groups, 0)
  {
    DivUnique(g * geo.inodesPerGroup + i, geo.inodesPerGroup, g, i);
    if g < geo.groups {
      MulGap(g, geo.groups, geo.inodesPerGroup);
    }
  }

  /** A taken inode that is written reads as written, and nothing else changes. */
  lemma {:induction false} InodeAdded(geo: Geometry, blocks: Blocks, counts: map<Kind, nat>, g: nat, i: nat, n: Inode)
    requires Consistent(geo, blocks, counts) && RootReady(geo, blocks) && g < geo.groups && i < geo.inodesPerGroup
    requires Fits(n)
    requires !BitIn(geo, blocks, InodeKind, g, i)
    ensures var (num, b1) := (InodeNumber(geo, g, i), Taken(geo, blocks, InodeKind, g, i, Less(counts[InodeKind])));
            && num > 0 && GroupOf(geo, num) < geo.groups && num < 0x1_0000_0000 && num != ROOT && Tables(geo, b1)
            && var b2 := WithInode(geo, b1, num, n);
               OneInode(geo, blocks, b2, num, n) && DataBut(geo, blocks, b2, 0) && SamePlaces(geo, blocks, b2)
               && Consistent(geo, b2, counts[InodeKind := Less(counts[InodeKind])]) && SameBlockBits(geo, blocks, b2)
  {
    hide Laid, Taken, BitIn, DataBlock, Counted, Tables, WithInode, InodeOf, SamePlaces, SameTables, SameButTables,
      RootDir, SameBlockBits;
    var (num, b1) := (InodeNumber(geo, g, i), Taken(geo, blocks, InodeKind, g, i, Less(counts[InodeKind])));
    NumberGroup(geo, g, i);
    TakenInodeConsistent(geo, blocks, counts, g, i);
    TakenTablesData(geo, blocks, InodeKind, g, i, Less(counts[InodeKind]));
    TakenPlaces(geo, blocks, InodeKind, g, i, Less(counts[InodeKind]));
    SamePlacesTables(geo, blocks, b1);
    var b2 := WithInode(geo, b1, num, n);
    InodeWritten(geo, b1, num, n, num);
    forall m: nat | m > 0 && GroupOf(geo, m) < geo.groups
      ensures InodeOf(geo, b2, m) == if m == num then n else InodeOf(geo, blocks, m)
    {
      SameInodes(geo, blocks, b1, m);
      InodeWritten(geo, b1, num, n, m);
    }
    ButTablesConsistent(geo, b1, b2, counts[InodeKind := Less(counts[InodeKind])]);
    ButTablesTables(geo, b1, b2);
    ButTablesData(geo, blocks, b1, b2);
    PlacesTwice(geo, blocks, b1, b2);
    InodeBlockBits(geo, blocks, g, i, Less(counts[InodeKind]), b2);
  }

  /** The same blocks are free. */
  ghost predicate SameBlockBits(geo: Geometry, blocks: Blocks, blocks': Blocks) {
    && Laid(geo, blocks) && Laid(geo, blocks')
    && forall g: nat, i: nat :: g < geo.groups && i < geo.blocksPerGroup ==>
           BitIn(geo, blocks', BlockKind, g, i) == BitIn(geo, blocks, BlockKind, g, i)
  }

  lemma {:induction false} InodeBlockBits(geo: Geometry, blocks: Blocks, g: nat, i: nat, count: nat, b2: Blocks)
    requires Tables(geo, blocks) && g < geo.groups && i < geo.inodesPerGroup && !BitIn(geo, blocks, InodeKind, g, i)
    requires Tables(geo, Taken(geo, blocks, InodeKind, g, i, count))
    requires SameButTables(geo, Taken(geo, blocks, InodeKind, g, i, count), b2)
    ensures SameBlockBits(geo, blocks, b2)
  {
    hide Laid, Taken, BitIn, SameButTables, Tables, SameMeta;
    TablesLaid(geo, blocks);
    var b1 := Taken(geo, blocks, InodeKind, g, i, count);
    ButTablesMeta(geo, b1, b2);
    TablesLaid(geo, b1);
    SameBits(geo, b1, b2);
    forall h: nat, j: nat | h < geo.groups && j < geo.blocksPerGroup
      ensures BitIn(geo, b2, BlockKind, h, j) == BitIn(geo, blocks, BlockKind, h, j)
    {
      TakenBits(geo, blocks, InodeKind, g, i, count, BlockKind, h, j);
    }
  }

  /** Free blocks begin with a record of length zero, as blocks that were never written do. */
  ghost predicate FreeAreBlank(geo: Geometry, blocks: Blocks) {
    Laid(geo, blocks) && forall g: nat, i: nat :: g < geo.groups && i < geo.blocksPerGroup && !BitIn(geo, blocks, BlockKind, g, i) ==>
      Blank(blocks, BlockNumber(geo, g, i))
  }

  ghost predicate Blank(blocks: Blocks, b: nat) { b < |blocks| && |blocks[b]| >= HEADER && RecLen(blocks[b], 0) == 0 }

  lemma {:induction false} StillBlank(geo: Geometry, b0: Blocks, b2: Blocks)
    requires FreeAreBlank(geo, b0) && FreeAreData(geo, b0) && SameBlockBits(geo, b0, b2) && DataBut(geo, b0, b2, 0)
    ensures FreeAreBlank(geo, b2)
  {
    hide Laid, BitIn, DataBlock;
    forall g: nat, i: nat | g < geo.groups && i < geo.blocksPerGroup && !BitIn(geo, b2, BlockKind, g, i)
      ensures Blank(b2, BlockNumber(geo, g, i))
    {
      assert DataBlock(geo, b0, BlockNumber(geo, g, i));
      DataRange(geo, b0, BlockNumber(geo, g, i));
    }
  }

  lemma {:induction false} PlacesTwice(geo: Geometry, b0: Blocks, b1: Blocks, b2: Blocks)
    requires SamePlaces(geo, b0, b1) && SamePlaces(geo, b1, b2)
    ensures SamePlaces(geo, b0, b2)
  {
    hide Laid, BitmapBlock, Table;
  }

  /** Data blocks lie outside the tables. */
  lemma {:induction false} ButTablesData(geo: Geometry, b0: Blocks, b1: Blocks, b2: Blocks)
    requires SamePlaces(geo, b0, b1) && Tables(geo, b1) && SameButTables(geo, b1, b2)
    requires forall b: nat :: DataBlock(geo, b0, b) ==> b1[b] == b0[b]
    ensures |b2| == |b0| && forall b: nat :: DataBlock(geo, b0, b) ==> b2[b] == b0[b]
  {
    hide Laid, BitmapBlock, InTable;
    PlacesData(geo, b0, b1);
    forall b: nat | DataBlock(geo, b0, b)
      ensures b < |b2| && b2[b] == b0[b]
    {
      assert DataBlock(geo, b1, b);
    }
  }

  // ---------- the directory ----------

  /** A directory reads the same wherever its blocks are the same. */
  lemma {:induction false} DirSame(b0: Blocks, b1: Blocks, bs: nat, n: Inode)
    requires DirOk(b0, bs, n) && |b1| == |b0| && WholeBlocks(b1, bs)
    requires forall k :: 0 <= k < DIRECT && n.block[k] != 0 ==> b1[n.block[k]] == b0[n.block[k]]
    ensures DirOk(b1, bs, n)
    ensures forall name: Name :: FindDir(b1, bs, n, 0, name) == FindDir(b0, bs, n, 0, name)
  {
    hide Tiled, FindIn;
    forall name: Name
      ensures FindDir(b1, bs, n, 0, name) == FindDir(b0, bs, n, 0, name)
    {
      FindDirSame(b0, b1, bs, n, 0, name);
    }
  }

  lemma {:induction false} FindDirSame(b0: Blocks, b1: Blocks, bs: nat, n: Inode, k: nat, name: Name)
    requires DirOk(b0, bs, n) && DirOk(b1, bs, n) && |b1| == |b0|
    requires forall k :: 0 <= k < DIRECT && n.block[k] != 0 ==> b1[n.block[k]] == b0[n.block[k]]
    ensures FindDir(b1, bs, n, k, name) == FindDir(b0, bs, n, k, name)
    decreases DIRECT - k
  {
    hide Tiled, FindIn;
    if k < DIRECT && n.block[k] != 0 {
      FindDirSame(b0, b1, bs, n, k + 1, name);
    }
  }

  /** The directory in a state whose data blocks are as before. */
  lemma {:induction false} RootSame(geo: Geometry, b0: Blocks, b1: Blocks)
    requires RootReady(geo, b0) && Shape(geo, b1) && DataBut(geo, b0, b1, 0)
    ensures var n := InodeOf(geo, b0, ROOT);
            DirOk(b0, geo.bs, n) && DirOk(b1, geo.bs, n)
            && (forall k :: 0 <= k < DIRECT && n.block[k] != 0 ==>
                   n.block[k] < |b0| && b1[n.block[k]] == b0[n.block[k]])
            && forall name: Name :: FindDir(b1, geo.bs, n, 0, name) == FindDir(b0, geo.bs, n, 0, name)
  {
    hide Laid, InodeOf, Tiled, FindIn;
    var n := InodeOf(geo, b0, ROOT);
    forall k | 0 <= k < DIRECT && n.block[k] != 0
      ensures b1[n.block[k]] == b0[n.block[k]]
    {
      DataRange(geo, b0, n.block[k]);
    }
    DirSame(b0, b1, geo.bs, n);
  }

  lemma {:induction false} DataRange(geo: Geometry, blocks: Blocks, b: nat)
    requires Laid(geo, blocks) && DataBlock(geo, blocks, b)
    ensures 0 < b < |blocks|
  {
  }

  /** The state after the new inode is what a failed search for a place leaves. */
  lemma {:induction false} LeakedFrom(geo: Geometry, b0: Blocks, b2: Blocks, num: nat, mode: nat)
    requires RootReady(geo, b0) && mode < 0x1_0000 && OneInode(geo, b0, b2, num, NewInode(mode)) && num != ROOT
    requires DataBut(geo, b0, b2, 0)
    ensures Leaked(geo, b0, b2, num, mode)
  {
    hide Laid, InodeOf, DirOk, FindDir, DataBlock;
    TablesLaid(geo, b2);
    LaidShape(geo, b2);
    RootSame(geo, b0, b2);
  }

  /** Writing the root block and the root inode back completes the creation. */
  lemma {:induction false} RecordAdded(geo: Geometry, b0: Blocks, b2: Blocks, counts: map<Kind, nat>, num: nat,
                                       mode: nat, name: Name, data: Block)
    requires RootReady(geo, b0) && mode < 0x1_0000 && OneInode(geo, b0, b2, num, NewInode(mode)) && num != ROOT
    requires DataBut(geo, b0, b2, 0) && SamePlaces(geo, b0, b2) && Consistent(geo, b2, counts)
    requires var n := InodeOf(geo, b0, ROOT);
             n.block[0] != 0 && n.block[0] < |b0| && Inserted(b0[n.block[0]], data, num, name)
    ensures var (n, b3) := (InodeOf(geo, b0, ROOT), b2[InodeOf(geo, b0, ROOT).block[0] := data]);
            Tables(geo, b3)
            && Created(geo, b0, WithInode(geo, b3, ROOT, n), name, num, mode)
            && Consistent(geo, WithInode(geo, b3, ROOT, n), counts)
  {
    hide Laid, InodeOf, DirOk, FindDir, DataBlock, Consistent, Tables, WithInode, SamePlaces, Inserted, SameButTables,
      HasRecord;
    var n := InodeOf(geo, b0, ROOT);
    TablesLaid(geo, b2);
    LaidShape(geo, b2);
    RootSame(geo, b0, b2);
    var b3 := b2[n.block[0] := data];
    InsertStep(geo, b0, b2, counts, num, mode, name, data, n);
    var b4 := WithInode(geo, b3, ROOT, n);
    InodeWritten(geo, b3, ROOT, n, ROOT);
    forall m: nat | m > 0 && GroupOf(geo, m) < geo.groups
      ensures InodeOf(geo, b4, m) == if m == num then NewInode(mode) else InodeOf(geo, b0, m)
    {
      InodeWritten(geo, b3, ROOT, n, m);
    }
    ButTablesConsistent(geo, b3, b4, counts);
    DirAfter(geo, b0, b3, b4, n, name, num);
    RecordInserted(b0[n.block[0]], data, num, name);
  }

  lemma {:induction false} RecordInserted(b: Block, b': Block, ino: nat, name: Name)
    requires Inserted(b, b', ino, name)
    ensures HasRecord(b', ino, name)
  {
    hide Tiled, HasRecord, FindIn;
  }

  /** Writing the root block. */
  lemma {:induction false} InsertStep(geo: Geometry, b0: Blocks, b2: Blocks, counts: map<Kind, nat>, num: nat,
                                      mode: nat, name: Name, data: Block, n: Inode)
    requires RootReady(geo, b0) && mode < 0x1_0000 && OneInode(geo, b0, b2, num, NewInode(mode))
    requires DataBut(geo, b0, b2, 0) && SamePlaces(geo, b0, b2) && Consistent(geo, b2, counts)
    requires n == InodeOf(geo, b0, ROOT)
    requires n.block[0] != 0 && DirOk(b0, geo.bs, n) && Inserted(b0[n.block[0]], data, num, name)
    ensures n.block[0] < |b2|
    ensures var b3 := b2[n.block[0] := data];
            && OneInode(geo, b0, b3, num, NewInode(mode)) && Consistent(geo, b3, counts) && SamePlaces(geo, b0, b3)
            && DirOk(b3, geo.bs, n) && Tiled(b3[n.block[0]], 0)
            && (forall other: Name :: Shows(FindDir(b0, geo.bs, n, 0, other), FindDir(b3, geo.bs, n, 0, other), other, name, num))
            && DataBut(geo, b0, b3, n.block[0])
  {
    hide Laid, InodeOf, FindDir, Tables, FindIn, Consistent, SamePlaces, Inserted;
    TablesLaid(geo, b2);
    LaidShape(geo, b2);
    RootSame(geo, b0, b2);
    var b3 := b2[n.block[0] := data];
    TiledInserted(b0[n.block[0]], data, num, name);
    RootBlock(geo, b0, b2, n, data);
    ConsistentWrite(geo, b2, counts, n.block[0], data);
    WriteTables(geo, b2, n.block[0], data);
    SameInodes(geo, b2, b3, num);
    forall m: nat | m > 0 && GroupOf(geo, m) < geo.groups
      ensures InodeOf(geo, b3, m) == if m == num then NewInode(mode) else InodeOf(geo, b0, m)
    {
      SameInodes(geo, b2, b3, m);
    }
    PlacesTwice(geo, b0, b2, b3);
    forall other: Name
      ensures DirOk(b3, geo.bs, n)
      ensures Shows(FindDir(b0, geo.bs, n, 0, other), FindDir(b3, geo.bs, n, 0, other), other, name, num)
    {
      FindAfterInsert(b2, geo.bs, n, data, num, name, other);
    }
  }

  /** The root's first block is a data block in both states, and the new contents have its size. */
  lemma {:induction false} RootBlock(geo: Geometry, b0: Blocks, b2: Blocks, n: Inode, data: Block)
    requires RootReady(geo, b0) && n == InodeOf(geo, b0, ROOT) && n.block[0] != 0 && SamePlaces(geo, b0, b2)
    requires n.block[0] < |b0| && |data| == |b0[n.block[0]]|
    ensures Laid(geo, b2) && DataBlock(geo, b2, n.block[0]) && n.block[0] < |b2| && |data| == geo.bs
    ensures forall k :: 1 <= k < DIRECT ==> n.block[k] != n.block[0]
  {
    hide Laid, InodeOf, DataBlock;
    LaidShape(geo, b0);
    PlacesData(geo, b0, b2);
  }

  lemma {:induction false} ConsistentWrite(geo: Geometry, blocks: Blocks, counts: map<Kind, nat>, b: nat, data: Block)
    requires Consistent(geo, blocks, counts) && DataBlock(geo, blocks, b) && |data| == geo.bs && b < |blocks|
    ensures Consistent(geo, blocks[b := data], counts)
  {
    hide Laid, Counted, FreeAreData, SameMeta, DataBlock;
    DataWrite(geo, blocks, b, data);
    SameData(geo, blocks, blocks[b := data]);
    SameCounted(geo, blocks, blocks[b := data], BlockKind, counts[BlockKind]);
    SameCounted(geo, blocks, blocks[b := data], InodeKind, counts[InodeKind]);
  }

  /** Writing a data block leaves the tables alone. */
  lemma {:induction false} WriteTables(geo: Geometry, blocks: Blocks, b: nat, data: Block)
    requires Tables(geo, blocks) && DataBlock(geo, blocks, b) && |data| == geo.bs && b < |blocks|
    ensures SameTables(geo, blocks, blocks[b := data]) && SamePlaces(geo, blocks, blocks[b := data])
  {
    hide Laid, SameMeta, BitmapBlock, Table;
    DataWrite(geo, blocks, b, data);
    SameBitmaps(geo, blocks, blocks[b := data]);
    SameTable(geo, blocks, blocks[b := data]);
  }

  /** The directory after the root inode is written back. */
  lemma {:induction false} DirAfter(geo: Geometry, b0: Blocks, b3: Blocks, b4: Blocks, n: Inode, name: Name, num: nat)
    requires RootReady(geo, b0) && n == InodeOf(geo, b0, ROOT) && SamePlaces(geo, b0, b3) && Tables(geo, b3)
    requires SameButTables(geo, b3, b4)
    requires n.block[0] != 0 && DirOk(b0, geo.bs, n) && DirOk(b3, geo.bs, n) && DataBut(geo, b0, b3, n.block[0])
    ensures DirOk(b4, geo.bs, n) && DataBut(geo, b0, b4, n.block[0])
    ensures n.block[0] < |b4| && b4[n.block[0]] == b3[n.block[0]] && Tiled(b4[n.block[0]], 0)
    ensures forall other: Name :: FindDir(b4, geo.bs, n, 0, other) == FindDir(b3, geo.bs, n, 0, other)
  {
    hide Laid, InodeOf, FindDir, FindIn, Tiled, InTable, BitmapBlock, Table;
    PlacesData(geo, b0, b3);
    forall b: nat | DataBlock(geo, b0, b)
      ensures b < |b4| == |b3| && b4[b] == b3[b]
    {
      assert DataBlock(geo, b3, b);
    }
    DirSame(b3, b4, geo.bs, n);
  }

  /** The root's first block has no place for a name of this length. */
  ghost predicate NoRoom(geo: Geometry, blocks: Blocks, nameLen: nat)
    requires RootReady(geo, blocks)
  {
    var n := InodeOf(geo, blocks, ROOT);
    n.block[0] != 0 && n.block[0] < |blocks| && Tiled(blocks[n.block[0]], 0) && !HasRoom(blocks[n.block[0]], 0, nameLen)
  }

  lemma {:induction false} ReadyShape(geo: Geometry, blocks: Blocks)
    requires RootReady(geo, blocks)
    ensures Tables(geo, blocks) && Laid(geo, blocks) && Shape(geo, blocks) && GroupOf(geo, ROOT) < geo.groups
    ensures var n := InodeOf(geo, blocks, ROOT); n.mode / 0x1000 == DIRECTORY && n.size > 0 && DirOk(blocks, geo.bs, n)
  {
    LaidShape(geo, blocks);
  }

  /** The root's first block in both states. */
  lemma {:induction false} FirstRootBlock(geo: Geometry, b0: Blocks, b2: Blocks)
    requires RootReady(geo, b0) && Shape(geo, b2) && DataBut(geo, b0, b2, 0) && InodeOf(geo, b0, ROOT).block[0] != 0
    ensures var b := InodeOf(geo, b0, ROOT).block[0];
            0 < b < |b2| == |b0| && b2[b] == b0[b] && |b0[b]| == geo.bs && geo.bs > 0 && Tiled(b0[b], 0)
  {
    hide InodeOf, Tiled;
    RootSame(geo, b0, b2);
  }

  /** A new file is found under its name if and only if the name has at most 255 bytes. */
  lemma {:induction false} CreatedFound(geo: Geometry, blocks: Blocks, blocks': Blocks, name: Name, num: nat, mode: nat)
    requires RootReady(geo, blocks) && mode < 0x1_0000 && Created(geo, blocks, blocks', name, num, mode) && name != []
    requires FindDir(blocks, geo.bs, InodeOf(geo, blocks, ROOT), 0, name) == None
    ensures FindDir(blocks', geo.bs, InodeOf(geo, blocks, ROOT), 0, name) == if |name| <= 255 then Some(num) else None
  {
    hide InodeOf, FindDir, DirOk, Tiled, Laid, Tables, HasRecord;
    var n := InodeOf(geo, blocks, ROOT);
    if |name| <= 255 {
      assert StoredName(name) == name;
    } else {
      LongNameNowhere(blocks', geo.bs, n, 0, name);
    }
    assert Shows(FindDir(blocks, geo.bs, n, 0, name), FindDir(blocks', geo.bs, n, 0, name), name, name, num);
  }
}
