/** The FAT16 on-disk layout: where the tables, the root directory and the clusters lie in the image. */
module Fat16Image {
  import opened Utils
  import opened Arith
  import ByteLayer

  const SECTOR: nat := 512
  const ENTRY: nat := 32       // bytes of a directory entry
  const EOF: nat := 0xFFF8     // chain values from here on end a chain
  const END_MARK: nat := 0xFFFF

  /** The fields of struct fat16_super that describe the layout. */
  datatype Geometry = Geometry(sectorsPerCluster: nat, reserved: nat, numFats: nat, maxRoot: nat, totalSectors: nat, fatSectors: nat)
  {
    function FatOffset(): nat { reserved * SECTOR }

    function FatBytes(): nat { fatSectors * SECTOR }

    /** Copy j of the table. */
    function CopyOffset(j: nat): nat { FatOffset() + Base(j, FatBytes()) }

    function RootOffset(): nat { CopyOffset(numFats) }

    function RootSectors(): nat { (maxRoot * ENTRY + (SECTOR - 1)) / SECTOR }

    function RootSlots(): nat { RootSectors() * (SECTOR / ENTRY) }

    function DataOffset(): nat { RootOffset() + RootSectors() * SECTOR }

    function ClusterBytes(): nat { sectorsPerCluster * SECTOR }

    function ClusterOffset(c: nat): nat requires 2 <= c { DataOffset() + Base(c - 2, ClusterBytes()) }

    /** One more than the largest cluster number. */
    function Limit(): nat {
      if sectorsPerCluster == 0 || totalSectors * SECTOR < DataOffset() then 2
      else 2 + (totalSectors * SECTOR - DataOffset()) / SECTOR / sectorsPerCluster
    }

    /** A volume of at most 0xFFF6 clusters whose table covers them all, within an image of n bytes. */
    ghost predicate Fits(n: nat) {
      && 0 < sectorsPerCluster && ClusterBytes() <= 4096 && 0 < reserved && 0 < numFats
      && DataOffset() <= totalSectors * SECTOR <= n <= 0xFFFE_0000
      && Limit() <= EOF && 2 * Limit() <= FatBytes()
    }
  }

  // ---------- what the image says ----------

  function Word(img: seq<Byte>, off: nat): nat
    requires off + 2 <= |img|
  {
    (img[off] as nat) + 256 * (img[off + 1] as nat)
  }

  ghost predicate Fit(g: Geometry, img: seq<Byte>) { g.Fits(|img|) }

  /** Entry c of copy j of the table. */
  ghost function CopyEntry(g: Geometry, img: seq<Byte>, j: nat, c: nat): nat
    requires Fit(g, img) && j < g.numFats && c < g.Limit()
  {
    EntryInCopy(g, img, j, c);
    Word(img, g.CopyOffset(j) + 2 * c)
  }

  ghost function Table(g: Geometry, img: seq<Byte>): (t: seq<nat>)
    requires Fit(g, img)
    ensures |t| == g.Limit() && forall c :: 0 <= c < |t| ==> t[c] == CopyEntry(g, img, 0, c) && t[c] <= END_MARK
  {
    seq(g.Limit(), c requires 0 <= c < g.Limit() => CopyEntry(g, img, 0, c))
  }

  /** All copies of the table are equal. */
  ghost predicate Mirrored(g: Geometry, img: seq<Byte>)
    requires Fit(g, img)
  {
    forall j: nat, c: nat :: j < g.numFats && c < g.Limit() ==> CopyEntry(g, img, j, c) == CopyEntry(g, img, 0, c)
  }

  ghost function SlotBytes(g: Geometry, img: seq<Byte>, i: nat): (e: seq<Byte>)
    requires Fit(g, img) && i < g.RootSlots()
    ensures |e| == ENTRY
  {
    SlotInRoot(g, img, i);
    img[g.RootOffset() + ENTRY * i..g.RootOffset() + ENTRY * i + ENTRY]
  }

  /** The entries of the root directory. */
  ghost function Root(g: Geometry, img: seq<Byte>): (d: seq<seq<Byte>>)
    requires Fit(g, img)
    ensures |d| == g.RootSlots() && forall i :: 0 <= i < |d| ==> d[i] == SlotBytes(g, img, i)
  {
    seq(g.RootSlots(), i requires 0 <= i < g.RootSlots() => SlotBytes(g, img, i))
  }

  ghost function ClusterData(g: Geometry, img: seq<Byte>, c: nat): (e: seq<Byte>)
    requires Fit(g, img) && 2 <= c < g.Limit()
    ensures |e| == g.ClusterBytes()
  {
    ClusterInImage(g, img, c);
    img[g.ClusterOffset(c)..g.ClusterOffset(c) + g.ClusterBytes()]
  }

  /** The contents of the clusters; the first two, which do not exist, are empty. */
  ghost function Data(g: Geometry, img: seq<Byte>): (d: seq<seq<Byte>>)
    requires Fit(g, img)
    ensures |d| == g.Limit() && forall c :: 2 <= c < |d| ==> d[c] == ClusterData(g, img, c)
  {
    seq(g.Limit(), c requires 0 <= c < g.Limit() => if c < 2 then [] else ClusterData(g, img, c))
  }

  // ---------- the regions do not overlap ----------

  lemma {:induction false} EntryInCopy(g: Geometry, img: seq<Byte>, j: nat, c: nat)
    requires Fit(g, img) && j < g.numFats && c < g.Limit()
    ensures g.CopyOffset(j) <= g.CopyOffset(j) + 2 * c && g.CopyOffset(j) + 2 * c + 2 <= g.CopyOffset(j + 1)
    ensures g.CopyOffset(j + 1) <= g.RootOffset() <= |img|
  {
    BaseOrder(j, j + 1, g.FatBytes());
    BaseOrder(j + 1, g.numFats, g.FatBytes());
  }

  lemma {:induction false} CopiesApart(g: Geometry, j: nat, k: nat)
    requires j < k
    ensures g.CopyOffset(j + 1) <= g.CopyOffset(k)
  {
    BaseOrder(j + 1, k, g.FatBytes());
  }

  lemma {:induction false} SlotInRoot(g: Geometry, img: seq<Byte>, i: nat)
    requires Fit(g, img) && i < g.RootSlots()
    ensures g.RootOffset() + ENTRY * i + ENTRY <= g.DataOffset() <= |img|
  {
  }

  lemma {:induction false} ClusterInImage(g: Geometry, img: seq<Byte>, c: nat)
    requires Fit(g, img) && 2 <= c < g.Limit()
    ensures g.DataOffset() <= g.ClusterOffset(c) && g.ClusterOffset(c) + g.ClusterBytes() <= |img|
  {
    LimitFits(g, |img|);
    BaseOrder(c - 2, g.Limit() - 2, g.ClusterBytes());
  }

  lemma {:induction false} LimitFits(g: Geometry, n: nat)
    requires g.Fits(n)
    ensures g.DataOffset() + Base(g.Limit() - 2, g.ClusterBytes()) <= g.totalSectors * SECTOR
  {
    var (bytes, spc) := (g.totalSectors * SECTOR - g.DataOffset(), g.sectorsPerCluster);
    WholeClusters(bytes, spc);
  }

  lemma {:induction false} WholeClusters(bytes: nat, spc: nat)
    requires spc > 0
    ensures Base(bytes / SECTOR / spc, spc * SECTOR) <= bytes
  {
    var q := bytes / SECTOR / spc;
    DivMod(bytes / SECTOR, spc);
    BaseIsProduct(q, spc * SECTOR);
    Scaled(q, spc, SECTOR);
  }

  lemma {:induction false} Scaled(q: nat, a: nat, b: nat)
    ensures q * (a * b) == q * a * b
  {
  }

  lemma {:induction false} ClustersApart(g: Geometry, c: nat, d: nat)
    requires 2 <= c < d
    ensures g.ClusterOffset(c) + g.ClusterBytes() <= g.ClusterOffset(d)
  {
    BaseOrder(c - 2, d - 2, g.ClusterBytes());
  }

  // ---------- what a write changes ----------

  lemma {:induction false} SpliceOutside(img: seq<Byte>, off: nat, src: seq<Byte>, a: nat, n: nat)
    requires off + |src| <= |img| && a + n <= |img| && (a + n <= off || off + |src| <= a)
    ensures ByteLayer.Splice(img, off, src)[a..a + n] == img[a..a + n]
  {
  }

  lemma {:induction false} SpliceInto(img: seq<Byte>, off: nat, src: seq<Byte>)
    requires off + |src| <= |img|
    ensures |ByteLayer.Splice(img, off, src)| == |img|
    ensures ByteLayer.Splice(img, off, src)[off..off + |src|] == src
  {
  }

  /** The directory and the clusters are untouched. */
  ghost predicate SameFiles(g: Geometry, img: seq<Byte>, img': seq<Byte>)
    requires Fit(g, img) && |img'| == |img|
  {
    Root(g, img') == Root(g, img) && Data(g, img') == Data(g, img)
  }

  ghost predicate SameTables(g: Geometry, img: seq<Byte>, img': seq<Byte>)
    requires Fit(g, img) && |img'| == |img|
  {
    forall j: nat, c: nat :: j < g.numFats && c < g.Limit() ==> CopyEntry(g, img', j, c) == CopyEntry(g, img, j, c)
  }

  lemma {:induction false} WordFromSlice(img: seq<Byte>, img': seq<Byte>, off: nat)
    requires off + 2 <= |img| == |img'| && img'[off..off + 2] == img[off..off + 2]
    ensures Word(img', off) == Word(img, off)
  {
    assert img'[off] == img'[off..off + 2][0] && img'[off + 1] == img'[off..off + 2][1];
  }

  /** A write below the root directory keeps directory and clusters. */
  lemma {:induction false} TableWriteKeeps(g: Geometry, img: seq<Byte>, off: nat, src: seq<Byte>)
    requires Fit(g, img) && off + |src| <= g.RootOffset() <= |img|
    ensures SameFiles(g, img, ByteLayer.Splice(img, off, src))
  {
    var img' := ByteLayer.Splice(img, off, src);
    forall i: nat | i < g.RootSlots()
      ensures SlotBytes(g, img', i) == SlotBytes(g, img, i)
    {
      SlotInRoot(g, img, i);
      SpliceOutside(img, off, src, g.RootOffset() + ENTRY * i, ENTRY);
    }
    forall c: nat | 2 <= c < g.Limit()
      ensures ClusterData(g, img', c) == ClusterData(g, img, c)
    {
      ClusterInImage(g, img, c);
      SpliceOutside(img, off, src, g.ClusterOffset(c), g.ClusterBytes());
    }
    assert Root(g, img') == Root(g, img);
    assert Data(g, img') == Data(g, img);
  }

  /** A write from the root directory on keeps every copy of the table. */
  lemma {:induction false} FileWriteKeeps(g: Geometry, img: seq<Byte>, off: nat, src: seq<Byte>)
    requires Fit(g, img) && g.RootOffset() <= off && off + |src| <= |img|
    ensures SameTables(g, img, ByteLayer.Splice(img, off, src))
    ensures Table(g, ByteLayer.Splice(img, off, src)) == Table(g, img)
  {
    var img' := ByteLayer.Splice(img, off, src);
    forall j: nat, c: nat | j < g.numFats && c < g.Limit()
      ensures CopyEntry(g, img', j, c) == CopyEntry(g, img, j, c)
    {
      EntryInCopy(g, img, j, c);
      SpliceOutside(img, off, src, g.CopyOffset(j) + 2 * c, 2);
      WordFromSlice(img, img', g.CopyOffset(j) + 2 * c);
    }
  }

  /** Writing one word changes one entry of one copy. */
  lemma {:induction false} WordWrite(g: Geometry, img: seq<Byte>, k: nat, d: nat, lo: Byte, hi: Byte)
    requires Fit(g, img) && k < g.numFats && d < g.Limit()
    ensures g.CopyOffset(k) + 2 * d + 2 <= |img|
    ensures var img' := ByteLayer.Splice(img, g.CopyOffset(k) + 2 * d, [lo, hi]);
            SameFiles(g, img, img')
            && forall j: nat, c: nat :: j < g.numFats && c < g.Limit() ==>
                 CopyEntry(g, img', j, c) == if j == k && c == d then lo + 256 * hi else CopyEntry(g, img, j, c)
  {
    hide Geometry.Fits, Geometry.Limit, Geometry.RootSectors, Geometry.CopyOffset, Geometry.RootOffset, SameFiles,
      ByteLayer.Splice;
    EntryInCopy(g, img, k, d);
    var off := g.CopyOffset(k) + 2 * d;
    var img' := ByteLayer.Splice(img, off, [lo, hi]);
    TableWriteKeeps(g, img, off, [lo, hi]);
    SpliceInto(img, off, [lo, hi]);
    forall j: nat, c: nat | j < g.numFats && c < g.Limit()
      ensures CopyEntry(g, img', j, c) == if j == k && c == d then lo + 256 * hi else CopyEntry(g, img, j, c)
    {
      EntryInCopy(g, img, j, c);
      if j == k && c == d {
        assert img'[off..off + 2][0] == lo && img'[off..off + 2][1] == hi;
      } else {
        if j < k {
          CopiesApart(g, j, k);
        } else if k < j {
          CopiesApart(g, k, j);
        }
        SpliceOutside(img, off, [lo, hi], g.CopyOffset(j) + 2 * c, 2);
        WordFromSlice(img, img', g.CopyOffset(j) + 2 * c);
      }
    }
  }

  /** Writing a directory entry changes that entry only. */
  lemma {:induction false} SlotWrite(g: Geometry, img: seq<Byte>, i: nat, e: seq<Byte>)
    requires Fit(g, img) && i < g.RootSlots() && |e| == ENTRY
    ensures g.RootOffset() + ENTRY * i + ENTRY <= |img|
    ensures var img' := ByteLayer.Splice(img, g.RootOffset() + ENTRY * i, e);
            SameTables(g, img, img') && Table(g, img') == Table(g, img)
            && Root(g, img') == Root(g, img)[i := e] && Data(g, img') == Data(g, img)
  {
    SlotInRoot(g, img, i);
    var off := g.RootOffset() + ENTRY * i;
    var img' := ByteLayer.Splice(img, off, e);
    FileWriteKeeps(g, img, off, e);
    SpliceInto(img, off, e);
    forall k: nat | k < g.RootSlots()
      ensures SlotBytes(g, img', k) == if k == i then e else SlotBytes(g, img, k)
    {
      SlotInRoot(g, img, k);
      if k != i {
        SpliceOutside(img, off, e, g.RootOffset() + ENTRY * k, ENTRY);
      }
    }
    forall c: nat | 2 <= c < g.Limit()
      ensures ClusterData(g, img', c) == ClusterData(g, img, c)
    {
      ClusterInImage(g, img, c);
      SpliceOutside(img, off, e, g.ClusterOffset(c), g.ClusterBytes());
    }
    assert Root(g, img') == Root(g, img)[i := e];
    assert Data(g, img') == Data(g, img);
  }

  /** Writing inside a cluster changes those bytes of that cluster only. */
  lemma {:induction false} ClusterWrite(g: Geometry, img: seq<Byte>, d: nat, at: nat, piece: seq<Byte>)
    requires Fit(g, img) && 2 <= d < g.Limit() && at + |piece| <= g.ClusterBytes()
    ensures g.ClusterOffset(d) + at + |piece| <= |img|
    ensures var img' := ByteLayer.Splice(img, g.ClusterOffset(d) + at, piece);
            SameTables(g, img, img') && Table(g, img') == Table(g, img)
            && Root(g, img') == Root(g, img)
            && Data(g, img') == Data(g, img)[d := ByteLayer.Splice(Data(g, img)[d], at, piece)]
  {
    hide Geometry.Fits, Geometry.Limit, Geometry.RootSectors, Geometry.RootOffset, Geometry.ClusterOffset,
      Geometry.ClusterBytes, CopyEntry,
      ClusterData, SlotBytes, ByteLayer.Splice;
    ClusterInImage(g, img, d);
    SpliceLength(img, g.ClusterOffset(d) + at, piece);
    var off := g.ClusterOffset(d) + at;
    var img' := ByteLayer.Splice(img, off, piece);
    FileWriteKeeps(g, img, off, piece);
    forall k: nat | k < g.RootSlots()
      ensures SlotBytes(g, img', k) == SlotBytes(g, img, k)
    {
      SlotAfter(g, img, off, piece, k);
    }
    forall c: nat | 2 <= c < g.Limit()
      ensures ClusterData(g, img', c) == if c == d then ByteLayer.Splice(ClusterData(g, img, d), at, piece)
                                         else ClusterData(g, img, c)
    {
      ClusterAfter(g, img, d, at, piece, c);
    }
    assert Root(g, img') == Root(g, img);
    assert Data(g, img') == Data(g, img)[d := ByteLayer.Splice(Data(g, img)[d], at, piece)];
  }

  lemma {:induction false} SlotAfter(g: Geometry, img: seq<Byte>, off: nat, piece: seq<Byte>, k: nat)
    requires Fit(g, img) && k < g.RootSlots() && g.DataOffset() <= off && off + |piece| <= |img|
    ensures SlotBytes(g, ByteLayer.Splice(img, off, piece), k) == SlotBytes(g, img, k)
  {
    SlotInRoot(g, img, k);
    SpliceOutside(img, off, piece, g.RootOffset() + ENTRY * k, ENTRY);
  }

  lemma {:induction false} ClusterAfter(g: Geometry, img: seq<Byte>, d: nat, at: nat, piece: seq<Byte>, c: nat)
    requires Fit(g, img) && 2 <= d < g.Limit() && 2 <= c < g.Limit() && at + |piece| <= g.ClusterBytes()
    requires g.ClusterOffset(d) + at + |piece| <= |img|
    ensures var img' := ByteLayer.Splice(img, g.ClusterOffset(d) + at, piece);
            ClusterData(g, img', c) == if c == d then ByteLayer.Splice(ClusterData(g, img, d), at, piece)
                                       else ClusterData(g, img, c)
  {
    hide Geometry.Fits, Geometry.Limit, Geometry.ClusterOffset, Geometry.ClusterBytes, ByteLayer.Splice;
    SpliceLength(img, g.ClusterOffset(d) + at, piece);
    ClusterInImage(g, img, c);
    if c == d {
      SpliceWithin(img, g.ClusterOffset(d), g.ClusterBytes(), at, piece);
    } else {
      if c < d {
        ClustersApart(g, c, d);
      } else {
        ClustersApart(g, d, c);
      }
      SpliceOutside(img, g.ClusterOffset(d) + at, piece, g.ClusterOffset(c), g.ClusterBytes());
    }
  }

  lemma {:induction false} SpliceLength(img: seq<Byte>, off: nat, src: seq<Byte>)
    requires off + |src| <= |img|
    ensures |ByteLayer.Splice(img, off, src)| == |img|
  {
  }

  lemma {:induction false} SpliceWithin(img: seq<Byte>, base: nat, n: nat, at: nat, piece: seq<Byte>)
    requires base + n <= |img| && at + |piece| <= n
    ensures ByteLayer.Splice(img, base + at, piece)[base..base + n] == ByteLayer.Splice(img[base..base + n], at, piece)
  {
  }
}
