/** fat16.c on a volume, in memory or behind a block cache: table entries, chains, the root directory,
    and whole files. */
module Fat16 {
  import opened Utils
  import opened Arith
  import ByteLayer
  import opened Fat16Image
  import opened Fat16Chains
  import opened Fat16Files

  // how the scan of a directory sector ends
  const NEITHER: nat := 0
  const FOUND: nat := 1
  const END: nat := 2

  /** The number of nonzero bytes. */
  ghost function NonZero(s: seq<Byte>): nat {
    if s == [] then 0 else NonZero(s[..|s| - 1]) + if s[|s| - 1] != 0 then 1 else 0
  }

  lemma {:induction false} NonZeroConcat(a: seq<Byte>, b: seq<Byte>)
    ensures NonZero(a + b) == NonZero(a) + NonZero(b)
  {
    if b == [] {
      assert a + b == a;
    } else {
      NonZeroConcat(a, b[..|b| - 1]);
      assert (a + b)[..|a + b| - 1] == a + b[..|b| - 1];
    }
  }

  /** Writing zeros never adds nonzero bytes, and zeroing a word that was not zero removes one. */
  lemma {:induction false} ZeroBytes(img: seq<Byte>, off: nat, n: nat)
    requires off + n <= |img| && n <= 2
    ensures NonZero(ByteLayer.Splice(img, off, [0, 0][..n])) <= NonZero(img)
    ensures n == 2 && Word(img, off) != 0 ==> NonZero(ByteLayer.Splice(img, off, [0, 0])) < NonZero(img)
  {
    var (a, w, b) := (img[..off], img[off..off + n], img[off + n..]);
    assert img == a + w + b;
    var zeros: seq<Byte> := [0, 0];
    NonZeroConcat(a, w);
    NonZeroConcat(a + w, b);
    NonZeroConcat(a, zeros[..n]);
    NonZeroConcat(a + zeros[..n], b);
    NoneNonZero(n);
    assert zeros[..2] == zeros;
    if n == 2 {
      SomeNonZero(w);
    }
  }

  lemma {:induction false} NoneNonZero(n: nat)
    requires n <= 2
    ensures NonZero([0, 0][..n]) == 0
  {
    assert [0, 0][..2] == [0, 0] && [0, 0][..1] == [0] && [0, 0][..0] == [] && [0][..0] == [];
  }

  lemma {:induction false} SomeNonZero(w: seq<Byte>)
    requires |w| == 2
    ensures NonZero(w) > 0 <==> w[0] != 0 || w[1] != 0
  {
    assert w[..1][..0] == [];
    assert NonZero(w) == NonZero(w[..1]) + if w[1] != 0 then 1 else 0;
  }

  class Fat16 {
    const vol: ByteLayer.Volume
    const g: Geometry

    constructor (vol: ByteLayer.Volume, g: Geometry)
      ensures this.vol == vol && this.g == g
    {
      this.vol, this.g := vol, g;
    }

    /** The bytes of the volume, in memory or as the cache presents them. */
    ghost function Img(): seq<Byte> reads vol.Repr() { vol.Flat() }

    /** A volume that fits its bytes, on a store whose accesses in range cannot fail. */
    ghost predicate Mounted() reads vol.Repr() { vol.Steady() && Usable() }

    ghost predicate Valid() reads vol.Repr() { Mounted() && Mirrored(g, Img()) }

    /** The same on a store whose writes may fail, and reads too when there is no entry to read into. */
    ghost predicate Usable() reads vol.Repr() { vol.Quiet() && Fit(g, Img()) }

    /** A table entry lies in one block. */
    predicate Even() { vol.cache == null || vol.cache.blockSize % 2 == 0 }

    // ---------- the number of accesses ----------

    /** Bounds on the clock ticks of reading and rewriting one table entry, and of whole operations. */
    ghost function EntryCost(): nat { 2 + 4 * g.numFats }

    ghost function ChainWork(): nat { 2 * g.Limit() + Base(g.Limit(), EntryCost()) }

    ghost function ReadWork(): nat { SECTOR * g.RootSectors() + Base(g.Limit(), g.ClusterBytes() + 2) }

    ghost function WriteWork(): nat {
      SECTOR * g.RootSectors() + Base(g.Limit(), EntryCost()) + 2 * g.Limit() + Base(g.Limit(), EntryCost())
      + Base(g.Limit(), 2 * g.ClusterBytes() + 2) + 2 * ENTRY
    }

    // ---------- access ----------

    method ReadAt(off: nat, len: nat) returns (r: int, buf: seq<Byte>)
      requires Usable() && 0 < len && off + len <= ByteLayer.OFFSET_RANGE
      modifies vol.Repr()
      ensures Usable() && Img() == old(Img()) && vol.Clock() <= old(vol.Clock()) + len && (r == 0 || r == -1)
      ensures r == 0 ==> off + len <= |Img()| && buf == Img()[off..off + len]
      ensures old(Mounted() && vol.Room(len)) ==> Mounted() && (r == 0 <==> off + len <= |Img()|)
    {
      r, buf := vol.ReadBytes(off, len);
    }

    /** Past the end of the bytes, a part of src that is in range may be written. */
    method WriteAt(off: nat, src: seq<Byte>) returns (r: int)
      requires Usable() && 0 < |src| && off + |src| <= ByteLayer.OFFSET_RANGE
      modifies vol.Repr()
      ensures Usable() && |Img()| == |old(Img())| && vol.Clock() <= old(vol.Clock()) + 2 * |src| && (r == 0 || r == -1)
      ensures r == 0 ==> off + |src| <= |Img()| && Img() == ByteLayer.Splice(old(Img()), off, src)
      ensures r == -1 ==> Img() == old(Img())
                          || exists k: nat :: k <= |src| && off + k <= |Img()| && Img() == ByteLayer.Splice(old(Img()), off, src[..k])
      ensures r == -1 && vol.OneBlock(off, |src|) ==> Img() == old(Img())
      ensures old(Mounted() && vol.Room(2 * |src|)) ==> Mounted() && (r == 0 <==> off + |src| <= |Img()|)
    {
      r := vol.WriteBytes(off, src);
    }

    ghost function Stored(): Files
      reads vol.Repr()
      requires Usable()
    {
      Files(Table(g, Img()), Root(g, Img()), Data(g, Img()))
    }

    // ---------- table entries ----------

    /** A read that fails or is outside the image gives 0xFFFF. */
    method FatRead(c: nat) returns (v: nat)
      requires Usable() && c < 0x1_0000
      modifies vol.Repr()
      ensures Usable() && Img() == old(Img()) && vol.Clock() <= old(vol.Clock()) + 2
      ensures v <= END_MARK && (c < g.Limit() ==> v == Stored().table[c] || v == END_MARK)
      ensures v != 0 && v != END_MARK ==>
                g.FatOffset() + 2 * c + 2 <= |Img()| && Word(Img(), g.FatOffset() + 2 * c) != 0
      ensures old(Mounted() && vol.Room(2)) ==> Mounted() && (c < g.Limit() ==> v == Stored().table[c])
    {
      hide Img, ByteLayer.Volume.Steady, ByteLayer.Volume.Quiet, ByteLayer.Volume.Clock, Geometry.Limit,
        Geometry.RootSectors;
      var off := g.FatOffset() + c * 2;
      TableInImage(0);
      if c < g.Limit() {
        EntryInCopy(g, Img(), 0, c);
      }
      var r, buf := ReadAt(off, 2);
      if r != 0 {
        return END_MARK;
      }
      ghost var img := Img();
      assert buf == img[off..off + 2];
      assert buf[0] == img[off] && buf[1] == img[off + 1];
      v := (buf[0] as nat) + 256 * (buf[1] as nat);
    }

    lemma {:induction false} TableInImage(j: nat)
      requires Usable() && j < g.numFats
      ensures g.FatOffset() <= g.CopyOffset(j) <= g.RootOffset() <= |Img()| <= 0xFFFE_0000
    {
      BaseOrder(j, g.numFats, g.FatBytes());
    }

    /** Every copy of the table is updated. A write that fails goes unnoticed; stored says that the first
        copy has the new entry. */
    method FatWrite(c: nat, v: nat) returns (ghost stored: bool)
      requires Usable() && c < 0x1_0000 && v <= END_MARK
      modifies vol.Repr()
      ensures Usable() && |Img()| == |old(Img())| && vol.Clock() <= old(vol.Clock()) + 4 * g.numFats
      ensures c < g.Limit() && (stored || Even()) ==>
                Stored() == if stored then old(Stored()).(table := old(Stored()).table[c := v]) else old(Stored())
      ensures v == 0 ==> NonZero(Img()) <= old(NonZero(Img()))
      ensures old(Mounted() && vol.Room(4 * g.numFats)) ==>
                && Mounted() && (c < g.Limit() ==> stored)
                && (c < g.Limit() && old(Mirrored(g, Img())) ==> Mirrored(g, Img()))
                && (v == 0 && g.FatOffset() + 2 * c + 2 <= |Img()| && old(Word(Img(), g.FatOffset() + 2 * c) != 0) ==>
                      NonZero(Img()) < old(NonZero(Img())))
    {
      hide Img, ByteLayer.Volume.Steady, ByteLayer.Volume.Quiet, ByteLayer.Volume.Clock, NonZero, CopiesWritten,
        CopyEntry, Mirrored, Geometry.Limit, Geometry.Fits, Table, Root, Data, Word;
      ghost var (before, sure) := (Img(), Mounted() && vol.Room(4 * g.numFats));
      ghost var done: set<nat> := {};
      NoCopies(before, c, v);
      var off := g.FatOffset() + c * 2;
      var buf: seq<Byte> := [v % 256, v / 256];
      var f := 0;
      while f < g.numFats
        invariant f <= g.numFats && Usable() && |Img()| == |before| && vol.Clock() <= old(vol.Clock()) + 4 * f
        invariant c < g.Limit() && (sure || Even()) ==> CopiesWritten(before, Img(), c, v, done)
        invariant forall j :: j in done ==> j < f
        invariant sure ==> Mounted() && (c < g.Limit() ==> forall j: nat :: j < f ==> j in done)
        invariant v == 0 ==> NonZero(Img()) <= NonZero(before)
        invariant sure && v == 0 && 0 < f && off + 2 <= |before| && Word(before, off) != 0 ==>
                  NonZero(Img()) < NonZero(before)
        invariant f == 0 ==> Img() == before
      {
        ghost var img := Img();
        ghost var ok := WriteCopy(off, f, c, v, buf);
        if c < g.Limit() && (ok || Even()) && (sure || Even()) {
          CopyStep(before, img, Img(), c, v, f, done, ok);
        }
        done := if ok then done + {f} else done;
        f := f + 1;
      }
      stored := (sure || Even()) && 0 in done;
      if c < g.Limit() && (sure || Even()) {
        TableStep(before, Img(), c, v, done);
      }
    }

    /** The write to one copy; outside the image nothing is written. */
    method WriteCopy(off: nat, f: nat, c: nat, v: nat, buf: seq<Byte>) returns (ghost ok: bool)
      requires Usable() && c < 0x1_0000 && v <= END_MARK && f < g.numFats
      requires off == g.FatOffset() + 2 * c && buf == [v % 256, v / 256]
      modifies vol.Repr()
      ensures Usable() && |Img()| == |old(Img())| && vol.Clock() <= old(vol.Clock()) + 4
      ensures c < g.Limit() && (ok || Even()) ==>
                  SameFiles(g, old(Img()), Img()) && forall j: nat, d: nat :: j < g.numFats && d < g.Limit() ==>
                CopyEntry(g, Img(), j, d) == if ok && j == f && d == c then v else CopyEntry(g, old(Img()), j, d)
      ensures v == 0 ==> NonZero(Img()) <= old(NonZero(Img()))
      ensures old(Mounted() && vol.Room(4)) ==> Mounted() && (c < g.Limit() ==> ok)
      ensures old(Mounted() && vol.Room(4)) && v == 0 && f == 0 && off + 2 <= |Img()| && old(Word(Img(), off)) != 0 ==>
                NonZero(Img()) < old(NonZero(Img()))
    {
      hide Img, ByteLayer.Volume.Steady, ByteLayer.Volume.Quiet, ByteLayer.Volume.OneBlock, ByteLayer.Volume.Clock,
        NonZero, CopyEntry, Geometry.Limit, Geometry.RootSectors, Geometry.Fits, Geometry.CopyOffset,
        Geometry.RootOffset, Word, ByteLayer.Splice;
      ghost var img := Img();
      TableInImage(f);
      var fatOff := off + f * g.fatSectors * SECTOR;
      CopyIsProduct(f);
      if c < g.Limit() {
        WordWrite(g, img, f, c, v % 256, v / 256);
        SameItself(img);
      }
      if Even() {
        QuietValid();
        EntryInBlock(c, f);
      }
      var r := WriteAt(fatOff, buf);
      if v == 0 {
        ZeroWrite(img, fatOff, r);
      }
      ok := r == 0;
    }

    lemma {:induction false} SameItself(img: seq<Byte>)
      requires Fit(g, img)
      ensures SameFiles(g, img, img)
    {
    }

    lemma {:induction false} QuietValid()
      requires Usable()
      ensures vol.Valid()
    {
    }

    lemma {:induction false} EntryInBlock(c: nat, f: nat)
      requires vol.Valid() && Even()
      ensures vol.OneBlock(g.FatOffset() + 2 * c + f * g.fatSectors * SECTOR, 2)
    {
      var half := g.reserved * (SECTOR / 2) + c + f * g.fatSectors * (SECTOR / 2);
      assert g.FatOffset() + 2 * c + f * g.fatSectors * SECTOR == 2 * half;
      if vol.cache != null {
        EvenDivision(half, vol.cache.blockSize);
      }
    }

    lemma {:induction false} EvenDivision(half: nat, bs: nat)
      requires bs > 0 && bs % 2 == 0
      ensures 2 * half / bs == (2 * half + 1) / bs
    {
      var h := bs / 2;
      var (q, rest) := (half / h, half % h);
      DivMod(half, h);
      Scaled(2, q, h);
      DivUnique(2 * half, bs, q, 2 * rest);
      DivUnique(2 * half + 1, bs, q, 2 * rest + 1);
    }

    /** The nonzero bytes after a write of two zeros at a position that may lie outside the volume. */
    lemma {:induction false} ZeroWrite(img: seq<Byte>, off: nat, r: int)
      requires if r == 0 then off + 2 <= |img| && Img() == ByteLayer.Splice(img, off, [0, 0])
               else Img() == img || exists k: nat :: k <= 2 && off + k <= |img| && Img() == ByteLayer.Splice(img, off, [0, 0][..k])
      ensures NonZero(Img()) <= NonZero(img)
      ensures r == 0 && Word(img, off) != 0 ==> NonZero(Img()) < NonZero(img)
    {
      hide Img, NonZero, ByteLayer.Splice, Word;
      if r == 0 {
        ZeroBytes(img, off, 2);
        assert [0, 0][..2] == [0, 0];
      } else if Img() != img {
        var k: nat :| k <= 2 && off + k <= |img| && Img() == ByteLayer.Splice(img, off, [0, 0][..k]);
        ZeroBytes(img, off, k);
      }
    }

    lemma {:induction false} CopyIsProduct(f: nat)
      ensures g.CopyOffset(f) == g.FatOffset() + f * g.fatSectors * SECTOR
    {
      BaseIsProduct(f, g.FatBytes());
      Scaled(f, g.fatSectors, SECTOR);
    }

    /** The copies in done have the new entry, the others the old one. */
    ghost predicate CopiesWritten(img: seq<Byte>, img': seq<Byte>, c: nat, v: nat, done: set<nat>)
      requires Fit(g, img) && |img'| == |img|
    {
      && SameFiles(g, img, img')
      && forall j: nat, d: nat :: j < g.numFats && d < g.Limit() ==>
           CopyEntry(g, img', j, d) == if j in done && d == c then v else CopyEntry(g, img, j, d)
    }

    lemma {:induction false} NoCopies(img: seq<Byte>, c: nat, v: nat)
      requires Fit(g, img)
      ensures CopiesWritten(img, img, c, v, {}) && g.numFats > 0
    {
    }

    lemma {:induction false} CopyStep(before: seq<Byte>, img: seq<Byte>, img': seq<Byte>, c: nat, v: nat, f: nat,
                                      done: set<nat>, ok: bool)
      requires Fit(g, before) && |img| == |img'| == |before| && f < g.numFats && f !in done
      requires CopiesWritten(before, img, c, v, done) && SameFiles(g, img, img')
      requires forall j: nat, d: nat :: j < g.numFats && d < g.Limit() ==>
                 CopyEntry(g, img', j, d) == if ok && j == f && d == c then v else CopyEntry(g, img, j, d)
      ensures CopiesWritten(before, img', c, v, if ok then done + {f} else done)
    {
    }

    lemma {:induction false} TableStep(before: seq<Byte>, img: seq<Byte>, c: nat, v: nat, done: set<nat>)
      requires Fit(g, before) && |img| == |before| && c < g.Limit() && v <= END_MARK
      requires CopiesWritten(before, img, c, v, done)
      ensures Table(g, img) == (if 0 in done then Table(g, before)[c := v] else Table(g, before))
      ensures SameFiles(g, before, img)
      ensures Mirrored(g, before) && (forall j: nat :: j < g.numFats ==> j in done) ==> Mirrored(g, img)
    {
      assert g.numFats > 0;
      assert forall d :: 0 <= d < g.Limit() ==> Table(g, img)[d] == CopyEntry(g, img, 0, d);
    }

    // ---------- chains ----------

    /** Links the first n free clusters into a chain, or changes nothing; memory says whether the
        temporary list could be allocated. The positions of links whose writes fail are in dropped. */
    method AllocateChain(n: nat, memory: bool)
      returns (status: int, start: nat, ghost cs: seq<nat>, ghost dropped: set<nat>)
      requires Usable() && n < 0x1_0000
      modifies vol.Repr()
      ensures Usable() && |Img()| == |old(Img())| && vol.Clock() <= old(vol.Clock()) + ChainWork()
      ensures status == -1 <==> n == 0
      ensures status == -3 <==> n > 0 && !memory
      ensures status != 0 ==> Img() == old(Img()) && (status == -1 || status == -2 || status == -3)
      ensures status == 0 ==> SomeFree(old(Stored()).table, cs) && |cs| == n && start == cs[0]
      ensures status == 0 && Even() ==>
                LinkedExcept(old(Stored()).table, Stored().table, cs, dropped) && Stored() == old(Stored()).(table := Stored().table)
      ensures old(Valid() && vol.Room(ChainWork())) ==>
                Valid() && (status == -2 <==> n > 0 && memory && |FreeBelow(old(Stored()).table, g.Limit())| < n)
      ensures old(Valid() && vol.Room(ChainWork())) && status == 0 ==>
                && Takes(old(Stored()).table, n, cs) && LinkedAs(old(Stored()).table, Stored().table, cs)
                && Stored() == old(Stored()).(table := Stored().table)
    {
      hide Img, ByteLayer.Volume.Steady, ByteLayer.Volume.Quiet, ByteLayer.Volume.Clock, Geometry.Fits, Geometry.Limit,
        Mirrored, Takes, SomeFree, LinkedAs, LinkedExcept, FreeBelow, Base, Table, Root, Data;
      cs, dropped := [], {};
      if n == 0 {
        return -1, 0, cs, dropped;
      }
      if !memory {
        return -3, 0, cs, dropped;
      }
      ghost var t := Stored().table;
      var list := CollectFree(n);
      if |list| < n {
        return -2, 0, cs, dropped;
      }
      cs := list;
      SomeFreeShape(t, list);
      if list <= FreeBelow(t, g.Limit()) {
        TakesThem(t, n, list);
      }
      BaseOrder(|list|, g.Limit(), EntryCost());
      dropped := LinkList(list);
      return 0, list[0], cs, dropped;
    }

    lemma {:induction false} TakesThem(t: Fat, n: nat, list: seq<nat>)
      requires list <= FreeBelow(t, |t|) && |list| == n && n > 0
      ensures Takes(t, n, list)
    {
    }

    /** The first n free clusters, or all of them if there are fewer; one that cannot be read is passed over. */
    method CollectFree(n: nat) returns (list: seq<nat>)
      requires Usable()
      modifies vol.Repr()
      ensures Usable() && Img() == old(Img()) && vol.Clock() <= old(vol.Clock()) + 2 * g.Limit()
      ensures SomeFree(Stored().table, list) && |list| <= n
      ensures old(Mounted() && vol.Room(2 * g.Limit())) ==> Mounted() && list <= FreeBelow(Stored().table, g.Limit())
      ensures old(Mounted() && vol.Room(2 * g.Limit())) ==>
                |list| == if |FreeBelow(Stored().table, g.Limit())| < n then |FreeBelow(Stored().table, g.Limit())|
                          else n
    {
      hide Img, ByteLayer.Volume.Steady, ByteLayer.Volume.Quiet, ByteLayer.Volume.Clock, Geometry.Fits, Geometry.Limit,
        FreeBelow, SomeFree, Table, Root, Data;
      ghost var (t, sure) := (Stored().table, Mounted() && vol.Room(2 * g.Limit()));
      list := [];
      var c := 2;
      LimitInRange();
      NoneBelow(t);
      while c < g.Limit() && |list| < n
        invariant Usable() && Img() == old(Img()) && vol.Clock() <= old(vol.Clock()) + 2 * (c - 2)
        invariant 2 <= c <= g.Limit() && |list| <= n && SomeFreeBelow(t, list, c)
        invariant sure ==> Mounted() && list == FreeBelow(t, c)
      {
        var e := FatRead(c);
        FreeAt(t, c, list);
        if e == 0 {
          list := list + [c];
        }
        c := c + 1;
      }
      FreeBelowPrefix(t, c, g.Limit());
      AllFree(t, list, c);
    }

    ghost predicate SomeFreeBelow(t: Fat, list: seq<nat>, c: nat) {
      SomeFree(t, list) && forall i :: 0 <= i < |list| ==> list[i] < c
    }

    lemma {:induction false} AllFree(t: Fat, list: seq<nat>, c: nat)
      requires SomeFreeBelow(t, list, c)
      ensures SomeFree(t, list)
    {
    }

    lemma {:induction false} NoneBelow(t: Fat)
      requires 2 <= |t|
      ensures FreeBelow(t, 2) == [] && SomeFreeBelow(t, [], 2)
    {
    }

    lemma {:induction false} FreeAt(t: Fat, c: nat, list: seq<nat>)
      requires 2 <= c < |t| && SomeFreeBelow(t, list, c)
      ensures SomeFreeBelow(t, list, c + 1) && (t[c] == 0 ==> SomeFreeBelow(t, list + [c], c + 1))
      ensures FreeBelow(t, c + 1) == FreeBelow(t, c) + if t[c] == 0 then [c] else []
    {
    }

    lemma {:induction false} LimitInRange()
      requires Usable()
      ensures 2 <= g.Limit() <= EOF
    {
      hide Img, ByteLayer.Volume.Steady, ByteLayer.Volume.Quiet, Base;
    }

    method LinkList(list: seq<nat>) returns (ghost dropped: set<nat>)
      requires Usable() && list != [] && Distinct(list) && InTable(Stored().table, list)
      modifies vol.Repr()
      ensures Usable() && |Img()| == |old(Img())| && vol.Clock() <= old(vol.Clock()) + Base(|list|, EntryCost())
      ensures Even() ==>
                LinkedExcept(old(Stored()).table, Stored().table, list, dropped) && Stored() == old(Stored()).(table := Stored().table)
      ensures old(Valid() && vol.Room(Base(|list|, EntryCost()))) ==>
                Valid() && LinkedAs(old(Stored()).table, Stored().table, list) && Stored() == old(Stored()).(table := Stored().table)
    {
      hide Img, ByteLayer.Volume.Steady, ByteLayer.Volume.Quiet, ByteLayer.Volume.Clock, Geometry.Fits, Geometry.Limit,
        Mirrored, LinkedUpTo, LinkedAs, LinkedExcept, Base, Distinct, InTable, Table, Root, Data;
      LimitInRange();
      ghost var (s, sure) := (Stored(), Valid() && vol.Room(Base(|list|, EntryCost())));
      dropped := {};
      var i := 0;
      LinkNone(s.table, list);
      BaseNext(0, EntryCost());
      while i < |list|
        invariant Usable() && i <= |list| && |Img()| == |old(Img())|
        invariant vol.Clock() <= old(vol.Clock()) + Base(i, EntryCost())
        invariant sure ==> Valid() && dropped == {}
        invariant sure || Even() ==> LinkedUpTo(s.table, Stored().table, list, i, dropped) && Stored() == s.(table := Stored().table)
      {
        ghost var t := Stored().table;
        LinkAt(s.table, list, i);
        BaseNext(i, EntryCost());
        BaseOrder(i + 1, |list|, EntryCost());
        var val := if i + 1 == |list| then END_MARK else list[i + 1];
        ghost var stored := FatWrite(list[i], val);
        if sure || Even() {
          LinkStep(s.table, t, list, i, dropped, stored);
        }
        dropped := if stored then dropped else dropped + {i};
        i := i + 1;
      }
      if sure || Even() {
        LinkedAll(s.table, Stored().table, list, dropped);
      }
    }

    lemma {:induction false} LinkNone(t: Fat, list: seq<nat>)
      requires InTable(t, list)
      ensures LinkedUpTo(t, t, list, 0, {})
    {
    }

    lemma {:induction false} LinkAt(t: Fat, list: seq<nat>, i: nat)
      requires InTable(t, list) && i < |list|
      ensures 2 <= list[i] < |t| && (i + 1 < |list| ==> list[i + 1] < |t|)
    {
    }

    /** Zeroes the entries along a chain. It ends on every table, cyclic or corrupt: each round but the last
        removes a nonzero byte from the image. */
    method FreeChain(start: nat, ghost cs: seq<nat>, ghost rounds: nat)
      requires Mounted() && start < 0x1_0000
      requires vol.Room(Base(rounds, EntryCost()))
      requires NonZero(Img()) < rounds || (Valid() && IsChain(Stored().table, start, cs) && |cs| <= rounds)
      modifies vol.Repr()
      ensures vol.Clock() <= old(vol.Clock()) + Base(rounds, EntryCost())
      ensures Mounted() && |Img()| == |old(Img())| && NonZero(Img()) <= old(NonZero(Img()))
      ensures old(Valid() && IsChain(Stored().table, start, cs)) ==>
                Valid() && Freed(old(Stored()).table, Stored().table, cs) && Stored() == old(Stored()).(table := Stored().table)
    {
      hide Img, ByteLayer.Volume.Steady, ByteLayer.Volume.Quiet, ByteLayer.Volume.Clock, Geometry.Fits, Geometry.Limit,
        Mirrored, IsChain, Freed, Base, NonZero, Table, Root, Data, Word;
      ghost var (img, good) := (Img(), Valid() && IsChain(Stored().table, start, cs));
      ghost var s := Stored();
      ghost var i: nat := 0;
      var cur := start;
      LimitInRange();
      FreedNone(s.table, cs);
      BaseNext(0, EntryCost());
      if good {
        ChainBegins(s.table, start, cs);
      }
      while cur >= 2 && cur != 0 && cur < EOF
        invariant Mounted() && |Img()| == |img| && cur < 0x1_0000 && NonZero(Img()) + i <= NonZero(img)
        invariant vol.Clock() <= old(vol.Clock()) + Base(i, EntryCost())
        invariant good ==> Valid() && Stored() == s.(table := Stored().table)
        invariant good ==> i < |cs| && cur == cs[i] && Freed(s.table, Stored().table, cs[..i])
        decreases NonZero(Img())
      {
        BaseNext(i, EntryCost());
        BaseOrder(i + 1, rounds, EntryCost());
        var next := FreeOne(cur, s, start, cs, i, good);
        if next == 0 || next >= EOF {
          return;
        }
        cur := next;
        i := i + 1;
      }
      BaseOrder(i, rounds, EntryCost());
      if good {
        ChainLinkInRange(s.table, start, cs, i);
      }
    }

    lemma {:induction false} ChainBegins(t: Fat, start: nat, cs: seq<nat>)
      requires IsChain(t, start, cs)
      ensures cs != [] && cs[0] == start
    {
    }

    /** Reads an entry and zeroes it. */
    method FreeOne(cur: nat, ghost s: Files, ghost start: nat, ghost cs: seq<nat>, ghost i: nat, ghost good: bool)
      returns (next: nat)
      requires Mounted() && 2 <= cur < EOF && vol.Room(EntryCost())
      requires good ==> Valid() && Stored() == s.(table := Stored().table) && IsChain(s.table, start, cs)
                        && i < |cs| && cur == cs[i] && Freed(s.table, Stored().table, cs[..i])
      modifies vol.Repr()
      ensures Mounted() && |Img()| == |old(Img())| && next < 0x1_0000 && vol.Clock() <= old(vol.Clock()) + EntryCost()
      ensures NonZero(Img()) <= old(NonZero(Img()))
      ensures (next != 0 && next < EOF ==> NonZero(Img()) < old(NonZero(Img())))
      ensures good ==> Valid() && Stored() == s.(table := Stored().table)
      ensures good && next != 0 && next < EOF ==>
                i + 1 < |cs| && next == cs[i + 1] && Freed(s.table, Stored().table, cs[..i + 1])
      ensures good && (next == 0 || next >= EOF) ==> Freed(s.table, Stored().table, cs)
    {
      hide Img, ByteLayer.Volume.Steady, ByteLayer.Volume.Quiet, ByteLayer.Volume.Clock, Geometry.Fits, Geometry.Limit,
        Mirrored, IsChain, Freed, NonZero, Table, Root, Data, Word;
      ghost var t := Stored().table;
      if good {
        ChainLink(s.table, start, cs, i, t);
        ChainLinkInRange(s.table, start, cs, i);
        FreedSize(s.table, t, cs[..i]);
        FreeStep(s.table, t, cs, i);
      }
      LimitInRange();
      next := FatRead(cur);
      ghost var stored := FatWrite(cur, 0);
    }

    lemma {:induction false} FreedSize(t: Fat, t': Fat, cs: seq<nat>)
      requires Freed(t, t', cs)
      ensures |t'| == |t|
    {
    }

    lemma {:induction false} ChainLinkInRange(t: Fat, start: nat, cs: seq<nat>, i: nat)
      requires IsChain(t, start, cs) && i < |cs|
      ensures 2 <= cs[i] < |t| && (i + 1 < |cs| ==> 2 <= cs[i + 1] < |t|)
    {
    }

    // ---------- the root directory ----------

    /** The field root_dir_sector. */
    function RootSector(): nat { g.reserved + g.numFats * g.fatSectors }

    lemma {:induction false} RootSectorOffset()
      ensures RootSector() * SECTOR == g.RootOffset()
    {
      CopyIsProduct(g.numFats);
    }

    method ReadSector(sector: nat) returns (r: int, buf: seq<Byte>)
      requires Mounted() && sector * SECTOR + SECTOR <= |Img()|
      requires vol.Room(SECTOR)
      modifies vol.Repr()
      ensures Mounted() && Img() == old(Img()) && vol.Clock() <= old(vol.Clock()) + SECTOR
      ensures r == 0 && buf == Img()[sector * SECTOR..sector * SECTOR + SECTOR]
    {
      hide Img, ByteLayer.Volume.Steady, ByteLayer.Volume.Quiet, ByteLayer.Volume.Clock, Geometry.Fits;
      SizeInRange();
      r, buf := ReadAt(sector * SECTOR, SECTOR);
    }

    lemma {:induction false} SizeInRange()
      requires Mounted()
      ensures |Img()| <= 0xFFFE_0000
    {
    }

    /** fat16_find_root_entry_bytes: the first entry of that short name before the end mark; the free
        slot is the end mark if there is one, else the first deleted entry. */
    method FindRoot(name: Name) returns (r: int, ent: seq<Byte>, entOff: nat, freeOff: nat, ghost k: nat)
      requires Mounted()
      requires vol.Room(SECTOR * g.RootSectors())
      modifies vol.Repr()
      ensures Mounted() && Img() == old(Img()) && vol.Clock() <= old(vol.Clock()) + SECTOR * g.RootSectors()
      ensures k == Find(Stored().root, ShortName(name), 0) && r == if k < |Stored().root| then 0 else -1
      ensures r == 0 ==> ent == Stored().root[k] && entOff == g.RootOffset() + ENTRY * k
      ensures r == -1 ==> freeOff == SlotOffset(FreeSlot(Stored().root))
    {
      hide Img, ByteLayer.Volume.Steady, ByteLayer.Volume.Quiet, ByteLayer.Volume.Clock, Scanned, Find, EndFrom,
        FirstDeleted, FreeSlot, ShortName, Live, Geometry.Fits, Geometry.RootSectors,
        Geometry.RootOffset, SlotOffset, Table, Data;
      var short := MakeShortName(name);
      ghost var root := Stored().root;
      var sectors := (g.maxRoot + (SECTOR / ENTRY - 1)) / (SECTOR / ENTRY);
      var firstFree: nat := NO_SLOT;
      var s := 0;
      k := 0;
      ent, entOff, freeOff := [], 0, 0;
      ScanStart(root, short);
      SectorCount();
      while s < sectors
        invariant Mounted() && Img() == old(Img()) && vol.Clock() <= old(vol.Clock()) + SECTOR * s
        invariant s <= sectors && k == 16 * s && Scanned(root, short, k, firstFree)
      {
        SectorInRoot(s);
        var got, sec := ReadSector(RootSector() + s);
        SectorSlots(s, sec);
        var stop, at;
        stop, ent, at, firstFree, k := ScanSector(sec, short, (RootSector() + s) * SECTOR, firstFree, root, k);
        if stop == END {
          return -1, ent, entOff, at, |root|;
        }
        if stop == FOUND {
          return 0, ent, at, firstFree, k;
        }
        s := s + 1;
      }
      ScanEnd(root, short, k, firstFree);
      r, freeOff := -1, firstFree;
    }

    /** One sector of the scan: the end mark, the entry of that name, or neither. */
    method ScanSector(sec: seq<Byte>, short: seq<Byte>, sectorOff: nat, firstFree0: nat, ghost root: seq<seq<Byte>>,
                      ghost k0: nat)
      returns (stop: nat, ent: seq<Byte>, at: nat, firstFree: nat, ghost k: nat)
      requires Mounted() && |sec| == SECTOR && |short| == 11 && Entries(root) && Scanned(root, short, k0, firstFree0)
      requires SectorHolds(sec, sectorOff, root, k0)
      ensures stop == END ==> Find(root, short, 0) == |root| && at == SlotOffset(FreeSlot(root))
      ensures stop == FOUND ==> k == Find(root, short, 0) < |root| && ent == root[k] && at == g.RootOffset() + ENTRY * k
      ensures stop == NEITHER ==> k == k0 + 16 && Scanned(root, short, k, firstFree)
      ensures stop == END || stop == FOUND || stop == NEITHER
    {
      hide Img, ByteLayer.Volume.Steady, ByteLayer.Volume.Quiet, Scanned, Find, EndFrom, FirstDeleted, FreeSlot, Live,
        Geometry.Fits, Geometry.RootOffset, SlotOffset;
      firstFree, k, at, ent := firstFree0, k0, 0, [];
      var e := 0;
      while e < SECTOR / ENTRY
        invariant Mounted() && e <= 16 && k == k0 + e && Scanned(root, short, k, firstFree)
      {
        ent := sec[e * ENTRY..e * ENTRY + ENTRY];
        at := sectorOff + e * ENTRY;
        EntryHeld(sec, sectorOff, root, k0, e);
        ScanStep(root, short, k, firstFree);
        NamedMeans(ent, short);
        if ent[0] == 0x00 {
          return END, ent, at, firstFree, k;
        }
        if ent[0] == DELETED {
          if firstFree == NO_SLOT {
            firstFree := at;
          }
        } else if ent[11] / 8 % 2 == 1 {
        } else if ent[..11] == short {
          return FOUND, ent, at, firstFree, k;
        }
        e := e + 1;
        k := k + 1;
      }
      stop := NEITHER;
    }

    /** The sector at sectorOff holds the sixteen entries from k on. */
    ghost predicate SectorHolds(sec: seq<Byte>, sectorOff: nat, root: seq<seq<Byte>>, k: nat)
      requires |sec| == SECTOR
    {
      forall e: nat :: e < 16 ==> EntryHolds(sec, sectorOff, root, k, e)
    }

    ghost predicate EntryHolds(sec: seq<Byte>, sectorOff: nat, root: seq<seq<Byte>>, k: nat, e: nat)
      requires |sec| == SECTOR && e < 16
    {
      k + e < |root| && sec[e * ENTRY..e * ENTRY + ENTRY] == root[k + e] && SlotOffset(k + e) == sectorOff + e * ENTRY
    }

    lemma {:induction false} EntryHeld(sec: seq<Byte>, sectorOff: nat, root: seq<seq<Byte>>, k: nat, e: nat)
      requires |sec| == SECTOR && SectorHolds(sec, sectorOff, root, k) && e < 16
      ensures EntryHolds(sec, sectorOff, root, k, e)
    {
    }

    lemma {:induction false} SectorSlots(s: nat, sec: seq<Byte>)
      requires Mounted() && s < g.RootSectors() && (RootSector() + s) * SECTOR + SECTOR <= |Img()|
      requires sec == Img()[(RootSector() + s) * SECTOR..(RootSector() + s) * SECTOR + SECTOR]
      ensures |sec| == SECTOR && SectorHolds(sec, (RootSector() + s) * SECTOR, Stored().root, 16 * s)
    {
      hide Img, ByteLayer.Volume.Steady, ByteLayer.Volume.Quiet, Geometry.Fits, Geometry.RootOffset, Geometry.Limit,
        RootSector, SlotOffset, Root;
      var (root, at, k) := (Stored().root, (RootSector() + s) * SECTOR, 16 * s);
      forall e: nat | e < 16
        ensures EntryHolds(sec, at, root, k, e)
      {
        SlotInSector(s, e, sec);
        assert k + e < |root|;
      }
    }

    lemma {:induction false} NamedMeans(e: seq<Byte>, short: seq<Byte>)
      requires |e| == ENTRY && |short| == 11
      ensures Named(e, short) <==> e[0] != 0 && e[0] != DELETED && e[11] / 8 % 2 != 1 && e[..11] == short
    {
    }

    lemma {:induction false} SectorCount()
      ensures (g.maxRoot + (SECTOR / ENTRY - 1)) / (SECTOR / ENTRY) == g.RootSectors()
    {
    }

    lemma {:induction false} SectorInRoot(s: nat)
      requires Mounted() && s < (g.maxRoot + (SECTOR / ENTRY - 1)) / (SECTOR / ENTRY)
      ensures s < g.RootSectors() && (RootSector() + s) * SECTOR + SECTOR <= |Img()|
    {
      RootSectorOffset();
    }

    /** Slot 16 s + e is entry e of sector s of the root directory. */
    lemma {:induction false} SlotInSector(s: nat, e: nat, sec: seq<Byte>)
      requires Mounted() && s < g.RootSectors() && e < 16 && (RootSector() + s) * SECTOR + SECTOR <= |Img()|
      requires sec == Img()[(RootSector() + s) * SECTOR..(RootSector() + s) * SECTOR + SECTOR]
      ensures 16 * s + e < |Stored().root| && sec[e * ENTRY..e * ENTRY + ENTRY] == Stored().root[16 * s + e]
      ensures SlotOffset(16 * s + e) == (RootSector() + s) * SECTOR + e * ENTRY
    {
      hide Geometry.Fits, Geometry.RootOffset, Geometry.Limit, RootSector;
      RootSectorOffset();
      SlotInRoot(g, Img(), 16 * s + e);
      var (from, at) := ((RootSector() + s) * SECTOR, e * ENTRY);
      SliceOfSlice(Img(), from, from + SECTOR, at, at + ENTRY);
    }

    lemma {:induction false} SliceOfSlice(img: seq<Byte>, from: nat, to: nat, at: nat, end: nat)
      requires from <= to <= |img| && at <= end <= to - from
      ensures img[from..to][at..end] == img[from + at..from + end]
    {
      var (a, b) := (img[from..to][at..end], img[from + at..from + end]);
      assert forall i :: 0 <= i < |a| ==> a[i] == b[i];
    }

    lemma {:induction false} ScanEnd(root: seq<seq<Byte>>, short: seq<Byte>, k: nat, firstFree: nat)
      requires |short| == 11 && Entries(root)
      requires Scanned(root, short, k, firstFree) && k >= 16 * ((g.maxRoot + (SECTOR / ENTRY - 1)) / (SECTOR / ENTRY))
      ensures k == |root| && Find(root, short, 0) == |root| && firstFree == SlotOffset(FreeSlot(root))
    {
      assert g.RootSectors() == (g.maxRoot + 15) / 16;
    }

    /** The byte offset of a slot, or the mark for no slot. */
    ghost function SlotOffset(i: nat): nat { if i < g.RootSlots() then g.RootOffset() + ENTRY * i else NO_SLOT }

    /** Entries below k hold no match and no end mark, and firstFree is the first deleted one among them. */
    ghost predicate Scanned(root: seq<seq<Byte>>, short: seq<Byte>, k: nat, firstFree: nat)
      requires |short| == 11 && Entries(root)
    {
      && k <= |root| == g.RootSlots()
      && Find(root, short, 0) == Find(root, short, k) && EndFrom(root, 0) == EndFrom(root, k)
      && (if firstFree == NO_SLOT then FirstDeleted(root, 0) == FirstDeleted(root, k)
          else FirstDeleted(root, 0) < k && firstFree == SlotOffset(FirstDeleted(root, 0)))
    }

    lemma {:induction false} ScanStart(root: seq<seq<Byte>>, short: seq<Byte>)
      requires |short| == 11 && |root| == g.RootSlots() && Entries(root)
      ensures Scanned(root, short, 0, NO_SLOT)
    {
    }

    lemma {:induction false} ScanStep(root: seq<seq<Byte>>, short: seq<Byte>, k: nat, firstFree: nat)
      requires Mounted() && |short| == 11 && Entries(root)
      requires k < |root| && Scanned(root, short, k, firstFree)
      ensures SlotOffset(k) < NO_SLOT && SlotOffset(k) == g.RootOffset() + ENTRY * k
      ensures root[k][0] == 0 ==> Find(root, short, 0) == |root| && FreeSlot(root) == k
      ensures Named(root[k], short) ==> Find(root, short, 0) == k
      ensures root[k][0] != 0 && !Named(root[k], short) ==>
                Scanned(root, short, k + 1, if root[k][0] == DELETED && firstFree == NO_SLOT then SlotOffset(k)
                                            else firstFree)
    {
      SlotInRoot(g, Img(), k);
    }

    // ---------- clusters ----------

    /** The field first_data_sector, and from it the first sector of a cluster. */
    function FirstDataSector(): nat { RootSector() + g.RootSectors() }

    function ClusterSector(c: nat): nat requires 2 <= c { FirstDataSector() + (c - 2) * g.sectorsPerCluster }

    lemma {:induction false} ClusterSectorOffset(c: nat)
      requires Mounted() && 2 <= c < g.Limit()
      ensures ClusterSector(c) * SECTOR == g.ClusterOffset(c) && g.ClusterOffset(c) + g.ClusterBytes() <= |Img()|
    {
      hide Geometry.Fits, Geometry.RootOffset, Geometry.Limit, RootSector, Geometry.RootSectors;
      RootSectorOffset();
      BaseIsProduct(c - 2, g.ClusterBytes());
      Scaled(c - 2, g.sectorsPerCluster, SECTOR);
      ClusterInImage(g, Img(), c);
    }

    method ReadCluster(c: nat) returns (r: int, buf: seq<Byte>)
      requires Mounted() && 2 <= c < g.Limit()
      requires vol.Room(g.ClusterBytes())
      modifies vol.Repr()
      ensures Mounted() && Img() == old(Img()) && vol.Clock() <= old(vol.Clock()) + g.ClusterBytes()
      ensures r == 0 && buf == Stored().data[c]
    {
      hide Img, ByteLayer.Volume.Steady, ByteLayer.Volume.Quiet, ByteLayer.Volume.Clock, Geometry.Fits,
        Geometry.ClusterOffset, Geometry.Limit, Geometry.RootSectors, RootSector, ClusterSector, Table, Root;
      ClusterSectorOffset(c);
      buf := [];
      r := 0;
      var sc := 0;
      ghost var from := g.ClusterOffset(c);
      while sc < g.sectorsPerCluster
        invariant Mounted() && Img() == old(Img()) && vol.Clock() <= old(vol.Clock()) + sc * SECTOR
        invariant r == 0 && sc <= g.sectorsPerCluster && |buf| == sc * SECTOR
        invariant buf == Img()[from..from + |buf|]
      {
        var sec;
        r, sec := ReadSector(ClusterSector(c) + sc);
        Extend(Img(), from, from + |buf|, from + |buf| + SECTOR);
        buf := buf + sec;
        sc := sc + 1;
      }
    }

    lemma {:induction false} Extend(img: seq<Byte>, a: nat, b: nat, c: nat)
      requires a <= b <= c <= |img|
      ensures img[a..b] + img[b..c] == img[a..c]
    {
    }

    method WriteCluster(c: nat, buf: seq<Byte>) returns (r: int)
      requires Valid() && 2 <= c < g.Limit() && |buf| == g.ClusterBytes()
      requires vol.Room(2 * g.ClusterBytes())
      modifies vol.Repr()
      ensures vol.Clock() <= old(vol.Clock()) + 2 * g.ClusterBytes()
      ensures Valid() && r == 0 && |Img()| == |old(Img())|
      ensures Stored() == old(Stored()).(data := old(Stored()).data[c := buf])
    {
      hide Img, ByteLayer.Volume.Steady, ByteLayer.Volume.Quiet, ByteLayer.Volume.Clock, Geometry.Fits,
        Geometry.ClusterOffset, Geometry.Limit, Geometry.RootSectors, RootSector, ClusterSector, ByteLayer.Splice,
        Mirrored, Table, Root, Data;
      ClusterSectorOffset(c);
      SizeInRange();
      r := 0;
      var sc := 0;
      ghost var s := Stored();
      assert buf[..0] + s.data[c][0..] == s.data[c] && s.data[c := s.data[c]] == s.data;
      while sc < g.sectorsPerCluster
        invariant sc <= g.sectorsPerCluster && Valid() && r == 0 && |Img()| == |old(Img())|
        invariant vol.Clock() <= old(vol.Clock()) + 2 * sc * SECTOR
        invariant Stored() == s.(data := s.data[c := buf[..sc * SECTOR] + s.data[c][sc * SECTOR..]])
      {
        var off := (ClusterSector(c) + sc) * SECTOR;
        var piece := buf[sc * SECTOR..sc * SECTOR + SECTOR];
        ghost var img := Img();
        ClusterWrite(g, img, c, sc * SECTOR, piece);
        PatchNext(buf, s.data[c], sc * SECTOR, piece);
        r := WriteAt(off, piece);
        StillMirrored(img, Img());
        sc := sc + 1;
      }
      assert buf[..g.ClusterBytes()] + s.data[c][g.ClusterBytes()..] == buf;
    }

    lemma {:induction false} StillMirrored(img: seq<Byte>, img': seq<Byte>)
      requires Fit(g, img) && |img'| == |img| && SameTables(g, img, img') && Mirrored(g, img)
      ensures Mirrored(g, img')
    {
    }

    /** Patching the next piece of a partly written cluster. */
    lemma {:induction false} PatchNext(buf: seq<Byte>, was: seq<Byte>, at: nat, piece: seq<Byte>)
      requires |was| == |buf| && at + |piece| <= |buf| && piece == buf[at..at + |piece|]
      ensures ByteLayer.Splice(buf[..at] + was[at..], at, piece) == buf[..at + |piece|] + was[at + |piece|..]
    {
    }

    // ---------- names ----------

    method MakeShortName(name: Name) returns (out: seq<Byte>)
      ensures out == ShortName(name)
    {
      hide Uppers, Blanks, BaseLength, Extension, ShortName, Padded;
      out := Blanks(11);
      var ni: nat, si: nat := 0, 0;
      assert name[..0] == [];
      NoUppers();
      while si < |name| && name[si] != DOT && ni < 8
        invariant ni == si <= |name| && ni <= 8 && BaseLength(name, si) == BaseLength(name, 0)
        invariant out == Uppers(name[..si]) + Blanks(11 - si)
      {
        BaseStep(name, si);
        out := out[ni := Upper(name[si])];
        si, ni := si + 1, ni + 1;
      }
      ghost var b := si;
      BaseEnd(name, b);
      if si < |name| && name[si] == DOT {
        si := si + 1;
      }
      ghost var (from, front) := (si, Padded(name[..b], 8));
      ni := 8;
      assert name[from..from] == [];
      while si < |name| && ni < 11
        invariant from <= si <= |name| && ni == 8 + (si - from) && ni <= 11 && |front| == 8
        invariant out == front + (Uppers(name[from..si]) + Blanks(11 - ni))
      {
        ExtensionStep(name, front, from, si);
        out := out[ni := Upper(name[si])];
        si, ni := si + 1, ni + 1;
      }
      ShortIs(name, b, from, si);
    }

    lemma {:induction false} NoUppers()
      ensures Uppers([]) == []
    {
    }

    lemma {:induction false} BaseStep(name: Name, si: nat)
      requires si < |name| && name[si] != DOT && si < 8
      ensures BaseLength(name, si + 1) == BaseLength(name, si)
      ensures (Uppers(name[..si]) + Blanks(11 - si))[si := Upper(name[si])] == Uppers(name[..si + 1]) + Blanks(11 - (si + 1))
    {
      PutUpper(name[..si], name[si], 11 - si);
      assert name[..si + 1] == name[..si] + [name[si]];
    }

    lemma {:induction false} BaseEnd(name: Name, b: nat)
      requires b <= |name| && b <= 8 && (b == |name| || name[b] == DOT || b == 8)
      ensures BaseLength(name, b) == b
      ensures Uppers(name[..b]) + Blanks(11 - b) == Padded(name[..b], 8) + (Uppers([]) + Blanks(3))
    {
      BlanksSplit(8 - b, 3);
    }

    lemma {:induction false} ExtensionStep(name: Name, front: seq<Byte>, from: nat, si: nat)
      requires from <= si < |name| && si - from < 3 && |front| == 8
      ensures (front + (Uppers(name[from..si]) + Blanks(3 - (si - from))))[8 + (si - from) := Upper(name[si])]
              == front + (Uppers(name[from..si + 1]) + Blanks(3 - (si + 1 - from)))
    {
      hide Uppers, Blanks, Upper;
      var tail := Uppers(name[from..si]) + Blanks(3 - (si - from));
      PutUpper(name[from..si], name[si], 3 - (si - from));
      assert name[from..si + 1] == name[from..si] + [name[si]];
      assert (front + tail)[8 + (si - from) := Upper(name[si])] == front + tail[si - from := Upper(name[si])];
    }

    lemma {:induction false} ShortIs(name: Name, b: nat, from: nat, si: nat)
      requires b == BaseLength(name, 0) && b <= 8 && from == (if b < |name| && name[b] == DOT then b + 1 else b)
      requires from <= si <= |name| && si - from <= 3 && (si == |name| || si - from == 3)
      ensures Padded(name[..b], 8) + (Uppers(name[from..si]) + Blanks(3 - (si - from))) == ShortName(name)
    {
      assert name[from..si] == Extension(name);
    }

    lemma {:induction false} PutUpper(done: Name, c: Byte, n: nat)
      requires n > 0
      ensures (Uppers(done) + Blanks(n))[|done| := Upper(c)] == Uppers(done + [c]) + Blanks(n - 1)
    {
      var (a, b) := ((Uppers(done) + Blanks(n))[|done| := Upper(c)], Uppers(done + [c]) + Blanks(n - 1));
      assert |a| == |b|;
      assert forall i :: 0 <= i < |a| ==> a[i] == b[i];
    }

    lemma {:induction false} BlanksSplit(a: nat, b: nat)
      ensures Blanks(a + b) == Blanks(a) + Blanks(b)
    {
    }

    /** The first component of a path and what follows it. */
    method SplitPath(path: Name) returns (comp: Name, rest: Name)
      ensures comp == Component(path) && rest == Rest(path)
    {
      var p := path;
      while p != [] && p[0] == SLASH
        invariant SkipSlashes(p) == SkipSlashes(path)
        decreases |p|
      {
        p := p[1..];
      }
      var ci := 0;
      while ci < |p| && p[ci] != SLASH && ci < 12
        invariant ci <= |p| && ComponentLength(p, ci) == ComponentLength(p, 0)
      {
        ci := ci + 1;
      }
      comp, rest := p[..ci], p[ci..];
      while rest != [] && rest[0] == SLASH
        invariant SkipSlashes(rest) == SkipSlashes(p[ci..])
        decreases |rest|
      {
        rest := rest[1..];
      }
    }

    /** fat16_resolve_path_bytes, for paths that do not lead into a subdirectory. */
    method Resolve(path: Name) returns (r: int, ent: seq<Byte>, entOff: nat, freeOff: nat, ghost k: nat)
      requires Mounted() && !Enters(Stored(), path)
      requires vol.Room(SECTOR * g.RootSectors())
      modifies vol.Repr()
      ensures Mounted() && Img() == old(Img()) && vol.Clock() <= old(vol.Clock()) + SECTOR * g.RootSectors()
      ensures k == Find(Stored().root, ShortName(Component(path)), 0)
      ensures r == if Component(path) == [] || Rest(path) != [] then -2 else if k < |Stored().root| then 0 else -1
      ensures r == 0 ==> ent == Stored().root[k] && entOff == g.RootOffset() + ENTRY * k
      ensures r == -1 ==> freeOff == SlotOffset(FreeSlot(Stored().root))
    {
      hide Img, ByteLayer.Volume.Steady, ByteLayer.Volume.Quiet, ByteLayer.Volume.Clock, Geometry.Fits, Table, Root,
        Data, Find, ShortName, FreeSlot, Geometry.RootOffset, Component, Rest;
      var comp, rest := SplitPath(path);
      ent, entOff, freeOff, k := [], 0, 0, Find(Stored().root, ShortName(comp), 0);
      if comp == [] {
        return -2, ent, entOff, freeOff, k;
      }
      r, ent, entOff, freeOff, k := FindRoot(comp);
      if rest == [] {
        return;
      }
      if r == 0 && ent[11] / 16 % 2 == 1 && (ent[26] as nat) + 256 * (ent[27] as nat) >= 2 {
        assert false; // the path would lead into a subdirectory
      }
      r := -2;
    }

    // ---------- files ----------

    /** fat16_read_file; the length stored through out_len is the length of buf. */
    method ReadFile(path: Name, len: nat) returns (r: int, buf: seq<Byte>)
      requires Mounted() && Sound(Stored(), g.ClusterBytes()) && !Enters(Stored(), path)
      requires vol.Room(ReadWork())
      modifies vol.Repr()
      ensures Mounted() && Img() == old(Img()) && vol.Clock() <= old(vol.Clock()) + ReadWork()
      ensures (r, buf) == ReadResult(Stored(), path, len)
    {
      hide Img, ByteLayer.Volume.Steady, ByteLayer.Volume.Quiet, ByteLayer.Volume.Clock, Geometry.Fits, Table, Root,
        Data, Find, ShortName, Component, Rest, Enters, Gather, Trail, IsChain, Disjoint, Sound, HasRead, Base;
      ghost var s := Stored();
      SoundShape(s, g.ClusterBytes());
      var rr, ent, entOff, freeOff, k := Resolve(path);
      if rr != 0 {
        return -2, [];
      }
      FoundChain(s, g.ClusterBytes(), path);
      var startCluster := (ent[26] as nat) + 256 * (ent[27] as nat);
      var fileSize := (ent[28] as nat) + 256 * (ent[29] as nat) + 0x1_0000 * ((ent[30] as nat) + 256 * (ent[31] as nat));
      if fileSize == 0 {
        return 0, [];
      }
      if startCluster < 2 {
        return -3, [];
      }
      var bytesToRead := fileSize;
      if bytesToRead > len {
        bytesToRead := len;
      }
      r := 0;
      ChainInLimit(s, startCluster, Trail(s.table, startCluster, |s.table|), g.ClusterBytes() + 2);
      buf := ReadChain(startCluster, bytesToRead, Trail(s.table, startCluster, |s.table|));
      ReadMeans(s.data, Trail(s.table, startCluster, |s.table|), bytesToRead, buf);
    }

    /** The work along a chain is at most that along all clusters. */
    lemma {:induction false} ChainInLimit(s: Files, start: nat, cs: seq<nat>, size: nat)
      requires IsChain(s.table, start, cs)
      ensures Base(|cs|, size) <= Base(|s.table|, size) && |cs| <= |s.table|
    {
      ChainFits(s.table, cs);
      BaseOrder(|cs|, |s.table|, size);
    }

    /** Reads along a chain, cluster by cluster, until n bytes are there or the chain ends. */
    method ReadChain(start: nat, n: nat, ghost cs: seq<nat>) returns (buf: seq<Byte>)
      requires Mounted() && WellFormed(Stored(), g.ClusterBytes()) && IsChain(Stored().table, start, cs)
      requires vol.Room(Base(|cs|, g.ClusterBytes() + 2))
      modifies vol.Repr()
      ensures Mounted() && Img() == old(Img()) && vol.Clock() <= old(vol.Clock()) + Base(|cs|, g.ClusterBytes() + 2)
      ensures InTable(Stored().table, cs) && HasRead(Stored().data, cs, |cs|, n, buf)
    {
      hide Img, ByteLayer.Volume.Steady, ByteLayer.Volume.Quiet, ByteLayer.Volume.Clock, Geometry.Fits, Table, Root,
        Data, Gather, HasRead, IsChain, WellFormed, InTable, Base, Geometry.Limit, Geometry.ClusterBytes;
      ghost var (s, cb) := (Stored(), g.ClusterBytes());
      BaseNext(0, cb + 2);
      buf := [];
      ghost var i: nat := 0;
      var cur := start;
      ReadNone(s, cb, start, cs, n);
      while cur >= 2 && cur < EOF && |buf| < n
        invariant Mounted() && Img() == old(Img()) && vol.Clock() <= old(vol.Clock()) + Base(i, cb + 2)
        invariant i < |cs| && cur == cs[i] && HasRead(s.data, cs, i, n, buf)
        decreases |cs| - i
      {
        ChainAt(s, cb, start, cs, i);
        BaseNext(i, cb + 2);
        BaseOrder(i + 1, |cs|, cb + 2);
        ReadStep(s, cb, start, cs, i, n, buf);
        var got, cluster := ReadCluster(cur);
        var copy := n - |buf|;
        if copy > g.ClusterBytes() {
          copy := g.ClusterBytes();
        }
        buf := buf + cluster[..copy];
        var next := FatRead(cur);
        if next == 0 || next >= EOF {
          assert cs[..i + 1] == cs;
          ReadAll(s.data, cs, i + 1, n, buf);
          return;
        }
        cur := next;
        i := i + 1;
      }
      ChainAt(s, cb, start, cs, i);
      BaseOrder(i, |cs|, cb + 2);
      ReadAll(s.data, cs, i, n, buf);
    }

    /** Writes buf along a chain, cluster by cluster; the last cluster is filled up with zeros. */
    method WriteData(start: nat, buf: seq<Byte>, ghost cs: seq<nat>) returns (r: int)
      requires Valid() && WellFormed(Stored(), g.ClusterBytes()) && IsChain(Stored().table, start, cs)
      requires vol.Room(Base(|cs|, 2 * g.ClusterBytes() + 2))
      modifies vol.Repr()
      ensures vol.Clock() <= old(vol.Clock()) + Base(|cs|, 2 * g.ClusterBytes() + 2)
      ensures Valid() && r == 0 && |Img()| == |old(Img())| && Stored() == old(Stored()).(data := Stored().data)
      ensures StoredUpTo(old(Stored()).data, Stored().data, g.ClusterBytes(), cs, |cs|, buf,
                         Least(SizeField(|buf|), Base(|cs|, g.ClusterBytes())))
    {
      hide Img, ByteLayer.Volume.Steady, ByteLayer.Volume.Quiet, ByteLayer.Volume.Clock, Geometry.Fits, Table, Root,
        Data, Gather, IsChain, WellFormed, InTable, StoredUpTo, Distinct, Base, SizeField, CopyEntry, Mirrored,
        Geometry.ClusterBytes, Geometry.Limit, Zeros;
      ghost var (s, cb) := (Stored(), g.ClusterBytes());
      r := 0;
      var total := SizeField(|buf|);
      var remaining: nat, cur: nat, written: nat := total, start, 0;
      ghost var i: nat := 0;
      StoredNone(s, cb, start, cs, buf);
      ChainDistinct(s.table, start, cs);
      BaseNext(0, cb);
      BaseNext(0, 2 * cb + 2);
      while cur >= 2 && cur < EOF && remaining > 0
        invariant Valid() && |Img()| == |old(Img())| && Stored() == s.(data := Stored().data)
        invariant vol.Clock() <= old(vol.Clock()) + Base(i, 2 * cb + 2)
        invariant i < |cs| && cur == cs[i] && written + remaining == total
        invariant if remaining > 0 then written == Base(i, cb) else total <= Base(i, cb)
        invariant StoredUpTo(s.data, Stored().data, cb, cs, i, buf, written)
        decreases remaining, |cs| - i
      {
        ChainAt(s, cb, start, cs, i);
        ChainLength(s, cb, cs, i);
        BaseNext(i, 2 * cb + 2);
        BaseOrder(i + 1, |cs|, 2 * cb + 2);
        var toCopy, next;
        r, toCopy, next := WriteNextCluster(buf, written, remaining, cur, s.data, cs, i);
        written := written + toCopy;
        remaining := remaining - toCopy;
        if next == 0 || next >= EOF {
          StoredWhole(s.data, Stored().data, cb, cs, i + 1, buf, written);
          return;
        }
        cur := next;
        i := i + 1;
      }
      ChainAt(s, cb, start, cs, i);
      ChainLength(s, cb, cs, i);
      BaseOrder(i, |cs|, 2 * cb + 2);
      StoredWhole(s.data, Stored().data, cb, cs, i, buf, written);
    }

    /** Fills one cluster of the chain, and reads which one follows. */
    method WriteNextCluster(buf: seq<Byte>, written: nat, remaining: nat, cur: nat, ghost before: seq<seq<Byte>>,
                            ghost cs: seq<nat>, ghost i: nat)
      returns (r: int, toCopy: nat, next: nat)
      requires Valid() && 2 <= cur < g.Limit() && 0 < remaining && written + remaining <= |buf|
      requires i < |cs| && cur == cs[i] && Distinct(cs) && written == Base(i, g.ClusterBytes())
      requires StoredUpTo(before, Stored().data, g.ClusterBytes(), cs, i, buf, written)
      requires vol.Room(2 * g.ClusterBytes() + 2)
      modifies vol.Repr()
      ensures vol.Clock() <= old(vol.Clock()) + 2 * g.ClusterBytes() + 2
      ensures Valid() && r == 0 && |Img()| == |old(Img())| && Stored() == old(Stored()).(data := Stored().data)
      ensures toCopy == Least(remaining, g.ClusterBytes()) && next == Stored().table[cur] && next <= END_MARK
      ensures StoredUpTo(before, Stored().data, g.ClusterBytes(), cs, i + 1, buf, written + toCopy)
    {
      hide Img, ByteLayer.Volume.Steady, ByteLayer.Volume.Quiet, ByteLayer.Volume.Clock, Geometry.Fits, Table, Root,
        Data, Gather, StoredUpTo, Distinct, Base, CopyEntry, Mirrored,
        Geometry.ClusterBytes, Geometry.Limit, Zeros;
      LimitInRange();
      toCopy := if remaining > g.ClusterBytes() then g.ClusterBytes() else remaining;
      var clusterBuf := buf[written..written + toCopy] + Zeros(g.ClusterBytes() - toCopy);
      StoreStep(before, Stored().data, g.ClusterBytes(), cs, i, buf, toCopy, clusterBuf);
      r := WriteCluster(cur, clusterBuf);
      next := FatRead(cur);
    }

    lemma {:induction false} ChainDistinct(t: Fat, start: nat, cs: seq<nat>)
      requires IsChain(t, start, cs)
      ensures Distinct(cs)
    {
    }

    /** The table after the present file's chain is given up. */
    method Release(ent: seq<Byte>, path: Name)
      requires Valid() && Sound(Stored(), g.ClusterBytes())
      requires Find(Stored().root, ShortName(Component(path)), 0) < |Stored().root|
      requires ent == Stored().root[Find(Stored().root, ShortName(Component(path)), 0)]
      requires vol.Room(Base(g.Limit(), EntryCost()))
      modifies vol.Repr()
      ensures vol.Clock() <= old(vol.Clock()) + Base(g.Limit(), EntryCost())
      ensures Valid() && |Img()| == |old(Img())|
      ensures Stored() == old(Stored()).(table := Zeroed(old(Stored()).table, OldChain(old(Stored()), path)))
    {
      hide Img, ByteLayer.Volume.Steady, ByteLayer.Volume.Quiet, ByteLayer.Volume.Clock, Geometry.Fits, Table, Root,
        Data, Find, ShortName, Component, Disjoint, Trail, IsChain, Sound, WellFormed, Freed, Base, NonZero, Mirrored;
      ghost var s := Stored();
      SoundShape(s, g.ClusterBytes());
      FoundChain(s, g.ClusterBytes(), path);
      OldChainIs(s, g.ClusterBytes(), path);
      var oldStart := (ent[26] as nat) + 256 * (ent[27] as nat);
      if oldStart >= 2 {
        ChainInLimit(s, oldStart, OldChain(s, path), EntryCost());
        FreeChain(oldStart, OldChain(s, path), g.Limit());
        FreedIs(s.table, Stored().table, OldChain(s, path));
      } else {
        ZeroedNone(s.table);
      }
    }

    /** The first part of fat16_write_file: finds the slot, gives up the present chain, and makes the
        entry that will be completed. */
    method Prepare(path: Name) returns (r: int, ent: seq<Byte>, entryOffset: nat)
      requires Valid() && Sound(Stored(), g.ClusterBytes()) && !Enters(Stored(), path)
      requires vol.Room(SECTOR * g.RootSectors() + Base(g.Limit(), EntryCost()))
      modifies vol.Repr()
      ensures vol.Clock() <= old(vol.Clock()) + SECTOR * g.RootSectors() + Base(g.Limit(), EntryCost())
      ensures Valid() && |Img()| == |old(Img())|
      ensures r == if Component(path) == [] || Rest(path) != [] || Slot(old(Stored()), path) == |old(Stored()).root| then -2 else 0
      ensures r == -2 ==> Img() == old(Img())
      ensures r == 0 ==>
                ent == Template(old(Stored()), path) && entryOffset == g.RootOffset() + ENTRY * Slot(old(Stored()), path)
      ensures r == 0 ==> Stored() == old(Stored()).(table := Zeroed(old(Stored()).table, OldChain(old(Stored()), path)))
    {
      hide Img, ByteLayer.Volume.Steady, ByteLayer.Volume.Quiet, ByteLayer.Volume.Clock, Geometry.Fits, Table, Root,
        Data, Find, FreeSlot, ShortName, Component, Rest, Enters, Geometry.RootOffset, Geometry.RootSlots, Sound,
        OldChain, Template,
        Slot, Trail, Base, Mirrored;
      ghost var s := Stored();
      SoundShape(s, g.ClusterBytes());
      SlotIs(s, path);
      var rr, free, entOff;
      ghost var k;
      rr, ent, entOff, free, k := Resolve(path);
      if rr == 0 {
        entryOffset := entOff;
        Release(ent, path);
        return 0, ent, entryOffset;
      }
      if rr == -1 {
        SlotOffsetIs(FreeSlot(s.root));
        if free == NO_SLOT {
          return -2, ent, 0;
        }
        var short := MakeShortName(path);
        ZeroedNone(s.table);
        return 0, FreshEntry(short), free;
      }
      return -2, ent, 0;
    }

    lemma {:induction false} SlotOffsetIs(i: nat)
      requires Mounted() && i <= g.RootSlots()
      ensures SlotOffset(i) == NO_SLOT <==> i == g.RootSlots()
      ensures i < g.RootSlots() ==> SlotOffset(i) == g.RootOffset() + ENTRY * i
    {
      if i < g.RootSlots() {
        SlotInRoot(g, Img(), i);
      }
    }

    /** Writes one directory entry. */
    method PutEntry(entryOffset: nat, ent: seq<Byte>, ghost i: nat)
      requires Valid() && i < |Stored().root| && entryOffset == g.RootOffset() + ENTRY * i && |ent| == ENTRY
      requires vol.Room(2 * ENTRY)
      modifies vol.Repr()
      ensures vol.Clock() <= old(vol.Clock()) + 2 * ENTRY
      ensures Valid() && |Img()| == |old(Img())| && Stored() == old(Stored()).(root := old(Stored()).root[i := ent])
    {
      hide Img, ByteLayer.Volume.Steady, ByteLayer.Volume.Quiet, ByteLayer.Volume.Clock, Geometry.Fits, Table, Root,
        Data, Geometry.RootOffset, Geometry.RootSlots, ByteLayer.Splice, Mirrored, SameTables;
      ghost var img := Img();
      SlotWrite(g, img, i, ent);
      SizeInRange();
      var r := WriteAt(entryOffset, ent);
      StillMirrored(img, Img());
    }

    /** fat16_write_file; memory says whether the list of clusters could be allocated. */
    method WriteFile(path: Name, buf: seq<Byte>, memory: bool) returns (r: int, ghost cs: seq<nat>)
      requires Valid() && Sound(Stored(), g.ClusterBytes()) && !Enters(Stored(), path)
      requires vol.Room(WriteWork())
      modifies vol.Repr()
      ensures vol.Clock() <= old(vol.Clock()) + WriteWork()
      ensures Valid() && |Img()| == |old(Img())|
      ensures r == -2 <==> Component(path) == [] || Rest(path) != [] || Slot(old(Stored()), path) == |old(Stored()).root|
      ensures r == -2 ==> Img() == old(Img())
      ensures r == 0 || r == -2 || r == -3
      ensures r == -3 <==> old(NoSpace(Stored(), g.ClusterBytes(), path, |buf|, memory))
      ensures r == -3 ==>
                Stored() == old(Stored()).(table := Zeroed(old(Stored()).table, OldChain(old(Stored()), path)))
      ensures r == 0 && buf != [] ==> Written(old(Stored()), Stored(), g.ClusterBytes(), path, buf, cs)
      ensures r == 0 && buf == [] ==> Emptied(old(Stored()), Stored(), path)
    {
      hide Img, ByteLayer.Volume.Steady, ByteLayer.Volume.Quiet, ByteLayer.Volume.Clock, Geometry.Fits, Table, Root,
        Data, Find, FreeSlot, ShortName, Component, Rest, Enters, Geometry.RootOffset, Geometry.Limit,
        Geometry.ClusterBytes, Sound, Disjoint,
        Entries, IsChain, Takes, SomeFree, LinkedExcept, LinkedAs, StoredUpTo, HoldsPrefix, Need, SizeField, FreeBelow,
        Base, Mirrored, OldChain, Template, Slot, WithStartSize, Distinct;
      ghost var (s, cb) := (Stored(), g.ClusterBytes());
      SoundShape(s, cb);
      SlotIs(s, path);
      cs := [];
      var entryOffset, ent;
      r, ent, entryOffset := Prepare(path);
      if r != 0 {
        return;
      }
      if |buf| == 0 {
        PutEntry(entryOffset, WithStartSize(ent, 0, 0), Slot(s, path));
        return;
      }
      var need := ClustersNeeded(|buf|);
      var status, start;
      ghost var dropped;
      status, start, cs, dropped := AllocateChain(need, memory);
      if status != 0 {
        return -3, cs;
      }
      r := Fill(path, buf, start, ent, entryOffset, s, cs);
    }

    /** Stores the bytes in the new chain and rewrites the entry; s is what was stored before the write. */
    method Fill(path: Name, buf: seq<Byte>, start: nat, ent: seq<Byte>, entryOffset: nat, ghost s: Files, ghost cs: seq<nat>)
      returns (r: int)
      requires Valid() && WellFormed(s, g.ClusterBytes()) && Component(path) != [] && Rest(path) == []
      requires Slot(s, path) < |s.root| && buf != [] && vol.Room(Base(g.Limit(), 2 * g.ClusterBytes() + 2) + 2 * ENTRY)
      requires var t1 := Zeroed(s.table, OldChain(s, path));
               |cs| == Need(|buf|, g.ClusterBytes()) && Takes(t1, |cs|, cs) && LinkedAs(t1, Stored().table, cs)
      requires Stored() == s.(table := Stored().table) && cs != [] && start == cs[0]
      requires ent == Template(s, path) && entryOffset == g.RootOffset() + ENTRY * Slot(s, path)
      modifies vol.Repr()
      ensures vol.Clock() <= old(vol.Clock()) + Base(g.Limit(), 2 * g.ClusterBytes() + 2) + 2 * ENTRY
      ensures Valid() && |Img()| == |old(Img())| && r == 0
      ensures Written(s, Stored(), g.ClusterBytes(), path, buf, cs)
    {
      hide Img, ByteLayer.Volume.Steady, ByteLayer.Volume.Quiet, ByteLayer.Volume.Clock, Geometry.Fits, Table, Root,
        Data, Find, FreeSlot, ShortName, Component, Rest, Geometry.RootOffset, Geometry.Limit, Geometry.ClusterBytes,
        IsChain, Takes, LinkedAs, StoredUpTo, HoldsPrefix, Need, SizeField, Base, Mirrored, OldChain, Template, Slot,
        WithStartSize, Distinct;
      ghost var cb := g.ClusterBytes();
      LinkedSize(Zeroed(s.table, OldChain(s, path)), Stored().table, cs);
      NewChain(Zeroed(s.table, OldChain(s, path)), Stored().table, cs, start);
      ChainInLimit(Stored(), start, cs, 2 * cb + 2);
      r := WriteData(start, buf, cs);
      PutEntry(entryOffset, WithStartSize(ent, start, SizeField(|buf|)), Slot(s, path));
      WrittenFrom(s, Stored(), cb, path, buf, cs);
    }

    lemma {:induction false} LinkedSize(t: Fat, t': Fat, cs: seq<nat>)
      requires LinkedAs(t, t', cs)
      ensures |t'| == |t|
    {
    }

    method ClustersNeeded(len: nat) returns (need: nat)
      requires Mounted() && len > 0
      ensures need == Need(len, g.ClusterBytes()) && 0 < need < 0x1_0000
    {
      need := (len + g.ClusterBytes() - 1) / g.ClusterBytes() % 0x1_0000;
      if need == 0 {
        need := 1;
      }
    }
  }
}
