/** fat16_read_bytes and fat16_write_bytes of fat16.c: one byte space, either a flat image in memory
    or the blocks of a cache, read and written block by block. */
module ByteLayer {
  import opened Utils
  import opened CacheModel
  import opened BlockCaches
  import opened Arith

  const SCRATCH: nat := 4096
  const OFFSET_RANGE: nat := 0x1_0000_0000

  // ---------- blocks laid end to end ----------

  function Concat(blocks: seq<Block>): seq<Byte> {
    if blocks == [] then [] else Concat(blocks[..|blocks| - 1]) + blocks[|blocks| - 1]
  }

  ghost predicate Whole(blocks: seq<Block>, bs: nat) {
    forall i :: 0 <= i < |blocks| ==> |blocks[i]| == bs
  }

  lemma {:induction false} ConcatLength(blocks: seq<Block>, bs: nat)
    requires Whole(blocks, bs)
    ensures |Concat(blocks)| == Base(|blocks|, bs)
  {
    if blocks != [] {
      ConcatLength(blocks[..|blocks| - 1], bs);
    }
  }

  /** Block b occupies the bytes from its base. */
  lemma {:induction false} ConcatBlock(blocks: seq<Block>, bs: nat, b: nat)
    requires Whole(blocks, bs) && b < |blocks|
    ensures Base(b, bs) + bs <= |Concat(blocks)|
    ensures Concat(blocks)[Base(b, bs)..Base(b, bs) + bs] == blocks[b]
  {
    var front := blocks[..|blocks| - 1];
    ConcatLength(blocks, bs);
    ConcatLength(front, bs);
    if b < |front| {
      ConcatBlock(front, bs, b);
    }
  }

  /** The flat-image reading and writing of a range. */
  function Splice(s: seq<Byte>, offset: nat, src: seq<Byte>): seq<Byte>
    requires offset + |src| <= |s|
  {
    s[..offset] + src + s[offset + |src|..]
  }

  /** Replacing block b replaces exactly those bytes. */
  lemma {:induction false} ConcatUpdate(blocks: seq<Block>, bs: nat, b: nat, data: Block)
    requires Whole(blocks, bs) && b < |blocks| && |data| == bs
    ensures Base(b, bs) + bs <= |Concat(blocks)|
    ensures Concat(blocks[b := data]) == Splice(Concat(blocks), Base(b, bs), data)
  {
    var front := blocks[..|blocks| - 1];
    ConcatBlock(blocks, bs, b);
    ConcatLength(front, bs);
    if b < |front| {
      ConcatUpdate(front, bs, b, data);
      assert blocks[b := data][..|blocks| - 1] == front[b := data];
    } else {
      assert blocks[b := data][..|blocks| - 1] == front;
    }
  }

  lemma {:induction false} SpliceMore(s: seq<Byte>, offset: nat, a: seq<Byte>, b: seq<Byte>)
    requires offset + |a| + |b| <= |s|
    ensures Splice(Splice(s, offset, a), offset + |a|, b) == Splice(s, offset, a + b)
  {
  }

  // ---------- splitting a range at block boundaries ----------

  /** The part of a transfer of len bytes at offset that falls into block b, done bytes in. */
  function FromIn(offset: nat, blockOff: nat): nat { if offset > blockOff then offset - blockOff else 0 }

  function TakeIn(offset: nat, len: nat, blockOff: nat, done: nat, bs: nat): nat
    requires done <= len && FromIn(offset, blockOff) <= bs
  {
    if len - done < bs - FromIn(offset, blockOff) then len - done else bs - FromIn(offset, blockOff)
  }

  /** Before block b of blocks first..: nothing done at the first block, else everything below b's base. */
  ghost predicate AtBlock(offset: nat, len: nat, bs: nat, first: nat, b: nat, done: nat) {
    && first <= b && done <= len && Base(first, bs) <= offset < Base(first, bs) + bs
    && (if b == first then done == 0
        else Base(b, bs) > offset && done == if Base(b, bs) < offset + len then Base(b, bs) - offset else len)
  }

  lemma {:induction false} AtStart(offset: nat, len: nat, bs: nat, first: nat)
    requires Base(first, bs) <= offset < Base(first, bs) + bs
    ensures AtBlock(offset, len, bs, first, first, 0)
  {
  }

  lemma {:induction false} AtEnd(offset: nat, len: nat, bs: nat, first: nat, last: nat, done: nat)
    requires AtBlock(offset, len, bs, first, last + 1, done) && first <= last && offset + len <= Base(last, bs) + bs
    ensures done == len
  {
  }

  /** One block of a transfer: its bytes are positions done.. of the transfer, and it leads to the next block. */
  lemma {:induction false} NextBlock(offset: nat, len: nat, bs: nat, first: nat, last: nat, b: nat, done: nat)
    requires 0 < len && AtBlock(offset, len, bs, first, b, done) && b <= last && Base(last, bs) < offset + len
    ensures FromIn(offset, Base(b, bs)) < bs && Base(b, bs) + FromIn(offset, Base(b, bs)) == offset + done && done < len
    ensures AtBlock(offset, len, bs, first, b + 1, done + TakeIn(offset, len, Base(b, bs), done, bs))
  {
    BaseOrder(b, last, bs);
    BaseOrder(first, b, bs);
  }

  /** The bytes taken from one block are those of the byte space. */
  lemma {:induction false} ReadPiece(blocks: seq<Block>, bs: nat, b: nat, start: nat, from: nat, take: nat)
    requires Whole(blocks, bs) && b < |blocks| && from + take <= bs && Base(b, bs) + from == start
    ensures start + take <= |Concat(blocks)|
    ensures Concat(blocks)[start..start + take] == blocks[b][from..from + take]
  {
    ConcatBlock(blocks, bs, b);
    var flat := Concat(blocks);
    assert flat[Base(b, bs)..Base(b, bs) + bs][from..from + take] == flat[start..start + take];
  }

  lemma {:induction false} SpliceInside(flat: seq<Byte>, base: nat, block: seq<Byte>, from: nat, src: seq<Byte>)
    requires base + |block| <= |flat| && flat[base..base + |block|] == block && from + |src| <= |block|
    ensures Splice(flat, base, Splice(block, from, src)) == Splice(flat, base + from, src)
  {
    assert block[..from] == flat[base..base + from];
    assert block[from + |src|..] == flat[base + from + |src|..base + |block|];
  }

  /** Patching one block patches the byte space in one place. */
  lemma {:induction false} WritePiece(blocks: seq<Block>, bs: nat, b: nat, offset: nat, from: nat, src: seq<Byte>)
    requires Whole(blocks, bs) && b < |blocks| && from + |src| <= bs && Base(b, bs) + from == offset
    ensures offset + |src| <= |Concat(blocks)|
    ensures Concat(blocks[b := Splice(blocks[b], from, src)]) == Splice(Concat(blocks), offset, src)
  {
    ConcatBlock(blocks, bs, b);
    ConcatUpdate(blocks, bs, b, Splice(blocks[b], from, src));
    SpliceInside(Concat(blocks), Base(b, bs), blocks[b], from, src);
  }

  /** The first and last block of a range. */
  method BlockRange(offset: nat, len: nat, bs: nat) returns (first: nat, last: nat)
    requires 0 < len && 0 < bs
    ensures first == offset / bs && last == (offset + len - 1) / bs
    ensures first <= last && Base(first, bs) <= offset < Base(first, bs) + bs
    ensures Base(last, bs) < offset + len <= Base(last, bs) + bs
  {
    first, last := offset / bs, (offset + len - 1) / bs;
    BaseOfPosition(offset, bs);
    BaseOfPosition(offset + len - 1, bs);
    DivOrder(offset, offset + len - 1, bs);
  }

  method BlockOffset(b: nat, bs: nat) returns (off: nat)
    ensures off == Base(b, bs)
  {
    BaseIsProduct(b, bs);
    off := b * bs;
  }

  /** The blocks that clients of a cache see. */
  ghost function Contents(es: seq<Entry>, disk: seq<Block>): (blocks: seq<Block>)
    ensures |blocks| == |disk| && forall b :: 0 <= b < |disk| ==> View(es, disk, b) == Some(blocks[b])
  {
    seq(|disk|, b requires 0 <= b < |disk| => View(es, disk, b).value)
  }

  lemma {:induction false} ContentsWhole(es: seq<Entry>, disk: seq<Block>, bs: nat)
    requires Coherent(es, disk, bs)
    ensures Whole(Contents(es, disk), bs)
  {
    forall b | 0 <= b < |disk|
      ensures |Contents(es, disk)[b]| == bs
    {
      assert View(es, disk, b) == Some(Contents(es, disk)[b]);
    }
  }

  lemma {:induction false} SameContents(es: seq<Entry>, disk: seq<Block>, es': seq<Entry>, disk': seq<Block>)
    requires |disk'| == |disk| && forall b: nat :: View(es', disk', b) == View(es, disk, b)
    ensures Contents(es', disk') == Contents(es, disk)
  {
    forall b | 0 <= b < |disk|
      ensures Contents(es', disk')[b] == Contents(es, disk)[b]
    {
      assert View(es', disk', b) == View(es, disk, b);
    }
  }

  lemma {:induction false} StoredContents(es: seq<Entry>, disk: seq<Block>, es': seq<Entry>, disk': seq<Block>, b: nat,
                                          data: Block, stored: bool)
    requires |disk'| == |disk| && b < |disk|
    requires forall c: nat :: View(es', disk', c) == if stored && c == b then Some(data) else View(es, disk, c)
    ensures Contents(es', disk') == if stored then Contents(es, disk)[b := data] else Contents(es, disk)
  {
    forall c | 0 <= c < |disk|
      ensures Contents(es', disk')[c] == if stored && c == b then data else Contents(es, disk)[c]
    {
      assert View(es', disk', c) == if stored && c == b then Some(data) else View(es, disk, c);
    }
  }

  lemma {:induction false} SameLength(blocks: seq<Block>, blocks': seq<Block>, bs: nat)
    requires |blocks'| == |blocks| && Whole(blocks, bs) && Whole(blocks', bs)
    ensures |Concat(blocks')| == |Concat(blocks)|
  {
    ConcatLength(blocks, bs);
    ConcatLength(blocks', bs);
  }

  /** The block of a position inside the byte space exists. */
  lemma {:induction false} BlockInFlat(blocks: seq<Block>, bs: nat, b: nat, offset: nat, len: nat, done: nat)
    requires Whole(blocks, bs) && Base(b, bs) <= offset + done < offset + len
    ensures offset + len <= |Concat(blocks)| ==> b < |blocks|
  {
    ConcatLength(blocks, bs);
    if b >= |blocks| && offset + len <= |Concat(blocks)| {
      BaseOrder(|blocks|, b, bs);
    }
  }

  class Volume {
    const cache: BlockCache?
    var image: seq<Byte>  // used when there is no cache

    ghost predicate Valid()
      reads this, cache, if cache == null then {} else {cache.entries, cache.disk}
    {
      cache != null ==> cache.Valid() && cache.InRange() && cache.blockSize > 0
    }

    /** No failed read has spoilt a cached block. */
    ghost predicate Intact()
      reads cache, if cache == null then {} else {cache.entries}
    {
      cache != null ==> cache.Intact()
    }

    /** The byte space that both branches present. */
    ghost function Flat(): seq<Byte>
      reads this, cache, if cache == null then {} else {cache.entries, cache.disk}
    {
      if cache == null then image else Concat(Contents(cache.intended, cache.disk.blocks))
    }

    constructor InMemory(image: seq<Byte>)
      ensures Valid() && cache == null && Flat() == image && Steady()
    {
      cache, this.image := null, image;
    }

    constructor OnCache(cache: BlockCache)
      requires cache.Valid() && cache.InRange() && cache.blockSize > 0
      ensures Valid() && (cache.Intact() ==> Intact()) && this.cache == cache
      ensures Flat() == Concat(Contents(cache.intended, cache.disk.blocks))
    {
      this.cache, image := cache, [];
    }

    /** The cache can make n more accesses before its clock nears its range. */
    ghost predicate Able(n: int)
      reads cache, if cache == null then {} else {cache.entries, cache.disk}
    {
      cache != null ==> cache.Ready() && cache.timestamp + n < 0xFFFF_FFFF && cache.blockSize <= 4096
    }

    /** The cache's clock; without a cache there is none. */
    ghost function Clock(): nat
      reads this, cache
    {
      if cache == null then 0 else cache.timestamp
    }

    /** The cache is fit for use, and its device's faults are over. */
    ghost predicate Steady()
      reads this, Repr()
    {
      Valid() && Intact() && Able(0) && (cache != null ==> cache.disk.Over())
    }

    /** No block is spoilt, and none will be: reads of the device will not fail any more. */
    ghost predicate Quiet()
      reads this, Repr()
    {
      Valid() && Intact() && (cache != null ==> cache.disk.ReadsOver())
    }

    /** The range lies in one block. */
    predicate OneBlock(offset: nat, len: nat)
      requires 0 < len && (cache != null ==> cache.blockSize > 0)
    {
      cache == null || offset / cache.blockSize == (offset + len - 1) / cache.blockSize
    }

    /** The clock has room for n more accesses. */
    ghost predicate Room(n: nat)
      reads this, cache
    {
      cache == null || Clock() + n < 0xFFFF_FFFF
    }

    /** The objects that the volume's operations change. */
    ghost function Repr(): set<object>
    {
      {this} + if cache == null then {} else {cache, cache.entries, cache.disk}
    }

    ghost function Faults(): nat
      reads if cache == null then {} else {cache.disk}
    {
      if cache == null then 0 else cache.disk.faults
    }

    /** Faults are only added, and none once the device's faults are over. */
    ghost predicate FaultsSince(before: nat)
      reads if cache == null then {} else {cache.disk}
    {
      cache != null ==> cache.disk.Since(before)
    }

    /** fat16_read_bytes: 0 with the bytes of the range, or -1, unless an earlier failed read spoilt the cache.
        Without device faults it fails exactly on ranges beyond the end. */
    method ReadBytes(offset: nat, len: nat) returns (r: int, dst: seq<Byte>)
      requires Valid() && 0 < len && offset + len <= OFFSET_RANGE
      modifies cache, if cache == null then {} else {cache.entries, cache.disk}
      ensures Valid() && (r == 0 || r == -1) && Flat() == old(Flat())
      ensures old(Intact()) && (r == 0 || Faults() == old(Faults())) ==> Intact()
      ensures old(Quiet()) ==> Quiet()
      ensures r == 0 && old(Intact()) ==> offset + len <= |Flat()| && dst == Flat()[offset..offset + len]
      ensures old(Intact() && Able(len)) && Faults() == old(Faults()) ==> (r == 0 <==> offset + len <= |Flat()|)
      ensures old(Steady() && Room(len)) ==> Steady() && (r == 0 <==> offset + len <= |Flat()|)
      ensures Clock() <= old(Clock()) + len && (cache != null && cache.blockSize > 4096 ==> r == -1)
    {
      if cache == null {
        if offset + len > |image| {
          return -1, [];
        }
        return 0, image[offset..offset + len];
      }
      if cache.blockSize > SCRATCH {
        return -1, [];
      }
      r, dst := ReadBlocks(offset, len);
    }

    /** fat16_write_bytes: on failure a prefix of src may have been written; the flat image checks
        its bounds first and then writes nothing. */
    method WriteBytes(offset: nat, src: seq<Byte>) returns (r: int)
      requires Valid() && 0 < |src| && offset + |src| <= OFFSET_RANGE
      modifies this`image, cache, if cache == null then {} else {cache.entries, cache.disk}
      ensures Valid() && (r == 0 || r == -1) && |Flat()| == |old(Flat())|
      ensures old(Intact()) && (r == 0 || Faults() == old(Faults())) ==> Intact()
      ensures old(Quiet()) ==> Quiet()
      ensures r == 0 && old(Intact()) ==> offset + |src| <= |Flat()| && Flat() == Splice(old(Flat()), offset, src)
      ensures r == -1 && old(Intact()) ==>
                || Flat() == old(Flat())
                || exists k: nat :: k <= |src| && offset + k <= |Flat()| && Flat() == Splice(old(Flat()), offset, src[..k])
      ensures r == -1 && old(Intact()) && OneBlock(offset, |src|) ==> Flat() == old(Flat())
      ensures r == -1 && cache == null ==> image == old(image)
      ensures old(Intact() && Able(2 * |src|)) && Faults() == old(Faults()) ==> (r == 0 <==> offset + |src| <= |Flat()|)
      ensures old(Steady() && Room(2 * |src|)) ==> Steady() && (r == 0 <==> offset + |src| <= |Flat()|)
      ensures Clock() <= old(Clock()) + 2 * |src| && (cache != null && cache.blockSize > 4096 ==> r == -1)
    {
      if cache == null {
        if offset + |src| > |image| {
          return -1;
        }
        image := image[..offset] + src + image[offset + |src|..];
        return 0;
      }
      if cache.blockSize > SCRATCH {
        return -1;
      }
      r := WriteBlocks(offset, src);
    }

    /** Reads one block into the scratch buffer. */
    method LoadBlock(b: nat, ghost n: int) returns (r: int, tmp: Block)
      requires Valid() && cache != null
      modifies cache, cache.entries, cache.disk
      ensures Clock() <= old(Clock()) + 1
      ensures Valid() && (r == 0 || r == -1) && |cache.disk.blocks| == |old(cache.disk.blocks)|
      ensures Contents(cache.intended, cache.disk.blocks) == old(Contents(cache.intended, cache.disk.blocks))
      ensures old(Intact()) && (r == 0 || Faults() == old(Faults())) ==> Intact()
      ensures old(Quiet()) ==> Quiet()
      ensures r == 0 ==>
                b < |cache.disk.blocks| && |tmp| == cache.blockSize && (old(Intact()) ==>
                    tmp == Contents(cache.intended, cache.disk.blocks)[b])
      ensures FaultsSince(old(Faults()))
      ensures old(Able(n + 1)) && 0 <= n ==>
                Able(n) && (r == -1 ==> Faults() > old(Faults()) || b >= |cache.disk.blocks|)
    {
      hide CacheModel.Tracks, CacheModel.Coherent;
      ghost var (before, blocks) := (cache.intended, cache.disk.blocks);
      r, tmp := cache.Read(b);
      assert r == 0 ==> View(cache.intended, cache.disk.blocks, b) == cache.Sees(b);
      forall c: nat
        ensures View(cache.intended, cache.disk.blocks, c) == View(before, blocks, c)
      {
        assert cache.Sees(c) == old(cache.Sees(c));
      }
      SameContents(before, blocks, cache.intended, cache.disk.blocks);
    }

    /** Writes the scratch buffer back to one block. */
    method StoreBlock(b: nat, tmp: Block, ghost n: int) returns (r: int)
      requires Valid() && cache != null && b < |cache.disk.blocks| && |tmp| == cache.blockSize
      modifies cache, cache.entries, cache.disk
      ensures Clock() <= old(Clock()) + 1
      ensures Valid() && (r == 0 || r == -1) && |cache.disk.blocks| == |old(cache.disk.blocks)|
      ensures Contents(cache.intended, cache.disk.blocks)
              == if r == 0 then old(Contents(cache.intended, cache.disk.blocks))[b := tmp]
                 else old(Contents(cache.intended, cache.disk.blocks))
      ensures old(Intact()) ==> Intact()
      ensures FaultsSince(old(Faults()))
      ensures old(Able(n + 1)) && 0 <= n ==> Able(n) && (r == -1 ==> Faults() > old(Faults()))
    {
      hide CacheModel.Tracks, CacheModel.Coherent;
      ghost var (before, blocks) := (cache.intended, cache.disk.blocks);
      r := cache.Write(b, tmp);
      forall c: nat
        ensures View(cache.intended, cache.disk.blocks, c) == if r == 0 && c == b then Some(tmp)
                                                              else View(before, blocks, c)
      {
        assert cache.Sees(c) == if r == 0 && c == b then Some(tmp) else old(cache.Sees(c));
      }
      StoredContents(before, blocks, cache.intended, cache.disk.blocks, b, tmp, r == 0);
    }

    /** One round of the reading loop: the bytes that block b adds. */
    method ReadPart(b: nat, offset: nat, len: nat, copied: nat, ghost first: nat, ghost last: nat)
      returns (r: int, piece: seq<Byte>)
      requires Valid() && cache != null && 0 < len && AtBlock(offset, len, cache.blockSize, first, b, copied)
      requires b <= last && Base(last, cache.blockSize) < offset + len
      modifies cache, cache.entries, cache.disk
      ensures Clock() <= old(Clock()) + 1 && copied < len
      ensures Valid() && (r == 0 || r == -1) && Flat() == old(Flat())
      ensures old(Intact()) && (r == 0 || Faults() == old(Faults())) ==> Intact()
      ensures old(Quiet()) ==> Quiet()
      ensures r == 0 ==> 0 < |piece| <= len - copied && offset + copied + |piece| <= |Flat()|
      ensures r == 0 && old(Intact()) ==> piece == Flat()[offset + copied..offset + copied + |piece|]
      ensures r == 0 ==> AtBlock(offset, len, cache.blockSize, first, b + 1, copied + |piece|)
      ensures FaultsSince(old(Faults())) && (old(Able(len - copied)) ==> Able(len - copied - 1))
      ensures r == -1 && old(Able(len - copied)) ==> Faults() > old(Faults()) || offset + len > |Flat()|
    {
      hide AtBlock, Base, Concat, CacheModel.Tracks, CacheModel.Coherent, CacheModel.View;
      ghost var blocks := Contents(cache.intended, cache.disk.blocks);
      var bs := cache.blockSize;
      NextBlock(offset, len, bs, first, last, b, copied);
      ContentsWhole(cache.intended, cache.disk.blocks, bs);
      BlockInFlat(blocks, bs, b, offset, len, copied);
      var tmp;
      r, tmp := LoadBlock(b, len - copied - 1);
      if r != 0 {
        return r, [];
      }
      var blockOff := BlockOffset(b, bs);
      var from := if offset > blockOff then offset - blockOff else 0;
      var avail := bs - from;
      var need := len - copied;
      var take := if need < avail then need else avail;
      piece := tmp[from..from + take];
      ReadPiece(blocks, bs, b, offset + copied, from, take);
    }

    /** The cached branch of fat16_read_bytes. */
    method ReadBlocks(offset: nat, len: nat) returns (r: int, dst: seq<Byte>)
      requires Valid() && cache != null && 0 < len && offset + len <= OFFSET_RANGE
      modifies cache, cache.entries, cache.disk
      ensures Clock() <= old(Clock()) + len && (old(Able(len)) ==> Able(0)) && FaultsSince(old(Faults()))
      ensures Valid() && (r == 0 || r == -1) && Flat() == old(Flat())
      ensures old(Intact()) && (r == 0 || Faults() == old(Faults())) ==> Intact()
      ensures old(Quiet()) ==> Quiet()
      ensures r == 0 ==> offset + len <= |Flat()| && (old(Intact()) ==> dst == Flat()[offset..offset + len])
      ensures old(Able(len)) && Faults() == old(Faults()) && offset + len <= |Flat()| ==> r == 0
    {
      hide AtBlock, Base, Concat, Contents, CacheModel.Tracks, CacheModel.Coherent, CacheModel.View;
      var startBlock, endBlock := BlockRange(offset, len, cache.blockSize);
      var copied := 0;
      dst := [];
      var b := startBlock;
      ghost var first := b;
      AtStart(offset, len, cache.blockSize, first);
      ghost var flat := Flat();
      while b <= endBlock
        invariant Valid() && copied == |dst| && copied <= len && first <= b <= endBlock + 1
        invariant AtBlock(offset, len, cache.blockSize, first, b, copied)
        invariant Flat() == flat
        invariant old(Intact()) ==> Intact()
        invariant old(Quiet()) ==> Quiet()
        invariant copied > 0 ==> offset + copied <= |flat| && (old(Intact()) ==> dst == flat[offset..offset + copied])
        invariant Clock() <= old(Clock()) + copied
        invariant FaultsSince(old(Faults())) && (old(Able(len)) ==> Able(len - copied))
      {
        var got, piece := ReadPart(b, offset, len, copied, first, endBlock);
        if got != 0 {
          return -1, dst;
        }
        assert copied > 0 && old(Intact()) ==>
                   flat[offset..offset + copied] + piece == flat[offset..offset + copied + |piece|];
        dst := dst + piece;
        copied := copied + |piece|;
        b := b + 1;
      }
      AtEnd(offset, len, cache.blockSize, first, endBlock, copied);
      return 0, dst;
    }

    /** Reads a block, patches it and writes it back. */
    method PatchBlock(b: nat, from: nat, piece: seq<Byte>, ghost n: int) returns (r: int)
      requires Valid() && cache != null && from + |piece| <= cache.blockSize
      modifies cache, cache.entries, cache.disk
      ensures Clock() <= old(Clock()) + 2
      ensures Valid() && (r == 0 || r == -1) && |cache.disk.blocks| == |old(cache.disk.blocks)|
      ensures old(Intact()) && (r == 0 || Faults() == old(Faults())) ==> Intact()
      ensures old(Quiet()) ==> Quiet()
      ensures |Flat()| == |old(Flat())|
      ensures var before := old(Contents(cache.intended, cache.disk.blocks));
              if r == 0 then b < |before| && |before[b]| == cache.blockSize
                             && (old(Intact()) ==>
                                    Contents(cache.intended, cache.disk.blocks) == before[b := Splice(before[b], from, piece)])
              else Contents(cache.intended, cache.disk.blocks) == before
      ensures FaultsSince(old(Faults())) && (old(Able(n + 2)) && 0 <= n ==> Able(n))
      ensures old(Able(n + 2)) && 0 <= n && r == -1 ==> Faults() > old(Faults()) || b >= |cache.disk.blocks|
    {
      hide Concat, CacheModel.Tracks, CacheModel.Coherent, CacheModel.View, CacheModel.Find;
      var tmp;
      ContentsWhole(cache.intended, cache.disk.blocks, cache.blockSize);
      r, tmp := LoadBlock(b, n + 1);
      if r != 0 {
        return;
      }
      tmp := tmp[..from] + piece + tmp[from + |piece|..];
      r := StoreBlock(b, tmp, n);
      SameLength(old(Contents(cache.intended, cache.disk.blocks)), Contents(cache.intended, cache.disk.blocks), cache.blockSize);
    }

    /** One round of the writing loop: the bytes that block b takes. */
    method WritePart(b: nat, offset: nat, src: seq<Byte>, written: nat, ghost first: nat, ghost last: nat)
      returns (r: int, take: nat)
      requires Valid() && cache != null && 0 < |src| && AtBlock(offset, |src|, cache.blockSize, first, b, written)
      requires b <= last && Base(last, cache.blockSize) < offset + |src|
      modifies cache, cache.entries, cache.disk
      ensures Clock() <= old(Clock()) + 2 && written < |src|
      ensures Valid() && (r == 0 || r == -1)
      ensures old(Intact()) && (r == 0 || Faults() == old(Faults())) ==> Intact()
      ensures old(Quiet()) ==> Quiet()
      ensures r == 0 ==> 0 < take && written + take <= |src| && offset + written + take <= |old(Flat())|
                         && |Flat()| == |old(Flat())|
                         && AtBlock(offset, |src|, cache.blockSize, first, b + 1, written + take)
      ensures r == 0 && old(Intact()) ==> Flat() == Splice(old(Flat()), offset + written, src[written..written + take])
      ensures r == -1 ==> Flat() == old(Flat())
      ensures FaultsSince(old(Faults())) && (old(Able(2 * (|src| - written))) ==> Able(2 * (|src| - written) - 2))
      ensures r == -1 && old(Able(2 * (|src| - written))) ==> Faults() > old(Faults()) || offset + |src| > |Flat()|
    {
      hide AtBlock, Base, Concat, CacheModel.Tracks, CacheModel.Coherent, CacheModel.View;
      ghost var blocks := Contents(cache.intended, cache.disk.blocks);
      var (bs, len) := (cache.blockSize, |src|);
      NextBlock(offset, len, bs, first, last, b, written);
      ContentsWhole(cache.intended, cache.disk.blocks, bs);
      BlockInFlat(blocks, bs, b, offset, len, written);
      var blockOff := BlockOffset(b, bs);
      var from := if offset > blockOff then offset - blockOff else 0;
      var avail := bs - from;
      var need := len - written;
      take := if need < avail then need else avail;
      r := PatchBlock(b, from, src[written..written + take], 2 * (len - written) - 2);
      if r == 0 {
        WritePiece(blocks, bs, b, offset + written, from, src[written..written + take]);
      }
    }

    /** The cached branch of fat16_write_bytes. */
    method WriteBlocks(offset: nat, src: seq<Byte>) returns (r: int)
      requires Valid() && cache != null && 0 < |src| && offset + |src| <= OFFSET_RANGE
      modifies cache, cache.entries, cache.disk
      ensures Clock() <= old(Clock()) + 2 * |src| && (old(Able(2 * |src|)) ==> Able(0)) && FaultsSince(old(Faults()))
      ensures Valid() && (r == 0 || r == -1) && |Flat()| == |old(Flat())|
      ensures old(Intact()) && (r == 0 || Faults() == old(Faults())) ==> Intact()
      ensures old(Quiet()) ==> Quiet()
      ensures r == 0 ==> offset + |src| <= |Flat()| && (old(Intact()) ==> Flat() == Splice(old(Flat()), offset, src))
      ensures r == -1 && old(Intact()) ==>
                || Flat() == old(Flat())
                || exists k: nat :: k <= |src| && offset + k <= |Flat()| && Flat() == Splice(old(Flat()), offset, src[..k])
      ensures r == -1 && old(Intact()) && OneBlock(offset, |src|) ==> Flat() == old(Flat())
      ensures old(Able(2 * |src|)) && Faults() == old(Faults()) && offset + |src| <= |Flat()| ==> r == 0
    {
      hide AtBlock, Base, Concat, Contents, Splice, CacheModel.Tracks, CacheModel.Coherent, CacheModel.View;
      var startBlock, endBlock := BlockRange(offset, |src|, cache.blockSize);
      var written: nat := 0;
      var b := startBlock;
      ghost var first := b;
      AtStart(offset, |src|, cache.blockSize, first);
      ghost var flat := Flat();
      while b <= endBlock
        invariant Valid() && written <= |src| && first <= b <= endBlock + 1
        invariant AtBlock(offset, |src|, cache.blockSize, first, b, written)
        invariant |Flat()| == |flat| && (written > 0 ==> offset + written <= |flat|)
        invariant (b == startBlock ==> written == 0) && (old(Quiet()) ==> Quiet())
        invariant old(Intact()) ==> Intact() && WrittenUpTo(flat, Flat(), offset, src, written)
        invariant Clock() <= old(Clock()) + 2 * written
        invariant FaultsSince(old(Faults())) && (old(Able(2 * |src|)) ==> Able(2 * (|src| - written)))
      {
        ghost var now := Flat();
        var stored, take := WritePart(b, offset, src, written, first, endBlock);
        if stored != 0 {
          if old(Intact()) {
            WrittenPrefix(flat, Flat(), offset, src, written);
          }
          return -1;
        }
        if old(Intact()) {
          WrittenMore(flat, now, offset, src, written, take);
        }
        written := written + take;
        b := b + 1;
      }
      AtEnd(offset, |src|, cache.blockSize, first, endBlock, written);
      if old(Intact()) {
        WrittenPrefix(flat, Flat(), offset, src, written);
      }
      assert src[..written] == src;
      return 0;
    }
  }

  /** The first bytes of src are in place. */
  ghost predicate WrittenUpTo(flat: seq<Byte>, now: seq<Byte>, offset: nat, src: seq<Byte>, n: nat) {
    n <= |src| && |now| == |flat| && if n > 0 then offset + n <= |flat| && now == Splice(flat, offset, src[..n])
                                     else now == flat
  }

  lemma {:induction false} WrittenMore(flat: seq<Byte>, now: seq<Byte>, offset: nat, src: seq<Byte>, n: nat, take: nat)
    requires WrittenUpTo(flat, now, offset, src, n) && n + take <= |src| && 0 < take && offset + n + take <= |flat|
    ensures WrittenUpTo(flat, Splice(now, offset + n, src[n..n + take]), offset, src, n + take)
  {
    if n > 0 {
      SpliceMore(flat, offset, src[..n], src[n..n + take]);
    }
    assert src[..n] + src[n..n + take] == src[..n + take];
  }

  lemma {:induction false} WrittenPrefix(flat: seq<Byte>, now: seq<Byte>, offset: nat, src: seq<Byte>, n: nat)
    requires WrittenUpTo(flat, now, offset, src, n)
    ensures |now| == |flat|
    ensures now == flat || exists k: nat :: k <= |src| && offset + k <= |flat| && now == Splice(flat, offset, src[..k])
    ensures 0 < n ==> offset + n <= |flat| && now == Splice(flat, offset, src[..n])
  {
  }
}
