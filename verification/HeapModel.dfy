/** The kernel heap as a tiling of its range by live and free blocks, and its free list. */
module HeapModel {
  const HEADER: nat := 16
  const MIN_SPLIT: nat := 32  // a remainder smaller than this is not split off
  const WORD_RANGE: nat := 0x1_0000_0000

  /** A block with its header; asked is the requested number of bytes of a live block. */
  datatype Tile = Tile(addr: nat, size: nat, live: bool, asked: nat)

  /** An entry of the free list. */
  datatype Block = Block(addr: nat, size: nat)

  // ---------- sizes ----------

  /** align_up on 32-bit sizes. */
  function AlignUp(size: nat): nat { (size + 7) % WORD_RANGE / 8 * 8 }

  /** The bytes a block needs for a request: data, canary and header, each step in 32 bits. */
  function TotalSize(size: nat): nat {
    (AlignUp((AlignUp(size) + 4) % WORD_RANGE) + HEADER) % WORD_RANGE
  }

  /** The block holds the request exactly when no 32-bit step wraps. */
  lemma {:induction false} TotalSizeFits(size: nat)
    requires size < WORD_RANGE
    ensures TotalSize(size) >= size + 20 <==> size <= 0xFFFF_FFE0
    ensures size <= 0xFFFF_FFE0 ==> TotalSize(size) % 8 == 0 && size + 24 <= TotalSize(size) < size + 32
    ensures size > 0xFFFF_FFE0 ==> TotalSize(size) <= 24
  {
    AlignUpExact(size);
    if size <= 0xFFFF_FFE0 {
      TotalSizeExact(size);
    } else {
      TotalSizeWraps(size);
    }
  }

  /** A free block of t.size bytes is split when 32 bytes or more are left of it, and taken whole otherwise. */
  lemma {:induction false} CarveBytes(t: Tile, total: nat, asked: nat)
    requires total <= t.size
    ensures Carve(t, total, asked)
            == if t.size >= total + 32
               then [Tile(t.addr, total, true, asked), Tile(t.addr + total, t.size - total, false, 0)]
               else [Tile(t.addr, t.size, true, asked)]
  {
  }

  /** kmalloc writes the canary into the last word of the bytes it needs, kfree looks for it in the last word of the
      block. That is the same word if and only if the block was split or had no byte to spare. */
  lemma {:induction false} CanaryPlace(t: Tile, total: nat, asked: nat)
    requires 20 <= total <= t.size
    ensures var b := Carve(t, total, asked)[0];
            b.addr + total - 4 == b.addr + b.size - 4 <==> t.size >= total + 32 || t.size == total
  {
    CarveBytes(t, total, asked);
  }

  /** For example one byte out of a free block of 48: the canary is at 28, and kfree looks at 44. */
  lemma {:induction false} MisplacedCanary(addr: nat)
    ensures TotalSize(1) == 32 && Carve(Tile(addr, 48, false, 0), 32, 1) == [Tile(addr, 48, true, 1)]
  {
    assert AlignUp(1) == 8 && AlignUp(12) == 16;
  }

  /** For example a request for the largest 32-bit size is met by 24 bytes, and one for 0xFFFF_FFE8 bytes by none. */
  lemma {:induction false} OversizedRequests()
    ensures TotalSize(0xFFFF_FFFF) == 24 && TotalSize(0xFFFF_FFE8) == 0
  {
    assert AlignUp(0xFFFF_FFFF) == 0 && AlignUp(4) == 8;
    assert AlignUp(0xFFFF_FFE8) == 0xFFFF_FFE8 && AlignUp(0xFFFF_FFEC) == 0xFFFF_FFF0;
  }

  lemma {:induction false} TotalSizeExact(size: nat)
    requires size <= 0xFFFF_FFE0
    ensures TotalSize(size) == AlignUp(size) + 24
  {
    var wanted := AlignUp(size);
    AlignUpExact(size);
    assert wanted % 8 == 0 && wanted <= 0xFFFF_FFE0;
    AlignUpExact(wanted + 4);
    hide AlignUp;
    assert (wanted + 4) % WORD_RANGE == wanted + 4;
  }

  lemma {:induction false} TotalSizeWraps(size: nat)
    requires 0xFFFF_FFE0 < size < WORD_RANGE
    ensures TotalSize(size) <= 24
  {
    AlignUpExact(size);
    var wanted := AlignUp(size);
    assert wanted == 0xFFFF_FFE8 || wanted == 0xFFFF_FFF0 || wanted == 0xFFFF_FFF8 || wanted == 0;
  }

  lemma {:induction false} AlignUpExact(size: nat)
    requires size < WORD_RANGE
    ensures size <= 0xFFFF_FFF8 ==> AlignUp(size) % 8 == 0 && size <= AlignUp(size) < size + 8
    ensures size > 0xFFFF_FFF8 ==> AlignUp(size) == 0
  {
  }

  // ---------- tilings ----------

  /** The tiles follow each other from start to end without gap or overlap. */
  ghost predicate Tiles(ts: seq<Tile>, start: nat, end: nat) {
    if ts == [] then start == end
    else ts[0].addr == start && GoodTile(ts[0]) && Tiles(ts[1..], start + ts[0].size, end)
  }

  ghost predicate GoodTile(t: Tile) {
    && t.size % 8 == 0 && HEADER <= t.size
    && (if t.live then MIN_SPLIT <= t.size && t.asked + 4 + HEADER <= t.size else t.asked == 0)
  }

  /** Free tiles are maximal: no two of them touch. */
  ghost predicate Maximal(ts: seq<Tile>) {
    forall i :: 0 <= i < |ts| - 1 ==> ts[i].live || ts[i + 1].live
  }

  /** The free list of a tiling, in address order. */
  function FreeOf(ts: seq<Tile>): seq<Block> {
    if ts == [] then []
    else if ts[0].live then FreeOf(ts[1..])
    else [Block(ts[0].addr, ts[0].size)] + FreeOf(ts[1..])
  }

  lemma {:induction false} TilesConcat(a: seq<Tile>, b: seq<Tile>, start: nat, mid: nat, end: nat)
    requires Tiles(a, start, mid) && Tiles(b, mid, end)
    ensures Tiles(a + b, start, end)
  {
    if a == [] {
      assert a + b == b;
    } else {
      assert (a + b)[1..] == a[1..] + b;
      TilesConcat(a[1..], b, start + a[0].size, mid, end);
    }
  }

  lemma {:induction false} TilesSplit(ts: seq<Tile>, k: nat, start: nat, end: nat)
    requires Tiles(ts, start, end) && k <= |ts|
    ensures var mid := if k < |ts| then ts[k].addr else end;
            start <= mid <= end && Tiles(ts[..k], start, mid) && Tiles(ts[k..], mid, end)
  {
    if k > 0 {
      TilesSplit(ts[1..], k - 1, start + ts[0].size, end);
      assert ts[1..][..k - 1] == ts[..k][1..] && ts[1..][k - 1..] == ts[k..];
    } else {
      assert ts[..0] == [] && ts[0..] == ts;
      if ts != [] {
        TilesInside(ts, 0, start, end);
      }
    }
  }

  lemma {:induction false} TilesInside(ts: seq<Tile>, k: nat, start: nat, end: nat)
    requires Tiles(ts, start, end) && k < |ts|
    ensures GoodTile(ts[k]) && start <= ts[k].addr && ts[k].addr + ts[k].size <= end
    ensures k + 1 < |ts| ==> ts[k + 1].addr == ts[k].addr + ts[k].size
    ensures k + 1 == |ts| ==> ts[k].addr + ts[k].size == end
    decreases |ts|
  {
    if k > 0 {
      TilesInside(ts[1..], k - 1, start + ts[0].size, end);
    } else if |ts| > 1 {
      TilesInside(ts[1..], |ts| - 2, start + ts[0].size, end);
      TilesBelow(ts[1..], start + ts[0].size, end);
    }
  }

  lemma {:induction false} TilesBelow(ts: seq<Tile>, start: nat, end: nat)
    requires Tiles(ts, start, end)
    ensures start <= end
  {
    if ts != [] {
      TilesBelow(ts[1..], start + ts[0].size, end);
    }
  }

  /** Tiles are disjoint and in address order. */
  lemma {:induction false} TilesApart(ts: seq<Tile>, i: nat, j: nat, start: nat, end: nat)
    requires Tiles(ts, start, end) && i < j < |ts|
    ensures ts[i].addr + ts[i].size <= ts[j].addr
    decreases j
  {
    if i == 0 {
      TilesInside(ts[1..], j - 1, start + ts[0].size, end);
    } else {
      TilesApart(ts[1..], i - 1, j - 1, start + ts[0].size, end);
    }
  }

  // ---------- the tiling is determined by the live blocks ----------

  ghost predicate SameLive(ts: seq<Tile>, us: seq<Tile>) {
    forall t: Tile :: t.live ==> (t in ts <==> t in us)
  }

  lemma {:induction false} AtStart(ts: seq<Tile>, t: Tile, start: nat, end: nat)
    requires Tiles(ts, start, end) && t in ts
    ensures start <= t.addr && (t.addr == start ==> t == ts[0])
    ensures t != ts[0] ==> ts[0].addr + ts[0].size <= t.addr && t in ts[1..]
  {
    var k :| 0 <= k < |ts| && ts[k] == t;
    if k > 0 {
      TilesApart(ts, 0, k, start, end);
      assert ts[1..][k - 1] == t;
    }
  }

  lemma {:induction false} FirstAgrees(ts: seq<Tile>, us: seq<Tile>, start: nat, end: nat)
    requires Tiles(ts, start, end) && Tiles(us, start, end) && Maximal(ts) && SameLive(ts, us)
    requires ts != [] && us != []
    ensures if ts[0].live then us[0] == ts[0] else !us[0].live && us[0].size <= ts[0].size
  {
    if ts[0].live {
      AtStart(us, ts[0], start, end);
    } else {
      if us[0].live {
        AtStart(ts, us[0], start, end);
      }
      TilesInside(ts, 0, start, end);
      TilesInside(us, 0, start, end);
      if us[0].size > ts[0].size {
        assert |ts| > 1;
        assert ts[1].live && ts[1] in us;
        AtStart(us, ts[1], start, end);
      }
    }
  }

  /** The live blocks determine the tiling, and so the free list. */
  lemma {:induction false} TilingUnique(ts: seq<Tile>, us: seq<Tile>, start: nat, end: nat)
    requires Tiles(ts, start, end) && Tiles(us, start, end) && Maximal(ts) && Maximal(us) && SameLive(ts, us)
    ensures ts == us
  {
    if ts == [] {
      assert us == [] by {
        if us != [] {
          TilesInside(us, 0, start, end);
        }
      }
    } else {
      assert us != [] by {
        TilesInside(ts, 0, start, end);
      }
      FirstAgrees(ts, us, start, end);
      FirstAgrees(us, ts, start, end);
      assert ts[0].size == us[0].size;
      assert SameLive(ts[1..], us[1..]) by {
        forall t: Tile | t.live
          ensures t in ts[1..] <==> t in us[1..]
        {
          TailLive(ts, us, start, end, t);
          TailLive(us, ts, start, end, t);
        }
      }
      assert Maximal(ts[1..]) && Maximal(us[1..]);
      TilingUnique(ts[1..], us[1..], start + ts[0].size, end);
    }
  }

  lemma {:induction false} TailLive(ts: seq<Tile>, us: seq<Tile>, start: nat, end: nat, t: Tile)
    requires Tiles(ts, start, end) && Tiles(us, start, end) && SameLive(ts, us) && ts != [] && us != [] && t.live
    requires ts[0].live ==> us[0] == ts[0]
    requires us[0].live ==> ts[0] == us[0]
    ensures t in ts[1..] ==> t in us[1..]
  {
    if t in ts[1..] {
      assert t in ts && t in us;
      var k :| 0 <= k < |ts[1..]| && ts[1..][k] == t;
      TilesApart(ts, 0, k + 1, start, end);
      TilesInside(ts, 0, start, end);
      AtStart(us, t, start, end);
    }
  }

  /** With nothing live, one free block spans the heap. */
  lemma {:induction false} AllFree(ts: seq<Tile>, start: nat, end: nat)
    requires Tiles(ts, start, end) && Maximal(ts) && start < end
    requires forall t :: t in ts ==> !t.live
    ensures |ts| == 1 && FreeOf(ts) == [Block(start, end - start)]
  {
    assert forall i :: 0 <= i < |ts| ==> ts[i] in ts && !ts[i].live;
    assert FreeOf(ts[1..]) == [];
  }

  // ---------- the operations on tilings ----------

  lemma {:induction false} FreeOfConcat(a: seq<Tile>, b: seq<Tile>)
    ensures FreeOf(a + b) == FreeOf(a) + FreeOf(b)
  {
    if a == [] {
      assert a + b == b;
    } else {
      assert (a + b)[1..] == a[1..] + b;
      FreeOfConcat(a[1..], b);
    }
  }

  /** Replacing tiles lo..hi by others over the same bytes. */
  lemma {:induction false} TilesReplace(ts: seq<Tile>, lo: nat, hi: nat, mid: seq<Tile>, start: nat, end: nat)
    requires Tiles(ts, start, end) && lo < hi <= |ts|
    requires Tiles(mid, ts[lo].addr, if hi < |ts| then ts[hi].addr else end)
    ensures Tiles(ts[..lo] + mid + ts[hi..], start, end)
    ensures FreeOf(ts[..lo] + mid + ts[hi..]) == FreeOf(ts[..lo]) + FreeOf(mid) + FreeOf(ts[hi..])
  {
    TilesSplit(ts, lo, start, end);
    TilesSplit(ts, hi, start, end);
    var to := if hi < |ts| then ts[hi].addr else end;
    TilesConcat(ts[..lo], mid, start, ts[lo].addr, to);
    TilesConcat(ts[..lo] + mid, ts[hi..], start, to, end);
    FreeOfConcat(ts[..lo], mid);
    FreeOfConcat(ts[..lo] + mid, ts[hi..]);
  }

  /** What kmalloc puts in place of a free tile. */
  function Carve(t: Tile, total: nat, asked: nat): seq<Tile>
    requires total <= t.size
  {
    if t.size >= total + MIN_SPLIT then [Tile(t.addr, total, true, asked), Tile(t.addr + total, t.size - total, false, 0)]
    else [Tile(t.addr, t.size, true, asked)]
  }

  function AllocTiles(ts: seq<Tile>, k: nat, total: nat, asked: nat): seq<Tile>
    requires k < |ts| && total <= ts[k].size
  {
    ts[..k] + Carve(ts[k], total, asked) + ts[k + 1..]
  }

  lemma {:induction false} AllocSound(ts: seq<Tile>, k: nat, total: nat, asked: nat, start: nat, end: nat)
    requires Tiles(ts, start, end) && Maximal(ts) && k < |ts| && !ts[k].live
    requires total <= ts[k].size && total % 8 == 0 && MIN_SPLIT <= total && asked + 4 + HEADER <= total
    ensures Tiles(AllocTiles(ts, k, total, asked), start, end) && Maximal(AllocTiles(ts, k, total, asked))
    ensures FreeOf(AllocTiles(ts, k, total, asked))
            == FreeOf(ts[..k]) + FreeOf(Carve(ts[k], total, asked)) + FreeOf(ts[k + 1..])
  {
    TilesInside(ts, k, start, end);
    TilesReplace(ts, k, k + 1, Carve(ts[k], total, asked), start, end);
  }

  /** Tiles lo..hi, all but one of them free, merged into one free tile. */
  function MergeTiles(ts: seq<Tile>, lo: nat, hi: nat): seq<Tile>
    requires lo <= hi < |ts|
  {
    var end := ts[hi].addr + ts[hi].size;
    ts[..lo] + [Tile(ts[lo].addr, if end >= ts[lo].addr then end - ts[lo].addr else 0, false, 0)] + ts[hi + 1..]
  }

  function MergeFrom(ts: seq<Tile>, k: nat): nat
    requires k < |ts|
  {
    if k > 0 && !ts[k - 1].live then k - 1 else k
  }

  function MergeTo(ts: seq<Tile>, k: nat): nat
    requires k < |ts|
  {
    if k + 1 < |ts| && !ts[k + 1].live then k + 1 else k
  }

  /** kfree of tile k. */
  function FreeTiles(ts: seq<Tile>, k: nat): seq<Tile>
    requires k < |ts|
  {
    MergeTiles(ts, MergeFrom(ts, k), MergeTo(ts, k))
  }

  lemma {:induction false} MergeSound(ts: seq<Tile>, lo: nat, hi: nat, start: nat, end: nat)
    requires Tiles(ts, start, end) && lo <= hi < |ts|
    ensures Tiles(MergeTiles(ts, lo, hi), start, end)
    ensures ts[lo].addr + ts[lo].size <= ts[hi].addr + ts[hi].size
    ensures FreeOf(MergeTiles(ts, lo, hi))
            == FreeOf(ts[..lo]) + [Block(ts[lo].addr, ts[hi].addr + ts[hi].size - ts[lo].addr)] + FreeOf(ts[hi + 1..])
  {
    TilesInside(ts, lo, start, end);
    TilesInside(ts, hi, start, end);
    if lo < hi {
      TilesApart(ts, lo, hi, start, end);
    }
    SizesAligned(ts, lo, hi, start, end);
    var merged := Tile(ts[lo].addr, ts[hi].addr + ts[hi].size - ts[lo].addr, false, 0);
    OneTile(merged);
    var to := if hi + 1 < |ts| then ts[hi + 1].addr else end;
    assert to == merged.addr + merged.size;
    hide Tiles;
    hide GoodTile;
    TilesReplace(ts, lo, hi + 1, [merged], start, end);
  }

  lemma {:induction false} OneTile(t: Tile)
    requires GoodTile(t)
    ensures Tiles([t], t.addr, t.addr + t.size)
    ensures FreeOf([t]) == if t.live then [] else [Block(t.addr, t.size)]
  {
    assert [t][1..] == [];
  }

  lemma {:induction false} SizesAligned(ts: seq<Tile>, lo: nat, hi: nat, start: nat, end: nat)
    requires Tiles(ts, start, end) && lo <= hi < |ts|
    ensures (ts[hi].addr + ts[hi].size - ts[lo].addr) % 8 == 0
    decreases hi
  {
    TilesInside(ts, hi, start, end);
    if lo < hi {
      SizesAligned(ts, lo, hi - 1, start, end);
      TilesInside(ts, hi - 1, start, end);
    }
  }

  lemma {:induction false} FreeSound(ts: seq<Tile>, k: nat, start: nat, end: nat)
    requires Tiles(ts, start, end) && Maximal(ts) && k < |ts| && ts[k].live
    ensures Tiles(FreeTiles(ts, k), start, end) && Maximal(FreeTiles(ts, k))
  {
    MergeSound(ts, MergeFrom(ts, k), MergeTo(ts, k), start, end);
  }

  /** Freeing drops one live block and keeps the others. */
  lemma {:induction false} FreeLive(ts: seq<Tile>, k: nat, start: nat, end: nat, t: Tile)
    requires Tiles(ts, start, end) && k < |ts| && ts[k].live && t.live
    ensures t in FreeTiles(ts, k) <==> t in ts && t != ts[k]
  {
    var (lo, hi) := (MergeFrom(ts, k), MergeTo(ts, k));
    assert ts == ts[..lo] + ts[lo..hi + 1] + ts[hi + 1..];
    assert forall i :: lo <= i <= hi && i != k ==> !ts[i].live;
    if t in ts[..lo] || t in ts[hi + 1..] {
      var i :| 0 <= i < |ts| && ts[i] == t && !(lo <= i <= hi);
      TilesInside(ts, k, start, end);
      if i < k { TilesApart(ts, i, k, start, end); } else { TilesApart(ts, k, i, start, end); }
      TilesInside(ts, i, start, end);
    }
  }

  /** Allocating adds one live block and keeps the others. */
  lemma {:induction false} AllocLive(ts: seq<Tile>, k: nat, total: nat, asked: nat, t: Tile)
    requires k < |ts| && !ts[k].live && total <= ts[k].size && t.live
    ensures t in AllocTiles(ts, k, total, asked) <==> t in ts || t == Carve(ts[k], total, asked)[0]
  {
    assert ts == ts[..k] + [ts[k]] + ts[k + 1..];
  }

  // ---------- the free list as a list ----------

  /** Insertion by address. */
  function Insert(fs: seq<Block>, b: Block): seq<Block> {
    if fs == [] || b.addr < fs[0].addr then [b] + fs else [fs[0]] + Insert(fs[1..], b)
  }

  predicate Touch(a: Block, b: Block) { a.addr + a.size == b.addr }

  /** The pass that merges every block with the next one while they touch. */
  function Coalesce(fs: seq<Block>): seq<Block>
    decreases |fs|
  {
    if |fs| < 2 then fs
    else if Touch(fs[0], fs[1]) then Coalesce([Block(fs[0].addr, fs[0].size + fs[1].size)] + fs[2..])
    else [fs[0]] + Coalesce(fs[1..])
  }

  ghost predicate Separate(fs: seq<Block>) {
    forall i :: 0 <= i < |fs| - 1 ==> !Touch(fs[i], fs[i + 1])
  }

  lemma {:induction false} CoalesceSeparate(fs: seq<Block>)
    requires Separate(fs)
    ensures Coalesce(fs) == fs
  {
    if |fs| >= 2 {
      CoalesceSeparate(fs[1..]);
    }
  }

  lemma {:induction false} CoalescePrefix(a: seq<Block>, c: Block, b: seq<Block>)
    requires Separate(a + [c])
    ensures Coalesce(a + [c] + b) == a + Coalesce([c] + b)
  {
    if a == [] {
      assert a + [c] + b == [c] + b;
    } else {
      var (fs, rest) := (a + [c] + b, a[1..] + [c]);
      assert (a + [c])[1..] == rest && fs[1..] == rest + b;
      assert Separate(rest) by {
        assert forall i :: 0 <= i < |rest| ==> rest[i] == (a + [c])[i + 1];
      }
      CoalescePrefix(a[1..], c, b);
      assert fs[0] == a[0] && fs[1] == rest[0] && !Touch((a + [c])[0], (a + [c])[1]);
      assert Coalesce(fs) == [a[0]] + Coalesce(fs[1..]);
      assert a == [a[0]] + a[1..];
    }
  }

  lemma {:induction false} InsertBetween(a: seq<Block>, b: seq<Block>, x: Block)
    requires forall i :: 0 <= i < |a| ==> a[i].addr <= x.addr
    requires b != [] ==> x.addr < b[0].addr
    ensures Insert(a + b, x) == a + [x] + b
  {
    if a == [] {
      assert a + b == b;
    } else {
      assert (a + b)[1..] == a[1..] + b;
      InsertBetween(a[1..], b, x);
    }
  }

  /** In a maximal tiling no two free blocks touch. */
  lemma {:induction false} FreeSeparate(ts: seq<Tile>, start: nat, end: nat)
    requires Tiles(ts, start, end) && Maximal(ts)
    ensures Separate(FreeOf(ts))
    ensures forall i :: 0 <= i < |FreeOf(ts)| ==> start <= FreeOf(ts)[i].addr && HEADER <= FreeOf(ts)[i].size
    ensures FreeOf(ts) != [] && ts[0].live ==> start < FreeOf(ts)[0].addr
    ensures forall i, j :: 0 <= i < j < |FreeOf(ts)| ==> FreeOf(ts)[i].addr + FreeOf(ts)[i].size < FreeOf(ts)[j].addr
    ensures forall i :: 0 <= i < |FreeOf(ts)| ==> FreeOf(ts)[i].addr + FreeOf(ts)[i].size <= end
  {
    if ts != [] {
      FreeSeparate(ts[1..], start + ts[0].size, end);
      TilesInside(ts, 0, start, end);
    }
  }

  // ---------- the list operations meet the tiling operations ----------

  /** Inserting a freed block in address order and coalescing the list gives the free list of the merged tiling. */
  lemma {:induction false} FreeRefines(ts: seq<Tile>, k: nat, start: nat, end: nat)
    requires Tiles(ts, start, end) && Maximal(ts) && k < |ts| && ts[k].live
    ensures Insert(FreeOf(ts), BlockOf(ts[k])) == FreeOf(ts[..k]) + [BlockOf(ts[k])] + FreeOf(ts[k + 1..])
    ensures Coalesce(Insert(FreeOf(ts), BlockOf(ts[k]))) == FreeOf(FreeTiles(ts, k))
  {
    var (a, x, b) := (FreeOf(ts[..k]), BlockOf(ts[k]), FreeOf(ts[k + 1..]));
    FreeAround(ts, k, start, end);
    InsertBetween(a, b, x);
    CoalesceThree(a, x, b);
    FreeTilesList(ts, k, start, end);
  }

  function BlockOf(t: Tile): Block { Block(t.addr, t.size) }

  /** The free blocks before and after a live tile. */
  lemma {:induction false} FreeAround(ts: seq<Tile>, k: nat, start: nat, end: nat)
    requires Tiles(ts, start, end) && Maximal(ts) && k < |ts| && ts[k].live
    ensures FreeOf(ts) == FreeOf(ts[..k]) + FreeOf(ts[k + 1..])
    ensures Separate(FreeOf(ts[..k])) && Separate(FreeOf(ts[k + 1..]))
    ensures forall i :: 0 <= i < |FreeOf(ts[..k])| ==> FreeOf(ts[..k])[i].addr <= ts[k].addr
    ensures FreeOf(ts[k + 1..]) != [] ==> ts[k].addr < FreeOf(ts[k + 1..])[0].addr
  {
    assert FreeOf(ts) == FreeOf(ts[..k]) + FreeOf(ts[k + 1..]) by {
      assert ts == ts[..k] + ts[k..];
      FreeOfConcat(ts[..k], ts[k..]);
      assert ts[k..][1..] == ts[k + 1..];
    }
    hide Tiles, FreeOf;
    TilesSplit(ts, k, start, end);
    TilesSplit(ts, k + 1, start, end);
    TilesInside(ts, k, start, end);
    FreeSeparate(ts[..k], start, ts[k].addr);
    FreeSeparate(ts[k + 1..], if k + 1 < |ts| then ts[k + 1].addr else end, end);
  }

  function JoinLeft(a: seq<Block>, x: Block): seq<Block> {
    if a != [] && Touch(a[|a| - 1], x) then a[..|a| - 1] + [Block(a[|a| - 1].addr, a[|a| - 1].size + x.size)]
    else a + [x]
  }

  function JoinRight(x: Block, b: seq<Block>): seq<Block> {
    if b != [] && Touch(x, b[0]) then [Block(x.addr, x.size + b[0].size)] + b[1..] else [x] + b
  }

  /** Coalescing merges an inserted block with the neighbours it touches, and nothing else. */
  lemma {:induction false} CoalesceThree(a: seq<Block>, x: Block, b: seq<Block>)
    requires Separate(a) && Separate(b)
    ensures var l := JoinLeft(a, x);
            Coalesce(a + [x] + b) == l[..|l| - 1] + JoinRight(l[|l| - 1], b)
  {
    hide Coalesce;
    var l := JoinLeft(a, x);
    if a != [] && Touch(a[|a| - 1], x) {
      var (front, c) := (a[..|a| - 1], a[|a| - 1]);
      assert front + [c] == a;
      CoalescePrefix(front, c, [x] + b);
      CoalesceTouch(c, x, b);
      assert a + [x] + b == front + [c] + ([x] + b);
      assert l[..|l| - 1] == front;
    } else {
      assert Separate(a + [x]);
      CoalescePrefix(a, x, b);
      assert l[..|l| - 1] == a;
    }
    CoalesceOne(l[|l| - 1], b);
  }

  lemma {:induction false} CoalesceTouch(c: Block, x: Block, b: seq<Block>)
    requires Touch(c, x)
    ensures Coalesce([c] + ([x] + b)) == Coalesce([Block(c.addr, c.size + x.size)] + b)
  {
    assert ([c] + ([x] + b))[2..] == b;
  }

  lemma {:induction false} CoalesceOne(x: Block, b: seq<Block>)
    requires Separate(b)
    ensures Coalesce([x] + b) == JoinRight(x, b)
  {
    if b != [] && Touch(x, b[0]) {
      assert ([x] + b)[2..] == b[1..];
      CoalesceSeparate([Block(x.addr, x.size + b[0].size)] + b[1..]);
    } else {
      CoalesceSeparate([x] + b);
    }
  }

  lemma {:induction false} LeftJoin(ts: seq<Tile>, k: nat, start: nat, end: nat)
    requires Tiles(ts, start, end) && k < |ts| && ts[k].live
    ensures var lo := MergeFrom(ts, k);
            ts[lo].addr <= ts[k].addr
            && JoinLeft(FreeOf(ts[..k]), BlockOf(ts[k]))
               == FreeOf(ts[..lo]) + [Block(ts[lo].addr, ts[k].addr + ts[k].size - ts[lo].addr)]
  {
    if k > 0 {
      FreeOfLast(ts, k);
      TilesInside(ts, k - 1, start, end);
      TilesInside(ts, k, start, end);
      if ts[k - 1].live {
        TilesSplit(ts, k - 1, start, end);
        FreeInside(ts[..k - 1], start, ts[k - 1].addr);
      } else {
        var a := FreeOf(ts[..k]);
        assert a[..|a| - 1] == FreeOf(ts[..k - 1]) && a[|a| - 1] == BlockOf(ts[k - 1]);
      }
    }
  }

  lemma {:induction false} FreeOfLast(ts: seq<Tile>, k: nat)
    requires 0 < k <= |ts|
    ensures FreeOf(ts[..k]) == FreeOf(ts[..k - 1]) + if ts[k - 1].live then [] else [BlockOf(ts[k - 1])]
  {
    assert ts[..k] == ts[..k - 1] + [ts[k - 1]];
    FreeOfConcat(ts[..k - 1], [ts[k - 1]]);
    assert [ts[k - 1]][1..] == [];
  }

  /** Free blocks lie within the range that the tiles cover. */
  lemma {:induction false} FreeInside(ts: seq<Tile>, start: nat, end: nat)
    requires Tiles(ts, start, end)
    ensures forall i :: 0 <= i < |FreeOf(ts)| ==>
              start <= FreeOf(ts)[i].addr && FreeOf(ts)[i].addr + FreeOf(ts)[i].size <= end && HEADER <= FreeOf(ts)[i].size
  {
    if ts != [] {
      FreeInside(ts[1..], start + ts[0].size, end);
      TilesInside(ts, 0, start, end);
    }
  }

  lemma {:induction false} RightJoin(ts: seq<Tile>, k: nat, y: Block, start: nat, end: nat)
    requires Tiles(ts, start, end) && k < |ts| && ts[k].live && y.addr + y.size == ts[k].addr + ts[k].size
    ensures var hi := MergeTo(ts, k);
            y.addr <= ts[hi].addr + ts[hi].size
            && JoinRight(y, FreeOf(ts[k + 1..])) == [Block(y.addr, ts[hi].addr + ts[hi].size - y.addr)] + FreeOf(ts[hi + 1..])
  {
    TilesInside(ts, k, start, end);
    if k + 1 < |ts| {
      TilesInside(ts, k + 1, start, end);
      assert ts[k + 1..][1..] == ts[k + 2..];
      TilesSplit(ts, k + 2, start, end);
      FreeInside(ts[k + 2..], if k + 2 < |ts| then ts[k + 2].addr else end, end);
      if k + 2 < |ts| {
        TilesInside(ts, k + 2, start, end);
      }
    }
  }

  lemma {:induction false} FreeTilesList(ts: seq<Tile>, k: nat, start: nat, end: nat)
    requires Tiles(ts, start, end) && k < |ts| && ts[k].live
    ensures var l := JoinLeft(FreeOf(ts[..k]), BlockOf(ts[k]));
            FreeOf(FreeTiles(ts, k)) == l[..|l| - 1] + JoinRight(l[|l| - 1], FreeOf(ts[k + 1..]))
  {
    hide Tiles, FreeOf, JoinLeft, JoinRight, MergeTiles;
    var (lo, hi) := (MergeFrom(ts, k), MergeTo(ts, k));
    LeftJoin(ts, k, start, end);
    var y := Block(ts[lo].addr, ts[k].addr + ts[k].size - ts[lo].addr);
    var front := FreeOf(ts[..lo]);
    var l := JoinLeft(FreeOf(ts[..k]), BlockOf(ts[k]));
    assert l == front + [y];
    assert l[..|l| - 1] == front && l[|l| - 1] == y;
    RightJoin(ts, k, y, start, end);
    MergeSound(ts, lo, hi, start, end);
    var z := Block(y.addr, ts[hi].addr + ts[hi].size - y.addr);
    assert front + ([z] + FreeOf(ts[hi + 1..])) == front + [z] + FreeOf(ts[hi + 1..]);
  }

  // ---------- growing the heap ----------

  /** The heap grown by new bytes at its end. */
  function ExpandTiles(ts: seq<Tile>, end: nat, more: nat): seq<Tile> {
    if ts != [] && !ts[|ts| - 1].live then
      ts[..|ts| - 1] + [Tile(ts[|ts| - 1].addr, ts[|ts| - 1].size + more, false, 0)]
    else ts + [Tile(end, more, false, 0)]
  }

  lemma {:induction false} ExpandSound(ts: seq<Tile>, start: nat, end: nat, more: nat)
    requires Tiles(ts, start, end) && Maximal(ts) && more % 8 == 0 && more >= HEADER
    ensures Tiles(ExpandTiles(ts, end, more), start, end + more) && Maximal(ExpandTiles(ts, end, more))
    ensures FreeOf(ExpandTiles(ts, end, more)) == JoinLeft(FreeOf(ts), Block(end, more))
    ensures SameLive(ts, ExpandTiles(ts, end, more))
  {
    ExpandMaximal(ts, end, more);
    hide Tiles, Maximal;
    var n := |ts|;
    if n > 0 {
      TilesInside(ts, n - 1, start, end);
      TilesSplit(ts, n - 1, start, end);
      assert ts == ts[..n - 1] + [ts[n - 1]];
    }
    if n > 0 && !ts[n - 1].live {
      var last := Tile(ts[n - 1].addr, ts[n - 1].size + more, false, 0);
      Append(ts[..n - 1], last, start);
    } else {
      Append(ts, Tile(end, more, false, 0), start);
    }
    ExpandList(ts, start, end, more);
  }

  lemma {:induction false} ExpandMaximal(ts: seq<Tile>, end: nat, more: nat)
    requires Maximal(ts)
    ensures Maximal(ExpandTiles(ts, end, more))
  {
  }

  lemma {:induction false} ExpandList(ts: seq<Tile>, start: nat, end: nat, more: nat)
    requires Tiles(ts, start, end)
    ensures FreeOf(ExpandTiles(ts, end, more)) == JoinLeft(FreeOf(ts), Block(end, more))
  {
    hide Tiles;
    var n := |ts|;
    var grown := ExpandTiles(ts, end, more);
    assert ts[..n] == ts && grown[..|grown|] == grown;
    FreeOfLast(grown, |grown|);
    if n > 0 {
      FreeOfLast(ts, n);
      TilesInside(ts, n - 1, start, end);
      if ts[n - 1].live {
        TilesSplit(ts, n - 1, start, end);
        FreeInside(ts[..n - 1], start, ts[n - 1].addr);
        assert grown[..|grown| - 1] == ts;
      } else {
        assert grown[..|grown| - 1] == ts[..n - 1];
        var a := FreeOf(ts);
        assert a[..|a| - 1] == FreeOf(ts[..n - 1]) && a[|a| - 1] == BlockOf(ts[n - 1]);
      }
    }
  }

  lemma {:induction false} Append(ts: seq<Tile>, t: Tile, start: nat)
    requires Tiles(ts, start, t.addr) && GoodTile(t) && !t.live
    ensures Tiles(ts + [t], start, t.addr + t.size)
  {
    OneTile(t);
    TilesConcat(ts, [t], start, t.addr, t.addr + t.size);
  }

  // ---------- first fit ----------

  /** The first free tile that holds total bytes, or the number of tiles. */
  function FirstFit(ts: seq<Tile>, total: nat): (k: nat)
    ensures k <= |ts|
    ensures k < |ts| ==> !ts[k].live && ts[k].size >= total
    ensures forall i :: 0 <= i < k ==> ts[i].live || ts[i].size < total
  {
    if ts == [] || (!ts[0].live && ts[0].size >= total) then 0
    else
      var k := FirstFit(ts[1..], total);
      assert forall i :: 0 < i < |ts| ==> ts[i] == ts[1..][i - 1];
      1 + k
  }

  /** Entry i of the free list is the first one of total bytes or more, if there is one. */
  ghost predicate FitsAt(fs: seq<Block>, total: nat, i: nat) {
    && i <= |fs| && (forall j :: 0 <= j < i ==> fs[j].size < total)
    && (i < |fs| ==> fs[i].size >= total)
  }

  /** Tile k, if any, is entry i of the free list. */
  ghost predicate TileOfEntry(ts: seq<Tile>, k: nat, i: nat) {
    var fs := FreeOf(ts);
    if k >= |ts| then i == |fs|
    else i < |fs| && fs[i] == BlockOf(ts[k]) && FreeOf(ts[..k]) == fs[..i] && FreeOf(ts[k + 1..]) == fs[i + 1..]
  }

  /** The first fitting entry of the free list is the first fitting tile. */
  lemma {:induction false} FitInList(ts: seq<Tile>, total: nat, i: nat)
    requires FitsAt(FreeOf(ts), total, i)
    ensures TileOfEntry(ts, FirstFit(ts, total), i)
  {
    if ts != [] {
      if !ts[0].live && ts[0].size >= total {
        assert FreeOf(ts)[0] == BlockOf(ts[0]) && FreeOf(ts)[1..] == FreeOf(ts[1..]);
      } else {
        var d := if ts[0].live then 0 else 1;
        FitTail(ts, total, i, d);
        FitInList(ts[1..], total, i - d);
        FitLater(ts, FirstFit(ts, total), i, d);
      }
    }
  }

  lemma {:induction false} FitTail(ts: seq<Tile>, total: nat, i: nat, d: nat)
    requires ts != [] && d == (if ts[0].live then 0 else 1) && (ts[0].live || ts[0].size < total)
    requires FitsAt(FreeOf(ts), total, i)
    ensures d <= i && FitsAt(FreeOf(ts[1..]), total, i - d)
  {
    var fs := FreeOf(ts);
    if !ts[0].live {
      assert fs[0] == BlockOf(ts[0]);
    }
    assert fs[d..] == FreeOf(ts[1..]);
  }

  lemma {:induction false} FitLater(ts: seq<Tile>, k: nat, i: nat, d: nat)
    requires 0 < k <= |ts| && d == (if ts[0].live then 0 else 1) && d <= i
    requires TileOfEntry(ts[1..], k - 1, i - d)
    ensures TileOfEntry(ts, k, i)
  {
    var (fs, gs) := (FreeOf(ts), FreeOf(ts[1..]));
    assert fs[d..] == gs;
    if k < |ts| {
      assert ts[..k][1..] == ts[1..][..k - 1] && ts[1..][k..] == ts[k + 1..];
      assert fs[..i] == fs[..d] + gs[..i - d];
      assert FreeOf(ts[..k]) == fs[..d] + FreeOf(ts[1..][..k - 1]);
    }
  }

  // ---------- what the operations mean together ----------

  /** kfree undoes a kmalloc that did not grow the heap. */
  lemma {:induction false} FreeUndoesAlloc(ts: seq<Tile>, k: nat, total: nat, asked: nat, start: nat, end: nat)
    requires Tiles(ts, start, end) && Maximal(ts) && k < |ts| && !ts[k].live
    requires total <= ts[k].size && total % 8 == 0 && MIN_SPLIT <= total && asked + 4 + HEADER <= total
    ensures AllocTiles(ts, k, total, asked)[k].live
    ensures FreeTiles(AllocTiles(ts, k, total, asked), k) == ts
  {
    var us := AllocTiles(ts, k, total, asked);
    AllocSound(ts, k, total, asked, start, end);
    FreeSound(us, k, start, end);
    forall t: Tile | t.live
      ensures t in FreeTiles(us, k) <==> t in ts
    {
      AllocLive(ts, k, total, asked, t);
      FreeLive(us, k, start, end, t);
      if t in ts && t == us[k] {
        AtTile(ts, k, t, start, end);
      }
    }
    TilingUnique(FreeTiles(us, k), ts, start, end);
  }

  /** Tiles with one address are one tile. */
  lemma {:induction false} AtTile(ts: seq<Tile>, k: nat, t: Tile, start: nat, end: nat)
    requires Tiles(ts, start, end) && k < |ts| && t in ts && t.addr == ts[k].addr
    ensures t == ts[k]
  {
    var i :| 0 <= i < |ts| && ts[i] == t;
    TilesInside(ts, i, start, end);
    TilesInside(ts, k, start, end);
    if i < k {
      TilesApart(ts, i, k, start, end);
    } else if k < i {
      TilesApart(ts, k, i, start, end);
    }
  }
}
