/** Runs of kmalloc, kfree and heap growth, as steps on the tiling. */
module HeapRuns {
  import opened Arith
  import opened HeapModel

  /** The end of the heap is the end of the last tile. */
  datatype State = State(tiles: seq<Tile>, end: nat)

  datatype Op = Alloc(size: nat) | Release(addr: nat) | Grow(more: nat)

  // ---------- steps ----------

  /** heap_expand rounds up to pages, in 32 bits. */
  function PageUp(size: nat): nat { (size + 0xFFF) % WORD_RANGE / 0x1000 * 0x1000 }

  /** The growth kmalloc asks for when nothing fits: at least 1 MiB. */
  function Growth(total: nat): nat { PageUp(if total < 0x10_0000 then 0x10_0000 else total) }

  function Grown(s: State, more: nat): State { State(ExpandTiles(s.tiles, s.end, more), s.end + more) }

  /** kmalloc gives NULL, and changes nothing, when asked for nothing or when the free list is empty. */
  predicate Refused(s: State, size: nat) { size == 0 || FreeOf(s.tiles) == [] }

  /** The state in which kmalloc finds its block: grown exactly when no free block fits. */
  function Searched(s: State, size: nat): State {
    if FirstFit(s.tiles, TotalSize(size)) == |s.tiles| then Grown(s, Growth(TotalSize(size))) else s
  }

  function Allocated(s: State, size: nat): State {
    var t := Searched(s, size);
    var k := FirstFit(t.tiles, TotalSize(size));
    if Refused(s, size) || k == |t.tiles| then s
    else State(AllocTiles(t.tiles, k, TotalSize(size), size), t.end)
  }

  /** What kmalloc returns: the first user byte, or NULL. */
  function Pointer(s: State, size: nat): nat {
    var t := Searched(s, size);
    var k := FirstFit(t.tiles, TotalSize(size));
    if Refused(s, size) || k == |t.tiles| then 0 else t.tiles[k].addr + HEADER
  }

  /** The live tile at an address, or the number of tiles. */
  function LiveAt(ts: seq<Tile>, addr: nat): (k: nat)
    ensures k <= |ts|
    ensures k < |ts| ==> ts[k].live && ts[k].addr == addr
    ensures k == |ts| ==> forall i :: 0 <= i < |ts| ==> !(ts[i].live && ts[i].addr == addr)
  {
    if ts == [] || (ts[0].live && ts[0].addr == addr) then 0
    else
      var k := LiveAt(ts[1..], addr);
      assert forall i :: 0 < i < |ts| ==> ts[i] == ts[1..][i - 1];
      1 + k
  }

  function Released(s: State, addr: nat): State {
    var k := LiveAt(s.tiles, addr);
    if k < |s.tiles| then State(FreeTiles(s.tiles, k), s.end) else s
  }

  function Next(s: State, op: Op): State {
    match op
    case Alloc(size) => Allocated(s, size)
    case Release(addr) => Released(s, addr)
    case Grow(more) => if more == 0 then s else Grown(s, PageUp(more))
  }

  function Run(s: State, ops: seq<Op>): State
    decreases |ops|
  {
    if ops == [] then s else Run(Next(s, ops[0]), ops[1..])
  }

  /** What callers owe: sizes that do not wrap, and addresses below 4 GiB for the growth. */
  ghost predicate Permitted(s: State, op: Op) {
    match op
    case Alloc(size) => size <= 0xFFFF_FFE0 && (Refused(s, size) || RoomFor(s, TotalSize(size)))
    case Release(addr) => true
    case Grow(more) => more <= 0xFFFF_F000 && Grown(s, PageUp(more)).end <= WORD_RANGE
  }

  /** A free block fits, or the heap can grow. */
  ghost predicate RoomFor(s: State, total: nat) {
    FirstFit(s.tiles, total) < |s.tiles| || (total <= 0xFFFF_F000 && s.end + Growth(total) <= WORD_RANGE)
  }

  ghost predicate AllPermitted(s: State, ops: seq<Op>)
    decreases |ops|
  {
    ops == [] || (Permitted(s, ops[0]) && AllPermitted(Next(s, ops[0]), ops[1..]))
  }

  // ---------- what every step keeps ----------

  /** The tiles cover the heap, free tiles are maximal, and only a heap of one tile can be below 32 bytes. */
  ghost predicate Sound(s: State, start: nat) {
    && Tiles(s.tiles, start, s.end) && Maximal(s.tiles)
    && (|s.tiles| > 1 ==> forall i :: 0 <= i < |s.tiles| ==> s.tiles[i].size >= MIN_SPLIT)
  }

  lemma {:induction false} PageUpExact(size: nat)
    requires size <= 0xFFFF_F000
    ensures size <= PageUp(size) < size + 0x1000 && PageUp(size) % 0x1000 == 0
    ensures PageUp(size) % 8 == 0
  {
    PageUpNoWrap(size);
    WholePages((size + 0xFFF) / 0x1000);
  }

  lemma {:induction false} PageUpNoWrap(size: nat)
    requires size <= 0xFFFF_F000
    ensures PageUp(size) == (size + 0xFFF) / 0x1000 * 0x1000
  {
    assert size + 0xFFF < WORD_RANGE;
  }

  lemma {:induction false} WholePages(p: nat)
    ensures p * 0x1000 % 0x1000 == 0 && p * 0x1000 % 8 == 0
  {
    DivUnique(p * 0x1000, 0x1000, p, 0);
    DivUnique(p * 0x1000, 8, p * 0x200, 0);
  }

  lemma {:induction false} GrowSound(s: State, start: nat, more: nat)
    requires Sound(s, start) && more % 8 == 0 && more >= MIN_SPLIT
    ensures Sound(Grown(s, more), start) && SameLive(s.tiles, Grown(s, more).tiles)
    ensures var ts := Grown(s, more).tiles; ts != [] && !ts[|ts| - 1].live && ts[|ts| - 1].size >= more
  {
    ExpandSound(s.tiles, start, s.end, more);
  }

  /** A request that fits its limits is refused only when it is empty or the free list is. */
  lemma {:induction false} AllocStep(s: State, start: nat, size: nat)
    requires Sound(s, start) && Permitted(s, Alloc(size)) && !Refused(s, size)
    ensures var (t, total) := (Searched(s, size), TotalSize(size));
            var k := FirstFit(t.tiles, total);
            Sound(t, start) && SameLive(s.tiles, t.tiles) && k < |t.tiles|
            && Allocated(s, size) == State(AllocTiles(t.tiles, k, total, size), t.end)
            && Sound(Allocated(s, size), start)
  {
    var total := TotalSize(size);
    TotalSizeFits(size);
    SearchedFits(s, start, total, size);
    var t := Searched(s, size);
    CarveSound(t, start, FirstFit(t.tiles, total), total, size);
  }

  lemma {:induction false} SearchedFits(s: State, start: nat, total: nat, size: nat)
    requires Sound(s, start) && total == TotalSize(size) && RoomFor(s, total)
    ensures var t := Searched(s, size);
            Sound(t, start) && SameLive(s.tiles, t.tiles) && FirstFit(t.tiles, total) < |t.tiles|
  {
    hide TotalSize, PageUp, Tiles;
    if FirstFit(s.tiles, total) == |s.tiles| {
      PageUpExact(if total < 0x10_0000 then 0x10_0000 else total);
      GrowSound(s, start, Growth(total));
      var ts := Grown(s, Growth(total)).tiles;
      assert !ts[|ts| - 1].live && ts[|ts| - 1].size >= total;
    }
  }

  lemma {:induction false} CarveSound(s: State, start: nat, k: nat, total: nat, asked: nat)
    requires Sound(s, start) && k < |s.tiles| && !s.tiles[k].live && total <= s.tiles[k].size
    requires total % 8 == 0 && MIN_SPLIT <= total && asked + 4 + HEADER <= total
    ensures Sound(State(AllocTiles(s.tiles, k, total, asked), s.end), start)
  {
    AllocSound(s.tiles, k, total, asked, start, s.end);
    hide Tiles;
    var ts := AllocTiles(s.tiles, k, total, asked);
    forall i | 0 <= i < |ts|
      ensures ts[i].size >= MIN_SPLIT
    {
      assert ts[i] in s.tiles[..k] || ts[i] in Carve(s.tiles[k], total, asked) || ts[i] in s.tiles[k + 1..];
    }
  }

  lemma {:induction false} AllocRefused(s: State, size: nat)
    ensures Refused(s, size) ==> Allocated(s, size) == s && Pointer(s, size) == 0
  {
  }

  /** When a block fits at once, kmalloc takes the first one that does. */
  lemma {:induction false} AllocFits(s: State, size: nat, k: nat)
    requires !Refused(s, size) && k == FirstFit(s.tiles, TotalSize(size)) && k < |s.tiles|
    ensures Searched(s, size) == s && Allocated(s, size) == State(AllocTiles(s.tiles, k, TotalSize(size), size), s.end)
    ensures Pointer(s, size) == s.tiles[k].addr + HEADER
  {
  }

  /** When nothing fits, growing the heap by Growth makes the next search succeed with the same outcome. */
  lemma {:induction false} AllocGrows(s: State, start: nat, size: nat)
    requires Sound(s, start) && size <= 0xFFFF_FFE0 && !Refused(s, size) && RoomFor(s, TotalSize(size))
    requires FirstFit(s.tiles, TotalSize(size)) == |s.tiles|
    ensures var (total, t) := (TotalSize(size), Grown(s, Growth(TotalSize(size))));
            total <= 0xFFFF_F000 && s.end + Growth(total) <= WORD_RANGE
            && SameLive(s.tiles, t.tiles) && !Refused(t, size) && RoomFor(t, total) && Searched(t, size) == t
            && Allocated(t, size) == Allocated(s, size) && Pointer(t, size) == Pointer(s, size)
    ensures s.tiles != [] && Searched(s, size) != s
  {
    hide Tiles, FreeOf, AllocTiles, TotalSize, PageUp, Sound;
    NoTiles();
    TotalSizeFits(size);
    SearchedFits(s, start, TotalSize(size), size);
    PageUpExact(if TotalSize(size) < 0x10_0000 then 0x10_0000 else TotalSize(size));
    var t := Grown(s, Growth(TotalSize(size)));
    FreeTileListed(t.tiles, FirstFit(t.tiles, TotalSize(size)));
  }

  lemma {:induction false} NoTiles()
    ensures FreeOf([]) == []
  {
  }

  lemma {:induction false} FreeTileListed(ts: seq<Tile>, k: nat)
    requires k < |ts| && !ts[k].live
    ensures FreeOf(ts) != []
  {
    if k > 0 {
      FreeTileListed(ts[1..], k - 1);
    }
  }

  lemma {:induction false} ReleaseStep(s: State, start: nat, addr: nat)
    requires Sound(s, start)
    ensures Sound(Released(s, addr), start)
  {
    var k := LiveAt(s.tiles, addr);
    if k < |s.tiles| {
      FreeSound(s.tiles, k, start, s.end);
      TilesInside(s.tiles, k, start, s.end);
      MergeSound(s.tiles, MergeFrom(s.tiles, k), MergeTo(s.tiles, k), start, s.end);
    }
  }

  /** Every run from a sound heap leaves it tiled, with the free list the maximal runs of free bytes. */
  lemma {:induction false} RunSound(s: State, start: nat, ops: seq<Op>)
    requires Sound(s, start) && AllPermitted(s, ops)
    ensures Sound(Run(s, ops), start)
    decreases |ops|
  {
    if ops != [] {
      match ops[0] {
        case Alloc(size) => if !Refused(s, size) { AllocStep(s, start, size); }
        case Release(addr) => ReleaseStep(s, start, addr);
        case Grow(more) => if more > 0 { PageUpExact(more); GrowSound(s, start, PageUp(more)); }
      }
      RunSound(Next(s, ops[0]), start, ops[1..]);
    }
  }

  // ---------- freeing everything ----------

  function ReleaseAll(s: State, order: seq<Tile>): State
    decreases |order|
  {
    if order == [] then s else ReleaseAll(Released(s, order[0].addr), order[1..])
  }

  /** The live blocks of the heap, each once, in any order. */
  ghost predicate LiveIn(s: State, order: seq<Tile>) {
    && (forall i, j :: 0 <= i < j < |order| ==> order[i] != order[j])
    && (forall t: Tile :: t in order <==> t in s.tiles && t.live)
  }

  /** Freeing all live blocks, in any order, leaves one block that spans the heap. */
  lemma {:induction false} FreeingAllLeavesOneBlock(s: State, start: nat, order: seq<Tile>)
    requires Sound(s, start) && start < s.end && LiveIn(s, order)
    ensures ReleaseAll(s, order).end == s.end
    ensures FreeOf(ReleaseAll(s, order).tiles) == [Block(start, s.end - start)]
    decreases |order|
  {
    if order == [] {
      forall t | t in s.tiles
        ensures !t.live
      {
        assert t.live ==> t in order;
      }
      AllFree(s.tiles, start, s.end);
    } else {
      ReleaseStep(s, start, order[0].addr);
      ReleaseOne(s, start, order);
      FreeingAllLeavesOneBlock(Released(s, order[0].addr), start, order[1..]);
    }
  }

  lemma {:induction false} ReleaseOne(s: State, start: nat, order: seq<Tile>)
    requires Sound(s, start) && order != [] && LiveIn(s, order)
    ensures LiveIn(Released(s, order[0].addr), order[1..])
  {
    var t0 := order[0];
    assert t0 in order;
    var i :| 0 <= i < |s.tiles| && s.tiles[i] == t0;
    var k := LiveAt(s.tiles, t0.addr);
    assert k < |s.tiles|;
    AtTile(s.tiles, k, t0, start, s.end);
    var us := Released(s, t0.addr).tiles;
    forall t: Tile
      ensures t in order[1..] <==> t in us && t.live
    {
      assert t in order <==> t == t0 || t in order[1..];
      assert t0 !in order[1..];
      if t.live {
        FreeLive(s.tiles, k, start, s.end, t);
      }
    }
  }

  // ---------- kfree after kmalloc ----------

  /** The live tile at an address is the one that begins there. */
  lemma {:induction false} LiveAtTile(ts: seq<Tile>, k: nat, start: nat, end: nat)
    requires Tiles(ts, start, end) && k < |ts| && ts[k].live
    ensures LiveAt(ts, ts[k].addr) == k
  {
    var j := LiveAt(ts, ts[k].addr);
    assert j <= |ts|;
    if j < k {
      TilesApart(ts, j, k, start, end);
      TilesInside(ts, j, start, end);
    } else if k < j < |ts| {
      TilesApart(ts, k, j, start, end);
      TilesInside(ts, k, start, end);
    }
  }

  /** Freeing what was just allocated restores the heap, unless it had to grow. */
  lemma {:induction false} ReleaseUndoesAlloc(s: State, start: nat, size: nat)
    requires Sound(s, start) && size <= 0xFFFF_FFE0 && !Refused(s, size)
    requires FirstFit(s.tiles, TotalSize(size)) < |s.tiles|
    ensures Pointer(s, size) >= 16 && Released(Allocated(s, size), Pointer(s, size) - 16) == s
  {
    hide Tiles, TotalSize, FreeOf, Maximal;
    var (k, total) := (FirstFit(s.tiles, TotalSize(size)), TotalSize(size));
    TotalSizeFits(size);
    AllocFits(s, size, k);
    FreeUndoesAlloc(s.tiles, k, total, size, start, s.end);
    AllocSound(s.tiles, k, total, size, start, s.end);
    LiveAtTile(AllocTiles(s.tiles, k, total, size), k, start, s.end);
  }
}
