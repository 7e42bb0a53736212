/** The kernel heap: first-fit kmalloc, kfree with full coalescing, and growth. */
module Heap {
  import opened HeapModel
  import opened HeapRuns
  import opened HeapCells

  const CANARY: nat := 0xDEAD_BEEF
  const MAX_RETRY: nat := 3

  /** The tile that entry i stands for can be carved, and the list stays the free list. */
  lemma {:induction false} TakeSound(s: State, start: nat, size: nat, i: nat)
    requires Sound(s, start) && 0 < size <= 0xFFFF_FFE0
    requires FitsAt(FreeOf(s.tiles), TotalSize(size), i) && i < |FreeOf(s.tiles)|
    ensures var (k, total) := (FirstFit(s.tiles, TotalSize(size)), TotalSize(size));
            MIN_SPLIT <= total && total % 8 == 0
            && k < |s.tiles| && FreeOf(s.tiles)[i] == BlockOf(s.tiles[k]) && total <= s.tiles[k].size
            && !s.tiles[k].live
            && Sound(State(AllocTiles(s.tiles, k, total, size), s.end), start)
            && CarvedList(FreeOf(s.tiles), i, total) == FreeOf(AllocTiles(s.tiles, k, total, size))
  {
    hide Tiles, FreeOf, Maximal, TotalSize, AllocTiles, CarvedList, FitsAt, TileOfEntry;
    var (k, total) := (FirstFit(s.tiles, TotalSize(size)), TotalSize(size));
    TotalSizeFits(size);
    Chosen(s.tiles, total, i);
    CarveSound(s, start, k, total, size);
    CarvedIsFree(s.tiles, k, i, total, size, start, s.end);
  }

  class Heap {
    var mem: Cells
    var freeList: nat
    var heapStart: nat
    var heapEnd: nat
    var allocSeq: nat
    ghost var tiles: seq<Tile>

    ghost function Abstract(): State reads this { State(tiles, heapEnd) }

    /** The list in memory is the free list of the tiling; before MemInit there are no tiles. */
    ghost predicate Valid() reads this {
      && Sound(Abstract(), heapStart) && heapEnd <= WORD_RANGE && heapStart % 8 == 0
      && (heapStart == 0 ==> tiles == [])
      && Listed(mem, freeList, FreeOf(tiles)) && LiveSized(mem, tiles) && Aligned(mem)
    }

    constructor ()
      ensures Valid() && tiles == [] && heapStart == heapEnd == 0
    {
      mem, freeList, heapStart, heapEnd, allocSeq := map[], 0, 0, 0, 1;
      tiles := [];
    }

    lemma {:induction false} ListOrdered()
      requires Valid()
      ensures Ordered(FreeOf(tiles))
    {
      if heapStart > 0 {
        FreeOrdered(tiles, heapStart, heapEnd);
      }
    }

    /** One free block spans the new heap; a range too small for a header is ignored. */
    method MemInit(start: nat, end: nat)
      requires 0 < start && start % 8 == 0 && end % 8 == 0 && end < WORD_RANGE
      requires Valid()
      modifies this
      ensures Valid()
      ensures if end <= start || end - start < HEADER then Abstract() == old(Abstract()) && mem == old(mem)
              else heapStart == start && Abstract() == State([Tile(start, end - start, false, 0)], end)
    {
      if end <= start || end - start < HEADER {
        return;
      }
      heapStart, heapEnd := start, end;
      freeList := start;
      mem := mem[start := end - start];
      HeaderAligned(old(mem), start, 0, end - start);
      HeaderAligned(mem, start, 0, 0);
      mem := SetNext(mem, start, 0);
      tiles := [Tile(start, end - start, false, 0)];
      OneTile(tiles[0]);
      assert FreeOf(tiles) == [Block(start, end - start)];
    }

    /** The pointer to what follows prev, which is the list head when there is no prev. */
    method PointFrom(prev: nat, p: nat, ghost front: seq<Block>)
      requires prev == (if front == [] then 0 else front[|front| - 1].addr) && (front != [] ==> prev > 0)
      modifies this`mem, this`freeList
      ensures (mem, freeList) == Relink(old(mem), old(freeList), front, p)
    {
      if prev != 0 {
        mem := SetNext(mem, prev, p);
      } else {
        freeList := p;
      }
    }

    /** Takes the free block cur off the list, giving back what is worth splitting off. */
    method Carve(prev: nat, cur: nat, total: nat, ghost fs: seq<Block>, ghost i: nat)
      requires Listed(mem, freeList, fs) && Ordered(fs) && i < |fs|
      requires cur == fs[i].addr && prev == if i > 0 then fs[i - 1].addr else 0
      requires MIN_SPLIT <= total <= fs[i].size && total % 8 == 0 && Aligned(mem) && OnEights(fs)
      modifies this`mem, this`freeList
      ensures Listed(mem, freeList, CarvedList(fs, i, total))
      ensures SizeAt(mem, cur) == if fs[i].size >= total + MIN_SPLIT then total else fs[i].size
      ensures OnlyIn(old(mem), mem, fs) && Aligned(mem)
    {
      hide Linked, Listed, Ordered, OnlyIn, SetNext, NextAt, SizeAt, Relink, CarvedList, Aligned, OnEights;
      PartsOnEights(fs, i);
      CarvedIs(fs, i, total);
      Around(mem, freeList, fs, i);
      ghost var before := mem;
      if SizeAt(mem, cur) >= total + MIN_SPLIT {
        SplitListed(mem, freeList, fs, i, total);
        var (rest, size) := (cur + total, SizeAt(mem, cur));
        mem := mem[rest := size - total];
        HeaderKept(before, cur, rest, 0, size - total);
        HeaderAligned(before, rest, 0, size - total);
        HeaderAligned(mem, rest, 0, NextAt(mem, cur));
        HeaderAligned(SetNext(mem, rest, NextAt(mem, cur)), cur, 0, total);
        mem := SetNext(mem, rest, NextAt(mem, cur));
        mem := mem[cur := total];
        assert mem == SplitCells(before, cur, size, total);
        RelinkAligned(mem, freeList, fs[..i], rest);
        PointFrom(prev, rest, fs[..i]);
      } else {
        UnlinkListed(mem, freeList, fs, i);
        RelinkAligned(mem, freeList, fs[..i], NextAt(mem, cur));
        PointFrom(prev, NextAt(mem, cur), fs[..i]);
      }
    }

    /** Takes a block for size bytes out of entry i of the free list. */
    method Take(prev: nat, cur: nat, size: nat, total: nat, ghost i: nat, ghost k: nat) returns (ptr: nat)
      requires Valid() && 0 < size <= 0xFFFF_FFE0 && total == TotalSize(size)
      requires FitsAt(FreeOf(tiles), total, i) && i < |FreeOf(tiles)| && k == FirstFit(tiles, total)
      requires cur == FreeOf(tiles)[i].addr && prev == if i > 0 then FreeOf(tiles)[i - 1].addr else 0
      modifies this
      ensures Valid() && heapStart == old(heapStart) && heapEnd == old(heapEnd)
      ensures k < |old(tiles)| && tiles == AllocTiles(old(tiles), k, total, size)
      ensures ptr == old(tiles[k].addr) + HEADER && ptr % 8 == 0 && LiveKept(old(mem), mem, old(tiles))
      ensures ptr == cur + 16 && CanaryAt(mem, ptr, total)
    {
      hide TileOfEntry, FirstFit, Tiles, Linked, FreeOf, FitsAt, LiveSized, OnlyIn, Ordered, CarvedList, Maximal,
        TotalSize, SizeAt, Peek, AllocTiles,
        Aligned, OnEights;
      ghost var (before, ts, fs) := (mem, tiles, FreeOf(tiles));
      ListOrdered();
      TilesOnEights(ts, heapStart, heapEnd);
      PartsOnEights(fs, i);
      TakeSound(Abstract(), heapStart, size, i);
      BlockAligned(cur, total);
      Carve(prev, cur, total, fs, i);
      if size >= 256 {
        UserWriteListed(before, mem, freeList, fs, i, total, 4, allocSeq);
        HeaderAligned(mem, cur, 4, allocSeq);
        mem := mem[cur + 4 := allocSeq];
        allocSeq := (allocSeq + 1) % WORD_RANGE;
      }
      UserWriteListed(before, mem, freeList, fs, i, total, total - 4, CANARY);
      ptr := cur + HEADER;
      HeaderAligned(mem, cur, total - 4, CANARY);
      mem := mem[cur + (total - 4) := CANARY];
      PeekWritten(mem, cur + (total - 4), CANARY);
      CarvedSized(before, mem, ts, k, total, size, heapStart, heapEnd);
      tiles := AllocTiles(ts, k, total, size);
    }

    lemma {:induction false} PeekWritten(m: Cells, a: nat, v: nat)
      requires a in m && m[a] == v
      ensures Peek(m, a) == v
    {
    }

    /** Grows the heap by whole pages at its end; this never fails. */
    method HeapExpand(additional: nat) returns (status: int)
      requires Valid() && additional <= 0xFFFF_F000
      requires additional > 0 ==> heapStart > 0 && heapEnd + PageUp(additional) <= WORD_RANGE
      modifies this
      ensures Valid() && heapStart == old(heapStart) && status == 0
      ensures Abstract() == if additional == 0 then old(Abstract()) else Grown(old(Abstract()), PageUp(additional))
      ensures LiveKept(old(mem), mem, old(tiles))
    {
      hide Tiles, Linked, FreeOf, LiveSized, OnlyIn, Ordered, Maximal, SetNext, ExpandTiles, MergedList, JoinLeft,
        SizeAt, NextAt, PageUp,
        Aligned, OnEights;
      status := 0;
      if additional == 0 {
        return;
      }
      var more := PageUp(additional);
      PageUpExact(additional);
      ghost var (m0, ts, fs, b) := (mem, tiles, FreeOf(tiles), Block(heapEnd, more));
      ListOrdered();
      FreeInside(ts, heapStart, heapEnd);
      TilesBelow(ts, heapStart, heapEnd);
      EndOrdered(fs, b);
      NewBlockListed(mem, freeList, fs, b);
      TilesOnEights(ts, heapStart, heapEnd);
      NewBlockAligned(mem, b);
      var newBlock := heapEnd;
      mem := NewBlock(mem, Block(newBlock, more));
      LinkNew(newBlock, fs, b);
      OnlyInTwice(m0, NewBlock(m0, b), mem, fs + [b]);
      GrownKeepsLive(m0, mem, ts, b, heapStart, heapEnd);
      GrowSound(Abstract(), heapStart, more);
      ExpandSound(ts, heapStart, heapEnd, more);
      LiveStaysSized(m0, mem, ts, heapStart, heapEnd);
      heapEnd := heapEnd + more;
      tiles := ExpandTiles(ts, newBlock, more);
      SameLiveSized(mem, ts, tiles);
    }

    /** Puts the new last block on the list and joins it to the one before. */
    method LinkNew(newBlock: nat, ghost fs: seq<Block>, ghost b: Block)
      requires Listed(mem, freeList, fs) && Ordered(fs + [b]) && Ordered(fs) && newBlock == b.addr
      requires SizeAt(mem, b.addr) == b.size && NextAt(mem, b.addr) == 0
      requires Aligned(mem) && OnEights(fs) && b.addr % 8 == 0
      modifies this`mem, this`freeList
      ensures Listed(mem, freeList, JoinLeft(fs, b)) && OnlyIn(old(mem), mem, fs + [b]) && Aligned(mem)
    {
      hide Linked, OnlyIn, SetNext, SizeAt, NextAt, Ordered, JoinLeft, Aligned, OnEights;
      ghost var m0 := mem;
      BelowLast(fs, b);
      if freeList == 0 {
        assert fs == [];
        OnlyBlock(mem, b);
        freeList := newBlock;
      } else {
        var (prev, cur) := (0, freeList);
        ghost var i := 0;
        while cur != 0 && cur < newBlock
          invariant mem == m0 && freeList == old(freeList)
          invariant i <= |fs| && cur == (if i < |fs| then fs[i].addr else 0)
          invariant prev == if i > 0 then fs[i - 1].addr else 0
          decreases |fs| - i
        {
          Around(mem, freeList, fs, i);
          prev := cur;
          cur := NextAt(mem, cur);
          i := i + 1;
        }
        assert i == |fs|;
        PartsOnEights(fs, i - 1);
        HeaderAligned(mem, newBlock, 0, NextAt(mem, prev));
        HeaderAligned(SetNext(mem, newBlock, NextAt(mem, prev)), prev, 0, newBlock);
        AppendListed(mem, freeList, fs, b);
        mem := SetNext(mem, newBlock, NextAt(mem, prev));
        mem := SetNext(mem, prev, newBlock);
        ghost var m1 := mem;
        JoinListed(mem, freeList, fs, b);
        var last := newBlock;
        if prev + SizeAt(mem, prev) == newBlock {
          MergeAligned(mem, prev, newBlock);
          mem := mem[prev := (SizeAt(mem, prev) + SizeAt(mem, newBlock)) % WORD_RANGE];
          mem := SetNext(mem, prev, NextAt(mem, newBlock));
          OnlyInTwice(m0, m1, mem, fs + [b]);
          last := prev;
        }
        if NextAt(mem, last) != 0 {
          assert false; // the new block is the last one
        }
      }
    }

    method Kmalloc(size: nat) returns (ptr: nat)
      requires Valid() && size <= 0xFFFF_FFE0
      requires !Refused(Abstract(), size) ==> RoomFor(Abstract(), TotalSize(size))
      modifies this
      ensures Valid() && heapStart == old(heapStart) && Abstract() == old(Allocated(Abstract(), size))
      ensures ptr == old(Pointer(Abstract(), size)) && (ptr == 0 <==> old(Refused(Abstract(), size))) && ptr % 8 == 0
      ensures ptr != 0 ==> ptr > 16 && CanaryAt(mem, ptr, TotalSize(size))
      ensures LiveKept(old(mem), mem, old(tiles))
    {
      ptr := KmallocInternal(size, 0);
    }

    /** First fit; when nothing fits the heap grows and the search starts again. */
    method KmallocInternal(size: nat, retry: nat) returns (ptr: nat)
      requires Valid() && size <= 0xFFFF_FFE0 && retry <= MAX_RETRY
      requires !Refused(Abstract(), size) ==> RoomFor(Abstract(), TotalSize(size))
      requires retry == MAX_RETRY ==> Searched(Abstract(), size) == Abstract()
      modifies this
      ensures Valid() && heapStart == old(heapStart) && Abstract() == old(Allocated(Abstract(), size))
      ensures ptr == old(Pointer(Abstract(), size)) && (ptr == 0 <==> old(Refused(Abstract(), size))) && ptr % 8 == 0
      ensures ptr != 0 ==> ptr > 16 && CanaryAt(mem, ptr, TotalSize(size))
      ensures LiveKept(old(mem), mem, old(tiles))
      decreases MAX_RETRY - retry
    {
      hide Tiles, Linked, FreeOf, LiveSized, Maximal, AlignUp, SizeAt, NextAt, Peek, AllocTiles, FirstFit, PageUp,
        Sound, FitsAt, RoomFor, Searched, Allocated, Pointer, SameLive, TileOfEntry, Grown;
      ghost var (m0, s0) := (mem, Abstract());
      ListOrdered();
      AllocRefused(s0, size);
      TotalSizeFits(size);
      if size == 0 || freeList == 0 {
        return 0;
      }
      var wanted := AlignUp(size);
      var wantedWithCanary := AlignUp((wanted + 4) % WORD_RANGE);
      var total := (wantedWithCanary + HEADER) % WORD_RANGE;
      ghost var k := FirstFit(tiles, total);
      var prev, cur, i := Search(total);
      FitInList(tiles, total, i);
      if cur != 0 {
        AllocFits(s0, size, k);
        ptr := Take(prev, cur, size, total, i, k);
      } else {
        AllocGrows(s0, heapStart, size);
        var status := HeapExpand(if total < 0x10_0000 then 0x10_0000 else total);
        ghost var (m1, ts1) := (mem, tiles);
        ptr := KmallocInternal(size, retry + 1);
        LiveKeptTwice(m0, m1, mem, s0.tiles, ts1);
      }
    }

    /** The first free block of total bytes or more, with the one before it; both are 0 past the ends. */
    method Search(total: nat) returns (prev: nat, cur: nat, ghost i: nat)
      requires Valid()
      ensures FitsAt(FreeOf(tiles), total, i)
      ensures cur == if i < |FreeOf(tiles)| then FreeOf(tiles)[i].addr else 0
      ensures prev == if i > 0 then FreeOf(tiles)[i - 1].addr else 0
      ensures cur == 0 <==> i == |FreeOf(tiles)|
    {
      hide Tiles, Linked, FreeOf, LiveSized, Maximal, SizeAt, NextAt;
      ListOrdered();
      ghost var fs := FreeOf(tiles);
      prev, cur, i := 0, freeList, 0;
      while cur != 0
        invariant i <= |fs| && cur == (if i < |fs| then fs[i].addr else 0)
        invariant prev == if i > 0 then fs[i - 1].addr else 0
        invariant forall j :: 0 <= j < i ==> fs[j].size < total
        decreases |fs| - i
      {
        Around(mem, freeList, fs, i);
        if SizeAt(mem, cur) == 0 {
          assert false; // no block on the list is empty
        }
        if SizeAt(mem, cur) >= total {
          return;
        }
        prev := cur;
        cur := NextAt(mem, cur);
        i := i + 1;
      }
    }

    /** Gives a block back: NULL and pointers below the heap are ignored. */
    method Kfree(ptr: nat)
      requires Valid() && (ptr == 0 || ptr >= HEADER)
      requires ptr > 0 ==> ptr - HEADER < heapStart || LiveAt(tiles, ptr - HEADER) < |tiles|
      modifies this
      ensures Valid() && heapStart == old(heapStart) && LiveKept(old(mem), mem, tiles)
      ensures Abstract() == if ptr == 0 || ptr - HEADER < heapStart then old(Abstract())
                            else Released(old(Abstract()), ptr - HEADER)
    {
      hide Tiles, Linked, FreeOf, LiveSized, Maximal, FreeTiles, Ordered, OnlyIn, LiveAt, SizeAt, NextAt, Coalesce,
        Insert, LiveKept,
        Aligned, OnEights;
      SameLiveKept(mem, tiles);
      ListOrdered();
      if ptr == 0 {
        return;
      }
      var hdr := ptr - HEADER;
      if hdr < heapStart {
        return;
      }
      ghost var (m0, ts, k) := (mem, tiles, LiveAt(tiles, hdr));
      ghost var (a, x, b) := (FreeOf(ts[..k]), BlockOf(ts[k]), FreeOf(ts[k + 1..]));
      LiveHeader(ts, k, heapStart, heapEnd, mem);
      TilesOnEights(ts, heapStart, heapEnd);
      FreeAround(ts, k, heapStart, heapEnd);
      ReturnedOrdered(ts, k, heapStart, heapEnd);
      FreeRefines(ts, k, heapStart, heapEnd);
      ReturnedOnEights(a, x, b);
      InsertSorted(hdr, a, x, b);
      ghost var m1 := mem;
      CoalesceAll(a + [x] + b);
      OnlyInTwice(m0, m1, mem, a + [x] + b);
      FreedKeepsLive(m0, mem, ts, k, heapStart, heapEnd);
      ReleaseStep(Abstract(), heapStart, hdr);
      tiles := FreeTiles(ts, k);
    }

    /** Links a block into the list in address order. */
    method InsertSorted(hdr: nat, ghost a: seq<Block>, ghost x: Block, ghost b: seq<Block>)
      requires Listed(mem, freeList, a + b) && Ordered(a + [x] + b) && SizeAt(mem, hdr) == x.size && hdr == x.addr
      requires Ordered(a + b) && Aligned(mem) && OnEights(a + [x] + b)
      modifies this`mem, this`freeList
      ensures Listed(mem, freeList, a + [x] + b) && OnlyIn(old(mem), mem, a + [x] + b) && Aligned(mem)
    {
      hide Linked, Ordered, OnlyIn, SetNext, SizeAt, NextAt, Aligned, OnEights;
      ghost var fs := a + b;
      OrderedAround(a, x, b);
      InsertListed(mem, freeList, a, x, b);
      PartsOnEights(a + [x] + b, |a|);
      HeaderAligned(mem, hdr, 0, freeList);
      if freeList == 0 || hdr < freeList {
        assert a == [];
        mem := SetNext(mem, hdr, freeList);
        freeList := hdr;
      } else {
        var cur := freeList;
        ghost var i := 0;
        Around(mem, freeList, fs, 0);
        while NextAt(mem, cur) != 0 && NextAt(mem, cur) < hdr
          invariant mem == old(mem) && freeList == old(freeList)
          invariant i < |fs| && cur == fs[i].addr && cur < hdr
          invariant NextAt(mem, cur) == First(fs[i + 1..], 0)
          decreases |fs| - i
        {
          i := i + 1;
          cur := NextAt(mem, cur);
          Around(mem, freeList, fs, i);
        }
        assert i + 1 == |a|;
        assert fs[i + 1..] == b;
        PartsOnEights(a + [x] + b, i);
        HeaderAligned(mem, hdr, 0, NextAt(mem, cur));
        HeaderAligned(SetNext(mem, hdr, NextAt(mem, cur)), cur, 0, hdr);
        mem := SetNext(mem, hdr, NextAt(mem, cur));
        mem := SetNext(mem, cur, hdr);
      }
    }

    /** Merges every block with the next while they touch. */
    method CoalesceAll(ghost fs: seq<Block>)
      requires Listed(mem, freeList, fs) && Ordered(fs) && Aligned(mem) && OnEights(fs)
      modifies this`mem
      ensures Listed(mem, freeList, Coalesce(fs)) && OnlyIn(old(mem), mem, fs) && Aligned(mem)
    {
      hide Linked, Ordered, OnlyIn, SetNext, SizeAt, NextAt, Coalesce, InBlocks, Aligned, OnEights;
      ghost var (m0, gs) := (mem, fs);
      ghost var i: nat := 0;
      var cur: nat := freeList;
      SameOnlyIn(mem, fs);
      if fs != [] {
        Around(mem, freeList, fs, 0);
      }
      while cur != 0 && NextAt(mem, cur) != 0
        invariant Listed(mem, freeList, gs) && Ordered(gs) && freeList == old(freeList)
        invariant Aligned(mem) && OnEights(gs)
        invariant i <= |gs| && gs[..i] + Coalesce(gs[i..]) == Coalesce(fs)
        invariant i == |gs| ==> cur == 0
        invariant i < |gs| ==> cur == gs[i].addr && NextAt(mem, cur) == First(gs[i + 1..], 0)
        invariant OnlyIn(m0, mem, fs) && forall a: nat :: InBlocks(gs, a) <==> InBlocks(fs, a)
        decreases |gs| - i
      {
        ghost var (was, before) := (gs, mem);
        var next := NextAt(mem, cur);
        Around(mem, freeList, gs, i);
        Around(mem, freeList, gs, i + 1);
        CoalesceStep(gs, i);
        if cur + SizeAt(mem, cur) == next {
          MergeListed(mem, freeList, gs, i);
          PartsOnEights(gs, i);
          MergeAligned(mem, cur, next);
          mem := mem[cur := (SizeAt(mem, cur) + SizeAt(mem, next)) % WORD_RANGE];
          mem := SetNext(mem, cur, NextAt(mem, next));
          MergedOrdered(gs, i);
          forall a: nat
            ensures InBlocks(MergedList(was, i), a) <==> InBlocks(fs, a)
          {
            MergedCovers(was, i, a);
          }
          OnlyInSame(before, mem, was, fs);
          OnlyInTwice(m0, before, mem, fs);
          gs := MergedList(gs, i);
          Around(mem, freeList, gs, i);
        } else {
          cur := next;
          i := i + 1;
        }
      }
      OrderedPositive(gs);
      CoalesceEnd(gs, i);
    }
  }
}
