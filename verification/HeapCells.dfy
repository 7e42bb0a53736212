/** The heap's memory words: block headers, the linked free list, and what a write leaves alone. */
module HeapCells {
  import opened HeapModel

  /** The 32-bit word at each byte address that was ever written; other words read as zero. */
  type Cells = map<nat, nat>

  function Peek(m: Cells, a: nat): nat { if a in m then m[a] else 0 }

  // ---------- block headers: size at 0, tag at 4, next pointer at 8 and 12 ----------

  function SizeAt(m: Cells, h: nat): nat { Peek(m, h) }

  function NextAt(m: Cells, h: nat): nat { Peek(m, h + 8) + Peek(m, h + 12) * WORD_RANGE }

  function SetNext(m: Cells, h: nat, p: nat): Cells { m[h + 8 := p % WORD_RANGE][h + 12 := p / WORD_RANGE] }

  /** The blocks are linked in order, and the last one points to tail. */
  ghost predicate Linked(m: Cells, fs: seq<Block>, tail: nat) {
    forall i :: 0 <= i < |fs| ==> LinkAt(m, fs, i, tail)
  }

  ghost predicate LinkAt(m: Cells, fs: seq<Block>, i: nat, tail: nat)
    requires i < |fs|
  {
    SizeAt(m, fs[i].addr) == fs[i].size && NextAt(m, fs[i].addr) == if i + 1 < |fs| then fs[i + 1].addr else tail
  }

  function First(fs: seq<Block>, tail: nat): nat { if fs == [] then tail else fs[0].addr }

  ghost predicate Listed(m: Cells, head: nat, fs: seq<Block>) { head == First(fs, 0) && Linked(m, fs, 0) }

  /** In address order, without overlap, below 4 GiB, and none at address zero. */
  ghost predicate Ordered(fs: seq<Block>) {
    && (forall i :: 0 <= i < |fs| ==> 0 < fs[i].addr && HEADER <= fs[i].size && fs[i].addr + fs[i].size <= WORD_RANGE)
    && (forall i, j :: 0 <= i < j < |fs| ==> fs[i].addr + fs[i].size <= fs[j].addr)
  }

  /** The header at h is no header of these blocks. */
  ghost predicate Apart(fs: seq<Block>, h: nat) {
    forall i :: 0 <= i < |fs| ==> fs[i].addr + HEADER <= h || h + HEADER <= fs[i].addr
  }

  /** A block on the list has its size in its first word and the address of the next block in the two words at 8. */
  lemma {:induction false} ListInMemory(m: Cells, head: nat, fs: seq<Block>, i: nat)
    requires Listed(m, head, fs) && i < |fs|
    ensures head == fs[0].addr && Peek(m, fs[i].addr) == fs[i].size
    ensures Peek(m, fs[i].addr + 8) + 0x1_0000_0000 * Peek(m, fs[i].addr + 12) == if i + 1 < |fs| then fs[i + 1].addr else 0
  {
    assert LinkAt(m, fs, i, 0);
  }

  lemma {:induction false} LinkedConcat(m: Cells, a: seq<Block>, b: seq<Block>, tail: nat)
    ensures Linked(m, a + b, tail) <==> Linked(m, a, First(b, tail)) && Linked(m, b, tail)
  {
    var fs := a + b;
    assert forall i: nat :: i < |a| ==> LinkAt(m, fs, i, tail) == LinkAt(m, a, i, First(b, tail));
    forall i: nat | i < |b|
      ensures LinkAt(m, fs, i + |a|, tail) == LinkAt(m, b, i, tail)
    {
    }
    if Linked(m, a, First(b, tail)) && Linked(m, b, tail) {
      forall i: nat | i < |fs|
        ensures LinkAt(m, fs, i, tail)
      {
        if i >= |a| {
          assert LinkAt(m, b, i - |a|, tail) == LinkAt(m, fs, i - |a| + |a|, tail);
        }
      }
    }
  }

  lemma {:induction false} NextWritten(m: Cells, h: nat, p: nat)
    ensures NextAt(SetNext(m, h, p), h) == p && SizeAt(SetNext(m, h, p), h) == SizeAt(m, h)
  {
  }

  /** Writing next pointers and sizes elsewhere keeps the links. */
  lemma {:induction false} LinkedApart(m: Cells, fs: seq<Block>, tail: nat, h: nat, d: nat, v: nat)
    requires Linked(m, fs, tail) && Apart(fs, h) && d < HEADER
    ensures Linked(SetNext(m, h, v), fs, tail) && Linked(m[h + d := v], fs, tail)
  {
    forall b | b in fs
      ensures SameHeader(m, SetNext(m, h, v), b) && SameHeader(m, m[h + d := v], b)
    {
      HeaderKept(m, b.addr, h, d, v);
    }
    SameLinks(m, SetNext(m, h, v), fs, tail);
    SameLinks(m, m[h + d := v], fs, tail);
  }

  predicate SameHeader(m: Cells, m': Cells, b: Block) {
    SizeAt(m', b.addr) == SizeAt(m, b.addr) && NextAt(m', b.addr) == NextAt(m, b.addr)
  }

  lemma {:induction false} SameLinks(m: Cells, m': Cells, fs: seq<Block>, tail: nat)
    requires Linked(m, fs, tail) && forall b :: b in fs ==> SameHeader(m, m', b)
    ensures Linked(m', fs, tail)
  {
    forall i: nat | i < |fs|
      ensures LinkAt(m', fs, i, tail)
    {
      assert LinkAt(m, fs, i, tail) && SameHeader(m, m', fs[i]);
    }
  }

  /** Redirecting the last block. */
  lemma {:induction false} LinkedRedirect(m: Cells, fs: seq<Block>, tail: nat, p: nat)
    requires Linked(m, fs, tail) && Ordered(fs) && fs != []
    ensures Linked(SetNext(m, fs[|fs| - 1].addr, p), fs, p)
  {
    var h := fs[|fs| - 1].addr;
    hide SetNext;
    NextWritten(m, h, p);
    forall i: nat | i < |fs|
      ensures LinkAt(SetNext(m, h, p), fs, i, p)
    {
      assert LinkAt(m, fs, i, tail);
      if i < |fs| - 1 {
        HeaderKept(m, fs[i].addr, h, 0, p);
      }
    }
  }

  lemma {:induction false} HeaderKept(m: Cells, b: nat, h: nat, d: nat, p: nat)
    requires (b + HEADER <= h || h + HEADER <= b) && d < HEADER
    ensures SizeAt(SetNext(m, h, p), b) == SizeAt(m, b) && NextAt(SetNext(m, h, p), b) == NextAt(m, b)
    ensures SizeAt(m[h + d := p], b) == SizeAt(m, b) && NextAt(m[h + d := p], b) == NextAt(m, b)
  {
  }

  /** What stands before the place where a list changes. */
  function Relink(m: Cells, head: nat, front: seq<Block>, p: nat): (Cells, nat) {
    if front == [] then (m, p) else (SetNext(m, front[|front| - 1].addr, p), head)
  }

  /** Pointing the front of a list at a new rest makes one list of the two. */
  lemma {:induction false} RelinkListed(m: Cells, head: nat, front: seq<Block>, tail: nat, rest: seq<Block>)
    requires Linked(m, front, tail) && (front != [] ==> head == front[0].addr) && Linked(m, rest, 0)
    requires Ordered(front + rest)
    ensures var (m', head') := Relink(m, head, front, First(rest, 0)); Listed(m', head', front + rest)
  {
    if front == [] {
      assert front + rest == rest;
    } else {
      var (h, p) := (front[|front| - 1].addr, First(rest, 0));
      assert Ordered(front) by {
        assert forall i :: 0 <= i < |front| ==> (front + rest)[i] == front[i];
      }
      LinkedRedirect(m, front, tail, p);
      assert Apart(rest, h) by {
        assert forall i :: 0 <= i < |rest| ==> (front + rest)[i + |front|] == rest[i];
        assert (front + rest)[|front| - 1] == front[|front| - 1];
      }
      LinkedApart(m, rest, 0, h, 0, p);
      LinkedConcat(SetNext(m, h, p), front, rest, 0);
    }
  }

  // ---------- alignment ----------

  /** Only words at multiples of four are written, so no two of them share a byte. */
  ghost predicate Aligned(m: Cells) { forall a :: a in m ==> OnFour(a) }

  predicate OnFour(a: nat) { a % 4 == 0 }

  ghost predicate OnEights(fs: seq<Block>) { forall b :: b in fs ==> b.addr % 8 == 0 }

  lemma {:induction false} HeaderAligned(m: Cells, h: nat, d: nat, v: nat)
    requires Aligned(m) && h % 8 == 0 && d % 4 == 0
    ensures Aligned(SetNext(m, h, v)) && Aligned(m[h + d := v])
  {
    hide OnFour;
    StepOnFour(h, d);
    StepOnFour(h, 8);
    StepOnFour(h, 12);
  }

  lemma {:induction false} StepOnFour(h: nat, d: nat)
    requires h % 8 == 0 && d % 4 == 0
    ensures OnFour(h + d)
  {
    var (p, q) := (h / 8, d / 4);
    assert h + d == 4 * (2 * p + q);
  }

  /** A block of total bytes starts and ends on a multiple of eight, its last word on one of four. */
  lemma {:induction false} BlockAligned(c: nat, total: nat)
    requires c % 8 == 0 && total % 8 == 0 && total >= HEADER
    ensures (total - 4) % 4 == 0 && (c + HEADER) % 8 == 0
  {
    var (p, q) := (c / 8, total / 8);
    assert total - 4 == 4 * (2 * q - 1);
    assert c + HEADER == 8 * (p + 2);
  }

  lemma {:induction false} RelinkAligned(m: Cells, head: nat, front: seq<Block>, p: nat)
    requires Aligned(m) && OnEights(front)
    ensures Aligned(Relink(m, head, front, p).0)
  {
    if front != [] {
      HeaderAligned(m, front[|front| - 1].addr, 0, p);
    }
  }

  /** Every tile, and so every block of the free list, starts at a multiple of eight. */
  lemma {:induction false} TilesOnEights(ts: seq<Tile>, start: nat, end: nat)
    requires Tiles(ts, start, end) && start % 8 == 0
    ensures end % 8 == 0 && OnEights(FreeOf(ts)) && forall t :: t in ts ==> t.addr % 8 == 0
  {
    if ts != [] {
      TilesOnEights(ts[1..], start + ts[0].size, end);
    }
  }

  lemma {:induction false} ReturnedOnEights(a: seq<Block>, x: Block, b: seq<Block>)
    requires OnEights(a + b) && x.addr % 8 == 0
    ensures OnEights(a + [x] + b)
  {
    forall c | c in a + [x] + b
      ensures c.addr % 8 == 0
    {
      assert c in a + b || c == x;
    }
  }

  lemma {:induction false} PartsOnEights(fs: seq<Block>, i: nat)
    requires OnEights(fs) && i < |fs|
    ensures fs[i].addr % 8 == 0 && OnEights(fs[..i])
    ensures i + 1 < |fs| ==> OnEights(MergedList(fs, i))
  {
  }

  // ---------- what a write leaves alone ----------

  ghost predicate InBlocks(fs: seq<Block>, a: nat) {
    exists i :: 0 <= i < |fs| && fs[i].addr <= a < fs[i].addr + fs[i].size
  }

  /** Only words inside these blocks differ. */
  ghost predicate OnlyIn(m: Cells, m': Cells, fs: seq<Block>) {
    forall a: nat :: !InBlocks(fs, a) ==> Peek(m', a) == Peek(m, a)
  }

  /** A header write to a block only touches words of that block. */
  lemma {:induction false} HeaderOnlyIn(m: Cells, m0: Cells, fs: seq<Block>, i: nat, v: nat)
    requires OnlyIn(m0, m, fs) && i < |fs| && HEADER <= fs[i].size
    ensures OnlyIn(m0, SetNext(m, fs[i].addr, v), fs) && OnlyIn(m0, m[fs[i].addr := v], fs)
    ensures OnlyIn(m0, m[fs[i].addr + 4 := v], fs)
  {
    var h := fs[i].addr;
    assert InBlocks(fs, h) && InBlocks(fs, h + 4) && InBlocks(fs, h + 8) && InBlocks(fs, h + 12);
  }

  /** The words of a live tile are in no free block. */
  lemma {:induction false} LiveNotFree(ts: seq<Tile>, t: Tile, a: nat, start: nat, end: nat)
    requires Tiles(ts, start, end) && t in ts && t.live && t.addr <= a < t.addr + t.size
    ensures !InBlocks(FreeOf(ts), a)
  {
    var k :| 0 <= k < |ts| && ts[k] == t;
    LiveOutside(ts, k, a, start, end);
  }

  lemma {:induction false} LiveOutside(ts: seq<Tile>, k: nat, a: nat, start: nat, end: nat)
    requires Tiles(ts, start, end) && k < |ts| && ts[k].live && ts[k].addr <= a < ts[k].addr + ts[k].size
    ensures !InBlocks(FreeOf(ts), a)
  {
    var fs := FreeOf(ts);
    var (before, after) := (FreeOf(ts[..k]), FreeOf(ts[k + 1..]));
    assert fs == before + after by {
      assert ts == ts[..k] + ts[k..] && ts[k..][1..] == ts[k + 1..];
      FreeOfConcat(ts[..k], ts[k..]);
    }
    hide Tiles, FreeOf;
    TilesSplit(ts, k, start, end);
    TilesSplit(ts, k + 1, start, end);
    TilesInside(ts, k, start, end);
    FreeInside(ts[..k], start, ts[k].addr);
    FreeInside(ts[k + 1..], if k + 1 < |ts| then ts[k + 1].addr else end, end);
    forall i | 0 <= i < |fs|
      ensures !(fs[i].addr <= a < fs[i].addr + fs[i].size)
    {
      assert fs[i] in before || fs[i] in after;
    }
  }

  /** The words of all live tiles are as before. */
  ghost predicate LiveKept(m: Cells, m': Cells, ts: seq<Tile>) {
    forall t, a: nat :: t in ts && t.live && t.addr <= a < t.addr + t.size ==> Peek(m', a) == Peek(m, a)
  }

  lemma {:induction false} OnlyInFree(m: Cells, m': Cells, ts: seq<Tile>, start: nat, end: nat)
    requires Tiles(ts, start, end) && OnlyIn(m, m', FreeOf(ts))
    ensures LiveKept(m, m', ts)
  {
    forall t, a: nat | t in ts && t.live && t.addr <= a < t.addr + t.size
      ensures Peek(m', a) == Peek(m, a)
    {
      LiveNotFree(ts, t, a, start, end);
    }
  }

  /** A block that kmalloc carved total bytes out of for the pointer has the canary in the last of their words. */
  ghost predicate CanaryAt(m: Cells, ptr: nat, total: nat) {
    ptr + total >= 20 && Peek(m, ptr + total - 20) == 0xDEAD_BEEF
  }

  ghost predicate LiveSized(m: Cells, ts: seq<Tile>) {
    forall t :: t in ts && t.live ==> SizeAt(m, t.addr) == t.size
  }

  lemma {:induction false} LiveStaysSized(m: Cells, m': Cells, ts: seq<Tile>, start: nat, end: nat)
    requires Tiles(ts, start, end) && LiveSized(m, ts) && LiveKept(m, m', ts)
    ensures LiveSized(m', ts)
  {
    forall t | t in ts && t.live
      ensures SizeAt(m', t.addr) == t.size
    {
      var k :| 0 <= k < |ts| && ts[k] == t;
      TilesInside(ts, k, start, end);
      assert Peek(m', t.addr) == Peek(m, t.addr);
    }
  }

  /** The free list of a tiling is ordered. */
  lemma {:induction false} FreeOrdered(ts: seq<Tile>, start: nat, end: nat)
    requires Tiles(ts, start, end) && Maximal(ts) && 0 < start && end <= WORD_RANGE
    ensures Ordered(FreeOf(ts))
  {
    FreeSeparate(ts, start, end);
  }

  // ---------- changes to the list ----------

  /** A list around its entry i. */
  lemma {:induction false} Around(m: Cells, head: nat, fs: seq<Block>, i: nat)
    requires Listed(m, head, fs) && Ordered(fs) && i < |fs|
    ensures Linked(m, fs[..i], fs[i].addr) && (i > 0 ==> head == fs[..i][0].addr)
    ensures LinkAt(m, fs, i, 0) && NextAt(m, fs[i].addr) == First(fs[i + 1..], 0)
    ensures Linked(m, fs[i + 1..], 0)
    ensures Apart(fs[..i], fs[i].addr) && Apart(fs[i + 1..], fs[i].addr)
    ensures Ordered(fs[..i]) && Ordered(fs[i + 1..])
  {
    var (front, c, back) := (fs[..i], fs[i], fs[i + 1..]);
    assert fs == front + ([c] + back);
    LinkedConcat(m, front, [c] + back, 0);
    LinkedConcat(m, [c], back, 0);
    assert LinkAt(m, fs, i, 0);
  }

  lemma {:induction false} OrderedWithout(fs: seq<Block>, i: nat)
    requires Ordered(fs) && i < |fs|
    ensures Ordered(fs[..i] + fs[i + 1..])
  {
  }

  lemma {:induction false} OrderedInstead(fs: seq<Block>, i: nat, b: Block)
    requires Ordered(fs) && i < |fs| && HEADER <= b.size
    requires fs[i].addr <= b.addr && b.addr + b.size <= fs[i].addr + fs[i].size
    ensures Ordered(fs[..i] + [b] + fs[i + 1..])
  {
  }

  /** Relinking only writes to the last block of the front, and to nothing apart from it. */
  lemma {:induction false} RelinkOnlyIn(m0: Cells, m: Cells, head: nat, fs: seq<Block>, i: nat, p: nat)
    requires OnlyIn(m0, m, fs) && Ordered(fs) && i <= |fs|
    ensures OnlyIn(m0, Relink(m, head, fs[..i], p).0, fs)
    ensures i < |fs| ==> SizeAt(Relink(m, head, fs[..i], p).0, fs[i].addr) == SizeAt(m, fs[i].addr)
  {
    if i > 0 {
      HeaderOnlyIn(m, m0, fs, i - 1, p);
      if i < |fs| {
        HeaderKept(m, fs[i].addr, fs[i - 1].addr, 0, p);
      }
    }
  }

  /** Taking entry i off the list. */
  lemma {:induction false} UnlinkListed(m: Cells, head: nat, fs: seq<Block>, i: nat)
    requires Listed(m, head, fs) && Ordered(fs) && i < |fs|
    ensures var (m', head') := Relink(m, head, fs[..i], NextAt(m, fs[i].addr));
            Listed(m', head', fs[..i] + fs[i + 1..]) && SizeAt(m', fs[i].addr) == fs[i].size && OnlyIn(m, m', fs)
  {
    Around(m, head, fs, i);
    OrderedWithout(fs, i);
    RelinkListed(m, head, fs[..i], fs[i].addr, fs[i + 1..]);
    RelinkOnlyIn(m, m, head, fs, i, NextAt(m, fs[i].addr));
  }

  /** The free list after total bytes are taken from entry i. */
  function CarvedList(fs: seq<Block>, i: nat, total: nat): seq<Block>
    requires i < |fs|
  {
    if fs[i].size >= total + MIN_SPLIT then
      fs[..i] + [Block(fs[i].addr + total, fs[i].size - total)] + fs[i + 1..]
    else fs[..i] + fs[i + 1..]
  }

  lemma {:induction false} CarvedIs(fs: seq<Block>, i: nat, total: nat)
    requires i < |fs|
    ensures CarvedList(fs, i, total) == if fs[i].size >= total + MIN_SPLIT then
                fs[..i] + [Block(fs[i].addr + total, fs[i].size - total)] + fs[i + 1..] else fs[..i] + fs[i + 1..]
  {
  }

  /** The words written when a block is split: the new header, then the new size of the old one. */
  function SplitCells(m: Cells, c: nat, size: nat, total: nat): Cells
    requires total <= size
  {
    SetNext(m[c + total := size - total], c + total, NextAt(m, c))[c := total]
  }

  /** Putting the remainder in the place of entry i. */
  lemma {:induction false} SplitListed(m: Cells, head: nat, fs: seq<Block>, i: nat, total: nat)
    requires Listed(m, head, fs) && Ordered(fs) && i < |fs| && MIN_SPLIT <= total && total + MIN_SPLIT <= fs[i].size
    ensures var c := fs[i];
            var m1 := SplitCells(m, c.addr, c.size, total);
            var (m', head') := Relink(m1, head, fs[..i], c.addr + total);
            Listed(m', head', fs[..i] + [Block(c.addr + total, c.size - total)] + fs[i + 1..])
            && SizeAt(m', c.addr) == total && OnlyIn(m, m', fs)
  {
    hide Linked, SetNext, SplitCells, OnlyIn, Ordered, Apart;
    var (front, c, back) := (fs[..i], fs[i], fs[i + 1..]);
    var rest := Block(c.addr + total, c.size - total);
    var m1 := SplitCells(m, c.addr, c.size, total);
    Around(m, head, fs, i);
    OrderedInstead(fs, i, rest);
    BesideEntry(fs, i);
    SplitKeepsLinks(m, front, c.addr, c.addr, c.size, total);
    SplitKeepsLinks(m, back, 0, c.addr, c.size, total);
    SplitHeaders(m, c.addr, c.size, total);
    SplitOnlyIn(m, fs, i, total);
    LinkedOne(m1, rest, First(back, 0));
    LinkedConcat(m1, [rest], back, 0);
    assert front + ([rest] + back) == front + [rest] + back;
    RelinkListed(m1, head, front, c.addr, [rest] + back);
    RelinkOnlyIn(m, m1, head, fs, i, rest.addr);
  }

  lemma {:induction false} BesideEntry(fs: seq<Block>, i: nat)
    requires Ordered(fs) && i < |fs|
    ensures forall b :: b in fs[..i] ==> b.addr + HEADER <= fs[i].addr
    ensures forall b :: b in fs[i + 1..] ==> fs[i].addr + fs[i].size <= b.addr
  {
  }

  lemma {:induction false} LinkedOne(m: Cells, b: Block, tail: nat)
    requires SizeAt(m, b.addr) == b.size && NextAt(m, b.addr) == tail
    ensures Linked(m, [b], tail)
  {
    assert LinkAt(m, [b], 0, tail);
  }

  lemma {:induction false} SplitHeaders(m: Cells, c: nat, size: nat, total: nat)
    requires MIN_SPLIT <= total <= size
    ensures SizeAt(SplitCells(m, c, size, total), c + total) == size - total
    ensures NextAt(SplitCells(m, c, size, total), c + total) == NextAt(m, c)
    ensures SizeAt(SplitCells(m, c, size, total), c) == total
  {
  }

  lemma {:induction false} ApartFrom(fs: seq<Block>, h: nat, end: nat)
    requires forall b :: b in fs ==> b.addr + HEADER <= h || end <= b.addr
    requires h + HEADER <= end
    ensures Apart(fs, h)
  {
  }

  lemma {:induction false} SplitKeepsLinks(m: Cells, fs: seq<Block>, tail: nat, c: nat, size: nat, total: nat)
    requires Linked(m, fs, tail) && total <= size && Ordered(fs)
    requires forall b :: b in fs ==> b.addr + HEADER <= c || c + size <= b.addr
    requires HEADER <= total && total + HEADER <= size
    ensures Linked(SplitCells(m, c, size, total), fs, tail)
  {
    hide Linked, Apart, Ordered, SetNext, NextAt;
    ApartFrom(fs, c, c + size);
    ApartFrom(fs, c + total, c + size);
    LinkedApart(m, fs, tail, c + total, 0, size - total);
    LinkedApart(m[c + total := size - total], fs, tail, c + total, 0, NextAt(m, c));
    LinkedApart(SetNext(m[c + total := size - total], c + total, NextAt(m, c)), fs, tail, c, 0, total);
  }

  lemma {:induction false} SplitOnlyIn(m: Cells, fs: seq<Block>, i: nat, total: nat)
    requires i < |fs| && total + MIN_SPLIT <= fs[i].size
    ensures OnlyIn(m, SplitCells(m, fs[i].addr, fs[i].size, total), fs)
  {
    var h := fs[i].addr + total;
    assert InBlocks(fs, h) && InBlocks(fs, h + 8) && InBlocks(fs, h + 12) && InBlocks(fs, fs[i].addr);
  }

  // ---------- taking a block ----------

  /** The entry that fits is the first tile that fits. */
  lemma {:induction false} Chosen(ts: seq<Tile>, total: nat, i: nat)
    requires FitsAt(FreeOf(ts), total, i) && i < |FreeOf(ts)|
    ensures var k := FirstFit(ts, total);
            k < |ts| && TileOfEntry(ts, k, i) && FreeOf(ts)[i] == BlockOf(ts[k])
  {
    FitInList(ts, total, i);
  }

  /** After tile k is carved, the list in memory is the free list of the new tiling. */
  lemma {:induction false} CarvedIsFree(ts: seq<Tile>, k: nat, i: nat, total: nat, asked: nat, start: nat, end: nat)
    requires Tiles(ts, start, end) && Maximal(ts) && k < |ts| && !ts[k].live && TileOfEntry(ts, k, i)
    requires total <= ts[k].size && total % 8 == 0 && MIN_SPLIT <= total && asked + 4 + HEADER <= total
    ensures CarvedList(FreeOf(ts), i, total) == FreeOf(AllocTiles(ts, k, total, asked))
  {
    hide Tiles, FreeOf, Maximal, AllocTiles, Carve;
    AllocSound(ts, k, total, asked, start, end);
    FreeOfCarve(ts[k], total, asked);
  }

  lemma {:induction false} FreeOfCarve(t: Tile, total: nat, asked: nat)
    requires total <= t.size
    ensures FreeOf(Carve(t, total, asked))
            == if t.size >= total + MIN_SPLIT then [Block(t.addr + total, t.size - total)] else []
  {
    var c := Carve(t, total, asked);
    assert FreeOf(c) == FreeOf(c[1..]);
    if t.size >= total + MIN_SPLIT {
      assert c[1..][1..] == [];
    }
  }

  /** The words of the block taken and of the live tiles, after writes inside free blocks. */
  lemma {:induction false} CarvedSized(m: Cells, m': Cells, ts: seq<Tile>, k: nat, total: nat, asked: nat, start: nat,
                                       end: nat)
    requires Tiles(ts, start, end) && LiveSized(m, ts) && OnlyIn(m, m', FreeOf(ts)) && k < |ts| && !ts[k].live
    requires total <= ts[k].size && SizeAt(m', ts[k].addr) == Carve(ts[k], total, asked)[0].size
    ensures LiveKept(m, m', ts) && LiveSized(m', AllocTiles(ts, k, total, asked))
  {
    OnlyInFree(m, m', ts, start, end);
    LiveStaysSized(m, m', ts, start, end);
    forall t | t in AllocTiles(ts, k, total, asked) && t.live
      ensures SizeAt(m', t.addr) == t.size
    {
      AllocLive(ts, k, total, asked, t);
    }
  }

  /** A word in the user part of a taken block belongs to no header on the list. */
  lemma {:induction false} UserWriteListed(m0: Cells, m: Cells, head: nat, fs: seq<Block>, i: nat, total: nat, d: nat,
                                           v: nat)
    requires Ordered(fs) && i < |fs| && MIN_SPLIT <= total <= fs[i].size && 0 < d < total
    requires Listed(m, head, CarvedList(fs, i, total)) && OnlyIn(m0, m, fs)
    ensures Listed(m[fs[i].addr + d := v], head, CarvedList(fs, i, total))
    ensures SizeAt(m[fs[i].addr + d := v], fs[i].addr) == SizeAt(m, fs[i].addr)
    ensures OnlyIn(m0, m[fs[i].addr + d := v], fs)
  {
    hide Ordered, Apart, CarvedList, Linked;
    var (gs, h) := (CarvedList(fs, i, total), fs[i].addr);
    CarvedBeside(fs, i, total);
    assert InBlocks(fs, h + d);
    var base := if d < HEADER then 0 else if d < total - HEADER then d else total - HEADER;
    ApartFrom(gs, h + base, h + base + HEADER);
    LinkedApart(m, gs, 0, h + base, d - base, v);
  }

  lemma {:induction false} CarvedBeside(fs: seq<Block>, i: nat, total: nat)
    requires Ordered(fs) && i < |fs| && MIN_SPLIT <= total <= fs[i].size
    ensures forall b :: b in CarvedList(fs, i, total) ==> b.addr + HEADER <= fs[i].addr || fs[i].addr + total <= b.addr
  {
    BesideEntry(fs, i);
  }

  // ---------- giving a block back ----------

  /** Linking a block between two parts of the list. */
  lemma {:induction false} InsertListed(m: Cells, head: nat, a: seq<Block>, x: Block, b: seq<Block>)
    requires Listed(m, head, a + b) && Ordered(a + [x] + b) && SizeAt(m, x.addr) == x.size
    ensures var (m', head') := Relink(SetNext(m, x.addr, First(b, 0)), head, a, x.addr);
            Listed(m', head', a + [x] + b) && OnlyIn(m, m', a + [x] + b)
  {
    hide Linked, SetNext, OnlyIn, Ordered, Apart;
    var gs := a + [x] + b;
    var m1 := SetNext(m, x.addr, First(b, 0));
    LinkedConcat(m, a, b, 0);
    assert gs[..|a|] == a && gs[|a|] == x && gs[|a| + 1..] == b;
    ApartEntry(gs, |a|);
    LinkedApart(m, a, First(b, 0), x.addr, 0, First(b, 0));
    LinkedApart(m, b, 0, x.addr, 0, First(b, 0));
    NextWritten(m, x.addr, First(b, 0));
    LinkedOne(m1, x, First(b, 0));
    LinkedConcat(m1, [x], b, 0);
    assert a + ([x] + b) == gs;
    HeadOfFront(m, head, a, b);
    RelinkListed(m1, head, a, First(b, 0), [x] + b);
    SameOnlyIn(m, gs);
    HeaderOnlyIn(m, m, gs, |a|, First(b, 0));
    RelinkOnlyIn(m, m1, head, gs, |a|, x.addr);
  }

  lemma {:induction false} SameOnlyIn(m: Cells, fs: seq<Block>)
    ensures OnlyIn(m, m, fs)
  {
  }

  lemma {:induction false} HeadOfFront(m: Cells, head: nat, a: seq<Block>, b: seq<Block>)
    requires Listed(m, head, a + b)
    ensures a != [] ==> head == a[0].addr
  {
  }

  lemma {:induction false} ApartEntry(fs: seq<Block>, i: nat)
    requires Ordered(fs) && i < |fs|
    ensures HEADER <= fs[i].size && Apart(fs[..i], fs[i].addr) && Apart(fs[i + 1..], fs[i].addr)
  {
  }

  /** The list after entry i takes over the next entry. */
  function MergedList(fs: seq<Block>, i: nat): seq<Block>
    requires i + 1 < |fs|
  {
    fs[..i] + [Block(fs[i].addr, fs[i].size + fs[i + 1].size)] + fs[i + 2..]
  }

  function MergeCells(m: Cells, c: nat, next: nat): Cells {
    var sized := m[c := (SizeAt(m, c) + SizeAt(m, next)) % WORD_RANGE];
    SetNext(sized, c, NextAt(sized, next))
  }

  lemma {:induction false} MergedOrdered(fs: seq<Block>, i: nat)
    requires Ordered(fs) && i + 1 < |fs| && Touch(fs[i], fs[i + 1])
    ensures Ordered(MergedList(fs, i))
  {
  }

  lemma {:induction false} MergedCovers(fs: seq<Block>, i: nat, a: nat)
    requires i + 1 < |fs| && Touch(fs[i], fs[i + 1])
    ensures InBlocks(MergedList(fs, i), a) <==> InBlocks(fs, a)
  {
    var gs := MergedList(fs, i);
    if InBlocks(fs, a) {
      var j :| 0 <= j < |fs| && fs[j].addr <= a < fs[j].addr + fs[j].size;
      if j < i {
        assert gs[j] == fs[j];
      } else if j <= i + 1 {
        assert gs[i].addr <= a < gs[i].addr + gs[i].size;
      } else {
        assert gs[j - 1] == fs[j];
      }
    }
    if InBlocks(gs, a) {
      var j :| 0 <= j < |gs| && gs[j].addr <= a < gs[j].addr + gs[j].size;
      if j < i {
        assert gs[j] == fs[j];
      } else if j == i {
        assert fs[if a < fs[i + 1].addr then i else i + 1].addr <= a;
      } else {
        assert gs[j] == fs[j + 1];
      }
    }
  }

  lemma {:induction false} MergeAligned(m: Cells, c: nat, d: nat)
    requires Aligned(m) && c % 8 == 0
    ensures Aligned(MergeCells(m, c, d))
  {
    hide Aligned, SetNext, SizeAt, NextAt;
    var size := (SizeAt(m, c) + SizeAt(m, d)) % WORD_RANGE;
    HeaderAligned(m, c, 0, size);
    HeaderAligned(m[c := size], c, 0, NextAt(m[c := size], d));
  }

  /** Merging entry i with the block it touches. */
  lemma {:induction false} MergeListed(m: Cells, head: nat, fs: seq<Block>, i: nat)
    requires Listed(m, head, fs) && Ordered(fs) && i + 1 < |fs| && Touch(fs[i], fs[i + 1])
    ensures Listed(MergeCells(m, fs[i].addr, fs[i + 1].addr), head, MergedList(fs, i))
    ensures OnlyIn(m, MergeCells(m, fs[i].addr, fs[i + 1].addr), fs)
  {
    hide Linked, SetNext, Ordered, Apart, SizeAt, NextAt, OnlyIn, Listed;
    var (front, c, next, back) := (fs[..i], fs[i], fs[i + 1], fs[i + 2..]);
    var merged := Block(c.addr, c.size + next.size);
    MergedHeader(m, head, fs, i);
    Around(m, head, fs, i);
    Around(m, head, fs, i + 1);
    var total := (SizeAt(m, c.addr) + SizeAt(m, next.addr)) % WORD_RANGE;
    var m1 := m[c.addr := total];
    var m2 := MergeCells(m, c.addr, next.addr);
    ApartTail(fs, i);
    LinkedApart(m, front, c.addr, c.addr, 0, total);
    LinkedApart(m1, front, c.addr, c.addr, 0, NextAt(m1, next.addr));
    LinkedApart(m, back, 0, c.addr, 0, total);
    LinkedApart(m1, back, 0, c.addr, 0, NextAt(m1, next.addr));
    LinkedOne(m2, merged, First(back, 0));
    LinkedConcat(m2, [merged], back, 0);
    LinkedConcat(m2, front, [merged] + back, 0);
    assert front + ([merged] + back) == MergedList(fs, i);
    ListedFrom(m, head, fs, i, m2);
    ApartEntry(fs, i);
    SameOnlyIn(m, fs);
    HeaderOnlyIn(m, m, fs, i, total);
    HeaderOnlyIn(m1, m, fs, i, NextAt(m1, next.addr));
  }

  lemma {:induction false} ListedFrom(m: Cells, head: nat, fs: seq<Block>, i: nat, m': Cells)
    requires Listed(m, head, fs) && i + 1 < |fs| && Linked(m', MergedList(fs, i), 0)
    ensures Listed(m', head, MergedList(fs, i))
  {
  }

  lemma {:induction false} ApartTail(fs: seq<Block>, i: nat)
    requires Ordered(fs) && i + 1 < |fs|
    ensures Apart(fs[i + 2..], fs[i].addr)
  {
  }

  lemma {:induction false} MergedHeader(m: Cells, head: nat, fs: seq<Block>, i: nat)
    requires Listed(m, head, fs) && Ordered(fs) && i + 1 < |fs| && Touch(fs[i], fs[i + 1])
    ensures var m2 := MergeCells(m, fs[i].addr, fs[i + 1].addr);
            SizeAt(m2, fs[i].addr) == fs[i].size + fs[i + 1].size && NextAt(m2, fs[i].addr) == First(fs[i + 2..], 0)
  {
    var (c, next) := (fs[i], fs[i + 1]);
    assert LinkAt(m, fs, i, 0) && LinkAt(m, fs, i + 1, 0);
    var m1 := m[c.addr := (SizeAt(m, c.addr) + SizeAt(m, next.addr)) % WORD_RANGE];
    HeaderKept(m, next.addr, c.addr, 0, (SizeAt(m, c.addr) + SizeAt(m, next.addr)) % WORD_RANGE);
    NextWritten(m1, c.addr, NextAt(m1, next.addr));
  }

  // ---------- a new block at the end ----------

  /** The header of a new block. */
  function NewBlock(m: Cells, b: Block): Cells { SetNext(m[b.addr := b.size], b.addr, 0)[b.addr + 4 := 0] }

  lemma {:induction false} NewBlockAligned(m: Cells, b: Block)
    requires Aligned(m) && b.addr % 8 == 0
    ensures Aligned(NewBlock(m, b))
  {
    hide Aligned, SetNext;
    HeaderAligned(m, b.addr, 0, b.size);
    HeaderAligned(m[b.addr := b.size], b.addr, 0, 0);
    HeaderAligned(SetNext(m[b.addr := b.size], b.addr, 0), b.addr, 4, 0);
    assert m[b.addr + 0 := b.size] == m[b.addr := b.size];
  }

  lemma {:induction false} NewBlockListed(m: Cells, head: nat, fs: seq<Block>, b: Block)
    requires Listed(m, head, fs) && Ordered(fs + [b])
    ensures Listed(NewBlock(m, b), head, fs) && OnlyIn(m, NewBlock(m, b), fs + [b])
    ensures SizeAt(NewBlock(m, b), b.addr) == b.size && NextAt(NewBlock(m, b), b.addr) == 0
  {
    hide Linked, Ordered, OnlyIn, SetNext, Apart;
    var gs := fs + [b];
    ApartEntry(gs, |fs|);
    assert gs[..|fs|] == fs && gs[|fs|] == b;
    var m1 := m[b.addr := b.size];
    var m2 := SetNext(m1, b.addr, 0);
    LinkedApart(m, fs, 0, b.addr, 0, b.size);
    LinkedApart(m1, fs, 0, b.addr, 0, 0);
    LinkedApart(m2, fs, 0, b.addr, 4, 0);
    SameOnlyIn(m, gs);
    HeaderOnlyIn(m, m, gs, |fs|, b.size);
    HeaderOnlyIn(m1, m, gs, |fs|, 0);
    HeaderOnlyIn(m2, m, gs, |fs|, 0);
    NextWritten(m1, b.addr, 0);
  }

  lemma {:induction false} OnlyInTwice(m: Cells, m1: Cells, m2: Cells, fs: seq<Block>)
    requires OnlyIn(m, m1, fs) && OnlyIn(m1, m2, fs)
    ensures OnlyIn(m, m2, fs)
  {
  }

  lemma {:induction false} EndOrdered(fs: seq<Block>, b: Block)
    requires Ordered(fs) && 0 < b.addr && HEADER <= b.size && b.addr + b.size <= WORD_RANGE
    requires forall x :: x in fs ==> x.addr + x.size <= b.addr
    ensures Ordered(fs + [b])
  {
  }

  /** Joining the new block to a last block that it touches. */
  lemma {:induction false} JoinedList(fs: seq<Block>, b: Block)
    requires fs != [] && Touch(fs[|fs| - 1], b)
    ensures MergedList(fs + [b], |fs| - 1) == JoinLeft(fs, b)
  {
    assert (fs + [b])[|fs| - 1] == fs[|fs| - 1];
  }

  /** Writes inside free blocks and past the end keep the live tiles. */
  lemma {:induction false} GrownKeepsLive(m: Cells, m': Cells, ts: seq<Tile>, b: Block, start: nat, end: nat)
    requires Tiles(ts, start, end) && b.addr == end && OnlyIn(m, m', FreeOf(ts) + [b])
    ensures LiveKept(m, m', ts)
  {
    forall t, a: nat | t in ts && t.live && t.addr <= a < t.addr + t.size
      ensures Peek(m', a) == Peek(m, a)
    {
      LiveNotFree(ts, t, a, start, end);
      var k :| 0 <= k < |ts| && ts[k] == t;
      TilesInside(ts, k, start, end);
    }
  }

  /** Linking a new last block behind the list. */
  lemma {:induction false} AppendListed(m: Cells, head: nat, fs: seq<Block>, b: Block)
    requires Listed(m, head, fs) && Ordered(fs) && Ordered(fs + [b]) && fs != [] && SizeAt(m, b.addr) == b.size
    ensures var m' := SetNext(SetNext(m, b.addr, 0), fs[|fs| - 1].addr, b.addr);
            Listed(m', head, fs + [b]) && OnlyIn(m, m', fs + [b])
            && SizeAt(m', fs[|fs| - 1].addr) == fs[|fs| - 1].size && NextAt(m', b.addr) == 0
    ensures 0 < fs[|fs| - 1].addr && NextAt(m, fs[|fs| - 1].addr) == 0
  {
    assert fs + [] == fs && fs + [b] + [] == fs + [b];
    InsertListed(m, head, fs, b, []);
    Around(m, head, fs, |fs| - 1);
    var m' := SetNext(SetNext(m, b.addr, 0), fs[|fs| - 1].addr, b.addr);
    Around(m', head, fs + [b], |fs|);
    assert LinkAt(m', fs + [b], |fs| - 1, 0);
  }

  /** Joining the new last block with the one before, when they touch. */
  lemma {:induction false} JoinListed(m: Cells, head: nat, fs: seq<Block>, b: Block)
    requires Listed(m, head, fs + [b]) && Ordered(fs + [b]) && fs != []
    ensures if Touch(fs[|fs| - 1], b) then
              var m' := MergeCells(m, fs[|fs| - 1].addr, b.addr);
              Listed(m', head, JoinLeft(fs, b)) && OnlyIn(m, m', fs + [b]) && NextAt(m', fs[|fs| - 1].addr) == 0
            else Listed(m, head, JoinLeft(fs, b))
  {
    if Touch(fs[|fs| - 1], b) {
      var gs := fs + [b];
      assert gs[|fs| - 1] == fs[|fs| - 1] && gs[|fs|] == b;
      MergeListed(m, head, gs, |fs| - 1);
      MergedHeader(m, head, gs, |fs| - 1);
      JoinedList(fs, b);
    }
  }

  /** In an ordered list every block before a new last one lies below it. */
  lemma {:induction false} BelowLast(fs: seq<Block>, b: Block)
    requires Ordered(fs + [b])
    ensures forall i :: 0 <= i < |fs| ==> 0 < fs[i].addr < b.addr
    ensures 0 < b.addr
  {
    assert (fs + [b])[|fs|] == b;
    assert forall i :: 0 <= i < |fs| ==> (fs + [b])[i] == fs[i];
  }

  /** The first new block is the whole list. */
  lemma {:induction false} OnlyBlock(m: Cells, b: Block)
    requires SizeAt(m, b.addr) == b.size && NextAt(m, b.addr) == 0
    ensures Listed(m, b.addr, JoinLeft([], b)) && OnlyIn(m, m, [] + [b])
  {
    LinkedOne(m, b, 0);
    assert [] + [b] == [b];
  }

  lemma {:induction false} SameLiveSized(m: Cells, ts: seq<Tile>, us: seq<Tile>)
    requires LiveSized(m, ts) && SameLive(ts, us)
    ensures LiveSized(m, us)
  {
  }

  // ---------- freeing a tile ----------

  /** The list with the block of a live tile put back is ordered, and covers no other live tile. */
  lemma {:induction false} ReturnedOrdered(ts: seq<Tile>, k: nat, start: nat, end: nat)
    requires Tiles(ts, start, end) && Maximal(ts) && 0 < start && end <= WORD_RANGE && k < |ts| && ts[k].live
    ensures Ordered(FreeOf(ts[..k]) + [BlockOf(ts[k])] + FreeOf(ts[k + 1..]))
  {
    hide Tiles, FreeOf, Maximal;
    var (a, x, b) := (FreeOf(ts[..k]), BlockOf(ts[k]), FreeOf(ts[k + 1..]));
    FreeAround(ts, k, start, end);
    FreeOrdered(ts, start, end);
    TilesInside(ts, k, start, end);
    TilesSplit(ts, k, start, end);
    TilesSplit(ts, k + 1, start, end);
    FreeInside(ts[..k], start, ts[k].addr);
    FreeInside(ts[k + 1..], if k + 1 < |ts| then ts[k + 1].addr else end, end);
    BetweenOrdered(a, x, b);
  }

  lemma {:induction false} BetweenOrdered(a: seq<Block>, x: Block, b: seq<Block>)
    requires Ordered(a + b) && 0 < x.addr && HEADER <= x.size && x.addr + x.size <= WORD_RANGE
    requires forall i :: 0 <= i < |a| ==> a[i].addr + a[i].size <= x.addr
    requires forall i :: 0 <= i < |b| ==> x.addr + x.size <= b[i].addr
    ensures Ordered(a + [x] + b)
  {
    assert forall i :: 0 <= i < |a| ==> (a + b)[i] == a[i];
    assert forall i :: 0 <= i < |b| ==> (a + b)[i + |a|] == b[i];
    var gs := a + [x] + b;
    forall i, j | 0 <= i < j < |gs|
      ensures gs[i].addr + gs[i].size <= gs[j].addr
    {
      if j < |a| {
        assert (a + b)[i] == gs[i] && (a + b)[j] == gs[j];
      } else if i > |a| {
        assert (a + b)[i - 1] == gs[i] && (a + b)[j - 1] == gs[j];
      } else if i < |a| && j > |a| {
        assert (a + b)[i] == gs[i] && (a + b)[j - 1] == gs[j];
      }
    }
  }

  /** Freeing tile k may write to its words and to free blocks, and to no other live tile. */
  lemma {:induction false} FreedKeepsLive(m: Cells, m': Cells, ts: seq<Tile>, k: nat, start: nat, end: nat)
    requires Tiles(ts, start, end) && Maximal(ts) && k < |ts| && ts[k].live && LiveSized(m, ts)
    requires OnlyIn(m, m', FreeOf(ts[..k]) + [BlockOf(ts[k])] + FreeOf(ts[k + 1..]))
    ensures LiveKept(m, m', FreeTiles(ts, k)) && LiveSized(m', FreeTiles(ts, k))
  {
    var gs := FreeOf(ts[..k]) + [BlockOf(ts[k])] + FreeOf(ts[k + 1..]);
    forall t, a: nat | t in FreeTiles(ts, k) && t.live && t.addr <= a < t.addr + t.size
      ensures Peek(m', a) == Peek(m, a)
    {
      FreeLive(ts, k, start, end, t);
      LiveNotFree(ts, t, a, start, end);
      TileBeside(ts, k, t, a, start, end);
      NotReturned(ts, k, a, start, end);
    }
    FreeSound(ts, k, start, end);
    forall t | t in FreeTiles(ts, k) && t.live
      ensures SizeAt(m', t.addr) == t.size
    {
      FreeLive(ts, k, start, end, t);
      var i :| 0 <= i < |ts| && ts[i] == t;
      TilesInside(ts, i, start, end);
      assert Peek(m', t.addr) == Peek(m, t.addr);
    }
  }

  lemma {:induction false} TileBeside(ts: seq<Tile>, k: nat, t: Tile, a: nat, start: nat, end: nat)
    requires Tiles(ts, start, end) && k < |ts| && t in ts && t != ts[k] && t.addr <= a < t.addr + t.size
    ensures !(ts[k].addr <= a < ts[k].addr + ts[k].size)
  {
    var i :| 0 <= i < |ts| && ts[i] == t;
    if i < k {
      TilesApart(ts, i, k, start, end);
    } else {
      TilesApart(ts, k, i, start, end);
    }
  }

  lemma {:induction false} NotReturned(ts: seq<Tile>, k: nat, a: nat, start: nat, end: nat)
    requires Tiles(ts, start, end) && Maximal(ts) && k < |ts| && ts[k].live
    requires !InBlocks(FreeOf(ts), a) && !(ts[k].addr <= a < ts[k].addr + ts[k].size)
    ensures !InBlocks(FreeOf(ts[..k]) + [BlockOf(ts[k])] + FreeOf(ts[k + 1..]), a)
  {
    FreeAround(ts, k, start, end);
    var (fs, p) := (FreeOf(ts), FreeOf(ts[..k]));
    var gs := p + [BlockOf(ts[k])] + FreeOf(ts[k + 1..]);
    forall i | 0 <= i < |gs|
      ensures !(gs[i].addr <= a < gs[i].addr + gs[i].size)
    {
      if i < |p| {
        assert gs[i] == fs[i];
      } else if i > |p| {
        assert gs[i] == fs[i - 1];
      }
    }
  }

  /** One merging step of the coalescing pass at entry i. */
  lemma {:induction false} CoalesceStep(fs: seq<Block>, i: nat)
    requires i + 1 < |fs|
    ensures if Touch(fs[i], fs[i + 1]) then
              MergedList(fs, i)[..i] == fs[..i] && Coalesce(MergedList(fs, i)[i..]) == Coalesce(fs[i..])
            else fs[..i] + Coalesce(fs[i..]) == fs[..i + 1] + Coalesce(fs[i + 1..])
  {
    var rest := fs[i..];
    assert rest[0] == fs[i] && rest[1] == fs[i + 1] && rest[1..] == fs[i + 1..] && rest[2..] == fs[i + 2..];
    if Touch(fs[i], fs[i + 1]) {
      assert MergedList(fs, i)[i..] == [Block(fs[i].addr, fs[i].size + fs[i + 1].size)] + fs[i + 2..];
    }
  }

  lemma {:induction false} LiveKeptTwice(m: Cells, m1: Cells, m2: Cells, ts: seq<Tile>, us: seq<Tile>)
    requires LiveKept(m, m1, ts) && LiveKept(m1, m2, us) && SameLive(ts, us)
    ensures LiveKept(m, m2, ts)
  {
  }

  lemma {:induction false} SameLiveKept(m: Cells, ts: seq<Tile>)
    ensures LiveKept(m, m, ts)
  {
  }

  lemma {:induction false} LiveHeader(ts: seq<Tile>, k: nat, start: nat, end: nat, m: Cells)
    requires Tiles(ts, start, end) && LiveSized(m, ts) && k < |ts| && ts[k].live
    ensures SizeAt(m, ts[k].addr) == ts[k].size && start <= ts[k].addr && start < end
  {
    TilesInside(ts, k, start, end);
    assert ts[k] in ts;
  }

  lemma {:induction false} OrderedAround(a: seq<Block>, x: Block, b: seq<Block>)
    requires Ordered(a + [x] + b)
    ensures forall i :: 0 <= i < |a| ==> 0 < a[i].addr < x.addr
    ensures forall i :: 0 <= i < |b| ==> x.addr < b[i].addr
    ensures 0 < x.addr
  {
    var gs := a + [x] + b;
    assert gs[|a|] == x;
    assert forall i :: 0 <= i < |a| ==> gs[i] == a[i];
    assert forall i :: 0 <= i < |b| ==> gs[i + |a| + 1] == b[i];
  }

  lemma {:induction false} OnlyInSame(m: Cells, m': Cells, fs: seq<Block>, gs: seq<Block>)
    requires OnlyIn(m, m', fs) && forall a: nat :: InBlocks(fs, a) <==> InBlocks(gs, a)
    ensures OnlyIn(m, m', gs)
  {
  }

  lemma {:induction false} OrderedPositive(fs: seq<Block>)
    requires Ordered(fs)
    ensures forall i :: 0 <= i < |fs| ==> 0 < fs[i].addr
  {
  }

  /** Nothing is left to merge at the last block. */
  lemma {:induction false} CoalesceEnd(fs: seq<Block>, i: nat)
    requires i <= |fs| <= i + 1
    ensures fs[..i] + Coalesce(fs[i..]) == fs
  {
  }
}
