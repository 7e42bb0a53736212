/** sys_sbrk: growing the user heap by whole pages, all or nothing. */
module UserHeap {
  import opened Utils
  import opened Directories
  import opened Transactions
  import opened Paging32

  const HEAP_BASE: nat := 0x4000_0000
  const PAGE: nat := 0x1000
  const WIDE: nat := 0x1_0000_0000_0000_0000
  const USER_FLAGS: nat := 7  // present, writable, user

  // ---------- which pages ----------

  /** The page boundaries are cut to 32 bits. */
  function FirstPage(brk: nat): nat { brk / PAGE * PAGE % ADDRESSES }

  function LastPage(brk: nat, inc: nat): nat { (brk + inc + PAGE - 1) / PAGE * PAGE % ADDRESSES }

  function PageCount(brk: nat, inc: nat): nat {
    if LastPage(brk, inc) > FirstPage(brk) then (LastPage(brk, inc) - FirstPage(brk)) / PAGE else 0
  }

  lemma {:induction false} PagesInRange(brk: nat, inc: nat)
    ensures FirstPage(brk) % PAGE == 0 && FirstPage(brk) / PAGE + PageCount(brk, inc) <= PAGES
    ensures FirstPage(brk) / PAGE < PAGES
  {
    PageAligned(brk / PAGE);
    PageAligned((brk + inc + PAGE - 1) / PAGE);
  }

  lemma {:induction false} PageAligned(p: nat)
    ensures p * PAGE % ADDRESSES == p % PAGES * PAGE
  {
    assert p == p / PAGES * PAGES + p % PAGES;
  }

  /** The pages cover the new bytes exactly when the rounded end still fits 32 bits. */
  lemma {:induction false} PagesCover(brk: nat, inc: nat)
    requires 0 < inc && brk < 0x1_0000_0000
    ensures FirstPage(brk) + PageCount(brk, inc) * 0x1000 >= brk + inc
            <==> (brk + inc + 0xFFF) / 0x1000 * 0x1000 < 0x1_0000_0000
  {
    var end := (brk + inc + PAGE - 1) / PAGE * PAGE;
    assert brk / PAGE * PAGE <= brk < ADDRESSES;
    assert FirstPage(brk) == brk / PAGE * PAGE;
    if end < ADDRESSES {
      assert LastPage(brk, inc) == end;
    } else {
      assert LastPage(brk, inc) <= end - ADDRESSES;
    }
  }

  // ---------- how many frames ----------

  /** Page p, the next one of a run from lo, needs a new table. */
  predicate NeedsTable(s: Space, lo: nat, p: nat) { !HasTable(s, p / WORDS) && (p == lo || p % WORDS == 0) }

  /** The new tables for the pages lo..hi. */
  function NewTables(s: Space, lo: nat, hi: nat): nat
    decreases hi
  {
    if hi <= lo then 0 else NewTables(s, lo, hi - 1) + if NeedsTable(s, lo, hi - 1) then 1 else 0
  }

  /** With spare free frames for tables, mapping n pages from lo gets as far as page i. */
  ghost predicate StopsAt(s: Space, lo: nat, n: nat, spare: nat, i: nat) {
    i < n && NewTables(s, lo, lo + i) <= spare < NewTables(s, lo, lo + i + 1)
  }

  /** There are not enough free frames for the pages and their tables. */
  ghost predicate Starved(s: Space, brk: nat, inc: nat) {
    |s.free| < PageCount(brk, inc) + NewTables(s, FirstPage(brk) / PAGE, FirstPage(brk) / PAGE + PageCount(brk, inc))
  }

  /** What a failed call leaves when it had mapped n pages: they are unmapped, and if they were so before
      then all is as before. */
  ghost predicate TakenBack(s0: Space, s: Space, lo: nat, n: nat) {
    && Erased(s0, s, lo, lo + n)
    && ((forall q: nat :: lo <= q < lo + n ==> Entry(s0, q) == 0) ==> Same(s0, s))
  }

  lemma {:induction false} NewTablesOrder(s: Space, lo: nat, mid: nat, hi: nat)
    requires mid <= hi
    ensures NewTables(s, lo, mid) <= NewTables(s, lo, hi)
  {
    if mid < hi {
      NewTablesOrder(s, lo, mid, hi - 1);
    }
  }

  /** With the pages lo..hi mapped, the next page has a table unless it needs a new one. */
  lemma {:induction false} NextTable(s0: Space, s: Space, lo: nat, hi: nat, held: set<nat>)
    requires Extends(s0, s, lo, lo, hi, held) && hi < PAGES
    ensures HasTable(s, hi / WORDS) <==> !NeedsTable(s0, lo, hi)
  {
    hide Ok, Accounted;
    if HasTable(s0, hi / WORDS) {
      assert Pde(s, hi / WORDS) == Pde(s0, hi / WORDS);
    } else if lo < hi && hi % WORDS != 0 {
      assert (hi - 1) / WORDS == hi / WORDS;
      assert Present(Entry(s, hi - 1));
    } else {
      forall q: nat | q / WORDS == hi / WORDS && Present(Entry(s, q))
        ensures Entry(s0, q) == Entry(s, q)
      {
      }
      TableSurvives(s, s0, hi / WORDS);
    }
  }

  // ---------- frames set aside ----------

  /** The frames of the addresses a..b. */
  ghost function Held(addrs: seq<nat>, a: nat, b: nat): set<nat>
    requires b <= |addrs|
  {
    set k: nat | a <= k < b :: addrs[k] / PAGE
  }

  /** Page-aligned addresses of different frames. */
  ghost predicate FrameList(addrs: seq<nat>) {
    && (forall k :: 0 <= k < |addrs| ==> addrs[k] % PAGE == 0 && 0 < addrs[k] < ADDRESSES)
    && (forall j, k :: 0 <= j < k < |addrs| ==> addrs[j] != addrs[k])
  }

  lemma {:induction false} HeldNext(addrs: seq<nat>, x: nat)
    ensures Held(addrs + [x], 0, |addrs| + 1) == Held(addrs, 0, |addrs|) + {x / PAGE}
  {
    var all := addrs + [x];
    assert forall k: nat :: k < |addrs| ==> all[k] == addrs[k];
    forall f | f in Held(addrs, 0, |addrs|) + {x / PAGE}
      ensures f in Held(all, 0, |addrs| + 1)
    {
      if f == x / PAGE {
        assert all[|addrs|] / PAGE == f;
      } else {
        var k: nat :| k < |addrs| && addrs[k] / PAGE == f;
        assert all[k] / PAGE == f;
      }
    }
  }

  lemma {:induction false} HeldFirst(addrs: seq<nat>, a: nat, b: nat)
    requires FrameList(addrs) && a < b <= |addrs|
    ensures addrs[a] / PAGE in Held(addrs, a, b) && Held(addrs, a, b) - {addrs[a] / PAGE} == Held(addrs, a + 1, b)
  {
    forall k: nat | a < k < b
      ensures addrs[k] / PAGE != addrs[a] / PAGE
    {
      assert addrs[a] == addrs[a] / PAGE * PAGE && addrs[k] == addrs[k] / PAGE * PAGE;
    }
  }

  /** The frames were taken from those free in s0. */
  ghost predicate Aside(s0: Space, s: Space, addrs: seq<nat>) {
    && FrameList(addrs) && |s.free| == |s0.free| - |addrs| && s.free <= s0.free
    && forall k :: 0 <= k < |addrs| ==> addrs[k] / PAGE in s0.free && addrs[k] / PAGE !in s.free
  }

  lemma {:induction false} NoneAside(s: Space)
    ensures Aside(s, s, []) && Held([], 0, 0) == {}
  {
  }

  lemma {:induction false} AsideFacts(s0: Space, s: Space, addrs: seq<nat>)
    requires Aside(s0, s, addrs)
    ensures FrameList(addrs) && |s.free| == |s0.free| - |addrs|
    ensures forall k :: 0 <= k < |addrs| ==> addrs[k] / PAGE in s0.free
  {
  }

  lemma {:induction false} OneMoreAside(s0: Space, s: Space, addrs: seq<nat>, frm: nat)
    requires Aside(s0, s, addrs) && frm % PAGE == 0 && 0 < frm < ADDRESSES && frm / PAGE in s.free
    ensures Aside(s0, s.(free := s.free - {frm / PAGE}), addrs + [frm])
  {
  }

  class Process {
    const pager: Pager
    const pdPhys: nat
    var brk: nat
    var brkSize: nat

    constructor (pager: Pager, pdPhys: nat)
      ensures this.pager == pager && this.pdPhys == pdPhys && brk == brkSize == 0
    {
      this.pager, this.pdPhys := pager, pdPhys;
      brk, brkSize := 0, 0;
    }

    ghost predicate Valid()
      reads this, pager, pager.frames
    {
      0 < pdPhys && pdPhys % PAGE == 0 && pager.Valid(pdPhys / PAGE)
    }

    /** The task's address space. */
    ghost function Space(): Space
      reads this, pager, pager.frames
      requires Valid()
    {
      pager.At(pdPhys / PAGE)
    }

    /** The break before a call; the first call sets the base. */
    function Break(): nat reads this { if brk == 0 then 0x4000_0000 else brk + brkSize }

    /** sys_sbrk: it either maps new frames at all pages of the range and moves the break, or fails for want
        of frames or of memory for the list of frames. A failed call unmaps the pages it had mapped, also
        where another page was mapped before; undone says how many. */
    method SysSbrk(inc: int, memory: bool) returns (r: int, ghost addrs: seq<nat>, ghost undone: nat)
      requires Valid() && brk + brkSize + inc + HEAP_BASE + PAGE < WIDE
      modifies this, pager`mem, pager.frames`chunks
      ensures Valid() && (r == -1 || r == old(Break()))
      ensures r == -1 <==>
                inc < 0
                || (inc > 0 && PageCount(old(Break()), inc) > 0 && (!memory || Starved(old(Space()), old(Break()), inc)))
      ensures r == -1 || inc == 0 ==>
                Break() == old(Break()) && TakenBack(old(Space()), Space(), FirstPage(old(Break())) / PAGE, undone)
      ensures if r == -1 && inc > 0 && memory && PageCount(old(Break()), inc) <= |old(Space()).free| then
                StopsAt(old(Space()), FirstPage(old(Break())) / PAGE, PageCount(old(Break()), inc),
                        |old(Space()).free| - PageCount(old(Break()), inc), undone)
              else undone == 0
      ensures r != -1 && 0 < inc ==> Break() == old(Break()) + inc && |addrs| == PageCount(old(Break()), inc)
      ensures r != -1 && 0 < inc ==> NewFrames(old(Space()), Space(), FirstPage(old(Break())) / PAGE, addrs)
    {
      hide Ok, Accounted, IsTable, Entry, Extends, TakenBack, StopsAt, FirstPage, PageCount, NewTables, HasTable,
        NeedsTable, EntryWord;
      addrs, undone := [], 0;
      ghost var s0 := Space();
      ghost var lo := FirstPage(Break()) / PAGE;
      PagesInRange(Break(), 0);
      SameAs(s0, lo);
      if brk == 0 {
        brk, brkSize := HEAP_BASE, 0;
      }
      var currentBrk := brk + brkSize;
      if inc == 0 {
        return currentBrk, addrs, undone;
      }
      if inc < 0 {
        return -1, addrs, undone;
      }
      var newEnd := currentBrk + inc;
      var prevPage := FirstPage(currentBrk);
      var pages := PageCount(currentBrk, inc);
      PagesInRange(currentBrk, inc);
      if pages == 0 {
        brkSize := brkSize + inc;
        Start(s0, prevPage / PAGE);
        assert Held(addrs, 0, 0) == {};
        return currentBrk, addrs, undone;
      }
      var ok;
      ok, addrs, undone := Provide(prevPage, pages, memory);
      if !ok {
        return -1, addrs, undone;
      }
      brkSize := newEnd - brk;
      r := currentBrk;
    }

    /** Allocates frames for all pages, then maps them. */
    method Provide(prevPage: nat, pages: nat, memory: bool) returns (ok: bool, ghost addrs: seq<nat>, ghost undone: nat)
      requires Valid() && prevPage % PAGE == 0 && prevPage / PAGE + pages <= PAGES && pages > 0
      modifies pager`mem, pager.frames`chunks
      ensures Valid()
      ensures var (lo, free) := (prevPage / PAGE, |old(Space()).free|);
              && (ok <==> memory && pages + NewTables(old(Space()), lo, lo + pages) <= free)
              && (ok ==> |addrs| == pages && NewFrames(old(Space()), Space(), lo, addrs))
              && (!ok ==> TakenBack(old(Space()), Space(), lo, undone))
              && (if !ok && memory && pages <= free then StopsAt(old(Space()), lo, pages, free - pages, undone)
                  else undone == 0)
    {
      hide Ok, Accounted, IsTable, Entry, Extends, TakenBack, StopsAt, NewTables, HasTable, NeedsTable, EntryWord;
      ghost var (s0, lo) := (Space(), prevPage / PAGE);
      addrs, undone := [], 0;
      SameAs(s0, lo);
      if !memory {
        return false, addrs, undone;
      }
      var frames;
      ok, frames := AllocFrames(pages, lo);
      if ok {
        ok, undone := MapFrames(prevPage, frames, s0);
        addrs := frames;
      }
    }

    lemma {:induction false} SameAs(s: Space, lo: nat)
      requires Ok(s)
      ensures TakenBack(s, s, lo, 0)
    {
    }

    /** Gives one frame back. */
    method GiveBack(addr: nat, ghost s0: Space, ghost base: nat, ghost lo: nat, ghost hi: nat, ghost held: set<nat>)
      requires Valid() && Extends(s0, Space(), base, lo, hi, held) && addr % PAGE == 0 && addr / PAGE in held
      modifies pager.frames`chunks
      ensures Valid() && Extends(s0, Space(), base, lo, hi, held - {addr / PAGE})
    {
      hide Ok, Accounted, IsTable, Entry;
      ghost var (s, f) := (Space(), addr / PAGE);
      HeldManaged(s0, s, base, lo, hi, held, f);
      Return(s0, s, base, lo, hi, held, f);
      assert pager.frames.Managed(f);
      pager.frames.FreeFrame(addr);
      assert pager.ManagedFrames() == s.managed;
      assert Space() == s.(free := s.free + {f});
    }

    lemma {:induction false} HeldManaged(s0: Space, s: Space, base: nat, lo: nat, hi: nat, held: set<nat>, f: nat)
      requires Extends(s0, s, base, lo, hi, held) && f in held
      ensures Ok(s) && f in s.managed && 0 < f < PAGES
    {
    }

    /** Allocates all frames first, or none. */
    method AllocFrames(n: nat, ghost lo: nat) returns (ok: bool, addrs: seq<nat>)
      requires Valid() && lo <= PAGES
      modifies pager.frames`chunks
      ensures Valid() && (ok <==> n <= |old(Space()).free|)
      ensures ok ==> |addrs| == n && FrameList(addrs) && Extends(old(Space()), Space(), lo, lo, lo, Held(addrs, 0, n))
      ensures ok ==>
                |Space().free| == |old(Space()).free| - n && forall k :: 0 <= k < n ==>
                    addrs[k] / PAGE in old(Space()).free
      ensures !ok ==> TakenBack(old(Space()), Space(), lo, 0)
    {
      hide Ok, Accounted, IsTable, Entry, Extends, Erased, Same, Aside;
      ghost var s0 := Space();
      addrs := [];
      Start(s0, lo);
      NoneAside(s0);
      while |addrs| < n
        invariant Valid() && |addrs| <= n && Aside(s0, Space(), addrs)
        invariant Extends(s0, Space(), lo, lo, lo, Held(addrs, 0, |addrs|))
      {
        ghost var s := Space();
        AsideFacts(s0, s, addrs);
        var frm := AllocOne(s0, lo, Held(addrs, 0, |addrs|));
        if frm == 0 {
          Release(addrs, s0, lo);
          return false, addrs;
        }
        HeldNext(addrs, frm);
        OneMoreAside(s0, s, addrs, frm);
        addrs := addrs + [frm];
      }
      AsideFacts(s0, Space(), addrs);
      ok := true;
    }

    /** Takes one more frame aside, if one is free. */
    method AllocOne(ghost s0: Space, ghost lo: nat, ghost held: set<nat>) returns (frm: nat)
      requires Valid() && Extends(s0, Space(), lo, lo, lo, held)
      modifies pager.frames`chunks
      ensures Valid() && (frm == 0 <==> old(Space()).free == {})
      ensures frm == 0 ==> Space() == old(Space())
      ensures frm != 0 ==> frm % PAGE == 0 && 0 < frm < ADDRESSES && frm / PAGE in old(Space()).free
                           && Space() == old(Space()).(free := old(Space()).free - {frm / PAGE})
                           && Extends(s0, Space(), lo, lo, lo, held + {frm / PAGE})
    {
      hide Ok, Accounted, IsTable, Entry, Extends;
      ghost var s := Space();
      OkManaged(s);
      frm := pager.frames.AllocFrame();
      assert pager.ManagedFrames() == s.managed;
      if frm != 0 {
        Hold(s0, s, lo, lo, lo, held, frm / PAGE);
        assert Space() == s.(free := s.free - {frm / PAGE});
        ExtendsOk(s0, Space(), lo, lo, lo, held + {frm / PAGE});
      }
    }

    lemma {:induction false} ExtendsOk(s0: Space, s: Space, base: nat, lo: nat, hi: nat, held: set<nat>)
      requires Extends(s0, s, base, lo, hi, held)
      ensures Ok(s0) && Ok(s) && s.pd == s0.pd
    {
    }

    lemma {:induction false} OkManaged(s: Space)
      requires Ok(s)
      ensures forall f :: f in s.free ==> 0 < f < PAGES
    {
    }

    /** Frees the frames collected so far. */
    method Release(addrs: seq<nat>, ghost s0: Space, ghost lo: nat)
      requires Valid() && FrameList(addrs) && Extends(s0, Space(), lo, lo, lo, Held(addrs, 0, |addrs|))
      modifies pager.frames`chunks
      ensures Valid() && TakenBack(s0, Space(), lo, 0)
    {
      hide Ok, Accounted, IsTable, Entry, Extends, Erased, Same;
      var j := 0;
      while j < |addrs|
        invariant j <= |addrs| && Valid() && Extends(s0, Space(), lo, lo, lo, Held(addrs, j, |addrs|))
      {
        HeldFirst(addrs, j, |addrs|);
        GiveBack(addrs[j], s0, lo, lo, lo, Held(addrs, j, |addrs|));
        j := j + 1;
      }
      assert Held(addrs, j, |addrs|) == {};
      NothingLeft(s0, Space(), lo, lo);
    }

    /** Maps the frames at consecutive pages, or unmaps the pages it got to and frees all frames. */
    method MapFrames(prevPage: nat, addrs: seq<nat>, ghost s0: Space) returns (ok: bool, ghost undone: nat)
      requires Valid() && FrameList(addrs) && prevPage % PAGE == 0 && prevPage / PAGE + |addrs| <= PAGES
      requires Extends(s0, Space(), prevPage / PAGE, prevPage / PAGE, prevPage / PAGE, Held(addrs, 0, |addrs|))
      modifies pager`mem, pager.frames`chunks
      ensures Valid()
      ensures var (lo, free) := (prevPage / PAGE, |old(Space()).free|);
              && (ok <==> NewTables(s0, lo, lo + |addrs|) <= free)
              && (ok ==> Extends(s0, Space(), lo, lo, lo + |addrs|, Held(addrs, 0, |addrs|)))
              && (ok ==> undone == 0 && forall k: nat :: k < |addrs| ==>
                     Entry(Space(), lo + k) == EntryWord(addrs[k], USER_FLAGS))
              && (!ok ==> StopsAt(s0, lo, |addrs|, free, undone) && TakenBack(s0, Space(), lo, undone))
    {
      hide Ok, Accounted, IsTable, Entry, Extends, TakenBack, HasTable, NeedsTable, EntryWord;
      ghost var (lo, held) := (prevPage / PAGE, Held(addrs, 0, |addrs|));
      ghost var free := |Space().free|;
      var va := prevPage;
      var i := 0;
      while i < |addrs|
        invariant Valid() && i <= |addrs| && va == prevPage + i * PAGE && Extends(s0, Space(), lo, lo, lo + i, held)
        invariant |Space().free| + NewTables(s0, lo, lo + i) == free
        invariant forall k: nat :: k < i ==> Entry(Space(), lo + k) == EntryWord(addrs[k], USER_FLAGS)
      {
        var r := MapNext(va, addrs[i], s0, lo, lo + i, held);
        if r != 0 {
          NewTablesOrder(s0, lo, lo + i + 1, lo + |addrs|);
          Rollback(prevPage, addrs, i, s0);
          return false, i;
        }
        i := i + 1;
        va := va + PAGE;
      }
      ok, undone := true, 0;
    }

    /** Maps one more page. */
    method MapNext(va: nat, addr: nat, ghost s0: Space, ghost lo: nat, ghost hi: nat, ghost held: set<nat>)
      returns (r: int)
      requires Valid() && va == hi * PAGE && va < ADDRESSES && addr < ADDRESSES
      requires Extends(s0, Space(), lo, lo, hi, held)
      modifies pager`mem, pager.frames`chunks
      ensures Valid() && (r == 0 || r == -1)
      ensures r == -1 <==> NeedsTable(s0, lo, hi) && old(Space()).free == {}
      ensures r == -1 ==> Space() == old(Space())
      ensures r == 0 ==> Extends(s0, Space(), lo, lo, hi + 1, held)
      ensures r == 0 ==> |Space().free| == |old(Space()).free| - if NeedsTable(s0, lo, hi) then 1 else 0
      ensures r == 0 ==>
                forall q: nat :: Entry(Space(), q) == if q == hi then EntryWord(addr, USER_FLAGS)
                                                      else Entry(old(Space()), q)
    {
      hide Ok, Accounted, IsTable, Entry, Extends, HasTable, NeedsTable, EntryWord, MapWord, TableOk;
      ghost var s := Space();
      ExtendsOk(s0, s, lo, lo, hi, held);
      NextTable(s0, s, lo, hi, held);
      ghost var f;
      r, f := pager.MapPagePd(pdPhys, addr, va, USER_FLAGS);
      assert va / 0x1000 == hi;
      if r == 0 {
        pager.EntryPresent(addr, USER_FLAGS);
        TableWhole(s, hi / WORDS);
        MapExtends(s0, s, lo, hi, held, EntryWord(addr, USER_FLAGS), f);
        if HasTable(s, hi / WORDS) {
          MapInTable(s, hi, EntryWord(addr, USER_FLAGS), f);
        } else {
          MapNewTable(s, hi, EntryWord(addr, USER_FLAGS), f);
        }
      }
    }

    lemma {:induction false} TableWhole(s: Space, j: nat)
      ensures TableOk(s, j) ==> Whole(s.mem, Table(s, j))
    {
    }

    /** Frees the frames that were not mapped, then unmaps and frees the others. */
    method Rollback(prevPage: nat, addrs: seq<nat>, i: nat, ghost s0: Space)
      requires Valid() && FrameList(addrs) && prevPage % PAGE == 0 && i < |addrs| && prevPage / PAGE + |addrs| <= PAGES
      requires Extends(s0, Space(), prevPage / PAGE, prevPage / PAGE, prevPage / PAGE + i, Held(addrs, 0, |addrs|))
      modifies pager`mem, pager.frames`chunks
      ensures Valid() && TakenBack(s0, Space(), prevPage / PAGE, i)
    {
      hide Ok, Accounted, IsTable, Entry, Extends, Erased, Same;
      ghost var lo := prevPage / PAGE;
      var j := i;
      HeldParts(addrs, i, i);
      while j < |addrs|
        invariant i <= j <= |addrs| && Valid()
        invariant Extends(s0, Space(), lo, lo, lo + i, Held(addrs, 0, i) + Held(addrs, j, |addrs|))
      {
        HeldParts(addrs, i, j);
        HeldFirst(addrs, j, |addrs|);
        GiveBack(addrs[j], s0, lo, lo, lo + i, Held(addrs, 0, i) + Held(addrs, j, |addrs|));
        HeldWithout(addrs, i, j);
        j := j + 1;
      }
      assert Held(addrs, 0, i) + Held(addrs, j, |addrs|) == Held(addrs, 0, i);
      var unVa := prevPage;
      j := 0;
      while j < i
        invariant j <= i && unVa == prevPage + j * PAGE && Valid()
        invariant Extends(s0, Space(), lo, lo + j, lo + i, Held(addrs, j, i))
      {
        UnmapNext(unVa, s0, lo, lo + j, lo + i, Held(addrs, j, i));
        HeldFirst(addrs, j, i);
        GiveBack(addrs[j], s0, lo, lo + j + 1, lo + i, Held(addrs, j, i));
        j := j + 1;
        unVa := unVa + PAGE;
      }
      assert Held(addrs, j, i) == {};
      NothingLeft(s0, Space(), lo, lo + i);
    }

    /** Takes back the first of the added pages. */
    method UnmapNext(va: nat, ghost s0: Space, ghost base: nat, ghost lo: nat, ghost hi: nat, ghost held: set<nat>)
      requires Valid() && va == lo * PAGE && va < ADDRESSES && lo < hi && Extends(s0, Space(), base, lo, hi, held)
      modifies pager`mem, pager.frames`chunks
      ensures Valid() && Extends(s0, Space(), base, lo + 1, hi, held)
    {
      hide Ok, Accounted, IsTable, Entry, Extends, UnmapWord;
      ghost var s := Space();
      FirstMapped(s0, s, base, lo, hi, held);
      UnmapExtends(s0, s, base, lo, hi, held);
      assert va / 0x1000 == lo;
      var r := pager.UnmapPagePd(pdPhys, va);
    }

    lemma {:induction false} FirstMapped(s0: Space, s: Space, base: nat, lo: nat, hi: nat, held: set<nat>)
      requires Extends(s0, s, base, lo, hi, held) && lo < hi
      ensures Present(Entry(s, lo))
    {
    }
  }

  /** The frames of the new pages, formerly free and all different. */
  ghost predicate NewFrames(s0: Space, s: Space, lo: nat, addrs: seq<nat>) {
    && FrameList(addrs) && Extends(s0, s, lo, lo, lo + |addrs|, Held(addrs, 0, |addrs|))
    && (forall k :: 0 <= k < |addrs| ==> addrs[k] / PAGE in s0.free)
    && (forall k: nat :: k < |addrs| ==> Entry(s, lo + k) == EntryWord(addrs[k], USER_FLAGS))
  }

  /** The user bit, bit 2, of an entry. */
  predicate UserBit(w: nat) { w / 4 % 2 == 1 }

  /** Both the page's entry and its directory entry allow user access. */
  predicate OpenToUser(s: Space, p: nat) { UserBit(Entry(s, p)) && UserBit(Pde(s, p / 1024)) }

  /** A new page is at its frame's address, present, writable and with the user bit; but a table that the call makes
      has no user bit, so the page is open to the user if and only if its table was there and has that bit. */
  lemma {:induction false} NewPageRights(s0: Space, s: Space, lo: nat, addrs: seq<nat>, k: nat)
    requires NewFrames(s0, s, lo, addrs) && k < |addrs|
    ensures Entry(s, lo + k) == addrs[k] + 7
    ensures OpenToUser(s, lo + k) <==> HasTable(s0, (lo + k) / 1024) && UserBit(Pde(s0, (lo + k) / 1024))
  {
    hide Ok, Accounted, IsTable, Held;
    var j := (lo + k) / 1024;
    EntrySum(addrs[k]);
    assert Present(Entry(s, lo + k)) && HasTable(s, j);
    if !HasTable(s0, j) {
      NoUserBit(Pde(s, j));
    }
  }

  lemma {:induction false} EntrySum(addr: nat)
    requires addr % PAGE == 0
    ensures EntryWord(addr, USER_FLAGS) == addr + 7 && UserBit(addr + 7)
  {
    var q := addr / PAGE;
    assert addr + 7 == 4 * (q * 0x400 + 1) + 3;
  }

  lemma {:induction false} NoUserBit(w: nat)
    requires w % 0x1000 == 3
    ensures !UserBit(w)
  {
    var q := w / 0x1000;
    assert w == 4 * (q * 0x400) + 3;
  }

  /** A call keeps the pages handed out before if and only if it starts from a page-aligned break or maps no
      page: it maps new frames from the page of the break on, also where the last bytes handed out lie. */
  lemma {:induction false} PagesKept(s0: Space, s: Space, brk: nat, inc: nat, addrs: seq<nat>)
    requires 0 < inc && brk < ADDRESSES && |addrs| == PageCount(brk, inc)
    requires NewFrames(s0, s, FirstPage(brk) / PAGE, addrs)
    requires brk % PAGE != 0 ==> Present(Entry(s0, brk / PAGE)) && Target(Entry(s0, brk / PAGE)) !in s0.free
    ensures (forall q: nat :: q * PAGE < brk ==>
                Entry(s, q) == Entry(s0, q)) <==> brk % PAGE == 0 || PageCount(brk, inc) == 0
  {
    hide Ok, Accounted, IsTable, Entry, Held, PageCount;
    var p := brk / PAGE;
    assert brk == p * PAGE + brk % PAGE && FirstPage(brk) == p * PAGE;
    if brk % PAGE != 0 && |addrs| > 0 {
      assert Entry(s, p + 0) == EntryWord(addrs[0], USER_FLAGS);
      EntryTarget(addrs[0]);
      assert p * PAGE < brk;
    } else {
      forall q: nat | q * PAGE < brk
        ensures Entry(s, q) == Entry(s0, q)
      {
        assert q < p || |addrs| == 0;
      }
    }
  }

  lemma {:induction false} EntryTarget(addr: nat)
    ensures Target(EntryWord(addr, USER_FLAGS)) == addr / PAGE
  {
  }

  lemma {:induction false} BreakPage(brk: nat, inc: nat)
    requires 0 < inc && (brk + inc + PAGE - 1) / PAGE * PAGE < ADDRESSES
    ensures FirstPage(brk) / PAGE == brk / PAGE && brk == brk / PAGE * PAGE + brk % PAGE
    ensures brk % PAGE != 0 ==> PageCount(brk, inc) > 0
  {
    assert brk / PAGE * PAGE <= brk < ADDRESSES;
    assert (brk + inc + PAGE - 1) / PAGE >= brk / PAGE;
    assert FirstPage(brk) == brk / PAGE * PAGE;
    assert LastPage(brk, inc) == (brk + inc + PAGE - 1) / PAGE * PAGE;
    if brk % PAGE != 0 {
      assert (brk + inc + PAGE - 1) / PAGE > brk / PAGE;
    }
  }

  /** Two calls in a row, the first from a page-aligned break: the second keeps all pages of the first if
      and only if the break between them is page-aligned. Otherwise it replaces the last frame of the
      first call, which is then neither free nor a table nor one of its own frames. */
  lemma {:induction false} SecondCall(s0: Space, s1: Space, s2: Space, brk: nat, inc: nat, inc2: nat, a1: seq<nat>,
                                      a2: seq<nat>)
    requires brk % PAGE == 0 && 0 < inc && 0 < inc2 && (brk + inc + inc2 + PAGE - 1) / PAGE * PAGE < ADDRESSES
    requires |a1| == PageCount(brk, inc) && NewFrames(s0, s1, FirstPage(brk) / PAGE, a1)
    requires |a2| == PageCount(brk + inc, inc2) && NewFrames(s1, s2, FirstPage(brk + inc) / PAGE, a2)
    ensures |a1| > 0
    ensures (forall q: nat :: brk / PAGE <= q < brk / PAGE + |a1| ==>
                Entry(s2, q) == Entry(s1, q)) <==> (brk + inc) % PAGE == 0
    ensures (brk + inc) % PAGE != 0 ==>
              var f := a1[|a1| - 1] / PAGE;
              f in s0.free && Target(Entry(s1, (brk + inc) / PAGE)) == f && Target(Entry(s2, (brk + inc) / PAGE)) != f
              && !Accounted(s2, Held(a2, 0, |a2|), f)
  {
    hide Ok, IsTable, Entry, EntryWord;
    var (p, n) := ((brk + inc) / PAGE, |a1|);
    RoundedBelow(brk, inc, inc2);
    AlignedPages(brk, inc);
    BreakPage(brk, inc);
    BreakPage(brk + inc, inc2);
    if (brk + inc) % PAGE != 0 {
      var f := a1[n - 1] / PAGE;
      assert Entry(s1, brk / PAGE + (n - 1)) == EntryWord(a1[n - 1], USER_FLAGS);
      EntryTarget(a1[n - 1]);
      assert f in Held(a1, 0, n);
      assert Entry(s2, p + 0) == EntryWord(a2[0], USER_FLAGS);
      EntryTarget(a2[0]);
      assert !Accounted(s1, {}, f) && f !in Held(a2, 0, |a2|);
    }
  }

  /** For example two calls for one byte each, in a space with an empty directory and four free frames: both
      map the first page of the heap, and the second replaces the frame of the first. */
  lemma {:induction false} TwoSingleBytes() returns (s0: Space, s1: Space, s2: Space, a1: seq<nat>, a2: seq<nat>)
    ensures Ok(s0) && s0.free == {2, 3, 4, 5}
    ensures |a1| == PageCount(HEAP_BASE, 1) && NewFrames(s0, s1, FirstPage(HEAP_BASE) / PAGE, a1)
    ensures |a2| == PageCount(HEAP_BASE + 1, 1) && NewFrames(s1, s2, FirstPage(HEAP_BASE + 1) / PAGE, a2)
    ensures Target(Entry(s1, HEAP_BASE / PAGE)) == 2 && Target(Entry(s2, HEAP_BASE / PAGE)) == 4
    ensures !OpenToUser(s1, HEAP_BASE / PAGE)
  {
    hide Ok, Entry, NewFrames, EntryWord, Target, OpenToUser;
    EmptyDirectory();
    EntryTarget(2 * PAGE);
    EntryTarget(4 * PAGE);
    s0, a1, a2 := Space(map[1 := Zeros(WORDS)], 1, {2, 3, 4, 5}, {2, 3, 4, 5}), [2 * PAGE], [4 * PAGE];
    s1 := OnePage(s0, HEAP_BASE / PAGE, 2, 3);
    assert !HasTable(s0, HEAP_BASE / PAGE / 1024);
    NewPageRights(s0, s1, HEAP_BASE / PAGE, a1, 0);
    s2 := OnePage(s1, HEAP_BASE / PAGE, 4, 5);
  }

  lemma {:induction false} EmptyDirectory()
    ensures Ok(Space(map[1 := Zeros(WORDS)], 1, {2, 3, 4, 5}, {2, 3, 4, 5}))
  {
  }

  /** One page mapped to frame a, with frame f for its table if it needs one. */
  lemma {:induction false} OnePage(s: Space, p: nat, a: nat, f: nat) returns (s': Space)
    requires Ok(s) && p < PAGES && a in s.free && f in s.free && a != f
    ensures Ok(s') && s'.free == s.free - if HasTable(s, p / WORDS) then {a} else {a, f}
    ensures NewFrames(s, s', p, [a * PAGE]) && Entry(s', p) == EntryWord(a * PAGE, USER_FLAGS)
  {
    hide IsTable, Entry, MapWord, Ok, Extends, Accounted, TableOk, Held, EntryWord;
    var (t, w) := (s.(free := s.free - {a}), EntryWord(a * PAGE, USER_FLAGS));
    Start(s, p);
    Hold(s, s, p, p, p, {}, a);
    assert {} + {a} == {a} && a * PAGE / PAGE == a;
    FreeFrame(s, a);
    FreeFrame(s, f);
    SameTables(s, t);
    PresentWord(a * PAGE);
    ExtendsMeansOk(s, t, p, {a});
    if HasTable(t, p / WORDS) {
      MapInTable(t, p, w, f);
    } else {
      MapNewTable(t, p, w, f);
    }
    OkSpace(t, p / WORDS, f);
    MapExtends(s, t, p, p, {a}, w, f);
    s' := MapWord(t, p, w, f);
    OneHeld(a);
  }

  lemma {:induction false} OneHeld(a: nat)
    ensures Held([a * PAGE], 0, 1) == {a}
  {
    assert [a * PAGE][0] / PAGE == a;
  }

  lemma {:induction false} PresentWord(addr: nat)
    ensures Present(EntryWord(addr, USER_FLAGS))
  {
    hide EntryWord;
    EntryBits(addr, USER_FLAGS, 0);
  }

  lemma {:induction false} FreeFrame(s: Space, a: nat)
    requires Ok(s) && a in s.free
    ensures 0 < a < PAGES && a != s.pd
  {
  }

  lemma {:induction false} ExtendsMeansOk(s0: Space, s: Space, p: nat, held: set<nat>)
    requires Extends(s0, s, p, p, p, held)
    ensures Ok(s)
  {
    hide Ok, Accounted, IsTable, Entry;
  }

  lemma {:induction false} OkSpace(s: Space, j: nat, f: nat)
    requires Ok(s) && f in s.free
    ensures f != s.pd && Whole(s.mem, s.pd) && (HasTable(s, j) ==> Whole(s.mem, Table(s, j)))
  {
    if HasTable(s, j) {
      assert TableOk(s, j);
    }
  }

  /** A call whose rounded end is past 4 GiB moves the break without mapping a page. */
  lemma {:induction false} WrappedCall()
    ensures PageCount(HEAP_BASE, 0xBFFF_F001) == 0
  {
  }

  lemma {:induction false} RoundedBelow(brk: nat, inc: nat, inc2: nat)
    requires (brk + inc + inc2 + PAGE - 1) / PAGE * PAGE < ADDRESSES
    ensures (brk + inc + PAGE - 1) / PAGE * PAGE < ADDRESSES
  {
    assert (brk + inc + PAGE - 1) / PAGE <= (brk + inc + inc2 + PAGE - 1) / PAGE;
  }

  lemma {:induction false} AlignedPages(brk: nat, inc: nat)
    requires brk % PAGE == 0 && 0 < inc && (brk + inc + PAGE - 1) / PAGE * PAGE < ADDRESSES
    ensures brk / PAGE + PageCount(brk, inc) == (brk + inc + PAGE - 1) / PAGE
    ensures FirstPage(brk + inc) / PAGE == (brk + inc) / PAGE
    ensures if (brk + inc) % PAGE == 0 then (brk + inc) / PAGE == (brk + inc + PAGE - 1) / PAGE
            else brk / PAGE <= (brk + inc) / PAGE && (brk + inc) / PAGE + 1 == (brk + inc + PAGE - 1) / PAGE
  {
    var (a, e) := (brk / PAGE, (brk + inc + PAGE - 1) / PAGE);
    assert brk == a * PAGE;
    assert FirstPage(brk) == brk && LastPage(brk, inc) == e * PAGE;
  }

  lemma {:induction false} HeldParts(addrs: seq<nat>, i: nat, j: nat)
    requires i <= j <= |addrs|
    ensures Held(addrs, 0, i) + Held(addrs, i, |addrs|) == Held(addrs, 0, |addrs|)
  {
    forall f | f in Held(addrs, 0, |addrs|)
      ensures f in Held(addrs, 0, i) + Held(addrs, i, |addrs|)
    {
      var k: nat :| k < |addrs| && addrs[k] / PAGE == f;
      assert k < i || i <= k;
    }
  }

  /** Dropping a frame that is not among the first i. */
  lemma {:induction false} HeldWithout(addrs: seq<nat>, i: nat, j: nat)
    requires FrameList(addrs) && i <= j < |addrs|
    ensures (Held(addrs, 0, i) + Held(addrs, j, |addrs|)) - {addrs[j] / PAGE} == Held(addrs, 0, i) + Held(addrs, j + 1, |addrs|)
  {
    HeldFirst(addrs, j, |addrs|);
    forall k: nat | k < i
      ensures addrs[k] / PAGE != addrs[j] / PAGE
    {
      assert addrs[j] == addrs[j] / PAGE * PAGE && addrs[k] == addrs[k] / PAGE * PAGE;
    }
  }
}
