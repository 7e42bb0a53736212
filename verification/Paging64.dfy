/** map_page_64 and the two PML4 constructors of paging64.c, over physical memory and the frame
    allocator, in identity mode: a frame below 4 GiB is reached at its own physical address. */
module Paging64 {
  import opened Utils
  import opened FrameMaps
  import opened PageTables
  import opened Mapping
  import opened MappingRuns
  import opened MapSteps
  import opened AddressSpaces

  class Machine {
    var mem: Memory
    const frames: FrameMap
    var kernelPml4: nat        // physical address, 0 until the kernel tables exist
    ghost var roots: set<nat>  // frames of the PML4s in use

    ghost predicate Consistent()
      reads this, frames
    {
      frames.Valid() && Sound(mem, roots, frames.Free())
    }

    ghost predicate Valid()
      reads this, frames
    {
      Consistent() && (kernelPml4 == 0 || (kernelPml4 % PAGE == 0 && FrameOf(kernelPml4) in roots))
    }

    constructor (frames: FrameMap, mem: Memory)
      requires frames.Valid() && 0 < frames.startFrame && frames.startFrame + frames.frames <= LIMIT
      requires ValidMemory(mem)
      ensures Valid() && this.frames == frames && this.mem == mem && roots == {} && kernelPml4 == 0
    {
      this.frames, this.mem, kernelPml4, roots := frames, mem, 0, {};
    }

    /** Zeroes the 512 words of a frame, one by one. */
    method ZeroFrame(f: nat)
      requires ValidMemory(mem) && f < LIMIT
      modifies this`mem
      ensures ValidMemory(mem)
      ensures mem == old(mem)[f := ZEROS]
    {
      var i := 0;
      while i < ENTRIES
        invariant 0 <= i <= ENTRIES && f in mem && |mem[f]| == ENTRIES
        invariant forall j :: 0 <= j < i ==> mem[f][j] == 0
        invariant mem.Keys == old(mem).Keys
        invariant forall g :: g in mem && g != f ==> mem[g] == old(mem[g])
      {
        mem := mem[f := mem[f][i := 0]];
        i := i + 1;
      }
      assert mem[f] == ZEROS;
    }

    /** Fills a frame with the 512 entries that map the 2 MiB page of entry e. */
    method FillSplit(f: nat, e: nat)
      requires ValidMemory(mem) && f < LIMIT
      modifies this`mem
      ensures f in mem && SplitsInto(e, mem[f])
      ensures mem == old(mem)[f := mem[f]]
    {
      var base := e / 0x20_0000 * 0x20_0000;
      var flags := e % PAGE;
      var i := 0;
      while i < ENTRIES
        invariant 0 <= i <= ENTRIES && f in mem && |mem[f]| == ENTRIES
        invariant forall j :: 0 <= j < i ==> mem[f][j] == SplitWord(e, j)
        invariant mem.Keys == old(mem).Keys
        invariant forall g :: g in mem && g != f ==> mem[g] == old(mem[g])
      {
        var word := (base + i * PAGE) / PAGE * PAGE + (if Large(flags) then flags - 0x80 else flags);
        mem := mem[f := mem[f][i := word]];
        i := i + 1;
      }
    }

    /** Memory is whole, and the allocator hands out reachable frames only. */
    ghost predicate Usable()
      reads this, frames
    {
      frames.Valid() && ValidMemory(mem) && forall f :: f in frames.Free() ==> 0 < f < LIMIT
    }

    /** alloc_page_table: the lowest free frame, zeroed, or None when no frame is free. */
    method AllocPageTable() returns (f: Option<nat>)
      requires Usable()
      modifies this`mem, frames`chunks
      ensures Usable()
      ensures if old(frames.Free()) == {} then f == None && mem == old(mem) && frames.Free() == {}
              else f == Some(Lowest(old(frames.Free()))) && mem == old(mem)[f.value := ZEROS]
                   && frames.Free() == old(frames.Free()) - {f.value}
    {
      hide Zeros;
      var addr := frames.AllocFrame();
      if addr == 0 {
        return None;
      }
      ZeroFrame(addr / PAGE);
      return Some(addr / PAGE);
    }

    /** Installs a new table where the word is not present. */
    method CreateTable(t: nat, i: nat) returns (next: Option<nat>)
      requires Usable() && t < LIMIT && i < ENTRIES
      modifies this`mem, frames`chunks
      ensures Usable() && Step(mem, frames.Free(), next) == Attached(old(mem), old(frames.Free()), t, i, ZEROS)
    {
      hide Zeros;
      next := AllocPageTable();
      if next.Some? {
        mem := WithWord(mem, t, i, next.value * PAGE + PRESENT_RW_USER);
      }
    }

    /** Replaces a 2 MiB page by a table of 512 4 KiB pages. */
    method SplitPage(t: nat, i: nat) returns (next: Option<nat>)
      requires Usable() && t < LIMIT && i < ENTRIES
      modifies this`mem, frames`chunks
      ensures Usable()
      ensures Step(mem, frames.Free(), next)
              == Attached(old(mem), old(frames.Free()), t, i, SplitWords(WordAt(old(mem), t, i), ENTRIES))
    {
      hide Zeros, SplitWords;
      var e := mem[t][i];
      next := AllocPageTable();
      if next.Some? {
        FillSplit(next.value, e);
        assert mem[next.value] == SplitWords(e, ENTRIES);
        assert mem == old(mem)[next.value := SplitWords(e, ENTRIES)];
        mem := WithWord(mem, t, i, next.value * PAGE + PRESENT_RW_USER);
      }
    }

    /** Follows word i of frame t one level down: creates the table when the word is not present, splits a
        2 MiB page, and otherwise clears NX. None when no frame is free or the table lies beyond 4 GiB. */
    method Descend(t: nat, d: nat, i: nat) returns (next: Option<nat>)
      requires Usable() && t < LIMIT && i < ENTRIES
      modifies this`mem, frames`chunks
      ensures Usable() && Step(mem, frames.Free(), next) == Follow(old(mem), old(frames.Free()), t, d, i)
      ensures next.Some? ==> next.value < LIMIT
    {
      hide Zeros, SplitWords;
      if !Present(mem[t][i]) {
        next := CreateTable(t, i);
        return;
      }
      if d == 2 && Large(mem[t][i]) {
        next := SplitPage(t, i);
        return;
      }
      mem := WithWord(mem, t, i, mem[t][i] % NX);
      if FrameOf(mem[t][i]) >= LIMIT {
        return None;
      }
      return Some(FrameOf(mem[t][i]));
    }

    /** The first three levels of map_page_64. */
    method ReachTable(pml4: nat, v: Path) returns (pt: Option<nat>)
      requires Usable() && pml4 < LIMIT && |v| == 4 && (forall d :: 0 <= d < 4 ==> v[d] < ENTRIES)
      modifies this`mem, frames`chunks
      ensures Usable() && Step(mem, frames.Free(), pt) == Reach(old(mem), old(frames.Free()), pml4, v)
      ensures pt.Some? ==> pt.value < LIMIT
    {
      hide Follow, ValidMemory;
      var pdpt := Descend(pml4, 0, v[0]);
      if pdpt == None {
        return None;
      }
      var pd := Descend(pdpt.value, 1, v[1]);
      if pd == None {
        return None;
      }
      pt := Descend(pd.value, 2, v[2]);
    }

    /** map_page_64, on memory as it is: the words written and the frames taken are those of MapResult. On a
        path whose words are what they seem, one 4 KiB page is mapped under the PML4 at pml4Phys. */
    method MapPage64(pml4Phys: nat, phys: nat, virt: nat, flags: nat) returns (r: int)
      requires Usable() && pml4Phys % PAGE == 0 && FrameOf(pml4Phys) < LIMIT
      modifies this`mem, frames`chunks
      ensures Usable() && (r == 0 || r == -1)
      ensures var s := MapResult(old(mem), old(frames.Free()), FrameOf(pml4Phys), PathOf(virt), LeafWord(phys, flags));
              mem == s.mem && frames.Free() == s.free && (r == 0 <==> s.table.Some?)
      ensures old(Valid()) && FrameOf(pml4Phys) in roots && PathOk(old(mem), FrameOf(pml4Phys), PathOf(virt)) ==>
                && Valid()
                && PageMapped(old(mem), mem, roots, old(frames.Free()), frames.Free(), FrameOf(pml4Phys), virt,
                              LeafWord(phys, flags), r == 0)
      ensures old(Valid()) && FrameOf(pml4Phys) in roots && PathOk(old(mem), FrameOf(pml4Phys), PathOf(virt)) && r == 0 ==>
                forall va: nat :: SamePage(va, virt) ==> Grants(AccessOf(mem, FrameOf(pml4Phys), va), phys, flags, va)
    {
      hide Reach, PathOk, ValidMemory, Sound, PageMapped, Grants, AccessOf, LeafWord;
      LeafWordMeaning(phys, flags);
      if old(Valid()) && FrameOf(pml4Phys) in roots && PathOk(old(mem), FrameOf(pml4Phys), PathOf(virt)) {
        GoodPathMapped(old(mem), old(frames.Free()), roots, FrameOf(pml4Phys), virt, LeafWord(phys, flags));
        MappedSound(old(mem), old(frames.Free()), roots, FrameOf(pml4Phys), virt, LeafWord(phys, flags));
        PageGranted(old(mem), old(frames.Free()), roots, FrameOf(pml4Phys), virt, phys, flags);
      }
      var v := PathOf(virt);
      var pt := ReachTable(pml4Phys / PAGE, v);
      if pt == None {
        return -1;
      }
      WordStays(mem, pt.value, v[3], LeafWord(phys, flags));
      mem := WithWord(mem, pt.value, v[3], LeafWord(phys, flags));
      return 0;
    }

    /** Copies all 512 words of frame u into frame n. */
    method CopyFrame(n: nat, u: nat)
      requires ValidMemory(mem) && n < LIMIT && u < LIMIT && n != u
      modifies this`mem
      ensures mem == old(mem)[n := old(mem)[u]]
    {
      var i := 0;
      while i < ENTRIES
        invariant 0 <= i <= ENTRIES && n in mem && |mem[n]| == ENTRIES && mem == old(mem)[n := mem[n]]
        invariant forall j :: 0 <= j < i ==> mem[n][j] == old(mem)[u][j]
      {
        mem := WithWord(mem, n, i, mem[u][i]);
        i := i + 1;
      }
      assert mem[n] == old(mem)[u];
    }

    /** Fills frame f with the 512 large-page entries of the g-th GiB. */
    method FillIdentity(f: nat, g: nat)
      requires ValidMemory(mem) && f < LIMIT
      modifies this`mem
      ensures f in mem && IdentityDirectory(mem[f], g) && mem == old(mem)[f := mem[f]]
    {
      var i := 0;
      while i < ENTRIES
        invariant 0 <= i <= ENTRIES && f in mem && |mem[f]| == ENTRIES && mem == old(mem)[f := mem[f]]
        invariant forall j :: 0 <= j < i ==> mem[f][j] == IdentityEntry(g, j)
      {
        mem := WithWord(mem, f, i, g * 0x4000_0000 + i * 0x20_0000 + 0x87);
        i := i + 1;
      }
    }

    /** The loop of paging64_init_kernel_pml4 over the first four GiB: fewer than four directories
        when frames run out. */
    method BuildIdentity(pdpt: nat) returns (pds: seq<nat>)
      requires frames.Valid() && ValidMemory(mem) && 0 < pdpt < LIMIT && pdpt !in frames.Free()
      requires forall f :: f in frames.Free() ==> 0 < f < LIMIT
      requires IdentityPdpt(mem, pdpt, [])
      modifies this`mem, frames`chunks
      ensures frames.Valid() && ValidMemory(mem) && frames.Free() <= old(frames.Free())
      ensures |pds| == if |old(frames.Free())| >= 4 then 4 else |old(frames.Free())|
      ensures IdentityPdpt(mem, pdpt, pds)
      ensures ChangesOnly(old(mem), mem, old(frames.Free()) + {pdpt})
      ensures forall g: nat :: g < |pds| ==> pds[g] in old(frames.Free()) && pds[g] !in frames.Free()
      ensures forall g: nat, h: nat :: g < h < |pds| ==> pds[g] != pds[h]
    {
      hide TableAt, AccessFrom, IdentityDirectory, IdentityPdpt, ChangesOnly, TakenFrames;
      ghost var free := frames.Free();
      pds := [];
      NoneTaken(mem, free, pdpt);
      while |pds| < 4
        invariant |pds| <= 4 && frames.Valid() && ValidMemory(mem) && TakenFrames(pds, free, frames.Free())
        invariant ChangesOnly(old(mem), mem, free + {pdpt})
        invariant IdentityPdpt(mem, pdpt, pds)
      {
        TakenFacts(pds, free, frames.Free());
        ghost var (before, left) := (mem, frames.Free());
        var pd := NextDirectory(pdpt, pds);
        if pd == None {
          return;
        }
        OneMoreTaken(pds, free, left, pd.value);
        ChangesTwice(old(mem), before, mem, free + {pdpt}, left + {pdpt});
        pds := pds + [pd.value];
      }
      TakenFacts(pds, free, frames.Free());
    }

    /** One more directory of the identity map; None when no frame is free. */
    method NextDirectory(pdpt: nat, pds: seq<nat>) returns (pd: Option<nat>)
      requires frames.Valid() && ValidMemory(mem) && 0 < pdpt < LIMIT && pdpt !in frames.Free() && |pds| < 4
      requires forall f :: f in frames.Free() ==> 0 < f < LIMIT
      requires IdentityPdpt(mem, pdpt, pds) && pdpt !in pds && forall g: nat :: g < |pds| ==> pds[g] !in frames.Free()
      modifies this`mem, frames`chunks
      ensures frames.Valid() && ValidMemory(mem) && ChangesOnly(old(mem), mem, old(frames.Free()) + {pdpt})
      ensures pd == None ==> old(frames.Free()) == {} && frames.Free() == {} && mem == old(mem)
      ensures pd != None ==>
                && pd.value in old(frames.Free()) && frames.Free() == old(frames.Free()) - {pd.value}
                && IdentityPdpt(mem, pdpt, pds + [pd.value])
    {
      hide TableAt, AccessFrom, IdentityDirectory, IdentityPdpt;
      var pdAddr := frames.AllocFrame();
      if pdAddr == 0 {
        return None;
      }
      pd := Some(pdAddr / PAGE);
      ghost var before := mem;
      FillIdentity(pd.value, |pds|);
      mem := WithWord(mem, pdpt, |pds|, pd.value * PAGE + PRESENT_RW_USER);
      AddDirectory(before, mem, pdpt, pds, pd.value);
    }

    /** The PDPT of the identity map and its directories, fewer than four when frames run out. */
    method BuildIdentityTables() returns (pdpt: nat, pds: seq<nat>)
      requires frames.Valid() && ValidMemory(mem)
      requires forall f :: f in frames.Free() ==> 0 < f < LIMIT
      modifies this`mem, frames`chunks
      ensures frames.Valid() && ValidMemory(mem) && frames.Free() <= old(frames.Free())
      ensures ChangesOnly(old(mem), mem, old(frames.Free()))
      ensures |pds| <= 4 && (|pds| == 4 <==> |old(frames.Free())| >= 5)
      ensures |pds| == 4 ==> pdpt in old(frames.Free()) && pdpt !in frames.Free() && IdentityPdpt(mem, pdpt, pds)
      ensures |pds| == 4 ==>
                forall g: nat :: g < 4 ==> pds[g] in old(frames.Free()) && pds[g] !in frames.Free() && pds[g] != pdpt
      ensures |pds| == 4 ==> forall g: nat, h: nat :: g < h < 4 ==> pds[g] != pds[h]
    {
      hide TableAt, AccessFrom, IdentityDirectory;
      var pdptAddr := frames.AllocFrame();
      if pdptAddr == 0 {
        return 0, [];
      }
      pdpt := pdptAddr / PAGE;
      assert frames.Free() == old(frames.Free()) - {pdpt};
      ZeroFrame(pdpt);
      pds := BuildIdentity(pdpt);
    }

    /** The allocations and writes of paging64_init_kernel_pml4: the physical address of the new
        PML4, or 0 when a frame is missing. Only frames that were free are written. */
    method BuildKernelTables(u: nat) returns (newPml4: nat, ghost pdpt: nat, ghost pds: seq<nat>)
      requires Consistent() && u < LIMIT && u !in frames.Free()
      modifies this`mem, frames`chunks
      ensures frames.Valid() && ValidMemory(mem) && frames.Free() <= old(frames.Free())
      ensures newPml4 != 0 <==> |old(frames.Free())| >= 6
      ensures ChangesOnly(old(mem), mem, old(frames.Free()))
      ensures newPml4 != 0 ==> newPml4 % PAGE == 0 && newPml4 / PAGE !in frames.Free() && pdpt !in frames.Free()
                               && KernelBuilt(old(mem), mem, old(frames.Free()), u, newPml4 / PAGE, pdpt, pds)
                               && forall g: nat :: g < 4 ==> pds[g] !in frames.Free()
    {
      hide TableAt, AccessFrom, KernelBuilt, IdentityPdpt;
      ghost var free := frames.Free();
      pdpt, pds := 0, [];
      newPml4 := frames.AllocFrame();
      if newPml4 == 0 {
        return;
      }
      var n: nat := newPml4 / PAGE;
      ghost var free1 := frames.Free();
      assert n in free && free1 == free - {n};
      assert |free1| == |free| - 1;
      CopyFrame(n, u);
      ghost var m1 := mem;
      assert frames.Free() == free1;
      var pdptFrame, directories := BuildIdentityTables();
      if |directories| < 4 {
        return 0, 0, [];
      }
      assert mem[n] == m1[n] == old(mem)[u];
      SlotSet(old(mem), mem, free, u, n, pdptFrame, directories);
      mem := WithWord(mem, n, 0, pdptFrame * PAGE + PRESENT_RW_USER);
      pdpt, pds := pdptFrame, directories;
    }

    /** paging64_init_kernel_pml4: replaces the firmware's PML4 by a copy whose slot 0 maps the low
        4 GiB to themselves. When a frame is missing the firmware's PML4 stays in use. */
    method InitKernelPml4(uefiCr3: nat)
      requires Valid() && kernelPml4 == 0 && uefiCr3 % PAGE == 0 && roots == {FrameOf(uefiCr3)}
      modifies this`mem, this`roots, this`kernelPml4, frames`chunks
      ensures Valid()
      ensures kernelPml4 != 0 <==> |old(frames.Free())| >= 6
      ensures kernelPml4 == 0 ==> roots == old(roots)
      ensures kernelPml4 != 0 ==>
                roots == {FrameOf(kernelPml4)} && KernelRoot(old(mem), mem, FrameOf(uefiCr3), FrameOf(kernelPml4))
      ensures SameWalks(old(mem), mem, old(roots))
    {
      RootsNotFree(mem, roots, frames.Free());
      ghost var free := frames.Free();
      ghost var u := FrameOf(uefiCr3);
      var newPml4, pdpt, pds := BuildKernelTables(uefiCr3 / PAGE);
      FreeFramesSound(old(mem), mem, roots, free, frames.Free());
      if newPml4 != 0 {
        KernelRootSound(old(mem), mem, free, frames.Free(), u, newPml4 / PAGE, pdpt, pds);
        kernelPml4, roots := newPml4, {newPml4 / PAGE};
      }
    }

    /** Zeroes the user slots of PML4 n and copies the others from PML4 k. */
    method FillUserRoot(n: nat, k: nat)
      requires ValidMemory(mem) && n < LIMIT && k < LIMIT && n != k
      modifies this`mem
      ensures ValidMemory(mem) && mem == old(mem)[n := mem[n]]
      ensures forall j :: 1 <= j < 256 ==> mem[n][j] == 0
      ensures forall j :: 256 <= j < ENTRIES ==> mem[n][j] == old(mem)[k][j]
      ensures mem[n][0] == old(mem)[k][0]
    {
      var i := 1;
      while i < 256
        invariant 1 <= i <= 256 && n in mem && |mem[n]| == ENTRIES && mem == old(mem)[n := mem[n]]
        invariant forall j :: 1 <= j < i ==> mem[n][j] == 0
      {
        mem := WithWord(mem, n, i, 0);
        i := i + 1;
      }
      while i < ENTRIES
        invariant 256 <= i <= ENTRIES && n in mem && |mem[n]| == ENTRIES && mem == old(mem)[n := mem[n]]
        invariant forall j :: 1 <= j < 256 ==> mem[n][j] == 0
        invariant forall j :: 256 <= j < i ==> mem[n][j] == old(mem)[k][j]
      {
        mem := WithWord(mem, n, i, mem[k][i]);
        i := i + 1;
      }
      mem := WithWord(mem, n, 0, mem[k][0]);
      assert mem == old(mem)[n := mem[n]];
    }

    /** paging64_create_user_pml4: the physical address of a new root, or 0. Slots 0 and 256..511
        are the kernel's, the user slots are empty. */
    method CreateUserPml4() returns (phys: nat)
      requires Valid()
      modifies this`mem, this`roots, frames`chunks
      ensures Valid()
      ensures phys == 0 <==> kernelPml4 == 0 || old(frames.Free()) == {}
      ensures phys == 0 ==> roots == old(roots)
      ensures phys != 0 ==> phys % PAGE == 0 && FrameOf(phys) !in old(roots) && roots == old(roots) + {FrameOf(phys)}
      ensures phys != 0 ==> UserRoot(old(mem), mem, FrameOf(kernelPml4), FrameOf(phys))
      ensures SameWalks(old(mem), mem, old(roots)) && KeepsPaths(old(mem), mem, old(roots))
      ensures KeepsSlots(old(mem), mem, old(roots))
    {
      if kernelPml4 == 0 {
        return 0;
      }
      phys := frames.AllocFrame();
      if phys == 0 {
        return 0;
      }
      var n := phys / PAGE;
      var k := kernelPml4 / PAGE;
      assert n in old(frames.Free());
      RootsNotFree(mem, roots, old(frames.Free()));
      FillUserRoot(n, k);
      UserRootSound(old(mem), mem, roots, old(frames.Free()), k, n);
      roots := roots + {n};
    }
  }
}
