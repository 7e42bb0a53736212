/** paging.c in identity mode: mapping and unmapping pages of a 32-bit directory. */
module Paging32 {
  import opened Utils
  import opened Arith
  import opened Directories
  import opened FrameMaps

  const ADDRESSES: nat := 0x1_0000_0000

  /** The word of a mapped page: the present bit is always set. */
  function EntryWord(phys: nat, flags: nat): nat {
    phys / 0x1000 * 0x1000 + (if flags % 2 == 0 then flags + 1 else flags) % 0x1000
  }

  /** Bit by bit: bit 0 is set, bits 1 to 11 are those of the flags, and from bit 12 on those of the address. */
  lemma {:induction false} EntryBits(phys: nat, flags: nat, k: nat)
    ensures BitSet(EntryWord(phys, flags), k) <==> k == 0 || (if k < 12 then BitSet(flags, k) else BitSet(phys, k))
  {
    hide EntryWord;
    var low := if flags % 2 == 0 then flags + 1 else flags;
    EntryParts(phys, flags);
    JoinedBits(EntryWord(phys, flags), k);
    JoinedBits(phys, k);
    JoinedBits(low, k);
    if 0 < k < 12 {
      assert low / 2 == flags / 2;
      assert BitSet(low, k) == BitSet(flags, k);
    }
  }

  lemma {:induction false} EntryParts(phys: nat, flags: nat)
    ensures EntryWord(phys, flags) / 0x1000 == phys / 0x1000
    ensures EntryWord(phys, flags) % 0x1000 == (if flags % 2 == 0 then flags + 1 else flags) % 0x1000
  {
    DivUnique(EntryWord(phys, flags), 0x1000, phys / 0x1000, (if flags % 2 == 0 then flags + 1 else flags) % 0x1000);
  }

  lemma {:induction false} JoinedBits(n: nat, k: nat)
    ensures BitSet(n, k) == if k < 12 then BitSet(n % 0x1000, k) else BitSet(n / 0x1000, k - 12)
  {
    assert Pow2(12) == 0x1000;
    DivMod(n, 0x1000);
    BitsJoin(n / 0x1000, n % 0x1000, 12, k);
  }

  class Pager {
    var mem: Memory
    const frames: FrameMap

    constructor (mem: Memory, frames: FrameMap)
      ensures this.mem == mem && this.frames == frames
    {
      this.mem, this.frames := mem, frames;
    }

    ghost function ManagedFrames(): set<nat>
      reads frames
    {
      set f: nat | frames.startFrame <= f < frames.startFrame + frames.frames && frames.Managed(f)
    }

    /** The address space of the directory in frame pd. */
    ghost function At(pd: nat): Space
      reads this, frames
      requires frames.Valid()
    {
      Space(mem, pd, ManagedFrames(), frames.Free())
    }

    /** Memory allocation, and the caller's directory, in good order. */
    ghost predicate Valid(pd: nat)
      reads this, frames
    {
      frames.Valid() && Ok(At(pd))
    }

    /** alloc_page_table: the address of a zeroed frame, or 0. */
    method AllocPageTable(ghost pd: nat) returns (phys: nat, ghost f: nat)
      requires Valid(pd)
      modifies this`mem, frames`chunks
      ensures frames.Valid() && (phys == 0 <==> old(At(pd)).free == {})
      ensures phys == 0 ==> At(pd) == old(At(pd))
      ensures phys != 0 ==> f in old(At(pd)).free && phys == f * 0x1000 && f < PAGES
                            && At(pd) == old(At(pd)).(mem := old(mem)[f := Zeros(WORDS)], free := old(At(pd)).free - {f})
    {
      f := 0;
      phys := frames.AllocFrame();
      assert ManagedFrames() == old(ManagedFrames());
      if phys == 0 {
        return;
      }
      f := phys / 0x1000;
      mem := mem[phys / 0x1000 := Zeros(WORDS)];
    }

    /** map_page_pd: fails, changing nothing, exactly when a table is needed and no frame is free. */
    method MapPagePd(pdPhys: nat, phys: nat, virt: nat, flags: nat) returns (r: int, ghost f: nat)
      requires 0 < pdPhys && pdPhys % 0x1000 == 0 && Valid(pdPhys / 0x1000)
      requires phys < ADDRESSES && virt < ADDRESSES && flags < ADDRESSES
      modifies this`mem, frames`chunks
      ensures Valid(pdPhys / 0x1000) && (r == 0 || r == -1)
      ensures r == -1 <==> !HasTable(old(At(pdPhys / 0x1000)), virt / 0x1000 / WORDS) && old(At(pdPhys / 0x1000)).free == {}
      ensures r == -1 ==> At(pdPhys / 0x1000) == old(At(pdPhys / 0x1000))
      ensures r == 0 ==>
                var s := old(At(pdPhys / 0x1000));
                && f != s.pd && (!HasTable(s, virt / 0x1000 / WORDS) ==> f in s.free)
                && (HasTable(s, virt / 0x1000 / WORDS) ==> TableOk(s, virt / 0x1000 / WORDS))
                && At(pdPhys / 0x1000) == MapWord(s, virt / 0x1000, EntryWord(phys, flags), f)
    {
      hide Ok, TableOk, ManagedFrames, Zeros, EntryWord;
      ghost var (pd, s) := (pdPhys / 0x1000, At(pdPhys / 0x1000));
      OkFacts(s, virt / 0x1000 / WORDS);
      var pdIdx := virt / 0x40_0000 % WORDS;
      var ptIdx := virt / 0x1000 % WORDS;
      AddressParts(virt);
      EntryPresent(phys, flags);
      var pde := mem[pdPhys / 0x1000][pdIdx];
      var pt;
      f := pd + 1;
      if !Present(pde) {
        var table;
        table, f := AllocPageTable(pd);
        if table == 0 {
          return -1, f;
        }
        MapNewTable(s, virt / 0x1000, EntryWord(phys, flags), f);
        mem := WithWord(mem, pdPhys / 0x1000, pdIdx, table / 0x1000 * 0x1000 + TABLE_FLAGS);
        pt := table / 0x1000;
      } else {
        MapInTable(s, virt / 0x1000, EntryWord(phys, flags), f);
        pt := pde / 0x1000;
      }
      mem := WithWord(mem, pt, ptIdx, EntryWord(phys, flags));
      r := 0;
    }

    lemma {:induction false} EntryPresent(phys: nat, flags: nat)
      ensures Present(EntryWord(phys, flags))
    {
    }

    lemma {:induction false} OkFacts(s: Space, j: nat)
      requires Ok(s)
      ensures Whole(s.mem, s.pd) && s.pd !in s.free && (HasTable(s, j) ==> TableOk(s, j) && Whole(s.mem, Table(s, j)))
      ensures HasTable(s, j) ==> Table(s, j) != s.pd && Table(s, j) in s.managed && 0 < Table(s, j) < PAGES
    {
    }

    lemma {:induction false} AddressParts(virt: nat)
      requires virt < ADDRESSES
      ensures virt / 0x40_0000 % WORDS == virt / 0x1000 / WORDS < WORDS && virt / 0x1000 < PAGES
    {
    }

    /** unmap_page_pd: fails, changing nothing, exactly when the page is not mapped. */
    method UnmapPagePd(pdPhys: nat, virt: nat) returns (r: int)
      requires 0 < pdPhys && pdPhys % 0x1000 == 0 && Valid(pdPhys / 0x1000) && virt < ADDRESSES
      modifies this`mem, frames`chunks
      ensures Valid(pdPhys / 0x1000) && (r == 0 || r == -1)
      ensures r == -1 <==> !Present(Entry(old(At(pdPhys / 0x1000)), virt / 0x1000))
      ensures r == -1 ==> At(pdPhys / 0x1000) == old(At(pdPhys / 0x1000))
      ensures r == 0 ==>
                var s := old(At(pdPhys / 0x1000));
                && HasTable(s, virt / 0x1000 / WORDS) && TableOk(s, virt / 0x1000 / WORDS)
                && At(pdPhys / 0x1000) == UnmapWord(s, virt / 0x1000)
    {
      hide Ok, TableOk, Used;
      ghost var (pd, s) := (pdPhys / 0x1000, At(pdPhys / 0x1000));
      OkFacts(s, virt / 0x1000 / WORDS);
      var pdIdx := virt / 0x40_0000 % WORDS;
      var ptIdx := virt / 0x1000 % WORDS;
      AddressParts(virt);
      var pde := mem[pdPhys / 0x1000][pdIdx];
      if !Present(pde) {
        return -1;
      }
      var pt := pde / 0x1000;
      if !Present(mem[pt][ptIdx]) {
        return -1;
      }
      UnmapOk(s, virt / 0x1000);
      mem := WithWord(mem, pt, ptIdx, 0);
      var empty := IsEmpty(pt);
      if empty {
        assert pt in ManagedFrames();
        DropTable(pdPhys / 0x1000, pdIdx, pt);
      }
      r := 0;
    }

    /** Clears the directory entry of a table and frees its frame. */
    method DropTable(pd: nat, j: nat, pt: nat)
      requires frames.Valid() && Whole(mem, pd) && j < WORDS && 0 < pt && pt in ManagedFrames()
      modifies this`mem, frames`chunks
      ensures frames.Valid() && ManagedFrames() == old(ManagedFrames())
      ensures mem == WithWord(old(mem), pd, j, 0) && frames.Free() == old(frames.Free()) + {pt}
    {
      mem := WithWord(mem, pd, j, 0);
      frames.FreeFrame(pt * 0x1000);
      assert frames.Managed(pt);
    }

    method IsEmpty(pt: nat) returns (empty: bool)
      requires Whole(mem, pt)
      ensures empty <==> !Used(mem, pt)
    {
      var i := 0;
      while i < WORDS
        invariant i <= WORDS && forall k: nat :: k < i ==> !Present(Word(mem, pt, k))
      {
        if Present(mem[pt][i]) {
          assert Present(Word(mem, pt, i));
          return false;
        }
        i := i + 1;
      }
      return true;
    }
  }
}
