/** load_segment of elf.c: a program segment read from a file into freshly mapped pages. */
module Elf {
  import opened Utils
  import opened Arith
  import opened FrameMaps
  import opened PageTables
  import opened Mapping
  import opened MapSteps
  import opened MappingRuns
  import opened AddressSpaces
  import opened Paging64

  const PT_LOAD: nat := 1

  datatype ProgramHeader = ProgramHeader(kind: nat, writable: bool, offset: nat, vaddr: nat, filesz: nat, memsz: nat)

  /** An open regular file: its bytes and a 32-bit cursor. */
  class OpenFile {
    const bytes: seq<Byte>
    var offset: nat

    constructor (bytes: seq<Byte>)
      ensures this.bytes == bytes && offset == 0
    {
      this.bytes, offset := bytes, 0;
    }

    /** vfs_lseek with SEEK_SET keeps the low 32 bits of the new offset. */
    method SeekSet(newOffset: nat)
      modifies this`offset
      ensures offset == newOffset % 0x1_0000_0000
    {
      offset := newOffset % 0x1_0000_0000;
    }

    /** vfs_read: up to len bytes from the cursor. */
    method Read(len: nat) returns (data: seq<Byte>)
      modifies this`offset
      ensures old(offset) >= |bytes| ==> data == [] && offset == old(offset)
      ensures old(offset) < |bytes| ==>
                data == bytes[old(offset)..if old(offset) + len < |bytes| then old(offset) + len else |bytes|]
                && offset == old(offset) + |data|
    {
      var avail := if |bytes| > offset then |bytes| - offset else 0;
      var toCopy := if len > avail then avail else len;
      data := [];
      var i := 0;
      ghost var start := offset;
      while i < toCopy
        invariant 0 <= i <= toCopy && offset == start && (i == 0 || start + i <= |bytes|)
        invariant data == if i == 0 then [] else bytes[start..start + i]
      {
        data := data + [bytes[offset + i]];
        i := i + 1;
      }
      offset := offset + toCopy;
    }
  }

  // ---------- bytes of physical memory ----------

  /** Byte j of a little-endian word. */
  function ByteOfWord(w: nat, j: nat): nat {
    if j == 0 then w % 0x100 else ByteOfWord(w / 0x100, j - 1)
  }

  function WordOfBytes(bytes: seq<Byte>): nat {
    if bytes == [] then 0 else bytes[0] + 0x100 * WordOfBytes(bytes[1..])
  }

  lemma {:induction false} WordRoundTrip(bytes: seq<Byte>, j: nat)
    requires j < |bytes|
    ensures ByteOfWord(WordOfBytes(bytes), j) == bytes[j]
  {
    assert WordOfBytes(bytes) / 0x100 == WordOfBytes(bytes[1..]);
    if j > 0 {
      WordRoundTrip(bytes[1..], j - 1);
    }
  }

  function PhysicalByte(m: Memory, pa: nat): nat {
    ByteOfWord(WordAt(m, pa / PAGE, pa % PAGE / 8), pa % 8)
  }

  /** The lowest byte of a word comes first. */
  lemma {:induction false} ByteOrder(m: Memory, f: nat, i: nat)
    requires i < ENTRIES
    ensures PhysicalByte(m, f * 0x1000 + 8 * i) == WordAt(m, f, i) % 0x100
    ensures PhysicalByte(m, f * 0x1000 + 8 * i + 1) == WordAt(m, f, i) / 0x100 % 0x100
  {
    var pa := f * 0x1000 + 8 * i;
    assert pa / PAGE == f && pa % PAGE == 8 * i && (pa + 1) / PAGE == f && (pa + 1) % PAGE == 8 * i + 1;
    assert pa % 8 == 0 && (pa + 1) % 8 == 1;
    assert ByteOfWord(WordAt(m, f, i), 1) == ByteOfWord(WordAt(m, f, i) / 0x100, 0);
  }

  /** The 512 words that 4096 bytes make. */
  function PageWords(page: seq<Byte>): (words: seq<nat>)
    requires |page| == PAGE
    ensures |words| == ENTRIES
  {
    seq(ENTRIES, i requires 0 <= i < ENTRIES => WordOfBytes(page[8 * i..8 * i + 8]))
  }

  /** Storing a page of bytes in a frame and reading its bytes back. */
  lemma {:induction false} PageRoundTrip(m: Memory, f: nat, page: seq<Byte>, j: nat)
    requires |page| == PAGE && f in m && m[f] == PageWords(page) && j < PAGE
    ensures PhysicalByte(m, f * PAGE + j) == page[j]
  {
    assert (f * PAGE + j) / PAGE == f && (f * PAGE + j) % PAGE == j && (f * PAGE + j) % 8 == j % 8;
    WordRoundTrip(page[j / 8 * 8..j / 8 * 8 + 8], j % 8);
  }

  /** The byte that a load from va sees under a root. */
  function ReadVirtual(m: Memory, root: nat, va: nat): Option<nat> {
    match Walk(m, root, va)
    case None => None
    case Some(pa) => Some(PhysicalByte(m, pa))
  }

  // ---------- loaded pages ----------

  /** virt's page is mapped with these flags to a private frame that holds these bytes. */
  ghost predicate PageHeld(m: Memory, roots: set<nat>, free: set<nat>, root: nat, virt: nat, page: seq<Byte>,
                           flags: nat) {
    |page| == PAGE && exists f :: HeldIn(m, roots, free, root, virt, page, flags, f)
  }

  ghost predicate HeldIn(m: Memory, roots: set<nat>, free: set<nat>, root: nat, virt: nat, page: seq<Byte>,
                         flags: nat, f: nat)
    requires |page| == PAGE
  {
    f in m && f !in free && !IsTable(m, roots, f) && MapsTo(m, root, virt, f * PAGE, flags) && m[f] == PageWords(page)
  }

  lemma {:induction false} HeldReads(m: Memory, roots: set<nat>, free: set<nat>, root: nat, virt: nat, page: seq<Byte>,
                                     flags: nat, j: nat)
    requires PageHeld(m, roots, free, root, virt, page, flags) && virt % PAGE == 0 && j < PAGE
    ensures ReadVirtual(m, root, virt + j) == Some(page[j])
  {
    var f :| HeldIn(m, roots, free, root, virt, page, flags, f);
    assert (virt + j) / PAGE == virt / PAGE && (virt + j) % PAGE == j;
    assert SamePage(virt + j, virt);
    PageRoundTrip(m, f, page, j);
  }

  lemma {:induction false} HeldKept(m: Memory, m': Memory, roots: set<nat>, free: set<nat>, free': set<nat>, root: nat,
                                    virt: nat, other: nat, page: seq<Byte>, flags: nat)
    requires PageHeld(m, roots, free, root, virt, page, flags) && root in roots && !SamePage(virt, other)
    requires OthersKeepWalks(m, m', roots, other) && KeepsData(m, m', roots, free) && free' <= free
    ensures PageHeld(m', roots, free', root, virt, page, flags)
  {
    var f :| HeldIn(m, roots, free, root, virt, page, flags, f);
    assert HeldIn(m', roots, free', root, virt, page, flags, f);
  }

  lemma {:induction false} PageBaseOfFrame(f: nat)
    requires f < LIMIT
    ensures PageBase(f * PAGE) == f * PAGE
  {
  }

  const ZERO_PAGE: seq<Byte> := seq(PAGE, _ => 0)

  /** A zero page with size file bytes at start. */
  function FilledPage(bytes: seq<Byte>, offset: nat, start: nat, size: nat): seq<Byte>
    requires start + size <= PAGE && (size > 0 ==> offset + size <= |bytes|)
  {
    seq(PAGE, j requires 0 <= j < PAGE => if start <= j < start + size then bytes[offset + j - start] else 0)
  }

  /** What every step of the loader keeps, apart from translations. */
  ghost predicate StepKeeps(m: Memory, m': Memory, roots: set<nat>, free: set<nat>, free': set<nat>) {
    KeepsPaths(m, m', roots) && KeepsData(m, m', roots, free) && free' <= free && KeepsRights(m, m', roots)
  }

  /** A frame that was free, filled and taken, ready to be mapped. */
  lemma {:induction false} FilledFrame(m: Memory, m': Memory, roots: set<nat>, free: set<nat>, f: nat)
    requires Sound(m, roots, free) && f in free && ValidMemory(m') && m' == m[f := m'[f]]
    ensures Sound(m', roots, free - {f}) && SameWalks(m, m', roots) && KeepsPaths(m, m', roots)
    ensures KeepsData(m, m', roots, free)
    ensures !IsTable(m', roots, f)
  {
    assert ChangesOnly(m, m', {f});
    FreeFramesSound(m, m', roots, free, free - {f});
    FreeFramesUnread(m, m', roots, free);
    forall g: nat | IsTable(m', roots, g)
      ensures IsTable(m, roots, g)
    {
      var r, q: Path :| r in roots && TableAt(m', r, q) == Some(g);
      assert TableAt(m, r, q) == Some(g);
    }
  }

  /** f is a frame taken from the allocator that is no table and holds these bytes. */
  ghost predicate Holds(m: Memory, roots: set<nat>, free: set<nat>, f: nat, page: seq<Byte>)
    requires |page| == PAGE
  {
    f < LIMIT && f in m && f !in free && !IsTable(m, roots, f) && m[f] == PageWords(page)
  }

  /** alloc_frame and memset: takes a free frame and zeroes it; None when no frame is free. */
  method NewPage(machine: Machine) returns (f: Option<nat>)
    requires machine.Valid()
    modifies machine`mem, machine.frames`chunks
    ensures machine.Valid()
    ensures StepKeeps(old(machine.mem), machine.mem, machine.roots, old(machine.frames.Free()), machine.frames.Free())
    ensures SameWalks(old(machine.mem), machine.mem, machine.roots)
    ensures f == None <==> old(machine.frames.Free()) == {}
    ensures f.Some? ==>
              f.value in old(machine.frames.Free()) && Holds(machine.mem, machine.roots, machine.frames.Free(), f.value, ZERO_PAGE)
  {
    var pagePhys := machine.frames.AllocFrame();
    if pagePhys == 0 {
      return None;
    }
    f := Some(pagePhys / PAGE);
    machine.mem := machine.mem[f.value := PageWords(ZERO_PAGE)];
    FilledFrame(old(machine.mem), machine.mem, machine.roots, old(machine.frames.Free()), f.value);
  }

  /** Overwrites the bytes of a frame in use. */
  method StorePage(machine: Machine, f: nat, page: seq<Byte>, ghost before: seq<Byte>)
    requires machine.Valid() && |page| == PAGE && |before| == PAGE
    requires Holds(machine.mem, machine.roots, machine.frames.Free(), f, before) && f > 0
    modifies machine`mem
    ensures machine.Valid() && SameWalks(old(machine.mem), machine.mem, machine.roots)
    ensures KeepsPaths(old(machine.mem), machine.mem, machine.roots)
    ensures KeepsData(old(machine.mem), machine.mem, machine.roots, machine.frames.Free() + {f})
    ensures Holds(machine.mem, machine.roots, machine.frames.Free(), f, page)
  {
    machine.mem := machine.mem[f := PageWords(page)];
    FilledFrame(old(machine.mem), machine.mem, machine.roots, machine.frames.Free() + {f}, f);
    assert machine.frames.Free() + {f} - {f} == machine.frames.Free();
  }

  /** vfs_read into a zeroed page; ok when all size bytes came. */
  method ReadInto(file: OpenFile, start: nat, size: nat) returns (page: seq<Byte>, ok: bool)
    requires start + size <= PAGE && size > 0
    modifies file`offset
    ensures |page| == PAGE
    ensures ok ==> file.offset == old(file.offset) + size && file.offset <= |file.bytes|
                   && page == FilledPage(file.bytes, old(file.offset), start, size)
  {
    var data := file.Read(size);
    page := ZERO_PAGE[..start] + data + ZERO_PAGE[start + |data|..];
    ok := |data| == size;
    if ok {
      assert page == FilledPage(file.bytes, old(file.offset), start, size);
    }
  }

  lemma {:induction false} UsableWhenValid(machine: Machine)
    requires machine.Valid()
    ensures machine.Usable() && forall r :: r in machine.roots ==> r < LIMIT
  {
  }

  /** Maps a filled frame at vaddr. */
  method MapFilled(machine: Machine, pml4Phys: nat, f: nat, vaddr: nat, flags: nat, ghost page: seq<Byte>)
    returns (r: int)
    requires machine.Valid() && pml4Phys % PAGE == 0 && FrameOf(pml4Phys) in machine.roots
    requires PathOk(machine.mem, FrameOf(pml4Phys), PathOf(vaddr)) && |page| == PAGE
    requires Holds(machine.mem, machine.roots, machine.frames.Free(), f, page) && Present(flags) && flags < PAGE
    modifies machine`mem, machine.frames`chunks
    ensures machine.Valid() && (r == 0 || r == -1)
    ensures OthersKeepWalks(old(machine.mem), machine.mem, machine.roots, vaddr)
    ensures StepKeeps(old(machine.mem), machine.mem, machine.roots, old(machine.frames.Free()), machine.frames.Free())
    ensures r == 0 ==> PageHeld(machine.mem, machine.roots, machine.frames.Free(), FrameOf(pml4Phys), vaddr, page, flags)
  {
    hide TableAt, AccessFrom, PageMapped, PathOk, LeafWord, OthersKeepWalks, StepKeeps, MapsTo, MapResult, Grants;
    UsableWhenValid(machine);
    ghost var (m, free) := (machine.mem, machine.frames.Free());
    r := machine.MapPage64(pml4Phys, f * PAGE, vaddr, flags);
    LeafWordMeaning(f * PAGE, flags);
    PageBaseOfFrame(f);
    MappedMeans(m, machine.mem, machine.roots, free, machine.frames.Free(), FrameOf(pml4Phys), vaddr,
                LeafWord(f * PAGE, flags), r == 0);
    if r == 0 {
      DataStays(m, machine.mem, machine.roots, free, machine.frames.Free(), f);
      assert HeldIn(machine.mem, machine.roots, machine.frames.Free(), FrameOf(pml4Phys), vaddr, page, flags, f);
    }
  }

  /** What a call of map_page_64 means to the loader. */
  lemma {:induction false} MappedMeans(m: Memory, m': Memory, roots: set<nat>, free: set<nat>, free': set<nat>,
                                       root: nat, virt: nat, e: nat, ok: bool)
    requires PageMapped(m, m', roots, free, free', root, virt, e, ok) && root in roots
    ensures OthersKeepWalks(m, m', roots, virt) && StepKeeps(m, m', roots, free, free')
    ensures ok ==> MapsTo(m', root, virt, PageOf(e), e % PAGE)
  {
    hide AccessOf, TableAt, PathOk, TablesNeeded, PathOf;
  }

  lemma {:induction false} DataStays(m: Memory, m': Memory, roots: set<nat>, free: set<nat>, free': set<nat>, f: nat)
    requires StepKeeps(m, m', roots, free, free') && f in m && f !in free && !IsTable(m, roots, f)
    ensures f in m' && f !in free' && !IsTable(m', roots, f) && m'[f] == m[f]
  {
    hide AccessOf, TableAt, PathOk, PathOf;
  }

  /** The steps of one round compose. */
  lemma {:induction false} RoundKeeps(m: Memory, m1: Memory, m2: Memory, m3: Memory, roots: set<nat>, free: set<nat>,
                                      free1: set<nat>, free3: set<nat>, f: nat, vaddr: nat)
    requires SameWalks(m, m1, roots) && SameWalks(m1, m2, roots) && OthersKeepWalks(m2, m3, roots, vaddr)
    requires f in free && StepKeeps(m, m1, roots, free, free1) && StepKeeps(m2, m3, roots, free1, free3)
    requires KeepsPaths(m1, m2, roots) && KeepsData(m1, m2, roots, free1 + {f})
    ensures OthersKeepWalks(m, m3, roots, vaddr) && StepKeeps(m, m3, roots, free, free3)
  {
  }

  /** One round of the loop: allocates and zeroes a frame, reads size file bytes to its offset start
      and maps it at vaddr. */
  method LoadPage(machine: Machine, file: OpenFile, pml4Phys: nat, vaddr: nat, start: nat, size: nat, flags: nat)
    returns (r: int)
    requires machine.Valid() && pml4Phys % PAGE == 0 && FrameOf(pml4Phys) in machine.roots
    requires PathOk(machine.mem, FrameOf(pml4Phys), PathOf(vaddr)) && start + size <= PAGE && Present(flags) && flags < PAGE
    modifies machine`mem, machine.frames`chunks, file`offset
    ensures machine.Valid() && (r == 0 || r == -1)
    ensures OthersKeepWalks(old(machine.mem), machine.mem, machine.roots, vaddr)
    ensures StepKeeps(old(machine.mem), machine.mem, machine.roots, old(machine.frames.Free()), machine.frames.Free())
    ensures r == 0 ==> file.offset == old(file.offset) + size && (size > 0 ==> file.offset <= |file.bytes|)
    ensures r == 0 ==> PageHeld(machine.mem, machine.roots, machine.frames.Free(), FrameOf(pml4Phys), vaddr,
                                FilledPage(file.bytes, old(file.offset), start, size), flags)
  {
    hide TableAt, AccessFrom;
    var f := NewPage(machine);
    if f == None {
      return -1;
    }
    var page := ZERO_PAGE;
    ghost var (m1, free1) := (machine.mem, machine.frames.Free());
    if size > 0 {
      var ok;
      page, ok := ReadInto(file, start, size);
      StorePage(machine, f.value, page, ZERO_PAGE);
      if !ok {
        RoundKeeps(old(machine.mem), m1, machine.mem, machine.mem, machine.roots, old(machine.frames.Free()), free1, free1,
                   f.value, vaddr);
        return -1;
      }
    } else {
      assert page == FilledPage(file.bytes, old(file.offset), start, size);
    }
    ghost var m2 := machine.mem;
    r := MapFilled(machine, pml4Phys, f.value, vaddr, flags, page);
    RoundKeeps(old(machine.mem), m1, m2, machine.mem, machine.roots, old(machine.frames.Free()), free1,
               machine.frames.Free(), f.value, vaddr);
  }

  // ---------- a whole segment ----------

  function PageCount(ph: ProgramHeader): nat { (ph.vaddr % PAGE + ph.memsz + PAGE - 1) / PAGE }

  function PageAddress(ph: ProgramHeader, i: nat): nat { ph.vaddr / PAGE * PAGE + i * PAGE }

  lemma {:induction false} PageAddressIs(ph: ProgramHeader, i: nat)
    ensures PageAddress(ph, i) == ph.vaddr / PAGE * PAGE + i * PAGE
  {
  }

  /** Offset in page i where file bytes go. */
  function StartIn(ph: ProgramHeader, i: nat): nat { if i == 0 then ph.vaddr % PAGE else 0 }

  /** File bytes that the pages before page i took. */
  function CopiedBefore(ph: ProgramHeader, i: nat): nat {
    if i == 0 then 0
    else if ph.filesz < i * PAGE - ph.vaddr % PAGE then ph.filesz
    else i * PAGE - ph.vaddr % PAGE
  }

  function SizeIn(ph: ProgramHeader, i: nat): nat {
    if CopiedBefore(ph, i) >= ph.filesz then 0
    else if ph.filesz - CopiedBefore(ph, i) > PAGE - StartIn(ph, i) then PAGE - StartIn(ph, i)
    else ph.filesz - CopiedBefore(ph, i)
  }

  /** The cursor that the seek before the loop leaves. */
  function FileStart(ph: ProgramHeader): nat { ph.offset % 0x1_0000_0000 }

  /** The flags of the segment's pages. */
  function FlagsOf(ph: ProgramHeader): nat { if ph.writable then 7 else 5 }

  ghost predicate FileCovers(bytes: seq<Byte>, ph: ProgramHeader, i: nat) {
    SizeIn(ph, i) > 0 ==> FileStart(ph) + CopiedBefore(ph, i) + SizeIn(ph, i) <= |bytes|
  }

  ghost function SegmentPage(bytes: seq<Byte>, ph: ProgramHeader, i: nat): seq<Byte> {
    if FileCovers(bytes, ph, i) then FilledPage(bytes, FileStart(ph) + CopiedBefore(ph, i), StartIn(ph, i), SizeIn(ph, i))
    else FilledPage([], 0, 0, 0)
  }

  /** Byte k of the segment in memory: the file's, then zeros. */
  function ImageByte(bytes: seq<Byte>, ph: ProgramHeader, k: nat): nat {
    if k < ph.filesz && FileStart(ph) + k < |bytes| then bytes[FileStart(ph) + k] else 0
  }

  /** Page i of a segment holds file byte k at position vaddr % 4096 + k, and zeros elsewhere. */
  lemma {:induction false} SegmentByte(bytes: seq<Byte>, ph: ProgramHeader, k: nat)
    requires FileCovers(bytes, ph, (ph.vaddr % PAGE + k) / PAGE)
    ensures k < ph.filesz ==> FileStart(ph) + k < |bytes|
    ensures SegmentPage(bytes, ph, (ph.vaddr % PAGE + k) / PAGE)[(ph.vaddr % PAGE + k) % PAGE]
            == ImageByte(bytes, ph, k)
  {
  }

  lemma {:induction false} PagesDistinct(ph: ProgramHeader, i: nat, j: nat)
    requires ph.vaddr + ph.memsz + PAGE <= 0x1_0000_0000_0000 && i < j < PageCount(ph)
    ensures !SamePage(PageAddress(ph, i), PageAddress(ph, j))
  {
    var b := ph.vaddr / PAGE;
    assert PageAddress(ph, i) / PAGE == b + i && PageAddress(ph, j) / PAGE == b + j;
    assert b + j < 0x10_0000_0000;
  }

  ghost predicate InSegment(ph: ProgramHeader, va: nat) {
    exists i: nat :: i < PageCount(ph) && SamePage(va, PageAddress(ph, i))
  }

  /** No translation outside the segment's pages differs. */
  ghost predicate OutsideKept(m: Memory, m': Memory, roots: set<nat>, ph: ProgramHeader) {
    forall s, va: nat :: s in roots && !InSegment(ph, va) ==> AccessOf(m', s, va) == AccessOf(m, s, va)
  }

  /** The first n pages of the segment are mapped and hold their bytes. */
  ghost predicate PagesLoaded(m: Memory, roots: set<nat>, free: set<nat>, root: nat, bytes: seq<Byte>,
                              ph: ProgramHeader, n: nat) {
    forall i: nat :: i < n ==>
      FileCovers(bytes, ph, i) && PageHeld(m, roots, free, root, PageAddress(ph, i), SegmentPage(bytes, ph, i), FlagsOf(ph))
  }

  /** What a reader of the new address space sees. */
  ghost predicate SegmentLoaded(m: Memory, root: nat, bytes: seq<Byte>, ph: ProgramHeader) {
    forall k: nat :: k < ph.memsz ==>
      && (k < ph.filesz ==> FileStart(ph) + k < |bytes|)
      && ReadVirtual(m, root, ph.vaddr + k) == Some(ImageByte(bytes, ph, k))
  }

  /** Every page of the segment is present and open to the user, and writable if and only if the header says so. */
  ghost predicate SegmentRights(m: Memory, root: nat, ph: ProgramHeader) {
    forall va: nat :: InSegment(ph, va) ==>
      var a := AccessOf(m, root, va);
      && a.address.Some? && a.flags < 8 && BitSet(a.flags, 0) && BitSet(a.flags, 2)
      && (BitSet(a.flags, 1) <==> ph.writable)
  }

  lemma {:induction false} PagesGrant(m: Memory, roots: set<nat>, free: set<nat>, root: nat, bytes: seq<Byte>,
                                      ph: ProgramHeader)
    requires PagesLoaded(m, roots, free, root, bytes, ph, PageCount(ph))
    ensures SegmentRights(m, root, ph)
  {
    hide AccessOf, SegmentPage;
    RightsOfFlags();
    forall va: nat | InSegment(ph, va)
      ensures AccessOf(m, root, va).address.Some? && AccessOf(m, root, va).flags == FlagsOf(ph)
    {
      var i: nat :| i < PageCount(ph) && SamePage(va, PageAddress(ph, i));
      var f :| HeldIn(m, roots, free, root, PageAddress(ph, i), SegmentPage(bytes, ph, i), FlagsOf(ph), f);
    }
  }

  lemma {:induction false} RightsOfFlags()
    ensures BitSet(7, 0) && BitSet(7, 1) && BitSet(7, 2) && BitSet(5, 0) && !BitSet(5, 1) && BitSet(5, 2)
  {
    assert BitSet(7, 2) == BitSet(3, 1) == BitSet(1, 0) && BitSet(7, 1) == BitSet(3, 0);
    assert BitSet(5, 2) == BitSet(2, 1) == BitSet(1, 0) && BitSet(5, 1) == BitSet(2, 0);
  }

  lemma {:induction false} PositionOf(ph: ProgramHeader, k: nat)
    requires k < ph.memsz
    ensures (ph.vaddr % PAGE + k) / PAGE < PageCount(ph)
    ensures PageAddress(ph, (ph.vaddr % PAGE + k) / PAGE) + (ph.vaddr % PAGE + k) % PAGE == ph.vaddr + k
  {
  }

  lemma {:induction false} ReadSegment(m: Memory, roots: set<nat>, free: set<nat>, root: nat, bytes: seq<Byte>,
                                       ph: ProgramHeader, k: nat, i: nat, j: nat)
    requires i == (ph.vaddr % PAGE + k) / PAGE && j == (ph.vaddr % PAGE + k) % PAGE
    requires FileCovers(bytes, ph, i) && PageHeld(m, roots, free, root, PageAddress(ph, i), SegmentPage(bytes, ph, i), FlagsOf(ph))
    requires PageAddress(ph, i) + j == ph.vaddr + k && PageAddress(ph, i) % PAGE == 0
    ensures k < ph.filesz ==> FileStart(ph) + k < |bytes|
    ensures ReadVirtual(m, root, ph.vaddr + k) == Some(ImageByte(bytes, ph, k))
  {
    SegmentByte(bytes, ph, k);
    HeldReads(m, roots, free, root, PageAddress(ph, i), SegmentPage(bytes, ph, i), FlagsOf(ph), j);
  }

  lemma {:induction false} PagesMakeSegment(m: Memory, roots: set<nat>, free: set<nat>, root: nat, bytes: seq<Byte>,
                                            ph: ProgramHeader)
    requires PagesLoaded(m, roots, free, root, bytes, ph, PageCount(ph))
    ensures SegmentLoaded(m, root, bytes, ph)
  {
    forall k: nat | k < ph.memsz
      ensures k < ph.filesz ==> FileStart(ph) + k < |bytes|
      ensures ReadVirtual(m, root, ph.vaddr + k) == Some(ImageByte(bytes, ph, k))
    {
      PositionOf(ph, k);
      ReadSegment(m, roots, free, root, bytes, ph, k, (ph.vaddr % PAGE + k) / PAGE, (ph.vaddr % PAGE + k) % PAGE);
    }
  }

  /** Progress of the loop after n pages, from memory m0 and free frames free0. */
  ghost predicate Progress(m0: Memory, m: Memory, roots: set<nat>, free0: set<nat>, free: set<nat>, root: nat,
                           bytes: seq<Byte>, ph: ProgramHeader, n: nat) {
    && PagesLoaded(m, roots, free, root, bytes, ph, n)
    && OutsideKept(m0, m, roots, ph) && StepKeeps(m0, m, roots, free0, free)
    && forall j: nat :: j < PageCount(ph) ==> PathOk(m, root, PathOf(PageAddress(ph, j)))
  }

  lemma {:induction false} PagesKept(m: Memory, m': Memory, roots: set<nat>, free: set<nat>, free': set<nat>,
                                     root: nat, bytes: seq<Byte>, ph: ProgramHeader, n: nat)
    requires ph.vaddr + ph.memsz + PAGE <= 0x1_0000_0000_0000 && n < PageCount(ph) && root in roots
    requires PagesLoaded(m, roots, free, root, bytes, ph, n)
    requires OthersKeepWalks(m, m', roots, PageAddress(ph, n)) && StepKeeps(m, m', roots, free, free')
    ensures PagesLoaded(m', roots, free', root, bytes, ph, n)
  {
    forall i: nat | i < n
      ensures PageHeld(m', roots, free', root, PageAddress(ph, i), SegmentPage(bytes, ph, i), FlagsOf(ph))
    {
      PagesDistinct(ph, i, n);
      HeldKept(m, m', roots, free, free', root, PageAddress(ph, i), PageAddress(ph, n), SegmentPage(bytes, ph, i),
               FlagsOf(ph));
    }
  }

  /** A round leaves everything outside its own page as it was. */
  lemma {:induction false} RoundProgress(m0: Memory, m: Memory, m': Memory, roots: set<nat>, free0: set<nat>,
                                         free: set<nat>, free': set<nat>, root: nat, bytes: seq<Byte>,
                                         ph: ProgramHeader, n: nat)
    requires ph.vaddr + ph.memsz + PAGE <= 0x1_0000_0000_0000 && n < PageCount(ph) && root in roots
    requires Progress(m0, m, roots, free0, free, root, bytes, ph, n)
    requires OthersKeepWalks(m, m', roots, PageAddress(ph, n)) && StepKeeps(m, m', roots, free, free')
    ensures Progress(m0, m', roots, free0, free', root, bytes, ph, n)
  {
    PagesKept(m, m', roots, free, free', root, bytes, ph, n);
    forall s, va: nat | s in roots && !InSegment(ph, va)
      ensures AccessOf(m', s, va) == AccessOf(m0, s, va)
    {
      assert !SamePage(va, PageAddress(ph, n));
    }
  }

  lemma {:induction false} StartProgress(m: Memory, roots: set<nat>, free: set<nat>, root: nat, bytes: seq<Byte>,
                                         ph: ProgramHeader)
    requires forall j: nat :: j < PageCount(ph) ==> PathOk(m, root, PathOf(PageAddress(ph, j)))
    ensures Progress(m, m, roots, free, free, root, bytes, ph, 0)
  {
  }

  lemma {:induction false} RoundDone(m0: Memory, m: Memory, roots: set<nat>, free0: set<nat>, free: set<nat>,
                                     root: nat, bytes: seq<Byte>, ph: ProgramHeader, n: nat)
    requires Progress(m0, m, roots, free0, free, root, bytes, ph, n)
    requires FileCovers(bytes, ph, n) && PageHeld(m, roots, free, root, PageAddress(ph, n), SegmentPage(bytes, ph, n), FlagsOf(ph))
    ensures Progress(m0, m, roots, free0, free, root, bytes, ph, n + 1)
  {
  }

  lemma {:induction false} PageOfSegment(bytes: seq<Byte>, ph: ProgramHeader, i: nat, cursor: nat, size: nat)
    requires size == SizeIn(ph, i) && StartIn(ph, i) + size <= PAGE
    requires size > 0 ==> cursor == FileStart(ph) + CopiedBefore(ph, i) && cursor + size <= |bytes|
    ensures FileCovers(bytes, ph, i) && SegmentPage(bytes, ph, i) == FilledPage(bytes, cursor, StartIn(ph, i), size)
  {
  }

  /** The loop's size of round i. */
  lemma {:induction false} RoundSize(ph: ProgramHeader, i: nat, copied: nat)
    requires copied == CopiedBefore(ph, i)
    ensures SizeIn(ph, i) == if ph.filesz > 0 && copied < ph.filesz
                             then if ph.filesz - copied > PAGE - StartIn(ph, i) then PAGE - StartIn(ph, i)
                                  else ph.filesz - copied
                             else 0
    ensures CopiedBefore(ph, i + 1) == CopiedBefore(ph, i) + SizeIn(ph, i)
    ensures StartIn(ph, i) + SizeIn(ph, i) <= PAGE
  {
  }

  /** load_segment: 0 when the header needs no loading or the whole segment is in place. */
  method LoadSegment(machine: Machine, file: OpenFile, ph: ProgramHeader, pml4Phys: nat) returns (r: int)
    requires machine.Valid() && pml4Phys % PAGE == 0 && FrameOf(pml4Phys) in machine.roots
    requires ph.vaddr + ph.memsz + PAGE <= 0x1_0000_0000_0000
    requires forall i: nat :: i < PageCount(ph) ==> PathOk(machine.mem, FrameOf(pml4Phys), PathOf(PageAddress(ph, i)))
    modifies machine`mem, machine.frames`chunks, file`offset
    ensures machine.Valid() && (r == 0 || r == -1)
    ensures ph.kind != 1 ==> r == 0 && machine.mem == old(machine.mem)
    ensures r == 0 && ph.kind == 1 ==> SegmentLoaded(machine.mem, FrameOf(pml4Phys), file.bytes, ph)
    ensures r == 0 && ph.kind == 1 ==> SegmentRights(machine.mem, FrameOf(pml4Phys), ph)
    ensures OutsideKept(old(machine.mem), machine.mem, machine.roots, ph)
    ensures StepKeeps(old(machine.mem), machine.mem, machine.roots, old(machine.frames.Free()), machine.frames.Free())
  {
    hide TableAt, AccessFrom, PathOf, PathOk;
    if ph.kind != PT_LOAD {
      return 0;
    }
    StartProgress(machine.mem, machine.roots, machine.frames.Free(), FrameOf(pml4Phys), file.bytes, ph);
    assert CopiedBefore(ph, 0) == 0;
    hide PagesLoaded, OutsideKept, KeepsPaths, KeepsData, KeepsRights, SegmentRights, CopiedBefore, SizeIn, FileCovers, SegmentPage, FilledPage,
      PageHeld, PageAddress;
    var base := ph.vaddr / PAGE * PAGE;
    var start := ph.vaddr % PAGE;
    var pages := (start + ph.memsz + PAGE - 1) / PAGE;
    var flags := if ph.writable then 7 else 5;
    if ph.filesz > 0 {
      file.SeekSet(ph.offset);
    }
    var copied := 0;
    var i := 0;
    while i < pages
      invariant 0 <= i <= pages && machine.Valid() && copied == CopiedBefore(ph, i)
      invariant ph.filesz > 0 ==> file.offset == FileStart(ph) + copied
      invariant Progress(old(machine.mem), machine.mem, machine.roots, old(machine.frames.Free()), machine.frames.Free(),
                         FrameOf(pml4Phys), file.bytes, ph, i)
    {
      RoundSize(ph, i, copied);
      var offset := if i == 0 then start else 0;
      var size := 0;
      if ph.filesz > 0 && copied < ph.filesz {
        size := if ph.filesz - copied > PAGE - offset then PAGE - offset else ph.filesz - copied;
      }
      assert offset == StartIn(ph, i) && size == SizeIn(ph, i);
      ghost var (m, free, cursor) := (machine.mem, machine.frames.Free(), file.offset);
      var vaddr := base + i * PAGE;
      PageAddressIs(ph, i);
      assert PathOk(machine.mem, FrameOf(pml4Phys), PathOf(PageAddress(ph, i)));
      r := LoadPage(machine, file, pml4Phys, vaddr, offset, size, flags);
      RoundProgress(old(machine.mem), m, machine.mem, machine.roots, old(machine.frames.Free()), free, machine.frames.Free(),
                    FrameOf(pml4Phys), file.bytes, ph, i);
      if r != 0 {
        return -1;
      }
      PageOfSegment(file.bytes, ph, i, cursor, size);
      RoundDone(old(machine.mem), machine.mem, machine.roots, old(machine.frames.Free()), machine.frames.Free(),
                FrameOf(pml4Phys), file.bytes, ph, i);
      copied := copied + size;
      i := i + 1;
    }
    PagesGrant(machine.mem, machine.roots, machine.frames.Free(), FrameOf(pml4Phys), file.bytes, ph);
    PagesMakeSegment(machine.mem, machine.roots, machine.frames.Free(), FrameOf(pml4Phys), file.bytes, ph);
    return 0;
  }
}
