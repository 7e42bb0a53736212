/** What each step of map_page_64 does to the translations of all address spaces. */
module Mapping {
  import opened Utils
  import opened FrameMaps
  import opened PageTables
  import opened Arith

  const ZEROS: seq<nat> := Zeros(ENTRIES)

  // ---------- what a mapping needs and keeps ----------

  /** A present entry the mapper may pass through: no 1 GiB page, and no NX bit on a table entry. */
  predicate EntryOk(e: nat, d: nat) {
    Present(e) ==> if IsLeaf(e, d) then d != 1 else e < NX
  }

  ghost predicate PathOk(m: Memory, root: nat, p: Path)
    requires |p| == 4
  {
    forall d: nat :: d < 3 && TableAt(m, root, p[..d]).Some? ==>
        EntryOk(WordAt(m, TableAt(m, root, p[..d]).value, p[d]), d)
  }

  /** How many tables a mapping along p must allocate below table t at depth d; None when an
      entry names a table at or above 4 GiB, which the kernel cannot reach. */
  function TablesNeeded(m: Memory, t: nat, d: nat, p: Path): Option<nat>
    requires |p| == 4 && d <= 3
    decreases 3 - d
  {
    if d == 3 then Some(0)
    else
      var e := WordAt(m, t, p[d]);
      if LinksTable(e, d) then TablesNeeded(m, FrameOf(e), d + 1, p)
      else if Present(e) && !IsLeaf(e, d) then None
      else Some(3 - d)
  }

  /** Are there enough free frames for the tables needed? */
  predicate Enough(needed: Option<nat>, available: nat) {
    needed.Some? && needed.value <= available
  }

  lemma {:induction false} NeededBelowNew(m: Memory, n: nat, d: nat, v: Path)
    requires |v| == 4 && d < 3 && (d < 2 ==> forall j :: WordAt(m, n, j) == 0)
    ensures TablesNeeded(m, n, d + 1, v) == Some(2 - d)
  {
    if d < 2 {
      assert WordAt(m, n, v[d + 1]) == 0;
    }
  }

  ghost predicate SameWalks(m: Memory, m': Memory, roots: set<nat>) {
    forall r, va: nat :: r in roots ==> AccessOf(m', r, va) == AccessOf(m, r, va)
  }

  ghost predicate KeepsPaths(m: Memory, m': Memory, roots: set<nat>) {
    forall r, p: Path :: r in roots && |p| == 4 && PathOk(m, r, p) ==> PathOk(m', r, p)
  }

  /** Frames that are neither free nor tables keep their contents and do not become tables. */
  ghost predicate KeepsData(m: Memory, m': Memory, roots: set<nat>, free: set<nat>) {
    forall f :: f in m && f !in free && !IsTable(m, roots, f) ==> f in m' && m'[f] == m[f] && !IsTable(m', roots, f)
  }

  /** The words of a table that maps the 2 MiB page of entry e in 4 KiB pieces. */
  function SplitWord(e: nat, i: nat): nat {
    var base := e / 0x20_0000 * 0x20_0000;
    var flags := e % PAGE;
    (base + i * PAGE) / PAGE * PAGE + (if Large(flags) then flags - 0x80 else flags)
  }

  ghost predicate SplitsInto(e: nat, words: seq<nat>) {
    |words| == ENTRIES && forall j :: 0 <= j < ENTRIES ==> words[j] == SplitWord(e, j)
  }

  lemma {:induction false} SplitWordMeaning(e: nat, va: nat)
    requires Present(e)
    ensures Present(SplitWord(e, Index(va, 3)))
    ensures LeafAddress(SplitWord(e, Index(va, 3)), 3, va) == LeafAddress(e, 2, va)
    ensures Large(e) ==> LeafFlags(SplitWord(e, Index(va, 3)), 3) == LeafFlags(e, 2)
  {
    hide LeafFlags, SplitWord;
    var i := Index(va, 3);
    var rest := e % PAGE - (if Large(e % PAGE) then 0x80 else 0);
    var k := e / 0x20_0000 * 512 + i;
    SplitWordShape(e, i);
    assert SplitWord(e, i) == k * PAGE + rest;
    PageOffset(k, rest);
    PresentRest(e, rest);
    if Large(e) {
      FlagsWithoutPs(e);
      SmallFlags(SplitWord(e, i));
    }
    OffsetInLarge(va);
  }

  lemma {:induction false} PresentRest(e: nat, rest: nat)
    requires rest == e % PAGE - if Large(e % PAGE) then 0x80 else 0
    ensures Present(rest) == Present(e)
  {
    var (q, r) := (e / PAGE, e % PAGE);
    DivUnique(e, 2, q * 0x800 + r / 2, r % 2);
    if Large(r) {
      DivUnique(rest, 2, r / 2 - 0x40, r % 2);
    }
  }

  lemma {:induction false} SmallFlags(e: nat)
    ensures LeafFlags(e, 3) == e % PAGE
  {
  }

  lemma {:induction false} OffsetInLarge(va: nat)
    ensures va % 0x20_0000 == Index(va, 3) * PAGE + va % PAGE
  {
    assert va / PAGE / 512 == va / 0x20_0000;
  }

  lemma {:induction false} FlagsWithoutPs(e: nat)
    requires Large(e)
    ensures Large(e % PAGE) && e % PAGE - 0x80 == LeafFlags(e, 2)
  {
    var (q, r) := (e / PAGE, e % PAGE);
    var (a, b) := (r / 0x100, r % 0x100);
    DivUnique(e, 0x100, q * 0x10 + a, b);
    DivUnique(q * 0x10 + a, 0x10, q, a);
    DivUnique(e, 0x80, q * 0x20 + a * 2 + b / 0x80, b % 0x80);
    DivUnique(r, 0x80, a * 2 + b / 0x80, b % 0x80);
    DivUnique(q * 0x20 + a * 2 + b / 0x80, 2, q * 0x10 + a, b / 0x80);
  }

  lemma {:induction false} SplitWordShape(e: nat, i: nat)
    requires i < ENTRIES
    ensures SplitWord(e, i) == (e / 0x20_0000 * 512 + i) * PAGE + e % PAGE - (if Large(e % PAGE) then 0x80 else 0)
    ensures Large(e % PAGE) ==> e % PAGE >= 0x80
  {
    var q := e / 0x20_0000;
    assert (q * 0x20_0000 + i * PAGE) == (q * 512 + i) * PAGE;
  }

  lemma {:induction false} PageOffset(k: nat, rest: nat)
    requires rest < PAGE
    ensures (k * PAGE + rest) / PAGE == k && (k * PAGE + rest) % PAGE == rest
    ensures Present(k * PAGE + rest) == Present(rest)
  {
  }

  /** The word n * 4096 | 7 names table n. */
  lemma {:induction false} TableWord(n: nat, d: nat)
    requires n < LIMIT && d < 3
    ensures var e := n * PAGE + PRESENT_RW_USER;
            LinksTable(e, d) && FrameOf(e) == n && Present(e) && !IsLeaf(e, d) && e < NX && Writable(e) && User(e)
  {
  }

  /** Attaching a table that reads like the word it replaces changes no translation. */
  lemma {:induction false} AttachEffects(m: Memory, m': Memory, roots: set<nat>, r0: nat, p: Path, t: nat, i: nat,
                                         n: nat)
    requires Unshared(m, roots) && r0 in roots && TableAt(m, r0, p) == Some(t)
    requires Attaches(m, m', roots, p, t, i, n)
    requires WordAt(m', t, i) < NX
    requires forall j :: |p| < 2 ==> !Present(WordAt(m', n, j))
    requires forall va: nat :: Index(va, |p|) == i ==> AccessFrom(m', t, |p|, va) == AccessFrom(m, t, |p|, va)
    ensures SameWalks(m, m', roots)
    ensures KeepsPaths(m, m', roots)
  {
    AttachTable(m, m', roots, r0, p, t, i, n);
    forall r, va: nat | r in roots
      ensures AccessOf(m', r, va) == AccessOf(m, r, va)
    {
      if r < LIMIT {
        assert PathOf(va)[..0] == [];
        WalkBeside(m, m', roots, r0, p, t, i, r, va, r, 0);
      }
    }
    forall r, q: Path | r in roots && |q| == 4 && PathOk(m, r, q)
      ensures PathOk(m', r, q)
    {
      forall d: nat | d < 3 && TableAt(m', r, q[..d]).Some?
        ensures EntryOk(WordAt(m', TableAt(m', r, q[..d]).value, q[d]), d)
      {
        var f := TableAt(m', r, q[..d]).value;
        if f == n {
          assert IsTable(m, roots, n) || q[..d] == p + [i];
        } else {
          assert TableAt(m, r, q[..d]) == Some(f);
          assert IsTable(m, roots, f);
        }
      }
    }
  }

  /** Memory after table t's word i is made to name frame n, whose contents are the given words. */
  function WithTable(m: Memory, t: nat, i: nat, n: nat, words: seq<nat>): Memory {
    WithWord(m[n := words], t, i, n * PAGE + PRESENT_RW_USER)
  }

  /** Memory and allocator agree: no table lies in a free frame, and no table is shared. */
  ghost predicate Sound(m: Memory, roots: set<nat>, free: set<nat>) {
    && ValidMemory(m) && Unshared(m, roots)
    && (forall f :: IsTable(m, roots, f) ==> f !in free)
    && (forall r :: r in roots ==> r < LIMIT)
    && (forall f :: f in free ==> 0 < f < LIMIT)
  }

  /** PML4 words that name a table keep naming it. */
  ghost predicate KeepsSlots(m: Memory, m': Memory, roots: set<nat>) {
    forall r, j: nat :: r in roots && LinksTable(WordAt(m, r, j), 0) ==> WordAt(m', r, j) == WordAt(m, r, j)
  }

  /** A PML4 word edit that keeps the linked slots of all roots. */
  lemma {:induction false} EditKeepsSlots(m: Memory, m': Memory, roots: set<nat>, r0: nat, p: Path, t: nat, i: nat)
    requires Unshared(m, roots) && r0 in roots && TableAt(m, r0, p) == Some(t) && EditsWord(m, m', roots, t, i)
    requires p != [] || !LinksTable(WordAt(m, t, i), 0)
    requires forall r :: r in roots ==> r < LIMIT
    ensures KeepsSlots(m, m', roots)
  {
    forall r, j: nat | r in roots && LinksTable(WordAt(m, r, j), 0)
      ensures WordAt(m', r, j) == WordAt(m, r, j)
    {
      assert TableAt(m, r, []) == Some(r);
      assert IsTable(m, roots, r);
    }
  }

  /** Both roots name the same table in this slot. */
  ghost predicate SharesSlot(m: Memory, r: nat, s: nat, slot: nat) {
    LinksTable(WordAt(m, r, slot), 0) && WordAt(m, s, slot) == WordAt(m, r, slot)
  }

  /** Roots whose PML4 words agree at an address's slot translate the address alike. */
  lemma {:induction false} SharedSlotWalks(m: Memory, r: nat, s: nat, va: nat)
    requires r < LIMIT && s < LIMIT && WordAt(m, r, Index(va, 0)) == WordAt(m, s, Index(va, 0))
    ensures AccessOf(m, r, va) == AccessOf(m, s, va)
  {
  }

  lemma {:induction false} RootsNotFree(m: Memory, roots: set<nat>, free: set<nat>)
    requires Sound(m, roots, free)
    ensures roots !! free
  {
    forall r | r in roots
      ensures r !in free
    {
      assert TableAt(m, r, []) == Some(r);
      assert IsTable(m, roots, r);
    }
  }

  /** A change of memory and free set that no walk can tell. */
  ghost predicate Invisible(m: Memory, m': Memory, roots: set<nat>, free: set<nat>, free': set<nat>) {
    && Sound(m', roots, free') && free' <= free
    && SameWalks(m, m', roots) && KeepsPaths(m, m', roots) && KeepsSlots(m, m', roots) && KeepsData(m, m', roots, free)
  }

  lemma {:induction false} InvisibleTwice(m: Memory, m1: Memory, m2: Memory, roots: set<nat>, free: set<nat>,
                                          free1: set<nat>, free2: set<nat>)
    requires Invisible(m, m1, roots, free, free1) && Invisible(m1, m2, roots, free1, free2)
    ensures Invisible(m, m2, roots, free, free2)
  {
  }

  /** What creating the table at path p + [i] in free frame n does. */
  ghost predicate Created(m: Memory, m': Memory, roots: set<nat>, free: set<nat>, root: nat, p: Path, i: nat, n: nat) {
    Invisible(m, m', roots, free, free - {n}) && TableAt(m', root, p + [i]) == Some(n)
  }

  lemma {:induction false} AttachSound(m: Memory, m': Memory, roots: set<nat>, free: set<nat>, r0: nat, p: Path,
                                       t: nat, i: nat, n: nat, words: seq<nat>)
    requires Sound(m, roots, free) && r0 in roots && TableAt(m, r0, p) == Some(t) && t in m && i < ENTRIES
    requires n in free && |words| == ENTRIES && m' == WithTable(m, t, i, n, words)
    requires Attaches(m, m', roots, p, t, i, n)
    ensures Sound(m', roots, free - {n}) && KeepsData(m, m', roots, free) && TableAt(m', r0, p + [i]) == Some(n)
  {
    assert IsTable(m, roots, t);
    AttachTable(m, m', roots, r0, p, t, i, n);
  }

  lemma {:induction false} CreatedBy(m: Memory, m': Memory, roots: set<nat>, free: set<nat>, r0: nat, p: Path, t: nat,
                                     i: nat, n: nat, words: seq<nat>)
    requires Sound(m, roots, free) && r0 in roots && TableAt(m, r0, p) == Some(t) && t in m && i < ENTRIES
    requires n in free && |words| == ENTRIES && m' == WithTable(m, t, i, n, words)
    requires Attaches(m, m', roots, p, t, i, n)
    requires forall j :: |p| < 2 ==> !Present(WordAt(m', n, j))
    requires forall va: nat :: Index(va, |p|) == i ==> AccessFrom(m', t, |p|, va) == AccessFrom(m, t, |p|, va)
    ensures Created(m, m', roots, free, r0, p, i, n)
  {
    TableWord(n, |p|);
    AttachSound(m, m', roots, free, r0, p, t, i, n, words);
    AttachEffects(m, m', roots, r0, p, t, i, n);
    EditKeepsSlots(m, m', roots, r0, p, t, i);
  }

  lemma {:induction false} CreatedZero(m: Memory, roots: set<nat>, free: set<nat>, r0: nat, p: Path, t: nat, i: nat,
                                       n: nat)
    requires Sound(m, roots, free) && r0 in roots && TableAt(m, r0, p) == Some(t) && t in m
    requires |p| < 3 && i < ENTRIES && !Present(WordAt(m, t, i)) && n in free
    ensures var m' := WithTable(m, t, i, n, ZEROS);
            Created(m, m', roots, free, r0, p, i, n) && forall j :: WordAt(m', n, j) == 0
  {
    hide Zeros;
    assert IsTable(m, roots, t);
    var m' := WithTable(m, t, i, n, ZEROS);
    TableWord(n, |p|);
    assert WordAt(m', t, i) == n * PAGE + PRESENT_RW_USER;
    assert forall j :: WordAt(m', n, j) == 0;
    forall va: nat | Index(va, |p|) == i
      ensures AccessFrom(m', t, |p|, va) == AccessFrom(m, t, |p|, va)
    {
      assert WordAt(m', n, Index(va, |p| + 1)) == 0;
    }
    CreatedBy(m, m', roots, free, r0, p, t, i, n, ZEROS);
  }

  lemma {:induction false} CreatedSplit(m: Memory, roots: set<nat>, free: set<nat>, r0: nat, p: Path, t: nat, i: nat,
                                        n: nat, words: seq<nat>)
    requires Sound(m, roots, free) && r0 in roots && TableAt(m, r0, p) == Some(t) && t in m
    requires |p| == 2 && i < ENTRIES && Present(WordAt(m, t, i)) && Large(WordAt(m, t, i)) && n in free
    requires SplitsInto(WordAt(m, t, i), words)
    ensures Created(m, WithTable(m, t, i, n, words), roots, free, r0, p, i, n)
  {
    TableAtDepth(m, r0, p);
    assert IsTable(m, roots, t);
    var m' := WithTable(m, t, i, n, words);
    TableWord(n, 2);
    assert WordAt(m', t, i) == n * PAGE + PRESENT_RW_USER;
    forall va: nat | Index(va, 2) == i
      ensures AccessFrom(m', t, 2, va) == AccessFrom(m, t, 2, va)
    {
      SplitWordMeaning(WordAt(m, t, i), va);
    }
    CreatedBy(m, m', roots, free, r0, p, t, i, n, words);
  }

  // ---------- the final entry ----------

  /** The 4 KiB entry that virt's path selects, when all three upper tables exist. */
  ghost predicate LeafIs(m: Memory, root: nat, virt: nat, e: nat) {
    var t := TableAt(m, root, PathOf(virt)[..3]);
    t.Some? && WordAt(m, t.value, Index(virt, 3)) == e
  }

  function WithWord(m: Memory, t: nat, i: nat, e: nat): Memory {
    if t in m && i < |m[t]| then
      var words: seq<nat> := m[t][i := e];
      m[t := words]
    else m
  }

  /** The word written for a 4 KiB page: PRESENT is forced, NX is clear. */
  function LeafWord(phys: nat, flags: nat): nat {
    (phys / PAGE * PAGE + (if Present(flags) then flags else flags + 1) % PAGE) % NX
  }

  /** The page frame a mapping of phys reaches: page aligned, bit 63 dropped. */
  function PageBase(phys: nat): nat { phys % NX / PAGE * PAGE }

  lemma {:induction false} PageNumber(phys: nat, q: nat, k: nat)
    requires q == phys / NX && k == phys % NX / PAGE
    ensures phys / PAGE * PAGE == q * NX + k * PAGE && k * PAGE + PAGE <= NX
  {
    DivUnique(phys, PAGE, q * 0x8_0000_0000_0000 + k, phys % NX % PAGE);
  }

  lemma {:induction false} LeafWordMeaning(phys: nat, flags: nat)
    ensures Present(LeafWord(phys, flags))
    ensures PageOf(LeafWord(phys, flags)) == PageBase(phys)
    ensures LeafWord(phys, flags) % PAGE == (if Present(flags) then flags else flags + 1) % PAGE
    ensures LeafWord(phys, flags) / PAGE == phys % NX / PAGE
  {
    var low := (if Present(flags) then flags else flags + 1) % PAGE;
    var (q, k) := (phys / NX, phys % NX / PAGE);
    PageNumber(phys, q, k);
    assert k * PAGE + low < NX && LeafWord(phys, flags) == (q * NX + (k * PAGE + low)) % NX;
    DivUnique(q * NX + (k * PAGE + low), NX, q, k * PAGE + low);
    PageOffset(k, low);
  }

  /** Bit by bit: bit 0 is set, bits 1 to 11 are those of the flags, bits 12 to 62 those of the address, and
      no other bit is set. */
  lemma {:induction false} LeafWordBits(phys: nat, flags: nat, k: nat)
    ensures BitSet(LeafWord(phys, flags), k)
            <==> k == 0 || (k < 12 && BitSet(flags, k)) || (12 <= k < 63 && BitSet(phys, k))
  {
    hide LeafWord;
    var (e, low) := (LeafWord(phys, flags), if Present(flags) then flags else flags + 1);
    LeafWordMeaning(phys, flags);
    LowBits(e, k);
    if k < 12 {
      LowBits(low, k);
      if k > 0 {
        assert low / 2 == flags / 2;
        assert BitSet(low, k) == BitSet(flags, k);
      }
    } else {
      LowBits(phys % NX, k);
      AddressBits(phys, k);
    }
  }

  lemma {:induction false} LowBits(n: nat, k: nat)
    ensures BitSet(n, k) == if k < 12 then BitSet(n % PAGE, k) else BitSet(n / PAGE, k - 12)
  {
    PowersOfTwo();
    DivMod(n, PAGE);
    BitsJoin(n / PAGE, n % PAGE, 12, k);
  }

  lemma {:induction false} AddressBits(phys: nat, k: nat)
    ensures BitSet(phys % NX, k) <==> k < 63 && BitSet(phys, k)
  {
    PowersOfTwo();
    DivMod(phys, NX);
    BitsJoin(phys / NX, phys % NX, 63, k);
    BitsJoin(0, phys % NX, 63, k);
    if k >= 63 {
      NoBits(k - 63);
    }
  }

  /** What an access to va's page gives once it is mapped to phys with these flags: bits 12 to 62 of the
      address, bit 0 set, and bits 1 to 11 of the flags. */
  ghost predicate Grants(a: Access, phys: nat, flags: nat, va: nat) {
    && a.address == Some(phys % NX / 0x1000 * 0x1000 + va % 0x1000) && a.flags < 0x1000
    && forall k: nat :: k < 12 ==> (BitSet(a.flags, k) <==> k == 0 || BitSet(flags, k))
  }

  lemma {:induction false} MappedGrants(m: Memory, root: nat, virt: nat, phys: nat, flags: nat, va: nat)
    requires MapsTo(m, root, virt, PageOf(LeafWord(phys, flags)), LeafWord(phys, flags) % PAGE) && SamePage(va, virt)
    ensures Grants(AccessOf(m, root, va), phys, flags, va)
  {
    hide LeafWord, AccessOf;
    var e := LeafWord(phys, flags);
    LeafWordMeaning(phys, flags);
    forall k: nat | k < 12
      ensures BitSet(e % PAGE, k) <==> k == 0 || BitSet(flags, k)
    {
      LeafWordBits(phys, flags, k);
      LowBits(e, k);
    }
  }

  ghost predicate OthersKeepWalks(m: Memory, m': Memory, roots: set<nat>, virt: nat) {
    forall r, va: nat :: r in roots && !SamePage(va, virt) ==> AccessOf(m', r, va) == AccessOf(m, r, va)
  }

  function PageOf(e: nat): nat { e / PAGE * PAGE }

  /** Every address of virt's page translates to the page frame at base, with these flag bits. */
  ghost predicate MapsTo(m: Memory, root: nat, virt: nat, base: nat, flags: nat) {
    forall va: nat :: SamePage(va, virt) ==>
      AccessOf(m, root, va).address == Some(base + va % PAGE) && AccessOf(m, root, va).flags == flags
  }

  /** On the way to every address the table entries allow what they allowed. */
  ghost predicate KeepsRights(m: Memory, m': Memory, roots: set<nat>) {
    forall r, va: nat :: r in roots ==>
      AccessOf(m', r, va).write == AccessOf(m, r, va).write && AccessOf(m', r, va).user == AccessOf(m, r, va).user
  }

  lemma {:induction false} LeafElsewhere(m: Memory, m': Memory, roots: set<nat>, root: nat, virt: nat, p: Path, t: nat,
                                         r: nat, va: nat)
    requires Unshared(m, roots) && root in roots && r in roots && r < LIMIT
    requires p == PathOf(virt)[..3] && TableAt(m, root, p) == Some(t) && EditsWord(m, m', roots, t, Index(virt, 3))
    requires !SamePage(va, virt) || TableAt(m, r, p) != Some(t)
    ensures AccessOf(m', r, va) == AccessOf(m, r, va)
  {
    SamePathSamePage(va, virt);
    if PathOf(va)[..3] == p && Index(va, 3) == Index(virt, 3) {
      assert PathOf(va) == p + [Index(virt, 3)] == PathOf(virt);
    }
    assert PathOf(va)[..0] == [];
    WalkBeside(m, m', roots, root, p, t, Index(virt, 3), r, va, r, 0);
  }

  /** Rewriting a word of a last-level table changes no table entry on the way to a page. */
  lemma {:induction false} RightsBeside(m: Memory, m': Memory, roots: set<nat>, r0: nat, p: Path, t: nat, i: nat,
                                        r: nat, va: nat, f: nat, d: nat)
    requires Unshared(m, roots) && r0 in roots && r in roots && |p| == 3
    requires TableAt(m, r0, p) == Some(t) && EditsWord(m, m', roots, t, i)
    requires d < 4 && TableAt(m, r, PathOf(va)[..d]) == Some(f)
    ensures AccessFrom(m', f, d, va).write == AccessFrom(m, f, d, va).write
    ensures AccessFrom(m', f, d, va).user == AccessFrom(m, f, d, va).user
    decreases 4 - d
  {
    hide Index, LeafAddress, LeafFlags, Large, Writable, User, Unshared, EditsWord, TableAt;
    var e := WordAt(m, f, Index(va, d));
    OtherWord(m, m', roots, r0, p, t, i, r, PathOf(va)[..d], f, Index(va, d));
    TableAtDepth(m, r, PathOf(va)[..d]);
    assert f == t ==> d == |p|;
    if d < 3 && LinksTable(e, d) {
      TableBelow(m, r, va, d);
      RightsBeside(m, m', roots, r0, p, t, i, r, va, FrameOf(e), d + 1);
    }
  }

  lemma {:induction false} RightsStay(m: Memory, m': Memory, roots: set<nat>, r0: nat, p: Path, t: nat, i: nat,
                                      r: nat, va: nat)
    requires Unshared(m, roots) && r0 in roots && r in roots && r < LIMIT && |p| == 3
    requires TableAt(m, r0, p) == Some(t) && EditsWord(m, m', roots, t, i)
    ensures AccessOf(m', r, va).write == AccessOf(m, r, va).write && AccessOf(m', r, va).user == AccessOf(m, r, va).user
  {
    assert PathOf(va)[..0] == [];
    RightsBeside(m, m', roots, r0, p, t, i, r, va, r, 0);
  }

  lemma {:induction false} LeafMaps(m': Memory, r: nat, virt: nat, p: Path, t: nat, e: nat, va: nat)
    requires p == PathOf(virt)[..3] && TableAt(m', r, p) == Some(t)
    requires WordAt(m', t, Index(virt, 3)) == e && Present(e) && SamePage(va, virt)
    ensures AccessOf(m', r, va).address == Some(PageOf(e) + va % PAGE) && AccessOf(m', r, va).flags == e % PAGE
  {
    SamePathSamePage(va, virt);
    WalkToTable(m', r, va, 3);
    TableAtDepth(m', r, p);
    assert Index(va, 3) == PathOf(va)[3] == PathOf(virt)[3] == Index(virt, 3);
  }

  /** Root s reaches the table with virt's entry, and by the same path as root r. */
  ghost predicate SeesPage(m: Memory, r: nat, s: nat, virt: nat) {
    TableAt(m, r, PathOf(virt)[..3]).Some? && TableAt(m, s, PathOf(virt)[..3]) == TableAt(m, r, PathOf(virt)[..3])
  }

  /** The page is mapped under the roots that see it, and under no other root does a translation change. */
  ghost predicate MappedWhereSeen(m: Memory, m': Memory, roots: set<nat>, root: nat, virt: nat, base: nat,
                                  flags: nat) {
    forall s :: s in roots ==>
      if SeesPage(m', root, s, virt) then MapsTo(m', s, virt, base, flags) else SameWalks(m, m', {s})
  }

  /** A page below a user slot is seen by its own root only. */
  ghost predicate SeenAlone(m: Memory, roots: set<nat>, root: nat, virt: nat) {
    UserSlot(Index(virt, 0)) ==> forall s :: s in roots && SeesPage(m, root, s, virt) ==> s == root
  }

  /** Writing a present entry into the last-level table of virt's path maps that page under every
      root that reaches the table, and changes no other translation. */
  lemma {:induction false} LeafWalks(m: Memory, m': Memory, roots: set<nat>, root: nat, virt: nat, p: Path, t: nat,
                                     e: nat)
    requires Unshared(m, roots) && root in roots && (forall r :: r in roots ==> r < LIMIT)
    requires p == PathOf(virt)[..3] && TableAt(m, root, p) == Some(t) && EditsWord(m, m', roots, t, Index(virt, 3))
    requires forall r :: r in roots ==> TableAt(m', r, p) == TableAt(m, r, p)
    requires WordAt(m', t, Index(virt, 3)) == e && Present(e)
    ensures OthersKeepWalks(m, m', roots, virt) && MappedWhereSeen(m, m', roots, root, virt, PageOf(e), e % PAGE)
    ensures SeenAlone(m', roots, root, virt) && SeesPage(m', root, root, virt) && KeepsRights(m, m', roots)
  {
    hide TableAt, AccessOf, Index;
    forall r, va: nat | r in roots
      ensures AccessOf(m', r, va).write == AccessOf(m, r, va).write
      ensures AccessOf(m', r, va).user == AccessOf(m, r, va).user
    {
      RightsStay(m, m', roots, root, p, t, Index(virt, 3), r, va);
    }
    forall r, va: nat | r in roots && (!SamePage(va, virt) || TableAt(m, r, p) != Some(t))
      ensures AccessOf(m', r, va) == AccessOf(m, r, va)
    {
      LeafElsewhere(m, m', roots, root, virt, p, t, r, va);
    }
    forall s | s in roots && SeesPage(m', root, s, virt)
      ensures MapsTo(m', s, virt, PageOf(e), e % PAGE) && (UserSlot(Index(virt, 0)) ==> s == root)
    {
      if UserSlot(Index(virt, 0)) && s != root {
        UserTablePrivate(m, roots, root, virt, t, s);
      }
      forall va: nat | SamePage(va, virt)
        ensures AccessOf(m', s, va).address == Some(PageOf(e) + va % PAGE) && AccessOf(m', s, va).flags == e % PAGE
      {
        LeafMaps(m', s, virt, p, t, e, va);
      }
    }
  }

  lemma {:induction false} LeafSound(m: Memory, m': Memory, roots: set<nat>, free: set<nat>, root: nat, p: Path,
                                     t: nat, i: nat, e: nat)
    requires Sound(m, roots, free) && root in roots && |p| == 3 && TableAt(m, root, p) == Some(t)
    requires i < ENTRIES && m' == WithWord(m, t, i, e)
    ensures Sound(m', roots, free) && KeepsPaths(m, m', roots) && KeepsData(m, m', roots, free)
    ensures TableAt(m', root, p) == Some(t) && WordAt(m', t, i) == e
    ensures EditsWord(m, m', roots, t, i)
  {
    hide TableAt;
    assert IsTable(m, roots, t);
    TableAtDepth(m, root, p);
    LeafEdit(m, m', roots, root, p, t, i);
    LeafKeepsPaths(m, m', roots, t, i);
  }

  /** Another root reaches a table below a user slot through no path. */
  lemma {:induction false} UserTablePrivate(m: Memory, roots: set<nat>, root: nat, virt: nat, t: nat, s: nat)
    requires Unshared(m, roots) && root in roots && s in roots && s != root
    requires UserSlot(Index(virt, 0)) && TableAt(m, root, PathOf(virt)[..3]) == Some(t)
    ensures TableAt(m, s, PathOf(virt)[..3]) != Some(t)
  {
    assert PathOf(virt)[..3][0] == Index(virt, 0);
  }

  /** Roots whose words agree at the slot reach the same tables below it. */
  lemma {:induction false} SameSlotTables(m: Memory, r: nat, s: nat, p: Path)
    requires p != [] && r < LIMIT && s < LIMIT && WordAt(m, r, p[0]) == WordAt(m, s, p[0])
    ensures TableAt(m, s, p) == TableAt(m, r, p)
  {
    if |p| > 1 {
      SameSlotTables(m, r, s, p[..|p| - 1]);
    }
  }

  /** The whole effect of map_page_64: m1 is m with the tables made, m' is m1 with the entry written. */
  lemma {:induction false} MapEffects(m: Memory, m1: Memory, m': Memory, roots: set<nat>, free: set<nat>,
                                      free1: set<nat>, root: nat, virt: nat, t: nat, e: nat)
    requires Invisible(m, m1, roots, free, free1) && root in roots
    requires TableAt(m1, root, PathOf(virt)[..3]) == Some(t) && Present(e)
    requires m' == WithWord(m1, t, Index(virt, 3), e)
    ensures Sound(m', roots, free1) && KeepsPaths(m, m', roots) && KeepsData(m, m', roots, free)
    ensures KeepsSlots(m, m', roots)
    ensures LeafIs(m', root, virt, e) && OthersKeepWalks(m, m', roots, virt)
    ensures MappedWhereSeen(m, m', roots, root, virt, PageOf(e), e % PAGE) && SeenAlone(m', roots, root, virt)
    ensures SeesPage(m', root, root, virt) && KeepsRights(m, m', roots)
  {
    hide TableAt, AccessOf, MappedWhereSeen, SeenAlone, SeesPage, OthersKeepWalks, PathOk, Index;
    var p := PathOf(virt)[..3];
    assert |PathOf(virt)| == 4 && Index(virt, 3) < ENTRIES;
    LeafSound(m1, m', roots, free1, root, p, t, Index(virt, 3), e);
    EditKeepsSlots(m1, m', roots, root, p, t, Index(virt, 3));
    LeafEdit(m1, m', roots, root, p, t, Index(virt, 3));
    LeafWalks(m1, m', roots, root, virt, p, t, e);
    MappedAfter(m, m1, m', roots, root, virt, PageOf(e), e % PAGE);
  }

  lemma {:induction false} MappedAfter(m: Memory, m1: Memory, m': Memory, roots: set<nat>, root: nat, virt: nat,
                                       base: nat, flags: nat)
    requires SameWalks(m, m1, roots) && OthersKeepWalks(m1, m', roots, virt) && KeepsRights(m1, m', roots)
    requires MappedWhereSeen(m1, m', roots, root, virt, base, flags)
    ensures OthersKeepWalks(m, m', roots, virt) && MappedWhereSeen(m, m', roots, root, virt, base, flags)
    ensures KeepsRights(m, m', roots)
  {
    hide AccessOf, MapsTo, SeesPage;
  }

  lemma {:induction false} LeafKeepsPaths(m: Memory, m': Memory, roots: set<nat>, t: nat, i: nat)
    requires EditsWord(m, m', roots, t, i)
    requires forall r, q: Path :: r in roots ==> TableAt(m', r, q) == TableAt(m, r, q)
    requires forall r, q: Path :: r in roots && TableAt(m, r, q) == Some(t) ==> |q| == 3
    ensures KeepsPaths(m, m', roots)
  {
    forall r, q: Path | r in roots && |q| == 4 && PathOk(m, r, q)
      ensures PathOk(m', r, q)
    {
      forall d: nat | d < 3 && TableAt(m', r, q[..d]).Some?
        ensures EntryOk(WordAt(m', TableAt(m', r, q[..d]).value, q[d]), d)
      {
        assert TableAt(m, r, q[..d]).Some?;
        assert IsTable(m, roots, TableAt(m, r, q[..d]).value);
      }
    }
  }

  /** A walk first goes to the table its path names. */
  lemma {:induction false} WalkToTable(m: Memory, root: nat, va: nat, d: nat)
    requires d < 4 && TableAt(m, root, PathOf(va)[..d]).Some?
    ensures var a := AccessFrom(m, TableAt(m, root, PathOf(va)[..d]).value, d, va);
            AccessOf(m, root, va).address == a.address && AccessOf(m, root, va).flags == a.flags
  {
    if d == 0 {
      assert PathOf(va)[..0] == [];
    } else {
      assert PathOf(va)[..d][..d - 1] == PathOf(va)[..d - 1];
      WalkToTable(m, root, va, d - 1);
      TableBelow(m, root, va, d - 1);
      TableAtDepth(m, root, PathOf(va)[..d - 1]);
    }
  }

  // ---------- clearing NX ----------

  /** The walk to va from frame t at a depth reads word i of frame f. */
  ghost predicate Reads(m: Memory, t: nat, depth: nat, va: nat, f: nat, i: nat)
    requires depth < 4
    decreases 4 - depth
  {
    var e := WordAt(m, t, Index(va, depth));
    t < LIMIT && ((t == f && Index(va, depth) == i)
                  || (depth < 3 && Present(e) && !IsLeaf(e, depth) && Reads(m, FrameOf(e), depth + 1, va, f, i)))
  }

  lemma {:induction false} UnreadWord(m: Memory, m': Memory, t: nat, depth: nat, va: nat, f: nat, i: nat)
    requires depth < 4 && !Reads(m, t, depth, va, f, i)
    requires forall g, j: nat :: WordAt(m', g, j) == WordAt(m, g, j) || (g == f && j == i)
    ensures AccessFrom(m', t, depth, va) == AccessFrom(m, t, depth, va)
    decreases 4 - depth
  {
    var e := WordAt(m, t, Index(va, depth));
    if t < LIMIT && depth < 3 && Present(e) && !IsLeaf(e, depth) {
      UnreadWord(m, m', FrameOf(e), depth + 1, va, f, i);
    }
  }

  /** The frame that word slot of a PML4 names once bit 63 is cleared. */
  function Revealed(m: Memory, root: nat, slot: nat): nat { FrameOf(WordAt(m, root, slot) % NX) }

  /** Clearing NX on a PML4 word reveals the table it names to the walker, which reads bit 63 as part
      of the address: the step is invisible exactly when that table translates nothing before it.
      The walks below that table are taken not to come back to the word. */
  lemma {:induction false} ClearNxVisible(m: Memory, root: nat, slot: nat)
    requires root in m && root < LIMIT && slot < |m[root]| && Unshared(m, {root})
    requires Present(m[root][slot]) && NX <= m[root][slot]
    requires forall va: nat :: Index(va, 0) == slot ==> !Reads(m, Revealed(m, root, slot), 1, va, root, slot)
    ensures var m' := WithWord(m, root, slot, m[root][slot] % NX);
            (forall va: nat :: Walk(m', root, va) == Walk(m, root, va))
            <==> (forall va: nat :: Index(va, 0) == slot ==>
                    AccessFrom(m, Revealed(m, root, slot), 1, va).address == None)
  {
    var m' := WithWord(m, root, slot, m[root][slot] % NX);
    assert FrameOf(m[root][slot]) >= LIMIT;
    assert TableAt(m, root, []) == Some(root);
    assert EditsWord(m, m', {root}, root, slot);
    assert Present(m[root][slot] % NX);
    forall va: nat
      ensures Index(va, 0) == slot ==>
                && Walk(m, root, va) == None
                && Walk(m', root, va) == AccessFrom(m, Revealed(m, root, slot), 1, va).address
      ensures Index(va, 0) != slot ==> Walk(m', root, va) == Walk(m, root, va)
    {
      if Index(va, 0) != slot {
        assert PathOf(va)[..0] == [];
        WalkBeside(m, m', {root}, root, [], root, slot, root, va, root, 0);
      } else {
        UnreadWord(m, m', Revealed(m, root, slot), 1, va, root, slot);
      }
    }
  }

  /** For example when slot 1 names, behind bit 63, a table that maps the first GiB. */
  lemma {:induction false} RevealedGiB(m: Memory)
    requires m == map[1 := ZEROS[1 := NX + 0x2007], 2 := ZEROS[0 := 0x87]]
    ensures Walk(m, 1, 0x80_0000_0000) == None && Walk(WithWord(m, 1, 1, m[1][1] % NX), 1, 0x80_0000_0000) == Some(0)
  {
    hide Zeros;
    var m' := WithWord(m, 1, 1, 0x2007);
    assert (NX + 0x2007) % NX == 0x2007;
    assert WordAt(m, 1, 1) == NX + 0x2007 && WordAt(m', 1, 1) == 0x2007 && WordAt(m', 2, 0) == 0x87;
    var va := 0x80_0000_0000;
    assert Index(va, 0) == 1 && Index(va, 1) == 0;
    assert AccessFrom(m', 2, 1, va).address == Some(LeafAddress(0x87, 1, va));
    assert AccessFrom(m, FrameOf(NX + 0x2007), 1, va).address == None;
  }
}
