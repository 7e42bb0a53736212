/** The meaning of 4-level page tables held in physical memory: the walker of vmem.c, and the
    tree of tables below a root. Words and addresses are natural numbers; masks are div and mod. */
module PageTables {
  import opened Utils
  import opened FrameMaps
  import opened Arith

  const ENTRIES: nat := 512
  const LIMIT: nat := 0x10_0000  // frames below 4 GiB, all that vmem_phys_to_virt64 reaches
  const PAGE: nat := 0x1000
  const NX: nat := 0x8000_0000_0000_0000
  const PRESENT_RW_USER: nat := 7

  /** Physical memory: each frame number below 4 GiB holds 512 64-bit words. */
  type Memory = map<nat, seq<nat>>

  ghost predicate ValidMemory(m: Memory) {
    && (forall f :: f in m ==> |m[f]| == ENTRIES)
    && (forall f :: 0 <= f < LIMIT ==> f in m)
  }

  function WordAt(m: Memory, f: nat, i: nat): nat {
    if f in m && i < |m[f]| then m[f][i] else 0
  }

  /** The PS bit, bit 7. */
  predicate Large(e: nat) { e / 0x80 % 2 == 1 }

  function FrameOf(e: nat): nat { e / PAGE }

  /** The table index that virtual address va uses at a depth: 0 is the PML4, 3 the page table. */
  function Index(va: nat, depth: nat): (i: nat)
    requires depth < 4
    ensures i < ENTRIES
  {
    match depth
    case 0 => va / 0x80_0000_0000 % ENTRIES
    case 1 => va / 0x4000_0000 % ENTRIES
    case 2 => va / 0x20_0000 % ENTRIES
    case 3 => va / PAGE % ENTRIES
  }

  /** A present entry at this depth that maps a page rather than naming a table. */
  predicate IsLeaf(e: nat, depth: nat) {
    depth == 3 || (0 < depth && Large(e))
  }

  /** The physical address a leaf entry gives to va: 1 GiB, 2 MiB or 4 KiB page. */
  function LeafAddress(e: nat, depth: nat, va: nat): nat {
    match depth
    case 1 => e % 0x10_0000_0000_0000 / 0x4000_0000 * 0x4000_0000 + va % 0x4000_0000
    case 2 => e / 0x20_0000 * 0x20_0000 + va % 0x20_0000
    case _ => e / PAGE * PAGE + va % PAGE
  }

  /** What a walk finds: the physical address and the flag bits of the entry that gives it, and whether every
      table entry on the way allows writing and user access. */
  datatype Access = Access(address: Option<nat>, flags: nat, write: bool, user: bool)

  const UNMAPPED: Access := Access(None, 0, true, true)

  /** The RW bit, bit 1. */
  predicate Writable(e: nat) { e / 2 % 2 == 1 }

  /** The user bit, bit 2. */
  predicate User(e: nat) { e / 4 % 2 == 1 }

  /** The low twelve bits of an entry that maps a page, without the PS bit. */
  function LeafFlags(e: nat, depth: nat): nat {
    if depth == 3 then e % 0x1000 else e / 0x100 % 0x10 * 0x100 + e % 0x80
  }

  /** An access below a table that entry e names. */
  function Below(e: nat, a: Access): Access { a.(write := a.write && Writable(e), user := a.user && User(e)) }

  /** The walk from table t at the given depth. */
  function AccessFrom(m: Memory, t: nat, depth: nat, va: nat): Access
    requires depth < 4
    decreases 4 - depth
  {
    if t >= LIMIT then UNMAPPED
    else
      var e := WordAt(m, t, Index(va, depth));
      if !Present(e) then UNMAPPED
      else if IsLeaf(e, depth) then Access(Some(LeafAddress(e, depth, va)), LeafFlags(e, depth), true, true)
      else Below(e, AccessFrom(m, FrameOf(e), depth + 1, va))
  }

  function AccessOf(m: Memory, root: nat, va: nat): Access {
    AccessFrom(m, root, 0, va)
  }

  /** The physical address of va under a root, or None. */
  function Walk(m: Memory, root: nat, va: nat): Option<nat> {
    AccessOf(m, root, va).address
  }

  /** vmem_virt_to_phys64 in walk mode, step by step; 0 stands for a failed walk. */
  function VirtToPhys64(m: Memory, cr3: nat, virt: nat): (phys: nat)
    ensures phys == match Walk(m, FrameOf(cr3), virt) { case None => 0 case Some(pa) => pa }
  {
    var pml4Index := virt / 0x80_0000_0000 % 512;
    var pdptIndex := virt / 0x4000_0000 % 512;
    var pdIndex := virt / 0x20_0000 % 512;
    var ptIndex := virt / 0x1000 % 512;
    if FrameOf(cr3) >= 0x10_0000 then 0
    else
      var pml4e := WordAt(m, FrameOf(cr3), pml4Index);
      if pml4e % 2 == 0 || FrameOf(pml4e) >= 0x10_0000 then 0
      else
        var pdpte := WordAt(m, FrameOf(pml4e), pdptIndex);
        if pdpte % 2 == 0 then 0
        else if pdpte / 0x80 % 2 == 1 then
          pdpte % 0x10_0000_0000_0000 / 0x4000_0000 * 0x4000_0000 + virt % 0x4000_0000
        else if FrameOf(pdpte) >= 0x10_0000 then 0
        else
          var pde := WordAt(m, FrameOf(pdpte), pdIndex);
          if pde % 2 == 0 then 0
          else if pde / 0x80 % 2 == 1 then pde / 0x20_0000 * 0x20_0000 + virt % 0x20_0000
          else if FrameOf(pde) >= 0x10_0000 then 0
          else
            var pte := WordAt(m, FrameOf(pde), ptIndex);
            if pte % 2 == 0 then 0
            else pte / PAGE * PAGE + virt % PAGE
  }

  lemma {:induction false} PowersOfTwo()
    ensures Pow2(12) == PAGE && Pow2(63) == NX
  {
    assert Pow2(12) == 0x1000;
    assert Pow2(24) == 0x1000 * 0x1000;
    assert Pow2(36) == 0x1000 * 0x1000 * 0x1000;
    assert Pow2(48) == 0x1000 * 0x1000 * 0x1000 * 0x1000;
    assert Pow2(60) == 0x1000 * 0x1000 * 0x1000 * 0x1000 * 0x1000;
  }

  // ---------- the tree of tables ----------

  /** Index paths from a root; the empty path names the PML4 itself. */
  type Path = seq<nat>

  /** The path that va takes through the tables. */
  function PathOf(va: nat): (p: Path)
    ensures |p| == 4 && forall d :: 0 <= d < 4 ==> p[d] == Index(va, d)
  {
    [Index(va, 0), Index(va, 1), Index(va, 2), Index(va, 3)]
  }

  /** Same 4 KiB page of the 48-bit address space; the walker ignores the bits above. */
  predicate SamePage(va: nat, virt: nat) {
    va / PAGE % 0x10_0000_0000 == virt / PAGE % 0x10_0000_0000
  }

  /** Does a word of a table at this depth name a table one level down? */
  predicate LinksTable(e: nat, depth: nat) {
    depth < 3 && Present(e) && !IsLeaf(e, depth) && FrameOf(e) < LIMIT
  }

  /** The frame of the table that a path leads to, if there is one. */
  function TableAt(m: Memory, root: nat, p: Path): Option<nat> {
    if p == [] then
      if root < LIMIT then Some(root) else None
    else
      match TableAt(m, root, p[..|p| - 1])
      case None => None
      case Some(t) =>
        var e := WordAt(m, t, p[|p| - 1]);
        if LinksTable(e, |p| - 1) then Some(FrameOf(e)) else None
  }

  /** PML4 slots that paging64_create_user_pml4 leaves empty: private to one address space. */
  predicate UserSlot(slot: nat) { 1 <= slot < 256 }

  /** Every table has one path, also across roots, and only slot 0 and the kernel half are shared. */
  ghost predicate Unshared(m: Memory, roots: set<nat>) {
    forall r, s, p: Path, q: Path :: r in roots && s in roots && TableAt(m, r, p).Some? && TableAt(m, r, p) == TableAt(m, s, q) ==>
      p == q && (r == s || (p != [] && !UserSlot(p[0])))
  }

  ghost predicate IsTable(m: Memory, roots: set<nat>, f: nat) {
    exists r, p: Path :: r in roots && TableAt(m, r, p) == Some(f)
  }

  lemma {:induction false} TableAtDepth(m: Memory, root: nat, p: Path)
    ensures TableAt(m, root, p).Some? ==> |p| <= 3 && TableAt(m, root, p).value < LIMIT
  {
  }

  /** Two addresses take the same path exactly when they lie on the same page. */
  lemma {:induction false} SamePathSamePage(va: nat, virt: nat)
    ensures PathOf(va) == PathOf(virt) <==> SamePage(va, virt)
  {
    PathIsPage(va);
    PathIsPage(virt);
    if SamePage(va, virt) {
      DigitsUnique(Index(va, 0), Index(va, 1), Index(va, 2), Index(va, 3),
                   Index(virt, 0), Index(virt, 1), Index(virt, 2), Index(virt, 3));
      assert PathOf(va) == PathOf(virt);
    }
    if PathOf(va) == PathOf(virt) {
      assert forall d :: 0 <= d < 4 ==> PathOf(va)[d] == PathOf(virt)[d];
      assert Index(va, 0) == PathOf(virt)[0] && Index(va, 1) == PathOf(virt)[1]
             && Index(va, 2) == PathOf(virt)[2] && Index(va, 3) == PathOf(virt)[3];
    }
  }

  /** The four indices are the base-512 digits of the 36-bit page number. */
  lemma {:induction false} PathIsPage(va: nat)
    ensures va / PAGE % 0x10_0000_0000 == Index(va, 0) * 0x800_0000 + Index(va, 1) * 0x4_0000 + Index(va, 2) * 0x200 + Index(va, 3)
  {
    var n := va / PAGE;
    var (a, b, c, d) := (n / 512, n / 512 / 512, n / 512 / 512 / 512, n / 512 / 512 / 512 / 512);
    assert va / 0x20_0000 == a;
    assert va / 0x4000_0000 == b by { assert va / 0x4000_0000 == va / 0x20_0000 / 512; }
    assert va / 0x80_0000_0000 == c by { assert va / 0x80_0000_0000 == va / 0x4000_0000 / 512; }
    PageDigits(n, a, b, c, d, n % 512, a % 512, b % 512, c % 512);
  }

  lemma {:induction false} PageDigits(n: nat, a: nat, b: nat, c: nat, d: nat, i3: nat, i2: nat, i1: nat, i0: nat)
    requires n == 512 * a + i3 && a == 512 * b + i2 && b == 512 * c + i1 && c == 512 * d + i0
    requires i0 < 512 && i1 < 512 && i2 < 512 && i3 < 512
    ensures n % 0x10_0000_0000 == i0 * 0x800_0000 + i1 * 0x4_0000 + i2 * 0x200 + i3
  {
    var low := i0 * 0x800_0000 + i1 * 0x4_0000 + i2 * 0x200 + i3;
    assert low < 0x10_0000_0000 && n == d * 0x10_0000_0000 + low;
    DivUnique(n, 0x10_0000_0000, d, low);
  }

  lemma {:induction false} DigitsUnique(a: nat, b: nat, c: nat, d: nat, e: nat, f: nat, g: nat, h: nat)
    requires a < 512 && b < 512 && c < 512 && d < 512 && e < 512 && f < 512 && g < 512 && h < 512
    requires a * 0x800_0000 + b * 0x4_0000 + c * 0x200 + d == e * 0x800_0000 + f * 0x4_0000 + g * 0x200 + h
    ensures a == e && b == f && c == g && d == h
  {
  }

  // ---------- edits of one table word ----------

  /** Only the word (t, i) of the tables below these roots may differ. */
  ghost predicate EditsWord(m: Memory, m': Memory, roots: set<nat>, t: nat, i: nat) {
    forall f, j: nat :: IsTable(m, roots, f) && (f != t || j != i) ==> WordAt(m', f, j) == WordAt(m, f, j)
  }

  /** A word of a table on some path is the edited one, or is unchanged. */
  lemma {:induction false} OtherWord(m: Memory, m': Memory, roots: set<nat>, r0: nat, p: Path, t: nat, i: nat, r: nat,
                                     q: Path, f: nat, j: nat)
    requires Unshared(m, roots) && r0 in roots && r in roots
    requires TableAt(m, r0, p) == Some(t) && EditsWord(m, m', roots, t, i) && TableAt(m, r, q) == Some(f)
    ensures f == t ==> q == p
    ensures (f == t && j == i) || WordAt(m', f, j) == WordAt(m, f, j)
  {
    hide TableAt, UserSlot;
    assert IsTable(m, roots, f);
  }

  /** Paths that do not go through the edited word lead to the same tables. */
  lemma {:induction false} TableAtBeside(m: Memory, m': Memory, roots: set<nat>, r0: nat, p: Path, t: nat, i: nat,
                                         r: nat, q: Path)
    requires Unshared(m, roots) && r0 in roots && r in roots
    requires TableAt(m, r0, p) == Some(t) && EditsWord(m, m', roots, t, i)
    requires !(p + [i] <= q) || TableAt(m, r, p) != Some(t)
    ensures TableAt(m', r, q) == TableAt(m, r, q)
  {
    hide Unshared, EditsWord, Large;
    if q != [] {
      var parent := q[..|q| - 1];
      if p + [i] <= parent {
        assert p + [i] <= q;
      }
      TableAtBeside(m, m', roots, r0, p, t, i, r, parent);
      if TableAt(m, r, parent) != None {
        var f := TableAt(m, r, parent).value;
        OtherWord(m, m', roots, r0, p, t, i, r, parent, f, q[|q| - 1]);
        if f == t {
          assert q[|q| - 1] == i ==> q == p + [i];
        }
      }
    }
  }

  /** A walk that does not come to the edited word, or reads the same through it, is unchanged. */
  lemma {:induction false} WalkBeside(m: Memory, m': Memory, roots: set<nat>, r0: nat, p: Path, t: nat, i: nat, r: nat,
                                      va: nat, f: nat, d: nat)
    requires Unshared(m, roots) && r0 in roots && r in roots && |p| < 4
    requires TableAt(m, r0, p) == Some(t) && EditsWord(m, m', roots, t, i)
    requires PathOf(va)[..|p|] == p && Index(va, |p|) == i && TableAt(m, r, p) == Some(t) ==>
               AccessFrom(m', t, |p|, va) == AccessFrom(m, t, |p|, va)
    requires d < 4 && TableAt(m, r, PathOf(va)[..d]) == Some(f)
    ensures AccessFrom(m', f, d, va) == AccessFrom(m, f, d, va)
    decreases 4 - d
  {
    hide Index, LeafAddress, LeafFlags, Large, Writable, User, Unshared, EditsWord, TableAt;
    var j := Index(va, d);
    var e := WordAt(m, f, j);
    OtherWord(m, m', roots, r0, p, t, i, r, PathOf(va)[..d], f, j);
    assert f == t ==> d == |p|;
    if f != t || j != i {
      TableAtDepth(m, r, PathOf(va)[..d]);
      if LinksTable(e, d) {
        TableBelow(m, r, va, d);
        WalkBeside(m, m', roots, r0, p, t, i, r, va, FrameOf(e), d + 1);
      }
    }
  }

  lemma {:induction false} TableBelow(m: Memory, root: nat, va: nat, d: nat)
    requires d < 3 && TableAt(m, root, PathOf(va)[..d]).Some?
    ensures TableAt(m, root, PathOf(va)[..d + 1])
            == var e := WordAt(m, TableAt(m, root, PathOf(va)[..d]).value, Index(va, d));
               if LinksTable(e, d) then Some(FrameOf(e)) else None
  {
    assert PathOf(va)[..d + 1][..d] == PathOf(va)[..d];
  }

  /** Where paths lead after a word that named no table is made to name table n, whose words name none. */
  ghost function AttachedAt(m: Memory, p: Path, t: nat, i: nat, n: nat, r: nat, q: Path): Option<nat> {
    if q == p + [i] && TableAt(m, r, p) == Some(t) then Some(n) else TableAt(m, r, q)
  }

  ghost predicate Attaches(m: Memory, m': Memory, roots: set<nat>, p: Path, t: nat, i: nat, n: nat) {
    && |p| < 3 && n < LIMIT && !IsTable(m, roots, n)
    && EditsWord(m, m', roots, t, i)
    && !LinksTable(WordAt(m, t, i), |p|)
    && LinksTable(WordAt(m', t, i), |p|) && FrameOf(WordAt(m', t, i)) == n
    && forall j :: !LinksTable(WordAt(m', n, j), |p| + 1)
  }

  lemma {:induction false} AttachPath(m: Memory, m': Memory, roots: set<nat>, r0: nat, p: Path, t: nat, i: nat, n: nat,
                                      r: nat, q: Path)
    requires Unshared(m, roots) && r0 in roots && r in roots && TableAt(m, r0, p) == Some(t)
    requires Attaches(m, m', roots, p, t, i, n)
    ensures TableAt(m', r, q) == AttachedAt(m, p, t, i, n, r, q)
  {
    if !(p + [i] <= q) || TableAt(m, r, p) != Some(t) {
      TableAtBeside(m, m', roots, r0, p, t, i, r, q);
    } else {
      var parent := q[..|q| - 1];
      if q == p + [i] {
        assert parent == p && !(p + [i] <= p);
        TableAtBeside(m, m', roots, r0, p, t, i, r, p);
      } else {
        assert p + [i] <= parent;
        AttachPath(m, m', roots, r0, p, t, i, n, r, parent);
        if parent == p + [i] {
          assert parent[..|p|] == p && parent[|p|] == i;
        }
      }
    }
  }

  lemma {:induction false} AttachPair(m: Memory, roots: set<nat>, p: Path, t: nat, i: nat, n: nat, r: nat, s: nat,
                                      a: Path, b: Path)
    requires Unshared(m, roots) && r in roots && s in roots
    requires !IsTable(m, roots, n)
    requires AttachedAt(m, p, t, i, n, r, a).Some? && AttachedAt(m, p, t, i, n, r, a) == AttachedAt(m, p, t, i, n, s, b)
    ensures a == b && (r == s || (a != [] && !UserSlot(a[0])))
  {
    hide TableAt;
    if AttachedAt(m, p, t, i, n, r, a) != Some(n) {
      assert TableAt(m, r, a) == TableAt(m, s, b);
    } else {
      assert TableAt(m, r, a) == Some(n) ==> IsTable(m, roots, n);
      assert TableAt(m, s, b) == Some(n) ==> IsTable(m, roots, n);
      assert a == p + [i] == b;
      assert TableAt(m, r, p) == Some(t) == TableAt(m, s, p);
      if p != [] {
        assert a[0] == p[0];
      }
    }
  }

  lemma {:induction false} AttachTable(m: Memory, m': Memory, roots: set<nat>, r0: nat, p: Path, t: nat, i: nat, n: nat)
    requires Unshared(m, roots) && r0 in roots && TableAt(m, r0, p) == Some(t)
    requires Attaches(m, m', roots, p, t, i, n)
    ensures forall r, q: Path :: r in roots ==> TableAt(m', r, q) == AttachedAt(m, p, t, i, n, r, q)
    ensures Unshared(m', roots)
    ensures forall f :: IsTable(m', roots, f) ==> IsTable(m, roots, f) || f == n
  {
    hide TableAt;
    forall r, q: Path | r in roots
      ensures TableAt(m', r, q) == AttachedAt(m, p, t, i, n, r, q)
    {
      AttachPath(m, m', roots, r0, p, t, i, n, r, q);
    }
    forall r, s, a: Path, b: Path | r in roots && s in roots && TableAt(m', r, a).Some? && TableAt(m', r, a) == TableAt(m', s, b)
      ensures a == b && (r == s || (a != [] && !UserSlot(a[0])))
    {
      AttachPair(m, roots, p, t, i, n, r, s, a, b);
    }
  }

  /** Rewriting a word of a last-level table moves no table. */
  lemma {:induction false} LeafEdit(m: Memory, m': Memory, roots: set<nat>, r0: nat, p: Path, t: nat, i: nat)
    requires Unshared(m, roots) && r0 in roots && |p| == 3 && TableAt(m, r0, p) == Some(t)
    requires EditsWord(m, m', roots, t, i)
    ensures forall r, q: Path :: r in roots ==> TableAt(m', r, q) == TableAt(m, r, q)
  {
    forall r, q: Path | r in roots
      ensures TableAt(m', r, q) == TableAt(m, r, q)
    {
      TableAtDepth(m, r, q);
      TableAtDepth(m', r, q);
      if |q| <= 3 {
        assert !(p + [i] <= q);
        TableAtBeside(m, m', roots, r0, p, t, i, r, q);
      }
    }
  }
}
