/** The roots that paging64.c builds: the kernel's identity map and the user PML4s copied from it. */
module AddressSpaces {
  import opened Utils
  import opened FrameMaps
  import opened PageTables
  import opened Mapping
  import opened Arith

  /** A frame that is no table can change without moving a table or a walk. */
  lemma {:induction false} TableAtUnread(m: Memory, m': Memory, roots: set<nat>, free: set<nat>, r: nat, q: Path)
    requires r in roots && (forall f :: IsTable(m, roots, f) ==> f !in free)
    requires forall f, j: nat :: f !in free ==> WordAt(m', f, j) == WordAt(m, f, j)
    ensures TableAt(m', r, q) == TableAt(m, r, q)
  {
    if q != [] {
      TableAtUnread(m, m', roots, free, r, q[..|q| - 1]);
      if TableAt(m, r, q[..|q| - 1]).Some? {
        assert IsTable(m, roots, TableAt(m, r, q[..|q| - 1]).value);
      }
    }
  }

  lemma {:induction false} WalkUnread(m: Memory, m': Memory, roots: set<nat>, free: set<nat>, r: nat, va: nat, f: nat,
                                      d: nat)
    requires r in roots && (forall f :: IsTable(m, roots, f) ==> f !in free)
    requires forall f, j: nat :: f !in free ==> WordAt(m', f, j) == WordAt(m, f, j)
    requires d < 4 && TableAt(m, r, PathOf(va)[..d]) == Some(f)
    ensures AccessFrom(m', f, d, va) == AccessFrom(m, f, d, va)
    decreases 4 - d
  {
    assert IsTable(m, roots, f);
    TableAtDepth(m, r, PathOf(va)[..d]);
    var e := WordAt(m, f, Index(va, d));
    if LinksTable(e, d) {
      TableBelow(m, r, va, d);
      WalkUnread(m, m', roots, free, r, va, FrameOf(e), d + 1);
    }
  }

  /** Writing free frames is invisible to every root. */
  lemma {:induction false} FreeFramesUnread(m: Memory, m': Memory, roots: set<nat>, free: set<nat>)
    requires Sound(m, roots, free)
    requires forall f, j: nat :: f !in free ==> WordAt(m', f, j) == WordAt(m, f, j)
    ensures forall r, q: Path :: r in roots ==> TableAt(m', r, q) == TableAt(m, r, q)
    ensures SameWalks(m, m', roots) && KeepsPaths(m, m', roots) && KeepsSlots(m, m', roots)
  {
    forall r, q: Path | r in roots
      ensures TableAt(m', r, q) == TableAt(m, r, q)
    {
      TableAtUnread(m, m', roots, free, r, q);
    }
    forall r, va: nat | r in roots
      ensures AccessOf(m', r, va) == AccessOf(m, r, va)
    {
      assert PathOf(va)[..0] == [];
      WalkUnread(m, m', roots, free, r, va, r, 0);
    }
    forall r, q: Path | r in roots && |q| == 4 && PathOk(m, r, q)
      ensures PathOk(m', r, q)
    {
      forall d: nat | d < 3 && TableAt(m', r, q[..d]).Some?
        ensures EntryOk(WordAt(m', TableAt(m', r, q[..d]).value, q[d]), d)
      {
        assert TableAt(m, r, q[..d]).Some?;
        assert IsTable(m, roots, TableAt(m, r, q[..d]).value);
      }
    }
    forall r, j: nat | r in roots && LinksTable(WordAt(m, r, j), 0)
      ensures WordAt(m', r, j) == WordAt(m, r, j)
    {
      assert TableAt(m, r, []) == Some(r);
      assert IsTable(m, roots, r);
    }
  }

  lemma {:induction false} FreeFramesSound(m: Memory, m': Memory, roots: set<nat>, free: set<nat>, free': set<nat>)
    requires Sound(m, roots, free) && ValidMemory(m') && free' <= free && ChangesOnly(m, m', free)
    ensures Sound(m', roots, free') && SameWalks(m, m', roots)
  {
    FreeFramesUnread(m, m', roots, free);
    forall f: nat | IsTable(m', roots, f)
      ensures IsTable(m, roots, f)
    {
      var r, q: Path :| r in roots && TableAt(m', r, q) == Some(f);
      assert TableAt(m, r, q) == Some(f);
    }
  }

  // ---------- user PML4s ----------

  /** Root n sees the kernel's translations outside the user slots and nothing inside them. */
  ghost predicate UserRoot(m: Memory, m': Memory, k: nat, n: nat) {
    && (forall va: nat :: AccessOf(m', n, va) == if UserSlot(Index(va, 0)) then UNMAPPED else AccessOf(m, k, va))
    && (forall j: nat :: j < ENTRIES && !UserSlot(j) ==> WordAt(m', n, j) == WordAt(m, k, j))
  }

  lemma {:induction false} UserTableAt(m: Memory, m': Memory, roots: set<nat>, free: set<nat>, k: nat, n: nat, q: Path)
    requires Sound(m, roots, free) && k in roots && n in free && q != []
    requires forall f, j: nat :: f != n ==> WordAt(m', f, j) == WordAt(m, f, j)
    requires forall j: nat :: WordAt(m', n, j) == if UserSlot(j) then 0 else WordAt(m, k, j)
    ensures TableAt(m', n, q) == if UserSlot(q[0]) then None else TableAt(m, k, q)
  {
    var parent := q[..|q| - 1];
    if parent == [] {
      assert TableAt(m', n, parent) == Some(n) && TableAt(m, k, parent) == Some(k);
    } else {
      UserTableAt(m, m', roots, free, k, n, parent);
      if TableAt(m, k, parent).Some? {
        assert IsTable(m, roots, TableAt(m, k, parent).value);
      }
    }
  }

  lemma {:induction false} UserPair(m: Memory, m': Memory, roots: set<nat>, free: set<nat>, k: nat, n: nat, r: nat,
                                    s: nat, a: Path, b: Path)
    requires Sound(m, roots, free) && k in roots && n in free && r in roots + {n} && s in roots + {n}
    requires forall t, q: Path :: t in roots ==> TableAt(m', t, q) == TableAt(m, t, q)
    requires TableAt(m', n, []) == Some(n)
    requires forall q: Path :: q != [] ==> TableAt(m', n, q) == if UserSlot(q[0]) then None else TableAt(m, k, q)
    requires TableAt(m', r, a).Some? && TableAt(m', r, a) == TableAt(m', s, b)
    ensures a == b && (r == s || (a != [] && !UserSlot(a[0])))
  {
    hide TableAt;
    var f := TableAt(m', r, a).value;
    if f == n {
      assert forall t, q: Path :: t in roots && TableAt(m, t, q) == Some(n) ==> IsTable(m, roots, n);
      assert r == n && a == [] && s == n && b == [];
    } else {
      var (r', s') := (if r == n then k else r, if s == n then k else s);
      assert r == n ==> a != [];
      assert s == n ==> b != [];
      assert TableAt(m, r', a) == TableAt(m, s', b) == Some(f);
    }
  }

  /** The words that CreateUserPml4 puts into frame n. */
  ghost predicate CopiedRoot(m: Memory, m': Memory, k: nat, n: nat) {
    && (forall f, j: nat :: f != n ==> WordAt(m', f, j) == WordAt(m, f, j))
    && (forall j: nat :: WordAt(m', n, j) == if UserSlot(j) then 0 else WordAt(m, k, j))
  }

  lemma {:induction false} UserRootTables(m: Memory, m': Memory, roots: set<nat>, free: set<nat>, k: nat, n: nat)
    requires Sound(m, roots, free) && k in roots && n in free && CopiedRoot(m, m', k, n)
    requires forall r, q: Path :: r in roots ==> TableAt(m', r, q) == TableAt(m, r, q)
    ensures Unshared(m', roots + {n})
    ensures forall f :: IsTable(m', roots + {n}, f) ==> f !in free - {n}
  {
    assert TableAt(m', n, []) == Some(n);
    hide TableAt;
    forall q: Path | q != []
      ensures TableAt(m', n, q) == if UserSlot(q[0]) then None else TableAt(m, k, q)
    {
      UserTableAt(m, m', roots, free, k, n, q);
    }
    forall r, s, a: Path, b: Path
      | r in roots + {n} && s in roots + {n} && TableAt(m', r, a).Some? && TableAt(m', r, a) == TableAt(m', s, b)
      ensures a == b && (r == s || (a != [] && !UserSlot(a[0])))
    {
      UserPair(m, m', roots, free, k, n, r, s, a, b);
    }
    forall f | IsTable(m', roots + {n}, f)
      ensures f !in free - {n}
    {
      var r, q: Path :| r in roots + {n} && TableAt(m', r, q) == Some(f);
      if f != n {
        assert TableAt(m, if r == n then k else r, q) == Some(f);
        assert IsTable(m, roots, f);
      }
    }
  }

  lemma {:induction false} UserRootWalks(m: Memory, m': Memory, roots: set<nat>, k: nat, n: nat)
    requires SameWalks(m, m', roots) && k in roots && n < LIMIT && k < LIMIT && n != k && CopiedRoot(m, m', k, n)
    ensures UserRoot(m, m', k, n)
  {
    forall va: nat
      ensures AccessOf(m', n, va) == if UserSlot(Index(va, 0)) then UNMAPPED else AccessOf(m, k, va)
    {
      assert WordAt(m', n, Index(va, 0)) == if UserSlot(Index(va, 0)) then 0 else WordAt(m', k, Index(va, 0));
      if !UserSlot(Index(va, 0)) {
        SharedSlotWalks(m', n, k, va);
      }
    }
  }

  lemma {:induction false} UserRootSound(m: Memory, m': Memory, roots: set<nat>, free: set<nat>, k: nat, n: nat)
    requires Sound(m, roots, free) && k in roots && n in free
    requires ValidMemory(m') && m' == m[n := m'[n]]
    requires forall j :: 1 <= j < 256 ==> m'[n][j] == 0
    requires forall j :: 256 <= j < ENTRIES ==> m'[n][j] == m[k][j]
    requires m'[n][0] == m[k][0]
    ensures Sound(m', roots + {n}, free - {n}) && UserRoot(m, m', k, n)
    ensures SameWalks(m, m', roots) && KeepsPaths(m, m', roots) && KeepsSlots(m, m', roots)
  {
    RootsNotFree(m, roots, free);
    FreeFramesUnread(m, m', roots, free);
    assert CopiedRoot(m, m', k, n);
    UserRootTables(m, m', roots, free, k, n);
    UserRootWalks(m, m', roots, k, n);
  }

  // ---------- the kernel PML4 ----------

  /** The directory entry for the i-th 2 MiB page of the g-th GiB: present, writable, user, large. */
  function IdentityEntry(g: nat, i: nat): nat { g * 0x4000_0000 + i * 0x20_0000 + 0x87 }

  ghost predicate IdentityDirectory(words: seq<nat>, g: nat) {
    |words| == ENTRIES && forall i :: 0 <= i < ENTRIES ==> words[i] == IdentityEntry(g, i)
  }

  /** The PDPT names the first |pds| identity directories and nothing else. */
  ghost predicate IdentityPdpt(m: Memory, pdpt: nat, pds: seq<nat>) {
    && pdpt in m && |m[pdpt]| == ENTRIES && |pds| <= 4
    && (forall g: nat :: g < ENTRIES ==> m[pdpt][g] == if g < |pds| then pds[g] * PAGE + PRESENT_RW_USER else 0)
    && (forall g: nat :: g < |pds| ==> pds[g] < LIMIT && pds[g] in m && IdentityDirectory(m[pds[g]], g))
  }

  /** One more directory, in a frame that the PDPT does not name yet. */
  lemma {:induction false} AddDirectory(m: Memory, m': Memory, pdpt: nat, pds: seq<nat>, pd: nat)
    requires IdentityPdpt(m, pdpt, pds) && |pds| < 4 && pd < LIMIT && pd != pdpt && pd !in pds
    requires m'.Keys == m.Keys && pd in m' && IdentityDirectory(m'[pd], |pds|)
    requires m'[pdpt] == m[pdpt][|pds| := pd * PAGE + PRESENT_RW_USER]
    requires forall f :: f in m && f != pd && f != pdpt ==> m'[f] == m[f]
    requires pdpt !in pds
    ensures IdentityPdpt(m', pdpt, pds + [pd])
  {
    forall g: nat | g < |pds|
      ensures pds[g] in m' && IdentityDirectory(m'[pds[g]], g)
    {
      assert pds[g] in pds;
    }
  }

  /** The low 4 GiB are mapped to themselves, for reading, writing and user access. */
  function Identity(va: nat): Access {
    if Index(va, 1) < 4 then Access(Some(va % 0x1_0000_0000), 7, true, true) else UNMAPPED
  }

  /** Root n maps the low 4 GiB to themselves in slot 0 and is root u of m elsewhere. */
  ghost predicate KernelRoot(m: Memory, m': Memory, u: nat, n: nat) {
    forall va: nat :: AccessOf(m', n, va)
                      == if Index(va, 0) != 0 then AccessOf(m, u, va) else Identity(va)
  }

  lemma {:induction false} IdentityEntryMeaning(g: nat, va: nat)
    requires Index(va, 1) == g < 4
    ensures Present(IdentityEntry(g, Index(va, 2))) && Large(IdentityEntry(g, Index(va, 2)))
    ensures LeafAddress(IdentityEntry(g, Index(va, 2)), 2, va) == va % 0x1_0000_0000
    ensures LeafFlags(IdentityEntry(g, Index(va, 2)), 2) == 7
  {
    IdentityEntryParts(g, Index(va, 2));
    IdentityAddress(g, va);
  }

  lemma {:induction false} IdentityEntryParts(g: nat, i: nat)
    ensures Present(IdentityEntry(g, i)) && Large(IdentityEntry(g, i))
    ensures IdentityEntry(g, i) / 0x20_0000 == g * 512 + i && LeafFlags(IdentityEntry(g, i), 2) == 7
  {
    assert IdentityEntry(g, i) == (g * 512 + i) * 0x20_0000 + 0x87;
    LargeEntry(g * 512 + i);
  }

  lemma {:induction false} LargeEntry(n: nat)
    ensures Present(n * 0x20_0000 + 0x87) && Large(n * 0x20_0000 + 0x87)
    ensures (n * 0x20_0000 + 0x87) / 0x20_0000 == n && LeafFlags(n * 0x20_0000 + 0x87, 2) == 7
  {
    var e := n * 0x20_0000 + 0x87;
    DivUnique(e, 0x20_0000, n, 0x87);
    DivUnique(e, 0x80, n * 0x4000 + 1, 7);
    DivUnique(n * 0x4000 + 1, 2, n * 0x2000, 1);
    DivUnique(e, 2, n * 0x10_0000 + 0x43, 1);
    DivUnique(e, 0x100, n * 0x2000, 0x87);
    DivUnique(n * 0x2000, 0x10, n * 0x200, 0);
  }

  /** The low 32 bits of an address are its last two indices and the offset. */
  lemma {:induction false} IdentityAddress(g: nat, va: nat)
    requires Index(va, 1) == g < 4
    ensures (g * 512 + Index(va, 2)) * 0x20_0000 + va % 0x20_0000 == va % 0x1_0000_0000
  {
    var (a, b, i) := (va / 0x20_0000, va / 0x4000_0000, Index(va, 2));
    DivMod(va, 0x20_0000);
    DivMod(a, 512);
    DivUnique(va, 0x4000_0000, a / 512, i * 0x20_0000 + va % 0x20_0000);
    DivMod(b, 512);
    DivUnique(b, 4, b / 512 * 128, g);
    DivUnique(va, 0x1_0000_0000, b / 4, (g * 512 + i) * 0x20_0000 + va % 0x20_0000);
  }

  lemma {:induction false} KernelWalk(m': Memory, n: nat, pdpt: nat, pds: seq<nat>, va: nat)
    requires n < LIMIT && pdpt < LIMIT && IdentityPdpt(m', pdpt, pds) && |pds| == 4
    requires WordAt(m', n, 0) == pdpt * PAGE + PRESENT_RW_USER && Index(va, 0) == 0
    ensures AccessOf(m', n, va) == Identity(va)
  {
    TableWord(pdpt, 0);
    var g := Index(va, 1);
    assert AccessOf(m', n, va) == Below(WordAt(m', n, 0), AccessFrom(m', pdpt, 1, va));
    if g < 4 {
      TableWord(pds[g], 1);
      assert AccessFrom(m', pdpt, 1, va) == Below(WordAt(m', pdpt, g), AccessFrom(m', pds[g], 2, va));
      assert WordAt(m', pds[g], Index(va, 2)) == IdentityEntry(g, Index(va, 2));
      IdentityEntryMeaning(g, va);
    } else {
      assert WordAt(m', pdpt, g) == 0;
    }
  }

  /** Where the paths of the kernel root lead. */
  function KernelTable(m: Memory, u: nat, n: nat, pdpt: nat, pds: seq<nat>, q: Path): Option<nat>
    requires |pds| == 4
  {
    if q == [] then Some(n)
    else if q[0] != 0 then TableAt(m, u, q)
    else if |q| == 1 then Some(pdpt)
    else if |q| == 2 && q[1] < 4 then Some(pds[q[1]])
    else None
  }

  /** Every frame outside a set is as before. */
  ghost predicate ChangesOnly(m: Memory, m': Memory, frames: set<nat>) {
    m'.Keys == m.Keys && forall f :: f in m && f !in frames ==> m'[f] == m[f]
  }

  /** The frames were free, are different and are free no more. */
  ghost predicate TakenFrames(fs: seq<nat>, free: set<nat>, left: set<nat>) {
    && left <= free && |left| == |free| - |fs|
    && (forall g: nat :: g < |fs| ==> fs[g] in free && fs[g] !in left)
    && (forall g: nat, h: nat :: g < h < |fs| ==> fs[g] != fs[h])
  }

  lemma {:induction false} TakenFacts(fs: seq<nat>, free: set<nat>, left: set<nat>)
    requires TakenFrames(fs, free, left)
    ensures left <= free && |left| == |free| - |fs|
    ensures forall g: nat :: g < |fs| ==> fs[g] in free && fs[g] !in left
    ensures forall g: nat, h: nat :: g < h < |fs| ==> fs[g] != fs[h]
    ensures forall f :: f in fs ==> f in free && f !in left
  {
  }

  lemma {:induction false} OneMoreTaken(fs: seq<nat>, free: set<nat>, left: set<nat>, f: nat)
    requires TakenFrames(fs, free, left) && f in left
    ensures TakenFrames(fs + [f], free, left - {f})
  {
  }

  lemma {:induction false} NoneTaken(m: Memory, free: set<nat>, f: nat)
    ensures TakenFrames([], free, free) && ChangesOnly(m, m, free + {f})
  {
  }

  lemma {:induction false} ChangesTwice(m: Memory, m1: Memory, m2: Memory, fs: set<nat>, gs: set<nat>)
    requires ChangesOnly(m, m1, fs) && ChangesOnly(m1, m2, gs) && gs <= fs
    ensures ChangesOnly(m, m2, fs)
  {
  }

  /** What paging64_init_kernel_pml4 builds from PML4 u in frames that were free. */
  ghost predicate KernelBuilt(m: Memory, m': Memory, free: set<nat>, u: nat, n: nat, pdpt: nat, pds: seq<nat>) {
    && ValidMemory(m') && ChangesOnly(m, m', free) && n in m' && u in m && |m[u]| == ENTRIES
    && m'[n] == m[u][0 := pdpt * PAGE + PRESENT_RW_USER]
    && IdentityPdpt(m', pdpt, pds) && |pds| == 4
    && n in free && pdpt in free && (forall g: nat :: g < 4 ==> pds[g] in free)
    && n != pdpt && (forall g: nat :: g < 4 ==> pds[g] != n && pds[g] != pdpt)
    && (forall g: nat, h: nat :: g < h < 4 ==> pds[g] != pds[h])
  }

  /** The last step: slot 0 of the copied PML4 is set to the identity map. */
  lemma {:induction false} SlotSet(m: Memory, m1: Memory, free: set<nat>, u: nat, n: nat, pdpt: nat, pds: seq<nat>)
    requires ValidMemory(m1) && ChangesOnly(m, m1, free) && n in free && n in m1 && u in m && |m[u]| == ENTRIES
    requires m1[n] == m[u]
    requires IdentityPdpt(m1, pdpt, pds) && |pds| == 4 && pdpt in free && n != pdpt && forall g: nat :: g < 4 ==>
                 pds[g] in free
    requires (forall g: nat :: g < 4 ==> pds[g] != n && pds[g] != pdpt)
    requires (forall g: nat, h: nat :: g < h < 4 ==> pds[g] != pds[h])
    ensures var m' := WithWord(m1, n, 0, pdpt * PAGE + PRESENT_RW_USER);
            ValidMemory(m') && ChangesOnly(m, m', free) && KernelBuilt(m, m', free, u, n, pdpt, pds)
  {
    hide IdentityDirectory;
    var m' := WithWord(m1, n, 0, pdpt * PAGE + PRESENT_RW_USER);
    assert m' == m1[n := m'[n]];
  }

  /** The same, word by word. */
  ghost predicate KernelWords(m: Memory, m': Memory, free: set<nat>, u: nat, n: nat, pdpt: nat, pds: seq<nat>) {
    && ValidMemory(m') && (forall f, j: nat :: f !in free ==> WordAt(m', f, j) == WordAt(m, f, j))
    && IdentityPdpt(m', pdpt, pds) && |pds| == 4
    && n in free && pdpt in free && (forall g: nat :: g < 4 ==> pds[g] in free)
    && n != pdpt && (forall g: nat :: g < 4 ==> pds[g] != n && pds[g] != pdpt)
    && (forall g: nat, h: nat :: g < h < 4 ==> pds[g] != pds[h])
    && WordAt(m', n, 0) == pdpt * PAGE + PRESENT_RW_USER
    && (forall j: nat :: 0 < j ==> WordAt(m', n, j) == WordAt(m, u, j))
  }

  lemma {:induction false} KernelTableAt(m: Memory, m': Memory, free: set<nat>, u: nat, n: nat, pdpt: nat,
                                         pds: seq<nat>, q: Path)
    requires Sound(m, {u}, free) && KernelWords(m, m', free, u, n, pdpt, pds)
    ensures TableAt(m', n, q) == KernelTable(m, u, n, pdpt, pds, q)
  {
    if q != [] {
      var parent := q[..|q| - 1];
      KernelTableAt(m, m', free, u, n, pdpt, pds, parent);
      TableWord(pdpt, 0);
      if parent != [] && q[0] != 0 {
        if TableAt(m, u, parent).Some? {
          assert IsTable(m, {u}, TableAt(m, u, parent).value);
        }
      } else if parent == [] {
        assert TableAt(m, u, []) == Some(u);
      } else if |parent| == 1 {
        if q[1] < 4 {
          TableWord(pds[q[1]], 1);
        }
      } else if |parent| == 2 && q[1] < 4 && q[2] < ENTRIES {
        DirectoryNamesNoTable(q[1], q[2]);
      }
    }
  }

  lemma {:induction false} DirectoryNamesNoTable(g: nat, i: nat)
    requires g < 4 && i < ENTRIES
    ensures !LinksTable(IdentityEntry(g, i), 2)
  {
    assert IdentityEntry(g, i) / 0x80 == g * 0x80_0000 + i * 0x4000 + 1;
  }

  lemma {:induction false} KernelPair(m: Memory, free: set<nat>, u: nat, n: nat, pdpt: nat, pds: seq<nat>, a: Path,
                                      b: Path)
    requires Sound(m, {u}, free) && |pds| == 4
    requires n in free && pdpt in free && (forall g: nat :: g < 4 ==> pds[g] in free)
    requires n != pdpt && (forall g: nat :: g < 4 ==> pds[g] != n && pds[g] != pdpt)
    requires forall g: nat, h: nat :: g < h < 4 ==> pds[g] != pds[h]
    requires KernelTable(m, u, n, pdpt, pds, a).Some?
    requires KernelTable(m, u, n, pdpt, pds, a) == KernelTable(m, u, n, pdpt, pds, b)
    ensures a == b
  {
    forall q: Path | TableAt(m, u, q).Some?
      ensures TableAt(m, u, q).value !in free
    {
      assert IsTable(m, {u}, TableAt(m, u, q).value);
    }
    if a != [] && a[0] != 0 {
      assert b != [] && b[0] != 0;
    } else if |a| == 2 {
      assert |b| == 2 && a == [0, a[1]] && b == [0, b[1]];
    } else if |a| == 1 {
      assert |b| == 1 && a == [0] && b == [0];
    }
  }

  lemma {:induction false} KernelRootSound(m: Memory, m': Memory, free: set<nat>, free': set<nat>, u: nat, n: nat,
                                           pdpt: nat, pds: seq<nat>)
    requires Sound(m, {u}, free) && KernelBuilt(m, m', free, u, n, pdpt, pds)
    requires free' <= free && n !in free' && pdpt !in free' && forall g: nat :: g < 4 ==> pds[g] !in free'
    ensures Sound(m', {n}, free') && KernelRoot(m, m', u, n)
  {
    assert KernelWords(m, m', free, u, n, pdpt, pds);
    forall q: Path
      ensures TableAt(m', n, q) == KernelTable(m, u, n, pdpt, pds, q)
    {
      KernelTableAt(m, m', free, u, n, pdpt, pds, q);
    }
    forall a: Path, b: Path | TableAt(m', n, a).Some? && TableAt(m', n, a) == TableAt(m', n, b)
      ensures a == b
    {
      KernelPair(m, free, u, n, pdpt, pds, a, b);
    }
    forall f | IsTable(m', {n}, f)
      ensures f !in free'
    {
      var q: Path :| TableAt(m', n, q) == Some(f);
      if q != [] && q[0] != 0 {
        assert IsTable(m, {u}, f);
      }
    }
    FreeFramesUnread(m, m', {u}, free);
    RootsNotFree(m, {u}, free);
    forall va: nat
      ensures AccessOf(m', n, va) == if Index(va, 0) != 0 then AccessOf(m, u, va) else Identity(va)
    {
      if Index(va, 0) == 0 {
        KernelWalk(m', n, pdpt, pds, va);
      } else {
        assert WordAt(m', n, Index(va, 0)) == WordAt(m, u, Index(va, 0)) == WordAt(m', u, Index(va, 0));
        SharedSlotWalks(m', n, u, va);
      }
    }
  }
}
