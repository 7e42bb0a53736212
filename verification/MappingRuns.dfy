/** Sequences of page mappings under several PML4s. */
module MappingRuns {
  import opened Utils
  import opened PageTables
  import opened Mapping

  /** One call of map_page_64: under which root, which page, the page's physical address and its flag bits. */
  datatype Request = Request(root: nat, virt: nat, base: nat, flags: nat)

  /** What a call does to the translations; ok is false when it failed. */
  ghost predicate MapStep(m: Memory, m': Memory, roots: set<nat>, q: Request, ok: bool) {
    && KeepsSlots(m, m', roots) && KeepsRights(m, m', roots)
    && if ok then
      && q.root in roots && SeesPage(m', q.root, q.root, q.virt) && OthersKeepWalks(m, m', roots, q.virt)
      && MappedWhereSeen(m, m', roots, q.root, q.virt, q.base, q.flags) && SeenAlone(m', roots, q.root, q.virt)
    else SameWalks(m, m', roots)
  }

  /** A run of calls, under any roots and for any pages. */
  ghost predicate MapRun(ms: seq<Memory>, qs: seq<Request>, oks: seq<bool>, roots: set<nat>) {
    && |ms| == |qs| + 1 && |oks| == |qs|
    && forall i :: 0 <= i < |qs| ==> MapStep(ms[i], ms[i + 1], roots, qs[i], oks[i])
  }

  /** Whatever is mapped in user slots under other roots, the translations under a root stay the same. */
  lemma {:induction false} RunKeepsOtherRoots(ms: seq<Memory>, qs: seq<Request>, oks: seq<bool>, roots: set<nat>,
                                              s: nat, n: nat)
    requires MapRun(ms, qs, oks, roots) && s in roots && n <= |qs|
    requires forall i :: 0 <= i < |qs| ==> qs[i].root != s && UserSlot(Index(qs[i].virt, 0))
    ensures SameWalks(ms[0], ms[n], {s})
    decreases n
  {
    hide AccessOf, Index, SeesPage;
    if n > 0 {
      RunKeepsOtherRoots(ms, qs, oks, roots, s, n - 1);
      assert MapStep(ms[n - 1], ms[n], roots, qs[n - 1], oks[n - 1]) && qs[n - 1].root != s;
    }
  }

  /** The mapping of request i reaches va under root r. */
  ghost predicate Reaches(ms: seq<Memory>, qs: seq<Request>, oks: seq<bool>, i: nat, r: nat, va: nat)
    requires i < |qs| == |oks| && |ms| == |qs| + 1
  {
    oks[i] && SeesPage(ms[i + 1], qs[i].root, r, qs[i].virt) && SamePage(va, qs[i].virt)
  }

  /** What the first n calls leave: address and flags of the last mapping that reaches the address, and the
      rights of the tables as at the start. */
  ghost function Translation(ms: seq<Memory>, qs: seq<Request>, oks: seq<bool>, r: nat, va: nat, n: nat): Access
    requires n <= |qs| == |oks| && |ms| == |qs| + 1
  {
    if n == 0 then AccessOf(ms[0], r, va)
    else if Reaches(ms, qs, oks, n - 1, r, va) then
      AccessOf(ms[0], r, va).(address := Some(qs[n - 1].base + va % PAGE), flags := qs[n - 1].flags)
    else Translation(ms, qs, oks, r, va, n - 1)
  }

  /** After a run an address has the page and flags of the last successful call that reaches it, and without one
      those of before; the table entries on its way allow what they allowed before. */
  lemma {:induction false} LastMappingWins(ms: seq<Memory>, qs: seq<Request>, oks: seq<bool>, roots: set<nat>, r: nat,
                                           va: nat, n: nat)
    requires MapRun(ms, qs, oks, roots) && r in roots && n <= |qs|
    ensures AccessOf(ms[n], r, va) == Translation(ms, qs, oks, r, va, n)
    ensures AccessOf(ms[n], r, va).write == AccessOf(ms[0], r, va).write
    ensures AccessOf(ms[n], r, va).user == AccessOf(ms[0], r, va).user
    decreases n
  {
    hide AccessOf, SeesPage, Index;
    if n > 0 {
      LastMappingWins(ms, qs, oks, roots, r, va, n - 1);
      assert MapStep(ms[n - 1], ms[n], roots, qs[n - 1], oks[n - 1]);
    }
  }

  /** Whom a mapping reaches is known from the start: its own root, no other root if the slot is a user slot,
      and every root that shares the slot with its own. */
  lemma {:induction false} ReachedFromStart(ms: seq<Memory>, qs: seq<Request>, oks: seq<bool>, roots: set<nat>, i: nat,
                                            r: nat, va: nat)
    requires MapRun(ms, qs, oks, roots) && r in roots && i < |qs| && oks[i] && SamePage(va, qs[i].virt)
    requires forall s :: s in roots ==> s < LIMIT
    ensures r == qs[i].root ==> Reaches(ms, qs, oks, i, r, va)
    ensures UserSlot(Index(qs[i].virt, 0)) ==> (Reaches(ms, qs, oks, i, r, va) <==> r == qs[i].root)
    ensures SharesSlot(ms[0], qs[i].root, r, Index(qs[i].virt, 0)) ==> Reaches(ms, qs, oks, i, r, va)
  {
    hide Index, TableAt;
    var q := qs[i];
    assert MapStep(ms[i], ms[i + 1], roots, q, true);
    if SharesSlot(ms[0], q.root, r, Index(q.virt, 0)) {
      SlotStaysShared(ms, qs, oks, roots, q.root, r, Index(q.virt, 0), i + 1);
      assert PathOf(q.virt)[..3][0] == Index(q.virt, 0);
      SameSlotTables(ms[i + 1], q.root, r, PathOf(q.virt)[..3]);
    }
  }

  lemma {:induction false} SlotStaysShared(ms: seq<Memory>, qs: seq<Request>, oks: seq<bool>, roots: set<nat>, r: nat,
                                           s: nat, slot: nat, n: nat)
    requires MapRun(ms, qs, oks, roots) && r in roots && s in roots && SharesSlot(ms[0], r, s, slot) && n <= |qs|
    ensures SharesSlot(ms[n], r, s, slot)
    decreases n
  {
    if n > 0 {
      SlotStaysShared(ms, qs, oks, roots, r, s, slot, n - 1);
      assert MapStep(ms[n - 1], ms[n], roots, qs[n - 1], oks[n - 1]);
    }
  }
}
