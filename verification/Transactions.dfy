/** Mapping a range of pages and taking it back: what is between two states of a directory. */
module Transactions {
  import opened Utils
  import opened Directories

  ghost predicate IsTable(s: Space, f: nat) { exists j: nat :: HasTable(s, j) && Table(s, j) == f }

  /** f is free, or a table, or set aside by the caller. */
  ghost predicate Accounted(s: Space, held: set<nat>, f: nat) { f in s.free || IsTable(s, f) || f in held }

  /** s is s0 with the pages lo..hi mapped anew and base..lo unmapped again, while the caller holds the
      frames held. Pages that were mapped before are overwritten, and a table of s0 may be gone again. */
  ghost predicate Extends(s0: Space, s: Space, base: nat, lo: nat, hi: nat, held: set<nat>) {
    && Ok(s0) && Ok(s) && s.pd == s0.pd && s.managed == s0.managed
    && base <= lo <= hi <= PAGES
    && (forall q: nat :: !(base <= q < hi) ==> Entry(s, q) == Entry(s0, q))
    && (forall q: nat :: base <= q < lo ==> Entry(s, q) == 0)
    && (forall q: nat :: lo <= q < hi ==> Present(Entry(s, q)))
    && (forall j: nat :: HasTable(s0, j) && HasTable(s, j) ==> Pde(s, j) == Pde(s0, j))
    && (forall j: nat :: HasTable(s0, j) && base == lo ==> HasTable(s, j))
    && (forall j: nat :: HasTable(s, j) && !HasTable(s0, j) ==> Pde(s, j) % 0x1000 == 3)
    && (forall f :: f in held ==> f in s.managed && f !in s.free && !IsTable(s, f) && f != s.pd)
    && (forall f: nat :: Accounted(s, held, f) <==> Accounted(s0, {}, f))
  }

  /** The pages base..hi are unmapped, the others are as before, and no frame came free or was lost
      but through tables. */
  ghost predicate Erased(s0: Space, s: Space, base: nat, hi: nat) {
    && Ok(s) && s.pd == s0.pd && s.managed == s0.managed
    && (forall q: nat :: Entry(s, q) == if base <= q < hi then 0 else Entry(s0, q))
    && (forall f: nat :: Accounted(s, {}, f) <==> Accounted(s0, {}, f))
  }

  /** The same directory words, entries and free frames. */
  ghost predicate Same(s0: Space, s: Space) {
    && s.pd == s0.pd && s.managed == s0.managed && s.free == s0.free
    && (forall j: nat :: j < WORDS ==> Pde(s, j) == Pde(s0, j))
    && (forall q: nat :: Entry(s, q) == Entry(s0, q))
  }

  /** A page that is mapped through table j. */
  lemma {:induction false} EntryOfTable(s: Space, j: nat) returns (q: nat)
    requires Ok(s) && HasTable(s, j)
    ensures q / WORDS == j && Present(Entry(s, q))
  {
    assert TableOk(s, j);
    var k: nat :| k < WORDS && Present(Word(s.mem, Table(s, j), k));
    q := j * WORDS + k;
  }

  /** A table whose entries survive is still a table. */
  lemma {:induction false} TableSurvives(s: Space, s': Space, j: nat)
    requires Ok(s) && forall q: nat :: q / WORDS == j && Present(Entry(s, q)) ==> Entry(s', q) == Entry(s, q)
    ensures HasTable(s, j) ==> HasTable(s', j)
  {
    if HasTable(s, j) {
      var q := EntryOfTable(s, j);
      assert Entry(s', q) == Entry(s, q);
    }
  }

  /** When nothing more is mapped and nothing is held, only the pages that were overwritten differ. */
  lemma {:induction false} NothingLeft(s0: Space, s: Space, base: nat, hi: nat)
    requires Extends(s0, s, base, hi, hi, {})
    ensures Erased(s0, s, base, hi)
    ensures (forall q: nat :: base <= q < hi ==> Entry(s0, q) == 0) ==> Same(s0, s)
  {
    hide Ok, IsTable;
    if forall q: nat :: base <= q < hi ==> Entry(s0, q) == 0 {
      AllBack(s0, s, base, hi);
    }
  }

  lemma {:induction false} AllBack(s0: Space, s: Space, base: nat, hi: nat)
    requires Extends(s0, s, base, hi, hi, {}) && forall q: nat :: base <= q < hi ==> Entry(s0, q) == 0
    ensures Same(s0, s)
  {
    forall j: nat | j < WORDS
      ensures Pde(s, j) == Pde(s0, j)
    {
      TableSurvives(s, s0, j);
      TableSurvives(s0, s, j);
    }
    forall f: nat
      ensures f in s.free <==> f in s0.free
    {
      assert Accounted(s, {}, f) <==> Accounted(s0, {}, f);
      assert IsTable(s, f) <==> IsTable(s0, f);
      FreeNotTable(s, f);
      FreeNotTable(s0, f);
    }
  }

  lemma {:induction false} FreeNotTable(s: Space, f: nat)
    requires Ok(s)
    ensures f in s.free ==> !IsTable(s, f)
  {
    if IsTable(s, f) {
      var j: nat :| HasTable(s, j) && Table(s, j) == f;
      assert TableOk(s, j);
    }
  }

  lemma {:induction false} Start(s: Space, lo: nat)
    requires Ok(s) && lo <= PAGES
    ensures Extends(s, s, lo, lo, lo, {})
  {
  }

  /** Taking a free frame aside. */
  lemma {:induction false} Hold(s0: Space, s: Space, base: nat, lo: nat, hi: nat, held: set<nat>, f: nat)
    requires Extends(s0, s, base, lo, hi, held) && f in s.free
    ensures Extends(s0, s.(free := s.free - {f}), base, lo, hi, held + {f})
  {
    var s' := s.(free := s.free - {f});
    SameTables(s, s');
    forall g: nat
      ensures Accounted(s', held + {f}, g) <==> Accounted(s, held, g)
    {
    }
    FreeNotTable(s, f);
  }

  /** Giving a frame back. */
  lemma {:induction false} Return(s0: Space, s: Space, base: nat, lo: nat, hi: nat, held: set<nat>, f: nat)
    requires Extends(s0, s, base, lo, hi, held) && f in held
    ensures Extends(s0, s.(free := s.free + {f}), base, lo, hi, held - {f})
  {
    var s' := s.(free := s.free + {f});
    SameTables(s, s');
    forall j: nat | HasTable(s, j)
      ensures TableOk(s', j)
    {
      assert TableOk(s, j);
      assert IsTable(s, Table(s, j));
    }
    forall g: nat
      ensures Accounted(s', held - {f}, g) <==> Accounted(s, held, g)
    {
    }
  }

  /** Only the free set differs. */
  lemma {:induction false} SameTables(s: Space, s': Space)
    requires s' == s.(free := s'.free)
    ensures forall j: nat :: Pde(s', j) == Pde(s, j)
    ensures forall q: nat :: Entry(s', q) == Entry(s, q)
    ensures forall f: nat :: IsTable(s', f) == IsTable(s, f)
    ensures forall j: nat :: HasTable(s, j) && TableOk(s, j) && s'.free <= s.free ==> TableOk(s', j)
  {
    forall f: nat
      ensures IsTable(s', f) == IsTable(s, f)
    {
      SameIsTable(s, s', f);
      SameIsTable(s', s, f);
    }
  }

  lemma {:induction false} SameIsTable(s: Space, s': Space, f: nat)
    requires forall j: nat :: Pde(s', j) == Pde(s, j)
    ensures IsTable(s, f) ==> IsTable(s', f)
  {
    if IsTable(s, f) {
      var j: nat :| HasTable(s, j) && Table(s, j) == f;
      assert HasTable(s', j) && Table(s', j) == f;
    }
  }

  lemma {:induction false} OkWhole(s: Space)
    requires Ok(s)
    ensures Whole(s.mem, s.pd)
  {
  }

  /** Mapping the next page. */
  lemma {:induction false} MapExtends(s0: Space, s: Space, lo: nat, hi: nat, held: set<nat>, w: nat, f: nat)
    requires Extends(s0, s, lo, lo, hi, held) && hi < PAGES && Present(w)
    requires !HasTable(s, hi / WORDS) ==> f in s.free
    requires f != s.pd && (HasTable(s, hi / WORDS) ==> Whole(s.mem, Table(s, hi / WORDS)))
    ensures Extends(s0, MapWord(s, hi, w, f), lo, lo, hi + 1, held)
  {
    hide Ok, MapWord;
    OkWhole(s);
    var s' := MapWord(s, hi, w, f);
    if HasTable(s, hi / WORDS) {
      MapInTable(s, hi, w, f);
      forall g: nat
        ensures IsTable(s', g) == IsTable(s, g)
      {
        SameIsTable(s, s', g);
        SameIsTable(s', s, g);
      }
    } else {
      MapNewTable(s, hi, w, f);
      assert (f * 0x1000 + TABLE_FLAGS) % 0x1000 == 3;
      forall g: nat
        ensures IsTable(s', g) == (IsTable(s, g) || g == f)
      {
        AddedTable(s, s', hi / WORDS, f, g);
      }
    }
    MapFields(s, hi, w, f);
    forall g: nat
      ensures Accounted(s', held, g) <==> Accounted(s, held, g)
    {
    }
  }

  lemma {:induction false} MapFields(s: Space, p: nat, w: nat, f: nat)
    requires Ok(s) && p < PAGES && f != s.pd && (HasTable(s, p / WORDS) ==> Whole(s.mem, Table(s, p / WORDS)))
    ensures MapWord(s, p, w, f).pd == s.pd && MapWord(s, p, w, f).managed == s.managed
  {
  }

  lemma {:induction false} AddedTable(s: Space, s': Space, i: nat, f: nat, g: nat)
    requires i < WORDS && !HasTable(s, i)
    requires forall j: nat :: Pde(s', j) == if j == i then f * 0x1000 + TABLE_FLAGS else Pde(s, j)
    ensures IsTable(s', g) == (IsTable(s, g) || g == f)
  {
    assert HasTable(s', i) && Table(s', i) == f;
    if IsTable(s, g) {
      var j: nat :| HasTable(s, j) && Table(s, j) == g;
      assert HasTable(s', j) && Table(s', j) == g;
    }
    if IsTable(s', g) && g != f {
      var j: nat :| HasTable(s', j) && Table(s', j) == g;
      assert HasTable(s, j) && Table(s, j) == g;
    }
  }

  /** Unmapping the first added page. */
  lemma {:induction false} UnmapExtends(s0: Space, s: Space, base: nat, lo: nat, hi: nat, held: set<nat>)
    requires Extends(s0, s, base, lo, hi, held) && lo < hi
    ensures HasTable(s, lo / WORDS) && TableOk(s, lo / WORDS)
    ensures Extends(s0, UnmapWord(s, lo), base, lo + 1, hi, held)
  {
    hide Ok, UnmapWord;
    OkWhole(s);
    UnmapFacts(s, lo);
    UnmapOk(s, lo);
    var (s', t, i) := (UnmapWord(s, lo), Table(s, lo / WORDS), lo / WORDS);
    if s'.free == s.free && HasTable(s', i) {
      forall g: nat
        ensures IsTable(s', g) == IsTable(s, g)
      {
        SameIsTable(s, s', g);
        SameIsTable(s', s, g);
      }
    } else {
      forall g: nat
        ensures IsTable(s', g) == (IsTable(s, g) && g != t)
      {
        RemovedTable(s, s', i, g);
      }
    }
    forall g: nat
      ensures Accounted(s', held, g) <==> Accounted(s, held, g)
    {
    }
  }

  lemma {:induction false} RemovedTable(s: Space, s': Space, i: nat, g: nat)
    requires Ok(s) && HasTable(s, i)
    requires forall j: nat :: Pde(s', j) == if j == i then 0 else Pde(s, j)
    ensures IsTable(s', g) == (IsTable(s, g) && g != Table(s, i))
  {
    if IsTable(s', g) {
      var j: nat :| HasTable(s', j) && Table(s', j) == g;
      assert HasTable(s, j) && Table(s, j) == g && j != i;
    }
    if IsTable(s, g) && g != Table(s, i) {
      var j: nat :| HasTable(s, j) && Table(s, j) == g;
      assert HasTable(s', j) && Table(s', j) == g;
    }
  }

  /** Unmapping right after mapping an unmapped page restores directory, entries and free frames. */
  lemma {:induction false} UnmapUndoesMap(s: Space, p: nat, w: nat, f: nat)
    requires Ok(s) && p < PAGES && Present(w) && Entry(s, p) == 0 && f != s.pd
    requires (!HasTable(s, p / WORDS) ==> f in s.free)
    ensures HasTable(s, p / WORDS) ==> TableOk(s, p / WORDS)
    ensures var s1 := MapWord(s, p, w, f);
            HasTable(s1, p / WORDS) && TableOk(s1, p / WORDS) && Same(s, UnmapWord(s1, p))
  {
    hide MapWord, UnmapWord;
    assert HasTable(s, p / WORDS) ==> TableOk(s, p / WORDS);
    Start(s, p);
    MapExtends(s, s, p, p, {}, w, f);
    var s1 := MapWord(s, p, w, f);
    UnmapExtends(s, s1, p, p, p + 1, {});
    NothingLeft(s, UnmapWord(s1, p), p, p + 1);
  }
}
