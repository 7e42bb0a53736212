/** 32-bit page directories: two levels of 1024 words, tables made on demand and freed when empty. */
module Directories {
  import opened Utils

  const WORDS: nat := 1024
  const PAGES: nat := 0x10_0000    // pages of a 32-bit address space
  const TABLE_FLAGS: nat := 3      // present, writable

  type Memory = map<nat, seq<nat>>

  /** Page frames and their words, the frame of the directory, and the frames that the allocator
      manages and has free. */
  datatype Space = Space(mem: Memory, pd: nat, managed: set<nat>, free: set<nat>)

  function Target(w: nat): nat { w / 0x1000 }

  function Word(m: Memory, f: nat, i: nat): nat {
    if f in m && i < |m[f]| then m[f][i] else 0
  }

  function Pde(s: Space, j: nat): nat { Word(s.mem, s.pd, j) }

  predicate HasTable(s: Space, j: nat) { j < WORDS && Present(Pde(s, j)) }

  function Table(s: Space, j: nat): nat { Target(Pde(s, j)) }

  /** The entry of a virtual page, 0 when it is not mapped. */
  function Entry(s: Space, p: nat): nat {
    if HasTable(s, p / WORDS) then Word(s.mem, Table(s, p / WORDS), p % WORDS) else 0
  }

  predicate Whole(m: Memory, f: nat) { f in m && |m[f]| == WORDS }

  /** Some entry of the table is present. */
  ghost predicate Used(m: Memory, f: nat) { exists k: nat :: k < WORDS && Present(Word(m, f, k)) }

  /** Every present directory entry leads to a table of its own with a present entry, and absent words are zero. */
  ghost predicate Ok(s: Space) {
    && Whole(s.mem, s.pd) && s.free <= s.managed && s.pd !in s.free
    && (forall f :: f in s.managed ==> 0 < f < PAGES)
    && (forall j: nat :: j < WORDS && !HasTable(s, j) ==> Pde(s, j) == 0)
    && (forall j: nat :: HasTable(s, j) ==> TableOk(s, j))
    && (forall i: nat, j: nat :: i < j && HasTable(s, i) && HasTable(s, j) ==> Table(s, i) != Table(s, j))
  }

  ghost predicate TableOk(s: Space, j: nat) {
    var t := Table(s, j);
    && Whole(s.mem, t) && t != s.pd && t in s.managed && t !in s.free && Used(s.mem, t)
    && (forall k: nat :: k < WORDS && !Present(Word(s.mem, t, k)) ==> Word(s.mem, t, k) == 0)
  }

  // ---------- the two operations ----------

  function WithWord(m: Memory, f: nat, i: nat, w: nat): Memory
    requires Whole(m, f) && i < WORDS
  {
    var words: seq<nat> := m[f][i := w];
    m[f := words]
  }

  /** Mapping page p with entry w; f is the frame for a new table, if one is needed. */
  function MapWord(s: Space, p: nat, w: nat, f: nat): Space
    requires Whole(s.mem, s.pd) && p < PAGES && (HasTable(s, p / WORDS) ==> Whole(s.mem, Table(s, p / WORDS)))
    requires f != s.pd
  {
    var (j, k) := (p / WORDS, p % WORDS);
    if HasTable(s, j) then s.(mem := WithWord(s.mem, Table(s, j), k, w))
    else
      var m := WithWord(s.mem[f := Zeros(WORDS)], s.pd, j, f * 0x1000 + TABLE_FLAGS);
      s.(mem := WithWord(m, f, k, w), free := s.free - {f})
  }

  /** Unmapping page p; a table left without entries is freed. */
  ghost function UnmapWord(s: Space, p: nat): Space
    requires Whole(s.mem, s.pd) && p < PAGES && HasTable(s, p / WORDS) && Whole(s.mem, Table(s, p / WORDS))
    requires Table(s, p / WORDS) != s.pd
  {
    var (j, t) := (p / WORDS, Table(s, p / WORDS));
    var m := WithWord(s.mem, t, p % WORDS, 0);
    if Used(m, t) then s.(mem := m) else s.(mem := WithWord(m, s.pd, j, 0), free := s.free + {t})
  }

  // ---------- what they do to the entries ----------

  lemma {:induction false} WordAfter(m: Memory, f: nat, i: nat, w: nat, g: nat, k: nat)
    requires Whole(m, f) && i < WORDS
    ensures Word(WithWord(m, f, i, w), g, k) == if g == f && k == i then w else Word(m, g, k)
    ensures Whole(WithWord(m, f, i, w), g) == Whole(m, g)
  {
  }

  lemma {:induction false} PageParts(p: nat, q: nat)
    ensures p / WORDS == q / WORDS && p % WORDS == q % WORDS ==> p == q
    ensures p < PAGES ==> p / WORDS < WORDS
  {
  }

  /** Which table a directory entry leads to, after mapping a page of an existing table. */
  lemma {:induction false} MapInTable(s: Space, p: nat, w: nat, f: nat)
    requires Ok(s) && p < PAGES && Present(w) && HasTable(s, p / WORDS) && f != s.pd
    ensures var s' := MapWord(s, p, w, f);
            Ok(s') && s'.free == s.free && (forall j: nat :: Pde(s', j) == Pde(s, j))
            && (forall q: nat :: Entry(s', q) == if q == p then w else Entry(s, q))
  {
    hide Used;
    var s' := MapWord(s, p, w, f);
    var t := Table(s, p / WORDS);
    assert TableOk(s, p / WORDS);
    forall g: nat, k: nat
      ensures Word(s'.mem, g, k) == if g == t && k == p % WORDS then w else Word(s.mem, g, k)
      ensures Whole(s'.mem, g) == Whole(s.mem, g)
    {
      WordAfter(s.mem, t, p % WORDS, w, g, k);
    }
    forall j: nat
      ensures Pde(s', j) == Pde(s, j)
    {
    }
    forall j: nat | HasTable(s', j)
      ensures TableOk(s', j)
    {
      assert TableOk(s, j);
      StillUsed(s.mem, s'.mem, Table(s, j), t, p % WORDS);
    }
    forall q: nat
      ensures Entry(s', q) == if q == p then w else Entry(s, q)
    {
      PageParts(p, q);
    }
  }

  lemma {:induction false} StillUsed(m: Memory, m': Memory, f: nat, t: nat, i: nat)
    requires i < WORDS && Used(m, f) && Present(Word(m', t, i))
    requires forall g: nat, k: nat :: !(g == t && k == i) ==> Word(m', g, k) == Word(m, g, k)
    ensures Used(m', f)
  {
    var k: nat :| k < WORDS && Present(Word(m, f, k));
    assert Present(Word(m', f, k));
  }

  /** Mapping the first page of a block takes one free frame for its table. */
  lemma {:induction false} MapNewTable(s: Space, p: nat, w: nat, f: nat)
    requires Ok(s) && p < PAGES && Present(w) && !HasTable(s, p / WORDS) && f in s.free
    ensures f != s.pd
    ensures var s' := MapWord(s, p, w, f);
            Ok(s') && s'.free == s.free - {f}
            && (forall j: nat :: Pde(s', j) == if j == p / WORDS then f * 0x1000 + TABLE_FLAGS else Pde(s, j))
            && (forall q: nat :: Entry(s', q) == if q == p then w else Entry(s, q))
  {
    hide Used;
    var s' := MapWord(s, p, w, f);
    var (i, e) := (p / WORDS, f * 0x1000 + TABLE_FLAGS);
    PageParts(p, p);
    NewTableWords(s, p, w, f);
    assert Target(e) == f && Present(e);
    forall j: nat
      ensures Pde(s', j) == if j == i then e else Pde(s, j)
    {
    }
    forall j: nat | HasTable(s, j)
      ensures Table(s, j) != f
    {
      assert TableOk(s, j);
    }
    forall j: nat | HasTable(s', j)
      ensures TableOk(s', j)
    {
      if j == i {
        assert Present(Word(s'.mem, f, p % WORDS));
        UsedBy(s'.mem, f, p % WORDS);
      } else {
        assert TableOk(s, j);
        SameUsed(s.mem, s'.mem, Table(s, j));
      }
    }
    forall q: nat
      ensures Entry(s', q) == if q == p then w else Entry(s, q)
    {
      PageParts(p, q);
      if HasTable(s, q / WORDS) {
        assert TableOk(s, q / WORDS);
      }
    }
  }

  lemma {:induction false} UsedBy(m: Memory, f: nat, k: nat)
    requires k < WORDS && Present(Word(m, f, k))
    ensures Used(m, f)
  {
  }

  lemma {:induction false} SameUsed(m: Memory, m': Memory, f: nat)
    requires forall k: nat :: Word(m', f, k) == Word(m, f, k)
    ensures Used(m', f) == Used(m, f)
  {
    if Used(m, f) {
      var k: nat :| k < WORDS && Present(Word(m, f, k));
      assert Present(Word(m', f, k));
    }
    if Used(m', f) {
      var k: nat :| k < WORDS && Present(Word(m', f, k));
      assert Present(Word(m, f, k));
    }
  }

  lemma {:induction false} NewTableWords(s: Space, p: nat, w: nat, f: nat)
    requires Ok(s) && p < PAGES && !HasTable(s, p / WORDS) && f in s.free
    ensures var s' := MapWord(s, p, w, f);
            (forall g: nat, k: nat :: k < WORDS ==>
               Word(s'.mem, g, k) == if g == f then (if k == p % WORDS then w else 0)
                                     else if g == s.pd && k == p / WORDS then f * 0x1000 + TABLE_FLAGS
                                          else Word(s.mem, g, k))
            && (forall g: nat :: Whole(s'.mem, g) == (g == f || Whole(s.mem, g)))
            && (forall g: nat, k: nat :: g != f && k >= WORDS ==> Word(s'.mem, g, k) == Word(s.mem, g, k))
  {
    var j := p / WORDS;
    PageParts(p, p);
    var m0 := s.mem[f := Zeros(WORDS)];
    var m1 := WithWord(m0, s.pd, j, f * 0x1000 + TABLE_FLAGS);
    forall g: nat, k: nat
      ensures Word(m1, g, k) == if g == s.pd && k == j then f * 0x1000 + TABLE_FLAGS else Word(m0, g, k)
      ensures Word(WithWord(m1, f, p % WORDS, w), g, k) == if g == f && k == p % WORDS then w else Word(m1, g, k)
    {
      WordAfter(m0, s.pd, j, f * 0x1000 + TABLE_FLAGS, g, k);
      WordAfter(m1, f, p % WORDS, w, g, k);
    }
  }

  // ---------- unmapping ----------

  lemma {:induction false} UnmapFacts(s: Space, p: nat)
    requires Ok(s) && p < PAGES && Present(Entry(s, p))
    ensures HasTable(s, p / WORDS) && TableOk(s, p / WORDS)
    ensures var (s', t) := (UnmapWord(s, p), Table(s, p / WORDS));
            && (forall q: nat :: Entry(s', q) == if q == p then 0 else Entry(s, q))
            && s'.pd == s.pd && s'.managed == s.managed
            && ((s'.free == s.free && HasTable(s', p / WORDS) && forall j: nat :: Pde(s', j) == Pde(s, j))
                || (s'.free == s.free + {t} && forall j: nat :: Pde(s', j) == if j == p / WORDS then 0 else Pde(s, j)))
  {
    hide Used;
    assert TableOk(s, p / WORDS);
    UnmapWords(s, p);
    var s' := UnmapWord(s, p);
    var t := Table(s, p / WORDS);
    forall j: nat | HasTable(s, j) && j != p / WORDS
      ensures Table(s, j) != t
    {
    }
    forall q: nat
      ensures Entry(s', q) == if q == p then 0 else Entry(s, q)
    {
      PageParts(p, q);
      if HasTable(s, q / WORDS) {
        assert TableOk(s, q / WORDS);
      }
      if !Used(WithWord(s.mem, t, p % WORDS, 0), t) && q / WORDS == p / WORDS && q != p {
        NotUsed(WithWord(s.mem, t, p % WORDS, 0), t, q % WORDS);
      }
    }
  }

  lemma {:induction false} NotUsed(m: Memory, f: nat, k: nat)
    requires k < WORDS && !Used(m, f)
    ensures !Present(Word(m, f, k))
  {
  }

  lemma {:induction false} UnmapWords(s: Space, p: nat)
    requires Ok(s) && p < PAGES && HasTable(s, p / WORDS) && TableOk(s, p / WORDS)
    ensures var (s', t) := (UnmapWord(s, p), Table(s, p / WORDS));
            var emptied := !Used(WithWord(s.mem, t, p % WORDS, 0), t);
            && (forall g: nat, k: nat :: Word(s'.mem, g, k) == if g == t && k == p % WORDS then 0
                                         else if emptied && g == s.pd && k == p / WORDS then 0 else Word(s.mem, g, k))
            && (forall g: nat :: Whole(s'.mem, g) == Whole(s.mem, g))
  {
    hide Used;
    var t := Table(s, p / WORDS);
    var m := WithWord(s.mem, t, p % WORDS, 0);
    PageParts(p, p);
    forall g: nat, k: nat
      ensures Word(m, g, k) == if g == t && k == p % WORDS then 0 else Word(s.mem, g, k)
      ensures Whole(m, g) == Whole(s.mem, g)
      ensures Word(WithWord(m, s.pd, p / WORDS, 0), g, k) == if g == s.pd && k == p / WORDS then 0 else Word(m, g, k)
      ensures Whole(WithWord(m, s.pd, p / WORDS, 0), g) == Whole(m, g)
    {
      WordAfter(s.mem, t, p % WORDS, 0, g, k);
      WordAfter(m, s.pd, p / WORDS, 0, g, k);
    }
  }

  /** Unmapping a mapped page keeps every present directory entry leading to a table in use. */
  lemma {:induction false} UnmapOk(s: Space, p: nat)
    requires Ok(s) && p < PAGES && Present(Entry(s, p))
    ensures HasTable(s, p / WORDS) && TableOk(s, p / WORDS) && Ok(UnmapWord(s, p))
  {
    hide Used;
    assert TableOk(s, p / WORDS);
    UnmapFacts(s, p);
    UnmapWords(s, p);
    var (s', t) := (UnmapWord(s, p), Table(s, p / WORDS));
    forall j: nat | HasTable(s', j)
      ensures TableOk(s', j)
    {
      assert HasTable(s, j) && TableOk(s, j);
      if j == p / WORDS {
        SameUsed(WithWord(s.mem, t, p % WORDS, 0), s'.mem, t);
      } else {
        SameUsed(s.mem, s'.mem, Table(s, j));
      }
    }
  }
}
