/** map_page_64 on memory as it is, step by step, whatever its words are; and what that means for the
    translations, on paths where every word is what the mapper takes it for, and under a 1 GiB page. */
module MapSteps {
  import opened Utils
  import opened Arith
  import opened PageTables
  import opened Mapping
  import opened MappingRuns

  /** Memory and free frames after a step, and the table reached; None when the step failed. */
  datatype Step = Step(mem: Memory, free: set<nat>, table: Option<nat>)

  // ---------- the lowest free frame ----------

  ghost predicate IsLowest(n: nat, free: set<nat>) { n in free && forall f :: f in free ==> n <= f }

  lemma {:induction false} LowestExists(free: set<nat>) returns (n: nat)
    requires free != {}
    ensures IsLowest(n, free)
    decreases |free|
  {
    n :| n in free;
    var rest := free - {n};
    if rest != {} {
      assert |rest| < |free|;
      var y := LowestExists(rest);
      LowerOf(free, n, y);
      n := if n <= y then n else y;
    } else {
      assert free == {n};
    }
  }

  lemma {:induction false} LowerOf(free: set<nat>, x: nat, y: nat)
    requires x in free && IsLowest(y, free - {x})
    ensures IsLowest(if x <= y then x else y, free)
  {
    forall f | f in free
      ensures (if x <= y then x else y) <= f
    {
      assert f == x || f in free - {x};
    }
  }

  lemma {:induction false} SomeLowest(free: set<nat>)
    requires free != {}
    ensures exists n :: IsLowest(n, free)
  {
    var n := LowestExists(free);
  }

  ghost function Lowest(free: set<nat>): (n: nat)
    requires free != {}
    ensures IsLowest(n, free)
  {
    SomeLowest(free);
    var n :| IsLowest(n, free);
    n
  }

  // ---------- one level, three levels, the whole call ----------

  /** The first n of the words that map the 2 MiB page of entry e in pieces. */
  ghost function SplitWords(e: nat, n: nat): (words: seq<nat>)
    ensures |words| == n && forall j :: 0 <= j < n ==> words[j] == SplitWord(e, j)
  {
    if n == 0 then [] else SplitWords(e, n - 1) + [SplitWord(e, n - 1)]
  }

  /** A free frame becomes the table that word i of frame t names. */
  ghost function Attached(m: Memory, free: set<nat>, t: nat, i: nat, words: seq<nat>): Step {
    if free == {} then Step(m, free, None)
    else
      var n := Lowest(free);
      Step(WithTable(m, t, i, n, words), free - {n}, Some(n))
  }

  /** One level: word i of frame t is created, split or followed without its NX bit. Only a word at depth
      2 is taken for a large page, and a word that is none may name any frame below 4 GiB. */
  ghost function Follow(m: Memory, free: set<nat>, t: nat, d: nat, i: nat): Step {
    var e := WordAt(m, t, i);
    if !Present(e) then Attached(m, free, t, i, ZEROS)
    else if d == 2 && Large(e) then Attached(m, free, t, i, SplitWords(e, ENTRIES))
    else Step(WithWord(m, t, i, e % NX), free, if FrameOf(e % NX) < LIMIT then Some(FrameOf(e % NX)) else None)
  }

  /** The first three levels. */
  ghost function Reach(m: Memory, free: set<nat>, root: nat, v: Path): Step
    requires |v| == 4
  {
    var s := Follow(m, free, root, 0, v[0]);
    if s.table == None then s else ReachFrom(s, v)
  }

  ghost function ReachFrom(s: Step, v: Path): Step
    requires |v| == 4 && s.table.Some?
  {
    var s2 := Follow(s.mem, s.free, s.table.value, 1, v[1]);
    if s2.table == None then s2 else Follow(s2.mem, s2.free, s2.table.value, 2, v[2])
  }

  /** The call: the frame reached gets the entry. */
  ghost function MapResult(m: Memory, free: set<nat>, root: nat, v: Path, e: nat): Step
    requires |v| == 4
  {
    var s := Reach(m, free, root, v);
    if s.table == None then s else s.(mem := WithWord(s.mem, s.table.value, v[3], e))
  }

  // ---------- paths that are what they seem ----------

  /** A step over a good word is invisible, and leads to the table one level down. */
  lemma {:induction false} FollowInvisible(m: Memory, free: set<nat>, roots: set<nat>, root: nat, t: nat, d: nat,
                                           v: Path)
    requires Sound(m, roots, free) && root in roots && d < 3 && |v| == 4 && v[d] < ENTRIES
    requires TableAt(m, root, v[..d]) == Some(t) && EntryOk(WordAt(m, t, v[d]), d)
    ensures var s := Follow(m, free, t, d, v[d]);
            && Invisible(m, s.mem, roots, free, s.free)
            && (s.table.Some? ==> TableAt(s.mem, root, v[..d + 1]) == s.table)
            && Enough(TablesNeeded(m, t, d, v), |free|)
               == (s.table.Some? && Enough(TablesNeeded(s.mem, s.table.value, d + 1, v), |s.free|))
  {
    hide TableAt, AccessFrom, Invisible;
    var (e, s) := (WordAt(m, t, v[d]), Follow(m, free, t, d, v[d]));
    TableAtDepth(m, root, v[..d]);
    assert IsTable(m, roots, t);
    assert v[..d + 1] == v[..d] + [v[d]];
    if !Present(e) {
      if free != {} {
        CreatedZero(m, roots, free, root, v[..d], t, v[d], Lowest(free));
        NeededBelowNew(s.mem, s.table.value, d, v);
      } else {
        NothingInvisible(m, roots, free);
      }
    } else if d == 2 && Large(e) {
      if free != {} {
        CreatedSplit(m, roots, free, root, v[..d], t, v[d], Lowest(free), SplitWords(e, ENTRIES));
      } else {
        NothingInvisible(m, roots, free);
      }
    } else {
      GoodWordFollowed(m, free, roots, root, t, d, v);
    }
  }

  lemma {:induction false} NothingInvisible(m: Memory, roots: set<nat>, free: set<nat>)
    requires Sound(m, roots, free)
    ensures Invisible(m, m, roots, free, free)
  {
  }

  lemma {:induction false} GoodWordFollowed(m: Memory, free: set<nat>, roots: set<nat>, root: nat, t: nat, d: nat,
                                            v: Path)
    requires Sound(m, roots, free) && root in roots && d < 3 && |v| == 4 && v[d] < ENTRIES
    requires TableAt(m, root, v[..d]) == Some(t) && t < LIMIT && v[..d + 1] == v[..d] + [v[d]]
    requires var e := WordAt(m, t, v[d]); Present(e) && !IsLeaf(e, d) && e < NX
    ensures var s := Follow(m, free, t, d, v[d]);
            && s.mem == m && s.free == free && Invisible(m, m, roots, free, free)
            && (s.table.Some? ==> TableAt(m, root, v[..d + 1]) == s.table)
            && Enough(TablesNeeded(m, t, d, v), |free|) == (s.table.Some? && Enough(TablesNeeded(m, s.table.value, d + 1, v), |free|))
  {
    var e := WordAt(m, t, v[d]);
    assert e % NX == e;
    assert WithWord(m, t, v[d], e) == m by {
      assert m[t][v[d] := e] == m[t];
    }
    assert v[..d + 1][..d] == v[..d];
    NothingInvisible(m, roots, free);
  }

  /** The first three levels of a good path are invisible, and succeed exactly when the frames are there. */
  lemma {:induction false} ReachInvisible(m: Memory, free: set<nat>, roots: set<nat>, root: nat, v: Path)
    requires Sound(m, roots, free) && root in roots && |v| == 4 && (forall d :: 0 <= d < 4 ==> v[d] < ENTRIES)
    requires PathOk(m, root, v)
    ensures var s := Reach(m, free, root, v);
            && Invisible(m, s.mem, roots, free, s.free)
            && (s.table.Some? ==> TableAt(s.mem, root, v[..3]) == s.table)
            && (s.table.Some? <==> Enough(TablesNeeded(m, root, 0, v), |free|))
  {
    hide AccessFrom, Follow, Sound, SameWalks, KeepsPaths, KeepsSlots, KeepsData, PathOk, ReachFrom, Enough, TablesNeeded;
    assert v[..0] == [] && TableAt(m, root, v[..0]) == Some(root) by {
      RootBelowLimit(m, roots, free, root);
    }
    PathStays(m, m, roots, root, v, free, free, 0);
    FollowInvisible(m, free, roots, root, root, 0, v);
    var s := Follow(m, free, root, 0, v[0]);
    if s.table.Some? {
      PathStays(m, s.mem, roots, root, v, free, s.free, 1);
      RestInvisible(s, roots, root, v);
      var s3 := ReachFrom(s, v);
      InvisibleTwice(m, s.mem, s3.mem, roots, free, s.free, s3.free);
    }
  }

  lemma {:induction false} RootBelowLimit(m: Memory, roots: set<nat>, free: set<nat>, root: nat)
    requires Sound(m, roots, free) && root in roots
    ensures root < LIMIT && TableAt(m, root, []) == Some(root) && Invisible(m, m, roots, free, free)
  {
  }

  lemma {:induction false} RestInvisible(s: Step, roots: set<nat>, root: nat, v: Path)
    requires Sound(s.mem, roots, s.free) && root in roots && |v| == 4 && (forall d :: 0 <= d < 4 ==> v[d] < ENTRIES)
    requires PathOk(s.mem, root, v)
    requires s.table.Some? && TableAt(s.mem, root, v[..1]) == s.table
    ensures var r := ReachFrom(s, v);
            && Invisible(s.mem, r.mem, roots, s.free, r.free)
            && (r.table.Some? ==> TableAt(r.mem, root, v[..3]) == r.table)
            && (r.table.Some? <==> Enough(TablesNeeded(s.mem, s.table.value, 1, v), |s.free|))
  {
    hide TableAt, AccessFrom, Follow, Sound, SameWalks, KeepsPaths, KeepsSlots, KeepsData, PathOk, Enough, TablesNeeded;
    RootBelowLimit(s.mem, roots, s.free, root);
    PathStays(s.mem, s.mem, roots, root, v, s.free, s.free, 1);
    FollowInvisible(s.mem, s.free, roots, root, s.table.value, 1, v);
    var s2 := Follow(s.mem, s.free, s.table.value, 1, v[1]);
    if s2.table.Some? {
      PathStays(s.mem, s2.mem, roots, root, v, s.free, s2.free, 2);
      FollowInvisible(s2.mem, s2.free, roots, root, s2.table.value, 2, v);
      var s3 := Follow(s2.mem, s2.free, s2.table.value, 2, v[2]);
      InvisibleTwice(s.mem, s2.mem, s3.mem, roots, s.free, s2.free, s3.free);
      AllReached(s3.mem, s3.table, v, |s3.free|);
    }
  }

  lemma {:induction false} AllReached(m: Memory, t: Option<nat>, v: Path, available: nat)
    requires |v| == 4
    ensures t.Some? ==> Enough(TablesNeeded(m, t.value, 3, v), available)
  {
  }

  /** A good path stays good, and its word at depth d is good. */
  lemma {:induction false} PathStays(m: Memory, m': Memory, roots: set<nat>, root: nat, v: Path, free: set<nat>,
                                     free': set<nat>, d: nat)
    requires Invisible(m, m', roots, free, free') && root in roots && |v| == 4 && PathOk(m, root, v) && d < 3
    ensures Sound(m', roots, free') && PathOk(m', root, v)
    ensures TableAt(m', root, v[..d]).Some? ==> EntryOk(WordAt(m', TableAt(m', root, v[..d]).value, v[d]), d)
  {
  }

  /** What a call does to the translations under all roots, on a good path: m' is m with the page of virt
      mapped by entry e, or ok is false and no translation has changed. */
  ghost predicate PageMapped(m: Memory, m': Memory, roots: set<nat>, free: set<nat>, free': set<nat>, root: nat,
                             virt: nat, e: nat, ok: bool) {
    && Sound(m', roots, free') && free' <= free
    && (ok <==> Enough(TablesNeeded(m, root, 0, PathOf(virt)), |free|))
    && KeepsPaths(m, m', roots) && KeepsData(m, m', roots, free)
    && MapStep(m, m', roots, Request(root, virt, PageOf(e), e % PAGE), ok)
    && (ok ==> LeafIs(m', root, virt, e))
  }

  lemma {:induction false} GoodPathMapped(m: Memory, free: set<nat>, roots: set<nat>, root: nat, virt: nat, e: nat)
    requires Sound(m, roots, free) && root in roots && PathOk(m, root, PathOf(virt)) && Present(e)
    ensures var s := MapResult(m, free, root, PathOf(virt), e);
            PageMapped(m, s.mem, roots, free, s.free, root, virt, e, s.table.Some?)
  {
    hide TableAt, AccessFrom, Reach, TablesNeeded;
    var s := Reach(m, free, root, PathOf(virt));
    ReachInvisible(m, free, roots, root, PathOf(virt));
    if s.table.Some? {
      var m' := WithWord(s.mem, s.table.value, Index(virt, 3), e);
      MapEffects(m, s.mem, m', roots, free, s.free, root, virt, s.table.value, e);
    }
  }

  /** A page mapped to phys with these flags gives them to every access. */
  lemma {:induction false} PageGranted(m: Memory, free: set<nat>, roots: set<nat>, root: nat, virt: nat, phys: nat,
                                       flags: nat)
    requires root in roots
    requires var s := MapResult(m, free, root, PathOf(virt), LeafWord(phys, flags));
             PageMapped(m, s.mem, roots, free, s.free, root, virt, LeafWord(phys, flags), s.table.Some?)
    ensures var s := MapResult(m, free, root, PathOf(virt), LeafWord(phys, flags));
            s.table.Some? ==>
              forall va: nat :: SamePage(va, virt) ==> Grants(AccessOf(s.mem, root, va), phys, flags, va)
  {
    hide AccessOf, LeafWord, Grants, MapResult;
    var s := MapResult(m, free, root, PathOf(virt), LeafWord(phys, flags));
    if s.table.Some? {
      forall va: nat | SamePage(va, virt)
        ensures Grants(AccessOf(s.mem, root, va), phys, flags, va)
      {
        assert MapsTo(s.mem, root, virt, PageOf(LeafWord(phys, flags)), LeafWord(phys, flags) % PAGE);
        MappedGrants(s.mem, root, virt, phys, flags, va);
      }
    }
  }

  lemma {:induction false} MappedSound(m: Memory, free: set<nat>, roots: set<nat>, root: nat, virt: nat, e: nat)
    requires var s := MapResult(m, free, root, PathOf(virt), e);
             PageMapped(m, s.mem, roots, free, s.free, root, virt, e, s.table.Some?)
    ensures var s := MapResult(m, free, root, PathOf(virt), e); Sound(s.mem, roots, s.free)
  {
  }

  lemma {:induction false} WordStays(m: Memory, t: nat, i: nat, e: nat)
    requires ValidMemory(m)
    ensures ValidMemory(WithWord(m, t, i, e))
  {
  }

  // ---------- under a 1 GiB page ----------

  /** Where the 1 GiB page of entry e has the page of virt. */
  function HugeBase(e: nat, virt: nat): nat {
    e % 0x10_0000_0000_0000 / 0x4000_0000 * 0x4000_0000 + virt / PAGE % 0x4_0000 * PAGE
  }

  /** The frame that gets the entry when frame d, which holds data, is taken for a directory; None when the call fails. */
  ghost function LastFrame(m: Memory, free: set<nat>, d: nat, i: nat): Option<nat> {
    var w := WordAt(m, d, i);
    if d >= LIMIT then None
    else if !Present(w) || Large(w) then (if free == {} then None else Some(Lowest(free)))
    else if FrameOf(w % NX) < LIMIT then Some(FrameOf(w % NX))
    else None
  }

  /** The path of virt goes over word e of the PDPT, which maps 1 GiB. */
  ghost predicate OverHugePage(m: Memory, root: nat, pdpt: nat, e: nat, virt: nat) {
    && root < LIMIT && LinksTable(WordAt(m, root, Index(virt, 0)), 0)
    && pdpt == FrameOf(WordAt(m, root, Index(virt, 0)))
    && e == WordAt(m, pdpt, Index(virt, 1)) && Present(e) && Large(e)
  }

  /** Word i of frame f is none of the two words that a walk to virt reads. */
  predicate OffWalk(f: nat, i: nat, root: nat, pdpt: nat, virt: nat) {
    !(f == root && i == Index(virt, 0)) && !(f == pdpt && i == Index(virt, 1))
  }

  /** The two data words that a call writes, and the frame it may take, are none that the walk reads. */
  ghost predicate WritesOff(m: Memory, free: set<nat>, root: nat, pdpt: nat, e: nat, virt: nat) {
    var (d, last) := (FrameOf(e % NX), LastFrame(m, free, FrameOf(e % NX), Index(virt, 2)));
    && root !in free && pdpt !in free && OffWalk(d, Index(virt, 2), root, pdpt, virt)
    && (last.Some? ==> OffWalk(last.value, Index(virt, 3), root, pdpt, virt))
  }

  /** What the call leaves in word i of the data frame d. */
  ghost function DirectoryWord(m: Memory, free: set<nat>, d: nat, i: nat): nat {
    var w := WordAt(m, d, i);
    if Present(w) && !Large(w) then w % NX else if free == {} then w else Lowest(free) * PAGE + PRESENT_RW_USER
  }

  /** The memory after a call that took the data frame d for a directory: the NX bit of the 1 GiB entry is
      gone, and words of the data frame and of the frame last reached are overwritten. */
  ghost predicate HugeWritten(m: Memory, m': Memory, free: set<nat>, pdpt: nat, e: nat, virt: nat, leaf: nat) {
    var (d, last) := (FrameOf(e % NX), LastFrame(m, free, FrameOf(e % NX), Index(virt, 2)));
    && (last.Some? ==> WordAt(m', last.value, Index(virt, 3)) == leaf)
    && (d < LIMIT && !(last == Some(d) && Index(virt, 2) == Index(virt, 3)) ==>
           WordAt(m', d, Index(virt, 2)) == DirectoryWord(m, free, d, Index(virt, 2)))
    && (forall f, i: nat :: WordAt(m', f, i) == WordAt(m, f, i) || f in free || (f == pdpt && i == Index(virt, 1))
                            || (f == d && i == Index(virt, 2)) || (last == Some(f) && i == Index(virt, 3)))
  }

  /** Under a 1 GiB page a call succeeds exactly when a last frame is found, and if its writes are off the walk
      then no translation of that GiB changes: the page of virt has the address and flags asked for if and only
      if the 1 GiB page gives it these already. What changes are words of frames that hold data. */
  lemma {:induction false} UnderHugePage(m: Memory, free: set<nat>, root: nat, pdpt: nat, e: nat, virt: nat, leaf: nat,
                                         base: nat, flags: nat)
    requires ValidMemory(m) && OverHugePage(m, root, pdpt, e, virt) && WritesOff(m, free, root, pdpt, e, virt)
    requires forall f :: f in free ==> f < LIMIT
    ensures var s := MapResult(m, free, root, PathOf(virt), leaf);
            && s.table == LastFrame(m, free, FrameOf(e % NX), Index(virt, 2))
            && HugeWritten(m, s.mem, free, pdpt, e, virt, leaf)
            && (forall va: nat :: Index(va, 0) == Index(virt, 0) && Index(va, 1) == Index(virt, 1) ==>
                   AccessOf(s.mem, root, va) == AccessOf(m, root, va))
            && (MapsTo(s.mem, root, virt, base, flags) <==> base == HugeBase(e, virt) && flags == LeafFlags(e, 1))
  {
    hide Zeros, SplitWords, LastFrame, HugeBase, MapsTo, LeafAddress, LeafFlags, Writable, User;
    var s := MapResult(m, free, root, PathOf(virt), leaf);
    HugeSteps(m, free, root, pdpt, e, virt, leaf);
    NxClear(e);
    forall va: nat | Index(va, 0) == Index(virt, 0) && Index(va, 1) == Index(virt, 1)
      ensures AccessOf(s.mem, root, va) == AccessOf(m, root, va)
      ensures AccessOf(m, root, va).address == Some(LeafAddress(e, 1, va)) && AccessOf(m, root, va).flags == LeafFlags(e, 1)
    {
      SameLeaf(e, va);
    }
    MapsInHuge(s.mem, root, e, virt, base, flags);
  }

  lemma {:induction false} HugeSteps(m: Memory, free: set<nat>, root: nat, pdpt: nat, e: nat, virt: nat, leaf: nat)
    requires ValidMemory(m) && OverHugePage(m, root, pdpt, e, virt) && WritesOff(m, free, root, pdpt, e, virt)
    requires forall f :: f in free ==> f < LIMIT
    ensures var s := MapResult(m, free, root, PathOf(virt), leaf);
            && s.table == LastFrame(m, free, FrameOf(e % NX), Index(virt, 2))
            && HugeWritten(m, s.mem, free, pdpt, e, virt, leaf)
            && WordAt(s.mem, root, Index(virt, 0)) == WordAt(m, root, Index(virt, 0))
            && WordAt(s.mem, pdpt, Index(virt, 1)) == e % NX
  {
    hide Zeros, SplitWords, Follow, LastFrame, DirectoryWord, ValidMemory, OffWalk, WithWord;
    var v := PathOf(virt);
    var (d, m2) := (FrameOf(e % NX), WithWord(m, pdpt, v[1], e % NX));
    FirstSteps(m, free, root, pdpt, e, virt);
    WordStays(m, pdpt, v[1], e % NX);
    forall f: nat, i: nat
      ensures WordAt(m2, f, i) == if f == pdpt && i == v[1] then e % NX else WordAt(m, f, i)
    {
      WordAfter(m, pdpt, v[1], e % NX, f, i);
    }
    OffWalkMeans(d, v[2], root, pdpt, virt);
    SameLast(m, m2, free, d, v[2]);
    if d < LIMIT {
      LastStep(m2, free, d, v[2], v[3], leaf);
      var s3 := Follow(m2, free, d, 2, v[2]);
      if s3.table.Some? {
        OffWalkMeans(s3.table.value, v[3], root, pdpt, virt);
      }
    } else {
      BeyondReach(m2, free, d, v[2]);
    }
  }

  lemma {:induction false} OffWalkMeans(f: nat, i: nat, root: nat, pdpt: nat, virt: nat)
    requires OffWalk(f, i, root, pdpt, virt)
    ensures !(f == root && i == Index(virt, 0)) && !(f == pdpt && i == Index(virt, 1))
  {
  }

  /** The root's word leads to the PDPT as it is; the 1 GiB entry loses its NX bit and is followed. */
  lemma {:induction false} FirstSteps(m: Memory, free: set<nat>, root: nat, pdpt: nat, e: nat, virt: nat)
    requires ValidMemory(m) && OverHugePage(m, root, pdpt, e, virt)
    ensures pdpt < LIMIT && Index(virt, 1) < ENTRIES
    ensures var (d, m2) := (FrameOf(e % NX), WithWord(m, pdpt, Index(virt, 1), e % NX));
            Reach(m, free, root, PathOf(virt)) == if d < LIMIT then Follow(m2, free, d, 2, Index(virt, 2))
                                                  else Step(m2, free, None)
  {
    hide Zeros, SplitWords;
    var v := PathOf(virt);
    var w0 := WordAt(m, root, v[0]);
    assert w0 % NX == w0;
    assert WithWord(m, root, v[0], w0) == m by {
      assert m[root][v[0] := w0] == m[root];
    }
    assert Follow(m, free, root, 0, v[0]) == Step(m, free, Some(pdpt));
  }

  lemma {:induction false} WordAfter(m: Memory, t: nat, i: nat, e: nat, f: nat, j: nat)
    requires ValidMemory(m) && t < LIMIT && i < ENTRIES
    ensures WordAt(WithWord(m, t, i, e), f, j) == if f == t && j == i then e else WordAt(m, f, j)
  {
  }

  lemma {:induction false} SameLast(m: Memory, m2: Memory, free: set<nat>, d: nat, i: nat)
    requires WordAt(m2, d, i) == WordAt(m, d, i)
    ensures LastFrame(m2, free, d, i) == LastFrame(m, free, d, i)
    ensures DirectoryWord(m2, free, d, i) == DirectoryWord(m, free, d, i)
  {
  }

  lemma {:induction false} BeyondReach(m: Memory, free: set<nat>, d: nat, i: nat)
    requires d >= LIMIT
    ensures LastFrame(m, free, d, i) == None
  {
  }

  /** The third level and the entry, in a frame that holds data. */
  lemma {:induction false} LastStep(m: Memory, free: set<nat>, d: nat, i: nat, j: nat, leaf: nat)
    requires ValidMemory(m) && d < LIMIT && i < ENTRIES && j < ENTRIES && forall f :: f in free ==> f < LIMIT
    ensures var s := Follow(m, free, d, 2, i);
            && s.table == LastFrame(m, free, d, i) && WordAt(s.mem, d, i) == DirectoryWord(m, free, d, i)
            && (forall f, k: nat :: WordAt(s.mem, f, k) == WordAt(m, f, k) || f in free || (f == d && k == i))
            && (s.table.Some? ==>
                  var m' := WithWord(s.mem, s.table.value, j, leaf);
                  && WordAt(m', s.table.value, j) == leaf
                  && forall f, k: nat :: WordAt(m', f, k) == WordAt(s.mem, f, k) || (f == s.table.value && k == j))
  {
    hide Zeros, SplitWords;
    var s := Follow(m, free, d, 2, i);
    assert ValidMemory(s.mem);
    if s.table.Some? {
      forall f: nat, k: nat
        ensures WordAt(WithWord(s.mem, s.table.value, j, leaf), f, k) == if f == s.table.value && k == j then leaf
                                                                         else WordAt(s.mem, f, k)
      {
        WordAfter(s.mem, s.table.value, j, leaf, f, k);
      }
    }
  }

  lemma {:induction false} NxClear(e: nat)
    ensures Present(e % NX) == Present(e) && Large(e % NX) == Large(e)
    ensures e % NX % 0x10_0000_0000_0000 == e % 0x10_0000_0000_0000 && LeafFlags(e % NX, 1) == LeafFlags(e, 1)
  {
    var (q, r) := (e / NX, e % NX);
    assert e == q * NX + r;
    DivUnique(e, 2, q * 0x4000_0000_0000_0000 + r / 2, r % 2);
    DivUnique(e, 0x80, q * 0x100_0000_0000_0000 + r / 0x80, r % 0x80);
    DivUnique(q * 0x100_0000_0000_0000 + r / 0x80, 2, q * 0x80_0000_0000_0000 + r / 0x80 / 2, r / 0x80 % 2);
    DivUnique(e, 0x100, q * 0x80_0000_0000_0000 + r / 0x100, r % 0x100);
    DivUnique(e / 0x100, 0x10, q * 0x8_0000_0000_0000 + r / 0x100 / 0x10, r / 0x100 % 0x10);
    DivUnique(e, 0x10_0000_0000_0000, q * 0x800 + r / 0x10_0000_0000_0000, r % 0x10_0000_0000_0000);
  }

  lemma {:induction false} SameLeaf(e: nat, va: nat)
    ensures LeafAddress(e % NX, 1, va) == LeafAddress(e, 1, va) && LeafFlags(e % NX, 1) == LeafFlags(e, 1)
  {
    NxClear(e);
  }

  /** A 1 GiB page maps the page of virt at HugeBase and nowhere else. */
  lemma {:induction false} MapsInHuge(m: Memory, root: nat, e: nat, virt: nat, base: nat, flags: nat)
    requires forall va: nat :: Index(va, 0) == Index(virt, 0) && Index(va, 1) == Index(virt, 1) ==>
                 AccessOf(m, root, va).address == Some(LeafAddress(e, 1, va)) && AccessOf(m, root, va).flags == LeafFlags(e, 1)
    ensures MapsTo(m, root, virt, base, flags) <==> base == HugeBase(e, virt) && flags == LeafFlags(e, 1)
  {
    hide AccessOf, LeafFlags;
    forall va: nat | SamePage(va, virt)
      ensures AccessOf(m, root, va).address == Some(HugeBase(e, virt) + va % PAGE)
      ensures AccessOf(m, root, va).flags == LeafFlags(e, 1)
    {
      SamePathSamePage(va, virt);
      assert PathOf(va)[0] == PathOf(virt)[0] && PathOf(va)[1] == PathOf(virt)[1];
      OffsetInHuge(va, virt);
    }
    assert SamePage(virt, virt);
  }

  lemma {:induction false} OffsetInHuge(va: nat, virt: nat)
    requires SamePage(va, virt)
    ensures va % 0x4000_0000 == virt / PAGE % 0x4_0000 * PAGE + va % PAGE
  {
    var (a, b) := (va / PAGE, virt / PAGE);
    var r := a % 0x10_0000_0000;
    DivMod(a, 0x10_0000_0000);
    DivMod(b, 0x10_0000_0000);
    DivUnique(a, 0x4_0000, a / 0x10_0000_0000 * 0x4_0000 + r / 0x4_0000, r % 0x4_0000);
    DivUnique(b, 0x4_0000, b / 0x10_0000_0000 * 0x4_0000 + r / 0x4_0000, r % 0x4_0000);
    DivMod(va, PAGE);
    DivUnique(va, 0x4000_0000, a / 0x4_0000, a % 0x4_0000 * PAGE + va % PAGE);
  }

  /** For example when slot 1 maps the second GiB as one page and a page in it is to be mapped at 0x5000: the call
      succeeds, the page stays where it was, and the first word of the second GiB is overwritten. */
  lemma {:induction false} HugePageExample(m: Memory)
    requires ValidMemory(m) && m[1] == ZEROS[1 := 0x2007] && m[2] == ZEROS[0 := 0x4000_0087] && m[0x4_0000] == ZEROS
    ensures var s := MapResult(m, {3}, 1, PathOf(0x80_0000_0000), LeafWord(0x5000, 7));
            && s.table == Some(3) && Walk(s.mem, 1, 0x80_0000_0000) == Some(0x4000_0000)
            && !MapsTo(s.mem, 1, 0x80_0000_0000, 0x5000, 7)
            && WordAt(m, 0x4_0000, 0) == 0 && WordAt(s.mem, 0x4_0000, 0) == 0x3007
  {
    hide Zeros, MapResult, MapsTo, LeafWord, LeafFlags, Writable, User;
    var (virt, e) := (0x80_0000_0000, 0x4000_0087);
    assert Index(virt, 0) == 1 && Index(virt, 1) == 0 && Index(virt, 2) == 0 && Index(virt, 3) == 0;
    assert WordAt(m, 1, 1) == 0x2007 && WordAt(m, 2, 0) == e && WordAt(m, 0x4_0000, 0) == 0;
    assert Lowest({3}) == 3;
    assert e % NX == e && FrameOf(e) == 0x4_0000;
    UnderHugePage(m, {3}, 1, 2, e, virt, LeafWord(0x5000, 7), 0x5000, 7);
    assert HugeBase(e, virt) == 0x4000_0000;
    assert AccessFrom(m, 2, 1, virt).address == Some(LeafAddress(e, 1, virt));
  }
}
