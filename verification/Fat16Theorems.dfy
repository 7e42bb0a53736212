/** What writing and reading FAT16 files mean together. */
module Fat16Theorems {
  import opened Utils
  import opened Arith
  import opened Fat16Image
  import opened Fat16Chains
  import opened Fat16Files

  // ---------- lookups after a write ----------

  lemma {:induction false} FindSuffix(root: seq<seq<Byte>>, root': seq<seq<Byte>>, short: seq<Byte>, k: nat)
    requires Entries(root) && Entries(root') && |short| == 11 && |root'| == |root| && k <= |root|
    requires forall i :: k <= i < |root| ==> root'[i][..26] == root[i][..26]
    ensures Find(root', short, k) == Find(root, short, k)
    decreases |root| - k
  {
    if k < |root| {
      SameHead(root[k], root'[k], short);
      FindSuffix(root, root', short, k + 1);
    }
  }

  lemma {:induction false} SameHead(e: seq<Byte>, e': seq<Byte>, short: seq<Byte>)
    requires |e| == |e'| == ENTRY && |short| == 11 && e'[..26] == e[..26]
    ensures e'[0] == e[0] && e'[11] == e[11] && e'[..11] == e[..11] && Live(e') == Live(e)
    ensures Named(e', short) == Named(e, short)
  {
    assert e'[0] == e'[..26][0] && e'[11] == e'[..26][11];
    assert e'[..11] == e'[..26][..11] && e[..11] == e[..26][..11];
  }

  /** A slot where a new entry can go: no end mark before it, nothing after an end mark. */
  ghost predicate Open(root: seq<seq<Byte>>, j: nat)
    requires Entries(root)
  {
    && j < |root| && (root[j][0] == 0 || root[j][0] == DELETED)
    && (forall i :: 0 <= i < j ==> root[i][0] != 0)
    && (root[j][0] == 0 ==> forall i :: j <= i < |root| ==> root[i][0] == 0)
  }

  lemma {:induction false} FirstDeletedMeaning(root: seq<seq<Byte>>, k: nat)
    requires Entries(root) && k <= |root|
    ensures var n := FirstDeleted(root, k);
            n < |root| ==> root[n][0] == DELETED && forall i :: k <= i < n ==> root[i][0] != 0
    decreases |root| - k
  {
    if k < |root| && root[k][0] != 0 && root[k][0] != DELETED {
      FirstDeletedMeaning(root, k + 1);
    }
  }

  lemma {:induction false} FreeSlotOpen(s: Files, cb: nat)
    requires Sound(s, cb) && FreeSlot(s.root) < |s.root|
    ensures Open(s.root, FreeSlot(s.root))
  {
    FirstDeletedMeaning(s.root, 0);
  }

  /** A new entry is found under its own name unless an earlier one is, and hides no other name. */
  lemma {:induction false} FindPut(root: seq<seq<Byte>>, j: nat, e: seq<Byte>, short: seq<Byte>, k: nat)
    requires Entries(root) && Open(root, j) && |e| == ENTRY && e[0] != 0 && |short| == 11 && k <= j
    ensures Entries(root[j := e])
    ensures var n := Find(root, short, k);
            Find(root[j := e], short, k) == if Named(e, short) && j <= n then j else n
    decreases j - k
  {
    if k < j {
      FindPut(root, j, e, short, k + 1);
    } else {
      FindSuffix(root, root[j := e], short, j + 1);
    }
  }

  ghost predicate CString(path: Name) { 0 !in path }

  lemma {:induction false} ComponentOf(path: Name)
    requires Component(path) != []
    ensures path != []
  {
  }

  lemma {:induction false} ShortStart(name: Name)
    requires CString(name) && name != []
    ensures ShortName(name)[0] != 0
    ensures ShortName(name)[0] == DELETED <==> name[0] == DELETED
  {
    assert name[0] in name;
    var b := name[..BaseLength(name, 0)];
    if name[0] == DOT {
      assert Padded(b, 8)[0] == 32;
    } else {
      assert BaseLength(name, 1) >= 1;
      assert Padded(b, 8)[0] == Upper(name[0]);
    }
  }

  lemma {:induction false} FreshHead(path: Name, start: nat, size: nat)
    requires start <= END_MARK && size < 0x1_0000_0000
    ensures var e := WithStartSize(FreshEntry(ShortName(path)), start, size);
            e[0] == ShortName(path)[0] && e[..11] == ShortName(path) && e[11] == 0x20
  {
    var (f, e) := (FreshEntry(ShortName(path)), WithStartSize(FreshEntry(ShortName(path)), start, size));
    assert e[..26][0] == f[..26][0] && e[..26][11] == f[..26][11];
    assert e[..26][..11] == f[..26][..11];
    assert f[..11] == ShortName(path);
    assert e[..11] == e[..26][..11] && f[..11] == f[..26][..11];
  }

  /** The name under which the written entry can be found. */
  function StoredName(s: Files, path: Name): (n: seq<Byte>)
    requires Entries(s.root)
    ensures |n| == 11
  {
    Template(s, path)[..11]
  }

  /** The path reads back what is written under it: it is found already, or the new entry's name is the
      name that a lookup of the path asks for, and does not begin like a deleted entry. */
  predicate Readable(s: Files, path: Name)
    requires Entries(s.root)
  {
    var short := ShortName(Component(path));
    Find(s.root, short, 0) < |s.root| || (ShortName(path) == short && short[0] != DELETED)
  }

  /** A directory in which one slot was written. */
  ghost predicate Put(s: Files, root': seq<seq<Byte>>, path: Name, start: nat, size: nat)
    requires Entries(s.root)
  {
    && Slot(s, path) < |s.root| && start <= END_MARK && size < 0x1_0000_0000
    && root' == s.root[Slot(s, path) := WithStartSize(Template(s, path), start, size)]
  }

  /** The written name is found in its slot, when it can be found; every other name is found where it was. */
  lemma {:induction false} LookupAfter(s: Files, root': seq<seq<Byte>>, cb: nat, path: Name, start: nat, size: nat,
                                       short: seq<Byte>)
    requires Sound(s, cb) && CString(path) && Component(path) != [] && Put(s, root', path, start, size) && |short| == 11
    ensures Entries(root')
    ensures short == ShortName(Component(path)) ==>
              Find(root', short, 0) == if Readable(s, path) then Slot(s, path) else |s.root|
    ensures short != StoredName(s, path) ==> Find(root', short, 0) == Find(s.root, short, 0)
  {
    hide Rest, ShortName, Component, Find, FreeSlot, WithStartSize, Sound, Template, Slot, StoredName, Named;
    SoundShape(s, cb);
    SlotIs(s, path);
    FindMeaning(s.root, ShortName(Component(path)), 0);
    if Find(s.root, ShortName(Component(path)), 0) < |s.root| {
      FindSuffix(s.root, root', short, 0);
      NamedAs(s.root[Slot(s, path)], ShortName(Component(path)));
    } else {
      NewLookup(s, root', cb, path, start, size, short);
    }
  }

  lemma {:induction false} NamedAs(e: seq<Byte>, short: seq<Byte>)
    requires |e| == ENTRY && |short| == 11 && Named(e, short)
    ensures e[..11] == short && Live(e)
  {
  }

  lemma {:induction false} NewLookup(s: Files, root': seq<seq<Byte>>, cb: nat, path: Name, start: nat, size: nat,
                                     short: seq<Byte>)
    requires Sound(s, cb) && CString(path) && Component(path) != [] && Put(s, root', path, start, size) && |short| == 11
    requires Find(s.root, ShortName(Component(path)), 0) == |s.root|
    ensures Entries(root') && StoredName(s, path) == ShortName(path)
    ensures short == ShortName(Component(path)) ==>
              Find(root', short, 0) == if Readable(s, path) then Slot(s, path) else |s.root|
    ensures short != ShortName(path) ==> Find(root', short, 0) == Find(s.root, short, 0)
  {
    hide Rest, ShortName, Component, Find, FreeSlot, WithStartSize, Sound, StoredName;
    SoundShape(s, cb);
    SlotIs(s, path);
    ComponentOf(path);
    FreeSlotOpen(s, cb);
    ShortStart(path);
    FreshHead(path, start, size);
    FindPut(s.root, Slot(s, path), WithStartSize(Template(s, path), start, size), short, 0);
    FindFresh(s, path);
  }

  lemma {:induction false} FindFresh(s: Files, path: Name)
    requires Entries(s.root) && Find(s.root, ShortName(Component(path)), 0) == |s.root|
    ensures StoredName(s, path) == ShortName(path)
  {
    assert FreshEntry(ShortName(path))[..11] == ShortName(path);
  }

  // ---------- chains after a write ----------

  /** Every chain of an entry is whole, fits the table, and has its clusters in range. */
  lemma {:induction false} EntryChain(s: Files, cb: nat, i: nat)
    requires Sound(s, cb) && i < |s.root|
    ensures ChainOf(s, i) != [] ==>
              Live(s.root[i]) && Start(s.root[i]) >= 2 && IsChain(s.table, Start(s.root[i]), ChainOf(s, i))
    ensures InTable(s.table, ChainOf(s, i))
  {
  }

  /** The table changes of a write keep a chain that is disjoint from the one given up. */
  lemma {:induction false} ChainSurvives(t: Fat, gone: seq<nat>, t': Fat, cs: seq<nat>, start: nat, ds: seq<nat>)
    requires IsChain(t, start, ds) && Disjoint(ds, gone) && |t| <= EOF
    requires LinkedAs(Zeroed(t, gone), t', cs) && Takes(Zeroed(t, gone), |cs|, cs)
    ensures IsChain(t', start, ds) && Disjoint(cs, ds) && Disjoint(ds, cs) && Trail(t', start, |t'|) == ds
  {
    FreeingKeeps(t, Zeroed(t, gone), gone, start, ds);
    AllocationKeeps(Zeroed(t, gone), t', cs, start, ds);
    ChainFits(t', ds);
    TrailIsChain(t', start, ds, |t'|);
  }

  lemma {:induction false} ChainOfSlot(s: Files, cb: nat, path: Name, i: nat)
    requires Sound(s, cb) && i < |s.root| && Slot(s, path) < |s.root| && i != Slot(s, path)
    ensures Disjoint(ChainOf(s, i), OldChain(s, path))
  {
    var j := Slot(s, path);
    if i < j {
      assert Disjoint(ChainOf(s, i), ChainOf(s, j));
    } else {
      assert Disjoint(ChainOf(s, j), ChainOf(s, i));
    }
  }

  /** The entry of a slot that was not written keeps its chain, apart from the new one. */
  lemma {:induction false} OtherChain(s: Files, s': Files, cb: nat, path: Name, buf: seq<Byte>, cs: seq<nat>, i: nat)
    requires Sound(s, cb) && Written(s, s', cb, path, buf, cs) && i < |s.root| && i != Slot(s, path)
    ensures |s'.root| == |s.root| && s'.root[i] == s.root[i] && ChainOf(s', i) == ChainOf(s, i)
    ensures Disjoint(cs, ChainOf(s, i)) && Disjoint(ChainOf(s, i), cs)
    ensures ChainOf(s, i) != [] ==> IsChain(s'.table, Start(s.root[i]), ChainOf(s, i))
  {
    hide Rest, Find, FreeSlot, Template, Slot, OldChain, WithStartSize, Trail, Takes, LinkedAs, IsChain, Disjoint;
    EntryChain(s, cb, i);
    ChainOfSlot(s, cb, path, i);
    if Live(s.root[i]) && Start(s.root[i]) >= 2 {
      ChainSurvives(s.table, OldChain(s, path), s'.table, cs, Start(s.root[i]), ChainOf(s, i));
    } else {
      NoneDisjoint(cs);
    }
  }

  lemma {:induction false} NoneDisjoint(cs: seq<nat>)
    ensures Disjoint(cs, []) && Disjoint([], cs)
  {
  }

  /** Sizes, and the entries of other slots, after a write. */
  lemma {:induction false} WrittenShape(s: Files, s': Files, cb: nat, path: Name, buf: seq<Byte>, cs: seq<nat>)
    requires WellFormed(s, cb) && Written(s, s', cb, path, buf, cs)
    ensures |s'.table| == |s.table| && |s'.root| == |s.root| && Slot(s, path) < |s.root| && WellFormed(s', cb)
    ensures s'.root[Slot(s, path)] == WithStartSize(Template(s, path), cs[0], SizeField(|buf|))
    ensures forall i :: 0 <= i < |s.root| && i != Slot(s, path) ==> s'.root[i] == s.root[i]
  {
    hide Find, FreeSlot, Template, Slot, OldChain, WithStartSize, Takes, ShortName, Component, Rest, HoldsPrefix, Kept,
      Need, SizeField, Zeroed;
  }

  /** The written entry has exactly the new chain, if it is live. */
  lemma {:induction false} NewEntryChain(s: Files, s': Files, cb: nat, path: Name, buf: seq<Byte>, cs: seq<nat>)
    requires Sound(s, cb) && Written(s, s', cb, path, buf, cs)
    ensures |s'.root| == |s.root| && |s'.root[Slot(s, path)]| == ENTRY
    ensures Start(s'.root[Slot(s, path)]) == cs[0] && Size(s'.root[Slot(s, path)]) == SizeField(|buf|)
    ensures cs != [] && IsChain(s'.table, cs[0], cs) && Trail(s'.table, cs[0], |s'.table|) == cs
    ensures ChainOf(s', Slot(s, path)) == if Live(s'.root[Slot(s, path)]) then cs else []
  {
    hide Rest, Find, FreeSlot, Template, Slot, OldChain, WithStartSize, Trail, Takes, LinkedAs, IsChain, Disjoint,
      Need, Live, Start, Size, HoldsPrefix, Kept;
    var t1 := Zeroed(s.table, OldChain(s, path));
    WrittenShape(s, s', cb, path, buf, cs);
    StartSizeRoundTrip(Template(s, path), cs[0], SizeField(|buf|));
    NewChain(t1, s'.table, cs, cs[0]);
    WholeTrail(s'.table, cs[0], cs);
  }

  lemma {:induction false} WholeTrail(t: Fat, start: nat, cs: seq<nat>)
    requires IsChain(t, start, cs) && |t| <= EOF
    ensures Trail(t, start, |t|) == cs && start >= 2
  {
    ChainFits(t, cs);
    TrailIsChain(t, start, cs, |t|);
  }

  /** Every entry but the written one keeps its chain. */
  ghost predicate OthersKept(s: Files, s': Files, j: nat, cs: seq<nat>)
    requires Entries(s.root)
    requires Entries(s'.root)
  {
    && |s'.root| == |s.root|
    && (forall i: nat :: i < |s.root| && i != j ==> s'.root[i] == s.root[i] && ChainOf(s', i) == ChainOf(s, i))
    && (forall i: nat :: i < |s.root| && i != j ==> Disjoint(cs, ChainOf(s, i)) && Disjoint(ChainOf(s, i), cs))
    && (forall i: nat :: i < |s.root| && i != j && ChainOf(s, i) != [] ==>
           IsChain(s'.table, Start(s.root[i]), ChainOf(s, i)))
  }

  /** A volume whose other chains are kept, with the new chain at slot j, is sound. */
  lemma {:induction false} SoundFrom(s: Files, s': Files, cb: nat, j: nat, cs: seq<nat>)
    requires Sound(s, cb) && WellFormed(s', cb) && j < |s.root| && OthersKept(s, s', j, cs)
    requires ChainOf(s', j) == (if Live(s'.root[j]) && Start(s'.root[j]) >= 2 then cs else [])
    requires Live(s'.root[j]) && Start(s'.root[j]) >= 2 ==> IsChain(s'.table, Start(s'.root[j]), cs)
    requires s'.root[j][0] != 0 && (s.root[j][0] != 0 || Open(s.root, j))
    ensures Sound(s', cb)
  {
    hide Live, Start, IsChain, Disjoint, ChainOf;
    forall i, k | 0 <= i < k < |s'.root|
      ensures Disjoint(ChainOf(s', i), ChainOf(s', k))
    {
      NoneDisjoint(ChainOf(s, i));
      NoneDisjoint(ChainOf(s, k));
    }
    forall i | 0 <= i < |s'.root| && Live(s'.root[i]) && Start(s'.root[i]) >= 2
      ensures IsChain(s'.table, Start(s'.root[i]), ChainOf(s', i))
    {
      if i != j {
        ChainNotEmpty(s.table, Start(s.root[i]), ChainOf(s, i));
      }
    }
  }

  lemma {:induction false} ChainNotEmpty(t: Fat, start: nat, cs: seq<nat>)
    requires IsChain(t, start, cs)
    ensures cs != []
  {
  }

  lemma {:induction false} EntriesOf(s: Files, cb: nat)
    requires WellFormed(s, cb)
    ensures Entries(s.root)
  {
  }

  lemma {:induction false} WrittenOthers(s: Files, s': Files, cb: nat, path: Name, buf: seq<Byte>, cs: seq<nat>)
    requires Sound(s, cb) && Written(s, s', cb, path, buf, cs)
    ensures WellFormed(s', cb) && OthersKept(s, s', Slot(s, path), cs)
  {
    hide Rest, Find, FreeSlot, Template, Slot, OldChain, Trail, Takes, IsChain, Disjoint, ChainOf, ShortName,
      Component, Live, Start, HoldsPrefix, Kept, Sound,
      WithStartSize, LinkedAs, Written, SizeField, Need, Zeroed, WellFormed;
    SoundShape(s, cb);
    WrittenShape(s, s', cb, path, buf, cs);
    EntriesOf(s, cb);
    EntriesOf(s', cb);
    forall i: nat | i < |s.root| && i != Slot(s, path)
      ensures s'.root[i] == s.root[i] && ChainOf(s', i) == ChainOf(s, i)
      ensures Disjoint(cs, ChainOf(s, i)) && Disjoint(ChainOf(s, i), cs)
      ensures ChainOf(s, i) != [] ==> IsChain(s'.table, Start(s.root[i]), ChainOf(s, i))
    {
      OtherChain(s, s', cb, path, buf, cs, i);
    }
  }

  /** The written entry is not an end mark, and its slot was open if it was one. */
  lemma {:induction false} WrittenSlot(s: Files, cb: nat, path: Name, start: nat, size: nat)
    requires Sound(s, cb) && CString(path) && Component(path) != [] && Slot(s, path) < |s.root|
    requires start <= END_MARK && size < 0x1_0000_0000
    ensures WithStartSize(Template(s, path), start, size)[0] != 0
    ensures s.root[Slot(s, path)][0] != 0 || Open(s.root, Slot(s, path))
  {
    hide Rest, ShortName, Component, Find, FreeSlot, WithStartSize, Sound, Template, Slot, Open;
    SoundShape(s, cb);
    SlotIs(s, path);
    FindMeaning(s.root, ShortName(Component(path)), 0);
    if Find(s.root, ShortName(Component(path)), 0) < |s.root| {
      SameHead(Template(s, path), WithStartSize(Template(s, path), start, size), ShortName(path));
    } else {
      ComponentOf(path);
      FreeSlotOpen(s, cb);
      ShortStart(path);
      FreshHead(path, start, size);
    }
  }

  /** After a successful write the chains are still whole and disjoint. */
  lemma {:induction false} WrittenSound(s: Files, s': Files, cb: nat, path: Name, buf: seq<Byte>, cs: seq<nat>)
    requires Sound(s, cb) && Written(s, s', cb, path, buf, cs) && CString(path)
    ensures Sound(s', cb)
  {
    hide Rest, Find, FreeSlot, Template, Slot, OldChain, WithStartSize, Trail, Takes, LinkedAs, IsChain, Disjoint,
      ChainOf, ShortName, Component, Live, Sound, OthersKept,
      HoldsPrefix, Kept, WellFormed;
    SoundShape(s, cb);
    NewEntryChain(s, s', cb, path, buf, cs);
    WrittenOthers(s, s', cb, path, buf, cs);
    WrittenSlot(s, cb, path, cs[0], SizeField(|buf|));
    ChainStart(s'.table, cs[0], cs);
    SoundFrom(s, s', cb, Slot(s, path), cs);
  }

  lemma {:induction false} ChainStart(t: Fat, start: nat, cs: seq<nat>)
    requires IsChain(t, start, cs)
    ensures start >= 2
  {
  }

  // ---------- reading back ----------

  /** How many bytes of a write are kept: all of them up to 65535 clusters, and fewer beyond. */
  lemma {:induction false} KeptExact(len: nat, cb: nat)
    requires 0 < cb <= 4096
    ensures Kept(len, cb) <= len
    ensures Kept(len, cb) == len <==> len <= 65535 * cb
  {
    var n := (len + cb - 1) / cb;
    DivMod(len + cb - 1, cb);
    BaseIsProduct(Need(len, cb), cb);
    Ceiling(len, cb, n);
    if len > 65535 * cb {
      AtMost(Need(len, cb), 65535, cb);
    } else if len > 0 {
      CeilingSmall(len, cb, n);
    }
  }

  lemma {:induction false} Ceiling(len: nat, cb: nat, n: nat)
    requires 0 < cb && n == (len + cb - 1) / cb
    ensures n * cb >= len && (len > 0 ==> n > 0)
  {
    DivMod(len + cb - 1, cb);
  }

  lemma {:induction false} AtMost(a: nat, b: nat, cb: nat)
    requires a <= b
    ensures a * cb <= b * cb
  {
  }

  lemma {:induction false} CeilingSmall(len: nat, cb: nat, n: nat)
    requires 0 < cb <= 4096 && 0 < len <= 65535 * cb && n == (len + cb - 1) / cb
    ensures 0 < n <= 65535 && len < 0x1_0000_0000
  {
    Ceiling(len, cb, n);
    DivMod(len + cb - 1, cb);
    if n > 65535 {
      AtMost(65536, n, cb);
    }
  }

  /** What a read of the written name returns. */
  lemma {:induction false} ReadWritten(s: Files, s': Files, cb: nat, path: Name, buf: seq<Byte>, cs: seq<nat>, len: nat)
    requires Sound(s, cb) && Written(s, s', cb, path, buf, cs) && CString(path) && |buf| <= len
    ensures WellFormed(s', cb)
    ensures ReadResult(s', path, len) == if Readable(s, path) then (0, buf[..Kept(|buf|, cb)]) else (-2, [])
  {
    hide Rest, Find, FreeSlot, Template, Slot, OldChain, WithStartSize, Trail, Takes, LinkedAs, IsChain, Disjoint,
      ChainOf, ShortName, Live, Sound, Need, Readable,
      SizeField, Gather;
    SoundShape(s, cb);
    WrittenShape(s, s', cb, path, buf, cs);
    NewEntryChain(s, s', cb, path, buf, cs);
    ChainStart(s'.table, cs[0], cs);
    LookupAfter(s, s'.root, cb, path, cs[0], SizeField(|buf|), ShortName(Component(path)));
    if Readable(s, path) {
      ChainInTable(s'.table, cs[0], cs);
      KeptBytes(s'.data, cs, cb, buf, len);
    }
  }

  lemma {:induction false} ChainInTable(t: Fat, start: nat, cs: seq<nat>)
    requires IsChain(t, start, cs)
    ensures InTable(t, cs)
  {
  }

  lemma {:induction false} KeptBytes(data: seq<seq<Byte>>, cs: seq<nat>, cb: nat, buf: seq<Byte>, len: nat)
    requires cb > 0 && |cs| == Need(|buf|, cb) && HoldsPrefix(data, cs, buf, Kept(|buf|, cb)) && |buf| <= len
    requires forall i :: 0 <= i < |cs| ==> cs[i] < |data| && |data[cs[i]]| == cb
    ensures var bytes := Gather(data, cs);
            bytes[..Least(Least(SizeField(|buf|), len), |bytes|)] == buf[..Kept(|buf|, cb)]
    ensures SizeField(|buf|) == 0 ==> Kept(|buf|, cb) == 0
  {
    hide Need, SizeField, Gather, Base;
    GatherLength(data, cs, cb);
  }

  /** Reading back gives exactly what was written if and only if the name can be found again and the
      write is at most 65535 clusters long. */
  lemma {:induction false} WriteThenRead(s: Files, s': Files, cb: nat, path: Name, buf: seq<Byte>, cs: seq<nat>,
                                         len: nat)
    requires Sound(s, cb) && Written(s, s', cb, path, buf, cs) && CString(path) && 0 < |buf| <= len && cb <= 4096
    ensures WellFormed(s', cb)
    ensures ReadResult(s', path, len) == (0, buf) <==> Readable(s, path) && |buf| <= 65535 * cb
  {
    hide Rest, Find, FreeSlot, Template, Slot, OldChain, Written, ReadResult, Kept, Sound, Readable;
    SoundShape(s, cb);
    ReadWritten(s, s', cb, path, buf, cs, len);
    KeptExact(|buf|, cb);
    var got := buf[..Kept(|buf|, cb)];
    assert |got| == Kept(|buf|, cb) && (got == buf <==> |got| == |buf|);
  }

  /** Reading any other name gives what it gave before. */
  lemma {:induction false} OthersRead(s: Files, s': Files, cb: nat, path: Name, buf: seq<Byte>, cs: seq<nat>,
                                      other: Name, len: nat)
    requires Sound(s, cb) && Written(s, s', cb, path, buf, cs) && CString(path)
    requires ShortName(Component(other)) != StoredName(s, path)
    requires ShortName(Component(other)) != ShortName(Component(path))
    ensures WellFormed(s', cb) && ReadResult(s', other, len) == ReadResult(s, other, len)
  {
    hide Rest, FreeSlot, Template, OldChain, WithStartSize, ShortName, Sound, StoredName, SizeField, Component, Find,
      Slot, Live, Written, ReadResult, WellFormed,
      ChainOf, Gather;
    SoundShape(s, cb);
    WrittenShape(s, s', cb, path, buf, cs);
    EntriesOf(s, cb);
    WrittenPut(s, s', cb, path, buf, cs);
    LookupAfter(s, s'.root, cb, path, cs[0], SizeField(|buf|), ShortName(Component(other)));
    var i := Find(s.root, ShortName(Component(other)), 0);
    if i < |s.root| {
      NotTheSlot(s, cb, path, other);
      OtherChain(s, s', cb, path, buf, cs, i);
      OtherBytes(s, s', cb, path, buf, cs, i);
      EntryChain(s, cb, i);
    }
    ReadSame(s, s', cb, other, len);
  }

  lemma {:induction false} WrittenPut(s: Files, s': Files, cb: nat, path: Name, buf: seq<Byte>, cs: seq<nat>)
    requires WellFormed(s, cb) && Written(s, s', cb, path, buf, cs)
    ensures cs != [] && Component(path) != [] && Put(s, s'.root, path, cs[0], SizeField(|buf|))
  {
    hide Rest, Find, FreeSlot, Template, Slot, OldChain, WithStartSize, ShortName, Component, Takes, LinkedAs,
      HoldsPrefix, Kept, Need, SizeField, Zeroed;
  }

  /** A name that finds the same entry, with the same chain and bytes, reads the same. */
  lemma {:induction false} ReadSame(s: Files, s': Files, cb: nat, other: Name, len: nat)
    requires WellFormed(s, cb) && WellFormed(s', cb) && |s'.root| == |s.root|
    requires var i := Find(s.root, ShortName(Component(other)), 0);
             Find(s'.root, ShortName(Component(other)), 0) == i
             && (i < |s.root| ==> s'.root[i] == s.root[i] && ChainOf(s', i) == ChainOf(s, i) && InTable(s.table, ChainOf(s, i))
                                  && |s'.data| == |s.data|
                                  && Gather(s'.data, ChainOf(s, i)) == Gather(s.data, ChainOf(s, i)))
    ensures ReadResult(s', other, len) == ReadResult(s, other, len)
  {
    hide Rest, ShortName, Component, Gather, Trail, Find, Start, Size, Live;
    var i := Find(s.root, ShortName(Component(other)), 0);
    if i < |s.root| {
      FoundLive(s, cb, other);
    }
  }

  lemma {:induction false} NotTheSlot(s: Files, cb: nat, path: Name, other: Name)
    requires Sound(s, cb) && ShortName(Component(other)) != ShortName(Component(path))
    requires Find(s.root, ShortName(Component(other)), 0) < |s.root| && Slot(s, path) < |s.root|
    ensures Find(s.root, ShortName(Component(other)), 0) != Slot(s, path)
  {
    hide ShortName, Component;
    FindMeaning(s.root, ShortName(Component(other)), 0);
    FindMeaning(s.root, ShortName(Component(path)), 0);
    if Find(s.root, ShortName(Component(path)), 0) == |s.root| {
      FreeSlotOpen(s, cb);
    }
  }

  lemma {:induction false} FoundLive(s: Files, cb: nat, path: Name)
    requires WellFormed(s, cb) && Find(s.root, ShortName(Component(path)), 0) < |s.root|
    ensures Live(s.root[Find(s.root, ShortName(Component(path)), 0)])
  {
    FindMeaning(s.root, ShortName(Component(path)), 0);
  }

  /** The bytes along another entry's chain are as before. */
  lemma {:induction false} OtherBytes(s: Files, s': Files, cb: nat, path: Name, buf: seq<Byte>, cs: seq<nat>, i: nat)
    requires Sound(s, cb) && Written(s, s', cb, path, buf, cs) && i < |s.root| && i != Slot(s, path)
    requires Disjoint(ChainOf(s, i), cs)
    ensures InTable(s.table, ChainOf(s, i)) && |s'.data| == |s.data| == |s.table|
    ensures Gather(s'.data, ChainOf(s, i)) == Gather(s.data, ChainOf(s, i))
  {
    hide Rest, Find, FreeSlot, Template, Slot, OldChain, WithStartSize, Trail, Takes, LinkedAs, IsChain, HoldsPrefix,
      Kept, Need, Zeroed, ShortName, Component;
    EntryChain(s, cb, i);
    var ds := ChainOf(s, i);
    forall k | 0 <= k < |ds|
      ensures ds[k] < |s.data| && s'.data[ds[k]] == s.data[ds[k]]
    {
      assert ds[k] in ds;
    }
    GatherSame(s.data, s'.data, ds);
  }

  /** Clusters in use outside the replaced file, in subdirectories too, keep entry and contents. */
  lemma {:induction false} ClustersInUseKept(s: Files, s': Files, cb: nat, path: Name, buf: seq<Byte>, cs: seq<nat>,
                                             c: nat)
    requires Sound(s, cb) && Written(s, s', cb, path, buf, cs) && 2 <= c < |s.table|
    requires s.table[c] != 0 && c !in OldChain(s, path)
    ensures |s'.table| == |s.table| && |s'.data| == |s.data| && s'.table[c] == s.table[c] && s'.data[c] == s.data[c]
  {
    hide Rest, Find, FreeSlot, Template, Slot, OldChain, WithStartSize, Trail, HoldsPrefix, Kept, Need, ShortName,
      Component, Takes, Sound, SizeField, Zeroed;
    SoundShape(s, cb);
    TakesFree(Zeroed(s.table, OldChain(s, path)), |cs|, cs);
  }

  // ---------- where reading back fails ----------

  /** For example under the path "/A": a write stores the name of the whole path, a read looks for the name
      of its component. */
  lemma {:induction false} SlashedName()
    ensures Component([SLASH, 65]) == [65] && Rest([SLASH, 65]) == []
    ensures ShortName([SLASH, 65])[0] == SLASH && ShortName([65])[0] == 65
  {
    var p := [SLASH, 65];
    assert p[1..] == [65] && SkipSlashes(p) == SkipSlashes(p[1..]);
    ExampleName();
    assert BaseLength(p, 2) == 2 && BaseLength(p, 1) == 2 && BaseLength(p, 0) == 2 && p[..2] == p;
    assert Uppers(p)[0] == SLASH;
  }

  /** So a new file written under "/A" is not found under "/A". */
  lemma {:induction false} SlashedNotRead(s: Files, s': Files, cb: nat, buf: seq<Byte>, cs: seq<nat>, len: nat)
    requires Sound(s, cb) && Written(s, s', cb, [SLASH, 65], buf, cs) && Find(s.root, ShortName([65]), 0) == |s.root|
    requires |buf| <= len
    ensures WellFormed(s', cb) && ReadResult(s', [SLASH, 65], len) == (-2, [])
  {
    hide Rest, Find, FreeSlot, Template, Slot, OldChain, Written, ReadResult, Kept, Sound, ShortName, Component,
      WellFormed;
    SoundShape(s, cb);
    SlashedName();
    EntriesOf(s, cb);
    ReadWritten(s, s', cb, [SLASH, 65], buf, cs, len);
  }

  /** For example with clusters of 512 bytes: of one byte more than 65535 clusters only 512 bytes are kept. */
  lemma {:induction false} LongWriteCut()
    ensures Kept(65535 * 512 + 1, 512) == 512
  {
    assert (65535 * 512 + 1 + 511) / 512 == 65536;
    assert Need(65535 * 512 + 1, 512) == 1;
    assert Base(1, 512) == 512 + Base(0, 512);
  }

  /** An overwrite that finds no space leaves a sound volume exactly when there was no chain to give up:
      otherwise the entry still points into clusters that are free. */
  lemma {:induction false} FailedOverwriteUnsound(s: Files, s': Files, cb: nat, path: Name)
    requires Sound(s, cb) && s' == s.(table := Zeroed(s.table, OldChain(s, path)))
    ensures Sound(s', cb) <==> OldChain(s, path) == []
  {
    hide ShortName, Component;
    if OldChain(s, path) == [] {
      assert s'.table == s.table;
    } else {
      var i := Find(s.root, ShortName(Component(path)), 0);
      EntryChain(s, cb, i);
      var start := Start(s.root[i]);
      assert start in OldChain(s, path);
      assert s'.table[start] == 0;
      assert ChainOf(s', i) == [start];
      assert !IsChain(s'.table, start, ChainOf(s', i));
    }
  }

  /** For example writing two bytes over the file A of one byte, on a volume with one cluster of one byte. */
  lemma {:induction false} FailedOverwriteExample(s: Files, e: seq<Byte>)
    requires e == WithStartSize(FreshEntry(ShortName([65])), 2, 1) && s == Files([0, 0, END_MARK], [e], [[], [], [7]])
    ensures Sound(s, 1) && OldChain(s, [65]) == [2] && NoSpace(s, 1, [65], 2, true)
  {
    hide ShortName, Component, Rest, WithStartSize, FreshEntry;
    ExampleName();
    FreshHead([65], 2, 1);
    StartSizeRoundTrip(FreshEntry(ShortName([65])), 2, 1);
    assert Live(e) && Named(e, ShortName([65]));
    assert Find(s.root, ShortName([65]), 0) == 0;
    assert Trail(s.table, 2, 3) == [2];
    assert IsChain(s.table, 2, [2]);
    var t1 := Zeroed(s.table, [2]);
    assert t1 == [0, 0, 0];
    assert |FreeBelow(t1, 3)| == 1 by {
      assert FreeBelow(t1, 2) == [];
    }
    assert Need(2, 1) == 2;
  }

  lemma {:induction false} ExampleName()
    ensures Component([65]) == [65] && Rest([65]) == [] && ShortName([65])[0] == 65
  {
    assert SkipSlashes([65]) == [65];
    assert ComponentLength([65], 1) == 1 && ComponentLength([65], 0) == 1 && [65][..1] == [65] && [65][1..] == [];
    assert BaseLength([65], 1) == 1 && BaseLength([65], 0) == 1;
    assert Uppers([65])[0] == 65;
  }

  // ---------- writing no bytes ----------

  lemma {:induction false} EmptiedOther(s: Files, s': Files, cb: nat, path: Name, i: nat)
    requires Sound(s, cb) && Emptied(s, s', path) && i < |s.root| && i != Slot(s, path)
    ensures |s'.root| == |s.root| && s'.root[i] == s.root[i] && ChainOf(s', i) == ChainOf(s, i)
    ensures ChainOf(s, i) != [] ==> IsChain(s'.table, Start(s.root[i]), ChainOf(s, i))
  {
    hide Rest, Find, FreeSlot, Template, Slot, OldChain, WithStartSize, Trail, IsChain, Disjoint, Zeroed, Start;
    EntryChain(s, cb, i);
    ChainOfSlot(s, cb, path, i);
    if Live(s.root[i]) && Start(s.root[i]) >= 2 {
      FreeingKeeps(s.table, s'.table, OldChain(s, path), Start(s.root[i]), ChainOf(s, i));
      WholeTrail(s'.table, Start(s.root[i]), ChainOf(s, i));
    }
  }

  lemma {:induction false} EmptiedShape(s: Files, s': Files, cb: nat, path: Name)
    requires WellFormed(s, cb) && Emptied(s, s', path)
    ensures WellFormed(s', cb) && |s'.root| == |s.root| && Slot(s, path) < |s.root| && Component(path) != []
    ensures s'.root[Slot(s, path)] == WithStartSize(Template(s, path), 0, 0) && Put(s, s'.root, path, 0, 0)
  {
    hide Rest, Find, FreeSlot, Template, Slot, OldChain, WithStartSize, ShortName, Component, Zeroed;
  }

  lemma {:induction false} EmptiedSound(s: Files, s': Files, cb: nat, path: Name)
    requires Sound(s, cb) && Emptied(s, s', path) && CString(path)
    ensures Sound(s', cb)
  {
    hide Rest, Find, FreeSlot, Template, Slot, OldChain, WithStartSize, Trail, IsChain, Disjoint, ShortName, Component,
      Live, Sound, Emptied, WellFormed, Start, Size;
    SoundShape(s, cb);
    EmptiedShape(s, s', cb, path);
    EntriesOf(s, cb);
    EntriesOf(s', cb);
    var j := Slot(s, path);
    StartSizeRoundTrip(Template(s, path), 0, 0);
    WrittenSlot(s, cb, path, 0, 0);
    forall i: nat | i < |s.root| && i != j
      ensures s'.root[i] == s.root[i] && ChainOf(s', i) == ChainOf(s, i) && Disjoint([], ChainOf(s, i))
      ensures Disjoint(ChainOf(s, i), [])
      ensures ChainOf(s, i) != [] ==> IsChain(s'.table, Start(s.root[i]), ChainOf(s, i))
    {
      EmptiedOther(s, s', cb, path, i);
      NoneDisjoint(ChainOf(s, i));
    }
    SoundFrom(s, s', cb, j, []);
  }

  /** An emptied file reads as empty, if it can be found again. */
  lemma {:induction false} EmptiedReads(s: Files, s': Files, cb: nat, path: Name, len: nat)
    requires Sound(s, cb) && Emptied(s, s', path) && CString(path)
    ensures WellFormed(s', cb) && ReadResult(s', path, len) == if Readable(s, path) then (0, []) else (-2, [])
  {
    hide Rest, Find, FreeSlot, Template, Slot, OldChain, WithStartSize, Trail, ShortName, Component, Sound, Emptied,
      Readable, Start, Size, Gather;
    SoundShape(s, cb);
    EmptiedShape(s, s', cb, path);
    EmptiedRest(s, s', cb, path);
    StartSizeRoundTrip(Template(s, path), 0, 0);
    LookupAfter(s, s'.root, cb, path, 0, 0, ShortName(Component(path)));
  }

  lemma {:induction false} EmptiedRest(s: Files, s': Files, cb: nat, path: Name)
    requires WellFormed(s, cb) && Emptied(s, s', path)
    ensures Rest(path) == []
  {
  }

  lemma {:induction false} EmptiedOthersRead(s: Files, s': Files, cb: nat, path: Name, other: Name, len: nat)
    requires Sound(s, cb) && Emptied(s, s', path) && CString(path)
    requires ShortName(Component(other)) != StoredName(s, path)
    requires ShortName(Component(other)) != ShortName(Component(path))
    ensures WellFormed(s', cb) && ReadResult(s', other, len) == ReadResult(s, other, len)
  {
    hide Rest, FreeSlot, Template, OldChain, WithStartSize, ShortName, Sound, StoredName, Component, Find, Slot, Live,
      ReadResult, WellFormed, ChainOf, Gather, Zeroed;
    SoundShape(s, cb);
    EmptiedShape(s, s', cb, path);
    EntriesOf(s, cb);
    LookupAfter(s, s'.root, cb, path, 0, 0, ShortName(Component(other)));
    var i := Find(s.root, ShortName(Component(other)), 0);
    if i < |s.root| {
      NotTheSlot(s, cb, path, other);
      EmptiedOther(s, s', cb, path, i);
      EntryChain(s, cb, i);
    }
    TableSizes(s, cb);
    ReadSame(s, s', cb, other, len);
  }

  lemma {:induction false} TableSizes(s: Files, cb: nat)
    requires WellFormed(s, cb)
    ensures |s.data| == |s.table|
  {
  }

  // ---------- runs ----------

  /** One successful fat16_write_file of some bytes to a path. */
  ghost predicate Step(s: Files, s': Files, cb: nat, path: Name) {
    && WellFormed(s, cb) && CString(path)
    && (Emptied(s, s', path) || exists buf, cs :: Written(s, s', cb, path, buf, cs))
  }

  ghost predicate Run(ss: seq<Files>, paths: seq<Name>, cb: nat) {
    |ss| == |paths| + 1 && forall i :: 0 <= i < |paths| ==> Step(ss[i], ss[i + 1], cb, paths[i])
  }

  /** A volume with an empty root directory is sound, whatever its table holds. */
  lemma {:induction false} EmptyRootSound(s: Files, cb: nat)
    requires WellFormed(s, cb) && forall i :: 0 <= i < |s.root| ==> s.root[i][0] == 0
    ensures Sound(s, cb)
  {
    hide Trail, Start;
    assert forall i: nat :: i < |s.root| ==> !Live(s.root[i]) && ChainOf(s, i) == [];
  }

  lemma {:induction false} StepSound(s: Files, s': Files, cb: nat, path: Name)
    requires Sound(s, cb) && Step(s, s', cb, path)
    ensures Sound(s', cb)
  {
    if Emptied(s, s', path) {
      EmptiedSound(s, s', cb, path);
    } else {
      var buf, cs :| Written(s, s', cb, path, buf, cs);
      WrittenSound(s, s', cb, path, buf, cs);
    }
  }

  lemma {:induction false} StepOthersRead(s: Files, s': Files, cb: nat, path: Name, other: Name, len: nat)
    requires Sound(s, cb) && Step(s, s', cb, path)
    requires ShortName(Component(other)) != StoredName(s, path)
    requires ShortName(Component(other)) != ShortName(Component(path))
    ensures WellFormed(s', cb) && ReadResult(s', other, len) == ReadResult(s, other, len)
  {
    if Emptied(s, s', path) {
      EmptiedOthersRead(s, s', cb, path, other, len);
    } else {
      var buf, cs :| Written(s, s', cb, path, buf, cs);
      OthersRead(s, s', cb, path, buf, cs, other, len);
    }
  }

  /** In every state of a run of successful writes the chains are acyclic, ended and disjoint. */
  lemma {:induction false} RunSound(ss: seq<Files>, paths: seq<Name>, cb: nat, n: nat)
    requires Run(ss, paths, cb) && Sound(ss[0], cb) && n <= |paths|
    ensures Sound(ss[n], cb)
    decreases n
  {
    if n > 0 {
      RunSound(ss, paths, cb, n - 1);
      StepSound(ss[n - 1], ss[n], cb, paths[n - 1]);
    }
  }

  /** A file that a run does not write reads the same in every state of the run. */
  lemma {:induction false} RunKeepsOthers(ss: seq<Files>, paths: seq<Name>, cb: nat, n: nat, other: Name, len: nat)
    requires Run(ss, paths, cb) && Sound(ss[0], cb) && n <= |paths|
    requires forall i :: 0 <= i < |paths| ==> ShortName(Component(other)) != ShortName(Component(paths[i]))
    requires forall i :: 0 <= i < |paths| ==>
                 WellFormed(ss[i], cb) && ShortName(Component(other)) != StoredName(ss[i], paths[i])
    ensures WellFormed(ss[n], cb) && ReadResult(ss[n], other, len) == ReadResult(ss[0], other, len)
    decreases n
  {
    if n > 0 {
      RunKeepsOthers(ss, paths, cb, n - 1, other, len);
      RunSound(ss, paths, cb, n - 1);
      StepOthersRead(ss[n - 1], ss[n], cb, paths[n - 1], other, len);
    }
  }
}
