/** FAT16 files: short names, the root directory, and what a file's contents are. */
module Fat16Files {
  import opened Utils
  import opened Arith
  import opened Fat16Image
  import opened Fat16Chains

  const DELETED: nat := 0xE5
  const DOT: nat := 46
  const SLASH: nat := 47
  const NO_SLOT: nat := 0xFFFF_FFFF

  /** Nonzero bytes, as a C string holds them. */
  type Name = seq<Byte>

  /** What a mounted volume stores. */
  datatype Files = Files(table: Fat, root: seq<seq<Byte>>, data: seq<seq<Byte>>)

  // ---------- short names ----------

  function Upper(c: Byte): Byte { if 97 <= c <= 122 then c - 32 else c }

  /** The length of the base part: up to a dot, at most 8. */
  function BaseLength(name: Name, k: nat): (n: nat)
    requires k <= |name|
    ensures k <= n <= |name| && (k <= 8 ==> n <= 8)
    decreases |name| - k
  {
    if k < |name| && name[k] != DOT && k < 8 then BaseLength(name, k + 1) else k
  }

  function Blanks(n: nat): (s: seq<Byte>)
    ensures |s| == n && forall i :: 0 <= i < n ==> s[i] == 32
  {
    if n == 0 then [] else [32] + Blanks(n - 1)
  }

  function Uppers(name: Name): (s: seq<Byte>)
    ensures |s| == |name| && forall i :: 0 <= i < |s| ==> s[i] == Upper(name[i])
  {
    if name == [] then [] else [Upper(name[0])] + Uppers(name[1..])
  }

  function Padded(name: Name, n: nat): (s: seq<Byte>)
    requires |name| <= n
    ensures |s| == n
  {
    Uppers(name) + Blanks(n - |name|)
  }

  /** The extension begins after the base part and one dot, and has at most 3 characters. */
  function Extension(name: Name): (e: Name)
    ensures |e| <= 3
  {
    var b := BaseLength(name, 0);
    var from := if b < |name| && name[b] == DOT then b + 1 else b;
    if |name| - from <= 3 then name[from..] else name[from..from + 3]
  }

  function ShortName(name: Name): (s: seq<Byte>)
    ensures |s| == 11
  {
    Padded(name[..BaseLength(name, 0)], 8) + Padded(Extension(name), 3)
  }

  // ---------- paths ----------

  function SkipSlashes(path: Name): (rest: Name)
    ensures rest == [] || rest[0] != SLASH
    ensures |rest| <= |path|
  {
    if path != [] && path[0] == SLASH then SkipSlashes(path[1..]) else path
  }

  function ComponentLength(p: Name, k: nat): (n: nat)
    requires k <= |p|
    ensures k <= n <= |p|
    decreases |p| - k
  {
    if k < |p| && p[k] != SLASH && k < 12 then ComponentLength(p, k + 1) else k
  }

  /** The first component of a path, at most 12 characters of it. */
  function Component(path: Name): Name {
    var p := SkipSlashes(path);
    p[..ComponentLength(p, 0)]
  }

  /** What follows the first component. */
  function Rest(path: Name): Name {
    var p := SkipSlashes(path);
    SkipSlashes(p[ComponentLength(p, 0)..])
  }

  // ---------- directory entries ----------

  ghost predicate Entries(root: seq<seq<Byte>>) { forall i :: 0 <= i < |root| ==> |root[i]| == ENTRY }

  function Start(e: seq<Byte>): nat requires |e| == ENTRY { Word(e, 26) }

  function Size(e: seq<Byte>): nat requires |e| == ENTRY { Word(e, 28) + 0x1_0000 * Word(e, 30) }

  predicate Subdirectory(e: seq<Byte>) requires |e| == ENTRY { e[11] / 16 % 2 == 1 }

  /** A used entry that is neither deleted nor a volume label. */
  predicate Live(e: seq<Byte>) requires |e| == ENTRY { e[0] != 0 && e[0] != DELETED && e[11] / 8 % 2 == 0 }

  predicate Named(e: seq<Byte>, short: seq<Byte>) requires |e| == ENTRY && |short| == 11 { Live(e) && e[..11] == short }

  /** The number of entries before the end mark, counted from k. */
  function EndFrom(root: seq<seq<Byte>>, k: nat): (n: nat)
    requires k <= |root| && Entries(root)
    ensures k <= n <= |root| && (n < |root| ==> root[n][0] == 0)
    ensures forall i :: k <= i < n ==> root[i][0] != 0
    decreases |root| - k
  {
    if k < |root| && root[k][0] != 0 then EndFrom(root, k + 1) else k
  }

  /** The first entry of a name before the end mark, or the number of entries. */
  function Find(root: seq<seq<Byte>>, short: seq<Byte>, k: nat): (n: nat)
    requires k <= |root| && |short| == 11 && Entries(root)
    ensures k <= n <= |root|
    decreases |root| - k
  {
    if k == |root| || root[k][0] == 0 then |root|
    else if Named(root[k], short) then k
    else Find(root, short, k + 1)
  }

  /** The first deleted entry before the end mark, or the number of entries. */
  function FirstDeleted(root: seq<seq<Byte>>, k: nat): (n: nat)
    requires k <= |root| && Entries(root)
    ensures k <= n <= |root|
    decreases |root| - k
  {
    if k == |root| || root[k][0] == 0 then |root|
    else if root[k][0] == DELETED then k
    else FirstDeleted(root, k + 1)
  }

  /** Where a new entry goes: over the end mark, or else over the first deleted entry. */
  function FreeSlot(root: seq<seq<Byte>>): (n: nat)
    requires Entries(root)
    ensures n <= |root|
  {
    if EndFrom(root, 0) < |root| then EndFrom(root, 0) else FirstDeleted(root, 0)
  }

  // ---------- volumes ----------

  ghost predicate WellFormed(s: Files, cb: nat) {
    && |s.data| == |s.table| <= EOF && 0 < cb
    && Entries(s.root)
    && (forall c :: 2 <= c < |s.table| ==> |s.data[c]| == cb)
  }

  /** The chain of entry i; entries without a first cluster, deleted entries and labels have none. */
  function ChainOf(s: Files, i: nat): seq<nat>
    requires i < |s.root| && |s.root[i]| == ENTRY
  {
    if Live(s.root[i]) && Start(s.root[i]) >= 2 then Trail(s.table, Start(s.root[i]), |s.table|) else []
  }

  /** The chains of live entries are whole and disjoint, and nothing follows the end mark. */
  ghost predicate Sound(s: Files, cb: nat) {
    && WellFormed(s, cb)
    && (forall i :: 0 <= i < |s.root| && Live(s.root[i]) && Start(s.root[i]) >= 2 ==>
           IsChain(s.table, Start(s.root[i]), ChainOf(s, i)))
    && (forall i, j :: 0 <= i < j < |s.root| ==> Disjoint(ChainOf(s, i), ChainOf(s, j)))
    && (forall i, j :: 0 <= i < j < |s.root| && s.root[i][0] == 0 ==> s.root[j][0] == 0)
  }

  /** The clusters of a chain, end to end. */
  function Gather(data: seq<seq<Byte>>, cs: seq<nat>): seq<Byte>
    requires forall i :: 0 <= i < |cs| ==> cs[i] < |data|
  {
    if cs == [] then [] else Gather(data, cs[..|cs| - 1]) + data[cs[|cs| - 1]]
  }

  /** The path leads into a subdirectory. */
  predicate Enters(s: Files, path: Name)
    requires Entries(s.root)
  {
    var i := Find(s.root, ShortName(Component(path)), 0);
    Rest(path) != [] && i < |s.root| && Subdirectory(s.root[i]) && Start(s.root[i]) >= 2
  }

  /** What fat16_read_file returns: its status, and the bytes it stores for a buffer of len bytes. */
  function ReadResult(s: Files, path: Name, len: nat): (int, seq<Byte>)
    requires Entries(s.root)
    requires |s.data| == |s.table|
  {
    var i := Find(s.root, ShortName(Component(path)), 0);
    if Component(path) == [] || Rest(path) != [] || i == |s.root| then (-2, [])
    else if Size(s.root[i]) == 0 then (0, [])
    else if Start(s.root[i]) < 2 then (-3, [])
    else
      TrailInTable(s.table, Start(s.root[i]), |s.table|);
      var bytes := Gather(s.data, Trail(s.table, Start(s.root[i]), |s.table|));
      (0, bytes[..Least(Least(Size(s.root[i]), len), |bytes|)])
  }

  lemma {:induction false} TrailInTable(t: Fat, start: nat, n: nat)
    ensures InTable(t, Trail(t, start, n))
    decreases n
  {
    if !(n == 0 || start < 2 || start >= EOF || start >= |t|) && !(t[start] == 0 || t[start] >= EOF) {
      TrailInTable(t, t[start], n - 1);
    }
  }

  // ---------- writing ----------

  /** The table with the entries of cs set to zero. */
  ghost function Zeroed(t: Fat, cs: seq<nat>): (t': Fat)
    ensures Freed(t, t', cs)
  {
    seq(|t|, c requires 0 <= c < |t| => if c in cs then 0 else t[c])
  }

  /** The clusters asked for, counted in 16 bits and at least one. */
  function Need(len: nat, cb: nat): (n: nat)
    requires cb > 0
    ensures 0 < n < 0x1_0000
  {
    var n := (len + cb - 1) / cb % 0x1_0000;
    if n == 0 then 1 else n
  }

  /** The file size is a 32-bit field. */
  function SizeField(len: nat): (n: nat)
    ensures n <= len && n < 0x1_0000_0000 && (len < 0x1_0000_0000 ==> n == len)
  {
    len % 0x1_0000_0000
  }

  /** The bytes of a write that reach the disk: the size is kept in 32 bits, and the chain may be too short. */
  function Kept(len: nat, cb: nat): nat
    requires cb > 0
  {
    Least(SizeField(len), Base(Need(len, cb), cb))
  }

  function FreshEntry(short: seq<Byte>): (e: seq<Byte>)
    requires |short| == 11
    ensures |e| == ENTRY
  {
    short + [0x20] + Zeros(20)
  }

  /** The entry with another first cluster and size. */
  function WithStartSize(e: seq<Byte>, start: nat, size: nat): (e': seq<Byte>)
    requires |e| == ENTRY && start <= END_MARK && size < 0x1_0000_0000
    ensures |e'| == ENTRY && e'[..26] == e[..26]
  {
    e[..26] + [start % 256, start / 256, size % 256, size / 256 % 256, size / 0x1_0000 % 256, size / 0x100_0000]
  }

  lemma {:induction false} StartSizeRoundTrip(e: seq<Byte>, start: nat, size: nat)
    requires |e| == ENTRY && start <= END_MARK && size < 0x1_0000_0000
    ensures Start(WithStartSize(e, start, size)) == start && Size(WithStartSize(e, start, size)) == size
  {
    var e' := WithStartSize(e, start, size);
    assert e'[26] == start % 256 && e'[27] == start / 256;
    BytesOfWord(start);
    BytesOfSize(size);
    assert e'[28] == size % 256 && e'[29] == size / 256 % 256 && e'[30] == size / 0x1_0000 % 256 && e'[31] == size / 0x100_0000;
  }

  lemma {:induction false} BytesOfWord(v: nat)
    ensures v % 256 + 256 * (v / 256) == v
  {
  }

  lemma {:induction false} BytesOfSize(v: nat)
    ensures v % 256 + 256 * (v / 256 % 256) + 0x1_0000 * (v / 0x1_0000 % 256 + 256 * (v / 0x100_0000)) == v
  {
    BytesOfWord(v / 0x1_0000);
    assert v / 0x100_0000 == v / 0x1_0000 / 256;
    assert v % 0x1_0000 == v % 256 + 256 * (v / 256 % 256);
  }

  /** The chain that the name's present entry gives up. */
  function OldChain(s: Files, path: Name): seq<nat>
    requires Entries(s.root)
  {
    var i := Find(s.root, ShortName(Component(path)), 0);
    if i < |s.root| then ChainOf(s, i) else []
  }

  /** The slot that a write of this name uses, or the number of slots. */
  function Slot(s: Files, path: Name): nat
    requires Entries(s.root)
  {
    var i := Find(s.root, ShortName(Component(path)), 0);
    if i < |s.root| then i else FreeSlot(s.root)
  }

  /** The entry before its start and size are set: the present one, or a new one named after the whole path. */
  function Template(s: Files, path: Name): (e: seq<Byte>)
    requires Entries(s.root)
    ensures |e| == ENTRY
  {
    var i := Find(s.root, ShortName(Component(path)), 0);
    if i < |s.root| then s.root[i] else FreshEntry(ShortName(path))
  }

  /** A successful write of 0 < |buf| bytes into the clusters cs. */
  ghost predicate Written(s: Files, s': Files, cb: nat, path: Name, buf: seq<Byte>, cs: seq<nat>)
    requires WellFormed(s, cb)
  {
    var t1 := Zeroed(s.table, OldChain(s, path));
    && Component(path) != [] && Rest(path) == [] && Slot(s, path) < |s.root|
    && |cs| == Need(|buf|, cb) && Takes(t1, |cs|, cs) && LinkedAs(t1, s'.table, cs)
    && cs[0] <= END_MARK
    && s'.root == s.root[Slot(s, path) := WithStartSize(Template(s, path), cs[0], SizeField(|buf|))]
    && |s'.data| == |s.data|
    && (forall c :: 2 <= c < |s.data| ==> |s'.data[c]| == cb && (c !in cs ==> s'.data[c] == s.data[c]))
    && HoldsPrefix(s'.data, cs, buf, Kept(|buf|, cb))
  }

  ghost predicate HoldsPrefix(data: seq<seq<Byte>>, cs: seq<nat>, buf: seq<Byte>, n: nat) {
    && (forall i :: 0 <= i < |cs| ==> cs[i] < |data|)
    && n <= |buf| && n <= |Gather(data, cs)| && Gather(data, cs)[..n] == buf[..n]
  }

  lemma {:induction false} GatherLength(data: seq<seq<Byte>>, cs: seq<nat>, cb: nat)
    requires forall i :: 0 <= i < |cs| ==> cs[i] < |data| && |data[cs[i]]| == cb
    ensures |Gather(data, cs)| == Base(|cs|, cb)
  {
    if cs != [] {
      GatherLength(data, cs[..|cs| - 1], cb);
    }
  }

  /** Contents depend on the chain's clusters only. */
  lemma {:induction false} GatherSame(data: seq<seq<Byte>>, data': seq<seq<Byte>>, cs: seq<nat>)
    requires |data'| == |data| && forall i :: 0 <= i < |cs| ==> cs[i] < |data| && data'[cs[i]] == data[cs[i]]
    ensures Gather(data', cs) == Gather(data, cs)
  {
    if cs != [] {
      GatherSame(data, data', cs[..|cs| - 1]);
    }
  }

  /** The first clusters hold the first bytes. */
  lemma {:induction false} GatherPrefix(data: seq<seq<Byte>>, cs: seq<nat>, k: nat)
    requires k <= |cs| && forall i :: 0 <= i < |cs| ==> cs[i] < |data|
    ensures Gather(data, cs[..k]) <= Gather(data, cs)
  {
    if k < |cs| {
      var front := cs[..|cs| - 1];
      GatherPrefix(data, front, k);
      assert front[..k] == cs[..k];
    } else {
      assert cs[..k] == cs;
    }
  }

  lemma {:induction false} SoundShape(s: Files, cb: nat)
    requires Sound(s, cb)
    ensures WellFormed(s, cb)
  {
  }

  lemma {:induction false} FindMeaning(root: seq<seq<Byte>>, short: seq<Byte>, k: nat)
    requires k <= |root| && |short| == 11 && Entries(root)
    ensures var n := Find(root, short, k);
            && (n < |root| ==> Named(root[n], short))
            && (forall i :: k <= i < n && i < EndFrom(root, k) ==> !Named(root[i], short))
    decreases |root| - k
  {
    if k < |root| && root[k][0] != 0 && !Named(root[k], short) {
      FindMeaning(root, short, k + 1);
    }
  }

  /** A name that is found and has a first cluster has a whole chain. */
  lemma {:induction false} FoundChain(s: Files, cb: nat, path: Name)
    requires Sound(s, cb)
    ensures var i := Find(s.root, ShortName(Component(path)), 0);
            i < |s.root| && Start(s.root[i]) >= 2 ==>
                IsChain(s.table, Start(s.root[i]), Trail(s.table, Start(s.root[i]), |s.table|))
  {
    FindMeaning(s.root, ShortName(Component(path)), 0);
  }

  lemma {:induction false} GatherNone(data: seq<seq<Byte>>, cs: seq<nat>)
    ensures Gather(data, cs[..0]) == []
  {
  }

  lemma {:induction false} GatherNext(data: seq<seq<Byte>>, cs: seq<nat>, i: nat, cb: nat)
    requires i < |cs| && forall j :: 0 <= j < |cs| ==> cs[j] < |data| && |data[cs[j]]| == cb
    ensures Gather(data, cs[..i + 1]) == Gather(data, cs[..i]) + data[cs[i]]
    ensures |Gather(data, cs[..i])| == Base(i, cb) && |Gather(data, cs[..i + 1])| == Base(i + 1, cb)
  {
    assert cs[..i + 1][..i] == cs[..i];
    GatherLength(data, cs[..i], cb);
    GatherLength(data, cs[..i + 1], cb);
  }

  /** Cluster i of a chain, and what its entry says. */
  lemma {:induction false} ChainAt(s: Files, cb: nat, start: nat, cs: seq<nat>, i: nat)
    requires WellFormed(s, cb) && IsChain(s.table, start, cs) && i < |cs|
    ensures 2 <= cs[i] < |s.table| && cs[i] < EOF && |s.data[cs[i]]| == cb
    ensures if i + 1 < |cs| then s.table[cs[i]] == cs[i + 1] && 2 <= cs[i + 1] < EOF else s.table[cs[i]] >= EOF
  {
  }

  /** buf holds the first i clusters of the chain, cut off at n bytes. */
  ghost predicate HasRead(data: seq<seq<Byte>>, cs: seq<nat>, i: nat, n: nat, buf: seq<Byte>) {
    && i <= |cs| && (forall j :: 0 <= j < |cs| ==> cs[j] < |data|)
    && buf == Gather(data, cs[..i])[..Least(n, |Gather(data, cs[..i])|)]
  }

  lemma {:induction false} ReadNone(s: Files, cb: nat, start: nat, cs: seq<nat>, n: nat)
    requires WellFormed(s, cb) && IsChain(s.table, start, cs)
    ensures HasRead(s.data, cs, 0, n, []) && cs != [] && cs[0] == start && InTable(s.table, cs)
  {
    GatherNone(s.data, cs);
  }

  lemma {:induction false} ReadStep(s: Files, cb: nat, start: nat, cs: seq<nat>, i: nat, n: nat, buf: seq<Byte>)
    requires WellFormed(s, cb) && IsChain(s.table, start, cs) && i < |cs| && HasRead(s.data, cs, i, n, buf) && |buf| < n
    ensures HasRead(s.data, cs, i + 1, n, buf + s.data[cs[i]][..Least(n - |buf|, cb)])
  {
    GatherNext(s.data, cs, i, cb);
  }

  lemma {:induction false} ReadAll(data: seq<seq<Byte>>, cs: seq<nat>, i: nat, n: nat, buf: seq<Byte>)
    requires HasRead(data, cs, i, n, buf) && (|buf| >= n || i == |cs|)
    ensures HasRead(data, cs, |cs|, n, buf)
  {
    GatherPrefix(data, cs, i);
    assert cs[..|cs|] == cs;
  }

  lemma {:induction false} ReadMeans(data: seq<seq<Byte>>, cs: seq<nat>, n: nat, buf: seq<Byte>)
    requires HasRead(data, cs, |cs|, n, buf)
    ensures (forall j :: 0 <= j < |cs| ==> cs[j] < |data|) && buf == Gather(data, cs)[..Least(n, |Gather(data, cs)|)]
  {
    assert cs[..|cs|] == cs;
  }

  // ---------- steps of a write ----------

  lemma {:induction false} FreedIs(t: Fat, t': Fat, cs: seq<nat>)
    requires Freed(t, t', cs)
    ensures t' == Zeroed(t, cs)
  {
  }

  lemma {:induction false} ZeroedNone(t: Fat)
    ensures Zeroed(t, []) == t
  {
  }

  /** The first n bytes of buf are in the first i clusters of the chain, and other clusters are as before. */
  ghost predicate StoredUpTo(data: seq<seq<Byte>>, data': seq<seq<Byte>>, cb: nat, cs: seq<nat>, i: nat,
                             buf: seq<Byte>, n: nat) {
    && i <= |cs| && |data'| == |data| && (forall j :: 0 <= j < |cs| ==> 2 <= cs[j] < |data|)
    && (forall c :: 2 <= c < |data| ==> |data'[c]| == cb && (c !in cs ==> data'[c] == data[c]))
    && HoldsPrefix(data', cs[..i], buf, n)
  }

  lemma {:induction false} StoredNone(s: Files, cb: nat, start: nat, cs: seq<nat>, buf: seq<Byte>)
    requires WellFormed(s, cb) && IsChain(s.table, start, cs)
    ensures StoredUpTo(s.data, s.data, cb, cs, 0, buf, 0) && cs != [] && cs[0] == start
  {
    GatherNone(s.data, cs);
  }

  lemma {:induction false} StoreStep(data: seq<seq<Byte>>, data': seq<seq<Byte>>, cb: nat, cs: seq<nat>, i: nat,
                                     buf: seq<Byte>, take: nat, content: seq<Byte>)
    requires i < |cs| && Distinct(cs) && StoredUpTo(data, data', cb, cs, i, buf, Base(i, cb))
    requires |content| == cb && take <= cb && Base(i, cb) + take <= |buf|
    requires content[..take] == buf[Base(i, cb)..Base(i, cb) + take]
    ensures StoredUpTo(data, data'[cs[i] := content], cb, cs, i + 1, buf, Base(i, cb) + take)
  {
    hide Gather, Base;
    var data2 := data'[cs[i] := content];
    assert cs[i] !in cs[..i];
    assert forall j :: 0 <= j < i ==> cs[..i][j] in cs[..i];
    GatherSame(data', data2, cs[..i]);
    GatherNext(data2, cs, i, cb);
    var (g, n) := (Gather(data2, cs[..i]), Base(i, cb));
    assert g == buf[..n];
    assert (g + content)[..n + take] == g + content[..take] == buf[..n + take];
    assert cs[i] in cs;
  }

  lemma {:induction false} StoredWhole(data: seq<seq<Byte>>, data': seq<seq<Byte>>, cb: nat, cs: seq<nat>, i: nat,
                                       buf: seq<Byte>, n: nat)
    requires StoredUpTo(data, data', cb, cs, i, buf, n)
    ensures StoredUpTo(data, data', cb, cs, |cs|, buf, n) && HoldsPrefix(data', cs, buf, n)
  {
    GatherPrefix(data', cs, i);
    assert cs[..|cs|] == cs;
  }

  lemma {:induction false} ChainLength(s: Files, cb: nat, cs: seq<nat>, i: nat)
    requires i < |cs|
    ensures Base(i, cb) + cb == Base(i + 1, cb) <= Base(|cs|, cb)
  {
    BaseOrder(i + 1, |cs|, cb);
  }

  lemma {:induction false} OldChainIs(s: Files, cb: nat, path: Name)
    requires Sound(s, cb) && Find(s.root, ShortName(Component(path)), 0) < |s.root|
    ensures var e := s.root[Find(s.root, ShortName(Component(path)), 0)];
            OldChain(s, path) == if Start(e) >= 2 then Trail(s.table, Start(e), |s.table|) else []
  {
    FindMeaning(s.root, ShortName(Component(path)), 0);
  }

  /** The write finds a slot, but memory or free clusters run out after the old chain is given up. */
  ghost predicate NoSpace(s: Files, cb: nat, path: Name, len: nat, memory: bool)
    requires WellFormed(s, cb)
  {
    var t1 := Zeroed(s.table, OldChain(s, path));
    && Component(path) != [] && Rest(path) == [] && Slot(s, path) < |s.root| && len > 0
    && (!memory || |FreeBelow(t1, |t1|)| < Need(len, cb))
  }

  /** A successful write of no bytes. */
  ghost predicate Emptied(s: Files, s': Files, path: Name)
    requires Entries(s.root)
  {
    && Component(path) != [] && Rest(path) == [] && Slot(s, path) < |s.root|
    && s'.table == Zeroed(s.table, OldChain(s, path)) && s'.data == s.data
    && s'.root == s.root[Slot(s, path) := WithStartSize(Template(s, path), 0, 0)]
  }

  lemma {:induction false} SlotIs(s: Files, path: Name)
    requires Entries(s.root)
    ensures var k := Find(s.root, ShortName(Component(path)), 0);
            if k < |s.root| then Slot(s, path) == k && Template(s, path) == s.root[k]
            else Slot(s, path) == FreeSlot(s.root) && Template(s, path) == FreshEntry(ShortName(path)) && OldChain(s, path) == []
    ensures Slot(s, path) <= |s.root|
  {
  }

  /** A chain made of free clusters, in 16-bit numbers. */
  lemma {:induction false} NewChain(t1: Fat, t2: Fat, cs: seq<nat>, start: nat)
    requires Takes(t1, |cs|, cs) && LinkedAs(t1, t2, cs) && cs != [] && start == cs[0] && |t1| <= EOF
    ensures IsChain(t2, start, cs) && start <= END_MARK
  {
    TakesFree(t1, |cs|, cs);
    LinkedIsChain(t1, t2, cs);
  }

  lemma {:induction false} WrittenFrom(s: Files, s': Files, cb: nat, path: Name, buf: seq<Byte>, cs: seq<nat>)
    requires WellFormed(s, cb) && Component(path) != [] && Rest(path) == [] && Slot(s, path) < |s.root|
    requires var t1 := Zeroed(s.table, OldChain(s, path));
             |cs| == Need(|buf|, cb) && Takes(t1, |cs|, cs) && LinkedAs(t1, s'.table, cs)
    requires cs[0] <= END_MARK
    requires s'.root == s.root[Slot(s, path) := WithStartSize(Template(s, path), cs[0], SizeField(|buf|))]
    requires StoredUpTo(s.data, s'.data, cb, cs, |cs|, buf, Least(SizeField(|buf|), Base(|cs|, cb)))
    ensures Written(s, s', cb, path, buf, cs)
  {
    StoredWhole(s.data, s'.data, cb, cs, |cs|, buf, Least(SizeField(|buf|), Base(|cs|, cb)));
  }
}
