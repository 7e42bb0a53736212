/** FAT16 as it lies on the disk, in numbers: where the table, the root directory and the clusters begin, which
    bytes of an entry mean what, and how names are spelled. The other modules use names for these numbers. */
module Fat16Format {
  import opened Utils
  import opened Arith
  import opened Fat16Image
  import opened Fat16Chains
  import opened Fat16Files

  // ---------- areas ----------

  /** The sectors in front of the first cluster. */
  function FrontSectors(g: Geometry): nat { g.reserved + g.numFats * g.fatSectors + (g.maxRoot * 32 + 511) / 512 }

  lemma {:induction false} FrontBytes(g: Geometry, j: nat)
    ensures g.CopyOffset(j) == 512 * (g.reserved + j * g.fatSectors) && g.DataOffset() == 512 * FrontSectors(g)
  {
    CopyStart(g, j);
    CopyStart(g, g.numFats);
  }

  lemma {:induction false} CopyStart(g: Geometry, j: nat)
    ensures g.CopyOffset(j) == 512 * (g.reserved + j * g.fatSectors)
  {
    BaseIsProduct(j, g.FatBytes());
    Scaled(j, g.fatSectors, 512);
  }

  /** A cluster number stands for a cluster exactly when all sectors of the cluster are in the volume. */
  lemma {:induction false} ClusterIffInVolume(g: Geometry, c: nat)
    requires 2 <= c && 0 < g.sectorsPerCluster && FrontSectors(g) <= g.totalSectors
    ensures c < g.Limit() <==> FrontSectors(g) + (c - 1) * g.sectorsPerCluster <= g.totalSectors
  {
    FrontBytes(g, 0);
    var (sectors, spc) := (g.totalSectors - FrontSectors(g), g.sectorsPerCluster);
    assert (g.totalSectors * 512 - g.DataOffset()) / 512 == sectors by {
      DivUnique(512 * sectors, 512, sectors, 0);
    }
    DivMod(sectors, spc);
    var q := sectors / spc;
    if c - 1 <= q {
      Times(c - 1, q, spc);
    } else {
      Times(q + 1, c - 1, spc);
      assert (q + 1) * spc == q * spc + spc;
    }
  }

  lemma {:induction false} Times(a: nat, b: nat, d: nat)
    requires a <= b
    ensures a * d <= b * d
  {
  }

  /** Table entry c is the little-endian word 2 * c of the first copy. */
  lemma {:induction false} TableBytes(g: Geometry, img: seq<Byte>, c: nat)
    requires Fit(g, img) && c < g.Limit()
    ensures 512 * g.reserved + 2 * c + 2 <= |img|
    ensures Table(g, img)[c] == (img[512 * g.reserved + 2 * c] as nat) + 256 * (img[512 * g.reserved + 2 * c + 1] as nat)
  {
    CopyStart(g, 0);
    EntryInCopy(g, img, 0, c);
  }

  /** The root directory has 32-byte entries, 16 in a sector, behind the copies of the table. */
  lemma {:induction false} RootBytes(g: Geometry, img: seq<Byte>, i: nat)
    requires Fit(g, img)
    ensures |Root(g, img)| == 16 * ((g.maxRoot * 32 + 511) / 512)
    ensures i < |Root(g, img)| ==>
              var at := 512 * (g.reserved + g.numFats * g.fatSectors) + 32 * i;
              at + 32 <= |img| && Root(g, img)[i] == img[at..at + 32]
  {
    hide Geometry.Fits, Geometry.CopyOffset;
    CopyStart(g, g.numFats);
    if i < g.RootSlots() {
      SlotInRoot(g, img, i);
    }
  }

  /** The byte where cluster c begins; cluster 2 is the first one behind the root directory. */
  function ClusterStart(g: Geometry, c: nat): nat
    requires 2 <= c
  {
    512 * (FrontSectors(g) + (c - 2) * g.sectorsPerCluster)
  }

  lemma {:induction false} DataBytes(g: Geometry, img: seq<Byte>, c: nat)
    requires Fit(g, img) && 2 <= c < g.Limit()
    ensures ClusterStart(g, c) + 512 * g.sectorsPerCluster <= |img|
    ensures Data(g, img)[c] == img[ClusterStart(g, c)..ClusterStart(g, c) + 512 * g.sectorsPerCluster]
  {
    hide Geometry.Fits, Geometry.Limit, Geometry.DataOffset;
    FrontBytes(g, 0);
    ClusterInImage(g, img, c);
    BaseIsProduct(c - 2, g.ClusterBytes());
    Scaled(c - 2, g.sectorsPerCluster, 512);
  }

  /** The clusters that an allocation may take: all whose sectors are in the volume and whose entry is zero. */
  lemma {:induction false} FreeInVolume(g: Geometry, img: seq<Byte>, c: nat)
    requires Fit(g, img)
    ensures c in FreeBelow(Table(g, img), g.Limit()) ==>
              2 <= c && FrontSectors(g) + (c - 1) * g.sectorsPerCluster <= g.totalSectors
    ensures 2 <= c && FrontSectors(g) + (c - 1) * g.sectorsPerCluster <= g.totalSectors ==>
              c < g.Limit() && (c in FreeBelow(Table(g, img), g.Limit()) <==> Table(g, img)[c] == 0)
  {
    hide Geometry.Limit;
    FrontBytes(g, 0);
    FreeBelowMeaning(Table(g, img), g.Limit());
    if 2 <= c {
      ClusterIffInVolume(g, c);
    }
  }

  // ---------- chains ----------

  /** The i-th cluster's entry leads to the next one, or is 0xFFF8 or more at the end. */
  ghost predicate Leads(t: Fat, cs: seq<nat>, i: nat)
    requires i < |cs|
  {
    2 <= cs[i] < |t| && if i + 1 < |cs| then t[cs[i]] == cs[i + 1] else t[cs[i]] >= 0xFFF8
  }

  lemma {:induction false} ChainNumbers(t: Fat, start: nat, cs: seq<nat>)
    ensures IsChain(t, start, cs)
            <==> cs != [] && cs[0] == start && Distinct(cs) && forall i :: 0 <= i < |cs| ==> Leads(t, cs, i)
  {
    if cs != [] && cs[0] == start && Distinct(cs) && forall i :: 0 <= i < |cs| ==> Leads(t, cs, i) {
      assert Leads(t, cs, |cs| - 1);
      forall i | 0 <= i < |cs|
        ensures 2 <= cs[i] < |t| && (i < |cs| - 1 ==> t[cs[i]] == cs[i + 1])
      {
        assert Leads(t, cs, i);
      }
    }
  }

  /** New chains end in 0xFFFF. */
  lemma {:induction false} LinkedEnd(t: Fat, t': Fat, cs: seq<nat>)
    requires LinkedAs(t, t', cs) && cs != []
    ensures t'[cs[|cs| - 1]] == 0xFFFF
  {
  }

  /** A write takes as few clusters as hold its bytes, as long as that is at most 65535. */
  lemma {:induction false} NeedLeast(len: nat, cb: nat)
    requires 0 < len <= 65535 * cb
    ensures (Need(len, cb) - 1) * cb < len <= Need(len, cb) * cb
  {
    var n := (len + cb - 1) / cb;
    DivMod(len + cb - 1, cb);
    assert (n - 1) * cb == n * cb - cb;
    if n > 65535 {
      Times(65536, n, cb);
      assert false;
    }
  }

  // ---------- directory entries ----------

  /** First cluster and size are little-endian at 26 and 28; bit 4 of the attributes marks a directory. */
  lemma {:induction false} EntryFields(e: seq<Byte>)
    requires |e| == 32
    ensures Start(e) == (e[26] as nat) + 0x100 * (e[27] as nat)
    ensures Size(e) == (e[28] as nat) + 0x100 * (e[29] as nat) + 0x1_0000 * (e[30] as nat) + 0x100_0000 * (e[31] as nat)
    ensures Subdirectory(e) <==> e[11] / 0x10 % 2 == 1
  {
  }

  /** An entry has a name when it is not the end mark 0, not deleted (0xE5) and not a volume label (bit 3). */
  lemma {:induction false} EntryName(e: seq<Byte>, short: seq<Byte>)
    requires |e| == 32 && |short| == 11
    ensures Named(e, short) <==> e[0] != 0 && e[0] != 0xE5 && e[11] / 8 % 2 == 0 && e[..11] == short
  {
  }

  /** A file's size is kept modulo 4 GiB. */
  lemma {:induction false} SizeKept(len: nat)
    ensures SizeField(len) == len % 0x1_0000_0000
  {
  }

  /** A new entry: the name, the archive attribute 0x20, and zeros. */
  lemma {:induction false} FreshBytes(short: seq<Byte>, i: nat)
    requires |short| == 11 && i < 32
    ensures FreshEntry(short)[i] == if i < 11 then short[i] else if i == 11 then 0x20 else 0
  {
    assert |FreshEntry(short)| == 32;
  }

  // ---------- names ----------

  /** The byte of a short name that stands for byte c: a lower-case letter becomes a capital. */
  ghost predicate Capital(c: Byte, u: Byte) { if 97 <= c <= 122 then u == c - 32 else u == c }

  /** The base part of a name has b bytes: up to a dot, or up to 8. */
  ghost predicate BaseHas(name: Name, b: nat) {
    && b <= |name| && b <= 8 && (forall i :: 0 <= i < b ==> name[i] != 46)
    && (b == 8 || b == |name| || name[b] == 46)
  }

  /** Eight bytes of the base part and three behind its dot, in capitals and filled with blanks. */
  ghost predicate Spells(short: seq<Byte>, name: Name, b: nat)
    requires b <= |name|
  {
    var from := if b < |name| && name[b] == 46 then b + 1 else b;
    && |short| == 11
    && (forall i :: 0 <= i < 8 ==> if i < b then Capital(name[i], short[i]) else short[i] == 32)
    && (forall i :: 8 <= i < 11 ==>
          if from + i - 8 < |name| then Capital(name[from + i - 8], short[i]) else short[i] == 32)
  }

  lemma {:induction false} BaseLengthHas(name: Name, k: nat)
    requires k <= |name| && k <= 8 && forall i :: 0 <= i < k ==> name[i] != 46
    ensures BaseHas(name, BaseLength(name, k))
    decreases |name| - k
  {
    if k < |name| && name[k] != 46 && k < 8 {
      BaseLengthHas(name, k + 1);
    }
  }

  /** The short name spells the name; a name has one base part, so nothing else spells it. */
  lemma {:induction false} ShortNameSpells(name: Name)
    ensures BaseHas(name, BaseLength(name, 0)) && Spells(ShortName(name), name, BaseLength(name, 0))
    ensures forall short, b: nat :: BaseHas(name, b) && Spells(short, name, b) ==> short == ShortName(name)
  {
    hide BaseLength, Padded;
    BaseLengthHas(name, 0);
    var (b, s) := (BaseLength(name, 0), ShortName(name));
    PaddedBytes(name[..b], 8);
    PaddedBytes(Extension(name), 3);
    assert s == Padded(name[..b], 8) + Padded(Extension(name), 3);
    assert Spells(s, name, b);
    forall short, b': nat | BaseHas(name, b') && Spells(short, name, b')
      ensures short == s
    {
      OneSpelling(name, b, b', s, short);
    }
  }

  lemma {:induction false} OneSpelling(name: Name, b: nat, b': nat, s: seq<Byte>, short: seq<Byte>)
    requires BaseHas(name, b) && BaseHas(name, b') && Spells(s, name, b) && Spells(short, name, b')
    ensures short == s
  {
    assert b' == b;
    forall i | 0 <= i < 11
      ensures short[i] == s[i]
    {
    }
  }

  lemma {:induction false} PaddedBytes(name: Name, n: nat)
    requires |name| <= n
    ensures forall i :: 0 <= i < n ==> if i < |name| then Capital(name[i], Padded(name, n)[i]) else Padded(name, n)[i] == 32
  {
  }

  /** No short name has a lower-case letter. */
  lemma {:induction false} NoLowerCase(name: Name, i: nat)
    requires i < 11
    ensures !(97 <= ShortName(name)[i] <= 122)
  {
    hide ShortName, BaseLength;
    ShortNameSpells(name);
  }

  /** The names differ in the case of letters at most. */
  ghost predicate SameButCase(a: Name, b: Name) {
    && |a| == |b|
    && forall i :: 0 <= i < |a| ==>
         a[i] == b[i] || (97 <= a[i] <= 122 && b[i] == a[i] - 32) || (97 <= b[i] <= 122 && a[i] == b[i] - 32)
  }

  /** Such names have the same short name, and so lead to the same entry. */
  lemma {:induction false} CaseIgnored(a: Name, b: Name, root: seq<seq<Byte>>)
    requires SameButCase(a, b) && Entries(root)
    ensures ShortName(a) == ShortName(b) && Find(root, ShortName(a), 0) == Find(root, ShortName(b), 0)
  {
    hide ShortName, BaseLength, Find;
    ShortNameSpells(a);
    ShortNameSpells(b);
    assert BaseHas(b, BaseLength(a, 0));
    assert Spells(ShortName(a), b, BaseLength(a, 0));
  }

  /** For example readme.txt is stored as README and two blanks and TXT. */
  lemma {:induction false} ReadmeTxt()
    ensures ShortName([114, 101, 97, 100, 109, 101, 46, 116, 120, 116])
            == [82, 69, 65, 68, 77, 69, 32, 32, 84, 88, 84]
  {
    hide ShortName, BaseLength;
    var name: Name := [114, 101, 97, 100, 109, 101, 46, 116, 120, 116];
    ShortNameSpells(name);
    assert BaseHas(name, 6) && Spells([82, 69, 65, 68, 77, 69, 32, 32, 84, 88, 84], name, 6);
  }

  // ---------- paths ----------

  /** The first component begins behind the slashes and has the bytes up to the next slash, at most 12. */
  lemma {:induction false} ComponentMeans(path: Name)
    ensures var (c, skipped) := (Component(path), |path| - |SkipSlashes(path)|);
            && skipped + |c| <= |path| && c == path[skipped..skipped + |c|] && |c| <= 12
            && (forall i :: 0 <= i < skipped ==> path[i] == 47) && (forall i :: 0 <= i < |c| ==> c[i] != 47)
            && (|c| < 12 && skipped + |c| < |path| ==> path[skipped + |c|] == 47)
  {
    hide SkipSlashes, ComponentLength;
    SlashesSkipped(path);
    ComponentEnds(SkipSlashes(path), 0);
  }

  lemma {:induction false} SlashesSkipped(path: Name)
    ensures var skipped := |path| - |SkipSlashes(path)|;
            0 <= skipped && SkipSlashes(path) == path[skipped..] && forall i :: 0 <= i < skipped ==> path[i] == 47
  {
    if path != [] && path[0] == 47 {
      SlashesSkipped(path[1..]);
      assert forall i :: 1 <= i < |path| ==> path[i] == path[1..][i - 1];
    }
  }

  lemma {:induction false} ComponentEnds(p: Name, k: nat)
    requires k <= |p| && k <= 12 && forall i :: 0 <= i < k ==> p[i] != 47
    ensures var n := ComponentLength(p, k);
            n <= 12 && (forall i :: 0 <= i < n ==> p[i] != 47) && (n < 12 && n < |p| ==> p[n] == 47)
    decreases |p| - k
  {
    if k < |p| && p[k] != 47 && k < 12 {
      ComponentEnds(p, k + 1);
    }
  }
}
