/** Directory blocks of ext2: records that tile a block, lookup by name, and insertion. */
module Ext2Dirs {
  import opened Utils
  import opened Arith
  import opened Ext2Bytes
  import opened Ext2Trees
  import opened Ext2Inodes
  import opened Ext2Data

  const HEADER: nat := 8
  const REGULAR: nat := 1  // file type of a regular file

  type Name = seq<Byte>

  // ---------- records ----------

  function Ino(b: Block, off: nat): nat requires off + HEADER <= |b| { Get32(b, off) }

  function RecLen(b: Block, off: nat): nat requires off + HEADER <= |b| { Get16(b, off + 4) }

  function NameLen(b: Block, off: nat): nat requires off + HEADER <= |b| { b[off + 6] }

  /** The record at off lies in the block, and a used record holds its name. */
  predicate RecordOk(b: Block, off: nat) {
    && off + HEADER <= |b| && HEADER <= RecLen(b, off) && off + RecLen(b, off) <= |b|
    && (Ino(b, off) != 0 ==> HEADER + NameLen(b, off) <= RecLen(b, off))
  }

  /** Records fill the block from off to its end. */
  predicate Tiled(b: Block, off: nat)
    decreases |b| - off
  {
    off == |b| || (RecordOk(b, off) && Tiled(b, off + RecLen(b, off)))
  }

  predicate Matches(b: Block, off: nat, name: Name)
    requires RecordOk(b, off)
  {
    Ino(b, off) != 0 && NameLen(b, off) > 0 && NameLen(b, off) == |name| && b[off + HEADER..off + HEADER + |name|] == name
  }

  /** The inode of the first record with that name, from off on. */
  function FindIn(b: Block, off: nat, name: Name): Option<nat>
    requires Tiled(b, off)
    decreases |b| - off
  {
    if off == |b| then None
    else if Matches(b, off, name) then Some(Ino(b, off))
    else FindIn(b, off + RecLen(b, off), name)
  }

  /** p is where a record begins, counted from off. */
  predicate Boundary(b: Block, off: nat, p: nat)
    decreases |b| - off
  {
    off == p || (off < p && RecordOk(b, off) && Boundary(b, off + RecLen(b, off), p))
  }

  // ---------- records depend on their own bytes ----------

  /** The blocks agree from off on. */
  ghost predicate SameFrom(b: Block, b': Block, off: nat) {
    |b'| == |b| && forall i :: off <= i < |b| ==> b'[i] == b[i]
  }

  lemma {:induction false} SameRecord(b: Block, b': Block, off: nat, name: Name)
    requires |b'| == |b| && RecordOk(b, off) && forall i :: off <= i < off + RecLen(b, off) ==> b'[i] == b[i]
    ensures RecordOk(b', off) && RecLen(b', off) == RecLen(b, off) && Ino(b', off) == Ino(b, off)
    ensures Matches(b', off, name) == Matches(b, off, name)
  {
    if Ino(b, off) != 0 && NameLen(b, off) == |name| {
      assert b'[off + HEADER..off + HEADER + |name|] == b[off + HEADER..off + HEADER + |name|];
    }
  }

  lemma {:induction false} SameTail(b: Block, b': Block, off: nat, name: Name)
    requires Tiled(b, off) && SameFrom(b, b', off) && off <= |b|
    ensures Tiled(b', off) && FindIn(b', off, name) == FindIn(b, off, name)
    decreases |b| - off
  {
    if off != |b| {
      SameRecord(b, b', off, name);
      SameTail(b, b', off + RecLen(b, off), name);
    }
  }

  // ---------- insertion ----------

  /** The name that a new record holds: its length is one byte. */
  function StoredName(name: Name): Name { name[..|name| % 256] }

  /** What a lookup gives before and after a record for a name was added: others are found as before, and the
      stored name leads to the new inode unless an earlier record has it. */
  ghost predicate Shows(before: Option<nat>, after: Option<nat>, other: Name, name: Name, ino: nat) {
    if other == StoredName(name) && other != [] then after == Some(ino) || (before.Some? && after == before)
    else after == before
  }

  /** The bytes of a new record. */
  function Record(ino: nat, recLen: nat, name: Name): (s: seq<Byte>)
    ensures |s| == HEADER + |name|
  {
    Bytes32(ino) + Bytes16(recLen) + [|name| % 256, REGULAR] + name
  }

  /** The record at p is that of a regular file, type 1, with this name's length byte and as many bytes of it. */
  ghost predicate HoldsName(b: Block, p: nat, name: Name) {
    && p + 8 + |name| % 256 <= |b| && b[p + 6] == |name| % 256 && b[p + 7] == 1
    && b[p + 8..p + 8 + |name| % 256] == name[..|name| % 256]
  }

  lemma {:induction false} RecordRead(b: Block, off: nat, ino: nat, recLen: nat, name: Name)
    requires off + HEADER + |name| <= |b| && 0 < ino < 0x1_0000_0000 && recLen < 0x1_0000
    requires HEADER + |name| <= recLen && off + recLen <= |b|
    ensures var b' := Put(b, off, Record(ino, recLen, name));
            RecordOk(b', off) && RecLen(b', off) == recLen && Ino(b', off) == ino && HoldsName(b', off, name)
            && forall n: Name :: Matches(b', off, n) <==> n == StoredName(name) && n != []
  {
    hide Record, Put, Matches, StoredName, Ino, RecLen, NameLen, HoldsName;
    var (s, b') := (Record(ino, recLen, name), Put(b, off, Record(ino, recLen, name)));
    Placed(b, off, s);
    RecordFields(b', off, ino, recLen, name);
    forall n: Name
      ensures Matches(b', off, n) <==> n == StoredName(name) && n != []
    {
      RecordMatches(b', off, name, n);
    }
  }

  lemma {:induction false} Placed(b: Block, off: nat, s: seq<Byte>)
    requires off + |s| <= |b|
    ensures Put(b, off, s)[off..off + |s|] == s
  {
    forall i: nat | i < |s|
      ensures Put(b, off, s)[off + i] == s[i]
    {
      PutByte(b, off, s, off + i);
    }
  }

  /** The fields of a record that lies at off. */
  lemma {:induction false} RecordFields(b: Block, off: nat, ino: nat, recLen: nat, name: Name)
    requires off + HEADER + |name| <= |b| && ino < 0x1_0000_0000 && recLen < 0x1_0000
    requires b[off..off + HEADER + |name|] == Record(ino, recLen, name)
    ensures Ino(b, off) == ino && RecLen(b, off) == recLen && NameLen(b, off) == |name| % 256
    ensures b[off + HEADER..off + HEADER + |name|] == name && HoldsName(b, off, name)
  {
    hide Get32, Bytes32;
    var s := Record(ino, recLen, name);
    FieldAt(b, off, Bytes32(ino), Bytes16(recLen) + [|name| % 256, REGULAR] + name);
    WordBytes(b, off, ino);
    assert b[off + 4] == s[4] && b[off + 5] == s[5] && b[off + 6] == s[6] && b[off + 7] == s[7];
    Value16(recLen);
    assert s[HEADER..] == name;
    assert b[off + HEADER..off + HEADER + |name|] == b[off..off + HEADER + |name|][HEADER..];
    assert name[..|name| % 256] == b[off + HEADER..off + HEADER + |name|][..|name| % 256];
  }

  lemma {:induction false} RecordMatches(b: Block, off: nat, name: Name, n: Name)
    requires RecordOk(b, off) && off + HEADER + |name| <= |b| && Ino(b, off) != 0 && NameLen(b, off) == |name| % 256
    requires b[off + HEADER..off + HEADER + |name|] == name
    ensures Matches(b, off, n) <==> n == StoredName(name) && n != []
  {
    hide Ino, RecLen;
    if |n| == |name| % 256 {
      assert b[off + HEADER..off + HEADER + |n|] == b[off + HEADER..off + HEADER + |name|][..|n|];
    }
  }

  lemma {:induction false} FieldAt(b: Block, off: nat, head: seq<Byte>, tail: seq<Byte>)
    requires off + |head| + |tail| <= |b| && b[off..off + |head| + |tail|] == head + tail
    ensures b[off..off + |head|] == head
  {
    assert b[off..off + |head|] == b[off..off + |head| + |tail|][..|head|];
  }

  /** A block that agrees with another below p finds the same names up to p. */
  lemma {:induction false} FindUpTo(b: Block, b': Block, off: nat, p: nat, name: Name)
    requires |b'| == |b| && Boundary(b, off, p) && Tiled(b, off) && off <= p <= |b| && Tiled(b', p)
    requires forall i :: off <= i < p ==> b'[i] == b[i]
    ensures Tiled(b', off) && Tiled(b, p)
    ensures Before(b, off, p, name).Some? ==> FindIn(b', off, name) == FindIn(b, off, name) == Before(b, off, p, name)
    ensures Before(b, off, p, name).None? ==>
              FindIn(b', off, name) == FindIn(b', p, name) && FindIn(b, off, name) == FindIn(b, p, name)
    decreases |b| - off
  {
    if off < p {
      BoundaryAbove(b, off + RecLen(b, off), p);
      SameRecord(b, b', off, name);
      FindUpTo(b, b', off + RecLen(b, off), p, name);
    }
  }

  lemma {:induction false} BoundaryAbove(b: Block, off: nat, p: nat)
    requires Boundary(b, off, p)
    ensures off <= p
  {
  }

  /** The first match among the records between off and p. */
  function Before(b: Block, off: nat, p: nat, name: Name): Option<nat>
    requires Boundary(b, off, p)
    decreases |b| - off
  {
    if off == p then None
    else if Matches(b, off, name) then Some(Ino(b, off))
    else Before(b, off + RecLen(b, off), p, name)
  }

  /** One of the block's records is for this inode and name. */
  ghost predicate HasRecord(b: Block, ino: nat, name: Name) {
    exists p: nat :: Boundary(b, 0, p) && RecordOk(b, p) && Ino(b, p) == ino && HoldsName(b, p, name)
  }

  /** What every insertion achieves: the block stays tiled and has a record for the name, the stored name is found,
      and other names are found as before. */
  ghost predicate Inserted(b: Block, b': Block, ino: nat, name: Name) {
    && |b'| == |b| && Tiled(b, 0) && Tiled(b', 0) && HasRecord(b', ino, name)
    && (forall n: Name :: Shows(FindIn(b, 0, n), FindIn(b', 0, n), n, name, ino))
  }

  /** Records end where they ended when their bytes are the same. */
  lemma {:induction false} BoundaryKept(b: Block, b': Block, off: nat, p: nat)
    requires |b'| == |b| && Boundary(b, off, p) && p <= |b| && forall i :: off <= i < p ==> b'[i] == b[i]
    ensures Boundary(b', off, p)
    decreases |b| - off
  {
    if off < p {
      BoundaryAbove(b, off + RecLen(b, off), p);
      SameRecord(b, b', off, []);
      BoundaryKept(b, b', off + RecLen(b, off), p);
    }
  }

  lemma {:induction false} RecordAt(b: Block, p: nat, ino: nat, name: Name)
    requires Boundary(b, 0, p) && RecordOk(b, p) && Ino(b, p) == ino && HoldsName(b, p, name)
    ensures HasRecord(b, ino, name)
  {
  }

  /** Reusing an unused record that is long enough. */
  lemma {:induction false} ReuseRecord(b: Block, p: nat, ino: nat, name: Name)
    requires Tiled(b, 0) && Boundary(b, 0, p) && p < |b| && RecordOk(b, p) && Ino(b, p) == 0
    requires 0 < ino < 0x1_0000_0000 && HEADER + |name| <= RecLen(b, p)
    ensures Inserted(b, Put(b, p, Record(ino, RecLen(b, p), name)), ino, name)
  {
    hide RecordOk, Matches, Record, Put, Ino, RecLen, HoldsName, HasRecord;
    LengthsFit(b, p);
    var (rec, b') := (RecLen(b, p), Put(b, p, Record(ino, RecLen(b, p), name)));
    RecordRead(b, p, ino, rec, name);
    PutOutside(b, p, Record(ino, rec, name));
    TiledAt(b, 0, p);
    SameTail(b, b', p + rec, name);
    FindUpTo(b, b', 0, p, name);
    BoundaryKept(b, b', 0, p);
    RecordAt(b', p, ino, name);
    forall n: Name
      ensures Shows(FindIn(b, 0, n), FindIn(b', 0, n), n, name, ino)
    {
      SameTail(b, b', p + rec, n);
      Unused(b, p, n);
      assert FindIn(b', p, n) == if Matches(b', p, n) then Some(ino) else FindIn(b', p + rec, n);
      FindUpTo(b, b', 0, p, n);
    }
  }

  lemma {:induction false} LengthsFit(b: Block, p: nat)
    requires RecordOk(b, p)
    ensures p + HEADER <= |b| && RecLen(b, p) < 0x1_0000 && p + RecLen(b, p) <= |b| && HEADER <= RecLen(b, p)
    ensures Ino(b, p) < 0x1_0000_0000
  {
  }

  lemma {:induction false} PutOutside(b: Block, at: nat, src: seq<Byte>)
    requires at + |src| <= |b|
    ensures forall i :: 0 <= i < |b| && !(at <= i < at + |src|) ==> Put(b, at, src)[i] == b[i]
  {
    forall i: nat | i < |b| && !(at <= i < at + |src|)
      ensures Put(b, at, src)[i] == b[i]
    {
      PutByte(b, at, src, i);
    }
  }

  lemma {:induction false} TiledAt(b: Block, off: nat, p: nat)
    requires Tiled(b, off) && Boundary(b, off, p) && p <= |b|
    ensures Tiled(b, p) && (p < |b| ==> RecordOk(b, p) && Tiled(b, p + RecLen(b, p)))
    decreases |b| - off
  {
    if off < p {
      TiledAt(b, off + RecLen(b, off), p);
    }
  }

  lemma {:induction false} Unused(b: Block, p: nat, name: Name)
    requires Tiled(b, p) && p < |b| && RecordOk(b, p) && Ino(b, p) == 0
    ensures FindIn(b, p, name) == FindIn(b, p + RecLen(b, p), name)
  {
  }

  /** The bytes a record needs, a multiple of four. */
  function Needed(nameLen: nat): (n: nat)
    ensures HEADER + nameLen <= n < HEADER + nameLen + 4
  {
    (HEADER + nameLen + 3) / 4 * 4
  }

  /** The block with its last record cut short, and the new record behind it. */
  function Split(b: Block, last: nat, ino: nat, name: Name): (b': Block)
    requires last + HEADER <= |b| && last + RecLen(b, last) == |b|
    requires Needed(NameLen(b, last)) + HEADER + |name| <= RecLen(b, last)
    ensures |b'| == |b|
  {
    var cut := Needed(NameLen(b, last));
    Put(Put(b, last + 4, Bytes16(cut)), last + cut, Record(ino, RecLen(b, last) - cut, name))
  }

  /** Splitting the last record. */
  lemma {:induction false} SplitRecord(b: Block, last: nat, ino: nat, name: Name)
    requires Tiled(b, 0) && Boundary(b, 0, last) && last < |b| && RecordOk(b, last) && last + RecLen(b, last) == |b|
    requires 0 < ino < 0x1_0000_0000
    requires Needed(NameLen(b, last)) + HEADER + |name| <= RecLen(b, last)
    ensures Inserted(b, Split(b, last, ino, name), ino, name)
  {
    hide RecordOk, Matches, Record, Put, Ino, RecLen, NameLen, Split, Needed, HoldsName, HasRecord;
    LengthsFit(b, last);
    SplitLast(b, last, ino, name);
    var b' := Split(b, last, ino, name);
    TiledAt(b, 0, last);
    LastFinds(b, b', last, ino, name, name);
    FindUpTo(b, b', 0, last, name);
    BoundaryKept(b, b', 0, last);
    BoundaryNext(b', 0, last);
    RecordAt(b', last + RecLen(b', last), ino, name);
    forall n: Name
      ensures Shows(FindIn(b, 0, n), FindIn(b', 0, n), n, name, ino)
    {
      LastFinds(b, b', last, ino, name, n);
      FindUpTo(b, b', 0, last, n);
    }
  }

  /** The last two records after the split. */
  ghost predicate IsSplit(b: Block, b': Block, last: nat, ino: nat, name: Name)
    requires RecordOk(b, last)
  {
    && |b'| == |b| && RecordOk(b', last) && RecLen(b', last) < RecLen(b, last) && Ino(b', last) == Ino(b, last)
    && (forall n: Name :: Matches(b', last, n) <==> Matches(b, last, n))
    && IsLast(b', last + RecLen(b', last), ino, name)
  }

  /** The record at next is the last one, and has that inode and that name only. */
  ghost predicate IsLast(b: Block, next: nat, ino: nat, name: Name) {
    && RecordOk(b, next) && next + RecLen(b, next) == |b| && Ino(b, next) == ino && HoldsName(b, next, name)
    && (forall n: Name :: Matches(b, next, n) <==> n == StoredName(name) && n != [])
  }

  lemma {:induction false} SplitLast(b: Block, last: nat, ino: nat, name: Name)
    requires last < |b| && RecordOk(b, last) && last + RecLen(b, last) == |b| && last + HEADER <= |b|
    requires 0 < ino < 0x1_0000_0000 && Needed(NameLen(b, last)) + HEADER + |name| <= RecLen(b, last)
    ensures IsSplit(b, Split(b, last, ino, name), last, ino, name)
    ensures forall i :: 0 <= i < last ==> Split(b, last, ino, name)[i] == b[i]
  {
    hide Record, Put, Matches, RecordOk, Needed, HoldsName;
    LengthsFit(b, last);
    var cut := Needed(NameLen(b, last));
    var b1 := Put(b, last + 4, Bytes16(cut));
    var (rest, src) := (RecLen(b, last) - cut, Record(ino, RecLen(b, last) - cut, name));
    var b' := Put(b1, last + cut, src);
    RecordRead(b1, last + cut, ino, rest, name);
    PutOutside(b1, last + cut, src);
    CutRecord(b, b1, b', last, cut);
    PutOutside(b, last + 4, Bytes16(cut));
  }

  /** Cutting a record short keeps its inode and name. */
  lemma {:induction false} CutRecord(b: Block, b1: Block, b': Block, last: nat, cut: nat)
    requires RecordOk(b, last) && last + HEADER <= |b| && last + cut <= |b|
    requires HEADER + NameLen(b, last) <= cut < 0x1_0000
    requires b1 == Put(b, last + 4, Bytes16(cut)) && |b'| == |b| && forall i :: last <= i < last + cut ==>
                 b'[i] == b1[i]
    ensures RecordOk(b', last) && RecLen(b', last) == cut && Ino(b', last) == Ino(b, last)
    ensures forall n: Name :: Matches(b', last, n) <==> Matches(b, last, n)
  {
    hide Put;
    Get16Put(b, last + 4, cut);
    PutOutside(b, last + 4, Bytes16(cut));
    assert forall i :: last <= i < last + cut && i != last + 4 && i != last + 5 ==> b'[i] == b[i];
    forall n: Name
      ensures Matches(b', last, n) <==> Matches(b, last, n)
    {
      if NameLen(b, last) == |n| && Ino(b, last) != 0 {
        assert b'[last + HEADER..last + HEADER + |n|] == b[last + HEADER..last + HEADER + |n|];
      }
    }
  }

  /** What the split records find. */
  lemma {:induction false} LastFinds(b: Block, b': Block, last: nat, ino: nat, name: Name, n: Name)
    requires last < |b| && RecordOk(b, last) && last + RecLen(b, last) == |b| && Tiled(b, last)
    requires IsSplit(b, b', last, ino, name)
    requires last + HEADER <= |b| && Tiled(b, |b|)
    ensures Tiled(b', last)
    ensures Shows(FindIn(b, last, n), FindIn(b', last, n), n, name, ino)
  {
    hide Matches;
    var next := last + RecLen(b', last);
    assert Tiled(b', |b|);
    assert Tiled(b', next);
    assert FindIn(b', next, n) == if n == StoredName(name) && n != [] then Some(ino) else None;
    assert FindIn(b, |b|, n) == None;
    assert FindIn(b', last, n) == if Matches(b, last, n) then Some(Ino(b, last)) else FindIn(b', next, n);
    assert FindIn(b, last, n) == if Matches(b, last, n) then Some(Ino(b, last)) else None;
  }

  // ---------- room for a record ----------

  /** An unused record from off on is long enough, or the last one can be split. */
  predicate HasRoom(b: Block, off: nat, nameLen: nat)
    requires Tiled(b, off)
    decreases |b| - off
  {
    off != |b|
    && ((Ino(b, off) == 0 && RecLen(b, off) >= Needed(nameLen))
        || (if off + RecLen(b, off) == |b| then RecLen(b, off) >= Needed(NameLen(b, off)) + Needed(nameLen)
            else HasRoom(b, off + RecLen(b, off), nameLen)))
  }

  lemma {:induction false} BoundaryNext(b: Block, off: nat, p: nat)
    requires Boundary(b, off, p) && RecordOk(b, p)
    ensures Boundary(b, off, p + RecLen(b, p))
    decreases |b| - off
  {
    if off < p {
      BoundaryNext(b, off + RecLen(b, off), p);
    }
  }

  /** The bytes that are copied: their number is kept in 16 bits. */
  function Copied(name: Name): (w: Name)
    ensures |w| < 0x1_0000 && StoredName(w) == StoredName(name)
  {
    var w := name[..|name| % 0x1_0000];
    assert |w| % 256 == |name| % 256;
    w
  }

  /** Names from here on make the 16-bit length of their record wrap around. */
  const NAME_LIMIT: nat := 65525

  lemma {:induction false} NeededFits(n: nat)
    requires n < 0x1_0000
    ensures (HEADER + n + 3) / 4 * 4 < 0x1_0000 <==> n < NAME_LIMIT
  {
  }

  /** ext2_create_file's search for a place in a directory block, and the new record. */
  method InsertRecord(block: Block, ino: nat, fullName: Name) returns (ok: bool, block': Block)
    requires 0 < |block| && Tiled(block, 0) && 0 < ino < 0x1_0000_0000 && |Copied(fullName)| < NAME_LIMIT
    ensures ok <==> HasRoom(block, 0, |Copied(fullName)|)
    ensures if ok then Inserted(block, block', ino, fullName) else block' == block
  {
    hide Matches, Ino, RecLen, NameLen, Record, Put, Inserted, Needed, FindIn, StoredName;
    var name := Copied(fullName);
    var needed := Needed(|name|);
    var offset, last := 0, 0;
    block' := block;
    while offset < |block|
      invariant 0 <= last <= offset <= |block| && Boundary(block, 0, offset) && Tiled(block, offset)
      invariant offset == 0
                || (last < offset && Boundary(block, 0, last) && RecordOk(block, last) && last + RecLen(block, last) == offset)
      invariant offset < |block| ==> (HasRoom(block, 0, |name|) <==> HasRoom(block, offset, |name|))
      invariant offset == |block| ==>
                  (HasRoom(block, 0, |name|) <==> RecLen(block, last) >= Needed(NameLen(block, last)) + Needed(|name|))
      decreases |block| - offset
    {
      LengthsFit(block, offset);
      if Ino(block, offset) == 0 && RecLen(block, offset) >= needed {
        ReuseRecord(block, offset, ino, name);
        SameInserted(block, Put(block, offset, Record(ino, RecLen(block, offset), name)), ino, name, fullName);
        block' := Put(block, offset, Record(ino, RecLen(block, offset), name));
        return true, block';
      }
      BoundaryNext(block, 0, offset);
      last := offset;
      offset := offset + RecLen(block, offset);
    }
    LengthsFit(block, last);
    if RecLen(block, last) >= Needed(NameLen(block, last)) + needed {
      SplitRecord(block, last, ino, name);
      SameInserted(block, Split(block, last, ino, name), ino, name, fullName);
      block' := Split(block, last, ino, name);
      return true, block';
    }
    ok := false;
  }

  lemma {:induction false} SameInserted(b: Block, b': Block, ino: nat, name: Name, fullName: Name)
    requires Inserted(b, b', ino, name) && StoredName(name) == StoredName(fullName)
    ensures Inserted(b, b', ino, fullName)
  {
    hide FindIn, Tiled;
    var p: nat :| Boundary(b', 0, p) && RecordOk(b', p) && Ino(b', p) == ino && HoldsName(b', p, name);
    assert |StoredName(name)| == |name| % 256 && |StoredName(fullName)| == |fullName| % 256;
    RecordAt(b', p, ino, fullName);
  }

  // ---------- directories ----------

  /** The blocks of the directory exist and are tiled, and its size is a whole number of blocks. */
  ghost predicate DirOk(blocks: Blocks, bs: nat, n: Inode) {
    && bs > 0 && WholeBlocks(blocks, bs) && |n.block| == POINTERS && 0 < n.size && n.size % bs == 0
    && (forall k :: 0 <= k < DIRECT && n.block[k] != 0 ==> n.block[k] < |blocks| && Tiled(blocks[n.block[k]], 0))
  }

  /** The first match in the directory's blocks from the k-th on. */
  ghost function FindDir(blocks: Blocks, bs: nat, n: Inode, k: nat, name: Name): Option<nat>
    requires DirOk(blocks, bs, n)
    decreases DIRECT - k
  {
    if k >= DIRECT || Base(k, bs) >= n.size || n.block[k] == 0 then None
    else
      var found := FindIn(blocks[n.block[k]], 0, name);
      if found.Some? then found else FindDir(blocks, bs, n, k + 1, name)
  }

  /** ext2_find_file_in_dir: -2 for what is not a directory, type 4 in the top four bits of the mode, -3 for an
      empty one, -5 for a name that is not there. */
  ghost function FoundInDir(blocks: Blocks, bs: nat, n: Inode, name: Name): (int, nat)
    requires n.mode / 0x1000 == 4 && n.size > 0 ==> DirOk(blocks, bs, n)
  {
    if n.mode / 0x1000 != 4 then (-2, 0)
    else if n.size == 0 then (-3, 0)
    else
      match FindDir(blocks, bs, n, 0, name)
      case None => (-5, 0)
      case Some(ino) => (0, ino)
  }

  lemma {:induction false} WholeInSize(k: nat, bs: nat, size: nat)
    requires 0 < bs && size % bs == 0 && Base(k, bs) < size
    ensures Base(k + 1, bs) == Base(k, bs) + bs <= size
  {
    DivMod(size, bs);
    BaseIsProduct(size / bs, bs);
    if k + 1 > size / bs {
      BaseOrder(size / bs, k, bs);
    }
    BaseOrder(k + 1, size / bs, bs);
  }

  /** Replacing the first block by one in which a new name was inserted. */
  lemma {:induction false} FindAfterInsert(blocks: Blocks, bs: nat, n: Inode, data: Block, ino: nat, name: Name,
                                           other: Name)
    requires DirOk(blocks, bs, n) && n.block[0] != 0
    requires forall k :: 1 <= k < DIRECT ==> n.block[k] != n.block[0]
    requires Inserted(blocks[n.block[0]], data, ino, name)
    ensures DirOk(blocks[n.block[0] := data], bs, n)
    ensures Shows(FindDir(blocks, bs, n, 0, other), FindDir(blocks[n.block[0] := data], bs, n, 0, other), other, name, ino)
  {
    hide FindIn, Tiled, StoredName, HasRecord;
    TiledInserted(blocks[n.block[0]], data, ino, name);
    FindElsewhere(blocks, bs, n, data, 1, other);
  }

  lemma {:induction false} TiledInserted(b: Block, b': Block, ino: nat, name: Name)
    requires Inserted(b, b', ino, name)
    ensures |b'| == |b| && Tiled(b', 0)
  {
  }

  lemma {:induction false} FindElsewhere(blocks: Blocks, bs: nat, n: Inode, data: Block, k: nat, name: Name)
    requires DirOk(blocks, bs, n) && n.block[0] != 0 && 1 <= k && |data| == bs && Tiled(data, 0)
    requires forall k :: 1 <= k < DIRECT ==> n.block[k] != n.block[0]
    ensures DirOk(blocks[n.block[0] := data], bs, n)
    ensures FindDir(blocks[n.block[0] := data], bs, n, k, name) == FindDir(blocks, bs, n, k, name)
    decreases DIRECT - k
  {
    hide FindIn, Tiled;
    if k < DIRECT && n.block[k] != 0 {
      FindElsewhere(blocks, bs, n, data, k + 1, name);
    }
  }

  // ---------- names that are too long ----------

  /** The name length is one byte: a name of more than 255 bytes is never found. */
  lemma {:induction false} LongNameNotFound(b: Block, off: nat, name: Name)
    requires Tiled(b, off) && |name| > 255
    ensures FindIn(b, off, name) == None
    decreases |b| - off
  {
    if off != |b| {
      LongNameNotFound(b, off + RecLen(b, off), name);
    }
  }

  /** For example a name of 256 bytes in a block that is one unused record of 512 bytes: there is room, the record
      is written with length byte 0, and the name is not found. */
  lemma {:induction false} LongNameExample(b: Block, name: Name)
    requires |b| == 512 && b[..HEADER] == [0, 0, 0, 0, 0, 2, 0, 0] && |name| == 256
    ensures Tiled(b, 0) && HasRoom(b, 0, |Copied(name)|)
    ensures var b' := Put(b, 0, Record(12, 512, name));
            Inserted(b, b', 12, name) && NameLen(b', 0) == 0 && FindIn(b', 0, name) == None
  {
    hide Put, Record, Inserted, FindIn;
    assert b[0] == b[..HEADER][0] && b[1] == b[..HEADER][1] && b[2] == b[..HEADER][2] && b[3] == b[..HEADER][3];
    assert b[4] == b[..HEADER][4] && b[5] == b[..HEADER][5];
    assert Ino(b, 0) == 0 && RecLen(b, 0) == 512;
    assert Tiled(b, 512);
    var b' := Put(b, 0, Record(12, 512, name));
    ReuseRecord(b, 0, 12, name);
    Placed(b, 0, Record(12, 512, name));
    RecordFields(b', 0, 12, 512, name);
    TiledInserted(b, b', 12, name);
    LongNameNotFound(b', 0, name);
  }

  lemma {:induction false} LongNameNowhere(blocks: Blocks, bs: nat, n: Inode, k: nat, name: Name)
    requires DirOk(blocks, bs, n) && |name| > 255
    ensures FindDir(blocks, bs, n, k, name) == None
    decreases DIRECT - k
  {
    hide FindIn, Tiled;
    if k < DIRECT && Base(k, bs) < n.size && n.block[k] != 0 {
      LongNameNotFound(blocks[n.block[k]], 0, name);
      LongNameNowhere(blocks, bs, n, k + 1, name);
    }
  }
}
