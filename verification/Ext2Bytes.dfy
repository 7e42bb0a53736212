/** Little-endian fields and bitmap bits inside ext2 blocks. */
module Ext2Bytes {
  import opened Utils
  import opened Arith
  import ByteLayer

  type Block = seq<Byte>

  // ---------- fields ----------

  /** le16 and le32. */
  function Get16(b: Block, at: nat): nat
    requires at + 2 <= |b|
  {
    (b[at] as nat) + 256 * (b[at + 1] as nat)
  }

  function Get32(b: Block, at: nat): nat
    requires at + 4 <= |b|
  {
    Get16(b, at) + 0x1_0000 * Get16(b, at + 2)
  }

  function Bytes16(v: nat): (s: seq<Byte>)
    ensures |s| == 2
  {
    [v % 256, v / 256 % 256]
  }

  function Bytes32(v: nat): (s: seq<Byte>)
    ensures |s| == 4
  {
    Bytes16(v) + Bytes16(v / 0x1_0000)
  }

  /** The block with other bytes from position at on. */
  function Put(b: Block, at: nat, src: seq<Byte>): (r: Block)
    requires at + |src| <= |b|
    ensures |r| == |b|
  {
    ByteLayer.Splice(b, at, src)
  }

  lemma {:induction false} PutByte(b: Block, at: nat, src: seq<Byte>, i: nat)
    requires at + |src| <= |b| && i < |b|
    ensures Put(b, at, src)[i] == if at <= i < at + |src| then src[i - at] else b[i]
  {
  }

  lemma {:induction false} Get16Put(b: Block, at: nat, v: nat)
    requires at + 2 <= |b| && v < 0x1_0000
    ensures Get16(Put(b, at, Bytes16(v)), at) == v
  {
    PutByte(b, at, Bytes16(v), at);
    PutByte(b, at, Bytes16(v), at + 1);
  }

  lemma {:induction false} Get32Put(b: Block, at: nat, v: nat)
    requires at + 4 <= |b| && v < 0x1_0000_0000
    ensures Get32(Put(b, at, Bytes32(v)), at) == v
  {
    var r := Put(b, at, Bytes32(v));
    forall i: nat | i < 4
      ensures r[at + i] == Bytes32(v)[i]
    {
      PutByte(b, at, Bytes32(v), at + i);
    }
    Value16(v);
    Value16(v / 0x1_0000);
    assert Get16(r, at) == v % 0x1_0000 && Get16(r, at + 2) == v / 0x1_0000;
  }

  lemma {:induction false} Value16(v: nat)
    ensures v % 256 + 256 * (v / 256 % 256) == v % 0x1_0000
  {
    var q := v / 256;
    var r := v % 256 + 256 * (q % 256);
    assert v == 0x1_0000 * (q / 256) + r && r < 0x1_0000;
  }

  /** Fields outside the bytes written are as before. */
  lemma {:induction false} GetBeside(b: Block, at: nat, src: seq<Byte>, k: nat)
    requires at + |src| <= |b| && k + 2 <= |b| && (k + 2 <= at || at + |src| <= k)
    ensures Get16(Put(b, at, src), k) == Get16(b, k)
    ensures k + 4 <= |b| && (k + 4 <= at || at + |src| <= k) ==> Get32(Put(b, at, src), k) == Get32(b, k)
  {
    PutByte(b, at, src, k);
    PutByte(b, at, src, k + 1);
    if k + 4 <= |b| {
      PutByte(b, at, src, k + 2);
      PutByte(b, at, src, k + 3);
    }
  }

  // ---------- bits ----------

  /** Setting a clear bit changes no other bit. */
  lemma {:induction false} SetBitOf(x: nat, k: nat, j: nat)
    requires !BitSet(x, k)
    ensures BitSet(x + Pow2(k), j) == (j == k || BitSet(x, j))
  {
    if k > 0 && j > 0 {
      SetBitOf(x / 2, k - 1, j - 1);
      assert (x + Pow2(k)) / 2 == x / 2 + Pow2(k - 1);
    } else if k == 0 && j > 0 {
      assert (x + 1) / 2 == x / 2;
    }
  }

  /** Setting a clear bit below n keeps a number below 2^n. */
  lemma {:induction false} SetBitBelow(x: nat, k: nat, n: nat)
    requires k < n && x < Pow2(n) && !BitSet(x, k)
    ensures x + Pow2(k) < Pow2(n)
  {
    if k > 0 {
      SetBitBelow(x / 2, k - 1, n - 1);
    }
  }

  /** Bit i of a bitmap block. */
  predicate Bit(bm: Block, i: nat)
    requires i < 8 * |bm|
  {
    BitSet(bm[i / 8], i % 8)
  }

  function SetBit(bm: Block, i: nat): (r: Block)
    requires i < 8 * |bm| && !Bit(bm, i)
    ensures |r| == |bm|
  {
    SetBitByte(bm[i / 8], i % 8);
    bm[i / 8 := (bm[i / 8] as nat) + Pow2(i % 8)]
  }

  lemma {:induction false} SetBitByte(x: Byte, k: nat)
    requires k < 8 && !BitSet(x, k)
    ensures (x as nat) + Pow2(k) < 256
  {
    SetBitBelow(x, k, 8);
    assert Pow2(8) == 256;
  }

  lemma {:induction false} BitAfter(bm: Block, i: nat, j: nat)
    requires i < 8 * |bm| && j < 8 * |bm| && !Bit(bm, i)
    ensures Bit(SetBit(bm, i), j) == (j == i || Bit(bm, j))
  {
    if j / 8 == i / 8 {
      SetBitOf(bm[i / 8], i % 8, j % 8);
    }
  }

  /** The number of clear bits below n. */
  function ClearBits(bm: Block, n: nat): nat
    requires n <= 8 * |bm|
  {
    if n == 0 then 0 else ClearBits(bm, n - 1) + if Bit(bm, n - 1) then 0 else 1
  }

  lemma {:induction false} NoClearBits(bm: Block, n: nat)
    requires n <= 8 * |bm| && forall i: nat :: i < n ==> Bit(bm, i)
    ensures ClearBits(bm, n) == 0
  {
    hide Bit;
    if n > 0 {
      NoClearBits(bm, n - 1);
    }
  }

  lemma {:induction false} ZerosAfter(bm: Block, i: nat, n: nat)
    requires i < 8 * |bm| && n <= 8 * |bm| && !Bit(bm, i)
    ensures ClearBits(SetBit(bm, i), n) == if i < n then ClearBits(bm, n) - 1 else ClearBits(bm, n)
    ensures i < n ==> ClearBits(bm, n) > 0
  {
    if n > 0 {
      ZerosAfter(bm, i, n - 1);
      BitAfter(bm, i, n - 1);
    }
  }
}
