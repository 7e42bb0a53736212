/** Block pointers of an ext2 inode: twelve direct ones and trees of depth one, two and three. */
module Ext2Trees {
  import opened Arith
  import opened Ext2Bytes

  const DIRECT: nat := 12
  const POINTERS: nat := 15

  type Blocks = seq<Block>

  ghost predicate WholeBlocks(blocks: Blocks, bs: nat) {
    forall b :: 0 <= b < |blocks| ==> |blocks[b]| == bs
  }

  // ---------- trees ----------

  /** Pointer i of a block. */
  function Pointer(blocks: Blocks, b: nat, i: nat): nat
    requires b < |blocks| && 4 * i + 4 <= |blocks[b]|
  {
    Get32(blocks[b], 4 * i)
  }

  function Power(p: nat, d: nat): nat { if d == 0 then 1 else p * Power(p, d - 1) }

  /** All pointer blocks of the tree exist: none is zero, and none lies outside the volume. */
  ghost predicate Complete(blocks: Blocks, bs: nat, ptr: nat, d: nat)
    requires WholeBlocks(blocks, bs)
    decreases d
  {
    d == 0 || (0 < ptr < |blocks| && forall i: nat :: 4 * i + 4 <= bs ==>
        Complete(blocks, bs, Pointer(blocks, ptr, i), d - 1))
  }

  /** The leaves of a tree of depth d, left to right. */
  ghost function Leaves(blocks: Blocks, bs: nat, ptr: nat, d: nat): seq<nat>
    requires WholeBlocks(blocks, bs) && Complete(blocks, bs, ptr, d)
    decreases d, bs / 4 + 1
  {
    if d == 0 then [ptr] else LeavesBelow(blocks, bs, ptr, d, bs / 4)
  }

  /** The leaves below the first n pointers of a block. */
  ghost function LeavesBelow(blocks: Blocks, bs: nat, ptr: nat, d: nat, n: nat): seq<nat>
    requires WholeBlocks(blocks, bs) && d > 0 && Complete(blocks, bs, ptr, d) && n <= bs / 4
    decreases d, n
  {
    if n == 0 then []
    else LeavesBelow(blocks, bs, ptr, d, n - 1) + Leaves(blocks, bs, Pointer(blocks, ptr, n - 1), d - 1)
  }

  lemma {:induction false} LeavesCount(blocks: Blocks, bs: nat, ptr: nat, d: nat)
    requires WholeBlocks(blocks, bs) && Complete(blocks, bs, ptr, d)
    ensures |Leaves(blocks, bs, ptr, d)| == Power(bs / 4, d)
    decreases d, bs / 4 + 1
  {
    if d > 0 {
      LeavesBelowCount(blocks, bs, ptr, d, bs / 4);
      BaseIsProduct(bs / 4, Power(bs / 4, d - 1));
    }
  }

  lemma {:induction false} LeavesBelowCount(blocks: Blocks, bs: nat, ptr: nat, d: nat, n: nat)
    requires WholeBlocks(blocks, bs) && d > 0 && Complete(blocks, bs, ptr, d) && n <= bs / 4
    ensures |LeavesBelow(blocks, bs, ptr, d, n)| == Base(n, Power(bs / 4, d - 1))
    decreases d, n
  {
    if n > 0 {
      LeavesBelowCount(blocks, bs, ptr, d, n - 1);
      LeavesCount(blocks, bs, Pointer(blocks, ptr, n - 1), d - 1);
    }
  }

  /** Leaf k of a tree is leaf k mod size of its subtree k div size. */
  lemma {:induction false} LeafOfSubtree(blocks: Blocks, bs: nat, ptr: nat, d: nat, n: nat, i: nat, r: nat)
    requires WholeBlocks(blocks, bs) && d > 0 && Complete(blocks, bs, ptr, d) && i < n <= bs / 4
    requires r < Power(bs / 4, d - 1)
    ensures |Leaves(blocks, bs, Pointer(blocks, ptr, i), d - 1)| == Power(bs / 4, d - 1)
    ensures Base(i, Power(bs / 4, d - 1)) + r < |LeavesBelow(blocks, bs, ptr, d, n)|
    ensures LeavesBelow(blocks, bs, ptr, d, n)[Base(i, Power(bs / 4, d - 1)) + r]
            == Leaves(blocks, bs, Pointer(blocks, ptr, i), d - 1)[r]
    decreases n
  {
    LeavesCount(blocks, bs, Pointer(blocks, ptr, i), d - 1);
    LeavesBelowCount(blocks, bs, ptr, d, n - 1);
    LeavesBelowCount(blocks, bs, ptr, d, n);
    BaseOrder(i + 1, n, Power(bs / 4, d - 1));
    if i < n - 1 {
      LeafOfSubtree(blocks, bs, ptr, d, n - 1, i, r);
    }
  }

  /** Going down from leaf index k: the subtree, and the index in it. */
  lemma {:induction false} LeafBelow(blocks: Blocks, bs: nat, ptr: nat, d: nat, k: nat)
    requires WholeBlocks(blocks, bs) && d > 0 && Complete(blocks, bs, ptr, d) && k < Power(bs / 4, d)
    requires 0 < Power(bs / 4, d - 1)
    ensures var q := Power(bs / 4, d - 1);
            k / q < bs / 4 && k % q < q
            && |Leaves(blocks, bs, ptr, d)| == Power(bs / 4, d)
            && |Leaves(blocks, bs, Pointer(blocks, ptr, k / q), d - 1)| == q
            && Leaves(blocks, bs, ptr, d)[k] == Leaves(blocks, bs, Pointer(blocks, ptr, k / q), d - 1)[k % q]
  {
    hide Pointer, Power, LeavesBelow;
    var q := Power(bs / 4, d - 1);
    PowerStep(bs / 4, d);
    IndexParts(k, q, bs / 4);
    LeavesCount(blocks, bs, ptr, d);
    LeafOfSubtree(blocks, bs, ptr, d, bs / 4, k / q, k % q);
  }

  lemma {:induction false} PowerStep(p: nat, d: nat)
    requires d > 0
    ensures Power(p, d) == p * Power(p, d - 1)
  {
  }

  lemma {:induction false} IndexParts(k: nat, q: nat, p: nat)
    requires 0 < q && k < p * q
    ensures k / q < p && k % q < q && k == Base(k / q, q) + k % q
  {
    DivMod(k, q);
    DivBelow(k, q, p);
    BaseIsProduct(k / q, q);
  }

  lemma {:induction false} DivBelow(k: nat, q: nat, p: nat)
    requires 0 < q && k < p * q
    ensures k / q < p
  {
    DivMod(k, q);
    if k / q >= p {
      BaseIsProduct(p, q);
      BaseIsProduct(k / q, q);
      BaseOrder(p, k / q, q);
    }
  }

  // ---------- all pointers of an inode ----------

  ghost predicate CompleteInode(blocks: Blocks, bs: nat, ptrs: seq<nat>)
    requires WholeBlocks(blocks, bs) && |ptrs| == POINTERS
  {
    Complete(blocks, bs, ptrs[12], 1) && Complete(blocks, bs, ptrs[13], 2) && Complete(blocks, bs, ptrs[14], 3)
  }

  /** The block numbers of a file, in file order. */
  ghost function Flattened(blocks: Blocks, bs: nat, ptrs: seq<nat>): seq<nat>
    requires WholeBlocks(blocks, bs) && |ptrs| == POINTERS && CompleteInode(blocks, bs, ptrs)
  {
    ptrs[..DIRECT] + Leaves(blocks, bs, ptrs[12], 1) + Leaves(blocks, bs, ptrs[13], 2) + Leaves(blocks, bs, ptrs[14], 3)
  }

  function Reach(p: nat): nat { DIRECT + p + p * p + p * p * p }

  lemma {:induction false} FlattenedCount(blocks: Blocks, bs: nat, ptrs: seq<nat>)
    requires WholeBlocks(blocks, bs) && |ptrs| == POINTERS && CompleteInode(blocks, bs, ptrs)
    ensures |Flattened(blocks, bs, ptrs)| == Reach(bs / 4)
  {
    LeavesCount(blocks, bs, ptrs[12], 1);
    LeavesCount(blocks, bs, ptrs[13], 2);
    LeavesCount(blocks, bs, ptrs[14], 3);
    Powers(bs / 4);
  }

  lemma {:induction false} Powers(p: nat)
    ensures Power(p, 0) == 1 && Power(p, 1) == p && Power(p, 2) == p * p && Power(p, 3) == p * p * p
  {
    assert p * (p * p) == p * p * p;
  }

  /** With at most 1024 pointers a block, no index computation leaves 32 bits. */
  lemma {:induction false} NoOverflow(p: nat)
    requires p <= 1024
    ensures p * p <= 1024 * 1024 && p * p * p <= 1024 * 1024 * 1024 && Reach(p) < 0x1_0000_0000
  {
    Product(p, 1024, p, 1024);
    Product(p * p, 1024 * 1024, p, 1024);
  }

  lemma {:induction false} Product(a: nat, b: nat, c: nat, d: nat)
    requires a <= b && c <= d
    ensures a * c <= b * d
  {
    assert a * c <= a * d <= b * d;
  }

  // ---------- looking up one pointer ----------

  /** Descending from a pointer to leaf k: status 0 and the leaf, -2 at a zero pointer, -3 outside the volume. */
  function Descend(blocks: Blocks, bs: nat, ptr: nat, d: nat, k: nat): (int, nat)
    requires (forall b :: 0 <= b < |blocks| ==> |blocks[b]| == bs) && k < Power(bs / 4, d)
    decreases d
  {
    if d == 0 then (0, ptr)
    else if ptr == 0 then (-2, 0)
    else if ptr >= |blocks| then (-3, 0)
    else
      var q := Power(bs / 4, d - 1);
      if q == 0 || k / q >= bs / 4 then (-3, 0)
      else
        DivMod(k, q);
        Descend(blocks, bs, Pointer(blocks, ptr, k / q), d - 1, k % q)
  }

  /** In a complete tree the descent reaches leaf k. */
  lemma {:induction false} DescendReaches(blocks: Blocks, bs: nat, ptr: nat, d: nat, k: nat)
    requires WholeBlocks(blocks, bs) && Complete(blocks, bs, ptr, d) && k < Power(bs / 4, d)
    ensures |Leaves(blocks, bs, ptr, d)| == Power(bs / 4, d)
    ensures Descend(blocks, bs, ptr, d, k) == (0, Leaves(blocks, bs, ptr, d)[k])
    decreases d
  {
    hide LeavesBelow, Pointer;
    LeavesCount(blocks, bs, ptr, d);
    if d > 0 {
      PowerPositive(bs / 4, d - 1, k);
      LeafBelow(blocks, bs, ptr, d, k);
      DescendReaches(blocks, bs, Pointer(blocks, ptr, k / Power(bs / 4, d - 1)), d - 1, k % Power(bs / 4, d - 1));
    }
  }

  lemma {:induction false} PowerPositive(p: nat, d: nat, k: nat)
    requires k < p * Power(p, d)
    ensures 0 < p && 0 < Power(p, d)
  {
  }

  /** What ext2_get_block_num returns. */
  function Lookup(blocks: Blocks, bs: nat, ptrs: seq<nat>, k: nat): (int, nat)
    requires (forall b :: 0 <= b < |blocks| ==> |blocks[b]| == bs) && |ptrs| == POINTERS
  {
    var p := bs / 4;
    Powers(p);
    if k < DIRECT then (0, ptrs[k])
    else if k - DIRECT < p then Descend(blocks, bs, ptrs[12], 1, k - DIRECT)
    else if k - DIRECT - p < p * p then Descend(blocks, bs, ptrs[13], 2, k - DIRECT - p)
    else if k - DIRECT - p - p * p < p * p * p then Descend(blocks, bs, ptrs[14], 3, k - DIRECT - p - p * p)
    else (-4, 0)
  }

  /** With no pointer block missing, lookup k is block k of the file, for every k in reach and for no other. */
  lemma {:induction false} LookupIsFlattened(blocks: Blocks, bs: nat, ptrs: seq<nat>, k: nat)
    requires WholeBlocks(blocks, bs) && |ptrs| == POINTERS && CompleteInode(blocks, bs, ptrs)
    ensures |Flattened(blocks, bs, ptrs)| == Reach(bs / 4)
    ensures Lookup(blocks, bs, ptrs, k) == if k < Reach(bs / 4) then (0, Flattened(blocks, bs, ptrs)[k]) else (-4, 0)
  {
    hide Descend, Complete, Leaves, Power;
    var p := bs / 4;
    FlattenedCount(blocks, bs, ptrs);
    Powers(p);
    LeavesCount(blocks, bs, ptrs[12], 1);
    LeavesCount(blocks, bs, ptrs[13], 2);
    LeavesCount(blocks, bs, ptrs[14], 3);
    if DIRECT <= k && k - DIRECT < p {
      DescendReaches(blocks, bs, ptrs[12], 1, k - DIRECT);
    } else if DIRECT + p <= k && k - DIRECT - p < p * p {
      DescendReaches(blocks, bs, ptrs[13], 2, k - DIRECT - p);
    } else if DIRECT + p + p * p <= k && k - DIRECT - p - p * p < p * p * p {
      DescendReaches(blocks, bs, ptrs[14], 3, k - DIRECT - p - p * p);
    }
  }

  /** Where the pointer of file block k lies: the tree, and the index taken at each level. */
  datatype Slot = Slot(depth: nat, path: seq<nat>)

  function Digits(p: nat, d: nat, k: nat): seq<nat>
    requires p > 0
  {
    if d == 0 then [] else Digits(p, d - 1, k / p) + [k % p]
  }

  function SlotOf(p: nat, k: nat): Slot
    requires p > 0 && k < Reach(p)
  {
    if k < DIRECT then Slot(0, [k])
    else if k - DIRECT < p then Slot(1, Digits(p, 1, k - DIRECT))
    else if k - DIRECT - p < p * p then Slot(2, Digits(p, 2, k - DIRECT - p))
    else Slot(3, Digits(p, 3, k - DIRECT - p - p * p))
  }

  lemma {:induction false} DigitsApart(p: nat, d: nat, k: nat, j: nat)
    requires p > 0 && k < Power(p, d) && j < Power(p, d) && Digits(p, d, k) == Digits(p, d, j)
    ensures k == j
  {
    if d > 0 {
      var (a, b) := (Digits(p, d, k), Digits(p, d, j));
      assert a[..|a| - 1] == Digits(p, d - 1, k / p) && b[..|b| - 1] == Digits(p, d - 1, j / p);
      assert a[|a| - 1] == k % p && b[|b| - 1] == j % p;
      DigitBelow(k, p, d);
      DigitBelow(j, p, d);
      DigitsApart(p, d - 1, k / p, j / p);
      DivMod(k, p);
      DivMod(j, p);
    }
  }

  lemma {:induction false} DigitBelow(k: nat, p: nat, d: nat)
    requires p > 0 && d > 0 && k < Power(p, d)
    ensures k / p < Power(p, d - 1)
  {
    assert Power(p, d) == Power(p, d - 1) * p;
    DivBelow(k, p, Power(p, d - 1));
  }

  /** Different blocks of a file have their pointers in different slots. */
  lemma {:induction false} SlotsApart(p: nat, k: nat, j: nat)
    requires p > 0 && k < Reach(p) && j < Reach(p) && k != j
    ensures SlotOf(p, k) != SlotOf(p, j)
  {
    hide Digits, Power;
    Powers(p);
    if SlotOf(p, k) == SlotOf(p, j) {
      if SlotOf(p, k).depth == 1 {
        DigitsApart(p, 1, k - DIRECT, j - DIRECT);
      } else if SlotOf(p, k).depth == 2 {
        DigitsApart(p, 2, k - DIRECT - p, j - DIRECT - p);
      } else if SlotOf(p, k).depth == 3 {
        DigitsApart(p, 3, k - DIRECT - p - p * p, j - DIRECT - p - p * p);
      }
    }
  }
}
