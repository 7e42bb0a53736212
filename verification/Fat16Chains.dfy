/** Cluster chains in a FAT16 allocation table. */
module Fat16Chains {
  import opened Utils
  import opened Fat16Image

  type Fat = seq<nat>

  ghost predicate Disjoint(cs: seq<nat>, ds: seq<nat>) {
    forall c :: c in cs ==> c !in ds
  }

  /** What the table holds at position i of a chain cs. */
  function Link(cs: seq<nat>, i: nat): nat
    requires i < |cs|
  {
    if i + 1 < |cs| then cs[i + 1] else END_MARK
  }

  ghost predicate InTable(t: Fat, cs: seq<nat>) {
    forall i :: 0 <= i < |cs| ==> 2 <= cs[i] < |t|
  }

  /** The chain from start runs through cs without repetition and ends in an end mark. */
  ghost predicate IsChain(t: Fat, start: nat, cs: seq<nat>) {
    && cs != [] && cs[0] == start && Distinct(cs) && InTable(t, cs)
    && (forall i :: 0 <= i < |cs| - 1 ==> t[cs[i]] == cs[i + 1])
    && t[cs[|cs| - 1]] >= EOF
  }

  // ---------- following a chain ----------

  /** The clusters that a walk from start visits, at most n of them. */
  function Trail(t: Fat, start: nat, n: nat): seq<nat>
    decreases n
  {
    if n == 0 || start < 2 || start >= EOF || start >= |t| then []
    else if t[start] == 0 || t[start] >= EOF then [start]
    else [start] + Trail(t, t[start], n - 1)
  }

  /** A chain is what the walk from its start visits. */
  lemma {:induction false} TrailIsChain(t: Fat, start: nat, cs: seq<nat>, n: nat)
    requires IsChain(t, start, cs) && |t| <= EOF && |cs| <= n
    ensures Trail(t, start, n) == cs
    decreases n
  {
    if |cs| > 1 {
      var rest := cs[1..];
      assert t[cs[0]] == cs[1];
      assert IsChain(t, rest[0], rest) by {
        assert forall i :: 0 <= i < |rest| ==> rest[i] == cs[i + 1];
      }
      TrailIsChain(t, rest[0], rest, n - 1);
      assert cs == [cs[0]] + rest;
    } else {
      assert cs == [start];
    }
  }

  /** A chain is no longer than the table. */
  lemma {:induction false} ChainFits(t: Fat, cs: seq<nat>)
    requires Distinct(cs) && InTable(t, cs)
    ensures |cs| <= |t|
  {
    RangeSize(|t|);
    DistinctSize(cs);
    assert forall c :: c in Elements(cs) ==> c in Range(|t|) by {
      forall c | c in Elements(cs)
        ensures c in Range(|t|)
      {
        InRange(c, |t|);
      }
    }
    SubsetSize(Elements(cs), Range(|t|));
  }

  lemma {:induction false} SubsetSize(a: set<nat>, b: set<nat>)
    requires a <= b
    ensures |a| <= |b|
  {
    if a != {} {
      var x :| x in a;
      SubsetSize(a - {x}, b - {x});
    }
  }

  function Range(n: nat): set<nat> { if n == 0 then {} else Range(n - 1) + {n - 1} }

  lemma {:induction false} RangeSize(n: nat)
    ensures |Range(n)| == n && forall c :: c in Range(n) ==> c < n
  {
    if n > 0 {
      RangeSize(n - 1);
    }
  }

  lemma {:induction false} InRange(c: nat, n: nat)
    requires c < n
    ensures c in Range(n)
  {
    if c < n - 1 {
      InRange(c, n - 1);
    }
  }

  // ---------- freeing ----------

  ghost predicate Freed(t: Fat, t': Fat, cs: seq<nat>) {
    |t'| == |t| && forall c :: 0 <= c < |t| ==> t'[c] == if c in cs then 0 else t[c]
  }

  ghost predicate LinkedAs(t: Fat, t': Fat, cs: seq<nat>) {
    && |t'| == |t| && InTable(t, cs)
    && (forall i :: 0 <= i < |cs| ==> t'[cs[i]] == Link(cs, i))
    && (forall c :: 0 <= c < |t| && c !in cs ==> t'[c] == t[c])
  }

  /** The links of cs are written but those at the dropped positions, whose entries are as before. */
  ghost predicate LinkedExcept(t: Fat, t': Fat, cs: seq<nat>, dropped: set<nat>) {
    && |t'| == |t| && InTable(t, cs) && (forall i :: i in dropped ==> i < |cs|)
    && (forall i :: 0 <= i < |cs| ==> t'[cs[i]] == if i in dropped then t[cs[i]] else Link(cs, i))
    && (forall c :: 0 <= c < |t| && c !in cs ==> t'[c] == t[c])
  }

  /** The same as far as the first n links. */
  ghost predicate LinkedUpTo(t: Fat, t': Fat, cs: seq<nat>, n: nat, dropped: set<nat>)
    requires n <= |cs|
  {
    && |t'| == |t| && InTable(t, cs) && (forall i :: i in dropped ==> i < n)
    && (forall i :: 0 <= i < n ==> t'[cs[i]] == if i in dropped then t[cs[i]] else Link(cs, i))
    && (forall c :: 0 <= c < |t| && c !in cs[..n] ==> t'[c] == t[c])
  }

  lemma {:induction false} LinkStep(t: Fat, t': Fat, cs: seq<nat>, i: nat, dropped: set<nat>, stored: bool)
    requires i < |cs| && Distinct(cs) && LinkedUpTo(t, t', cs, i, dropped)
    ensures LinkedUpTo(t, if stored then t'[cs[i] := Link(cs, i)] else t', cs, i + 1, if stored then dropped
                                                                                      else dropped + {i})
  {
    hide Link;
    var (t2, dropped2) := (if stored then t'[cs[i] := Link(cs, i)] else t', if stored then dropped else dropped + {i});
    assert t'[cs[i]] == t[cs[i]] by {
      assert cs[i] !in cs[..i];
    }
    forall j | 0 <= j < i + 1
      ensures t2[cs[j]] == if j in dropped2 then t[cs[j]] else Link(cs, j)
    {
      assert j < i ==> cs[j] != cs[i];
    }
    forall c | 0 <= c < |t| && c !in cs[..i + 1]
      ensures t2[c] == t[c]
    {
      assert cs[..i + 1] == cs[..i] + [cs[i]];
    }
  }

  lemma {:induction false} LinkedAll(t: Fat, t': Fat, cs: seq<nat>, dropped: set<nat>)
    requires LinkedUpTo(t, t', cs, |cs|, dropped)
    ensures LinkedExcept(t, t', cs, dropped) && (dropped == {} ==> LinkedAs(t, t', cs))
  {
    assert cs[..|cs|] == cs;
  }

  lemma {:induction false} FreedNone(t: Fat, cs: seq<nat>)
    ensures Freed(t, t, cs[..0])
  {
  }

  /** The entry that the walk reaches after freeing the first i clusters still holds its link. */
  lemma {:induction false} ChainLink(t: Fat, start: nat, cs: seq<nat>, i: nat, t': Fat)
    requires IsChain(t, start, cs) && i < |cs| && Freed(t, t', cs[..i])
    ensures 2 <= cs[i] < |t'|
    ensures if i + 1 < |cs| then t'[cs[i]] == cs[i + 1] else t'[cs[i]] >= EOF
  {
    assert cs[i] !in cs[..i];
  }

  lemma {:induction false} FreeStep(t: Fat, t': Fat, cs: seq<nat>, i: nat)
    requires i < |cs| && cs[i] < |t| && Freed(t, t', cs[..i])
    ensures Freed(t, t'[cs[i] := 0], cs[..i + 1])
    ensures i + 1 == |cs| ==> Freed(t, t'[cs[i] := 0], cs)
  {
    assert cs[..i + 1] == cs[..i] + [cs[i]];
    assert i + 1 == |cs| ==> cs[..i + 1] == cs;
  }

  /** The entries of a chain are in use. */
  lemma {:induction false} ChainInUse(t: Fat, start: nat, cs: seq<nat>, c: nat)
    requires IsChain(t, start, cs) && c in cs
    ensures 2 <= c < |t| && t[c] != 0
  {
    var i :| 0 <= i < |cs| && cs[i] == c;
    if i < |cs| - 1 {
      assert t[cs[i]] == cs[i + 1];
    }
  }

  /** Changes to other entries keep a chain. */
  lemma {:induction false} ChainKept(t: Fat, t': Fat, start: nat, cs: seq<nat>)
    requires IsChain(t, start, cs) && |t'| == |t| && forall c :: c in cs ==> t'[c] == t[c]
    ensures IsChain(t', start, cs)
  {
    assert forall i :: 0 <= i < |cs| ==> cs[i] in cs && t'[cs[i]] == t[cs[i]];
  }

  /** Linking distinct clusters makes them a chain. */
  lemma {:induction false} LinkedIsChain(t: Fat, t': Fat, cs: seq<nat>)
    requires LinkedAs(t, t', cs) && cs != [] && Distinct(cs)
    ensures IsChain(t', cs[0], cs)
  {
    assert forall i :: 0 <= i < |cs| - 1 ==> t'[cs[i]] == Link(cs, i);
    assert t'[cs[|cs| - 1]] == Link(cs, |cs| - 1);
  }

  // ---------- free clusters ----------

  /** The free clusters below c, in order. */
  function FreeBelow(t: Fat, c: nat): seq<nat>
    requires c <= |t|
  {
    if c <= 2 then [] else FreeBelow(t, c - 1) + if t[c - 1] == 0 then [c - 1] else []
  }

  lemma {:induction false} FreeBelowMeaning(t: Fat, c: nat)
    requires c <= |t|
    ensures forall d :: d in FreeBelow(t, c) <==> 2 <= d < c && t[d] == 0
  {
    if c > 2 {
      FreeBelowMeaning(t, c - 1);
      var before := FreeBelow(t, c - 1);
      assert FreeBelow(t, c) == if t[c - 1] == 0 then before + [c - 1] else before;
    }
  }

  lemma {:induction false} FreeBelowDistinct(t: Fat, c: nat)
    requires c <= |t|
    ensures Distinct(FreeBelow(t, c))
  {
    if c > 2 {
      FreeBelowDistinct(t, c - 1);
      FreeBelowMeaning(t, c - 1);
      var before := FreeBelow(t, c - 1);
      assert forall i :: 0 <= i < |before| ==> before[i] in before;
      assert FreeBelow(t, c) == if t[c - 1] == 0 then before + [c - 1] else before;
    }
  }

  lemma {:induction false} FreeBelowPrefix(t: Fat, c: nat, d: nat)
    requires c <= d <= |t|
    ensures FreeBelow(t, c) <= FreeBelow(t, d)
  {
    if c < d {
      FreeBelowPrefix(t, c, d - 1);
    }
  }

  /** What allocate_chain takes: the first n free clusters. */
  ghost predicate Takes(t: Fat, n: nat, cs: seq<nat>) {
    |cs| == n && cs <= FreeBelow(t, |t|)
  }

  /** Some of the free clusters, in order. */
  ghost predicate SomeFree(t: Fat, cs: seq<nat>) {
    && (forall i :: 0 <= i < |cs| ==> 2 <= cs[i] < |t| && t[cs[i]] == 0)
    && (forall i, j :: 0 <= i < j < |cs| ==> cs[i] < cs[j])
  }

  lemma {:induction false} SomeFreeShape(t: Fat, cs: seq<nat>)
    requires SomeFree(t, cs)
    ensures Distinct(cs) && InTable(t, cs) && |cs| <= |t| && forall c :: c in cs ==> 2 <= c < |t| && t[c] == 0
  {
    ChainFits(t, cs);
  }

  lemma {:induction false} TakesFree(t: Fat, n: nat, cs: seq<nat>)
    requires Takes(t, n, cs)
    ensures Distinct(cs) && InTable(t, cs) && forall c :: c in cs ==> 2 <= c < |t| && t[c] == 0
  {
    var all := FreeBelow(t, |t|);
    FreeBelowMeaning(t, |t|);
    FreeBelowDistinct(t, |t|);
    assert forall i :: 0 <= i < |cs| ==> cs[i] == all[i] && cs[i] in all;
  }

  /** A chain allocated from free clusters keeps every other chain and is disjoint from it. */
  lemma {:induction false} AllocationKeeps(t: Fat, t': Fat, cs: seq<nat>, start: nat, ds: seq<nat>)
    requires Takes(t, |cs|, cs) && LinkedAs(t, t', cs) && IsChain(t, start, ds)
    ensures IsChain(t', start, ds) && Disjoint(cs, ds) && Disjoint(ds, cs)
  {
    TakesFree(t, |cs|, cs);
    forall c | c in ds
      ensures c !in cs && t'[c] == t[c]
    {
      ChainInUse(t, start, ds, c);
    }
    ChainKept(t, t', start, ds);
  }

  /** Freeing a chain keeps every chain that is disjoint from it. */
  lemma {:induction false} FreeingKeeps(t: Fat, t': Fat, cs: seq<nat>, start: nat, ds: seq<nat>)
    requires Freed(t, t', cs) && IsChain(t, start, ds) && Disjoint(ds, cs)
    ensures IsChain(t', start, ds)
  {
    forall c | c in ds
      ensures t'[c] == t[c]
    {
      ChainInUse(t, start, ds, c);
    }
    ChainKept(t, t', start, ds);
  }

  /** Freeing what was just allocated restores the table. */
  lemma {:induction false} FreeUndoesAllocation(t: Fat, t1: Fat, t2: Fat, cs: seq<nat>)
    requires Takes(t, |cs|, cs) && LinkedAs(t, t1, cs) && Freed(t1, t2, cs)
    ensures t2 == t
  {
    TakesFree(t, |cs|, cs);
    forall c | 0 <= c < |t|
      ensures t2[c] == t[c]
    {
    }
  }

  // ---------- links whose writes failed ----------

  lemma {:induction false} TrailStops(t: Fat, t': Fat, cs: seq<nat>, dropped: set<nat>, k: nat, i: nat, n: nat)
    requires LinkedExcept(t, t', cs, dropped) && |t| <= EOF && k in dropped && t[cs[k]] == 0
    requires i <= k && k + 1 - i <= n && forall j :: i <= j < k ==> j !in dropped
    ensures Trail(t', cs[i], n) == cs[i..k + 1]
    decreases k - i
  {
    if i < k {
      assert t'[cs[i]] == Link(cs, i) == cs[i + 1];
      TrailStops(t, t', cs, dropped, k, i + 1, n - 1);
      assert cs[i..k + 1] == [cs[i]] + cs[i + 1..k + 1];
    } else {
      assert cs[i..k + 1] == [cs[i]];
    }
  }

  /** A walk along free clusters so linked ends at the first dropped link: the file is whole only if the last
      link is the one missing, and there is no end mark. */
  lemma {:induction false} MissingLinkCutsChain(t: Fat, t': Fat, cs: seq<nat>, dropped: set<nat>, k: nat)
    requires LinkedExcept(t, t', cs, dropped) && Distinct(cs) && |t| <= EOF && forall c :: c in cs ==> t[c] == 0
    requires k in dropped && forall j :: j in dropped ==> k <= j
    ensures Trail(t', cs[0], |t|) == cs[..k + 1]
    ensures Trail(t', cs[0], |t|) == cs <==> k == |cs| - 1
    ensures !IsChain(t', cs[0], Trail(t', cs[0], |t|))
  {
    ChainFits(t, cs);
    assert cs[k] in cs;
    TrailStops(t, t', cs, dropped, k, 0, |t|);
    assert cs[0..k + 1] == cs[..k + 1];
    assert cs[..k + 1][k] == cs[k];
    assert |cs[..k + 1]| == k + 1;
  }

  /** For example three clusters of which the first link was dropped: a walk visits one of them. */
  lemma {:induction false} DroppedFirstLink()
    ensures var (t, t') := ([0xFFF8, 0xFFFF, 0, 0, 0], [0xFFF8, 0xFFFF, 0, 4, END_MARK]);
            LinkedExcept(t, t', [2, 3, 4], {0}) && Trail(t', 2, 5) == [2]
  {
    assert [2, 3, 4][0] == 2 && [2, 3, 4][1] == 3 && [2, 3, 4][2] == 4;
  }

  /** A chain written with no link dropped is whole, and with one dropped it is not. */
  lemma {:induction false} WholeIffNoneDropped(t: Fat, t': Fat, cs: seq<nat>, dropped: set<nat>)
    requires LinkedExcept(t, t', cs, dropped) && Distinct(cs) && cs != [] && |t| <= EOF && forall c :: c in cs ==>
                 t[c] == 0
    ensures IsChain(t', cs[0], cs) <==> dropped == {}
  {
    if dropped == {} {
      LinkedIsChain(t, t', cs);
    } else {
      var k :| k in dropped;
      assert cs[k] in cs && t'[cs[k]] == 0 && (k + 1 < |cs| ==> cs[k + 1] >= 2);
    }
  }
}
