/** What a write-back LRU cache means: the block map seen through it, and the order of use. */
module CacheModel {
  import opened Utils

  type Block = seq<Byte>

  datatype Entry = Entry(blockNum: nat, data: Block, lastUsed: nat, dirty: bool, valid: bool)

  // ---------- the block map ----------

  /** The first valid entry for a block, or -1. */
  function Find(es: seq<Entry>, b: nat): (k: int)
    ensures -1 <= k < |es|
    ensures 0 <= k ==> es[k].valid && es[k].blockNum == b
    ensures 0 <= k ==> forall i :: 0 <= i < k ==> !(es[i].valid && es[i].blockNum == b)
    ensures k < 0 ==> forall i :: 0 <= i < |es| ==> !(es[i].valid && es[i].blockNum == b)
  {
    if es == [] then -1
    else if es[0].valid && es[0].blockNum == b then 0
    else
      var k := Find(es[1..], b);
      assert forall i :: 1 <= i < |es| ==> es[i] == es[1..][i - 1];
      if k < 0 then -1 else k + 1
  }

  /** The contents of a block as the clients of the cache see it. */
  function View(es: seq<Entry>, disk: seq<Block>, b: nat): Option<Block> {
    if Find(es, b) >= 0 then Some(es[Find(es, b)].data)
    else if b < |disk| then Some(disk[b])
    else None
  }

  ghost predicate Unique(es: seq<Entry>) {
    forall i, j :: 0 <= i < j < |es| && es[i].valid && es[j].valid ==> es[i].blockNum != es[j].blockNum
  }

  /** At most one valid entry per block, whole blocks only, and clean entries equal the disk. */
  ghost predicate Coherent(es: seq<Entry>, disk: seq<Block>, blockSize: nat) {
    && Unique(es)
    && (forall i :: 0 <= i < |es| && es[i].valid ==> |es[i].data| == blockSize)
    && (forall i :: 0 <= i < |es| && es[i].valid && !es[i].dirty ==>
           es[i].blockNum < |disk| && disk[es[i].blockNum] == es[i].data)
    && (forall b :: 0 <= b < |disk| ==> |disk[b]| == blockSize)
  }

  lemma {:induction false} FindIs(es: seq<Entry>, k: nat)
    requires Unique(es) && k < |es| && es[k].valid
    ensures Find(es, es[k].blockNum) == k
  {
  }

  /** Writing a dirty entry back to its block changes no view, even if only a part of it arrives. */
  lemma {:induction false} WriteBack(es: seq<Entry>, disk: seq<Block>, blockSize: nat, k: nat, data: Block)
    requires Coherent(es, disk, blockSize) && k < |es| && es[k].valid && es[k].dirty && es[k].blockNum < |disk|
    requires |data| == blockSize
    ensures Coherent(es, disk[es[k].blockNum := data], blockSize)
    ensures forall b: nat :: View(es, disk[es[k].blockNum := data], b) == View(es, disk, b)
  {
    forall b: nat
      ensures View(es, disk[es[k].blockNum := data], b) == View(es, disk, b)
    {
      FindIs(es, k);
    }
  }

  lemma {:induction false} Sizes(es: seq<Entry>, disk: seq<Block>, blockSize: nat)
    requires Coherent(es, disk, blockSize)
    ensures forall i :: 0 <= i < |es| && es[i].valid ==> |es[i].data| == blockSize
    ensures forall b :: 0 <= b < |disk| ==> |disk[b]| == blockSize
  {
  }

  /** With every entry clean the disk holds what the cache shows. */
  lemma {:induction false} AllClean(es: seq<Entry>, disk: seq<Block>, blockSize: nat)
    requires Coherent(es, disk, blockSize) && forall i :: 0 <= i < |es| && es[i].valid ==> !es[i].dirty
    ensures forall b: nat :: View(es, disk, b) == if b < |disk| then Some(disk[b]) else None
  {
  }

  /** An entry that equals its block on disk may be marked clean. */
  lemma {:induction false} MarkClean(es: seq<Entry>, disk: seq<Block>, blockSize: nat, k: nat)
    requires Coherent(es, disk, blockSize) && k < |es| && es[k].blockNum < |disk| && disk[es[k].blockNum] == es[k].data
    ensures Coherent(es[k := es[k].(dirty := false)], disk, blockSize)
    ensures forall b: nat :: Find(es[k := es[k].(dirty := false)], b) == Find(es, b)
    ensures forall b: nat :: View(es[k := es[k].(dirty := false)], disk, b) == View(es, disk, b)
  {
    forall b: nat
      ensures Find(es[k := es[k].(dirty := false)], b) == Find(es, b)
    {
      SameKeysSameFind(es, es[k := es[k].(dirty := false)], b);
    }
  }

  lemma {:induction false} SameKeysSameFind(es: seq<Entry>, es': seq<Entry>, b: nat)
    requires |es'| == |es| && forall i :: 0 <= i < |es| ==>
                 es'[i].valid == es[i].valid && es'[i].blockNum == es[i].blockNum
    ensures Find(es', b) == Find(es, b)
  {
  }

  /** Replacing a clean or invalid entry by a block that is not cached shows that block only. */
  lemma {:induction false} Replace(es: seq<Entry>, disk: seq<Block>, blockSize: nat, k: nat, b: nat, data: Block,
                                   time: nat, dirty: bool)
    requires Coherent(es, disk, blockSize) && k < |es| && (es[k].valid ==> !es[k].dirty)
    requires Find(es, b) < 0 && |data| == blockSize && (!dirty ==> b < |disk| && disk[b] == data)
    ensures Coherent(es[k := Entry(b, data, time, dirty, true)], disk, blockSize)
    ensures forall c: nat :: View(es[k := Entry(b, data, time, dirty, true)], disk, c) == if c == b then Some(data)
                                                                                          else View(es, disk, c)
  {
    var es' := es[k := Entry(b, data, time, dirty, true)];
    forall c: nat
      ensures View(es', disk, c) == if c == b then Some(data) else View(es, disk, c)
    {
      if c == b {
        FindIs(es', k);
      } else if Find(es, c) >= 0 && Find(es, c) != k {
        FindIs(es', Find(es, c));
      }
    }
  }

  /** Rewriting a cached block in place shows the new data for that block only. */
  lemma {:induction false} Update(es: seq<Entry>, disk: seq<Block>, blockSize: nat, k: nat, e: Entry)
    requires Coherent(es, disk, blockSize) && k < |es| && es[k].valid
    requires e.valid && e.blockNum == es[k].blockNum && |e.data| == blockSize
    requires !e.dirty ==> e.blockNum < |disk| && disk[e.blockNum] == e.data
    ensures Coherent(es[k := e], disk, blockSize)
    ensures forall b: nat :: View(es[k := e], disk, b) == if b == e.blockNum then Some(e.data) else View(es, disk, b)
  {
    forall b: nat
      ensures View(es[k := e], disk, b) == if b == e.blockNum then Some(e.data) else View(es, disk, b)
    {
      SameKeysSameFind(es, es[k := e], b);
      FindIs(es, k);
    }
  }

  /** Using an entry, with new data and dirty or as it is. */
  lemma {:induction false} TouchedView(es: seq<Entry>, disk: seq<Block>, blockSize: nat, k: nat, e: Entry)
    requires Coherent(es, disk, blockSize) && k < |es| && es[k].valid && |e.data| == blockSize
    requires e == es[k].(lastUsed := e.lastUsed) || e == es[k].(data := e.data, lastUsed := e.lastUsed, dirty := true)
    ensures Coherent(es[k := e], disk, blockSize)
    ensures View(es, disk, es[k].blockNum) == Some(es[k].data)
    ensures forall b: nat :: View(es[k := e], disk, b) == if b == es[k].blockNum then Some(e.data)
                                                          else View(es, disk, b)
  {
    Update(es, disk, blockSize, k, e);
    FindIs(es, k);
  }

  lemma {:induction false} Uncached(es: seq<Entry>, disk: seq<Block>, b: nat)
    requires Find(es, b) < 0
    ensures View(es, disk, b) == if b < |disk| then Some(disk[b]) else None
  {
  }

  // ---------- the order of use ----------

  function Without(s: seq<nat>, b: nat): (r: seq<nat>)
    ensures forall x :: x in r <==> x in s && x != b
  {
    if s == [] then [] else if s[0] == b then Without(s[1..], b) else [s[0]] + Without(s[1..], b)
  }

  /** The distinct blocks of a history of accesses, most recently used first. */
  function Recency(history: seq<nat>): (r: seq<nat>) {
    if history == [] then [] else [history[|history| - 1]] + Without(Recency(history[..|history| - 1]), history[|history| - 1])
  }

  lemma {:induction false} RecencyNext(history: seq<nat>, b: nat)
    ensures Recency(history + [b]) == [b] + Without(Recency(history), b)
  {
    assert (history + [b])[..|history|] == history;
  }

  /** The position of the last access to a block, or -1. */
  function LastAccess(history: seq<nat>, b: nat): (k: int)
    ensures -1 <= k < |history|
    ensures 0 <= k <==> b in history
    ensures 0 <= k ==> history[k] == b
  {
    if history == [] then -1
    else if history[|history| - 1] == b then |history| - 1
    else LastAccess(history[..|history| - 1], b)
  }

  ghost predicate ByLastAccess(history: seq<nat>, s: seq<nat>) {
    forall i, j :: 0 <= i < j < |s| ==> LastAccess(history, s[i]) > LastAccess(history, s[j])
  }

  /** The same order, one element at a time. */
  ghost predicate Falling(history: seq<nat>, s: seq<nat>) {
    s != [] ==> (forall x :: x in s[1..] ==> LastAccess(history, s[0]) > LastAccess(history, x)) && Falling(history, s[1..])
  }

  lemma {:induction false} FallingMeaning(history: seq<nat>, s: seq<nat>)
    requires Falling(history, s)
    ensures ByLastAccess(history, s)
  {
    if s != [] {
      FallingMeaning(history, s[1..]);
      forall i, j | 0 <= i < j < |s|
        ensures LastAccess(history, s[i]) > LastAccess(history, s[j])
      {
        assert s[j] == s[1..][j - 1] && s[1..][j - 1] in s[1..];
        assert i > 0 ==> s[i] == s[1..][i - 1];
      }
    }
  }

  lemma {:induction false} WithoutFalling(history: seq<nat>, s: seq<nat>, b: nat)
    requires Falling(history, s)
    ensures Falling(history, Without(s, b))
  {
    if s != [] {
      WithoutFalling(history, s[1..], b);
      if s[0] != b {
        assert Without(s, b)[1..] == Without(s[1..], b);
      }
    }
  }

  /** One more access changes nothing for the other blocks. */
  lemma {:induction false} StillFalling(history: seq<nat>, s: seq<nat>)
    requires history != [] && Falling(history[..|history| - 1], s) && history[|history| - 1] !in s
    ensures Falling(history, s)
  {
    if s != [] {
      StillFalling(history, s[1..]);
    }
  }

  lemma {:induction false} RecencyMembers(history: seq<nat>)
    ensures forall b :: b in Recency(history) <==> b in history
  {
    if history != [] {
      RecencyMembers(history[..|history| - 1]);
      assert history == history[..|history| - 1] + [history[|history| - 1]];
    }
  }

  lemma {:induction false} RecencyFalling(history: seq<nat>)
    ensures Falling(history, Recency(history))
  {
    if history != [] {
      var (before, b) := (history[..|history| - 1], history[|history| - 1]);
      RecencyFalling(before);
      WithoutFalling(before, Recency(before), b);
      StillFalling(history, Without(Recency(before), b));
      assert Recency(history)[1..] == Without(Recency(before), b);
    }
  }

  /** Recency lists exactly the blocks ever accessed, by falling time of last access. */
  lemma {:induction false} RecencyMeaning(history: seq<nat>)
    ensures forall b :: b in Recency(history) <==> b in history
    ensures ByLastAccess(history, Recency(history))
    ensures Distinct(Recency(history))
  {
    RecencyMembers(history);
    RecencyFalling(history);
    FallingMeaning(history, Recency(history));
  }

  lemma {:induction false} WithoutAt(s: seq<nat>, p: nat)
    requires Distinct(s) && p < |s|
    ensures Without(s, s[p]) == s[..p] + s[p + 1..]
  {
    if p == 0 {
      WithoutAbsent(s[1..], s[0]);
    } else {
      assert s[1..][p - 1] == s[p];
      WithoutAt(s[1..], p - 1);
    }
  }

  lemma {:induction false} WithoutAbsent(s: seq<nat>, b: nat)
    requires b !in s
    ensures Without(s, b) == s
  {
    if s != [] {
      WithoutAbsent(s[1..], b);
    }
  }

  lemma {:induction false} WithoutPrefix(s: seq<nat>, m: nat, b: nat)
    requires m <= |s| && b !in s[..m]
    ensures m <= |Without(s, b)| && Without(s, b)[..m] == s[..m]
  {
    if m > 0 {
      assert s[0] == s[..m][0] && s[1..][..m - 1] == s[..m][1..];
      WithoutPrefix(s[1..], m - 1, b);
    }
  }

  lemma {:induction false} WithoutFront(s: seq<nat>, m: nat, b: nat)
    requires m <= |s| && forall i :: 0 <= i < m ==> s[i] != b
    ensures m <= |Without(s, b)|
    ensures forall i :: 0 < i <= m ==> ([b] + Without(s, b))[i] == s[i - 1]
  {
    WithoutPrefix(s, m, b);
    assert forall i :: 0 < i <= m ==> ([b] + Without(s, b))[i] == Without(s, b)[..m][i - 1];
  }

  lemma {:induction false} WithoutDistinct(s: seq<nat>, b: nat)
    requires Distinct(s)
    ensures Distinct(Without(s, b))
    ensures |Without(s, b)| == if b in s then |s| - 1 else |s|
  {
    if b in s {
      var p :| 0 <= p < |s| && s[p] == b;
      WithoutAt(s, p);
    } else {
      WithoutAbsent(s, b);
    }
  }

  lemma {:induction false} DistinctFront(s: seq<nat>, b: nat)
    requires Distinct(s)
    ensures Distinct([b] + Without(s, b))
    ensures |Without(s, b)| == if b in s then |s| - 1 else |s|
  {
    WithoutDistinct(s, b);
    var r := [b] + Without(s, b);
    forall i, j | 0 <= i < j < |r|
      ensures r[i] != r[j]
    {
      assert r[j] == Without(s, b)[j - 1];
      assert r[j] in Without(s, b);
    }
  }

  /** Entry slots[i] holds the i-th most recent block. The entries fill from the front; slots lists
      the valid ones by falling time stamp. */
  ghost predicate Tracks(es: seq<Entry>, now: nat, recency: seq<nat>, slots: seq<nat>) {
    && Distinct(recency)
    && |slots| == (if |es| < |recency| then |es| else |recency|)
    && (forall i :: 0 <= i < |slots| ==> Holds(es, recency, i, slots[i]))
    && (forall i, j :: 0 <= i < j < |slots| ==> Newer(es, slots[i], slots[j]))
    && (forall k :: 0 <= k < |es| ==> (es[k].valid <==> k < |recency|))
    && (forall k :: 0 <= k < |es| && es[k].valid ==> es[k].lastUsed <= now && k in slots)
  }

  ghost predicate Holds(es: seq<Entry>, recency: seq<nat>, i: nat, k: nat) {
    k < |es| && i < |recency| && es[k].valid && es[k].blockNum == recency[i]
  }

  ghost predicate Newer(es: seq<Entry>, k: nat, l: nat) {
    k < |es| && l < |es| && es[l].lastUsed < es[k].lastUsed
  }

  /** Neither dirty bits nor the passing of time disturb the tracking. */
  lemma {:induction false} StillTracks(es: seq<Entry>, es': seq<Entry>, now: nat, now': nat, recency: seq<nat>,
                                       slots: seq<nat>)
    requires Tracks(es, now, recency, slots) && now <= now' && |es'| == |es|
    requires forall i :: 0 <= i < |es| ==> es'[i] == es[i].(dirty := es'[i].dirty)
    ensures Tracks(es', now', recency, slots)
  {
    forall i | 0 <= i < |slots|
      ensures Holds(es', recency, i, slots[i])
    {
      assert Holds(es, recency, i, slots[i]);
    }
    forall i, j | 0 <= i < j < |slots|
      ensures Newer(es', slots[i], slots[j])
    {
      assert Newer(es, slots[i], slots[j]);
    }
  }

  /** What stays of a tracked cache when entry k and its block are taken out. */
  ghost predicate TracksWithout(es: seq<Entry>, now: nat, rest: seq<nat>, slots: seq<nat>, k: nat) {
    && |slots| + 1 == (if |es| < |rest| + 1 then |es| else |rest| + 1)
    && (forall i :: 0 <= i < |slots| ==> Holds(es, rest, i, slots[i]) && slots[i] != k)
    && (forall i, j :: 0 <= i < j < |slots| ==> Newer(es, slots[i], slots[j]))
    && k < |rest| + 1 && (forall l :: 0 <= l < |es| && l != k ==> (es[l].valid <==> l < |rest| + 1))
    && (forall l :: 0 <= l < |es| && l != k && es[l].valid ==> es[l].lastUsed <= now && l in slots)
  }

  lemma {:induction false} FrontHolds(es: seq<Entry>, now: nat, rest: seq<nat>, slots: seq<nat>, k: nat, e: Entry,
                                      i: nat)
    requires TracksWithout(es, now, rest, slots, k) && k < |es| && e.valid && i <= |slots|
    ensures Holds(es[k := e], [e.blockNum] + rest, i, ([k] + slots)[i])
  {
    assert i > 0 ==> Holds(es, rest, i - 1, slots[i - 1]) && ([k] + slots)[i] == slots[i - 1];
  }

  lemma {:induction false} FrontNewer(es: seq<Entry>, now: nat, rest: seq<nat>, slots: seq<nat>, k: nat, e: Entry,
                                      i: nat, j: nat)
    requires TracksWithout(es, now, rest, slots, k) && k < |es| && now < e.lastUsed && i < j <= |slots|
    ensures Newer(es[k := e], ([k] + slots)[i], ([k] + slots)[j])
  {
    assert ([k] + slots)[j] == slots[j - 1] && Holds(es, rest, j - 1, slots[j - 1]);
    assert i > 0 ==> Newer(es, slots[i - 1], slots[j - 1]) && Holds(es, rest, i - 1, slots[i - 1]) && ([k] + slots)[i] == slots[i - 1];
  }

  lemma {:induction false} FrontMember(es: seq<Entry>, now: nat, rest: seq<nat>, slots: seq<nat>, k: nat, e: Entry,
                                       l: nat)
    requires TracksWithout(es, now, rest, slots, k) && k < |es| && e.valid && now < e.lastUsed && l < |es|
    ensures var es' := es[k := e];
            (es'[l].valid <==> l < |rest| + 1) && (es'[l].valid ==> es'[l].lastUsed <= e.lastUsed && l in [k] + slots)
  {
  }

  /** Putting the newest entry in front completes the tracking. */
  lemma {:induction false} FrontTracks(es: seq<Entry>, now: nat, rest: seq<nat>, slots: seq<nat>, k: nat, e: Entry)
    requires TracksWithout(es, now, rest, slots, k) && k < |es| && e.valid && now < e.lastUsed
    requires Distinct([e.blockNum] + rest)
    ensures Tracks(es[k := e], e.lastUsed, [e.blockNum] + rest, [k] + slots)
  {
    assert |slots| + 1 == if |es| < |rest| + 1 then |es| else |rest| + 1;
    hide TracksWithout, Holds, Newer;
    var (r, es', slots') := ([e.blockNum] + rest, es[k := e], [k] + slots);
    forall i | 0 <= i < |slots'|
      ensures Holds(es', r, i, slots'[i])
    {
      FrontHolds(es, now, rest, slots, k, e, i);
    }
    forall i, j | 0 <= i < j < |slots'|
      ensures Newer(es', slots'[i], slots'[j])
    {
      FrontNewer(es, now, rest, slots, k, e, i, j);
    }
    forall l | 0 <= l < |es'|
      ensures (es'[l].valid <==> l < |r|) && (es'[l].valid ==> es'[l].lastUsed <= e.lastUsed && l in slots')
    {
      FrontMember(es, now, rest, slots, k, e, l);
    }
  }

  /** A tracked cache without the entry in place p. */
  lemma {:induction false} TakeOut(es: seq<Entry>, now: nat, recency: seq<nat>, slots: seq<nat>, p: nat)
    requires Tracks(es, now, recency, slots) && p < |slots|
    ensures TracksWithout(es, now, recency[..p] + recency[p + 1..], slots[..p] + slots[p + 1..], slots[p])
  {
    var (rest, others, k) := (recency[..p] + recency[p + 1..], slots[..p] + slots[p + 1..], slots[p]);
    assert Holds(es, recency, p, k);
    forall i | 0 <= i < |others|
      ensures Holds(es, rest, i, others[i]) && others[i] != k
    {
      var i' := if i < p then i else i + 1;
      assert Holds(es, recency, i', slots[i']);
      assert if i' < p then Newer(es, slots[i'], slots[p]) else Newer(es, slots[p], slots[i']);
    }
    forall i, j | 0 <= i < j < |others|
      ensures Newer(es, others[i], others[j])
    {
      assert Newer(es, slots[if i < p then i else i + 1], slots[if j < p then j else j + 1]);
    }
    forall l | 0 <= l < |es| && l != k && es[l].valid
      ensures l in others
    {
      assert l in slots;
    }
  }

  /** A hit moves its block to the front. */
  lemma {:induction false} HitTracks(es: seq<Entry>, now: nat, recency: seq<nat>, slots: seq<nat>, k: nat, e: Entry)
    returns (slots': seq<nat>)
    requires Tracks(es, now, recency, slots) && k < |es| && es[k].valid
    requires e.valid && e.blockNum == es[k].blockNum && now < e.lastUsed
    ensures Tracks(es[k := e], e.lastUsed, [e.blockNum] + Without(recency, e.blockNum), slots')
  {
    var p :| 0 <= p < |slots| && slots[p] == k;
    assert Holds(es, recency, p, k);
    WithoutAt(recency, p);
    DistinctFront(recency, e.blockNum);
    TakeOut(es, now, recency, slots, p);
    hide Without, Recency, Tracks, TracksWithout;
    slots' := [k] + (slots[..p] + slots[p + 1..]);
    FrontTracks(es, now, Without(recency, e.blockNum), slots[..p] + slots[p + 1..], k, e);
  }

  /** A miss that fills the first invalid entry. */
  lemma {:induction false} FillTracks(es: seq<Entry>, now: nat, recency: seq<nat>, slots: seq<nat>, k: nat, e: Entry)
    returns (slots': seq<nat>)
    requires Tracks(es, now, recency, slots) && k < |es| && !es[k].valid && forall i :: 0 <= i < k ==> es[i].valid
    requires e.valid && !Cached(es, e.blockNum) && now < e.lastUsed
    ensures Tracks(es[k := e], e.lastUsed, [e.blockNum] + Without(recency, e.blockNum), slots')
  {
    hide Without, Recency, TracksWithout;
    assert k > 0 ==> es[k - 1].valid;
    assert k == |recency| == |slots|;
    forall i | 0 <= i < |slots|
      ensures recency[i] != e.blockNum && slots[i] != k
    {
      assert Holds(es, recency, i, slots[i]);
    }
    WithoutAbsent(recency, e.blockNum);
    slots' := [k] + slots;
    NothingTaken(es, now, recency, slots, k);
    FrontTracks(es, now, recency, slots, k, e);
  }

  lemma {:induction false} NothingTaken(es: seq<Entry>, now: nat, recency: seq<nat>, slots: seq<nat>, k: nat)
    requires Tracks(es, now, recency, slots) && k == |recency| == |slots| < |es|
    requires forall i :: 0 <= i < |slots| ==> slots[i] != k
    ensures TracksWithout(es, now, recency, slots, k)
  {
  }

  /** A miss that evicts the entry with the oldest stamp. */
  lemma {:induction false} EvictTracks(es: seq<Entry>, now: nat, recency: seq<nat>, slots: seq<nat>, k: nat, e: Entry)
    returns (slots': seq<nat>)
    requires Tracks(es, now, recency, slots) && k < |es|
    requires forall i :: 0 <= i < |es| ==> es[i].valid && es[k].lastUsed <= es[i].lastUsed
    requires e.valid && !Cached(es, e.blockNum) && now < e.lastUsed
    ensures Tracks(es[k := e], e.lastUsed, [e.blockNum] + Without(recency, e.blockNum), slots')
  {
    hide Without, Recency;
    var n := |es|;
    assert es[n - 1].valid && |slots| == n;
    var p :| 0 <= p < n && slots[p] == k;
    assert p == n - 1 by {
      assert p < n - 1 ==> Newer(es, slots[p], slots[n - 1]);
    }
    DistinctFront(recency, e.blockNum);
    var (rest, others) := (Without(recency, e.blockNum), slots[..n - 1]);
    forall i | 0 <= i < n
      ensures recency[i] != e.blockNum && (i < n - 1 ==> slots[i] != k)
    {
      assert Holds(es, recency, i, slots[i]);
      assert i < n - 1 ==> Newer(es, slots[i], slots[n - 1]);
    }
    WithoutFront(recency, n - 1, e.blockNum);
    forall i | 0 <= i < n - 1
      ensures Holds(es, rest, i, others[i])
    {
      assert Holds(es, recency, i, slots[i]);
      assert ([e.blockNum] + rest)[i + 1] == rest[i];
    }
    forall l | 0 <= l < n && l != k
      ensures l in others
    {
      assert es[l].valid;
      assert l in slots;
      assert slots == others + [k];
    }
    slots' := [k] + others;
    FrontTracks(es, now, rest, others, k, e);
  }

  ghost predicate Cached(es: seq<Entry>, b: nat) {
    exists k :: 0 <= k < |es| && es[k].valid && es[k].blockNum == b
  }

  /** A miss puts its block into the first invalid entry, or else into the one with the oldest stamp. */
  lemma {:induction false} InstallTracks(es: seq<Entry>, now: nat, history: seq<nat>, slots: seq<nat>, k: nat, e: Entry)
    returns (slots': seq<nat>)
    requires Tracks(es, now, Recency(history), slots) && k < |es| && e.valid && Find(es, e.blockNum) < 0
    requires now < e.lastUsed
    requires if es[k].valid then forall i :: 0 <= i < |es| ==> es[i].valid && es[k].lastUsed <= es[i].lastUsed
             else forall i :: 0 <= i < k ==> es[i].valid
    ensures Tracks(es[k := e], e.lastUsed, Recency(history + [e.blockNum]), slots')
  {
    hide Tracks, Recency, Without;
    RecencyNext(history, e.blockNum);
    if es[k].valid {
      slots' := EvictTracks(es, now, Recency(history), slots, k, e);
    } else {
      slots' := FillTracks(es, now, Recency(history), slots, k, e);
    }
  }

  /** The blocks with an access after the last one to b. */
  ghost function UsedSince(history: seq<nat>, b: nat): set<nat> {
    set x | x in history && LastAccess(history, x) > LastAccess(history, b)
  }

  /** The position of a block in the order of use is the number of blocks used since. */
  lemma {:induction false} PositionCounts(history: seq<nat>, i: nat)
    requires i < |Recency(history)|
    ensures Recency(history)[i] in history && |UsedSince(history, Recency(history)[i])| == i
  {
    hide Recency, LastAccess;
    var r := Recency(history);
    RecencyMeaning(history);
    assert r[i] in r;
    forall x
      ensures x in UsedSince(history, r[i]) <==> x in r[..i]
    {
      if x in history {
        assert x in r;
        var j :| 0 <= j < |r| && r[j] == x;
        assert j < i ==> r[..i][j] == x;
      }
    }
    DistinctSize(r[..i]);
    assert UsedSince(history, r[i]) == Elements(r[..i]);
  }

  /** A block is cached exactly when it was accessed and fewer than |es| other blocks were accessed since. */
  lemma {:induction false} CachedIffRecent(es: seq<Entry>, now: nat, history: seq<nat>, slots: seq<nat>, b: nat)
    requires Tracks(es, now, Recency(history), slots)
    ensures Cached(es, b) <==> b in history && |UsedSince(history, b)| < |es|
  {
    hide Recency, Without, UsedSince, LastAccess;
    var r := Recency(history);
    RecencyMeaning(history);
    if Cached(es, b) {
      var k :| 0 <= k < |es| && es[k].valid && es[k].blockNum == b;
      var i :| 0 <= i < |slots| && slots[i] == k;
      assert Holds(es, r, i, k);
      PositionCounts(history, i);
    }
    if b in history && |UsedSince(history, b)| < |es| {
      var i :| 0 <= i < |r| && r[i] == b;
      PositionCounts(history, i);
      var k := slots[i];
      assert Holds(es, r, i, k);
      assert 0 <= k < |es| && es[k].valid && es[k].blockNum == b;
    }
  }

  /** Two caches with one history: everything in the smaller is in the larger. */
  lemma {:induction false} LargerCacheContains(small: seq<Entry>, large: seq<Entry>, now: nat, now': nat,
                                               history: seq<nat>, slots: seq<nat>, slots': seq<nat>, b: nat)
    requires |small| <= |large| && Tracks(small, now, Recency(history), slots)
    requires Tracks(large, now', Recency(history), slots')
    requires Cached(small, b)
    ensures Cached(large, b)
  {
    CachedIffRecent(small, now, history, slots, b);
    CachedIffRecent(large, now', history, slots', b);
  }
}
