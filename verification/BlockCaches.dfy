/** The write-back LRU block cache of block_cache.c over a disk whose operations may fail. */
module BlockCaches {
  import opened Utils
  import opened CacheModel

  const CLOCK_RANGE: nat := 0x1_0000_0000
  const OLDEST_START: nat := 0xFFFF_FFFF

  /** A disk of numbered blocks. Out-of-range accesses fail and transfer nothing; the device may also fail
      at any time, after a part of the block, which faults counts, but at most faultLimit times in all, and
      in reads only before the readLimit-th fault. */
  class Disk {
    var blocks: seq<Block>
    var faults: nat
    const faultLimit: nat
    const readLimit: nat

    constructor (blocks: seq<Block>, faultLimit: nat, readLimit: nat)
      ensures this.blocks == blocks && faults == 0 && this.faultLimit == faultLimit && this.readLimit == readLimit
    {
      this.blocks, faults, this.faultLimit, this.readLimit := blocks, 0, faultLimit, readLimit;
    }

    /** The device will not fail any more. */
    ghost predicate Over() reads this { faults >= faultLimit }

    /** Reads will not fail any more. */
    ghost predicate ReadsOver() reads this { faults >= readLimit || Over() }

    /** Faults are only added, and none once they are over. */
    ghost predicate Since(before: nat) reads this { faults >= before && (before >= faultLimit ==> faults == before) }

    /** read_block_from_disk: fills the buffer sector by sector; a failed read has filled a part of it. */
    method Read(b: nat, buffer: Block) returns (ok: bool, data: Block)
      modifies this`faults
      ensures ok ==> b < |blocks| && data == blocks[b] && faults == old(faults)
      ensures old(ReadsOver()) ==> (ok <==> b < |blocks|)
      ensures !ok ==>
                |data| == |buffer| && if b < |blocks| then faults > old(faults) && Mixed(blocks[b], buffer, data)
                                      else data == buffer
      ensures Since(old(faults))
    {
      data := buffer;
      if b >= |blocks| {
        return false, data;
      }
      ok := *;
      if ok || faults >= faultLimit || faults >= readLimit {
        return true, blocks[b];
      }
      faults := faults + 1;
      var k: nat :| k <= |buffer| && k <= |blocks[b]|;
      data := blocks[b][..k] + buffer[k..];
    }

    /** write_block_to_disk: a failed write has written a part of the block. */
    method Write(b: nat, data: Block) returns (ok: bool)
      requires b < |blocks| ==> |data| == |blocks[b]|
      modifies this
      ensures ok ==> b < |old(blocks)| && blocks == old(blocks)[b := data] && faults == old(faults)
      ensures !ok && b >= |old(blocks)| ==> blocks == old(blocks)
      ensures !ok && b < |old(blocks)| ==> faults > old(faults) && b < |blocks| && blocks == old(blocks)[b := blocks[b]]
                                           && Mixed(data, old(blocks)[b], blocks[b])
      ensures Since(old(faults))
    {
      if b >= |blocks| {
        return false;
      }
      ok := *;
      if ok || faults >= faultLimit {
        blocks := blocks[b := data];
        return true;
      }
      faults := faults + 1;
      var before := blocks[b];
      var k: nat :| k <= |data|;
      blocks := blocks[b := data[..k] + before[k..]];
      assert Mixed(data, before, blocks[b]);
      ok := false;
    }
  }

  /** The bytes of target after a part of source was transferred over them. */
  ghost predicate Mixed(source: Block, target: Block, mix: Block) {
    |mix| == |target| && exists k: nat :: k <= |source| && k <= |target| && mix == source[..k] + target[k..]
  }

  /** An entry and what it should be: a failed read can leave other data in an entry, but not in a dirty one. */
  ghost predicate Behind(e: Entry, t: Entry) {
    e == t.(data := e.data) && |e.data| == |t.data| && (t.valid && t.dirty ==> e.data == t.data)
  }

  /** For example a read of block 1, holding [2, 2], that fails after one byte when its victim holds [1, 1] for block 0. */
  lemma {:induction false} SpoiltEntry(disk: seq<Block>, t: Entry, e: Entry)
    requires disk == [[1, 1], [2, 2]] && t == Entry(0, [1, 1], 1, false, true) && e == t.(data := [2, 1])
    ensures Coherent([t], disk, 2) && Mixed(disk[1], t.data, e.data) && Behind(e, t)
    ensures View([t], disk, 0) == Some([1, 1]) && View([e], disk, 0) == Some([2, 1])
  {
    assert disk[1][..1] + t.data[1..] == [2, 1];
  }

  /** The data of the entries is as before, but for entries over which a part of block b was put. */
  ghost predicate DataOrPart(before: seq<Entry>, now: seq<Entry>, disk: seq<Block>, b: nat) {
    |now| == |before|
    && forall i :: 0 <= i < |now| ==> now[i].data == before[i].data || (b < |disk| && Mixed(disk[b], before[i].data, now[i].data))
  }

  class BlockCache {
    const disk: Disk
    const blockSize: nat
    const entries: array<Entry>
    var timestamp: nat  // 32-bit clock
    var hits: nat
    var misses: nat
    ghost var intended: seq<Entry>  // the entries, had no read failed
    ghost var history: seq<nat>     // blocks of the successful accesses, latest last
    ghost var slots: seq<nat>       // valid entries by falling time of use

    ghost predicate Valid()
      reads this, entries, disk
    {
      && Coherent(intended, disk.blocks, blockSize)
      && |intended| == entries.Length && (forall i :: 0 <= i < entries.Length ==> Behind(entries[i], intended[i]))
      && timestamp < CLOCK_RANGE
    }

    /** No entry in use was spoilt by a failed read. */
    ghost predicate Intact()
      reads this, entries
    {
      |intended| == entries.Length && forall i :: 0 <= i < entries.Length && intended[i].valid ==>
          entries[i] == intended[i]
    }

    /** The block map that the cache stands for. */
    ghost function Sees(b: nat): Option<Block>
      reads this, disk
    {
      View(intended, disk.blocks, b)
    }

    /** The entries are exactly the most recently used blocks, in order. */
    ghost predicate TrueLru()
      reads this
    {
      Tracks(intended, timestamp, Recency(history), slots)
    }

    /** Fit for use: entries to evict exist, can be written back and carry true stamps. */
    ghost predicate Ready()
      reads this, disk
    {
      intended != [] && TrueLru() && InRange()
    }

    ghost predicate InRange()
      reads this, disk
    {
      forall i :: 0 <= i < |intended| && intended[i].valid ==> intended[i].blockNum < |disk.blocks|
    }

    /** block_cache_init: every entry starts invalid. */
    constructor (disk: Disk, blockSize: nat, numEntries: nat)
      requires forall b :: 0 <= b < |disk.blocks| ==> |disk.blocks[b]| == blockSize
      ensures Valid() && Intact() && TrueLru() && (numEntries > 0 ==> Ready()) && this.disk == disk
      ensures this.blockSize == blockSize
      ensures fresh(entries) && entries.Length == numEntries && history == [] && timestamp == 0
      ensures forall b: nat :: Sees(b) == if b < |disk.blocks| then Some(disk.blocks[b]) else None
    {
      this.disk, this.blockSize := disk, blockSize;
      timestamp, hits, misses := 0, 0, 0;
      history, slots := [], [];
      entries := new Entry[numEntries](_ => Entry(0, [], 0, false, false));
      new;
      intended := entries[..];
    }

    /** find_lru_entry: the first invalid entry, else one with the oldest stamp, or -1. */
    method FindLru() returns (k: int)
      ensures -1 <= k < entries.Length
      ensures k < 0 ==> forall i :: 0 <= i < entries.Length ==> entries[i].valid && entries[i].lastUsed >= 0xFFFF_FFFF
      ensures 0 <= k && !entries[k].valid ==> forall i :: 0 <= i < k ==> entries[i].valid
      ensures 0 <= k && entries[k].valid ==>
                forall i :: 0 <= i < entries.Length ==> entries[i].valid && entries[k].lastUsed <= entries[i].lastUsed
    {
      k := -1;
      var oldest := OLDEST_START;
      var i := 0;
      while i < entries.Length
        invariant 0 <= i <= entries.Length && -1 <= k < i
        invariant forall j :: 0 <= j < i ==> entries[j].valid && oldest <= entries[j].lastUsed
        invariant k < 0 ==> oldest == OLDEST_START
        invariant 0 <= k ==> entries[k].lastUsed == oldest
      {
        if !entries[i].valid {
          return i;
        }
        if entries[i].lastUsed < oldest {
          oldest, k := entries[i].lastUsed, i;
        }
        i := i + 1;
      }
    }

    /** The search loop shared by read and write. */
    method Search(b: nat) returns (k: int)
      requires Valid()
      ensures k == Find(intended, b)
    {
      k := 0;
      while k < entries.Length
        invariant 0 <= k <= entries.Length
        invariant forall j :: 0 <= j < k ==> !(intended[j].valid && intended[j].blockNum == b)
      {
        assert Behind(entries[k], intended[k]);
        if entries[k].valid && entries[k].blockNum == b {
          return;
        }
        k := k + 1;
      }
      k := -1;
    }

    /** The entry that may be replaced: the first invalid one, or a valid one that is clean and the oldest. */
    ghost predicate Replaceable(k: int)
      reads this
    {
      && 0 <= k < |intended|
      && if intended[k].valid then !intended[k].dirty && forall i :: 0 <= i < |intended| ==>
             intended[i].valid && intended[k].lastUsed <= intended[i].lastUsed
         else forall i :: 0 <= i < k ==> intended[i].valid
    }

    /** Takes a victim and writes it back when dirty; its entry may then be replaced. None when no
        entry can be taken or the write fails. Only the device can make the write fail. */
    method TakeVictim() returns (k: int)
      requires Valid()
      modifies entries, disk, this`intended
      ensures Valid() && -1 <= k && (0 <= k ==> Replaceable(k)) && (old(Intact()) ==> Intact())
      ensures forall b: nat :: Sees(b) == old(Sees(b)) && Find(intended, b) == old(Find(intended, b))
      ensures disk.Since(old(disk.faults)) && |disk.blocks| == |old(disk.blocks)|
      ensures k < 0 && old(Ready()) && timestamp < OLDEST_START ==> disk.faults > old(disk.faults)
      ensures |intended| == |old(intended)| && forall i :: 0 <= i < |intended| ==>
                  intended[i] == old(intended)[i].(dirty := intended[i].dirty)
      ensures forall i :: 0 <= i < entries.Length ==> entries[i].data == old(entries[i].data)
    {
      k := FindLru();
      assert forall i :: 0 <= i < entries.Length ==> Behind(entries[i], intended[i]);
      if k < 0 && Ready() {
        assert intended[0].valid && intended[0].lastUsed <= timestamp;
      }
      if 0 <= k && entries[k].valid && entries[k].dirty {
        ghost var before := disk.blocks;
        var ok := disk.Write(entries[k].blockNum, entries[k].data);
        if entries[k].blockNum < |before| {
          WriteBack(intended, before, blockSize, k, disk.blocks[entries[k].blockNum]);
        }
        if !ok {
          return -1;
        }
        CleanEntry(k);
      }
    }

    /** Marks an entry clean whose block was just written. */
    method CleanEntry(k: nat)
      requires Valid() && k < entries.Length && entries[k].valid && entries[k].dirty
      requires entries[k].blockNum < |disk.blocks| && disk.blocks[entries[k].blockNum] == entries[k].data
      modifies entries, this`intended
      ensures Valid() && (old(Intact()) ==> Intact())
      ensures forall b: nat :: Sees(b) == old(Sees(b)) && Find(intended, b) == old(Find(intended, b))
      ensures intended == old(intended)[k := old(intended)[k].(dirty := false)]
      ensures forall i :: 0 <= i < entries.Length ==>
                  entries[i] == if i == k then old(entries[k]).(dirty := false) else old(entries[i])
    {
      assert Behind(entries[k], intended[k]);
      MarkClean(intended, disk.blocks, blockSize, k);
      entries[k] := entries[k].(dirty := false);
      intended := intended[k := intended[k].(dirty := false)];
    }

    /** Puts block b into the entry of a victim; tracked says that the order of use is known at now. */
    method Install(k: nat, b: nat, data: Block, dirty: bool, ghost now: nat, ghost tracked: bool)
      requires Valid() && Replaceable(k) && |data| == blockSize && Find(intended, b) < 0
      requires !dirty ==> b < |disk.blocks| && disk.blocks[b] == data
      requires tracked ==> now < timestamp && Tracks(intended, now, Recency(history), slots)
      modifies entries, this`intended, this`slots, this`history
      ensures Valid() && history == old(history) + [b] && (tracked ==> TrueLru()) && (old(Intact()) ==> Intact())
      ensures forall c: nat :: Sees(c) == if c == b then Some(data) else old(Sees(c))
      ensures |intended| == |old(intended)| && forall i :: 0 <= i < |intended| && i != k ==>
                  intended[i] == old(intended)[i]
      ensures intended[k].blockNum == b
    {
      hide Tracks, Coherent;
      var e := Entry(b, data, timestamp, dirty, true);
      Replace(intended, disk.blocks, blockSize, k, b, data, timestamp, dirty);
      if tracked {
        slots := InstallTracks(intended, now, history, slots, k, e);
      }
      history := history + [b];
      entries[k] := e;
      intended := intended[k := e];
    }

    /** Records a use of the cached block in entry k; a write puts data into it. */
    method Touch(k: nat, write: bool, data: Block, ghost now: nat, ghost tracked: bool)
      requires Valid() && k < entries.Length && intended[k].valid && (write ==> |data| == blockSize)
      requires tracked ==> now < timestamp && Tracks(intended, now, Recency(history), slots)
      modifies entries, this`intended, this`slots, this`history
      ensures Valid() && history == old(history) + [intended[k].blockNum] && (tracked ==> TrueLru())
      ensures (old(Intact()) ==> Intact())
      ensures forall c: nat :: Sees(c) == if write && c == intended[k].blockNum then Some(data) else old(Sees(c))
      ensures |intended| == |old(intended)| && entries[k].data == if write then data else old(entries[k].data)
      ensures forall i :: 0 <= i < |intended| ==>
                  intended[i].blockNum == old(intended)[i].blockNum && intended[i].valid == old(intended)[i].valid
    {
      hide Tracks, Coherent, Recency, Without;
      assert Behind(entries[k], intended[k]);
      Sizes(intended, disk.blocks, blockSize);
      RecencyNext(history, intended[k].blockNum);
      ghost var e := if write then intended[k].(data := data, lastUsed := timestamp, dirty := true)
                     else intended[k].(lastUsed := timestamp);
      TouchedView(intended, disk.blocks, blockSize, k, e);
      if tracked {
        slots := HitTracks(intended, now, Recency(history), slots, k, e);
      }
      history := history + [e.blockNum];
      entries[k] := if write then entries[k].(data := data, lastUsed := timestamp, dirty := true)
                    else entries[k].(lastUsed := timestamp);
      intended := intended[k := e];
    }

    /** The order of use as it was known at an earlier time of the clock. */
    ghost predicate TrackedAt(now: nat)
      reads this
    {
      now < timestamp && Tracks(intended, now, Recency(history), slots)
    }

    /** A victim taken on a miss; the order of use survives. */
    method MakeRoom(b: nat, ghost now: nat) returns (k: int)
      requires Valid() && Find(intended, b) < 0
      modifies entries, disk, this`intended
      ensures Valid() && -1 <= k && Find(intended, b) < 0 && (0 <= k ==> Replaceable(k)) && (old(Intact()) ==> Intact())
      ensures forall c: nat :: Sees(c) == old(Sees(c))
      ensures old(TrackedAt(now)) ==> TrackedAt(now) && TrueLru()
      ensures old(InRange()) ==> InRange()
      ensures old(TrackedAt(now)) && old(InRange()) ==>
                (k < 0 && intended != [] && timestamp < OLDEST_START ==> disk.faults > old(disk.faults))
      ensures disk.Since(old(disk.faults)) && |disk.blocks| == |old(disk.blocks)| && |intended| == |old(intended)|
      ensures |entries[..]| == |old(entries[..])| && forall i :: 0 <= i < entries.Length ==>
                  entries[i].data == old(entries[..])[i].data
    {
      ghost var es := intended;
      if TrackedAt(now) {
        StillTracks(es, es, now, timestamp, Recency(history), slots);
      }
      k := TakeVictim();
      if old(TrackedAt(now)) {
        StillTracks(es, intended, now, now, Recency(history), slots);
        StillTracks(es, intended, now, timestamp, Recency(history), slots);
      }
    }

    /** Reads a block into the data of the victim's entry, which stays in use under its old number when the
        read fails: it is spoilt exactly when it was in use and the part transferred differs from it. */
    method Fetch(victim: nat, b: nat) returns (ok: bool, data: Block)
      requires Valid() && Replaceable(victim)
      modifies entries, disk`faults
      ensures Valid() && disk.Since(old(disk.faults))
      ensures (old(Intact()) && (ok || disk.faults == old(disk.faults)) ==> Intact())
      ensures old(Intact() && disk.ReadsOver()) ==> Intact()
      ensures ok ==> b < |disk.blocks| && data == disk.blocks[b]
      ensures !ok && old(Intact()) ==> (Intact() <==> !intended[victim].valid || data == intended[victim].data)
      ensures !ok ==>
                (b < |disk.blocks| ==> disk.faults > old(disk.faults)) && DataOrPart(old(entries[..]), entries[..], disk.blocks, b)
    {
      hide Coherent, Mixed;
      assert Behind(entries[victim], intended[victim]);
      ok, data := disk.Read(b, entries[victim].data);
      if !ok {
        entries[victim] := entries[victim].(data := data);
      }
    }

    /** The miss path of block_cache_read. */
    method ReadMiss(b: nat, ghost now: nat) returns (r: int, buffer: Block)
      requires Valid() && Find(intended, b) < 0
      modifies entries, disk, this`intended, this`slots, this`history
      ensures Valid() && (r == 0 || r == -1) && |intended| == |old(intended)|
      ensures forall c: nat :: Sees(c) == old(Sees(c))
      ensures r == 0 ==> Sees(b) == Some(buffer) && |buffer| == blockSize
      ensures history == if r == 0 then old(history) + [b] else old(history)
      ensures old(TrackedAt(now)) ==> TrueLru()
      ensures old(InRange()) ==> InRange()
      ensures old(TrackedAt(now)) && old(InRange()) ==>
                (r == -1 && intended != [] && timestamp < OLDEST_START ==>
                    disk.faults > old(disk.faults) || b >= |disk.blocks|)
      ensures |disk.blocks| == |old(disk.blocks)| && disk.Since(old(disk.faults))
      ensures old(Intact()) && (r == 0 || disk.faults == old(disk.faults)) ==> Intact()
      ensures old(Intact() && disk.ReadsOver()) ==> Intact()
      ensures r == -1 ==> DataOrPart(old(entries[..]), entries[..], disk.blocks, b)
    {
      hide Tracks, Coherent, Mixed, Recency, Without, Find;
      ghost var tracked := TrackedAt(now);
      var victim := MakeRoom(b, now);
      if victim < 0 {
        return -1, [];
      }
      Sizes(intended, disk.blocks, blockSize);
      var ok, data := Fetch(victim, b);
      if !ok {
        return -1, [];
      }
      Uncached(intended, disk.blocks, b);
      Install(victim, b, data, false, now, tracked);
      return 0, data;
    }

    /** The hit path of block_cache_read. */
    method ReadHit(k: nat, b: nat, ghost now: nat, ghost tracked: bool) returns (buffer: Block)
      requires Valid() && k < |intended| && k == Find(intended, b)
      requires tracked ==> now < timestamp && Tracks(intended, now, Recency(history), slots)
      modifies entries, this`intended, this`slots, this`history
      ensures Valid() && history == old(history) + [b] && (tracked ==> TrueLru()) && (old(Intact()) ==> Intact())
      ensures forall c: nat :: Sees(c) == old(Sees(c))
      ensures |buffer| == blockSize && Sees(b).Some? && (old(Intact()) ==> Sees(b) == Some(buffer))
      ensures |intended| == |old(intended)|
      ensures forall i :: 0 <= i < |intended| ==>
                  intended[i].blockNum == old(intended)[i].blockNum && intended[i].valid == old(intended)[i].valid
    {
      hide Tracks, Coherent;
      assert Behind(entries[k], intended[k]);
      Sizes(intended, disk.blocks, blockSize);
      Touch(k, false, [], now, tracked);
      buffer := entries[k].data;
    }

    /** block_cache_read. */
    method Read(b: nat) returns (r: int, buffer: Block)
      requires Valid()
      modifies this, entries, disk
      ensures Valid() && (r == 0 || r == -1) && |intended| == |old(intended)|
      ensures forall c: nat :: Sees(c) == old(Sees(c))
      ensures r == 0 ==>
                |buffer| == blockSize && Sees(b).Some? && (old(Intact()) ==>
                    Sees(b) == Some(buffer)) && history == old(history) + [b]
      ensures r != 0 ==> history == old(history)
      ensures timestamp == (old(timestamp) + 1) % 0x1_0000_0000
      ensures old(TrueLru()) && old(timestamp) + 1 < 0x1_0000_0000 ==> TrueLru()
      ensures old(InRange()) ==> InRange()
      ensures old(Ready()) && old(timestamp) + 1 < 0xFFFF_FFFF ==>
                Ready() && (r == -1 ==> disk.faults > old(disk.faults) || b >= |disk.blocks|)
      ensures |disk.blocks| == |old(disk.blocks)| && disk.Since(old(disk.faults))
      ensures old(Intact()) && (r == 0 || disk.faults == old(disk.faults)) ==> Intact()
      ensures old(Intact() && disk.ReadsOver()) ==> Intact()
      ensures r == -1 ==> DataOrPart(old(entries[..]), entries[..], disk.blocks, b)
    {
      hide Tracks, Coherent, DataOrPart, View;
      ghost var now := timestamp;
      timestamp := (timestamp + 1) % CLOCK_RANGE;
      ghost var tracked := TrackedAt(now);
      assert tracked <==> old(TrueLru()) && now + 1 < CLOCK_RANGE;
      var k := Search(b);
      if 0 <= k {
        hits := (hits + 1) % CLOCK_RANGE;
        buffer := ReadHit(k, b, now, tracked);
        return 0, buffer;
      }
      misses := (misses + 1) % CLOCK_RANGE;
      r, buffer := ReadMiss(b, now);
    }

    /** The miss path of block_cache_write. */
    method WriteMiss(b: nat, buffer: Block, ghost now: nat) returns (r: int)
      requires Valid() && Find(intended, b) < 0 && |buffer| == blockSize
      modifies entries, disk, this`intended, this`slots, this`history
      ensures Valid() && (r == 0 || r == -1) && |intended| == |old(intended)| && (old(Intact()) ==> Intact())
      ensures forall c: nat :: Sees(c) == if r == 0 && c == b then Some(buffer) else old(Sees(c))
      ensures history == if r == 0 then old(history) + [b] else old(history)
      ensures old(TrackedAt(now)) ==> TrueLru()
      ensures old(InRange()) && b < |disk.blocks| ==> InRange()
      ensures old(TrackedAt(now)) && old(InRange()) && b < |disk.blocks| ==>
                (r == -1 && intended != [] && timestamp < OLDEST_START ==> disk.faults > old(disk.faults))
      ensures |disk.blocks| == |old(disk.blocks)| && disk.Since(old(disk.faults))
    {
      ghost var tracked := TrackedAt(now);
      var victim := MakeRoom(b, now);
      if victim < 0 {
        return -1;
      }
      Install(victim, b, buffer, true, now, tracked);
      return 0;
    }

    /** block_cache_write of a whole block. */
    method Write(b: nat, buffer: Block) returns (r: int)
      requires Valid() && |buffer| == blockSize
      modifies this, entries, disk
      ensures Valid() && (r == 0 || r == -1) && |intended| == |old(intended)| && (old(Intact()) ==> Intact())
      ensures forall c: nat :: Sees(c) == if r == 0 && c == b then Some(buffer) else old(Sees(c))
      ensures history == if r == 0 then old(history) + [b] else old(history)
      ensures timestamp == (old(timestamp) + 1) % 0x1_0000_0000
      ensures old(TrueLru()) && old(timestamp) + 1 < 0x1_0000_0000 ==> TrueLru()
      ensures old(InRange()) && b < |disk.blocks| ==> InRange()
      ensures old(Ready()) && old(timestamp) + 1 < 0xFFFF_FFFF && b < |disk.blocks| ==>
                Ready() && (r == -1 ==> disk.faults > old(disk.faults))
      ensures |disk.blocks| == |old(disk.blocks)| && disk.Since(old(disk.faults))
    {
      hide Tracks, Coherent, Mixed;
      ghost var now := timestamp;
      timestamp := (timestamp + 1) % CLOCK_RANGE;
      ghost var tracked := TrackedAt(now);
      assert tracked <==> old(TrueLru()) && now + 1 < CLOCK_RANGE;
      var k := Search(b);
      if 0 <= k {
        Touch(k, true, buffer, now, tracked);
        return 0;
      }
      r := WriteMiss(b, buffer, now);
    }

    /** block_cache_flush: on success the disk holds what the cache stands for. */
    method Flush() returns (r: int)
      requires Valid()
      modifies entries, disk, this`intended
      ensures Valid() && (r == 0 || r == -1) && (old(Intact()) ==> Intact())
      ensures forall c: nat :: Sees(c) == old(Sees(c))
      ensures r == 0 ==> forall c: nat :: Sees(c) == if c < |disk.blocks| then Some(disk.blocks[c]) else None
      ensures old(TrueLru()) ==> TrueLru()
      ensures old(InRange()) ==> InRange() && (r == -1 ==> disk.faults > old(disk.faults))
      ensures |disk.blocks| == |old(disk.blocks)| && disk.Since(old(disk.faults))
    {
      hide Tracks, Coherent;
      ghost var es := intended;
      r := 0;
      var i := 0;
      while i < entries.Length && r == 0
        invariant 0 <= i <= entries.Length && Valid() && (old(Intact()) ==> Intact()) && (r == 0 || r == -1)
        invariant forall c: nat :: Sees(c) == old(Sees(c))
        invariant |intended| == |es| && forall j :: 0 <= j < |es| ==> intended[j] == es[j].(dirty := intended[j].dirty)
        invariant forall j :: 0 <= j < i && intended[j].valid ==> !intended[j].dirty
        invariant r == -1 && old(InRange()) ==> disk.faults > old(disk.faults)
        invariant |disk.blocks| == |old(disk.blocks)| && disk.Since(old(disk.faults))
        decreases entries.Length - i, if r == 0 then 1 else 0
      {
        assert Behind(entries[i], intended[i]);
        if entries[i].valid && entries[i].dirty {
          r := FlushEntry(i);
        }
        if r == 0 {
          i := i + 1;
        }
      }
      if TrueLruWas(es) {
        StillTracks(es, intended, timestamp, timestamp, Recency(history), slots);
      }
      if r == 0 {
        AllClean(intended, disk.blocks, blockSize);
      }
    }

    ghost predicate TrueLruWas(es: seq<Entry>)
      reads this
    {
      Tracks(es, timestamp, Recency(history), slots)
    }

    /** Writes one dirty entry back. */
    method FlushEntry(k: nat) returns (r: int)
      requires Valid() && k < entries.Length && entries[k].valid && entries[k].dirty
      modifies entries, disk, this`intended
      ensures Valid() && (r == 0 || r == -1) && (old(Intact()) ==> Intact())
      ensures forall c: nat :: Sees(c) == old(Sees(c))
      ensures intended == if r == 0 then old(intended)[k := old(intended)[k].(dirty := false)] else old(intended)
      ensures r == -1 && old(intended)[k].blockNum < |disk.blocks| ==> disk.faults > old(disk.faults)
      ensures |disk.blocks| == |old(disk.blocks)| && disk.Since(old(disk.faults))
    {
      ghost var before := disk.blocks;
      assert Behind(entries[k], intended[k]);
      var ok := disk.Write(entries[k].blockNum, entries[k].data);
      if entries[k].blockNum < |before| {
        WriteBack(intended, before, blockSize, k, disk.blocks[entries[k].blockNum]);
      }
      if !ok {
        return -1;
      }
      CleanEntry(k);
      r := 0;
    }
  }
}
