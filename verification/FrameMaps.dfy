/** The physical frame allocator of map.c: a bitmap whose chunks are created lazily. */
module FrameMaps {
  import opened Utils

  const FRAME_SIZE: nat := 4096
  const FRAMES_PER_CHUNK: nat := 256  // a chunk describes 1 MiB
  const CHUNK_WORDS: nat := 8

  /** A 32-bit bitmap word, lowest bit first; true marks a used frame. */
  type BitmapWord = w: seq<bool> | |w| == 32 witness seq(32, _ => false)

  const EMPTY_WORD: BitmapWord := seq(32, _ => false)
  const FULL_WORD: BitmapWord := seq(32, _ => true)

  datatype Chunk = Chunk(idx: nat, words: seq<BitmapWord>)

  /** The words of the first chunk in the list with the given index. */
  function Lookup(chunks: seq<Chunk>, idx: nat): Option<seq<BitmapWord>>
  {
    if chunks == [] then None
    else if chunks[0].idx == idx then Some(chunks[0].words)
    else Lookup(chunks[1..], idx)
  }

  ghost predicate ValidChunks(chunks: seq<Chunk>) {
    forall c :: c in chunks ==> |c.words| == CHUNK_WORDS
  }

  lemma {:induction false} LookupValid(chunks: seq<Chunk>, idx: nat)
    requires ValidChunks(chunks)
    ensures Lookup(chunks, idx).Some? ==> |Lookup(chunks, idx).value| == CHUNK_WORDS
  {
    if chunks != [] && chunks[0].idx != idx {
      LookupValid(chunks[1..], idx);
    }
  }

  /** Is the frame with index i (from the first managed frame) marked? A missing chunk is all free. */
  ghost predicate Marked(chunks: seq<Chunk>, i: nat)
    requires ValidChunks(chunks)
  {
    LookupValid(chunks, i / FRAMES_PER_CHUNK);
    match Lookup(chunks, i / FRAMES_PER_CHUNK)
    case None => false
    case Some(words) => words[i % FRAMES_PER_CHUNK / 32][i % FRAMES_PER_CHUNK % 32]
  }

  lemma {:induction false} LookupAt(chunks: seq<Chunk>, k: nat)
    requires k < |chunks|
    requires forall j :: 0 <= j < k ==> chunks[j].idx != chunks[k].idx
    ensures Lookup(chunks, chunks[k].idx) == Some(chunks[k].words)
  {
    if k > 0 {
      LookupAt(chunks[1..], k - 1);
    }
  }

  lemma {:induction false} LookupMissing(chunks: seq<Chunk>, idx: nat)
    requires forall j :: 0 <= j < |chunks| ==> chunks[j].idx != idx
    ensures Lookup(chunks, idx) == None
  {
    if chunks != [] {
      LookupMissing(chunks[1..], idx);
    }
  }

  lemma {:induction false} LookupOther(chunks: seq<Chunk>, k: nat, words: seq<BitmapWord>, idx: nat)
    requires k < |chunks| && chunks[k].idx != idx
    ensures Lookup(chunks[k := chunks[k].(words := words)], idx) == Lookup(chunks, idx)
  {
    var updated := chunks[k := chunks[k].(words := words)];
    if k > 0 && chunks[0].idx != idx {
      assert updated[1..] == chunks[1..][k - 1 := chunks[k].(words := words)];
      LookupOther(chunks[1..], k - 1, words, idx);
    }
  }

  /** chunk_set and chunk_clear on the k-th chunk of the list. */
  function WithMark(chunks: seq<Chunk>, k: nat, local: nat, mark: bool): seq<Chunk>
    requires ValidChunks(chunks) && k < |chunks| && local < FRAMES_PER_CHUNK
  {
    var words := chunks[k].words;
    chunks[k := chunks[k].(words := words[local / 32 := words[local / 32][local % 32 := mark]])]
  }

  /** Setting or clearing one bit of the chunk in use changes the mark of that frame only. */
  lemma {:induction false} MarkOne(chunks: seq<Chunk>, k: nat, local: nat, mark: bool)
    requires ValidChunks(chunks) && k < |chunks| && local < FRAMES_PER_CHUNK
    requires forall j :: 0 <= j < k ==> chunks[j].idx != chunks[k].idx
    ensures ValidChunks(WithMark(chunks, k, local, mark))
    ensures forall i: nat :: Marked(WithMark(chunks, k, local, mark), i)
              == if i == chunks[k].idx * FRAMES_PER_CHUNK + local then mark else Marked(chunks, i)
  {
    var updated := WithMark(chunks, k, local, mark);
    LookupAt(chunks, k);
    LookupAt(updated, k);
    forall i: nat
      ensures Marked(updated, i) == if i == chunks[k].idx * FRAMES_PER_CHUNK + local then mark else Marked(chunks, i)
    {
      if i / FRAMES_PER_CHUNK != chunks[k].idx {
        LookupOther(chunks, k, updated[k].words, i / FRAMES_PER_CHUNK);
      }
    }
  }

  lemma {:induction false} MarkedAt(chunks: seq<Chunk>, k: nat, local: nat)
    requires ValidChunks(chunks) && k < |chunks| && local < FRAMES_PER_CHUNK
    requires forall j :: 0 <= j < k ==> chunks[j].idx != chunks[k].idx
    ensures Marked(chunks, chunks[k].idx * FRAMES_PER_CHUNK + local) == chunks[k].words[local / 32][local % 32]
  {
    LookupAt(chunks, k);
    var i := chunks[k].idx * FRAMES_PER_CHUNK + local;
    assert i / FRAMES_PER_CHUNK == chunks[k].idx && i % FRAMES_PER_CHUNK == local;
  }

  /** When the low bits of a chunk are set, the frames they describe are marked. */
  lemma {:induction false} LowBitsMarked(chunks: seq<Chunk>, k: nat, bits: nat)
    requires ValidChunks(chunks) && k < |chunks| && bits <= FRAMES_PER_CHUNK
    requires forall j :: 0 <= j < k ==> chunks[j].idx != chunks[k].idx
    requires forall c: nat :: c < bits ==> chunks[k].words[c / 32][c % 32]
    ensures forall i: nat :: chunks[k].idx * FRAMES_PER_CHUNK <= i < chunks[k].idx * FRAMES_PER_CHUNK + bits ==>
                Marked(chunks, i)
  {
    forall i: nat | chunks[k].idx * FRAMES_PER_CHUNK <= i < chunks[k].idx * FRAMES_PER_CHUNK + bits
      ensures Marked(chunks, i)
    {
      MarkedAt(chunks, k, i - chunks[k].idx * FRAMES_PER_CHUNK);
    }
  }

  /** The scan inside alloc_frame: the lowest clear bit of a chunk, or FRAMES_PER_CHUNK. */
  method FirstClear(words: seq<BitmapWord>) returns (bit: nat)
    requires |words| == CHUNK_WORDS
    ensures bit <= FRAMES_PER_CHUNK
    ensures forall c: nat :: c < bit ==> words[c / 32][c % 32]
    ensures bit < FRAMES_PER_CHUNK ==> !words[bit / 32][bit % 32]
  {
    var w := 0;
    while w < CHUNK_WORDS
      invariant 0 <= w <= CHUNK_WORDS
      invariant forall c: nat :: c < w * 32 ==> words[c / 32][c % 32]
    {
      if words[w] != FULL_WORD {
        var b := 0;
        while b < 32
          invariant 0 <= b <= 32
          invariant forall c: nat :: c < b ==> words[w][c]
        {
          if !words[w][b] {
            return w * 32 + b;
          }
          b := b + 1;
        }
      }
      w := w + 1;
    }
    return FRAMES_PER_CHUNK;
  }

  lemma {:induction false} MarkFresh(chunks: seq<Chunk>, idx: nat, words: seq<BitmapWord>)
    requires ValidChunks(chunks) && Lookup(chunks, idx) == None
    requires words == seq(CHUNK_WORDS, _ => EMPTY_WORD)
    ensures ValidChunks([Chunk(idx, words)] + chunks)
    ensures forall i: nat :: Marked([Chunk(idx, words)] + chunks, i) == Marked(chunks, i)
  {
    var updated := [Chunk(idx, words)] + chunks;
    assert updated[1..] == chunks;
    forall i: nat
      ensures Marked(updated, i) == Marked(chunks, i)
    {

    }
  }

  class FrameMap {
    var startFrame: nat
    var frames: nat
    var chunks: seq<Chunk>  // the linked list of chunks, head first

    ghost predicate Valid()
      reads this
    {
      ValidChunks(chunks)
    }

    ghost predicate Managed(f: nat)
      reads this
    {
      startFrame <= f < startFrame + frames
    }

    /** The abstract value: the set of free frame numbers. */
    ghost function Free(): (free: set<nat>)
      reads this
      requires Valid()
    {
      set f: nat | startFrame <= f < startFrame + frames && IsFree(f)
    }

    ghost predicate IsFree(f: nat)
      reads this
      requires Valid()
    {
      Managed(f) && !Marked(chunks, f - startFrame)
    }

    constructor ()
      ensures Valid() && frames == 0
    {
      startFrame, frames, chunks := 0, 0, [];
    }

    /** memmap_init: an empty or inverted range changes nothing. */
    method Init(start: nat, end: nat)
      requires Valid() && end + FRAME_SIZE <= 0x1_0000_0000_0000_0000
      modifies this
      ensures Valid()
      ensures end <= start ==> unchanged(this)
      ensures start < end ==>
                forall f: nat :: f in Free() <==> Managed(f)
      ensures start < end ==>
                forall f: nat :: Managed(f) <==> f * 0x1000 < end && start < (f + 1) * 0x1000
    {
      var first := start / FRAME_SIZE;
      var last := (end + FRAME_SIZE - 1) / FRAME_SIZE;
      if end <= start {
        return;
      }
      startFrame, frames := first, last - first;
      chunks := [];
    }

    /** find_chunk: position in the list, or -1. */
    method FindChunk(idx: nat) returns (k: int)
      requires Valid()
      ensures -1 <= k < |chunks|
      ensures k < 0 ==> Lookup(chunks, idx) == None
      ensures 0 <= k ==> chunks[k].idx == idx && forall j :: 0 <= j < k ==> chunks[j].idx != idx
    {
      k := 0;
      while k < |chunks|
        invariant 0 <= k <= |chunks|
        invariant forall j :: 0 <= j < k ==> chunks[j].idx != idx
      {
        if chunks[k].idx == idx {
          return;
        }
        k := k + 1;
      }
      LookupMissing(chunks, idx);
      k := -1;
    }

    /** create_chunk: an all-free chunk at the head of the list (its two allocations succeed). */
    method CreateChunk(idx: nat)
      requires Valid() && Lookup(chunks, idx) == None
      modifies this`chunks
      ensures Valid() && chunks != [] && chunks[0].idx == idx
      ensures forall i: nat :: Marked(chunks, i) == old(Marked(chunks, i))
    {
      var words := seq(CHUNK_WORDS, _ => EMPTY_WORD);
      MarkFresh(chunks, idx, words);
      chunks := [Chunk(idx, words)] + chunks;
    }

    method FindOrCreateChunk(idx: nat) returns (k: nat)
      requires Valid()
      modifies this`chunks
      ensures Valid() && k < |chunks| && chunks[k].idx == idx
      ensures forall j :: 0 <= j < k ==> chunks[j].idx != idx
      ensures forall i: nat :: Marked(chunks, i) == old(Marked(chunks, i))
    {
      var found := FindChunk(idx);
      if found < 0 {
        CreateChunk(idx);
        k := 0;
      } else {
        k := found;
      }
    }

    /** chunk_set and chunk_clear. */
    method WriteMark(k: nat, local: nat, mark: bool)
      requires Valid() && k < |chunks| && local < FRAMES_PER_CHUNK
      requires forall j :: 0 <= j < k ==> chunks[j].idx != chunks[k].idx
      modifies this`chunks
      ensures Valid() && k < |chunks| && forall j :: 0 <= j <= k ==> chunks[j].idx == old(chunks[j].idx)
      ensures forall i: nat :: Marked(chunks, i)
                == if i == old(chunks[k].idx) * FRAMES_PER_CHUNK + local then mark else old(Marked(chunks, i))
    {
      MarkOne(chunks, k, local, mark);
      chunks := WithMark(chunks, k, local, mark);
    }

    /** alloc_frame: the byte address of the lowest free frame, or 0 (NULL) when there is none.
        When frame 0 is managed its address cannot be told from NULL. */
    method AllocFrame() returns (addr: nat)
      requires Valid()
      modifies this`chunks
      ensures Valid()
      ensures old(Free()) == {} ==> addr == 0 && Free() == {}
      ensures old(Free()) != {} ==>
                addr % 0x1000 == 0
                && addr / 0x1000 in old(Free())
                && (forall f :: f in old(Free()) ==> addr / 0x1000 <= f)
                && Free() == old(Free()) - {addr / 0x1000}
    {
      hide Marked, Lookup;
      if frames == 0 {
        return 0;
      }
      var maxChunk := (frames + FRAMES_PER_CHUNK - 1) / FRAMES_PER_CHUNK;
      var chi := 0;
      while chi < maxChunk
        invariant Valid() && chi <= maxChunk
        invariant forall i: nat :: Marked(chunks, i) == old(Marked(chunks, i))
        invariant forall i: nat :: i < chi * FRAMES_PER_CHUNK ==> Marked(chunks, i)
      {
        var k := FindOrCreateChunk(chi);
        var bit := FirstClear(chunks[k].words);
        LowBitsMarked(chunks, k, bit);
        if bit < FRAMES_PER_CHUNK {
          MarkedAt(chunks, k, bit);
          var frame := startFrame + chi * FRAMES_PER_CHUNK + bit;
          WriteMark(k, bit, true);
          if frame >= startFrame + frames {
            // beyond the managed range: put the bit back
            WriteMark(k, bit, false);
            assert Free() == {};
            return 0;
          }
          assert frame in old(Free());
          return frame * FRAME_SIZE;
        }
        chi := chi + 1;
      }
      return 0;
    }

    /** free_frame: ignores NULL, misaligned and unmanaged addresses. */
    method FreeFrame(addr: nat)
      requires Valid()
      modifies this`chunks
      ensures Valid()
      ensures Free() == if addr != 0 && addr % FRAME_SIZE == 0 && Managed(addr / FRAME_SIZE)
                        then old(Free()) + {addr / 0x1000} else old(Free())
    {
      if addr == 0 || addr % FRAME_SIZE != 0 {
        return;
      }
      var frame := addr / FRAME_SIZE;
      if frame < startFrame || frame - startFrame >= frames {
        return;
      }
      var i := frame - startFrame;
      var k := FindChunk(i / FRAMES_PER_CHUNK);
      if 0 <= k {
        var local := i % FRAMES_PER_CHUNK;
        WriteMark(k, local, false);
      }
    }

    /** memmap_reserve: marks every managed frame that overlaps the byte range [start, end). */
    method Reserve(start: nat, end: nat)
      requires Valid() && end + FRAME_SIZE <= 0x1_0000_0000_0000_0000
      modifies this`chunks
      ensures Valid()
      ensures forall f: nat :: f in Free() <==>
                f in old(Free()) && !(f * 0x1000 < end && start < (f + 1) * 0x1000)
    {
      if frames == 0 {
        return;
      }
      var first := start / FRAME_SIZE;
      var last := (end + FRAME_SIZE - 1) / FRAME_SIZE;
      if last <= startFrame || first >= startFrame + frames {
        return;
      }
      var s := if first < startFrame then 0 else first - startFrame;
      var e := if last > startFrame + frames then frames else last - startFrame;
      var idx := s;
      while idx < e
        invariant s <= idx && (idx <= e || idx == s) && Valid()
        invariant forall i: nat :: Marked(chunks, i) == (old(Marked(chunks, i)) || s <= i < idx)
      {
        var k := FindOrCreateChunk(idx / FRAMES_PER_CHUNK);
        var local := idx % FRAMES_PER_CHUNK;
        WriteMark(k, local, true);
        idx := idx + 1;
      }
    }
  }
}
