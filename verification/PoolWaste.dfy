/** What MemoryPoolAllocator keeps of its chunks over every run: a chunk is left only for a request it had no room for, and
    a chunk is of the usual capacity unless one request is larger (allocators.h). */
module PoolWaste {
  import opened PoolLayout

  /** What has been handed out of two neighbours would not have gone into the older one. */
  predicate LeftFull(chunks: seq<Chunk>) {
    forall i | 0 <= i < |chunks| - 1 :: chunks[i].size + chunks[i + 1].size > chunks[i].capacity
  }

  /** Every chunk but the user's buffer has the usual capacity, or a greater one that a request has filled. */
  predicate UsualSize(c: Chunk, usual: nat) {
    c.capacity == usual || (c.capacity > usual && c.size == c.capacity)
  }

  predicate Packed(p: Pool) {
    && LeftFull(p.chunks)
    && (forall i | 0 <= i < |p.chunks| :: p.chunks[i].size <= p.chunks[i].capacity)
    && (forall i | 0 <= i < |p.chunks| && !(p.userBuffer && i == 0) :: UsualSize(p.chunks[i], p.chunkCapacity))
  }

  lemma NewPoolIsPacked(capacity: nat, chunkCapacity: SizeT)
    ensures Packed(Pool([Chunk(chunkCapacity, 0)], chunkCapacity, false))
    ensures Packed(Pool([Chunk(capacity, 0)], chunkCapacity, true))
  {
  }

  lemma BumpIsPacked(p: Pool, n: nat)
    requires Packed(p) && p.chunks != [] && Head(p).size + n <= Head(p).capacity
    ensures Packed(Bump(p, n))
  {
    var last := |p.chunks| - 1;
    var p' := Bump(p, n);
    forall i | 0 <= i < |p'.chunks| && !(p'.userBuffer && i == 0) ensures UsualSize(p'.chunks[i], p'.chunkCapacity) {
      assert UsualSize(p.chunks[i], p.chunkCapacity);
    }
    forall i | 0 <= i < last ensures p'.chunks[i].size + p'.chunks[i + 1].size > p'.chunks[i].capacity {
      assert p.chunks[i].size + p.chunks[i + 1].size > p.chunks[i].capacity;
    }
  }

  lemma MallocIsPacked(p: Pool, size: SizeT)
    requires Packed(p)
    ensures Packed(Malloc(p, size).0)
  {
    hide Align, UsualSize, Packed;
    var n := Align(size);
    if WithRoom(p, n) == p {
      assert Head(p).size + n <= Head(p).capacity by { StaysIfItFits(p, n); }
      BumpIsPacked(p, n);
    } else {
      NewChunkIsPacked(p, n);
    }
  }

  lemma StaysIfItFits(p: Pool, n: SizeT)
    requires WithRoom(p, n) == p
    ensures p.chunks != [] && Head(p).size + n <= Head(p).capacity
  {
    assert p.chunks == [] || Head(p).size + n > Head(p).capacity ==> |WithRoom(p, n).chunks| == |p.chunks| + 1;
  }

  lemma NewChunkIsPacked(p: Pool, n: SizeT)
    requires Packed(p) && WithRoom(p, n) != p
    ensures Packed(Bump(WithRoom(p, n), n))
  {
    var p' := Bump(WithRoom(p, n), n);
    var last := |p.chunks|;
    assert forall i | 0 <= i < last :: p'.chunks[i] == p.chunks[i];
    assert p'.chunks[last].size == n;
    assert UsualSize(p'.chunks[last], p.chunkCapacity);
    forall i | 0 <= i < last ensures p'.chunks[i].size + p'.chunks[i + 1].size > p'.chunks[i].capacity {
      if i < last - 1 {
        assert p.chunks[i].size + p.chunks[i + 1].size > p.chunks[i].capacity;
      }
    }
  }

  lemma StepIsPacked(p: Pool, live: seq<Block>, call: Call)
    requires Packed(p)
    ensures Packed(Step(p, live, call).0)
  {
    hide Malloc, Bump, Packed, Align, Kept;
    match call
    case MallocCall(size) => MallocIsPacked(p, size);
    case ReallocCall(i, newSize) =>
      if i < |live| {
        var b := live[i];
        MallocIsPacked(p, newSize);
        if b.size < newSize && GrowsInPlace(p, b.at, b.size, newSize) {
          BumpIsPacked(p, Align(newSize - b.size));
        }
      }
    case ClearCall => ClearIsPacked(p);
  }

  lemma ClearIsPacked(p: Pool)
    requires Packed(p)
    ensures Packed(Clear(p))
  {
  }

  /** The pool behind a run. */
  function Behind(p: Pool, live: seq<Block>, calls: seq<Call>): Pool
    decreases |calls|
  {
    if calls == [] then p else Behind(Step(p, live, calls[0]).0, Step(p, live, calls[0]).1, calls[1..])
  }

  /** So it is over every run, whatever is asked for. */
  lemma {:induction false} RunIsPacked(p: Pool, live: seq<Block>, calls: seq<Call>)
    requires Packed(p)
    ensures Packed(Behind(p, live, calls))
    decreases |calls|
  {
    hide Packed, Step;
    if calls != [] {
      StepIsPacked(p, live, calls[0]);
      RunIsPacked(Step(p, live, calls[0]).0, Step(p, live, calls[0]).1, calls[1..]);
    }
  }

  /** What Capacity counts is at most twice what Size counts, and the newest chunk. */
  lemma {:induction false} HalfIsUsed(chunks: seq<Chunk>)
    requires chunks != [] && LeftFull(chunks)
    ensures var last := chunks[|chunks| - 1]; Capacity(chunks) + last.size <= 2 * Used(chunks) + last.capacity
  {
    if |chunks| > 1 {
      var init := chunks[..|chunks| - 1];
      HalfIsUsed(init);
      assert chunks[|chunks| - 2].size + chunks[|chunks| - 1].size > chunks[|chunks| - 2].capacity;
    }
  }

  /** So over every run of a pool of its own chunks, less than half of what was allocated for it is wasted, apart from the
      newest chunk. */
  lemma WasteIsBounded(chunkCapacity: SizeT, calls: seq<Call>)
    ensures var p := Behind(Pool([Chunk(chunkCapacity, 0)], chunkCapacity, false), [], calls);
            p.chunks != [] ==> Capacity(p.chunks) <= 2 * Used(p.chunks) + Head(p).capacity
  {
    hide Behind, Capacity, Used;
    var start := Pool([Chunk(chunkCapacity, 0)], chunkCapacity, false);
    NewPoolIsPacked(0, chunkCapacity);
    RunIsPacked(start, [], calls);
    var p := Behind(start, [], calls);
    if p.chunks != [] {
      HalfIsUsed(p.chunks);
    }
  }

  /** What a Realloc costs: nothing for a block that shrinks; the increment for the newest block, if its chunk has room for
      it; otherwise the whole new size. */
  lemma ReallocIsCounted(p: Pool, at: Ptr, originalSize: SizeT, newSize: SizeT)
    ensures var grown := if newSize > originalSize then Align(newSize - originalSize) else 0;
            Used(Realloc(p, at, originalSize, newSize).0.chunks) == Used(p.chunks)
            + if at.Null? then Align(newSize)
              else if newSize <= originalSize then 0
              else if p.chunks != [] && at.chunk == |p.chunks| - 1 && at.offset + originalSize == Head(p).size
                      && Head(p).size + grown <= Head(p).capacity then grown
              else Align(newSize)
  {
    hide Malloc, Align;
    MallocIsCounted(p, newSize);
    if at.At? && originalSize < newSize && GrowsInPlace(p, at, originalSize, newSize) {
      var chunks := Bump(p, Align(newSize - originalSize)).chunks;
      assert chunks[..|chunks| - 1] == p.chunks[..|chunks| - 1];
    }
  }
}
