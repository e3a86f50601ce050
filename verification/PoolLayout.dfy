/** How MemoryPoolAllocator lays blocks out: they are cut off the newest of a list of chunks and never given back
    (allocators.h). */
module PoolLayout {
  const TWO_32: nat := 0x1_0000_0000
  const TWO_64: nat := 0x1_0000_0000_0000_0000

  /** size_t on a 64-bit machine. */
  type SizeT = n: int | 0 <= n < TWO_64

  /** RAPIDJSON_ALIGN on a 64-bit size: its mask ~3u has 32 bits, so it also clears the upper half. */
  function Align(x: SizeT): (r: SizeT)
    ensures r % 4 == 0 && r < TWO_32
  {
    (x + 3) % TWO_64 % TWO_32 / 4 * 4
  }

  const MAX_ALIGNED: SizeT := 0xFFFF_FFFC

  /** Where the macro does what it is for. */
  lemma AlignRoundsUp(x: SizeT)
    ensures x <= Align(x) <==> x <= MAX_ALIGNED
    ensures x <= MAX_ALIGNED ==> Align(x) < x + 4
  {
    if x <= MAX_ALIGNED {
      assert (x + 3) % TWO_64 % TWO_32 == x + 3;
    }
  }

  datatype Chunk = Chunk(capacity: nat, size: nat)

  /** The chunks, oldest first: the last one is chunkHead_. */
  datatype Pool = Pool(chunks: seq<Chunk>, chunkCapacity: SizeT, userBuffer: bool)

  datatype Ptr = Null | At(chunk: nat, offset: nat)

  function Head(p: Pool): Chunk
    requires p.chunks != []
  {
    p.chunks[|p.chunks| - 1]
  }

  function AddChunk(p: Pool, capacity: nat): Pool {
    p.(chunks := p.chunks + [Chunk(capacity, 0)])
  }

  /** The head chunk hands out `n` more bytes. */
  function Bump(p: Pool, n: nat): Pool
    requires p.chunks != []
  {
    p.(chunks := p.chunks[|p.chunks| - 1 := Head(p).(size := Head(p).size + n)])
  }

  function WithRoom(p: Pool, n: SizeT): (r: Pool)
    ensures r.chunks != []
  {
    if p.chunks == [] || Head(p).size + n > Head(p).capacity then
      AddChunk(p, if p.chunkCapacity > n then p.chunkCapacity else n)
    else p
  }

  function Malloc(p: Pool, size: SizeT): (Pool, Ptr) {
    var n := Align(size);
    var p' := WithRoom(p, n);
    (Bump(p', n), At(|p'.chunks| - 1, Head(p').size))
  }

  /** Whether Realloc only moves the end of the head chunk. */
  predicate GrowsInPlace(p: Pool, at: Ptr, originalSize: SizeT, newSize: SizeT)
    requires originalSize < newSize
  {
    && at.At? && p.chunks != [] && at.chunk == |p.chunks| - 1 && at.offset + originalSize == Head(p).size
    && Head(p).size + Align(newSize - originalSize) <= Head(p).capacity
  }

  function Realloc(p: Pool, at: Ptr, originalSize: SizeT, newSize: SizeT): (Pool, Ptr) {
    if at.Null? then Malloc(p, newSize)
    else if originalSize >= newSize then (p, at)
    else if GrowsInPlace(p, at, originalSize, newSize) then (Bump(p, Align(newSize - originalSize)), at)
    else Malloc(p, newSize)
  }

  /** Clear keeps the user's buffer only. */
  function Clear(p: Pool): Pool {
    p.(chunks := if p.userBuffer && p.chunks != [] then p.chunks[..1] else [])
  }

  function Used(chunks: seq<Chunk>): nat {
    if chunks == [] then 0 else Used(chunks[..|chunks| - 1]) + chunks[|chunks| - 1].size
  }

  function Capacity(chunks: seq<Chunk>): nat {
    if chunks == [] then 0 else Capacity(chunks[..|chunks| - 1]) + chunks[|chunks| - 1].capacity
  }

  /** Size counts every aligned request, and the room Capacity counts is never overrun. */
  lemma MallocIsCounted(p: Pool, size: SizeT)
    ensures Used(Malloc(p, size).0.chunks) == Used(p.chunks) + Align(size)
  {
    var p1 := WithRoom(p, Align(size));
    var chunks := Malloc(p, size).0.chunks;
    assert chunks[..|chunks| - 1] == p1.chunks[..|chunks| - 1];
    if p1 != p {
      assert p1.chunks[..|p.chunks|] == p.chunks;
    }
  }

  lemma {:induction false} UsedWithinCapacity(chunks: seq<Chunk>)
    requires forall i | 0 <= i < |chunks| :: chunks[i].size <= chunks[i].capacity
    ensures Used(chunks) <= Capacity(chunks)
  {
    if chunks != [] {
      UsedWithinCapacity(chunks[..|chunks| - 1]);
    }
  }

  // ---------------------------------------------------------------- blocks, over every run

  /** What a client holds: a pointer and the size it last asked for. */
  datatype Block = Block(at: Ptr, size: SizeT)

  predicate Inside(p: Pool, b: Block) {
    && b.at.At? && b.at.chunk < |p.chunks| && b.at.offset % 4 == 0
    && b.at.offset + b.size <= p.chunks[b.at.chunk].size
  }

  predicate Apart(a: Block, b: Block)
    requires a.at.At? && b.at.At?
  {
    || a.size == 0 || b.size == 0 || a.at.chunk != b.at.chunk
    || a.at.offset + a.size <= b.at.offset || b.at.offset + b.size <= a.at.offset
  }

  predicate IsFilled(c: Chunk) {
    c.size <= c.capacity && c.size % 4 == 0
  }

  /** Chunks are not overfull and end at a multiple of 4; live blocks lie in the used part, at multiples of 4, and do not
      overlap. */
  predicate Sound(p: Pool, live: seq<Block>) {
    && (forall i | 0 <= i < |p.chunks| :: IsFilled(p.chunks[i]))
    && (forall i | 0 <= i < |live| :: Inside(p, live[i]))
    && (forall i, j | 0 <= i < j < |live| :: Apart(live[i], live[j]))
  }

  /** A Malloc hands out memory nobody holds, unless the request is one the macro cuts short. */
  lemma MallocIsSound(p: Pool, live: seq<Block>, size: SizeT)
    requires Sound(p, live)
    ensures var (p', at) := Malloc(p, size);
            Sound(p', live + [Block(at, size)]) <==> size <= MAX_ALIGNED
  {
    AlignRoundsUp(size);
    var (p', at) := Malloc(p, size);
    var b := Block(at, size);
    assert (live + [b])[|live|] == b;
    if size <= MAX_ALIGNED {
      assert forall i | 0 <= i < |live| :: Inside(p, live[i]);
      assert Inside(p', b);
    } else {
      assert !Inside(p', b);
    }
  }

  /** The client reallocates block `i`, of which it tells the size. */
  function Reallocated(p: Pool, live: seq<Block>, i: nat, newSize: SizeT): (Pool, seq<Block>)
    requires i < |live|
  {
    var (p', at) := Realloc(p, live[i].at, live[i].size, newSize);
    (p', live[i := Block(at, newSize)])
  }

  /** Whether the macro leaves a Realloc all that it asks for: a block that shrinks asks for nothing, one that grows in
      place for its increment, any other for its whole new size. */
  predicate Served(p: Pool, at: Ptr, originalSize: SizeT, newSize: SizeT) {
    if at.At? && originalSize >= newSize then true
    else if at.At? && GrowsInPlace(p, at, originalSize, newSize) then newSize - originalSize <= MAX_ALIGNED
    else newSize <= MAX_ALIGNED
  }

  /** A Realloc hands out memory nobody else holds exactly then. */
  lemma ReallocIsSound(p: Pool, live: seq<Block>, i: nat, newSize: SizeT)
    requires Sound(p, live) && i < |live|
    ensures var (p', live') := Reallocated(p, live, i, newSize);
            Sound(p', live') <==> Served(p, live[i].at, live[i].size, newSize)
  {
    var b := live[i];
    hide Malloc, Inside, Apart, Sound;
    SoundIsAt(p, live, i);
    if b.size < newSize {
      if GrowsInPlace(p, b.at, b.size, newSize) {
        GrownIsSound(p, live, i, newSize);
      } else {
        var (p', at) := Malloc(p, newSize);
        MallocIsSound(p, live, newSize);
        if newSize <= MAX_ALIGNED {
          MovedIsSound(p', live, i, Block(at, newSize));
        } else {
          MallocIsShort(p, newSize);
          NotInside(p', live[i := Block(at, newSize)], i);
        }
      }
    } else {
      ShrunkIsSound(p, live, i, newSize);
    }
  }

  lemma MallocIsShort(p: Pool, size: SizeT)
    requires size > MAX_ALIGNED
    ensures !Inside(Malloc(p, size).0, Block(Malloc(p, size).1, size))
  {
    AlignRoundsUp(size);
  }

  lemma NotInside(p: Pool, live: seq<Block>, i: nat)
    requires i < |live| && !Inside(p, live[i])
    ensures !Sound(p, live)
  {
  }

  lemma SoundIsAt(p: Pool, live: seq<Block>, i: nat)
    requires Sound(p, live) && i < |live|
    ensures live[i].at.At?
  {
    assert Inside(p, live[i]);
  }

  lemma ShrunkIsSound(p: Pool, live: seq<Block>, i: nat, newSize: SizeT)
    requires Sound(p, live) && i < |live| && newSize <= live[i].size
    ensures Sound(p, live[i := Block(live[i].at, newSize)]) && live[i].at.At?
  {
    assert Inside(p, live[i]);
  }

  lemma GrownIsSound(p: Pool, live: seq<Block>, i: nat, newSize: SizeT)
    requires Sound(p, live) && i < |live| && live[i].size < newSize
    requires GrowsInPlace(p, live[i].at, live[i].size, newSize)
    ensures Sound(Bump(p, Align(newSize - live[i].size)), live[i := Block(live[i].at, newSize)])
            <==> newSize - live[i].size <= MAX_ALIGNED
  {
    hide Sound, Inside, Bump, Align;
    if newSize - live[i].size <= MAX_ALIGNED {
      GrownFits(p, live, i, newSize);
    } else {
      GrownShort(p, live[i], newSize);
      NotInside(Bump(p, Align(newSize - live[i].size)), live[i := Block(live[i].at, newSize)], i);
    }
  }

  lemma GrownFits(p: Pool, live: seq<Block>, i: nat, newSize: SizeT)
    requires Sound(p, live) && i < |live| && live[i].size < newSize && newSize - live[i].size <= MAX_ALIGNED
    requires GrowsInPlace(p, live[i].at, live[i].size, newSize)
    ensures Sound(Bump(p, Align(newSize - live[i].size)), live[i := Block(live[i].at, newSize)])
  {
    hide Apart, Align;
    AlignRoundsUp(newSize - live[i].size);
    assert forall j | 0 <= j < |live| :: Inside(p, live[j]);
    var live' := live[i := Block(live[i].at, newSize)];
    forall x, y | 0 <= x < y < |live'| ensures Apart(live'[x], live'[y]) {
      assert Apart(live[x], live[y]);
      if x == i {
        ApartBoth(live[x], live[y]);
        GrownApart(p, live[y], live[i], newSize);
        ApartBoth(live[y], live'[i]);
      } else if y == i {
        GrownApart(p, live[x], live[i], newSize);
      }
    }
  }

  /** A block at the end of the head chunk can grow away from any other. */
  lemma GrownApart(p: Pool, c: Block, b: Block, newSize: SizeT)
    requires Inside(p, c) && Inside(p, b) && Apart(c, b) && b.size < newSize && GrowsInPlace(p, b.at, b.size, newSize)
    ensures Apart(c, Block(b.at, newSize))
  {
  }

  lemma GrownShort(p: Pool, b: Block, newSize: SizeT)
    requires b.size < newSize && newSize - b.size > MAX_ALIGNED && GrowsInPlace(p, b.at, b.size, newSize)
    ensures !Inside(Bump(p, Align(newSize - b.size)), Block(b.at, newSize))
  {
    AlignRoundsUp(newSize - b.size);
  }

  /** A block that is replaced by the newest one. */
  lemma MovedIsSound(p: Pool, live: seq<Block>, i: nat, b: Block)
    requires Sound(p, live + [b]) && i < |live|
    ensures Sound(p, live[i := b])
  {
    hide Apart;
    var all, moved := live + [b], live[i := b];
    assert forall j | 0 <= j < |moved| :: moved[j] == all[if j == i then |live| else j];
    assert forall j | 0 <= j < |all| :: Inside(p, all[j]);
    assert forall j | 0 <= j < |moved| :: Inside(p, moved[j]);
    forall x, y | 0 <= x < y < |moved| ensures Apart(moved[x], moved[y]) {
      if x == i {
        assert Apart(all[y], all[|live|]);
        ApartBoth(all[y], all[|live|]);
      } else if y == i {
        assert Apart(all[x], all[|live|]);
      } else {
        assert Apart(all[x], all[y]);
      }
    }
  }

  lemma ApartBoth(a: Block, b: Block)
    requires a.at.At? && b.at.At? && Apart(a, b)
    ensures Apart(b, a)
  {
  }

  /** The calls a client makes. */
  datatype Call = MallocCall(size: SizeT) | ReallocCall(i: nat, newSize: SizeT) | ClearCall

  /** The blocks a Clear leaves valid. */
  function Kept(live: seq<Block>, chunks: nat): seq<Block> {
    if live == [] then [] else
      (if live[0].at.At? && live[0].at.chunk < chunks then [live[0]] else []) + Kept(live[1..], chunks)
  }

  function Step(p: Pool, live: seq<Block>, call: Call): (Pool, seq<Block>) {
    match call
    case MallocCall(size) => (Malloc(p, size).0, live + [Block(Malloc(p, size).1, size)])
    case ReallocCall(i, newSize) => if i < |live| then Reallocated(p, live, i, newSize) else (p, live)
    case ClearCall => (Clear(p), Kept(live, |Clear(p).chunks|))
  }

  /** Whether the macro leaves a call all that it asks for. */
  predicate Moderate(p: Pool, live: seq<Block>, call: Call) {
    match call
    case MallocCall(size) => size <= MAX_ALIGNED
    case ReallocCall(i, newSize) => i < |live| ==> Served(p, live[i].at, live[i].size, newSize)
    case ClearCall => true
  }

  predicate AllApart(live: seq<Block>)
    requires forall b | b in live :: b.at.At?
  {
    forall i, j | 0 <= i < j < |live| :: Apart(live[i], live[j])
  }

  lemma {:induction false} KeptAreLive(live: seq<Block>, chunks: nat)
    ensures forall b | b in Kept(live, chunks) :: b in live && b.at.At? && b.at.chunk < chunks
  {
    if live != [] {
      KeptAreLive(live[1..], chunks);
    }
  }

  lemma {:induction false} KeptApart(live: seq<Block>, chunks: nat)
    requires forall i | 0 <= i < |live| :: live[i].at.At?
    requires forall i, j | 0 <= i < j < |live| :: Apart(live[i], live[j])
    ensures forall b | b in Kept(live, chunks) :: b.at.At?
    ensures AllApart(Kept(live, chunks))
  {
    KeptAreLive(live, chunks);
    if live != [] {
      var rest := Kept(live[1..], chunks);
      KeptApart(live[1..], chunks);
      KeptAreLive(live[1..], chunks);
      hide Kept, Apart;
      forall j | 0 <= j < |rest| ensures Apart(live[0], rest[j]) {
        assert rest[j] in live[1..];
        var k :| 0 <= k < |live[1..]| && live[1..][k] == rest[j];
        assert Apart(live[0], live[k + 1]);
      }
    }
  }

  lemma ClearIsSound(p: Pool, live: seq<Block>)
    requires Sound(p, live)
    ensures Sound(Clear(p), Kept(live, |Clear(p).chunks|))
  {
    KeptApart(live, |Clear(p).chunks|);
    KeptAreLive(live, |Clear(p).chunks|);
    var kept := Kept(live, |Clear(p).chunks|);
    forall i | 0 <= i < |kept| ensures Inside(Clear(p), kept[i]) {
      assert kept[i] in live;
      assert Inside(p, kept[i]);
    }
  }

  lemma StepIsSound(p: Pool, live: seq<Block>, call: Call)
    requires Sound(p, live)
    ensures Sound(Step(p, live, call).0, Step(p, live, call).1) <==> Moderate(p, live, call)
  {
    hide Sound, Malloc, Realloc, Clear, Kept, Served;
    match call
    case MallocCall(size) => MallocIsSound(p, live, size);
    case ReallocCall(i, newSize) => if i < |live| { ReallocIsSound(p, live, i, newSize); }
    case ClearCall => ClearIsSound(p, live);
  }

  /** Whether the pool is sound before and after every call of a run. */
  predicate StaysSound(p: Pool, live: seq<Block>, calls: seq<Call>)
    decreases |calls|
  {
    && Sound(p, live)
    && (calls == [] || var (p', live') := Step(p, live, calls[0]); StaysSound(p', live', calls[1..]))
  }

  predicate AllModerate(p: Pool, live: seq<Block>, calls: seq<Call>)
    decreases |calls|
  {
    calls == [] || (
      && Moderate(p, live, calls[0])
      && var (p', live') := Step(p, live, calls[0]); AllModerate(p', live', calls[1..]))
  }

  /** Over a run no chunk is ever overfull, every live block always lies in the used part of its chunk, and no two of them
      ever share a byte, exactly if every request of the run is one the macro leaves as large as it is. */
  lemma {:induction false} RunIsSound(p: Pool, live: seq<Block>, calls: seq<Call>)
    requires Sound(p, live)
    ensures StaysSound(p, live, calls) <==> AllModerate(p, live, calls)
    decreases |calls|
  {
    hide Sound, Step, Moderate;
    if calls != [] {
      StepIsSound(p, live, calls[0]);
      var (p', live') := Step(p, live, calls[0]);
      if Sound(p', live') {
        RunIsSound(p', live', calls[1..]);
      } else {
        UnsoundStays(p', live', calls[1..]);
      }
    }
  }

  lemma UnsoundStays(p: Pool, live: seq<Block>, calls: seq<Call>)
    requires !Sound(p, live)
    ensures !StaysSound(p, live, calls)
  {
    hide Sound;
  }
}
