/** MemoryPoolAllocator: the linked chunks and the memory in them (allocators.h). */
module Allocator {
  import opened Streams
  import opened PoolLayout

  class ChunkHeader {
    const capacity: nat
    var size: nat
    const next: ChunkHeader?
    const data: array<byte>              // the bytes after the header
    ghost const below: seq<ChunkHeader>  // the list from `next` on, oldest first

    constructor (capacity: nat, next: ChunkHeader?)
      ensures fresh(data) && this.capacity == capacity && size == 0 && this.next == next && data.Length == capacity
      ensures below == if next == null then [] else next.below + [next]
    {
      this.capacity, this.next, size := capacity, next, 0;
      below := if next == null then [] else next.below + [next];
      data := new byte[capacity];
    }

    ghost function List(): seq<ChunkHeader> {
      below + [this]
    }
  }

  datatype Pointer = NullPointer | Into(chunk: ChunkHeader, offset: nat)

  /** Whether the i-th chunk, the oldest being the first, is linked to the one before it and not overfull. */
  ghost predicate LinkedAt(list: seq<ChunkHeader>, i: nat)
    requires i < |list|
    reads list[i]
  {
    && list[i].below == list[..i] && list[i].next == (if i == 0 then null else list[i - 1])
    && list[i].data.Length == list[i].capacity && list[i].size <= list[i].capacity
  }

  /** A list of chunks that do not share memory. */
  ghost predicate Linked(list: seq<ChunkHeader>)
    reads list
  {
    && (forall i | 0 <= i < |list| :: LinkedAt(list, i))
    && (forall c | c in list :: |c.below| < |list| && list[|c.below|] == c && c.size <= c.capacity == c.data.Length)
    && (forall i, j | 0 <= i < j < |list| :: list[i] != list[j] && list[i].data != list[j].data)
  }

  ghost function Layout(list: seq<ChunkHeader>): (r: seq<Chunk>)
    reads list
    ensures |r| == |list|
  {
    seq(|list|, i requires 0 <= i < |list| reads list => Chunk(list[i].capacity, list[i].size))
  }

  lemma LinkOneMore(list: seq<ChunkHeader>, c: ChunkHeader)
    requires Linked(list) && c !in list && c.below == list && c.next == (if list == [] then null else list[|list| - 1])
    requires c.data.Length == c.capacity && c.size <= c.capacity && forall d | d in list :: d.data != c.data
    ensures Linked(list + [c])
    ensures Layout(list + [c]) == Layout(list) + [Chunk(c.capacity, c.size)]
  {
    var all := list + [c];
    forall i | 0 <= i < |all| ensures LinkedAt(all, i) {
      if i < |list| {
        assert LinkedAt(list, i) && all[i] == list[i] && all[..i] == list[..i];
      } else {
        assert all[..i] == list;
      }
    }
  }

  /** The older chunks of a list are a list. */
  lemma OlderLinked(list: seq<ChunkHeader>, k: nat)
    requires Linked(list) && k <= |list|
    ensures Linked(list[..k])
    ensures k > 0 ==> list[k - 1].List() == list[..k]
  {
    forall i | 0 <= i < k ensures LinkedAt(list[..k], i) {
      assert LinkedAt(list, i) && list[..k][..i] == list[..i];
    }
    if k > 0 {
      assert LinkedAt(list, k - 1);
    }
    forall c | c in list[..k] ensures |c.below| < k && list[..k][|c.below|] == c {
      var i :| 0 <= i < k && list[i] == c;
      assert LinkedAt(list, i);
    }
  }

  /** memcpy of `n` bytes that do not overlap. */
  method MemCpy(to: array<byte>, toOffset: nat, from: array<byte>, fromOffset: nat, n: nat)
    requires toOffset + n <= to.Length && fromOffset + n <= from.Length
    requires to == from ==> fromOffset + n <= toOffset
    modifies to
    ensures to[toOffset..toOffset + n] == old(from[fromOffset..fromOffset + n]) && to[..toOffset] == old(to[..toOffset])
  {
    forall k | 0 <= k < n {
      to[toOffset + k] := from[fromOffset + k];
    }
  }

  class MemoryPoolAllocator {
    var chunkHead: ChunkHeader?
    const chunkCapacity: SizeT
    const userBuffer: ChunkHeader?

    ghost function List(): seq<ChunkHeader>
      reads this
    {
      if chunkHead == null then [] else chunkHead.List()
    }

    ghost predicate Valid()
      reads this, List()
    {
      && Linked(List())
      && (userBuffer != null ==> List() != [] && List()[0] == userBuffer)
    }

    ghost function Now(): Pool
      reads this, List()
    {
      Pool(Layout(List()), chunkCapacity, userBuffer != null)
    }

    /** Where a pointer points: chunks are numbered by age. */
    ghost function Where(p: Pointer): Ptr {
      if p.NullPointer? then Null else At(|p.chunk.below|, p.offset)
    }

    constructor (chunkSize: SizeT)
      ensures Valid() && Now() == AddChunk(Pool([], chunkSize, false), chunkSize) && userBuffer == null
      ensures fresh(List())
    {
      chunkHead, chunkCapacity, userBuffer := null, chunkSize, null;
      new;
      NewChunk(chunkSize);
    }

    constructor WithBuffer(size: SizeT, chunkSize: SizeT)
      ensures Valid() && Now() == AddChunk(Pool([], chunkSize, true), size)
      ensures fresh(List())
    {
      var chunk := new ChunkHeader(size, null);
      chunkHead, chunkCapacity, userBuffer := chunk, chunkSize, chunk;
    }

    /** AddChunk: the new chunk becomes the head. */
    method NewChunk(capacity: nat)
      requires Valid()
      modifies this
      ensures Valid() && List() == old(List()) + [chunkHead] && fresh(chunkHead) && fresh(chunkHead.data)
      ensures Now() == AddChunk(old(Now()), capacity) && chunkHead.size == 0 && chunkHead.capacity == capacity
    {
      ghost var before := List();
      var chunk := new ChunkHeader(capacity, chunkHead);
      chunkHead := chunk;
      LinkOneMore(before, chunk);
      assert List() == before + [chunk];
    }

    lemma HeadIs()
      requires Valid() && chunkHead != null
      ensures Now().chunks != [] && Head(Now()) == Chunk(chunkHead.capacity, chunkHead.size)
      ensures |Now().chunks| == |chunkHead.below| + 1 && chunkHead in List()
    {
    }

    /** The head chunk hands out its next `n` bytes. */
    method HandOut(n: nat) returns (p: Pointer)
      requires Valid() && chunkHead != null && chunkHead.size + n <= chunkHead.capacity
      modifies chunkHead`size
      ensures Valid() && Now() == Bump(old(Now()), n)
      ensures p == Into(chunkHead, old(chunkHead.size)) && chunkHead.size == p.offset + n
    {
      p := Into(chunkHead, chunkHead.size);
      ghost var list := List();
      assert list == chunkHead.below + [chunkHead];
      chunkHead.size := chunkHead.size + n;
      forall i | 0 <= i < |list| ensures LinkedAt(list, i) {
        assert old(LinkedAt(list, i));
      }
      assert Layout(list) == old(Layout(list))[|list| - 1 := Chunk(chunkHead.capacity, chunkHead.size)];
    }

    method Malloc(size: SizeT) returns (p: Pointer)
      requires Valid()
      modifies this, List()
      ensures Valid() && p.Into? && (Now(), Where(p)) == PoolLayout.Malloc(old(Now()), size)
      ensures p.chunk == chunkHead && old(List()) <= List() && p.chunk.size == p.offset + Align(size)
      ensures if p.chunk in old(List()) then p.offset == old(p.chunk.size) else fresh(p.chunk) && fresh(p.chunk.data)
      ensures forall c | c in old(List()) :: c.data[..] == old(c.data[..])
    {
      hide Linked, Layout, Align;
      var n := Align(size);
      if chunkHead != null {
        HeadIs();
      }
      if chunkHead == null || chunkHead.size + n > chunkHead.capacity {
        NewChunk(if chunkCapacity > n then chunkCapacity else n);
      }
      HeadIs();
      assert Now() == WithRoom(old(Now()), n);
      p := HandOut(n);
      assert Where(p) == PoolLayout.Malloc(old(Now()), size).1;
    }

    ghost function Bytes(p: Pointer, n: nat): bytes
      requires p.Into? && p.offset + n <= p.chunk.data.Length
      reads p.chunk.data
    {
      p.chunk.data[p.offset..p.offset + n]
    }

    /** Whether a Realloc copies more than the macro has left of the new block. */
    ghost predicate Overruns(original: Pointer, originalSize: SizeT, newSize: SizeT)
      requires Valid()
      reads this, List()
    {
      && original.Into? && originalSize < newSize && !GrowsInPlace(Now(), Where(original), originalSize, newSize)
      && originalSize > Align(newSize)
    }

    /** Realloc: what the block held is kept, and so is everything else that was handed out. The new block is as large as
        was asked for exactly if the macro does not cut the request short. */
    method Realloc(original: Pointer, originalSize: SizeT, newSize: SizeT) returns (p: Pointer)
      requires Valid() && !Overruns(original, originalSize, newSize)
      requires original.Into? ==> original.chunk in List() && original.offset + originalSize <= original.chunk.size
      modifies this, List(), set c | c in List() :: c.data
      ensures Valid() && p.Into? && p.chunk in List() && p.offset <= p.chunk.size
      ensures p.offset + newSize <= p.chunk.size <==> Served(old(Now()), Where(original), originalSize, newSize)
      ensures (Now(), Where(p)) == PoolLayout.Realloc(old(Now()), Where(original), originalSize, newSize)
      ensures original.Into? ==>
                var n := if originalSize < newSize then originalSize else newSize;
                p.offset + n <= p.chunk.data.Length && Bytes(p, n) == old(Bytes(original, n))
      ensures forall c | c in old(List()) :: c.data[..old(c.size)] == old(c.data[..c.size])
    {
      hide Linked, Layout, Align, PoolLayout.Malloc, GrowsInPlace;
      AlignRoundsUp(newSize);
      if original == NullPointer {
        p := Malloc(newSize);
        return;
      }
      Fits(original.chunk);
      if originalSize >= newSize {
        return original;
      }
      var grown := TryToGrow(original, originalSize, newSize);
      if grown {
        return original;
      }
      p := Move(original, originalSize, newSize);
    }

    lemma DataApart(c: ChunkHeader)
      requires Valid() && c in List()
      ensures forall d | d in List() && d != c :: d.data != c.data
    {
      hide LinkedAt;
    }

    lemma Fits(c: ChunkHeader)
      requires Valid() && c in List()
      ensures c.size <= c.data.Length
    {
    }

    /** The last block of the head chunk grows in place, if there is room. */
    method TryToGrow(original: Pointer, originalSize: SizeT, newSize: SizeT) returns (grown: bool)
      requires Valid() && original.Into? && original.chunk in List() && originalSize < newSize
      requires original.offset + originalSize <= original.chunk.size
      modifies this, List()
      ensures Valid() && List() == old(List()) && grown == GrowsInPlace(old(Now()), Where(original), originalSize, newSize)
      ensures Now() == if grown then Bump(old(Now()), Align(newSize - originalSize)) else old(Now())
      ensures original.offset + originalSize <= original.chunk.size
      ensures !grown ==> forall c | c in List() :: c.size == old(c.size)
      ensures grown ==> (original.offset + newSize <= original.chunk.size <==> newSize - originalSize <= MAX_ALIGNED)
    {
      hide Layout, LinkedAt;
      grown := false;
      assert original.chunk == chunkHead <==> |original.chunk.below| == |List()| - 1;
      HeadIs();
      if original.chunk == chunkHead && original.offset + originalSize == chunkHead.size {
        var increment := Align(newSize - originalSize);
        AlignRoundsUp(newSize - originalSize);
        if chunkHead.size + increment <= chunkHead.capacity {
          var _ := HandOut(increment);
          grown := true;
        }
      }
    }

    /** The block is copied to new memory; the old one is not freed. */
    method Move(original: Pointer, originalSize: SizeT, newSize: SizeT) returns (p: Pointer)
      requires Valid() && originalSize < newSize && originalSize <= Align(newSize)
      requires original.Into? && original.chunk in List() && original.offset + originalSize <= original.chunk.size
      modifies this, List(), set c | c in List() :: c.data
      ensures Valid() && p.Into? && p.chunk in List() && p.chunk.size == p.offset + Align(newSize)
      ensures (Now(), Where(p)) == PoolLayout.Malloc(old(Now()), newSize) && p.chunk.size <= p.chunk.data.Length
      ensures original.chunk in List() && Bytes(p, originalSize) == old(Bytes(original, originalSize))
      ensures forall c | c in old(List()) :: c.data[..old(c.size)] == old(c.data[..c.size])
    {
      hide Linked, Layout, Align, PoolLayout.Malloc;
      Fits(original.chunk);
      p := Malloc(newSize);
      Fits(p.chunk);
      CopyBlock(p, original, originalSize);
    }

    /** memcpy between blocks: nothing else changes in any chunk up to where the new block begins. */
    method CopyBlock(p: Pointer, from: Pointer, n: nat)
      requires Valid() && p.Into? && p.chunk in List() && p.offset + n <= p.chunk.size
      requires from.Into? && from.chunk in List() && from.offset + n <= from.chunk.data.Length
      requires from.chunk == p.chunk ==> from.offset + n <= p.offset
      modifies p.chunk.data
      ensures p.offset + n <= p.chunk.data.Length && Bytes(p, n) == old(Bytes(from, n))
      ensures p.chunk.data[..p.offset] == old(p.chunk.data[..p.offset])
      ensures forall c | c in List() && c != p.chunk :: c.data[..] == old(c.data[..])
    {
      hide Linked;
      Fits(p.chunk);
      DataApart(p.chunk);
      DataApart(from.chunk);
      MemCpy(p.chunk.data, p.offset, from.chunk.data, from.offset, n);
    }

    method Size() returns (size: nat)
      requires Valid()
      ensures size == Used(Now().chunks) <= PoolLayout.Capacity(Now().chunks)
    {
      ghost var list, chunks := List(), Now().chunks;
      size := 0;
      var c := chunkHead;
      ghost var k := |list|;
      assert chunks[..k] == chunks;
      while c != null
        invariant 0 <= k <= |list| && (if k == 0 then c == null else c == list[k - 1])
        invariant size + Used(chunks[..k]) == Used(chunks)
        decreases k
      {
        assert LinkedAt(list, k - 1);
        assert chunks[..k][..k - 1] == chunks[..k - 1];
        size := size + c.size;
        c := c.next;
        k := k - 1;
      }
      UsedWithinCapacity(chunks);
    }

    method Capacity() returns (capacity: nat)
      requires Valid()
      ensures capacity == PoolLayout.Capacity(Now().chunks)
    {
      ghost var list, chunks := List(), Now().chunks;
      capacity := 0;
      var c := chunkHead;
      ghost var k := |list|;
      assert chunks[..k] == chunks;
      while c != null
        invariant 0 <= k <= |list| && (if k == 0 then c == null else c == list[k - 1])
        invariant capacity + PoolLayout.Capacity(chunks[..k]) == PoolLayout.Capacity(chunks)
        decreases k
      {
        assert LinkedAt(list, k - 1);
        assert chunks[..k][..k - 1] == chunks[..k - 1];
        capacity := capacity + c.capacity;
        c := c.next;
        k := k - 1;
      }
    }

    method Clear()
      requires Valid()
      modifies this`chunkHead
      ensures Valid() && Now() == PoolLayout.Clear(old(Now()))
    {
      ghost var list := List();
      ghost var k := |list|;
      while chunkHead != null && chunkHead != userBuffer
        invariant 0 <= k <= |list| && (if k == 0 then chunkHead == null else chunkHead == list[k - 1])
        invariant userBuffer != null ==> k > 0
        decreases k
      {
        assert LinkedAt(list, k - 1);
        chunkHead := chunkHead.next;
        k := k - 1;
      }
      OlderLinked(list, k);
    }
  }
}
