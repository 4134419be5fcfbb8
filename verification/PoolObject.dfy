/** MemoryPoolAllocator as an object: a linked list of chunk headers, updated in place. */
module PoolObject {
  import opened Bytes
  import opened PoolAllocator

  class ChunkHeader {
    const base: nat
    const capacity: nat
    const next: ChunkHeader?
    var size: nat

    constructor (base: nat, capacity: nat, next: ChunkHeader?)
      ensures this.base == base && this.capacity == capacity && this.next == next && size == 0
    {
      this.base, this.capacity, this.next, size := base, capacity, next, 0;
    }

    function Value(): Chunk
      reads this
    {
      Chunk(base, capacity, size)
    }
  }

  /** The bytes used, and the bytes that can be, over a list of chunks. */
  function Used(chunks: seq<Chunk>): nat {
    if chunks == [] then 0 else chunks[0].size + Used(chunks[1..])
  }

  function Room(chunks: seq<Chunk>): nat {
    if chunks == [] then 0 else chunks[0].capacity + Room(chunks[1..])
  }

  lemma {:induction false} UsedFits(chunks: seq<Chunk>)
    requires SoundChunks(chunks)
    ensures Used(chunks) <= Room(chunks)
  {
    if chunks != [] {
      UsedFits(chunks[1..]);
    }
  }

  /** A Malloc adds its rounded size to what is used, and what can be used grows only by a new chunk's capacity. */
  lemma MallocCounts(p: Pool, n: nat, base: nat)
    ensures var chunks := PoolAllocator.Malloc(p, n, base).0;
            && Used(chunks) == Used(p.chunks) + Align(n)
            && Room(chunks) == Room(p.chunks)
                               + if |chunks| > |p.chunks| then chunks[0].capacity else 0
  {
    hide Align;
    var size := Align(n);
    var chunks := PoolAllocator.Malloc(p, n, base).0;
    var roomy := Roomy(p, size, base);
    assert chunks[1..] == roomy[1..];
    if NeedsChunk(p.chunks, size) {
      assert roomy[1..] == p.chunks;
    }
  }

  /** The i-th header of a list, null past its end. */
  ghost function At(headers: seq<ChunkHeader>, i: nat): ChunkHeader? {
    if i < |headers| then headers[i] else null
  }

  ghost predicate Linked(headers: seq<ChunkHeader>) {
    && (forall i | 0 <= i < |headers| :: headers[i].next == At(headers, i + 1))
    && (forall i, j | 0 <= i < j < |headers| :: headers[i] != headers[j])
  }

  ghost function Values(headers: seq<ChunkHeader>): (chunks: seq<Chunk>)
    reads headers
    ensures |chunks| == |headers|
    ensures forall i | 0 <= i < |headers| :: chunks[i] == headers[i].Value()
  {
    seq(|headers|, i requires 0 <= i < |headers| reads headers => headers[i].Value())
  }

  lemma LinkedMore(chunk: ChunkHeader, headers: seq<ChunkHeader>)
    requires Linked(headers) && chunk.next == At(headers, 0) && chunk !in headers
    ensures Linked([chunk] + headers)
  {
    var more := [chunk] + headers;
    forall i | 0 <= i < |more| ensures more[i].next == At(more, i + 1) {
      assert i > 0 ==> more[i] == headers[i - 1];
      assert At(more, i + 1) == At(headers, i);
    }
  }

  lemma ValuesMore(chunk: ChunkHeader, headers: seq<ChunkHeader>)
    ensures Values([chunk] + headers) == [chunk.Value()] + Values(headers)
  {
  }

  class MemoryPoolAllocator {
    const chunkCapacity: nat
    var chunkHead: ChunkHeader?
    var memory: nat -> byte
    ghost var headers: seq<ChunkHeader>

    /** The headers are linked in order, without repetition, from the head on. */
    ghost predicate Valid()
      reads this
    {
      chunkHead == At(headers, 0) && Linked(headers)
    }

    ghost function Chunks(): (chunks: seq<Chunk>)
      reads `headers, headers
      ensures |chunks| == |headers|
    {
      Values(headers)
    }

    ghost function Now(): Pool
      reads this, headers
    {
      Pool(Chunks(), chunkCapacity, map[], memory)
    }

    constructor (chunkSize: nat)
      ensures Valid() && headers == [] && chunkCapacity == chunkSize
    {
      chunkCapacity, chunkHead, headers := chunkSize, null, [];
      memory := (_: nat) => 0;
    }

    /** The base allocator's answer to Malloc(sizeof(ChunkHeader) + capacity) is base. */
    method AddChunk(capacity: nat, base: nat)
      requires Valid()
      modifies `chunkHead, `headers
      ensures Valid() && |headers| == |old(headers)| + 1 && headers[1..] == old(headers) && fresh(headers[0])
      ensures Chunks() == [Chunk(base, capacity, 0)] + old(Chunks())
    {
      var chunk := new ChunkHeader(base, capacity, chunkHead);
      LinkedMore(chunk, headers);
      ValuesMore(chunk, headers);
      hide Linked, Values;
      headers := [chunk] + headers;
      chunkHead := chunk;
    }

    method Malloc(n: nat, base: nat) returns (buffer: nat)
      requires Valid()
      modifies `chunkHead, `headers, headers
      ensures Valid() && headers != []
              && (headers == old(headers) || (headers[1..] == old(headers) && fresh(headers[0])))
      ensures (Chunks(), buffer) == PoolAllocator.Malloc(old(Now()), n, base)
    {
      hide Align, Linked;
      var size := Align(n);
      if chunkHead == null || chunkHead.size + size > chunkHead.capacity {
        AddChunk(if chunkCapacity > size then chunkCapacity else size, base);
      }
      assert Chunks() == Roomy(old(Now()), size, base);
      buffer := chunkHead.base + HEADER + chunkHead.size;
      Take(size);
    }

    /** chunkHead_->size += size. */
    method Take(size: nat)
      requires Valid() && chunkHead != null
      modifies chunkHead`size
      ensures Valid() && Chunks() == Grow(old(Chunks()), size)
    {
      assert forall i | 0 < i < |headers| :: headers[i] != chunkHead;
      chunkHead.size := chunkHead.size + size;
    }

    /** Expand the last allocation of the head chunk, if it is the one and there is space. */
    method Expand(originalPtr: nat, originalSize: nat, newSize: nat) returns (expanded: bool)
      requires Valid() && headers != [] && originalSize < newSize
      modifies chunkHead`size
      ensures Valid() && expanded == GrowsInPlace(old(Now()), originalPtr, originalSize, newSize)
      ensures Chunks() == if expanded then Grow(old(Chunks()), Align(newSize - originalSize)) else old(Chunks())
    {
      hide Align;
      expanded := false;
      if originalPtr == chunkHead.base + HEADER + chunkHead.size - originalSize {
        var increment := Align(newSize - originalSize);
        if chunkHead.size + increment <= chunkHead.capacity {
          Take(increment);
          expanded := true;
        }
      }
    }

    method Realloc(originalPtr: nat, originalSize: nat, newSize: nat, base: nat) returns (ptr: nat)
      requires Valid() && (originalPtr != NULL ==> headers != [])
      modifies `chunkHead, `headers, `memory, headers
      ensures Valid()
      ensures (Chunks(), ptr, memory) == PoolAllocator.Realloc(old(Now()), originalPtr, originalSize, newSize, base)
    {
      hide Align, GrowsInPlace, PoolAllocator.Malloc, Linked;
      if originalPtr == NULL {
        ptr := Malloc(newSize, base);
        return;
      }
      if originalSize >= newSize {
        return originalPtr;
      }
      var expanded := Expand(originalPtr, originalSize, newSize);
      if expanded {
        return originalPtr;
      }
      ghost var before := Now();
      assert before == old(Now());
      ptr := Malloc(newSize, base);
      memory := Copied(memory, ptr, originalPtr, originalSize);
    }

    method Size() returns (size: nat)
      requires Valid()
      ensures size == Used(Chunks())
    {
      size := 0;
      var c := chunkHead;
      ghost var i := 0;
      while c != null
        invariant 0 <= i <= |headers| && c == At(headers, i)
        invariant size + Used(Chunks()[i..]) == Used(Chunks())
        decreases |headers| - i
      {
        assert Chunks()[i..][1..] == Chunks()[i + 1..];
        size := size + c.size;
        c := c.next;
        i := i + 1;
      }
    }

    method Capacity() returns (capacity: nat)
      requires Valid()
      ensures capacity == Room(Chunks())
    {
      capacity := 0;
      var c := chunkHead;
      ghost var i := 0;
      while c != null
        invariant 0 <= i <= |headers| && c == At(headers, i)
        invariant capacity + Room(Chunks()[i..]) == Room(Chunks())
        decreases |headers| - i
      {
        assert Chunks()[i..][1..] == Chunks()[i + 1..];
        capacity := capacity + c.capacity;
        c := c.next;
        i := i + 1;
      }
    }
  }
}
