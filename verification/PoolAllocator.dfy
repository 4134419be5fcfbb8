/** MemoryPoolAllocator over a flat address space: chunks come from a base allocator, blocks are cut off
    the head chunk and never returned. */
module PoolAllocator {
  import opened Bytes

  /** sizeof(ChunkHeader), with 8-byte words. */
  const HEADER: nat := 24

  const DEFAULT_CHUNK_CAPACITY: nat := 65536

  /** RAPIDJSON_ALIGN(x). The mask ~3u is an unsigned int: it also clears the bits above the lowest 32. */
  function Align(x: nat): (r: nat)
    ensures r % 4 == 0
  {
    (x + 3) % 0x1_0000_0000 / 4 * 4
  }

  /** The largest size that Align does not cut down. */
  const LIMIT: nat := 0xFFFF_FFFC

  lemma AlignCovers(x: nat)
    ensures Align(x) >= x <==> x <= LIMIT
    ensures x <= LIMIT ==> Align(x) < x + 4
  {
    if x <= LIMIT {
      assert (x + 3) % 0x1_0000_0000 == x + 3;
    } else {
      assert (x + 3) % 0x1_0000_0000 <= 0xFFFF_FFFF;
    }
  }

  /** A chunk: its header stands at base, its data behind the header. */
  datatype Chunk = Chunk(base: nat, capacity: nat, size: nat)

  datatype Block = Block(addr: nat, size: nat)

  function Data(c: Chunk): nat {
    c.base + HEADER
  }

  /** The first address not in use. */
  function Top(c: Chunk): nat {
    Data(c) + c.size
  }

  function End(c: Chunk): nat {
    Data(c) + c.capacity
  }

  /** The allocator, its chunks from the head on; live holds the blocks its user has, under handles; and
      memory is what the blocks contain. */
  datatype Pool = Pool(chunks: seq<Chunk>, chunkCapacity: nat, live: map<nat, Block>, memory: nat -> byte)

  predicate Apart(a: nat, aEnd: nat, b: nat, bEnd: nat) {
    a >= aEnd || b >= bEnd || aEnd <= b || bEnd <= a
  }

  predicate Disjoint(b: Block, c: Block) {
    Apart(b.addr, b.addr + b.size, c.addr, c.addr + c.size)
  }

  /** The block lies in the used part of the chunk, past its header. */
  predicate Within(b: Block, c: Chunk) {
    Data(c) <= b.addr && b.addr + b.size <= Top(c)
  }

  predicate Placed(b: Block, chunks: seq<Chunk>) {
    exists i | 0 <= i < |chunks| :: Within(b, chunks[i])
  }

  /** Chunks do not overlap, headers included, and none is overfull. */
  predicate SoundChunks(chunks: seq<Chunk>) {
    && (forall i | 0 <= i < |chunks| :: chunks[i].size <= chunks[i].capacity)
    && (forall i, j | 0 <= i < j < |chunks| ::
          Apart(chunks[i].base, End(chunks[i]), chunks[j].base, End(chunks[j])))
  }

  predicate SoundBlocks(live: map<nat, Block>, chunks: seq<Chunk>) {
    && (forall h | h in live :: Placed(live[h], chunks))
    && (forall g, h | g in live && h in live && g != h :: Disjoint(live[g], live[h]))
  }

  /** Live blocks are pairwise disjoint, each inside the used part of one chunk. */
  predicate Sound(p: Pool) {
    SoundChunks(p.chunks) && SoundBlocks(p.live, p.chunks)
  }

  // ---------------------------------------------------------------- Malloc

  predicate NeedsChunk(chunks: seq<Chunk>, size: nat) {
    chunks == [] || chunks[0].size + size > chunks[0].capacity
  }

  function NewCapacity(chunkCapacity: nat, size: nat): nat {
    if chunkCapacity > size then chunkCapacity else size
  }

  /** What the base allocator promises of the address it returns. */
  predicate Fresh(chunks: seq<Chunk>, base: nat, capacity: nat) {
    forall i | 0 <= i < |chunks| :: Apart(chunks[i].base, End(chunks[i]), base, base + HEADER + capacity)
  }

  /** The base allocator would give base if asked for the chunk a request of n bytes needs. */
  predicate Supplies(p: Pool, n: nat, base: nat) {
    NeedsChunk(p.chunks, Align(n)) ==> Fresh(p.chunks, base, NewCapacity(p.chunkCapacity, Align(n)))
  }

  /** The chunks with room for size more bytes in the head. */
  function Roomy(p: Pool, size: nat, base: nat): (chunks: seq<Chunk>)
    ensures chunks != []
    ensures SoundChunks(p.chunks) ==> chunks[0].size + size <= chunks[0].capacity
  {
    if NeedsChunk(p.chunks, size) then [Chunk(base, NewCapacity(p.chunkCapacity, size), 0)] + p.chunks
    else p.chunks
  }

  function Grow(chunks: seq<Chunk>, size: nat): (r: seq<Chunk>)
    requires chunks != []
    ensures |r| == |chunks|
  {
    chunks[0 := chunks[0].(size := chunks[0].size + size)]
  }

  /** Malloc: where the block is, and the chunks afterwards. */
  function Malloc(p: Pool, n: nat, base: nat): (seq<Chunk>, nat) {
    var size := Align(n);
    var chunks := Roomy(p, size, base);
    (Grow(chunks, size), Top(chunks[0]))
  }

  /** A new chunk is as large as chunks are, and larger only to hold what it was made for. */
  lemma ChunkMade(p: Pool, n: nat, base: nat)
    requires NeedsChunk(p.chunks, Align(n))
    ensures var (chunks, addr) := Malloc(p, n, base);
            && |chunks| == |p.chunks| + 1 && chunks[1..] == p.chunks && addr == base + HEADER
            && chunks[0].base == base && chunks[0].size == Align(n)
            && chunks[0].capacity == if Align(n) <= p.chunkCapacity then p.chunkCapacity else Align(n)
  {
    hide Align;
  }

  // ---------------------------------------------------------------- Realloc

  predicate GrowsInPlace(p: Pool, addr: nat, originalSize: nat, newSize: nat) {
    && originalSize < newSize
    && p.chunks != []
    && addr == Top(p.chunks[0]) - originalSize
    && p.chunks[0].size + Align(newSize - originalSize) <= p.chunks[0].capacity
  }

  function Copied(memory: nat -> byte, dst: nat, src: nat, n: nat): nat -> byte {
    (a: nat) => if dst <= a < dst + n then memory(src + (a - dst)) else memory(a)
  }

  const NULL: nat := 0

  function Realloc(p: Pool, addr: nat, originalSize: nat, newSize: nat, base: nat): (seq<Chunk>, nat, nat -> byte) {
    if addr == NULL then
      var (chunks, newBuffer) := Malloc(p, newSize, base);
      (chunks, newBuffer, p.memory)
    else if originalSize >= newSize then (p.chunks, addr, p.memory)
    else if GrowsInPlace(p, addr, originalSize, newSize) then
      (Grow(p.chunks, Align(newSize - originalSize)), addr, p.memory)
    else
      var (chunks, newBuffer) := Malloc(p, newSize, base);
      (chunks, newBuffer, Copied(p.memory, newBuffer, addr, originalSize))
  }

  // ---------------------------------------------------------------- runs

  /** A call of the user; h names the block made or used. */
  datatype Call =
    | MallocCall(h: nat, size: nat, base: nat)
    | ReallocCall(h: nat, newSize: nat, base: nat)
    | Write(h: nat, i: nat, b: byte)

  /** The user holds the block he names, writes inside it, and does not reuse a handle. */
  predicate Truthful(p: Pool, c: Call) {
    match c
    case MallocCall(h, size, base) => h !in p.live && Supplies(p, size, base)
    case ReallocCall(h, newSize, base) => h in p.live && Supplies(p, newSize, base)
    case Write(h, i, _) => h in p.live && i < p.live[h].size
  }

  function Do(p: Pool, c: Call): Pool
    requires Truthful(p, c)
  {
    match c
    case MallocCall(h, size, base) =>
      var (chunks, addr) := Malloc(p, size, base);
      p.(chunks := chunks, live := p.live[h := Block(addr, size)])
    case ReallocCall(h, newSize, base) =>
      var (chunks, addr, memory) := Realloc(p, p.live[h].addr, p.live[h].size, newSize, base);
      p.(chunks := chunks, live := p.live[h := Block(addr, newSize)], memory := memory)
    case Write(h, i, b) =>
      p.(memory := Poke(p.memory, p.live[h].addr + i, b))
  }

  function Poke(memory: nat -> byte, at: nat, b: byte): nat -> byte {
    (a: nat) => if a == at then b else memory(a)
  }

  /** No request is larger than Align can round. */
  predicate Modest(c: Call) {
    match c
    case MallocCall(_, size, _) => size <= LIMIT
    case ReallocCall(_, newSize, _) => newSize <= LIMIT
    case Write(_, _, _) => true
  }

  predicate TruthfulRun(p: Pool, cs: seq<Call>)
    decreases |cs|
  {
    cs != [] ==> Truthful(p, cs[0]) && TruthfulRun(Do(p, cs[0]), cs[1..])
  }

  function Run(p: Pool, cs: seq<Call>): Pool
    requires TruthfulRun(p, cs)
    decreases |cs|
  {
    if cs == [] then p else Run(Do(p, cs[0]), cs[1..])
  }

  // ---------------------------------------------------------------- soundness

  /** Room in the head does not move the blocks. */
  lemma RoomySound(p: Pool, n: nat, base: nat)
    requires Sound(p) && Supplies(p, n, base)
    ensures SoundChunks(Roomy(p, Align(n), base)) && SoundBlocks(p.live, Roomy(p, Align(n), base))
  {
    hide Disjoint, Within, Align;
    var chunks := Roomy(p, Align(n), base);
    if NeedsChunk(p.chunks, Align(n)) {
      assert forall i | 0 < i < |chunks| :: chunks[i] == p.chunks[i - 1];
      forall h | h in p.live ensures Placed(p.live[h], chunks) {
        var i :| 0 <= i < |p.chunks| && Within(p.live[h], p.chunks[i]);
        assert Within(p.live[h], chunks[i + 1]);
      }
    }
  }

  /** Bytes past the top of the head are free: no live block has them, in any chunk. */
  lemma TopIsFree(live: map<nat, Block>, chunks: seq<Chunk>, h: nat, end: nat)
    requires SoundChunks(chunks) && SoundBlocks(live, chunks) && chunks != [] && h in live
    requires end <= End(chunks[0])
    ensures Apart(live[h].addr, live[h].addr + live[h].size, Top(chunks[0]), end)
  {
    var i :| 0 <= i < |chunks| && Within(live[h], chunks[i]);
    if i > 0 {
      assert Apart(chunks[0].base, End(chunks[0]), chunks[i].base, End(chunks[i]));
    }
  }

  lemma GrowSound(live: map<nat, Block>, chunks: seq<Chunk>, size: nat)
    requires SoundChunks(chunks) && SoundBlocks(live, chunks) && chunks != []
    requires chunks[0].size + size <= chunks[0].capacity
    ensures SoundChunks(Grow(chunks, size)) && SoundBlocks(live, Grow(chunks, size))
  {
    hide Disjoint;
    var grown := Grow(chunks, size);
    forall h | h in live ensures Placed(live[h], grown) {
      var i :| 0 <= i < |chunks| && Within(live[h], chunks[i]);
      assert Within(live[h], grown[i]);
    }
  }

  /** A block replaced by one that is placed and apart from all others. */
  lemma ReplaceSound(live: map<nat, Block>, chunks: seq<Chunk>, h: nat, b: Block)
    requires SoundBlocks(live, chunks) && Placed(b, chunks)
    requires forall g | g in live && g != h :: Disjoint(live[g], b)
    ensures SoundBlocks(live[h := b], chunks)
  {
  }

  /** A block cut off the head. */
  lemma MallocSound(p: Pool, h: nat, n: nat, base: nat)
    requires Sound(p) && Supplies(p, n, base) && n <= LIMIT
    ensures var (chunks, addr) := Malloc(p, n, base);
            SoundChunks(chunks) && SoundBlocks(p.live[h := Block(addr, n)], chunks)
  {
    AlignCovers(n);
    RoomySound(p, n, base);
    hide Align;
    var roomy := Roomy(p, Align(n), base);
    var (chunks, addr) := Malloc(p, n, base);
    var b := Block(addr, n);
    GrowSound(p.live, roomy, Align(n));
    assert Within(b, chunks[0]);
    forall g | g in p.live && g != h ensures Disjoint(p.live[g], b) {
      TopIsFree(p.live, roomy, g, addr + n);
    }
    ReplaceSound(p.live, chunks, h, b);
  }

  /** A block stands behind a header. */
  lemma NotNull(p: Pool, h: nat)
    requires Sound(p) && h in p.live
    ensures p.live[h].addr != NULL
  {
    var i :| 0 <= i < |p.chunks| && Within(p.live[h], p.chunks[i]);
  }

  /** A block that ends where the head's free part begins is in the head. */
  lemma EndsAtTop(p: Pool, h: nat)
    requires Sound(p) && h in p.live && p.chunks != []
    requires p.live[h].addr + p.live[h].size == Top(p.chunks[0])
    ensures Within(p.live[h], p.chunks[0])
  {
    var i :| 0 <= i < |p.chunks| && Within(p.live[h], p.chunks[i]);
    if i > 0 {
      assert Apart(p.chunks[0].base, End(p.chunks[0]), p.chunks[i].base, End(p.chunks[i]));
    }
  }

  lemma InPlaceSound(p: Pool, h: nat, newSize: nat)
    requires Sound(p) && h in p.live && newSize - p.live[h].size <= LIMIT
    requires GrowsInPlace(p, p.live[h].addr, p.live[h].size, newSize)
    ensures var chunks := Grow(p.chunks, Align(newSize - p.live[h].size));
            SoundChunks(chunks) && SoundBlocks(p.live[h := Block(p.live[h].addr, newSize)], chunks)
  {
    var more := newSize - p.live[h].size;
    AlignCovers(more);
    hide Align;
    var chunks, b := Grow(p.chunks, Align(more)), Block(p.live[h].addr, newSize);
    EndsAtTop(p, h);
    GrowSound(p.live, p.chunks, Align(more));
    assert Within(b, chunks[0]);
    forall g | g in p.live && g != h ensures Disjoint(p.live[g], b) {
      TopIsFree(p.live, p.chunks, g, Top(p.chunks[0]) + more);
      assert Disjoint(p.live[g], p.live[h]);
      PlacedBelow(p, g, h);
    }
    ReplaceSound(p.live, chunks, h, b);
  }

  /** A block that ends at the head's top: every other one with bytes of its own ends before it, or lies
      in another chunk. */
  lemma PlacedBelow(p: Pool, g: nat, h: nat)
    requires Sound(p) && g in p.live && h in p.live && g != h && p.chunks != []
    requires p.live[h].addr + p.live[h].size == Top(p.chunks[0])
    ensures var b, c := p.live[h], p.live[g];
            c.size == 0 || c.addr + c.size <= b.addr || End(p.chunks[0]) <= c.addr
  {
    EndsAtTop(p, h);
    assert Disjoint(p.live[g], p.live[h]);
    var i :| 0 <= i < |p.chunks| && Within(p.live[g], p.chunks[i]);
    if i > 0 {
      assert Apart(p.chunks[0].base, End(p.chunks[0]), p.chunks[i].base, End(p.chunks[i]));
    }
  }

  /** The bytes cut off for the call's block cover what was asked for. */
  predicate Fits(p: Pool, c: Call)
    requires Truthful(p, c)
  {
    match c
    case MallocCall(_, size, _) => size <= LIMIT
    case ReallocCall(h, newSize, _) =>
      var b := p.live[h];
      if b.size >= newSize then true
      else if GrowsInPlace(p, b.addr, b.size, newSize) then newSize - b.size <= LIMIT
      else newSize <= LIMIT
    case Write(_, _, _) => true
  }

  lemma DoSound(p: Pool, c: Call)
    requires Sound(p) && Truthful(p, c) && Fits(p, c)
    ensures Sound(Do(p, c))
  {
    hide SoundChunks, SoundBlocks, Align, Malloc;
    match c
    case MallocCall(h, size, base) => MallocSound(p, h, size, base);
    case ReallocCall(h, newSize, base) =>
      var b := p.live[h];
      NotNull(p, h);
      if b.size >= newSize {
        ShrinkSound(p, h, newSize);
      } else if GrowsInPlace(p, b.addr, b.size, newSize) {
        InPlaceSound(p, h, newSize);
      } else {
        MallocSound(p, h, newSize, base);
      }
    case Write(_, _, _) =>
  }

  /** A block that reaches past the top of the head chunk is in no chunk. */
  lemma OverTop(chunks: seq<Chunk>, b: Block)
    requires SoundChunks(chunks) && chunks != []
    requires chunks[0].base <= b.addr <= End(chunks[0]) && Top(chunks[0]) < b.addr + b.size
    ensures !Placed(b, chunks)
  {
    forall i | 0 <= i < |chunks| ensures !Within(b, chunks[i]) {
      if i > 0 {
        assert Apart(chunks[0].base, End(chunks[0]), chunks[i].base, End(chunks[i]));
      }
    }
  }

  /** A call keeps the blocks sound exactly when the rounded size covers the requested one. */
  lemma SoundExactly(p: Pool, c: Call)
    requires Sound(p) && Truthful(p, c)
    ensures Sound(Do(p, c)) <==> Fits(p, c)
  {
    if Fits(p, c) {
      DoSound(p, c);
    } else {
      var h := c.h;
      var b := Do(p, c).live[h];
      if c.ReallocCall? {
        NotNull(p, h);
      }
      if c.ReallocCall? && GrowsInPlace(p, p.live[h].addr, p.live[h].size, c.newSize) {
        AlignCovers(c.newSize - p.live[h].size);
        EndsAtTop(p, h);
      } else {
        AlignCovers(b.size);
      }
      hide Align;
      if SoundChunks(Do(p, c).chunks) {
        OverTop(Do(p, c).chunks, b);
      }
    }
  }

  /** Two requests to a new allocator, the first one byte above the limit: both get the same address. */
  lemma LargeBlocksOverlap(base: nat) returns (cs: seq<Call>)
    ensures var p := Pool([], DEFAULT_CHUNK_CAPACITY, map[], (_: nat) => 0);
            && Sound(p) && TruthfulRun(p, cs)
            && var q := Run(p, cs);
               0 in q.live && 1 in q.live && q.live[0].addr == q.live[1].addr
               && q.live[0].size == LIMIT + 1 && q.live[1].size == 8
  {
    cs := [MallocCall(0, LIMIT + 1, base), MallocCall(1, 8, base)];
    var p := Pool([], DEFAULT_CHUNK_CAPACITY, map[], (_: nat) => 0);
    assert Align(LIMIT + 1) == 0 && Align(8) == 8;
    var p1 := Do(p, cs[0]);
    assert p1.chunks == [Chunk(base, DEFAULT_CHUNK_CAPACITY, 0)];
    assert !NeedsChunk(p1.chunks, 8);
    hide Align;
    RunTwo(p, cs[0], cs[1]);
  }

  lemma RunTwo(p: Pool, a: Call, b: Call)
    requires Truthful(p, a) && Truthful(Do(p, a), b)
    ensures TruthfulRun(p, [a, b]) && Run(p, [a, b]) == Do(Do(p, a), b)
  {
    hide Do, Truthful;
    var p1 := Do(p, a);
    assert [a, b][1..] == [b] && [b][1..] == [];
    assert TruthfulRun(Do(p1, b), []);
    assert TruthfulRun(p1, [b]) && Run(p1, [b]) == Do(p1, b);
  }

  /** In-place growth happens only to the last block of the head chunk: the block lies in it, and every
      other live block with bytes of its own ends before this one or lies in another chunk. */
  lemma OnlyLastGrows(p: Pool, h: nat, newSize: nat)
    requires Sound(p) && h in p.live && GrowsInPlace(p, p.live[h].addr, p.live[h].size, newSize)
    ensures Within(p.live[h], p.chunks[0])
    ensures forall g | g in p.live && g != h && Within(p.live[g], p.chunks[0]) ::
              p.live[g].size == 0 || p.live[g].addr + p.live[g].size <= p.live[h].addr
  {
    EndsAtTop(p, h);
    forall g | g in p.live && g != h && Within(p.live[g], p.chunks[0])
      ensures p.live[g].size == 0 || p.live[g].addr + p.live[g].size <= p.live[h].addr
    {
      PlacedBelow(p, g, h);
    }
  }

  /** A live block stays where it is exactly if it gets no larger, or ends where the head chunk's free part begins
      and the head has room for what is added. */
  lemma StaysExactly(p: Pool, h: nat, newSize: nat, base: nat)
    requires Sound(p) && Truthful(p, ReallocCall(h, newSize, base)) && newSize <= LIMIT
    ensures var b := p.live[h];
            Realloc(p, b.addr, b.size, newSize, base).1 == b.addr
            <==> newSize <= b.size
                 || (&& b.addr + b.size == Top(p.chunks[0])
                     && Top(p.chunks[0]) + Align(newSize - b.size) <= End(p.chunks[0]))
  {
    NotNull(p, h);
    var b := p.live[h];
    if newSize > b.size {
      MovesAway(p, b, newSize, base);
    }
    hide Malloc, Sound, Align, Supplies;
  }

  /** A new block is none of the old ones. */
  lemma MovesAway(p: Pool, b: Block, n: nat, base: nat)
    requires SoundChunks(p.chunks) && Placed(b, p.chunks) && 0 < n <= LIMIT && Supplies(p, n, base)
    ensures p.chunks != [] && (Malloc(p, n, base).1 == b.addr ==> b.addr == Top(p.chunks[0]))
    ensures Malloc(p, n, base).1 == b.addr ==> b.size == 0 && !NeedsChunk(p.chunks, Align(n))
  {
    AlignCovers(n);
    var i :| 0 <= i < |p.chunks| && Within(b, p.chunks[i]);
    hide Align;
  }

  /** The block a realloc names keeps its bytes, in place or at its new address. */
  lemma ReallocKeeps(p: Pool, h: nat, newSize: nat, base: nat, i: nat)
    requires Sound(p) && h in p.live && i < p.live[h].size && i < newSize
    ensures var (_, addr, memory) := Realloc(p, p.live[h].addr, p.live[h].size, newSize, base);
            memory(addr + i) == p.memory(p.live[h].addr + i)
  {
    hide Malloc, GrowsInPlace, Copied, Sound, Grow, Align;
    NotNull(p, h);
    var b := p.live[h];
    if b.size < newSize && !GrowsInPlace(p, b.addr, b.size, newSize) {
      var (_, newBuffer) := Malloc(p, newSize, base);
      CopiedAt(p.memory, newBuffer, b.addr, b.size, i);
    }
  }

  lemma CopiedAt(memory: nat -> byte, dst: nat, src: nat, n: nat, i: nat)
    requires i < n
    ensures Copied(memory, dst, src, n)(dst + i) == memory(src + i)
  {
  }

  /** Every other block keeps its bytes too. */
  lemma ReallocLeaves(p: Pool, h: nat, newSize: nat, base: nat, g: nat, i: nat)
    requires Sound(p) && Truthful(p, ReallocCall(h, newSize, base)) && Fits(p, ReallocCall(h, newSize, base))
    requires g in p.live && g != h && i < p.live[g].size
    ensures var (_, _, memory) := Realloc(p, p.live[h].addr, p.live[h].size, newSize, base);
            memory(p.live[g].addr + i) == p.memory(p.live[g].addr + i)
  {
    var c := ReallocCall(h, newSize, base);
    DoSound(p, c);
    NotNull(p, h);
    assert Disjoint(Do(p, c).live[g], Do(p, c).live[h]);
    hide Malloc, GrowsInPlace, SoundChunks, SoundBlocks;
  }

  /** Whatever a call does to the chunks, the bytes of every live block stay, moved or not, up to the
      size it keeps; only a write changes its own byte. */
  lemma ContentsKept(p: Pool, c: Call, g: nat, i: nat)
    requires Sound(p) && Truthful(p, c) && Fits(p, c) && g in p.live
    requires i < p.live[g].size && i < Do(p, c).live[g].size
    ensures Do(p, c).memory(Do(p, c).live[g].addr + i)
         == if c.Write? && c.h == g && c.i == i then c.b else p.memory(p.live[g].addr + i)
  {
    hide Realloc, Malloc, SoundChunks, Placed, Fits, Supplies;
    match c
    case MallocCall(_, _, _) =>
    case Write(h, _, _) =>
      if h != g {
        assert Disjoint(p.live[g], p.live[h]);
      }
    case ReallocCall(h, newSize, base) =>
      if h == g {
        ReallocKeeps(p, h, newSize, base, i);
      } else {
        ReallocLeaves(p, h, newSize, base, g, i);
      }
  }

  lemma ShrinkSound(p: Pool, h: nat, newSize: nat)
    requires Sound(p) && h in p.live && newSize <= p.live[h].size
    ensures SoundBlocks(p.live[h := Block(p.live[h].addr, newSize)], p.chunks)
  {
    var b := Block(p.live[h].addr, newSize);
    var i :| 0 <= i < |p.chunks| && Within(p.live[h], p.chunks[i]);
    assert Within(b, p.chunks[i]);
    forall g | g in p.live && g != h ensures Disjoint(p.live[g], b) {
      assert Disjoint(p.live[g], p.live[h]);
    }
    ReplaceSound(p.live, p.chunks, h, b);
  }

  lemma ModestFits(p: Pool, c: Call)
    requires Truthful(p, c) && Modest(c)
    ensures Fits(p, c)
  {
    hide Align;
  }

  /** In every run of truthful calls of modest sizes, live blocks stay disjoint and inside their chunks. */
  lemma {:induction false} RunSound(p: Pool, cs: seq<Call>)
    requires Sound(p) && TruthfulRun(p, cs) && forall i | 0 <= i < |cs| :: Modest(cs[i])
    ensures Sound(Run(p, cs))
    decreases |cs|
  {
    hide Sound, Truthful, Do, Modest, Fits;
    if cs != [] {
      ModestFits(p, cs[0]);
      DoSound(p, cs[0]);
      RunSound(Do(p, cs[0]), cs[1..]);
    }
  }
}
