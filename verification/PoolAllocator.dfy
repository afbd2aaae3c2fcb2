/** RapidJSON's MemoryPoolAllocator over a flat memory: blocks are cut from the front chunk of a list
    and never given back one by one. */
module PoolAllocator {

  type byte = bv8

  /** RAPIDJSON_ALIGN: rounds up to a multiple of eight. */
  function Align(x: nat): (r: nat)
    ensures r % 8 == 0 && x <= r < x + 8
  {
    (x + 7) / 8 * 8
  }

  lemma AlignIs(x: nat)
    ensures x % 8 == 0 <==> Align(x) == x
  {
  }

  lemma AlignPositive(x: nat)
    requires x > 0
    ensures Align(x) > 0
  {
  }

  type Memory = nat -> byte

  function MemCpy(m: Memory, dst: nat, src: nat, n: nat): Memory {
    (a: nat) => if dst <= a < dst + n then m(src + (a - dst)) else m(a)
  }

  /** A block handed out: where it starts and its aligned size. */
  datatype Block = Block(ptr: nat, size: nat)

  predicate Apart(a: nat, m: nat, b: nat, n: nat) { a + m <= b || b + n <= a }

  class ChunkHeader {
    const base: nat
    var capacity: nat
    var size: nat
    var next: ChunkHeader?

    constructor (base: nat, capacity: nat, next: ChunkHeader?)
      ensures this.base == base && this.capacity == capacity && size == 0 && this.next == next
    {
      this.base, this.capacity, size, this.next := base, capacity, 0, next;
    }
  }

  /** What one chunk looks like, as a value. */
  datatype Chunk = Chunk(base: nat, capacity: nat, size: nat)

  ghost predicate ChunkOk(c: Chunk) { c.size <= c.capacity && c.size % 8 == 0 && c.base % 8 == 0 && c.base > 0 }

  /** A chunk occupies its header and its capacity. */
  ghost predicate ChunksApart(c: Chunk, d: Chunk, header: nat) {
    Apart(c.base, header + c.capacity, d.base, header + d.capacity)
  }

  ghost predicate Inside(b: Block, c: Chunk, header: nat) {
    c.base + header <= b.ptr && b.ptr + b.size <= c.base + header + c.size
  }

  ghost predicate Owned(b: Block, cs: seq<Chunk>, header: nat) {
    exists i :: 0 <= i < |cs| && Inside(b, cs[i], header)
  }

  /** Every block lies in the used part of one chunk, aligned, and apart from every other block. */
  ghost predicate Sound(cs: seq<Chunk>, blocks: set<Block>, header: nat) {
    && header % 8 == 0 && header > 0
    && (forall i :: 0 <= i < |cs| ==> ChunkOk(cs[i]))
    && (forall i, j :: 0 <= i < j < |cs| ==> ChunksApart(cs[i], cs[j], header))
    && (forall b :: b in blocks ==> Owned(b, cs, header) && b.ptr % 8 == 0 && b.size % 8 == 0 && b.size > 0)
    && (forall b, d :: b in blocks && d in blocks && b != d ==> Apart(b.ptr, b.size, d.ptr, d.size))
  }

  // ---------- values ----------

  function TotalSize(cs: seq<Chunk>): nat { if cs == [] then 0 else cs[0].size + TotalSize(cs[1..]) }
  function TotalCapacity(cs: seq<Chunk>): nat { if cs == [] then 0 else cs[0].capacity + TotalCapacity(cs[1..]) }

  /** The sizes never exceed the capacities. */
  lemma {:induction false} SizeWithinCapacity(cs: seq<Chunk>)
    requires forall i :: 0 <= i < |cs| ==> ChunkOk(cs[i])
    ensures TotalSize(cs) <= TotalCapacity(cs)
  {
    if cs != [] {
      assert ChunkOk(cs[0]);
      SizeWithinCapacity(cs[1..]);
    }
  }

  ghost predicate Fresh(base: nat, capacity: nat, cs: seq<Chunk>, header: nat) {
    base > 0 && base % 8 == 0 && forall i :: 0 <= i < |cs| ==> ChunksApart(Chunk(base, capacity, 0), cs[i], header)
  }

  /** A new chunk in front changes nothing for the blocks. */
  lemma AddChunkSound(cs: seq<Chunk>, blocks: set<Block>, header: nat, c: Chunk)
    requires Sound(cs, blocks, header) && Fresh(c.base, c.capacity, cs, header) && c.size == 0
    ensures Sound([c] + cs, blocks, header)
  {
    var ds := [c] + cs;
    forall b | b in blocks ensures Owned(b, ds, header) {
      var i :| 0 <= i < |cs| && Inside(b, cs[i], header);
      assert Inside(b, ds[i + 1], header);
    }
    forall i, j | 0 <= i < j < |ds| ensures ChunksApart(ds[i], ds[j], header) {
      if i > 0 {
        assert ChunksApart(cs[i - 1], cs[j - 1], header); }
          else { assert ChunksApart(Chunk(c.base, c.capacity, 0), cs[j - 1], header);
      }
    }
  }

  function Grow(cs: seq<Chunk>, n: nat): seq<Chunk>
    requires |cs| > 0
  {
    [cs[0].(size := cs[0].size + n)] + cs[1..]
  }

  /** n more bytes fit in the front chunk. */
  predicate HasRoom(cs: seq<Chunk>, n: nat) { cs != [] && cs[0].size + n <= cs[0].capacity }

  /** A block of aligned size original keeps its place when it gets aligned size size: it does not grow,
      or it is the last one cut and the front chunk has room for the rest. */
  predicate InPlace(cs: seq<Chunk>, header: nat, ptr: nat, original: nat, size: nat) {
    original >= size || (cs != [] && ptr + original == End(cs, header) && HasRoom(cs, size - original))
  }

  function Max(a: nat, b: nat): nat { if a < b then b else a }

  function End(cs: seq<Chunk>, header: nat): nat
    requires |cs| > 0
  {
    cs[0].base + header + cs[0].size
  }

  lemma GrowOwned(cs: seq<Chunk>, n: nat, header: nat, b: Block)
    requires |cs| > 0 && Owned(b, cs, header)
    ensures Owned(b, Grow(cs, n), header)
  {
    var i :| 0 <= i < |cs| && Inside(b, cs[i], header);
    assert Inside(b, Grow(cs, n)[i], header);
  }

  /** No block reaches into the unused part of the front chunk. */
  lemma BeyondBlocks(cs: seq<Chunk>, blocks: set<Block>, header: nat, n: nat, b: Block)
    requires Sound(cs, blocks, header) && |cs| > 0 && b in blocks && cs[0].size + n <= cs[0].capacity
    ensures Apart(End(cs, header), n, b.ptr, b.size)
  {
    var i :| 0 <= i < |cs| && Inside(b, cs[i], header);
    if i > 0 {
      assert ChunksApart(cs[0], cs[i], header);
      assert ChunkOk(cs[i]);
    }
  }

  lemma GrowChunks(cs: seq<Chunk>, blocks: set<Block>, header: nat, n: nat)
    requires Sound(cs, blocks, header) && |cs| > 0 && n % 8 == 0 && cs[0].size + n <= cs[0].capacity
    ensures var ds := Grow(cs, n);
      && (forall i :: 0 <= i < |ds| ==> ChunkOk(ds[i]))
      && (forall i, j :: 0 <= i < j < |ds| ==> ChunksApart(ds[i], ds[j], header))
  {
    var ds := Grow(cs, n);
    assert ChunkOk(cs[0]);
    forall i, j | 0 <= i < j < |ds|
      ensures ChunksApart(ds[i], ds[j], header)
    {
      assert ChunksApart(cs[i], cs[j], header);
    }
  }

  /** Cutting a block off the front chunk. */
  lemma MallocSound(cs: seq<Chunk>, blocks: set<Block>, header: nat, n: nat)
    requires Sound(cs, blocks, header) && |cs| > 0 && n % 8 == 0 && n > 0 && cs[0].size + n <= cs[0].capacity
    ensures var b := Block(End(cs, header), n); b !in blocks && Sound(Grow(cs, n), blocks + {b}, header)
  {
    hide Grow, ChunkOk, ChunksApart, Inside, End, Apart;
    var b, ds := Block(End(cs, header), n), Grow(cs, n);
    GrowChunks(cs, blocks, header, n);
    EndOwned(cs, header, n);
    forall d | d in blocks
      ensures Apart(b.ptr, b.size, d.ptr, d.size) && Apart(d.ptr, d.size, b.ptr, b.size) && Owned(d, ds, header)
      ensures d != b
    {
      BeyondBlocks(cs, blocks, header, n, d);
      ApartOther(b, d);
      GrowOwned(cs, n, header, d);
    }
  }

  lemma ApartOther(b: Block, d: Block)
    requires Apart(b.ptr, b.size, d.ptr, d.size) && b.size > 0
    ensures Apart(d.ptr, d.size, b.ptr, b.size) && b != d
  {
  }

  lemma EndOwned(cs: seq<Chunk>, header: nat, n: nat)
    requires |cs| > 0 && ChunkOk(cs[0]) && header % 8 == 0
    ensures Owned(Block(End(cs, header), n), Grow(cs, n), header) && End(cs, header) % 8 == 0
  {
    assert Inside(Block(End(cs, header), n), Grow(cs, n)[0], header);
  }

  /** A block that ends where the used part of the front chunk ends is the last one cut off it. */
  lemma LastBlock(cs: seq<Chunk>, blocks: set<Block>, header: nat, b: Block, size: nat)
    requires Sound(cs, blocks, header) && |cs| > 0 && b in blocks && size <= b.size && b.ptr + size == End(cs, header)
    ensures size == b.size && Inside(b, cs[0], header)
  {
    var i :| 0 <= i < |cs| && Inside(b, cs[i], header);
    assert ChunkOk(cs[i]) && ChunkOk(cs[0]) && (i > 0 ==> ChunksApart(cs[0], cs[i], header));
  }

  /** Growing the last block in place. */
  lemma ExpandSound(cs: seq<Chunk>, blocks: set<Block>, header: nat, b: Block, n: nat)
    requires Sound(cs, blocks, header) && |cs| > 0 && b in blocks && b.ptr + b.size == End(cs, header)
    requires n % 8 == 0 && cs[0].size + n <= cs[0].capacity
    ensures Sound(Grow(cs, n), blocks - {b} + {Block(b.ptr, b.size + n)}, header)
  {
    hide Grow, ChunkOk, ChunksApart, Inside, End, Apart;
    var ds, e := Grow(cs, n), Block(b.ptr, b.size + n);
    LastBlock(cs, blocks, header, b, b.size);
    GrowChunks(cs, blocks, header, n);
    LastGrows(cs, header, b, n);
    forall d | d in blocks && d != b
      ensures Apart(e.ptr, e.size, d.ptr, d.size) && Apart(d.ptr, d.size, e.ptr, e.size) && Owned(d, ds, header)
    {
      BeyondBlocks(cs, blocks, header, n, d);
      BlocksApart(cs, blocks, header, b, d);
      ApartJoin(b, n, End(cs, header), d);
      GrowOwned(cs, n, header, d);
    }
    Even(b.size, n);
  }

  lemma Even(a: nat, b: nat)
    requires a % 8 == 0 && b % 8 == 0
    ensures (a + b) % 8 == 0
  {
  }

  lemma ApartJoin(b: Block, n: nat, end: nat, d: Block)
    requires end == b.ptr + b.size && Apart(end, n, d.ptr, d.size) && Apart(b.ptr, b.size, d.ptr, d.size) && d.size > 0
    requires b.size > 0
    ensures Apart(b.ptr, b.size + n, d.ptr, d.size) && Apart(d.ptr, d.size, b.ptr, b.size + n)
  {
  }

  lemma LastGrows(cs: seq<Chunk>, header: nat, b: Block, n: nat)
    requires |cs| > 0 && Inside(b, cs[0], header)
    ensures Owned(Block(b.ptr, b.size + n), Grow(cs, n), header)
  {
    assert Inside(Block(b.ptr, b.size + n), Grow(cs, n)[0], header);
  }

  // ---------- the allocator ----------

  class MemoryPoolAllocator {
    var chunkHead_: ChunkHeader?
    const chunk_capacity_: nat
    const userBuffer_: ChunkHeader?
    const header: nat

    /** The machine memory, the list of chunks from the front one on, and the blocks handed out. */
    ghost var memory: Memory
    ghost var list: seq<ChunkHeader>
    ghost var blocks: set<Block>

    ghost predicate Linked()
      reads this, list
    {
      && (list == [] <==> chunkHead_ == null) && (list != [] ==> chunkHead_ == list[0])
      && Chain(list)
      && (userBuffer_ != null ==> list != [] && list[|list| - 1] == userBuffer_)
      && (forall i :: 0 <= i < |list| - 1 ==> list[i] != userBuffer_)
    }

    ghost function Chunks(): (cs: seq<Chunk>)
      reads this, list
      ensures |cs| == |list| && forall i :: 0 <= i < |cs| ==>
        cs[i] == Chunk(list[i].base, list[i].capacity, list[i].size)
    {
      ChunksOf(list)
    }

    ghost predicate Valid()
      reads this, list
    {
      Linked() && Sound(Chunks(), blocks, header)
    }

    constructor (chunkSize: nat, header: nat, memory: Memory)
      requires header % 8 == 0 && header > 0
      ensures Valid() && blocks == {} && this.header == header && this.memory == memory && chunk_capacity_ == chunkSize
    {
      chunkHead_, chunk_capacity_, userBuffer_, this.header := null, chunkSize, null, header;
      this.memory, list, blocks := memory, [], {};
    }

    /** A user-supplied buffer becomes the first chunk. Its capacity is what is left behind the plain
        header, whatever the size of that; blocks will start behind the aligned one. */
    constructor WithBuffer(buffer: nat, size: nat, chunkSize: nat, sizeofHeader: nat, memory: Memory)
      requires 0 < sizeofHeader < size && buffer > 0 && buffer % 8 == 0
      ensures Valid() && blocks == {} && header == Align(sizeofHeader) && this.memory == memory
      ensures chunk_capacity_ == chunkSize
      ensures Chunks() == [Chunk(buffer, size - sizeofHeader, 0)] && forall i :: 0 <= i < |list| ==> fresh(list[i])
    {
      var chunk := new ChunkHeader(buffer, size - sizeofHeader, null);
      chunkHead_, chunk_capacity_, userBuffer_, this.header := chunk, chunkSize, chunk, Align(sizeofHeader);
      this.memory, list, blocks := memory, [chunk], {};
    }

    /** Gives every chunk back but the user's buffer, which becomes empty. */
    method Clear()
      requires Valid()
      modifies this`chunkHead_, this`list, this`blocks, userBuffer_
      ensures Valid() && blocks == {} && memory == old(memory)
      ensures list == if userBuffer_ == null then [] else [userBuffer_]
      ensures TotalSize(Chunks()) == 0
    {
      hide Sound, Chain;
      NoBlocks(Chunks(), blocks, header);
      blocks := {};
      while chunkHead_ != null && chunkHead_ != userBuffer_
        invariant Valid() && blocks == {}
        decreases |list|
      {
        DropChunk();
      }
      if chunkHead_ != null && chunkHead_ == userBuffer_ {
        EmptyBuffer();
      }
    }

    /** Gives the front chunk back. */
    method DropChunk()
      requires Valid() && blocks == {} && chunkHead_ != null && chunkHead_ != userBuffer_
      modifies this`chunkHead_, this`list
      ensures Valid() && blocks == {} && list == old(list)[1..]
    {
      hide Sound;
      ghost var cs := Chunks();
      FewerChunks(cs, header);
      DropFront(list);
      assert Link(list, 0);
      chunkHead_ := chunkHead_.next;
      list := list[1..];
      assert Chunks() == cs[1..];
      assert Chain(list);
    }

    method EmptyBuffer()
      requires Valid() && blocks == {} && chunkHead_ != null && chunkHead_ == userBuffer_
      modifies userBuffer_`size
      ensures Valid() && blocks == {} && list == [userBuffer_] && TotalSize(Chunks()) == 0
    {
      hide Sound;
      ghost var cs := Chunks();
      EmptyChunk(cs, header);
      chunkHead_.size := 0;
      assert Chunks() == [cs[0].(size := 0)];
      forall k | 0 <= k < |list| ensures Link(list, k) { assert old(Link(list, k)); }
    }

    method Capacity() returns (capacity: nat)
      requires Valid()
      ensures capacity == TotalCapacity(Chunks())
    {
      hide Sound;
      capacity := 0;
      var c := chunkHead_;
      ghost var i := 0;
      while c != null
        invariant 0 <= i <= |list| && (c == if i < |list| then list[i] else null)
        invariant capacity + TotalCapacity(ChunksOf(list[i..])) == TotalCapacity(Chunks())
        decreases |list| - i
      {
        assert c == list[i] && Link(list, i);
        NextChunk(list, i);
        capacity := capacity + c.capacity;
        c := c.next;
        i := i + 1;
      }
    }

    /** Size() never exceeds Capacity(). */
    method Size() returns (size: nat)
      requires Valid()
      ensures size == TotalSize(Chunks()) <= TotalCapacity(Chunks())
    {
      SizeWithinCapacity(Chunks());
      hide Sound;
      size := 0;
      var c := chunkHead_;
      ghost var i := 0;
      while c != null
        invariant 0 <= i <= |list| && (c == if i < |list| then list[i] else null)
        invariant size + TotalSize(ChunksOf(list[i..])) == TotalSize(Chunks())
        decreases |list| - i
      {
        assert c == list[i] && Link(list, i);
        NextChunk(list, i);
        size := size + c.size;
        c := c.next;
        i := i + 1;
      }
    }

    /** Puts a new chunk in front of the list; granted is what the base allocator returned, or 0. */
    method AddChunk(capacity: nat, granted: nat) returns (ok: bool)
      requires Valid() && (granted != 0 ==> Fresh(granted, capacity, Chunks(), header))
      modifies this`chunkHead_, this`list
      ensures Valid() && ok == (granted != 0)
      ensures Chunks() == if ok then [Chunk(granted, capacity, 0)] + old(Chunks()) else old(Chunks())
      ensures ok ==> fresh(chunkHead_) && list == [chunkHead_] + old(list)
      ensures !ok ==> list == old(list) && chunkHead_ == old(chunkHead_)
    {
      hide Sound, Chain, Fresh, ChunksOf;
      if granted == 0 { return false; }
      AddChunkSound(Chunks(), blocks, header, Chunk(granted, capacity, 0));
      ghost var was := list;
      var chunk := new ChunkHeader(granted, capacity, chunkHead_);
      chunkHead_ := chunk;
      list := [chunk] + list;
      LinkFront(was, chunk, list);
      UserStaysLast(was, chunk, list);
      ChunksInFront(was, chunk);
      return true;
    }

    lemma UserStaysLast(was: seq<ChunkHeader>, c: ChunkHeader, all: seq<ChunkHeader>)
      requires all == [c] + was && c != userBuffer_
      requires userBuffer_ != null ==> was != [] && was[|was| - 1] == userBuffer_
      requires forall i :: 0 <= i < |was| - 1 ==> was[i] != userBuffer_
      ensures userBuffer_ != null ==> all[|all| - 1] == userBuffer_
      ensures forall i :: 0 <= i < |all| - 1 ==> all[i] != userBuffer_
    {
      forall i | 0 <= i < |all| - 1 ensures all[i] != userBuffer_ { if i > 0 { assert all[i] == was[i - 1]; } }
    }

    /** Cuts an aligned block off the front chunk, adding a chunk if there is no room. */
    method Malloc(size: nat, granted: nat) returns (buffer: nat)
      requires Valid()
      requires granted != 0 ==> Fresh(granted, ChunkCapacity(Align(size)), Chunks(), header)
      modifies this`chunkHead_, this`list, this`blocks, list
      ensures Valid() && memory == old(memory)
      ensures buffer == 0 <==> size == 0 || (granted == 0 && !HasRoom(old(Chunks()), Align(size)))
      ensures buffer == 0 ==> blocks == old(blocks) && Chunks() == old(Chunks())
      ensures buffer != 0 ==>
        Block(buffer, Align(size)) !in old(blocks) && blocks == old(blocks) + {Block(buffer, Align(size))}
      ensures buffer != 0 ==>
        var cs := if HasRoom(old(Chunks()), Align(size)) then old(Chunks())
                  else [Chunk(granted, Max(chunk_capacity_, Align(size)), 0)] + old(Chunks());
        |cs| > 0 && buffer == End(cs, header) && Chunks() == Grow(cs, Align(size))
    {
      hide Sound, Fresh, Chain, Align;
      if size == 0 { return 0; }
      var n := Align(size);
      AlignPositive(size);
      if chunkHead_ == null || chunkHead_.size + n > chunkHead_.capacity {
        var ok := AddChunk(ChunkCapacity(n), granted);
        if !ok { return 0; }
      }
      buffer := Cut(n);
    }

    function ChunkCapacity(size: nat): nat { if chunk_capacity_ > size then chunk_capacity_ else size }

    /** The block in front of everything unused in the front chunk. */
    method Cut(n: nat) returns (buffer: nat)
      requires Valid() && chunkHead_ != null && n > 0 && n % 8 == 0 && chunkHead_.size + n <= chunkHead_.capacity
      modifies this`blocks, chunkHead_`size
      ensures Valid() && buffer != 0 && buffer == old(End(Chunks(), header))
      ensures Block(buffer, n) !in old(blocks) && blocks == old(blocks) + {Block(buffer, n)}
      ensures Chunks() == Grow(old(Chunks()), n)
    {
      hide Sound, Linked, Grow, End;
      ghost var cs := Chunks();
      FrontIs(cs);
      MallocSound(cs, blocks, header, n);
      HeaderPositive(cs, blocks, header);
      EndIs(cs, header);
      buffer := chunkHead_.base + header + chunkHead_.size;
      blocks := blocks + {Block(buffer, n)};
      assert Linked() by { LinkedKept(); }
      GrowFront(n);
    }

    lemma FrontIs(cs: seq<Chunk>)
      requires Linked() && chunkHead_ != null && cs == Chunks()
      ensures |cs| > 0 && cs[0] == Chunk(chunkHead_.base, chunkHead_.capacity, chunkHead_.size)
    {
    }

    /** Linked does not depend on the blocks. */
    twostate lemma LinkedKept()
      requires old(Linked()) && list == old(list) && chunkHead_ == old(chunkHead_)
      requires forall i :: 0 <= i < |list| ==> list[i].next == old(list[i].next)
      ensures Linked()
    {
      forall i | 0 <= i < |list| ensures Link(list, i) { assert old(Link(list, i)); }
    }

    /** Takes n more bytes of the front chunk. */
    method GrowFront(n: nat)
      requires Linked() && chunkHead_ != null
      modifies chunkHead_`size
      ensures Linked() && |old(Chunks())| > 0 && Chunks() == Grow(old(Chunks()), n)
    {
      hide Chain;
      ghost var cs := Chunks();
      FrontIs(cs);
      FrontDiffers(list);
      chunkHead_.size := chunkHead_.size + n;
      assert Linked() by { LinkedKept(); }
      FrontGrown(list, cs, n);
    }

    /** Grows the last block of the front chunk. */
    method Expand(increment: nat, ghost b: Block)
      requires Valid() && chunkHead_ != null && b in blocks && b.ptr + b.size == End(Chunks(), header)
      requires increment % 8 == 0 && chunkHead_.size + increment <= chunkHead_.capacity
      modifies this`blocks, chunkHead_`size
      ensures Valid() && blocks == old(blocks) - {b} + {Block(b.ptr, b.size + increment)}
    {
      hide Sound, Linked, Grow, End;
      ghost var cs := Chunks();
      FrontIs(cs);
      ExpandSound(cs, blocks, header, b, increment);
      blocks := blocks - {b} + {Block(b.ptr, b.size + increment)};
      assert Linked() by { LinkedKept(); }
      GrowFront(increment);
    }

    /** Resizes a block: in place if it shrinks or is the last one of the front chunk with room behind
        it, else by copying. Its first originalSize bytes are kept, and no other block is touched. */
    method Realloc(originalPtr: nat, originalSize: nat, newSize: nat, granted: nat, ghost b: Block)
      returns (newPtr: nat)
      requires Valid() && (originalPtr != 0 ==> b in blocks && b.ptr == originalPtr && Align(originalSize) <= b.size)
      requires granted != 0 ==> Fresh(granted, ChunkCapacity(Align(newSize)), Chunks(), header)
      modifies this`chunkHead_, this`list, this`blocks, this`memory, list
      ensures Valid()
      ensures newPtr == 0 ==> blocks == old(blocks) && memory == old(memory)
      ensures newPtr == 0 <==>
        (newSize == 0 ||
         (granted == 0 && !HasRoom(old(Chunks()), Align(newSize)) &&
          (originalPtr == 0 || !InPlace(old(Chunks()), header, originalPtr, Align(originalSize), Align(newSize)))))
      ensures newPtr != 0 ==>
        if originalPtr != 0 && InPlace(old(Chunks()), header, originalPtr, Align(originalSize), Align(newSize))
        then newPtr == originalPtr && memory == old(memory)
          && blocks == old(blocks) - {b} + {Block(originalPtr, Max(b.size, Align(newSize)))}
        else (originalPtr != 0 ==> newPtr != originalPtr) && blocks == old(blocks) + {Block(newPtr, Align(newSize))}
      ensures if originalPtr == 0 then memory == old(memory)
              else newPtr != 0 ==> Copied(old(memory), memory, newPtr, originalPtr, originalSize)
      ensures forall d :: d in old(blocks) ==> Untouched(old(memory), memory, d)
    {
      hide Sound, Fresh, End;
      if originalPtr == 0 {
        newPtr := Malloc(newSize, granted);
        return;
      }
      if newSize == 0 { return 0; }
      var original, size := Align(originalSize), Align(newSize);
      if original >= size { return originalPtr; }
      ghost var cs := Chunks();
      FrontChunk(cs, blocks, header, b);
      EndIs(cs, header);
      if originalPtr + original == chunkHead_.base + header + chunkHead_.size {
        LastBlock(cs, blocks, header, b, original);
        var increment := size - original;
        if chunkHead_.size + increment <= chunkHead_.capacity {
          Expand(increment, b);
          return originalPtr;
        }
      }
      AlignIs(size);
      newPtr := Move(originalPtr, original, size, granted, b);
    }

    /** A new block with the contents of an old one at its start. */
    method Move(originalPtr: nat, original: nat, size: nat, granted: nat, ghost b: Block) returns (newPtr: nat)
      requires Valid() && b in blocks && b.ptr == originalPtr && original <= b.size && original < size
      requires Align(size) == size
      requires granted != 0 ==> Fresh(granted, ChunkCapacity(size), Chunks(), header)
      modifies this`chunkHead_, this`list, this`blocks, this`memory, list
      ensures Valid() && (newPtr == 0 ==> blocks == old(blocks) && memory == old(memory))
      ensures newPtr == 0 <==> granted == 0 && !HasRoom(old(Chunks()), size)
      ensures newPtr != 0 ==> newPtr != originalPtr && blocks == old(blocks) + {Block(newPtr, size)}
      ensures newPtr != 0 ==> Copied(old(memory), memory, newPtr, originalPtr, original)
      ensures forall d :: d in old(blocks) ==> Untouched(old(memory), memory, d)
    {
      hide *;
      ghost var was, m := blocks, memory;
      NothingTouched(m, was);
      newPtr := Malloc(size, granted);
      if newPtr != 0 {
        SoundNow();
        CopyFacts(Chunks(), blocks, header, m, was, Block(newPtr, size), b, original);
        CopyBytes(newPtr, originalPtr, original);
      }
    }

    lemma SoundNow()
      requires Valid()
      ensures Sound(Chunks(), blocks, header)
    {
    }

    /** memcpy. */
    method CopyBytes(dst: nat, src: nat, n: nat)
      requires Valid()
      modifies this`memory
      ensures Valid() && memory == MemCpy(old(memory), dst, src, n)
    {
      hide Sound, Chain, MemCpy;
      memory := MemCpy(memory, dst, src, n);
      assert Linked() by { LinkedKept(); }
    }
  }

  /** The blocks of an allocator whose last chunk is a user's buffer of that many bytes. */
  ghost predicate OverBuffer(cs: seq<Chunk>, blocks: set<Block>, sizeofHeader: nat, buffer: nat, size: nat) {
    && size > sizeofHeader && |cs| > 0 && Sound(cs, blocks, Align(sizeofHeader))
    && cs[|cs| - 1].base == buffer && cs[|cs| - 1].capacity == size - sizeofHeader
  }

  /** No block handed out in the buffer reaches beyond its end. */
  ghost predicate WithinBuffer(cs: seq<Chunk>, blocks: set<Block>, header: nat, buffer: nat, size: nat) {
    |cs| > 0 ==> forall b :: b in blocks && Inside(b, cs[|cs| - 1], header) ==> b.ptr + b.size <= buffer + size
  }

  /** Because the capacity counts the plain header but blocks start behind the aligned one, every sound
      allocator keeps its blocks inside the buffer exactly if the header size is a multiple of 8. */
  lemma HeaderAlignedIff(sizeofHeader: nat)
    requires sizeofHeader > 0
    ensures sizeofHeader % 8 == 0 <==>
      forall cs, blocks, buffer, size :: OverBuffer(cs, blocks, sizeofHeader, buffer, size) ==>
        WithinBuffer(cs, blocks, Align(sizeofHeader), buffer, size)
  {
    AlignIs(sizeofHeader);
    if sizeofHeader % 8 == 0 {
      forall cs, blocks, buffer, size | OverBuffer(cs, blocks, sizeofHeader, buffer, size)
        ensures WithinBuffer(cs, blocks, Align(sizeofHeader), buffer, size)
      {
        StaysWithin(cs, blocks, sizeofHeader, buffer, size);
      }
    } else {
      var b := Block(8 + Align(sizeofHeader), 8);
      var cs := [Chunk(8, 8, 8)];
      OneBlockSound(Align(sizeofHeader), b);
      assert OverBuffer(cs, {b}, sizeofHeader, 8, sizeofHeader + 8);
      assert b in {b} && Inside(b, cs[0], Align(sizeofHeader));
      assert !WithinBuffer(cs, {b}, Align(sizeofHeader), 8, sizeofHeader + 8);
    }
  }

  lemma StaysWithin(cs: seq<Chunk>, blocks: set<Block>, sizeofHeader: nat, buffer: nat, size: nat)
    requires OverBuffer(cs, blocks, sizeofHeader, buffer, size) && Align(sizeofHeader) == sizeofHeader
    ensures WithinBuffer(cs, blocks, Align(sizeofHeader), buffer, size)
  {
    assert ChunkOk(cs[|cs| - 1]);
  }

  lemma OneBlockSound(header: nat, b: Block)
    requires header > 0 && header % 8 == 0 && b == Block(8 + header, 8)
    ensures Sound([Chunk(8, 8, 8)], {b}, header)
  {
    assert Inside(b, [Chunk(8, 8, 8)][0], header);
  }

  /** Such an allocator is made in two calls: a buffer of one block behind the plain header, and the
      first allocation from it. */
  method Overrun(buffer: nat, sizeofHeader: nat, memory: Memory) returns (allocator: MemoryPoolAllocator, p: nat)
    requires sizeofHeader > 0 && sizeofHeader % 8 != 0 && buffer > 0 && buffer % 8 == 0
    ensures allocator.Valid() && allocator.blocks == {Block(p, 8)}
    ensures buffer <= p && buffer + (sizeofHeader + 8) < p + 8
  {
    hide Sound;
    AlignIs(sizeofHeader);
    EightAligned();
    allocator := new MemoryPoolAllocator.WithBuffer(buffer, sizeofHeader + 8, 0, sizeofHeader, memory);
    p := allocator.Malloc(8, 0);
  }

  lemma EightAligned()
    ensures Align(8) == 8
  {
  }

  /** The n bytes at dst are what the n bytes at src were. */
  ghost predicate Copied(m: Memory, w: Memory, dst: nat, src: nat, n: nat) {
    forall x: nat :: dst <= x < dst + n ==> w(x) == m(src + (x - dst))
  }

  ghost predicate Untouched(m: Memory, w: Memory, d: Block) {
    forall x: nat :: d.ptr <= x < d.ptr + d.size ==> w(x) == m(x)
  }

  lemma NoBlocks(cs: seq<Chunk>, blocks: set<Block>, header: nat)
    requires Sound(cs, blocks, header)
    ensures Sound(cs, {}, header)
  {
  }

  lemma FewerChunks(cs: seq<Chunk>, header: nat)
    requires Sound(cs, {}, header) && |cs| > 0
    ensures Sound(cs[1..], {}, header)
  {
    forall i, j | 0 <= i < j < |cs| - 1
      ensures ChunksApart(cs[1..][i], cs[1..][j], header)
    {
      assert ChunksApart(cs[i + 1], cs[j + 1], header);
    }
  }

  lemma EmptyChunk(cs: seq<Chunk>, header: nat)
    requires Sound(cs, {}, header) && |cs| == 1
    ensures Sound([cs[0].(size := 0)], {}, header) && TotalSize([cs[0].(size := 0)]) == 0
  {
    assert ChunkOk(cs[0]);
  }

  lemma DropFront(list: seq<ChunkHeader>)
    requires Chain(list) && |list| > 0
    ensures Chain(list[1..])
  {
    var rest := list[1..];
    forall i | 0 <= i < |rest| ensures Link(rest, i) { assert Link(list, i + 1); }
    forall i, j | 0 <= i < j < |rest| ensures rest[i] != rest[j] { assert list[i + 1] != list[j + 1]; }
  }

  lemma NothingTouched(m: Memory, blocks: set<Block>)
    ensures forall d :: d in blocks ==> Untouched(m, m, d)
  {
  }

  /** Copying into a new block keeps every other one. */
  lemma CopyFacts(cs: seq<Chunk>, blocks: set<Block>, header: nat, m: Memory, was: set<Block>, added: Block, b: Block,
                  n: nat)
    requires Sound(cs, blocks, header) && blocks == was + {added} && added !in was && b in was && n <= b.size
    requires n <= added.size
    ensures var w := MemCpy(m, added.ptr, b.ptr, n);
      Copied(m, w, added.ptr, b.ptr, n) && forall d :: d in was ==> Untouched(m, w, d)
    ensures added.ptr != b.ptr
  {
    hide Sound, MemCpy, Copied, Untouched, Apart;
    BlocksApart(cs, blocks, header, added, b);
    CopyLands(m, added.ptr, b.ptr, n);
    forall d | d in was ensures Untouched(m, MemCpy(m, added.ptr, b.ptr, n), d) {
      BlocksApart(cs, blocks, header, added, d);
      CopyMisses(m, added, b.ptr, n, d);
    }
  }

  lemma CopyLands(m: Memory, dst: nat, src: nat, n: nat)
    ensures Copied(m, MemCpy(m, dst, src, n), dst, src, n)
  {
  }

  lemma CopyMisses(m: Memory, added: Block, src: nat, n: nat, d: Block)
    requires Apart(added.ptr, added.size, d.ptr, d.size) && n <= added.size
    ensures Untouched(m, MemCpy(m, added.ptr, src, n), d)
  {
  }

  lemma FrontChunk(cs: seq<Chunk>, blocks: set<Block>, header: nat, b: Block)
    requires Sound(cs, blocks, header) && b in blocks
    ensures |cs| > 0
  {
  }

  lemma EndIs(cs: seq<Chunk>, header: nat)
    requires |cs| > 0
    ensures End(cs, header) == cs[0].base + header + cs[0].size
  {
  }

  lemma BlocksApart(cs: seq<Chunk>, blocks: set<Block>, header: nat, b: Block, d: Block)
    requires Sound(cs, blocks, header) && b in blocks && d in blocks && b != d
    ensures Apart(b.ptr, b.size, d.ptr, d.size) && b.ptr != d.ptr
  {
  }

  ghost predicate Link(list: seq<ChunkHeader>, i: int)
    requires 0 <= i < |list|
    reads list
  {
    list[i].next == if i + 1 < |list| then list[i + 1] else null
  }

  ghost predicate Chain(list: seq<ChunkHeader>)
    reads list
  {
    && (forall i :: 0 <= i < |list| ==> Link(list, i))
    && (forall i, j :: 0 <= i < j < |list| ==> list[i] != list[j])
  }

  lemma LinkFront(list: seq<ChunkHeader>, c: ChunkHeader, all: seq<ChunkHeader>)
    requires Chain(list) && c !in list && c.next == (if list == [] then null else list[0]) && all == [c] + list
    ensures Chain(all)
  {
    forall i | 0 <= i < |all| ensures Link(all, i) {
      if i > 0 { assert all[i] == list[i - 1] && Link(list, i - 1); }
    }
    forall i, j | 0 <= i < j < |all| ensures all[i] != all[j] {
      assert all[j] == list[j - 1] && (i > 0 ==> all[i] == list[i - 1]);
    }
  }

  ghost function ChunksOf(list: seq<ChunkHeader>): (cs: seq<Chunk>)
    reads list
    ensures |cs| == |list| && forall i :: 0 <= i < |cs| ==> cs[i] == Chunk(list[i].base, list[i].capacity, list[i].size)
  {
    if list == [] then [] else [Chunk(list[0].base, list[0].capacity, list[0].size)] + ChunksOf(list[1..])
  }

  lemma ChunksInFront(list: seq<ChunkHeader>, c: ChunkHeader)
    ensures ChunksOf([c] + list) == [Chunk(c.base, c.capacity, c.size)] + ChunksOf(list)
  {
    assert ([c] + list)[1..] == list;
  }

  lemma FrontDiffers(list: seq<ChunkHeader>)
    requires Chain(list)
    ensures forall i :: 1 <= i < |list| ==> list[i] != list[0]
  {
  }

  lemma FrontGrown(list: seq<ChunkHeader>, cs: seq<Chunk>, n: nat)
    requires |cs| == |list| > 0 && cs[0].size + n == list[0].size && cs[0].base == list[0].base
    requires cs[0].capacity == list[0].capacity
    requires forall i :: 1 <= i < |cs| ==> cs[i] == Chunk(list[i].base, list[i].capacity, list[i].size)
    ensures ChunksOf(list) == Grow(cs, n)
  {
  }

  lemma NextChunk(list: seq<ChunkHeader>, i: nat)
    requires i < |list|
    ensures ChunksOf(list[i..]) == [Chunk(list[i].base, list[i].capacity, list[i].size)] + ChunksOf(list[i + 1..])
    ensures TotalCapacity(ChunksOf(list[i..])) == list[i].capacity + TotalCapacity(ChunksOf(list[i + 1..]))
    ensures TotalSize(ChunksOf(list[i..])) == list[i].size + TotalSize(ChunksOf(list[i + 1..]))
  {
    assert list[i..][1..] == list[i + 1..];
  }

  lemma HeaderPositive(cs: seq<Chunk>, blocks: set<Block>, header: nat)
    requires Sound(cs, blocks, header)
    ensures header > 0
  {
  }
}
