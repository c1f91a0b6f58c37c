/** `MemoryPoolAllocator`, statement by statement. */
module Pool {
  import opened PoolSpec

  /** The allocator. What `malloc` would answer is a parameter, and so is the memory's initial state. */
  class MemoryPoolAllocator {
    const chunkCapacity: nat
    const userBuffer: nat
    var chunks: seq<Chunk>
    var mem: Memory
    ghost var live: seq<Block>

    ghost predicate Valid()
      reads this
    {
      && Good(chunks, live)
      && (userBuffer != 0 ==> chunks[|chunks| - 1].base == userBuffer)
    }

    constructor (chunkCapacity: nat, given: nat, mem: Memory)
      requires given > 0
      ensures Valid() && this.chunkCapacity == chunkCapacity && userBuffer == 0
      ensures chunks == [Chunk(given, chunkCapacity, 0)] && live == [] && this.mem == mem
    {
      this.chunkCapacity := chunkCapacity;
      userBuffer := 0;
      chunks := [Chunk(given, chunkCapacity, 0)];
      this.mem := mem;
      live := [];
    }

    /** The user's buffer, header included, is the first chunk. */
    constructor FromBuffer(buffer: nat, size: nat, chunkCapacity: nat, mem: Memory)
      requires buffer > 0 && size > HEADER
      ensures Valid() && this.chunkCapacity == chunkCapacity && userBuffer == buffer
      ensures chunks == [Chunk(buffer, size - HEADER, 0)] && chunks[0].End() == buffer + size && live == [] && this.mem == mem
    {
      this.chunkCapacity := chunkCapacity;
      userBuffer := buffer;
      chunks := [Chunk(buffer, size - HEADER, 0)];
      this.mem := mem;
      live := [];
    }

    /** `AddChunk`: a new head of the list. */
    method AddChunk(capacity: nat, given: nat)
      modifies this`chunks
      ensures chunks == [Chunk(given, capacity, 0)] + old(chunks)
    {
      chunks := [Chunk(given, capacity, 0)] + chunks;
    }

    /** The two halves of `Malloc`, without the bookkeeping of live blocks. */
    method Reserve(size: nat, given: nat) returns (ptr: nat)
      requires chunks != []
      modifies this`chunks
      ensures var r := PoolSpec.Malloc(chunkCapacity, old(chunks), size, given); chunks == r.chunks && ptr == r.ptr
    {
      if chunks[0].size + size > chunks[0].capacity {
        AddChunk(if chunkCapacity > size then chunkCapacity else size, given);
      }
      var head := chunks[0];
      ptr := head.base + HEADER + head.size;
      chunks := chunks[0 := head.(size := head.size + size)];
    }

    method Malloc(size: nat, given: nat) returns (ptr: nat)
      requires Valid() && UnusedFor(chunkCapacity, chunks, size, given)
      modifies this`chunks, this`live
      ensures Valid() && ptr > 0
      ensures var r := PoolSpec.Malloc(chunkCapacity, old(chunks), size, given); chunks == r.chunks && ptr == r.ptr
      ensures live == old(live) + [Block(ptr, size)]
    {
      MallocKeeps(chunkCapacity, chunks, live, size, given);
      GoodNonempty(chunks, live);
      OldestStays(chunkCapacity, chunks, Block(0, 0), size, given);
      hide Good, PoolSpec.Malloc;
      ptr := Reserve(size, given);
      live := live + [Block(ptr, size)];
    }

    /** `Realloc`, without the bookkeeping of live blocks. */
    method Resize(ptr: nat, originalSize: nat, newSize: nat, given: nat) returns (p: nat, ghost r: Alloc)
      requires chunks != []
      modifies this`chunks, this`mem
      ensures r == PoolSpec.Realloc(chunkCapacity, old(chunks), Block(ptr, originalSize), newSize, given)
      ensures chunks == r.chunks && p == r.ptr
      ensures mem == if r.copied then Copied(old(mem), p, ptr, originalSize) else old(mem)
    {
      hide Copied, PoolSpec.Malloc;
      r := PoolSpec.Realloc(chunkCapacity, chunks, Block(ptr, originalSize), newSize, given);
      if originalSize >= newSize { return ptr, r; }
      var head := chunks[0];
      if ptr == head.base + HEADER + head.size - originalSize {
        var increment := newSize - originalSize;
        if head.size + increment <= head.capacity {
          chunks := chunks[0 := head.(size := head.size + increment)];
          return ptr, r;
        }
      }
      p := Reserve(newSize, given);
      mem := Copied(mem, p, ptr, originalSize);
    }

    /** `Realloc` of live block `k`, whose size the caller states, or, on a null pointer, a new block. */
    method Realloc(ptr: nat, originalSize: nat, newSize: nat, given: nat, ghost k: nat) returns (p: nat, ghost r: Alloc)
      requires Valid() && (ptr != 0 ==> k < |live| && live[k] == Block(ptr, originalSize))
      requires UnusedFor(chunkCapacity, chunks, newSize, given)
      modifies this
      ensures Valid() && chunks == r.chunks && p == r.ptr
      ensures ptr == 0 ==>
        r == PoolSpec.Malloc(chunkCapacity, old(chunks), newSize, given) &&
        live == old(live) + [Block(p, newSize)] && mem == old(mem)
      ensures ptr != 0 ==>
        r == PoolSpec.Realloc(chunkCapacity, old(chunks), Block(ptr, originalSize), newSize, given) &&
        live == old(live)[k := Block(p, newSize)] &&
        mem == if r.copied then Copied(old(mem), p, ptr, originalSize) else old(mem)
    {
      GoodNonempty(chunks, live);
      if ptr == 0 {
        hide Good, PoolSpec.Malloc;
        r := PoolSpec.Malloc(chunkCapacity, chunks, newSize, given);
        p := Malloc(newSize, given);
        return;
      }
      ReallocKeeps(chunkCapacity, chunks, live, k, newSize, given);
      OldestStays(chunkCapacity, chunks, live[k], newSize, given);
      hide Good, Copied, PoolSpec.Malloc, PoolSpec.Realloc;
      p, r := Resize(ptr, originalSize, newSize, given);
      live := live[k := Block(p, newSize)];
    }

    /** A client's write into its block. */
    method Write(ptr: nat, i: nat, c: char)
      modifies this`mem
      ensures mem == Written(old(mem), ptr + i, c)
    {
      mem := Written(mem, ptr + i, c);
    }

    method Capacity() returns (capacity: nat)
      ensures capacity == TotalCapacity(chunks)
    {
      capacity := 0;
      for i := 0 to |chunks|
        invariant capacity == TotalCapacity(chunks[..i])
      {
        assert chunks[..i + 1][..i] == chunks[..i];
        capacity := capacity + chunks[i].capacity;
      }
      assert chunks[..|chunks|] == chunks;
    }

    method Size() returns (size: nat)
      requires Valid()
      ensures size == TotalSize(chunks) && size <= TotalCapacity(chunks)
    {
      size := 0;
      for i := 0 to |chunks|
        invariant size == TotalSize(chunks[..i])
      {
        assert chunks[..i + 1][..i] == chunks[..i];
        size := size + chunks[i].size;
      }
      assert chunks[..|chunks|] == chunks;
      NeverOverfull(chunks);
    }

    /** `Clear`: frees every chunk but the user's buffer, each once. */
    method Clear() returns (freed: seq<nat>)
      requires Valid()
      modifies this
      ensures userBuffer == 0 ==> chunks == [] && freed == Bases(old(chunks))
      ensures userBuffer != 0 ==> chunks == old(chunks[|chunks| - 1..]) && freed == Bases(old(chunks[..|chunks| - 1]))
      ensures live == []
    {
      ghost var all := chunks;
      freed := [];
      live := [];
      while chunks != [] && chunks[0].base != userBuffer
        invariant |chunks| <= |all| && chunks == all[|all| - |chunks|..] && freed == Bases(all[..|all| - |chunks|])
        invariant userBuffer != 0 ==> chunks != []
        invariant live == [] && GoodChunks(all) && (userBuffer != 0 ==> all[|all| - 1].base == userBuffer)
        decreases |chunks|
      {
        ghost var n := |all| - |chunks|;
        freed := freed + [chunks[0].base];
        assert all[..n + 1] == all[..n] + [all[n]];
        chunks := chunks[1..];
      }
      assert all[..|all|] == all;
      OldestIsAlone(all);
    }
  }

  lemma OldestIsAlone(chunks: seq<Chunk>)
    requires GoodChunks(chunks)
    ensures forall i :: 0 <= i < |chunks| - 1 ==> chunks[i].base != chunks[|chunks| - 1].base
  {
    forall i | 0 <= i < |chunks| - 1 ensures chunks[i].base != chunks[|chunks| - 1].base {
      assert ChunksApart(chunks[i], chunks[|chunks| - 1]);
    }
  }

  function Bases(chunks: seq<Chunk>): (s: seq<nat>)
    ensures |s| == |chunks|
  {
    seq(|chunks|, i requires 0 <= i < |chunks| => chunks[i].base)
  }

  lemma GoodNonempty(chunks: seq<Chunk>, live: seq<Block>)
    requires Good(chunks, live)
    ensures chunks != []
  {
  }

  lemma LiveIsNotNull(chunks: seq<Chunk>, live: seq<Block>, k: nat)
    requires Good(chunks, live) && k < |live|
    ensures live[k].ptr > 0
  {
    assert Housed(chunks, live[k]);
  }

  /** The oldest chunk stays the oldest, at its address. */
  lemma OldestStays(chunkCapacity: nat, chunks: seq<Chunk>, b: Block, size: nat, given: nat)
    requires chunks != []
    ensures var cs := PoolSpec.Malloc(chunkCapacity, chunks, size, given).chunks;
      cs != [] && cs[|cs| - 1].base == chunks[|chunks| - 1].base
    ensures var cs := PoolSpec.Realloc(chunkCapacity, chunks, b, size, given).chunks;
      cs != [] && cs[|cs| - 1].base == chunks[|chunks| - 1].base
  {
  }
}
