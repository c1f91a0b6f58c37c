/** `internal::Stack`: a byte stack in one block of the pool, moved when it grows. */
module Stack {
  import opened PoolSpec
  import opened Pool

  /** The capacity the stack takes when `n` more bytes reach its end. */
  function NextCapacity(capacity: nat, size: nat, n: nat): nat {
    Max(capacity * 2, size + n)
  }

  class Stack {
    const pool: MemoryPoolAllocator
    const initial: nat
    var stack: nat
    var top: nat
    var end: nat
    var capacity: nat
    /** Which live block of the pool is the stack's, the largest size so far, and the bytes growth has copied. */
    ghost const k: nat
    ghost var peak: nat
    ghost var copied: nat

    /** The capacity is at most the initial one or twice the largest size reached, and growth has copied fewer
        bytes, over the stack's whole life, than the capacity it has now. */
    ghost predicate Valid()
      reads this, pool
    {
      && pool.Valid() && k < |pool.live| && pool.live[k] == Block(stack, capacity)
      && stack <= top <= end == stack + capacity
      && 0 < initial <= capacity && top - stack <= peak
      && capacity <= Max(initial, 2 * peak)
      && copied + initial <= capacity
    }

    /** The bytes on the stack, bottom first. */
    ghost function Contents(): (s: string)
      requires stack <= top
      reads this, pool
      ensures |s| == top - stack
    {
      Bytes(pool.mem, Block(stack, top - stack))
    }

    constructor (pool: MemoryPoolAllocator, capacity: nat, given: nat)
      requires pool.Valid() && capacity > 0 && UnusedFor(pool.chunkCapacity, pool.chunks, capacity, given)
      modifies pool
      ensures Valid() && Contents() == "" && this.pool == pool && this.capacity == initial == capacity && peak == 0 && copied == 0
      ensures k == |old(pool.live)| && pool.live == old(pool.live) + [Block(stack, capacity)] && pool.mem == old(pool.mem)
    {
      var p := pool.Malloc(capacity, given);
      this.pool := pool;
      this.initial := capacity;
      this.capacity := capacity;
      stack := p;
      top := p;
      end := p + capacity;
      k := |pool.live| - 1;
      peak := 0;
      copied := 0;
    }

    method GetSize() returns (size: nat)
      requires Valid()
      ensures size == |Contents()|
    {
      size := top - stack;
    }

    /** `Push`: room for `n` more bytes, at the returned address; the bytes below survive a move. */
    method Push(n: nat, given: nat) returns (ret: nat)
      requires Valid() && UnusedFor(pool.chunkCapacity, pool.chunks, NextCapacity(capacity, |Contents()|, n), given)
      modifies this, pool
      ensures Valid() && |Contents()| == |old(Contents())| + n && Contents()[..|old(Contents())|] == old(Contents())
      ensures ret == stack + |old(Contents())| && top == ret + n
      ensures peak == Max(old(peak), |Contents()|)
      ensures capacity == if |old(Contents())| + n >= old(capacity) then NextCapacity(old(capacity),
        |old(Contents())|, n) else old(capacity)
      ensures |pool.live| == |old(pool.live)|
      ensures forall j :: 0 <= j < |pool.live| && j != k ==>
        pool.live[j] == old(pool.live[j]) && Bytes(pool.mem, pool.live[j]) == old(Bytes(pool.mem, pool.live[j]))
    {
      hide Good, Bytes;
      ghost var size := top - stack;
      if top + n >= end { Expand(n, given); }
      ret := top;
      top := top + n;
      peak := Max(peak, top - stack);
      TakeBytes(pool.mem, stack, size, size + n);
    }

    /** The growing branch of `Push`: to twice the capacity, or to what is needed if that is more. */
    method Expand(n: nat, given: nat)
      requires Valid() && top + n >= end && UnusedFor(pool.chunkCapacity,
        pool.chunks, NextCapacity(capacity, |Contents()|, n), given)
      modifies this, pool
      ensures Valid() && Contents() == old(Contents()) && top + n <= end && peak == Max(old(peak), top - stack + n)
      ensures capacity == NextCapacity(old(capacity), |old(Contents())|, n)
      ensures |pool.live| == |old(pool.live)|
      ensures forall j :: 0 <= j < |pool.live| && j != k ==>
        pool.live[j] == old(pool.live[j]) && Bytes(pool.mem, pool.live[j]) == old(Bytes(pool.mem, pool.live[j]))
    {
      hide Good, Bytes;
      var newCapacity := capacity * 2;
      var size := GetSize();
      var newSize := size + n;
      if newCapacity < newSize { newCapacity := newSize; }
      Grow(newCapacity, given);
      top := stack + size;
      end := stack + capacity;
      peak := Max(peak, newSize);
    }

    /** The block, resized. */
    method Grow(newCapacity: nat, given: nat)
      requires Valid() && newCapacity >= 2 * capacity && UnusedFor(pool.chunkCapacity, pool.chunks, newCapacity, given)
      modifies this`stack, this`capacity, this`copied, pool
      ensures pool.Valid() && |pool.live| == |old(pool.live)| && pool.live[k] == Block(stack, capacity) && capacity == newCapacity
      ensures copied + initial <= capacity
      ensures Bytes(pool.mem, Block(stack, top - old(stack))) == old(Contents())
      ensures forall j :: 0 <= j < |pool.live| && j != k ==>
        pool.live[j] == old(pool.live[j]) && Bytes(pool.mem, pool.live[j]) == old(Bytes(pool.mem, pool.live[j]))
    {
      hide Good, PoolSpec.Realloc, Copied, Bytes;
      GoodNonempty(pool.chunks, pool.live);
      LiveIsNotNull(pool.chunks, pool.live, k);
      ghost var s := State(pool.chunks, pool.live, pool.mem);
      ghost var t := Apply(pool.chunkCapacity, s, DoRealloc(k, newCapacity, given));
      ghost var b := Block(stack, capacity);
      ghost var size := top - stack;
      ReallocViews(pool.chunkCapacity, s, k, newCapacity, given);
      ghost var r;
      stack, r := pool.Realloc(stack, capacity, newCapacity, given, k);
      PrefixViews(s.mem, b, pool.mem, Block(stack, newCapacity), size);
      if r.copied { copied := copied + capacity; }
      capacity := newCapacity;
      assert pool.mem == t.mem && pool.live == t.live;
      forall j | 0 <= j < |pool.live| && j != k ensures Bytes(pool.mem, pool.live[j]) == Bytes(s.mem, s.live[j]) {
        assert View(t, j) == View(s, j);
      }
    }

    /** The typed use of `Push`: the pushed object is written where `Push` made room. */
    method PushBytes(data: string, given: nat) returns (ret: nat)
      requires Valid() && UnusedFor(pool.chunkCapacity, pool.chunks, NextCapacity(capacity, |Contents()|, |data|), given)
      modifies this, pool
      ensures Valid() && Contents() == old(Contents()) + data
      ensures |pool.live| == |old(pool.live)|
      ensures forall j :: 0 <= j < |pool.live| && j != k ==>
        pool.live[j] == old(pool.live[j]) && Bytes(pool.mem, pool.live[j]) == old(Bytes(pool.mem, pool.live[j]))
    {
      hide Good;
      ghost var before := Contents();
      ret := Push(|data|, given);
      ghost var mid, blocks := pool.mem, pool.live;
      assert data[..0] == "";
      for i := 0 to |data|
        invariant Valid() && stack + |before| == ret && top == ret + |data| && pool.live == blocks
        invariant Contents()[..|before| + i] == before + data[..i]
        invariant forall j :: 0 <= j < |pool.live| && j != k ==> Bytes(pool.mem, pool.live[j]) == Bytes(mid, pool.live[j])
      {
        WriteByte(ret - stack + i, data[i]);
        assert data[..i + 1] == data[..i] + [data[i]];
      }
      assert data[..|data|] == data;
    }

    /** A write into the stack's block. */
    method WriteByte(i: nat, c: char)
      requires Valid() && i < |Contents()|
      modifies pool`mem
      ensures Valid() && Contents() == old(Contents())[i := c]
      ensures forall j :: 0 <= j < |pool.live| && j != k ==> Bytes(pool.mem, pool.live[j]) == old(Bytes(pool.mem, pool.live[j]))
    {
      WriteViews(pool.chunkCapacity, State(pool.chunks, pool.live, pool.mem), k, i, c);
      pool.Write(stack, i, c);
    }

    /** `Pop`: the topmost `n` bytes leave the stack; they can still be read at the returned address. */
    method Pop(n: nat) returns (ret: nat)
      requires Valid() && n <= |Contents()|
      modifies this`top
      ensures Valid() && Contents() == old(Contents()[..|Contents()| - n])
      ensures Bytes(pool.mem, Block(ret, n)) == old(Contents()[|Contents()| - n..])
      ensures ret == top
    {
      top := top - n;
      ret := top;
    }

    /** `Top`: where the topmost `n` bytes are. */
    method Top(n: nat) returns (ret: nat)
      requires Valid() && n <= |Contents()|
      ensures Bytes(pool.mem, Block(ret, n)) == Contents()[|Contents()| - n..]
    {
      ret := top - n;
    }

    method Clear()
      requires Valid()
      modifies this`top
      ensures Valid() && Contents() == "" && capacity == old(capacity)
    {
      top := stack;
    }
  }

  lemma PrefixViews(mem: Memory, b: Block, mem1: Memory, c: Block, n: nat)
    requires n <= b.size <= c.size && Bytes(mem1, c)[..b.size] == Bytes(mem, b)
    ensures Bytes(mem1, Block(c.ptr, n)) == Bytes(mem, Block(b.ptr, n))
  {
    var x, y := Bytes(mem1, Block(c.ptr, n)), Bytes(mem, Block(b.ptr, n));
    forall i | 0 <= i < n ensures x[i] == y[i] {
      assert Bytes(mem1, c)[..b.size][i] == Bytes(mem, b)[i];
    }
  }
}
