/** What `MemoryPoolAllocator` does to its chunks, and why the blocks it hands out never meet. Addresses are
    numbers; the base allocator's answers are parameters. */
module PoolSpec {
  /** `sizeof(ChunkHeader)`: two sizes and a pointer, eight bytes each. */
  const HEADER: nat := 24

  /** A chunk starts with its header; `capacity` and `size` do not count it. */
  datatype Chunk = Chunk(base: nat, capacity: nat, size: nat) {
    function Data(): nat { base + HEADER }
    function Top(): nat { Data() + size }
    function End(): nat { Data() + capacity }
  }

  datatype Block = Block(ptr: nat, size: nat)

  type Memory = nat -> char

  // ---- the allocator on chunks, newest first ----

  function Max(a: nat, b: nat): nat { if a > b then a else b }

  predicate HasRoom(chunks: seq<Chunk>, size: nat)
    requires chunks != []
  {
    chunks[0].size + size <= chunks[0].capacity
  }

  /** The chunks with room for `size` at the head. */
  function WithRoom(chunkCapacity: nat, chunks: seq<Chunk>, size: nat, given: nat): (cs: seq<Chunk>)
    requires chunks != []
    ensures cs != [] && HasRoom(cs, size)
  {
    if HasRoom(chunks, size) then chunks else [Chunk(given, Max(chunkCapacity, size), 0)] + chunks
  }

  function Bump(chunks: seq<Chunk>, n: nat): (cs: seq<Chunk>)
    requires chunks != []
    ensures |cs| == |chunks|
  {
    chunks[0 := chunks[0].(size := chunks[0].size + n)]
  }

  /** What an allocation leaves and returns. */
  datatype Alloc = Alloc(chunks: seq<Chunk>, ptr: nat, copied: bool)

  /** `Malloc`. */
  function Malloc(chunkCapacity: nat, chunks: seq<Chunk>, size: nat, given: nat): Alloc
    requires chunks != []
  {
    var cs := WithRoom(chunkCapacity, chunks, size, given);
    Alloc(Bump(cs, size), cs[0].Top(), false)
  }

  /** Is this the last allocation, with room after it? */
  predicate GrowsInPlace(chunks: seq<Chunk>, b: Block, newSize: nat)
    requires chunks != [] && b.size <= newSize
  {
    b.ptr + b.size == chunks[0].Top() && HasRoom(chunks, newSize - b.size)
  }

  /** `Realloc` of a block. */
  function Realloc(chunkCapacity: nat, chunks: seq<Chunk>, b: Block, newSize: nat, given: nat): Alloc
    requires chunks != []
  {
    if b.size >= newSize then Alloc(chunks, b.ptr, false)
    else if GrowsInPlace(chunks, b, newSize) then Alloc(Bump(chunks, newSize - b.size), b.ptr, false)
    else Malloc(chunkCapacity, chunks, newSize, given).(copied := true)
  }

  /** `memcpy`. */
  function Copied(mem: Memory, dst: nat, src: nat, n: nat): Memory {
    (a: nat) => if dst <= a < dst + n then mem(a - dst + src) else mem(a)
  }

  /** One byte written. */
  function Written(mem: Memory, p: nat, c: char): Memory {
    (a: nat) => if a == p then c else mem(a)
  }

  function Bytes(mem: Memory, b: Block): (s: string)
    ensures |s| == b.size && forall i :: 0 <= i < b.size ==> s[i] == mem(b.ptr + i)
  {
    seq(b.size, i requires 0 <= i < b.size => mem(b.ptr + i))
  }

  // ---- the invariant ----

  /** No byte in both. */
  predicate Apart(a: Block, b: Block) {
    a.size == 0 || b.size == 0 || a.ptr + a.size <= b.ptr || b.ptr + b.size <= a.ptr
  }

  /** No address in both chunks, headers included. */
  predicate ChunksApart(c: Chunk, d: Chunk) {
    c.End() <= d.base || d.End() <= c.base
  }

  predicate Inside(b: Block, c: Chunk) {
    c.Data() <= b.ptr && b.ptr + b.size <= c.Top()
  }

  ghost predicate GoodChunks(chunks: seq<Chunk>) {
    && chunks != []
    && (forall i :: 0 <= i < |chunks| ==> chunks[i].base > 0 && chunks[i].size <= chunks[i].capacity)
    && (forall i, j :: 0 <= i < j < |chunks| ==> ChunksApart(chunks[i], chunks[j]))
  }

  ghost predicate Housed(chunks: seq<Chunk>, b: Block) {
    exists i :: 0 <= i < |chunks| && Inside(b, chunks[i])
  }

  /** Chunks are apart and not overfull; every live block lies in the used part of a chunk; live blocks
      share no byte. */
  ghost predicate Good(chunks: seq<Chunk>, live: seq<Block>) {
    && GoodChunks(chunks)
    && (forall k :: 0 <= k < |live| ==> Housed(chunks, live[k]))
    && (forall j, k :: 0 <= j < k < |live| ==> Apart(live[j], live[k]))
  }

  /** The base allocator's answer: addresses of no chunk. Asked only when the head has no room. */
  ghost predicate UnusedFor(chunkCapacity: nat, chunks: seq<Chunk>, size: nat, given: nat)
    requires chunks != []
  {
    HasRoom(chunks, size) ||
    (given > 0 && forall i :: 0 <= i < |chunks| ==> ChunksApart(Chunk(given, Max(chunkCapacity, size), 0), chunks[i]))
  }

  // ---- every request keeps it ----

  lemma AddingChunk(chunkCapacity: nat, chunks: seq<Chunk>, live: seq<Block>, size: nat, given: nat)
    requires Good(chunks, live) && UnusedFor(chunkCapacity, chunks, size, given)
    ensures Good(WithRoom(chunkCapacity, chunks, size, given), live)
  {
    hide Inside, Apart, ChunksApart;
    var cs := WithRoom(chunkCapacity, chunks, size, given);
    if !HasRoom(chunks, size) {
      forall k | 0 <= k < |live| ensures Housed(cs, live[k]) {
        assert Housed(chunks, live[k]);
        var i :| 0 <= i < |chunks| && Inside(live[k], chunks[i]);
        assert Inside(live[k], cs[i + 1]);
      }
    }
  }

  lemma Bumping(chunks: seq<Chunk>, live: seq<Block>, n: nat)
    requires Good(chunks, live) && HasRoom(chunks, n)
    ensures Good(Bump(chunks, n), live)
  {
    hide Apart;
    var cs := Bump(chunks, n);
    forall k | 0 <= k < |live| ensures Housed(cs, live[k]) {
      assert Housed(chunks, live[k]);
      var i :| 0 <= i < |chunks| && Inside(live[k], chunks[i]);
      assert Inside(live[k], cs[i]);
    }
  }

  /** No live block has a byte in the head chunk's unused part. */
  lemma AboveTopIsFree(chunks: seq<Chunk>, live: seq<Block>, n: nat, k: nat)
    requires Good(chunks, live) && HasRoom(chunks, n) && k < |live|
    ensures Apart(Block(chunks[0].Top(), n), live[k])
  {
    assert Housed(chunks, live[k]);
    var i :| 0 <= i < |chunks| && Inside(live[k], chunks[i]);
    if i > 0 { assert ChunksApart(chunks[0], chunks[i]); }
  }

  /** `Malloc` keeps the invariant with its block added. */
  lemma MallocKeeps(chunkCapacity: nat, chunks: seq<Chunk>, live: seq<Block>, size: nat, given: nat)
    requires Good(chunks, live) && UnusedFor(chunkCapacity, chunks, size, given)
    ensures var r := Malloc(chunkCapacity, chunks, size, given);
      r.ptr > 0 && Good(r.chunks, live + [Block(r.ptr, size)]) && forall k :: 0 <= k < |live| ==> Apart(Block(r.ptr, size), live[k])
  {
    var r := Malloc(chunkCapacity, chunks, size, given);
    var cs := WithRoom(chunkCapacity, chunks, size, given);
    var b := Block(r.ptr, size);
    AddingChunk(chunkCapacity, chunks, live, size, given);
    Bumping(cs, live, size);
    forall k | 0 <= k < |live| ensures Apart(b, live[k]) && Apart(live[k], b) {
      AboveTopIsFree(cs, live, size, k);
    }
    assert Inside(b, r.chunks[0]);
    hide Inside, Apart, ChunksApart, WithRoom;
    assert Housed(r.chunks, b);
  }

  /** A block that ends where the head's used part ends lies in the head chunk. */
  lemma LastIsInHead(chunks: seq<Chunk>, live: seq<Block>, k: nat)
    requires Good(chunks, live) && k < |live| && live[k].ptr + live[k].size == chunks[0].Top()
    ensures Inside(live[k], chunks[0])
  {
    assert Housed(chunks, live[k]);
    var i :| 0 <= i < |chunks| && Inside(live[k], chunks[i]);
    assert i == 0 || ChunksApart(chunks[0], chunks[i]);
  }

  /** `Realloc` keeps the invariant with its block replaced. */
  lemma ReallocKeeps(chunkCapacity: nat, chunks: seq<Chunk>, live: seq<Block>, k: nat, newSize: nat, given: nat)
    requires Good(chunks, live) && k < |live| && UnusedFor(chunkCapacity, chunks, newSize, given)
    ensures var r := Realloc(chunkCapacity, chunks, live[k], newSize, given);
      Good(r.chunks, live[k := Block(r.ptr, newSize)]) &&
      (r.copied ==> forall j :: 0 <= j < |live| ==> Apart(Block(r.ptr, newSize), live[j]))
  {
    var r := Realloc(chunkCapacity, chunks, live[k], newSize, given);
    var b := Block(r.ptr, newSize);
    if live[k].size >= newSize {
      ShrinkKeeps(chunks, live, k, newSize);
    } else if GrowsInPlace(chunks, live[k], newSize) {
      GrowKeeps(chunks, live, k, newSize);
    } else {
      MallocKeeps(chunkCapacity, chunks, live, newSize, given);
      hide Inside, Apart, ChunksApart, Malloc;
      ReplaceLast(r.chunks, live, k, b);
    }
  }

  lemma ShrinkKeeps(chunks: seq<Chunk>, live: seq<Block>, k: nat, newSize: nat)
    requires Good(chunks, live) && k < |live| && live[k].size >= newSize
    ensures Good(chunks, live[k := Block(live[k].ptr, newSize)])
  {
    assert Housed(chunks, live[k]);
    var i :| 0 <= i < |chunks| && Inside(live[k], chunks[i]);
    assert Inside(Block(live[k].ptr, newSize), chunks[i]);
  }

  lemma GrowKeeps(chunks: seq<Chunk>, live: seq<Block>, k: nat, newSize: nat)
    requires Good(chunks, live) && k < |live| && live[k].size <= newSize && GrowsInPlace(chunks, live[k], newSize)
    ensures Good(Bump(chunks, newSize - live[k].size), live[k := Block(live[k].ptr, newSize)])
  {
    var n := newSize - live[k].size;
    var b, cs := Block(live[k].ptr, newSize), Bump(chunks, newSize - live[k].size);
    LastIsInHead(chunks, live, k);
    Bumping(chunks, live, n);
    assert Inside(b, cs[0]);
    forall j | 0 <= j < |live| && j != k ensures Apart(b, live[j]) && Apart(live[j], b) {
      AboveTopIsFree(chunks, live, n, j);
      assert if j < k then Apart(live[j], live[k]) else Apart(live[k], live[j]);
    }
    hide Inside, Apart, ChunksApart, Bump;
    assert Housed(cs, b);
  }

  lemma ReplaceLast(chunks: seq<Chunk>, live: seq<Block>, k: nat, b: Block)
    requires k < |live| && Good(chunks, live + [b])
    ensures Good(chunks, live[k := b])
  {
    hide Inside, ChunksApart, Housed;
    var all := live + [b];
    assert Housed(chunks, all[|live|]);
    forall j | 0 <= j < |live| ensures Housed(chunks, live[j]) && Apart(live[j], b) && Apart(b, live[j]) {
      assert all[j] == live[j] && Apart(all[j], all[|live|]);
    }
    forall i, j | 0 <= i < j < |live| ensures Apart(live[i], live[j]) {
      assert Apart(all[i], all[j]);
    }
  }

  // ---- runs ----

  /** The allocator with its live blocks and the memory. */
  datatype State = State(chunks: seq<Chunk>, live: seq<Block>, mem: Memory)

  /** What clients do: allocate, resize the block number `k`, write byte `i` of block `k`. */
  datatype Op =
    | DoMalloc(size: nat, given: nat)
    | DoRealloc(k: nat, newSize: nat, given: nat)
    | DoWrite(k: nat, i: nat, c: char)

  /** The client keeps to its blocks, and the base allocator answers with unused addresses. */
  ghost predicate Fair(chunkCapacity: nat, s: State, op: Op)
    requires s.chunks != []
  {
    match op
    case DoMalloc(size, given) => UnusedFor(chunkCapacity, s.chunks, size, given)
    case DoRealloc(k, newSize, given) => k < |s.live| && UnusedFor(chunkCapacity, s.chunks, newSize, given)
    case DoWrite(k, i, _) => k < |s.live| && i < s.live[k].size
  }

  function Apply(chunkCapacity: nat, s: State, op: Op): (t: State)
    requires s.chunks != []
    ensures t.chunks != []
  {
    match op
    case DoMalloc(size, given) =>
      var r := Malloc(chunkCapacity, s.chunks, size, given);
      State(r.chunks, s.live + [Block(r.ptr, size)], s.mem)
    case DoRealloc(k, newSize, given) =>
      if k >= |s.live| then s
      else
        var b := s.live[k];
        var r := Realloc(chunkCapacity, s.chunks, b, newSize, given);
        State(r.chunks, s.live[k := Block(r.ptr, newSize)], if r.copied then Copied(s.mem, r.ptr, b.ptr, b.size) else s.mem)
    case DoWrite(k, i, c) =>
      if k >= |s.live| then s
      else s.(mem := Written(s.mem, s.live[k].ptr + i, c))
  }

  /** What client `j` sees in its block. */
  function View(s: State, j: nat): string
    requires j < |s.live|
  {
    Bytes(s.mem, s.live[j])
  }

  predicate Touches(op: Op, j: nat) {
    match op
    case DoMalloc(_, _) => false
    case DoRealloc(k, _, _) => k == j
    case DoWrite(k, _, _) => k == j
  }

  /** What one step does, seen block by block: the blocks behave as byte strings that share nothing. */
  lemma StepIsolates(chunkCapacity: nat, s: State, op: Op)
    requires Good(s.chunks, s.live) && Fair(chunkCapacity, s, op)
    ensures var t := Apply(chunkCapacity, s, op);
      Good(t.chunks, t.live) && |t.live| >= |s.live| &&
      (forall j :: 0 <= j < |s.live| && !Touches(op, j) ==> View(t, j) == View(s, j)) &&
      match op
      case DoMalloc(size, _) => |t.live| == |s.live| + 1 && |View(t, |s.live|)| == size
      case DoRealloc(k, newSize, _) =>
        var n := if s.live[k].size < newSize then s.live[k].size else newSize;
        |View(t, k)| == newSize && View(t, k)[..n] == View(s, k)[..n]
      case DoWrite(k, i, c) => View(t, k) == View(s, k)[i := c]
  {
    hide Housed, Malloc, Realloc, ChunksApart;
    match op
    case DoMalloc(size, given) =>
      MallocKeeps(chunkCapacity, s.chunks, s.live, size, given);
    case DoRealloc(k, newSize, given) =>
      ReallocKeeps(chunkCapacity, s.chunks, s.live, k, newSize, given);
      ReallocViews(chunkCapacity, s, k, newSize, given);
    case DoWrite(k, i, c) =>
      WriteViews(chunkCapacity, s, k, i, c);
  }

  lemma TakeBytes(mem: Memory, p: nat, m: nat, n: nat)
    requires m <= n
    ensures Bytes(mem, Block(p, n))[..m] == Bytes(mem, Block(p, m))
  {
  }

  /** The copy starts with the bytes copied. */
  lemma CopyStarts(mem: Memory, dst: nat, b: Block, newSize: nat)
    requires b.size <= newSize
    ensures Bytes(Copied(mem, dst, b.ptr, b.size), Block(dst, newSize))[..b.size] == Bytes(mem, b)
  {
  }

  /** A block apart from the copy's keeps its bytes. */
  lemma CopyElsewhere(mem: Memory, dst: nat, b: Block, newSize: nat, c: Block)
    requires b.size <= newSize && Apart(Block(dst, newSize), c)
    ensures Bytes(Copied(mem, dst, b.ptr, b.size), c) == Bytes(mem, c)
  {
  }

  lemma ReallocViews(chunkCapacity: nat, s: State, k: nat, newSize: nat, given: nat)
    requires Good(s.chunks, s.live) && Fair(chunkCapacity, s, DoRealloc(k, newSize, given))
    ensures var t := Apply(chunkCapacity, s, DoRealloc(k, newSize, given));
      (forall j :: 0 <= j < |s.live| && j != k ==> View(t, j) == View(s, j)) &&
      var n := if s.live[k].size < newSize then s.live[k].size else newSize;
      |View(t, k)| == newSize && View(t, k)[..n] == View(s, k)[..n]
  {
    var b := s.live[k];
    var r := Realloc(chunkCapacity, s.chunks, b, newSize, given);
    ReallocKeeps(chunkCapacity, s.chunks, s.live, k, newSize, given);
    assert !r.copied ==> r.ptr == b.ptr;
    assert r.copied ==> b.size < newSize;
    hide Good, Realloc, Bytes, Copied, Apart;
    if r.copied {
      CopyStarts(s.mem, r.ptr, b, newSize);
      forall j | 0 <= j < |s.live| && j != k ensures Bytes(Copied(s.mem, r.ptr, b.ptr, b.size), s.live[j])
        == Bytes(s.mem, s.live[j]) {
        CopyElsewhere(s.mem, r.ptr, b, newSize, s.live[j]);
      }
    } else {
      var n := if b.size < newSize then b.size else newSize;
      TakeBytes(s.mem, b.ptr, n, newSize);
      TakeBytes(s.mem, b.ptr, n, b.size);
    }
  }

  lemma WriteViews(chunkCapacity: nat, s: State, k: nat, i: nat, c: char)
    requires Good(s.chunks, s.live) && k < |s.live| && i < s.live[k].size
    ensures var t := Apply(chunkCapacity, s, DoWrite(k, i, c));
      (forall j :: 0 <= j < |s.live| && j != k ==> View(t, j) == View(s, j)) && View(t, k) == View(s, k)[i := c]
  {
    var t := Apply(chunkCapacity, s, DoWrite(k, i, c));
    forall j | 0 <= j < |s.live| && j != k ensures View(t, j) == View(s, j) {
      assert if j < k then Apart(s.live[j], s.live[k]) else Apart(s.live[k], s.live[j]);
    }
  }

  function Run(chunkCapacity: nat, s: State, ops: seq<Op>): State
    requires s.chunks != []
    decreases |ops|
  {
    if ops == [] then s else Run(chunkCapacity, Apply(chunkCapacity, s, ops[0]), ops[1..])
  }

  ghost predicate FairRun(chunkCapacity: nat, s: State, ops: seq<Op>)
    requires s.chunks != []
    decreases |ops|
  {
    ops == [] || (Fair(chunkCapacity, s, ops[0]) && FairRun(chunkCapacity, Apply(chunkCapacity, s, ops[0]), ops[1..]))
  }

  /** Over any run of allocations, resizings and writes by their owners: the invariant holds at the end, and a
      block that its own client leaves alone keeps every byte. */
  lemma {:induction false} RunIsolates(chunkCapacity: nat, s: State, ops: seq<Op>, j: nat)
    requires Good(s.chunks, s.live) && FairRun(chunkCapacity, s, ops)
    ensures var t := Run(chunkCapacity, s, ops);
      Good(t.chunks, t.live) && |t.live| >= |s.live| &&
      (j < |s.live| && (forall i :: 0 <= i < |ops| ==> !Touches(ops[i], j)) ==> View(t, j) == View(s, j))
    decreases |ops|
  {
    assert s.chunks != [];
    hide Good, View, Apply, Touches;
    if ops != [] {
      StepIsolates(chunkCapacity, s, ops[0]);
      RunIsolates(chunkCapacity, Apply(chunkCapacity, s, ops[0]), ops[1..], j);
    }
  }

  // ---- totals ----

  function TotalSize(chunks: seq<Chunk>): nat
    decreases |chunks|
  {
    if chunks == [] then 0 else TotalSize(chunks[..|chunks| - 1]) + chunks[|chunks| - 1].size
  }

  function TotalCapacity(chunks: seq<Chunk>): nat
    decreases |chunks|
  {
    if chunks == [] then 0 else TotalCapacity(chunks[..|chunks| - 1]) + chunks[|chunks| - 1].capacity
  }

  lemma {:induction false} NeverOverfull(chunks: seq<Chunk>)
    requires forall i :: 0 <= i < |chunks| ==> chunks[i].size <= chunks[i].capacity
    ensures TotalSize(chunks) <= TotalCapacity(chunks)
    decreases |chunks|
  {
    if chunks != [] { NeverOverfull(chunks[..|chunks| - 1]); }
  }

  lemma {:induction false} TotalsOfHead(c: Chunk, chunks: seq<Chunk>)
    ensures TotalSize([c] + chunks) == c.size + TotalSize(chunks)
    ensures TotalCapacity([c] + chunks) == c.capacity + TotalCapacity(chunks)
    decreases |chunks|
  {
    var all := [c] + chunks;
    if chunks == [] {
      assert all[..0] == [];
    } else {
      TotalsOfHead(c, chunks[..|chunks| - 1]);
      assert all[..|all| - 1] == [c] + chunks[..|chunks| - 1];
    }
  }

  /** What an allocation costs: exactly its size; and a new chunk, of the configured capacity or of the size if that
      is more, only when the head has not that much left. The block begins where the head was used up to, behind
      24 bytes of header. */
  lemma MallocCosts(chunkCapacity: nat, chunks: seq<Chunk>, size: nat, given: nat)
    requires chunks != []
    ensures var r, head := Malloc(chunkCapacity, chunks, size, given), chunks[0];
      && TotalSize(r.chunks) == TotalSize(chunks) + size
      && if head.size + size <= head.capacity then
        TotalCapacity(r.chunks) == TotalCapacity(chunks) && |r.chunks| == |chunks| && r.ptr == head.base + 24 + head.size
      else
        && TotalCapacity(r.chunks) == TotalCapacity(chunks) + (if size > chunkCapacity then size else chunkCapacity)
        && |r.chunks| == |chunks| + 1 && r.ptr == given + 24 && r.chunks[1..] == chunks
  {
    hide TotalSize, TotalCapacity, Malloc;
    var head := chunks[0];
    if head.size + size <= head.capacity {
      FittingMalloc(chunkCapacity, chunks, size, given);
      TotalsOfHead(head.(size := head.size + size), chunks[1..]);
    } else {
      GrowingMalloc(chunkCapacity, chunks, size, given);
      TotalsOfHead(Chunk(given, Max(chunkCapacity, size), size), chunks);
    }
    assert chunks == [head] + chunks[1..];
    TotalsOfHead(head, chunks[1..]);
  }

  lemma FittingMalloc(chunkCapacity: nat, chunks: seq<Chunk>, size: nat, given: nat)
    requires chunks != [] && HasRoom(chunks, size)
    ensures var r, head := Malloc(chunkCapacity, chunks, size, given), chunks[0];
      r.chunks == [head.(size := head.size + size)] + chunks[1..] && r.ptr == head.base + 24 + head.size
  {
  }

  lemma GrowingMalloc(chunkCapacity: nat, chunks: seq<Chunk>, size: nat, given: nat)
    requires chunks != [] && !HasRoom(chunks, size)
    ensures var r := Malloc(chunkCapacity, chunks, size, given);
      r.chunks == [Chunk(given, Max(chunkCapacity, size), size)] + chunks && r.ptr == given + 24
  {
    var c := Chunk(given, Max(chunkCapacity, size), 0);
    assert ([c] + chunks)[0 := c.(size := size)] == [c.(size := size)] + chunks;
  }

  /** What resizing costs: nothing when it shrinks, and the block stays; the difference when the block is the last one
      and the head has that much left, and it stays; otherwise the whole new size, as an allocation does. */
  lemma ReallocCosts(chunkCapacity: nat, chunks: seq<Chunk>, b: Block, newSize: nat, given: nat)
    requires chunks != []
    ensures var r, head := Realloc(chunkCapacity, chunks, b, newSize, given), chunks[0];
      if newSize <= b.size then r == Alloc(chunks, b.ptr, false)
      else if b.ptr + b.size == head.base + 24 + head.size && head.size + (newSize - b.size) <= head.capacity then
        && r.ptr == b.ptr && !r.copied && |r.chunks| == |chunks|
        && TotalSize(r.chunks) == TotalSize(chunks) + (newSize - b.size) && TotalCapacity(r.chunks) == TotalCapacity(chunks)
      else
        r == Malloc(chunkCapacity, chunks, newSize, given).(copied := true)
  {
    hide TotalSize, TotalCapacity, Malloc;
    var head, r := chunks[0], Realloc(chunkCapacity, chunks, b, newSize, given);
    assert chunks == [head] + chunks[1..];
    TotalsOfHead(head, chunks[1..]);
    if b.size < newSize && GrowsInPlace(chunks, b, newSize) {
      var grown := head.(size := head.size + (newSize - b.size));
      assert r.chunks == [grown] + chunks[1..];
      TotalsOfHead(grown, chunks[1..]);
    }
  }
}
