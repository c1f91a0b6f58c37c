/** `FileReadStream` and `FileWriteStream`: buffers of any size of at least one change nothing. */
module FileStreams {
  import opened Strings

  // ---- reading ----

  /** A file opened for reading; `Read` is `fread`, which falls short only at the end. */
  class InputFile {
    const content: string
    var pos: nat

    constructor (content: string)
      ensures this.content == content && pos == 0
    {
      this.content := content;
      pos := 0;
    }

    method Read(buffer: array<char>) returns (n: nat)
      requires pos <= |content|
      modifies this`pos, buffer
      ensures n == if buffer.Length <= |content| - old(pos) then buffer.Length else |content| - old(pos)
      ensures pos == old(pos) + n && buffer[..n] == content[old(pos)..pos]
    {
      var start := pos;
      n := if buffer.Length <= |content| - start then buffer.Length else |content| - start;
      for i := 0 to n
        invariant pos == start && buffer[..i] == content[start..start + i]
      {
        buffer[i] := content[start + i];
        assert buffer[..i + 1] == buffer[..i] + [content[start + i]];
        assert content[start..start + i + 1] == content[start..start + i] + [content[start + i]];
      }
      pos := start + n;
    }
  }

  /** The unbuffered stream: the bytes of the file, then '\0' forever. */
  function Delivered(content: string, k: nat): char {
    if k < |content| then content[k] else '\0'
  }

  function Capped(k: nat, max: nat): nat {
    if k <= max then k else max
  }

  class FileReadStream {
    const fp: InputFile
    const buffer: array<char>
    var bufferLast: int
    var current: nat
    var readCount: nat
    var count: nat
    var eof: bool
    /** How many characters have been taken. */
    ghost var taken: nat

    /** The buffer is a window of the file, and `current` is where the unbuffered stream stands. */
    ghost predicate Valid()
      reads this, fp, buffer
    {
      && Window()
      && current <= bufferLast
      && count + current == Capped(taken, |fp.content|)
    }

    ghost predicate Window()
      reads this, fp, buffer
    {
      && buffer.Length >= 1
      && readCount <= buffer.Length && count + readCount == fp.pos <= |fp.content|
      && buffer[..readCount] == fp.content[count..count + readCount]
      && (eof <==> readCount < buffer.Length)
      && (if eof then fp.pos == |fp.content| && buffer[readCount] == '\0' &&
        bufferLast == readCount else bufferLast == readCount - 1)
    }

    constructor (fp: InputFile, buffer: array<char>)
      requires fp.pos == 0 && buffer.Length >= 1
      modifies fp`pos, buffer
      ensures Valid() && this.fp == fp && this.buffer == buffer && taken == 0
    {
      this.fp := fp;
      this.buffer := buffer;
      bufferLast := -1;
      current := 0;
      readCount := 0;
      count := 0;
      eof := false;
      taken := 0;
      new;
      FillBuffer();
    }

    method Peek() returns (c: char)
      requires Valid()
      ensures c == Delivered(fp.content, taken)
    {
      c := buffer[current];
      assert current < readCount ==> c == buffer[..readCount][current];
    }

    method Take() returns (c: char)
      requires Valid()
      modifies this, fp`pos, buffer
      ensures Valid() && c == Delivered(fp.content, old(taken)) && taken == old(taken) + 1
    {
      c := Peek();
      if current < bufferLast {
        current := current + 1;
      } else if !eof {
        FillBuffer();
      }
      taken := taken + 1;
    }

    /** Characters consumed, as far as the file goes. */
    method Tell() returns (n: nat)
      requires Valid()
      ensures n == Capped(taken, |fp.content|)
    {
      n := count + current;
    }

    /** `FillBuffer`, while the end has not been seen. */
    method FillBuffer()
      requires buffer.Length >= 1 && !eof && count + readCount == fp.pos <= |fp.content|
      modifies this`bufferLast, this`current, this`readCount, this`count, this`eof, fp`pos, buffer
      ensures Window() && count == old(fp.pos) && current == 0 <= bufferLast
    {
      count := count + readCount;
      readCount := fp.Read(buffer);
      bufferLast := readCount - 1;
      current := 0;
      if readCount < buffer.Length {
        ghost var window := buffer[..readCount];
        buffer[readCount] := '\0';
        assert buffer[..readCount] == window;
        bufferLast := bufferLast + 1;
        eof := true;
      }
    }
  }

  // ---- writing ----

  class OutputFile {
    var written: string

    constructor ()
      ensures written == ""
    {
      written := "";
    }

    /** `fwrite`. */
    method Write(s: string)
      modifies this
      ensures written == old(written) + s
    {
      written := written + s;
    }
  }

  /** What has reached the file, and what waits in the buffer. */
  datatype Output = Output(flushed: string, pending: string) {
    function All(): string { flushed + pending }
  }

  /** `Put`. */
  function PutOne(size: nat, o: Output, c: char): Output {
    if |o.pending| >= size then Output(o.flushed + o.pending, [c]) else Output(o.flushed, o.pending + [c])
  }

  /** `n` calls of `Put`. */
  function PutMany(size: nat, o: Output, c: char, n: nat): Output
    decreases n
  {
    if n == 0 then o else PutMany(size, PutOne(size, o, c), c, n - 1)
  }

  function Flushed(o: Output): Output {
    Output(o.flushed + o.pending, "")
  }

  lemma {:induction false} PutManyFits(size: nat, o: Output, c: char, n: nat)
    requires |o.pending| + n <= size
    ensures PutMany(size, o, c, n) == Output(o.flushed, o.pending + Repeat(c, n))
    decreases n
  {
    if n == 0 {
      assert o.pending + Repeat(c, 0) == o.pending;
    } else {
      PutManyFits(size, PutOne(size, o, c), c, n - 1);
      assert o.pending + [c] + Repeat(c, n - 1) == o.pending + Repeat(c, n);
    }
  }

  /** More than fits: fill the buffer, flush it, go on with the rest. */
  lemma {:induction false} PutManyFlushes(size: nat, o: Output, c: char, n: nat)
    requires |o.pending| <= size && size >= 1 && |o.pending| + n > size
    ensures var avail := size - |o.pending|;
      PutMany(size, o, c, n) == PutMany(size, Flushed(Output(o.flushed, o.pending + Repeat(c, avail))), c, n - avail)
    decreases n
  {
    if |o.pending| == size {
      assert o.pending + Repeat(c, 0) == o.pending;
      assert "" + [c] == [c];
    } else {
      PutManyFlushes(size, PutOne(size, o, c), c, n - 1);
      assert o.pending + [c] + Repeat(c, size - |o.pending| - 1) == o.pending + Repeat(c, size - |o.pending|);
    }
  }

  class FileWriteStream {
    const fp: OutputFile
    const buffer: array<char>
    var current: nat

    ghost predicate Valid()
      reads this
    {
      buffer.Length >= 1 && current <= buffer.Length
    }

    ghost function State(): Output
      requires Valid()
      reads this, fp, buffer
    {
      Output(fp.written, buffer[..current])
    }

    constructor (fp: OutputFile, buffer: array<char>)
      requires buffer.Length >= 1
      ensures Valid() && this.fp == fp && this.buffer == buffer && State() == Output(fp.written, "")
    {
      this.fp := fp;
      this.buffer := buffer;
      current := 0;
    }

    method Put(c: char)
      requires Valid()
      modifies this, fp, buffer
      ensures Valid() && State() == PutOne(buffer.Length, old(State()), c)
    {
      if current >= buffer.Length { Flush(); }
      buffer[current] := c;
      current := current + 1;
      assert buffer[..current] == buffer[..current - 1] + [c];
    }

    method Flush()
      requires Valid()
      modifies this, fp
      ensures Valid() && current == 0 && State() == Flushed(old(State()))
    {
      if current != 0 {
        fp.Write(buffer[..current]);
        current := 0;
      } else {
        assert fp.written + buffer[..current] == fp.written;
      }
    }

    /** `memset` at the cursor, which then moves on. */
    method Fill(c: char, n: nat)
      requires Valid() && current + n <= buffer.Length
      modifies this, buffer
      ensures Valid() && State() == Output(old(State()).flushed, old(State()).pending + Repeat(c, n))
    {
      var start := current;
      ghost var pending := buffer[..start];
      for i := 0 to n
        invariant current == start && buffer[..start + i] == pending + Repeat(c, i)
      {
        buffer[start + i] := c;
        assert buffer[..start + i + 1] == buffer[..start + i] + [c];
        assert Repeat(c, i + 1) == Repeat(c, i) + [c];
      }
      current := start + n;
    }

    /** `PutN` ends, and leaves exactly the state that `n` single calls of `Put` leave. */
    method PutN(c: char, n: nat)
      requires Valid()
      modifies this, fp, buffer
      ensures Valid() && State() == PutMany(buffer.Length, old(State()), c, n)
    {
      var left: nat := n;
      var avail: nat := buffer.Length - current;
      while left > avail
        invariant Valid() && avail == buffer.Length - current
        invariant PutMany(buffer.Length, State(), c, left) == PutMany(buffer.Length, old(State()), c, n)
        decreases left, if avail == 0 then 1 else 0
      {
        PutManyFlushes(buffer.Length, State(), c, left);
        Fill(c, avail);
        Flush();
        left := left - avail;
        avail := buffer.Length - current;
      }
      PutManyFits(buffer.Length, State(), c, left);
      if left > 0 {
        Fill(c, left);
      }
    }
  }

  // ---- nothing is lost ----

  lemma {:induction false} PutManyAll(size: nat, o: Output, c: char, n: nat)
    ensures PutMany(size, o, c, n).All() == o.All() + Repeat(c, n)
    decreases n
  {
    if n == 0 {
      assert o.All() + Repeat(c, 0) == o.All();
    } else {
      PutManyAll(size, PutOne(size, o, c), c, n - 1);
      assert PutOne(size, o, c).All() == o.All() + [c];
      assert o.All() + [c] + Repeat(c, n - 1) == o.All() + Repeat(c, n);
    }
  }

  datatype Call = Put(c: char) | PutN(d: char, n: nat) | Flush

  function Effect(size: nat, o: Output, call: Call): Output {
    match call
    case Put(c) => PutOne(size, o, c)
    case PutN(c, n) => PutMany(size, o, c, n)
    case Flush => Flushed(o)
  }

  function Effects(size: nat, o: Output, calls: seq<Call>): Output
    decreases |calls|
  {
    if calls == [] then o else Effects(size, Effect(size, o, calls[0]), calls[1..])
  }

  /** Everything put, in order. */
  function Everything(calls: seq<Call>): string
    decreases |calls|
  {
    if calls == [] then ""
    else
      (match calls[0] case Put(c) => [c] case PutN(c, n) => Repeat(c, n) case Flush => "") + Everything(calls[1..])
  }

  /** After any calls, whatever the buffer size, what was flushed and what is pending are together exactly what
      was put; and the buffer is never overfull. */
  lemma {:induction false} NothingIsLost(size: nat, o: Output, calls: seq<Call>)
    requires size >= 1 && |o.pending| <= size
    ensures Effects(size, o, calls).All() == o.All() + Everything(calls) && |Effects(size, o, calls).pending| <= size
    decreases |calls|
  {
    if calls == [] {
      assert o.All() + "" == o.All();
    } else {
      EffectAll(size, o, calls[0]);
      NothingIsLost(size, Effect(size, o, calls[0]), calls[1..]);
      var first := match calls[0] case Put(c) => [c] case PutN(c, n) => Repeat(c, n) case Flush => "";
      assert o.All() + first + Everything(calls[1..]) == o.All() + (first + Everything(calls[1..]));
    }
  }

  lemma EffectAll(size: nat, o: Output, call: Call)
    requires size >= 1 && |o.pending| <= size
    ensures |Effect(size, o, call).pending| <= size
    ensures Effect(size, o, call).All() == o.All() + match call case Put(c) => [c] case PutN(c, n) => Repeat(c, n) case Flush => ""
  {
    match call
    case Put(c) =>
      assert o.All() + [c] == o.flushed + (o.pending + [c]);
    case PutN(c, n) =>
      PutManyAll(size, o, c, n);
      PutManyBound(size, o, c, n);
    case Flush =>
  }

  lemma {:induction false} PutManyBound(size: nat, o: Output, c: char, n: nat)
    requires size >= 1 && |o.pending| <= size
    ensures |PutMany(size, o, c, n).pending| <= size
    decreases n
  {
    if n > 0 { PutManyBound(size, PutOne(size, o, c), c, n - 1); }
  }

  // ---- when the buffer is flushed ----

  function Times(q: nat, size: nat): nat { q * size }

  /** Only whole buffers have reached the file, and something is pending once anything was put. */
  ghost predicate Lazy(size: nat, o: Output) {
    (exists q: nat :: |o.flushed| == Times(q, size)) && |o.pending| <= size && (o.All() != "" ==> o.pending != "")
  }

  lemma PutIsLazy(size: nat, o: Output, c: char)
    requires size >= 1 && Lazy(size, o)
    ensures Lazy(size, PutOne(size, o, c))
  {
    var q: nat :| |o.flushed| == Times(q, size);
    assert Times(q + 1, size) == Times(q, size) + size;
    assert |o.pending| == size ==> |PutOne(size, o, c).flushed| == Times(q + 1, size);
    assert |o.pending| < size ==> |PutOne(size, o, c).flushed| == Times(q, size);
    hide Times;
  }

  lemma {:induction false} PutManyIsLazy(size: nat, o: Output, c: char, n: nat)
    requires size >= 1 && Lazy(size, o)
    ensures Lazy(size, PutMany(size, o, c, n))
    decreases n
  {
    hide Lazy, PutOne;
    if n > 0 {
      PutIsLazy(size, o, c);
      PutManyIsLazy(size, PutOne(size, o, c), c, n - 1);
    }
  }

  /** Without calls of `Flush`, text reaches the file in whole buffers only, and no sooner than the next character
      needs the room. */
  lemma {:induction false} FlushesWhenFull(size: nat, o: Output, calls: seq<Call>)
    requires size >= 1 && Lazy(size, o) && forall i :: 0 <= i < |calls| ==> !calls[i].Flush?
    ensures Lazy(size, Effects(size, o, calls))
    decreases |calls|
  {
    hide Lazy, PutOne, PutMany;
    if calls != [] {
      match calls[0] {
        case Put(c) => PutIsLazy(size, o, c);
        case PutN(c, n) => PutManyIsLazy(size, o, c, n);
        case Flush =>
      }
      FlushesWhenFull(size, Effect(size, o, calls[0]), calls[1..]);
    }
  }
}
